/** Normalising a path keeps the place it leads to. */
module PathMeaning {
  import opened Text
  import opened Paths

  /** Where a walk leads from `base`: `.` and an empty component stay, `..` goes up, never above the top. */
  function Walk(base: seq<string>, comps: seq<string>): seq<string>
  {
    if comps == [] then base else Move(Walk(base, comps[..|comps| - 1]), comps[|comps| - 1])
  }

  function Move(here: seq<string>, comp: string): seq<string>
  {
    if comp == "" || comp == "." then here
    else if comp != ".." then here + [comp]
    else if here == [] then here
    else here[..|here| - 1]
  }

  lemma WalkSnoc(base: seq<string>, comps: seq<string>, comp: string)
    ensures Walk(base, comps + [comp]) == Move(Walk(base, comps), comp)
  {
    assert (comps + [comp])[..|comps|] == comps;
  }

  /** A reduced path from the top that keeps nothing stays at the top. */
  lemma {:induction false} RootedWalk(kept: seq<string>)
    requires Reduced(kept, true)
    ensures Walk([], kept) == kept
  {
    if kept != [] {
      var before := kept[..|kept| - 1];
      RootedWalk(before);
      assert kept == before + [kept[|kept| - 1]] && kept[|kept| - 1] in kept;
    }
  }

  /** Reducing components changes nothing about where they lead: from anywhere, or from the top for an absolute path. */
  lemma {:induction false} ReduceKeepsPlace(base: seq<string>, parts: seq<string>, kept: seq<string>, rooted: bool)
    requires Reduced(kept, rooted) && (rooted ==> base == [])
    requires forall p :: p in parts ==> '/' !in p && '\\' !in p
    ensures Walk(base, Reduce(parts, kept, rooted)) == Walk(base, kept + parts)
    decreases |parts|
  {
    if parts == [] {
      assert kept + parts == kept;
    } else {
      var next := Reduce([parts[0]], kept, rooted);
      ReduceReduces([parts[0]], kept, rooted);
      ReduceOne(parts, kept, rooted);
      ReduceKeepsPlace(base, parts[1..], next, rooted);
      OneStepOn(base, kept, parts, rooted);
    }
  }

  lemma OneStepOn(base: seq<string>, kept: seq<string>, parts: seq<string>, rooted: bool)
    requires parts != [] && Reduced(kept, rooted) && (rooted ==> base == [])
    ensures Walk(base, Reduce([parts[0]], kept, rooted) + parts[1..]) == Walk(base, kept + parts)
  {
    OneReduced(base, kept, parts[0], rooted);
    WalkOn(base, Reduce([parts[0]], kept, rooted), kept + [parts[0]], parts[1..]);
    assert (kept + [parts[0]]) + parts[1..] == kept + parts;
  }

  lemma ReduceOne(parts: seq<string>, kept: seq<string>, rooted: bool)
    requires parts != []
    ensures Reduce(parts, kept, rooted) == Reduce(parts[1..], Reduce([parts[0]], kept, rooted), rooted)
  {
    assert [parts[0]][1..] == [];
  }

  lemma OneReduced(base: seq<string>, kept: seq<string>, comp: string, rooted: bool)
    requires Reduced(kept, rooted) && (rooted ==> base == [])
    ensures Walk(base, Reduce([comp], kept, rooted)) == Walk(base, kept + [comp])
  {
    assert [comp][1..] == [];
    WalkSnoc(base, kept, comp);
    if comp == ".." {
      if kept == [] {
        if rooted { assert Walk(base, kept) == []; }
      } else if kept[|kept| - 1] != ".." {
        var before, last := kept[..|kept| - 1], kept[|kept| - 1];
        assert kept == before + [last] && last in kept;
        WalkSnoc(base, before, last);
      }
    }
  }

  /** Walks that have reached one place go on alike. */
  lemma {:induction false} WalkOn(base: seq<string>, a: seq<string>, b: seq<string>, rest: seq<string>)
    requires Walk(base, a) == Walk(base, b)
    ensures Walk(base, a + rest) == Walk(base, b + rest)
  {
    if rest == [] {
      assert a + rest == a && b + rest == b;
    } else {
      var before, last := rest[..|rest| - 1], rest[|rest| - 1];
      WalkOn(base, a, b, before);
      WalkSnoc(base, a + before, last);
      WalkSnoc(base, b + before, last);
      assert a + rest == (a + before) + [last] && b + rest == (b + before) + [last];
    }
  }

  /** The place a written path leads to from `base`; one that begins with a slash starts at the top. */
  function Place(base: seq<string>, path: string): seq<string>
  {
    Walk(if path != "" && path[0] == '/' then [] else base, Split(path, '/'))
  }

  lemma PlaceOfReduced(base: seq<string>, path: string, comps: seq<string>, rooted: bool)
    requires rooted <==> path != "" && path[0] == '/'
    requires '\\' !in path && Reduce(Split(path, '/'), [], rooted) == comps
    ensures Place(base, path) == Walk(if rooted then [] else base, comps)
  {
    var parts := Split(path, '/');
    assert [] + parts == parts;
    ReduceKeepsPlace(if rooted then [] else base, parts, [], rooted);
  }

  /** From wherever it is read, a path and its normal form lead to the same place. */
  lemma NormKeepsPlace(base: seq<string>, path: string)
    requires '\\' !in path
    ensures Place(base, NormPath(path)) == Place(base, path)
  {
    var slashes := InitialSlashes(path);
    var rooted := slashes != "";
    var comps := Reduce(Split(path, '/'), [], rooted);
    if path == "" {
      SplitPiece(".", '/');
      assert Walk(base, [""]) == base && Walk(base, ["."]) == base by { WalkSnoc(base, [], ""); WalkSnoc(base, [], "."); }
    } else {
      ReduceReduces(Split(path, '/'), [], rooted);
      PlaceOfReduced(base, path, comps, rooted);
      NormPlace(base, slashes, comps);
    }
  }

  lemma NormPlace(base: seq<string>, slashes: string, comps: seq<string>)
    requires slashes == "" || slashes == "/" || slashes == "//"
    requires Reduced(comps, slashes != "")
    ensures var body := slashes + Join(comps, '/');
            Place(base, if body == "" then "." else body) == Walk(if slashes != "" then [] else base, comps)
  {
    var body, rooted := slashes + Join(comps, '/'), slashes != "";
    if comps != [] { JoinedComponents(comps); }
    if body == "" {
      assert comps == [];
      SplitPiece(".", '/');
      WalkSnoc(base, [], ".");
      assert [] + ["."] == ["."];
    } else {
      RootedSplit(slashes, comps);
      NoBackslashIn(slashes, comps);
      assert slashes == "" ==> body == Join(comps, '/');
      PlaceOfReduced(base, body, comps, rooted);
    }
  }

  lemma {:induction false} NoBackslashIn(slashes: string, comps: seq<string>)
    requires slashes == "" || slashes == "/" || slashes == "//"
    requires forall c :: c in comps ==> Clean(c)
    ensures '\\' !in slashes + Join(comps, '/')
    decreases |comps|
  {
    if comps != [] {
      assert comps[0] in comps;
      if |comps| > 1 { NoBackslashIn("", comps[1..]); assert "" + Join(comps[1..], '/') == Join(comps[1..], '/'); }
    }
  }

  /** How many slashes a normalised path begins with: two exactly for two, one for any other number, none for none. */
  lemma SlashesExactly(path: string)
    ensures NormPath("") == "."
    ensures |InitialSlashes(path)| ==
            if path == "" || path[0] != '/' then 0
            else if |path| >= 2 && path[1] == '/' && !(|path| >= 3 && path[2] == '/') then 2 else 1
    ensures forall c :: c in InitialSlashes(path) ==> c == '/'
  {
  }
}
