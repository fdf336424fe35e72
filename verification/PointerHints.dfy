/** Repair hints for a pointer that missed: the leaves whose last token is the one asked for. */
module PointerHints {
  import opened Wrappers
  import opened Text
  import opened JsonPointer

  function Last(path: seq<string>): string
    requires path != []
  {
    path[|path| - 1]
  }

  function Pointer(path: seq<string>): string
  {
    "/" + Join(path, '/')
  }

  predicate Chosen(path: seq<string>, leaf: string)
  {
    path != [] && Last(path) == leaf
  }

  /** Pointers to those of the paths below `prefix` that end in `leaf`. */
  function Select(paths: seq<seq<string>>, prefix: seq<string>, leaf: string): seq<string>
  {
    if paths == [] then []
    else
      var path := prefix + paths[0];
      (if Chosen(path, leaf) then [Pointer(path)] else []) + Select(paths[1..], prefix, leaf)
  }

  function First(limit: nat, pointers: seq<string>): seq<string>
  {
    if |pointers| <= limit then pointers else pointers[..limit]
  }

  function Hints(document: Json, pointer: string, limit: nat): seq<string>
  {
    First(limit, Select(Leaves(document), [], Last(Tokens(pointer))))
  }

  // ---------------------------------------------------------------------
  // The walk

  lemma {:induction false} SelectAppend(a: seq<seq<string>>, b: seq<seq<string>>, prefix: seq<string>, leaf: string)
    ensures Select(a + b, prefix, leaf) == Select(a, prefix, leaf) + Select(b, prefix, leaf)
  {
    if a != [] {
      SelectAppend(a[1..], b, prefix, leaf);
      assert (a + b)[1..] == a[1..] + b;
    } else {
      assert a + b == b;
    }
  }

  lemma {:induction false} SelectUnder(step: string, paths: seq<seq<string>>, prefix: seq<string>, leaf: string)
    ensures Select(Under(step, paths), prefix, leaf) == Select(paths, prefix + [step], leaf)
  {
    if paths != [] {
      SelectUnder(step, paths[1..], prefix, leaf);
      assert Under(step, paths)[1..] == Under(step, paths[1..]);
      assert prefix + ([step] + paths[0]) == (prefix + [step]) + paths[0];
    }
  }

  lemma FirstAbsorbs(limit: nat, a: seq<string>, b: seq<string>)
    ensures First(limit, First(limit, a) + b) == First(limit, a + b)
  {
  }

  lemma WalkAdvances(v: Json, i: nat, path: seq<string>, leaf: string, limit: nat, done: seq<string>)
    requires i < |Children(v)|
    ensures First(limit, done + Select(LeavesFrom(v, i), path, leaf))
         == First(limit, First(limit, done + Select(Leaves(Children(v)[i].value), path + [Children(v)[i].step], leaf))
                         + Select(LeavesFrom(v, i + 1), path, leaf))
  {
    var child := Children(v)[i];
    var here, later := Select(Leaves(child.value), path + [child.step], leaf), Select(LeavesFrom(v, i + 1), path, leaf);
    SelectAppend(Under(child.step, Leaves(child.value)), LeavesFrom(v, i + 1), path, leaf);
    SelectUnder(child.step, Leaves(child.value), path, leaf);
    assert Select(LeavesFrom(v, i), path, leaf) == here + later;
    assert done + (here + later) == (done + here) + later;
    FirstAbsorbs(limit, done + here, later);
  }

  lemma ScalarWalk(v: Json, path: seq<string>, leaf: string)
    requires Scalar(v)
    ensures Select(Leaves(v), path, leaf) == if Chosen(path, leaf) then [Pointer(path)] else []
  {
    assert path + [] == path && Leaves(v) == [[]] && Leaves(v)[1..] == [];
  }

  lemma FullStaysFull(limit: nat, done: seq<string>, more: seq<string>)
    requires |done| == limit
    ensures First(limit, done + more) == done
  {
  }

  lemma WalkEnds(v: Json, path: seq<string>, leaf: string, limit: nat, done: seq<string>)
    requires |done| <= limit
    ensures First(limit, done + Select(LeavesFrom(v, |Children(v)|), path, leaf)) == done
  {
    assert done + [] == done;
  }

  /** The walk that collects hints into one shared, bounded list. */
  class HintWalk {
    const leaf: string
    const limit: nat
    var candidates: seq<string>

    constructor (leaf: string, limit: nat)
      ensures this.leaf == leaf && this.limit == limit && candidates == []
    {
      this.leaf, this.limit, this.candidates := leaf, limit, [];
    }

    method Walk(v: Json, path: seq<string>)
      requires |candidates| <= limit
      modifies this
      ensures |candidates| <= limit
      ensures candidates == First(limit, old(candidates) + Select(Leaves(v), path, leaf))
      decreases v
    {
      ghost var start := candidates;
      ghost var goal := First(limit, start + Select(Leaves(v), path, leaf));
      if |candidates| >= limit {
        FullStaysFull(limit, start, Select(Leaves(v), path, leaf));
        return;
      }
      if Scalar(v) {
        ScalarWalk(v, path, leaf);
        if path != [] && path[|path| - 1] == leaf {
          candidates := candidates + [Pointer(path)];
        }
        return;
      }
      var children := Children(v);
      var i := 0;
      while i < |children|
        invariant i <= |children| && |candidates| <= limit
        invariant goal == First(limit, candidates + Select(LeavesFrom(v, i), path, leaf))
      {
        WalkAdvances(v, i, path, leaf, limit, candidates);
        Walk(children[i].value, path + [children[i].step]);
        i := i + 1;
      }
      WalkEnds(v, path, leaf, limit, candidates);
    }
  }

  method RepairHints(document: Json, pointer: string, limit: nat) returns (hints: seq<string>)
    ensures hints == Hints(document, pointer, limit)
  {
    var tokens := Tokens(pointer);
    var walk := new HintWalk(tokens[|tokens| - 1], limit);
    walk.Walk(document, []);
    hints := walk.candidates;
    assert [] + Select(Leaves(document), [], walk.leaf) == Select(Leaves(document), [], walk.leaf);
  }

  // ---------------------------------------------------------------------
  // What the hints are

  lemma {:induction false} SelectMembers(paths: seq<seq<string>>, leaf: string, h: string)
    ensures h in Select(paths, [], leaf) <==> exists path :: path in paths && Chosen(path, leaf) && h == Pointer(path)
  {
    if paths != [] {
      SelectMembers(paths[1..], leaf, h);
      assert [] + paths[0] == paths[0];
      assert forall path :: path in paths <==> path == paths[0] || path in paths[1..];
    }
  }

  /** A pointer built from clean tokens splits back into them. */
  lemma TokensOfPointer(path: seq<string>)
    requires path != [] && forall t :: t in path ==> '/' !in t
    ensures Tokens(Pointer(path)) == path
  {
    assert Pointer(path)[1..] == Join(path, '/');
    SplitJoin(path, '/');
  }

  ghost predicate NoRepeats(hints: seq<string>)
  {
    forall i, j :: 0 <= i < j < |hints| ==> hints[i] != hints[j]
  }

  lemma {:induction false} SelectDiffer(paths: seq<seq<string>>, leaf: string)
    requires AllDifferent(paths) && forall path, t :: path in paths && t in path ==> '/' !in t
    ensures NoRepeats(Select(paths, [], leaf))
  {
    if paths != [] {
      var rest := Select(paths[1..], [], leaf);
      SelectDiffer(paths[1..], leaf);
      assert [] + paths[0] == paths[0];
      if Chosen(paths[0], leaf) {
        forall i | 0 <= i < |rest|
          ensures rest[i] != Pointer(paths[0])
        {
          assert rest[i] in rest;
          SelectMembers(paths[1..], leaf, rest[i]);
          var path :| path in paths[1..] && Chosen(path, leaf) && rest[i] == Pointer(path);
          TokensOfPointer(path);
          TokensOfPointer(paths[0]);
        }
      }
    }
  }

  /** Every hint resolves to a scalar under the requested final token; hints are distinct and within the limit. */
  lemma HintsResolve(document: Json, pointer: string, limit: nat)
    requires WellFormed(document)
    ensures var hints := Hints(document, pointer, limit);
            && |hints| <= limit && NoRepeats(hints)
            && (forall h :: h in hints ==>
                  && Resolve(document, h).Some? && Scalar(Resolve(document, h).value)
                  && Last(Tokens(h)) == Last(Tokens(pointer)))
  {
    var leaf := Last(Tokens(pointer));
    forall path | path in Leaves(document)
      ensures forall t :: t in path ==> '/' !in t
    {
      LeavesAreNamed(document, path);
      LeafResolves(document, path);
    }
    LeavesDiffer(document);
    SelectDiffer(Leaves(document), leaf);
    forall h | h in Hints(document, pointer, limit)
      ensures Resolve(document, h).Some? && Scalar(Resolve(document, h).value) && Last(Tokens(h)) == leaf
    {
      SelectMembers(Leaves(document), leaf, h);
      var path :| path in Leaves(document) && Chosen(path, leaf) && h == Pointer(path);
      LeavesAreNamed(document, path);
      LeafResolves(document, path);
      TokensOfPointer(path);
    }
  }

  predicate Wanted(document: Json, pointer: string, path: seq<string>)
  {
    NamesLeaf(document, path) && Chosen(path, Last(Tokens(pointer)))
  }

  /** When fewer hints than the limit come back, they are exactly the leaves under the requested final token. */
  lemma HintsAreComplete(document: Json, pointer: string, limit: nat, h: string)
    requires |Hints(document, pointer, limit)| < limit
    ensures h in Hints(document, pointer, limit) <==> exists path :: Wanted(document, pointer, path) && h == Pointer(path)
  {
    var leaf := Last(Tokens(pointer));
    SelectMembers(Leaves(document), leaf, h);
    assert Hints(document, pointer, limit) == Select(Leaves(document), [], leaf);
    forall path
      ensures path in Leaves(document) && Chosen(path, leaf) <==> Wanted(document, pointer, path)
    {
      LeavesAreNamed(document, path);
    }
  }

  /** So any pointer that resolves to a scalar under that final token is, spelled canonically, one of them. */
  lemma ResolvingPointerIsHinted(document: Json, pointer: string, limit: nat, found: string)
    requires |Hints(document, pointer, limit)| < limit
    requires found != "" && Resolve(document, found).Some? && Scalar(Resolve(document, found).value)
    requires Last(Canonical(document, Tokens(found))) == Last(Tokens(pointer))
    ensures Pointer(Canonical(document, Tokens(found))) in Hints(document, pointer, limit)
  {
    var path := Canonical(document, Tokens(found));
    ResolvedIsLeaf(document, Tokens(found));
    assert Wanted(document, pointer, path);
    HintsAreComplete(document, pointer, limit, Pointer(path));
  }
}
