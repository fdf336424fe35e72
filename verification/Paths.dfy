/** Repository paths: how claims compare them and how the pre-write gate matches them. */
module Paths {
  import opened Text

  /** `posixpath.normpath`, component by component. */
  function NormPath(path: string): string
  {
    if path == "" then "."
    else
      var slashes := InitialSlashes(path);
      var body := slashes + Join(Reduce(Split(path, '/'), [], slashes != ""), '/');
      if body == "" then "." else body
  }

  /** One or two leading slashes are kept, three or more count as one. */
  function InitialSlashes(path: string): string
  {
    if !StartsWith(path, "/") then ""
    else if StartsWith(path, "//") && !StartsWith(path, "///") then "//"
    else "/"
  }

  function Reduce(parts: seq<string>, kept: seq<string>, rooted: bool): seq<string>
  {
    if parts == [] then kept
    else
      var comp := parts[0];
      var kept' :=
        if comp == "" || comp == "." then kept
        else if comp != ".." || (!rooted && kept == []) || (kept != [] && kept[|kept| - 1] == "..") then kept + [comp]
        else if kept != [] then kept[..|kept| - 1]
        else kept;
      Reduce(parts[1..], kept', rooted)
  }

  function NormalizeRepoPath(path: string): string
  {
    var normalized := NormPath(Trim(Replace(path, "\\", "/"), IsSpace));
    if StartsWith(normalized, "./") then normalized[2..] else normalized
  }

  predicate PathsOverlap(left: string, right: string)
  {
    var l, r := NormalizeRepoPath(left), NormalizeRepoPath(right);
    l == r || StartsWith(l, r + "/") || StartsWith(r, l + "/")
  }

  predicate IsSlash(c: char)
  {
    c == '/'
  }

  /** The pre-write gate's own reading of a claimed path. */
  function GatePath(claimed: string): string
  {
    Trim(Replace(Trim(claimed, IsSpace), "\\", "/"), IsSlash)
  }

  predicate PathIsClaimed(target: string, claimed: string)
  {
    var normalized := GatePath(claimed);
    normalized == "" || normalized == "." || target == normalized || StartsWith(target, normalized + "/")
  }

  /** A path the claim writers would store unchanged. */
  predicate Canonical(path: string)
  {
    '\\' !in path && Trim(path, IsSpace) == path && NormPath(path) == path
  }

  /** A canonical path that is relative and is not the repository itself. */
  predicate Plain(path: string)
  {
    Canonical(path) && path != "." && !StartsWith(path, "/")
  }

  // ---------------------------------------------------------------------
  // Normal forms

  predicate Clean(comp: string)
  {
    comp != "" && comp != "." && '/' !in comp && '\\' !in comp
  }

  /** Components after reduction: `..` survives only at the front of a relative path. */
  ghost predicate Reduced(comps: seq<string>, rooted: bool)
  {
    && (forall c :: c in comps ==> Clean(c))
    && (forall i :: 0 <= i < |comps| && comps[i] == ".." ==> !rooted && (i == 0 || comps[i - 1] == ".."))
  }

  lemma {:induction false} ReduceReduces(parts: seq<string>, kept: seq<string>, rooted: bool)
    requires Reduced(kept, rooted)
    requires forall p :: p in parts ==> '/' !in p && '\\' !in p
    ensures Reduced(Reduce(parts, kept, rooted), rooted)
  {
    if parts != [] {
      var comp := parts[0];
      var kept' :=
        if comp == "" || comp == "." then kept
        else if comp != ".." || (!rooted && kept == []) || (kept != [] && kept[|kept| - 1] == "..") then kept + [comp]
        else if kept != [] then kept[..|kept| - 1]
        else kept;
      assert Reduced(kept', rooted);
      ReduceReduces(parts[1..], kept', rooted);
    }
  }

  lemma {:induction false} ReduceFixed(parts: seq<string>, kept: seq<string>, rooted: bool)
    requires Reduced(kept + parts, rooted)
    ensures Reduce(parts, kept, rooted) == kept + parts
  {
    if parts == [] {
      assert kept + parts == kept;
    } else {
      var all := kept + parts;
      assert all[|kept|] == parts[0] && parts[0] in all;
      assert kept != [] ==> all[|kept| - 1] == kept[|kept| - 1];
      assert kept + parts == (kept + [parts[0]]) + parts[1..];
      ReduceFixed(parts[1..], kept + [parts[0]], rooted);
    }
  }

  /** Joining clean components and splitting them again changes nothing. */
  lemma JoinedComponents(comps: seq<string>)
    requires |comps| > 0 && forall c :: c in comps ==> Clean(c)
    ensures Split(Join(comps, '/'), '/') == comps
    ensures Join(comps, '/') != "" && Join(comps, '/')[0] != '/'
  {
    SplitJoin(comps, '/');
    assert comps[0] in comps;
    assert |comps| > 1 ==> Join(comps, '/')[0] == comps[0][0];
    assert comps[0][0] in comps[0];
  }

  /** A canonical path, cut into its slashes and its components. */
  lemma CanonicalShape(path: string) returns (slashes: string, comps: seq<string>)
    requires Canonical(path)
    ensures slashes == InitialSlashes(path)
    ensures Reduced(comps, slashes != "")
    ensures path == (if slashes == "" && comps == [] then "." else slashes + Join(comps, '/'))
  {
    slashes := InitialSlashes(path);
    comps := [];
    if path != "" {
      comps := Reduce(Split(path, '/'), [], slashes != "");
      ReduceReduces(Split(path, '/'), [], slashes != "");
      if comps != [] { JoinedComponents(comps); }
    }
  }

  /** Clean relative components, joined, are a plain path. */
  lemma RelativeIsPlain(comps: seq<string>)
    requires |comps| > 0 && Reduced(comps, false)
    requires Trim(Join(comps, '/'), IsSpace) == Join(comps, '/')
    requires '\\' !in Join(comps, '/')
    ensures Plain(Join(comps, '/'))
  {
    var p := Join(comps, '/');
    JoinedComponents(comps);
    ReduceFixed(comps, [], false);
    assert [] + comps == comps;
    SplitPiece(".", '/');
    assert comps[0] in comps;
  }

  lemma {:induction false} ReplaceAbsent(s: string, old_: char, by_: string)
    requires old_ !in s
    ensures Replace(s, [old_], by_) == s
  {
    if s != "" {
      assert s[..1] == [s[0]];
      ReplaceAbsent(s[1..], old_, by_);
      assert s == [s[0]] + s[1..];
    }
  }

  /** What normalising a canonical path again yields. */
  lemma CanonicalIsFixed(path: string)
    requires Canonical(path)
    ensures path != "" && NormalizeRepoPath(path) == path
  {
    ReplaceAbsent(path, '\\', "/");
    var slashes, comps := CanonicalShape(path);
    if StartsWith(path, "./") {
      DotIsNoComponent(path, comps);
    }
  }

  lemma DotIsNoComponent(path: string, comps: seq<string>)
    requires StartsWith(path, "./")
    requires forall c :: c in comps ==> Clean(c)
    ensures path != Join(comps, '/')
  {
    assert path == "." + ['/'] + path[2..];
    SplitConcat(".", path[2..], '/');
    SplitPiece(".", '/');
    if comps != [] {
      JoinedComponents(comps);
      assert comps[0] in comps;
    }
  }

  /** The gate reads a canonical path without its leading slashes. */
  lemma CanonicalAtGate(path: string)
    requires Canonical(path)
    ensures GatePath(path) == Trim(path, IsSlash)
    ensures !StartsWith(path, "/") ==> GatePath(path) == path
  {
    ReplaceAbsent(path, '\\', "/");
    var slashes, comps := CanonicalShape(path);
    TrimBounds(path, IsSlash);
    if comps != [] {
      LastCharacter(comps);
    }
  }

  /** A joined path never ends in a separator. */
  lemma {:induction false} LastCharacter(comps: seq<string>)
    requires |comps| > 0 && forall c :: c in comps ==> Clean(c)
    ensures Join(comps, '/') != "" && Join(comps, '/')[|Join(comps, '/')| - 1] != '/'
  {
    if |comps| == 1 {
      assert comps[0] in comps;
      assert comps[0][|comps[0]| - 1] in comps[0];
    } else {
      LastCharacter(comps[1..]);
    }
  }

  /** Neither end of the text is a space. */
  predicate BareEdges(s: string)
  {
    s != "" && !IsSpace(s[0]) && !IsSpace(s[|s| - 1])
  }

  /** Whatever a claim writer is given, what it stores is canonical exactly when its edges hold no spaces. */
  lemma StoredPathIsCanonicalExactly(raw: string)
    ensures Canonical(NormalizeRepoPath(raw)) <==> BareEdges(NormalizeRepoPath(raw))
  {
    TrimBounds(NormalizeRepoPath(raw), IsSpace);
    if Canonical(NormalizeRepoPath(raw)) { CanonicalIsFixed(NormalizeRepoPath(raw)); }
    if BareEdges(NormalizeRepoPath(raw)) { BareStoredPathIsCanonical(raw); }
  }

  lemma DotSlashSpace()
    ensures NormPath("./ a") == " a"
  {
    var raw := "./ a";
    SplitPiece(".", '/');
    SplitPiece(" a", '/');
    SplitConcat(".", " a", '/');
    assert "." + ['/'] + " a" == raw;
    var parts := Split(raw, '/');
    assert parts == ["."] + [" a"] && parts[1..] == [" a"] && parts[1..][1..] == [];
    assert Reduce(parts, [], false) == [" a"];
  }

  lemma StripsToA()
    ensures Trim(" a", IsSpace) == "a"
  {
    assert " a"[1..] == "a";
    assert TrimLeft(" a", IsSpace) == TrimLeft("a", IsSpace) == "a";
  }

  lemma ReadsAsA()
    ensures NormalizeRepoPath(" a") == "a"
  {
    ReplaceAbsent(" a", '\\', "/");
    StripsToA();
    LetterIsPlain('a');
  }

  /** `./ a` is stored with a leading space, and that form is read back as `a`. */
  lemma SpacedPathIsNotCanonical()
    ensures NormalizeRepoPath("./ a") == " a" && !Canonical(" a") && NormalizeRepoPath(" a") == "a"
  {
    ReplaceAbsent("./ a", '\\', "/");
    TrimBounds("./ a", IsSpace);
    DotSlashSpace();
    ReadsAsA();
    StripsToA();
  }

  lemma BareStoredPathIsCanonical(raw: string)
    requires Trim(NormalizeRepoPath(raw), IsSpace) == NormalizeRepoPath(raw)
    ensures Canonical(NormalizeRepoPath(raw))
  {
    var text := Trim(Replace(raw, "\\", "/"), IsSpace);
    NoBackslash(raw);
    TrimKeeps(Replace(raw, "\\", "/"));
    var slashes := InitialSlashes(text);
    var comps := if text == "" then [] else Reduce(Split(text, '/'), [], slashes != "");
    if text != "" {
      ReduceReduces(Split(text, '/'), [], slashes != "");
    }
    var form := if slashes == "" && comps == [] then "." else slashes + Join(comps, '/');
    if comps != [] { JoinedComponents(comps); }
    assert NormPath(text) == form;
    if StartsWith(form, "./") { DotIsNoComponent(form, comps); }
    ReducedFormIsFixed(slashes, comps);
    JoinKeepsClean(comps);
  }

  lemma {:induction false} NoBackslash(s: string)
    ensures '\\' !in Replace(s, "\\", "/")
  {
    if s != "" {
      assert s[..1] == [s[0]];
      NoBackslash(s[1..]);
    }
  }

  lemma TrimKeeps(s: string)
    ensures forall c :: c in Trim(s, IsSpace) ==> c in s
  {
    TrimLeftKeeps(s);
    TrimRightBound(TrimLeft(s, IsSpace), IsSpace);
  }

  lemma {:induction false} TrimLeftKeeps(s: string)
    ensures forall c :: c in TrimLeft(s, IsSpace) ==> c in s
  {
    if s != "" && IsSpace(s[0]) { TrimLeftKeeps(s[1..]); }
  }

  lemma {:induction false} JoinKeepsClean(comps: seq<string>)
    requires forall c :: c in comps ==> Clean(c)
    ensures '\\' !in Join(comps, '/')
  {
    if |comps| > 0 {
      assert comps[0] in comps;
      JoinKeepsClean(comps[1..]);
    }
  }

  /** Normalising a normal form is the identity. */
  lemma ReducedFormIsFixed(slashes: string, comps: seq<string>)
    requires slashes == "" || slashes == "/" || slashes == "//"
    requires Reduced(comps, slashes != "")
    ensures var form := if slashes == "" && comps == [] then "." else slashes + Join(comps, '/');
            NormPath(form) == form
  {
    var body := Join(comps, '/');
    if comps != [] {
      JoinedComponents(comps);
    }
    if slashes != "" || comps != [] {
      RootedSplit(slashes, comps);
      assert InitialSlashes(slashes + body) == slashes;
    } else {
      SplitPiece(".", '/');
      assert Reduce(["."], [], false) == [];
    }
  }

  lemma RootedSplit(slashes: string, comps: seq<string>)
    requires slashes == "" || slashes == "/" || slashes == "//"
    requires Reduced(comps, slashes != "")
    ensures Reduce(Split(slashes + Join(comps, '/'), '/'), [], slashes != "") == comps
  {
    PlainSplit(comps, slashes != "");
    var body := Join(comps, '/');
    if slashes == "" {
      assert slashes + body == body;
    } else if slashes == "/" {
      SlashSplit(body);
    } else {
      DoubleSlashSplit(body);
    }
  }

  lemma PlainSplit(comps: seq<string>, rooted: bool)
    requires Reduced(comps, rooted)
    ensures Split(Join(comps, '/'), '/') == if comps == [] then [""] else comps
    ensures Reduce(Split(Join(comps, '/'), '/'), [], rooted) == comps
  {
    if comps != [] {
      JoinedComponents(comps);
      ReduceFixed(comps, [], rooted);
      assert [] + comps == comps;
    }
  }

  /** A leading slash adds an empty component, which reduction skips. */
  lemma SlashSplit(body: string)
    ensures Split("/" + body, '/') == [""] + Split(body, '/')
    ensures Reduce(Split("/" + body, '/'), [], true) == Reduce(Split(body, '/'), [], true)
  {
    assert ("/" + body)[1..] == body;
    assert ([""] + Split(body, '/'))[1..] == Split(body, '/');
  }

  lemma DoubleSlashSplit(body: string)
    ensures Reduce(Split("//" + body, '/'), [], true) == Reduce(Split(body, '/'), [], true)
  {
    SlashSplit(body);
    SlashSplit("/" + body);
    assert "/" + ("/" + body) == "//" + body;
  }

  // ---------------------------------------------------------------------
  // What coverage and overlap mean

  /** Below-or-equal in the directory tree. */
  predicate Below(path: string, dir: string)
  {
    path == dir || StartsWith(path, dir + "/")
  }

  lemma BelowIsPrefix(path: string, dir: string)
    ensures Below(path, dir) <==> Split(dir, '/') <= Split(path, '/')
  {
    if StartsWith(path, dir + "/") {
      BelowExtends(path, dir);
    }
    if Split(dir, '/') <= Split(path, '/') {
      ExtensionIsBelow(path, dir);
    }
  }

  lemma BelowExtends(path: string, dir: string)
    requires StartsWith(path, dir + "/")
    ensures Split(dir, '/') <= Split(path, '/')
  {
    var rest := path[|dir| + 1..];
    assert path == dir + ['/'] + rest;
    SplitConcat(dir, rest, '/');
  }

  lemma ExtensionIsBelow(path: string, dir: string)
    requires Split(dir, '/') <= Split(path, '/')
    ensures Below(path, dir)
  {
    var p, d := Split(path, '/'), Split(dir, '/');
    JoinSplit(path, '/');
    JoinSplit(dir, '/');
    if |d| == |p| {
      assert d == p;
    } else {
      assert p == d + p[|d|..];
      JoinConcat(d, p[|d|..], '/');
      assert path == (dir + "/") + Join(p[|d|..], '/');
    }
  }

  lemma OverlapOfCanonical(left: string, right: string)
    requires Canonical(left) && Canonical(right)
    ensures PathsOverlap(left, right) <==> Below(left, right) || Below(right, left)
  {
    CanonicalIsFixed(left);
    CanonicalIsFixed(right);
  }

  lemma ClaimedByCanonical(target: string, claimed: string)
    requires Canonical(claimed)
    ensures PathIsClaimed(target, claimed)
       <==> (var path := Trim(claimed, IsSlash); path == "" || path == "." || Below(target, path))
    ensures !StartsWith(claimed, "/") ==> Trim(claimed, IsSlash) == claimed
  {
    CanonicalAtGate(claimed);
  }

  /** Two canonical paths overlap exactly when the components of one begin the other's. */
  lemma OverlapMeaning(left: string, right: string)
    requires Canonical(left) && Canonical(right)
    ensures PathsOverlap(left, right)
       <==> (Split(left, '/') <= Split(right, '/') || Split(right, '/') <= Split(left, '/'))
  {
    OverlapOfCanonical(left, right);
    BelowIsPrefix(left, right);
    BelowIsPrefix(right, left);
  }

  /** A plain path covers exactly the targets whose components its own begin. */
  lemma ClaimedMeaning(target: string, claimed: string)
    requires Plain(claimed)
    ensures PathIsClaimed(target, claimed) <==> Split(claimed, '/') <= Split(target, '/')
  {
    CanonicalIsFixed(claimed);
    ClaimedByCanonical(target, claimed);
    BelowIsPrefix(target, claimed);
  }

  /** Two plain paths that both cover one target overlap. */
  lemma CoveringPathsOverlap(target: string, left: string, right: string)
    requires Plain(left) && Plain(right)
    requires PathIsClaimed(target, left) && PathIsClaimed(target, right)
    ensures PathsOverlap(left, right)
  {
    ClaimedMeaning(target, left);
    ClaimedMeaning(target, right);
    OverlapMeaning(left, right);
  }

  /** The canonical paths the two readings disagree on: `.`, and absolute paths a plain path's target can match. */
  predicate Hazard(path: string)
  {
    var rest := Trim(path, IsSlash);
    path == "." || (StartsWith(path, "/") && (rest == "" || !IsSpace(rest[0])))
  }

  /** Whether sharing a target with a plain path always shows as an overlap. */
  ghost predicate CoverageShowsAsOverlap(path: string)
  {
    forall other, target ::
      Plain(other) && PathIsClaimed(target, path) && PathIsClaimed(target, other) ==> PathsOverlap(path, other)
  }

  lemma CoverageShowsExactlyWithoutHazard(path: string)
    requires Canonical(path)
    ensures CoverageShowsAsOverlap(path) <==> !Hazard(path)
  {
    if Hazard(path) {
      var other, target := HazardWitness(path);
    } else {
      forall other, target | Plain(other) && PathIsClaimed(target, path) && PathIsClaimed(target, other)
        ensures PathsOverlap(path, other)
      {
        if StartsWith(path, "/") {
          SpacedTargetsAreUnclaimed(target, path, other);
        } else {
          CoveringPathsOverlap(target, path, other);
        }
      }
    }
  }

  lemma BelowStartsAlike(target: string, dir: string)
    requires Below(target, dir) && dir != ""
    ensures target != "" && target[0] == dir[0]
  {
  }

  lemma PlainStartsWithoutSpace(path: string)
    requires Plain(path)
    ensures path != "" && !IsSpace(path[0])
  {
    CanonicalIsFixed(path);
    TrimBounds(path, IsSpace);
  }

  /** A target beginning with a space is under no plain path. */
  lemma SpacedTargetsAreUnclaimed(target: string, path: string, other: string)
    requires Canonical(path) && StartsWith(path, "/") && !Hazard(path) && Plain(other)
    requires PathIsClaimed(target, path)
    ensures !PathIsClaimed(target, other)
  {
    var rest := Trim(path, IsSlash);
    ClaimedByCanonical(target, path);
    assert rest != "" && IsSpace(rest[0]);
    assert rest != ".";
    BelowStartsAlike(target, rest);
    PlainStartsWithoutSpace(other);
    ClaimedByCanonical(target, other);
    if Below(target, other) { BelowStartsAlike(target, other); }
  }

  /** A hazard admits another lane to a target without overlapping that lane's path. */
  lemma HazardWitness(path: string) returns (other: string, target: string)
    requires Canonical(path) && Hazard(path)
    ensures Plain(other) && PathIsClaimed(target, path) && PathIsClaimed(target, other) && !PathsOverlap(path, other)
  {
    var rest := Trim(path, IsSlash);
    if path == "." || rest == "" {
      other := "a";
      LetterIsPlain('a');
      EmptyRest(path);
    } else {
      other := rest;
      AbsoluteRest(path);
    }
    target := other;
    ClaimedByCanonical(target, path);
    ClaimedByCanonical(target, other);
    CanonicalIsFixed(path);
    CanonicalIsFixed(other);
    ApartFromTheStart(path, other);
  }

  lemma ApartFromTheStart(left: string, right: string)
    requires Canonical(left) && Canonical(right) && left != "" && right != "" && left[0] != right[0]
    ensures !PathsOverlap(left, right)
  {
    OverlapOfCanonical(left, right);
    if Below(left, right) { BelowStartsAlike(left, right); }
    if Below(right, left) { BelowStartsAlike(right, left); }
  }

  /** Single letters are plain paths. */
  lemma LetterIsPlain(letter: char)
    requires letter == 'a'
    ensures Plain([letter])
  {
    TrimBounds([letter], IsSpace);
    assert Join([[letter]], '/') == [letter];
    RelativeIsPlain([[letter]]);
  }

  lemma DotIsCanonical()
    ensures Canonical(".")
  {
    ReducedFormIsFixed("", []);
    TrimBounds(".", IsSpace);
  }

  /** The repository itself covers the path `a`, and neither normal form is below the other. */
  lemma DotHidesBehindA()
    ensures PathIsClaimed("a", "a") && PathIsClaimed("a", ".") && !PathsOverlap(".", "a") && PathsOverlap("a", "a")
  {
    LetterIsPlain('a');
    ClaimedByCanonical("a", "a");
    OverlapOfCanonical("a", "a");
    DotIsCanonical();
    ClaimedByCanonical("a", ".");
    OverlapOfCanonical(".", "a");
  }

  lemma EmptyRest(path: string)
    requires Canonical(path) && (path == "." || Trim(path, IsSlash) == "")
    ensures path != "" && (path[0] == '/' || path == ".")
  {
    CanonicalIsFixed(path);
    TrimBounds(path, IsSlash);
    if !StartsWith(path, "/") { CanonicalAtGate(path); }
  }

  /** What an absolute path leaves after its slashes is a plain path. */
  lemma AbsoluteRest(path: string)
    requires Canonical(path) && StartsWith(path, "/")
    requires Trim(path, IsSlash) != "" && !IsSpace(Trim(path, IsSlash)[0])
    ensures Plain(Trim(path, IsSlash)) && Trim(path, IsSlash)[0] != '/'
  {
    var slashes, comps := CanonicalShape(path);
    var body := Join(comps, '/');
    if comps != [] {
      JoinedComponents(comps);
      LastCharacter(comps);
    }
    TrimSlashes(slashes, body);
    assert forall c :: c in body ==> c in path;
    TrimBounds(path, IsSpace);
    assert body[|body| - 1] == path[|path| - 1];
    TrimBounds(body, IsSpace);
    RelativeIsPlain(comps);
  }

  lemma TrimSlashes(slashes: string, body: string)
    requires slashes == "" || slashes == "/" || slashes == "//"
    requires body == "" || (body[0] != '/' && body[|body| - 1] != '/')
    ensures Trim(slashes + body, IsSlash) == body
  {
    TrimBounds(body, IsSlash);
    TrimLeftBound(body, IsSlash);
    if slashes == "/" {
      assert (slashes + body)[1..] == body;
    } else if slashes == "//" {
      assert (slashes + body)[1..] == "/" + body;
      assert ("/" + body)[1..] == body;
    } else {
      assert slashes + body == body;
    }
    assert TrimLeft(slashes + body, IsSlash) == body;
  }
}
