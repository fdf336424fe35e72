/** The documentation spine: each declared doc names at most one primary parent. */
module DocSpine {
  import opened Wrappers

  /** Declared docs and their primary parents; an empty parent counts as none. */
  type Docs = map<string, Option<string>>

  predicate HasParent(docs: Docs, x: string)
    requires x in docs
  {
    docs[x].Some? && docs[x].value != ""
  }

  /** The parent, when it is declared too. */
  function Next(docs: Docs, x: string): Option<string>
    requires x in docs
  {
    if HasParent(docs, x) && docs[x].value in docs then docs[x] else None
  }

  /** The doc `n` parents up. */
  function Up(docs: Docs, x: string, n: nat): (y: Option<string>)
    requires x in docs
    ensures y.Some? ==> y.value in docs
    decreases n
  {
    if n == 0 then Some(x)
    else
      match Next(docs, x)
      case None => None
      case Some(p) => Up(docs, p, n - 1)
  }

  lemma {:induction false} UpSum(docs: Docs, x: string, m: nat, n: nat)
    requires x in docs
    ensures Up(docs, x, m + n) == if Up(docs, x, m).None? then None else Up(docs, Up(docs, x, m).value, n)
    decreases m
  {
    if m > 0 && Next(docs, x).Some? {
      UpSum(docs, Next(docs, x).value, m - 1, n);
    }
  }

  ghost predicate Reaches(docs: Docs, x: string, y: string)
    requires x in docs
  {
    exists n: nat :: Up(docs, x, n) == Some(y)
  }

  ghost predicate OnCycle(docs: Docs, x: string)
    requires x in docs
  {
    exists n: nat :: n > 0 && Up(docs, x, n) == Some(x)
  }

  ghost predicate SameCycle(docs: Docs, x: string, y: string)
    requires x in docs && y in docs
  {
    Reaches(docs, x, y) && Reaches(docs, y, x)
  }

  lemma ReachesNext(docs: Docs, x: string, y: string)
    requires x in docs && Next(docs, x).Some? && Reaches(docs, Next(docs, x).value, y)
    ensures Reaches(docs, x, y)
  {
    var n: nat :| Up(docs, Next(docs, x).value, n) == Some(y);
    assert Up(docs, x, n + 1) == Some(y);
  }

  lemma {:induction false} AroundAgain(docs: Docs, x: string, n: nat, times: nat)
    requires x in docs && Up(docs, x, n) == Some(x)
    ensures Up(docs, x, n * times) == Some(x)
    decreases times
  {
    if times > 0 {
      AroundAgain(docs, x, n, times - 1);
      assert n * times == n + n * (times - 1);
      UpSum(docs, x, n, n * (times - 1));
    }
  }

  /** Whatever a doc on a cycle reaches leads back to it. */
  lemma CycleReturns(docs: Docs, x: string, y: string)
    requires x in docs && OnCycle(docs, x) && Reaches(docs, x, y)
    ensures y in docs && Reaches(docs, y, x)
  {
    var n: nat :| n > 0 && Up(docs, x, n) == Some(x);
    var m: nat :| Up(docs, x, m) == Some(y);
    AroundAgain(docs, x, n, m);
    var k := n * m - m;
    assert k >= 0 by { assert n * m - m == (n - 1) * m; }
    UpSum(docs, x, m, k);
    assert m + k == n * m;
  }

  // ---------------------------------------------------------------------
  // The chain of one doc

  datatype ChainError = Cycle | Unknown(path: string)

  /** The parent of `x` is named but not declared. */
  predicate Dangles(docs: Docs, x: string)
    requires x in docs
  {
    HasParent(docs, x) && docs[x].value !in docs
  }

  ghost predicate MeetsCycle(docs: Docs, start: string)
    requires start in docs
  {
    exists i: nat, j: nat :: i < j && Up(docs, start, i).Some? && Up(docs, start, i) == Up(docs, start, j)
  }

  ghost predicate MeetsUndeclared(docs: Docs, start: string)
    requires start in docs
  {
    exists n: nat :: Up(docs, start, n).Some? && Dangles(docs, Up(docs, start, n).value)
  }

  /** The whole parent path from `start` to a root. */
  ghost predicate FullPath(docs: Docs, start: string, chain: seq<string>)
  {
    && start in docs && |chain| > 0
    && (forall i :: 0 <= i < |chain| ==> Up(docs, start, i) == Some(chain[i]))
    && !HasParent(docs, chain[|chain| - 1])
  }

  lemma {:induction false} EndedStaysEnded(docs: Docs, x: string, m: nat, n: nat)
    requires x in docs && m <= n && Up(docs, x, m).None?
    ensures Up(docs, x, n).None?
  {
    UpSum(docs, x, m, n - m);
  }

  lemma {:induction false} RepeatNeverEnds(docs: Docs, x: string, i: nat, j: nat, n: nat)
    requires x in docs && i < j && Up(docs, x, i).Some? && Up(docs, x, i) == Up(docs, x, j)
    ensures Up(docs, x, n).Some?
    decreases n
  {
    if n <= j {
      if Up(docs, x, n).None? { EndedStaysEnded(docs, x, n, j); }
    } else {
      UpSum(docs, x, i, n - j);
      UpSum(docs, x, j, n - j);
      RepeatNeverEnds(docs, x, i, j, i + (n - j));
    }
  }

  /** A path that reaches an end meets no cycle. */
  lemma EndMeansNoCycle(docs: Docs, start: string, n: nat)
    requires start in docs && Up(docs, start, n).Some? && Next(docs, Up(docs, start, n).value).None?
    ensures !MeetsCycle(docs, start)
  {
    var last := Up(docs, start, n).value;
    UpSum(docs, start, n, 1);
    assert Up(docs, last, 1).None?;
    if i: nat, j: nat :| i < j && Up(docs, start, i).Some? && Up(docs, start, i) == Up(docs, start, j) {
      RepeatNeverEnds(docs, start, i, j, n + 1);
    }
  }

  /** A path that ends at a root meets nothing undeclared. */
  lemma RootMeansDeclared(docs: Docs, start: string, n: nat)
    requires start in docs && Up(docs, start, n).Some? && !HasParent(docs, Up(docs, start, n).value)
    ensures !MeetsUndeclared(docs, start)
  {
    UpSum(docs, start, n, 1);
    if m: nat :| Up(docs, start, m).Some? && Dangles(docs, Up(docs, start, m).value) {
      UpSum(docs, start, m, 1);
      if m < n { EndedStaysEnded(docs, start, m + 1, n); }
      if n < m { EndedStaysEnded(docs, start, n + 1, m); }
    }
  }

  function Elements(chain: seq<string>): set<string>
  {
    set x | x in chain
  }

  /** What resolving one doc's chain returns. */
  ghost predicate ChainOutcome(docs: Docs, start: string, r: Result<seq<string>, ChainError>)
  {
    if start == "" then r == Ok([])
    else if start !in docs then r == Err(Unknown(start))
    else
      && (r.Ok? <==> !MeetsCycle(docs, start) && !MeetsUndeclared(docs, start))
      && (r.Ok? ==> FullPath(docs, start, r.value))
      && (r == Err(Cycle) <==> MeetsCycle(docs, start))
      && (r.Err? && r.error.Unknown? ==> r.error.path !in docs && MeetsUndeclared(docs, start))
  }

  /** The chain climbed so far, and the path it goes on to. */
  ghost predicate Climbed(docs: Docs, start: string, chain: seq<string>, current: string)
  {
    && Elements(chain) <= docs.Keys
    && (chain == [] ==> current == start)
    && (chain != [] ==> start in docs && chain[|chain| - 1] in docs && docs[chain[|chain| - 1]] == Some(current))
    && (start in docs ==> forall i :: 0 <= i < |chain| ==> Up(docs, start, i) == Some(chain[i]))
  }

  lemma ClimbReaches(docs: Docs, start: string, chain: seq<string>, current: string)
    requires Climbed(docs, start, chain, current) && current in docs && current != ""
    ensures start in docs && Up(docs, start, |chain|) == Some(current)
  {
    if chain != [] {
      UpSum(docs, start, |chain| - 1, 1);
      assert Up(docs, chain[|chain| - 1], 1) == Some(current) by { assert Up(docs, current, 0) == Some(current); }
    }
  }

  lemma ClimbMeetsCycle(docs: Docs, start: string, chain: seq<string>, current: string)
    requires Climbed(docs, start, chain, current) && current in Elements(chain) && current != "" && start != ""
    ensures ChainOutcome(docs, start, Err(Cycle))
  {
    ClimbReaches(docs, start, chain, current);
    var i :| 0 <= i < |chain| && chain[i] == current;
    assert Up(docs, start, i) == Up(docs, start, |chain|);
    if MeetsUndeclared(docs, start) {
      var n: nat :| Up(docs, start, n).Some? && Dangles(docs, Up(docs, start, n).value);
      EndMeansNoCycle(docs, start, n);
    }
  }

  lemma ClimbMeetsUndeclared(docs: Docs, start: string, chain: seq<string>, current: string)
    requires Climbed(docs, start, chain, current) && current !in docs && current != "" && start != ""
    ensures ChainOutcome(docs, start, Err(Unknown(current)))
  {
    if chain != [] {
      assert Dangles(docs, Up(docs, start, |chain| - 1).value);
      EndMeansNoCycle(docs, start, |chain| - 1);
    }
  }

  lemma ClimbEnds(docs: Docs, start: string, chain: seq<string>)
    requires start in docs && start != "" && chain != [] && Elements(chain) <= docs.Keys
    requires forall i :: 0 <= i < |chain| ==> Up(docs, start, i) == Some(chain[i])
    requires chain[|chain| - 1] in docs && !HasParent(docs, chain[|chain| - 1])
    ensures ChainOutcome(docs, start, Ok(chain))
  {
    EndMeansNoCycle(docs, start, |chain| - 1);
    RootMeansDeclared(docs, start, |chain| - 1);
  }

  lemma ClimbStep(docs: Docs, start: string, chain: seq<string>, current: string)
    requires Climbed(docs, start, chain, current) && current in docs && current != "" && start != ""
    ensures docs[current].None? ==> ChainOutcome(docs, start, Ok(chain + [current]))
    ensures docs[current].Some? ==> Climbed(docs, start, chain + [current], docs[current].value)
    ensures Elements(chain + [current]) == Elements(chain) + {current}
  {
    ClimbReaches(docs, start, chain, current);
    if docs[current].None? {
      ClimbEnds(docs, start, chain + [current]);
    }
  }

  lemma ClimbStops(docs: Docs, start: string, chain: seq<string>)
    requires Climbed(docs, start, chain, "") && (start == "" <==> chain == [])
    ensures ChainOutcome(docs, start, Ok(chain))
  {
    if chain != [] { ClimbEnds(docs, start, chain); }
  }

  /** `_build_doc_chain`: the full parent path, or which of the two obstacles it meets. */
  method BuildDocChain(docs: Docs, start: string) returns (r: Result<seq<string>, ChainError>)
    ensures ChainOutcome(docs, start, r)
  {
    var chain: seq<string>, seen: set<string> := [], {};
    var current := start;
    while current != ""
      invariant seen == Elements(chain) && Climbed(docs, start, chain, current)
      invariant start == "" ==> current == "" && chain == []
      invariant seen <= docs.Keys
      decreases |docs.Keys - seen|
    {
      if current in seen {
        ClimbMeetsCycle(docs, start, chain, current);
        return Err(Cycle);
      }
      if current !in docs {
        ClimbMeetsUndeclared(docs, start, chain, current);
        return Err(Unknown(current));
      }
      ClimbStep(docs, start, chain, current);
      FewerRemain(docs.Keys, seen, current);
      seen := seen + {current};
      chain := chain + [current];
      if docs[current].None? { return Ok(chain); }
      current := docs[current].value;
    }
    ClimbStops(docs, start, chain);
    r := Ok(chain);
  }

  lemma FewerRemain(all: set<string>, seen: set<string>, x: string)
    requires x in all && x !in seen
    ensures |all - (seen + {x})| < |all - seen|
  {
    assert all - (seen + {x}) == (all - seen) - {x};
  }

  // ---------------------------------------------------------------------
  // The depth-first check for cycles

  /** What walking up from `x` adds to the visited docs, and the issue it raises, if any. */
  function Visit(docs: Docs, visited: set<string>, visiting: set<string>, x: string): (set<string>, Option<string>)
    requires x in docs && visiting <= docs.Keys
    decreases |docs.Keys - visiting|
  {
    if x in visited then ({}, None)
    else if x in visiting then ({}, Some(x))
    else if Next(docs, x).None? then ({x}, None)
    else
      assert x in docs.Keys - visiting && docs.Keys - (visiting + {x}) == (docs.Keys - visiting) - {x};
      var (added, issue) := Visit(docs, visited, visiting + {x}, Next(docs, x).value);
      (added + {x}, issue)
  }

  class CycleCheck {
    const docs: Docs
    var visiting: set<string>
    var visited: set<string>
    var issues: seq<string>

    constructor (docs: Docs)
      ensures this.docs == docs && visiting == {} && visited == {} && issues == []
    {
      this.docs, visiting, visited, issues := docs, {}, {}, [];
    }

    method Walk(path: string)
      requires path in docs && visiting <= docs.Keys
      modifies this
      ensures visiting == old(visiting)
      ensures visited == old(visited) + Visit(docs, old(visited), old(visiting), path).0
      ensures issues == old(issues) + Raised(Visit(docs, old(visited), old(visiting), path).1)
      decreases |docs.Keys - visiting|
    {
      if path in visited { return; }
      if path in visiting {
        issues := issues + [path];
        return;
      }
      assert path in docs.Keys - visiting && docs.Keys - (visiting + {path}) == (docs.Keys - visiting) - {path};
      visiting := visiting + {path};
      var parent := docs[path];
      if parent.Some? && parent.value != "" && parent.value in docs {
        Walk(parent.value);
      }
      visiting := visiting - {path};
      visited := visited + {path};
    }

    /** Walking from every declared doc in turn raises exactly one issue for each cycle. */
    method CheckAll(order: seq<string>)
      requires Elements(order) == docs.Keys && visiting == {} && visited == {} && issues == []
      modifies this
      ensures OneIssuePerCycle(docs, docs.Keys, issues)
      ensures issues == [] <==> Acyclic(docs)
    {
      var i := 0;
      while i < |order|
        invariant i <= |order| && visiting == {}
        invariant Elements(order[..i]) <= visited <= docs.Keys && Closed(docs, visited)
        invariant OneIssuePerCycle(docs, visited, issues)
      {
        assert order[i] in Elements(order);
        VisitKeepsOneIssue(docs, visited, order[i], issues);
        Walk(order[i]);
        assert order[..i + 1] == order[..i] + [order[i]];
        i := i + 1;
      }
      assert order[..i] == order;
      NoIssueMeansAcyclic(docs, issues);
    }
  }

  function Raised(issue: Option<string>): seq<string>
  {
    if issue.None? then [] else [issue.value]
  }

  ghost predicate Acyclic(docs: Docs)
  {
    forall x :: x in docs ==> !OnCycle(docs, x)
  }

  /** Parents of visited docs are visited. */
  predicate Closed(docs: Docs, visited: set<string>)
  {
    forall x :: x in visited && x in docs && Next(docs, x).Some? ==> Next(docs, x).value in visited
  }

  /** Issues name visited docs on cycles, no two on one cycle, and every visited doc on a cycle has one. */
  ghost predicate OneIssuePerCycle(docs: Docs, visited: set<string>, issues: seq<string>)
  {
    && (forall i :: 0 <= i < |issues| ==> issues[i] in docs && issues[i] in visited && OnCycle(docs, issues[i]))
    && Apart(docs, issues)
    && (forall y :: y in visited && y in docs && OnCycle(docs, y) ==> HasIssue(docs, issues, y))
  }

  ghost predicate Apart(docs: Docs, issues: seq<string>)
    requires forall i :: 0 <= i < |issues| ==> issues[i] in docs
  {
    forall i, j :: 0 <= i < j < |issues| ==> !SameCycle(docs, issues[i], issues[j])
  }

  ghost predicate HasIssue(docs: Docs, issues: seq<string>, y: string)
    requires y in docs
  {
    exists i :: 0 <= i < |issues| && issues[i] in docs && SameCycle(docs, issues[i], y)
  }

  lemma NoIssueMeansAcyclic(docs: Docs, issues: seq<string>)
    requires OneIssuePerCycle(docs, docs.Keys, issues)
    ensures issues == [] <==> Acyclic(docs)
  {
    if issues == [] {
      forall x | x in docs
        ensures !OnCycle(docs, x)
      {
        assert OnCycle(docs, x) ==> HasIssue(docs, issues, x);
      }
    } else {
      assert OnCycle(docs, issues[0]);
    }
  }

  lemma {:induction false} ClosedIsForever(docs: Docs, visited: set<string>, x: string, n: nat)
    requires Closed(docs, visited) && x in visited && x in docs && Up(docs, x, n).Some?
    ensures Up(docs, x, n).value in visited
    decreases n
  {
    if n > 0 {
      ClosedIsForever(docs, visited, Next(docs, x).value, n - 1);
    }
  }

  /** The docs being visited lead, one after the other, to `x`. */
  ghost predicate Stack(docs: Docs, visiting: set<string>, x: string)
    requires x in docs
  {
    forall v :: v in visiting ==> v in docs && exists n: nat :: n > 0 && Up(docs, v, n) == Some(x)
  }

  lemma StackGrows(docs: Docs, visiting: set<string>, x: string)
    requires x in docs && Stack(docs, visiting, x) && Next(docs, x).Some?
    ensures Stack(docs, visiting + {x}, Next(docs, x).value)
  {
    var p := Next(docs, x).value;
    assert Up(docs, x, 1) == Some(p) by { assert Up(docs, p, 0) == Some(p); }
    forall v | v in visiting
      ensures exists n: nat :: n > 0 && Up(docs, v, n) == Some(p)
    {
      var n: nat :| n > 0 && Up(docs, v, n) == Some(x);
      UpSum(docs, v, n, 1);
      assert Up(docs, v, n + 1) == Some(p);
    }
  }

  /** A doc that cannot lie on a cycle: its path ends, or enters what was visited before. */
  ghost predicate Escapes(docs: Docs, visited: set<string>, a: string)
    requires a in docs
  {
    exists n: nat :: Up(docs, a, n).Some? && (Up(docs, a, n).value in visited || Next(docs, Up(docs, a, n).value).None?)
  }

  lemma CycleIsMet(docs: Docs, a: string)
    requires a in docs && OnCycle(docs, a)
    ensures MeetsCycle(docs, a)
  {
    var c: nat :| c > 0 && Up(docs, a, c) == Some(a);
    assert Up(docs, a, 0) == Up(docs, a, c);
  }

  lemma EscapeMeansNoCycle(docs: Docs, visited: set<string>, a: string)
    requires a in docs && a !in visited && Closed(docs, visited) && Escapes(docs, visited, a)
    ensures !OnCycle(docs, a)
  {
    var n: nat :| Up(docs, a, n).Some? && (Up(docs, a, n).value in visited || Next(docs, Up(docs, a, n).value).None?);
    var b := Up(docs, a, n).value;
    if OnCycle(docs, a) {
      assert Reaches(docs, a, b);
      CycleReturns(docs, a, b);
      var k: nat :| Up(docs, b, k) == Some(a);
      if b in visited {
        ClosedIsForever(docs, visited, b, k);
      } else {
        CycleIsMet(docs, a);
        EndMeansNoCycle(docs, a, n);
      }
    }
  }

  /** What one walk adds: new docs whose parents are known, and an issue exactly when it ran into itself. */
  lemma {:induction false} VisitFacts(docs: Docs, visited: set<string>, visiting: set<string>, x: string)
    requires x in docs && visiting <= docs.Keys && Stack(docs, visiting, x)
    ensures var (added, issue) := Visit(docs, visited, visiting, x);
            && added <= docs.Keys && added !! visited && added !! visiting
            && (x in visited + visiting + added)
            && (forall a :: a in added && Next(docs, a).Some? ==> Next(docs, a).value in visited + visiting + added)
            && (issue.Some? ==> issue.value in visiting + added && OnCycle(docs, issue.value)
                                && Reaches(docs, x, issue.value)
                                && forall a :: a in added ==> Reaches(docs, a, issue.value))
            && (issue.None? ==> x !in visiting || x in visited)
            && (issue.None? ==> forall a :: a in added + {x} ==> Escapes(docs, visited, a))
    decreases |docs.Keys - visiting|
  {
    assert Up(docs, x, 0) == Some(x);
    if x in visited {
    } else if x in visiting {
    } else if Next(docs, x).None? {
    } else {
      var p := Next(docs, x).value;
      assert x in docs.Keys - visiting && docs.Keys - (visiting + {x}) == (docs.Keys - visiting) - {x};
      StackGrows(docs, visiting, x);
      VisitFacts(docs, visited, visiting + {x}, p);
      var (added, issue) := Visit(docs, visited, visiting + {x}, p);
      if issue.Some? {
        ReachesNext(docs, x, issue.value);
      } else {
        EscapesNext(docs, visited, x);
      }
    }
  }

  lemma EscapesNext(docs: Docs, visited: set<string>, x: string)
    requires x in docs && Next(docs, x).Some? && Escapes(docs, visited, Next(docs, x).value)
    ensures Escapes(docs, visited, x)
  {
    var p := Next(docs, x).value;
    var n: nat :| Up(docs, p, n).Some? && (Up(docs, p, n).value in visited || Next(docs, Up(docs, p, n).value).None?);
    assert Up(docs, x, n + 1) == Up(docs, p, n);
  }

  /** A walk that starts with nothing being visited keeps one issue per cycle. */
  lemma VisitKeepsOneIssue(docs: Docs, visited: set<string>, x: string, issues: seq<string>)
    requires x in docs && visited <= docs.Keys && Closed(docs, visited) && OneIssuePerCycle(docs, visited, issues)
    ensures var (added, issue) := Visit(docs, visited, {}, x);
            && x in visited + added && visited + added <= docs.Keys && Closed(docs, visited + added)
            && OneIssuePerCycle(docs, visited + added, issues + Raised(issue))
  {
    VisitFacts(docs, visited, {}, x);
    var (added, issue) := Visit(docs, visited, {}, x);
    if issue.Some? {
      NewIssueIsNew(docs, visited, issues, issue.value);
      IssueCoversAdded(docs, added, issue.value);
      MoreIssues(docs, visited, added, issues, issue.value);
    } else {
      forall a | a in added
        ensures !OnCycle(docs, a)
      {
        EscapeMeansNoCycle(docs, visited, a);
      }
      NoMoreIssues(docs, visited, added, issues);
      assert issues + Raised(issue) == issues;
    }
  }

  lemma NewIssueIsNew(docs: Docs, visited: set<string>, issues: seq<string>, x: string)
    requires x in docs && x !in visited && Closed(docs, visited)
    requires forall i :: 0 <= i < |issues| ==> issues[i] in docs && issues[i] in visited
    ensures forall i :: 0 <= i < |issues| ==> !SameCycle(docs, issues[i], x)
  {
    forall i | 0 <= i < |issues|
      ensures !SameCycle(docs, issues[i], x)
    {
      if Reaches(docs, issues[i], x) {
        var n: nat :| Up(docs, issues[i], n) == Some(x);
        ClosedIsForever(docs, visited, issues[i], n);
      }
    }
  }

  lemma IssueCoversAdded(docs: Docs, added: set<string>, x: string)
    requires x in docs && added <= docs.Keys && forall a :: a in added ==> Reaches(docs, a, x)
    ensures forall a :: a in added && OnCycle(docs, a) ==> SameCycle(docs, x, a)
  {
    forall a | a in added && OnCycle(docs, a)
      ensures SameCycle(docs, x, a)
    {
      CycleReturns(docs, a, x);
    }
  }

  lemma MoreIssues(docs: Docs, visited: set<string>, added: set<string>, issues: seq<string>, x: string)
    requires visited <= docs.Keys && added <= docs.Keys && OneIssuePerCycle(docs, visited, issues)
    requires x in added && OnCycle(docs, x) && (forall i :: 0 <= i < |issues| ==> !SameCycle(docs, issues[i], x))
    requires forall a :: a in added && OnCycle(docs, a) ==> SameCycle(docs, x, a)
    ensures OneIssuePerCycle(docs, visited + added, issues + [x])
  {
    var all := issues + [x];
    forall y | y in visited + added && OnCycle(docs, y)
      ensures HasIssue(docs, all, y)
    {
      if y in added {
        assert all[|issues|] == x;
      } else {
        OldIssueStays(docs, issues, x, y);
      }
    }
    assert Apart(docs, all);
  }

  lemma OldIssueStays(docs: Docs, issues: seq<string>, x: string, y: string)
    requires y in docs && HasIssue(docs, issues, y)
    ensures HasIssue(docs, issues + [x], y)
  {
    var i :| 0 <= i < |issues| && issues[i] in docs && SameCycle(docs, issues[i], y);
    assert (issues + [x])[i] == issues[i];
  }

  lemma NoMoreIssues(docs: Docs, visited: set<string>, added: set<string>, issues: seq<string>)
    requires visited <= docs.Keys && added <= docs.Keys && OneIssuePerCycle(docs, visited, issues)
    requires forall a :: a in added ==> !OnCycle(docs, a)
    ensures OneIssuePerCycle(docs, visited + added, issues)
  {
  }

  /** A chain meets a cycle exactly when it climbs to a doc on one. */
  lemma MeetsCycleExactly(docs: Docs, start: string)
    requires start in docs
    ensures MeetsCycle(docs, start) <==> exists x :: x in docs && Reaches(docs, start, x) && OnCycle(docs, x)
  {
    if i: nat, j: nat :| i < j && Up(docs, start, i).Some? && Up(docs, start, i) == Up(docs, start, j) {
      var x := Up(docs, start, i).value;
      UpSum(docs, start, i, j - i);
      assert Reaches(docs, start, x) && OnCycle(docs, x);
    }
    if x :| x in docs && Reaches(docs, start, x) && OnCycle(docs, x) {
      var i: nat :| Up(docs, start, i) == Some(x);
      var n: nat :| n > 0 && Up(docs, x, n) == Some(x);
      UpSum(docs, start, i, n);
      assert Up(docs, start, i) == Up(docs, start, i + n);
    }
  }

  /** The two checks agree: with no cycle issue and no undeclared parent, every declared doc resolves to its full path. */
  lemma CleanSpineResolves(docs: Docs, issues: seq<string>, start: string, r: Result<seq<string>, ChainError>)
    requires OneIssuePerCycle(docs, docs.Keys, issues) && start in docs && start != "" && ChainOutcome(docs, start, r)
    ensures issues == [] && (forall x :: x in docs ==> !Dangles(docs, x)) ==> r.Ok? && FullPath(docs, start, r.value)
    ensures r == Err(Cycle) ==> exists i :: 0 <= i < |issues| && issues[i] in docs && Reaches(docs, start, issues[i])
  {
    NoIssueMeansAcyclic(docs, issues);
    MeetsCycleExactly(docs, start);
    if r == Err(Cycle) {
      var x :| x in docs && Reaches(docs, start, x) && OnCycle(docs, x);
      assert HasIssue(docs, issues, x);
      var i :| 0 <= i < |issues| && issues[i] in docs && SameCycle(docs, issues[i], x);
      ReachesThrough(docs, start, x, issues[i]);
    }
  }

  lemma ReachesThrough(docs: Docs, a: string, b: string, c: string)
    requires a in docs && b in docs && Reaches(docs, a, b) && Reaches(docs, b, c)
    ensures Reaches(docs, a, c)
  {
    var m: nat :| Up(docs, a, m) == Some(b);
    var n: nat :| Up(docs, b, n) == Some(c);
    UpSum(docs, a, m, n);
  }
}
