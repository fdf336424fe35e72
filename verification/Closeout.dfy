/** Closing a worktree lane: when may its branch be deleted without losing a commit? */
module Closeout {
  import opened Wrappers
  import opened Text

  type Commit = nat

  /**
   * The commit graph, the refs that store a commit, the symbolic refs with the ref each ends at, where
   * `origin/HEAD` points, and what other revision expressions name.
   */
  datatype Repo = Repo(parents: map<Commit, set<Commit>>, refs: map<string, Commit>, symbolic: map<string, string>,
                       remoteHead: Option<string>, expressions: map<string, Commit>)

  // ---------------------------------------------------------------------
  // Reachability

  ghost predicate Path(repo: Repo, path: seq<Commit>, from: Commit, to: Commit)
  {
    && |path| > 0 && path[0] == from && path[|path| - 1] == to
    && forall i :: 0 <= i < |path| - 1 ==> path[i] in repo.parents && path[i + 1] in repo.parents[path[i]]
  }

  ghost predicate Reaches(repo: Repo, from: Commit, to: Commit)
  {
    exists path :: Path(repo, path, from, to)
  }

  lemma ReachesSelf(repo: Repo, c: Commit)
    ensures Reaches(repo, c, c)
  {
    assert Path(repo, [c], c, c);
  }

  lemma ReachesThrough(repo: Repo, a: Commit, b: Commit, c: Commit)
    requires Reaches(repo, a, b) && Reaches(repo, b, c)
    ensures Reaches(repo, a, c)
  {
    var p :| Path(repo, p, a, b);
    var q :| Path(repo, q, b, c);
    var path := p + q[1..];
    forall i | 0 <= i < |path| - 1
      ensures path[i] in repo.parents && path[i + 1] in repo.parents[path[i]]
    {
      if i >= |p| - 1 {
        assert path[i] == q[i - |p| + 1] && path[i + 1] == q[i - |p| + 2];
      }
    }
    assert Path(repo, path, a, c);
  }

  /** A commit some stored ref leads to. */
  ghost predicate Kept(repo: Repo, c: Commit)
  {
    exists r :: r in repo.refs && Reaches(repo, repo.refs[r], c)
  }

  function WithoutRef(repo: Repo, name: string): Repo
  {
    repo.(refs := repo.refs - {name}, symbolic := repo.symbolic - {name})
  }

  ghost predicate KeepsHistory(repo: Repo, repo': Repo)
  {
    forall c :: Kept(repo, c) ==> Kept(repo', c)
  }

  ghost predicate ContainedElsewhere(repo: Repo, name: string)
    requires name in repo.refs
  {
    exists r :: r in repo.refs && r != name && Reaches(repo, repo.refs[r], repo.refs[name])
  }

  lemma SamePaths(repo: Repo, name: string, from: Commit, to: Commit)
    ensures Reaches(WithoutRef(repo, name), from, to) <==> Reaches(repo, from, to)
  {
    if Reaches(repo, from, to) {
      var p :| Path(repo, p, from, to);
      assert Path(WithoutRef(repo, name), p, from, to);
    }
    if Reaches(WithoutRef(repo, name), from, to) {
      var p :| Path(WithoutRef(repo, name), p, from, to);
      assert Path(repo, p, from, to);
    }
  }

  /** Deleting a ref keeps every reachable commit reachable exactly when another ref contains its tip. */
  lemma DeletionKeepsHistoryExactly(repo: Repo, name: string)
    requires name in repo.refs
    ensures KeepsHistory(repo, WithoutRef(repo, name)) <==> ContainedElsewhere(repo, name)
  {
    var repo', tip := WithoutRef(repo, name), repo.refs[name];
    if KeepsHistory(repo, repo') {
      ReachesSelf(repo, tip);
      assert Kept(repo, tip);
      var r :| r in repo'.refs && Reaches(repo', repo'.refs[r], tip);
      SamePaths(repo, name, repo.refs[r], tip);
    }
    if ContainedElsewhere(repo, name) {
      var other :| other in repo.refs && other != name && Reaches(repo, repo.refs[other], tip);
      forall c | Kept(repo, c)
        ensures Kept(repo', c)
      {
        var r :| r in repo.refs && Reaches(repo, repo.refs[r], c);
        var keeper := if r == name then other else r;
        if r == name { ReachesThrough(repo, repo.refs[other], tip, c); }
        SamePaths(repo, name, repo.refs[keeper], c);
        assert keeper in repo'.refs;
      }
    }
  }

  /** Deleting a symbolic ref changes no stored commit. */
  lemma SymbolicDeletionKeepsHistory(repo: Repo, name: string)
    requires name !in repo.refs
    ensures KeepsHistory(repo, WithoutRef(repo, name))
  {
    forall c | Kept(repo, c)
      ensures Kept(WithoutRef(repo, name), c)
    {
      var r :| r in repo.refs && Reaches(repo, repo.refs[r], c);
      SamePaths(repo, name, repo.refs[r], c);
      assert r in WithoutRef(repo, name).refs;
    }
  }

  // ---------------------------------------------------------------------
  // Names

  function BranchRef(branch: string): string
  {
    "refs/heads/" + branch
  }

  function RemoteRef(branch: string): string
  {
    "refs/remotes/origin/" + branch
  }

  /** Git's order for turning a name into a stored ref. */
  function Spellings(name: string): seq<string>
  {
    [name, "refs/" + name, "refs/tags/" + name, "refs/heads/" + name, "refs/remotes/" + name, "refs/remotes/" + name + "/HEAD"]
  }

  /** The ref that stores the commit a full ref name stands for; a dangling symbolic ref stands for none. */
  function Target(repo: Repo, name: string): (found: Option<string>)
    ensures found.Some? ==> found.value in repo.refs
  {
    if name in repo.refs then Some(name)
    else if name in repo.symbolic && repo.symbolic[name] in repo.refs then Some(repo.symbolic[name])
    else None
  }

  function FirstStored(repo: Repo, names: seq<string>): (found: Option<string>)
    ensures found.Some? ==> found.value in repo.refs
    ensures found.None? ==> forall n :: n in names ==> Target(repo, n).None?
  {
    if names == [] then None
    else if Target(repo, names[0]).Some? then Target(repo, names[0])
    else FirstStored(repo, names[1..])
  }

  /** The storing ref a name stands for in the end, if it stands for one. */
  function StoredRef(repo: Repo, name: string): (found: Option<string>)
    ensures found.Some? ==> found.value in repo.refs
    ensures Target(repo, name).Some? ==> found == Target(repo, name)
  {
    FirstStored(repo, Spellings(name))
  }

  function Resolve(repo: Repo, name: string): Option<Commit>
  {
    match StoredRef(repo, name)
    case Some(r) => Some(repo.refs[r])
    case None => if name in repo.expressions then Some(repo.expressions[name]) else None
  }

  ghost predicate IsAncestor(repo: Repo, ancestor: string, descendant: string)
  {
    Resolve(repo, ancestor).Some? && Resolve(repo, descendant).Some?
    && Reaches(repo, Resolve(repo, descendant).value, Resolve(repo, ancestor).value)
  }

  /** The default branch: where `origin/HEAD` points, else a local main or master. */
  function DefaultBranch(repo: Repo): Option<string>
  {
    match repo.remoteHead
    case Some(value) =>
      if "origin/" <= value then Some(value[7..])
      else if value != "" then Some(value)
      else LocalDefault(repo)
    case None => LocalDefault(repo)
  }

  function LocalDefault(repo: Repo): Option<string>
  {
    if Target(repo, BranchRef("main")).Some? then Some("main")
    else if Target(repo, BranchRef("master")).Some? then Some("master")
    else None
  }

  /** The ref whose history counts as integrated: the remote default when it resolves, else the local one. */
  function CanonicalRef(repo: Repo, default_: string): string
  {
    if Resolve(repo, RemoteRef(default_)).Some? then RemoteRef(default_) else BranchRef(default_)
  }

  // ---------------------------------------------------------------------
  // Preflight

  datatype Disposition = Merged | Active | Handoff | Superseded | Archived | Migrated | Abandoned | Unsupported

  datatype Refusal =
    | UnsupportedDisposition | NotCloseable | NoBranch | NoDefaultBranch | ClosingDefault | DefaultNotPushed | NotIntegrated
    | AlreadyIntegrated | NoReason | DiscardNotAllowed | NoRecoveryRef | RecoveryIsBranch | RecoveryUnresolved
    | RecoveryLacksBranch

  datatype Evidence = BranchAncestor | SquashEquivalent

  /** What the caller asks; `squash` says whether Git finds the merge commit's patch equal to the branch's. */
  datatype Closing = Closing(branch: string, disposition: Disposition, reason: string, recovery: string, squash: bool,
                             discard: bool, delete_: bool)

  datatype Preflight = Preflight(existed: bool, merged: Option<bool>, pushed: Option<bool>, evidence: Option<Evidence>,
                                 recovery: Option<string>, force: bool)

  predicate NeedsRecovery(d: Disposition)
  {
    d.Superseded? || d.Archived? || d.Migrated?
  }

  function Stripped(s: string): string
  {
    Trim(s, IsSpace)
  }

  ghost function Pushed(repo: Repo, default_: string): Option<bool>
  {
    if Resolve(repo, RemoteRef(default_)).Some? then Some(IsAncestor(repo, BranchRef(default_), RemoteRef(default_))) else None
  }

  ghost function Integrated(repo: Repo, branch: string, default_: string): bool
  {
    IsAncestor(repo, BranchRef(branch), CanonicalRef(repo, default_))
  }

  ghost function CheckMerged(repo: Repo, c: Closing, default_: string): Result<Preflight, Refusal>
  {
    var byAncestry := Integrated(repo, c.branch, default_);
    var bySquash := !byAncestry && c.squash;
    var pushed := Pushed(repo, default_);
    if !byAncestry && !bySquash then
      Err(if IsAncestor(repo, BranchRef(c.branch), BranchRef(default_)) && pushed == Some(false) then DefaultNotPushed
          else NotIntegrated)
    else if pushed == Some(false) && !(Resolve(repo, RemoteRef(default_)).Some? && byAncestry) && !bySquash then
      Err(DefaultNotPushed)
    else
      Ok(Preflight(true, Some(true), pushed, Some(if byAncestry then BranchAncestor else SquashEquivalent), None, c.delete_))
  }

  ghost function CheckRecovery(repo: Repo, c: Closing): Option<Refusal>
  {
    var ref := Stripped(c.recovery);
    if ref == "" then Some(NoRecoveryRef)
    else if ref == c.branch || ref == BranchRef(c.branch) then Some(RecoveryIsBranch)
    else if Resolve(repo, ref).None? then Some(RecoveryUnresolved)
    else if !IsAncestor(repo, BranchRef(c.branch), ref) then Some(RecoveryLacksBranch)
    else None
  }

  ghost function CheckUnmerged(repo: Repo, c: Closing, default_: string): Result<Preflight, Refusal>
  {
    if Integrated(repo, c.branch, default_) then Err(AlreadyIntegrated)
    else if Stripped(c.reason) == "" then Err(NoReason)
    else if c.disposition.Abandoned? && !c.discard then Err(DiscardNotAllowed)
    else if NeedsRecovery(c.disposition) && CheckRecovery(repo, c).Some? then Err(CheckRecovery(repo, c).value)
    else
      Ok(Preflight(true, Some(false), Pushed(repo, default_), None,
                   if c.recovery == "" then None else Some(Stripped(c.recovery)), c.delete_))
  }

  ghost function Validate(repo: Repo, c: Closing): Result<Preflight, Refusal>
  {
    if c.disposition.Unsupported? then Err(UnsupportedDisposition)
    else if c.disposition.Active? || c.disposition.Handoff? then Err(NotCloseable)
    else if c.branch == "" then Err(NoBranch)
    else if Target(repo, BranchRef(c.branch)).None? then
      Ok(Preflight(false, None, None, None, if c.recovery == "" then None else Some(c.recovery), false))
    else if DefaultBranch(repo).None? || DefaultBranch(repo).value == "" then Err(NoDefaultBranch)
    else if c.branch == DefaultBranch(repo).value then Err(ClosingDefault)
    else if c.disposition.Merged? then CheckMerged(repo, c, DefaultBranch(repo).value)
    else CheckUnmerged(repo, c, DefaultBranch(repo).value)
  }

  // ---------------------------------------------------------------------
  // What an accepted closeout guarantees

  lemma PrefixedApart(a: string, b: string)
    ensures BranchRef(a) == BranchRef(b) <==> a == b
    ensures BranchRef(a) != RemoteRef(b)
  {
    assert BranchRef(a)[11..] == a && BranchRef(b)[11..] == b;
    assert BranchRef(a)[5] == 'h' && RemoteRef(b)[5] == 'r';
  }

  /** The name stands, in the end, for a stored ref other than the branch. */
  predicate StandsElsewhere(repo: Repo, name: string, branch: string)
  {
    StoredRef(repo, name).Some? && StoredRef(repo, name).value != BranchRef(branch)
  }

  /** A closeout accepted by ancestry into a default that stands for another stored ref loses no commit. */
  lemma MergedCloseoutKeepsHistory(repo: Repo, c: Closing)
    requires BranchRef(c.branch) in repo.refs
    requires Validate(repo, c).Ok? && Validate(repo, c).value.evidence == Some(BranchAncestor)
    requires StandsElsewhere(repo, CanonicalRef(repo, DefaultBranch(repo).value), c.branch)
    ensures KeepsHistory(repo, WithoutRef(repo, BranchRef(c.branch)))
  {
    KeeperKeepsHistory(repo, c.branch, CanonicalRef(repo, DefaultBranch(repo).value));
  }

  /** Any name that contains the branch and stands for another stored ref keeps its commits. */
  lemma KeeperKeepsHistory(repo: Repo, branch: string, name: string)
    requires BranchRef(branch) in repo.refs && StandsElsewhere(repo, name, branch) && IsAncestor(repo, BranchRef(branch), name)
    ensures KeepsHistory(repo, WithoutRef(repo, BranchRef(branch)))
  {
    var ref, keeper := BranchRef(branch), StoredRef(repo, name).value;
    assert Resolve(repo, ref) == Some(repo.refs[ref]) && Resolve(repo, name) == Some(repo.refs[keeper]);
    assert ContainedElsewhere(repo, ref);
    DeletionKeepsHistoryExactly(repo, ref);
  }

  /** And with a remote, the tip it integrates is in the remote's default branch. */
  lemma MergedCloseoutIsPushed(repo: Repo, c: Closing)
    requires BranchRef(c.branch) in repo.refs
    requires Validate(repo, c).Ok? && Validate(repo, c).value.evidence == Some(BranchAncestor)
    requires Resolve(repo, RemoteRef(DefaultBranch(repo).value)).Some?
    ensures Reaches(repo, Resolve(repo, RemoteRef(DefaultBranch(repo).value)).value, repo.refs[BranchRef(c.branch)])
  {
  }

  /** A recovery closeout loses no commit when its recovery name stands for a stored ref other than the branch. */
  lemma RecoveryCloseoutKeepsHistory(repo: Repo, c: Closing)
    requires BranchRef(c.branch) in repo.refs && NeedsRecovery(c.disposition) && Validate(repo, c).Ok?
    requires StandsElsewhere(repo, Stripped(c.recovery), c.branch)
    ensures KeepsHistory(repo, WithoutRef(repo, BranchRef(c.branch)))
  {
    AcceptedRecoveryPassed(repo, c);
    KeeperKeepsHistory(repo, c.branch, Stripped(c.recovery));
  }

  lemma AcceptedRecoveryPassed(repo: Repo, c: Closing)
    requires BranchRef(c.branch) in repo.refs && NeedsRecovery(c.disposition) && Validate(repo, c).Ok?
    ensures CheckRecovery(repo, c).None?
  {
  }

  /** Any other name for the branch's own ref, a symbolic ref included, passes the independence check of an unmerged branch. */
  lemma AliasIsAccepted(repo: Repo, c: Closing)
    requires BranchRef(c.branch) in repo.refs && NeedsRecovery(c.disposition) && Stripped(c.reason) != "" && c.branch != ""
    requires DefaultBranch(repo).Some? && DefaultBranch(repo).value !in {"", c.branch}
    requires !Integrated(repo, c.branch, DefaultBranch(repo).value)
    requires Stripped(c.recovery) !in {"", c.branch, BranchRef(c.branch)}
    requires StoredRef(repo, Stripped(c.recovery)) == Some(BranchRef(c.branch))
    ensures Validate(repo, c).Ok?
  {
    AliasPassesUnmerged(repo, c, DefaultBranch(repo).value);
    assert Validate(repo, c) == CheckUnmerged(repo, c, DefaultBranch(repo).value);
  }

  lemma AliasPassesUnmerged(repo: Repo, c: Closing, default_: string)
    requires BranchRef(c.branch) in repo.refs && NeedsRecovery(c.disposition) && Stripped(c.reason) != ""
    requires !Integrated(repo, c.branch, default_)
    requires Stripped(c.recovery) !in {"", c.branch, BranchRef(c.branch)}
    requires StoredRef(repo, Stripped(c.recovery)) == Some(BranchRef(c.branch))
    ensures CheckUnmerged(repo, c, default_).Ok?
  {
    AliasPassesCheck(repo, c);
  }

  lemma AliasPassesCheck(repo: Repo, c: Closing)
    requires BranchRef(c.branch) in repo.refs && Stripped(c.recovery) !in {"", c.branch, BranchRef(c.branch)}
    requires StoredRef(repo, Stripped(c.recovery)) == Some(BranchRef(c.branch))
    ensures CheckRecovery(repo, c).None?
  {
    SameTip(repo, Stripped(c.recovery), BranchRef(c.branch));
  }

  lemma SameTip(repo: Repo, name: string, ref: string)
    requires ref in repo.refs && StoredRef(repo, name) == Some(ref)
    ensures Resolve(repo, name).Some? && IsAncestor(repo, ref, name)
  {
    ReachesSelf(repo, repo.refs[ref]);
  }

  /** A task branch only its own ref holds: commit 1 on top of the default's commit 0. */
  function Lone(main: string, task: string): Repo
  {
    Repo(map[0 := {}, 1 := {0}], map[main := 0, task := 1], map[], None, map[])
  }

  lemma FirstParent(repo: Repo, from: Commit, to: Commit)
    requires Reaches(repo, from, to) && from != to
    ensures from in repo.parents && repo.parents[from] != {}
  {
    var path :| Path(repo, path, from, to);
    assert path[0 + 1] in repo.parents[path[0]];
  }

  lemma LoneTip(main: string, task: string)
    requires main != task
    ensures !ContainedElsewhere(Lone(main, task), task)
    ensures !Reaches(Lone(main, task), 0, 1)
  {
    if Reaches(Lone(main, task), 0, 1) {
      FirstParent(Lone(main, task), 0, 1);
    }
  }

  lemma ShortFormIsStored(repo: Repo, branch: string)
    requires BranchRef(branch) in repo.refs && "heads/" + branch !in repo.refs && repo.symbolic == map[]
    ensures StoredRef(repo, "heads/" + branch) == Some(BranchRef(branch))
  {
    var names := Spellings("heads/" + branch);
    assert names[1] == BranchRef(branch);
    assert names[1..][0] == names[1];
    assert FirstStored(repo, names) == FirstStored(repo, names[1..]);
  }

  lemma ShortFormDiffers(branch: string, other: string)
    ensures "heads/" + branch != BranchRef(other) && "heads/" + branch != branch && "heads/" + branch != ""
  {
    assert ("heads/" + branch)[0] == 'h' && BranchRef(other)[0] == 'r';
    assert |"heads/" + branch| == |branch| + 6;
  }

  /** So `heads/x` is accepted as the recovery ref of branch `x`, and deleting the branch then loses its commits. */
  lemma AliasLosesHistory(repo: Repo, c: Closing)
    requires c.branch !in {"", "main", RemoteRef("main")} && repo == Lone(BranchRef("main"), BranchRef(c.branch))
    requires c.disposition.Superseded? && Stripped(c.reason) != "" && Stripped(c.recovery) == "heads/" + c.branch
    ensures Validate(repo, c).Ok? && !KeepsHistory(repo, WithoutRef(repo, BranchRef(c.branch)))
  {
    var name, main := BranchRef(c.branch), BranchRef("main");
    PrefixedApart(c.branch, "main");
    ShortFormDiffers(c.branch, "main");
    ShortFormDiffers(c.branch, c.branch);
    ShortFormIsStored(repo, c.branch);
    LoneTip(main, name);
    NothingRemote(repo, c.branch);
    assert DefaultBranch(repo) == Some("main");
    assert Resolve(repo, main) == Some(0) && Resolve(repo, name) == Some(1);
    AliasIsAccepted(repo, c);
    DeletionKeepsHistoryExactly(repo, name);
  }

  lemma NothingRemote(repo: Repo, branch: string)
    requires repo == Lone(BranchRef("main"), BranchRef(branch)) && branch != RemoteRef("main")
    ensures Resolve(repo, RemoteRef("main")).None?
  {
    var remote := RemoteRef("main");
    var names := Spellings(remote);
    PrefixedApart(branch, remote);
    forall i | 0 <= i < 6
      ensures Target(repo, names[i]).None?
    {
      assert |names[i]| > |BranchRef("main")|;
      assert i == 3 || names[i][5] != BranchRef(branch)[5];
    }
    NoneStored(repo, names);
  }

  lemma {:induction false} NoneStored(repo: Repo, names: seq<string>)
    requires forall i :: 0 <= i < |names| ==> Target(repo, names[i]).None?
    ensures FirstStored(repo, names).None?
  {
    if names != [] {
      assert forall i :: 0 <= i < |names[1..]| ==> names[1..][i] == names[i + 1];
      NoneStored(repo, names[1..]);
    }
  }

  /** A symbolic ref to the branch is accepted as its recovery ref, and deleting the branch leaves it dangling. */
  lemma SymbolicAliasDangles(repo: Repo, name: string, branch: string)
    requires name !in repo.refs && name in repo.symbolic && repo.symbolic[name] == BranchRef(branch) && BranchRef(branch) in repo.refs
    ensures StoredRef(repo, name) == Some(BranchRef(branch)) && IsAncestor(repo, BranchRef(branch), name)
    ensures Target(WithoutRef(repo, BranchRef(branch)), name).None?
  {
    SameTip(repo, name, BranchRef(branch));
  }

  /** An authorised discard promises nothing: exactly when no other ref holds the tip, its commits are lost. */
  lemma DiscardLosesExactly(repo: Repo, c: Closing)
    requires BranchRef(c.branch) in repo.refs && c.disposition.Abandoned? && Validate(repo, c).Ok?
    ensures c.discard && !Integrated(repo, c.branch, DefaultBranch(repo).value)
    ensures KeepsHistory(repo, WithoutRef(repo, BranchRef(c.branch))) <==> ContainedElsewhere(repo, BranchRef(c.branch))
  {
    DeletionKeepsHistoryExactly(repo, BranchRef(c.branch));
  }

  /** When the default branch itself is not stored but its name stands for the closing branch, a merged closeout is accepted. */
  lemma DanglingDefaultIsAccepted(repo: Repo, c: Closing, default_: string)
    requires BranchRef(c.branch) in repo.refs && c.disposition.Merged? && c.branch != ""
    requires DefaultBranch(repo) == Some(default_) && default_ !in {"", c.branch}
    requires Resolve(repo, RemoteRef(default_)).None? && StoredRef(repo, BranchRef(default_)) == Some(BranchRef(c.branch))
    ensures Validate(repo, c).Ok? && Validate(repo, c).value.evidence == Some(BranchAncestor)
    ensures KeepsHistory(repo, WithoutRef(repo, BranchRef(c.branch))) <==> ContainedElsewhere(repo, BranchRef(c.branch))
  {
    ReachesSelf(repo, repo.refs[BranchRef(c.branch)]);
    DeletionKeepsHistoryExactly(repo, BranchRef(c.branch));
  }

  lemma OnlyLongFormIsStored(repo: Repo, d: string)
    requires repo.refs.Keys == {BranchRef(BranchRef(d))} && repo.symbolic == map[]
    ensures StoredRef(repo, BranchRef(d)) == Some(BranchRef(BranchRef(d)))
  {
    var name := BranchRef(d);
    var names := Spellings(name);
    assert |name| == |d| + 11 && |BranchRef(name)| == |d| + 22;
    assert names[3] == BranchRef(name);
    assert |names[0]| == |d| + 11 && |names[1]| == |d| + 16 && |names[2]| == |d| + 21;
    assert names[1..][1..][1..][0] == names[3];
    assert FirstStored(repo, names) == FirstStored(repo, names[1..]) == FirstStored(repo, names[1..][1..])
        == FirstStored(repo, names[1..][1..][1..]);
  }

  lemma RemoteIsMissing(repo: Repo, d: string)
    requires repo.refs.Keys == {BranchRef(BranchRef(d))} && repo.symbolic == map[] && repo.expressions == map[]
    ensures Resolve(repo, RemoteRef(d)).None?
  {
    var remote := Spellings(RemoteRef(d));
    assert |BranchRef(BranchRef(d))| == |d| + 22 && |RemoteRef(d)| == |d| + 20;
    assert |remote[0]| == |d| + 20 && |remote[1]| == |d| + 25 && forall i :: 2 <= i < 6 ==> |remote[i]| > |d| + 25;
    forall i | 0 <= i < 6
      ensures Target(repo, remote[i]).None?
    {
      assert |remote[i]| != |BranchRef(BranchRef(d))|;
    }
    NoneStored(repo, remote);
  }

  /** With `origin/HEAD` dangling, a branch named after the default's full ref can be closed as merged into itself. */
  lemma DanglingDefaultLosesHistory(repo: Repo, c: Closing, d: string)
    requires d != "" && c.disposition.Merged? && c.branch == BranchRef(d)
    requires repo == Repo(map[1 := {}], map[BranchRef(BranchRef(d)) := 1], map[], Some("origin/" + d), map[])
    ensures Validate(repo, c).Ok? && !KeepsHistory(repo, WithoutRef(repo, BranchRef(c.branch)))
  {
    assert |c.branch| == |d| + 11 && ("origin/" + d)[7..] == d;
    RemoteIsMissing(repo, d);
    OnlyLongFormIsStored(repo, d);
    assert DefaultBranch(repo) == Some(d);
    DanglingDefaultIsAccepted(repo, c, d);
  }

  // ---------------------------------------------------------------------
  // Closing a lane

  datatype Deletion = NotRequested | AlreadyMissing | Deleted | DeletionFailed

  /** Ancestry into a stored default ref, or a recovery name for a stored ref other than the branch. */
  predicate Provable(repo: Repo, c: Closing, accepted: Preflight)
  {
    if NeedsRecovery(c.disposition) then StandsElsewhere(repo, Stripped(c.recovery), c.branch)
    else accepted.evidence == Some(BranchAncestor) && DefaultBranch(repo).Some?
         && StandsElsewhere(repo, CanonicalRef(repo, DefaultBranch(repo).value), c.branch)
  }

  /** The repository whose refs a closeout changes; `busy` says Git refuses to delete the branch. */
  class Repository {
    var repo: Repo

    constructor (repo: Repo)
      ensures this.repo == repo
    {
      this.repo := repo;
    }

    /** `_delete_branch`: at most the branch's own ref goes, and only from a branch that was there. */
    method DeleteBranch(branch: string, busy: bool) returns (done: Deletion)
      modifies this
      ensures done.Deleted? <==> branch != "" && Target(old(repo), BranchRef(branch)).Some? && !busy
      ensures done.NotRequested? <==> branch == ""
      ensures done.DeletionFailed? ==> busy
      ensures repo == if done.Deleted? then WithoutRef(old(repo), BranchRef(branch)) else old(repo)
    {
      if branch == "" { return NotRequested; }
      if Target(repo, BranchRef(branch)).None? { return AlreadyMissing; }
      if busy { return DeletionFailed; }
      repo := WithoutRef(repo, BranchRef(branch));
      return Deleted;
    }

    /** Validate first, then delete the branch when asked; an accepted, provable closeout loses no commit. */
    method CloseLane(c: Closing, checked: Result<Preflight, Refusal>, busy: bool) returns (done: Deletion)
      requires checked == Validate(repo, c)
      modifies this
      ensures repo.parents == old(repo).parents
      ensures checked.Err? || !c.delete_ ==> repo == old(repo)
      ensures repo != old(repo) ==> repo == WithoutRef(old(repo), BranchRef(c.branch))
      ensures done.Deleted? <==>
                checked.Ok? && c.delete_ && c.branch != "" && Target(old(repo), BranchRef(c.branch)).Some? && !busy
      ensures done.Deleted? ==> repo == WithoutRef(old(repo), BranchRef(c.branch))
      ensures repo != old(repo) && Provable(old(repo), c, checked.value) ==> KeepsHistory(old(repo), repo)
    {
      done := NotRequested;
      if checked.Ok? && c.delete_ {
        ghost var was := repo;
        done := DeleteBranch(c.branch, busy);
        if done.Deleted? {
          if BranchRef(c.branch) !in was.refs {
            SymbolicDeletionKeepsHistory(was, BranchRef(c.branch));
          } else if Provable(was, c, checked.value) {
            if NeedsRecovery(c.disposition) { RecoveryCloseoutKeepsHistory(was, c); } else { MergedCloseoutKeepsHistory(was, c); }
          }
        }
      }
    }
  }
}
