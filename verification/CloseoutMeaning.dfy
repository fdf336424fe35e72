/** When a closeout is accepted, said of commits and what names stand for. */
module CloseoutMeaning {
  import opened Wrappers
  import opened Text
  import opened Closeout

  /** The commit Git takes `origin`'s default branch for. */
  function RemoteTip(repo: Repo, default_: string): Option<Commit>
  {
    Resolve(repo, "refs/remotes/origin/" + default_)
  }

  function LocalTip(repo: Repo, default_: string): Option<Commit>
  {
    Resolve(repo, "refs/heads/" + default_)
  }

  /** The commit is in the remote default branch, or in the local one when there is no remote. */
  ghost predicate InDefault(repo: Repo, default_: string, tip: Commit)
  {
    if RemoteTip(repo, default_).Some? then Reaches(repo, RemoteTip(repo, default_).value, tip)
    else LocalTip(repo, default_).Some? && Reaches(repo, LocalTip(repo, default_).value, tip)
  }

  /** Whether the local default branch is in the remote one, when there is a remote one. */
  ghost function LocalPushed(repo: Repo, default_: string): Option<bool>
  {
    if RemoteTip(repo, default_).None? then None
    else Some(LocalTip(repo, default_).Some? && Reaches(repo, RemoteTip(repo, default_).value, LocalTip(repo, default_).value))
  }

  /** The branch is stored, and a default branch other than it is known. */
  predicate Closable(repo: Repo, c: Closing, default_: string)
  {
    && "refs/heads/" + c.branch in repo.refs && c.branch != ""
    && DefaultBranch(repo) == Some(default_) && default_ != "" && c.branch != default_
  }

  lemma OwnTip(repo: Repo, branch: string)
    requires BranchRef(branch) in repo.refs
    ensures Resolve(repo, BranchRef(branch)) == Some(repo.refs[BranchRef(branch)])
  {
  }

  /**
   * A stored branch may be closed as merged exactly when its tip is in the default branch or Git finds the merge commit's
   * patch equal to the branch's; the evidence is ancestry exactly in the first case.
   */
  lemma MergedExactly(repo: Repo, c: Closing, default_: string)
    requires Closable(repo, c, default_) && c.disposition.Merged?
    ensures var tip, v := repo.refs["refs/heads/" + c.branch], Validate(repo, c);
            && (v.Ok? <==> InDefault(repo, default_, tip) || c.squash)
            && (v.Ok? ==> v.value.evidence == Some(if InDefault(repo, default_, tip) then BranchAncestor else SquashEquivalent)
                          && v.value.existed && v.value.merged == Some(true) && v.value.force == c.delete_
                          && v.value.pushed == LocalPushed(repo, default_) && v.value.recovery == None)
            && (v.Err? ==> v.error == if RemoteTip(repo, default_).Some? && LocalTip(repo, default_).Some?
                                         && Reaches(repo, LocalTip(repo, default_).value, tip)
                                         && !Reaches(repo, RemoteTip(repo, default_).value, LocalTip(repo, default_).value)
                                      then DefaultNotPushed else NotIntegrated)
  {
    OwnTip(repo, c.branch);
    var tip := repo.refs["refs/heads/" + c.branch];
    assert Integrated(repo, c.branch, default_) <==> InDefault(repo, default_, tip);
    if RemoteTip(repo, default_).Some? && InDefault(repo, default_, tip) {
      assert Pushed(repo, default_).Some?;
    }
  }

  /** The name stands for a commit that leads to the branch's tip, and is not one of the two spellings of the branch. */
  ghost predicate Recovers(repo: Repo, c: Closing, tip: Commit)
  {
    var name := Trim(c.recovery, IsSpace);
    && name !in {"", c.branch, "refs/heads/" + c.branch}
    && Resolve(repo, name).Some? && Reaches(repo, Resolve(repo, name).value, tip)
  }

  /**
   * A stored branch may be given up unmerged exactly when its tip is not in the default branch, a reason is given, and
   * it is either abandoned with leave to discard or recovered through another name.
   */
  lemma UnmergedExactly(repo: Repo, c: Closing, default_: string)
    requires Closable(repo, c, default_) && c.disposition in {Superseded, Archived, Migrated, Abandoned}
    ensures var tip, v := repo.refs["refs/heads/" + c.branch], Validate(repo, c);
            && (v.Ok? <==>
                  && !InDefault(repo, default_, tip) && Trim(c.reason, IsSpace) != ""
                  && (if c.disposition == Abandoned then c.discard else Recovers(repo, c, tip)))
            && (v.Ok? ==> v.value.evidence == None && v.value.existed && v.value.merged == Some(false) && v.value.force == c.delete_
                          && v.value.pushed == LocalPushed(repo, default_)
                          && v.value.recovery == if c.recovery == "" then None else Some(Trim(c.recovery, IsSpace)))
  {
    UnmergedIsChecked(repo, c, default_);
    RecoveryExactly(repo, c);
  }

  /** Such a closeout is the check of an unmerged branch. */
  lemma UnmergedIsChecked(repo: Repo, c: Closing, default_: string)
    requires Closable(repo, c, default_) && c.disposition in {Superseded, Archived, Migrated, Abandoned}
    ensures Validate(repo, c) == CheckUnmerged(repo, c, default_)
    ensures Integrated(repo, c.branch, default_) <==> InDefault(repo, default_, repo.refs["refs/heads/" + c.branch])
    ensures Pushed(repo, default_) == LocalPushed(repo, default_)
  {
    OwnTip(repo, c.branch);
  }

  lemma RecoveryExactly(repo: Repo, c: Closing)
    requires BranchRef(c.branch) in repo.refs
    ensures var name, tip := Trim(c.recovery, IsSpace), repo.refs["refs/heads/" + c.branch];
            && (CheckRecovery(repo, c) == None <==> Recovers(repo, c, tip))
            && (CheckRecovery(repo, c) != None ==>
                  CheckRecovery(repo, c).value ==
                  if name == "" then NoRecoveryRef
                  else if name in {c.branch, "refs/heads/" + c.branch} then RecoveryIsBranch
                  else if Resolve(repo, name) == None then RecoveryUnresolved
                  else RecoveryLacksBranch)
  {
    OwnTip(repo, c.branch);
  }

  /** Why an unmerged closeout is refused, in the order the tests are made. */
  lemma UnmergedRefusals(repo: Repo, c: Closing, default_: string)
    requires Closable(repo, c, default_) && c.disposition in {Superseded, Archived, Migrated, Abandoned} && Validate(repo, c).Err?
    ensures var tip, name, e := repo.refs["refs/heads/" + c.branch], Trim(c.recovery, IsSpace), Validate(repo, c).error;
            e == if InDefault(repo, default_, tip) then AlreadyIntegrated
                 else if Trim(c.reason, IsSpace) == "" then NoReason
                 else if c.disposition == Abandoned then DiscardNotAllowed
                 else if name == "" then NoRecoveryRef
                 else if name in {c.branch, "refs/heads/" + c.branch} then RecoveryIsBranch
                 else if Resolve(repo, name) == None then RecoveryUnresolved
                 else RecoveryLacksBranch
  {
    UnmergedIsChecked(repo, c, default_);
    RecoveryExactly(repo, c);
  }

  /** What is refused whatever the branch holds, and that a branch already gone may be closed. */
  lemma OtherwiseExactly(repo: Repo, c: Closing)
    requires "refs/heads/" + c.branch !in repo.symbolic
    ensures var v, stored, d := Validate(repo, c), "refs/heads/" + c.branch in repo.refs, DefaultBranch(repo);
            && (c.disposition == Unsupported ==> v == Err(UnsupportedDisposition))
            && (c.disposition in {Active, Disposition.Handoff} ==> v == Err(NotCloseable))
            && (c.disposition !in {Unsupported, Active, Disposition.Handoff} ==>
                  && (c.branch == "" ==> v == Err(NoBranch))
                  && (c.branch != "" && !stored ==>
                        v == Ok(Preflight(false, None, None, None, if c.recovery == "" then None else Some(c.recovery), false)))
                  && (c.branch != "" && stored && d in {None, Some("")} ==> v == Err(NoDefaultBranch))
                  && (c.branch != "" && stored && d == Some(c.branch) ==> v == Err(ClosingDefault)))
  {
  }

  /** Git tries a name as it stands, then under its five prefixes in order, and only then as a revision expression. */
  lemma NamesInOrder(repo: Repo, name: string)
    requires repo.symbolic == map[]
    ensures StoredRef(repo, name) ==
            if name in repo.refs then Some(name)
            else if "refs/" + name in repo.refs then Some("refs/" + name)
            else if "refs/tags/" + name in repo.refs then Some("refs/tags/" + name)
            else if "refs/heads/" + name in repo.refs then Some("refs/heads/" + name)
            else if "refs/remotes/" + name in repo.refs then Some("refs/remotes/" + name)
            else if "refs/remotes/" + name + "/HEAD" in repo.refs then Some("refs/remotes/" + name + "/HEAD") else None
    ensures Resolve(repo, name) == if StoredRef(repo, name).Some? then Some(repo.refs[StoredRef(repo, name).value])
                                   else if name in repo.expressions then Some(repo.expressions[name]) else None
  {
    FirstOfSix(repo, name, "refs/" + name, "refs/tags/" + name, "refs/heads/" + name, "refs/remotes/" + name,
               "refs/remotes/" + name + "/HEAD");
  }

  lemma FirstOfSix(repo: Repo, a: string, b: string, c: string, d: string, e: string, f: string)
    ensures FirstStored(repo, [a, b, c, d, e, f]) ==
            if Target(repo, a).Some? then Target(repo, a)
            else if Target(repo, b).Some? then Target(repo, b)
            else if Target(repo, c).Some? then Target(repo, c)
            else if Target(repo, d).Some? then Target(repo, d)
            else if Target(repo, e).Some? then Target(repo, e) else Target(repo, f)
  {
    assert [a, b, c, d, e, f][1..] == [b, c, d, e, f] && [b, c, d, e, f][1..] == [c, d, e, f];
    assert [c, d, e, f][1..] == [d, e, f] && [d, e, f][1..] == [e, f] && [e, f][1..] == [f] && [f][1..] == [];
    assert FirstStored(repo, [f]) == Target(repo, f);
    assert FirstStored(repo, [e, f]) == if Target(repo, e).Some? then Target(repo, e) else Target(repo, f);
    assert FirstStored(repo, [d, e, f]) == if Target(repo, d).Some? then Target(repo, d) else FirstStored(repo, [e, f]);
    assert FirstStored(repo, [c, d, e, f]) == if Target(repo, c).Some? then Target(repo, c) else FirstStored(repo, [d, e, f]);
    assert FirstStored(repo, [b, c, d, e, f]) == if Target(repo, b).Some? then Target(repo, b) else FirstStored(repo, [c, d, e, f]);
  }

  /** A symbolic ref stands for the ref it ends at, while that is stored. */
  lemma SymbolicExactly(repo: Repo, name: string)
    requires name !in repo.refs && name in repo.symbolic
    ensures Target(repo, name) == if repo.symbolic[name] in repo.refs then Some(repo.symbolic[name]) else None
  {
  }

  /** A deleted name is gone, stored or symbolic, and every other name stands for what it did unless it ended there. */
  lemma DeletionExactly(repo: Repo, name: string, other: string)
    ensures Target(WithoutRef(repo, name), name) == None
    ensures other != name ==>
              Target(WithoutRef(repo, name), other) == if Target(repo, other) == Some(name) then None else Target(repo, other)
    ensures other in WithoutRef(repo, name).refs <==> other in repo.refs && other != name
    ensures other in WithoutRef(repo, name).refs ==> WithoutRef(repo, name).refs[other] == repo.refs[other]
  {
  }

  /** The default branch is where `origin/HEAD` points, without its remote's name, and otherwise a local `main` or `master`. */
  lemma DefaultExactly(repo: Repo)
    requires repo.symbolic == map[]
    ensures forall d :: repo.remoteHead == Some("origin/" + d) ==> DefaultBranch(repo) == Some(d)
    ensures forall d :: repo.remoteHead == Some(d) && d != "" && !("origin/" <= d) ==> DefaultBranch(repo) == Some(d)
    ensures repo.remoteHead in {None, Some("")} ==>
              DefaultBranch(repo) == if "refs/heads/main" in repo.refs then Some("main")
                                     else if "refs/heads/master" in repo.refs then Some("master") else None
  {
    assert BranchRef("main") == "refs/heads/main" && BranchRef("master") == "refs/heads/master";
    forall d | repo.remoteHead == Some("origin/" + d)
      ensures DefaultBranch(repo) == Some(d)
    {
      assert ("origin/" + d)[7..] == d;
    }
  }
}
