/** The registry as a protocol: every write any operation makes, and what all of them keep. */
module ClaimProtocol {
  import opened Wrappers
  import opened Claims
  import Paths
  import Text

  // ---------------------------------------------------------------------
  // Operations that sweep every claim file

  datatype Sweep =
    | Heartbeat(agent: string, project: string, session: string, scope: string, branch: string, exact: bool)
    | Hydrate(agent: string, project: string, session: string, scope: string, branch: string)
    | EndSession(agent: string, session: string)
    | CompletePlan(project: string, planText: string)

  predicate InLane(c: Claim, agent: string, project: string, scope: string, branch: string)
  {
    c.agent == agent && project in c.projects && (scope == "" || c.scope == scope)
    && (branch == "" || c.contract.branch == branch)
  }

  predicate Selected(sweep: Sweep, c: Claim)
  {
    Live(c) &&
    match sweep
    case Heartbeat(agent, project, session, scope, branch, exact) =>
      InLane(c, agent, project, scope, branch) && (c.session == session || (!exact && c.session == ""))
    case Hydrate(agent, project, session, scope, branch) =>
      InLane(c, agent, project, scope, branch) && c.session == ""
    case EndSession(agent, session) => c.agent == agent && c.session == session
    case CompletePlan(project, planText) =>
      project in c.projects && c.plan.Some? && c.plan.value.text == planText
  }

  function Rewritten(sweep: Sweep, c: Claim, now: int): Claim
  {
    match sweep
    case Heartbeat(_, _, session, _, _, _) => c.(session := session, heartbeat := Some(now))
    case Hydrate(_, _, session, _, _) => c.(session := session, heartbeat := Some(now))
    case EndSession(_, _) => c.(status := SessionEnded)
    case CompletePlan(_, _) => c.(status := Completed)
  }

  function Swept(reg: Registry, sweep: Sweep, now: int): Registry
  {
    map n | n in reg :: if Selected(sweep, reg[n]) then Rewritten(sweep, reg[n], now) else reg[n]
  }

  /** Sessions are resolved before a sweep; an unresolved one is refused. */
  predicate Resolved(sweep: Sweep)
  {
    (sweep.Heartbeat? || sweep.Hydrate? || sweep.EndSession?) ==> sweep.session != ""
  }

  // ---------------------------------------------------------------------
  // Operations on one lane

  datatype LaneEdit =
    | Resume(worktree: string, branch: string, session: string)
    | HandOff | FinishClean | FinishDirty | Abandon
    | BeginClose | FinishClose

  datatype LaneRefusal = ClaimMissing | NoLiveClaim | ManyLiveClaims | BadStatus | NoPlan | WrongBranch | WrongWorktree | NoSession

  function MatchingLive(reg: Registry, now: int, agent: string, project: string, scope: string): set<string>
  {
    set n | n in reg && Live(reg[n]) && Unexpired(reg[n], now)
            && reg[n].agent == agent && project in reg[n].projects && reg[n].scope == scope
  }

  /** What a lifecycle command changes in the record it finds in the lane's file. */
  function Amended(c: Claim, edit: LaneEdit, stamp: int): Claim
  {
    match edit
    case HandOff => c.(status := Handoff)
    case FinishDirty => c.(status := Handoff)
    case FinishClean => c.(status := Completed)
    case Abandon => c.(status := Abandoned)
    case BeginClose => c.(status := Closing)
    case FinishClose => c.(status := Completed)
    case Resume(_, _, session) => c.(status := Active, session := session, heartbeat := Some(stamp))
  }

  /** The record a lifecycle command writes back to the lane's file. */
  function EditLane(reg: Registry, now: int, agent: string, project: string, scope: string, edit: LaneEdit)
    : Result<Claim, LaneRefusal>
  {
    var slot := ClaimFilename(agent, project, scope);
    var found := MatchingLive(reg, now, agent, project, scope);
    if (edit.HandOff? || edit.FinishClean? || edit.FinishDirty? || edit.Abandon?) && found == {} then Err(NoLiveClaim)
    else if (edit.HandOff? || edit.FinishClean? || edit.FinishDirty? || edit.Abandon?) && |found| > 1 then Err(ManyLiveClaims)
    else if slot !in reg then Err(ClaimMissing)
    else
      var c := reg[slot];
      match edit
      case Resume(worktree, branch, session) =>
        if !Held(c) then Err(BadStatus)
        else if !HasPlanText(c) then Err(NoPlan)
        else if c.contract.branch != "" && c.contract.branch != branch then Err(WrongBranch)
        else if c.contract.worktree != "" && c.contract.worktree != worktree then Err(WrongWorktree)
        else if session == "" then Err(NoSession)
        else Ok(Amended(c, edit, now))
      case _ => Ok(Amended(c, edit, now))
  }

  datatype UpsertRefusal = NoExistingClaim | WrongAgent | WrongSession | UpsertHierarchy | UpsertSessionRoot | UpsertMetadata

  /** Refreshing the claim in an occupied slot; the path conflicts of `create_claim` are not evaluated here. */
  function UpsertClaim(reg: Registry, now: int, request: Claim, ttl: int): Result<Claim, UpsertRefusal>
  {
    var slot, candidate := Slot(request), request.(status := Active);
    if slot !in reg then Err(NoExistingClaim)
    else if reg[slot].agent != request.agent then Err(WrongAgent)
    else if reg[slot].session != "" && reg[slot].session != request.session then Err(WrongSession)
    else if HierarchyIssues(candidate, Prospective(candidate, ActiveIn(reg, now, PrimaryProject(candidate)))) != {}
    then Err(UpsertHierarchy)
    else if SessionRootConflicts(candidate, AllActive(reg, now)) != {}
            && !candidate.parallelRoot && !reg[slot].parallelRoot then Err(UpsertSessionRoot)
    else if MetadataBlocksCreation(candidate) then Err(UpsertMetadata)
    else Ok(candidate.(
            parallelRoot := candidate.parallelRoot || reg[slot].parallelRoot, heartbeat := Some(now),
            expires := if reg[slot].expires.Some? then reg[slot].expires else Some(now + ttl)))
  }

  // ---------------------------------------------------------------------
  // Single-file steps

  /** One durable change to one claim file. */
  datatype Step =
    | Rewrite(name: string, claim: Claim)
    | Remove(name: string)
    | Admit(claim: Claim)
    | Upsert(claim: Claim)
    | Retire(claim: Claim)

  /** Only the session, the heartbeat and the status differ, and the status is one the commands write. */
  predicate Amends(was: Claim, becomes: Claim)
  {
    && becomes == was.(session := becomes.session, heartbeat := becomes.heartbeat, status := becomes.status)
    && (becomes.status.OtherStatus? ==> becomes.status == was.status)
  }

  /** A rewrite amends a claim, which stays held only if it was, and then keeps a session. */
  predicate Updated(was: Claim, becomes: Claim)
  {
    Amends(was, becomes) && (Held(becomes) ==> Held(was) && (was.session != "" ==> becomes.session != ""))
  }

  /** The slot's claim is held, stays of one type and project, gains no path, and lives no longer. */
  predicate UpsertNarrows(was: Claim, becomes: Claim)
  {
    && Held(was) && was.agent == becomes.agent && was.claimType == becomes.claimType
    && |becomes.projects| == 1 && becomes.projects[0] in was.projects
    && (forall p :: p in becomes.writePaths ==> p in was.writePaths)
    && (was.expires.Some? ==> becomes.expires == was.expires)
  }

  predicate Allowed(reg: Registry, now: int, step: Step)
  {
    match step
    case Rewrite(n, c) => n in reg && Updated(reg[n], c)
    case Remove(n) => true
    case Admit(c) => |c.projects| == 1 && AdmitClaim(reg, now, c).Ok?
    case Upsert(c) => Slot(c) in reg && UpsertNarrows(reg[Slot(c)], c)
    case Retire(c) => |c.projects| == 1 && !Held(c)
  }

  function Apply(reg: Registry, step: Step): Registry
  {
    match step
    case Rewrite(n, c) => reg[n := c]
    case Remove(n) => reg - {n}
    case Admit(c) => reg[Slot(c) := c]
    case Upsert(c) => reg[Slot(c) := c]
    case Retire(c) => reg[Slot(c) := c]
  }

  // ---------------------------------------------------------------------
  // Exclusion

  predicate Holds(reg: Registry, now: int, n: string)
  {
    n in reg && Held(reg[n]) && Unexpired(reg[n], now)
  }

  /** No two unexpired claims, live or preserved, are in conflict. */
  ghost predicate Exclusive(reg: Registry, now: int)
  {
    forall i, j :: Holds(reg, now, i) && Holds(reg, now, j) ==> !Conflict(reg[i], reg[j])
  }

  /** Whether a record could be written to `name` without conflicting with what others hold. */
  ghost predicate ClearOf(reg: Registry, now: int, name: string, c: Claim)
  {
    forall n :: n != name && Holds(reg, now, n) ==> !Conflict(c, reg[n])
  }

  /** Writing a held, unexpired record keeps exclusion exactly when it conflicts with no other holder. */
  lemma WriteKeepsExclusionExactly(reg: Registry, now: int, name: string, c: Claim)
    requires Exclusive(reg, now) && Held(c) && Unexpired(c, now)
    ensures Exclusive(reg[name := c], now) <==> ClearOf(reg, now, name, c)
  {
    var reg' := reg[name := c];
    if ClearOf(reg, now, name, c) {
      forall i, j | Holds(reg', now, i) && Holds(reg', now, j)
        ensures !Conflict(reg'[i], reg'[j])
      {
        ConflictIsSymmetric(reg'[i], reg'[j]);
        assert i != name ==> Holds(reg, now, i);
        assert j != name ==> Holds(reg, now, j);
      }
    }
    if Exclusive(reg', now) {
      forall n | n != name && Holds(reg, now, n)
        ensures !Conflict(c, reg[n])
      {
        assert Holds(reg', now, name) && Holds(reg', now, n);
      }
    }
  }

  /** Time only lets claims go. */
  lemma ExclusionOutlivesTime(reg: Registry, now: int, later: int)
    requires Exclusive(reg, now) && now <= later
    ensures Exclusive(reg, later)
  {
    assert forall n :: Holds(reg, later, n) ==> Holds(reg, now, n);
  }

  /** Writing a record that holds nothing keeps exclusion. */
  lemma IdleWriteKeepsExclusion(reg: Registry, now: int, name: string, c: Claim)
    requires Exclusive(reg, now) && !(Held(c) && Unexpired(c, now))
    ensures Exclusive(reg[name := c], now)
  {
    var reg' := reg[name := c];
    forall i, j | Holds(reg', now, i) && Holds(reg', now, j)
      ensures !Conflict(reg'[i], reg'[j])
    {
      assert i != name && j != name;
      assert Holds(reg, now, i) && Holds(reg, now, j);
    }
  }

  /** A record whose holds are among those of the one it replaces keeps exclusion. */
  lemma NarrowerWriteKeepsExclusion(reg: Registry, now: int, name: string, c: Claim)
    requires Exclusive(reg, now) && name in reg
    requires Held(c) && Unexpired(c, now) ==>
               Holds(reg, now, name) && (forall o :: Conflict(c, o) ==> Conflict(reg[name], o))
    ensures Exclusive(reg[name := c], now)
  {
    if Held(c) && Unexpired(c, now) {
      WriteKeepsExclusionExactly(reg, now, name, c);
    } else {
      IdleWriteKeepsExclusion(reg, now, name, c);
    }
  }

  /** What a claim conflicts with depends only on its agent, projects, type and paths. */
  lemma ConflictIsCongruent(was: Claim, c: Claim, o: Claim)
    requires was.agent == c.agent && was.projects == c.projects
    requires was.claimType == c.claimType && was.writePaths == c.writePaths
    ensures Conflict(c, o) <==> Conflict(was, o)
  {
    assert WritePathsOverlap(c, o) <==> WritePathsOverlap(was, o);
    assert ProjectsOverlap(c, o) <==> ProjectsOverlap(was, o);
  }

  lemma NarrowerConflicts(was: Claim, c: Claim, o: Claim)
    requires UpsertNarrows(was, c) && Conflict(c, o)
    ensures Conflict(was, o)
  {
    FewerPathsOverlapLess(was, c, o);
    assert c.projects[0] in was.projects && c.projects[0] in o.projects;
    assert ProjectsOverlap(was, o);
  }

  lemma FewerPathsOverlapLess(was: Claim, c: Claim, o: Claim)
    requires forall p :: p in c.writePaths ==> p in was.writePaths
    ensures WritePathsOverlap(c, o) ==> WritePathsOverlap(was, o)
  {
    if p, q :| p in c.writePaths && q in o.writePaths && Paths.PathsOverlap(p, q) {
      assert p in was.writePaths;
    }
  }

  lemma RewriteKeepsExclusion(reg: Registry, now: int, n: string, c: Claim)
    requires Exclusive(reg, now) && n in reg && Updated(reg[n], c)
    ensures Exclusive(reg[n := c], now)
  {
    if Held(c) {
      forall o | Conflict(c, o)
        ensures Conflict(reg[n], o)
      {
        ConflictIsCongruent(reg[n], c, o);
      }
    }
    NarrowerWriteKeepsExclusion(reg, now, n, c);
  }

  lemma AdmissionKeepsExclusion(reg: Registry, now: int, slot: string, c: Claim)
    requires Exclusive(reg, now) && |c.projects| == 1 && AdmitClaim(reg, now, c).Ok?
    ensures Exclusive(reg[slot := c], now)
  {
    forall n | n != slot && Holds(reg, now, n)
      ensures !Conflict(c, reg[n])
    {
      AdmittedHasNoConflict(reg, now, c, n);
    }
    if Held(c) && Unexpired(c, now) {
      WriteKeepsExclusionExactly(reg, now, slot, c);
    } else {
      IdleWriteKeepsExclusion(reg, now, slot, c);
    }
  }

  lemma UpsertKeepsExclusion(reg: Registry, now: int, slot: string, c: Claim)
    requires Exclusive(reg, now) && slot in reg && UpsertNarrows(reg[slot], c)
    ensures Exclusive(reg[slot := c], now)
  {
    forall o | Conflict(c, o)
      ensures Conflict(reg[slot], o)
    {
      NarrowerConflicts(reg[slot], c, o);
    }
    NarrowerWriteKeepsExclusion(reg, now, slot, c);
  }

  lemma StepKeepsExclusion(reg: Registry, now: int, step: Step)
    requires Exclusive(reg, now) && Allowed(reg, now, step)
    ensures Exclusive(Apply(reg, step), now)
  {
    match step
    case Rewrite(n, c) => RewriteKeepsExclusion(reg, now, n, c);
    case Remove(n) => assert forall m :: Holds(reg - {n}, now, m) ==> Holds(reg, now, m);
    case Admit(c) => AdmissionKeepsExclusion(reg, now, Slot(c), c);
    case Upsert(c) => UpsertKeepsExclusion(reg, now, Slot(c), c);
    case Retire(c) => IdleWriteKeepsExclusion(reg, now, Slot(c), c);
  }

  // ---------------------------------------------------------------------
  // Plan roots

  /** Every claim sits in the file its identity names and belongs to one project. */
  ghost predicate Filed(reg: Registry)
  {
    forall n :: n in reg ==> n == Slot(reg[n]) && |reg[n].projects| == 1
  }

  /** Every held claim names its session. */
  ghost predicate Sessioned(reg: Registry)
  {
    forall n :: n in reg && Held(reg[n]) ==> reg[n].session != ""
  }

  /** An unparented program claim for an identified plan. */
  predicate PlanRoot(c: Claim)
  {
    IsRoot(c) && PrimaryProject(c) != "" && PlanIdentity(c).Some?
  }

  predicate SamePlan(l: Claim, r: Claim)
  {
    PrimaryProject(l) == PrimaryProject(r) && PlanIdentity(l) == PlanIdentity(r)
  }

  predicate RivalRoots(l: Claim, r: Claim)
  {
    PlanRoot(l) && PlanRoot(r) && SamePlan(l, r)
  }

  ghost predicate OneRootPerPlan(reg: Registry, now: int)
  {
    forall i, j :: Holds(reg, now, i) && Holds(reg, now, j) && RivalRoots(reg[i], reg[j]) ==> i == j
  }

  /** A live candidate that is a plan root is refused while its plan has another root, live or preserved. */
  lemma SecondRootIsRefused(reg: Registry, now: int, c: Claim, n: string)
    requires |c.projects| == 1 && Live(c) && PlanRoot(c)
    requires Holds(reg, now, n) && PlanRoot(reg[n]) && SamePlan(reg[n], c) && !SameClaim(reg[n], c)
    requires reg[n].session != "" && n != "" && PrimaryProject(c) in reg[n].projects
    ensures AdmitClaim(reg, now, c).Err?
  {
    if !Live(reg[n]) {
      assert n in PreservedLaneConflicts(c, Loaded(reg, now));
    } else if c.session == "" {
      SessionlessIsBlocked(c);
    } else {
      var pool := Prospective(c, ActiveIn(reg, now, PrimaryProject(c)));
      assert n in pool && pool[n] == reg[n];
      TwoRootsAreAnIssue(c, pool, n);
    }
  }

  lemma TwoRootsAreAnIssue(c: Claim, pool: Registry, n: string)
    requires Live(c) && PlanRoot(c) && c.session != "" && "" in pool && pool[""] == c
    requires n in pool && n != "" && Live(pool[n]) && pool[n].session != "" && IsRoot(pool[n]) && SamePlan(pool[n], c)
    ensures HierarchyIssues(c, pool) != {}
  {
    var cohort := Cohort(c, pool);
    assert "" in cohort && n in cohort;
    assert {"", n} <= Roots(cohort);
    TwoMembers(Roots(cohort), "", n);
    TwoMembers(cohort.Keys, "", n);
    assert MultipleProgramRoots in CohortIssues(c, cohort);
    assert MultipleProgramRoots in HierarchyIssues(c, pool);
  }

  lemma SlotIsNamed(c: Claim)
    ensures Slot(c) != ""
  {
    assert |Slot(c)| >= 7;
  }

  lemma TwoMembers(s: set<string>, a: string, b: string)
    requires a in s && b in s && a != b
    ensures |s| >= 2
  {
    assert |s - {a} - {b}| == |s| - 2;
  }

  lemma StepKeepsFiled(reg: Registry, now: int, step: Step)
    requires Filed(reg) && Allowed(reg, now, step)
    ensures Filed(Apply(reg, step))
  {
    match step
    case Rewrite(n, c) =>
      SameClaimSameSlot(reg[n], c);
      FiledAfterWrite(reg, n, c);
    case Remove(n) =>
    case Admit(c) => FiledAfterWrite(reg, Slot(c), c);
    case Upsert(c) => FiledAfterWrite(reg, Slot(c), c);
    case Retire(c) => FiledAfterWrite(reg, Slot(c), c);
  }

  /** Every step but an upsert keeps plans single-rooted, if only live claims are admitted. */
  lemma StepKeepsOneRoot(reg: Registry, now: int, step: Step)
    requires Filed(reg) && Sessioned(reg) && OneRootPerPlan(reg, now) && Allowed(reg, now, step)
    requires !step.Upsert? && (step.Admit? ==> Live(step.claim))
    ensures Sessioned(Apply(reg, step)) && OneRootPerPlan(Apply(reg, step), now)
  {
    match step
    case Rewrite(n, c) => RewriteKeepsOneRoot(reg, now, n, c);
    case Remove(n) => assert forall m :: Holds(reg - {n}, now, m) ==> Holds(reg, now, m);
    case Admit(c) => AdmissionKeepsOneRoot(reg, now, Slot(c), c);
    case Retire(c) => OneRootAfterWrite(reg, now, Slot(c), c);
  }

  lemma FiledAfterWrite(reg: Registry, slot: string, c: Claim)
    requires Filed(reg) && slot == Slot(c) && |c.projects| == 1
    ensures Filed(reg[slot := c])
  {
  }

  lemma OneRootAfterWrite(reg: Registry, now: int, slot: string, c: Claim)
    requires OneRootPerPlan(reg, now)
    requires Held(c) && Unexpired(c, now) ==> forall n :: n != slot && Holds(reg, now, n) ==> !RivalRoots(reg[n], c)
    ensures OneRootPerPlan(reg[slot := c], now)
  {
    var reg' := reg[slot := c];
    forall i, j | Holds(reg', now, i) && Holds(reg', now, j) && RivalRoots(reg'[i], reg'[j])
      ensures i == j
    {
      assert i != slot ==> Holds(reg, now, i);
      assert j != slot ==> Holds(reg, now, j);
      assert RivalRoots(reg'[j], reg'[i]);
    }
  }

  lemma RewriteKeepsOneRoot(reg: Registry, now: int, n: string, c: Claim)
    requires Sessioned(reg) && OneRootPerPlan(reg, now) && n in reg && Updated(reg[n], c)
    ensures Sessioned(reg[n := c]) && OneRootPerPlan(reg[n := c], now)
  {
    forall m | Held(c) && Unexpired(c, now) && m != n && Holds(reg, now, m)
      ensures !RivalRoots(reg[m], c)
    {
      assert Holds(reg, now, n);
      assert RivalRoots(reg[m], c) ==> RivalRoots(reg[m], reg[n]);
    }
    OneRootAfterWrite(reg, now, n, c);
  }

  lemma AdmissionKeepsOneRoot(reg: Registry, now: int, slot: string, c: Claim)
    requires Filed(reg) && Sessioned(reg) && OneRootPerPlan(reg, now)
    requires slot == Slot(c) && |c.projects| == 1 && Live(c) && AdmitClaim(reg, now, c).Ok?
    ensures Sessioned(reg[slot := c]) && OneRootPerPlan(reg[slot := c], now)
  {
    if c.session == "" { SessionlessIsBlocked(c); }
    forall n | n != slot && Holds(reg, now, n)
      ensures !RivalRoots(reg[n], c)
    {
      if RivalRoots(reg[n], c) {
        FiledRivalIsRefused(reg, now, c, n);
      }
    }
    OneRootAfterWrite(reg, now, slot, c);
  }

  lemma FiledRivalIsRefused(reg: Registry, now: int, c: Claim, n: string)
    requires Filed(reg) && Sessioned(reg) && |c.projects| == 1 && Live(c)
    requires n != Slot(c) && Holds(reg, now, n) && RivalRoots(reg[n], c)
    ensures AdmitClaim(reg, now, c).Err?
  {
    SlotIsNamed(reg[n]);
    SameClaimSameSlot(reg[n], c);
    SecondRootIsRefused(reg, now, c, n);
  }

  lemma SameClaimSameSlot(l: Claim, r: Claim)
    ensures SameClaim(l, r) ==> Slot(l) == Slot(r)
  {
  }

  /** The live, unexpired lanes of the candidate's project and plan. */
  function LiveCohort(reg: Registry, now: int, c: Claim): Registry
  {
    map n | n in reg && Unexpired(reg[n], now) && InCohort(reg[n], PrimaryProject(c), PlanIdentity(c)) :: reg[n]
  }

  /** The file being written already holds the cohort's root under another identity. */
  predicate ReplacesForeignRoot(reg: Registry, now: int, c: Claim)
  {
    Slot(c) in LiveCohort(reg, now, c) && IsRoot(reg[Slot(c)]) && !SameClaim(reg[Slot(c)], c)
  }

  /** Right after a create, a live cohort of two or more has one root exactly when no root's file was replaced. */
  lemma CohortAfterCreateExactly(reg: Registry, now: int, c: Claim)
    requires Filed(reg) && |c.projects| == 1 && Live(c) && Unexpired(c, now)
    requires PrimaryProject(c) != "" && PlanIdentity(c).Some?
    requires AdmitClaim(reg, now, c).Ok?
    requires |LiveCohort(reg[Slot(c) := c], now, c)| >= 2
    ensures |Roots(LiveCohort(reg[Slot(c) := c], now, c))| == 1 <==> !ReplacesForeignRoot(reg, now, c)
  {
    var slot := Slot(c);
    FiledNames(reg, c);
    SlotIsNamed(c);
    AdmittedCohortHasOneRoot(reg, now, c);
    CohortCounts(reg, now, c, slot);
  }

  /** A filed registry keeps no claim under the empty name, and none of one identity outside its slot. */
  lemma FiledNames(reg: Registry, c: Claim)
    requires Filed(reg)
    ensures "" !in reg
    ensures forall n :: n in reg && SameClaim(reg[n], c) ==> n == Slot(c)
  {
    forall n | n in reg
      ensures n != "" && (SameClaim(reg[n], c) ==> n == Slot(c))
    {
      SlotIsNamed(reg[n]);
      SameClaimSameSlot(reg[n], c);
    }
  }

  lemma CohortCounts(reg: Registry, now: int, c: Claim, slot: string)
    requires PrimaryProject(c) != ""
    requires "" !in reg && slot != "" && Live(c) && c.session != "" && |c.projects| == 1 && Unexpired(c, now)
    requires forall n :: n in reg && SameClaim(reg[n], c) ==> n == slot
    requires var checked := Cohort(c, Prospective(c, ActiveIn(reg, now, PrimaryProject(c))));
             |checked| >= 2 ==> |Roots(checked)| == 1
    requires |LiveCohort(reg[slot := c], now, c)| >= 2
    ensures |Roots(LiveCohort(reg[slot := c], now, c))| == 1
       <==> !(slot in LiveCohort(reg, now, c) && IsRoot(reg[slot]) && !SameClaim(reg[slot], c))
  {
    var checked, after := Cohort(c, Prospective(c, ActiveIn(reg, now, PrimaryProject(c)))), LiveCohort(reg[slot := c], now, c);
    CheckedCohort(reg, now, c);
    AfterCohort(reg, now, c, slot);
    CohortsCompared(checked, after, LiveCohort(reg, now, c), c, slot);
  }

  /** Counting roots after the candidate moves from its nameless place into `slot`. */
  lemma CohortsCompared(checked: Registry, after: Registry, before: Registry, c: Claim, slot: string)
    requires slot != "" && "" in checked && checked[""] == c && slot in after && after[slot] == c
    requires forall n :: n in checked && n != "" <==> n in before && !SameClaim(before[n], c)
    requires forall n :: n in checked && n != "" ==> checked[n] == before[n]
    requires forall n :: n in after && n != slot <==> n in before && n != slot
    requires forall n :: n in after && n != slot ==> after[n] == before[n] && n != "" && !SameClaim(before[n], c)
    requires |checked| >= 2 ==> |Roots(checked)| == 1
    requires |after| >= 2
    ensures |Roots(after)| == 1 <==> !(slot in before && IsRoot(before[slot]) && !SameClaim(before[slot], c))
  {
    WithoutMember(after.Keys, slot);
    var m :| m in after.Keys - {slot};
    TwoMembers(checked.Keys, "", m);
    assert Roots(after) - {slot} == Roots(checked) - {""} - {slot};
    RootCount(Roots(checked), "", Roots(after), slot);
  }

  /** The cohort a create checks: the candidate, and the live lanes of its plan under other identities. */
  lemma CheckedCohort(reg: Registry, now: int, c: Claim)
    requires "" !in reg && Live(c) && c.session != "" && |c.projects| == 1
    requires PrimaryProject(c) != ""
    ensures var checked := Cohort(c, Prospective(c, ActiveIn(reg, now, PrimaryProject(c))));
            && "" in checked && checked[""] == c
            && (forall n :: n in checked && n != "" <==> n in LiveCohort(reg, now, c) && !SameClaim(reg[n], c))
            && (forall n :: n in checked && n != "" ==> checked[n] == reg[n])
  {
    var pool := Prospective(c, ActiveIn(reg, now, PrimaryProject(c)));
    assert pool[""] == c && InCohort(c, PrimaryProject(c), PlanIdentity(c));
    assert SameClaim(c, c);
  }

  /** The cohort a create leaves: the candidate in its slot, and the live lanes in other files. */
  lemma AfterCohort(reg: Registry, now: int, c: Claim, slot: string)
    requires Live(c) && c.session != "" && Unexpired(c, now)
    ensures var after := LiveCohort(reg[slot := c], now, c);
            && slot in after && after[slot] == c
            && (forall n :: n in after && n != slot <==> n in LiveCohort(reg, now, c) && n != slot)
            && (forall n :: n in after && n != slot ==> after[n] == reg[n])
  {
  }

  /** Renaming one possible root and dropping another name leaves one root exactly when nothing was dropped. */
  lemma RootCount(checked: set<string>, a: string, after: set<string>, b: string)
    requires |checked| == 1 && a != b
    requires after - {b} == checked - {a} - {b}
    requires a in checked <==> b in after
    ensures |after| == 1 <==> b !in checked
  {
    WithoutMember(checked, a);
    WithoutMember(checked - {a}, b);
    WithoutMember(after, b);
  }

  lemma WithoutMember(s: set<string>, x: string)
    ensures |s - {x}| == if x in s then |s| - 1 else |s|
  {
    if x !in s { assert s - {x} == s; }
  }

  /** Scopes that differ only in `/` against `_` share one claim file. */
  lemma ScopesCanShareAFile(agent: string, project: string)
    ensures ClaimFilename(agent, project, "a/b") == ClaimFilename(agent, project, "a_b")
  {
    var from, to := "a/b", "a_b";
    assert from[1..] == "/b" && to[1..] == "_b" && "/b"[1..] == "b" && "_b"[1..] == "b" && "b"[1..] == "";
    assert Text.Replace("b", "/", "_") == "b";
    assert Text.Replace("/b", "/", "_") == "_" + "b";
    assert Text.Replace("_b", "/", "_") == "_" + "b";
    assert Text.Replace(from, "/", "_") == Text.Replace(to, "/", "_");
  }

  // ---------------------------------------------------------------------
  // Which operations are which steps

  lemma SweepUpdates(sweep: Sweep, c: Claim, now: int)
    requires Resolved(sweep) && Selected(sweep, c)
    ensures Updated(c, Rewritten(sweep, c, now))
  {
  }

  /** In a filed registry every lifecycle edit is an update of the one claim it looked up. */
  lemma EditUpdates(reg: Registry, now: int, agent: string, project: string, scope: string, edit: LaneEdit)
    requires Filed(reg) && EditLane(reg, now, agent, project, scope, edit).Ok?
    ensures var slot := ClaimFilename(agent, project, scope);
            slot in reg && Updated(reg[slot], EditLane(reg, now, agent, project, scope, edit).value)
  {
    var found := MatchingLive(reg, now, agent, project, scope);
    if found != {} {
      var n :| n in found;
      LookupFindsItsFile(reg, now, agent, project, scope, n);
    }
    EditOfHeldClaim(reg, now, agent, project, scope, edit, ClaimFilename(agent, project, scope));
  }

  /** The commands that end a lane. */
  predicate Ends(edit: LaneEdit)
  {
    edit.FinishClean? || edit.Abandon? || edit.BeginClose? || edit.FinishClose?
  }

  /** Under the lock an edit is a legal update exactly when it ends the lane or the record found there is still held. */
  lemma LateEditIsLegalExactly(reg: Registry, now: int, slot: string, edit: LaneEdit, stamp: int)
    requires slot in reg && (edit.Resume? ==> edit.session != "")
    ensures Allowed(reg, now, Rewrite(slot, Amended(reg[slot], edit, stamp))) <==> Ends(edit) || Held(reg[slot])
  {
  }

  /**
   * The status was checked before the lock, and the record found under it may have ended since. The edit keeps
   * exclusion exactly when it ends the lane, the record has expired, or it is clear of every other holder.
   */
  lemma LateEditKeepsExclusionExactly(reg: Registry, now: int, slot: string, edit: LaneEdit, stamp: int)
    requires Exclusive(reg, now) && slot in reg
    ensures Exclusive(reg[slot := Amended(reg[slot], edit, stamp)], now) <==>
              Ends(edit) || !Unexpired(reg[slot], now) || ClearOf(reg, now, slot, reg[slot])
  {
    var was, c := reg[slot], Amended(reg[slot], edit, stamp);
    forall o
      ensures Conflict(c, o) <==> Conflict(was, o)
    {
      ConflictIsCongruent(was, c, o);
    }
    if Held(c) && Unexpired(c, now) {
      WriteKeepsExclusionExactly(reg, now, slot, c);
    } else {
      IdleWriteKeepsExclusion(reg, now, slot, c);
    }
  }

  /** Ending a lane needs no lock around its reading: the record is a legal write whatever has happened since it was read. */
  lemma EndingNeedsNoLock(read: Registry, at: int, agent: string, project: string, scope: string, edit: LaneEdit,
                          reg: Registry, now: int)
    requires Filed(read) && Ends(edit) && EditLane(read, at, agent, project, scope, edit).Ok?
    ensures var c := EditLane(read, at, agent, project, scope, edit).value;
            Allowed(reg, now, Retire(c)) && Slot(c) == ClaimFilename(agent, project, scope)
  {
    EndingSetsStatus(read, at, agent, project, scope, edit);
    var slot := ClaimFilename(agent, project, scope);
    EndedInPlace(reg, now, read[slot], EditLane(read, at, agent, project, scope, edit).value);
  }

  lemma EndedInPlace(reg: Registry, now: int, was: Claim, c: Claim)
    requires |was.projects| == 1 && c == was.(status := c.status) && c.status in {Abandoned, Closing, Completed}
    ensures Allowed(reg, now, Retire(c)) && Slot(c) == Slot(was)
  {
  }

  lemma EndingSetsStatus(reg: Registry, now: int, agent: string, project: string, scope: string, edit: LaneEdit)
    requires Ends(edit) && EditLane(reg, now, agent, project, scope, edit).Ok?
    ensures var slot := ClaimFilename(agent, project, scope);
            var status := if edit.Abandon? then Abandoned else if edit.BeginClose? then Closing else Completed;
            slot in reg && EditLane(reg, now, agent, project, scope, edit).value == reg[slot].(status := status)
  {
  }

  lemma LookupFindsItsFile(reg: Registry, now: int, agent: string, project: string, scope: string, n: string)
    requires Filed(reg) && n in MatchingLive(reg, now, agent, project, scope)
    ensures n == ClaimFilename(agent, project, scope)
  {
    assert reg[n].projects == [project];
  }

  lemma EditOfHeldClaim(reg: Registry, now: int, agent: string, project: string, scope: string, edit: LaneEdit, slot: string)
    requires slot == ClaimFilename(agent, project, scope)
    requires MatchingLive(reg, now, agent, project, scope) != {} ==> slot in reg && Held(reg[slot])
    requires EditLane(reg, now, agent, project, scope, edit).Ok?
    ensures slot in reg && Updated(reg[slot], EditLane(reg, now, agent, project, scope, edit).value)
  {
  }

  lemma UpsertIsGuarded(reg: Registry, now: int, request: Claim, ttl: int)
    requires UpsertClaim(reg, now, request, ttl).Ok?
    requires UpsertNarrows(reg[Slot(request)], request.(expires := reg[Slot(request)].expires))
    ensures Allowed(reg, now, Upsert(UpsertClaim(reg, now, request, ttl).value))
  {
    SameClaimSameSlot(request, UpsertClaim(reg, now, request, ttl).value);
  }

  /** The slot's expiry, or the time to live when it has none, is already past. */
  predicate UpsertExpired(was: Claim, now: int, ttl: int)
  {
    if was.expires.Some? then was.expires.value < now else ttl < 0
  }

  /** An accepted upsert keeps exclusion exactly when the slot expires at once or the request is clear of every other holder. */
  lemma UpsertKeepsExclusionExactly(reg: Registry, now: int, request: Claim, ttl: int)
    requires Exclusive(reg, now) && UpsertClaim(reg, now, request, ttl).Ok?
    ensures Exclusive(reg[Slot(request) := UpsertClaim(reg, now, request, ttl).value], now) <==>
              UpsertExpired(reg[Slot(request)], now, ttl) || ClearOf(reg, now, Slot(request), request)
  {
    var c, slot := UpsertClaim(reg, now, request, ttl).value, Slot(request);
    forall o
      ensures Conflict(c, o) <==> Conflict(request, o)
    {
      ConflictIsCongruent(request, c, o);
    }
    if Unexpired(c, now) {
      WriteKeepsExclusionExactly(reg, now, slot, c);
    } else {
      IdleWriteKeepsExclusion(reg, now, slot, c);
    }
  }
}
