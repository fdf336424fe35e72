/** Coordination claims and the checks a new claim must pass. */
module Claims {
  import opened Wrappers
  import Paths
  import Text

  datatype ClaimType = Program | Write | Review | Research

  datatype Status =
    | Active | Blocked | Handoff
    | SessionEnded
    | Closing | Complete | Completed | Abandoned
    | OtherStatus(text: string)

  /** A plan reference: its text, and the plan identity found in it, if any. */
  datatype Plan = Plan(text: string, identity: Option<string>)

  /** Ownership metadata; an absent field is the empty string. */
  datatype Contract = Contract(
    branch: string, worktree: string, repoRoot: string,
    sessionName: string, goal: string, tracker: string,
    workUnit: string, workGraph: string, workGraphSha: string, schemaVersion: nat)

  datatype Claim = Claim(
    agent: string, projects: seq<string>, scope: string,
    claimType: ClaimType, writePaths: seq<string>,
    session: string, contract: Contract,
    parentScope: string, plan: Option<Plan>, parallelRoot: bool,
    status: Status, heartbeat: Option<int>, expires: Option<int>)

  /** Claims by the name of the file that holds them; a loaded list is such a map. */
  type Registry = map<string, Claim>

  predicate Live(c: Claim)
  {
    c.status.Active? || c.status.Blocked? || c.status.Handoff?
  }

  /** Live, or preserved after its session ended: the claims that can hold paths again. */
  predicate Held(c: Claim)
  {
    Live(c) || c.status.SessionEnded?
  }

  predicate Unexpired(c: Claim, now: int)
  {
    c.expires.None? || c.expires.value >= now
  }

  function PrimaryProject(c: Claim): string
  {
    if c.projects == [] then "" else c.projects[0]
  }

  function PlanIdentity(c: Claim): Option<string>
  {
    if c.plan.None? then None else c.plan.value.identity
  }

  predicate SameClaim(l: Claim, r: Claim)
  {
    l.agent == r.agent && PrimaryProject(l) == PrimaryProject(r) && l.scope == r.scope
  }

  /** The file name part of one identity field. */
  function Safe(value: string): string
  {
    Text.Trim(Text.Replace(Text.Replace(value, "/", "_"), " ", "_"), c => c == '_')
  }

  function ClaimFilename(agent: string, project: string, scope: string): string
  {
    Safe(agent) + "_" + Safe(project) + "_" + Safe(scope) + ".yaml"
  }

  function Slot(c: Claim): string
  {
    ClaimFilename(c.agent, PrimaryProject(c), c.scope)
  }

  // ---------------------------------------------------------------------
  // Loading

  function Loaded(reg: Registry, now: int): Registry
  {
    map n | n in reg && Unexpired(reg[n], now) :: reg[n]
  }

  function AllActive(reg: Registry, now: int): Registry
  {
    map n | n in reg && Unexpired(reg[n], now) && Live(reg[n]) :: reg[n]
  }

  function ActiveIn(reg: Registry, now: int, project: string): Registry
  {
    map n | n in reg && Unexpired(reg[n], now) && Live(reg[n]) && project in reg[n].projects :: reg[n]
  }

  // ---------------------------------------------------------------------
  // Health

  datatype Issue =
    | MissingProject | MissingWritePaths
    | MissingBranch | MissingWorktree | MissingSession | MissingSessionName
    | MissingRepoRoot | MissingGoal | MissingTracker
    | MissingWorkUnit | MissingWorkGraph | MissingWorkGraphSha
    | SelfParentScope | MissingParentClaim | AmbiguousParentScope
    | ParentNotProgram | ParentNotHealthy | ParentPlanMismatch
    | MissingProgramRoot | MultipleProgramRoots | MissingParentScope | WrongParentScope

  function When(condition: bool, issue: Issue): set<Issue>
  {
    if condition then {issue} else {}
  }

  predicate HasPlanText(c: Claim)
  {
    c.plan.Some? && c.plan.value.text != ""
  }

  function HealthIssues(c: Claim): set<Issue>
  {
    When(c.projects == [], MissingProject)
    + When(c.claimType.Write? && c.writePaths == [], MissingWritePaths)
    + if !Live(c) then {} else
        When(c.contract.branch == "", MissingBranch)
        + When(c.contract.worktree == "", MissingWorktree)
        + When(c.session == "", MissingSession)
        + When(c.contract.sessionName == "", MissingSessionName)
        + (if HasPlanText(c) && c.session != "" then
             When(c.contract.repoRoot == "", MissingRepoRoot)
             + When(c.contract.goal == "", MissingGoal)
             + When(c.contract.tracker == "", MissingTracker)
           else {})
        + (if c.contract.schemaVersion >= 3 && c.writePaths != [] && HasPlanText(c) then
             When(c.contract.workUnit == "", MissingWorkUnit)
             + When(c.contract.workGraph == "", MissingWorkGraph)
             + When(c.contract.workGraphSha == "", MissingWorkGraphSha)
           else {})
  }

  const CREATION_BLOCKING: set<Issue> :=
    {MissingProject, MissingWritePaths, MissingBranch, MissingWorktree, MissingSession, MissingSessionName,
     MissingWorkUnit, MissingWorkGraph, MissingWorkGraphSha}

  predicate MetadataBlocksCreation(c: Claim)
  {
    HealthIssues(c) * CREATION_BLOCKING != {} && Live(c)
  }

  // ---------------------------------------------------------------------
  // Path conflicts

  predicate ProjectsOverlap(l: Claim, r: Claim)
  {
    exists p :: p in l.projects && p in r.projects
  }

  /** Some write path of one claim overlaps some write path of the other. */
  predicate WritePathsOverlap(l: Claim, r: Claim)
  {
    exists p, q :: p in l.writePaths && q in r.writePaths && Paths.PathsOverlap(p, q)
  }

  datatype Severity = HardConflict | SoftOverlap | Informational

  /** How one candidate interacts with another agent's claim in a shared project. */
  function Classify(candidate: Claim, other: Claim): Severity
  {
    if candidate.claimType.Write? && other.claimType.Write? && WritePathsOverlap(candidate, other) then HardConflict
    else if WritePathsOverlap(candidate, other) && {candidate.claimType, other.claimType} == {Write, Review}
    then SoftOverlap
    else Informational
  }

  function EvaluateClaim(candidate: Claim, active: Registry): map<string, Severity>
  {
    map n | n in active && active[n].agent != candidate.agent && ProjectsOverlap(candidate, active[n])
      :: Classify(candidate, active[n])
  }

  function HardConflicts(interactions: map<string, Severity>): set<string>
  {
    set n | n in interactions && interactions[n].HardConflict?
  }

  /** Two write claims of different agents that share a project and a path. */
  predicate Conflict(l: Claim, r: Claim)
  {
    && l.agent != r.agent && ProjectsOverlap(l, r)
    && l.claimType.Write? && r.claimType.Write? && WritePathsOverlap(l, r)
  }

  lemma {:induction false} OverlapIsSymmetric(p: string, q: string)
    ensures Paths.PathsOverlap(p, q) <==> Paths.PathsOverlap(q, p)
  {
  }

  lemma ConflictIsSymmetric(l: Claim, r: Claim)
    ensures Conflict(l, r) <==> Conflict(r, l)
  {
    assert WritePathsOverlap(l, r) <==> WritePathsOverlap(r, l) by {
      if WritePathsOverlap(l, r) {
        var p, q :| p in l.writePaths && q in r.writePaths && Paths.PathsOverlap(p, q);
        OverlapIsSymmetric(p, q);
      }
      if WritePathsOverlap(r, l) {
        var p, q :| p in r.writePaths && q in l.writePaths && Paths.PathsOverlap(p, q);
        OverlapIsSymmetric(p, q);
      }
    }
  }

  /** Preserved lanes of the candidate's project that share its plan or one of its paths. */
  function PreservedLaneConflicts(candidate: Claim, claims: Registry): set<string>
  {
    set n | n in claims
            && claims[n].status.SessionEnded? && !SameClaim(claims[n], candidate)
            && PrimaryProject(candidate) in claims[n].projects
            && ((PlanIdentity(candidate).Some? && PlanIdentity(claims[n]) == PlanIdentity(candidate))
                || WritePathsOverlap(candidate, claims[n]))
  }

  // ---------------------------------------------------------------------
  // Plan hierarchy

  predicate InCohort(other: Claim, project: string, plan: Option<string>)
  {
    Live(other) && other.session != "" && PrimaryProject(other) == project && PlanIdentity(other) == plan
  }

  /** The live lanes of one project and plan, with `claim` itself counted in. */
  function Cohort(claim: Claim, active: Registry): Registry
  {
    var found := map n | n in active && InCohort(active[n], PrimaryProject(claim), PlanIdentity(claim)) :: active[n];
    if exists n :: n in found && SameClaim(found[n], claim) then found else found["" := claim]
  }

  predicate IsRoot(c: Claim)
  {
    c.claimType.Program? && c.parentScope == ""
  }

  function Roots(cohort: Registry): set<string>
  {
    set n | n in cohort && IsRoot(cohort[n])
  }

  /** The other live lanes of the project under the scope the claim names as its parent. */
  function ParentsOf(claim: Claim, active: Registry): set<string>
  {
    set n | n in active && Live(active[n]) && PrimaryProject(active[n]) == PrimaryProject(claim)
            && active[n].scope == claim.parentScope && !SameClaim(active[n], claim)
  }

  function ParentIssues(claim: Claim, active: Registry): set<Issue>
  {
    if claim.parentScope == "" then {} else
      var parents := ParentsOf(claim, active);
      When(claim.parentScope == claim.scope, SelfParentScope)
      + if parents == {} then {MissingParentClaim}
        else if |parents| > 1 then {AmbiguousParentScope}
        else
          When(exists n :: n in parents && !active[n].claimType.Program?, ParentNotProgram)
          + When(exists n :: n in parents && (active[n].session == "" || HealthIssues(active[n]) != {}), ParentNotHealthy)
          + When(exists n :: n in parents && PlanIdentity(active[n]) != PlanIdentity(claim), ParentPlanMismatch)
  }

  function CohortIssues(claim: Claim, cohort: Registry): set<Issue>
  {
    var roots := Roots(cohort);
    if |cohort| < 2 then {}
    else if roots == {} then {MissingProgramRoot}
    else if |roots| > 1 then {MultipleProgramRoots}
    else if forall r :: r in roots ==> SameClaim(cohort[r], claim) then {}
    else if claim.parentScope == "" then {MissingParentScope}
    else When(exists r :: r in roots && claim.parentScope != cohort[r].scope, WrongParentScope)
  }

  function HierarchyIssues(claim: Claim, active: Registry): set<Issue>
  {
    if !Live(claim) || claim.session == "" || PrimaryProject(claim) == "" || PlanIdentity(claim).None? then {}
    else ParentIssues(claim, active) + CohortIssues(claim, Cohort(claim, active))
  }

  /** The claims as they would be with the candidate in place; a candidate has no file yet. */
  function Prospective(candidate: Claim, active: Registry): Registry
  {
    (map n | n in active && !SameClaim(active[n], candidate) :: active[n])["" := candidate]
  }

  /** Other unparented lanes of the same runtime session. */
  function SessionRootConflicts(claim: Claim, active: Registry): set<string>
  {
    if !Live(claim) || claim.session == "" || claim.parentScope != "" then {}
    else set n | n in active && Live(active[n]) && active[n].session == claim.session
                 && active[n].parentScope == "" && !SameClaim(active[n], claim)
  }

  // ---------------------------------------------------------------------
  // Creation

  datatype Refusal =
    | MissingMetadata | SlotPreserved | PreservedLane | BadHierarchy | SessionHasRoot | PathConflict

  /** The verdict of `create_claim` on a registry, in the order it tests. */
  function AdmitClaim(reg: Registry, now: int, candidate: Claim): Result<(), Refusal>
  {
    var project, slot := PrimaryProject(candidate), Slot(candidate);
    var active := ActiveIn(reg, now, project);
    if MetadataBlocksCreation(candidate) then Err(MissingMetadata)
    else if slot in reg && reg[slot].status.SessionEnded? then Err(SlotPreserved)
    else if PreservedLaneConflicts(candidate, Loaded(reg, now)) != {} then Err(PreservedLane)
    else if HierarchyIssues(candidate, Prospective(candidate, active)) != {} then Err(BadHierarchy)
    else if SessionRootConflicts(candidate, AllActive(reg, now)) != {} && !candidate.parallelRoot then Err(SessionHasRoot)
    else if HardConflicts(EvaluateClaim(candidate, active)) != {} then Err(PathConflict)
    else Ok(())
  }

  /** The reported hard conflicts are exactly the active claims in conflict with the candidate. */
  lemma HardConflictsAreConflicts(candidate: Claim, active: Registry)
    ensures HardConflicts(EvaluateClaim(candidate, active)) == set n | n in active && Conflict(candidate, active[n])
  {
  }

  /** Every held claim the candidate conflicts with is found: a live one by path, a preserved one as a lane. */
  lemma ConflictIsFound(reg: Registry, now: int, candidate: Claim, n: string)
    requires |candidate.projects| == 1
    requires n in reg && Held(reg[n]) && Unexpired(reg[n], now) && Conflict(candidate, reg[n])
    ensures Live(reg[n]) ==> n in HardConflicts(EvaluateClaim(candidate, ActiveIn(reg, now, PrimaryProject(candidate))))
    ensures !Live(reg[n]) ==> n in PreservedLaneConflicts(candidate, Loaded(reg, now))
  {
    if Live(reg[n]) { LiveConflictIsHard(reg, now, candidate, n); }
  }

  lemma LiveConflictIsHard(reg: Registry, now: int, candidate: Claim, n: string)
    requires |candidate.projects| == 1
    requires n in reg && Live(reg[n]) && Unexpired(reg[n], now) && Conflict(candidate, reg[n])
    ensures n in HardConflicts(EvaluateClaim(candidate, ActiveIn(reg, now, PrimaryProject(candidate))))
  {
    assert PrimaryProject(candidate) in reg[n].projects;
  }

  /** Admission leaves no held claim of another agent in conflict with the candidate. */
  lemma AdmittedHasNoConflict(reg: Registry, now: int, candidate: Claim, n: string)
    requires |candidate.projects| == 1
    requires AdmitClaim(reg, now, candidate).Ok?
    requires n in reg && Held(reg[n]) && Unexpired(reg[n], now)
    ensures !Conflict(candidate, reg[n])
  {
    if Conflict(candidate, reg[n]) {
      ConflictIsFound(reg, now, candidate, n);
    }
  }

  lemma SessionlessIsBlocked(c: Claim)
    requires Live(c) && c.session == ""
    ensures MetadataBlocksCreation(c)
  {
    assert MissingSession in HealthIssues(c) * CREATION_BLOCKING;
  }

  /** An admitted candidate's cohort, checked with the candidate in place, has exactly one root. */
  lemma AdmittedCohortHasOneRoot(reg: Registry, now: int, candidate: Claim)
    requires AdmitClaim(reg, now, candidate).Ok?
    requires Live(candidate) && PrimaryProject(candidate) != "" && PlanIdentity(candidate).Some?
    ensures candidate.session != ""
    ensures var cohort := Cohort(candidate, Prospective(candidate, ActiveIn(reg, now, PrimaryProject(candidate))));
            |cohort| >= 2 ==> |Roots(cohort)| == 1
  {
    var active := Prospective(candidate, ActiveIn(reg, now, PrimaryProject(candidate)));
    if candidate.session == "" { SessionlessIsBlocked(candidate); }
    var cohort := Cohort(candidate, active);
    assert HierarchyIssues(candidate, active) == {};
    assert CohortIssues(candidate, cohort) == {};
    if |cohort| >= 2 {
      assert MissingProgramRoot !in CohortIssues(candidate, cohort);
      assert MultipleProgramRoots !in CohortIssues(candidate, cohort);
      assert Roots(cohort) != {};
    }
  }

  // ---------------------------------------------------------------------
  // A claim for examples

  const SAMPLE_CONTRACT := Contract("b", "w", "repo", "s", "g", "t", "u", "p", "h", 3)

  function Sample(agent: string, project: string, claimType: ClaimType, path: string): Claim
  {
    Claim(agent, [project], "scope", claimType, [path], agent, SAMPLE_CONTRACT, "", None, false, Active, None, None)
  }

  /** What two sample claims of different agents have to share to conflict. */
  lemma SampleConflict(l: Claim, r: Claim, p: string, q: string)
    requires l.agent != r.agent && |l.projects| == |r.projects| == 1
    requires l.writePaths == [p] && r.writePaths == [q]
    ensures Conflict(l, r) <==> l.projects == r.projects && l.claimType.Write? && r.claimType.Write? && Paths.PathsOverlap(p, q)
  {
    assert p in l.writePaths && q in r.writePaths;
    assert l.projects[0] in l.projects && r.projects[0] in r.projects;
    assert ProjectsOverlap(l, r) <==> l.projects[0] == r.projects[0];
  }
}
