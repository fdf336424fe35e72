/** What creating a claim demands, said of the registry's records field by field. */
module Admission {
  import opened Wrappers
  import opened Claims

  /** The numbered plan a claim is made for, if any. */
  function PlanOf(c: Claim): Option<string>
  {
    match c.plan
    case None => None
    case Some(plan) => plan.identity
  }

  predicate Working(c: Claim, now: int)
  {
    (c.status == Active || c.status == Blocked || c.status == Handoff) && (c.expires.None? || c.expires.value >= now)
  }

  /** A working claim of the registry under another identity than the candidate's. */
  predicate OtherLane(reg: Registry, now: int, c: Claim, n: string)
  {
    n in reg && Working(reg[n], now)
    && !(reg[n].agent == c.agent && PrimaryProject(reg[n]) == PrimaryProject(c) && reg[n].scope == c.scope)
  }

  // ---------------------------------------------------------------------
  // Metadata

  /** What a live claim has to state before it can be created. */
  predicate HasMetadata(c: Claim)
  {
    && c.projects != [] && (c.claimType == Write ==> c.writePaths != [])
    && c.contract.branch != "" && c.contract.worktree != "" && c.session != "" && c.contract.sessionName != ""
    && (c.contract.schemaVersion >= 3 && c.writePaths != [] && c.plan.Some? && c.plan.value.text != "" ==>
          c.contract.workUnit != "" && c.contract.workGraph != "" && c.contract.workGraphSha != "")
  }

  lemma MetadataExactly(c: Claim)
    requires Live(c)
    ensures MetadataBlocksCreation(c) <==> !HasMetadata(c)
  {
    var blocking := HealthIssues(c) * CREATION_BLOCKING;
    if !HasMetadata(c) {
      assert exists i :: i in blocking by {
        if c.projects == [] { assert MissingProject in blocking; }
        else if c.claimType == Write && c.writePaths == [] { assert MissingWritePaths in blocking; }
        else if c.contract.branch == "" { assert MissingBranch in blocking; }
        else if c.contract.worktree == "" { assert MissingWorktree in blocking; }
        else if c.session == "" { assert MissingSession in blocking; }
        else if c.contract.sessionName == "" { assert MissingSessionName in blocking; }
        else if c.contract.workUnit == "" { assert MissingWorkUnit in blocking; }
        else if c.contract.workGraph == "" { assert MissingWorkGraph in blocking; }
        else { assert MissingWorkGraphSha in blocking; }
      }
    } else {
      forall i | i in blocking
        ensures false
      {
        StatedHasNone(c, i);
      }
    }
  }

  lemma StatedHasNone(c: Claim, i: Issue)
    requires HasMetadata(c) && i in HealthIssues(c)
    ensures i !in CREATION_BLOCKING
  {
  }

  /** A parent is trusted when nothing at all is missing from it. */
  predicate Trusted(c: Claim)
  {
    && HasMetadata(c)
    && (c.plan.Some? && c.plan.value.text != "" ==>
          c.contract.repoRoot != "" && c.contract.goal != "" && c.contract.tracker != "")
  }

  lemma TrustedExactly(c: Claim)
    requires Live(c)
    ensures HealthIssues(c) == {} <==> Trusted(c)
  {
    if HealthIssues(c) == {} {
      assert !MetadataBlocksCreation(c);
      MetadataExactly(c);
      assert MissingRepoRoot !in HealthIssues(c) && MissingGoal !in HealthIssues(c) && MissingTracker !in HealthIssues(c);
    }
  }

  /** A claim that is not live lacks nothing but a project and, for a write claim, its paths. */
  lemma IdleExactly(c: Claim)
    requires !Live(c)
    ensures HealthIssues(c) == {} <==> c.projects != [] && (c.claimType == Write ==> c.writePaths != [])
  {
    assert c.projects == [] ==> MissingProject in HealthIssues(c);
    assert c.claimType == Write && c.writePaths == [] ==> MissingWritePaths in HealthIssues(c);
  }

  // ---------------------------------------------------------------------
  // File names

  /** Slashes and spaces become underscores, one for one. */
  function Tidied(value: string): string
  {
    seq(|value|, i requires 0 <= i < |value| => if value[i] in {'/', ' '} then '_' else value[i])
  }

  lemma {:induction false} ReplacedOneForOne(value: string, from: char)
    requires from != '_'
    ensures var r := Text.Replace(value, [from], "_");
            |r| == |value| && forall i :: 0 <= i < |value| ==> r[i] == if value[i] == from then '_' else value[i]
  {
    if value != "" {
      ReplacedOneForOne(value[1..], from);
      assert value[..1] == [from] <==> value[0] == from;
    }
  }

  /** The file of a claim is named after its agent, project and scope, each tidied and without underscores at its ends. */
  lemma FileNameExactly(agent: string, project: string, scope: string)
    ensures ClaimFilename(agent, project, scope) ==
            Text.Trim(Tidied(agent), c => c == '_') + "_" + Text.Trim(Tidied(project), c => c == '_')
            + "_" + Text.Trim(Tidied(scope), c => c == '_') + ".yaml"
  {
    SafeIsTidied(agent);
    SafeIsTidied(project);
    SafeIsTidied(scope);
  }

  lemma SafeIsTidied(value: string)
    ensures Safe(value) == Text.Trim(Tidied(value), c => c == '_')
  {
    var once := Text.Replace(value, "/", "_");
    ReplacedOneForOne(value, '/');
    ReplacedOneForOne(once, ' ');
    assert Text.Replace(once, " ", "_") == Tidied(value);
    SameTrim(Tidied(value), c => c == '_', c => c == '_');
  }

  lemma SameTrim(s: string, a: char -> bool, b: char -> bool)
    requires forall c :: a(c) == b(c)
    ensures Text.Trim(s, a) == Text.Trim(s, b)
  {
    SameTrimLeft(s, a, b);
    SameTrimRight(Text.TrimLeft(s, b), a, b);
  }

  lemma SameTrimLeft(s: string, a: char -> bool, b: char -> bool)
    requires forall c :: a(c) == b(c)
    ensures Text.TrimLeft(s, a) == Text.TrimLeft(s, b)
  {
    if s != "" { SameTrimLeft(s[1..], a, b); }
  }

  lemma SameTrimRight(s: string, a: char -> bool, b: char -> bool)
    requires forall c :: a(c) == b(c)
    ensures Text.TrimRight(s, a) == Text.TrimRight(s, b)
  {
    if s != "" { SameTrimRight(s[..|s| - 1], a, b); }
  }

  // ---------------------------------------------------------------------
  // Plan hierarchy

  /** A lane under the scope the candidate names as its parent. */
  predicate NamedAsParent(reg: Registry, now: int, c: Claim, n: string)
  {
    OtherLane(reg, now, c, n) && PrimaryProject(reg[n]) == PrimaryProject(c) && reg[n].scope == c.parentScope
  }

  /** Another lane of the candidate's project and plan. */
  predicate SamePlan(reg: Registry, now: int, c: Claim, n: string)
  {
    OtherLane(reg, now, c, n) && PrimaryProject(reg[n]) == PrimaryProject(c)
    && reg[n].session != "" && PlanOf(reg[n]) == PlanOf(c)
  }

  predicate PlanRoot(reg: Registry, now: int, c: Claim, n: string)
  {
    SamePlan(reg, now, c, n) && reg[n].claimType == Program && reg[n].parentScope == ""
  }

  /** The named parent is one lane, a trusted program claim with a session and the same plan. */
  ghost predicate HasItsParent(reg: Registry, now: int, c: Claim)
  {
    c.parentScope != "" ==>
      c.parentScope != c.scope && exists n :: OnlyParent(reg, now, c, n) && GoodParent(reg[n], c)
  }

  /** Beside other lanes of its plan the candidate is the only root, or names the only root as its parent. */
  ghost predicate HasItsRoot(reg: Registry, now: int, c: Claim)
  {
    (exists n :: SamePlan(reg, now, c, n)) ==>
      if c.claimType == Program && c.parentScope == "" then forall n :: !PlanRoot(reg, now, c, n)
      else exists n :: PlanRoot(reg, now, c, n) && (forall k :: PlanRoot(reg, now, c, k) ==> k == n)
                       && c.parentScope != "" && c.parentScope == reg[n].scope
  }

  function Pool(reg: Registry, now: int, c: Claim): Registry
  {
    Prospective(c, ActiveIn(reg, now, PrimaryProject(c)))
  }

  lemma Singleton<T>(s: set<T>)
    ensures |s| == 1 <==> exists x :: s == {x}
  {
    if |s| == 1 {
      var x :| x in s;
      assert |s - {x}| == 0;
      assert s == {x};
    }
  }

  /** The parents the check gathers are the lanes under the named scope. */
  lemma GatheredParents(reg: Registry, now: int, c: Claim)
    requires "" !in reg && PrimaryProject(c) != ""
    ensures var pool := Pool(reg, now, c);
            && (forall n :: n in ParentsOf(c, pool) <==> NamedAsParent(reg, now, c, n))
            && (forall n :: n in ParentsOf(c, pool) ==> n in pool && pool[n] == reg[n] && Live(reg[n]))
  {
    assert SameClaim(c, c);
  }

  lemma SingletonOf(s: set<string>)
    ensures forall r :: s == {r} <==> r in s && forall k :: k in s ==> k == r
  {
    forall r
      ensures s == {r} <==> r in s && forall k :: k in s ==> k == r
    {
      if s == {r} { assert r in s && forall k :: k in s ==> k == r; }
    }
  }

  /** The candidate's named parent, and nothing else under that scope. */
  ghost predicate OnlyParent(reg: Registry, now: int, c: Claim, n: string)
  {
    NamedAsParent(reg, now, c, n) && forall k :: NamedAsParent(reg, now, c, k) ==> k == n
  }

  predicate GoodParent(p: Claim, c: Claim)
  {
    p.claimType == Program && p.session != "" && Trusted(p) && PlanOf(p) == PlanOf(c)
  }

  lemma ParentExactly(reg: Registry, now: int, c: Claim)
    requires "" !in reg && PrimaryProject(c) != ""
    ensures ParentIssues(c, Pool(reg, now, c)) == {} <==> HasItsParent(reg, now, c)
  {
    if c.parentScope != "" {
      var pool := Pool(reg, now, c);
      var parents := ParentsOf(c, pool);
      GatheredParents(reg, now, c);
      SingletonOf(parents);
      Singleton(parents);
      assert forall n :: OnlyParent(reg, now, c, n) <==> parents == {n};
      if |parents| == 1 {
        var n :| parents == {n};
        KnownParentExactly(reg, now, c, pool, n);
      } else {
        NotOneParent(c, pool);
      }
    }
  }

  lemma KnownParentExactly(reg: Registry, now: int, c: Claim, pool: Registry, n: string)
    requires c.parentScope != "" && ParentsOf(c, pool) == {n} && n in pool && OnlyParent(reg, now, c, n)
    requires pool[n] == reg[n] && Live(reg[n])
    ensures ParentIssues(c, pool) == {} <==> HasItsParent(reg, now, c)
  {
    OneParentExactly(c, pool, n);
    TrustedExactly(reg[n]);
    assert forall k :: OnlyParent(reg, now, c, k) ==> k == n;
  }

  lemma NotOneParent(c: Claim, pool: Registry)
    requires c.parentScope != "" && |ParentsOf(c, pool)| != 1
    ensures ParentIssues(c, pool) != {}
  {
    assert MissingParentClaim in ParentIssues(c, pool) || AmbiguousParentScope in ParentIssues(c, pool);
  }

  lemma OneParentExactly(c: Claim, pool: Registry, n: string)
    requires c.parentScope != "" && ParentsOf(c, pool) == {n} && n in pool
    ensures ParentIssues(c, pool) == {} <==>
              && c.parentScope != c.scope && pool[n].claimType.Program?
              && pool[n].session != "" && HealthIssues(pool[n]) == {} && PlanOf(pool[n]) == PlanOf(c)
  {
    var parents := ParentsOf(c, pool);
    assert n in parents && |parents| == 1 && forall k :: k in parents ==> k == n;
    NoneOfFour(c.parentScope == c.scope, !pool[n].claimType.Program?,
               pool[n].session == "" || HealthIssues(pool[n]) != {}, PlanOf(pool[n]) != PlanOf(c));
  }

  lemma NoneOfFour(a: bool, b: bool, c: bool, d: bool)
    ensures When(a, SelfParentScope) + (When(b, ParentNotProgram) + When(c, ParentNotHealthy) + When(d, ParentPlanMismatch)) == {}
       <==> !a && !b && !c && !d
  {
    var all := When(a, SelfParentScope) + (When(b, ParentNotProgram) + When(c, ParentNotHealthy) + When(d, ParentPlanMismatch));
    assert a ==> SelfParentScope in all;
    assert b ==> ParentNotProgram in all;
    assert c ==> ParentNotHealthy in all;
    assert d ==> ParentPlanMismatch in all;
  }

  /** The cohort the check counts: the candidate, and the other lanes of its plan. */
  lemma CountedCohort(reg: Registry, now: int, c: Claim)
    requires "" !in reg && PrimaryProject(c) != "" && Live(c) && c.session != ""
    ensures var cohort := Cohort(c, Pool(reg, now, c));
            && "" in cohort && cohort[""] == c
            && (forall n :: n in cohort && n != "" <==> SamePlan(reg, now, c, n))
            && (forall n :: n in cohort && n != "" ==> n in reg && cohort[n] == reg[n] && !SameClaim(cohort[n], c))
  {
    var pool := Pool(reg, now, c);
    assert SameClaim(c, c) && pool[""] == c && InCohort(c, PrimaryProject(c), PlanOf(c));
    forall n
      ensures n in pool && n != "" && InCohort(pool[n], PrimaryProject(c), PlanOf(c)) <==> SamePlan(reg, now, c, n)
    {
    }
  }

  lemma RootExactly(reg: Registry, now: int, c: Claim)
    requires "" !in reg && PrimaryProject(c) != "" && Live(c) && c.session != ""
    ensures CohortIssues(c, Cohort(c, Pool(reg, now, c))) == {} <==> HasItsRoot(reg, now, c)
  {
    CountedCohort(reg, now, c);
    CountedRootExactly(reg, now, c, Cohort(c, Pool(reg, now, c)));
  }

  /** With another lane in the cohort, the one root is the candidate's own lane or the one it names. */
  lemma OneRootExactly(c: Claim, cohort: Registry)
    requires |cohort| >= 2
    ensures CohortIssues(c, cohort) == {} <==>
            exists r :: Roots(cohort) == {r} && r in cohort
                        && (SameClaim(cohort[r], c) || (c.parentScope != "" && c.parentScope == cohort[r].scope))
  {
    var roots := Roots(cohort);
    Singleton(roots);
    if |roots| == 1 {
      var r :| roots == {r};
      assert r in roots && forall k :: k in roots ==> k == r;
    } else {
      assert MissingProgramRoot in CohortIssues(c, cohort) || MultipleProgramRoots in CohortIssues(c, cohort);
    }
  }

  lemma CountedRootExactly(reg: Registry, now: int, c: Claim, cohort: Registry)
    requires "" !in reg && "" in cohort && cohort[""] == c
    requires forall n :: n in cohort && n != "" <==> SamePlan(reg, now, c, n)
    requires forall n :: n in cohort && n != "" ==> n in reg && cohort[n] == reg[n] && !SameClaim(cohort[n], c)
    ensures CohortIssues(c, cohort) == {} <==> HasItsRoot(reg, now, c)
  {
    if m :| SamePlan(reg, now, c, m) {
      assert {"", m} <= cohort.Keys;
      AtLeast({"", m}, cohort.Keys);
      OneRootExactly(c, cohort);
      assert SameClaim(c, c);
      RootsOfPlan(reg, now, c, cohort);
      if c.claimType == Program && c.parentScope == "" {
        OwnRootAlone(reg, now, c, Roots(cohort));
      } else {
        ForeignRootAlone(reg, now, c, Roots(cohort));
      }
    } else {
      assert cohort.Keys == {""};
    }
  }

  lemma RootsOfPlan(reg: Registry, now: int, c: Claim, cohort: Registry)
    requires "" !in reg && "" in cohort && cohort[""] == c
    requires forall n :: n in cohort && n != "" <==> SamePlan(reg, now, c, n)
    requires forall n :: n in cohort && n != "" ==> n in reg && cohort[n] == reg[n]
    ensures forall n :: n in Roots(cohort) <==>
              if n == "" then c.claimType == Program && c.parentScope == "" else PlanRoot(reg, now, c, n)
  {
  }

  lemma OwnRootAlone(reg: Registry, now: int, c: Claim, roots: set<string>)
    requires "" in roots && "" !in reg && forall n :: n in roots && n != "" <==> PlanRoot(reg, now, c, n)
    ensures (exists r :: roots == {r}) <==> forall n :: !PlanRoot(reg, now, c, n)
    ensures forall r :: roots == {r} ==> r == ""
  {
    assert (forall n :: !PlanRoot(reg, now, c, n)) ==> roots == {""};
  }

  lemma ForeignRootAlone(reg: Registry, now: int, c: Claim, roots: set<string>)
    requires "" !in roots && forall n :: n in roots <==> PlanRoot(reg, now, c, n)
    ensures forall r :: roots == {r} <==> PlanRoot(reg, now, c, r) && forall k :: PlanRoot(reg, now, c, k) ==> k == r
  {
    SingletonOf(roots);
  }

  lemma AtLeast(small: set<string>, large: set<string>)
    requires small <= large
    ensures |small| <= |large|
  {
    assert large == small + (large - small);
  }

  /** The hierarchy a candidate has to fit, when its plan is numbered. */
  ghost predicate FitsPlan(reg: Registry, now: int, c: Claim)
  {
    HasItsParent(reg, now, c) && HasItsRoot(reg, now, c)
  }

  predicate Planned(c: Claim)
  {
    Live(c) && c.session != "" && PrimaryProject(c) != "" && PlanOf(c).Some?
  }

  lemma FitsPlanExactly(reg: Registry, now: int, c: Claim)
    requires "" !in reg
    ensures HierarchyIssues(c, Pool(reg, now, c)) == {} <==> (Planned(c) ==> FitsPlan(reg, now, c))
  {
    if Planned(c) {
      ParentExactly(reg, now, c);
      RootExactly(reg, now, c);
      var a, b := ParentIssues(c, Pool(reg, now, c)), CohortIssues(c, Cohort(c, Pool(reg, now, c)));
      assert a <= a + b && b <= a + b;
    }
  }

  // ---------------------------------------------------------------------
  // The other refusals

  /** A session-ended lane of the candidate's project that keeps the plan or one of the paths it wants. */
  predicate Preserves(reg: Registry, now: int, c: Claim, n: string)
  {
    && n in reg && reg[n].status == SessionEnded && (reg[n].expires.None? || reg[n].expires.value >= now)
    && !(reg[n].agent == c.agent && PrimaryProject(reg[n]) == PrimaryProject(c) && reg[n].scope == c.scope)
    && PrimaryProject(c) in reg[n].projects
    && ((PlanOf(c).Some? && PlanOf(reg[n]) == PlanOf(c))
        || exists p, q :: p in c.writePaths && q in reg[n].writePaths && Paths.PathsOverlap(p, q))
  }

  /** Another lane without a parent that the same session works on. */
  predicate SessionRoot(reg: Registry, now: int, c: Claim, n: string)
  {
    OtherLane(reg, now, c, n) && reg[n].session == c.session && reg[n].parentScope == ""
  }

  predicate PathsMeet(l: Claim, r: Claim)
  {
    exists p, q :: p in l.writePaths && q in r.writePaths && Paths.PathsOverlap(p, q)
  }

  /** Overlapping write claims are a hard conflict, a write and a review claim a soft overlap, anything else only of note. */
  lemma SeverityExactly(candidate: Claim, active: Registry, n: string)
    requires n in active
    ensures n in EvaluateClaim(candidate, active) <==>
              active[n].agent != candidate.agent && exists p :: p in candidate.projects && p in active[n].projects
    ensures n in EvaluateClaim(candidate, active) ==>
              EvaluateClaim(candidate, active)[n] ==
              if !PathsMeet(candidate, active[n]) then Informational
              else if candidate.claimType == Write && active[n].claimType == Write then HardConflict
              else if (candidate.claimType == Write && active[n].claimType == Review)
                      || (candidate.claimType == Review && active[n].claimType == Write) then SoftOverlap
              else Informational
  {
    assert WritePathsOverlap(candidate, active[n]) <==> PathsMeet(candidate, active[n]);
    assert {candidate.claimType, active[n].claimType} == {Write, Review} <==>
           (candidate.claimType == Write && active[n].claimType == Review)
           || (candidate.claimType == Review && active[n].claimType == Write) by {
      TwoTypes(candidate.claimType, active[n].claimType);
    }
  }

  lemma TwoTypes(a: ClaimType, b: ClaimType)
    ensures {a, b} == {Write, Review} <==> (a == Write && b == Review) || (a == Review && b == Write)
  {
    if {a, b} == {Write, Review} {
      assert a in {Write, Review} && b in {Write, Review} && Write in {a, b} && Review in {a, b};
    }
  }

  /** A working write claim of another agent in the candidate's project, with a project and a path in common. */
  predicate Rival(reg: Registry, now: int, c: Claim, n: string)
  {
    && n in reg && Working(reg[n], now) && PrimaryProject(c) in reg[n].projects && reg[n].agent != c.agent
    && c.claimType == Write && reg[n].claimType == Write
    && (exists p :: p in c.projects && p in reg[n].projects)
    && exists p, q :: p in c.writePaths && q in reg[n].writePaths && Paths.PathsOverlap(p, q)
  }

  /** The first test that fails, in the order they are made. */
  function Decided(incomplete: bool, slot: bool, preserved: bool, hierarchy: bool, session: bool, rival: bool): Result<(), Refusal>
  {
    if incomplete then Err(MissingMetadata)
    else if slot then Err(SlotPreserved)
    else if preserved then Err(PreservedLane)
    else if hierarchy then Err(BadHierarchy)
    else if session then Err(SessionHasRoot)
    else if rival then Err(PathConflict)
    else Ok(())
  }

  ghost function Verdict(reg: Registry, now: int, c: Claim): Result<(), Refusal>
  {
    Decided(Live(c) && !HasMetadata(c),
            Slot(c) in reg && reg[Slot(c)].status == SessionEnded,
            exists n :: Preserves(reg, now, c, n),
            Planned(c) && !FitsPlan(reg, now, c),
            Live(c) && c.session != "" && c.parentScope == "" && !c.parallelRoot && exists n :: SessionRoot(reg, now, c, n),
            exists n :: Rival(reg, now, c, n))
  }

  lemma AdmitIsDecided(reg: Registry, now: int, c: Claim)
    ensures AdmitClaim(reg, now, c) ==
            Decided(MetadataBlocksCreation(c), Slot(c) in reg && reg[Slot(c)].status.SessionEnded?,
                    PreservedLaneConflicts(c, Loaded(reg, now)) != {}, HierarchyIssues(c, Pool(reg, now, c)) != {},
                    SessionRootConflicts(c, AllActive(reg, now)) != {} && !c.parallelRoot,
                    HardConflicts(EvaluateClaim(c, ActiveIn(reg, now, PrimaryProject(c)))) != {})
  {
  }

  lemma PreservedExactly(reg: Registry, now: int, c: Claim)
    ensures PreservedLaneConflicts(c, Loaded(reg, now)) == {} <==> !exists n :: Preserves(reg, now, c, n)
  {
    assert forall n :: Preserves(reg, now, c, n) <==> n in PreservedLaneConflicts(c, Loaded(reg, now));
  }

  lemma SessionRootExactly(reg: Registry, now: int, c: Claim)
    ensures SessionRootConflicts(c, AllActive(reg, now)) == {} <==>
            !(Live(c) && c.session != "" && c.parentScope == "" && exists n :: SessionRoot(reg, now, c, n))
  {
    if Live(c) && c.session != "" && c.parentScope == "" {
      assert forall n :: SessionRoot(reg, now, c, n) <==> n in SessionRootConflicts(c, AllActive(reg, now));
    }
  }

  lemma RivalExactly(reg: Registry, now: int, c: Claim)
    ensures HardConflicts(EvaluateClaim(c, ActiveIn(reg, now, PrimaryProject(c)))) == {} <==> !exists n :: Rival(reg, now, c, n)
  {
    var active := ActiveIn(reg, now, PrimaryProject(c));
    HardConflictsAreConflicts(c, active);
    forall n
      ensures Rival(reg, now, c, n) <==> n in active && Conflict(c, active[n])
    {
      if n in active { assert WritePathsOverlap(c, active[n]) <==> WritePathsOverlap(c, reg[n]); }
    }
    assert forall n :: Rival(reg, now, c, n) <==> n in HardConflicts(EvaluateClaim(c, active));
  }

  /** `create_claim` refuses in that order for exactly those reasons, and admits everything else. */
  lemma VerdictExactly(reg: Registry, now: int, c: Claim)
    requires "" !in reg
    ensures AdmitClaim(reg, now, c) == Verdict(reg, now, c)
  {
    AdmitIsDecided(reg, now, c);
    if Live(c) { MetadataExactly(c); }
    PreservedExactly(reg, now, c);
    FitsPlanExactly(reg, now, c);
    SessionRootExactly(reg, now, c);
    RivalExactly(reg, now, c);
  }

  // ---------------------------------------------------------------------
  // What admission means

  /** An admitted child has one parent lane: a working, trusted program claim of its project and plan. */
  lemma AdmittedChildHasItsParent(reg: Registry, now: int, c: Claim) returns (n: string)
    requires "" !in reg && AdmitClaim(reg, now, c).Ok?
    requires Live(c) && PrimaryProject(c) != "" && PlanOf(c).Some? && c.parentScope != ""
    ensures c.parentScope != c.scope
    ensures n in reg && reg[n].status in {Active, Blocked, Handoff} && (reg[n].expires.None? || reg[n].expires.value >= now)
    ensures PrimaryProject(reg[n]) == PrimaryProject(c) && reg[n].scope == c.parentScope
    ensures reg[n].claimType == Program && reg[n].session != "" && HealthIssues(reg[n]) == {}
    ensures PlanOf(reg[n]) == PlanOf(c)
    ensures forall k :: NamedAsParent(reg, now, c, k) ==> k == n
  {
    VerdictExactly(reg, now, c);
    n :| OnlyParent(reg, now, c, n) && GoodParent(reg[n], c);
    TrustedExactly(reg[n]);
  }

  /** Beside a root of its plan, an admitted lane names that root's scope as its parent. */
  lemma AdmittedLaneNamesTheRoot(reg: Registry, now: int, c: Claim, n: string)
    requires "" !in reg && AdmitClaim(reg, now, c).Ok?
    requires Live(c) && PrimaryProject(c) != "" && PlanOf(c).Some?
    requires n in reg && Live(reg[n]) && Unexpired(reg[n], now) && reg[n].session != "" && !SameClaim(reg[n], c)
    requires PrimaryProject(reg[n]) == PrimaryProject(c) && PlanOf(reg[n]) == PlanOf(c)
    requires reg[n].claimType == Program && reg[n].parentScope == ""
    ensures c.parentScope != "" && c.parentScope == reg[n].scope
  {
    VerdictExactly(reg, now, c);
    assert PlanRoot(reg, now, c, n);
  }
}
