/** Reachable registries in which a promise of the claim protocol fails. */
module ClaimExamples {
  import opened Wrappers
  import opened Claims
  import opened ClaimProtocol
  import Paths
  import Text

  // ---------------------------------------------------------------------
  // File names

  lemma SafeLetters(s: string)
    requires |s| > 0 && forall i :: 0 <= i < |s| ==> s[i] !in {'/', ' ', '_'}
    ensures Safe(s) == s
  {
    Paths.ReplaceAbsent(s, '/', "_");
    Paths.ReplaceAbsent(s, ' ', "_");
    Text.TrimBounds(s, c => c == '_');
  }

  lemma SlotsDiffer(l: Claim, r: Claim)
    requires |l.agent| == |r.agent| == 1 && l.agent != r.agent
    requires l.agent[0] !in {'/', ' ', '_'} && r.agent[0] !in {'/', ' ', '_'}
    ensures Slot(l) != Slot(r)
  {
    SafeLetters(l.agent);
    SafeLetters(r.agent);
    assert Slot(l)[0] == l.agent[0] && Slot(r)[0] == r.agent[0];
  }

  // ---------------------------------------------------------------------
  // An upsert that takes a path back

  /** Without a plan, a preserved lane or a shared session, a healthy candidate clear of the live claims is admitted. */
  lemma AdmitFree(reg: Registry, now: int, c: Claim)
    requires c.plan.None? && HealthIssues(c) == {} && |c.projects| == 1
    requires forall n :: n in reg ==> !reg[n].status.SessionEnded?
    requires forall n :: n in reg && Live(reg[n]) ==> reg[n].session != c.session && !Conflict(c, reg[n])
    ensures AdmitClaim(reg, now, c).Ok?
  {
    var active := ActiveIn(reg, now, PrimaryProject(c));
    HardConflictsAreConflicts(c, active);
    assert SessionRootConflicts(c, AllActive(reg, now)) == {};
    assert PreservedLaneConflicts(c, Loaded(reg, now)) == {};
  }

  /** An upsert of an empty-handed slot in good order is accepted, whatever others hold. */
  lemma UpsertRevives(reg: Registry, now: int, request: Claim, ttl: int)
    requires Slot(request) in reg && reg[Slot(request)].agent == request.agent && reg[Slot(request)].session == request.session
    requires request.plan.None? && HealthIssues(request.(status := Active)) == {}
    requires forall n :: n in reg && n != Slot(request) ==> reg[n].session != request.session
    requires !Live(reg[Slot(request)])
    ensures UpsertClaim(reg, now, request, ttl).Ok?
  {
    var candidate := request.(status := Active);
    assert SessionRootConflicts(candidate, AllActive(reg, now)) == {};
  }

  /** The lane of `agent` on path `a` of project `p`. */
  function Lane(agent: string): Claim
  {
    Sample(agent, "p", Write, "a")
  }

  lemma LaneIsHealthy(agent: string)
    requires agent != ""
    ensures HealthIssues(Lane(agent)) == {} && Lane(agent).(status := Active) == Lane(agent)
  {
  }

  lemma LanesConflict(l: string, r: string)
    requires l != r
    ensures Conflict(Lane(l), Lane(r))
  {
    Paths.DotHidesBehindA();
    SampleConflict(Lane(l), Lane(r), "a", "a");
  }

  /** Two healthy, unplanned lanes of different sessions that want one path. */
  predicate Rivals(l: Claim, r: Claim)
  {
    && HealthIssues(l) == HealthIssues(r) == {} && l.status.Active? && r.status.Active?
    && l.plan.None? && r.plan.None? && l.expires.None? && r.expires.None?
    && |l.projects| == |r.projects| == 1 && l.session != r.session && Conflict(l, r) && Slot(l) != Slot(r)
  }

  /** One agent claims a path and completes, then another claims it: three legal writes. */
  ghost predicate LegalHistory(l: Claim, r: Claim, done: Claim, a: string)
    requires a == Slot(l)
  {
    Allowed(map[], 0, Admit(l)) && Allowed(map[a := l], 0, Rewrite(a, done)) && Allowed(map[a := done], 0, Admit(r))
  }

  /** The first agent's upsert is then accepted on a filed, exclusive registry, and leaves a conflict. */
  ghost predicate UpsertBreaks(l: Claim, r: Claim, done: Claim, a: string, b: string)
    requires a == Slot(l) && b == Slot(r)
  {
    && a != b && Filed(map[a := done, b := r]) && Exclusive(map[a := done, b := r], 0)
    && UpsertClaim(map[a := done, b := r], 0, l, 1).Ok?
    && !Exclusive(map[a := done, b := r][a := UpsertClaim(map[a := done, b := r], 0, l, 1).value], 0)
  }

  lemma RivalsHaveLegalHistory(l: Claim, r: Claim, done: Claim, a: string)
    requires Rivals(l, r) && done == l.(status := Completed) && a == Slot(l)
    ensures LegalHistory(l, r, done, a)
  {
    AdmitFree(map[], 0, l);
    AdmitFree(map[a := done], 0, r);
    assert Updated(l, done);
  }

  lemma UpsertCanBreakExclusion() returns (l: Claim, r: Claim)
    ensures Rivals(l, r) && LegalHistory(l, r, l.(status := Completed), Slot(l))
    ensures UpsertBreaks(l, r, l.(status := Completed), Slot(l), Slot(r))
  {
    l, r := Lane("l"), Lane("r");
    LaneIsHealthy("l");
    LaneIsHealthy("r");
    SlotsDiffer(l, r);
    LanesConflict("l", "r");
    RivalsHaveLegalHistory(l, r, l.(status := Completed), Slot(l));
    RivalsCanClash(l, r, l.(status := Completed), Slot(l), Slot(r));
  }

  lemma RivalsCanClash(l: Claim, r: Claim, done: Claim, a: string, b: string)
    requires Rivals(l, r) && done == l.(status := Completed) && a == Slot(l) && b == Slot(r)
    ensures UpsertBreaks(l, r, done, a, b)
  {
    var reg := map[a := done, b := r];
    TwoAreFiled(done, r, a, b);
    RivalIsRevived(l, r, done, a, b);
    OnlyHolder(reg, b);
    UpsertKeepsExclusionExactly(reg, 0, l, 1);
    assert Holds(reg, 0, b);
  }

  lemma RivalIsRevived(l: Claim, r: Claim, done: Claim, a: string, b: string)
    requires Rivals(l, r) && done == l.(status := Completed) && a == Slot(l) && b == Slot(r)
    ensures UpsertClaim(map[a := done, b := r], 0, l, 1).Ok?
  {
    assert l.(status := Active) == l;
    UpsertRevives(map[a := done, b := r], 0, l, 1);
  }

  /** The first agent's hand-off passed its checks while it held the lane, and revives the completed record under the lock. */
  ghost predicate LateHandOffBreaks(l: Claim, r: Claim, done: Claim, a: string, b: string)
    requires a == Slot(l) && b == Slot(r)
  {
    && a != b && EditLane(map[a := l], 0, l.agent, PrimaryProject(l), l.scope, HandOff).Ok?
    && Filed(map[a := done, b := r]) && Exclusive(map[a := done, b := r], 0)
    && !Exclusive(map[a := done, b := r][a := Amended(done, HandOff, 0)], 0)
  }

  lemma HandOffIsAccepted(l: Claim, a: string)
    requires Live(l) && l.expires.None? && |l.projects| == 1 && a == Slot(l)
    ensures EditLane(map[a := l], 0, l.agent, PrimaryProject(l), l.scope, HandOff).Ok?
  {
    assert a in MatchingLive(map[a := l], 0, l.agent, PrimaryProject(l), l.scope);
    assert MatchingLive(map[a := l], 0, l.agent, PrimaryProject(l), l.scope) == {a};
  }

  lemma RivalsCanClashLate(l: Claim, r: Claim, done: Claim, a: string, b: string)
    requires Rivals(l, r) && done == l.(status := Completed) && a == Slot(l) && b == Slot(r)
    ensures LateHandOffBreaks(l, r, done, a, b)
  {
    var reg := map[a := done, b := r];
    HandOffIsAccepted(l, a);
    TwoAreFiled(done, r, a, b);
    OnlyHolder(reg, b);
    LateEditKeepsExclusionExactly(reg, 0, a, HandOff, 0);
    ConflictIsCongruent(l, done, r);
    assert Holds(reg, 0, b);
  }

  lemma LateHandOffCanBreakExclusion() returns (l: Claim, r: Claim)
    ensures Rivals(l, r) && LegalHistory(l, r, l.(status := Completed), Slot(l))
    ensures LateHandOffBreaks(l, r, l.(status := Completed), Slot(l), Slot(r))
  {
    l, r := UpsertCanBreakExclusion();
    RivalsCanClashLate(l, r, l.(status := Completed), Slot(l), Slot(r));
  }

  lemma TwoAreFiled(l: Claim, r: Claim, a: string, b: string)
    requires a == Slot(l) && b == Slot(r) && a != b && |l.projects| == |r.projects| == 1
    ensures Filed(map[a := l, b := r])
  {
  }

  lemma OnlyHolder(reg: Registry, b: string)
    requires forall n :: Holds(reg, 0, n) ==> n == b
    ensures Exclusive(reg, 0)
  {
    forall i, j | Holds(reg, 0, i) && Holds(reg, 0, j)
      ensures !Conflict(reg[i], reg[j])
    {
      assert i == b && j == b;
    }
  }

  // ---------------------------------------------------------------------
  // A create that removes the only root

  /** The live lanes of one agent's plan under the one root at `rs`. */
  predicate UnderRoot(reg: Registry, now: int, rs: string, c: Claim)
  {
    && rs in reg && "" !in reg && IsRoot(reg[rs])
    && HealthIssues(reg[rs]) == {} && reg[rs].scope == c.parentScope
    && forall n :: n in reg ==>
         && Live(reg[n]) && Unexpired(reg[n], now) && reg[n].session != "" && reg[n].agent == c.agent
         && reg[n].projects == c.projects && PlanIdentity(reg[n]) == PlanIdentity(c)
         && !SameClaim(reg[n], c)
         && (n != rs ==> !IsRoot(reg[n]) && reg[n].scope != c.parentScope)
  }

  predicate ChildOf(c: Claim)
  {
    && HealthIssues(c) == {} && Live(c) && c.session != "" && |c.projects| == 1 && c.projects[0] != "" && PlanIdentity(c).Some?
    && c.parentScope != "" && c.parentScope != c.scope
  }

  lemma ChildHasNoIssues(reg: Registry, now: int, rs: string, c: Claim)
    requires UnderRoot(reg, now, rs, c) && ChildOf(c)
    ensures HierarchyIssues(c, Prospective(c, ActiveIn(reg, now, PrimaryProject(c)))) == {}
  {
    var pool := Prospective(c, ActiveIn(reg, now, PrimaryProject(c)));
    assert forall n :: n in pool <==> n == "" || n in reg;
    assert pool[""] == c && rs in pool && pool[rs] == reg[rs];
    ParentIsSound(pool, reg, rs, c);
    CohortIsSound(pool, reg, rs, c);
  }

  lemma ParentIsSound(pool: Registry, reg: Registry, rs: string, c: Claim)
    requires ChildOf(c) && "" in pool && pool[""] == c && rs in reg && "" !in reg
    requires forall n :: n in pool <==> n == "" || n in reg
    requires forall n :: n in reg ==> pool[n] == reg[n]
    requires IsRoot(reg[rs]) && HealthIssues(reg[rs]) == {} && reg[rs].scope == c.parentScope
    requires Live(reg[rs]) && reg[rs].session != "" && reg[rs].projects == c.projects && PlanIdentity(reg[rs]) == PlanIdentity(c)
    requires !SameClaim(reg[rs], c) && forall n :: n in reg && n != rs ==> reg[n].scope != c.parentScope
    ensures ParentIssues(c, pool) == {}
  {
    var parents := set n | n in pool && Live(pool[n]) && PrimaryProject(pool[n]) == PrimaryProject(c)
                           && pool[n].scope == c.parentScope && !SameClaim(pool[n], c);
    assert parents == {rs};
  }

  lemma CohortIsSound(pool: Registry, reg: Registry, rs: string, c: Claim)
    requires ChildOf(c) && "" in pool && pool[""] == c && rs in reg && "" !in reg
    requires forall n :: n in pool <==> n == "" || n in reg
    requires forall n :: n in reg ==> pool[n] == reg[n] && (n != rs ==> !IsRoot(reg[n]))
    requires IsRoot(reg[rs]) && reg[rs].scope == c.parentScope
    requires Live(reg[rs]) && reg[rs].session != "" && reg[rs].projects == c.projects && PlanIdentity(reg[rs]) == PlanIdentity(c)
    requires !SameClaim(reg[rs], c)
    ensures CohortIssues(c, Cohort(c, pool)) == {}
  {
    var cohort := Cohort(c, pool);
    assert "" in cohort && rs in cohort && SameClaim(cohort[""], c);
    TwoMembers(cohort.Keys, "", rs);
    assert Roots(cohort) == {rs};
  }

  lemma SameAgentIsNoConflict(active: Registry, c: Claim)
    requires forall n :: n in active ==> active[n].agent == c.agent
    ensures HardConflicts(EvaluateClaim(c, active)) == {}
  {
    HardConflictsAreConflicts(c, active);
  }

  lemma LiveLanesAreNotPreserved(reg: Registry, now: int, c: Claim)
    requires forall n :: n in reg ==> !reg[n].status.SessionEnded?
    ensures PreservedLaneConflicts(c, Loaded(reg, now)) == {}
  {
  }

  lemma ChildIsNoSessionRoot(active: Registry, c: Claim)
    requires c.parentScope != ""
    ensures SessionRootConflicts(c, active) == {}
  {
  }

  /** A child of the plan's root, by the same agent, is admitted. */
  lemma ChildIsAdmitted(reg: Registry, now: int, rs: string, c: Claim)
    requires UnderRoot(reg, now, rs, c) && ChildOf(c)
    ensures AdmitClaim(reg, now, c).Ok?
  {
    ChildHasNoIssues(reg, now, rs, c);
    SameAgentIsNoConflict(ActiveIn(reg, now, PrimaryProject(c)), c);
    LiveLanesAreNotPreserved(reg, now, c);
    ChildIsNoSessionRoot(AllActive(reg, now), c);
    assert !MetadataBlocksCreation(c);
    assert Slot(c) in reg ==> !reg[Slot(c)].status.SessionEnded?;
  }

  /** A root with no other lane in the registry is admitted. */
  lemma FirstRootIsAdmitted(now: int, c: Claim)
    requires HealthIssues(c) == {} && c.parentScope == "" && |c.projects| == 1
    ensures AdmitClaim(map[], now, c).Ok?
  {
    var pool := Prospective(c, ActiveIn(map[], now, PrimaryProject(c)));
    assert pool == map["" := c];
    var cohort := Cohort(c, pool);
    assert cohort.Keys <= {""};
    AtMostOne(cohort.Keys);
    assert SessionRootConflicts(c, AllActive(map[], now)) == {};
    assert PreservedLaneConflicts(c, Loaded(map[], now)) == {};
    assert HardConflicts(EvaluateClaim(c, ActiveIn(map[], now, PrimaryProject(c)))) == {};
  }

  lemma AtMostOne(s: set<string>)
    requires s <= {""}
    ensures |s| <= 1
  {
    assert s == {} || s == {""};
  }

  const NUMBERED := Plan("Plan #1", Some("Plan #1"))

  /** A lane of one numbered plan. */
  function Planned(scope: string, claimType: ClaimType, parent: string): Claim
  {
    Sample("l", "p", claimType, "a").(scope := scope, plan := Some(NUMBERED), parentScope := parent)
  }

  lemma PlannedIsHealthy(scope: string, claimType: ClaimType, parent: string)
    ensures HealthIssues(Planned(scope, claimType, parent)) == {}
  {
  }

  lemma UnderscoreIsSafe()
    ensures Safe("a_b") == "a_b" && Safe("c") == "c"
  {
    SafeLetters("c");
    Paths.ReplaceAbsent("a_b", '/', "_");
    Paths.ReplaceAbsent("a_b", ' ', "_");
    Text.TrimBounds("a_b", c => c == '_');
  }

  /** The child and the last lane stand under the root, and the last one is no root itself. */
  predicate Family(root: Claim, child: Claim, last: Claim)
  {
    && IsRoot(root) && HealthIssues(root) == {} && Live(root) && root.session != "" && root.expires.None?
    && ChildOf(child) && ChildOf(last) && child.expires.None? && last.expires.None?
    && child.parentScope == last.parentScope == root.scope && child.scope != last.scope
    && root.agent == child.agent == last.agent && root.projects == child.projects == last.projects
    && PlanIdentity(root) == PlanIdentity(child) == PlanIdentity(last)
  }

  /** A root, a child of it, and a second child whose scope names the root's file: three legal creates. */
  ghost predicate LegalCreates(root: Claim, child: Claim, last: Claim, rs: string, cs: string)
    requires rs == Slot(root) == Slot(last) && cs == Slot(child)
  {
    && Allowed(map[], 0, Admit(root)) && Allowed(map[rs := root], 0, Admit(child))
    && Allowed(map[rs := root, cs := child], 0, Admit(last))
  }

  /** The last one leaves a cohort of two live lanes without a root. */
  ghost predicate RootIsLost(root: Claim, child: Claim, last: Claim, rs: string, cs: string)
  {
    var after := LiveCohort(map[rs := root, cs := child][rs := last], 0, last);
    rs != cs && |after| >= 2 && Roots(after) == {}
  }

  lemma FamilyIsAdmitted(root: Claim, child: Claim, last: Claim, rs: string, cs: string)
    requires Family(root, child, last) && rs == Slot(root) == Slot(last) && cs == Slot(child) && rs != cs
    requires root.parentScope == ""
    ensures LegalCreates(root, child, last, rs, cs)
  {
    SlotIsNamed(root);
    SlotIsNamed(child);
    FirstRootIsAdmitted(0, root);
    ChildJoins(root, child, last, rs);
    LastJoins(root, child, last, rs, cs);
    AdmittedIsAllowed(map[], 0, root);
    AdmittedIsAllowed(map[rs := root], 0, child);
    AdmittedIsAllowed(map[rs := root, cs := child], 0, last);
  }

  lemma AdmittedIsAllowed(reg: Registry, now: int, c: Claim)
    requires |c.projects| == 1 && AdmitClaim(reg, now, c).Ok?
    ensures Allowed(reg, now, Admit(c))
  {
  }

  lemma PlannedFamily()
    ensures Family(Planned("a/b", Program, ""), Planned("c", Write, "a/b"), Planned("a_b", Write, "a/b"))
  {
    PlannedIsHealthy("a/b", Program, "");
    PlannedIsHealthy("c", Write, "a/b");
    PlannedIsHealthy("a_b", Write, "a/b");
  }

  lemma PlannedSlots()
    ensures Slot(Planned("a/b", Program, "")) == Slot(Planned("a_b", Write, "a/b")) != Slot(Planned("c", Write, "a/b"))
  {
    ScopesCanShareAFile("l", "p");
    UnderscoreIsSafe();
    var prefix := Safe("l") + "_" + Safe("p") + "_";
    assert Slot(Planned("a_b", Write, "a/b")) == prefix + "a_b" + ".yaml";
    assert Slot(Planned("c", Write, "a/b")) == prefix + "c" + ".yaml";
    assert |prefix + "a_b" + ".yaml"| == |prefix + "c" + ".yaml"| + 2;
  }

  lemma CreateCanRemoveTheRoot() returns (root: Claim, child: Claim, last: Claim)
    ensures Slot(root) == Slot(last) && LegalCreates(root, child, last, Slot(root), Slot(child))
    ensures RootIsLost(root, child, last, Slot(root), Slot(child))
  {
    root, child, last := Planned("a/b", Program, ""), Planned("c", Write, "a/b"), Planned("a_b", Write, "a/b");
    PlannedFamily();
    PlannedSlots();
    FamilyIsAdmitted(root, child, last, Slot(root), Slot(child));
    NoRootIsLeft(root, child, last, Slot(root), Slot(child));
  }

  lemma ChildJoins(root: Claim, child: Claim, last: Claim, rs: string)
    requires Family(root, child, last) && rs != ""
    ensures AdmitClaim(map[rs := root], 0, child).Ok?
  {
    assert UnderRoot(map[rs := root], 0, rs, child);
    ChildIsAdmitted(map[rs := root], 0, rs, child);
  }

  lemma LastJoins(root: Claim, child: Claim, last: Claim, rs: string, cs: string)
    requires Family(root, child, last) && rs != cs && rs != "" && cs != ""
    ensures AdmitClaim(map[rs := root, cs := child], 0, last).Ok?
  {
    assert UnderRoot(map[rs := root, cs := child], 0, rs, last);
    ChildIsAdmitted(map[rs := root, cs := child], 0, rs, last);
  }

  lemma NoRootIsLeft(root: Claim, child: Claim, last: Claim, rs: string, cs: string)
    requires Family(root, child, last) && rs != cs
    ensures var after := LiveCohort(map[rs := root, cs := child][rs := last], 0, last);
            |after| >= 2 && Roots(after) == {}
  {
    var after := LiveCohort(map[rs := root, cs := child][rs := last], 0, last);
    assert rs in after && cs in after;
    TwoMembers(after.Keys, rs, cs);
  }
}
