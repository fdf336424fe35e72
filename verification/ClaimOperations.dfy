/** What each operation of the registry leaves in a record, field by field. */
module ClaimOperations {
  import opened Wrappers
  import opened Claims
  import opened Admission
  import opened ClaimProtocol

  predicate IsLive(c: Claim)
  {
    c.status in {Active, Blocked, Handoff}
  }

  // ---------------------------------------------------------------------
  // Sweeps

  /** Ending a session preserves the live claims of that agent and session, and touches nothing else. */
  lemma EndPreserves(reg: Registry, now: int, agent: string, session: string, n: string)
    requires n in reg
    ensures var swept := Swept(reg, EndSession(agent, session), now);
            && swept.Keys == reg.Keys
            && swept[n] == if IsLive(reg[n]) && reg[n].agent == agent && reg[n].session == session
                           then reg[n].(status := SessionEnded) else reg[n]
  {
  }

  /** And the preserved lane keeps its paths: it is still held, against exactly the same rivals. */
  lemma EndedIsStillHeld(reg: Registry, now: int, agent: string, session: string, n: string, other: Claim)
    requires n in reg
    ensures var ended := Swept(reg, EndSession(agent, session), now)[n];
            && (Held(ended) <==> Held(reg[n])) && (Conflict(ended, other) <==> Conflict(reg[n], other))
            && (IsLive(ended) ==> !(ended.agent == agent && ended.session == session))
  {
    var ended := Swept(reg, EndSession(agent, session), now)[n];
    EndPreserves(reg, now, agent, session, n);
    ConflictIsCongruent(reg[n], ended, other);
  }

  /** Completing a plan completes the live claims of that project and plan text, and touches nothing else. */
  lemma PlanCompletes(reg: Registry, now: int, project: string, planText: string, n: string)
    requires n in reg
    ensures var swept := Swept(reg, CompletePlan(project, planText), now);
            && swept.Keys == reg.Keys
            && swept[n] == if IsLive(reg[n]) && project in reg[n].projects && reg[n].plan.Some? && reg[n].plan.value.text == planText
                           then reg[n].(status := Completed) else reg[n]
  {
  }

  /** A lane of the agent in the project, of the scope and branch asked for, if any. */
  predicate Asked(c: Claim, agent: string, project: string, scope: string, branch: string)
  {
    IsLive(c) && c.agent == agent && project in c.projects && scope in {"", c.scope} && branch in {"", c.contract.branch}
  }

  /** A heartbeat stamps the session's own lanes and, unless told to be exact, those without a session. */
  lemma HeartbeatStamps(reg: Registry, now: int, agent: string, project: string, session: string, scope: string,
                        branch: string, exact: bool, n: string)
    requires n in reg
    ensures var swept := Swept(reg, Heartbeat(agent, project, session, scope, branch, exact), now);
            && swept.Keys == reg.Keys
            && swept[n] == if Asked(reg[n], agent, project, scope, branch)
                              && reg[n].session in (if exact then {session} else {session, ""})
                           then reg[n].(session := session, heartbeat := Some(now)) else reg[n]
  {
  }

  /** A hydration gives the session to the lanes without one, and stamps them. */
  lemma HydrationFills(reg: Registry, now: int, agent: string, project: string, session: string, scope: string,
                       branch: string, n: string)
    requires n in reg
    ensures var swept := Swept(reg, Hydrate(agent, project, session, scope, branch), now);
            && swept.Keys == reg.Keys
            && swept[n] == if Asked(reg[n], agent, project, scope, branch) && reg[n].session == ""
                           then reg[n].(session := session, heartbeat := Some(now)) else reg[n]
  {
  }

  /** A sweep of one session is refused without a session; a plan completion needs none. */
  lemma ResolvedExactly(sweep: Sweep)
    ensures Resolved(sweep) <==> match sweep
                                 case CompletePlan(_, _) => true
                                 case Heartbeat(_, _, session, _, _, _) => session != ""
                                 case Hydrate(_, _, session, _, _) => session != ""
                                 case EndSession(_, session) => session != ""
  {
  }

  // ---------------------------------------------------------------------
  // Edits of one lane

  /** A live, unexpired claim of the named lane. */
  predicate InNamedLane(reg: Registry, now: int, agent: string, project: string, scope: string, n: string)
  {
    && n in reg && IsLive(reg[n]) && (reg[n].expires.None? || reg[n].expires.value >= now)
    && reg[n].agent == agent && project in reg[n].projects && reg[n].scope == scope
  }

  /** Hand-off, finish and abandon ask for exactly one live claim of the lane. */
  ghost predicate OneLive(reg: Registry, now: int, agent: string, project: string, scope: string)
  {
    exists n :: InNamedLane(reg, now, agent, project, scope, n)
                && forall k :: InNamedLane(reg, now, agent, project, scope, k) ==> k == n
  }

  lemma OneLiveExactly(reg: Registry, now: int, agent: string, project: string, scope: string)
    ensures |MatchingLive(reg, now, agent, project, scope)| == 1 <==> OneLive(reg, now, agent, project, scope)
    ensures MatchingLive(reg, now, agent, project, scope) == {} <==> forall n :: !InNamedLane(reg, now, agent, project, scope, n)
  {
    var found := MatchingLive(reg, now, agent, project, scope);
    assert forall n :: n in found <==> InNamedLane(reg, now, agent, project, scope, n);
    Singleton(found);
    SingletonOf(found);
  }

  /** A hand-off needs one live claim of the lane, and leaves the record of its file handed off and otherwise as it was. */
  lemma HandOffExactly(reg: Registry, now: int, agent: string, project: string, scope: string, edit: LaneEdit)
    requires edit.HandOff? || edit.FinishDirty?
    ensures var slot := ClaimFilename(agent, project, scope);
            var edited := EditLane(reg, now, agent, project, scope, edit);
            && (edited.Ok? <==> OneLive(reg, now, agent, project, scope) && slot in reg)
            && (edited.Ok? ==> edited.value == reg[slot].(status := Handoff))
  {
    OneLiveExactly(reg, now, agent, project, scope);
  }

  /** A clean finish or an abandonment needs the same, and leaves the lane completed or abandoned. */
  lemma FinishExactly(reg: Registry, now: int, agent: string, project: string, scope: string, edit: LaneEdit)
    requires edit.FinishClean? || edit.Abandon?
    ensures var slot := ClaimFilename(agent, project, scope);
            var edited := EditLane(reg, now, agent, project, scope, edit);
            && (edited.Ok? <==> OneLive(reg, now, agent, project, scope) && slot in reg)
            && (edited.Ok? ==> edited.value == reg[slot].(status := if edit.Abandon? then Abandoned else Completed))
  {
    OneLiveExactly(reg, now, agent, project, scope);
  }

  /** Closing takes the record of the lane's file whatever its status: closing first, completed at the end. */
  lemma CloseExactly(reg: Registry, now: int, agent: string, project: string, scope: string, edit: LaneEdit)
    requires edit.BeginClose? || edit.FinishClose?
    ensures var slot := ClaimFilename(agent, project, scope);
            var edited := EditLane(reg, now, agent, project, scope, edit);
            && (edited.Ok? <==> slot in reg)
            && (edited.Ok? ==> edited.value == reg[slot].(status := if edit.BeginClose? then Closing else Completed))
  {
  }

  /**
   * A resume needs a live or session-ended record with a plan, made for no other branch and no other worktree,
   * and a session; it leaves the lane active under that session, stamped now, and otherwise as it was.
   */
  lemma ResumeExactly(reg: Registry, now: int, agent: string, project: string, scope: string,
                      worktree: string, branch: string, session: string)
    ensures var slot := ClaimFilename(agent, project, scope);
            var edited := EditLane(reg, now, agent, project, scope, Resume(worktree, branch, session));
            && (edited.Ok? <==>
                  && slot in reg && reg[slot].status in {Active, Blocked, Handoff, SessionEnded}
                  && reg[slot].plan.Some? && reg[slot].plan.value.text != ""
                  && reg[slot].contract.branch in {"", branch} && reg[slot].contract.worktree in {"", worktree} && session != "")
            && (edited.Ok? ==> edited.value == reg[slot].(status := Active, session := session, heartbeat := Some(now)))
  {
  }

  /** Under the lock too: what each edit changes in the record it finds there. */
  lemma AmendedExactly(c: Claim, edit: LaneEdit, stamp: int)
    ensures var a := Amended(c, edit, stamp);
            && a == c.(status := a.status, session := a.session, heartbeat := a.heartbeat)
            && (a.status == match edit
                            case Resume(_, _, _) => Active
                            case HandOff => Handoff
                            case FinishDirty => Handoff
                            case Abandon => Abandoned
                            case BeginClose => Closing
                            case _ => Completed)
            && (if edit.Resume? then a.session == edit.session && a.heartbeat == Some(stamp)
                else a.session == c.session && a.heartbeat == c.heartbeat)
  {
  }

  // ---------------------------------------------------------------------
  // Upserts

  /**
   * An upsert is accepted for the agent and session that own the slot, or for its agent while no session does, when
   * the request fits its plan's hierarchy, opens no second root of its session, and is complete.
   */
  lemma UpsertExactly(reg: Registry, now: int, request: Claim, ttl: int)
    requires "" !in reg
    ensures var slot, c := Slot(request), request.(status := Active);
            var upserted := UpsertClaim(reg, now, request, ttl);
            && (upserted.Ok? <==>
                  && slot in reg && reg[slot].agent == request.agent && reg[slot].session in {"", request.session}
                  && (Planned(c) ==> FitsPlan(reg, now, c))
                  && (c.session == "" || c.parentScope != "" || c.parallelRoot || reg[slot].parallelRoot
                      || forall n :: !SessionRoot(reg, now, c, n))
                  && HasMetadata(c))
            && (upserted.Ok? ==>
                  upserted.value == c.(parallelRoot := request.parallelRoot || reg[slot].parallelRoot, heartbeat := Some(now),
                                       expires := if reg[slot].expires == None then Some(now + ttl) else reg[slot].expires))
  {
    var c := request.(status := Active);
    FitsPlanExactly(reg, now, c);
    SessionRootExactly(reg, now, c);
    MetadataExactly(c);
  }
}
