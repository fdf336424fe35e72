/** Runs after which the enforcing gate allows two agents to write one path: what the exclusion theorem excludes. */
module GateExamples {
  import opened Wrappers
  import opened Claims
  import opened ClaimProtocol
  import opened ClaimExamples
  import opened RegistryDigest
  import opened PrewriteGate
  import opened ClaimRuns
  import Paths

  /** Two claims, the texts that hold them, and the files they go to. */
  datatype Pair = Pair(l: Claim, r: Claim, left: Bytes, right: Bytes)

  /** Two live lanes of different agents in one repository, each text read as its claim. */
  ghost predicate Lanes(env: Env, p: Pair)
  {
    && env.parse(p.left) == Record(p.l) && env.parse(p.right) == Record(p.r) && NUL !in p.left && NUL !in p.right
    && NUL !in Slot(p.l) && NUL !in Slot(p.r) && Slot(p.l) != Slot(p.r)
    && Live(p.l) && Live(p.r) && p.l.expires.None? && p.r.expires.None?
    && p.l.heartbeat == p.r.heartbeat == Some(0) && p.l.agent != p.r.agent
    && forall c, reg :: env.healthy(c, reg)
  }

  function RequestOf(c: Claim, target: string): Request
  {
    Request(c.agent, c.session, c.contract.worktree, c.contract.repoRoot, c.contract.branch, [target])
  }

  function History(p: Pair): seq<Event>
  {
    [Disk(Admit(p.l), p.left)] + [Disk(Admit(p.r), p.right)] + [Refresh]
  }

  const EMPTY := World(map[], None, 0)

  lemma FirstEvent(env: Env, c: Claim, text: Bytes)
    requires env.parse(text) == Record(c) && NUL !in text && NUL !in Slot(c) && Allowed(map[], 0, Admit(c))
    ensures var events := [Disk(Admit(c), text)];
            Legal(env, EMPTY, events) && Exec(env, EMPTY, events) == World(map[Slot(c) := text], None, 0)
  {
    assert View(env, map[]) == map[];
    assert [] + [Disk(Admit(c), text)] == [Disk(Admit(c), text)];
    ExecSnoc(env, EMPTY, [], Disk(Admit(c), text));
  }

  lemma SecondEvent(env: Env, events: seq<Event>, n: string, before: Bytes, was: Claim, c: Claim, text: Bytes)
    requires Legal(env, EMPTY, events) && Exec(env, EMPTY, events) == World(map[n := before], None, 0)
    requires env.parse(before) == Record(was) && n != Slot(c)
    requires env.parse(text) == Record(c) && NUL !in text && NUL !in Slot(c) && Allowed(map[n := was], 0, Admit(c))
    ensures var longer := events + [Disk(Admit(c), text)];
            Legal(env, EMPTY, longer) && Exec(env, EMPTY, longer) == World(map[n := before, Slot(c) := text], None, 0)
  {
    assert View(env, map[n := before]) == map[n := was];
    ExecSnoc(env, EMPTY, events, Disk(Admit(c), text));
  }

  lemma LastEvent(env: Env, events: seq<Event>, files: Files)
    requires Legal(env, EMPTY, events) && Exec(env, EMPTY, events) == World(files, None, 0)
    requires forall n :: n in files ==> env.parse(files[n]).Record?
    ensures var longer := events + [Refresh];
            && Legal(env, EMPTY, longer) && BuildProjection(env, files, 0).Some?
            && Exec(env, EMPTY, longer) == World(files, BuildProjection(env, files, 0), 0)
  {
    ExecSnoc(env, EMPTY, events, Refresh);
  }

  lemma HistoryRuns(env: Env, p: Pair, files: Files)
    requires Lanes(env, p) && Allowed(map[], 0, Admit(p.l)) && Allowed(map[Slot(p.l) := p.l], 0, Admit(p.r))
    requires files == map[Slot(p.l) := p.left, Slot(p.r) := p.right]
    ensures Legal(env, EMPTY, History(p)) && BuildProjection(env, files, 0).Some?
    ensures Exec(env, EMPTY, History(p)) == World(files, BuildProjection(env, files, 0), 0)
  {
    var one := [Disk(Admit(p.l), p.left)];
    var two := one + [Disk(Admit(p.r), p.right)];
    FirstEvent(env, p.l, p.left);
    SecondEvent(env, one, Slot(p.l), p.left, p.l, p.r, p.right);
    LastEvent(env, two, files);
  }

  lemma OneLaneAllows(env: Env, files: Files, m: Moment, n: string, c: Claim, target: string)
    requires NulFree(files) && BuildProjection(env, files, 0).Some?
    requires Alone(View(env, files), n, c) && Live(c) && c.expires.None? && c.heartbeat == Some(0)
    requires m.now == 0 && m.window >= 0 && m.disk(c) && Covered(target, c) && forall d, reg :: env.healthy(d, reg)
    ensures Decide(BuildProjection(env, files, 0), files, m, Enforce, RequestOf(c, target)).verdict.Allow?
  {
    var r := RequestOf(c, target);
    GateAllowsExactly(env, files, 0, files, m, r);
    assert ExactLive(View(env, files), 0, r) == {n};
    assert DynamicallyHealthy(c, m) && AllCovered(r, c);
  }

  /** After such a history the gate allows both agents the target their claims both cover. */
  ghost predicate BothAllowed(env: Env, p: Pair, m: Moment, target: string)
  {
    && Legal(env, EMPTY, History(p))
    && var w := Exec(env, EMPTY, History(p));
       && Decide(w.projection, w.files, m, Enforce, RequestOf(p.l, target)).verdict.Allow?
       && Decide(w.projection, w.files, m, Enforce, RequestOf(p.r, target)).verdict.Allow?
  }

  lemma LanesAreBothAllowed(env: Env, p: Pair, m: Moment, target: string)
    requires Lanes(env, p) && Allowed(map[], 0, Admit(p.l)) && Allowed(map[Slot(p.l) := p.l], 0, Admit(p.r))
    requires m.now == 0 && m.window >= 0 && m.disk(p.l) && m.disk(p.r) && Covered(target, p.l) && Covered(target, p.r)
    ensures BothAllowed(env, p, m, target)
  {
    var files := map[Slot(p.l) := p.left, Slot(p.r) := p.right];
    HistoryRuns(env, p, files);
    BothLanesAllow(env, p, m, target, files, Slot(p.l), Slot(p.r));
  }

  /** The file `a` holds the one claim of its agent. */
  predicate Alone(reg: Registry, a: string, c: Claim)
  {
    a in reg && reg[a] == c && forall k :: k in reg && reg[k].agent == c.agent ==> k == a
  }

  lemma PairView(env: Env, p: Pair, files: Files, a: string, b: string)
    requires Lanes(env, p) && files == map[a := p.left, b := p.right] && a != b && NUL !in a && NUL !in b
    ensures NulFree(files) && Alone(View(env, files), a, p.l) && Alone(View(env, files), b, p.r)
  {
  }

  lemma BothLanesAllow(env: Env, p: Pair, m: Moment, target: string, files: Files, a: string, b: string)
    requires Lanes(env, p) && a != b && NUL !in a && NUL !in b && files == map[a := p.left, b := p.right]
    requires BuildProjection(env, files, 0).Some?
    requires m.now == 0 && m.window >= 0 && m.disk(p.l) && m.disk(p.r) && Covered(target, p.l) && Covered(target, p.r)
    ensures Decide(BuildProjection(env, files, 0), files, m, Enforce, RequestOf(p.l, target)).verdict.Allow?
    ensures Decide(BuildProjection(env, files, 0), files, m, Enforce, RequestOf(p.r, target)).verdict.Allow?
  {
    PairView(env, p, files, a, b);
    OneLaneAllows(env, files, m, a, p.l, target);
    OneLaneAllows(env, files, m, b, p.r, target);
  }

  /** A sample lane with a fresh heartbeat. */
  function Beating(agent: string, project: string, claimType: ClaimType, path: string): Claim
  {
    Sample(agent, project, claimType, path).(heartbeat := Some(0))
  }

  // ---------------------------------------------------------------------
  // One agent after the other

  function FirstTurn(p: Pair): seq<Event>
  {
    [Disk(Admit(p.l), p.left)] + [Refresh]
  }

  /** The first claim is released and the second admitted. */
  function SecondTurn(p: Pair): seq<Event>
  {
    [Disk(Remove(Slot(p.l)), "")] + [Disk(Admit(p.r), p.right)] + [Refresh]
  }

  /** The gate allows the first agent after the first turn and the second after the second. */
  ghost predicate AllowedInTurn(env: Env, p: Pair, m: Moment, target: string)
  {
    && Legal(env, EMPTY, FirstTurn(p) + SecondTurn(p))
    && (var w := Exec(env, EMPTY, FirstTurn(p));
        Decide(w.projection, w.files, m, Enforce, RequestOf(p.l, target)).verdict.Allow?)
    && (var w := Exec(env, EMPTY, FirstTurn(p) + SecondTurn(p));
        Decide(w.projection, w.files, m, Enforce, RequestOf(p.r, target)).verdict.Allow?)
  }

  lemma FirstTurnRuns(env: Env, p: Pair)
    requires Lanes(env, p) && Allowed(map[], 0, Admit(p.l))
    ensures var files := map[Slot(p.l) := p.left];
            && Legal(env, EMPTY, FirstTurn(p)) && BuildProjection(env, files, 0).Some?
            && Exec(env, EMPTY, FirstTurn(p)) == World(files, BuildProjection(env, files, 0), 0)
  {
    FirstEvent(env, p.l, p.left);
    LastEvent(env, [Disk(Admit(p.l), p.left)], map[Slot(p.l) := p.left]);
  }

  lemma ReleaseEvent(env: Env, events: seq<Event>, n: string, text: Bytes, projection: Option<Projection>)
    requires Legal(env, EMPTY, events) && Exec(env, EMPTY, events) == World(map[n := text], projection, 0) && NUL !in n
    ensures var longer := events + [Disk(Remove(n), "")];
            Legal(env, EMPTY, longer) && Exec(env, EMPTY, longer) == World(map[], projection, 0)
  {
    ExecSnoc(env, EMPTY, events, Disk(Remove(n), ""));
    assert map[n := text] - {n} == map[];
  }

  lemma AdmitRefreshed(env: Env, events: seq<Event>, c: Claim, text: Bytes, projection: Option<Projection>)
    requires Legal(env, EMPTY, events) && Exec(env, EMPTY, events) == World(map[], projection, 0)
    requires env.parse(text) == Record(c) && NUL !in text && NUL !in Slot(c) && Allowed(map[], 0, Admit(c))
    ensures var longer, files := events + [Disk(Admit(c), text)] + [Refresh], map[Slot(c) := text];
            && Legal(env, EMPTY, longer) && BuildProjection(env, files, 0).Some?
            && Exec(env, EMPTY, longer) == World(files, BuildProjection(env, files, 0), 0)
  {
    assert View(env, map[]) == map[];
    ExecSnoc(env, EMPTY, events, Disk(Admit(c), text));
    ExecSnoc(env, EMPTY, events + [Disk(Admit(c), text)], Refresh);
  }

  /** Two agents may be allowed one path in turn, even when their claims conflict. */
  lemma TurnsCanChange(env: Env, p: Pair, m: Moment, target: string)
    requires Lanes(env, p) && Allowed(map[], 0, Admit(p.l)) && Allowed(map[], 0, Admit(p.r))
    requires m.now == 0 && m.window >= 0 && m.disk(p.l) && m.disk(p.r) && Covered(target, p.l) && Covered(target, p.r)
    ensures AllowedInTurn(env, p, m, target)
  {
    FirstTurnRuns(env, p);
    SecondTurnRuns(env, p);
    LoneLaneAllows(env, m, Slot(p.l), p.l, p.left, target);
    LoneLaneAllows(env, m, Slot(p.r), p.r, p.right, target);
  }

  lemma SecondTurnRuns(env: Env, p: Pair)
    requires Lanes(env, p) && Allowed(map[], 0, Admit(p.l)) && Allowed(map[], 0, Admit(p.r))
    ensures var events, files := FirstTurn(p) + SecondTurn(p), map[Slot(p.r) := p.right];
            && Legal(env, EMPTY, events) && BuildProjection(env, files, 0).Some?
            && Exec(env, EMPTY, events) == World(files, BuildProjection(env, files, 0), 0)
  {
    var a := Slot(p.l);
    var built, released := BuildProjection(env, map[a := p.left], 0), FirstTurn(p) + [Disk(Remove(a), "")];
    FirstTurnRuns(env, p);
    ReleaseEvent(env, FirstTurn(p), a, p.left, built);
    AdmitRefreshed(env, released, p.r, p.right, built);
    SameEvents(FirstTurn(p), Disk(Remove(a), ""), Disk(Admit(p.r), p.right), Refresh);
  }

  lemma SameEvents(before: seq<Event>, a: Event, b: Event, c: Event)
    ensures before + ([a] + [b] + [c]) == before + [a] + [b] + [c]
  {
  }

  lemma LoneLaneAllows(env: Env, m: Moment, n: string, c: Claim, text: Bytes, target: string)
    requires env.parse(text) == Record(c) && NUL !in text && NUL !in n && BuildProjection(env, map[n := text], 0).Some?
    requires Live(c) && c.expires.None? && c.heartbeat == Some(0) && m.now == 0 && m.window >= 0 && m.disk(c)
    requires Covered(target, c) && forall d, reg :: env.healthy(d, reg)
    ensures Decide(BuildProjection(env, map[n := text], 0), map[n := text], m, Enforce, RequestOf(c, target)).verdict.Allow?
  {
    assert View(env, map[n := text]) == map[n := c];
    OneLaneAllows(env, map[n := text], m, n, c, target);
  }

  // ---------------------------------------------------------------------
  // Each proviso

  lemma BeatingIsHealthy(agent: string, project: string, claimType: ClaimType, path: string)
    requires agent != ""
    ensures HealthIssues(Beating(agent, project, claimType, path)) == {}
  {
  }

  lemma BeatingsAreAdmitted(l: Claim, r: Claim)
    requires l.plan.None? && r.plan.None? && HealthIssues(l) == {} && HealthIssues(r) == {}
    requires |l.projects| == |r.projects| == 1 && Live(l) && l.session != r.session && !Conflict(r, l)
    ensures Allowed(map[], 0, Admit(l)) && Allowed(map[Slot(l) := l], 0, Admit(r))
  {
    AdmitFree(map[], 0, l);
    AdmitFree(map[Slot(l) := l], 0, r);
  }

  /** The two claims break one proviso of the exclusion theorem and keep the others. */
  predicate BreaksOne(l: Claim, r: Claim)
  {
    || (l == Beating("l", "p", Program, "a") && r == Beating("r", "p", Write, "a"))
    || (l == Beating("l", "p", Write, "a") && r == Beating("r", "q", Write, "a"))
    || (l == Beating("l", "p", Write, ".") && r == Beating("r", "p", Write, "a"))
  }

  lemma BreakersDoNotConflict(l: Claim, r: Claim)
    requires BreaksOne(l, r)
    ensures !Conflict(r, l)
  {
    Paths.DotHidesBehindA();
    SampleConflict(l, r, l.writePaths[0], "a");
    ConflictIsSymmetric(l, r);
  }

  lemma BreakersCover(l: Claim, r: Claim)
    requires BreaksOne(l, r)
    ensures Covered("a", l) && Covered("a", r)
  {
    Paths.DotHidesBehindA();
    SampleCovers("a", l, l.writePaths[0]);
    SampleCovers("a", r, "a");
  }

  /** Each proviso is needed: a program claim, a second project name, or the path `.` lets the gate allow two agents. */
  lemma EachProvisoIsNeeded(env: Env, p: Pair, m: Moment)
    requires Lanes(env, p) && BreaksOne(p.l, p.r)
    requires m.now == 0 && m.window >= 0 && m.disk(p.l) && m.disk(p.r)
    ensures p.l.agent != p.r.agent && p.l.contract.repoRoot == p.r.contract.repoRoot && BothAllowed(env, p, m, "a")
  {
    BeatingIsHealthy(p.l.agent, p.l.projects[0], p.l.claimType, p.l.writePaths[0]);
    BeatingIsHealthy(p.r.agent, p.r.projects[0], p.r.claimType, p.r.writePaths[0]);
    BreakersDoNotConflict(p.l, p.r);
    BreakersCover(p.l, p.r);
    BeatingsAreAdmitted(p.l, p.r);
    LanesAreBothAllowed(env, p, m, "a");
  }
}
