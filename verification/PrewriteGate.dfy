/** The pre-write projection, and the gate that decides a write from it. */
module PrewriteGate {
  import opened Wrappers
  import opened Claims
  import opened RegistryDigest
  import Paths

  /** What reading one claim file yields. */
  datatype Parsed =
    | Malformed
    | NotMapping
    | Anonymous(live: bool, expires: Option<int>)
    | Record(claim: Claim)

  /** The parts of the runtime the model is generic in: the YAML reader, and the static health checks. */
  datatype Env = Env(parse: Bytes -> Parsed, healthy: (Claim, Registry) -> bool)

  /** The claims a directory of files stands for. */
  function View(env: Env, files: Files): Registry
  {
    map n | n in files && env.parse(files[n]).Record? :: env.parse(files[n]).claim
  }

  lemma ViewAfterWrite(env: Env, files: Files, n: string, text: Bytes, c: Claim)
    requires env.parse(text) == Record(c)
    ensures View(env, files[n := text]) == View(env, files)[n := c]
  {
  }

  lemma ViewAfterUnlink(env: Env, files: Files, n: string)
    ensures View(env, files - {n}) == View(env, files) - {n}
  {
  }

  // ---------------------------------------------------------------------
  // Projection

  datatype Projected = Projected(claim: Claim, healthy: bool)

  datatype Projection = Projection(digest: Digest, claims: map<string, Projected>)

  /** A file the projection can be built over at `now`. */
  predicate Projectable(parsed: Parsed, now: int)
  {
    match parsed
    case Malformed => false
    case NotMapping => false
    case Anonymous(live, expires) => !live || (expires.Some? && expires.value < now)
    case Record(_) => true
  }

  function ProjectClaims(env: Env, files: Files, now: int): map<string, Projected>
  {
    var active := AllActive(View(env, files), now);
    map n | n in active :: Projected(active[n], env.healthy(active[n], active))
  }

  ghost function BuildProjection(env: Env, files: Files, now: int): Option<Projection>
  {
    if forall n :: n in files ==> Projectable(env.parse(files[n]), now)
    then Some(Projection(DigestOf(files), ProjectClaims(env, files, now)))
    else None
  }

  // ---------------------------------------------------------------------
  // Decision

  datatype Mode = Off | Observe | Enforce

  datatype Verdict = Allow | ObserveViolation | Deny

  datatype Reason = ModeOff | ProjectionStale | NoExactClaim | AmbiguousClaim | ClaimNotHealthy | PathOutsideClaim | ExactLiveClaim

  datatype Decision = Decision(verdict: Verdict, reason: Reason)

  /** A normalised request: who writes, from which worktree and branch, and which repository paths. */
  datatype Request = Request(client: string, session: string, worktree: string, repoRoot: string, branch: string,
                             targets: seq<string>)

  /** The moment of a decision: the clock, the heartbeat window, and what Git and the disk say of a claim. */
  datatype Moment = Moment(now: int, window: int, disk: Claim -> bool)

  predicate Matches(c: Claim, r: Request)
  {
    c.agent == r.client && c.session == r.session && c.contract.worktree == r.worktree
    && c.contract.repoRoot == r.repoRoot && c.contract.branch == r.branch
  }

  predicate DynamicallyHealthy(c: Claim, m: Moment)
  {
    && Unexpired(c, m.now)
    && (c.session != "" ==> c.heartbeat.Some? && m.now - c.heartbeat.value <= m.window)
    && m.disk(c)
  }

  predicate Covered(target: string, c: Claim)
  {
    exists p :: p in c.writePaths && Paths.PathIsClaimed(target, p)
  }

  predicate AllCovered(r: Request, c: Claim)
  {
    forall t :: t in r.targets ==> Covered(t, c)
  }

  function Candidates(p: Projection, r: Request): set<string>
  {
    set n | n in p.claims && Matches(p.claims[n].claim, r)
  }

  function Refuse(mode: Mode, reason: Reason): Decision
  {
    Decision(if mode.Observe? then ObserveViolation else Deny, reason)
  }

  ghost function Decide(stored: Option<Projection>, files: Files, m: Moment, mode: Mode, r: Request): Decision
  {
    if mode.Off? then Decision(Allow, ModeOff)
    else if stored.None? || stored.value.digest != DigestOf(files) then Refuse(mode, ProjectionStale)
    else
      var found := Candidates(stored.value, r);
      if found == {} then Refuse(mode, NoExactClaim)
      else if |found| > 1 then Refuse(mode, AmbiguousClaim)
      else
        var n :| n in found;
        var p := stored.value.claims[n];
        if !p.healthy || !DynamicallyHealthy(p.claim, m) then Refuse(mode, ClaimNotHealthy)
        else if !AllCovered(r, p.claim) then Refuse(mode, PathOutsideClaim)
        else Decision(Allow, ExactLiveClaim)
  }

  /** Observing decides as enforcing does, for the same reason, but never denies; switched off, the gate always allows. */
  lemma ObserveMirrorsEnforce(stored: Option<Projection>, files: Files, m: Moment, r: Request)
    ensures var observed, enforced := Decide(stored, files, m, Observe, r), Decide(stored, files, m, Enforce, r);
            && observed.reason == enforced.reason && !observed.verdict.Deny?
            && (observed.verdict.Allow? <==> enforced.verdict.Allow?)
            && (observed.verdict.Allow? || observed.verdict == ObserveViolation)
            && Decide(stored, files, m, Off, r) == Decision(Allow, ModeOff)
  {
  }

  /** The live, unexpired claims of one session on one worktree and branch. */
  function ExactLive(reg: Registry, now: int, r: Request): set<string>
  {
    set n | n in reg && Live(reg[n]) && Unexpired(reg[n], now) && Matches(reg[n], r)
  }

  lemma OnlyMember<T>(s: set<T>, x: T)
    requires x in s && |s| <= 1
    ensures s == {x}
  {
    assert |s - {x}| == |s| - 1;
    assert s - {x} == {};
    assert s == (s - {x}) + {x};
  }

  /** A projection's candidates are the exact live claims of the registry it was built from. */
  lemma CandidatesAreExact(env: Env, files: Files, built: int, r: Request)
    requires BuildProjection(env, files, built).Some?
    ensures Candidates(BuildProjection(env, files, built).value, r) == ExactLive(View(env, files), built, r)
  {
  }

  /** What an enforcing gate allows, when its projection was built from `files0` at `built`. */
  ghost predicate Justified(env: Env, files0: Files, built: int, files: Files, m: Moment, r: Request)
  {
    var reg := View(env, files0);
    files == files0 &&
    exists n :: ExactLive(reg, built, r) == {n} && n in reg
                && env.healthy(reg[n], AllActive(reg, built)) && DynamicallyHealthy(reg[n], m) && AllCovered(r, reg[n])
  }

  lemma GateAllowsExactly(env: Env, files0: Files, built: int, files: Files, m: Moment, r: Request)
    requires NulFree(files0) && NulFree(files)
    requires BuildProjection(env, files0, built).Some?
    ensures Decide(BuildProjection(env, files0, built), files, m, Enforce, r).verdict.Allow?
       <==> Justified(env, files0, built, files, m, r)
  {
    var stored := BuildProjection(env, files0, built);
    DigestInjective(files0, files);
    CandidatesAreExact(env, files0, built, r);
    var reg, found := View(env, files0), Candidates(stored.value, r);
    if Justified(env, files0, built, files, m, r) {
      var n :| found == {n} && n in reg && DynamicallyHealthy(reg[n], m) && AllCovered(r, reg[n])
               && env.healthy(reg[n], AllActive(reg, built));
      assert |found| == 1;
      assert stored.value.claims[n] == Projected(reg[n], true);
      forall k | k in found ensures k == n {}
    }
    if Decide(stored, files, m, Enforce, r).verdict.Allow? {
      var n :| n in found;
      OnlyMember(found, n);
      forall k | k in found ensures k == n {}
      assert stored.value.claims[n].claim == reg[n];
    }
  }

  /** An allowed write is owned, when decided, by the one exact live claim of the current registry. */
  lemma AllowedWriteIsOwned(env: Env, files0: Files, built: int, files: Files, m: Moment, r: Request)
    returns (n: string)
    requires NulFree(files0) && NulFree(files) && built <= m.now
    requires BuildProjection(env, files0, built).Some?
    requires Decide(BuildProjection(env, files0, built), files, m, Enforce, r).verdict.Allow?
    ensures var reg := View(env, files);
            && ExactLive(reg, m.now, r) == {n} && n in reg
            && AllCovered(r, reg[n]) && DynamicallyHealthy(reg[n], m)
  {
    GateAllowsExactly(env, files0, built, files, m, r);
    var reg := View(env, files0);
    n :| ExactLive(reg, built, r) == {n} && n in reg && DynamicallyHealthy(reg[n], m) && AllCovered(r, reg[n]);
    var at0, at1 := ExactLive(reg, built, r), ExactLive(reg, m.now, r);
    assert n in at0 && n in at1;
    assert forall k :: k in at1 ==> k in at0;
  }

  /** The gate keeps one receipt for every decision it makes, in order. */
  class Gate {
    var receipts: seq<Decision>

    constructor ()
      ensures receipts == []
    {
      receipts := [];
    }

    method Covers(target: string, paths: seq<string>) returns (covered: bool)
      ensures covered <==> exists p :: p in paths && Paths.PathIsClaimed(target, p)
    {
      covered := false;
      var i := 0;
      while i < |paths| && !covered
        invariant i <= |paths|
        invariant covered ==> exists p :: p in paths && Paths.PathIsClaimed(target, p)
        invariant !covered ==> forall p :: p in paths[..i] ==> !Paths.PathIsClaimed(target, p)
      {
        if Paths.PathIsClaimed(target, paths[i]) { covered := true; }
        i := i + 1;
      }
    }

    method Outside(r: Request, c: Claim) returns (outside: seq<string>)
      ensures forall t :: t in outside <==> t in r.targets && !Covered(t, c)
    {
      outside := [];
      var i := 0;
      while i < |r.targets|
        invariant i <= |r.targets|
        invariant forall t :: t in outside <==> t in r.targets[..i] && !Covered(t, c)
      {
        var covered := Covers(r.targets[i], c.writePaths);
        if !covered { outside := outside + [r.targets[i]]; }
        i := i + 1;
      }
    }

    method Evaluate(stored: Option<Projection>, files: Files, m: Moment, mode: Mode, r: Request) returns (d: Decision)
      modifies this
      ensures d == Decide(stored, files, m, mode, r)
      ensures receipts == old(receipts) + [d]
    {
      if mode.Off? {
        d := Decision(Allow, ModeOff);
      } else {
        d := Refuse(mode, ProjectionStale);
        if stored.Some? {
          var digest := HashRegistry(files);
          if stored.value.digest == digest { d := Choose(stored.value, m, mode, r); }
        }
      }
      receipts := receipts + [d];
    }

    method Choose(p: Projection, m: Moment, mode: Mode, r: Request) returns (d: Decision)
      requires !mode.Off?
      ensures forall files :: p.digest == DigestOf(files) ==> d == Decide(Some(p), files, m, mode, r)
    {
      var found := Candidates(p, r);
      if found == {} {
        d := Refuse(mode, NoExactClaim);
      } else if |found| > 1 {
        d := Refuse(mode, AmbiguousClaim);
      } else {
        var n :| n in found;
        OnlyMember(found, n);
        var candidate := p.claims[n];
        var outside := Outside(r, candidate.claim);
        d := if !candidate.healthy || !DynamicallyHealthy(candidate.claim, m) then Refuse(mode, ClaimNotHealthy)
             else if outside != [] then Refuse(mode, PathOutsideClaim)
             else Decision(Allow, ExactLiveClaim);
        assert outside != [] ==> outside[0] in r.targets;
      }
    }
  }

  // ---------------------------------------------------------------------
  // Two writers

  /** Paths only on write claims, every path plain, and one project name for each repository. */
  ghost predicate Disciplined(c: Claim, projectOf: string -> string)
  {
    && (c.writePaths != [] ==> c.claimType.Write?)
    && (forall p :: p in c.writePaths ==> Paths.Plain(p))
    && c.projects == [projectOf(c.contract.repoRoot)]
  }

  /** Two disciplined claims of different agents that cover one path of one repository conflict. */
  lemma SharedTargetConflicts(l: Claim, r: Claim, target: string, projectOf: string -> string)
    requires Disciplined(l, projectOf) && Disciplined(r, projectOf)
    requires l.agent != r.agent && l.contract.repoRoot == r.contract.repoRoot
    requires Covered(target, l) && Covered(target, r)
    ensures Conflict(l, r)
  {
    var p :| p in l.writePaths && Paths.PathIsClaimed(target, p);
    var q :| q in r.writePaths && Paths.PathIsClaimed(target, q);
    Paths.CoveringPathsOverlap(target, p, q);
    assert WritePathsOverlap(l, r);
    assert l.projects[0] in l.projects && l.projects[0] in r.projects;
  }

  lemma SampleCovers(target: string, c: Claim, p: string)
    requires c.writePaths == [p] && Paths.PathIsClaimed(target, p)
    ensures Covered(target, c)
  {
    assert p in c.writePaths;
  }
}
