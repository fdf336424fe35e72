/** What the enforcing gate decides, said of the registry's records field by field. */
module GateMeaning {
  import opened Wrappers
  import opened Claims
  import opened RegistryDigest
  import opened PrewriteGate

  /** A live, unexpired claim of the request's agent and session on its worktree, repository and branch. */
  predicate OwnLane(reg: Registry, now: int, r: Request, n: string)
  {
    && n in reg && reg[n].status in {Active, Blocked, Handoff} && (reg[n].expires.None? || reg[n].expires.value >= now)
    && reg[n].agent == r.client && reg[n].session == r.session && reg[n].contract.worktree == r.worktree
    && reg[n].contract.repoRoot == r.repoRoot && reg[n].contract.branch == r.branch
  }

  lemma OwnLaneExactly(reg: Registry, now: int, r: Request, n: string)
    ensures OwnLane(reg, now, r, n) <==> n in ExactLive(reg, now, r)
  {
  }

  /** The gate considers every such claim of the registry its projection was built from, and no other. */
  lemma CandidatesAreOwnLanes(env: Env, files: Files, built: int, r: Request, n: string)
    requires BuildProjection(env, files, built).Some?
    ensures n in Candidates(BuildProjection(env, files, built).value, r) <==> OwnLane(View(env, files), built, r, n)
  {
    CandidatesAreExact(env, files, built, r);
    OwnLaneExactly(View(env, files), built, r, n);
  }

  /** Fresh: a session's claim has beaten within the window, and the disk agrees with it. */
  predicate FreshNow(c: Claim, m: Moment)
  {
    && (c.expires.None? || c.expires.value >= m.now)
    && (c.session != "" ==> c.heartbeat.Some? && c.heartbeat.value >= m.now - m.window)
    && m.disk(c)
  }

  /** What the verdict on a current projection depends on: the lanes found, and the health and paths of a single one. */
  ghost function Reasoned(env: Env, reg: Registry, built: int, m: Moment, r: Request): Reason
  {
    if forall n :: !OwnLane(reg, built, r, n) then NoExactClaim
    else if exists n, k :: OwnLane(reg, built, r, n) && OwnLane(reg, built, r, k) && n != k then AmbiguousClaim
    else
      var n :| OwnLane(reg, built, r, n);
      if !env.healthy(reg[n], AllActive(reg, built)) || !FreshNow(reg[n], m) then ClaimNotHealthy
      else if exists t :: t in r.targets && forall p :: p in reg[n].writePaths ==> !Paths.PathIsClaimed(t, p)
      then PathOutsideClaim
      else ExactLiveClaim
  }

  lemma Counted(found: set<string>)
    ensures |found| > 1 <==> exists n, k :: n in found && k in found && n != k
  {
    if n, k :| n in found && k in found && n != k {
      assert {n, k} <= found && |{n, k}| == 2;
      assert found == {n, k} + (found - {n, k});
    }
    if |found| > 1 {
      var n :| n in found;
      assert |found - {n}| > 0;
      var k :| k in found - {n};
      assert n in found && k in found && n != k;
    }
  }

  /** An enforcing gate gives exactly that reason, allows for the last of them, and denies a stale projection. */
  lemma EnforcedExactly(env: Env, files0: Files, built: int, files: Files, m: Moment, r: Request)
    requires NulFree(files0) && NulFree(files) && BuildProjection(env, files0, built).Some?
    ensures var d := Decide(BuildProjection(env, files0, built), files, m, Enforce, r);
            && d.reason == (if files != files0 then ProjectionStale else Reasoned(env, View(env, files0), built, m, r))
            && d.verdict == (if d.reason == ExactLiveClaim then Allow else Deny)
    ensures Decide(None, files, m, Enforce, r) == Decision(Deny, ProjectionStale)
  {
    DigestInjective(files0, files);
    if files == files0 {
      var reg, p := View(env, files0), BuildProjection(env, files0, built).value;
      var found := Candidates(p, r);
      forall n
        ensures n in found <==> OwnLane(reg, built, r, n)
      {
        CandidatesAreOwnLanes(env, files0, built, r, n);
      }
      Counted(found);
      if n :| n in found && |found| == 1 {
        OnlyMember(found, n);
        assert p.claims[n] == Projected(reg[n], env.healthy(reg[n], AllActive(reg, built)));
        OneLaneReasoned(env, reg, built, files, p, m, r, n);
      }
    }
  }

  lemma OneLaneReasoned(env: Env, reg: Registry, built: int, files: Files, p: Projection, m: Moment, r: Request, n: string)
    requires p.digest == DigestOf(files) && Candidates(p, r) == {n} && n in reg
    requires forall k :: OwnLane(reg, built, r, k) <==> k == n
    requires p.claims[n] == Projected(reg[n], env.healthy(reg[n], AllActive(reg, built)))
    ensures var d := Decide(Some(p), files, m, Enforce, r);
            && d.reason == Reasoned(env, reg, built, m, r)
            && d.verdict == (if d.reason == ExactLiveClaim then Allow else Deny)
  {
    assert n in Candidates(p, r) && OwnLane(reg, built, r, n);
    assert FreshNow(reg[n], m) <==> DynamicallyHealthy(reg[n], m);
    OutsideExactly(r, reg[n]);
  }

  lemma OutsideExactly(r: Request, c: Claim)
    ensures AllCovered(r, c) <==> !exists t :: t in r.targets && forall p :: p in c.writePaths ==> !Paths.PathIsClaimed(t, p)
  {
  }

  /** The owner is the one exact live claim. */
  lemma OwnerIsExact(env: Env, files0: Files, built: int, files: Files, m: Moment, r: Request) returns (n: string)
    requires NulFree(files0) && NulFree(files) && built <= m.now && BuildProjection(env, files0, built).Some?
    requires Decide(BuildProjection(env, files0, built), files, m, Enforce, r).verdict.Allow?
    ensures var reg := View(env, files);
            && ExactLive(reg, m.now, r) == {n} && n in reg && AllCovered(r, reg[n]) && FreshNow(reg[n], m)
            && OwnLane(reg, m.now, r, n) && forall k :: OwnLane(reg, m.now, r, k) ==> k == n
  {
    n := AllowedWriteIsOwned(env, files0, built, files, m, r);
    forall k
      ensures OwnLane(View(env, files), m.now, r, k) <==> k == n
    {
      OwnLaneExactly(View(env, files), m.now, r, k);
    }
  }

  /** An allowed write belongs to the one claim of the current registry with the request's five fields, fresh and covering it. */
  lemma AllowMeansOneOwner(env: Env, files0: Files, built: int, files: Files, m: Moment, r: Request) returns (n: string)
    requires NulFree(files0) && NulFree(files) && built <= m.now && BuildProjection(env, files0, built).Some?
    requires Decide(BuildProjection(env, files0, built), files, m, Enforce, r).verdict.Allow?
    ensures var reg := View(env, files);
            && n in reg && reg[n].status in {Active, Blocked, Handoff}
            && (reg[n].expires.None? || reg[n].expires.value >= m.now)
            && reg[n].agent == r.client && reg[n].session == r.session && reg[n].contract.worktree == r.worktree
            && reg[n].contract.repoRoot == r.repoRoot && reg[n].contract.branch == r.branch
            && (reg[n].session != "" ==> reg[n].heartbeat.Some? && m.now - reg[n].heartbeat.value <= m.window)
            && m.disk(reg[n])
            && (forall t :: t in r.targets ==> exists p :: p in reg[n].writePaths && Paths.PathIsClaimed(t, p))
    ensures forall k :: OwnLane(View(env, files), m.now, r, k) ==> k == n
  {
    n := AllowedWriteIsOwned(env, files0, built, files, m, r);
    OwnLaneExactly(View(env, files), m.now, r, n);
    forall k | OwnLane(View(env, files), m.now, r, k)
      ensures k == n
    {
      OwnLaneExactly(View(env, files), m.now, r, k);
    }
  }
}
