/** The claim directory and its projection as the operations update them in place. */
module ClaimStore {
  import opened Wrappers
  import opened Claims
  import opened ClaimProtocol
  import opened RegistryDigest
  import opened PrewriteGate
  import opened ClaimRuns
  import opened ClaimWriter

  /** How a mutating call ends: nothing to do, refused, done, or stopped after the claim files but before the projection. */
  datatype Outcome = Untouched | Refused | Applied | Unprojected

  /** What a sweep leaves of one file. */
  function SweptFile(env: Env, w: Writer, sweep: Sweep, now: int, bytes: Bytes): Bytes
  {
    match env.parse(bytes)
    case Record(c) => if Selected(sweep, c) then w.amend(bytes, Rewritten(sweep, c, now)) else bytes
    case _ => bytes
  }

  function SweptFiles(env: Env, w: Writer, sweep: Sweep, now: int, files: Files): Files
  {
    map n | n in files :: SweptFile(env, w, sweep, now, files[n])
  }

  lemma SweptView(env: Env, w: Writer, sweep: Sweep, now: int, files: Files)
    requires Faithful(env, w) && Resolved(sweep)
    ensures View(env, SweptFiles(env, w, sweep, now, files)) == Swept(View(env, files), sweep, now)
  {
    var before, after := View(env, files), View(env, SweptFiles(env, w, sweep, now, files));
    forall n
      ensures n in after <==> n in Swept(before, sweep, now)
      ensures n in after ==> after[n] == Swept(before, sweep, now)[n]
    {
      if n in files { SweptReading(env, w, sweep, now, files[n]); }
    }
  }

  /** What a sweep leaves of one file reads as the sweep of what it read as. */
  predicate SweptRight(env: Env, w: Writer, sweep: Sweep, now: int, bytes: Bytes)
  {
    var swept := env.parse(SweptFile(env, w, sweep, now, bytes));
    match env.parse(bytes)
    case Record(c) => swept == Record(if Selected(sweep, c) then Rewritten(sweep, c, now) else c)
    case other => swept == other
  }

  lemma SweptReading(env: Env, w: Writer, sweep: Sweep, now: int, bytes: Bytes)
    requires Faithful(env, w) && Resolved(sweep)
    ensures SweptRight(env, w, sweep, now, bytes)
  {
  }

  predicate SelectedFile(env: Env, sweep: Sweep, bytes: Bytes)
  {
    env.parse(bytes).Record? && Selected(sweep, env.parse(bytes).claim)
  }

  /** The selected files a sweep has passed. */
  ghost function Hits(env: Env, sweep: Sweep, was: Files, remaining: set<string>): set<string>
  {
    set n | n in was && n !in remaining && SelectedFile(env, sweep, was[n])
  }

  ghost predicate SweptSoFar(env: Env, w: Writer, sweep: Sweep, now: int, was: Files, files: Files, remaining: set<string>)
  {
    && remaining <= was.Keys && files.Keys == was.Keys
    && forall n :: n in was ==> files[n] == if n in remaining then was[n] else SweptFile(env, w, sweep, now, was[n])
  }

  lemma SweepStep(env: Env, w: Writer, sweep: Sweep, now: int, was: Files, files: Files, remaining: set<string>, n: string)
    requires SweptSoFar(env, w, sweep, now, was, files, remaining) && n in remaining
    ensures SweptSoFar(env, w, sweep, now, was, files[n := SweptFile(env, w, sweep, now, files[n])], remaining - {n})
    ensures Hits(env, sweep, was, remaining - {n})
         == Hits(env, sweep, was, remaining) + if SelectedFile(env, sweep, files[n]) then {n} else {}
  {
  }

  lemma SweepEnd(env: Env, w: Writer, sweep: Sweep, now: int, was: Files, files: Files)
    requires SweptSoFar(env, w, sweep, now, was, files, {})
    ensures files == SweptFiles(env, w, sweep, now, was)
    ensures Hits(env, sweep, was, {}) == {} ==> files == was
    ensures Hits(env, sweep, was, {}) == {} <==> forall n :: n in was ==> !SelectedFile(env, sweep, was[n])
  {
    assert forall n :: n in was && SelectedFile(env, sweep, was[n]) <==> n in Hits(env, sweep, was, {});
  }

  /** A file `prune_expired` removes. */
  predicate ExpiredFile(parsed: Parsed, now: int)
  {
    match parsed
    case Record(c) => !Unexpired(c, now)
    case Anonymous(_, expires) => expires.Some? && expires.value < now
    case _ => false
  }

  /** The occupied slot holds a record whose type, project and paths the request keeps to. */
  predicate Narrows(reg: Registry, request: Claim)
  {
    Slot(request) in reg &&
    var was := reg[Slot(request)]; UpsertNarrows(was, request.(expires := was.expires))
  }

  lemma UpsertIsPossible(env: Env, w: Writer, world: World, request: Claim, c: Claim, ttl: int)
    requires Faithful(env, w) && NUL !in Slot(request)
    requires UpsertClaim(View(env, world.files), world.now, request, ttl) == Ok(c)
    ensures Slot(c) == Slot(request)
    ensures Storable(w, request) && Narrows(View(env, world.files), request) ==> Possible(env, world, Disk(Upsert(c), w.dump(c)))
  {
    var reg := View(env, world.files);
    SameClaimSameSlot(request, c);
    if Storable(w, request) && Narrows(reg, request) {
      UpsertKeepsStorable(w, reg, world.now, request, ttl);
      UpsertIsGuarded(reg, world.now, request, ttl);
    }
  }

  lemma UpsertKeepsStorable(w: Writer, reg: Registry, now: int, request: Claim, ttl: int)
    requires Storable(w, request) && UpsertClaim(reg, now, request, ttl).Ok?
    ensures Storable(w, UpsertClaim(reg, now, request, ttl).value)
  {
  }

  /** An edit accepted by its checks amends the record it looked up. */
  lemma AcceptedEditAmends(reg: Registry, now: int, agent: string, project: string, scope: string, edit: LaneEdit)
    requires Filed(reg) && EditLane(reg, now, agent, project, scope, edit).Ok?
    ensures var slot := ClaimFilename(agent, project, scope);
            && slot in reg && EditLane(reg, now, agent, project, scope, edit).value == Amended(reg[slot], edit, now)
            && (Ends(edit) || Held(reg[slot])) && (edit.Resume? ==> edit.session != "")
  {
    EditUpdates(reg, now, agent, project, scope, edit);
  }

  lemma LateEditIsPossible(env: Env, w: Writer, start: World, log: seq<Event>, text: Bytes, slot: string, edit: LaneEdit,
                           stamp: int)
    requires Faithful(env, w) && Sound(env, start) && Legal(env, start, log) && (edit.Resume? ==> edit.session != "")
    requires var world := Exec(env, start, log); slot in world.files && world.files[slot] == text && env.parse(text).Record?
    ensures var was := env.parse(text).claim;
            var c := Amended(was, edit, stamp);
            Ends(edit) || Held(was) ==> Possible(env, Exec(env, start, log), Disk(Rewrite(slot, c), w.amend(text, c)))
  {
    var world := Exec(env, start, log);
    RunKeepsSound(env, start, log);
    LateEditIsLegalExactly(View(env, world.files), world.now, slot, edit, stamp);
  }

  class Store {
    const env: Env
    const writer: Writer
    var files: Files
    var projection: Option<Projection>
    var clock: int
    ghost const start: World
    ghost var log: seq<Event>

    ghost function Now(): World
      reads this
    {
      World(files, projection, clock)
    }

    /** The fields are what a legal run of durable events, from a sound world, has left. */
    ghost predicate Valid()
      reads this
    {
      Faithful(env, writer) && Sound(env, start) && Legal(env, start, log) && Exec(env, start, log) == Now()
    }

    constructor (env: Env, writer: Writer, now: int)
      requires Faithful(env, writer)
      ensures Valid() && files == map[] && projection == None && clock == now && log == []
      ensures this.env == env && this.writer == writer
    {
      this.env, this.writer := env, writer;
      files, projection, clock := map[], None, now;
      start, log := World(map[], None, now), [];
    }

    ghost method Record(e: Event)
      requires Faithful(env, writer) && Sound(env, start) && Legal(env, start, log)
      requires Possible(env, Exec(env, start, log), e) && After(env, Exec(env, start, log), e) == Now()
      modifies this`log
      ensures Valid() && log == old(log) + [e]
    {
      ghost var now, longer := Now(), log + [e];
      ExecSnoc(env, start, log, e);
      assert Legal(env, start, longer) && Exec(env, start, longer) == now;
      log := longer;
      assert Now() == now;
    }

    method Advance(now: int)
      requires Valid() && now >= clock
      modifies this`clock, this`log
      ensures Valid() && clock == now && log == old(log) + [Tick(now)]
    {
      clock := now;
      Record(Tick(now));
    }

    /** One atomic replacement of a claim file. */
    method WriteClaim(step: Step, text: Bytes)
      requires Valid() && !step.Remove? && Possible(env, Now(), Disk(step, text))
      modifies this`files, this`log
      ensures Valid() && files == old(files)[FileOf(step) := text] && log == old(log) + [Disk(step, text)]
    {
      files := files[FileOf(step) := text];
      Record(Disk(step, text));
    }

    method Unlink(n: string)
      requires Valid() && NUL !in n
      modifies this`files, this`log
      ensures Valid() && files == old(files) - {n} && log == old(log) + [Disk(Remove(n), "")]
    {
      files := files - {n};
      Record(Disk(Remove(n), ""));
    }

    method UnlinkClaim(n: string)
      requires Valid() && n in files
      modifies this`files, this`log
      ensures Valid() && files == old(files) - {n} && old(log) <= log
    {
      RunKeepsSound(env, start, log);
      Unlink(n);
    }

    /** Building the projection: every file must be readable, and only live, unexpired claims are kept. */
    method BuildClaims() returns (built: Option<map<string, Projected>>)
      ensures built.Some? <==> BuildProjection(env, files, clock).Some?
      ensures built.Some? ==> built.value == BuildProjection(env, files, clock).value.claims
    {
      var found := CollectActive();
      if found.None? { return None; }
      var active := found.value;
      built := Some(map n | n in active :: Projected(active[n], env.healthy(active[n], active)));
    }

    method CollectActive() returns (found: Option<Registry>)
      ensures found.Some? <==> forall n :: n in files ==> Projectable(env.parse(files[n]), clock)
      ensures found.Some? ==> found.value == AllActive(View(env, files), clock)
    {
      var active: Registry, remaining := map[], files.Keys;
      while remaining != {}
        invariant remaining <= files.Keys
        invariant forall n :: n in files && n !in remaining ==> Projectable(env.parse(files[n]), clock)
        invariant forall n :: n in active <==> n !in remaining && n in AllActive(View(env, files), clock)
        invariant forall n :: n in active ==> active[n] == env.parse(files[n]).claim
        decreases |remaining|
      {
        var n :| n in remaining;
        match env.parse(files[n]) {
          case Malformed => return None;
          case NotMapping => return None;
          case Anonymous(live, expires) =>
            if live && !(expires.Some? && expires.value < clock) { return None; }
          case Record(c) =>
            if Unexpired(c, clock) && Live(c) { active := active[n := c]; }
        }
        remaining := remaining - {n};
      }
      assert active == AllActive(View(env, files), clock);
      found := Some(active);
    }

    method RefreshProjection() returns (ok: bool)
      requires Valid()
      modifies this`projection, this`log
      ensures Valid() && log == old(log) + [Refresh]
      ensures ok <==> BuildProjection(env, files, clock).Some?
      ensures ok ==> projection == BuildProjection(env, files, clock) && Current(Now())
      ensures !ok ==> projection == old(projection)
    {
      ok := Rebuild();
      Record(Refresh);
    }

    /** `refresh_prewrite_authority_projection`: replace the projection, or raise and leave it. */
    method Rebuild() returns (ok: bool)
      modifies this`projection
      ensures ok <==> BuildProjection(env, files, clock).Some?
      ensures ok ==> projection == BuildProjection(env, files, clock) && Current(Now())
      ensures !ok ==> projection == old(projection)
    {
      var before := HashRegistry(files);
      var built := BuildClaims();
      var after := HashRegistry(files);
      ok := built.Some? && before == after;
      if ok {
        projection := Some(Projection(after, built.value));
      }
    }

    /** One file of a sweep: rewritten if its claim is selected. */
    method SweepFile(sweep: Sweep, n: string, now: int) returns (hit: bool)
      requires Valid() && clock == now && Resolved(sweep) && n in files
      modifies this`files, this`log
      ensures Valid() && old(log) <= log
      ensures files == old(files)[n := SweptFile(env, writer, sweep, now, old(files)[n])]
      ensures hit == SelectedFile(env, sweep, old(files)[n])
    {
      hit := SelectedFile(env, sweep, files[n]);
      if hit {
        var c := env.parse(files[n]).claim;
        SweepUpdates(sweep, c, now);
        RunKeepsSound(env, start, log);
        WriteClaim(Rewrite(n, Rewritten(sweep, c, now)), writer.amend(files[n], Rewritten(sweep, c, now)));
      }
    }

    /** `heartbeat_claims`, `hydrate_missing_session_ids`, `end_session_claims` and `complete_claims_for_plan`. */
    method SweepClaims(sweep: Sweep, now: int) returns (outcome: Outcome)
      requires Valid() && now >= clock
      modifies this
      ensures Valid() && old(log) <= log && clock == (if Resolved(sweep) then now else old(clock))
      ensures outcome.Refused? <==> !Resolved(sweep)
      ensures files == if Resolved(sweep) then SweptFiles(env, writer, sweep, now, old(files)) else old(files)
      ensures Resolved(sweep) ==> View(env, files) == Swept(View(env, old(files)), sweep, now)
      ensures outcome.Untouched? || outcome.Refused? ==> files == old(files) && projection == old(projection)
      ensures outcome.Untouched? <==> Resolved(sweep) && forall n :: n in old(files) ==> !SelectedFile(env, sweep, old(files)[n])
      ensures outcome.Applied? ==> Current(Now())
      ensures outcome.Unprojected? ==> projection == old(projection) && BuildProjection(env, files, now).None?
    {
      if !Resolved(sweep) { return Refused; }
      Advance(now);
      SweptView(env, writer, sweep, now, files);
      var touched := SweepFiles(sweep, now);
      if touched {
        var ok := RefreshProjection();
        outcome := if ok then Applied else Unprojected;
      } else {
        outcome := Untouched;
      }
    }

    method SweepFiles(sweep: Sweep, now: int) returns (touched: bool)
      requires Valid() && clock == now && Resolved(sweep)
      modifies this`files, this`log
      ensures Valid() && old(log) <= log
      ensures files == SweptFiles(env, writer, sweep, now, old(files))
      ensures touched <==> exists n :: n in old(files) && SelectedFile(env, sweep, old(files)[n])
      ensures !touched ==> files == old(files)
    {
      touched := false;
      var remaining := files.Keys;
      while remaining != {}
        invariant Valid() && old(log) <= log
        invariant SweptSoFar(env, writer, sweep, now, old(files), files, remaining)
        invariant touched <==> Hits(env, sweep, old(files), remaining) != {}
        decreases |remaining|
      {
        var n :| n in remaining;
        SweepStep(env, writer, sweep, now, old(files), files, remaining, n);
        var hit := SweepFile(sweep, n, now);
        touched := touched || hit;
        remaining := remaining - {n};
      }
      SweepEnd(env, writer, sweep, now, old(files), files);
    }

    /** `prune_expired`: the files of claims past their expiry go, and nothing else changes. */
    method PruneExpired(now: int) returns (outcome: Outcome)
      requires Valid() && now >= clock
      modifies this
      ensures Valid() && old(log) <= log && clock == now
      ensures files == map n | n in old(files) && !ExpiredFile(env.parse(old(files)[n]), now) :: old(files)[n]
      ensures forall n :: n in old(files) && n !in files ==>
                match env.parse(old(files)[n])
                case Record(c) => c.expires != None && c.expires.value < now
                case Anonymous(_, expires) => expires != None && expires.value < now
                case _ => false
      ensures forall n :: n in files ==>
                match env.parse(files[n])
                case Record(c) => c.expires == None || c.expires.value >= now
                case Anonymous(_, expires) => expires == None || expires.value >= now
                case _ => true
      ensures outcome.Untouched? ==> files == old(files) && projection == old(projection)
      ensures outcome.Applied? ==> Current(Now())
      ensures outcome.Unprojected? ==> projection == old(projection) && BuildProjection(env, files, now).None?
    {
      var doomed := parsed => ExpiredFile(parsed, now);
      outcome := Prune(doomed, now);
    }

    /** `prune_stale` too, when `doomed` says which live claims Git or their heartbeat prove stale. */
    method Prune(doomed: Parsed -> bool, now: int) returns (outcome: Outcome)
      requires Valid() && now >= clock
      modifies this
      ensures Valid() && old(log) <= log && clock == now
      ensures files == map n | n in old(files) && !doomed(env.parse(old(files)[n])) :: old(files)[n]
      ensures outcome.Untouched? || outcome.Applied? || outcome.Unprojected?
      ensures outcome.Untouched? ==> files == old(files) && projection == old(projection)
      ensures outcome.Applied? ==> Current(Now())
      ensures outcome.Unprojected? ==> projection == old(projection) && BuildProjection(env, files, now).None?
    {
      Advance(now);
      var touched := PruneFiles(doomed);
      if touched {
        var ok := RefreshProjection();
        outcome := if ok then Applied else Unprojected;
      } else {
        outcome := Untouched;
      }
    }

    method PruneFiles(doomed: Parsed -> bool) returns (touched: bool)
      requires Valid()
      modifies this`files, this`log
      ensures Valid() && old(log) <= log
      ensures files == map n | n in old(files) && !doomed(env.parse(old(files)[n])) :: old(files)[n]
      ensures touched <==> files != old(files)
    {
      touched := false;
      var remaining := files.Keys;
      while remaining != {}
        invariant Valid() && old(log) <= log
        invariant remaining <= old(files).Keys && remaining <= files.Keys
        invariant forall n :: n in files <==> n in old(files) && (n in remaining || !doomed(env.parse(old(files)[n])))
        invariant forall n :: n in files ==> files[n] == old(files)[n]
        invariant touched <==> files.Keys != old(files).Keys
        decreases |remaining|
      {
        var n :| n in remaining;
        if doomed(env.parse(files[n])) {
          UnlinkClaim(n);
          touched := true;
        }
        remaining := remaining - {n};
      }
    }

    /** `_load_claims`: unexpired records, skipping what cannot be read as a claim. */
    method LoadClaims(now: int) returns (claims: Registry)
      ensures claims == Loaded(View(env, files), now)
    {
      claims := map[];
      var remaining := files.Keys;
      while remaining != {}
        invariant remaining <= files.Keys
        invariant forall n :: n in claims <==> n !in remaining && n in Loaded(View(env, files), now)
        invariant forall n :: n in claims ==> claims[n] == env.parse(files[n]).claim
        decreases |remaining|
      {
        var n :| n in remaining;
        match env.parse(files[n]) {
          case Record(c) => if Unexpired(c, now) { claims := claims[n := c]; }
          case _ =>
        }
        remaining := remaining - {n};
      }
    }

    /** The tests of `create_claim`, in order; an unreadable file in the slot raises without a refusal. */
    method CheckCandidate(candidate: Claim, now: int) returns (refused: bool, refusal: Option<Refusal>)
      ensures var unreadable := Slot(candidate) in files && env.parse(files[Slot(candidate)]).Malformed?;
              var verdict := AdmitClaim(View(env, files), now, candidate);
              && (refused <==> unreadable || verdict.Err?)
              && (refusal.Some? ==> refused && verdict == Err(refusal.value))
              && (refused && !unreadable ==> refusal.Some?)
    {
      var slot := Slot(candidate);
      if MetadataBlocksCreation(candidate) { return true, Some(MissingMetadata); }
      if slot in files {
        match env.parse(files[slot]) {
          case Malformed => return true, None;
          case Record(existing) =>
            if existing.status.SessionEnded? { return true, Some(SlotPreserved); }
          case _ =>
        }
      }
      refusal := CheckOthers(candidate, now);
      refused := refusal.Some?;
    }

    /** The tests against the other claims, once metadata and slot have passed. */
    method CheckOthers(candidate: Claim, now: int) returns (refusal: Option<Refusal>)
      requires !MetadataBlocksCreation(candidate)
      requires Slot(candidate) in View(env, files) ==> !View(env, files)[Slot(candidate)].status.SessionEnded?
      ensures AdmitClaim(View(env, files), now, candidate) == if refusal.Some? then Err(refusal.value) else Ok(())
    {
      var project := PrimaryProject(candidate);
      var loaded := LoadClaims(now);
      var live: Registry := map n | n in loaded && Live(loaded[n]) :: loaded[n];
      var active: Registry := map n | n in live && project in live[n].projects :: live[n];
      assert active == ActiveIn(View(env, files), now, project);
      assert live == AllActive(View(env, files), now);
      if PreservedLaneConflicts(candidate, loaded) != {} { return Some(PreservedLane); }
      if HierarchyIssues(candidate, Prospective(candidate, active)) != {} { return Some(BadHierarchy); }
      if SessionRootConflicts(candidate, live) != {} && !candidate.parallelRoot { return Some(SessionHasRoot); }
      if HardConflicts(EvaluateClaim(candidate, active)) != {} { return Some(PathConflict); }
      return None;
    }

    /** `create_claim`, from its lock to its projection refresh; the run stays legal when the record is in normal form. */
    method CreateClaim(candidate: Claim, now: int) returns (outcome: Outcome, refusal: Option<Refusal>)
      requires Valid() && now >= clock && |candidate.projects| == 1 && NUL !in Slot(candidate)
      modifies this
      ensures clock == now
      ensures Storable(writer, candidate) || outcome.Refused? ==> Valid() && old(log) <= log
      ensures var unreadable := Slot(candidate) in old(files) && env.parse(old(files)[Slot(candidate)]).Malformed?;
              var verdict := AdmitClaim(View(env, old(files)), now, candidate);
              && (outcome.Refused? <==> unreadable || verdict.Err?)
              && (refusal.Some? ==> verdict == Err(refusal.value))
              && (outcome.Refused? && !unreadable ==> refusal.Some?)
      ensures outcome.Refused? ==> files == old(files) && projection == old(projection)
      ensures !outcome.Refused? ==> files == old(files)[Slot(candidate) := writer.dump(candidate)]
      ensures outcome.Applied? ==> Current(Now())
      ensures outcome.Unprojected? ==> projection == old(projection) && BuildProjection(env, files, now).None?
      ensures !outcome.Untouched?
    {
      Advance(now);
      var refused: bool;
      refused, refusal := CheckCandidate(candidate, now);
      if refused { return Refused, refusal; }
      outcome := Replace(Slot(candidate), writer.dump(candidate), Admit(candidate), Storable(writer, candidate));
    }

    /** `release_claim`: unlink the named file; one that cannot be read raises first. */
    method ReleaseClaim(agent: string, project: string, scope: string) returns (outcome: Outcome)
      requires Valid() && NUL !in ClaimFilename(agent, project, scope)
      modifies this
      ensures Valid() && old(log) <= log && clock == old(clock)
      ensures var slot := ClaimFilename(agent, project, scope);
              && (outcome.Untouched? <==> slot !in old(files))
              && (outcome.Refused? <==> slot in old(files) && env.parse(old(files)[slot]).Malformed?)
              && files == if outcome.Refused? then old(files) else old(files) - {slot}
      ensures outcome.Untouched? || outcome.Refused? ==> projection == old(projection)
      ensures outcome.Applied? ==> Current(Now())
      ensures outcome.Unprojected? ==> projection == old(projection) && BuildProjection(env, files, clock).None?
    {
      var slot := ClaimFilename(agent, project, scope);
      if slot !in files {
        assert files == files - {slot};
        return Untouched;
      }
      if env.parse(files[slot]).Malformed? { return Refused; }
      Unlink(slot);
      var ok := RefreshProjection();
      outcome := if ok then Applied else Unprojected;
    }

    /** `resume_session`, `handoff_session`, `finish_session`, `abandon_session` and the two writes of `close_session`, undisturbed. */
    method EditSession(agent: string, project: string, scope: string, edit: LaneEdit, now: int) returns (outcome: Outcome)
      requires Valid() && now >= clock
      modifies this
      ensures Valid() && old(log) <= log && clock == now
      ensures var slot := ClaimFilename(agent, project, scope);
              var edited := EditLane(View(env, old(files)), now, agent, project, scope, edit);
              && (outcome.Refused? <==> edited.Err?)
              && (edited.Ok? ==> slot in old(files) && files == old(files)[slot := writer.amend(old(files)[slot], edited.value)])
              && (edited.Err? ==> files == old(files))
      ensures outcome.Refused? ==> projection == old(projection)
      ensures outcome.Applied? ==> Current(Now())
      ensures outcome.Unprojected? ==> projection == old(projection) && BuildProjection(env, files, now).None?
      ensures !outcome.Untouched?
    {
      Advance(now);
      var slot := ClaimFilename(agent, project, scope);
      var edited := EditLane(View(env, files), now, agent, project, scope, edit);
      if edited.Err? { return Refused; }
      RunKeepsSound(env, start, log);
      AcceptedEditAmends(View(env, files), now, agent, project, scope, edit);
      outcome := ApplyUpdates(slot, edit, now);
    }

    /** The record found under the lock is still held, or the edit ends it anyway. */
    ghost predicate StillOpen(slot: string, edit: LaneEdit)
      reads this
    {
      slot in View(env, files) ==> Ends(edit) || Held(View(env, files)[slot])
    }

    /** `_apply_claim_payload_updates`: whatever the checks saw before the lock, the record found under it is amended. */
    method ApplyUpdates(slot: string, edit: LaneEdit, stamp: int) returns (outcome: Outcome)
      requires Valid() && (edit.Resume? ==> edit.session != "")
      requires slot in files ==> !env.parse(files[slot]).Anonymous?
      modifies this`files, this`projection, this`log
      ensures outcome.Refused? <==> slot !in View(env, old(files))
      ensures files == if outcome.Refused? then old(files)
                       else old(files)[slot := writer.amend(old(files)[slot], Amended(View(env, old(files))[slot], edit, stamp))]
      ensures old(StillOpen(slot, edit)) ==> Valid() && old(log) <= log
      ensures outcome.Refused? ==> projection == old(projection)
      ensures outcome.Applied? ==> Current(Now())
      ensures outcome.Unprojected? ==> projection == old(projection) && BuildProjection(env, files, clock).None?
      ensures !outcome.Untouched?
    {
      if slot !in files { return Refused; }
      var found := env.parse(files[slot]);
      if !found.Record? { return Refused; }
      var c := Amended(found.claim, edit, stamp);
      LateEditIsPossible(env, writer, start, log, files[slot], slot, edit, stamp);
      outcome := Replace(slot, writer.amend(files[slot], c), Rewrite(slot, c), Ends(edit) || Held(found.claim));
    }

    /** `close_session`: the record was read from `source` before the lock, and is written back as ended. */
    method WriteBack(source: Bytes, ended: Claim, now: int) returns (outcome: Outcome)
      requires Valid() && now >= clock && NUL !in Slot(ended)
      requires env.parse(source).Record? && Amends(env.parse(source).claim, ended) && |ended.projects| == 1 && !Held(ended)
      modifies this
      ensures Valid() && old(log) <= log && clock == now
      ensures files == old(files)[Slot(ended) := writer.amend(source, ended)]
      ensures outcome.Applied? || outcome.Unprojected?
      ensures outcome.Applied? ==> Current(Now())
      ensures outcome.Unprojected? ==> projection == old(projection)
      ensures outcome.Unprojected? ==> BuildProjection(env, files, now).None?
    {
      Advance(now);
      WriteClaim(Retire(ended), writer.amend(source, ended));
      var ok := RefreshProjection();
      outcome := if ok then Applied else Unprojected;
    }

    /** The record a first upsert creates. */
    function FirstClaim(request: Claim, ttl: int, now: int): Claim
    {
      request.(status := Active, heartbeat := Some(now), expires := Some(now + ttl))
    }

    /** The request keeps to what the occupied slot holds, or the slot is free. */
    predicate Guarded(request: Claim)
      reads this
    {
      Slot(request) in files ==> Narrows(View(env, files), request)
    }

    /** `_upsert_session_claim`: a create on a free slot; otherwise a refresh, which keeps the run legal under the guard. */
    method UpsertSession(request: Claim, ttl: int, now: int) returns (outcome: Outcome)
      requires Valid() && now >= clock && |request.projects| == 1 && NUL !in Slot(request)
      modifies this
      ensures (Storable(writer, request) && old(Guarded(request))) || outcome.Refused? ==> Valid() && old(log) <= log
      ensures clock == now && !outcome.Untouched?
      ensures Slot(request) in old(files) ==>
                var upserted := UpsertClaim(View(env, old(files)), now, request, ttl);
                && (outcome.Refused? <==> upserted.Err?)
                && files == if upserted.Ok? then old(files)[Slot(request) := writer.dump(upserted.value)] else old(files)
      ensures Slot(request) !in old(files) ==>
                && (outcome.Refused? <==> AdmitClaim(View(env, old(files)), now, FirstClaim(request, ttl, now)).Err?)
                && files == if outcome.Refused? then old(files)
                            else old(files)[Slot(request) := writer.dump(FirstClaim(request, ttl, now))]
      ensures outcome.Refused? ==> projection == old(projection)
      ensures outcome.Applied? ==> Current(Now())
      ensures outcome.Unprojected? ==> projection == old(projection) && BuildProjection(env, files, now).None?
    {
      if Slot(request) !in files {
        var refusal;
        outcome, refusal := CreateClaim(FirstClaim(request, ttl, now), now);
        return;
      }
      Advance(now);
      var upserted := UpsertClaim(View(env, files), now, request, ttl);
      if upserted.Err? { return Refused; }
      UpsertIsPossible(env, writer, Now(), request, upserted.value, ttl);
      outcome := Replace(Slot(request), writer.dump(upserted.value), Upsert(upserted.value),
                         Storable(writer, request) && Guarded(request));
    }

    /** A replacement and its refresh, recorded as events of the run when the replacement is a legal one. */
    method Replace(n: string, text: Bytes, ghost step: Step, ghost legal: bool) returns (outcome: Outcome)
      requires Valid() && !step.Remove? && FileOf(step) == n
      requires legal ==> Possible(env, Now(), Disk(step, text))
      modifies this`files, this`projection, this`log
      ensures legal ==> Valid() && old(log) <= log
      ensures files == old(files)[n := text]
      ensures outcome.Applied? || outcome.Unprojected?
      ensures outcome.Applied? ==> Current(Now())
      ensures outcome.Unprojected? ==> projection == old(projection)
      ensures outcome.Unprojected? ==> BuildProjection(env, files, clock).None?
    {
      files := files[n := text];
      if legal { Record(Disk(step, text)); }
      var ok := Rebuild();
      if legal { Record(Refresh); }
      outcome := if ok then Applied else Unprojected;
    }
  }
}
