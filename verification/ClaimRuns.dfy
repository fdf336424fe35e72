/** Runs of the claim registry and its projection, one durable write at a time, crashes included. */
module ClaimRuns {
  import opened Wrappers
  import opened Claims
  import opened ClaimProtocol
  import opened RegistryDigest
  import opened PrewriteGate
  import opened GateMeaning

  datatype World = World(files: Files, projection: Option<Projection>, now: int)

  /**
   * A durable event: time passing, one claim-file change with the text it leaves, or one projection refresh.
   * An operation is a few of these in a row; a crash is an operation whose remaining events never come.
   */
  datatype Event = Tick(at: int) | Disk(step: Step, text: Bytes) | Refresh

  function FileOf(step: Step): string
  {
    match step
    case Rewrite(n, _) => n
    case Remove(n) => n
    case Admit(c) => Slot(c)
    case Upsert(c) => Slot(c)
    case Retire(c) => Slot(c)
  }

  function OnDisk(files: Files, step: Step, text: Bytes): Files
  {
    if step.Remove? then files - {step.name} else files[FileOf(step) := text]
  }

  /** The text written reads back as the record, and holds no NUL. */
  predicate ReadsBack(env: Env, step: Step, text: Bytes)
  {
    step.Remove? || (env.parse(text) == Record(step.claim) && NUL !in text)
  }

  ghost predicate Possible(env: Env, w: World, e: Event)
  {
    match e
    case Tick(at) => at >= w.now
    case Disk(step, text) =>
      Allowed(View(env, w.files), w.now, step) && NUL !in FileOf(step) && ReadsBack(env, step, text)
    case Refresh => true
  }

  ghost function After(env: Env, w: World, e: Event): World
  {
    match e
    case Tick(at) => w.(now := at)
    case Disk(step, text) => w.(files := OnDisk(w.files, step, text))
    case Refresh =>
      var built := BuildProjection(env, w.files, w.now);
      if built.Some? then w.(projection := built) else w
  }

  ghost function Exec(env: Env, start: World, events: seq<Event>): World
  {
    if events == [] then start
    else After(env, Exec(env, start, events[..|events| - 1]), events[|events| - 1])
  }

  ghost predicate Legal(env: Env, start: World, events: seq<Event>)
  {
    events == [] ||
    (Legal(env, start, events[..|events| - 1])
     && Possible(env, Exec(env, start, events[..|events| - 1]), events[|events| - 1]))
  }

  lemma ExecSnoc(env: Env, start: World, events: seq<Event>, e: Event)
    requires Legal(env, start, events) && Possible(env, Exec(env, start, events), e)
    ensures Legal(env, start, events + [e])
    ensures Exec(env, start, events + [e]) == After(env, Exec(env, start, events), e)
  {
    assert (events + [e])[..|events|] == events;
  }

  // ---------------------------------------------------------------------
  // What every run keeps

  /** The stored projection was built, whole, from some registry no later than now. */
  ghost predicate Honest(env: Env, w: World)
  {
    w.projection.Some? ==>
      exists files0, built :: NulFree(files0) && built <= w.now && BuildProjection(env, files0, built) == w.projection
  }

  ghost predicate Sound(env: Env, w: World)
  {
    NulFree(w.files) && Filed(View(env, w.files)) && Exclusive(View(env, w.files), w.now) && Honest(env, w)
  }

  lemma EmptyIsSound(env: Env, now: int)
    ensures Sound(env, World(map[], None, now))
  {
  }

  lemma ViewAfterStep(env: Env, files: Files, step: Step, text: Bytes)
    requires ReadsBack(env, step, text)
    ensures View(env, OnDisk(files, step, text)) == Apply(View(env, files), step)
  {
    if step.Remove? {
      ViewAfterUnlink(env, files, step.name);
    } else {
      ViewAfterWrite(env, files, FileOf(step), text, step.claim);
    }
  }

  lemma HonestAfter(env: Env, w: World, e: Event)
    requires NulFree(w.files) && Honest(env, w) && Possible(env, w, e)
    ensures Honest(env, After(env, w, e))
  {
    if !e.Refresh? && w.projection.Some? {
      var files0, built :| NulFree(files0) && built <= w.now && BuildProjection(env, files0, built) == w.projection;
      assert BuildProjection(env, files0, built) == After(env, w, e).projection;
    }
  }

  lemma EventKeepsSound(env: Env, w: World, e: Event)
    requires Sound(env, w) && Possible(env, w, e)
    ensures Sound(env, After(env, w, e))
  {
    HonestAfter(env, w, e);
    match e
    case Tick(at) => ExclusionOutlivesTime(View(env, w.files), w.now, at);
    case Disk(step, text) => DiskKeepsSound(env, w, step, text);
    case Refresh =>
  }

  lemma DiskKeepsSound(env: Env, w: World, step: Step, text: Bytes)
    requires Sound(env, w) && Possible(env, w, Disk(step, text))
    ensures var files := OnDisk(w.files, step, text);
            NulFree(files) && Filed(View(env, files)) && Exclusive(View(env, files), w.now)
  {
    ViewAfterStep(env, w.files, step, text);
    StepKeepsExclusion(View(env, w.files), w.now, step);
    StepKeepsFiled(View(env, w.files), w.now, step);
  }

  /** Exclusion, filing and an honest projection hold after every event of every run. */
  lemma {:induction false} RunKeepsSound(env: Env, start: World, events: seq<Event>)
    requires Sound(env, start) && Legal(env, start, events)
    ensures Sound(env, Exec(env, start, events))
  {
    if events != [] {
      var before := events[..|events| - 1];
      RunKeepsSound(env, start, before);
      EventKeepsSound(env, Exec(env, start, before), events[|events| - 1]);
    }
  }

  /** Runs without upserts that admit only live claims. */
  predicate Rooted(events: seq<Event>)
  {
    forall e :: e in events ==> (e.Disk? ==> !e.step.Upsert? && (e.step.Admit? ==> Live(e.step.claim)))
  }

  /** From an empty registry, such a run never gives one plan two roots. */
  lemma {:induction false} RunKeepsOneRoot(env: Env, start: World, events: seq<Event>)
    requires start.files == map[] && Sound(env, start)
    requires Legal(env, start, events) && Rooted(events)
    ensures var w := Exec(env, start, events);
            Sessioned(View(env, w.files)) && OneRootPerPlan(View(env, w.files), w.now)
  {
    if events != [] {
      var before, e := events[..|events| - 1], events[|events| - 1];
      assert e in events && forall x :: x in before ==> x in events;
      RunKeepsOneRoot(env, start, before);
      RunKeepsSound(env, start, before);
      var w := Exec(env, start, before);
      if e.Disk? {
        ViewAfterStep(env, w.files, e.step, e.text);
        StepKeepsOneRoot(View(env, w.files), w.now, e.step);
      } else if e.Tick? {
        assert forall n :: Holds(View(env, w.files), e.at, n) ==> Holds(View(env, w.files), w.now, n);
      }
    }
  }

  // ---------------------------------------------------------------------
  // The gate over runs

  /** The stored projection is bound to the registry as it stands. */
  ghost predicate Current(w: World)
  {
    w.projection.Some? && w.projection.value.digest == DigestOf(w.files)
  }

  /** Whatever happened, an enforcing gate allows only through one exact live claim of the current registry. */
  lemma AllowedInRun(env: Env, start: World, events: seq<Event>, m: Moment, r: Request) returns (n: string)
    requires Sound(env, start) && Legal(env, start, events)
    requires m.now == Exec(env, start, events).now
    requires var w := Exec(env, start, events); Decide(w.projection, w.files, m, Enforce, r).verdict.Allow?
    ensures var w := Exec(env, start, events); var reg := View(env, w.files);
            && Current(w) && ExactLive(reg, w.now, r) == {n} && n in reg
            && AllCovered(r, reg[n]) && FreshNow(reg[n], m)
            && OwnLane(reg, w.now, r, n) && forall k :: OwnLane(reg, w.now, r, k) ==> k == n
  {
    RunKeepsSound(env, start, events);
    var w := Exec(env, start, events);
    var files0, built :| NulFree(files0) && built <= w.now && BuildProjection(env, files0, built) == w.projection;
    n := OwnerIsExact(env, files0, built, w.files, m, r);
  }

  /** Once the files differ from those the projection was built from, an enforcing gate denies everything. */
  lemma ChangedRegistryDenies(env: Env, files0: Files, built: int, files: Files, m: Moment, r: Request)
    requires NulFree(files0) && NulFree(files) && files != files0
    ensures Decide(BuildProjection(env, files0, built), files, m, Enforce, r) == Decision(Deny, ProjectionStale)
  {
    DigestInjective(files0, files);
  }

  lemma StaleExactly(stored: Option<Projection>, files: Files, m: Moment, r: Request)
    requires stored.Some?
    ensures Decide(stored, files, m, Enforce, r) == Decision(Deny, ProjectionStale)
       <==> stored.value.digest != DigestOf(files)
  {
  }

  /** Without a refresh the projection stays what it was. */
  lemma {:induction false} UnrefreshedKeepsProjection(env: Env, start: World, events: seq<Event>)
    requires forall e :: e in events ==> !e.Refresh?
    ensures Exec(env, start, events).projection == start.projection
  {
    if events != [] {
      var before, e := events[..|events| - 1], events[|events| - 1];
      assert e in events && forall x :: x in before ==> x in events;
      UnrefreshedKeepsProjection(env, start, before);
    }
  }

  /**
   * After a refresh, any run of writes cut short before the next refresh is denied exactly while
   * the files differ from those refreshed.
   */
  lemma InterruptedWritesDeny(env: Env, refreshed: World, events: seq<Event>, m: Moment, r: Request)
    requires Sound(env, refreshed) && Legal(env, refreshed, events)
    requires refreshed.projection == BuildProjection(env, refreshed.files, refreshed.now)
    requires refreshed.projection.Some?
    requires forall e :: e in events ==> !e.Refresh?
    ensures var w := Exec(env, refreshed, events);
            (Decide(w.projection, w.files, m, Enforce, r) == Decision(Deny, ProjectionStale)) <==> w.files != refreshed.files
  {
    var w := Exec(env, refreshed, events);
    RunKeepsSound(env, refreshed, events);
    UnrefreshedKeepsProjection(env, refreshed, events);
    DigestInjective(refreshed.files, w.files);
    StaleExactly(w.projection, w.files, m, r);
  }

  /** A refresh binds the projection exactly when every file can be projected. */
  lemma RefreshBinds(env: Env, w: World)
    ensures BuildProjection(env, w.files, w.now).Some? ==> Current(After(env, w, Refresh))
    ensures BuildProjection(env, w.files, w.now) == None ==> After(env, w, Refresh) == w
    ensures BuildProjection(env, w.files, w.now).Some?
       <==> forall n :: n in w.files ==> CanProject(env.parse(w.files[n]), w.now)
  {
    forall n | n in w.files
      ensures Projectable(env.parse(w.files[n]), w.now) <==> CanProject(env.parse(w.files[n]), w.now)
    {
    }
  }

  /** A record, or a mapping that is no claim and is not live or has expired; nothing unreadable. */
  predicate CanProject(parsed: Parsed, now: int)
  {
    parsed.Record? || (parsed.Anonymous? && (!parsed.live || (parsed.expires != None && parsed.expires.value < now)))
  }

  // ---------------------------------------------------------------------
  // End-to-end exclusion

  ghost predicate DisciplinedEvent(e: Event, projectOf: string -> string)
  {
    e.Disk? && (e.step.Admit? || e.step.Upsert?) ==> Disciplined(e.step.claim, projectOf)
  }

  ghost predicate DisciplinedHolders(reg: Registry, projectOf: string -> string)
  {
    forall n :: n in reg && Held(reg[n]) ==> Disciplined(reg[n], projectOf)
  }

  lemma {:induction false} RunKeepsDiscipline(env: Env, start: World, events: seq<Event>, projectOf: string -> string)
    requires Legal(env, start, events)
    requires DisciplinedHolders(View(env, start.files), projectOf)
    requires forall e :: e in events ==> DisciplinedEvent(e, projectOf)
    ensures DisciplinedHolders(View(env, Exec(env, start, events).files), projectOf)
  {
    if events != [] {
      var before, e := events[..|events| - 1], events[|events| - 1];
      assert e in events && forall x :: x in before ==> x in events;
      RunKeepsDiscipline(env, start, before, projectOf);
      if e.Disk? {
        ViewAfterStep(env, Exec(env, start, before).files, e.step, e.text);
      }
    }
  }

  /** In no reachable state does the enforcing gate allow two agents to write one path of one repository. */
  lemma NoTwoAgentsAllowed(env: Env, start: World, events: seq<Event>, projectOf: string -> string,
                           m1: Moment, r1: Request, m2: Moment, r2: Request, target: string)
    requires Sound(env, start) && Legal(env, start, events)
    requires DisciplinedHolders(View(env, start.files), projectOf)
    requires forall e :: e in events ==> DisciplinedEvent(e, projectOf)
    requires m1.now == m2.now == Exec(env, start, events).now
    requires r1.client != r2.client && r1.repoRoot == r2.repoRoot
    requires target in r1.targets && target in r2.targets
    ensures var w := Exec(env, start, events);
            !(Decide(w.projection, w.files, m1, Enforce, r1).verdict.Allow?
              && Decide(w.projection, w.files, m2, Enforce, r2).verdict.Allow?)
  {
    var w := Exec(env, start, events);
    if Decide(w.projection, w.files, m1, Enforce, r1).verdict.Allow?
       && Decide(w.projection, w.files, m2, Enforce, r2).verdict.Allow? {
      var n1 := AllowedInRun(env, start, events, m1, r1);
      var n2 := AllowedInRun(env, start, events, m2, r2);
      RunKeepsSound(env, start, events);
      RunKeepsDiscipline(env, start, events, projectOf);
      TwoOwnersClash(View(env, w.files), w.now, n1, r1, n2, r2, target, projectOf);
    }
  }

  /** The same from an empty registry, where nothing need be asked of the start. */
  lemma NoTwoAgentsFromEmpty(env: Env, now: int, events: seq<Event>, projectOf: string -> string,
                             m1: Moment, r1: Request, m2: Moment, r2: Request, target: string)
    requires Legal(env, World(map[], None, now), events)
    requires forall e :: e in events ==> DisciplinedEvent(e, projectOf)
    requires m1.now == m2.now == Exec(env, World(map[], None, now), events).now
    requires r1.client != r2.client && r1.repoRoot == r2.repoRoot
    requires target in r1.targets && target in r2.targets
    ensures var w := Exec(env, World(map[], None, now), events);
            !(Decide(w.projection, w.files, m1, Enforce, r1).verdict.Allow?
              && Decide(w.projection, w.files, m2, Enforce, r2).verdict.Allow?)
  {
    EmptyIsSound(env, now);
    NoTwoAgentsAllowed(env, World(map[], None, now), events, projectOf, m1, r1, m2, r2, target);
  }

  /** The file holds, for someone other than `client`, an unexpired claim of this repository that covers the target. */
  ghost predicate ForeignHold(reg: Registry, now: int, n: string, client: string, repoRoot: string, target: string)
  {
    Holds(reg, now, n) && reg[n].agent != client && reg[n].contract.repoRoot == repoRoot && Covered(target, reg[n])
  }

  /** An allowed target is covered by no other agent's unexpired claim, live or preserved. */
  lemma AllowedIsUncontested(env: Env, start: World, events: seq<Event>, projectOf: string -> string,
                             m: Moment, r: Request, target: string, n: string)
    requires Sound(env, start) && Legal(env, start, events)
    requires DisciplinedHolders(View(env, start.files), projectOf)
    requires forall e :: e in events ==> DisciplinedEvent(e, projectOf)
    requires m.now == Exec(env, start, events).now && target in r.targets
    requires var w := Exec(env, start, events); Decide(w.projection, w.files, m, Enforce, r).verdict.Allow?
    ensures var w := Exec(env, start, events); !ForeignHold(View(env, w.files), w.now, n, r.client, r.repoRoot, target)
  {
    var w := Exec(env, start, events);
    var reg := View(env, w.files);
    var own := AllowedInRun(env, start, events, m, r);
    RunKeepsSound(env, start, events);
    RunKeepsDiscipline(env, start, events, projectOf);
    if ForeignHold(reg, w.now, n, r.client, r.repoRoot, target) {
      SharedTargetConflicts(reg[own], reg[n], target, projectOf);
      assert Holds(reg, w.now, own);
      assert false;
    }
  }

  lemma LegalPrefix(env: Env, start: World, before: seq<Event>, after: seq<Event>)
    requires Legal(env, start, before + after)
    ensures Legal(env, start, before)
  {
    if after == [] {
      assert before + after == before;
    } else {
      assert (before + after)[..|before + after| - 1] == before + after[..|after| - 1];
      LegalPrefix(env, start, before, after[..|after| - 1]);
    }
  }

  /**
   * At two points of one run the gate may allow two agents one path, but only when by the second point the claim
   * that carried the first allow has gone: removed, ended, expired, or without the path.
   */
  lemma LaterAllowMeansFirstIsGone(env: Env, start: World, before: seq<Event>, after: seq<Event>, projectOf: string -> string,
                                   m1: Moment, r1: Request, m2: Moment, r2: Request, target: string) returns (n: string)
    requires Sound(env, start) && Legal(env, start, before + after)
    requires DisciplinedHolders(View(env, start.files), projectOf)
    requires forall e :: e in before + after ==> DisciplinedEvent(e, projectOf)
    requires m1.now == Exec(env, start, before).now && m2.now == Exec(env, start, before + after).now
    requires r1.client != r2.client && r1.repoRoot == r2.repoRoot && target in r1.targets && target in r2.targets
    requires var w := Exec(env, start, before); Decide(w.projection, w.files, m1, Enforce, r1).verdict.Allow?
    requires var w := Exec(env, start, before + after); Decide(w.projection, w.files, m2, Enforce, r2).verdict.Allow?
    ensures var w1, w2 := Exec(env, start, before), Exec(env, start, before + after);
            && ForeignHold(View(env, w1.files), w1.now, n, r2.client, r2.repoRoot, target)
            && !ForeignHold(View(env, w2.files), w2.now, n, r2.client, r2.repoRoot, target)
  {
    LegalPrefix(env, start, before, after);
    n := AllowedInRun(env, start, before, m1, r1);
    AllowedIsUncontested(env, start, before + after, projectOf, m2, r2, target, n);
  }

  lemma TwoOwnersClash(reg: Registry, now: int, n1: string, r1: Request, n2: string, r2: Request, target: string,
                       projectOf: string -> string)
    requires n1 in ExactLive(reg, now, r1) && n2 in ExactLive(reg, now, r2)
    requires AllCovered(r1, reg[n1]) && AllCovered(r2, reg[n2])
    requires target in r1.targets && target in r2.targets
    requires r1.client != r2.client && r1.repoRoot == r2.repoRoot
    requires DisciplinedHolders(reg, projectOf)
    ensures !Exclusive(reg, now)
  {
    SharedTargetConflicts(reg[n1], reg[n2], target, projectOf);
    assert Holds(reg, now, n1) && Holds(reg, now, n2);
  }
}
