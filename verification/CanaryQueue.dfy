/** The one-worker bounded queue, at the grain of its await points. */
module CanaryQueue {
  import opened Wrappers

  type JobId = nat

  datatype Item = Job(id: JobId) | Stop

  datatype Worker = NotStarted | Idle | Running(job: JobId) | Stopped

  datatype Status = Succeeded | Failed | Cancelled

  /** What the submitter of a job waits on. */
  datatype Future = Pending | Settled | Withdrawn

  datatype Tally = Tally(succeeded: nat, failed: nat, cancelled: nat, abandoned: nat, rejected: nat)

  /**
   * Jobs are numbered as they are accepted. `line` holds the puts asleep for want of room, in order, and `woken`
   * those a freed slot has woken but that have not run again. `entered` and `taken` record everything ever put
   * and got, `settled` every completion.
   */
  datatype State = State(
    maxJobs: Option<nat>, size: nat,
    closed: bool, worker: Worker, accepted: nat, line: seq<Item>, woken: seq<Item>, queue: seq<Item>, tally: Tally,
    futures: map<JobId, Future>, entered: seq<Item>, taken: seq<Item>, settled: seq<JobId>)

  datatype Step =
    | Submit
    | Close(puts: bool)
    | Take
    | Resume
    | Finish(status: Status)
    | LeaveLine(at: nat)
    | LeaveWoken(at: nat)
    | LeaveAwaiting(job: JobId)

  function Empty(maxJobs: Option<nat>, size: nat): State
  {
    State(maxJobs, size, false, NotStarted, 0, [], [], [], Tally(0, 0, 0, 0, 0), map[], [], [], [])
  }

  predicate Full(s: State)
  {
    |s.queue| >= s.size
  }

  predicate QuotaUsed(s: State)
  {
    s.maxJobs.Some? && s.accepted >= s.maxJobs.value
  }

  /** A submission to a closed queue raises; a stop is put only for a started worker, and always while it runs. */
  predicate Enabled(s: State, step: Step)
  {
    match step
    case Submit => !s.closed
    case Close(puts) => (puts ==> !s.worker.NotStarted?) && (!puts ==> s.worker.NotStarted? || s.worker.Stopped?)
    case Take => s.worker.Idle? && s.queue != []
    case Resume => s.woken != []
    case Finish(_) => s.worker.Running?
    case LeaveLine(at) => at < |s.line|
    case LeaveWoken(at) => at < |s.woken|
    case LeaveAwaiting(job) =>
      job in s.futures && s.futures[job].Pending? && Job(job) !in s.line && Job(job) !in s.woken
  }

  function Counted(t: Tally, status: Status): Tally
  {
    match status
    case Succeeded => t.(succeeded := t.succeeded + 1)
    case Failed => t.(failed := t.failed + 1)
    case Cancelled => t.(cancelled := t.cancelled + 1)
  }

  /** An attempt to put: into the queue when there is room, to the end of the line when there is not. */
  function Offer(s: State, item: Item): State
  {
    if Full(s) then s.(line := s.line + [item])
    else s.(queue := s.queue + [item], entered := s.entered + [item])
  }

  /** An accepted submission, before its put. */
  function Accepted(s: State): State
  {
    s.(worker := if s.worker.NotStarted? then Idle else s.worker,
       accepted := s.accepted + 1, futures := s.futures[s.accepted := Pending])
  }

  function Rejected(s: State): State
  {
    s.(worker := if s.worker.NotStarted? then Idle else s.worker,
       tally := s.tally.(rejected := s.tally.rejected + 1))
  }

  function Submitted(s: State): State
  {
    if QuotaUsed(s) then Rejected(s) else Offer(Accepted(s), Job(s.accepted))
  }

  function Closing(s: State): State
  {
    s.(closed := true)
  }

  /** A free slot wakes the first put in line. */
  function Wake(s: State): State
  {
    if s.line == [] then s else s.(woken := s.woken + [s.line[0]], line := s.line[1..])
  }

  /** The queue after the worker got its next item, before anyone is woken. */
  function Got(s: State): State
    requires s.queue != []
  {
    var item := s.queue[0];
    s.(queue := s.queue[1..], taken := s.taken + [item], worker := if item.Stop? then Stopped else Running(item.id))
  }

  function Taken(s: State): State
    requires s.queue != []
  {
    Wake(Got(s))
  }

  /** The put that runs again leaves the woken. */
  function Unwoken(s: State): State
    requires s.woken != []
  {
    s.(woken := s.woken[1..])
  }

  function Resumed(s: State): State
    requires s.woken != []
  {
    Offer(Unwoken(s), s.woken[0])
  }

  function Finished(s: State, status: Status): State
    requires s.worker.Running?
  {
    var job := s.worker.job;
    var done := s.(tally := Counted(s.tally, status), worker := Idle);
    if job in s.futures && s.futures[job].Pending?
    then done.(futures := s.futures[job := Settled], settled := s.settled + [job])
    else done
  }

  function Without(items: seq<Item>, at: nat): seq<Item>
    requires at < |items|
  {
    items[..at] + items[at + 1..]
  }

  /** A put that is cancelled while it waits leaves for good. */
  function Abandoned(s: State, item: Item): State
  {
    match item
    case Stop => s
    case Job(job) => s.(tally := s.tally.(abandoned := s.tally.abandoned + 1), futures := s.futures[job := Withdrawn])
  }

  function LeftLine(s: State, at: nat): State
    requires at < |s.line|
  {
    Abandoned(s.(line := Without(s.line, at)), s.line[at])
  }

  function OutOfWoken(s: State, at: nat): State
    requires at < |s.woken|
  {
    Abandoned(s.(woken := Without(s.woken, at)), s.woken[at])
  }

  /** One that had been woken passes its slot on. */
  function LeftWoken(s: State, at: nat): State
    requires at < |s.woken|
  {
    if Full(s) then OutOfWoken(s, at) else Wake(OutOfWoken(s, at))
  }

  function Apply(s: State, step: Step): State
    requires Enabled(s, step)
  {
    match step
    case Submit => Submitted(s)
    case Close(puts) => if puts then Offer(Closing(s), Stop) else Closing(s)
    case Take => Taken(s)
    case Resume => Resumed(s)
    case Finish(status) => Finished(s, status)
    case LeaveLine(at) => LeftLine(s, at)
    case LeaveWoken(at) => LeftWoken(s, at)
    case LeaveAwaiting(job) => s.(futures := s.futures[job := Withdrawn])
  }

  // ---------------------------------------------------------------------
  // Counting jobs

  /** How many jobs the items hold. */
  function NumJobs(items: seq<Item>): nat
  {
    if items == [] then 0 else NumJobs(items[..|items| - 1]) + if items[|items| - 1].Job? then 1 else 0
  }

  /** How often job `j` is among the items. */
  function Times(items: seq<Item>, j: JobId): nat
  {
    if items == [] then 0 else Times(items[..|items| - 1], j) + if items[|items| - 1] == Job(j) then 1 else 0
  }

  lemma CountSnoc(items: seq<Item>, item: Item)
    ensures NumJobs(items + [item]) == NumJobs(items) + if item.Job? then 1 else 0
    ensures forall j: JobId :: Times(items + [item], j) == Times(items, j) + if item == Job(j) then 1 else 0
  {
    assert (items + [item])[..|items|] == items;
  }

  lemma {:induction false} CountConcat(a: seq<Item>, b: seq<Item>)
    ensures NumJobs(a + b) == NumJobs(a) + NumJobs(b)
    ensures forall j: JobId :: Times(a + b, j) == Times(a, j) + Times(b, j)
  {
    if b == [] {
      assert a + b == a;
    } else {
      var before, last := b[..|b| - 1], b[|b| - 1];
      CountConcat(a, before);
      CountSnoc(a + before, last);
      CountSnoc(before, last);
      assert b == before + [last] && a + b == (a + before) + [last];
    }
  }

  lemma CountCons(items: seq<Item>)
    requires items != []
    ensures NumJobs(items) == NumJobs(items[1..]) + if items[0].Job? then 1 else 0
    ensures forall j: JobId :: Times(items, j) == Times(items[1..], j) + if items[0] == Job(j) then 1 else 0
  {
    assert items == [items[0]] + items[1..] && [] + [items[0]] == [items[0]];
    CountConcat([items[0]], items[1..]);
    CountSnoc([], items[0]);
  }

  lemma CountWithout(items: seq<Item>, at: nat)
    requires at < |items|
    ensures NumJobs(items) == NumJobs(Without(items, at)) + if items[at].Job? then 1 else 0
    ensures forall j: JobId :: Times(items, j) == Times(Without(items, at), j) + if items[at] == Job(j) then 1 else 0
  {
    assert items == items[..at] + items[at..] && items[at..][1..] == items[at + 1..];
    CountConcat(items[..at], items[at..]);
    CountCons(items[at..]);
    CountConcat(items[..at], items[at + 1..]);
  }

  lemma {:induction false} CountIsMembership(items: seq<Item>)
    ensures forall j: JobId :: Times(items, j) > 0 <==> Job(j) in items
  {
    if items != [] {
      CountIsMembership(items[..|items| - 1]);
      assert items == items[..|items| - 1] + [items[|items| - 1]];
    }
  }

  /** How often job `j` is anywhere: put, woken or in line. */
  function Places(s: State, j: JobId): nat
  {
    Times(s.entered, j) + Times(s.woken, j) + Times(s.line, j)
  }

  function Executing(w: Worker): nat
  {
    if w.Running? then 1 else 0
  }

  // ---------------------------------------------------------------------
  // Invariant

  /** Every accepted job is in exactly one place. */
  predicate Conserved(s: State)
  {
    s.accepted == NumJobs(s.line) + NumJobs(s.woken) + NumJobs(s.queue) + Executing(s.worker)
                  + s.tally.succeeded + s.tally.failed + s.tally.cancelled + s.tally.abandoned
  }

  predicate Distinct(ids: seq<JobId>)
  {
    forall i, j :: 0 <= i < j < |ids| ==> ids[i] != ids[j]
  }

  /** The bounds hold, and nobody sleeps beside a free slot nobody was woken for. */
  predicate Roomy(s: State)
  {
    && (s.maxJobs.Some? ==> s.accepted <= s.maxJobs.value)
    && |s.queue| <= s.size && (s.line != [] ==> |s.queue| + |s.woken| >= s.size)
    && (s.worker.NotStarted? ==> s.accepted == 0 && s.queue == [] && s.woken == [] && s.line == [])
  }

  /** Only the last item taken can be a stop, and then the worker has stopped. */
  predicate ServedUntilStop(s: State)
  {
    && s.entered == s.taken + s.queue
    && (forall i :: 0 <= i < |s.taken| && s.taken[i].Stop? ==> i == |s.taken| - 1)
    && (s.worker.Stopped? <==> s.taken != [] && s.taken[|s.taken| - 1].Stop?)
    && (s.worker.Running? ==> s.taken != [] && s.taken[|s.taken| - 1] == Job(s.worker.job))
  }

  /** Numbers in use: below the count, each in one place, and in place unless withdrawn. */
  ghost predicate Numbered(s: State)
  {
    && (forall j: JobId :: j in s.futures <==> j < s.accepted)
    && (forall j: JobId :: Places(s, j) <= 1 && (Places(s, j) == 1 ==> j < s.accepted))
    && (forall j: JobId :: j < s.accepted && Places(s, j) == 0 ==> s.futures[j].Withdrawn?)
  }

  predicate Waiting(s: State, item: Item)
  {
    item in s.woken || item in s.line
  }

  /** Before the queue closes there is no stop anywhere. */
  predicate StopsFollowClose(s: State)
  {
    !s.closed ==> Stop !in s.entered && !Waiting(s, Stop)
  }

  /** A job's future is settled by the worker alone, once, and every job taken and not running is answered. */
  ghost predicate Answered(s: State)
  {
    && Distinct(s.settled)
    && (forall j: JobId :: j in s.settled ==> j in s.futures && s.futures[j].Settled? && Job(j) in s.taken)
    && (forall j: JobId :: Waiting(s, Job(j)) ==> j in s.futures && s.futures[j].Pending?)
    && (forall j: JobId :: Job(j) in s.taken && s.worker != Running(j) ==> j in s.futures && !s.futures[j].Pending?)
  }

  ghost predicate Valid(s: State)
  {
    Conserved(s) && Roomy(s) && ServedUntilStop(s) && Numbered(s) && StopsFollowClose(s) && Answered(s)
  }

  // ---------------------------------------------------------------------
  // Every step keeps it

  lemma OfferKeepsPlaces(s: State, item: Item)
    ensures var s' := Offer(s, item);
            && NumJobs(s'.line) + NumJobs(s'.queue) == NumJobs(s.line) + NumJobs(s.queue) + (if item.Job? then 1 else 0)
            && (forall j: JobId :: Places(s', j) == Places(s, j) + if item == Job(j) then 1 else 0)
  {
    CountSnoc(s.queue, item);
    CountSnoc(s.entered, item);
    CountSnoc(s.line, item);
  }

  lemma WakeKeepsPlaces(s: State)
    ensures var s' := Wake(s);
            && NumJobs(s'.line) + NumJobs(s'.woken) == NumJobs(s.line) + NumJobs(s.woken)
            && (forall j: JobId :: Places(s', j) == Places(s, j)) && (forall x :: Waiting(s', x) <==> Waiting(s, x))
  {
    if s.line != [] {
      CountCons(s.line);
      CountSnoc(s.woken, s.line[0]);
      assert s.line == [s.line[0]] + s.line[1..];
    }
  }

  lemma UnwokenLosesOne(s: State)
    requires s.woken != []
    ensures NumJobs(s.woken) == NumJobs(Unwoken(s).woken) + if s.woken[0].Job? then 1 else 0
    ensures forall j: JobId :: Places(s, j) == Places(Unwoken(s), j) + if s.woken[0] == Job(j) then 1 else 0
  {
    CountCons(s.woken);
  }

  lemma SameItemsSamePlaces(s: State, s': State)
    requires s'.entered == s.entered && s'.woken == s.woken && s'.line == s.line
    ensures forall j: JobId :: Places(s', j) == Places(s, j)
  {
  }

  lemma StepKeepsConserved(s: State, step: Step)
    requires Conserved(s) && Enabled(s, step)
    ensures Conserved(Apply(s, step))
  {
    match step
    case Submit => SubmitConserves(s);
    case Close(puts) => CloseConserves(s);
    case Take => TakeConserves(s);
    case Resume => ResumeConserves(s);
    case Finish(status) =>
    case LeaveLine(at) => CountWithout(s.line, at);
    case LeaveWoken(at) => LeaveWokenConserves(s, at);
    case LeaveAwaiting(job) =>
  }

  /** The count is short by the item about to be put. */
  predicate ShortBy(s: State, item: Item)
  {
    s.accepted == NumJobs(s.line) + NumJobs(s.woken) + NumJobs(s.queue) + Executing(s.worker)
                  + s.tally.succeeded + s.tally.failed + s.tally.cancelled + s.tally.abandoned + if item.Job? then 1 else 0
  }

  lemma OfferConserves(s: State, item: Item)
    requires ShortBy(s, item)
    ensures Conserved(Offer(s, item))
  {
    OfferKeepsPlaces(s, item);
  }

  lemma SubmitConserves(s: State)
    requires Conserved(s)
    ensures Conserved(Submitted(s))
  {
    if !QuotaUsed(s) {
      assert ShortBy(Accepted(s), Job(s.accepted));
      OfferConserves(Accepted(s), Job(s.accepted));
    }
  }

  lemma CloseConserves(s: State)
    requires Conserved(s)
    ensures Conserved(Offer(Closing(s), Stop))
  {
    OfferConserves(Closing(s), Stop);
  }

  lemma TakeConserves(s: State)
    requires Conserved(s) && s.worker.Idle? && s.queue != []
    ensures Conserved(Taken(s))
  {
    CountCons(s.queue);
    assert Conserved(Got(s));
    WakeKeepsPlaces(Got(s));
  }

  lemma ResumeConserves(s: State)
    requires Conserved(s) && s.woken != []
    ensures Conserved(Resumed(s))
  {
    UnwokenLosesOne(s);
    OfferConserves(Unwoken(s), s.woken[0]);
  }

  lemma LeaveWokenConserves(s: State, at: nat)
    requires Conserved(s) && at < |s.woken|
    ensures Conserved(LeftWoken(s, at))
  {
    CountWithout(s.woken, at);
    assert Conserved(OutOfWoken(s, at));
    WakeKeepsPlaces(OutOfWoken(s, at));
  }

  lemma StepKeepsRoomy(s: State, step: Step)
    requires Roomy(s) && Enabled(s, step)
    ensures Roomy(Apply(s, step))
  {
    match step
    case Submit => SubmitKeepsRoomy(s);
    case Close(puts) => OfferKeepsRoomy(Closing(s), Stop);
    case Take => TakeKeepsRoomy(s);
    case Resume => ResumeKeepsRoomy(s);
    case LeaveWoken(at) => LeaveWokenKeepsRoomy(s, at);
    case _ =>
  }

  lemma OfferKeepsRoomy(s: State, item: Item)
    requires Roomy(s)
    ensures !s.worker.NotStarted? ==> Roomy(Offer(s, item))
  {
  }

  lemma SubmitKeepsRoomy(s: State)
    requires Roomy(s)
    ensures Roomy(Submitted(s))
  {
    if !QuotaUsed(s) { OfferKeepsRoomy(Accepted(s), Job(s.accepted)); }
  }

  lemma TakeKeepsRoomy(s: State)
    requires Roomy(s) && s.worker.Idle? && s.queue != []
    ensures Roomy(Taken(s))
  {
  }

  lemma ResumeKeepsRoomy(s: State)
    requires Roomy(s) && s.woken != []
    ensures Roomy(Resumed(s))
  {
  }

  lemma LeaveWokenKeepsRoomy(s: State, at: nat)
    requires Roomy(s) && at < |s.woken|
    ensures Roomy(LeftWoken(s, at))
  {
  }

  lemma StepKeepsServed(s: State, step: Step)
    requires ServedUntilStop(s) && Enabled(s, step)
    requires s.worker.NotStarted? ==> s.queue == []
    ensures ServedUntilStop(Apply(s, step))
  {
    match step
    case Submit => SubmitKeepsServed(s);
    case Close(puts) => OfferKeepsServed(Closing(s), Stop);
    case Take => GotIsServed(s); SamePartsKeepServed(Got(s), Taken(s));
    case Resume => SamePartsKeepServed(s, Unwoken(s)); OfferKeepsServed(Unwoken(s), s.woken[0]);
    case Finish(status) => FinishKeepsServed(s, status);
    case LeaveLine(at) => SamePartsKeepServed(s, LeftLine(s, at));
    case LeaveWoken(at) => SamePartsKeepServed(s, LeftWoken(s, at));
    case LeaveAwaiting(job) => SamePartsKeepServed(s, Apply(s, LeaveAwaiting(job)));
  }

  lemma SamePartsKeepServed(s: State, s': State)
    requires ServedUntilStop(s) && s'.entered == s.entered && s'.taken == s.taken && s'.queue == s.queue && s'.worker == s.worker
    ensures ServedUntilStop(s')
  {
  }

  lemma FinishKeepsServed(s: State, status: Status)
    requires ServedUntilStop(s) && s.worker.Running?
    ensures ServedUntilStop(Finished(s, status))
  {
  }

  lemma SubmitKeepsServed(s: State)
    requires ServedUntilStop(s) && (s.worker.NotStarted? ==> s.queue == [])
    ensures ServedUntilStop(Submitted(s))
  {
    assert ServedUntilStop(Accepted(s));
    OfferKeepsServed(Accepted(s), Job(s.accepted));
  }

  lemma OfferKeepsServed(s: State, item: Item)
    requires ServedUntilStop(s)
    ensures ServedUntilStop(Offer(s, item))
  {
    if !Full(s) { assert (s.taken + s.queue) + [item] == s.taken + (s.queue + [item]); }
  }

  lemma GotIsServed(s: State)
    requires ServedUntilStop(s) && s.worker.Idle? && s.queue != []
    ensures ServedUntilStop(Got(s))
  {
    assert s.queue == [s.queue[0]] + s.queue[1..];
    assert s.taken + s.queue == (s.taken + [s.queue[0]]) + s.queue[1..];
  }

  lemma StepKeepsStops(s: State, step: Step)
    requires StopsFollowClose(s) && Enabled(s, step)
    ensures StopsFollowClose(Apply(s, step))
  {
    match step
    case Submit => OfferKeepsStops(Accepted(s), Job(s.accepted));
    case Close(puts) =>
    case Take => WakeKeepsPlaces(Got(s));
    case Resume => OfferKeepsStops(Unwoken(s), s.woken[0]);
    case Finish(status) =>
    case LeaveLine(at) =>
    case LeaveWoken(at) => WakeKeepsPlaces(OutOfWoken(s, at)); LeaversKeepStops(s, at);
    case LeaveAwaiting(job) =>
  }

  lemma OfferKeepsStops(s: State, item: Item)
    requires StopsFollowClose(s) && (item.Stop? ==> s.closed)
    ensures StopsFollowClose(Offer(s, item))
  {
  }

  lemma LeaversKeepStops(s: State, at: nat)
    requires StopsFollowClose(s) && at < |s.woken|
    ensures StopsFollowClose(OutOfWoken(s, at))
  {
  }

  /** The numbers stay in order when no place changes, or a withdrawn job loses its place. */
  lemma PlacesKeepNumbered(s: State, s': State, gone: Option<JobId>)
    requires Numbered(s) && s'.accepted == s.accepted && s'.futures.Keys == s.futures.Keys
    requires forall j: JobId :: j in s.futures && s.futures[j].Withdrawn? ==> s'.futures[j].Withdrawn?
    requires forall j: JobId :: Places(s, j) == Places(s', j) + if gone == Some(j) then 1 else 0
    requires gone.Some? ==> gone.value in s'.futures && s'.futures[gone.value].Withdrawn?
    ensures Numbered(s')
  {
  }

  lemma StepKeepsNumbered(s: State, step: Step)
    requires Numbered(s) && Answered(s) && Enabled(s, step)
    ensures Numbered(Apply(s, step))
  {
    match step
    case Submit => SubmitNumbers(s);
    case Close(puts) => CloseKeepsNumbered(s, puts);
    case Take => TakeKeepsNumbered(s);
    case Resume => ResumeKeepsNumbered(s);
    case Finish(status) => SameItemsKeepNumbered(s, Finished(s, status));
    case LeaveLine(at) => LeaveLineKeepsNumbered(s, at);
    case LeaveWoken(at) => LeaveWokenKeepsNumbered(s, at);
    case LeaveAwaiting(job) => SameItemsKeepNumbered(s, Apply(s, LeaveAwaiting(job)));
  }

  lemma SameItemsKeepNumbered(s: State, s': State)
    requires Numbered(s) && s'.accepted == s.accepted && s'.futures.Keys == s.futures.Keys
    requires s'.entered == s.entered && s'.woken == s.woken && s'.line == s.line
    requires forall j: JobId :: j in s.futures && s.futures[j].Withdrawn? ==> s'.futures[j].Withdrawn?
    ensures Numbered(s')
  {
    SameItemsSamePlaces(s, s');
  }

  lemma CloseKeepsNumbered(s: State, puts: bool)
    requires Numbered(s)
    ensures Numbered(if puts then Offer(Closing(s), Stop) else Closing(s))
  {
    SameItemsKeepNumbered(s, Closing(s));
    OfferKeepsPlaces(Closing(s), Stop);
    PlacesKeepNumbered(Closing(s), Offer(Closing(s), Stop), None);
  }

  lemma TakeKeepsNumbered(s: State)
    requires Numbered(s) && s.queue != []
    ensures Numbered(Taken(s))
  {
    SameItemsKeepNumbered(s, Got(s));
    WakeKeepsPlaces(Got(s));
    PlacesKeepNumbered(Got(s), Taken(s), None);
  }

  lemma ResumeKeepsNumbered(s: State)
    requires Numbered(s) && s.woken != []
    ensures Numbered(Resumed(s))
  {
    UnwokenLosesOne(s);
    OfferKeepsPlaces(Unwoken(s), s.woken[0]);
    forall j: JobId
      ensures Places(s, j) == Places(Resumed(s), j)
    {
    }
    PlacesKeepNumbered(s, Resumed(s), None);
  }

  lemma SubmitNumbers(s: State)
    requires Numbered(s)
    ensures Numbered(Submitted(s))
  {
    if QuotaUsed(s) {
      SameItemsKeepNumbered(s, Rejected(s));
    } else {
      forall j: JobId
        ensures Places(Submitted(s), j) == Places(s, j) + if j == s.accepted then 1 else 0
      {
        AcceptedPlace(s, j);
      }
      NewNumber(s, Submitted(s));
    }
  }

  lemma AcceptedPlace(s: State, j: JobId)
    requires !QuotaUsed(s)
    ensures Places(Submitted(s), j) == Places(s, j) + if j == s.accepted then 1 else 0
  {
    var a := Accepted(s);
    OfferKeepsPlaces(a, Job(s.accepted));
    SameItemsSamePlaces(s, a);
    assert Submitted(s) == Offer(a, Job(s.accepted));
    assert Places(Offer(a, Job(s.accepted)), j) == Places(a, j) + if j == s.accepted then 1 else 0;
  }

  lemma NewNumber(s: State, s': State)
    requires Numbered(s) && s'.accepted == s.accepted + 1 && s'.futures == s.futures[s.accepted := Pending]
    requires forall j: JobId :: Places(s', j) == Places(s, j) + if j == s.accepted then 1 else 0
    ensures Numbered(s')
  {
  }

  function Leaver(item: Item): Option<JobId>
  {
    if item.Job? then Some(item.id) else None
  }

  lemma LeaveLineKeepsNumbered(s: State, at: nat)
    requires Numbered(s) && Answered(s) && at < |s.line|
    ensures Numbered(Apply(s, LeaveLine(at)))
  {
    CountWithout(s.line, at);
    assert Waiting(s, s.line[at]);
    forall j: JobId
      ensures Places(s, j) == Places(LeftLine(s, at), j) + if Leaver(s.line[at]) == Some(j) then 1 else 0
    {
    }
    PlacesKeepNumbered(s, LeftLine(s, at), Leaver(s.line[at]));
  }

  lemma LeaveWokenKeepsNumbered(s: State, at: nat)
    requires Numbered(s) && Answered(s) && at < |s.woken|
    ensures Numbered(LeftWoken(s, at))
  {
    var left := OutOfWoken(s, at);
    CountWithout(s.woken, at);
    assert Waiting(s, s.woken[at]);
    forall j: JobId
      ensures Places(s, j) == Places(left, j) + if Leaver(s.woken[at]) == Some(j) then 1 else 0
    {
    }
    PlacesKeepNumbered(s, left, Leaver(s.woken[at]));
    WakeKeepsPlaces(left);
    PlacesKeepNumbered(left, Wake(left), None);
  }

  /** A waiting job has been neither taken nor settled, and waits once. */
  lemma WaitingIsNew(s: State, j: JobId)
    requires Numbered(s) && Answered(s) && s.entered == s.taken + s.queue && Waiting(s, Job(j))
    ensures Job(j) !in s.taken && Job(j) !in s.queue && j !in s.settled
    ensures Times(s.woken, j) + Times(s.line, j) == 1
  {
    CountConcat(s.taken, s.queue);
    CountIsMembership(s.taken);
    CountIsMembership(s.queue);
    CountIsMembership(s.woken);
    CountIsMembership(s.line);
    assert Places(s, j) <= 1;
  }

  lemma StepKeepsAnswered(s: State, step: Step)
    requires Numbered(s) && Answered(s) && ServedUntilStop(s) && Enabled(s, step)
    ensures Answered(Apply(s, step))
  {
    match step
    case Submit => SubmitKeepsAnswered(s);
    case Close(puts) =>
    case Take => TakeKeepsAnswered(s);
    case Resume => ResumeKeepsAnswered(s);
    case Finish(status) => FinishKeepsAnswered(s, status);
    case LeaveLine(at) => LeaveLineKeepsAnswered(s, at);
    case LeaveWoken(at) => LeaveWokenKeepsAnswered(s, at);
    case LeaveAwaiting(job) => WithdrawKeepsAnswered(s, job);
  }

  lemma SubmitKeepsAnswered(s: State)
    requires Numbered(s) && Answered(s) && ServedUntilStop(s)
    ensures Answered(Submitted(s))
  {
    if QuotaUsed(s) {
      assert forall x :: Waiting(Rejected(s), x) <==> Waiting(s, x);
    } else {
      AcceptedIsAnswered(s);
      OfferKeepsAnswered(Accepted(s), Job(s.accepted));
    }
  }

  lemma AcceptedIsAnswered(s: State)
    requires Numbered(s) && Answered(s) && ServedUntilStop(s)
    ensures Answered(Accepted(s))
  {
    assert s.accepted !in s.futures;
    assert forall x :: Waiting(Accepted(s), x) <==> Waiting(s, x);
  }

  lemma OfferKeepsAnswered(s: State, item: Item)
    requires Answered(s) && (item.Job? ==> item.id in s.futures && s.futures[item.id].Pending?)
    ensures Answered(Offer(s, item))
  {
    assert forall x :: Waiting(Offer(s, item), x) ==> Waiting(s, x) || x == item;
  }

  lemma TakeKeepsAnswered(s: State)
    requires Numbered(s) && Answered(s) && ServedUntilStop(s) && s.worker.Idle? && s.queue != []
    ensures Answered(Taken(s))
  {
    GotIsAnswered(s);
    WakeKeepsPlaces(Got(s));
    WakeKeepsAnswered(Got(s));
  }

  lemma GotIsAnswered(s: State)
    requires Answered(s) && ServedUntilStop(s) && s.worker.Idle? && s.queue != []
    ensures Answered(Got(s))
  {
    assert forall x :: Waiting(Got(s), x) <==> Waiting(s, x);
  }

  lemma WakeKeepsAnswered(s: State)
    requires Answered(s) && forall x :: Waiting(Wake(s), x) <==> Waiting(s, x)
    ensures Answered(Wake(s))
  {
  }

  lemma ResumeKeepsAnswered(s: State)
    requires Answered(s) && s.woken != []
    ensures Answered(Resumed(s))
  {
    assert Waiting(s, s.woken[0]);
    assert forall x :: Waiting(Unwoken(s), x) ==> Waiting(s, x);
    OfferKeepsAnswered(Unwoken(s), s.woken[0]);
  }

  lemma FinishKeepsAnswered(s: State, status: Status)
    requires Numbered(s) && Answered(s) && ServedUntilStop(s) && s.worker.Running?
    ensures Answered(Finished(s, status))
  {
    var j := s.worker.job;
    RunningIsKnown(s);
    assert s.futures[j].Pending? ==> j !in s.settled;
  }

  lemma RunningIsKnown(s: State)
    requires Numbered(s) && Answered(s) && ServedUntilStop(s) && s.worker.Running?
    ensures s.worker.job in s.futures && Job(s.worker.job) in s.taken && !Waiting(s, Job(s.worker.job))
  {
    var j := s.worker.job;
    if Waiting(s, Job(j)) { WaitingIsNew(s, j); }
    CountConcat(s.taken, s.queue);
    CountIsMembership(s.taken);
    assert Places(s, j) == 1;
  }

  lemma LeaveLineKeepsAnswered(s: State, at: nat)
    requires Numbered(s) && Answered(s) && ServedUntilStop(s) && at < |s.line|
    ensures Answered(Apply(s, LeaveLine(at)))
  {
    var item := s.line[at];
    var s' := Apply(s, LeaveLine(at));
    CountWithout(s.line, at);
    LeaverIsGone(s, s.woken, Without(s.line, at), item);
    assert forall x :: Waiting(s', x) ==> Waiting(s, x);
  }

  /** A job that leaves the line or the woken is in neither any more. */
  lemma LeaverIsGone(s: State, woken: seq<Item>, line: seq<Item>, item: Item)
    requires Numbered(s) && Answered(s) && s.entered == s.taken + s.queue && Waiting(s, item)
    requires forall j: JobId :: Times(woken, j) + Times(line, j) == Times(s.woken, j) + Times(s.line, j) - if item == Job(j) then 1 else 0
    ensures item.Job? ==> item !in woken && item !in line && item !in s.taken && item.id !in s.settled
  {
    if item.Job? {
      WaitingIsNew(s, item.id);
      CountIsMembership(woken);
      CountIsMembership(line);
    }
  }

  lemma LeaveWokenKeepsAnswered(s: State, at: nat)
    requires Numbered(s) && Answered(s) && ServedUntilStop(s) && at < |s.woken|
    ensures Answered(LeftWoken(s, at))
  {
    var item := s.woken[at];
    var left := OutOfWoken(s, at);
    CountWithout(s.woken, at);
    LeaverIsGone(s, Without(s.woken, at), s.line, item);
    assert forall x :: Waiting(left, x) ==> Waiting(s, x);
    assert Answered(left);
    WakeKeepsPlaces(left);
    WakeKeepsAnswered(left);
  }

  lemma WithdrawKeepsAnswered(s: State, job: JobId)
    requires Answered(s) && Enabled(s, LeaveAwaiting(job))
    ensures Answered(Apply(s, LeaveAwaiting(job)))
  {
  }

  // ---------------------------------------------------------------------
  // Each step in full

  /** A submission starts the worker; over the quota it is only counted, and otherwise gets the next number and is put. */
  lemma SubmitExactly(s: State)
    requires Enabled(s, Submit)
    ensures var worker, item := if s.worker == NotStarted then Idle else s.worker, Job(s.accepted);
            Apply(s, Submit) ==
            if s.maxJobs != None && s.accepted >= s.maxJobs.value then
              s.(worker := worker, tally := s.tally.(rejected := s.tally.rejected + 1))
            else if |s.queue| < s.size then
              s.(worker := worker, accepted := s.accepted + 1, futures := s.futures[s.accepted := Pending],
                 queue := s.queue + [item], entered := s.entered + [item])
            else
              s.(worker := worker, accepted := s.accepted + 1, futures := s.futures[s.accepted := Pending],
                 line := s.line + [item])
  {
  }

  /** An outcome is counted under its own name and no other, frees the worker, and answers a submitter still there. */
  lemma FinishCounts(s: State, status: Status)
    requires Enabled(s, Finish(status))
    ensures var t, s' := s.tally, Apply(s, Finish(status));
            var job := s.worker.job;
            && s'.tally.succeeded == t.succeeded + (if status == Succeeded then 1 else 0)
            && s'.tally.failed == t.failed + (if status == Failed then 1 else 0)
            && s'.tally.cancelled == t.cancelled + (if status == Cancelled then 1 else 0)
            && s'.tally.abandoned == t.abandoned && s'.tally.rejected == t.rejected
            && (if job in s.futures && s.futures[job] == Pending
                then s'.futures == s.futures[job := Settled] && s'.settled == s.settled + [job]
                else s'.futures == s.futures && s'.settled == s.settled)
            && s' == s.(tally := s'.tally, worker := Idle, futures := s'.futures, settled := s'.settled)
  {
  }

  /** Taking moves the first item to the worker and wakes the first sleeper. */
  lemma TakeExactly(s: State)
    requires Enabled(s, Take)
    ensures var s', item := Apply(s, Take), s.queue[0];
            && [item] + s'.queue == s.queue && s'.taken == s.taken + [item]
            && s'.worker == (if item == Stop then Stopped else Running(item.id))
            && (if s.line == [] then s'.line == [] && s'.woken == s.woken
                else [s.line[0]] + s'.line == s.line && s'.woken == s.woken + [s.line[0]])
            && s' == s.(queue := s'.queue, taken := s'.taken, worker := s'.worker, line := s'.line, woken := s'.woken)
  {
  }

  /** The first of the woken enters when there is room, and sleeps again last when there is none. */
  lemma ResumeExactly(s: State)
    requires Enabled(s, Resume)
    ensures var s', item := Apply(s, Resume), s.woken[0];
            && [item] + s'.woken == s.woken
            && (if |s.queue| < s.size
                then s' == s.(woken := s'.woken, queue := s.queue + [item], entered := s.entered + [item])
                else s' == s.(woken := s'.woken, line := s.line + [item]))
  {
  }

  /** A submitter that goes while it sleeps or has been woken is counted, and passes a free slot on once woken. */
  lemma LeaveExactly(s: State, step: Step, at: nat)
    requires (step == LeaveLine(at) || step == LeaveWoken(at)) && Enabled(s, step)
    ensures var s' := Apply(s, step);
            var item := if step.LeaveLine? then s.line[at] else s.woken[at];
            var woken := if step.LeaveLine? then s.woken else s.woken[..at] + s.woken[at + 1..];
            var line := if step.LeaveLine? then s.line[..at] + s.line[at + 1..] else s.line;
            var wakes := step.LeaveWoken? && |s.queue| < s.size && line != [];
            && s'.woken == (if wakes then woken + [line[0]] else woken) && s'.line == (if wakes then line[1..] else line)
            && (if item.Job?
                then s'.futures == s.futures[item.id := Withdrawn]
                     && s'.tally == s.tally.(abandoned := s.tally.abandoned + 1)
                else s'.futures == s.futures && s'.tally == s.tally)
            && s' == s.(woken := s'.woken, line := s'.line, futures := s'.futures, tally := s'.tally)
  {
  }

  /** One that goes after its put no longer waits for an answer; nothing else changes. */
  lemma LeaveAwaitingExactly(s: State, job: JobId)
    requires Enabled(s, LeaveAwaiting(job))
    ensures Apply(s, LeaveAwaiting(job)) == s.(futures := s.futures[job := Withdrawn])
  {
  }

  /** Closing bars submissions, and puts a stop whenever the worker runs and never before it was started. */
  lemma CloseExactly(s: State, puts: bool)
    ensures Enabled(s, Close(puts)) <==> match s.worker
                                         case NotStarted => !puts
                                         case Stopped => true
                                         case _ => puts
    ensures Enabled(s, Close(puts)) ==>
              var s' := Apply(s, Close(puts));
              s' == if !puts then s.(closed := true)
                    else if |s.queue| < s.size then s.(closed := true, queue := s.queue + [Stop], entered := s.entered + [Stop])
                    else s.(closed := true, line := s.line + [Stop])
  {
  }

  /** Every atomic section between suspensions keeps the queue's invariant. */
  lemma StepKeepsValid(s: State, step: Step)
    requires Valid(s) && Enabled(s, step)
    ensures Valid(Apply(s, step))
  {
    StepKeepsConserved(s, step);
    StepKeepsRoomy(s, step);
    StepKeepsServed(s, step);
    StepKeepsNumbered(s, step);
    StepKeepsStops(s, step);
    StepKeepsAnswered(s, step);
  }
}
