/** Whole runs of the bounded queue: what is served, and what closing leaves unanswered. */
module CanaryRuns {
  import opened Wrappers
  import opened CanaryQueue

  predicate Legal(s: State, steps: seq<Step>)
    decreases |steps|
  {
    steps == [] || (Enabled(s, steps[0]) && Legal(Apply(s, steps[0]), steps[1..]))
  }

  function Run(s: State, steps: seq<Step>): State
    requires Legal(s, steps)
    decreases |steps|
  {
    if steps == [] then s else Run(Apply(s, steps[0]), steps[1..])
  }

  lemma {:induction false} RunKeepsValid(s: State, steps: seq<Step>)
    requires Valid(s) && Legal(s, steps)
    ensures Valid(Run(s, steps))
    decreases |steps|
  {
    if steps != [] {
      StepKeepsValid(s, steps[0]);
      RunKeepsValid(Apply(s, steps[0]), steps[1..]);
    }
  }

  lemma EmptyIsValid(maxJobs: Option<nat>, size: nat)
    ensures Valid(Empty(maxJobs, size))
  {
  }

  lemma {:induction false} RunConcat(s: State, a: seq<Step>, b: seq<Step>)
    requires Legal(s, a) && Legal(Run(s, a), b)
    ensures Legal(s, a + b) && Run(s, a + b) == Run(Run(s, a), b)
    decreases |a|
  {
    if a == [] {
      assert a + b == b;
    } else {
      RunConcat(Apply(s, a[0]), a[1..], b);
      assert (a + b)[0] == a[0] && (a + b)[1..] == a[1..] + b;
    }
  }

  lemma RunOne(s: State, step: Step)
    requires Enabled(s, step)
    ensures Legal(s, [step]) && Run(s, [step]) == Apply(s, step)
  {
    assert [step][1..] == [];
  }

  lemma TwoSteps(s: State, first: Step, second: Step)
    requires Enabled(s, first) && Enabled(Apply(s, first), second)
    ensures Legal(s, [first] + [second]) && Run(s, [first] + [second]) == Apply(Apply(s, first), second)
  {
    RunOne(s, first);
    RunOne(Apply(s, first), second);
    RunConcat(s, [first], [second]);
  }

  /** In every interleaving: accepted jobs are conserved, the bounds hold, and no future is settled twice. */
  lemma EveryRunConserves(maxJobs: Option<nat>, size: nat, steps: seq<Step>)
    requires Legal(Empty(maxJobs, size), steps)
    ensures var s := Run(Empty(maxJobs, size), steps);
            && s.accepted == NumJobs(s.line) + NumJobs(s.woken) + NumJobs(s.queue) + Executing(s.worker)
                             + s.tally.succeeded + s.tally.failed + s.tally.cancelled + s.tally.abandoned
            && (s.maxJobs.Some? ==> s.accepted <= s.maxJobs.value)
            && |s.queue| <= s.size && Distinct(s.settled)
  {
    EmptyIsValid(maxJobs, size);
    RunKeepsValid(Empty(maxJobs, size), steps);
  }

  // ---------------------------------------------------------------------
  // Order of service

  /** The items put before the first stop. */
  function BeforeStop(items: seq<Item>): seq<Item>
  {
    if items == [] || items[0].Stop? then [] else [items[0]] + BeforeStop(items[1..])
  }

  function UntilStop(taken: seq<Item>): seq<Item>
  {
    if taken != [] && taken[|taken| - 1].Stop? then taken[..|taken| - 1] else taken
  }

  lemma {:induction false} BeforeStopCut(items: seq<Item>, n: nat)
    requires n < |items| && items[n].Stop? && forall i :: 0 <= i < n ==> items[i].Job?
    ensures BeforeStop(items) == items[..n]
  {
    if n > 0 {
      BeforeStopCut(items[1..], n - 1);
    }
  }

  lemma {:induction false} BeforeStopPrefix(items: seq<Item>, n: nat)
    requires n <= |items| && forall i :: 0 <= i < n ==> items[i].Job?
    ensures items[..n] <= BeforeStop(items)
  {
    if n > 0 {
      BeforeStopPrefix(items[1..], n - 1);
    }
  }

  /** The jobs taken are the first of those put before the first stop, and all of them once the worker has stopped. */
  lemma TakenInOrder(s: State)
    requires ServedUntilStop(s)
    ensures UntilStop(s.taken) <= BeforeStop(s.entered)
    ensures s.worker.Stopped? ==> UntilStop(s.taken) == BeforeStop(s.entered)
  {
    assert forall i :: 0 <= i < |s.taken| ==> s.entered[i] == s.taken[i];
    if s.worker.Stopped? {
      var n := |s.taken| - 1;
      BeforeStopCut(s.entered, n);
      assert s.entered[..n] == s.taken[..n];
    } else {
      assert s.entered[..|s.taken|] == s.taken;
      BeforeStopPrefix(s.entered, |s.taken|);
    }
  }

  /** The worker serves exactly the jobs put before the first stop, in the order they were put, and answers each of them. */
  lemma ServedInOrder(maxJobs: Option<nat>, size: nat, steps: seq<Step>)
    requires Legal(Empty(maxJobs, size), steps)
    ensures var s := Run(Empty(maxJobs, size), steps);
            && UntilStop(s.taken) <= BeforeStop(s.entered)
            && (s.worker.Stopped? ==> UntilStop(s.taken) == BeforeStop(s.entered))
            && (s.worker.Stopped? ==>
                  forall j: JobId :: Job(j) in BeforeStop(s.entered) ==> j in s.futures && !s.futures[j].Pending?)
  {
    EmptyIsValid(maxJobs, size);
    RunKeepsValid(Empty(maxJobs, size), steps);
    TakenInOrder(Run(Empty(maxJobs, size), steps));
  }

  lemma {:induction false} TwiceCounted(items: seq<Item>, i: nat, k: nat, j: JobId)
    requires i < k < |items| && items[i] == items[k] == Job(j)
    ensures Times(items, j) >= 2
  {
    var before := items[..|items| - 1];
    if k < |items| - 1 {
      TwiceCounted(before, i, k, j);
    } else {
      assert before[i] == Job(j);
      CountIsMembership(before);
    }
  }

  /** No job enters the queue twice, so none is taken twice, and its number is one that was given out. */
  lemma NoJobIsTakenTwice(maxJobs: Option<nat>, size: nat, steps: seq<Step>)
    requires Legal(Empty(maxJobs, size), steps)
    ensures var s := Run(Empty(maxJobs, size), steps);
            && (forall i, k :: 0 <= i < k < |s.entered| && s.entered[i].Job? ==> s.entered[i] != s.entered[k])
            && (forall i, k :: 0 <= i < k < |s.taken| && s.taken[i].Job? ==> s.taken[i] != s.taken[k])
            && (forall j: JobId :: Job(j) in s.taken ==> j < s.accepted)
  {
    EmptyIsValid(maxJobs, size);
    RunKeepsValid(Empty(maxJobs, size), steps);
    var s := Run(Empty(maxJobs, size), steps);
    forall i, k | 0 <= i < k < |s.entered| && s.entered[i].Job?
      ensures s.entered[i] != s.entered[k]
    {
      assert Places(s, s.entered[i].id) <= 1;
      if s.entered[i] == s.entered[k] { TwiceCounted(s.entered, i, k, s.entered[i].id); }
    }
    assert forall i :: 0 <= i < |s.taken| ==> s.taken[i] == s.entered[i];
    CountIsMembership(s.entered);
    forall j: JobId | Job(j) in s.taken
      ensures j < s.accepted
    {
      assert Job(j) in s.entered && Times(s.entered, j) > 0;
      assert Places(s, j) == 1;
    }
  }

  // ---------------------------------------------------------------------
  // Closing

  /** Nothing more is closed. */
  predicate NoClose(steps: seq<Step>)
  {
    forall i :: 0 <= i < |steps| ==> !steps[i].Close?
  }

  /** Everyone accepted has an answer, or has withdrawn. */
  predicate AllAnswered(s: State)
  {
    forall j: JobId :: j in s.futures ==> !s.futures[j].Pending?
  }

  /** In the order of their turns no job is behind a stop, and each of the woken has a free slot. */
  predicate StopIsLast(s: State)
  {
    && s.closed && |s.queue| + |s.woken| <= s.size
    && JobsThenStops(Turns(s))
  }

  predicate JobsThenStops(items: seq<Item>)
  {
    forall i, j :: 0 <= i < j < |items| && items[i].Stop? ==> items[j].Stop?
  }

  lemma JobsOnly(items: seq<Item>)
    requires Stop !in items
    ensures JobsThenStops(items) && JobsThenStops(items + [Stop])
  {
  }

  lemma DropOne(items: seq<Item>, at: nat)
    requires at < |items| && JobsThenStops(items)
    ensures JobsThenStops(Without(items, at))
  {
    var rest := Without(items, at);
    forall i, j | 0 <= i < j < |rest| && rest[i].Stop?
      ensures rest[j].Stop?
    {
      assert rest[i] == items[if i < at then i else i + 1] && rest[j] == items[if j < at then j else j + 1];
    }
  }

  /** Closing while no put is woken leaves the stop behind every waiting job. */
  lemma CloseInOrder(s: State)
    requires Valid(s) && !s.closed && s.woken == [] && s.size > 0
    ensures StopIsLast(Offer(Closing(s), Stop))
  {
    var s' := Offer(Closing(s), Stop);
    assert s.line == [] || Full(s);
    assert Turns(s') == (s.entered + s.line) + [Stop];
    JobsOnly(s.entered + s.line);
  }

  /** Everyone in the order of their turns. */
  function Turns(s: State): seq<Item>
  {
    s.entered + s.woken + s.line
  }

  lemma StepKeepsStopLast(s: State, step: Step)
    requires StopIsLast(s) && Enabled(s, step) && !step.Close?
    ensures StopIsLast(Apply(s, step))
  {
    match step
    case Submit =>
    case Take => WakeKeepsOrder(Got(s));
    case Resume => ResumeKeepsOrder(s);
    case Finish(status) =>
    case LeaveLine(at) => LeaveLineKeepsOrder(s, at);
    case LeaveWoken(at) => LeaveWokenKeepsOrder(s, at);
    case LeaveAwaiting(job) =>
  }

  lemma ResumeKeepsOrder(s: State)
    requires |s.queue| + |s.woken| <= s.size && s.woken != []
    ensures Turns(Resumed(s)) == Turns(s)
  {
    assert s.woken == [s.woken[0]] + s.woken[1..];
  }

  lemma LeaveLineKeepsOrder(s: State, at: nat)
    requires JobsThenStops(Turns(s)) && at < |s.line|
    ensures JobsThenStops(Turns(LeftLine(s, at)))
  {
    var k := |s.entered| + |s.woken| + at;
    DropOne(Turns(s), k);
    assert Turns(LeftLine(s, at)) == Without(Turns(s), k);
  }

  lemma LeaveWokenKeepsOrder(s: State, at: nat)
    requires JobsThenStops(Turns(s)) && at < |s.woken|
    ensures JobsThenStops(Turns(LeftWoken(s, at)))
  {
    var k := |s.entered| + at;
    DropOne(Turns(s), k);
    assert Turns(OutOfWoken(s, at)) == Without(Turns(s), k);
    WakeKeepsOrder(OutOfWoken(s, at));
  }

  lemma WakeKeepsOrder(s: State)
    ensures Turns(Wake(s)) == Turns(s)
  {
    if s.line != [] { assert s.line == [s.line[0]] + s.line[1..]; }
  }

  lemma {:induction false} RunKeepsStopLast(s: State, steps: seq<Step>)
    requires StopIsLast(s) && Legal(s, steps) && NoClose(steps)
    ensures StopIsLast(Run(s, steps))
    decreases |steps|
  {
    if steps != [] {
      StepKeepsStopLast(s, steps[0]);
      assert forall i :: 0 <= i < |steps[1..]| ==> steps[1..][i] == steps[i + 1];
      RunKeepsStopLast(Apply(s, steps[0]), steps[1..]);
    }
  }

  /** A worker that stopped with the stop last has answered everyone and left nobody waiting. */
  lemma StoppedLastAnsweredAll(s: State)
    requires Valid(s) && StopIsLast(s) && s.worker.Stopped?
    ensures AllAnswered(s) && NumJobs(s.line) == NumJobs(s.woken) == NumJobs(s.queue) == 0
  {
    var all, n := Turns(s), |s.taken| - 1;
    assert all[n] == s.taken[n];
    forall x | x in s.queue || x in s.woken || x in s.line
      ensures x.Stop?
    {
      assert exists k :: n < k < |all| && all[k] == x by {
        if x in s.queue {
          var i :| 0 <= i < |s.queue| && s.queue[i] == x;
          assert all[|s.taken| + i] == x;
        } else if x in s.woken {
          var i :| 0 <= i < |s.woken| && s.woken[i] == x;
          assert all[|s.entered| + i] == x;
        } else {
          var i :| 0 <= i < |s.line| && s.line[i] == x;
          assert all[|s.entered| + |s.woken| + i] == x;
        }
      }
    }
    StopsHoldNoJobs(s.queue);
    StopsHoldNoJobs(s.woken);
    StopsHoldNoJobs(s.line);
    forall j: JobId | j in s.futures
      ensures !s.futures[j].Pending?
    {
      CountConcat(s.taken, s.queue);
      CountIsMembership(s.taken);
      assert Places(s, j) == Times(s.taken, j);
    }
  }

  lemma {:induction false} StopsHoldNoJobs(items: seq<Item>)
    requires forall x :: x in items ==> x.Stop?
    ensures NumJobs(items) == 0 && forall j: JobId :: Times(items, j) == 0
  {
    if items != [] {
      var last := items[|items| - 1];
      assert last in items && forall x :: x in items[..|items| - 1] ==> x in items;
      StopsHoldNoJobs(items[..|items| - 1]);
    }
  }

  /** However the run goes on, once the worker stops everyone accepted is answered. */
  ghost predicate AnswersAll(s: State)
  {
    forall steps :: Legal(s, steps) && NoClose(steps) && Run(s, steps).worker.Stopped? ==> AllAnswered(Run(s, steps))
  }

  /** And then every accepted job is in the tally. */
  lemma OrderlyCloseCountsAll(s: State, steps: seq<Step>)
    requires Valid(s) && !s.closed && !s.worker.NotStarted? && s.size > 0 && s.woken == []
    requires Legal(Offer(Closing(s), Stop), steps) && NoClose(steps) && Run(Offer(Closing(s), Stop), steps).worker.Stopped?
    ensures var t := Run(Offer(Closing(s), Stop), steps);
            && AllAnswered(t)
            && t.accepted == t.tally.succeeded + t.tally.failed + t.tally.cancelled + t.tally.abandoned
  {
    var closed := Offer(Closing(s), Stop);
    StepKeepsValid(s, Close(true));
    RunKeepsValid(closed, steps);
    CloseInOrder(s);
    RunKeepsStopLast(closed, steps);
    StoppedLastAnsweredAll(Run(closed, steps));
  }

  // ---------------------------------------------------------------------
  // Stranding

  /** From `s` to `t` the woken have run again: some entered the queue, the others rejoined the line. */
  predicate Resettled(s: State, t: State, entering: seq<Item>, rejoining: seq<Item>)
  {
    && t.woken == [] && t.queue == s.queue + entering && t.line == s.line + rejoining
    && t.worker == s.worker && t.closed == s.closed && t.size == s.size && t.futures == s.futures
    && (Full(s) ==> entering == [])
    && (forall x :: x in s.woken ==> x in entering || x in rejoining)
  }

  lemma ResettleFull(s: State, t: State, e: seq<Item>, r: seq<Item>)
    requires s.woken != [] && Full(s) && Resettled(Resumed(s), t, e, r)
    ensures Resettled(s, t, [], [s.woken[0]] + r)
  {
    assert s.woken == [s.woken[0]] + s.woken[1..];
    assert (s.line + [s.woken[0]]) + r == s.line + ([s.woken[0]] + r);
  }

  lemma ResettleRoom(s: State, t: State, e: seq<Item>, r: seq<Item>)
    requires s.woken != [] && !Full(s) && Resettled(Resumed(s), t, e, r)
    ensures Resettled(s, t, [s.woken[0]] + e, r)
  {
    assert s.woken == [s.woken[0]] + s.woken[1..];
    assert (s.queue + [s.woken[0]]) + e == s.queue + ([s.woken[0]] + e);
  }

  /** The puts that were woken run again, and either enter or rejoin the line. */
  lemma {:induction false} ResumeAll(s: State) returns (steps: seq<Step>, entering: seq<Item>, rejoining: seq<Item>)
    requires Valid(s)
    ensures Legal(s, steps) && NoClose(steps)
    ensures Valid(Run(s, steps)) && Resettled(s, Run(s, steps), entering, rejoining)
    decreases |s.woken|
  {
    if s.woken == [] {
      steps, entering, rejoining := [], [], [];
    } else {
      StepKeepsValid(s, Resume);
      RunOne(s, Resume);
      var more, e, r := ResumeAll(Resumed(s));
      RunConcat(s, [Resume], more);
      steps := [Resume] + more;
      if Full(s) {
        entering, rejoining := [], [s.woken[0]] + r;
        ResettleFull(s, Run(s, steps), e, r);
      } else {
        entering, rejoining := [s.woken[0]] + e, r;
        ResettleRoom(s, Run(s, steps), e, r);
      }
    }
  }

  /** Job `j` waits behind a stop, in an orderly state. */
  predicate Behind(s: State, j: JobId, a: seq<Item>, b: seq<Item>)
  {
    && s.woken == [] && s.size > 0 && (s.worker.Idle? || s.worker.Running?)
    && s.queue + s.line == a + [Stop] + b && (forall x :: x in a ==> x.Job?) && Job(j) in b && Job(j) !in a
    && j in s.futures && s.futures[j].Pending? && s.worker != Running(j)
  }

  predicate Stranded(s: State, j: JobId)
  {
    s.worker.Stopped? && j in s.futures && s.futures[j].Pending?
  }

  lemma FinishKeepsBehind(s: State, j: JobId, a: seq<Item>, b: seq<Item>)
    requires Behind(s, j, a, b) && s.worker.Running?
    ensures Behind(Finished(s, Succeeded), j, a, b) && Finished(s, Succeeded).worker.Idle?
  {
  }

  lemma QueueIsNotEmpty(s: State, j: JobId, a: seq<Item>, b: seq<Item>)
    requires Roomy(s) && Behind(s, j, a, b)
    ensures s.queue != [] && s.queue[0] == (a + [Stop] + b)[0]
  {
    assert |s.queue + s.line| > 0 by { assert |a + [Stop] + b| > 0; }
    assert s.queue[0] == (s.queue + s.line)[0];
  }

  lemma StopIsNext(s: State, j: JobId, b: seq<Item>)
    requires Roomy(s) && Behind(s, j, [], b) && s.worker.Idle?
    ensures s.queue != [] && Stranded(Taken(s), j)
  {
    QueueIsNotEmpty(s, j, [], b);
    assert [] + [Stop] + b == [Stop] + b;
  }

  /** The state after a job was taken and the put that was woken, if any, ran into the free slot. */
  function MovedUp(s: State): State
    requires s.queue != []
  {
    if Taken(s).woken == [] then Taken(s) else Resumed(Taken(s))
  }

  lemma MoveUpKeepsBehind(s: State, j: JobId, a: seq<Item>, b: seq<Item>)
    requires Roomy(s) && Behind(s, j, a, b) && s.worker.Idle? && a != []
    ensures s.queue != [] && Behind(MovedUp(s), j, a[1..], b) && MovedUp(s).worker.Running?
  {
    QueueIsNotEmpty(s, j, a, b);
    MoveUpShifts(s);
    assert (a + [Stop] + b)[0] == a[0] && a[0] in a;
    assert (s.queue + s.line)[1..] == s.queue[1..] + s.line;
    assert (a + [Stop] + b)[1..] == a[1..] + [Stop] + b;
    assert a == [a[0]] + a[1..];
  }

  lemma MoveUpShifts(s: State)
    requires s.woken == [] && s.queue != [] && |s.queue| <= s.size
    ensures var t := MovedUp(s);
            && t.queue + t.line == s.queue[1..] + s.line && t.woken == []
            && t.futures == s.futures && t.size == s.size
            && t.worker == if s.queue[0].Stop? then Stopped else Running(s.queue[0].id)
  {
    if s.line != [] {
      assert s.line == [s.line[0]] + s.line[1..];
      assert s.queue[1..] + s.line == (s.queue[1..] + [s.line[0]]) + s.line[1..];
    }
  }

  lemma MoveUp(s: State) returns (steps: seq<Step>)
    requires Valid(s) && s.worker.Idle? && s.queue != []
    ensures Legal(s, steps) && NoClose(steps) && Run(s, steps) == MovedUp(s) && Valid(MovedUp(s))
  {
    var t := Taken(s);
    StepKeepsValid(s, Take);
    RunOne(s, Take);
    if t.woken == [] {
      steps := [Take];
    } else {
      StepKeepsValid(t, Resume);
      TwoSteps(s, Take, Resume);
      steps := [Take] + [Resume];
    }
  }

  /** From an orderly state the worker can always get as far as the first stop, leaving what waits behind it. */
  lemma {:induction false} ServeUpToStop(s: State, j: JobId, a: seq<Item>, b: seq<Item>) returns (steps: seq<Step>)
    requires Valid(s) && Behind(s, j, a, b)
    ensures Legal(s, steps) && NoClose(steps) && Stranded(Run(s, steps), j)
    decreases |a|, if s.worker.Running? then 1 else 0
  {
    if s.worker.Running? {
      StepKeepsValid(s, Finish(Succeeded));
      RunOne(s, Finish(Succeeded));
      FinishKeepsBehind(s, j, a, b);
      var more := ServeUpToStop(Finished(s, Succeeded), j, a, b);
      RunConcat(s, [Finish(Succeeded)], more);
      steps := [Finish(Succeeded)] + more;
    } else if a == [] {
      StopIsNext(s, j, b);
      RunOne(s, Take);
      steps := [Take];
    } else {
      MoveUpKeepsBehind(s, j, a, b);
      var head := MoveUp(s);
      var more := ServeUpToStop(MovedUp(s), j, a[1..], b);
      RunConcat(s, head, more);
      steps := head + more;
    }
  }

  /** Where the woken end up once the queue has closed over them: behind the stop. */
  lemma CloseStrandsFirstWoken(s: State, t: State, j: JobId, entering: seq<Item>, rejoining: seq<Item>)
    requires Valid(s) && !s.closed && (s.worker.Idle? || s.worker.Running?) && s.size > 0
    requires s.woken != [] && s.woken[0] == Job(j)
    requires Resettled(Offer(Closing(s), Stop), t, entering, rejoining)
    ensures exists a, b :: Behind(t, j, a, b)
  {
    var closed := Offer(Closing(s), Stop);
    assert Waiting(s, Job(j));
    WaitingIsNew(s, j);
    WokenIsNotInLine(s, j);
    NotRunningWhileWaiting(s, j);
    if Full(s) {
      assert t.queue + t.line == (s.queue + s.line) + [Stop] + rejoining;
      assert Behind(t, j, s.queue + s.line, rejoining);
    } else {
      assert t.queue + t.line == s.queue + [Stop] + (entering + (s.line + rejoining));
      assert Behind(t, j, s.queue, entering + (s.line + rejoining));
    }
  }

  lemma WokenIsNotInLine(s: State, j: JobId)
    requires Valid(s) && Job(j) in s.woken
    ensures Job(j) !in s.line
  {
    assert Waiting(s, Job(j));
    WaitingIsNew(s, j);
    CountIsMembership(s.woken);
    CountIsMembership(s.line);
  }

  lemma NotRunningWhileWaiting(s: State, j: JobId)
    requires Valid(s) && Waiting(s, Job(j))
    ensures s.worker != Running(j) && j in s.futures && s.futures[j].Pending?
  {
    if s.worker.Running? { RunningIsKnown(s); }
  }

  /** A put that was woken when the queue closes can be left behind the stop, unanswered when the worker has stopped. */
  lemma WokenCanBeStranded(s: State) returns (j: JobId, steps: seq<Step>)
    requires Valid(s) && !s.closed && (s.worker.Idle? || s.worker.Running?) && s.size > 0 && s.woken != []
    ensures Job(j) == s.woken[0]
    ensures Legal(Offer(Closing(s), Stop), steps) && NoClose(steps) && Stranded(Run(Offer(Closing(s), Stop), steps), j)
  {
    var closed := Offer(Closing(s), Stop);
    assert Waiting(s, s.woken[0]);
    j := s.woken[0].id;
    StepKeepsValid(s, Close(true));
    var head, entering, rejoining := ResumeAll(closed);
    var t := Run(closed, head);
    CloseStrandsFirstWoken(s, t, j, entering, rejoining);
    var a, b :| Behind(t, j, a, b);
    var more := ServeUpToStop(t, j, a, b);
    RunConcat(closed, head, more);
    steps := head + more;
  }

  /** Closing answers everyone, however the run goes on, exactly when no put has been woken and not yet run again. */
  lemma CloseAnswersAllExactly(s: State)
    requires Valid(s) && !s.closed && (s.worker.Idle? || s.worker.Running?) && s.size > 0
    ensures AnswersAll(Offer(Closing(s), Stop)) <==> s.woken == []
  {
    if s.woken == [] {
      forall steps | Legal(Offer(Closing(s), Stop), steps) && NoClose(steps) && Run(Offer(Closing(s), Stop), steps).worker.Stopped?
        ensures AllAnswered(Run(Offer(Closing(s), Stop), steps))
      {
        OrderlyCloseCountsAll(s, steps);
      }
    } else {
      var j, steps := WokenCanBeStranded(s);
    }
  }

  lemma NothingTakenAfterStop(s: State, step: Step)
    requires s.worker.Stopped? && Enabled(s, step)
    ensures var s' := Apply(s, step); s'.worker.Stopped? && s'.taken == s.taken && s'.settled == s.settled
  {
  }

  /** Once the worker has met a stop it takes and settles nothing more. */
  lemma {:induction false} StoppedIsFinal(s: State, steps: seq<Step>)
    requires s.worker.Stopped? && Legal(s, steps)
    ensures var t := Run(s, steps); t.worker.Stopped? && t.taken == s.taken && t.settled == s.settled
    decreases |steps|
  {
    if steps != [] {
      NothingTakenAfterStop(s, steps[0]);
      StoppedIsFinal(Apply(s, steps[0]), steps[1..]);
    }
  }

  /** So a stranded job is never answered by the worker, however the run goes on. */
  lemma StrandedJobIsNeverServed(s: State, j: JobId, steps: seq<Step>)
    requires Valid(s) && Stranded(s, j) && Legal(s, steps)
    ensures j !in Run(s, steps).settled
  {
    StoppedIsFinal(s, steps);
  }

  predicate Takes(s: State)
  {
    !s.closed && !QuotaUsed(s)
  }

  lemma SubmitWithRoom(s: State)
    requires Takes(s) && !Full(s) && s.worker.NotStarted?
    ensures var t := Submitted(s);
            && t.queue == s.queue + [Job(s.accepted)] && t.line == s.line && t.woken == s.woken && t.worker == Idle
            && t.accepted == s.accepted + 1 && !t.closed && t.size == s.size && t.maxJobs == s.maxJobs
  {
  }

  lemma SubmitWithoutRoom(s: State)
    requires Takes(s) && Full(s) && s.worker.Idle?
    ensures var t := Submitted(s);
            && t.queue == s.queue && t.line == s.line + [Job(s.accepted)] && t.woken == s.woken && t.worker == Idle
            && !t.closed && t.size == s.size
  {
  }

  lemma TakeWakes(s: State)
    requires s.queue != [] && s.queue[0].Job? && s.line != []
    ensures var t := Taken(s);
            && t.woken == s.woken + [s.line[0]] && t.worker == Running(s.queue[0].id)
            && t.closed == s.closed && t.size == s.size
  {
  }

  lemma TwoSubmits(s: State)
    requires Takes(s) && Takes(Submitted(s)) && Submitted(Submitted(s)).worker.Idle? && Submitted(Submitted(s)).queue != []
    ensures Legal(s, [Submit] + [Submit] + [Take]) && Run(s, [Submit] + [Submit] + [Take]) == Taken(Submitted(Submitted(s)))
  {
    var s1 := Submitted(s);
    var s2 := Submitted(s1);
    TwoSteps(s, Submit, Submit);
    RunOne(s2, Take);
    RunConcat(s, [Submit] + [Submit], [Take]);
  }

  /** One slot, two jobs: the second sleeps, and the first take wakes it. */
  lemma SecondIsWoken(maxJobs: Option<nat>) returns (steps: seq<Step>)
    requires maxJobs == None || maxJobs.value >= 2
    ensures Legal(Empty(maxJobs, 1), steps)
    ensures var s := Run(Empty(maxJobs, 1), steps);
            !s.closed && s.worker == Running(0) && s.woken == [Job(1)] && s.size == 1 && Valid(s)
  {
    var s0 := Empty(maxJobs, 1);
    SecondSleeps(maxJobs);
    TakeWakes(Submitted(Submitted(s0)));
    TwoSubmits(s0);
    steps := [Submit] + [Submit] + [Take];
    EmptyIsValid(maxJobs, 1);
    RunKeepsValid(s0, steps);
  }

  lemma SecondSleeps(maxJobs: Option<nat>)
    requires maxJobs == None || maxJobs.value >= 2
    ensures var s0 := Empty(maxJobs, 1);
            var s2 := Submitted(Submitted(s0));
            && Takes(s0) && Takes(Submitted(s0)) && s2.worker.Idle? && s2.queue == [Job(0)] && s2.line == [Job(1)]
            && s2.woken == [] && !s2.closed && s2.size == 1
  {
    var s0 := Empty(maxJobs, 1);
    SubmitWithRoom(s0);
    SubmitWithoutRoom(Submitted(s0));
  }

  /** Closing the queue before it runs again can leave it unanswered. */
  lemma StrandingIsReachable(maxJobs: Option<nat>) returns (steps: seq<Step>)
    requires maxJobs == None || maxJobs.value >= 2
    ensures Legal(Empty(maxJobs, 1), steps) && Stranded(Run(Empty(maxJobs, 1), steps), 1)
  {
    var head := SecondIsWoken(maxJobs);
    var s := Run(Empty(maxJobs, 1), head);
    var j, more := WokenCanBeStranded(s);
    RunOne(s, Close(true));
    RunConcat(Empty(maxJobs, 1), head, [Close(true)]);
    RunConcat(Empty(maxJobs, 1), head + [Close(true)], more);
    steps := head + [Close(true)] + more;
  }

  // ---------------------------------------------------------------------
  // The queue object

  class Queue {
    const maxJobs: Option<nat>
    const size: nat
    var closed: bool
    var worker: Worker
    var accepted: nat
    var line: seq<Item>
    var woken: seq<Item>
    var queue: seq<Item>
    var tally: Tally
    var futures: map<JobId, Future>
    ghost var entered: seq<Item>
    ghost var taken: seq<Item>
    ghost var settled: seq<JobId>

    ghost function Now(): State
      reads this
    {
      State(maxJobs, size, closed, worker, accepted, line, woken, queue, tally, futures, entered, taken, settled)
    }

    constructor (maxJobs: Option<nat>, size: nat)
      ensures Now() == Empty(maxJobs, size) && Valid(Now())
    {
      this.maxJobs, this.size := maxJobs, size;
      closed, worker, accepted, line, woken, queue := false, NotStarted, 0, [], [], [];
      tally, futures := Tally(0, 0, 0, 0, 0), map[];
      entered, taken, settled := [], [], [];
    }

    /** `asyncio.Queue.put` up to its suspension: enter, or sleep at the end of the line. */
    method Put(item: Item)
      modifies this`queue, this`line, this`entered
      ensures Now() == Offer(old(Now()), item)
    {
      if |queue| >= size {
        line := line + [item];
      } else {
        queue, entered := queue + [item], entered + [item];
      }
    }

    method Reject()
      modifies this`worker, this`tally
      ensures Now() == Rejected(old(Now()))
    {
      if worker.NotStarted? { worker := Idle; }
      tally := tally.(rejected := tally.rejected + 1);
    }

    method Accept() returns (job: JobId)
      modifies this`worker, this`accepted, this`futures
      ensures job == old(accepted) && Now() == Accepted(old(Now()))
    {
      if worker.NotStarted? { worker := Idle; }
      job := accepted;
      accepted, futures := accepted + 1, futures[job := Pending];
    }

    /** A submission up to its first suspension: refused, rejected, or accepted under a number. */
    method SubmitJob() returns (r: Result<Option<JobId>, string>)
      requires Valid(Now())
      modifies this
      ensures Valid(Now())
      ensures r.Err? <==> old(closed)
      ensures Now() == if r.Err? then old(Now()) else Submitted(old(Now()))
      ensures r.Ok? ==> r.value == if QuotaUsed(old(Now())) then None else Some(old(accepted))
    {
      if closed { return Err("canary queue is closed"); }
      StepKeepsValid(Now(), Submit);
      if maxJobs.Some? && accepted >= maxJobs.value {
        Reject();
        return Ok(None);
      }
      var job := Accept();
      Put(Job(job));
      return Ok(Some(job));
    }

    /** Closing bars submissions and puts a stop when a worker was started. */
    method BeginClose()
      requires Valid(Now())
      modifies this
      ensures Valid(Now()) && Now() == Apply(old(Now()), Close(!old(worker).NotStarted?))
    {
      StepKeepsValid(Now(), Close(!worker.NotStarted?));
      closed := true;
      if !worker.NotStarted? { Put(Stop); }
    }

    method Get() returns (next: Item)
      requires queue != []
      modifies this`queue, this`taken, this`worker
      ensures next == old(queue)[0] && Now() == Got(old(Now()))
    {
      next := queue[0];
      queue, taken := queue[1..], taken + [next];
      worker := if next.Stop? then Stopped else Running(next.id);
    }

    method WakeNext()
      modifies this`woken, this`line
      ensures Now() == Wake(old(Now()))
    {
      if line != [] {
        woken, line := woken + [line[0]], line[1..];
      }
    }

    /** One turn of the worker loop: get an item, wake the first in line, and stop at a stop. */
    method TakeNext() returns (item: Option<Item>)
      requires Valid(Now()) && worker.Idle?
      modifies this
      ensures Valid(Now())
      ensures item.None? <==> old(queue) == []
      ensures item.Some? ==> item.value == old(queue)[0]
      ensures Now() == if item.Some? then Apply(old(Now()), Take) else old(Now())
    {
      if queue == [] { return None; }
      StepKeepsValid(Now(), Take);
      var next := Get();
      WakeNext();
      return Some(next);
    }

    /** The first put that was woken runs again, and sleeps once more if the slot is gone. */
    method ResumePut()
      requires Valid(Now()) && woken != []
      modifies this
      ensures Valid(Now()) && Now() == Apply(old(Now()), Resume)
    {
      StepKeepsValid(Now(), Resume);
      var item := woken[0];
      woken := woken[1..];
      Put(item);
    }

    /** Recording the outcome of the running job, and answering its submitter unless it has gone. */
    method FinishJob(status: Status)
      requires Valid(Now()) && worker.Running?
      modifies this
      ensures Valid(Now()) && Now() == Apply(old(Now()), Finish(status))
    {
      StepKeepsValid(Now(), Finish(status));
      Settle(status);
    }

    method Settle(status: Status)
      requires worker.Running?
      modifies this`tally, this`futures, this`settled, this`worker
      ensures Now() == Finished(old(Now()), status)
    {
      tally := Counted(tally, status);
      var job := worker.job;
      if job in futures && futures[job].Pending? {
        futures := futures[job := Settled];
        settled := settled + [job];
      }
      worker := Idle;
    }
  }
}
