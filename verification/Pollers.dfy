/** Any number of pollers over one mailbox, interleaved between their reads and their create-if-absent writes. */
module Pollers {
  import opened Wrappers
  import opened RegistryDigest
  import opened Mailbox
  import opened MailboxPolling
  import opened MailboxRuns

  /** Where a poll stands: about to read the next status, to claim a delivery, to record and show, or dead. */
  datatype Phase =
    | Next
    | Claim(message: string, record: bool)
    | Show(message: string, record: bool)
    | Dead

  /** One display: the message, and whether its receipts held no acknowledgement when the poll read them. */
  datatype Showing = Showing(message: string, unanswered: bool)

  /**
   * One poll: its inbox still to do, and what it has claimed and suppressed. The rest is a record kept beside it:
   * whether the receipts held no acknowledgement of the message in hand, all messages for which they held none,
   * and every display.
   */
  datatype Poller = Poller(query: Query, todo: seq<string>, phase: Phase, claimed: set<string>, suppressed: seq<string>,
                           open: bool, unanswered: set<string>, displays: seq<Showing>)

  /** `foreign` holds the markers no poll here created. */
  datatype System = System(store: Store, pollers: map<nat, Poller>, foreign: set<string>)

  datatype Action = Read | Claims | Record | Display | Crash

  datatype Step =
    | Start(p: nat, query: Query, inbox: seq<string>)
    | Act(p: nat, action: Action)
    | Other(op: Op)

  function NewPoll(q: Query, inbox: seq<string>): Poller
  {
    Poller(q, inbox, Next, {}, [], false, {}, [])
  }

  /** The message a poll turns to next, and the status it reads. */
  function AfterRead(s: Store, poll: Poller): Poller
    requires poll.todo != [] && poll.todo[0] in s.messages
  {
    var m, q := s.messages[poll.todo[0]], poll.query;
    var rest := poll.(todo := poll.todo[1..]);
    var record := q.observe && !IsExpired(s, m, q.asOf) && !IsObserved(s, m.id, q.asOf);
    if IsExpired(s, m, q.asOf) && !q.includeExpired then rest
    else if q.event.Some? && !IsAcknowledged(s, m.id, q.asOf)
    then rest.(phase := Phase.Claim(poll.todo[0], record))
    else rest.(phase := Show(poll.todo[0], record))
  }

  function AfterClaim(poll: Poller, c: Claimed): Poller
    requires poll.phase.Claim?
  {
    var id := poll.phase.message;
    match c
    case Won => poll.(claimed := poll.claimed + {id}, phase := Show(id, poll.phase.record))
    case Lost => poll.(suppressed := poll.suppressed + [id], phase := Next)
    case Collided => poll.(phase := Dead)
  }

  /** No receipt in the store acknowledges the message by that time. */
  predicate Unanswered(s: Store, id: string, asOf: int)
  {
    forall k :: k in s.receipts && s.receipts[k].message == id && s.receipts[k].event == Acknowledged ==>
                  s.receipts[k].recordedAt > asOf
  }

  /** What the record beside a poll keeps of an action. */
  function Noted(s: Store, poll: Poller, action: Action, poll': Poller): Poller
    requires Ready(s, poll, action)
  {
    match action
    case Read =>
      var id := poll.todo[0];
      var open := Unanswered(s, id, poll.query.asOf);
      poll'.(open := open, unanswered := poll.unanswered + if open then {id} else {})
    case Display => poll'.(displays := poll.displays + [Showing(poll.phase.message, poll.open)])
    case _ => poll'
  }

  /** Which actions a poll can take. */
  predicate Ready(s: Store, poll: Poller, action: Action)
  {
    match action
    case Read => poll.phase.Next? && poll.todo != [] && poll.todo[0] in s.messages
    case Claims => poll.phase.Claim? && poll.query.event.Some? && poll.phase.message in s.messages
    case Record => poll.phase.Show? && poll.phase.record && poll.phase.message in s.messages
    case Display => poll.phase.Show? && !poll.phase.record
    case Crash => true
  }

  function ClaimOf(h: Hashing, s: Store, poll: Poller): (Store, Claimed)
    requires poll.phase.Claim? && poll.query.event.Some? && poll.phase.message in s.messages
  {
    var m := s.messages[poll.phase.message];
    ClaimDelivery(h, s, m.id, m.recipient, poll.query.event.value, poll.query.asOf)
  }

  function RecordOf(h: Hashing, s: Store, poll: Poller): (Store, Poller)
    requires poll.phase.Show? && poll.phase.message in s.messages
  {
    var (s', r) := StoreReceipt(s, Observation(h, s.messages[poll.phase.message], poll.query.asOf));
    (s', poll.(phase := if r.Err? then Dead else poll.phase.(record := false)))
  }

  function Do(h: Hashing, s: Store, poll: Poller, action: Action): (Store, Poller)
    requires Ready(s, poll, action)
  {
    var (s', poll') := match action
      case Read => (s, AfterRead(s, poll))
      case Claims => var (s', c) := ClaimOf(h, s, poll); (s', AfterClaim(poll, c))
      case Record => RecordOf(h, s, poll)
      case Display => (s, poll.(phase := Next))
      case Crash => (s, poll.(phase := Dead));
    (s', Noted(s, poll, action, poll'))
  }

  predicate Enabled(s: System, step: Step)
  {
    match step
    case Start(p, q, inbox) => p !in s.pollers && forall id :: id in inbox ==> id in s.store.messages && Selected(s.store.messages[id], q)
    case Act(p, action) => p in s.pollers && Ready(s.store, s.pollers[p], action)
    case Other(op) => !op.Polls?
  }

  ghost function Take(h: Hashing, s: System, step: Step): System
    requires Enabled(s, step)
  {
    match step
    case Start(p, q, inbox) => s.(pollers := s.pollers[p := NewPoll(q, inbox)])
    case Act(p, action) =>
      var (store, poll) := Do(h, s.store, s.pollers[p], action);
      s.(store := store, pollers := s.pollers[p := poll])
    case Other(op) =>
      var store := Apply(h, s.store, op);
      s.(store := store, foreign := s.foreign + (store.deliveries.Keys - s.store.deliveries.Keys))
  }

  // ---------------------------------------------------------------------
  // Invariant

  function MarkOf(h: Hashing, m: Message, event: string): string
  {
    StableId(h, "delivery", [m.id, m.recipient, event])
  }

  /** The message's own marker for this event is stored. */
  predicate MarkedFor(h: Hashing, s: Store, id: string, q: Query)
  {
    && id in s.messages && q.event.Some?
    && var m := s.messages[id];
       var k := MarkOf(h, m, q.event.value);
       k in s.deliveries && s.deliveries[k] == Marker(h, m.id, m.recipient, q.event.value, s.deliveries[k].recordedAt)
  }

  /** Past its expiry by the poll's clock, when the poll leaves out what has expired. */
  predicate Lapsed(s: Store, id: string, q: Query)
  {
    id in s.messages && q.asOf >= s.messages[id].expires && !q.includeExpired
  }

  /** Displays of unanswered messages come from claims, each at most once. */
  ghost predicate DisplaysClaimed(poll: Poller)
  {
    poll.query.event.Some? ==>
      && (forall i :: 0 <= i < |poll.displays| && poll.displays[i].unanswered ==> poll.displays[i].message in poll.claimed)
      && (forall i, j :: 0 <= i < j < |poll.displays| && poll.displays[i].unanswered ==> poll.displays[i] != poll.displays[j])
      && (poll.phase.Show? && poll.open ==>
            poll.phase.message in poll.claimed && Showing(poll.phase.message, true) !in poll.displays)
      && (poll.phase.Claim? ==> poll.open)
  }

  predicate InHand(poll: Poller, id: string)
  {
    poll.phase.Claim? && poll.phase.message == id
  }

  /** A poll of an event has dealt with every message it found unanswered, and shown every message it claimed. */
  ghost predicate AllDealtWith(s: Store, poll: Poller)
  {
    poll.query.event.Some? && !poll.phase.Dead? ==>
      && (forall id :: id in poll.unanswered && !InHand(poll, id) ==>
            id in poll.claimed || id in poll.suppressed || Lapsed(s, id, poll.query))
      && (forall id :: id in poll.claimed && !(poll.phase.Show? && poll.open && poll.phase.message == id) ==>
            Showing(id, true) in poll.displays)
  }

  ghost predicate PollerSound(h: Hashing, s: Store, poll: Poller)
  {
    && (forall id :: id in poll.claimed || id in poll.suppressed ==> MarkedFor(h, s, id, poll.query))
    && DisplaysClaimed(poll) && AllDealtWith(s, poll)
  }

  /** No two polls of one event have claimed one message. */
  predicate NoDoubleClaim(a: Poller, b: Poller)
  {
    a.query.event == b.query.event ==> a.claimed !! b.claimed
  }

  ghost predicate Sound(h: Hashing, s: System)
  {
    && Sane(s.store)
    && (forall p :: p in s.pollers ==> PollerSound(h, s.store, s.pollers[p]))
    && (forall p, r :: p in s.pollers && r in s.pollers && p != r ==> NoDoubleClaim(s.pollers[p], s.pollers[r]))
  }

  lemma MarksLast(h: Hashing, s: Store, s': Store, id: string, q: Query)
    requires Grows(s, s') && MarkedFor(h, s, id, q)
    ensures MarkedFor(h, s', id, q)
  {
  }

  lemma PollerLasts(h: Hashing, s: Store, s': Store, poll: Poller)
    requires Grows(s, s') && PollerSound(h, s, poll)
    ensures PollerSound(h, s', poll)
  {
    forall id | id in poll.claimed || id in poll.suppressed
      ensures MarkedFor(h, s', id, poll.query)
    {
      MarksLast(h, s, s', id, poll.query);
    }
    assert forall id :: Lapsed(s, id, poll.query) ==> Lapsed(s', id, poll.query);
  }

  /** A won claim is new, a lost one was marked already; either way the message is marked afterwards. */
  lemma ClaimOutcome(h: Hashing, s: Store, poll: Poller)
    requires Sane(s) && poll.phase.Claim? && poll.query.event.Some? && poll.phase.message in s.messages
    ensures var (s', c) := ClaimOf(h, s, poll);
            && Grows(s, s') && Sane(s') && s'.messages == s.messages
            && (c.Won? ==> !MarkedFor(h, s, poll.phase.message, poll.query))
            && (c.Lost? ==> MarkedFor(h, s, poll.phase.message, poll.query))
            && (MarkedFor(h, s, poll.phase.message, poll.query) ==> c.Lost?)
            && (!c.Collided? ==> MarkedFor(h, s', poll.phase.message, poll.query))
  {
  }

  lemma ClaimKeepsPoller(h: Hashing, s: Store, poll: Poller)
    requires Sane(s) && PollerSound(h, s, poll)
    requires poll.phase.Claim? && poll.query.event.Some? && poll.phase.message in s.messages
    ensures var (s', c) := ClaimOf(h, s, poll);
            PollerSound(h, s', AfterClaim(poll, c))
  {
    ClaimOutcome(h, s, poll);
    var (s', c) := ClaimOf(h, s, poll);
    PollerLasts(h, s, s', poll);
  }

  lemma DisplayKeepsPoller(h: Hashing, s: Store, poll: Poller)
    requires PollerSound(h, s, poll) && Ready(s, poll, Display)
    ensures PollerSound(h, s, Do(h, s, poll, Display).1)
  {
    var poll', last := Do(h, s, poll, Display).1, Showing(poll.phase.message, poll.open);
    assert poll'.displays == poll.displays + [last] && last in poll'.displays;
    assert forall d :: d in poll.displays ==> d in poll'.displays;
  }

  /** Messages already claimed by another poll of the event cannot be won again. */
  lemma WinIsNew(h: Hashing, s: Store, winner: Poller, other: Poller)
    requires Sane(s) && PollerSound(h, s, other) && NoDoubleClaim(winner, other)
    requires winner.phase.Claim? && winner.query.event.Some? && winner.phase.message in s.messages
    ensures NoDoubleClaim(AfterClaim(winner, ClaimOf(h, s, winner).1), other)
  {
    ClaimOutcome(h, s, winner);
    var id := winner.phase.message;
    if winner.query.event == other.query.event && id in other.claimed {
      assert MarkedFor(h, s, id, other.query);
      assert MarkedFor(h, s, id, winner.query);
    }
  }

  lemma ActionKeepsPoller(h: Hashing, s: Store, poll: Poller, action: Action)
    requires Sane(s) && PollerSound(h, s, poll) && Ready(s, poll, action)
    ensures var (s', poll') := Do(h, s, poll, action);
            Grows(s, s') && Sane(s') && PollerSound(h, s', poll') && poll'.query == poll.query
  {
    match action
    case Read => ReadKeepsPoller(h, s, poll);
    case Claims => ClaimOutcome(h, s, poll); ClaimKeepsPoller(h, s, poll);
    case Record => RecordKeepsPoller(h, s, poll);
    case Display => DisplayKeepsPoller(h, s, poll);
    case Crash =>
  }

  lemma ReadKeepsPoller(h: Hashing, s: Store, poll: Poller)
    requires Sane(s) && PollerSound(h, s, poll) && Ready(s, poll, Read)
    ensures PollerSound(h, s, Do(h, s, poll, Read).1)
  {
    UnansweredExactly(s, poll.todo[0], poll.query.asOf);
  }

  lemma UnansweredExactly(s: Store, id: string, asOf: int)
    ensures Unanswered(s, id, asOf) <==> !IsAcknowledged(s, id, asOf)
  {
  }

  lemma RecordKeepsPoller(h: Hashing, s: Store, poll: Poller)
    requires Sane(s) && PollerSound(h, s, poll) && Ready(s, poll, Record)
    ensures var (s', poll') := RecordOf(h, s, poll);
            Grows(s, s') && Sane(s') && PollerSound(h, s', poll')
  {
    var s' := RecordOf(h, s, poll).0;
    assert Grows(s, s');
    PollerLasts(h, s, s', poll);
  }

  lemma ActionKeepsClaimsApart(h: Hashing, s: Store, poll: Poller, action: Action, other: Poller)
    requires Sane(s) && PollerSound(h, s, other) && Ready(s, poll, action) && NoDoubleClaim(poll, other)
    ensures NoDoubleClaim(Do(h, s, poll, action).1, other)
  {
    if action.Claims? {
      WinIsNew(h, s, poll, other);
    }
  }

  /** Fresh identifiers are free of NUL, so the store stays sane under foreign operations too. */
  ghost predicate Clean(step: Step)
  {
    step.Other? && step.op.Sends? ==> NUL !in step.op.sending.uuid
  }

  lemma OtherKeepsSane(h: Hashing, s: Store, op: Op)
    requires Ideal(h) && Sane(s) && !op.Polls? && (op.Sends? ==> NUL !in op.sending.uuid)
    ensures Sane(Apply(h, s, op))
  {
    match op
    case Sends(c) => SendStoresOwnMessage(h, s, c);
    case Answers(c) =>
    case Drains(q) => ApplyGrows(h, s, op); DrainGrows(h, s, q, MailboxDrain.Agenda(h, s, q, Ordered(s)));
  }

  lemma OthersLast(h: Hashing, s: System, store: Store)
    requires Sound(h, s) && Grows(s.store, store)
    ensures forall p :: p in s.pollers ==> PollerSound(h, store, s.pollers[p])
  {
    forall p | p in s.pollers
      ensures PollerSound(h, store, s.pollers[p])
    {
      PollerLasts(h, s.store, store, s.pollers[p]);
    }
  }

  lemma StepKeepsSound(h: Hashing, s: System, step: Step)
    requires Ideal(h) && Sound(h, s) && Enabled(s, step) && Clean(step)
    ensures Sound(h, Take(h, s, step))
  {
    match step
    case Start(p, q, inbox) =>
    case Act(p, action) => ActKeepsSound(h, s, p, action);
    case Other(op) =>
      ApplyGrows(h, s.store, op);
      OtherKeepsSane(h, s.store, op);
      OthersLast(h, s, Apply(h, s.store, op));
  }

  lemma ActKeepsSound(h: Hashing, s: System, p: nat, action: Action)
    requires Ideal(h) && Sound(h, s) && Enabled(s, Act(p, action))
    ensures Sound(h, Take(h, s, Act(p, action)))
  {
    var (store, poll) := Do(h, s.store, s.pollers[p], action);
    ActionKeepsPoller(h, s.store, s.pollers[p], action);
    OthersLast(h, s, store);
    forall r | r in s.pollers && r != p
      ensures NoDoubleClaim(poll, s.pollers[r]) && NoDoubleClaim(s.pollers[r], poll)
    {
      ActionKeepsClaimsApart(h, s.store, s.pollers[p], action, s.pollers[r]);
    }
  }

  // ---------------------------------------------------------------------
  // Runs

  /** Every step is enabled when taken. */
  ghost predicate Legal(h: Hashing, s: System, steps: seq<Step>)
    decreases |steps|
  {
    steps == [] || (Enabled(s, steps[0]) && Clean(steps[0]) && Legal(h, Take(h, s, steps[0]), steps[1..]))
  }

  ghost function Run(h: Hashing, s: System, steps: seq<Step>): System
    requires Legal(h, s, steps)
    decreases |steps|
  {
    if steps == [] then s else Run(h, Take(h, s, steps[0]), steps[1..])
  }

  lemma {:induction false} RunKeepsSound(h: Hashing, s: System, steps: seq<Step>)
    requires Ideal(h) && Sound(h, s) && Legal(h, s, steps)
    ensures Sound(h, Run(h, s, steps))
    decreases |steps|
  {
    if steps != [] {
      StepKeepsSound(h, s, steps[0]);
      RunKeepsSound(h, Take(h, s, steps[0]), steps[1..]);
    }
  }

  /** From any store, with no poll started. */
  function Fresh(store: Store): System
  {
    System(store, map[], store.deliveries.Keys)
  }

  /** In every interleaving, a message whose receipts held no acknowledgement is displayed at most once for one event. */
  lemma ShownAtMostOnce(h: Hashing, store: Store, steps: seq<Step>, p: nat, r: nat, i: nat, j: nat)
    requires Ideal(h) && Sane(store) && Legal(h, Fresh(store), steps)
    requires var s := Run(h, Fresh(store), steps);
             && p in s.pollers && r in s.pollers
             && s.pollers[p].query.event.Some? && s.pollers[p].query.event == s.pollers[r].query.event
             && i < |s.pollers[p].displays| && j < |s.pollers[r].displays|
             && s.pollers[p].displays[i] == s.pollers[r].displays[j] && s.pollers[p].displays[i].unanswered
    ensures p == r && i == j
  {
    RunKeepsSound(h, Fresh(store), steps);
    var s := Run(h, Fresh(store), steps);
    var id := s.pollers[p].displays[i].message;
    assert NoDoubleClaim(s.pollers[p], s.pollers[r]) || p == r;
    assert PollerSound(h, s.store, s.pollers[p]) && PollerSound(h, s.store, s.pollers[r]);
    assert id in s.pollers[p].claimed && id in s.pollers[r].claimed;
  }

  /**
   * And every other finished poll of that event that found it unanswered reports it suppressed, unless it leaves out
   * what has expired and the message has.
   */
  lemma OthersReportSuppressed(h: Hashing, store: Store, steps: seq<Step>, p: nat, r: nat, id: string)
    requires Ideal(h) && Sane(store) && Legal(h, Fresh(store), steps)
    requires var s := Run(h, Fresh(store), steps);
             && p in s.pollers && r in s.pollers && p != r
             && s.pollers[p].query.event.Some? && s.pollers[p].query.event == s.pollers[r].query.event
             && Showing(id, true) in s.pollers[p].displays && id in s.pollers[r].unanswered && s.pollers[r].phase.Next?
    ensures var s := Run(h, Fresh(store), steps);
            && (id in s.pollers[r].suppressed || Lapsed(s.store, id, s.pollers[r].query))
            && Showing(id, true) !in s.pollers[r].displays
  {
    RunKeepsSound(h, Fresh(store), steps);
    var s := Run(h, Fresh(store), steps);
    assert NoDoubleClaim(s.pollers[p], s.pollers[r]);
    assert PollerSound(h, s.store, s.pollers[p]) && PollerSound(h, s.store, s.pollers[r]);
  }

  /** A finished poll of an event has displayed what it claimed, and dealt with all it found unanswered. */
  lemma FinishedPollDisplays(h: Hashing, store: Store, steps: seq<Step>, p: nat, id: string)
    requires Ideal(h) && Sane(store) && Legal(h, Fresh(store), steps)
    requires var s := Run(h, Fresh(store), steps);
             && p in s.pollers && s.pollers[p].query.event.Some? && s.pollers[p].phase.Next? && id in s.pollers[p].unanswered
    ensures var s := Run(h, Fresh(store), steps);
            Showing(id, true) in s.pollers[p].displays || id in s.pollers[p].suppressed || Lapsed(s.store, id, s.pollers[p].query)
  {
    RunKeepsSound(h, Fresh(store), steps);
  }

  // ---------------------------------------------------------------------
  // Whose messages a poll handles

  predicate Addressed(s: Store, id: string, q: Query)
  {
    id in s.messages && s.messages[id].recipient == q.session && (q.project == None || q.project == Some(s.messages[id].project))
  }

  /** Everything the poll has to do, has in hand or has displayed is addressed to its session and project. */
  ghost predicate OwnMail(s: Store, poll: Poller)
  {
    && (forall id :: id in poll.todo ==> Addressed(s, id, poll.query))
    && (poll.phase.Claim? || poll.phase.Show? ==> Addressed(s, poll.phase.message, poll.query))
    && (forall d :: d in poll.displays ==> Addressed(s, d.message, poll.query))
    && (forall id :: id in poll.suppressed ==> Addressed(s, id, poll.query))
  }

  ghost predicate AllOwnMail(s: System)
  {
    forall p :: p in s.pollers ==> OwnMail(s.store, s.pollers[p])
  }

  lemma ActionKeepsOwnMail(h: Hashing, s: Store, poll: Poller, action: Action)
    requires Ready(s, poll, action) && OwnMail(s, poll)
    ensures var (s', poll') := Do(h, s, poll, action); OwnMail(s', poll') && s'.messages == s.messages
  {
  }

  lemma OwnMailLasts(s: Store, s': Store, poll: Poller)
    requires Grows(s, s') && OwnMail(s, poll)
    ensures OwnMail(s', poll)
  {
    assert forall id :: Addressed(s, id, poll.query) ==> Addressed(s', id, poll.query);
  }

  lemma StepKeepsOwnMail(h: Hashing, s: System, step: Step)
    requires Enabled(s, step) && AllOwnMail(s)
    ensures AllOwnMail(Take(h, s, step))
  {
    match step
    case Start(_, _, _) =>
    case Act(p, action) =>
      ActionKeepsOwnMail(h, s.store, s.pollers[p], action);
      var store := Do(h, s.store, s.pollers[p], action).0;
      assert forall id, q :: Addressed(s.store, id, q) ==> Addressed(store, id, q);
    case Other(op) =>
      ApplyGrows(h, s.store, op);
      forall p | p in s.pollers
        ensures OwnMail(Apply(h, s.store, op), s.pollers[p])
      {
        OwnMailLasts(s.store, Apply(h, s.store, op), s.pollers[p]);
      }
  }

  lemma {:induction false} RunKeepsOwnMail(h: Hashing, s: System, steps: seq<Step>)
    requires Legal(h, s, steps) && AllOwnMail(s)
    ensures AllOwnMail(Run(h, s, steps))
    decreases |steps|
  {
    if steps != [] {
      StepKeepsOwnMail(h, s, steps[0]);
      RunKeepsOwnMail(h, Take(h, s, steps[0]), steps[1..]);
    }
  }

  /** In every interleaving a poll displays and suppresses only messages addressed to its session and project. */
  lemma OnlyOwnMailIsShown(h: Hashing, store: Store, steps: seq<Step>, p: nat, id: string)
    requires Legal(h, Fresh(store), steps)
    requires var s := Run(h, Fresh(store), steps);
             p in s.pollers && (id in s.pollers[p].suppressed || exists d :: d in s.pollers[p].displays && d.message == id)
    ensures var s := Run(h, Fresh(store), steps); Addressed(s.store, id, s.pollers[p].query)
  {
    RunKeepsOwnMail(h, Fresh(store), steps);
  }

  /** A step of one poll changes that poll and the store alone; any other operation changes the store as it does by itself. */
  lemma StepsInPlace(h: Hashing, s: System, step: Step)
    requires Enabled(s, step) && !step.Start?
    ensures var s' := Take(h, s, step);
            match step
            case Act(p, action) =>
              (s'.store, s'.pollers[p]) == Do(h, s.store, s.pollers[p], action) && s'.pollers == s.pollers[p := s'.pollers[p]]
            case Other(op) => s'.store == Apply(h, s.store, op) && s'.pollers == s.pollers
            case _ => true
  {
  }

  // ---------------------------------------------------------------------
  // Every marker has an owner

  /** `k` marks a message this poll claimed. */
  ghost predicate HasClaimed(h: Hashing, s: Store, poll: Poller, k: string)
  {
    exists id :: id in poll.claimed && MarkedFor(h, s, id, poll.query) && k == MarkOf(h, s.messages[id], poll.query.event.value)
  }

  ghost predicate Accounted(h: Hashing, s: System)
  {
    forall k :: k in s.store.deliveries && k !in s.foreign ==> Owned(h, s, k)
  }

  lemma ClaimLasts(h: Hashing, s: Store, s': Store, poll: Poller, poll': Poller, k: string)
    requires HasClaimed(h, s, poll, k) && Grows(s, s') && poll'.query == poll.query && poll.claimed <= poll'.claimed
    ensures HasClaimed(h, s', poll', k)
  {
    var id :| id in poll.claimed && MarkedFor(h, s, id, poll.query) && k == MarkOf(h, s.messages[id], poll.query.event.value);
    MarksLast(h, s, s', id, poll.query);
    assert id in poll'.claimed;
  }

  /** An action adds a marker only by claiming it. */
  lemma ActionAccounts(h: Hashing, s: Store, poll: Poller, action: Action, k: string)
    requires Sane(s) && Ready(s, poll, action)
    ensures var (s', poll') := Do(h, s, poll, action);
            && poll.claimed <= poll'.claimed && poll'.query == poll.query
            && (k in s'.deliveries ==> k in s.deliveries || HasClaimed(h, s', poll', k))
  {
    var (s', poll') := Do(h, s, poll, action);
    if action.Claims? && k in s'.deliveries && k !in s.deliveries {
      ClaimOutcome(h, s, poll);
      assert poll.phase.message in poll'.claimed;
    }
  }

  /** `k` was claimed by some poll here. */
  ghost predicate Owned(h: Hashing, s: System, k: string)
  {
    exists p :: p in s.pollers && HasClaimed(h, s.store, s.pollers[p], k)
  }

  lemma OwnersLast(h: Hashing, s: System, s': System, k: string)
    requires Owned(h, s, k) && Grows(s.store, s'.store)
    requires forall p :: p in s.pollers ==>
               p in s'.pollers && s'.pollers[p].query == s.pollers[p].query && s.pollers[p].claimed <= s'.pollers[p].claimed
    ensures Owned(h, s', k)
  {
    var p :| p in s.pollers && HasClaimed(h, s.store, s.pollers[p], k);
    ClaimLasts(h, s.store, s'.store, s.pollers[p], s'.pollers[p], k);
  }

  lemma StepOwns(h: Hashing, s: System, step: Step, k: string)
    requires Sound(h, s) && Enabled(s, step)
    requires k in s.store.deliveries && k !in s.foreign ==> Owned(h, s, k)
    ensures var s' := Take(h, s, step);
            k in s'.store.deliveries && k !in s'.foreign ==> Owned(h, s', k)
  {
    var s' := Take(h, s, step);
    if k in s'.store.deliveries && k !in s'.foreign {
      match step
      case Start(p, q, inbox) => StartOwns(h, s, step, k);
      case Act(p, action) => ActOwns(h, s, p, action, k);
      case Other(op) => OtherOwns(h, s, op, k);
    }
  }

  lemma OtherOwns(h: Hashing, s: System, op: Op, k: string)
    requires !op.Polls? && Owned(h, s, k)
    ensures Owned(h, Take(h, s, Other(op)), k)
  {
    ApplyGrows(h, s.store, op);
    OwnersLast(h, s, Take(h, s, Other(op)), k);
  }

  lemma StartOwns(h: Hashing, s: System, step: Step, k: string)
    requires step.Start? && Enabled(s, step) && Owned(h, s, k)
    ensures Owned(h, Take(h, s, step), k)
  {
    OwnersLast(h, s, Take(h, s, step), k);
  }

  lemma ActOwns(h: Hashing, s: System, p: nat, action: Action, k: string)
    requires Sound(h, s) && Enabled(s, Act(p, action))
    requires k in s.store.deliveries && k !in s.foreign ==> Owned(h, s, k)
    requires var s' := Take(h, s, Act(p, action)); k in s'.store.deliveries && k !in s'.foreign
    ensures Owned(h, Take(h, s, Act(p, action)), k)
  {
    var (store, poll) := Do(h, s.store, s.pollers[p], action);
    ActionKeepsPoller(h, s.store, s.pollers[p], action);
    ActionAccounts(h, s.store, s.pollers[p], action, k);
    OneActed(h, s, p, store, poll, k);
  }

  lemma OneActed(h: Hashing, s: System, p: nat, store: Store, poll: Poller, k: string)
    requires p in s.pollers && Grows(s.store, store)
    requires poll.query == s.pollers[p].query && s.pollers[p].claimed <= poll.claimed
    requires Owned(h, s, k) || HasClaimed(h, store, poll, k)
    ensures Owned(h, s.(store := store, pollers := s.pollers[p := poll]), k)
  {
    var s' := s.(store := store, pollers := s.pollers[p := poll]);
    if Owned(h, s, k) {
      OwnersLast(h, s, s', k);
    } else {
      assert HasClaimed(h, s'.store, s'.pollers[p], k);
    }
  }

  lemma StepAccounts(h: Hashing, s: System, step: Step)
    requires Sound(h, s) && Accounted(h, s) && Enabled(s, step)
    ensures Accounted(h, Take(h, s, step))
  {
    forall k
      ensures var s' := Take(h, s, step); k in s'.store.deliveries && k !in s'.foreign ==> Owned(h, s', k)
    {
      StepOwns(h, s, step, k);
    }
  }

  lemma {:induction false} RunAccounts(h: Hashing, s: System, steps: seq<Step>)
    requires Ideal(h) && Sound(h, s) && Accounted(h, s) && Legal(h, s, steps)
    ensures Accounted(h, Run(h, s, steps))
    decreases |steps|
  {
    if steps != [] {
      StepKeepsSound(h, s, steps[0]);
      StepAccounts(h, s, steps[0]);
      RunAccounts(h, Take(h, s, steps[0]), steps[1..]);
    }
  }

  /** A message is suppressed only because some poll here claimed it for that very event, or its marker came from elsewhere. */
  lemma SuppressionHasCause(h: Hashing, store: Store, steps: seq<Step>, r: nat, id: string)
    requires Ideal(h) && Sane(store) && Legal(h, Fresh(store), steps)
    requires var s := Run(h, Fresh(store), steps);
             && (forall m :: m in s.store.messages ==> NUL !in s.store.messages[m].recipient)
             && r in s.pollers && id in s.pollers[r].suppressed
    ensures var s := Run(h, Fresh(store), steps);
            || (exists p :: p in s.pollers && id in s.pollers[p].claimed && s.pollers[p].query.event == s.pollers[r].query.event)
            || (id in s.store.messages && s.pollers[r].query.event.Some?
                && MarkOf(h, s.store.messages[id], s.pollers[r].query.event.value) in s.foreign)
  {
    RunKeepsSound(h, Fresh(store), steps);
    RunAccounts(h, Fresh(store), steps);
    var s := Run(h, Fresh(store), steps);
    var poll := s.pollers[r];
    assert PollerSound(h, s.store, poll) && MarkedFor(h, s.store, id, poll.query);
    var m := s.store.messages[id];
    var k := MarkOf(h, m, poll.query.event.value);
    if k !in s.foreign {
      assert Owned(h, s, k);
      var p :| p in s.pollers && HasClaimed(h, s.store, s.pollers[p], k);
      var q := s.pollers[p].query;
      var o :| o in s.pollers[p].claimed && MarkedFor(h, s.store, o, q) && k == MarkOf(h, s.store.messages[o], q.event.value);
      var n := s.store.messages[o];
      ClaimsAreIndependent(h, m.id, m.recipient, poll.query.event.value, n.id, n.recipient, q.event.value);
      assert o == id && q.event == poll.query.event;
    }
  }

  /** A claim wins exactly when no marker for that message, session and event is stored: another event shows it again. */
  lemma AnotherEventShowsAgain(h: Hashing, s: Store, poll: Poller)
    requires Ideal(h) && Sane(s) && Marked(h, s) && Ready(s, poll, Claims)
    requires NUL !in s.messages[poll.phase.message].recipient
    ensures ClaimOf(h, s, poll).1.Won? <==>
            forall k :: k in s.deliveries && s.deliveries[k].message == poll.phase.message
                        && s.deliveries[k].recipient == s.messages[poll.phase.message].recipient
                        ==> s.deliveries[k].event != poll.query.event.value
  {
    var m := s.messages[poll.phase.message];
    ClaimIsExact(h, s, m.id, m.recipient, poll.query.event.value, poll.query.asOf);
    forall k | k in s.deliveries
      ensures k == MarkOf(h, m, poll.query.event.value) <==>
              s.deliveries[k].message == m.id && s.deliveries[k].recipient == m.recipient
              && s.deliveries[k].event == poll.query.event.value
    {
      var d := s.deliveries[k];
      ClaimsAreIndependent(h, d.message, d.recipient, d.event, m.id, m.recipient, poll.query.event.value);
    }
  }
}
