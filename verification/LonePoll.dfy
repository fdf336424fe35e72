/** A poll that is not disturbed: its micro-steps add up to the poll as a whole. */
module LonePoll {
  import opened Mailbox
  import opened MailboxPolling
  import opened Pollers

  // ---------------------------------------------------------------------
  // What a poll does next

  predicate Over(poll: Poller)
  {
    poll.phase.Dead? || (poll.phase.Next? && poll.todo == [])
  }

  /** The messages the poll still needs are stored, and it claims only when it names an event. */
  predicate Able(s: Store, poll: Poller)
  {
    && (forall id :: id in poll.todo ==> id in s.messages)
    && (poll.phase.Claim? || poll.phase.Show? ==> poll.phase.message in s.messages)
    && (poll.phase.Claim? ==> poll.query.event.Some?)
  }

  function NextAction(poll: Poller): Action
    requires !Over(poll)
  {
    match poll.phase
    case Next => Read
    case Claim(_, _) => Claims
    case Show(_, record) => if record then Record else Display
  }

  /** Short of a crash there is one thing a poll can do, until it is over. */
  lemma OneActionReady(s: Store, poll: Poller, action: Action)
    requires Able(s, poll) && !action.Crash?
    ensures Ready(s, poll, action) <==> !Over(poll) && action == NextAction(poll)
  {
  }

  function Weight(phase: Phase): nat
  {
    match phase
    case Claim(_, _) => 3
    case Show(_, record) => if record then 2 else 1
    case _ => 0
  }

  lemma ActionKeepsAble(h: Hashing, s: Store, poll: Poller, action: Action)
    requires Able(s, poll) && Ready(s, poll, action)
    ensures var (s', poll') := Do(h, s, poll, action);
            && Able(s', poll') && s'.messages == s.messages && poll'.query == poll.query
            && (!action.Crash? ==>
                  |poll'.todo| < |poll.todo| || (poll'.todo == poll.todo && Weight(poll'.phase) < Weight(poll.phase)))
  {
  }

  /** The poll carried to its end. */
  function Finish(h: Hashing, s: Store, poll: Poller): (Store, Poller)
    requires Able(s, poll)
    decreases |poll.todo|, Weight(poll.phase)
  {
    if Over(poll) then (s, poll)
    else
      OneActionReady(s, poll, NextAction(poll));
      ActionKeepsAble(h, s, poll, NextAction(poll));
      var (s', poll') := Do(h, s, poll, NextAction(poll));
      Finish(h, s', poll')
  }

  // ---------------------------------------------------------------------
  // One message

  function Ids(displays: seq<Showing>): seq<string>
  {
    seq(|displays|, i requires 0 <= i < |displays| => displays[i].message)
  }

  /** What the outcome of one message adds to a poll. */
  ghost predicate Adds(poll: Poller, poll': Poller, p: Polled, id: string)
  {
    && poll'.query == poll.query
    && (if p.Failed? then poll'.phase.Dead? else poll'.phase.Next?)
    && (!p.Failed? ==>
          && Ids(poll'.displays) == Ids(poll.displays) + (if p.Shown? then [id] else [])
          && poll'.suppressed == poll.suppressed + (if p.Suppressed? then [id] else []))
  }

  lemma ShowRound(h: Hashing, s: Store, poll: Poller) returns (poll': Poller)
    requires Able(s, poll) && poll.phase.Show?
    ensures var (s', p) := ViewPhase(h, s, poll.query, s.messages[poll.phase.message], poll.phase.record);
            && s'.messages == s.messages && Able(s', poll') && poll'.todo == poll.todo
            && Finish(h, s, poll) == Finish(h, s', poll') && Adds(poll, poll', p, poll.phase.message)
  {
    var s1, poll1 := s, poll;
    if poll.phase.record {
      ActionKeepsAble(h, s, poll, Record);
      var done := Do(h, s, poll, Record);
      s1, poll1 := done.0, done.1;
    }
    if poll1.phase.Dead? {
      poll' := poll1;
    } else {
      ActionKeepsAble(h, s1, poll1, Display);
      poll' := Do(h, s1, poll1, Display).1;
      assert Finish(h, s1, poll1) == Finish(h, s1, poll');
    }
  }

  lemma ClaimRound(h: Hashing, s: Store, poll: Poller) returns (poll': Poller)
    requires Able(s, poll) && poll.phase.Claim?
    ensures var m := s.messages[poll.phase.message];
            var (s1, c) := ClaimDelivery(h, s, m.id, m.recipient, poll.query.event.value, poll.query.asOf);
            var (s', p) := if c.Lost? then (s1, Suppressed) else if c.Collided? then (s1, Failed)
                           else ViewPhase(h, s1, poll.query, m, poll.phase.record);
            && s'.messages == s.messages && Able(s', poll') && poll'.todo == poll.todo
            && Finish(h, s, poll) == Finish(h, s', poll') && Adds(poll, poll', p, poll.phase.message)
  {
    ActionKeepsAble(h, s, poll, Claims);
    var (s1, poll1) := Do(h, s, poll, Claims);
    assert Finish(h, s, poll) == Finish(h, s1, poll1);
    if poll1.phase.Show? {
      poll' := ShowRound(h, s1, poll1);
    } else {
      poll' := poll1;
    }
  }

  /** The micro-steps on one message have the outcome of polling it. */
  lemma MessageRound(h: Hashing, s: Store, poll: Poller) returns (poll': Poller)
    requires Sane(s) && Able(s, poll) && poll.phase.Next? && poll.todo != []
    ensures var (s', p) := PollOne(h, s, poll.query, s.messages[poll.todo[0]]);
            && s'.messages == s.messages && Able(s', poll') && poll'.todo == poll.todo[1..]
            && Finish(h, s, poll) == Finish(h, s', poll') && Adds(poll, poll', p, poll.todo[0])
  {
    ActionKeepsAble(h, s, poll, Read);
    var poll1 := Do(h, s, poll, Read).1;
    assert Finish(h, s, poll) == Finish(h, s, poll1);
    if poll1.phase.Claim? {
      poll' := ClaimRound(h, s, poll1);
    } else if poll1.phase.Show? {
      poll' := ShowRound(h, s, poll1);
    } else {
      poll' := poll1;
    }
  }

  // ---------------------------------------------------------------------
  // The whole poll

  /** The state a finished poll leaves is that of polling its inbox. */
  ghost predicate Ends(poll: Poller, end: (Store, Poller), inbox: Inbox)
  {
    && end.0 == inbox.store && (end.1.phase.Dead? <==> inbox.failed)
    && (!inbox.failed ==>
          && Ids(end.1.displays) == Ids(poll.displays) + ViewIds(inbox.shown)
          && end.1.suppressed == poll.suppressed + inbox.suppressed)
  }

  lemma {:induction false} FinishIsPoll(h: Hashing, s: Store, poll: Poller)
    requires Sane(s) && Able(s, poll) && poll.phase.Next?
    requires forall id :: id in poll.todo ==> Selected(s.messages[id], poll.query)
    ensures Ends(poll, Finish(h, s, poll), PollFrom(h, s, poll.query, poll.todo))
    decreases |poll.todo|
  {
    if poll.todo == [] {
      assert Ids(poll.displays) + [] == Ids(poll.displays) && poll.suppressed + [] == poll.suppressed;
    } else {
      var m := s.messages[poll.todo[0]];
      var (s', p) := PollOne(h, s, poll.query, m);
      var poll' := MessageRound(h, s, poll);
      if !p.Failed? {
        FinishIsPoll(h, s', poll');
        var rest := PollFrom(h, s', poll.query, poll.todo[1..]);
        if !rest.failed { EndsJoin(h, s, poll.query, m, p, rest, poll, poll', Finish(h, s, poll)); }
      }
    }
  }

  lemma ShownIsOwnView(h: Hashing, s: Store, q: Query, m: Message)
    ensures var (_, p) := PollOne(h, s, q, m); p.Shown? ==> p.view.message == m
  {
  }

  lemma EndsJoin(h: Hashing, s: Store, q: Query, m: Message, p: Polled, rest: Inbox, poll: Poller, poll': Poller, end: (Store, Poller))
    requires p == PollOne(h, s, q, m).1 && !p.Failed? && !rest.failed
    requires Adds(poll, poll', p, m.id) && Ends(poll', end, rest)
    ensures Ends(poll, end, WithOutcome(m.id, p, rest))
  {
    ShownIsOwnView(h, s, q, m);
    OutcomeAdds(m.id, p, rest);
    JoinThree(Ids(poll.displays), if p.Shown? then [m.id] else [], ViewIds(rest.shown));
    JoinThree(poll.suppressed, if p.Suppressed? then [m.id] else [], rest.suppressed);
  }

  lemma OutcomeAdds(id: string, p: Polled, rest: Inbox)
    requires !p.Failed? && !rest.failed && (p.Shown? ==> p.view.message.id == id)
    ensures var all := WithOutcome(id, p, rest);
            && !all.failed && all.store == rest.store
            && ViewIds(all.shown) == (if p.Shown? then [id] else []) + ViewIds(rest.shown)
            && all.suppressed == (if p.Suppressed? then [id] else []) + rest.suppressed
  {
  }

  lemma JoinThree(a: seq<string>, b: seq<string>, c: seq<string>)
    ensures (a + b) + c == a + (b + c)
  {
  }

  /** The selected messages among `ids`. */
  function Inbound(s: Store, q: Query, ids: seq<string>): (inbox: seq<string>)
    requires forall id :: id in ids ==> id in s.messages
    ensures forall id :: id in inbox ==> id in s.messages && Selected(s.messages[id], q)
  {
    if ids == [] then []
    else (if Selected(s.messages[ids[0]], q) then [ids[0]] else []) + Inbound(s, q, ids[1..])
  }

  lemma {:induction false} InboundPolls(h: Hashing, s: Store, q: Query, ids: seq<string>)
    requires Sane(s) && forall id :: id in ids ==> id in s.messages
    ensures PollFrom(h, s, q, ids) == PollFrom(h, s, q, Inbound(s, q, ids))
    decreases |ids|
  {
    if ids != [] {
      var rest := ids[1..];
      if Selected(s.messages[ids[0]], q) {
        var s' := PollOne(h, s, q, s.messages[ids[0]]).0;
        PollKeepsMessages(h, s, q, s.messages[ids[0]]);
        SameInbound(s, s', q, rest);
        InboundPolls(h, s', q, rest);
        assert Inbound(s, q, ids)[0] == ids[0] && Inbound(s, q, ids)[1..] == Inbound(s, q, rest);
      } else {
        InboundPolls(h, s, q, rest);
        assert Inbound(s, q, ids) == Inbound(s, q, rest);
      }
    }
  }

  lemma PollKeepsMessages(h: Hashing, s: Store, q: Query, m: Message)
    ensures PollOne(h, s, q, m).0.messages == s.messages
  {
  }

  lemma {:induction false} SameInbound(s: Store, s': Store, q: Query, ids: seq<string>)
    requires s'.messages == s.messages && forall id :: id in ids ==> id in s.messages
    ensures Inbound(s', q, ids) == Inbound(s, q, ids)
  {
    if ids != [] { SameInbound(s, s', q, ids[1..]); }
  }

  // ---------------------------------------------------------------------
  // Run alone

  function Acting(p: nat, actions: seq<Action>): seq<Step>
  {
    seq(|actions|, i requires 0 <= i < |actions| => Act(p, actions[i]))
  }

  /** However a poll is run alone, short of a crash, what is left to do leads to the same end. */
  lemma {:induction false} ActingKeepsEnd(h: Hashing, s: System, p: nat, actions: seq<Action>)
    requires p in s.pollers && Able(s.store, s.pollers[p]) && Legal(h, s, Acting(p, actions)) && Action.Crash !in actions
    ensures var s' := Run(h, s, Acting(p, actions));
            && p in s'.pollers && Able(s'.store, s'.pollers[p])
            && Finish(h, s'.store, s'.pollers[p]) == Finish(h, s.store, s.pollers[p])
    decreases |actions|
  {
    if actions != [] {
      var steps, a := Acting(p, actions), actions[0];
      assert steps[0] == Act(p, a) && steps[1..] == Acting(p, actions[1..]);
      assert a in actions;
      OneActionReady(s.store, s.pollers[p], a);
      ActionKeepsAble(h, s.store, s.pollers[p], a);
      ActingKeepsEnd(h, Take(h, s, steps[0]), p, actions[1..]);
    }
  }

  /** One poll run alone to its end displays, suppresses and stores what polling the whole mailbox is specified to. */
  lemma LonePollIsPoll(h: Hashing, store: Store, p: nat, q: Query, ids: seq<string>, actions: seq<Action>)
    requires Sane(store) && (forall id :: id in ids ==> id in store.messages) && Action.Crash !in actions
    requires Legal(h, Fresh(store), [Start(p, q, Inbound(store, q, ids))] + Acting(p, actions))
    requires var s := Run(h, Fresh(store), [Start(p, q, Inbound(store, q, ids))] + Acting(p, actions));
             p in s.pollers ==> Over(s.pollers[p])
    ensures var s, inbox := Run(h, Fresh(store), [Start(p, q, Inbound(store, q, ids))] + Acting(p, actions)), PollFrom(h, store, q, ids);
            && p in s.pollers && s.store == inbox.store && (s.pollers[p].phase.Dead? <==> inbox.failed)
            && (!inbox.failed ==> Ids(s.pollers[p].displays) == ViewIds(inbox.shown) && s.pollers[p].suppressed == inbox.suppressed)
  {
    var todo := Inbound(store, q, ids);
    var first, steps := Start(p, q, todo), Acting(p, actions);
    var all := [first] + steps;
    assert all[0] == first && all[1..] == steps;
    var started := Take(h, Fresh(store), first);
    var poll := NewPoll(q, todo);
    ActingKeepsEnd(h, started, p, actions);
    FinishIsPoll(h, store, poll);
    InboundPolls(h, store, q, ids);
    assert Ids([]) + ViewIds(PollFrom(h, store, q, ids).shown) == ViewIds(PollFrom(h, store, q, ids).shown);
    assert [] + PollFrom(h, store, q, ids).suppressed == PollFrom(h, store, q, ids).suppressed;
  }
}
