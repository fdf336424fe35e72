/** Whole runs of mailbox operations. */
module MailboxRuns {
  import opened Wrappers
  import opened RegistryDigest
  import opened Mailbox
  import opened MailboxPolling
  import opened MailboxDrain

  datatype Op =
    | Sends(sending: Sending)
    | Answers(answering: Answering)
    | Polls(query: Query)
    | Drains(draining: Draining)

  ghost function Apply(h: Hashing, s: Store, op: Op): Store
  {
    match op
    case Sends(c) => Send(h, s, c).0
    case Answers(c) => Acknowledge(h, s, c).0
    case Polls(q) => PollFrom(h, s, q, Ordered(s)).store
    case Drains(q) => DrainStore(h, s, q).store
  }

  ghost function Exec(h: Hashing, s: Store, ops: seq<Op>): Store
    decreases |ops|
  {
    if ops == [] then s else Exec(h, Apply(h, s, ops[0]), ops[1..])
  }

  // ---------------------------------------------------------------------
  // Nothing is rewritten

  lemma {:induction false} PollGrows(h: Hashing, s: Store, q: Query, ids: seq<string>)
    requires forall id :: id in ids ==> id in s.messages
    ensures Grows(s, PollFrom(h, s, q, ids).store)
    ensures NoNewAnswers(s, PollFrom(h, s, q, ids).store)
    decreases |ids|
  {
    if ids != [] && Selected(s.messages[ids[0]], q) {
      var m := s.messages[ids[0]];
      var s1 := PollOne(h, s, q, m).0;
      PollOneGrows(h, s, q, m);
      PollGrows(h, s1, q, ids[1..]);
      GrowsTogether(s, s1, PollFrom(h, s1, q, ids[1..]).store);
    } else if ids != [] {
      PollGrows(h, s, q, ids[1..]);
    }
  }

  /** Every acknowledgement in the later store was in the earlier one. */
  ghost predicate NoNewAnswers(s: Store, s': Store)
  {
    forall k :: k in s'.receipts && s'.receipts[k].event.Acknowledged? ==> k in s.receipts
  }

  lemma ViewPhaseGrows(h: Hashing, s: Store, q: Query, m: Message, record: bool)
    ensures Grows(s, ViewPhase(h, s, q, m, record).0) && NoNewAnswers(s, ViewPhase(h, s, q, m, record).0)
  {
  }

  lemma ClaimPhaseGrows(h: Hashing, s: Store, q: Query, m: Message)
    ensures Grows(s, ClaimPhase(h, s, q, m).0) && ClaimPhase(h, s, q, m).0.receipts == s.receipts
  {
  }

  lemma PollOneGrows(h: Hashing, s: Store, q: Query, m: Message)
    ensures Grows(s, PollOne(h, s, q, m).0) && NoNewAnswers(s, PollOne(h, s, q, m).0)
  {
    var s1 := ClaimPhase(h, s, q, m).0;
    var record := q.observe && !IsExpired(s, m, q.asOf) && !IsObserved(s, m.id, q.asOf);
    var s2 := ViewPhase(h, s1, q, m, record).0;
    ClaimPhaseGrows(h, s, q, m);
    ViewPhaseGrows(h, s1, q, m, record);
    GrowsTogether(s, s1, s2);
    assert PollOne(h, s, q, m).0 == s || PollOne(h, s, q, m).0 == s1 || PollOne(h, s, q, m).0 == s2;
  }

  lemma {:induction false} DrainGrows(h: Hashing, s: Store, q: Draining, agenda: seq<Item>)
    ensures Grows(s, Drain(h, s, q, agenda).store) && SameMail(s, Drain(h, s, q, agenda).store)
    decreases |agenda|
  {
    if agenda != [] && q.limit > 0 {
      if agenda[0].Quiet? {
        DrainGrows(h, s, q, agenda[1..]);
      } else {
        var (s', c) := Surface(h, s, q, agenda[0]);
        assert Grows(s, s');
        var q' := if c.Won? then q.(limit := q.limit - 1) else q;
        DrainGrows(h, s', q', agenda[1..]);
        GrowsTogether(s, s', Drain(h, s', q', agenda[1..]).store);
      }
    }
  }

  lemma SendGrows(h: Hashing, s: Store, c: Sending)
    ensures Grows(s, Send(h, s, c).0) && NoNewAnswers(s, Send(h, s, c).0)
  {
  }

  lemma AnswerGrows(h: Hashing, s: Store, c: Answering)
    ensures Grows(s, Acknowledge(h, s, c).0)
  {
  }

  lemma ApplyGrows(h: Hashing, s: Store, op: Op)
    ensures Grows(s, Apply(h, s, op))
    ensures !op.Answers? ==> NoNewAnswers(s, Apply(h, s, op))
  {
    match op
    case Sends(c) => SendGrows(h, s, c);
    case Answers(c) => AnswerGrows(h, s, c);
    case Polls(q) => PollGrows(h, s, q, Ordered(s));
    case Drains(q) => DrainGrows(h, s, q, Agenda(h, s, q, Ordered(s)));
  }

  /** Whatever operations run, every stored message, receipt and marker stays as first written. */
  lemma {:induction false} RecordsAreWriteOnce(h: Hashing, s: Store, ops: seq<Op>)
    ensures Grows(s, Exec(h, s, ops))
    decreases |ops|
  {
    if ops != [] {
      ApplyGrows(h, s, ops[0]);
      RecordsAreWriteOnce(h, Apply(h, s, ops[0]), ops[1..]);
      GrowsTogether(s, Apply(h, s, ops[0]), Exec(h, s, ops));
    }
  }

  // ---------------------------------------------------------------------
  // Expiry

  /** A clock that never runs back: every later acknowledgement is stamped at `t` or after. */
  predicate StampedFrom(ops: seq<Op>, t: int)
  {
    forall op :: op in ops && op.Answers? ==> op.answering.now >= t
  }

  lemma AnswerStamp(h: Hashing, s: Store, op: Op, m: Message)
    requires op.Answers? ==> op.answering.now > m.expires
    ensures Rescues(s, Apply(h, s, op), m) == {}
  {
    ApplyGrows(h, s, op);
  }

  /** A message seen expired strictly after its expiry stays expired for the rest of any run, answered or not. */
  lemma {:induction false} ExpiredStaysExpired(h: Hashing, s: Store, m: Message, t: int, ops: seq<Op>, t': int)
    requires IsExpired(s, m, t) && m.expires < t <= t' && StampedFrom(ops, t)
    ensures IsExpired(Exec(h, s, ops), m, t')
    decreases |ops|
  {
    if ops == [] {
      ExpiryIsFinalExactly(s, s, m, t, t');
    } else {
      var s1 := Apply(h, s, ops[0]);
      ApplyGrows(h, s, ops[0]);
      AnswerStamp(h, s, ops[0], m);
      ExpiryIsFinalExactly(s, s1, m, t, t);
      ExpiredStaysExpired(h, s1, m, t, ops[1..], t');
    }
  }

  /** At the very instant of expiry it need not: an acknowledgement stamped then still brings the message back. */
  lemma ExpiryInstantIsReversible(h: Hashing, s: Store, m: Message, c: Answering)
    requires m.id in s.messages && s.messages[m.id] == m && IsExpired(s, m, m.expires)
    requires c.live && c.message == m.id && c.session == m.recipient && c.now == m.expires
    requires AnswerReceipt(h, c).id !in s.receipts
    ensures StageOf(Exec(h, s, [Answers(c)]), m, m.expires) == Answered
  {
    var s' := Acknowledge(h, s, c).0;
    var r := AnswerReceipt(h, c);
    assert s'.receipts[r.id] == r;
    assert Exec(h, s, [Answers(c)]) == s' by { assert [Answers(c)][1..] == []; }
  }

  /** Over any run under such a clock, lifecycle evidence only accumulates. */
  lemma RunNeverMovesBack(h: Hashing, s: Store, ops: seq<Op>, m: Message, t: int, t': int)
    requires t <= t'
    ensures var s' := Exec(h, s, ops);
            && (forall e :: Has(s, m.id, t, e) ==> Has(s', m.id, t', e))
            && (!IsExpired(s, m, t) && !IsExpired(s', m, t') ==> Rank(StageOf(s, m, t)) <= Rank(StageOf(s', m, t')))
            && (t <= m.expires && IsAcknowledged(s, m.id, t) ==> !IsExpired(s', m, t'))
  {
    RecordsAreWriteOnce(h, s, ops);
    LifecycleNeverMovesBack(s, Exec(h, s, ops), m, t, t');
    if t <= m.expires && IsAcknowledged(s, m.id, t) {
      AnsweredInTimeNeverExpires(s, Exec(h, s, ops), m, t);
    }
  }

  // ---------------------------------------------------------------------
  // Filing

  /** Sessions and fresh identifiers are free of NUL. */
  ghost predicate CleanOp(op: Op)
  {
    match op
    case Sends(c) => NUL !in c.uuid && (c.route.Some? ==> NUL !in c.route.value)
    case Answers(c) => true
    case Polls(q) => true
    case Drains(q) => NUL !in q.session
  }

  lemma ApplyKeepsFiled(h: Hashing, s: Store, op: Op)
    requires Ideal(h) && Filed(h, s) && CleanOp(op)
    ensures Filed(h, Apply(h, s, op))
  {
    match op
    case Sends(c) => SendStoresOwnMessage(h, s, c);
    case Answers(c) => AnswerKeepsFiled(h, s, c);
    case Polls(q) => PollKeeps(h, s, q, Ordered(s));
    case Drains(q) => DrainKeepsFiled(h, s, q);
  }

  lemma AnswerKeepsFiled(h: Hashing, s: Store, c: Answering)
    requires Ideal(h) && Filed(h, s)
    ensures Filed(h, Acknowledge(h, s, c).0)
  {
  }

  lemma DrainKeepsFiled(h: Hashing, s: Store, q: Draining)
    requires Ideal(h) && Filed(h, s) && CleanOp(Drains(q))
    ensures Filed(h, DrainStore(h, s, q).store)
  {
    if q.consume { DrainIsExact(h, s, q); } else { PeekIsExact(h, s, q, Agenda(h, s, q, Ordered(s))); }
  }

  /** From an empty mailbox, every run keeps all records filed under their own identifiers. */
  lemma {:induction false} RunKeepsFiled(h: Hashing, s: Store, ops: seq<Op>)
    requires Ideal(h) && Filed(h, s) && forall op :: op in ops ==> CleanOp(op)
    ensures Filed(h, Exec(h, s, ops))
    decreases |ops|
  {
    if ops != [] {
      ApplyKeepsFiled(h, s, ops[0]);
      RunKeepsFiled(h, Apply(h, s, ops[0]), ops[1..]);
    }
  }
}
