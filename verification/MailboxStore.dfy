/** The mailbox as the adapters call it: three write-once directories, updated in place. */
module MailboxStore {
  import opened Wrappers
  import opened RegistryDigest
  import opened Mailbox
  import opened MailboxPolling
  import opened MailboxDrain
  import Ordering

  predicate Shows(rs: seq<Receipt>, e: Event)
  {
    exists r :: r in rs && r.event == e
  }

  predicate ShowsInTime(rs: seq<Receipt>, expires: int)
  {
    exists r :: r in rs && r.event.Acknowledged? && r.recordedAt <= expires
  }

  lemma ShowsOneMore(rs: seq<Receipt>, r: Receipt, expires: int)
    ensures forall e :: Shows(rs + [r], e) <==> Shows(rs, e) || r.event == e
    ensures ShowsInTime(rs + [r], expires) <==> ShowsInTime(rs, expires) || (r.event.Acknowledged? && r.recordedAt <= expires)
  {
    assert r in rs + [r];
    assert forall x :: x in rs ==> x in rs + [r];
  }

  lemma ListedReceipt(s: Store, id: string, asOf: int, k: string)
    requires k in s.receipts && s.receipts[k].message == id && s.receipts[k].recordedAt <= asOf
    ensures s.receipts[k] in ReceiptsFor(s, id, asOf)
  {
    var keys := InOrder(ReceiptKeys(s, id, asOf));
    assert Key(s.receipts[k].recordedAt, k) in keys;
    var i :| 0 <= i < |keys| && keys[i] == Key(s.receipts[k].recordedAt, k);
    assert ReceiptsFor(s, id, asOf)[i] == s.receipts[k];
  }

  lemma ListedIsStored(s: Store, id: string, asOf: int, r: Receipt) returns (k: string)
    requires r in ReceiptsFor(s, id, asOf)
    ensures k in s.receipts && s.receipts[k] == r
  {
    var keys := InOrder(ReceiptKeys(s, id, asOf));
    var i :| 0 <= i < |keys| && ReceiptsFor(s, id, asOf)[i] == r;
    assert keys[i] in keys;
    k := keys[i].id;
  }

  /** The listed receipts carry all the evidence about their message. */
  lemma ListedEvidence(s: Store, m: Message, asOf: int)
    ensures forall e :: Has(s, m.id, asOf, e) <==> Shows(ReceiptsFor(s, m.id, asOf), e)
    ensures asOf >= m.expires ==> (Has(s, m.id, m.expires, Acknowledged) <==> ShowsInTime(ReceiptsFor(s, m.id, asOf), m.expires))
  {
    var rs := ReceiptsFor(s, m.id, asOf);
    forall e
      ensures Has(s, m.id, asOf, e) <==> Shows(rs, e)
    {
      if Has(s, m.id, asOf, e) {
        var k :| k in s.receipts && s.receipts[k].message == m.id && s.receipts[k].event == e && s.receipts[k].recordedAt <= asOf;
        ListedReceipt(s, m.id, asOf, k);
      }
      if Shows(rs, e) {
        var r :| r in rs && r.event == e;
        var k := ListedIsStored(s, m.id, asOf, r);
      }
    }
    if asOf >= m.expires {
      if Has(s, m.id, m.expires, Acknowledged) {
        var k :| k in s.receipts && s.receipts[k].message == m.id && s.receipts[k].event == Acknowledged
                 && s.receipts[k].recordedAt <= m.expires;
        ListedReceipt(s, m.id, asOf, k);
      }
      if ShowsInTime(rs, m.expires) {
        var r :| r in rs && r.event.Acknowledged? && r.recordedAt <= m.expires;
        var k := ListedIsStored(s, m.id, asOf, r);
      }
    }
  }

  /** What has been gathered so far, followed by what the rest of a poll gathers. */
  function Then(done: Inbox, rest: Inbox): Inbox
  {
    if rest.failed then rest
    else Inbox(rest.store, done.shown + rest.shown, done.observations + rest.observations,
               done.suppressed + rest.suppressed, false)
  }

  function With(done: Inbox, id: string, p: Polled): Inbox
  {
    match p
    case Skipped => done
    case Failed => done
    case Suppressed => done.(suppressed := done.suppressed + [id])
    case Shown(view, observation) =>
      done.(shown := done.shown + [view],
            observations := done.observations + if observation.Some? then [observation.value] else [])
  }

  lemma ThenWith(done: Inbox, id: string, p: Polled, rest: Inbox)
    ensures Then(done, WithOutcome(id, p, rest)) == Then(With(done, id, p), rest)
  {
    if !rest.failed {
      match p
      case Skipped =>
      case Failed =>
      case Suppressed => assert (done.suppressed + [id]) + rest.suppressed == done.suppressed + ([id] + rest.suppressed);
      case Shown(view, observation) =>
        var o := if observation.Some? then [observation.value] else [];
        assert (done.shown + [view]) + rest.shown == done.shown + ([view] + rest.shown);
        assert (done.observations + o) + rest.observations == done.observations + (o + rest.observations);
    }
  }

  /** Polling `ids` from `s`, after what is done, gives `all`. */
  ghost predicate PollRemains(h: Hashing, s: Store, q: Query, ids: seq<string>, done: Inbox, all: Inbox)
  {
    && !done.failed
    && (forall id :: id in ids ==> id in s.messages)
    && all == Then(done, PollFrom(h, s, q, ids))
  }

  lemma PollAdvances(h: Hashing, s: Store, q: Query, ids: seq<string>, done: Inbox, all: Inbox)
    requires ids != [] && PollRemains(h, s, q, ids, done, all)
    ensures var m := s.messages[ids[0]];
            var (s1, p) := PollOne(h, s, q, m);
            && (!Selected(m, q) ==> PollRemains(h, s, q, ids[1..], done, all))
            && (Selected(m, q) && p.Failed? ==> all == Inbox(s1, [], [], [], true))
            && (Selected(m, q) && !p.Failed? && s1.messages == s.messages ==>
                  PollRemains(h, s1, q, ids[1..], With(done, m.id, p), all))
  {
    var m := s.messages[ids[0]];
    var (s1, p) := PollOne(h, s, q, m);
    if Selected(m, q) && !p.Failed? && s1.messages == s.messages {
      ThenWith(done, m.id, p, PollFrom(h, s1, q, ids[1..]));
    }
  }

  lemma PollStarts(h: Hashing, s: Store, q: Query, ids: seq<string>)
    requires forall id :: id in ids ==> id in s.messages
    ensures PollRemains(h, s, q, ids[0..], Inbox(s, [], [], [], false), PollFrom(h, s, q, ids))
  {
    assert ids[0..] == ids;
  }

  lemma PollEnds(h: Hashing, s: Store, q: Query, done: Inbox, all: Inbox)
    requires PollRemains(h, s, q, [], done, all)
    ensures all == done.(store := s)
  {
  }

  /** Draining `agenda` from `s`, after surfacing `done`, gives `all`. */
  ghost predicate DrainRemains(h: Hashing, s: Store, q: Draining, agenda: seq<Item>, done: seq<string>, all: Drained)
  {
    |done| < q.limit &&
    var rest := Drain(h, s, q.(limit := q.limit - |done|), agenda);
    all == if rest.failed then rest else rest.(surfaced := done + rest.surfaced)
  }

  lemma DrainAdvances(h: Hashing, s: Store, q: Draining, agenda: seq<Item>, done: seq<string>, all: Drained)
    requires agenda != [] && DrainRemains(h, s, q, agenda, done, all)
    ensures agenda[0].Quiet? ==> DrainRemains(h, s, q, agenda[1..], done, all)
    ensures agenda[0].Notice? ==>
              var (s', c) := Surface(h, s, q, agenda[0]);
              var done' := done + [agenda[0].id];
              && (c.Collided? ==> all == Drained(s', [], true))
              && (c.Lost? ==> DrainRemains(h, s', q, agenda[1..], done, all))
              && (c.Won? && |done'| < q.limit ==> DrainRemains(h, s', q, agenda[1..], done', all))
              && (c.Won? && |done'| == q.limit ==> all == Drained(s', done', false))
  {
    var q' := q.(limit := q.limit - |done|);
    if agenda[0].Notice? {
      var (s', c) := Surface(h, s, q, agenda[0]);
      assert Surface(h, s, q', agenda[0]) == (s', c);
      var done' := done + [agenda[0].id];
      if c.Won? {
        assert q'.(limit := q'.limit - 1) == q.(limit := q.limit - |done'|);
        var rest := Drain(h, s', q'.(limit := q'.limit - 1), agenda[1..]);
        assert done' + rest.surfaced == done + ([agenda[0].id] + rest.surfaced);
      }
    }
  }

  lemma DrainEnds(h: Hashing, s: Store, q: Draining, agenda: seq<Item>, done: seq<string>, all: Drained)
    requires agenda == [] && DrainRemains(h, s, q, agenda, done, all)
    ensures all == Drained(s, done, false)
  {
  }

  /** The item at one place of an agenda, read from a store with the same mail. */
  lemma AgendaReads(h: Hashing, start: Store, s: Store, q: Draining, ids: seq<string>, i: nat)
    requires SameMail(start, s) && i < |ids| && forall id :: id in ids ==> id in start.messages
    ensures ids[i] in s.messages
    ensures Agenda(h, start, q, ids)[i..][0] == ItemFor(h, s, q, s.messages[ids[i]])
    ensures Agenda(h, start, q, ids)[i..][1..] == Agenda(h, start, q, ids)[i + 1..]
  {
    SameItem(h, start, s, q, q, start.messages[ids[i]]);
  }

  class MessageStore {
    const h: Hashing
    var messages: map<string, Message>
    var receipts: map<string, Receipt>
    var deliveries: map<string, Delivery>

    function Contents(): Store
      reads this
    {
      Store(messages, receipts, deliveries)
    }

    constructor (h: Hashing)
      ensures this.h == h && Contents() == Store(map[], map[], map[])
    {
      this.h := h;
      messages, receipts, deliveries := map[], map[], map[];
    }

    /** Publishing without overwriting: a link that fails when the name is taken. */
    static method WriteImmutable<V>(directory: map<string, V>, id: string, record: V)
      returns (after: map<string, V>, created: bool)
      ensures created <==> id !in directory
      ensures after == CreateIfAbsent(directory, id, record)
    {
      if id in directory { return directory, false; }
      return directory[id := record], true;
    }

    method StoreMessage(m: Message) returns (r: Result<Sent, Error>)
      modifies this
      ensures (Contents(), r) == Mailbox.StoreMessage(old(Contents()), m)
    {
      var created: bool;
      messages, created := WriteImmutable(messages, m.id, m);
      if created { return Ok(Sent(m, false)); }
      var existing := messages[m.id];
      if existing.request != m.request { return Err(RecordCollision); }
      return Ok(Sent(existing, true));
    }

    method StoreReceipt(receipt: Receipt) returns (r: Result<Receipt, Error>)
      modifies this
      ensures (Contents(), r) == Mailbox.StoreReceipt(old(Contents()), receipt)
    {
      var created: bool;
      receipts, created := WriteImmutable(receipts, receipt.id, receipt);
      if created { return Ok(receipt); }
      var existing := receipts[receipt.id];
      if existing.(recordedAt := receipt.recordedAt) != receipt { return Err(RecordCollision); }
      return Ok(existing);
    }

    method ClaimDelivery(id: string, display: string, event: string, now: int) returns (claimed: Claimed)
      modifies this
      ensures (Contents(), claimed) == Mailbox.ClaimDelivery(h, old(Contents()), id, display, event, now)
    {
      var marker := Marker(h, id, display, event, now);
      var created: bool;
      deliveries, created := WriteImmutable(deliveries, marker.id, marker);
      if created { return Won; }
      if deliveries[marker.id].(recordedAt := now) != marker { return Collided; }
      return Lost;
    }

    method Send(c: Sending) returns (r: Result<Sent, Error>)
      modifies this
      ensures (Contents(), r) == Mailbox.Send(h, old(Contents()), c)
    {
      if c.request.caller != c.request.sender { return Err(IdentityMismatch); }
      if !c.live { return Err(UnknownSession); }
      var id := MessageId(h, c);
      if c.key.Some? && id in messages {
        if messages[id].request != c.request { return Err(RecordCollision); }
        return Ok(Sent(messages[id], true));
      }
      if c.route.None? { return Err(UnknownSession); }
      r := StoreMessage(Composed(h, c, c.route.value));
    }

    method Acknowledge(c: Answering) returns (r: Result<Receipt, Error>)
      modifies this
      ensures (Contents(), r) == Mailbox.Acknowledge(h, old(Contents()), c)
    {
      if !c.live { return Err(UnknownSession); }
      if c.message !in messages { return Err(MessageNotFound); }
      if messages[c.message].recipient != c.session { return Err(WrongRecipient); }
      r := StoreReceipt(AnswerReceipt(h, c));
    }

    /** Every message in creation order. */
    method AllMessages() returns (ids: seq<string>)
      ensures ids == Ordered(Contents())
    {
      KeysAreOrdered();
      var keys := Ordering.Sort(KeyLe, MessageKeys(Contents()));
      ids := IdsOf(keys);
    }

    method ReceiptList(id: string, asOf: int) returns (rs: seq<Receipt>)
      ensures rs == ReceiptsFor(Contents(), id, asOf)
    {
      KeysAreOrdered();
      var keys := Ordering.Sort(KeyLe, ReceiptKeys(Contents(), id, asOf));
      ghost var listed := InOrder(ReceiptKeys(Contents(), id, asOf));
      rs := [];
      var i := 0;
      while i < |keys|
        invariant i <= |keys| && keys == listed
        invariant rs == ReceiptsFor(Contents(), id, asOf)[..i]
      {
        assert keys[i] in listed;
        rs := rs + [receipts[keys[i].id]];
        i := i + 1;
      }
    }

    static method Scan(relevant: seq<Receipt>, expires: int)
      returns (accepted: bool, seen: bool, acknowledged: bool, inTime: bool)
      ensures accepted <==> Shows(relevant, RuntimeAccepted)
      ensures seen <==> Shows(relevant, Observed)
      ensures acknowledged <==> Shows(relevant, Acknowledged)
      ensures inTime <==> ShowsInTime(relevant, expires)
    {
      accepted, seen, acknowledged, inTime := false, false, false, false;
      var i := 0;
      while i < |relevant|
        invariant i <= |relevant|
        invariant accepted <==> Shows(relevant[..i], RuntimeAccepted)
        invariant seen <==> Shows(relevant[..i], Observed)
        invariant acknowledged <==> Shows(relevant[..i], Acknowledged)
        invariant inTime <==> ShowsInTime(relevant[..i], expires)
      {
        var r := relevant[i];
        ShowsOneMore(relevant[..i], r, expires);
        assert relevant[..i + 1] == relevant[..i] + [r];
        match r.event {
          case RuntimeAccepted => accepted := true;
          case Observed => seen := true;
          case Acknowledged => acknowledged, inTime := true, inTime || r.recordedAt <= expires;
        }
        i := i + 1;
      }
      assert relevant[..i] == relevant;
    }

    /** Deriving the lifecycle from the receipts visible at `asOf`. */
    method Status(m: Message, asOf: int) returns (v: View)
      ensures v == Mailbox.Status(Contents(), m, asOf)
    {
      var relevant := ReceiptList(m.id, asOf);
      ListedEvidence(Contents(), m, asOf);
      var accepted, seen, acknowledged, inTime := Scan(relevant, m.expires);
      var observed := acknowledged || seen;
      var expired := asOf >= m.expires && !inTime;
      var stage := if expired then Expired else if acknowledged then Answered else if observed then Seen
                   else if accepted then Accepted else Persisted;
      v := View(m, stage, accepted, observed, acknowledged, expired, relevant);
    }

    method PollOne(q: Query, m: Message) returns (p: Polled)
      modifies this
      ensures (Contents(), p) == MailboxPolling.PollOne(h, old(Contents()), q, m)
      ensures messages == old(messages)
    {
      var before := Status(m, q.asOf);
      if before.expired && !q.includeExpired { return Skipped; }
      if q.event.Some? && !before.acknowledged {
        var claimed := ClaimDelivery(m.id, m.recipient, q.event.value, q.asOf);
        if claimed.Lost? { return Suppressed; }
        if claimed.Collided? { return Failed; }
      }
      var observation := None;
      if q.observe && !before.expired && !before.observed {
        var stored := StoreReceipt(Observation(h, m, q.asOf));
        if stored.Err? { return Failed; }
        observation := Some(stored.value);
      }
      var view := Status(m, q.asOf);
      p := Shown(view, observation);
    }

    method Poll(q: Query) returns (inbox: Inbox)
      modifies this
      ensures inbox == PollFrom(h, old(Contents()), q, Ordered(old(Contents())))
      ensures Contents() == inbox.store
    {
      var ids := AllMessages();
      inbox := PollAll(q, ids);
    }

    method PollAll(q: Query, ids: seq<string>) returns (inbox: Inbox)
      requires forall id :: id in ids ==> id in messages
      modifies this
      ensures inbox == PollFrom(h, old(Contents()), q, ids)
      ensures Contents() == inbox.store
    {
      ghost var all := PollFrom(h, Contents(), q, ids);
      inbox := Inbox(Contents(), [], [], [], false);
      var i, failed := 0, false;
      PollStarts(h, Contents(), q, ids);
      while i < |ids|
        invariant i <= |ids| && PollRemains(h, Contents(), q, ids[i..], inbox, all)
      {
        assert ids[i..][0] == ids[i] && ids[i..][1..] == ids[i + 1..];
        failed, inbox := PollNext(q, ids[i], inbox, ids[i..], all);
        if failed { return; }
        i := i + 1;
      }
      PollEnds(h, Contents(), q, inbox, all);
      inbox := inbox.(store := Contents());
    }

    /** The next message of a poll: passed over, added to the inbox, or the end of it. */
    method PollNext(q: Query, id: string, done: Inbox, ghost ids: seq<string>, ghost all: Inbox)
      returns (failed: bool, inbox: Inbox)
      requires ids != [] && ids[0] == id && PollRemains(h, Contents(), q, ids, done, all)
      modifies this
      ensures failed ==> inbox == all && Contents() == all.store
      ensures !failed ==> PollRemains(h, Contents(), q, ids[1..], inbox, all)
    {
      PollAdvances(h, Contents(), q, ids, done, all);
      var m := messages[id];
      if !Selected(m, q) { return false, done; }
      var p := PollOne(q, m);
      if p.Failed? { return true, Inbox(Contents(), [], [], [], true); }
      return false, With(done, m.id, p);
    }

    /** `poll_sender_acknowledgements`: a limit of zero is refused. */
    method PollSender(q: Draining) returns (drained: Option<Drained>)
      modifies this
      ensures drained == if q.limit == 0 then None else Some(DrainStore(h, old(Contents()), q))
      ensures Contents() == if drained.None? then old(Contents()) else drained.value.store
    {
      if q.limit == 0 { return None; }
      var d := DrainAll(q);
      drained := Some(d);
    }

    method DrainAll(q: Draining) returns (d: Drained)
      requires q.limit > 0
      modifies this
      ensures d == DrainStore(h, old(Contents()), q)
      ensures Contents() == d.store
    {
      var ids := AllMessages();
      ghost var start := Contents();
      ghost var agenda := Agenda(h, start, q, ids);
      ghost var all := Drain(h, start, q, agenda);
      var surfaced: seq<string>, i := [], 0;
      while i < |ids|
        invariant i <= |ids| && SameMail(start, Contents())
        invariant DrainRemains(h, Contents(), q, agenda[i..], surfaced, all)
      {
        AgendaReads(h, start, Contents(), q, ids, i);
        var item := ItemOf(q, messages[ids[i]]);
        var ended: Option<Drained>;
        ended, surfaced := SurfaceNext(q, item, surfaced, agenda[i..], all);
        if ended.Some? { return ended.value; }
        i := i + 1;
      }
      DrainEnds(h, Contents(), q, agenda[i..], surfaced, all);
      d := Drained(Contents(), surfaced, false);
    }

    /** The next item of a drain: passed over, surfaced, or the end of it. */
    method SurfaceNext(q: Draining, item: Item, done: seq<string>, ghost agenda: seq<Item>, ghost all: Drained)
      returns (ended: Option<Drained>, surfaced: seq<string>)
      requires agenda != [] && agenda[0] == item && DrainRemains(h, Contents(), q, agenda, done, all)
      modifies this
      ensures SameMail(old(Contents()), Contents())
      ensures ended.Some? ==> ended.value == all && Contents() == all.store
      ensures ended.None? ==> DrainRemains(h, Contents(), q, agenda[1..], surfaced, all)
    {
      DrainAdvances(h, Contents(), q, agenda, done, all);
      if item.Quiet? { return None, done; }
      var claimed := Surface(q, item);
      if claimed.Collided? { return Some(Drained(Contents(), [], true)), done; }
      if claimed.Lost? { return None, done; }
      surfaced := done + [item.id];
      ended := if |surfaced| >= q.limit then Some(Drained(Contents(), surfaced, false)) else None;
    }

    method Surface(q: Draining, item: Item) returns (claimed: Claimed)
      requires item.Notice?
      modifies this
      ensures (Contents(), claimed) == MailboxDrain.Surface(h, old(Contents()), q, item)
      ensures SameMail(old(Contents()), Contents())
    {
      if q.consume {
        claimed := ClaimDelivery(item.id, q.session, item.event, q.now);
      } else {
        claimed := if item.marker in deliveries then Lost else Won;
      }
    }

    method ItemOf(q: Draining, m: Message) returns (item: Item)
      ensures item == ItemFor(h, Contents(), q, m)
    {
      if m.sender != q.session || (q.project.Some? && m.project != q.project.value) { return Quiet(m.id); }
      var status := Status(m, q.now);
      match LatestAnswer(status.receipts) {
        case None => item := Quiet(m.id);
        case Some(r) =>
          var event := "acknowledgement:" + r.id;
          item := Notice(m.id, event, StableId(h, "delivery", [m.id, q.session, event]));
      }
    }
  }
}
