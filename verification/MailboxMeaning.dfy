/** What the mailbox stores, answers, shows and surfaces, said of its records field by field. */
module MailboxMeaning {
  import opened Wrappers
  import opened Text
  import opened RegistryDigest
  import opened Mailbox
  import opened MailboxPolling
  import opened MailboxDrain

  /** A derived identifier hashes its prefix and parts with NULs between them. */
  lemma IdOfTwo(h: Hashing, prefix: string, a: string, b: string)
    ensures StableId(h, prefix, [a, b]) == prefix + "_" + h.hex(prefix + [NUL] + a + [NUL] + b)
  {
    var parts := [prefix] + [a, b];
    assert parts[1..] == [a, b] && [a, b][1..] == [b];
    assert Join([a, b], NUL) == a + [NUL] + b;
    assert prefix + [NUL] + (a + [NUL] + b) == prefix + [NUL] + a + [NUL] + b;
  }

  lemma IdOfThree(h: Hashing, prefix: string, a: string, b: string, c: string)
    ensures StableId(h, prefix, [a, b, c]) == prefix + "_" + h.hex(prefix + [NUL] + a + [NUL] + b + [NUL] + c)
  {
    var parts := [prefix] + [a, b, c];
    assert parts[1..] == [a, b, c] && [a, b, c][1..] == [b, c] && [b, c][1..] == [c];
    assert Join([b, c], NUL) == b + [NUL] + c;
    assert Join([a, b, c], NUL) == a + [NUL] + (b + [NUL] + c);
    assert prefix + [NUL] + (a + [NUL] + (b + [NUL] + c)) == prefix + [NUL] + a + [NUL] + b + [NUL] + c;
  }

  // ---------------------------------------------------------------------
  // Sending

  /** The identifier of a send: derived from sender and key when there is a key, and otherwise fresh. */
  function IdOfSend(h: Hashing, c: Sending): string
  {
    if c.key.Some? then "msg_" + h.hex("msg" + [NUL] + c.request.sender + [NUL] + c.key.value) else c.uuid
  }

  lemma IdOfSendExactly(h: Hashing, c: Sending)
    ensures MessageId(h, c) == IdOfSend(h, c)
  {
    if c.key.Some? {
      IdOfTwo(h, "msg", c.request.sender, c.key.value);
      assert "msg" + "_" == "msg_";
    }
  }

  /**
   * A send needs its caller to be the sender and live, and a recipient to route to unless its key is already in use.
   * An identifier in use replays the stored message of the same request and refuses another; a new one is stored.
   */
  lemma SendExactly(h: Hashing, s: Store, c: Sending)
    ensures var id, (s', r) := IdOfSend(h, c), Send(h, s, c);
            if c.request.caller != c.request.sender then s' == s && r == Err(IdentityMismatch)
            else if !c.live || (c.route == None && (c.key == None || id !in s.messages)) then s' == s && r == Err(UnknownSession)
            else if id in s.messages then
              s' == s && r == if s.messages[id].request == c.request then Ok(Sent(s.messages[id], true)) else Err(RecordCollision)
            else
              var m := Message(id, c.request.sender, c.route.value, c.request.project, c.request, c.now, c.now + c.request.ttl);
              s' == s.(messages := s.messages[id := m]) && r == Ok(Sent(m, false))
  {
    IdOfSendExactly(h, c);
  }

  // ---------------------------------------------------------------------
  // Acknowledging

  /** The receipt of an acknowledgement, under the identifier of its message and session. */
  function ReceiptOf(h: Hashing, c: Answering): Receipt
  {
    Receipt("rcpt_" + h.hex("rcpt" + [NUL] + c.message + [NUL] + c.session + [NUL] + "acknowledged"), c.message, c.session,
            Acknowledged, c.now, Some(c.answer))
  }

  /** An acknowledgement needs a live session, a stored message and to be its recipient; a second one counts only if the same. */
  lemma AcknowledgeExactly(h: Hashing, s: Store, c: Answering)
    ensures var new_, (s', r) := ReceiptOf(h, c), Acknowledge(h, s, c);
            if !c.live then s' == s && r == Err(UnknownSession)
            else if c.message !in s.messages then s' == s && r == Err(MessageNotFound)
            else if s.messages[c.message].recipient != c.session then s' == s && r == Err(WrongRecipient)
            else if new_.id !in s.receipts then s' == s.(receipts := s.receipts[new_.id := new_]) && r == Ok(new_)
            else
              var old_ := s.receipts[new_.id];
              s' == s && r == if old_ == new_.(recordedAt := old_.recordedAt) then Ok(old_) else Err(RecordCollision)
  {
    IdOfThree(h, "rcpt", c.message, c.session, "acknowledged");
    assert "rcpt" + "_" == "rcpt_";
  }

  // ---------------------------------------------------------------------
  // Delivery markers

  function MarkerId(h: Hashing, message: string, session: string, event: string): string
  {
    "delivery_" + h.hex("delivery" + [NUL] + message + [NUL] + session + [NUL] + event)
  }

  /** A claim creates the marker of its message, session and event, and is lost to one that is there and says the same. */
  lemma ClaimExactly(h: Hashing, s: Store, message: string, session: string, event: string, now: int)
    ensures var id, (s', c) := MarkerId(h, message, session, event), ClaimDelivery(h, s, message, session, event, now);
            if id !in s.deliveries then
              c == Won && s' == s.(deliveries := s.deliveries[id := Delivery(id, event, message, session, now)])
            else
              s' == s && c == if s.deliveries[id] == Delivery(id, event, message, session, s.deliveries[id].recordedAt)
                              then Lost else Collided
  {
    IdOfThree(h, "delivery", message, session, event);
    assert "delivery" + "_" == "delivery_";
  }

  // ---------------------------------------------------------------------
  // Status

  /** Some receipt of the message and that event was recorded by that time. */
  predicate Receipted(s: Store, id: string, event: Event, t: int)
  {
    exists k :: k in s.receipts && s.receipts[k].message == id && s.receipts[k].event == event && s.receipts[k].recordedAt <= t
  }

  /** Expired: past its expiry, and not acknowledged by then. */
  predicate Lapsed(s: Store, m: Message, asOf: int)
  {
    asOf >= m.expires && !Receipted(s, m.id, Acknowledged, m.expires)
  }

  predicate Answered(s: Store, id: string, asOf: int)
  {
    Receipted(s, id, Acknowledged, asOf)
  }

  predicate Noticed(s: Store, id: string, asOf: int)
  {
    Receipted(s, id, Observed, asOf) || Answered(s, id, asOf)
  }

  /** A status: what evidence there is by the asked time, and the furthest stage it supports unless the message has expired. */
  lemma StatusExactly(s: Store, m: Message, asOf: int)
    ensures var v := Status(s, m, asOf);
            && v.message == m && v.expired == Lapsed(s, m, asOf)
            && v.accepted == Receipted(s, m.id, RuntimeAccepted, asOf)
            && v.observed == Noticed(s, m.id, asOf) && v.acknowledged == Answered(s, m.id, asOf)
            && v.stage == (if v.expired then Stage.Expired
                           else if v.acknowledged then Stage.Answered
                           else if v.observed then Seen
                           else if v.accepted then Accepted else Persisted)
            && (forall r :: r in v.receipts <==>
                  exists k :: k in s.receipts && s.receipts[k] == r && r.message == m.id && r.recordedAt <= asOf)
  {
    ReceiptsExactly(s, m.id, asOf);
  }

  lemma ReceiptsExactly(s: Store, id: string, asOf: int)
    ensures forall r :: r in ReceiptsFor(s, id, asOf) <==>
              exists k :: k in s.receipts && s.receipts[k] == r && r.message == id && r.recordedAt <= asOf
  {
    var keys := InOrder(ReceiptKeys(s, id, asOf));
    var rs := ReceiptsFor(s, id, asOf);
    forall r
      ensures r in rs <==> exists k :: k in s.receipts && s.receipts[k] == r && r.message == id && r.recordedAt <= asOf
    {
      if r in rs {
        var i :| 0 <= i < |rs| && rs[i] == r;
        assert keys[i] in keys && s.receipts[keys[i].id] == r;
      }
      if k :| k in s.receipts && s.receipts[k] == r && r.message == id && r.recordedAt <= asOf {
        assert Key(r.recordedAt, k) in keys;
        var i :| 0 <= i < |keys| && keys[i] == Key(r.recordedAt, k);
        assert rs[i] == r;
      }
    }
  }

  // ---------------------------------------------------------------------
  // Polling

  /** The query is of the message's recipient, and of its project or of all. */
  predicate Addressed(m: Message, q: Query)
  {
    m.recipient == q.session && (q.project == None || q.project == Some(m.project))
  }

  /**
   * One message of a poll: passed over when expired and expired ones are not asked for; otherwise suppressed when it is
   * unanswered and its marker for the poll's event exists, and shown when not.
   */
  lemma PolledExactly(h: Hashing, s: Store, q: Query, m: Message)
    requires Ideal(h) && Filed(h, s) && m.id in s.messages && s.messages[m.id] == m && Selected(m, q)
    ensures Selected(m, q) <==> Addressed(m, q)
    ensures var p := PollOne(h, s, q, m).1;
            var passed := Lapsed(s, m, q.asOf) && !q.includeExpired;
            var withheld := q.event.Some? && !Answered(s, m.id, q.asOf) && MarkerId(h, m.id, m.recipient, q.event.value) in s.deliveries;
            && (p.Skipped? <==> passed) && (p.Suppressed? <==> !passed && withheld) && (p.Shown? <==> !passed && !withheld)
  {
    PollOneIsExact(h, s, q, m);
    PollOneKeeps(h, s, q, m);
    if q.event.Some? { IdOfThree(h, "delivery", m.id, m.recipient, q.event.value); }
    assert "delivery" + "_" == "delivery_";
  }

  lemma SelectedExactly(m: Message, q: Query)
    ensures Selected(m, q) <==> Addressed(m, q)
  {
  }

  /**
   * What a poll leaves: the marker of a message it claims, and an observation of one it shows, when it observes, the
   * message has not expired and nothing has noticed it; no other record changes.
   */
  lemma PollLeavesExactly(h: Hashing, s: Store, q: Query, m: Message)
    requires PollOne(h, s, q, m).1.Shown?
    ensures var (s', p) := PollOne(h, s, q, m);
            var claims := q.event.Some? && !Answered(s, m.id, q.asOf);
            var notes := q.observe && !Lapsed(s, m, q.asOf) && !Noticed(s, m.id, q.asOf);
            var marker, receipt := MarkerId(h, m.id, m.recipient, if claims then q.event.value else ""), ObservedId(h, m);
            && s'.messages == s.messages
            && s'.deliveries == (if claims && marker !in s.deliveries
                                 then s.deliveries[marker := Delivery(marker, q.event.value, m.id, m.recipient, q.asOf)]
                                 else s.deliveries)
            && s'.receipts == (if notes && receipt !in s.receipts
                               then s.receipts[receipt := Receipt(receipt, m.id, m.recipient, Observed, q.asOf, None)]
                               else s.receipts)
            && p.view == Status(s', m, q.asOf)
            && (p.observation.Some? <==> notes)
            && (notes ==> receipt in s'.receipts && p.observation == Some(s'.receipts[receipt]))
  {
    if q.event.Some? { ClaimExactly(h, s, m.id, m.recipient, q.event.value, q.asOf); }
    ObservedIdExactly(h, m);
    var s1 := ClaimPhase(h, s, q, m).0;
    assert s1.receipts == s.receipts && s1.messages == s.messages;
  }

  /** The outcomes of the messages a poll looks at, in order. */
  ghost function Outcomes(h: Hashing, s: Store, q: Query, ids: seq<string>): seq<(string, Polled)>
    requires forall id :: id in ids ==> id in s.messages
    decreases |ids|
  {
    if ids == [] then []
    else
      var m := s.messages[ids[0]];
      if !Addressed(m, q) then Outcomes(h, s, q, ids[1..])
      else
        PollKeepsStored(h, s, q, m);
        [(m.id, PollOne(h, s, q, m).1)] + Outcomes(h, PollOne(h, s, q, m).0, q, ids[1..])
  }

  lemma PollKeepsStored(h: Hashing, s: Store, q: Query, m: Message)
    ensures PollOne(h, s, q, m).0.messages == s.messages
  {
  }

  function Views(os: seq<(string, Polled)>): seq<View>
  {
    if os == [] then [] else (if os[0].1.Shown? then [os[0].1.view] else []) + Views(os[1..])
  }

  function Observations(os: seq<(string, Polled)>): seq<Receipt>
  {
    if os == [] then []
    else (if os[0].1.Shown? && os[0].1.observation != None then [os[0].1.observation.value] else []) + Observations(os[1..])
  }

  function Suppressions(os: seq<(string, Polled)>): seq<string>
  {
    if os == [] then [] else (if os[0].1.Suppressed? then [os[0].0] else []) + Suppressions(os[1..])
  }

  /** A poll reports the views it shows, the observations it records and the messages it suppresses, each in order. */
  lemma {:induction false} ReportedExactly(h: Hashing, s: Store, q: Query, ids: seq<string>)
    requires forall id :: id in ids ==> id in s.messages
    ensures var inbox, os := PollFrom(h, s, q, ids), Outcomes(h, s, q, ids);
            if inbox.failed then inbox.shown == [] && inbox.observations == [] && inbox.suppressed == []
            else inbox.shown == Views(os) && inbox.observations == Observations(os) && inbox.suppressed == Suppressions(os)
    decreases |ids|
  {
    if ids != [] {
      var m := s.messages[ids[0]];
      SelectedExactly(m, q);
      if Selected(m, q) {
        var (s1, p) := PollOne(h, s, q, m);
        PollKeepsStored(h, s, q, m);
        ReportedExactly(h, s1, q, ids[1..]);
        var os := Outcomes(h, s, q, ids);
        assert os[0] == (m.id, p) && os[1..] == Outcomes(h, s1, q, ids[1..]);
      } else {
        ReportedExactly(h, s, q, ids[1..]);
      }
    }
  }

  // ---------------------------------------------------------------------
  // Order

  predicate Earlier(t: int, a: string, u: int, b: string)
  {
    t < u || (t == u && LexLe(a, b))
  }

  /** Messages are listed by creation and, created together, by identifier. */
  lemma ListedExactly(s: Store)
    ensures forall i, j :: 0 <= i < j < |Ordered(s)| ==>
              Earlier(s.messages[Ordered(s)[i]].created, Ordered(s)[i], s.messages[Ordered(s)[j]].created, Ordered(s)[j])
  {
    var keys := InOrder(MessageKeys(s));
    KeysAreInOrder(MessageKeys(s));
    forall i, j | 0 <= i < j < |Ordered(s)|
      ensures Earlier(s.messages[Ordered(s)[i]].created, Ordered(s)[i], s.messages[Ordered(s)[j]].created, Ordered(s)[j])
    {
      assert keys[i] in keys && keys[j] in keys;
    }
  }

  /** Receipts of a message are listed by recording and, recorded together, by identifier. */
  lemma ReceiptsListedExactly(s: Store, id: string, asOf: int)
    requires forall k :: k in s.receipts ==> s.receipts[k].id == k
    ensures var rs := ReceiptsFor(s, id, asOf);
            forall i, j :: 0 <= i < j < |rs| ==> Earlier(rs[i].recordedAt, rs[i].id, rs[j].recordedAt, rs[j].id)
  {
    var keys, rs := InOrder(ReceiptKeys(s, id, asOf)), ReceiptsFor(s, id, asOf);
    KeysAreInOrder(ReceiptKeys(s, id, asOf));
    forall i, j | 0 <= i < j < |rs|
      ensures Earlier(rs[i].recordedAt, rs[i].id, rs[j].recordedAt, rs[j].id)
    {
      assert keys[i] in keys && keys[j] in keys;
    }
  }

  lemma KeysAreInOrder(keys: set<Key>)
    ensures forall i, j :: 0 <= i < j < |InOrder(keys)| ==>
              Earlier(InOrder(keys)[i].time, InOrder(keys)[i].id, InOrder(keys)[j].time, InOrder(keys)[j].id)
  {
    KeysAreOrdered();
    Ordering.SortedDistinct(KeyLe, keys);
  }

  function ObservedId(h: Hashing, m: Message): string
  {
    "rcpt_" + h.hex("rcpt" + [NUL] + m.id + [NUL] + m.recipient + [NUL] + "observed")
  }

  lemma ObservedIdExactly(h: Hashing, m: Message)
    ensures StableId(h, "rcpt", [m.id, m.recipient, "observed"]) == ObservedId(h, m)
  {
    IdOfThree(h, "rcpt", m.id, m.recipient, "observed");
    assert "rcpt" + "_" == "rcpt_";
  }

  // ---------------------------------------------------------------------
  // Draining

  /** The message is the session's own, of the asked project if any, and has been acknowledged by now. */
  predicate Due(s: Store, q: Draining, m: Message)
  {
    m.sender == q.session && (q.project == None || q.project == Some(m.project)) && Receipted(s, m.id, Acknowledged, q.now)
  }

  /** A drain has a notice for exactly the due messages, named after their last acknowledgement. */
  lemma NoticeExactly(h: Hashing, s: Store, q: Draining, m: Message)
    ensures var item := ItemFor(h, s, q, m);
            && item.id == m.id && (item.Notice? <==> Due(s, q, m))
            && (item.Notice? ==>
                  exists i :: LastAnswer(ReceiptsFor(s, m.id, q.now), i)
                              && item.event == "acknowledgement:" + ReceiptsFor(s, m.id, q.now)[i].id
                              && item.marker == MarkerId(h, m.id, q.session, item.event))
  {
    var rs := ReceiptsFor(s, m.id, q.now);
    LatestAnswerIsLast(rs);
    ReceiptsExactly(s, m.id, q.now);
    if k :| k in s.receipts && s.receipts[k].message == m.id && s.receipts[k].event == Acknowledged && s.receipts[k].recordedAt <= q.now {
      assert s.receipts[k] in rs;
    }
    var item := ItemFor(h, s, q, m);
    if item.Notice? {
      var i :| LastAnswer(rs, i) && rs[i] == LatestAnswer(rs).value;
      IdOfThree(h, "delivery", m.id, q.session, item.event);
      assert "delivery" + "_" == "delivery_";
    }
  }

  /** The last acknowledgement of a list. */
  predicate LastAnswer(rs: seq<Receipt>, i: int)
  {
    0 <= i < |rs| && rs[i].event == Acknowledged && forall j :: i < j < |rs| ==> rs[j].event != Acknowledged
  }

  /** A drain surfaces only due messages. */
  lemma {:induction false} SurfacedAreDue(h: Hashing, s: Store, q: Draining, ids: seq<string>, id: string)
    requires forall i :: i in ids ==> i in s.messages && s.messages[i].id == i
    requires id in Drain(h, s, q, Agenda(h, s, q, ids)).surfaced
    ensures id in ids && Due(s, q, s.messages[id])
  {
    var agenda := Agenda(h, s, q, ids);
    SurfacedAreNotices(h, s, q, agenda, id);
    var i :| 0 <= i < |agenda| && agenda[i].Notice? && agenda[i].id == id;
    assert ids[i] in ids;
    NoticeExactly(h, s, q, s.messages[ids[i]]);
  }

  /** A drain that fails surfaces nothing. */
  lemma {:induction false} FailedDrainIsSilent(h: Hashing, s: Store, q: Draining, agenda: seq<Item>)
    ensures var d := Drain(h, s, q, agenda); d.failed ==> d.surfaced == []
    decreases |agenda|
  {
    if agenda != [] && q.limit > 0 {
      if agenda[0].Quiet? {
        FailedDrainIsSilent(h, s, q, agenda[1..]);
      } else {
        var (s', c) := Surface(h, s, q, agenda[0]);
        FailedDrainIsSilent(h, s', if c.Won? then q.(limit := q.limit - 1) else q, agenda[1..]);
      }
    }
  }

  lemma {:induction false} SurfacedAreNotices(h: Hashing, s: Store, q: Draining, agenda: seq<Item>, id: string)
    requires id in Drain(h, s, q, agenda).surfaced
    ensures exists i :: 0 <= i < |agenda| && agenda[i].Notice? && agenda[i].id == id
    decreases |agenda|
  {
    var first, rest := agenda[0], agenda[1..];
    if first.Quiet? {
      SurfacedAreNotices(h, s, q, rest, id);
      var i :| 0 <= i < |rest| && rest[i].Notice? && rest[i].id == id;
      assert agenda[i + 1] == rest[i];
    } else if id != first.id {
      var (s', c) := Surface(h, s, q, first);
      SurfacedAreNotices(h, s', if c.Won? then q.(limit := q.limit - 1) else q, rest, id);
      var i :| 0 <= i < |rest| && rest[i].Notice? && rest[i].id == id;
      assert agenda[i + 1] == rest[i];
    } else {
      assert agenda[0].id == id;
    }
  }
}
