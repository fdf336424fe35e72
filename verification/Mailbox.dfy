/** The coordination mailbox: write-once records, and the lifecycle derived from them. */
module Mailbox {
  import opened Wrappers
  import opened Text
  import opened Ordering
  import opened RegistryDigest

  // ---------------------------------------------------------------------
  // Identifiers

  /** The first 32 hexadecimal digits of SHA-256. */
  datatype Hashing = Hashing(hex: string -> string)

  /** Those 32 digits, not the whole digest, are taken to be free of collisions. */
  ghost predicate Ideal(h: Hashing)
  {
    && (forall a, b :: h.hex(a) == h.hex(b) ==> a == b)
    && (forall a :: NUL !in h.hex(a))
  }

  function StableId(h: Hashing, prefix: string, parts: seq<string>): string
  {
    prefix + "_" + h.hex(Join([prefix] + parts, NUL))
  }

  lemma {:induction false} JoinInjective(a: seq<string>, b: seq<string>)
    requires |a| == |b| > 0 && Join(a, NUL) == Join(b, NUL)
    requires forall i :: 0 <= i < |a| - 1 ==> NUL !in a[i] && NUL !in b[i]
    ensures a == b
  {
    if |a| > 1 {
      CutInjective(a[0], Join(a[1..], NUL), b[0], Join(b[1..], NUL), NUL);
      JoinInjective(a[1..], b[1..]);
      assert a == [a[0]] + a[1..] && b == [b[0]] + b[1..];
    } else {
      assert a == [a[0]] && b == [b[0]];
    }
  }

  /** Identifiers are faithful when every part but the last is free of NUL. */
  lemma StableIdInjective(h: Hashing, prefix: string, a: seq<string>, b: seq<string>)
    requires Ideal(h) && NUL !in prefix && |a| == |b| > 0
    requires forall i :: 0 <= i < |a| - 1 ==> NUL !in a[i] && NUL !in b[i]
    ensures StableId(h, prefix, a) == StableId(h, prefix, b) <==> a == b
  {
    if StableId(h, prefix, a) == StableId(h, prefix, b) {
      var p := prefix + "_";
      assert h.hex(Join([prefix] + a, NUL)) == StableId(h, prefix, a)[|p|..];
      assert h.hex(Join([prefix] + b, NUL)) == StableId(h, prefix, b)[|p|..];
      JoinInjective([prefix] + a, [prefix] + b);
      assert a == ([prefix] + a)[1..] && b == ([prefix] + b)[1..];
    }
  }

  /** A NUL inside a session makes two different deliveries share one identifier. */
  lemma NulBreaksStableId(h: Hashing, m: string)
    ensures ["s\0e", "f"] != ["s", "e\0f"]
    ensures StableId(h, "delivery", [m, "s\0e", "f"]) == StableId(h, "delivery", [m, "s", "e\0f"])
  {
    var d := "delivery";
    assert [d, m, "s\0e", "f"][1..] == [m, "s\0e", "f"] && [m, "s\0e", "f"][1..] == ["s\0e", "f"];
    assert [d, m, "s", "e\0f"][1..] == [m, "s", "e\0f"] && [m, "s", "e\0f"][1..] == ["s", "e\0f"];
    assert Join(["s\0e", "f"], NUL) == "s\0e" + [NUL] + "f" by { assert ["s\0e", "f"][1..] == ["f"]; }
    assert Join(["s", "e\0f"], NUL) == "s" + [NUL] + "e\0f" by { assert ["s", "e\0f"][1..] == ["e\0f"]; }
    assert [d] + [m, "s\0e", "f"] == [d, m, "s\0e", "f"];
    assert [d] + [m, "s", "e\0f"] == [d, m, "s", "e\0f"];
    assert Join([d, m, "s\0e", "f"], NUL) == Join([d, m, "s", "e\0f"], NUL);
  }

  // ---------------------------------------------------------------------
  // Records

  /** What a sender asks for; a stored message keeps its digest, compared here by value. */
  datatype Request = Request(caller: string, sender: string, recipient: string, project: string, content: string, ttl: nat)

  datatype Message = Message(id: string, sender: string, recipient: string, project: string, request: Request,
                             created: int, expires: int)

  datatype Event = RuntimeAccepted | Observed | Acknowledged

  datatype Answer = Answer(disposition: string, response: Option<string>, note: Option<string>)

  datatype Receipt = Receipt(id: string, message: string, recipient: string, event: Event, recordedAt: int,
                             answer: Option<Answer>)

  datatype Delivery = Delivery(id: string, event: string, message: string, recipient: string, recordedAt: int)

  datatype Store = Store(messages: map<string, Message>, receipts: map<string, Receipt>, deliveries: map<string, Delivery>)

  datatype Error = IdentityMismatch | UnknownSession | RecordCollision | MessageNotFound | WrongRecipient

  function CreateIfAbsent<V>(directory: map<string, V>, id: string, record: V): map<string, V>
  {
    if id in directory then directory else directory[id := record]
  }

  /** Nothing stored is ever lost or rewritten. */
  ghost predicate Grows(s: Store, s': Store)
  {
    && (forall k :: k in s.messages ==> k in s'.messages && s'.messages[k] == s.messages[k])
    && (forall k :: k in s.receipts ==> k in s'.receipts && s'.receipts[k] == s.receipts[k])
    && (forall k :: k in s.deliveries ==> k in s'.deliveries && s'.deliveries[k] == s.deliveries[k])
  }

  lemma GrowsTogether(a: Store, b: Store, c: Store)
    requires Grows(a, b) && Grows(b, c)
    ensures Grows(a, c)
  {
  }

  // ---------------------------------------------------------------------
  // Order of records

  datatype Key = Key(time: int, id: string)

  predicate KeyLe(a: Key, b: Key)
  {
    a.time < b.time || (a.time == b.time && LexLe(a.id, b.id))
  }

  lemma KeysAreOrdered()
    ensures TotalOrder(KeyLe)
  {
    LexIsTotal();
    forall a, b
      ensures KeyLe(a, b) || KeyLe(b, a)
      ensures KeyLe(a, b) && KeyLe(b, a) ==> a == b
    {
    }
  }

  ghost function InOrder(keys: set<Key>): (sorted: seq<Key>)
    ensures forall k :: k in sorted <==> k in keys
  {
    KeysAreOrdered();
    Sorted(KeyLe, keys)
  }

  function MessageKeys(s: Store): set<Key>
  {
    set id | id in s.messages :: Key(s.messages[id].created, id)
  }

  function ReceiptKeys(s: Store, message: string, asOf: int): set<Key>
  {
    set k | k in s.receipts && s.receipts[k].message == message && s.receipts[k].recordedAt <= asOf
      :: Key(s.receipts[k].recordedAt, k)
  }

  // ---------------------------------------------------------------------
  // Status

  datatype Stage = Persisted | Accepted | Seen | Answered | Expired

  datatype View = View(message: Message, stage: Stage, accepted: bool, observed: bool, acknowledged: bool, expired: bool,
                       receipts: seq<Receipt>)

  predicate Has(s: Store, id: string, asOf: int, event: Event)
  {
    exists k :: k in s.receipts && s.receipts[k].message == id && s.receipts[k].event == event && s.receipts[k].recordedAt <= asOf
  }

  predicate IsAcknowledged(s: Store, id: string, asOf: int)
  {
    Has(s, id, asOf, Acknowledged)
  }

  predicate IsObserved(s: Store, id: string, asOf: int)
  {
    Has(s, id, asOf, Acknowledged) || Has(s, id, asOf, Observed)
  }

  predicate IsExpired(s: Store, m: Message, asOf: int)
  {
    asOf >= m.expires && !Has(s, m.id, m.expires, Acknowledged)
  }

  function StageOf(s: Store, m: Message, asOf: int): Stage
  {
    if IsExpired(s, m, asOf) then Expired
    else if IsAcknowledged(s, m.id, asOf) then Answered
    else if IsObserved(s, m.id, asOf) then Seen
    else if Has(s, m.id, asOf, RuntimeAccepted) then Accepted
    else Persisted
  }

  ghost function ReceiptsFor(s: Store, id: string, asOf: int): (rs: seq<Receipt>)
    ensures forall r :: r in rs ==> r.message == id && r.recordedAt <= asOf
  {
    var keys := InOrder(ReceiptKeys(s, id, asOf));
    assert forall i :: 0 <= i < |keys| ==> keys[i] in keys;
    seq(|keys|, i requires 0 <= i < |keys| => s.receipts[keys[i].id])
  }

  ghost function Status(s: Store, m: Message, asOf: int): View
  {
    View(m, StageOf(s, m, asOf), Has(s, m.id, asOf, RuntimeAccepted), IsObserved(s, m.id, asOf),
         IsAcknowledged(s, m.id, asOf), IsExpired(s, m, asOf), ReceiptsFor(s, m.id, asOf))
  }

  function Rank(stage: Stage): nat
    requires !stage.Expired?
  {
    match stage case Persisted => 0 case Accepted => 1 case Seen => 2 case Answered => 3
  }

  /** As the store grows and the clock advances, no evidence is lost and the stage never moves back. */
  lemma LifecycleNeverMovesBack(s: Store, s': Store, m: Message, t: int, t': int)
    requires Grows(s, s') && t <= t'
    ensures forall e :: Has(s, m.id, t, e) ==> Has(s', m.id, t', e)
    ensures !IsExpired(s, m, t) && !IsExpired(s', m, t') ==> Rank(StageOf(s, m, t)) <= Rank(StageOf(s', m, t'))
  {
    forall e | Has(s, m.id, t, e)
      ensures Has(s', m.id, t', e)
    {
      var k :| k in s.receipts && s.receipts[k].message == m.id && s.receipts[k].event == e && s.receipts[k].recordedAt <= t;
      assert k in s'.receipts && s'.receipts[k] == s.receipts[k];
    }
  }

  /** Once acknowledged by its expiry, a message never shows as expired, at any later store or any time. */
  lemma AnsweredInTimeNeverExpires(s: Store, s': Store, m: Message, t: int)
    requires Grows(s, s') && t <= m.expires && IsAcknowledged(s, m.id, t)
    ensures forall t' :: !IsExpired(s', m, t')
    ensures forall t' :: t' >= m.expires ==> StageOf(s', m, t') == Answered
  {
    LifecycleNeverMovesBack(s, s', m, t, m.expires);
    forall t' | t' >= m.expires
      ensures IsAcknowledged(s', m.id, t')
    {
      LifecycleNeverMovesBack(s', s', m, m.expires, t');
    }
  }

  /** Acknowledgements of `m` stamped no later than its expiry that `s'` has and `s` does not. */
  function Rescues(s: Store, s': Store, m: Message): set<string>
  {
    set k | k in s'.receipts && k !in s.receipts && s'.receipts[k].message == m.id
            && s'.receipts[k].event == Acknowledged && s'.receipts[k].recordedAt <= m.expires
  }

  /** An expired message stays expired exactly as long as no acknowledgement stamped by its expiry arrives late. */
  lemma ExpiryIsFinalExactly(s: Store, s': Store, m: Message, t: int, t': int)
    requires Grows(s, s') && t <= t' && IsExpired(s, m, t)
    ensures IsExpired(s', m, t') <==> Rescues(s, s', m) == {}
  {
    if !IsExpired(s', m, t') {
      var k :| k in s'.receipts && s'.receipts[k].message == m.id && s'.receipts[k].event == Acknowledged
               && s'.receipts[k].recordedAt <= m.expires;
      assert k !in s.receipts;
      assert k in Rescues(s, s', m);
    }
    if Rescues(s, s', m) != {} {
      var k :| k in Rescues(s, s', m);
      assert Has(s', m.id, m.expires, Acknowledged);
    }
  }

  // ---------------------------------------------------------------------
  // Sending

  datatype Sent = Sent(message: Message, replay: bool)

  function StoreMessage(s: Store, m: Message): (Store, Result<Sent, Error>)
  {
    var s' := s.(messages := CreateIfAbsent(s.messages, m.id, m));
    if m.id !in s.messages then (s', Ok(Sent(m, false)))
    else if s.messages[m.id].request != m.request then (s', Err(RecordCollision))
    else (s', Ok(Sent(s.messages[m.id], true)))
  }

  /** One call to send: the caller's liveness and the routed recipient come from the claim registry. */
  datatype Sending = Sending(request: Request, key: Option<string>, uuid: string, live: bool, route: Option<string>, now: int)

  function MessageId(h: Hashing, c: Sending): string
  {
    match c.key
    case None => c.uuid
    case Some(key) => StableId(h, "msg", [c.request.sender, key])
  }

  function Composed(h: Hashing, c: Sending, recipient: string): Message
  {
    Message(MessageId(h, c), c.request.sender, recipient, c.request.project, c.request, c.now, c.now + c.request.ttl)
  }

  function Send(h: Hashing, s: Store, c: Sending): (Store, Result<Sent, Error>)
  {
    if c.request.caller != c.request.sender then (s, Err(IdentityMismatch))
    else if !c.live then (s, Err(UnknownSession))
    else
      var id := MessageId(h, c);
      if c.key.Some? && id in s.messages then
        if s.messages[id].request != c.request then (s, Err(RecordCollision))
        else (s, Ok(Sent(s.messages[id], true)))
      else if c.route.None? then (s, Err(UnknownSession))
      else StoreMessage(s, Composed(h, c, c.route.value))
  }

  /** Every stored message carries its own identity, sender and request. */
  ghost predicate Sane(s: Store)
  {
    forall k :: k in s.messages ==>
      var m := s.messages[k];
      m.id == k && NUL !in m.id && m.sender == m.request.sender && m.request.caller == m.request.sender
  }

  /** Repeating a keyed send, at any later store: the same request replays the first message, another one is refused. */
  lemma RetryReplaysOrRefuses(h: Hashing, s: Store, first: Sending, s': Store, again: Sending)
    requires first.key.Some? && again.key == first.key && again.request.sender == first.request.sender
    requires Send(h, s, first).1.Ok? && Grows(Send(h, s, first).0, s')
    ensures Send(h, s', again).0 == s'
    ensures again.live && again.request == first.request ==>
              Send(h, s', again).1 == Ok(Sent(Send(h, s, first).1.value.message, true))
    ensures again.request != first.request ==> Send(h, s', again).1.Err?
  {
    var id := MessageId(h, first);
    assert id == MessageId(h, again);
    assert id in Send(h, s, first).0.messages;
  }

  /** A send that succeeds yields a message for its own request, stored under its own identifier; a failed one stores nothing. */
  lemma SendStoresOwnMessage(h: Hashing, s: Store, c: Sending)
    requires Ideal(h) && Sane(s) && NUL !in c.uuid
    ensures var (s', r) := Send(h, s, c);
            && Grows(s, s') && Sane(s') && s'.receipts == s.receipts && s'.deliveries == s.deliveries
            && (r.Err? ==> s' == s)
            && (r.Ok? ==> var m := r.value.message;
                          && MessageId(h, c) in s'.messages && s'.messages[MessageId(h, c)] == m
                          && m.request == c.request && m.sender == c.request.sender
                          && (r.value.replay <==> MessageId(h, c) in s.messages)
                          && (!r.value.replay ==> s'.messages == s.messages[m.id := m] && c.route == Some(m.recipient)
                                                  && m.created == c.now && m.expires == c.now + c.request.ttl))
  {
    if c.key.Some? {
      var text := h.hex(Join(["msg"] + [c.request.sender, c.key.value], NUL));
      assert MessageId(h, c) == "msg" + "_" + text;
      assert NUL !in "msg" + "_" && NUL !in text;
    }
  }

  /** Two keyed sends share an identifier exactly when sender and key agree, for senders free of NUL. */
  lemma KeysAreScopedToSender(h: Hashing, c: Sending, d: Sending)
    requires Ideal(h) && c.key.Some? && d.key.Some? && NUL !in c.request.sender && NUL !in d.request.sender
    ensures MessageId(h, c) == MessageId(h, d) <==> c.request.sender == d.request.sender && c.key == d.key
  {
    StableIdInjective(h, "msg", [c.request.sender, c.key.value], [d.request.sender, d.key.value]);
    var a, b := [c.request.sender, c.key.value], [d.request.sender, d.key.value];
    if a == b { assert a[0] == b[0] && a[1] == b[1]; }
  }

  // ---------------------------------------------------------------------
  // Receipts and deliveries

  function StoreReceipt(s: Store, r: Receipt): (Store, Result<Receipt, Error>)
  {
    var s' := s.(receipts := CreateIfAbsent(s.receipts, r.id, r));
    if r.id !in s.receipts then (s', Ok(r))
    else if s.receipts[r.id].(recordedAt := r.recordedAt) != r then (s', Err(RecordCollision))
    else (s', Ok(s.receipts[r.id]))
  }

  datatype Answering = Answering(session: string, message: string, answer: Answer, live: bool, now: int)

  function AnswerReceipt(h: Hashing, c: Answering): Receipt
  {
    Receipt(StableId(h, "rcpt", [c.message, c.session, "acknowledged"]), c.message, c.session, Acknowledged, c.now,
            Some(c.answer))
  }

  function Acknowledge(h: Hashing, s: Store, c: Answering): (Store, Result<Receipt, Error>)
  {
    if !c.live then (s, Err(UnknownSession))
    else if c.message !in s.messages then (s, Err(MessageNotFound))
    else if s.messages[c.message].recipient != c.session then (s, Err(WrongRecipient))
    else StoreReceipt(s, AnswerReceipt(h, c))
  }

  /** After one acknowledgement, the same answer replays the first receipt, and a different answer is refused. */
  lemma SecondAnswerReplaysOrRefuses(h: Hashing, s: Store, first: Answering, s': Store, again: Answering)
    requires again.message == first.message && again.session == first.session && again.live
    requires Acknowledge(h, s, first).1.Ok? && Grows(Acknowledge(h, s, first).0, s')
    ensures Acknowledge(h, s', again).0 == s'
    ensures Acknowledge(h, s', again).1 == if again.answer == first.answer
                                           then Ok(Acknowledge(h, s, first).1.value) else Err(RecordCollision)
  {
    var id := AnswerReceipt(h, first).id;
    assert id in Acknowledge(h, s, first).0.receipts;
  }

  /** Only the recipient can acknowledge; from the stamp of the receipt on, the message counts as acknowledged. */
  lemma AnswerTakesEffect(h: Hashing, s: Store, c: Answering)
    requires Sane(s)
    ensures var (s', r) := Acknowledge(h, s, c);
            && (r.Err? ==> s' == s)
            && (r.Ok? ==> c.message in s.messages && s.messages[c.message].recipient == c.session)
            && (r.Ok? ==> forall t :: t >= r.value.recordedAt ==> IsAcknowledged(s', c.message, t))
            && (r.Ok? && r.value.recordedAt <= s.messages[c.message].expires ==>
                  forall t :: !IsExpired(s', s.messages[c.message], t))
  {
    var (s', r) := Acknowledge(h, s, c);
    if r.Ok? {
      var id := AnswerReceipt(h, c).id;
      assert id in s'.receipts && s'.receipts[id] == r.value && r.value.event.Acknowledged?;
    }
  }

  datatype Claimed = Won | Lost | Collided

  function Marker(h: Hashing, id: string, display: string, event: string, now: int): Delivery
  {
    Delivery(StableId(h, "delivery", [id, display, event]), event, id, display, now)
  }

  function ClaimDelivery(h: Hashing, s: Store, id: string, display: string, event: string, now: int): (Store, Claimed)
  {
    var d := Marker(h, id, display, event, now);
    var s' := s.(deliveries := CreateIfAbsent(s.deliveries, d.id, d));
    if d.id !in s.deliveries then (s', Won)
    else if s.deliveries[d.id].(recordedAt := now) != d then (s', Collided)
    else (s', Lost)
  }

  /** Every marker is filed under the identifier of what it marks. */
  ghost predicate Marked(h: Hashing, s: Store)
  {
    forall k :: k in s.deliveries ==>
      var d := s.deliveries[k];
      d.id == k == StableId(h, "delivery", [d.message, d.recipient, d.event]) && NUL !in d.message && NUL !in d.recipient
  }

  /** Among well-filed markers a claim never collides: it wins the first time and loses ever after. */
  lemma ClaimIsExact(h: Hashing, s: Store, message: string, display: string, event: string, now: int)
    requires Ideal(h) && Marked(h, s) && NUL !in message && NUL !in display
    ensures var (s', c) := ClaimDelivery(h, s, message, display, event, now);
            var id := StableId(h, "delivery", [message, display, event]);
            && c == (if id in s.deliveries then Lost else Won)
            && Marked(h, s') && Grows(s, s') && id in s'.deliveries
            && s'.deliveries.Keys == s.deliveries.Keys + {id}
            && s'.messages == s.messages && s'.receipts == s.receipts
  {
    var id := StableId(h, "delivery", [message, display, event]);
    if id in s.deliveries {
      var d := s.deliveries[id];
      ClaimsAreIndependent(h, d.message, d.recipient, d.event, message, display, event);
    }
  }

  /** A claim for one message, session and event leaves every other one unclaimed. */
  lemma ClaimsAreIndependent(h: Hashing, message: string, display: string, event: string,
                             message': string, display': string, event': string)
    requires Ideal(h) && NUL !in message && NUL !in display && NUL !in message' && NUL !in display'
    ensures StableId(h, "delivery", [message, display, event]) == StableId(h, "delivery", [message', display', event'])
       <==> message == message' && display == display' && event == event'
  {
    var a, b := [message, display, event], [message', display', event'];
    StableIdInjective(h, "delivery", a, b);
    if a == b { assert a[0] == b[0] && a[1] == b[1] && a[2] == b[2]; }
  }
}
