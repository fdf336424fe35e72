/** Polling an inbox, and draining acknowledgements back to their sender. */
module MailboxPolling {
  import opened Wrappers
  import opened RegistryDigest
  import opened Mailbox

  function IdsOf(keys: seq<Key>): (ids: seq<string>)
    ensures |ids| == |keys| && forall i :: 0 <= i < |keys| ==> ids[i] == keys[i].id
    ensures forall k :: k in keys ==> k.id in ids
  {
    if keys == [] then [] else IdsOf(keys[..|keys| - 1]) + [keys[|keys| - 1].id]
  }

  lemma KeysListMessages(s: Store)
    ensures forall id :: id in IdsOf(InOrder(MessageKeys(s))) <==> id in s.messages
  {
    var keys := InOrder(MessageKeys(s));
    var ids := IdsOf(keys);
    forall id | id in ids
      ensures id in s.messages
    {
      var i :| 0 <= i < |ids| && ids[i] == id;
      assert keys[i] in keys;
    }
    forall id | id in s.messages
      ensures id in ids
    {
      assert Key(s.messages[id].created, id) in keys;
    }
  }

  /** Message identifiers in creation order. */
  ghost function Ordered(s: Store): (ids: seq<string>)
    ensures forall id :: id in ids <==> id in s.messages
  {
    KeysListMessages(s);
    IdsOf(InOrder(MessageKeys(s)))
  }

  ghost predicate Distinct(ids: seq<string>)
  {
    forall i, j :: 0 <= i < j < |ids| ==> ids[i] != ids[j]
  }

  lemma KeysAreSorted(keys: set<Key>)
    ensures forall i, j :: 0 <= i < j < |InOrder(keys)| ==>
              InOrder(keys)[i] != InOrder(keys)[j] && InOrder(keys)[i].time <= InOrder(keys)[j].time
  {
    KeysAreOrdered();
    Ordering.SortedDistinct(KeyLe, keys);
  }

  /** Each message is listed once, in order of creation. */
  lemma OrderedByCreation(s: Store)
    ensures Distinct(Ordered(s))
    ensures forall i, j :: 0 <= i < j < |Ordered(s)| ==> s.messages[Ordered(s)[i]].created <= s.messages[Ordered(s)[j]].created
  {
    var keys := InOrder(MessageKeys(s));
    KeysAreSorted(MessageKeys(s));
    forall i, j | 0 <= i < j < |keys|
      ensures Ordered(s)[i] != Ordered(s)[j] && s.messages[Ordered(s)[i]].created <= s.messages[Ordered(s)[j]].created
    {
      assert keys[i] in keys && keys[j] in keys;
    }
  }

  /** The receipts of a message are listed in order of recording. */
  lemma ReceiptsByRecording(s: Store, id: string, asOf: int)
    ensures forall i, j :: 0 <= i < j < |ReceiptsFor(s, id, asOf)| ==>
              ReceiptsFor(s, id, asOf)[i].recordedAt <= ReceiptsFor(s, id, asOf)[j].recordedAt
  {
    var keys := InOrder(ReceiptKeys(s, id, asOf));
    KeysAreSorted(ReceiptKeys(s, id, asOf));
    forall i | 0 <= i < |keys|
      ensures ReceiptsFor(s, id, asOf)[i].recordedAt == keys[i].time
    {
      assert keys[i] in keys;
    }
  }

  // ---------------------------------------------------------------------
  // Polling

  datatype Query = Query(session: string, asOf: int, project: Option<string>, includeExpired: bool, observe: bool,
                         event: Option<string>)

  predicate Selected(m: Message, q: Query)
  {
    m.recipient == q.session && (q.project.None? || m.project == q.project.value)
  }

  datatype Polled = Skipped | Suppressed | Shown(view: View, observation: Option<Receipt>) | Failed

  function Observation(h: Hashing, m: Message, now: int): Receipt
  {
    Receipt(StableId(h, "rcpt", [m.id, m.recipient, "observed"]), m.id, m.recipient, Observed, now, None)
  }

  /** The delivery of an unacknowledged message is claimed first, when the poll names an event. */
  function ClaimPhase(h: Hashing, s: Store, q: Query, m: Message): (Store, Claimed)
  {
    if q.event.Some? && !IsAcknowledged(s, m.id, q.asOf)
    then ClaimDelivery(h, s, m.id, m.recipient, q.event.value, q.asOf)
    else (s, Won)
  }

  /** Then the observation is recorded, when asked for, and the status read again. */
  ghost function ViewPhase(h: Hashing, s: Store, q: Query, m: Message, record: bool): (Store, Polled)
  {
    if record then
      var (s', r) := StoreReceipt(s, Observation(h, m, q.asOf));
      if r.Err? then (s', Failed) else (s', Shown(Status(s', m, q.asOf), Some(r.value)))
    else (s, Shown(Status(s, m, q.asOf), None))
  }

  ghost function PollOne(h: Hashing, s: Store, q: Query, m: Message): (Store, Polled)
  {
    if IsExpired(s, m, q.asOf) && !q.includeExpired then (s, Skipped)
    else
      var record := q.observe && !IsExpired(s, m, q.asOf) && !IsObserved(s, m.id, q.asOf);
      var (s', c) := ClaimPhase(h, s, q, m);
      if c.Lost? then (s', Suppressed)
      else if c.Collided? then (s', Failed)
      else ViewPhase(h, s', q, m, record)
  }

  datatype Inbox = Inbox(store: Store, shown: seq<View>, observations: seq<Receipt>, suppressed: seq<string>, failed: bool)

  function WithOutcome(id: string, p: Polled, rest: Inbox): Inbox
  {
    if rest.failed then rest
    else match p
    case Skipped => rest
    case Failed => rest
    case Suppressed => rest.(suppressed := [id] + rest.suppressed)
    case Shown(view, observation) =>
      rest.(shown := [view] + rest.shown,
            observations := (if observation.Some? then [observation.value] else []) + rest.observations)
  }

  ghost function PollFrom(h: Hashing, s: Store, q: Query, ids: seq<string>): Inbox
    requires forall id :: id in ids ==> id in s.messages
    decreases |ids|
  {
    if ids == [] then Inbox(s, [], [], [], false)
    else
      var m := s.messages[ids[0]];
      if !Selected(m, q) then PollFrom(h, s, q, ids[1..])
      else
        var (s1, p) := PollOne(h, s, q, m);
        if p.Failed? then Inbox(s1, [], [], [], true)
        else WithOutcome(m.id, p, PollFrom(h, s1, q, ids[1..]))
  }

  // ---------------------------------------------------------------------
  // What a poll shows

  predicate Marks(h: Hashing, s: Store, m: Message, event: string)
  {
    StableId(h, "delivery", [m.id, m.recipient, event]) in s.deliveries
  }

  predicate Considered(s: Store, q: Query, m: Message)
  {
    Selected(m, q) && (q.includeExpired || !IsExpired(s, m, q.asOf))
  }

  /** A considered message is withheld when it is unacknowledged and already displayed for this event. */
  predicate Withheld(h: Hashing, s: Store, q: Query, m: Message)
  {
    Considered(s, q, m) && q.event.Some? && !IsAcknowledged(s, m.id, q.asOf) && Marks(h, s, m, q.event.value)
  }

  predicate Displayed(h: Hashing, s: Store, q: Query, m: Message)
  {
    Considered(s, q, m) && !Withheld(h, s, q, m)
  }

  function IdsWhere(h: Hashing, s: Store, q: Query, ids: seq<string>, shown: bool): seq<string>
    requires forall id :: id in ids ==> id in s.messages
  {
    if ids == [] then []
    else
      var m := s.messages[ids[0]];
      (if (if shown then Displayed(h, s, q, m) else Withheld(h, s, q, m)) then [m.id] else [])
      + IdsWhere(h, s, q, ids[1..], shown)
  }

  function ViewIds(views: seq<View>): seq<string>
  {
    seq(|views|, i requires 0 <= i < |views| => views[i].message.id)
  }

  /** Receipts are filed under the identifier of what they evidence, for the message's own recipient. */
  ghost predicate Filed(h: Hashing, s: Store)
  {
    && Sane(s) && Marked(h, s)
    && (forall k :: k in s.messages ==> NUL !in s.messages[k].recipient)
    && (forall k :: k in s.receipts ==>
          var r := s.receipts[k];
          && k == r.id && NUL !in r.message && NUL !in r.recipient
          && (r.event.Observed? ==> r.id == StableId(h, "rcpt", [r.message, r.recipient, "observed"]) && r.answer.None?)
          && (r.event.Acknowledged? ==> r.id == StableId(h, "rcpt", [r.message, r.recipient, "acknowledged"]))
          && (r.event.RuntimeAccepted? ==> r.id == StableId(h, "rcpt", [r.message, r.recipient, "runtime_accepted"])))
  }

  function EventName(e: Event): string
  {
    match e case RuntimeAccepted => "runtime_accepted" case Observed => "observed" case Acknowledged => "acknowledged"
  }

  /** Recording an observation never collides, and touches no other message and no stronger evidence. */
  lemma ObservationIsExact(h: Hashing, s: Store, m: Message, now: int)
    requires Ideal(h) && Filed(h, s) && NUL !in m.id && NUL !in m.recipient
    ensures var (s', r) := StoreReceipt(s, Observation(h, m, now));
            && r.Ok? && Filed(h, s') && Grows(s, s')
            && s'.messages == s.messages && s'.deliveries == s.deliveries
            && (forall id, t :: IsAcknowledged(s', id, t) <==> IsAcknowledged(s, id, t))
  {
    var o := Observation(h, m, now);
    var s' := StoreReceipt(s, o).0;
    if o.id in s.receipts {
      var r := s.receipts[o.id];
      var a, b := [r.message, r.recipient, EventName(r.event)], [m.id, m.recipient, "observed"];
      StableIdInjective(h, "rcpt", a, b);
      assert a[0] == b[0] && a[1] == b[1] && a[2] == b[2];
      assert s' == s;
    } else {
      assert Grows(s, s');
      HasAfterObservation(s, o);
    }
  }

  lemma HasAfterObservation(s: Store, o: Receipt)
    requires o.id !in s.receipts
    ensures var s' := s.(receipts := s.receipts[o.id := o]);
            forall id, t, e :: (id != o.message || e != o.event) ==> (Has(s', id, t, e) <==> Has(s, id, t, e))
  {
    var s' := s.(receipts := s.receipts[o.id := o]);
    forall id, t, e | id != o.message || e != o.event
      ensures Has(s', id, t, e) <==> Has(s, id, t, e)
    {
      if Has(s, id, t, e) {
        var k :| k in s.receipts && s.receipts[k].message == id && s.receipts[k].event == e && s.receipts[k].recordedAt <= t;
        assert k in s'.receipts && s'.receipts[k] == s.receipts[k];
      }
    }
  }

  /** Nothing about any other message has changed for this query. */
  ghost predicate Untouched(h: Hashing, s: Store, s': Store, q: Query, id: string)
  {
    forall o :: o in s.messages && o != id ==>
      var m := s.messages[o];
      && (IsAcknowledged(s', o, q.asOf) <==> IsAcknowledged(s, o, q.asOf))
      && (IsExpired(s', m, q.asOf) <==> IsExpired(s, m, q.asOf))
      && (q.event.Some? ==> (Marks(h, s', m, q.event.value) <==> Marks(h, s, m, q.event.value)))
  }

  lemma OthersKeepMarks(h: Hashing, s: Store, s': Store, m: Message, event: string)
    requires Ideal(h) && Sane(s) && (forall k :: k in s.messages ==> NUL !in s.messages[k].recipient)
    requires NUL !in m.id && NUL !in m.recipient
    requires s'.deliveries.Keys == s.deliveries.Keys + {StableId(h, "delivery", [m.id, m.recipient, event])}
    ensures forall o :: o in s.messages && o != m.id ==>
              (Marks(h, s', s.messages[o], event) <==> Marks(h, s, s.messages[o], event))
  {
    forall o | o in s.messages && o != m.id
      ensures Marks(h, s', s.messages[o], event) <==> Marks(h, s, s.messages[o], event)
    {
      var n := s.messages[o];
      ClaimsAreIndependent(h, m.id, m.recipient, event, n.id, n.recipient, event);
    }
  }

  lemma ClaimPhaseIsExact(h: Hashing, s: Store, q: Query, m: Message)
    requires Ideal(h) && Filed(h, s) && m.id in s.messages && s.messages[m.id] == m && Considered(s, q, m)
    ensures var (s', c) := ClaimPhase(h, s, q, m);
            && Filed(h, s') && Grows(s, s') && s'.messages == s.messages && s'.receipts == s.receipts
            && c == (if Withheld(h, s, q, m) then Lost else Won)
            && OnlyMarks(h, s, s', q, m)
            && (q.event.Some? && !IsAcknowledged(s, m.id, q.asOf) ==> Marks(h, s', m, q.event.value))
  {
    if q.event.Some? && !IsAcknowledged(s, m.id, q.asOf) {
      ClaimIsExact(h, s, m.id, m.recipient, q.event.value, q.asOf);
      OthersKeepMarks(h, s, ClaimPhase(h, s, q, m).0, m, q.event.value);
    }
  }

  /** No other message gains or loses its mark for this event. */
  ghost predicate OnlyMarks(h: Hashing, s: Store, s': Store, q: Query, m: Message)
  {
    q.event.Some? ==>
      forall o :: o in s.messages && o != m.id ==>
        (Marks(h, s', s.messages[o], q.event.value) <==> Marks(h, s, s.messages[o], q.event.value))
  }

  lemma ViewPhaseIsExact(h: Hashing, s: Store, q: Query, m: Message, record: bool)
    requires Ideal(h) && Filed(h, s) && m.id in s.messages && s.messages[m.id] == m
    ensures var (s', p) := ViewPhase(h, s, q, m, record);
            && p.Shown? && p.view.message == m
            && Filed(h, s') && Grows(s, s') && s'.messages == s.messages && s'.deliveries == s.deliveries
            && (forall id, t :: IsAcknowledged(s', id, t) <==> IsAcknowledged(s, id, t))
  {
    ObservationIsExact(h, s, m, q.asOf);
  }

  /** Nothing stored is lost, and every record stays well filed. */
  ghost predicate Keeps(h: Hashing, s: Store, s': Store)
  {
    Filed(h, s') && Grows(s, s') && s'.messages == s.messages
  }

  lemma KeepsTogether(h: Hashing, a: Store, b: Store, c: Store)
    requires Keeps(h, a, b) && Keeps(h, b, c)
    ensures Keeps(h, a, c)
  {
  }

  lemma PollOneKeeps(h: Hashing, s: Store, q: Query, m: Message)
    requires Ideal(h) && Filed(h, s) && m.id in s.messages && s.messages[m.id] == m && Selected(m, q)
    ensures Keeps(h, s, PollOne(h, s, q, m).0) && !PollOne(h, s, q, m).1.Failed?
  {
    if Considered(s, q, m) {
      ClaimPhaseIsExact(h, s, q, m);
      var (s1, c) := ClaimPhase(h, s, q, m);
      if c.Won? {
        var record := q.observe && !IsExpired(s, m, q.asOf) && !IsObserved(s, m.id, q.asOf);
        ViewPhaseIsExact(h, s1, q, m, record);
        KeepsTogether(h, s, s1, ViewPhase(h, s1, q, m, record).0);
      }
    }
  }

  lemma OnlyMarksIsUntouched(h: Hashing, s: Store, s': Store, q: Query, m: Message)
    requires OnlyMarks(h, s, s', q, m)
    requires forall id, t :: IsAcknowledged(s', id, t) <==> IsAcknowledged(s, id, t)
    requires Sane(s)
    ensures Untouched(h, s, s', q, m.id)
  {
    forall o | o in s.messages && o != m.id
      ensures IsExpired(s', s.messages[o], q.asOf) <==> IsExpired(s, s.messages[o], q.asOf)
    {
      assert IsAcknowledged(s', o, s.messages[o].expires) <==> IsAcknowledged(s, o, s.messages[o].expires);
    }
  }

  /** One polled message: what happens to it is decided by the store as it was, and the rest is left alone. */
  lemma PollOneIsExact(h: Hashing, s: Store, q: Query, m: Message)
    requires Ideal(h) && Filed(h, s) && m.id in s.messages && s.messages[m.id] == m && Selected(m, q)
    ensures var (s', p) := PollOne(h, s, q, m);
            && (p.Shown? <==> Displayed(h, s, q, m)) && (p.Suppressed? <==> Withheld(h, s, q, m))
            && (p.Shown? ==> p.view.message == m)
            && (q.event.Some? && Considered(s, q, m) && !IsAcknowledged(s, m.id, q.asOf) ==> Marks(h, s', m, q.event.value))
            && Untouched(h, s, s', q, m.id)
  {
    if Considered(s, q, m) {
      ClaimPhaseIsExact(h, s, q, m);
      var (s1, c) := ClaimPhase(h, s, q, m);
      SameReceipts(s, s1);
      if c.Won? {
        var record := q.observe && !IsExpired(s, m, q.asOf) && !IsObserved(s, m.id, q.asOf);
        ViewPhaseIsExact(h, s1, q, m, record);
      }
      OnlyMarksIsUntouched(h, s, PollOne(h, s, q, m).0, q, m);
    }
  }

  /** A poll that observes leaves what it shows observed, unless an observation stamped later is already on file. */
  lemma ShownIsObserved(h: Hashing, s: Store, q: Query, m: Message)
    requires PollOne(h, s, q, m).1.Shown? && q.observe && !IsExpired(s, m, q.asOf)
    requires Observation(h, m, q.asOf).id in s.receipts ==> s.receipts[Observation(h, m, q.asOf).id].recordedAt <= q.asOf
    ensures PollOne(h, s, q, m).1.view.observed && IsObserved(PollOne(h, s, q, m).0, m.id, q.asOf)
  {
    var s1 := ClaimPhase(h, s, q, m).0;
    var s' := PollOne(h, s, q, m).0;
    var o := Observation(h, m, q.asOf);
    if IsObserved(s, m.id, q.asOf) {
      assert s' == s1 && s1.receipts == s.receipts;
      SameEvidence(s, s1);
    } else {
      assert o.id in s'.receipts && s'.receipts[o.id].message == m.id && s'.receipts[o.id].event.Observed?;
      assert Has(s', m.id, q.asOf, Observed);
    }
  }

  lemma SameEvidence(s: Store, s': Store)
    requires s'.receipts == s.receipts
    ensures forall id, t, e :: Has(s', id, t, e) <==> Has(s, id, t, e)
  {
  }

  lemma SameReceipts(s: Store, s': Store)
    requires s'.receipts == s.receipts
    ensures forall id, t :: IsAcknowledged(s', id, t) <==> IsAcknowledged(s, id, t)
  {
  }

  lemma {:induction false} RestIsUntouched(h: Hashing, s: Store, s': Store, q: Query, id: string, ids: seq<string>, shown: bool)
    requires s'.messages == s.messages && Sane(s) && Untouched(h, s, s', q, id) && id !in ids
    requires forall o :: o in ids ==> o in s.messages
    ensures IdsWhere(h, s', q, ids, shown) == IdsWhere(h, s, q, ids, shown)
  {
    if ids != [] {
      RestIsUntouched(h, s, s', q, id, ids[1..], shown);
      assert ids[0] in s.messages && ids[0] != id;
    }
  }

  lemma {:induction false} PollKeeps(h: Hashing, s: Store, q: Query, ids: seq<string>)
    requires Ideal(h) && Filed(h, s) && forall id :: id in ids ==> id in s.messages
    ensures Keeps(h, s, PollFrom(h, s, q, ids).store) && !PollFrom(h, s, q, ids).failed
    decreases |ids|
  {
    if ids != [] {
      var m := s.messages[ids[0]];
      if Selected(m, q) {
        PollOneKeeps(h, s, q, m);
        var s1 := PollOne(h, s, q, m).0;
        PollKeeps(h, s1, q, ids[1..]);
        KeepsTogether(h, s, s1, PollFrom(h, s1, q, ids[1..]).store);
      } else {
        PollKeeps(h, s, q, ids[1..]);
      }
    }
  }

  /** A poll shows and withholds exactly the messages the store it started from calls for, in order. */
  lemma {:induction false} PollIsExact(h: Hashing, s: Store, q: Query, ids: seq<string>)
    requires Ideal(h) && Filed(h, s) && Distinct(ids) && forall id :: id in ids ==> id in s.messages
    ensures ViewIds(PollFrom(h, s, q, ids).shown) == IdsWhere(h, s, q, ids, true)
    ensures PollFrom(h, s, q, ids).suppressed == IdsWhere(h, s, q, ids, false)
    decreases |ids|
  {
    if ids != [] {
      var m := s.messages[ids[0]];
      var rest := ids[1..];
      if Selected(m, q) {
        PollOneIsExact(h, s, q, m);
        PollOneKeeps(h, s, q, m);
        var (s1, p) := PollOne(h, s, q, m);
        PollIsExact(h, s1, q, rest);
        PollKeeps(h, s1, q, rest);
        RestIsUntouched(h, s, s1, q, m.id, rest, true);
        RestIsUntouched(h, s, s1, q, m.id, rest, false);
        OutcomeAdds(m, p, PollFrom(h, s1, q, rest));
      } else {
        PollIsExact(h, s, q, rest);
      }
    }
  }

  lemma OutcomeAdds(m: Message, p: Polled, rest: Inbox)
    requires !rest.failed && (p.Shown? ==> p.view.message == m)
    ensures ViewIds(WithOutcome(m.id, p, rest).shown) == (if p.Shown? then [m.id] else []) + ViewIds(rest.shown)
    ensures WithOutcome(m.id, p, rest).suppressed == (if p.Suppressed? then [m.id] else []) + rest.suppressed
  {
  }

  lemma {:induction false} PollMarksAll(h: Hashing, s: Store, q: Query, ids: seq<string>, id: string)
    requires Ideal(h) && Filed(h, s) && Distinct(ids) && (forall i :: i in ids ==> i in s.messages) && id in ids
    requires q.event.Some? && Considered(s, q, s.messages[id]) && !IsAcknowledged(s, id, q.asOf)
    ensures Marks(h, PollFrom(h, s, q, ids).store, s.messages[id], q.event.value)
    decreases |ids|
  {
    var m := s.messages[ids[0]];
    if id == ids[0] {
      PollMarksFirst(h, s, q, ids);
    } else if Selected(m, q) {
      PollOneIsExact(h, s, q, m);
      PollOneKeeps(h, s, q, m);
      var s1 := PollOne(h, s, q, m).0;
      StillConsidered(h, s, s1, q, m.id, id);
      PollMarksAll(h, s1, q, ids[1..], id);
    } else {
      PollMarksAll(h, s, q, ids[1..], id);
    }
  }

  lemma PollMarksFirst(h: Hashing, s: Store, q: Query, ids: seq<string>)
    requires Ideal(h) && Filed(h, s) && (forall i :: i in ids ==> i in s.messages) && ids != []
    requires q.event.Some? && Considered(s, q, s.messages[ids[0]]) && !IsAcknowledged(s, ids[0], q.asOf)
    ensures Marks(h, PollFrom(h, s, q, ids).store, s.messages[ids[0]], q.event.value)
  {
    var m := s.messages[ids[0]];
    PollOneIsExact(h, s, q, m);
    PollOneKeeps(h, s, q, m);
    var s1 := PollOne(h, s, q, m).0;
    PollKeeps(h, s1, q, ids[1..]);
    MarkLasts(h, s1, PollFrom(h, s1, q, ids[1..]).store, m, q.event.value);
  }

  lemma MarkLasts(h: Hashing, s: Store, s': Store, m: Message, event: string)
    requires Grows(s, s') && Marks(h, s, m, event)
    ensures Marks(h, s', m, event)
  {
  }

  lemma StillConsidered(h: Hashing, s: Store, s': Store, q: Query, polled: string, id: string)
    requires Sane(s) && s'.messages == s.messages && id in s.messages && id != polled && Untouched(h, s, s', q, polled)
    requires Considered(s, q, s.messages[id]) && !IsAcknowledged(s, id, q.asOf)
    ensures Considered(s', q, s'.messages[id]) && !IsAcknowledged(s', id, q.asOf)
  {
  }

  /** A message a poll displayed unacknowledged is displayed again for the same event only once acknowledged. */
  lemma EventDisplaysOnce(h: Hashing, s: Store, q: Query, m: Message, s2: Store, q2: Query)
    requires Ideal(h) && Filed(h, s) && m.id in s.messages && s.messages[m.id] == m
    requires Grows(PollFrom(h, s, q, Ordered(s)).store, s2)
    requires q.event.Some? && q2.event == q.event
    requires Displayed(h, s, q, m) && !IsAcknowledged(s, m.id, q.asOf)
    ensures Displayed(h, s2, q2, m) ==> IsAcknowledged(s2, m.id, q2.asOf)
  {
    OrderedByCreation(s);
    PollMarksAll(h, s, q, Ordered(s), m.id);
  }
}
