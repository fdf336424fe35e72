/** Acknowledgements surfaced to their sender, a bounded number at a time. */
module MailboxDrain {
  import opened Wrappers
  import opened RegistryDigest
  import opened Mailbox
  import opened MailboxPolling

  datatype Draining = Draining(session: string, project: Option<string>, consume: bool, limit: nat, now: int)

  function LatestAnswer(rs: seq<Receipt>): Option<Receipt>
  {
    if rs == [] then None
    else if rs[|rs| - 1].event.Acknowledged? then Some(rs[|rs| - 1])
    else LatestAnswer(rs[..|rs| - 1])
  }

  lemma {:induction false} LatestAnswerIsLast(rs: seq<Receipt>)
    ensures LatestAnswer(rs).None? <==> forall r :: r in rs ==> !r.event.Acknowledged?
    ensures LatestAnswer(rs).Some? ==>
              exists i :: 0 <= i < |rs| && rs[i] == LatestAnswer(rs).value && rs[i].event.Acknowledged?
                          && forall j :: i < j < |rs| ==> !rs[j].event.Acknowledged?
  {
    if rs != [] && !rs[|rs| - 1].event.Acknowledged? {
      var before := rs[..|rs| - 1];
      LatestAnswerIsLast(before);
      assert rs == before + [rs[|rs| - 1]];
      if LatestAnswer(before).Some? {
        var i :| 0 <= i < |before| && before[i] == LatestAnswer(before).value && before[i].event.Acknowledged?
                 && forall j :: i < j < |before| ==> !before[j].event.Acknowledged?;
        assert rs[i] == before[i];
        assert forall j :: i < j < |before| ==> rs[j] == before[j];
      }
    }
  }

  /** A message of the sender's, and the acknowledgement notice it calls for, if any. */
  datatype Item = Quiet(id: string) | Notice(id: string, event: string, marker: string)

  ghost function ItemFor(h: Hashing, s: Store, q: Draining, m: Message): Item
  {
    if m.sender != q.session || (q.project.Some? && m.project != q.project.value) then Quiet(m.id)
    else
      match LatestAnswer(ReceiptsFor(s, m.id, q.now))
      case None => Quiet(m.id)
      case Some(r) => var event := "acknowledgement:" + r.id; Notice(m.id, event, StableId(h, "delivery", [m.id, q.session, event]))
  }

  ghost function Agenda(h: Hashing, s: Store, q: Draining, ids: seq<string>): (agenda: seq<Item>)
    requires forall id :: id in ids ==> id in s.messages
  {
    seq(|ids|, i requires 0 <= i < |ids| => ItemFor(h, s, q, s.messages[ids[i]]))
  }

  datatype Drained = Drained(store: Store, surfaced: seq<string>, failed: bool)

  /** Trying to surface one notice. */
  function Surface(h: Hashing, s: Store, q: Draining, item: Item): (Store, Claimed)
    requires item.Notice?
  {
    if q.consume then ClaimDelivery(h, s, item.id, q.session, item.event, q.now)
    else (s, if item.marker in s.deliveries then Lost else Won)
  }

  function Drain(h: Hashing, s: Store, q: Draining, agenda: seq<Item>): Drained
    decreases |agenda|
  {
    if agenda == [] || q.limit == 0 then Drained(s, [], false)
    else if agenda[0].Quiet? then Drain(h, s, q, agenda[1..])
    else
      var (s', c) := Surface(h, s, q, agenda[0]);
      match c
      case Collided => Drained(s', [], true)
      case Lost => Drain(h, s', q, agenda[1..])
      case Won =>
        var rest := Drain(h, s', q.(limit := q.limit - 1), agenda[1..]);
        if rest.failed then rest else rest.(surfaced := [agenda[0].id] + rest.surfaced)
  }

  /** One call of the sender: the whole mailbox in creation order. */
  ghost function DrainStore(h: Hashing, s: Store, q: Draining): Drained
  {
    Drain(h, s, q, Agenda(h, s, q, Ordered(s)))
  }

  // ---------------------------------------------------------------------
  // Serving an agenda

  /** No two entries share an identifier or a marker. */
  ghost predicate Unambiguous(agenda: seq<Item>)
  {
    forall i, j :: 0 <= i < j < |agenda| ==>
      agenda[i].id != agenda[j].id && (agenda[i].Notice? && agenda[j].Notice? ==> agenda[i].marker != agenda[j].marker)
  }

  predicate Waits(item: Item, marked: set<string>)
  {
    item.Notice? && item.marker !in marked
  }

  predicate NoticeOf(item: Item, marker: string)
  {
    item.Notice? && item.marker == marker
  }

  /** The acknowledgements not yet surfaced. */
  function Waiting(agenda: seq<Item>, marked: set<string>): (ids: seq<string>)
    ensures forall id :: id in ids <==> exists item :: item in agenda && item.id == id && Waits(item, marked)
  {
    if agenda == [] then []
    else (if Waits(agenda[0], marked) then [agenda[0].id] else []) + Waiting(agenda[1..], marked)
  }

  /** Serving in order up to a limit, marking what is served. */
  function Serve(agenda: seq<Item>, marked: set<string>, limit: nat): (seq<string>, set<string>)
  {
    if agenda == [] || limit == 0 then ([], marked)
    else if Waits(agenda[0], marked) then
      var (ids, marked') := Serve(agenda[1..], marked + {agenda[0].marker}, limit - 1);
      ([agenda[0].id] + ids, marked')
    else Serve(agenda[1..], marked, limit)
  }

  function Min(a: nat, b: nat): nat
  {
    if a < b then a else b
  }

  lemma {:induction false} SameWaiting(agenda: seq<Item>, a: set<string>, b: set<string>)
    requires forall item :: item in agenda && item.Notice? ==> (item.marker in a <==> item.marker in b)
    ensures Waiting(agenda, a) == Waiting(agenda, b)
  {
    if agenda != [] {
      SameWaiting(agenda[1..], a, b);
    }
  }

  lemma OwnMarker(agenda: seq<Item>, marked: set<string>)
    requires Unambiguous(agenda) && agenda != [] && agenda[0].Notice?
    ensures Waiting(agenda[1..], marked + {agenda[0].marker}) == Waiting(agenda[1..], marked)
  {
    SameWaiting(agenda[1..], marked + {agenda[0].marker}, marked);
  }

  /** Serving takes a prefix of what waits and leaves exactly the rest waiting. */
  lemma {:induction false} ServeIsExact(agenda: seq<Item>, marked: set<string>, limit: nat)
    requires Unambiguous(agenda)
    ensures var (ids, marked') := Serve(agenda, marked, limit);
            var waiting := Waiting(agenda, marked);
            var n := Min(limit, |waiting|);
            ids == waiting[..n] && Waiting(agenda, marked') == waiting[n..] && marked <= marked'
  {
    if agenda != [] && limit > 0 {
      var rest := agenda[1..];
      if Waits(agenda[0], marked) {
        OwnMarker(agenda, marked);
        ServeIsExact(rest, marked + {agenda[0].marker}, limit - 1);
      } else {
        ServeIsExact(rest, marked, limit);
      }
    }
  }

  /** A marker appears exactly for each acknowledgement served. */
  lemma {:induction false} ServeMarksExactly(agenda: seq<Item>, marked: set<string>, limit: nat)
    requires Unambiguous(agenda)
    ensures var (ids, marked') := Serve(agenda, marked, limit);
            forall k :: k in marked' <==>
              k in marked || exists i :: 0 <= i < |agenda| && NoticeOf(agenda[i], k) && agenda[i].id in ids
  {
    if agenda != [] && limit > 0 {
      var rest := agenda[1..];
      var (ids, marked') := Serve(agenda, marked, limit);
      var marked1 := if Waits(agenda[0], marked) then marked + {agenda[0].marker} else marked;
      var limit1 := if Waits(agenda[0], marked) then limit - 1 else limit;
      ServeMarksExactly(rest, marked1, limit1);
      ServedAreListed(rest, marked1, limit1);
      var restIds := Serve(rest, marked1, limit1).0;
      forall i | 0 <= i < |rest|
        ensures rest[i].id in ids <==> rest[i].id in restIds
      {
        assert rest[i] == agenda[i + 1];
      }
      forall k
        ensures k in marked' <==>
          k in marked || exists i :: 0 <= i < |agenda| && NoticeOf(agenda[i], k) && agenda[i].id in ids
      {
        ShiftServed(agenda, ids, restIds, k);
      }
    }
  }

  lemma {:induction false} ServedAreListed(agenda: seq<Item>, marked: set<string>, limit: nat)
    ensures forall id :: id in Serve(agenda, marked, limit).0 ==> exists i :: 0 <= i < |agenda| && agenda[i].id == id
  {
    if agenda != [] && limit > 0 {
      var rest := agenda[1..];
      var marked1 := if Waits(agenda[0], marked) then marked + {agenda[0].marker} else marked;
      var limit1 := if Waits(agenda[0], marked) then limit - 1 else limit;
      ServedAreListed(rest, marked1, limit1);
      forall id | id in Serve(agenda, marked, limit).0
        ensures exists i :: 0 <= i < |agenda| && agenda[i].id == id
      {
        if id != agenda[0].id {
          var i :| 0 <= i < |rest| && rest[i].id == id;
          assert agenda[i + 1].id == id;
        }
      }
    }
  }

  lemma ShiftServed(agenda: seq<Item>, ids: seq<string>, restIds: seq<string>, k: string)
    requires agenda != []
    requires forall i :: 0 <= i < |agenda[1..]| ==> (agenda[1..][i].id in ids <==> agenda[1..][i].id in restIds)
    ensures (exists i :: 0 <= i < |agenda| && NoticeOf(agenda[i], k) && agenda[i].id in ids) <==>
            ((NoticeOf(agenda[0], k) && agenda[0].id in ids)
             || (exists i :: 0 <= i < |agenda[1..]| && NoticeOf(agenda[1..][i], k) && agenda[1..][i].id in restIds))
  {
    var rest := agenda[1..];
    if i :| 0 <= i < |rest| && NoticeOf(rest[i], k) && rest[i].id in restIds {
      assert agenda[i + 1] == rest[i];
    }
    if i :| 0 <= i < |agenda| && NoticeOf(agenda[i], k) && agenda[i].id in ids {
      if i > 0 { assert rest[i - 1] == agenda[i]; }
    }
  }

  // ---------------------------------------------------------------------
  // A drain serves its agenda

  /** The two stores differ at most in their markers. */
  predicate SameMail(s: Store, s': Store)
  {
    s'.messages == s.messages && s'.receipts == s.receipts
  }

  /** Every receipt is visible at `now`. */
  predicate Settled(s: Store, now: int)
  {
    forall k :: k in s.receipts ==> s.receipts[k].recordedAt <= now
  }

  lemma SameItem(h: Hashing, s: Store, s': Store, q: Draining, q': Draining, m: Message)
    requires SameMail(s, s') && q'.session == q.session && q'.project == q.project
    requires q'.now == q.now || (Settled(s, q.now) && Settled(s, q'.now))
    ensures ItemFor(h, s', q', m) == ItemFor(h, s, q, m)
  {
    assert ReceiptKeys(s', m.id, q'.now) == ReceiptKeys(s, m.id, q.now);
    assert ReceiptsFor(s', m.id, q'.now) == ReceiptsFor(s, m.id, q.now);
  }

  lemma SameAgenda(h: Hashing, s: Store, s': Store, q: Draining, q': Draining, ids: seq<string>)
    requires SameMail(s, s') && forall id :: id in ids ==> id in s.messages
    requires q'.session == q.session && q'.project == q.project
    requires q'.now == q.now || (Settled(s, q.now) && Settled(s, q'.now))
    ensures Agenda(h, s', q', ids) == Agenda(h, s, q, ids)
  {
    forall m
      ensures ItemFor(h, s', q', m) == ItemFor(h, s, q, m)
    {
      SameItem(h, s, s', q, q', m);
    }
  }

  /** Every notice carries its own marker. */
  ghost predicate WellMarked(h: Hashing, session: string, agenda: seq<Item>)
  {
    && NUL !in session
    && forall item :: item in agenda && item.Notice? ==>
         NUL !in item.id && item.marker == StableId(h, "delivery", [item.id, session, item.event])
  }

  lemma AgendaIsWellMarked(h: Hashing, s: Store, q: Draining, ids: seq<string>)
    requires Ideal(h) && Sane(s) && NUL !in q.session && Distinct(ids) && forall id :: id in ids ==> id in s.messages
    ensures WellMarked(h, q.session, Agenda(h, s, q, ids)) && Unambiguous(Agenda(h, s, q, ids))
  {
    var agenda := Agenda(h, s, q, ids);
    forall i, j | 0 <= i < j < |agenda|
      ensures agenda[i].Notice? && agenda[j].Notice? ==> agenda[i].marker != agenda[j].marker
    {
      var a, b := agenda[i], agenda[j];
      if a.Notice? && b.Notice? {
        ClaimsAreIndependent(h, a.id, q.session, a.event, b.id, q.session, b.event);
      }
    }
  }

  /** A consuming drain never fails and touches markers only. */
  lemma {:induction false} DrainKeepsMail(h: Hashing, s: Store, q: Draining, agenda: seq<Item>)
    requires Ideal(h) && Marked(h, s) && WellMarked(h, q.session, agenda) && q.consume
    ensures var d := Drain(h, s, q, agenda); !d.failed && SameMail(s, d.store) && Marked(h, d.store) && Grows(s, d.store)
    decreases |agenda|
  {
    if agenda != [] && q.limit > 0 {
      if agenda[0].Quiet? {
        DrainKeepsMail(h, s, q, agenda[1..]);
      } else {
        ClaimIsExact(h, s, agenda[0].id, q.session, agenda[0].event, q.now);
        var (s', c) := Surface(h, s, q, agenda[0]);
        var q' := if c.Won? then q.(limit := q.limit - 1) else q;
        DrainKeepsMail(h, s', q', agenda[1..]);
        GrowsTogether(s, s', Drain(h, s', q', agenda[1..]).store);
      }
    }
  }

  /** Draining `agenda` from `s` surfaces and marks what serving it would. */
  predicate Serves(h: Hashing, s: Store, q: Draining, agenda: seq<Item>)
  {
    var d := Drain(h, s, q, agenda);
    (d.surfaced, d.store.deliveries.Keys) == Serve(agenda, s.deliveries.Keys, q.limit)
  }

  lemma WonServes(h: Hashing, s: Store, q: Draining, agenda: seq<Item>)
    requires agenda != [] && q.limit > 0 && agenda[0].Notice?
    requires var (s', c) := Surface(h, s, q, agenda[0]);
             var q' := q.(limit := q.limit - 1);
             && c.Won? && agenda[0].marker !in s.deliveries && s'.deliveries.Keys == s.deliveries.Keys + {agenda[0].marker}
             && Serves(h, s', q', agenda[1..]) && !Drain(h, s', q', agenda[1..]).failed
    ensures Serves(h, s, q, agenda)
  {
  }

  lemma LostServes(h: Hashing, s: Store, q: Draining, agenda: seq<Item>)
    requires agenda != [] && q.limit > 0 && agenda[0].Notice?
    requires var (s', c) := Surface(h, s, q, agenda[0]);
             && c.Lost? && agenda[0].marker in s.deliveries && s'.deliveries.Keys == s.deliveries.Keys
             && Serves(h, s', q, agenda[1..])
    ensures Serves(h, s, q, agenda)
  {
  }

  /** A consuming drain is service of its agenda. */
  lemma {:induction false} DrainServesAgenda(h: Hashing, s: Store, q: Draining, agenda: seq<Item>)
    requires Ideal(h) && Marked(h, s) && WellMarked(h, q.session, agenda) && q.consume
    ensures var d := Drain(h, s, q, agenda);
            (d.surfaced, d.store.deliveries.Keys) == Serve(agenda, s.deliveries.Keys, q.limit)
    decreases |agenda|
  {
    if agenda != [] && q.limit > 0 {
      if agenda[0].Quiet? {
        DrainServesAgenda(h, s, q, agenda[1..]);
      } else {
        ClaimIsExact(h, s, agenda[0].id, q.session, agenda[0].event, q.now);
        var (s', c) := Surface(h, s, q, agenda[0]);
        var q' := if c.Won? then q.(limit := q.limit - 1) else q;
        DrainServesAgenda(h, s', q', agenda[1..]);
        DrainKeepsMail(h, s', q', agenda[1..]);
        if c.Won? { WonServes(h, s, q, agenda); } else { LostServes(h, s, q, agenda); }
      }
    }
  }

  /** A call surfaces the first waiting acknowledgements up to its limit, and leaves exactly the others waiting. */
  lemma DrainIsExact(h: Hashing, s: Store, q: Draining)
    requires Ideal(h) && Marked(h, s) && Sane(s) && NUL !in q.session && q.consume
    ensures var d := DrainStore(h, s, q);
            var agenda := Agenda(h, s, q, Ordered(s));
            var waiting := Waiting(agenda, s.deliveries.Keys);
            var n := Min(q.limit, |waiting|);
            && !d.failed && SameMail(s, d.store) && Marked(h, d.store) && Grows(s, d.store)
            && d.surfaced == waiting[..n] && Waiting(agenda, d.store.deliveries.Keys) == waiting[n..]
            && (forall k :: k in d.store.deliveries <==>
                  k in s.deliveries || exists i :: 0 <= i < |agenda| && NoticeOf(agenda[i], k) && agenda[i].id in d.surfaced)
  {
    OrderedByCreation(s);
    var agenda := Agenda(h, s, q, Ordered(s));
    AgendaIsWellMarked(h, s, q, Ordered(s));
    DrainServesAgenda(h, s, q, agenda);
    DrainKeepsMail(h, s, q, agenda);
    ServeIsExact(agenda, s.deliveries.Keys, q.limit);
    ServeMarksExactly(agenda, s.deliveries.Keys, q.limit);
  }

  /** Without consuming, a call surfaces the same acknowledgements and changes nothing. */
  lemma {:induction false} PeekIsExact(h: Hashing, s: Store, q: Draining, agenda: seq<Item>)
    requires !q.consume
    ensures var waiting := Waiting(agenda, s.deliveries.Keys);
            Drain(h, s, q, agenda) == Drained(s, waiting[..Min(q.limit, |waiting|)], false)
    decreases |agenda|
  {
    if agenda != [] && q.limit > 0 {
      PeekIsExact(h, s, if Waits(agenda[0], s.deliveries.Keys) then q.(limit := q.limit - 1) else q, agenda[1..]);
    }
  }

  // ---------------------------------------------------------------------
  // Repeated calls

  /** Consuming calls at successive times over a store nobody else changes. */
  ghost function Calls(h: Hashing, s: Store, q: Draining, nows: seq<int>): seq<seq<string>>
    decreases |nows|
  {
    if nows == [] then []
    else
      var d := DrainStore(h, s, q.(now := nows[0]));
      [d.surfaced] + Calls(h, d.store, q, nows[1..])
  }

  function Batches(waiting: seq<string>, k: nat, n: nat): seq<seq<string>>
  {
    if n == 0 then []
    else [waiting[..Min(k, |waiting|)]] + Batches(waiting[Min(k, |waiting|)..], k, n - 1)
  }

  lemma SameOrder(s: Store, s': Store)
    requires s'.messages == s.messages
    ensures Ordered(s') == Ordered(s)
  {
    assert MessageKeys(s') == MessageKeys(s);
  }

  lemma SettledTogether(s: Store, s': Store, nows: seq<int>)
    requires SameMail(s, s') && forall t :: t in nows ==> Settled(s, t)
    ensures forall t :: t in nows ==> Settled(s', t)
  {
  }

  lemma {:induction false} CallsAreBatches(h: Hashing, s: Store, q: Draining, nows: seq<int>)
    requires Ideal(h) && Marked(h, s) && Sane(s) && NUL !in q.session && q.consume
    requires Settled(s, q.now) && forall t :: t in nows ==> Settled(s, t)
    ensures Calls(h, s, q, nows)
         == Batches(Waiting(Agenda(h, s, q, Ordered(s)), s.deliveries.Keys), q.limit, |nows|)
    decreases |nows|
  {
    if nows != [] {
      var q' := q.(now := nows[0]);
      var d := DrainStore(h, s, q');
      DrainIsExact(h, s, q');
      SameOrder(s, d.store);
      SettledTogether(s, d.store, [q.now] + nows[1..]);
      SameAgenda(h, s, s, q, q', Ordered(s));
      SameAgenda(h, s, d.store, q, q, Ordered(s));
      CallsAreBatches(h, d.store, q, nows[1..]);
    }
  }

  function Flatten(batches: seq<seq<string>>): seq<string>
  {
    if batches == [] then [] else batches[0] + Flatten(batches[1..])
  }

  /** `a` divided by `k`, rounded up. */
  function Rounds(a: nat, k: nat): nat
    requires k > 0
  {
    if a == 0 then 0 else 1 + Rounds(a - Min(k, a), k)
  }

  lemma {:induction false} RoundsIsCeiling(a: nat, k: nat)
    requires k > 0
    ensures (Rounds(a, k) - 1) * k < a <= Rounds(a, k) * k || a == Rounds(a, k) == 0
  {
    if a > k {
      RoundsIsCeiling(a - k, k);
      var r := Rounds(a - k, k);
      assert r > 0;
      assert Rounds(a, k) * k == r * k + k;
      assert (Rounds(a, k) - 1) * k == (r - 1) * k + k;
    } else if a > 0 {
      assert Rounds(a - Min(k, a), k) == 0;
    }
  }

  lemma {:induction false} BatchesCover(waiting: seq<string>, k: nat, n: nat)
    requires k > 0 && n >= Rounds(|waiting|, k)
    ensures Flatten(Batches(waiting, k, n)) == waiting && |Batches(waiting, k, n)| == n
    ensures forall i :: 0 <= i < n ==> |Batches(waiting, k, n)[i]| <= k
    ensures forall i :: 0 <= i < n ==> (Batches(waiting, k, n)[i] != [] <==> i < Rounds(|waiting|, k))
    decreases n
  {
    if n > 0 {
      BatchesCover(waiting[Min(k, |waiting|)..], k, n - 1);
    }
  }

  /** Repeated calls surface each acknowledgement once, in order, and stop after the rounded-up number of non-empty calls. */
  lemma DrainSurfacesEachOnce(h: Hashing, s: Store, q: Draining, nows: seq<int>)
    requires Ideal(h) && Marked(h, s) && Sane(s) && NUL !in q.session && q.consume && q.limit > 0
    requires Settled(s, q.now) && forall t :: t in nows ==> Settled(s, t)
    requires |nows| >= Rounds(|Waiting(Agenda(h, s, q, Ordered(s)), s.deliveries.Keys)|, q.limit)
    ensures var waiting := Waiting(Agenda(h, s, q, Ordered(s)), s.deliveries.Keys);
            var calls := Calls(h, s, q, nows);
            && Flatten(calls) == waiting && Distinct(waiting) && |calls| == |nows|
            && (forall i :: 0 <= i < |calls| ==> |calls[i]| <= q.limit)
            && (forall i :: 0 <= i < |calls| ==> (calls[i] != [] <==> i < Rounds(|waiting|, q.limit)))
  {
    var waiting := Waiting(Agenda(h, s, q, Ordered(s)), s.deliveries.Keys);
    CallsAreBatches(h, s, q, nows);
    BatchesCover(waiting, q.limit, |nows|);
    OrderedByCreation(s);
    AgendaIsWellMarked(h, s, q, Ordered(s));
    WaitingIsDistinct(Agenda(h, s, q, Ordered(s)), s.deliveries.Keys);
  }

  lemma {:induction false} WaitingIsDistinct(agenda: seq<Item>, marked: set<string>)
    requires Unambiguous(agenda)
    ensures Distinct(Waiting(agenda, marked))
  {
    if agenda != [] {
      WaitingIsDistinct(agenda[1..], marked);
      var rest := Waiting(agenda[1..], marked);
      forall i | 0 <= i < |rest|
        ensures rest[i] != agenda[0].id
      {
        assert rest[i] in rest;
      }
    }
  }
}
