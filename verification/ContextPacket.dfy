/** The bounded context packet of an edit target: deduplicate, sort, and pack greedily. */
module ContextPacket {
  import opened Wrappers
  import opened RegistryDigest

  datatype Relation =
    | Self | GovernedBy | Decides | PlannedBy | RequiredReading | Tests | AcceptanceEvidence | Implements | DocumentsCurrent
    | Updates | Targets | GeneratedFrom | Supersedes

  /**
   * One candidate. `overhead` is the serialised length of everything but the values of its summary
   * and of its completeness flag; `edge` says that an explicit relationship produced it.
   */
  datatype Item = Item(node: string, path: string, symbol: string, relation: Relation, direction: string, edge: bool,
                       overhead: nat, summary: Option<string>, complete: bool)

  // ---------------------------------------------------------------------
  // Measuring

  /** Characters one character takes in ASCII JSON. */
  function Width(c: char): nat
  {
    var n := c as int;
    if c == '"' || c == '\\' || n == 8 || n == 9 || n == 10 || n == 12 || n == 13 then 2
    else if 32 <= n <= 126 then 1
    else if n <= 0xffff then 6
    else 12
  }

  function EscapedLength(s: string): (n: nat)
    ensures n >= |s|
  {
    if s == "" then 0 else EscapedLength(s[..|s| - 1]) + Width(s[|s| - 1])
  }

  predicate OneForOne(s: string)
  {
    forall i :: 0 <= i < |s| ==> Width(s[i]) == 1
  }

  lemma {:induction false} OneForOneExactly(s: string)
    ensures EscapedLength(s) == |s| <==> OneForOne(s)
  {
    if s != "" {
      OneForOneExactly(s[..|s| - 1]);
    }
  }

  function ItemChars(item: Item): nat
  {
    item.overhead
    + (if item.summary.None? then 4 else 2 + EscapedLength(item.summary.value))
    + (if item.complete then 4 else 5)
  }

  datatype Failure = BadLimits | TargetTooLarge

  function Truncated(item: Item, n: nat): Item
    requires item.summary.Some?
  {
    item.(summary := Some(if n <= |item.summary.value| then item.summary.value[..n] else item.summary.value), complete := false)
  }

  /** Characters left for the target's summary once everything else is written. */
  function Room(item: Item, maxChars: nat): int
    requires item.summary.Some?
  {
    maxChars - ItemChars(Truncated(item, 0))
  }

  function FitTarget(item: Item, maxChars: nat): Result<Item, Failure>
  {
    if ItemChars(item) <= maxChars then Ok(item)
    else if item.summary.None? || Room(item, maxChars) < 0 then Err(TargetTooLarge)
    else Ok(Truncated(item, Room(item, maxChars)))
  }

  /** The target fits after all exactly when it fits whole, or the kept part of its summary is written character for character. */
  lemma FittedTargetFitsExactly(item: Item, maxChars: nat)
    requires FitTarget(item, maxChars).Ok?
    ensures ItemChars(FitTarget(item, maxChars).value) <= maxChars <==>
              || ItemChars(item) <= maxChars
              || OneForOne(FitTarget(item, maxChars).value.summary.value)
  {
    if ItemChars(item) > maxChars {
      var kept := Truncated(item, Room(item, maxChars));
      OneForOneExactly(kept.summary.value);
      OneForOneExactly(item.summary.value);
      assert ItemChars(kept) == ItemChars(Truncated(item, 0)) + EscapedLength(kept.summary.value);
    }
  }

  // ---------------------------------------------------------------------
  // Deduplicating

  datatype Key = Key(node: string, relation: Relation, direction: string)

  function KeyOf(item: Item): Key
  {
    Key(item.node, item.relation, item.direction)
  }

  predicate HasKey(items: seq<Item>, key: Key)
  {
    exists i :: 0 <= i < |items| && KeyOf(items[i]) == key
  }

  /** The first item of each key, in order. */
  function Deduplicated(items: seq<Item>): seq<Item>
  {
    if items == [] then []
    else
      var before, last := items[..|items| - 1], items[|items| - 1];
      Deduplicated(before) + if HasKey(before, KeyOf(last)) then [] else [last]
  }

  predicate DistinctKeys(items: seq<Item>)
  {
    forall i, j :: 0 <= i < j < |items| ==> KeyOf(items[i]) != KeyOf(items[j])
  }

  /** Every key of the candidates is kept exactly once. */
  lemma {:induction false} DeduplicatedKeepsKeys(items: seq<Item>)
    ensures DistinctKeys(Deduplicated(items))
    ensures forall key :: HasKey(Deduplicated(items), key) <==> HasKey(items, key)
  {
    if items != [] {
      var before, last := items[..|items| - 1], items[|items| - 1];
      DeduplicatedKeepsKeys(before);
      KeysOneMore(before, last);
      assert items == before + [last];
      if !HasKey(before, KeyOf(last)) {
        KeysOneMore(Deduplicated(before), last);
        FreshKeyStaysDistinct(Deduplicated(before), last);
      } else {
        assert Deduplicated(items) == Deduplicated(before);
      }
    }
  }

  /** And the item kept for a key is its first. */
  lemma {:induction false} DeduplicatedKeepsFirst(items: seq<Item>, i: nat)
    requires i < |items|
    ensures !HasKey(items[..i], KeyOf(items[i])) ==> items[i] in Deduplicated(items)
    ensures forall item :: item in Deduplicated(items) ==> item in items
  {
    var before := items[..|items| - 1];
    if i < |before| {
      DeduplicatedKeepsFirst(before, i);
      assert before[..i] == items[..i] && before[i] == items[i];
    } else if before != [] {
      DeduplicatedKeepsFirst(before, 0);
    }
  }

  lemma KeysOneMore(items: seq<Item>, item: Item)
    ensures forall key :: HasKey(items + [item], key) <==> HasKey(items, key) || KeyOf(item) == key
  {
    var all := items + [item];
    assert all[|items|] == item;
    forall key
      ensures HasKey(all, key) <==> HasKey(items, key) || KeyOf(item) == key
    {
      if HasKey(items, key) {
        var i :| 0 <= i < |items| && KeyOf(items[i]) == key;
        assert all[i] == items[i];
      }
    }
  }

  lemma FreshKeyStaysDistinct(items: seq<Item>, item: Item)
    requires DistinctKeys(items) && !HasKey(items, KeyOf(item))
    ensures DistinctKeys(items + [item])
  {
  }

  // ---------------------------------------------------------------------
  // Sorting

  function Priority(r: Relation): nat
  {
    match r
    case Self => 0
    case GovernedBy => 10
    case Decides => 20
    case PlannedBy => 30
    case RequiredReading => 40
    case Tests => 50
    case AcceptanceEvidence => 60
    case Implements => 70
    case DocumentsCurrent => 80
    case Updates => 90
    case Targets => 100
    case GeneratedFrom => 110
    case Supersedes => 120
  }

  /** Ascending by text, and by `rest` among equals. */
  predicate TextThen(a: string, b: string, rest: bool)
  {
    if a == b then rest else LexLe(a, b)
  }

  /** Relation priority, explicit edges first, then path, symbol and direction. */
  predicate NotAfter(a: Item, b: Item)
  {
    var p, q := Priority(a.relation), Priority(b.relation);
    if p != q then p < q
    else if a.edge != b.edge then a.edge
    else TextThen(a.path, b.path, TextThen(a.symbol, b.symbol, LexLe(a.direction, b.direction)))
  }

  lemma NotAfterIsTotal(a: Item, b: Item)
    ensures NotAfter(a, b) || NotAfter(b, a)
  {
    LexIsTotal();
  }

  lemma TextThenTransitive(a: string, b: string, c: string, ab: bool, bc: bool, ac: bool)
    requires TextThen(a, b, ab) && TextThen(b, c, bc) && (ab && bc ==> ac)
    ensures TextThen(a, c, ac)
  {
    LexIsTotal();
  }

  lemma NotAfterTransitive(a: Item, b: Item, c: Item)
    requires NotAfter(a, b) && NotAfter(b, c)
    ensures NotAfter(a, c)
  {
    if Priority(a.relation) == Priority(b.relation) == Priority(c.relation) && a.edge == b.edge == c.edge {
      LexIsTotal();
      var ab, bc, ac := LexLe(a.direction, b.direction), LexLe(b.direction, c.direction), LexLe(a.direction, c.direction);
      if TextThen(a.symbol, b.symbol, ab) && TextThen(b.symbol, c.symbol, bc) {
        TextThenTransitive(a.symbol, b.symbol, c.symbol, ab, bc, ac);
      }
      TextThenTransitive(a.path, b.path, c.path, TextThen(a.symbol, b.symbol, ab), TextThen(b.symbol, c.symbol, bc),
                         TextThen(a.symbol, c.symbol, ac));
    }
  }

  /** `x` placed after everything it does not precede. */
  function Insert(sorted: seq<Item>, x: Item): seq<Item>
  {
    if sorted == [] || NotAfter(sorted[|sorted| - 1], x) then sorted + [x]
    else Insert(sorted[..|sorted| - 1], x) + [sorted[|sorted| - 1]]
  }

  /** A stable sort. */
  function Sorted(items: seq<Item>): seq<Item>
  {
    if items == [] then [] else Insert(Sorted(items[..|items| - 1]), items[|items| - 1])
  }

  predicate InOrder(items: seq<Item>)
  {
    forall i, j :: 0 <= i < j < |items| ==> NotAfter(items[i], items[j])
  }

  lemma {:induction false} InsertKeepsOrder(sorted: seq<Item>, x: Item)
    requires InOrder(sorted)
    ensures InOrder(Insert(sorted, x)) && multiset(Insert(sorted, x)) == multiset(sorted) + multiset{x}
  {
    if sorted != [] {
      var before, last := sorted[..|sorted| - 1], sorted[|sorted| - 1];
      assert sorted == before + [last];
      if NotAfter(last, x) {
        forall i | 0 <= i < |sorted|
          ensures NotAfter(sorted[i], x)
        {
          if i < |before| { NotAfterTransitive(sorted[i], last, x); }
        }
      } else {
        NotAfterIsTotal(last, x);
        InsertKeepsOrder(before, x);
        var placed := Insert(before, x);
        forall i | 0 <= i < |placed|
          ensures NotAfter(placed[i], last)
        {
          assert placed[i] in multiset(placed);
          if placed[i] != x {
            assert placed[i] in multiset(before);
            var k :| 0 <= k < |before| && before[k] == placed[i];
          }
        }
      }
    }
  }

  lemma {:induction false} SortedIsOrdered(items: seq<Item>)
    ensures InOrder(Sorted(items)) && multiset(Sorted(items)) == multiset(items)
  {
    if items != [] {
      var before, last := items[..|items| - 1], items[|items| - 1];
      assert items == before + [last];
      SortedIsOrdered(before);
      InsertKeepsOrder(Sorted(before), last);
    }
  }

  lemma {:induction false} InsertKeepsKeys(sorted: seq<Item>, x: Item)
    requires DistinctKeys(sorted) && !HasKey(sorted, KeyOf(x))
    ensures DistinctKeys(Insert(sorted, x))
    ensures forall key :: HasKey(Insert(sorted, x), key) <==> HasKey(sorted, key) || KeyOf(x) == key
  {
    if sorted == [] || NotAfter(sorted[|sorted| - 1], x) {
      FreshKeyStaysDistinct(sorted, x);
      KeysOneMore(sorted, x);
    } else {
      var before, last := sorted[..|sorted| - 1], sorted[|sorted| - 1];
      assert sorted == before + [last];
      KeysOneMore(before, last);
      InsertKeepsKeys(before, x);
      LastKeyIsFresh(before, last);
      FreshKeyStaysDistinct(Insert(before, x), last);
      KeysOneMore(Insert(before, x), last);
    }
  }

  lemma LastKeyIsFresh(before: seq<Item>, last: Item)
    requires DistinctKeys(before + [last])
    ensures !HasKey(before, KeyOf(last)) && DistinctKeys(before)
  {
    var all := before + [last];
    assert all[|before|] == last;
    assert forall i :: 0 <= i < |before| ==> all[i] == before[i] && KeyOf(all[i]) != KeyOf(all[|before|]);
  }

  lemma {:induction false} SortedKeepsKeys(items: seq<Item>)
    requires DistinctKeys(items)
    ensures DistinctKeys(Sorted(items)) && forall key :: HasKey(Sorted(items), key) <==> HasKey(items, key)
  {
    if items != [] {
      var before, last := items[..|items| - 1], items[|items| - 1];
      assert items == before + [last];
      LastKeyIsFresh(before, last);
      SortedKeepsKeys(before);
      InsertKeepsKeys(Sorted(before), last);
      KeysOneMore(before, last);
    }
  }

  /** The items that sort together with `x`, in order. */
  function Peers(items: seq<Item>, x: Item): seq<Item>
  {
    if items == [] then []
    else
      var last := items[|items| - 1];
      Peers(items[..|items| - 1], x) + if NotAfter(last, x) && NotAfter(x, last) then [last] else []
  }

  lemma PeersOneMore(items: seq<Item>, last: Item, x: Item)
    ensures Peers(items + [last], x) == Peers(items, x) + if NotAfter(last, x) && NotAfter(x, last) then [last] else []
  {
    assert (items + [last])[..|items|] == items;
  }

  /** Items that sort together keep the order they came in. */
  lemma {:induction false} SortIsStable(items: seq<Item>, x: Item)
    ensures Peers(Sorted(items), x) == Peers(items, x)
  {
    if items != [] {
      var before, last := items[..|items| - 1], items[|items| - 1];
      SortIsStable(before, x);
      InsertIsLastPeer(Sorted(before), last, x);
    }
  }

  lemma {:induction false} InsertIsLastPeer(sorted: seq<Item>, new_: Item, x: Item)
    ensures Peers(Insert(sorted, new_), x) == Peers(sorted, x) + if NotAfter(new_, x) && NotAfter(x, new_) then [new_] else []
  {
    if sorted == [] || NotAfter(sorted[|sorted| - 1], new_) {
      PeersOneMore(sorted, new_, x);
    } else {
      var before, last := sorted[..|sorted| - 1], sorted[|sorted| - 1];
      InsertIsLastPeer(before, new_, x);
      PeersOneMore(Insert(before, new_), last, x);
      if NotAfter(new_, x) && NotAfter(x, new_) && NotAfter(last, x) && NotAfter(x, last) {
        NotAfterTransitive(last, x, new_);
      }
    }
  }

  // ---------------------------------------------------------------------
  // Packing

  datatype Packing = Packing(included: seq<Item>, omitted: seq<Item>, used: nat)

  predicate Overflows(p: Packing, item: Item, maxItems: nat, maxChars: nat)
  {
    |p.included| >= maxItems || p.used + ItemChars(item) > maxChars
  }

  function Add(p: Packing, item: Item, maxItems: nat, maxChars: nat): Packing
  {
    if Overflows(p, item, maxItems, maxChars) then p.(omitted := p.omitted + [item])
    else p.(included := p.included + [item], used := p.used + ItemChars(item))
  }

  function Pack(items: seq<Item>, maxItems: nat, maxChars: nat): Packing
  {
    if items == [] then Packing([], [], 0)
    else Add(Pack(items[..|items| - 1], maxItems, maxChars), items[|items| - 1], maxItems, maxChars)
  }

  function TotalChars(items: seq<Item>): nat
  {
    if items == [] then 0 else TotalChars(items[..|items| - 1]) + ItemChars(items[|items| - 1])
  }

  /** `all` is the two sequences merged, each in its own order. */
  predicate Merged(a: seq<Item>, b: seq<Item>, all: seq<Item>)
    decreases |all|
  {
    if all == [] then a == [] && b == []
    else
      var before, last := all[..|all| - 1], all[|all| - 1];
      || (a != [] && a[|a| - 1] == last && Merged(a[..|a| - 1], b, before))
      || (b != [] && b[|b| - 1] == last && Merged(a, b[..|b| - 1], before))
  }

  /** Packing splits the candidates in order, measures what it includes, keeps to both limits, and leaves out nothing that would fit. */
  lemma {:induction false} PackIsGreedy(items: seq<Item>, maxItems: nat, maxChars: nat)
    ensures var p := Pack(items, maxItems, maxChars);
            && Merged(p.included, p.omitted, items) && |p.included| + |p.omitted| == |items|
            && p.used == TotalChars(p.included) && p.used <= maxChars && |p.included| <= maxItems
            && forall i :: 0 <= i < |p.omitted| ==> Overflows(p, p.omitted[i], maxItems, maxChars)
  {
    if items != [] {
      PackIsGreedy(items[..|items| - 1], maxItems, maxChars);
      var q := Pack(items[..|items| - 1], maxItems, maxChars);
      var last := items[|items| - 1];
      if Overflows(q, last, maxItems, maxChars) {
        assert (q.omitted + [last])[..|q.omitted|] == q.omitted;
      } else {
        assert (q.included + [last])[..|q.included|] == q.included;
      }
    }
  }

  // ---------------------------------------------------------------------
  // The packet

  datatype Packet = Packet(items: seq<Item>, includedChars: nat, omitted: nat)

  /** The target first, shortened to fit, then its neighbours. */
  function Prepared(ordered: seq<Item>, maxChars: nat): Result<seq<Item>, Failure>
    requires ordered != []
  {
    match FitTarget(ordered[0], maxChars)
    case Err(f) => Err(f)
    case Ok(target) => Ok([target] + ordered[1..])
  }

  function Build(target: Item, neighbours: seq<Item>, maxItems: int, maxChars: int): Result<Packet, Failure>
  {
    if maxItems < 1 || maxChars < 1 then Err(BadLimits)
    else
      var ordered := Sorted(Deduplicated([target] + neighbours));
      if ordered == [] then Ok(Packet([], 0, 0))
      else
        match Prepared(ordered, maxChars)
        case Err(f) => Err(f)
        case Ok(items) =>
          var p := Pack(items, maxItems, maxChars);
          Ok(Packet(p.included, p.used, |p.omitted|))
  }

  /** Neighbours never carry the target's own relation. */
  predicate OneSelf(items: seq<Item>)
  {
    items != [] && items[0].relation.Self? && forall i :: 1 <= i < |items| ==> !items[i].relation.Self?
  }

  predicate NoSelf(items: seq<Item>)
  {
    forall i :: 0 <= i < |items| ==> !items[i].relation.Self?
  }

  /** So the target is sorted first. */
  lemma TargetIsFirst(target: Item, neighbours: seq<Item>)
    requires OneSelf([target] + neighbours)
    ensures var ordered := Sorted(Deduplicated([target] + neighbours)); OneSelf(ordered) && ordered[0] == target
  {
    var candidates := [target] + neighbours;
    DeduplicatedKeepsKeys(candidates);
    DeduplicatedKeepsFirst(candidates, 0);
    SortedSelfIsFirst(Deduplicated(candidates), target);
  }

  lemma SortedSelfIsFirst(kept: seq<Item>, target: Item)
    requires DistinctKeys(kept) && target in kept && target.relation.Self?
    requires forall item :: item in kept && item.relation.Self? ==> item == target
    ensures OneSelf(Sorted(kept)) && Sorted(kept)[0] == target
  {
    var ordered := Sorted(kept);
    SortedIsOrdered(kept);
    SortedKeepsKeys(kept);
    SameMembers(kept, ordered);
    var at :| 0 <= at < |ordered| && ordered[at] == target;
    OnlySelfIsFirst(ordered, at);
  }

  lemma SameMembers(a: seq<Item>, b: seq<Item>)
    requires multiset(a) == multiset(b)
    ensures forall item :: item in a <==> item in b
  {
    forall item
      ensures item in a <==> item in b
    {
      assert item in multiset(a) <==> item in multiset(b);
    }
  }

  lemma OnlySelfIsFirst(ordered: seq<Item>, at: nat)
    requires at < |ordered| && ordered[at].relation.Self? && InOrder(ordered) && DistinctKeys(ordered)
    requires forall i :: 0 <= i < |ordered| && ordered[i].relation.Self? ==> ordered[i] == ordered[at]
    ensures OneSelf(ordered) && at == 0
  {
    assert at > 0 ==> NotAfter(ordered[0], ordered[at]);
    assert forall i :: 0 <= i < |ordered| && i != at ==> KeyOf(ordered[i]) != KeyOf(ordered[at]);
  }

  /** The target fits whole, or the part of its summary there is room for is written character for character. */
  predicate WritesPlainly(target: Item, maxChars: nat)
  {
    || ItemChars(target) <= maxChars
    || (target.summary.Some? && Room(target, maxChars) >= 0
        && OneForOne(Truncated(target, Room(target, maxChars)).summary.value))
  }

  lemma FittedTargetKeepsRelation(target: Item, maxChars: nat)
    requires FitTarget(target, maxChars).Ok?
    ensures var fitted := FitTarget(target, maxChars).value;
            fitted.relation == target.relation && (ItemChars(fitted) <= maxChars <==> WritesPlainly(target, maxChars))
  {
    FittedTargetFitsExactly(target, maxChars);
  }

  /** A packet holds its target exactly when the target can be written plainly, and then holds it first. */
  lemma TargetPresentExactly(target: Item, neighbours: seq<Item>, maxItems: nat, maxChars: nat)
    requires OneSelf([target] + neighbours)
    requires Build(target, neighbours, maxItems, maxChars).Ok?
    ensures var items := Build(target, neighbours, maxItems, maxChars).value.items;
            if WritesPlainly(target, maxChars) then OneSelf(items) && items[0] == FitTarget(target, maxChars).value
            else NoSelf(items)
  {
    TargetIsFirst(target, neighbours);
    var ordered := Sorted(Deduplicated([target] + neighbours));
    FittedTargetKeepsRelation(target, maxChars);
    var items := [FitTarget(target, maxChars).value] + ordered[1..];
    assert OneSelf(items) && Prepared(ordered, maxChars) == Ok(items);
    FirstDecides(items, maxItems, maxChars);
  }

  /** Only the first item carries the target's relation, and it is packed exactly when it fits alone. */
  lemma {:induction false} FirstDecides(items: seq<Item>, maxItems: nat, maxChars: nat)
    requires maxItems >= 1 && OneSelf(items)
    ensures var included := Pack(items, maxItems, maxChars).included;
            if ItemChars(items[0]) <= maxChars then OneSelf(included) && included[0] == items[0]
            else NoSelf(included)
  {
    var before := items[..|items| - 1];
    if before == [] {
      assert Pack(before, maxItems, maxChars) == Packing([], [], 0);
    } else {
      var q, last := Pack(before, maxItems, maxChars), items[|items| - 1];
      assert before[0] == items[0] && !last.relation.Self?;
      FirstDecides(before, maxItems, maxChars);
      AddKeepsFirst(q, last, maxItems, maxChars);
    }
  }

  lemma AddKeepsFirst(p: Packing, item: Item, maxItems: nat, maxChars: nat)
    requires !item.relation.Self?
    ensures var included := Add(p, item, maxItems, maxChars).included;
            && (OneSelf(p.included) ==> OneSelf(included) && included[0] == p.included[0])
            && (NoSelf(p.included) ==> NoSelf(included))
  {
  }

  /** A packet keeps to both limits, measures what it includes, and accounts for every candidate. */
  lemma PacketIsBudgeted(target: Item, neighbours: seq<Item>, maxItems: int, maxChars: int)
    requires Build(target, neighbours, maxItems, maxChars).Ok?
    ensures var packet := Build(target, neighbours, maxItems, maxChars).value;
            && packet.includedChars == TotalChars(packet.items) && packet.includedChars <= maxChars
            && |packet.items| <= maxItems
            && |packet.items| + packet.omitted == |Sorted(Deduplicated([target] + neighbours))|
  {
    var ordered := Sorted(Deduplicated([target] + neighbours));
    if ordered != [] {
      PackIsGreedy(Prepared(ordered, maxChars).value, maxItems, maxChars);
    }
  }

  // ---------------------------------------------------------------------
  // Building

  method Deduplicate(items: seq<Item>) returns (kept: seq<Item>)
    ensures kept == Deduplicated(items)
  {
    kept := [];
    var seen: set<Key>, i := {}, 0;
    while i < |items|
      invariant i <= |items|
      invariant kept == Deduplicated(items[..i])
      invariant forall key :: key in seen <==> HasKey(items[..i], key)
    {
      var item := items[i];
      assert items[..i + 1] == items[..i] + [item] && items[..i + 1][..i] == items[..i];
      KeysOneMore(items[..i], item);
      if KeyOf(item) !in seen {
        kept, seen := kept + [item], seen + {KeyOf(item)};
      }
      i := i + 1;
    }
    assert items[..i] == items;
  }

  method BuildPacket(target: Item, neighbours: seq<Item>, maxItems: int, maxChars: int) returns (r: Result<Packet, Failure>)
    ensures r == Build(target, neighbours, maxItems, maxChars)
  {
    if maxItems < 1 || maxChars < 1 { return Err(BadLimits); }
    var kept := Deduplicate([target] + neighbours);
    var ordered := Sorted(kept);
    if ordered == [] { return Ok(Packet([], 0, 0)); }
    ghost var items := Prepared(ordered, maxChars);
    var included, omitted, used, i := [], 0, 0, 0;
    while i < |ordered|
      invariant i <= |ordered| && 0 <= used
      invariant i > 0 ==> items.Ok?
      invariant items.Err? ==> included == [] && omitted == 0 && used == 0
      invariant items.Ok? ==>
                  var p := Pack(items.value[..i], maxItems, maxChars);
                  included == p.included && omitted == |p.omitted| && used == p.used
    {
      var item := ordered[i];
      if i == 0 {
        var fitted := FitTarget(item, maxChars);
        if fitted.Err? { return Err(fitted.error); }
        item := fitted.value;
      }
      assert items.value[i] == item && items.value[..i + 1][..i] == items.value[..i];
      var chars := ItemChars(item);
      if |included| >= maxItems || used + chars > maxChars {
        omitted := omitted + 1;
      } else {
        included, used := included + [item], used + chars;
      }
      i := i + 1;
    }
    assert items.value[..i] == items.value;
    r := Ok(Packet(included, used, omitted));
  }
}
