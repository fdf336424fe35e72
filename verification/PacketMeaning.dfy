/** What the context packet measures, keeps and puts first. */
module PacketMeaning {
  import opened Wrappers
  import opened RegistryDigest
  import opened ContextPacket
  import opened JsonText

  // ---------------------------------------------------------------------
  // Measuring

  function SummaryText(summary: Option<string>): string
  {
    match summary
    case None => "null"
    case Some(s) => "\"" + Written(s) + "\""
  }

  function FlagText(flag: bool): string
  {
    if flag then "true" else "false"
  }

  /** An item takes its fixed fields and the JSON of its summary and its completeness. */
  lemma ItemCharsExactly(item: Item)
    ensures ItemChars(item) == item.overhead + |SummaryText(item.summary)| + |FlagText(item.complete)|
  {
    if item.summary.Some? { MeasuredExactly(item.summary.value); }
  }

  /** A target too large is cut to as many summary characters as are left with an empty summary, and marked incomplete. */
  lemma TargetCutExactly(item: Item, maxChars: nat)
    ensures var empty := item.(summary := Some(""), complete := false);
            var fitted := FitTarget(item, maxChars);
            if ItemChars(item) <= maxChars then fitted == Ok(item)
            else if item.summary == None || ItemChars(empty) > maxChars then fitted == Err(TargetTooLarge)
            else
              && fitted.Ok?
              && fitted.value == item.(summary := fitted.value.summary, complete := false) && fitted.value.summary.Some?
              && fitted.value.summary.value <= item.summary.value
              && (|fitted.value.summary.value| == maxChars - ItemChars(empty)
                  || (fitted.value.summary == item.summary && |item.summary.value| <= maxChars - ItemChars(empty)))
  {
    if item.summary.Some? {
      assert item.summary.value[..0] == "";
      assert Truncated(item, 0) == item.(summary := Some(""), complete := false);
    }
  }

  // ---------------------------------------------------------------------
  // Order

  /** The relations from the most to the least important. */
  const ORDER: seq<Relation> :=
    [Self, GovernedBy, Decides, PlannedBy, RequiredReading, Tests, AcceptanceEvidence, Implements, DocumentsCurrent,
     Updates, Targets, GeneratedFrom, Supersedes]

  lemma PriorityExactly(i: nat, j: nat)
    requires i < |ORDER| && j < |ORDER|
    ensures Priority(ORDER[i]) < Priority(ORDER[j]) <==> i < j
    ensures forall r: Relation :: r in ORDER
  {
    assert forall k :: 0 <= k < |ORDER| ==> Priority(ORDER[k]) == 10 * k;
    forall r: Relation
      ensures r in ORDER
    {
      assert ORDER[Priority(r) / 10] == r;
    }
  }

  predicate Before(a: string, b: string)
  {
    a != b && LexLe(a, b)
  }

  /**
   * One item sorts strictly before another exactly by relation, then by an explicit edge, then by path, symbol and
   * direction, each deciding only where those before it agree.
   */
  lemma OrderExactly(a: Item, b: Item)
    ensures NotAfter(a, b) && !NotAfter(b, a) <==>
            || Priority(a.relation) < Priority(b.relation)
            || (Priority(a.relation) == Priority(b.relation) &&
                (|| (a.edge && !b.edge)
                 || (a.edge == b.edge &&
                     (|| Before(a.path, b.path)
                      || (a.path == b.path &&
                          (|| Before(a.symbol, b.symbol)
                           || (a.symbol == b.symbol && Before(a.direction, b.direction))))))))
  {
    LexIsTotal();
  }

  // ---------------------------------------------------------------------
  // Deduplication

  predicate Twins(a: Item, b: Item)
  {
    a.node == b.node && a.relation == b.relation && a.direction == b.direction
  }

  /** What stays is each first of its node, relation and direction, in the order they came in, and nothing else. */
  lemma {:induction false} KeptExactly(items: seq<Item>, i: nat)
    requires i < |items|
    ensures (forall k :: 0 <= k < i ==> !Twins(items[k], items[i])) ==> items[i] in Deduplicated(items)
    ensures forall a, b :: 0 <= a < b < |Deduplicated(items)| ==> !Twins(Deduplicated(items)[a], Deduplicated(items)[b])
  {
    DeduplicatedKeepsKeys(items);
    DeduplicatedKeepsFirst(items, i);
    var kept := Deduplicated(items);
    forall a, b | 0 <= a < b < |kept|
      ensures !Twins(kept[a], kept[b])
    {
      assert KeyOf(kept[a]) != KeyOf(kept[b]);
    }
    if HasKey(items[..i], KeyOf(items[i])) {
      var k :| 0 <= k < i && KeyOf(items[..i][k]) == KeyOf(items[i]);
      assert Twins(items[k], items[i]);
    }
  }

  // ---------------------------------------------------------------------
  // Failure

  /** A packet is refused exactly for limits below one, or for a target with no room left by an empty summary. */
  lemma RefusedExactly(target: Item, neighbours: seq<Item>, maxItems: int, maxChars: int)
    requires OneSelf([target] + neighbours)
    ensures var built := Build(target, neighbours, maxItems, maxChars);
            && (built == Err(BadLimits) <==> maxItems <= 0 || maxChars <= 0)
            && (built == Err(TargetTooLarge) <==>
                  && maxItems > 0 && maxChars > 0 && ItemChars(target) > maxChars
                  && (target.summary == None || ItemChars(target.(summary := Some(""), complete := false)) > maxChars))
  {
    TargetIsFirst(target, neighbours);
    if maxItems > 0 && maxChars > 0 { TargetCutExactly(target, maxChars); }
  }
}
