/** Archive before prune: completed claims leave the registry only after their bytes are in a ledger. */
module ClaimArchive {
  import opened Wrappers
  import opened RegistryDigest

  /** What the registry reads from a claim file. */
  datatype Facts = Facts(project: string, scope: string, session: Option<string>, completed: bool)

  /** What the archive reads from the same bytes. */
  datatype Identity = Identity(agent: string, project: string, scope: string, session: Option<string>, status: string)

  /** The two readings of one file; either can fail. */
  datatype Reader = Reader(facts: Bytes -> Option<Facts>, identity: Bytes -> Option<Identity>)

  /** Hashes of NUL-separated fields, taken to be free of collisions. */
  datatype ArchiveId = ArchiveId(path: string, source: Digest)

  datatype Transaction = Transaction(archive: ArchiveId)

  datatype Binding = LivePrune(transaction: Transaction) | LegacyPrune(event: string)

  datatype Receipt = Receipt(id: ArchiveId, path: string, bytes: Bytes, identity: Identity, binding: Binding, archivedAt: int)

  datatype Operation = PruneOp | OtherOp

  datatype Mutation = Mutation(event: string, operation: Operation, applied: bool,
                               project: string, scope: string, path: string, session: Option<string>,
                               transaction: Option<Transaction>)

  /** Everything of a receipt but when it was archived. */
  function Payload(r: Receipt): Receipt
  {
    r.(archivedAt := 0)
  }

  /** A receipt as `build_completed_claim_archive_receipt` makes them. */
  predicate WellBuilt(r: Receipt)
  {
    r.id == ArchiveId(r.path, Sha256(r.bytes)) && (r.binding.LivePrune? ==> r.binding.transaction == Transaction(r.id))
  }

  // ---------------------------------------------------------------------
  // Ledger

  predicate HasId(rs: seq<Receipt>, id: ArchiveId)
  {
    exists i :: 0 <= i < |rs| && rs[i].id == id
  }

  /** Whether every receipt of `rs` under this one's id says the same. */
  predicate Consistent(rs: seq<Receipt>, r: Receipt)
  {
    forall i :: 0 <= i < |rs| && rs[i].id == r.id ==> Payload(rs[i]) == Payload(r)
  }

  /** The ledger without repeats, or nothing when two receipts of one id disagree. */
  function ParseLedger(lines: seq<Receipt>): Option<seq<Receipt>>
  {
    if lines == [] then Some([])
    else
      var before, r := ParseLedger(lines[..|lines| - 1]), lines[|lines| - 1];
      if before.None? || !Consistent(before.value, r) then None
      else if HasId(before.value, r.id) then before
      else Some(before.value + [r])
  }

  function AppendOne(ledger: seq<Receipt>, r: Receipt): Option<seq<Receipt>>
  {
    var existing := ParseLedger(ledger);
    if existing.None? || !Consistent(existing.value, r) then None
    else if HasId(existing.value, r.id) then Some(ledger)
    else Some(ledger + [r])
  }

  function AppendAll(ledger: seq<Receipt>, rs: seq<Receipt>): Option<seq<Receipt>>
    decreases |rs|
  {
    if rs == [] then Some(ledger)
    else
      var first := AppendOne(ledger, rs[0]);
      if first.None? then None else AppendAll(first.value, rs[1..])
  }

  ghost predicate UniqueIds(rs: seq<Receipt>)
  {
    forall i, j :: 0 <= i < j < |rs| ==> rs[i].id != rs[j].id
  }

  /** Parsing keeps one receipt for each id in the ledger, in order and with its payload. */
  lemma {:induction false} ParseKeepsIds(lines: seq<Receipt>)
    requires ParseLedger(lines).Some?
    ensures UniqueIds(ParseLedger(lines).value)
    ensures forall id :: HasId(ParseLedger(lines).value, id) <==> HasId(lines, id)
    ensures forall r :: r in ParseLedger(lines).value ==> r in lines
    ensures forall r :: r in lines ==> Consistent(ParseLedger(lines).value, r)
  {
    if lines != [] {
      var before, r := lines[..|lines| - 1], lines[|lines| - 1];
      ParseKeepsIds(before);
      var was, now := ParseLedger(before).value, ParseLedger(lines).value;
      assert lines == before + [r];
      forall id
        ensures HasId(now, id) <==> HasId(lines, id)
      {
        HasIdConcat(before, [r], id);
        HasIdConcat(was, [r], id);
      }
      forall x | x in lines
        ensures Consistent(now, x)
      {
        if x in before {
          assert Consistent(was, x);
          if x.id == r.id {
            var i :| 0 <= i < |before| && before[i] == x;
            assert HasId(before, r.id);
          }
        }
      }
    }
  }

  lemma HasIdConcat(a: seq<Receipt>, b: seq<Receipt>, id: ArchiveId)
    ensures HasId(a + b, id) <==> HasId(a, id) || HasId(b, id)
  {
    if HasId(a, id) {
      var i :| 0 <= i < |a| && a[i].id == id;
      assert (a + b)[i].id == id;
    }
    if HasId(b, id) {
      var i :| 0 <= i < |b| && b[i].id == id;
      assert (a + b)[|a| + i].id == id;
    }
  }

  /** Appending never gives an id a second record. */
  lemma AppendKeepsIdsUnique(ledger: seq<Receipt>, r: Receipt)
    requires AppendOne(ledger, r).Some?
    ensures UniqueIds(ledger) ==> UniqueIds(AppendOne(ledger, r).value)
    ensures HasId(AppendOne(ledger, r).value, r.id)
  {
    ParseKeepsIds(ledger);
    if AppendOne(ledger, r).value == ledger + [r] {
      HasIdConcat(ledger, [r], r.id);
      assert HasId([r], r.id) by { assert [r][0].id == r.id; }
      forall i | 0 <= i < |ledger|
        ensures !HasId(ledger, r.id) ==> ledger[i].id != r.id
      {
      }
    }
  }

  /** Replaying an appended source, at any time, changes nothing. */
  lemma ReplayChangesNothing(ledger: seq<Receipt>, r: Receipt, replay: Receipt)
    requires AppendOne(ledger, r).Some? && Payload(replay) == Payload(r)
    ensures AppendOne(AppendOne(ledger, r).value, replay) == Some(AppendOne(ledger, r).value)
  {
    var after := AppendOne(ledger, r).value;
    AppendKeepsIdsUnique(ledger, r);
    ParseKeepsIds(ledger);
    if after == ledger + [r] { assert after[..|after| - 1] == ledger; }
    ParseKeepsIds(after);
    assert replay.id == r.id && HasId(ParseLedger(after).value, r.id);
  }

  // ---------------------------------------------------------------------
  // Loading

  predicate Names(r: Receipt, e: Mutation)
  {
    match r.binding
    case LivePrune(t) => e.transaction == Some(t)
    case LegacyPrune(id) => e.event == id
  }

  function Matching(r: Receipt, events: seq<Mutation>): set<nat>
  {
    set i: nat | i < |events| && Names(r, events[i])
  }

  predicate Describes(e: Mutation, r: Receipt)
  {
    && e.operation.PruneOp? && e.applied
    && e.project == r.identity.project && e.scope == r.identity.scope && e.path == r.path && e.session == r.identity.session
  }

  /** `validate_completed_claim_archive_prune_binding`: one event named, and it describes this receipt. */
  predicate Bound(r: Receipt, events: seq<Mutation>)
  {
    |Matching(r, events)| == 1 && forall i :: i in Matching(r, events) ==> Describes(events[i], r)
  }

  /** `load_completed_claim_archive_receipts` accepts. */
  predicate Loads(ledger: seq<Receipt>, events: seq<Mutation>)
  {
    var parsed := ParseLedger(ledger);
    parsed.Some? && forall r :: r in parsed.value ==> Bound(r, events)
  }

  // ---------------------------------------------------------------------
  // Candidates

  datatype Candidate = Candidate(name: string, bytes: Bytes, facts: Facts, receipt: Receipt)

  datatype Scan = Skip | Bad | Take(candidate: Candidate)

  function ScanFile(reader: Reader, name: string, bytes: Bytes, now: int): Scan
  {
    var facts, identity := reader.facts(bytes), reader.identity(bytes);
    if facts.None? then Bad
    else if !facts.value.completed then Skip
    else if identity.None? then Bad
    else
      var id := ArchiveId(name, Sha256(bytes));
      Take(Candidate(name, bytes, facts.value,
                     Receipt(id, name, bytes, identity.value, LivePrune(Transaction(id)), now)))
  }

  predicate CompletedFile(reader: Reader, bytes: Bytes)
  {
    var facts := reader.facts(bytes);
    facts.Some? && facts.value.completed
  }

  /** The completed claims among `names`, unless some file cannot be read. */
  function Collected(reader: Reader, names: seq<string>, files: Files, now: int): Option<seq<Candidate>>
    requires forall n :: n in names ==> n in files
  {
    if names == [] then Some([])
    else
      var rest := Collected(reader, names[1..], files, now);
      match ScanFile(reader, names[0], files[names[0]], now)
      case Bad => None
      case Skip => rest
      case Take(c) => if rest.None? then None else Some([c] + rest.value)
  }

  function Receipts(cs: seq<Candidate>): seq<Receipt>
  {
    seq(|cs|, i requires 0 <= i < |cs| => cs[i].receipt)
  }

  /** The prune receipt of one removal. */
  function PruneEvent(c: Candidate, event: string): Mutation
  {
    Mutation(event, PruneOp, true, c.facts.project, c.facts.scope, c.name, c.facts.session, Some(Transaction(c.receipt.id)))
  }

  predicate IsCandidate(reader: Reader, c: Candidate, now: int)
  {
    ScanFile(reader, c.name, c.bytes, now) == Take(c)
  }

  /** Every candidate is a completed claim with its exact bytes, and no name comes twice. */
  lemma {:induction false} CollectedAreCompleted(reader: Reader, names: seq<string>, files: Files, now: int)
    requires forall n :: n in names ==> n in files
    requires forall i, j :: 0 <= i < j < |names| ==> names[i] != names[j]
    requires Collected(reader, names, files, now).Some?
    ensures var cs := Collected(reader, names, files, now).value;
            && (forall c :: c in cs ==> IsCandidate(reader, c, now) && c.name in names && files[c.name] == c.bytes)
            && (forall i, j :: 0 <= i < j < |cs| ==> cs[i].name != cs[j].name)
            && (forall n :: n in names && CompletedFile(reader, files[n]) ==> exists c :: c in cs && c.name == n)
  {
    if names != [] {
      CollectedAreCompleted(reader, names[1..], files, now);
      var cs := Collected(reader, names, files, now).value;
      var rest := Collected(reader, names[1..], files, now).value;
      assert names[0] !in names[1..];
      forall n | n in names && CompletedFile(reader, files[n])
        ensures exists c :: c in cs && c.name == n
      {
        if n == names[0] {
          assert cs[0].name == n && cs[0] in cs;
        } else {
          var c :| c in rest && c.name == n;
          assert c in cs;
        }
      }
    }
  }

  // ---------------------------------------------------------------------
  // Rerunning an interrupted prune

  /** The two readings of one file name the same project, scope and session. */
  predicate Agrees(c: Candidate)
  {
    c.facts.project == c.receipt.identity.project && c.facts.scope == c.receipt.identity.scope
    && c.facts.session == c.receipt.identity.session
  }

  predicate NewTo(c: Candidate, events: seq<Mutation>)
  {
    forall i :: 0 <= i < |events| ==> events[i].transaction != Some(Transaction(c.receipt.id))
  }

  /** Candidates as one scan of one directory yields them. */
  ghost predicate Scanned(reader: Reader, cs: seq<Candidate>, now: int)
  {
    && (forall c :: c in cs ==> IsCandidate(reader, c, now))
    && (forall i, j :: 0 <= i < j < |cs| ==> cs[i].name != cs[j].name)
  }

  /** Two scans of the same directory at different times. */
  ghost predicate SameScan(cs: seq<Candidate>, cs': seq<Candidate>)
  {
    |cs| == |cs'| && forall i :: 0 <= i < |cs| ==>
      cs[i].name == cs'[i].name && cs[i].bytes == cs'[i].bytes && cs[i].facts == cs'[i].facts
      && Payload(cs[i].receipt) == Payload(cs'[i].receipt)
  }

  lemma AppendFresh(ledger: seq<Receipt>, r: Receipt)
    requires ParseLedger(ledger).Some? && !HasId(ledger, r.id)
    ensures AppendOne(ledger, r) == Some(ledger + [r])
    ensures ParseLedger(ledger + [r]) == Some(ParseLedger(ledger).value + [r])
  {
    ParseKeepsIds(ledger);
    assert (ledger + [r])[..|ledger|] == ledger;
  }

  /** Receipts under ids the ledger lacks are appended one after another. */
  lemma {:induction false} AppendAllFresh(ledger: seq<Receipt>, rs: seq<Receipt>)
    requires ParseLedger(ledger).Some? && UniqueIds(rs)
    requires forall r :: r in rs ==> !HasId(ledger, r.id)
    ensures AppendAll(ledger, rs) == Some(ledger + rs)
    ensures ParseLedger(ledger + rs) == Some(ParseLedger(ledger).value + rs)
    decreases |rs|
  {
    var parsed := ParseLedger(ledger).value;
    if rs == [] {
      assert ledger + rs == ledger && parsed + rs == parsed;
    } else {
      var r, rest := rs[0], rs[1..];
      AppendFresh(ledger, r);
      forall i | 0 <= i < |rest|
        ensures !HasId(ledger + [r], rest[i].id)
      {
        HasIdConcat(ledger, [r], rest[i].id);
        assert rest[i] == rs[i + 1] && rs[i + 1] in rs;
      }
      AppendAllFresh(ledger + [r], rest);
      Reassociate(ledger, [r], rest);
      Reassociate(parsed, [r], rest);
      assert rs == [r] + rest;
    }
  }

  /** Receipts the ledger already holds are replayed without a change. */
  lemma {:induction false} AppendAllReplays(ledger: seq<Receipt>, rs: seq<Receipt>)
    requires ParseLedger(ledger).Some?
    requires forall r :: r in rs ==> HasId(ledger, r.id) && Consistent(ParseLedger(ledger).value, r)
    ensures AppendAll(ledger, rs) == Some(ledger)
  {
    if rs != [] {
      assert rs[0] in rs;
      ParseKeepsIds(ledger);
      AppendAllReplays(ledger, rs[1..]);
    }
  }

  lemma {:induction false} AppendAllConcat(ledger: seq<Receipt>, a: seq<Receipt>, b: seq<Receipt>)
    requires AppendAll(ledger, a).Some?
    ensures AppendAll(ledger, a + b) == AppendAll(AppendAll(ledger, a).value, b)
    decreases |a|
  {
    if a == [] {
      assert a + b == b;
    } else {
      assert (a + b)[1..] == a[1..] + b;
      AppendAllConcat(AppendOne(ledger, a[0]).value, a[1..], b);
    }
  }

  /** What a prune stopped after `k` records, and its rerun, leave in the ledger between them. */
  function Added(first: seq<Candidate>, k: nat, second: seq<Candidate>): seq<Receipt>
    requires k <= |first| == |second|
  {
    Receipts(first)[..k] + Receipts(second)[k..]
  }

  /**
   * A prune that archived some candidates, stopped before removing any, and was rerun to the end
   * adds one record for each candidate.
   */
  lemma RerunArchivesOnce(reader: Reader, ledger: seq<Receipt>, first: seq<Candidate>, k: nat, second: seq<Candidate>,
                          now1: int, now2: int)
    requires ParseLedger(ledger).Some? && k <= |first|
    requires Scanned(reader, first, now1) && Scanned(reader, second, now2) && SameScan(first, second)
    requires forall c :: c in first ==> !HasId(ledger, c.receipt.id)
    ensures AppendAll(ledger, Receipts(first)[..k]) == Some(ledger + Receipts(first)[..k])
    ensures AppendAll(ledger + Receipts(first)[..k], Receipts(second)) == Some(ledger + Added(first, k, second))
    ensures ParseLedger(ledger + Added(first, k, second)) == Some(ParseLedger(ledger).value + Added(first, k, second))
  {
    var done, rest, replay := Receipts(first)[..k], Receipts(second)[k..], Receipts(second)[..k];
    FreshReceipts(reader, ledger, first, 0, k, now1);
    AppendAllFresh(ledger, done);
    ReplayedReceipts(ledger, first, k, second);
    RemainingReceipts(reader, ledger, first, k, second, now1);
    FreshReceipts(reader, ledger + done, second, k, |second|, now2);
    CutReceipts(Receipts(second), k);
    ResumedAppend(ledger, done, replay, rest);
  }

  lemma CutReceipts(rs: seq<Receipt>, k: nat)
    requires k <= |rs|
    ensures rs[..k] + rs[k..] == rs && rs[k..|rs|] == rs[k..]
  {
  }

  lemma Reassociate(a: seq<Receipt>, b: seq<Receipt>, c: seq<Receipt>)
    ensures (a + b) + c == a + (b + c)
  {
  }

  /** Replaying what an interrupted run appended, and then the rest, appends only the rest. */
  lemma ResumedAppend(ledger: seq<Receipt>, done: seq<Receipt>, replay: seq<Receipt>, rest: seq<Receipt>)
    requires ParseLedger(ledger).Some? && ParseLedger(ledger + done) == Some(ParseLedger(ledger).value + done)
    requires forall r :: r in replay ==> HasId(ledger + done, r.id) && Consistent(ParseLedger(ledger + done).value, r)
    requires UniqueIds(rest) && forall r :: r in rest ==> !HasId(ledger + done, r.id)
    ensures AppendAll(ledger + done, replay + rest) == Some(ledger + (done + rest))
    ensures ParseLedger(ledger + (done + rest)) == Some(ParseLedger(ledger).value + (done + rest))
  {
    var part, parsed := ledger + done, ParseLedger(ledger).value;
    AppendAllReplays(part, replay);
    AppendAllFresh(part, rest);
    AppendAllConcat(part, replay, rest);
    Reassociate(ledger, done, rest);
    Reassociate(parsed, done, rest);
  }

  lemma FreshReceipts(reader: Reader, ledger: seq<Receipt>, cs: seq<Candidate>, from: nat, to: nat, now: int)
    requires Scanned(reader, cs, now) && from <= to <= |cs|
    requires forall i :: from <= i < to ==> !HasId(ledger, cs[i].receipt.id)
    ensures UniqueIds(Receipts(cs)[from..to])
    ensures forall r :: r in Receipts(cs)[from..to] ==> !HasId(ledger, r.id)
  {
    var rs := Receipts(cs)[from..to];
    forall i, j | 0 <= i < j < |rs|
      ensures rs[i].id != rs[j].id
    {
      assert cs[from + i] in cs && cs[from + j] in cs;
      assert cs[from + i].name != cs[from + j].name;
    }
  }

  lemma ReplayedReceipts(ledger: seq<Receipt>, first: seq<Candidate>, k: nat, second: seq<Candidate>)
    requires k <= |first| && SameScan(first, second)
    requires ParseLedger(ledger + Receipts(first)[..k]).Some?
    ensures var part := ledger + Receipts(first)[..k];
            forall r :: r in Receipts(second)[..k] ==> HasId(part, r.id) && Consistent(ParseLedger(part).value, r)
  {
    var part := ledger + Receipts(first)[..k];
    ParseKeepsIds(part);
    forall r | r in Receipts(second)[..k]
      ensures HasId(part, r.id) && Consistent(ParseLedger(part).value, r)
    {
      var i :| 0 <= i < k && Receipts(second)[i] == r;
      var held := part[|ledger| + i];
      assert held in part && Payload(held) == Payload(r);
      assert held.id == Payload(held).id && r.id == Payload(r).id;
      assert Consistent(ParseLedger(part).value, held);
    }
  }

  lemma RemainingReceipts(reader: Reader, ledger: seq<Receipt>, first: seq<Candidate>, k: nat, second: seq<Candidate>, now: int)
    requires k <= |first| && Scanned(reader, first, now) && SameScan(first, second)
    requires forall c :: c in first ==> !HasId(ledger, c.receipt.id)
    ensures forall i :: k <= i < |second| ==> !HasId(ledger + Receipts(first)[..k], second[i].receipt.id)
  {
    var done := Receipts(first)[..k];
    forall i | k <= i < |second|
      ensures !HasId(ledger + done, second[i].receipt.id)
    {
      var id := second[i].receipt.id;
      assert id == Payload(second[i].receipt).id == Payload(first[i].receipt).id == first[i].receipt.id;
      assert first[i] in first;
      HasIdConcat(ledger, done, id);
      forall j | 0 <= j < |done|
        ensures done[j].id != id
      {
        assert first[j] in first && first[j].name != first[i].name;
      }
    }
  }

  function PruneEvents(cs: seq<Candidate>, eventIds: seq<string>): seq<Mutation>
    requires |cs| == |eventIds|
  {
    seq(|cs|, i requires 0 <= i < |cs| => PruneEvent(cs[i], eventIds[i]))
  }

  /** Prune receipts of other claims neither bind nor unbind a record already loaded. */
  lemma OldRecordsStayBound(r: Receipt, events: seq<Mutation>, cs: seq<Candidate>, eventIds: seq<string>)
    requires |cs| == |eventIds| && WellBuilt(r)
    requires forall c :: c in cs ==> c.receipt.id != r.id
    requires r.binding.LegacyPrune? ==> r.binding.event !in eventIds
    ensures Bound(r, events + PruneEvents(cs, eventIds)) <==> Bound(r, events)
  {
    var all := events + PruneEvents(cs, eventIds);
    forall i: nat | i < |all|
      ensures Names(r, all[i]) <==> i < |events| && Names(r, events[i])
    {
      if i >= |events| {
        assert all[i] == PruneEvent(cs[i - |events|], eventIds[i - |events|]);
        assert cs[i - |events|] in cs && eventIds[i - |events|] in eventIds;
      }
    }
    assert Matching(r, all) == Matching(r, events);
  }

  /** The record of candidate `i` is bound by its own prune receipt, if both readings of the file agree. */
  lemma NewRecordBound(reader: Reader, r: Receipt, i: nat, events: seq<Mutation>, cs: seq<Candidate>, eventIds: seq<string>, now: int)
    requires |cs| == |eventIds| && i < |cs| && Scanned(reader, cs, now)
    requires Payload(r) == Payload(cs[i].receipt) && NewTo(cs[i], events)
    ensures Bound(r, events + PruneEvents(cs, eventIds)) <==> Agrees(cs[i])
  {
    var all, at := events + PruneEvents(cs, eventIds), |events| + i;
    assert cs[i] in cs && IsCandidate(reader, cs[i], now);
    assert r.id == Payload(r).id && r.binding == Payload(r).binding && r.identity == Payload(r).identity && r.path == Payload(r).path;
    assert r.binding == LivePrune(Transaction(cs[i].receipt.id));
    forall j: nat | j < |all|
      ensures Names(r, all[j]) <==> j == at
    {
      if j >= |events| && j != at {
        assert cs[j - |events|] in cs && IsCandidate(reader, cs[j - |events|], now);
        assert cs[j - |events|].name != cs[i].name;
      }
    }
    assert Matching(r, all) == {at};
    assert all[at] == PruneEvent(cs[i], eventIds[i]);
  }

  /**
   * After a prune interrupted before any removal and rerun to the end, the loader accepts the ledger
   * exactly when both readings of every pruned file agree.
   */
  lemma RerunLoadsExactly(reader: Reader, ledger: seq<Receipt>, events: seq<Mutation>,
                          first: seq<Candidate>, k: nat, second: seq<Candidate>, eventIds: seq<string>, now1: int, now2: int)
    requires Loads(ledger, events) && k <= |first|
    requires forall r :: r in ledger ==> WellBuilt(r) && (r.binding.LegacyPrune? ==> r.binding.event !in eventIds)
    requires Scanned(reader, first, now1) && Scanned(reader, second, now2) && SameScan(first, second)
    requires |eventIds| == |second|
    requires forall c :: c in first ==> !HasId(ledger, c.receipt.id)
    requires forall c :: c in second ==> NewTo(c, events)
    ensures Loads(ledger + Added(first, k, second), events + PruneEvents(second, eventIds)) <==> forall c :: c in second ==> Agrees(c)
  {
    var added, old_ := Added(first, k, second), ParseLedger(ledger).value;
    var all := events + PruneEvents(second, eventIds);
    RerunArchivesOnce(reader, ledger, first, k, second, now1, now2);
    OldStayBound(ledger, events, first, second, eventIds);
    NewBoundExactly(reader, events, first, k, second, eventIds, now2);
    BoundAll(old_, added, all, second);
  }

  lemma OldStayBound(ledger: seq<Receipt>, events: seq<Mutation>, first: seq<Candidate>, second: seq<Candidate>,
                     eventIds: seq<string>)
    requires Loads(ledger, events) && SameScan(first, second) && |eventIds| == |second|
    requires forall r :: r in ledger ==> WellBuilt(r) && (r.binding.LegacyPrune? ==> r.binding.event !in eventIds)
    requires forall c :: c in first ==> !HasId(ledger, c.receipt.id)
    ensures forall r :: r in ParseLedger(ledger).value ==> Bound(r, events + PruneEvents(second, eventIds))
  {
    ParseKeepsIds(ledger);
    forall r | r in ParseLedger(ledger).value
      ensures Bound(r, events + PruneEvents(second, eventIds))
    {
      OldIdsDiffer(ledger, first, second, r);
      OldRecordsStayBound(r, events, second, eventIds);
    }
  }

  lemma NewBoundExactly(reader: Reader, events: seq<Mutation>, first: seq<Candidate>, k: nat, second: seq<Candidate>,
                        eventIds: seq<string>, now: int)
    requires Scanned(reader, second, now) && SameScan(first, second) && |eventIds| == |second| && k <= |first|
    requires forall c :: c in second ==> NewTo(c, events)
    ensures forall i :: 0 <= i < |second| ==>
              (Bound(Added(first, k, second)[i], events + PruneEvents(second, eventIds)) <==> Agrees(second[i]))
  {
    forall i | 0 <= i < |second|
      ensures Bound(Added(first, k, second)[i], events + PruneEvents(second, eventIds)) <==> Agrees(second[i])
    {
      assert second[i] in second;
      NewRecordBound(reader, Added(first, k, second)[i], i, events, second, eventIds, now);
    }
  }

  lemma OldIdsDiffer(ledger: seq<Receipt>, first: seq<Candidate>, second: seq<Candidate>, r: Receipt)
    requires SameScan(first, second) && r in ledger
    requires forall c :: c in first ==> !HasId(ledger, c.receipt.id)
    ensures forall c :: c in second ==> c.receipt.id != r.id
  {
    forall c | c in second
      ensures c.receipt.id != r.id
    {
      var i :| 0 <= i < |second| && second[i] == c;
      assert first[i] in first && first[i].receipt.id == Payload(first[i].receipt).id == c.receipt.id;
      var j :| 0 <= j < |ledger| && ledger[j] == r;
    }
  }

  lemma BoundAll(old_: seq<Receipt>, added: seq<Receipt>, all: seq<Mutation>, second: seq<Candidate>)
    requires |added| == |second|
    requires forall r :: r in old_ ==> Bound(r, all)
    requires forall i :: 0 <= i < |added| ==> (Bound(added[i], all) <==> Agrees(second[i]))
    ensures (forall r :: r in old_ + added ==> Bound(r, all)) <==> forall c :: c in second ==> Agrees(c)
  {
    if forall r :: r in old_ + added ==> Bound(r, all) {
      forall i | 0 <= i < |second|
        ensures Agrees(second[i])
      {
        assert added[i] in old_ + added;
      }
    }
  }

  /** While no prune receipt names a live record of the ledger, the ledger does not load. */
  lemma LostReceiptNeverLoads(ledger: seq<Receipt>, events: seq<Mutation>, r: Receipt)
    requires r in ledger && r.binding.LivePrune?
    requires forall i :: 0 <= i < |events| ==> events[i].transaction != Some(r.binding.transaction)
    ensures !Loads(ledger, events)
  {
    if ParseLedger(ledger).Some? {
      ParseKeepsIds(ledger);
      var parsed := ParseLedger(ledger).value;
      var j :| 0 <= j < |ledger| && ledger[j] == r;
      assert HasId(ledger, r.id);
      var i :| 0 <= i < |parsed| && parsed[i].id == r.id;
      assert Payload(parsed[i]).binding == Payload(r).binding;
      assert Matching(parsed[i], events) == {};
      assert parsed[i] in parsed;
    }
  }

  /** A record no event names is not bound. */
  lemma UnnamedIsUnbound(reader: Reader, i: nat, events: seq<Mutation>, cs: seq<Candidate>, k: nat, eventIds: seq<string>, now: int)
    requires k == |eventIds| && k <= i < |cs| && Scanned(reader, cs, now) && NewTo(cs[i], events)
    ensures !Bound(cs[i].receipt, events + PruneEvents(cs[..k], eventIds))
  {
    var r, all := cs[i].receipt, events + PruneEvents(cs[..k], eventIds);
    assert cs[i] in cs && IsCandidate(reader, cs[i], now);
    forall j: nat | j < |all|
      ensures !Names(r, all[j])
    {
      if j >= |events| {
        var c := cs[j - |events|];
        assert all[j] == PruneEvent(c, eventIds[j - |events|]) && c in cs && IsCandidate(reader, c, now);
        assert c.name != cs[i].name;
      }
    }
    assert Matching(r, all) == {};
  }

  /** The first `k` of `archived` records are bound when their readings agree; the others are not. */
  lemma RecordBoundExactly(reader: Reader, i: nat, events: seq<Mutation>, cs: seq<Candidate>, k: nat, eventIds: seq<string>, now: int)
    requires k == |eventIds| && k <= |cs| && i < |cs| && Scanned(reader, cs, now) && NewTo(cs[i], events)
    ensures Bound(cs[i].receipt, events + PruneEvents(cs[..k], eventIds)) <==> i < k && Agrees(cs[i])
  {
    if i < k {
      assert Scanned(reader, cs[..k], now);
      NewRecordBound(reader, cs[i].receipt, i, events, cs[..k], eventIds, now);
    } else {
      UnnamedIsUnbound(reader, i, events, cs, k, eventIds, now);
    }
  }

  /** The ledger loads, knows none of the candidates, and no legacy record waits for one of the coming receipts. */
  ghost predicate FreshPrune(ledger: seq<Receipt>, events: seq<Mutation>, cs: seq<Candidate>, eventIds: seq<string>)
  {
    && Loads(ledger, events)
    && (forall r :: r in ledger ==> WellBuilt(r) && (r.binding.LegacyPrune? ==> r.binding.event !in eventIds))
    && (forall c :: c in cs ==> !HasId(ledger, c.receipt.id) && NewTo(c, events))
  }

  lemma ArchivedPrefix(reader: Reader, ledger: seq<Receipt>, cs: seq<Candidate>, archived: nat, now: int)
    requires ParseLedger(ledger).Some? && Scanned(reader, cs, now) && archived <= |cs|
    requires forall c :: c in cs ==> !HasId(ledger, c.receipt.id)
    ensures AppendAll(ledger, Receipts(cs)[..archived]) == Some(ledger + Receipts(cs)[..archived])
    ensures ParseLedger(ledger + Receipts(cs)[..archived]) == Some(ParseLedger(ledger).value + Receipts(cs)[..archived])
  {
    FreshReceipts(reader, ledger, cs, 0, archived, now);
    assert Receipts(cs)[0..archived] == Receipts(cs)[..archived];
    AppendAllFresh(ledger, Receipts(cs)[..archived]);
  }

  /**
   * Wherever a prune of new claims stops, the loader accepts what it leaves exactly when every record
   * archived has its prune receipt and both readings of each of those files agree.
   */
  lemma StoppedPruneLoadsExactly(reader: Reader, ledger: seq<Receipt>, events: seq<Mutation>, cs: seq<Candidate>,
                                 archived: nat, recorded: nat, eventIds: seq<string>, now: int)
    requires Scanned(reader, cs, now) && FreshPrune(ledger, events, cs, eventIds)
    requires recorded == |eventIds| && recorded <= archived <= |cs|
    ensures Loads(ledger + Receipts(cs)[..archived], events + PruneEvents(cs[..recorded], eventIds)) <==>
              recorded == archived && forall i :: 0 <= i < archived ==> Agrees(cs[i])
  {
    var all, added := events + PruneEvents(cs[..recorded], eventIds), Receipts(cs)[..archived];
    ArchivedPrefix(reader, ledger, cs, archived, now);
    OldStayBoundTo(ledger, events, cs[..recorded], eventIds);
    forall i | 0 <= i < archived
      ensures Bound(added[i], all) <==> i < recorded && Agrees(cs[i])
    {
      assert cs[i] in cs;
      RecordBoundExactly(reader, i, events, cs, recorded, eventIds, now);
    }
    BoundPrefix(ParseLedger(ledger).value, added, all, cs, recorded);
  }

  lemma OldStayBoundTo(ledger: seq<Receipt>, events: seq<Mutation>, cs: seq<Candidate>, eventIds: seq<string>)
    requires Loads(ledger, events) && |cs| == |eventIds|
    requires forall r :: r in ledger ==> WellBuilt(r) && (r.binding.LegacyPrune? ==> r.binding.event !in eventIds)
    requires forall c :: c in cs ==> !HasId(ledger, c.receipt.id)
    ensures forall r :: r in ParseLedger(ledger).value ==> Bound(r, events + PruneEvents(cs, eventIds))
  {
    ParseKeepsIds(ledger);
    forall r | r in ParseLedger(ledger).value
      ensures Bound(r, events + PruneEvents(cs, eventIds))
    {
      var j :| 0 <= j < |ledger| && ledger[j] == r;
      assert forall c :: c in cs ==> c.receipt.id != r.id;
      OldRecordsStayBound(r, events, cs, eventIds);
    }
  }

  lemma BoundPrefix(old_: seq<Receipt>, added: seq<Receipt>, all: seq<Mutation>, cs: seq<Candidate>, k: nat)
    requires k <= |added| <= |cs|
    requires forall r :: r in old_ ==> Bound(r, all)
    requires forall i :: 0 <= i < |added| ==> (Bound(added[i], all) <==> i < k && Agrees(cs[i]))
    ensures (forall r :: r in old_ + added ==> Bound(r, all)) <==> k == |added| && forall i :: 0 <= i < |added| ==> Agrees(cs[i])
  {
    assert forall i :: 0 <= i < |added| ==> added[i] in old_ + added;
    if k < |added| {
      assert !Bound(added[k], all) && added[k] in old_ + added;
    }
  }

  // ---------------------------------------------------------------------
  // What archiving leaves

  /** The ledger only grows, and holds every receipt appended, exact bytes included. */
  lemma {:induction false} AppendAllArchives(ledger: seq<Receipt>, rs: seq<Receipt>)
    requires AppendAll(ledger, rs).Some?
    ensures ledger <= AppendAll(ledger, rs).value
    ensures forall r :: r in rs ==> Archived(AppendAll(ledger, rs).value, r)
    decreases |rs|
  {
    if rs != [] {
      var next := AppendOne(ledger, rs[0]).value;
      ParseKeepsIds(ledger);
      AppendAllArchives(next, rs[1..]);
      if next == ledger {
        var parsed := ParseLedger(ledger).value;
        var i :| 0 <= i < |parsed| && parsed[i].id == rs[0].id;
        assert parsed[i] in parsed && parsed[i] in ledger && Payload(parsed[i]) == Payload(rs[0]);
      } else {
        assert next[|ledger|] == rs[0] && rs[0] in next;
      }
      assert Archived(next, rs[0]);
    }
  }

  predicate Archived(ledger: seq<Receipt>, r: Receipt)
  {
    exists held :: held in ledger && Payload(held) == Payload(r)
  }

  lemma AppendAllSnoc(ledger: seq<Receipt>, rs: seq<Receipt>, r: Receipt)
    requires AppendAll(ledger, rs).Some?
    ensures AppendAll(ledger, rs + [r]) == AppendOne(AppendAll(ledger, rs).value, r)
  {
    AppendAllConcat(ledger, rs, [r]);
    var next := AppendOne(AppendAll(ledger, rs).value, r);
    assert [r][1..] == [];
    assert next.Some? ==> AppendAll(next.value, []) == next;
  }

  lemma {:induction false} ParseFails(lines: seq<Receipt>, i: nat)
    requires i <= |lines| && ParseLedger(lines[..i]).None?
    ensures ParseLedger(lines).None?
  {
    if i < |lines| {
      var before := lines[..|lines| - 1];
      assert before[..i] == lines[..i];
      ParseFails(before, i);
    } else {
      assert lines[..i] == lines;
    }
  }

  lemma HasIdAfter(rs: seq<Receipt>, r: Receipt)
    ensures forall id :: HasId(rs + [r], id) <==> HasId(rs, id) || id == r.id
  {
    forall id
      ensures HasId(rs + [r], id) <==> HasId(rs, id) || id == r.id
    {
      HasIdConcat(rs, [r], id);
      assert [r][0].id == r.id;
    }
  }

}
