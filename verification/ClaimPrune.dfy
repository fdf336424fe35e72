/** The prune of completed claims: archive, re-check, then remove one by one, with a crash after any write. */
module ClaimPrune {
  import opened Wrappers
  import opened Ordering
  import opened RegistryDigest
  import opened ClaimArchive

  /** The bytes of `name` are in the ledger. */
  predicate BytesArchived(ledger: seq<Receipt>, name: string, bytes: Bytes)
  {
    exists r :: r in ledger && r.path == name && r.bytes == bytes
  }

  /** Every candidate was completed and has its bytes in the ledger. */
  predicate AllArchived(reader: Reader, cs: seq<Candidate>, ledger: seq<Receipt>)
  {
    forall c :: c in cs ==> CompletedFile(reader, c.bytes) && BytesArchived(ledger, c.name, c.bytes)
  }

  /** Whatever of the directory is missing was completed and is in the ledger, byte for byte; the rest is untouched. */
  ghost predicate PrunedSafely(reader: Reader, expected: Files, files: Files, ledger: seq<Receipt>)
  {
    && files.Keys <= expected.Keys
    && forall n :: n in expected ==>
         if n in files then files[n] == expected[n]
         else CompletedFile(reader, expected[n]) && BytesArchived(ledger, n, expected[n])
  }

  datatype PruneOutcome = Done | Raised | Crashed

  function EventIds(eventId: nat -> string, k: nat): seq<string>
  {
    seq(k, i requires 0 <= i < k => eventId(i))
  }

  /** The receipts once the removals of the first `k` candidates are recorded. */
  function Noted(was: seq<Mutation>, cs: seq<Candidate>, eventId: nat -> string, k: nat): seq<Mutation>
    requires k <= |cs|
  {
    was + PruneEvents(cs[..k], EventIds(eventId, k))
  }

  lemma NotedOneMore(was: seq<Mutation>, cs: seq<Candidate>, eventId: nat -> string, k: nat)
    requires k < |cs|
    ensures Noted(was, cs, eventId, 0) == was
    ensures Noted(was, cs, eventId, k + 1) == Noted(was, cs, eventId, k) + [PruneEvent(cs[k], eventId(k))]
  {
    assert PruneEvents(cs[..k + 1], EventIds(eventId, k + 1))
        == PruneEvents(cs[..k], EventIds(eventId, k)) + [PruneEvent(cs[k], eventId(k))];
  }

  /** The directory with an unlocked editor's overwrites applied in turn. */
  function Overwritten(files: Files, edits: seq<Files>): Files
  {
    if edits == [] then files else Overwritten(files, edits[..|edits| - 1]) + edits[|edits| - 1]
  }

  lemma EditKeepsSafe(reader: Reader, expected: Files, files: Files, ledger: seq<Receipt>, edit: Files)
    requires PrunedSafely(reader, expected, files, ledger)
    ensures PrunedSafely(reader, expected + edit, files + edit, ledger)
  {
  }

  lemma RemovalKeepsSafe(reader: Reader, expected: Files, files: Files, ledger: seq<Receipt>, name: string)
    requires PrunedSafely(reader, expected, files, ledger) && name in files
    requires CompletedFile(reader, files[name]) && BytesArchived(ledger, name, files[name])
    ensures PrunedSafely(reader, expected, files - {name}, ledger)
  {
  }

  lemma MaybeRemovalKeepsSafe(reader: Reader, expected: Files, files: Files, ledger: seq<Receipt>, c: Candidate)
    requires PrunedSafely(reader, expected, files, ledger)
    requires CompletedFile(reader, c.bytes) && BytesArchived(ledger, c.name, c.bytes)
    ensures c.name in files && files[c.name] == c.bytes ==> PrunedSafely(reader, expected, files - {c.name}, ledger)
  {
    if c.name in files && files[c.name] == c.bytes { RemovalKeepsSafe(reader, expected, files, ledger, c.name); }
  }

  /** If all the receipts can be appended, no prefix is followed by one that cannot. */
  lemma PrefixAppends(ledger: seq<Receipt>, rs: seq<Receipt>, k: nat)
    requires k <= |rs| && AppendAll(ledger, rs[..k]).Some?
    ensures AppendAll(ledger, rs).Some? && k < |rs| ==> AppendOne(AppendAll(ledger, rs[..k]).value, rs[k]).Some?
  {
    assert rs[..k] + rs[k..] == rs;
    AppendAllConcat(ledger, rs[..k], rs[k..]);
  }

  lemma StoppedPruneLoads(reader: Reader, ledger0: seq<Receipt>, events0: seq<Mutation>, cs: seq<Candidate>, archived: nat,
                          recorded: nat, eventIds: seq<string>, now: int, ledger: seq<Receipt>, events: seq<Mutation>)
    requires Scanned(reader, cs, now) && recorded == |eventIds| && recorded <= archived <= |cs|
    requires AppendAll(ledger0, Receipts(cs)[..archived]) == Some(ledger)
    requires events == events0 + PruneEvents(cs[..recorded], eventIds)
    ensures FreshPrune(ledger0, events0, cs, eventIds) ==>
              (Loads(ledger, events) <==> recorded == archived && forall i :: 0 <= i < archived ==> Agrees(cs[i]))
  {
    if FreshPrune(ledger0, events0, cs, eventIds) {
      ArchivedPrefix(reader, ledger0, cs, archived, now);
      StoppedPruneLoadsExactly(reader, ledger0, events0, cs, archived, recorded, eventIds, now);
    }
  }

  function Min(a: nat, b: nat): nat
  {
    if a < b then a else b
  }

  /** Every candidate's file is there as it was read, and no two candidates share one. */
  ghost predicate Undisturbed(files: Files, cs: seq<Candidate>)
  {
    && (forall i :: 0 <= i < |cs| ==> cs[i].name in files && files[cs[i].name] == cs[i].bytes)
    && (forall i, j :: 0 <= i < j < |cs| ==> cs[i].name != cs[j].name)
  }

  lemma FirstUndisturbed(files: Files, cs: seq<Candidate>, k: nat)
    requires k < |cs|
    ensures Undisturbed(files, cs[k..]) ==>
              cs[k].name in files && files[cs[k].name] == cs[k].bytes && Undisturbed(files - {cs[k].name}, cs[k + 1..])
  {
    var rest := cs[k..];
    assert rest[0] == cs[k] && rest[1..] == cs[k + 1..];
    if Undisturbed(files, rest) {
      forall i | 0 <= i < |rest[1..]|
        ensures rest[1..][i].name in files - {rest[0].name} && files[rest[1..][i].name] == rest[1..][i].bytes
      {
        assert rest[1..][i] == rest[i + 1];
      }
      assert forall i, j :: 0 <= i < j < |rest[1..]| ==> rest[1..][i] == rest[i + 1] && rest[1..][j] == rest[j + 1];
    }
  }

  /** Where `budget` writes stop the removal of `n` claims, three writes each. */
  predicate StopsAt(n: nat, budget: nat, removed: nat, recorded: nat)
  {
    removed == Min(n, (budget + 2) / 3) && recorded == Min(n, budget / 3)
  }

  lemma CountWrites(n: nat, budget: nat, k: nat, left: nat)
    requires k < n && budget == left + 3 * k
    ensures left < 3 ==> StopsAt(n, budget, k + (if left >= 1 then 1 else 0), k)
    ensures left >= 3 && k + 1 == n ==> StopsAt(n, budget, n, n)
  {
  }

  /** Where a prune of `n` claims stops after `budget` durable writes: one to archive each, then three to remove each. */
  predicate WritesExactly(n: nat, budget: nat, archived: nat, removed: nat, recorded: nat)
  {
    && archived == Min(n, budget)
    && if budget < n then removed == recorded == 0 else StopsAt(n, budget - n, removed, recorded)
  }

  class PruneStore {
    const reader: Reader
    var files: Files
    var ledger: seq<Receipt>
    var events: seq<Mutation>
    var bound: Option<Digest>

    /** Whether the projection can be built from the files that are left. */
    const builds: Files -> bool

    constructor (reader: Reader, files: Files, ledger: seq<Receipt>, events: seq<Mutation>, bound: Option<Digest>, builds: Files -> bool)
      ensures this.reader == reader && this.files == files && this.ledger == ledger && this.events == events
      ensures this.bound == bound && this.builds == builds
    {
      this.reader, this.files, this.ledger, this.events := reader, files, ledger, events;
      this.bound, this.builds := bound, builds;
    }

    /** `_parse_completed_claim_archive`: one pass with an index by id. */
    method ParseArchive() returns (parsed: Option<seq<Receipt>>)
      ensures parsed == ParseLedger(ledger)
    {
      var receipts: seq<Receipt>, byId: map<ArchiveId, Receipt> := [], map[];
      assert ledger[..0] == [] && ledger[..|ledger|] == ledger;
      for i := 0 to |ledger|
        invariant ParseLedger(ledger[..i]) == Some(receipts)
        invariant forall id :: id in byId <==> HasId(receipts, id)
        invariant forall j :: 0 <= j < |receipts| ==> receipts[j].id in byId && byId[receipts[j].id] == receipts[j]
        invariant ParseLedger(ledger[..i]).None? ==> ParseLedger(ledger).None?
      {
        var r := ledger[i];
        assert ledger[..i + 1][..i] == ledger[..i];
        if r.id in byId {
          if Payload(byId[r.id]) != Payload(r) {
            ParseFails(ledger, i + 1);
            return None;
          }
        } else {
          byId := byId[r.id := r];
          receipts := receipts + [r];
          HasIdAfter(receipts[..|receipts| - 1], r);
          assert receipts == receipts[..|receipts| - 1] + [r];
        }
      }
      parsed := Some(receipts);
    }

    /** `append_completed_claim_archive_receipt`: idempotent for one payload, an error for two. */
    method AppendArchive(r: Receipt) returns (ok: bool)
      modifies this`ledger
      ensures ok <==> AppendOne(old(ledger), r).Some?
      ensures ledger == if ok then AppendOne(old(ledger), r).value else old(ledger)
    {
      var existing := ParseArchive();
      if existing.None? { return false; }
      for i := 0 to |existing.value|
        invariant forall j :: 0 <= j < i ==> existing.value[j].id != r.id
      {
        if existing.value[i].id == r.id {
          ParseKeepsIds(ledger);
          return Payload(existing.value[i]) == Payload(r);
        }
      }
      ledger := ledger + [r];
      return true;
    }

    /** Reading every claim file in name order, stopping at the first that cannot be archived. */
    method CollectCandidates(now: int) returns (found: Option<seq<Candidate>>)
      ensures found == Collected(reader, SortedNames(files.Keys), files, now)
    {
      var names := SortNames(files.Keys);
      var candidates: seq<Candidate>, i := [], 0;
      ghost var all := Collected(reader, names, files, now);
      CollectStarts(all);
      while i < |names|
        invariant i <= |names| && CollectRemains(reader, names[i..], files, now, candidates, all)
      {
        var n := names[i];
        assert n in names && names[i..] == [n] + names[i + 1..];
        CollectStep(reader, n, names[i + 1..], files, now, candidates, all);
        match ScanFile(reader, n, files[n], now) {
          case Bad => return None;
          case Skip =>
          case Take(c) => candidates := candidates + [c];
        }
        i := i + 1;
      }
      CollectEnds(reader, names[i..], files, now, candidates, all);
      found := Some(candidates);
    }

    /** Phase two: every candidate's receipt becomes durable, in order; `budget` durable writes happen before a crash. */
    method ArchiveAll(candidates: seq<Candidate>, budget: nat) returns (outcome: PruneOutcome, archived: nat, left: nat)
      modifies this`ledger
      ensures archived <= |candidates| && left + archived == budget
      ensures AppendAll(old(ledger), Receipts(candidates)[..archived]) == Some(ledger)
      ensures outcome.Done? <==> archived == |candidates|
      ensures outcome.Raised? ==> AppendOne(ledger, candidates[archived].receipt).None?
      ensures outcome.Crashed? ==> left == 0 && archived < |candidates|
    {
      archived, left := 0, budget;
      while archived < |candidates|
        invariant archived <= |candidates| && left + archived == budget
        invariant AppendAll(old(ledger), Receipts(candidates)[..archived]) == Some(ledger)
      {
        if left == 0 { return Crashed, archived, left; }
        var r := candidates[archived].receipt;
        AppendAllSnoc(old(ledger), Receipts(candidates)[..archived], r);
        assert Receipts(candidates)[..archived + 1] == Receipts(candidates)[..archived] + [r];
        var ok := AppendArchive(r);
        if !ok { return Raised, archived, left; }
        archived, left := archived + 1, left - 1;
      }
      outcome := Done;
    }

    /** Phase three: every source still reads as it did. */
    method SourcesUnchanged(candidates: seq<Candidate>) returns (same: bool)
      ensures same <==> forall c :: c in candidates ==> c.name in files && files[c.name] == c.bytes
    {
      for i := 0 to |candidates|
        invariant forall j :: 0 <= j < i ==> candidates[j].name in files && files[candidates[j].name] == candidates[j].bytes
      {
        if !(candidates[i].name in files && files[candidates[i].name] == candidates[i].bytes) {
          assert candidates[i] in candidates;
          return false;
        }
      }
      return true;
    }

    /** One removal of phase four: unlink, refresh and record, one durable write each. */
    method RemoveOne(c: Candidate, event: string, budget: nat) returns (outcome: PruneOutcome, removed: bool, recorded: bool)
      modifies this`files, this`events, this`bound
      ensures removed ==> c.name in old(files) && old(files)[c.name] == c.bytes
      ensures files == if removed then old(files) - {c.name} else old(files)
      ensures events == old(events) + if recorded then [PruneEvent(c, event)] else []
      ensures (outcome.Done? <==> recorded) && (recorded ==> removed && budget >= 3 && bound == Some(DigestOf(files)))
      ensures !removed ==> bound == old(bound)
      ensures c.name in old(files) && old(files)[c.name] == c.bytes && AlwaysBuilds() ==>
                (removed <==> budget >= 1) && (recorded <==> budget >= 3)
    {
      if c.name !in files || files[c.name] != c.bytes { return Raised, false, false; }
      if budget == 0 { return Crashed, false, false; }
      files := files - {c.name};
      if !builds(files) { return Raised, true, false; }
      if budget == 1 { return Crashed, true, false; }
      var digest := HashRegistry(files);
      bound := Some(digest);
      if budget == 2 { return Crashed, true, false; }
      events := events + [PruneEvent(c, event)];
      return Done, true, true;
    }

    /** Phase four: remove the candidates in turn. `before` is the directory before any edit. */
    method RemoveAll(candidates: seq<Candidate>, eventId: nat -> string, budget: nat, edits: seq<Files>, from: nat,
                     ghost before: Files)
      returns (outcome: PruneOutcome, removed: nat, recorded: nat, applied: nat)
      requires AllArchived(reader, candidates, ledger) && from <= |edits|
      requires PrunedSafely(reader, Overwritten(before, edits[..from]), files, ledger)
      modifies this`files, this`events, this`bound
      ensures from <= applied <= |edits| && applied <= from + removed + 1
      ensures PrunedSafely(reader, Overwritten(before, edits[..applied]), files, ledger)
      ensures recorded <= removed <= |candidates| && removed <= recorded + 1
      ensures events == Noted(old(events), candidates, eventId, recorded)
      ensures outcome.Done? <==> recorded == |candidates|
      ensures outcome.Done? && candidates != [] ==> bound == Some(DigestOf(files))
      ensures removed == 0 ==> bound == old(bound)
      ensures from == |edits| && Undisturbed(old(files), candidates) && AlwaysBuilds() ==>
                StopsAt(|candidates|, budget, removed, recorded)
    {
      removed, recorded, applied := 0, 0, from;
      var left: nat := budget;
      ghost var quiet := from == |edits| && Undisturbed(files, candidates) && AlwaysBuilds();
      assert candidates[0..] == candidates;
      while recorded < |candidates|
        invariant removed == recorded <= |candidates| && left + 3 * recorded == budget
        invariant from <= applied <= |edits| && applied <= from + recorded
        invariant PrunedSafely(reader, Overwritten(before, edits[..applied]), files, ledger)
        invariant events == Noted(old(events), candidates, eventId, recorded)
        invariant recorded > 0 ==> bound == Some(DigestOf(files))
        invariant recorded == 0 ==> bound == old(bound)
        invariant quiet ==> applied == |edits| && Undisturbed(files, candidates[recorded..])
      {
        NotedOneMore(old(events), candidates, eventId, recorded);
        CountWrites(|candidates|, budget, recorded, left);
        var gone, noted;
        outcome, gone, noted, applied := RemoveNext(candidates, recorded, eventId(recorded), left, edits, applied, before);
        if !noted { return outcome, removed + (if gone then 1 else 0), recorded, applied; }
        removed, recorded, left := removed + 1, recorded + 1, left - 3;
      }
      assert candidates != [] ==> StopsAt(|candidates|, budget, removed, recorded);
      outcome := Done;
    }

    ghost predicate AlwaysBuilds()
    {
      forall fs :: builds(fs)
    }

    /** The removal of candidate `k`, after the editor's next overwrite. */
    method RemoveNext(candidates: seq<Candidate>, k: nat, event: string, budget: nat, edits: seq<Files>, from: nat,
                      ghost before: Files)
      returns (outcome: PruneOutcome, gone: bool, noted: bool, applied: nat)
      requires k < |candidates| && AllArchived(reader, candidates, ledger)
      requires from <= |edits| && PrunedSafely(reader, Overwritten(before, edits[..from]), files, ledger)
      modifies this`files, this`events, this`bound
      ensures from <= applied <= |edits| && applied <= from + 1
      ensures PrunedSafely(reader, Overwritten(before, edits[..applied]), files, ledger)
      ensures events == old(events) + if noted then [PruneEvent(candidates[k], event)] else []
      ensures (outcome.Done? <==> noted) && (noted ==> gone && budget >= 3 && bound == Some(DigestOf(files)))
      ensures !gone ==> bound == old(bound)
      ensures from == |edits| && Undisturbed(old(files), candidates[k..]) && AlwaysBuilds() ==>
                && (gone <==> budget >= 1) && (noted <==> budget >= 3)
                && (gone ==> Undisturbed(files, candidates[k + 1..]))
    {
      var c := candidates[k];
      applied := ApplyEdit(edits, from, before);
      FirstUndisturbed(files, candidates, k);
      MaybeRemovalKeepsSafe(reader, Overwritten(before, edits[..applied]), files, ledger, c);
      outcome, gone, noted := RemoveOne(c, event, budget);
    }

    /** The next of the editor's overwrites, if any is left. */
    method ApplyEdit(edits: seq<Files>, k: nat, ghost before: Files) returns (applied: nat)
      requires k <= |edits| && PrunedSafely(reader, Overwritten(before, edits[..k]), files, ledger)
      modifies this`files
      ensures applied == Min(k + 1, |edits|)
      ensures k == |edits| ==> files == old(files)
      ensures PrunedSafely(reader, Overwritten(before, edits[..applied]), files, ledger)
    {
      if k == |edits| { return k; }
      EditKeepsSafe(reader, Overwritten(before, edits[..k]), files, ledger, edits[k]);
      assert edits[..k + 1][..k] == edits[..k];
      files := files + edits[k];
      return k + 1;
    }

    /** Phases two to four over what the scan found. */
    method PruneScanned(candidates: seq<Candidate>, now: int, eventId: nat -> string, budget: nat, edits: seq<Files>)
      returns (outcome: PruneOutcome, archived: nat, removed: nat, recorded: nat, applied: nat)
      requires Scanned(reader, candidates, now) && Undisturbed(files, candidates)
      modifies this
      ensures applied <= |edits| && applied <= removed + 2
      ensures PrunedSafely(reader, Overwritten(old(files), edits[..applied]), files, ledger)
      ensures old(ledger) <= ledger
      ensures archived <= |candidates| && recorded <= removed <= archived && removed <= recorded + 1
      ensures AppendAll(old(ledger), Receipts(candidates)[..archived]) == Some(ledger)
      ensures events == Noted(old(events), candidates, eventId, recorded)
      ensures (outcome.Done? <==> recorded == |candidates|) && (removed > 0 ==> archived == |candidates|)
      ensures outcome.Done? && recorded > 0 ==> bound == Some(DigestOf(files))
      ensures removed == 0 ==> bound == old(bound)
      ensures edits == [] && AlwaysBuilds() && AppendAll(old(ledger), Receipts(candidates)).Some? ==>
                WritesExactly(|candidates|, budget, archived, removed, recorded)
    {
      archived, removed, recorded, applied := 0, 0, 0, 0;
      assert edits[..0] == [];
      ghost var before := files;
      var left: nat;
      outcome, archived, left := ArchiveAll(candidates, budget);
      AppendAllArchives(old(ledger), Receipts(candidates)[..archived]);
      PrefixAppends(old(ledger), Receipts(candidates), archived);
      if !outcome.Done? { return; }
      assert Receipts(candidates)[..archived] == Receipts(candidates);
      CandidatesArchived(reader, candidates, ledger, now);
      applied := ApplyEdit(edits, 0, before);
      var same := SourcesUnchanged(candidates);
      if !same { return Raised, archived, removed, recorded, applied; }
      outcome, removed, recorded, applied := RemoveAll(candidates, eventId, left, edits, applied, before);
    }

    /**
     * `prune_completed`. `budget` durable writes happen before the process dies, and `edits` are what an
     * unlocked editor overwrites before each re-read, `applied` of them in this call.
     */
    method PruneCompleted(now: int, eventId: nat -> string, budget: nat, edits: seq<Files>)
      returns (outcome: PruneOutcome, archived: nat, removed: nat, recorded: nat, applied: nat)
      modifies this
      ensures applied <= |edits| && applied <= removed + 2
      ensures PrunedSafely(reader, Overwritten(old(files), edits[..applied]), files, ledger)
      ensures old(ledger) <= ledger
      ensures var found := Collected(reader, SortedNames(old(files).Keys), old(files), now);
              if found.None? then
                outcome.Raised? && files == old(files) && ledger == old(ledger) && events == old(events) && bound == old(bound)
              else
                && archived <= |found.value| && recorded <= removed <= archived && removed <= recorded + 1
                && AppendAll(old(ledger), Receipts(found.value)[..archived]) == Some(ledger)
                && events == Noted(old(events), found.value, eventId, recorded)
                && (outcome.Done? <==> recorded == |found.value|)
                && (removed > 0 ==> archived == |found.value|)
                && (outcome.Done? && recorded > 0 ==> bound == Some(DigestOf(files)))
                && (removed == 0 ==> bound == old(bound))
                && (edits == [] && AlwaysBuilds() && AppendAll(old(ledger), Receipts(found.value)).Some? ==>
                      WritesExactly(|found.value|, budget, archived, removed, recorded))
                && (FreshPrune(old(ledger), old(events), found.value, EventIds(eventId, recorded)) ==>
                      (Loads(ledger, events) <==> recorded == archived && forall i :: 0 <= i < archived ==> Agrees(found.value[i])))
    {
      archived, removed, recorded, applied := 0, 0, 0, 0;
      ghost var ledger0, events0 := ledger, events;
      var found := CollectCandidates(now);
      assert Overwritten(files, edits[..0]) == files;
      if found.None? { return Raised, archived, removed, recorded, applied; }
      CollectedAreScanned(reader, files, now);
      outcome, archived, removed, recorded, applied := PruneScanned(found.value, now, eventId, budget, edits);
      StoppedPruneLoads(reader, ledger0, events0, found.value, archived, recorded, EventIds(eventId, recorded), now, ledger, events);
    }

    /** A process that dies right after its first removal leaves a ledger that does not load. */
    method DieAfterFirstRemoval(now: int, eventId: nat -> string)
      requires AlwaysBuilds()
      requires var found := Collected(reader, SortedNames(files.Keys), files, now);
               found.Some? && found.value != [] && FreshPrune(ledger, events, found.value, EventIds(eventId, 0))
      modifies this
      ensures !Loads(ledger, events)
    {
      ghost var cs := Collected(reader, SortedNames(files.Keys), files, now).value;
      CollectedAreScanned(reader, files, now);
      ArchivedPrefix(reader, ledger, cs, |cs|, now);
      assert Receipts(cs)[..|cs|] == Receipts(cs);
      var found := CollectCandidates(now);
      var outcome, archived, removed, recorded, applied := PruneCompleted(now, eventId, |found.value| + 1, []);
      assert archived == |cs| && removed == 1 && recorded == 0;
    }
  }

  function Prepend(head: seq<Candidate>, tail: Option<seq<Candidate>>): Option<seq<Candidate>>
  {
    if tail.None? then None else Some(head + tail.value)
  }

  /** Collecting from `names`, after what has been found, gives `all`. */
  predicate CollectRemains(reader: Reader, names: seq<string>, files: Files, now: int, found: seq<Candidate>,
                           all: Option<seq<Candidate>>)
  {
    (forall n :: n in names ==> n in files) && all == Prepend(found, Collected(reader, names, files, now))
  }

  lemma CollectStarts(all: Option<seq<Candidate>>)
    ensures all == Prepend([], all)
  {
    assert all.Some? ==> [] + all.value == all.value;
  }

  lemma CollectEnds(reader: Reader, names: seq<string>, files: Files, now: int, found: seq<Candidate>,
                    all: Option<seq<Candidate>>)
    requires names == [] && CollectRemains(reader, names, files, now, found, all)
    ensures all == Some(found)
  {
    assert found + [] == found;
  }

  lemma CollectStep(reader: Reader, n: string, rest: seq<string>, files: Files, now: int, found: seq<Candidate>,
                    all: Option<seq<Candidate>>)
    requires CollectRemains(reader, [n] + rest, files, now, found, all)
    ensures n in files
    ensures match ScanFile(reader, n, files[n], now)
            case Bad => all == None
            case Skip => CollectRemains(reader, rest, files, now, found, all)
            case Take(c) => CollectRemains(reader, rest, files, now, found + [c], all)
  {
    assert ([n] + rest)[0] == n && ([n] + rest)[1..] == rest;
    assert forall m :: m in rest ==> m in [n] + rest;
    match ScanFile(reader, n, files[n], now)
    case Take(c) =>
      var tail := Collected(reader, rest, files, now);
      if tail.Some? { assert found + ([c] + tail.value) == (found + [c]) + tail.value; }
    case _ =>
  }

  lemma CandidatesArchived(reader: Reader, cs: seq<Candidate>, ledger: seq<Receipt>, now: int)
    requires forall c :: c in cs ==> IsCandidate(reader, c, now)
    requires forall r :: r in Receipts(cs) ==> Archived(ledger, r)
    ensures AllArchived(reader, cs, ledger)
  {
    forall c | c in cs
      ensures CompletedFile(reader, c.bytes) && BytesArchived(ledger, c.name, c.bytes)
    {
      var i :| 0 <= i < |cs| && cs[i] == c;
      assert IsCandidate(reader, c, now) && Receipts(cs)[i] == c.receipt && Receipts(cs)[i] in Receipts(cs);
      var held :| held in ledger && Payload(held) == Payload(c.receipt);
      assert held.path == Payload(held).path && held.bytes == Payload(held).bytes;
    }
  }

  lemma CollectedAreScanned(reader: Reader, files: Files, now: int)
    requires Collected(reader, SortedNames(files.Keys), files, now).Some?
    ensures var cs := Collected(reader, SortedNames(files.Keys), files, now).value;
            Scanned(reader, cs, now) && Undisturbed(files, cs)
  {
    SortedAreDistinct(files.Keys);
    CollectedAreCompleted(reader, SortedNames(files.Keys), files, now);
  }

  lemma SortedAreDistinct(names: set<string>)
    ensures forall i, j :: 0 <= i < j < |SortedNames(names)| ==> SortedNames(names)[i] != SortedNames(names)[j]
  {
    LexIsTotal();
    SortedDistinct(LexLe, names);
  }
}
