/** What the archive of completed claims takes, keeps and accepts, said of its records field by field. */
module ArchiveMeaning {
  import opened Wrappers
  import opened RegistryDigest
  import opened ClaimArchive

  // ---------------------------------------------------------------------
  // Scanning

  /** A claim file stops the scan when the registry cannot read it, or when it is completed and the archive cannot. */
  predicate Blocks(reader: Reader, bytes: Bytes)
  {
    reader.facts(bytes) == None || (reader.facts(bytes).value.completed && reader.identity(bytes) == None)
  }

  /** It is taken when completed and readable both ways, with its bytes and a transaction named after path and hash. */
  lemma ScanExactly(reader: Reader, name: string, bytes: Bytes, now: int)
    ensures var scan, id := ScanFile(reader, name, bytes, now), ArchiveId(name, Sha256(bytes));
            && (scan.Bad? <==> Blocks(reader, bytes))
            && (scan.Skip? <==> reader.facts(bytes).Some? && !reader.facts(bytes).value.completed)
            && (scan.Take? ==>
                  && scan.candidate.name == name && scan.candidate.bytes == bytes && Some(scan.candidate.facts) == reader.facts(bytes)
                  && scan.candidate.receipt.id == id && scan.candidate.receipt.path == name && scan.candidate.receipt.bytes == bytes
                  && Some(scan.candidate.receipt.identity) == reader.identity(bytes)
                  && scan.candidate.receipt.binding == LivePrune(Transaction(id)) && scan.candidate.receipt.archivedAt == now)
  {
  }

  /** The completed claims among the names, in their order. */
  function CompletedAmong(reader: Reader, names: seq<string>, files: Files): seq<string>
    requires forall n :: n in names ==> n in files
  {
    if names == [] then []
    else (if CompletedFile(reader, files[names[0]]) then [names[0]] else []) + CompletedAmong(reader, names[1..], files)
  }

  function Named(cs: seq<Candidate>): seq<string>
  {
    seq(|cs|, i requires 0 <= i < |cs| => cs[i].name)
  }

  /** A scan fails exactly at a file that stops it, and otherwise takes the completed claims in the order of the names. */
  lemma {:induction false} CollectedExactly(reader: Reader, names: seq<string>, files: Files, now: int)
    requires forall n :: n in names ==> n in files
    ensures var found := Collected(reader, names, files, now);
            && (found == None <==> exists n :: n in names && Blocks(reader, files[n]))
            && (found.Some? ==> Named(found.value) == CompletedAmong(reader, names, files))
  {
    if names != [] {
      var n := names[0];
      CollectedExactly(reader, names[1..], files, now);
      ScanExactly(reader, n, files[n], now);
      assert forall m :: m in names <==> m == n || m in names[1..];
      var rest := Collected(reader, names[1..], files, now);
      if !Blocks(reader, files[n]) && rest.Some? && CompletedFile(reader, files[n]) {
        var c := ScanFile(reader, n, files[n], now).candidate;
        assert Named([c] + rest.value) == [n] + Named(rest.value);
      }
    }
  }

  // ---------------------------------------------------------------------
  // The ledger

  /** The two records say the same of everything but when they were archived. */
  predicate SameRecord(a: Receipt, b: Receipt)
  {
    a.id == b.id && a.path == b.path && a.bytes == b.bytes && a.identity == b.identity && a.binding == b.binding
  }

  lemma SameRecordExactly(a: Receipt, b: Receipt)
    ensures SameRecord(a, b) <==> Payload(a) == Payload(b)
  {
  }

  /** A ledger is readable exactly when lines of one archive id say the same. */
  ghost predicate Readable(lines: seq<Receipt>)
  {
    forall a, b :: a in lines && b in lines && a.id == b.id ==> SameRecord(a, b)
  }

  lemma {:induction false} ParsedExactly(lines: seq<Receipt>)
    ensures ParseLedger(lines).Some? <==> Readable(lines)
  {
    if lines != [] {
      var before, r := lines[..|lines| - 1], lines[|lines| - 1];
      assert lines == before + [r];
      ParsedExactly(before);
      if ParseLedger(before).Some? {
        LineExactly(before, r);
      }
      if Readable(lines) {
        assert forall a :: a in before ==> a in lines;
        assert r in lines;
      }
      if Readable(before) && (forall a :: a in before && a.id == r.id ==> SameRecord(a, r)) {
        assert forall a :: a in lines <==> a in before || a == r;
      }
    }
  }

  lemma LineExactly(lines: seq<Receipt>, r: Receipt)
    requires ParseLedger(lines).Some?
    ensures Consistent(ParseLedger(lines).value, r) <==> forall a :: a in lines && a.id == r.id ==> SameRecord(a, r)
    ensures HasId(ParseLedger(lines).value, r.id) <==> exists a :: a in lines && a.id == r.id
  {
    var parsed := ParseLedger(lines).value;
    ParseKeepsIds(lines);
    if Consistent(parsed, r) {
      forall a | a in lines && a.id == r.id
        ensures SameRecord(a, r)
      {
        HasLine(lines, a);
        var i :| 0 <= i < |parsed| && parsed[i].id == a.id;
        assert Payload(parsed[i]) == Payload(a) && Payload(parsed[i]) == Payload(r);
        SameRecordExactly(a, r);
      }
    } else {
      var i :| 0 <= i < |parsed| && parsed[i].id == r.id && Payload(parsed[i]) != Payload(r);
      assert parsed[i] in parsed && parsed[i] in lines;
    }
    if HasId(parsed, r.id) {
      var i :| 0 <= i < |parsed| && parsed[i].id == r.id;
      assert parsed[i] in parsed;
    }
    if a :| a in lines && a.id == r.id { HasLine(lines, a); }
  }

  lemma HasLine(lines: seq<Receipt>, a: Receipt)
    requires a in lines
    ensures HasId(lines, a.id)
  {
    var i :| 0 <= i < |lines| && lines[i] == a;
  }

  /** Appending is refused by an unreadable ledger or a line that says otherwise, repeats nothing, and else adds one line. */
  lemma AppendExactly(ledger: seq<Receipt>, r: Receipt)
    ensures var known := exists a :: a in ledger && a.id == r.id;
            AppendOne(ledger, r) ==
            if !Readable(ledger) || exists a :: a in ledger && a.id == r.id && !SameRecord(a, r) then None
            else if known then Some(ledger) else Some(ledger + [r])
  {
    ParsedExactly(ledger);
    if ParseLedger(ledger).Some? { LineExactly(ledger, r); }
  }

  // ---------------------------------------------------------------------
  // Loading

  /** The event a record is bound to: of its transaction, or the one it names. */
  predicate BoundTo(r: Receipt, e: Mutation)
  {
    if r.binding.LivePrune? then e.transaction == Some(r.binding.transaction) else e.event == r.binding.event
  }

  /** Exactly one event is the record's, and it is an applied prune of the same project, scope, path and session. */
  ghost predicate ProperlyPruned(r: Receipt, events: seq<Mutation>)
  {
    exists i :: 0 <= i < |events| && BoundTo(r, events[i]) && (forall j :: 0 <= j < |events| && BoundTo(r, events[j]) ==> j == i)
                && events[i].operation == PruneOp && events[i].applied
                && events[i].project == r.identity.project && events[i].scope == r.identity.scope
                && events[i].path == r.path && events[i].session == r.identity.session
  }

  lemma OneIndex(s: set<nat>)
    ensures |s| == 1 <==> exists i :: i in s && forall j :: j in s ==> j == i
  {
    if |s| == 1 {
      var i :| i in s;
      assert |s - {i}| == 0;
      forall j | j in s
        ensures j == i
      {
        assert j !in s - {i};
      }
    }
    if i :| i in s && forall j :: j in s ==> j == i {
      assert s == {i};
    }
  }

  lemma BoundExactly(r: Receipt, events: seq<Mutation>)
    ensures Bound(r, events) <==> ProperlyPruned(r, events)
  {
    var matching := Matching(r, events);
    OneIndex(matching);
    assert forall i: nat :: i in matching <==> i < |events| && BoundTo(r, events[i]);
    if Bound(r, events) {
      var i :| i in matching && forall j :: j in matching ==> j == i;
      assert Describes(events[i], r);
    }
    if ProperlyPruned(r, events) {
      var i :| 0 <= i < |events| && BoundTo(r, events[i]) && (forall j :: 0 <= j < |events| && BoundTo(r, events[j]) ==> j == i)
               && events[i].operation == PruneOp && events[i].applied
               && events[i].project == r.identity.project && events[i].scope == r.identity.scope
               && events[i].path == r.path && events[i].session == r.identity.session;
      assert i in matching;
    }
  }

  /** The loader accepts a ledger exactly when it is readable and every record in it was properly pruned. */
  lemma LoadsExactly(ledger: seq<Receipt>, events: seq<Mutation>)
    ensures Loads(ledger, events) <==> Readable(ledger) && forall r :: r in ledger ==> ProperlyPruned(r, events)
  {
    ParsedExactly(ledger);
    if ParseLedger(ledger).Some? {
      ParseKeepsIds(ledger);
      var parsed := ParseLedger(ledger).value;
      forall r | r in ledger
        ensures exists k :: k in parsed && SameRecord(k, r) && (Bound(k, events) <==> ProperlyPruned(r, events))
      {
        HasLine(ledger, r);
        var i :| 0 <= i < |parsed| && parsed[i].id == r.id;
        assert parsed[i] in parsed && parsed[i] in ledger && SameRecord(parsed[i], r);
        BoundExactly(parsed[i], events);
      }
      forall k | k in parsed
        ensures k in ledger && (Bound(k, events) <==> ProperlyPruned(k, events))
      {
        BoundExactly(k, events);
      }
    }
  }

  /** The receipt of a removal is an applied prune of its file, for the registry's reading of it, under its transaction. */
  lemma PruneEventExactly(c: Candidate, event: string)
    ensures var e := PruneEvent(c, event);
            && e.event == event && e.operation == PruneOp && e.applied && e.transaction == Some(Transaction(c.receipt.id))
            && e.project == c.facts.project && e.scope == c.facts.scope && e.session == c.facts.session && e.path == c.name
  {
  }
}
