/** What a verified report says, claim by claim and citation by citation. */
module VerificationMeaning {
  import opened Wrappers
  import opened RegistryDigest
  import opened JsonPointer
  import opened PointerHints
  import opened Verification

  // ---------------------------------------------------------------------
  // Tiers

  /** A tier is accepted from the accept threshold up, repairable from the repair threshold up, and blocked below both. */
  lemma OutcomeExactly(p: Policy, severity: string)
    requires severity in p.tiers && ValidPolicy(p)
    ensures OutcomeOf(p, severity) == Accepted <==> p.tiers[severity] >= p.accept
    ensures OutcomeOf(p, severity) == Blocked <==> p.tiers[severity] < p.repair
  {
  }

  /** Only thresholds in the wrong order are rejected. */
  lemma PolicyExactly(p: Policy)
    ensures !ValidPolicy(p) <==> p.repair > p.accept
  {
  }

  // ---------------------------------------------------------------------
  // Citations

  /** One thing a claim cites: a piece of evidence, or a place in an artifact. */
  datatype Citation = Evidence(claim: string, name: string) | Place(claim: string, artifact: string, pointer: string)

  function EvidenceOf(id: string, names: seq<string>): seq<Citation>
  {
    seq(|names|, i requires 0 <= i < |names| => Evidence(id, names[i]))
  }

  function PlacesOf(id: string, locators: seq<Locator>): seq<Citation>
  {
    seq(|locators|, i requires 0 <= i < |locators| => Place(id, locators[i].artifact, locators[i].pointer))
  }

  function CitedBy(id: string, s: Support): seq<Citation>
  {
    EvidenceOf(id, s.evidence) + PlacesOf(id, s.locators)
  }

  function CitedIn(id: string, supports: seq<Support>): seq<Citation>
  {
    if supports == [] then [] else CitedBy(id, supports[0]) + CitedIn(id, supports[1..])
  }

  /** Everything the claims cite, claim by claim, support by support, evidence first. */
  function Cited(claims: seq<Claim>): seq<Citation>
  {
    if claims == [] then [] else CitedIn(claims[0].id, claims[0].supports) + Cited(claims[1..])
  }

  /** What is wrong with one citation: unknown evidence, an artifact missing or null, or a pointer that leads nowhere. */
  ghost function Fault(corpus: Corpus, c: Citation): seq<CitationError>
  {
    match c
    case Evidence(claim, name) => if name in corpus.evidence then [] else [CitationError(claim, UnknownEvidence, name, [])]
    case Place(claim, artifact, pointer) =>
      if artifact !in corpus.artifacts || corpus.artifacts[artifact] == Null
      then [CitationError(claim, UnknownArtifact, artifact, SortedNames(corpus.artifacts.Keys))]
      else if Resolve(corpus.artifacts[artifact], pointer) == None
      then [CitationError(claim, UnresolvedPointer, artifact, Hints(corpus.artifacts[artifact], pointer, 20))]
      else []
  }

  ghost function Faults(corpus: Corpus, cs: seq<Citation>): seq<CitationError>
  {
    if cs == [] then [] else Fault(corpus, cs[0]) + Faults(corpus, cs[1..])
  }

  lemma {:induction false} FaultsConcat(corpus: Corpus, a: seq<Citation>, b: seq<Citation>)
    ensures Faults(corpus, a + b) == Faults(corpus, a) + Faults(corpus, b)
  {
    if a == [] {
      assert a + b == b;
    } else {
      FaultsConcat(corpus, a[1..], b);
      assert (a + b)[0] == a[0] && (a + b)[1..] == a[1..] + b;
      Join(Fault(corpus, a[0]), Faults(corpus, a[1..]), Faults(corpus, b));
    }
  }

  lemma Join<T>(a: seq<T>, b: seq<T>, c: seq<T>)
    ensures (a + b) + c == a + (b + c)
  {
  }

  lemma FaultsOne(corpus: Corpus, c: Citation)
    ensures Faults(corpus, [c]) == Fault(corpus, c)
  {
    assert [c][1..] == [];
  }

  lemma {:induction false} EvidenceFaults(id: string, corpus: Corpus, names: seq<string>)
    ensures EvidenceErrors(id, corpus, names) == Faults(corpus, EvidenceOf(id, names))
  {
    if names != [] {
      var before, last := names[..|names| - 1], names[|names| - 1];
      EvidenceFaults(id, corpus, before);
      assert EvidenceOf(id, names) == EvidenceOf(id, before) + [Evidence(id, last)];
      FaultsConcat(corpus, EvidenceOf(id, before), [Evidence(id, last)]);
      FaultsOne(corpus, Evidence(id, last));
    }
  }

  lemma LocatorFault(id: string, corpus: Corpus, l: Locator)
    ensures LocatorErrors(id, corpus, l) == Fault(corpus, Place(id, l.artifact, l.pointer))
  {
  }

  lemma {:induction false} PlaceFaults(id: string, corpus: Corpus, ls: seq<Locator>)
    ensures AllLocatorErrors(id, corpus, ls) == Faults(corpus, PlacesOf(id, ls))
  {
    if ls != [] {
      var before, last := ls[..|ls| - 1], ls[|ls| - 1];
      var place := Place(id, last.artifact, last.pointer);
      PlaceFaults(id, corpus, before);
      assert PlacesOf(id, ls) == PlacesOf(id, before) + [place];
      FaultsConcat(corpus, PlacesOf(id, before), [place]);
      FaultsOne(corpus, place);
      LocatorFault(id, corpus, last);
    }
  }

  lemma {:induction false} CitedInSnoc(id: string, supports: seq<Support>)
    requires supports != []
    ensures CitedIn(id, supports) == CitedIn(id, supports[..|supports| - 1]) + CitedBy(id, supports[|supports| - 1])
  {
    var before, last := supports[..|supports| - 1], supports[|supports| - 1];
    if before != [] {
      CitedInSnoc(id, supports[1..]);
      assert supports[1..][..|supports| - 2] == before[1..] && before[0] == supports[0];
      Join(CitedBy(id, supports[0]), CitedIn(id, before[1..]), CitedBy(id, last));
    } else {
      assert supports[1..] == [];
    }
  }

  lemma {:induction false} SupportFaults(id: string, corpus: Corpus, supports: seq<Support>)
    ensures SupportErrors(id, corpus, supports) == Faults(corpus, CitedIn(id, supports))
  {
    if supports != [] {
      var before, last := supports[..|supports| - 1], supports[|supports| - 1];
      SupportFaults(id, corpus, before);
      CitedInSnoc(id, supports);
      EvidenceFaults(id, corpus, last.evidence);
      PlaceFaults(id, corpus, last.locators);
      FaultsConcat(corpus, EvidenceOf(id, last.evidence), PlacesOf(id, last.locators));
      FaultsConcat(corpus, CitedIn(id, before), CitedBy(id, last));
    }
  }

  lemma {:induction false} CitedSnoc(claims: seq<Claim>)
    requires claims != []
    ensures var before, last := claims[..|claims| - 1], claims[|claims| - 1];
            Cited(claims) == Cited(before) + CitedIn(last.id, last.supports)
  {
    var before, last := claims[..|claims| - 1], claims[|claims| - 1];
    if before != [] {
      CitedSnoc(claims[1..]);
      assert claims[1..][..|claims| - 2] == before[1..] && before[0] == claims[0];
      Join(CitedIn(claims[0].id, claims[0].supports), Cited(before[1..]), CitedIn(last.id, last.supports));
    }
  }

  /** The errors of a report are the faults of what it cites, in the order it cites them. */
  lemma {:induction false} ErrorsAreFaults(corpus: Corpus, claims: seq<Claim>)
    ensures ReportErrors(corpus, claims) == Faults(corpus, Cited(claims))
  {
    if claims != [] {
      var before, last := claims[..|claims| - 1], claims[|claims| - 1];
      ErrorsAreFaults(corpus, before);
      CitedSnoc(claims);
      SupportFaults(last.id, corpus, last.supports);
      FaultsConcat(corpus, Cited(before), CitedIn(last.id, last.supports));
    }
  }

  // ---------------------------------------------------------------------
  // The report

  /** The claim has a support computed by this run with no locator, or with one that does not lead to a value. */
  predicate LacksSource(corpus: Corpus, c: Claim)
  {
    exists i :: 0 <= i < |c.supports| && c.supports[i].basis in corpus.computed
                && (c.supports[i].locators == []
                    || exists l :: l in c.supports[i].locators
                                   && (l.artifact !in corpus.artifacts || corpus.artifacts[l.artifact] == Null
                                       || Resolve(corpus.artifacts[l.artifact], l.pointer) == None))
  }

  lemma LacksSourceExactly(corpus: Corpus, c: Claim)
    ensures IsUnattributed(corpus, c) <==> LacksSource(corpus, c)
  {
    forall i | 0 <= i < |c.supports|
      ensures Unattributed(corpus, c.supports[i]) <==>
              && c.supports[i].basis in corpus.computed
              && (c.supports[i].locators == []
                  || exists l :: l in c.supports[i].locators
                                 && (l.artifact !in corpus.artifacts || corpus.artifacts[l.artifact] == Null
                                     || Resolve(corpus.artifacts[l.artifact], l.pointer) == None))
    {
      SupportLacksExactly(corpus, c.supports[i]);
    }
  }

  lemma SupportLacksExactly(corpus: Corpus, s: Support)
    ensures (exists j :: 0 <= j < |s.locators| && !Resolves(corpus, s.locators[j])) <==>
            exists l :: l in s.locators
                        && (l.artifact !in corpus.artifacts || corpus.artifacts[l.artifact] == Null
                            || Resolve(corpus.artifacts[l.artifact], l.pointer) == None)
  {
    if j :| 0 <= j < |s.locators| && !Resolves(corpus, s.locators[j]) {
      assert s.locators[j] in s.locators;
    }
  }

  /** A claim that lacks its source drops to the derived tier when that scores lower, and nothing else of it changes. */
  lemma SettledExactly(p: Policy, corpus: Corpus, claims: seq<Claim>, block: bool, i: nat)
    requires Verify(p, corpus, claims, block).Ok? && i < |claims|
    ensures var v, c := Verify(p, corpus, claims, block).value, claims[i];
            && |v.claims| == |claims| && c.severity in p.tiers
            && (LacksSource(corpus, c) ==> UNATTRIBUTED in p.tiers)
            && v.claims[i] == c.(severity := if LacksSource(corpus, c) && p.tiers[UNATTRIBUTED] < p.tiers[c.severity]
                                             then UNATTRIBUTED else c.severity)
  {
    LacksSourceExactly(corpus, claims[i]);
  }

  /** The outcome kept for an identifier is that of the last claim that bears it. */
  lemma {:induction false} LastOutcomeCounts(p: Policy, claims: seq<Claim>, id: string)
    requires forall i :: 0 <= i < |claims| ==> claims[i].severity in p.tiers
    ensures id in OutcomesOf(p, claims) <==> exists i :: LastOf(claims, id, i)
    ensures forall i :: LastOf(claims, id, i) ==> OutcomesOf(p, claims)[id] == OutcomeOf(p, claims[i].severity)
  {
    if claims != [] {
      var before, last := claims[..|claims| - 1], claims[|claims| - 1];
      LastOutcomeCounts(p, before, id);
      if last.id == id {
        assert LastOf(claims, id, |claims| - 1) && forall i :: LastOf(claims, id, i) ==> i == |claims| - 1;
      } else {
        assert forall i :: LastOf(claims, id, i) <==> LastOf(before, id, i);
      }
    }
  }

  predicate LastOf(claims: seq<Claim>, id: string, i: int)
  {
    0 <= i < |claims| && claims[i].id == id && forall j :: i < j < |claims| ==> claims[j].id != id
  }

  /** A report is blocked by any fault when asked to, and otherwise gets the worst of its claims' outcomes. */
  lemma StatusExactly(p: Policy, corpus: Corpus, claims: seq<Claim>, block: bool)
    requires Verify(p, corpus, claims, block).Ok?
    ensures var v := Verify(p, corpus, claims, block).value;
            && v.errors == Faults(corpus, Cited(claims))
            && (forall i :: 0 <= i < |v.claims| ==> v.claims[i].severity in p.tiers)
            && v.outcomes == OutcomesOf(p, v.claims)
            && v.status == if block && v.errors != [] then Blocked
                           else if exists i :: 0 <= i < |v.claims| && OutcomeOf(p, v.claims[i].severity) == Blocked then Blocked
                           else if exists i :: 0 <= i < |v.claims| && OutcomeOf(p, v.claims[i].severity) == Repairable
                           then Repairable else Accepted
  {
    var v := Verify(p, corpus, claims, block).value;
    ErrorsAreFaults(corpus, claims);
    SeverityOutcomes(p, v.claims, Blocked);
    SeverityOutcomes(p, v.claims, Repairable);
  }

  lemma SeverityOutcomes(p: Policy, claims: seq<Claim>, o: Outcome)
    requires forall i :: 0 <= i < |claims| ==> claims[i].severity in p.tiers
    ensures (exists s :: s in Severities(claims) && OutcomeOf(p, s) == o) <==>
            exists i :: 0 <= i < |claims| && OutcomeOf(p, claims[i].severity) == o
  {
    if i :| 0 <= i < |claims| && OutcomeOf(p, claims[i].severity) == o {
      assert Severities(claims)[i] in Severities(claims);
    }
  }

  /** Verification fails exactly without claims, or when a tier of the judge or a derived tier that applies is unknown. */
  lemma FailsExactly(p: Policy, corpus: Corpus, claims: seq<Claim>, block: bool)
    ensures Verify(p, corpus, claims, block).Err? <==>
            || claims == []
            || exists i :: 0 <= i < |claims| && (claims[i].severity !in p.tiers
                                                 || (LacksSource(corpus, claims[i]) && UNATTRIBUTED !in p.tiers))
    ensures Verify(p, corpus, claims, block).Err? ==>
              Verify(p, corpus, claims, block).error == if claims == [] then NoClaims else UnknownTier
  {
    forall i | 0 <= i < |claims|
      ensures IsUnattributed(corpus, claims[i]) <==> LacksSource(corpus, claims[i])
    {
      LacksSourceExactly(corpus, claims[i]);
    }
  }
}
