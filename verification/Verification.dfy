/** Checking a judge's report against the evidence and artifacts it cites, and gating the result. */
module Verification {
  import opened Wrappers
  import opened RegistryDigest
  import opened JsonPointer
  import opened PointerHints

  datatype Locator = Locator(artifact: string, pointer: string)

  datatype Support = Support(basis: string, evidence: seq<string>, locators: seq<Locator>)

  datatype Claim = Claim(id: string, severity: string, supports: seq<Support>)

  /** The corpus a report may cite, and the bases that mean "computed by this run". */
  datatype Corpus = Corpus(evidence: set<string>, artifacts: map<string, Json>, computed: set<string>)

  // ---------------------------------------------------------------------
  // Policy

  datatype Outcome = Blocked | Repairable | Accepted

  /** Tier scores with the two thresholds; the repair threshold never exceeds the accept threshold. */
  datatype Policy = Policy(tiers: map<string, real>, accept: real, repair: real)

  const UNATTRIBUTED := "unattributed_computed_claim"

  predicate ValidPolicy(p: Policy)
  {
    p.repair <= p.accept
  }

  function OutcomeOf(p: Policy, severity: string): Outcome
    requires severity in p.tiers
  {
    if p.tiers[severity] >= p.accept then Accepted
    else if p.tiers[severity] >= p.repair then Repairable
    else Blocked
  }

  function Rank(o: Outcome): nat
  {
    match o case Blocked => 0 case Repairable => 1 case Accepted => 2
  }

  /** Worst tier wins. */
  function StatusOf(p: Policy, severities: seq<string>): Outcome
    requires forall s :: s in severities ==> s in p.tiers
  {
    if exists s :: s in severities && OutcomeOf(p, s).Blocked? then Blocked
    else if exists s :: s in severities && OutcomeOf(p, s).Repairable? then Repairable
    else Accepted
  }

  /** The status is the least favourable outcome among the tiers. */
  lemma StatusIsWorst(p: Policy, severities: seq<string>)
    requires severities != [] && forall s :: s in severities ==> s in p.tiers
    ensures forall s :: s in severities ==> Rank(StatusOf(p, severities)) <= Rank(OutcomeOf(p, s))
    ensures exists s :: s in severities && OutcomeOf(p, s) == StatusOf(p, severities)
  {
    assert severities[0] in severities;
  }

  lemma LowerScoreIsNoBetter(p: Policy, a: string, b: string)
    requires ValidPolicy(p) && a in p.tiers && b in p.tiers && p.tiers[a] <= p.tiers[b]
    ensures Rank(OutcomeOf(p, a)) <= Rank(OutcomeOf(p, b))
  {
  }

  // ---------------------------------------------------------------------
  // Citations

  datatype Kind = UnknownEvidence | UnknownArtifact | UnresolvedPointer

  datatype CitationError = CitationError(claim: string, kind: Kind, cited: string, hints: seq<string>)

  /** An artifact is available when it was supplied and is not null. */
  predicate Available(corpus: Corpus, name: string)
  {
    name in corpus.artifacts && !corpus.artifacts[name].Null?
  }

  predicate Resolves(corpus: Corpus, l: Locator)
  {
    Available(corpus, l.artifact) && Resolve(corpus.artifacts[l.artifact], l.pointer).Some?
  }

  const HINT_LIMIT := 20

  ghost function LocatorErrors(id: string, corpus: Corpus, l: Locator): seq<CitationError>
  {
    if !Available(corpus, l.artifact) then
      [CitationError(id, UnknownArtifact, l.artifact, SortedNames(corpus.artifacts.Keys))]
    else if Resolve(corpus.artifacts[l.artifact], l.pointer).None? then
      [CitationError(id, UnresolvedPointer, l.artifact, Hints(corpus.artifacts[l.artifact], l.pointer, HINT_LIMIT))]
    else []
  }

  ghost function AllLocatorErrors(id: string, corpus: Corpus, ls: seq<Locator>): (errors: seq<CitationError>)
    ensures errors == [] <==> forall i :: 0 <= i < |ls| ==> Resolves(corpus, ls[i])
  {
    if ls == [] then []
    else AllLocatorErrors(id, corpus, ls[..|ls| - 1]) + LocatorErrors(id, corpus, ls[|ls| - 1])
  }

  function EvidenceErrors(id: string, corpus: Corpus, cited: seq<string>): (errors: seq<CitationError>)
    ensures errors == [] <==> forall i :: 0 <= i < |cited| ==> cited[i] in corpus.evidence
  {
    if cited == [] then []
    else
      EvidenceErrors(id, corpus, cited[..|cited| - 1])
      + if cited[|cited| - 1] in corpus.evidence then [] else [CitationError(id, UnknownEvidence, cited[|cited| - 1], [])]
  }

  /** Everything the support cites exists. */
  predicate Sourced(corpus: Corpus, s: Support)
  {
    && (forall i :: 0 <= i < |s.evidence| ==> s.evidence[i] in corpus.evidence)
    && (forall i :: 0 <= i < |s.locators| ==> Resolves(corpus, s.locators[i]))
  }

  ghost function OneSupport(id: string, corpus: Corpus, s: Support): (errors: seq<CitationError>)
    ensures errors == [] <==> Sourced(corpus, s)
  {
    EvidenceErrors(id, corpus, s.evidence) + AllLocatorErrors(id, corpus, s.locators)
  }

  ghost function SupportErrors(id: string, corpus: Corpus, supports: seq<Support>): (errors: seq<CitationError>)
    ensures errors == [] <==> forall i :: 0 <= i < |supports| ==> Sourced(corpus, supports[i])
  {
    if supports == [] then []
    else
      var before, last := supports[..|supports| - 1], supports[|supports| - 1];
      assert supports == before + [last];
      SupportErrors(id, corpus, before) + OneSupport(id, corpus, last)
  }

  lemma SupportErrorsSnoc(id: string, corpus: Corpus, supports: seq<Support>, i: nat)
    requires i < |supports|
    ensures SupportErrors(id, corpus, supports[..i + 1])
         == SupportErrors(id, corpus, supports[..i]) + OneSupport(id, corpus, supports[i])
  {
    assert supports[..i + 1][..i] == supports[..i];
  }

  predicate AllSourced(corpus: Corpus, c: Claim)
  {
    forall i :: 0 <= i < |c.supports| ==> Sourced(corpus, c.supports[i])
  }

  ghost function ReportErrors(corpus: Corpus, claims: seq<Claim>): seq<CitationError>
  {
    if claims == [] then []
    else
      var last := claims[|claims| - 1];
      ReportErrors(corpus, claims[..|claims| - 1]) + SupportErrors(last.id, corpus, last.supports)
  }

  /** No citation error is raised exactly when everything cited exists. */
  lemma {:induction false} NoErrorsExactly(corpus: Corpus, claims: seq<Claim>)
    ensures ReportErrors(corpus, claims) == [] <==> forall i :: 0 <= i < |claims| ==> AllSourced(corpus, claims[i])
  {
    if claims != [] {
      var before, last := claims[..|claims| - 1], claims[|claims| - 1];
      NoErrorsExactly(corpus, before);
      assert AllSourced(corpus, last) <==> SupportErrors(last.id, corpus, last.supports) == [];
      assert forall i :: 0 <= i < |before| ==> before[i] == claims[i];
    }
  }

  // ---------------------------------------------------------------------
  // Derived severity

  predicate Unattributed(corpus: Corpus, s: Support)
  {
    s.basis in corpus.computed && (s.locators == [] || exists j :: 0 <= j < |s.locators| && !Resolves(corpus, s.locators[j]))
  }

  predicate IsUnattributed(corpus: Corpus, c: Claim)
  {
    exists i :: 0 <= i < |c.supports| && Unattributed(corpus, c.supports[i])
  }

  /** `derive_severity`: the first computed support without a resolving locator decides. */
  method DeriveSeverity(c: Claim, corpus: Corpus) returns (derived: Option<string>)
    ensures derived == if IsUnattributed(corpus, c) then Some(UNATTRIBUTED) else None
  {
    var i := 0;
    while i < |c.supports|
      invariant i <= |c.supports|
      invariant forall j :: 0 <= j < i ==> !Unattributed(corpus, c.supports[j])
    {
      var s := c.supports[i];
      if s.basis in corpus.computed {
        if s.locators == [] {
          assert Unattributed(corpus, s);
          return Some(UNATTRIBUTED);
        }
        var j := 0;
        while j < |s.locators|
          invariant j <= |s.locators|
          invariant forall k :: 0 <= k < j ==> Resolves(corpus, s.locators[k])
        {
          if !Available(corpus, s.locators[j].artifact) {
            assert Unattributed(corpus, s);
            return Some(UNATTRIBUTED);
          }
          var found := ResolvePointer(corpus.artifacts[s.locators[j].artifact], s.locators[j].pointer);
          if found.None? {
            assert Unattributed(corpus, s);
            return Some(UNATTRIBUTED);
          }
          j := j + 1;
        }
      }
      i := i + 1;
    }
    derived := None;
  }

  /** Deriving a tier may only make a claim more severe. */
  function Settle(p: Policy, corpus: Corpus, c: Claim): Claim
    requires c.severity in p.tiers && (IsUnattributed(corpus, c) ==> UNATTRIBUTED in p.tiers)
  {
    if IsUnattributed(corpus, c) && p.tiers[UNATTRIBUTED] < p.tiers[c.severity] then c.(severity := UNATTRIBUTED) else c
  }

  // ---------------------------------------------------------------------
  // The verified report

  datatype Report = Report(claims: seq<Claim>, status: Outcome, outcomes: map<string, Outcome>, errors: seq<CitationError>)

  datatype Failure = UnknownTier | NoClaims

  function Severities(claims: seq<Claim>): seq<string>
  {
    seq(|claims|, i requires 0 <= i < |claims| => claims[i].severity)
  }

  /** The judge's tiers are all known, and so is the derived one wherever it applies. */
  predicate KnownTiers(p: Policy, corpus: Corpus, claims: seq<Claim>)
  {
    forall i :: 0 <= i < |claims| ==>
      claims[i].severity in p.tiers && (IsUnattributed(corpus, claims[i]) ==> UNATTRIBUTED in p.tiers)
  }

  function Settled(p: Policy, corpus: Corpus, claims: seq<Claim>): (settled: seq<Claim>)
    requires KnownTiers(p, corpus, claims)
    ensures |settled| == |claims|
    ensures forall i :: 0 <= i < |claims| ==> settled[i] == Settle(p, corpus, claims[i]) && settled[i].severity in p.tiers
  {
    seq(|claims|, i requires 0 <= i < |claims| => Settle(p, corpus, claims[i]))
  }

  function OutcomesOf(p: Policy, claims: seq<Claim>): map<string, Outcome>
    requires forall i :: 0 <= i < |claims| ==> claims[i].severity in p.tiers
  {
    if claims == [] then map[]
    else OutcomesOf(p, claims[..|claims| - 1])[claims[|claims| - 1].id := OutcomeOf(p, claims[|claims| - 1].severity)]
  }

  ghost function Verify(p: Policy, corpus: Corpus, claims: seq<Claim>, block: bool): Result<Report, Failure>
  {
    if !KnownTiers(p, corpus, claims) then Err(UnknownTier)
    else if claims == [] then Err(NoClaims)
    else
      var settled, errors := Settled(p, corpus, claims), ReportErrors(corpus, claims);
      var judged := StatusOf(p, Severities(settled));
      Ok(Report(settled, if errors != [] && block then Blocked else judged, OutcomesOf(p, settled), errors))
  }

  // ---------------------------------------------------------------------
  // What a status means

  /** The final status is never better than the policy's status for the judge's own tiers. */
  lemma StatusNeverImproves(p: Policy, corpus: Corpus, claims: seq<Claim>, block: bool)
    requires ValidPolicy(p) && Verify(p, corpus, claims, block).Ok?
    ensures Rank(Verify(p, corpus, claims, block).value.status) <= Rank(StatusOf(p, Severities(claims)))
  {
    var settled := Settled(p, corpus, claims);
    StatusIsWorst(p, Severities(claims));
    StatusIsWorst(p, Severities(settled));
    var s :| s in Severities(claims) && OutcomeOf(p, s) == StatusOf(p, Severities(claims));
    var i :| 0 <= i < |claims| && Severities(claims)[i] == s;
    assert Severities(settled)[i] in Severities(settled);
    LowerScoreIsNoBetter(p, settled[i].severity, s);
  }

  /** Acceptable to the judge, everything it cites exists, and every computed support has a locator. */
  predicate WellFounded(p: Policy, corpus: Corpus, c: Claim)
  {
    && c.severity in p.tiers && p.tiers[c.severity] >= p.accept
    && AllSourced(corpus, c) && NamesArtifacts(corpus, c)
  }

  predicate NamesArtifacts(corpus: Corpus, c: Claim)
  {
    forall i :: 0 <= i < |c.supports| && c.supports[i].basis in corpus.computed ==> c.supports[i].locators != []
  }

  lemma SourcedMeansAttributed(corpus: Corpus, c: Claim)
    requires AllSourced(corpus, c)
    ensures !IsUnattributed(corpus, c) <==> NamesArtifacts(corpus, c)
  {
    if i :| 0 <= i < |c.supports| && c.supports[i].basis in corpus.computed && c.supports[i].locators == [] {
      assert Unattributed(corpus, c.supports[i]);
    }
  }

  /** With the derived tier below the accept threshold, a settled claim is accepted exactly when judged so and attributed. */
  lemma SettledIsAcceptable(p: Policy, corpus: Corpus, c: Claim)
    requires c.severity in p.tiers && (IsUnattributed(corpus, c) ==> UNATTRIBUTED in p.tiers)
    requires UNATTRIBUTED in p.tiers ==> p.tiers[UNATTRIBUTED] < p.accept
    ensures OutcomeOf(p, Settle(p, corpus, c).severity).Accepted? <==> p.tiers[c.severity] >= p.accept && !IsUnattributed(corpus, c)
  {
  }

  lemma AcceptedMeansAll(p: Policy, claims: seq<Claim>)
    requires forall i :: 0 <= i < |claims| ==> claims[i].severity in p.tiers
    ensures StatusOf(p, Severities(claims)).Accepted? <==> forall i :: 0 <= i < |claims| ==> OutcomeOf(p, claims[i].severity).Accepted?
  {
    var severities := Severities(claims);
    if i :| 0 <= i < |claims| && !OutcomeOf(p, claims[i].severity).Accepted? {
      assert severities[i] in severities;
    }
  }

  /** Under the blocking flag, with the derived tier below the accept threshold, acceptance means exactly well-founded claims. */
  lemma AcceptedExactlyWhenWellFounded(p: Policy, corpus: Corpus, claims: seq<Claim>)
    requires ValidPolicy(p) && (UNATTRIBUTED in p.tiers ==> p.tiers[UNATTRIBUTED] < p.accept)
    requires Verify(p, corpus, claims, true).Ok?
    ensures Verify(p, corpus, claims, true).value.status.Accepted? <==>
            forall i :: 0 <= i < |claims| ==> WellFounded(p, corpus, claims[i])
  {
    var settled := Settled(p, corpus, claims);
    NoErrorsExactly(corpus, claims);
    AcceptedMeansAll(p, settled);
    forall i | 0 <= i < |claims| && AllSourced(corpus, claims[i])
      ensures OutcomeOf(p, settled[i].severity).Accepted? <==> WellFounded(p, corpus, claims[i])
    {
      SettledIsAcceptable(p, corpus, claims[i]);
      SourcedMeansAttributed(corpus, claims[i]);
    }
  }

  /** With the derived tier at the accept threshold or above, a computed claim that names no artifact is accepted. */
  lemma HighDerivedTierAcceptsUnattributed(p: Policy, corpus: Corpus, c: Claim, s: Support)
    requires UNATTRIBUTED in p.tiers && c.severity in p.tiers
    requires p.tiers[UNATTRIBUTED] >= p.accept && p.tiers[c.severity] >= p.accept
    requires c.supports == [s] && s.basis in corpus.computed && s.locators == []
    requires forall i :: 0 <= i < |s.evidence| ==> s.evidence[i] in corpus.evidence
    ensures Verify(p, corpus, [c], true).Ok? && Verify(p, corpus, [c], true).value.status.Accepted?
    ensures !WellFounded(p, corpus, c)
  {
    assert Sourced(corpus, s) && c.supports[0] == s;
    assert AllSourced(corpus, c) && !NamesArtifacts(corpus, c);
    NoErrorsExactly(corpus, [c]);
    AcceptedMeansAll(p, Settled(p, corpus, [c]));
  }

  // ---------------------------------------------------------------------
  // Verifying a report

  method CheckEvidence(id: string, corpus: Corpus, cited: seq<string>) returns (errors: seq<CitationError>)
    ensures errors == EvidenceErrors(id, corpus, cited)
  {
    errors := [];
    var i := 0;
    while i < |cited|
      invariant i <= |cited|
      invariant errors == EvidenceErrors(id, corpus, cited[..i])
    {
      assert cited[..i + 1][..i] == cited[..i];
      if cited[i] !in corpus.evidence {
        errors := errors + [CitationError(id, UnknownEvidence, cited[i], [])];
      }
      i := i + 1;
    }
    assert cited[..i] == cited;
  }

  method CheckLocators(id: string, corpus: Corpus, ls: seq<Locator>) returns (errors: seq<CitationError>)
    ensures errors == AllLocatorErrors(id, corpus, ls)
  {
    errors := [];
    var i := 0;
    while i < |ls|
      invariant i <= |ls|
      invariant errors == AllLocatorErrors(id, corpus, ls[..i])
    {
      assert ls[..i + 1][..i] == ls[..i];
      var found := CheckLocator(id, corpus, ls[i]);
      errors := errors + found;
      i := i + 1;
    }
    assert ls[..i] == ls;
  }

  method CheckLocator(id: string, corpus: Corpus, l: Locator) returns (errors: seq<CitationError>)
    ensures errors == LocatorErrors(id, corpus, l)
  {
    if !Available(corpus, l.artifact) {
      var names := SortNames(corpus.artifacts.Keys);
      return [CitationError(id, UnknownArtifact, l.artifact, names)];
    }
    var artifact := corpus.artifacts[l.artifact];
    var found := ResolvePointer(artifact, l.pointer);
    if found.Some? { return []; }
    var hints := RepairHints(artifact, l.pointer, HINT_LIMIT);
    errors := [CitationError(id, UnresolvedPointer, l.artifact, hints)];
  }

  method CheckSupport(id: string, corpus: Corpus, s: Support) returns (errors: seq<CitationError>)
    ensures errors == OneSupport(id, corpus, s)
  {
    var evidence := CheckEvidence(id, corpus, s.evidence);
    var locators := CheckLocators(id, corpus, s.locators);
    errors := evidence + locators;
  }

  method CheckSupports(id: string, corpus: Corpus, supports: seq<Support>) returns (errors: seq<CitationError>)
    ensures errors == SupportErrors(id, corpus, supports)
  {
    errors := [];
    var i := 0;
    while i < |supports|
      invariant i <= |supports|
      invariant errors == SupportErrors(id, corpus, supports[..i])
    {
      SupportErrorsSnoc(id, corpus, supports, i);
      var found := CheckSupport(id, corpus, supports[i]);
      errors := errors + found;
      i := i + 1;
    }
    assert supports[..i] == supports;
  }

  method CheckCitations(corpus: Corpus, claims: seq<Claim>) returns (errors: seq<CitationError>)
    ensures errors == ReportErrors(corpus, claims)
  {
    errors := [];
    var i := 0;
    while i < |claims|
      invariant i <= |claims|
      invariant errors == ReportErrors(corpus, claims[..i])
    {
      assert claims[..i + 1][..i] == claims[..i];
      var found := CheckSupports(claims[i].id, corpus, claims[i].supports);
      errors := errors + found;
      i := i + 1;
    }
    assert claims[..i] == claims;
  }

  /** Settling each claim's tier, or failing on a tier the rubric does not define. */
  method SettleClaims(p: Policy, corpus: Corpus, claims: seq<Claim>) returns (settled: Option<seq<Claim>>)
    ensures settled == if KnownTiers(p, corpus, claims) then Some(Settled(p, corpus, claims)) else None
  {
    var done: seq<Claim>, i := [], 0;
    while i < |claims|
      invariant i <= |claims| && |done| == i
      invariant KnownTiers(p, corpus, claims[..i])
      invariant forall j :: 0 <= j < i ==> claims[j] == claims[..i][j] && done[j] == Settle(p, corpus, claims[..i][j])
    {
      var derived := DeriveSeverity(claims[i], corpus);
      if claims[i].severity !in p.tiers || (derived.Some? && UNATTRIBUTED !in p.tiers) { return None; }
      assert claims[..i + 1] == claims[..i] + [claims[i]];
      done := done + [if derived.Some? && p.tiers[derived.value] < p.tiers[claims[i].severity]
                      then claims[i].(severity := derived.value) else claims[i]];
      i := i + 1;
    }
    assert claims[..i] == claims;
    assert done == Settled(p, corpus, claims);
    settled := Some(done);
  }

  method Rate(p: Policy, claims: seq<Claim>) returns (outcomes: map<string, Outcome>, status: Outcome)
    requires forall i :: 0 <= i < |claims| ==> claims[i].severity in p.tiers
    ensures outcomes == OutcomesOf(p, claims) && status == StatusOf(p, Severities(claims))
  {
    outcomes := map[];
    var blocked, repairable, i := false, false, 0;
    while i < |claims|
      invariant i <= |claims|
      invariant outcomes == OutcomesOf(p, claims[..i])
      invariant blocked <==> exists s :: s in Severities(claims)[..i] && OutcomeOf(p, s).Blocked?
      invariant repairable <==> exists s :: s in Severities(claims)[..i] && OutcomeOf(p, s).Repairable?
    {
      var o := OutcomeOf(p, claims[i].severity);
      assert claims[..i + 1][..i] == claims[..i];
      assert Severities(claims)[..i + 1] == Severities(claims)[..i] + [claims[i].severity];
      outcomes := outcomes[claims[i].id := o];
      blocked, repairable := blocked || o.Blocked?, repairable || o.Repairable?;
      i := i + 1;
    }
    assert claims[..i] == claims && Severities(claims)[..i] == Severities(claims);
    status := if blocked then Blocked else if repairable then Repairable else Accepted;
  }

  method VerifyReport(p: Policy, corpus: Corpus, claims: seq<Claim>, block: bool) returns (r: Result<Report, Failure>)
    ensures r == Verify(p, corpus, claims, block)
  {
    var errors := CheckCitations(corpus, claims);
    var settled := SettleClaims(p, corpus, claims);
    if settled.None? { return Err(UnknownTier); }
    if claims == [] { return Err(NoClaims); }
    var outcomes, status := Rate(p, settled.value);
    if errors != [] && block { status := Blocked; }
    r := Ok(Report(settled.value, status, outcomes, errors));
  }
}
