/** What the claim writers promise: the text they leave reads back as the record they meant. */
module ClaimWriter {
  import opened Wrappers
  import opened Claims
  import opened ClaimProtocol
  import opened RegistryDigest
  import opened PrewriteGate
  import opened ClaimRuns
  import Paths
  import Text

  /** Writing a whole record, writing changed fields into a text, and finding the plan a text names. */
  datatype Writer = Writer(dump: Claim -> Bytes, amend: (Bytes, Claim) -> Bytes, identify: string -> Option<string>)

  predicate Bare(s: string)
  {
    s != "" && Text.Trim(s, Text.IsSpace) == s
  }

  predicate Distinct(items: seq<string>)
  {
    forall i, j :: 0 <= i < j < |items| ==> items[i] != items[j]
  }

  const NAMED_STATUSES: set<string> :=
    {"active", "blocked", "handoff", "session_ended", "closing", "complete", "completed", "abandoned"}

  /** The normal form of a record: reading strips, drops repeats, normalises paths and derives the plan's identity. */
  predicate Storable(w: Writer, c: Claim)
  {
    && Bare(c.agent) && Bare(c.scope)
    && (forall p :: p in c.projects ==> Bare(p)) && Distinct(c.projects)
    && (forall p :: p in c.writePaths ==> Paths.Canonical(p)) && Distinct(c.writePaths)
    && (c.plan.Some? ==> c.plan.value.identity == w.identify(c.plan.value.text))
    && 1 <= c.contract.schemaVersion <= 3
    && (c.status.OtherStatus? ==> c.status.text !in NAMED_STATUSES && Text.Trim(c.status.text, Text.IsSpace) != "")
  }

  /** A record in normal form reads back as written, and so does any readable text with its lifecycle fields amended. */
  ghost predicate Faithful(env: Env, w: Writer)
  {
    && (forall c :: Storable(w, c) ==> env.parse(w.dump(c)) == Record(c) && NUL !in w.dump(c))
    && (forall text, c :: env.parse(text).Record? && Amends(env.parse(text).claim, c) ==>
          env.parse(w.amend(text, c)) == Record(c) && NUL !in w.amend(text, c))
  }

  /** Amending keeps the normal form. */
  lemma AmendKeepsStorable(w: Writer, was: Claim, becomes: Claim)
    requires Storable(w, was) && Amends(was, becomes)
    ensures Storable(w, becomes)
  {
  }

  /** Every record of the registry is in normal form. */
  ghost predicate AllStorable(w: Writer, reg: Registry)
  {
    forall n :: n in reg ==> Storable(w, reg[n])
  }

  /** A record written whole is in normal form. */
  ghost predicate WritesStorable(w: Writer, e: Event)
  {
    e.Disk? && (e.step.Admit? || e.step.Upsert? || e.step.Retire?) ==> Storable(w, e.step.claim)
  }

  lemma StepKeepsStorable(w: Writer, reg: Registry, now: int, step: Step, text: Bytes)
    requires AllStorable(w, reg) && Allowed(reg, now, step) && WritesStorable(w, Disk(step, text))
    ensures AllStorable(w, Apply(reg, step))
  {
    if step.Rewrite? {
      AmendKeepsStorable(w, reg[step.name], step.claim);
    }
  }

  /** If all that is written whole is in normal form, every record a run leaves is, and reads back when written whole. */
  lemma {:induction false} RunKeepsStorable(env: Env, w: Writer, start: World, events: seq<Event>)
    requires Faithful(env, w) && Legal(env, start, events) && AllStorable(w, View(env, start.files))
    requires forall e :: e in events ==> WritesStorable(w, e)
    ensures var reg := View(env, Exec(env, start, events).files);
            AllStorable(w, reg) && forall n :: n in reg ==> env.parse(w.dump(reg[n])) == Record(reg[n])
  {
    if events != [] {
      var before, e := events[..|events| - 1], events[|events| - 1];
      assert e in events && forall x :: x in before ==> x in events;
      RunKeepsStorable(env, w, start, before);
      var world := Exec(env, start, before);
      if e.Disk? {
        ViewAfterStep(env, world.files, e.step, e.text);
        StepKeepsStorable(w, View(env, world.files), world.now, e.step, e.text);
      }
    }
  }
}
