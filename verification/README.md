# Verification of the coordination layer

A Dafny model of the parts of the repository that several processes rely on at once, with proofs of
what those parts promise. `dafny verify dfyconfig.toml` checks all of it.

## What is modelled

**The claim registry and its enforcing gate.** Agents in separate processes claim write paths. A
registry is a map from file name to claim; every operation is one or more atomic file writes under
one lock, followed by a refresh of a projection that a pre-write hook reads instead of the YAML.

- `Paths` holds the two path normalisations and what they mean: overlap and coverage are
  component prefixes. It says exactly for which paths the gate's reading and the registry's agree.
  `PathMeaning` shows that normalising keeps the place a path leads to.
- `Claims` holds the checks that only compute: conflicts, preserved lanes, plan hierarchy, session
  roots, and the admission verdict in its order of tests. `Admission` says what that verdict demands
  of the records, field by field.
- `ClaimProtocol` has every registry write as a step. The inductive invariant ranges over live *and*
  session-ended claims, since a resume revives an ended claim without looking at conflicts. The
  upsert of an occupied slot never evaluates conflicts, so it is a step only under an explicit guard;
  what it does without the guard is stated exactly. `ClaimExamples` has the histories in which the
  code does not do what it promises, and `ClaimOperations` what each operation leaves in a record.
- `RegistryDigest` and `PrewriteGate` bind the projection to the registry's bytes and decide a write;
  `GateMeaning` says what each decision means.
- `ClaimRuns` interleaves single durable writes, refreshes and time. A crash is an operation whose
  remaining events never come. `NoTwoAgentsAllowed` is the main result of this part;
  `LaterAllowMeansFirstIsGone` extends it to two decisions at different times, and `GateExamples` has
  the runs that make each proviso necessary.
- `ClaimWriter` says which records the writers can store: the normal form that reading yields.
  `ClaimStore` is the registry as an object whose methods loop over files. Its invariant is that its
  fields are what a legal run has left, so every theorem on runs holds of it.
- `ClaimArchive` has the receipts of completed claims and the loader that binds them to removals;
  `ClaimPrune` is the prune itself: archive, re-check, remove, refresh, record. A budget of durable
  writes puts a crash after any one of them, and an unlocked editor may overwrite files. `ArchiveMeaning`
  says what scanning, appending and loading demand of the records.

**The mailbox.** `Mailbox` has write-once records and the lifecycle derived from them;
`MailboxPolling`, `MailboxDrain` and `MailboxRuns` have polls, the bounded surfacing of
acknowledgements, and whole runs; `MailboxMeaning` says what each operation stores, answers and
shows; `MailboxStore` has the methods. `Pollers` interleaves any number of polls between each status
read and each create-if-absent write, and `LonePoll` ties these micro-steps to the poll as a whole.

**Closing a lane.** `Closeout` models Git as a commit graph with maps of storing and symbolic refs and
Git's order for resolving a short name, and says when deleting a branch loses no commit. `CloseoutMeaning` says
when a closeout is accepted, in terms of commits.

**Compact algorithms.** `JsonPointer` and `PointerHints` (resolution and its inverse enumeration),
`PointerStandard` (RFC 6901 beside it), `Verification` and `VerificationMeaning` (the gate on a
judge's report), `DocSpine` (parent chains and the cycle check), `CanaryQueue` and `CanaryRuns` (the
one-worker bounded queue at its await points, with asyncio's order of waking), `ContextPacket`,
`PacketMeaning` and `JsonText` (deduplicate, sort, pack, and the JSON that is measured). `Text`,
`Ordering` and `Wrappers` are shared helpers.

Code that changes things step by step is a class or a method with loops, proved equal to a
specification function; the theorems are about those functions. For each main operation one of
them says its outcome in the records' own fields, without the functions that compute it.

## Where the code and its promises differ

Each entry names the input and the exact condition under which the code does what it promises.

- `_upsert_session_claim` refreshes a completed claim although another agent holds its path
  (`ClaimExamples.UpsertCanBreakExclusion`); it is safe exactly when the slot expires at once or the
  request is clear of every other holder (`ClaimProtocol.UpsertKeepsExclusionExactly`).
- Hand-off and resume check a lane's status before taking the lock and not again under it: a lane
  completed in between is revived although another agent holds its path by then
  (`ClaimExamples.LateHandOffCanBreakExclusion`). They are safe exactly when the record found under the
  lock has expired or is clear of every other holder (`ClaimProtocol.LateEditKeepsExclusionExactly`),
  and legal steps exactly while it is still held (`ClaimProtocol.LateEditIsLegalExactly`).
- "Exactly one root" for a live cohort fails after a create whose file name collides with the root's
  (`ClaimExamples.CreateCanRemoveTheRoot`, `ClaimProtocol.CohortAfterCreateExactly`).
- A claimed path `.` or an absolute path means one thing to the overlap test and another to the gate
  (`Paths.HazardWitness`, `Paths.CoverageShowsExactlyWithoutHazard`), and a path such as `./ a` is
  stored in a form that is read back as another (`Paths.SpacedPathIsNotCanonical`,
  `Paths.StoredPathIsCanonicalExactly`).
- The recovery ref "must be independent of the local task branch", but only two spellings of the
  branch are compared: another spelling or a symbolic ref passes (`Closeout.AliasLosesHistory`,
  `Closeout.SymbolicAliasDangles`). A dangling `origin/HEAD` lets a branch be merged into itself
  (`Closeout.DanglingDefaultLosesHistory`). A caller is safe when the name stands for a stored ref
  other than the branch (`Closeout.KeeperKeepsHistory`); any deletion keeps history exactly when
  another ref contains the tip (`Closeout.DeletionKeepsHistoryExactly`).
- The pointer resolver is documented as RFC 6901 and accepts more: no leading slash, a `~` that
  escapes nothing, leading zeros, digits of other scripts (`PointerStandard.LaxKeysResolve`,
  `PointerStandard.LaxIndicesResolve`; exactly: `PointerStandard.RfcExactly`).
- A prune that stops between archiving a claim and recording its removal leaves an archive the loader
  rejects (`ClaimPrune.PruneStore.DieAfterFirstRemoval`; exactly:
  `ClaimArchive.StoppedPruneLoadsExactly`). Stopped before that file is removed, a rerun mends it;
  stopped between the removal and its receipt, the file is gone and no rerun records it.
- At the very instant of expiry a message can be seen expired and acknowledged afterwards
  (`MailboxRuns.ExpiryInstantIsReversible`). Seen expired any later it stays expired
  (`MailboxRuns.ExpiredStaysExpired`); between two given stores, exactly when no timely acknowledgement
  arrives (`Mailbox.ExpiryIsFinalExactly`).
- A submitter woken for a free slot while the queue closes can end up behind the stop, unanswered
  (`CanaryRuns.StrandingIsReachable`; exactly: `CanaryRuns.CloseAnswersAllExactly`).

## Assumptions

- SHA-256 is free of collisions: in full for registries, and in its first 32 hexadecimal digits for
  the mailbox's identifiers. File names and contents of claims hold no NUL, and neither do session
  and message identifiers where a theorem says so; lemmas show what a NUL breaks.
- What a claim writer leaves on disk reads back as the record it meant. Theorems on runs ask this of
  each write in the run (`ClaimRuns.ReadsBack`); the store derives it from a writer that is faithful
  on records in normal form (`ClaimWriter.Faithful`, `ClaimWriter.Storable`), which runs keep
  (`ClaimWriter.RunKeepsStorable`).
- Each critical section under the registry lock is atomic, and so is each create-if-absent write.
- Before the lock the source reads the record in `resume_session`, `finish_session`,
  `handoff_session`, `abandon_session` and `close_session`. The registry may change in between:
  `close_session` writes back the record it read (`ClaimStore.Store.WriteBack`), the others amend the
  record they find under the lock (`ClaimStore.Store.ApplyUpdates`). Resume and hand-off are steps of a
  run as long as that record is still held. The clock reading and the write of an acknowledgement are
  one atomic step.

## Model

| member | source | states |
|---|---|---|
| `ClaimRuns.NoTwoAgentsAllowed` | enforced_planning/prewrite_claim_fast.py:498-537 | In no state reachable by any run of registry writes, refreshes, crashes and time does the enforcing gate allow two different agents to write one path of one repository, provided paths sit only on plain write claims and each repository has one project name |
| `ClaimRuns.NoTwoAgentsFromEmpty` | enforced_planning/prewrite_claim_fast.py:498-537 | From an empty registry the same holds of every run of disciplined writes, with nothing assumed of the start |
| `ClaimRuns.AllowedIsUncontested` | enforced_planning/prewrite_claim_fast.py:498-537 | A target the gate allows is covered by no unexpired claim, live or session-ended, of another agent in that repository |
| `ClaimRuns.LaterAllowMeansFirstIsGone` | enforced_planning/prewrite_claim_fast.py:498-537 | At two points of one run the gate allows two agents one path only if, by the second, the claim that carried the first allow has been removed or ended, has expired, or no longer covers the path |
| `GateExamples.TurnsCanChange` | enforced_planning/prewrite_claim_fast.py:498-537 | And then it can: in a run in which the first of two lanes, conflicting or not, is released and the second admitted, both are allowed in turn |
| `GateExamples.EachProvisoIsNeeded` | enforced_planning/prewrite_claim_fast.py:374-378 | Each of those provisos is needed: with a program claim, a second project name or the path `.`, a legal run from the empty registry ends with the enforcing gate allowing both agents to write one path |
| `Paths.StoredPathIsCanonicalExactly` | enforced_planning/coordination_claims.py:983-988 | The form the registry stores for any text is a fixed point of both normalisations if and only if it neither begins nor ends with a space |
| `Paths.SpacedPathIsNotCanonical` | enforced_planning/coordination_claims.py:983-988 | It can fail: `./ a` is stored with its space, and that form reads back as `a` |
| `PathMeaning.NormKeepsPlace` | enforced_planning/coordination_claims.py:983-988 | From wherever it is read, a path and its normal form lead to the same place |
| `Text.SpacesExactly` | enforced_planning/coordination_claims.py:985-985 | What stripping removes are Python's 29 white-space characters |
| `PathMeaning.SlashesExactly` | enforced_planning/coordination_claims.py:983-988 | The empty path is the place itself, two leading slashes are kept, and any other number counts as one |
| `Paths.OverlapMeaning` | enforced_planning/coordination_claims.py:996-1000 | Two stored paths overlap exactly when the components of one are a prefix of the components of the other |
| `Paths.ClaimedMeaning` | enforced_planning/prewrite_claim_fast.py:374-378 | A relative stored path covers exactly the targets below it, component by component; a shared text prefix is not enough |
| `Paths.CoveringPathsOverlap` | enforced_planning/coordination_claims.py:996-1000 | Two relative stored paths that cover a common target overlap: the gate's test and the registry's test fit together |
| `Paths.CoverageShowsExactlyWithoutHazard` | enforced_planning/prewrite_claim_fast.py:374-378 | For any stored path, sharing a target with another relative path always shows as an overlap if and only if the path is neither `.` nor an absolute path the gate would strip to a relative one |
| `Paths.HazardWitness` | enforced_planning/prewrite_claim_fast.py:374-378 | Every excluded path has a concrete lane and target that both sides admit and no overlap test reports |
| `Claims.HardConflictsAreConflicts` | enforced_planning/coordination_claims.py:1200-1283 | The hard conflicts an evaluation reports are exactly the active write claims of other agents that share a project and a path with the candidate |
| `Claims.ConflictIsSymmetric` | enforced_planning/coordination_claims.py:1003-1010 | Conflict does not depend on which of the two claims is evaluated |
| `Claims.ConflictIsFound` | enforced_planning/coordination_claims.py:596-622 | Any unexpired held claim in conflict with a candidate is reported: a live one as a path conflict, a session-ended one as a preserved lane |
| `Claims.AdmittedHasNoConflict` | enforced_planning/coordination_claims.py:1445-1469 | An admitted candidate conflicts with no unexpired claim, live or session-ended, of another agent |
| `Claims.AdmittedCohortHasOneRoot` | enforced_planning/coordination_claims.py:453-548 | An admitted candidate's cohort of two or more, with the candidate counted in, has exactly one unparented program claim |
| `Claims.SessionlessIsBlocked` | enforced_planning/coordination_claims.py:796-819 | A live claim that names no session is refused at creation |
| `Admission.VerdictExactly` | enforced_planning/coordination_claims.py:1438-1469 | Creation refuses for exactly these reasons, in this order, each said of the records' own fields: incomplete metadata, a preserved slot, a preserved lane of the plan or on a path, a hierarchy that does not fit, a second root of the session, a rival on a path; and admits everything else |
| `Admission.MetadataExactly` | enforced_planning/coordination_claims.py:361-396 | A live claim is blocked for its metadata exactly when it lacks a project, a write claim's paths, its branch, worktree, session or session name, or the work-unit fields a current plan-bound claim with paths needs |
| `Admission.IdleExactly` | enforced_planning/coordination_claims.py:361-368 | A claim that is not live is healthy exactly with a project and, for a write claim, paths |
| `Admission.FitsPlanExactly` | enforced_planning/coordination_claims.py:453-548 | A numbered plan's lane fits exactly when a named parent is the one trusted program claim under that scope, and beside other lanes it is the only root or names the only root |
| `Admission.AdmittedChildHasItsParent` | enforced_planning/coordination_claims.py:474-497 | An admitted child has exactly one working lane under the scope it names: a healthy program claim with a session, of its project and plan |
| `Admission.AdmittedLaneNamesTheRoot` | enforced_planning/coordination_claims.py:499-523 | Beside a root of its plan an admitted lane names that root's scope as its parent |
| `Admission.SeverityExactly` | enforced_planning/coordination_claims.py:1200-1283 | An evaluation looks at the active claims of other agents that share a project, and finds overlapping write claims a hard conflict, a write and a review claim a soft overlap, and anything else only of note |
| `Admission.FileNameExactly` | enforced_planning/coordination_claims.py:1167-1173 | A claim's file is named after its agent, project and scope, with slashes and spaces as underscores and none at the ends of each |
| `ClaimProtocol.WriteKeepsExclusionExactly` | enforced_planning/coordination_claims.py:1445-1469 | Writing a held, unexpired record into an exclusive registry keeps it exclusive if and only if the record conflicts with no other holder |
| `ClaimProtocol.StepKeepsExclusion` | enforced_planning/coordination_claims.py:1445-1469 | Every durable registry write - create, heartbeat, hydrate, end, resume, hand-off, finish, close, abandon, release, prune, complete, and upsert under its guard - keeps all unexpired live and session-ended claims free of conflicts |
| `ClaimProtocol.ExclusionOutlivesTime` | enforced_planning/coordination_claims.py:1126-1149 | Time passing never creates a conflict |
| `ClaimProtocol.SweepUpdates` | enforced_planning/coordination_claims.py:1539-1663 | A heartbeat, a hydration, a session end and a plan completion each rewrite a claim without moving its identity, its paths or its type, and never revive a released one |
| `ClaimOperations.EndPreserves` | enforced_planning/coordination_claims.py:1611-1663 | Ending a session makes each live claim of that agent and session session-ended, otherwise as it was, and leaves every other claim alone |
| `ClaimOperations.EndedIsStillHeld` | enforced_planning/coordination_claims.py:1611-1663 | A lane ended so is still held, against the same rivals, and none of that agent and session stays live |
| `ClaimOperations.PlanCompletes` | enforced_planning/coordination_claims.py:1691-1749 | Completing a plan completes each live claim of that project and plan text, otherwise as it was, and leaves every other claim alone |
| `ClaimOperations.HeartbeatStamps` | enforced_planning/coordination_claims.py:1539-1608 | A heartbeat gives its session and stamp to the asked lanes that have that session or, unless exact, none, and leaves every other claim alone |
| `ClaimOperations.HydrationFills` | enforced_planning/coordination_claims.py:1484-1537 | A hydration gives its session and stamp to the asked lanes without a session, and leaves every other claim alone |
| `ClaimOperations.ResolvedExactly` | enforced_planning/coordination_claims.py:1549-1553 | A heartbeat, a hydration and a session end are refused exactly without a session; a plan completion never is |
| `ClaimOperations.ResumeExactly` | enforced_planning/session_lifecycle.py:1543-1590 | A resume is accepted exactly for a live or session-ended record with a plan, its own branch and worktree, and a session, and leaves it active under that session, stamped, and otherwise as it was |
| `ClaimOperations.HandOffExactly` | enforced_planning/session_lifecycle.py:1611-1637 | A hand-off is accepted exactly when one live, unexpired claim of the lane exists, and leaves the record of its file handed off and otherwise as it was |
| `ClaimOperations.FinishExactly` | enforced_planning/session_lifecycle.py:1286-1354 | A clean finish and an abandonment are accepted under the same condition, and leave the lane completed or abandoned |
| `ClaimOperations.CloseExactly` | enforced_planning/session_lifecycle.py:1433-1510 | Closing takes the record whatever its status, and leaves it closing first and completed at the end |
| `ClaimOperations.AmendedExactly` | enforced_planning/session_lifecycle.py:307-336 | What each edit changes in the record it finds under the lock: its status, and for a resume its session and heartbeat |
| `ClaimOperations.UpsertExactly` | enforced_planning/session_lifecycle.py:396-493 | An upsert is accepted exactly for the slot's own agent and session, or its agent while no session holds it, with a fitting hierarchy, no second root and complete metadata; what it writes, field by field |
| `ClaimProtocol.EditUpdates` | enforced_planning/session_lifecycle.py:1543-1695 | When nothing is written between the checks and the lock, resume, hand-off, finish, abandon and both writes of close rewrite the one claim they looked up; only a held claim can be held afterwards |
| `ClaimProtocol.EndingNeedsNoLock` | enforced_planning/session_lifecycle.py:1357-1540 | The writes of close, and any other ending, are legal steps even when the record they write back was read, before the lock, from an older registry |
| `ClaimProtocol.LateEditIsLegalExactly` | enforced_planning/session_lifecycle.py:307-336 | An edit that amends the record found under the lock is a legal step if and only if it ends the lane or that record is still held |
| `ClaimProtocol.LateEditKeepsExclusionExactly` | enforced_planning/session_lifecycle.py:307-336 | Whatever was written since its checks, a lifecycle edit keeps exclusion if and only if it ends the lane, the record found under the lock has expired, or that record conflicts with no holder in another file |
| `ClaimExamples.LateHandOffCanBreakExclusion` | enforced_planning/session_lifecycle.py:1611-1643 | The code does not check the status again: a hand-off checked while its lane was live, after which the lane is completed and its path granted to another agent, revives the lane and two agents hold one path |
| `ClaimProtocol.UpsertIsGuarded` | enforced_planning/session_lifecycle.py:339-507 | An upsert over a held claim that keeps its type and project and adds no path is a step that keeps exclusion |
| `ClaimProtocol.UpsertKeepsExclusionExactly` | enforced_planning/session_lifecycle.py:396-493 | Without that guard, an accepted upsert keeps exclusion if and only if the slot's expiry, or its absence with the time to live, makes it expire at once, or the request conflicts with no holder in another file |
| `ClaimExamples.UpsertCanBreakExclusion` | enforced_planning/session_lifecycle.py:396-493 | The code does not check that: after a legal history from the empty registry - admit, complete, admit the other agent - an accepted upsert of the completed claim takes back the path the other agent now holds |
| `ClaimProtocol.SecondRootIsRefused` | enforced_planning/coordination_claims.py:453-548 | A live plan root is refused while its plan has another unexpired root, live or preserved |
| `ClaimProtocol.StepKeepsOneRoot` | enforced_planning/coordination_claims.py:596-613 | Every step but upsert keeps at most one unparented program claim for each project and plan |
| `ClaimProtocol.StepKeepsFiled` | enforced_planning/coordination_claims.py:1167-1173 | Every step keeps each claim in the file its agent, project and scope name |
| `ClaimProtocol.CohortAfterCreateExactly` | enforced_planning/coordination_claims.py:1446-1450 | Right after a create, a live cohort of two or more containing the candidate has exactly one root if and only if the write did not replace the root's own file under another identity |
| `ClaimProtocol.ScopesCanShareAFile` | enforced_planning/coordination_claims.py:1167-1173 | Two scopes that differ in `/` against `_` share one claim file |
| `ClaimExamples.CreateCanRemoveTheRoot` | enforced_planning/coordination_claims.py:1446-1450 | So that exception does occur: three admitted creates of one agent end with a live cohort that has no root |
| `RegistryDigest.StreamInjective` | enforced_planning/prewrite_claim_fast.py:65-76 | The hashed stream of names, bytes and NULs determines the files, when none of them holds a NUL |
| `RegistryDigest.DigestInjective` | enforced_planning/prewrite_claim_fast.py:65-76 | Equal registry digests mean byte-for-byte equal registries, and conversely |
| `RegistryDigest.NulBreaksDigest` | enforced_planning/prewrite_claim_fast.py:65-76 | With a NUL in a file, two different registries feed the hash the same bytes |
| `RegistryDigest.HashRegistry` | enforced_planning/prewrite_claim_fast.py:65-76 | The hashing loop computes the digest of the files in name order |
| `PrewriteGate.CandidatesAreExact` | enforced_planning/prewrite_claim_projection.py:71-155 | The candidates the gate reads from a projection are the live, unexpired claims of the registry it was built from, for that agent, session, worktree, repository and branch |
| `PrewriteGate.GateAllowsExactly` | enforced_planning/prewrite_claim_fast.py:433-552 | An enforcing gate allows if and only if the files are the ones projected, exactly one claim matches, it was healthy when projected and still is, and every target lies under its paths |
| `PrewriteGate.ObserveMirrorsEnforce` | enforced_planning/prewrite_claim_fast.py:463-552 | Observing decides as enforcing does and for the same reason but never denies; switched off, the gate allows |
| `PrewriteGate.AllowedWriteIsOwned` | enforced_planning/prewrite_claim_fast.py:498-537 | An allow decided at a later time than the projection still means: the registry now holds exactly one live, unexpired claim for that lane, and it covers every target |
| `GateMeaning.CandidatesAreOwnLanes` | enforced_planning/prewrite_claim_fast.py:498-512 | The gate considers exactly the live, unexpired claims whose agent, session, worktree, repository and branch are the request's |
| `GateMeaning.AllowMeansOneOwner` | enforced_planning/prewrite_claim_fast.py:498-537 | An enforcing allow means the current registry has exactly one such claim, with a heartbeat within the window, agreed by the disk, and with a path over every target |
| `GateMeaning.EnforcedExactly` | enforced_planning/prewrite_claim_fast.py:476-537 | The reason given is exactly: stale when the files changed, no claim when no lane has those fields, ambiguous when two have, unhealthy or outside when the one has lost its health or leaves a target uncovered; only the last case allows |
| `PrewriteGate.SharedTargetConflicts` | enforced_planning/coordination_claims.py:1003-1010 | Two disciplined claims of different agents that cover one target are in conflict |
| `PrewriteGate.Gate.Evaluate` | enforced_planning/prewrite_claim_fast.py:433-552 | One evaluation returns the specified decision and appends exactly that decision to the receipts |
| `PrewriteGate.Gate.Choose` | enforced_planning/prewrite_claim_fast.py:498-537 | With a current projection, the candidate, health and coverage tests together decide as specified |
| `PrewriteGate.Gate.Covers` | enforced_planning/prewrite_claim_fast.py:374-378 | A target is covered when some claimed path covers it |
| `PrewriteGate.Gate.Outside` | enforced_planning/prewrite_claim_fast.py:527-532 | The targets reported outside are exactly those no path of the claim covers |
| `ClaimRuns.RunKeepsSound` | enforced_planning/coordination_claims.py:1445-1470 | From a sound world every run keeps the registry exclusive, and every stored projection is one that was really built, earlier, from some registry |
| `ClaimRuns.RunKeepsOneRoot` | enforced_planning/coordination_claims.py:453-548 | From an empty registry, every run without upserts that admits only live claims keeps at most one root for each plan |
| `ClaimRuns.AllowedInRun` | enforced_planning/prewrite_claim_fast.py:476-537 | In any reachable state, an enforcing allow comes from a projection bound to the registry as it stands, through the one live, unexpired claim with the request's agent, session, worktree, repository and branch |
| `ClaimRuns.ChangedRegistryDenies` | enforced_planning/prewrite_claim_fast.py:476-496 | Once the files differ from those the projection was built from, the enforcing gate denies as stale |
| `ClaimRuns.InterruptedWritesDeny` | enforced_planning/prewrite_claim_fast.py:218-245 | After a refresh, any run of writes cut off before the next refresh is denied as stale if and only if the files differ from those refreshed |
| `ClaimRuns.RefreshBinds` | enforced_planning/prewrite_claim_projection.py:158-191 | A refresh that builds leaves the stored digest equal to the registry's, and one that does not changes nothing; it builds exactly when every file holds a claim, or a mapping that is not live or has expired |
| `ClaimRuns.RunKeepsDiscipline` | enforced_planning/coordination_claims.py:1358-1481 | If every admitted or upserted claim is disciplined, so is every claim held in any reachable state |
| `ClaimWriter.RunKeepsStorable` | enforced_planning/coordination_claims.py:1026-1123 | If every record written whole is in normal form, so is every record any run leaves, and each reads back as itself when written whole |
| `ClaimStore.Store.CreateClaim` | enforced_planning/coordination_claims.py:1358-1481 | For any candidate, creation refuses exactly what the admission verdict refuses, changes nothing then, and otherwise adds exactly its own file; a normal return leaves the projection current, and a candidate in normal form leaves the store as a legal run does |
| `ClaimStore.Store.CheckCandidate` | enforced_planning/coordination_claims.py:1438-1468 | The creation tests over the files agree with the admission verdict on the registry, refusal by refusal |
| `ClaimStore.Store.SweepClaims` | enforced_planning/coordination_claims.py:1539-1749 | A sweep rewrites exactly the selected live claims and no other file, refuses an unresolved session, and leaves the projection current when it returns normally after a change |
| `ClaimStore.Store.ReleaseClaim` | enforced_planning/coordination_claims.py:1666-1688 | A release removes exactly the named file and leaves the projection current |
| `ClaimStore.Store.PruneExpired` | enforced_planning/coordination_claims.py:1752-1783 | Pruning removes exactly the claim files past their expiry and leaves the projection current |
| `ClaimStore.Store.Prune` | enforced_planning/coordination_claims.py:1786-1823 | Pruning on any verdict about a file removes exactly the files it condemns |
| `ClaimStore.Store.EditSession` | enforced_planning/session_lifecycle.py:1543-1695 | With nothing written between its checks and its lock, a lifecycle command writes exactly the edited record to the lane's own file, or changes nothing when it refuses |
| `ClaimStore.Store.ApplyUpdates` | enforced_planning/session_lifecycle.py:307-336 | Whatever the checks saw, the step under the lock amends exactly the record it finds, or refuses when there is none; while that record is held, or the edit ends it, the store stays as a legal run leaves it |
| `ClaimStore.Store.UpsertSession` | enforced_planning/session_lifecycle.py:339-507 | For any request, an upsert of an empty slot is a create; otherwise it refuses exactly what the upsert rules refuse and writes exactly the refreshed record; a request in normal form within the guard leaves the store as a legal run does |
| `ClaimStore.Store.WriteBack` | enforced_planning/session_lifecycle.py:1357-1540 | Writing back a record read before the lock, as closing does, replaces exactly its own file with the ended record, whatever was written in between |
| `ClaimStore.Store.RefreshProjection` | enforced_planning/coordination_claims.py:173-183 | A refresh replaces the projection by the one built from the present files, or raises and leaves the old one |
| `ClaimStore.Store.BuildClaims` | enforced_planning/prewrite_claim_projection.py:71-155 | The projection loop keeps exactly the live, unexpired claims and fails exactly on a file it cannot project |
| `ClaimStore.Store.LoadClaims` | enforced_planning/coordination_claims.py:1126-1149 | Loading yields exactly the unexpired readable claims |
| `ClaimPrune.PruneStore.PruneCompleted` | enforced_planning/coordination_claims.py:1826-1942 | Wherever the process dies, every removed file was completed and has its exact bytes in the ledger, and every other file is as it was or as the editor's applied overwrites left it; the numbers archived, removed and recorded follow exactly from the writes that happened; and what it leaves loads if and only if all that is archived is recorded and read alike |
| `ClaimArchive.CollectedAreCompleted` | enforced_planning/coordination_claims.py:1847-1887 | The candidates are exactly the completed claims, each with its exact bytes, none twice |
| `ClaimPrune.PruneStore.CollectCandidates` | enforced_planning/coordination_claims.py:1847-1887 | The scan returns the specified candidates or stops at the first file it cannot archive |
| `ClaimPrune.PruneStore.ArchiveAll` | enforced_planning/coordination_claims.py:1889-1897 | The archive phase appends the receipts in order, up to a crash or a refused receipt |
| `ClaimPrune.PruneStore.SourcesUnchanged` | enforced_planning/coordination_claims.py:1899-1914 | The re-check passes exactly when every candidate file still has the bytes that were archived |
| `ClaimPrune.PruneStore.RemoveAll` | enforced_planning/coordination_claims.py:1916-1940 | Each removal is of an archived, unchanged, completed file, is followed by a refresh and its prune receipt, and leaves the projection bound to the files that remain |
| `ClaimPrune.PruneStore.DieAfterFirstRemoval` | enforced_planning/coordination_claims.py:1916-1940 | A process that dies right after its first removal leaves a ledger that does not load |
| `ClaimPrune.PruneStore.AppendArchive` | enforced_planning/claim_mutation_receipts.py:521-561 | Appending is idempotent for one payload, an error for two payloads of one id, and otherwise adds one line |
| `ClaimPrune.PruneStore.ParseArchive` | enforced_planning/claim_mutation_receipts.py:488-518 | Reading keeps one record for each archive id and rejects two that disagree |
| `ClaimArchive.ParseKeepsIds` | enforced_planning/claim_mutation_receipts.py:488-518 | A ledger that parses has its ids once each, the same ids as its lines, and every line agrees with the record kept |
| `ClaimArchive.AppendKeepsIdsUnique` | enforced_planning/claim_mutation_receipts.py:521-561 | Appending never leaves two records with one archive id |
| `ClaimArchive.ReplayChangesNothing` | enforced_planning/claim_mutation_receipts.py:521-561 | Appending the same source again, at any time, leaves the ledger unchanged |
| `ClaimArchive.AppendAllArchives` | enforced_planning/coordination_claims.py:1889-1897 | After the archive phase every receipt's payload is in the ledger |
| `ClaimArchive.RerunArchivesOnce` | enforced_planning/coordination_claims.py:1889-1940 | A prune stopped while archiving and rerun to the end adds exactly one record for each candidate |
| `ClaimArchive.RerunLoadsExactly` | enforced_planning/claim_mutation_receipts.py:564-646 | After such a rerun the loader accepts the ledger if and only if the registry's and the archive's readings of every pruned file name the same project, scope and session |
| `ClaimArchive.StoppedPruneLoadsExactly` | enforced_planning/claim_mutation_receipts.py:564-646 | Wherever a prune of new claims stops, the loader accepts what it leaves if and only if every archived record has its prune receipt and both readings of each of those files agree |
| `ClaimArchive.LostReceiptNeverLoads` | enforced_planning/claim_mutation_receipts.py:564-621 | A ledger with a live record that no prune receipt names does not load |
| `ArchiveMeaning.ScanExactly` | enforced_planning/coordination_claims.py:1847-1887 | A claim file stops the scan when the registry cannot read it, or it is completed and the archive cannot; it is taken when completed, with its bytes, both readings and a transaction named after path and hash |
| `ArchiveMeaning.CollectedExactly` | enforced_planning/coordination_claims.py:1847-1887 | A scan fails exactly at such a file, and otherwise takes the completed claims in the order of their names |
| `ArchiveMeaning.AppendExactly` | enforced_planning/claim_mutation_receipts.py:521-561 | Appending fails exactly on a ledger whose lines of one id disagree or that disagrees with the record, repeats nothing known, and otherwise adds one line |
| `ArchiveMeaning.LoadsExactly` | enforced_planning/claim_mutation_receipts.py:564-646 | The loader accepts exactly a ledger whose lines of one id agree and each of whose records has one prune receipt, applied, of the same project, scope, path and session |
| `ArchiveMeaning.PruneEventExactly` | enforced_planning/coordination_claims.py:1927-1939 | The receipt of a removal is an applied prune of its file, for the registry's reading, under the archive's transaction |
| `Mailbox.StableIdInjective` | enforced_planning/coordination_messages.py:481-485 | Stable identifiers, cut to 32 hexadecimal digits and taken to be free of collisions at that length, are equal exactly when their parts are, when every part but the last is free of NUL |
| `Mailbox.NulBreaksStableId` | enforced_planning/coordination_messages.py:658 | A NUL in a session lets two different deliveries share one identifier |
| `Mailbox.LifecycleNeverMovesBack` | enforced_planning/coordination_messages.py:907-943 | Over a growing store and an advancing clock no evidence is lost and the unexpired stage never moves back |
| `Mailbox.AnsweredInTimeNeverExpires` | enforced_planning/coordination_messages.py:918-920 | A message acknowledged by its expiry is never expired, in any later store or at any time |
| `Mailbox.ExpiryIsFinalExactly` | enforced_planning/coordination_messages.py:918-920 | A message seen expired is expired later if and only if no acknowledgement stamped by its expiry arrives in between |
| `Mailbox.RetryReplaysOrRefuses` | enforced_planning/coordination_messages.py:778-819 | A repeated idempotency key replays the first message for the same request, errors for another, and changes nothing either way |
| `MailboxMeaning.SendExactly` | enforced_planning/coordination_messages.py:758-819 | Each outcome of a send, in order: identity mismatch, unknown session, replay or collision of an identifier in use, or exactly this message stored |
| `Mailbox.SendStoresOwnMessage` | enforced_planning/coordination_messages.py:606-621 | A successful send returns a message of the caller's own request, stored under its own identifier for the routed recipient with its time to live; a failed one stores nothing |
| `Mailbox.KeysAreScopedToSender` | enforced_planning/coordination_messages.py:783-783 | Two keyed sends share an identifier exactly when sender and key agree |
| `Mailbox.SecondAnswerReplaysOrRefuses` | enforced_planning/coordination_messages.py:623-639 | After an acknowledgement, the same answer replays the first receipt and a different one is refused; nothing is rewritten |
| `Mailbox.AnswerTakesEffect` | enforced_planning/coordination_messages.py:1002-1047 | Only the recipient can acknowledge; from its stamp on the message counts as acknowledged, and one answered by its expiry never expires |
| `MailboxMeaning.AcknowledgeExactly` | enforced_planning/coordination_messages.py:1002-1047 | Each outcome of an acknowledgement, in order: unknown session, missing message, wrong recipient, exactly this receipt stored, the first one replayed, or a collision |
| `MailboxMeaning.StatusExactly` | enforced_planning/coordination_messages.py:907-943 | A status tells the evidence recorded by the asked time, the receipts themselves, and the furthest stage they support unless the message is past its expiry without a timely acknowledgement |
| `Mailbox.ClaimIsExact` | enforced_planning/coordination_messages.py:641-680 | A delivery claim wins the first time for its message, session and event, loses ever after, and never collides |
| `Mailbox.ClaimsAreIndependent` | enforced_planning/coordination_messages.py:658 | Claiming one message, session and event leaves every other triple unclaimed |
| `MailboxMeaning.ClaimExactly` | enforced_planning/coordination_messages.py:641-680 | A claim creates exactly the marker of its message, session and event, or is lost to one that is there and says the same |
| `MailboxPolling.PollIsExact` | enforced_planning/coordination_messages.py:945-1000 | A poll shows and suppresses, in creation order, exactly the messages the store it began with calls for |
| `MailboxPolling.EventDisplaysOnce` | enforced_planning/coordination_messages.py:976-986 | A message shown unacknowledged is shown again for the same event only once acknowledged |
| `MailboxPolling.ObservationIsExact` | enforced_planning/coordination_messages.py:821-833 | Recording an observation never collides and never adds or removes an acknowledgement |
| `MailboxPolling.PollOneIsExact` | enforced_planning/coordination_messages.py:969-992 | What happens to one polled message is decided by the store before it, and no other message is affected |
| `MailboxMeaning.PolledExactly` | enforced_planning/coordination_messages.py:963-986 | A message of the session and project asked for is passed over, suppressed or shown exactly by its expiry, its acknowledgement by now and the marker of the poll's event |
| `MailboxMeaning.PollLeavesExactly` | enforced_planning/coordination_messages.py:976-992 | Showing a message leaves its marker when it was claimed, one observation when the poll observes and nothing had noticed it, and nothing else |
| `MailboxMeaning.ReportedExactly` | enforced_planning/coordination_messages.py:963-1000 | A poll reports the views it shows, the observations it records and the messages it suppresses, each in the order it looks at them |
| `MailboxMeaning.ListedExactly` | enforced_planning/coordination_messages.py:741-747 | Messages are listed by creation and, created together, by identifier |
| `MailboxMeaning.ReceiptsListedExactly` | enforced_planning/coordination_messages.py:749-756 | Receipts are listed by recording and, recorded together, by identifier |
| `MailboxPolling.OrderedByCreation` | enforced_planning/coordination_messages.py:741-747 | Each stored message is listed once, in order of creation |
| `MailboxPolling.ReceiptsByRecording` | enforced_planning/coordination_messages.py:749-756 | The receipts of a message are listed in order of recording |
| `MailboxPolling.ShownIsObserved` | enforced_planning/coordination_messages.py:987-991 | A poll that observes leaves every unexpired message it shows observed, unless an observation stamped later is already on file |
| `MailboxDrain.LatestAnswerIsLast` | enforced_planning/coordination_messages.py:708-712 | The acknowledgement surfaced is the last one listed, and there is none exactly when none is listed |
| `MailboxMeaning.NoticeExactly` | enforced_planning/coordination_messages.py:698-726 | A drain has a notice for exactly the session's own messages, of the project asked for, that have been acknowledged by now; it is named after the last acknowledgement |
| `MailboxMeaning.SurfacedAreDue` | enforced_planning/coordination_messages.py:698-731 | What a drain surfaces are such messages only |
| `MailboxMeaning.FailedDrainIsSilent` | enforced_planning/coordination_messages.py:698-731 | A drain that meets a colliding marker surfaces nothing |
| `MailboxDrain.DrainSurfacesEachOnce` | enforced_planning/coordination_messages.py:682-731 | Repeated consuming calls with limit k over a fixed store surface every acknowledgement due to the sender exactly once, in order, in exactly the rounded-up number of non-empty calls |
| `MailboxDrain.DrainIsExact` | enforced_planning/coordination_messages.py:698-731 | One call surfaces the first waiting acknowledgements up to its limit, marks exactly those, and leaves exactly the others waiting |
| `MailboxDrain.PeekIsExact` | enforced_planning/coordination_messages.py:721-727 | Without consuming, a call surfaces the same acknowledgements and changes nothing |
| `MailboxDrain.DrainServesAgenda` | enforced_planning/coordination_messages.py:698-731 | Walking the messages with create-if-absent markers is serving the agenda of notices in order |
| `MailboxDrain.ServeIsExact` | enforced_planning/coordination_messages.py:698-731 | Serving takes a prefix of what waits and leaves exactly the rest |
| `MailboxDrain.ServeMarksExactly` | enforced_planning/coordination_messages.py:713-719 | A marker appears exactly for each acknowledgement served |
| `MailboxDrain.BatchesCover` | enforced_planning/coordination_messages.py:729-730 | Batches of k cover the waiting list once, and only the first ceil(n/k) are non-empty |
| `MailboxDrain.CallsAreBatches` | enforced_planning/coordination_messages.py:698-731 | Successive calls return successive batches of what was waiting at the start |
| `MailboxDrain.RoundsIsCeiling` | enforced_planning/coordination_messages.py:729-730 | The number of non-empty calls is n divided by k, rounded up |
| `MailboxRuns.RecordsAreWriteOnce` | enforced_planning/coordination_messages.py:585-604 | Whatever operations run, every stored message, receipt and marker stays as first written |
| `MailboxRuns.ExpiredStaysExpired` | enforced_planning/coordination_messages.py:918-920 | A message seen expired strictly after its expiry stays expired for the rest of any run under a clock that never runs back, even if acknowledged late |
| `MailboxRuns.ExpiryInstantIsReversible` | enforced_planning/coordination_messages.py:918-920 | At the very instant of expiry that fails: an acknowledgement stamped then turns an expired message into an acknowledged one |
| `MailboxRuns.RunNeverMovesBack` | enforced_planning/coordination_messages.py:907-943 | Over any run, evidence accumulates, the stage never moves back, and an answer in time prevents expiry for good |
| `MailboxRuns.RunKeepsFiled` | enforced_planning/coordination_messages.py:585-680 | Every run keeps each record filed under the identifier of what it evidences |
| `MailboxStore.MessageStore.WriteImmutable` | enforced_planning/coordination_messages.py:585-604 | Publishing succeeds exactly when the name is free, and never changes what a taken name holds |
| `MailboxStore.MessageStore.Scan` | enforced_planning/coordination_messages.py:914-920 | The scan of the receipts finds each class of evidence exactly when it is there |
| `MailboxStore.MessageStore.Status` | enforced_planning/coordination_messages.py:907-943 | The status loop derives the specified lifecycle from the receipts visible at the asked time |
| `MailboxStore.MessageStore.Poll` | enforced_planning/coordination_messages.py:945-1000 | The poll loop returns the specified inbox and leaves the specified store |
| `MailboxStore.MessageStore.PollSender` | enforced_planning/coordination_messages.py:682-731 | A zero limit is refused without a change; otherwise the drain loop returns and stores what draining the whole mailbox is specified to |
| `MailboxStore.MessageStore.AllMessages` | enforced_planning/coordination_messages.py:741-747 | Messages are listed by creation time, then identifier |
| `MailboxStore.ListedEvidence` | enforced_planning/coordination_messages.py:749-756 | The receipts listed for a message carry all the evidence about it, and whether an acknowledgement came in time |
| `Pollers.ShownAtMostOnce` | enforced_planning/coordination_messages.py:976-986 | For any number of pollers interleaved between their reads and their create-if-absent writes, a message whose receipts held no acknowledgement when read is displayed, by whatever route, at most once for one delivery event |
| `Pollers.OthersReportSuppressed` | enforced_planning/coordination_messages.py:980-986 | Every other finished poll of that event that found the message unacknowledged reports it suppressed, unless it leaves out expired messages and this one has expired |
| `Pollers.FinishedPollDisplays` | enforced_planning/coordination_messages.py:976-992 | A finished poll of an event has displayed, suppressed or rightly passed over every message it found unacknowledged |
| `Pollers.OnlyOwnMailIsShown` | enforced_planning/coordination_messages.py:963-969 | In every interleaving a poll displays and suppresses only messages addressed to its session and project |
| `Pollers.StepsInPlace` | enforced_planning/coordination_messages.py:969-992 | A micro-step changes its own poll and the store alone; any other operation changes the store as it does by itself |
| `LonePoll.LonePollIsPoll` | enforced_planning/coordination_messages.py:964-1000 | A poll run alone to its end, in any order its micro-steps allow, displays and suppresses the same messages in the same order, and leaves the same store, as the poll as a whole |
| `Pollers.SuppressionHasCause` | enforced_planning/coordination_messages.py:641-680 | A message is suppressed only because some poll claimed it for that very event, or its marker came from outside |
| `Pollers.AnotherEventShowsAgain` | enforced_planning/coordination_messages.py:641-656 | A claim wins exactly when no marker for that message, session and event is stored, so a different event may show it again |
| `Pollers.StepKeepsSound` | enforced_planning/coordination_messages.py:585-604 | Every micro-step of every poller, a crash, and any other mailbox operation keeps claims exclusive |
| `Pollers.ClaimOutcome` | enforced_planning/coordination_messages.py:674-680 | A claim is won only on an unmarked message, lost whenever it is marked, and leaves it marked |
| `Pollers.RunAccounts` | enforced_planning/coordination_messages.py:674-680 | In every run each marker is one some poll here claimed or one from outside |
| `Closeout.DeletionKeepsHistoryExactly` | enforced_planning/session_lifecycle.py:928-945 | Deleting a branch leaves every reachable commit reachable if and only if another ref contains its tip |
| `Closeout.MergedCloseoutKeepsHistory` | enforced_planning/session_lifecycle.py:779-836 | A merged closeout accepted by branch ancestry loses no commit, when the default ref it compares with stands for a stored ref other than the branch |
| `Closeout.MergedCloseoutIsPushed` | enforced_planning/session_lifecycle.py:783-792 | With a remote, the closed tip is contained in the remote's default branch |
| `CloseoutMeaning.MergedExactly` | enforced_planning/session_lifecycle.py:779-836 | A stored branch is accepted as merged exactly when its tip is reached from the remote default, or from the local default when there is no remote, or the merge commit's patch matches; the evidence is ancestry exactly in the first two cases; and which refusal otherwise |
| `CloseoutMeaning.UnmergedExactly` | enforced_planning/session_lifecycle.py:838-887 | A stored branch is accepted unmerged exactly when its tip is not in the default branch, a reason is given, and it is abandoned with leave to discard or another name leads to its tip |
| `CloseoutMeaning.UnmergedRefusals` | enforced_planning/session_lifecycle.py:838-865 | Which refusal an unmerged closeout meets, in order |
| `CloseoutMeaning.OtherwiseExactly` | enforced_planning/session_lifecycle.py:743-781 | Unsupported and open dispositions, a missing branch name, a missing default and the default itself are refused; a branch already gone is accepted |
| `CloseoutMeaning.DefaultExactly` | enforced_planning/session_lifecycle.py:771-776 | The default branch is where `origin/HEAD` points, without the remote's name, and otherwise a local `main` or `master` |
| `CloseoutMeaning.NamesInOrder` | enforced_planning/session_lifecycle.py:860-865 | A name is tried as it stands, then under Git's five prefixes in order, then as a revision expression |
| `CloseoutMeaning.SymbolicExactly` | enforced_planning/session_lifecycle.py:653-664 | A symbolic ref stands for the ref it ends at while that is stored, and for nothing once it dangles |
| `CloseoutMeaning.DeletionExactly` | enforced_planning/session_lifecycle.py:928-945 | A deleted name is gone, stored or symbolic, and every other name stands for what it did unless it ended there |
| `Closeout.KeeperKeepsHistory` | enforced_planning/session_lifecycle.py:860-865 | Any name that contains the branch and stands, through symbolic refs, for another stored ref keeps its commits |
| `Closeout.RecoveryCloseoutKeepsHistory` | enforced_planning/session_lifecycle.py:854-865 | A recovery closeout loses no commit when its recovery name stands for a stored ref other than the branch |
| `Closeout.AliasIsAccepted` | enforced_planning/session_lifecycle.py:860-865 | Any other name for the branch's own ref, a symbolic ref included, passes the independence check |
| `Closeout.AliasLosesHistory` | enforced_planning/session_lifecycle.py:860-865 | So `heads/x` is accepted as the recovery ref of `x`, and deleting the branch then loses its commits |
| `Closeout.SymbolicAliasDangles` | enforced_planning/session_lifecycle.py:860-865 | A symbolic ref to the branch contains its tip and is left dangling by the deletion |
| `Closeout.DanglingDefaultLosesHistory` | enforced_planning/session_lifecycle.py:779-792 | With `origin/HEAD` dangling, a branch named after the default's full ref is accepted as merged into itself and its commits are lost |
| `Closeout.DanglingDefaultIsAccepted` | enforced_planning/session_lifecycle.py:779-836 | Whenever the default branch is not stored but its name stands for the closing branch, a merged closeout is accepted |
| `Closeout.DiscardLosesExactly` | enforced_planning/session_lifecycle.py:848-853 | An authorised discard keeps history exactly when another ref contains the tip; it promises nothing more |
| `Closeout.Repository.CloseLane` | enforced_planning/session_lifecycle.py:1433-1496 | A refused closeout changes no ref; an accepted one deletes exactly its own branch, when asked and when Git lets it, and when provable loses no commit |
| `JsonPointer.UnescapeEscape` | llm_client/claim_verification.py:310-344 | Every key survives escaping and unescaping (section 3 of RFC 6901), and an escaped key holds no slash |
| `JsonPointer.ValueOfDecimal` | llm_client/claim_verification.py:312-315 | A list index survives being written and read |
| `JsonPointer.ResolvePointer` | llm_client/claim_verification.py:296-323 | The resolution loop follows the tokens one by one to the value they name, or fails at the first that names nothing |
| `JsonPointer.LeavesAreNamed` | llm_client/claim_verification.py:337-350 | The enumeration contains exactly the paths that name a scalar through member tokens |
| `JsonPointer.LeafResolves` | llm_client/claim_verification.py:310-323 | Following an enumerated path arrives at a scalar |
| `JsonPointer.ResolvedIsLeaf` | llm_client/claim_verification.py:310-350 | Whatever tokens resolve to a scalar are, spelled canonically, an enumerated path |
| `JsonPointer.LeavesDiffer` | llm_client/claim_verification.py:337-350 | No path is enumerated twice |
| `JsonPointer.StepDescends` | llm_client/claim_verification.py:311-321 | The token enumerated for a member resolves to exactly that member |
| `PointerHints.HintsResolve` | llm_client/claim_verification.py:326-353 | Every hint resolves to a scalar under the requested final token; hints are distinct and within the limit |
| `PointerHints.HintsAreComplete` | llm_client/claim_verification.py:326-353 | When fewer hints than the limit come back they are exactly the scalar leaves under that final token |
| `PointerHints.ResolvingPointerIsHinted` | llm_client/claim_verification.py:326-353 | Any pointer that resolves to a scalar under that final token is then among the hints, spelled canonically |
| `PointerStandard.RfcExactly` | llm_client/claim_verification.py:296-323 | RFC 6901 resolves a pointer as the code does if it is empty, or begins with a slash, escapes every `~` as `~0` or `~1`, and meets lists only with ASCII indices without leading zeros; it resolves no other, so an accepted pointer is standard exactly under that condition |
| `PointerStandard.LaxKeysResolve` | llm_client/claim_verification.py:308-310 | Outside it the code accepts a key without its slash, and a `~` that escapes nothing |
| `PointerStandard.LaxIndicesResolve` | llm_client/claim_verification.py:311-315 | And an index with leading zeros, or in the digits of another script |
| `PointerHints.TokensOfPointer` | llm_client/claim_verification.py:349-349 | A pointer joined from clean tokens splits back into them |
| `PointerHints.HintWalk.Walk` | llm_client/claim_verification.py:337-350 | The walk over the shared list adds, in document order and up to the limit, exactly the matching leaves below its value |
| `PointerHints.RepairHints` | llm_client/claim_verification.py:326-353 | The hints are the first matching leaves of the whole document |
| `Verification.AcceptedExactlyWhenWellFounded` | llm_client/claim_verification.py:415-524 | Under the blocking flag, with the unattributed tier below the accept threshold, a report is accepted if and only if every claim is judged acceptable, all it cites exists and resolves, and every computed support has a locator |
| `Verification.StatusNeverImproves` | llm_client/claim_verification.py:487-510 | The final status is never better than the policy's status for the judge's own tiers |
| `Verification.HighDerivedTierAcceptsUnattributed` | llm_client/claim_verification.py:487-510 | With the unattributed tier at the threshold or above, a computed claim that names no artifact is accepted |
| `Verification.StatusIsWorst` | llm_client/claim_verification.py:276-288 | The status is the worst of the outcomes |
| `Verification.LowerScoreIsNoBetter` | llm_client/claim_verification.py:267-274 | A lower score never gives a better outcome |
| `Verification.NoErrorsExactly` | llm_client/claim_verification.py:445-485 | No citation error is raised exactly when everything cited exists and resolves |
| `VerificationMeaning.ErrorsAreFaults` | llm_client/claim_verification.py:445-483 | The errors of a report are, citation by citation in the order cited, the evidence unknown, the artifacts missing or null with the available names, and the pointers that lead nowhere with their hints |
| `VerificationMeaning.OutcomeExactly` | llm_client/claim_verification.py:267-274 | A tier is accepted from the accept threshold up, blocked below the repair threshold, and repairable between |
| `VerificationMeaning.PolicyExactly` | llm_client/claim_verification.py:225-233 | A policy is rejected exactly when its repair threshold exceeds its accept threshold |
| `VerificationMeaning.SettledExactly` | llm_client/claim_verification.py:487-505 | Each claim keeps its tier unless a computed support has no locator that leads to a value and the derived tier scores lower; nothing else of it changes |
| `VerificationMeaning.LastOutcomeCounts` | llm_client/claim_verification.py:507-508 | The outcome kept for an identifier is that of the last claim that bears it |
| `VerificationMeaning.StatusExactly` | llm_client/claim_verification.py:507-524 | The status is blocked by any fault under the flag, and otherwise the worst outcome of the settled claims |
| `VerificationMeaning.FailsExactly` | llm_client/claim_verification.py:487-510 | Verification fails exactly without claims, or when a tier of the judge or a derived tier that applies is unknown |
| `Verification.DeriveSeverity` | llm_client/claim_verification.py:388-412 | The derived tier applies exactly when some computed support lacks a locator or has one that does not resolve |
| `Verification.VerifyReport` | llm_client/claim_verification.py:415-524 | Verification returns the specified settled claims, outcomes, errors and status, or fails on an unknown tier |
| `Verification.CheckCitations` | llm_client/claim_verification.py:445-483 | The citation loops raise exactly the specified errors, in order, with their hints |
| `Verification.SettleClaims` | llm_client/claim_verification.py:487-505 | Each claim is made more severe only where the derived tier scores lower |
| `Verification.Rate` | llm_client/claim_verification.py:507-508 | The outcomes and the status are those of the settled claims |
| `DocSpine.CycleCheck.CheckAll` | enforced_planning/doc_authority.py:1027-1054 | Walking from every declared doc raises exactly one issue for each cycle of the parent graph, and none exactly when it is acyclic |
| `DocSpine.CycleCheck.Walk` | enforced_planning/doc_authority.py:1030-1051 | One walk visits exactly the docs up to what was visited and raises an issue exactly when it runs into itself |
| `DocSpine.BuildDocChain` | enforced_planning/doc_authority.py:518-536 | Resolving a chain ends, returns the full parent path exactly when the start reaches neither a cycle nor an undeclared path, and otherwise names the obstacle |
| `DocSpine.VisitKeepsOneIssue` | enforced_planning/doc_authority.py:1030-1054 | A walk begun with nothing being visited keeps one issue for each cycle among the visited docs |
| `DocSpine.VisitFacts` | enforced_planning/doc_authority.py:1030-1051 | A walk adds only new docs with known parents; without an issue none of them lies on a cycle, and with one they all lead to it |
| `DocSpine.CycleReturns` | enforced_planning/doc_authority.py:1030-1051 | Whatever a doc on a cycle reaches leads back to it |
| `DocSpine.MeetsCycleExactly` | enforced_planning/doc_authority.py:518-536 | A chain repeats a doc exactly when it climbs to one on a cycle |
| `DocSpine.CleanSpineResolves` | enforced_planning/doc_authority.py:518-536 | The two checks agree: with no cycle issue and no undeclared parent every chain resolves, and a chain that fails on a cycle leads to a reported issue |
| `CanaryRuns.EveryRunConserves` | llm_client/codex_canary.py:184-207 | In every interleaving accepted jobs equal sleeping plus woken plus queued plus executing plus succeeded plus failed plus cancelled plus abandoned by their submitter; the quota and the queue bound hold; no future is settled twice |
| `CanaryRuns.ServedInOrder` | llm_client/codex_canary.py:221-235 | The worker serves exactly the jobs put before the first stop, in the order they were put, and answers each of them |
| `CanaryRuns.NoJobIsTakenTwice` | llm_client/codex_canary.py:197-227 | In every run no job enters the queue or is taken twice, and each job taken has a number that was given out |
| `CanaryQueue.StepKeepsValid` | llm_client/codex_canary.py:184-235 | Every atomic section between suspensions keeps the queue's invariant |
| `CanaryQueue.SubmitExactly` | llm_client/codex_canary.py:184-200 | A submission starts the worker; over the quota it is only counted as rejected, and otherwise it gets the next number, waits for its answer and is put, or sleeps last when there is no room |
| `CanaryQueue.TakeExactly` | llm_client/codex_canary.py:221-227 | The worker takes the first item, stops at a stop, and wakes the first sleeper; nothing else changes |
| `CanaryQueue.ResumeExactly` | llm_client/codex_canary.py:197-199 | A woken submitter enters when there is room and sleeps last when there is none; nothing else changes |
| `CanaryQueue.FinishCounts` | llm_client/codex_canary.py:228-235 | An outcome is counted under its own name and no other, frees the worker and answers a submitter still there; nothing else changes |
| `CanaryQueue.LeaveExactly` | llm_client/codex_canary.py:197-199 | A submitter cancelled while it sleeps or has been woken is counted as abandoned and leaves; once woken it passes a free slot on to the next |
| `CanaryQueue.LeaveAwaitingExactly` | llm_client/codex_canary.py:197-200 | One cancelled while its job is queued or running only stops waiting for the answer |
| `CanaryQueue.CloseExactly` | llm_client/codex_canary.py:202-207 | Closing puts a stop whenever the worker runs and none before it was started, behind everything put so far |
| `CanaryRuns.CloseAnswersAllExactly` | llm_client/codex_canary.py:202-207 | Closing a running queue answers every accepted submitter, in every continuation that lets the worker stop, if and only if no submitter has been woken for a free slot without having run again |
| `CanaryRuns.OrderlyCloseCountsAll` | llm_client/codex_canary.py:202-207 | After such a close the worker leaves no submitter unanswered and every accepted job is in the tally |
| `CanaryRuns.WokenCanBeStranded` | llm_client/codex_canary.py:197-207 | When one has been woken, some continuation puts it behind the stop and lets the worker stop without it |
| `CanaryRuns.StrandingIsReachable` | llm_client/codex_canary.py:184-207 | That happens in a run from an empty queue of one slot |
| `CanaryRuns.StoppedIsFinal` | llm_client/codex_canary.py:221-227 | Once the worker has met a stop it takes and settles nothing more |
| `CanaryRuns.StrandedJobIsNeverServed` | llm_client/codex_canary.py:202-207 | A submitter left behind the stop is never answered, however the run goes on |
| `CanaryRuns.Queue.SubmitJob` | llm_client/codex_canary.py:184-200 | A submission is refused when closed, rejected when the quota is used, and otherwise accepted under a new number and put |
| `CanaryRuns.Queue.ResumePut` | llm_client/codex_canary.py:197-199 | A woken submitter that runs again enters when there is room and sleeps again at the end of the line when there is not |
| `CanaryRuns.Queue.BeginClose` | llm_client/codex_canary.py:202-207 | Closing bars submissions and puts a stop exactly when a worker was started |
| `CanaryRuns.Queue.TakeNext` | llm_client/codex_canary.py:221-227 | One turn takes the first item, wakes the first sleeper and stops at a stop |
| `CanaryRuns.Queue.FinishJob` | llm_client/codex_canary.py:228-235 | Finishing counts the outcome once and answers the submitter unless it has gone |
| `ContextPacket.PackIsGreedy` | enforced_planning/context_packet.py:549-560 | Included and omitted items merge back to the sorted candidates in order, the measured sizes sum to the characters used, both limits hold, and no omitted item would fit the final packet |
| `ContextPacket.TargetPresentExactly` | enforced_planning/context_packet.py:549-560 | The packet holds its target, first, if and only if the target fits whole or the kept part of its summary serialises character for character |
| `ContextPacket.FittedTargetFitsExactly` | enforced_planning/context_packet.py:425-436 | A shortened target fits exactly under that condition |
| `ContextPacket.PacketIsBudgeted` | enforced_planning/context_packet.py:549-577 | A packet's reported size is that of its items and within the limit, and it accounts for every deduplicated candidate |
| `ContextPacket.TargetIsFirst` | enforced_planning/context_packet.py:535-548 | The target is sorted before every neighbour |
| `ContextPacket.SortedIsOrdered` | enforced_planning/context_packet.py:539-548 | Sorting permutes the candidates into relation, provenance, path, symbol and direction order |
| `ContextPacket.SortIsStable` | enforced_planning/context_packet.py:539-548 | Candidates that sort together keep the order they came in |
| `ContextPacket.DeduplicatedKeepsKeys` | enforced_planning/context_packet.py:535-538 | Every node, relation and direction among the candidates is kept exactly once |
| `ContextPacket.DeduplicatedKeepsFirst` | enforced_planning/context_packet.py:535-538 | The item kept is the first of its key |
| `ContextPacket.OneForOneExactly` | enforced_planning/context_packet.py:419-422 | A text takes one character for each of its own exactly when none of them is escaped |
| `JsonText.MeasuredExactly` | enforced_planning/context_packet.py:419-422 | The measure of a text is the length of its ASCII JSON |
| `JsonText.WrittenReadsBack` | enforced_planning/context_packet.py:419-422 | That JSON reads back as the text, surrogate pairs included (section 7 of RFC 8259) |
| `PacketMeaning.ItemCharsExactly` | enforced_planning/context_packet.py:419-422 | An item takes its fixed fields and the JSON of its summary and its completeness |
| `PacketMeaning.TargetCutExactly` | enforced_planning/context_packet.py:425-436 | A target too large keeps as many summary characters as an empty summary leaves room for and is marked incomplete, or is refused when there is no room |
| `PacketMeaning.PriorityExactly` | enforced_planning/context_packet.py:59-73 | The relations rank in the stated order |
| `PacketMeaning.OrderExactly` | enforced_planning/context_packet.py:539-548 | An item sorts strictly before another exactly by relation, explicit edge, path, symbol and direction, each deciding where those before it agree |
| `PacketMeaning.KeptExactly` | enforced_planning/context_packet.py:535-538 | The first item of each node, relation and direction stays, and no two that stay agree on all three |
| `PacketMeaning.RefusedExactly` | enforced_planning/context_packet.py:450-453 | A packet is refused exactly for limits below one, or a target that leaves no room even with an empty summary |
| `ContextPacket.Deduplicate` | enforced_planning/context_packet.py:535-538 | The dictionary loop keeps the specified items |
| `ContextPacket.BuildPacket` | enforced_planning/context_packet.py:439-577 | The packing loop builds the specified packet, or fails on bad limits or a target too large for its metadata |

## Left out

- ClaimProtocol.StepKeepsExclusion: upserts count as steps only under the guard `UpsertNarrows`; the code does not check it, and `UpsertKeepsExclusionExactly` says what happens otherwise.
- ClaimProtocol.EditUpdates: for checks and write with nothing in between; `LateEditKeepsExclusionExactly` says what happens otherwise.
- ClaimStore.Store.EditSession: the same; the step under the lock is `ApplyUpdates`.
- ClaimStore.Store.ApplyUpdates: not for a file that holds a mapping without an agent, a scope or an intent, which no claim writer leaves in a lane's file.
- ClaimRuns.NoTwoAgentsAllowed: a resume or hand-off counts as a step only while the record found under the lock is still held, and an upsert only under its guard; and a write that follows its own allow after the claim has expired is outside it.
- ClaimStore.Store.UpsertSession: outside the guard, or for a request outside the normal form, the new files and the verdict are stated but not that a legal run leaves them, since that can be false.
- ClaimStore.Store.CreateClaim: for a record outside the normal form, such as one that claims `./ a`, the new files and the verdict are stated but not that a legal run leaves them; `WriteKeepsExclusionExactly` applies to whatever record its text reads back as.
- ClaimPrune.PruneStore.PruneCompleted: of the projection only the digest it is bound to is kept, and exact write counts are stated for projections that always build and receipts that can all be appended.
- ClaimArchive.RerunArchivesOnce: for sources never archived before under the same path and bytes.
- Mailbox.ExpiryIsFinalExactly: corrupt records and their quarantine are not modelled, nor are boundary-block records.
- Pollers.OthersReportSuppressed: a poll that died or is still running reports nothing.
- Closeout.MergedCloseoutKeepsHistory: the squash-equivalent evidence is an opaque verdict of Git's diff and nothing is claimed about it; a discard is excluded too.
- JsonPointer.ResolvePointer: digits are those of Unicode 14; that the interpreter refuses to read more than 4300 digits is not modelled.
- Verification.VerifyReport: scores are real numbers, not floating point.
- CanaryRuns.EveryRunConserves: cancellation of the worker task itself, outside a job, is not a step; a cancelled submitter is counted as abandoned or withdrawn.
- CanaryRuns.CloseAnswersAllExactly: for a queue of positive size, as the configuration demands, and one call of close.
- ContextPacket.BuildPacket: starts from resolved neighbours; an item's fixed fields enter as one measured length.
- YAML and JSON text, pydantic validation, timestamps as text, temporary files, fsync and flock: typed records, integers and atomic writes instead.
- Static and Git-dependent health of a claim: an opaque predicate, evaluated when the projection is built and when a write is decided.
- Identity resolution of a hook payload, and repository paths outside the repository: decisions start from a normalised request.
- Fields of a claim that no modelled check reads (notes, goal text, tracker contents), and the mutation receipts of operations other than prune.
- Backfill of old archives, readiness reports, markdown rendering, command lines, prompts and model calls: mostly branching or text.
- Glob matching in the context packet and the file context: it rests on fnmatch.
