# Causal Continuity Engine: verification model

A Dafny 4.11 model of the parts of the Causal Continuity Engine that decide what the
project believes and what may be acted upon, with proofs of the properties they exist
for. `dafny verify dfyconfig.toml` checks everything.

| module | what it models |
|---|---|
| `Traversal`, `BlockingClosure`, `CausalPath` | the bounded strongest-path traversal of the causal graph, the fail-closed search for unresolved invalidations behind a node, and the shortest explanation between two nodes |
| `Invalidation`, `InvalidationEngine`, `InvalidationOutcome`, `HumanGate`, `EvidenceGate` | firing, confirming and resolving invalidations that overlap on nodes: the transitions as functions, the engine that makes them in place as a class, what each transition does in terms of the fields alone, what a pending confirmation may influence, and when citing evidence makes it visible |
| `Projection` | the event log, its processing markers, the projection built from it, crashes, redelivery and rebuilding |
| `SourceRevisions` | revisions of one mutable source delivered in any order, fenced field by field |
| `Bitemporal` | the versioned node table, its clock and reads as of a past instant |
| `Authority` | authority decisions as a compare-and-swap fold of the decision log |
| `Completion` | the completion gate, single-use proofs and the backfill of the spent-proof table |
| `ReplayComparator` | the comparison of the live projection with one replayed from what retention left |
| `JcsNumber`, `KeyOrder`, `CanonicalJson`, `JsonText` | canonical JSON text (RFC 8785): number spelling, key order, escaping, nesting, and a reader of its own for the result |
| `Lamport`, `LamportLayout`, `SignedJson` | one-time signatures, their encoding, envelopes and stranger verification |
| `Options` | values that may be absent, shared by the other modules |

Conventions. A database transaction is one atomic method or step. Digests, hashes and
extraction are function parameters, with no property assumed unless a lemma names it.
Strengths, weights and confidences are reals. Times are integers. Where the source
keeps tables in place, a class owns them and each of its methods is proved equal to a
specification function; the lemmas speak about that function, and so about every run
of the class. What one operation decides and writes is also stated on the fields of its
arguments and results alone, without the functions it shares with the specification. A property that is false of the code in general has a lemma exhibiting
the failure and another giving the condition under which it holds:

- Status restoration fails for a node held in two roles (two fires reach it,
  `Invalidation.MixedRolesReached`, and `Invalidation.MixedRolesStrand` shows the end) and
  for a target retired while another invalidation of it is pending (a gated fire, a plain
  fire and a resolution reach it, `Invalidation.RetiredReached`, and
  `Invalidation.StalePendingRevives` shows the end). The conditions are exact:
  `Invalidation.ConfirmThenNarrowIff` for a pending invalidation in any state that passes
  the reference checks, `Invalidation.LastHolderRestores` for the last holder to close
  (`Invalidation.FreshRunsRestore` when every confirmation was fresh),
  `Invalidation.CarriedIffFresh` over whole runs, and `Invalidation.ResolveRestoresIff` for
  what one resolution does with its receipt.
- A node narrowed beyond its authority while something else holds it stays as it is for
  good (`Invalidation.NarrowedTaskStranded`, from two fires on an open task that
  `Invalidation.TwiceTargetedReached` shows a run reaches); `Invalidation.NarrowedBeyondStrands`
  is the statement for every state.
- A pending invalidation that cites trigger evidence is derived from that evidence, and so
  can change the fires after it, even after its rejection
  (`EvidenceGate.TenthDependentLeaks`). It is invisible as long as no later fire's traversal
  reaches the evidence with an edge to spare (`EvidenceGate.InvisibleUnlessReached`), and
  never to one that does (`EvidenceGate.ReachedIsSeen`).
- Other code may rewrite a confirmed node, so that it no longer shows what the decision log
  says (`Authority.ConfirmThenNarrow`, `Authority.RewriteDetaches`).
  `Authority.NodeAgreesIff` is the exact condition, and `Authority.CurrentIff` what the
  authority check makes of it.
- The clock forgets the last time it gave out when the process restarts. Reads of the past
  survive a restart if and only if the machine's clock has passed that time
  (`Bitemporal.RestartIff`); the history theorems are about restarts of that kind.
- Delivery order matters between authors of different authority
  (`SourceRevisions.EditsCommuteIff`).
- The canonical-order guard lets an event without payload be projected late
  (`Projection.NullOutOfOrderDiverges`). For processing that lets such events leave the
  projection alone, as the engine's does, replay holds without any condition
  (`Projection.EngineEqualsReplay`). For arbitrary processing it holds in every run that
  decides no such event late, and for processing that shows the order in no other run
  (`Projection.RecorderExact`).
- Redelivery heals the lowest retained hole except when a later event that does not
  normalize has been quarantined, which happens before the guard is reached
  (`Projection.HoleRefusedIff`); a crash followed by one such event blocks a hole for good
  (`Projection.CrashThenRejectBlocks`).
- The replay comparator keys nodes by semantic identifier, so a shared identifier hides a
  difference (`ReplayComparator.SharedIdHides`); when agreement is equality is exact
  (`ReplayComparator.AgreementIsEqualityIff`).
- Canonical key order is not code-point order (`KeyOrder.NotCodePointOrder`).

## Model

| member | source | states |
|---|---|---|
| `Traversal.Dependents` | causal_continuity_engine/graph.py:640-719 | on any graph, cyclic or not, it ends; it refuses bounds, strengths and weights out of range; it fails for its budget exactly when more than `max_nodes` distinct non-root nodes are reachable within depth by a walk of at least the minimum product; otherwise it records exactly those nodes, each with the maximum product of weights times strengths over all walks within depth, a simple path attaining it, and the least depth among the strongest |
| `Traversal.RefusedArguments` | causal_continuity_engine/graph.py:649-681 | the arguments refused are a negative bound, and a strength or a weight outside 0 to 1 |
| `Traversal.DefaultDecay` | causal_continuity_engine/graph.py:664-667 | under the default weights an edge keeps all of the strength if it is `assumes`, 0.9 if `depends_on`, 0.8 if `derived_from`, 0.7 if `verifies` and 0.6 if `supports`, times its own strength, and no other kind is followed |
| `Traversal.WalksDominated` | causal_continuity_engine/graph.py:682-699 | pruning by `seen` is safe: once every queued entry is expanded, each admissible walk is matched by an entry at least as strong and no deeper |
| `Traversal.NoWalkBeats` | causal_continuity_engine/graph.py:696-713 | overwriting leaves no admissible walk stronger than the record, nor one as strong and shorter |
| `Traversal.KeysComplete` | causal_continuity_engine/graph.py:688-719 | when the queue is empty the recorded nodes are exactly the qualifying ones |
| `Traversal.BestQualifies` | causal_continuity_engine/graph.py:714-717 | at every moment only qualifying nodes are recorded, so the budget counts distinct qualifying nodes |
| `BlockingClosure.FailClosed` | causal_continuity_engine/invalidation.py:1052-1094 | a notice is returned if and only if its target or one of its affected nodes is in the unbounded transitive dependency closure of the candidate, or it is critical, or the bounds cut the search short |
| `BlockingClosure.BlockersInOrder` | causal_continuity_engine/invalidation.py:1084-1094 | the notices returned keep their order: those of two lists in a row are those of the first, then those of the second |
| `BlockingClosure.Dependencies` | causal_continuity_engine/invalidation.py:1065-1083 | the bounded search reports itself incomplete exactly when a bound hides part of the closure, and otherwise returns the whole closure |
| `BlockingClosure.BlockingInvalidations` | causal_continuity_engine/invalidation.py:1052-1094 | a notice is in the returned list exactly when its target or an affected node is in the closure, it is critical, or a bound hides part of the closure; the list is that filter of all notices |
| `BlockingClosure.ChainsCovered` | causal_continuity_engine/invalidation.py:1065-1083 | layer by layer, every dependency chain ends in a discovered node recorded no further than the chain is long |
| `CausalPath.FindPath` | causal_continuity_engine/graph.py:722-751 | on any graph it ends; it returns a path along edges in either direction that no other path undercuts, within the depth bound; it returns none exactly when the target is the source itself or every path to it exceeds the bound |
| `CausalPath.PathsSeen` | causal_continuity_engine/graph.py:733-748 | once all nodes seen within a number of steps are expanded, every path of that many steps ends in a seen node, seen no further than the path is long |
| `CausalPath.Expand` | causal_continuity_engine/graph.py:738-750 | looking across one entry's edges finds the target by a shortest path or queues every new neighbour |
| `InvalidationEngine.BlastRadius` | causal_continuity_engine/invalidation.py:476-485 | fails only when both the full and the two-hop traversal exceed their budgets; truncated exactly when the full one does; the dependents are exactly those in range, distinct, never the target, each with a strongest path from target to node |
| `InvalidationEngine.Engine.FireAt` | causal_continuity_engine/invalidation.py:422-657 | the new nodes, invalidations and edges, the one to cited evidence among them, are those of the `Fire` transition; an unknown target or evidence that does not stand changes nothing |
| `InvalidationEngine.Engine.ConfirmPending` | causal_continuity_engine/invalidation.py:741-808 | confirming or rejecting is the `Confirm` transition, or is refused without change |
| `InvalidationEngine.Engine.ResolveOpen` | causal_continuity_engine/invalidation.py:812-982 | resolving is the `Resolve` transition, or is refused without change |
| `InvalidationEngine.Engine.NodesHeldByOthers` | causal_continuity_engine/invalidation.py:984-1007 | a node is in the set exactly when another open invalidation targets it or holds it with a constraining impact |
| `InvalidationEngine.Engine.HeldRestoreStatus` | causal_continuity_engine/invalidation.py:118-132 | the status an open invalidation already carries for the node, the first in row order, else the current one |
| `InvalidationEngine.Engine.ApplyReceipts` | causal_continuity_engine/invalidation.py:570-613 | target and affected nodes get their impact in order, and each receipt records whether and what was applied |
| `InvalidationEngine.Engine.Release` | causal_continuity_engine/invalidation.py:930-946 | only unheld, mandated nodes still uncertain or blocked are restored, each from its own receipt |
| `InvalidationEngine.Engine.ClassifyAll` | causal_continuity_engine/invalidation.py:484-514 | one receipt per dependent of the project, downgraded when a human must confirm, with the status to restore |
| `Invalidation.ClosingKeepsHeld` | causal_continuity_engine/invalidation.py:877-946 | in every state, resolving in any mode or rejecting one invalidation leaves alone every node another open invalidation holds, except that a scope narrower than its authority ends that authority |
| `Invalidation.RunSound` | causal_continuity_engine/invalidation.py:168-287 | in every reachable state every open or pending invalidation passes the reference checks that confirming and resolving make first |
| `Invalidation.FirePreflights` | causal_continuity_engine/invalidation.py:494-625 | a fresh invalidation is born with distinct non-target receipts, target-to-node paths, one `affects` edge per receipt and one `invalidates` edge |
| `Invalidation.PendingCanBeDecided` | causal_continuity_engine/invalidation.py:741-803 | in every reachable state a pending invalidation can be confirmed and can be rejected, and rejecting it changes no node |
| `HumanGate.GatedFireIsInvisible` | causal_continuity_engine/invalidation.py:577-625 | after a fire behind the human gate, any steps that do not accept it or find it among their dependents leave all nodes, all other invalidations and all other edges exactly as they would without the fire |
| `EvidenceGate.InvisibleUnlessReached` | causal_continuity_engine/invalidation.py:476-625 | from every reachable state: as long as no later fire's traversal reaches the evidence the gated fire cites, the engine can make exactly the moves it could make without that fire, and they do the same |
| `EvidenceGate.ReachedIsSeen` | causal_continuity_engine/invalidation.py:566-574 | the condition is exact: at the first later fire whose traversal reaches the evidence, no dependents it may get are dependents it may get without |
| `EvidenceGate.TenthDependentLeaks` | causal_continuity_engine/invalidation.py:487-492 | evidence with nine dependents is invalidated at once by a low-confidence fire; with a gated fire citing it, waiting or rejected, that fire goes behind the gate and changes nothing |
| `EvidenceGate.AnswersIff` | causal_continuity_engine/graph.py:640-719 | a leaf in the graph leaves what a fire may learn as it was if the answering traversal does not reach it, and otherwise changes all of it |
| `EvidenceGate.LeafReached` | causal_continuity_engine/graph.py:682-719 | what is derived from evidence is a dependent exactly when a walk with an edge to spare reaches the evidence |
| `HumanGate.FreshIsUnnamed` | causal_continuity_engine/invalidation.py:168-287 | in every reachable state every receipt names a node or an invalidation of that state, so a fresh identifier is named by none |
| `HumanGate.RejectedIsForgotten` | causal_continuity_engine/invalidation.py:776-803 | rejecting it then always succeeds, and every node has, then and after any further such steps, the status it would have had the invalidation never been fired |
| `HumanGate.ApplyWithout` | causal_continuity_engine/invalidation.py:984-1007 | every step commutes with forgetting a pending invalidation: pending ones hold nothing and lend no status to restore |
| `Invalidation.RejectInert` | causal_continuity_engine/invalidation.py:793-803 | a successful rejection changes no node, because no pending receipt was applied |
| `Invalidation.RunTracks` | causal_continuity_engine/invalidation.py:118-132 | over every run whose confirmations of the node find the receipt a fire would write then, each open receipt of a node in one role whose mandate has not ended carries the status it had when last free, and it has that status whenever nothing holds it |
| `Invalidation.CarriedIffFresh` | causal_continuity_engine/invalidation.py:118-132 | over every run, each open receipt of a mandated node in one role carries the status from before the hold throughout if and only if every confirmation of the node finds the receipt a fire would write then |
| `Invalidation.LastHolderRestores` | causal_continuity_engine/invalidation.py:877-946 | when the last holder of a node closes by narrowed scope: if its mandate stands, it gets the status from before the first hold if and only if that is what the closing receipt restores; if its mandate has ended, it stays as it is |
| `Invalidation.FreshRunsRestore` | causal_continuity_engine/invalidation.py:877-946 | in runs whose confirmations find fresh receipts, the last holder to close returns a mandated node to the status from before the first hold |
| `Invalidation.NarrowedBeyondStrands` | causal_continuity_engine/invalidation.py:895-910 | a held node narrowed beyond its authority keeps its status through every later resolution |
| `Invalidation.NarrowedTaskStranded` | causal_continuity_engine/invalidation.py:895-910 | two invalidations of one task, both narrowed, the first beyond its authority, leave it invalidated with nothing holding it |
| `Invalidation.TwiceTargetedReached` | causal_continuity_engine/invalidation.py:422-657 | two fires on one open task reach the state that starts from |
| `Invalidation.ConfirmThenNarrowIff` | causal_continuity_engine/invalidation.py:741-982 | in every sound state, confirming a pending invalidation of a mandated node nobody else holds and then narrowing it succeeds, and leaves the status as it was if and only if the receipt restores that status |
| `Invalidation.ResolveRestoresIff` | causal_continuity_engine/invalidation.py:917-946 | for any unheld mandated node in any role, a narrowed resolution gives it its receipt's status if and only if it is the target, is still uncertain or blocked, or has that status already |
| `Invalidation.MixedRolesReached` | causal_continuity_engine/invalidation.py:422-657 | two fires from a graph of two open tasks reach an affected node that is then targeted |
| `Invalidation.MixedRolesStrand` | causal_continuity_engine/invalidation.py:936-939 | that node stays invalidated after both invalidations are resolved, the target's first |
| `Invalidation.RetiredReached` | causal_continuity_engine/invalidation.py:812-982 | a gated fire, a plain fire and the resolution of the second by replacement reach a task retired under a pending invalidation |
| `Invalidation.StalePendingRevives` | causal_continuity_engine/invalidation.py:908-930 | confirmed and narrowed, that pending invalidation brings the older status back |
| `InvalidationOutcome.FireRefusedIff` | causal_continuity_engine/invalidation.py:436-474 | a fire is refused if and only if its target is unknown, or it cites evidence that is unknown, of another kind, quarantined, invalidated, superseded or rejected |
| `InvalidationOutcome.FireGateIff` | causal_continuity_engine/invalidation.py:487-492 | without an override the new invalidation is pending, and no node changes, if and only if confidence is below 0.6 and there are ten dependents or more, a truncated traversal, or a target of high or critical criticality; an override decides either way |
| `InvalidationOutcome.FireNodes` | causal_continuity_engine/invalidation.py:570-613 | an open fire invalidates its target where its lifecycle allows, blocks or puts in doubt each dependent by strength, criticality and confidence, and changes no other node |
| `InvalidationOutcome.FireReceipts` | causal_continuity_engine/invalidation.py:494-608 | every dependent that is a node gets one receipt with its path, its graded impact, downgraded behind the gate, the status from before, and whether and to what it changed; only dependents get one |
| `InvalidationOutcome.FireNotesInvalidation` | causal_continuity_engine/invalidation.py:494-564 | a dependent that is itself an invalidation is graded by the criticality of its target and never changed |
| `InvalidationOutcome.FireTarget` | causal_continuity_engine/invalidation.py:526-613 | the target has a receipt of its own with the status from before, the status to restore, and whether it changed |
| `InvalidationOutcome.FireEdges` | causal_continuity_engine/invalidation.py:566-610 | the edges a fire adds are those to its target, to the evidence it cites and to each node it has a receipt for |
| `InvalidationOutcome.HeldRestoreFirst` | causal_continuity_engine/invalidation.py:118-132 | the status to restore is the one the first open invalidation, in row order, that mentions the node says, as its target before as an affected node |
| `InvalidationOutcome.HeldRestoreNone` | causal_continuity_engine/invalidation.py:118-132 | when no open invalidation mentions the node it is the current status |
| `InvalidationOutcome.PreflightIsBound` | causal_continuity_engine/invalidation.py:168-287 | the reference checks pass exactly when target, receipts, paths and edges bind each other one to one, and a pending invalidation has applied nothing |
| `InvalidationOutcome.ConfirmIff` | causal_continuity_engine/invalidation.py:741-775 | a confirmation or rejection succeeds if and only if the current row is pending and its references bind |
| `InvalidationOutcome.AcceptNodes` | causal_continuity_engine/invalidation.py:741-792 | accepting invalidates the target and puts the recorded impacts in force on the nodes as they are by then, and changes no other node |
| `InvalidationOutcome.AcceptRows` | causal_continuity_engine/invalidation.py:776-792 | and moves the invalidation, open and with its receipts, to the last row |
| `InvalidationOutcome.RejectOutcome` | causal_continuity_engine/invalidation.py:793-803 | rejecting changes no node and no edge |
| `InvalidationOutcome.ResolveIff` | causal_continuity_engine/invalidation.py:812-930 | a resolution succeeds if and only if the current row is open, its references bind, what the mode promises is given, and the lifecycle of a mandated target nobody else constrains admits the mode |
| `InvalidationOutcome.ResolveNodes` | causal_continuity_engine/invalidation.py:917-946 | what a resolution does to each node: the target by its mode, each affected node that is still uncertain or blocked, unconstrained by others and mandated back to its receipt's status, nothing else |
| `Projection.NoHoleBelowOk` | causal_continuity_engine/engine.py:3022-3034 | for any processing, in every run of append, crash, process, quarantine and redelivery, no retained event below an `ok`-marked one is unmarked |
| `Projection.ProjectionIsFold` | causal_continuity_engine/engine.py:2994-3105 | for any processing, in every run that decides no event without payload behind a later marker or failure, the projection is the log-order fold of the `ok`-marked events |
| `Projection.ProjectionEqualsReplay` | causal_continuity_engine/engine.py:6271-6344 | in those runs, whenever every event is marked, replaying the log from scratch gives the same projection and the same markers |
| `Projection.RecorderExact` | causal_continuity_engine/engine.py:3022-3034 | the condition on runs is exact: processing that records the order has the fold as its projection if and only if the run meets it |
| `Projection.EngineEqualsReplay` | causal_continuity_engine/engine.py:3146-3191 | with events without payload normalized to no text, no flags and no handler, every run has the fold as its projection, equals its replay once all events are marked, and never projects a quarantined event |
| `Projection.GuardedDecision` | causal_continuity_engine/engine.py:3016-3034 | an event past the order guard, retained or not late, succeeds or fails exactly as it would in log order |
| `Projection.GuardedFold` | causal_continuity_engine/engine.py:3016-3034 | an event projected past the guard, retained or not late, takes effect as if projected in log order |
| `Projection.HonestStatesAdmitted` | causal_continuity_engine/engine.py:1590-1651 | for any processing, every reachable state passes the per-event row counts on reopening: exactly one current row of the event node for an `ok` event, however often that node is rewritten, and no row attributed to an unmarked or quarantined one; no node or edge has two current rows |
| `Projection.QuarantineIsFinal` | causal_continuity_engine/engine.py:3016-3034 | for any processing, a quarantined event is never projected afterwards unless it is decided late without a payload |
| `Projection.HoleRefusedIff` | causal_continuity_engine/engine.py:2997-3034 | for any processing, in every run the lowest retained hole that normalizes is refused if and only if a later event that does not normalize is quarantined |
| `Projection.BlockedHoleStays` | causal_continuity_engine/engine.py:2997-3034 | a retained hole with a later marker is refused in every continuation |
| `Projection.CrashThenRejectBlocks` | causal_continuity_engine/engine.py:2889-2918 | a crash after appending and then an event that does not normalize reach such a hole |
| `Projection.NullOutOfOrderDiverges` | causal_continuity_engine/engine.py:3022-3034 | a late event without payload makes an order-sensitive projection differ from its replay |
| `Projection.Engine.Ingest` | causal_continuity_engine/engine.py:2834-2919 | a delivery with a new key appends, projects or quarantines; under a known key another body is reported and changes nothing, a marked event is a duplicate and changes nothing, and an unmarked one is processed and never quarantined |
| `Projection.FirstDelivery` | causal_continuity_engine/engine.py:2834-2919 | the first delivery of a key is always stored; it is marked ok, quarantined or left behind a hole by the retained events before it and by what normalizing and projecting do |
| `Projection.DeliveriesEqualReplay` | causal_continuity_engine/engine.py:2834-2919 | for any processing, deliveries and redeliveries without crashes leave every event marked, with the projection and markers of a replay |
| `Projection.DeliveriesAreRuns` | causal_continuity_engine/engine.py:2834-2919 | every sequence of deliveries is a run of the append, process and quarantine steps |
| `Projection.Engine.ProcessStored` | causal_continuity_engine/engine.py:2994-3105 | the view, the marker and the attributed rows change together or not at all |
| `Projection.ProcessedIff` | causal_continuity_engine/engine.py:2994-3105 | an event is projected if and only if it normalizes, is not yet ok, no earlier retained event is unmarked, no later event is marked if it has a payload itself, and projecting does not raise; otherwise nothing is written |
| `Projection.Engine.WriteRows` | causal_continuity_engine/engine.py:3044-3099 | row by row: the event node, what the event writes, and the event node again when its source fields are corrected |
| `Projection.Engine.WriteRow` | causal_continuity_engine/graph.py:199-262 | the current row of the key is closed in place and the next one appended |
| `Projection.ProjectWrites` | causal_continuity_engine/engine.py:3044-3099 | the keys written are the event node, each thing the event says in order, and the event node again when corrected; each has a new row for that event, of which only the last of its key is current, and earlier rows lose only their currency, when their key is written |
| `Projection.WrittenOnce` | causal_continuity_engine/engine.py:3044-3099 | every key an event writes has exactly one current row, attributed to that event, and every other key's rows are as they were |
| `Projection.Engine.QuarantineStored` | causal_continuity_engine/engine.py:1683-1701 | a failure becomes a marker only if the event has neither marker nor rows by then |
| `Projection.Engine.Rebuild` | causal_continuity_engine/engine.py:6284-6344 | the fresh engine holds the replay of the whole log |
| `SourceRevisions.NewestWins` | causal_continuity_engine/engine.py:3111-3144 | with equal authority and distinct revision times, in every delivery order a field's live statements are those of its newest revision, and that revision holds the frontier |
| `SourceRevisions.OrderIrrelevant` | causal_continuity_engine/engine.py:3111-3144 | two delivery orders of the same snapshots end with the same live statements in every field |
| `SourceRevisions.EditsCommuteIff` | causal_continuity_engine/engine.py:3111-3144 | two edits of a field commute if and only if the newer has no less authority or says nothing new; at equal times only content the other carries is safe |
| `SourceRevisions.AdmittedBlockWins` | causal_continuity_engine/engine.py:3235-3266 | an admitted block leaves exactly its own statements live in its field |
| `SourceRevisions.OtherFieldsKept` | causal_continuity_engine/engine.py:3235-3266 | and leaves what is live in every other field as it was |
| `SourceRevisions.OldClaims` | causal_continuity_engine/engine.py:3235-3266 | a block withdraws exactly the live claims of its field from other events of no higher authority that a trusted block no longer states, and changes nothing else about a claim |
| `SourceRevisions.NewClaims` | causal_continuity_engine/engine.py:3195-3232 | each statement of a block becomes one claim under its event, field and authority, quarantined exactly when the block is suspicious |
| `SourceRevisions.SuspiciousBlockInert` | causal_continuity_engine/engine.py:3195-3232 | a suspicious block leaves the live statements of every field as they were |
| `SourceRevisions.ObsoleteIff` | causal_continuity_engine/engine.py:3111-3144 | a field is too old exactly when another event of no less authority and a strictly later revision was admitted for it |
| `SourceRevisions.FrontierIs` | causal_continuity_engine/engine.py:3100-3144 | an event enters the frontier for exactly the trusted fields it is not too old for, and for none without a clock |
| `SourceRevisions.SkippedFieldKept` | causal_continuity_engine/engine.py:3083-3090 | a field the event does not carry, carries only as a suspected injection, or is too old for is unchanged |
| `SourceRevisions.AdmittedFieldWins` | causal_continuity_engine/engine.py:3083-3099 | over all blocks of one event, each admitted field ends with exactly that event's statements |
| `SourceRevisions.NeverCarried` | causal_continuity_engine/engine.py:3195-3266 | a field no delivery carries has no live statement |
| `SourceRevisions.ProcessTextRows` | causal_continuity_engine/engine.py:3195-3266 | producing and withdrawing row by row gives the claims of the block-level specification, a repeated statement being one claim |
| `Bitemporal.Tick` | causal_continuity_engine/core.py:160-167 | every time given out exceeds the last one the process remembers, whatever the machine's clock does |
| `Bitemporal.HistoryIsChain` | causal_continuity_engine/graph.py:199-262 | after any writes, with any restarts after which the machine's clock is ahead, each node has versions 1..n of one identity, abutting half-open transaction intervals and exactly one open row |
| `Bitemporal.CurrentIsFold` | causal_continuity_engine/graph.py:199-262 | the current row has, field by field and key by key, the value given last over all accepted writes; its version counts them; only reopening clears the end of validity; where it came from is the last write's alone |
| `Bitemporal.PastIsStable` | causal_continuity_engine/graph.py:442-448 | a node read as of a passed instant is unchanged by all later writes, across such restarts |
| `Bitemporal.RestartIff` | causal_continuity_engine/core.py:160-167 | the first write after a restart leaves all reads of the past unchanged if and only if the machine's clock has passed the last time given out |
| `Bitemporal.PastProjectIsStable` | causal_continuity_engine/graph.py:519-541 | so is the read of a whole project under any filter, row for row |
| `Bitemporal.OneVersionVisible` | causal_continuity_engine/graph.py:442-448 | before a node's first version none of its rows is visible, from then on exactly one |
| `Bitemporal.ProjectReadAgrees` | causal_continuity_engine/graph.py:519-541 | the project read holds, for each node that passes the filter, exactly what the node's own read as of that instant returns |
| `Bitemporal.GetAsOfFinds` | causal_continuity_engine/graph.py:442-448 | the read finds a row exactly when one is visible, and returns a visible one |
| `Bitemporal.Graph.PutNode` | causal_continuity_engine/graph.py:142-265 | closes the current row and appends the next, or refuses a changed identity, an event of another project, a confidence out of range or an unwarranted reopening without touching a row |
| `Bitemporal.PutIff` | causal_continuity_engine/graph.py:142-265 | a write is accepted if and only if its confidence is in range, its event is of its own tenant and project, the current row has its identity, and reopening starts at or after the end of a closed interval; then that row is closed and one appended, otherwise no row changes |
| `Bitemporal.ClockIs` | causal_continuity_engine/core.py:160-167 | the machine's time if it is new, and otherwise the instant after the last; a malformed write does not ask |
| `Bitemporal.Graph.Get` | causal_continuity_engine/graph.py:427-455 | the current row, or of the rows visible at an instant the highest version; nothing when its tenant, project or type is not the one asked for |
| `Bitemporal.Graph.AsOfTime` | causal_continuity_engine/graph.py:519-541 | the rows visible at the instant whose project, tenant and type pass the filter |
| `Bitemporal.AsOfIff` | causal_continuity_engine/graph.py:519-541 | a project read returns exactly the rows of the tenant, project and type asked for that were written by then and not yet closed, without the closing time |
| `Bitemporal.Graph.Utcnow` | causal_continuity_engine/core.py:160-167 | gives out and remembers the next time |
| `Bitemporal.Graph.Restart` | causal_continuity_engine/core.py:160-167 | the table stays and the last time is forgotten |
| `Bitemporal.Graph.CurrentRow` | causal_continuity_engine/graph.py:395-398 | the open row of a node |
| `Authority.RunSound` | causal_continuity_engine/engine.py:2399-2456 | over every run, whatever other code writes on the nodes, each confirmation has a node and a fold of the decision log, whose version is the number of decisions, and every decision named the revision current when it was recorded |
| `Authority.NodeAgreesIff` | causal_continuity_engine/engine.py:2749-2786 | over every run, a confirmation's node shows the fold if and only if no rewrite followed the last decision about it, or the last one that did wrote what the fold says |
| `Authority.CurrentIff` | causal_continuity_engine/engine.py:2484-2516 | over every run, authority is current if and only if it is unrevoked and supported and no rewrite followed the last decision, or the last one that did left data, scope, status and criticality intact |
| `Authority.RewriteDetaches` | causal_continuity_engine/memory.py:535-550 | from every state, narrowing or correcting a node whose authority is current leaves one that no longer shows the fold and is not current |
| `Authority.ConfirmThenNarrow` | causal_continuity_engine/invalidation.py:899-932 | one confirmation and one narrowing reach such a node |
| `Authority.RevisionBoundOnce` | causal_continuity_engine/engine.py:2441-2445 | two recorded decisions about one confirmation never bind the same revision |
| `Authority.RevocationIsFinal` | causal_continuity_engine/engine.py:2441-2450 | a revoked confirmation keeps its state through every later step |
| `Authority.RetryReturnsReceipt` | causal_continuity_engine/engine.py:2713-2747 | repeating an answered request, however much has happened since, appends nothing and returns the identical receipt; another request under its identifier is refused |
| `Authority.LoserIsRefused` | causal_continuity_engine/engine.py:2518-2557 | of two requests binding one revision of a confirmation, once one is recorded the other is refused, whatever happens between them |
| `Authority.Engine.RecordDecision` | causal_continuity_engine/engine.py:2707-2747 | append, projection and answer are one step, or nothing changes; what holds over every run is kept |
| `Authority.RecordIff` | causal_continuity_engine/engine.py:2518-2557 | a request under a new identifier is recorded if and only if it is well formed, of this project, names the current proposal or revision, asks for a scope of live confirmed tasks or none, and may be retained; a refused one changes nothing |
| `Authority.RecordWrites` | causal_continuity_engine/engine.py:2749-2786 | what a recorded request appends and answers, and the node it writes: after a confirmation or a replacement the scope is the one requested, after a revocation the node is revoked |
| `Authority.Engine.AuthorityState` | causal_continuity_engine/engine.py:2399-2456 | the scan from a confirmation's origin computes the fold |
| `Authority.FoldReadsOff` | causal_continuity_engine/engine.py:2399-2456 | the fold is read off the log: proposal, statement and kind of the confirmation, the scope of the last decision that carries one, revoked if and only if a revocation is recorded, as many versions as decisions, and event and time of the last |
| `Authority.Engine.AuthorityIsCurrent` | causal_continuity_engine/engine.py:2484-2516 | the authority of a confirmation is current exactly for an unquarantined node that equals an unrevoked, supported fold and has the criticality of its proposal |
| `Authority.Engine.CheckScope` | causal_continuity_engine/engine.py:2541-2557 | a task scope is allowed exactly for non-tasks and live confirmed tasks |
| `Authority.ChecksDecide` | causal_continuity_engine/engine.py:2484-2557 | authority is current, and a scope assignable, exactly under the conditions on the node, the fold and the tasks |
| `Authority.Engine.ValidateOperands` | causal_continuity_engine/engine.py:2518-2557 | accepts exactly the requests that bind the current proposal or confirmation |
| `Completion.ProofCompletesOneTask` | causal_continuity_engine/engine.py:4795-4803 | with any claims, backfills and writes between them, two completions with one proof are of one task |
| `Completion.SpentForever` | causal_continuity_engine/engine.py:5250-5274 | a proof once bound to a task stays bound to it, and no task row is rewritten |
| `Completion.EvidenceStaysSpent` | causal_continuity_engine/engine.py:4887-4906 | a completed task was open or in progress before and verified after, and its evidence is spent on it in every later store |
| `Completion.VerifiedIsKept` | causal_continuity_engine/engine.py:4716-4728 | over any claims, backfills and writes of other tasks, a verified task's current version and evidence stay as they are |
| `Completion.SeedingExact` | causal_continuity_engine/engine.py:1952-1984 | the backfill keeps existing rows, spends exactly the evidence some row carries, on the first such row's task |
| `Completion.SeededIff` | causal_continuity_engine/engine.py:1952-1984 | the keys seeded are those of rows whose evidence is present and not empty, under the row's tenant and project |
| `Completion.SeedingIdempotent` | causal_continuity_engine/engine.py:1934-1991 | a second backfill of the same rows, listed in any order, changes nothing |
| `Completion.BackfillCovers` | causal_continuity_engine/engine.py:1934-1991 | from the first backfill on, every evidence identifier any row carries is spent, in every reachable store |
| `Completion.HistoricalProofIsSpent` | causal_continuity_engine/engine.py:1934-1991 | after the backfill and any later steps, a proof some rows already carried completes a task if and only if that is the task of the first row listed with it and nothing but the spent table could refuse |
| `Completion.Engine.CompleteTask` | causal_continuity_engine/engine.py:4673-4918 | the checks in their order give the verdict; past them the claim and the new version are one step; coverage of all evidence is kept |
| `Completion.CompletedIff` | causal_continuity_engine/engine.py:4690-4885 | a claim completes its task if and only if the task is open or in progress and has authority, the frontier is certain, nothing blocks it, nothing conflicts, a proof is given where one is required, and a given proof is well shaped, authentic, verified, for this tenant, project, purpose and task, not spent on another, allowed, current, well graded, and passes every required verifier under its present definition |
| `Completion.UnchangedIff` | causal_continuity_engine/engine.py:4716-4728 | a claim is taken as already done if and only if the task is verified with exactly the evidence offered and nothing holds it up |
| `Completion.ClaimWrites` | causal_continuity_engine/engine.py:4886-4906 | a completed claim appends one verified row with its proof and spends that proof on the task; any other claim writes nothing |
| `Completion.VerifiedByCompletion` | causal_continuity_engine/engine.py:4690-4918 | over any run whose other writes do not verify it, a task became verified by a claim that met all those conditions when it was made |
| `Completion.Engine.ClaimProof` | causal_continuity_engine/engine.py:5250-5274 | an unclaimed proof is claimed, a re-claim by its task is benign, any other claim names the holder |
| `Completion.Engine.BackfillSpentProofs` | causal_continuity_engine/engine.py:1934-1991 | the loop computes the seeding and counts exactly the rows added |
| `ReplayComparator.Compare` | causal_continuity_engine/engine.py:6178-6268 | reports every disagreement there is and no other |
| `ReplayComparator.NotReplayedIff` | causal_continuity_engine/engine.py:6208-6228 | a live node is reported as not replayed if and only if it is the last with its identifier, none replayed has it, and every version of it names an event, all of them retained |
| `ReplayComparator.NotLiveIff` | causal_continuity_engine/engine.py:6194-6207 | a replayed node is reported as not live if and only if no live node has its identifier, and as different if and only if the last live one with it is another |
| `ReplayComparator.EdgesReportedIff` | causal_continuity_engine/engine.py:6229-6268 | edges are reported by the difference of their counts, in the direction from live to replayed no more often than retained events alone account for |
| `ReplayComparator.AgreesIffEqual` | causal_continuity_engine/engine.py:6178-6268 | with everything retained and identifiers distinct, agreement holds if and only if the nodes and the edges, counted, are equal |
| `ReplayComparator.AgreementIsEqualityIff` | causal_continuity_engine/engine.py:6194-6196 | whenever the comparison agrees, the nodes are equal if and only if live nodes sharing an identifier are equal and each identifier occurs as often on both sides |
| `ReplayComparator.SharedIdHides` | causal_continuity_engine/engine.py:6194-6196 | with a shared identifier the comparison can agree on different projections |
| `JcsNumber.SerializeExact` | causal_continuity_engine/core.py:253-289 | the emitted text denotes exactly the rational that was serialized, in fixed and in exponential form |
| `JcsNumber.SameTextIffSameValue` | causal_continuity_engine/core.py:238-289 | two numbers have the same text if and only if their values are equal |
| `JcsNumber.FormatDenotes` | causal_continuity_engine/core.py:270-289 | each of the four forms denotes the digits at their decimal position |
| `JcsNumber.SerializeForm` | causal_continuity_engine/core.py:249-289 | zero is `0`; any other number has a minus sign exactly when negative, an exponent exactly when its magnitude is at least ten to the 21st or below one millionth, and no superfluous zero |
| `JcsNumber.TrimPreserves` | causal_continuity_engine/core.py:253-269 | trimming zeros moves the point and not the value |
| `JcsNumber.CoefficientUnique` | causal_continuity_engine/core.py:253-269 | a value has one coefficient without trailing zeros, and one exponent |
| `KeyOrder.Utf16Injective` | causal_continuity_engine/core.py:292-294 | the sort key determines the string |
| `KeyOrder.BeforeTotal` | causal_continuity_engine/core.py:292-294 | any two different keys are ordered, one way only |
| `KeyOrder.BeforeTransitive` | causal_continuity_engine/core.py:292-294 | the order of keys is transitive |
| `KeyOrder.NotCodePointOrder` | causal_continuity_engine/core.py:292-294 | supplementary characters sort before those from U+E000 on |
| `KeyOrder.BeforeIff` | causal_continuity_engine/core.py:292-294 | keys are in order if and only if one is a proper prefix of the other or has the earlier character at the first difference, where supplementary characters come between U+D7FF and U+E000 |
| `CanonicalJson.CanonicalIffSame` | causal_continuity_engine/core.py:297-349 | a value has a canonical text if and only if it is within I-JSON, and two values have the same text if and only if they are the same value |
| `CanonicalJson.InsertionOrderIrrelevant` | causal_continuity_engine/core.py:325-345 | dictionaries with the same members in any order have the same text, or neither has one |
| `CanonicalJson.EmitUnique` | causal_continuity_engine/core.py:297-345 | unique readability: text and continuation determine the value and the rest |
| `CanonicalJson.StringUnique` | causal_continuity_engine/core.py:218-235 | an escaped string is readable in one way only |
| `CanonicalJson.QuoteString` | causal_continuity_engine/core.py:224-235 | building the quoted text piece by piece gives the specified escaping, and rejects what I-JSON excludes |
| `CanonicalJson.SortSorts` | causal_continuity_engine/core.py:325-345 | members are emitted in strictly increasing key order |
| `JsonText.StringReadsBack` | causal_continuity_engine/core.py:218-235 | a reader of RFC 8259 strings gives back every escaped string, and what follows it |
| `JsonText.EscapesAreShortest` | causal_continuity_engine/core.py:218-235 | characters allowed bare stand for themselves, the others take a short escape where there is one and otherwise four lower-case hexadecimal digits |
| `JsonText.CanonicalSpells` | causal_continuity_engine/core.py:297-349 | the canonical text is a JSON text of the value by the grammar of RFC 8259, without white space, with members in key order |
| `JsonText.RefusedIff` | causal_continuity_engine/core.py:207-250 | a value is refused if and only if it holds a number binary64 cannot represent, or a string or key with a noncharacter |
| `Lamport.SignedVerifies` | causal_continuity_engine/lamport.py:106-138 | what is signed verifies, for every message, key and hash |
| `Lamport.Verify` | causal_continuity_engine/lamport.py:120-138 | true exactly when every well-formed block hashes to the public block its digest bit selects, with no early return |
| `LamportLayout.RevealedBlock` | causal_continuity_engine/lamport.py:100-117 | block `i` of a signature is the first of private pair `i` for a zero bit and the second for a one, bits taken byte by byte from the highest; public blocks are hashes of the private blocks in the same place |
| `LamportLayout.VerifiesIff` | causal_continuity_engine/lamport.py:120-138 | a signature verifies if and only if there are 256 pairs and blocks of 32 bytes and each block hashes to the public block its bit stands for |
| `Lamport.ForgeryRevealsSecret` | causal_continuity_engine/lamport.py:100-138 | a signature that verifies for a message with another digest contains a preimage of a public block the first signature kept secret |
| `Lamport.BitsDetermine` | causal_continuity_engine/lamport.py:100-103 | digests with the same bits are the same |
| `Lamport.DecodeEncode` | causal_continuity_engine/lamport.py:141-163 | decoding an encoded key and an encoded signature gives them back |
| `Lamport.EncodingUnique` | causal_continuity_engine/lamport.py:145-155 | whatever decodes to a key is that key's one encoding |
| `Lamport.HexCanonical` | causal_continuity_engine/lamport.py:145-163 | hexadecimal text that decodes is the canonical text of its bytes |
| `LamportLayout.HexAt` | causal_continuity_engine/lamport.py:141-142 | two lower-case digits for each byte, the high one first |
| `LamportLayout.EncodedAt` | causal_continuity_engine/lamport.py:228-234 | item `i` of an encoded key or signature is the text of its pair or block `i` |
| `Lamport.FingerprintBinds` | causal_continuity_engine/lamport.py:88-97 | two keys with one fingerprint are one key or a collision of the hash |
| `LamportLayout.FlatAt` | causal_continuity_engine/lamport.py:88-97 | a key is fingerprinted over its pairs in order, the first block of each before the second |
| `LamportLayout.FingerprintIs` | causal_continuity_engine/lamport.py:42-97 | a fingerprint is the prefix and the digits of that hash; canonical ones are the texts of that form |
| `Lamport.SignedIsAuthentic` | causal_continuity_engine/lamport.py:214-303 | a signed object passes the integrity check and is authentic for exactly the verifiers that expect its fingerprint |
| `Lamport.AuthenticIsStated` | causal_continuity_engine/lamport.py:265-303 | an envelope a stranger accepts carries a message signed under an expected fingerprint, or its author found a collision or a secret preimage |
| `LamportLayout.AuthenticIff` | causal_continuity_engine/lamport.py:236-306 | an envelope is intact if and only if its complete signature covers its body under the key it carries, and accepted if and only if moreover that key has the declared fingerprint and a verifier with canonical expectations expects it |
| `Lamport.Signer.SignObject` | causal_continuity_engine/lamport.py:214-234 | the fresh key's fingerprint is recorded and vouched for, and the result is authentic for this signer; a body without canonical text changes nothing |
| `Lamport.Signer.Register` | causal_continuity_engine/lamport.py:194-196 | only canonical fingerprints are registered |
| `SignedJson.MessageIffSame` | causal_continuity_engine/lamport.py:214-234 | two values are signed as the same bytes if and only if they are the same value |
| `SignedJson.AcceptedIsSignedValue` | causal_continuity_engine/lamport.py:265-303 | an accepted envelope carries the very JSON value that was signed, or breaks the hash |

## Left out

- Traversal.Dependents: compares and orders by the unrounded strength; rounding to four places and the order of the returned list are not modelled, nor are edge rows changing during a traversal.
- InvalidationEngine.Engine.FireAt: the severity, explanation and recommendation texts, the audit rows and the policy downgrade of a fire, which a gated fire of critical severity makes too, are outside the state; the status a receipt records of an invalidation it applies to is not modelled.
- InvalidationEngine.Engine.ResolveOpen: the typed evidence of a resolution is one input flag; replacement edges, reopened validity and the scope written on the target are not modelled, only its status and whether the scope ends its authority.
- Invalidation: other code changing the status or the authority of a node between steps, and invalidation nodes being themselves targets.
- Invalidation.RunTracks: holds under the freshness condition that Invalidation.CarriedIffFresh proves exact, and is about a node whose mandate has not ended and whose first status is not null, because restoration is skipped for the one and falls back to a default for the other.
- Projection: retention clearing payloads after the fact, concurrency between processes, and the content of extraction, which is a deterministic function of the view and the event; writes that library calls make without an event, whose rows are attributed to none.
- SourceRevisions.ProcessTextRows: confirmed nodes invalidated and closed by a withdrawal are not modelled.
- Bitemporal.Graph.PutNode: generated identifiers, the list of entity types and the shape of identifiers, texts and times are not modelled; a time is a number and a scope its canonical text.
- Bitemporal.Graph.AsOfTime: returns rows in insertion order, where the source asks for no order.
- Bitemporal: edge rows (`put_edge`, `end_edge`).
- Authority.Engine.RecordDecision: the two invalidation operations of the decision log, near-duplicate conflicts and the invalidations fired by a revocation are not modelled; how proposals become stale or withdrawn is an input.
- Authority.Engine.ValidateOperands: of the request grammar only the version bound and the shape of scopes, which are taken in their sorted form; not the operands of the two invalidation operations.
- Authority.Engine.AuthorityIsCurrent: speaks of the nodes that confirmations make; a node no extractor ever wrote is current in the source unless it is quarantined.
- Authority.RetryReturnsReceipt: the retention sweep that clears a decision's payload, after which a retry is an error and the fold cannot be derived, is not among the steps.
- Authority: digests may collide; nothing here relies on them not to.
- Completion.Engine.CompleteTask: what makes a proof authentic, current or well graded, the obligation basis of a task and the digest of a verifier definition are inputs; the action edge a completion writes is not modelled.
- Completion.Engine.BackfillSpentProofs: the order the database lists rows in is an input, and rows with unreadable data count as rows without evidence.
- ReplayComparator: how nodes and edges are rendered, and the counts of compared items.
- CanonicalJson: host values that are not JSON or contain themselves, which of several faults is reported, and lone surrogates, which the character type excludes.
- Lamport: the quality of key generation, timing of the comparison, and secrecy; Lamport.AuthenticIsStated names what an attacker must find instead of bounding how hard that is.
- Graph queries (`current`, `history`, `provenance`), resume packets, continuity checks and their signed receipts.
- HTTP, command line, connectors, webhook handling, file snapshots, verifier execution, schema and migration checks, capture and redaction, capsules and learning: plumbing and field validation.
