# Palimpsest: a verified model of the path from a commit to a subscriber

Palimpsest mirrors Postgres tables from the write-ahead log, maintains queries over them
incrementally, and streams each subscriber a snapshot followed by a live tail of diffs that its
permission rules let it see. This project models the parts where that path could lose, repeat or
reveal something, and proves that it does not:

- **Capture** (`Lattice`, `Frontier`, `Capture`, `CaptureReader`, `CaptureIter`, `CaptureSink`):
  update and progress messages that may be duplicated and re-ordered, over partially ordered times.
  The reader keeps a set of held updates, a signed count of announced minus received updates per
  time, and a queue of statements that are not actionable yet. Whatever the order, it emits each
  true update once, in carved intervals, and the frontier it reaches depends only on the set of
  messages. The sink's recording is one that such a reader reproduces exactly.
- **Consolidation** (`Differences`, `Consolidation`, `ContainerBuilder`, `Compaction`): in-place
  accumulation of differences of any commutative semigroup, the stateful container builder around
  it, and logical compaction of a history by advancing its times.
- **Postgres ingest** (`SnapshotFence`, `WalTypes`, `QuerySnapshot`, `Database`, `Runtime`,
  `TruncateOrder`, `CommitEffects`, `JournalCursor`, `LiveTail`, `Ingest`, `StreamSession`,
  `IngestTask`, `IngestWitness`): an xid-fenced snapshot, the assembly of pgoutput frames into
  transactions, a mirror bag per table, a bounded journal that drops from the front, the seed of a
  subscriber's dataflow, anchored cursors over a journal that keeps growing, and reconnecting with
  reconciliation. `Database` is the reference: a log of commits and its replay. `Ingest` is a state
  machine over every interleaving of frames, keepalives, status reports, disconnects,
  reconciliations and session starts; `StreamSession` and `IngestTask` are the code's loops, which
  take paths of that machine.
- **Permissions** (`Framing`, `Uuid`, `UserValues`, `Predicates`, `Placeholders`, `PredicateText`,
  `SqlConstants`, `PredicateReader`, `Visibility`, `EngineEval`, `EngineForms`, `Rewriter`,
  `SubgraphKey`, `RuleVersions`): binding a rule's text to a user, from the literals spliced in to
  the predicate that the text reads as; splicing rules into a query graph, recursive ones included;
  two ways of evaluating predicates; the keys by which users share a dataflow; and the versions of
  rules over whole histories of installs.

Where the source updates things in place the model is a class or an in-place array method, proved
against a specification function or predicate; the theorems are then about that specification.
Where a property does not hold of the code in general, the code is modelled as it is, a lemma gives
the failing input, and another states exactly when the property holds. Where Dafny would try
induction by itself, the lemma says `{:induction false}` and its body is the proof.

## What is taken for granted

- *Capture.* Each message is true of one assignment of updates to times: an updates message lists
  true updates and repeats none within itself, and a statement lists exact counts for times in its
  interval only. The sink's input respects its frontier and is consolidated, and counts still in
  flight lie beyond any new frontier. `MutableAntichain` is a map of signed counts whose frontier is
  the minimal times with a positive count; an antichain is a set, as its equality ignores order.
- *Atomic steps.* One frame, one `fetch_snapshot` and one `next_batch` each happen at once. The code
  stores the clock after releasing the mirror lock (crates/palimpsest-postgres/src/runtime.rs:306-308)
  and reads it after releasing the lock (crates/palimpsest-postgres/src/runtime.rs:424-427), so rows
  and clock can be of different moments; `JournalCursors.TailCompletesIff` says, for rows of any moment
  and any clock, exactly when a snapshot and its tail still add up to the mirror.
- *The server.* As in sections 55.4 and 55.5 of the PostgreSQL 16 manual, it streams the commits
  after the confirmed flush LSN in commit order with increasing LSNs, each from its Begin frame to
  its Commit frame, with full old rows (replica identity FULL). A snapshot sees a prefix of the
  commit order that covers what had been mirrored; transaction ids stay within half a wrap of the
  horizon; what a commit does to the rows of a table before it truncates the table is undone before
  it does (`TruncateOrder.Harmless`; without that, `CommitEffects.CommitExactIff` says that the
  mirror or its diffs go wrong). That a snapshot's LSN tells what the snapshot saw is not taken for
  granted, as the two are read apart (crates/palimpsest-postgres/src/replication.rs:403-406): the
  mirror does not depend on it, and results on live tails ask for it (`Ingest.InTime`).
- *Queries.* Relational operators, comparison operators and the evaluation of recursive queries are
  arbitrary functions, so results hold for every choice of them. What a predicate admits is arbitrary
  too, as long as a disjunction admits what a disjunct admits, TRUE admits everything and binding
  changes nothing: `EngineEval` shows this of the engine's own two-valued evaluator and of SQL's
  three-valued logic. Floats and JSON documents are identified with their printed form; a length
  prefix counts UTF-8 bytes.

## Model

| member | source | states |
|---|---|---|
| Lattices.TotalOrderIsLattice | crates/palimpsest-dataflow/src/lattice.rs:229-259 | maximum and minimum are least upper and greatest lower bounds of totally ordered times |
| Lattices.ProductIsLattice | crates/palimpsest-dataflow/src/lattice.rs:157-172 | the componentwise join and meet of a product of lattices are its least upper and greatest lower bounds |
| Lattices.LexJoinIsLub | crates/palimpsest-dataflow/src/lattice.rs:202-215 | the join of lexicographic pairs is the least upper bound, also when the first components are incomparable and the minimum stands in for the second |
| Lattices.LexMeetIsGlb | crates/palimpsest-dataflow/src/lattice.rs:216-227 | the meet of lexicographic pairs is the greatest lower bound, also when the maximum stands in for the second component |
| Lattices.LexicographicIsLattice | crates/palimpsest-dataflow/src/lattice.rs:202-227 | lexicographic pairs over lattices with a minimum and a maximum obey all lattice laws |
| Frontiers.FrontierLeqMeaning | crates/palimpsest-dataflow/src/lattice.rs:355-375 | the order of frontiers is reverse inclusion of the times beyond them |
| Frontiers.FrontierUnique | crates/palimpsest-dataflow/src/lattice.rs:355-375 | an antichain is determined by the times beyond it |
| Frontiers.AntichainJoin | crates/palimpsest-dataflow/src/lattice.rs:314-321 | the loop of pairwise joins yields the antichain whose future is the intersection of the futures of its inputs, which need not be antichains |
| Frontiers.AntichainMeet | crates/palimpsest-dataflow/src/lattice.rs:344-353 | the loop of insertions yields the antichain whose future is the union of the futures |
| Frontiers.JoinFrontierIsLub | crates/palimpsest-dataflow/src/lattice.rs:355-364 | the antichain of the intersected futures is the least upper bound in the frontier order |
| Frontiers.MeetFrontierIsGlb | crates/palimpsest-dataflow/src/lattice.rs:365-374 | the antichain of the united futures is the greatest lower bound in the frontier order |
| Frontiers.AdvanceBy | crates/palimpsest-dataflow/src/lattice.rs:140-152 | the loop computes the meet over the frontier of the joins with the time, and leaves the time alone under an empty frontier |
| Frontiers.AdvanceIsGreatest | crates/palimpsest-dataflow/src/lattice.rs:140-152 | under a non-empty frontier the advanced time compares like the original with every time beyond the frontier, and is the greatest time that does |
| Frontiers.AdvanceIsCanonical | crates/palimpsest-dataflow/src/lattice.rs:140-152 | two times are indistinguishable beyond the frontier if and only if they advance to the same time |
| Frontiers.AdvanceIdempotent | crates/palimpsest-dataflow/src/lattice.rs:140-152 | advancing twice by one frontier is advancing once |
| Capture.OrderIndependence | crates/palimpsest-dataflow/src/capture.rs:121-195 | two readings of the same set of messages, in any order and with any duplication, settle on the same accepted and reported frontiers |
| Capture.Completeness | crates/palimpsest-dataflow/src/capture.rs:149-192 | once a chain of statements from the minimum to a frontier and all updates before it have arrived, in any order, the reported frontier is at or past it |
| CaptureReader.KeptIsNew | crates/palimpsest-dataflow/src/capture.rs:131-133 | the updates kept of a message are exactly those never received before, although only unreported ones are remembered |
| CaptureReader.CountsExactIffNoRepeat | crates/palimpsest-dataflow/src/capture.rs:128-140 | a true updates message keeps the signed counts exact if and only if what is kept of it repeats no triple |
| CaptureReader.RepeatedTripleLosesUpdate | crates/palimpsest-dataflow/src/capture.rs:128-140 | a message with one triple twice makes the counts balance and the bound pass a time one of whose updates never arrived |
| CaptureReader.AcceptUpdatesKeepsInv | crates/palimpsest-dataflow/src/capture.rs:128-140 | receiving updates keeps the invariant that ties held updates, counts and frontiers to the messages consumed |
| CaptureReader.StatementCounts | crates/palimpsest-dataflow/src/capture.rs:155-170 | the counts taken from an actionable statement are the true counts on exactly the times the progress frontier moves past |
| CaptureReader.StatementsExactAfterStatement | crates/palimpsest-dataflow/src/capture.rs:149-177 | acting on a statement and pruning covered ones loses no statement, and the progress frontier never outruns what the statements imply |
| CaptureReader.ActOnKeepsInv | crates/palimpsest-dataflow/src/capture.rs:149-177 | acting on any actionable statement keeps the invariant |
| CaptureReader.LowerBoundIsSafe | crates/palimpsest-dataflow/src/capture.rs:180-191 | the lower bound never retreats, and before it every true update has been received |
| CaptureReader.CarvedInterval | crates/palimpsest-dataflow/src/capture.rs:180-191 | the held updates not beyond the new bound are exactly the true updates between the old frontier and the new one |
| CaptureReader.QuiescentIsSettled | crates/palimpsest-dataflow/src/capture.rs:121-195 | between calls the reader's frontiers are the ones the consumed messages determine |
| CaptureIter.Iter.constructor | crates/palimpsest-dataflow/src/capture.rs:206-215 | a new reader stands at the minimum with the invariant established |
| CaptureIter.Iter.Next | crates/palimpsest-dataflow/src/capture.rs:121-195 | a batch is exactly the true updates between the old and the strictly later new frontier, once each; no batch means the source is exhausted; all emitted so far is exactly the true updates not beyond the frontier |
| CaptureIter.Iter.Accept | crates/palimpsest-dataflow/src/capture.rs:128-144 | a message has exactly the effect the reader's specification gives, and keeps the invariant |
| CaptureIter.Iter.DrainProgress | crates/palimpsest-dataflow/src/capture.rs:149-177 | the drain terminates with no actionable statement left, the invariant intact |
| CaptureIter.Iter.ActOnStatement | crates/palimpsest-dataflow/src/capture.rs:155-176 | removing, counting, joining and pruning have exactly the specified effect, and the queue shrinks, and keeps of the other statements exactly those whose upper bound the frontier has not reached |
| CaptureIter.Iter.Publish | crates/palimpsest-dataflow/src/capture.rs:182-191 | the batch handed over is the carved interval and the frontier moves to the bound |
| CaptureIter.PositiveFrontier | crates/palimpsest-dataflow/src/capture.rs:178-181 | the frontier of the signed counts is the antichain of the minimal times with a positive count |
| CaptureIter.Replay | crates/palimpsest-dataflow/src/capture.rs:121-195 | reading a whole stream emits exactly the true updates not beyond the final frontier, once each, and that frontier is the settled one |
| CaptureSink.Sink.WriteUpdates | crates/palimpsest-dataflow/src/capture.rs:617-630 | writing a batch records it, sends the number of its updates at each of their times, and keeps every recorded message true |
| CaptureSink.SumTimes | crates/palimpsest-dataflow/src/capture.rs:617-630 | the counts sent are positive, sum to the occurrences of every time, and are for times that occur |
| CaptureSink.Sink.ReceiveCounts | crates/palimpsest-dataflow/src/capture.rs:679-681 | counts received in any order are added to those not yet announced, and nothing is lost in between |
| CaptureSink.Sink.AdvanceTo | crates/palimpsest-dataflow/src/capture.rs:688-714 | a strict advance appends one statement for exactly the interval passed; anything else writes nothing; the statements stay a gapless chain of true statements |
| CaptureSink.AnnouncementIsTrue | crates/palimpsest-dataflow/src/capture.rs:695-711 | the announced counts are the exact counts of the interval, and the retained ones account for all later input |
| CaptureSink.Split | crates/palimpsest-dataflow/src/capture.rs:695-703 | draining the counts splits them at the new frontier without changing a total |
| CaptureSink.RecordingSettles | crates/palimpsest-dataflow/src/capture.rs:688-714 | any reader of a recording, however duplicated and re-ordered, settles on the sink's own frontier |
| CaptureSink.RoundTrip | crates/palimpsest-dataflow/src/capture.rs:587-720 | reading any duplicated and re-ordered copy of what a sink wrote yields its input up to its frontier, each update once |
| Differences.SumPermutation | crates/palimpsest-dataflow/src/consolidation.rs:51-56 | the sum of any selection of keys does not depend on the order of the entries |
| Consolidation.CompactConsolidates | crates/palimpsest-dataflow/src/consolidation.rs:58-79 | accumulating a sorted slice leaves it strictly sorted by key, without zeros, and with the same sums |
| Consolidation.EntryIsSum | crates/palimpsest-dataflow/src/consolidation.rs:51-79 | an entry is in a consolidated slice if and only if its difference is the non-zero sum of its key's input differences |
| Consolidation.ConsolidatedUnique | crates/palimpsest-dataflow/src/consolidation.rs:51-79 | inputs with the same sums consolidate to the same slice |
| Consolidation.ConsolidateSliceSlow | crates/palimpsest-dataflow/src/consolidation.rs:51-79 | sorting and accumulating in place leaves the consolidated form of the input in the returned prefix |
| Consolidation.CompactInPlace | crates/palimpsest-dataflow/src/consolidation.rs:116-144 | swapping into the scanned array computes the same prefix as accumulating into a fresh list |
| Consolidation.ConsolidateSlice | crates/palimpsest-dataflow/src/consolidation.rs:42-48 | slices of any length are consolidated, the short ones by the zero test alone |
| Consolidation.ConsolidateFrom | crates/palimpsest-dataflow/src/consolidation.rs:35-38 | entries before the offset stay, those from it on are consolidated and truncated |
| Consolidation.ConsolidateInto | crates/palimpsest-dataflow/src/consolidation.rs:284-314 | the default form appends the consolidated source to the target |
| Consolidation.ConsolidateIntoVec | crates/palimpsest-dataflow/src/consolidation.rs:359-362 | the vector form leaves the consolidated source in the target and the old target in the source |
| Consolidation.IntoFormsAgreeIffEmpty | crates/palimpsest-dataflow/src/consolidation.rs:284-362 | the two forms leave the same target if and only if the target starts empty |
| ContainerBuilder.ConsolidatingContainerBuilder.PushInto | crates/palimpsest-dataflow/src/consolidation.rs:194-205 | pushing conserves the sums over pushed, current, outbound and shipped; when the buffer is full, what goes out and what stays is the consolidated form of the buffer, and the containers completed are exactly full |
| ContainerBuilder.ConsolidatingContainerBuilder.ConsolidateAndFlushThrough | crates/palimpsest-dataflow/src/consolidation.rs:164-180 | what is flushed and what stays is, together, the consolidated form of the buffer: sorted, each key once with its sum, and no zero; fewer than the multiple stay |
| ContainerBuilder.ConsolidatingContainerBuilder.Ship | crates/palimpsest-dataflow/src/consolidation.rs:170-179 | packing keeps exactly the entries, in order, in containers that are never empty or oversized |
| ContainerBuilder.ConsolidatingContainerBuilder.Extract | crates/palimpsest-dataflow/src/consolidation.rs:217-224 | the first outbound container is shipped, and none is returned only if there is none |
| ContainerBuilder.ConsolidatingContainerBuilder.Finish | crates/palimpsest-dataflow/src/consolidation.rs:227-236 | what is still held is handed out in its consolidated form; when nothing is returned, what was shipped has the sums of everything pushed |
| ContainerBuilder.BuildAll | crates/palimpsest-dataflow/src/consolidation.rs:164-236 | pushing every item and draining the builder yields non-empty containers within capacity with the sums of the items, none of which repeats a key or holds a zero |
| Compaction.AdvancedAccumulates | crates/palimpsest-dataflow/src/lattice.rs:140-152 | advancing every time by a non-empty frontier changes no accumulation at a time beyond it |
| Compaction.CompactHistory | crates/palimpsest-dataflow/src/consolidation.rs:116-144 | advancing and consolidating keeps every datum's accumulated difference at every time beyond the frontier, with at most one non-zero entry per datum and time |
| SnapshotFences.FenceComparison | crates/palimpsest-postgres/src/replication.rs:363-376 | the wrapped 32-bit comparison decides by the distance to the horizon modulo a full wrap |
| SnapshotFences.FenceIsExact | crates/palimpsest-postgres/src/replication.rs:363-376 | within half a wrap of the horizon the fence holds of an id if and only if the snapshot saw it, across any number of wraparounds |
| SnapshotFences.FenceRightIff | crates/palimpsest-postgres/src/replication.rs:363-376 | for every fence and every id: one that shares its 32 bits with an id in progress is judged right if and only if the snapshot did not see it; any other if and only if the side of the horizon it lies on is also the nearer one modulo a wrap |
| SnapshotFences.NewCommitSkipped | crates/palimpsest-postgres/src/replication.rs:363-376 | half a wrap ahead of any horizon, a commit the snapshot did not see is skipped |
| SnapshotFences.OldCommitApplied | crates/palimpsest-postgres/src/replication.rs:363-376 | more than half a wrap behind the horizon, a commit the snapshot saw is applied again |
| SnapshotFences.CollidingCommitApplied | crates/palimpsest-postgres/src/replication.rs:363-376 | a whole wrap before an id in progress, a commit the snapshot saw is applied again |
| WalTypes.ImageResolves | crates/palimpsest-postgres/src/runtime.rs:399-410 | resolving an image that leaves out unchanged columns against the old row recovers the new row |
| Runtime.RegisterTables | crates/palimpsest-postgres/src/runtime.rs:159-176 | a qualified name stands for the last table registered with it, a bare name for the first, unless it is a qualified one, and there are no other names |
| Runtime.PostgresWalRuntime.constructor | crates/palimpsest-postgres/src/runtime.rs:105-190 | a new runtime knows the columns of every introspected table, has nothing mirrored or journalled, and a journal of the capacity asked for, or of one |
| Runtime.PostgresWalRuntime.Push | crates/palimpsest-postgres/src/runtime.rs:115-123 | the bounded journal stays the end of the untruncated history, and remembers the highest LSN it dropped |
| Runtime.PostgresWalRuntime.ApplyTransaction | crates/palimpsest-postgres/src/runtime.rs:237-309 | every table's bag is the one after the changes in order, and the history grows by exactly their diffs at the commit's LSN |
| Runtime.PostgresWalRuntime.ApplyTruncate | crates/palimpsest-postgres/src/runtime.rs:313-331 | the tables are emptied, the others untouched, and the retractions account for every row taken away |
| Runtime.CountRows | crates/palimpsest-postgres/src/runtime.rs:340-352 | the counting pass gives each row's signed difference between the two lists |
| Runtime.DifferenceDiffs | crates/palimpsest-postgres/src/runtime.rs:352-364 | as many diffs of the right sign are emitted for each row as its count says |
| Runtime.PostgresWalRuntime.ReconcileSnapshot | crates/palimpsest-postgres/src/runtime.rs:337-369 | the fresh rows are adopted, and the emitted diffs are exactly the bag difference of each streamed table |
| Runtime.ExtendsTransitive | crates/palimpsest-postgres/src/runtime.rs:237-369 | over any run of steps the emitted diffs account for every change, lie after the earlier clock and stay in LSN order |
| QuerySnapshots.ListedOnceIff | crates/palimpsest-postgres/src/runtime.rs:373-393 | a table is listed once for a query if and only if the query does not call it by two names |
| QuerySnapshots.SnapshotToSeedUpdates | crates/palimpsest-server/src/snapshot.rs:71-81 | the nested loops give the updates that the results on seeding are about, each at the LSN of the snapshot |
| QuerySnapshots.SeedRightIff | crates/palimpsest-server/src/snapshot.rs:71-81 | the updates that seed a dataflow from a snapshot amount to the mirror's rows if and only if every table listed more than once is empty |
| QuerySnapshots.OneNameSeedsRight | crates/palimpsest-postgres/src/runtime.rs:373-393 | a query that calls no table by two names is seeded right, whatever the tables hold |
| QuerySnapshots.TwoNamesSeedTwice | crates/palimpsest-postgres/src/runtime.rs:159-175 | a table called by its bare and by its qualified name is listed twice, and each of its rows seeded twice |
| Runtime.PostgresWalRuntime.QueryTables | crates/palimpsest-postgres/src/runtime.rs:373-393 | the tables of the query's names, each name once, or an error if and only if the query does not parse or names a table that is not streamed; no table repeats if and only if no two names stand for one |
| Runtime.PostgresWalRuntime.FetchSnapshot | crates/palimpsest-postgres/src/runtime.rs:413-429 | a snapshot is the clock and, for each table listed, a copy of its mirrored rows, and is refused exactly after a failure or when the query does not resolve |
| JournalCursors.JournalCursor.NextDiff | crates/palimpsest-postgres/src/runtime.rs:535-562 | what has been yielded is always the relevant diffs of a prefix of the untruncated history; a cursor that lost entries yields nothing and stays that way |
| JournalCursors.JournalCursor.PeekLsn | crates/palimpsest-postgres/src/runtime.rs:564-580 | peeking gives the LSN of the diff that would be yielded next |
| JournalCursors.JournalCursor.NextBatch | crates/palimpsest-server/src/cursor.rs:50-72 | on any journal a batch is of one LSN, up to where the LSN changes; on one in LSN order, from between commits, it is every relevant diff of one commit, never part of one or two merged, even when the commit exceeds the journal |
| JournalCursors.WholeTransaction | crates/palimpsest-server/src/cursor.rs:50-72 | what lies between a commit boundary and the next change of LSN is one whole transaction, and ends at a boundary |
| JournalCursors.OpenCursor | crates/palimpsest-postgres/src/runtime.rs:458-486 | a cursor is refused exactly when the runtime failed, the query does not resolve or some dropped diff lies after the anchor; an accepted one starts at a boundary with nothing missed |
| JournalCursors.BoundaryPersists | crates/palimpsest-postgres/src/runtime.rs:535-580 | a boundary stays one when later commits are appended |
| JournalCursors.SnapshotPlusTail | crates/palimpsest-postgres/src/runtime.rs:413-486 | in whatever way the history has been extended since the snapshot, the relevant diffs and the snapshot bag are the current mirror, row by row (`LiveTail.DrainTail` applies it to a cursor) |
| JournalCursors.TailCompletesIff | crates/palimpsest-postgres/src/runtime.rs:413-486 | for rows copied at any view, any clock and any later history, in LSN order or not: rows and tail add up to the mirror if and only if the later diffs at or before the clock, which the cursor passes over, amount to the earlier ones after it, which it repeats |
| JournalCursors.ReadToEndAddsUpIff | crates/palimpsest-postgres/src/runtime.rs:526-562 | the same of what a cursor that has read to the end has itself yielded |
| JournalCursors.LateCommitIsMissed | crates/palimpsest-postgres/src/runtime.rs:526-531 | a commit that lands at or before the clock of a snapshot that has not seen it is missed by the tail |
| JournalCursors.StaleClockRepeats | crates/palimpsest-postgres/src/runtime.rs:306-308 | a commit that is in the rows but after the clock read with them is repeated by the tail |
| JournalCursors.BatchByLsn | crates/palimpsest-server/src/cursor.rs:170-183 | on any journal the inversion error occurs if and only if what was unread is not in LSN order; otherwise the batches are all of it, in strictly increasing LSN order, and whole transactions where the journal is in LSN order |
| CommitEffects.ChangesAreRowOps | crates/palimpsest-postgres/src/replication.rs:690-703 | the assembled changes do to each streamed table what the commit's row operations do, and their diffs are the operations' net effect |
| CommitEffects.TransactionConserves | crates/palimpsest-postgres/src/runtime.rs:237-309 | every retracted row is present when it is retracted, so the diffs account for the change |
| CommitEffects.CommitIsMirrored | crates/palimpsest-postgres/src/replication.rs:715-732 | applying an assembled harmless commit to a mirror of the database leaves a mirror of the database after it, and the diffs account for the change |
| CommitEffects.CommitExactIff | crates/palimpsest-postgres/src/replication.rs:715-732 | for any commit, with truncates anywhere: the mirror is right and the diffs account for the change if and only if, for each streamed table, what is done to its rows before its last truncate leaves no row and adds up to nothing |
| CommitEffects.EmittedByCommit | crates/palimpsest-postgres/src/replication.rs:725-732 | what the two calls of a commit emit, for commits with truncates anywhere |
| TruncateOrder.CommitMirrorRightIff | crates/palimpsest-postgres/src/replication.rs:725-730 | for any commit, the mirror of a table is right after it if and only if the row operations before the table's last truncate, applied to an empty table, leave it empty |
| TruncateOrder.CommitNetExactIff | crates/palimpsest-postgres/src/replication.rs:725-730 | for any commit, the diffs emitted for a table amount to its change if and only if the row operations before the last truncate cancel out |
| TruncateOrder.HarmlessIsApplicable | crates/palimpsest-postgres/src/replication.rs:725-730 | under both conditions every row that is taken away is there when it is, although truncates are applied first |
| TruncateOrder.TruncatesFirstIsHarmless | crates/palimpsest-postgres/src/replication.rs:725-730 | a commit that changes no row of a table before truncating it meets both conditions |
| TruncateOrder.InsertThenTruncateResurrects | crates/palimpsest-postgres/src/replication.rs:725-730 | a row inserted and truncated away in one commit stays in the mirror and is emitted as a live insertion |
| TruncateOrder.DeleteThenTruncateRetractsTwice | crates/palimpsest-postgres/src/replication.rs:725-730 | a row deleted before its table is truncated leaves the mirror right but is retracted twice |
| LiveTail.CursorSurvives | crates/palimpsest-postgres/src/runtime.rs:237-369 | whatever the runtime does to its mirror and journal, a cursor's yielded diffs stay the relevant ones of a prefix, and one that lost entries stays so |
| LiveTail.StillFollows | crates/palimpsest-postgres/src/runtime.rs:413-486 | a cursor anchored at a snapshot still follows it after any further steps of the runtime |
| LiveTail.Subscribe | crates/palimpsest-postgres/src/runtime.rs:413-486 | a seed and a cursor at its clock are refused only after a failure or for a query that does not resolve; nothing is missing between the two, every update of the seed is at the clock, and the seed is the mirror if and only if no table that has rows is listed twice |
| LiveTail.DrainTail | crates/palimpsest-postgres/src/runtime.rs:535-580 | however much the journal has grown since, unless it dropped entries not yet read, the snapshot and all that the cursor has yielded add up to the mirror, in whole transactions |
| Ingest.ApplyFrame | crates/palimpsest-postgres/src/replication.rs:674-767 | only a commit frame of a transaction the snapshot has not seen changes the mirror; the frame is fatal if and only if it gives a streamed table other columns than those introspected, a transport error if and only if it does not decode, and its LSN lands if and only if it commits an open transaction |
| Ingest.FenceDecides | crates/palimpsest-postgres/src/replication.rs:715-724 | a streamed commit is skipped if and only if the last snapshot saw it |
| Ingest.StepKeepsInv | crates/palimpsest-postgres/src/replication.rs:506-556 | every step of the machine keeps the invariant, and its diffs account for what it changes |
| Ingest.MirrorIsReplay | crates/palimpsest-postgres/src/replication.rs:506-556 | in every state of every run of harmless commits, across any cuts and reconciliations, the mirror is the replay of the log through the later of the snapshot and the last commit received in full |
| Ingest.PositionAdvances | crates/palimpsest-postgres/src/replication.rs:506-556 | what has been mirrored never goes back |
| Ingest.FlushedIsMirrored | crates/palimpsest-postgres/src/replication.rs:610-660 | in every state of every run, each commit at or below a flush LSN that is or would be reported is reflected in the mirror |
| Ingest.SessionLsnsAdvance | crates/palimpsest-postgres/src/replication.rs:610-660 | within a session the reported LSNs never decrease |
| Ingest.RunConserves | crates/palimpsest-postgres/src/replication.rs:506-556 | between any two states of any run the emitted diffs account for the change of every bag, whatever the order of their LSNs |
| Ingest.RunExtends | crates/palimpsest-postgres/src/replication.rs:506-556 | in a run in time they also come in LSN order, after the earlier clock |
| Ingest.SubscriberSeesDatabase | crates/palimpsest-postgres/src/runtime.rs:413-562 | a snapshot at one moment of a run in time plus what a cursor anchored at its clock has yielded when it is drained at a later one is the replay of the commit log through what has been mirrored by then |
| Ingest.SubscriberRightIff | crates/palimpsest-postgres/src/runtime.rs:413-562 | in any run, in time or not, and for any anchor: rows copied at one moment and what a cursor has yielded when it has read to the end at a later one are the replay of the log if and only if it passed over as much as it repeats |
| StreamSessions.StreamSession | crates/palimpsest-postgres/src/replication.rs:606-663 | the loop takes the events through the first that asks for a shutdown, loses the connection, does not decode or shows a streamed table with other columns, and its outcome tells which, fatal if and only if the last; it reports the applied LSN exactly where a report is due, and takes a path of the ingest machine to a state in which the mirror is the replay through the last commit received in full and covers every LSN reported |
| StreamSessions.PumpEvent | crates/palimpsest-postgres/src/replication.rs:616-662 | one event moves the mirror, the two LSNs and the transaction being assembled as specified, and is answered with the applied LSN if it is a shutdown, an idle tick or a keepalive that asks for it |
| StreamSessions.EndsIff | crates/palimpsest-postgres/src/replication.rs:616-662 | an event ends a session, and how, by what it is alone: whatever the session has taken before |
| StreamSessions.ReportsAscend | crates/palimpsest-postgres/src/replication.rs:610-660 | the flush LSNs reported in a session never decrease and never pass what has been applied |
| IngestTasks.Connect | crates/palimpsest-postgres/src/replication.rs:62-68 | seeding the mirror with a fenced snapshot taken once the slot exists puts the ingest task into an initial state of the machine |
| IngestTasks.ReconcileAfterDisconnect | crates/palimpsest-postgres/src/replication.rs:771-780 | adopting a fresh snapshot after a cut is the machine's reconciliation step, whatever LSN the snapshot bears; if that tells what it saw, the step is in time |
| IngestTasks.RunSession | crates/palimpsest-postgres/src/replication.rs:570-663 | a session takes the machine from ready to the commits that its frames complete before it ends |
| IngestTasks.TakeTurn | crates/palimpsest-postgres/src/replication.rs:513-554 | a turn reconciles a fresh snapshot, except in the first, and runs a session; it ends for good if and only if drift is the first thing to end that session |
| IngestTasks.IngestTask | crates/palimpsest-postgres/src/replication.rs:506-556 | over any list of snapshots and sessions, failed attempts included, the loop takes a path of the machine to exactly the commits they amount to, goes on only after a disconnect, and latches a failure if and only if some session met a streamed table with other columns, in the last turn it took, after which nothing is applied |
| IngestTasks.ConnectAndIngest | crates/palimpsest-postgres/src/replication.rs:51-97 | from the first connection on the whole is a run of the machine, in time if the snapshots are dated, and the mirror it leaves is the replay of the log |
| IngestTasks.SubscribeAndFollow | crates/palimpsest-postgres/src/runtime.rs:413-486 | a subscriber's seed and the diffs its cursor yields after the ingest task has gone on, through any cuts and dated snapshots, are the replay of the log if and only if no table that had rows is listed twice for its query, unless the journal dropped entries it had not read |
| IngestWitness.SomeRunResyncs | crates/palimpsest-postgres/src/replication.rs:506-556 | what is taken for granted can be met: there is a run in time in which a commit is mirrored, the stream is cut, a snapshot that saw a further commit is reconciled, and the first commit is streamed again and skipped |
| IngestWitness.SomeTaskResyncs | crates/palimpsest-postgres/src/replication.rs:506-556 | so can what is asked of the server over two turns of the ingest task, with a cut and a dated snapshot in between |
| IngestWitness.SomeRunIsLate | crates/palimpsest-postgres/src/replication.rs:403-406 | there is a run that is not in time: its mirror is right, but a subscriber who takes a snapshot at its start never hears of a commit |
| Framing.DecimalReadsBack | crates/palimpsest-permissions/src/user.rs:98 | a printed number reads back, digit by digit, by character code and place value, as the number |
| Framing.DecimalIntReadsBack | crates/palimpsest-permissions/src/user.rs:98 | so does a printed integer, with its sign |
| Framing.DecimalInjective | crates/palimpsest-permissions/src/user.rs:143-146 | different lengths print differently |
| Framing.ByteLenCounts | crates/palimpsest-permissions/src/user.rs:143-146 | the length put before a frame is the number of bytes of the UTF-8 encoding |
| Framing.FrameDecodes | crates/palimpsest-permissions/src/compile.rs:107-116 | a text prefixed by its length in bytes and whatever follows it can be told apart, for arbitrary contents |
| Framing.JoinFramesInjective | crates/palimpsest-permissions/src/user.rs:143-147 | lists with the same joined frames are the same list |
| Framing.StringLeqMeans | crates/palimpsest-permissions/src/user.rs:141 | the order of representations is that of a dictionary: the first difference decides, by character code, and a beginning comes first |
| Framing.SortDedupExact | crates/palimpsest-permissions/src/user.rs:141-142 | sorting and deduplicating gives the same list if and only if the sets of strings are the same |
| Uuids.AcceptedIff | crates/palimpsest-permissions/src/user.rs:157-180 | a text is accepted as a UUID if and only if, but for blanks around it and one pair of braces, it is 32 hexadecimal digits or such digits in groups of 8, 4, 4, 4 and 12 |
| Uuids.NormalizedKeeps | crates/palimpsest-permissions/src/user.rs:157-188 | an accepted text is normalized to lower case in groups, with the same 32 digit values, each by character code, in the same places |
| Uuids.NormalizeAlikeIff | crates/palimpsest-permissions/src/user.rs:157-188 | two accepted texts normalize alike if and only if they have the same digit values |
| Uuids.NormalizeOrRawExact | crates/palimpsest-permissions/src/user.rs:157-195 | what stands for a UUID in keys and literals is the same for two texts if and only if both are accepted with the same digit values, or neither is and they are the same text |
| Uuids.NormalizedIsStable | crates/palimpsest-permissions/src/user.rs:157-188 | a normalized UUID is in canonical form: normalizing it again changes nothing |
| UserValues.ListReprExact | crates/palimpsest-permissions/src/user.rs:139-148 | two lists share a representation if and only if they have the same set of element representations |
| UserValues.ReprIsExact | crates/palimpsest-permissions/src/user.rs:117-151 | representations are equal if and only if the values are equal up to the spelling of a UUID with the same digit values and the order and repetition of list elements, at any depth and across types |
| Predicates.MaterializeKeepsMeaning | crates/palimpsest-permissions/src/compile.rs:74-95 | binding succeeds if and only if every field read is bound, and a bound predicate evaluates, in three-valued logic, as the original does in the context |
| Predicates.CanonicalWithContext | crates/palimpsest-permissions/src/compile.rs:101-119 | the loop builds the key that the exactness results are about, or reports the first unbound field |
| Predicates.KeyIsExact | crates/palimpsest-permissions/src/compile.rs:101-119 | for one predicate, two contexts get the same key if and only if every referenced field is bound to values that mean the same |
| Predicates.KeyNeedsBindings | crates/palimpsest-permissions/src/compile.rs:101-107 | a key is produced if and only if every referenced field is bound |
| Predicates.RuleKeyIsExact | crates/palimpsest-permissions/src/compile.rs:507-517 | for one rule, with or without a current-row selection, keys are equal if and only if the bindings mean the same |
| Predicates.SameBindingsSameVerdict | crates/palimpsest-permissions/src/compile.rs:74-95 | contexts whose bindings mean the same evaluate every predicate alike on every row in three-valued logic, comparisons with any or no element of a list included |
| Placeholders.Materialize | crates/palimpsest-permissions/src/compile.rs:74-95 | the loop over sentinels computes the scan that the substitution results are about, with its two errors |
| Placeholders.MaterializeSubstitutes | crates/palimpsest-permissions/src/compile.rs:74-95 | for any predicate text with well-formed field names, exactly the sentinels are replaced, each by its own value's literal, and bound values are never scanned, whatever they hold |
| Placeholders.MaterializesIffBound | crates/palimpsest-permissions/src/compile.rs:83-88 | a well-formed predicate text is materialized if and only if all of its fields are bound |
| Placeholders.SentinelReadsFieldIff | crates/palimpsest-permissions/src/compile.rs:80-88 | a sentinel is replaced by its own field's value if and only if the name holds no double underscore and does not end in one |
| Placeholders.TrailingUnderscoreIsLost | crates/palimpsest-permissions/src/compile.rs:80-88 | a field name with an underscore at its end is looked up without it |
| Placeholders.QuotedReadsBackIff | crates/palimpsest-permissions/src/user.rs:95-114 | a quoted text literal reads back as the text, with the rest left over, if and only if no quote follows it |
| PredicateText.LiteralIsShown | crates/palimpsest-permissions/src/user.rs:95-114 | the literal spliced in for a user value is the constant that the value stands for, written as other constants are, for lists at any depth; `SqlConstants` says that it reads back as that constant |
| PredicateText.MaterializedTextMeans | crates/palimpsest-permissions/src/compile.rs:74-95 | materializing a predicate's text reports the field that binding the predicate reports, or yields the text of a predicate that evaluates on every row, without a context, as the original does in the user's |
| SqlConstants.LiteralReadsBackIff | crates/palimpsest-permissions/src/user.rs:95-114 | a literal reads back as the value it stands for, with the rest left over, if and only if none of its floats is printed without a fractional part: booleans, integers, texts, null and lists of these at any depth always do |
| SqlConstants.WholeFloatReadsAsInteger | crates/palimpsest-permissions/src/user.rs:99 | a float printed without a fractional part reads back as an integer |
| SqlConstants.SplicedReadsBackIff | crates/palimpsest-permissions/src/compile.rs:74-95 | in a materialized text, what stands in the place of a field reads back as the value bound to it, under the same condition |
| PredicateReader.PredicateReads | crates/palimpsest-permissions/src/compile.rs:74-95 | the text of a bound predicate reads back as that predicate, whatever closing parenthesis follows |
| PredicateReader.MaterializedReadsBack | crates/palimpsest-permissions/src/compile.rs:74-95 | the text that materializing leaves of a predicate's text reads back, to the end, as a predicate without user fields that evaluates on every row as the original does in the user's context, in three-valued logic and in the engine |
| PredicateReader.RuleComparesColumn | crates/palimpsest-permissions/src/compile.rs:74-95 | from its text to a row: a rule that compares a column with a user field admits, once materialized and read back, exactly the rows whose own column compares so with the value bound, neither being null |
| Visibility.CheckRules | crates/palimpsest-permissions/src/compile.rs:199-231 | a rule set is accepted if and only if names are unique and rules on one table agree on current-row selection and differ in predicate |
| Visibility.WellCompiledAgrees | crates/palimpsest-permissions/src/compile.rs:208-229 | an accepted rule set asks for one current-row selection per table |
| Visibility.TableRulesAre | crates/palimpsest-permissions/src/rewriter.rs:62-68 | a rule takes part in protecting a table if and only if it is on the table and its mode is not subscribing alone |
| Visibility.UnprotectedIsWhole | crates/palimpsest-permissions/src/rewriter.rs:76-78 | a table all of whose rules are for subscribing alone is left whole |
| Visibility.ProtectedIsCut | crates/palimpsest-permissions/src/rule.rs:26-31 | a table with some other rule is cut down to the rows, or the current rows if the rules ask for those, that some such rule admits, each as often as it is there |
| Visibility.OnlyNewestShows | crates/palimpsest-permissions/src/rewriter.rs:83-100 | when the newest version of an entity is hidden, no older version shows in its place: what shows has the highest version, as its own column says |
| Visibility.ShowsIffNewestAdmitted | crates/palimpsest-permissions/src/rule.rs:40-41 | where key and version identify a row, an entity shows if and only if some rule admits its newest version |
| Visibility.RuleOrderIsIrrelevant | crates/palimpsest-permissions/src/rewriter.rs:66-125 | given the agreement on current-row selection, the visible rows do not depend on the order of the rules |
| EngineEval.EngineIsLawful | crates/palimpsest-dataflow/src/palimpsest/eval.rs:1104-1215 | the engine's evaluator admits by a disjunction what a disjunct admits, and binding keeps what it admits |
| EngineEval.ThreeValuedIsLawful | crates/palimpsest-permissions/src/compile.rs:74-95 | so does SQL's three-valued logic |
| EngineEval.UnequalAgreesIff | crates/palimpsest-dataflow/src/palimpsest/eval.rs:1173-1215 | on an inequality the engine and three-valued logic agree if and only if both sides can be compared: for null the engine admits it |
| EngineEval.NegationAgreesIff | crates/palimpsest-dataflow/src/palimpsest/eval.rs:1392-1402 | on any other comparison, negated, they agree if and only if both sides can be compared |
| EngineEval.EngineFollowsSql | crates/palimpsest-dataflow/src/palimpsest/eval.rs:1104-1215 | of every predicate and row: where three-valued logic decides, the engine decides alike, and the two differ exactly where it does not decide and the engine admits |
| EngineEval.SafeAgrees | crates/palimpsest-dataflow/src/palimpsest/eval.rs:1104-1215 | of every predicate: they agree wherever each comparison that the engine takes to be true of nulls, by its own kind or by negation, has sides that can be compared |
| EngineEval.ComparableAgrees | crates/palimpsest-dataflow/src/palimpsest/eval.rs:1104-1215 | of every predicate: where all comparisons have sides that can be compared, as on a row without nulls, three-valued logic decides and they agree |
| EngineEval.PositiveAgrees | crates/palimpsest-dataflow/src/palimpsest/eval.rs:1104-1133 | without negation and inequality they agree on every predicate and row |
| EngineEval.EngineHidesNothing | crates/palimpsest-dataflow/src/palimpsest/eval.rs:1104-1215 | of any rules on a table: the engine shows every row that three-valued logic shows, and no other where their comparisons are safe |
| EngineEval.EngineSameVerdict | crates/palimpsest-dataflow/src/palimpsest/eval.rs:1104-1215 | contexts whose bindings mean the same are alike to the engine on every predicate and row |
| EngineForms.InList | crates/palimpsest-dataflow/src/palimpsest/eval.rs:430-466 | the loop over the candidates, which ends at the first hit, decides membership with its two null rules |
| EngineForms.InFollowsSql | crates/palimpsest-dataflow/src/palimpsest/eval.rs:430-466 | negated or not, `IN` admits a row exactly where three-valued logic has it TRUE |
| EngineForms.BetweenFollowsSqlIff | crates/palimpsest-dataflow/src/palimpsest/eval.rs:467-498 | so does `BETWEEN`; negated, it does if and only if it is not the case that one bound is null and the other excludes the value |
| EngineForms.NullBoundHides | crates/palimpsest-dataflow/src/palimpsest/eval.rs:467-498 | a value above the higher bound, with the lower one null, is not between by three-valued logic and yet hidden |
| EngineForms.InAbbreviates | crates/palimpsest-dataflow/src/palimpsest/eval.rs:430-466 | `IN` and `NOT IN` are to the engine what certain disjunctions and conjunctions are, so that results on all predicates cover them |
| EngineForms.BetweenAbbreviates | crates/palimpsest-dataflow/src/palimpsest/eval.rs:467-498 | so are `BETWEEN` and `NOT BETWEEN` |
| Rewriter.MirGraph.SpliceAbove | crates/palimpsest-sql/src/mir.rs:232-252 | edge by edge: an input that was the target is now the new node, every other input is as it was, the new node alone consumes the target, and the root moves if it was the target |
| Rewriter.SpliceKeepsShape | crates/palimpsest-sql/src/mir.rs:232-252 | splicing above the top of a node keeps the graph acyclic and every original node consuming the tops of its inputs |
| Rewriter.PlanShowsVisible | crates/palimpsest-permissions/src/rewriter.rs:83-125 | the nodes spliced above a table cut it down to the selected rows that some rule admits; eliding a tautology changes nothing |
| Rewriter.RewritePreservesMeaning | crates/palimpsest-permissions/src/rewriter.rs:57-134 | for all tables, operators and ways of evaluating recursion, and any lawful evaluation of predicates, the rewritten query yields what the original yields over tables cut down to the rows the user may see |
| Rewriter.RoundsProduce | crates/palimpsest-sql/src/mir.rs:100-115 | each round of a recursive query produces over the full tables what it produced over the cut-down ones |
| Rewriter.NeedsFilterIff | crates/palimpsest-permissions/src/rewriter.rs:66-108 | a scan is filtered if and only if some rule that is not for subscribing alone is on the table, and none of those is plainly true |
| Rewriter.RulesInPlayAre | crates/palimpsest-permissions/src/rewriter.rs:62-108 | the rules not elided are those that are neither for subscribing alone nor plainly true |
| Rewriter.Rewrite | crates/palimpsest-permissions/src/rewriter.rs:57-134 | the loop of splices produces such a rewriting and counts the scans, filters and rules elided, or reports an unbound field if and only if some table's rules need one |
| SubgraphKeys.CanonicalSubgraphKey | crates/palimpsest-server/src/router.rs:608-625 | collecting, sorting and writing the entries gives the key that the exactness results are about, in whatever order the context lists them |
| SubgraphKeys.SameQueryKeyExact | crates/palimpsest-server/src/router.rs:608-625 | for one query, whatever its text, contexts whose names hold no equals sign share a key if and only if they bind the same fields to values that mean the same |
| SubgraphKeys.SubgraphKeyIff | crates/palimpsest-server/src/router.rs:608-625 | for any queries and any contexts with plain names: the same key if and only if the same query and contexts that mean the same, or one query is the other, a bar, and a text with which the other's entries begin before a further bar |
| SubgraphKeys.SubgraphKeyExact | crates/palimpsest-server/src/router.rs:608-625 | for queries neither of which is the other, a bar, and a text without an equals sign or with a digit after the first: the same key if and only if the same query and contexts that mean the same |
| SubgraphKeys.NoBarIsUnambiguous | crates/palimpsest-server/src/router.rs:608-625 | queries without a bar are all of that kind |
| SubgraphKeys.NoEqualsCollides | crates/palimpsest-server/src/router.rs:608-625 | wherever one query is the other, a bar, and a text without an equals sign, some contexts with plain names share a key |
| SubgraphKeys.BarInQueryCollides | crates/palimpsest-server/src/router.rs:608-625 | for any query there is another that goes on with a bar and the beginning of an entry, and shares a key with it under some contexts |
| SubgraphKeys.EqualsInNameCollides | crates/palimpsest-server/src/router.rs:608-625 | one field whose name holds an equals sign can pass for two |
| SubgraphKeys.EngineReadsBindings | crates/palimpsest-dataflow/src/palimpsest/eval.rs:1104-1215 | what the engine admits depends only on what the fields a predicate reads are bound to |
| SubgraphKeys.SharedKeySharesView | crates/palimpsest-server/src/router.rs:598-607 | users whose subscriptions to a query share a key may see the same rows of every table, so one dataflow serves them |
| RuleVersions.RuleVersionTracker.Install | crates/palimpsest-permissions/src/version.rs:91-136 | the delta lists exactly the changed and the removed names under the next epoch, one more unless 64 bits are used up, and the tracker makes the install step that the results over runs are about |
| RuleVersions.InstallEffect | crates/palimpsest-permissions/src/version.rs:91-136 | an install gives a rule it touched the new epoch or removes it, and leaves every other version alone |
| RuleVersions.ChangeShowsIff | crates/palimpsest-permissions/src/version.rs:29-31 | a changed rule's version moves if and only if its version is below the highest number of 64 bits |
| RuleVersions.RunWithinEpoch | crates/palimpsest-permissions/src/version.rs:91-136 | throughout every run no version exceeds the epoch |
| RuleVersions.SameVersionIffUntouched | crates/palimpsest-permissions/src/version.rs:91-136 | over any run a tracked rule's version is the same at two points if and only if no install in between changed or removed it |

## Left out

- `capture::source::build` and the timely operator plumbing (capabilities, activators, exchange, retries of `Writer::poll`): scheduling of a library that is not part of this model; only the sink's own state steps are modelled.
- The incremental rebuild inside `MutableAntichain` and `ChangeBatch`: both are modelled by the sums they maintain.
- Locks, atomics and async tasks of the Postgres runtime: steps are atomic, as said above.
- Ingest.MirrorIsReplay: a session that ends in a fatal schema drift leaves the machine free to reconcile as after any disconnect, which `IngestTasks.IngestTask` and the code do not do; the result covers more runs than there are. Commits on the server are a fixed log, and that a commit is harmless and its id within the window is taken for granted when it is applied: `CommitEffects.CommitExactIff` and `SnapshotFences.FenceRightIff` say exactly when the mirror goes wrong otherwise.
- Ingest.ApplyFrame: the re-assertion of column types on a matching schema frame and the messages of errors are not modelled.
- StreamSessions.StreamSession: a DSN that does not parse and a missing replication privilege, which are fatal before anything is streamed, are not modelled.
- IngestTasks.IngestTask: waiting, backoff and dialling are left out; an attempt that cannot connect or take a snapshot is one without a snapshot, and a shutdown between attempts is the end of the list.
- Runtime.DifferenceDiffs: the order of rows within one reconciliation is left open, as no reader may depend on it within one LSN.
- Integer widths of LSNs, sequence numbers and counts: unbounded, except for transaction ids and the rule epoch, where wrapping and saturation are modelled.
- `SnapshotFence::parse`, `VecCursor`, the conversion of a batch to a transaction delta and `cardinality`: easy members.
- ContainerBuilder.ConsolidatingContainerBuilder.PushInto: how much more than asked an allocator reserves is left open; the recycled containers keep no contents.
- Consolidation.SortSlice: the library's in-place unstable sort is modelled by any sorted permutation.
- SQL parsing, lowering and `compile_mir`, `encode_user_placeholders`, `validate_columns`, `validate_latest` and the depth limit: a foreign parser, or easy members.
- PredicateReader.MaterializedReadsBack: the reader is this project's own, of fully parenthesised predicates with plain column names and operators without spaces, not the SQL parser of the code; a float printed without a fractional part, which reads back as an integer, is left out by its condition, as `SqlConstants.LiteralReadsBackIff` makes exact.
- EngineEval.EngineIsLawful: `LIKE` is one of the comparison operators, which are arbitrary, and `IN` and `BETWEEN` are abbreviations (`EngineForms`); the engine's arithmetic, casts, `IS DISTINCT FROM` and `CASE` are not modelled.
- Rewriter.Rewrite: edges that expand a common table expression are inputs like any other, and the columns a scan projects are not modelled.
- SubgraphKeys.SubgraphKeyExact: of queries that go on with a bar, an equals sign and a digit, only those that begin an entry can collide; which texts do depends on the lengths and the lists inside of them, and beyond `SubgraphKeys.SubgraphKeyIff`, which is exact, no shorter condition on the queries alone is stated.
- SubgraphKeys.SharedKeySharesView: takes every field that the rules read to be bound, as otherwise the rewriting is refused.
- RuleVersions.RuleVersionTracker.Install: the debug rendering of a rule is a text that differs whenever the rule does; the order of removed names is left open.
- The client connection manager and its row cache: `Accepted` clears the cache without resetting the last LSN seen (crates/palimpsest-client/src/connection.rs:431-434), so a cache that equals the server across reconnects is not something this code keeps.
- The gRPC adaptor, pump registry, wire codec, walsender startup, authentication, TLS, CLI, type generation, metrics, WASM bindings and benches: input and output, foreign calls, or easy members.
