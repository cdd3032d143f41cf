# A verified model of the collaborative editor

The repository is a collaborative text editor: a replicated list of characters in the YATA style, state vectors
and deltas to synchronise replicas, snapshots to store them, and a client that reconnects and keeps an offline
queue. The Go packages under `backend/internal` and the JavaScript files under `frontend/src` implement the same
list and the same synchronisation; the model covers both and cites either.

The model has four parts.

**The list and its document.** `ReplicatedList` gives one insertion as a function on a sequence, with the scan of
the conflict zone, the crossing test and the (Clock, ClientID) tie-break. `DocumentSpec` adds tombstones, logs,
pending buffers and counter; map iteration in any order is a relation. `Document` is the program's own structure:
heap elements linked both ways, an index, and fields changed in place, each method proved against `DocumentSpec`.
`DocumentLaws`, `LocalEdits` and `Lifetime` say what every run, every local edit and a whole life of both mean.

**Convergence.** The README of the repository promises that the tie-break lets all replicas converge. That is
false of the code (`DocumentConvergence.DocumentsDiverge`), and a later insert can then run off the list
(`DocumentConvergence.DivergedWalkReachesNil`). `Commutation` and `Confluence` prove exactly when two inserts commute and
exactly when a set of inserts converges; `DocumentConvergence` proves it of replicas that receive inserts and deletes
in any order through their buffers. `SequentialHistory`, `SequentialConvergence`, `ConcurrentRounds` and
`RoundConvergence` prove convergence of whole documents for two kinds of histories: each insert made on a replica
that had all earlier ones, and rounds of concurrent inserts into the same gap or into separate intervals.

**Synchronisation and snapshots.** `Sync` computes vectors and deltas with the program's loops; `SyncConvergence`
proves what an exchange does, end to end. `Keys`, `Storage` and `Hydration` flatten a document under storage keys
and rebuild its pointers.

**The client.** `Client` has the fields guarded by the connection mutex and one method per guarded section.
`ClientRuns` interleaves these sections, the socket writes with either outcome, and the reconnect channel, and
proves an invariant of every run.

Conventions: an insert operation carries its identifier, origin, right neighbour and one character. `Inv` is what
holds of a document between operations. What the program assumes of its messages is `Acceptable`: an identifier
determines its insert, clocks count from 0, no client is called START or END, sentinels are not deleted, and
nobody else uses this client's future identifiers. `Safe` and `SafeToReceive` say that no conflict-zone walk runs
off the list; it is proved for sequential histories (`SyncConvergence.HistoryRunSafe`), for rounds
(`RoundConvergence.RoundSafe`), and for every replica once one replica went through (`DocumentConvergence.ReplicaGoes`).

Where code and documentation disagree, the model follows the code. That is the convergence promise (README.md:290):
the clocks that break ties are counters per client, and the crossing test never meets START.

## Model

| member | source | states |
|---|---|---|
| Identifiers.LessTrichotomy | backend/internal/document/traversal.go:108-122 | of two different identifiers exactly one is smaller under (Clock, ClientID) |
| Identifiers.LessTransitive | backend/internal/document/traversal.go:108-122 | the tie-break is transitive, so with trichotomy a strict total order |
| Identifiers.StringLessFirstDifference | backend/internal/document/traversal.go:116-121 | of two client names the one with the smaller character at the first difference comes first, or the one that is a proper prefix of the other |
| Identifiers.LessMeans | backend/internal/document/traversal.go:108-122 | the tie-break spelled out: smaller clock, then smaller character at the first difference of the names, then the shorter name |
| ReplicatedList.InsertIndexIs | backend/internal/document/traversal.go:95-126 | the index found by the scan is the only one that ends the longest run of elements right of the origin that neither cross nor are larger than the new identifier |
| ReplicatedList.InsertIndexMeans | backend/internal/document/traversal.go:95-126 | the insertion point without the scan: past every zone element that is smaller and whose origin does not stand left of the new one's origin (any non-sentinel origin counts when that is START), up to the first other or the right neighbour |
| ReplicatedList.CrossingAt | backend/internal/document/traversal.go:76-92 | the crossing test says that the origin of the zone element stands before the scanning origin; with START as scanning origin any non-sentinel origin crosses, and an element whose own origin is START never does |
| ReplicatedList.SiblingsDoNotCross | backend/internal/document/traversal.go:76-92 | an element with the same origin as the new insert never crosses it, so siblings are ordered by the tie-break alone |
| ReplicatedList.IntegrateKeeps | backend/internal/document/document.go:101-117 | sentinels stay at the ends, identifiers stay unique, every origin stays left of its element; exactly the new identifier is added, strictly between its origin and its right neighbour; nothing is reordered |
| ReplicatedList.IntegrateAdjacent | backend/internal/document/traversal.go:59-126 | with adjacent neighbours the conflict zone is empty and the element goes exactly between them |
| Commutation.CommuteIff | backend/internal/document/traversal.go:95-126 | two concurrent inserts commute if and only if a condition on positions and identifiers in the list before either of them holds; when it fails the two orders disagree on these two elements |
| Commutation.SameGapCommutes | backend/internal/document/traversal.go:95-126 | two inserts with the same origin and right neighbour commute whatever already sits between, and end in tie-break order |
| Commutation.SameGapByClockThenName | backend/internal/document/traversal.go:108-122 | in one gap the smaller clock ends on the left; with equal clocks the name whose first differing character is smaller; in either order of delivery |
| Commutation.DisjointIntervalsCommute | backend/internal/document/traversal.go:59-126 | two inserts whose [origin, right] intervals do not overlap commute whatever sits in them |
| Commutation.SecondInsertIndex | backend/internal/document/traversal.go:95-126 | where the second of two concurrent inserts goes, in terms of the list before the first |
| Confluence.ConvergesIff | backend/internal/document/traversal.go:95-126 | on one list: all causal orders of a set of inserts go through and end in the same list if and only if every two of them that can meet satisfy the diamond condition where they meet |
| Confluence.LocallyConfluentConverges | backend/internal/document/traversal.go:95-126 | under that condition one order that can be delivered makes every causal order deliverable, with the same list |
| Confluence.ConvergesLocallyConfluent | backend/internal/document/traversal.go:95-126 | two inserts that meet without the condition leave two orders that never agree again, whatever follows |
| Confluence.DeliveredBetween | backend/internal/document/document.go:101-117 | after any causal delivery every delivered element stands strictly between the neighbours its insert named |
| DocumentConvergence.DocumentsConvergeIff | README.md:290 | the convergence promise made exact: given one replica's run of messages, every replica in the same state that receives them in any order, with re-sends, deletes and buffering, goes through without walking off its list and ends in the same state, if and only if every two inserts that joined and can meet satisfy the diamond condition where they meet |
| DocumentConvergence.DocumentsConverge | backend/internal/document/document.go:120-187 | under that condition any two completed runs over the same messages end in the same document, also from a state with pending inserts |
| DocumentConvergence.ReplicaGoes | backend/internal/document/document.go:120-187 | under that condition one completed run makes every other replica's run safe, with the same final state |
| DocumentConvergence.MustSatisfy | backend/internal/document/document.go:120-187 | when all replicas agree, any two inserts that can meet satisfy the condition |
| DocumentConvergence.RunDelivers | backend/internal/document/traversal.go:195-210 | every run, whatever the order of messages, buffers and iteration, integrates exactly the inserts that joined, in some causal order, and its list is that delivery |
| DocumentConvergence.CausalDelta | backend/internal/document/document.go:189-214 | a delta whose inserts stand in causal order is delivered in exactly that order, so its run has one list as outcome |
| DocumentConvergence.CausalDeltaSafe | backend/internal/document/document.go:189-214 | such a delta never walks off the list if its order can be delivered |
| DocumentConvergence.DeltaSplits | backend/internal/document/document.go:189-201 | integrating the inserts `xs + ys` is integrating `xs` and then `ys` |
| DocumentConvergence.DeltaOfOne | backend/internal/document/document.go:189-214 | a delta of one insert or one delete is that remote operation |
| DocumentConvergence.DeltaDeletesLast | backend/internal/document/document.go:203-211 | deletes come after all inserts and keep their order |
| DocumentConvergence.DocumentsDiverge | README.md:290 | two new documents that integrate the same four inserts as the deltas `a b x y` and `x y a b` go through and end with the texts `axyb` and `axby` |
| DocumentConvergence.DivergedWalkReachesNil | backend/internal/document/traversal.go:59-74 | on the heap of the diverged replica the zone walk for the other author's next insert never meets the right neighbour and reaches nil |
| ConcurrentRounds.RoundConverges | frontend/src/crdt/document.js:160-190 | inserts made concurrently on one list, any two into the same gap or into intervals that do not overlap, end in the same list in every order |
| ConcurrentRounds.GapRoundSorted | backend/internal/document/traversal.go:95-126 | a round of inserts between adjacent elements can be delivered in every order, and each gap of the base list then holds exactly its siblings, sorted by (Clock, ClientID) |
| ConcurrentRounds.ReplicasDiverge | README.md:290 | unrestricted convergence fails: `ab` typed by A and `xy` typed by B end as `axyb` and `axby` |
| ConcurrentRounds.DivergenceWalksOff | backend/internal/document/traversal.go:59-74 | after that divergence an insert is legal on one replica while on the other both its neighbours are there but no element from its origin to END is its right neighbour |
| DocumentSpec.StepKeeps | backend/internal/document/document.go:120-187 | every remote operation keeps the invariant: insert log = integrated and pending inserts, delete log = tombstones and pending deletes, counter = visible elements, nothing pending that could be released |
| DocumentSpec.InsertStepKeeps | backend/internal/document/document.go:120-140 | a received insert leaves no pending insert that is ready and no pending delete whose element is present, for every iteration order, and logs exactly itself |
| DocumentSpec.ReleasedKeeps | backend/internal/document/traversal.go:195-210 | releasing in any order keeps log conservation, tombstones and logs and ends at the fixpoint |
| DocumentSpec.TextAfterInsert | backend/internal/document/traversal.go:129-143 | a new element adds its character to the visible text at its position, for any tombstones |
| DocumentSpec.TextAfterDelete | backend/internal/document/traversal.go:129-143 | a new tombstone removes exactly its character from the visible text |
| DocumentSpec.NewDocInv | backend/internal/document/document.go:31-57 | a new document satisfies the invariant for every client name other than the sentinels' |
| DocumentLaws.IntegratedExactly | backend/internal/document/document.go:120-140 | the integrated inserts are exactly the received ones whose transitive origins and right neighbours have all been received; the pending ones are exactly the rest |
| DocumentLaws.CounterCounts | backend/internal/document/document.go:101-168 | the character counter is the number of elements that are neither sentinels nor tombstones, so no deletion is counted twice |
| DocumentLaws.LogsDetermine | backend/internal/document/document.go:101-187 | the two logs alone determine integrated set, pending buffers, tombstones and counter |
| DocumentLaws.RunKeeps | backend/internal/document/document.go:120-187 | every run of remote operations keeps the invariant and logs exactly what was received |
| DocumentLaws.RunsAgreeUpToOrder | backend/internal/document/document.go:120-187 | two runs over the same messages, in any order, with any repetitions, agree on everything but the order of elements |
| DocumentLaws.DuplicateAbsorbed | backend/internal/document/document.go:120-187 | re-delivering a message received before, integrated or pending, changes nothing |
| DocumentLaws.DedupSameRun | backend/internal/document/document.go:120-187 | a run with re-sends ends exactly where its de-duplicated run ends |
| DocumentLaws.RunKeepsOrder | backend/internal/document/document.go:101-187 | over any run elements are never removed and never change their relative order |
| DocumentLaws.ReleaseEnds | backend/internal/document/traversal.go:195-210 | releasing terminates at a state where nothing pending is ready |
| DocumentLaws.SafeRunEnds | backend/internal/document/document.go:120-187 | every run that never walks off the list comes to an end |
| LocalEdits.FindVisibleIs | backend/internal/document/traversal.go:11-56 | the walk stops behind exactly the given number of visible elements, at the next visible one, or at END behind all of them |
| LocalEdits.LocalInsertText | backend/internal/document/document.go:80-99 | inserting at index i puts the character at index i of the visible text, for any tombstone layout |
| LocalEdits.LocalDeleteText | backend/internal/document/document.go:143-157 | deleting at index i removes exactly the character at index i of the visible text |
| LocalEdits.LocalInsertIsRemote | backend/internal/document/document.go:80-99 | a local insert equals remotely integrating the operation it logs, and releases nothing |
| LocalEdits.LocalDeleteIsRemote | backend/internal/document/document.go:143-157 | a local delete equals remotely deleting the element it names |
| LocalEdits.LocalIDFresh | backend/internal/document/document.go:73-77 | the generated identifier is in no log, list or tombstone set |
| LocalEdits.LocalEditsKeep | backend/internal/document/document.go:80-157 | local edits keep the invariant, refused ones included |
| Lifetime.OwnClocksHaveNoHole | backend/internal/document/document.go:73-99 | from a new document on, through any local and remote operations, a client has logged exactly its own clocks below its counter; refused edits use up none |
| SequentialHistory.NothingBetween | backend/internal/document/traversal.go:59-74 | in a sequential history everything between an insert's neighbours depends on that insert: a replica without it has nothing there, so the conflict zone is empty on arrival |
| SequentialHistory.DeliveryKeeps | backend/internal/document/document.go:101-140 | integrating any further ready insert of a history gives the full list restricted to what the replica then has; the neighbours are in order, which is proved and not assumed |
| SequentialHistory.HistoryList | backend/internal/document/document.go:101-117 | the list of a whole history is well-formed and holds exactly its identifiers |
| SequentialConvergence.SequentialConverges | backend/internal/document/document.go:120-187 | two new replicas that receive the same messages of a sequential history, in any orders, with repetitions, deletes before inserts and through the pending buffers, end in the same state, list included |
| SequentialConvergence.CompleteHistory | backend/internal/document/traversal.go:195-220 | a replica with the whole history holds exactly its list, with both buffers empty |
| SequentialConvergence.StepHolds | backend/internal/document/traversal.go:59-126 | receiving any message of a history never walks off the list and stays within the history |
| SequentialConvergence.LogsDetermineList | backend/internal/document/document.go:120-187 | within a history the logs determine the whole document, order of elements included |
| SequentialConvergence.LocalInsertExtends | backend/internal/document/document.go:80-99 | a local edit on a replica holding the whole history yields a longer sequential history: the hypothesis is what editors produce |
| SequentialConvergence.HoldsLonger | backend/internal/document/document.go:80-99 | every other replica then still holds part of the longer history |
| RoundConvergence.RoundAgrees | backend/internal/document/document.go:120-187 | replicas in the same state that receive a round's inserts and any deletes in any orders, with re-sends, never walk off their lists and end in the same state with no insert pending, and no delete pending when every deleted element is there or arrives |
| RoundConvergence.RoundsAgree | backend/internal/document/document.go:120-187 | the same over any number of fully delivered rounds |
| RoundConvergence.RoundLeavesGapsSorted | backend/internal/document/traversal.go:95-126 | inserts between adjacent elements, mixed with deletes and re-sends, never walk off the list and leave every gap sorted by (Clock, ClientID) |
| RoundConvergence.RoundSafe | backend/internal/document/traversal.go:59-74 | no message of a round walks off the list, whatever the order, the re-sends and the deletes between |
| RoundConvergence.RoundsSafe | backend/internal/document/traversal.go:59-74 | the same for every round of a sequence of rounds, whatever state the earlier ones ended in |
| RoundConvergence.RoundsEnd | backend/internal/document/document.go:120-187 | every sequence of rounds comes to an end |
| RoundConvergence.LocalInsertNamesGap | backend/internal/document/document.go:80-99 | the operation of a local insert is new to the list and names two adjacent elements of it |
| RoundConvergence.AuthorAgrees | backend/internal/document/document.go:80-140 | an author whose own insert is in place before any other of the round ends in the state of everyone else |
| Document.Document.constructor | backend/internal/document/document.go:31-57 | START and END linked both ways and indexed, everything else empty; the heap represents the new document |
| Document.LinkBetween | backend/internal/document/document.go:101-117 | after the two pointer updates `Left` and `Right` are mutually inverse along the whole chain with the new element at its index |
| Document.Document.ConflictZone | backend/internal/document/traversal.go:59-74 | the elements strictly between the two neighbours, in order |
| Document.ZoneWalkEndsIff | backend/internal/document/traversal.go:59-74 | with both neighbours in the chain, the walk along `Right` from the origin meets the right neighbour if and only if the origin precedes it; every walk reaches nil behind END |
| Document.Document.IsOriginAfter | backend/internal/document/traversal.go:76-92 | true exactly when the zone element's origin is met before the scanning origin on the walk from START's right neighbour |
| Document.Document.FindInsertionPoint | backend/internal/document/traversal.go:95-126 | returns the adjacent pair at the closed-form insertion index, hence within [origin, right] |
| Document.Document.FindVisiblePosition | backend/internal/document/traversal.go:11-32 | refuses exactly the indices outside 0..counter, otherwise returns the adjacent pair at the position; the fallback after the loop is unreachable |
| Document.Document.FindVisibleElement | backend/internal/document/traversal.go:35-56 | refuses exactly the indices outside 0..counter-1, otherwise returns the visible element; the fallback after the loop is unreachable |
| Document.Document.VisibleContent | backend/internal/document/traversal.go:129-143 | the characters of the elements without a tombstone, in list order |
| Document.Document.Traverse | backend/internal/document/traversal.go:182-193 | all elements from START to END in order |
| Document.Document.IntegrateInsert | backend/internal/document/document.go:101-117 | the heap then represents the list with the insert integrated, its log entry and the counter raised by one |
| Document.Document.InsertElement | backend/internal/document/document.go:80-99 | refused outside the text, and then nothing changes, the clock included; otherwise the heap represents the local edit and the operation's identifier is returned |
| Document.Document.ProcessPending | backend/internal/document/traversal.go:195-210 | terminates, and its result is one of the releases the specification allows, for every map iteration order |
| Document.Document.ProcessPendingDeletes | backend/internal/document/traversal.go:212-220 | every pending delete whose element is present becomes a tombstone, counted once; the others stay pending |
| Document.Document.RemoteInsert | backend/internal/document/document.go:120-140 | reports already inserted exactly for an indexed identifier, integrated exactly for a new one with both neighbours indexed, pending otherwise, and the heap makes that step; chain, index and logs stay consistent |
| Document.Document.RemoteDelete | backend/internal/document/document.go:171-187 | unknown elements are buffered, deleted ones ignored, others marked, counted out and logged |
| Document.Document.Delete | backend/internal/document/document.go:143-157 | refused outside the text, and then nothing changes; otherwise marks the visible element at the index and returns its identifier |
| Document.Document.IntegrateDelta | backend/internal/document/document.go:189-214 | ends in a state reached by a run over the delta's inserts and then its deletes, pending and repeated ones included |
| Sync.ValidateClockContinuity | backend/internal/sync/statevector.go:25-37 | true exactly when all clocks 0..max of the client are logged |
| Sync.Vector.GenerateStateVector | backend/internal/sync/statevector.go:39-69 | each client with the largest of its logged clocks up to which all are logged, for any log; with clocks from 0 on, the largest m with all of 0..m logged, and a client is omitted exactly when its clock 0 is missing; for every iteration order |
| Sync.StateVectorUnique | frontend/src/sync/vector.js:10-37 | that property determines the vector, so the iteration order cannot matter |
| Sync.Vector.GenerateDeleteSet | backend/internal/sync/statevector.go:80-96 | per client the strictly increasing clocks of exactly its logged deletes |
| Sync.Vector.SortClocks | backend/internal/sync/statevector.go:71-78 | each client's clocks sorted, none lost or added |
| Sync.DeleteExists | backend/internal/sync/statevector.go:98-106 | membership of a clock in the known deletes |
| Sync.ComputeDelta | backend/internal/sync/statevector.go:108-158 | each once, exactly the logged identifiers whose client is not in the vector or whose clock is above its value, and the deletes the vector does not list |
| Sync.ComputeSerializedDelta | backend/internal/sync/statevector.go:160-186 | the logged operations of exactly these identifiers, in their order |
| Sync.OmittedIsKnown | backend/internal/sync/statevector.go:108-132 | an insert that is not sent is in the log the vector was made from |
| Sync.SentExactly | backend/internal/sync/statevector.go:108-132 | for an exact vector an insert is sent if and only if the peer lacks it or an earlier one of the same client |
| Sync.NothingForOneself | backend/internal/sync/statevector.go:108-132 | a delta against one's own vector has no insert if and only if one's log has no gap |
| Sync.LoggedInOrder | backend/internal/sync/statevector.go:160-172 | logged identifiers are serialized one for one in their order |
| Sync.LoggedConcat | backend/internal/sync/statevector.go:160-172 | the serialized inserts of two sequences of identifiers one after the other are those of the first, then those of the second |
| Sync.KeptInOrder | backend/internal/sync/statevector.go:174-185 | logged deletes are serialized one for one in their order |
| Sync.MissingDeletesExact | backend/internal/sync/statevector.go:133-158 | the deletes sent are exactly those the peer has not logged |
| SyncConvergence.DeltaComplete | backend/internal/sync/statevector.go:108-186 | delta and peer log together make up both logs; delta deletes are exactly the source's minus the peer's |
| SyncConvergence.DeltaSendsExactly | backend/internal/sync/statevector.go:108-186 | which inserts a delta between two documents holds: the source's for which the peer lacks that clock or an earlier one |
| SyncConvergence.OwnInsertsAdvertised | backend/internal/sync/statevector.go:39-69 | over a client's life its vector advertises all of its own inserts, and leaves the client out only before the first |
| SyncConvergence.EditsStayCompatible | backend/internal/document/document.go:80-99 | the assumption of the exchange, that identifiers agree and nobody knows the other's future, is kept by local edits |
| SyncConvergence.DeltaMakesUnion | backend/internal/document/document.go:189-214 | integrating a delta makes the peer's logs the union of both |
| SyncConvergence.ExchangeAgrees | backend/internal/client/client.go:595-683 | one exchange each way gives both replicas the same logs and hence the same state up to the order of elements |
| SyncConvergence.FurtherExchangeAddsNothing | backend/internal/client/client.go:595-683 | a delta that brings nothing the peer lacks changes nothing |
| SyncConvergence.ExchangeSettles | backend/internal/client/client.go:595-683 | after one exchange each way every further delta, in either direction, changes nothing |
| SyncConvergence.SyncCompletes | backend/internal/client/client.go:595-683 | from a source with a whole sequential history, vector, delta and integration put any lagging peer into the source's state: list, tombstones, empty buffers, for every iteration order |
| SyncConvergence.HistoryRunSafe | backend/internal/document/traversal.go:59-74 | no message of a sequential history walks off the list of a replica of that history, whatever the order |
| SyncConvergence.Synchronise | backend/internal/client/client.go:220-235 | the same on heap documents, ending with equal visible text |
| Keys.IntDecimalParses | frontend/src/sync/vector.js:10-37 | printing any integer in decimal and reading it back gives the integer |
| Keys.DecimalCanonical | frontend/src/sync/vector.js:10-37 | a text of digits without a leading zero is the decimal text of its value |
| Keys.KeyFormats | backend/internal/storage/boltdb.go:330-332 | the storage and browser keys of one identifier, character by character |
| Keys.FormatIDInjective | backend/internal/storage/boltdb.go:330-332 | no two identifiers share a storage key, even when client names contain commas or parentheses |
| Keys.ToKeyInjective | frontend/src/crdt/identifier.js:8-10 | no two identifiers share a browser map key, whatever the client names |
| Keys.FromKeyRecovers | frontend/src/sync/vector.js:10-37 | splitting a browser key at colons gives back the identifier if and only if the client name has no colon |
| Storage.SaveElements | backend/internal/storage/boltdb.go:334-371 | over any bucket: under its own key each element of the list with origin, left, right, tombstone and content; every other key as before |
| Storage.PersistedNode | backend/internal/storage/serializer.go:10-33 | flattening a heap element stores exactly the identifiers of its neighbours in the list, the zero identifier for missing ones |
| Storage.SaveInsertOperations | backend/internal/storage/boltdb.go:414-449 | over any bucket: each logged insert under its own key, every other key as before |
| Storage.SaveDeleteOperations | backend/internal/storage/boltdb.go:490-525 | over any bucket: each logged delete under its own key, every other key as before |
| Storage.SaveSnapshot | backend/internal/storage/boltdb.go:119-167 | any bucket gets the document's values under their keys and keeps the rest; an empty one, or one with an earlier snapshot of the document, then holds exactly the snapshot |
| Storage.PutNext | backend/internal/storage/boltdb.go:345-367 | putting a value under its key loses nothing that was put before, because no other identifier has that key |
| Storage.LoadElements | backend/internal/storage/boltdb.go:373-412 | for any bucket every stored value's identifier, with one of the values stored for it, and a fresh unlinked element carrying it |
| Storage.LoadInsertOperations | backend/internal/storage/boltdb.go:451-488 | for any bucket each stored insert under its own identifier, and the insert log that was saved if it holds one |
| Storage.LoadDeleteOperations | backend/internal/storage/boltdb.go:527-562 | for any bucket exactly the stored targets, and the delete log that was saved if it holds one |
| Hydration.LoadSnapshot | backend/internal/storage/boltdb.go:173-233 | a stored snapshot comes back with metadata, values, logs, and every relation resolvable |
| Hydration.RebuildRelations | backend/internal/document/hydrate.go:15-43 | succeeds exactly when every element has its stored value and, sentinels aside, all three neighbours; then all three pointers are the stored ones |
| Hydration.NeighboursRestoredIff | backend/internal/document/hydrate.go:15-43 | stored relations give back the list's neighbours if and only if no element has the zero identifier |
| Hydration.RebuiltChain | backend/internal/document/hydrate.go:15-43 | the rebuilt pointers form the saved chain: same order, origins, tombstones and index |
| Hydration.ReconstructPendingInserts | backend/internal/document/hydrate.go:85-99 | the logged inserts that are not integrated |
| Hydration.ReconstructPendingDeletes | backend/internal/document/hydrate.go:101-115 | the logged deletes whose element is not there |
| Hydration.DerivedExactly | backend/internal/document/hydrate.go:85-115 | both buffers, which are not stored, come back exactly; deletes if and only if none of them has its element already |
| Hydration.ReconstructDocument | backend/internal/document/hydrate.go:45-83 | the heap represents the saved state after its releases |
| Hydration.SettledResumes | backend/internal/document/hydrate.go:45-83 | a saved state between operations resumes as itself and as nothing else |
| Hydration.SnapshotRoundTrip | backend/internal/document/hydrate.go:45-83 | saving any valid document and reconstructing it on fresh elements gives an equal state: order, origins, tombstones, logs, clock, counter and both buffers |
| Lifetime.KeysOnlyGrow | backend/internal/storage/boltdb.go:334-371 | over a document's life, local and remote operations in any order, identifiers and logs only grow |
| Hydration.EarlierSnapshot | backend/internal/storage/boltdb.go:119-167 | so a snapshot may be overwritten at any later time and the round trip still holds |
| Client.CollaborativeClient.BeginSend | backend/internal/client/client.go:138-158 | returns the connection exactly when the state is Online and one is installed; otherwise the message is appended to the queue |
| Client.CollaborativeClient.SendOrQueue | backend/internal/client/client.go:138-171 | empty messages are refused without change; a message is written only in state Online with a connection that accepts it, and is otherwise at the end of the queue, with a failed connection dropped |
| Client.CollaborativeClient.EnqueueOffline | backend/internal/client/client.go:121-128 | appends to the queue and changes nothing else |
| Client.CollaborativeClient.MarkDisconnected | backend/internal/client/client.go:173-198 | drops only the named connection; reports that a reconnect is due unless closing or stale |
| Client.CollaborativeClient.BeginReconnect | backend/internal/client/client.go:267-279 | starts connecting exactly from Disconnected without a connection |
| Client.CollaborativeClient.ReconnectOnce | backend/internal/client/client.go:423-450 | installs the dialed connection exactly while connecting; a failed dial returns to Disconnected, and closing is left alone |
| Client.CollaborativeClient.FlushHead | backend/internal/client/client.go:452-480 | stops unless the connection is installed and syncing; goes online exactly when the queue is then empty |
| Client.CollaborativeClient.PopHead | backend/internal/client/client.go:496-511 | removes the head exactly when the connection is still installed and syncing |
| Client.CollaborativeClient.FlushOfflineQueue | backend/internal/client/client.go:452-511 | without interference the queue goes out in order: all of it and the client is online, or up to the first refused message, which heads the queue that is kept |
| Client.CollaborativeClient.Close | backend/internal/client/client.go:59-71 | closing with no connection, which is returned |
| ClientRuns.RunKeepsInvariant | backend/internal/client/client.go:138-511 | every interleaving of senders, flusher, readers, reconnect loop and closer keeps the invariant |
| ClientRuns.AcceptedNotLost | backend/internal/client/client.go:138-171 | in every reachable state a completed call has written its message and never queued it, or has queued it once and it is still queued or was written by the flusher |
| ClientRuns.QueueConserves | backend/internal/client/client.go:121-171 | what was ever enqueued, each message once, is what was popped followed by the queue; everything popped was written before |
| ClientRuns.WrittenHeadStays | backend/internal/client/client.go:452-511 | between the flusher's write and its pop the written message heads the queue, so the pop removes it and never meets an empty queue |
| ClientRuns.FlushedInOrder | backend/internal/client/client.go:452-511 | each connection carries a contiguous stretch of the queue's history in order and without repetition |
| ClientRuns.SendOutsideOnline | backend/internal/client/client.go:138-158 | a call that starts outside Online appends its message and starts no write; an online one writes to the installed connection |
| ClientRuns.NeverOvertakes | backend/internal/client/client.go:138-171 | on one connection everything flushed comes before everything that calls wrote themselves: no message overtakes the queue |
| ClientRuns.OwesExactly | backend/internal/client/client.go:173-198 | a reconnect is requested exactly when an installed connection is lost other than by closing, and never while closing |
| ClientRuns.ConnectionExactly | backend/internal/client/client.go:423-450 | in every reachable state a connection is installed exactly in Syncing and Online |
| ClientRuns.StateChanges | backend/internal/client/client.go:423-511 | all state changes there are: Online only by the flusher of the installed connection while the queue is empty, Disconnected only by a failed dial or a failure on the installed connection |
| ClientRuns.OnlyOwnFailureDisconnects | backend/internal/client/client.go:173-198 | an installed connection goes only by a failure on itself or by closing; a stale disconnect changes nothing |
| ClientRuns.ClosingIsFinal | backend/internal/client/client.go:59-71 | after closing no run reconnects or takes a message out of the queue |
| ClientRuns.NoLostWakeup | backend/internal/client/client.go:255-330 | while disconnected a reconnect signal is pending or due, or the loop is about to look |
| ClientRuns.MessageStranded | backend/internal/client/client.go:160-170 | Online does not imply an empty queue: a reachable state is online and idle with an unwritten message queued |
| ClientRuns.OnlineQueueChanges | backend/internal/client/client.go:160-170 | while online no event takes from the queue, and exactly a call whose write failed adds to it |
| ClientRuns.OnlineRunQueue | backend/internal/client/client.go:160-170 | over a run that stays online the queue only grows, and stays the same if and only if no call whose write failed put its message back |
| ClientRuns.OnlineQueueExactly | backend/internal/client/client.go:452-511 | exactly when an online client has a queue: every run to an online state entered Online last through the flusher with an empty queue, and the queue is not empty if and only if since then a call whose write failed put its message back |

## Left out

- WebSocket, HTTP, nginx, BoltDB transactions, SQLite and JSON: a bucket is a map, a stored value is the value itself, and a socket write succeeds or fails at will.
- Corrupt JSON, a missing bucket, a missing metadata record and the check for missing sentinels in `ReconstructDocument`: the reconstruction is stated for snapshots that `SaveSnapshot` wrote.
- Field validation and envelope codecs of the protocol, the relay's rooms and presence, its last-writer-wins room snapshot, and the user interface.
- Random UUIDs: the client identifier is a parameter, assumed to differ between clients and from the sentinels' names.
- Unrestricted concurrent convergence: false of the code; the counterexample, the exact condition for sets of inserts, and two families of histories that meet it are proved instead.
- The pending buffer's own element type: it has the fields of an insert operation and is modelled by it; the pending deletes and the delete log hold nothing beyond their keys and are sets.
- Document.Document.RemoteInsert: requires that no conflict-zone walk runs off the list, where the program would dereference nil (exactly when: `Document.ZoneWalkEndsIff`). Sequential histories and rounds are proved to meet this.
- Document.Document.IntegrateDelta: requires the same of every message of the delta; see `SyncConvergence.HistoryRunSafe` and `RoundConvergence.RoundSafe`.
- Document.Document.RemoteDelete: not stated for deletes of sentinels or of identifiers this client has yet to generate, which no client sends.
- DocumentConvergence.DocumentsConvergeIff: stated for runs in which no insert that was pending at the start joins; such an insert is released in the step its last neighbour arrives, so the messages cannot be ordered freely around it. `DocumentsConverge` and `ReplicaGoes` have no such condition, and a new replica has nothing pending.
- Hydration.LoadSnapshot: stated for buckets that hold a complete snapshot.
- Hydration.SnapshotRoundTrip: requires that no element has the zero identifier, as ReconstructDocument does.
- Hydration.ReconstructDocument: requires that no element has the zero identifier, which the rebuilt relations would take for a missing neighbour's; `Hydration.NeighboursRestoredIff` shows that this is exact.
- Keys.FromKeyRecovers: the browser's `Number` is modelled on decimal integers without its other spellings and without the loss of precision beyond 2^53.
- Client.CollaborativeClient.SendOrQueue: stated for a call without interference; interleavings are in `ClientRuns`.
- Client.CollaborativeClient.FlushOfflineQueue: stated without interference and for the number of writes that the connection lasts; interleavings are in `ClientRuns`.
- String comparison is by character; Go compares bytes and JavaScript UTF-16 units, which agree for the generated identifiers.
- `sort.Ints` is modelled by a function that sorts; its algorithm is not part of this model.
- In `ClientRuns` the nil checks on connections, the write mutex, the three-second wait and the presence of several readers add nothing: readers may fail at any moment and the flush mutex admits one flusher.
- `SendSync1`, `SendCurrentSnapshot` and the sync replies write past the queue: only their failures appear in `ClientRuns`, as a reader's disconnect.
- `SetConnection` and `MarkOnline` are not called by the program and are not part of this model.
