# fossic: a verified model of its core

fossic is an event store over SQLite: content-addressed events in versioned streams and branches, snapshots of
folded state, subscriptions, causation walks, and a relay between stores.  This project models that core in Dafny
and proves properties of it.  `dafny verify dfyconfig.toml` checks everything.

## What is modelled

SQLite tables are maps and sequences, and each SQL statement or transaction is one atomic step.  Code that changes
state is a class whose methods are proved against a specification; what holds over whole runs is proved on step
systems in which every step is total (a step that is not enabled changes nothing), so every sequence of steps is a
run and every theorem about runs is a theorem about all interleavings.

| component | files |
|---|---|
| Canonical encoding (CCE) and event ids | `Cce.dfy`, `CceDecoder.dfy`, `CceCanon.dfy`, `CceSpec.dfy`, `CceLimits.dfy`, `CceEncoder.dfy`, `KeyedSort.dfy`, `EventIds.dfy` |
| Causation walks, paging, iterator, recursive CTE | `Walk.dfy`, `WalkPaging.dfy`, `PagingLimits.dfy`, `CausationIterator.dfy`, `WalkDistance.dfy` |
| Appends and the store's invariant | `Appends.dfy`, `AppendRuns.dfy`, `AppendStore.dfy`, `Events.dfy`, and `CausalOrder.dfy` for what it means for the walks |
| Snapshots as a cache of a fold | `Snapshots.dfy` |
| Subscriptions: registry, protocol, gaps, losses | `Cursors.dfy`, `Subscriptions.dfy`, `Delivery.dfy`, `DeliveryGaps.dfy`, `DeliveryLosses.dfy`, `Pump.dfy` |
| Range and correlation reads, iterators | `Reads.dfy`, `CorrelationIterator.dfy` |
| Patterns and reducer lookup | `Glob.dfy`, `Registry.dfy` |
| Relay to a hub | `Relay.dfy` |
| Branch chains and their cache | `Branches.dfy`, `Orbits.dfy` |
| Upcaster chains | `Upcasters.dfy`, `Orbits.dfy` |
| Background tasks and their reports | `Executor.dfy`, `DropReports.dfy` |

Parameters and idealisations:

- A Rust `str` inside an event is its UTF-8 byte sequence; NFC (Unicode Standard Annex #15) is an arbitrary function
  `nfc` from bytes to bytes, so the results hold for whatever it does; only `DropReports` assumes that it fixes ASCII
  text.  Floats are 64-bit patterns.
- blake3 is idealised: an event id is a free value over type, version, cause and canonical payload, or raw bytes that
  came from elsewhere.  `CceCanon.PreimagesEqualExactly` proves, on bytes, that equal preimages mean equal canonical
  content, and `EventIds.IdsAgreeWithPreimages` that free ids are equal exactly when preimages are; the idealisation adds
  only that distinct preimages do not collide.  Where only the byte order of ids matters
  (walks, reads) an id is its big-endian number; `CausalOrder` connects the two through an injective digest.
- Clocks, panics of callbacks, failures of storage, the moments at which handlers are ready and the results of opening a
  writer are parameters, so the theorems hold for every choice of them.
- Purging and deleting streams are outside every run, as is writing snapshots by hand; a reducer is a pure function and
  there is one for each name and state-schema version.

Where the code does not keep a promise, the model keeps the code and says so:

- `read_state_at_version` casts the version to i64: from 2^63 on it answers the initial state
  (`Snapshots.ReadStateAtVersionIsReplay` gives the exact boundary, `Snapshots.HugeVersionReadsInitialState` an input).
  The JavaScript `readStateAtVersion` has the same boundary but answers the state of whatever snapshot is newest
  (`Snapshots.JsReadStateAtVersionIsReplay`, with an input in `Snapshots.JsHugeVersionReadsSnapshot`).
- Container lengths are truncated to u32.  Encodings are injective on values whose arrays and maps have fewer than n
  elements exactly when n is at most 2^32 (`CceLimits.InjectiveExactlyBelow`); beyond, two payloads can share an event id
  (`CceLimits.OversizePayloadsShareAnId`), and every oversize array or map breaks prefix-freedom
  (`CceLimits.OversizeArrayBreaksPrefixFreedom`, `CceLimits.OversizeMapBreaksPrefixFreedom`).
- Following cursors through a walk in direction Both comes back to what was read: for an exhaustive walk from a stored
  event it is lossless exactly when there is a single page, and from an event that is not stored also with two pages cut
  after the first level (`PagingLimits.BothPagingExactly`, an input in `PagingLimits.ChainReturns`).  Forward and Backward
  it is lossless exactly when no depth limit above 2^32 cuts the walk, because the cursor holds the depth as u32
  (`PagingLimits.LosslessExactly`).
- Delivery has no gap exactly when nothing jumps ahead (`DeliveryGaps.ContiguousExactlyWhenNothingJumped`).  Four things
  do lose an event: a push that overtakes another, a commit between the seed query and the registration of a subscriber, a
  commit that looked for subscribers before the registration, and a scan of a stream for which a glob subscriber has no
  cursor yet (`DeliveryLosses`).
- The doc comment of `patterns_may_overlap` (src/reducers.rs:252) promises a common stream, while line 273 and
  docs/deep-dives/reducers-snapshots.md:213 call the check conservative; the code is the latter, and answers yes for any
  pattern with `**` (`Registry.MayOverlapExactly`, `Registry.DeepPatternsOverApproximate`).
- A correlation page with a result budget of zero restarts from the beginning (`Reads.ZeroBudgetStartsOver`).
- Branches whose parents form a cycle are accepted and resolve for ever: resolution ends exactly when it ends within one
  step more than there are branch rows (`Branches.ResolutionEndsExactly`, an input in `Branches.MutualParentsNeverResolve`).
- Upcasters that lead back to an earlier version are accepted and run for ever unless one fails: the links end exactly
  when they do within one step more than there are upcasters (`Upcasters.EndsExactly`, `Upcasters.LoopEndsExactly`).
- The report of a dropped task names neither stream nor branch, so a task gets a report of its own exactly when no other
  with its kind, priority and deadline is reported (`DropReports.ReportIdsEqualExactly`, `DropReports.OwnRowsExactly`).

## Model

| member | source | states |
|---|---|---|
| CceDecoder.DecodeEncoding | src/cce.rs:30-116 | for container lengths below 2^32, a decoder undoes the encoder on every value it accepts: it returns the canonical form and exactly what followed the encoding |
| CceDecoder.EncodingPrefixFree | src/cce.rs:30-116 | `encode(a) ++ x == encode(b) ++ y` forces equal canonical forms and `x == y`, for container lengths below 2^32 |
| CceCanon.EncodingsEqualExactly | src/cce.rs:30-116 | for container lengths below 2^32, two values encode to the same bytes exactly when they differ only by map order at any depth, NFC-equivalent strings, or the representation of zero and NaN |
| CceSpec.EncodingIsPrescribed | src/cce.rs:30-116 | every encodable value is encoded as the specification prescribes, byte by byte: tags, little-endian counts and words, the canonical NaN and zero, and map entries in strictly ascending byte order of their encoded keys, at every depth |
| CceSpec.FirstErrorIsPrescribed | src/cce.rs:30-101 | the error is that of the first offending value in encoding order, with duplicate keys found after all entries of a map |
| CceSpec.PreimageIsPrescribed | src/cce.rs:136-149 | the hashed bytes are the ASCII of "fossic-cce-v1", a NUL, and the prescribed encodings of type, version, cause and payload |
| KeyedSort.LexLessExactly | src/cce.rs:71-72 | the order of the keys is that of their first differing byte, a proper prefix coming first |
| CceCanon.SameEncodesAlike | src/cce.rs:62-85 | values that differ only in those ways are accepted together and encode to identical bytes |
| CceCanon.CanonSame | src/cce.rs:163-173 | equal canonical forms mean that the values differ only in those ways |
| CceCanon.EncodableExactly | src/cce.rs:30-101 | encoding succeeds exactly on values within the integer and string limits without duplicate keys at any depth |
| CceCanon.DuplicateKeysExactly | src/cce.rs:66-78 | within the limits, `DuplicateKeys` is the error exactly when two keys of one map normalise to the same string |
| CceCanon.PreimagesEqualExactly | src/cce.rs:136-149 | for payloads with container lengths below 2^32, two id preimages are equal exactly when type, version, cause and canonical payload are |
| CceLimits.InjectiveExactlyBelow | src/cce.rs:54-85 | the encoding is injective up to canonical form on values with fewer than n elements per container exactly when n is at most 2^32 |
| CceLimits.WrappedArraysCollide | src/cce.rs:54-60 | two arrays with different canonical forms and the same bytes, for every list whose length plus one is a multiple of 2^32 |
| CceLimits.OversizePayloadsShareAnId | src/cce.rs:136-149 | two payloads with different canonical forms and equal id preimages |
| CceLimits.OversizeArrayBreaksPrefixFreedom | src/cce.rs:54-60 | an array of 2^32 items or more encodes as a shorter array, with another canonical form, followed by more bytes |
| CceLimits.OversizeMapBreaksPrefixFreedom | src/cce.rs:62-85 | a map of 2^32 entries or more encodes as the map of its first entries in key order, with another canonical form, followed by more bytes |
| CceLimits.ManyNullsCollideWithEmptyArray | src/cce.rs:54-60 | 2^32 nulls encode as the empty array followed by null bytes |
| CceEncoder.EncodeValue | src/cce.rs:30-88 | the recursive encoder on a mutable buffer appends exactly what the specification prescribes for the value, or returns the error of the first offending value in encoding order |
| CceEncoder.EncodeMap | src/cce.rs:62-85 | encoding the pairs, sorting them by key bytes and rejecting equal neighbours appends the prescribed map: its entries in strictly ascending byte order of their encoded keys; or gives the first error |
| CceEncoder.EncodeString | src/cce.rs:91-101 | appends tag, length and normalised bytes, or rejects a string over 64 MiB and leaves the buffer as it was |
| CceCanon.FloatsEncodeAlikeExactly | src/cce.rs:158-173 | two floats encode alike exactly when they are one bit pattern, both NaN, or both a zero |
| CceCanon.OptionalBytesPrefixFree | src/cce.rs:104-116 | an absent value and byte strings below 2^32 bytes are told apart by their encodings, and so is whatever follows |
| CceEncoder.SortPairs | src/cce.rs:71-72 | sorting rearranges the pairs into byte order of their keys: by the first differing byte, a proper prefix first |
| CceEncoder.CheckDuplicates | src/cce.rs:73-78 | the window scan of sorted pairs finds a duplicate exactly when two keys are equal anywhere |
| CceEncoder.DeriveEventId | src/cce.rs:136-149 | hashes exactly the prescribed preimage of prefix, type, version, cause and payload, or returns the first error |
| Walk.WalkCausationBounded | src/cross_stream.rs:365-450 | the levels are, each after the other, the first unseen neighbours by id up to the bound of the sampling mode (none, the given number, or an even share of the target but at least one) down to the depth limit or until nothing is left, and the page is the longest front of whole levels within both budgets, at least one, with the named reason, frontier and depth |
| Walk.LevelsAreWalk | src/cross_stream.rs:343-412 | the same for the levels of any walk, in every direction, from any frontier |
| Walk.ExpandFrontier | src/cross_stream.rs:316-338 | one expansion is the rows reachable in one step in the direction, without duplicates and in id order |
| Walk.MergeById | src/cross_stream.rs:324-336 | forward rows, then the backward rows not among them, sorted: the union of both in id order |
| Walk.RetainUnseen | src/cross_stream.rs:405-406 | retaining drops exactly the rows already seen and keeps the order |
| Walk.FitIsMaximal | src/cross_stream.rs:414-437 | a page is within budget unless it is a single level, and one more level would not have fitted |
| WalkPaging.PageIsWholeLevels | src/cross_stream.rs:402-447 | every page is whole levels, is within budget or a single level, is cut exactly when levels remain, and could not have held one more |
| WalkPaging.PagesConcatenateToWalk | src/cross_stream.rs:365-450 | Forward and Backward on an acyclic store, for every sampling mode, depth limit and budget of each page: following cursors repeats no event, needs at most one page per level, and ends with the walk without budget, unless a depth limit above 2^32 cuts the walk |
| PagingLimits.LosslessExactly | src/cross_stream.rs:425-437 | Forward and Backward on an acyclic store, complete paging gives the whole walk under all budgets exactly when the depth limit is at most 2^32 or cuts nothing |
| PagingLimits.CutWalkOverruns | src/cross_stream.rs:425-437 | for every walk cut by a larger limit, budgets under which paging gives the whole walk and then more, beyond the limit |
| PagingLimits.BothPagingExactly | src/cross_stream.rs:383-390 | direction Both, exhaustive, any budgets: the pages hold no event twice and not the start, and complete paging is the whole walk, exactly for a single page, or for two from an event that is not stored with the first cut after one level |
| PagingLimits.NextPageReturns | src/cross_stream.rs:383-390 | direction Both, exhaustive: after a cut page whose frontier before the cut is stored, the next page holds an event of that frontier, whatever its budget |
| PagingLimits.ChainReturns | src/cross_stream.rs:383-390 | the smallest input: walking a chain of three from its first event, one event to a page, the second page gives the first event |
| WalkPaging.SmallTablesPage | src/cross_stream.rs:425-437 | on a table of at most 2^32 rows no such limit cuts the walk |
| WalkPaging.WalkNeverRepeats | src/cross_stream.rs:405-445 | one walk yields no event twice and none it started from, in any direction on any graph |
| WalkPaging.SeenIrrelevant | src/cross_stream.rs:383-390 | on an acyclic store a resumed walk does not depend on which earlier ids its seen-set remembers |
| WalkPaging.ResumedTail | src/cross_stream.rs:383-390 | after any number of levels the walk goes on exactly as the walk resumed from the last of them |
| WalkDistance.ExhaustiveWalkIsByDistance | src/cross_stream.rs:261-338 | without budget and sampling the loop returns exactly the events at shortest distance 1..max_depth, each once, by distance and then id, in all three directions and with cycles |
| WalkDistance.RecursiveTable | src/cross_stream.rs:183-255 | the recursive CTE, in any order of its queue, ends with the table of all ids and depths reachable by paths of length 1..max_depth |
| WalkDistance.CteAgreesWithFrontierLoop | src/cross_stream.rs:183-255 | on any graph the CTE finds the events of the frontier loop with their shortest distance as least depth; it adds the start exactly when it lies on a short enough cycle |
| WalkDistance.CteWalkEqualsFrontierLoop | src/cross_stream.rs:183-255 | on an acyclic store the CTE and the exhaustive frontier loop return the same set of events |
| CausationIterator.CausationIter.Next | src/store.rs:2226-2247 | the iterator emits the events of its pages in order, an error once, and nothing after the end or an error |
| CausationIterator.CausationIter.FetchBatch | src/store.rs:2196-2220 | one fetch continues from the cursor of the page before or fails and drops it; an empty batch means the walk is complete |
| CausationIterator.CausationIter.EmitsTheWalk | src/store.rs:2181-2249 | Forward and Backward on an acyclic store, unless a depth limit above 2^32 cuts the walk: what was emitted is a front of the whole walk without repetition, and all of it after an end without error |
| CausationIterator.CausationIter.EmitsBothExactly | src/store.rs:2181-2249 | an exhaustive walk in direction Both that ended without error was emitted as it is exactly when the iterator had nothing to come back to |
| AppendRuns.EveryRunIsSound | src/append.rs:32-304 | over every run of append, append_if, append_batch and system emits: the rows of each stream and branch are numbered 0, 1, 2 and so on in the order they were added, no two rows agree in normalised type, type version, cause and canonical payload, ids are unique and derived from their rows, and rows only grow |
| AppendRuns.TwoRowsExactly | src/append.rs:54-108 | two accepted appends of contents not yet in the store give two rows exactly when they differ in normalised type, type version, cause or canonical payload |
| Appends.IdsEqualExactly | src/append.rs:54-61 | ids that exist are equal exactly when normalised type, type version, cause and canonical payload are |
| EventIds.IdsAgreeWithPreimages | src/cce.rs:136-149 | and, for payloads with container lengths below 2^32 and causes in any injective 32-byte form, exactly when the bytes that are hashed are |
| AppendRuns.EmptyStoreIsSound | src/append.rs:32-304 | the same for every run from the empty store |
| AppendRuns.DuplicatesChangeNothing | src/append.rs:81-109 | appending content whose id is stored leaves the store as it is and reports that nothing is new |
| AppendRuns.BatchIsAllOrNothing | src/append.rs:208-304 | a failed batch changes nothing, a successful one equals its appends one by one with the same outcomes, and it succeeds exactly when each of them would |
| AppendRuns.GuardedAppendsAreExclusive | src/append.rs:120-206 | of several append_if calls in a run, guarded by any conditions that hold only where the newest version of a stream is one expected version, at most one inserts |
| Appends.ConflictIsDuplicateId | src/append.rs:74-108 | an insert is ignored exactly when the id is known, never because of the version |
| AppendStore.EventStore.AppendEvent | src/append.rs:32-110 | succeeds exactly with valid tags, an encodable type and payload and a declared stream, and else returns the first of these checks that fails and changes nothing; then exactly one row, holding every field of the append under the next number of its stream and branch, is added if no row of a sound store has the same content, and none otherwise |
| AppendStore.EventStore.AppendEventIf | src/append.rs:120-206 | appends, with the effect of an append, exactly when the append is admissible, its stream declared and the condition true of the rows inside the transaction; false or an error changes nothing |
| AppendStore.EventStore.AppendEvents | src/append.rs:208-304 | the two loops of the batch record the appends one after another, or change nothing: for the first inadmissible append, else for the first undeclared stream |
| CausalOrder.SoundStoreIsAcyclic | src/cce.rs:136-149 | in a sound store an id contains its cause, so the stored causation graph has no cycle |
| CausalOrder.ReachableStoresWalkAlike | src/cross_stream.rs:183-450 | on every store that appends can reach, complete Forward or Backward paging loses nothing, unless a depth limit above 2^32 cuts the walk, and for every limit the CTE walk returns the events of the exhaustive frontier loop |
| Snapshots.SnapshotsStayConsistent | src/store.rs:1417-1484 | over every run of commits, GC and interleaved snapshot writers that look, load and write in separate steps, each stored snapshot at version v is what applying the reducer once to each of the rows 0..v, in order, leads to from its initial state |
| Snapshots.ReplayedExactly | src/store.rs:1323-1329 | an answer is the replay of a log exactly when a sequence of states leads to it: from the initial state, by one application of the reducer for each event, to the last state or the first failing application |
| Snapshots.ReadStateIsReplay | src/store.rs:1319-1333 | a snapshot found at one point and events read at a later one give the replay from zero of the later log, one application for each event, errors included |
| Snapshots.ReadStateAtVersionIsReplay | src/store.rs:1336-1349 | the answer is the replay of the rows up to the version, one application for each, for versions below 2^63, and the initial state from 2^63 on |
| Snapshots.HugeVersionReadsInitialState | src/store.rs:1884-1916 | an input for which the documented promise fails: version 2^63 |
| Snapshots.JsReadStateAtVersionIsReplay | fossic-node/index.js:278-317 | the JavaScript lookup and the later read of events give the replay up to the version, of the log as of the second call, below 2^63; from 2^63 on the answer is the state of the snapshot used, or the initial state |
| Snapshots.JsHugeVersionReadsSnapshot | fossic-node/index.js:278-317 | a reachable store where version 2^63 answers a cached state that is neither the replay nor the Rust answer |
| Snapshots.WriteIsValid | src/store.rs:1468-1483 | what a writer computed from what it read is the replay of the log, one application for each row, up to the version it writes, even after the log grew |
| Snapshots.StateStore.FindLatestSnapshot | src/snapshots.rs:10-48 | finds the newest matching snapshot up to the bound, and none exactly when there is none |
| Snapshots.StateStore.SnapshotInfo | src/snapshots.rs:93-119 | finds the newest snapshot of any state-schema version, and none exactly when there is none |
| Snapshots.StateStore.ReadState | src/store.rs:1884-1916 | the answer is reached through states that start at the initial one and follow each other by one application of the reducer to each row up to the bound, to the last or to the first failure |
| Snapshots.StateStore.TakeSnapshot | src/store.rs:1417-1484 | writes the state so reached at the last version, returns the newest info when nothing is new, fails without events, and changes nothing else |
| Snapshots.StateStore.GcOrphanedSnapshots | src/snapshots.rs:131-161 | keeps exactly the snapshots of active reducers and schema versions and counts the others |
| Cursors.ContiguousExactlyWithoutJumps | src/subscriptions.rs:255-318 | what a monotone cursor lets through is the contiguous run above the seed exactly when no offered version jumps ahead |
| Cursors.AcceptedIncrease | src/subscriptions.rs:255-318 | whatever is offered, the accepted versions strictly increase above the seed and the cursor is the last of them |
| Subscriptions.SubscriptionRegistry.Subscribe | src/subscriptions.rs:126-165 | inserts a fresh, undegraded entry under an id never used before |
| Subscriptions.SubscriptionRegistry.DispatchSync | src/subscriptions.rs:183-224 | exactly the undegraded synchronous subscribers on the branch of the event whose pattern splits its stream into blocks, that asked for system streams if it is one, and whose callback panics degrade and are reported; every other entry is left alone |
| Subscriptions.SubscriptionRegistry.SendToAll | src/subscriptions.rs:241-292 | the first pass delivers to exactly the live queue subscribers that asked for the event in those terms, have not got as far and have room, degrades those without room, and leaves every other entry alone |
| Subscriptions.SubscriptionRegistry.AdvanceCursors | src/subscriptions.rs:294-319 | the second pass moves exactly the cursors of the delivered entries that still exist, never backwards |
| Subscriptions.SubscriptionRegistry.DispatchPostCommit | src/subscriptions.rs:235-322 | after both passes each of these has the event at the end of its queue and its cursor at the event, those without room are degraded and reported, and every other entry is as before |
| Subscriptions.SubscriptionRegistry.PostCommitCursors | src/subscriptions.rs:342-372 | one row for each undegraded queue subscriber, with its pattern and branch and its cursor, or the least of its stream cursors, or -1 |
| Subscriptions.GroupCursors | src/wal_watch.rs:147-171 | the nested loop maps exactly the streams some row reads to the least cursor among those rows |
| Subscriptions.FetchAfter | src/wal_watch.rs:202-249 | the committed versions above the start, ascending and without a hole |
| Delivery.EveryRunDeliversSafely | src/subscriptions.rs:235-322 | under every interleaving of commits, pushes in any order, overlapping scans, subscribes and unsubscribes, what each subscriber was ever sent is committed, on its branch, on a stream that the parts of its pattern stand for in consecutive blocks, not internal, and on a stream starting with an underscore only if asked for; per stream and branch it strictly increases above the seed, and the handler takes a prefix of it |
| Delivery.CommitCalls | src/store.rs:386-407 | a commit made in this process sends the event to exactly the undegraded synchronous subscribers that asked for it |
| Delivery.TakeSends | src/subscriptions.rs:241-292 | the first pass sends the event to exactly the live queue subscribers that asked for it, are behind it and have room |
| Delivery.NothingAfterTheEnd | src/subscriptions.rs:249-289 | from a degraded, handlerless or unsubscribed state no run ever sends that subscriber anything again |
| Delivery.StepKeepsInv | src/store.rs:2313-2352 | every step keeps the invariant that ties cursors, histories, queues and the event in flight together |
| Delivery.OfferKeepsSound | src/subscriptions.rs:255-289 | offering one event to one subscriber keeps its history what its cursor lets through and its queue within capacity |
| Delivery.AdvanceSettles | src/subscriptions.rs:304-316 | moving the cursor after delivery leaves it at the highest version offered, for exact patterns and for globs |
| DeliveryGaps.ContiguousExactlyWhenNothingJumped | src/subscriptions.rs:255-318 | in every run, what a subscriber was sent on a stream is contiguous exactly when nothing it was offered jumped ahead |
| DeliveryGaps.CarefulRunsLeaveNoGap | src/store.rs:408-426 | if no push is more than one ahead of the seed and the versions pushed so far, each queue subscriber gets the contiguous run above its seed up to its cursor |
| DeliveryGaps.InOrderRunsLeaveNoGap | src/store.rs:386-429 | in-process commits pushed oldest first (commits that nobody listens to need no push), fresh registrations, and scans that start at every listener's cursor are enough for that, over whole runs |
| DeliveryGaps.InOrderRunsDeliverEverything | src/store.rs:386-429 | in such runs, once nothing of a stream waits to be pushed or dispatched, every live queue subscriber on its branch whose pattern splits the stream into blocks, and that asked for it if it starts with an underscore, was sent exactly the committed versions above its seed, each once and in order |
| DeliveryGaps.ScansNeverJumpAheadOfCoveredSubscribers | src/wal_watch.rs:147-190 | in every run, the next push of a scan is at most one ahead for each subscriber that had an exact pattern or a cursor for the stream when the groups were gathered |
| DeliveryGaps.StartIsBelowCursor | src/wal_watch.rs:147-171 | the group start is at most the cursor of each such subscriber |
| DeliveryGaps.SeedQueryIsFresh | src/store.rs:586-615 | the seed covers every committed version of every stream the subscriber wants |
| DeliveryGaps.SeedQueryIsCommitted | src/store.rs:586-615 | and nothing beyond: on every stream it wants, the seed is a committed version or -1 |
| DeliveryGaps.OldestIsNotAhead | src/store.rs:408-426 | pushing the oldest unpushed commit of a stream never jumps ahead |
| DeliveryLosses.OvertakingLosesAnEvent | src/store.rs:408-426 | a reachable state in which version 1 was pushed before version 0 and version 0 is lost to a fit subscriber |
| DeliveryLosses.CommitDuringSubscribeIsLost | src/store.rs:586-627 | a reachable state in which version 0 was committed between seed query and registration, was not pushed, and is lost once version 1 is |
| DeliveryLosses.CommitThatLookedTooEarlyIsLost | src/store.rs:386-426 | the same for a commit after the registration that had looked for subscribers before it |
| DeliveryLosses.ScanSkipsANewStream | src/wal_watch.rs:147-171 | a reachable state in which a glob subscriber without a cursor for a stream lost its first event to a scan that started at another stream's cursor |
| Pump.FossicSubscription.Callback | fossic-node/index.js:94-116 | an event resolves the waiting call or is buffered and requests the next; the end closes and resolves; after closing it is ignored |
| Pump.FossicSubscription.Next | fossic-node/index.js:119-135 | rejects exactly when a call is pending, yields buffered events first even after closing, and waits exactly when open and empty; nothing is lost, doubled or reordered |
| Pump.FossicSubscription.Unsubscribe | fossic-node/index.js:137-146 | closes, answers a waiting call with the end, and keeps the buffer readable |
| Reads.PagesConcatenateToRead | src/read.rs:142-198 | with any budgets and any appends between pages, the pages so far and what the last cursor still selects are the whole read of the log as of the last page |
| Reads.CompletePagingIsOneRead | src/read.rs:48-71 | complete paging collects everything the query selects as of the last page, and equals the one-shot read exactly when `limit` cuts nothing |
| Reads.ProgressExactlyWithPositiveBudget | src/read.rs:171-191 | a cut page is empty exactly when the result budget is zero |
| Reads.PagingTerminates | src/read.rs:142-198 | with positive budgets on a fixed log there are at most as many pages as rows, plus one |
| Reads.ReadRangeBounded | src/read.rs:142-198 | the page is the longest front, within both budgets and with at least one row unless no result is allowed, of the events within the versions and of the type asked for by ascending version, cut with the next version as cursor and the right reason |
| Reads.AllIsSelection | src/read.rs:48-71 | a read selects exactly the events of the log within both version bounds, as i64, and of the type asked for, by ascending version |
| Reads.OneShotExactly | src/read.rs:48-71 | the one-shot read is the first events of the selection up to the limit, all of them for a limit from 2^63 on |
| Reads.StoreReadRangeBounded | src/store.rs:659-717 | per-call budgets win over the store's defaults, and a cursor of another kind is refused |
| Reads.RangeIter.Next | src/store.rs:2113-2128 | the iterator emits the read of the log as of its last fetch row by row, ends only when all of it was emitted, and stays ended after the end or an error |
| Reads.RangeIter.FetchBatch | src/store.rs:2089-2107 | one fetch continues from the cursor or fails and drops it; an empty batch means the read is complete |
| Reads.ReadByCorrelationBounded | src/cross_stream.rs:100-154 | the page is the longest front of the matches within both budgets, with the last id as cursor |
| Reads.CorrelationPagingIsComplete | src/cross_stream.rs:100-154 | with result budgets that are not zero, different from page to page, the pages so far and what the last cursor selects are all matches, strictly ascending by id, and complete paging is all of them |
| CorrelationIterator.CorrelationIter.Next | src/store.rs:2165-2184 | the iterator emits the matches in id order, ends only when all were emitted, and stays ended after the end or an error |
| CorrelationIterator.CorrelationIter.FetchBatch | src/store.rs:2144-2162 | one fetch continues from the cursor of the page before or fails and drops it; an empty batch means every match was read |
| Reads.ZeroBudgetStartsOver | src/cross_stream.rs:131-136 | a page with budget zero has a cursor that selects every match again |
| Glob.MatchesExactlyByBlocks | src/glob.rs:59-75 | a pattern matches exactly when the segments split into consecutive blocks: one for `*`, an equal one for a literal, any number for `**` |
| Glob.ExactPatternMatchesOnlyItself | src/glob.rs:8-12 | a pattern without a star matches exactly the stream it spells |
| Glob.SplitOfJoin | src/glob.rs:9-10 | splitting undoes joining |
| Glob.JoinOfSplit | src/glob.rs:9-10 | joining undoes splitting, so distinct ids have distinct segments |
| Glob.LeadingLiterals | src/glob.rs:16-21 | the specificity is the position of the first wildcard part, or the number of parts |
| Glob.JsMatcherAgrees | fossic-node/index.js:197-210 | the JavaScript matcher agrees with the Rust one on every input |
| Glob.JsSpecificity | fossic-node/index.js:212-219 | the JavaScript counting loop gives the Rust specificity |
| Registry.ShareExactlyWhenPartsMeet | src/reducers.rs:253-275 | two patterns, `**` included, share a stream exactly when their parts can be reconciled part by part |
| Registry.MayOverlapExactly | src/reducers.rs:253-275 | the overlap test never misses a common stream, and is right exactly when neither pattern has `**` or the parts do meet |
| Registry.DeepPatternsOverApproximate | src/reducers.rs:273-275 | two patterns it calls overlapping that share no stream |
| Registry.NoStreamIsAmbiguous | src/reducers.rs:135-142 | among accepted registrations no stream is matched by two entries of equal specificity |
| Registry.LookupIgnoresOrder | src/reducers.rs:159-174 | registries with the same entries in any order look up every stream alike |
| Registry.ReducerRegistry.RegisterWithPolicy | src/reducers.rs:128-150 | refuses exactly a zero period or a clash of equal specificity with a registered pattern, naming both, and then changes nothing |
| Registry.ReducerRegistry.FindWithPolicy | src/reducers.rs:159-174 | returns the strictly most specific match, and none exactly when nothing matches |
| Registry.JsFindReducer | fossic-node/index.js:221-234 | returns the first of the most specific matches of an unchecked list |
| Registry.JsLookupAgrees | fossic-node/index.js:221-234 | on accepted registrations both lookups pick the same reducer |
| Relay.HubStreamsCollideExactly | fossic-py/python/fossic/relay.py:24-36 | naming twice changes nothing, and two streams share a hub stream exactly when one is the other with the prefix put on |
| Relay.TranslationExactly | fossic-py/python/fossic/relay.py:42-70 | on any hub, a cause translates to the id of the hub row filed under it on the hub stream of its local event, and to itself exactly where there is none or it has that id |
| Relay.TranslationIsIdentity | fossic-py/python/fossic/relay.py:42-70 | on a hub whose relayed rows keep their ids, translation returns the id it was given, in all three cases |
| Relay.RelayCopies | fossic-py/python/fossic/relay.py:194-222 | one relay adds nothing, or the copy of the event: its branch, type, version, payload, cause and id under the hub name of its stream, filed under its id |
| Relay.RelayKeepsIdentity | fossic-py/python/fossic/relay.py:194-222 | one relay keeps the hub faithful, adds exactly the event's own id, and fails only on an undeclared stream, then changing nothing |
| Relay.EveryRunKeepsIdentity | fossic-py/python/fossic/relay.py:42-113 | over every run of relays by any agents in any order with any repetition, foreign appends and declarations of streams, translation is the identity and each row filed under an event has its id |
| Relay.RelayingAgainChangesNothing | fossic-py/python/fossic/relay.py:207-211 | once relayed, relaying the event again after any further run leaves the hub unchanged |
| Relay.RelaysConverge | fossic-py/python/fossic/relay.py:194-222 | with every hub stream declared before its first relay, the ids of the hub after relays are its former ids and those of the relayed events, whatever the order and repetition |
| Relay.RelayAgent.RelayOne | fossic-py/python/fossic/relay.py:194-222 | from a sound local store to a faithful hub: the hub stays faithful, only grows, and holds exactly one id more, the event's own, unless filtered or refused for an undeclared stream; an attempt that fails before reaching the hub leaves it, and the last version advances exactly when the append returned |
| Relay.RelayAgent.RelayWithRetry | fossic-py/python/fossic/relay.py:286-323 | however attempts fail, before or after the hub committed, the hub ends as after one relay at the first attempt that reached it, or unchanged; the last version does not advance when every attempt fails, and advances exactly with the append when the first that reached the hub returned |
| Branches.CreatedExactly | src/branches.rs:57-90 | a branch is created, as given, exactly when it is not called main and no branch of its stream has its name |
| Branches.ChainIsUnique | src/branches.rs:211-265 | a branch has at most one chain from main to itself with each bound the fork version of the child |
| Branches.AskingAnswers | src/store.rs:1222-1244 | asking for an uncached branch that has a chain, and querying on, answers with the chain and caches it |
| Branches.CachedChainsAreFresh | src/store.rs:1222-1244 | in every run of creations here and elsewhere, late invalidations and resolves whose queries and cache insert straddle them, cached and returned chains equal the chain resolved now |
| Branches.RunKeepsUpToDate | src/store.rs:1180-1188 | in every run each cached or returned chain, and each resolve under way, agrees with the branch rows of the moment |
| Branches.ResolutionEndsExactly | src/branches.rs:231-255 | the walk from the leaf leaves the loop at all exactly when it does within one step more than there are rows, which is exactly when it never comes back to a branch |
| Branches.FoundSoonExactlyWithAChain | src/branches.rs:231-255 | within those steps it arrives at main exactly when the branch has a chain |
| Branches.ParentsFirstResolve | src/branches.rs:231-255 | with parents before children every resolution ends: at main, or, exactly for an unknown branch, missing that branch |
| Branches.ResolvesExactlyWithAChain | src/branches.rs:231-255 | the walk from the leaf arrives exactly when the branch has a chain |
| Branches.ResolveBranchChain | src/branches.rs:211-265 | wherever resolution ends: main first, the leaf unbounded last, each bound the child's fork version, exactly when the branch has a chain; otherwise the error names an ancestor that has no row, and with parents first the branch itself |
| Branches.MutualParentsNeverResolve | src/branches.rs:57-90 | two accepted branches that are each other's parent resolve for ever |
| Upcasters.UpcasterRegistry.Apply | src/upcasters.rs:43-77 | wherever the loop leaves: the first failure, a gap exactly when it ended below some registered start, or the payload; where the links run out, that is the composition along the chain of first matches |
| Upcasters.EndsExactly | src/upcasters.rs:54-75 | from a version the links run out exactly when they do within one step more than there are upcasters, which is exactly when no version is visited twice |
| Upcasters.LoopEndsExactly | src/upcasters.rs:54-75 | the loop leaves within those steps when the links run out; when they do not, it runs for ever unless an upcaster fails |
| Upcasters.ForwardEnds | src/upcasters.rs:54-75 | upcasters that all go up always end |
| Upcasters.UpcasterRegistry.Register | src/upcasters.rs:29-33 | adds one upcaster, keeps the list sorted by start, leaves other event types alone, and changes the search only for a start that had none: the first registered wins |
| Upcasters.ComposeCourse | src/upcasters.rs:70-74 | composing a chain passes the payload through each upcaster once, in order, up to the last or the first failure |
| Upcasters.ChainIsUnique | src/upcasters.rs:54-75 | with distinct starts there is at most one chain from a version |
| Upcasters.ResultIgnoresOrder | src/upcasters.rs:29-77 | with distinct starts the result depends only on which upcasters are registered, not on their order |
| Upcasters.InsertAndFind | src/upcasters.rs:29-33 | in a list sorted by start, as the registry keeps it, inserting an upcaster leaves what the search finds for every version as it was where something was found, and adds the new one where nothing was |
| Executor.BackgroundLoop.Turn | src/executor.rs:267-296 | a turn runs nothing unless quiescent, else pops the first of all that wait, high before normal before low and then by deadline, and re-enters a recurring one exactly once with its deadline one interval from now; every task ever scheduled stays accounted for |
| Executor.BackgroundLoop.Pop | src/executor.rs:85-93 | removes exactly one task that high-before-normal-before-low and then the deadline puts first |
| Executor.BackgroundLoop.Shutdown | src/executor.rs:238-265 | everything waiting is disposed of once, in that order, and exactly the persistent tasks from the first that finds a writer on are reported, in order |
| Executor.OpenWriterReportsAll | src/executor.rs:251-256 | a writer that opens at the first try reports every persistent task |
| DropReports.ReportIdsEqualExactly | src/executor.rs:246-250 | every report has an id, and two reports have one id exactly when kind name, priority and deadline agree |
| DropReports.EveryReportHasOneRow | src/system_stream.rs:38-93 | each reported task has exactly one event with its id in the store afterwards |
| DropReports.IdsAfter | src/system_stream.rs:38-93 | the ids in the store afterwards are exactly those from before and those of the reports |
| DropReports.OwnRowsExactly | src/system_stream.rs:38-93 | each task gets a row of its own exactly when no report is in the store yet and no two tasks agree in kind, priority and deadline |

## Left out

- PagingLimits.BothPagingExactly: exhaustive walks only; whether a sampled page in direction Both comes back depends on
  which rows of its first level the sampling keeps.
- CausationIterator.CausationIter.EmitsTheWalk: the store does not change while the iterator is consumed.
- WalkDistance.RecursiveTable: the join of the CTE with the rows is compared as a set of events with least depths; its
  order by timestamp within a depth is not modelled, nor is the clamp of depths above 2^63.
- Walk.ExpandFrontier: SQLite's limit of 32,766 bound parameters per statement.
- Delivery.EveryRunDeliversSafely: an unsubscribed handler drains its queue in the source; the history of what it takes
  ends with the subscription.  An append batch is its events one after another.
- DeliveryGaps.InOrderRunsLeaveNoGap: synchronous subscribers are covered by the safety results only.
- Executor.BackgroundLoop.Turn: a task popped after the store was dropped counts as popped but not run; deadlines are not
  compared with the clock, as in the source.
- Upcasters.UpcasterRegistry.Apply: called only where the loop leaves after some number of steps, which registration does
  not check; when it does is `Upcasters.LoopEndsExactly`.
- Branches.ResolveBranchChain: called only where resolution ends, which creation does not check; elsewhere it never does
  (`Branches.ResolutionEndsExactly`).
- Registry.ReducerRegistry.RegisterWithPolicy: the typed and the dynamic registration are one method.
- CorrelationIterator.CorrelationIter.Next: the store does not change while the iterator is consumed.
- `read_range` and walks apply upcasters to each event afterwards; the folds read raw rows.
- The `SubscriptionDegraded` events that the dispatcher emits for what `DispatchPostCommit` reports.
- Snapshot policies, the 32-entry state monitor and large-state events.
- Payload transforms, msgpack encoding and Unicode normalisation themselves.
- CceSpec.EncodingIsPrescribed: JSON values only; the specification's bytes values, tagged variants and non-string keys
  do not arise from them.
- Purging, deletion and shredding, under which versions can be reused.
- Branch lifecycle flips, branch-id and stream-id validation, consumer cursors.
- Aggregates, similarity search, encryption stubs and the language bindings' plumbing.
- Ids of subscriptions beyond 2^64 and sums of payload lengths beyond 2^64.
