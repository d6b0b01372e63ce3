# snapvault, verified

A Dafny model of snapvault: the C++ engine that stores snapshots as content-addressed chunks and manifests, the Go
layer that replicates the chunks over a simulated cluster and restores them in parallel, and the two SHA-256
implementations they rest on. `dafny verify dfyconfig.toml` checks everything.

## How the model is built

Code that changes things in place is modelled in place. `Cluster.Cluster` keeps node objects whose maps and flags its
methods update; `Engine.Engine` keeps the two maps of the store; `ManifestCodec.Parser` advances a cursor;
`Sha256Stream.Sha256` keeps the 8-word state and 64-byte buffer arrays. Each method is proved equal to a function of
the old state, and what the program promises is proved about those functions.

| files | what they hold |
|---|---|
| `Common`, `Ordering`, `Words`, `WordLaws` | bytes, finite sets, sorting with its comparator, 32-bit words with JavaScript's signed view of them, and what the word operations mean in arithmetic and bit by bit |
| `ClusterModel`, `ClusterLaws`, `RepairLemmas`, `RebalanceLemmas`, `DeepVerify`, `ClusterRuns` | the cluster as a value, chunk by chunk and node by node; what each operation does to single nodes; repair, rebalance, drain, deep verification; durability over runs and rolling failures |
| `Cluster`, `ClusterLoops` | the cluster's methods, and the facts about their loops |
| `StateModel`, `ClusterState` | the persisted state, and saving, loading and rehydrating |
| `RestoreProtocol`, `Distribute` | the parallel restore as a small-step protocol; upload, fetch, reassembly and restore |
| `Manifests`, `Chunker`, `StoreModel`, `SnapshotHistory`, `StoreLaws`, `DiffModel`, `VerifyModel` | the store as a value, its operations, and whole histories of them |
| `Engine`, `EngineLoops` | the engine's methods, and the facts about their loops |
| `ManifestText`, `ManifestRoundTrip`, `ManifestNumbers`, `ManifestTorn`, `ManifestCodec` | the manifest's text as functions, their round trip, the numbers its digits spell, cut-short texts, and the printing and parsing loops |
| `StandardStrings`, `Utf8`, `StandardJson` | how a standard JSON decoder reads a printed manifest: its strings, the encoding they are checked against, and the whole text |
| `Sha256Spec`, `Sha256Laws`, `Sha256Stream`, `Sha256OneShot` | FIPS 180-4, where its constants come from and what its functions do, and its two implementations |
| `EndToEnd` | from a directory tree to a snapshot, text, cluster, failures and back |

What the model leaves to its callers:

- The digest is a parameter of the cluster and the engine: any function from bytes to text. Where stored bytes are
  claimed equal to the original ones, it is required not to collide on the chunks of that history. `EndToEnd`
  instantiates it with SHA-256.
- The FNV seed of a chunk is any natural number; only its remainder modulo the node count is used.
- The filesystem is two maps, from hash to bytes and from name to manifest, changed by atomic writes and unlinks.
  A directory to snapshot is a list of paths with their bytes.
- A locked cluster method is one atomic step. The restore alone is interleaved: its actions are those of the workers,
  the feeder, the closer and the collector, over two unbuffered channels and a cancel flag.
- Map iteration order is arbitrary: the loops pick any remaining key, and the result is proved not to depend on it.

Where comments or documents and code differ, the code is followed:

- `rebalanceLocked` is said to leave every up node with exactly its placement. A chunk without an up holder is skipped
  instead (`RebalanceCanonical`), and one whose placement nodes are all down loses its up copies
  (`RebalanceLosesNothingIff`, `AddNodeCanLose`).
- `RemoveNode` is said to make every chunk survive the drain. It does under an exact condition on the nodes' status
  (`RemoveNodeLosesNothingIff`), and a run shows it failing (`RemoveNodeCanLose`).
- FORMAT.md says collection never touches referenced chunks. The snapshot files are listed without the one of the empty
  name, so a snapshot taken under that name is not counted: it keeps its chunks only as far as others name them
  (`EmptyNameAfterGc`, `EmptyNameAfterRetain`, `EmptyNameIsLost`).
- FORMAT.md calls the sequence number monotonically increasing. It is one more than the greatest that is still listed,
  so a dropped number can be given out again (`NumbersIncreaseIff`, `DroppedSeqIsReused`).
- ARCHITECTURE.md says verification re-hashes every stored chunk. It re-hashes those some manifest names.
- FORMAT.md says manifests are standard JSON that both layers parse alike. Control characters other than newline, return
  and tab are printed raw, which a standard decoder rejects, and bytes that are not UTF-8 are replaced when read
  (`StandardManifestIff`, `ControlPathUnreadable`, `BrokenNameRewritten`). The escapes of backspace and form feed,
  which are never printed, would be read differently (`EscapesAgreeIff`).
- The comment on `LoadState` says chunks come back by running `Put` again; `rehydrate` calls `Rematerialize`.

## Model

| member | source | states |
|---|---|---|
| `ClusterModel.PlacementCard` | internal/cluster/cluster.go:70-81 | the R ring-placed replicas are on R distinct nodes, for every node count and starting node |
| `ClusterLaws.PlacementIsFirstMet` | internal/cluster/cluster.go:62-81 | a placement is the R nodes met first on the ring from the seed modulo the node count |
| `Cluster.Cluster.constructor` | internal/cluster/cluster.go:40-52 | a new cluster has n up, empty nodes with ids 0..n-1 |
| `ClusterState.New` | internal/cluster/cluster.go:40-52 | a cluster is built iff 1 <= r <= n |
| `Cluster.Cluster.Placement` | internal/cluster/cluster.go:70-81 | the ascending list of exactly R nodes: those numbered (seed + k) modulo the node count, for k below R |
| `Cluster.Cluster.Put` | internal/cluster/cluster.go:85-94 | every placement node, up or down, ends with the given bytes; no other node or chunk changes |
| `ClusterLaws.PutWrites` | internal/cluster/cluster.go:85-94 | cell by cell: the bytes are on the R nodes counted from the seed, and every other cell and flag is as it was |
| `Cluster.Cluster.Get` | internal/cluster/cluster.go:100-125 | serves the least up placement holder, else the least up holder anywhere, else nothing |
| `ClusterLaws.GetPrefers` | internal/cluster/cluster.go:100-125 | the replica served is on an up node; nodes counted from the seed come before others, low numbers before high |
| `ClusterRuns.GetServes` | internal/cluster/cluster.go:100-125 | a chunk is served iff some up node holds it, and with intact data the bytes reproduce the hash |
| `Cluster.Cluster.SetUp` | internal/cluster/cluster.go:128-136 | fails exactly for unknown ids; otherwise that node's flag becomes the given one, no other flag and no data change |
| `ClusterLaws.SetUpSets` | internal/cluster/cluster.go:128-136 | setting a known node up adds it to the up nodes, setting it down takes it away; data and sizes stay, and an unknown id changes nothing |
| `ClusterLaws.SetUpServes` | internal/cluster/cluster.go:100-136 | bringing a holder up makes its chunk served; taking a node down leaves it served iff another up node holds it |
| `Cluster.Cluster.RecoverAll` | internal/cluster/cluster.go:139-145 | every node is up and no data changes |
| `ClusterLaws.RecoverAllSets` | internal/cluster/cluster.go:139-145 | every flag is up, all data is kept |
| `Cluster.Cluster.HolderIds` | internal/cluster/cluster.go:181-192 | the ascending ids of all holders, up or down |
| `Cluster.Cluster.LiveReplicas` | internal/cluster/cluster.go:201-212 | the number of up holders |
| `ClusterRuns.PutChunksAreRecoverable` | internal/cluster/cluster.go:83-145 | from a new cluster, after any safe sequence of operations every chunk ever put is held, all replicas are intact, and recovering all nodes makes it fetchable with bytes that reproduce its hash |
| `ClusterRuns.FewerThanRDown` | internal/cluster/cluster.go:85-125 | with every chunk on its placement, any fewer than R nodes down leave every chunk served intact |
| `ClusterRuns.PutAllPlaces` | internal/cluster/cluster.go:85-94 | uploads put every chunk on its whole placement, keep all replicas intact and lose nothing held before |
| `ClusterRuns.UploadIsHealthy` | internal/cluster/cluster.go:85-94 | uploading to a new cluster establishes the replica count that the rolling-failure guarantee starts from |
| `ClusterState.Rematerialize` | internal/cluster/cluster.go:217-230 | a chunk is written to its placement and its recorded extra nodes, ids out of range ignored |
| `Cluster.Cluster.AllChunks` | internal/cluster/repair.go:27-40 | the sorted union of the hashes held on any node, up or down |
| `Ordering.StrLessIff` | internal/cluster/repair.go:38 | sorted lists of hashes are byte-wise: a proper prefix comes first, else the lower byte where two strings first differ |
| `Cluster.Cluster.UnderReplicatedChunks` | internal/cluster/repair.go:44-54 | the sorted hashes of the chunks with fewer than R up holders |
| `Cluster.Cluster.ScanReplicas` | internal/cluster/repair.go:71-90 | counts the intact up replicas, finds the first intact bytes and all corrupt up replicas |
| `Cluster.Cluster.FillTargets` | internal/cluster/repair.go:108-122 | the walk from the chunk's start fills up nodes that lack it until R replicas live, skipping the others |
| `Cluster.Cluster.RepairChunk` | internal/cluster/repair.go:69-123 | one chunk's replicas become what repair specifies, with its share of the counters; no other chunk changes |
| `Cluster.Cluster.Repair` | internal/cluster/repair.go:63-125 | the whole new state and every counter: scanned, under-replicated, copied, corrupt-fixed, and the sorted unrepairable chunks |
| `RepairLemmas.RepairCount` | internal/cluster/repair.go:63-125 | a chunk with an intact up replica ends with all up replicas intact, exactly max(up holders before, min(R, up nodes)) of them |
| `RepairLemmas.RepairCopies` | internal/cluster/repair.go:63-125 | the replicas afterwards are those before plus exactly the copies counted |
| `RepairLemmas.RepairSparesDown` | internal/cluster/repair.go:63-125 | down nodes are not touched |
| `RepairLemmas.RepairKeepsReplicas` | internal/cluster/repair.go:63-125 | no replica is removed and no chunk appears or disappears |
| `RepairLemmas.RepairIdempotent` | internal/cluster/repair.go:63-125 | a second repair changes no data |
| `RepairLemmas.UnrepairableStays` | internal/cluster/repair.go:97-100 | a chunk with no intact up replica is left exactly as it was |
| `RepairLemmas.RepairKeepsIntact` | internal/cluster/repair.go:63-125 | repair never spreads corruption |
| `RepairLemmas.WalkDone` | internal/cluster/repair.go:108-122 | wherever the early-stopping walk halts, it has filled exactly the nodes repair specifies |
| `RepairLemmas.RepairOneMore` | internal/cluster/repair.go:69-123 | handling chunks one at a time, in any order, gives the one result, as each step reads only its own chunk |
| `ClusterLaws.RepairFillsInOrder` | internal/cluster/repair.go:108-122 | of two up nodes that lack a chunk the one nearer on the walk from the seed is filled first |
| `ClusterLaws.RepairClearsUnder` | internal/cluster/repair.go:44-125 | after a repair a chunk some up node held intact counts as under-replicated iff fewer than R nodes are up |
| `Cluster.Cluster.RebalanceChunk` | internal/cluster/repair.go:198-246 | one chunk's copies move to its placement, with counts of copies added and removed; no other chunk changes |
| `Cluster.Cluster.Rebalance` | internal/cluster/repair.go:196-248 | the whole new state; copies added, copies removed and chunks moved are the differences between the states before and after, and the skipped chunks those without an up holder |
| `RebalanceLemmas.RebalanceCanonical` | internal/cluster/repair.go:196-248 | a chunk with an up holder ends, among up nodes, exactly on its placement; a chunk without one, and every down node, is unchanged |
| `ClusterLaws.RebalanceCopies` | internal/cluster/repair.go:204-232 | a copy where the chunk belongs stays as it is, and a missing one is taken from the least up holder |
| `RebalanceLemmas.RebalanceIdempotent` | internal/cluster/repair.go:196-248 | a second rebalance adds, removes and moves nothing |
| `RebalanceLemmas.RebalanceLosesNothingIff` | internal/cluster/repair.go:196-248 | a rebalance loses no chunk iff each has an up placement node, or a copy on a down node |
| `RebalanceLemmas.RebalanceKeepsAll` | internal/cluster/repair.go:196-248 | with fewer than R nodes down no chunk is lost |
| `RebalanceLemmas.MovesAreDifferences` | internal/cluster/repair.go:219-245 | the moves counted chunk by chunk are exactly the differences of the two whole states |
| `RebalanceLemmas.RebalanceKeepsIntact` | internal/cluster/repair.go:204-232 | copying without re-hashing keeps integrity when every replica was intact beforehand |
| `Cluster.Cluster.AddNode` | internal/cluster/repair.go:129-135 | appends one up, empty node with the next id and rebalances the grown cluster; old nodes stay in place |
| `RebalanceLemmas.AddNodeLosesNothingIff` | internal/cluster/repair.go:129-135 | growing loses no chunk iff each has an up node (the new one counts) in its placement over one more node, or a copy on a down node |
| `RebalanceLemmas.AddNodeKeepsAll` | internal/cluster/repair.go:129-135 | with fewer than R nodes down growing keeps exactly the held chunks |
| `RebalanceLemmas.AddNodeCanLose` | internal/cluster/repair.go:129-135 | the premise is needed: with R = 1 and the new placement node down, growing deletes the only copy of an intact chunk |
| `Cluster.Cluster.Drain` | internal/cluster/repair.go:155-179 | each chunk only the victim holds is copied to the first other up node, whatever order the victim's map is walked in |
| `Cluster.Cluster.RemoveNode` | internal/cluster/repair.go:140-191 | refused exactly for unknown ids or too few nodes left; otherwise the whole new state, all counters, and total replicas = before - victim's + added - removed |
| `RebalanceLemmas.RemoveNodeKeepsAll` | internal/cluster/repair.go:140-191 | with fewer than R of the remaining nodes down the held chunks stay exactly the same |
| `RebalanceLemmas.RemoveNodeLosesNothingIff` | internal/cluster/repair.go:140-191 | removal loses no chunk iff each has an up node in its placement over one node fewer, or a copy on a down node other than the victim |
| `ClusterRuns.RemoveNodeCanLose` | internal/cluster/repair.go:140-191 | the premise is needed for removal too: a safe run of put and failure after which removing a node with R = 1 loses an intact chunk |
| `ClusterLaws.DrainMoves` | internal/cluster/repair.go:152-179 | only a chunk held nowhere else moves, its bytes to the least other up node |
| `RebalanceLemmas.DrainCovers` | internal/cluster/repair.go:152-179 | which chunks are still held once the victim is gone |
| `RebalanceLemmas.AddThenRemoveRestores` | internal/cluster/repair.go:129-191 | on an all-up, canonically placed cluster, adding a node and removing it again restores the original cluster |
| `RebalanceLemmas.ReplicaDelta` | internal/cluster/repair.go:193-248 | total replicas change by exactly the copies added less those removed |
| `ClusterLoops.RemoveTotal` | internal/cluster/repair.go:140-191 | the replica balance of drain, splice and rebalance together |
| `ClusterRuns.RunDurable` | internal/cluster/repair.go:63-248 | over any run with content-addressed puts and fewer than R remaining nodes down at each topology change, the held chunks are exactly the old ones plus those put, all intact, and 1 <= R <= n |
| `ClusterRuns.BatchSurvived` | internal/cluster/repair.go:63-125 | after fewer than min(R, up nodes) nodes fail every chunk is served intact, and repair restores the replica count for the next batch |
| `ClusterRuns.RollingFailures` | internal/cluster/repair.go:63-125 | repairing after each such batch keeps every chunk served, while the batch is down and after the repair, however many batches strike |
| `Cluster.Cluster.VerifyNode` | internal/cluster/verify.go:34-42 | one up node's replicas are all re-hashed; the bad ones are listed in order, whatever order its map is walked in |
| `Cluster.Cluster.VerifyDeep` | internal/cluster/verify.go:28-46 | one report per node; down nodes are reported but not checked |
| `DeepVerify.CleanIff` | internal/cluster/verify.go:24-46 | all reports are clean iff every up replica of every chunk is intact |
| `DeepVerify.RepairLeavesBad` | internal/cluster/verify.go:24-46 | after a repair the bad replicas left are exactly those of chunks no up node holds intact |
| `ClusterState.SaveState` | internal/cluster/state.go:24-66 | records sizes, sorted down nodes and sorted off-placement replicas; without data, the remembered extra locations |
| `ClusterState.LoadState` | internal/cluster/state.go:70-90 | succeeds iff the sizes are valid and every listed down node exists, and yields that empty cluster |
| `StateModel.StateUnique` | internal/cluster/state.go:24-66 | a cluster has one saved state, however its maps are walked |
| `StateModel.ReloadHolders` | internal/cluster/state.go:24-90 | after reloading, sizes and down set are restored and each chunk is on its placement plus its previous holders |
| `StateModel.ReloadExact` | internal/cluster/state.go:24-90 | if every chunk covered its placement with the store's bytes, reloading restores the cluster exactly |
| `StateModel.SaveIsFixedPoint` | internal/cluster/state.go:24-90 | saving the reloaded cluster writes the same state |
| `StateModel.DatalessSaveKeepsExtra` | internal/cluster/state.go:51-55 | load, change of a node's status and save without data keep the recorded extra locations |
| `StateModel.SavedExtrasSorted` | internal/cluster/state.go:57-60 | every list written is sorted |
| `ClusterState.ListedSorted` | internal/cluster/state.go:57-60 | the final sort changes no list computed from the data, only remembered ones |
| `ClusterState.Rehydrate` | cmd/snapvault/main.go:71-94 | yields a cluster iff the state loads and every manifest and chunk can be read, holding exactly the chunks the manifests name |
| `ClusterState.RematerializeAll` | cmd/snapvault/main.go:85-91 | stops at the first chunk the store lacks; repeated chunks make no difference |
| `Distribute.UniqueChunks` | internal/store/store.go:82-95 | the sorted list, without repetition, of exactly the chunks the files name |
| `Distribute.Upload` | internal/distribute/distribute.go:21-31 | uploads the chunks in order and stops at the first the store lacks, with the earlier ones uploaded |
| `Distribute.Fetch` | internal/distribute/distribute.go:78-85 | a fetch succeeds only with bytes that reproduce the hash; otherwise it says whether the chunk was unavailable or corrupt |
| `RestoreProtocol.StepInv` | internal/distribute/distribute.go:66-126 | every step of worker, feeder, closer or collector keeps the invariant: no job is in two hands or lost before a cancellation, and only verified bytes are kept |
| `RestoreProtocol.NoDeadlock` | internal/distribute/distribute.go:66-126 | in every state short of the end some party can move, also after a cancellation |
| `RestoreProtocol.StepMeasure` | internal/distribute/distribute.go:66-126 | every step lowers the measure, so no run is infinite |
| `RestoreProtocol.RunInv` | internal/distribute/distribute.go:66-126 | over every interleaving the invariant holds and the number of steps is bounded by the measure spent |
| `RestoreProtocol.FinishedOutcome` | internal/distribute/distribute.go:115-129 | a finished fetch phase has no error iff every chunk could be fetched and verified, and then exactly the unique chunks' bytes; otherwise it reports a failing chunk's error |
| `RestoreProtocol.RestoreRun` | internal/distribute/distribute.go:57-129 | for every worker count and interleaving: bounded length, never stuck, and the outcome above |
| `RestoreProtocol.OutcomeDetermined` | internal/distribute/distribute.go:57-129 | two finished runs agree on success and on the bytes, even with different worker counts |
| `RestoreProtocol.CanFinish` | internal/distribute/distribute.go:66-126 | every reachable state can be continued to the end |
| `Distribute.FetchAll` | internal/distribute/distribute.go:66-126 | under an arbitrary scheduler the fetch phase terminates with that outcome |
| `Distribute.Reassemble` | internal/distribute/distribute.go:131-153 | succeeds iff every named chunk was fetched, and then writes the files in path order; otherwise it stops at the first file with a missing chunk, the earlier ones written |
| `Distribute.RestoredContent` | internal/distribute/distribute.go:131-153 | with distinct paths each file ends as the concatenation of its verified chunks |
| `Distribute.Restore` | internal/distribute/distribute.go:51-155 | succeeds iff every chunk can be fetched and verified, with Verified = Chunks; otherwise reports a fetch error and writes no file |
| `Distribute.FetchSequentially` | web/src/sim/distribute.ts:58-80 | the sequential loop succeeds under exactly the condition the concurrent one does, and stops at the first failing chunk |
| `Chunker.SplitCuts` | core/src/chunker.cpp:9-22 | the pieces concatenate back to the buffer; all but the last have the chunk size, none is empty |
| `StoreLaws.ChunkIsDigest` | core/src/chunker.cpp:9-22 | chunk j is the digest of the bytes from j times the chunk size on, up to the chunk size or the end |
| `Chunker.CutUnique` | core/src/chunker.cpp:9-22 | there is only one such cut of a buffer |
| `Chunker.ChunkBuffer` | core/src/chunker.cpp:9-22 | the loop yields that cut, each piece under its digest; size zero means the default |
| `Engine.Engine.Put` | core/src/content_store.cpp:24-28 | a present hash is left alone and reported as deduplicated; otherwise the bytes are filed under it |
| `StoreModel.EveryPrefixIntegral` | core/src/content_store.cpp:24-28 | whatever prefix of a safe trace of writes and unlinks has reached the disk, every chunk a listed manifest names is stored and hashes to its name |
| `Engine.Engine.constructor` | core/src/engine.cpp:14-18 | opens a store; a chunk size of zero means the default |
| `Engine.Engine.SnapshotNames` | core/src/engine.cpp:126-137 | the names of all snapshot files but the one that is nothing but the extension |
| `Engine.Engine.NextSeq` | core/src/engine.cpp:35-41 | one more than the greatest listed number, in 64 bits |
| `SnapshotHistory.NewSeqGreatestIff` | core/src/engine.cpp:35-41 | the new number exceeds all listed ones iff the counter is not exhausted |
| `SnapshotHistory.DistinctSeqsIff` | core/src/engine.cpp:35-41 | exactly when a snapshot keeps the listed numbers pairwise distinct |
| `SnapshotHistory.NumbersIncreaseIff` | core/src/engine.cpp:35-41 | after any history the next number exceeds every number ever given out iff a listed snapshot still carries the greatest one (or none was given) and the counter is not exhausted |
| `SnapshotHistory.DroppedSeqIsReused` | core/src/engine.cpp:35-41 | a failing case: dropping the newest snapshot and taking another gives its number out again |
| `StoreLaws.SnapshotRecordsFields` | core/src/engine.cpp:43-66 | the manifest field by field: name, 32-bit chunk size, 64-bit number, and each file with its path, size and number of chunks |
| `Engine.Engine.Snapshot` | core/src/engine.cpp:24-68 | the whole new store, all statistics, and a trace of writes each of which keeps referential integrity, the manifest last |
| `Engine.Engine.Restore` | core/src/engine.cpp:78-89 | succeeds iff the snapshot exists and all its chunks are stored, and then writes every file in manifest order |
| `Engine.Engine.Verify` | core/src/engine.cpp:91-124 | fails iff the snapshot or a covered chunk is missing; counts the checked and the bad chunks and names the least bad one |
| `VerifyModel.VerifiedClean` | core/src/engine.cpp:91-124 | a pass that finds its chunks is clean iff every one is intact, as they are on a store with referential integrity |
| `Engine.Engine.Drop` | core/src/engine.cpp:139-145 | removes one manifest and no chunk; fails if there is none |
| `Engine.Engine.Live` | core/src/engine.cpp:149-155 | the chunks some listed manifest names |
| `Engine.Engine.Gc` | core/src/engine.cpp:147-172 | a dry run changes nothing; otherwise exactly the chunks no listed manifest names go. Both report the same sorted candidates, counts and bytes, and every unlink keeps referential integrity |
| `SnapshotHistory.GcExact` | core/src/engine.cpp:147-172 | a completed pass leaves exactly the stored chunks listed manifests name, and a second pass removes nothing |
| `Engine.Engine.Diff` | core/src/engine.cpp:174-209 | the sorted paths added, removed and changed, the unchanged count and the three chunk counts |
| `DiffModel.DiffPartitions` | core/src/engine.cpp:174-209 | the four kinds partition each side's paths, and shared plus one-sided chunks are each side's unique chunks |
| `DiffModel.DiffSwaps` | core/src/engine.cpp:174-209 | swapping the snapshots swaps the two sides |
| `DiffModel.UnchangedMeansEqual` | core/src/engine.cpp:182-192 | a common path is unchanged iff its contents are equal and the chunk sizes are the same or neither cuts the file |
| `DiffModel.DifferentSizesDiffer` | core/src/engine.cpp:182-192 | under two different chunk sizes the same content is reported as changed iff one of them cuts it |
| `DiffModel.SameCutIff` | core/src/engine.cpp:182-192 | two sizes cut a buffer alike iff they are equal or neither cuts it |
| `StoreLaws.KeptAreGreatest` | core/src/engine.cpp:211-233 | no dropped snapshot has a greater sequence number than a kept one, and among equal numbers the kept names are the greater |
| `StoreLaws.StepLists` | core/src/engine.cpp:24-241 | what each operation of a history does to the listed names; the manifests it does not write stay as they are, and keeping none changes nothing |
| `StoreLaws.KeptCount` | core/src/engine.cpp:211-233 | as many are kept as asked for, or all there are |
| `StoreLaws.LatestSurvives` | core/src/engine.cpp:24-241 | a snapshot just taken under a non-empty name survives any retention, and a retention of one leaves only it, unless the counter was exhausted |
| `Engine.Engine.Retain` | core/src/engine.cpp:211-241 | refused iff nothing is to be kept; stops, before collecting, at the first recorded name that is not there to be dropped; otherwise kept plus reversed dropped is the whole newest-first order and the rest is gone with its chunks. Every step keeps referential integrity, and where manifests carry their own names nothing stops it and those with the greatest numbers are kept |
| `EngineLoops.RetainMatched` | core/src/engine.cpp:211-241 | with manifests that carry their own names, every name to drop is there and the kept set is the one with the greatest numbers |
| `SnapshotHistory.RetainedAreNewest` | core/src/engine.cpp:211-241 | cutting the sorted list keeps exactly the snapshots with fewer than `keep` newer ones |
| `SnapshotHistory.PointInTime` | core/src/engine.cpp:24-241 | over any history of snapshots, drops, collections and retentions, restoring a surviving name gives exactly the paths and bytes present when it was last taken; only the empty name can fail to restore |
| `SnapshotHistory.EmptyNameAfterGc` | core/src/engine.cpp:147-172 | a collection keeps the snapshot of the empty name restorable iff listed manifests name all its chunks |
| `SnapshotHistory.EmptyNameAfterRetain` | core/src/engine.cpp:211-241 | a retention does so iff kept manifests name all its chunks |
| `SnapshotHistory.EmptyNameIsLost` | core/src/engine.cpp:126-172 | a failing case: a snapshot taken under the empty name does not survive a collection |
| `SnapshotHistory.HistoryIntegral` | core/src/engine.cpp:24-241 | after any history every chunk a listed manifest names is stored, and every stored chunk hashes to its name |
| `ManifestCodec.JsonEscape` | core/src/manifest.cpp:11-25 | the escaping loop computes the escape function that the parser's string reader is proved to undo |
| `ManifestRoundTrip.ReadEscaped` | core/src/manifest.cpp:55-78 | reading an escaped string gives the string back, whatever bytes it contains |
| `ManifestRoundTrip.DecimalRead` | core/src/manifest.cpp:80-91 | reading a printed 64-bit number gives it back |
| `ManifestNumbers.DecimalSpells` | core/src/manifest.cpp:124-135 | a printed number is ASCII decimal digits that spell it, without a leading zero |
| `ManifestNumbers.UintReads` | core/src/manifest.cpp:80-91 | reading a run of ASCII digits gives the number it spells modulo 2^64, and stops at the first other character |
| `ManifestNumbers.UintNeedsDigit` | core/src/manifest.cpp:80-91 | without a digit there is no number |
| `ManifestNumbers.EscapeReads` | core/src/manifest.cpp:60-72 | after a backslash n, r and t stand for control characters and every other character for itself |
| `ManifestCodec.Print` | core/src/manifest.cpp:120-145 | the nested printing loops write exactly the manifest's text, whose meaning an independent JSON reader confirms |
| `ManifestCodec.Parse` | core/src/manifest.cpp:147-220 | the cursor-driven parser accepts exactly the texts the specification reads, with the same result |
| `ManifestCodec.Parser.String` | core/src/manifest.cpp:55-78 | the string scanner, its escapes and its failures |
| `ManifestCodec.Parser.Uint` | core/src/manifest.cpp:80-91 | the number scanner, wrapping at 64 bits, and its failure |
| `ManifestCodec.Parser.StringArray` | core/src/manifest.cpp:93-115 | the array scanner and its failures |
| `ManifestRoundTrip.RoundTrip` | core/src/manifest.cpp:120-220 | parsing a printed manifest gives it back, for any name and paths, any number of files and chunks, fields within their widths and chunk hashes free of quote and backslash |
| `ManifestRoundTrip.PrintingInjective` | core/src/manifest.cpp:120-145 | different such manifests are printed differently |
| `StandardJson.PrintedValue` | core/src/manifest.cpp:120-145 | the printed text is one JSON object with the fields the Go record names, unless a name or path holds a raw control character |
| `StandardJson.EscapesAgreeIff` | core/src/manifest.cpp:60-73 | the layers agree on the character an escape stands for exactly for six of them; the two others JSON has, of backspace and form feed, the parser reads as letters |
| `StandardJson.OldManifestsRead` | core/src/manifest.cpp:147-220 | a text without the number, as written before the field existed, is read by both layers with the number 0 |
| `ManifestTorn.TornWriteRejected` | core/src/manifest.cpp:147-220 | of the prefixes of a printed manifest exactly those that reach the closing brace are accepted, and they are read as the whole manifest |
| `Sha256Spec.PaddingInjective` | core/src/sha256.cpp:98-113 | padded messages determine the message |
| `Sha256Spec.PaddingIsShortest` | core/src/sha256.cpp:98-113 | padding fills whole blocks and is as short as the length field allows |
| `Sha256Spec.HexTextFaithful` | core/src/sha256.cpp:115-125 | the text is 64 lower-case hexadecimal digits, and different digests have different texts |
| `WordLaws.WordSums` | core/src/sha256.cpp:47-71 | exclusive or and twice the common bits add up to the sum, or and the common bits likewise, and addition is modulo 2^32 |
| `WordLaws.WordBits` | core/src/sha256.cpp:47-71 | and, or, exclusive or and complement act on each of the 32 bits |
| `WordLaws.NotIsComplement` | core/src/sha256.cpp:58 | a word and its complement share no bit and together have all |
| `WordLaws.RotationValue` | core/src/sha256.cpp:22-24 | rotating by n is the quotient by 2^n plus the remainder moved to the top |
| `Sha256Laws.RotationBit` | core/src/sha256.cpp:22-24 | bit i of a rotated word is bit (i + n) mod 32 of the word |
| `Sha256Laws.RoundConstantsAreCubeRoots` | core/src/sha256.cpp:9-20 | each of the 64 round constants is the first 32 fractional bits of the cube root of a prime from 2 to 311 |
| `Sha256Laws.InitialHashIsSquareRoots` | core/src/sha256.cpp:28-37 | the initial hash value is the fractional bits of the square roots of the first eight primes |
| `Sha256Laws.ChChooses` | core/src/sha256.cpp:58 | bit by bit the first word chooses between the other two |
| `Sha256Laws.MajIsMajority` | core/src/sha256.cpp:61 | bit by bit the majority of three words |
| `Sha256Laws.SigmaBits` | core/src/sha256.cpp:48-60 | each bit of the four sigmas is the parity of the bits the standard's rotations and shifts name |
| `Sha256Laws.RoundUndone` | core/src/sha256.cpp:56-71 | a round is undone by reading the previous variables off the new ones |
| `Sha256Laws.FeedForward` | core/src/sha256.cpp:73-80 | compression adds the rounds' outcome to the hash value word by word modulo 2^32 |
| `Sha256Laws.PaddingLayout` | core/src/sha256.cpp:98-113 | byte by byte: the message, 0x80, zeros, and the bit count in the last eight bytes |
| `Sha256Laws.HexTextValue` | core/src/sha256.cpp:115-125 | the text is the hexadecimal of the 256-bit number whose words are the digest's, most significant first |
| `Words.PackedBytes` | core/src/sha256.cpp:41-46 | shifting and or-ing four bytes gives the big-endian word |
| `Sha256Stream.ScheduleStep` | core/src/sha256.cpp:47-51 | the schedule loop's order of additions agrees with the standard's |
| `Sha256Stream.Sha256.constructor` | core/src/sha256.cpp:28-37 | a fresh object has taken in nothing |
| `Sha256Stream.Sha256.Expand` | core/src/sha256.cpp:39-51 | the array filled by the two loops is the standard's message schedule |
| `Sha256Stream.Sha256.Mix` | core/src/sha256.cpp:53-71 | sixty-four in-place register rotations are the standard's rounds |
| `Sha256Stream.Sha256.Transform` | core/src/sha256.cpp:39-81 | the state becomes its compression with the buffered block |
| `Sha256Stream.Sha256.Update` | core/src/sha256.cpp:83-92 | the stream taken in grows by the data, the state stays the fold of the whole blocks and the buffer the remainder, however the message is cut |
| `Sha256Stream.Sha256.Pad` | core/src/sha256.cpp:98-113 | across both branches the blocks compressed are the padded message |
| `Sha256Stream.Sha256.HexDigest` | core/src/sha256.cpp:98-126 | the digest of everything taken in, as FIPS 180-4 defines it below 2^61 bytes, and with a wrapped length field above |
| `Sha256Stream.Sha256.HexOfBuffer` | core/src/sha256.cpp:128-138 | hashing a buffer in one call gives its digest |
| `Sha256OneShot.ClosedForm` | web/src/sim/sha256.ts:41-43 | the closed-form length is that of the padded message |
| `Sha256OneShot.Pad` | web/src/sim/sha256.ts:40-57 | the padded message, its length written as two 32-bit halves |
| `Sha256OneShot.SignedRound` | web/src/sim/sha256.ts:82-97 | a round on signed 32-bit intermediates, reduced once per sum, is the standard's round |
| `WordLaws.SignedRange` | web/src/sim/sha256.ts:84-97 | JavaScript's signed reading of a number is congruent to it modulo 2^32 and lies in the signed range |
| `Sha256OneShot.Expand` | web/src/sim/sha256.ts:59-71 | the schedule computed with signed intermediates is the standard's |
| `Sha256OneShot.PaddedWord` | web/src/sim/sha256.ts:111 | unpadded hexadecimal digits padded on the left are the word's eight digits |
| `Sha256OneShot.Sha256Hex` | web/src/sim/sha256.ts:30-113 | the digest FIPS 180-4 defines, hence the streaming form's, for every message whose padded form is not too long for an array |
| `EndToEnd.UploadPlaces` | internal/distribute/distribute.go:21-31 | whatever the cluster held before, uploading puts the store's bytes on every placement node of every chunk |
| `EndToEnd.FetchGivesStored` | internal/distribute/distribute.go:21-85 | after an upload and any change of node status with fewer than R down, each fetch yields the store's bytes |
| `EndToEnd.RestoreServesIff` | internal/distribute/distribute.go:51-129 | a finished restore succeeds iff the cluster serves every chunk it needs, and then has bytes that reproduce the hashes |
| `EndToEnd.RestoreWhileFailing` | internal/distribute/distribute.go:51-129 | through rolling failures and repairs every finished restore of stored chunks succeeds, a batch down or not |
| `EndToEnd.DistributeThenRestore` | internal/distribute/distribute.go:21-155 | a recorded snapshot uploaded to any cluster survives any fewer than R nodes down: every finished restore succeeds and writes exactly the tree's paths and bytes |
| `EndToEnd.SnapshotToRestore` | internal/distribute/distribute.go:21-155 | any history, a surviving snapshot with portable names, its manifest read from the printed text by a standard decoder, uploaded, fewer than R nodes down: every finished restore rebuilds the tree as it was when taken |
| `EndToEnd.SnapshotsSurviveText` | core/src/engine.cpp:66-76 | under SHA-256 addresses the engine reads back exactly every manifest a history leaves behind |
| `EndToEnd.UploadFindsAll` | core/src/engine.cpp:43-66 | uploading a surviving snapshot finds every chunk in the store iff it is restorable, as it is under any name but the empty one |
| `StandardStrings.EscapedControlIff` | core/src/manifest.cpp:11-25 | escaped text is free of raw control characters iff the string has none but newline, return and tab |
| `StandardStrings.ReadQuoted` | internal/store/store.go:68-78 | a standard decoder rejects a printed string with a raw control character, and otherwise reads it with each ill-formed byte replaced |
| `StandardStrings.ReadBackIff` | internal/store/store.go:68-78 | it reads a printed string back as it was iff that has no other control character and is UTF-8 |
| `StandardStrings.CoerceIff` | internal/store/store.go:68-78 | replacement leaves a string alone iff it is UTF-8 |
| `StandardStrings.ControlNameRejected` | internal/store/store.go:68-78 | a failing case: the name of the single byte 1 |
| `StandardStrings.BrokenNameRewritten` | internal/store/store.go:68-78 | a failing case: the name of the single byte 0xff is read as another |
| `Utf8.ValidIffEncoded` | internal/store/store.go:68-78 | a string passes as UTF-8 iff it is the encoding of some sequence of code points |
| `Utf8.CoerceIsValid` | internal/store/store.go:68-78 | replacement leaves well-formed UTF-8, and what it puts in is U+FFFD |
| `StandardJson.StandardReads` | internal/store/store.go:68-78 | what a standard decoder makes of a printed manifest, for every manifest: refused or read with replacements, its numbers those its digits spell |
| `StandardJson.StandardManifestIff` | internal/store/store.go:68-78 | the printed text is read back as the manifest iff its numbers fit and its name and paths are portable |
| `EndToEnd.SnapshotReadIff` | internal/store/store.go:68-78 | so is every surviving manifest of a history |
| `EndToEnd.ControlPathUnreadable` | internal/store/store.go:68-78 | a failing case: the snapshot of a tree with a file named by the byte 1 cannot be read |

## Left out

- Filesystem calls, directory walking, path joining and their errors, and names or paths that escape their directory.
- The command lines, and all of `cmd/snapvault/main.go` but `rehydrate`.
- Go's `crypto/sha256` and sorting library, and its `encoding/json` for the cluster's state: the digest parameter, a sort function and a state record stand for them.
- The FNV-64a computation behind the placement start.
- Mutexes, and a cluster that changes while a restore is running: a restore's fetches all see one cluster.
- The memory copies that keep callers from sharing a chunk's bytes: byte sequences are values here.
- Manifests on disk that do not parse: inside the engine a manifest is a value, and its text is the codec's concern.
- Snapshot files whose name does not end in `.json`, which only the whole-store verification would try to read.
- The wording of errors, and the per-fetch event list of the simulator.
- `NodeCount`, `Replication`, `Status` and `ChunkAvailable`: one-line readers.
- The other TypeScript ports (chunker, store, engine, cluster) and the user interface.
- Distribute.Reassemble: sorts stably, so with repeated paths it fixes one of the orders the library's sort may give.
- Sha256Stream.Sha256.HexDigest: says nothing of the object afterwards, which the program does not use again.
- Sha256OneShot.Sha256Hex: lengths whose padded form exceeds the 2^53 - 1 elements an array can have are not described, because allocating it fails.
- StandardJson.StandardManifest: reads strings, unsigned integers, arrays and objects; literals, signs, fractions, exponents, `\u` escapes and Go's case-insensitive field names, none of which are ever printed, are not part of this model.
- Sha256Spec.PaddingInjective: is stated below 2^61 bytes, where the standard defines the digest.
- Counters and sizes that exceed 64 bits, other than the sequence number, the chunk size, parsed numbers and SHA-256's bit count.
