# VectorForge in Dafny

A model of VectorForge's vector index and of the components that have to agree with it, with proofs about every
graph, query, history and interleaving.

The code that updates objects in place is modelled by classes with the same fields and loops: `Hnsw.HNSWIndex` and
`Hnsw.Node` (the multi-layer graph, its two-heap beam search, insertion, pruning, deletion), `HashRing.ConsistentHashRing`,
`BruteForce.BruteForceIndex`, `Coordinator.Coordinator`, the recall loop of `Benchmark` and the save and load loops of
`Persistence`. Each method is specified by a value: `Graph` says what an index may become under `add` and `delete` and
what `search` may answer, `Ring` what a ring becomes, `Cluster` what a sharded index becomes, `Format` what a byte
sequence means. The theorems are then about those values.

One layer walk is a step machine on sets (`BeamLoop`): pops, refusals and evictions happen exactly where the two heaps
make them happen, equal distances decided by node id as in the heaps. Only the order in which a neighbour set is
enumerated is left open, and with it which of several equally near nodes a result list or `min` puts first; so `add` and
`search` are relations and not functions. `Determined` shows that the choice disappears when distances are distinct.

The readers-writer lock is a step machine over any number of threads (`RWLock`). `Isolation` runs reading and writing
sections of any program under it; `Sections` is that program for the index, one step of a walk or one updated neighbour
set at a time, and `WriteSections` proves that every interleaving of searches, inserts and deletes is a sequential
history of the index.

How the modules build on each other:

| modules | about |
|---|---|
| `Ranking`, `Ranked`, `Heap` | the n closest of a set; result lists; priority queues |
| `Beam`, `BeamLoop`, `BeamHeaps`, `Pockets` | one layer walk: its declarative meaning, its loop as a step machine, its heaps, and what exclusions hide |
| `Types`, `Graph`, `GraphInvariant`, `Wiring`, `Hnsw` | the index: values, invariant, and the class that refines them |
| `Answers`, `Runs`, `Histories`, `LayerShape`, `SmallIndex`, `Determined` | answers, whole histories and the object driven through them, degrees and connectedness of each layer, exactness of small indexes, order independence and recall |
| `Exclusions`, `Hidden` | exactly what a search under tombstones and filters finds, and a history in which it misses the nearest |
| `BruteForce`, `Benchmark` | the exact baseline and the recall measure |
| `RWLock`, `Isolation` | the lock and what it buys any program |
| `Concurrent`, `Sections`, `WriteSections`, `Moving` | the index under its lock: serialisability and progress |
| `Ring`, `HashRing` | consistent hashing |
| `Merge`, `Cluster`, `Coordinator`, `Sharded`, `SmallCluster` | sharding |
| `Bytes`, `Format`, `Saved`, `FileBytes`, `Echo`, `Reload`, `Damage`, `Persistence` | the file format, as a printer and a parser and byte by byte |

## Where the code and its documentation disagree

The model follows the code; the lemmas named here show where the documented behaviour fails and when it holds.

- Tombstoned and filtered nodes are said to stay navigable, so that recall is preserved (src/vectorforge/hnsw.py:334-337,
  484-486). The walk stops at the first queued node farther than everything it holds, even when it holds fewer than `ef`
  (line 504), so an excluded node can cut off the nearest match for every `k` and `ef`. `Hidden.NearestIsHidden` shows it
  in the index that four inserts and two deletes leave (`Hidden.StoryEnds`, and on the objects `Hidden.TellStory`).
  `Exclusions.SearchRanksFindable` says exactly what a wide enough search answers, `Exclusions.NothingMissedIff` when
  exclusions cost nothing.
- `search` is said to use `ef = max(k, ef)` (src/vectorforge/hnsw.py:320). It uses `ef or max(k, ef_construction)` (line
  348; `Answers.DefaultWidth`), so an explicit `ef` below `k` shortens the answer. `SmallIndex.AnswerShortIff` says exactly
  when, on a connected index without tombstones; `Hidden.NarrowSearchIsShort` is an instance; `Answers.WidthCapsAnswer`
  bounds every answer.
- A key is said to belong to the first point at or after it (src/vectorforge/hashing.py:117-118). `bisect` goes strictly
  past it (line 123). `HashRing.DocumentedOwnerIff` says exactly when the two give the same owner; `HashRing.OwnPointKey`
  names a key on a point of every node, and `HashRing.DocumentedOwnerDiffers` a ring that sends such a key elsewhere.
- A collision of two points is said to be harmless (src/vectorforge/hashing.py:90-91). After the later node leaves,
  lookups can fail: `HashRing.CollisionBreaksLookup`. `Ring.RemoveTotalIff` and `HashRing.LookupFailsIff` say exactly when.
- The header is said to be 40 bytes (src/vectorforge/persistence.py:11). It is 42 (line 74): `FileBytes.HeaderLayout`.
- The tombstone count is repeated in the footer for verification (src/vectorforge/persistence.py:37). It does not catch a
  file cut inside the list that follows: `Damage.TruncatedLoadsIff`.

## Model

| member | source | states |
|---|---|---|
| Hnsw.HNSWIndex.constructor | src/vectorforge/hnsw.py:180-203 | a new index is valid and empty |
| Hnsw.Node.constructor | src/vectorforge/hnsw.py:147-149 | a new node has an empty neighbour set on each layer up to its level |
| Hnsw.HNSWIndex.SearchLayer | src/vectorforge/hnsw.py:465-523 | the two-heap loop ends on every graph, and returns a set that the walk's step machine may stop with, ties included, each node with its true distance |
| Hnsw.HNSWIndex.Expand | src/vectorforge/hnsw.py:507-521 | visiting the neighbours in any order takes the heaps through the machine's steps, one for each neighbour |
| Hnsw.HNSWIndex.Admit | src/vectorforge/hnsw.py:512-521 | a single neighbour is one step of the machine, whether refused, queued only, kept, or kept with an eviction |
| Hnsw.HNSWIndex.SelectNeighbours | src/vectorforge/hnsw.py:525-536 | the selection ranks the `m` closest candidates |
| Hnsw.HNSWIndex.PruneNeighbors | src/vectorforge/hnsw.py:538-544 | what is kept are the `m` neighbours closest to the node itself |
| Hnsw.HNSWIndex.Link | src/vectorforge/hnsw.py:286-288 | edges both ways between the new node and every selected neighbour, and no other change |
| Hnsw.HNSWIndex.Prune | src/vectorforge/hnsw.py:291-296 | only selected neighbours over their cap are trimmed, and only on their own side |
| Hnsw.HNSWIndex.Descend | src/vectorforge/hnsw.py:275-276 | one coarse step: a width-1 walk of the layer, then a node nearest to the query among what it found |
| Hnsw.HNSWIndex.CoarseDescent | src/vectorforge/hnsw.py:274-276 | the descent arrives where a chain of width-1 walks, one per layer, may arrive |
| Hnsw.HNSWIndex.ConnectLayer | src/vectorforge/hnsw.py:280-300 | one layer of the in-place insertion is one the value relation allows: search, select, wire both ways, trim one-sidedly, move on |
| Hnsw.HNSWIndex.FineInsert | src/vectorforge/hnsw.py:279-300 | the in-place wiring of all layers is a sequence of layer insertions |
| Hnsw.HNSWIndex.Register | src/vectorforge/hnsw.py:253-263 | the new node is filed under a fresh id and unconnected; nothing else changes |
| Hnsw.HNSWIndex.Add | src/vectorforge/hnsw.py:209-305 | wrong shape and duplicate id are refused without change; otherwise the new state is one `Added` allows, and the invariant is kept, for every level |
| Hnsw.HNSWIndex.Search | src/vectorforge/hnsw.py:341-373 | bad `k`, then bad shape, are refused; otherwise the answer is one `Searched` allows, and nothing changes |
| Hnsw.HNSWIndex.TopEligible | src/vectorforge/hnsw.py:364-373 | sorting, dropping the ineligible and only then truncating leaves a ranking of the `k` closest eligible candidates |
| Hnsw.HNSWIndex.Delete | src/vectorforge/hnsw.py:375-392 | the id's node is tombstoned and stays in the graph; an unknown id changes nothing |
| Hnsw.HNSWIndex.GetMetadata | src/vectorforge/hnsw.py:394-409 | the stored record, or an error for an unknown id |
| Hnsw.HNSWIndex.LiveItems | src/vectorforge/hnsw.py:411-424 | lists every live id exactly once with its vector |
| Hnsw.HNSWIndex.Len | src/vectorforge/hnsw.py:431-432 | `len` is the number of live ids, which is what `LiveItems` lists |
| Heap.Push | src/vectorforge/hnsw.py:516-519 | a push adds one entry and keeps the least entry first |
| Heap.Pop | src/vectorforge/hnsw.py:500-521 | a pop removes the least entry, and the rest is still a heap |
| BeamLoop.ReachedGood | src/vectorforge/hnsw.py:499-521 | at every moment of every walk the result holds the `ef` closest of all admitted so far, what is neither queued nor expanded was turned away by a full result no farther, and every expanded node was the nearest left and within reach |
| BeamLoop.NearestIsNext | src/vectorforge/hnsw.py:499-505 | each step expands the nearest queued node, of several equally near the one with the least id, and never one farther than everything held |
| BeamLoop.FullRefusesEqual | src/vectorforge/hnsw.py:512-514 | a full result takes no newcomer that is not nearer than its farthest node, and such a newcomer is not queued either |
| BeamLoop.FullDropsFarthest | src/vectorforge/hnsw.py:515-521 | a nearer newcomer displaces the farthest node of a full result, of several equally far the one with the least id |
| BeamLoop.RoomTakesAll | src/vectorforge/hnsw.py:514-519 | while there is room every neighbour is queued, and held if it may be returned |
| BeamLoop.OutcomeExplored | src/vectorforge/hnsw.py:499-523 | whatever the loop returns, equal distances or not, comes of an exploration: nearest-first within reach, every returned node expanded, nothing left worth expanding, the `ef` closest of all admitted |
| Beam.NeighboursAccounted | src/vectorforge/hnsw.py:499-523 | a neighbour of a node an exploration returns is returned, or may not be, or is no nearer than anything in a full result |
| BeamLoop.OutcomeBasics | src/vectorforge/hnsw.py:482-485 | a walk returns between 1 and `ef` existing nodes, all eligible but perhaps the entry point, and never worsens the best distance |
| BeamLoop.OutcomeIsReturned | src/vectorforge/hnsw.py:493-523 | with distinct distances the result is one set, whatever order neighbour sets are enumerated in |
| Beam.TrailIsPrefix | src/vectorforge/hnsw.py:499-523 | the expansion sequence of a narrower beam is a prefix of that of any wider one |
| Beam.RecallNeverDrops | src/vectorforge/hnsw.py:493-523 | a wider beam returns at least as many of the true `k` closest eligible nodes, with no bound on `k` or either width, under any tombstones and filter |
| Pockets.FoundUnlessPocketed | src/vectorforge/hnsw.py:504-521 | under any exclusions and ties, a full-width walk returns an eligible node if and only if no pocket around the entry point leaves it out |
| Exclusions.SearchRanksFindable | src/vectorforge/hnsw.py:334-373 | a search as wide as the index ranks exactly the live matching ids that no pocket of the place the descent reached leaves out |
| Exclusions.NothingMissedIff | src/vectorforge/hnsw.py:334-337 | such a search with room for every answer returns everything live that matches if and only if no such pocket leaves a match out |
| Hidden.StoryEnds | src/vectorforge/hnsw.py:209-392 | every run of four given inserts and two deletes on a new index, ties and visiting orders included, ends in one index |
| Hidden.NearestIsHidden | src/vectorforge/hnsw.py:334-337 | in that index no search near 43, whatever its `k` and `ef`, returns the nearest live id |
| Hidden.TellStory | src/vectorforge/hnsw.py:209-392 | the index object, given those operations, goes through such a run and ends in that index |
| GraphInvariant.AddKeepsInv | src/vectorforge/hnsw.py:253-305 | every `add` keeps: edges join distinct nodes of their layer, degree caps, no dead ends on a layer of two or more, entry point on the top level, ids and names one to one |
| GraphInvariant.DeleteKeepsInv | src/vectorforge/hnsw.py:387-392 | so does every `delete` |
| Runs.RunKeepsInv | src/vectorforge/hnsw.py:209-392 | the invariant holds throughout every history of adds and deletes |
| Runs.RunPlain | src/vectorforge/hnsw.py:209-392 | the same without the name of the invariant: where edges lead, no dead ends, the top layer, internal ids counting up from 0 and one to one with callers' ids |
| Runs.EntryIsOldest | src/vectorforge/hnsw.py:302-305 | in every history the entry point is the oldest node of the highest level, and a later node of the same level does not replace it |
| LayerShape.RunDegrees | src/vectorforge/hnsw.py:279-296 | in every history no node has more than 2M neighbours on layer 0 or more than M on a layer above |
| LayerShape.NewNodeLinks | src/vectorforge/hnsw.py:279-300 | on each layer the new node is linked to as many of the nodes found as 2M on layer 0, and M above, allow, to the nearest of them, and the next layer is entered at the nearest of all |
| LayerShape.TrimmedLoseFarthest | src/vectorforge/hnsw.py:290-296 | an older node gains at most the new one; if it loses a neighbour it keeps 2M on layer 0, or M above, none of them farther from it than any it lost |
| LayerShape.SmallLayerConnected | src/vectorforge/hnsw.py:246-305 | in every history each layer is symmetric and connected as long as it has held at most 2M+1 nodes on layer 0, or M+1 above, whatever levels were drawn and whatever was deleted |
| Runs.RunContents | src/vectorforge/hnsw.py:246-263 | after any history the live contents are what was added and not deleted, under the vectors and records first given |
| Runs.DeadStaysDead | src/vectorforge/hnsw.py:247-248 | a deleted id stays taken and dead in every continuation |
| Runs.NeverReturnedAgain | src/vectorforge/hnsw.py:387-392 | a deleted id is never returned again in any continuation |
| Histories.Perform | src/vectorforge/hnsw.py:209-392 | one call of `add` or `delete` on the object is one step of its value |
| Histories.PerformAll | src/vectorforge/hnsw.py:180-392 | any sequence of calls on a new object, whatever levels are drawn, takes its value through a run; so every history has one |
| Answers.SearchSound | src/vectorforge/hnsw.py:341-373 | at most `k` distinct ids, nearest first, each with its true distance, each live and satisfying the filter |
| Answers.AnswersMean | src/vectorforge/hnsw.py:364-373 | each id answered is known, not tombstoned, at its true distance, and the filter has accepted its record |
| Answers.MayBeReturned | src/vectorforge/hnsw.py:451-463 | an id may be answered if and only if it is known, not tombstoned and its record satisfies the filter, an absent record read as an empty one |
| Answers.DefaultWidth | src/vectorforge/hnsw.py:348 | without `ef`, or with 0, a search may answer exactly what it may with the larger of `k` and `ef_construction` |
| Answers.WidthCapsAnswer | src/vectorforge/hnsw.py:348 | on every index, tombstones and filter or not, an explicit `ef` caps the answer even below `k` |
| SmallIndex.AnswerSize | src/vectorforge/hnsw.py:348 | on a connected index without tombstones an unfiltered answer has the least of `k` and the size many ids without `ef` or with 0, and of `k`, `ef` and the size otherwise |
| SmallIndex.AnswerShortIff | src/vectorforge/hnsw.py:320 | so it falls short of `k`, or of all there is, if and only if a smaller `ef` other than 0 was asked for |
| Hidden.NarrowSearchIsShort | src/vectorforge/hnsw.py:320 | four inserts after which asking for two with `ef` 1 gives one |
| Answers.DescentImproves | src/vectorforge/hnsw.py:357-360 | the coarse descent never ends farther from the query than it began |
| Answers.TopHitBeatsEntry | src/vectorforge/hnsw.py:357-373 | with nothing excluded the first hit is no farther than the global entry point |
| Determined.SearchDetermined | src/vectorforge/hnsw.py:350-373 | with distinct distances, two searches of indexes that differ in no more than empty records give the same list |
| Determined.WiderSearchRecallsMore | tests/test_hnsw.py:218-247 | the hits of a search among the true top `k` never drop when `ef` grows |
| Determined.LargerEfRecallsMore | tests/test_hnsw.py:218-247 | in particular when an explicit `ef` is raised, or left out where `k` or `ef_construction` is no smaller |
| SmallIndex.SmallRunConnected | src/vectorforge/hnsw.py:246-305 | until more than 2M+1 vectors were stored, layer 0 is symmetric and connected, whatever the levels |
| SmallIndex.SmallIndexExact | src/vectorforge/hnsw.py:353-373 | such an index without tombstones answers like an exhaustive scan when `ef` covers it, or, without `ef`, when `k` or `ef_construction` does |
| BruteForce.BruteForceIndex.constructor | src/vectorforge/brute_force.py:40-45 | a new baseline is valid and empty |
| BruteForce.BruteForceIndex.Add | src/vectorforge/brute_force.py:49-63 | appends the pair, or refuses a wrong shape without change |
| BruteForce.BruteForceIndex.Delete | src/vectorforge/brute_force.py:65-76 | removes the first entry under the id and nothing else |
| BruteForce.BruteForceIndex.Search | src/vectorforge/brute_force.py:80-115 | errors in the code's order; otherwise the `k` closest positions, nearest first |
| BruteForce.ScanIsExact | src/vectorforge/brute_force.py:100-115 | over a list holding each id once, in any order, the scan ranks the contents exactly |
| Benchmark.ComputeRecallAtK | src/vectorforge/benchmark.py:33-62 | zero without data or queries, the first failing call's error, else hits over true answers summed over the queries |
| Benchmark.RecallReported | src/vectorforge/benchmark.py:42-62 | 0 without data or queries, else an error for `k` below 1, else for a query of the wrong shape, else a number |
| Benchmark.RecallMeans | src/vectorforge/benchmark.py:36-62 | the number reported, times all true answers, is the number found; it lies between 0 and 1, and is 1 if and only if every query found all of its own |
| Benchmark.TotalIs | src/vectorforge/benchmark.py:38-40 | for each query there are as many true answers as `k`, or as live vectors if there are fewer |
| Benchmark.MeasureOne | src/vectorforge/benchmark.py:57-58 | one query's true answer is a scan of the live contents and its approximate answer one the index may give |
| Benchmark.RecallMonotone | src/vectorforge/benchmark.py:54-62 | the reported recall never drops when `ef` grows, over any set of queries |
| Benchmark.SmallIndexMatchesScan | tests/test_hnsw.py:128-136 | a small undeleted index searched wide enough gives the scan's list of distances |
| Benchmark.SmallIndexFullRecall | tests/test_hnsw.py:128-136 | with distinct distances the benchmark then reports exactly 1 |
| RWLock.StepKeepsInv | src/vectorforge/hnsw.py:79-109 | every step keeps: counters equal the threads in each phase, exclusion, and no lost wakeup |
| RWLock.WriterAlone | src/vectorforge/hnsw.py:79-109 | in every interleaving a writer is alone |
| RWLock.ReaderGate | src/vectorforge/hnsw.py:79-85 | a reader is let in, and counted, exactly when no writer is inside or waiting; otherwise it sleeps |
| RWLock.ReaderSleepsOnlyForWriter | src/vectorforge/hnsw.py:81-84 | nothing but a writer inside or waiting sends a reader to sleep |
| RWLock.AllCanRead | src/vectorforge/hnsw.py:53-56 | for any set of threads some run brings all of them into their read sections at once |
| RWLock.WriterGate | src/vectorforge/hnsw.py:94-103 | a writer is let in exactly when no one is inside |
| RWLock.ArrivalIsFree | src/vectorforge/hnsw.py:79-103 | an idle thread can arrive as a reader or as a writer at any time, and a writer that has to wait is counted as waiting |
| RWLock.LeavingWakes | src/vectorforge/hnsw.py:86-109 | the last one out wakes every sleeper; a reader that leaves others reading wakes no one |
| RWLock.NoReaderOvertakes | src/vectorforge/hnsw.py:81-85 | while a writer waits, no step lets a reader in |
| RWLock.RankFalls | src/vectorforge/hnsw.py:94-105 | with a writer waiting and none inside, every step of any thread admits a writer or lowers a rank |
| RWLock.WriterWaitsBoundedly | src/vectorforge/hnsw.py:66-69 | so a stretch of any run with a writer kept out is no longer than its initial rank, under any scheduling |
| RWLock.SomeoneCanStep | src/vectorforge/hnsw.py:79-109 | while anyone sleeps, someone inside or awake can step: no deadlock |
| RWLock.AwakeWriterEnters | src/vectorforge/hnsw.py:96-103 | when the lock is free the next step of any awake waiting writer takes it |
| Isolation.Serialisable | src/vectorforge/hnsw.py:79-109 | in every interleaving of any program's read and write sections under the lock, every finished section ran to its end as it would alone, in the order the sections left |
| Isolation.ReaderSeesOneValue | src/vectorforge/hnsw.py:350-352 | everything a read section in progress has seen is one value of the data |
| Concurrent.ConcurrentIsSequential | src/vectorforge/hnsw.py:243-392 | if write sections alone do what their operations may do and read sections alone answer what they may, then in every interleaving the writes are a history of the index in the order they left and every search answers what it may at its place in it |
| Concurrent.ConcurrentSearchSound | src/vectorforge/hnsw.py:341-373 | a search among concurrent writes returns at most `k` distinct ids, nearest first, with true distances, each live and matching at its place in the history |
| Concurrent.ConcurrentNeverReturned | src/vectorforge/hnsw.py:387-392 | once the delete of a stored id has left its section, no search that leaves later returns the id |
| Sections.SearchesServe | src/vectorforge/hnsw.py:350-373 | the search section, one heap step at a time, alone on a sound index answers what `Searched` allows |
| WriteSections.WritesServe | src/vectorforge/hnsw.py:243-392 | the write section, one heap step, one half of an edge or one trimmed set at a time, alone on a sound index does what `Added` or `Deleted` allows, or refuses |
| WriteSections.IndexIsSequential | src/vectorforge/hnsw.py:243-392 | so every interleaving of these steps of any number of searches, inserts and deletes under the lock is a sequential history of the index |
| Moving.WalkGoesOn | src/vectorforge/hnsw.py:499-523 | at every moment of a walk either the loop stops or it has a next step |
| Moving.InsideMoves | src/vectorforge/hnsw.py:243-392 | in every interleaving, a thread inside a section can take its next step or leave |
| Moving.NeverDeadlocked | src/vectorforge/hnsw.py:79-109 | while any thread of the locked index is inside or waiting, one such thread can take a step |
| HashRing.ConsistentHashRing.constructor | src/vectorforge/hashing.py:48-59 | the ring of the given nodes added one by one |
| HashRing.ConsistentHashRing.AddNode | src/vectorforge/hashing.py:83-93 | the in-place loop is the ring value's `AddNode`, collisions included |
| HashRing.ConsistentHashRing.RemoveNode | src/vectorforge/hashing.py:95-108 | the in-place loop is the ring value's `RemoveNode`: one copy goes per owned point |
| HashRing.ConsistentHashRing.BisectRight | src/vectorforge/hashing.py:123 | the index after every entry not greater than the key |
| HashRing.ConsistentHashRing.GetNode | src/vectorforge/hashing.py:114-126 | the owner of the clockwise successor with wrap-around, or none on an empty ring |
| Ring.AddSound | src/vectorforge/hashing.py:83-93 | with distinct points, adding keeps list and map strictly ascending, in step and determined by the members |
| Ring.PointsByName | src/vectorforge/hashing.py:75-77 | a node's points are the hashes of its name, "#" and the decimal numerals of 0, 1, ... below the number of virtual nodes |
| Ring.DecimalReads | src/vectorforge/hashing.py:77 | those numerals are digits without a leading zero and read back as the number, most significant digit first |
| Ring.SuccessorIsNearest | src/vectorforge/hashing.py:114-126 | the point a lookup uses is the nearest going clockwise on a ring of 2^64 places, a point being all the way round from itself |
| Ring.RemoveSound | src/vectorforge/hashing.py:95-108 | so does removing |
| Ring.RingCanonical | src/vectorforge/hashing.py:54-56 | two such rings with the same members are equal |
| Ring.PlacedTotal | src/vectorforge/hashing.py:88-93 | adding keeps every listed point owned even when points collide |
| Ring.RemoveTotalIff | src/vectorforge/hashing.py:100-108 | removing keeps every listed point owned if and only if no point the node owns is listed twice |
| HashRing.LookupTotal | src/vectorforge/hashing.py:114-126 | a lookup on a non-empty sound ring names a member |
| HashRing.AddMovesOnlyToNewNode | tests/test_hashing.py:110-120 | a key keeps its owner when a node joins, or goes to that node |
| HashRing.RemoveMovesOnlyItsKeys | tests/test_hashing.py:123-135 | when a node leaves, exactly its keys move, to survivors |
| HashRing.OnlyItsKeysMove | src/vectorforge/hashing.py:114-126 | both directions of minimal movement from one comparison of rings |
| HashRing.RemoveUndoesAdd | src/vectorforge/hashing.py:83-108 | removing a node just added restores the ring exactly |
| HashRing.HistorySound | src/vectorforge/hashing.py:83-108 | any history of joins and leaves gives the ring of its final members |
| HashRing.HistoryIrrelevant | src/vectorforge/hashing.py:83-108 | so histories with the same members end in the same ring |
| HashRing.DocumentedOwnerIff | src/vectorforge/hashing.py:117-126 | with every listed point owned, the coded lookup and the documented one give the same owner if and only if the key is off every point, or its point and the next around the ring have one owner |
| HashRing.OwnPointKey | src/vectorforge/hashing.py:117-118 | the name of a node's first virtual node is a key on one of its own points, which the documentation gives to the node |
| HashRing.DocumentedOwnerDiffers | src/vectorforge/hashing.py:123 | a ring of two nodes on which the code sends such a key to the other node |
| HashRing.LookupFailsIff | src/vectorforge/hashing.py:126 | some lookup fails if and only if some listed point has no owner |
| HashRing.CollisionBreaksLookup | src/vectorforge/hashing.py:90-91 | two nodes on one point, the later one leaves: the other is a member that no lookup finds |
| Merge.MergeLosesNothing | src/vectorforge/coordinator.py:210-217 | with distinct distances the true top `k` in the merged list are exactly those some shard returned |
| Merge.MergeExact | src/vectorforge/coordinator.py:214-217 | exact answers over disjoint parts merge into an exact answer over the whole |
| Cluster.NewRingRoutes | src/vectorforge/coordinator.py:162-163 | with one shard or more every id has an existing owner, even if points collide |
| Cluster.StepStores | src/vectorforge/coordinator.py:173-188 | one routed operation changes the stored contents as a single index's would change |
| Cluster.ClusterRunStores | src/vectorforge/coordinator.py:173-188 | after any history the shards together store what one index given the same operations would |
| Cluster.StoredOnlyAtHome | src/vectorforge/coordinator.py:177-180 | an id is stored on exactly the shard the ring names |
| Cluster.ShardedEqualsSingle | src/vectorforge/coordinator.py:173-217 | after any history, exact shards make the merged answer exact for everything stored that satisfies the filter |
| Cluster.ShardsDecideRecall | src/vectorforge/coordinator.py:205-217 | with approximate shards and any filter the merged answer repeats no id and loses no true neighbour a shard returned |
| Cluster.CountsAddUp | src/vectorforge/coordinator.py:173-188 | shard live counts add up to the number of live ids |
| Coordinator.Coordinator.constructor | src/vectorforge/coordinator.py:156-167 | the ring holds the shard names |
| Coordinator.Coordinator.Route | src/vectorforge/coordinator.py:223-226 | the owner is an existing shard, or there are none |
| Coordinator.Coordinator.Index | src/vectorforge/coordinator.py:173-181 | one cluster step; reports the owner, the shard's refusal, or that there are no shards |
| Coordinator.Coordinator.Delete | src/vectorforge/coordinator.py:183-188 | one cluster step; true exactly when the owner knew the id |
| Coordinator.Coordinator.Search | src/vectorforge/coordinator.py:194-217 | nothing without shards, a shard's refusal, else the merge of one answer from every shard, asked in any order |
| Sharded.ShardedSearchSound | src/vectorforge/coordinator.py:194-217 | after any history, shards however large and approximate, a search returns at most `k` distinct ids, nearest first, with true distances, each stored, not deleted and satisfying the filter |
| Sharded.SearchRefusedIff | src/vectorforge/coordinator.py:194-217 | and is refused exactly for `k` below 1, else for a query of the wrong dimension |
| Sharded.InsertRefusedIff | src/vectorforge/coordinator.py:173-181 | after any history an insert is refused exactly when one index with that history would refuse it, for the same reason; otherwise the owner is reported |
| Sharded.DeleteKnowsIff | src/vectorforge/coordinator.py:183-188 | and a delete reports true exactly for an id the history has used |
| SmallCluster.SmallClusterExact | src/vectorforge/coordinator.py:10-17 | a coordinator over shards that have not outgrown 2M+1 vectors answers a wide enough search as one exhaustive scan of everything stored, after any history without deletes |
| Bytes.FromLeLe | src/vectorforge/persistence.py:73-76 | a little-endian field that fits its width reads back |
| Bytes.FromLeAllLeAll | src/vectorforge/persistence.py:140-142 | so does a block of equal-width items |
| Bytes.LeOfFour | src/vectorforge/persistence.py:73-76 | the least significant byte comes first |
| FileBytes.HeaderLayout | src/vectorforge/persistence.py:9-22 | a saved file begins with the magic bytes, version, dimension, M, ef_construction, top layer, the two counts and the entry point as little-endian numbers at bytes 0, 8, 10, 14, 18, 22, 26, 34 and 42 |
| FileBytes.TailLayout | src/vectorforge/persistence.py:34-38 | after the records come the tombstone count and one 8-byte number for each tombstone, and nothing else |
| FileBytes.SavesVersionTwo | src/vectorforge/persistence.py:71 | what `save` writes says version 2 |
| FileBytes.FieldsLayout | src/vectorforge/persistence.py:121-127 | a record begins with id, level, id length, id and the vector's bit patterns at their places |
| FileBytes.LayerLayout | src/vectorforge/persistence.py:138-142 | a layer is a 4-byte count and one 8-byte number for each neighbour |
| FileBytes.RecordLayout | src/vectorforge/persistence.py:40-45 | in version 1 the layers follow the vector at once; in version 2 a length and a blob come between |
| FileBytes.RecordOneLoads | src/vectorforge/persistence.py:193-213 | a version-1 record, which has no metadata field, loads as the node without metadata |
| FileBytes.RecordTwoLoads | src/vectorforge/persistence.py:193-213 | a version-2 record loads with what its blob encodes, without metadata if there is no blob, and is refused if the blob does not decode |
| FileBytes.LoadRefuses | src/vectorforge/persistence.py:170-185 | which inputs `load` refuses by their first 50 bytes, and with which error |
| FileBytes.LoadHeaderLayout | src/vectorforge/persistence.py:172-187 | whatever loads has the parameters, top layer and entry point its first 50 bytes state |
| FileBytes.FitsInNumbers | src/vectorforge/persistence.py:73-76 | which indexes can be written, in numbers |
| Saved.RecBack | src/vectorforge/persistence.py:188-213 | one node record reads back, whatever follows it, in both versions and any set order |
| Saved.BodyBack | src/vectorforge/persistence.py:169-225 | a whole file up to the tombstone ids reads back, and is refused exactly when its two counts differ |
| Saved.RoundTrip | src/vectorforge/persistence.py:101-230 | loading what was saved recovers every node, layer, edge, id, tombstone and counter; empty metadata becomes none, and under version 1 all of it does |
| FileBytes.NodeComesBack | src/vectorforge/persistence.py:188-217 | each node of a loaded file has its name, vector, level and neighbours back, and under version 2 its metadata unless that was empty |
| Saved.CountsMustAgree | src/vectorforge/persistence.py:220-225 | a header and footer that disagree are always refused, whatever follows |
| Damage.MoreBody | src/vectorforge/persistence.py:169-225 | once a body has parsed, more input does not change how it parsed |
| Damage.TruncatedLoadsIff | src/vectorforge/persistence.py:226-230 | a file cut short loads if and only if the cut falls between two tombstone ids (or at either end of their list), and then the ids cut off are live again |
| Echo.EchoStep | src/vectorforge/hnsw.py:253-305 | metadata plays no part in how the graph grows: an operation on an index is the same operation on a copy with other records |
| Reload.RestoredInv | src/vectorforge/persistence.py:183-230 | what loads satisfies the graph invariant; under version 1 it has no metadata |
| Reload.SearchEchoes | src/vectorforge/hnsw.py:463 | an index and its copy may answer exactly the same lists, ties and all, when filters cannot tell their records apart |
| Reload.SameFutures | src/vectorforge/persistence.py:152-159 | every future of the loaded index is the image of a future of the original, and conversely |
| Reload.SearchesAlikeForever | src/vectorforge/persistence.py:152-159 | and after any such future the two still answer the same searches alike |
| Reload.ReloadAnswersTheSame | tests/test_persistence.py:53-63 | with distinct distances the loaded index answers every search with the very list the original gave |
| Persistence.SaveNode | src/vectorforge/persistence.py:124-142 | writes a record showing the node, or fails exactly when a field of it is too wide |
| Persistence.SaveLayers | src/vectorforge/persistence.py:138-142 | writes each layer's neighbours once in some order, or fails exactly when a count or an id is too wide |
| Persistence.Save | src/vectorforge/persistence.py:82-147 | succeeds if and only if every field fits its width, and then the bytes show the index, for any enumeration order |
| Persistence.LoadEdges | src/vectorforge/persistence.py:208-213 | the in-place loop gives the node the sets the format assigns, or the same error |
| Persistence.LoadNode | src/vectorforge/persistence.py:189-213 | builds the node the format assigns to the bytes, or fails with the same error |
| Persistence.LoadNodes | src/vectorforge/persistence.py:188-217 | files the nodes in the order they come, under their own ids, names and an id counter past them all |
| Persistence.Load | src/vectorforge/persistence.py:152-230 | builds the index the format assigns to the bytes, or fails with the same error, for every byte sequence |
| Persistence.SaveAndLoad | tests/test_persistence.py:53-96 | saving and loading an index object gives a valid one that holds all of it up to empty metadata |

## Left out

- Float arithmetic: vectors are sequences of float32 bit patterns and the distance is an arbitrary function of two
  vectors into `real`, with no metric law assumed; rounding, NaN and NumPy are not modelled. The scan's
  `matrix - query` and the graph's `query - vector` are taken to give the same distance.
- The order among equally near entries of a result list, and which of them `min` takes, are left open; the array layout
  of a heap is too, but not its head.
- Library calls by contract: `heapq`, `sorted`, `argpartition` and `argsort` appear as a heap, a stable sort and a
  selection with those contracts; `bisect` is written out.
- The level drawn by `add` is an arbitrary number, so nothing is said about its distribution or about speed.
- BLAKE2b is an arbitrary hash function; the ring theorems say where distinct points are needed. UTF-8 and JSON are a
  pair of encodings assumed to be undone by their decodings.
- Filters are arbitrary total functions of the record; `compile_equality_filter` is not modelled, nor a filter that raises.
- Constructor errors (`dim`, `M`, `ef_construction`, `virtual_nodes`) are preconditions of the constructors; the loader,
  which meets them in a file, reports them.
- Persistence.Load: an entry-point field that is negative but not -1, which `save` never writes, is kept as the unsigned
  number with the same bytes (`Format.EntryOf`), where the program keeps the negative one; a stored blob that is JSON but
  not an object is refused as undecodable, where the program keeps it.
- The file as one byte sequence: no temporary file, rename or I/O error. `save` takes no lock, so no writer runs beside it.
- WriteSections.IndexIsSequential: a step of a section is a pop or a visit of a walk, one side of an edge, one trimmed set,
  or a group of assignments to counters and maps; sorting and ranking inside a section are one step. `get_metadata` and
  `live_items` are not among the sections; `__len__` and `max_layer` read without the lock.
- RWLock.WriterWaitsBoundedly: bounds the wait for some writer; neither the code nor the model is fair between writers, or to
  readers under a stream of writers. Exceptions raised inside `Condition.wait` are not modelled.
- The coordinator's thread pool and `GrpcShardClient`: the fan-out collects one answer per shard, in any order, from local
  shards.
- Global reachability beyond 2M+1 vectors: pruning is one-sided, so a node can lose all its in-edges, and nothing is claimed.
- The HTTP and gRPC services, authentication, metrics, data sets, query sampling and command lines: plumbing.
