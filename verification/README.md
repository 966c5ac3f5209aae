# Verified models of the Casper server's DAG, pin, block-store and publishing logic

Casper-server is a fork of go-ipfs. This project models the parts of it whose correctness is not visible from any one
function body, and proves what they are for:

- **DAG walks** (`merkledag/merkledag.go`): the concurrent walk of one coordinator and its workers as a step relation,
  with fetch errors and cancellation, and the sequential walk as a method on a finite graph that may have cycles.
- **Batched fetching** (`merkledag/merkledag.go`): promises, duplicate keys, and when a promise is sent to twice.
- **The stored pin set** (`pin/set.go`): the hash tree, exactly when storing it ends, and that loading undoes storing.
- **The pinner** (`pin/pin.go`): pinning, the two searches for indirect pins, and saving and restoring all three sets.
- **Ranged reads and checksums** (`casper/validation`, `unixfs/format.go`): reading a range equals slicing the bytes
  that were laid out, layouts do not show in checksums, and the chunks that can be drawn tile the file.
- **Caches over the block store** (`blocks/blockstore`): the bloom filter with its concurrent rebuild, and ARC with an
  arbitrary replacement policy, compared with the bare store.
- **Stateful readers and buffers** (`tar/format.go`, `merkledag/batch.go`, `merkledag/node.go`, `merkledag/coding.go`).
- **Convergence** (`namesys/publisher.go`, `mfs/system.go`): choosing among IPNS records, and the republisher.

## How the model is set up

Code that updates state in place is a class or a method with a loop, proved against a specification function or
predicate. Protocols between goroutines are step relations, and their theorems are about every interleaving. Two things
are idealised throughout: hashing (a CID determines the content it was made from) and the byte layout of protobuf
messages (a codec that can decode what it encoded). `Cids.Cid` is such an ideal address: the CID of a protobuf node is
the node itself, and `Opaque` stands for all others, among them blocks named by the hash of a UUID. `ProtoNodes` does
not rely on this: there hashing to a CID and encoding are arbitrary functions, and the two idealisations are hypotheses
of just those lemmas that need them.

`Basics`, `Graphs`, `Cids` and `Sorting` are shared by the other modules. `Sorting.StableSort` describes the result of
Go's `sort.Stable`, which is the same for every stable algorithm.

## What turned out to be false, and the exact condition that replaces it

- **`CheckIfPinned` reports each key once.** A key pinned by itself is reported as often as it is requested
  (`PinQueries.DirectKeyReportedTwice`). All keys are reported once if and only if none that is pinned by itself was
  requested twice (`PinQueries.ReportedOnceExactlyIf`).
- **`GetSlice` answers an empty range with an empty slice.** Where a non-empty block starts at that offset, the child is
  asked for a range that ends in 0, which means its whole length, and all of it is returned
  (`Validation.EmptyRangeOnBoundary`). `Validation.EmptyRangeExactly` says at which offsets.
- **Storing a pin set always ends.** It does if and only if at some depth no `maxItems` keys share every bucket choice
  (`PinSetTermination.EndsExactly`); a key listed `maxItems` times never gets there (`RepeatedKeyNeverEnds`), nor do as
  many distinct keys, as Flush would pass them, under a hash that tells none apart (`DistinctKeysMayNeverEnd`).
- **The cached CID of a node is never stale.** Asking for the default prefix with `SetPrefix(nil)` and replacing the
  links with `SetLinks` leave the caches alone, although the documentation of `SetPrefix` does not say so. The contracts
  of `ProtoNodes.ProtoNode.SetPrefix` and `SetLinks` state exactly when the node is right afterwards, and
  `StaleAfterDefaultPrefix` and `StaleAfterSetLinks` are runs in which it is not.
- **A copy has the CID of the original.** A UUID that is empty without being nil is not copied
  (`ProtoNodes.CopyKeepsCid`, an equivalence).
- **The best IPNS record does not depend on the order of arrival.** With a validity that cannot be parsed it can
  (`Records.OrderMatters`); it does not if and only if the records of the highest sequence number all have a readable
  validity or are all the same bytes (`Records.OrderMattersExactlyUnless`).
- **`WaitPub` returns once the root is published.** A caller that finds its root unpublished just before `Run` publishes
  it waits until the next `Update` (`Republisher.WaitPubCanHang`). Without another `Update` a call is sure to return if
  and only if it found its root published or `Run` has accepted it (`WaitPubReturnsExactlyIf`): from every state in
  which it still asks, a run comes to rest past it (`MayBePassedOver`). A failed publish is not retried either
  (`FailureIsNotRetried`).
- **The republisher publishes every root it is given.** The root that `NewRoot` sets before `Run` starts comes without a
  signal: until the first `Update` it is not published and every `WaitPub` waits (`InitialRootWaits`). At rest after a
  successful publish the latest root is published if and only if there was an `Update` or no root to begin with
  (`NoLostUpdate`).
- **Absent according to the bloom filter means absent from the store.** Not after a `Put` that fails and leaves its
  block behind (`BloomCache.FailedPutHidesBlock`). Of the stored blocks that no `Put` is about to add, the filter in use
  misses exactly those a failed `Put` has written and nothing has added or deleted since (`MissedExactly`, and in terms of the steps of a run `OrphanedExactly`).
- **The ARC cache is invalidated before a deletion.** The entry is stored under the key string and removed by the CID,
  so nothing is removed (`ArcCache.DeletedButRemembered`). `ArcCache.PresenceCache.DeleteBlock` states that the cache
  is wrong afterwards if and only if the deletion took effect and yet reported an error, the key was remembered as
  present, and the entry was not forgotten in between.
- **A failed recursive `Pin` changes nothing.** It has already dropped the direct pin of the key
  (`Pinner.FailedPinUnpins`); it changes nothing if and only if there was none (`Pinner.PinnerState.Pin`).

## Model

| member | source | states |
|---|---|---|
| Graphs.ClosedHoldsReached | merkledag/merkledag.go:407-422 | a set that holds the links of a node and of its own members outside `avoid` holds everything reached from the node while avoiding `avoid`; used by every search below |
| Walk.EnumerateChildren | merkledag/merkledag.go:407-422 | from any visited set and on any finite graph, adds exactly the nodes reached by one or more links through unvisited nodes; fails exactly if a node it has to fetch is missing |
| Walk.ExploredFromCover | merkledag/merkledag.go:407-422 | a visited set closed under links and holding only reached nodes is the exact one |
| AsyncWalk.EnqueueKeepsOrder | merkledag/merkledag.go:511-519 | received links go to `next` and the todo buffer in order, none lost |
| AsyncWalk.StepQueue | merkledag/merkledag.go:495-519 | a send takes the first key off the queue, received links join it at the end, every other step leaves it |
| AsyncWalk.RunInv | merkledag/merkledag.go:449-528 | in every interleaving, fetch errors and cancellation included: only the root and nodes below it are handled, each is expanded at most once, no link of an expanded node is forgotten |
| AsyncWalk.AsyncWalkIsExact | merkledag/merkledag.go:506-510 | a nil return, in any interleaving, means that exactly the root and everything below it was visited and could be fetched, with one send on feed more than there are links |
| AsyncWalk.AsyncAgreesWithSequential | merkledag/merkledag.go:407-528 | the concurrent walk visits the root plus what the sequential walk visits |
| AsyncWalk.InProgressCountsBusyWorkers | merkledag/merkledag.go:497-510 | while the context is live `inProgress` is the number of busy workers, at most their number; sends on feed never exceed one plus the links below the root |
| AsyncWalk.SomeStepEnabled | merkledag/merkledag.go:495-526 | no deadlock: some step is possible until the coordinator returns, a healthy one if nothing is missing or cancelled |
| AsyncWalk.MeasureFalls | merkledag/merkledag.go:449-528 | every step, of coordinator or worker, brings the end closer |
| AsyncWalk.RunsAreBounded | merkledag/merkledag.go:449-528 | every interleaving is finite, with an explicit bound by links and workers |
| AsyncWalk.UndisturbedRunsSucceed | merkledag/merkledag.go:449-528 | a run without cancellation or fetch error that cannot go on has returned nil with the exact set |
| Promises.NodePromise.Fail | merkledag/merkledag.go:353-364 | a promise with a value does not fail |
| Promises.FindLinks | merkledag/merkledag.go:199-209 | exactly the indexes at or after `start` that hold the key, in order |
| Promises.DedupeKeys | merkledag/merkledag.go:315-325 | the same keys, each once, and in the order in which they first occur |
| Promises.Deliver | merkledag/merkledag.go:301-306 | a received node goes to each promise of its key, and the counter stays the number of answered promises |
| Promises.GetNodes | merkledag/merkledag.go:265-313 | whatever GetMany delivers for the deduplicated keys: each promise whose key came before the first error gets one node, of its own key, the others fail; the panic happens exactly if a node comes twice while keys are open; the loop ends |
| Promises.EveryKeyArrivesOnce | merkledag/merkledag.go:277-282 | if one node arrives for each deduplicated key, in any order, none arrives twice and every key of the list is answered |
| Promises.GetAllNodes | merkledag/merkledag.go:265-313 | then every promise is sent to exactly once, with a node of its own key, duplicate keys included, and none fails |
| Promises.DistinctDeliveriesNeverPanic | merkledag/merkledag.go:284-306 | if the nodes delivered are distinct the panic is unreachable |
| Promises.Complete | merkledag/merkledag.go:284 | once all keys are answered the rest of the stream matters no more |
| PinSets.SetNodeIsCanonical | merkledag/coding.go:58-78 | the stable sort by name leaves the nameless links of a set node in place |
| PinSets.Distribute | pin/set.go:100-121 | every bucket holds exactly the keys hashed to it, in order |
| PinSets.TakeInline | pin/set.go:78-91 | takes up to `maxItems` keys if the estimate is below that, and none otherwise |
| PinSets.StoreItems | pin/set.go:57-156 | the node built is that of the tree as a value; exactly the nodes below it are added and reported, with the empty key |
| PinSets.StoreBuckets | pin/set.go:123-154 | each bucket in use overwrites its entry of the fan-out table, the other entries stay |
| PinSets.StoreSet | pin/set.go:283-296 | the same with the root added and reported |
| PinSetLoading.WalkItems | pin/set.go:205-238 | finds what the recursive description finds, or fails with the same error |
| PinSetLoading.BucketsPartition | pin/set.go:119-120 | the buckets together hold every key as often as it is listed |
| PinSetLoading.BuiltHoldsItems | pin/set.go:57-156 | the stored tree holds the same keys the same number of times |
| PinSetLoading.WalkFindsTree | pin/set.go:205-238 | a walk of a stored tree whose nodes are present succeeds and finds exactly its keys |
| PinSetLoading.WalkKeysAreStoredKeys | pin/set.go:147-152 | a walk comes across exactly the keys of the nodes stored below the root, and the empty key |
| PinSetLoading.StoredSetLoads | pin/set.go:57-238 | round trip: for any list, estimate and hash for which storing ends, loading yields the same multiset, and the same internal keys |
| PinSetTermination.EndsExactly | pin/set.go:78-132 | storing ends within a number of levels if and only if after as many levels no `maxItems` keys share every bucket choice |
| PinSetTermination.HashedEndsExactly | pin/set.go:78-132 | the same for any estimate: what counts are the keys left for the buckets |
| PinSetTermination.RepeatedKeyNeverEnds | pin/set.go:78-132 | a key listed `maxItems` times makes the recursion endless |
| PinSetTermination.InseparableNeverSpread | pin/set.go:78-132 | neither does a set of `maxItems` keys that the hash never separates get spread at any depth |
| PinSetTermination.DistinctKeysMayNeverEnd | pin/set.go:283-288 | `maxItems` distinct keys under a constant hash: storing them never ends |
| PinSetTermination.SpreadSetEnds | pin/set.go:283-288 | for a set of keys the condition does not depend on their order |
| PinQueries.HasChild | pin/pin.go:548-572 | a yes is true; a no leaves the visited set closed under links and without the key; an error means a missing node |
| PinQueries.IsPinnedWithType | pin/pin.go:256-297 | every answer is correct for its mode on any finite graph: an indirect pin is reported exactly if some recursive root reaches the key, and the root named does, although one visited set is shared by all roots |
| PinQueries.AnswerIsDecided | pin/pin.go:256-297 | with nothing missing the answer for Any is determined by the pins and reachability |
| PinQueries.CheckChildren | pin/pin.go:318-344 | reports the open keys it meets under the right root; keys left open are not below the parent |
| PinQueries.CheckIfPinned | pin/pin.go:299-362 | on an acyclic graph the report is truthful and complete for all requested keys, despite its early exits |
| PinQueries.ReportAgreesWithQuery | pin/pin.go:256-362 | report and single query put each key in the same class, and Via is a recursive root that reaches it |
| PinQueries.ReportedOnceExactlyIf | pin/pin.go:305-316 | all requested keys and no others are reported; each once if and only if no key pinned by itself was requested twice |
| PinQueries.DirectKeyReportedTwice | pin/pin.go:306-310 | a directly pinned key requested twice is reported twice |
| Pinner.LoadSet | pin/set.go:240-269 | finds the named set or fails as described, noting the keys it comes across |
| Pinner.PinnerState.Pin | pin/pin.go:171-205 | the exact new sets and error in every case; a key is never pinned both ways; a recursive pin succeeds exactly if the whole graph can be fetched, and one that fails changes nothing exactly if the key was not pinned directly |
| Pinner.FailedPinUnpins | pin/pin.go:182-190 | a directly pinned key above a missing node is not pinned at all after an attempt to pin it recursively |
| Pinner.PinnerState.Unpin | pin/pin.go:209-234 | removes exactly the pin named and only with the right flag; "not pinned" is true |
| Pinner.StoreState | pin/pin.go:484-519 | stores both sets and the pin root; the keys collected are all keys stored |
| Pinner.PinnerState.Flush | pin/pin.go:477-525 | the pins are unchanged and saved under the new pin root; the internal set is exactly the stored nodes, set roots, pin root and empty key |
| Pinner.FlushedLoads | pin/pin.go:386-445 | what was flushed loads as the same recursive, direct and internal sets as long as the internal set is present |
| Pinner.LoadPinner | pin/pin.go:386-445 | rebuilds the three sets, or fails as described |
| Pinner.FlushAndReload | pin/pin.go:386-525 | flushing and loading restores the pinner |
| UnixFS.FSNode.FromBytes | unixfs/format.go:143-156 | the file size is the recorded one, whatever wraps; the running sum is right exactly if the record was |
| UnixFS.FSNode.AddBlockSize | unixfs/format.go:158-162 | the file size grows by the block and stays the sum of data and blocks |
| UnixFS.FSNode.RemoveBlockSize | unixfs/format.go:164-167 | the block goes out of the list and out of the sum |
| UnixFS.EncodeDecode | unixfs/format.go:143-180 | encoding and decoding gives back all fields |
| Validation.GetSlice | casper/validation/validation.go:51-123 | for every well-formed DAG and every range the exact answer; for an allowed range the bytes of the flattened file; no unsigned subtraction wraps |
| Validation.SliceBlocks | casper/validation/validation.go:87-110 | the loop over block sizes collects exactly the range |
| Validation.EmptyRangeExactly | casper/validation/validation.go:87-99 | an empty range strictly inside the file yields nothing if and only if no non-empty block starts there |
| Validation.EmptyRangeOnBoundary | casper/validation/validation.go:87-99 | two one-byte blocks: the empty range between them yields the second block |
| Validation.RecordedSizesAreWellFormed | unixfs/format.go:158-180 | a node whose sizes were recorded child by child is well-formed |
| Layouts.Lay | importer/helpers/helpers.go:105-150 | bytes in raw leaves or data leaves, below inner nodes that record the sizes of their children, make a well-formed DAG whose content is these bytes |
| Layouts.ReadBack | casper/validation/validation.go:51-123 | whatever the layout, wrapped in a directory or not: a ranged read hands back the range of the bytes that were laid out, to the end if the end is 0, and refuses exactly the ranges that are reversed or too long |
| Layouts.ReadLeaf | casper/validation/validation.go:79-86 | a leaf that carries data answers with its own bytes |
| Layouts.ChecksumBack | casper/validation/validation.go:128-141 | the checksum is the hash of the range of the bytes laid out, followed by the salt |
| Validation.ChecksumSalt | casper/validation/validation.go:128-141 | the checksum is that of content range and salt; negative bounds are refused |
| Validation.CompareProviders | casper/validation/validation.go:30-33 | different layouts of the same content agree; with a collision-free hash other content does not |
| Validation.ChunksAreAllowed | casper/validation/server.go:256-267 | every chunk that can be drawn is an allowed range, starts at its index times the block size and is one block long, the last one up to the end; no product overflows for sizes as far below 2^63 as a block |
| Validation.ChunksTileTheFile | casper/validation/server.go:262-267 | the chunks in order of their index are the file, without gap or overlap |
| BloomCache.RunInv | blocks/blockstore/bloom_cache.go:74-167 | in every interleaving each stored key is in the filter, owed by the rebuild, with a Put about to add it, or left behind by a failed Put |
| BloomCache.SettledNeverReportedAbsent | blocks/blockstore/bloom_cache.go:74-167 | no block whose Put has returned and that was not deleted is ever reported absent |
| BloomCache.PutBlocksAreReported | blocks/blockstore/bloom_cache.go:74-167 | in terms of the steps alone: a block of a Put that began and returned, and that was stored then, is not reported absent before it is deleted |
| BloomCache.FirstBlocksAreReported | blocks/blockstore/bloom_cache.go:74-98 | nor is a block that was in the store before the rebuild, until it is deleted |
| BloomCache.StoreExactly | blocks/blockstore/bloom_cache.go:101-167 | a block is stored exactly if the last step that wrote or deleted it wrote it |
| BloomCache.OrphanedExactly | blocks/blockstore/bloom_cache.go:145-167 | a block counts as left behind if and only if a Put failed after writing it and it has been stored and missing from the filter ever since |
| BloomCache.OrphanHasFailedPut | blocks/blockstore/bloom_cache.go:145-167 | behind it there is a Put that named it, wrote it and failed |
| BloomCache.MissedExactly | blocks/blockstore/bloom_cache.go:74-167 | once active, and with no Put about to add the key: it is stored and missing from the filter if and only if a failed Put has left it behind |
| BloomCache.AbsentAnswersAreTrue | blocks/blockstore/bloom_cache.go:111-143 | an "absent" for a key that no Put is about to add is false if and only if an earlier step was a Put failing after it had written the block, with nothing adding or deleting it since |
| BloomCache.FailedPutHidesBlock | blocks/blockstore/bloom_cache.go:145-167 | a run in which a failed Put leaves a block that is reported absent |
| ArcCache.BlockStore.PutMany | blocks/blockstore/blockstore.go:163-181 | stored blocks stay as they are; of every other key the last block of the batch is stored |
| ArcCache.PresenceCache.HasCached | blocks/blockstore/arc_cache.go:53-70 | answers from an entry that may be gone at any time |
| ArcCache.PresenceCache.Has | blocks/blockstore/arc_cache.go:72-82 | tells the truth about the store, keeps every entry true and, where nothing is forgotten, remembers the answer |
| ArcCache.PresenceCache.Get | blocks/blockstore/arc_cache.go:84-101 | returns what the store holds and remembers whether it did |
| ArcCache.PresenceCache.Put | blocks/blockstore/arc_cache.go:103-113 | the block is there afterwards; a present one is overwritten or left alone |
| ArcCache.PresenceCache.PutMany | blocks/blockstore/arc_cache.go:115-132 | has exactly the effect of PutMany on the store, whatever was filtered out, and remembers all the keys as present |
| ArcCache.PresenceCache.DeleteBlock | blocks/blockstore/arc_cache.go:37-51 | deletes as the store does; afterwards an entry is wrong if and only if the deletion took effect and reported an error, the key was remembered as present and has not been forgotten |
| ArcCache.DeletedButRemembered | blocks/blockstore/arc_cache.go:42-50 | a run after which the cache reports a deleted block as present |
| ArcCache.RunBoth | blocks/blockstore/arc_cache.go:37-140 | any run, with any forgetting: same keys and same answers about presence as the bare store; the same contents and answers altogether if equal keys come with equal data |
| ArcCache.ContentsMayDiffer | blocks/blockstore/arc_cache.go:103-106 | without that condition contents can differ |
| TarReader.Padding | tar/format.go:139 | the least padding to a multiple of 512 |
| TarReader.Reader.Read | tar/format.go:113-195 | for any buffer: hands over the next bytes of the recursive description, or ends exactly when none are left, or fails only if something is unreadable, be it in the middle of a file; each call hands over bytes or uses up one of finitely many pauses |
| TarReader.Reader.OpenNext | tar/format.go:158-194 | taking the next link changes nothing about the bytes to come |
| TarReader.ExportTar | tar/format.go:197-206 | refuses any root other than that of a tarchive |
| TarReader.ReadAll | tar/format.go:113-206 | for every sequence of buffer sizes the output is the recursive description, it is had exactly if everything can be read, and a bounded number of reads suffices |
| TarReader.OneFileArchive | tar/format.go:113-152 | an archive of one file is the header, the data, and nothing but zeros up to the next multiple of 512 |
| TarReader.DirectoryArchive | tar/format.go:124-192 | a member without a file is its header, the members below it, and then what follows |
| TarReader.ReadOneFile | tar/format.go:113-206 | reading the archive of one file yields these bytes for all buffer sizes |
| TarReader.ArchiveTakesWholeBlocks | tar/format.go:147-152 | if headers take whole blocks and no file breaks off, so does the archive |
| Batches.Batch.Finish | merkledag/batch.go:59-62 | a goroutine that sends its result finds room in the channel |
| Batches.Batch.Receive | merkledag/batch.go:50-58 | a receive cannot block forever |
| Batches.Batch.ProcessResults | merkledag/batch.go:31-43 | a commit that has failed by now is noticed |
| Batches.Batch.AsyncCommit | merkledag/batch.go:45-69 | hands over the whole buffer, or nothing once an error is recorded |
| Batches.Batch.Add | merkledag/batch.go:71-85 | the node is buffered, or handed over with the buffer exactly when a limit is exceeded; after a failure it is refused and nothing is handed over |
| Batches.Batch.Commit | merkledag/batch.go:87-99 | returns nil if and only if every accepted node was handed over exactly once and every call succeeded; an error is one that a call returned |
| Batches.AddAll | merkledag/batch.go:71-99 | whole runs: on success the batches in order are the nodes added, otherwise an initial stretch; each batch exceeds the limits by at most its last node |
| ProtoNodes.AppendingCommutes | merkledag/coding.go:64 | sorting in place is not noticed by appending a link later |
| ProtoNodes.RemovingCommutes | merkledag/coding.go:64 | nor by removing a name later |
| ProtoNodes.NamesakesKeepTheirOrder | merkledag/coding.go:40 | links of one name keep the order in which they were added |
| Sorting.StringLessExactly | merkledag/node.go:89 | names are compared at the first place where they differ; a name that ends there comes first |
| ProtoNodes.SortedInPlainTerms | merkledag/coding.go:40 | links are laid out as a permutation, in that order of their names, those of one name as they were added |
| ProtoNodes.PlainTerms | merkledag/node.go:219-226 | a UUID that is absent or sixteen zeros does not count: the raw data is then sixteen zeros and the encoding, the CID that of the encoding; any other UUID stands in front and is what is hashed; an unset prefix means version 0, protobuf, SHA2-256 |
| ProtoNodes.ProtoNode.AddRawLink | merkledag/node.go:124-134 | adds a copy of the link and drops the encoding |
| ProtoNodes.ProtoNode.RemoveNodeLink | merkledag/node.go:136-156 | removes all links of the name and keeps the order of the rest; an error exactly if there were none |
| ProtoNodes.ProtoNode.GetNodeLink | merkledag/node.go:158-170 | the link of the name added first, whether or not the links have been sorted |
| ProtoNodes.ProtoNode.SetData | merkledag/node.go:240-244 | replaces the data and drops both caches |
| ProtoNodes.ProtoNode.SetUUID | merkledag/node.go:246-249 | replaces the UUID; the encoding it keeps is still right |
| ProtoNodes.ProtoNode.SetPrefix | merkledag/node.go:72-83 | a given prefix drops the caches; with nil the node is right afterwards exactly if not both caches were filled or the cached CID is that of the default prefix |
| ProtoNodes.ProtoNode.SetLinks | merkledag/node.go:385-387 | right afterwards exactly if the node was not encoded or the links sort to what they were |
| ProtoNodes.ProtoNode.EncodeProtobuf | merkledag/coding.go:80-112 | sorts the links and fills both caches without changing the node; the encoding is the right one, forced or not |
| ProtoNodes.ProtoNode.RawData | merkledag/node.go:219-226 | the UUID, or zeros, followed by the encoding |
| ProtoNodes.ProtoNode.GetCid | merkledag/node.go:338-363 | the hash of the UUID if there is one, else of the encoding of the current links and data |
| ProtoNodes.ProtoNode.Size | merkledag/node.go:260-273 | the encoding and all sizes of links, modulo 2^64, in whatever order the links stand |
| ProtoNodes.ProtoNode.AddNodeLink | merkledag/node.go:95-109 | the link carries the true CID and size of the child, also when the child is the node itself |
| ProtoNodes.ProtoNode.Copy | merkledag/node.go:195-217 | the same node with empty caches, but an empty UUID is lost |
| ProtoNodes.ProtoNode.UpdateNodeLink | merkledag/node.go:251-258 | a copy with the links of the name replaced by one to the child; the original is untouched |
| ProtoNodes.CopyKeepsCid | merkledag/node.go:211-214 | a copy has another CID exactly if the UUID is empty but not nil and the encoding is not empty |
| ProtoNodes.DecodeProtobufBlock | merkledag/coding.go:126-147 | a node read from a block answers with the block's bytes and CID; its caches are right exactly if the block is in canonical form |
| ProtoNodes.BlockRoundTrip | merkledag/coding.go:24-147 | read back from its own block a node has its links in name order and the same data, bytes and CID |
| ProtoNodes.StoreAndLoad | merkledag/coding.go:24-147 | writing out and reading back, on the objects |
| ProtoNodes.QueriesLeaveNoTrace | merkledag/coding.go:80-112 | a run ends in the same node if all its queries are left out |
| ProtoNodes.RunOps | merkledag/node.go:95-363 | after any run of mutators, queries and copies, with SetLinks only on nodes not encoded, CID and raw data are those of the node as mutated, never cached ones of an earlier state |
| ProtoNodes.StaleAfterDefaultPrefix | merkledag/node.go:74-76 | a run after which the CID is that of the former prefix |
| ProtoNodes.StaleAfterSetLinks | merkledag/node.go:385-387 | a run after which the raw data lists the former links |
| Records.SelectRecord | namesys/publisher.go:258-295 | an error exactly if no value is usable; otherwise a value of the highest sequence number: the first of these if its validity cannot be read, else one whose validity can be read, than which none expires later and none of the same expiry has greater bytes |
| Records.IpnsSelectorFunc | namesys/publisher.go:243-256 | the same from the raw values |
| Records.WinnerIsTop | namesys/publisher.go:263-269 | the winner has the highest sequence number |
| Records.LessExactly | namesys/publisher.go:284 | bytes are compared at the first place where they differ; a sequence that ends there comes first |
| Records.WinnerIsSelected | namesys/publisher.go:262-289 | the value left by the loop is the one described, for all inputs |
| Records.TwoRecords | namesys/publisher.go:262-289 | of two records: the higher sequence number, then the later instant, then the greater bytes, and the first if an instant cannot be read |
| Records.WinnerIsMaximum | namesys/publisher.go:262-289 | a value that beats all others by sequence, expiry and bytes wins; in the decidable case the winner is that value |
| Records.OrderMattersExactlyUnless | namesys/publisher.go:262-289 | the same bytes win in every order of arrival if and only if the values of the highest sequence number have readable expiries or do not differ |
| Records.OrderMatters | namesys/publisher.go:271-279 | otherwise two orders with different winners |
| Records.StagesAgree | namesys/publisher.go:262-289 | selecting among the winners of any partition gives the overall winner |
| Republisher.RunInv | mfs/system.go:185-270 | in every interleaving of Update, WaitPub and Run, with or without an initial root: no root set by Update is forgotten, answers go to whom they are owed, what is published only moves forward |
| Republisher.HistoryIsRootsSet | mfs/system.go:185-189 | the current root is that of the last Update, and no Update is dropped from the history |
| Republisher.NoLostUpdate | mfs/system.go:210-270 | at rest, if the last attempt at publishing in the run did not fail, the latest root is the one published last if and only if there was an Update or no root to begin with |
| Republisher.NoLostUpdateWithoutFailure | mfs/system.go:210-270 | in particular in every run in which publishing never fails |
| Republisher.LastPubWasPublished | mfs/system.go:257-270 | the root counted as published last was handed to the publish function, with success |
| Republisher.AnsweredOnlyAfterPublishing | mfs/system.go:240-246 | between accepting a caller and its return the current root was read and publishing it was tried; the caller is told a root exactly if that succeeded |
| Republisher.FailureToldIsReal | mfs/system.go:243-246 | a caller is told of a failure only if publishing failed after Run had accepted it |
| Republisher.InitialRootWaits | mfs/system.go:71-78 | until the first Update the root set by NewRoot is not published and every WaitPub waits |
| Republisher.FailureIsNotRetried | mfs/system.go:243-249 | at rest nothing more is published until the next Update |
| Republisher.WaitPubWaits | mfs/system.go:191-202 | a WaitPub that returns without a failed publish does so after its root or a later one was published |
| Republisher.AcceptedComesCloser | mfs/system.go:240-246 | while an accepted caller waits Run can go on, each step of Run brings the answer closer, no other step changes that |
| Republisher.AcceptedIsServed | mfs/system.go:240-246 | an accepted caller has returned after at most four steps of Run, whatever happens in between |
| Republisher.RestIsReached | mfs/system.go:221-255 | without another Update only a bounded number of steps is possible besides new calls of WaitPub |
| Republisher.MayBePassedOver | mfs/system.go:228-246 | from every state in which a caller asks, a run without another Update comes to rest with it still asking |
| Republisher.SureExactlyIfNotAsking | mfs/system.go:191-202 | in any reachable state a caller is sure to return, without another Update, if and only if it is no longer asking |
| Republisher.FoundConsistentExactly | mfs/system.go:191-197 | a call finds its root published exactly if the root set last is the one published last when it is made |
| Republisher.SinceIsCall | mfs/system.go:191-202 | the root a caller waits for is the one that was current at its call |
| Republisher.WaitPubReturnsExactlyIf | mfs/system.go:191-202 | a call is sure to return, without another Update, if and only if it found its root published or Run has accepted it |
| Republisher.ServedExactlyIfStirring | mfs/system.go:199-201 | it may still be accepted without another Update if and only if Run is collecting signals or a signal is there or on its way |
| Republisher.WaitPubCanHang | mfs/system.go:191-202 | a run without any failure after which all is published and a caller still waits |

## Left out

- Hash functions, protobuf and uvarint layout, base58, bit arrays of the bloom filter, the replacement policy of ARC: abstract, as described above.
- Walk.EnumerateChildren: `Pin` fetches the graph with the concurrent walk; the model of `Pin` uses the sequential one, which succeeds on the same graphs and visits the same nodes.
- AsyncWalk.UndisturbedRunsSucceed: fairness is not modelled; that some step is possible and that runs are bounded is what makes every maximal undisturbed run succeed.
- Promises.GetNodes: a function from the keys asked to a stream of nodes and errors stands for GetMany; the context and the receiving side (`Get`) are not modelled, nor are the time-outs of sessions.
- PinSets.StoreItems: requires that storing ends, which `PinSetTermination` characterises exactly; errors of the DAG service and the 32-bit wrap of the depth counter are left out (the hash is arbitrary for every depth).
- Pinner.PinnerState.Flush: errors of the datastore are left out, so are locks, the five-second time-out of LoadPinner and pin roots that are not CIDs; nodes of the internal store carry no UUID.
- PinQueries.CheckIfPinned: requires an acyclic graph, since the walk keeps no visited set and need not end on a cycle.
- `PinWithMode`, `RemovePinWithMode` and `Update` of the pinner: the first two override by hand, the last rests on DiffEnumerate, which is not part of this model.
- Validation.ChunksAreAllowed: the absence of overflow is stated for sizes at least one block below 2^63; the draw itself and negative or zero block sizes are left out.
- Validation.ChecksumSalt: the hash is an arbitrary function, and that `append(data, salt...)` may write behind a shared slice is not modelled.
- BloomCache.SettledNeverReportedAbsent: key enumeration is taken to be complete; an error or a cancelled context closes the channel early and Rebuild takes that for the end.
- Concurrent use of the ARC cache, errors of Get and Has in the datastore, nil keys, HashOnRead.
- TarReader.Reader.Read: results are returned as values instead of being written into the caller's buffer, and empty buffers are left out.
- `ImportTar` and `escapePath`: they rest on the tar library, the DAG editor and the Rabin chunker.
- Batches.Batch.AsyncCommit: goroutines make progress only where the client receives a result, which is where it can be observed.
- ProtoNodes.ProtoNode.GetCid: prefixes that the hash library refuses make the original panic and are left out, and so is a `Prefix` field assigned from outside.
- ProtoNodes.ProtoNode.RawData: that `append(n.uuid, ...)` may write into the block a UUID was cut from is not modelled; links without a CID, JSON forms and children of other kinds than protobuf nodes are left out.
- Records.SelectRecord: reading an entry and its validity are arbitrary functions; ValidateIpnsRecord and signatures are left out.
- Republisher.NoLostUpdate: Close and the cancelled context are left out; time-outs may fire at any moment.
- MFS files and directories, networking, daemon, REST, thrift, smart-contract, proxy and command-line code: plumbing over libraries that are not part of this model.
- Small members such as the keystore, path helpers and file-store delegation: they would only add easy properties.
