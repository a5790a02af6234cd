# De-Sentry in Dafny

A model of the hard core of De-Sentry, a peer-to-peer document database, and
proofs about it.  `dafny verify dfyconfig.toml` checks everything; the modules
are plain files in this directory.

**Documents and replication.**  A document is a tree of objects, tagged arrays,
scalars and tombstones, every node stamped by a hybrid logical clock.  `Lattice`
states merge on name-indexed maps and settles exactly when it commutes and
associates; `Document` has the entry vectors of the program and the hash join,
and shows they mean the same; `Codec` has the canonical bytes; `Update` the
diff-style local write, and `Locality` what it leaves alone.  `Provenance` traces every node of a document to the
write that issued its stamp.  `Mesh` runs any number of nodes through any
interleaving of local writes and deliveries and derives from unique stamps that
all copies are compatible; `Progress` says what one more write or delivery achieves; `Convergence` accounts for every copy by the writes
merged into it, `Plans` settles exactly when all ways of merging agree, and `Elements`
says which elements and values are left whichever way is taken.
`Deletion` is a run in which they do not, and `Repeats` has the local writes that
the invariant does not survive.  `Delta`, `Gossip` and `Rounds` have the digest exchange and show
that two rounds make two nodes equal and a third moves nothing.

**Storage.**  `TreeModel`, `TreeEntries`, `TreeSplits`, `TreeDensity`, `TreeScan`, `BPlusTree`
and `TreeRuns` are the B+Tree over a heap of pages, with parent pointers,
recursive splits and the leaf chain.  `BufferPool` is the pool of frames over a
disk.  `Recovery` is the ledger and its replay.

**Placement.**  `Ring`, `Placement` and `Policy` are the consistent-hash rings and
the displaced owners; `Holders` the choice of transit holders.

**Text, logs and rates.**  `JsonText`, `JsonSpelling`, `JsonParser`, `JsonPrinter` and `JsonCanon`
are the JSON parser and printer; `FramedLog`, `TransitCodec`, `TransitLog`, `Transit`
and `Reencrypt` the checksummed logs; `Admission` the token bucket.

Where the program changes state, the model is a class or a loop proved against
a function, and the promises are proved about that function.  Hashes, checksums,
sealing, clocks, input/output outcomes and the iteration order of hash tables are
parameters.  Keys in the B+Tree are the places of the stored strings in their
order (`KeySlots` shows that strings and places correspond); `TreeRuns` states the
result over strings.

The code and its documentation differ in three places, and the model follows the
code.  `include/desentry/crdt/document.h:21-24` promises that merge is commutative and
associative for every kind of node and that peers with the same writes converge;
associativity and convergence fail when a container is deleted and later written
again, and merge does not commute on objects that repeat a key.  `src/net/placement.cpp:171-174`
says the two rings differ in exactly the owners that are owed the bytes; with
colliding positions a live node can be among them.
`include/desentry/ledger/transit_store.h:146-148` says a torn tail costs at most the
last record; what is held after it can be lost too.

## Model

| member | source | states |
|---|---|---|
| Lattice.JoinIdempotent | src/crdt/document.cpp:190-260 | merging a document with itself changes nothing, for every document |
| Lattice.JoinAbsorbsLeft | src/crdt/document.cpp:190-260 | merging an input into the merge again changes nothing, from the left, with no hypothesis |
| Lattice.JoinAbsorbsRight | src/crdt/document.cpp:190-260 | the same from the right |
| Lattice.JoinStamp | src/crdt/document.cpp:190-260 | the root stamp of a merge is the later of the two |
| Lattice.JoinMembers | src/crdt/document.cpp:199-252 | two live arrays or two live objects are merged member by member at any stamps: the members of both, each pair joined, removed if either removed it |
| Lattice.JoinWhole | src/crdt/document.cpp:195-259 | a scalar, a tombstone or two kinds are decided as a whole: the later stamp wins |
| Lattice.JoinCommutesExactly | include/desentry/crdt/document.h:21-24 | merge commutes if and only if, wherever one side must win outright, equal stamps mean equal values (`Compat`) |
| Lattice.JoinAssociatesExactly | include/desentry/crdt/document.h:21-24 | merge associates on three documents if and only if `Associates`, a condition read off shapes, deletions and stamps path by path |
| Lattice.DeleteThenRecreateDiverges | src/crdt/document.cpp:195-259 | the header promises associativity for every node kind; a container deleted and written again is a case where the two groupings differ |
| Lattice.KeepsLeftExactly | src/crdt/document.cpp:190-260 | when a merge returns its first argument, exactly |
| Lattice.KeepsRightExactly | src/crdt/document.cpp:190-260 | when a merge returns its second argument, exactly |
| Plans.PlansAgreeExactly | include/desentry/crdt/document.h:21-24 | all ways of merging any of a set of states, in any order, grouping and multiplicity, agree if and only if any two of them commute (`Compat`) and any three associate (`Associates`) |
| Plans.SameInputsSameResult | README.md:24 | replicas that merged the same such states hold the same document |
| Plans.LawfulWithJoin | src/crdt/document.cpp:190-260 | merging two of them gives a state that commutes and associates with the others |
| Elements.MembersExactly | src/crdt/document.cpp:199-252 | however writes are merged, while a path leads through live containers in all of them: an element or field is there exactly if some write has it, and removed exactly if some write removed it |
| Elements.LatestWins | src/crdt/document.cpp:195-260 | and where each has one value there or none, the one with the latest stamp is left |
| Elements.MembersInRuns | include/desentry/crdt/document.h:10-19 | at the end of every run this holds of every copy and the writes it absorbed |
| Elements.LatestInRuns | include/desentry/crdt/document.h:10-19 | and of single values: the latest one a write had there is left |
| Documents.MergeByIndex | src/crdt/document.cpp:190-260 | the merge that joins the two entry vectors through a hash index computes the recursive merge |
| Documents.UnionByIndex | src/crdt/document.cpp:206-216 | the index, the left pass and the leftover pass together compute the union of entries |
| Documents.JoinByIndex | src/crdt/document.cpp:230-245 | the left pass joins each entry with its counterpart and leaves exactly the unused names |
| Documents.Remaining | src/crdt/document.cpp:246-248 | the leftover pass keeps, in order, the entries whose names were not consumed |
| Documents.MergeMeansJoin | src/crdt/document.cpp:190-260 | the merge of entry vectors means the join of name-indexed maps, and keeps names distinct |
| Documents.CanonExactly | src/crdt/document.cpp:288-342 | two documents have the same canonical form if and only if they mean the same |
| Documents.MergeCanonical | src/crdt/document.cpp:190-260 | merging two documents in stored order gives a document in stored order |
| Codec.StampRoundTrip | src/crdt/hlc.cpp:71-95 | a timestamp decodes to itself |
| Codec.DecodeEncode | src/crdt/document.cpp:288-394 | an encoded document, with repeated names or without, decodes to its canonical form if it nests within the depth cap, and is refused otherwise |
| Codec.EncodeExactly | src/crdt/document.cpp:288-342 | two documents have equal encodings if and only if they agree up to field and element order |
| Codec.SampleLeaf | src/crdt/document.cpp:288-307 | the bytes of a stamped boolean, live or a tombstone, written out |
| Codec.SampleArray | src/crdt/document.cpp:301-325 | the bytes of an array of any one element: count, tag, removal flag and element, with their lengths |
| Codec.MergedBytesAgree | src/crdt/document.cpp:190-342 | compatible documents merge to the same bytes in either order |
| JsonValues.JsonEqualsReflexive | src/crdt/document.cpp:45-79 | a JSON value equals itself if and only if every later value of a repeated key equals the first, at every depth (`Consistent`) |
| JsonValues.KeyedConsistent | src/crdt/document.cpp:45-79 | which holds when no key is repeated |
| JsonValues.RepeatedKeyNotReflexive | src/crdt/document.cpp:45-79 | with a repeated key and two values it fails |
| Stamps.TagInjective | src/crdt/document.cpp:31-35 | element tags of different stamps or counters differ |
| Updates.UpdateInflatesAndReads | src/crdt/document.cpp:112-188 | a write of JSON without repeated keys (`Keyed`), stamped after everything in the document, keeps the document sound, loses no field and no array tag (merging the old version back changes nothing) and reads back as the JSON written |
| Updates.BuildGood | src/crdt/document.cpp:81-110 | a new document from JSON without repeated keys (`Keyed`) is sound, stamped throughout with the write, and reads back as its JSON |
| Updates.MatchByFlags | src/crdt/document.cpp:146-188 | the flag-array matching of new elements to old ones computes the functional matching, with unmatched old elements marked removed |
| Updates.MatchOne | src/crdt/document.cpp:152-176 | one step of it: the first unmatched live equal element, else a new tagged one |
| Updates.FindCandidate | src/crdt/document.cpp:152-164 | the first element that is unmatched, not removed and equal |
| Locality.SameIsNoWrite | src/crdt/document.cpp:114-116 | writing what a value already reads as returns the value, old stamp, tags and all |
| Locality.UpdateAt | src/crdt/document.cpp:118-133 | what a write does at any path through objects is what it does to the live value there |
| Locality.UnchangedKept | src/crdt/document.cpp:114-133 | so at every path where the old value reads as the new JSON the node is the old one |
| Locality.ChangedStamped | src/crdt/document.cpp:112-188 | and at every other live one it carries the stamp of the write |
| Locality.AbsentField | src/crdt/document.cpp:134-144 | a field left out becomes a tombstone of this write, and one already deleted keeps its tombstone |
| Locality.ArrayAt | src/crdt/document.cpp:147-183 | an array written to keeps, for each item, an old live element that equals it, and takes a new one only if none is left; what is left over is marked removed, and nothing is removed and put back |
| Locality.RemoteEditSurvives | include/desentry/crdt/document.h:70-78 | where a local write changed nothing, merging with any other version in either order gives what it would have given without it, so a later remote edit survives |
| Provenance.JoinSound | src/crdt/document.cpp:190-260 | in a merge of sound documents every stamp is still bounded by its container's and every element still carries its own tag |
| Provenance.AttestedCompat | src/crdt/document.cpp:190-260 | documents whose every node is traceable to the write that issued its stamp are compatible |
| Provenance.JoinAttested | src/crdt/document.cpp:190-260 | merging keeps every node traceable |
| Provenance.UpdateAttested | src/crdt/document.cpp:112-188 | a write under a new stamp keeps every node traceable |
| Clocks.HybridLogicalClock.Now | src/crdt/hlc.cpp:17-27 | the stamp issued and the new reading are those of the tick |
| Clocks.HybridLogicalClock.Observe | src/crdt/hlc.cpp:29-50 | a remote stamp is refused exactly when it is too far ahead or a counter is at its limit; otherwise the reading is folded |
| Clocks.HybridLogicalClock.Restore | src/crdt/hlc.cpp:52-59 | the reading only ever moves forward |
| Clocks.TickExceedsExactly | src/crdt/hlc.cpp:17-27 | a new stamp exceeds everything the clock covers if and only if the logical counter does not wrap |
| Clocks.FoldCovers | src/crdt/hlc.cpp:29-50 | after observing a stamp the clock covers it and everything it covered before |
| Clocks.TickLeast | src/crdt/hlc.cpp:17-27 | a tick is the least reading past the last one and not behind the wall |
| Clocks.FoldLeast | src/crdt/hlc.cpp:29-50 | after observing a stamp the reading is the least past both and not behind the wall |
| Clocks.PhysicalBound | src/crdt/hlc.cpp:17-50 | the physical part stays within the skew bound of the largest wall time seen |
| Engine.MaxStampIsRoot | src/crdt/document.cpp:396-410 | in a sound document the newest stamp is the root's |
| Engine.NodeEngine.PutRaw | src/storage/storage_engine.cpp:232-307 | a row is written exactly when key and document sizes are acceptable and the write succeeds |
| Engine.NodeEngine.PutDocument | src/engine/node_engine.cpp:197-256 | a local write stamps, updates, encodes, stores and caches the digest, with each early exit |
| Engine.NodeEngine.MergeRemote | src/engine/node_engine.cpp:301-358 | a remote document is decoded, observed by the clock, merged, stored and its digest cached, with each early exit |
| Engine.NodeEngine.NoteDigest | src/engine/node_engine.cpp:367-382 | the cached digest is replaced when the bytes decode and left alone otherwise |
| Engine.NodeEngine.DigestFor | src/engine/node_engine.cpp:384-407 | a key's digest comes from the cache or is computed from the stored bytes and cached |
| Engine.NodeEngine.LocalDigest | src/engine/node_engine.cpp:384-407 | exactly the rows with a cached or computable digest are listed, and the cache gains those |
| Mesh.StepKeeps | src/engine/node_engine.cpp:197-407 | every local write of JSON without repeated keys (`Keyed`) and within the depth cap (`Flat`), every delivery and every listing of digests keeps the mesh invariant |
| Mesh.WriteDominates | src/engine/node_engine.cpp:217-220 | a local write is stamped after everything its node ever issued, stored or not, and everything in the document it replaces |
| Mesh.CommitCache | src/engine/node_engine.cpp:367-382 | storing bytes keeps the digest cache coherent if and only if they decode or the key was not cached |
| Mesh.CopiesCompatible | README.md:24 | in every run whose local writes are `Keyed` and `Flat`, all copies of a document that ever existed are compatible and merge to the same bytes either way round |
| Mesh.EveryRun | src/engine/node_engine.cpp:197-407 | at the end of every run whose local writes are `Keyed` and `Flat`: stamps strictly increase, also past those of refused writes, and dominate; the clock respects the skew bound; every stored document is sound; the digest cache equals recomputation |
| Progress.WriteExactly | src/engine/node_engine.cpp:197-256 | at the end of every run a local write is stored exactly when storage takes it, the key has 1 to 63 bytes and the document fits a page; the row then means a document that reads as the JSON written and has absorbed the old row, and no other row changes |
| Progress.DeliveryExactly | src/engine/node_engine.cpp:301-358 | in every run whose wall clocks stay within five minutes of each other a delivered copy is rejected only by a counter at its limit, and otherwise stored exactly when storage takes it and the merge fits a page; the row then means the merge, and no other row changes |
| Progress.RunSteady | src/crdt/hlc.cpp:17-50 | in such a run no clock and no stamp ever passes the latest of these times |
| Convergence.SameWritesSameBytes | include/desentry/crdt/document.h:21-24 | in every run each copy is a merge of writes to its key; all ways of merging these agree if and only if any three associate, and then two nodes that absorbed the same writes hold the same bytes however the copies travelled |
| Convergence.GroupingsAgreeExactly | include/desentry/crdt/document.h:21-24 | two nodes that merged the same three copies in different groupings hold the same bytes if and only if the copies associate |
| Convergence.WritesCompatible | src/engine/node_engine.cpp:197-358 | writes to one key in one run are pairwise compatible |
| Convergence.RunTraced | src/engine/node_engine.cpp:197-358 | every run can be so accounted for |
| Deletions.DeletedMemberReturns | include/desentry/crdt/document.h:21-24 | it fails in this run from two idle nodes: one writes a field, deletes it and writes it again, the other is sent the first copy and the last; both have absorbed the same writes, and the other still holds the deleted member |
| Deletions.StoryDiverges | src/engine/node_engine.cpp:197-358 | and so in every such run in which the first copy merged with the last is not the last |
| Repeats.BuildExactly | src/crdt/document.cpp:81-110 | a new document has distinct names and can be decoded if and only if the JSON repeats no key and nests within the cap |
| Repeats.UpdateExactly | src/crdt/document.cpp:112-188 | likewise an updated one |
| Repeats.DistinctNamesExactly | src/crdt/document.cpp:81-188 | whatever the depth, names are distinct after a write if and only if no key is repeated |
| Repeats.StepKeepsExactly | src/engine/node_engine.cpp:197-256 | a local write keeps the mesh invariant if and only if it is refused or its JSON is `Keyed` and `Flat` |
| Repeats.RepeatedKeyDiverges | src/crdt/document.cpp:81-260 | a key written twice in one object, which the parser lets through, and then once: the two versions merge to different bytes depending on which is merged into which |
| Deltas.SelectPushed | src/net/network_manager.cpp:450-462 | the offered documents are rows that differ, without repeats; all of them if and only if together they fit the byte cap or there is just one |
| Deltas.SelectWanted | src/net/network_manager.cpp:463-472 | the requested keys likewise |
| Gossip.HandleDigest | src/net/network_manager.cpp:404-474 | the answer names every key that differs, either way, if and only if the delta fits the cap; one cut short is never empty; a key with the same digest on both sides is neither sent nor asked for, and an older copy never is |
| Gossip.MergeAll | src/net/gossip.cpp:148-154 | the documents are received one after the other, a rejected one reported and passed over |
| Gossip.AllMerged | src/net/gossip.cpp:148-154 | when none is rejected, each pushed document is merged into its own row and nothing else changes |
| Deltas.Fulfil | src/net/gossip.cpp:160-174 | the rows sent back are those wanted and present |
| Gossip.Exchange | src/net/gossip.cpp:122-186 | a round keeps both nodes honest, cache coherent and within the copies they started from, done or not; it is done whenever the delta fits the cap, no merge is too large and no stamp is refused, all known beforehand; done, it absorbs exactly the offered rows on both sides; between equal stores it is done and moves nothing |
| Gossip.CopiesMerge | src/crdt/document.cpp:190-260 | two compatible copies and their merge are closed under merging, byte for byte |
| Rounds.TwoRoundsConverge | src/net/network_manager.cpp:439-448 | two completed rounds, each started by either node, leave both nodes with identical bytes for every key: the merge of what they had, including when the first round moved data one way only |
| Rounds.TwoRounds | src/net/gossip.cpp:122-186 | running the round twice, each time from either node, gives equal stores; with few enough rows, storable merges and timely stamps, known beforehand, both rounds are done |
| Rounds.MovesExactly | src/net/network_manager.cpp:439-472 | a node offers exactly the rows the other lacks, has older, or has as new with other bytes |
| Rounds.ThirdRound | src/net/gossip.cpp:122-186 | after two completed rounds a third, at any wall times, leaves rows, clocks and tag counters as they are |
| Rounds.FewFit | src/net/network_manager.cpp:404-474 | so many rows of the largest size fit one answer |
| Rounds.ReachablePeers | src/net/gossip.cpp:104-186 | any two nodes of any reachable mesh state meet what the rounds ask of them |
| KeySlots.SlotRoundTripExactly | src/storage/bplus_tree.cpp:40-51 | a key of accepted length is read back from its slot exactly when it has no zero byte |
| KeySlots.RankOrder | src/storage/bplus_tree.cpp:94-129 | slots compare as the strings do, also against a longer search key |
| KeySlots.PlaceOrder | src/storage/bplus_tree.cpp:40-51 | any key, also one with a zero byte, compares with a stored one as their places do, and equals it only without a zero byte |
| BPlusTrees.ScanKeys | src/storage/bplus_tree.cpp:116-120 | the linear scan finds the first separator greater than the key |
| BPlusTrees.BPlusTree.FindLeaf | src/storage/bplus_tree.cpp:94-129 | the bounded descent with its exits computes the walk |
| BPlusTrees.WalkFinds | src/storage/bplus_tree.cpp:94-129 | on a well-formed tree no early exit of the descent is taken |
| BPlusTrees.HeightBound | src/storage/bplus_tree.cpp:94-107 | a tree whose page ids fit 32 bits is less than 32 high, so the 64-hop limit is never met |
| BPlusTrees.BPlusTree.Search | src/storage/bplus_tree.cpp:148-165 | search is lookup in the sorted contents; a key with a zero byte is never found |
| BPlusTrees.BPlusTree.Insert | src/storage/bplus_tree.cpp:167-175 | a key of bad length is refused; otherwise the tree stays well formed, its contents are the old ones with the stored key inserted or overwritten, and if every node but the root was at least half full it still is |
| BPlusTrees.InsertedTwice | src/storage/bplus_tree.cpp:177-205 | a key with a zero byte whose stored form is already there is put in behind it, at the leaf and index the code computes, and then the pages hold no tree |
| BPlusTrees.SplitTwice | src/storage/bplus_tree.cpp:207-245 | if that leaf is full and split, no tree has the left half among its leaves, however the halves are linked upward |
| BPlusTrees.PlaceTaken | src/storage/bplus_tree.cpp:94-189 | the descent by such a key reaches the leaf that holds its stored form, just before the index |
| BPlusTrees.BPlusTree.InsertIntoLeaf | src/storage/bplus_tree.cpp:177-244 | overwriting, shifting in or splitting a leaf achieves that |
| BPlusTrees.BPlusTree.SplitLeaf | src/storage/bplus_tree.cpp:206-243 | a full leaf spread over two keeps the chain, the order and the contents, and leaves both at least half full |
| BPlusTrees.BPlusTree.InsertIntoParent | src/storage/bplus_tree.cpp:246-340 | linking the right sibling, splitting upward as far as needed, keeps parent pointers, separators, depth, chain and contents |
| BPlusTrees.BPlusTree.NewRoot | src/storage/bplus_tree.cpp:251-271 | growing a root above both halves |
| BPlusTrees.BPlusTree.LinkIntoParent | src/storage/bplus_tree.cpp:273-297 | shifting separator and child into a parent with room |
| BPlusTrees.BPlusTree.SplitParent | src/storage/bplus_tree.cpp:299-339 | splitting a full parent promotes the median and moves the right half's children |
| BPlusTrees.SplitNode | src/storage/bplus_tree.cpp:310-334 | both halves are written, the moved children reparented and nothing else touched |
| BPlusTrees.MoveChildren | src/storage/bplus_tree.cpp:324-329 | exactly the listed pages change parent |
| BPlusTrees.ShiftIn | src/storage/bplus_tree.cpp:194-204 | shifting up from the end inserts at the index |
| BPlusTrees.ShiftOut | src/storage/bplus_tree.cpp:357-361 | shifting down removes at the index |
| BPlusTrees.BPlusTree.Remove | src/storage/bplus_tree.cpp:342-364 | removal reports whether the key was there and takes out exactly that entry; a key with a zero byte never is |
| BPlusTrees.BPlusTree.Scan | src/storage/bplus_tree.cpp:366-391 | a scan is the first `limit` entries from the start key on, in order (all of them for limit 0) |
| TreeScans.ScanChain | src/storage/bplus_tree.cpp:372-390 | following the leaf chain with a limit delivers that prefix |
| TreeSplits.LeafSplit | src/storage/bplus_tree.cpp:206-237 | the pages after a leaf split hold the two halves, chained, one separator pending |
| TreeSplits.RoomInParent | src/storage/bplus_tree.cpp:281-297 | filling a slot in the parent completes the tree |
| TreeSplits.ParentSplit | src/storage/bplus_tree.cpp:299-337 | splitting the parent leaves the same situation one level up |
| TreeSplits.RootGrown | src/storage/bplus_tree.cpp:251-270 | a new root completes the tree, one higher |
| TreeEntries.UpsertIsMap | src/storage/bplus_tree.cpp:177-204 | inserting in order is the map update |
| TreeEntries.WithoutIsMap | src/storage/bplus_tree.cpp:342-364 | removing is the map difference |
| TreeRuns.RunTree | src/storage/bplus_tree.cpp:85-391 | for every sequence of inserts and removes from an empty tree, while page ids last and no key with a zero byte meets its stored form, the tree is well formed and holds exactly the map over strings; while nothing is removed every node but the root is at least half full |
| TreeRuns.LookupRefines | src/storage/bplus_tree.cpp:148-165 | looking any string up in such a tree is looking it up in the map |
| TreeRuns.ScanLists | src/storage/bplus_tree.cpp:366-391 | a scan lists exactly the map's keys from the start on, in string order, each once |
| Recovery.StorageEngine.PutRaw | src/storage/storage_engine.cpp:232-307 | at every point where a write can stop or fail, each row is attested by the ledger |
| Recovery.CollectLatest | src/storage/storage_engine.cpp:103-110 | the backward pass with its seen-set collects one PUT per key, the last |
| Recovery.Materialise | src/storage/storage_engine.cpp:155-194 | applying them, skipping current rows and refused ones, overlays the rows with the last PUTs |
| Recovery.StorageEngine.ReplayLedger | src/storage/storage_engine.cpp:91-200 | recovery gives exactly the last PUT of each key when no put is refused, and otherwise leaves the refused rows as they were |
| Recovery.RecoveryIsReplay | src/storage/storage_engine.cpp:97-110 | that equals in-order replay of the whole history on whatever rows survived, and repeating it changes nothing |
| Recovery.AbortedWriteReturns | src/storage/storage_engine.cpp:276-298 | a failed write stays the last PUT although an abort record follows it |
| Recovery.RunThenRecover | src/storage/storage_engine.cpp:91-307 | for every run of writes and restarts, whichever row writes survive each crash, recovery gives the last logged write of every key |
| BufferPools.BufferPool.FindFreeOrVictimFrame | src/storage/buffer_pool_manager.cpp:56-73 | a free frame, else the one at the end of the eviction list, written back first if dirty; `BufferPools.EvictsLeastRecent` shows it is the one released longest ago |
| BufferPools.BufferPool.FetchPage | src/storage/buffer_pool_manager.cpp:75-96 | a fetch, in every state of the pool, sound or not |
| BufferPools.BufferPool.NewPage | src/storage/buffer_pool_manager.cpp:98-112 | an allocation likewise |
| BufferPools.BufferPool.UnpinPage | src/storage/buffer_pool_manager.cpp:114-124 | a release likewise |
| BufferPools.BufferPool.FlushPage | src/storage/buffer_pool_manager.cpp:126-134 | a flush likewise |
| BufferPools.BufferPool.FlushAllPages | src/storage/buffer_pool_manager.cpp:136-146 | flushing the page table in whatever order writes every dirty page once |
| BufferPools.FindSound | src/storage/buffer_pool_manager.cpp:56-73 | a frame is found unless every frame is pinned, and no page changes content |
| BufferPools.FetchSound | src/storage/buffer_pool_manager.cpp:75-96 | the frame holds the page's current content, pinned once more; a fetch fails exactly when the page is absent and every frame pinned; no page changes content |
| BufferPools.NewExactly | src/storage/buffer_pool_manager.cpp:98-112 | a new page is blank and changes no other, and the pool stays sound if and only if the id handed out is not resident, except in the frame just evicted for it |
| BufferPools.UnpinExactly | src/storage/buffer_pool_manager.cpp:114-124 | no page changes content, and the pool stays sound if and only if the last holder does not leave a changed page unreported |
| BufferPools.FlushAllSound | src/storage/buffer_pool_manager.cpp:136-146 | the disk then agrees with a page if and only if no holder has changed it unreported |
| BufferPools.RunExactly | src/storage/buffer_pool_manager.cpp:48-146 | over every run: the pool is sound throughout if and only if the client is proper throughout, and then it holds what a flat memory would |
| BufferPools.PoolInvisible | include/desentry/storage/buffer_pool_manager.h:43-63 | after every proper run a fetched page reads as in flat memory, and after a flush a new pool of any size over the disk does |
| BufferPools.EvictsLeastRecent | src/storage/buffer_pool_manager.cpp:11-73 | after every proper run from an empty pool a page that is not resident goes into a free frame if there is one, and otherwise into the frame whose last release is the earliest |
| BufferPools.FetchWritesBack | src/storage/buffer_pool_manager.cpp:62-96 | a fetch writes at most the evicted page, and only if it was reported changed |
| BufferPools.FlushCleans | src/storage/buffer_pool_manager.cpp:126-134 | a flushed page is on disk and no longer due |
| BufferPools.Reallocated | src/storage/engines/kv_bplus.cpp:94-107 | a root id that outlived its page is fetched, released and allocated again |
| BufferPools.ReallocatedPageLost | src/storage/buffer_pool_manager.cpp:62-72 | then the next eviction loses what was written to the new page, and its holder cannot release it |
| BufferPools.ForgottenWriteLost | src/storage/buffer_pool_manager.cpp:62-72 | a change nobody reports is lost on eviction |
| BufferPools.EraseFacts | src/storage/buffer_pool_manager.cpp:11-37 | taking a frame off the eviction list keeps the others |
| BufferPools.Evicted | src/storage/buffer_pool_manager.cpp:62-72 | a victim is resident and unpinned, and every other frame keeps its place |
| Rings.RingUnique | src/net/placement.cpp:27-41 | the ring is determined by the set of nodes, whatever the order of insertion |
| Rings.PlacedRing | src/net/placement.cpp:32-40 | placing a virtual node, the smaller id winning a contested position, keeps the ring that of the set |
| Rings.RemovedRing | src/net/placement.cpp:43-54 | after a removal the ring is that of the remaining set if and only if no position of the removed node was contested |
| Rings.ReplicasExactly | src/net/placement.cpp:62-80 | on every ring the list a key gets is that of the distinct nodes by the distance of their nearest position from the key |
| Policies.RemovalLeavesGaps | src/net/placement.cpp:43-54 | a removal after which it is not |
| Rings.LivePrefix | src/net/placement.cpp:171-182 | the live members of the full ring's list open the restricted ring's list |
| Rings.RestrictionExactly | src/net/placement.cpp:112-160 | the live ring is the full ring restricted to live nodes if and only if no live node loses a position to an absent one |
| Placement.ConsistentHashRing.AddNode | src/net/placement.cpp:27-41 | the node joins the set once, and the ring follows |
| Placement.ConsistentHashRing.RemoveNode | src/net/placement.cpp:43-54 | exactly the positions the node held are freed |
| Placement.ConsistentHashRing.Replicas | src/net/placement.cpp:62-80 | the nodes whose nearest positions, going round from the key, come first, nearest first, each once, at most `count`; the first owns the first position at or after the key |
| Placement.Walk | src/net/placement.cpp:72-78 | the wrapping walk collects first occurrences in order |
| Policies.PlacementPolicy.Rebuild | src/net/placement.cpp:112-160 | the two rings are those of the live set and of the live and away sets, and the skipped list names the rest with reasons |
| Policies.PlacementPolicy.Consider | src/net/placement.cpp:127-159 | one peer's standing decides which ring it joins |
| Policies.PlacementPolicy.Place | src/net/placement.cpp:162-183 | the plan lists the live replicas, nearest to the key first, whether they are too few, and everyone the full ring names besides; comparing node counts first changes nothing |
| Policies.TargetsExactly | src/net/placement.cpp:112-160 | the targets are this node, unless it supervises, and the peers known by their own id, not supervisors or reclaimed, in health and seen lately; those awaited are the ones that fail only the last two |
| Policies.HashInputExactly | src/net/placement.cpp:101-110 | within a collection two documents are placed alike exactly when they share a shard, or have none and the same key |
| Policies.SameMembersSamePlaces | include/desentry/net/placement.h:9-14 | two nodes with their own ids, peer tables, options and clocks that count the same ids as targets place every key alike, and name the same displaced owners if they also await the same ids |
| Policies.MutualPeersAgree | include/desentry/net/placement.h:9-14 | two data nodes that list each other and the same third parties do count the same ids |
| Policies.DisplacedAreAbsent | src/net/placement.cpp:171-181 | unless a live node loses a position to an absent one, the displaced owners are exactly the absent nodes of the full list |
| Policies.DisplacedAreAway | src/net/placement.cpp:171-181 | then every displaced owner is a degraded or stale peer and never a target |
| Policies.CollisionFreeNoneLost | src/net/placement.cpp:34-39 | without colliding positions no live node loses one |
| Policies.LiveNodeDisplaced | src/net/placement.cpp:171-181 | with a collision a live node can be named as displaced |
| Holders.SelectTransitHolders | src/net/placement.cpp:185-220 | the holders are a window of the ranking, starting at the chunk number |
| Holders.SameCandidatesSameHolders | include/desentry/net/placement.h:103-109 | peers with the same candidates, in any order, choose the same holders |
| Holders.HolderExactly | src/net/placement.cpp:210-218 | a candidate holds a chunk exactly when its rank is within the window from the chunk number, taken modulo the number of candidates |
| Holders.BestHoldFirst | src/net/placement.cpp:190-213 | the first chunk goes to the candidates with the highest hashes, the highest first |
| Holders.EvenStripes | include/desentry/net/placement.h:111-114 | for distinct candidates and any hash, over any number of full turns of chunks every candidate holds equally many |
| JsonText.ParseText | src/common/json.cpp:213-294 | every value parses back from its text |
| JsonText.StringReadsBack | src/common/json.cpp:14-34 | every byte string reads back from its escaped form |
| JsonText.IntReadsBack | src/common/json.cpp:184-208 | every 64-bit integer reads back before a delimiter |
| JsonSpelling.AnySpellingParses | src/common/json.cpp:36-229 | every text of a value, with any white space, any choice of escapes, any case of hexadecimal digits and an optional byte-order mark, parses to that value |
| JsonSpelling.StringSpelled | src/common/json.cpp:118-169 | a string is read as its characters, however each is spelled |
| JsonSpelling.Utf8Exactly | src/common/json.cpp:150-159 | the bytes of a four-digit escape are the UTF-8 sequence of its code point |
| JsonSpelling.UnknownEscapeFails | src/common/json.cpp:125-163 | no other letter may follow a backslash |
| JsonCanon.CanonicalExactly | src/common/json.cpp:265-277 | two documents without repeated keys have the same canonical text if and only if they are equal up to field order at every depth |
| JsonCanon.CanonicalIsSorted | src/common/json.cpp:265-277 | the canonical text is the plain text of the value with its fields sorted |
| JsonCanon.CanonicalParses | src/common/json.cpp:213-277 | the canonical text parses, to the value with its fields sorted |
| JsonParser.Parser.ParseValue | src/common/json.cpp:43-55 | the cursor parser reads exactly what the grammar reads |
| JsonParser.Parser.ParseString | src/common/json.cpp:118-169 | a string with its escapes, or a failure |
| JsonParser.Parser.ParseHex | src/common/json.cpp:137-161 | a four-digit escape in UTF-8, or a failure |
| JsonParser.Parser.ParseDigits | src/common/json.cpp:184-208 | an integer in range, or a failure |
| JsonParser.Parser.ParseMembers | src/common/json.cpp:82-101 | the fields of an object |
| JsonParser.Parser.ParseItems | src/common/json.cpp:103-116 | the elements of an array |
| JsonParser.ParseAll | src/common/json.cpp:213-229 | a whole text, with an optional byte-order mark and nothing after the value |
| JsonPrinter.DumpTo | src/common/json.cpp:231-282 | printing appends exactly the text |
| JsonPrinter.EscapeStringTo | src/common/json.cpp:14-34 | escaping appends exactly the escaped form |
| FramedLogs.ReadFrames | src/ledger/transit_store.cpp:204-276 | reading a log of records in range gives them back and goes on with what follows |
| FramedLogs.CutLog | src/ledger/transit_store.cpp:204-228 | a log cut at any byte reads as a prefix of its records, without a sign of corruption |
| FramedLogs.BadRecordStops | src/ledger/transit_store.cpp:210-219 | a record out of range stops the load there, flagged |
| FramedLogs.ChecksumStops | src/ledger/transit_store.cpp:224-236 | so does one in range whose stored checksum is not that of its bytes, and the records before it are kept |
| TransitCodec.HoldReadsBack | src/ledger/transit_store.cpp:82-102 | a written envelope reads back exactly when it has an owner, a 32-byte hash and a chunk number below its total |
| TransitCodec.FirstReadsBack | src/ledger/transit_store.cpp:142-172 | a record of the first version reads back as the only chunk of its document |
| TransitCodec.SecondReadsBack | src/ledger/transit_store.cpp:142-172 | one of the second version reads back without content hash and signature |
| TransitCodec.DropReadsBack | src/ledger/transit_store.cpp:107-115 | a drop record reads back |
| TransitCodec.MapKeyInjective | src/ledger/transit_store.cpp:75-80 | the map key names the owner and hash |
| TransitCodec.DecodedLength | src/ledger/transit_store.cpp:117-176 | an envelope read from a record of any version is at most 28 bytes longer when written again |
| Transit.TransitStore.AppendRecord | src/ledger/transit_store.cpp:297-321 | one frame is appended |
| Transit.TransitStore.Hold | src/ledger/transit_store.cpp:323-342 | log and map take the envelope, or nothing changes |
| Transit.TransitStore.MergeRemoteEnvelope | src/ledger/transit_store.cpp:344-354 | the same for an envelope from another holder |
| Transit.TransitStore.ExpireAsOf | src/ledger/transit_store.cpp:454-480 | exactly the expired envelopes go, and if any did the log is rewritten |
| Transit.TransitStore.Release | src/ledger/transit_store.cpp:482-504 | exactly the envelopes with the given hashes go, likewise |
| Transit.LastingExactly | src/ledger/transit_store.cpp:458-467 | an envelope without an expiry stays whatever the time; another stays until its time has come |
| Transit.UnsettledExactly | src/ledger/transit_store.cpp:487-497 | a release takes every owner's envelopes under the given hashes and no others |
| Transit.TransitStore.Compact | src/ledger/transit_store.cpp:419-452 | the log is rewritten with the live rows |
| Transit.Load | src/ledger/transit_store.cpp:187-290 | loading computes the map the log stands for; a corrupt log is rewritten with it, and the rewritten log loads to it exactly when every envelope, in the current version, is in range |
| Transit.HoldingExactly | src/ledger/transit_store.cpp:323-342 | log and map stay together exactly when the envelope is storable: a chunk number below its total and a record within the cap, neither of which holding checks |
| Transit.UncountedIsLost | src/ledger/transit_store.cpp:323-342 | an envelope that is held and gone after a reload |
| Transit.OversizeCorrupts | src/ledger/transit_store.cpp:210-219 | an envelope that is held and makes the log corrupt |
| Transit.KeepingTidy | src/ledger/transit_store.cpp:419-504 | dropping rows keeps log and map together, and brings them together again exactly when what is left is storable, whatever the log was |
| Transit.DropsLoad | src/ledger/transit_store.cpp:471-474 | already before the rewrite the log with the drop records loads to what is left |
| Transit.CutExactly | src/ledger/transit_store.cpp:187-276 | a log cut at any byte and loaded is as good as new exactly when no torn tail is left |
| Transit.TornTailHides | src/ledger/transit_store.cpp:297-321 | a record appended to a torn tail is not there after the next reload while the torn length is not reached |
| Transit.RunExactly | src/ledger/transit_store.cpp:187-504 | over every run of holds, expiries, releases, reloads and crashes: log and map stay together throughout if and only if every envelope held is storable and no crash leaves a torn tail; then the log alone gives the map back |
| Transit.EveryRun | src/ledger/transit_store.cpp:187-504 | the same from an empty store; without crashes the map is the one simply kept |
| TransitLogs.HeldExactly | src/ledger/transit_store.cpp:323-342 | what the log loads to after one more envelope, exactly |
| TransitLogs.CutRestores | src/ledger/transit_store.cpp:187-276 | a log cut at any byte loads to the state after some prefix of its records |
| TransitLogs.RewrittenExactly | src/ledger/transit_store.cpp:419-452 | a rewritten log loads to the map exactly when its rows are storable under their own keys, in whatever order they are written |
| TransitLogs.HealedExactly | src/ledger/transit_store.cpp:278-288 | what a corrupt log is rewritten with loads to what was read from it exactly when every envelope is in range |
| Reencryption.SealFramedLog | src/storage/reencrypt.cpp:82-155 | the migration leaves alone, rewrites or refuses a file according to the records in it |
| Reencryption.NextRecord | src/storage/reencrypt.cpp:92-128 | one record, a torn tail or a bad record |
| Reencryption.MigrationKeepsRecords | src/storage/reencrypt.cpp:82-155 | after a rewrite a reader with the key finds the same records and torn tail if and only if every sealed record is within its cap |
| Reencryption.SecondRunExactly | src/storage/reencrypt.cpp:129-131 | a second run leaves the file alone exactly when the reader accepts the length of the first sealed record, and refuses the file otherwise |
| Admission.TokenBucketLimiter.Allow | src/net/admission.cpp:12-35 | the bucket is refilled, charged and answers accordingly |
| Admission.TokenBucketLimiter.Sweep | src/net/admission.cpp:37-49 | exactly the buckets idle too long are removed |
| Admission.WindowBound | src/net/admission.cpp:12-35 | in every run, any window admits at most the burst and what accrues over it, also when the clock steps back |
| Admission.SpacedAdmitted | src/net/admission.cpp:12-35 | a key that keeps to the rate is never refused |
| Admission.BurstExactly | src/net/admission.cpp:12-35 | a new key gets its burst at once, and nothing more at that moment |
| Admission.SweepsInvisible | src/net/admission.cpp:37-49 | sweeping buckets idle long enough to fill changes no answer |
| Admission.SweepsInvisibleExactly | src/net/admission.cpp:37-49 | a sweep setting changes no answer of any run in time order if and only if an idle bucket of that age has filled |
| Admission.ShortSweepShows | src/net/admission.cpp:37-49 | with any shorter idle time the answers of a run with one sweep differ from those without it |
| Admission.SteppingBackShows | src/net/admission.cpp:12-49 | if the clock steps back, they can differ with any idle time |

## Left out

- Floating point in documents and JSON: printing loses digits and integer/double equality is not transitive; such text and bytes count as unreadable here.
- Array order through storage: elements are encoded in tag order, so only their bag survives; the model says exactly that through canonical forms.
- Several collections, access control, the outbox, the broadcast hook and transit envelopes inside `MergeRemote`: one collection is modelled.
- Gossip.HandleDigest: does not say that rounds stopped by the byte cap make progress, which the code does not guarantee; the convergence theorem is about deltas that fit.
- Gossip.MergeAll: storage writes inside a round succeed; a full disk or a quota met half-way through a round is not modelled.
- Gossip.Exchange: likewise.
- Engine.NodeEngine.PutRaw: folds quota, ledger append and row write into one flag; `Recovery.StorageEngine.PutRaw` takes them apart.
- Engine.NodeEngine.PutDocument: leaves out access control, the outbox and the broadcast hook.
- Engine.NodeEngine.MergeRemote: leaves out access control and the branch for transit envelopes.
- Recovery.StorageEngine.ReplayLedger: leaves out access-control records.
- JsonParser.Parser.ParseDigits: fails where the program reads a double (fractions, exponents, integers out of range).
- Admission.SweepsInvisible: is about calls in time order; a clock that steps back is accepted by `Allow`, and `Admission.SteppingBackShows` shows that sweeps can then be seen.
- Admission.TokenBucketLimiter.Allow: counts tokens in real numbers; the rounding of doubles is not modelled.
- Mesh.StepKeeps: asks for local writes that repeat no key and nest within the decoder's cap; `Repeats.StepKeepsExactly` shows that exactly the others, when stored, break the invariant, and `Repeats.RepeatedKeyDiverges` what a repeated key does.
- Mesh.CopiesCompatible: is about runs of such writes.
- Updates.UpdateInflatesAndReads: asks for JSON without repeated keys; `Repeats.DistinctNamesExactly` shows that it is needed.
- Updates.BuildGood: likewise.
- Mesh.EveryRun: is about runs of such writes; does not model `Restore` between steps or the tag counter's 64-bit wrap-around; steps at which the logical counter would wrap are excluded, and `Clocks.TickExceedsExactly` shows that exclusion is needed.
- Thread interleavings inside one node: each locked method is one step.
- BPlusTrees.BPlusTree.Insert: asks for free page ids, and of a key with a zero byte that its stored form is not in the tree; `BPlusTrees.InsertedTwice` and `BPlusTrees.SplitTwice` show that otherwise the pages hold no tree.
- TreeRuns.RunTree: the same holds of its runs.
- Failing page fetches and exhaustion of the pool inside the tree: the tree works on a page heap; the pool is modelled on its own.
- Slotted pages, the catalogue, quotas and the storage back ends: a back end is a map and the ledger a sequence; ledger pruning is not part of this model.
- Policies.DisplacedAreAbsent: the condition is sufficient; it is exact for the rings (`Rings.RestrictionExactly`), not for each single list.
- JsonCanon.CanonicalExactly: asks for documents without repeated keys; the order `std::sort` gives equal keys is unspecified.
- Transit.TransitStore.Hold: models a plaintext log whose appends succeed or fail as a whole; sealed logs are covered by the re-encryption theorems.
- Transit.TransitStore.AppendRecord: leaves out sealing and a write that fails part-way.
- Transit.Load: leaves out sealed logs opened with a key.
- Transit.TransitStore.ExpireAsOf: does not model an append that fails half-way through the drops.
- Transit.HoldingExactly: asks for envelopes below four gigabytes, beyond which the written length wraps and what is read depends on the checksum.
- Transit.TornTailHides: is about records that do not reach the torn length; beyond it, what is read depends on the checksum.
- Message deduplication, wire payload codecs, `change_feed`, `file_index`, the outbox store, discovery, relay, HTTP, cryptography and the desktop application.
