# Storage, consensus and distribution components: a verified model

The `code/` directory holds small Go programs, each showing one building block of a
storage or distributed system. This project models thirteen of them in Dafny and
proves what each is for.

| component | files | what is proved |
|---|---|---|
| B+ tree index | `BPlusModel.dfy`, `BTree.dfy` | the linked nodes stay one balanced search tree that holds exactly the map of the writes; lookups, ordered scans, height bounds |
| Raft leader election | `RaftModel.dfy`, `RaftElections.dfy`, `RaftCluster.dfy` | one leader a term in every interleaving of the locked sections; a leader that no reachable node outranks survives every tick; the node objects refine the atomic steps |
| LSM store | `SkipList.dfy`, `SSTable.dfy`, `LittleEndian.dfy`, `LSMTree.dfy` | skip list, file format, sparse index and layers together answer as a plain map, through flushes that fail at any point, and what a failing read makes of that |
| LFU cache | `LFUModel.dfy`, `LFUCache.dfy` | the ring of buckets of linked nodes refines a pointer-free model that evicts the least used, then the least recently used, key |
| Vector clocks | `VectorClocks.dfy`, `CausalRuns.dfy` | in every run of writes and late, lost, repeated deliveries clocks compare as causal pasts do, and replicas that saw the same hold the same |
| Protocol Buffers wire format | `Wire.dfy`, `OrderWire.dfy` | varint and message round trips; unknown fields survive byte for byte |
| External merge sort | `MinHeap.dfy`, `CeilLogs.dfy`, `ExternalSort.dfy`, `Sorting.dfy` | the output is the sorted input, in the fewest passes, with every other file as it was |
| Write-ahead log | `WAL.dfy`, `LittleEndian.dfy` | a log cut at any byte gives back exactly the whole records before the cut, for any checksum |
| Merkle tree | `Merkle.dfy` | which key sets a comparison can tell apart, for any hash; it is exact on equal key sets and logarithmic a difference |
| Consistent hash ring | `Ring.dfy`, `Sorting.dfy` | exactly when positions meet, what adding and removing a node does to every key's order of owners |
| Geohash | `GridAxis.dfy`, `Geohash.dfy` | cells and hashes name each other; the eight neighbours; exactly which points a search area covers |
| Transactional outbox | `Outbox.dfy` | orders and events commit together; every event reaches the broker at least once and in order, whatever fails |
| Idempotency keys | `Idempotency.dfy` | one handler at a time, one run and one success for a key over whole runs, up to exactly the failure and the expiry that break it |

`ByteStrings.dfy`, `Sequences.dfy` and `IntWidths.dfy` hold what several of them share.

Objects with mutable fields in Go are classes here, and their methods are proved against
functions or relations on values; the properties are then proved of those. Randomness
(timer lengths, node heights), clocks, checksums, hashes, the order of map iteration, and
the points where input or output fails are parameters or free choices, so every result
holds for all of them.

## Model

| member | source | states |
|---|---|---|
| BPlusModel.InsertIsPut | code/b_tree/btree.go:88-147 | inserting into any well-formed subtree, splits included, leaves one or two well-formed parts whose entries are those of a sorted-list put on the old entries |
| BPlusModel.InsertKeepsBalance | code/b_tree/btree.go:117-147 | an insertion keeps all leaves at one depth and every node between its least and greatest size, and a split gives two parts of the same height |
| BPlusModel.RunsHoldTheMap | code/b_tree/btree.go:76-86 | after any sequence of puts the tree is well-formed, balanced and holds exactly the map of those writes, the last write of a key winning |
| BPlusModel.RunReaches | code/b_tree/btree.go:76-86 | any sequence of puts does lead to such a tree |
| BPlusModel.HeightBounds | code/b_tree/btree.go:45-51 | a tree of n keys and height h >= 2 has 2^h <= n, and n <= 3 * 4^(h-1) at any height |
| BPlusModel.LookupIsMapLookup | code/b_tree/btree.go:53-74 | following one path and searching one leaf answers as the map does, for keys that are there and keys that are not |
| BPlusModel.LeafIndexSkipsSmaller | code/b_tree/btree.go:155-171 | every leaf left of the one a descent reaches holds only keys below the one looked for, so a scan may start there |
| BPlusModel.InRangeRepresents | code/b_tree/btree.go:152-171 | the entries of a range, in order, represent exactly the map restricted to it |
| BTree.BPlusTree.Put | code/b_tree/btree.go:76-86 | on the linked nodes: the contents become the old map with the key set, the abstract tree its `PutRoot`, and only the tree's own or new nodes change |
| BTree.BPlusTree.Insert | code/b_tree/btree.go:88-147 | the recursive call on a node represents `Inserted` of the old tree, with the leaf chain intact through both parts and its old end |
| BTree.BPlusTree.CutLeaf | code/b_tree/btree.go:121-133 | the upper half of the keys and values, the promoted key with them, moves to a new right leaf linked in after the old one |
| BTree.BPlusTree.CutInner | code/b_tree/btree.go:137-147 | the middle key goes up and stays in neither half; the keys and children right of it move to a new node |
| ByteStrings.LessIsLexicographic | code/b_tree/btree.go:66-74 | one key is below another exactly when at the first place they differ it has the smaller byte or has ended |
| BTree.BPlusTree.Get | code/b_tree/btree.go:53-63 | found exactly when the key is in the contents, and then with its value |
| BTree.BPlusTree.Height | code/b_tree/btree.go:45-51 | the leftmost path has the height of the tree, which obeys the bounds of `HeightBounds` |
| BTree.BPlusTree.Range | code/b_tree/btree.go:152-171 | with the keys of the contents from start to end listed strictly ascending, each key in the bounds and no other, the answer has one string a key: the key, the byte `=` and its value in the contents |
| BTree.BPlusTree.Keys | code/b_tree/btree.go:174-184 | the leaf chain lists exactly the keys of the contents, strictly ascending, as many as the contents have |
| BTree.BPlusTree.LeafChainIntact | code/b_tree/btree.go:189-192 | the check of the leaf chain always succeeds on a tree that puts have built |
| RaftModel.RunKeepsInv | code/raft_election_sim/raft.go:158-255 | in every run of the locked sections of elections and heartbeats, with partitions and heals between any two, votes, campaigns, wins and leaders satisfy the invariant |
| RaftModel.ElectionSafety | code/raft_election_sim/raft.go:158-218 | in every interleaving two elections won in one term were won by the same node |
| RaftModel.WinnersHaveMoreThanHalf | code/raft_election_sim/raft.go:158-194 | in every interleaving an election on record as won has the votes of more than half of all nodes, each of them cast for the winner in that term |
| RaftModel.OneLeaderPerTerm | code/raft_election_sim/raft.go:296-307 | at no point of any interleaving do two nodes lead in one term |
| RaftModel.RunExtends | code/raft_election_sim/raft.go:198-218 | along a run no vote is ever withdrawn or changed and no term goes back |
| RaftModel.MajoritiesMeet | code/raft_election_sim/raft.go:102 | any two sets of voters of majority size, which `Majority` gives as the least number over half of the nodes, share a voter, which the lemma returns |
| RaftElections.ElectionHeld | code/raft_election_sim/raft.go:158-194 | an uninterrupted election ends over and on record in a new term with every reachable node asked; its supporters are exactly itself and the reachable nodes in an older term, or in that term with the vote free or its own, and at the end it leads if they are more than half of all nodes and is a candidate if not |
| RaftElections.AheadWins | code/raft_election_sim/raft.go:158-218 | a node of a term no reachable peer exceeds, when it is not cut off itself, wins its election exactly when the nodes in reach, itself included, are more than half of all |
| RaftElections.SweptByElection | code/raft_election_sim/raft.go:119-147 | an election begun by one more expired timer keeps what holds of the pass over the timers: those passed are not expired, and a stable leader is undisturbed |
| RaftCluster.Cluster.RequestVote | code/raft_election_sim/raft.go:198-218 | the voter object changes exactly as the atomic vote step says, and only a granted vote resets its timer |
| RaftCluster.Cluster.StartElection | code/raft_election_sim/raft.go:158-194 | the loop over node objects is a run of the atomic sections, over and on record in a term of its own: the node leads at the end exactly when it and the reachable peers free to vote for it are more than half of all nodes, every reachable node has been asked, a cut-off node stays candidate and changes no other, and no timer that had not run out is shortened past now |
| RaftCluster.Cluster.SendHeartbeats | code/raft_election_sim/raft.go:221-255 | every reachable node hears the round: one in a term not above the sender's becomes its follower with a new timer, one in a later term is left alone, and the sender steps down to the newest term it met; the stable leader's round keeps every other quiet for the minimum timeout, and no round unseats a leader no reachable node outranks |
| RaftCluster.Cluster.Step | code/raft_election_sim/raft.go:119-147 | one tick is a run of the atomic sections; afterwards no timer is left expired and every election begun is over; a stable leader still leads in its term |
| RaftCluster.Cluster.LeadersByTerm | code/raft_election_sim/raft.go:296-307 | the groups are exactly the terms of current leaders, and each group has exactly one |
| RaftCluster.Cluster.RunUntilLeader | code/raft_election_sim/raft.go:324-332 | true only with the one node that leads; false only after the whole budget of ticks; a stable leader survives all of it |
| SkipList.TallerInserted | code/lsm_memtable/lsm.go:79-110 | putting a node in its place in the full order puts it in its place in exactly the levels below its height |
| SkipList.Memtable.Insert | code/lsm_memtable/lsm.go:79-110 | the linked levels stay sub-lists of one strictly ascending order, the counts stay right, and the contents become the old map with the cell set, for any height drawn |
| SkipList.Memtable.Get | code/lsm_memtable/lsm.go:115-132 | the search from the top level answers value, tombstone or nothing exactly as the contents do |
| SkipList.Memtable.Entries | code/lsm_memtable/lsm.go:138-147 | level 0 lists exactly the contents, strictly ascending |
| SSTable.RecordReadsBack | code/lsm_memtable/lsm.go:227-273 | a record reads back, with the scan standing right after it, exactly when the sum of its two lengths fits 32 bits |
| SSTable.RecordBytes | code/lsm_memtable/lsm.go:179-224 | a record is the two lengths in four bytes each, the tombstone byte, the key and the value |
| SSTable.Write | code/lsm_memtable/lsm.go:179-224 | the file is the records' bytes in order, and the sparse index has the key and offset of every sixteenth |
| SSTable.Get | code/lsm_memtable/lsm.go:227-273 | range check, binary search of the sparse index and a scan of one interval answer exactly as the part of the run that can be read: a record whose bytes a failing read cuts off counts as absent; a file that cannot be opened fails, unless the key is out of range |
| LSMTree.Store.Put | code/lsm_memtable/lsm.go:308-313 | whatever the lengths, the map a user sees has the key set even when the flush this sets off fails; the newest layer stays in memory or becomes a run; a store of records that fit 32 bits stays one when this record does; on success the memtable is below the threshold or empty |
| LSMTree.Store.Delete | code/lsm_memtable/lsm.go:315-320 | the key is gone for the user though older runs may hold it, with the same on layers, flushes and lengths |
| LSMTree.Store.Flush | code/lsm_memtable/lsm.go:329-349 | a flush never changes what the user sees, succeeds exactly if nothing fails or there is nothing to write, and on failure leaves memtable and runs as they were; the layers are the old ones, with the memtable as one more run if it was written |
| LSMTree.Store.Get | code/lsm_memtable/lsm.go:351-369 | when all records fit 32 bits: the answer of the newest layer that knows the key, each run taken as far as it can be read, unless a run that must be asked before cannot be opened; it is the plain map's answer when no run hides the key behind a failing read |
| LSMTree.Store.HiddenIsStale | code/lsm_memtable/lsm.go:249-269 | when the newest run that knows a key cannot be read up to its record, the answer is that of the older runs |
| LSMTree.StaleRead | code/lsm_memtable/lsm.go:249-258 | after two flushed writes of one key, a read of the newer file that fails gives the older value, as found and without an error |
| LSMTree.RunAll | code/lsm_memtable/lsm.go:295-369 | after any sequence of puts, deletes and flushes, of any lengths and failing anywhere, the store agrees with the plain map of the puts and deletes; if every record fits 32 bits, all of it can be read back |
| LFUModel.OnlyOneIsColdest | code/lfu_cache/lfu.go:118-129 | the key that an eviction must take, used least and among those longest ago, is unique |
| LFUModel.PutFits | code/lfu_cache/lfu.go:74-90 | a put never takes the cache above its capacity |
| LFUModel.PutLaw | code/lfu_cache/lfu.go:74-129 | after a put the key has exactly the value put, a use count one up if it was there and 1 if not, and is the latest used; every other key is as it was, and one key goes exactly when the key is new and the cache full: one used no more than any other, and longest ago among those used as often |
| LFUModel.GetLaw | code/lfu_cache/lfu.go:65-116 | a get changes the key it asks for alone: the same value, used once more, and latest |
| LFUModel.RunsKeepTheLastValue | code/lfu_cache/lfu.go:65-90 | in every run of puts and gets a key that is there holds the value of the last put of it |
| LFUModel.RunsCountUses | code/lfu_cache/lfu.go:95-129 | in every run a key that came in and stayed has as its frequency the number of calls since that put it or found it |
| LFUCache.Cache.Get | code/lfu_cache/lfu.go:65-72 | the value if the key is there; that key is then used once more, and no other key, value or count changes |
| LFUCache.Cache.Put | code/lfu_cache/lfu.go:74-90 | the key is there with exactly the value put, used once more than before or once if it is new; every other key keeps value and count, save one coldest key that goes exactly when the key is new and the cache full |
| LFUCache.Cache.MakeRoom | code/lfu_cache/lfu.go:118-129 | the tail of the first bucket is the model's victim, and taking it out leaves a well-formed ring of buckets |
| LFUCache.Cache.Freq | code/lfu_cache/lfu.go:95-101 | the frequency of a key's bucket is how often the key was used since it came in |
| VectorClocks.Merge | code/vector_clock/clock.go:70-78 | the result counts for every node the greater of the two counts |
| VectorClocks.Compare | code/vector_clock/clock.go:81-113 | the four outcomes are exactly those of the pointwise order in both directions, absent nodes counting 0 |
| VectorClocks.Replica.Write | code/vector_clock/clock.go:159-166 | one version is left, with the value written; its clock is the least upper bound of all held, one up at the writer |
| VectorClocks.Replica.Receive | code/vector_clock/clock.go:170-184 | a covered version changes nothing; any other is added after the ones concurrent with it, and the ones it covers go |
| CausalRuns.RunsKeepInv | code/vector_clock/clock.go:159-184 | every run of writes and deliveries at any replicas keeps clocks exact: a clock counts exactly the writes in the causal past |
| CausalRuns.RunsOrderByCausality | code/vector_clock/clock.go:81-113 | in every run clocks compare Before, Equal or Concurrent exactly as the writes' causal pasts do |
| CausalRuns.RunsHoldTheMaximal | code/vector_clock/clock.go:170-184 | in every run a replica holds exactly the versions it has seen that are in the past of nothing it has seen: no update is lost and nothing superseded stays |
| CausalRuns.WriteIsLogged | code/vector_clock/clock.go:159-166 | a write adds one event to the history, with its value and its writer; the writer then holds that version alone, and no other replica changes |
| CausalRuns.RunsHoldWhatWasWritten | code/vector_clock/clock.go:159-184 | in every run a version held, value and clock, is that of a write the replica has seen |
| CausalRuns.RunsConverge | code/vector_clock/clock.go:170-184 | in every run two replicas that saw the same writes, in whatever order and however often, hold the same siblings |
| Wire.ConsumeVarint | code/grpc_example/wire.go:79-94 | the loop of shifts reads the payload of the seven-bit groups modulo 2^64, and fails exactly when no last byte comes or more than ten bytes do |
| Wire.VarintRoundTrip | code/grpc_example/wire.go:70-94 | every 64-bit number reads back whatever follows it, with exactly the bytes written consumed |
| Wire.VarintGroups | code/grpc_example/wire.go:70-76 | byte i is the i-th group of seven bits of the number from the low end, with 128 added on all but the last, and the last leaves nothing over |
| Wire.VarintExamples | code/grpc_example/wire.go:70-76 | the bytes of 0, 1, 127, 128, 150 and 300 |
| Wire.WidestVarint | code/grpc_example/wire.go:70-76 | the greatest 64-bit number takes ten bytes, nine of 255 and a 1 |
| Wire.VarintVerdict | code/grpc_example/wire.go:79-94 | a number is read exactly when one of the first ten bytes is below 128; input of at most ten bytes that all go on is truncated, and of more, the first ten going on, an overflow |
| Wire.VarintSizeIsLength | code/grpc_example/wire.go:97-102 | the size computed from the bit length is the number of bytes written |
| OrderWire.EncodeDecode | code/grpc_example/wire.go:237-310 | an order written and read again loses its empty tags and nothing else: zero fields, negative numbers and unknown fields come back |
| OrderWire.ReadsBackWhole | code/grpc_example/wire.go:237-310 | an order reads back equal to itself exactly when it has no empty tag |
| OrderWire.AcceptedRoundTrip | code/grpc_example/wire.go:249-310 | for whatever bytes are accepted, writing the result and reading it again keeps the unknown fields byte for byte and gives the order back but for empty tags |
| OrderWire.RoundTripIsStable | code/grpc_example/wire.go:237-310 | writing once makes the bytes canonical: reading and writing them again changes nothing |
| OrderWire.DecodeNumber | code/grpc_example/wire.go:125-131 | a number field, written or left out as zero, is read into its own field and no other, sign included |
| OrderWire.NextFieldLocal | code/grpc_example/wire.go:152-190 | a field is parsed from its own bytes alone, whatever follows them |
| OrderWire.OrderBytes | code/grpc_example/wire.go:237-247 | an order is written as, for each field that is not zero or empty and in this order, the byte 8, 18, 24 or 32 with the varint or the length and bytes, then the tags and the unknown bytes |
| OrderWire.TagBytes | code/grpc_example/wire.go:133-140 | each tag that is not empty is written as the byte 42, its length and its bytes, in order |
| OrderWire.MessageExample | code/grpc_example/wire.go:237-247 | the ten bytes of one order, and the eleven of an amount of -1 |
| OrderWire.ReadsNumbers | code/grpc_example/wire.go:249-310 | the byte 8, 24 or 32 and a varint set id, amount or status, from 2^63 on as negative, wherever they stand in a message |
| OrderWire.ReadsTexts | code/grpc_example/wire.go:249-310 | the byte 18 with length and bytes sets the customer, 42 adds a tag, wherever they stand |
| OrderWire.SkipLengths | code/grpc_example/wire.go:169-190 | skipping takes one varint at wire type 0, 8 bytes at 1, a length and its bytes at 2 and 4 bytes at 5, is truncated by less, and refuses every other type |
| OrderWire.ReadsUnknown | code/grpc_example/wire.go:249-310 | a field of any other number, or of a known number with another wire type, is kept byte for byte and changes nothing else |
| OrderWire.RefusesWireTypes | code/grpc_example/wire.go:169-190 | a field of wire type 3, 4, 6 or 7 stops the reading with an error, at the fields read before it |
| OrderWire.Message.Marshal | code/grpc_example/wire.go:237-247 | the object is written byte for byte as in `OrderBytes`, which is the `Encode` of its value |
| OrderWire.Message.Unmarshal | code/grpc_example/wire.go:249-310 | the object and the outcome are those of `Decode`, with the fields read before an error left in place |
| MinHeap.Push | code/external_merge_sort/sort.go:181-185 | sifting up restores the heap order and adds exactly the new item |
| MinHeap.Pop | code/external_merge_sort/sort.go:181-185 | the item taken is a least one, and sifting down restores the order of exactly the rest |
| ExternalSort.MergeRuns | code/external_merge_sort/sort.go:191-241 | the k-way merge of ascending runs is ascending and has exactly all their numbers |
| ExternalSort.SplitIntoSortedRuns | code/external_merge_sort/sort.go:119-171 | the runs are ascending, non-empty, of at most one buffer each, hold the input between them, and are as few as that allows |
| ExternalSort.RunsNeeded | code/external_merge_sort/sort.go:119-171 | the number of runs is the number of buffers the input fills, rounded up; a buffer of 0 gives a run a number |
| ExternalSort.MergeAll | code/external_merge_sort/sort.go:77-111 | the passes, whose file names never clash with a file still to be read, leave one file, the output, with all the numbers, and drop exactly the run files and the files of every pass |
| ExternalSort.MergePass | code/external_merge_sort/sort.go:82-104 | a pass of any width from one on leaves as many ascending files as there are groups, with all the numbers between them, and touches no other file |
| ExternalSort.Sort | code/external_merge_sort/sort.go:61-116 | the output file holds the sorted input; every other file is as it was, but that those named like one of the temporary files are gone, whichever they were; runs and passes are counted exactly |
| CeilLogs.PassesAreLeast | code/external_merge_sort/sort.go:77-107 | the number of passes is the least p with width^p at least the number of runs |
| CeilLogs.PassesShrink | code/external_merge_sort/sort.go:82-107 | a pass over two files or more leaves fewer of them exactly when the merge width is two at least |
| CeilLogs.EndsExactly | code/external_merge_sort/sort.go:77-107 | from two runs or more, with a width of one at least, the passes come down to a single file exactly when the width is two at least; with one, every number of passes leaves as many files as there were |
| WAL.FillRecord | code/wal/wal.go:92-115 | filling the buffer field by field, the checksum last, gives the record's encoding |
| WAL.RecordBytes | code/wal/wal.go:92-115 | where each field of a record stands and in which byte order: checksum of the rest, number, operation, the two lengths, key and value |
| WAL.WholeRecordReads | code/wal/wal.go:165-217 | a whole record of readable lengths is read back, whatever follows it |
| WAL.TornRecordStops | code/wal/wal.go:165-217 | a record cut short anywhere is not read, whatever the checksum function |
| WAL.CutLogReadsWholeRecords | code/wal/wal.go:165-217 | a log cut at any byte gives back exactly the records lying wholly before the cut |
| WAL.IntactLogReadsBack | code/wal/wal.go:165-217 | a log reads back in full exactly when every record's lengths are at most 2^24 and its number fits 64 bits |
| WAL.AppendingLosesNothing | code/wal/wal.go:62-82 | whatever bytes a file holds, records readable before an append are readable after it |
| WAL.AppendedAreRead | code/wal/wal.go:62-115 | records appended to a file without a torn tail are read after those it had |
| WAL.AppendsReadExactly | code/wal/wal.go:62-115 | for any checksum: the record that the next append makes, with its own next number, is read after what the file had for all keys and values of at most 2^24 bytes, exactly when nothing stands after the file's last readable record |
| WAL.TornTailHides | code/wal/wal.go:62-82 | with any checksum, after a file of one stray byte the first record put, here with the key [0, 1], is not read as it was written |
| WAL.Writer.Append | code/wal/wal.go:92-115 | on any file the log was opened on: the record gets the next number; file and buffer together are what the file held and the log since; what was on file stays, and in synchronous mode the whole log is on file |
| WAL.Recover | code/wal/wal.go:220-237 | a key has the value of its last put when no put or delete of it comes later in the records read, and is absent otherwise; the number is the last record's, 0 without one |
| WAL.ReplayedRecalls | code/wal/wal.go:220-237 | the same of any sequence of records |
| WAL.CutRecovers | code/wal/wal.go:165-237 | a log of readable records cut anywhere gives the whole records before the cut, which have everything synced, and the state that these records' puts and deletes leave |
| WAL.Writer.CrashRecovers | code/wal/wal.go:120-131 | on a log opened on a file without a torn tail: after a crash that keeps the synced part and any further bytes, recovery sees exactly a prefix of all records, old and new, that has everything synced, and the state of each key is what the last put or delete of it in that prefix says |
| Merkle.EqualHashesSameData | code/merkle_tree/merkle.go:114-141 | without a collision among the inputs hashed, and when no key of one side followed by the separator begins a key of the other, subtrees of any shapes with equal hashes have the same keys and values, so skipping them is safe |
| Merkle.SameShapeSameData | code/merkle_tree/merkle.go:114-141 | subtrees of one shape over the same keys need no condition on the keys for that |
| Merkle.Build | code/merkle_tree/merkle.go:58-94 | the tree's leaves are exactly the map's keys in order, paired up level by level with an odd node promoted, whatever order the map gives its keys |
| Merkle.Diff | code/merkle_tree/merkle.go:107-156 | the result lists, ascending and each once, the keys that the walk reports, empty trees included |
| Merkle.DiffMissesNothing | code/merkle_tree/merkle.go:105-156 | for any two maps no key of which, followed by the separator, begins a key of the other, and whatever their trees' shapes, every key that differs or is on one side only is reported |
| Merkle.MissesNothingExactly | code/merkle_tree/merkle.go:35-45 | for every hash of 32 bytes: two sides are told apart whatever the values of their keys exactly when no key of one, followed by the separator byte, begins a key of the other |
| Merkle.DiffIsExactOnSameKeys | code/merkle_tree/merkle.go:105-181 | on the same n keys, whatever bytes they hold, exactly the d differing ones are reported, for at most 1 + 2 d ceil(log2 n) comparisons |
| Merkle.CompareCost | code/merkle_tree/merkle.go:160-181 | the counter is the number of node pairs compared, which the bound is about; by `CostCountsComparisons` these are counted one by one |
| Merkle.CostCountsComparisons | code/merkle_tree/merkle.go:160-181 | the cost is the number of paths from the root at which the walk meets two nodes: every pair above has differing hashes and two children on both sides |
| Merkle.RootOfOne | code/merkle_tree/merkle.go:35-45 | one pair hashes as the byte 0, the key, the separator 31 and the value |
| Merkle.RootOfTwo | code/merkle_tree/merkle.go:47-94 | two pairs hash as the byte 1 and the hashes of the two leaves, the smaller key first |
| Merkle.RootOfThree | code/merkle_tree/merkle.go:58-94 | of three pairs the first two are paired and the third is taken up as it is |
| Ring.HashRing.Add | code/consistent_hashing/ring.go:44-55 | a clean ring stays clean exactly when the new positions are free; where none is taken, every key's order of owners is the old one with the new node put in |
| Ring.HashRing.Remove | code/consistent_hashing/ring.go:57-71 | a clean ring stays clean, and every key's order of owners is the old one without the node |
| Ring.HashRing.AddThenRemove | code/consistent_hashing/ring.go:44-71 | adding a node and removing it restores the ring exactly when none of its positions was taken and, unless its name is empty, none occurs twice |
| Ring.RemovalRestores | code/consistent_hashing/ring.go:44-71 | the same, as a statement about positions and owners |
| Ring.MeetingLabelsLose | code/consistent_hashing/ring.go:57-71 | with two labels at one position, adding and removing the second node takes the first one's position away |
| Ring.HashRing.Get | code/consistent_hashing/ring.go:74-84 | the owner found by binary search is that of the nearest position going up from the key's hash, past the end the smallest one, and the first of the key's order; in a clean ring one is found exactly when there are nodes |
| Ring.HashRing.GetN | code/consistent_hashing/ring.go:88-108 | the first n nodes of the key's order, and in a clean ring exactly n different ones or all there are |
| Ring.OrderIsByDistance | code/consistent_hashing/ring.go:88-108 | of two nodes in a key's order the earlier one has a position that is nearer, going up and round from the key's hash, than every position of the later one |
| Ring.AddedAnswers | code/consistent_hashing/ring.go:44-108 | the first n owners of any key after an addition are, without the new node, the beginning of its first n before |
| Ring.OrderHasAll | code/consistent_hashing/ring.go:88-108 | in a clean ring every key's order has every node exactly once |
| Geohash.Encode | code/geohash/geohash.go:45-86 | the hash has the length asked, one character at least, and its bits are those of the point's halvings, longitude first |
| Geohash.Alphabet | code/geohash/geohash.go:22-30 | the 32 characters and their values: the digits and the small letters without a, i, l and o |
| Geohash.EncodingExample | code/geohash/geohash.go:45-86 | the points from 45 degrees north and from 0 to 45 degrees east have the hash `u` |
| Geohash.Decode | code/geohash/geohash.go:90-120 | the cell of the hash's bits, or an error exactly when a character is not of the alphabet |
| Geohash.PointAxes | code/geohash/geohash.go:56-80 | the interleaved halvings are two independent ones, a longitude's and a latitude's |
| Geohash.PointInItsBox | code/geohash/geohash.go:45-120 | every point of the world lies in the cell of its hash, at every precision |
| Geohash.CenterEncodesBack | code/geohash/geohash.go:37-86 | encoding the centre of a hash's cell at the hash's length gives the hash back |
| Geohash.Neighbors | code/geohash/geohash.go:137-157 | for a hash of any length the eight cells one step away in rows and columns, rows stopping at the poles and columns going round; for the empty hash the steps from the centre of the world |
| Geohash.OffsetsInOrder | code/geohash/geohash.go:147-152 | the eight steps in the order they are taken, from the row above, west to east, to the row below |
| Geohash.NeighbourBoxIsAdjacent | code/geohash/geohash.go:137-157 | each neighbour's box has the cell's size and is the cell's moved by whole cells: past a pole not moved north or south, past the antimeridian one turn of the globe away |
| Geohash.EightDistinct | code/geohash/geohash.go:137-157 | the eight differ from each other exactly when the cell touches no pole, and exactly then the cell itself is not among them |
| Geohash.SearchArea | code/geohash/geohash.go:162-168 | the cell of the point and then its neighbours |
| Geohash.AreaCovers | code/geohash/geohash.go:160-168 | of the points within one cell's size of the query, around the globe and at the poles, the area has exactly those not at the seam of the antimeridian |
| Geohash.SeamIsMissed | code/geohash/geohash.go:155-168 | the area around (0, 180) at one character misses the cell of (0, -135), which is one cell's width away |
| Outbox.System.Commit | code/outbox_pattern/outbox.go:95-117 | all the orders and events of a transaction or nothing at all, with consecutive numbers; paired transactions leave no order without its event and no event without its order |
| Outbox.System.UnpublishedEvents | code/outbox_pattern/outbox.go:136-151 | whatever order the table gives its rows, the events that are not marked, each once, ascending and without a gap, as many as the limit allows |
| Outbox.System.RunOnce | code/outbox_pattern/outbox.go:236-254 | with commits before every turn and between publish and mark, the broker gets exactly the due events up to the first turn that goes wrong, in order, and marks and attempts are accounted for |
| Outbox.System.RunUntilDrained | code/outbox_pattern/outbox.go:257-270 | what the broker has only grows; events are left over only after a turn that went wrong or when the rounds ran out |
| Outbox.System.AtLeastOnceInOrder | code/outbox_pattern/outbox.go:224-254 | at every moment whatever is marked is with the broker and whatever the broker has was committed |
| Outbox.StaircaseAscends | code/outbox_pattern/outbox.go:224-254 | what the broker has received is in ascending order, with repetitions side by side |
| Idempotency.ClaimKeepsInv | code/idempotency_keys/idempotency.go:114-156 | a claim keeps one handler at a time for each key exactly when it does not find the record of a running handler expired, whatever the two readings of the clock |
| Idempotency.PurgeKeepsInv | code/idempotency_keys/idempotency.go:198-210 | a purge does so exactly when no record it removes has a handler running |
| Idempotency.FinishKeepsInv | code/idempotency_keys/idempotency.go:161-178 | the end of a handler finds its record and is the first success of its key; a success is answered with the handler's reply and kept as the key's, an error with an error and nothing kept |
| Idempotency.RunsOnce | code/idempotency_keys/idempotency.go:108-179 | in any run, once a claim of a key has run its handler no other claim of that key does, with the same body or another, until a handler for the key fails or its record is dropped |
| Idempotency.RunsAgainExactly | code/idempotency_keys/idempotency.go:108-179 | the first claim after one that ran, with the same body and the record not dropped, runs a handler exactly when one for the key has failed in between |
| Idempotency.FailureRunsAgain | code/idempotency_keys/idempotency.go:144-147 | after a handler that failed, the next claim with the same body runs one again, with no record expired |
| Idempotency.RunsKeepInv | code/idempotency_keys/idempotency.go:109-210 | in any run of interleaved calls and purges the invariant, with one handler a key, holds up to any point exactly when no handler's record was met expired before it |
| Idempotency.OneSuccessPerKey | code/idempotency_keys/idempotency.go:108-179 | in such a run a key succeeds at most once between two droppings of its record |
| Idempotency.LaterCallsReplay | code/idempotency_keys/idempotency.go:124-143 | after a success in such a run, until its record is dropped, every call with the same body is answered with that very response and any other body is refused, and neither changes anything |
| Idempotency.OtherBodyNeverRuns | code/idempotency_keys/idempotency.go:124-127 | from the claim of a key until its record is dropped, running, failed or completed, no call with another body runs |
| Idempotency.DuplicatesAreRefused | code/idempotency_keys/idempotency.go:124-132 | while a handler for a key runs in such a run, any other call with the key is refused and changes nothing: as in progress with the same body, as a mismatch with another |
| Idempotency.RecordsLiveTheirTime | code/idempotency_keys/idempotency.go:109-183 | a record counts until its lifetime has passed since the claim, for ever with a lifetime of 0 or less; a claim without a key is refused; a claim after a failure dates the record anew |
| Idempotency.NeverExpiringIsSafe | code/idempotency_keys/idempotency.go:181-183 | in a run that never finds a record expired all of this holds without conditions |
| Idempotency.ExpiryStartsASecond | code/idempotency_keys/idempotency.go:114-121 | with a lifetime of 1, a handler begun at 0 is joined at 2 by a second one for its key |
| Idempotency.Store.ClaimKey | code/idempotency_keys/idempotency.go:109-156 | the first locked section is the claim step, branch by branch |
| Idempotency.Store.RecordOutcome | code/idempotency_keys/idempotency.go:161-178 | the second locked section is the finish step |
| Idempotency.Store.Purge | code/idempotency_keys/idempotency.go:198-210 | exactly the records whose lifetime has passed go, and their number is returned |

## Findings

Properties that the code's comments promise or suggest and that do not hold for every
input. Each is proved with its exact condition.

| source | what fails | shown by |
|---|---|---|
| code/geohash/geohash.go:155-161 | `SearchArea` is described as the set to scan for a correct proximity query. A query at longitude +180 falls in the last column though it is also the west edge of the first, so a point exactly one cell's width east of it is two columns on and is missed, and the same the other way round. `Geohash.SeamIsMissed` is the input; `AtSeam` is the exact condition. | `Geohash.AreaCovers` |
| code/geohash/geohash.go:132-157 | "the eight surrounding cells" are eight different ones exactly away from the poles; in a polar row three of them fall on the cell itself or its row neighbours. | `Geohash.EightDistinct` |
| code/consistent_hashing/ring.go:44-71 | removing a node just added does not restore the ring when one of its positions was taken, since `owners` has one owner a position; `Ring.MeetingLabelsLose` is the input. | `Ring.RemovalRestores` |
| code/wal/wal.go:62-82 | reopening a log keeps a torn tail, and the next recovery does not read on after it, so records appended and synced since can be lost. `WAL.TornTailHides` is the input, for every checksum. | `WAL.AppendsReadExactly` |
| code/wal/wal.go:185-217 | `Append` accepts keys and values longer than 2^24 bytes, and recovery takes such a record, and all after it, for a corrupt tail. | `WAL.IntactLogReadsBack` |
| code/lsm_memtable/lsm.go:179-273 | the lengths of a key and its value are written and added in 32 bits; a record whose sum does not fit is not read back. | `SSTable.RecordReadsBack` |
| code/grpc_example/wire.go:133-140 | an empty element of the repeated field is not written, so an order with an empty tag does not read back equal to itself. | `OrderWire.ReadsBackWhole` |
| code/external_merge_sort/sort.go:77-107 | with a merge width of one every pass leaves as many files as before, so the sort of two runs or more never ends. | `CeilLogs.EndsExactly` |
| code/merkle_tree/merkle.go:35-45 | a leaf hashes key and value with one separator byte between them, so on two sides with different keys a key that contains the separator can hash like a shorter key with a longer value, and the difference is missed, whatever the hash. On the same keys it cannot (`Merkle.DiffIsExactOnSameKeys`). | `Merkle.MissesNothingExactly` |
| code/idempotency_keys/idempotency.go:108-121 | "one handler at a time": when a record expires while its handler runs, the next claim starts a second handler beside it. `Idempotency.ExpiryStartsASecond` is the input. | `Idempotency.ClaimKeepsInv` |
| code/idempotency_keys/idempotency.go:108-147 | "runs handler at most once for the given key" also fails after a handler's error, which makes the next claim with the same body run it again (`Idempotency.FailureRunsAgain`), and after the record was dropped. `Idempotency.RunsOnce` has the promise over every run without either. | `Idempotency.RunsAgainExactly` |
| code/lsm_memtable/lsm.go:249-258 | an error while reading an open file is taken for its end, so a key whose record lies behind it counts as absent and an older run's value is returned without an error. `LSMTree.StaleRead` is the input; the answer is right when no run hides the key. | `LSMTree.Store.Get` |

## Left out

- ExternalSort.Sort: takes a merge width of two at least when there is more than one run, because with one the passes never end (`CeilLogs.EndsExactly`) and with none a pass does not; the chunk size is not negative, and the output is not named like a temporary file, which the program would remove at the end.
- WAL.Writer.Append: takes logs with fewer than 2^64 records, where the numbering would wrap around.
- LSMTree.Store.Get: says nothing of a store that holds a record whose lengths do not fit 32 bits, because what its bytes are then read as is arbitrary (`SSTable.RecordReadsBack`).
- OrderWire.Message.Marshal: takes strings shorter than 2^64 bytes.
- LFUCache.Cache.MakeRoom: the branch for an empty ring is left out, because the constructor refuses a capacity of 0 and an eviction happens only when the cache is full.
- Raft: time is counted in units of the tick and timer lengths are any within the two bounds; node ids are 0 to n-1; the event log text. Liveness is stated for elections that are not interrupted; that randomised timers end a split vote is a statement about probabilities.
- B+ tree: the order is the constant 4, as in the program.
- Vector clocks: counts do not wrap around at 2^64; `Copy` and the text form.
- LSM: files are named by the flush counter; there is no reopening from disk in the program.
- LFU: the sentinel of the ring has an item list here that is never used, where the program leaves it nil.
- Wire format: `|=` and `<<` on bits that do not overlap are written `+` and `*`; ZigZag, `Describe` and the fixed-width appenders, none of which the order message uses.
- External sort: parsing and printing of numbers, failures of reading and writing, and the in-memory sort of one buffer, which is the specification `Sorted`.
- Write-ahead log: failures of writing and syncing; that numbering starts again after a truncated log is reopened is what `WAL.Writer.constructor` says, and nothing is claimed across it.
- Merkle tree, log checksum, ring positions: the hash functions are parameters, with "no collision" asked only among the inputs that two trees actually hash.
- Outbox: one relay; payloads, event types and times; errors are values, not texts.
- Idempotency: the handler's own effects; fingerprints stand for bodies, so two bodies with one fingerprint are one.
- Geohash: exact arithmetic in place of floating point; `Haversine` and `CommonPrefix`.
- The other programs (snowflake ids, rate limiters, circuit breaker, worker pipeline, bulkhead, retry, LRU cache, bloom filter, count-min sketch, HyperLogLog, the order service and RPC plumbing) are left out: they would add easier members, statistics, or scheduling.
