# A verified model of the proxy, its hash table and its lists

The repository is a user-level network proxy. It keeps a membership list of link-state
records and a forwarding table from MAC addresses to sockets, exchanges link-state packets
with its peers, and rests on two macro headers: `uthash.h`, a chained hash table whose items
are also an ordered list, and `utlist.h`, linked lists with an in-place merge sort. The Dafny
files model the four parts and prove what they promise.

* **Lists and sorts** (`Elements`, `Lists`, `MergeSort`, `ListSort`). The list macros work on
  heap nodes, one method per macro. The four sorts expand one text and share one set of
  methods; `wrap` is the pointer that ends the input and `doubly` says whether `prev` is kept.
  They are proved equal to a merge sort on sequences, which is proved sorted, stable and a
  permutation, with its number of passes.
* **Hash table** (`Arith`, `HashModel`, `HashRuns`, `Buckets`, `Linking`, `Expansion`, `Fsck`,
  `HashTable`, `Bloom`, `FilteredTable`, `Jenkins`). `HashModel` says what each macro does to a
  table value, `HashRuns` what whole runs keep, for any hash function; `HashTable` is the
  pointer code proved against the model. `FilteredTable` is the table with the Bloom filter
  compiled in. `Jenkins` is the default hash.
* **Wire format** (`Wire`, `Packets`). Encoders and decoders on bytes, and the code that writes
  into a buffer by offset and builds linked nodes from one, on hosts of either byte order.
* **Membership** (`Membership`, `MembershipRuns`, `Expiry`, `MemberLoop`, `Gateways`,
  `PacketRuns`, `Lives`, `Neighbours`, `Exchanges`, `MemberList`, `SocketTable`, `Proxy`). Each received record, handshake, deletion
  and sweep is one step on a value. `MembershipRuns` is about runs of steps, `Gateways` about the
  sockets of the table, `MemberLoop` about the loop of `add_members`, which strays from the
  packet into the membership list and may never end, `PacketRuns` about whole packets as steps,
  `Lives` about sequences of packets and timeouts, `Neighbours` about how far such a sequence
  goes, with particular ones, and `Exchanges` about what proxies make of each other's packets
  and how a neighbour stays one. `MemberList` is the linked list on heap nodes, `SocketTable` is `socketfds`, the hash
  table on the truncated MAC, proved to be a map, and `Proxy` is the code that keeps the two
  together.

Three things the repository sets out to do fail on inputs it should handle, and the exact
condition is proved for each. The loop of `add_members` follows a `next` pointer it has just
overwritten (`MemberLoop.AddMembersExact`); where every machine has an address of its own, the
first packet it looks at that has a record of any other machine is one the proxy never returns
from (`Neighbours.ReportsEndLives`, `Neighbours.FirstReportNeverEnds`). A sweep can leave a saved
record without a socket (`Gateways.SweepServes`, `Gateways.SweepKeepsBest`, with
`Neighbours.LifeLosesSocket` as the input). A membership packet is understood only while its
length field stands for its records (`MembershipRuns.AdvertUnderstood`, `Wire.PaddedRoundTrip`,
with `Neighbours.SecondNeighbourMisread` as the input).

Where code and comments differ the model follows the code. The comments at
`cs352proxy.c:635` and `cs352proxy.c:681` describe the two handshake branches the other way
round from their tests, because `comp_mac_zero` answers non-zero for the all-zero MAC. The
comment at `uthash.h:884-886` has a chain exceed the threshold before expansion; the code
expands when the threshold is reached.

What the proofs ask of callers is what the code needs: a handle is added only when it is not
in the table and deleted only when it is; results about keys ask in addition that a key is
added after a find has missed it, as the proxy does; a sort is asked to compare by a total
preorder only where sortedness and stability are concluded.

## Model

| member | source | states |
|---|---|---|
| `HashModel.InsertKeeps` | uthash.h:173-193 | an add up to the expansion test leaves every item in exactly the chain its hash selects, once, and the counts adding up; the first add makes the table |
| `HashModel.DeleteKeeps` | uthash.h:215-248 | after a delete the table is again a partition of the remaining items, which keep their order |
| `HashModel.RemoveFacts` | uthash.h:625-635 | deleting takes out exactly the one element: every other member stays, the length falls by one, nothing becomes doubled |
| `HashModel.FindInMeaning` | uthash.h:597-608 | null means that no element of the chain has the key; otherwise the answer is a member and has it |
| `HashModel.SplitIsReversedSelection` | uthash.h:681-699 | the new chain an old chain contributes to is the reverse of the matching subsequence of the old one |
| `HashModel.SplitLengths` | uthash.h:666-701 | old chain i splits into new chains i and i + num_buckets and nothing else: their lengths add up to its length |
| `HashModel.SplitAllPartition` | uthash.h:666-712 | the doubled table is a partition of the same items: expansion loses and duplicates nothing |
| `HashModel.SplitAllTotal` | uthash.h:666-712 | the chain lengths of the doubled table still add up to the same total |
| `HashModel.AddKeeps` | uthash.h:173-196 | the whole add, expansion included, keeps the invariant and appends the item in application order |
| `HashModel.Rearranged` | uthash.h:719-804 | chains do not depend on application order: any permutation of the items leaves a valid table |
| `HashModel.BucketIsResidue` | uthash.h:198-201 | an item belongs to the bucket that its hash is modulo the bucket count |
| `HashModel.AddExpandsExactly` | uthash.h:618-620 | an add to a table doubles its buckets if and only if noexpand is 0 and the chain of the item has reached ten times expand_mult plus one |
| `HashModel.FirstAdd` | uthash.h:141-158 | the first item gets 32 buckets, is in the one of its hash, and every statistic is zero |
| `HashModel.NonIdealCounts` | uthash.h:688-690 | nonideal_items counts the items beyond the ideal length: with those up to it, chain by chain, they are all items |
| `HashModel.NoneBeyond` | uthash.h:688-690 | it is zero if and only if no chain is longer than the ideal length |
| `HashModel.MultIsQuotient` | uthash.h:691-692 | expand_mult is the number of whole ideal lengths in a chain longer than one, and zero in any other |
| `HashRuns.Run` | uthash.h:160-248 | after every legal run of adds and deletes from the empty table the invariant holds and the items are those of the plain list, in insertion order |
| `HashRuns.RunIsMap` | uthash.h:94-105 | over every run that adds absent keys a find returns what the finite map built by the run holds for the key, or null |
| `HashRuns.FindAgrees` | uthash.h:597-608 | looking in the one chain the hash selects finds what looking through all items would find |
| `HashRuns.KeysStayUnique` | uthash.h:160-248 | if keys are added only after a find missed them, no two live items ever share a key |
| `HashRuns.ListIsMap` | uthash.h:94-105 | the list with its first match is the same as the map, key by key, after every run |
| `HashRuns.ReplaceMeaning` | uthash.h:163-171 | HASH_REPLACE takes out what held the key wherever it stood, appends the new item, and is one update of the map |
| `HashRuns.ExpandKeepsFinds` | uthash.h:666-712 | doubling the buckets changes neither the application order nor the result of any find |
| `HashRuns.Statistics` | uthash.h:702-710 | over every run the bucket count is 32 doubled once per expansion, ineff_expands the current streak of ineffective expansions, and noexpand is set by the first streak of two |
| `HashRuns.ExpandsExactly` | uthash.h:618-620 | over every run: the first add makes 32 buckets, an add doubles their number exactly when its chain is due and noexpand is 0, and nothing else changes it |
| `HashRuns.IneffectiveExactly` | uthash.h:677-710 | over every run: the ideal length of an expansion is the least one with which all items would fit, and the expansion counts as ineffective exactly when fewer than half of the items, rounded up, are within it |
| `HashRuns.FrozenUntilFreed` | uthash.h:618-620 | once noexpand is set the bucket count never changes until the table is freed |
| `HashRuns.ChainBound` | uthash.h:611-622 | while noexpand is 0, and in the step that sets it, every bucket has at most (expand_mult + 1) * max(10, ideal_chain_maxlen) items |
| `HashRuns.ExpandShortens` | uthash.h:688-692 | right after an expansion every chain is below its threshold or within its multiple of the ideal length |
| `Buckets.PushHead` | uthash.h:611-616 | a node joins a bucket at its head; the chain is linked in both directions and counted |
| `Buckets.DeleteInBucket` | uthash.h:625-635 | a node leaves its bucket from any position; head, both directions and count are right again |
| `Buckets.FindInBucket` | uthash.h:597-608 | the walk over hh_next returns the first node with the key, or null |
| `Buckets.NewIndex` | uthash.h:198-201 | masking with the doubled count gives the old index or the old index plus the old count |
| `Buckets.SplitChain` | uthash.h:683-699 | the inner loop of the expansion moves one old chain into two new buckets, back pointers and multipliers included, and adds their excess to the count |
| `Expansion.Redistribute` | uthash.h:682-701 | the outer loop: every old chain is split, none is visited twice or touched early, and the running nonideal_items is the excess so far |
| `Expansion.ExcessAddsUp` | uthash.h:688-690 | counting chain by chain during the move gives the sum over all new chains |
| `Expansion.Rebuild` | uthash.h:666-701 | the fresh bucket array holds the doubled table; application order and stored hashes are untouched |
| `Linking.InsertNode` | uthash.h:173-193 | one node joins application order (through the tail pointer) and bucket, with all four links |
| `Linking.DeleteNode` | uthash.h:223-245 | one node leaves both structures; head and tail pointers follow |
| `HashTable.HashTable.constructor` | uthash.h:141-158 | a null head: no table yet |
| `HashTable.HashTable.Find` | uthash.h:94-105 | the pointer code finds what the model finds |
| `HashTable.HashTable.MakeTable` | uthash.h:141-158 | 32 empty buckets and all counters zero |
| `HashTable.HashTable.Figures` | uthash.h:880-935 | the fields of a table in use: number of items and buckets, head, tail, counts, multipliers and the four statistics are those of the model |
| `HashTable.HashTable.Insert` | uthash.h:173-192 | an add up to the expansion test gives the table of the model, pointers and counters |
| `HashTable.HashTable.Add` | uthash.h:173-196 | the whole add gives exactly the table of the model; expansion happens when the count reaches (expand_mult + 1) * 10 and noexpand is not set |
| `HashTable.HashTable.ExpandBuckets` | uthash.h:666-712 | the incremental loops and counters reach the doubled table in closed form; what its figures count is `HashModel.NonIdealCounts`, `HashModel.MultIsQuotient` and `HashRuns.IneffectiveExactly` |
| `HashTable.HashTable.Delete` | uthash.h:215-248 | delete removes exactly that item, or frees the table with the last one |
| `HashTable.OnlyItem` | uthash.h:219-219 | both neighbours are null exactly when the item is the only one, so the table is freed exactly then |
| `HashTable.IdealIsCeil` | uthash.h:659-679 | the shift-and-mask form is ceil(n / 2b), and positive for n > 0, so the division by it is safe |
| `HashTable.HashTable.Sort` | uthash.h:719-804 | the sort replaces the application order by its stable sorted permutation; chains and counters, and so every find, stay |
| `HashTable.HashTable.Replace` | uthash.h:163-171 | returns the item that held the key and leaves the table of the delete followed by the add |
| `HashTable.HashTable.Fsck` | uthash.h:278-328 | on every table the macros build no check of HASH_FSCK fires |
| `Fsck.Check` | uthash.h:278-328 | on any table whose forward chains can be walked HASH_FSCK passes if and only if all back pointers, bucket counts and both item counts are right |
| `Fsck.CheckBucket` | uthash.h:287-298 | the walk counts the chain and passes if and only if every hh_prev is right |
| `Fsck.CheckOrder` | uthash.h:310-322 | the walk counts the items and passes if and only if every prev is right |
| `Fsck.TablesAreSound` | uthash.h:278-328 | the invariant of the macros implies everything HASH_FSCK looks at |
| `Fsck.SoundIsStructure` | uthash.h:278-327 | of a table that can be walked, whose items are where their hashes say and whose tail and multipliers are right, the check passes if and only if the macros could have built it |
| `Arith.MaskIsLow` | uthash.h:198-201 | masking with a power of two less one keeps the low bits |
| `Arith.LowIsMod` | uthash.h:198-201 | the low bits are the residue: the bucket is hashv modulo num_buckets |
| `Arith.CeilDivLeast` | uthash.h:650-663 | the ceiling is the least length with which all items fit the buckets |
| `Bloom.IndexInside` | uthash.h:108-131 | every bit index lies inside the vector, also where it has fewer than eight bits |
| `Bloom.BytesEnough` | uthash.h:108-109 | the vector has no byte more than its bits need |
| `Bloom.Bloom.SetBit` | uthash.h:124-124 | sets the one bit and no other |
| `Bloom.Bloom.Add` | uthash.h:127-128 | the filter now also holds this hash value |
| `Bloom.Bloom.Test` | uthash.h:130-131 | answers yes if and only if some added hash value has the same low bits |
| `FilteredTable.FilteredTable.Find` | uthash.h:94-105 | with the filter compiled in HASH_FIND returns what it returns without it, after any adds and deletes |
| `FilteredTable.FilteredTable.Add` | uthash.h:173-196 | the item joins the table and its hash the filter; a new table starts with an empty filter |
| `FilteredTable.FilteredTable.Delete` | uthash.h:215-248 | the filter keeps the bits of what leaves, and still rejects nothing that is stored |
| `Jenkins.LineInverse` | uthash.h:403-414 | each line of the mixer can be undone, and undoes its own inverse |
| `Jenkins.MixIsBijective` | uthash.h:403-414 | HASH_JEN_MIX is a bijection on triples of 32-bit words |
| `Jenkins.JenMix` | uthash.h:403-414 | the nine lines as written compute that bijection |
| `Jenkins.MixLines` | uthash.h:403-414 | the mixer in its nine lines, with the shifts 13, 8, 13, 12, 16, 5, 3, 10, 15 and the word each line changes |
| `Jenkins.XorBit` | uthash.h:403-414 | its `^`, bit by bit |
| `Jenkins.ShortKeyWords` | uthash.h:416-455 | the three words a key of fewer than twelve bytes, such as a MAC, is mixed from: the start values 0x9e3779b9 and 0xfeedbeef, the length, and each byte in its place |
| `Jenkins.BlockWords` | uthash.h:423-438 | and those twelve further bytes are mixed into |
| `Jenkins.SwitchHigh` | uthash.h:441-443 | cases 11 to 9 with their fall-through add the zero-padded bytes, the lowest place left to the length |
| `Jenkins.SwitchLow` | uthash.h:444-451 | cases 8 to 5, and 4 to 1, with their fall-through add the zero-padded little-endian word |
| `Jenkins.HashWords` | uthash.h:416-453 | the loop over blocks of twelve and the switch reach the words of the reference definition |
| `Jenkins.HashJen` | uthash.h:416-455 | the hash value is the last word, and the bucket its residue modulo the bucket count |
| `Jenkins.ShortKeysRecovered` | uthash.h:416-455 | a key of at most eleven bytes can be computed back from the final words, so no two of them, of whatever lengths, end in the same words |
| `Jenkins.JenFromInjective` | uthash.h:424-452 | with the rest of the key fixed no two states of the words are ever merged |
| `Jenkins.EveryByteCounts` | uthash.h:416-455 | keys of one length that differ within one block of twelve, the last included, end in different words, for any length: no byte is skipped |
| `MergeSort.MergePermutes` | utlist.h:134-150 | a merge keeps every element, whatever the comparison |
| `MergeSort.MergeSorted` | utlist.h:134-150 | merging two sorted runs gives a sorted run |
| `MergeSort.MergeStable` | utlist.h:134-150 | a merge keeps the order among equal elements, the first run first |
| `MergeSort.PassSortsBlocks` | utlist.h:114-162 | after a pass with run length k every aligned block of 2k elements is sorted |
| `MergeSort.BlocksByIndex` | utlist.h:114-162 | the same read by positions |
| `MergeSort.PassStable` | utlist.h:114-162 | a pass keeps the order among equal elements |
| `MergeSort.SortPermutes` | utlist.h:108-165 | the sort is a permutation, whatever the comparison |
| `MergeSort.SortCorrect` | utlist.h:56-60 | for any total preorder the result is sorted, a permutation, and stable |
| `MergeSort.StableSortUnique` | utlist.h:108-304 | there is only one stable sorted rearrangement, so all four sorts agree |
| `MergeSort.PassCount` | utlist.h:56-60 | n >= 1 elements take max(1, ceil(log2 n)) passes |
| `MergeSort.ComparesBound` | utlist.h:134-150 | a merge calls cmp less often than it has elements |
| `MergeSort.PassComparesBound` | utlist.h:114-162 | a pass over n elements calls cmp at most n times, less one for each merge |
| `MergeSort.SortComparesBound` | utlist.h:56-60 | the sort calls cmp at most n times in each of its passes |
| `MergeSort.ComparesLeast` | utlist.h:134-150 | a merge calls cmp at least once for each element of the shorter run |
| `MergeSort.ComparesInFront` | utlist.h:134-150 | where the first run goes in front as a whole, exactly once for each of its elements |
| `MergeSort.SortComparesLeast` | utlist.h:56-60 | sorting n elements calls cmp at least n - 1 times |
| `ListSort.WalkRun` | utlist.h:125-131 | the walk to the second run counts min(insize, what is left) |
| `ListSort.MergeRuns` | utlist.h:132-153 | relinks two runs into their merge behind what is sorted already, and counts exactly the comparisons of that merge |
| `ListSort.SortPass` | utlist.h:119-155 | one destructive pass relinks exactly the nodes of the list into the pass of the model, with its merges and comparisons |
| `ListSort.LLSort` | utlist.h:108-165 | LL_SORT relinks the nodes into the sorted list, null-terminated, in the proved number of passes and with exactly the comparisons counted for them, at most n per pass |
| `ListSort.DLSort` | utlist.h:171-228 | the same for DL_SORT, with prev and head->prev = tail restored |
| `ListSort.CDLSort` | utlist.h:233-304 | the same for CDL_SORT, with wrap-around detection, and the ring closed in both directions |
| `ListSort.HashSort` | uthash.h:719-804 | the same for HASH_SRT: matching prev and next, head first, tail last |
| `Lists.LLPrepend` | utlist.h:312-316 | the list is the new node and the old list |
| `Lists.LLAppend` | utlist.h:336-347 | the list is the old list and the new node |
| `Lists.LLConcat` | utlist.h:321-331 | the list is the first and the second |
| `Lists.LLDelete` | utlist.h:352-366 | exactly the node is gone; a node that is not on the list changes nothing |
| `Lists.DLPrepend` | utlist.h:507-517 | as LL_PREPEND, keeping prev and head->prev = tail |
| `Lists.DLAppend` | utlist.h:522-534 | as LL_APPEND, keeping prev and head->prev = tail |
| `Lists.DLConcat` | utlist.h:539-552 | as LL_CONCAT, keeping prev and head->prev = tail |
| `Lists.DLDelete` | utlist.h:557-573 | exactly the node is gone, from head, middle or tail |
| `Lists.CDLPrepend` | utlist.h:651-663 | the ring is the new node and the old ring |
| `Lists.CDLDelete` | utlist.h:668-677 | exactly the node is gone and the ring closed again |
| `Wire.LittleRoundTrip` | helper.c:89-108 | an integer is the value of its bytes |
| `Wire.WireIsBigEndian` | helper.c:89-108 | after the conversion the bytes in memory are those of network order, on either kind of host |
| `Wire.HostReadsBigEndian` | packets.c:29-36 | reading them in host order and converting gives the value in network order |
| `Wire.NetworkOrderTwice` | helper.c:89-108 | htonll is its own inverse, so it serves both ways |
| `Wire.BigDigit` | helper.c:89-108 | network order puts the most significant base-256 digit first |
| `Wire.HeaderLayout` | packets.c:20-26 | header: type in bytes 0-1, length in 2-3 |
| `Wire.ProxyLayout` | packets.c:38-44 | proxy_info: IP address in bytes 0-3, port in 4-5, MAC in 6-11 |
| `Wire.NodeLayout` | packets.c:68-76 | record: near end in bytes 0-11, far end in 12-23, weight in 24-27, time in 28-35 |
| `Wire.LinkLayout` | packets.c:60-67 | packet: header in bytes 0-3, neighbour count in 4-5, source in 6-17 |
| `Wire.NoticeLayout` | packets.c:131-137 | leave packet: header in bytes 0-3, machine in 4-15, time in 16-23 |
| `Wire.NodeCount` | packets.c:85-85 | a received length stands for one record for every 36 bytes beyond 14, and for none below |
| `Packets.Probe` | helper.c:96-99 | the union probe tells the byte order of the host |
| `Packets.SwapBytes` | helper.c:102-107 | the four exchanges reverse the eight bytes |
| `Packets.Host.Htonll` | helper.c:89-108 | htonll with its cached flag, on a host of either kind, first call or later |
| `Wire.NodeRoundTrip` | packets.c:69-76 | a node comes back from its 36 bytes |
| `Wire.NodeRoundTripBack` | packets.c:97-100 | 36 bytes come back from the node they decode to |
| `Wire.Tiles` | packets.c:60-80 | the nodes tile the packet: past the 18 bytes in front, byte k is byte (k - 18) % 36 of node (k - 18) / 36 |
| `Wire.DecodeEncoded` | packets.c:60-114 | whatever the length field says, header, neighbour count and source are decoded right, and so is every node up to the number sent |
| `Wire.LinkRoundTrip` | packets.c:60-114 | the packet comes back if and only if its length field stands for the nodes it has |
| `Wire.LinkRoundTripBack` | packets.c:60-114 | encoding a decoded packet gives the same bytes |
| `Wire.UnpaddedCount` | cs352proxy.c:332-336 | with 36 bytes per node in memory the receiver counts right if and only if the length fits 16 bits |
| `Wire.PaddedCount` | cs352proxy.c:332-336 | with 40 bytes per node the receiver counts n + n/9 nodes, and right if and only if n <= 8, wrapped lengths included |
| `Wire.PaddedRoundTrip` | cs352proxy.c:328-340 | so a packet whose length counts the nodes it has comes back if and only if they are at most eight; with more, the first n are still right. `MembershipRuns.AdvertUnderstood` is about the length the code takes from size |
| `Wire.FitsBuffer` | cs352proxy.c:374-377 | the 2052 bytes of the buffer in sendPackets hold a packet if and only if it has at most 56 nodes |
| `Wire.OverwriteNext` | packets.c:60-80 | two pieces written side by side are one longer piece: no overlap and no gap |
| `Wire.EncodeNext` | packets.c:68-79 | each turn of the encoder adds exactly the next 36 bytes |
| `Packets.HtonHeader` | packets.c:20-26 | writes the four bytes of the header and nothing else |
| `Packets.HtonProxyInfo` | packets.c:38-44 | writes twelve bytes at the offset and nothing else |
| `Packets.HtonLinkstate` | packets.c:60-80 | bytes 0 to 18 + 36n hold the packet, the rest of the buffer is as before |
| `Packets.NtohHeader` | packets.c:29-36 | reads the header |
| `Packets.NtohProxyInfo` | packets.c:46-58 | reads the twelve bytes, the MAC byte by byte |
| `Packets.NtohLinkstate` | packets.c:82-114 | builds fresh nodes that hold the decoded packet in order; the list ends in null only if it has one node or malloc left null in `next`, and is not set at all for no nodes |
| `Wire.NoticeRoundTrip` | packets.c:131-175 | leave and quit packets come back from their bytes |
| `Wire.NoticeRoundTripBack` | packets.c:131-175 | and their bytes from the packets |
| `Packets.HtonNotice` | packets.c:131-137 | writes the 24 bytes of a leave packet; htonQuit is the same code |
| `Packets.NtohNotice` | packets.c:139-152 | reads them |
| `Membership.KeyIsMac` | uthash.h:252-255 | the table key is the whole MAC if and only if it has no zero byte |
| `Membership.KeyIsPrefix` | uthash.h:252-255 | otherwise it is the part before the first zero byte |
| `Membership.KeyIsUnique` | uthash.h:252-255 | a MAC shares its key with no other MAC if and only if its first five bytes are not zero |
| `Membership.ZeroMac` | helper.c:120-129 | the zero MAC is the one with six zero bytes |
| `Membership.FindRec` | cs352proxy.c:139-150 | the first record the other way round, or none |
| `Membership.FirstOf` | cs352proxy.c:171-195 | the first record of a remote MAC, or none |
| `Membership.LowestIsMinimum` | cs352proxy.c:152-164 | starting from -1, compared as unsigned, the result is the minimum of the saved weights, and 0xFFFFFFFF where there are none |
| `MemberLoop.AddMembersExact` | cs352proxy.c:197-204 | the loop of add_members over any packet, in any state: if no record is pushed it returns and only times have changed; if p is the first that is, it returns if and only if, in the state that receiving p leaves, no record of the old list would be pushed, and then that state is the result but for times; otherwise it never returns |
| `MemberLoop.RevisitExact` | cs352proxy.c:197-204 | the same for the part of the loop that walks the list: it ends if and only if no record ahead would be pushed, and then only times have changed |
| `MemberLoop.RestUnseen` | cs352proxy.c:197-204 | what stands behind the first pushed record in the packet has no influence: it is never seen |
| `MemberLoop.ReceiveRenews` | cs352proxy.c:223-234 | of the records of the list, a received one that is not pushed renews the time of the first the other way round if its own MAC has no socket, and of no other |
| `MemberLoop.PacketRenews` | cs352proxy.c:197-234 | a packet of which nothing is pushed renews exactly these, and changes nothing else |
| `PacketRuns.HandleIsSteps` | cs352proxy.c:632-763 | after any run, if TCPHandle returns from a link-state packet of any number of records, its state is that of a run of steps: the handshake if there is one, a receive for each record of the packet up to the first that is pushed, and then one for each record of the list |
| `PacketRuns.ServedListNeedsPairs` | cs352proxy.c:197-294 | where every saved record has a socket, add_members returns after a push if and only if every older record of the list has one the other way round |
| `PacketRuns.AddMembersAgrees` | cs352proxy.c:197-204 | a packet from which add_members returns keeps the agreement of list and table if and only if its first pushed record does |
| `Lives.EventAgrees` | cs352proxy.c:612-764 | each whole packet and each timeout the proxy returns from keeps the agreement of list and table if and only if it is proper: a sender without a socket has a whole MAC that is not the own, if it is answered the list was empty and its record has that MAC too, and the first record pushed is proper |
| `Lives.LivesAgree` | cs352proxy.c:612-764 | as far as any sequence of whole packets and timeouts goes, list and table agree all through it if and only if each of its events is proper |
| `Lives.LivesStayBest` | cs352proxy.c:390-396 | as far as a proper sequence goes, sweeps included, every MAC has the socket of a nearest gateway all through it if and only if each timeout finds records that expire together with those of their key |
| `Lives.OrphansStay` | cs352proxy.c:299-318 | over every sequence: a socket whose key no record has stays as it is, whatever times out, until a packet names its key in a record |
| `Neighbours.EventReports` | cs352proxy.c:197-204 | where all records are of neighbours, a packet from a sender that is known or introduces itself properly, and whose records show the proxy's address only with its own MAC or none: the proxy never returns from it if and only if its records are looked at and one of them has a MAC that is neither zero nor the proxy's own, be that machine known already or not; if it returns, all records still are of neighbours |
| `Neighbours.HopsAddUp` | cs352proxy.c:240-281 | a machine that a neighbour reports is saved one hop further than the neighbour has it, in either branch |
| `Neighbours.LivesHaveNeighbours` | cs352proxy.c:612-764 | over every proper sequence of timeouts and of such packets, those of connecttohost and their answers among them: as long as every packet has returned, all records are of neighbours, one for each MAC, of weight one, all have sockets, list and table agree, and each MAC has the nearest gateway's socket, whatever has timed out; so add_members never adds a record and returns |
| `Neighbours.AllConnect` | cs352proxy.c:427-459 | such sequences there are for any number of machines: with addresses and whole MACs of their own, all of them can connect with the packet of connecttohost, whose record has the dialled address and no MAC yet, and all become neighbours |
| `Neighbours.ReportsEndLives` | cs352proxy.c:197-204 | and the next packet after such a sequence, from a sender that is known or introduces itself properly, is one the proxy never returns from if and only if its records are looked at and one of them has a MAC that is neither zero nor the proxy's own |
| `Exchanges.ReportRenews` | cs352proxy.c:223-234 | after every proper life in which machines have addresses of their own, a known neighbour's packet that reports nobody else gives the time to exactly the records it has the other way round, and changes nothing else |
| `Exchanges.TimeoutDecides` | cs352proxy.c:299-318 | after every such life a timeout leaves a neighbour its record and its socket if its time is at most link_timeout times 1000 ago, and neither otherwise |
| `Exchanges.KeepAlive` | cs352proxy.c:197-318 | the keep-alive: after such a packet a neighbour stays through a timeout exactly when that comes at most link_timeout times 1000 after the packet, if the packet has its record the other way round, or else after the time its record had |
| `Neighbours.FirstReportNeverEnds` | cs352proxy.c:197-294 | such an input: a neighbour introduces itself and then reports any machine, at any further address and with any MAC but the zero one and the own |
| `Neighbours.LifeLosesSocket` | cs352proxy.c:299-318 | a sequence of whole packets that all return and a timeout, after which a saved record has no socket: a neighbour introduces itself, reports a second machine at this proxy's address, later a machine with the same key behind another gateway, and the first report expires. The two may be one machine, and with whole MACs every event is proper |
| `MembershipRuns.SizeCountsCutOff` | cs352proxy.c:744-747 | over every run size is the list length plus what handshake replies have cut off, so the two agree if and only if nothing was cut off |
| `Neighbours.SecondNeighbourMisread` | cs352proxy.c:681-753 | an input on which they differ: two neighbours with different keys introduce themselves, each by a first packet that is answered; the list then has one record, size is two, and the packet made of them is read as one of two records |
| `Neighbours.SilentNeighbourStays` | cs352proxy.c:299-318 | and after that input the first neighbour, which has no record any more, keeps its socket through any further packets and timeouts until a packet names its key in a record |
| `MembershipRuns.AdvertUnderstood` | cs352proxy.c:328-340 | after every run the packet of create_link_packet comes back from its bytes if and only if the length made from size stands for the records no reply has cut off; for lengths that do not wrap this is, with 36 bytes per record, that nothing was cut off, and with 40 that there are also at most eight records |
| `Exchanges.AdvertSays` | cs352proxy.c:328-340 | over runs, what any receiver reads from the packet: type 0xABAC, this proxy as the source, the number of records saved and cut off as the neighbour count, modulo 2^16, and the records saved, as far as it reads any |
| `Exchanges.AdvertAnswered` | cs352proxy.c:632-753 | a proxy that does not know the sender takes the packet for a first one, and answers it, exactly when the sender's size is one modulo 2^16; otherwise it does nothing |
| `Exchanges.RunAnswered` | cs352proxy.c:632-753 | over runs, exactly when what the sender has saved and cut off is one record |
| `Exchanges.ReplySays` | cs352proxy.c:734-747 | what is read from a reply: the same with length 50 and the one record at the head |
| `Exchanges.TwoMeet` | cs352proxy.c:427-764 | two proxies: one connects to the other, is answered, answers the answer, and after three packets each has exactly the other as its neighbour, with its socket |
| `Exchanges.StaysNeighbour` | cs352proxy.c:197-318 | two proxies that go on hearing of each other stay neighbours over any sequence of reports and timeouts, as long as each timeout comes no later than its seconds after the last report |
| `MembershipRuns.BytesSent` | cs352proxy.c:359-377 | and send is given, behind the packet, 36 or 40 bytes for each record cut off, and with 40 another four for each record there is |
| `MembershipRuns.RunsAgree` | cs352proxy.c:171-318 | list and table agree all through a run - size is the length, every key is the whole MAC of a record and not the proxy's own - if and only if every step of it is proper: a received record whose MAC becomes a key has a whole MAC; a peer introduces itself by a whole MAC that is not the proxy's own and that a record has; a reply cuts nothing off |
| `MembershipRuns.ReceiveAgrees` | cs352proxy.c:206-294 | one received record keeps the agreement if and only if its MAC has a socket, is zero or the proxy's own, or has no zero byte |
| `MembershipRuns.HelloAgrees` | cs352proxy.c:635-720 | a handshake keeps it if and only if the source MAC has no zero byte, is not the proxy's own, and is the MAC of the new record or of an old one |
| `MembershipRuns.ReplyAgrees` | cs352proxy.c:744-747 | a reply keeps it if and only if there is at most one record |
| `MembershipRuns.StepAgrees` | cs352proxy.c:171-318 | all five kinds of steps; deletions and sweeps always keep it |
| `MembershipRuns.ForeignMacsOnly` | cs352proxy.c:101-132 | while they agree neither the proxy's own MAC nor the zero MAC can be found |
| `MembershipRuns.KeyAppears` | cs352proxy.c:206-250 | a key appears in the table exactly by a received record with that key whose MAC is not zero and not the proxy's own, or by any peer that introduces itself with it: lines 639 and 685 put no question to the MAC. So the key of the own MAC and that of the zero MAC can appear, by another MAC with the same key or by a handshake |
| `Gateways.DeleteServes` | cs352proxy.c:171-195 | if every record has a socket, a deletion leaves it so if and only if no record other than the one that goes has its key |
| `Gateways.SweepServes` | cs352proxy.c:299-318 | and a sweep if and only if of any two records with one key both have expired or neither |
| `Gateways.SweepKeepsBest` | cs352proxy.c:299-318 | a sweep leaves every MAC with the socket of a nearest gateway if and only if of any two records with one key both have expired or neither |
| `Gateways.SocketsAreNearest` | cs352proxy.c:206-294 | over every run of received records, those the loop of add_members visits again among them, and handshake insertions: the socket of each MAC is the gateway of a saved record with the least weight of all saved records of that MAC, as a 32-bit unsigned |
| `Gateways.PushKeepsBest` | cs352proxy.c:269-285 | a new record takes over the socket of its MAC exactly when it is nearer than all before |
| `Gateways.SocketMoves` | cs352proxy.c:270-285 | a further record of a MAC takes over its socket exactly when it is strictly nearer than every saved one, as a 32-bit unsigned; a tie leaves it |
| `Gateways.UnsavedNearEnd` | cs352proxy.c:152-164 | where no record of the near end is saved, the -1 that stands for this is added as a distance: the weight falls by one, and wraps from zero |
| `Expiry.SweepEffect` | cs352proxy.c:299-318 | the exact effect on any list: of each MAC with k expired records the first k go and the rest keep their order, size falls by the number expired, and the table loses the keys of exactly the expired records |
| `Expiry.QuotaRaised` | cs352proxy.c:171-195 | one more expired record of a MAC takes the first record of that MAC that is left |
| `Expiry.SweepVisit` | cs352proxy.c:307-316 | each turn of the loop, at the record it visits |
| `Expiry.SweepIsFilter` | cs352proxy.c:299-318 | the sweep removes exactly the expired records if and only if, MAC by MAC, they stand first; so it does where MACs are distinct |
| `Expiry.SweepByAge` | cs352proxy.c:299-318 | where MACs are distinct, the records that stay are exactly those no older than link_timeout times 1000 |
| `Expiry.KeysByAge` | cs352proxy.c:299-318 | on any list, a key goes exactly when some record that has it is older |
| `Expiry.ExpiredStays` | cs352proxy.c:299-318 | otherwise a live record is deleted in place of an expired one, which stays |
| `MemberList.CompMacAddrs` | helper.c:110-118 | zero if and only if all six bytes agree |
| `MemberList.CompMacZero` | helper.c:120-129 | non-zero for the all-zero MAC, zero for every other |
| `MemberList.MemberList.InList` | cs352proxy.c:139-150 | the walk returns the node of the first matching record |
| `MemberList.MemberList.GetLowest` | cs352proxy.c:152-164 | the int returned is the unsigned minimum |
| `MemberList.MemberList.FindFirst` | cs352proxy.c:173-193 | the first node of the MAC and its predecessor |
| `MemberList.MemberList.Unlink` | cs352proxy.c:182-188 | exactly that node leaves the acyclic list; size falls by one |
| `MemberList.MemberList.Push` | cs352proxy.c:240-247 | a fresh node becomes the head of a still acyclic list, a node that is on the list closes it to a ring |
| `MemberList.MemberList.PushKnown` | cs352proxy.c:270-281 | weight plus the lowest saved distance to the near end, modulo 2^32, and whether that beats all saved records of the MAC; for fresh nodes and listed ones |
| `MemberList.MemberList.CutAfterHead` | cs352proxy.c:746-747 | the list ends after its head and size stays |
| `MemberList.LoopedIsTrapped` | cs352proxy.c:139-164 | on a ring every walk from the head goes round for ever |
| `MemberList.StaysTrapped` | cs352proxy.c:197-204 | so does the loop of add_members there, whatever it pushes: it never leaves the nodes of the ring |
| `Proxy.Proxy.AddMemberConnect` | cs352proxy.c:206-294 | for any record, on the list or not, the code pushes exactly when the model says so, and does its receive step; for a listed record that it pushes, the list becomes a ring |
| `Proxy.Proxy.AddMembers` | cs352proxy.c:197-204 | the loop, following the next pointers as they are when it reads them: it ends if and only if the model returns, with the state of the model; otherwise the list has become a ring |
| `Proxy.Proxy.DeleteMembers` | cs352proxy.c:171-195 | the code does the deletion of the model, also when the record passed is on the list |
| `Proxy.Proxy.RemoveExpiredMembers` | cs352proxy.c:299-318 | the loop, which deletes from the list it walks, does the sweep of the model |
| `Proxy.Proxy.AddPeer` | cs352proxy.c:639-668 | the handshake insertion: table entry from the source MAC, record in front |
| `Proxy.Proxy.Answer` | cs352proxy.c:734-753 | the list is cut after its head and the buffer holds the reply of the model, which has exactly the head; what it says is `Exchanges.ReplySays` |
| `Proxy.ReplyUnderstood` | cs352proxy.c:734-753 | the fixed length 50 stands for its one record, so the peer decodes the reply as sent |
| `Proxy.Proxy.HandleLinkstate` | cs352proxy.c:612-764 | the branches of TCPHandle for a link-state packet of any number of records, with both calls of the loop, and when a reply is made |
| `Proxy.Proxy.CreateLinkPacket` | cs352proxy.c:328-340 | null for an empty list, else the packet of the model, with the nodes of the list and header and neighbour count from size; what becomes of it is `MembershipRuns.AdvertUnderstood` |
| `SocketTable.SocketTable.constructor` | cs352proxy.c:46-63 | an empty table whose hash is HASH_JEN |
| `SocketTable.SocketTable.Find` | cs352proxy.c:101-132 | find_socketfd on the hash table returns the entry of the truncated MAC with its socket, and null exactly when there is none |
| `SocketTable.SocketTable.Add` | cs352proxy.c:46-63 | addsockfd is one update of the map |
| `SocketTable.SocketTable.Delete` | cs352proxy.c:69-93 | deletesockfd removes one key from the map, and nothing on a miss |
| `SocketTable.SocketTable.SetSocket` | cs352proxy.c:282-282 | writing through the entry found changes that one socket and no link of the table |
| `SocketTable.FindEntry` | cs352proxy.c:101-132 | the chain walk finds what the map holds |

## Left out

- HashTable.HashTable.Add: the counters are unbounded; a table of 2^32 items, where `unsigned` would wrap, is not modelled.
- ListSort.SortPass: in all four sorts the run length doubles without bound; overflow of `_ls_insize` is not modelled.
- Jenkins.HashJen: keys are shorter than 2^32 bytes, the range of `keylen`.
- Packets.NtohLinkstate: the buffer is long enough for the nodes its length field stands for; the code does not check this, and a shorter one is not modelled.
- Proxy.Proxy.AddMembers: the records of the packet end in null and are not on the list when the loop starts; a decoded packet of more than one record whose last `next` was left unset (`Packets.NtohLinkstate`) is not modelled. Where the code would go round for ever this method stops and says so; that it would is `MemberList.LoopedIsTrapped` and `MemberList.StaysTrapped`.
- Proxy.Proxy.HandleLinkstate: a packet has at least one record (for one without, the code reads a list pointer that was never set); sending the reply is left to the caller, and the several clock readings of one packet are one value.
- Proxy.Proxy.RemoveExpiredMembers: times are exact integers; the code subtracts them as doubles, which is exact below 2^53. Overflow of `link_timeout*1000` is not modelled.
- Gateways.SocketsAreNearest: for runs of single steps without deletions and timeouts, whose insertions have whole MACs; with timeouts, for whole packets, it is `Lives.LivesStayBest`.
- Gateways.DeleteServes: a deletion is a step of its own here; in the program it happens only within a sweep, because the handling of leave packets is a stub.
- Lives.LivesStayBest: for sequences in which list and table agree; what happens to the sockets of MACs that hold zero bytes is only `Gateways.SweepServes`.
- sendPackets: the loop over the sockets and the sending itself; a packet of more than 56 nodes, which its buffer does not hold (`Wire.FitsBuffer`), is not modelled further.
- Threads and the mutex: each operation is atomic; that `deletesockfd` unlocks on a miss has no counterpart.
- Memory: allocation succeeds, freed memory is not tracked, and the hash-handle offset arithmetic (`ELMT_FROM_HH`, `hho`) is replaced by object references.
- HASH_SELECT, HASH_CLEAR, HASH_ITER and the other hash functions; the table proofs hold for any hash.
- The VS2008 macro variants, the count, search and iteration macros, and the replace and prepend-before-element macros of utlist.h.
- htonData and ntohData, a fixed-size copy and an aliasing pointer; probe packets and the handling of leave and quit packets, which are stubs.
- Sockets, the tap device, configuration files, tracing output and the earlier proxy in cs352proxy_old.c.
