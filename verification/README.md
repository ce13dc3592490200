# Verified models of the repository's data structures and protocols

Dafny models of the parts of the repository that carry real invariants: the MEMWATCH heap
tracker, uthash and the tag table on top of it, the utlist mergesort, the frame ring shared by
two threads, and six self-contained kernels (dd with re-blocking, blocked matrix products, the
pixel unscrambling table, the Internet checksum, an unbalanced search tree, packets with a
length prefix). `dafny verify dfyconfig.toml` checks all of it.

Code that works in place is modelled in place: blocks, list nodes, bucket arrays, guard bytes,
matrices and buffers are heap objects, and every method is tied by its `ensures` to a function
or predicate over values about which the lemmas are proved. The two threads of the ring are a
step system over all interleavings. The operating system's `read`, `write` and `ftruncate`
answer from an arbitrary schedule of refusals and short transfers.

| module | models |
|---|---|
| MwChain, MemWatch | the chain of blocks of `memwatch.c`, its integrity test, ownership test and self-repair; allocation and its accounting |
| UtHash, TagTable | `uthash.h` and its client `tag.c` |
| UtList, MergeSort | `utlist.h`; what its sort computes on sequences, and why that is the stable sort |
| FrameRing | reader and writer of `pthreads.c` (`logging/log4c/pointers.c` has the same logic) |
| Tdd, Transfers | the copy loop of `tdd.c`; the operating system's transfers |
| Matrix, Unscramble, Checksum, BsTree, Framing | the remaining kernels |
| Arith, Bits, Lists, Machine | shared mathematics, integer types |

## What the proofs found

Where the code falls short of what it is for, the model keeps the code and the exact condition is proved.

* Ring: wp is incremented and wrapped in two statements. Every schedule is safe if and only if
  the reader never compares while wp stands at MAX and rp at 0, and that moment is reachable
  in every ring of two or more slots. If the two statements are one step, all schedules are safe.
* Self-repair: mwRelink always restores the links, but it reports success exactly when no
  no-man's-land block is on the chain, because it counts all blocks against a counter of the live
  ones. It computes the check value before it gives up a size that was hit, so the block can be
  reported as repaired and fail its check (`MwChain.RepairedWithWrongCheck`; the exact condition is in
  `MwChain.OverwriteAndRelink`). If the links from the head, or those from the tail after them, run into a
  ring without meeting the block, its searches go round for ever (`MwChain.RelinkOnRing`; the exact
  condition is in `MwChain.Relink`).
* Ownership: mwIsOwned accepts a block that is not on the chain if its check value is right and
  either its two neighbours are strangers that point back at it (`MwChain.VouchedForByStrangers`) or the
  chain has no no-man's-land block (`MwChain.AcceptedByRepair`: a failed search ends in a mwRelink that
  reports success). Blocks given back by mwFreeUp are such blocks (`MemWatch.GivenBackIsOwned`), since
  it does not wipe them; their no-man's-land flag keeps mwFree and mwRealloc from harm. mwFreeUp
  does not correct the no-man's-land counters either, which exceed the truth by exactly what it gave back.
* Tags: untie_tag_2_socket dereferences NULL exactly when the tag is not tied. Keys
  are `sizeof(int)` bytes of a `long`, so tags that agree in their low 32 bits are the same key.
* Checksum: with a 32-bit `unsigned long` the result is right exactly when the word sum does
  not wrap; that is so for every buffer of up to 131074 bytes, and fails for 131075 bytes of 0xff.
* Framing: totals pass through an `int`, so a packet of 2^31 bytes or more is sent in full and
  then reported as a failure, and its receiver always fails (`Framing.TooLong`).
* tdd: reaching the end of the input is reported as -1; only a reached `count` gives 0
  (`Tdd.ExitStatus`), and then a last partial block that could not be written goes unnoticed
  (`Tdd.LostLastByte`). With equal block sizes the read after a short one can write behind the
  buffer (`Tdd.ShortReadOverruns`), and an odd read under swab makes swap_bytes do so
  (`Tdd.OddReadOverruns`; the exact condition for both is in `Tdd.Copy`). A hole in the output is as
  good as a block of zeros exactly when the file has nothing but zeros from there on and does not reach
  beyond the block.

## Model

| member | source | states |
|---|---|---|
| MwChain.IsHeapOK | linked_list/generic_list/memwatch.c:1899-1920 | on every finite pointer graph, cyclic ones included, the walk ends; with a head it answers yes exactly when some duplicate-free chain of readable blocks runs from head to tail with all links right and holds the requested block |
| MwChain.WalkIsPrefix | linked_list/generic_list/memwatch.c:1903-1915 | what the walk has seen is a prefix of every chain there could be from that head |
| MwChain.NotSeenBefore | linked_list/generic_list/memwatch.c:1906-1909 | a block that passes the back-link test has not been visited, which is why the walk cannot go round |
| MwChain.ChainLinks | linked_list/generic_list/memwatch.c:1899-1920 | a chain spelled out link by link, in both directions |
| MwChain.CheckValueDetects | linked_list/generic_list/memwatch.c:140 | the check value changes whenever exactly one of count, size and line does |
| MwChain.CheckValueIs | linked_list/generic_list/memwatch.c:140-140 | the check value of an empty header and of each field alone |
| MwChain.LinkTestIsMembership | linked_list/generic_list/memwatch.c:1960-1966 | for a block with a neighbour on the chain, or a null one, the constant-time link test says what a scan of the whole chain would |
| MwChain.RogueLinkTest | linked_list/generic_list/memwatch.c:1960-1966 | exactly which blocks outside the chain pass the link test |
| MwChain.IsOwned | linked_list/generic_list/memwatch.c:1922-1982 | on any graph: a block with a wrong check value is owned exactly if a whole chain holds it, and one with a right check value only if it passes the link test or a whole chain exists; with at most this block damaged, the exact answer and every repaired field for each case, and exactly when a pointer is followed that mwIsSafeAddr refuses |
| MwChain.VouchedForByStrangers | linked_list/generic_list/memwatch.c:1960-1967 | a block that is not on the chain and is owned because two strangers point back at it |
| MwChain.AcceptedByRepair | linked_list/generic_list/memwatch.c:1969-1973 | a block that is not on the chain, has no neighbours and is owned because the repair reports success |
| MwChain.FollowsWildPointer | linked_list/generic_list/memwatch.c:1955-1966 | a stranger with a right check value whose pointer to nowhere is followed |
| MwChain.TrustChain | linked_list/generic_list/memwatch.c:1934-1953 | on any graph, a block with a wrong check value is owned exactly when there is a whole chain that holds it; only then its size is zeroed and its check value recomputed |
| MwChain.RelinkUnsafe | linked_list/generic_list/memwatch.c:1955-1957 | safe links are not touched on any graph; links of a chain block that lead nowhere are repaired if only it is damaged, and strangers left alone |
| MwChain.TrustLinks | linked_list/generic_list/memwatch.c:1955-1981 | on any graph, that an accepted block passes the link test or leaves a whole chain; with only it in doubt, when it is owned, that a chain block is back in its place, and when a wild pointer is followed |
| MwChain.ChainThrough | linked_list/generic_list/memwatch.c:1934-1938 | if a whole chain exists although one block was in doubt, it is the original chain |
| MwChain.RepairPrev | linked_list/generic_list/memwatch.c:1629-1668 | the forward search finds the predecessor of any chain block and nothing for a stranger; on any graph, its outcome is exactly the one way in which the trail of linked blocks from the head ends |
| MwChain.RepairNext | linked_list/generic_list/memwatch.c:1670-1702 | the same for the backward search, the successor and the trail from the tail |
| MwChain.OneEnd | linked_list/generic_list/memwatch.c:1636-1648 | from one head only one trail of linked blocks ends, and in one way |
| MwChain.RelinkOnRing | linked_list/generic_list/memwatch.c:1636-1648 | two blocks linked into a ring at the head, on which the repair of a third does not end |
| MwChain.RelinkOnRingAtTail | linked_list/generic_list/memwatch.c:1677-1689 | the same at the tail |
| MwChain.CountChain | linked_list/generic_list/memwatch.c:1865-1868 | the number of blocks on the chain and the sum of their sizes |
| MwChain.VerifyAndCount | linked_list/generic_list/memwatch.c:1857-1888 | on any graph, aborts exactly if there is no chain, and else says whether the chain has the counted number of blocks; the size field is given up if the bytes do not add up |
| MwChain.Relink | linked_list/generic_list/memwatch.c:1605-1717 | whatever was written over the links of one block, afterwards the original chain is whole again and nothing else on the heap was written to; on any graph, exactly when it goes round for ever and when it turns to emergency repairs, and otherwise a return value means that there is a whole chain, of numCur blocks exactly if it is 1 |
| MwChain.OverwriteAndRelink | linked_list/generic_list/memwatch.c:1605-1717 | self-repair: any overwriting of a whole header followed by mwRelink gives back every link of the original chain; exactly when success is reported, and exactly when the check value is right afterwards |
| MwChain.RepairedWithWrongCheck | linked_list/generic_list/memwatch.c:1865-1877 | a block whose repair is reported as a success and whose check value is wrong |
| MwChain.Unlink | linked_list/generic_list/memwatch.c:1573-1600 | for any links, which pointers change; on a chain, the chain without the block, whole, with head and tail right |
| MwChain.Prepend | linked_list/generic_list/memwatch.c:913-914 | the chain with the new block in front |
| MwChain.AllLive | linked_list/generic_list/memwatch.c:1865-1877 | the live count equals the chain length exactly when nothing is no-man's-land, and then the byte totals agree |
| MwChain.AccountUpdated | linked_list/generic_list/memwatch.c:1096-1104 | how live count and live bytes change when one block changes size or becomes no-man's-land |
| MwChain.AccountsPrepend | linked_list/generic_list/memwatch.c:925-927 | a new block adds exactly itself to the totals |
| MwChain.AccountsWithout | linked_list/generic_list/memwatch.c:1096-1109 | an unlinked block takes exactly itself out of the totals |
| MemWatch.WriteOF | linked_list/generic_list/memwatch.c:660-670 | the guard zone holds the template, no other byte changes |
| MemWatch.CheckOF | linked_list/generic_list/memwatch.c:672-683 | damage is reported exactly when the zone differs from the template |
| MemWatch.TestGuards | linked_list/generic_list/memwatch.c:2021-2036 | exact detection of underflow and overflow |
| MemWatch.MemWatch.TestBuf | linked_list/generic_list/memwatch.c:1990-2039 | on intact memory it changes nothing, and logs nothing for a chain block exactly if both guard zones are whole |
| MemWatch.NewMemory | linked_list/generic_list/memwatch.c:916-923 | both guard zones and the fill value of fresh user data |
| MemWatch.NewBlockIs | linked_list/generic_list/memwatch.c:911-932 | every byte and the header of a new block |
| MemWatch.TemplateText | linked_list/generic_list/memwatch.c:324-324 | the guard zone's text |
| MemWatch.MemWatch.Malloc | linked_list/generic_list/memwatch.c:863-943 | for every sequence of answers of the system's malloc: which no-man's-land blocks were given back on the way, and otherwise a fresh, guarded block at the front, all counts and the peak right; within the limit it succeeds exactly if malloc does at once, or does after k blocks are given back and no sooner, and again in the next call; beyond the limit never; usage within the limit stays within it |
| MemWatch.MemWatch.Allocate | linked_list/generic_list/memwatch.c:892-909 | malloc, mwFreeUp and malloc again: exactly when there is memory in the end and how many blocks it cost |
| MemWatch.Answers | linked_list/generic_list/memwatch.c:892-909 | malloc's first success after the k-th block is given back ends the giving back, and the next call decides; with no success all blocks go and the request fails |
| MemWatch.FreedUpIs | linked_list/generic_list/memwatch.c:892-909 | the number of blocks given back and the outcome, determined by malloc's answers alone |
| MemWatch.MemWatch.Outcomes | linked_list/generic_list/memwatch.c:876-909 | the same with the limit and with sizes that no object can have |
| MemWatch.GrantedAfterGivingBack | linked_list/generic_list/memwatch.c:892-897 | a request that malloc refuses once, for which one block is given back and which then succeeds |
| MemWatch.MemWatch.FreeUp | linked_list/generic_list/memwatch.c:2082-2120 | no-man's-land blocks go one by one from the front until malloc succeeds; live blocks, their order and the books stay |
| MemWatch.MemWatch.GiveBack | linked_list/generic_list/memwatch.c:2096-2110 | one block off the chain as it is, and the invariant holds: its links never lead back to it |
| MemWatch.DrainedKeeps | linked_list/generic_list/memwatch.c:2095-2117 | what mwFreeUp leaves has every live block |
| MemWatch.DrainedFromFront | linked_list/generic_list/memwatch.c:2095-2117 | mwFreeUp takes the no-man's-land blocks at the front: k of them, or all there are |
| MemWatch.DrainedInOrder | linked_list/generic_list/memwatch.c:2095-2117 | what mwFreeUp leaves is in its old order |
| MemWatch.TestMem | linked_list/generic_list/memwatch.c:2133-2141 | damage is reported exactly if a byte differs from the fill value |
| MemWatch.GivenBackIsOwned | linked_list/generic_list/memwatch.c:2104-2110 | after malloc has failed for good, a block given back is still owned, and the no-man's-land counter counts only such blocks |
| MemWatch.TwoBlocks | linked_list/generic_list/memwatch.c:1096-1105 | how that state comes about from an empty heap |
| MemWatch.MemWatch.Create | linked_list/generic_list/memwatch.c:911-932 | the second half of an allocation |
| MemWatch.MemWatch.NoMansLand | linked_list/generic_list/memwatch.c:1489-1505 | sets the level, and ignores unknown ones |
| MemWatch.MemWatch.Enter | linked_list/generic_list/memwatch.c:913-932 | the new block enters chain and books together and the invariant holds |
| MemWatch.MemWatch.Book | linked_list/generic_list/memwatch.c:925-930 | the peak counter is the maximum of every value current usage has had; totals count allocations only |
| MemWatch.MemWatch.Realloc | linked_list/generic_list/memwatch.c:947-1027 | its three uses (as malloc, as free, with both), exactly when it fails in terms of the limit and of malloc's answers, what failure leaves, and that double and wild pointers change nothing |
| MemWatch.MemWatch.Resize | linked_list/generic_list/memwatch.c:975-1008 | first min(old, new) bytes kept, old block freed, limit and its flag intact at return although turned off inside; when it succeeds in terms of the limit and of malloc's answers; failure leaves the old block alone |
| MemWatch.MemWatch.MoveData | linked_list/generic_list/memwatch.c:991-1005 | with the limit off both blocks are live for a moment: the history of usage shows the sum and then the result |
| MemWatch.CopyUserData | linked_list/generic_list/memwatch.c:996-999 | as many bytes as both blocks have room for, guard zones untouched |
| MemWatch.MemWatch.Free | linked_list/generic_list/memwatch.c:1051-1152 | a live block leaves the chain and is wiped (or becomes no-man's-land) and leaves the books; null, wild and double frees change nothing but the error count |
| MemWatch.MemWatch.Shelve | linked_list/generic_list/memwatch.c:1096-1105 | a freed block kept as no-man's-land stays on the chain, filled, counted there and not as live, and the invariant holds |
| MemWatch.MemWatch.Retire | linked_list/generic_list/memwatch.c:1106-1118 | a freed block is off the chain and the books, and the invariant holds |
| MemWatch.MemWatch.Owns | linked_list/generic_list/memwatch.c:1922-1982 | on intact memory the ownership test is membership in the chain, but for blocks that mwFreeUp has given back once no no-man's-land block is left, and changes nothing |
| MemWatch.MemWatch.IntactBut | linked_list/generic_list/memwatch.c:1922-1982 | the invariant of intact memory gives the ownership test all it needs |
| MemWatch.MemWatch.Limit | linked_list/generic_list/memwatch.c:1202-1218 | sets the limit, and zero turns it off |
| MemWatch.Wipe | linked_list/generic_list/memwatch.c:1109-1110 | overwriting a whole block on release makes its check value wrong, its links wild and sets its no-man's-land bit |
| MemWatch.WipedLooksWrong | linked_list/generic_list/memwatch.c:1109-1110 | no header filled with the release byte can pass the check |
| UtHash.MaskDoubles | hash/uthash.h:400-400 | masking a hash to 2n buckets gives b or b + n, b being its bucket among n |
| UtHash.Hash.Push | hash/uthash.h:416-421 | the element is in front of its bucket, all links and the count right, all other buckets as before |
| UtHash.Hash.Pop | hash/uthash.h:428-438 | the bucket without the element, links and count right, all other buckets as before |
| UtHash.UnlinkFromChain | hash/uthash.h:430-438 | the links of a bucket chain close over the element that leaves it |
| UtHash.Hash.RehashStep | hash/uthash.h:452-470 | moving one more element of an old chain puts it, once, into its new bucket |
| UtHash.Hash.MoveBucket | hash/uthash.h:451-470 | a whole old chain is rehashed although its links are overwritten on the way |
| UtHash.Hash.MoveAll | hash/uthash.h:449-471 | every old chain is rehashed |
| UtHash.Hash.Expand | hash/uthash.h:440-474 | the number of buckets doubles, each new chain is the old bucket's elements that belong there, and the invariant holds |
| UtHash.Hash.ExpansionSplits | hash/uthash.h:449-474 | the chains of new buckets b and b + n together hold exactly the elements of old bucket b |
| UtHash.Hash.MovedReverses | hash/uthash.h:449-471 | an expansion reverses the order of the elements that stay together |
| UtHash.Hash.Find | hash/uthash.h:49-61 | walking one bucket finds an element exactly when a scan of the whole list would, and the same one if keys are unique; of several it is the first on the bucket's chain |
| UtHash.Hash.Add | hash/uthash.h:66-106 | the element is appended to the list and in front of its bucket, every other bucket as before or, after an expansion, as rehashed; the table is created at 32 buckets; the invariant of HASH_FSCK and more holds |
| UtHash.Hash.AddToList | hash/uthash.h:68-95 | the list half of an add |
| UtHash.Hash.AddToBucket | hash/uthash.h:97-103 | the bucket half of an add re-establishes the invariant |
| UtHash.Hash.Delete | hash/uthash.h:108-139 | the list and the bucket without the element, every other bucket as before, the invariant, and the removed element still knows its successor |
| UtHash.Unlink | hash/uthash.h:115-128 | the list closes over the removed element, head and tail right |
| UtHash.Hash.DeleteFromBucket | hash/uthash.h:129-136 | the bucket half of a delete re-establishes the invariant |
| UtHash.Hash.SamePopulationInBuckets | hash/uthash.h:160-217 | list and buckets hold the same elements, each once, and num_items counts both |
| UtHash.Hash.Fsck | hash/uthash.h:160-217 | the invariant spelled out: every link of the list and of the chains, heads, counts, and that the bucket of an element is its hash modulo the number of buckets, a power of two |
| UtHash.Hash.HashSort | hash/uthash.h:485-560 | the list is sorted and equal elements keep their order, for every comparator whose `cmp <= 0` is total and transitive on the data; head, tail and prev links right, buckets and chains not in the frame, keys as unique as before |
| UtHash.Hash.SortKeepsFind | hash/uthash.h:485-560 | every key is found after a sort as before it, also one that several elements have |
| UtHash.Hash.Resorted | hash/uthash.h:485-560 | a permuted list still agrees with the untouched buckets |
| TagTable.Tie | hash/tag.c:98-110 | the new association is last in the table, and found first unless the table has expanded |
| TagTable.Get | hash/tag.c:152-160 | 0 when the tag is not tied, else the socket of an association with its key, the first in its bucket |
| TagTable.Untie | hash/tag.c:178-184 | NULL is dereferenced exactly when the tag is not tied; otherwise the association that a search finds is gone |
| TagTable.TieGetUntie | hash/tag.c:98-184 | tie of any long tag, get and untie of its low word in a row return the socket and give back the very table, for a tag tied already too unless the table expands |
| TagTable.LowWords | hash/tag.c:98-110 | two tags are the same key exactly if they agree modulo 2^32, and a tag below is its own key |
| TagTable.AliveIsFilter | hash/tag.c:129-135 | the specification keeps exactly the elements that are not to be deleted, in their order |
| TagTable.SweptStep | hash/tag.c:129-135 | where the walk stands in the shrinking list, and that its next element is the one of the original list |
| TagTable.Visit | hash/tag.c:129-135 | leaving through the next field of an element just deleted leads to the right place |
| TagTable.DeleteWhere | hash/tag.c:129-135 | deleting while iterating is an exact filter and keeps the invariant |
| TagTable.DeleteTagsAssocsToSocket | hash/tag.c:125-136 | exactly the associations of the socket are gone |
| TagTable.PurgeHash | hash/tag.c:199-214 | exactly the associations of age ten seconds or more are gone |
| UtList.ListSort | linked_list/utlist/utlist.h:67-134 | LL_SORT, DL_SORT and CDL_SORT in place: the same nodes, all next and prev links right; if `cmp(x.data, y.data) <= 0` is total and transitive on the nodes, no node is greater than a later one, and of two equal ones the first stays first; ceil(log2 n) passes and at most (n - 1) * ceil(log2 n) comparisons |
| UtList.SortedByCmp | linked_list/utlist/utlist.h:101-101 | what a sort that takes the first run's node on `cmp <= 0` means for cmp itself |
| UtList.LinksOf | linked_list/utlist/utlist.h:120-127 | the links of a list or ring one by one |
| UtList.SortPass | linked_list/utlist/utlist.h:75-127 | one pass over the heap is one pass on the sequence, with fewer than n comparisons; it is the last exactly when two runs cover the list |
| UtList.MergeRuns | linked_list/utlist/utlist.h:93-117 | the in-place merge of two runs is the merge of the two slices, with fewer comparisons than nodes |
| UtList.SkipRun | linked_list/utlist/utlist.h:82-92 | the second run starts after insize nodes or does not exist, also on a ring |
| UtList.Take | linked_list/utlist/utlist.h:95-116 | one node moves from a run to the output and no unread link is lost |
| UtList.Close | linked_list/utlist/utlist.h:120-127 | the end of a pass closes the list or the ring |
| UtList.LlAppend | linked_list/utlist/utlist.h:145-156 | the list with the node at its end |
| UtList.LlDelete | linked_list/utlist/utlist.h:158-172 | the list without the node, unchanged if it is not there |
| UtList.CdlPrepend | linked_list/utlist/utlist.h:230-242 | the ring with the node in front |
| UtList.CdlDelete | linked_list/utlist/utlist.h:244-253 | the ring without the node |
| MergeSort.MergeAtIsMerge | linked_list/utlist/utlist.h:94-117 | merging by indexes in one list is merging two slices |
| MergeSort.PassDoublesRuns | linked_list/utlist/utlist.h:80-119 | a pass turns ordered runs of length k into ordered runs of length 2k |
| MergeSort.SortIsStable | linked_list/utlist/utlist.h:57-134 | the sort is a stable sorted permutation for every comparator that is a total preorder through its `<= 0` test |
| MergeSort.SortPermutes | linked_list/utlist/utlist.h:67-134 | no node is lost or duplicated whatever the comparator answers |
| MergeSort.StableSortIsUnique | linked_list/utlist/utlist.h:57-134 | there is only one stable sort, so the specification leaves nothing open |
| MergeSort.DoublingsIsCeilLog2 | linked_list/utlist/utlist.h:57-132 | the number of passes is the logarithm to base two, rounded up |
| FrameRing.SafeIffBadMomentAvoided | pthreads/pthreads.c:24-62 | over every interleaving: frames come out in order, complete and once, and at most MAX - 1 wait, exactly when the reader never compares in the bad moment; what has come out is then at every moment the beginning of what was handed to the writer |
| FrameRing.AtomicPublishIsSafe | pthreads/pthreads.c:54-55 | with increment and wrap as one step every interleaving is safe, and what comes out is the beginning of what was handed in |
| FrameRing.WrittenIsHanded | pthreads/pthreads.c:48-55 | in every run, safe or not, the frames published are those handed to the writer, but for one that is stored and not yet published |
| FrameRing.SafeIsInOrder | pthreads/pthreads.c:36-172 | what has come out is the beginning of what was handed in, what is missing is in the ring, and a thread waits only if the ring is empty or full |
| FrameRing.BadMomentIsReachable | pthreads/pthreads.c:54-55 | a schedule that leads from the start into the bad moment and then breaks safety, for every ring of at least two slots |
| FrameRing.BadMomentDeliversTooMuch | pthreads/pthreads.c:159-172 | after it the reader delivers a frame that was never written for it |
| FrameRing.FullTestIsExact | pthreads/pthreads.c:36-44 | the full test is exact whenever it decides, also while rp stands at MAX, and although it reads rp twice |
| FrameRing.EmptyTestIsExact | pthreads/pthreads.c:155-165 | the empty test is exact at every moment but the bad one, in which it is always wrong |
| FrameRing.StoreHitsFreeSlot | pthreads/pthreads.c:48-48 | no slot with an unread frame is stored into |
| FrameRing.WriterKeeps | pthreads/pthreads.c:36-55 | every step of the writer keeps the invariant |
| FrameRing.ReaderKeeps | pthreads/pthreads.c:155-172 | every step of the reader keeps it outside the bad moment |
| FrameRing.RunKeeps | pthreads/pthreads.c:24-175 | so does every run |
| FrameRing.Ring.WriterStep | pthreads/pthreads.c:36-55 | the statements on the shared variables are steps of the system, and no index leaves the array even after a bad moment |
| FrameRing.Ring.ReaderStep | pthreads/pthreads.c:155-172 | the same for the reader |
| Tdd.Copy | tdd/tdd.c:176-276 | the output is the input (swapped if asked) up to bytes_out for every schedule of reads and writes, byte by byte, and the bytes around it are the old ones; each way to stop has its exact condition on what could be seen before the copy: exit status 0 exactly if count reads succeed and fit and all whole blocks are written, the buffer left exactly if a read that is reached does not fit or cannot be swapped; all comes out exactly if the last write takes the rest |
| Tdd.FullCopy | tdd/tdd.c:221-260 | if reads and writes are never short, neither ends the copy |
| Tdd.CopyWholeFile | tdd/tdd.c:176-276 | then an empty output file ends as the input, whatever the block sizes, with holes or without |
| Tdd.CopyBlocks | tdd/tdd.c:221-260 | where the main loop stops and why: count, end of input, a short write, or a read that the buffer has no room for or swab cannot swap |
| Tdd.Round | tdd/tdd.c:221-260 | at each loop head n + bytes_out = bytes_in and n is less than obs; buffer and file together hold the converted input |
| Tdd.Deliver | tdd/tdd.c:242-259 | a round is completed exactly if every whole block is written |
| Tdd.ExitStatus | tdd/tdd.c:221-264 | how the main loop ends is decided, in both directions, by count, the answers to the reads and those to the writes |
| Tdd.OneStop | tdd/tdd.c:221-264 | only one round can end it |
| Tdd.LostLastByte | tdd/tdd.c:262-266 | a copy that loses its last byte and exits with status 0 |
| Tdd.ShortReadOverruns | tdd/tdd.c:184-224 | a short read after which the next one does not fit into the buffer |
| Tdd.OddReadOverruns | tdd/tdd.c:72-82 | a read of one byte that swab cannot swap |
| Tdd.ReadBlock | tdd/tdd.c:224-240 | one read into a buffer with something left in it extends the converted input, or does not fit |
| Tdd.WriteBlocks | tdd/tdd.c:242-259 | whole blocks leave the buffer, the rest moves to its front |
| Tdd.WriteSparse | tdd/tdd.c:93-105 | writes, or leaves a hole for a block of zeros; a failed ftruncate changes nothing |
| Tdd.HoleIsWrite | tdd/tdd.c:93-105 | exactly when a hole gives the same file as the write it replaces |
| Tdd.WriteTwice | tdd/tdd.c:242-259 | consecutive writes are one write |
| Tdd.BytesWritten | tdd/tdd.c:93-105 | a write leaves its bytes as they are and every byte around them, with zeros in a gap |
| Tdd.BytesLeft | tdd/tdd.c:93-105 | what ftruncate leaves, byte by byte |
| Tdd.AllZero | tdd/tdd.c:84-90 | true exactly for a block of zeros |
| Tdd.SwapBytes | tdd/tdd.c:72-82 | pairs within the range are swapped and nothing outside is touched for an even number of bytes; for an odd one the loop leaves the buffer |
| Tdd.SwapConcat | tdd/tdd.c:236-238 | swapping read by read is swapping the whole stream, for reads of even length |
| Tdd.SwappedAt | tdd/tdd.c:72-82 | each pair of bytes changes places, and a last odd byte stays |
| Tdd.SwapIsInvolution | tdd/tdd.c:72-82 | swapping twice changes nothing |
| Matrix.Multiply | matrix/testa_matrix.c:32-45 | every cell is its full sum of products |
| Matrix.Update2x2 | matrix/testa_matrix.c:104-121 | four accumulators carry the partial sums of a block of cells from one k-block to the next, all other cells unchanged |
| Matrix.UpdateStrip | matrix/testa_matrix.c:103-122 | the same for a pair of columns over a band of rows |
| Matrix.UpdateBand | matrix/testa_matrix.c:102-122 | the same for a whole band of rows |
| Matrix.Multiply1 | matrix/testa_matrix.c:47-68 | the unrolled form computes the same product, for every even N |
| Matrix.Multiply2 | matrix/testa_matrix.c:71-92 | so does the form in bands, for every even ib that divides N |
| Matrix.Multiply3 | matrix/testa_matrix.c:94-124 | so does the form in bands and k-blocks, for every kb that divides N |
| Matrix.IdentityIsNeutral | matrix/testa_matrix.c:32-45 | the sums are those of a matrix product: an identity on either side is neutral |
| Matrix.SingleTerm | matrix/testa_matrix.c:40-40 | a row with one entry gives one product |
| Matrix.Additive | matrix/testa_matrix.c:40-40 | the result is additive in the row; with the single terms this determines it |
| Unscramble.FillTable | unscramble/unscrambla.c:31-124 | every cell ends with its counter value in closed form, and the assignments happen in counter order, once per cell and in bounds |
| Unscramble.InnerLoop | unscramble/unscrambla.c:38-124 | one pass through groups and channels assigns the cells of a column pair in order |
| Unscramble.Advance | unscramble/unscrambla.c:66-71 | k and s step through channels and groups as the counter does |
| Unscramble.LastGroup | unscramble/unscrambla.c:67-70 | the test on i recognises the last group exactly |
| Unscramble.TableIsPermutation | unscramble/unscrambla.c:31-124 | the table is a permutation of 0 .. cells - 1, for every number of groups and channels |
| Unscramble.AssignedOnce | unscramble/unscrambla.c:31-124 | every cell is assigned exactly once |
| Unscramble.CounterDecodes | unscramble/unscrambla.c:31-124 | the counter determines the turn of the loops |
| Unscramble.TurnOfInRange | unscramble/unscrambla.c:31-124 | every counter value is that of some turn |
| Unscramble.CellInRange | unscramble/unscrambla.c:47-112 | the cell of a turn is within the table and determines the turn |
| Unscramble.FirstCells | unscramble/unscrambla.c:31-124 | the cells of the first assignments of either inner loop, and their values |
| Unscramble.NextChannel | unscramble/unscrambla.c:47-112 | how the cell moves from channel to channel, group to group, half to half and column pair to column pair |
| Unscramble.NextTurn | unscramble/unscrambla.c:47-71 | by how much the counter grows from left to right, upper to lower half, group to group and channel to channel |
| Unscramble.NextPair | unscramble/unscrambla.c:38-124 | and from an inner loop to the second, and from a column pair to the next |
| Unscramble.TurnAtInRange | unscramble/unscrambla.c:47-112 | every cell is that of some turn |
| Checksum.Compute | socket/ping/ping.c:146-162 | the loop and two folds give the complement of the sum modulo 65535 (with 0 and 65535 told apart) of the 32-bit sum |
| Checksum.ExampleOfTheStandard | socket/ping/ping.c:146-162 | the numbers of the example in section 3 of RFC 1071, and the order of bytes in words |
| Checksum.ResidueByFolding | socket/ping/ping.c:159-160 | two folds suffice for every 32-bit sum |
| Checksum.DeferredCarries | socket/ping/ping.c:150-158 | adding with end-around carry at every step (section 1 of RFC 1071) is the same as adding all carries at the end |
| Checksum.RightUnlessWrapped | socket/ping/ping.c:146-162 | the standard's sum is computed exactly when 32 bits hold the word sum |
| Checksum.ShortBuffersAreSafe | socket/ping/ping.c:146-162 | which is so for every buffer of up to 2^17 + 2 bytes |
| Checksum.LongerBuffersAreNot | socket/ping/ping.c:146-162 | a buffer of one byte more with a wrong result |
| Checksum.SameChecksum | socket/ping/ping.c:146-162 | the value depends only on the word sum modulo 65535 and on whether it is zero |
| Checksum.ByteOrderIndependent | socket/ping/ping.c:146-162 | summing in the other byte order gives the same bytes (section 2 of RFC 1071) |
| Checksum.StoredChecksumVerifies | socket/ping/ping.c:423-427 | stored in a zeroed field at any even offset it makes a recomputation give 0 |
| Checksum.FillChecksum | socket/ping/ping.c:423-427 | the header's field, cleared and filled in place, and no other byte changed |
| BsTree.Insert | binary_search_tree/bstree.c:50-77 | one child pointer is set and the nodes form the tree with the element added; -1 and the same tree for a duplicate |
| BsTree.Root.Add | binary_search_tree/bstree.c:79-101 | the same from the root pointer, and -1 for null data |
| BsTree.SearchFrom | binary_search_tree/bstree.c:129-151 | the recursive search on nodes is the lookup in the tree they form |
| BsTree.Search | binary_search_tree/bstree.c:153-161 | the same from a possibly empty root |
| BsTree.Walk | binary_search_tree/bstree.c:103-112 | the action sees the data in preorder |
| BsTree.WalkOrder | binary_search_tree/bstree.c:103-112 | root, then left subtree, then right |
| BsTree.LookupScansTheTree | binary_search_tree/bstree.c:129-151 | under a total order, following one path finds what a scan of the whole tree would |
| BsTree.AddKeepsOrder | binary_search_tree/bstree.c:50-77 | an add keeps the search order |
| BsTree.OrderedIsSorted | binary_search_tree/bstree.c:50-77 | in a tree in search order the data ascend from left to right |
| BsTree.SmallTree | binary_search_tree/bstree.c:50-101 | three adds, node by node: the smaller element is on the left |
| BsTree.AddKeepsElements | binary_search_tree/bstree.c:50-77 | an add puts in exactly the new element, and nothing if an equal one is found |
| BsTree.LookupAfterAdd | binary_search_tree/bstree.c:50-151 | what each search finds after an add, in terms of what it found before |
| BsTree.SearchFindsFirstAdded | binary_search_tree/bstree.c:50-151 | after any sequence of adds a search finds the first equal element that was added |
| BsTree.FoundIffAdded | binary_search_tree/bstree.c:50-151 | after any sequence of adds a search finds something exactly if an equal element was added, and then such a one |
| BsTree.WalkRebuilds | binary_search_tree/bstree.c:50-112 | adding the elements of a walk to an empty tree rebuilds the identical tree |
| Framing.WriteAll | socket/ux_demo/util.c:88-99 | for every schedule a prefix is sent, all of it exactly if no call is refused |
| Framing.ReadAll | socket/ux_demo/util.c:104-115 | the front of the stream arrives in the buffer, all of it exactly if it is there and no call is refused |
| Framing.SendPacket | socket/ux_demo/util.c:120-125 | 0 exactly if the whole frame was sent and an int holds the length; otherwise which prefix is on the stream |
| Framing.RecvPacket | socket/ux_demo/util.c:130-139 | a received packet is the first frame of the stream, taken off it; why a call fails or exits, and how much of the stream is lost then |
| Framing.TotalIsLength | socket/ux_demo/util.c:122-123 | what the comparison of an int total with a size_t length decides |
| Framing.SignBit | socket/ux_demo/util.c:122-123 | the conversions of sizes at the sign bit |
| Framing.NextIsFirstFrame | socket/ux_demo/util.c:120-139 | a packet is recognised exactly if its frame is at the front |
| Framing.NoPartialFrame | socket/ux_demo/util.c:120-139 | no part of a frame is ever taken for a packet |
| Framing.RoundTrip | socket/ux_demo/util.c:120-139 | the frames of any packets, and any part of a last one, are taken apart into these packets, in order and unchanged |
| Framing.SendAll | socket/ux_demo/util.c:120-125 | what a sender that stops at the first failure leaves on the stream |
| Framing.ReceiveAll | socket/ux_demo/util.c:130-139 | a receiver that stops at the first failure gets the packets of the stream from the first on; without refused reads it gets all of them exactly if no header announces more than there is memory for, and otherwise the program ends |
| Framing.ReceivesWhatWasSent | socket/ux_demo/util.c:120-139 | the packets on such a stream are exactly those sent with success, and its headers fit into memory if the packets do |
| Framing.Session | socket/ux_demo/util.c:120-139 | end to end over any schedule of short and refused transfers: what is received is what was sent with success, all of it if no read is refused and memory suffices, whatever became of the writes |
| Framing.TooLong | socket/ux_demo/util.c:120-139 | a packet of 2^31 bytes is sent in full and reported as a failure, and its receiver takes all of it and fails |
| Framing.DecodeEncode | socket/ux_demo/util.c:122-132 | a length survives its way through memory |
| Framing.HeaderBytes | socket/ux_demo/util.c:120-125 | the header is the length in eight bytes, lowest first, and stands before the data |

## Left out

- MemWatch.MemWatch.Malloc: a new block is never at the address of one that was given back. A test of the whole heap before each call (TESTS) only logs.
- MemWatch.MemWatch.FreeUp: grabbed memory, which the code gives back first, is not modelled.
- MemWatch.MemWatch.Realloc: the error count stands for the log lines and for the list of recently freed pointers.
- MemWatch.MemWatch.Owns: intact memory includes that no readable block has a right check value but those on the chain and those given back by mwFreeUp; MwChain.IsOwned says what happens to any other.
- MemWatch.Wipe: FBI mode, which then writes text over the header, is not modelled.
- MwChain.Relink: the emergency branch is a result value only, and the file field is not modelled.
- MwChain.IsOwned: where mwRelink aborts, goes round for ever or goes to its emergency branch, the answer is only that mwIsOwned did not return by itself.
- memwatch logging, statistics per module, prompts, autocheck, marks, memory grabbing, mutexes and signal-based address probing: mwIsSafeAddr is membership in a finite set of blocks. Counters do not overflow.
- UtHash.Hash.Add: whether a bucket expands is an input, since the load heuristic (expand_mult, hash_q, noexpand) is not modelled; malloc succeeds.
- uthash hash functions: any function of the key. Bucket counts and list lengths do not overflow.
- TagTable.Tie: malloc succeeds; the clock is a parameter. delete_multi_cmd_tag and print_ptr_2_hash are a find with a delete and a loop that prints.
- UtList.ListSort: for DL_SORT the list ends with a null head->prev, not with the tail that the DL_ macros expect there; those macros are not modelled. The run length does not overflow.
- FrameRing.SafeIffBadMomentAvoided: memory is sequentially consistent and each access to a shared variable or slot is one step; MAX is any positive number, where the code has 8 and keeps wp and rp in a char.
- Tdd.Copy: nothing is said about what happens once the code has left its buffer. Options, skip, seek and the record counts printed at the end are left out; block sizes are positive and the buffer is allocated. With holes nothing is claimed about an output file that reaches beyond the place where writing starts; Tdd.HoleIsWrite says when that matters.
- Matrix.Multiply3: ib and kb, which the code never sets, are parameters; int overflow is not modelled.
- Unscramble.FillTable: the file printed from the table is left out.
- Checksum.Compute: words are stored low byte first and `unsigned long` has 32 bits, as on Windows; the other header fields that main sets are part of the buffer.
- BsTree.Root.Add: allocation succeeds; the node of a refused duplicate is leaked in the code and unreachable here. bstree_free is a walk that releases.
- Framing.RecvPacket: x_malloc fails exactly above a given amount of memory and then ends the program; a blocked read at the end of the stream counts as the end. Sizes are 64 bits wide and little-endian on both sides.
- The PLX driver, serial lines, sockets, logging, the wav converter and the small demos are not part of this model.
