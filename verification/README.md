# Verified model of the gralloc_gbm buffer registry and its uthash containers

The repository is an Android gralloc implementation on top of GBM. Its allocator and mapper keep
every buffer they manage in an intrusive hash table (uthash), keyed by the buffer's file
descriptor; the same tree ships the other uthash headers. This project models the parts whose
correctness is not obvious and proves what they are for.

| file | subject |
|---|---|
| `HashTable.dfy`, with `Buckets.dfy`, `BucketSide.dfy`, `AppOrder.dfy`, `KeyMaps.dfy` | the hash table of `uthash.h`: every element is on the application-order list and on one bucket chain |
| `HashProperties.dfy`, `HashRuns.dfy`, `Integrity.dfy` | what holds across its operations and over all runs; the developers' own integrity check |
| `Lists.dfy`, `StableSort.dfy`, `ListOps.dfy`, `InOrder.dfy` | the bottom-up merge sorts of `utlist.h` and `uthash.h`, and the other list operations that relink nodes |
| `Kmp.dfy` | substring search of `utstring.h` in both directions |
| `RingBuffer.dfy` | `utringbuffer.h` |
| `Jenkins.dfy` | the default hash function |
| `Locks.dfy`, `Registry.dfy`, `BufferAccounts.dfy`, `BufferTable.dfy`, `Sizes.dfy` | the buffer manager: lock protocol, registry protocol, the functions over the hash table, the allocation loop, size arithmetic |
| `Bits.dfy`, `Sequences.dfy`, `Results.dfy` | shared arithmetic on words, reversal, result types |

How the C is represented:

- A list node is an object of class `Elem` with the pointers `prev`/`next` (application order, or the
  links of a plain list) and `hhPrev`/`hhNext` (bucket chain). Macros that relink nodes are methods that
  assign these fields; macros that update a table, a ring buffer or a buffer object are methods of a class
  with those fields. Ghost sequences give the abstract order, and the invariants tie the pointers to it.
- A key is a sequence of bytes; the hash function is a parameter, as `HASH_FUNCTION` is in the header. All
  results about the table hold for every hash function, good or bad.
- libgbm and the kernel are represented by what they answer: a parameter says which allocation fails, which
  buffer object and descriptor come back, and whether a mapping is refused. New objects are assumed new, and
  descriptors handed out are assumed not to be open.
- Arithmetic is on unbounded integers, except where 32-bit words are the point (hashing, usage flags, the
  `int` conversion in the string search).
- The build modelled is the one in `Android.bp`: no `HASH_BLOOM`, fatal out-of-memory, no software rendering.

Where the code and its comments disagree, the model follows the code:

- `common/gralloc_gbm.c:603` speaks of multiple locks with compatible usages. A buffer locked for the CPU
  grants no further lock of any usage (`LockOutcome`, `CpuLockIsExclusive`).
- `common/gralloc_gbm.c:64-66` logs that an existing buffer is skipped. It is added again, after which keys
  are no longer distinct (`AddBuffer`), and every expansion changes which of the two a lookup finds
  (`LookupAcrossExpansion`, and `TenOfAKey` on a table in memory).
- `common/gralloc_gbm.c:501-502` adjusts YV12 dimensions that the handle already holds adjusted, so import
  does not describe the object that new created (`ImportAgrees` gives the exact cases).
- `common/gralloc_gbm.c:468-470` opens one more descriptor of every new buffer for a log line, and
  `common/gralloc_gbm.c:679` one for every query; nobody closes either (`EveryRunLeaks`, `AllocationLeaks`).
- `include/uthash/utstring.h:263` and `:299` convert lengths to `int`, so each search is right for all strings
  only for the sizes that `WholeHaystackSearched` and `WholeNeedleCompared` name.
- `include/uthash/uthash.h:653` counts down the key length cut to 32 bits (`CutIsWhole`).

## Model

| member | source | states |
|---|---|---|
| HashTables.HashTable.Add | include/uthash/uthash.h:396-415 | appends an element that is not in the table to the application order and to the map, keeps keys distinct if its key was absent, and keeps the whole invariant; field by field: a first element gets 32 buckets and all statistics zero; otherwise the table doubles if and only if expansion is not inhibited and the chain at hash modulo bucket count reaches 10 * (multiplier + 1); if it does not double, every other chain, the multipliers and all expansion fields are as before; if it does, the statistics are recomputed, and it is inhibited from then on if this was the second ineffective doubling in a row or it was inhibited already |
| HashTables.HashTable.AddToTable | include/uthash/uthash.h:337-345 | the same for the bucket side: which chain the element goes to the front of, when exactly the table doubles, and every expansion field in both cases |
| HashTables.HashTable.PushToBucket | include/uthash/uthash.h:767-776 | only the selected chain changes, its count is its length, its multiplier is kept |
| HashTables.HashTable.LinkLast | include/uthash/uthash.h:398-411 | a first element gets a fresh table of 32 empty buckets with all statistics zero, any other is linked after the tail and no field of the buckets changes; its hash value is stored |
| HashTables.HashTable.MakeTable | include/uthash/uthash.h:212-241 | the new table has 32 empty buckets, log2 5, all statistics zero and expansion allowed, and satisfies the bucket invariant for no elements |
| HashTables.HashTable.AddInOrder | include/uthash/uthash.h:350-381 | the element is inserted before the first one that compares greater, in both link directions, and the bucket side changes as for Add, field by field |
| HashTables.HashTable.InsertBefore | include/uthash/uthash.h:366-372 | linking in front of an element gives the order with the new element at that index |
| AppOrders.FindPlace | include/uthash/uthash.h:286-293 | the walk stops at the first element that compares greater, or at the end |
| AppOrders.UpperBoundMeaning | include/uthash/uthash.h:286-293 | everything before that place compares at most equal |
| HashTables.HashTable.AppendList | include/uthash/uthash.h:278-284 | linking after the tail appends to the order |
| HashTables.HashTable.Delete | include/uthash/uthash.h:450-477 | removes exactly the element from the order and from its chain and, with distinct keys, exactly its key from the map; no other chain, multiplier or expansion field changes; deleting the last one frees the table |
| HashTables.HashTable.Unlink | include/uthash/uthash.h:460-470 | the head, tail and neighbours are patched so that the order without the element is linked both ways |
| HashTables.HashTable.RemoveFromTable | include/uthash/uthash.h:471-473 | only the chain at hash modulo bucket count changes, by the one element; the bucket side holds exactly the remaining elements, and the item count drops by one |
| Buckets.DelFromChain | include/uthash/uthash.h:789-802 | the chain without the element is linked both ways from the bucket head, with its length as count |
| AppOrders.BypassedOrder | include/uthash/uthash.h:460-470 | bypassing element k, with the ends repaired, is the order without it |
| HashTables.HashTable.Find | include/uthash/uthash.h:165-173 | the result is NULL exactly when no element has the key; with distinct keys it is the map's value; in general it is the first match in the chain at hash modulo bucket count |
| HashTables.HashTable.FindInBucket | include/uthash/uthash.h:745-764 | skipping on hash value and length first never misses an element that has the key |
| HashTables.HashTable.Replace | include/uthash/uthash.h:254-269 | removes one element with the key, or none if there is none, returns it and appends the new one; with distinct keys the map is updated at that key only; when exactly the table doubles, the element removed not counted, and the expansion fields in every case |
| HashTables.HashTable.Expand | include/uthash/uthash.h:833-883 | the bucket count doubles, the chains are the redistribution of all old chains, the invariant holds for the same elements, the statistics are exact, and expansion is inhibited from the second ineffective doubling in a row on |
| Buckets.ExpandInto | include/uthash/uthash.h:850-870 | moving element by element, in place, yields the redistributed chains with exact counts and multipliers |
| Buckets.Redistribution | include/uthash/uthash.h:850-869 | new buckets k and k + n receive only elements of old bucket k, and each new chain is that chain filtered by the new mask and reversed |
| Buckets.RedistributedChain | include/uthash/uthash.h:850-869 | in plain terms: new chain b of 2n holds the elements of old chain b modulo n whose hash is b modulo 2n, in the opposite order |
| Buckets.ToBktDoubled | include/uthash/uthash.h:430-433 | under the doubled mask an element stays or moves up by the old bucket count |
| Buckets.ToBktIsRemainder | include/uthash/uthash.h:430-433 | the masked bucket number is the hash value modulo the bucket count |
| Buckets.CountedFits | include/uthash/uthash.h:856-861 | at every step the multiplier is 0 up to the ideal length, and beyond it the least multiple in which the chain fits, but for one element too many and for the ideal length one, where it counts the elements too many |
| Buckets.TallyPush | include/uthash/uthash.h:856-861 | the running total of nonideal items is the sum over buckets of what exceeds the ideal length |
| Buckets.TalliedMeans | include/uthash/uthash.h:856-861 | the total of nonideal items is the number of places beyond the ideal length over all chains, and what each multiplier is |
| BucketSides.IdealChain | include/uthash/uthash.h:846-848 | the shift-and-mask form is the quotient of items by new buckets rounded up |
| Bits.MaskIsRemainder | include/uthash/uthash.h:430-433 | masking with a power of two less one takes the remainder |
| Bits.ShiftMaskCeil | include/uthash/uthash.h:815-831 | the documented identity ceil(n/b) = (n >> lb) + (n & (b-1) ? 1 : 0) |
| HashProperties.LookupAcrossExpansion | include/uthash/uthash.h:833-883 | for every table and every key: after redistribution a lookup finds the last element with the key in its old chain, which is the one found before if and only if that chain held the key at most once |
| HashProperties.FirstIsLast | include/uthash/uthash.h:745-764 | the first and the last match of a chain are the same exactly if it holds the key at most once |
| HashRuns.TenOfAKey | include/uthash/uthash.h:767-786 | on a table in memory, for every hash function and key: after nine adds of one key the newest is found, the tenth add doubles the table, and then the oldest is found |
| HashRuns.Run | include/uthash/uthash.h:396-477 | every run of adds, ordered adds, deletes and sorts on a table in memory, by a caller who adds only absent keys and deletes only present elements, leaves a valid table with the order of the run and the finite map |
| HashRuns.Apply | include/uthash/uthash.h:396-477 | one such operation on a table leaves the order and the map that the operation stands for |
| HashProperties.EveryRunIsAMap | include/uthash/uthash.h:396-477 | on the orders that the operations produce: over every such run keys stay distinct, every precondition is met, and the order stands for the finite map |
| HashProperties.StepOnMap | include/uthash/uthash.h:396-477 | one operation, on the order and on the map, agree |
| HashProperties.AfterMeans | include/uthash/uthash.h:396-477 | the order after each operation in plain terms: which element comes in or goes out where, and that sorting permutes |
| HashProperties.OrderIsInvisible | include/uthash/uthash.h:890-972 | rearranging the order changes no lookup |
| HashTables.HashTable.Sort | include/uthash/uthash.h:890-972 | the relinked order is the stable sort of the old one for every total preorder, with head, tail and both links right and the bucket chains untouched, within n * ceil(log2 n) comparisons |
| AppOrders.SortList | include/uthash/uthash.h:895-969 | the nested loops terminate and compute the bottom-up passes |
| InOrder.InsertInOrderIsStableSort | include/uthash/uthash.h:350-381 | into a sorted table, an ordered add gives what appending and stable sorting would |
| InOrder.InsertBeforeEqualsIsStableSort | include/uthash/utlist.h:690-717 | into a sorted list, the ordered insertion of utlist, which goes before equals, gives what prepending and stable sorting would |
| Integrity.Fsck | include/uthash/uthash.h:516-563 | the developers' integrity check passes exactly when the back links, every bucket's count and both item counts are right |
| Integrity.SoundMeans | include/uthash/uthash.h:525-557 | what the integrity check demands, link by link and count by count |
| Integrity.ChainsHoldTheItems | include/uthash/uthash.h:516-563 | the chains together hold every element of the application order exactly once |
| Integrity.ValidPasses | include/uthash/uthash.h:516-563 | it passes on every valid table, so after every operation; validity also covers the tail, the bucket of each element and the agreement of the two structures, which it does not look at |
| Integrity.CheckChain | include/uthash/uthash.h:525-541 | the walk over one chain accepts it exactly when its back links and its bucket's count are right |
| Integrity.ValidOrderMeans | include/uthash/uthash.h:546-561 | what validity says of head, tail and the links of the application order |
| Integrity.ValidPlacementMeans | include/uthash/uthash.h:430-433 | on every valid table an element is on the chain at hash modulo bucket count and on no other, its stored hash value is its key's, and the bucket count is two to the stored logarithm |
| Integrity.ValidChainMeans | include/uthash/uthash.h:525-541 | on every valid table each bucket's head, count and both link directions describe its chain |
| Lists.DlSort | include/uthash/utlist.h:177-235 | the nodes are relinked in the stable sorted order, head->prev is the tail, tail->next is NULL, prev and next are inverse, and cmp is called at most n * ceil(log2 n) times |
| Lists.DlShapeMeans | include/uthash/utlist.h:177-235 | what the shape of a doubly linked list says, link by link, head to tail included |
| Lists.MergePass | include/uthash/utlist.h:189-226 | one pass links the pairwise merges of the runs, tells whether it was the last, and makes fewer comparisons than there are nodes, none once a run covers the list |
| Lists.MergeRuns | include/uthash/utlist.h:203-224 | the innermost loop appends the stable merge of two runs to the output and stops at the next pair |
| Lists.CallsBound | include/uthash/utlist.h:59 | the documented O(n log n) as an inequality |
| StableSort.MergeSortCorrect | include/uthash/utlist.h:177-235 | the passes from run length 1 permute, sort and keep equal elements in order |
| StableSort.PassesSortStably | include/uthash/utlist.h:177-235 | in plain terms, for every total preorder on distinct elements: the passes permute them, no element comes before a smaller one, and of two that compare equal the one that came first still does |
| StableSort.MergeStable | include/uthash/utlist.h:204-216 | taking the first run on ties keeps every class of equal elements in order |
| StableSort.PassRuns | include/uthash/utlist.h:188-233 | a pass over sorted runs of length k leaves sorted runs of length 2k |
| StableSort.StableSortUnique | include/uthash/utlist.h:177-235 | a list has only one stable sort, so both sorts agree |
| ListOps.ReverseList | include/uthash/utlist.h:817-833 | the list is the reversed sequence with its shape intact |
| ListOps.Concat | include/uthash/utlist.h:722-735 | the list is the concatenation with its shape intact, also when either is empty |
| ListOps.Delete | include/uthash/utlist.h:740-758 | exactly the given node leaves the list, whichever position it has |
| ListOps.InsertInOrder | include/uthash/utlist.h:690-717 | the node goes before the first one that does not compare less |
| ListOps.FindBefore | include/uthash/utlist.h:706-717 | the lower bound walk finds the node before that place |
| ListOps.AppendAfter | include/uthash/utlist.h:859-875 | all links after insertion behind a node, tail included |
| ListOps.LowerBoundMeaning | include/uthash/utlist.h:706-717 | everything before the place compares less, the node there does not |
| Kmp.BuildTable | include/uthash/utstring.h:171-207 | every entry is the largest border of the prefix whose next character differs, or -1, the last one the longest proper border; at most one fallback per needle character |
| Kmp.TableMeans | include/uthash/utstring.h:171-207 | entry i in plain terms: the greatest k < i with the first k characters equal to the last k before i and, inside the needle, another character next; -1 if there is none |
| Kmp.TableUnique | include/uthash/utstring.h:171-207 | that description determines the table |
| Kmp.BuildTableR | include/uthash/utstring.h:211-247 | the right-to-left table is the mirror of the left-to-right table of the reversed needle |
| Kmp.TableRMeans | include/uthash/utstring.h:211-247 | the entry for position i in plain terms: the least k > i with the characters behind k equal to those behind i and, inside the needle, another character in front; the needle's length if there is none |
| Kmp.TablesMirror | include/uthash/utstring.h:211-247 | entry by entry: tableR[i + 1] = N - 1 - table(reversed)[N - 1 - i] |
| Kmp.FallBack | include/uthash/utstring.h:183-186 | no longer border is skipped by falling back |
| Kmp.EntryFromLongest | include/uthash/utstring.h:189-203 | reusing the entry of the border gives the strong failure value |
| Kmp.Find | include/uthash/utstring.h:251-280 | for every haystack and every non-empty needle, exactly what the search reports: for needle lengths that survive the conversion to int the least occurrence in the part of the haystack that its int length covers, or -1 iff there is none; for longer needles which characters count; within 2 * haystack comparisons, early exit included |
| Kmp.SearchFallBack | include/uthash/utstring.h:265-268 | falling back skips no occurrence |
| Kmp.FindResultMeans | include/uthash/utstring.h:251-280 | for such needle lengths the report is the least occurrence |
| Kmp.FindMeans | include/uthash/utstring.h:251-280 | for haystacks and needles of at most 0x7fffffff characters: the text at the reported position is the needle and there is no earlier place, or there is no place at all |
| Kmp.CIntMeans | include/uthash/utstring.h:263 | the converted length is in the range of an int, congruent to the size modulo 2^32, and equal to it exactly up to 0x7fffffff |
| Kmp.WholeHaystackSearched | include/uthash/utstring.h:263-271 | for every haystack size and needle size: the result is right for all strings of these sizes if and only if the needle is longer than the haystack or the haystack size fits an int |
| Kmp.FindR | include/uthash/utstring.h:284-314 | the greatest occurrence, or -1 iff there is none, within 2 * haystack comparisons; for needles whose length does not survive the conversion, an alignment that fits, and the end of the haystack whenever the characters compared agree there |
| Kmp.WholeNeedleCompared | include/uthash/utstring.h:299-302 | the result is right for all strings of given sizes if and only if the needle is longer than the haystack or its size fits an int |
| Kmp.LastIsFirstReversed | include/uthash/utstring.h:284-314 | the backward result is H - N minus the forward result on the reversed strings |
| Kmp.UtstringFind | include/uthash/utstring.h:318-360 | with start |s| + position for negative positions: the text at the result is the needle and no place from the start on comes before it, or there is none; -1 for an empty needle, a failed allocation or a needle longer than the rest, whatever the start |
| Kmp.UtstringFindR | include/uthash/utstring.h:364-402 | with start |s| + position for negative positions: the text at the result is the needle, it ends at or before the start, which may be the terminating NUL, and no such place comes after it; -1 for an empty needle, a failed allocation or a needle that does not fit, whatever the start |
| Kmp.FirstInSuffix | include/uthash/utstring.h:345-353 | shifting the result of a suffix search gives the result in the string |
| RingBuffers.RingBuffer.PushBack | include/uthash/utringbuffer.h:84-89 | the buffer holds the last n of all pushes; from the n-th push since the last clear on, the destructor is first called once, on the n-th last push |
| RingBuffers.RingBuffer.Clear | include/uthash/utringbuffer.h:50-66 | afterwards every element ever pushed has been destroyed exactly once, in order, and the buffer is empty |
| RingBuffers.RingBuffer.Done | include/uthash/utringbuffer.h:68-72 | the same, and the storage is given up |
| RingBuffers.RingBuffer.DestroyAll | include/uthash/utringbuffer.h:51-63 | the destructor loops visit exactly the elements held, oldest first |
| RingBuffers.RingBuffer.EltPtrIsPush | include/uthash/utringbuffer.h:91-97 | after k pushes the length is min(k, n) and element j is push max(0, k - n) + j |
| RingBuffers.RingBuffer.EltPtrIsLive | include/uthash/utringbuffer.h:95-97 | eltptr is non-NULL exactly for 0 <= j < len, negative j included, and points at element j |
| RingBuffers.RingBuffer.EltIdxUndoesEltPtr | include/uthash/utringbuffer.h:95-101 | the two modular index maps are inverse on the slots in use |
| RingBuffers.RingBuffer.NextAndPrev | include/uthash/utringbuffer.h:103-106 | next and prev step through the elements and give NULL past either end |
| RingBuffers.RingBuffer.WalkVisitsContents | include/uthash/utringbuffer.h:103-104 | following next from NULL visits all elements in order and returns to NULL |
| Jenkins.MixIsBijection | include/uthash/uthash.h:634-645 | mixing is a bijection on triples of 32-bit words |
| Jenkins.MixInPlace | include/uthash/uthash.h:634-645 | the nine in-place lines compute that mixing |
| Jenkins.NineLines | include/uthash/uthash.h:634-645 | mixing is the nine lines with their shifts, written out |
| Jenkins.Hash | include/uthash/uthash.h:647-686 | the loop over blocks and the fall-through switch compute the third word of the final state, over as many bytes as the 32-bit length says; written out for every 4-byte key, the nine lines from 0x9e3779b9 plus the little-endian word, 0x9e3779b9 and 0xfeedbeef + 4, and for every 12-byte key, those lines twice |
| Jenkins.FourByteKey | include/uthash/uthash.h:647-686 | the three final words of every 4-byte key, written out |
| Jenkins.TwelveByteKey | include/uthash/uthash.h:654-686 | the three final words of every 12-byte key, written out: the block is added and mixed in, then the length |
| Jenkins.HashTrace | include/uthash/uthash.h:651-686 | for every key shorter than 2^32 bytes: the states the loop goes through, block by block from the three starting words, and what the switch adds to the last |
| Jenkins.DescriptorThree | include/uthash/uthash.h:647-686 | a known answer: the hash value of the bytes 3, 0, 0, 0 is 0xb68ef0e4 |
| Jenkins.AddTail | include/uthash/uthash.h:670-684 | the fall-through cases add the remaining bytes as if zeros followed, and the length |
| Jenkins.OneBlockDetermined | include/uthash/uthash.h:647-686 | keys of one length that differ within one aligned 12-byte block, or in the rest, end in the same three words exactly if they do not differ in a byte that is hashed |
| Jenkins.CutIsWhole | include/uthash/uthash.h:653 | every byte is hashed exactly if the key is shorter than 2^32 bytes |
| Jenkins.ShortKeyDetermined | include/uthash/uthash.h:647-686 | for keys of equal length up to 12 bytes the final words determine the key |
| BufferLocks.EveryRun | common/gralloc_gbm.c:566-660 | over all runs of lock, unlock and query: the count is successful locks less effective unlocks, the object is locked for what its session's first lock asked, it is mapped exactly while locked for the CPU and then by one holder, and mappings balance unmappings |
| BufferLocks.EveryRunMeans | common/gralloc_gbm.c:566-660 | the results of EveryRun in plain terms: mapped exactly while a bit of 0xFF is locked for |
| BufferLocks.LockOutcome | common/gralloc_gbm.c:566-624 | exactly when a lock succeeds, in bits: the framebuffer bit 0x1000 is not asked for; the usage is part of the buffer's own or that has a bit of 0x1133; on an unlocked object a mapping is granted if a bit of 0xFF asks for one; on a locked one no bit of 0xFF is in force and the usage is part of what it is locked for; with which status it fails, that failing changes nothing, and that it maps for writing exactly if a bit of 0xF0 is asked for |
| BufferLocks.FreeLockOutcome | common/gralloc_gbm.c:566-624 | the same on an unlocked object for every answer: exact condition, statuses, new fields, the mapping's write flag and whose data is kept |
| BufferLocks.HeldLockOutcome | common/gralloc_gbm.c:600-624 | the same on a locked object: nothing but the count changes, and nothing is mapped |
| BufferLocks.LockStatus | common/gralloc_gbm.c:566-616 | for every state of the object, consistent or not: which status a lock gives, with the masks written out |
| BufferLocks.LockChanges | common/gralloc_gbm.c:606-624 | for every state of the object: what a lock changes, with the masks written out |
| BufferLocks.UnlockOutcome | common/gralloc_gbm.c:642-659 | an unlock undoes one lock and unmaps exactly if the object was mapped |
| BufferLocks.StepConsistent | common/gralloc_gbm.c:600-659 | every call keeps the lock invariant |
| BufferLocks.CpuLockIsExclusive | common/gralloc_gbm.c:603-616 | a second CPU lock of the same usage is refused |
| BufferLocks.BufferObject.Lock | common/gralloc_gbm.c:566-624 | for every state, usage and answer, in bits of the usages: the status, the new count and usage, the mapping made with its write flag, and nothing changed on failure |
| BufferLocks.BufferObject.Unlock | common/gralloc_gbm.c:626-660 | the new count, usage and mapping, in bits of the usage the object was locked for |
| BufferLocks.BufferObject.Map | common/gralloc_gbm.c:209-234 | a mapped object is not mapped again, a refused mapping leaves it unmapped, and a granted one has the write flag asked for and its data kept |
| Registries.EveryRunSafe | common/gralloc_gbm.c:28-90 | over all runs of new, import, query, free and close under the descriptor protocol: entries have open descriptors and living objects of their own, no object is destroyed twice or used after, and every object made is registered, destroyed, or orphaned by a failed record allocation |
| Registries.EveryRunMeans | common/gralloc_gbm.c:28-90 | the results of EveryRunSafe in plain terms, entry by entry and object by object |
| Registries.EndingWithFree | common/gralloc_gbm.c:546-564 | after any run that ends with a free the descriptor is not registered; if it was, its object is destroyed and alive no more, and no other entry and no descriptor changes; if it was not, nothing changes |
| Registries.EndingWithClose | allocator/backend/AllocatorGrallocGbm.cpp:43-69 | after any run that ends with a close the descriptor is not open, and nothing else has changed |
| Registries.EndingWithNew | common/gralloc_gbm.c:428-473 | after any run that ends with a new buffer its descriptor is registered for the new object, which was not alive before, and two more descriptors are open; without a record there is no entry |
| Registries.EndingWithImportOrQuery | common/gralloc_gbm.c:475-544 | the same for imports, and for queries, which open one more descriptor exactly if the buffer is registered |
| Registries.DescriptorReused | common/gralloc_gbm.c:28-90 | after any run a registered descriptor may be freed, closed and handed out again; then it is registered for the new object alone, and the old one is destroyed, not alive and not registered |
| Registries.EveryRunLeaks | common/gralloc_gbm.c:468-470 | over the same runs, exactly one descriptor that nobody can close is left open for each buffer created, each failed record allocation and each query answered |
| Registries.StepConserved | common/gralloc_gbm.c:457-463 | one step conserves the buffer objects |
| Registries.KeyOfInjective | include/uthash/uthash.h:495-498 | the four bytes of a descriptor determine it |
| Registries.KeyOfMeans | include/uthash/uthash.h:495-498 | the four bytes are the descriptor in little-endian order |
| BufferTables.FindBufferK | common/gralloc_gbm.c:28-38 | finds a record exactly if one has the descriptor |
| BufferTables.FindBufferV | common/gralloc_gbm.c:40-56 | finds the first record with the object, NULL for NULL or none |
| BufferTables.FindersAreInverse | common/gralloc_gbm.c:28-56 | on a registry that kept the protocol the two lookups are inverse |
| BufferTables.AddBuffer | common/gralloc_gbm.c:58-78 | the record is always added, keys stay distinct iff the descriptor was not registered, and the closing assertion holds |
| BufferTables.BufferManager.BufferNew | common/gralloc_gbm.c:388-473 | for every point of failure: the status, and exactly which object and descriptors come to exist, the one of the closing log line included; only its own entry changes, its user data starts unlocked, and the user data of other objects is undisturbed |
| BufferTables.BufferManager.BufferImport | common/gralloc_gbm.c:475-544 | registers the imported object under the given descriptor or changes nothing; ENODEV before the driver is ready, ENOMEM without memory, EINVAL for a refused import; the registry stays sound if and only if the descriptor had no entry before and is not one the program had dropped |
| BufferTables.BufferManager.BufferQuery | common/gralloc_gbm.c:662-679 | changes nothing but to leave one more descriptor open for a registered buffer |
| BufferTables.BufferManager.ImportBuffer | mapper_stablec/Mapper.cpp:181-208 | a failed import leaves no descriptor open |
| BufferTables.BufferManager.BufferFree | common/gralloc_gbm.c:546-564 | when the driver is ready, destroys the object and removes the record of a registered descriptor, and only that; otherwise changes nothing |
| BufferTables.BufferManager.Allocate | allocator/backend/AllocatorGrallocGbm.cpp:24-72 | for every count and every failure the table afterwards is the very sequence it was; success means every allocation succeeded and hands over count duplicates in order, all open; the objects made in between are destroyed once each, in order; what stays alive is the orphan of a failed record allocation, what stays open is what the attempts left open and the duplicates, and the lock state of all other buffers is undisturbed |
| BufferAccounts.AllocationLeaks | allocator/backend/AllocatorGrallocGbm.cpp:38-57 | the attempts leave open one descriptor for each success and one for a failed record allocation, none of them open before, so none if and only if nothing succeeded and no record failed |
| BufferAccounts.AllocationMeans | allocator/backend/AllocatorGrallocGbm.cpp:37-57 | in plain terms: the loop stops behind the first attempt that does not succeed; which descriptors it leaves open, which objects it made, and which object a failed record leaves without an owner |
| BufferTables.BufferManager.AllocateAll | allocator/backend/AllocatorGrallocGbm.cpp:38-57 | the loop either leaves all records on top of the table or rolls it back to what it was |
| BufferTables.BufferManager.HandOver | allocator/backend/AllocatorGrallocGbm.cpp:59-69 | every handle is duplicated for the client before it is freed and closed, and the table is what it was before the loop |
| BufferTables.BufferManager.Init | common/gralloc_gbm.c:122-152 | once ready, the driver stays ready, so the rollback finds it as the allocations did |
| BufferTables.BufferManager.ReleaseAll | allocator/backend/AllocatorGrallocGbm.cpp:43-50 | rollback takes the registry back to where the loop began |
| BufferAccounts.FailsFirstAt | allocator/backend/AllocatorGrallocGbm.cpp:37-56 | the loop stops at the first failure |
| BufferTables.BufferManager.BufferLock | common/gralloc_gbm.c:566-624 | through the table: a descriptor that is not registered is refused; otherwise the lock step is taken on the user data of its own object, and the state of no other buffer changes |
| BufferTables.BufferManager.BufferUnlock | common/gralloc_gbm.c:626-660 | the same for unlock |
| Sizes.AlignIsLeastMultiple | include/gralloc_gbm_format.h:16 | for every power of two the mask form is the least multiple at or above |
| Sizes.PaddedIdempotent | common/gralloc_gbm.c:409-416 | cursor padding gives the least multiple of 4 that is at least 64 and not below the size, so it is idempotent |
| Sizes.YV12HasItsPlanes | common/gralloc_gbm.c:418-426 | the GR88 object has exactly the bytes of an aligned luma plane and two chroma planes whose stride is a multiple of 16 |
| Sizes.ImportAgrees | common/gralloc_gbm.c:497-516 | import recomputes the dimensions new used if and only if the format is not YV12 or the cursor padding hides the difference |
| Sizes.SizeForNew | common/gralloc_gbm.c:407-426 | without cursor and YV12 the dimensions asked for; with a cursor each is the least multiple of 4 that is at least 64 and not below its own argument; for YV12 twice the width is the least multiple of 32 not below w, and the height grows by (h + 1) / 2 |
| Sizes.SizeForImport | common/gralloc_gbm.c:497-516 | the same for import, where a cursor's padding overrides the YV12 dimensions |
| Sizes.NoOverflow | include/gralloc_gbm.h:16-17 | within the supported sizes no sum that new or import forms on the way, ALIGN arguments included, exceeds an int |

## Left out

- HashTables.HashTable.Add: a failing allocation is fatal in the modelled build, so the recovery variants of HASH_NONFATAL_OOM are not modelled, nor is HASH_BLOOM.
- HashTables.HashTable.Find: comparing a null-terminated or numeric key is comparing its bytes; key pointers that alias a changing buffer, and keys of 2^32 bytes or more, whose stored length is cut, are not modelled.
- Kmp.Find: an empty needle is outside the contract, because the loop would read past it; the callers in the header filter it out.
- Kmp.FindR: the same; and for a needle whose length does not survive the conversion to int, the contract only bounds the result unless the compared characters agree at the end of the haystack, because the source then mixes skipped and compared characters.
- Kmp.UtstringFind: where the search is entered, a start before the beginning of the string makes the source read in front of the buffer, so it is excluded there.
- Kmp.UtstringFindR: the same for a start behind the terminating NUL.
- RingBuffers.RingBuffer.PushBack: a buffer of capacity 0 has no slot to write to, so it is excluded.
- Lists.DlSort: run lengths do not wrap; the int counters of the source limit the list to 2^30 nodes.
- BufferTables.BufferManager.BufferNew: gbm_bo_get_fd is taken to succeed.
- BufferTables.BufferManager.BufferImport: the unchecked malloc at common/gralloc_gbm.c:534 is taken to succeed.
- BufferTables.BufferManager.Init: why the driver cannot be opened is one parameter, and gralloc_gbm_deinit, which has no callers, is not modelled.
- BufferLocks.EveryRun: the lock count does not wrap.
- Each element's pointer back to the table record is merged with the table object, since all operations are called through the list head.
- HASH_SELECT, HASH_CLEAR, HASH_CNT and the other hash functions of uthash.h: variants or one-liners.
- LL_SORT2 and CDL_SORT2 of utlist.h: the same merge loop with different ends; the remaining list macros, utarray.h and utstack.h: easy members.
- delete_buffer_fd tests the descriptor instead of the record and has no callers.
- Metadata get and set, plane layouts, format tables and the mapping of usage bits to GBM flags: constant tables. New and import derive the cursor flag from the same usage and format, so it is one parameter here.
- The DMA-BUF backends, Binder and AIDL plumbing, service startup and logging: no algorithm of their own.
- Android's hardware/gralloc.h, which defines the usage masks, is not part of this model's sources; the masks are its published constants.
