# A verified model of fkv

fkv is an in-memory key-value store: a segregated-fits heap with boundary tags (`mem_manager.c`),
a bucket index with overflow chains (`bucket.c`), a log that stores entries in the heap and finds
them through the index (`circular_log.c`), an even/odd version lock per bucket (`circular_log.h`),
and CityHash (`city.c`). This project models the five and proves what they are for.

| file | content |
|---|---|
| `Blocks.dfy` | the heap region as a tiling by blocks; cutting, joining, coalescing; what freeing does to the tiling |
| `HeapInvariant.dfy` | tags, free lists and tiling in agreement, for all blocks but some "loose" ones |
| `HeapSteps.dfy` | the allocator's elementary updates, which block serves a request, and when the division as written overruns |
| `Coalescing.dfy` | how far free merges, in closed form on the tiling before the call |
| `FreeLists.dfy` | the free lists as sequences: what carving, dividing and freeing do to their order |
| `HeapExamples.dfy` | a run of seven calls that ends in such an overrun; a request and its free that leave a fresh heap |
| `SegregatedFits.dfy` | the allocator over arrays, method by method |
| `PoolInvariant.dfy`, `BucketPool.dfy` | buckets, chains, spares; search, insert, delete, the version macros run alone |
| `HashPortions.dfy` | which bits of a hash choose its bucket and its tag |
| `LogEntry.dfy`, `LogIndex.dfy`, `CircularLog.dfy` | entries in memory, index and heap in agreement, put/get/remove as a finite map; when the search loop as written ends |
| `LogExamples.dfy` | a log on which it does not |
| `VersionLock.dfy` | the version lock with interleaved writers and readers over shared memory |
| `LockedLookup.dfy` | the lookup as a reader of that lock, and that it ends |
| `LogMemory.dfy` | where a log lies in the shared memory; put and remove as critical sections of the lock |
| `Word64.dfy`, `CityMixing.dfy` | 64-bit words, the mixing primitives, words that carry the positions they come from |
| `CityHash.dfy` | CityHash64 and CityHash128, and that they use every byte |
| `Arithmetic.dfy`, `Bits.dfy` | machine bounds, two facts about division, binary digits |

`dafny verify dfyconfig.toml` checks everything.

## How to read it

* Addresses in the heap are word indices (8 bytes) from the region's start; sizes in tags are bytes
  as in the C code. A list head's own address is the negative number `Sentinel(c)`.
* All steps of the allocator keep one invariant, `HeapInvariant.Inv(v, out)`: the blocks in `out`
  are part of the tiling but free of obligations. Splitting, joining, tagging and listing a block
  are each one small lemma about it.
* `Heap.blocks` and `Heap.lists` are the whole state of the heap. `Get` and `Free` give their new
  values as functions of the old ones; lemmas say what those functions mean.
* `CircularLog.table` is the finite map that the log implements.
* In `CityHash` a word is a `Traced`: its value, and the positions in the buffer of the bytes that it
  was computed from. Loads start such a set, and every operation joins those of its operands.

## The code as written, and corrected

Where the code does not do what it is for, the model keeps both, and says exactly when they differ.

* **Division of a block.** `segregated_fits_divide` merges the rest of a divided block with all free
  blocks after it, without the size test that `free_segregated_fits_block` makes; the rest can
  outgrow the largest class, and the list heads are then indexed out of range. With
  `Heap.repaired == false` the model follows the code up to that access and returns `OutOfRange`;
  with `true` it makes the same size test as free. `HeapSteps.OverflowExactly` gives the exact
  condition on the heap before the call, `HeapExamples.Overrun` a run from a fresh heap that meets it.
* **Guards.** The guard of `get_segregated_fits_block` lets the class one above the largest through;
  same treatment (`OutOfRangeRequest`). The guard of the free function is never taken.
* **"Max size empty" tests.** They compare with a size one step above the largest class and never
  hold; the model makes them and proves so.
* **Search cursor.** `search_index_entry` leaves the cursor on the slot it found, so a caller that
  rejects it gets it again. From an empty log on, all lookups end as written if and only if no
  operation is on a key that shares bucket and tag with another key stored at that time
  (`CircularLog.RunAsWritten`); the first one that is runs forever, a put or remove with the
  bucket's lock held (`LogExamples.SecondKeyHangs`). Otherwise the loop agrees with the one that
  moves the cursor on, which the class `CircularLog` uses.
* **Result of the index insert.** `put_circular_log_entry` ignores it. Modelled as written: `ok` is
  the code's result, `placed` tells whether the key is stored; the block of a `put` that was not
  placed stays in `leaked`.
* **Entry sizes.** Of the entry's size the allocator is asked for the low 32 bits, and takes sizes
  of 2^31 and more for negative ones (`SegregatedFits.ClassTooSmall`). An entry that large which is
  given a block does not fit it; `Put` then reports `fault`.
* **Lock not given back.** When no block is found, `put` returns with the version odd. Modelled as
  written. As written the next writer of that bucket gets in all the same; with the lock loop
  corrected nobody ever does again (`VersionLock.AbandonedStays`).
* **Lock loop.** The macro repeats while the compare-and-swap succeeds, so a writer enters when it
  fails (`LockAsWritten`). `ExclusionExactly`: a run keeps writers apart if and only if no swap that
  ends a lock loop happens while another writer is in the bucket. A swap beside another writer is
  not yet that (`SwapBesideWriter`). With one writer per bucket it never happens
  (`SoleWriterIsOrderly`), and then all of `RunIsSafe` holds of the macro as written; with two
  writers it does (`TwoWritersAsWritten`).
* **Readers.** As written they accept odd versions, and torn values with them, even beside a single
  writer (`TornReadAsWritten`). A read accepted at an even version is atomic in every run with the
  corrected lock, and in every run as written whose writers enter in order (`RunIsSafe`); beside
  two writers it can be torn as well (`TornEvenReadAsWritten`).
* **Index, heap and lock together.** A log between two operations determines every cell of the
  memory and its owner (`LogMemory.LaidOut`); put and remove are possible as critical sections that
  write only cells of their own bucket and free ones (`LogMemory.Operation`, `PutUnderLock`,
  `RemoveUnderLock`); and a lookup accepted at an even version answers what the table says of the
  log that the last writer to unlock the key's bucket left (`LogMemory.RunOfLog`).
* **Coalescing.** A free that carves stops merging there, so free blocks can stay side by side
  (`HeapExamples.ThirdFree`). The freed block ends with no free neighbour if and only if the free
  run around it, itself included, is no longer than the largest class
  (`Coalescing.CoalescesExactly`). What free leaves is fixed, in every case, by where the free blocks
  around it begin and end (`Coalescing.ReleaseExactly`); and it always merges all there is to the
  right, unless it carves there (`ReleaseReaches`).
* **Main buckets.** A bucket is chosen by masking with the table's size less one. Every main bucket is
  some key's if and only if that size is a power of two (`HashPortions.AllSelected`); the code does
  not ask for one.

## Model

| member | source | states |
|---|---|---|
| Blocks.ExactCover | mem_manager.c:258-299 | every word of the region lies in exactly one block |
| Blocks.AbsorbRightEffect | mem_manager.c:425-432 | the capped merge to the right re-tiles only free words, keeps every block within the largest class, and without a carve ends at a used block or the region's end |
| Blocks.AbsorbLeftEffect | mem_manager.c:413-420 | the same for the merge to the left |
| Blocks.ReleaseEffect | mem_manager.c:404-442 | free takes exactly its block from the used ones, re-tiles one run of free words around it, and leaves all other blocks |
| Coalescing.ReleaseExactly | mem_manager.c:404-442 | after free the blocks around the freed one are the pieces that its extent on the state before the call prescribes, at most three and no others; all blocks outside its extent stay |
| Coalescing.ReleaseReaches | mem_manager.c:422-432 | unless free carves on the right, its last block ends where the run of free blocks to the right of the freed one ends, whatever happened on the left |
| Coalescing.DivisionExactly | mem_manager.c:326-382 | the division's effect in the same closed form, on the state before the call |
| Coalescing.ReleaseCarves | mem_manager.c:413-432 | free carves if and only if the free run around the block, measured before the call, is longer than the largest class; otherwise that run becomes one block |
| Coalescing.CoalescesExactly | mem_manager.c:404-442 | the freed block ends with no free neighbour if and only if that run is no longer than the largest class |
| Blocks.WordsConserved | mem_manager.c:258-442 | every word of the region is in a used or in a free block, and their numbers add up to the region's |
| Blocks.UsedWordsGrow | mem_manager.c:384-442 | allocating turns exactly the block's words from free into used, freeing the reverse, and the rest stay |
| HeapInvariant.StoreLoose | mem_manager.c:38-71 | tags may be rewritten inside a loose block without hurting any other block, list or link |
| HeapInvariant.Push | mem_manager.c:73-85 | a tagged loose block pushed on its class's list keeps lists exact, acyclic and ended by their sentinel |
| HeapInvariant.Unlink | mem_manager.c:87-107 | unlinking any entry of a list keeps all lists exact and leaves just that block loose |
| HeapInvariant.PayloadStore | circular_log.c:146 | clients may write the payload of their block: tags, lists and the other clients' words stay |
| HeapSteps.ListsComplete | mem_manager.c:326-333 | no list from a class on has an entry if and only if no free block has that class's size or more |
| HeapSteps.DivisionBounded | mem_manager.c:326-382 | with the size test no block outgrows the largest class, so the index into the list heads is in range |
| HeapSteps.OverflowExactly | mem_manager.c:370-377 | the division as written overruns the largest class exactly if the free run that starts at the block it cuts is longer than the request's block and a largest block together; otherwise the size test changes nothing |
| HeapSteps.AbsorbRightUncapped | mem_manager.c:370 | the merge without size test absorbs the whole free run, and equals the capped one on runs within the largest class |
| HeapSteps.ServedUsed | mem_manager.c:385-402 | a served request adds exactly one block, not used before, of exactly the class's size |
| FreeLists.CarvedShape | circular_log.c:52-58 | the carving makes blocks of the largest class and, at the end, one that takes the rest and is no larger |
| FreeLists.DropAt | mem_manager.c:87-107 | in a list without repetition, unlinking entry k by its address removes that entry and keeps the order of the others |
| HeapExamples.ThirdFree | mem_manager.c:425-432 | a free that carves leaves four free blocks side by side: coalescing is not maximal |
| HeapExamples.Overrun | mem_manager.c:326-402 | three requests, three frees and one more request on a fresh heap of 15 words lead out of the list heads' range as written |
| HeapExamples.LastRequest | mem_manager.c:370-377 | there the division as written overruns while the one with the size test does not |
| HeapExamples.RoundTrip | mem_manager.c:385-442 | a request that cuts the first block of a fresh heap, and the free of what it was given, lead back to the fresh heap's blocks and lists |
| SegregatedFits.ClassFits | mem_manager.c:30-36 | below 2^31 bytes the class chosen is the smallest whose payload holds the request |
| SegregatedFits.ClassOfHugeSize | mem_manager.c:30-36 | from 2^31 bytes on a request is turned away exactly if it is no multiple of 8; a multiple of 8 is taken for class 0 |
| SegregatedFits.ClassTooSmall | mem_manager.c:30-36 | a request is given a class too small for it exactly if it has 2^31 bytes or more and is a multiple of 8 |
| SegregatedFits.Heap.constructor | circular_log.c:47-58 | the initial carving ends and leaves a valid heap of largest-class blocks and at most one smaller one at the end, over all whole words, the last block first in its list |
| SegregatedFits.Heap.Reclassing | mem_manager.c:258-299 | one carving step: the piece, what is left, and when it reports the end |
| SegregatedFits.Heap.InsertBlockHead | mem_manager.c:73-85 | new tags, list and tiling; all used blocks keep their words |
| SegregatedFits.Heap.UnlinkBlock | mem_manager.c:87-107 | a block in the list is always found, so the final assertion never fires |
| SegregatedFits.Heap.PopBlock | mem_manager.c:315-324 | the head of the list is unlinked and marked used in both tags |
| SegregatedFits.Heap.MergeBlockForward | mem_manager.c:121-169 | merges if and only if the left neighbour is free; the "max size" branch is never taken |
| SegregatedFits.Heap.MergeBlockBackward | mem_manager.c:184-230 | merges if and only if the right neighbour is free; the "max size" branch is never taken |
| SegregatedFits.Heap.CarveFront | mem_manager.c:301-313 | cuts one largest-class block off an oversized one; a rest of at least one word stays |
| SegregatedFits.Heap.MergeLeft | mem_manager.c:413-420 | the loop computes the tiling of `Blocks.AbsorbLeft` and the lists that go with it, and terminates |
| SegregatedFits.Heap.MergeRight | mem_manager.c:425-432 | the loop computes the tiling of `Blocks.AbsorbRight` and the lists that go with it, with or without the size test, and terminates |
| SegregatedFits.Heap.Divide | mem_manager.c:326-382 | fails exactly if no larger class has a block; overflows exactly under the stated condition; else the tiling and the lists after cutting the head of the smallest larger class |
| SegregatedFits.Heap.Get | mem_manager.c:385-402 | returns NULL exactly if no class or no free block is large enough; leaves the range exactly under the stated condition; else one new used block of the class's size, the head of its list, all other used blocks keeping place, size and words |
| SegregatedFits.Heap.Free | mem_manager.c:404-442 | the tiling of `Blocks.Release` and the lists in order; the used blocks lose exactly this one and keep all their words |
| PoolInvariant.StoreStep | bucket.c:140-146 | writing one slot of a chain changes that slot of that chain only |
| PoolInvariant.ExtendStep | bucket.c:154-157 | claiming and linking the lowest spare appends an empty bucket to one chain and keeps all others |
| PoolInvariant.ChainIncreases | bucket.c:67-73 | addresses increase along every chain, so every traversal ends |
| PoolInvariant.OffsetLeadsOn | bucket.c:154-157 | stored offsets are positive, fit 32 bits and lead to the next bucket, which is on no other chain |
| BucketPool.TagOf | bucket.h:13-18 | tags are 16 bits and never the empty marker |
| BucketPool.BucketOf | circular_log.h:107-114 | the masked hash portion is a main bucket's index, whatever the table size |
| HashPortions.BucketBits | bucket.h:20-25 | digit j of a bucket is digit j + 16 of the hash where the size less one has digit j, and else 0; digits from 32 on are 0 |
| HashPortions.SameBucket | circular_log.h:107-114 | two hashes share a bucket exactly if they agree in those digits, so bits 0 to 15 and from 48 on do not matter |
| HashPortions.BucketOfPowerOfTwo | circular_log.h:107-114 | in a table of 2^k main buckets the bucket is the 32 bits from bit 16 on, modulo 2^k |
| HashPortions.AllSelected | circular_log.h:107-114 | every main bucket is chosen by some hash if and only if their number is a power of two |
| HashPortions.SameTag | bucket.h:13-18 | two hashes share a tag exactly if their low 16 bits agree, or are all 0 in one and all 1 in the other |
| BucketPool.PlacedLive | bucket.c:133-164 | an insert adds exactly its entry to the chain's multiset, or fails, with nothing changed, exactly if every slot is taken and no spare is left |
| BucketPool.ClearedLive | bucket.h:105-112 | clearing a slot removes exactly its entry from the chain's multiset |
| BucketPool.HitsAll | bucket.c:88-107 | repeated searches with the cursor moved past each hit visit every slot with the tag, in order and once |
| BucketPool.CorrectedLookup | circular_log.c:166-182 | with the cursor moved on the lookup loop ends, and finds the key's slot exactly if there is one |
| BucketPool.LookupAsWritten | circular_log.c:93-108 | as written the loop ends exactly if no slot has the tag or the first one that has is the key's |
| BucketPool.BucketPool.constructor | bucket.c:18-50 | zeroed memory is an index of empty chains |
| BucketPool.BucketPool.NextSpareBucket | bucket.c:67-73 | the next bucket of the chain, or none at its end |
| BucketPool.BucketPool.NextEmptySpareBucket | bucket.c:52-65 | claims the lowest unclaimed spare, or reports that all are claimed |
| BucketPool.BucketPool.SearchIndexEntry | bucket.c:88-107 | the first slot of the chain at or after the cursor with the tag, or NULL and cursor 0 |
| BucketPool.BucketPool.DeleteIndexEntryWithIndex | bucket.h:105-112 | clears that slot of that chain and nothing else |
| BucketPool.BucketPool.DeleteIndexEntry | bucket.c:109-127 | clears the first slot of the chain with this tag and offset, if any, and nothing else |
| BucketPool.BucketPool.InsertIndexEntry | bucket.c:133-164 | the first empty slot of the chain, else a new spare's first slot; false, with nothing changed, exactly if there is neither |
| BucketPool.BucketPool.OptimisticLock | circular_log.h:16-20 | run alone the macro as written ends, with the version odd |
| BucketPool.BucketPool.OptimisticUnlock | circular_log.h:22-25 | the version grows by one, modulo 2^32 |
| LogEntry.WriteByte | circular_log.c:146 | writing one byte of a word changes that byte only |
| LogEntry.HoldsUnique | circular_log.h:37-54 | the words of an entry determine it: key, value, expiry and hash |
| LogIndex.HeapStep | circular_log.c:84-152 | heap changes that keep the keys' blocks keep index, heap and table consistent |
| LogIndex.DropStep | circular_log.c:98-103 | clearing a key's slot keeps everything consistent; its block has no owner then |
| LogIndex.HeapKept | circular_log.c:84-152 | heap changes beside the keys' blocks touch no slot and no other key's entry |
| LogIndex.IndexKept | circular_log.c:98-103 | clearing a slot leaves the other chains and the other keys alone |
| LogIndex.AdoptKept | circular_log.c:145-147 | placing a slot, even with a new spare, leaves the other chains and the other keys alone |
| LogIndex.AdoptStep | circular_log.c:145-147 | placing a slot for a filled unowned block keeps everything consistent and binds the key |
| LogIndex.LookupEndsExactly | circular_log.c:93-108 | while no two stored keys share bucket and tag, the search as written ends if and only if the key sought shares them with no other stored key, and then finds it exactly if it is stored |
| LogIndex.SlotNamesBlock | circular_log.c:95-99 | every slot in use names a used block with an entry whose hash has the slot's tag and selects the slot's chain |
| LogIndex.BlockHasSlot | circular_log.c:145-147 | a used block has a slot exactly if it is not leaked, and never two |
| CircularLog.PutInBytes | circular_log.c:136-144 | an entry below 2^31 bytes finds a block exactly if its size is within the largest class and some free block's payload has room for it; with the guards corrected it never faults, as written exactly under the condition on the class of its size |
| CircularLog.HugePutInBytes | circular_log.c:136-144 | the same from 2^31 bytes on, where the low 32 bits count |
| CircularLog.CircularLog.constructor | circular_log.c:40-70 | a fresh log implements the empty map |
| CircularLog.CircularLog.EqualKey | circular_log.h:56-61 | true exactly if the entry in memory has the key |
| CircularLog.CircularLog.CopyEntry | circular_log.c:146 | afterwards the words hold the entry, and the words outside it are unchanged |
| CircularLog.CircularLog.Lookup | circular_log.c:166-182 | finds the key's slot exactly if the key is stored, past slots with the same tag |
| CircularLog.CircularLog.RemoveEntry | circular_log.c:84-110 | unbinds the key, clears its slot and frees its block, or changes nothing if it is absent |
| CircularLog.CircularLog.Remove | circular_log.c:112-123 | true exactly if the key was present; the map loses that key; other chains and other keys' entries stay; lock and unlock move the version |
| CircularLog.CircularLog.Put | circular_log.c:130-152 | when it succeeds, in bytes; when the entry is stored, the new map, that its new block has exactly the words of header, footer and entry, what leaks, the version left behind, and when it would overwrite memory; other chains and other keys' entries stay, word for word |
| CircularLog.CircularLog.Get | circular_log.c:193-205 | found exactly if the key is bound, and then the very entry stored |
| CircularLog.CircularLog.Run | circular_log.c:84-205 | any run of put, get and remove agrees step by step with a finite map, until a fault of the allocator |
| CircularLog.RunAsWritten | circular_log.c:84-205 | from an empty log on, all searches end as written if and only if no operation's key shares bucket and tag with another key stored at that time |
| LogExamples.SecondKeyHangs | circular_log.c:136 | a fresh log with one key stored; looking up a second key of the same hash never ends as written |
| VersionLock.GuardedKept | circular_log.h:16-25 | a step keeps that at most one writer is in a bucket and its version is odd then, under the corrected lock, or as written if entries are orderly; versions never decrease |
| VersionLock.OddExactlyHeld | bucket.h:65-66 | in every run of the corrected lock whose writers unlock what they lock, a version is odd exactly while one writer is inside |
| VersionLock.AbandonedStays | circular_log.c:141-143 | with the corrected lock a bucket left without unlocking is never entered again |
| VersionLock.InvKept | circular_log.c:193-205 | every such step keeps that a reader at an unmoved even version has seen what it would see alone |
| VersionLock.AcceptedIsAtomic | circular_log.c:198-204 | a read accepted at an even version equals a run alone on the memory at its start and at its end, though other buckets' writers share that memory |
| VersionLock.AcceptedExactly | circular_log.c:198-204 | along any run, a read that ends is accepted exactly if the version at its end is that at its beginning |
| VersionLock.RunIsSafe | bucket.h:65-66 | exclusion, odd versions, monotone versions and atomic even reads in every run of the corrected lock and every orderly run as written |
| VersionLock.SoloAnswer | circular_log.c:157-186 | a reader alone on a memory has only one answer |
| VersionLock.LockAsWritten | circular_log.h:16-20 | in any state, a writer enters exactly when its compare-and-swap fails, and shares the bucket exactly if another is inside |
| VersionLock.ExclusionExactly | circular_log.h:16-20 | a run keeps writers apart if and only if no swap that ends a lock loop happens while another writer is in the bucket |
| VersionLock.SoleWriterIsOrderly | circular_log.h:16-25 | with one writer per bucket every entry as written finds the bucket empty and its version odd, even after puts that left without unlocking |
| VersionLock.TwoWritersAsWritten | circular_log.h:16-20 | a run as written with two writers in one bucket |
| VersionLock.SwapBesideWriter | circular_log.h:16-20 | a run as written in which a writer swaps while another is inside, and exclusion still holds |
| VersionLock.TornReadAsWritten | circular_log.c:198-204 | a run as written, with one writer, in which a reader accepts at an odd version values that were never in memory together |
| VersionLock.TornEvenReadAsWritten | circular_log.c:198-204 | a run as written, with two writers, in which it does so at an even version, with or without a parity test |
| LockedLookup.ChainOfConsistent | circular_log.c:84-152 | every chain of a log in agreement is what a lookup needs |
| LockedLookup.PublishedFrozen | bucket.h:65-66 | a chain that is in order stays so while its cells do not change |
| LockedLookup.OtherChainsUntouched | circular_log.c:84-152 | after put and remove the buckets of other chains and the entries of their keys are as before |
| LockedLookup.LookupConfined | circular_log.c:157-186 | a lookup alone on a chain in order fetches only cells of that chain, all in bounds |
| LockedLookup.LookupBounded | circular_log.c:157-186 | a lookup alone on a chain in order fetches no more cells than a number computed from the chain and its entries |
| LockedLookup.LookupFinishes | circular_log.c:157-186 | so it ends, with what the table binds to the key |
| LockedLookup.AcceptedLookup | circular_log.c:193-205 | a lookup accepted at an even version answers the entry that the table binds to the key, word for word, or that there is none, though other buckets' writers were at work |
| LockedLookup.ServesKept | circular_log.h:16-25 | every step keeps which log a chain shows where no writer is, except that a writer that unlocks may leave another |
| LockedLookup.RunLookups | circular_log.c:193-205 | in every orderly run in which a chain is in order at the start and when it is unlocked, a lookup accepted at an even version answers what the table says that the last unlock left |
| LogMemory.LaidOut | circular_log.c:84-152 | index and heap of a log at rest, laid out in one memory with the owner of each cell, put every chain in order |
| LogMemory.MayStart | circular_log.c:40-70 | with a log at rest in memory, a fresh one for instance, runs can start |
| LogMemory.MayUnlock | circular_log.h:22-25 | with a log at rest in memory, the unlock step of a writer is possible |
| LogMemory.OtherCellsKept | circular_log.c:84-152 | an operation changes only cells of its key's bucket and free ones, in value and in owner |
| LogMemory.Operation | circular_log.c:130-152 | every operation is possible as one critical section of the corrected lock, single cells written, claimed and released |
| LogMemory.PutUnderLock | circular_log.c:130-152 | a put that finds a block leads from a run that has come to the log in memory to one that has come to the new log, with the version two up |
| LogMemory.RemoveUnderLock | circular_log.c:112-123 | the same for a remove |
| LogMemory.RunOfLog | circular_log.c:193-205 | in every orderly run that starts with a log in memory and whose writers leave one there, a lookup accepted at an even version answers what the table says of the log that the last writer to unlock its bucket left |
| LogMemory.LookupSucceeds | circular_log.c:193-205 | in a run that has come to a log in memory, a lookup that no writer disturbs can be carried to its end, is accepted, and answers the log's table |
| CityMixing.ShiftMixInvolution | city.c:127-129 | ShiftMix is its own inverse |
| CityMixing.HashRoundTrip | city.c:101-136 | for a fixed second argument HashLen16 is a bijection of the first, with a given inverse |
| CityMixing.RotateBit | city.c:113-125 | rotating by k moves every binary digit k places down and the low ones to the top |
| CityMixing.RotateBack | city.c:113-125 | opposite rotations undo each other |
| CityMixing.Fetch64Bytes | city.c:85-87 | equal fetched words mean equal bytes |
| CityHash.StepSeen | city.c:245-260 | a round puts each of its 64 bytes into the state, and nothing in the state is dropped |
| CityHash.Hash64Covers | city.c:138-263 | CityHash64 is computed from every byte of the string, for every length and branch |
| CityHash.SeedingInverts | city.c:269-272 | from a seeded hash and its seeds the hash is recovered |
| CityHash.HashesSeparate | city.c:269-272 | with the same seeds two strings share the seeded hash exactly if they share the hash |
| CityHash.SeedsSeparate | city.c:269-272 | different first seeds give different hashes of any string |
| CityMixing.Fetch32 | city.c:89-91 | four bytes inside the buffer; fetches require their bytes in bounds, which every caller proves |
| CityHash.CityHash64 | city.c:224-263 | for more than 64 bytes, exactly the rounds on all 64-byte chunks that leave 1 to 64 bytes, reading in bounds for every length |
| CityHash.CityMurmur | city.c:276-308 | for more than 16 bytes, exactly the rounds on all 16-byte chunks that leave 1 to 16 bytes, in bounds for every length |
| CityHash.CityHash128WithSeed | city.c:310-376 | n rounds of the unrolled loop are 2n steps of CityHash64 and leave fewer than 128 bytes; the fewest 32-byte rounds from the end that cover these stay in the buffer |
| CityHash.Hash128Covers | city.c:276-376 | both words are computed from both words of the seed and every byte of the string, for every length and branch |
| CityHash.SeedingLossless | city.c:378-400 | of strings of one length no two have the same seed and the same bytes for the rounds: nothing is lost before them |

## Left out

- Heap with no class (`max_data_size` 0): the constructor requires at least one class.
- CircularLog.CircularLog.Put: entries whose `initial_size` is not header, key and value together are not modelled; what a put overwrites when it reports `fault` is not either.
- CircularLog.CircularLog.Get: runs without a writer beside it; the interleaved lookup is the one of `LockedLookup`.
- VersionLock.RunIsSafe: versions are unbounded, so wrap-around of the 32-bit version is not modelled.
- LogMemory.RunOfLog: a writer may do anything to its own cells between lock and unlock, but must leave a log at rest in memory when it unlocks; one writer at a time does (`Operation`), several at once in different buckets of one heap are not shown to.
- LogMemory.PutUnderLock: a put that finds no block, and leaves without unlocking, is not turned into a run.
- LockedLookup.LookupConfined: beside a writer of its own bucket a lookup can fetch a length or size that is still being written; what it fetches then is not bounded here, and a fetch outside the memory is a step the model does not have. An index entry's tag and offset are fetched as one word, and heap memory word by word.
- LockedLookup.OtherChainsUntouched: compares before and after; that single writes stay within the bucket's cells is shown for the order of writes in `LogMemory.Operation`, not for the order in the code.
- Several logs that share one bucket pool: one log is modelled.
- Concurrent claiming of spares and concurrent use of one heap: the code takes no lock there, and one writer per log is assumed.
- Shared memory files, `malloc`, `create_kv_table` and the destroy functions: memory of the given size, zeroed, is the starting point.
- Printing, dumping, test helpers and `generic_fls`.
- The CRC variants of CityHash (`city.c:402-519`): they depend on processor instructions.
- Big-endian byte order.
- CityHash.Hash64Covers: says which bytes the hash is computed from, not that changing one of them always changes it, which no 64-bit hash of longer strings does.
- Quality of the hash: the key hash is an arbitrary function of the key in `CircularLog`.
