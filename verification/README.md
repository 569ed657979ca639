# A Dafny model of Fotix

Fotix is a small 32-bit x86 teaching kernel. This project models its memory management, its
scheduler, its text screen, its keyboard driver and its ramdisk, and proves what they keep,
call by call and over whole runs. It follows the code as it stands: the same branches, the same
constants and the same odd corners as the C. `dafny verify dfyconfig.toml` checks it.

| file | part of the kernel |
|---|---|
| `Memory.dfy` | byte-addressed memory, little-endian words, `memcpy`, `memset` (sys/common.c) |
| `OrderedArray.dfy` | the insertion-sorted array (sys/ordered_array.c) |
| `HeapLayout.dfy`, `HeapSteps.dfy`, `HeapSpec.dfy` | what the records in the heap's region mean, and what each step of `alloc` and `free` does to them |
| `KHeap.dfy` | the kernel heap as a class over raw memory (sys/kheap.c) |
| `HeapRuns.dfy` | runs of `alloc`, `free` and stores through the pointers handed out |
| `HeapWitnesses.dfy` | heaps on which the code does not do what it is meant to do |
| `Frames.dfy`, `Paging.dfy` | the frame bitset, page tables, cloning of address spaces (sys/paging.c, sys/process.s) |
| `Tasking.dfy`, `StackMove.dfy` | the scheduler as a step machine and as a linked queue; `move_stack` (sys/task.c) |
| `Monitor.dfy`, `Keyboard.dfy`, `Initrd.dfy` | the text screen, the keyboard ring, the ramdisk and its packer |

## How the parts are proved

**The kernel heap.** `KHeap` works on raw bytes: it reads and writes headers and footers with
32-bit loads and stores. A ghost sequence of chunks says what the bytes mean. `Layout` says that
the chunks tile the region, that every header, and every footer but that of a last hole, is in
place, that no two holes touch, and that the index lists exactly the holes, each once. The methods
are proved against `AllocStep`, `AlignedStep` and `FreeStep`, which say what is written to memory and
to the index and nothing about layouts. `CarveIsLayout`, `GrowIsLayout`, `AlignedIsLayout` and
`FreeIsLayout` prove that what is written is a layout again: growth under the stated condition
`GrowOk`, page-aligned requests under `AlignedOk`, and free under `FreeOk`. `HeapRuns` proves that
every heap of every run of operations that go right (`Enabled`) is good, and that the run refines a
map from live pointers to the bytes stored behind them; `KHeap.Execute` carries such runs out.

**Paging.** `FrameSet` refines a set of frame numbers by an array of words. `Pager` has
`get_page`, `alloc_frame`, `free_frame`, the boot loops, `copy_page_physical`, `clone_table` and
`clone_directory`, all on a shared memory, with the exclusive ownership of frames (`Exclusive`)
carried through each of them from the boot loops on.

**Tasking.** `Step` is one step of the scheduler, `Scheduler` carries the steps out on linked
tasks, and the lemmas speak of every run.

**Screen, keyboard, ramdisk.** The screen is proved to be a window onto a page that never
scrolls; for every interleaving of the keyboard handler with the single statements of the reader
it is said exactly when the ring is a queue; what mkinit packs is what any split into reads gives back.

## Where the code departs from what it is meant to do

Nothing is repaired silently. Each departure is either kept, with the exact condition under
which the code is right, or repaired under a name of its own beside the code as it stands.

- sys/ordered_array.c:92 increments the size on removal. `OrderedArray.Remove` is the repair
  (every caller needs it) and `OrderedArray.RemoveAsWritten` the code, which always leaves an
  entry twice in the array. The heap uses the repair.
- sys/kheap.c:87, 154: `x & 0xFFFFF000 != 0` tests bit 0. Kept (`GrownLength`, `HoleFits`). Sizes
  that are not whole pages follow; `ExpandMapsAllIff` says exactly when the pages that boot and
  `expand` have mapped still cover the region, and `ExpandCanMissPage` is a growth after which they do not.
- sys/kheap.c:116-120: `contract` masks with 0x1000. Kept (`TrimmedLength`). Freeing is right
  exactly when the last hole starts at least 20 bytes below the `HEAP_MIN_SIZE` mark; this is half of
  `FreeOk`. `FreeCanTrimItself` is a heap on which it fails.
- sys/kheap.c:268-277: growth goes to the endmost hole even when a block follows it. Kept.
  It is right when that hole is last or there is none (`GrowOk`). Otherwise `KHeap.Alloc` states what
  happens instead: the block handed out runs over the header of a live one (`Overlaps`).
  `GrowthGoesAstray` gets there from a new heap with three requests and one free.
- sys/kheap.c:290-310: the page-aligned path does not test whether its front piece and its remainder can
  be chunks. Kept; under `AlignedOk`, which is that test, it is right, and under `AlignedBreaks` no tiling
  explains the heap it leaves. `AlignedCanBreak` is such a heap.
- sys/kheap.c:396-398: the footer of the right neighbour is found but never written. The constant
  `writesFarFooter` of `KHeap` selects the code (false) or the repair (true); every theorem holds
  for both, and the join is right exactly under `RightOk`. When `FreeOk` fails, `KHeap.Free` states that
  no tiling whatever explains the heap it leaves; `FreeCanMissFooter` is a heap on which it fails.
- sys/kheap.c:391-393: freeing the last block reads past the end of the region. Kept: when the bytes
  there look like the header of a hole the kernel halts on the ASSERT at line 407, and `KHeap.Free` says
  that it halts exactly then. Plain runs get there: `FreeCanHalt` does with three requests and three frees
  from a new heap, because a block that a trim cuts off leaves its header behind.
- sys/kheap.c:271, 302, 384, 422: listed holes change size in place, so the index can lose its
  order. Kept; `GrowKeepsSortedIff`, `AlignedKeepsSortedIff` and `FreeKeepsSortedIff` say exactly when growth,
  page-aligned requests and free keep it. `GrowthCanLoseOrder`, `AlignedCanLoseOrder` and `FreeCanLoseOrder` are
  heaps on which they lose it, right in all else.
- sys/kheap.c:207-212: the first hole has no footer. Kept: `Layout` asks for no footer of a hole
  that comes last.
- sys/paging.c:118: `free_frame` passes a frame number for an address. `Pager.FreeFrame` is the repair
  and `Pager.FreeFrameAsWritten` the code, which always loses the correspondence between bits and pages.
- sys/paging.c:268: `clone_table` skips the pages that have a frame. The constant `clonesMapped` of
  `Pager` selects the code (false) or the repair (true). `CloneDirectory` proves the same view for
  the repair and, for the code, that a child's private page is mapped exactly where its parent's is not,
  so that the views agree if and only if the parent has no private table. This
  agrees with the page fault reported at README.md:46 of the repository.
- sys/keyboard.c:210: `start - 1` wraps when start is 0. Kept; `RunDeliversIff` says that in every run the
  reader gets the stored characters in order exactly if no store finds the ring in one of two states
  (`Loses`), each such store losing 256 characters. `RingCanForget` is a run that does.
- sys/initrd.c:25: `offset + size` wraps at 2^32. Kept; `ReadCountIsMinIff` is exact, and `ReadCountCanWrap` a
  read it goes wrong for.

## Model

| member | source | states |
|---|---|---|
| OrderedArrays.InsertKeepsOrder | sys/ordered_array.c:49-75 | insertion into an array sorted by any strict weak order leaves it sorted and adds exactly the item to the multiset of entries |
| OrderedArrays.InsertKeepsDistinct | sys/ordered_array.c:49-75 | inserting a new item keeps the entries distinct and lists exactly the old entries and the item |
| OrderedArrays.RemoveKeepsOrder | sys/ordered_array.c:84-93 | removal keeps the order and takes exactly the entry out of the multiset |
| OrderedArrays.RemoveKeepsDistinct | sys/ordered_array.c:84-93 | removal from a distinct array lists exactly the other entries |
| OrderedArrays.RemoveUndoesInsert | sys/ordered_array.c:49-93 | removing at the insertion position undoes the insertion |
| OrderedArrays.ResizeInPlaceKeepsOrderIff | sys/kheap.c:271 | changing the key of one entry in place keeps the array sorted if and only if the new key still lies between its two neighbours'; growth and free are judged by it |
| OrderedArrays.OrderedArray.Insert | sys/ordered_array.c:49-75 | the shifting loop in place computes the insertion of the item at the first position whose entry is not less |
| OrderedArrays.OrderedArray.Lookup | sys/ordered_array.c:77-82 | gives the entry at an index below the size |
| OrderedArrays.OrderedArray.Remove | sys/ordered_array.c:84-93 | with the size decremented, the entry and nothing else is gone |
| OrderedArrays.OrderedArray.RemoveAsWritten | sys/ordered_array.c:84-93 | as committed, two copies of a stale slot are appended: the contents are never what removal should give and never distinct |
| HeapLayout.HolesAreFew | sys/kheap.c:331-347 | a tiling of L bytes without adjacent holes has at most (L + 20) / 40 holes |
| HeapLayout.IndexStaysSmall | include/kheap.h:17-19 | the index of a good heap has at most (L + 20) / 40 entries, so it never fills its 0x20000 slots while L < 0x500000 - 20 |
| HeapLayout.IndexEntryIsHole | sys/kheap.c:283-285 | every listed address is a hole of the tiling with its header, inside the region, and with a footer pointing back unless it is last |
| HeapLayout.BlockRecords | include/kheap.h:21-33 | in a good heap the words around a live pointer are a header and a footer with the magic number, a cleared hole flag, the size and the way back, and its payload is the bytes between them |
| HeapLayout.HoleRecords | include/kheap.h:21-33 | the same around a listed hole, with the flag set; only at the end of the region may the footer be missing |
| HeapSteps.SplitKeepsLayout | sys/kheap.c:297-347 | replacing a listed hole by chunks that tile it, with their records, and listing their holes keeps the layout |
| HeapSteps.CarveKeepsLayout | sys/kheap.c:311-347 | splitting a hole into a block and a remainder keeps tiling, records, index agreement and apartness of holes |
| HeapSteps.GrowKeepsLayout | sys/kheap.c:237-277 | growth keeps the layout when the endmost hole is last or there is none |
| HeapSteps.MergeLeftHoles | sys/kheap.c:374-386 | after the left join the holes are the old ones and the joined one, which was listed exactly if there was a hole on the left |
| HeapSteps.MergeRightHoles | sys/kheap.c:388-410 | the right join loses exactly the right hole |
| HeapSteps.TrimKeeps | sys/kheap.c:412-426 | cutting the last hole back keeps tiling, records, holes and index |
| HeapSpec.FirstFitIsBestFit | sys/kheap.c:139-170 | in an index sorted by size the first hole that fits is a smallest one that fits |
| HeapSpec.FitsByAddress | sys/kheap.c:139-170 | which holes pass the test: the sizes decide, plus the bytes up to the page boundary for page-aligned requests at odd addresses only, and signs decide past 2^31 |
| HeapSpec.CarveIsLayout | sys/kheap.c:283-350 | bytes and index as alloc writes them form the layout of the carved tiling, and a sorted index stays sorted by size |
| HeapSpec.GrowIsLayout | sys/kheap.c:255-277 | under GrowOk, bytes and index as growth writes them form the layout of the grown tiling |
| HeapSpec.FreeIsLayout | sys/kheap.c:360-443 | under FreeOk, bytes and index as free writes them form the layout of the tiling with the block and its neighbours joined and trimmed |
| HeapSpec.AlignedIsLayout | sys/kheap.c:297-350 | under AlignedOk, what a page-aligned request writes is a layout with a hole in front of a block on a page boundary |
| HeapSpec.AlignedBroken | sys/kheap.c:297-347 | an empty front piece, a negative remainder, or one of 1 to 12 bytes (or of 16 to 19 in a region that ends soon enough) leaves a listed address that no tiling explains |
| HeapSpec.AlignedKeepsSortedIff | sys/kheap.c:302 | a page-aligned request keeps the index sorted if and only if the front piece still lies between the neighbours of the hole it was cut from |
| HeapSpec.FreedIndexLists | sys/kheap.c:400-442 | the index that free leaves lists exactly the old holes less the one on the right, and the new hole, each once |
| HeapSpec.FreeKeepsSortedIff | sys/kheap.c:384 | free keeps the index sorted if and only if there is no hole on the left or the joined and trimmed size still lies between its neighbours', the right hole being gone |
| HeapSpec.CarveKeepsSorted | sys/kheap.c:311-347 | removing the chosen hole and inserting the remainder keeps the index sorted by the sizes found in the new memory |
| HeapSpec.GrowKeepsSortedIff | sys/kheap.c:268-277 | growth keeps the index sorted if and only if the grown hole is its last entry |
| HeapSpec.GrownFits | sys/kheap.c:280 | after growth a listed hole fits the request, so the recursive call does not grow again |
| HeapSpec.MisGrownFits | sys/kheap.c:268-280 | after growth of a hole with a block behind it, the only hole that fits is that one and a live block starts inside the bytes to be handed out |
| HeapSpec.ExpandMapsAllIff | sys/kheap.c:99-105 | when the pages mapped so far cover the region, growth leaves it covered if and only if the page steps from the old end do not jump over the last page boundary |
| HeapSpec.BrokenFooter | sys/kheap.c:396-398 | a listed hole in front of the end whose footer does not point back fits no tiling |
| HeapSpec.BrokenEnd | sys/kheap.c:427-437 | a listed hole with no room in front of the end fits no tiling |
| HeapSpec.OthersStayInside | sys/kheap.c:412-426 | when the hole that a free leaves touches the end, every other live block ends in front of it |
| HeapSpec.CarvedSizes | sys/kheap.c:227-347 | the block carved out has the bytes asked for, or all of a hole with fewer than 20 more, and what is left is a hole |
| HeapWitnesses.EveryTilingArises | sys/kheap.c:317-347 | every tiling without adjacent holes is the layout of the bytes of some heap |
| HeapWitnesses.GrowthGoesAstray | sys/kheap.c:268-280 | two requests and a free bring a new heap, in a good layout, to where the next request is given bytes that hold the header of a live block |
| HeapWitnesses.FreeCanMissFooter | sys/kheap.c:396-398 | a heap in a good layout on which free needs the repair of the far footer |
| HeapWitnesses.FreeCanTrimItself | sys/kheap.c:412-437 | a heap in a good layout on which free, repaired or not, trims its own hole away |
| HeapWitnesses.FreeCanLoseOrder | sys/kheap.c:384 | a heap in a good layout, sorted, on which a free right in all else leaves 140 listed before 100 |
| HeapWitnesses.GrowthCanLoseOrder | sys/kheap.c:271 | a heap in a good layout, sorted, on which growth right in all else loses the order |
| HeapWitnesses.AlignedCanLoseOrder | sys/kheap.c:302 | a heap in a good layout, sorted, on which a page-aligned request right in all else leaves 44 listed behind 4000 |
| HeapWitnesses.AlignedCanBreak | sys/kheap.c:297-310 | a heap in a good layout whose hole passes the page-aligned test and has an empty front piece |
| HeapWitnesses.ExpandCanMissPage | sys/kheap.c:99-105 | a growth from a fully mapped region that leaves its last page unmapped |
| HeapWitnesses.FreeCanHalt | sys/kheap.c:391-407 | three requests and two frees bring a new heap, in a good layout and FreeOk, to where freeing its only block halts the kernel |
| KernelHeap.KHeap.constructor | sys/kheap.c:178-215 | a new heap is tiled by one listed hole behind the index, and good when it has the minimum size |
| KernelHeap.KHeap.Expand | sys/kheap.c:80-107 | grows to exactly the size asked for if that is even, to the next page multiple if it is odd, or halts, if and only if that passes the maximum; maps exactly the pages it steps on, and keeps a fully mapped region mapped exactly if the steps do not jump over the last page boundary |
| KernelHeap.KHeap.Contract | sys/kheap.c:109-137 | leaves exactly the new size when that is at least 0x70000 and its bit 12 is clear, and 0x70000 bytes otherwise; unmaps exactly the pages of the steps from the old end that stay past the new one, so none in front of a page-aligned new end |
| KernelHeap.KHeap.FindSmallestHole | sys/kheap.c:139-170 | gives -1 if and only if no listed hole passes the test, page-aligned or not, and otherwise the first that does |
| KernelHeap.KHeap.FindEndmost | sys/kheap.c:237-253 | gives the position of the listed hole with the highest address |
| KernelHeap.KHeap.Grow | sys/kheap.c:227-277 | halts exactly when the region may not grow; keeps a good heap good under GrowOk, and otherwise leaves only the endmost hole changed |
| KernelHeap.KHeap.CarveHole | sys/kheap.c:283-350 | writes the chosen hole's block, which takes the bytes asked for or, when fewer than 20 would be left, the whole hole, and its remainder, and takes out and inserts their index entries |
| KernelHeap.KHeap.Carve | sys/kheap.c:283-350 | turns the chosen hole into a block and a remainder and keeps a good heap good |
| KernelHeap.KHeap.CarveAligned | sys/kheap.c:283-350 | cuts the chosen hole short and leaves it listed; under AlignedOk with a block and a remainder behind it; otherwise an empty front piece reads as a block, and a remainder that is no chunk is listed all the same |
| KernelHeap.KHeap.AllocAligned | sys/kheap.c:217-351 | for a page-aligned request that a listed hole passes the test for: keeps a good heap good and returns a page boundary under AlignedOk, and leaves a heap no tiling explains under AlignedBreaks; the data begins at the first page boundary behind the hole's start |
| KernelHeap.KHeap.Alloc | sys/kheap.c:217-351 | for unaligned requests: uses the first fitting hole, halts exactly when nothing fits and the region may not grow, needs at most one expansion, is an AllocStep on a good heap under GrowOk, and otherwise hands out a block that overlaps a live header; the region grows exactly if nothing fits, and the hole used is split exactly if 20 bytes are left |
| KernelHeap.KHeap.MarkAndMergeLeft | sys/kheap.c:360-386 | the block becomes a hole joined with a hole on its left, with its footer pointing to the joined header; only that stretch is written, and the block's old header reads as a hole's |
| KernelHeap.KHeap.MergeRightHole | sys/kheap.c:388-410 | joins with a hole on the right, right exactly under RightOk; halts exactly on a stale hole header past the end |
| KernelHeap.KHeap.TrimEnd | sys/kheap.c:412-438 | cuts a last hole back to HEAP_MIN_SIZE when it starts 20 bytes below that mark; otherwise leaves no room for it and writes only its size and a footer in front of the new end; the new end is where contract puts it |
| KernelHeap.KHeap.FreeBlock | sys/kheap.c:360-443 | for a live block: a FreeStep under FreeOk, and otherwise a heap that no tiling explains; the region ends where it did, or, when the hole touches the end, where contract puts it |
| KernelHeap.KHeap.Free | sys/kheap.c:353-443 | the same with the null pointer ignored; pointers that fail the ASSERTs halt the kernel with nothing written; for live ones it halts exactly when a stale hole header lies past the end of a region whose last block is freed; a region cut back at a hole's start keeps every other live block inside |
| KernelHeap.KHeap.Execute | sys/kheap.c:217-443 | a list of operations that all go right is a run, from the heap before it to the heap after it |
| HeapSpec.FreeOutcome | sys/kheap.c:388-443 | ties what the three stages leave to FreeStep, or to the absence of any tiling, according to FreeOk |
| HeapRuns.LivePayloadsApart | sys/kheap.c:350 | the payloads of live blocks lie inside the region and share no byte |
| HeapRuns.AllocRefines | sys/kheap.c:217-351 | alloc keeps the heap good, adds one allocation of size to size + 19 bytes and changes no byte of any other |
| HeapRuns.AlignedRefines | sys/kheap.c:217-351 | a page-aligned alloc keeps the heap good, adds one allocation of exactly size bytes on a page boundary and changes no byte of any other |
| HeapRuns.FreeRefines | sys/kheap.c:353-443 | free removes exactly its allocation and changes no byte of any other |
| HeapSpec.FreeIsSplice | sys/kheap.c:374-426 | the three stages of free replace the block and its hole neighbours by one hole |
| HeapRuns.StoreRefines | sys/kheap.c:350 | a store inside a live payload changes that byte of that allocation and no other byte of any |
| HeapRuns.StoreKeepsGood | sys/kheap.c:350 | such a store harms no header, footer or index entry |
| HeapRuns.StepRefines | sys/kheap.c:217-443 | each operation does to the live blocks what it does to the map |
| HeapRuns.RunStaysGood | sys/kheap.c:217-443 | in every run of operations that go right, from a good heap, every heap is tiled, recorded, indexed and coalesced, and its length stays between HEAP_MIN_SIZE and its maximum |
| HeapRuns.RunRefines | sys/kheap.c:217-443 | every operation of every run refines the operation on the map from live pointers to stored bytes |
| HeapRuns.UntouchedBlockSurvives | sys/kheap.c:217-443 | whatever a run does elsewhere, a block neither freed nor stored to holds the same bytes at its end |
| HeapRuns.AllFreedIsOneHole | sys/kheap.c:374-410 | once all blocks are freed, in any order, one hole covers the region and is all the index lists |
| HeapRuns.JoinUndoesSplit | sys/kheap.c:331-426 | joining the block with its neighbours gives the old tiling back if and only if the hole was not last or the region has its minimum size |
| HeapRuns.FreeUndoesCarve | sys/kheap.c:331-426 | what free writes right after an alloc without growth restores the tiling and a good layout of it if and only if: for a hole that was not last, the far footer is written or nothing remained to join with; for a last one, the region has its minimum size |
| Frames.BitOfSet | sys/paging.c:30-58 | setting or clearing bit i of a word changes the answer of the test for bit i and no other |
| Frames.AllBitsSet | sys/paging.c:67-78 | a 32-bit word with all bits set is 0xFFFFFFFF, so a word that is not has a clear bit |
| Frames.FrameSet.UsedIsDigit | sys/paging.c:24-58 | the bit of frame f is binary digit f % 32 of word f / 32 |
| Frames.FrameSet.SetFrame | sys/paging.c:29-37 | adds exactly the frame of the address to the set |
| Frames.FrameSet.ClearFrame | sys/paging.c:39-47 | removes exactly the frame of the address from the set |
| Frames.FrameSet.TestFrame | sys/paging.c:49-58 | true if and only if the frame of the address is in the set |
| Frames.FrameSet.FirstFrame | sys/paging.c:60-80 | gives the least frame not in the set, or runs off its end if and only if there is none |
| Paging.PagesApart | sys/paging.c:198-222 | two virtual pages reach the same entry only if they are the same page |
| Paging.TakeKeepsExclusive | sys/paging.c:82-105 | a page without a frame taking an unused one keeps each frame held by at most one page and its bit set exactly if held |
| Paging.GiveKeepsExclusive | sys/paging.c:107-121 | a page giving its frame up keeps this if the frame's bit is cleared, and loses it if the bit stays |
| Paging.FrameRunStaysExclusive | sys/paging.c:82-121 | over every run of takes, gives and new tables no two pages hold the same frame and a nonzero frame's bit is set exactly if a page holds it |
| Paging.PagesHoldDistinctFrames | sys/paging.c:82-121 | under exclusive ownership two pages of a directory that have frames have different ones, whose bits are set |
| Paging.Pager.GetPage | sys/paging.c:198-222 | gives the table and index of the address; making a table changes the entry of no page and puts its physical address with the present, writable and user bits in its slot |
| Paging.Pager.MapRange | sys/paging.c:160-170 | gives the pages of a range the next frames in order and changes no other page |
| Paging.Pager.BootMap | sys/paging.c:146-170 | after boot page k < 1024 maps to frame k, heap page j < 256 to frame 1024 + j, each present, open to the user and not writeable, nothing else is mapped, and frame ownership is exclusive |
| Paging.Pager.AllocFrame | sys/paging.c:82-105 | a page with a frame is unchanged; another gets the least unused frame; it is a take in the sense of the runs, and exclusive ownership is kept |
| Paging.Pager.FreeFrame | sys/paging.c:107-121 | with the repair, the frame returns to the unused ones; it is a give in the sense of the runs, and exclusive ownership is kept |
| Paging.Pager.FreeFrameAsWritten | sys/paging.c:107-121 | as committed, below frame 4096 the bit of frame 0 is cleared instead, and exclusive ownership is always lost |
| Paging.Pager.CopyPagePhysical | sys/process.s:8-37 | copies one page and writes nothing else |
| Paging.Pager.CloneTable | sys/paging.c:255-287 | succeeds exactly when enough frames are left; every entry is blank or has a fresh frame holding its source's bytes; no frame in use is written |
| Paging.Pager.ClonedViews | sys/paging.c:289-331 | what cloning every slot amounts to for reads of any byte of any virtual page |
| Paging.Pager.ClonedTable | sys/paging.c:310-327 | what cloning a slot amounts to, entry by entry |
| Paging.Pager.CloneIsIsolated | sys/paging.c:321-327 | after a clone, a store through a page of the child whose table is not the kernel's shows nowhere in the parent, and a store in the parent on no such page of the child |
| Paging.Pager.CloneDirectory | sys/paging.c:289-331 | succeeds exactly when enough frames are left; tables that are the kernel's are shared and every other one is new, its entries blank or like the source's, present and open to the user, in frames that were not in use and hold the source's bytes; with the repair the child reads what the parent reads; as committed its private pages are mapped exactly where the parent's are not, and the views agree if and only if nothing is private; cloning the kernel's directory gives the identical mapping; exclusive ownership is kept |
| Tasking.StepKeepsInv | sys/task.c:112-240 | every step keeps ids increasing along the queue, entry points of waiting tasks in kernel code, and interrupts off exactly during a fork |
| Tasking.RunKeepsInv | sys/task.c:112-240 | the same over every run |
| Tasking.SavedIsTruthful | sys/task.c:143-155 | over every run each waiting task's registers are those last saved for it |
| Tasking.RunKeepsTasks | sys/task.c:26-215 | over every run each initialisation or fork adds one task at the end with the next id and its directory, and no task loses its place, id or directory |
| Tasking.TasksAreThoseMade | sys/task.c:26-215 | in every run from boot the queue is the tasks made, numbered from 1 in order, each with the directory it was made with |
| Tasking.DispatchResumesLastSave | sys/task.c:137-184 | in every run from boot a timer resumes the next task, or the first after the last, with exactly the registers last saved for it; it is never half built, and its entry point is never the sentinel |
| Tasking.EveryTaskGetsItsTurn | sys/task.c:148-151 | from every reachable state with n tasks, each is dispatched within n + f switches, f being the forks meanwhile |
| Tasking.RoundVisitsAllOnce | sys/task.c:148-151 | between two wraps every task queued by then is dispatched exactly once, in order |
| Tasking.Scheduler.InitialiseTasking | sys/task.c:26-49 | carries out the initialising step with a fresh task |
| Tasking.Scheduler.SwitchTask | sys/task.c:112-184 | carries out a timer step on the linked queue: the running task keeps the registers, and the task its link names, or the head of the queue, is loaded; does nothing before initialisation or when resumed |
| Tasking.Scheduler.BeginFork | sys/task.c:190-215 | the new task is last in the acyclic queue, behind the old ones in their order |
| Tasking.Scheduler.Append | sys/task.c:207-215 | the walk ends at the last task, and hanging a task there extends the list and changes no task otherwise |
| Tasking.Scheduler.EndFork | sys/task.c:222-233 | the child gets its registers, interrupts come back on, and the child's id is returned |
| StackMove.MoveStack | sys/task.c:73-110 | every word copied within size bytes of the new top holds, if it held any address strictly inside the old stack, that address plus the distance, and is the old word otherwise; the stack pointer is as far below the new top as it was below the old; nothing is written outside the words copied and those the loop visits |
| StackMove.Remap | sys/task.c:92-105 | every word the loop visits is moved by the distance once if it is an address strictly inside the old stack, and kept otherwise |
| StackMove.MovedAddress | sys/task.c:74-78 | the 32-bit sum with the offset is the address in the new stack in spite of wraparound |
| StackMove.MovedWord | sys/task.c:92-105 | any pointer into the live stack that is stored there, aligned or not, points as far below the new top when read on the new stack; any other word reads as before |
| StackMove.ChainMoves | sys/task.c:92-105 | following saved frame pointers on the new stack visits the old chain's addresses, each moved by the same distance, for chains of any length |
| StackMove.ChainEnds | sys/task.c:99-104 | a saved word survives unchanged if and only if it points out of the old stack, or the stack does not move |
| Monitor.WriteStaysTidy | sys/monitor.c:62-125 | on the page that never scrolls the cursor stays in columns 0 to 79 and never moves up |
| Monitor.RowsAboveAreFinal | sys/monitor.c:39-59 | rows the cursor has left never change, so what scrolls away is final |
| Monitor.WriteText | sys/monitor.c:104-118 | text of any length goes into consecutive cells, row after row, changes no other cell, and leaves the cursor behind it |
| Monitor.WriteControl | sys/monitor.c:78-118 | no other character writes a cell: a backspace goes one column left if it can, a tab to the next multiple of eight, a newline to the next row, a carriage return to column 0, and the rest nowhere |
| Monitor.WriteConcat | sys/monitor.c:147-156 | writing two strings is writing them as one |
| Monitor.Screen.Clear | sys/monitor.c:127-145 | every cell is a blank, white on black, the cursor is home, and the screen shows an empty page |
| Monitor.Screen.Scroll | sys/monitor.c:31-60 | past the last row every row moves up by one and the last is blank; otherwise nothing changes |
| Monitor.Screen.PutChar | sys/monitor.c:62-125 | a screen showing a page shows the page with the character put on it; text goes to the cursor, which moves on by one, control characters move it alone as the C says, and past the last cell all rows move up by one |
| Monitor.Screen.WriteString | sys/monitor.c:147-156 | after any string the screen shows the last 25 rows of the page with the string written to it; text that does not reach the end of the screen is there cell by cell, and no other cell changes |
| Keyboard.BitIsParityOfPresses | sys/keyboard.c:159-196 | after any scancodes a control bit is set if and only if its key was pressed an odd number of times since its release, or ever for a lock key |
| Keyboard.SinceReleaseIsLast | sys/keyboard.c:159-174 | what is counted since a release is the part of the history behind the key's last release |
| Keyboard.ShiftedByParity | sys/keyboard.c:202-207 | after any scancodes the shifted table is read if and only if a Shift or Caps lock was pressed an odd number of times, since its release for a Shift, and Ctrl was not |
| Keyboard.TypesByParity | sys/keyboard.c:177-196 | a press gives no character if and only if its key is a control key pressed an even number of times before |
| Keyboard.RunDeliversIff | sys/keyboard.c:131-214 | in every interleaving of the handler with the reader's statements, from an empty ring, the characters taken and then those pending are all those stored, in order, if and only if no store finds the ring in a losing state; each that does costs 256 characters, and none is ever duplicated or reordered |
| Keyboard.StoreOnPending | sys/keyboard.c:209-214 | what a store does to the characters the reader will still find: it appends, drops, or makes the ring forget them, as start, end and the reader's place decide |
| Keyboard.RingCanForget | sys/keyboard.c:209-214 | 256 stores into an empty ring leave a ring that looks empty |
| Keyboard.StoreAccounts | sys/keyboard.c:210-214 | a store keeps taken and pending characters a subsequence of the stored ones with the missing counted, also when it makes the ring forget 256 |
| Keyboard.Driver.Store | sys/keyboard.c:209-214 | is the machine's store: appends while a slot is free, drops when full, and loses 256 characters exactly when a full ring starts at 0 |
| Keyboard.Driver.Test | sys/keyboard.c:134 | a character is found if and only if one is pending |
| Keyboard.Driver.Take | sys/keyboard.c:136 | takes the oldest pending character, whatever was stored since the test |
| Keyboard.Driver.Mask | sys/keyboard.c:138-139 | returns that character, whatever was stored meanwhile |
| Keyboard.Driver.Press | sys/keyboard.c:177-196 | flips the bit of a control key, and reports a character for every press but one that switches a bit on |
| Keyboard.Driver.Release | sys/keyboard.c:159-174 | clears the bit of one of the first five control keys |
| Keyboard.Driver.Handle | sys/keyboard.c:153-216 | over every history of scancodes: a press stores the shifted character if and only if one of 42, 54 (since their release) and 58 was pressed an odd number of times and 29 was not, and the plain one otherwise; releases, and presses of a control key that is off, leave the ring alone |
| Initrd.MkInit | utils/mkinit.c:11-55 | the image holds the count, a record with offset and length for each file, and each file at its offset |
| Initrd.ImageLayout | utils/mkinit.c:11-55 | an image is the number of files, 64 slots of 76 bytes and the files without gaps; the slot of a file holds the magic byte, its place and its length |
| Initrd.ImageLoads | sys/initrd.c:72-74 | an image in memory reads as those records and files |
| Initrd.InitialiseInitrd | sys/initrd.c:69-142 | turns every header's offset into the address at which the file lies, keeps the lengths, harms no file, writes nothing outside the header table, and gives each file a node with its number and length |
| Initrd.ReadCountIsMinIff | sys/initrd.c:21-32 | the count is min(size, length - offset) if and only if offset + size does not wrap to a value inside the file |
| Initrd.ReadCountCanWrap | sys/initrd.c:25-28 | a read past the end of a file whose count is not cut |
| Initrd.Read | sys/initrd.c:16-33 | copies exactly min(size, length - offset) bytes of the file from offset on, and writes nothing else |
| Initrd.ReadSplit | sys/initrd.c:16-33 | any split into consecutive reads gives back the file's bytes in order, up to its end |

## Left out

- KernelHeap.KHeap.AllocAligned: page-aligned requests that no listed hole passes the test for are not followed further, and holes less than twelve bytes in front of a page boundary are excluded. A front piece of 1 to 19 bytes, or a remainder of 13 to 15, is not described further: its footer makes up the size its header then shows.
- KernelHeap.KHeap.Alloc: is for requests without page alignment, and requires that neither `size + 20` nor the grown end passes 2^32; the C wraps there.
- KernelHeap.KHeap.Free: requires a pointer that is null, live, or caught by the ASSERTs at sys/kheap.c:365-366; what free does to others is not modelled. It also requires a free index slot, which IndexStaysSmall gives for heaps below 0x500000 - 60 bytes.
- KernelHeap.KHeap.Grow: in the state left by a growth that goes astray only the index and the listed sizes are described.
- KernelHeap.KHeap.constructor: sys/kheap.c:194 rounds only odd addresses, and the start is never odd, so the rounding is absent. The start, end and maximum are required to be in order with room for one hole, as the one caller passes them.
- The index array is kept apart from raw memory, with its last two slots read as zero where `free` looks in front of the region; IndexStaysSmall says when they stay so.
- Page faults: reads and writes of unmapped addresses succeed in the model. The pages that `expand` and `contract` give and take are a set of page numbers.
- Paging.Pager.FreeFrame: the present bit stays set, as in the code, so the page's other flags are not those of an unmapped page.
- Frames.FrameSet.FirstFrame: running off the end, which returns no defined value in C, is a result of its own.
- The bitset of sys/paging.c:131-132 is sized in words but allocated and cleared in bytes. The model has the full length, all clear.
- `memset` past the end of a table in `clone_table` (sys/paging.c:261): a table is blank and nothing behind it is written.
- Page table entries are a sequence held by the table, not bit fields in raw memory; the physical addresses reported by `kmalloc_ap` are parameters.
- Paging.Pager.CloneDirectory: requires the bit of frame 0 and of every frame the source maps to be set, as after boot; frame 0 stands for no frame, as in the code.
- StackMove.MoveStack: the stack pointers are parameters, the loop that allocates the new stack's pages is absent, and the two stacks do not overlap.
- Tasking: page directories are numbers there; `kernel_stack` and the TSS are absent, and so is the child's return from `fork`.
- Tasking.Scheduler.BeginFork: `clone_directory` has been called already; its result is the parameter.
- Keyboard.Driver.Handle: the scancode and the layout's character tables are parameters; the I/O port is absent.
- Initrd.MkInit: files are given by their bytes; a missing file and the printing are absent. The memory of unused header slots is arbitrary.
- Initrd.Read: requires that the sum does not wrap to a value inside the file, where the C copies past its end, and that the buffer is outside the image.
- Ramdisk names, `initrd_readdir` and `initrd_finddir`: the names rest on a `strcpy` without a terminator.
- `monitor_write_dec`, `monitor_write_hex`, `monitor_write_padded` and the cursor's I/O ports: small formatting loops and hardware.
- Descriptor tables, timer, interrupts, system calls, the file-system dispatch and sys/elf.c: table filling, or code that is not built.
