# VulcanOS memory and console: a verified model

VulcanOS is a small 32-bit x86 kernel. This project models the parts of it that keep state in raw
memory, and proves what they keep true over whole runs:

* the boundary-tag heap (`kernel/mem/kheap.c`) with its size-ordered index
  (`kernel/mem/ordered_array.c`), read and written byte by byte;
* the physical-frame bitmap, the two-level page directory with tables made on demand by the boot
  allocator, and the mapping loops of boot (`kernel/mem/paging.c`);
* the 25 by 80 text console (`kernel/drivers/tty.c`) and the number printers behind it
  (`kernel/libc/string.c`).

The code is modelled as it is, not as it was meant. Where it does not do what it is for, the model
has the same fault, and the project proves the exact condition under which the code is right (a
condition a caller can read off the state before the call), usually for whole runs, together with
runs that break it.

## How it is laid out

What the kernel updates in place is a class whose methods have the loops and branches of the C code.
Each method is tied by its postcondition to a function from the old state to the new one, and the
properties are proved about those functions.

| file | content | source |
|---|---|---|
| `Memory.dfy` | little-endian words in a byte memory | |
| `OrderedArray.dfy` | the ordered array, in place on an array | `kernel/mem/ordered_array.c` |
| `KHeap.dfy` | the heap as functions of its state: every read and write of the unaligned paths | `kernel/mem/kheap.c` |
| `KernelHeap.dfy` | the heap object, its methods, the self-test at boot | `kernel/mem/kheap.c`, `kernel/kernel_main.c` |
| `Chunks.dfy` | the invariant: cells, chunk sequence, index and frames belong together | |
| `HeapAlloc.dfy`, `HeapFree.dfy` | what one request and one release do to the invariant, exactly | `kernel/mem/kheap.c` |
| `HeapRuns.dfy` | runs of requests, releases, writes by the clients and writes by anyone into spare bytes | |
| `HeapPages.dfy` | the frames behind the heap over runs of `expand` and `contract` | `kernel/mem/kheap.c` |
| `HeapOrder.dfy` | search, order of the index over whole runs, conservation of bytes | |
| `HeapStack.dfy` | last-allocated-first-released clients see a stack allocator | |
| `HeapFailures.dfy` | families of runs from a new heap that break it | |
| `Bits.dfy`, `Frames.dfy`, `Owners.dfy` | the frame bitmap as a set, and who owns which frame | `kernel/mem/paging.c` |
| `Backing.dfy` | the loops that give the pages of a range their frames and take them away | `kernel/mem/kheap.c`, `kernel/mem/paging.c` |
| `Paging.dfy`, `Boot.dfy`, `KernelPaging.dfy` | boot allocator, directory, mapping loops | `kernel/mem/paging.c`, `kernel/mem/kheap.c` |
| `BootHeap.dfy` | boot ends in a sound heap; its frames and pages | |
| `BootRuns.dfy` | runs of clients on the booted heap: what is sound and what never happens | |
| `CString.dfy`, `Console.dfy` | copying, digits, and the screen as a window onto an unbounded page | `kernel/libc/string.c`, `kernel/drivers/tty.c` |

`Chunks.Represents` is the heap's invariant: the chunks fill the heap from its start to its end
without gap or overlap, each at least 20 bytes long and with its header and footer in place (a hole
that closes the heap need not have a footer, because `create_heap` writes none), no two holes touch,
the index holds every hole once and nothing else and is not overfull, every page has a present frame
of its own, and no frame that is not there is marked as used.
`HeapAlloc.Good(h, live)` says that this holds with `live` as the set of blocks handed out. A run is
*sound* when it holds at every step. The heap's state includes the page entries of the directory and
the set of used frames (`Owners.Pool`), so that growth takes frames and contraction gives them back
as the code does. Besides the clients' requests, releases and writes, a run may contain writes by
anyone into bytes that are neither a tag nor a client's: inside a hole, past the heap, on the page
below it or on page 0.

## What was found

* **Growth** gives the new space to the highest hole even if blocks lie behind it
  (`kernel/mem/kheap.c:173-202`). A request is right exactly when something fits, or there is room to
  grow, the heap has no hole or ends in one, and there is a free frame for every new page that has
  none: `HeapAlloc.AllocExact`, broken by `HeapFailures.GrowthBreaks` and, for want of frames, by
  every request in `HeapAlloc.GrowthStarves`.
* **Right merge** takes the far footer from the wrong place and never redirects it
  (`kernel/mem/kheap.c:290-291`). It is right exactly when the hole joined is the last chunk:
  `HeapFree.FreeExact`, broken by `HeapFailures.InnerMergeBreaks`.
* **Contraction** masks with 0x1000 instead of the page mask (`kernel/mem/kheap.c:77-80`). A release
  at the end of the heap is right only when the joined hole starts early enough for the minimum
  size to decide: `HeapFree.FreeExact`, broken by `HeapFailures.ContractionBreaks`. The mask itself
  keeps the bytes it must keep exactly in `HeapPages.ContractKeeps`.
* **A release at the end of the heap** first looks for a header past the end
  (`kernel/mem/kheap.c:287-288`), and faults if that page is not present. On the heap the kernel
  creates it never is: no sound run from boot releases a block that ends the heap, any such release
  stops the kernel, and the heap never shrinks (`BootRuns.RunLaid`, `BootRuns.BootedRunExact`,
  `BootRuns.BootedEndReleaseStops`). What is said here about contraction therefore concerns heaps with
  a present page past their end, which the kernel does not create. A page whose frame was taken away
  is still present and shows frame 0.
* **Unmapping** steps down from the old end, so that after a contraction to an end inside a page a
  second one can take the frame of the page that holds the new end (`kernel/mem/kheap.c:85-90`):
  `HeapPages.RunExact` with `HeapPages.TwoContractionsBreak`, whichever way frames are released.
* **Left merge** changes the sort key of an indexed hole (`kernel/mem/kheap.c:282`), alone, with a
  right merge or with a contraction: the index stays sorted exactly under the condition of
  `HeapOrder.LeftMergeSorted`. Nothing else disturbs it, so over a run it stays sorted exactly when
  every left merge meets that condition (`HeapOrder.RunSortedExact`), and the search is then best-fit
  (`HeapOrder.RunBestFit`).
* **`free_frame`** passes a frame number where an address is expected (`kernel/mem/paging.c:66`):
  `Owners.FreeExact`, `Owners.ReleaseExact`, `Owners.LowReleaseLosesPage`. A contraction is right only
  if every frame it releases is at least 4096 and its number divided by 4096 belongs to no page
  (`Backing.UnbackRangeExact`). After boot that is so for no page at all, whatever the size of the
  kernel (`BootHeap.BootedReleaseBreaks`), so contracting the booted heap would break it
  (`BootHeap.BootedContractionBreaks`); growing back over a low frame gives a page frame 0
  (`BootHeap.BootedRegrowthBreaks`). With the frame's address in place of its number all of this is
  sound: `Backing.UnbackAtAddress`, `HeapPages.RunExact`, `HeapPages.ShrinkThenGrow`, and for whole
  releases `HeapFree.FreeExact`.
* **Exhaustion of frames** is reported as the number of frames and tested as 2^32 - 1
  (`kernel/mem/paging.c:38`, `kernel/mem/paging.c:46`): `Owners.ExhaustionUnreported`.
* **The bitmap** is allocated at a quarter of its size (`kernel/mem/paging.c:74-75`). The identity map
  has exactly `Boot.IdentityPages` pages, a number computed from the placement address and the memory
  size, and boot writes only inside the allocation exactly when those and the heap's pages are in the
  first quarter (`Boot.BitmapReserved`); for the kernel's 256 MiB that is when the kernel ends below
  0x3EDA800 (`Boot.KernelBitmap`). The model's bitmap has all of its words: past that limit its boot is
  that of a kernel with the allocation repaired. `BootRuns.BootedRunReserved` extends the condition to
  whole runs.
* **`memmove`** copies forward whatever the overlap (`kernel/libc/string.c:128-136`): exact in
  `CString.ForwardCopyExact`, harmless where the console uses it (`Console.Screen.Scroll`).
* **`kprint_dec`** prints nothing from 2^31 on, and for 0 whatever lies at address 48
  (`kernel/drivers/tty.c:77-85`): `CString.DecimalText`, `Console.Screen.KprintDec`.
* The comment at `kernel/mem/paging.h:35` speaks of 15 MiB; the constant below it is 256 MiB. The
  boot proofs hold for any memory size with frames for all that boot maps (`Boot.RoomAtBoot`, which is
  exact: `Boot.BootExact`).

## Model

| member | source | states |
|---|---|---|
| `OrderedArrays.OrderedArray.PlaceAt` | kernel/mem/ordered_array.c:23-31 | a new array is empty, has the given number of places and is zeroed |
| `OrderedArrays.OrderedArray.Lookup` | kernel/mem/ordered_array.c:56-58 | reads the item at a position of the live prefix |
| `OrderedArrays.OrderedArray.Insert` | kernel/mem/ordered_array.c:37-54 | the loops put the item before the first element that is not less than it and keep all others in order; into a full array this writes the word behind it |
| `OrderedArrays.OrderedArray.Shift` | kernel/mem/ordered_array.c:43-51 | the second loop moves every element from a place on up by one, in order, and puts the item there |
| `OrderedArrays.OrderedArray.Remove` | kernel/mem/ordered_array.c:60-66 | the shifting loop deletes exactly the given position, from a full array too; a position past the end drops the last element |
| `OrderedArrays.InsertKeepsSorted` | kernel/mem/ordered_array.c:37-54 | for any strict weak order insertion keeps the array sorted, adds exactly the item, and stands before its equals |
| `OrderedArrays.RemoveMultiset` | kernel/mem/ordered_array.c:60-66 | removal takes exactly the item at the position |
| `OrderedArrays.InsertThenRemove` | kernel/mem/ordered_array.c:37-66 | removing at the place of an insertion undoes it |
| `KHeap.FirstFit` | kernel/mem/kheap.c:112-121 | the position the unaligned search finds holds enough bytes and none before it does; the length of the index when none does |
| `KHeap.Highest` | kernel/mem/kheap.c:173-182 | the highest indexed address, or the start value |
| `KernelHeap.Heap.constructor` | kernel/mem/kheap.c:134-158 | the state of a heap whose assertions passed is what `KHeap.CreateHeap` says: the header of one hole and an index with that hole |
| `KernelHeap.CreateHeap` | kernel/mem/kheap.c:128-158 | the call with its two assertions: no heap when start or end is not on a page boundary, else the one `KHeap.CreateHeap` says |
| `KernelHeap.Heap.Expand` | kernel/mem/kheap.c:51-72 | page rounding, the limit check, `alloc_frame` for every page of the new space, the new end |
| `KernelHeap.Heap.Contract` | kernel/mem/kheap.c:74-94 | the literal rounding, the minimum size, `free_frame` as written for every page the loop visits, the new end |
| `KernelHeap.Heap.FindSmallestHole` | kernel/mem/kheap.c:112-121 | the loop finds the first indexed hole that is large enough |
| `KernelHeap.Heap.HighestHole` | kernel/mem/kheap.c:173-182 | the loop finds the highest indexed hole |
| `KernelHeap.Heap.Find` | kernel/mem/kheap.c:293-295 | the loop finds the first position of an item, or the size of the index |
| `KernelHeap.Heap.Grow` | kernel/mem/kheap.c:165-202 | after expansion the highest hole is longer, with a new footer, or a new hole is indexed |
| `KernelHeap.Heap.Alloc` | kernel/mem/kheap.c:160-259 | the whole call: the recursion terminates, and result, memory, index, bounds and frames are those of `KHeap.Alloc`; a failed assertion is reported |
| `KernelHeap.Heap.Carve` | kernel/mem/kheap.c:230-255 | the in-place rewriting of a hole into a block and a rest |
| `KernelHeap.Heap.PutHole` | kernel/mem/kheap.c:244-254 | header, footer if it lies below the end, and index entry of the rest |
| `KernelHeap.Heap.MergeLeft` | kernel/mem/kheap.c:276-284 | the left merge as a function of the memory before |
| `KernelHeap.Heap.MergeRight` | kernel/mem/kheap.c:286-302 | the right merge with the footer the code computes, and the fault when the header it looks at is not present |
| `KernelHeap.Heap.Settle` | kernel/mem/kheap.c:304-328 | contraction, both branches on the remainder, and the final insertion |
| `KernelHeap.Heap.Free` | kernel/mem/kheap.c:261-329 | the whole call is `KHeap.Free`; a failed assertion or a page fault is reported |
| `KernelHeap.Kmalloc` | kernel/mem/kheap.c:10-17 | on a sound heap a guarded request returns a block not handed out before, long enough, and changes no byte of any other block |
| `KernelHeap.Kfree` | kernel/mem/kheap.c:31-33 | 0 is ignored; on a sound heap a guarded release gives back that block only and changes no byte of any other |
| `KernelHeap.SelfTest` | kernel/kernel_main.c:66-77 | the self-test succeeds: the third address is the second, and the heap ends as it began |
| `KernelHeap.GrowthIndex` | kernel/mem/kheap.c:170-202 | growth moves the end, never past the maximum, and indexes at most one new hole |
| `Chunks.TilesLayout` | kernel/mem/kheap.h:36-46 | chunks of a tiling are in address order, disjoint and inside the heap |
| `Chunks.ChunksDetermined` | kernel/mem/kheap.h:36-46 | a heap stands for one chunk sequence only |
| `Chunks.IndexedOnce` | kernel/mem/kheap.c:253-255 | the index holds every hole exactly once and nothing else |
| `HeapAlloc.CarveGood` | kernel/mem/kheap.c:207-258 | carving keeps the invariant, adds one block of the right size, and changes no byte of another block |
| `HeapAlloc.RoundUpBounds` | kernel/mem/kheap.c:55-59 | rounding in `expand` adds more than was asked for, at most a page more, and leaves a size below a page alone |
| `HeapAlloc.GrowPlaced` | kernel/mem/kheap.c:63-71 | growth puts a frame of its own behind all of the new space if and only if there are free frames for the pages that have none |
| `HeapAlloc.GrowRepresents` | kernel/mem/kheap.c:165-202 | growth at a last hole, or without holes, with tables and frames for the new pages, keeps the invariant and extends the last hole or adds one |
| `HeapAlloc.GrowthFits` | kernel/mem/kheap.c:165-204 | after growth a hole fits; if none did before it is the highest one, longer by the growth |
| `HeapAlloc.GrowsAtMostOnce` | kernel/mem/kheap.c:165-204 | where the page tables for growth exist, the second search always finds a hole; the call stops the kernel exactly when nothing fits and the maximum is reached |
| `HeapAlloc.AllocSafe` | kernel/mem/kheap.c:160-259 | under the guard: invariant kept, one new block of the request plus 20 to 39 bytes, all other blocks byte for byte unchanged, start, limit and page tables the same |
| `HeapAlloc.GrowthSwallows` | kernel/mem/kheap.c:173-202 | growth over a last block always breaks the heap |
| `HeapAlloc.GrowthStarves` | kernel/mem/paging.c:45-57 | growth without frames enough marks a frame that does not exist, and no sound reading of the heap remains |
| `HeapAlloc.AllocExact` | kernel/mem/kheap.c:160-259 | a request keeps the heap sound if and only if the guard holds: something fits, or there is room to grow at a hole or without holes and frames enough |
| `HeapOrder.AllocFirst` | kernel/mem/kheap.c:160-163 | a request that fits is answered from the first indexed hole that is large enough, at its address plus the header, whatever the order of the index |
| `HeapOrder.BySizeExact` | kernel/mem/kheap.c:124-126 | sorted by the kernel's comparison means that the sizes of the holes do not fall along the index |
| `HeapOrder.AllocBestFit` | kernel/mem/kheap.c:96-163 | on a sorted index the block comes from a hole no larger than any other that is large enough |
| `HeapOrder.AllocGrown` | kernel/mem/kheap.c:165-205 | when nothing fits, a guarded request is answered at the hole that ends the heap or else at the old end, and the end moves by more than the need, at most a page more |
| `HeapOrder.AllocWrites` | kernel/mem/kheap.c:207-255 | a request that fits replaces that hole by the block and the rest, or by the block alone when the rest is under 20 bytes; both get both tags, and no byte outside these tags changes |
| `HeapFree.MergeLeftWrites` | kernel/mem/kheap.c:273-284 | after the left merge the joined hole has its header and footer, and nothing else changed |
| `HeapFree.FreeMiddle` | kernel/mem/kheap.c:261-329 | a release without a hole on the right leaves the joined hole in the place of the chunks |
| `HeapFree.FreeRightLast` | kernel/mem/kheap.c:286-302 | a right merge with the last hole, with or without a left merge, keeps the invariant |
| `HeapFree.FreeRightInner` | kernel/mem/kheap.c:288-291 | a right merge further inside leaves no state that satisfies the invariant |
| `HeapFree.ContractPool` | kernel/mem/kheap.c:85-90 | contraction to the minimum releases the frames of exactly the pages above the one at the new end |
| `HeapFree.ContractPlaced` | kernel/mem/kheap.c:82-93 | it keeps a frame of its own behind every page of the heap if and only if no release clears the bit of a reserved or held frame, and always when frames are given back at their address |
| `HeapFree.SettleShrinks` | kernel/mem/kheap.c:304-315 | contraction inside the minimum size cuts the last hole to end at the minimum, with its tags, and keeps the frames sound exactly when its releases do |
| `HeapFree.SettleBeyond` | kernel/mem/kheap.c:304-324 | contraction to a size without room for the hole leaves it indexed beyond the end |
| `HeapFree.FreeLast` | kernel/mem/kheap.c:304-328 | the release of the last chunk under the guard keeps the invariant |
| `HeapFree.FreeLastUnclean` | kernel/mem/kheap.c:85-90 | a release whose contraction clears the bit of a reserved or held frame leaves no sound reading of the heap |
| `HeapFree.FreeLastBeyond` | kernel/mem/kheap.c:304-324 | a contraction that is reached and cuts beyond the minimum completes and leaves no sound reading of the heap |
| `HeapFree.FreeLastFails` | kernel/mem/kheap.c:286-324 | the release of the last chunk faults when the page past the heap is not present, stops when a stray hole lies there, and breaks the heap when contraction cuts elsewhere |
| `HeapFree.FreeOverflows` | kernel/mem/kheap.c:326-328 | one more hole than the index has places is written behind the index, and no sound reading of the heap remains |
| `HeapFree.FreeExact` | kernel/mem/kheap.c:261-329 | a release, as written or with frames given back at their address, keeps the heap sound if and only if its guard holds (the latter without the condition on frames), and then changes no byte of any other block and leaves start, limit and page tables the same |
| `HeapFree.FreeWrites` | kernel/mem/kheap.c:273-315 | a guarded release writes the block's hole flag, the header address in its footer, the size of the joined hole, a footer when the heap contracts, and no other byte |
| `HeapFree.FreeRejects` | kernel/mem/kheap.c:266-271 | on any heap a release stops the kernel when the header or the footer it finds has no magic |
| `HeapFree.PastEndRead` | kernel/mem/kheap.c:287-288 | what the release of the last block sees past the heap: nothing on an absent page, address 0 on a page that lost its frame, else the bytes there |
| `HeapRuns.LiveDisjoint` | kernel/mem/kheap.c:232-258 | blocks handed out and not released are pairwise disjoint |
| `HeapRuns.ScribbleGood` | kernel/mem/kheap.c:257-258 | a client's write into its own bytes, whatever it writes, keeps the heap sound and other blocks unchanged |
| `HeapRuns.SpareGood` | kernel/mem/kheap.c:232-251 | nor does a write by anyone into bytes of a hole, past the heap, on the page below it or on page 0 |
| `HeapRuns.StepExact` | kernel/mem/kheap.c:160-329 | one step of heap and clients keeps soundness if and only if it meets its guard |
| `HeapRuns.RunExact` | kernel/mem/kheap.c:160-329 | a run of requests, releases and writes is sound at every step if and only if every step meets its guard, frames and the page past the end included |
| `HeapRuns.RunKeeps` | kernel/mem/kheap.c:160-329 | what a client holds and does not touch is unchanged, byte for byte, at the end of any guarded run |
| `HeapRuns.CreatedGood` | kernel/mem/kheap.c:128-158 | the created heap is sound if and only if it is large enough, has frames and no stray tag below it; its start, end, limit, flags and pages are the ones given, the start moved past the index, and only the header's bytes are written |
| `HeapOrder.SearchComplete` | kernel/mem/kheap.c:96-122 | the search fails exactly when no hole is large enough, whatever the order of the index |
| `HeapOrder.SearchBestFit` | kernel/mem/kheap.c:96-122 | on a sorted index it finds a smallest hole that is large enough |
| `HeapOrder.AllocKeepsSorted` | kernel/mem/kheap.c:160-259 | a guarded request keeps the index sorted, growth included |
| `HeapOrder.FreeKeepsSorted` | kernel/mem/kheap.c:286-328 | a release with a right merge or none keeps it sorted |
| `HeapOrder.FreeLastKeepsSorted` | kernel/mem/kheap.c:304-328 | so does a contracting release without a left merge |
| `HeapOrder.LeftMergeSorted` | kernel/mem/kheap.c:276-315 | after any guarded left merge, alone, with a right merge or of the last, contracting chunk, the index is sorted if and only if the joined hole's size fits between its neighbours in the index |
| `HeapOrder.FreeSortedExact` | kernel/mem/kheap.c:261-329 | a guarded release leaves a sorted index sorted if and only if it meets its order guard |
| `HeapOrder.RunSortedExact` | kernel/mem/kheap.c:160-329 | over a sound run the index is sorted at every step if and only if every release meets its order guard |
| `HeapOrder.RunBestFit` | kernel/mem/kheap.c:96-163 | at the end of such a run a request that fits is answered from a smallest hole that is large enough |
| `HeapOrder.Conserved` | kernel/mem/kheap.c:128-329 | bytes in indexed holes plus bytes handed out are all the bytes of the heap |
| `HeapOrder.AllocMoves` | kernel/mem/kheap.c:207-255 | a request moves exactly the granted bytes from free to used; only growth adds bytes |
| `HeapOrder.FreeMoves` | kernel/mem/kheap.c:276-324 | a release moves them back; only contraction takes bytes away |
| `HeapStack.PushShape` | kernel/mem/kheap.c:160-259 | on blocks followed by one hole a request returns the address just past the blocks and keeps the shape |
| `HeapStack.PopShape` | kernel/mem/kheap.c:261-329 | releasing the last block restores the shape before it was requested |
| `HeapStack.StackRefined` | kernel/mem/kheap.c:160-329 | for every run of pushes and pops that fits, the heap is the stack's blocks and one indexed hole, the addresses are the stack's, and no frame changes hands |
| `HeapStack.FreshRefines` | kernel/mem/kheap.c:128-158 | a heap as created is the empty stack |
| `HeapStack.EmptiedIsWhole` | kernel/mem/kheap.c:160-329 | a run that ends with an empty stack restores the full-size hole and the index |
| `HeapStack.SelfTest` | kernel/kernel_main.c:66-77 | for all sizes and depths a request after a release returns the released address |
| `HeapFailures.InnerMergeBreaks` | kernel/mem/kheap.c:286-302 | for all sizes that fit: three requests, then the second and the first released, break a new heap |
| `HeapFailures.LastBlockFaults` | kernel/mem/kheap.c:287-288 | a block that takes the whole heap cannot be released when the page past the heap is not present |
| `HeapFailures.GrowthBreaks` | kernel/mem/kheap.c:173-202 | for all sizes that fill the heap: releasing the first block and asking for more breaks it |
| `HeapFailures.ContractionBreaks` | kernel/mem/kheap.c:286-324 | for all sizes that fill the heap with the second block beyond the minimum size: releasing that block completes and breaks the heap if the page past the end is present with no stray hole on it, and stops the kernel otherwise |
| `HeapPages.ExpandFramed` | kernel/mem/kheap.c:51-72 | growth by any size leaves every page of the heap with a frame of its own if and only if there are frames enough |
| `HeapPages.ContractFramed` | kernel/mem/kheap.c:74-94 | contraction never goes below the minimum, and leaves every page of the heap a frame of its own if and only if it takes none that the heap still needs and, as written, no release clears another frame's bit |
| `HeapPages.RunExact` | kernel/mem/kheap.c:51-94 | over any run of growth and contraction, with frames released as written or at their address, every page has a frame of its own if and only if every step meets its guard |
| `HeapPages.GuardMet` | kernel/mem/kheap.c:74-94 | no page of the heap is lost by contraction to sizes the minimum covers, or of heaps that end on a page boundary |
| `HeapPages.TwoContractionsBreak` | kernel/mem/kheap.c:85-90 | two unrounded contractions lose the frame of the last page, whichever way frames are released |
| `HeapPages.ContractKeeps` | kernel/mem/kheap.c:77-83 | the bytes to keep are kept if and only if the mask does not apply or the minimum covers them; otherwise the heap falls to the minimum |
| `HeapPages.RefusedExactly` | kernel/mem/kheap.c:51-75 | growth is refused exactly when it adds nothing or passes the limit, contraction exactly when it takes nothing |
| `HeapPages.ShrinkThenGrow` | kernel/mem/kheap.c:51-94 | with frames released at their address, shrinking to the minimum and growing back leaves every page with a frame and as many frames free as before |
| `HeapPages.RegrowthLosesPage` | kernel/mem/paging.c:61-69 | as written, if one frame given back is below 4096, the first page that grows back is given frame 0 and stays unbacked |
| `Bits.MaskTest` | kernel/mem/paging.c:36 | the mask test is the test of that bit |
| `Bits.SetAndClear` | kernel/mem/paging.c:17-29 | the two mask statements change that bit only |
| `Frames.SetAdds` | kernel/mem/paging.c:17-22 | through section and offset exactly one frame is added to the set |
| `Frames.ClearRemoves` | kernel/mem/paging.c:24-29 | exactly one frame is removed from the set |
| `Frames.LeastUnique` | kernel/mem/paging.c:31-39 | a free frame with only used ones below it, or the count when all are used, is the only answer to the search |
| `Frames.FrameBitmap.constructor` | kernel/mem/paging.c:72-75 | a new bitmap has a word for every 32 frames and no frame is used |
| `Frames.FrameBitmap.SetFrame` | kernel/mem/paging.c:17-22 | the bitmap in place: the frame of the address joins the used set |
| `Frames.FrameBitmap.ClearFrame` | kernel/mem/paging.c:24-29 | it leaves the used set |
| `Frames.FrameBitmap.FirstFrame` | kernel/mem/paging.c:31-39 | skipping full sections, the loops return the least free frame, or the number of frames exactly when all are used |
| `Owners.ExhaustionUnreported` | kernel/mem/paging.c:38-47 | the test for exhaustion never fires; the search reports it as the number of frames |
| `Owners.AllocExact` | kernel/mem/paging.c:41-59 | allocation keeps ownership if and only if the page is backed or a frame is free; a backed page changes nothing; else the page alone gets an unused frame, is present, closed to user mode, and writable as asked |
| `Owners.FreeExact` | kernel/mem/paging.c:61-69 | the literal release keeps ownership if and only if the bit it clears is that of no reserved or held frame |
| `Owners.ReleaseExact` | kernel/mem/paging.c:61-69 | a release returns the frame if and only if it clears the bit of the frame's address; passing the number never does |
| `Owners.AddressReleaseKeeps` | kernel/mem/paging.c:61-69 | passing the address keeps ownership and takes that frame from that page only |
| `Owners.AllocThenRelease` | kernel/mem/paging.c:41-69 | allocating and releasing at the address restores the used frames |
| `Owners.LowReleaseLosesPage` | kernel/mem/paging.c:61-69 | releasing a low frame hands frame 0 to the next page, which then counts as not backed |
| `Owners.RunExact` | kernel/mem/paging.c:41-69 | over any run of allocations and both kinds of release, ownership (frame 0 reserved, every held frame marked and present, none held twice, none beyond memory) holds all along if and only if every step meets its guard |
| `Backing.BackRangeExact` | kernel/mem/kheap.c:65-70 | giving frames to a range of pages keeps ownership if and only if there are free frames for those that have none; then all of them hold one, and exactly that many fewer are free |
| `Backing.BackRangeEntries` | kernel/mem/kheap.c:67-68 | the entries written for pages that had no frame: present, closed to user mode, writable as asked |
| `Backing.UnbackRangeEffect` | kernel/mem/kheap.c:86-90 | taking frames from a range clears exactly the computed bits and only the entries of the range |
| `Backing.UnbackRangeExact` | kernel/mem/kheap.c:86-90 | as written it keeps ownership if and only if every bit cleared belongs to no reserved or held frame |
| `Backing.UnbackAtAddress` | kernel/mem/kheap.c:86-90 | with the frame's address it always keeps ownership and gives back exactly the frames of the range |
| `Paging.BumpAligned` | kernel/mem/kheap.c:18-28 | an aligned request is answered on a page boundary exactly from one page up (or at 0), always past the placement address, and wastes at most a page |
| `Paging.BumpRunDisjoint` | kernel/mem/kheap.c:18-28 | over any run the ranges handed out follow one another without overlap |
| `Paging.BumpRunAbove` | kernel/mem/kheap.c:18-28 | over any run: above the start, aligned where asked for, at most a page lost per aligned request |
| `Paging.SameEntry` | kernel/mem/paging.c:109-113 | two addresses share an entry exactly when they lie in the same page; the table is the address's upper ten bits, the slot the next ten |
| `Paging.GetPageFlat` | kernel/mem/paging.c:109-122 | with make at most one table of zeroed entries is added; every other entry and every other directory word is unchanged |
| `Paging.BackPageFlat` | kernel/mem/paging.c:41-59 | backing a page changes its own entry only: present, read-only, closed to user mode, with the least free frame |
| `Paging.TableAddress` | kernel/mem/paging.c:115-118 | a table's physical address is recoverable from the stored word, because it was returned page-aligned |
| `Paging.NewTableWord` | kernel/mem/paging.c:115-118 | a new table lies on the page after the placement address's, and its word is that address plus 7 |
| `Boot.ReachShrinks` | kernel/mem/paging.c:82-88 | making a table never raises the bound on how far the placement address can get |
| `Boot.TablesMade` | kernel/mem/paging.c:82-84 | the heap's table exists after the first loop, with nothing backed |
| `Boot.OneTableMade` | kernel/mem/paging.c:82-84 | with the heap's table there, the loop changes nothing: it makes one table |
| `Boot.MapEndLeast` | kernel/mem/paging.c:87 | the bound of the loop that moves by two pages with every table is met first at the computed page |
| `Boot.LaidStep` | kernel/mem/paging.c:87-88 | one round moves the placement address by two pages exactly when the page is the first of a table |
| `Boot.IdentityMapped` | kernel/mem/paging.c:86-88 | the loop whose bound moves terminates exactly at the computed page, maps page k to frame k and no other page, and ends a page past the moved placement address |
| `Boot.HeapPagesBacked` | kernel/mem/paging.c:90-92 | the heap's pages get the next frames and the placement address does not move |
| `Boot.Booted` | kernel/mem/paging.c:71-97 | for any start and memory size with room: the identity map has exactly `Boot.IdentityPages` pages, over everything placed and the descriptor placed next; frames for the heap, ownership of all of them, entries read-only and closed to user mode, and no tables but those |
| `Boot.BootedWords` | kernel/mem/paging.c:82-92 | each table's directory word is the address of a page boot placed plus 7, and no two tables share a page |
| `Boot.BootExact` | kernel/mem/paging.c:71-97 | boot leaves every page a frame of its own if and only if there are frames for all it maps |
| `Boot.PoolOperations` | kernel/mem/paging.c:41-69 | on the directory as a flat map, allocation and release are those of the ownership model |
| `Boot.BitmapReserved` | kernel/mem/paging.c:74-75 | boot sets only bits whose words lie in the space allocated for the bitmap if and only if the pages it maps, computed from start and memory size, are at most a quarter of the frames |
| `Boot.KernelBitmap` | kernel/mem/paging.h:36 | for the kernel's memory size that is so if and only if the kernel ends below 0x3EDA800 |
| `Boot.BitmapOverrun` | kernel/mem/paging.c:74-75 | a kernel that ends there boots and sets a bit past the allocation |
| `KernelPaging.Kernel.constructor` | kernel/mem/paging.c:72-80 | the state after bitmap and directory are placed |
| `KernelPaging.Kernel.Kmalloc` | kernel/mem/kheap.c:18-28 | the boot allocator in place; the physical address reported is the address returned |
| `KernelPaging.Kernel.GetPage` | kernel/mem/paging.c:109-122 | directory and placement address in place, with and without `make`; table and slot of the entry returned, or none |
| `KernelPaging.Kernel.MakeTable` | kernel/mem/paging.c:115-118 | a missing table is placed, zeroed and entered with its word |
| `KernelPaging.Kernel.AllocFrame` | kernel/mem/paging.c:41-59 | bitmap and page entry in place; the new entry is present, read-only and closed to user mode |
| `KernelPaging.Kernel.FreeFrame` | kernel/mem/paging.c:61-69 | bitmap and page entry in place, with the bit the code clears |
| `KernelPaging.Kernel.MapPage` | kernel/mem/paging.c:88 | one round of a mapping loop |
| `KernelPaging.Kernel.MakeTables` | kernel/mem/paging.c:82-84 | the loop refines its function |
| `KernelPaging.Kernel.IdentityMap` | kernel/mem/paging.c:86-88 | the loop, reading its bound afresh every round, terminates and refines its function |
| `KernelPaging.Kernel.BackHeap` | kernel/mem/paging.c:90-92 | the loop refines its function |
| `KernelPaging.InitPaging` | kernel/mem/paging.c:71-92 | the whole sequence yields the state described by `Boot.Booted` |
| `BootHeap.BootedHeapGood` | kernel/mem/paging.c:71-97 | for any kernel size that leaves room, boot ends in a sound heap of 0x7F000 bytes at 0xC0081000, one hole over frames of its own |
| `BootHeap.BootedPlaced` | kernel/mem/paging.c:97 | the booted heap's start, end, limit and flags, over the page entries boot leaves |
| `BootHeap.BootedPool` | kernel/mem/paging.c:82-92 | the page entries boot leaves: identity pages and heap pages on the first frames in order, nothing else used or present, all read-only and closed to user mode, one table for the heap's area up to 0xC0400000 |
| `BootHeap.BootSupply` | kernel/mem/paging.c:82-92 | how many frames boot leaves free for growth, computed from start and memory size |
| `BootHeap.BootedReleaseBreaks` | kernel/mem/paging.c:61-69 | for every kernel size, `free_frame` on any page that holds a frame after boot breaks ownership |
| `BootHeap.BootedContractionBreaks` | kernel/mem/kheap.c:85-90 | for every kernel size, contracting the booted heap leaves it without sound frames |
| `BootHeap.BootedRegrowthBreaks` | kernel/mem/paging.c:61-69 | when the first page contraction takes has a frame below 4096, computed from start and memory size, growing the booted heap back gives that page frame 0: present, but counted as unbacked |
| `BootRuns.AllocPool` | kernel/mem/kheap.c:165-205 | a guarded request changes frames only by growth, and then by exactly the new pages, which are writable unless the heap is read-only, and closed to user mode |
| `BootRuns.FreeInside` | kernel/mem/kheap.c:261-329 | a release of a block that does not end the heap changes neither its end nor any frame |
| `BootRuns.FreeAtEnd` | kernel/mem/kheap.c:287-288 | a release of the block that ends the heap stops the kernel when the page past it is not present |
| `BootRuns.BackRangeLaid` | kernel/mem/kheap.c:66-70 | over pages without frames the loop hands out the next frames in order |
| `BootRuns.StepLaid` | kernel/mem/kheap.c:160-329 | every guarded step from boot keeps the layout, never releases the block that ends the heap, and never moves, shrinks or loses a page table |
| `BootRuns.RunLaid` | kernel/mem/kheap.c:160-329 | over every sound run from boot no block that ends the heap is released, the heap never shrinks, frames are taken in order only, and the end stays below 0xC0400000 |
| `BootRuns.WithinAllowed` | kernel/mem/kheap.c:65-70 | the requests modelled on the booted heap are exactly those that grow it at most to 0xC0400000, where boot's page table ends |
| `BootRuns.BootedRunExact` | kernel/mem/kheap.c:160-329 | every such run from boot is sound if and only if every step meets its guard, and then as `BootRuns.RunLaid` says |
| `BootRuns.BootedRunReserved` | kernel/mem/paging.c:74-75 | with the frames for all of that space in the first quarter, no sound run from boot marks a bit outside the bitmap's allocation |
| `BootRuns.BootedEndReleaseStops` | kernel/mem/kheap.c:287-288 | after every such run, releasing a block that ends the heap stops the kernel |
| `BootRuns.BootedLastBlockFaults` | kernel/mem/kheap.c:287-288 | in particular a block that takes all of the booted heap cannot be released |
| `CString.ForwardCopyExact` | kernel/libc/string.c:128-136 | `memmove` is right for every contents if and only if it does not copy upwards into its own source |
| `CString.ForwardCopyRepeats` | kernel/libc/string.c:128-136 | copying upwards into the source fills the destination with repetitions of the bytes before it |
| `CString.MemMove` | kernel/libc/string.c:128-136 | the loop in place |
| `CString.StrLen` | kernel/libc/string.c:84-89 | the first position that holds 0 |
| `CString.TextAt` | kernel/libc/string.c:84-89 | the text of a buffer is what stands before its first 0 |
| `CString.DigitsRoundTrip` | kernel/libc/string.c:50-82 | reading the digits back gives the value, for every value and radix 2 to 36 |
| `CString.NoLeadingZero` | kernel/libc/string.c:61-67 | only 0 starts with the digit 0, and every character is a digit of the radix |
| `CString.DigitChars` | kernel/libc/string.c:62-66 | the digits are the decimal ones and then the small letters |
| `CString.DigitsUnique` | kernel/libc/string.c:50-82 | no other digits without a leading zero read back as the value |
| `CString.DigitCount` | kernel/libc/string.c:61-67 | there are at most n digits exactly when the value is below radix to the n |
| `CString.LowFirstReversed` | kernel/libc/string.c:61-78 | reversing the digits in the order of the divisions gives them in reading order |
| `CString.PutDigits` | kernel/libc/string.c:61-67 | the division loop writes the digits, lowest first |
| `CString.ReverseRange` | kernel/libc/string.c:69-78 | the two-index loop reverses exactly the range |
| `CString.PrintDigits` | kernel/libc/string.c:61-81 | digits in reading order and a closing 0, nothing else touched |
| `CString.Uitoa` | kernel/libc/string.c:50-82 | the text left in the buffer is `0x` for radix 16 and nothing otherwise, and then digits that read back as the value, closed by 0; bytes beyond are untouched |
| `CString.BufferSuffices` | kernel/libc/stdio.c:6-33 | `printf`'s 20 bytes hold every 32-bit value if and only if the radix is at least 4, so in 10 and 16 |
| `CString.PutDecimal` | kernel/drivers/tty.c:82-89 | the first loop of `kprint_dec` writes the digits of a positive number, lowest first |
| `CString.CopyBack` | kernel/drivers/tty.c:91-95 | its second loop copies them backwards and closes with 0 |
| `CString.DecimalText` | kernel/drivers/tty.c:82-96 | the text left in the buffer is the digits `uitoa` writes if and only if the number is below 2^31, and empty from there on |
| `Console.Screen.constructor` | kernel/drivers/tty.c:11-12 | the cursor starts in row 0, column 1 |
| `Console.Screen.WriteCell` | kernel/drivers/tty.c:14-18 | character and attribute of one cell |
| `Console.Screen.ClearRow` | kernel/drivers/tty.c:129-132 | the row becomes blank and no other byte changes |
| `Console.Screen.Scroll` | kernel/drivers/tty.c:134-138 | the overlapping, over-long copy leaves the screen moved up by a row, with a blank last row |
| `Console.Screen.Newline` | kernel/drivers/tty.c:140-148 | the screen still shows the window after the page starts a new line |
| `Console.Screen.CursorAdv` | kernel/drivers/tty.c:27-34 | the same for one step of the cursor, with wrap |
| `Console.Screen.PutTab` | kernel/drivers/tty.c:150-153 | the same for a tab |
| `Console.Screen.KprintC` | kernel/drivers/tty.c:56-70 | for every text and every state: afterwards the 25 rows are the window of the unbounded page with the text laid out on it, and the cursor is where the page has it |
| `Console.Screen.Kprint` | kernel/drivers/tty.c:72-74 | the same for a text that ends in 0 |
| `Console.Screen.KprintDec` | kernel/drivers/tty.c:76-97 | the same for the decimal text of a number, and for 0 the text that lies at address 48 |
| `Console.PrintAppend` | kernel/drivers/tty.c:56-70 | printing in pieces is printing at once |
| `Console.PrintKeepsHistory` | kernel/drivers/tty.c:134-148 | rows above the cursor are never changed by later printing |
| `Console.PlainTextLands` | kernel/drivers/tty.c:56-70 | character i of a plain text stands i places after the cursor, 79 cells to a row, none in column 0 |
| `Console.TextLands` | kernel/drivers/tty.c:56-70 | for any text, newlines, carriage returns and tabs included: the cursor ends where the text says, every visible character stands at its computed position, every other cell is as it was, new cells are blank |
| `Console.PrintNewline` | kernel/drivers/tty.c:60-61 | a newline or carriage return starts the next row in column 1, blank if it is new, and changes no cell |
| `Console.PrintTab` | kernel/drivers/tty.c:62-63 | a tab moves the cursor four cells on and changes no cell |
| `Console.AttributeHalves` | kernel/drivers/tty.c:17 | the background is the high half of the attribute, the foreground the low half |
| `Console.BlankRowBytes` | kernel/drivers/tty.c:129-132 | a blank row is spaces, white on black |
| `Console.EveryScreenShows` | kernel/drivers/tty.c:11-12 | every screen is the window of some page, so `Console.Screen.KprintC` applies to every state |

## Left out

- KernelHeap.Heap.Alloc: requests so large that 32-bit sums wrap (`KHeap.NoWrap` keeps the maximum address plus the request plus a page below 2^32), page-aligned requests in the live heap, whose path underflows, absorbs before it shifts and misplaces a footer (`kernel/mem/kheap.c:102-111`, `kernel/mem/kheap.c:217-228`), and with them growth into space without a page table, where `get_page` re-enters `alloc` page-aligned (`kernel/mem/kheap.c:67`). `HeapAlloc.Modelled` says which requests remain.
- KernelHeap.Heap.Expand: a page whose table is missing is left alone; theorems about growth require the tables (`HeapAlloc.TablesFor`, `Backing.Tabled`), and `BootRuns.WithinAllowed` says how far boot's table goes.
- OrderedArrays.OrderedArray.Remove: the empty array, whose size the source would wrap around; the heap never removes from it.
- KernelHeap.Heap.Contract: the page entries and used frames are a value of the heap object; that the directory's arrays behave like it is `Boot.PoolOperations` and `KernelPaging`.
- KernelHeap.Heap.constructor: the index lies in an array of its own, with the word behind it, and not in the bytes before the heap's first header; the less-than function is passed at each insertion.
- KernelHeap.Kmalloc: the physical address reported for a block of the live heap (`kernel/mem/kheap.c:13-16`).
- KernelHeap.Kfree: releases of what was never handed out, or twice; a client's right to release is part of `HeapRuns.Allowed`. The read of the eight bytes below the heap is kept harmless by `Chunks.Placed` (a page that is there, and no tag on it).
- KernelPaging.Kernel.AllocFrame: the call with every frame used, which writes one word past the bitmap; what it does to ownership is in `Owners.AllocExact`.
- KernelPaging.Kernel.MapPage: the same call inside a mapping loop.
- KernelPaging.Kernel.constructor: the directory placed inside the bitmap's real extent, which the quarter-size reservation allows; bitmap and directory are separate objects here.
- Frames.FrameBitmap.constructor: the words beyond the first quarter, which the source neither reserves nor zeroes; `Boot.BitmapReserved` says when boot stays inside.
- Boot.Booted: kernels whose frames pass the first quarter of memory run the source's short bitmap into what follows it; the model's bitmap is the full one, and `Boot.BitmapReserved` is the exact condition under which they agree.
- BootHeap.BootedHeapGood: the same, and `BootHeap.BootSupply` counts the frames of the full bitmap.
- BootHeap.BootSupply: frames whose bits lie past the bitmap's allocation count as free; `BootRuns.BootedRunReserved` says when none of them is ever taken.
- KernelPaging.Kernel.GetPage: the page's cache, access and dirty bits.
- CString.Uitoa: radices outside 2 to 36, for which division by the radix or the letters fail.
- `memset` and `memcpy` loops (arrays are created with their contents), `strcmp`, `strcpy`, `strcat`, `strupper`, `strlower`: easy members.
- `itoa`: its reversal never advances and its prefix test is for radix 10; no intended property holds. The dispatch of `printf` on its format.
- Cursor port writes, `backspace`, `cursor_prev`, `clear_prompt` and the prompt text.
- Page faults, enabling of paging, interrupt and segment tables, timer, keyboard, CPU identification, file system, ram disk, shell, multiboot structures and all assembly: device effects or user interface.
- The byte layout of `heap_t`, `page_t` and the directory; headers, footers and the screen are modelled at their byte offsets.
