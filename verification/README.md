# MoltarOS kernel model

MoltarOS is a small i686 kernel. This project models its memory stack, its two balanced trees and intrusive queues, its
round-robin scheduler, its scrolling text screen and its formatted output, and proves what they are for.

- **Memory** (`Words`, `ByteMap`, `Memory`, `Heap`, `Paging`, `PageAlloc`, `KMem`, `KClient`). Memory is one array of
  2^32 bytes, and the page directory is read as the processor reads it. Superblocks keep their byte maps in memory;
  allocations are told apart by colours, and `free` recovers their length. `KMem` states the clients' view, a map from live
  pointers to sizes, and proves that every `kmalloc` and `kfree` keeps it sound; `KClient` runs any client against it from
  boot.
- **Trees** (`Elements`, `SearchOrder`, `Logs`, `RbShape`, `RbBalance`, `RbFix`, `RbOrder`, `RbTree`, `SplayShape`,
  `SplayCost`, `SplayTree`). The macros of `sys/tree.h` over an arbitrary lawful comparison. A ghost tree stands for the
  linked nodes; a context with a hole stands for the path a loop has climbed or descended; a potential pays for splaying.
- **Queues** (`Links`, `TailQueue`, `TaskList`). The TAILQ and LIST macros with links whose addresses are values.
- **Scheduler** (`SchedRun`, `Scheduler`, `StackCopy`). A state machine over interrupts, given-up slices and created
  threads; the class over the kernel's list is proved to take its steps, with thread stacks and heap in one memory.
- **Screen** (`Options`, `GrowArray`, `Viewport`, `Terminal`, `Vga`). The 25 by 80 screen as a window with write-back and
  masked cells onto a growing list of lines.
- **Output** (`Numerals`, `Formats`, `Fields`, `Printf`). Digits, padding and the format interpreter with its two sinks.

Classes follow the C structures: each method does the writes of the C function and is proved against a specification on
values; lemmas about that specification state the properties.

## What the proofs bring out

- A page at the end of the address space (0xFFC00000) makes a superblock whose end wraps to 0. `memheap_free` recognises
  a pointer exactly if it lies below that page, and blocks freed on it are leaked (`KMem.KernelMemory.KFree`,
  `KMem.RecognisedBelow`, `KMem.LastPageOwnsNothing`).
- The page cursor wraps, so the page at address 0 is handed out exactly when all others are taken
  (`PageAlloc.PageAllocator.AllocBlock`, `PageAlloc.SweptStep`). As a superblock address it is NULL: the heap loses all its
  superblocks and `kmalloc` panics with a slot to spare (`KMem.KernelMemory.KMalloc`).
- `kmalloc(0)` returns the address of a block it has not claimed; freeing that block falsifies `used`
  (`ByteMap.FreeKeepsCountIff`, `ByteMap.FreeingAFreeBlock`). `kfree` is therefore specified for NULL and live pointers.
- `kmalloc` admits requests up to 4 MB, but a page holds at most 3932128 bytes (`KMem.LargestRequest`).
- `copy_stack` copies nothing when the parent's stack is the last page, because the page end wraps to 0: the child gets
  a relocated copy exactly if that is not so or the words to be copied are zero (`StackCopy.CopyStack`,
  `StackCopy.ClonedIff`). A word equal to the page's own first address is not redirected (`StackCopy.RelocIsFullIff`).
- `vga_putc` passes column and row to `reserved` in the order the copying loops do not, so the mask never stops printing:
  what is printed into masked cells is on the screen but never in the document (`Viewport.ReservedNeverStopsPrinting`,
  `Terminal.RowEditsDocument`). Row 1 shows 65 cells of its line and row 0 shows 70, so a line that scrolls from one to the
  other shows five cells of its buffer that were not saved: it looks the same exactly if the buffer held those five
  (`Viewport.RowOneMovesUpIff`), and printing a letter there loses it (`Terminal.LetterIsLost`).
- With both flags, as in `%-05d`, zeros are put behind the number; section 7.21.6.1 of ISO C11 ignores `0` when `-` is
  present. `Numerals.RoundTrip` has the exact condition, `Numerals.OneReadsAsTen` an example. A `%c` with argument 0 prints
  an empty string.
- Splaying is logarithmic on average for every mix of operations, as the header promises (`SplayTree.SplayTree.PerformAll`).

## Model

| member | source | states |
|---|---|---|
| `Heap.GenerateIdentifier` | src/kernel/mm/heap.c:24-28 | the result is the smallest of 1, 2, 3 that differs from both arguments; the loop ends |
| `ByteMap.ClaimAddsOneRun` | src/kernel/mm/heap.c:81-87 | writing an identifier that differs from both neighbours over free blocks adds exactly that run to the runs of the map and disturbs no other |
| `ByteMap.ReleaseRemovesOneRun` | src/kernel/mm/heap.c:113-121 | freeing the blocks of a run removes exactly that run and disturbs no other |
| `ByteMap.ClaimThenRelease` | src/kernel/mm/heap.c:81-121 | after claim and free, found by colour alone, the map is exactly what it was |
| `ByteMap.FreeKeepsCountIff` | src/kernel/mm/heap.c:113-121 | `used` minus the blocks walked over is again the number of non-free entries if and only if the freed block was not already free |
| `ByteMap.FreeingAFreeBlock` | src/kernel/mm/heap.c:113-121 | a concrete map on which freeing a free block leaves `used` wrong |
| `ByteMap.RunsAreDisjoint` | src/kernel/mm/heap.c:113-121 | two runs of a map are equal or share no block |
| `ByteMap.FreshMapCapacity` | src/kernel/mm/heap.c:34-52 | for any block count and reservation, a fresh map serves a request if and only if it fits in the blocks the reservation leaves |
| `Heap.MemBlock.FreshCapacity` | src/kernel/mm/heap.c:34-52 | a fresh superblock of any size and block size serves a request if and only if its blocks fit behind the map |
| `Heap.MemBlock.GuardIsExact` | src/kernel/mm/heap.c:59 | the size guard skips a superblock only when it has no free run of the needed length, and its subtraction does not underflow |
| `Heap.MemBlock.FindFit` | src/kernel/mm/heap.c:66-96 | the scan finds the lowest position that starts enough free blocks, or there is none, although it skips short runs whole |
| `Heap.MemBlock.FreeBlocksFrom` | src/kernel/mm/heap.c:73-74 | the inner scan counts the free blocks up to the limit, whatever the byte behind the map holds |
| `Heap.MemBlock.NothingFitsBefore` | src/kernel/mm/heap.c:92-94 | no position inside a short free run, nor its end, starts a long enough run |
| `Heap.MemBlock.Probe` | src/kernel/mm/heap.c:59-97 | guard and scan together: first fit, or no fit, with respect to the map in memory |
| `Heap.MemBlock.Claim` | src/kernel/mm/heap.c:81-89 | the found blocks are filled with an identifier neither neighbour has, `used` counts them, the pointer is the address of the first block, nothing else changes |
| `Heap.MemBlock.PickIdentifier` | src/kernel/mm/heap.c:81 | the identifier chosen differs from both neighbours, including at the end of the map |
| `Heap.MemBlock.InitMap` | src/kernel/mm/heap.c:41-52 | the new map is all free except for the blocks the map itself occupies |
| `Heap.MemBlock.ClearRun` | src/kernel/mm/heap.c:113-121 | exactly the maximal stretch of equal identifiers from the block on becomes free |
| `Heap.MemBlock.Release` | src/kernel/mm/heap.c:109-121 | the same with `used` decreased by the number of blocks |
| `Heap.MemHeap.AddBlock` | src/kernel/mm/heap.c:30-53 | the new superblock is the first of the list with a fresh map, all others keep their maps; at address 0 the heap is empty instead |
| `Heap.MemHeap.FindRoom` | src/kernel/mm/heap.c:57-101 | the first superblock that has a long enough free run, with its lowest one |
| `Heap.MemHeap.Alloc` | src/kernel/mm/heap.c:55-102 | NULL exactly when no superblock has room; otherwise first fit in the first superblock that has one; memory changes in the claimed map entries only |
| `Heap.MemHeap.Free` | src/kernel/mm/heap.c:104-124 | a live allocation is found without its length and exactly its blocks are freed; on a superblock whose end wraps to 0 nothing happens |
| `PageAlloc.FirstFreeFrame` | src/kernel/mm/alloc.c:31-48 | the lowest clear bit of the frame bitmap, or PAGE_ERR exactly when all 1024 are set |
| `PageAlloc.SetFrame` | src/kernel/mm/alloc.c:98 | sets one bit and keeps the other 1023 |
| `PageAlloc.PairedMeans` | src/kernel/mm/alloc.c:64-125 | the invariant says that present entries map distinct frames and that the set bits are exactly the mapped frames |
| `PageAlloc.PairedAtBoot` | src/kernel/x86/boot.asm:43-56 | a directory with the bootstrap's two mappings, whatever its other flag bits, and the initial bitmap satisfy the invariant |
| `PageAlloc.BootWords` | src/kernel/x86/boot.asm:43-56 | the two words of the bootstrap directory map 0xC0000000 to frame 0 and 0xC0400000 to frame 1, writably, and nothing else is mapped; that is what alloc_init is assumed to find |
| `PageAlloc.PairedStep` | src/kernel/mm/alloc.c:98-101 | pairing a free slot with a free frame keeps the invariant |
| `PageAlloc.FreeSlotLeavesFreeFrame` | src/kernel/mm/alloc.c:86-93 | a free directory slot implies a free frame, so the free physical address panic is unreachable |
| `PageAlloc.PageAllocator.constructor` | src/kernel/mm/alloc.c:64-79 | alloc_init establishes the invariant over the bootstrap directory, whatever flag bits the processor has set in it |
| `PageAlloc.PageAllocator.SeekSlot` | src/kernel/mm/alloc.c:84-111 | the wrapping cursor stops at the first free slot in cyclic order, and finds one whenever one exists |
| `PageAlloc.PageAllocator.AllocBlock` | src/kernel/mm/alloc.c:81-125 | never a missing frame; no virtual address exactly when all entries are present, and address 0 exactly when only its entry is left; otherwise the first free slot is paired with the lowest free frame, so that each address of the page translates to its offset in that frame and may be written; the page is cleared, the cursor moves past it, all else is kept |
| `PageAlloc.AheadSlot` | src/kernel/mm/alloc.c:85-110 | the directory index of the wrapping cursor after d steps |
| `PageAlloc.SweptStep` | src/kernel/mm/alloc.c:84-101 | all slots from 1 up to the cursor are taken; one allocation keeps that, so the cursor never skips a free slot before it has gone round |
| `PageAlloc.PairedSurvivesUse` | src/kernel/mm/alloc.c:64-125 | accessed, dirty and other flag bits that the processor sets in directory entries do not disturb the invariant |
| `Paging.PageIsMapped` | src/kernel/mm/alloc.c:101 | a directory word with bits 0, 1 and 7 set makes each address of its 4 MB the same offset of its frame, and writable |
| `Paging.UseKeepsTranslation` | src/kernel/mm/alloc.c:101 | the accessed and dirty bits do not change any translation |
| `PageAlloc.PdeMaps` | src/kernel/mm/alloc.c:101 | the word alloc_block writes has bits 0, 1 and 7 set, names the frame, and has no other bit set |
| `PageAlloc.MapsStep` | src/kernel/mm/alloc.c:98-101 | pairing a free slot with a free frame maps exactly the 4 MB of the slot, to a frame that no address had, and writably |
| `PageAlloc.NoTwoNames` | src/kernel/mm/alloc.c:64-125 | two different mapped addresses are different physical addresses |
| `KMem.LiveIsInside` | src/kernel/kernel/mem.c:20-38 | a live allocation lies inside its superblock behind header and map and covers the requested size |
| `KMem.LiveAreDisjoint` | src/kernel/kernel/mem.c:20-44 | two live allocations are disjoint with all their blocks |
| `KMem.LiveAvoidsMetadata` | src/kernel/kernel/mem.c:20-44 | a live allocation meets no header and no map of any superblock |
| `KMem.ClaimRefines` | src/kernel/kernel/mem.c:20-38 | one new run is one new live allocation at an unused address |
| `KMem.ReleaseRefines` | src/kernel/kernel/mem.c:40-44 | one run less is one live allocation less |
| `KMem.LeakRefines` | src/kernel/kernel/mem.c:40-44 | an allocation that free cannot recognise leaves the view and stays blocked |
| `KMem.GrowRefines` | src/kernel/kernel/mem.c:8-12 | a fresh superblock brings no live allocation |
| `KMem.LargestRequest` | src/kernel/kernel/mem.c:20-38 | a fresh page holds a request if and only if it is at most 3932128 bytes, less than the 4 MB kmalloc admits |
| `KMem.KernelMemory.constructor` | src/kernel/kernel/mem.c:14-18 | mem_init establishes the invariant over fresh, empty heap and page allocator objects and the bootstrap directory |
| `KMem.KernelMemory.MoreMemory` | src/kernel/kernel/mem.c:8-12 | one page from the allocator becomes the new first superblock with a fresh map; live contents and other maps are kept |
| `KMem.KernelMemory.GrowAndRetry` | src/kernel/kernel/mem.c:28-36 | after growing by exactly the next page of the allocator, the request succeeds exactly if a slot other than the first is left and the request fits a fresh superblock, and its pointer is the first block behind the header and the map |
| `KMem.KernelMemory.KMalloc` | src/kernel/kernel/mem.c:20-38 | panics exactly when the size exceeds a page, or there is no room and all slots but the first are taken or the size exceeds what a page holds; otherwise a new pointer joins the live map and no live byte changes; with room it is the first fit and no page is taken, without room exactly the next page is |
| `KMem.KernelMemory.KFree` | src/kernel/kernel/mem.c:40-44 | the pointer leaves the live map and no other live byte changes; its blocks are freed if it lies below 0xFFC00000 and leaked if not |
| `KMem.KernelMemory.Store` | src/kernel/kernel/mem.c:20-44 | a store inside a live allocation keeps the invariant and every other allocation |
| `KMem.KernelMemory.LiveRangesAreSound` | src/kernel/kernel/mem.c:20-44 | in every reachable state the live ranges lie in memory, are pairwise disjoint and meet no header and no map |
| `KMem.KernelMemory.LiveBytesAreMapped` | src/kernel/mm/alloc.c:81-125 | every byte of every live allocation is mapped to physical memory and may be written |
| `KMem.KernelMemory.NoTwoNames` | src/kernel/mm/alloc.c:81-125 | no two addresses share a byte of physical memory |
| `KMem.RecognisedBelow` | src/kernel/mm/heap.c:104-109 | the superblock of a pointer recognises it exactly if the pointer lies below the last page |
| `KMem.LastPageOwnsNothing` | src/kernel/mm/heap.c:104-109 | a superblock on the last page recognises no pointer at all |
| `KMem.KernelMemory.TakePage` | src/kernel/mm/alloc.c:81-125 | a page for another purpose comes from the same allocator, overlaps no superblock, and the heap and its live contents do not notice it |
| `KMem.KernelMemory.WritesOutside` | src/kernel/kernel/mem.c:20-44 | whatever is written later to a page that overlaps no superblock, the invariant and every live byte are kept |
| `KClient.Answering` | src/kernel/kernel/mem.c:20-44 | one request of any kind keeps memory in agreement with all that the client knows, and a panic means a request no page can hold or all slots but the first taken |
| `KClient.Serve` | src/kernel/kernel/mem.c:20-44 | for every client, adapting its requests to the answers, and any number of requests: allocations are disjoint from everything live, reads return what was last written, and the run stops early only by a panic of that kind |
| `KClient.Boot` | src/kernel/kernel/mem.c:14-44 | the same for every run from the boot of the machine |
| `KClient.FirstPointer` | src/kernel/kernel/mem.c:14-38 | the first allocation after boot, of any size a page can hold, is at 0x440014: on the second page, behind 20 bytes of header and 16384 blocks of map |
| `RbTree.RbTree.SetBlackRed` | src/kernel/include/sys/tree.h:331-334 | recolours exactly two nodes; every link stays |
| `RbTree.RbTree.RotateLeft` | src/kernel/include/sys/tree.h:340-358 | the tree is rotated at the node, with every child and parent link in agreement, and the in-order sequence kept |
| `RbTree.RbTree.RotateRight` | src/kernel/include/sys/tree.h:360-378 | the mirror image |
| `RbBalance.RedParentHasParent` | src/kernel/include/sys/tree.h:437-439 | under a black root a red node has a parent, so in the insertion loop the grandparent is never NULL |
| `RbBalance.InsertRecolour` | src/kernel/include/sys/tree.h:440-446 | with a red uncle the violation moves to the grandparent and all other conditions hold |
| `RbBalance.InsertOuter` | src/kernel/include/sys/tree.h:454-455 | recolouring and rotating the grandparent ends the violation |
| `RbTree.RbTree.InsertColor` | src/kernel/include/sys/tree.h:432-475 | restores every red-black condition and the links, keeps elements and order, and ends |
| `RbTree.RbTree.Link` | src/kernel/include/sys/tree.h:643-651 | the new element hangs red at the place the search reached |
| `RbTree.RbTree.Insert` | src/kernel/include/sys/tree.h:624-654 | an equal element is returned and nothing changes; otherwise the element joins the set and, at one position, the in-order sequence, and all conditions hold |
| `RbBalance.SiblingExists` | src/kernel/include/sys/tree.h:485-486 | in the removal loop the sibling is never NULL |
| `RbBalance.RemoveRedSibling` | src/kernel/include/sys/tree.h:486-490 | a red sibling is turned into a black one with the deficit at the same node |
| `RbBalance.RemoveRecolour` | src/kernel/include/sys/tree.h:491-497 | with black nephews the deficit moves to the parent |
| `RbBalance.RemoveOuter` | src/kernel/include/sys/tree.h:509-513 | with a red outer nephew the deficit is gone |
| `RbTree.RbTree.RemoveColor` | src/kernel/include/sys/tree.h:477-554 | from a subtree one black short, restores every red-black condition, keeps elements and order, and ends |
| `RbTree.RbTree.Splice` | src/kernel/include/sys/tree.h:606-617 | a node with at most one child is replaced by that child, all links in agreement |
| `RbTree.RbTree.Transplant` | src/kernel/include/sys/tree.h:585-597 | one element takes the place of another with its colour and links |
| `RbTree.RbTree.RemoveWithSuccessor` | src/kernel/include/sys/tree.h:566-604 | removal of a node with two children: the successor takes its place |
| `RbTree.RbTree.Remove` | src/kernel/include/sys/tree.h:556-622 | exactly the given node leaves the in-order sequence, and search order, black height, colours and all links hold again |
| `RbTree.RbTree.Find` | src/kernel/include/sys/tree.h:656-673 | the only element equal to the key, or none exists; with n elements, 2^steps is at most (n + 1)^2 |
| `RbTree.RbTree.NFind` | src/kernel/include/sys/tree.h:675-695 | the first element not less than the key, or all are less |
| `RbTree.RbTree.Next` | src/kernel/include/sys/tree.h:697-718 | the in-order successor, through parent pointers, or NULL at the end |
| `RbTree.RbTree.Prev` | src/kernel/include/sys/tree.h:720-741 | the in-order predecessor, the inverse of Next |
| `SearchOrder.BackAndForth` | src/kernel/include/sys/tree.h:697-741 | stepping forward and then back, or back and then forward, returns to the element |
| `RbTree.RbTree.MinMax` | src/kernel/include/sys/tree.h:743-757 | the first or last element of the in-order sequence |
| `RbTree.RbTree.Foreach` | src/kernel/include/sys/tree.h:771-774 | visits every element once, in ascending order |
| `RbBalance.HeightBound` | src/kernel/include/sys/tree.h:51-59 | 2^height is at most (n + 1)^2, that is, the height is at most 2 lg (n + 1) |
| `RbBalance.StepsBound` | src/kernel/include/sys/tree.h:51-59 | hence 2^steps is at most (n + 1)^2 for any walk from the root |
| `RbTree.RbTree.OnlyMatch` | src/kernel/include/sys/tree.h:656-673 | no other element of the tree compares equal to what a search found |
| `SplayTree.SplayTree.RotateRight` | src/kernel/include/sys/tree.h:86-90 | exactly two links and the root change |
| `SplayTree.SplayTree.LinkLeft` | src/kernel/include/sys/tree.h:98-102 | the root and its right subtree go to the right-hand side tree |
| `SplayTree.SplayTree.Assemble` | src/kernel/include/sys/tree.h:110-115 | the side trees become the subtrees of the root |
| `SplayShape.AssembledOrder` | src/kernel/include/sys/tree.h:110-115 | assembling keeps the in-order sequence of the parts |
| `SplayTree.SplayTree.Splay` | src/kernel/include/sys/tree.h:207-240 | ends, keeps the elements and their order, leaves a root with everything smaller on its left and everything greater on its right, and leaves the tree and takes the rounds that SplayParts describes |
| `SplayTree.SplayTree.Find` | src/kernel/include/sys/tree.h:125-135 | an equal element, now at the root, or none exists; the rounds are paid for by the charge and the potential |
| `SplayTree.SplayTree.Insert` | src/kernel/include/sys/tree.h:162-184 | an equal element is returned, else the new one is the root and joins the sequence at one position; the rounds are paid for |
| `SplayTree.SplayTree.Remove` | src/kernel/include/sys/tree.h:186-205 | removes exactly the equal element, or reports that none exists; the rounds of both splays are paid for |
| `SplayTree.SplayTree.MinMax` | src/kernel/include/sys/tree.h:245-276 | the first or last element at the root, order kept; the rounds are paid for |
| `SplayTree.SplayTree.Next` | src/kernel/include/sys/tree.h:137-149 | the successor in order |
| `SplayTree.SplayTree.Foreach` | src/kernel/include/sys/tree.h:290-293 | visits every element once, in ascending order, while the tree changes shape under it |
| `SplayCost.ZigZig` | src/kernel/include/sys/tree.h:217-226 | a rotation and a link on one side are paid for by the potential they release |
| `SplayCost.ZigZag` | src/kernel/include/sys/tree.h:217-237 | two links on different sides are |
| `SplayCost.ZigThenZig` | src/kernel/include/sys/tree.h:217-237 | a link, then a rotation and a link on the other side, are |
| `SplayCost.MirrorParts` | src/kernel/include/sys/tree.h:207-240 | splaying the mirror image with the comparison turned round gives the mirror image |
| `SplayCost.Amortised` | src/kernel/include/sys/tree.h:207-240 | the rounds of one splay and the potential it leaves are at most the potential before, six times the rank, and two |
| `SplayCost.LeftRound` | src/kernel/include/sys/tree.h:217-226 | one round of the loop to the left is one step of SplayParts |
| `SplayCost.PotentialBound` | src/kernel/include/sys/tree.h:47-49 | the potential of n nodes is at most 3 n lg (n + 1) |
| `SplayTree.SplayTree.Perform` | src/kernel/include/sys/tree.h:47-49 | any one operation on a tree of n elements takes at most 18 lg (n + 1) + 4 rounds beyond what the potential pays |
| `SplayTree.SplayTree.PerformAll` | src/kernel/include/sys/tree.h:47-49 | the Balance Theorem: k operations of any kind that insert into a tree of n elements until there have been m take at most k (18 lg (m + 1) + 4) + 3 n lg (n + 1) rounds in all |
| `Logs.Log2Bounds` | src/kernel/include/sys/tree.h:47-49 | the logarithm used is the integer part of the one to base two |
| `Links.InsertLinked` | src/kernel/include/sys/queue.h:767-813 | the four writes of an insertion turn a well linked list of a sequence into one of the sequence with the element at its place, tail link included |
| `Links.RemoveLinked` | src/kernel/include/sys/queue.h:823-839 | the two writes of a removal take exactly that element out |
| `Links.InsertAndRemove` | src/kernel/include/sys/queue.h:767-839 | insertion and removal at one place undo each other |
| `Links.ConcatLinked` | src/kernel/include/sys/queue.h:706-715 | the three writes of a concatenation append one sequence to another |
| `Links.ConcatListed` | src/kernel/include/sys/queue.h:516-531 | the same for the concatenation of lists without a tail link |
| `Links.InsertListed` | src/kernel/include/sys/queue.h:561-584 | the same for a list head without a tail link |
| `Links.RemoveListed` | src/kernel/include/sys/queue.h:593-604 | the same for removal |
| `Links.NoSharedElement` | src/kernel/include/sys/queue.h:706-715 | two well linked lists with different heads have no element in common |
| `Links.ListsApart` | src/kernel/include/sys/queue.h:516-531 | the same without a tail link |
| `TailQueue.Head.InsertHead` | src/kernel/include/sys/queue.h:792-803 | the element becomes the first; every back reference is the address of the link that reaches the element and tqh_last is the last link |
| `TailQueue.Head.InsertTail` | src/kernel/include/sys/queue.h:805-813 | the element becomes the last; every back reference is the address of the link that reaches the element and tqh_last is the last link |
| `TailQueue.Head.InsertAfter` | src/kernel/include/sys/queue.h:767-780 | the element follows the given one; every back reference is the address of the link that reaches the element and tqh_last is the last link |
| `TailQueue.Head.InsertBefore` | src/kernel/include/sys/queue.h:782-790 | the element precedes the given one, without the head; every back reference is the address of the link that reaches the element and tqh_last is the last link |
| `TailQueue.Head.Remove` | src/kernel/include/sys/queue.h:823-839 | the element leaves the sequence; every back reference is the address of the link that reaches the element and tqh_last is the last link |
| `TailQueue.Head.Concat` | src/kernel/include/sys/queue.h:706-715 | the second queue is appended and left empty; every back reference is the address of the link that reaches the element and tqh_last is the last link |
| `TailQueue.Head.Swap` | src/kernel/include/sys/queue.h:841-855 | the two sequences change heads; every back reference is the address of the link that reaches the element and tqh_last is the last link |
| `TailQueue.Head.Last` | src/kernel/include/sys/queue.h:815-816 | the last element or NULL, by reading the tail link as a head |
| `TailQueue.Head.Prev` | src/kernel/include/sys/queue.h:820-821 | the true predecessor, or NULL for the first element |
| `TailQueue.Head.ForeachReverse` | src/kernel/include/sys/queue.h:741-744 | visits the elements backwards |
| `TaskList.TaskQueue.InsertHead` | src/kernel/include/sys/queue.h:578-584 | the task becomes the first; forward links and back references agree, and no other field of a task is written |
| `TaskList.TaskQueue.InsertAfter` | src/kernel/include/sys/queue.h:561-568 | the task follows the given one; forward links and back references agree, and no other field of a task is written |
| `TaskList.TaskQueue.InsertBefore` | src/kernel/include/sys/queue.h:570-576 | the task precedes the given one, without the head; forward links and back references agree, and no other field of a task is written |
| `TaskList.TaskQueue.Remove` | src/kernel/include/sys/queue.h:593-604 | the task leaves the list; forward links and back references agree, and no other field of a task is written |
| `TaskList.TaskQueue.Concat` | src/kernel/include/sys/queue.h:516-531 | the second list is appended and left empty; forward links and back references agree, and no other field of a task is written |
| `TaskList.TaskQueue.Swap` | src/kernel/include/sys/queue.h:606-614 | the two lists change heads; forward links and back references agree, and no other field of a task is written |
| `TaskList.TaskQueue.Prev` | src/kernel/include/sys/queue.h:588-591 | the true predecessor, or NULL for the first task |
| `SchedRun.StepKeepsOk` | src/kernel/sched/task.c:145-196 | no event breaks the invariant: a running task, no task twice, at most 50 ticks, a saved context for every task |
| `SchedRun.Fairness` | src/kernel/sched/task.c:127-196 | a task at distance d runs within 51 (d - 1) + ticks + 1 interrupts plus 51 for every thread created meanwhile, whatever slices are given up |
| `SchedRun.RunsWithin` | src/kernel/sched/task.c:95-196 | hence within 51(d + c) interrupts |
| `SchedRun.TurnIsExact` | src/kernel/sched/task.c:145-196 | with interrupts alone the task runs by interrupt 51 (d - 1) + ticks + 1 and not earlier |
| `SchedRun.SavedIsKept` | src/kernel/sched/task.c:184-195 | the saved context of a task does not change while it is not running |
| `SchedRun.ResumesWhereItLeft` | src/kernel/sched/task.c:155-195 | a task switched out at some registers is resumed with them, whatever happens in between |
| `SchedRun.ChildIsNext` | src/kernel/sched/task.c:95-112 | a new thread runs after the rest of its parent's slice, in the context prepared for it |
| `Scheduler.RingTurns` | src/kernel/sched/task.c:176-180 | the next list element, or the first behind the last, is one turn of the ring |
| `Scheduler.Kernel.constructor` | src/kernel/sched/task.c:59-78 | one task with a full slice, running |
| `Scheduler.Kernel.StateIsOk` | src/kernel/sched/task.c:59-196 | every valid state of the kernel's list and tasks is a state of the machine that satisfies its invariant |
| `Scheduler.Kernel.EndSlice` | src/kernel/sched/task.c:127-130 | the state machine's step of giving up the slice |
| `Scheduler.Kernel.TaskSwitch` | src/kernel/sched/task.c:145-196 | is the state machine's interrupt: a tick, or the next task with 50 ticks and the old one's registers saved; resumes the new one's saved registers |
| `Scheduler.Kernel.Yield` | src/kernel/sched/task.c:127-136 | gives up the slice and switches |
| `Scheduler.Kernel.Enqueue` | src/kernel/sched/task.c:95-97 | the child stands right behind its parent in the ring |
| `Scheduler.Kernel.Admit` | src/kernel/sched/task.c:103-112 | the child's saved eip is the parent's; its saved esp and ebp are at the depths of its stack that the parent's are at in theirs, and moved by the distance of the stacks modulo 2^32 if they are not on it |
| `Scheduler.Kernel.ThreadCreate` | src/kernel/sched/task.c:81-114 | NULL exactly when all pages are taken; otherwise the state machine's creation step, on a stack page from the shared allocator that no task and no superblock has, with eip, esp and ebp saved as Admit says, heap contents untouched, and a relocated copy of the parent's stack under exactly CopyStack's condition; in a copy, k frames from the saved ebp lead to the translate of the parent's k-th frame, for every k |
| `Scheduler.Kernel.CloneStack` | src/kernel/sched/task.c:198-223 | the page copy_stack takes is in use by nothing else, and nothing outside it changes |
| `Scheduler.Kernel.HeapGrowthKeepsStacks` | src/kernel/kernel/mem.c:8-12 | when the heap grows, its new superblocks meet no thread's stack |
| `Scheduler.Kernel.StacksAreMapped` | src/kernel/mm/alloc.c:81-125 | every stack is a page that is mapped and may be written |
| `StackCopy.CopyStack` | src/kernel/sched/task.c:198-223 | takes a page from the kernel's allocator, changes no byte outside it, and makes it the parent's stack from esp on, redirected, if and only if the parent's page is not the last one or those words are all zero |
| `StackCopy.RedirectWord` | src/kernel/sched/task.c:209-218 | the body of the loop: the word at addr goes to offset, redirected if it points strictly inside the parent's page |
| `StackCopy.CopyWords` | src/kernel/sched/task.c:207-219 | word for word, what the copying loop writes; nothing when the end of the page wraps |
| `StackCopy.ClonedExactly` | src/kernel/sched/task.c:198-223 | which of the two the caller gets is decided by the end of the parent's page and the words on it |
| `StackCopy.ClonedIff` | src/kernel/sched/task.c:207-219 | a cleared page is a relocated copy of the last page exactly if the words to be copied are zero |
| `StackCopy.RelocIsFullIff` | src/kernel/sched/task.c:211-216 | a word is treated as a pointer into the page, if it is one, exactly when it is not the page's first address |
| `Memory.StoreWord` | src/kernel/sched/task.c:211-218 | a word store changes four bytes, the lowest first, hence that word of memory and no other |
| `StackCopy.LoadIsRelocated` | src/kernel/sched/task.c:207-219 | loading at the relocated address gives the relocated load |
| `StackCopy.OthersKept` | src/kernel/sched/task.c:207-219 | the parent's stack and everything outside the copied part read as before |
| `StackCopy.ChainIsRelocated` | src/kernel/sched/task.c:207-219 | following k saved frame pointers in the child gives the translate of the parent's k-th frame, for every k |
| `StackCopy.ChildChainIsRelocated` | src/kernel/sched/task.c:103-112 | the same from the ebp thread_create gives the child |
| `StackCopy.ClonedWord` | src/kernel/sched/task.c:207-219 | the word at each address of the parent's stack is at the same depth of the child's, plus the distance of the stacks if it points into the parent's page |
| `StackCopy.ChildFrames` | src/kernel/sched/task.c:103-112 | on bytes of memory: k frames from the depth of ebp in the copy are at the depth of the k-th frame of the original |
| `StackCopy.RelocIsInjective` | src/kernel/sched/task.c:211-216 | translation keeps the depth in the stack and distinct addresses distinct |
| `GrowArray.Array.Add` | src/kernel/ds/array.c:21-34 | the element is appended, across reallocation |
| `GrowArray.Array.Get` | src/kernel/ds/array.c:36-43 | the element at an index, NULL beyond the end, and what the slot behind the last element holds for the index equal to `used` |
| `GrowArray.Array.ShiftDown` | src/kernel/ds/array.c:93-95 | the used elements behind the position move down by one |
| `GrowArray.Array.RemoveElem` | src/kernel/ds/array.c:73-99 | the first element that the comparison accepts or that is the given one goes and is what the callback or kfree is given, the others keep their order; nothing changes if there is none |
| `Viewport.ShownEndsAtReserved` | src/kernel/drivers/vga.c:240-243 | the copied part of a row ends at its first reserved cell |
| `Viewport.ReservedNeverStopsPrinting` | src/kernel/drivers/vga.c:105-113 | with the arguments vga_putc passes, `reserved` is false at every cursor position |
| `Viewport.DrawKeeps` | src/kernel/drivers/vga.c:245-260 | drawing saved lines keeps the document and the masked cells |
| `Viewport.ScrollDownKeeps` | src/kernel/drivers/vga.c:151-173 | the document is kept cell for cell, extended by one blank line exactly when the window was at its end |
| `Viewport.ScrollUpKeeps` | src/kernel/drivers/vga.c:175-187 | the document is kept cell for cell |
| `Viewport.ScrollsKeep` | src/kernel/drivers/vga.c:151-187 | after any sequence of scrolls the old document is a prefix of the new one and masked cells are untouched |
| `Viewport.ReturningRestoresTheScreen` | src/kernel/drivers/vga.c:151-187 | any sequence of scrolls that returns to the same line restores the entire screen, masked cells included |
| `Viewport.DownAndUp` | src/kernel/drivers/vga.c:151-187 | k scrolls down and k up restore the entire screen |
| `Viewport.RowOneMovesUp` | src/kernel/drivers/vga.c:151-173 | after a scroll row 0 shows 65 cells of what row 1 showed and 5 of what its line held |
| `Viewport.RowOneMovesUpIff` | src/kernel/drivers/vga.c:151-173 | so row 0 shows what row 1 showed exactly if those five cells are as in the line |
| `Viewport.DownMovesRows` | src/kernel/drivers/vga.c:151-173 | where every cell of the screen comes from after a scroll down: whole rows from row 2 on, 65 cells of row 2 into row 1, 65 of row 1 and 5 of its line into row 0, the next or the blank line into the last |
| `Viewport.UpMovesRows` | src/kernel/drivers/vga.c:175-187 | the same for a scroll up |
| `Viewport.ScrollsSave` | src/kernel/drivers/vga.c:262-280 | which cells of which line buffers hold the screen after either scroll, and when a line is added |
| `Viewport.UntouchedCells` | src/kernel/drivers/vga.c:240-243 | the cells no scroll touches are columns 70 to 79 of row 0 and 65 to 79 of row 1, and no others |
| `Terminal.ColorChar` | src/kernel/drivers/vga.c:217-222 | character and colour in the two bytes of a cell, with the sign extension of negative characters |
| `Terminal.RowEditsDocument` | src/kernel/drivers/vga.c:105-122 | a write to the screen changes the document in its unmasked cells only |
| `Terminal.PutRefinesType` | src/kernel/drivers/vga.c:102-140 | a printed character acts on the document like an editor without screen, saving or masks |
| `Terminal.PrintRefinesTyping` | src/kernel/drivers/vga.c:88-91 | the same for any string |
| `Terminal.PutWithoutScroll` | src/kernel/drivers/vga.c:102-140 | unless the last row ends: 10 blanks the row from the cursor on and keeps what is before it, any other character changes the one cell at the cursor, 9 like 32; no other row changes; the new cursor in numbers |
| `Terminal.PutWithScroll` | src/kernel/drivers/vga.c:102-173 | when the last row ends: the same change, then every row one up, and the cursor at the start of the last row |
| `Terminal.PrintsInTurn` | src/kernel/drivers/vga.c:88-91 | a string is printed character by character from its front |
| `Terminal.PrintedCellIsLost` | src/kernel/drivers/vga.c:102-173 | a character printed at the first of those cells gives way, on the next scroll, to what the line held there |
| `Terminal.LetterIsLost` | src/kernel/drivers/vga.c:88-173 | a concrete printed text, from the blank screen, whose letter disappears on the next scroll |
| `Vga.Screen.constructor` | src/kernel/drivers/vga.c:47-67 | a blank screen over 25 lines of arbitrary content, cursor at the origin |
| `Vga.Screen.CellAddress` | src/kernel/drivers/vga.c:224-260 | the cell of row i and column j is at index 80 i + j of the video memory, and row i shows line number line_number + i |
| `Vga.Screen.SaveRow` | src/kernel/drivers/vga.c:269-278 | the unmasked cells of one row go to its line, the rest of the line stays |
| `Vga.Screen.DrawRow` | src/kernel/drivers/vga.c:252-258 | the unmasked cells of one row come from its line, every other cell stays |
| `Vga.Screen.SaveBuffer` | src/kernel/drivers/vga.c:262-280 | the lines become the document |
| `Vga.Screen.DrawBuffer` | src/kernel/drivers/vga.c:245-260 | the unmasked screen becomes the window of the lines |
| `Vga.Screen.ScrollDown` | src/kernel/drivers/vga.c:151-173 | computes the specified scroll, allocating a line exactly when none follows |
| `Vga.Screen.ScrollUp` | src/kernel/drivers/vga.c:175-187 | computes the specified scroll, nothing at the first line |
| `Vga.Screen.PutChar` | src/kernel/drivers/vga.c:102-140 | computes the specified print of one character, with the cursor in range |
| `Vga.Screen.Print` | src/kernel/drivers/vga.c:88-91 | the same for a string |
| `Numerals.WordHasTenDigits` | src/libc/stdio/printf.c:70 | a 32-bit word has at most ten digits in a base from ten up |
| `Numerals.ValueOfDigits` | src/libc/stdio/printf.c:94-100 | positional digits read back as the number |
| `Numerals.FieldWidth` | src/libc/stdio/printf.c:73-114 | a number field is as long as the width or the number, whichever is longer |
| `Numerals.RoundTrip` | src/libc/stdio/printf.c:73-114 | for every 32-bit value, base, sign mode, width and padding, reading the field gives the value back if and only if zeros were not put behind it |
| `Printf.Out.PrintChar` | src/libc/stdio/printf.c:26-35 | one character to the string at the cursor, or to the console |
| `Printf.Prints` | src/libc/stdio/printf.c:40-68 | the string in its field; the result is the number of characters |
| `Printf.WriteDigits` | src/libc/stdio/printf.c:91-100 | the digits end up in front of the terminator of the 12-byte buffer, with a byte to spare for the sign |
| `Printf.PrintFigures` | src/libc/stdio/printf.c:102-113 | the sign goes in front of zero padding or of the digits, inside the buffer |
| `Printf.Printi` | src/libc/stdio/printf.c:73-114 | prints the specified field and never leaves the buffer |
| `Printf.ScanConversion` | src/libc/stdio/printf.c:125-139 | reads flags and width of any conversion |
| `Printf.Convert` | src/libc/stdio/printf.c:140-168 | prints the field of each conversion letter, nothing for an unknown one, and takes its argument |
| `Printf.Interpret` | src/libc/stdio/printf.c:122-174 | for every well-formed format and matching arguments, the output is that of its directives and the result its length |
| `Printf.Print` | src/libc/stdio/printf.c:116-178 | the same, with the terminating NUL behind the output in a string |
| `Printf.Printf` | src/libc/stdio/printf.c:180-186 | the console shows the output and the result counts it |
| `Printf.Sprintf` | src/libc/stdio/printf.c:188-194 | the string holds the same output, then NUL, and is untouched behind it |
| `Printf.Sample` | src/libc/stdio/printf.c:116-194 | sprintf of `%-4s`, `%04d`, `%X` and `%%` between bars with "ab", -7 and 255 puts `ab  `, `-007`, `FF` and `%` into the buffer, and 13 |
| `Numerals.OneReadsAsTen` | src/libc/stdio/printf.c:42-64 | a concrete field with zeros behind the number, read as another number |
| `Formats.FieldIsWideEnough` | src/libc/stdio/printf.c:140-168 | every conversion's field has length max(width, natural length) |
| `Fields.StringField` | src/libc/stdio/printf.c:140-144 | the field of %s is the string, or (null) for NULL, at the right end of the field or with - at the left, and spaces, or zeros with 0, in the rest |
| `Fields.CharacterField` | src/libc/stdio/printf.c:161-167 | the same for %c with the argument's low byte, or nothing for zero |
| `Fields.NumericField` | src/libc/stdio/printf.c:73-114 | the same for %d, %u, %x and %X with the numeral: base ten or sixteen, no leading zero, small letters for %x and capital ones for %X, modulo 2^32 but for %d, whose minus sign is in front of zeros used as filling |
| `Fields.WidthIs` | src/libc/stdio/printf.c:136-139 | the width of a field is what its decimal digits spell |
| `Fields.OutputIs` | src/libc/stdio/printf.c:122-174 | what each kind of directive adds to the output |
| `Fields.WellFormed` | src/libc/stdio/printf.c:122-139 | what can stand in a format, in character codes |
| `Formats.FormatRoundTrip` | src/libc/stdio/printf.c:145-160 | a printed number reads back as its argument, unless the flags put zeros behind it |
| `Formats.OutputAppend` | src/libc/stdio/printf.c:122-174 | the output of two directive lists is the concatenation of their outputs |
| `Formats.SpelledOnce` | src/libc/stdio/printf.c:122-174 | a format spells one list of directives only |
| `Formats.ReadFormat` | src/libc/stdio/printf.c:122-174 | every string spells directives, up to a lone percent sign at the end, unless it breaks off inside a conversion |

## Left out

- Heap headers: the five fields of `memblock_t` are fields of an object, its 20 bytes are only kept clear of
  everything else; the byte maps are in memory.
- KMem.KernelMemory.KMalloc: after a panic nothing is promised about the state, since the kernel halts.
- KMem.KernelMemory.KFree: demands NULL or a live pointer, as its callers must.
- PageAlloc.PageAllocator.AllocBlock: the flags of a directory entry are added rather than or-ed, which is the same on
  disjoint bits; invalidation of cached translations and the size of physical memory, which the allocator never consults, are absent.
- SplayTree.SplayTree.MinMax: excludes the argument 0, for which the C loop does not end on any tree.
- SplayTree.SplayTree.PerformAll: counts the rounds of the splay loops; SPLAY_NEXT also walks down to a leftmost element
  without splaying, which is not bounded.
- RbTree.RbTree.Remove: `RB_AUGMENT` is empty, as it is unless a client redefines it.
- Tree keys are integers under an arbitrary comparison that is antisymmetric and transitive; the macros' type parameter
  is not modelled further.
- Queue debugging (`QMD_*`, `TRASHIT`) and the SLIST and STAILQ macros, weaker duplicates of the ones here.
- TailQueue.Head.InsertBefore: the C macro has no head argument and neither has the method's work; the head is the
  receiver because it carries the ghost sequence. The same holds for the other macros without a head.
- Scheduler.Kernel.ThreadCreate: the second return of `read_eip`, in the child, and the inline assembly are abstracted to
  saving and loading a context. The task structure is an object, so the `kmalloc` for it is absent; where `alloc_block`
  panics the result is null and the kernel halts.
- `move_stack` (it redirects pointers to another base than it copies to), task ids beyond `parent->id + 1`, and the
  stack words a running thread writes itself.
- StackCopy.CopyStack: `esp` is taken to be a multiple of four, as the target's calling convention keeps it.
- GrowArray.Array.constructor: excludes size 0, which doubling cannot grow; sizes do not wrap, since `kmalloc` panics
  long before.
- GrowArray.Array.Get: excludes the index equal to `used` when the buffer is full, where the C bound check lets a read
  past the buffer through.
- GrowArray.Array.RemoveElem: the deletion callback is a value handed out, not a call; what it does is the client's.
- Vga.Screen.PutChar: the hardware cursor and the branches on `reserved`, false at every position, are absent.
- `vga_set_color`, `vga_clear`, `vga_print_reserved`, `vga_set_x` and `vga_set_y`: they would only add easy members.
- Printf.Print: characters and counts are unbounded, so a width beyond 2^31 is not wrapped; a format that breaks off
  inside a conversion, after which the C code reads past its end, is excluded.
- Printf.Sprintf: demands a string with room for the output, as C does.
- Drivers, tables, the logger and the multiboot code: port I/O and field packing.
