# A verified model of the kernel's core structures

This project models the parts of the kernel that everything else stands on, and proves what they promise.

- `RbTree.dfy`: the intrusive red-black tree with its predecessor/successor thread. Pointers and colours are rewritten in
  place. The invariants are local to a node and its neighbours, and they are proved to mean the usual thing: search
  order, no red node below a red one, equal black depth, and a thread that is the in-order sequence.
- `VMem.dfy`, `Extents.dfy`: the boundary-tag address allocator. Segment descriptors are objects that are linked, listed,
  hashed, split, merged and recycled in place. Seen from outside the arena is a sequence of extents, which is
  determined by the live blocks alone.
- `VirtualSpace.dfy`: the kernel's address space, which puts `VMem`, the tree, the page table and the page pool together,
  with the rollback of `alloc_backed`, over every run of `alloc_backed` and `free_backed`.
- `PageTable.dfy`, `Mmu.dfy`: the four-level AArch64 page table as a refinement of a flat map from pages to entries. The
  second file says how the processor walks such a table, by the Arm Architecture Reference Manual for A-profile, and
  what `map`, `unmap`, `protect` and `get_phys` do is stated by that walk too.
- `Buddy.dfy`, `BuddyOverlap.dfy`: the buddy page allocator. Its operations are functions on page flags and lists, which
  the class computes in place; the books are kept over every run of calls. The second file proves for which regions two
  blocks can overlap, and for which they never do.
- `Tcp.dfy`, `TcpClose.dfy`, `TcpSocket.dfy`: the TCP socket. The first is a protocol of steps on values, with two machines
  and a network that loses, repeats and reorders segments; the second says what the handler thread sends and how
  connections end; the third is the socket object, whose locked sections are these steps, and three such objects driven
  by any sequence of steps.
- `Clip.dfy`, `Windows.dfy`: rectangles, clip lists and the drawing of a window tree into a frame buffer.
- `Arith.dfy`, `Seqs.dfy`, `Words.dfy`: powers of two and division, lists without repetition, and machine words.

## How the model follows the source

- A section under a lock is one step. In the TCP handler the lock is taken only after the state has been looked at, so
  waking and sending are two steps between which packets may arrive.
- Ghost state (a node's range of the in-order sequence, a segment's place in its list, the first page of a block, the
  history of a connection) is never looked at by the code.
- `VMem.supply` is the sequence of descriptor pages that `alloc_page` will return, and `PagePool.free` the sequence of pages
  for data and tables that `pmalloc(1)` will return. Either may run out at any time. In the source both come from the
  one buddy allocator; here they are apart, so that a descriptor page that a failed `alloc_backed` has caused to be
  taken, and that `VMem` keeps, is not among the pages that are said to be unchanged.
- Random initial sequence numbers, the bytes of applications and the order in which packets arrive are parameters of steps.
- `VMem`: a segment leaves its free list when it is certain to be used. The source takes the head off its list and puts it
  back in front when it does not fit, under one lock, which comes to the same. `max` is never 0 after its defaulting
  in `xalloc`, so the search always looks at whole lists.
- Where a property one would like to have fails in the code, the code is kept, and there is an example and the condition:
  `RangedMiss`, `FixedMiss`, `SearchIsExact` and `FixedExactly` (a request with a range, or for a fixed address, can miss
  a segment that fits), `ResetIsLost` and `ResetExactly` (a reset is lost if the handler thread is just about to send the
  last ACK of the handshake or its FIN), `AlignedExactly` (blocks start
  at multiples of their sizes exactly if the first page of the region is aligned to the largest block it has room for),
  `UnalignedOverlaps` and `OverlapExactly` (two blocks can overlap exactly if the first page is aligned to 2^v pages and
  not to 2^(v+1), for a v of at most 11 with 7 * 2^v pages or more in the region),
  `FullBufferBreaksPrefix`, `AcceptedExactly` and `DeliveredExactly` (a packet dropped because the receive buffer is full
  has already been counted as received),
  `ProtectAfterUnmap` and `ProtectExactly` (changing the permissions of a page that is not mapped makes it present).

## Model

| member | source | states |
|---|---|---|
| RbTree.Tree.Rotate | src/std/rb_tree.hpp:136-160 | a rotation on either side changes exactly the links around the two nodes and keeps the shape: every node still covers the same range of the in-order sequence or the one its new place demands |
| RbTree.Tree.Recolour | src/std/rb_tree.hpp:178-193 | with a red uncle the red-red defect moves to the grandparent, whose subtree is strictly larger, so the loop ends |
| RbTree.Tree.InsertRotate | src/std/rb_tree.hpp:195-219 | with a black uncle one or two rotations and two colours leave no defect at all |
| RbTree.Tree.FixInsert | src/std/rb_tree.hpp:162-223 | from a tree whose only defect is at one node the loop makes a red-black tree with a black root, and terminates |
| RbTree.Tree.InsertChild | src/std/rb_tree.hpp:89-123 | a node put into a free child place stands right before or right after its parent in the in-order sequence, the thread follows, and the tree is valid again |
| RbTree.Tree.InsertRoot | src/std/rb_tree.hpp:81-87 | a node put into an empty tree is its only member, and black |
| RbTree.Tree.SiblingOf | src/std/rb_tree.hpp:234-243 | a node that lacks one black level has a sibling, as the code asserts |
| RbTree.Tree.RedSibling | src/std/rb_tree.hpp:236-242 | with a red sibling a rotation makes the parent red and leaves the missing black level where it was |
| RbTree.Tree.BlackNephews | src/std/rb_tree.hpp:245-257 | with black nephews the missing level is made up for at the parent, or moves up to a strictly larger subtree |
| RbTree.Tree.NearNephew | src/std/rb_tree.hpp:261-267 | a red near nephew is turned into a red far nephew |
| RbTree.Tree.FarNephew | src/std/rb_tree.hpp:268-274 | with a red far nephew one rotation makes up for the missing level |
| RbTree.Tree.FixRemove | src/std/rb_tree.hpp:225-276 | the loop leaves a tree in which only the node about to be unlinked counts one black level too many, and terminates |
| RbTree.Tree.Unthread | src/std/rb_tree.hpp:321-328 | the thread without the node is the thread of the sequence without it |
| RbTree.Tree.Unlink | src/std/rb_tree.hpp:339-362 | a node with at most one child is replaced by that child, nothing else changes place, and its links are cleared |
| RbTree.Tree.PrepareUnlink | src/std/rb_tree.hpp:330-340 | recolouring before the node is unlinked leaves it with the same single child, as the code asserts, and makes unlinking harmless |
| RbTree.Tree.RemoveHalfLeaf | src/std/rb_tree.hpp:320-363 | exactly the node leaves the in-order sequence, and the tree is valid |
| RbTree.Tree.ReplaceNode | src/std/rb_tree.hpp:278-318 | the replacement stands where the node stood, in the tree and in the thread |
| RbTree.Tree.PredecessorOf | src/std/rb_tree.hpp:75-76 | the threaded predecessor of a node with a left child is a member, is another node, and has no right child |
| RbTree.Tree.Remove | src/std/rb_tree.hpp:64-79 | any member can be removed, with two children too: exactly it leaves the sequence, its links are cleared and the tree is valid |
| RbTree.Tree.GetFirst | src/std/rb_tree.hpp:42-51 | the leftmost node is the first of the in-order sequence, null for the empty tree |
| RbTree.Tree.GetLast | src/std/rb_tree.hpp:53-62 | the rightmost node is the last of the in-order sequence, null for the empty tree |
| RbTree.Tree.Find | src/std/rb_tree.hpp:408-428 | the node with the key is found if and only if there is one |
| RbTree.Tree.FindPlace | src/std/rb_tree.hpp:379-400 | the search for an absent key ends at a free child place that separates smaller from larger keys |
| RbTree.Tree.Insert | src/std/rb_tree.hpp:371-401 | a node with a fresh key becomes a member and the tree is a valid search tree |
| RbTree.Tree.Delete | src/std/rb_tree.hpp:64-79 | removing a member keeps the search order |
| RbTree.Tree.ViewInOrder | src/std/rb_tree.hpp:15-33 | the in-order sequence of every subtree, read off the child pointers, is its range of the members in order |
| RbTree.Tree.ViewIsRedBlack | src/std/rb_tree.hpp:128-134 | every subtree, read off the pointers and colours, has equal black depth everywhere and no red node below a red one |
| RbTree.Tree.ValidTheorem | src/std/rb_tree.hpp:64-123 | a valid tree is a red-black tree with a black root, its in-order sequence is its members and its thread, and its height is at most 2 log2(n + 1) |
| RbTree.Tree.Replay | src/std/rb_tree.hpp:64-123 | after every run of inserts of fresh keys and removes of members the tree is a valid search tree and its members are those inserted and not removed |
| RbTree.HeightBound | src/std/rb_tree.hpp:225-276 | 2^height is at most the square of size + 1 for every tree of equal black depth without a red-red edge |
| VMem.VMem.constructor | src/mem/vmem.cpp:61-82 | a fresh arena is valid, has no live block, is one free segment, and has the descriptors of all pages of the supply but the two in use |
| VMem.VMem.SegAlloc | src/mem/vmem.cpp:104-134 | a descriptor is handed out that describes nothing, refilling from a new page when the stack is empty; null exactly when no page can be had |
| VMem.VMem.Refill | src/mem/vmem.cpp:111-129 | a new page puts all its descriptors but the first on the free stack, each of them once |
| VMem.VMem.SegFree | src/mem/vmem.cpp:136-139 | a descriptor in hand goes back to the stack |
| VMem.VMem.FreelistInsertNoMerge | src/mem/vmem.cpp:275-282 | a loose segment goes to the front of the list of its size, floor(log2(size)), and nothing else changes |
| VMem.VMem.FreelistRemove | src/mem/vmem.cpp:270-273 | a free segment leaves exactly its list |
| VMem.VMem.MergePrev | src/mem/vmem.cpp:288-303 | merging with the free segment before keeps the tiling, frees one descriptor and leaves the live blocks alone |
| VMem.VMem.MergeNext | src/mem/vmem.cpp:304-318 | the same for the free segment after |
| VMem.VMem.FreelistInsert | src/mem/vmem.cpp:284-323 | a segment given back is merged with its free neighbours until there are none and all invariants hold again; each merge removes a segment, so the loop ends |
| VMem.VMem.HashtabInsert | src/mem/vmem.cpp:325-330 | a loose segment becomes a live block at its base, in the bucket of its base |
| VMem.VMem.BucketFind | src/mem/vmem.cpp:332-342 | the bucket of an address holds the live segment with that base if there is one |
| VMem.VMem.HashtabRemove | src/mem/vmem.cpp:332-342 | the live block at the address, and no other, stops being live; null exactly when there is none |
| VMem.VMem.Xfree | src/mem/vmem.cpp:344-356 | the block at the address stops being live and all invariants hold; an address that is not live changes nothing |
| VMem.VMem.Carve | src/mem/vmem.cpp:196-207 | cutting the first bytes off a segment keeps chain and tiling; the piece has a descriptor of its own |
| VMem.VMem.CutFront | src/mem/vmem.cpp:186-207 | the part before the start of the range stays free, in the list of its size |
| VMem.VMem.CutPart | src/mem/vmem.cpp:219-236 | the first bytes become a live block and the rest goes back to the free lists |
| VMem.VMem.CutWhole | src/mem/vmem.cpp:213-217 | when nothing is left over the whole segment becomes the live block and the spare descriptor goes back |
| VMem.VMem.GetDescriptors | src/mem/vmem.cpp:178-194 | one or two descriptors, or none at all when they have run out |
| VMem.VMem.FindInList | src/mem/vmem.cpp:241-264 | the search of one list finds a segment with room in the range, or there is none that the search looks at, or descriptors have run out |
| VMem.VMem.Xalloc | src/mem/vmem.cpp:141-268 | the request is served by the first segment in the lists that can be used, and by none exactly if there is none; the block returned is inside the range and the arena, disjoint from every live block, and the only new live block; with the same address for both ends it is at that address, or 0; with another upper end it stays below that; 0 changes nothing visible, and for an unranged request it means that no free segment is large enough or descriptors have run out |
| VMem.VMem.RequestFixed | src/mem/vmem.cpp:147-149 | a request for a fixed address is served there if and only if the free segment that covers its bytes is the head of its list or the head is too small, and there are descriptors for it |
| VMem.VMem.FixedExactly | src/mem/vmem.cpp:241-265 | the same of the search: no other segment, and no other address, is ever chosen |
| VMem.VMem.CoveredExactly | src/mem/vmem.cpp:156-239 | a free segment covers given bytes if and only if they lie in the arena and no live block has one of them |
| VMem.VMem.FixedMiss | src/mem/vmem.cpp:241-265 | the calls after which a request for a fixed address fails although no live block has any of its bytes |
| VMem.VMem.ChoiceExactly | src/mem/vmem.cpp:241-265 | a request is served if and only if some place that the search gets to has room and needs no more descriptors than there are |
| VMem.VMem.FindSegment | src/mem/vmem.cpp:241-265 | the loops find the first such place, list by list and from the front of each |
| VMem.VMem.SearchIsExact | src/mem/vmem.cpp:241-265 | a request finds a segment if and only if some free segment with room inside the range is in a list whose head is not itself large enough but outside the range |
| VMem.VMem.UnrangedIsComplete | src/mem/vmem.cpp:241-265 | an unranged request finds a segment if and only if some free segment is large enough |
| VMem.VMem.FreshOffers | src/mem/vmem.cpp:241-265 | a fresh arena offers any part of it |
| VMem.VMem.RangedCanMiss | src/mem/vmem.cpp:248-252 | six pages with the third one allocated: the search for two pages finds nothing in a range in which a free segment fits |
| VMem.VMem.RangedMiss | src/mem/vmem.cpp:141-268 | the calls that show it: on a fresh arena of six pages `xalloc` returns the third page, and the next ranged `xalloc` returns 0 although there is room inside its range |
| VMem.VMem.SixPages | src/mem/vmem.cpp:61-82 | such an arena is what `init` makes |
| VMem.VMem.SegBounds | src/mem/vmem.cpp:61-82 | every segment of the chain is non-empty and inside the arena |
| VMem.VMem.ViewFacts | src/mem/vmem.cpp:284-323 | in every valid state the segments tile the arena in address order, no two neighbours are both free, and the used ones are the live blocks with their sizes |
| VMem.VMem.BlocksApart | src/mem/vmem.cpp:141-268 | live blocks are inside the arena and do not overlap |
| VMem.VMem.FreeAbuts | src/mem/vmem.cpp:160-175 | a free segment starts at the arena's base or where a live block ends |
| VMem.VMem.AllocateAndFree | src/mem/vmem.cpp:141-356 | freeing what was just allocated restores the arena extent by extent |
| VMem.VMem.FreeAll | src/mem/vmem.cpp:344-356 | freeing all live blocks, in any order, leaves the single free segment of the beginning |
| VMem.AlignUpLeast | src/mem/vmem.cpp:20-21 | rounding up gives the least multiple of the quantum that is not smaller |
| Extents.LiveDisjoint | src/mem/vmem.cpp:141-268 | the live blocks of a tiling never overlap |
| Extents.Canonical | src/mem/vmem.cpp:284-323 | two coalesced tilings with the same live blocks are equal: free space is determined by what is allocated |
| Extents.CoveringFree | src/mem/vmem.cpp:284-323 | what no live block touches lies inside one free extent |
| Extents.AllFree | src/mem/vmem.cpp:344-356 | with nothing live the arena is one free extent |
| VirtualSpace.VirtualSpace.constructor | src/mem/vspace.cpp:9-11 | a fresh address space has no region and no live block, and 70 descriptors from the first page and 72 from each of the others |
| VirtualSpace.VirtualSpace.Create | src/mem/vspace.cpp:9-11 | with a fresh page table, and an arena inside one window of 2^48 bytes, it is in order as a whole: what is not allocated is not mapped |
| VirtualSpace.VirtualSpace.Alloc | src/mem/vspace.cpp:18-31 | a range and its region are added together or not at all; regions are exactly the live blocks; 0 only if the rounded size is 0, no free segment has room, or fewer than two descriptors are left |
| VirtualSpace.VirtualSpace.Free | src/mem/vspace.cpp:33-46 | the block and its region, found by its base, go together |
| VirtualSpace.VirtualSpace.MapSome | src/mem/vspace.cpp:57-70 | after any number of pages exactly those pages are mapped, each to a page of its own that left the pool; the loop gets to the end if and only if the free pages suffice for the data and for the tables that are missing |
| VirtualSpace.VirtualSpace.UnmapPages | src/mem/vspace.cpp:75-80 | every page of the range is unmapped, the pages behind them are back in the pool, and no other entry changes |
| VirtualSpace.VirtualSpace.MapPages | src/mem/vspace.cpp:56-84 | it fails if and only if the free pages do not suffice for the data and the missing tables; then all entries are as before and no page of data is kept |
| VirtualSpace.VirtualSpace.AllocBacked | src/mem/vspace.cpp:48-87 | the range is where the allocator puts it, if and only if it does and the free pages suffice for the data and for the tables that are missing there; all or nothing: success maps every page of the new range to a distinct page, leaves the pages that remain, and changes no other entry; failure leaves live blocks, regions and entries as they were, and the pages that are free or tables are the same |
| VirtualSpace.VirtualSpace.AllocFirst | src/mem/vspace.cpp:48-87 | in an address space without ranges a request that fits into the arena succeeds, with two descriptors and four free pages for each page of data |
| VirtualSpace.VirtualSpace.AllocTwo | src/mem/vspace.cpp:48-87 | with one page left in the pool a second page, next to the first in the same table, can be had |
| VirtualSpace.VirtualSpace.SixPagesSuffice | src/mem/vspace.cpp:48-87 | from the start: six pages are enough for two allocations of a page, one for the root, three for tables and two for data |
| VirtualSpace.VirtualSpace.BackedIsSeen | src/mem/vspace.cpp:48-87 | with every address inside a backed block the processor gets to its place in the page of data behind it, with the attributes asked for |
| VirtualSpace.CostExactly | src/mem/vspace.cpp:57-70 | what the loop takes from the pool is one page for each page of data and one for each different table that is missing on the way to one of them |
| VirtualSpace.CostBound | src/mem/vspace.cpp:57-70 | that is never more than four pages for each page of data |
| VirtualSpace.VirtualSpace.FreeBacked | src/mem/vspace.cpp:89-102 | the entries of the range become 0, its pages go back, and block and region are gone |
| VirtualSpace.VirtualSpace.AllocateAndFree | src/mem/vspace.cpp:48-102 | `free_backed` undoes `alloc_backed` |
| VirtualSpace.BackedAfterAlloc | src/mem/vspace.cpp:48-87 | mapping the pages of a new block leaves every other block backed, with pages of its own |
| VirtualSpace.BackedAfterFree | src/mem/vspace.cpp:89-102 | so does unmapping the pages of one block |
| VirtualSpace.VirtualSpace.Replay | src/mem/vspace.cpp:48-102 | after every run of `alloc_backed` and `free_backed` every live block is mapped page by page to its own pages of data, and no two blocks share one |
| PageTable.EntryAddress | src/arch/aarch64/mem/paging.cpp:168-174 | an entry gives back the address it was made of and is present |
| PageTable.EntryPermissions | src/arch/aarch64/mem/paging.cpp:84-103 | the permission bits of an entry say who may write and read, exactly as the flags do, and the attribute index is the cache mode |
| PageTable.EntryExecute | src/arch/aarch64/mem/paging.cpp:93-102 | execution is forbidden to users or to the kernel exactly when the flags do not allow it |
| PageTable.EntryFlags | src/arch/aarch64/mem/paging.cpp:168-174 | every entry has the access flag set and is outer shareable |
| PageTable.EntryRights | src/arch/aarch64/mem/paging.cpp:84-103 | what the processor lets users and the kernel do with the page, exactly, by the flags |
| PageTable.IndexBits | src/arch/aarch64/mem/paging.cpp:105-112 | the four indices are the bits that the processor takes for the four levels |
| PageTable.IndexDigits | src/arch/aarch64/mem/paging.cpp:105-112 | each index is below 512, and together they are the page number, the index of the root first |
| PageTable.SamePageIndices | src/arch/aarch64/mem/paging.cpp:105-112 | two addresses have the same four indices if and only if they lie in the same page of the 48-bit space |
| PageTable.PageMap.constructor | src/arch/aarch64/mem/paging.cpp:371-376 | a fresh table is valid, maps nothing and has no block entry |
| PageTable.PageMap.EnsureTable | src/arch/aarch64/mem/paging.cpp:114-130 | a table is found or made below an entry, which takes one page exactly if there was none; making one changes no entry of the last level |
| PageTable.PageMap.Map | src/arch/aarch64/mem/paging.cpp:81-177 | it succeeds if and only if there is a free page for each of the at most three missing tables; success changes the entry of exactly one page to the new one; failure, also after some tables were made, changes no entry |
| PageTable.PageMap.SeenIs | src/arch/aarch64/mem/paging.cpp:108-174 | the processor, walking down from the root, comes to the entry that the model gives the page, or to a fault |
| PageTable.PageMap.MapSeen | src/arch/aarch64/mem/paging.cpp:81-177 | after a successful `map` the processor gets from every address in the page to its place in the physical page, and from all other addresses where it got before |
| PageTable.PageMap.UnmapSeen | src/arch/aarch64/mem/paging.cpp:179-231 | after `unmap` it faults in the page and gets from all other addresses where it got before |
| PageTable.PageMap.ProtectSeen | src/arch/aarch64/mem/paging.cpp:233-315 | after `protect` of a mapped page it gets where it got before, with the new attributes |
| PageTable.PageMap.FindLeaf | src/arch/aarch64/mem/paging.cpp:192-224 | the walk ends at the table of the last level if and only if there is one |
| PageTable.PageMap.Unmap | src/arch/aarch64/mem/paging.cpp:179-231 | the entry of exactly one page becomes 0 |
| PageTable.PageMap.Protect | src/arch/aarch64/mem/paging.cpp:233-315 | the entry of exactly one page gets new permissions and keeps its address, if there is a table for it |
| PageTable.PageMap.ProtectExactly | src/arch/aarch64/mem/paging.cpp:309-312 | no translation changes if and only if the page was mapped or has no table |
| PageTable.PageMap.ProtectAfterUnmap | src/arch/aarch64/mem/paging.cpp:309-312 | a page that was mapped, unmapped and protected translates to the physical page 0 |
| PageTable.PageMap.GetPhys | src/arch/aarch64/mem/paging.cpp:317-365 | wherever the processor gets, by a page or by a block of 1 GiB or 2 MiB at a multiple of its size, the result is the address it gets to; for the start of a page that is not mapped 0 |
| PageTable.PageMap.MapAndTranslate | src/arch/aarch64/mem/paging.cpp:317-365 | after a successful `map` `get_phys` of any address inside the page gives the physical page and the offset |
| PageTable.PageMap.PhysicalIsSeen | src/arch/aarch64/mem/paging.cpp:317-365 | what the tables say is what the processor does |
| PageTable.PageMap.BlockTranslation | src/arch/aarch64/mem/paging.cpp:343-344 | inside a block whose address is a multiple of 1 GiB addresses translate with a constant distance |
| PageTable.PageMap.SmallBlockTranslation | src/arch/aarch64/mem/paging.cpp:354-356 | so it is inside a block whose address is a multiple of 2 MiB |
| PageTable.OrShifted | src/arch/aarch64/mem/paging.cpp:343-344 | `or` of a multiple of 2^k and a number below it is their sum |
| Buddy.SizeFits | src/mem/pmalloc.cpp:28-30 | `size_to_index` gives the smallest order whose blocks have enough pages |
| Buddy.BuddyIsHead | src/mem/pmalloc.cpp:42-51 | the buddy of an aligned block, if an aligned block covers it, is the first page of a block that is not larger |
| Buddy.MergeTiling | src/mem/pmalloc.cpp:61-66 | two neighbours of one order form a block of the next; if it is aligned and the others are, all blocks are |
| Buddy.SplitTiling | src/mem/pmalloc.cpp:114-126 | a block splits into two halves; if blocks are aligned, the halves are aligned buddies |
| Buddy.LargestOrderIsLargest | src/mem/pmalloc.cpp:176-189 | the order chosen for a page is the largest that fits by address and by what is left |
| Buddy.CarveTiles | src/mem/pmalloc.cpp:171-191 | whatever the first page, the carved blocks tile the region, all of them are in the lists of their orders, and each is the largest that fits in its place by address |
| Buddy.CarveAligned | src/mem/pmalloc.cpp:171-191 | if the first page is aligned to the largest block, each carved block starts at a multiple of its size, is as large as its place allows, and no two buddies are left unmerged |
| Buddy.CarveNearly | src/mem/pmalloc.cpp:171-191 | if the first page is aligned to units of 2^v pages and no further, and there are fewer than seven units, or two units are the largest block, the only carved blocks off the multiples of their sizes are two units at 1 or 3 and four units at 1, or two units where these are the largest block |
| Buddy.LooksFreeIsFree | src/mem/pmalloc.cpp:42-56 | the page of the buddy looks free if and only if it starts a free block of the same order, in aligned regions and in those that are nearly so |
| Buddy.MergeNearly | src/mem/pmalloc.cpp:61-66 | merging keeps blocks nearly aligned: no page inside one of the blocks off their multiples comes to look like a block of one unit |
| Buddy.SplitNearly | src/mem/pmalloc.cpp:114-126 | so does splitting |
| Buddy.InsertRough | src/mem/pmalloc.cpp:32-78 | freeing a live block keeps the tiling, the lists and what the carving promised, in aligned and in nearly aligned regions; exactly the block stops being live |
| Buddy.InsertBooks | src/mem/pmalloc.cpp:32-78 | a freed block is merged as far as possible: afterwards blocks tile the region, each list holds exactly the free blocks of its order once, no two buddies below the top order are both free, and exactly the block stopped being live |
| Buddy.SplitFromRough | src/mem/pmalloc.cpp:114-126 | a larger block is cut down and the upper halves become free, whatever the first page; alignment to page numbers, near alignment and alignment by address are kept |
| Buddy.GetRough | src/mem/pmalloc.cpp:80-132 | a block of exactly the order becomes live; failure means that every list from that order on is empty, and changes nothing |
| Buddy.RunRough | src/mem/pmalloc.cpp:134-238 | in every run of `pmalloc` and `pfree` blocks tile the region, and what the carving promised is kept |
| Buddy.RunBooks | src/mem/pmalloc.cpp:134-238 | in every run the books are in order, if the first page is aligned to the largest block |
| Buddy.TakeMany | src/mem/pmalloc.cpp:80-132 | whatever the first page, handing out blocks of one order leaves all others aligned by address, and ends when there is none left |
| Buddy.TakeAll | src/mem/pmalloc.cpp:80-132 | whatever the first page, handing out single pages ends with every page handed out once |
| Buddy.AlignedExactly | src/mem/pmalloc.cpp:134-238 | in every run every block, free or handed out, starts at an address that is a multiple of its size, if and only if the first page is aligned to the largest block the region has room for |
| Buddy.BuddyAllocator.constructor | src/mem/pmalloc.cpp:171-191 | any region is carved as the function says; if its first page is aligned to the largest block, the books are in order |
| Buddy.BuddyAllocator.LargestBlock | src/mem/pmalloc.cpp:176-189 | the loop over the orders finds the largest block that fits |
| Buddy.BuddyAllocator.MergeStep | src/mem/pmalloc.cpp:38-72 | one round of the loop merges with the buddy if and only if the buddy looks free |
| Buddy.BuddyAllocator.FreelistInsert | src/mem/pmalloc.cpp:32-78 | the loop computes `Insert`, for which `InsertBooks` holds |
| Buddy.BuddyAllocator.Split | src/mem/pmalloc.cpp:114-126 | the loop computes `SplitFrom`, for which `SplitFromRough` holds |
| Buddy.BuddyAllocator.FreelistGet | src/mem/pmalloc.cpp:80-132 | the loop computes `GetFrom`, for which `GetRough` holds |
| Buddy.BuddyAllocator.Pmalloc | src/mem/pmalloc.cpp:208-225 | a new live block of the smallest sufficient order, or nothing changes and all lists from that order on are empty; nothing for 0 pages |
| Buddy.BuddyAllocator.Pfree | src/mem/pmalloc.cpp:227-238 | exactly the block stops being live and the invariants hold |
| Buddy.BuddyAllocator.BlockFacts | src/mem/pmalloc.cpp:80-132 | an allocated block has enough pages, starts at a multiple of its size, is inside the region and overlaps no other |
| Buddy.AllFreeIsGreedy | src/mem/pmalloc.cpp:38-72 | when nothing is live every block is as large as its place allows |
| Buddy.GreedyIsUnique | src/mem/pmalloc.cpp:171-191 | there is one such tiling, namely the one the region was carved into |
| Buddy.CarvedAgain | src/mem/pmalloc.cpp:171-191 | when nothing is live the lists have the members that the carving gave them |
| Buddy.BuddyAllocator.FreeAll | src/mem/pmalloc.cpp:227-238 | freeing all live blocks, in any order, leaves that tiling: each list holds the blocks that the region was carved into |
| BuddyOverlap.StaysApart | src/mem/pmalloc.cpp:134-238 | if the first page is aligned far enough, no two blocks, free or handed out, have a page in common in any run |
| BuddyOverlap.RunNearly | src/mem/pmalloc.cpp:134-238 | with fewer than seven units of 2^v pages, or if two units are the largest block, blocks tile the region in every run although they need not be aligned |
| BuddyOverlap.TakePairs | src/mem/pmalloc.cpp:80-132 | with seven units or more, handing out blocks of two units hands out the ones at units 1, 3 and 5 |
| BuddyOverlap.UnalignedOverlaps | src/mem/pmalloc.cpp:42-51 | for every region whose first page is aligned to 2^v pages and not to 2^(v+1), with v at most 11 and 7 * 2^v pages or more, there is a run after which two blocks that were handed out overlap |
| BuddyOverlap.OverlapExactly | src/mem/pmalloc.cpp:134-238 | for every first page and number of pages: no two blocks overlap in any run, and no two that were handed out, if and only if the first page is aligned to 2^Enough(count) pages, the smallest power of two of which the region does not have seven, but at most 2^12 |
| Tcp.ProcessCounted | src/dev/net/tcp.cpp:288-422 | every packet keeps sequence numbers equal to initial number plus items, and delivered bytes equal to received ones, or fewer once a packet was dropped |
| Tcp.SentCounted | src/dev/net/tcp.cpp:424-678 | so does everything the handler sends |
| Tcp.ProcessStaged | src/dev/net/tcp.cpp:315-421 | which initial sequence numbers are known in which state, kept by every packet |
| Tcp.OutgoingCarried | src/dev/net/tcp.cpp:467-512 | a segment that is sent holds the items of its place in the stream and acknowledges no more than was received |
| Tcp.InOrderAt | src/dev/net/tcp.cpp:366-393 | a segment with the expected number holds what follows what was received |
| Tcp.RunInv | src/dev/net/tcp.cpp:288-678 | the invariant of both sockets, the listener and all segments ever sent holds in every run |
| Tcp.DeliveredIsPrefix | src/dev/net/tcp.cpp:288-678 | in every run over a network that loses, repeats and reorders, each side delivers a prefix of what the other sent, and that is a prefix of what the application wrote, for fewer than 2^32 sequence numbers and no packet dropped for lack of room |
| Tcp.AcceptedIsAcknowledged | src/dev/net/tcp.cpp:370-378 | a segment is accepted only when its sender has received everything this side has sent |
| Tcp.ClosedMeansReceived | src/dev/net/tcp.cpp:297-313 | a socket whose FIN is acknowledged, or that was closed by FINs, has got everything before its FIN across |
| Tcp.HandshakeAgrees | src/dev/net/tcp.cpp:335-363 | when the accepted socket is connected both sides know both initial sequence numbers |
| Tcp.HandshakeCompletes | src/dev/net/tcp.cpp:125-243 | the run without loss of the three-way handshake connects both sides, for all initial sequence numbers |
| Tcp.DataGetsThrough | src/dev/net/tcp.cpp:366-400 | data sent when both sides are up to date is delivered when its segment arrives |
| Tcp.AcceptedExactly | src/dev/net/tcp.cpp:390-399 | an accepted segment is delivered if and only if it fits into the receive buffer |
| Tcp.DeliveredExactly | src/dev/net/tcp.cpp:288-678 | in every run, on both sides, what was acknowledged has been delivered if and only if no packet was dropped for lack of room |
| Tcp.FullBufferBreaksPrefix | src/dev/net/tcp.cpp:390-399 | the steps of a run, from the handshake on, after which a packet was dropped because the buffer was full, the next was accepted, and what has been delivered is no prefix of what was written or sent |
| TcpClose.ConnectedSends | src/dev/net/tcp.cpp:469-585 | a woken handler of a connected socket sends the bytes that wait; a FIN if none do and the application has asked for it; otherwise an acknowledgement; with what that makes of the socket |
| TcpClose.HandshakeSends | src/dev/net/tcp.cpp:430-668 | what it sends in the other states: the SYN-ACK, the last ACK of the handshake, its FIN, the last acknowledgement, or nothing |
| TcpClose.NoFinUnasked | src/dev/net/tcp.cpp:424-668 | in every run in which no application closes its connection no segment has a FIN, and no side has sent or received one |
| TcpClose.FinAnswersFin | src/dev/net/tcp.cpp:424-668 | in every run a side whose application has not closed the connection sends a FIN only after it has received one |
| TcpClose.DataIsAcknowledged | src/dev/net/tcp.cpp:552-584 | after the handshake the server sends data and it arrives: the client answers with an ACK of exactly that data, without a FIN, and stays connected |
| TcpClose.CloseCompletes | src/dev/net/tcp.cpp:301-420 | after the handshake the client closes: its FIN makes the server answer with its own, and when that has arrived twice the last acknowledgement closes both sides |
| TcpClose.FinArrivesTwice | src/dev/net/tcp.cpp:296-313 | the first copy of the FIN of the server is taken for the acknowledgement of the FIN of the client, which stays connected; the second is taken for a FIN |
| TcpClose.ResetExactly | src/dev/net/tcp.cpp:289-294 | a reset ends the connection for good, in every continuation, if and only if the handler is not about to send the last ACK of the handshake or its FIN |
| TcpClose.ResetEnds | src/dev/net/tcp.cpp:289-294 | after that nothing more is taken in, delivered or accepted for sending |
| TcpClose.ResetIsLost | src/dev/net/tcp.cpp:289-294 | the steps after which a reset is lost |
| TcpSocket.Tcp4Socket.OpenConnection | src/dev/net/tcp.cpp:125-201 | `connect` takes the step of the protocol |
| TcpSocket.Tcp4Socket.AcceptConnection | src/dev/net/tcp.cpp:216-243 | `accept` makes the socket of the protocol out of the pending connection, null if none is pending |
| TcpSocket.Tcp4Socket.ReceiveData | src/dev/net/tcp.cpp:380-399 | a data packet in order, with or without FIN |
| TcpSocket.Tcp4Socket.Process | src/dev/net/tcp.cpp:288-422 | `process_packet` in every state takes the step of the protocol |
| TcpSocket.Tcp4Socket.HandlerWakes | src/dev/net/tcp.cpp:424-465 | the handler chooses what to send by the state; `ConnectedSends` and `HandshakeSends` say what that is |
| TcpSocket.Tcp4Socket.HandlerSends | src/dev/net/tcp.cpp:440-668 | the handler sends the segment of the protocol and updates the socket, as `ConnectedSends` and `HandshakeSends` say |
| TcpSocket.Tcp4Socket.Write | src/dev/net/tcp.cpp:245-259 | as many bytes as fit go to the end of the send buffer of a connected socket, and none otherwise |
| TcpSocket.Tcp4Socket.Read | src/dev/net/tcp.cpp:261-279 | as many bytes as there are, up to the number asked for, are taken off the front of the receive buffer |
| TcpSocket.Tcp4Socket.Close | src/dev/net/tcp.cpp:97-110 | a connected socket is told to disconnect |
| TcpSocket.Machines.Do | src/dev/net/tcp.cpp:97-678 | every step of the protocol is a call on the socket objects |
| TcpSocket.Replay | src/dev/net/tcp.cpp:97-678 | three socket objects driven by any steps go through the states of the run, so that each side delivers a prefix of what the other sent |
| Clip.Intersect | libs/libui/include/ui/primitive.hpp:29-35 | the rectangle of exactly the common points |
| Clip.Subtract | libs/libui/include/ui/primitive.hpp:37-83 | at most four pieces, inside the rectangle, apart from each other and from the other rectangle, covering exactly the points that are left |
| Clip.SubtractFrom | libs/libui/src/window.cpp:70-84 | the erase-and-push loop terminates, keeps the list free of intersections and takes away exactly the rectangle |
| Clip.SubtractAll | libs/libui/src/window.cpp:120-138 | the same for a list of rectangles |
| Clip.Disjoin | libs/libui/src/window.cpp:92-110 | the dirty rectangles become a list without intersections that covers the same points |
| Windows.Context.AddClipRect | libs/libui/src/context.cpp:97-121 | what the subtracted rectangles leave of a rectangle is added to the clip list |
| Windows.Context.SetClip | libs/libui/src/window.cpp:140-142 | the clip list has no intersections and covers the given region without the cursor |
| Windows.Context.FillClipped | libs/libui/src/context.cpp:24-39 | exactly the common points of rectangle and clip rectangle are written once, also when the 32-bit differences wrap |
| Windows.Context.DrawFilledRect | libs/libui/src/context.cpp:8-41 | exactly the points of the rectangle inside the clip list are written, each of them once |
| Windows.Context.DrawChild | libs/libui/src/window.cpp:53-86 | a window and what is inside it draw where no sibling lies above |
| Windows.Context.DrawClipped | libs/libui/src/window.cpp:113-199 | a window and its children write every point of their region once, with the colour of the topmost window there |
| Windows.Context.DrawRoot | libs/libui/src/window.cpp:87-111 | every dirty point inside the root and outside the cursor is written exactly once, by the topmost window covering it; no other point is written |
| Windows.Context.CopyClipped | libs/libui/src/context.cpp:50-66 | exactly the common points of bitmap and clip rectangle get their pixels |
| Windows.Context.DrawBitmap | libs/libui/src/context.cpp:42-68 | exactly the points of the bitmap inside the clip list are written, each of them once, with the pixel that belongs there |
| Windows.Context.DrawBitmapPixel | libs/libui/src/context.cpp:42-68 | the pixel in row r and column c of the bitmap lands in the cell of the frame buffer r rows below and c columns to the right of the corner |
| Windows.OneLayer | libs/libui/src/gui.cpp:34-36 | where root windows do not overlap no point is drawn by more than one of them |
| Windows.Context.DrawRoots | libs/libui/src/gui.cpp:34-36 | every dirty point outside the cursor is written once for each root window over it and shows the topmost window of the last of them |
| Windows.Context.Draw | libs/libui/src/gui.cpp:19-63 | the screen after drawing: the cursor, the topmost windows where it was dirty, and the rest as before |

## Left out

- `VMem.destroy` and `VirtualSpace.destroy`: giving all descriptor pages back.
- The `_end` pointer of `VMem`'s segment list, which merging does not keep up to date: the chain is the one that starts at the
  span and follows `next` and `prev`.
- Locks, the scheduler and events, except for the signal count of the TCP handler.
- `BuddyAllocator`: several regions, whose pages share the free lists but never merge with each other, the memory statistics, and
  requests for more than 8192 pages, for which the source would look beyond its last list.
- `map_1gb`, the sharing of the kernel half between page tables, the list of used pages and the translation caches. Block entries
  may be present in the model, and mapping is then required to stay clear of them.
- PageTable.PageMap.constructor: the copy of the kernel half into a new table is not modelled, because the tables below it
  would be shared.
- TCP teardown progress, and what connecting a socket again does; addresses, ports, checksums and header layout.
- TcpSocket.Tcp4Socket.Write: the blocking form is not modelled; its pieces are separate steps of the non-blocking one.
- TcpSocket.Tcp4Socket.Read: the blocking form and the error results are not modelled; its pieces are separate steps of the
  non-blocking one.
- TcpSocket.Tcp4Socket.Close: the wait for the change of state is not modelled; the steps up to it are.
- `Windows`: window decorations, text, and input. A window is its outer rectangle, filled with one colour.
- `unordered_map`, the ring buffers, the slab allocator, the devicetree walker and BLAKE2b: smaller refinements of their own.
- Drivers, system calls, processes and loading of programs.
