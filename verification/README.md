# AnglOS: memory management, lists, scheduling, input and formatting

AnglOS is a small x86-64 kernel. This project models the parts of it on which
everything else rests, and proves what they promise for every input, every run
or every interleaving.

- **Kernel heap** (`FreeLists`, `HeapLayout`, `HeapBytes`, `HeapSpec`,
  `KernelHeap`, `HeapClient`). The heap is an array of 64-bit words, as in the kernel: headers
  and footers, the fences at both ends, and the links of the twelve free lists
  inside the free payloads all live in it. A ghost map of blocks and one ghost
  sequence per list say what the words mean. Every operation keeps the two in
  agreement: the blocks tile the heap, tags are paired, no two neighbours are
  free, and a block is on a list exactly if it is free, once, on the list of its
  size. `HeapSpec` has the operations as functions of the blocks, the lists and the
  break alone, and the operations on words are proved against them: which block
  is found, split, joined or moved, and when NULL is returned, is determined. On
  top of it, every run of kmalloc, kfree, krealloc and stores is shown to be a run
  of a table of independent byte strings, with every pointer and every failure
  as those functions have it.
- **Page allocator** (`Buddy`, `BuddyMerge`, `Pmm`, `PagePool`). Seven bitmaps,
  stored as bytes; a page is free if exactly one of the seven blocks that cover
  it is marked, and never more than one is. `BuddyMerge` says for which pages
  pfree merges all that can be merged. Seen from outside the allocator is a set
  of pages.
- **Intrusive list** (`StableOrder`, `IntrusiveList`). Nodes with two links;
  splice, reverse, unique and the natural merge sort rewrite links in place.
  The sort yields the one arrangement that is ordered and stable, the same that
  ordered insertion of the nodes one by one would build.
- **Page tables** (`PageTree`, `PageFormat`, `Paging`, `PagingClient`). The
  tables are a tree of frames in physical memory, and the walk of the tree is a
  flat map from virtual page to entry. vmalloc, vfree, videntity and vflags are
  proved against that map, with the exact number of frames each takes, and every
  run of mapping, storing and unmapping is a run of a table of pages that maps no
  more pages than there were frames at its start. The format
  is the 4-level paging of the Intel 64 and IA-32 Architectures Software
  Developer's Manual, volume 3A.
- **Scheduler** (`Scheduling`) and **input ring** (`InputRing`). Step systems:
  runs of timer interrupts and thread creations, and all interleavings of an
  interrupt handler with any number of readers.
- **Formatting** (`Printf`, `Kprintf`, `KprintfText`). The conversions of section
  7.21.6.1 of ISO/IEC 9899:2011 that the kernel knows, the walk over a format, and
  the bounded output of vsnkprintf. `KprintfText` says of the text of a conversion
  what it asks for, and that is what the walk puts out.

`Machine` holds the widths that all of them share. `dafny verify dfyconfig.toml`
checks the whole project.

## What turned out false of the code

Each of these is kept as the code has it, with an input on which the promise
fails and the exact condition under which it holds.

- pagingAllocTable means to clear a new table but writes word 0 in every round
  of its loop (kernel/mm/paging/paging.c:52-54). A frame that still holds an old
  word then maps a page that nobody mapped (`PageTree.StaleFrameLeaks`). At
  every level, the tables stay a tree and no translation changes if and only if
  the frame read as zero from word 1 on (`PageTree.UnclearedExactly`).
- vmalloc does not check for NULL. Where no frame is left, the next batch is
  frames 0 to 63, whoever has them (`Paging.AddressSpace.PmallocBulkNull`), and
  the page is bound to frame 0 (`Paging.AddressSpace.BindNull`). That happens if
  and only if the frames to be had are fewer than the pages and the tables they
  lack (`Paging.AddressSpace.Vmalloc`, `Paging.AddressSpace.Videntity`).
- vfree gives frames back to the page allocator, but one by one, so that no block
  of 64 comes free and vmalloc cannot have them again: the frames that vmalloc can
  still have are as many after vfree as before (`Paging.AddressSpace.Vfree`), and
  over every run the pages mapped are at most the frames at its start
  (`PagingClient.RunSpends`).
- videntity does not give its lock back where it returns NULL
  (kernel/mm/paging/paging.c:308-311). It keeps the lock if and only if a page of
  the range begins at address 0 (`Paging.AddressSpace.Videntity`,
  `Paging.NoneZeroIs`), as every range from address 0 on does
  (`Paging.IdentityAtZero`); vmalloc gives it back there.
- Flags are joined to an address without a mask. With the address bit 0x1000 among
  them frame 2 becomes frame 3 (`PageFormat.AddressBitsMove`). The frame stored, or
  kept by vflags, is the one meant if and only if it has all address bits of the
  flags (`PageFormat.StoredFrame`, `PageFormat.StoredFrameOnly`,
  `PageFormat.ReflaggedFrame`, `PageFormat.ReflaggedFrameOnly`); mapping is
  proved for flags that have none.
- vflags is to change flags of mapped pages, but it makes a page present whose
  entry is zero (`Paging.VflagsMapsZero`). No page becomes mapped if and only if
  the flags lack the present bit, or every page of the range that has a
  last-level table is present (`Paging.VflagsExactly`). Its mask keeps some flags
  (`PageFormat.ExecuteDisableStays`); the flags come out as asked for if and only
  if they include all flags kept (`PageFormat.FlagsAsAsked`,
  `PageFormat.FlagsAsAskedOnly`).
- coalesce is to merge free buddies. Freeing page 3 alone can leave two free
  buddies unmerged (`BuddyMerge.PageThreeAlone`). From every fully merged state,
  pfree of n pages from page i on leaves a fully merged one if and only if at
  each level the halved count reaches the block of the last page, or i is 0, where
  pfree takes the address for NULL (`BuddyMerge.PfreeMergesExactly`). Fewer than 32 pages, so every table and every page of
  vfree, never do (`BuddyMerge.FewPagesDoNotReach`); multiples of 32 from the start
  of a block of 64 do (`BuddyMerge.HalfBlocksReach`).
- initPMM looks for the parent of a bit in the bitmap above. A bitmap of odd size
  makes it look into the bitmap two levels up, or at level 5 behind all bitmaps
  (`Pmm.OddSize`). Usable pages are lost that way: the last eight of 40 usable ones
  (`Pmm.LastPagesLost`), and in a first bitmap of odd size a page of the last byte
  if and only if four certain pages at the start are usable (`Pmm.LostPage`). It
  looks in the right place for all bits if and only if the first bitmap has a
  multiple of 64 bytes (`Pmm.ParentsInsideExactly`).
- pmalloc refuses requests of more than 64 pages, up to 2^63 pages; above that
  its bit trick wraps, takes the request for one of a single page and hands out a
  whole block (`PageLevel.LevelFor`, `Pmm.Pmm.Pmalloc`).
- mem_sbrk takes an int. The increment 2^32 + 288 arrives as 288
  (`KernelHeap.DeceivedOnce`). An increment is granted or refused as meant if and only if
  it is not one above the int range that is granted for what arrives
  (`KernelHeap.GrantedExactly`); kmalloc and krealloc are proved for all others.
- A `*` field width that is negative sets the flag `-` after the flag `0` was
  examined; both are then in force and the field is padded twice
  (`Printf.PaddedTwice`). The width law holds if and only if not both are set or
  nothing is padded (`Printf.WidthLaw`), and both are set exactly for a `0` flag
  without `-` and without precision and a negative `*` (`Printf.ZeroAndMinus`).
- A format that ends inside a conversion makes the walk step over its NUL, and what
  lies behind in memory is put out as well; a lone `%` does (`Kprintf.LonePercent`).
  The output is that of the format alone, whatever lies behind, if and only if no
  conversion is cut off (`Kprintf.OutputOfFormatAlone`, `Kprintf.WalkPastEnd`).
- threadSelect keeps exactly one thread running if and only if none was running
  or it selects the one that was (`Scheduling.SelectKeepsExactly`).
- threadCreate looks up the least runtime for a new thread, but the test for an
  empty ready list that follows is an assignment (kernel/threads/thread.c:130-133),
  so every new thread starts at 0. With threads at 70 and 75 it starts 70 behind
  (`Scheduling.CreatedBehind`). It starts as intended if and only if there is no
  runtime to find or some runtime is 0 (`Scheduling.CreatedAsIntended`), and the spread
  of runtimes stays within d if and only if no runtime exceeds d
  (`Scheduling.CreatedSpread`).
- A charge keeps the spread of runtimes if and only if the counter does not wrap
  (`Scheduling.ChargedSpread`).

## Model

| member | source | states |
|---|---|---|
| Words.TagRoundTrip | kernel/mm/heap/heap.c:81-85 | size and use bit of a block are read back from its tag word |
| Words.ByteOfWithByte | kernel/libc/string.c:36-50 | storing a byte in a word changes that byte and no other |
| FreeLists.UnlinkKeepsChains | kernel/libc/kernel/list.c:207-211 | list_remove on links that live in memory takes one element out of its chain and leaves all twelve chains well linked both ways |
| FreeLists.AppendKeepsChains | kernel/libc/kernel/list.c:134-139 | list_push_back on links that live in memory puts the element at the end of one chain and leaves all twelve chains well linked both ways |
| HeapLayout.UnlinkStep | kernel/mm/heap/heap.c:337-352 | taking a free block off its list keeps every other part of the heap's invariant, and no live payload changes |
| HeapLayout.AppendStep | kernel/mm/heap/heap.c:282-283 | putting a free block on the list of its size restores the invariant, and no live payload changes |
| HeapLayout.RewriteTwo | kernel/mm/heap/heap.c:294-300 | replacing a stretch of whole blocks by two blocks with matching tags keeps the tiling, the tags and the lists, and every payload outside |
| HeapLayout.TagBelow | kernel/mm/heap/heap.c:59-70 | the word before a header tells truly whether the block below is free and how long it is |
| HeapLayout.TagAbove | kernel/mm/heap/heap.c:72-74 | the word after a block is the header of the block above, or the end fence, and tells truly whether that is free |
| HeapLayout.StaleFooter | kernel/mm/heap/heap.c:353-355 | after the header of the lower neighbour is rewritten for the run of three, its old footer still leads prev_blk to it, because a block has at least 8 words |
| HeapLayout.CoalescedNoFreeNeighbours | kernel/mm/heap/heap.c:327-361 | merging a free block with its free neighbours leaves no two free neighbours anywhere |
| HeapLayout.ExtendStep | kernel/mm/heap/heap.c:274-287 | growing the break turns the old end fence into the header of a new free block, and the blocks tile the larger heap |
| HeapLayout.PlaceStep | kernel/mm/heap/heap.c:289-304 | placing a request splits a block or takes it whole, keeps the invariant and every live payload |
| HeapLayout.GrowStep | kernel/mm/heap/heap.c:280-284 | the words that extend_heap writes, the old fence turned into a header and a new fence behind, are the heap with one more free block, not yet on a list |
| HeapLayout.BlocksDisjoint | kernel/mm/heap/heap.c:116-140 | two different blocks of a heap share no word |
| HeapLayout.BlockCovering | kernel/mm/heap/heap.c:97-114 | the blocks tile the heap: every word between the fences lies in a block |
| HeapLayout.PlaceThenFree | kernel/mm/heap/heap.c:116-157 | the block layout after placing a request in a free block and freeing it at once is the layout before the placement; KernelHeap.KernelHeap.MallocThenFree is this on the operations |
| HeapLayout.GrowRightFacts | kernel/mm/heap/heap.c:201-214 | the run of a block and its free right neighbour, cut in two, has no free neighbours and the size asked for |
| HeapLayout.SlideFacts | kernel/mm/heap/heap.c:238-254 | in the run of a block and its free left neighbour, cut in two, only the rest can have a free neighbour, which coalesce then merges |
| HeapLayout.SlideBothFacts | kernel/mm/heap/heap.c:216-237 | the run of a block and both free neighbours, cut in two, has no free neighbours and the size asked for |
| HeapLayout.SegMonotone | kernel/mm/heap/heap.c:28-43 | a larger block never belongs to a lower list |
| HeapLayout.SegIs | kernel/mm/heap/heap.c:28-43 | a block belongs to the first of the lists of up to 8, 16, 32, ... words that can hold its size, and to the twelfth if none of the eleven can |
| HeapLayout.RoomyIs | kernel/mm/heap/heap.c:201-254 | there is room to grow or slide, at the start of the run of the block with its free neighbours, if and only if a neighbour is free and the run has 8 words more than asked for |
| HeapLayout.ElementBlock | kernel/mm/heap/heap.c:306-325 | an element of a list is the payload of a free block of that list's sizes |
| HeapLayout.InitialHeap | kernel/mm/heap/heap.c:97-114 | two fences and twelve empty lists are a well-formed heap without blocks |
| HeapSpec.OffIsWithout | kernel/libc/kernel/list.c:207-211 | taking an element out of a list by its place is taking it out by name |
| HeapSpec.AllocFails | kernel/mm/heap/heap.c:116-140 | kmalloc returns NULL if and only if find_fit does and the heap cannot be extended, and then nothing changes |
| HeapSpec.AllocBreak | kernel/mm/heap/heap.c:116-140 | kmalloc moves the break if and only if nothing fits and there is room for it, and then by the larger of the block and 36 words |
| HeapSpec.FitFails | kernel/mm/heap/heap.c:306-325 | find_fit returns NULL if and only if the higher lists are empty and the 13 blocks it looks at are too small |
| HeapSpec.FitFound | kernel/mm/heap/heap.c:306-325 | the block found is free and large enough; it is the first such one of the 13 looked at, or the first block of the first higher list that has one, and then none of the 13 is large enough |
| HeapSpec.ReallocFails | kernel/mm/heap/heap.c:159-272 | krealloc returns NULL if and only if the block can neither stay nor slide (HeapLayout.RoomyIs says when it can) and kmalloc fails in the heap as krealloc has extended it, or not; that heap is what it leaves |
| HeapSpec.ReallocPath | kernel/mm/heap/heap.c:177-257 | which path krealloc takes follows from the size and the neighbours before the extension; HeapSpec.StaysExactly and HeapSpec.ReallocBreak say which in terms of the run and of the break |
| HeapSpec.StaysExactly | kernel/mm/heap/heap.c:201-254 | a block that neither keeps its size nor shrinks stays, at the start of the run with its free neighbours and with the break unmoved, if and only if a neighbour is free and the run has 8 words more than asked for; kmalloc cannot hand out that place otherwise |
| HeapSpec.ExtendBreak | kernel/mm/heap/heap.c:177-185 | krealloc extends the heap if and only if the block is the last one, too small, without a free left neighbour, and there is room; by what it lacks, or 36 words if that is more |
| HeapSpec.ReallocBreak | kernel/mm/heap/heap.c:159-272 | the break stays where the block stays, shrinks, grows or slides in its run, and else is moved by that extension and by kmalloc alone |
| HeapSpec.FreeBreak | kernel/mm/heap/heap.c:147-157 | kfree never moves the break |
| HeapBytes.Memmove | kernel/libc/string.c:36-50 | the bytes arrive as they were at the start, however source and target overlap, and no other byte changes |
| HeapBytes.MoveBackward | kernel/libc/string.c:39-43 | copying from the end is a move where the source lies below |
| HeapBytes.MoveForward | kernel/libc/string.c:44-48 | copying from the start is a move where the source does not lie below |
| HeapBytes.LiveBytes | kernel/mm/heap/heap.c:159-272 | a payload whose words are unchanged holds the same bytes |
| HeapBytes.MoveKeepsLive | kernel/mm/heap/heap.c:257-269 | allocating a new block, filling it and freeing the old one keeps every other live payload |
| HeapBytes.ResizedThen | kernel/mm/heap/heap.c:257-271 | what a resize keeps it still keeps after further steps that keep live payloads |
| KernelHeap.IncrementFits | kernel/mm/heap/memlib.c:24-32 | the increment passed as an int is the one meant if and only if it is below 2^31 |
| KernelHeap.DeceivedOnce | kernel/mm/heap/memlib.c:24-32 | an increment above the int range that is granted as a small one, on the heap that initKernelHeap leaves |
| KernelHeap.GrantedExactly | kernel/mm/heap/memlib.c:24-32 | what mem_sbrk grants is what was asked for if and only if the increment fits an int, or what arrives of it is refused |
| KernelHeap.BlockWordsFit | kernel/mm/heap/heap.c:122-126 | a request that does not wrap gets an even number of words, at least 8, with room for it and its two tags, in sizes that fit an int |
| KernelHeap.BlockWordsLeast | kernel/mm/heap/heap.c:122-126 | a request that does not wrap gets the smallest even number of words, 8 or more, that has room for it and its two tags: 64 bytes, or at most 31 more than the size |
| KernelHeap.KernelHeap.constructor | kernel/mm/heap/heap.c:97-114 | initKernelHeap leaves a valid heap with no live block and the break at word 40: one free block of 36 words from word 3 on, which is the empty heap extended once |
| KernelHeap.KernelHeap.SetTags | kernel/mm/heap/heap.c:81-85 | header and footer get the same tag and nothing else changes |
| KernelHeap.KernelHeap.MarkFree | kernel/mm/heap/heap.c:91-95 | both tags are written as free and the two link words are cleared |
| KernelHeap.KernelHeap.Unlink | kernel/libc/kernel/list.c:207-211 | the block leaves its list and no other element does; all else of the heap stays in order |
| KernelHeap.KernelHeap.Append | kernel/libc/kernel/list.c:169-171 | the block joins the end of the list of its size; all else of the heap stays in order |
| KernelHeap.KernelHeap.Coalesce | kernel/mm/heap/heap.c:327-361 | on each of the four paths the free block becomes the one free block of its whole run, the blocks of the run leave their lists and it joins the one of its new size, and live payloads are untouched |
| KernelHeap.KernelHeap.Kfree | kernel/mm/heap/heap.c:147-157 | the block becomes free, is listed and merged with its free neighbours, exactly as the function of blocks and lists has it; every other live payload is untouched; NULL changes nothing |
| KernelHeap.KernelHeap.Place | kernel/mm/heap/heap.c:289-304 | the block becomes used with the size asked for, and the rest, if it can be a block, becomes a free one on its list |
| KernelHeap.KernelHeap.FindFit | kernel/mm/heap/heap.c:306-325 | the block returned is the first large enough among the first 13 of the request's own list, or else the first of the next list that is not empty; none is returned if and only if all higher lists are empty and those 13 are too small |
| KernelHeap.KernelHeap.MemSbrk | kernel/mm/heap/memlib.c:24-32 | the break moves by the increment, or nothing changes where it would pass the limit or the increment is negative |
| KernelHeap.KernelHeap.ExtendHeap | kernel/mm/heap/heap.c:274-287 | the heap grows by one free block, listed and merged with a free last block, or is unchanged where the limit is reached |
| KernelHeap.KernelHeap.Kmalloc | kernel/mm/heap/heap.c:116-140 | NULL exactly if the size is 0 or wraps, or nothing fits and the heap cannot grow, and then nothing changes; else a payload of at least the size in a block that was not live and is at most 7 words larger than the smallest that would do; blocks, lists, break and address are a function of what they were; all live contents unchanged |
| KernelHeap.KernelHeap.MallocThenFree | kernel/mm/heap/heap.c:116-157 | kmalloc followed by kfree leaves the block layout as it was, or extended by one free block, merged |
| KernelHeap.KernelHeap.Shrink | kernel/mm/heap/heap.c:191-199 | the block keeps its place and bytes with the smaller size, and the rest is listed and merged |
| KernelHeap.KernelHeap.GrowRight | kernel/mm/heap/heap.c:201-214 | the block grows in place over its right neighbour with its bytes unchanged |
| KernelHeap.KernelHeap.SlideBoth | kernel/mm/heap/heap.c:217-237 | the block moves down over its left neighbour and takes in the right one, with its bytes moved along |
| KernelHeap.KernelHeap.SlideLeft | kernel/mm/heap/heap.c:238-254 | the block moves down over its left neighbour, with its bytes moved along |
| KernelHeap.KernelHeap.Relocate | kernel/mm/heap/heap.c:257-271 | a new block gets the kept bytes and the old one is freed; it fails exactly where kmalloc is refused, and then nothing changes |
| KernelHeap.KernelHeap.Krealloc | kernel/mm/heap/heap.c:159-272 | on every path the first min(old payload, size) bytes are kept and all other live payloads are unchanged; a block that neither keeps its size nor shrinks stays, at the start of the run with its free neighbours, with the size asked for and the break unmoved, if and only if a neighbour is free and the run has 8 words more than that; blocks, lists, break and result, NULL included, are a function of what they were; failure leaves the old block live |
| KernelHeap.KernelHeap.Poke | kernel/mm/heap/heap.c:116-140 | a store into a live payload changes that byte and keeps the heap valid |
| HeapClient.Client.Do | kernel/mm/heap/heap.c:116-272 | one request on the heap is one step of a table of independent byte strings; pointers, blocks, lists and break, and with them success, are functions of what they were |
| HeapClient.Client.Run | kernel/mm/heap/heap.c:116-272 | every run of kmalloc, kfree, krealloc and stores is a run of that table, each moment following from the one before: strings of the length asked for, unchanged but by their owner, resized by a common prefix, refused only where the heap of that moment refuses |
| HeapClient.RunsAlike | kernel/mm/heap/heap.c:116-272 | two runs of the same requests from the same start serve and refuse the same ones, at the same addresses |
| Buddy.CountersWeighCovers | kernel/mm/pmm/pmm.c:133-136 | the counters, each weighed by the size of its blocks, add up to the number of free pages |
| Buddy.MergedPartition | kernel/mm/pmm/pmm.c:203-210 | merging two free buddies keeps every page marked at most once and changes no page's being free |
| Buddy.CarvedPages | kernel/mm/pmm/pmm.c:139-157 | pmmPropagateDown leaves the first n pages of a block allocated and covers exactly the rest by one clear bit each |
| Buddy.CarvedSiblings | kernel/mm/pmm/pmm.c:139-157 | among the blocks that pmmPropagateDown marks no two buddies are both free |
| Buddy.CarvedTooMany | kernel/mm/pmm/pmm.c:139-157 | carving a request that exceeds the block marks nothing free |
| Buddy.TakenPages | kernel/mm/pmm/pmm.c:178-192 | pmalloc takes exactly the first n pages of the block found, which were free |
| Buddy.TakenPartition | kernel/mm/pmm/pmm.c:178-192 | after pmalloc no page is marked twice |
| Buddy.ParentIsSet | kernel/mm/pmm/pmm.c:183-189 | the parent of a free block is never marked free, so that branch of pmalloc is never taken |
| Buddy.CoalescedPages | kernel/mm/pmm/pmm.c:200-233 | coalesce never changes which pages are free, whatever it merges or leaves; what it merges is in BuddyMerge.PfreeMergesExactly |
| Buddy.FreedAll | kernel/mm/pmm/pmm.c:235-249 | pfree frees exactly its pages |
| BuddyMerge.MergedIsCanonical | kernel/mm/pmm/pmm.c:101-131 | a state without two free buddies is the canonical form of its free pages |
| BuddyMerge.CanonicalIsMerged | kernel/mm/pmm/pmm.c:101-131 | the canonical form that initPMM builds has no two free buddies |
| BuddyMerge.PfreeMergesAll | kernel/mm/pmm/pmm.c:200-249 | where the halved counts reach, pfree keeps a state without two free buddies so |
| BuddyMerge.PfreeLeavesBuddies | kernel/mm/pmm/pmm.c:200-249 | where they do not, from page 1 on, there is such a state in which pfree leaves two free buddies unmerged |
| BuddyMerge.PfreeMergesExactly | kernel/mm/pmm/pmm.c:200-249 | for all pages i to i + n - 1, pfree keeps every fully merged state so if and only if the halved counts reach or it does nothing, for page 0 or no pages |
| BuddyMerge.PageThreeAlone | kernel/mm/pmm/pmm.c:200-249 | freeing page 3 beside free pages 0 to 2 leaves two free buddies of two pages each |
| BuddyMerge.FewPagesDoNotReach | kernel/mm/pmm/pmm.c:200-233 | fewer than 32 pages never reach |
| BuddyMerge.FewPagesMakeNoBlock | kernel/mm/pmm/pmm.c:200-249 | pfree of fewer than 32 pages never makes a block of the top level free |
| BuddyMerge.HalfBlocksReach | kernel/mm/pmm/pmm.c:200-233 | multiples of 32 pages from the start of a block of 64 reach |
| BuddyMerge.ReachingIsDelicate | kernel/mm/pmm/pmm.c:200-233 | 64 pages from page 32 on do not reach, 96 do, and so do 63 from page 1 on |
| BuddyMerge.PmallocKeepsMerged | kernel/mm/pmm/pmm.c:159-198 | pmalloc keeps a state without two free buddies so |
| Buddy.CanonicalCover | kernel/mm/pmm/pmm.c:101-131 | in the canonical form a block is covered exactly if it is usable as a whole |
| Buddy.RowsAreCanonical | kernel/mm/pmm/pmm.c:108-131 | the rows that the two passes build and prune are the canonical form |
| BitStore.ByteWithBit | kernel/mm/pmm/pmm.c:20-39 | setting or clearing a bit of a byte changes that bit and no other |
| BitStore.StoreBit | kernel/mm/pmm/pmm.c:20-39 | a bit written in the bytes of one bitmap changes that bit of that level and no other bit of any level |
| PageLevel.TopBit | kernel/mm/pmm/pmm.c:164-167 | the loop leaves the highest bit of its number |
| PageLevel.LevelFor | kernel/mm/pmm/pmm.c:164-176 | the bit trick gives ceil(log2 n) for n up to 64, refuses n above 64 up to 2^63, and takes larger n for level 0 |
| Pmm.RefusedExactly | kernel/mm/pmm/pmm.c:159-180 | the search from the level of the bit trick on finds nothing exactly where no block large enough is free |
| Pmm.OddSize | kernel/mm/pmm/pmm.c:73-78 | the parents of a bitmap's bits lie in the bitmap above if and only if its size is even; else those of its last byte are looked up at the start of the bitmap two levels up, and for level 5 behind all bitmaps |
| Pmm.ParentsInsideExactly | kernel/mm/pmm/pmm.c:122-131 | initPMM looks up every parent where it is if and only if the first bitmap has a multiple of 64 bytes |
| Pmm.LostPage | kernel/mm/pmm/pmm.c:124-131 | in a first bitmap of odd size a page of the last byte is marked used if and only if four certain pages at the start are usable, and no block of two covers it |
| Pmm.LastPagesLost | kernel/mm/pmm/pmm.c:124-131 | of 40 usable pages the last eight are lost |
| Pmm.Pmm.constructor | kernel/mm/pmm/pmm.c:101-136 | initPMM leaves the canonical buddy form of the usable pages, counters equal to the clear bits, and free_mem the bytes of the usable pages |
| Pmm.Pmm.FreeBytes | kernel/mm/pmm/pmm.c:133-136 | the last loop adds up the bytes the counters stand for |
| Pmm.Pmm.GetFreeMem | kernel/mm/pmm/pmm.c:53-53 | free_mem is the page size times the number of free pages, at all times |
| Pmm.Pmm.PropagateDown | kernel/mm/pmm/pmm.c:139-157 | the recursion carves the block and the counters grow by the pages left over |
| Pmm.Pmm.Search | kernel/mm/pmm/pmm.c:178-180 | the loops find the first free block of the lowest sufficient level, or there is none |
| Pmm.Pmm.Pmalloc | kernel/mm/pmm/pmm.c:159-198 | for every 64-bit request: refused if and only if it is 0, above 64 and at most 2^63, or no block large enough is free, and then nothing changes; else the first free block of the lowest sufficient level gives its first n pages and no other page changes; above 2^63 it gives a whole block and free_mem wraps |
| Pmm.Pmm.MergeLevel | kernel/mm/pmm/pmm.c:202-211 | one level of coalesce merges the free pairs of its range and keeps the counters' weight |
| Pmm.Pmm.Coalesce | kernel/mm/pmm/pmm.c:200-233 | coalesce merges level by level with half as many pages each, and keeps the counters' weight |
| Pmm.Pmm.Pfree | kernel/mm/pmm/pmm.c:235-249 | exactly its pages become free, and free_mem grows by their bytes |
| PagePool.TookFromSet | kernel/mm/pmm/pmm.c:159-198 | taking pages from the bitmaps takes them out of the set of free pages |
| PagePool.GaveToSet | kernel/mm/pmm/pmm.c:235-249 | giving pages back puts them into the set, in which they were not |
| PagePool.TopRefused | kernel/mm/pmm/pmm.c:159-180 | pmalloc of 64 pages is refused if and only if no top block is free |
| PagePool.PagePool.constructor | kernel/mm/pmm/pmm.c:101-136 | the free set of a new allocator is the set of usable pages |
| PagePool.PagePool.Take | kernel/mm/pmm/pmm.c:159-198 | pmalloc takes a run of n pages out of the set, or leaves the set as it is, the latter exactly where the bitmaps refuse, 0 and more than 64 pages among that; for 64 pages exactly where no top block is free, and it uses up one; a fully merged state stays so |
| PagePool.PagePool.Give | kernel/mm/pmm/pmm.c:235-249 | pfree of any pages that are not free puts just them into the set; fewer than 32 pages make no top block free; a fully merged state stays so where the pages reach |
| StableOrder.StableUnique | kernel/libc/kernel/list.c:322-325 | at most one arrangement of different elements is both ordered and stable |
| StableOrder.InsertedOrdered | kernel/libc/kernel/list.c:353-364 | ordered insertion keeps an ordered list ordered |
| StableOrder.InsertedRearranged | kernel/libc/kernel/list.c:353-364 | ordered insertion puts an element behind all its equals |
| StableOrder.SortedByInsertionSorts | kernel/libc/kernel/list.c:353-364 | inserting elements one by one builds the ordered, stable arrangement |
| StableOrder.HopRearranges | kernel/libc/kernel/list.c:316-319 | a node that jumps over nodes it is less than inverts no pair that the order does not ask to invert |
| StableOrder.MergeKeep | kernel/libc/kernel/list.c:314-315 | stepping over the head of the first run keeps the state of the merge |
| StableOrder.MergeHop | kernel/libc/kernel/list.c:316-319 | moving the head of the second run keeps the state of the merge and is stable |
| StableOrder.MergeEnd | kernel/libc/kernel/list.c:313-313 | when either run is used up the whole stretch is ordered |
| StableOrder.RunEnd | kernel/libc/kernel/list.c:296-303 | a run ends before the first element less than its predecessor, and has none inside |
| StableOrder.FirstRun | kernel/libc/kernel/list.c:296-303 | find_end_of_run takes exactly one natural run off |
| StableOrder.RunOrdered | kernel/libc/kernel/list.c:291-295 | a natural run is ordered |
| StableOrder.StretchAdded | kernel/libc/kernel/list.c:336-349 | a merged stretch adds at most one run to those output before it |
| StableOrder.OneRunOrdered | kernel/libc/kernel/list.c:328-350 | a list of one run is ordered |
| StableOrder.WorkLogarithmic | kernel/libc/kernel/list.c:322-324 | the bound on comparisons is at most 2n(1 + log2 r) for n elements in r runs |
| StableOrder.UniqueConserves | kernel/libc/kernel/list.c:370-386 | the elements kept and dropped are together the elements there were |
| StableOrder.KeptIsFirsts | kernel/libc/kernel/list.c:366-369 | exactly the first of every group of adjacent equals is kept; the rest is dropped, in order |
| StableOrder.KeptAfterDiffers | kernel/libc/kernel/list.c:370-386 | no two neighbours of what is kept are equal |
| StableOrder.KeptAfterIncreases | kernel/libc/kernel/list.c:370-386 | of an ordered list strictly increasing elements are kept |
| IntrusiveList.Insert | kernel/libc/kernel/list.c:131-139 | the node comes to stand just before the given one, all links consistent both ways |
| IntrusiveList.Remove | kernel/libc/kernel/list.c:207-211 | the node leaves the list, all links consistent, and its follower is returned |
| IntrusiveList.Splice | kernel/libc/kernel/list.c:141-159 | a range leaves its list and comes to stand before a node of the same or another list; both lists are consistent |
| IntrusiveList.List.constructor | kernel/libc/kernel/list.c:53-58 | list_init leaves an empty, consistent list |
| IntrusiveList.List.PushBack | kernel/libc/kernel/list.c:169-171 | the node is the new last one |
| IntrusiveList.List.PushFront | kernel/libc/kernel/list.c:163-165 | the node is the new first one |
| IntrusiveList.List.PopFront | kernel/libc/kernel/list.c:215-219 | the first node is taken off and the rest stays |
| IntrusiveList.List.Reverse | kernel/libc/kernel/list.c:265-274 | swapping links alone leaves the nodes in reverse order, all links consistent |
| IntrusiveList.List.FindEndOfRun | kernel/libc/kernel/list.c:296-303 | the node returned ends the natural run, with at most one comparison for each of its nodes |
| IntrusiveList.List.InPlaceMerge | kernel/libc/kernel/list.c:310-320 | two adjacent ordered stretches become one, stably, with the rest of the list untouched and at most one comparison for each node |
| IntrusiveList.List.Pass | kernel/libc/kernel/list.c:330-350 | a pass over r natural runs outputs exactly ceil(r/2) and leaves no more runs than that |
| IntrusiveList.List.Sort | kernel/libc/kernel/list.c:322-351 | for every strict weak order the sort ends with the ordered, stable arrangement of the same nodes, links consistent, which is what ordered insertion builds; comparisons are bounded by the number of nodes and runs |
| IntrusiveList.SortingStep | kernel/libc/kernel/list.c:330-350 | every pass but the last leaves fewer runs, and its comparisons are within the bound |
| IntrusiveList.List.FindSlot | kernel/libc/kernel/list.c:360-362 | the search ends at the first node the new one is less than, or at the tail |
| IntrusiveList.List.InsertOrdered | kernel/libc/kernel/list.c:353-364 | the node is inserted there, and an ordered list stays ordered |
| IntrusiveList.List.Unique | kernel/libc/kernel/list.c:366-386 | the list keeps the first of each group of adjacent equals and the others go, in order, to the end of the duplicates if a list is given; both lists stay consistent |
| PageTree.LinkKeeps | kernel/mm/paging/paging.c:127-130 | linking an empty table keeps the tables a tree and changes no translation |
| PageTree.LinkExtends | kernel/mm/paging/paging.c:127-150 | storing a new table with the given flags in an empty entry leaves every other upper entry the same word, and the new table is led to by an entry with just these flags |
| PageTree.ExtendsMore | kernel/mm/paging/paging.c:161-174 | page after page: no upper entry that was in use changes, and every table new since the start is led to by an entry with the flags of the call |
| PageTree.SetLeafKeeps | kernel/mm/paging/paging.c:155-157 | setting the last-level entry of a page changes the translation of that page and of no other |
| PageTree.UnlinkKeeps | kernel/mm/paging/paging.c:95-102 | unlinking an empty table keeps the tables a tree and changes no translation |
| PageTree.SameWay | kernel/mm/paging/paging.c:122-153 | two pages that share a table share all indices above it |
| PageTree.NoIdleTable | kernel/mm/paging/paging.c:219-241 | where no table is empty, every table but the root leads to a mapped page |
| PageTree.TightIsSnug | kernel/mm/paging/paging.c:219-241 | where no table is empty, a table of a level is there for a way if and only if a page on that way is mapped |
| PageTree.SnugIsTight | kernel/mm/paging/paging.c:219-241 | and conversely |
| PageTree.UnclearedExactly | kernel/mm/paging/paging.c:49-56 | at every level, clearing word 0 alone and linking the frame keeps the tables a tree and every translation if and only if the frame read as zero from word 1 on |
| PageTree.UnclearedLeaf | kernel/mm/paging/paging.c:147-150 | a last-level table with a word left over changes a translation |
| PageTree.UnclearedUpper | kernel/mm/paging/paging.c:127-140 | an upper table with a word left over is no table of the tree |
| PageTree.StaleFrameLeaks | kernel/mm/paging/paging.c:49-56 | a frame with a word left over maps a page that nobody mapped |
| PageFormat.NumberOf | kernel/mm/paging/paging.h:175-178 | the four indices of an address are the digits of the low 36 bits of its page number in base 512 |
| PageFormat.NumberAt | kernel/mm/paging/paging.c:164-165 | consecutive addresses lie in consecutive pages, around the end of the address space |
| PageFormat.PagesDiffer | kernel/mm/paging/paging.c:164-165 | fewer than 2^36 consecutive pages are all different |
| PageFormat.StoredReadsBack | kernel/mm/paging/paging.c:60-64 | frame and flags of a stored entry are read back by the masks of the walks |
| PageFormat.StoredFrame | kernel/mm/paging/paging.c:60-70 | a stored entry names the frame of the address where that has all address bits of the flags |
| PageFormat.StoredFrameOnly | kernel/mm/paging/paging.c:60-70 | and only there |
| PageFormat.AddressBitsMove | kernel/mm/paging/paging.c:60-70 | flags with the bit 0x1000 turn frame 2 into frame 3 |
| PageFormat.PartsDetermineWord | kernel/mm/paging/paging.c:78-82 | an entry is determined by its frame and its other bits, so only the word 0 has both 0 |
| PageFormat.ReflaggedParts | kernel/mm/paging/paging.c:363-363 | the mask of vflags keeps the frame, and masks and joins the flags |
| PageFormat.ReflaggedFrame | kernel/mm/paging/paging.c:363-363 | vflags keeps the frame of an entry where that has all address bits of the flags |
| PageFormat.ReflaggedFrameOnly | kernel/mm/paging/paging.c:363-363 | and only there |
| PageFormat.ReflaggedPresent | kernel/mm/paging/paging.c:363-363 | whether an entry is present after vflags depends on the new flags alone, and doing it twice is as once |
| PageFormat.FlagsAsAsked | kernel/mm/paging/paging.c:363-363 | the flags come out as asked for where they include all the flags that the mask keeps |
| PageFormat.FlagsAsAskedOnly | kernel/mm/paging/paging.c:363-363 | and only there |
| PageFormat.ExecuteDisableStays | kernel/mm/paging/paging.c:363-363 | vflags cannot clear execute-disable |
| Paging.AddressSpace.constructor | kernel/mm/paging/paging.c:34-36 | an address space starts with the tables found and a used-up batch |
| Paging.AddressSpace.PmallocBulk | kernel/mm/paging/paging.c:38-47 | a frame comes from the allocator or the batch and is no longer in either; none comes if and only if the batch is used up and no block of 64 is free; slot 63 of a batch is never handed out |
| Paging.AddressSpace.PmallocBulkNull | kernel/mm/paging/paging.c:38-47 | where no frame is to be had the source hands out frame 0 and takes 1 to 62 for its batch, whoever has them |
| Paging.AddressSpace.BindNull | kernel/mm/paging/paging.c:155-157 | and the page is then bound to frame 0 |
| Paging.AddressSpace.AllocTable | kernel/mm/paging/paging.c:49-56 | a frame in nobody's hands that reads as zero, where unused frames did; none if and only if no frame is to be had |
| Paging.AddressSpace.Descend | kernel/mm/paging/paging.c:125-133 | the table of the next level for a page, linked anew if missing, with no translation changed; it fails if and only if the table is missing and no frame is to be had; every upper entry that was in use is the same word as before, and a new table is led to by an entry with the flags of the caller |
| Paging.AddressSpace.VmallocHelper | kernel/mm/paging/paging.c:122-159 | the page is bound to a fresh frame and no other translation changes; it fails if and only if there are fewer frames than the missing tables and one; upper entries in use stay the same words, and every new table is led to by an entry with the flags of the caller |
| Paging.AddressSpace.Vmalloc | kernel/mm/paging/paging.c:161-174 | each page of the range is bound to a fresh frame, all different, and no translation outside the range changes; it gets stuck if and only if the frames to be had are fewer than the pages and the tables they lack, and else uses up exactly that many; stuck, it has bound as many pages as there were frames for; the new tables are those on the ways of the range; no table is left empty; the loop ends early only after binding address 0; the lock is given back; upper entries in use stay the same words, and every new table is led to by an entry with the flags of the caller |
| Paging.NeedAtMost | kernel/mm/paging/paging.c:122-159 | mapping n pages takes at most 4n frames, and 3n where the pages' own are given |
| Paging.NeedMore | kernel/mm/paging/paging.c:122-159 | a longer range takes no fewer frames |
| Paging.MissingIsNew | kernel/mm/paging/paging.c:122-153 | what the i-th page still lacks is what it lacked at the start and no earlier page of the range led to |
| Paging.AddressSpace.WriteFrame | kernel/mm/paging/paging.c:155-157 | a store into a page that vmalloc bound changes no translation, no table and no other frame |
| Paging.AddressSpace.RemoveEntry | kernel/mm/paging/paging.c:74-103 | an entry that is present and below mem_size is cleared and its frame or table given back; any other is left alone |
| Paging.AddressSpace.VfreeHelper | kernel/mm/paging/paging.c:190-242 | the page is unmapped if its frame is below mem_size, no other translation changes, and the frames given back are that frame and the tables that are now empty; unused frames still read as zero if that one did |
| Paging.AddressSpace.Vfree | kernel/mm/paging/paging.c:244-252 | each page of the range whose frame is below mem_size is unmapped and no other; the free frames grow by exactly the pages' frames and the tables reclaimed, each once; a table is reclaimed if and only if it is empty; unused frames still read as zero if those given back did; the frames that vmalloc can have are as many as before |
| Paging.AddressSpace.BoundIsFreeable | kernel/mm/paging/paging.c:161-252 | what vmalloc has bound meets what pfree demands, and vfree gives back just its frames |
| Paging.AddressSpace.UnboundUndoesBound | kernel/mm/paging/paging.c:161-252 | mapping unmapped pages and unmapping them restores every translation |
| Paging.AddressSpace.Videntity | kernel/mm/paging/paging.c:302-316 | the pages of the range are bound to consecutive given frames and no other translation changes; it gets stuck if and only if the frames to be had are fewer than the tables that are missing, and else uses up exactly that many; it keeps the lock if and only if the range meets address 0; upper entries in use stay the same words, and every new table is led to by an entry with the flags of the caller |
| Paging.NoneZeroIs | kernel/mm/paging/paging.c:302-312 | the early end is met if and only if some page of the range begins at address 0 |
| Paging.IdentityAtZero | kernel/mm/paging/paging.c:302-312 | every range from address 0 on meets it |
| Paging.AddressSpace.VidentityHelper | kernel/mm/paging/paging.c:263-300 | the page is bound to the given frame and no other translation changes; it fails if and only if there are fewer frames than missing tables; upper entries in use stay the same words, and every new table is led to by an entry with the flags of the caller |
| Paging.AddressSpace.VflagsHelper | kernel/mm/paging/paging.c:334-364 | the entry of a page that has a last-level table gets its new flags, and no other translation changes |
| Paging.AddressSpace.Vflags | kernel/mm/paging/paging.c:366-374 | exactly the pages of the range that have a last-level table get new flags; tables stay |
| Paging.VflagsKeepsFrames | kernel/mm/paging/paging.c:334-374 | no translation changes its frame |
| Paging.VflagsExactly | kernel/mm/paging/paging.c:334-374 | no page becomes mapped if and only if the flags lack the present bit or every page of the range with a last-level table is present |
| Paging.VflagsMapsZero | kernel/mm/paging/paging.c:334-374 | an unmapped page with a last-level table comes to be mapped to frame 0 |
| PagingClient.Client.Do | kernel/mm/paging/paging.c:161-252 | one request to map, store or unmap is one step of a table of pages; a range is mapped in part only for want of frames; what is mapped, the tables and the frames left follow from what they were |
| PagingClient.Client.Run | kernel/mm/paging/paging.c:161-252 | every run of such requests is a run of that table, each moment following from the one before: pages that do not touch each other, new ones zero from word 1 on, every translation beside them unchanged |
| PagingClient.StepSpends | kernel/mm/paging/paging.c:161-252 | a step uses up a frame for each page it maps, at least, and none brings one back |
| PagingClient.RunSpends | kernel/mm/paging/paging.c:161-252 | over every run the pages mapped, counted again where mapped again, are at most the frames that could be had at its start |
| PagingClient.RunsAlike | kernel/mm/paging/paging.c:161-252 | two runs of the same requests from the same start, in which tables are there for mapped pages, map the same pages at every step and have the same number of frames left |
| Scheduling.Least | kernel/threads/thread.c:44-62 | the first thread of least runtime, if any runtime is below the largest value |
| Scheduling.OneRunsKept | kernel/threads/thread.c:252-268 | charging, switching and creating keep exactly the current thread marked as running |
| Scheduling.SwitchedStates | kernel/threads/thread.c:252-268 | after a switch the thread of least runtime is running, the one that gave way is ready, and no other state and no runtime has changed |
| Scheduling.SelectKeepsExactly | kernel/threads/thread.c:231-241 | selecting keeps one thread running if and only if none was or it is the same |
| Scheduling.AlwaysOneRuns | kernel/threads/thread.c:92-145 | over every run of timer interrupts and new threads after the first selection, exactly the current thread is running |
| Scheduling.RunSpread | kernel/threads/thread.c:92-145 | over every run of interrupts and creations, runtimes differ by no more than d, if they did at the start, no thread is charged past d ahead of the least runtime and none is created where a runtime exceeds d |
| Scheduling.SpreadBounded | kernel/threads/thread.c:92-145 | over every run of interrupts of user code, runtimes differ by no more than the larger of their initial spread and one tick, the tick counted from the largest runtime at which a thread was created |
| Scheduling.ChargedSpread | kernel/threads/thread.c:92-97 | a charge to the least of two or more runtimes keeps their spread if and only if the counter does not wrap |
| Scheduling.CreatedAsIntended | kernel/threads/thread.c:130-133 | the 0 of a new thread is the runtime looked up if and only if there is none to find or one is 0 |
| Scheduling.CreatedSpread | kernel/threads/thread.c:130-133 | a creation keeps the spread of runtimes within d if and only if no runtime exceeds d |
| Scheduling.CreatedBehind | kernel/threads/thread.c:130-133 | with threads at 70 and 75 a new one starts at 0 and not at 70 |
| Scheduling.EveryThreadRuns | kernel/threads/thread.c:44-145 | over every run with creations, every ready thread becomes current within as many selections as the runtimes of the others leave before it, and as many as each new thread, at 0, has |
| Scheduling.TurnsIs | kernel/threads/thread.c:92-97 | a thread at runtime a can be selected (b - a)/T + 1 times before it passes runtime b |
| Scheduling.Scheduler.GetThreadWithMinRuntime | kernel/threads/thread.c:44-62 | the loop finds the first thread of least runtime |
| Scheduling.Scheduler.ThreadNext | kernel/threads/thread.c:252-268 | the current thread becomes ready and the one of least runtime current and running; it faults on a NULL if and only if there is no current thread or none to find |
| Scheduling.Scheduler.ThreadSelect | kernel/threads/thread.c:231-241 | the thread becomes current and running; NULL changes nothing |
| Scheduling.Scheduler.TimerHandler | kernel/threads/thread.c:92-101 | the current thread is charged one tick, modulo 2^64, and switched if user code was interrupted; the fault of threadNext is the only one |
| Scheduling.Scheduler.ThreadCreate | kernel/threads/thread.c:118-145 | a new thread with the next id and runtime 0 is last on the ready list; that is the runtime looked up if and only if there is none to find or one is 0 |
| InputRing.FullExactly | kernel/device/input/iqueue.c:16-18 | the tests for full and empty say that 31 bytes, or none, are waiting |
| InputRing.ProducerKeeps | kernel/device/input/iqueue.c:32-41 | every step of the handler keeps the invariant: it stores in a slot that is not to be read |
| InputRing.ConsumerKeeps | kernel/device/input/iqueue.c:20-30 | every step of a reader keeps the invariant, and at most one reader holds the lock |
| InputRing.HolderAlone | kernel/threads/spinlock.h:28-45 | while one reader holds the spin lock no other does |
| InputRing.Always | kernel/device/input/iqueue.c:4-41 | the invariant holds after every interleaving of steps |
| InputRing.RingDelivers | kernel/device/input/iqueue.c:4-41 | after every interleaving the bytes returned are the first bytes accepted, in order, at most 31 are waiting, all of them in the buffer, and the handler never gives the lock away to wait; that bytes are accepted and handed out is InputRing.KeyAccepted and InputRing.ReaderServed |
| InputRing.KeyAccepted | kernel/device/input/iqueue.c:16-41 | after every run, a key that meets a handler at rest is accepted as the next byte once the handler has taken its four steps, under any interleaving with readers, if and only if fewer than 31 bytes are waiting when it arrives; otherwise nothing changes |
| InputRing.ReaderServed | kernel/device/input/iqueue.c:20-30 | after every run, a reader that has the lock while a byte is waiting gets the oldest one by three steps of its own, under any interleaving; with none waiting it goes to give the lock back |
| InputRing.LockTaken | kernel/threads/spinlock.h:28-45 | after every run, a reader takes the lock if and only if no reader has it, and gives it back with its byte or to wait |
| Printf.WidthLaw | kernel/libc/stdio.c:423-442 | the output is as long as the field or its content, whichever is longer, if and only if not both ZERO and MINUS are set or nothing is padded |
| Printf.PaddedTwice | kernel/libc/stdio.c:306-309 | a conversion with both set, padded twice |
| Printf.DigitsFit | kernel/libc/stdio.c:399-410 | the digits and commas of every 64-bit value take at most 44 characters |
| Printf.BodyFits | kernel/libc/stdio.c:374-421 | the 64 characters of the buffer are enough for every value, base, flag and precision |
| Printf.DigitsReadBack | kernel/libc/stdio.c:399-410 | the digits in the buffer, read backwards without commas, mean the value |
| Printf.BodyReadsBack | kernel/libc/stdio.c:399-421 | with precision zeros and the octal zero they still mean the value |
| Printf.RenderedReadsBack | kernel/libc/stdio.c:370-443 | for every value, sign, base, flag set, width and precision, the whole output, with blanks, sign, prefix and commas taken off by an independent reader, means the number |
| Printf.Sink.Emit | kernel/libc/stdio.c:42-48 | a character is counted, and stored while there is room |
| Printf.Sink.EmitTimes | kernel/libc/stdio.c:445-450 | the character is put out so many times |
| Printf.Sink.Finish | kernel/libc/stdio.c:17-40 | whatever was put out, the buffer holds its first size - 1 characters and a NUL, nothing else of the buffer is touched, and the full length is returned |
| Printf.FormatInteger | kernel/libc/stdio.c:370-443 | the output is padding, sign, prefix, zeros and digits as the flags order them, and no access is outside the buffer |
| Printf.ParseConversion | kernel/libc/stdio.c:274-361 | flags, width, precision and length modifier as parsed, with their precedence, and the exact place in the format and number of arguments at which parsing ends; KprintfText.ConversionRead and KprintfText.PieceBehind say the same of the text of a conversion |
| Printf.ZeroAndMinus | kernel/libc/stdio.c:291-328 | ZERO and MINUS come out together if and only if there is a 0 flag, no - flag, no precision, and a negative `*` width |
| Kprintf.PaddedFills | kernel/libc/stdio.c:455-465 | a string fills its field whatever the flags, at the end that MINUS says, and stays together |
| Kprintf.FormatString | kernel/libc/stdio.c:455-465 | the text padded to the width is put out |
| Kprintf.ConvertedReadsBack | kernel/libc/stdio.c:164-222 | an integer conversion, read back by the independent reader, means its argument cut to its length modifier, with its sign; KprintfText.IntegerReadsBack is this on the text of a format |
| Kprintf.PlainOutput | kernel/libc/stdio.c:143-150 | a format without conversions is put out as it stands |
| Kprintf.Vkprintf | kernel/libc/stdio.c:141-268 | the walk puts out the pieces of the format in order, each with the arguments the ones before it left, over the memory from the format on; what each piece is, KprintfText.OutputSaid and KprintfText.OtherPieces say |
| Kprintf.WalkEndIs | kernel/libc/stdio.c:143-160 | the walk over a format stops at its NUL if and only if no conversion is cut off, and one further otherwise |
| Kprintf.WalkPastEnd | kernel/libc/stdio.c:143-160 | behind a conversion that is cut off, what lies behind the NUL is put out as the rest of the format |
| Kprintf.OutputOfFormatAlone | kernel/libc/stdio.c:143-160 | the output is that of the format whatever lies behind it if and only if no conversion is cut off |
| Kprintf.LonePercent | kernel/libc/stdio.c:143-160 | a lone percent sign is cut off |
| Kprintf.BeforeNulIs | kernel/libc/stdio.c:230-240 | of a string argument the characters before its first NUL count |
| Kprintf.Vsnkprintf | kernel/libc/stdio.c:24-48 | for every memory from the format on and all arguments the buffer holds the first size - 1 characters of the output and a NUL, nothing else of it is touched, and the length of the whole output is returned |
| KprintfText.DigitsGrouped | kernel/libc/stdio.c:399-410 | the digits produced lowest first, with the flag for groups, are the numeral written highest digit first with a comma after every three digits, four in base 16, counted from its end |
| KprintfText.DigitsWritten | kernel/libc/stdio.c:399-410 | without that flag they are the numeral, highest digit first |
| KprintfText.RenderedIs | kernel/libc/stdio.c:370-443 | an integer comes out as the C standard lays it out: when there is a sign, a prefix 0x or 0X, precision zeros, the octal zero and commas, where blanks and where zeros fill the field |
| KprintfText.ConversionRead | kernel/libc/stdio.c:274-328 | wherever the text of a conversion stands in a format, the conversion parsed has the flags, width and precision that the text says, `*` included |
| KprintfText.LengthRead | kernel/libc/stdio.c:330-358 | hh leaves 8 bits of an argument, h 16, no length 32, and l, ll, j, t and z 64, and each is stepped over |
| KprintfText.PieceSaid | kernel/libc/stdio.c:141-268 | the walk puts out for a conversion what its text asks for: an integer in base 8 for o, 10 for d, i and u, 16 for x and X, a character, a string cut to its precision, a pointer, or an apology |
| KprintfText.PieceBehind | kernel/libc/stdio.c:141-268 | the walk goes on behind the text of a conversion, with one argument less for each `*` and one for the conversion if it takes one |
| KprintfText.OutputSaid | kernel/libc/stdio.c:141-268 | the output from a conversion on is what its text asks for, and then the output of the rest with the arguments left |
| KprintfText.OtherPieces | kernel/libc/stdio.c:143-157 | two percent signs put out one, and any other character is put out as it is |
| KprintfText.IntegerReadsBack | kernel/libc/stdio.c:164-222 | for every flag set, width, precision and length, the output of %d, %i, %o, %u, %x and %X, read in base 10, 10, 8, 10, 16 and 16, is the argument modulo 2^8, 2^16, 2^32 or 2^64 as the length says, signed for d and i |
| KprintfText.PlainHex | kernel/libc/stdio.c:213-219 | %x and %X with any length put out the numeral in base 16, with small letters and with capitals |
| KprintfText.HexExample | kernel/libc/stdio.c:343-350 | %lx of 0x1000000FF puts out 1000000ff |

## Left out

- KernelHeap.KernelHeap.Kmalloc: sizes whose increment deceives mem_sbrk (KernelHeap.GrantedExactly) are excluded, because there the kernel formats words beyond the break; addresses are word indices from the start of the heap.
- KernelHeap.KernelHeap.Krealloc: the same exclusion, for the size and for the words that the block lacks.
- HeapClient.Client.Run: sizes are those that cannot deceive mem_sbrk whatever the break is; stores are single bytes.
- Pmm.Pmm.Pmalloc: that the result for page 0 equals NULL is stated by a separate flag; after a request above 2^63 only what that call did is described.
- Pmm.Pmm.Pfree: the caller frees pages that are allocated, as the source assumes.
- Pmm.Pmm.constructor: the bitmap size is a multiple of 64 bytes; with another one initPMM reads parents from the wrong place (Pmm.ParentsInsideExactly, Pmm.LostPage), and what it then builds is not described as a whole. Which pages are usable is an input.
- BuddyMerge.PfreeMergesExactly: how far a state is from fully merged after pages that do not reach is not measured.
- Paging.AddressSpace.constructor: the tables found, those of the boot loader included, are nonzero frames below the number of pages of the allocator; tables above mem_size, which pagingRemoveEntry would leave alone, are not covered.
- Paging.AddressSpace.Vmalloc: frames not in use read as zero from word 1 on; flags have the present bit and no address bit, as PageFormat.StoredFrame needs. Where no frame is to be had the model stops; the first step that the source goes on with is PmallocBulkNull and BindNull. For more pages than the address space has, only the translations outside the range are described.
- Paging.AddressSpace.Videntity: the same conditions, and frames of 52-bit addresses.
- Paging.AddressSpace.Vflags: flags have no address bit.
- Paging.AddressSpace.Vfree: with do_pfree the frames of the range are below the number of pages, not free, no table's, and each in one page of the range, as pfree demands.
- Paging.AddressSpace.RemoveEntry: an upper entry is removed only when its table is empty, the only way vfreeHelper calls it; the recursion over a table that is not empty is not described.
- PagingClient.Client.Run: the client maps only where nothing is mapped and wipes its pages before it unmaps them, so that unused frames stay zero; which tables there are is determined where the run starts with none that is empty.
- The second address space of a user process, shared kernel entries, huge pages, the TLB and CR3.
- Scheduling.RunSpread: for runs in which no runtime reaches 2^64 - 1; what a single wrap does is Scheduling.ChargedSpread.
- Scheduling.SpreadBounded: the same condition.
- Scheduling.EveryThreadRuns: the same condition.
- threadBlock, threadKill, threadSchedule, locks and context switches of the scheduler: a switch is a change of the current thread.
- InputRing.RingDelivers: each step is one access to shared memory in program order; the back-off of the spin lock and the halting of the processor are waiting.
- Printf.ParseConversion: widths are unbounded, where an int overflow is undefined in C.
- KprintfText.PieceSaid: the text has the form that the C standard gives a conversion, with any conversion character that cannot be part of it otherwise; for others, such as two lengths in a row, what is put out is only said in terms of the parse (Kprintf.Vkprintf).
- Kprintf.Vsnkprintf: an argument that is missing or of the wrong kind reads as 0 or NULL; memory ends in a NUL somewhere behind the format; buffer sizes and lengths fit in an int.
- kcalloc, list_min, list_max, list_size, is_sorted and the other accessors: easy.
- Drivers, boot, address spaces, ELF loading and system calls.
