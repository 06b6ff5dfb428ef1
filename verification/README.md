# A model of the Ulmix kernel, with proofs

Ulmix is a small kernel for the i686. This project models the parts of it whose correctness is not plain from
one function: the in-band linked lists of the kernel heap, the three-level page tables and their software copy,
path resolution over a cache that is filled from an ext2 disk on demand, the text console, the list of user
memory regions, the page frame counts and the conversions between numbers and strings. Code that works in place is
written in place here (bytes of memory, C strings, linked objects, arrays), each method is proved against a
function or predicate on values, and the properties are proved about those.

`dafny verify dfyconfig.toml` verifies the whole project.

## The components

**Kernel heap** (`wrappers`, `arithmetic`, `memory`, `heapheader`, `heapspec`, `heapproofs`, `heaplist`, `heapalloc`, `heap`, `heaptheorems`).
Memory is an array of bytes; a heap entry is a header of six 32-bit little-endian words inside it. `HeapSpec` says
what the allocator computes as a list of blocks; `HeapList.Linked` says that the memory holds such a list, linked
both ways; `HeapSpec.WellFormed` that the blocks tile the heap's range with no two free blocks in a row.
`HeapAlloc.HeapTiled` does not refer to the list the proof keeps: it says that some list in the memory tiles the range.

- `alloc_entry` compares `prev_size - size` with four headers without taking the alignment offset off
  (kernel/memory/kmalloc.c:46), and where it does not split it keeps the whole size though the start has moved
  (line 61). So a `kmalloc` leaves a tiled heap exactly when `SplitIsSound` holds of the block that serves it: the
  offset is zero, or the rest has room for a trailing entry. The condition reads the block's size, the offset and
  the request, and `HeapTheorems.UnsoundRequestIff` says which fresh heaps miss it for a page. This covers also the case where the trailing
  header runs into the next entry's header.
- An entry whose start was moved by 1 to 95 bytes keeps its header where it was, and `kfree`, which looks 24 bytes
  before the pointer, does not find it: `HeapTheorems.FindableIff`.
- `kfree` and `merge_entries` follow `previous`, `next` and `second->next` without NULL tests, unlike
  `link_new_entry`. `KernelHeap.Kfree` has a parameter `nullTests`: false is the code as it stands, which reaches its end
  exactly when the neighbours exist, true is the code with the tests, and both leave the same list. `HeapTheorems.LiteralRunIff`
  is about whole runs of the code as it stands.
- The first early return of `kfree` leaves the lock held; the contract says so.

**Page tables** (`pagewalk`, `paging`). `PageWalk.Walk` is the processor's PAE translation (Intel SDM volume 3A, section
4.4), defined apart from the kernel's code; `ShadowAgrees` relates the directory the processor reads to the
kernel's `page_tables`. The kernel's pointers and physical addresses are kept apart: `frame` takes one to the other.
`mk_mmap` does not clear `page_tables` and enters its pointer to the directory as it is, so a new map is in order
exactly when those 512 words happen to be zero and the directory lies at its own address. `mm_physical` splits an
address 10/10/12 where the tables are split 9/9/12; it stays inside a table exactly in the lower half of each 4 MB.
Below 2 MB it is the processor's translation in every map; in the map `setup_paging` makes it agrees with the
processor about exactly the addresses below 2 MB, and answers 2 MB for 4 MB. `get_pt_entry` puts its answer into the
directory, so a table created while a map is live is the one that `page_tables` names exactly when `mm_physical` takes
the new page to its frame: in every map below 2 MB, and in `setup_paging`'s nowhere else.

**Paths and ext2** (`ext2disk`, `dirblock`, `volume`, `pathspec`, `cstring`, `vfs`). `PathSpec.Follow` resolves a path over
the directory graph that the bytes of the disk make up, with nothing cached. `Vfs.FileSystem` keeps the tree of cached
directories; `Valid` says that every directory is unloaded or mirrors its records one by one, `IsTree` that each
directory of a tree-shaped volume has one object. `namei_recursive` is proved to give the same answer as `Follow` whatever is
cached.

- `fetch_inode` takes the sector from the inode's number within its group but the offset in the sector from its
  number within the volume (kernel/fs/ext2.c:215 and 225). It reads the right bytes exactly when the two leave
  the same remainder, which is so for every inode exactly when a group's inodes fill whole sectors.
- `namei` looks for the end of the path one byte too far (kernel/fs/vfs.c:89), so an absolute path of one
  character resolves to the root whatever that character is. `Namei` states it as it is, and
  `Vfs.ShortcutIsRightIff` says when the root is the right answer: for a slash or a dot. For "/a" it is wrong.
  The kernel's own call, `namei("/")` from `do_mount` on a root that knows no entries yet, finds the root exactly
  when the byte after the terminator is zero (`DoMount`).
- The default build is the debug configuration (makefile:2), in which `ASSERT` evaluates its argument: the call of
  `get_direntry` inside one (kernel/fs/ext2.c:338) is what gives a cached entry its type, and is modelled.

**Console** (`consolespec`, `console`, `consolelayout`). The 80 by 25 buffer shows the end of an unbounded scrollback, and that
scrollback is the text's lines broken into rows of 80 columns, with what follows a carriage return laid over the row
that stands there, defined without reference to the console.

**Regions, frames, numerals** (`intervals`, `regions`, `frames`, `digits`, `numerals`). The list of user regions, where the three
comparisons of `mm_conflicts` are overlap exactly when the requested interval is not empty; the
reference counts of page frames, which are exact over a run exactly when no `alloc_page` finds a count of 255;
the digit loops of both libraries against the positional numeral.

## Model

| member | source | states |
|---|---|---|
| Memory.StoreWord | kernel/include/heap.h:22-30 | an assignment to a 32-bit field: the word reads back, no other byte of memory changes |
| Memory.MemCpy | libc/string.c:14-23 | the destination starts with the source bytes and keeps the rest |
| HeapHeader.StoreField | kernel/include/heap.h:22-30 | assigning one field of a packed header changes that field of the six and no byte outside the header |
| HeapHeader.HeaderLayout | kernel/include/heap.h:22-30 | a header is six little-endian words one behind the other, in the struct's order |
| HeapHeader.ElsewhereKept | kernel/include/heap.h:22-30 | a header survives writes to any range that does not meet its 24 bytes |
| HeapSpec.AlignOffset | kernel/memory/kmalloc.c:67-75 | the offset is below the alignment and takes the address to a multiple of it |
| HeapSpec.OffsetSurvivesWrap | kernel/memory/kmalloc.c:87-88 | the 32-bit difference gives that offset even where the aligned address wraps |
| HeapSpec.FitsIff | kernel/memory/kmalloc.c:87-91 | a block passes the test if and only if it is free and holds the bytes at some aligned address; the offset leads to the lowest one |
| HeapSpec.FirstFit | kernel/memory/kmalloc.c:85-98 | the block found fits and none before it does |
| HeapSpec.FirstFitIff | kernel/memory/kmalloc.c:85-103 | the search finds a block if and only if some free block holds the bytes at some aligned address |
| HeapProofs.CarveTilesIff | kernel/memory/kmalloc.c:24-65 | the entries carved from a free block tile its room if and only if the split is sound |
| HeapProofs.SpliceTilesIff | kernel/memory/kmalloc.c:24-65 | replacing neighbouring blocks keeps the heap tiled if and only if the new ones tile the same room |
| HeapProofs.AllocTilesIff | kernel/memory/kmalloc.c:46-62 | an allocation keeps the whole heap tiled if and only if the offset is zero, or the size test passes and the rest has room for a header |
| HeapProofs.HeadersAscend | kernel/memory/kmalloc.c:10-22 | in a tiled heap headers ascend, headers and payloads do not meet, and each payload ends where the next header begins |
| HeapProofs.AllocKeepsFreeApart | kernel/memory/kmalloc.c:31-62 | no allocation, sound or not, puts two free entries side by side |
| HeapProofs.LeftJoins | kernel/memory/kfree.c:44-49 | marking and the left merge leave one free block from the left neighbour's header to the end of the freed entry |
| HeapProofs.RightJoins | kernel/memory/kfree.c:50-51 | the right merge extends a free block over a free follower |
| HeapProofs.FreeAtJoins | kernel/memory/kfree.c:43-51 | freeing comes to replacing the entry and its free neighbours by one free block over the same room, in all four cases |
| HeapProofs.FreeKeepsWellFormed | kernel/memory/kfree.c:43-51 | freeing a gap-free entry keeps the tiling and leaves no two free entries side by side |
| HeapList.InsertedAfter | kernel/memory/kmalloc.c:10-22 | the four link assignments put the new header after its predecessor and keep the list linked both ways |
| HeapList.SetLinks | kernel/memory/kmalloc.c:15-19 | the assignments in order: exactly the links of the new entry, its predecessor and its follower change |
| HeapList.LinkNewEntry | kernel/memory/kmalloc.c:10-22 | the memory afterwards holds the list with the new entry in it; only those headers' bytes change |
| HeapList.MergeKeepsLinked | kernel/memory/kfree.c:14-18 | the assignments of merge_entries take two neighbours of a linked list to the list with them merged |
| HeapList.SetMerged | kernel/memory/kfree.c:14-18 | the headers after the assignments, and that the call ends exactly when second->next exists or is tested |
| HeapList.MergeEntries | kernel/memory/kfree.c:7-21 | the memory holds the merged list, or the call followed a NULL second->next, exactly when there is none and no test |
| HeapAlloc.TakeEntry | kernel/memory/kmalloc.c:31-44 | the leading split and the marking: the list gains the leading part, the new entry is taken and starts at the offset |
| HeapAlloc.SplitTrailing | kernel/memory/kmalloc.c:46-58 | the trailing split: the list gains the trailing entry where it clears the next header; the words written in any case |
| HeapAlloc.FinishSplit | kernel/memory/kmalloc.c:46-58 | where the size test passes: the specified list, or, where the trailing header runs into the next one, no list in memory tiles the heap |
| HeapAlloc.FinishWhole | kernel/memory/kmalloc.c:59-62 | where the size test fails: the specified list, the new entry with the whole size |
| HeapAlloc.ListIsTheOne | kernel/include/heap.h:22-30 | the list in memory is determined by where it starts |
| HeapAlloc.RunIntoNextNotTiled | kernel/memory/kmalloc.c:46-58 | after a trailing header has run into the next one no list from the heap's start tiles the range |
| HeapAlloc.FinishedTiledIff | kernel/memory/kmalloc.c:24-65 | the bytes alloc_entry leaves hold a tiling list if and only if the split is sound |
| HeapAlloc.AllocEntry | kernel/memory/kmalloc.c:24-65 | the returned address; the new list in memory; tiled if and only if the split is sound; which bytes may change |
| Heap.OffsetFrom | kernel/memory/kmalloc.c:87-88 | the offset to the next aligned address, computed on 32 bits |
| Heap.Examine | kernel/memory/kmalloc.c:85-92 | one round of the search reads offset, fit and next entry off the header as the block list has them |
| Heap.KernelHeap.constructor | kernel/memory/heap.c:5-6 | no heap and no lock before setup |
| Heap.KernelHeap.Setup | kernel/memory/heap.c:8-21 | one free block over the whole range, well formed; only its header is written |
| Heap.KernelHeap.Kmalloc | kernel/memory/kmalloc.c:77-104 | first fit at the aligned address; NULL if and only if no free block holds the bytes at an aligned address; the heap stays tiled if and only if the split is sound, and then holds the specified blocks; the lock is free |
| Heap.MarkFree | kernel/memory/kfree.c:43-45 | the entry becomes free and loses its description, the list stays linked |
| Heap.TryMergeLeft | kernel/memory/kfree.c:48-49 | merged with a free left neighbour; ends exactly when the neighbours it follows exist or are tested |
| Heap.TryMergeRight | kernel/memory/kfree.c:50-51 | the same to the right |
| Heap.Defragment | kernel/memory/kfree.c:47-51 | both merges: the list of FreeAt, and exactly when the code reaches its end |
| Heap.OwnedHeader | kernel/memory/kfree.c:31-37 | for a gap-free entry the header at ptr - 24 is the entry's own, and looks invalid only for size zero |
| Heap.LooksInvalidIff | kernel/memory/kfree.c:34-37 | a pointer passes the check if and only if, of the words 24, 20 and 16 bytes before it, the first is zero and the other two are not |
| Heap.KernelHeap.Kfree | kernel/memory/kfree.c:23-54 | the early returns and the lock they leave; when the call ends; the new blocks and their well-formedness; only header bytes change; a second free changes nothing |
| HeapTheorems.ServedInside | kernel/memory/kmalloc.c:77-104 | after a sound split the bytes handed out lie in one allocated payload, with the description, and larger than asked only where the rest is at most four headers |
| HeapTheorems.ServedFromFree | kernel/memory/kmalloc.c:77-104 | whichever way it splits, the bytes handed out lay in the free block, and in no header and no other payload |
| HeapTheorems.PayloadsDisjoint | kernel/include/heap.h:22-30 | a payload byte is in no header and in no other payload |
| HeapTheorems.AllocSparesPayloads | kernel/memory/kmalloc.c:24-65 | kmalloc changes no byte of a live payload, whichever way it splits |
| HeapTheorems.FreeSparesPayloads | kernel/memory/kfree.c:43-51 | kfree changes no byte of any payload |
| HeapTheorems.FindableIff | kernel/memory/kfree.c:31-32 | kfree finds the new entry at ptr - 24 if and only if the offset is zero or at least four headers |
| HeapTheorems.JoinsTheParts | kernel/memory/kfree.c:47-51 | freeing the new entry joins exactly the parts it was carved into |
| HeapTheorems.RoundTripIff | kernel/memory/kfree.c:23-54 | kmalloc then kfree restores the block list, with any combination of splits, if and only if the entry is not empty |
| HeapTheorems.StepTilesIff | kernel/memory/kmalloc.c:77-104 | one call keeps a well-formed heap tiled if and only if it is sound, and then well formed |
| HeapTheorems.RunTiledIff | kernel/memory/kmalloc.c:77-104 | over any run of calls, kfree with NULL tests, the heap is tiled after each if and only if every kmalloc of the run is sound |
| HeapTheorems.TilesConserve | kernel/memory/heap.c:8-21 | headers, gaps and payloads of a tiled heap add up to its size |
| HeapTheorems.RunConserves | kernel/memory/kfree.c:23-54 | they add up to the same after every sound run |
| HeapTheorems.LiteralFreeIff | kernel/memory/kfree.c:47-51 | kfree as it stands ends if and only if the entry is empty or the neighbours it follows exist, and then leaves what the one with tests does |
| HeapTheorems.LiteralRunIff | kernel/memory/kfree.c:23-54 | a run of the code as it stands comes to its end with the heap tiled after every call if and only if every kmalloc is sound and every kfree has its neighbours |
| HeapTheorems.UnsoundRequestIff | kernel/memory/kmalloc.c:46 | on a fresh page-aligned heap a page-aligned page is split unsoundly if and only if the heap has between two pages and 23 bytes more |
| PageWalk.FrameOfFlagged | arch/i686/mmhelper.c:25 | an entry made of a page address and flags gives both back |
| PageWalk.WalkIsLookup | arch/i686/mmhelper.c:59-74 | where shadow and directory agree the processor's walk is the lookup by way of page_tables below 1 GB, and nothing is mapped above |
| Paging.EntryIsOr | arch/i686/mmhelper.c:25 | for a page address and low flags the code's ORs are the sum the model's entries are written as |
| Paging.DirectoryEntryIsOr | arch/i686/mmhelper.c:69-70 | the same for a directory entry |
| Paging.NewTableAgreesIff | arch/i686/mmhelper.c:63-71 | hanging in a new table keeps directory and shadow in agreement if and only if the address put into the directory is the table's own |
| Paging.NewTableKeepsSlots | arch/i686/mmhelper.c:63-71 | and changes no page's entry |
| Paging.EntryKeepsAgreement | arch/i686/mmhelper.c:25 | writing an entry keeps the agreement |
| Paging.EntrySetsSlot | arch/i686/mmhelper.c:25 | and sets the entry of that page number and no other |
| Paging.AddressSpace.constructor | arch/i686/paging.c:88-105 | a new map is in order if and only if the directory lies at its own address and the uninitialised table words are zero, and then maps nothing |
| Paging.AddressSpace.GetPtEntry | arch/i686/mmhelper.c:59-74 | a missing table is created from the next page; no entry changes, and the directory goes on holding the tables' physical addresses if and only if mm_physical takes the page to its frame, with a live map or without |
| Paging.AddressSpace.MapPages | arch/i686/mmhelper.c:9-35 | consecutive pages get consecutive frames across tables, every other page keeps its entry |
| Paging.AddressSpace.MmMap | arch/i686/mmhelper.c:37-57 | the processor takes every address of the rounded-up range to its place with the given rights and every other address as before; unaligned or empty requests map nothing; mm_physical goes on finding the pages for tables |
| Paging.MappedWalk | arch/i686/mmhelper.c:37-57 | the walk after the entries are written, for one address |
| Paging.MmPhysical | arch/i686/mmhelper.c:76-84 | the identity before a map is live, afterwards the entry picked by a 10/10/12 split |
| Paging.ReachIff | arch/i686/mmhelper.c:81-82 | the entry picked lies in the table if and only if the address is in the lower half of its 4 MB |
| Paging.PhysicalIsSquashedWalk | arch/i686/mmhelper.c:76-84 | within reach the result is, on 32 bits, the processor's translation of the squashed address, which counts every 4 MB as 2 MB |
| Paging.PhysicalIsWalk | arch/i686/mmhelper.c:76-84 | below 2 MB the result is the processor's translation, in every map and for every mapped address |
| Paging.FoundInImageIff | arch/i686/mmhelper.c:76-84 | in the map setup_paging makes, the result agrees with the processor about a mapped address, whatever word lies beyond the tables, if and only if that is below 2 MB |
| Paging.FourMegabytes | arch/i686/mmhelper.c:81-82 | in that map the result for address 4 MB is 2 MB, where the processor says 4 MB |
| Paging.LiveTableAgrees | arch/i686/mmhelper.c:63-71 | with any map live, a mapped page below 2 MB becomes a table whose physical address the directory holds |
| Paging.LiveTableAgreesIff | arch/i686/mmhelper.c:63-71 | with setup_paging's map live, a page of the image does so, whatever lies beyond the tables, if and only if it is below 2 MB |
| Paging.FreshMap | arch/i686/paging.c:88-105 | a zeroed directory agrees with the shadow if and only if that is all NULL, and then every address faults |
| Paging.MapImage | arch/i686/paging.c:76-81 | the new map takes exactly the kernel image to itself, writable, for the supervisor |
| Paging.MemoryManager.Setup | arch/i686/paging.c:59-85 | the map goes live after it is filled, CR3 gets the pointer table's own address, exactly the image is mapped, and mm_physical then finds exactly its first 2 MB at themselves |
| Ext2Disk.MountIsRegularIff | kernel/fs/ext2.c:349-386 | the sizes computed at mount make a regular geometry if and only if the superblock's fields do |
| Ext2Disk.MountReadsFields | kernel/fs/ext2.c:30-77 | each size is the little-endian number at its place in the superblock at byte 1024; the block size is 1024 times a power of two |
| Ext2Disk.MountCountsGroups | kernel/fs/ext2.c:371-372 | the descriptors counted are one more than the full groups |
| Ext2Disk.MountReadsDescriptors | kernel/fs/ext2.c:374-386 | the descriptors are the disk's bytes from the block behind the superblock's on, to the end of a sector |
| Ext2Disk.MountInfoIff | kernel/fs/ext2.c:349-386 | how mounting ends up to the descriptor table: an I/O error if and only if the superblock or the table is not on the disk, no support without the signature, a zero divisor for groups of no blocks |
| Ext2Disk.TableCovers | kernel/fs/ext2.c:377-380 | the sectors read for the descriptor table hold every descriptor counted |
| Ext2Disk.GroupInTableIff | kernel/fs/ext2.c:210-211 | the group index is inside the descriptor table if and only if the table covers the inode |
| Ext2Disk.FetchExactIff | kernel/fs/ext2.c:213-225 | the position read is the inode's if and only if its two numbers leave the same remainder; the slot never straddles a sector |
| Ext2Disk.FetchExactForAllIff | kernel/fs/ext2.c:213-225 | that is so for all inodes of a volume of several groups if and only if a group's inodes fill whole sectors |
| Ext2Disk.FetchGoesWrong | kernel/fs/ext2.c:213-225 | with six inodes to a group, inode 7 is read two slots too far |
| Ext2Disk.SectorOfInode | kernel/fs/ext2.c:213-222 | the sector read is the one in which the inode begins, always |
| Ext2Disk.InodeBytesIff | kernel/fs/ext2.c:206-223 | no entry if and only if the number is above the volume's inodes; below it the inode is delivered if and only if that sector is on the disk |
| Ext2Disk.SlotsDisjoint | kernel/fs/ext2.c:213-225 | any two distinct inodes have disjoint slots, in one group or in two, where the groups' tables do not overlap |
| Ext2Disk.SlotInTable | kernel/fs/ext2.c:213-225 | a slot lies inside its group's table |
| Ext2Disk.InodeBytesAreInPlace | kernel/fs/ext2.c:201-227 | where the remainders agree, the bytes delivered are the disk's from the block that bytes 8 to 11 of the group's descriptor name, by the inode's number in its group |
| Ext2Disk.FetchInode | kernel/fs/ext2.c:201-227 | the caller's struct gets those bytes, or is unchanged on an error; no entry if and only if the number is above the last inode's |
| DirBlock.ParseInvertsLayout | kernel/fs/ext2.c:288-342 | from a block that holds a sequence of records the loop recovers exactly them, in order, inside the block |
| DirBlock.LayoutIsUnambiguous | kernel/fs/ext2.c:288-342 | a block holds at most one sequence of records |
| DirBlock.ReadableHoldsItsParse | kernel/fs/ext2.c:288-342 | a readable block holds what the loop makes of it if and only if its records cover their names and end with the block |
| Volumes.FetchKind | kernel/fs/ext2.c:247-264 | the type of the entry's inode on the disk |
| Volumes.KindIsHighBits | kernel/fs/ext2.c:256-257 | the type is the first word of the inode without its low twelve bits |
| Volumes.FetchBlock | kernel/fs/ext2.c:281-299 | the first block of the directory's inode, or the read error, as the graph has them |
| Volumes.BlockOnDisk | kernel/fs/ext2.c:296-297 | a directory is the block of the disk whose number is in bytes 40 to 43 of its inode, or an I/O error if and only if that block does not end on the disk |
| PathSpec.SplitIsLossless | kernel/fs/vfs.c:26-39 | cutting a path into components and a trailing slash loses nothing |
| PathSpec.ComponentsHaveNoSlash | kernel/fs/vfs.c:26-39 | no component contains a slash |
| PathSpec.ExpectedStep | kernel/fs/vfs.c:41-76 | resolution can be done one component at a time, with the error of each branch |
| PathSpec.UnusedKeepSane | kernel/fs/vfs.c:41-76 | whatever an inode holds that is not in use, the volume is as sane as before |
| PathSpec.UnusedKeepAnswers | kernel/fs/vfs.c:41-76 | and every path has the same answer |
| PathSpec.RepeatedSlash | kernel/fs/vfs.c:46-47 | a doubled slash anywhere inside a path changes no outcome where "." is a self entry |
| PathSpec.TrailingSlash | kernel/fs/vfs.c:59-60 | a trailing slash keeps the outcome, except that a node that is no directory gives ENOTDIR |
| PathSpec.OneWayToFail | kernel/fs/vfs.c:66-75 | without a trailing slash the only error is ENOENT, also for a component on the way that is no directory |
| PathSpec.ShortPathIsRootIff | kernel/fs/vfs.c:83-94 | for an absolute path of at most one character, resolution gives the root if and only if the character is missing, a slash or a dot, where only "." and ".." name the root |
| CString.Strccpy | kernel/fs/vfs.c:26-39 | the copy is the first component, terminated; the rest goes on after the slash or at the terminator |
| CString.NextName | kernel/fs/vfs.c:43-47 | the next component, "." for an empty one, and where the path goes on |
| Vfs.Dir.Root | kernel/fs/vfs.c:8-19 | the root is its own parent and not loaded |
| Vfs.FileSystem.MakeEntry | kernel/fs/ext2.c:309-338 | the cached entry mirrors the record: itself, its parent, a new child, or no directory |
| Vfs.FileSystem.LoadEntries | kernel/fs/ext2.c:288-345 | the entries mirror the records of the block one by one, and every new directory is one entry's child |
| Vfs.FileSystem.GetDirentries | kernel/fs/ext2.c:266-346 | an unloaded directory is loaded or the read error reported, a loaded one left alone; the cache keeps mirroring the disk, one object for each directory |
| Vfs.LoadKeepsOneEach | kernel/fs/ext2.c:314-336 | on a tree-shaped volume a load keeps one object for each cached directory, below its parent on the disk |
| Vfs.LeadsByInode | kernel/fs/ext2.c:316-335 | an entry for the directory's own inode leads to itself, for its parent's to the parent, any other to its own child, all of the same mount |
| Vfs.DotLeadsHome | kernel/fs/ext2.c:316-320 | the entry named "." that a path finds leads to the directory itself, where its record on the disk does |
| Vfs.DotDotLeadsUp | kernel/fs/ext2.c:321-325 | the one named ".." leads to the parent's object, on a tree-shaped volume where its record names the parent |
| Vfs.FileSystem.FindEntry | kernel/fs/vfs.c:52-55 | the first cached entry of that name is what the first record on the disk makes |
| Vfs.FileSystem.FollowEntry | kernel/fs/vfs.c:57-71 | once the name matched, the answer resolution gives for the rest |
| Vfs.FileSystem.Descend | kernel/fs/vfs.c:69-71 | loading on demand and going on gives the answer of resolution from that directory |
| Vfs.FileSystem.NameiRecursive | kernel/fs/vfs.c:41-76 | whatever is cached, a loaded directory gives the node or error of resolution over the disk, in finitely many steps; the cache stays in agreement |
| Vfs.FileSystem.Mount | kernel/fs/ext2.c:388-401 | the root is loaded, or the read error reported with the root unloaded; the invariants hold from then on |
| Vfs.FileSystem.DoMount | kernel/fs/mount.c:16-21 | the mount point is found if and only if namei takes its shortcut, for "/" if the byte after the terminator is zero, and then the root is loaded; otherwise ENOENT |
| Vfs.FileSystem.Namei | kernel/fs/vfs.c:78-97 | the root where the second byte after the slash is zero, otherwise the answer of resolution |
| Vfs.ShortcutIsRightIff | kernel/fs/vfs.c:83-94 | where namei takes its shortcut the root is the right node if and only if the byte after the slash is a terminator, a slash or a dot |
| Vfs.ShortcutGoesWrong | kernel/fs/vfs.c:89 | for "/a" on an empty volume the shortcut is taken and resolution gives ENOENT |
| ConsoleSpec.ClearShows | drivers/vga.c:36-50 | the cleared buffer shows the start of a scrollback |
| ConsoleSpec.ScrollShows | drivers/vga.c:66-75 | rows moved up and a blank last row show the scrollback with one row more |
| ConsoleSpec.CellShows | drivers/vga.c:97-99 | a cell written shows the scrollback with that character put |
| Console.Screen.TextClear | drivers/vga.c:36-50 | the screen shows the start |
| Console.Screen.MoveRowsUp | drivers/vga.c:68 | the overlapping copy moves all rows but the first to the top |
| Console.Screen.BlankLastRow | drivers/vga.c:69-74 | the last row becomes blank in the current color, the others stay |
| Console.Screen.NewLine | drivers/vga.c:64-80 | the screen shows the scrollback after a line feed |
| Console.Screen.TextPutc | drivers/vga.c:52-102 | the screen shows the scrollback after the character; the self-calls end |
| Console.Screen.Init | drivers/vga.c:105-113 | a second call changes nothing, the first clears and sets the color |
| Console.Screen.Write | drivers/vga.c:115-125 | for every stream without backspace the screen shows the end of the unbounded scrollback of all of it |
| ConsoleLayout.WrapGrows | drivers/vga.c:64-100 | a newline adds an empty row, a return nothing, any other character the cell at the cursor, or the start of a new row past the end |
| ConsoleLayout.RunReads | drivers/vga.c:52-102 | text without tabs run character by character reads as its layout, cursor behind the last character |
| ConsoleLayout.RunExpanded | drivers/vga.c:84-88 | a tab does what four NUL characters do |
| ConsoleLayout.ConsoleWraps | drivers/vga.c:115-125 | any text without backspace reads as its lines broken into rows of 80 columns, what follows a return laid over what stood there; colors and the cursor too |
| ConsoleLayout.ReturnOverwrites | drivers/vga.c:81-83 | what is written after a return replaces as much of the start of the line, and the cursor stands behind it |
| Intervals.ClashFindsOverlap | kernel/memory/mmap.c:10-15 | no overlap escapes the three comparisons |
| Intervals.ClashIsOverlapIff | kernel/memory/mmap.c:10-15 | they are overlap for every region that is not empty if and only if the requested interval is not empty |
| Intervals.ClashOfNothing | kernel/memory/mmap.c:10-15 | what they say of a request that is empty or the wrong way round, and of a region without addresses |
| Intervals.AddKeepsDisjoint | kernel/memory/mmap.c:23-37 | an interval that passes the test joins a disjoint list without overlap |
| Regions.RegionList.Conflicts | kernel/memory/mmap.c:5-19 | true if and only if some region of the list fails the test |
| Regions.RegionList.PushFront | kernel/memory/mmap.c:34-40 | the region heads the list, linked both ways; every region keeps its values |
| Regions.RegionList.MkRegion | kernel/memory/mmap.c:21-45 | NULL and no change if and only if there is a conflict; otherwise the new region heads the list, still disjoint and linked, and the others keep bounds, size and flags |
| Regions.RegionList.FindRegion | kernel/memory/mmap.c:47-57 | the one region that contains the address, NULL if and only if none does |
| Regions.RegionList.TakeOut | kernel/memory/mmap.c:74-76 | the region leaves the list if and only if it has both neighbours |
| Regions.RegionList.ModRegion | kernel/memory/mmap.c:71-103 | a NULL pointer followed at either end; on a conflict the region stays out of the list; otherwise it heads it with its new bounds; disjoint and linked in both cases, the others with their bounds, size and flags |
| Frames.FrameTable.GetFreePage | arch/i686/pfalloc.c:40-49 | the lowest unreferenced frame, its count raised |
| Frames.FrameTable.AllocPage | arch/i686/pfalloc.c:51-59 | the frame's count raised on eight bits; NULL for an address inside a page |
| Frames.FrameTable.ReleasePage | arch/i686/pfalloc.c:61-65 | the count lowered unless it is zero |
| Frames.StepExactIff | arch/i686/pfalloc.c:40-65 | one call keeps every count equal to acquisitions less effective releases if and only if it finds no count of 255 to raise |
| Frames.RunExactIff | arch/i686/pfalloc.c:40-65 | over any run the counts are exact and no held frame is handed out as free if and only if no alloc_page finds a count of 255 |
| Frames.SharedFrame | arch/i686/pfalloc.c:57 | a 256th reference makes a held frame the next free one |
| Digits.DigitsDenote | libc/string.c:144-151 | the digits a division loop yields denote the number, without a leading zero |
| Digits.NumeralUnique | libc/string.c:139-160 | a number has one numeral of a given length |
| Digits.DigitCountIff | libc/string.c:144-151 | at most n digits if and only if below base^n |
| Digits.DigitAt | libc/string.c:170 | dividing by a power and taking the remainder gives the digit there, zero past the end |
| Digits.CutThenDivide | userspace/stdlib/string.c:253-258 | taking the remainder by the next power first gives the same digit |
| Digits.PaddedDenote | libc/string.c:153-155 | padding keeps the number; the length is the larger of padding, digit count and one |
| Digits.NumeralReadsBack | libc/string.c:115-126 | the decimal value of a numeral is the number, whatever the padding |
| Digits.NumeralInBase | libc/string.c:105-113 | in every base to 36 a numeral consists of the base's digits, 0 to 9 and a to z, and shows its number |
| Numerals.Reverse | libc/string.c:91-103 | the string in the buffer is reversed, the rest of the buffer kept |
| Numerals.StrLen | libc/string.c:76-84 | the length of the string in the buffer |
| Numerals.Utoa | libc/string.c:139-160 | the buffer holds the padded decimal numeral |
| Numerals.Atoi | libc/string.c:115-126 | the value of a string of at most nine digits, without overflow |
| Numerals.WeightFitsIff | libc/string.c:119-124 | the weight stays within an int if and only if the string has at most nine characters |
| Numerals.Xtoa | libc/string.c:162-180 | the buffer holds the hexadecimal numeral, padded to at most eight digits |
| Numerals.HexDigit | libc/string.c:169-177 | the leading zero test passes above the numeral and fails at its first digit |
| Numerals.DivisorFitsIff | userspace/stdlib/string.c:250-258 | in base ten the divisor stays within an int if and only if the number is below 10^8 |
| Numerals.Itoa | userspace/stdlib/string.c:234-263 | the buffer holds the numeral utoa writes for padding one, in any base from 2 to 36 |
| Numerals.ItoaStep | userspace/stdlib/string.c:253-258 | the next digit of the loop, and that the next divisor does not overflow |
| Numerals.ReadsBackWithinInt | libc/string.c:115-160 | below 10^9 and padded to nine digits at most, what utoa writes is in atoi's domain and reads back |

## Left out

Stated for less than every argument:

- Heap.KernelHeap.Kmalloc: size plus alignment is at most 2^32, so the minimum size does not wrap; the alignment is not zero (a division by it would trap); an unsound split needs the room of one header behind the heap, where it may write.
- Heap.KernelHeap.Kfree: a pointer is below 24, looks invalid, or owns a gap-free allocated entry; what an arbitrary pointer does to memory is not described, and neither is the state after a NULL pointer has been followed, beyond the bytes that may have changed.
- HeapTheorems.RunTiledIff: its kfree is the one with NULL tests; LiteralRunIff is about the code as it stands.
- HeapTheorems.FindableIff: stated for sound splits.
- HeapTheorems.RoundTripIff: stated for sound splits of entries that kfree can find.
- Paging.AddressSpace.GetPtEntry: where in physical memory a kernel pointer leads is one function for all maps, and stays the same; a live map shares no tables with the one changed, unless it is the same; the word that mm_physical reads outside a table is a parameter; kmalloc hands out pages from a given list of fresh ones and does not fail.
- Paging.AddressSpace.MapPages: pages below 1 GB, which is all that one page directory reaches; mm_physical takes the fresh pages to their frames, and the range does not change that (GetPtEntry and LiveTableAgreesIff say what happens otherwise).
- Paging.AddressSpace.MmMap: addresses below 1 GB and flags in the low 12 bits; a live map as for MapPages; the physical address wraps at 2^32 as in the code.
- Paging.MemoryManager.Setup: the uninitialised words of page_tables are zero; control registers other than CR3 are left out.
- Ext2Disk.MountIsRegularIff: the block size is not cut to 32 bits for shifts of 22 and more.
- Ext2Disk.MountReadsFields: neither is it here; the block size is the full power of two.
- Ext2Disk.MountInfoIff: nor there, nor the size of a descriptor table of 2^32 bytes and more.
- Ext2Disk.InodeBytesIff: the sector number is not cut to 32 bits, which matters past two terabytes.
- Volumes.BlockOnDisk: the sector number is not cut either.
- Ext2Disk.FetchInode: the geometry is regular and the inode number is not zero.
- Ext2Disk.FetchExactForAllIff: a volume of one group is always exact and needs no condition.
- Vfs.FileSystem.GetDirentries: the inodes in use are a given set that holds the root and every inode that a directory in it names, so for instance those that paths can reach; every block of a directory in use that can be read has records that stay inside it, are not empty, and name inodes that can be read and have the recorded type (a record of another type for a directory inode leaves the entry without a directory object, and namei_recursive follows the NULL at kernel/fs/vfs.c:69). Nothing is asked of other inodes. The driver reads only the first block of a directory.
- CString.Strccpy: the terminator is a slash, which is what its only caller passes.
- Vfs.FileSystem.NameiRecursive: components of at most 255 bytes, as the local buffer demands; the path ends in a NUL.
- Vfs.FileSystem.Namei: not for the empty string, where the code looks at the byte before it; not for "/" at the very end of its buffer.
- Vfs.FileSystem.Mount: the inode size is 128, the size of the driver's struct.
- Console.Screen.TextPutc: no backspace; the code writes its color into the character's neighbour and lets the column wrap below zero.
- Console.Screen.Write: no backspace, for the same reason.
- ConsoleLayout.ConsoleWraps: no backspace, as for Write.
- Regions.RegionList.MkRegion: kmalloc does not fail.
- Regions.RegionList.ModRegion: the panic of ASSERT(0) after the change has been made is not modelled, and neither is what stands in the list after a NULL pointer has been followed.
- Frames.FrameTable.GetFreePage: a frame is free; the search in the code has no end of its own.
- Frames.FrameTable.AllocPage: the frame is inside the table.
- Frames.FrameTable.ReleasePage: takes a frame number below the size of the table, though the other two functions return addresses.
- Numerals.Atoi: at most nine digits, all of them decimal; longer strings overflow.
- Numerals.Itoa: numbers that are not negative and whose divisors stay within an int; a minus sign would be reversed to the end.
- Numerals.Utoa: the buffer has room for the numeral.

Not modelled:

- The kernel's own itoa, which drops the sign and calls utoa; strcat, strsize and memset.
- The lock is a boolean that is set and cleared; mutual exclusion between tasks is not decided by this code.
- The linked list of directory entries is a sequence, and comparing names is equality; the fields payload, size, blocks and mode are left out, and so is the direntry of the root except for its type.
- Disk drivers and the partition table: the disk is the bytes of the partition, and reads past its end fail.
- mm_del_region and unmapping, which are unfinished; del_mmap, which has no body.
- setup_pfalloc, which leaves the reference counts as kmalloc returned them.
- Segment and interrupt tables, the interrupt controller, system calls, scheduling, output of messages, and user programs: no state invariant, or only stubs.
