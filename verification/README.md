# Zenos in Dafny

Zenos is an x86-64 kernel with its own bootloader, written in Rust. This project models the parts of
both in which memory, processes and disks are kept consistent, and proves what they promise over every
input, every run and every reachable state. Code that updates objects in place is modelled by classes
whose methods are proved against functions on values; the theorems are about those functions.

| files | what is modelled |
|---|---|
| BootMemoryMap, FrameAllocator | the bootloader's frame allocator and the memory map it hands to the kernel |
| LoaderMemory, FrameAccounts, Relocations, KernelLoader | loading the kernel ELF file: segments, zeroed memory, private copies of shared file frames, relocations, flags |
| CopyOnWrite, ForkRuns, ForkLeaks | fork by copy-on-write as a state machine over pages, frames and reference counts |
| PageTables, FlatSpaces, TreeStates, AddressSpaces | the same operations on four-level page tables, by recursion over 512 entries, and mapping of pages; each takes steps of that state machine |
| AhciDevice | byte-addressed reads and writes over a disk that moves sectors, at most 4 KiB a command |
| Processes, ProcessInvariants, ProcessSchedule, ProcessRuns, ProcessSpaces, ProcessTable | the process table: fork, exit, page faults, waitpid, blocking and scheduling, and who owns which address space |
| SystemRuns | process table and memory in one machine: what becomes of the frames of a process that is gone |
| UserStack, UserStackBuilder | the first stack of a user program (section 3.4.1 of the System V AMD64 psABI), with a decoder |
| WordBits, PageBitmap, PageAllocator | the physical page allocator over bitmaps |
| Crc32, CrcRemainder, GptHeader | the GPT header reader and its CRC-32 (section 5.3.2 of the UEFI Specification) |
| BootConfig | the 133-byte boot configuration |
| SlabHeap | one slab of the kernel heap and its doubly linked free list |
| VfsPath | path normalization and the choice of the mounted file system |
| Common, LittleEndian | shared types, page arithmetic, little-endian numbers |

Where the code falls short of its documentation or of the obvious law, the code is followed, an input or
a run that shows it is given, and the exact condition is proved:

- `construct_memory_map` asks for `len() + 1` entries; up to `len() + 6` are needed (`MapCountIsTight`), and
  those are always enough (`MapCount`). The caller's buffer has them.
- Memory that becomes usable only at the hand-over is not given to the kernel where it lies between the allocator's
  first and next frame, although no frame in it was handed out (`MapRightKinds`).
- Cloning an address space keeps the reference counts right if and only if every page of it is writable
  (`CloneExact`). Where some page is copy-on-write already, writes can then break isolation, from any state with
  frames for the copies (`CloneLeaks`); forking twice without a write in between does it (`ForkTwiceLeaks`). Where some page is read-only, the clone's
  teardown frees a frame in use (`CloneFreesInUse`, `ForkReadOnlyFreesInUse`). The kernel maps user pages writable
  (zenos-kernel/src/process/mod.rs:392 and 504; the change to read-only at 440 is commented out), so at present only
  the first kind arises.
- Frames are not cleared: a new page can show what another space wrote (`ReusedFrameShows`). It shows the frame's
  first bytes exactly where nobody has had the frame, and otherwise what its last user left (`FreeFrameShows`).
- Waitpid tears the address space down, but a wake-up by the scheduler does not (`WakeUpLeaks`). The spaces left
  without an owner are exactly those of processes so removed and of forks on a full table (`OrphansAreAbandoned`), and
  nothing such a space holds is ever free again (`NeverFreeAgain`).
- A fork fails if and only if there are fewer free frames than tables to copy, and then it has used up all of them
  (`CloneAddressSpace`).
- The AHCI command holds 48 bits of sector number, so the disk is a flat byte array exactly up to byte 2^57
  (`FlatExactlyBelowSpan`, `WrittenWraps`).
- The page allocator takes exactly the frames inside a region if and only if the region reaches its first page
  boundary (`RegionExact`); below that a 64-bit subtraction wraps (`RegionWraps`), or panics in a build
  with overflow checks. A 2 MiB page is granted only in a region that itself starts 2 MiB aligned (`AllocHugeAt`,
  `HugeRefused`).
- Mounts are matched as string prefixes, which follows whole names if and only if the mount ends at a boundary
  (`BoundaryExact`, `PrefixIsNotBelow`); a mount that is not normal can be missed (`BestIsLongestCover`,
  `SlashMountMissed`).
- Program arguments come back exactly if and only if no string holds a NUL byte (`ReadsBackExactly`,
  `NulCutsArgument`). Present callers pass none: arguments are read as C strings
  (zenos-kernel/src/process/mod.rs:261-262).

In the model a kernel panic or an unhandled fault ends the operation with a failure result, hardware that may
fail does so nondeterministically, and clocks, locks and the answers of allocators are parameters. Integers are
unbounded except where the width matters, and there it is written out.

## Model

| member | source | states |
|---|---|---|
| BootMemoryMap.EarliestIsLeast | zenos-bootloader/common/src/legacy_memory_region.rs:230-250 | The overlap chosen next starts no later than any other overlap of the region with a used slice; of those that start together it is the one listed first. |
| BootMemoryMap.SplitTiles | zenos-bootloader/common/src/legacy_memory_region.rs:218-274 | Splitting a usable region ends, and its pieces cover the region exactly: in order, no gap, no overlap, none empty. |
| BootMemoryMap.SplitKinds | zenos-bootloader/common/src/legacy_memory_region.rs:218-274 | Each piece is wholly inside some page-rounded slice and marked used, or outside all slices and marked Usable. |
| BootMemoryMap.MapKinds | zenos-bootloader/common/src/legacy_memory_region.rs:158-216 | Every region of the map lies in one descriptor and gives each address the kind that descriptor and the slices call for. |
| BootMemoryMap.MapCovers | zenos-bootloader/common/src/legacy_memory_region.rs:158-216 | The map covers exactly the addresses of the firmware descriptors. |
| BootMemoryMap.MapDisjoint | zenos-bootloader/common/src/legacy_memory_region.rs:158-216 | For disjoint descriptors no two regions of the map share an address, however the slices overlap each other. |
| BootMemoryMap.MapSorted | zenos-bootloader/common/src/legacy_memory_region.rs:158-216 | Over a sorted firmware map the boot map is in address order. |
| BootMemoryMap.MapUsable | zenos-bootloader/common/src/legacy_memory_region.rs:158-216 | An address is Usable in the map if and only if it lies in a descriptor usable after boot and outside every page-rounded slice. |
| BootMemoryMap.SplitCount | zenos-bootloader/common/src/legacy_memory_region.rs:218-274 | A split makes at most one piece more than there are slice end points strictly inside the region. |
| BootMemoryMap.AllCutsBound | zenos-bootloader/common/src/legacy_memory_region.rs:218-293 | Over disjoint descriptors each slice end point cuts at most one descriptor, so n slices cut at most 2 n times. |
| BootMemoryMap.MapCount | zenos-bootloader/common/src/legacy_memory_region.rs:145-150 | For disjoint descriptors the map has at most len + 2 n regions for n slices, which is len + 6 for three. |
| FrameAllocator.TakesHeld | zenos-bootloader/common/src/legacy_memory_region.rs:178-181 | A slice that is not empty takes, rounded out, exactly the pages that hold a byte of it. |
| FrameAllocator.MapRightKinds | zenos-bootloader/common/src/legacy_memory_region.rs:166-207 | For every slice and address: memory of a descriptor that stays in use keeps its kind, and of any other it is Usable exactly where its page is neither from the minimum to the next frame nor taken by the kernel or the ramdisk. |
| FrameAllocator.MapKeepsOff | zenos-bootloader/common/src/legacy_memory_region.rs:166-207 | No byte of the kernel, of the ramdisk or of a frame handed out is in a Usable region. |
| FrameAllocator.MapLeavesRest | zenos-bootloader/common/src/legacy_memory_region.rs:166-207 | Conversely, a byte of usable memory whose page holds no byte of any of them is in a Usable region, the slices not being empty. |
| FrameAllocator.MapCountIsTight | zenos-bootloader/common/src/legacy_memory_region.rs:152-157 | The bound is reached by an allocator that has handed out one frame from a descriptor around 1 MiB, with kernel and ramdisk above: 1 + 6 regions, so the documented len() + 1 entries are not enough. |
| FrameAllocator.AddRegion | zenos-bootloader/common/src/legacy_memory_region.rs:276-293 | Appends one non-empty region to the buffer and skips an empty one; fails exactly when the buffer is full. |
| FrameAllocator.SplitAndAddRegion | zenos-bootloader/common/src/legacy_memory_region.rs:218-274 | The loop writes exactly the pieces of the region, in order, or fails because the buffer is full. |
| FrameAllocator.HeldFrameIsInside | zenos-bootloader/common/src/legacy_memory_region.rs:93-112 | A frame that may be handed out lies in its descriptor from the first byte to the last. |
| FrameAllocator.LegacyFrameAllocator.NewStartingAt | zenos-bootloader/common/src/legacy_memory_region.rs:79-91 | Starts at the given frame, but never below 1 MiB, with nothing handed out. |
| FrameAllocator.LegacyFrameAllocator.AllocateFrameFromDescriptor | zenos-bootloader/common/src/legacy_memory_region.rs:93-112 | Gives the least eligible frame of the current descriptor, or none when the descriptor is used up. |
| FrameAllocator.LegacyFrameAllocator.AllocateFrame | zenos-bootloader/common/src/legacy_memory_region.rs:301-323 | Successive calls give exactly the frames at or above the minimum in usable descriptors, ascending, no repeats, then None for ever. |
| FrameAllocator.LegacyFrameAllocator.ConstructMemoryMap | zenos-bootloader/common/src/legacy_memory_region.rs:158-216 | Writes exactly the boot map, and succeeds if and only if it fits the buffer (len + 6 entries always do). The map covers the memory of the firmware map; no byte of the kernel, the ramdisk or a frame handed out is Usable in it, and usable memory in pages without such bytes is. |
| LoaderMemory.CopyPageView | zenos-bootloader/common/src/load_kernel.rs:462-503 | Moving a page to an unused frame with the same bytes leaves the virtual image as it was. |
| LoaderMemory.WriteFrameView | zenos-bootloader/common/src/load_kernel.rs:387-444 | Writing to a frame that only one page uses is one overlay on the image and nothing else. |
| LoaderMemory.FlagsView | zenos-bootloader/common/src/load_kernel.rs:506-542 | Changing flags leaves the image as it was. |
| LoaderMemory.OverlayJoin | zenos-bootloader/common/src/load_kernel.rs:387-444 | Writing the front of a buffer and then the rest behind it is writing the buffer. |
| FrameAccounts.CopiedMore | zenos-bootloader/common/src/load_kernel.rs:462-503 | Making pages private costs one frame for each page that was not private before, over any sequence of copies. |
| Relocations.RelocatedIsList | zenos-bootloader/common/src/load_kernel.rs:618-680 | A table that its own relocations do not touch: applying it entry by entry is the in-order sequence of 8-byte overlays it lists. |
| Relocations.EntryRead | zenos-bootloader/common/src/load_kernel.rs:637-643 | An entry that the image shows in bytes as 8 of offset, 8 of type and 8 of addend, lowest first, is read as these numbers. |
| Relocations.EntryApplied | zenos-bootloader/common/src/load_kernel.rs:645-680 | An entry of type 8 whose turn has come stores, byte by byte, base plus addend at base plus offset; every other byte stays. |
| Relocations.TableApplied | zenos-bootloader/common/src/load_kernel.rs:616-680 | A table that its relocations miss: afterwards each address holds what the last relocation that writes it stores there, and otherwise what it held. |
| KernelLoader.Inner.MakeMut | zenos-bootloader/common/src/load_kernel.rs:462-503 | The page gets a private frame with the same bytes, at the cost of one frame if and only if it had none; the image and all rights stay, and file frames are never modified. |
| KernelLoader.Inner.CopyTo | zenos-bootloader/common/src/load_kernel.rs:387-444 | On success the image is the old one with `buf` overlaid at `addr`; it succeeds if and only if all its pages are mapped and there is a frame for each that has no private copy yet. |
| KernelLoader.Inner.CopyFrom | zenos-bootloader/common/src/load_kernel.rs:320-377 | Reads exactly the image at `addr`, page by page, and changes nothing. |
| KernelLoader.Inner.MapFileFrames | zenos-bootloader/common/src/load_kernel.rs:186-206 | Consecutive file frames appear at consecutive pages; fails if and only if one of those pages is mapped already. |
| KernelLoader.Inner.MapZeroFrame | zenos-bootloader/common/src/load_kernel.rs:285-310 | One more page of zeros, the rest of the image stays; fails if and only if the page is mapped or no frame is left. |
| KernelLoader.Inner.HandleBssSection | zenos-bootloader/common/src/load_kernel.rs:217-313 | The image is zero from file size to memory size; outside the rest of the last data page nothing changes; it succeeds if and only if that page is mapped, those behind it are not, and frames are left for a private copy and for them; no other page appears. |
| KernelLoader.Inner.MapSegmentFrames | zenos-bootloader/common/src/load_kernel.rs:167-206 | The image shows the file bytes of the segment at its address and earlier pages read as before; exactly its pages are new; fails if and only if one of them is mapped. |
| KernelLoader.Inner.HandleLoadSegment | zenos-bootloader/common/src/load_kernel.rs:167-215 | The image of a page-congruent segment is its file bytes, then zeros up to its memory size, with the rights of its header; other bytes and the file frames stay; exactly its pages are new; it succeeds if and only if they were unmapped and frames are left for its zeroed part. |
| KernelLoader.Inner.CheckIsInLoad | zenos-bootloader/common/src/load_kernel.rs:722-734 | Accepts an address if and only if it lies in a load segment. |
| KernelLoader.Inner.ReadRelocation | zenos-bootloader/common/src/load_kernel.rs:627-643 | Reads the entry that the bytes of the image show at its index, if and only if all 24 bytes are mapped. |
| KernelLoader.Inner.ApplyRelocation | zenos-bootloader/common/src/load_kernel.rs:645-680 | A relocation that is relative, without symbol, representable and in a mapped load segment is one 8-byte overlay of base plus addend; it succeeds if and only if it is such and frames are left for the private copies it needs. |
| KernelLoader.Inner.ApplyRelocations | zenos-bootloader/common/src/load_kernel.rs:616-621 | The loop applies the table in order, each entry read from the image the ones before it left; for a table they miss, each address then holds the bytes the last relocation there stores. It succeeds if and only if each can be applied and frames are left for one copy of each page it touches. |
| KernelLoader.Inner.ClearFlag | zenos-bootloader/common/src/load_kernel.rs:687-718 | Clears one flag on exactly the pages of a header, leaves the image, and fails if and only if one of them is not mapped. |
| KernelLoader.Inner.ClearFlags | zenos-bootloader/common/src/load_kernel.rs:506-542 | Clears a flag on exactly the pages that headers of one kind name: the loader's mark on load segments, or WRITABLE in RELRO regions; the image stays. |
| KernelLoader.Inner.LoadedKept | zenos-bootloader/common/src/load_kernel.rs:111-155 | What one segment shows survives loading the segments after it. |
| KernelLoader.Inner.LoadAll | zenos-bootloader/common/src/load_kernel.rs:114-134 | Loading the segments one after the other succeeds if and only if their pages are apart and unmapped and there are frames for their zeroed parts; exactly their pages are new, and all but the zeroed last data pages still have no private copy. |
| KernelLoader.Inner.LoadSegments | zenos-bootloader/common/src/load_kernel.rs:111-155 | After all segments the image is every segment's file bytes and zeros, relocated, which for a table the relocations miss is stated in bytes; the pages mapped are those of the load segments and no others; every page has its segment's rights, less WRITABLE in RELRO regions; it succeeds if and only if the pages are apart and unmapped, every relocation applies, RELRO pages are mapped and the frames suffice. The image and table these conditions are about are fixed whenever the segments have room, whatever fails later. |
| CopyOnWrite.OutstandingMeans | zenos-kernel/src/process/isolation.rs:289-354 | Allocator events of each frame alternate, so a frame no longer in use has been freed exactly once since it was last allocated; for pages and for tables. |
| CopyOnWrite.MapPageKeeps | zenos-kernel/src/memory/mod.rs:588-623 | A new page, writable or read-only, on a free frame keeps the invariant and shows what the frame holds. |
| CopyOnWrite.CloneLeafKeeps | zenos-kernel/src/process/isolation.rs:120-143 | Sharing a writable page keeps counts equal to the number of copy-on-write pages, and reads as a copy. |
| CopyOnWrite.FaultKeeps | zenos-kernel/src/process/isolation.rs:197-265 | A write fault is handled if and only if the page is copy-on-write and is the only one or a frame is left; then the page is writable, and every page reads as before. |
| CopyOnWrite.StoreKeeps | zenos-kernel/src/process/isolation.rs:197-265 | A store through a writable page is seen in that page only. |
| CopyOnWrite.SharedCount | zenos-kernel/src/process/isolation.rs:45-51 | The count of a copy-on-write frame is above one if and only if another page maps it. |
| CopyOnWrite.FreeLeafKeeps | zenos-kernel/src/process/isolation.rs:289-328 | Giving up a page frees its frame if and only if no other page maps it. |
| CopyOnWrite.ReserveKeeps | zenos-kernel/src/process/isolation.rs:69-82 | Taking free frames for tables keeps the invariant and what every page reads. |
| CopyOnWrite.ReturnKeeps | zenos-kernel/src/memory/mod.rs:957-961 | Giving the frames of tables back, whatever they hold by then, keeps the invariant and what every page reads. |
| CopyOnWrite.LoseKeeps | zenos-kernel/src/memory/mod.rs:754-766 | A frame allocated for a page that is then not mapped keeps the invariant and is never seen again. |
| ForkRuns.CloneIsDeepCopy | zenos-kernel/src/process/isolation.rs:151-193 | Cloning a space whose pages are all writable reads as a deep copy, keeps the invariant and loses no frame. |
| ForkRuns.CloneExact | zenos-kernel/src/process/isolation.rs:120-143 | The clone keeps the invariant if and only if every page of the parent is writable, that is neither still marked copy-on-write nor read-only. |
| ForkRuns.ForkTwiceLeaks | zenos-kernel/src/process/isolation.rs:120-143 | A run: forked twice without a write in between, then the second child reads what the first child wrote. |
| ForkRuns.ForkReadOnlyFreesInUse | zenos-kernel/src/process/isolation.rs:135-138 | A run: a read-only page is shared without being counted, and after the child's teardown its frame is free while the parent maps it. |
| ForkLeaks.CloneLeaks | zenos-kernel/src/process/isolation.rs:120-143 | From any sound state, after cloning a space that has a copy-on-write page, and with as many free frames as pages share it, there are successful writes to other pages only that put any byte anywhere in what that page reads. |
| ForkLeaks.CloneFreesInUse | zenos-kernel/src/process/isolation.rs:135-138 | From any sound state, after cloning a space that has a read-only page, the teardown of the clone frees the frame that page still maps. |
| ForkRuns.FreePages | zenos-kernel/src/process/isolation.rs:289-354 | Tearing a space down keeps the invariant and every page of the other spaces, and loses no frame. |
| ForkRuns.WriteIsPrivate | zenos-kernel/src/process/isolation.rs:197-265 | A user write is seen in the page written and nowhere else; it succeeds if and only if the page is mapped, not read-only, and unshared or a frame is left. |
| ForkRuns.StepRefines | zenos-kernel/src/process/isolation.rs:104-354 | Every step on shared memory is the same step, with the same answers, of a deterministic machine whose memories share nothing; no frame disappears. |
| ForkRuns.RunsAreDeep | zenos-kernel/src/process/isolation.rs:104-354 | Over every run each space reads exactly what the machine without sharing reads, the invariant holds, and every frame is free, mapped, a table or lost. |
| ForkRuns.FreeAfter | zenos-kernel/src/memory/mod.rs:588-623 | A frame free after a step was free before it and is untouched, or the step gave it back: a teardown the bytes of a page of that space, a returned table what it held. |
| ForkRuns.FreeFrameShows | zenos-kernel/src/memory/mod.rs:588-623 | Over every run a new page shows the frame's first bytes exactly where nobody has had the frame, and otherwise what its last user left there. |
| ForkRuns.ReusedFrameShows | zenos-kernel/src/memory/mod.rs:701-773 | A run: a page of a new space shows what a space torn down before wrote, because frames are not cleared. |
| PageTables.MarkEntriesLeaves | zenos-kernel/src/process/isolation.rs:104-147 | Marking the tables marks exactly their leaves and keeps the tables where they are. |
| PageTables.LeavesDistinct | zenos-kernel/src/process/isolation.rs:104-147 | No page has two leaves in a table tree. |
| PageTables.LookupIsLeafMap | zenos-kernel/src/process/isolation.rs:204-235 | A walk by table indices finds exactly the leaves of the tree. |
| PageTables.LookupSetLeaf | zenos-kernel/src/process/isolation.rs:236-262 | Replacing a leaf changes what is found at its own path and nowhere else. |
| PageTables.FreedAreFrames | zenos-kernel/src/process/isolation.rs:289-328 | The order in which tables are freed frees the frame of every table of the tree once. |
| PageTables.FreedAfterBelow | zenos-kernel/src/process/isolation.rs:289-328 | In that order the frame of any table of the tree comes right after the frames of all tables below it. |
| FlatSpaces.CloneSpaceIsInc | zenos-kernel/src/process/isolation.rs:104-147 | The recursive clone counts references exactly as cloning the listed pages one by one. |
| FlatSpaces.FreeSpaceIsRelease | zenos-kernel/src/process/isolation.rs:289-328 | The recursive free releases exactly as giving up the listed pages one by one. |
| FlatSpaces.ClonedLeaves | zenos-kernel/src/process/isolation.rs:104-193 | Cloned trees, flattened, are the leaves of the page-by-page clone. |
| FlatSpaces.RemovedLeaves | zenos-kernel/src/process/isolation.rs:332-354 | Removing a tree removes exactly the leaves of its space. |
| FlatSpaces.ReplacedLeaf | zenos-kernel/src/process/isolation.rs:236-262 | Replacing a leaf of a tree replaces that leaf of the flat state. |
| FlatSpaces.ChangedLeaf | zenos-kernel/src/memory/mod.rs:701-773 | A tree that differs in one page differs in exactly that page of the flat state. |
| TreeStates.NewLinked | zenos-kernel/src/process/isolation.rs:267-285 | A new tree with no pages, in a free frame, is one table taken by the flat machine. |
| TreeStates.CloneLinked | zenos-kernel/src/process/isolation.rs:151-193 | Cloned trees are the flat clone after its tables are taken, whether or not that keeps the invariant; all tables are in frames of their own. |
| TreeStates.TeardownLinked | zenos-kernel/src/process/isolation.rs:332-354 | A tree given up is the flat teardown and the return of its tables, each once. |
| TreeStates.MapLinked | zenos-kernel/src/memory/mod.rs:701-773 | A tree with one more page and the tables made for it is the flat state with that page, or without it. |
| AddressSpaces.FaultLinked | zenos-kernel/src/process/isolation.rs:197-265 | A handled fault on the tree is the flat fault. |
| ForkRuns.GivenUp | zenos-kernel/src/process/isolation.rs:332-354 | After a teardown the free frames are the old ones, the tables of the space, and exactly the frames that no page maps any more. |
| AddressSpaces.IndicesArePages | zenos-kernel/src/process/isolation.rs:204-235 | Read in base 512, highest level first, the four indices of an address are its page number; so two 48-bit addresses select the same leaf if and only if they lie in the same page. |
| AddressSpaces.IndicesSelect | zenos-kernel/src/process/isolation.rs:200-224 | The same for every address, with its low 48 bits. |
| AddressSpaces.WalkTranslates | zenos-kernel/src/process/isolation.rs:200-235 | The walk finds a leaf if and only if the processor does: bits 39 to 47 select at level 4, 30 to 38 at level 3, 21 to 29 at level 2 and 12 to 20 at level 1. |
| AddressSpaces.AddressSpaceTable.CowCloneTable | zenos-kernel/src/process/isolation.rs:104-147 | The recursion over 512 entries marks source and clone, counts each writable page once, takes distinct free frames for tables, each logged once, and fails if and only if there are too few; then none is left. |
| AddressSpaces.AddressSpaceTable.NewAddressSpace | zenos-kernel/src/process/isolation.rs:267-285 | A new space without user pages, in a free frame; none if and only if no frame is left; every other space reads as before. |
| AddressSpaces.AddressSpaceTable.CloneAddressSpace | zenos-kernel/src/process/isolation.rs:151-193 | Takes the two steps of the flat machine: if and only if all pages of the parent are writable the state stays sound, and then the new space reads as a deep copy and all others as before; fails if and only if frames for its tables are missing, and has then used up all free frames. |
| AddressSpaces.AddressSpaceTable.RefcountDec | zenos-kernel/src/process/isolation.rs:31-42 | Drops one reference and tells whether it was the last. |
| AddressSpaces.AddressSpaceTable.FreePageTableRecursive | zenos-kernel/src/process/isolation.rs:289-328 | The recursion frees every page no other space maps, and every table below once, after those it points to. |
| AddressSpaces.AddressSpaceTable.TeardownAddressSpace | zenos-kernel/src/process/isolation.rs:332-354 | The space is gone and every other reads as before; what is free now is what was free, its tables, and exactly the frames no page maps any more; no frame is lost. |
| AddressSpaces.AddressSpaceTable.HandleCowFault | zenos-kernel/src/process/isolation.rs:197-265 | The page is the one whose indices are the page number of the address in base 512. True leaves it writable, as the processor finds it, with all contents as before; false if and only if it is not copy-on-write, or shared with no frame left, and then nothing changed. |
| AddressSpaces.AddressSpaceTable.MapBelow | zenos-kernel/src/memory/mod.rs:740-766 | The walk makes the tables that are missing and maps the page if and only if it was not mapped and there were frames for them; all other pages stay; on failure the tables made so far stay. |
| AddressSpaces.AddressSpaceTable.MapUserPage | zenos-kernel/src/memory/mod.rs:588-623 | Returns a frame if and only if one is left and the page was mapped already or frames for missing tables are left; a new page is found by the processor at that address and shows what the frame holds; the frame of a page mapped already is lost. |
| AddressSpaces.AddressSpaceTable.WriteUserByte | zenos-kernel/src/interrupts/mod.rs:290-310 | A store with its fault changes one byte of the page of the address in one space; it succeeds if and only if the page is mapped, not read-only, and unshared or a frame is left. |
| AddressSpaces.AddressSpaceTable.ReadsAsDeep | zenos-kernel/src/process/isolation.rs:104-354 | After any calls every space reads what it would if nothing were shared, and every frame is free, mapped, a table or lost. |
| AddressSpaces.AddressSpaceTable.NextPageShows | zenos-kernel/src/memory/mod.rs:588-623 | After any calls, what a page mapped next would show: the first bytes of a frame never used, or what its last user left. |
| AhciDevice.CommandRange | zenos-kernel/src/disk/block/ahci.rs:414-419 | Every chunk of a request becomes a command of 1 to 8 sectors that starts at the sector of the cursor, modulo 2^48 sectors. |
| AhciDevice.WrittenJoin | zenos-kernel/src/disk/block/ahci.rs:839-910 | Writing the front of a buffer and then the rest behind it is writing the buffer. |
| AhciDevice.ReadModifyWrite | zenos-kernel/src/disk/block/ahci.rs:878-897 | Overlaying a chunk on the sectors read, or on a buffer it fills, and writing them back replaces exactly the bytes of the chunk. |
| AhciDevice.WrittenIsFlat | zenos-kernel/src/disk/block/ahci.rs:839-910 | A write that ends at or below byte 2^57 replaces exactly its range of a flat byte array. |
| AhciDevice.WrittenWraps | zenos-kernel/src/disk/block/ahci.rs:229-246 | A write 2^57 bytes further on lands on the same bytes: the command holds 48 bits of sector number. |
| AhciDevice.FlatExactlyBelowSpan | zenos-kernel/src/disk/block/ahci.rs:229-246 | The device is a flat byte array for every buffer of a length at a cursor if and only if the buffer ends at or below 2^57. |
| AhciDevice.WriteThenRead | zenos-kernel/src/disk/block/ahci.rs:764-910 | What was written is what is read back. |
| AhciDevice.AhciBlockDevice.Seek | zenos-kernel/src/disk/block/ahci.rs:912-934 | Moves the cursor by checked 64-bit arithmetic; seeks from the end are unsupported and errors leave the cursor. |
| AhciDevice.AhciBlockDevice.ReadSectors | zenos-kernel/src/disk/block/ahci.rs:536-539 | Whole sectors of the medium, for 1 to 8 sectors in range; any command may fail. |
| AhciDevice.AhciBlockDevice.WriteSectors | zenos-kernel/src/disk/block/ahci.rs:541-544 | Replaces whole sectors; a failed command touches only the sectors it addressed. |
| AhciDevice.AhciBlockDevice.Read | zenos-kernel/src/disk/block/ahci.rs:764-837 | On success the buffer holds exactly the bytes from the cursor on, and the cursor moves by its length; on error the cursor stays; a reliable device serves every request that ends on the medium. |
| AhciDevice.AhciBlockDevice.WriteChunk | zenos-kernel/src/disk/block/ahci.rs:844-901 | One chunk is written whole, or not at all unless failed commands damage their sectors. |
| AhciDevice.AhciBlockDevice.Write | zenos-kernel/src/disk/block/ahci.rs:839-910 | On success exactly the range at the cursor is replaced; on error the cursor stays and only whole leading chunks were written; a reliable device serves every request that ends on the medium. |
| ProcessInvariants.InitialInv | zenos-kernel/src/process/mod.rs:1026-1089 | The boot table, idle task and running init, satisfies the invariant. |
| ProcessInvariants.ForkMeans | zenos-kernel/src/syscall/fork.rs:8-93 | Fork appends one ready child of the caller with the cloned address space, priority 15 and result 0, under the next pid; without a clone or with 256 entries no entry changes and the result is -ENOMEM. |
| ProcessInvariants.ForkKeeps | zenos-kernel/src/syscall/fork.rs:76-93 | Fork keeps the invariant, and returns a new pid if and only if the clone succeeded and the table of 256 had room. |
| ProcessInvariants.ExitCodeMeans | zenos-kernel/src/syscall/exit.rs:9-17 | The stored code is the 32-bit status given to exit, sign-extended. |
| ProcessInvariants.MarkExitedKeeps | zenos-kernel/src/syscall/exit.rs:14-31 | The caller becomes a zombie with its code, its children become children of init, and the invariant holds. |
| ProcessInvariants.MarkExitedMeans | zenos-kernel/src/syscall/exit.rs:14-31 | Entry by entry: the caller has exited with its code, every child of it has parent 1, and nothing else has changed. |
| ProcessInvariants.ReapKeeps | zenos-kernel/src/process/scheduler/mod.rs:168-172 | Removing an exited entry that is not current, and delivering its code, keeps the invariant. |
| ProcessInvariants.SwapRemoveIs | zenos-kernel/src/syscall/wait.rs:30-30 | swap_remove takes away exactly the entry at the index and puts the last one in its place. |
| ProcessSchedule.PicksFirstRunnable | zenos-kernel/src/process/scheduler/mod.rs:88-136 | With the one priority all processes have, the loop picks the first runnable entry, and wakes it with the code of the process it waits for. |
| ProcessSchedule.ScheduleIgnoresLocks | zenos-kernel/src/process/scheduler/mod.rs:116-129 | The test of lock flags never decides: after the save no entry is blocked. |
| ProcessSchedule.SavedKeeps | zenos-kernel/src/process/scheduler/mod.rs:61-78 | The current process, running or blocked, is saved and made ready; no other entry changes. |
| ProcessSchedule.ScheduleKeeps | zenos-kernel/src/process/scheduler/mod.rs:56-184 | A tick keeps the invariant. |
| ProcessSchedule.WaitOneMeans | zenos-kernel/src/syscall/wait.rs:50-84 | Waiting for a pid: -ESRCH if and only if it is not in the table, a wait if and only if it is alive, otherwise its code, once. Entry by entry: a wait changes the status of the caller, a collection removes the one entry, and nothing else changes. |
| ProcessSchedule.WaitAnyMeans | zenos-kernel/src/syscall/wait.rs:21-48 | Waiting for any child: -ECHILD if and only if there is none, the code of the first exited child if there is one, otherwise a wait for the first child; the table changes as for one pid. |
| ProcessRuns.InvMeans | zenos-kernel/src/process/mod.rs:48-61 | At most one process runs and it is the current one; every parent is in the table and alive; no zombie has children; only the current process is ever blocked. |
| ProcessRuns.ScheduleDelivers | zenos-kernel/src/process/scheduler/mod.rs:153-172 | The scheduler removes an entry only by waking the one process that waited for it, with its exit code in rax. |
| ProcessRuns.ScheduleChooses | zenos-kernel/src/process/scheduler/mod.rs:138-179 | A tick on the tables before and after it: nothing when the table is locked, the idle loop if and only if nobody can go on, otherwise the first process that can now runs, with the rax it was saved with, or the code of the process it waited for, or all ones if that is gone; that process leaves, and every other entry is as it was saved, in order. |
| ProcessRuns.DispatchResumes | zenos-kernel/src/process/scheduler/mod.rs:153-178 | The same for the switch to any entry that can go on. |
| ProcessRuns.StepKeeps | zenos-kernel/src/process/scheduler/mod.rs:56-184 | Every fork, exit, fault, waitpid, block and tick keeps the invariant, and an exited process leaves only in a step that hands its code to exactly one process. |
| ProcessRuns.StepGrows | zenos-kernel/src/process/mod.rs:124-213 | New pids come from fork alone and lie above all earlier ones; exit records and deliveries are never changed. |
| ProcessRuns.RunKeeps | zenos-kernel/src/process/mod.rs:917-918 | Every state of every run satisfies the invariant. |
| ProcessRuns.NeverReused | zenos-kernel/src/process/mod.rs:124-213 | A pid that has left the table never names a process again, over whole runs. |
| ProcessRuns.ExitCodeDeliveredOnce | zenos-kernel/src/syscall/wait.rs:21-65 | In every later state of a run the code of an exited process is still held by its entry or was delivered exactly once, unchanged. |
| ProcessRuns.StatusDelivered | zenos-kernel/src/syscall/exit.rs:8-16 | In every state of a run after exit(rdi), the sign-extended low 32 bits of rdi are still held by the entry of the caller or were delivered exactly once. |
| ProcessRuns.FaultDelivered | zenos-kernel/src/interrupts/mod.rs:311-351 | Likewise all ones after an unresolved fault. |
| ProcessRuns.ExitMeans | zenos-kernel/src/syscall/exit.rs:8-39 | The exit step, entry by entry: the caller leaves with its status, its children go to process 1, and the first process that can go on runs. |
| ProcessRuns.FaultMeans | zenos-kernel/src/interrupts/mod.rs:311-351 | The fault step, entry by entry: as for exit with all ones, and the next tick switches. |
| ProcessRuns.BlockMeans | zenos-kernel/src/process/mod.rs:830-842 | Blocking changes the status of the current entry and nothing else. |
| ProcessSpaces.WaitOwners | zenos-kernel/src/syscall/wait.rs:27-65 | Waitpid removes exactly one entry, tears down that entry's address space and delivers one code, or changes neither entries nor address spaces. |
| ProcessSpaces.SpacesStep | zenos-kernel/src/process/scheduler/mod.rs:168-172 | Every process keeps an address space of its own; a step tears down only spaces of processes waitpid removes, never one in use, and leaves without an owner exactly those of processes the scheduler removes and the clone of a fork on a full table. |
| ProcessSpaces.OrphansAreAbandoned | zenos-kernel/src/process/scheduler/mod.rs:168-172 | Over every run the address spaces without an owner are exactly those so abandoned; none is ever released. |
| ProcessSpaces.WakeUpLeaks | zenos-kernel/src/process/scheduler/mod.rs:168-172 | A run: init forks and waits, the child exits, and the wake-up of init leaves the child's address space without an owner. |
| SystemRuns.ActionKeeps | zenos-kernel/src/process/scheduler/mod.rs:56-184 | Process table and memory together: every call, fork with its clone, waitpid with its teardown and step in an address space keeps both consistent, and touches no table or page of an address space without an owner. |
| SystemRuns.NeverFreeAgain | zenos-kernel/src/process/scheduler/mod.rs:168-172 | Over every joint run, what an address space holds once it has no owner, its tables and the frames its pages map, it holds for ever: none of it is ever free again. |
| SystemRuns.ReapReleases | zenos-kernel/src/syscall/wait.rs:27-65 | A removal by waitpid frees the tables of the address space at once, and of the frames its pages map exactly those that no other space maps. |
| ProcessTable.Kernel.Fork | zenos-kernel/src/syscall/fork.rs:8-93 | The method takes exactly the fork step and keeps the invariant. |
| ProcessTable.Kernel.Exit | zenos-kernel/src/syscall/exit.rs:8-39 | Takes exactly the exit step, with the switch at its end, after which the sign-extended status is held by the entry or was delivered once; init exiting is the kernel's panic. |
| ProcessTable.Kernel.Fault | zenos-kernel/src/interrupts/mod.rs:311-351 | An unresolved user fault takes the same step with the code of all ones, which the entry then holds, and forces a reschedule. |
| ProcessTable.Kernel.Block | zenos-kernel/src/process/mod.rs:830-842 | Marks the current process blocked. |
| ProcessTable.Kernel.MarkCurrentExited | zenos-kernel/src/syscall/exit.rs:14-31 | The loop over the table gives exactly the children of the exiting process to process 1 and changes no other entry. |
| ProcessTable.Kernel.SelectNext | zenos-kernel/src/process/scheduler/mod.rs:88-136 | The selection loop computes the scan over all entries, wake and reap marks included. |
| ProcessTable.Kernel.RunPicked | zenos-kernel/src/process/scheduler/mod.rs:153-178 | Stores the wake code if there is one and else keeps the saved rax, switches to the picked entry and removes the reaped one; the other entries stay in order. |
| ProcessTable.Kernel.Schedule | zenos-kernel/src/process/scheduler/mod.rs:56-184 | Takes exactly the tick step; from a sound table nobody is lost, and who runs, with what rax, and what becomes of every other entry is as stated for ScheduleChooses. |
| ProcessTable.Kernel.WaitPid | zenos-kernel/src/syscall/wait.rs:8-85 | Takes exactly the waitpid step, and a reaped child's code is its result. |
| UserStack.WordIsWord | zenos-kernel/src/process/mod.rs:564-588 | A pushed word is loaded back from its place. |
| UserStack.StringPlaced | zenos-kernel/src/process/mod.rs:519-543 | Each string lies, terminated, where its pointer says. |
| UserStack.TableRead | zenos-kernel/src/process/mod.rs:570-587 | The pointer table reads back as argc, the argument pointers, NULL, the environment pointers, NULL and a null auxv entry. |
| UserStack.ReadsBack | zenos-kernel/src/process/mod.rs:519-588 | A program started on the image finds its arguments and environment in order, each cut at its first NUL, and an empty auxv. |
| UserStack.ReadsBackExactly | zenos-kernel/src/process/mod.rs:519-588 | It finds exactly the given strings if and only if none holds a NUL byte. |
| UserStack.NulCutsArgument | zenos-kernel/src/process/mod.rs:519-543 | An argument A NUL B arrives as A. |
| UserStackBuilder.FinalSpAligned | zenos-kernel/src/process/mod.rs:545-562 | The stack pointer is a multiple of 16, although the table is two words longer than reckoned, and where exactly it is. |
| UserStackBuilder.PushStrings | zenos-kernel/src/process/mod.rs:519-543 | The loop copies the strings below each other so that they read in order, and notes where each starts. |
| UserStackBuilder.PushTable | zenos-kernel/src/process/mod.rs:564-588 | The pushes leave exactly the pointer table in memory, or fail if and only if it does not fit. |
| UserStackBuilder.AlignSp | zenos-kernel/src/process/mod.rs:545-562 | The alignment loop and the adjustment give the stated stack pointer. |
| UserStackBuilder.BuildStack | zenos-kernel/src/process/mod.rs:508-591 | Succeeds if and only if everything fits the 16 KiB, and then the stack is the image, 16-byte aligned. |
| UserStackBuilder.UserProcess.PrepareRun | zenos-kernel/src/process/mod.rs:481-601 | Enters user mode if and only if loaded, mapped and fitting; the stack is built once, below the page-rounded top past the program. |
| UserStackBuilder.PreparedReadsBack | zenos-kernel/src/process/mod.rs:481-601 | Whatever stack a preparation leaves, the program reads back its arguments and environment, exactly if and only if no string holds a NUL byte. |
| PageBitmap.ClearPageTakes | zenos-kernel/src/memory/mod.rs:202-222 | Clearing a bit removes exactly that page's address from the free frames and keeps the bits past the end zero. |
| PageBitmap.SetPageGives | zenos-kernel/src/memory/mod.rs:405-411 | Setting a bit adds exactly that page's address and keeps the bits past the end zero. |
| PageBitmap.WordsFull | zenos-kernel/src/memory/mod.rs:277-288 | Eight words are all ones if and only if the 512 frames they stand for are free. |
| PageBitmap.ClearWordsTakes | zenos-kernel/src/memory/mod.rs:290-294 | Clearing eight words takes exactly those 512 frames. |
| PageAllocator.RegionExact | zenos-kernel/src/memory/mod.rs:120-127 | The pages taken for a region are exactly the frames inside it if and only if the region reaches its first page boundary; otherwise the subtraction wraps. |
| PageAllocator.RegionWraps | zenos-kernel/src/memory/mod.rs:120-127 | A region of 1 KiB inside a page is taken for one of almost 2^64 bytes. |
| PageAllocator.NewNode | zenos-kernel/src/memory/mod.rs:129-156 | A new bitmap has every page of the region free and every bit past the end zero. |
| PageAllocator.FindInNode | zenos-kernel/src/memory/mod.rs:315-376 | The nested scan finds the lowest free page of a region, or shows there is none. |
| PageAllocator.Allocator.constructor | zenos-kernel/src/memory/mod.rs:116-166 | One full bitmap per region of a page or more, latest first, for any regions; where the regions are apart and reach their first page boundary, the free frames are exactly those inside them. |
| PageAllocator.Allocator.AllocAt | zenos-kernel/src/memory/mod.rs:179-243 | Grants a page at an address if and only if that frame is free, and takes exactly it. |
| PageAllocator.Allocator.Alloc | zenos-kernel/src/memory/mod.rs:307-384 | Grants the lowest free frame of the first region that has one and takes exactly it; fails if and only if no frame is free. |
| PageAllocator.Allocator.AllocHugeAt | zenos-kernel/src/memory/mod.rs:245-305 | Takes all 512 frames or none; granted if and only if address and region start are 2 MiB aligned and all the frames are free in that region. |
| PageAllocator.HugeRefused | zenos-kernel/src/memory/mod.rs:257-264 | With every frame free, the 2 MiB page at 2 MiB is refused in a region that starts at 0x1000. |
| PageAllocator.Allocator.Dealloc | zenos-kernel/src/memory/mod.rs:386-418 | Frees the page that holds the address, or reports NotMapped if and only if no region holds it. |
| PageAllocator.Allocator.NeverHandedOutTwice | zenos-kernel/src/memory/mod.rs:168-418 | In any history of calls on the allocator no frame is handed out twice without a free in between. |
| Crc32.ComputeCrc | zenos-kernel/src/disk/block/mod.rs:242-258 | The loop over bytes and bits computes the reflected CRC-32. |
| Crc32.ShiftInjective | zenos-kernel/src/disk/block/mod.rs:248-254 | One bit step is injective on the register. |
| Crc32.RegisterInjective | zenos-kernel/src/disk/block/mod.rs:246-255 | Any number of bytes acts injectively on the register. |
| Crc32.RegisterOfWord | zenos-kernel/src/disk/block/mod.rs:246-255 | Up to four bytes act as one word taken in before all of their shifts. |
| Crc32.BurstDetected | zenos-kernel/src/disk/block/mod.rs:242-258 | Data that differ only within four consecutive bytes have different CRCs, whatever their length. |
| CrcRemainder.CrcIsRemainder | zenos-kernel/src/disk/block/mod.rs:242-258 | As polynomials over two elements: the CRC, its bits turned over, is the remainder of the message times x^32, its first 32 bits turned over, by x^32 + x^26 + x^23 + x^22 + x^16 + x^12 + x^11 + x^10 + x^8 + x^7 + x^5 + x^4 + x^2 + x + 1. |
| CrcRemainder.RemainderUnique | zenos-kernel/src/disk/block/mod.rs:242-258 | A polynomial has one remainder by it, so that fixes the CRC of every message. |
| CrcRemainder.CheckValue | zenos-kernel/src/disk/block/mod.rs:242-258 | The CRC of the digits 1 to 9 is the published check value. |
| GptHeader.Deserialize | zenos-kernel/src/disk/block/mod.rs:261-356 | Accepts a buffer if and only if length, signature, header size and checksum are right, and then returns the fields where the layout of the UEFI Specification has them. |
| GptHeader.FieldsLaidOut | zenos-kernel/src/disk/block/mod.rs:278-324 | The fields read are h if and only if the buffer holds, byte by byte, h in that layout. |
| GptHeader.BurstRejected | zenos-kernel/src/disk/block/mod.rs:326-338 | Changing up to four bytes in a row of an accepted header, outside the size field and not across the checksum field, makes it rejected. |
| GptHeader.ByteChangeRejected | zenos-kernel/src/disk/block/mod.rs:326-338 | Changing any one byte of an accepted header outside the size field makes it rejected, for headers of any length. |
| GptHeader.TailIgnored | zenos-kernel/src/disk/block/mod.rs:326-338 | Bytes behind the header size decide nothing. |
| BootConfig.Concat | zenos-bootloader/api/src/config.rs:34-47 | The two copy loops put one array behind the other. |
| BootConfig.SerializeArray | zenos-bootloader/api/src/config.rs:74-165 | The chain of concatenations gives the 133 bytes of the encoding. |
| BootConfig.SerializedLayout | zenos-bootloader/api/src/config.rs:74-165 | The encoding byte by byte: where each field starts, tag bytes 0 and 1, zeros behind a missing value, numbers lowest byte first. |
| BootConfig.MappingRoundTrip | zenos-bootloader/api/src/config.rs:470-489 | A mapping decodes to what was encoded. |
| BootConfig.MappingBack | zenos-bootloader/api/src/config.rs:470-489 | Nine bytes that decode to a mapping are its encoding. |
| BootConfig.SplitJoined | zenos-bootloader/api/src/config.rs:526-530 | Splitting off pieces of the written sizes gives the pieces back. |
| BootConfig.RoundTrip | zenos-bootloader/api/src/config.rs:74-294 | A configuration is read back from its own 133 bytes if and only if it has the reader's version; otherwise the error is the version. |
| BootConfig.AcceptedIsEncoding | zenos-bootloader/api/src/config.rs:174-294 | Every byte string that is accepted is what serializing the result gives. |
| BootConfig.AcceptedExactly | zenos-bootloader/api/src/config.rs:174-294 | The accepted byte strings are exactly the encodings of configurations of the reader's version. |
| SlabHeap.BlocksApart | zenos-kernel/src/memory/alloc.rs:132-150 | A block's user memory lies in the 15 pages and meets no other block and no metadata. |
| SlabHeap.BlocksFill | zenos-kernel/src/memory/alloc.rs:132-150 | Behind the last block there is no room for another. |
| SlabHeap.PopIs | zenos-kernel/src/memory/alloc.rs:201-218 | Taking the head leaves a correctly back-linked list of the others. |
| SlabHeap.PushIs | zenos-kernel/src/memory/alloc.rs:231-242 | Putting a used block in front leaves a correctly back-linked list. |
| SlabHeap.LinkBlocks | zenos-kernel/src/memory/alloc.rs:142-160 | The loop links all blocks, in address order, both ways. |
| SlabHeap.Slab.constructor | zenos-kernel/src/memory/alloc.rs:107-167 | All blocks are unused and on the list; the total is cut to what fits. |
| SlabHeap.Slab.LiveApart | zenos-kernel/src/memory/alloc.rs:191-220 | Live blocks are disjoint, inside the slab's pages and clear of all metadata. |
| SlabHeap.Slab.FreeListIsUnused | zenos-kernel/src/memory/alloc.rs:191-243 | Following the list from its head, for however many steps, visits exactly the unused blocks, each once, and ends. |
| SlabHeap.Slab.Alloc | zenos-kernel/src/memory/alloc.rs:191-220 | Fails if and only if the slab is full; otherwise one new block is live and the rest stay as they were. |
| SlabHeap.Slab.Dealloc | zenos-kernel/src/memory/alloc.rs:222-243 | A live block is unused again and in front of the list; used count plus list length stays the block count. |
| VfsPath.ComponentsProper | zenos-kernel/src/disk/vfs.rs:564-576 | Only proper components remain: not empty, no dot or dot-dot, no slash. |
| VfsPath.Idempotent | zenos-kernel/src/disk/vfs.rs:564-576 | Normalizing a normal path changes nothing. |
| VfsPath.NormalizeInSteps | zenos-kernel/src/disk/vfs.rs:564-576 | A prefix may be normalized first: normalize(a/b) is normalize(normalize(a)/b). |
| VfsPath.OnePieceMore | zenos-kernel/src/disk/vfs.rs:564-576 | What one more piece does to a normal path: a name goes below it, two dots stay at the root, one dot and the empty piece are ignored. |
| VfsPath.UpFromBelow | zenos-kernel/src/disk/vfs.rs:564-576 | A name and two dots after it undo each other. |
| VfsPath.FromRoot | zenos-kernel/src/disk/vfs.rs:564-576 | The empty path is the root, and a leading slash makes no difference. |
| VfsPath.NormalizePath | zenos-kernel/src/disk/vfs.rs:564-576 | The push and pop loop computes the normal path. |
| VfsPath.BestUnique | zenos-kernel/src/disk/vfs.rs:437-452 | The longest mounted prefix is unique, so the order of the mounts does not matter. |
| VfsPath.BoundaryExact | zenos-kernel/src/disk/vfs.rs:440-449 | Any mount string that is a prefix of any path has the path's first names if and only if it ends in a slash, the path ends there, or a slash follows; and then the other names are the rest of the path. |
| VfsPath.PrefixIsNotBelow | zenos-kernel/src/disk/vfs.rs:440-449 | The mount /mnt is a prefix of /mntx/f, which is not below it. |
| VfsPath.BestIsLongestCover | zenos-kernel/src/disk/vfs.rs:437-452 | With normal mounts, the longest string prefix is the mount that covers the path with the most names if and only if it ends at a boundary. |
| VfsPath.SlashMountMissed | zenos-kernel/src/disk/vfs.rs:437-452 | The mount /m/ covers /m, and the root is chosen. |
| VfsPath.PartsAreRest | zenos-kernel/src/disk/vfs.rs:475-479 | Below any mount that is a prefix and covers the path, the names looked up are exactly the components the mount does not have. |
| VfsPath.Vfs.Mount | zenos-kernel/src/disk/vfs.rs:341-354 | Adds the file system, or AlreadyExists if and only if the path is taken. |
| VfsPath.Vfs.Unmount | zenos-kernel/src/disk/vfs.rs:361-369 | Removes the file system, or NotFound if and only if there is none. |
| VfsPath.Vfs.PathToFs | zenos-kernel/src/disk/vfs.rs:437-452 | Gives the mount with the longest prefix of the normal path in any order of trial, and none if and only if no mount is a prefix. |
| VfsPath.Vfs.Locate | zenos-kernel/src/disk/vfs.rs:463-483 | The second normalization inside the search does not change the mount; the names are the rest of the normal path. |

## Left out

- 64-bit address arithmetic that overflows only for addresses beyond the physical or virtual address space: callers are required to stay below 2^64.
- Page table frames that the mapper of the x86_64 crate takes for itself in the loader: there the page table is a map.
- handle_dynamic_segment: the search for the relocation tags; the model starts from the table's address and length. TLS segments are passed through.
- ELF parsing: a list of program headers with the sanity conditions of the xmas_elf crate.
- AddressSpaces.AddressSpaceTable.CloneAddressSpace: which pages a failed clone has already marked and counted is not stated, and only clones of spaces whose pages are all writable continue a run.
- AddressSpaces.AddressSpaceTable.TeardownAddressSpace: page tables are trees and not bytes, so the bytes their frames hold afterwards are a parameter.
- Huge pages are entries without contents, which user space never has, and the kernel half of the level 4 table is not modelled.
- Reference counts do not wrap at 2^32 when they grow, and concurrent updates of them are not modelled.
- AhciDevice: registers, command slots, interrupts and the wait for completion; sector reads and writes are abstract operations that may fail. `read_exact` adds nothing to a read that fills the buffer or fails.
- Process table: register contents other than rax, address-space switches, raw `curr_proc` pointers (a pid in the model), `force_unlock`, and the state before the kernel enters user mode for the first time. `block_current_process` is taken as setting the current status.
- SystemRuns.NeverFreeAgain: joint runs clone only spaces whose pages are all writable, like the runs of ForkRuns, and a fork that fails for want of frames leaves the memory as it is.
- Scheduler fairness: the pick is always the first runnable entry, so there is none to prove.
- exec: replacing a running program, and with it the address space, is not modelled; its table entry keeps pid, parent and priority.
- PageAllocator.Allocator: bitmap nodes form a sequence, not a linked list in raw memory, and compare-and-swap is one step under the allocator's lock. The 2 MiB search without an address, freeing 2 MiB pages and the statistics are not modelled.
- SlabHeap.Slab: memory is a map from block addresses to metadata; the magic number, which nothing overwrites because live memory never meets metadata, is not modelled. The allocator over several slabs and the fallback heap are not modelled.
- UserStackBuilder.UserProcess.PrepareRun: mapping the stack pages is a yes or no parameter; address-space switches are not modelled.
- GPT partition entries, and reading the header from the device.
- VfsPath.Vfs.Locate: stops where the inode walk begins; lookups and permissions belong to file systems that are not modelled.
- TTY, keyboard, framebuffer, PCI, APIC, RTC, ext2, FAT, procfs, the C library, the shell and the tools: hardware access, or easier and repetitive next to the above.
