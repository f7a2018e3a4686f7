# The memory core of Popcorn, modelled and proved in Dafny

This project models the part of the Popcorn operating system that decides which memory is whose: the
bootloader's four-level page table, the kernel's bitmap frame allocator, the ELF loader and the ELF
relocator, the direct map and the kernel memory map handed over at boot, the boot-logo reader and the
symbol lookup used in panics. `dafny verify dfyconfig.toml` checks all of it.

## How it is laid out

| files | what they model |
|---|---|
| `Options.dfy`, `Bits.dfy`, `LittleEndian.dfy` | optional values; 64-bit words as numbers, with the bitwise operators defined bit by bit; little-endian byte strings |
| `PageEntry.dfy`, `PageTree.dfy`, `PageRange.dfy` | one page-table word and the index fields of an address (section 5.3 of the AMD64 Architecture Programmer's Manual, volume 2); the tree of tables in physical memory; consecutive pages |
| `Machines.dfy`, `Paging.dfy`, `PageRuns.dfy` | physical memory and the firmware's page allocator; the page table as it is mutated; whole runs of mapping requests |
| `BitmapSpec.dfy`, `BitmapAllocator.dfy`, `BitmapRuns.dfy` | the bitmap as a set of free frames; the allocator class; whole runs of requests |
| `PhysicalBytes.dfy`, `ProgramHeader.dfy`, `Loader.dfy` | physical memory by the byte; program headers; loading and mapping the kernel's segments (chapter 5, "Program Header", of the System V gABI) |
| `DirectMap.dfy`, `MemoryMap.dfy`, `Handover.dfy` | the direct and identity mapping loops; coalescing the memory map; the whole way from the ELF file to the kernel's page table |
| `ElfAddress.dfy`, `ElfWrites.dfy`, `ElfPlan.dfy` | file offsets of executable addresses; series of 64-bit writes; writes decided entry by entry |
| `ElfTables.dfy`, `ElfNames.dfy`, `ElfFormat.dfy` | the dynamic, relocation and jump tables; the symbol, hash and string tables; all of these in terms of bytes, tags and entry sizes (chapter 5 of the System V gABI) |
| `ElfRelocate.dfy`, `ElfLink.dfy`, `ElfFile.dfy` | what relocation writes; what linking writes; the file they change in place (section 4.4.1 of the x86-64 psABI) |
| `Bmp.dfy`, `SymbolMap.dfy` | the boot logo; the symbol map |

Conventions:

- Physical memory is a map from page-aligned addresses to 512 words. The firmware allocator is an arbitrary
  script of answers, one per request. A granted frame is page aligned, non-null, below `2^52` and not in use,
  and holds arbitrary words; any other answer counts as a refusal. The assertion in `paging.rs:163` alone would
  accept any 8-byte aligned address.
- An `Ask` is a request for so many pages ending at or below an address, and `Supply(stock, asks)` is what such a
  series leaves of the frames in use and the answers to come, or `None` if one of them is not granted. Contracts
  say with it which requests an operation makes, in which order and with which limit, and that it fails for want
  of memory exactly when this series cannot be supplied. The machine also counts refusals.
- What the operations compute is stated in the numbers of the formats (page size, flag bits, tags, entry sizes,
  character codes), apart from the definitions the operations themselves use.
- A panic of the source (`unwrap`, `expect`, `assert!`, a slice index, `todo!`, an overflow in checked arithmetic)
  is an explicit outcome of the model: `Panicked`, `NotMapped`, `Broken`, `false`, `None`.
- Frames in the bitmap allocator are frame numbers. Each of its operations runs under one lock, so the class is
  sequential.
- A node of the page table is named by the path of child indices leading to it. `WellFormed` says that every
  node is a table and that no frame serves as two nodes; `Grows` says what mapping may do to memory.

## Where the code and its comments differ

- `bitmap_allocator/src/lib.rs` packs `size_of::<usize>()` = 8 frames into a 64-bit word and compares against 64
  bits. It is right because bits 8 and above of every word stay zero (`Clean`, kept by every operation).
- The slide loop at line 134 of the same file stops one position short, so a run touching the last frame of a
  word is found only by the slow path: `FastSearchIncomplete` gives the input, `AllocateMultipleFast` the exact
  set of runs it sees, and `AllocateContiguous` the completeness of the two together.
- `new` rounds the frame count down to a multiple of 8 and panics on a region beyond that, although the
  configuration asks for a range that ends where the regions end: `NewAllocator` states exactly when it succeeds,
  `LoseLastFrame` gives a range of nine frames on which it does not.
- `load_kernel` accepts a segment whose address is not page aligned and then places its image at the start of the
  page. `PlacedImage` states where the bytes are in every case, `AlignedExactly` that this is where the ELF format
  wants them exactly when the address is aligned, and `LoadMisaligned` loads a file at 0x1001.
- A fresh table entry already has the writable bit and setting a frame keeps it, so a page mapped without the
  `WRITABLE` flag is writable all the same: `EncodedBits` gives every bit of a mapped word.
- The draw loop does not check that a row fits the framebuffer stride. `RectangleExactly` states exactly when it
  stays inside the target rectangle, `PlacesDistinct` exactly when no pixel overwrites another, and
  `OverhangingPicture` gives a picture that leaves its rectangle.
- Disjoint memory regions do not keep the identity loop from meeting `AlreadyMapped`: page numbers have 36 bits, so
  a boot stack at 2^47 + a has the identity page of the direct map of a. `HighStackCollides` gives the input,
  `BuildMaps` the exact condition, and `LowIsSeparate` shows that mapped regions ending at or below 2^47 meet it.
- Nothing keeps `relocate` from choosing a base at which addresses overflow, so that the next `relocate` or `link`
  panics: `LastBaseWins` and `RelocateLinkCommute` state exactly when the second call succeeds
  (`RoomToRelocate`, `RoomToLink`). `OverflowingBase` and `OverflowingSymbols` give bases at which it cannot, and
  `OrdersDiffer` a file that links and then relocates, but panics when relocated first.
- A symbol line that is not UTF-8 ends the iteration silently: `PrintThenParse` says exactly what is read back.

## Model

| member | source | states |
|---|---|---|
| PageEntry.SetPointedFrameUnchecked | bootloader/src/paging.rs:258-262 | bit by bit, the written word: bits 12 to 51 come from the frame, every other bit is kept or set by a flag, and the present bit is set |
| PageEntry.SetThenGet | bootloader/src/paging.rs:252-270 | reading back a written entry gives the frame cut to bits 12 to 51; flags never leak into it |
| PageEntry.MaskedFrame | bootloader/src/paging.rs:252-262 | the cut keeps exactly the page-aligned addresses below 2^52 |
| PageEntry.Indices | bootloader/src/paging.rs:22-27 | the four masked and shifted fields are the base-512 digits of the 36-bit page number |
| PageTree.TranslateIsLeaf | bootloader/src/paging.rs:60-65 | the four-step walk reads the leaf entry of the address's page number, for every memory and address |
| PageTree.UniqueParent | bootloader/src/paging.rs:156-169 | in a well-formed tree each table frame is referenced by one entry of one table, at any depth |
| PageTree.LinkedEntryBits | bootloader/src/paging.rs:156-169 | an entry linking a child is present, writable and user accessible and otherwise holds only the frame |
| PageTree.LinkTableAt | bootloader/src/paging.rs:156-169 | linking an empty child adds one node, at its path, and moves no other node of the tree |
| PageTree.LinkWellFormed | bootloader/src/paging.rs:156-169 | linking keeps the tree well formed |
| PageTree.LinkLeaf | bootloader/src/paging.rs:156-169 | linking changes no mapping |
| PageTree.LinkGrows | bootloader/src/paging.rs:156-169 | linking keeps every frame that is not a table, every existing table and the upper half of the root |
| PageTree.SetLeafTableAt | bootloader/src/paging.rs:264-270 | a leaf write moves no table |
| PageTree.SetLeafWellFormed | bootloader/src/paging.rs:264-270 | a leaf write keeps the tree well formed and touches no frame that is not a table |
| PageTree.SetLeafEntry | bootloader/src/paging.rs:258-270 | a leaf write changes the entry of one page number and of no other |
| PageTree.UpperHalfHasL3 | bootloader/src/paging.rs:41-58 | every upper-half page has its level-3 table from the start, so none is ever allocated for it |
| PageTree.UpperHalfStays | bootloader/src/paging.rs:41-77 | mapping never changes one of the 256 upper entries of the root |
| PageTree.AbsentBelow | bootloader/src/paging.rs:60-65 | a page with a missing table on its path is unmapped |
| PageRange.StepOfPage | bootloader/src/paging.rs:84-86 | which step of a range reaches a page number, with wrap-around at 2^36 |
| PageRange.RangeStep | bootloader/src/paging.rs:83-91 | one more mapped page carries the exact description of the range over, and the range cannot wrap onto itself |
| PageRange.MissingBound | bootloader/src/paging.rs:83-91 | the page after a mapped one needs a table at a level only where it enters a new region of that level |
| PageRange.CrossedBound | bootloader/src/paging.rs:83-91 | the regions met by n consecutive pages are at most ⌈n/512⌉+1 + ⌈n/512²⌉+1 + ⌈n/512³⌉+1 |
| PageRange.TablesForIs | bootloader/src/paging.rs:83-91 | the bound in terms of the fewest tables of each level that could hold the pages |
| PageRange.RangeBlocked | bootloader/src/paging.rs:83-91 | a page found mapped inside a range was mapped before it, unless the range has gone all the way round |
| PageRange.EncodedBits | bootloader/src/paging.rs:245-262 | every bit of a mapped word: frame, flags, present, and always writable |
| PageRange.LeafTranslates | bootloader/src/paging.rs:60-65 | a word written for an aligned frame translates every address of its page to that frame |
| Machines.Machine.Allocate | bootloader/src/main.rs:547-548 | grants exactly when the firmware's next answer is a fresh, aligned, non-null block of the size below the limit, with the contents it names; changes no frame in use; a refusal gives the firmware's error, is counted and changes no memory |
| Machines.SupplyMore | bootloader/src/main.rs:547-548 | a series of requests is granted exactly when its first part is and the rest is after it |
| Machines.FewerOnes | bootloader/src/main.rs:547-548 | a firmware that can supply n tables can supply fewer |
| Paging.PageTable.TryGetOrCreateChildTable | bootloader/src/paging.rs:156-169 | the child exists afterwards, was added only if absent, and no mapping changed; an absent one is one request for one frame anywhere below 2^52, and it fails exactly when the firmware's next answer does not grant it, with that error and memory as it was |
| Paging.PageTable.TryLeafTable | bootloader/src/paging.rs:71-75 | the three descents add exactly the missing tables, one request each, or stop at the first request that is not granted, with every mapping unchanged |
| Paging.PageTable.TryMapPageWith | bootloader/src/paging.rs:71-77 | success changes the leaf of exactly the page's 36-bit number, to the given frame and flags; AlreadyMapped exactly when it was mapped; AllocationError exactly when the firmware cannot supply one frame for each missing table; every failure leaves the whole mapping unchanged; the new tables are exactly the missing ones |
| Paging.PageTable.TryMapNext | bootloader/src/paging.rs:84-89 | one iteration of the range loop, with the table count |
| Paging.PageTable.TryMapRangeWith | bootloader/src/paging.rs:83-91 | exactly the first `done` pages are mapped, each to its own frame, all of them on success, and nothing else changed; the cause of a failure is exact, and one for want of memory means that the bound's number of frames could not be supplied; the table bound holds for every start and every prior tree, on failure too |
| Paging.LinkUpperHalf | bootloader/src/paging.rs:48-55 | the loop of try_new builds a root with 256 distinct empty upper-half children and nothing else |
| Paging.TryNew | bootloader/src/paging.rs:41-58 | a well-formed tree that maps nothing, with all upper-half and no lower-half entries, made of frames that were not in use; succeeds exactly when the firmware supplies one frame and then 256 in a row, and otherwise fails with the error of the request that was not granted |
| Paging.PageServed | bootloader/src/paging.rs:71-75 | a page is mapped exactly when as many frames as it misses tables can be supplied |
| Paging.KeepsTree | bootloader/src/paging.rs:156-169 | new frames beside unchanged old ones move no table and make none |
| PageRuns.RefinesStep | bootloader/src/paging.rs:71-77 | each request carries the refinement of a plain partial map over |
| PageRuns.AfterIsMapped | bootloader/src/paging.rs:71-77 | over any run, a page is in the map exactly when some request for it succeeded, and it keeps that request's word for ever |
| PageRuns.MappedOnce | bootloader/src/paging.rs:71-77 | two successful requests of a run are for different page numbers |
| PageRuns.TranslateAfter | bootloader/src/paging.rs:60-77 | after any run a page translates to the masked frame of its one successful request, or to nothing |
| PageRuns.Run | bootloader/src/paging.rs:41-77 | every series of requests on a new page table refines the partial map, AlreadyMapped is answered exactly for pages in it, allocation errors exactly where the firmware could not supply the tables missing at that moment, and the upper half of the root never changes |
| PageRuns.WhyRefused | bootloader/src/paging.rs:71-77 | in a run a request is an allocation error exactly when the tables missing at that moment could not be supplied |
| BitmapSpec.FreeFramesDetermine | bitmap_allocator/src/lib.rs:41-61 | a bitmap with bits 8 and above zero is determined by its free frames |
| BitmapSpec.AllocateThenFree | bitmap_allocator/src/lib.rs:197-217 | taking a free run and giving it back restores the bitmap bit for bit |
| BitmapSpec.FastSearchIncomplete | bitmap_allocator/src/lib.rs:134-144 | a bitmap on which the in-word search misses an existing run |
| BitmapSpec.FirstFree | bitmap_allocator/src/lib.rs:92-94 | trailing_zeros of a clean word is its lowest free frame, or 64 exactly when the word has none |
| BitmapSpec.BelowFirst | bitmap_allocator/src/lib.rs:115-134 | starting the slide at the lowest set bit skips no run |
| BitmapSpec.MaskMatches | bitmap_allocator/src/lib.rs:135-137 | shift, mask and compare ask whether n frames from the slide on are free |
| BitmapSpec.ClearTakes | bitmap_allocator/src/lib.rs:56-138 | clearing n bits of a word takes exactly those frames |
| BitmapAllocator.Allocator.constructor | bitmap_allocator/src/lib.rs:71-79 | whole words only, nothing free |
| BitmapAllocator.Allocator.SetFrame | bitmap_allocator/src/lib.rs:51-61 | changes exactly one frame, or nothing and an error exactly when out of range |
| BitmapAllocator.Allocator.GetFrame | bitmap_allocator/src/lib.rs:63-69 | the state of a frame, or an error exactly when out of range |
| BitmapAllocator.Allocator.AllocateOne | bitmap_allocator/src/lib.rs:91-103 | takes exactly the lowest free frame; fails exactly when there is none, changing nothing |
| BitmapAllocator.Allocator.AllocateMultipleFast | bitmap_allocator/src/lib.rs:105-147 | takes exactly the lowest run that lies in one word clear of its last frame; fails exactly when there is none |
| BitmapAllocator.Allocator.FindRun | bitmap_allocator/src/lib.rs:155-177 | the running-counter scan finds the lowest free run of the length, across words, or there is none |
| BitmapAllocator.Allocator.AllocateMultipleSlow | bitmap_allocator/src/lib.rs:150-191 | takes exactly the lowest free run; fails exactly when there is none, changing nothing |
| BitmapAllocator.Allocator.AllocateContiguous | bitmap_allocator/src/lib.rs:197-207 | succeeds exactly when n consecutive free frames exist, takes exactly n previously free frames, says which run it picks, and changes nothing on failure |
| BitmapAllocator.Allocator.DeallocateContiguous | bitmap_allocator/src/lib.rs:209-217 | frees exactly the block; panics exactly when it leaves the range, having freed the part inside |
| BitmapAllocator.Allocator.Push | bitmap_allocator/src/lib.rs:219-225 | takes exactly the frames of the region that are in range |
| BitmapAllocator.Allocator.AllocateAt | bitmap_allocator/src/lib.rs:227-243 | all or nothing: takes exactly the requested run when every frame is in range and free, otherwise changes nothing |
| BitmapAllocator.Allocator.FreeRegion | bitmap_allocator/src/lib.rs:255-258 | frees exactly one region; panics exactly when it leaves the range |
| BitmapAllocator.NewAllocator | bitmap_allocator/src/lib.rs:249-262 | succeeds exactly when every region lies in the range rounded down to 8 frames; then exactly the regions are free |
| BitmapAllocator.LoseLastFrame | bitmap_allocator/src/lib.rs:71-79 | the range of frames 0 to 8, all free, cannot be configured |
| BitmapRuns.TakeKeeps | bitmap_allocator/src/lib.rs:197-207 | moving a free block to the live ones keeps the partition of the initially free frames |
| BitmapRuns.GiveKeeps | bitmap_allocator/src/lib.rs:209-217 | releasing any live block keeps it |
| BitmapRuns.AvailableIsFree | bitmap_allocator/src/lib.rs:194-246 | while the partition holds, a block of initially free frames outside every live block is a free run of the bitmap, and conversely |
| BitmapRuns.AppliedTotal | bitmap_allocator/src/lib.rs:197-217 | a request changes the frames held by exactly the size of its block |
| BitmapRuns.Step | bitmap_allocator/src/lib.rs:197-246 | one request is answered as the free frames call for, moves exactly its block, and changes the free count by exactly its size |
| BitmapRuns.Run | bitmap_allocator/src/lib.rs:194-246 | over every series of requests, each answer is the one the free frames of that moment call for, the live blocks are those the answers name, they are pairwise disjoint, in range, and with the free frames partition the initially free ones; the free count drops by exactly their sizes |
| BitmapRuns.AllocateAndRelease | bitmap_allocator/src/lib.rs:197-217 | allocating and releasing leaves the bitmap as it was, and succeeds exactly when a run exists |
| PhysicalBytes.WriteThenRead | bootloader/src/elf.rs:37-49 | a byte write changes that byte of physical memory and no other |
| PhysicalBytes.ByteOfWord | bootloader/src/elf.rs:37-49 | which eight bits of which word of which frame a byte of physical memory is |
| PhysicalBytes.WriteBytes | bootloader/src/elf.rs:37-49 | copying or zeroing inside a block changes those bytes and nothing else |
| Loader.LoadSegment | bootloader/src/elf.rs:26-56 | a fresh block, in low memory if asked, holding file bytes and then zeros; nothing in use before is touched; it succeeds exactly when the firmware grants its page count, below 0x100000 for a low-memory segment and anywhere otherwise, the file range exists and the file size does not exceed the memory size |
| Loader.PlacedStays | bootloader/src/elf.rs:74-95 | later segments and new page tables never disturb a loaded segment |
| Loader.MappedIsPlaced | bootloader/src/elf.rs:76-92 | mapping the filled block puts the segment in place on pages that were unmapped |
| Loader.LoadAndMap | bootloader/src/elf.rs:75-95 | one round of the loop: the segment is in place, only its pages were added and everything before is preserved; it succeeds exactly when its block and then its tables can be supplied, the segment fits and its pages were unmapped |
| Loader.LoadKernel | bootloader/src/elf.rs:65-103 | a well-placed file loads exactly when the firmware supplies the root and its 256 tables and then, segment by segment, the block and the tables; any other file does not load; on success every LOAD and TLS segment is in place, on pairwise disjoint pages, and no other page is mapped; the address range contains them all and is tight; the TLS range is that of the last TLS segment |
| ProgramHeader.PagesNeeded | bootloader/src/elf.rs:31-32 | a segment has the fewest 4096-byte pages that hold its memory, none if it is empty |
| ProgramHeader.PagesEnd | bootloader/src/elf.rs:78 | its pages end less than a page after its memory, a whole number of pages from its start |
| Loader.SpanCovers | bootloader/src/elf.rs:78-80 | the address range covers the memory of every segment of type 1 or 7 and ends less than a page after that of one of them |
| Loader.ApartIsWellPlaced | bootloader/src/elf.rs:74-95 | page-aligned segments on disjoint ranges within 2^48 bytes of each other, inside the file and not larger in it than in memory, are well placed |
| Loader.NextIsMappable | bootloader/src/elf.rs:87-92 | in a file whose segments have their pages to themselves, the unwrap of the mapping cannot meet AlreadyMapped |
| Loader.TlsIsLast | bootloader/src/elf.rs:82-85 | the TLS range is that of the last TLS segment |
| Loader.PlacedTranslates | bootloader/src/elf.rs:87-92 | the pages from the one holding vaddr on translate, in order, to the segment's block |
| Loader.PlacedImage | bootloader/src/elf.rs:37-49 | through the page table, the image appears from the start of the page holding vaddr on, for any vaddr |
| Loader.KernelImage | bootloader/src/elf.rs:65-103 | after loading, the byte at vaddr+k of every page-aligned segment of type 1 or 7 is byte offset+k of the file below the file size and 0 up to the memory size |
| Loader.AlignedExactly | bootloader/src/elf.rs:51-92 | every access at vaddr+k lands on byte k of the block exactly when vaddr is page aligned |
| Loader.LoadMisaligned | bootloader/src/elf.rs:51-92 | a file with one byte at 0x1001 loads whenever nothing is refused, reads back at 0x1000, and the access at 0x1001 misses it |
| DirectMap.MapWindow | bootloader/src/main.rs:737-741 | one loop maps exactly the pages up to the one that stopped it, to their own frames, all distinct and unmapped before, and nothing else; all of them on success; AlreadyMapped only if two pages coincide or one was mapped before, the size panic only beyond the limit, an allocation error exactly on a refusal |
| DirectMap.NewPageDistinct | bootloader/src/main.rs:737-741 | a page found unmapped differs from every page the loop mapped before it |
| DirectMap.WhyMapped | bootloader/src/main.rs:740-741 | a page found mapped was mapped before the loop or met twice |
| DirectMap.ApartIsDistinct | bootloader/src/main.rs:737-741 | regions that share no address use distinct virtual pages |
| DirectMap.WindowStays | bootloader/src/main.rs:744-755 | the identity loop cannot disturb the direct map |
| DirectMap.WindowTranslates | bootloader/src/main.rs:737-741 | every address of a mapped region translates to its own frame |
| DirectMap.StillUnmapped | bootloader/src/main.rs:718-755 | the identity window is unmapped after the first loop exactly when it was before both and shares no page with the direct map |
| DirectMap.FitsExactly | bootloader/src/main.rs:739 | the size assertion holds throughout exactly when the last page of every usable region begins below 2^46 |
| DirectMap.BuildMaps | bootloader/src/main.rs:718-755 | success exactly when nothing was refused, the last page of every usable region begins below 2^46, and the pages of both windows are distinct and were unmapped; without a refusal or size panic, AlreadyMapped exactly when two pages coincide within or across the windows or one was mapped before; on success every page of both windows is mapped to its own frame, so that every address of an aligned usable region translates from 0xffff_8000_0000_0000 + a to a, and of loader and stack regions below 2^52 also from a to a; in every outcome tables only grow, and mapped pages and pages outside both windows keep their entries |
| DirectMap.UsableTranslates | bootloader/src/main.rs:718-742 | after success every address below 2^47 of an aligned region of the fourteen types translates from 0xffff_8000_0000_0000 + a to the page of a |
| DirectMap.LoadersTranslate | bootloader/src/main.rs:744-755 | after success every address of the loader's code and data and of the region of its stack translates to its own page |
| DirectMap.NothingElse | bootloader/src/main.rs:718-755 | an address on neither image translates as before, whatever the outcome, so memory of any other type is not mapped |
| DirectMap.LowIsSeparate | bootloader/src/main.rs:718-755 | regions that share no address, those mapped ending at or below 2^47, and unmapped windows cannot meet AlreadyMapped |
| DirectMap.HighStackCollides | bootloader/src/main.rs:744-754 | a memory map of disjoint, aligned, fitting regions on which pages of the two windows coincide |
| DirectMap.MapHighStack | bootloader/src/main.rs:744-754 | on it the loops end in AlreadyMapped whenever nothing is refused |
| Loader.SpansExactly | bootloader/src/elf.rs:78-80 | the address range is the lowest address and the highest end of a loadable segment |
| Handover.KernelSurvives | bootloader/src/main.rs:640-755 | a kernel in place stays in place through every step that keeps mapped pages and frames that are not tables |
| Handover.MapStack | bootloader/src/main.rs:678-688 | a fresh block of 32 pages, mapped in order at the stack's pages and at no others, exactly when the block and then its tables can be supplied and those pages were unmapped |
| Handover.Layout | bootloader/src/main.rs:645-686 | the framebuffer ends at the page of the kernel's first byte, the 32 pages of the stack end where it begins, and a page is left below them |
| Handover.RoomIs | bootloader/src/main.rs:645-686 | there is room around the kernel exactly when no address subtracted or rounded up leaves the 64 bits |
| Handover.FramebufferPages | bootloader/src/main.rs:645 | the fewest pages that hold the framebuffer |
| Handover.FramebufferBit | bootloader/src/main.rs:656 | the framebuffer's flags are exactly bits 1, 3, 4 and 63 |
| Handover.FramebufferMapped | bootloader/src/main.rs:636-657 | exactly the pages of the framebuffer before the first one the kernel has are mapped, all of them if there is none |
| Handover.WindowsUnmapped | bootloader/src/main.rs:718-755 | both windows are unmapped exactly when no page of the kernel, the framebuffer or the stack lies in them |
| Handover.GuardPage | bootloader/src/main.rs:680 | the guard page below the stack is unmapped exactly when neither the kernel, the framebuffer nor a window has it |
| Handover.Boot | bootloader/src/main.rs:547-755 | from the ELF file on, loading the kernel and mapping framebuffer, stack and both windows succeed exactly when nothing but the framebuffer was refused, the file is well placed with room around it, usable memory fits and the pages of all parts are different; where only the firmware can be the cause, failure means that the requests for the kernel, the stack or the windows could not be supplied; on success exactly those pages are mapped, the framebuffer and the stack to their own frames, every aligned segment reads back as its memory image and both windows translate |
| MemoryMap.Coalesce | bootloader/src/main.rs:791-804 | the fold computes the merged map and never pushes more entries than it read |
| MemoryMap.MergeKeepsTypes | bootloader/src/main.rs:791-804 | merging keeps the type of every physical address |
| MemoryMap.MergeSorted | bootloader/src/main.rs:786-804 | merging keeps entries sorted and disjoint |
| MemoryMap.MergeCoalesced | bootloader/src/main.rs:791-801 | no adjacent pair of the result could be merged |
| MemoryMap.MergeIdempotent | bootloader/src/main.rs:791-804 | merging twice is merging once, for any list |
| MemoryMap.MergeCanonical | bootloader/src/main.rs:786-806 | two sorted maps giving every address the same type are merged into the same kernel map |
| MemoryMap.KernelMapTypes | bootloader/src/main.rs:758-806 | the kernel map gives an address a type exactly when a firmware entry covering it converts to that type |
| MemoryMap.KindsInKernelMap | bootloader/src/main.rs:762-778 | the kernel map's type of every address, for each type the firmware can give it |
| MemoryMap.OneType | bootloader/src/main.rs:786-806 | a sorted map gives an address one type at most |
| MemoryMap.UsableIsReachable | bootloader/src/main.rs:718-806 | whatever the kernel map does not call reserved translates from 0xffff_8000_0000_0000 + a to the page of a |
| ElfAddress.OffsetIndependent | elf/src/lib.rs:120-139 | the file offset of an unrelocated address, for reading and for writing, is the same at every base, or an overflow at that base makes the lookup panic |
| ElfAddress.LookupExactly | elf/src/lib.rs:85-139 | a lookup that works at base zero works at another base exactly when no segment it looks at overflows there |
| ElfAddress.LookupIs | elf/src/lib.rs:95-139 | the file offset of an address is that of the first segment holding it plus the distance from its start; there is none exactly when the segment runs past the file, for writing also when it meets a header, or a segment up to it overflows at the base |
| ElfAddress.LookupMisses | elf/src/lib.rs:120-139 | an address no segment holds has no file offset |
| ElfWrites.WrittenByte | elf/src/relocation.rs:149-156 | each byte after a series of writes comes from the last write covering it |
| ElfWrites.OutsideUntouched | elf/src/relocation.rs:149-156 | bytes outside every slot are untouched |
| ElfWrites.LastEntryHolds | elf/src/relocation.rs:149-156 | a slot holds what the last entry for it wrote |
| ElfWrites.SecondRoundWins | elf/src/relocation.rs:141-159 | writing the same slots again makes the first round invisible |
| ElfWrites.DisjointCommute | elf/src/relocation.rs:141-186 | series of writes to disjoint slots commute |
| ElfPlan.TargetHasPut | elf/src/relocation.rs:141-186 | in a loop that ran to its end every entry was good, and its write stands in order |
| ElfPlan.SlotHolds | elf/src/relocation.rs:149-180 | after such a loop a slot holds what its entry wrote, unless a later entry reaches into it |
| ElfTables.TablesMove | elf/src/relocation.rs:63-139 | the relocation and jump tables are found at the same file offsets at every base, or an overflow at that base panics |
| ElfTables.TablesExactly | elf/src/relocation.rs:63-101 | the relocation tables found at base zero are found at another base exactly when nothing looked at overflows there |
| ElfTables.JumpTableExactly | elf/src/relocation.rs:103-139 | the same for the jump table |
| ElfTables.RelocationsClear | elf/src/relocation.rs:63-101 | writes clear of the dynamic and relocation tables leave the decoded relocations as they were, at every base |
| ElfTables.JumpsClear | elf/src/relocation.rs:103-139 | writes clear of the dynamic and jump tables leave the decoded jump table as it was, at every base |
| ElfFormat.RelaIs | elf/src/relocation.rs:54-60 | a relocation entry is 24 bytes: offset, info word, addend, little-endian |
| ElfFormat.InfoIs | elf/src/relocation.rs:24-30 | the info word is the symbol index times 2^32 plus the type |
| ElfFormat.DynIs | elf/src/dynamic_table.rs:99-124 | entry k of the dynamic table is the tag and the value in its 16 bytes |
| ElfFormat.AddressTags | elf/src/dynamic_table.rs:16-90 | the entries that are relocated are those of tags 3 to 7, 12, 13, 17 and 23 |
| ElfFormat.DynamicIs | elf/src/dynamic_table.rs:99-136 | the dynamic table is that of the first segment of type 2, when it is aligned and inside the file and no segment up to it overflows |
| ElfFormat.FindIs | elf/src/relocation.rs:104-118 | searching for a tag gives its first entry, for tag 20 the first whose value is 7 or 17, unless an address up to it overflows |
| ElfFormat.FindMisses | elf/src/relocation.rs:104-118 | a tag without an entry is not found |
| ElfFormat.ValuesAre | elf/src/relocation.rs:64-90 | the values of a tag are collected in the order of the entries |
| ElfFormat.TablesAre | elf/src/relocation.rs:63-101 | table i begins at the i-th value of tag 7 and has a 24th of the i-th value of tag 8 entries; the shorter of the two lists counts; the tables of tags 17 and 18 are empty |
| ElfFormat.EntriesOf | elf/src/relocation.rs:92-100 | the relocations are the entries of the tables in order |
| ElfFormat.JumpTableIs | elf/src/relocation.rs:103-139 | the jump table is at the value of tag 23 and has a 24th of the value of tag 2 entries if tag 20 says 7, none if it says 17; exactly when there is none |
| ElfNames.NamesExactly | elf/src/symbol_table.rs:37-55 | the symbol, hash and string tables found at base zero are found at another base exactly when nothing looked at overflows there |
| ElfNames.NamesClear | elf/src/string_table.rs:26-42 | writes clear of what linking reads leave the places and sizes of these tables as they were, at every base |
| ElfNames.NameClear | elf/src/string_table.rs:10-13 | writes clear of the symbols and strings leave every symbol's name as it was |
| ElfFormat.NamePlacesAre | elf/src/symbol_table.rs:37-55 | symbols, hash table and strings are at the values of tags 6, 4 and 5, the strings' length is that of tag 10; exactly when one is missing |
| ElfFormat.NameTablesAre | elf/src/symbol_table.rs:48-51 | there are as many symbols as the second 32-bit word of the hash table says |
| ElfFormat.CStringIs | elf/src/string_table.rs:10-13 | a string is exactly the bytes before the first zero, inside the table |
| ElfFormat.NameIs | elf/src/string_table.rs:10-13 | the name of a symbol is the string at the 32-bit number its 24 bytes begin with, which must not be zero and lie inside the strings |
| ElfNames.StillClear | elf/src/relocation.rs:141-186 | writes clear of what linking reads are still clear of it after other clear writes |
| ElfRelocate.RelocateMoves | elf/src/relocation.rs:141-159 | what relocation writes does not depend on the previous base, unless an address overflows at it and relocation panics |
| ElfRelocate.RelocateExactly | elf/src/relocation.rs:141-159 | a file that can be relocated at base zero can be at another base, with the same writes, exactly when nothing looked at overflows there |
| ElfRelocate.OverflowingBase | elf/src/lib.rs:85-93 | a file based so high that its first segment overflows cannot be relocated |
| ElfRelocate.LastBaseWins | elf/src/relocation.rs:141-159 | when the Relative slots are clear of the dynamic and relocation tables, relocating to a and then to b writes and leaves what relocating to b alone does; the second succeeds exactly when nothing it looks at overflows at a |
| ElfRelocate.RelocatedSlot | elf/src/relocation.rs:149-153 | after relocation the slot of an entry of type 8, at the offset of the first segment holding its address plus the distance from its start, holds base plus addend modulo 2^64, unless a later entry reaches into it |
| ElfRelocate.RelocTargetIs | elf/src/relocation.rs:141-159 | what an entry does: type 8 writes base plus addend at its file offset, type 7 does nothing, any other type or a lookup that fails panics |
| ElfLink.LinkEntry | elf/src/relocation.rs:166-180 | a finished link has exactly one write per entry: the address the symbol map gives the entry's name, at the entry's file offset |
| ElfLink.LinkedSlot | elf/src/relocation.rs:166-180 | after a finished link a call slot, at the offset of the first segment holding its address plus the distance from its start, holds the address the symbol map gives the entry's name, unless a later entry reaches into it |
| ElfLink.LinkTargetIs | elf/src/relocation.rs:166-180 | what an entry does: a name the map lacks stops the link, an entry of type 7 writes the symbol's address at its file offset, anything else panics |
| ElfLink.LinkAfterWrites | elf/src/relocation.rs:161-186 | what linking writes does not depend on writes clear of the dynamic, jump, symbol, hash and string tables |
| ElfLink.LinkExactly | elf/src/relocation.rs:161-186 | a file that can be linked at base zero can be at another base, with the same writes, exactly when nothing looked at overflows there: dynamic entries, segments searched for the tables, and slots |
| ElfLink.OverflowingSymbols | elf/src/relocation.rs:161-163 | a file based so high that the address of its symbol table overflows cannot be linked |
| ElfFile.RoomyIsRoom | elf/src/relocation.rs:141-186 | where every segment and every address of the dynamic table fits, nothing looked at overflows |
| ElfFile.RelocateLinkCommute | elf/src/relocation.rs:141-186 | on disjoint slots, the relocated ones clear of what linking reads and the linked ones of what either reads, each of relocation and linking does after the other what it would have done first, and both orders leave the same bytes; linking second succeeds exactly when nothing it looks at overflows at the new base |
| ElfLink.LinkIsPlan | elf/src/relocation.rs:161-186 | if no planned slot reaches into the tables, the loop that reads entries, symbols and names while writing carries out the plan made from the tables as they were |
| ElfFile.File.Store64 | elf/src/relocation.rs:152 | the 64-bit store as a change of the file bytes |
| ElfFile.File.Relocate | elf/src/relocation.rs:141-159 | in place, exactly the Relative writes for the new base, or those before the entry it panics at: one without a target, of a foreign type, with a header in its segment or an address that overflows; a dynamic table that is missing, outside the file or misaligned panics at once |
| ElfFile.File.Link | elf/src/relocation.rs:161-186 | bytes and result of the loop for every file, each entry, symbol and name read from the bytes left by the entries before it; a name the symbol map lacks stops it after the slots before |
| ElfFile.RelocateTwice | elf/src/relocation.rs:141-159 | calling relocate twice leaves the bytes and base of the second call alone; the second call succeeds exactly when nothing it looks at overflows at the first base |
| ElfFile.RelocateThenLink | elf/src/relocation.rs:141-186 | calling relocate and then link leaves the bytes of both; link succeeds exactly when nothing it looks at overflows at the new base |
| ElfFile.LinkThenRelocate | elf/src/relocation.rs:141-186 | calling link and then relocate succeeds and leaves the same bytes |
| ElfFile.OrdersDiffer | elf/src/relocation.rs:141-186 | a file of one dynamic segment on which link and then relocate succeed and relocate and then link panic |
| Bmp.InBounds | kernel/src/bmp.rs:41-58 | every byte read for a pixel of a complete image lies in the pixel data |
| Bmp.CompleteExactly | kernel/src/bmp.rs:41-58 | all width·height pixels can be read exactly when the pixel data is complete |
| Bmp.StrideIs | kernel/src/bmp.rs:41-42 | for a positive width the stride is the least multiple of four that holds a row |
| Bmp.StrideWraps | kernel/src/bmp.rs:42-44 | the stride of an image whose width is not positive, as it wraps around |
| Bmp.StrideFits | kernel/src/bmp.rs:42 | there is a stride exactly when its computation stays within 32 bits |
| Bmp.ColourIs | kernel/src/bmp.rs:41-60 | the colour of column and row is the number with the first byte lowest, of the three bytes of the pixel or of the last three of four; exactly when there is none |
| Bmp.AsUsizeIs | kernel/src/bmp.rs:39-44 | a size as an unsigned number is congruent to it modulo 2^64 |
| Bmp.BmpIterator.Next | kernel/src/bmp.rs:38-69 | for every image, call k yields pixel k, from stored row height-1-k/width and column k mod width, and the iteration ends after exactly width·height of them; a call panics exactly when the bytes of its pixel are missing, its row overflows 32 bits or its size is unsupported; negative sizes wrap around and a width of zero counts as one |
| Bmp.PlacesDistinct | kernel/src/main.rs:371-377 | distinct pixels have distinct framebuffer places exactly when a row fits the stride or there is one row |
| Bmp.PaintOne | kernel/src/main.rs:373-374 | one more pixel is put in its place; a place shows the last pixel drawn there |
| Bmp.FitsExactly | kernel/src/main.rs:373-377 | every pixel has its place in the framebuffer exactly when the last one has |
| Bmp.Draw | kernel/src/main.rs:366-377 | for every image and stride, each place shows the last pixel drawn there and nothing else changed, up to the first pixel that cannot be read or is past the framebuffer; success exactly when there is none |
| Bmp.AllVisible | kernel/src/main.rs:371-377 | when a row fits the stride, or there is one row, every pixel is in its place |
| Bmp.RectangleExactly | kernel/src/main.rs:368-377 | drawing stays inside the target rectangle exactly when x0 + width is at most the stride |
| Bmp.OverhangingPicture | kernel/src/main.rs:373-377 | a picture two pixels wide at column 3 of a stride of 4 leaves its rectangle |
| Bmp.DrawnIsRectangle | kernel/src/main.rs:368-377 | when a row ends within the stride, the places drawn are exactly the target rectangle |
| SymbolMap.HexRoundTrip | kernel/src/panicking.rs:38 | printing in hexadecimal and parsing gives the number back |
| SymbolMap.HexDigitIs | kernel/src/panicking.rs:38 | a character is a digit exactly when it is at its place in 0123456789abcdef or 0123456789ABCDEF |
| SymbolMap.RadixIs | kernel/src/panicking.rs:38 | an optional plus sign, then at least one digit |
| SymbolMap.Utf8Exactly | kernel/src/panicking.rs:35 | text is exactly what encodes a series of characters in UTF-8 (section 3 of RFC 3629) |
| SymbolMap.BoundaryExactly | kernel/src/panicking.rs:36-37 | a text can be cut at a position exactly when the part before it is text |
| SymbolMap.LineIs | kernel/src/panicking.rs:35-42 | a line of text panics exactly when it is shorter than 19 bytes or cannot be cut after 16 and 19; otherwise its address is the number in its first 16 bytes and its name is the rest after 19 |
| SymbolMap.SymbolMapIterator.Next | kernel/src/panicking.rs:28-43 | the scan for a newline yields the parsed line and steps past it, ends on text that is not UTF-8 or digits that do not parse, or panics on a missing newline, a short line or a cut inside a character |
| SymbolMap.DataIsText | kernel/src/panicking.rs:35 | a printed line is UTF-8 exactly when its type letter is ASCII and its name is UTF-8 |
| SymbolMap.ParseLine | kernel/src/panicking.rs:28-43 | a printed line, anywhere in a text, is read back as its symbol exactly when it is UTF-8 and otherwise ends the iteration |
| SymbolMap.LineText | README.md:33 | a printed line is sixteen digits, a space, the type letter, a space, the name and a newline |
| SymbolMap.PrintThenParse | README.md:33 | printing any list of one-line symbols and iterating the text gives back the symbols before the first that is not UTF-8 and ends without a panic: the whole list exactly when all are |
| SymbolMap.ScanIsItems | kernel/src/panicking.rs:52-55 | the lookup loop depends on the items read alone, and panics exactly when the text does and no item before ends the loop |
| SymbolMap.EarlyExit | kernel/src/panicking.rs:52-55 | on any list the loop is a full scan of the items before the first one above ip |
| SymbolMap.GetSymbolName | kernel/src/panicking.rs:46-56 | for every text, the last symbol at or below ip among those before the first one above it, among all of them if they ascend; `<unknown>` if there is none and `<no symbols>` without a map; exactly when it panics |
| SymbolMap.EarlyExitIsFullScan | kernel/src/panicking.rs:52-55 | on ascending addresses leaving the loop early equals a full scan |
| SymbolMap.LastAtOrBelowIs | kernel/src/panicking.rs:52-55 | the full scan returns the last item with a nonzero address not above ip |
| SymbolMap.NothingBelow | kernel/src/panicking.rs:51-56 | the fallback name where no item has a nonzero address not above ip |
| SymbolMap.LookupPrinted | kernel/src/panicking.rs:46-56 | on a printed ascending map the lookup finds the last symbol at or below ip |

## Left out

- UEFI protocols, menus, input, fonts, the disk-image builder and inline assembly: input and output around the memory core.
- `SpecificLocation::Aligned` and `Below` of the frame allocator: unimplemented in the source.
- Building the symbol map (`exported_symbols`, with its strong and weak symbols): linking takes the map from names to addresses as given.
- `elf::File::try_new` and the file header: the program headers and the header ranges are given, and the file lies at an 8-byte aligned address.
- Tables, slots and names of an ELF file that run past its bytes or past their table: the source reads and writes them through raw pointers; the model panics.
- Sorting the firmware memory map: library code; the merged list is taken sorted and disjoint.
- Flags of leaf entries beyond their bits: how a processor acts on them is not modelled.
- `kernel_default_heap`, threading, timers and ACPI: hardware facing or easy.
- Paging.PageTable.TryMapRangeWith: asks for a range whose addresses fit 64 bits; past that the additions overflow.
- Loader.LoadSegment: says nothing of memory when the file size exceeds the memory size, because the source copies past its allocation before the subtraction that panics.
- DirectMap.BuildMaps: asks for regions that end within 64 bits, as the firmware's are.
- Handover.Boot: leaves out what the source does in between without touching the page table, such as reading the kernel's exported symbols, and asks for a framebuffer that ends within 64 bits.
