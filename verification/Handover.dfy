/**
 From the ELF file to the page table the kernel starts on: loading it, mapping the framebuffer and the
 kernel's stack below it, and building the direct and the identity map around all of them.
 */
module Handover {
  import opened Bits
  import opened Options
  import opened PageEntry
  import opened PageTree
  import opened PageRange
  import opened Machines
  import opened PhysicalBytes
  import opened Paging
  import opened ProgramHeader
  import opened Loader
  import DirectMap

  const STACK_PAGES: nat := 32

  /** `WRITABLE | NO_EXECUTE | MMIO`. */
  const FRAMEBUFFER_FLAGS: u64 := 0x8000_0000_0000_001a

  datatype Framebuffer = Framebuffer(addr: u64, size: nat) {
    function Pages(): nat { CeilDiv(size, PAGE_SIZE) }
  }

  /** Just enough pages for the framebuffer. */
  lemma FramebufferPages(framebuffer: Framebuffer)
    ensures framebuffer.size <= framebuffer.Pages() * 4096 < framebuffer.size + 4096
  {
  }

  /** Writable, not cached, written through, not executable: bits 1, 3, 4 and 63. */
  lemma FramebufferBit(i: nat)
    ensures Bit(FRAMEBUFFER_FLAGS, i) <==> i in {1, 3, 4, 63}
  {
    HalfWord();
    Powers();
    if i < 5 {
      ModBit(FRAMEBUFFER_FLAGS, 5, i);
    } else if i < 63 {
      ModBit(FRAMEBUFFER_FLAGS, 63, i);
      HighBit(26, 5, i);
    } else if i == 63 {
      ShrBit(FRAMEBUFFER_FLAGS, 63, 0);
      ShrIsDiv(FRAMEBUFFER_FLAGS, 63);
    } else {
      HighBit(FRAMEBUFFER_FLAGS, 64, i);
    }
  }

  lemma FramebufferFlags()
    ensures IsFlags(FRAMEBUFFER_FLAGS)
  {
    forall i: nat | 10 <= i < 63
      ensures !Bit(FRAMEBUFFER_FLAGS, i)
    {
      FramebufferBit(i);
    }
  }

  lemma HalfWord()
    ensures Pow2(63) == 0x8000_0000_0000_0000 && Pow2(5) == 32
  {
    Powers();
    assert Pow2(64) == 2 * Pow2(63);
  }

  // ---------- which pages are mapped ----------

  ghost predicate KernelPage(file: ElfFile, w: nat) {
    exists i: nat :: i < |file.segments| && file.segments[i].Loadable() && HasPage(file.segments[i], w)
  }

  /** The `count` pages from `start` on. */
  datatype Pages = Pages(start: nat, count: nat) {
    predicate Has(w: nat) { w < PAGE_NUMBERS && StepOf(start, w) < count }
  }

  const NO_PAGES: Pages := Pages(0, 0)

  /** Exactly the pages of the kernel and of the two ranges are mapped. */
  ghost predicate MapsExactly(mem: Memory, root: u64, file: ElfFile, fb: Pages, stack: Pages) {
    forall w: nat :: LeafEntry(mem, root, w).Some? <==> KernelPage(file, w) || fb.Has(w) || stack.Has(w)
  }

  /** Exactly the pages of the range were added. */
  ghost predicate Adds(before: Memory, mem: Memory, root: u64, range: Pages) {
    && (forall w: nat :: LeafEntry(mem, root, w).Some? <==> LeafEntry(before, root, w).Some? || range.Has(w))
    && (forall w: nat | range.Has(w) :: LeafEntry(before, root, w) == None)
  }

  /** No page of the range is mapped. */
  ghost predicate Unused(mem: Memory, root: u64, range: Pages) {
    forall w: nat | range.Has(w) :: LeafEntry(mem, root, w) == None
  }

  lemma RangeAdds(
      before: Memory, mem: Memory, root: u64, pageStart: u64, frameStart: u64, flags: u64, done: nat)
    requires RangeMapped(before, mem, root, pageStart, frameStart, flags, done)
    ensures Adds(before, mem, root, Pages(pageStart, done))
  {
    hide LeafEntry, Encoded, StepOf;
  }

  /** The pages of a range map, in order, to the frames from `frame` on. */
  ghost predicate MapsTo(mem: Memory, root: u64, range: Pages, frame: nat, flags: u64) {
    forall p: nat | p < range.count :: MapsPage(mem, root, range.start, frame, flags, p)
  }

  predicate MapsPage(mem: Memory, root: u64, start: nat, frame: nat, flags: u64, p: nat) {
    Fits(frame, p) &&
    LeafEntry(mem, root, PageNumber(start + p * PAGE_SIZE)) == Some(Encoded(frame + p * PAGE_SIZE, flags))
  }

  lemma RangeMapsTo(
      before: Memory, mem: Memory, root: u64, pageStart: u64, frameStart: u64, flags: u64, done: nat)
    requires RangeMapped(before, mem, root, pageStart, frameStart, flags, done) && done <= PAGE_NUMBERS
    ensures MapsTo(mem, root, Pages(pageStart, done), frameStart, flags)
  {
    hide LeafEntry, Encoded, RangeMapped, PageNumber;
    forall p: nat | p < done
      ensures MapsPage(mem, root, pageStart, frameStart, flags, p)
    {
      RangeLeaf(before, mem, root, pageStart, frameStart, flags, done, p);
    }
  }

  lemma MapsToStays(before: Memory, mem: Memory, root: u64, range: Pages, frame: nat, flags: u64)
    requires MapsTo(before, root, range, frame, flags) && Preserves(before, mem, root)
    ensures MapsTo(mem, root, range, frame, flags)
  {
    hide LeafEntry, Encoded, PageNumber, IsNode;
    forall p: nat | p < range.count
      ensures MapsPage(mem, root, range.start, frame, flags, p)
    {
      assert MapsPage(before, root, range.start, frame, flags, p);
    }
  }

  /** A loaded kernel stays in place while tables grow and mapped pages keep their entries. */
  lemma KernelSurvives(before: Memory, mem: Memory, root: u64, file: ElfFile, segments: seq<Segment>, phys: seq<nat>)
    requires InPlace(before, root, file, segments, phys) && Preserves(before, mem, root)
    ensures InPlace(mem, root, file, segments, phys)
  {
    hide Placed, PagesDisjoint, Preserves;
    forall i: nat | i < |segments| && segments[i].Loadable()
      ensures Placed(mem, root, file, segments[i], phys[i])
    {
      PlacedStays(before, mem, root, file, segments[i], phys[i]);
    }
  }

  lemma KernelMapped(mem: Memory, root: u64, file: ElfFile, phys: seq<nat>)
    requires InPlace(mem, root, file, file.segments, phys) && OnlyPages(mem, root, file.segments)
    ensures MapsExactly(mem, root, file, NO_PAGES, NO_PAGES)
  {
    hide PagesDisjoint, LeafEntry, HoldsImage, IsNode, Encoded, PageNumber;
    forall w: nat
      ensures LeafEntry(mem, root, w).Some? <==> KernelPage(file, w)
    {
      if KernelPage(file, w) {
        var i: nat :| i < |file.segments| && file.segments[i].Loadable() && HasPage(file.segments[i], w);
        var p: nat :| p < file.segments[i].PageCount() && file.segments[i].NumberOf(p) == w;
        assert Placed(mem, root, file, file.segments[i], phys[i]);
        assert LeafEntry(mem, root, file.segments[i].NumberOf(p)).Some?;
      }
    }
  }

  // ---------- the kernel's stack ----------

  /** The requests for the stack: a block of 32 pages, then the tables its pages need. */
  function StackAsks(tables: nat): seq<Ask> {
    [Ask(32, 0x10_0000_0000_0000)] + Ones(tables)
  }

  lemma StackSupply(stock: Stock, tables: nat)
    ensures var ask := Ask(32, 0x10_0000_0000_0000);
            Supply(stock, StackAsks(tables)) ==
            if Honours(stock, ask) then Supply(Honoured(stock, ask), Ones(tables)) else None
  {
    hide Honours;
    SupplyMore(stock, [Ask(32, 0x10_0000_0000_0000)], Ones(tables));
    SupplyOne(stock, Ask(32, 0x10_0000_0000_0000));
  }

  /** The frames of the stack were not in use before and are no tables. */
  ghost predicate OwnBlock(before: Memory, mem: Memory, root: u64, frame: nat) {
    forall f | f in Block(frame, STACK_PAGES) :: f in mem && f !in before && !IsNode(mem, root, f)
  }

  lemma StackGranted(before: Memory, granted: Memory, root: u64, frame: nat)
    requires WellFormed(before, root) && UpperLinked(before, root) && Granted(before, granted, frame, STACK_PAGES)
    ensures WellFormed(granted, root) && UpperLinked(granted, root)
    ensures Preserves(before, granted, root) && SameLeaves(before, granted, root)
    ensures OwnBlock(before, granted, root, frame) && frame + STACK_PAGES * PAGE_SIZE <= PHYSICAL_LIMIT
  {
    FilledPreserves(before, granted, root, frame, STACK_PAGES);
  }

  /** Allocates the stack and maps it; `None` is a panic. */
  method MapStack(table: PageTable, start: u64) returns (frame: Option<u64>, ghost tables: nat)
    requires table.Valid() && Fits(start, STACK_PAGES - 1)
    modifies table.machine
    ensures table.machine.refusals >= old(table.machine.refusals)
    ensures frame.Some? <==>
            && table.machine.refusals == old(table.machine.refusals)
            && old(Unused(table.machine.memory, table.root, Pages(start, STACK_PAGES)))
    ensures tables <= TablesFor(STACK_PAGES)
    ensures frame.Some? <==>
            && Supply(old(table.machine.Stocked()), StackAsks(tables)).Some?
            && old(Unused(table.machine.memory, table.root, Pages(start, STACK_PAGES)))
    ensures frame.Some? ==> Supply(old(table.machine.Stocked()), StackAsks(tables)) == Some(table.machine.Stocked())
    ensures frame.Some? ==>
              && table.Valid() && Preserves(old(table.machine.memory), table.machine.memory, table.root)
              && Adds(old(table.machine.memory), table.machine.memory, table.root, Pages(start, STACK_PAGES))
              && MapsTo(table.machine.memory, table.root, Pages(start, STACK_PAGES), frame.value, 0)
              && OwnBlock(old(table.machine.memory), table.machine.memory, table.root, frame.value)
  {
    hide WellFormed, Grows, RangeMapped, Preserves, Adds, MapsTo, LeafEntry, SameLeaves, PageNumber, IsNode, StepOf;
    hide Honours, Honoured, Supply, Ones, StackAsks, Served, TablesFor, FailsWith, UpperLinked, Unused, Framed;
    hide Granted, OwnBlock, Block;
    ghost var before, stock := table.machine.memory, table.machine.Stocked();
    tables := 0;
    StackSupply(stock, 0);
    var allocation := table.machine.Allocate(STACK_PAGES, PHYSICAL_LIMIT);
    if allocation.Err? {
      return None, tables;
    }
    ghost var granted, so := table.machine.memory, table.machine.Stocked();
    StackGranted(before, granted, table.root, allocation.value);
    NoFlags();
    var mapped, done := table.TryMapRangeWith(start, allocation.value, STACK_PAGES, 0);
    StackLeaves(before, granted, table.machine.memory, table.root, start, allocation.value, mapped, done);
    if mapped != Mapped {
      tables := TablesFor(STACK_PAGES);
      StackSupply(stock, tables);
      return None, tables;
    }
    AllServed(so, table.machine.Stocked(), granted, table.machine.memory);
    tables := |table.machine.memory| - |granted|;
    StackSupply(stock, tables);
    StackKept(before, granted, table.machine.memory, table.root, start, allocation.value);
    return Some(allocation.value), tables;
  }

  lemma StackLeaves(
      before: Memory, granted: Memory, mem: Memory, root: u64, start: u64, frame: u64, mapped: MapResult, done: nat)
    requires SameLeaves(before, granted, root) && RangeMapped(granted, mem, root, start, frame, 0, done)
    requires done <= STACK_PAGES && (mapped == Mapped <==> done == STACK_PAGES)
    requires mapped == AlreadyMapped ==>
               done < STACK_PAGES && LeafEntry(granted, root, PageNumber(start + done * PAGE_SIZE)).Some?
    ensures mapped == Mapped ==>
              Adds(before, mem, root, Pages(start, STACK_PAGES)) && Unused(before, root, Pages(start, STACK_PAGES))
    ensures mapped == AlreadyMapped ==> !Unused(before, root, Pages(start, STACK_PAGES))
  {
    hide LeafEntry, Encoded, PageNumber;
    RangeAdds(granted, mem, root, start, frame, 0, done);
    if mapped == AlreadyMapped {
      StepOfPage(start, done);
      var w := PageNumber(start + done * PAGE_SIZE);
      assert Pages(start, STACK_PAGES).Has(w) && LeafEntry(before, root, w).Some?;
    }
  }

  lemma StackKept(before: Memory, granted: Memory, mem: Memory, root: u64, start: u64, frame: u64)
    requires Preserves(before, granted, root) && Grows(granted, mem, root)
    requires RangeMapped(granted, mem, root, start, frame, 0, STACK_PAGES)
    requires OwnBlock(before, granted, root, frame)
    ensures Preserves(before, mem, root) && MapsTo(mem, root, Pages(start, STACK_PAGES), frame, 0)
    ensures OwnBlock(before, mem, root, frame)
  {
    hide RangeMapped, MapsTo, LeafEntry, IsNode;
    RangePreserves(granted, mem, root, start, frame, 0, STACK_PAGES);
    PreservesTransitive(before, granted, mem, root);
    RangeMapsTo(granted, mem, root, start, frame, 0, STACK_PAGES);
  }

  // ---------- where everything goes ----------

  /** The page the kernel begins in. */
  function Bottom(file: ElfFile): nat {
    FrameOf(FirstAddress(file.segments))
  }

  /** Below the kernel there is room for the framebuffer, the stack and its guard page; above it for rounding up. */
  predicate RoomAround(file: ElfFile, pages: nat) {
    Bottom(file) >= (pages + STACK_PAGES + 1) * PAGE_SIZE && LastEnd(file.segments) + PAGE_SIZE - 1 < WORD_SIZE
  }

  function FramebufferStart(file: ElfFile, pages: nat): nat
    requires RoomAround(file, pages)
  {
    Bottom(file) - pages * PAGE_SIZE
  }

  /** The stack above its guard page. */
  function StackRange(file: ElfFile, pages: nat): Pages
    requires RoomAround(file, pages)
  {
    Pages(Bottom(file) - (pages + STACK_PAGES) * PAGE_SIZE, STACK_PAGES)
  }

  /**
   The framebuffer ends where the page of the kernel's first byte begins, the stack's 32 pages end where the
   framebuffer begins, and there is another page below them.
   */
  lemma Layout(file: ElfFile, pages: nat)
    requires RoomAround(file, pages)
    ensures FramebufferStart(file, pages) + 4096 * pages <= FirstAddress(file.segments)
    ensures FirstAddress(file.segments) < FramebufferStart(file, pages) + 4096 * pages + 4096
    ensures FramebufferStart(file, pages) % 4096 == 0
    ensures StackRange(file, pages) == Pages(FramebufferStart(file, pages) - 32 * 4096, 32)
    ensures StackRange(file, pages).start >= 4096
  {
  }

  /** There is room exactly when none of the subtractions and the one addition leave the 64 bits. */
  lemma RoomIs(file: ElfFile, pages: nat)
    ensures RoomAround(file, pages) <==>
            && FirstAddress(file.segments) >= 4096 * pages + 33 * 4096
            && LastEnd(file.segments) <= 0xffff_ffff_ffff_f000
  {
  }

  /**
   How much of the framebuffer is mapped: its pages up to the first one the kernel has, or all of them. Only
   a refusal of the firmware leaves this open.
   */
  ghost predicate FramebufferPart(file: ElfFile, pages: nat, fb: Pages, result: MapResult) {
    && fb.count <= pages && fb.count <= PAGE_NUMBERS && (result == Mapped <==> fb.count == pages)
    && (forall w: nat | fb.Has(w) :: !KernelPage(file, w))
    && (result == AlreadyMapped ==>
          fb.count == PAGE_NUMBERS || KernelPage(file, PageNumber(fb.start + fb.count * PAGE_SIZE)))
  }

  /** No page of the stack belongs to the kernel or the framebuffer. */
  ghost predicate StackFree(file: ElfFile, fb: Pages, stack: Pages) {
    forall w: nat | stack.Has(w) :: !KernelPage(file, w) && !fb.Has(w)
  }

  lemma StackUnmapped(mem: Memory, root: u64, file: ElfFile, fb: Pages, stack: Pages)
    requires MapsExactly(mem, root, file, fb, NO_PAGES)
    ensures StackFree(file, fb, stack) <==> Unused(mem, root, stack)
  {
    hide LeafEntry, KernelPage, StepOf;
  }

  ghost predicate InWindows(ds: seq<DirectMap.Descriptor>, stackPtr: nat, w: nat) {
    || DirectMap.InWindow(DirectMap.DirectRegions(ds), DirectMap.PAGE_MAP_OFFSET, w)
    || DirectMap.InWindow(DirectMap.IdentityRegions(ds, stackPtr), 0, w)
  }

  /** No page of the kernel or of the two ranges lies in a window. */
  ghost predicate OutsideWindows(
      file: ElfFile, fb: Pages, stack: Pages, ds: seq<DirectMap.Descriptor>, stackPtr: nat) {
    forall w: nat | InWindows(ds, stackPtr, w) :: !KernelPage(file, w) && !fb.Has(w) && !stack.Has(w)
  }

  /** The pages of the kernel, the framebuffer, the stack and both windows are all different. */
  ghost predicate Compatible(file: ElfFile, fb: Pages, stack: Pages, ds: seq<DirectMap.Descriptor>, stackPtr: nat) {
    var direct, identity := DirectMap.DirectRegions(ds), DirectMap.IdentityRegions(ds, stackPtr);
    && StackFree(file, fb, stack)
    && DirectMap.DistinctPages(direct, DirectMap.PAGE_MAP_OFFSET) && DirectMap.DistinctPages(identity, 0)
    && DirectMap.WindowsDisjoint(direct, DirectMap.PAGE_MAP_OFFSET, identity, 0)
    && OutsideWindows(file, fb, stack, ds, stackPtr)
  }

  /** With exactly these pages mapped, the windows are unmapped exactly when none of them lies there. */
  lemma WindowsUnmapped(
      mem: Memory, root: u64, file: ElfFile, fb: Pages, stack: Pages, ds: seq<DirectMap.Descriptor>, stackPtr: nat)
    requires MapsExactly(mem, root, file, fb, stack)
    ensures OutsideWindows(file, fb, stack, ds, stackPtr) <==>
            && DirectMap.Unmapped(mem, root, DirectMap.DirectRegions(ds), DirectMap.PAGE_MAP_OFFSET)
            && DirectMap.Unmapped(mem, root, DirectMap.IdentityRegions(ds, stackPtr), 0)
  {
    hide DirectMap.InWindow, DirectMap.Filter, LeafEntry, KernelPage, Pages.Has;
  }

  lemma FramebufferMapped(
      before: Memory, mem: Memory, root: u64, file: ElfFile, start: u64, addr: u64, pages: nat, result: MapResult,
      done: nat)
    requires MapsExactly(before, root, file, NO_PAGES, NO_PAGES)
    requires Grows(before, mem, root) && RangeMapped(before, mem, root, start, addr, FRAMEBUFFER_FLAGS, done)
    requires done <= pages && done <= PAGE_NUMBERS && (result == Mapped <==> done == pages)
    requires result == AlreadyMapped ==>
               done == PAGE_NUMBERS || LeafEntry(before, root, PageNumber(start + done * PAGE_SIZE)).Some?
    ensures FramebufferPart(file, pages, Pages(start, done), result)
    ensures MapsExactly(mem, root, file, Pages(start, done), NO_PAGES) && Preserves(before, mem, root)
    ensures MapsTo(mem, root, Pages(start, done), addr, FRAMEBUFFER_FLAGS)
  {
    hide LeafEntry, RangeMapped, Grows, Preserves, KernelPage, PageNumber, MapsTo, StepOf;
    RangeAdds(before, mem, root, start, addr, FRAMEBUFFER_FLAGS, done);
    RangePreserves(before, mem, root, start, addr, FRAMEBUFFER_FLAGS, done);
    RangeMapsTo(before, mem, root, start, addr, FRAMEBUFFER_FLAGS, done);
  }

  lemma StackMapped(before: Memory, mem: Memory, root: u64, file: ElfFile, fb: Pages, stack: Pages)
    requires MapsExactly(before, root, file, fb, NO_PAGES) && Adds(before, mem, root, stack)
    ensures MapsExactly(mem, root, file, fb, stack)
  {
    hide LeafEntry, KernelPage, StepOf;
  }

  /** After both loops exactly the pages of the kernel, of the two ranges and of the windows are mapped. */
  ghost predicate AllMapped(
      mem: Memory, root: u64, file: ElfFile, fb: Pages, stack: Pages, ds: seq<DirectMap.Descriptor>, stackPtr: nat) {
    forall w: nat ::
      LeafEntry(mem, root, w).Some? <==> KernelPage(file, w) || fb.Has(w) || stack.Has(w) || InWindows(ds, stackPtr, w)
  }

  lemma LeavesOfWindow(mem: Memory, root: u64, ds: seq<DirectMap.Descriptor>, offset: u64, w: nat)
    requires DirectMap.WindowLeaves(mem, root, ds, offset) && DirectMap.InWindow(ds, offset, w)
    ensures LeafEntry(mem, root, w).Some?
  {
    hide LeafEntry, DirectMap.WindowPage;
    var i: nat, p: nat :| i < |ds| && p < ds[i].pages && DirectMap.WindowPage(ds[i], offset, p) == w;
  }

  lemma WindowsMapped(
      before: Memory, mem: Memory, root: u64, file: ElfFile, fb: Pages, stack: Pages,
      ds: seq<DirectMap.Descriptor>, stackPtr: nat)
    requires MapsExactly(before, root, file, fb, stack) && Grows(before, mem, root)
    requires DirectMap.OthersKept(before, mem, root, ds, stackPtr)
    requires DirectMap.WindowLeaves(mem, root, DirectMap.DirectRegions(ds), DirectMap.PAGE_MAP_OFFSET)
    requires DirectMap.WindowLeaves(mem, root, DirectMap.IdentityRegions(ds, stackPtr), 0)
    ensures AllMapped(mem, root, file, fb, stack, ds, stackPtr) && Preserves(before, mem, root)
  {
    hide LeafEntry, KernelPage, Pages.Has, DirectMap.InWindow, DirectMap.WindowLeaves, DirectMap.Filter, IsNode;
    forall w: nat | InWindows(ds, stackPtr, w)
      ensures LeafEntry(mem, root, w).Some?
    {
      if DirectMap.InWindow(DirectMap.DirectRegions(ds), DirectMap.PAGE_MAP_OFFSET, w) {
        LeavesOfWindow(mem, root, DirectMap.DirectRegions(ds), DirectMap.PAGE_MAP_OFFSET, w);
      } else {
        LeavesOfWindow(mem, root, DirectMap.IdentityRegions(ds, stackPtr), 0, w);
      }
    }
  }

  /** The guard page below the stack is unmapped exactly when no other part of the mapping has it. */
  lemma GuardPage(
      mem: Memory, root: u64, file: ElfFile, pages: nat, fb: Pages, ds: seq<DirectMap.Descriptor>, stackPtr: nat)
    requires RoomAround(file, pages) && AllMapped(mem, root, file, fb, StackRange(file, pages), ds, stackPtr)
    ensures var guard := PageNumber(StackRange(file, pages).start - PAGE_SIZE);
            LeafEntry(mem, root, guard) == None <==>
            !KernelPage(file, guard) && !fb.Has(guard) && !InWindows(ds, stackPtr, guard)
  {
    hide LeafEntry, KernelPage, InWindows;
    var start := StackRange(file, pages).start;
    StepOfPage(start - PAGE_SIZE, 0);
    assert start / PAGE_SIZE == (start - PAGE_SIZE) / PAGE_SIZE + 1;
    assert !StackRange(file, pages).Has(PageNumber(start - PAGE_SIZE));
  }

  // ---------- the kernel's image ----------

  /** Byte k of the segment's memory image is reached at its address. */
  predicate ReadsBack(mem: Memory, root: u64, file: ElfFile, seg: Segment, k: nat) {
    && InFile(file, seg) && seg.vaddr + k < WORD_SIZE
    && ReadThrough(mem, root, seg.vaddr + k) == Some(ImageByte(file, seg, k))
  }

  /** Every aligned segment reads back through the page table as its memory image. */
  ghost predicate ImagesReadBack(mem: Memory, root: u64, file: ElfFile) {
    forall i: nat, k: nat |
      && i < |file.segments| && file.segments[i].Loadable() && file.segments[i].vaddr % PAGE_SIZE == 0
      && k < file.segments[i].memSize ::
      ReadsBack(mem, root, file, file.segments[i], k)
  }

  lemma InPlaceReadsBack(mem: Memory, root: u64, file: ElfFile, phys: seq<nat>)
    requires InPlace(mem, root, file, file.segments, phys)
    ensures ImagesReadBack(mem, root, file)
  {
    hide InPlace, ReadThrough;
    forall i: nat, k: nat |
      && i < |file.segments| && file.segments[i].Loadable() && file.segments[i].vaddr % PAGE_SIZE == 0
      && k < file.segments[i].memSize
      ensures ReadsBack(mem, root, file, file.segments[i], k)
    {
      KernelImage(mem, root, file, phys, i, k);
    }
  }

  // ---------- all of it ----------

  datatype Booted = Booted(info: KernelLoadInfo, stackFrame: u64)

  /** How much was asked of the firmware: tables per segment, what was left after the framebuffer, stack tables. */
  datatype Asked = Asked(tables: seq<nat>, shown: Stock, stackTables: nat)

  /** The frames for the kernel, the framebuffer as far as it goes, and the stack could be had. */
  ghost predicate SuppliedUpToStack(stock: Stock, file: ElfFile, asked: Asked, shown: MapResult) {
    && TablesBounded(file.segments, asked.tables)
    && var loaded := Supply(stock, KernelAsks(file.segments[..|asked.tables|], asked.tables));
    && loaded.Some? && Served(loaded.value, asked.shown, shown.Refusal())
    && Supply(asked.shown, StackAsks(asked.stackTables)).Some?
  }

  /** So could the tables for both windows, unless the last of them was refused. */
  ghost predicate Supplied(
      stock: Stock, file: ElfFile, asked: Asked, shown: MapResult, after: Stock, refusal: Option<nat>) {
    && SuppliedUpToStack(stock, file, asked, shown)
    && Served(Supply(asked.shown, StackAsks(asked.stackTables)).value, after, refusal)
  }

  /** The firmware was short of frames for one of them. */
  ghost predicate Short(stock: Stock, file: ElfFile, asked: Asked, shown: MapResult, after: Stock) {
    && TablesBounded(file.segments, asked.tables)
    && var loaded := Supply(stock, KernelAsks(file.segments[..|asked.tables|], asked.tables));
    || loaded.None?
    || (Served(loaded.value, asked.shown, shown.Refusal()) && Supply(asked.shown, StackAsks(asked.stackTables)).None?)
    || exists e: nat :: Supplied(stock, file, asked, shown, after, Some(e))
  }

  /** What holds of a page table ready for the kernel. */
  ghost predicate Ready(
      mem: Memory, root: u64, file: ElfFile, framebuffer: Framebuffer, fb: Pages, stack: Pages, stackFrame: nat,
      ds: seq<DirectMap.Descriptor>, stackPtr: nat) {
    && AllMapped(mem, root, file, fb, stack, ds, stackPtr)
    && ImagesReadBack(mem, root, file)
    && MapsTo(mem, root, fb, framebuffer.addr, FRAMEBUFFER_FLAGS)
    && MapsTo(mem, root, stack, stackFrame, 0)
    && DirectMap.BothTranslate(mem, root, ds, stackPtr)
  }

  /**
   Loads the kernel and maps everything it needs. A framebuffer that cannot be mapped is done without;
   any other failure is a panic.
   */
  method Boot(machine: Machine, file: ElfFile, framebuffer: Framebuffer, ds: seq<DirectMap.Descriptor>, stackPtr: nat)
    returns (r: Outcome<Booted>, shown: MapResult, ghost fb: Pages, ghost phys: seq<nat>, ghost asked: Asked)
    requires Framed(machine.memory) && framebuffer.addr + framebuffer.Pages() * PAGE_SIZE <= WORD_SIZE
    requires forall i: nat | i < |ds| :: ds[i].End() < WORD_SIZE
    modifies machine
    ensures r.Loaded? <==>
            && machine.refusals == old(machine.refusals) + Refused(shown.AllocationError?)
            && WellPlaced(file) && RoomAround(file, framebuffer.Pages()) && DirectMap.DirectFits(ds)
            && Compatible(file, fb, StackRange(file, framebuffer.Pages()), ds, stackPtr)
    ensures r.Loaded? ==> Supplied(old(machine.Stocked()), file, asked, shown, machine.Stocked(), None)
    ensures WellPlaced(file) && RoomAround(file, framebuffer.Pages()) && DirectMap.DirectFits(ds) &&
            Compatible(file, fb, StackRange(file, framebuffer.Pages()), ds, stackPtr) && !r.Loaded? ==>
              Short(old(machine.Stocked()), file, asked, shown, machine.Stocked())
    ensures machine.refusals == old(machine.refusals) + Refused(shown.AllocationError?) && WellPlaced(file) &&
            RoomAround(file, framebuffer.Pages()) ==>
              && fb.start == FramebufferStart(file, framebuffer.Pages())
              && FramebufferPart(file, framebuffer.Pages(), fb, shown)
    ensures r.Loaded? ==>
              && r.value.info.table.machine == machine && r.value.info.table.Valid()
              && InPlace(machine.memory, r.value.info.table.root, file, file.segments, phys)
              && Ready(machine.memory, r.value.info.table.root, file, framebuffer, fb,
                       StackRange(file, framebuffer.Pages()), r.value.stackFrame, ds, stackPtr)
  {
    hide InPlace, OnlyPages, WellPlaced, ImagesReadBack, Spans, TlsOf, WellFormed, Grows, RangeMapped, FramebufferPart;
    hide MapsExactly, MapsTo, Preserves, Adds, AllMapped, OutsideWindows, KernelPage, IsNode, LeafEntry, Framed;
    hide DirectMap.BothTranslate, DirectMap.DirectFits, DirectMap.DistinctPages, DirectMap.WindowsDisjoint;
    hide DirectMap.Unmapped, DirectMap.Filter, DirectMap.InWindow, DirectMap.WindowLeaves, DirectMap.OthersKept;
    hide PageNumber, StepOf, FirstAddress, LastEnd, StackFree, Pages.Has;
    hide Supply, KernelAsks, StackAsks, Served, TablesBounded, TablesFor, Honours, Unused;
    var pages := framebuffer.Pages();
    shown, fb := Mapped, NO_PAGES;
    ghost var stock := machine.Stocked();
    ghost var tables;
    var loaded;
    loaded, phys, tables := LoadKernel(machine, file);
    asked := Asked(tables, machine.Stocked(), 0);
    if !loaded.Loaded? {
      return Panicked, shown, fb, phys, asked;
    }
    assert file.segments[..|file.segments|] == file.segments;
    var table, root := loaded.value.table, loaded.value.table.root;
    SpansExactly(file.segments, loaded.value.start, loaded.value.end);
    KernelMapped(machine.memory, root, file, phys);
    var start := FrameOf(loaded.value.start);
    if loaded.value.end + PAGE_SIZE - 1 >= WORD_SIZE || start < (pages + STACK_PAGES + 1) * PAGE_SIZE {
      return Panicked, shown, fb, phys, asked;
    }
    ghost var before := machine.memory;
    var done;
    FramebufferFlags();
    shown, done := table.TryMapRangeWith(start - pages * PAGE_SIZE, framebuffer.addr, pages, FRAMEBUFFER_FLAGS);
    fb := Pages(start - pages * PAGE_SIZE, done);
    asked := Asked(tables, machine.Stocked(), 0);
    FramebufferMapped(before, machine.memory, root, file, fb.start, framebuffer.addr, pages, shown, done);
    KernelSurvives(before, machine.memory, root, file, file.segments, phys);
    before := machine.memory;
    StackUnmapped(before, root, file, fb, StackRange(file, pages));
    ghost var stackTables;
    var stack;
    stack, stackTables := MapStack(table, start - (pages + STACK_PAGES) * PAGE_SIZE);
    asked := asked.(stackTables := stackTables);
    if stack.None? {
      return Panicked, shown, fb, phys, asked;
    }
    StackMapped(before, machine.memory, root, file, fb, StackRange(file, pages));
    KernelSurvives(before, machine.memory, root, file, file.segments, phys);
    MapsToStays(before, machine.memory, root, fb, framebuffer.addr, FRAMEBUFFER_FLAGS);
    before := machine.memory;
    WindowsUnmapped(before, root, file, fb, StackRange(file, pages), ds, stackPtr);
    var mapped := DirectMap.BuildMaps(table, ds, stackPtr);
    assert Supplied(stock, file, asked, shown, machine.Stocked(), mapped.Refusal());
    if mapped != DirectMap.Done {
      return Panicked, shown, fb, phys, asked;
    }
    WindowsMapped(before, machine.memory, root, file, fb, StackRange(file, pages), ds, stackPtr);
    KernelSurvives(before, machine.memory, root, file, file.segments, phys);
    InPlaceReadsBack(machine.memory, root, file, phys);
    MapsToStays(before, machine.memory, root, fb, framebuffer.addr, FRAMEBUFFER_FLAGS);
    MapsToStays(before, machine.memory, root, StackRange(file, pages), stack.value, 0);
    return Loaded(Booted(loaded.value, stack.value)), shown, fb, phys, asked;
  }
}
