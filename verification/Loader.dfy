/** Loading the kernel's ELF segments into fresh frames and mapping them. */
module Loader {
  import opened Bits
  import opened Options
  import opened PageEntry
  import opened PageTree
  import opened PageRange
  import opened Machines
  import opened PhysicalBytes
  import opened Paging
  import opened ProgramHeader

  /** `AllocateType::MaxAddress` for segments flagged LowMem. */
  const LOW_MEMORY: nat := 0x10_0000

  datatype ElfFile = ElfFile(data: seq<u8>, segments: seq<Segment>)

  /** `Failed` is an error return, `Panicked` a failed unwrap, slice index, addition or `todo!`. */
  datatype Outcome<+T> = Loaded(value: T) | Failed | Panicked

  datatype LoadedSegment = LoadedSegment(physical: u64, virtual: u64, pageCount: nat)

  predicate InFile(file: ElfFile, seg: Segment) {
    seg.FileEnd() <= |file.data|
  }

  /** The segment can be copied: its bytes are in the file and not more than its memory size. */
  predicate Copyable(file: ElfFile, seg: Segment) {
    InFile(file, seg) && seg.fileSize <= seg.memSize
  }

  /** Byte k of a segment's memory image: file bytes, then zeros. */
  function ImageByte(file: ElfFile, seg: Segment, k: nat): u8
    requires InFile(file, seg)
  {
    if k < seg.fileSize then file.data[seg.offset + k] else 0
  }

  predicate HoldsByte(mem: Memory, file: ElfFile, seg: Segment, phys: nat, k: nat)
    requires InFile(file, seg)
  {
    Backed(mem, phys + k) && ByteAt(mem, phys + k) == ImageByte(file, seg, k)
  }

  ghost predicate HoldsImage(mem: Memory, file: ElfFile, seg: Segment, phys: nat) {
    Copyable(file, seg) && forall k: nat | k < seg.memSize :: HoldsByte(mem, file, seg, phys, k)
  }

  function Zeros(n: nat): (s: seq<u8>)
    ensures |s| == n && forall i: nat | i < n :: s[i] == 0
  {
    seq(n, _ => 0)
  }

  /** A block granted for a segment and then filled: what lay in memory before is untouched. */
  ghost predicate Filled(before: Memory, mem: Memory, phys: nat, count: nat) {
    && Keeps(before, mem)
    && mem.Keys == before.Keys + Block(phys, count)
    && before.Keys !! Block(phys, count)
    && phys % PAGE_SIZE == 0 && 0 < phys && phys + count * PAGE_SIZE <= PHYSICAL_LIMIT
  }

  /** The block a segment is loaded into: as many pages as it needs, below 1 MiB if it is flagged so. */
  function SegmentAsk(seg: Segment): Ask {
    Ask(seg.PageCount(), if seg.lowMem then 0x10_0000 else 0x10_0000_0000_0000)
  }

  /**
   Copies a segment into a fresh block and clears the rest of its memory. If the file size exceeds the
   memory size the subtraction after the copy overflows, and what the copy overran is not described.
   */
  method LoadSegment(machine: Machine, file: ElfFile, seg: Segment) returns (r: Outcome<LoadedSegment>)
    requires Framed(machine.memory)
    modifies machine
    ensures seg.fileSize <= seg.memSize ==> Framed(machine.memory) && Keeps(old(machine.memory), machine.memory)
    ensures machine.refusals >= old(machine.refusals)
    ensures r.Loaded? <==> machine.refusals == old(machine.refusals) && Copyable(file, seg)
    ensures r.Loaded? <==> Honours(old(machine.Stocked()), SegmentAsk(seg)) && Copyable(file, seg)
    ensures r.Loaded? ==> machine.Stocked() == Honoured(old(machine.Stocked()), SegmentAsk(seg))
    ensures r.Loaded? ==>
              && r.value.virtual == seg.vaddr && r.value.pageCount == seg.PageCount()
              && Filled(old(machine.memory), machine.memory, r.value.physical, seg.PageCount())
              && r.value.physical + seg.PageCount() * PAGE_SIZE <= PHYSICAL_LIMIT
              && HoldsImage(machine.memory, file, seg, r.value.physical)
              && (seg.lowMem ==> r.value.physical + seg.PageCount() * PAGE_SIZE <= 0x10_0000)
  {
    hide Honours;
    var limit := if seg.lowMem then LOW_MEMORY else PHYSICAL_LIMIT;
    var count := seg.PageCount();
    ghost var before := machine.memory;
    var allocation := machine.Allocate(count, limit);
    if allocation.Err? {
      return Panicked;
    }
    var phys := allocation.value;
    if !InFile(file, seg) {
      return Panicked;
    }
    if seg.fileSize > seg.memSize {
      return Panicked;
    }
    ghost var granted := machine.memory;
    var contents := file.data[seg.offset..seg.offset + seg.fileSize];
    WriteBytes(machine, phys, contents, phys, count);
    ghost var copied := machine.memory;
    WriteBytes(machine, phys + seg.fileSize, Zeros(seg.memSize - seg.fileSize), phys, count);
    FilledImage(before, granted, copied, machine.memory, file, seg, phys);
    return Loaded(LoadedSegment(phys, seg.vaddr, count));
  }

  lemma FilledImage(
      before: Memory, granted: Memory, copied: Memory, mem: Memory, file: ElfFile, seg: Segment, phys: nat)
    requires InFile(file, seg) && seg.fileSize <= seg.memSize
    requires Granted(before, granted, phys, seg.PageCount())
    requires Wrote(granted, copied, phys, seg.PageCount(), phys, file.data[seg.offset..seg.offset + seg.fileSize])
    requires Wrote(copied, mem, phys, seg.PageCount(), phys + seg.fileSize, Zeros(seg.memSize - seg.fileSize))
    ensures Filled(before, mem, phys, seg.PageCount()) && HoldsImage(mem, file, seg, phys)
  {
    forall k: nat | k < seg.memSize
      ensures HoldsByte(mem, file, seg, phys, k)
    {
      assert phys <= phys + k < phys + seg.PageCount() * PAGE_SIZE;
    }
  }

  // ---------- what loading one more segment keeps ----------

  /** Mapped pages stay mapped as they were, and frames that are not tables keep their contents. */
  ghost predicate Preserves(mem: Memory, mem': Memory, root: u64) {
    && (forall f | f in mem && !IsNode(mem, root, f) :: f in mem' && mem'[f] == mem[f] && !IsNode(mem', root, f))
    && (forall w: nat | LeafEntry(mem, root, w).Some? :: LeafEntry(mem', root, w) == LeafEntry(mem, root, w))
  }

  /** The segment's pages map, in order, to a block that is not part of the page table and holds its image. */
  ghost predicate Placed(mem: Memory, root: u64, file: ElfFile, seg: Segment, phys: nat) {
    && phys % PAGE_SIZE == 0 && phys + seg.PageCount() * PAGE_SIZE <= PHYSICAL_LIMIT
    && seg.End() < WORD_SIZE && seg.PageCount() <= PAGE_NUMBERS
    && (forall f | f in Block(phys, seg.PageCount()) :: f in mem && !IsNode(mem, root, f))
    && HoldsImage(mem, file, seg, phys)
    && (forall p: nat | p < seg.PageCount() ::
          LeafEntry(mem, root, seg.NumberOf(p)) == Some(Encoded(phys + p * PAGE_SIZE, 0)))
  }

  lemma FrameInBlock(phys: nat, count: nat, k: nat)
    requires phys % PAGE_SIZE == 0 && k < count * PAGE_SIZE && phys + count * PAGE_SIZE <= PHYSICAL_LIMIT
    ensures FrameOf(phys + k) in Block(phys, count)
  {
    var f: u64 := FrameOf(phys + k);
    assert f % PAGE_SIZE == 0 && phys <= f;
  }

  lemma PlacedStays(mem: Memory, mem': Memory, root: u64, file: ElfFile, seg: Segment, phys: nat)
    requires Placed(mem, root, file, seg, phys) && Preserves(mem, mem', root)
    ensures Placed(mem', root, file, seg, phys)
  {
    ImageStays(mem, mem', root, file, seg, phys);
  }

  lemma FilledPreserves(before: Memory, mem: Memory, root: u64, phys: nat, count: nat)
    requires WellFormed(before, root) && UpperLinked(before, root) && Filled(before, mem, phys, count)
    ensures WellFormed(mem, root) && UpperLinked(mem, root)
    ensures Preserves(before, mem, root) && SameLeaves(before, mem, root)
    ensures forall f | f in Block(phys, count) :: f in mem && !IsNode(mem, root, f)
  {
    KeepsTree(before, mem, root);
  }

  lemma RangePreserves(mem: Memory, mem': Memory, root: u64, pageStart: u64, frameStart: u64, flags: u64, done: nat)
    requires Grows(mem, mem', root) && RangeMapped(mem, mem', root, pageStart, frameStart, flags, done)
    ensures Preserves(mem, mem', root)
  {
  }

  lemma PreservesTransitive(a: Memory, b: Memory, c: Memory, root: u64)
    requires Preserves(a, b, root) && Preserves(b, c, root)
    ensures Preserves(a, c, root)
  {
  }

  // ---------- one segment, loaded and mapped ----------

  /** The pages of a mapped range, read off page by page. */
  lemma RangeLeaf(
      before: Memory, mem: Memory, root: u64, pageStart: u64, frameStart: u64, flags: u64, done: nat, p: nat)
    requires RangeMapped(before, mem, root, pageStart, frameStart, flags, done) && p < done <= PAGE_NUMBERS
    ensures LeafEntry(before, root, PageNumber(pageStart + p * PAGE_SIZE)) == None
    ensures Fits(frameStart, p)
    ensures LeafEntry(mem, root, PageNumber(pageStart + p * PAGE_SIZE)) ==
            Some(Encoded(frameStart + p * PAGE_SIZE, flags))
  {
    hide PageNumber, StepOf, LeafEntry, Encoded;
    StepOfOwn(pageStart, p);
  }

  lemma MappedIsPlaced(before: Memory, filled: Memory, mem: Memory, root: u64, file: ElfFile, seg: Segment, phys: u64)
    requires WellFormed(before, root) && UpperLinked(before, root) && Filled(before, filled, phys, seg.PageCount())
    requires HoldsImage(filled, file, seg, phys) && seg.End() < WORD_SIZE && seg.PageCount() <= PAGE_NUMBERS
    requires Grows(filled, mem, root) && RangeMapped(filled, mem, root, seg.vaddr, phys, 0, seg.PageCount())
    ensures Preserves(before, mem, root) && Placed(mem, root, file, seg, phys) && PagesFree(before, root, seg)
  {
    hide WellFormed, Grows, RangeMapped, Preserves, HoldsImage, PageNumber, IsNode;
    FilledPreserves(before, filled, root, phys, seg.PageCount());
    RangePreserves(filled, mem, root, seg.vaddr, phys, 0, seg.PageCount());
    PreservesTransitive(before, filled, mem, root);
    forall p: nat | p < seg.PageCount()
      ensures LeafEntry(before, root, seg.NumberOf(p)) == None
      ensures Fits(phys, p) && LeafEntry(mem, root, seg.NumberOf(p)) == Some(Encoded(phys + p * PAGE_SIZE, 0))
    {
      RangeLeaf(filled, mem, root, seg.vaddr, phys, 0, seg.PageCount(), p);
    }
    ImageStays(filled, mem, root, file, seg, phys);
  }

  lemma ImageStays(mem: Memory, mem': Memory, root: u64, file: ElfFile, seg: Segment, phys: nat)
    requires phys % PAGE_SIZE == 0 && phys + seg.PageCount() * PAGE_SIZE <= PHYSICAL_LIMIT
    requires forall f | f in Block(phys, seg.PageCount()) :: f in mem && !IsNode(mem, root, f)
    requires HoldsImage(mem, file, seg, phys) && Preserves(mem, mem', root)
    ensures HoldsImage(mem', file, seg, phys)
    ensures forall f | f in Block(phys, seg.PageCount()) :: f in mem' && !IsNode(mem', root, f)
  {
    forall k: nat | k < seg.memSize
      ensures HoldsByte(mem', file, seg, phys, k)
    {
      FrameInBlock(phys, seg.PageCount(), k);
      assert HoldsByte(mem, file, seg, phys, k);
    }
  }

  /** The segment's pages fit the address space and none of them is mapped. */
  ghost predicate PagesFree(mem: Memory, root: u64, seg: Segment) {
    seg.PageCount() <= PAGE_NUMBERS &&
    forall p: nat | p < seg.PageCount() :: LeafEntry(mem, root, seg.NumberOf(p)) == None
  }

  /** The segment can be loaded into a tree: its file range exists and its pages fit and are unmapped. */
  ghost predicate Mappable(mem: Memory, root: u64, file: ElfFile, seg: Segment) {
    Copyable(file, seg) && seg.End() < WORD_SIZE && PagesFree(mem, root, seg)
  }

  ghost predicate HasPage(seg: Segment, w: nat) {
    exists p: nat :: p < seg.PageCount() && seg.NumberOf(p) == w
  }

  /** Only the segment's own pages were added. */
  ghost predicate AddsOnly(mem: Memory, mem': Memory, root: u64, seg: Segment) {
    forall w: nat | LeafEntry(mem', root, w).Some? :: LeafEntry(mem, root, w).Some? || HasPage(seg, w)
  }

  lemma RangeAddsOnly(before: Memory, filled: Memory, mem: Memory, root: u64, seg: Segment, phys: u64)
    requires SameLeaves(before, filled, root) && seg.PageCount() <= PAGE_NUMBERS
    requires RangeMapped(filled, mem, root, seg.vaddr, phys, 0, seg.PageCount())
    ensures AddsOnly(before, mem, root, seg)
  {
    hide PageNumber, StepOf, LeafEntry, Encoded;
    forall w: nat | LeafEntry(mem, root, w).Some? && LeafEntry(filled, root, w).None?
      ensures HasPage(seg, w)
    {
      PageOfStep(seg.vaddr, w);
      assert seg.NumberOf(StepOf(seg.vaddr, w)) == w;
    }
  }

  lemma BlockedIsNotFree(before: Memory, filled: Memory, root: u64, seg: Segment, done: nat)
    requires SameLeaves(before, filled, root) && done < seg.PageCount() && done <= PAGE_NUMBERS
    requires done == PAGE_NUMBERS || LeafEntry(filled, root, seg.NumberOf(done)).Some?
    ensures !PagesFree(before, root, seg)
  {
  }

  /** The requests made for a segment: its block, then the tables its pages need. */
  function SegmentAsks(seg: Segment, tables: nat): seq<Ask> {
    [SegmentAsk(seg)] + Ones(tables)
  }

  lemma SegmentSupply(stock: Stock, seg: Segment, tables: nat)
    ensures Supply(stock, SegmentAsks(seg, tables)) ==
            if Honours(stock, SegmentAsk(seg)) then Supply(Honoured(stock, SegmentAsk(seg)), Ones(tables)) else None
  {
    hide Honours;
    SupplyMore(stock, [SegmentAsk(seg)], Ones(tables));
    SupplyOne(stock, SegmentAsk(seg));
  }

  /** Maps a filled block at the segment's pages; `before` is memory before it was filled. */
  method MapLoaded(table: PageTable, file: ElfFile, seg: Segment, phys: u64, ghost before: Memory)
    returns (ok: bool, ghost tables: nat)
    requires table.Valid() && WellFormed(before, table.root) && UpperLinked(before, table.root)
    requires Filled(before, table.machine.memory, phys, seg.PageCount()) && seg.End() < WORD_SIZE
    requires HoldsImage(table.machine.memory, file, seg, phys)
    requires phys + seg.PageCount() * PAGE_SIZE <= PHYSICAL_LIMIT
    modifies table.machine
    ensures table.machine.refusals >= old(table.machine.refusals)
    ensures ok <==> table.machine.refusals == old(table.machine.refusals) && PagesFree(before, table.root, seg)
    ensures tables <= TablesFor(seg.PageCount())
    ensures ok <==> PagesFree(before, table.root, seg) && Supply(old(table.machine.Stocked()), Ones(tables)).Some?
    ensures ok ==> Supply(old(table.machine.Stocked()), Ones(tables)) == Some(table.machine.Stocked())
    ensures ok ==>
              && table.Valid()
              && AddsOnly(before, table.machine.memory, table.root, seg)
              && Preserves(before, table.machine.memory, table.root)
              && Placed(table.machine.memory, table.root, file, seg, phys)
  {
    hide WellFormed, Grows, RangeMapped, Placed, Preserves, HoldsImage, AddsOnly, LeafEntry, SameLeaves, PageNumber;
    hide Framed, UpperLinked, Encoded, IsNode, Supply, Ones, Served, TablesFor, Filled, PagesFree, CeilDiv, Block;
    ghost var filled, so := table.machine.memory, table.machine.Stocked();
    FilledPreserves(before, filled, table.root, phys, seg.PageCount());
    NoFlags();
    var mapped, done := table.TryMapRangeWith(seg.vaddr, phys, seg.PageCount(), 0);
    if mapped != Mapped {
      tables := TablesFor(seg.PageCount());
      if mapped == AlreadyMapped {
        BlockedIsNotFree(before, filled, table.root, seg, done);
      }
      return false, tables;
    }
    AllServed(so, table.machine.Stocked(), filled, table.machine.memory);
    RangeAddsOnly(before, filled, table.machine.memory, table.root, seg, phys);
    MappedIsPlaced(before, filled, table.machine.memory, table.root, file, seg, phys);
    return true, |table.machine.memory| - |filled|;
  }

  /** The body of the per-segment closure: load, then map, panicking if either cannot be done. */
  method LoadAndMap(table: PageTable, file: ElfFile, seg: Segment)
    returns (r: Outcome<LoadedSegment>, ghost tables: nat)
    requires table.Valid()
    modifies table.machine
    ensures table.machine.refusals >= old(table.machine.refusals)
    ensures r.Loaded? <==>
              && table.machine.refusals == old(table.machine.refusals)
              && old(Mappable(table.machine.memory, table.root, file, seg))
    ensures tables <= TablesFor(seg.PageCount())
    ensures r.Loaded? <==>
              && old(Mappable(table.machine.memory, table.root, file, seg))
              && Supply(old(table.machine.Stocked()), SegmentAsks(seg, tables)).Some?
    ensures r.Loaded? ==>
              Supply(old(table.machine.Stocked()), SegmentAsks(seg, tables)) == Some(table.machine.Stocked())
    ensures r.Loaded? || r == Panicked
    ensures r.Loaded? ==>
              && table.Valid()
              && AddsOnly(old(table.machine.memory), table.machine.memory, table.root, seg)
              && Preserves(old(table.machine.memory), table.machine.memory, table.root)
              && Placed(table.machine.memory, table.root, file, seg, r.value.physical)
              && r.value.virtual == seg.vaddr && r.value.pageCount == seg.PageCount()
              && old(PagesFree(table.machine.memory, table.root, seg))
  {
    hide WellFormed, Placed, Preserves, HoldsImage, AddsOnly, PagesFree, Honours, Honoured, Supply, Ones;
    hide SegmentAsk, SegmentAsks, TablesFor, Filled, UpperLinked, IsNode, SameLeaves;
    ghost var before, stock := table.machine.memory, table.machine.Stocked();
    tables := 0;
    SegmentSupply(stock, seg, 0);
    r := LoadSegment(table.machine, file, seg);
    if !r.Loaded? {
      return Panicked, tables;
    }
    if seg.vaddr + r.value.pageCount * PAGE_SIZE >= WORD_SIZE {
      return Panicked, tables;
    }
    FilledPreserves(before, table.machine.memory, table.root, r.value.physical, seg.PageCount());
    var ok;
    ok, tables := MapLoaded(table, file, seg, r.value.physical, before);
    SegmentSupply(stock, seg, tables);
    if !ok {
      return Panicked, tables;
    }
  }

  lemma AllServed(before: Stock, after: Stock, mem: Memory, mem': Memory)
    requires before.used == mem.Keys && after.used == mem'.Keys && Served(before, after, None)
    ensures |mem| <= |mem'| && Supply(before, Ones(|mem'| - |mem|)) == Some(after)
  {
    hide Supply, Ones;
    assert |mem| == |mem.Keys| && |mem'| == |mem'.Keys|;
  }

  // ---------- the whole kernel ----------

  datatype KernelLoadInfo = KernelLoadInfo(table: PageTable, start: nat, end: nat, tlsStart: nat, tlsEnd: nat)

  ghost predicate PagesDisjoint(s: Segment, t: Segment) {
    forall p: nat, q: nat | p < s.PageCount() && q < t.PageCount() :: s.NumberOf(p) != t.NumberOf(q)
  }

  /** The loadable segments among the first are all in place, on pairwise disjoint pages. */
  ghost predicate InPlace(mem: Memory, root: u64, file: ElfFile, segments: seq<Segment>, phys: seq<nat>) {
    && |phys| == |segments|
    && (forall i: nat | i < |segments| && segments[i].Loadable() :: Placed(mem, root, file, segments[i], phys[i]))
    && (forall i: nat, j: nat | i < j < |segments| && segments[i].Loadable() && segments[j].Loadable() ::
          PagesDisjoint(segments[i], segments[j]))
  }

  lemma FreshPages(mem: Memory, root: u64, file: ElfFile, s: Segment, t: Segment, phys: nat)
    requires Placed(mem, root, file, s, phys) && PagesFree(mem, root, t)
    ensures PagesDisjoint(s, t)
  {
    forall p: nat, q: nat | p < s.PageCount() && q < t.PageCount()
      ensures s.NumberOf(p) != t.NumberOf(q)
    {
      assert LeafEntry(mem, root, s.NumberOf(p)).Some?;
    }
  }

  lemma OneMoreInPlace(
      before: Memory, mem: Memory, root: u64, file: ElfFile, segments: seq<Segment>, phys: seq<nat>, seg: Segment,
      base: nat)
    requires InPlace(before, root, file, segments, phys) && Preserves(before, mem, root)
    requires Placed(mem, root, file, seg, base)
    requires PagesFree(before, root, seg)
    ensures InPlace(mem, root, file, segments + [seg], phys + [base])
  {
    hide Placed, Preserves, PagesDisjoint;
    forall i: nat | i < |segments| && segments[i].Loadable()
      ensures Placed(mem, root, file, segments[i], phys[i]) && PagesDisjoint(segments[i], seg)
    {
      PlacedStays(before, mem, root, file, segments[i], phys[i]);
      FreshPages(before, root, file, segments[i], seg, phys[i]);
    }
  }

  lemma OneSkipped(mem: Memory, root: u64, file: ElfFile, segments: seq<Segment>, phys: seq<nat>, seg: Segment)
    requires InPlace(mem, root, file, segments, phys) && !seg.Loadable()
    ensures InPlace(mem, root, file, segments + [seg], phys + [0])
  {
  }

  /** Every mapped page belongs to one of the loaded segments. */
  ghost predicate OnlyPages(mem: Memory, root: u64, segments: seq<Segment>) {
    forall w: nat | LeafEntry(mem, root, w).Some? ::
      exists i: nat :: i < |segments| && segments[i].Loadable() && HasPage(segments[i], w)
  }

  lemma OnlyPagesMore(before: Memory, mem: Memory, root: u64, segments: seq<Segment>, seg: Segment)
    requires OnlyPages(before, root, segments)
    requires (seg.Loadable() && AddsOnly(before, mem, root, seg)) || mem == before
    ensures OnlyPages(mem, root, segments + [seg])
  {
    var more := segments + [seg];
    forall w: nat | LeafEntry(mem, root, w).Some?
      ensures exists i: nat :: i < |more| && more[i].Loadable() && HasPage(more[i], w)
    {
      if LeafEntry(before, root, w).Some? {
        var i: nat :| i < |segments| && segments[i].Loadable() && HasPage(segments[i], w);
        assert more[i] == segments[i];
      } else {
        assert more[|segments|] == seg;
      }
    }
  }

  /** Every loadable segment can be copied, fits the address space, and has its pages to itself. */
  ghost predicate WellPlaced(file: ElfFile) {
    && (forall i: nat | i < |file.segments| && file.segments[i].Loadable() ::
          Copyable(file, file.segments[i]) && file.segments[i].End() < WORD_SIZE &&
          file.segments[i].PageCount() <= PAGE_NUMBERS)
    && (forall i: nat, j: nat | i < j < |file.segments| && file.segments[i].Loadable() && file.segments[j].Loadable() ::
          PagesDisjoint(file.segments[i], file.segments[j]))
  }

  /** Two pages whose addresses are less than `2^48` apart and page aligned have the same number only if equal. */
  lemma SamePage(low: nat, a: nat, b: nat)
    requires low % PAGE_SIZE == 0 && a % PAGE_SIZE == 0 && b % PAGE_SIZE == 0
    requires low <= a < low + 0x1_0000_0000_0000 && low <= b < low + 0x1_0000_0000_0000
    requires PageNumber(a) == PageNumber(b)
    ensures a == b
  {
    var x, y, c := (a - low) / PAGE_SIZE, (b - low) / PAGE_SIZE, low / PAGE_SIZE;
    assert a / PAGE_SIZE == x + c && b / PAGE_SIZE == y + c;
    assert x < PAGE_NUMBERS && y < PAGE_NUMBERS;
  }

  lemma DisjointPages(low: nat, s: Segment, t: Segment)
    requires low % PAGE_SIZE == 0 && s.vaddr % PAGE_SIZE == 0 && t.vaddr % PAGE_SIZE == 0
    requires low <= s.vaddr && s.vaddr + s.memSize <= low + 0x1_0000_0000_0000
    requires low <= t.vaddr && t.vaddr + t.memSize <= low + 0x1_0000_0000_0000
    requires s.vaddr + s.memSize <= t.vaddr || t.vaddr + t.memSize <= s.vaddr
    ensures PagesDisjoint(s, t)
  {
    hide PageNumber;
    PagesNeeded(s);
    PagesNeeded(t);
    forall p: nat, q: nat | p < s.PageCount() && q < t.PageCount()
      ensures s.NumberOf(p) != t.NumberOf(q)
    {
      if s.NumberOf(p) == t.NumberOf(q) {
        SamePage(low, s.vaddr + p * PAGE_SIZE, t.vaddr + q * PAGE_SIZE);
      }
    }
  }

  /** What the ELF format asks of a loadable segment, and a place for it in a window of `2^48` addresses. */
  predicate Orderly(file: ElfFile, low: nat, seg: Segment) {
    && seg.offset + seg.fileSize <= |file.data| && seg.fileSize <= seg.memSize && seg.vaddr % 4096 == 0
    && low <= seg.vaddr && seg.vaddr + seg.memSize <= low + 0x1_0000_0000_0000
    && seg.vaddr + seg.memSize <= WORD_SIZE - 4096
  }

  /** Page-aligned segments on disjoint address ranges can always be loaded. */
  lemma ApartIsWellPlaced(file: ElfFile, low: nat)
    requires low % 4096 == 0
    requires forall i: nat | i < |file.segments| && (file.segments[i].kind == 1 || file.segments[i].kind == 7) ::
               Orderly(file, low, file.segments[i])
    requires forall i: nat, j: nat | i < j < |file.segments| &&
               (file.segments[i].kind == 1 || file.segments[i].kind == 7) &&
               (file.segments[j].kind == 1 || file.segments[j].kind == 7) ::
               file.segments[i].vaddr + file.segments[i].memSize <= file.segments[j].vaddr ||
               file.segments[j].vaddr + file.segments[j].memSize <= file.segments[i].vaddr
    ensures WellPlaced(file)
  {
    hide PagesDisjoint;
    forall i: nat | i < |file.segments| && file.segments[i].Loadable()
      ensures file.segments[i].End() < WORD_SIZE && file.segments[i].PageCount() <= PAGE_NUMBERS
    {
      assert Orderly(file, low, file.segments[i]);
      PagesNeeded(file.segments[i]);
      PagesEnd(file.segments[i]);
    }
    forall i: nat, j: nat | i < j < |file.segments| && file.segments[i].Loadable() && file.segments[j].Loadable()
      ensures PagesDisjoint(file.segments[i], file.segments[j])
    {
      assert Orderly(file, low, file.segments[i]) && Orderly(file, low, file.segments[j]);
      DisjointPages(low, file.segments[i], file.segments[j]);
    }
  }

  lemma InPlaceIsWellPlaced(mem: Memory, root: u64, file: ElfFile, phys: seq<nat>)
    requires InPlace(mem, root, file, file.segments, phys)
    ensures WellPlaced(file)
  {
    hide PagesDisjoint;
  }

  /** In a well-placed file the next segment finds its pages unmapped. */
  lemma NextIsMappable(mem: Memory, root: u64, file: ElfFile, i: nat)
    requires WellPlaced(file) && i < |file.segments| && file.segments[i].Loadable()
    requires OnlyPages(mem, root, file.segments[..i])
    ensures Mappable(mem, root, file, file.segments[i])
  {
    var seg := file.segments[i];
    forall q: nat | q < seg.PageCount()
      ensures LeafEntry(mem, root, seg.NumberOf(q)) == None
    {
      forall j: nat | j < i && file.segments[j].Loadable()
        ensures !HasPage(file.segments[j], seg.NumberOf(q))
      {
        assert PagesDisjoint(file.segments[j], seg);
      }
    }
  }

  /** The address range contains every loaded segment, and both its ends are attained. */
  ghost predicate Spans(segments: seq<Segment>, start: nat, end: nat) {
    && (forall i: nat | i < |segments| && segments[i].Loadable() ::
          start <= segments[i].vaddr && segments[i].End() <= end)
    && (start == WORD_SIZE - 1 ||
        exists i: nat :: i < |segments| && segments[i].Loadable() && segments[i].vaddr == start)
    && (end == 0 || exists i: nat :: i < |segments| && segments[i].Loadable() && segments[i].End() == end)
  }

  lemma SpansMore(segments: seq<Segment>, start: nat, end: nat, seg: Segment, start': nat, end': nat)
    requires Spans(segments, start, end) && seg.Loadable()
    requires start' == if seg.vaddr < start then seg.vaddr else start
    requires end' == if seg.End() > end then seg.End() else end
    ensures Spans(segments + [seg], start', end')
  {
    var more := segments + [seg];
    assert more[|segments|] == seg;
    if start' == start && start != WORD_SIZE - 1 {
      var i: nat :| i < |segments| && segments[i].Loadable() && segments[i].vaddr == start;
      assert more[i] == segments[i];
    }
    if end' == end && end != 0 {
      var i: nat :| i < |segments| && segments[i].Loadable() && segments[i].End() == end;
      assert more[i] == segments[i];
    }
  }

  lemma SpansSame(segments: seq<Segment>, start: nat, end: nat, seg: Segment)
    requires Spans(segments, start, end) && !seg.Loadable()
    ensures Spans(segments + [seg], start, end)
  {
    var more := segments + [seg];
    if start != WORD_SIZE - 1 {
      var i: nat :| i < |segments| && segments[i].Loadable() && segments[i].vaddr == start;
      assert more[i] == segments[i];
    }
    if end != 0 {
      var i: nat :| i < |segments| && segments[i].Loadable() && segments[i].End() == end;
      assert more[i] == segments[i];
    }
  }

  /** The lowest address of a loadable segment and the highest end of one. */
  function FirstAddress(segments: seq<Segment>): nat {
    if segments == [] then WORD_SIZE - 1
    else
      var last, first := segments[|segments| - 1], FirstAddress(segments[..|segments| - 1]);
      if last.Loadable() && last.vaddr < first then last.vaddr else first
  }

  function LastEnd(segments: seq<Segment>): nat {
    if segments == [] then 0
    else
      var last, end := segments[|segments| - 1], LastEnd(segments[..|segments| - 1]);
      if last.Loadable() && last.End() > end then last.End() else end
  }

  lemma {:induction false} SpanAttained(segments: seq<Segment>)
    ensures Spans(segments, FirstAddress(segments), LastEnd(segments))
  {
    hide Spans;
    if segments == [] {
      NothingSpanned();
    } else {
      var k := |segments| - 1;
      SpanAttained(segments[..k]);
      assert segments == segments[..k] + [segments[k]];
      if segments[k].Loadable() {
        SpansMore(segments[..k], FirstAddress(segments[..k]), LastEnd(segments[..k]), segments[k],
                  FirstAddress(segments), LastEnd(segments));
      } else {
        SpansSame(segments[..k], FirstAddress(segments[..k]), LastEnd(segments[..k]), segments[k]);
      }
    }
  }

  lemma NothingSpanned()
    ensures Spans([], WORD_SIZE - 1, 0)
  {
  }

  /** The range in terms of the headers: it ends with the last page some segment has memory in. */
  lemma SpanCovers(segments: seq<Segment>, start: nat, end: nat)
    requires Spans(segments, start, end)
    ensures forall i: nat | i < |segments| && (segments[i].kind == 1 || segments[i].kind == 7) ::
              start <= segments[i].vaddr && segments[i].vaddr + segments[i].memSize <= end
    ensures end == 0 ||
            (exists i: nat :: i < |segments| && (segments[i].kind == 1 || segments[i].kind == 7) &&
               (end - segments[i].vaddr) % 4096 == 0 && end < segments[i].vaddr + segments[i].memSize + 4096)
  {
    forall i: nat | i < |segments| {
      PagesEnd(segments[i]);
    }
  }

  /** The address range is determined by the segments. */
  lemma SpansExactly(segments: seq<Segment>, start: nat, end: nat)
    requires Spans(segments, start, end)
    ensures start == FirstAddress(segments) < WORD_SIZE && end == LastEnd(segments)
  {
    SpanAttained(segments);
  }

  /** The thread-local template: the last TLS segment, if any. */
  function TlsOf(segments: seq<Segment>): Option<(nat, nat)> {
    if segments == [] then None
    else
      var last := segments[|segments| - 1];
      if last.kind == TLS then Some((last.vaddr, last.vaddr + last.memSize)) else TlsOf(segments[..|segments| - 1])
  }

  lemma TlsMore(segments: seq<Segment>, seg: Segment)
    ensures TlsOf([]) == None
    ensures TlsOf(segments + [seg]) ==
            if seg.kind == TLS then Some((seg.vaddr, seg.vaddr + seg.memSize)) else TlsOf(segments)
  {
    assert (segments + [seg])[..|segments|] == segments;
  }

  lemma {:induction false} TlsIsLast(segments: seq<Segment>, i: nat)
    requires i < |segments| && segments[i].kind == TLS
    requires forall j: nat | i < j < |segments| :: segments[j].kind != TLS
    ensures TlsOf(segments) == Some((segments[i].vaddr, segments[i].vaddr + segments[i].memSize))
    decreases |segments|
  {
    if i == |segments| - 1 {
    } else {
      TlsIsLast(segments[..|segments| - 1], i);
    }
  }

  /** All requests made for the segments, in order, after those for a new page table. */
  function KernelAsks(segments: seq<Segment>, tables: seq<nat>): seq<Ask>
    requires |tables| == |segments|
  {
    if segments == [] then NewTableAsks()
    else
      var k := |segments| - 1;
      KernelAsks(segments[..k], tables[..k]) +
      (if segments[k].Loadable() then SegmentAsks(segments[k], tables[k]) else [])
  }

  lemma KernelSupply(stock: Stock, segments: seq<Segment>, tables: seq<nat>, seg: Segment, n: nat)
    requires |tables| == |segments|
    ensures Supply(stock, KernelAsks(segments + [seg], tables + [n])) ==
            match Supply(stock, KernelAsks(segments, tables))
            case None => None
            case Some(left) => if seg.Loadable() then Supply(left, SegmentAsks(seg, n)) else Some(left)
  {
    hide Supply, SegmentAsks;
    assert (segments + [seg])[..|segments|] == segments && (tables + [n])[..|tables|] == tables;
    var asks := KernelAsks(segments, tables);
    if seg.Loadable() {
      SupplyMore(stock, asks, SegmentAsks(seg, n));
    } else {
      assert asks + [] == asks;
    }
  }

  /** The tables asked for stay within the bound for the segment's pages. */
  predicate TablesBounded(segments: seq<Segment>, tables: seq<nat>) {
    |tables| <= |segments| && forall i: nat | i < |tables| :: tables[i] <= TablesFor(segments[i].PageCount())
  }

  /**
   Builds a page table and loads every loadable segment. `tables` says how many tables were asked for with
   each segment, up to the one the firmware was short of memory at, if any.
   */
  method LoadKernel(machine: Machine, file: ElfFile)
    returns (r: Outcome<KernelLoadInfo>, ghost phys: seq<nat>, ghost tables: seq<nat>)
    requires Framed(machine.memory)
    modifies machine
    ensures machine.refusals >= old(machine.refusals)
    ensures r.Loaded? <==> machine.refusals == old(machine.refusals) && WellPlaced(file)
    ensures r.Failed? ==> machine.refusals > old(machine.refusals)
    ensures TablesBounded(file.segments, tables)
    ensures WellPlaced(file) ==>
              (r.Loaded? <==> Supply(old(machine.Stocked()), KernelAsks(file.segments[..|tables|], tables)).Some?)
    ensures r.Loaded? ==>
              && |tables| == |file.segments|
              && Supply(old(machine.Stocked()), KernelAsks(file.segments, tables)) == Some(machine.Stocked())
    ensures r.Loaded? ==> OnlyPages(machine.memory, r.value.table.root, file.segments)
    ensures r.Loaded? ==>
              && r.value.table.machine == machine && r.value.table.Valid()
              && InPlace(machine.memory, r.value.table.root, file, file.segments, phys)
              && Spans(file.segments, r.value.start, r.value.end)
              && TlsOf(file.segments) in {None, Some((r.value.tlsStart, r.value.tlsEnd))}
              && (TlsOf(file.segments).None? ==> r.value.tlsStart == r.value.tlsEnd == 0)
  {
    hide InPlace, Spans, WellFormed, Placed, Preserves, IsNode, OnlyPages, WellPlaced, Mappable, AddsOnly;
    hide LeafEntry, UpperLinked, Framed, PageNumber, TlsOf;
    hide Supply, KernelAsks, SegmentAsks, NewTableAsks, Honours, Honoured, TablesFor, FailsWith;
    phys, tables := [], [];
    ghost var stock := machine.Stocked();
    NoSegments(file.segments);
    var created := TryNew(machine);
    if created.Err? {
      return Failed, phys, tables;
    }
    var table := created.value;
    var start: nat, end: nat := WORD_SIZE - 1, 0;
    var tls: Option<(nat, nat)> := None;
    NothingYet(machine.memory, table.root, file);
    assert file.segments[..0] == [];
    for i := 0 to |file.segments|
      invariant table.Valid()
      invariant InPlace(machine.memory, table.root, file, file.segments[..i], phys)
      invariant Spans(file.segments[..i], start, end)
      invariant tls == TlsOf(file.segments[..i])
      invariant OnlyPages(machine.memory, table.root, file.segments[..i]) && machine.refusals == old(machine.refusals)
      invariant |tables| == i && TablesBounded(file.segments, tables)
      invariant Supply(stock, KernelAsks(file.segments[..i], tables)) == Some(machine.Stocked())
    {
      var seg := file.segments[i];
      ghost var before := machine.memory;
      assert file.segments[..i + 1] == file.segments[..i] + [seg];
      TlsMore(file.segments[..i], seg);
      if seg.Loadable() {
        if WellPlaced(file) {
          NextIsMappable(before, table.root, file, i);
        }
        ghost var n;
        var loaded;
        loaded, n := LoadAndMap(table, file, seg);
        KernelSupply(stock, file.segments[..i], tables, seg, n);
        tables := tables + [n];
        if !loaded.Loaded? {
          return Panicked, phys, tables;
        }
        OneMoreInPlace(before, machine.memory, table.root, file, file.segments[..i], phys, seg, loaded.value.physical);
        OnlyPagesMore(before, machine.memory, table.root, file.segments[..i], seg);
        phys := phys + [loaded.value.physical];
        ghost var start0: nat, end0: nat := start, end;
        if loaded.value.virtual < start { start := loaded.value.virtual; }
        var lastPage := loaded.value.virtual + loaded.value.pageCount * PAGE_SIZE;
        if lastPage > end { end := lastPage; }
        SpansMore(file.segments[..i], start0, end0, seg, start, end);
        if seg.kind == TLS {
          tls := Some((seg.vaddr, seg.vaddr + seg.memSize));
        }
      } else {
        OneSkipped(machine.memory, table.root, file, file.segments[..i], phys, seg);
        OnlyPagesMore(before, before, table.root, file.segments[..i], seg);
        phys := phys + [0];
        KernelSupply(stock, file.segments[..i], tables, seg, 0);
        tables := tables + [0];
        SpansSame(file.segments[..i], start, end, seg);
      }
    }
    assert file.segments[..|file.segments|] == file.segments;
    InPlaceIsWellPlaced(machine.memory, table.root, file, phys);
    var (tlsStart, tlsEnd) := if tls.Some? then tls.value else (0, 0);
    return Loaded(KernelLoadInfo(table, start, end, tlsStart, tlsEnd)), phys, tables;
  }

  lemma NoSegments(segments: seq<Segment>)
    ensures segments[..0] == [] && KernelAsks([], []) == NewTableAsks()
  {
  }

  lemma NothingYet(mem: Memory, root: u64, file: ElfFile)
    requires forall v: nat :: LeafEntry(mem, root, v) == None
    ensures OnlyPages(mem, root, file.segments[..0])
    ensures InPlace(mem, root, file, file.segments[..0], [])
    ensures Spans(file.segments[..0], WORD_SIZE - 1, 0) && TlsOf([]) == None
  {
  }

  // ---------- memory as the running kernel sees it ----------

  /** The byte reached through the page table at a virtual address. */
  function ReadThrough(mem: Memory, root: u64, va: u64): Option<u8> {
    match Translate(mem, root, va)
    case None => None
    case Some(frame) => if Backed(mem, frame + va % PAGE_SIZE) then Some(ByteAt(mem, frame + va % PAGE_SIZE)) else None
  }

  /** Page by page, the segment's pages translate to its block, from the page holding vaddr on. */
  lemma PlacedTranslates(mem: Memory, root: u64, file: ElfFile, seg: Segment, phys: nat, k: nat)
    requires Placed(mem, root, file, seg, phys) && k < seg.PageCount() * PAGE_SIZE
    ensures FrameOf(seg.vaddr) + k < WORD_SIZE
    ensures Translate(mem, root, FrameOf(seg.vaddr) + k) == Some(phys + FrameOf(k))
  {
    hide HoldsImage, LeafEntry, Translate, Encoded, IsNode, Block;
    var p := k / PAGE_SIZE;
    OffsetPage(seg.vaddr, seg.PageCount(), phys, k);
    assert LeafEntry(mem, root, seg.NumberOf(p)) == Some(Encoded(phys + p * PAGE_SIZE, 0));
    LeafTranslates(mem, root, FrameOf(seg.vaddr) + k, phys + p * PAGE_SIZE);
  }

  lemma OffsetPage(vaddr: nat, count: nat, phys: nat, k: nat)
    requires k < count * PAGE_SIZE && phys % PAGE_SIZE == 0
    requires vaddr + count * PAGE_SIZE < WORD_SIZE && phys + count * PAGE_SIZE <= PHYSICAL_LIMIT
    ensures FrameOf(vaddr) + k < WORD_SIZE
    ensures PageNumber(FrameOf(vaddr) + k) == PageNumber(vaddr + k / PAGE_SIZE * PAGE_SIZE)
    ensures k / PAGE_SIZE < count
    ensures phys + k / PAGE_SIZE * PAGE_SIZE == phys + FrameOf(k) < PHYSICAL_LIMIT
    ensures (phys + k / PAGE_SIZE * PAGE_SIZE) % PAGE_SIZE == 0
  {
    assert (FrameOf(vaddr) + k) / PAGE_SIZE == vaddr / PAGE_SIZE + k / PAGE_SIZE;
    assert (vaddr + k / PAGE_SIZE * PAGE_SIZE) / PAGE_SIZE == vaddr / PAGE_SIZE + k / PAGE_SIZE;
  }

  /** The memory image appears at the page holding vaddr: file bytes, then zeros up to the memory size. */
  lemma PlacedImage(mem: Memory, root: u64, file: ElfFile, seg: Segment, phys: nat, k: nat)
    requires Placed(mem, root, file, seg, phys) && k < seg.memSize
    ensures FrameOf(seg.vaddr) + k < WORD_SIZE
    ensures ReadThrough(mem, root, FrameOf(seg.vaddr) + k) == Some(ImageByte(file, seg, k))
  {
    hide Translate;
    PlacedTranslates(mem, root, file, seg, phys, k);
    var va: u64 := FrameOf(seg.vaddr) + k;
    assert va % PAGE_SIZE == k % PAGE_SIZE;
    assert phys + FrameOf(k) + k % PAGE_SIZE == phys + k;
    assert HoldsByte(mem, file, seg, phys, k);
  }

  /** Every loaded segment with an aligned address reads back as its ELF memory image. */
  lemma KernelImage(mem: Memory, root: u64, file: ElfFile, phys: seq<nat>, i: nat, k: nat)
    requires InPlace(mem, root, file, file.segments, phys)
    requires i < |file.segments| && (file.segments[i].kind == 1 || file.segments[i].kind == 7)
    requires file.segments[i].vaddr % 4096 == 0 && k < file.segments[i].memSize
    ensures file.segments[i].offset + file.segments[i].fileSize <= |file.data|
    ensures file.segments[i].vaddr + k < WORD_SIZE
    ensures ReadThrough(mem, root, file.segments[i].vaddr + k) ==
            Some(if k < file.segments[i].fileSize then file.data[file.segments[i].offset + k] else 0)
  {
    hide ReadThrough, PagesDisjoint;
    PlacedImage(mem, root, file, file.segments[i], phys[i], k);
  }

  /** The access at vaddr + k lands on byte k of the segment's block. */
  predicate Reaches(mem: Memory, root: u64, seg: Segment, phys: nat, k: nat) {
    && seg.vaddr + k < WORD_SIZE
    && Translate(mem, root, seg.vaddr + k).Some?
    && Translate(mem, root, seg.vaddr + k).value + (seg.vaddr + k) % PAGE_SIZE == phys + k
  }

  /**
   The image starts at vaddr, as the ELF format asks, exactly when vaddr is page aligned: the loader
   places it at the start of the page in any case.
   */
  lemma AlignedExactly(mem: Memory, root: u64, file: ElfFile, seg: Segment, phys: nat)
    requires Placed(mem, root, file, seg, phys) && seg.memSize > 0
    ensures (forall k: nat | k < seg.memSize :: Reaches(mem, root, seg, phys, k)) <==> seg.vaddr % PAGE_SIZE == 0
  {
    hide Placed, Translate;
    if seg.vaddr % PAGE_SIZE == 0 {
      forall k: nat | k < seg.memSize
        ensures Reaches(mem, root, seg, phys, k)
      {
        PlacedTranslates(mem, root, file, seg, phys, k);
        assert (seg.vaddr + k) % PAGE_SIZE == k % PAGE_SIZE;
      }
    } else {
      PlacedTranslates(mem, root, file, seg, phys, seg.vaddr % PAGE_SIZE);
      assert !Reaches(mem, root, seg, phys, 0);
    }
  }

  /** One byte at address 0x1001, in a file the loader accepts. */
  function MisalignedFile(): ElfFile {
    ElfFile([7], [Segment(LOAD, false, 0, 0x1001, 1, 1)])
  }

  lemma MisalignedIsWellPlaced()
    ensures WellPlaced(MisalignedFile())
  {
  }

  /** Loading it succeeds, puts the byte at 0x1000, and the access at 0x1001 misses it. */
  method LoadMisaligned(machine: Machine) returns (r: Outcome<KernelLoadInfo>, ghost phys: seq<nat>)
    requires Framed(machine.memory)
    modifies machine
    ensures r.Loaded? <==> machine.refusals == old(machine.refusals)
    ensures r.Loaded? ==> |phys| == 1 && ReadThrough(machine.memory, r.value.table.root, 0x1000) == Some(7)
    ensures r.Loaded? ==>
              !Reaches(machine.memory, r.value.table.root, MisalignedFile().segments[0], phys[0], 0)
  {
    hide WellPlaced, Placed, ReadThrough, Translate, OnlyPages, Spans, TlsOf, PagesDisjoint, WellFormed;
    hide Supply, KernelAsks, TablesBounded, Framed, UpperLinked, TablesFor;
    MisalignedIsWellPlaced();
    ghost var tables;
    r, phys, tables := LoadKernel(machine, MisalignedFile());
    if r.Loaded? {
      var seg := MisalignedFile().segments[0];
      PlacedImage(machine.memory, r.value.table.root, MisalignedFile(), seg, phys[0], 0);
      PlacedTranslates(machine.memory, r.value.table.root, MisalignedFile(), seg, phys[0], 1);
    }
  }
}
