/** The two mapping loops over the firmware's memory map: the direct map and the identity map. */
module DirectMap {
  import opened Bits
  import opened Options
  import opened PageEntry
  import opened PageTree
  import opened PageRange
  import opened Machines
  import opened Paging

  const PAGE_MAP_OFFSET: u64 := 0xffff_8000_0000_0000
  const PAGE_MAP_OFFSET_LEN: nat := 0x4000_0000_0000

  datatype MemoryType =
    | LoaderCode | LoaderData | BootServicesCode | BootServicesData
    | RuntimeServicesCode | RuntimeServicesData | Conventional
    | AcpiReclaim | AcpiNonVolatile | PersistentMemory
    | KernelCode | ModuleCode | PageTableMemory | KernelStack
    | Other(code: nat)

  datatype Descriptor = Descriptor(ty: MemoryType, start: u64, pages: nat) {
    function End(): nat { start + pages * PAGE_SIZE }
    function Address(p: nat): nat { start + p * PAGE_SIZE }
    predicate DirectMapped() { !ty.Other? }
    predicate IdentityMapped(stackPtr: nat) {
      ty == LoaderData || ty == LoaderCode || start <= stackPtr < End()
    }
  }

  /** `TooMuchMemory` is the failed assertion on the physical size, `NotMapped` the panic of `unwrap`. */
  datatype Outcome = Done | TooMuchMemory | NotMapped(why: MapResult) {
    function Refusal(): Option<nat> { if NotMapped? then why.Refusal() else None }
  }

  /** The virtual page number used for page p of a region mapped at an offset. */
  function WindowPage(d: Descriptor, offset: u64, p: nat): nat {
    PageNumber(d.start + offset + p * PAGE_SIZE)
  }

  ghost predicate InWindow(ds: seq<Descriptor>, offset: u64, w: nat) {
    exists i: nat, p: nat :: i < |ds| && p < ds[i].pages && WindowPage(ds[i], offset, p) == w
  }

  /** All pages of the regions are mapped at the offset, to their own frames. */
  ghost predicate WindowLeaves(mem: Memory, root: u64, ds: seq<Descriptor>, offset: u64) {
    forall i: nat, p: nat | i < |ds| && p < ds[i].pages ::
      ds[i].Address(p) < WORD_SIZE &&
      LeafEntry(mem, root, WindowPage(ds[i], offset, p)) == Some(Encoded(ds[i].Address(p), 0))
  }

  /** They are, they were unmapped before, and nothing else changed. */
  ghost predicate WindowMapped(before: Memory, mem: Memory, root: u64, ds: seq<Descriptor>, offset: u64) {
    && WindowLeaves(mem, root, ds, offset)
    && (forall w: nat ::
          if InWindow(ds, offset, w) then LeafEntry(before, root, w) == None
          else LeafEntry(mem, root, w) == LeafEntry(before, root, w))
  }

  /** No two pages of the regions share a virtual page number. */
  ghost predicate DistinctPages(ds: seq<Descriptor>, offset: u64) {
    forall i: nat, p: nat, j: nat, q: nat | i < |ds| && p < ds[i].pages && j < |ds| && q < ds[j].pages ::
      WindowPage(ds[i], offset, p) == WindowPage(ds[j], offset, q) ==> i == j && p == q
  }

  ghost predicate Unmapped(mem: Memory, root: u64, ds: seq<Descriptor>, offset: u64) {
    forall w: nat | InWindow(ds, offset, w) :: LeafEntry(mem, root, w) == None
  }

  predicate FitsBelow(ds: seq<Descriptor>, limit: nat) {
    forall i: nat, p: nat | i < |ds| && p < ds[i].pages :: ds[i].Address(p) < limit
  }

  /** What a loop has done after the pages of `done`: they are all mapped, distinct and below the limit. */
  ghost predicate Progress(before: Memory, mem: Memory, root: u64, done: seq<Descriptor>, offset: u64, limit: nat) {
    WindowMapped(before, mem, root, done, offset) && DistinctPages(done, offset) && FitsBelow(done, limit)
  }

  /** The first regions, and the first pages of the last of them. */
  predicate PartOf(done: seq<Descriptor>, ds: seq<Descriptor>) {
    && |done| <= |ds|
    && (forall i: nat | i < |done| :: done[i].pages <= ds[i].pages && done[i] == ds[i].(pages := done[i].pages))
    && (forall i: nat | i + 1 < |done| :: done[i] == ds[i])
  }

  // ---------- one page at a time ----------

  lemma NewRegion(
      before: Memory, mem: Memory, root: u64, ds: seq<Descriptor>, d: Descriptor, offset: u64, limit: nat)
    requires Progress(before, mem, root, ds, offset, limit)
    ensures Progress(before, mem, root, ds + [d.(pages := 0)], offset, limit)
  {
    var more := ds + [d.(pages := 0)];
    forall w: nat
      ensures InWindow(ds, offset, w) <==> InWindow(more, offset, w)
    {
      if InWindow(ds, offset, w) {
        var i: nat, p: nat :| i < |ds| && p < ds[i].pages && WindowPage(ds[i], offset, p) == w;
        assert more[i] == ds[i];
      }
    }
  }

  /** Being in the window with one more page. */
  lemma WindowGrows(ds: seq<Descriptor>, d: Descriptor, p: nat, offset: u64, w: nat)
    ensures InWindow(ds + [d.(pages := p + 1)], offset, w) <==>
            InWindow(ds + [d.(pages := p)], offset, w) || WindowPage(d, offset, p) == w
  {
    var less, more := ds + [d.(pages := p)], ds + [d.(pages := p + 1)];
    assert forall i: nat | i < |ds| :: less[i] == more[i];
    assert forall q: nat ::
        WindowPage(less[|ds|], offset, q) == WindowPage(more[|ds|], offset, q) == WindowPage(d, offset, q);
    if InWindow(less, offset, w) {
      var i: nat, q: nat :| i < |less| && q < less[i].pages && WindowPage(less[i], offset, q) == w;
      assert i < |more| && q < more[i].pages && WindowPage(more[i], offset, q) == w;
    }
    if WindowPage(d, offset, p) == w {
      assert p < more[|ds|].pages && WindowPage(more[|ds|], offset, p) == w;
    }
  }

  lemma NewLeaves(
      before: Memory, mem: Memory, mem': Memory, root: u64, ds: seq<Descriptor>, d: Descriptor, p: nat, offset: u64)
    requires WindowMapped(before, mem, root, ds + [d.(pages := p)], offset)
    requires d.Address(p) < WORD_SIZE
    requires MapsOne(mem, mem', root, WindowPage(d, offset, p), Encoded(d.Address(p), 0))
    ensures WindowMapped(before, mem', root, ds + [d.(pages := p + 1)], offset)
  {
    hide LeafEntry, Encoded, PageNumber;
    var less, more := ds + [d.(pages := p)], ds + [d.(pages := p + 1)];
    forall i: nat, q: nat | i < |more| && q < more[i].pages
      ensures more[i].Address(q) < WORD_SIZE
      ensures LeafEntry(mem', root, WindowPage(more[i], offset, q)) == Some(Encoded(more[i].Address(q), 0))
    {
      if i < |ds| || q < p {
        assert q < less[i].pages;
        assert LeafEntry(mem, root, WindowPage(less[i], offset, q)) == Some(Encoded(less[i].Address(q), 0));
      }
    }
    forall w: nat
      ensures if InWindow(more, offset, w) then LeafEntry(before, root, w) == None
              else LeafEntry(mem', root, w) == LeafEntry(before, root, w)
    {
      WindowGrows(ds, d, p, offset, w);
    }
  }

  /** A page that was unmapped after all the pages before it is none of them. */
  lemma NewPageDistinct(mem: Memory, root: u64, ds: seq<Descriptor>, d: Descriptor, p: nat, offset: u64)
    requires DistinctPages(ds + [d.(pages := p)], offset) && WindowLeaves(mem, root, ds + [d.(pages := p)], offset)
    requires LeafEntry(mem, root, WindowPage(d, offset, p)) == None
    ensures DistinctPages(ds + [d.(pages := p + 1)], offset)
  {
    hide LeafEntry, Encoded, PageNumber;
    var less, more := ds + [d.(pages := p)], ds + [d.(pages := p + 1)];
    forall i: nat, q: nat | i < |more| && q < more[i].pages && !(i == |ds| && q == p)
      ensures q < less[i].pages && WindowPage(less[i], offset, q) == WindowPage(more[i], offset, q)
      ensures WindowPage(more[i], offset, q) != WindowPage(d, offset, p)
    {
      assert i < |less| && q < less[i].pages;
      assert LeafEntry(mem, root, WindowPage(less[i], offset, q)).Some?;
    }
    assert WindowPage(more[|ds|], offset, p) == WindowPage(d, offset, p);
  }

  lemma NewPage(
      before: Memory, mem: Memory, mem': Memory, root: u64, ds: seq<Descriptor>, d: Descriptor, p: nat, offset: u64,
      limit: nat)
    requires Progress(before, mem, root, ds + [d.(pages := p)], offset, limit)
    requires d.Address(p) < limit <= WORD_SIZE
    requires MapsOne(mem, mem', root, WindowPage(d, offset, p), Encoded(d.Address(p), 0))
    ensures Progress(before, mem', root, ds + [d.(pages := p + 1)], offset, limit)
  {
    hide WindowMapped, DistinctPages, WindowPage, LeafEntry, Encoded;
    NewLeaves(before, mem, mem', root, ds, d, p, offset);
    MappedLeaves(before, mem, root, ds + [d.(pages := p)], offset);
    NewPageDistinct(mem, root, ds, d, p, offset);
    var less, more := ds + [d.(pages := p)], ds + [d.(pages := p + 1)];
    forall i: nat, q: nat | i < |more| && q < more[i].pages
      ensures more[i].Address(q) < limit
    {
      if i < |ds| || q < p {
        assert q < less[i].pages && less[i].Address(q) < limit;
      }
    }
  }

  lemma MappedLeaves(before: Memory, mem: Memory, root: u64, ds: seq<Descriptor>, offset: u64)
    requires WindowMapped(before, mem, root, ds, offset)
    ensures WindowLeaves(mem, root, ds, offset) && Unmapped(before, root, ds, offset)
  {
  }

  lemma SameProgress(
      before: Memory, mem: Memory, mem': Memory, root: u64, ds: seq<Descriptor>, offset: u64, limit: nat)
    requires Progress(before, mem, root, ds, offset, limit) && SameLeaves(mem, mem', root)
    ensures Progress(before, mem', root, ds, offset, limit)
  {
    hide LeafEntry, Encoded, PageNumber;
  }

  /** A page that was already mapped was mapped before the loop or is a page met twice. */
  lemma WhyMapped(
      before: Memory, mem: Memory, root: u64, ds: seq<Descriptor>, i: nat, p: nat, offset: u64, limit: nat)
    requires i < |ds| && p < ds[i].pages
    requires Progress(before, mem, root, ds[..i] + [ds[i].(pages := p)], offset, limit)
    requires LeafEntry(mem, root, WindowPage(ds[i], offset, p)).Some?
    ensures !(DistinctPages(ds, offset) && Unmapped(before, root, ds, offset))
  {
    var w := WindowPage(ds[i], offset, p);
    var done := ds[..i] + [ds[i].(pages := p)];
    if InWindow(done, offset, w) {
      var j: nat, q: nat :| j < |done| && q < done[j].pages && WindowPage(done[j], offset, q) == w;
      assert WindowPage(ds[j], offset, q) == w && q < ds[j].pages;
      assert j != i || q != p;
    } else {
      assert InWindow(ds, offset, w);
      assert LeafEntry(before, root, w).Some?;
    }
  }

  /** One of the two loops: maps every page of the regions at the offset. */
  method MapWindow(table: PageTable, ds: seq<Descriptor>, offset: u64, limit: nat)
    returns (r: Outcome, ghost done: seq<Descriptor>)
    requires table.Valid() && limit + offset <= WORD_SIZE
    modifies table.machine
    ensures table.Valid() && Grows(old(table.machine.memory), table.machine.memory, table.root)
    ensures table.machine.refusals == old(table.machine.refusals) + Refused(r.NotMapped? && r.why.AllocationError?)
    ensures Served(old(table.machine.Stocked()), table.machine.Stocked(), r.Refusal())
    ensures r.NotMapped? ==> r.why != Mapped
    ensures PartOf(done, ds) && (r == Done ==> done == ds)
    ensures Progress(old(table.machine.memory), table.machine.memory, table.root, done, offset, limit)
    ensures r == TooMuchMemory ==> !FitsBelow(ds, limit)
    ensures r == NotMapped(AlreadyMapped) ==>
              !(DistinctPages(ds, offset) && Unmapped(old(table.machine.memory), table.root, ds, offset))
  {
    hide Progress, DistinctPages, Unmapped, WellFormed, Grows, Missing, MapsOne, SameLeaves, PageNumber;
    hide LeafEntry, Encoded, Framed, PointedFrame, Served, Supply;
    ghost var before, root, stock := table.machine.memory, table.root, table.machine.Stocked();
    NothingServed(stock);
    NoFlags();
    NoRegions(before, root, offset, limit);
    GrowsReflexive(before, root);
    for i := 0 to |ds|
      invariant table.Valid() && Grows(before, table.machine.memory, root)
      invariant Progress(before, table.machine.memory, root, ds[..i], offset, limit)
      invariant table.machine.refusals == old(table.machine.refusals) && Served(stock, table.machine.Stocked(), None)
    {
      NewRegion(before, table.machine.memory, root, ds[..i], ds[i], offset, limit);
      for p := 0 to ds[i].pages
        invariant table.Valid() && Grows(before, table.machine.memory, root)
        invariant Progress(before, table.machine.memory, root, ds[..i] + [ds[i].(pages := p)], offset, limit)
        invariant table.machine.refusals == old(table.machine.refusals) && Served(stock, table.machine.Stocked(), None)
      {
        done := ds[..i] + [ds[i].(pages := p)];
        var addr := ds[i].start + p * PAGE_SIZE;
        if addr >= limit {
          assert ds[i].Address(p) >= limit;
          return TooMuchMemory, done;
        }
        ghost var mem, so := table.machine.memory, table.machine.Stocked();
        var mapped := table.TryMapPageWith(addr + offset, addr, 0);
        ServedThen(stock, so, table.machine.Stocked(), mapped.Refusal());
        GrowsTransitive(before, mem, table.machine.memory, root);
        assert addr + offset == ds[i].start + offset + p * PAGE_SIZE;
        if mapped != Mapped {
          SameProgress(before, mem, table.machine.memory, root, done, offset, limit);
          if mapped == AlreadyMapped {
            WhyMapped(before, mem, root, ds, i, p, offset, limit);
          }
          return NotMapped(mapped), done;
        }
        NewPage(before, mem, table.machine.memory, root, ds[..i], ds[i], p, offset, limit);
      }
      assert ds[i].(pages := ds[i].pages) == ds[i];
      assert ds[..i + 1] == ds[..i] + [ds[i]];
    }
    assert ds[..|ds|] == ds;
    return Done, ds;
  }

  lemma NoRegions(mem: Memory, root: u64, offset: u64, limit: nat)
    ensures Progress(mem, mem, root, [], offset, limit)
  {
  }

  // ---------- which regions, and when their pages are distinct ----------

  function Filter(keep: Descriptor -> bool, ds: seq<Descriptor>): seq<Descriptor> {
    if ds == [] then []
    else
      var d := ds[|ds| - 1];
      Filter(keep, ds[..|ds| - 1]) + (if keep(d) then [d] else [])
  }

  lemma {:induction false} FilterMembers(keep: Descriptor -> bool, ds: seq<Descriptor>, d: Descriptor)
    ensures d in Filter(keep, ds) <==> d in ds && keep(d)
  {
    if ds == [] {
    } else {
      FilterMembers(keep, ds[..|ds| - 1], d);
      assert ds == ds[..|ds| - 1] + [ds[|ds| - 1]];
    }
  }

  /** The regions share no address. */
  predicate Apart(a: Descriptor, b: Descriptor) {
    a.pages == 0 || b.pages == 0 || a.End() <= b.start || b.End() <= a.start
  }

  predicate AllApart(ds: seq<Descriptor>) {
    forall i: nat, j: nat | i < j < |ds| :: Apart(ds[i], ds[j])
  }

  lemma {:induction false} FilterApart(keep: Descriptor -> bool, ds: seq<Descriptor>)
    requires AllApart(ds)
    ensures AllApart(Filter(keep, ds))
  {
    if ds == [] {
    } else {
      var k := |ds| - 1;
      FilterApart(keep, ds[..k]);
      var kept := Filter(keep, ds[..k]);
      forall i: nat | i < |kept|
        ensures Apart(kept[i], ds[k])
      {
        FilterMembers(keep, ds[..k], kept[i]);
        assert kept[i] in ds[..k];
      }
    }
  }

  predicate Aligned(ds: seq<Descriptor>) {
    forall i: nat | i < |ds| :: ds[i].start % PAGE_SIZE == 0
  }

  lemma WindowNumber(d: Descriptor, offset: u64, p: nat)
    requires d.start % PAGE_SIZE == 0 && offset % PAGE_SIZE == 0
    ensures WindowPage(d, offset, p) == (d.start / PAGE_SIZE + p + offset / PAGE_SIZE) % PAGE_NUMBERS
  {
    assert (d.start + offset + p * PAGE_SIZE) / PAGE_SIZE == d.start / PAGE_SIZE + p + offset / PAGE_SIZE;
  }

  /** Regions that share no address use distinct virtual pages, as long as they end below `2^48`. */
  lemma ApartIsDistinct(ds: seq<Descriptor>, offset: u64)
    requires AllApart(ds) && Aligned(ds) && offset % PAGE_SIZE == 0
    requires forall i: nat | i < |ds| && ds[i].pages > 0 :: ds[i].End() <= 0x1_0000_0000_0000
    ensures DistinctPages(ds, offset)
  {
    forall i: nat, p: nat, j: nat, q: nat |
      && i < |ds| && p < ds[i].pages && j < |ds| && q < ds[j].pages
      && WindowPage(ds[i], offset, p) == WindowPage(ds[j], offset, q)
      ensures i == j && p == q
    {
      WindowNumber(ds[i], offset, p);
      WindowNumber(ds[j], offset, q);
      NoSharedAddress(ds[i], ds[j], p, q);
      SameResidue(ds[i].start / PAGE_SIZE + p, ds[j].start / PAGE_SIZE + q, offset / PAGE_SIZE);
      assert ds[i].Address(p) == ds[j].Address(q);
    }
  }

  lemma NoSharedAddress(a: Descriptor, b: Descriptor, p: nat, q: nat)
    requires p < a.pages && q < b.pages
    ensures Apart(a, b) || Apart(b, a) ==> a.Address(p) != b.Address(q)
  {
  }

  lemma SameResidue(x: nat, y: nat, c: nat)
    requires x < PAGE_NUMBERS && y < PAGE_NUMBERS && (x + c) % PAGE_NUMBERS == (y + c) % PAGE_NUMBERS
    ensures x == y
  {
  }

  // ---------- both loops ----------

  /** Every address of a region translates, at the offset, to its own frame. */
  ghost predicate Translates(mem: Memory, root: u64, d: Descriptor, offset: u64) {
    forall a: u64 | d.start <= a < d.End() && a + offset < WORD_SIZE ::
      Translate(mem, root, a + offset) == Some(a - a % PAGE_SIZE)
  }

  lemma WindowTranslates(mem: Memory, root: u64, ds: seq<Descriptor>, offset: u64, d: Descriptor)
    requires WindowLeaves(mem, root, ds, offset) && d in ds
    requires d.start % PAGE_SIZE == 0 && offset % PAGE_SIZE == 0 && (d.pages == 0 || d.End() <= PHYSICAL_LIMIT)
    ensures Translates(mem, root, d, offset)
  {
    var i: nat :| i < |ds| && ds[i] == d;
    forall a: u64 | d.start <= a < d.End() && a + offset < WORD_SIZE
      ensures Translate(mem, root, a + offset) == Some(a - a % PAGE_SIZE)
    {
      hide WindowPage, LeafEntry, Translate, Encoded, InWindow;
      AddressPage(d, a);
      var p := (a - d.start) / PAGE_SIZE;
      assert LeafEntry(mem, root, WindowPage(ds[i], offset, p)) == Some(Encoded(d.Address(p), 0));
      SamePageNumber(d, offset, p, a);
      LeafTranslates(mem, root, a + offset, d.Address(p));
    }
  }

  lemma AddressPage(d: Descriptor, a: nat)
    requires d.start % PAGE_SIZE == 0 && d.start <= a < d.End()
    ensures (a - d.start) / PAGE_SIZE < d.pages
    ensures d.Address((a - d.start) / PAGE_SIZE) == a - a % PAGE_SIZE
    ensures d.Address((a - d.start) / PAGE_SIZE) % PAGE_SIZE == 0
  {
  }

  lemma SamePageNumber(d: Descriptor, offset: u64, p: nat, a: nat)
    requires d.start % PAGE_SIZE == 0 && offset % PAGE_SIZE == 0 && d.Address(p) == a - a % PAGE_SIZE
    ensures PageNumber(a + offset) == WindowPage(d, offset, p)
  {
    assert (a + offset) / PAGE_SIZE == (d.start + offset + p * PAGE_SIZE) / PAGE_SIZE;
  }

  /** A second window cannot disturb the first: it only maps pages that were unmapped. */
  lemma WindowStays(
      before: Memory, mem: Memory, mem': Memory, root: u64, ds: seq<Descriptor>, offset: u64, es: seq<Descriptor>,
      offset': u64)
    requires WindowMapped(before, mem, root, ds, offset) && WindowMapped(mem, mem', root, es, offset')
    ensures WindowLeaves(mem', root, ds, offset)
  {
    forall i: nat, p: nat | i < |ds| && p < ds[i].pages
      ensures LeafEntry(mem', root, WindowPage(ds[i], offset, p)) == LeafEntry(mem, root, WindowPage(ds[i], offset, p))
    {
      var w := WindowPage(ds[i], offset, p);
      assert LeafEntry(mem, root, w).Some?;
      assert !InWindow(es, offset', w);
    }
  }

  function DirectRegions(ds: seq<Descriptor>): seq<Descriptor> {
    Filter((d: Descriptor) => d.DirectMapped(), ds)
  }

  function IdentityRegions(ds: seq<Descriptor>, stackPtr: nat): seq<Descriptor> {
    Filter((d: Descriptor) => d.IdentityMapped(stackPtr), ds)
  }

  /** The usable regions fit the direct map: their last pages begin below its end. */
  predicate DirectFits(ds: seq<Descriptor>) {
    forall i: nat | i < |ds| && ds[i].DirectMapped() && ds[i].pages > 0 ::
      ds[i].start + 4096 * (ds[i].pages - 1) < 0x4000_0000_0000
  }

  ghost predicate WindowsDisjoint(ds: seq<Descriptor>, offset: u64, es: seq<Descriptor>, offset': u64) {
    forall w: nat | InWindow(ds, offset, w) :: !InWindow(es, offset', w)
  }

  /** No page occurs twice within or across the two windows, and none was mapped before. */
  ghost predicate Separate(mem: Memory, root: u64, ds: seq<Descriptor>, stackPtr: nat) {
    && DistinctPages(DirectRegions(ds), PAGE_MAP_OFFSET) && DistinctPages(IdentityRegions(ds, stackPtr), 0)
    && WindowsDisjoint(DirectRegions(ds), PAGE_MAP_OFFSET, IdentityRegions(ds, stackPtr), 0)
    && Unmapped(mem, root, DirectRegions(ds), PAGE_MAP_OFFSET)
    && Unmapped(mem, root, IdentityRegions(ds, stackPtr), 0)
  }

  // ---------- when the windows are separate ----------

  /** Regions that share no address keep to themselves, as long as the mapped ones end below `2^47`. */
  predicate LowAndApart(ds: seq<Descriptor>, stackPtr: nat) {
    && AllApart(ds)
    && (forall i: nat | i < |ds| && ds[i].pages > 0 && (ds[i].DirectMapped() || ds[i].IdentityMapped(stackPtr)) ::
          ds[i].End() <= 0x8000_0000_0000)
  }

  lemma ApartKept(keep: Descriptor -> bool, ds: seq<Descriptor>, offset: u64)
    requires AllApart(ds) && Aligned(ds) && offset % PAGE_SIZE == 0
    requires forall i: nat | i < |ds| && ds[i].pages > 0 && keep(ds[i]) :: ds[i].End() <= 0x8000_0000_0000
    ensures DistinctPages(Filter(keep, ds), offset)
  {
    FilterApart(keep, ds);
    var kept := Filter(keep, ds);
    forall i: nat | i < |kept|
      ensures kept[i] in ds && keep(kept[i])
    {
      FilterMembers(keep, ds, kept[i]);
    }
    ApartIsDistinct(kept, offset);
  }

  /** The direct map lies in the upper half, where no low page of the identity map is. */
  lemma WindowsApart(d: Descriptor, p: nat, e: Descriptor, q: nat)
    requires d.start % PAGE_SIZE == 0 && e.start % PAGE_SIZE == 0 && p < d.pages && q < e.pages
    requires d.End() <= 0x8000_0000_0000 && e.End() <= 0x8000_0000_0000
    ensures WindowPage(d, PAGE_MAP_OFFSET, p) != WindowPage(e, 0, q)
  {
    WindowNumber(d, PAGE_MAP_OFFSET, p);
    WindowNumber(e, 0, q);
    assert PAGE_MAP_OFFSET / PAGE_SIZE == 0xf_fff8_0000_0000;
    assert d.start / PAGE_SIZE + p < 0x8_0000_0000 && e.start / PAGE_SIZE + q < 0x8_0000_0000;
  }

  lemma LowWindowsDisjoint(ds: seq<Descriptor>, stackPtr: nat)
    requires LowAndApart(ds, stackPtr) && Aligned(ds)
    ensures WindowsDisjoint(DirectRegions(ds), PAGE_MAP_OFFSET, IdentityRegions(ds, stackPtr), 0)
  {
    hide WindowPage, Filter;
    var direct, identity := DirectRegions(ds), IdentityRegions(ds, stackPtr);
    forall i: nat, p: nat, j: nat, q: nat |
      i < |direct| && p < direct[i].pages && j < |identity| && q < identity[j].pages
      ensures WindowPage(direct[i], PAGE_MAP_OFFSET, p) != WindowPage(identity[j], 0, q)
    {
      FilterMembers((d: Descriptor) => d.DirectMapped(), ds, direct[i]);
      FilterMembers((d: Descriptor) => d.IdentityMapped(stackPtr), ds, identity[j]);
      WindowsApart(direct[i], p, identity[j], q);
    }
  }

  /** On disjoint low regions and unmapped windows nothing can be met twice. */
  lemma LowIsSeparate(mem: Memory, root: u64, ds: seq<Descriptor>, stackPtr: nat)
    requires LowAndApart(ds, stackPtr) && Aligned(ds)
    requires Unmapped(mem, root, DirectRegions(ds), PAGE_MAP_OFFSET)
    requires Unmapped(mem, root, IdentityRegions(ds, stackPtr), 0)
    ensures Separate(mem, root, ds, stackPtr)
  {
    hide DistinctPages, Unmapped, WindowsDisjoint, Filter;
    ApartKept((d: Descriptor) => d.DirectMapped(), ds, PAGE_MAP_OFFSET);
    ApartKept((d: Descriptor) => d.IdentityMapped(stackPtr), ds, 0);
    LowWindowsDisjoint(ds, stackPtr);
  }

  /** One page of memory, and a stack at `2^47 + 0x1000`: 36-bit page numbers put both on the same virtual page. */
  const HIGH_STACK: nat := 0x8000_0000_1000

  function HighStackMap(): seq<Descriptor> {
    [Descriptor(Conventional, 0x1000, 1), Descriptor(Other(0), HIGH_STACK, 1)]
  }

  /** Disjoint aligned regions are not enough: the identity page of a high stack is a page of the direct map. */
  lemma HighStackCollides(mem: Memory, root: u64)
    ensures AllApart(HighStackMap()) && Aligned(HighStackMap()) && DirectFits(HighStackMap())
    ensures forall i: nat | i < |HighStackMap()| :: HighStackMap()[i].End() <= PHYSICAL_LIMIT
    ensures !Separate(mem, root, HighStackMap(), HIGH_STACK)
  {
    hide Filter, PageNumber, LeafEntry;
    var ram, stack := HighStackMap()[0], HighStackMap()[1];
    var direct, identity := DirectRegions(HighStackMap()), IdentityRegions(HighStackMap(), HIGH_STACK);
    FilterMembers((d: Descriptor) => d.DirectMapped(), HighStackMap(), ram);
    FilterMembers((d: Descriptor) => d.IdentityMapped(HIGH_STACK), HighStackMap(), stack);
    var i: nat :| i < |direct| && direct[i] == ram;
    var j: nat :| j < |identity| && identity[j] == stack;
    WindowNumber(ram, PAGE_MAP_OFFSET, 0);
    WindowNumber(stack, 0, 0);
    var w := WindowPage(stack, 0, 0);
    assert WindowPage(direct[i], PAGE_MAP_OFFSET, 0) == w;
    assert InWindow(direct, PAGE_MAP_OFFSET, w);
    assert InWindow(identity, 0, w);
  }

  // ---------- both loops, one after the other ----------

  /** The identity window is unmapped after the first loop exactly when it was before and shares no page with it. */
  lemma StillUnmapped(before: Memory, mid: Memory, root: u64, ds: seq<Descriptor>, es: seq<Descriptor>)
    requires WindowMapped(before, mid, root, ds, PAGE_MAP_OFFSET)
    ensures Unmapped(mid, root, es, 0) <==>
            Unmapped(before, root, es, 0) && WindowsDisjoint(ds, PAGE_MAP_OFFSET, es, 0)
  {
    hide LeafEntry, Encoded, WindowPage;
    forall w: nat
      ensures InWindow(ds, PAGE_MAP_OFFSET, w) ==> LeafEntry(mid, root, w).Some?
    {
      if InWindow(ds, PAGE_MAP_OFFSET, w) {
        var i: nat, p: nat :| i < |ds| && p < ds[i].pages && WindowPage(ds[i], PAGE_MAP_OFFSET, p) == w;
      }
    }
  }

  /** Pages that were mapped before, or that neither window contains, keep their entry. */
  ghost predicate OthersKept(before: Memory, mem: Memory, root: u64, ds: seq<Descriptor>, stackPtr: nat) {
    forall w: nat |
      LeafEntry(before, root, w).Some? ||
      (!InWindow(DirectRegions(ds), PAGE_MAP_OFFSET, w) && !InWindow(IdentityRegions(ds, stackPtr), 0, w)) ::
      LeafEntry(mem, root, w) == LeafEntry(before, root, w)
  }

  lemma PartInWindow(done: seq<Descriptor>, ds: seq<Descriptor>, offset: u64, w: nat)
    requires PartOf(done, ds) && InWindow(done, offset, w)
    ensures InWindow(ds, offset, w)
  {
    var i: nat, p: nat :| i < |done| && p < done[i].pages && WindowPage(done[i], offset, p) == w;
    assert p < ds[i].pages && WindowPage(ds[i], offset, p) == w;
  }

  lemma BothKept(
      before: Memory, mid: Memory, mem: Memory, root: u64, done: seq<Descriptor>, done': seq<Descriptor>,
      ds: seq<Descriptor>, stackPtr: nat)
    requires PartOf(done, DirectRegions(ds)) && PartOf(done', IdentityRegions(ds, stackPtr))
    requires WindowMapped(before, mid, root, done, PAGE_MAP_OFFSET) && WindowMapped(mid, mem, root, done', 0)
    ensures OthersKept(before, mem, root, ds, stackPtr)
  {
    hide LeafEntry, Encoded, WindowPage, Filter, WindowLeaves, PartOf;
    forall w: nat | LeafEntry(before, root, w).Some? ||
        (!InWindow(DirectRegions(ds), PAGE_MAP_OFFSET, w) && !InWindow(IdentityRegions(ds, stackPtr), 0, w))
      ensures LeafEntry(mem, root, w) == LeafEntry(before, root, w)
    {
      if InWindow(done, PAGE_MAP_OFFSET, w) { PartInWindow(done, DirectRegions(ds), PAGE_MAP_OFFSET, w); }
      if InWindow(done', 0, w) { PartInWindow(done', IdentityRegions(ds, stackPtr), 0, w); }
    }
  }

  /** Every page-aligned region a window maps, of frames an entry can name, translates to itself. */
  ghost predicate BothTranslate(mem: Memory, root: u64, ds: seq<Descriptor>, stackPtr: nat) {
    && (forall i: nat | i < |ds| && ds[i].DirectMapped() && ds[i].start % PAGE_SIZE == 0 ::
          Translates(mem, root, ds[i], PAGE_MAP_OFFSET))
    && (forall i: nat | i < |ds| && ds[i].IdentityMapped(stackPtr) && ds[i].start % PAGE_SIZE == 0 &&
                        ds[i].End() <= PHYSICAL_LIMIT ::
          Translates(mem, root, ds[i], 0))
  }

  /** The direct map of all usable memory, then the identity map of the loader and its stack. */
  method BuildMaps(table: PageTable, ds: seq<Descriptor>, stackPtr: nat) returns (r: Outcome)
    requires table.Valid() && forall i: nat | i < |ds| :: ds[i].End() < WORD_SIZE
    modifies table.machine
    ensures table.Valid() && Grows(old(table.machine.memory), table.machine.memory, table.root)
    ensures OthersKept(old(table.machine.memory), table.machine.memory, table.root, ds, stackPtr)
    ensures table.machine.refusals == old(table.machine.refusals) + Refused(r.NotMapped? && r.why.AllocationError?)
    ensures Served(old(table.machine.Stocked()), table.machine.Stocked(), r.Refusal())
    ensures r.NotMapped? ==> r.why != Mapped
    ensures r == Done <==>
            && table.machine.refusals == old(table.machine.refusals) && DirectFits(ds)
            && old(Separate(table.machine.memory, table.root, ds, stackPtr))
    ensures r == TooMuchMemory ==> !DirectFits(ds)
    ensures table.machine.refusals == old(table.machine.refusals) && r != TooMuchMemory ==>
              (r == NotMapped(AlreadyMapped) <==> !old(Separate(table.machine.memory, table.root, ds, stackPtr)))
    ensures r == Done ==>
              && WindowLeaves(table.machine.memory, table.root, DirectRegions(ds), PAGE_MAP_OFFSET)
              && WindowLeaves(table.machine.memory, table.root, IdentityRegions(ds, stackPtr), 0)
    ensures r == Done ==> BothTranslate(table.machine.memory, table.root, ds, stackPtr)
  {
    hide WindowLeaves, BothTranslate;
    hide WellFormed, Grows, Progress, Unmapped, DistinctPages, Translates, WindowPage, OthersKept, PartOf, FitsBelow;
    hide WindowsDisjoint, DirectFits, Served;
    ghost var before, root, stock := table.machine.memory, table.root, table.machine.Stocked();
    var direct, identity := DirectRegions(ds), IdentityRegions(ds, stackPtr);
    FitsExactly(ds);
    IdentityFits(ds, stackPtr);
    ghost var done, done';
    r, done := MapWindow(table, direct, PAGE_MAP_OFFSET, PAGE_MAP_OFFSET_LEN);
    ghost var mid, so := table.machine.memory, table.machine.Stocked();
    OneKept(before, mid, root, done, ds, stackPtr, PAGE_MAP_OFFSET_LEN);
    if r != Done {
      return;
    }
    Reached(before, mid, root, direct, identity);
    r, done' := MapWindow(table, identity, 0, WORD_SIZE);
    ServedThen(stock, so, table.machine.Stocked(), r.Refusal());
    GrowsTransitive(before, mid, table.machine.memory, root);
    ProgressKept(before, mid, table.machine.memory, root, done, done', ds, stackPtr);
    if r == Done {
      DoneTranslates(before, mid, table.machine.memory, root, ds, stackPtr);
    }
  }

  /** Once the first loop is done, what the second one meets is known from the state before both. */
  lemma Reached(before: Memory, mid: Memory, root: u64, ds: seq<Descriptor>, es: seq<Descriptor>)
    requires Progress(before, mid, root, ds, PAGE_MAP_OFFSET, PAGE_MAP_OFFSET_LEN)
    ensures DistinctPages(ds, PAGE_MAP_OFFSET) && Unmapped(before, root, ds, PAGE_MAP_OFFSET)
    ensures FitsBelow(ds, PAGE_MAP_OFFSET_LEN)
    ensures Unmapped(mid, root, es, 0) <==>
            Unmapped(before, root, es, 0) && WindowsDisjoint(ds, PAGE_MAP_OFFSET, es, 0)
  {
    MappedLeaves(before, mid, root, ds, PAGE_MAP_OFFSET);
    StillUnmapped(before, mid, root, ds, es);
  }

  lemma OneKept(
      before: Memory, mid: Memory, root: u64, done: seq<Descriptor>, ds: seq<Descriptor>, stackPtr: nat, limit: nat)
    requires PartOf(done, DirectRegions(ds)) && Progress(before, mid, root, done, PAGE_MAP_OFFSET, limit)
    ensures OthersKept(before, mid, root, ds, stackPtr)
  {
    NoRegions(mid, root, 0, limit);
    BothKept(before, mid, mid, root, done, [], ds, stackPtr);
  }

  lemma ProgressKept(
      before: Memory, mid: Memory, mem: Memory, root: u64, done: seq<Descriptor>, done': seq<Descriptor>,
      ds: seq<Descriptor>, stackPtr: nat)
    requires PartOf(done, DirectRegions(ds)) && PartOf(done', IdentityRegions(ds, stackPtr))
    requires Progress(before, mid, root, done, PAGE_MAP_OFFSET, PAGE_MAP_OFFSET_LEN)
    requires Progress(mid, mem, root, done', 0, WORD_SIZE)
    ensures OthersKept(before, mem, root, ds, stackPtr)
    ensures DistinctPages(done', 0) && Unmapped(mid, root, done', 0)
  {
    MappedLeaves(mid, mem, root, done', 0);
    BothKept(before, mid, mem, root, done, done', ds, stackPtr);
  }

  /** The size assertion of the first loop holds throughout exactly when every usable region fits. */
  lemma FitsExactly(ds: seq<Descriptor>)
    ensures FitsBelow(DirectRegions(ds), PAGE_MAP_OFFSET_LEN) <==> DirectFits(ds)
  {
    var direct := DirectRegions(ds);
    if DirectFits(ds) {
      forall i: nat, p: nat | i < |direct| && p < direct[i].pages
        ensures direct[i].Address(p) < PAGE_MAP_OFFSET_LEN
      {
        FilterMembers((d: Descriptor) => d.DirectMapped(), ds, direct[i]);
      }
    }
    if FitsBelow(direct, PAGE_MAP_OFFSET_LEN) {
      forall i: nat | i < |ds| && ds[i].DirectMapped() && ds[i].pages > 0
        ensures ds[i].Address(ds[i].pages - 1) < PAGE_MAP_OFFSET_LEN
      {
        FilterMembers((d: Descriptor) => d.DirectMapped(), ds, ds[i]);
        var j: nat :| j < |direct| && direct[j] == ds[i];
        assert direct[j].Address(ds[i].pages - 1) < PAGE_MAP_OFFSET_LEN;
      }
    }
  }

  lemma IdentityFits(ds: seq<Descriptor>, stackPtr: nat)
    requires forall i: nat | i < |ds| :: ds[i].End() < WORD_SIZE
    ensures FitsBelow(IdentityRegions(ds, stackPtr), WORD_SIZE)
  {
    var identity := IdentityRegions(ds, stackPtr);
    forall i: nat, p: nat | i < |identity| && p < identity[i].pages
      ensures identity[i].Address(p) < WORD_SIZE
    {
      FilterMembers((d: Descriptor) => d.IdentityMapped(stackPtr), ds, identity[i]);
    }
  }

  lemma DoneTranslates(before: Memory, mid: Memory, mem: Memory, root: u64, ds: seq<Descriptor>, stackPtr: nat)
    requires Progress(before, mid, root, DirectRegions(ds), PAGE_MAP_OFFSET, PAGE_MAP_OFFSET_LEN)
    requires Progress(mid, mem, root, IdentityRegions(ds, stackPtr), 0, WORD_SIZE)
    ensures WindowLeaves(mem, root, DirectRegions(ds), PAGE_MAP_OFFSET)
    ensures WindowLeaves(mem, root, IdentityRegions(ds, stackPtr), 0)
    ensures BothTranslate(mem, root, ds, stackPtr)
  {
    hide Translates, WindowLeaves, Filter, DirectFits, FitsBelow;
    FitsExactly(ds);
    WindowStays(before, mid, mem, root, DirectRegions(ds), PAGE_MAP_OFFSET, IdentityRegions(ds, stackPtr), 0);
    forall i: nat | i < |ds| && ds[i].DirectMapped() && ds[i].start % PAGE_SIZE == 0
      ensures Translates(mem, root, ds[i], PAGE_MAP_OFFSET)
    {
      FilterMembers((d: Descriptor) => d.DirectMapped(), ds, ds[i]);
      FittingEnds(ds, i);
      WindowTranslates(mem, root, DirectRegions(ds), PAGE_MAP_OFFSET, ds[i]);
    }
    forall i: nat | i < |ds| && ds[i].IdentityMapped(stackPtr) && ds[i].start % PAGE_SIZE == 0 &&
                    ds[i].End() <= PHYSICAL_LIMIT
      ensures Translates(mem, root, ds[i], 0)
    {
      FilterMembers((d: Descriptor) => d.IdentityMapped(stackPtr), ds, ds[i]);
      WindowTranslates(mem, root, IdentityRegions(ds, stackPtr), 0, ds[i]);
    }
  }

  lemma FittingEnds(ds: seq<Descriptor>, i: nat)
    requires DirectFits(ds) && i < |ds| && ds[i].DirectMapped()
    ensures ds[i].pages == 0 || ds[i].End() <= PHYSICAL_LIMIT
  {
  }

  // ---------- the same by the firmware's types ----------

  /** The fourteen types of memory the kernel may use. */
  predicate IsUsable(ty: MemoryType) {
    || ty == LoaderCode || ty == LoaderData || ty == BootServicesCode || ty == BootServicesData
    || ty == RuntimeServicesCode || ty == RuntimeServicesData || ty == Conventional
    || ty == AcpiReclaim || ty == AcpiNonVolatile || ty == PersistentMemory
    || ty == KernelCode || ty == ModuleCode || ty == PageTableMemory || ty == KernelStack
  }

  /** The loader's own code and data, and whatever memory its stack is in. */
  predicate IsLoaders(d: Descriptor, stackPtr: nat) {
    d.ty == LoaderCode || d.ty == LoaderData || d.start <= stackPtr < d.start + 4096 * d.pages
  }

  /** Memory of the fourteen types is reached from the upper half on. */
  lemma UsableTranslates(mem: Memory, root: u64, ds: seq<Descriptor>, stackPtr: nat, i: nat, a: u64)
    requires BothTranslate(mem, root, ds, stackPtr) && i < |ds| && IsUsable(ds[i].ty) && ds[i].start % 4096 == 0
    requires ds[i].start <= a < ds[i].start + 4096 * ds[i].pages && a < 0x8000_0000_0000
    ensures Translate(mem, root, 0xffff_8000_0000_0000 + a) == Some(a - a % 4096)
  {
    hide Translate;
    assert ds[i].DirectMapped();
  }

  /** The loader's memory is reached at its own addresses. */
  lemma LoadersTranslate(mem: Memory, root: u64, ds: seq<Descriptor>, stackPtr: nat, i: nat, a: u64)
    requires BothTranslate(mem, root, ds, stackPtr) && i < |ds| && IsLoaders(ds[i], stackPtr)
    requires ds[i].start % 4096 == 0 && ds[i].start + 4096 * ds[i].pages <= 0x10_0000_0000_0000
    requires ds[i].start <= a < ds[i].start + 4096 * ds[i].pages
    ensures Translate(mem, root, a) == Some(a - a % 4096)
  {
    hide Translate;
    assert ds[i].IdentityMapped(stackPtr);
  }

  /** The address is on no page that page p of a region is mapped at. */
  predicate Avoids(d: Descriptor, p: nat, stackPtr: nat, va: u64) {
    && (IsUsable(d.ty) ==> PageNumber(d.start + 0xffff_8000_0000_0000 + p * 4096) != PageNumber(va))
    && (IsLoaders(d, stackPtr) ==> PageNumber(d.start + 0 + p * 4096) != PageNumber(va))
  }

  /** The address shares no page with the upper-half image of usable memory or with the loader's memory. */
  ghost predicate Elsewhere(ds: seq<Descriptor>, stackPtr: nat, va: u64) {
    forall i: nat, p: nat | i < |ds| && p < ds[i].pages :: Avoids(ds[i], p, stackPtr, va)
  }

  /** Nothing else is mapped: in particular not memory of any other type. */
  lemma NothingElse(before: Memory, mem: Memory, root: u64, ds: seq<Descriptor>, stackPtr: nat, va: u64)
    requires OthersKept(before, mem, root, ds, stackPtr) && Elsewhere(ds, stackPtr, va)
    ensures Translate(mem, root, va) == Translate(before, root, va)
  {
    hide Translate, PageNumber, LeafEntry, Filter;
    var w, direct, identity := PageNumber(va), DirectRegions(ds), IdentityRegions(ds, stackPtr);
    TranslateIsLeaf(mem, root, va);
    TranslateIsLeaf(before, root, va);
    forall j: nat, p: nat | j < |direct| && p < direct[j].pages
      ensures WindowPage(direct[j], PAGE_MAP_OFFSET, p) != w
    {
      FilterMembers((d: Descriptor) => d.DirectMapped(), ds, direct[j]);
      var i: nat :| i < |ds| && ds[i] == direct[j];
      assert IsUsable(ds[i].ty) && Avoids(ds[i], p, stackPtr, va);
    }
    forall j: nat, p: nat | j < |identity| && p < identity[j].pages
      ensures WindowPage(identity[j], 0, p) != w
    {
      FilterMembers((d: Descriptor) => d.IdentityMapped(stackPtr), ds, identity[j]);
      var i: nat :| i < |ds| && ds[i] == identity[j];
      assert IsLoaders(ds[i], stackPtr) && Avoids(ds[i], p, stackPtr, va);
    }
  }

  /** On the map with the high stack the second loop panics, whatever was mapped before. */
  method MapHighStack(table: PageTable) returns (r: Outcome)
    requires table.Valid()
    modifies table.machine
    ensures table.machine.refusals == old(table.machine.refusals) ==> r == NotMapped(AlreadyMapped)
  {
    hide Separate, DirectFits, Translates, OthersKept, Grows, WellFormed;
    HighStackCollides(table.machine.memory, table.root);
    r := BuildMaps(table, HighStackMap(), HIGH_STACK);
  }
}
