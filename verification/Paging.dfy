/** The page table built by the bootloader, mutated in place in physical memory. */
module Paging {
  import opened Bits
  import opened Options
  import opened PageEntry
  import opened PageTree
  import opened PageRange
  import opened Machines

  /** How many refusals an outcome accounts for. */
  function Refused(failed: bool): nat { if failed then 1 else 0 }

  datatype MapResult = Mapped | AlreadyMapped | AllocationError(error: nat) {
    function Refusal(): Option<nat> { if AllocationError? then Some(error) else None }
  }

  class PageTable {
    const machine: Machine
    const root: u64

    ghost predicate Valid()
      reads machine
    {
      Framed(machine.memory) && WellFormed(machine.memory, root) && UpperLinked(machine.memory, root)
    }

    constructor (machine: Machine, root: u64)
      ensures this.machine == machine && this.root == root
    {
      this.machine := machine;
      this.root := root;
    }

    ghost function Leaf(v: nat): Option<u64>
      reads machine
    {
      LeafEntry(machine.memory, root, v)
    }

    /** The child at `index` of the table at path p; it is created empty if absent. */
    method TryGetOrCreateChildTable(table: u64, index: nat, ghost p: Path) returns (r: Result<u64>)
      requires Valid()
      requires p.Depth() <= 2 && index < 512 && TableAt(machine.memory, root, p) == Some(table)
      modifies machine
      ensures Valid()
      ensures r.Ok? ==> Descended(old(machine.memory), machine.memory, root, Down(p, index), r.value)
      ensures r.Err? ==> machine.memory == old(machine.memory) && TableAt(machine.memory, root, Down(p, index)) == None
      ensures machine.refusals == old(machine.refusals) + Refused(r.Err?)
      ensures Served(old(machine.Stocked()), machine.Stocked(), r.Refusal())
    {
      hide WellFormed, Grows, SameLeaves, IsNode, Link, Honours, Served, Supply, Descended, Framed;
      NothingServed(machine.Stocked());
      match Child(machine.memory, table, index) {
        case Some(child) =>
          NothingAdded(machine.memory, root, Down(p, index), child);
          r := Ok(child);
        case None =>
          r := machine.Allocate(1, PHYSICAL_LIMIT);
          if r.Ok? {
            LinkFresh(old(machine.memory), machine.memory, root, p, index, r.value);
            machine.memory := Link(machine.memory, table, index, r.value);
          }
          OneServed(old(machine.Stocked()), machine.Stocked(), r.Refusal());
      }
    }

    /** One link of the chain: from the table at depth k on the way to page number v to the next. */
    method TryDescend(table: u64, index: nat, ghost before: Memory, ghost v: nat, ghost k: nat) returns (r: Result<u64>)
      requires Valid() && UpperLinked(before, root)
      requires k < 3 && v < PAGE_NUMBERS && index == Digit(v, k + 1)
      requires Walked(before, machine.memory, root, v, k, table)
      modifies machine
      ensures Valid()
      ensures r.Ok? ==> Walked(before, machine.memory, root, v, k + 1, r.value)
      ensures r.Err? ==> Stuck(before, machine.memory, root, v)
      ensures machine.refusals == old(machine.refusals) + Refused(r.Err?)
      ensures Served(old(machine.Stocked()), machine.Stocked(), r.Refusal())
    {
      hide Served;
      ghost var mem := machine.memory;
      r := TryGetOrCreateChildTable(table, index, PathTo(v, k));
      if r.Err? {
        WalkFails(before, mem, root, v, k, table);
      } else {
        WalkStep(before, mem, machine.memory, root, v, k, table, r.value);
      }
    }

    /** The three chained descents, from the root to the table holding the leaf entry. */
    method TryLeafTable(page: u64) returns (r: Result<u64>)
      requires Valid()
      modifies machine
      ensures Valid()
      ensures r.Ok? ==> Walked(old(machine.memory), machine.memory, root, PageNumber(page), 3, r.value)
      ensures r.Err? ==> Stuck(old(machine.memory), machine.memory, root, PageNumber(page))
      ensures machine.refusals == old(machine.refusals) + Refused(r.Err?)
      ensures Served(old(machine.Stocked()), machine.Stocked(), r.Refusal())
    {
      hide Grows, WellFormed, Missing, Served;
      ghost var v, before, stock := PageNumber(page), machine.memory, machine.Stocked();
      Indices(page);
      WalkStart(before, root, v);
      r := TryDescend(root, L4Index(page), before, v, 0);
      if r.Err? { return; }
      ghost var one := machine.Stocked();
      r := TryDescend(r.value, L3Index(page), before, v, 1);
      ServedThen(stock, one, machine.Stocked(), r.Refusal());
      if r.Err? { return; }
      ghost var two := machine.Stocked();
      r := TryDescend(r.value, L2Index(page), before, v, 2);
      ServedThen(stock, two, machine.Stocked(), r.Refusal());
    }

    method TryMapPageWith(page: u64, frame: u64, flags: u64) returns (r: MapResult)
      requires Valid() && IsFlags(flags)
      modifies machine
      ensures Valid() && Grows(old(machine.memory), machine.memory, root)
      ensures r == AlreadyMapped <==> old(Leaf(PageNumber(page)).Some?)
      ensures r == AlreadyMapped ==> machine.memory == old(machine.memory)
      ensures r == Mapped ==>
                MapsOne(old(machine.memory), machine.memory, root, PageNumber(page), Encoded(frame, flags))
      ensures r != Mapped ==> SameLeaves(old(machine.memory), machine.memory, root)
      ensures machine.refusals == old(machine.refusals) + Refused(r.AllocationError?)
      ensures Served(old(machine.Stocked()), machine.Stocked(), r.Refusal())
      ensures r.AllocationError? <==>
              old(Supply(machine.Stocked(), Ones(Missing(machine.memory, root, PageNumber(page), 3)))).None?
      ensures |machine.memory| <= |old(machine.memory)| + old(Missing(machine.memory, root, PageNumber(page), 3))
      ensures r.AllocationError? ==>
                |machine.memory| < |old(machine.memory)| + old(Missing(machine.memory, root, PageNumber(page), 3))
      ensures r == Mapped ==>
                |machine.memory| == |old(machine.memory)| + old(Missing(machine.memory, root, PageNumber(page), 3))
    {
      hide Grows, Missing, Served, Supply, Ones, Walked, LeafEntry, WellFormed, SameLeaves, MapsOne, UpperLinked;
      ghost var before, stock := machine.memory, machine.Stocked();
      ghost var missing := Missing(before, root, PageNumber(page), 3);
      Indices(page);
      var l1 := TryLeafTable(page);
      if l1.Err? {
        PageServed(before, machine.memory, stock, machine.Stocked(), missing, l1.Refusal());
        return AllocationError(l1.error);
      }
      WalkEnds(before, machine.memory, root, PageNumber(page), l1.value);
      PageServed(before, machine.memory, stock, machine.Stocked(), missing, None);
      var entry := machine.memory[l1.value][L1Index(page)];
      if PointedFrame(entry).Some? {
        return AlreadyMapped;
      }
      SetLeafKeeps(before, machine.memory, root, PageNumber(page), l1.value, frame, flags);
      SetLeafEntries(before, machine.memory, root, PageNumber(page), l1.value, frame, flags);
      machine.memory := SetLeaf(machine.memory, l1.value, L1Index(page), frame, flags);
      return Mapped;
    }

    /** One iteration of the range loop: maps page number `done` of the range. */
    method TryMapNext(pageStart: u64, frameStart: u64, flags: u64, done: nat, ghost before: Memory)
      returns (r: MapResult)
      requires Valid() && UpperLinked(before, root) && IsFlags(flags)
      requires done <= PAGE_NUMBERS && Fits(pageStart, done) && Fits(frameStart, done)
      requires RangeGrown(before, machine.memory, root, pageStart, frameStart, flags, done)
      modifies machine
      ensures Valid()
      ensures r == Mapped ==>
                done < PAGE_NUMBERS && RangeGrown(before, machine.memory, root, pageStart, frameStart, flags, done + 1)
      ensures r != Mapped ==>
                && Grows(before, machine.memory, root)
                && RangeMapped(before, machine.memory, root, pageStart, frameStart, flags, done)
                && |machine.memory| <= |before| + Crossed(pageStart / PAGE_SIZE, done + 1)
                && (r == AlreadyMapped <==> Leaf(PageNumber(pageStart + done * PAGE_SIZE)).Some?)
                && (r.AllocationError? ==> |machine.memory| < |before| + Crossed(pageStart / PAGE_SIZE, done + 1))
      ensures Served(old(machine.Stocked()), machine.Stocked(), r.Refusal())
      ensures machine.refusals == old(machine.refusals) + Refused(r.AllocationError?)
    {
      hide Crossed, RangeMapped, Grows, WellFormed, PageNumber, Missing, MapsOne, Served, Supply;
      ghost var mem := machine.memory;
      RangeMissing(before, mem, root, pageStart, frameStart, flags, done);
      r := TryMapPageWith(pageStart + done * PAGE_SIZE, frameStart + done * PAGE_SIZE, flags);
      GrowsTransitive(before, mem, machine.memory, root);
      if r == Mapped {
        RangeStep(before, mem, machine.memory, root, pageStart, frameStart, flags, done);
      } else {
        RangeSame(before, mem, machine.memory, root, pageStart, frameStart, flags, done);
      }
    }

    /** Maps `count` consecutive pages, stopping at the first error; `done` pages were mapped. */
    method TryMapRangeWith(pageStart: u64, frameStart: u64, count: nat, flags: u64) returns (r: MapResult, done: nat)
      requires Valid() && IsFlags(flags)
      requires count > 0 ==> Fits(pageStart, count - 1) && Fits(frameStart, count - 1)
      modifies machine
      ensures Valid() && Grows(old(machine.memory), machine.memory, root)
      ensures done <= count && done <= PAGE_NUMBERS && (r == Mapped <==> done == count)
      ensures RangeMapped(old(machine.memory), machine.memory, root, pageStart, frameStart, flags, done)
      ensures r == AlreadyMapped <==> done < count && Leaf(PageNumber(pageStart + done * PAGE_SIZE)).Some?
      ensures r == AlreadyMapped ==> done == PAGE_NUMBERS || old(Leaf(PageNumber(pageStart + done * PAGE_SIZE))).Some?
      ensures machine.refusals == old(machine.refusals) + Refused(r.AllocationError?)
      ensures Served(old(machine.Stocked()), machine.Stocked(), r.Refusal())
      ensures r.AllocationError? ==> old(Supply(machine.Stocked(), Ones(TablesFor(count)))).None?
      ensures |machine.memory| <= |old(machine.memory)| + TablesFor(count)
    {
      hide Crossed, TablesFor, RangeMapped, Grows, WellFormed, PageNumber, Served, Supply;
      ghost var before, stock := machine.memory, machine.Stocked();
      NothingServed(stock);
      RangeStart(before, root, pageStart, frameStart, flags);
      done := 0;
      while done < count
        invariant Valid() && done <= count && done <= PAGE_NUMBERS
        invariant RangeGrown(before, machine.memory, root, pageStart, frameStart, flags, done)
        invariant machine.refusals == old(machine.refusals) && Served(stock, machine.Stocked(), None)
      {
        ghost var so := machine.Stocked();
        r := TryMapNext(pageStart, frameStart, flags, done, before);
        ServedThen(stock, so, machine.Stocked(), r.Refusal());
        if r != Mapped {
          CrossedBound(pageStart / PAGE_SIZE, done + 1, count);
          if r.AllocationError? {
            ServedShort(stock, machine.Stocked(), r.error, TablesFor(count));
          }
          RangeBlocked(before, machine.memory, root, pageStart, frameStart, flags, done);
          return;
        }
        done := done + 1;
      }
      CrossedBound(pageStart / PAGE_SIZE, count, count);
      r := Mapped;
    }
  }

  /** A single request, granted and kept or refused. */
  lemma OneServed(before: Stock, after: Stock, refusal: Option<nat>)
    requires refusal.None? <==> Honours(before, Ask(1, 0x10_0000_0000_0000))
    requires refusal.None? ==> after == Honoured(before, Ask(1, 0x10_0000_0000_0000))
    requires refusal.Some? ==>
               && after == Stock(before.used, Rest(before.answers))
               && FailsWith(before, Ask(1, 0x10_0000_0000_0000), refusal.value)
    ensures Served(before, after, refusal)
  {
    assert Ones(0) == [] && Ones(1) == [Ask(1, 0x10_0000_0000_0000)];
    SupplyOne(before, Ask(1, 0x10_0000_0000_0000));
    if refusal.None? {
      SingleBlock(before.answers[0].base);
    }
  }

  /** The walk for a page fails exactly when the frames for its missing tables cannot be had. */
  lemma PageServed(before: Memory, mem: Memory, stock: Stock, after: Stock, missing: nat, refusal: Option<nat>)
    requires stock.used == before.Keys && after.used == mem.Keys && Served(stock, after, refusal)
    requires if refusal.Some? then |mem| < |before| + missing else |mem| == |before| + missing
    ensures refusal.Some? <==> Supply(stock, Ones(missing)).None?
  {
    hide Supply, Ones;
    assert |before| == |before.Keys| && |mem| == |mem.Keys|;
    if refusal.Some? {
      ServedShort(stock, after, refusal.value, missing);
    }
  }

  lemma RangeStart(mem: Memory, root: u64, pageStart: u64, frameStart: u64, flags: u64)
    ensures RangeGrown(mem, mem, root, pageStart, frameStart, flags, 0)
  {
  }

  ghost predicate RangeGrown(
      before: Memory, mem: Memory, root: u64, pageStart: u64, frameStart: u64, flags: u64, done: nat) {
    && Grows(before, mem, root)
    && RangeMapped(before, mem, root, pageStart, frameStart, flags, done)
    && |mem| <= |before| + Crossed(pageStart / PAGE_SIZE, done)
  }

  // ---------- a new page table ----------

  /** A root with its first i upper-half children linked to the tables from `base` on, and nothing else. */
  ghost predicate Sprouting(mem: Memory, root: u64, base: nat, i: nat) {
    && root in mem && WellFormed(mem, root)
    && base % PAGE_SIZE == 0 && base + 256 * PAGE_SIZE <= PHYSICAL_LIMIT && Block(base, 256) <= mem.Keys
    && !(base <= root < base + 256 * PAGE_SIZE)
    && (forall p: Path | p.Depth() <= 3 :: TableAt(mem, root, p) == Sprout(root, base, i, p))
  }

  function Sprout(root: u64, base: nat, i: nat, p: Path): Option<nat> {
    match p
    case Top => Some(root)
    case Down(up, j) => if up == Top && 256 <= j < 256 + i then Some(base + (j - 256) * PAGE_SIZE) else None
  }

  lemma SproutingStart(before: Memory, mem: Memory, root: u64, base: nat)
    requires root in before && before[root] == EmptyTable() && Granted(before, mem, base, 256)
    requires root % PAGE_SIZE == 0
    ensures Sprouting(mem, root, base, 0)
  {
    NewEntryAbsent();
    assert root !in Block(base, 256);
    forall p: Path | p.Down?
      ensures TableAt(mem, root, p) == None
    {
      NoChildren(mem, root, p);
    }
  }

  lemma {:induction false} NoChildren(mem: Memory, root: u64, p: Path)
    requires root in mem && mem[root] == EmptyTable() && p.Down?
    ensures TableAt(mem, root, p) == None
  {
    NewEntryAbsent();
    if p.up.Top? {
    } else {
      NoChildren(mem, root, p.up);
    }
  }

  lemma SproutingChild(mem: Memory, root: u64, base: nat, i: nat, j: nat)
    requires Sprouting(mem, root, base, i)
    ensures TableAt(mem, root, Top) == Some(root) && |mem[root]| == 512
    ensures Child(mem, root, j) == TableAt(mem, root, Down(Top, j)) == Sprout(root, base, i, Down(Top, j))
  {
    assert Top.Depth() == 0 && Down(Top, j).Depth() == 1;
    assert TableAt(mem, root, Top) == Some(root);
  }

  lemma SproutingStep(mem: Memory, root: u64, base: nat, i: nat)
    requires Sprouting(mem, root, base, i) && i < 256
    ensures root in mem && |mem[root]| == 512 && Child(mem, root, 256 + i) == None
    ensures Sprouting(Link(mem, root, 256 + i, base + i * PAGE_SIZE), root, base, i + 1)
  {
    hide WellFormed, LeafEntry;
    var child: u64 := base + i * PAGE_SIZE;
    SproutingChild(mem, root, base, i, 256 + i);
    LinkWellFormed(mem, root, Top, 256 + i, child);
    forall p: Path | p.Depth() <= 3
      ensures TableAt(Link(mem, root, 256 + i, child), root, p) == Sprout(root, base, i + 1, p)
    {
      LinkTableAt(mem, root, Top, 256 + i, child, p);
    }
  }

  lemma SproutingDone(mem: Memory, root: u64, base: nat)
    requires Sprouting(mem, root, base, 256)
    ensures UpperLinked(mem, root)
    ensures forall v: nat :: LeafEntry(mem, root, v) == None
    ensures forall i: nat | i < 256 :: Child(mem, root, i) == None
  {
    SproutingChild(mem, root, base, 256, 0);
    forall i: nat | i < 512
      ensures PointedFrame(mem[root][i]).Some? <==> i >= 256
    {
      SproutingChild(mem, root, base, 256, i);
    }
    forall v: nat
      ensures LeafEntry(mem, root, v) == None
    {
      PathDigits(v);
    }
  }

  ghost predicate Keeps(before: Memory, mem: Memory) {
    forall f | f in before :: f in mem && mem[f] == before[f]
  }

  /** Writes 256 empty tables from `base` on and points the upper half of the root at them. */
  method LinkUpperHalf(machine: Machine, root: u64, base: u64, ghost before: Memory)
    requires Framed(machine.memory) && Sprouting(machine.memory, root, base, 0)
    requires Keeps(before, machine.memory) && root !in before && before.Keys !! Block(base, 256)
    modifies machine`memory
    ensures Framed(machine.memory) && Sprouting(machine.memory, root, base, 256) && Keeps(before, machine.memory)
    ensures machine.memory.Keys == old(machine.memory.Keys)
  {
    for i := 0 to 256
      invariant Framed(machine.memory) && Sprouting(machine.memory, root, base, i) && Keeps(before, machine.memory)
      invariant machine.memory.Keys == old(machine.memory.Keys)
    {
      SproutingStep(machine.memory, root, base, i);
      assert base + i * PAGE_SIZE in Block(base, 256);
      machine.memory := Link(machine.memory, root, 256 + i, base + i * PAGE_SIZE);
    }
  }

  /** The requests of `try_new`: one frame for the root and a block for the upper half. */
  function NewTableAsks(): seq<Ask> {
    [Ask(1, 0x10_0000_0000_0000), Ask(256, 0x10_0000_0000_0000)]
  }

  lemma SupplyTwo(stock: Stock, a: Ask, b: Ask)
    ensures Supply(stock, [a, b]) ==
            if !Honours(stock, a) then None
            else if !Honours(Honoured(stock, a), b) then None
            else Some(Honoured(Honoured(stock, a), b))
  {
    hide Honours;
    SupplyOne(stock, a);
    assert [a, b][..1] == [a];
  }

  /** Allocates and links the root and its 256 upper-half tables. */
  method TryNew(machine: Machine) returns (r: Result<PageTable>)
    requires Framed(machine.memory)
    modifies machine
    ensures Framed(machine.memory) && Keeps(old(machine.memory), machine.memory)
    ensures machine.refusals == old(machine.refusals) + Refused(r.Err?)
    ensures r.Ok? <==> old(Supply(machine.Stocked(), NewTableAsks())).Some?
    ensures r.Ok? ==> Some(machine.Stocked()) == old(Supply(machine.Stocked(), NewTableAsks()))
    ensures r.Err? ==>
              if old(Honours(machine.Stocked(), NewTableAsks()[0]))
              then FailsWith(old(Honoured(machine.Stocked(), NewTableAsks()[0])), NewTableAsks()[1], r.error)
              else FailsWith(old(machine.Stocked()), NewTableAsks()[0], r.error)
    ensures r.Ok? ==> fresh(r.value) && r.value.machine == machine && r.value.Valid()
    ensures r.Ok? ==> forall v: nat :: LeafEntry(machine.memory, r.value.root, v) == None
    ensures r.Ok? ==> forall i: nat | i < 256 :: Child(machine.memory, r.value.root, i) == None
    ensures r.Ok? ==> forall f | f in old(machine.memory) :: !IsNode(machine.memory, r.value.root, f)
  {
    hide Honours, Supply, Sprouting, WellFormed, LeafEntry, IsNode, UpperLinked, Child;
    ghost var before := machine.memory;
    SupplyTwo(machine.Stocked(), NewTableAsks()[0], NewTableAsks()[1]);
    var first := machine.Allocate(1, PHYSICAL_LIMIT);
    if first.Err? {
      return Err(first.error);
    }
    var root := first.value;
    SingleBlock(root);
    assert machine.memory.Keys == machine.memory[root := EmptyTable()].Keys;
    machine.memory := machine.memory[root := EmptyTable()];
    ghost var rooted := machine.memory;
    var tables := machine.Allocate(256, PHYSICAL_LIMIT);
    if tables.Err? {
      return Err(tables.error);
    }
    SproutingStart(rooted, machine.memory, root, tables.value);
    LinkUpperHalf(machine, root, tables.value, before);
    SproutingDone(machine.memory, root, tables.value);
    SproutingNodes(machine.memory, root, tables.value, before);
    var table := new PageTable(machine, root);
    return Ok(table);
  }

  lemma SproutingNodes(mem: Memory, root: u64, base: nat, before: Memory)
    requires Sprouting(mem, root, base, 256) && root !in before && before.Keys !! Block(base, 256)
    ensures forall f | f in before :: !IsNode(mem, root, f)
  {
    forall f, p: Path | f in before && p.Depth() <= 3
      ensures TableAt(mem, root, p) != Some(f)
    {
      if p.Down? && 256 <= p.index < 512 {
        assert base + (p.index - 256) * PAGE_SIZE in Block(base, 256);
      }
    }
  }

  // ---------- the walk ----------

  /** The node at p exists now; it was added if it was absent, and no mapping changed. */
  ghost predicate Descended(mem: Memory, mem': Memory, root: u64, p: Path, child: u64) {
    && Grows(mem, mem', root)
    && SameLeaves(mem, mem', root)
    && (forall q: Path | q.Depth() <= 3 ::
          TableAt(mem', root, q) == if q == p then Some(child) else TableAt(mem, root, q))
    && |mem'| == |mem| + Absent(mem, root, p)
    && (TableAt(mem, root, p).Some? ==> mem' == mem)
  }

  lemma NothingAdded(mem: Memory, root: u64, p: Path, child: u64)
    requires TableAt(mem, root, p) == Some(child)
    ensures Descended(mem, mem, root, p, child)
  {
  }

  /** After k of the three descents towards the leaf of page number v. */
  ghost predicate Walked(before: Memory, mem: Memory, root: u64, v: nat, k: nat, table: u64)
    requires k <= 3
  {
    && Grows(before, mem, root)
    && TableAt(mem, root, PathTo(v, k)) == Some(table)
    && SameLeaves(before, mem, root)
    && (forall q: Path | k < q.Depth() <= 3 :: TableAt(mem, root, q) == TableAt(before, root, q))
    && |mem| == |before| + Missing(before, root, v, k)
    && (LeafEntry(before, root, v).Some? ==> mem == before)
  }

  /** A walk that could not allocate: the page was unmapped, and no mapping changed. */
  ghost predicate Stuck(before: Memory, mem: Memory, root: u64, v: nat) {
    && LeafEntry(before, root, v) == None
    && Grows(before, mem, root)
    && SameLeaves(before, mem, root)
    && |mem| < |before| + Missing(before, root, v, 3)
  }

  lemma WalkStart(mem: Memory, root: u64, v: nat)
    requires v < PAGE_NUMBERS
    ensures Walked(mem, mem, root, v, 0, root)
  {
  }

  lemma WalkStep(before: Memory, mem: Memory, mem': Memory, root: u64, v: nat, k: nat, table: u64, child: u64)
    requires k < 3 && Walked(before, mem, root, v, k, table)
    requires Descended(mem, mem', root, PathTo(v, k + 1), child)
    requires UpperLinked(before, root) && UpperLinked(mem, root) && UpperLinked(mem', root)
    ensures Walked(before, mem', root, v, k + 1, child)
  {
    GrowsTransitive(before, mem, mem', root);
    if LeafEntry(before, root, v).Some? && TableAt(before, root, PathTo(v, k + 1)).None? {
      AbsentBelow(before, root, v, k + 1);
    }
  }

  lemma WalkFails(before: Memory, mem: Memory, root: u64, v: nat, k: nat, table: u64)
    requires k < 3 && Walked(before, mem, root, v, k, table)
    requires TableAt(mem, root, PathTo(v, k + 1)) == None
    ensures Stuck(before, mem, root, v)
  {
    AbsentBelow(before, root, v, k + 1);
  }

  /** At the end of the walk the entry is there to be read and written. */
  lemma WalkEnds(before: Memory, mem: Memory, root: u64, v: nat, table: u64)
    requires WellFormed(mem, root) && Walked(before, mem, root, v, 3, table)
    ensures TableAt(mem, root, PathTo(v, 3)) == Some(table) && table in mem && |mem[table]| == 512
    ensures LeafEntry(before, root, v).Some? <==> PointedFrame(mem[table][v % 512]).Some?
    ensures LeafEntry(before, root, v).Some? ==> mem == before
    ensures Grows(before, mem, root) && SameLeaves(before, mem, root)
    ensures |mem| == |before| + Missing(before, root, v, 3)
  {
    assert LeafEntry(mem, root, v) == LeafEntry(before, root, v);
  }

  /** The final write of a successful mapping. */
  lemma SetLeafKeeps(before: Memory, mem: Memory, root: u64, v: nat, table: u64, frame: u64, flags: u64)
    requires CanSetLeaf(mem, root, v, flags) && TableAt(mem, root, PathTo(v, 3)) == Some(table)
    requires UpperLinked(before, root) && UpperLinked(mem, root) && Framed(mem) && Grows(before, mem, root)
    ensures var mem' := SetLeaf(mem, table, v % 512, frame, flags);
            && WellFormed(mem', root) && UpperLinked(mem', root) && Framed(mem')
            && Grows(before, mem', root) && |mem'| == |mem| && mem'.Keys == mem.Keys
  {
    hide Grows;
    var mem' := SetLeaf(mem, table, v % 512, frame, flags);
    SetLeafWellFormed(mem, root, v, frame, flags);
    GrowsTransitive(before, mem, mem', root);
    assert mem'.Keys == mem.Keys;
  }

  lemma SetLeafEntries(before: Memory, mem: Memory, root: u64, v: nat, table: u64, frame: u64, flags: u64)
    requires CanSetLeaf(mem, root, v, flags) && TableAt(mem, root, PathTo(v, 3)) == Some(table)
    requires PointedFrame(mem[table][v % 512]).None?
    requires SameLeaves(before, mem, root)
    ensures MapsOne(before, SetLeaf(mem, table, v % 512, frame, flags), root, v, Encoded(frame, flags))
  {
    assert LeafEntry(mem, root, v) == None;
    forall w: nat {
      SetLeafEntry(mem, root, v, frame, flags, w);
    }
  }

  // ---------- a freshly granted child table ----------

  /** Memory before and after the firmware granted the frame of a child table still to be linked. */
  ghost predicate Linkable(before: Memory, granted: Memory, root: u64, p: Path, index: nat, child: u64) {
    && WellFormed(before, root) && UpperLinked(before, root)
    && p.Depth() <= 2 && index < 512
    && TableAt(before, root, p).Some? && TableAt(before, root, Down(p, index)) == None
    && Framed(granted) && Granted(before, granted, child, 1)
  }

  /** New frames beside unchanged old ones move no table and make none. */
  lemma KeepsTree(before: Memory, after: Memory, root: u64)
    requires WellFormed(before, root) && Keeps(before, after)
    ensures WellFormed(after, root)
    ensures forall q: Path | q.Depth() <= 3 :: TableAt(after, root, q) == TableAt(before, root, q)
    ensures SameLeaves(before, after, root)
    ensures forall f | f in after && f !in before :: !IsNode(after, root, f)
  {
    forall q: Path | q.Depth() <= 3
      ensures TableAt(after, root, q) == TableAt(before, root, q)
    {
      SameTableAt(before, after, root, q);
    }
    forall v: nat
      ensures LeafEntry(after, root, v) == LeafEntry(before, root, v)
    {
      SameTableAt(before, after, root, PathTo(v, 3));
    }
  }

  lemma {:induction false} SameTableAt(mem: Memory, mem': Memory, root: u64, q: Path)
    requires WellFormed(mem, root) && q.Depth() <= 3
    requires forall f | f in mem :: f in mem' && mem'[f] == mem[f]
    ensures TableAt(mem', root, q) == TableAt(mem, root, q)
  {
    if q.Top? {
    } else {
      SameTableAt(mem, mem', root, q.up);
    }
  }

  lemma LinkFreshSize(before: Memory, granted: Memory, root: u64, p: Path, index: nat, child: u64)
    requires Linkable(before, granted, root, p, index, child)
    requires CanLink(granted, root, p, index, child)
    ensures Framed(Link(granted, TableAt(granted, root, p).value, index, child))
    ensures |Link(granted, TableAt(granted, root, p).value, index, child)| == |before| + 1
    ensures Link(granted, TableAt(granted, root, p).value, index, child).Keys == granted.Keys
  {
    SingleBlock(child);
    var mem' := Link(granted, TableAt(granted, root, p).value, index, child);
    assert mem'.Keys == before.Keys + {child};
    assert |mem'.Keys| == |before.Keys| + 1;
  }

  lemma LinkFreshTree(before: Memory, granted: Memory, root: u64, p: Path, index: nat, child: u64)
    requires Linkable(before, granted, root, p, index, child)
    ensures CanLink(granted, root, p, index, child) && UpperLinked(granted, root)
    ensures forall q: Path | q.Depth() <= 3 :: TableAt(granted, root, q) == TableAt(before, root, q)
    ensures SameLeaves(before, granted, root)
  {
    SingleBlock(child);
    KeepsTree(before, granted, root);
  }

  lemma LinkFresh(before: Memory, granted: Memory, root: u64, p: Path, index: nat, child: u64)
    requires Linkable(before, granted, root, p, index, child)
    ensures CanLink(granted, root, p, index, child)
    ensures TableAt(granted, root, p) == TableAt(before, root, p) && IsTable(granted, TableAt(granted, root, p).value)
    ensures var mem' := Link(granted, TableAt(granted, root, p).value, index, child);
            && Framed(mem') && WellFormed(mem', root) && UpperLinked(mem', root) && mem'.Keys == granted.Keys
            && Descended(before, mem', root, Down(p, index), child)
  {
    LinkFreshTree(before, granted, root, p, index, child);
    LinkFreshSize(before, granted, root, p, index, child);
    LinkWellFormed(granted, root, p, index, child);
    SingleBlock(child);
    LinkGrows(granted, root, p, index, child, before);
    LinkFreshDescends(before, granted, root, p, index, child);
  }

  lemma LinkFreshDescends(before: Memory, granted: Memory, root: u64, p: Path, index: nat, child: u64)
    requires CanLink(granted, root, p, index, child)
    requires forall q: Path | q.Depth() <= 3 :: TableAt(granted, root, q) == TableAt(before, root, q)
    requires SameLeaves(before, granted, root)
    requires Grows(before, Link(granted, TableAt(granted, root, p).value, index, child), root)
    requires |Link(granted, TableAt(granted, root, p).value, index, child)| == |before| + 1
    ensures Descended(before, Link(granted, TableAt(granted, root, p).value, index, child), root, Down(p, index), child)
  {
    hide WellFormed, Grows, LeafEntry, Link, IsNode;
    forall v: nat {
      LinkLeaf(granted, root, p, index, child, v);
    }
    forall q: Path | q.Depth() <= 3 {
      LinkTableAt(granted, root, p, index, child, q);
    }
  }
}
