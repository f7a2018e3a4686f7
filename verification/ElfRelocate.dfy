/** What relocating an ELF file writes, and when a second relocation does the same. */
module ElfRelocate {
  import opened Bits
  import opened Options
  import opened ElfAddress
  import opened ElfWrites
  import opened ElfPlan
  import opened ElfTables

  // ---------- what relocation writes ----------

  /** The slot of a `Relative` entry gets base plus addend; the address is looked up for every kind of entry. */
  function RelocTarget(len: nat, layout: Layout, base: nat, r: Rela, newBase: u64): Target {
    match DataAtMut(len, layout, base, r.offset)
    case None => Invalid
    case Some(o) =>
      if r.Type() == RELATIVE then
        if o + 8 <= len then Slot(Put(o, (newBase + r.addend) % WORD_SIZE)) else Invalid
      else if r.Type() == JUMP_SLOT then Skip
      else Invalid
  }

  function RelocTargets(len: nat, layout: Layout, base: nat, relocs: seq<Rela>, newBase: u64): seq<Target> {
    seq(|relocs|, i requires 0 <= i < |relocs| => RelocTarget(len, layout, base, relocs[i], newBase))
  }

  function RelocatePlan(bytes: seq<u8>, layout: Layout, base: nat, newBase: u64): (plan: Plan)
    ensures AllInside(plan.puts, |bytes|)
  {
    match Relocations(bytes, layout, base)
    case None => Broken([])
    case Some(relocs) =>
      PlanInside(RelocTargets(|bytes|, layout, base, relocs, newBase), |bytes|);
      PlanOf(RelocTargets(|bytes|, layout, base, relocs, newBase))
  }

  /** What relocation writes does not depend on where the file was based before, unless that base overflows. */
  lemma RelocateMoves(bytes: seq<u8>, layout: Layout, base: nat, newBase: u64)
    ensures RelocatePlan(bytes, layout, base, newBase) == RelocatePlan(bytes, layout, 0, newBase) ||
            (RelocatePlan(bytes, layout, base, newBase).Broken? && !Roomy(bytes, layout, base))
  {
    hide Tables, JumpTable, PlanOf, DynamicTable;
    TablesMove(bytes, layout, base);
    TablesAreInside(bytes, layout, base);
    if Relocations(bytes, layout, base).Some? {
      var relocs := Relocations(bytes, layout, base).value;
      var moved := RelocTargets(|bytes|, layout, base, relocs, newBase);
      var still := RelocTargets(|bytes|, layout, 0, relocs, newBase);
      forall i: nat | i < |relocs|
        ensures moved[i] == still[i] || (moved[i].Invalid? && !layout.FitsAt(base))
      {
        OffsetIndependent(|bytes|, layout, base, relocs[i].offset);
      }
      PlanMoves(moved, still);
      assert layout.FitsAt(base) ==> moved == still;
    }
  }

  /** Everything relocation looks at fits at the base: the tables it reads and the slots it writes. */
  predicate RoomToRelocate(bytes: seq<u8>, layout: Layout, base: nat) {
    RelocationsFit(bytes, layout, base) &&
    match Relocations(bytes, layout, 0)
    case None => true
    case Some(relocs) =>
      forall i: nat | i < |relocs| :: SearchFits(layout.segments, base, relocs[i].offset)
  }

  /** A file that can be relocated at base zero can be at another base exactly when nothing overflows there. */
  lemma RelocateExactly(bytes: seq<u8>, layout: Layout, base: nat, newBase: u64)
    requires RelocatePlan(bytes, layout, 0, newBase).Going?
    ensures RelocatePlan(bytes, layout, base, newBase).Going? <==> RoomToRelocate(bytes, layout, base)
    ensures RelocatePlan(bytes, layout, base, newBase).Going? ==>
              RelocatePlan(bytes, layout, base, newBase) == RelocatePlan(bytes, layout, 0, newBase)
  {
    hide Tables, JumpTable, PlanOf, DynamicTable, RelocationsFit, SearchFits, ReadTables, DataAt, DataAtMut, Roomy;
    TablesExactly(bytes, layout, base);
    TablesMove(bytes, layout, base);
    TablesAreInside(bytes, layout, base);
    RelocateMoves(bytes, layout, base, newBase);
    var relocs := Relocations(bytes, layout, 0).value;
    var still := RelocTargets(|bytes|, layout, 0, relocs, newBase);
    var moved := RelocTargets(|bytes|, layout, base, relocs, newBase);
    forall i: nat | i < |relocs|
      ensures SearchFits(layout.segments, base, relocs[i].offset) <==> moved[i] == still[i]
      ensures moved[i] == still[i] || moved[i] == Invalid
    {
      TargetHasPut(still, i);
      MutIsRead(|bytes|, layout, 0, relocs[i].offset);
      LookupExactly(|bytes|, layout, base, relocs[i].offset);
      OffsetIndependent(|bytes|, layout, base, relocs[i].offset);
    }
    if RelocatePlan(bytes, layout, base, newBase).Going? {
      forall i: nat | i < |relocs|
        ensures moved[i] == still[i]
      {
        TargetHasPut(moved, i);
      }
    }
    assert RoomToRelocate(bytes, layout, base) ==> moved == still;
  }

  lemma MutIsRead(len: nat, layout: Layout, base: nat, addr: nat)
    ensures DataAtMut(len, layout, base, addr).Some? ==>
              DataAt(len, layout, base, addr) == DataAtMut(len, layout, base, addr)
  {
  }

  /** A file moved so high that its first segment overflows cannot be relocated again. */
  lemma OverflowingBase(bytes: seq<u8>, layout: Layout, base: nat, newBase: u64)
    requires layout.segments != [] && layout.segments[0].vaddr + base >= WORD_SIZE
    ensures RelocatePlan(bytes, layout, base, newBase) == Broken([]) && !RoomToRelocate(bytes, layout, base)
  {
  }

  /** After writes clear of the tables, relocation would write exactly what it would have written before them. */
  lemma RelocateAfterWrites(bytes: seq<u8>, puts: seq<Put>, layout: Layout, base: nat, newBase: u64)
    requires ClearOfRelocations(puts, bytes, layout)
    ensures RelocatePlan(Written(bytes, puts), layout, base, newBase) == RelocatePlan(bytes, layout, base, newBase)
  {
    hide Relocations, RelocTargets, Written;
    RelocationsClear(bytes, puts, layout, base);
  }

  /** Two target bases write to the same places. */
  lemma RelocateAlike(bytes: seq<u8>, layout: Layout, base: nat, a: u64, b: u64)
    ensures RelocatePlan(bytes, layout, base, a).Going? <==> RelocatePlan(bytes, layout, base, b).Going?
    ensures SameOffsets(RelocatePlan(bytes, layout, base, a).puts, RelocatePlan(bytes, layout, base, b).puts)
  {
    if Relocations(bytes, layout, base).Some? {
      var relocs := Relocations(bytes, layout, base).value;
      PlansAlike(RelocTargets(|bytes|, layout, base, relocs, a), RelocTargets(|bytes|, layout, base, relocs, b));
    }
  }

  /**
   Relocating to a and then to b leaves the same bytes as relocating to b alone. The second relocation
   succeeds exactly when nothing it looks at overflows at base a.
   */
  lemma LastBaseWins(bytes: seq<u8>, layout: Layout, base: nat, a: u64, b: u64)
    requires RelocatePlan(bytes, layout, base, a).Going?
    requires ClearOfRelocations(RelocatePlan(bytes, layout, base, a).puts, bytes, layout)
    ensures var first := Written(bytes, RelocatePlan(bytes, layout, base, a).puts);
            var alone, again := RelocatePlan(bytes, layout, base, b), RelocatePlan(first, layout, a, b);
            && alone.Going?
            && Written(first, alone.puts) == Written(bytes, alone.puts)
            && (again.Going? ==> again == alone)
            && (again.Going? <==> RoomToRelocate(bytes, layout, a))
  {
    hide Tables, Relocations, RelocatePlan, Written, ClearOfRelocations, Roomy, RoomToRelocate;
    var ps := RelocatePlan(bytes, layout, base, a).puts;
    RelocateAlike(bytes, layout, base, a, b);
    RelocateMoves(bytes, layout, base, b);
    RelocateExactly(bytes, layout, a, b);
    RelocateAfterWrites(bytes, ps, layout, a, b);
    SecondRoundWins(bytes, ps, RelocatePlan(bytes, layout, base, b).puts);
  }

  /** The slots of two entries do not overlap. */
  predicate SlotsApart(len: nat, layout: Layout, r: Rela, s: Rela) {
    match (DataAt(len, layout, 0, r.offset), DataAt(len, layout, 0, s.offset))
    case (Some(o), Some(p)) => o + 8 <= p || p + 8 <= o
    case _ => true
  }

  /** Only a `Relative` entry has a slot, at the file offset of its address. */
  lemma RelocSlot(len: nat, layout: Layout, base: nat, r: Rela, newBase: u64)
    ensures var target := RelocTarget(len, layout, base, r, newBase);
            && (target.Slot? ==>
                  && r.Type() == RELATIVE && target.put.off + 8 <= len
                  && DataAt(len, layout, 0, r.offset) == Some(target.put.off)
                  && target.put.value == (newBase + r.addend) % WORD_SIZE)
            && (r.Type() == RELATIVE ==> !target.Skip?)
  {
    OffsetIndependent(len, layout, base, r.offset);
  }

  /** What an entry leads to: type 8 is a write of base plus addend, type 7 is passed over, any other panics. */
  lemma RelocTargetIs(len: nat, layout: Layout, base: nat, r: Rela, newBase: u64, k: nat)
    requires FirstHolding(layout.segments, k, r.offset)
    ensures var slot := layout.segments[k].offset + (r.offset - layout.segments[k].vaddr);
            RelocTarget(len, layout, base, r, newBase) ==
            if DataAtMut(len, layout, base, r.offset).None? then Invalid
            else if r.Type() == 8 then
              if slot + 8 <= len then Slot(Put(slot, (newBase + r.addend) % 0x1_0000_0000_0000_0000)) else Invalid
            else if r.Type() == 7 then Skip
            else Invalid
  {
    hide DataAtMut;
    LookupIs(len, layout, base, r.offset, k);
  }

  lemma FoundAt(len: nat, layout: Layout, addr: nat, k: nat)
    requires FirstHolding(layout.segments, k, addr) && DataAt(len, layout, 0, addr).Some?
    ensures k < |layout.segments| && layout.segments[k].vaddr <= addr
    ensures DataAt(len, layout, 0, addr) == Some(layout.segments[k].offset + (addr - layout.segments[k].vaddr))
  {
    LookupIs(len, layout, 0, addr, k);
  }

  /**
   After relocation the slot of a `Relative` entry, in the segment that holds its address, has base plus
   addend, unless a later entry reaches into it.
   */
  lemma RelocatedSlot(bytes: seq<u8>, layout: Layout, base: nat, relocs: seq<Rela>, newBase: u64, i: nat, k: nat)
    requires Relocations(bytes, layout, base) == Some(relocs) && RelocatePlan(bytes, layout, base, newBase).Going?
    requires i < |relocs| && relocs[i].Type() == 8 && FirstHolding(layout.segments, k, relocs[i].offset)
    requires forall j: nat | i < j < |relocs| && relocs[j].Type() == 8 ::
               SlotsApart(|bytes|, layout, relocs[i], relocs[j])
    ensures var slot := layout.segments[k].offset + (relocs[i].offset - layout.segments[k].vaddr);
            && slot + 8 <= |bytes|
            && Read64(Written(bytes, RelocatePlan(bytes, layout, base, newBase).puts), slot) ==
               (newBase + relocs[i].addend) % 0x1_0000_0000_0000_0000
  {
    hide Relocations, Written, DataAt, DataAtMut, RelocTarget, PlanOf, Read64, FirstHolding;
    var targets := RelocTargets(|bytes|, layout, base, relocs, newBase);
    forall j: nat | j < |relocs|
      ensures targets[j].Slot? ==> targets[j].put.off + 8 <= |bytes| && relocs[j].Type() == RELATIVE
      ensures targets[j].Slot? ==> DataAt(|bytes|, layout, 0, relocs[j].offset) == Some(targets[j].put.off)
      ensures targets[j].Slot? ==> targets[j].put.value == (newBase + relocs[j].addend) % WORD_SIZE
      ensures relocs[j].Type() == RELATIVE ==> !targets[j].Skip?
    {
      RelocSlot(|bytes|, layout, base, relocs[j], newBase);
    }
    TargetHasPut(targets, i);
    SlotHolds(bytes, targets, i);
    FoundAt(|bytes|, layout, relocs[i].offset, k);
  }

  lemma NothingPlanned(bytes: seq<u8>, targets: seq<Target>)
    ensures PlanOf(targets[..0]) == Going([]) && Written(bytes, []) == bytes
  {
  }
}
