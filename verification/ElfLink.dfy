/** What binding the call slots of an ELF file writes, and how the loop that reads as it writes carries it out. */
module ElfLink {
  import opened Bits
  import opened Options
  import opened ElfAddress
  import opened ElfWrites
  import opened ElfPlan
  import opened ElfTables
  import opened ElfNames
  import opened ElfRelocate

  /** The symbol map: names to addresses. */
  type Symbols = map<seq<u8>, u64>

  /** What an entry with a name leads to; `None` as its name is a panic. */
  function LinkTarget(
      len: nat, layout: Layout, base: nat, r: Rela, name: Option<seq<u8>>, symbols: Symbols): (target: Target)
    ensures target.Slot? ==> target.put.off + 8 <= len
    ensures target != Skip
  {
    if name.None? then Invalid
    else if name.value !in symbols then Nameless
    else
      match DataAt(len, layout, base, r.offset)
      case None => Invalid
      case Some(o) =>
        if r.Type() == JUMP_SLOT && o + 8 <= len then Slot(Put(o, symbols[name.value])) else Invalid
  }

  /** The same, with the name read from the bytes. */
  function TargetIn(bytes: seq<u8>, layout: Layout, base: nat, names: Names, r: Rela, symbols: Symbols): Target
    requires names.Inside(|bytes|)
  {
    LinkTarget(|bytes|, layout, base, r, NameAt(bytes, names, r.SymbolIndex()), symbols)
  }

  function LinkTargets(
      bytes: seq<u8>, layout: Layout, base: nat, names: Names, entries: seq<Rela>, symbols: Symbols): (r: seq<Target>)
    requires names.Inside(|bytes|)
    ensures |r| == |entries| && SlotsInside(r, |bytes|)
  {
    seq(|entries|, i requires 0 <= i < |entries| => TargetIn(bytes, layout, base, names, entries[i], symbols))
  }

  /** What linking writes if the tables do not change under it. */
  function LinkPlan(bytes: seq<u8>, layout: Layout, base: nat, symbols: Symbols): (plan: Plan)
    ensures AllInside(plan.puts, |bytes|)
  {
    match (NameTables(bytes, layout, base), JumpEntries(bytes, layout, base))
    case (Some(names), Some(entries)) =>
      PlanInside(LinkTargets(bytes, layout, base, names, entries, symbols), |bytes|);
      PlanOf(LinkTargets(bytes, layout, base, names, entries, symbols))
    case _ => Broken([])
  }

  // ---------- the base does not matter ----------

  lemma TargetMoves(bytes: seq<u8>, layout: Layout, base: nat, names: Names, r: Rela, symbols: Symbols)
    requires names.Inside(|bytes|)
    ensures var moved, still := TargetIn(bytes, layout, base, names, r, symbols),
                                TargetIn(bytes, layout, 0, names, r, symbols);
            && (moved == still || (moved.Invalid? && !layout.FitsAt(base)))
            && (still.Slot? ==> (moved == still <==> SearchFits(layout.segments, base, r.offset)))
  {
    hide DataAt, NameAt, SearchFits;
    OffsetIndependent(|bytes|, layout, base, r.offset);
    if DataAt(|bytes|, layout, 0, r.offset).Some? {
      LookupExactly(|bytes|, layout, base, r.offset);
    }
  }

  lemma LinkMoves(bytes: seq<u8>, layout: Layout, base: nat, symbols: Symbols)
    ensures LinkPlan(bytes, layout, base, symbols) == LinkPlan(bytes, layout, 0, symbols) ||
            (LinkPlan(bytes, layout, base, symbols).Broken? && !Roomy(bytes, layout, base))
    ensures LinkPlan(bytes, layout, base, symbols).puts <= LinkPlan(bytes, layout, 0, symbols).puts
  {
    hide Tables, JumpTable, NameTables, PlanOf, DynamicTable, TargetIn;
    TablesMove(bytes, layout, base);
    NamesMove(bytes, layout, base);
    if NameTables(bytes, layout, base).Some? && JumpEntries(bytes, layout, base).Some? {
      var names, entries := NameTables(bytes, layout, base).value, JumpEntries(bytes, layout, base).value;
      var moved := LinkTargets(bytes, layout, base, names, entries, symbols);
      var still := LinkTargets(bytes, layout, 0, names, entries, symbols);
      forall i: nat | i < |entries|
        ensures moved[i] == still[i] || (moved[i].Invalid? && !layout.FitsAt(base))
      {
        TargetMoves(bytes, layout, base, names, entries[i], symbols);
      }
      PlanMoves(moved, still);
      assert layout.FitsAt(base) ==> moved == still;
    }
  }

  /** Everything linking looks at fits at the base: the names, the jump table and the slots. */
  predicate RoomToLink(bytes: seq<u8>, layout: Layout, base: nat) {
    NamesFit(bytes, layout, base) && JumpTableFits(bytes, layout, base) &&
    match JumpEntries(bytes, layout, 0)
    case None => true
    case Some(entries) =>
      forall i: nat | i < |entries| :: SearchFits(layout.segments, base, entries[i].offset)
  }

  /** A file that can be linked at base zero can be at another base exactly when nothing overflows there. */
  lemma LinkExactly(bytes: seq<u8>, layout: Layout, base: nat, symbols: Symbols)
    requires LinkPlan(bytes, layout, 0, symbols).Going?
    ensures LinkPlan(bytes, layout, base, symbols).Going? <==> RoomToLink(bytes, layout, base)
    ensures LinkPlan(bytes, layout, base, symbols).Going? ==>
              LinkPlan(bytes, layout, base, symbols) == LinkPlan(bytes, layout, 0, symbols)
  {
    hide Tables, JumpTable, NameTables, PlanOf, DynamicTable, JumpTableFits, NamesFit, SearchFits, TargetIn, Roomy;
    JumpTableExactly(bytes, layout, base);
    NamesExactly(bytes, layout, base);
    TablesMove(bytes, layout, base);
    NamesMove(bytes, layout, base);
    LinkMoves(bytes, layout, base, symbols);
    var names, entries := NameTables(bytes, layout, 0).value, JumpEntries(bytes, layout, 0).value;
    var still := LinkTargets(bytes, layout, 0, names, entries, symbols);
    var moved := LinkTargets(bytes, layout, base, names, entries, symbols);
    forall i: nat | i < |entries|
      ensures SearchFits(layout.segments, base, entries[i].offset) <==> moved[i] == still[i]
      ensures moved[i] == still[i] || moved[i] == Invalid
    {
      TargetHasPut(still, i);
      NeverSkips(bytes, layout, 0, names, entries[i], symbols);
      TargetMoves(bytes, layout, base, names, entries[i], symbols);
    }
    if LinkPlan(bytes, layout, base, symbols).Going? {
      forall i: nat | i < |entries|
        ensures moved[i] == still[i]
      {
        TargetHasPut(moved, i);
      }
    }
    assert RoomToLink(bytes, layout, base) ==> moved == still;
  }

  lemma NeverSkips(bytes: seq<u8>, layout: Layout, base: nat, names: Names, r: Rela, symbols: Symbols)
    requires names.Inside(|bytes|)
    ensures !TargetIn(bytes, layout, base, names, r, symbols).Skip?
  {
  }

  /** A file moved so high that its symbol table overflows cannot be linked. */
  lemma OverflowingSymbols(bytes: seq<u8>, layout: Layout, base: nat, symbols: Symbols)
    requires DynamicTable(bytes, layout, 0).Some?
    requires var addr := Find(DynamicTable(bytes, layout, 0).value, 0, SYMBOLS);
             addr.Some? && addr.value + base >= WORD_SIZE
    ensures LinkPlan(bytes, layout, base, symbols) == Broken([]) && !NamesFit(bytes, layout, base)
  {
    hide DynamicTable;
    var table := DynamicTable(bytes, layout, 0).value;
    DynamicTableMoves(bytes, layout, base);
    OverflowingTag(table, base, SYMBOLS);
  }

  lemma {:induction false} OverflowingTag(table: seq<Dyn>, base: nat, tag: nat)
    requires Find(table, 0, tag).Some? && Find(table, 0, tag).value + base >= WORD_SIZE
    requires 3 <= tag <= 7
    ensures Find(table, base, tag).None? && !FindFits(table, base, tag)
  {
    if table[0].Answers(tag) {
    } else {
      OverflowingTag(table[1..], base, tag);
    }
  }

  // ---------- after other writes ----------

  lemma TargetsClear(
      bytes: seq<u8>, puts: seq<Put>, layout: Layout, base: nat, names: Names, entries: seq<Rela>, symbols: Symbols)
    requires AllInside(puts, |bytes|) && names.Inside(|bytes|) && ClearOfNames(puts, names)
    ensures LinkTargets(Written(bytes, puts), layout, base, names, entries, symbols) ==
            LinkTargets(bytes, layout, base, names, entries, symbols)
  {
    hide Written, NameAt, LinkTarget, ClearOfNames;
    forall i: nat | i < |entries|
      ensures TargetIn(Written(bytes, puts), layout, base, names, entries[i], symbols) ==
              TargetIn(bytes, layout, base, names, entries[i], symbols)
    {
      NameClear(bytes, puts, names, entries[i].SymbolIndex());
    }
  }

  /** After writes clear of the tables, linking would write exactly what it would have written before them. */
  lemma LinkAfterWrites(bytes: seq<u8>, puts: seq<Put>, layout: Layout, base: nat, symbols: Symbols)
    requires ClearOfLink(puts, bytes, layout)
    ensures LinkPlan(Written(bytes, puts), layout, base, symbols) == LinkPlan(bytes, layout, base, symbols)
  {
    hide JumpEntries, JumpTable, NameTables, NamePlaces, LinkTargets, Written, ClearOfNames, ClearOfDynamic;
    hide Roomy, PlanOf;
    JumpsClear(bytes, puts, layout, base);
    NamesClear(bytes, puts, layout, base);
    NamesMove(bytes, layout, base);
    if NameTables(bytes, layout, base).Some? && JumpEntries(bytes, layout, base).Some? {
      var names, entries := NameTables(bytes, layout, base).value, JumpEntries(bytes, layout, base).value;
      TargetsClear(bytes, puts, layout, base, names, entries, symbols);
    }
  }

  // ---------- what a linked slot holds ----------

  /** The linking of a file with these tables runs to its end. */
  predicate Links(bytes: seq<u8>, layout: Layout, base: nat, names: Names, entries: seq<Rela>, symbols: Symbols) {
    && NameTables(bytes, layout, base) == Some(names) && JumpEntries(bytes, layout, base) == Some(entries)
    && LinkPlan(bytes, layout, base, symbols).Going?
  }

  lemma LinkSlot(bytes: seq<u8>, layout: Layout, base: nat, names: Names, r: Rela, symbols: Symbols)
    requires names.Inside(|bytes|)
    ensures var target, name := TargetIn(bytes, layout, base, names, r, symbols),
                                NameAt(bytes, names, r.SymbolIndex());
            target.Slot? ==>
              && name.Some? && name.value in symbols && r.Type() == 7
              && target.put.off + 8 <= |bytes| && target.put.value == symbols[name.value]
              && DataAt(|bytes|, layout, 0, r.offset) == Some(target.put.off)
  {
    OffsetIndependent(|bytes|, layout, base, r.offset);
  }

  /** A finished link has one write per entry: the address of the entry's name, at the entry's file offset. */
  lemma LinkEntry(
      bytes: seq<u8>, layout: Layout, base: nat, names: Names, entries: seq<Rela>, symbols: Symbols, i: nat)
    requires Links(bytes, layout, base, names, entries, symbols) && i < |entries|
    ensures var puts := LinkPlan(bytes, layout, base, symbols).puts;
            var name := NameAt(bytes, names, entries[i].SymbolIndex());
            && |puts| == |entries| && entries[i].Type() == 7 && name.Some? && name.value in symbols
            && DataAt(|bytes|, layout, 0, entries[i].offset) == Some(puts[i].off)
            && puts[i].value == symbols[name.value]
  {
    hide JumpEntries, NameTables, DataAt, PlanOf, TargetIn, NameAt;
    var targets := LinkTargets(bytes, layout, base, names, entries, symbols);
    forall j: nat | j < |targets|
      ensures targets[j].Slot?
    {
      TargetHasPut(targets, j);
      NeverSkips(bytes, layout, base, names, entries[j], symbols);
    }
    CountIsSize(targets);
    AllSlots(targets);
    AllSlots(targets[..i]);
    TargetHasPut(targets, i);
    LinkSlot(bytes, layout, base, names, entries[i], symbols);
  }

  lemma {:induction false} AllSlots(targets: seq<Target>)
    requires forall i: nat | i < |targets| :: targets[i].Slot?
    ensures SlotCount(targets) == |targets|
  {
    if targets == [] {
    } else {
      AllSlots(targets[..|targets| - 1]);
    }
  }

  /** What an entry leads to: a panic without a name, an error without an address for it, else a write. */
  lemma LinkTargetIs(
      len: nat, layout: Layout, base: nat, r: Rela, name: Option<seq<u8>>, symbols: Symbols, k: nat)
    requires FirstHolding(layout.segments, k, r.offset)
    ensures var slot := layout.segments[k].offset + (r.offset - layout.segments[k].vaddr);
            LinkTarget(len, layout, base, r, name, symbols) ==
            if name.None? then Invalid
            else if name.value !in symbols then Nameless
            else if DataAt(len, layout, base, r.offset).Some? && r.Type() == 7 && slot + 8 <= len
            then Slot(Put(slot, symbols[name.value])) else Invalid
  {
    hide DataAt;
    LookupIs(len, layout, base, r.offset, k);
  }

  /**
   After a finished link a call slot, in the segment that holds its address, has its symbol's address, unless
   a later entry reaches into it.
   */
  lemma LinkedSlot(
      bytes: seq<u8>, layout: Layout, base: nat, names: Names, entries: seq<Rela>, symbols: Symbols, i: nat, k: nat)
    requires Links(bytes, layout, base, names, entries, symbols) && i < |entries|
    requires FirstHolding(layout.segments, k, entries[i].offset)
    requires forall j: nat | i < j < |entries| :: SlotsApart(|bytes|, layout, entries[i], entries[j])
    ensures var slot := layout.segments[k].offset + (entries[i].offset - layout.segments[k].vaddr);
            var name := NameAt(bytes, names, entries[i].SymbolIndex());
            && slot + 8 <= |bytes| && name.Some? && name.value in symbols
            && Read64(Written(bytes, LinkPlan(bytes, layout, base, symbols).puts), slot) == symbols[name.value]
  {
    hide JumpEntries, NameTables, Written, DataAt, PlanOf, TargetIn, NameAt, Read64, FirstHolding;
    var targets := LinkTargets(bytes, layout, base, names, entries, symbols);
    forall j: nat | j < |entries|
      ensures targets[j].Slot? ==> DataAt(|bytes|, layout, 0, entries[j].offset) == Some(targets[j].put.off)
    {
      LinkSlot(bytes, layout, base, names, entries[j], symbols);
    }
    TargetHasPut(targets, i);
    NeverSkips(bytes, layout, base, names, entries[i], symbols);
    LinkSlot(bytes, layout, base, names, entries[i], symbols);
    SlotHolds(bytes, targets, i);
    FoundAt(|bytes|, layout, entries[i].offset, k);
  }

  // ---------- the loop reads the tables while it writes ----------

  datatype LinkResult = LinkDone | LinkError | LinkPanicked

  function Ending(plan: Plan): LinkResult {
    match plan
    case Going(_) => LinkDone
    case Unresolved(_) => LinkError
    case Broken(_) => LinkPanicked
  }

  datatype Bound = Bound(bytes: seq<u8>, result: LinkResult)

  /** The loop after n entries: each entry and its name are read from the bytes the entries before it left. */
  function LinkLoop(
      bytes: seq<u8>, layout: Layout, base: nat, names: Names, o: nat, n: nat, symbols: Symbols): (r: Bound)
    requires names.Inside(|bytes|) && (n > 0 ==> o + 24 * n <= |bytes|)
    ensures |r.bytes| == |bytes|
  {
    if n == 0 then Bound(bytes, LinkDone)
    else
      var before := LinkLoop(bytes, layout, base, names, o, n - 1, symbols);
      if before.result != LinkDone then before
      else
        match TargetIn(before.bytes, layout, base, names, RelaAt(before.bytes, o + 24 * (n - 1)), symbols)
        case Slot(put) => Bound(Write64(before.bytes, put.off, put.value), LinkDone)
        case Nameless => Bound(before.bytes, LinkError)
        case _ => Bound(before.bytes, LinkPanicked)
  }

  function LinkAll(bytes: seq<u8>, layout: Layout, base: nat, symbols: Symbols): (r: Bound)
    ensures |r.bytes| == |bytes|
  {
    match (NameTables(bytes, layout, base), JumpTable(bytes, layout, base))
    case (Some(names), Some((o, n))) => LinkLoop(bytes, layout, base, names, o, n, symbols)
    case _ => Bound(bytes, LinkPanicked)
  }

  /** A loop that has ended stays as it is. */
  lemma {:induction false} LoopEnds(
      bytes: seq<u8>, layout: Layout, base: nat, names: Names, o: nat, i: nat, n: nat, symbols: Symbols)
    requires names.Inside(|bytes|) && i <= n && (n > 0 ==> o + 24 * n <= |bytes|)
    ensures LinkLoop(bytes, layout, base, names, o, i, symbols).result != LinkDone ==>
              LinkLoop(bytes, layout, base, names, o, n, symbols) == LinkLoop(bytes, layout, base, names, o, i, symbols)
    decreases n - i
  {
    if i == n {
    } else {
      LoopEnds(bytes, layout, base, names, o, i, n - 1, symbols);
    }
  }

  /** The next entry and its name are as they were at the start. */
  lemma EntryUnchanged(
      bytes: seq<u8>, puts: seq<Put>, layout: Layout, base: nat, names: Names, o: nat, symbols: Symbols)
    requires AllInside(puts, |bytes|) && names.Inside(|bytes|) && ClearOfNames(puts, names)
    requires o + 24 <= |bytes| && Clear(puts, o, 24)
    ensures TargetIn(Written(bytes, puts), layout, base, names, RelaAt(Written(bytes, puts), o), symbols) ==
            TargetIn(bytes, layout, base, names, RelaAt(bytes, o), symbols)
  {
    hide Written, RelaAt, NameAt, LinkTarget;
    RelaClear(bytes, puts, o);
    NameClear(bytes, puts, names, RelaAt(bytes, o).SymbolIndex());
  }

  /** The first i entries, when no planned write reaches into the tables: the plan, carried out. */
  lemma {:induction false} LoopIsPlan(
      bytes: seq<u8>, layout: Layout, base: nat, names: Names, o: nat, n: nat, symbols: Symbols,
      targets: seq<Target>, i: nat)
    requires names.Inside(|bytes|) && i <= n && (n > 0 ==> o + 24 * n <= |bytes|)
    requires targets == LinkTargets(bytes, layout, base, names, RelaEntries(bytes, o, n), symbols)
    requires Clear(PlanOf(targets).puts, o, 24 * n) && ClearOfNames(PlanOf(targets).puts, names)
    ensures var plan := PlanOf(targets[..i]);
            && AllInside(plan.puts, |bytes|)
            && LinkLoop(bytes, layout, base, names, o, i, symbols) == Bound(Written(bytes, plan.puts), Ending(plan))
    decreases i
  {
    hide PlanOf, Written, TargetIn, RelaAt, Write64;
    if i == 0 {
      NothingPlanned(bytes, targets);
    } else {
      LoopIsPlan(bytes, layout, base, names, o, n, symbols, targets, i - 1);
      var before := PlanOf(targets[..i - 1]).puts;
      PlanStep(targets, i - 1);
      PrefixClear(targets, i - 1, o, n, names);
      EntryUnchanged(bytes, before, layout, base, names, o + 24 * (i - 1), symbols);
      assert targets[i - 1] == TargetIn(bytes, layout, base, names, RelaAt(bytes, o + 24 * (i - 1)), symbols);
      NeverSkips(bytes, layout, base, names, RelaAt(bytes, o + 24 * (i - 1)), symbols);
      if targets[i - 1].Slot? {
        WrittenOneMore(bytes, before, targets[i - 1].put);
      }
    }
  }

  /** The writes of the first entries are clear of what the whole plan is clear of. */
  lemma PrefixClear(targets: seq<Target>, i: nat, o: nat, n: nat, names: Names)
    requires i < |targets| == n
    requires Clear(PlanOf(targets).puts, o, 24 * n) && ClearOfNames(PlanOf(targets).puts, names)
    ensures Clear(PlanOf(targets[..i]).puts, o + 24 * i, 24) && ClearOfNames(PlanOf(targets[..i]).puts, names)
  {
    hide PlanOf;
    PlanGrows(targets, i);
    var fewer, all := PlanOf(targets[..i]).puts, PlanOf(targets).puts;
    assert forall j: nat | j < |fewer| :: fewer[j] == all[j];
  }

  /** If no planned slot reaches into the tables, linking carries out its plan. */
  lemma LinkIsPlan(bytes: seq<u8>, layout: Layout, base: nat, symbols: Symbols)
    requires ClearOfLink(LinkPlan(bytes, layout, base, symbols).puts, bytes, layout)
    ensures var plan := LinkPlan(bytes, layout, base, symbols);
            LinkAll(bytes, layout, base, symbols) == Bound(Written(bytes, plan.puts), Ending(plan))
  {
    hide Tables, JumpTable, NameTables, NamePlaces, PlanOf, LinkTargets, Roomy, LinkLoop, ClearOfNames, Written;
    TablesMove(bytes, layout, base);
    NamesMove(bytes, layout, base);
    NothingPlanned(bytes, []);
    if NameTables(bytes, layout, base).Some? && JumpTable(bytes, layout, base).Some? {
      var names := NameTables(bytes, layout, base).value;
      var (o, n) := JumpTable(bytes, layout, base).value;
      var targets := LinkTargets(bytes, layout, base, names, RelaEntries(bytes, o, n), symbols);
      LoopIsPlan(bytes, layout, base, names, o, n, symbols, targets, n);
      assert targets[..n] == targets;
    }
  }
}
