/** The dynamic and relocation tables, decoded from the bytes of the file. */
module ElfTables {
  import opened Bits
  import opened Options
  import opened ProgramHeader
  import opened ElfAddress
  import opened ElfWrites

  const PLT_SIZE: nat := 2
  const RELA: nat := 7
  const RELA_SIZE: nat := 8
  const REL: nat := 17
  const REL_SIZE: nat := 18
  const PLT_TYPE: nat := 20
  const HASH: nat := 4
  const STRINGS: nat := 5
  const SYMBOLS: nat := 6
  const STRINGS_SIZE: nat := 10
  const JUMP_TABLE: nat := 23

  const JUMP_SLOT: nat := 7
  const RELATIVE: nat := 8

  datatype Dyn = Dyn(tag: u64, value: u64) {
    /** The entries that hold an address, which is moved by the base as the entry is read. */
    predicate HoldsAddress() { 3 <= tag <= 7 || tag == 12 || tag == 13 || tag == 17 || tag == 23 }

    predicate FitsAt(base: nat) { HoldsAddress() ==> value + base < WORD_SIZE }

    /** It has the tag; for the kind of the jump table, only the two known kinds count. */
    predicate Answers(wanted: nat) { tag == wanted && (wanted == PLT_TYPE ==> value == RELA || value == REL) }
  }

  datatype Rela = Rela(offset: u64, info: u64, addend: u64) {
    function Type(): nat { info % 0x1_0000_0000 }
    function SymbolIndex(): nat { info / 0x1_0000_0000 }
  }

  /** The first dynamic segment; the addresses of the segments before it are moved on the way. */
  function DynamicSegment(segments: seq<Segment>, base: nat): Option<Segment> {
    if segments == [] || segments[0].vaddr + base >= WORD_SIZE then None
    else if segments[0].kind == DYNAMIC then Some(segments[0])
    else DynamicSegment(segments[1..], base)
  }

  function DynEntries(bytes: seq<u8>, o: nat, n: nat): seq<Dyn>
    requires o + 16 * n <= |bytes|
  {
    if n == 0 then []
    else DynEntries(bytes, o, n - 1) + [Dyn(Read64(bytes, o + 16 * (n - 1)), Read64(bytes, o + 16 * (n - 1) + 8))]
  }

  /** The whole dynamic segment; `None` is the panic when there is none, outside the file or not aligned. */
  function DynamicTable(bytes: seq<u8>, layout: Layout, base: nat): Option<seq<Dyn>> {
    match DynamicSegment(layout.segments, base)
    case None => None
    case Some(s) =>
      if s.FileEnd() > |bytes| || s.offset % 8 != 0 then None else Some(DynEntries(bytes, s.offset, s.fileSize / 16))
  }

  predicate AddressesFit(table: seq<Dyn>, base: nat) {
    forall i: nat | i < |table| :: table[i].FitsAt(base)
  }

  /** The values of all entries with a tag, in order. */
  function Values(table: seq<Dyn>, tag: nat): seq<u64> {
    if table == [] then []
    else
      var last := table[|table| - 1];
      Values(table[..|table| - 1], tag) + (if last.tag == tag then [last.value] else [])
  }

  /** The value of the first entry that answers; `None` also if an address before it overflows. */
  function Find(table: seq<Dyn>, base: nat, tag: nat): Option<u64> {
    if table == [] || !table[0].FitsAt(base) then None
    else if table[0].Answers(tag) then Some(table[0].value)
    else Find(table[1..], base, tag)
  }

  function RelaAt(bytes: seq<u8>, o: nat): Rela
    requires o + 24 <= |bytes|
  {
    Rela(Read64(bytes, o), Read64(bytes, o + 8), Read64(bytes, o + 16))
  }

  function RelaEntries(bytes: seq<u8>, o: nat, n: nat): (r: seq<Rela>)
    requires n > 0 ==> o + 24 * n <= |bytes|
    ensures |r| == n && forall i: nat | i < n :: r[i] == RelaAt(bytes, o + 24 * i)
  {
    if n == 0 then [] else RelaEntries(bytes, o, n - 1) + [RelaAt(bytes, o + 24 * (n - 1))]
  }

  /** The `Rel` tables pair up with their sizes; an entry in one of them is a panic on this machine. */
  predicate NoRelEntries(len: nat, layout: Layout, base: nat, addrs: seq<u64>, sizes: seq<u64>) {
    addrs == [] || sizes == [] ||
    (DataAt(len, layout, base, addrs[0]).Some? && sizes[0] < 16 &&
     NoRelEntries(len, layout, base, addrs[1..], sizes[1..]))
  }

  /** File offsets and entry counts of the `Rela` tables; `None` is a failed unwrap or a table outside the file. */
  function RelaTables(len: nat, layout: Layout, base: nat, addrs: seq<u64>, sizes: seq<u64>):
      Option<seq<(nat, nat)>> {
    if addrs == [] || sizes == [] then Some([])
    else
      match (DataAt(len, layout, base, addrs[0]), RelaTables(len, layout, base, addrs[1..], sizes[1..]))
      case (Some(o), Some(rest)) =>
        if o + 24 * (sizes[0] / 24) > len then None else Some([(o, sizes[0] / 24)] + rest)
      case _ => None
  }

  /** Which bytes the relocations are read from. */
  function Tables(bytes: seq<u8>, layout: Layout, base: nat): Option<seq<(nat, nat)>> {
    match DynamicTable(bytes, layout, base)
    case None => None
    case Some(table) =>
      if !AddressesFit(table, base) then None
      else if !NoRelEntries(|bytes|, layout, base, Values(table, REL), Values(table, REL_SIZE)) then None
      else RelaTables(|bytes|, layout, base, Values(table, RELA), Values(table, RELA_SIZE))
  }

  predicate TablesInside(tables: seq<(nat, nat)>, len: nat) {
    forall i: nat | i < |tables| :: tables[i].0 + 24 * tables[i].1 <= len
  }

  function ReadTables(bytes: seq<u8>, tables: seq<(nat, nat)>): seq<Rela>
    requires TablesInside(tables, |bytes|)
  {
    if tables == [] then []
    else RelaEntries(bytes, tables[0].0, tables[0].1) + ReadTables(bytes, tables[1..])
  }

  lemma {:induction false} RelaTablesInside(len: nat, layout: Layout, base: nat, addrs: seq<u64>, sizes: seq<u64>)
    ensures RelaTables(len, layout, base, addrs, sizes).Some? ==>
              TablesInside(RelaTables(len, layout, base, addrs, sizes).value, len)
  {
    if addrs == [] || sizes == [] {
    } else {
      RelaTablesInside(len, layout, base, addrs[1..], sizes[1..]);
    }
  }

  function Relocations(bytes: seq<u8>, layout: Layout, base: nat): Option<seq<Rela>> {
    match Tables(bytes, layout, base)
    case None => None
    case Some(tables) =>
      TablesAreInside(bytes, layout, base);
      Some(ReadTables(bytes, tables))
  }

  lemma TablesAreInside(bytes: seq<u8>, layout: Layout, base: nat)
    ensures Tables(bytes, layout, base).Some? ==> TablesInside(Tables(bytes, layout, base).value, |bytes|)
  {
    if DynamicTable(bytes, layout, base).Some? {
      var table := DynamicTable(bytes, layout, base).value;
      RelaTablesInside(|bytes|, layout, base, Values(table, RELA), Values(table, RELA_SIZE));
    }
  }

  /** The lazily bound call slots: file offset and count of the table behind `DT_JMPREL`. */
  function JumpTable(bytes: seq<u8>, layout: Layout, base: nat): (r: Option<(nat, nat)>)
    ensures r.Some? && r.value.1 > 0 ==> r.value.0 + 24 * r.value.1 <= |bytes|
  {
    match DynamicTable(bytes, layout, base)
    case None => None
    case Some(table) =>
      match (Find(table, base, JUMP_TABLE), Find(table, base, PLT_SIZE), Find(table, base, PLT_TYPE))
      case (Some(addr), Some(size), Some(kind)) =>
        (match DataAt(|bytes|, layout, base, addr)
         case None => None
         case Some(o) =>
           if kind == REL then if size < 16 then Some((o, 0)) else None
           else if o + 24 * (size / 24) > |bytes| then None
           else Some((o, size / 24)))
      case _ => None
  }

  function JumpEntries(bytes: seq<u8>, layout: Layout, base: nat): Option<seq<Rela>> {
    match JumpTable(bytes, layout, base)
    case None => None
    case Some((o, n)) => Some(RelaEntries(bytes, o, n))
  }

  // ---------- the base does not matter ----------

  /** Based at `base`, no address of a segment or of the dynamic table overflows. */
  predicate Roomy(bytes: seq<u8>, layout: Layout, base: nat) {
    && layout.FitsAt(base)
    && (DynamicTable(bytes, layout, 0).Some? ==> AddressesFit(DynamicTable(bytes, layout, 0).value, base))
  }

  lemma {:induction false} DynamicMoves(layout: Layout, i: nat, base: nat)
    requires i <= |layout.segments|
    ensures Agrees(DynamicSegment(layout.segments[i..], base), DynamicSegment(layout.segments[i..], 0),
                   layout.FitsAt(base))
    decreases |layout.segments| - i
  {
    if i == |layout.segments| {
    } else {
      assert layout.segments[i..][1..] == layout.segments[i + 1..];
      DynamicMoves(layout, i + 1, base);
      assert layout.FitsAt(base) ==> layout.segments[i].FitsAt(base);
    }
  }

  lemma DynamicTableMoves(bytes: seq<u8>, layout: Layout, base: nat)
    ensures Agrees(DynamicTable(bytes, layout, base), DynamicTable(bytes, layout, 0), layout.FitsAt(base))
  {
    assert layout.segments[0..] == layout.segments;
    DynamicMoves(layout, 0, base);
  }

  lemma {:induction false} FindMoves(table: seq<Dyn>, i: nat, base: nat, tag: nat)
    requires i <= |table|
    ensures Agrees(Find(table[i..], base, tag), Find(table[i..], 0, tag), AddressesFit(table, base))
    decreases |table| - i
  {
    if i == |table| {
    } else {
      assert table[i..][1..] == table[i + 1..];
      FindMoves(table, i + 1, base, tag);
      assert AddressesFit(table, base) ==> table[i].FitsAt(base);
    }
  }

  lemma {:induction false} NoRelMoves(len: nat, layout: Layout, base: nat, addrs: seq<u64>, sizes: seq<u64>)
    ensures NoRelEntries(len, layout, base, addrs, sizes) == NoRelEntries(len, layout, 0, addrs, sizes) ||
            (!NoRelEntries(len, layout, base, addrs, sizes) && !layout.FitsAt(base))
  {
    if addrs == [] || sizes == [] {
    } else {
      OffsetIndependent(len, layout, base, addrs[0]);
      NoRelMoves(len, layout, base, addrs[1..], sizes[1..]);
    }
  }

  lemma {:induction false} RelaTablesMove(len: nat, layout: Layout, base: nat, addrs: seq<u64>, sizes: seq<u64>)
    ensures Agrees(RelaTables(len, layout, base, addrs, sizes), RelaTables(len, layout, 0, addrs, sizes),
                   layout.FitsAt(base))
  {
    if addrs == [] || sizes == [] {
    } else {
      OffsetIndependent(len, layout, base, addrs[0]);
      RelaTablesMove(len, layout, base, addrs[1..], sizes[1..]);
    }
  }

  /** The same tables are found at every base that does not overflow; at any other, they are found or it panics. */
  lemma TablesMove(bytes: seq<u8>, layout: Layout, base: nat)
    ensures Agrees(Tables(bytes, layout, base), Tables(bytes, layout, 0), Roomy(bytes, layout, base))
    ensures Agrees(JumpTable(bytes, layout, base), JumpTable(bytes, layout, 0), Roomy(bytes, layout, base))
  {
    hide DynamicTable, Find, Values, NoRelEntries, RelaTables, DataAt;
    DynamicTableMoves(bytes, layout, base);
    if DynamicTable(bytes, layout, base).Some? {
      var table := DynamicTable(bytes, layout, base).value;
      assert AddressesFit(table, base) ==> AddressesFit(table, 0);
      NoRelMoves(|bytes|, layout, base, Values(table, REL), Values(table, REL_SIZE));
      RelaTablesMove(|bytes|, layout, base, Values(table, RELA), Values(table, RELA_SIZE));
      assert table[0..] == table;
      FindMoves(table, 0, base, JUMP_TABLE);
      FindMoves(table, 0, base, PLT_SIZE);
      FindMoves(table, 0, base, PLT_TYPE);
      if Find(table, 0, JUMP_TABLE).Some? {
        OffsetIndependent(|bytes|, layout, base, Find(table, 0, JUMP_TABLE).value);
      }
    }
  }

  /** The addresses moved on the way to the dynamic segment do not overflow. */
  predicate DynamicFits(segments: seq<Segment>, base: nat) {
    segments == [] ||
    (segments[0].vaddr + base < WORD_SIZE && (segments[0].kind == DYNAMIC || DynamicFits(segments[1..], base)))
  }

  lemma {:induction false} DynamicExactly(segments: seq<Segment>, base: nat)
    requires DynamicSegment(segments, 0).Some?
    ensures DynamicFits(segments, base) <==> DynamicSegment(segments, base).Some?
    ensures DynamicFits(segments, base) ==> DynamicSegment(segments, base) == DynamicSegment(segments, 0)
  {
    if segments[0].kind == DYNAMIC {
    } else {
      DynamicExactly(segments[1..], base);
    }
  }

  /** The searches for the addresses that have a size beside them all fit. */
  predicate TablesFit(layout: Layout, base: nat, addrs: seq<u64>, sizes: seq<u64>) {
    addrs == [] || sizes == [] ||
    (SearchFits(layout.segments, base, addrs[0]) && TablesFit(layout, base, addrs[1..], sizes[1..]))
  }

  lemma {:induction false} NoRelExactly(len: nat, layout: Layout, base: nat, addrs: seq<u64>, sizes: seq<u64>)
    requires NoRelEntries(len, layout, 0, addrs, sizes)
    ensures NoRelEntries(len, layout, base, addrs, sizes) <==> TablesFit(layout, base, addrs, sizes)
  {
    if addrs == [] || sizes == [] {
    } else {
      LookupExactly(len, layout, base, addrs[0]);
      NoRelExactly(len, layout, base, addrs[1..], sizes[1..]);
    }
  }

  lemma {:induction false} RelaTablesExactly(len: nat, layout: Layout, base: nat, addrs: seq<u64>, sizes: seq<u64>)
    requires RelaTables(len, layout, 0, addrs, sizes).Some?
    ensures RelaTables(len, layout, base, addrs, sizes).Some? <==> TablesFit(layout, base, addrs, sizes)
  {
    if addrs == [] || sizes == [] {
    } else {
      LookupExactly(len, layout, base, addrs[0]);
      OffsetIndependent(len, layout, base, addrs[0]);
      RelaTablesExactly(len, layout, base, addrs[1..], sizes[1..]);
    }
  }

  /** Everything looked at to find the relocations fits at the base. */
  predicate RelocationsFit(bytes: seq<u8>, layout: Layout, base: nat) {
    DynamicFits(layout.segments, base) &&
    match DynamicTable(bytes, layout, 0)
    case None => true
    case Some(table) =>
      && AddressesFit(table, base)
      && TablesFit(layout, base, Values(table, REL), Values(table, REL_SIZE))
      && TablesFit(layout, base, Values(table, RELA), Values(table, RELA_SIZE))
  }

  lemma TablesExactly(bytes: seq<u8>, layout: Layout, base: nat)
    requires Tables(bytes, layout, 0).Some?
    ensures Tables(bytes, layout, base).Some? <==> RelocationsFit(bytes, layout, base)
  {
    hide Values, NoRelEntries, RelaTables, DynEntries, AddressesFit, TablesFit;
    DynamicExactly(layout.segments, base);
    var table := DynamicTable(bytes, layout, 0).value;
    NoRelExactly(|bytes|, layout, base, Values(table, REL), Values(table, REL_SIZE));
    RelaTablesExactly(|bytes|, layout, base, Values(table, RELA), Values(table, RELA_SIZE));
  }

  /** The entries read on the way to the first that answers fit at the base. */
  predicate FindFits(table: seq<Dyn>, base: nat, tag: nat) {
    table == [] || (table[0].FitsAt(base) && (table[0].Answers(tag) || FindFits(table[1..], base, tag)))
  }

  lemma {:induction false} FindExactly(table: seq<Dyn>, base: nat, tag: nat)
    requires Find(table, 0, tag).Some?
    ensures Find(table, base, tag).Some? <==> FindFits(table, base, tag)
    ensures FindFits(table, base, tag) ==> Find(table, base, tag) == Find(table, 0, tag)
  {
    if table[0].Answers(tag) {
    } else {
      FindExactly(table[1..], base, tag);
    }
  }

  /** Everything looked at to find the jump table fits at the base. */
  predicate JumpTableFits(bytes: seq<u8>, layout: Layout, base: nat) {
    DynamicFits(layout.segments, base) &&
    match DynamicTable(bytes, layout, 0)
    case None => true
    case Some(table) =>
      && FindFits(table, base, JUMP_TABLE) && FindFits(table, base, PLT_SIZE) && FindFits(table, base, PLT_TYPE)
      && (Find(table, 0, JUMP_TABLE).Some? ==>
            SearchFits(layout.segments, base, Find(table, 0, JUMP_TABLE).value))
  }

  lemma JumpTableExactly(bytes: seq<u8>, layout: Layout, base: nat)
    requires JumpTable(bytes, layout, 0).Some?
    ensures JumpTable(bytes, layout, base).Some? <==> JumpTableFits(bytes, layout, base)
  {
    hide Find, FindFits, SearchFits, DataAt, DynEntries;
    DynamicExactly(layout.segments, base);
    var table := DynamicTable(bytes, layout, 0).value;
    FindExactly(table, base, JUMP_TABLE);
    FindExactly(table, base, PLT_SIZE);
    FindExactly(table, base, PLT_TYPE);
    LookupExactly(|bytes|, layout, base, Find(table, 0, JUMP_TABLE).value);
    OffsetIndependent(|bytes|, layout, base, Find(table, 0, JUMP_TABLE).value);
  }

  // ---------- writes clear of the tables do not change what is read ----------

  /** No write reaches into the n bytes from o on. */
  predicate Clear(puts: seq<Put>, o: nat, n: nat) {
    forall i: nat | i < |puts| :: puts[i].off + 8 <= o || o + n <= puts[i].off
  }

  /** Bytes no write reaches into are as they were. */
  lemma SliceClear(bytes: seq<u8>, puts: seq<Put>, o: nat, n: nat)
    requires AllInside(puts, |bytes|) && o + n <= |bytes| && Clear(puts, o, n)
    ensures Written(bytes, puts)[o..o + n] == bytes[o..o + n]
  {
    hide Written;
    forall a: nat | o <= a < o + n
      ensures Written(bytes, puts)[a] == bytes[a]
    {
      assert !Touched(puts, a);
      OutsideUntouched(bytes, puts, a);
    }
  }

  lemma ReadClear(bytes: seq<u8>, puts: seq<Put>, o: nat)
    requires AllInside(puts, |bytes|) && o + 8 <= |bytes| && Clear(puts, o, 8)
    ensures Read64(Written(bytes, puts), o) == Read64(bytes, o)
  {
    SliceClear(bytes, puts, o, 8);
  }

  lemma {:induction false} DynClear(bytes: seq<u8>, puts: seq<Put>, o: nat, n: nat)
    requires AllInside(puts, |bytes|) && o + 16 * n <= |bytes| && Clear(puts, o, 16 * n)
    ensures DynEntries(Written(bytes, puts), o, n) == DynEntries(bytes, o, n)
  {
    hide Written, Read64;
    if n == 0 {
    } else {
      DynClear(bytes, puts, o, n - 1);
      ReadClear(bytes, puts, o + 16 * (n - 1));
      ReadClear(bytes, puts, o + 16 * (n - 1) + 8);
    }
  }

  lemma RelaClear(bytes: seq<u8>, puts: seq<Put>, o: nat)
    requires AllInside(puts, |bytes|) && o + 24 <= |bytes| && Clear(puts, o, 24)
    ensures RelaAt(Written(bytes, puts), o) == RelaAt(bytes, o)
  {
    ReadClear(bytes, puts, o);
    ReadClear(bytes, puts, o + 8);
    ReadClear(bytes, puts, o + 16);
  }

  lemma {:induction false} RelaEntriesClear(bytes: seq<u8>, puts: seq<Put>, o: nat, n: nat)
    requires AllInside(puts, |bytes|) && (n > 0 ==> o + 24 * n <= |bytes|) && Clear(puts, o, 24 * n)
    ensures RelaEntries(Written(bytes, puts), o, n) == RelaEntries(bytes, o, n)
  {
    hide Written, RelaAt;
    if n == 0 {
    } else {
      RelaEntriesClear(bytes, puts, o, n - 1);
      RelaClear(bytes, puts, o + 24 * (n - 1));
    }
  }

  predicate ClearOfDynamic(puts: seq<Put>, layout: Layout) {
    match DynamicSegment(layout.segments, 0)
    case None => true
    case Some(s) => Clear(puts, s.offset, s.fileSize)
  }

  predicate ClearOfTables(puts: seq<Put>, tables: seq<(nat, nat)>) {
    forall i: nat | i < |tables| :: Clear(puts, tables[i].0, 24 * tables[i].1)
  }

  lemma DynamicClear(bytes: seq<u8>, puts: seq<Put>, layout: Layout, base: nat)
    requires AllInside(puts, |bytes|) && ClearOfDynamic(puts, layout)
    ensures DynamicTable(Written(bytes, puts), layout, base) == DynamicTable(bytes, layout, base)
  {
    assert layout.segments[0..] == layout.segments;
    DynamicMoves(layout, 0, base);
    if DynamicTable(bytes, layout, base).Some? {
      var s := DynamicSegment(layout.segments, base).value;
      assert Clear(puts, s.offset, 16 * (s.fileSize / 16));
      DynClear(bytes, puts, s.offset, s.fileSize / 16);
    }
  }

  lemma {:induction false} ReadTablesClear(bytes: seq<u8>, puts: seq<Put>, tables: seq<(nat, nat)>)
    requires AllInside(puts, |bytes|) && TablesInside(tables, |bytes|) && ClearOfTables(puts, tables)
    ensures ReadTables(Written(bytes, puts), tables) == ReadTables(bytes, tables)
  {
    if tables == [] {
    } else {
      RelaEntriesClear(bytes, puts, tables[0].0, tables[0].1);
      assert forall i: nat | i < |tables[1..]| :: tables[1..][i] == tables[i + 1];
      ReadTablesClear(bytes, puts, tables[1..]);
    }
  }

  /** The writes stay clear of everything relocation reads. */
  predicate ClearOfRelocations(puts: seq<Put>, bytes: seq<u8>, layout: Layout) {
    && AllInside(puts, |bytes|)
    && ClearOfDynamic(puts, layout)
    && (Tables(bytes, layout, 0).Some? ==> ClearOfTables(puts, Tables(bytes, layout, 0).value))
  }

  /** The writes stay clear of the jump table. */
  predicate ClearOfJumps(puts: seq<Put>, bytes: seq<u8>, layout: Layout) {
    && AllInside(puts, |bytes|)
    && ClearOfDynamic(puts, layout)
    && (JumpTable(bytes, layout, 0).Some? ==>
          Clear(puts, JumpTable(bytes, layout, 0).value.0, 24 * JumpTable(bytes, layout, 0).value.1))
  }

  /** Clear writes leave the places of the tables as they were. */
  lemma TablesClear(bytes: seq<u8>, puts: seq<Put>, layout: Layout, base: nat)
    requires AllInside(puts, |bytes|) && ClearOfDynamic(puts, layout)
    ensures Tables(Written(bytes, puts), layout, base) == Tables(bytes, layout, base)
    ensures JumpTable(Written(bytes, puts), layout, base) == JumpTable(bytes, layout, base)
  {
    hide DynamicTable, Find, Values, RelaTables, NoRelEntries, Written, DataAt, ClearOfDynamic;
    DynamicClear(bytes, puts, layout, base);
  }

  /** Writes clear of the relocation tables leave the decoded entries as they were, at every base. */
  lemma RelocationsClear(bytes: seq<u8>, puts: seq<Put>, layout: Layout, base: nat)
    requires ClearOfRelocations(puts, bytes, layout)
    ensures Relocations(Written(bytes, puts), layout, base) == Relocations(bytes, layout, base)
  {
    hide Tables, JumpTable, ReadTables, Written, ClearOfTables, ClearOfDynamic, Roomy;
    TablesClear(bytes, puts, layout, base);
    TablesMove(bytes, layout, base);
    TablesAreInside(bytes, layout, base);
    if Tables(bytes, layout, base).Some? {
      ReadTablesClear(bytes, puts, Tables(bytes, layout, base).value);
    }
  }

  /** Writes clear of the jump table leave its decoded entries as they were, at every base. */
  lemma JumpsClear(bytes: seq<u8>, puts: seq<Put>, layout: Layout, base: nat)
    requires ClearOfJumps(puts, bytes, layout)
    ensures JumpTable(Written(bytes, puts), layout, base) == JumpTable(bytes, layout, base)
    ensures JumpEntries(Written(bytes, puts), layout, base) == JumpEntries(bytes, layout, base)
  {
    hide Tables, JumpTable, Written, ClearOfDynamic, Roomy;
    TablesClear(bytes, puts, layout, base);
    TablesMove(bytes, layout, base);
    if JumpTable(bytes, layout, base).Some? {
      var (o, n) := JumpTable(bytes, layout, base).value;
      RelaEntriesClear(bytes, puts, o, n);
    }
  }
}
