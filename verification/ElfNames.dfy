/** The symbol, hash and string tables, through which linking finds the name of an entry. */
module ElfNames {
  import opened Bits
  import opened Options
  import opened LittleEndian
  import opened ElfAddress
  import opened ElfWrites
  import opened ElfTables

  function Read32(bytes: seq<u8>, o: nat): nat
    requires o + 4 <= |bytes|
  {
    FromBytes(bytes[o..o + 4])
  }

  /** File offsets of the three tables, and the length of the strings, as the dynamic table gives them. */
  datatype Places = Places(hash: nat, symbols: nat, strings: nat, size: nat)

  function NamePlaces(bytes: seq<u8>, layout: Layout, base: nat): Option<Places> {
    match DynamicTable(bytes, layout, base)
    case None => None
    case Some(table) =>
      match (Find(table, base, SYMBOLS), Find(table, base, HASH), Find(table, base, STRINGS),
             Find(table, base, STRINGS_SIZE))
      case (Some(symbols), Some(hash), Some(strings), Some(size)) =>
        (match (DataAt(|bytes|, layout, base, hash), DataAt(|bytes|, layout, base, symbols),
                DataAt(|bytes|, layout, base, strings))
         case (Some(h), Some(s), Some(t)) => Some(Places(h, s, t, size))
         case _ => None)
      case _ => None
  }

  /** The tables with the number of symbols, which is the second word of the hash table. */
  datatype Names = Names(places: Places, count: nat) {
    predicate Inside(len: nat) {
      places.hash + 8 <= len && places.symbols + 24 * count <= len && places.strings + places.size <= len
    }
  }

  function NameTables(bytes: seq<u8>, layout: Layout, base: nat): (r: Option<Names>)
    ensures r.Some? ==> r.value.Inside(|bytes|)
  {
    match NamePlaces(bytes, layout, base)
    case None => None
    case Some(p) =>
      if p.hash + 8 > |bytes| then None
      else
        var names := Names(p, Read32(bytes, p.hash + 4));
        if names.Inside(|bytes|) then Some(names) else None
  }

  /** The bytes up to the first zero before `end`. */
  function CString(bytes: seq<u8>, from: nat, end: nat): Option<seq<u8>>
    requires end <= |bytes|
    decreases end - from
  {
    if from >= end then None
    else if bytes[from] == 0 then Some([])
    else
      match CString(bytes, from + 1, end)
      case None => None
      case Some(rest) => Some([bytes[from]] + rest)
  }

  /** The name of a symbol; `None` is the panic on an index, a nameless symbol or a name outside the strings. */
  function NameAt(bytes: seq<u8>, names: Names, index: nat): Option<seq<u8>>
    requires names.Inside(|bytes|)
  {
    if index >= names.count then None
    else
      var name := Read32(bytes, names.places.symbols + 24 * index);
      if name == 0 || name >= names.places.size then None
      else CString(bytes, names.places.strings + name, names.places.strings + names.places.size)
  }

  // ---------- the base does not matter ----------

  lemma AddressMoves(bytes: seq<u8>, layout: Layout, base: nat, addr: Option<u64>)
    ensures addr.Some? ==>
              Agrees(DataAt(|bytes|, layout, base, addr.value), DataAt(|bytes|, layout, 0, addr.value),
                     layout.FitsAt(base))
  {
    if addr.Some? { OffsetIndependent(|bytes|, layout, base, addr.value); }
  }

  lemma PlacesMove(bytes: seq<u8>, layout: Layout, base: nat)
    ensures Agrees(NamePlaces(bytes, layout, base), NamePlaces(bytes, layout, 0), Roomy(bytes, layout, base))
  {
    hide DynamicTable, Find, DataAt;
    DynamicTableMoves(bytes, layout, base);
    if DynamicTable(bytes, layout, base).Some? {
      var table := DynamicTable(bytes, layout, base).value;
      assert table[0..] == table;
      FindMoves(table, 0, base, SYMBOLS);
      FindMoves(table, 0, base, HASH);
      FindMoves(table, 0, base, STRINGS);
      FindMoves(table, 0, base, STRINGS_SIZE);
      AddressMoves(bytes, layout, base, Find(table, 0, SYMBOLS));
      AddressMoves(bytes, layout, base, Find(table, 0, HASH));
      AddressMoves(bytes, layout, base, Find(table, 0, STRINGS));
    }
  }

  lemma NamesMove(bytes: seq<u8>, layout: Layout, base: nat)
    ensures Agrees(NameTables(bytes, layout, base), NameTables(bytes, layout, 0), Roomy(bytes, layout, base))
  {
    hide NamePlaces, Read32, Roomy;
    PlacesMove(bytes, layout, base);
  }

  /** The entry with the tag is found at the base, and so is the address it holds. */
  predicate AddressFits(table: seq<Dyn>, layout: Layout, base: nat, tag: nat) {
    && FindFits(table, base, tag)
    && (Find(table, 0, tag).Some? ==> SearchFits(layout.segments, base, Find(table, 0, tag).value))
  }

  /** Everything looked at to find the three tables fits at the base. */
  predicate NamesFit(bytes: seq<u8>, layout: Layout, base: nat) {
    DynamicFits(layout.segments, base) &&
    match DynamicTable(bytes, layout, 0)
    case None => true
    case Some(table) =>
      && AddressFits(table, layout, base, SYMBOLS) && AddressFits(table, layout, base, HASH)
      && AddressFits(table, layout, base, STRINGS) && FindFits(table, base, STRINGS_SIZE)
  }

  lemma AddressExactly(bytes: seq<u8>, table: seq<Dyn>, layout: Layout, base: nat, tag: nat)
    requires Find(table, 0, tag).Some? && DataAt(|bytes|, layout, 0, Find(table, 0, tag).value).Some?
    ensures AddressFits(table, layout, base, tag) <==>
            Find(table, base, tag).Some? && DataAt(|bytes|, layout, base, Find(table, 0, tag).value).Some?
    ensures Find(table, base, tag).Some? ==> Find(table, base, tag) == Find(table, 0, tag)
  {
    hide DataAt, SearchFits;
    FindExactly(table, base, tag);
    LookupExactly(|bytes|, layout, base, Find(table, 0, tag).value);
  }

  /** The tables found at base zero are found at another base exactly when nothing looked at overflows there. */
  lemma NamesExactly(bytes: seq<u8>, layout: Layout, base: nat)
    requires NameTables(bytes, layout, 0).Some?
    ensures NameTables(bytes, layout, base).Some? <==> NamesFit(bytes, layout, base)
  {
    hide Find, FindFits, SearchFits, DataAt, DynEntries, Read32, AddressFits, Roomy;
    DynamicExactly(layout.segments, base);
    var table := DynamicTable(bytes, layout, 0).value;
    AddressExactly(bytes, table, layout, base, SYMBOLS);
    AddressExactly(bytes, table, layout, base, HASH);
    AddressExactly(bytes, table, layout, base, STRINGS);
    FindExactly(table, base, STRINGS_SIZE);
    NamesMove(bytes, layout, base);
    if NamesFit(bytes, layout, base) {
      AddressMoves(bytes, layout, base, Find(table, 0, SYMBOLS));
      AddressMoves(bytes, layout, base, Find(table, 0, HASH));
      AddressMoves(bytes, layout, base, Find(table, 0, STRINGS));
    }
  }

  // ---------- writes clear of the tables do not change the names ----------

  /** The writes stay clear of the symbols and of the strings. */
  predicate ClearOfNames(puts: seq<Put>, names: Names) {
    Clear(puts, names.places.symbols, 24 * names.count) && Clear(puts, names.places.strings, names.places.size)
  }

  lemma {:induction false} SameString(bytes: seq<u8>, after: seq<u8>, from: nat, end: nat)
    requires end <= |bytes| == |after| && forall a: nat | from <= a < end :: after[a] == bytes[a]
    ensures CString(after, from, end) == CString(bytes, from, end)
    decreases end - from
  {
    if from >= end {
    } else {
      SameString(bytes, after, from + 1, end);
    }
  }

  lemma NameClear(bytes: seq<u8>, puts: seq<Put>, names: Names, index: nat)
    requires AllInside(puts, |bytes|) && names.Inside(|bytes|) && ClearOfNames(puts, names)
    ensures NameAt(Written(bytes, puts), names, index) == NameAt(bytes, names, index)
  {
    hide Written, CString;
    var after, p := Written(bytes, puts), names.places;
    if index < names.count {
      assert Clear(puts, p.symbols + 24 * index, 4);
      SliceClear(bytes, puts, p.symbols + 24 * index, 4);
      var name := Read32(bytes, p.symbols + 24 * index);
      if name < p.size {
        SliceClear(bytes, puts, p.strings, p.size);
        forall a: nat | p.strings + name <= a < p.strings + p.size
          ensures after[a] == bytes[a]
        {
          assert after[a] == after[p.strings..p.strings + p.size][a - p.strings];
          assert bytes[a] == bytes[p.strings..p.strings + p.size][a - p.strings];
        }
        SameString(bytes, after, p.strings + name, p.strings + p.size);
      }
    }
  }

  /** The writes stay clear of everything linking reads. */
  predicate ClearOfLink(puts: seq<Put>, bytes: seq<u8>, layout: Layout) {
    && ClearOfJumps(puts, bytes, layout)
    && (NamePlaces(bytes, layout, 0).Some? ==> Clear(puts, NamePlaces(bytes, layout, 0).value.hash + 4, 4))
    && (NameTables(bytes, layout, 0).Some? ==> ClearOfNames(puts, NameTables(bytes, layout, 0).value))
  }

  lemma PlacesClear(bytes: seq<u8>, puts: seq<Put>, layout: Layout, base: nat)
    requires AllInside(puts, |bytes|) && ClearOfDynamic(puts, layout)
    ensures NamePlaces(Written(bytes, puts), layout, base) == NamePlaces(bytes, layout, base)
  {
    hide DynamicTable, Find, Written, DataAt, ClearOfDynamic;
    DynamicClear(bytes, puts, layout, base);
  }

  lemma NamesClear(bytes: seq<u8>, puts: seq<Put>, layout: Layout, base: nat)
    requires ClearOfLink(puts, bytes, layout)
    ensures NameTables(Written(bytes, puts), layout, base) == NameTables(bytes, layout, base)
  {
    hide NamePlaces, Written, JumpTable, ClearOfDynamic, Roomy;
    PlacesClear(bytes, puts, layout, base);
    PlacesMove(bytes, layout, base);
    if NamePlaces(bytes, layout, base).Some? {
      var h := NamePlaces(bytes, layout, base).value.hash;
      if h + 8 <= |bytes| {
        SliceClear(bytes, puts, h + 4, 4);
      }
    }
  }

  lemma FewerClear(fewer: seq<Put>, puts: seq<Put>, bytes: seq<u8>, layout: Layout)
    requires fewer <= puts && ClearOfLink(puts, bytes, layout)
    ensures ClearOfLink(fewer, bytes, layout)
  {
    hide JumpTable, NamePlaces, NameTables, DynamicSegment;
    assert forall i: nat | i < |fewer| :: fewer[i] == puts[i];
  }

  /** Writes clear of what linking reads are still clear of it after other clear writes. */
  lemma StillClear(bytes: seq<u8>, first: seq<Put>, puts: seq<Put>, layout: Layout)
    requires ClearOfLink(first, bytes, layout) && ClearOfLink(puts, bytes, layout)
    ensures ClearOfLink(puts, Written(bytes, first), layout)
  {
    hide JumpTable, NamePlaces, NameTables, Written, ClearOfDynamic, ClearOfNames;
    JumpsClear(bytes, first, layout, 0);
    PlacesClear(bytes, first, layout, 0);
    NamesClear(bytes, first, layout, 0);
  }
}
