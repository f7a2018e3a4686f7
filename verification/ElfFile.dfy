/** Relocating an ELF file in place and binding its call slots, in either order. */
module ElfFile {
  import opened Bits
  import opened Options
  import opened LittleEndian
  import opened ProgramHeader
  import opened ElfAddress
  import opened ElfWrites
  import opened ElfPlan
  import opened ElfTables
  import opened ElfNames
  import opened ElfRelocate
  import opened ElfLink

  /**
   Both would succeed on their own, to slots disjoint from each other. The relocated slots are clear of
   what linking reads, the linked ones of what either reads.
   */
  predicate Independent(bytes: seq<u8>, layout: Layout, base: nat, newBase: u64, symbols: Symbols) {
    && RelocatePlan(bytes, layout, base, newBase).Going? && LinkPlan(bytes, layout, base, symbols).Going?
    && ClearOfLink(RelocatePlan(bytes, layout, base, newBase).puts, bytes, layout)
    && ClearOfLink(LinkPlan(bytes, layout, base, symbols).puts, bytes, layout)
    && ClearOfRelocations(LinkPlan(bytes, layout, base, symbols).puts, bytes, layout)
    && Disjoint(RelocatePlan(bytes, layout, base, newBase).puts, LinkPlan(bytes, layout, base, symbols).puts)
  }

  /** The bytes after both. */
  function RelocatedAndLinked(bytes: seq<u8>, layout: Layout, base: nat, newBase: u64, symbols: Symbols): seq<u8> {
    var relocated := Written(bytes, RelocatePlan(bytes, layout, base, newBase).puts);
    Written(relocated, LinkPlan(bytes, layout, base, symbols).puts)
  }

  /**
   Linking after relocation and relocating after a link do what they would have done first, and leave the
   same bytes. Linking second succeeds exactly when nothing it looks at overflows at the new base.
   */
  lemma RelocateLinkCommute(bytes: seq<u8>, layout: Layout, base: nat, newBase: u64, symbols: Symbols)
    requires Independent(bytes, layout, base, newBase, symbols)
    ensures var rs, ls := RelocatePlan(bytes, layout, base, newBase).puts, LinkPlan(bytes, layout, base, symbols).puts;
            var second := LinkPlan(Written(bytes, rs), layout, newBase, symbols);
            && (second == Going(ls) || (second.Broken? && second.puts <= ls))
            && (second.Going? <==> RoomToLink(bytes, layout, newBase))
            && ClearOfLink(ls, Written(bytes, rs), layout)
            && RelocatePlan(Written(bytes, ls), layout, base, newBase) == Going(rs)
            && Written(Written(bytes, ls), rs) == RelocatedAndLinked(bytes, layout, base, newBase, symbols)
  {
    hide Written, LinkPlan, RelocatePlan, Disjoint, Roomy, ClearOfLink, ClearOfRelocations, RoomToLink;
    var rs, ls := RelocatePlan(bytes, layout, base, newBase).puts, LinkPlan(bytes, layout, base, symbols).puts;
    LinkMoves(bytes, layout, base, symbols);
    LinkMoves(bytes, layout, newBase, symbols);
    LinkAfterWrites(bytes, rs, layout, newBase, symbols);
    LinkExactly(bytes, layout, newBase, symbols);
    StillClear(bytes, rs, ls, layout);
    RelocateAfterWrites(bytes, ls, layout, base, newBase);
    DisjointCommute(bytes, rs, ls);
  }

  /** Where every segment and every address of the dynamic table fits, there is room for both. */
  lemma RoomyIsRoom(bytes: seq<u8>, layout: Layout, base: nat, newBase: u64, symbols: Symbols)
    requires Roomy(bytes, layout, base)
    ensures RelocatePlan(bytes, layout, 0, newBase).Going? ==> RoomToRelocate(bytes, layout, base)
    ensures LinkPlan(bytes, layout, 0, symbols).Going? ==> RoomToLink(bytes, layout, base)
  {
    hide Roomy, RelocatePlan, LinkPlan, RoomToRelocate, RoomToLink;
    RelocateMoves(bytes, layout, base, newBase);
    LinkMoves(bytes, layout, base, symbols);
    if RelocatePlan(bytes, layout, 0, newBase).Going? {
      RelocateExactly(bytes, layout, base, newBase);
    }
    if LinkPlan(bytes, layout, 0, symbols).Going? {
      LinkExactly(bytes, layout, base, symbols);
    }
  }

  // ---------- the file itself ----------

  class File {
    var base: u64
    const layout: Layout
    const data: array<u8>

    constructor (layout: Layout, data: array<u8>)
      ensures base == 0 && this.layout == layout && this.data == data
    {
      this.base := 0;
      this.layout := layout;
      this.data := data;
    }

    /** The unaligned 64-bit store through the looked-up pointer. */
    method Store64(o: nat, v: u64)
      requires o + 8 <= data.Length
      modifies data
      ensures data[..] == Write64(old(data[..]), o, v)
    {
      var bytes := ToBytes(v, 8);
      forall k | 0 <= k < 8 {
        data[o + k] := bytes[k];
      }
    }

    /** Rewrites every `Relative` slot for the new base; `false` is a panic, after the slots before it. */
    method Relocate(newBase: u64) returns (ok: bool)
      modifies this`base, data
      ensures ok <==> old(RelocatePlan(data[..], layout, base, newBase)).Going?
      ensures data[..] == Written(old(data[..]), old(RelocatePlan(data[..], layout, base, newBase)).puts)
      ensures base == if ok then newBase else old(base)
    {
      hide Written, Relocations, DataAtMut, Write64, PlanOf;
      ghost var bytes := data[..];
      var relocs := Relocations(data[..], layout, base);
      NothingPlanned(bytes, []);
      if relocs.None? {
        return false;
      }
      ghost var targets := RelocTargets(|bytes|, layout, base, relocs.value, newBase);
      NothingPlanned(bytes, targets);
      PlanInside(targets, |bytes|);
      ghost var puts := [];
      for i := 0 to |relocs.value|
        invariant PlanOf(targets[..i]) == Going(puts)
        invariant AllInside(puts, |bytes|) && data[..] == Written(bytes, puts) && base == old(base)
      {
        var reloc := relocs.value[i];
        PlanStep(targets, i);
        PlanGrows(targets, i + 1);
        var ptr := DataAtMut(data.Length, layout, base, reloc.offset);
        if ptr.None? {
          return false;
        }
        if reloc.Type() == RELATIVE {
          if ptr.value + 8 > data.Length {
            return false;
          }
          var put := Put(ptr.value, (newBase + reloc.addend) % WORD_SIZE);
          WrittenOneMore(bytes, puts, put);
          Store64(put.off, put.value);
          puts := puts + [put];
        } else if reloc.Type() != JUMP_SLOT {
          return false;
        }
      }
      assert targets[..|relocs.value|] == targets;
      base := newBase;
      return true;
    }

    /** Binds the call slots, reading entries and names as it goes; an unresolved name ends it early. */
    method Link(symbols: Symbols) returns (r: LinkResult)
      modifies data
      ensures base == old(base)
      ensures Bound(data[..], r) == old(LinkAll(data[..], layout, base, symbols))
    {
      hide JumpTable, NameTables, DataAt, Write64, RelaAt, NameAt;
      ghost var bytes := data[..];
      var names := NameTables(data[..], layout, base);
      if names.None? {
        return LinkPanicked;
      }
      var table := JumpTable(data[..], layout, base);
      if table.None? {
        return LinkPanicked;
      }
      var (o, n) := table.value;
      for i := 0 to n
        invariant LinkLoop(bytes, layout, base, names.value, o, i, symbols) == Bound(data[..], LinkDone)
      {
        var entry := RelaAt(data[..], o + 24 * i);
        LoopEnds(bytes, layout, base, names.value, o, i + 1, n, symbols);
        var name := NameAt(data[..], names.value, entry.SymbolIndex());
        if name.None? {
          return LinkPanicked;
        }
        if name.value !in symbols {
          return LinkError;
        }
        var ptr := DataAt(data.Length, layout, base, entry.offset);
        if ptr.None? || entry.Type() != JUMP_SLOT || ptr.value + 8 > data.Length {
          return LinkPanicked;
        }
        Store64(ptr.value, symbols[name.value]);
      }
      return LinkDone;
    }
  }

  /** Relocating the same file twice: the bytes and the base are those of the second relocation alone. */
  method RelocateTwice(f: File, a: u64, b: u64) returns (ok: bool)
    requires RelocatePlan(f.data[..], f.layout, f.base, a).Going?
    requires ClearOfRelocations(RelocatePlan(f.data[..], f.layout, f.base, a).puts, f.data[..], f.layout)
    modifies f`base, f.data
    ensures ok <==> old(RoomToRelocate(f.data[..], f.layout, a))
    ensures ok ==> f.base == b && old(RelocatePlan(f.data[..], f.layout, f.base, b)).Going?
    ensures ok ==> f.data[..] == Written(old(f.data[..]), old(RelocatePlan(f.data[..], f.layout, f.base, b)).puts)
  {
    hide Written, RelocatePlan, ClearOfRelocations, RoomToRelocate;
    LastBaseWins(f.data[..], f.layout, f.base, a, b);
    var _ := f.Relocate(a);
    ok := f.Relocate(b);
  }

  method RelocateThenLink(f: File, newBase: u64, symbols: Symbols) returns (ok: bool, r: LinkResult)
    requires Independent(f.data[..], f.layout, f.base, newBase, symbols)
    modifies f`base, f.data
    ensures ok && f.base == newBase
    ensures r == if old(RoomToLink(f.data[..], f.layout, newBase)) then LinkDone else LinkPanicked
    ensures r == LinkDone ==> f.data[..] == old(RelocatedAndLinked(f.data[..], f.layout, f.base, newBase, symbols))
  {
    hide Written, RelocatePlan, LinkPlan, LinkAll, ClearOfLink, ClearOfRelocations, RoomToLink, Disjoint;
    RelocateLinkCommute(f.data[..], f.layout, f.base, newBase, symbols);
    ghost var ls := LinkPlan(f.data[..], f.layout, f.base, symbols).puts;
    ok := f.Relocate(newBase);
    FewerClear(LinkPlan(f.data[..], f.layout, newBase, symbols).puts, ls, f.data[..], f.layout);
    LinkIsPlan(f.data[..], f.layout, newBase, symbols);
    r := f.Link(symbols);
  }

  method LinkThenRelocate(f: File, newBase: u64, symbols: Symbols) returns (r: LinkResult, ok: bool)
    requires Independent(f.data[..], f.layout, f.base, newBase, symbols)
    modifies f`base, f.data
    ensures r == LinkDone && ok && f.base == newBase
    ensures f.data[..] == old(RelocatedAndLinked(f.data[..], f.layout, f.base, newBase, symbols))
  {
    hide Written, RelocatePlan, LinkPlan, LinkAll, ClearOfLink, ClearOfRelocations, Disjoint;
    RelocateLinkCommute(f.data[..], f.layout, f.base, newBase, symbols);
    LinkIsPlan(f.data[..], f.layout, f.base, symbols);
    r := f.Link(symbols);
    ok := f.Relocate(newBase);
  }

  // ---------- a file that cannot be linked after it was moved ----------

  /** Seven dynamic entries, each with a small tag and value, and an empty hash table. */
  function TinyByte(i: nat): u8 {
    match i
    case 0 => JUMP_TABLE case 8 => 16
    case 16 => PLT_SIZE
    case 32 => PLT_TYPE case 40 => RELA
    case 48 => SYMBOLS case 56 => 16
    case 64 => HASH case 72 => 128
    case 80 => STRINGS case 88 => 16
    case 96 => STRINGS_SIZE
    case _ => 0
  }

  function TinyBytes(): seq<u8> {
    seq(120, i requires 0 <= i < 120 => TinyByte(i))
  }

  function TinyLayout(): Layout {
    Layout([Segment(DYNAMIC, false, 0, 16, 112, 120)], [])
  }

  function TinyTable(): seq<Dyn> {
    [Dyn(JUMP_TABLE, 16), Dyn(PLT_SIZE, 0), Dyn(PLT_TYPE, RELA), Dyn(SYMBOLS, 16), Dyn(HASH, 128), Dyn(STRINGS, 16),
     Dyn(STRINGS_SIZE, 0)]
  }

  /** A base at which its first address overflows. */
  const TOO_HIGH: u64 := 0xffff_ffff_ffff_fff0

  lemma SmallWord(bytes: seq<u8>, o: nat)
    requires o + 8 <= |bytes| && forall j: nat | o < j < o + 8 :: bytes[j] == 0
    ensures Read64(bytes, o) == bytes[o]
  {
    NoBytes(bytes[o + 1..o + 8]);
    assert bytes[o..o + 8][1..] == bytes[o + 1..o + 8];
  }

  lemma {:induction false} NoBytes(s: seq<u8>)
    requires forall i: nat | i < |s| :: s[i] == 0
    ensures FromBytes(s) == 0
  {
    if s == [] {
    } else {
      NoBytes(s[1..]);
    }
  }

  lemma {:induction false} TinyEntries(n: nat)
    requires n <= 7
    ensures |TinyBytes()| == 120 && DynEntries(TinyBytes(), 0, n) == TinyTable()[..n]
  {
    hide Read64;
    if n == 0 {
    } else {
      TinyEntries(n - 1);
      SmallWord(TinyBytes(), 16 * (n - 1));
      SmallWord(TinyBytes(), 16 * (n - 1) + 8);
      assert TinyTable()[..n] == TinyTable()[..n - 1] + [TinyTable()[n - 1]];
    }
  }

  lemma {:induction false} FindAt(table: seq<Dyn>, tag: nat, k: nat)
    requires k < |table| && table[k].Answers(tag) && AddressesFit(table, 0)
    requires forall i: nat | i < k :: !table[i].Answers(tag)
    ensures Find(table, 0, tag) == Some(table[k].value)
    decreases k
  {
    if k == 0 {
    } else {
      assert forall i: nat | i < |table| - 1 :: table[1..][i] == table[i + 1];
      FindAt(table[1..], tag, k - 1);
    }
  }

  lemma {:induction false} NoValues(table: seq<Dyn>, tag: nat)
    requires forall i: nat | i < |table| :: table[i].tag != tag
    ensures Values(table, tag) == []
  {
    if table == [] {
    } else {
      NoValues(table[..|table| - 1], tag);
    }
  }

  lemma TinyDynamic()
    ensures DynamicTable(TinyBytes(), TinyLayout(), 0) == Some(TinyTable()) && AddressesFit(TinyTable(), 0)
  {
    hide DynEntries;
    TinyEntries(7);
    assert TinyTable()[..7] == TinyTable();
  }

  lemma TinyRelocations()
    ensures Relocations(TinyBytes(), TinyLayout(), 0) == Some([])
  {
    hide DynamicTable, Values, TinyBytes;
    TinyDynamic();
    NoValues(TinyTable(), REL);
    NoValues(TinyTable(), RELA);
  }

  lemma TinyAddresses()
    ensures DataAt(120, TinyLayout(), 0, 16) == Some(0) && DataAt(120, TinyLayout(), 0, 128) == Some(112)
  {
  }

  lemma TinyJumps()
    ensures JumpEntries(TinyBytes(), TinyLayout(), 0) == Some([])
  {
    hide DynamicTable, Find, DataAt, TinyByte;
    TinyDynamic();
    TinyAddresses();
    FindAt(TinyTable(), JUMP_TABLE, 0);
    FindAt(TinyTable(), PLT_SIZE, 1);
    FindAt(TinyTable(), PLT_TYPE, 2);
  }

  lemma TinyNames()
    ensures NameTables(TinyBytes(), TinyLayout(), 0) == Some(Names(Places(112, 0, 0, 0), 0))
  {
    hide DynamicTable, Find, DataAt, FromBytes;
    TinyDynamic();
    TinyAddresses();
    FindAt(TinyTable(), SYMBOLS, 3);
    FindAt(TinyTable(), HASH, 4);
    FindAt(TinyTable(), STRINGS, 5);
    FindAt(TinyTable(), STRINGS_SIZE, 6);
    NoBytes(TinyBytes()[116..120]);
  }

  /** The file can be relocated to the high base and linked, but not in that order. */
  lemma TinyIsIndependent()
    ensures Independent(TinyBytes(), TinyLayout(), 0, TOO_HIGH, map[])
    ensures !RoomToLink(TinyBytes(), TinyLayout(), TOO_HIGH)
  {
    hide Relocations, JumpEntries, NameTables, JumpTable, NamePlaces, Tables, DynamicTable, TinyBytes;
    TinyRelocations();
    TinyJumps();
    TinyNames();
  }

  /** Of the two orders one panics and the other does not. */
  method OrdersDiffer() returns (relocatedFirst: LinkResult, linkedFirst: LinkResult)
    ensures relocatedFirst == LinkPanicked && linkedFirst == LinkDone
  {
    hide Independent, RoomToLink, RelocatedAndLinked;
    TinyIsIndependent();
    var ok;
    var data := new u8[120](i requires 0 <= i < 120 => TinyByte(i));
    var f := new File(TinyLayout(), data);
    assert f.data[..] == TinyBytes();
    ok, relocatedFirst := RelocateThenLink(f, TOO_HIGH, map[]);
    data := new u8[120](i requires 0 <= i < 120 => TinyByte(i));
    f := new File(TinyLayout(), data);
    assert f.data[..] == TinyBytes();
    linkedFirst, ok := LinkThenRelocate(f, TOO_HIGH, map[]);
  }
}
