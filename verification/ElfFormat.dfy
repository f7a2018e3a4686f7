/**
 What the decoded tables are, in terms of the bytes and numbers of the file format: chapter 5 of the System V
 gABI for the dynamic, symbol, hash and string tables, section 4.4.1 of the x86-64 psABI for relocations.
 */
module ElfFormat {
  import opened Bits
  import opened Options
  import opened LittleEndian
  import opened ProgramHeader
  import opened ElfAddress
  import opened ElfTables
  import opened ElfNames

  // ---------- words and entries ----------

  /** A 64-bit field reads back as the number it was written from. */
  lemma FieldIs(bytes: seq<u8>, o: nat, x: u64)
    requires o + 8 <= |bytes| && bytes[o..o + 8] == ToBytes(x, 8)
    ensures Read64(bytes, o) == x
  {
    Powers();
    NumberRoundTrip(x, 8);
  }

  /** A relocation entry holds its offset, its info word and its addend, in this order. */
  lemma RelaIs(bytes: seq<u8>, o: nat, offset: u64, info: u64, addend: u64)
    requires o + 24 <= |bytes| && bytes[o..o + 8] == ToBytes(offset, 8)
    requires bytes[o + 8..o + 16] == ToBytes(info, 8) && bytes[o + 16..o + 24] == ToBytes(addend, 8)
    ensures RelaAt(bytes, o) == Rela(offset, info, addend)
  {
    FieldIs(bytes, o, offset);
    FieldIs(bytes, o + 8, info);
    FieldIs(bytes, o + 16, addend);
  }

  /** The info word has the type in its low half and the symbol in its high half. */
  lemma InfoIs(r: Rela)
    ensures r.info == r.SymbolIndex() * 0x1_0000_0000 + r.Type() && r.Type() < 0x1_0000_0000
  {
  }

  /** A dynamic entry is a tag and a value. */
  lemma {:induction false} DynIs(bytes: seq<u8>, o: nat, n: nat, k: nat, tag: u64, value: u64)
    requires k < n && o + 16 * n <= |bytes|
    requires bytes[o + 16 * k..o + 16 * k + 8] == ToBytes(tag, 8)
    requires bytes[o + 16 * k + 8..o + 16 * k + 16] == ToBytes(value, 8)
    ensures |DynEntries(bytes, o, n)| == n && DynEntries(bytes, o, n)[k] == Dyn(tag, value)
    decreases n
  {
    hide Read64, ToBytes;
    DynCount(bytes, o, n - 1);
    if k == n - 1 {
      FieldIs(bytes, o + 16 * k, tag);
      FieldIs(bytes, o + 16 * k + 8, value);
    } else {
      DynIs(bytes, o, n - 1, k, tag, value);
    }
  }

  lemma {:induction false} DynCount(bytes: seq<u8>, o: nat, n: nat)
    requires o + 16 * n <= |bytes|
    ensures |DynEntries(bytes, o, n)| == n
  {
    if n == 0 {
    } else {
      DynCount(bytes, o, n - 1);
    }
  }

  /** The entries that hold an address: the global offset table, hash, string, symbol and relocation tables, the
      two functions run at either end and the jump table. */
  lemma AddressTags(d: Dyn)
    ensures d.HoldsAddress() <==> d.tag in {3, 4, 5, 6, 7, 12, 13, 17, 23}
  {
  }

  // ---------- finding the dynamic table and its entries ----------

  /** The dynamic table is that of the first segment of type 2, if it is aligned and inside the file. */
  lemma {:induction false} DynamicIs(bytes: seq<u8>, layout: Layout, base: nat, i: nat)
    requires i < |layout.segments| && layout.segments[i].kind == 2
    requires forall j: nat | j < i :: layout.segments[j].kind != 2
    ensures var s := layout.segments[i];
            DynamicTable(bytes, layout, base) ==
            if s.offset + s.fileSize <= |bytes| && s.offset % 8 == 0 &&
               forall j: nat | j <= i :: layout.segments[j].vaddr + base < WORD_SIZE
            then Some(DynEntries(bytes, s.offset, s.fileSize / 16)) else None
  {
    DynamicSegmentIs(layout.segments, base, i);
  }

  lemma {:induction false} DynamicSegmentIs(segments: seq<Segment>, base: nat, i: nat)
    requires i < |segments| && segments[i].kind == 2 && forall j: nat | j < i :: segments[j].kind != 2
    ensures DynamicSegment(segments, base) ==
            if forall j: nat | j <= i :: segments[j].vaddr + base < WORD_SIZE then Some(segments[i]) else None
    decreases i
  {
    if i == 0 {
    } else {
      var rest := segments[1..];
      assert forall j: nat | j < |rest| :: rest[j] == segments[j + 1];
      DynamicSegmentIs(rest, base, i - 1);
      assert (forall j: nat | j <= i :: segments[j].vaddr + base < WORD_SIZE) <==>
             segments[0].vaddr + base < WORD_SIZE &&
             forall j: nat | j <= i - 1 :: rest[j].vaddr + base < WORD_SIZE;
    }
  }

  /** Entry k answers for a tag: it has it, and if it gives the kind of the jump table, a known one. */
  predicate Fitting(d: Dyn, tag: nat) {
    d.tag == tag && (tag == 20 ==> d.value == 7 || d.value == 17)
  }

  /** Finding gives the first fitting entry, unless an address before or in it overflows. */
  lemma {:induction false} FindIs(table: seq<Dyn>, base: nat, tag: nat, k: nat)
    requires k < |table| && Fitting(table[k], tag) && forall j: nat | j < k :: !Fitting(table[j], tag)
    ensures Find(table, base, tag) ==
            if forall j: nat | j <= k :: table[j].HoldsAddress() ==> table[j].value + base < WORD_SIZE
            then Some(table[k].value) else None
    decreases k
  {
    hide Dyn.HoldsAddress;
    if k == 0 {
    } else {
      var rest := table[1..];
      assert forall j: nat | j < |rest| :: rest[j] == table[j + 1];
      FindIs(rest, base, tag, k - 1);
      assert (forall j: nat | j <= k :: table[j].HoldsAddress() ==> table[j].value + base < WORD_SIZE) <==>
             (table[0].HoldsAddress() ==> table[0].value + base < WORD_SIZE) &&
             forall j: nat | j <= k - 1 :: rest[j].HoldsAddress() ==> rest[j].value + base < WORD_SIZE;
    }
  }

  lemma {:induction false} FindMisses(table: seq<Dyn>, base: nat, tag: nat)
    requires forall j: nat | j < |table| :: !Fitting(table[j], tag)
    ensures Find(table, base, tag) == None
  {
    if table == [] {
    } else {
      FindMisses(table[1..], base, tag);
    }
  }

  /** The values of a tag, one entry at a time and in order. */
  lemma {:induction false} ValuesAre(before: seq<Dyn>, after: seq<Dyn>, d: Dyn, tag: nat)
    ensures Values([], tag) == []
    ensures Values([d], tag) == if d.tag == tag then [d.value] else []
    ensures Values(before + after, tag) == Values(before, tag) + Values(after, tag)
    decreases |after|
  {
    assert [d][..0] == [];
    if after == [] {
      assert before + after == before;
    } else {
      var k := |after| - 1;
      ValuesAre(before, after[..k], d, tag);
      assert (before + after)[..|before| + k] == before + after[..k];
    }
  }

  // ---------- the relocation tables ----------

  /** Tag 7 gives the tables, tag 8 their sizes in bytes; no entries come from the tables of tags 17 and 18. */
  lemma TablesAre(bytes: seq<u8>, layout: Layout, base: nat, table: seq<Dyn>, i: nat)
    requires DynamicTable(bytes, layout, base) == Some(table) && Tables(bytes, layout, base).Some?
    ensures var tables, addrs, sizes := Tables(bytes, layout, base).value, Values(table, 7), Values(table, 8);
            && |tables| == (if |addrs| < |sizes| then |addrs| else |sizes|)
            && (i < |tables| ==>
                  DataAt(|bytes|, layout, base, addrs[i]) == Some(tables[i].0) && tables[i].1 == sizes[i] / 24)
    ensures i < |Values(table, 17)| && i < |Values(table, 18)| ==>
              DataAt(|bytes|, layout, base, Values(table, 17)[i]).Some? && Values(table, 18)[i] < 16
    ensures i < |table| && table[i].HoldsAddress() ==> table[i].value + base < WORD_SIZE
  {
    hide Values, DataAt, DynamicTable, NoRelEntries, RelaTables, Dyn.HoldsAddress;
    RelaTableIs(|bytes|, layout, base, Values(table, 7), Values(table, 8), i);
    NoRelIs(|bytes|, layout, base, Values(table, 17), Values(table, 18), i);
    assert i < |table| ==> table[i].FitsAt(base);
  }

  lemma {:induction false} RelaTableIs(len: nat, layout: Layout, base: nat, addrs: seq<u64>, sizes: seq<u64>, i: nat)
    requires RelaTables(len, layout, base, addrs, sizes).Some?
    ensures var tables := RelaTables(len, layout, base, addrs, sizes).value;
            && |tables| == (if |addrs| < |sizes| then |addrs| else |sizes|)
            && (i < |tables| ==>
                  DataAt(len, layout, base, addrs[i]) == Some(tables[i].0) && tables[i].1 == sizes[i] / 24)
    decreases |addrs|
  {
    hide DataAt;
    if addrs == [] || sizes == [] {
    } else {
      RelaTableIs(len, layout, base, addrs[1..], sizes[1..], if i == 0 then 0 else i - 1);
    }
  }

  lemma {:induction false} NoRelIs(len: nat, layout: Layout, base: nat, addrs: seq<u64>, sizes: seq<u64>, i: nat)
    requires NoRelEntries(len, layout, base, addrs, sizes)
    ensures i < |addrs| && i < |sizes| ==> DataAt(len, layout, base, addrs[i]).Some? && sizes[i] < 16
    decreases |addrs|
  {
    hide DataAt;
    if addrs == [] || sizes == [] || i == 0 {
    } else {
      NoRelIs(len, layout, base, addrs[1..], sizes[1..], i - 1);
    }
  }

  /** The relocations are the entries of the tables, one table after the other. */
  lemma {:induction false} EntriesOf(bytes: seq<u8>, before: seq<(nat, nat)>, after: seq<(nat, nat)>, t: (nat, nat))
    requires TablesInside(before, |bytes|) && TablesInside(after, |bytes|) && t.0 + 24 * t.1 <= |bytes|
    ensures TablesInside(before + after, |bytes|) && TablesInside([t], |bytes|)
    ensures ReadTables(bytes, before + after) == ReadTables(bytes, before) + ReadTables(bytes, after)
    ensures ReadTables(bytes, [t]) == RelaEntries(bytes, t.0, t.1)
    decreases |before|
  {
    hide RelaEntries;
    if before == [] {
      assert before + after == after;
    } else {
      var rest := before[1..];
      assert forall i: nat | i < |rest| :: rest[i] == before[i + 1];
      EntriesOf(bytes, rest, after, t);
      assert (before + after)[1..] == rest + after;
    }
  }

  // ---------- the jump table ----------

  /** Tag 23 gives the jump table, tag 2 its size in bytes and tag 20 its kind: 7 with addends, 17 without. */
  lemma JumpTableIs(bytes: seq<u8>, layout: Layout, base: nat, table: seq<Dyn>)
    requires DynamicTable(bytes, layout, base) == Some(table)
    ensures JumpTable(bytes, layout, base).Some? ==>
              && Find(table, base, 23).Some? && Find(table, base, 2).Some? && Find(table, base, 20).Some?
              && var size, (o, n) := Find(table, base, 2).value, JumpTable(bytes, layout, base).value;
              && DataAt(|bytes|, layout, base, Find(table, base, 23).value) == Some(o)
              && if Find(table, base, 20).value == 7 then n == size / 24 && o + 24 * n <= |bytes|
                 else Find(table, base, 20).value == 17 && n == 0 && size < 16
    ensures JumpTable(bytes, layout, base).None? ==>
              || Find(table, base, 23).None? || Find(table, base, 2).None? || Find(table, base, 20).None?
              || DataAt(|bytes|, layout, base, Find(table, base, 23).value).None?
              || (Find(table, base, 20).value == 7 &&
                  DataAt(|bytes|, layout, base, Find(table, base, 23).value).value +
                  24 * (Find(table, base, 2).value / 24) > |bytes|)
              || (Find(table, base, 20).value == 17 && Find(table, base, 2).value >= 16)
  {
    hide DataAt, DynamicTable;
    KindIs(table, base);
  }

  lemma {:induction false} KindIs(table: seq<Dyn>, base: nat)
    ensures Find(table, base, 20).Some? ==> Find(table, base, 20).value in {7, 17}
  {
    if table == [] {
    } else {
      KindIs(table[1..], base);
    }
  }

  // ---------- names ----------

  /** Tag 6 gives the symbols, tag 4 the hash table, tag 5 the strings and tag 10 their length. */
  lemma NamePlacesAre(bytes: seq<u8>, layout: Layout, base: nat, table: seq<Dyn>)
    requires DynamicTable(bytes, layout, base) == Some(table)
    ensures NamePlaces(bytes, layout, base).Some? ==>
              var p := NamePlaces(bytes, layout, base).value;
              && Find(table, base, 6).Some? && Find(table, base, 4).Some? && Find(table, base, 5).Some?
              && DataAt(|bytes|, layout, base, Find(table, base, 6).value) == Some(p.symbols)
              && DataAt(|bytes|, layout, base, Find(table, base, 4).value) == Some(p.hash)
              && DataAt(|bytes|, layout, base, Find(table, base, 5).value) == Some(p.strings)
              && Find(table, base, 10) == Some(p.size)
    ensures NamePlaces(bytes, layout, base).None? ==>
              || Find(table, base, 6).None? || Find(table, base, 4).None? || Find(table, base, 5).None?
              || Find(table, base, 10).None?
              || DataAt(|bytes|, layout, base, Find(table, base, 6).value).None?
              || DataAt(|bytes|, layout, base, Find(table, base, 4).value).None?
              || DataAt(|bytes|, layout, base, Find(table, base, 5).value).None?
  {
    hide DataAt, DynamicTable, Find;
  }

  /** The number at o: four bytes, the first with the least weight. */
  function Number32(bytes: seq<u8>, o: nat): nat
    requires o + 4 <= |bytes|
  {
    Weighted(bytes[o], bytes[o + 1], bytes[o + 2], bytes[o + 3])
  }

  function Weighted(a: nat, b: nat, c: nat, d: nat): nat {
    a + 0x100 * b + 0x1_0000 * c + 0x100_0000 * d
  }

  lemma Read32Is(bytes: seq<u8>, o: nat)
    requires o + 4 <= |bytes|
    ensures Read32(bytes, o) == Number32(bytes, o)
  {
    var s := bytes[o..o + 4];
    assert FromBytes(s) == s[0] as nat + 256 * FromBytes(s[1..]);
    assert FromBytes(s[1..]) == s[1] as nat + 256 * FromBytes(s[1..][1..]);
    assert s[1..][1..] == s[2..] && s[2..][1..] == s[3..] && s[3..][1..] == [];
    assert FromBytes(s[2..]) == s[2] as nat + 256 * FromBytes(s[3..]);
  }

  /** The number of symbols is the second word of the hash table, and all three tables lie in the file. */
  lemma NameTablesAre(bytes: seq<u8>, layout: Layout, base: nat)
    ensures var p, names := NamePlaces(bytes, layout, base), NameTables(bytes, layout, base);
            && (names.Some? ==> p == Some(names.value.places) && p.value.hash + 8 <= |bytes| &&
                                names.value.count == Number32(bytes, p.value.hash + 4))
            && (names.Some? <==>
                  p.Some? && p.value.hash + 8 <= |bytes| && p.value.strings + p.value.size <= |bytes| &&
                  p.value.symbols + 24 * Number32(bytes, p.value.hash + 4) <= |bytes|)
  {
    hide NamePlaces, Read32;
    if NamePlaces(bytes, layout, base).Some? && NamePlaces(bytes, layout, base).value.hash + 8 <= |bytes| {
      Read32Is(bytes, NamePlaces(bytes, layout, base).value.hash + 4);
    }
  }

  /** A string is exactly the bytes before the first zero. */
  lemma {:induction false} CStringIs(bytes: seq<u8>, from: nat, end: nat, s: seq<u8>)
    requires end <= |bytes|
    ensures CString(bytes, from, end) == Some(s) <==>
            from + |s| < end && bytes[from..from + |s|] == s && bytes[from + |s|] == 0 && 0 !in s
    decreases end - from
  {
    if from >= end {
    } else if bytes[from] == 0 {
      if from + |s| < end && bytes[from..from + |s|] == s && s != [] {
        assert s[0] == bytes[from];
      }
    } else {
      if s == [] {
        assert from + |s| < end ==> bytes[from + |s|] != 0;
      } else {
        CStringIs(bytes, from + 1, end, s[1..]);
        assert s == [s[0]] + s[1..];
        if from + |s| < end {
          assert bytes[from..from + |s|] == [bytes[from]] + bytes[from + 1..from + |s|];
        }
      }
      if CString(bytes, from + 1, end).Some? {
        assert ([bytes[from]] + CString(bytes, from + 1, end).value)[1..] == CString(bytes, from + 1, end).value;
      }
    }
  }

  /** The name of a symbol: the string its first word points at, which must be inside the strings and not zero. */
  lemma NameIs(bytes: seq<u8>, names: Names, index: nat, name: seq<u8>)
    requires names.Inside(|bytes|)
    ensures NameAt(bytes, names, index) == Some(name) <==>
            && index < names.count
            && var at := Number32(bytes, names.places.symbols + 24 * index);
            && 0 < at && at + |name| < names.places.size
            && bytes[names.places.strings + at..names.places.strings + at + |name|] == name
            && bytes[names.places.strings + at + |name|] == 0 && 0 !in name
  {
    hide Read32, CString;
    if index < names.count {
      var p := names.places;
      Read32Is(bytes, p.symbols + 24 * index);
      CStringIs(bytes, p.strings + Read32(bytes, p.symbols + 24 * index), p.strings + p.size, name);
    }
  }
}
