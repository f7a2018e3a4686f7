/** Addresses of an ELF file: which file bytes an executable address names. */
module ElfAddress {
  import opened Bits
  import opened Options
  import opened LittleEndian
  import opened ProgramHeader

  datatype Range = Range(start: nat, end: nat)

  predicate Overlap(a: Range, b: Range) {
    !(a.start >= b.end || b.start >= a.end)
  }

  /** The program headers, and the file ranges of the headers themselves, which may not be written. */
  datatype Layout = Layout(segments: seq<Segment>, reserved: seq<Range>) {
    /** No address of any segment overflows when the file is based at `base`. */
    predicate FitsAt(base: nat) {
      forall i: nat | i < |segments| :: segments[i].FitsAt(base)
    }
  }

  /**
   The first segment whose relocated memory range contains the address. `None` is a missing segment or
   an overflow in one of the ranges looked at on the way: both end in a panic.
   */
  function SegmentFor(segments: seq<Segment>, base: nat, addr: nat): Option<Segment> {
    if segments == [] || !segments[0].FitsAt(base) then None
    else if segments[0].Contains(base, addr) then Some(segments[0])
    else SegmentFor(segments[1..], base, addr)
  }

  /** The file offset of an unrelocated address; `None` is an overflow, a failed unwrap or a slice index. */
  function DataAt(len: nat, layout: Layout, base: nat, addr: nat): Option<nat> {
    if addr + base >= WORD_SIZE then None
    else
      match SegmentFor(layout.segments, base, addr + base)
      case None => None
      case Some(s) =>
        SegmentContains(layout.segments, base, addr + base);
        if s.FileEnd() > len then None else Some(s.offset + (addr - s.vaddr))
  }

  /** The same for writing: the segment must not overlap the headers. */
  function DataAtMut(len: nat, layout: Layout, base: nat, addr: nat): Option<nat> {
    if addr + base >= WORD_SIZE then None
    else
      match SegmentFor(layout.segments, base, addr + base)
      case None => None
      case Some(s) =>
        if exists i: nat | i < |layout.reserved| :: Overlap(Range(s.offset, s.FileEnd()), layout.reserved[i]) then None
        else DataAt(len, layout, base, addr)
  }

  lemma {:induction false} SegmentContains(segments: seq<Segment>, base: nat, addr: nat)
    ensures SegmentFor(segments, base, addr).Some? ==>
              var s := SegmentFor(segments, base, addr).value;
              s in segments && s.Contains(base, addr)
  {
    if segments == [] {
    } else {
      SegmentContains(segments[1..], base, addr);
    }
  }

  /** Segment i is the first one whose unrelocated memory range holds the address. */
  predicate FirstHolding(segments: seq<Segment>, i: nat, addr: nat) {
    && i < |segments| && segments[i].vaddr <= addr < segments[i].vaddr + segments[i].memSize
    && forall j: nat | j < i :: !(segments[j].vaddr <= addr < segments[j].vaddr + segments[j].memSize)
  }

  lemma {:induction false} SegmentIs(segments: seq<Segment>, base: nat, addr: nat, i: nat)
    requires FirstHolding(segments, i, addr)
    ensures SegmentFor(segments, base, addr + base) ==
            if forall j: nat | j <= i :: segments[j].vaddr + segments[j].memSize + base < WORD_SIZE
            then Some(segments[i]) else None
    decreases i
  {
    if i == 0 {
    } else {
      var rest := segments[1..];
      assert forall j: nat | j < |rest| :: rest[j] == segments[j + 1];
      SegmentIs(rest, base, addr, i - 1);
      assert (forall j: nat | j <= i :: segments[j].vaddr + segments[j].memSize + base < WORD_SIZE) <==>
             segments[0].vaddr + segments[0].memSize + base < WORD_SIZE &&
             forall j: nat | j <= i - 1 :: rest[j].vaddr + rest[j].memSize + base < WORD_SIZE;
    }
  }

  /**
   Where an address lies in the file: in the first segment holding it, as far from the segment's file offset as
   from its address. The lookup fails exactly when an address overflows on the way, when the segment's bytes are
   not all in the file or, for writing, when they touch a header.
   */
  lemma LookupIs(len: nat, layout: Layout, base: nat, addr: nat, i: nat)
    requires FirstHolding(layout.segments, i, addr)
    ensures var s := layout.segments[i];
            var found := s.offset + s.fileSize <= len &&
              forall j: nat | j <= i :: layout.segments[j].vaddr + layout.segments[j].memSize + base < WORD_SIZE;
            var writable := forall r | r in layout.reserved :: s.offset + s.fileSize <= r.start || r.end <= s.offset;
            && DataAt(len, layout, base, addr) == (if found then Some(s.offset + (addr - s.vaddr)) else None)
            && DataAtMut(len, layout, base, addr) ==
               (if found && writable then Some(s.offset + (addr - s.vaddr)) else None)
  {
    hide SegmentFor;
    SegmentIs(layout.segments, base, addr, i);
    var s := layout.segments[i];
    assert (exists k: nat | k < |layout.reserved| :: Overlap(Range(s.offset, s.FileEnd()), layout.reserved[k])) <==>
           !(forall r | r in layout.reserved :: s.offset + s.fileSize <= r.start || r.end <= s.offset);
  }

  lemma {:induction false} NoSegment(segments: seq<Segment>, base: nat, addr: nat)
    requires forall i: nat | i < |segments| :: !(segments[i].vaddr <= addr < segments[i].vaddr + segments[i].memSize)
    ensures SegmentFor(segments, base, addr + base) == None
  {
    if segments == [] {
    } else {
      NoSegment(segments[1..], base, addr);
    }
  }

  /** An address no segment holds is not in the file. */
  lemma LookupMisses(len: nat, layout: Layout, base: nat, addr: nat)
    requires forall i: nat | i < |layout.segments| ::
               !(layout.segments[i].vaddr <= addr < layout.segments[i].vaddr + layout.segments[i].memSize)
    ensures DataAt(len, layout, base, addr) == None && DataAtMut(len, layout, base, addr) == None
  {
    NoSegment(layout.segments, base, addr);
  }

  // ---------- the base does not matter ----------

  /** The result at a base is the result at base zero, or a panic that only an overflow at that base explains. */
  ghost predicate Agrees<T>(moved: Option<T>, still: Option<T>, fits: bool) {
    moved == still || (moved.None? && !fits)
  }

  lemma {:induction false} SegmentMoves(layout: Layout, i: nat, base: nat, addr: nat)
    requires i <= |layout.segments|
    ensures Agrees(SegmentFor(layout.segments[i..], base, addr + base), SegmentFor(layout.segments[i..], 0, addr),
                   layout.FitsAt(base))
    decreases |layout.segments| - i
  {
    if i == |layout.segments| {
    } else {
      assert layout.segments[i..][1..] == layout.segments[i + 1..];
      SegmentMoves(layout, i + 1, base, addr);
    }
  }

  /** The file offset of an unrelocated address does not depend on the base, unless the base overflows. */
  lemma OffsetIndependent(len: nat, layout: Layout, base: nat, addr: nat)
    ensures Agrees(DataAt(len, layout, base, addr), DataAt(len, layout, 0, addr), layout.FitsAt(base))
    ensures Agrees(DataAtMut(len, layout, base, addr), DataAtMut(len, layout, 0, addr), layout.FitsAt(base))
  {
    assert layout.segments[0..] == layout.segments;
    SegmentMoves(layout, 0, base, addr);
    SegmentContains(layout.segments, 0, addr);
  }

  /** The segments looked at in search of an unrelocated address all fit at the base. */
  predicate SearchFits(segments: seq<Segment>, base: nat, addr: nat) {
    segments == [] ||
    (segments[0].FitsAt(base) && (segments[0].Contains(0, addr) || SearchFits(segments[1..], base, addr)))
  }

  lemma {:induction false} SearchExactly(segments: seq<Segment>, base: nat, addr: nat)
    requires SegmentFor(segments, 0, addr).Some?
    ensures SearchFits(segments, base, addr) <==> SegmentFor(segments, base, addr + base).Some?
    ensures SearchFits(segments, base, addr) ==> SegmentFor(segments, 0, addr).value.FitsAt(base)
  {
    if segments[0].Contains(0, addr) {
    } else {
      SearchExactly(segments[1..], base, addr);
    }
  }

  /** A lookup that works at base zero works at another base exactly when nothing it looks at overflows there. */
  lemma LookupExactly(len: nat, layout: Layout, base: nat, addr: nat)
    requires DataAt(len, layout, 0, addr).Some?
    ensures DataAt(len, layout, base, addr).Some? <==> SearchFits(layout.segments, base, addr)
    ensures DataAtMut(len, layout, 0, addr).Some? ==>
              (DataAtMut(len, layout, base, addr).Some? <==> SearchFits(layout.segments, base, addr))
  {
    SearchExactly(layout.segments, base, addr);
    SegmentContains(layout.segments, 0, addr);
    OffsetIndependent(len, layout, base, addr);
    assert layout.segments[0..] == layout.segments;
    SegmentMoves(layout, 0, base, addr);
  }

  // ---------- 64-bit fields ----------

  function Read64(bytes: seq<u8>, o: nat): u64
    requires o + 8 <= |bytes|
  {
    Word(bytes[o..o + 8])
  }

  function Write64(bytes: seq<u8>, o: nat, v: u64): (r: seq<u8>)
    requires o + 8 <= |bytes|
    ensures |r| == |bytes|
  {
    bytes[..o] + ToBytes(v, 8) + bytes[o + 8..]
  }
}
