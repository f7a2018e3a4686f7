/** Consecutive pages: which step of a range reaches a page, and how many tables the range needs. */
module PageRange {
  import opened Bits
  import opened Options
  import opened PageEntry
  import opened PageTree

  /** The word a leaf entry holds after mapping `frame` with `flags`. */
  function Encoded(frame: u64, flags: u64): u64 {
    SetPointedFrameUnchecked(NEW_ENTRY, frame, flags)
  }

  /** A mapped word bit by bit: every mapping is present and writable, whatever flags were asked for. */
  lemma EncodedBits(frame: u64, flags: u64, i: nat)
    requires IsFlags(flags) && i < 64
    ensures Bit(Encoded(frame, flags), i) <==> if 12 <= i < 52 then Bit(frame, i) else Bit(flags, i) || i < 2
  {
    assert Bit(NEW_ENTRY, 1) && !Bit(NEW_ENTRY, 0);
    if i >= 2 { HighBit(NEW_ENTRY, 2, i); }
  }

  /** The address i pages above `start` is still a 64-bit address. */
  predicate Fits(start: nat, i: nat) {
    start + i * PAGE_SIZE < WORD_SIZE
  }

  /** The step of a range starting at address `start` that reaches page number w. */
  function StepOf(start: nat, w: nat): nat {
    (w - start / PAGE_SIZE) % PAGE_NUMBERS
  }

  lemma StepOfPage(start: nat, i: nat)
    ensures PageNumber(start + i * PAGE_SIZE) == (start / PAGE_SIZE + i) % PAGE_NUMBERS
    ensures forall w: nat | w < PAGE_NUMBERS ::
              PageNumber(start + i * PAGE_SIZE) == w <==> StepOf(start, w) == i % PAGE_NUMBERS
  {
    assert (start + i * PAGE_SIZE) / PAGE_SIZE == start / PAGE_SIZE + i;
  }

  /** Step i reaches the page whose step is i, and the other way round. */
  lemma StepOfOwn(start: nat, i: nat)
    requires i < PAGE_NUMBERS
    ensures PageNumber(start + i * PAGE_SIZE) < PAGE_NUMBERS && StepOf(start, PageNumber(start + i * PAGE_SIZE)) == i
  {
    StepOfPage(start, i);
  }

  lemma PageOfStep(start: nat, w: nat)
    requires w < PAGE_NUMBERS
    ensures StepOf(start, w) < PAGE_NUMBERS && PageNumber(start + StepOf(start, w) * PAGE_SIZE) == w
  {
    StepOfPage(start, StepOf(start, w));
  }

  /** The number of tables of 512^(4-k) pages met by the i pages from page number s on, for each k. */
  function Crossed(s: nat, i: nat): nat {
    if i == 0 then 0
    else
      var e := s + i - 1;
      (e / 512 - s / 512 + 1) + (e / 512 / 512 - s / 512 / 512 + 1) + (e / 512 / 512 / 512 - s / 512 / 512 / 512 + 1)
  }

  function CeilDiv(n: nat, d: nat): nat
    requires d > 0
  {
    (n + d - 1) / d
  }

  /** The bound on new tables when mapping n consecutive pages. */
  function TablesFor(n: nat): nat {
    if n == 0 then 0
    else (CeilDiv(n, 512) + 1) + (CeilDiv(n, 0x4_0000) + 1) + (CeilDiv(n, 0x800_0000) + 1)
  }

  /** With a, b and c the fewest tables of the three levels that could hold n pages: one more of each. */
  lemma TablesForIs(n: nat, a: nat, b: nat, c: nat)
    requires (a - 1) * 512 < n <= a * 512
    requires (b - 1) * 512 * 512 < n <= b * 512 * 512
    requires (c - 1) * 512 * 512 * 512 < n <= c * 512 * 512 * 512
    ensures TablesFor(n) == if n == 0 then 0 else a + b + c + 3
  {
    QuotientUnique(n + 511, 512, a, n + 511 - 512 * a);
    QuotientUnique(n + 0x3_ffff, 0x4_0000, b, n + 0x3_ffff - 0x4_0000 * b);
    QuotientUnique(n + 0x7ff_ffff, 0x800_0000, c, n + 0x7ff_ffff - 0x800_0000 * c);
  }

  /** The span of quotients, on the defining equations of a = s/d, b = ceil(n/d) and c = (s+n-1)/d. */
  lemma SpanCore(d: nat, a: nat, b: nat, c: nat, s: nat, n: nat, x: nat, y: nat, z: nat)
    requires d * a + x == s && d * b + y == n + d - 1 && d * c + z == s + n - 1
    requires x < d && y < d && z < d
    ensures c <= a + b
  {
    Distribute(d, 1, a, b + 1);
    Distribute(d, 1, b, 1);
    if c > a + b {
      MulLe(d, a + b + 1, c);
    }
  }

  lemma QuotientSpan(s: nat, n: nat, d: nat)
    requires d > 0 && n > 0
    ensures (s + n - 1) / d <= s / d + CeilDiv(n, d)
  {
    SpanCore(d, s / d, CeilDiv(n, d), (s + n - 1) / d, s, n, s % d, (n + d - 1) % d, (s + n - 1) % d);
  }

  lemma CrossedBound(s: nat, i: nat, n: nat)
    requires i <= n
    ensures Crossed(s, i) <= TablesFor(n)
  {
    if i > 0 {
      QuotientSpan(s, i, 512);
      NestedSpan(s, i, 512);
      NestedSpan(s, i, 0x4_0000);
      DivDiv(s + i - 1, 512, 512);
      DivDiv(s, 512, 512);
      CeilMonotone(i, n);
    }
  }

  lemma NestedSpan(s: nat, i: nat, d: nat)
    requires i > 0 && d > 0
    ensures d * 512 > 0 && (s + i - 1) / d / 512 <= s / d / 512 + CeilDiv(i, d * 512)
  {
    DivDiv(s + i - 1, d, 512);
    DivDiv(s, d, 512);
    QuotientSpan(s, i, d * 512);
  }

  lemma CeilMonotone(i: nat, n: nat)
    requires i <= n
    ensures CeilDiv(i, 512) <= CeilDiv(n, 512)
    ensures CeilDiv(i, 0x4_0000) <= CeilDiv(n, 0x4_0000)
    ensures CeilDiv(i, 0x800_0000) <= CeilDiv(n, 0x800_0000)
  {
  }

  /** Two pages in the same region of 512^(4-k) pages share the table at depth k. */
  lemma SameRegion(a: nat, b: nat)
    ensures var v, w := a % PAGE_NUMBERS, b % PAGE_NUMBERS;
            && (a / 512 / 512 / 512 == b / 512 / 512 / 512 ==> PathTo(v, 1) == PathTo(w, 1))
            && (a / 512 / 512 == b / 512 / 512 ==> PathTo(v, 2) == PathTo(w, 2))
            && (a / 512 == b / 512 ==> PathTo(v, 3) == PathTo(w, 3))
  {
    var v, w := a % PAGE_NUMBERS, b % PAGE_NUMBERS;
    RegionDigits(a);
    RegionDigits(b);
    PathDigits(v);
    PathDigits(w);
  }

  lemma RegionDigits(a: nat)
    ensures Digit(a % PAGE_NUMBERS, 1) == a / 512 / 512 / 512 % 512
    ensures Digit(a % PAGE_NUMBERS, 2) == a / 512 / 512 % 512
    ensures Digit(a % PAGE_NUMBERS, 3) == a / 512 % 512
  {
    DropDigit(a, 0x800_0000);
    DropDigit(a / 512, 0x4_0000);
    DropDigit(a / 512 / 512, 512);
  }

  /** The page after a mapped one needs a table only where it enters a new region. */
  lemma MissingBound(mem: Memory, root: u64, start: nat, i: nat)
    requires i > 0 ==> LeafEntry(mem, root, PageNumber(start + (i - 1) * PAGE_SIZE)).Some?
    ensures Missing(mem, root, PageNumber(start + i * PAGE_SIZE), 3) <=
            Crossed(start / PAGE_SIZE, i + 1) - Crossed(start / PAGE_SIZE, i)
  {
    hide LeafEntry, TableAt, Missing, PathTo;
    var s := start / PAGE_SIZE;
    var v := PageNumber(start + i * PAGE_SIZE);
    StepOfPage(start, i);
    MissingSum(mem, root, v);
    if i > 0 {
      var w := PageNumber(start + (i - 1) * PAGE_SIZE);
      StepOfPage(start, i - 1);
      SameRegion(s + i, s + i - 1);
      MappedHasTables(mem, root, w);
    }
  }

  lemma MissingSum(mem: Memory, root: u64, v: nat)
    ensures Missing(mem, root, v, 3) ==
            Absent(mem, root, PathTo(v, 1)) + Absent(mem, root, PathTo(v, 2)) + Absent(mem, root, PathTo(v, 3))
  {
    assert Missing(mem, root, v, 1) == Absent(mem, root, PathTo(v, 1));
  }

  lemma MappedHasTables(mem: Memory, root: u64, v: nat)
    requires LeafEntry(mem, root, v).Some?
    ensures Absent(mem, root, PathTo(v, 1)) == Absent(mem, root, PathTo(v, 2)) == Absent(mem, root, PathTo(v, 3)) == 0
  {
    PathDigits(v);
  }

  lemma NoFlags()
    ensures IsFlags(0)
  {
    forall i: nat | 10 <= i < 63 ensures !Bit(0, i) { ZeroBit(i); }
  }

  /** A leaf word written for an aligned frame translates its whole page to that frame. */
  lemma LeafTranslates(mem: Memory, root: u64, va: u64, frame: u64)
    requires LeafEntry(mem, root, PageNumber(va)) == Some(Encoded(frame, 0))
    requires frame % PAGE_SIZE == 0 && frame < 0x10_0000_0000_0000
    ensures Translate(mem, root, va) == Some(frame)
  {
    TranslateIsLeaf(mem, root, va);
    NoFlags();
    SetThenGet(NEW_ENTRY, frame, 0);
    MaskedFrame(frame);
  }

  /** Exactly the first `done` pages of the range became mapped, each to its own frame. */
  ghost predicate RangeMapped(
      before: Memory, mem: Memory, root: u64, pageStart: u64, frameStart: u64, flags: u64, done: nat) {
    && (done > 0 ==> Fits(frameStart, done - 1))
    && (forall w: nat ::
          LeafEntry(mem, root, w) ==
          if w < PAGE_NUMBERS && StepOf(pageStart, w) < done
          then Some(Encoded(frameStart + StepOf(pageStart, w) * PAGE_SIZE, flags)) else LeafEntry(before, root, w))
    && (forall w: nat | w < PAGE_NUMBERS && StepOf(pageStart, w) < done :: LeafEntry(before, root, w) == None)
  }

  lemma RangeStep(
      before: Memory, mem: Memory, mem': Memory, root: u64, pageStart: u64, frameStart: u64, flags: u64, done: nat)
    requires done <= PAGE_NUMBERS && Fits(frameStart, done) && Fits(pageStart, done)
    requires RangeMapped(before, mem, root, pageStart, frameStart, flags, done)
    requires MapsOne(mem, mem', root, PageNumber(pageStart + done * PAGE_SIZE),
                     Encoded(frameStart + done * PAGE_SIZE, flags))
    ensures done < PAGE_NUMBERS
    ensures RangeMapped(before, mem', root, pageStart, frameStart, flags, done + 1)
  {
    hide LeafEntry, Encoded;
    StepOfPage(pageStart, done);
  }

  lemma RangeSame(
      before: Memory, mem: Memory, mem': Memory, root: u64, pageStart: u64, frameStart: u64, flags: u64, done: nat)
    requires RangeMapped(before, mem, root, pageStart, frameStart, flags, done) && SameLeaves(mem, mem', root)
    ensures RangeMapped(before, mem', root, pageStart, frameStart, flags, done)
  {
  }

  /** A page found mapped inside a range was mapped before it, unless the range has gone all the way round. */
  lemma RangeBlocked(before: Memory, mem: Memory, root: u64, pageStart: u64, frameStart: u64, flags: u64, done: nat)
    requires done <= PAGE_NUMBERS && RangeMapped(before, mem, root, pageStart, frameStart, flags, done)
    ensures LeafEntry(mem, root, PageNumber(pageStart + done * PAGE_SIZE)).Some? ==>
              done == PAGE_NUMBERS || LeafEntry(before, root, PageNumber(pageStart + done * PAGE_SIZE)).Some?
  {
    StepOfPage(pageStart, done);
  }

  lemma RangeMissing(before: Memory, mem: Memory, root: u64, pageStart: u64, frameStart: u64, flags: u64, done: nat)
    requires done <= PAGE_NUMBERS
    requires RangeMapped(before, mem, root, pageStart, frameStart, flags, done)
    ensures Missing(mem, root, PageNumber(pageStart + done * PAGE_SIZE), 3) + Crossed(pageStart / PAGE_SIZE, done) <=
            Crossed(pageStart / PAGE_SIZE, done + 1)
  {
    if done > 0 {
      StepOfPage(pageStart, done - 1);
    }
    MissingBound(mem, root, pageStart, done);
  }
}
