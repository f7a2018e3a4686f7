/**
 One page-table word and the index fields of a virtual address: the long-mode format of
 section 5.3 of the AMD64 Architecture Programmer's Manual, volume 2.
 */
module PageEntry {
  import opened Bits
  import opened Options

  const PRESENT: u64 := 1
  const WRITABLE: u64 := 2

  /** Writable and user accessible. */
  const PERMISSIVE: u64 := 6

  /** Bits 12 to 51: the physical frame a present entry points at. */
  const FRAME_MASK: u64 := 0x000f_ffff_ffff_f000

  /** The entries of a freshly written table. */
  const NEW_ENTRY: u64 := WRITABLE

  const L4_SHIFT: nat := 39
  const L3_SHIFT: nat := 30
  const L2_SHIFT: nat := 21
  const L1_SHIFT: nat := 12
  const L4_MASK: u64 := 0xff80_0000_0000
  const L3_MASK: u64 := 0x7f_c000_0000
  const L2_MASK: u64 := 0x3fe0_0000
  const L1_MASK: u64 := 0x1f_f000

  /** A flag set holds only named flags: bits 0 to 9 and bit 63. */
  predicate IsFlags(flags: u64) {
    forall i: nat | 10 <= i < 63 :: !Bit(flags, i)
  }

  function PointedFrame(entry: u64): Option<u64> {
    if And(entry, PRESENT) == PRESENT then Some(And(entry, FRAME_MASK)) else None
  }

  function SetPointedFrameUnchecked(entry: u64, frame: u64, flags: u64): (r: u64)
    ensures forall i: nat | i < 64 ::
              Bit(r, i) <==> (if 12 <= i < 52 then Bit(frame, i) || Bit(flags, i)
                              else Bit(entry, i) || Bit(flags, i) || i == 0)
  {
    SetPointedFrameBits(entry, frame, flags);
    Or(Or(And(entry, Not(FRAME_MASK)), And(frame, FRAME_MASK)), Or(flags, PRESENT))
  }

  lemma FrameMaskBit(i: nat)
    ensures Bit(FRAME_MASK, i) <==> 12 <= i < 52
  {
    Powers();
    ShlIsMul(Pow2(40) - 1, 12);
    ShlBit(Pow2(40) - 1, 12, i);
    if i >= 12 { MaskBit(40, i - 12); }
  }

  lemma SetPointedFrameBits(entry: u64, frame: u64, flags: u64)
    ensures Or(Or(And(entry, Not(FRAME_MASK)), And(frame, FRAME_MASK)), Or(flags, PRESENT)) < WORD_SIZE
    ensures forall i: nat | i < 64 ::
              Bit(Or(Or(And(entry, Not(FRAME_MASK)), And(frame, FRAME_MASK)), Or(flags, PRESENT)), i) <==>
              (if 12 <= i < 52 then Bit(frame, i) || Bit(flags, i)
               else Bit(entry, i) || Bit(flags, i) || i == 0)
  {
    var kept, moved, marks := And(entry, Not(FRAME_MASK)), And(frame, FRAME_MASK), Or(flags, PRESENT);
    Powers();
    OrBounded(kept, moved, 64);
    OrBounded(flags, PRESENT, 64);
    OrBounded(Or(kept, moved), marks, 64);
    forall i: nat | i < 64
      ensures Bit(Or(Or(kept, moved), marks), i) <==> (if 12 <= i < 52 then Bit(frame, i) || Bit(flags, i)
                                                     else Bit(entry, i) || Bit(flags, i) || i == 0)
    {
      OrBit(Or(kept, moved), marks, i);
      OrBit(kept, moved, i);
      OrBit(flags, PRESENT, i);
      PowerBit(0, i);
      AndBit(entry, Not(FRAME_MASK), i);
      AndBit(frame, FRAME_MASK, i);
      NotBit(FRAME_MASK, i);
      FrameMaskBit(i);
    }
  }

  lemma PresentBit(entry: u64)
    ensures PointedFrame(entry).Some? <==> Bit(entry, 0)
  {
    AndBit(entry, PRESENT, 0);
    assert And(entry, PRESENT) <= 1;
  }

  /** Reading back a written entry gives the frame, cut to bits 12 to 51, and the flags do not leak into it. */
  lemma SetThenGet(entry: u64, frame: u64, flags: u64)
    requires IsFlags(flags)
    ensures PointedFrame(SetPointedFrameUnchecked(entry, frame, flags)) == Some(And(frame, FRAME_MASK))
  {
    var r := SetPointedFrameUnchecked(entry, frame, flags);
    PresentBit(r);
    forall i: nat
      ensures Bit(And(r, FRAME_MASK), i) <==> Bit(And(frame, FRAME_MASK), i)
    {
      AndBit(r, FRAME_MASK, i);
      AndBit(frame, FRAME_MASK, i);
      FrameMaskBit(i);
    }
    SameBits(And(r, FRAME_MASK), And(frame, FRAME_MASK));
  }

  /** Cutting to bits 12 to 51 keeps exactly the page-aligned addresses below `2^52`. */
  lemma MaskedFrame(frame: u64)
    ensures And(frame, FRAME_MASK) == frame / 4096 % 0x100_0000_0000 * 4096
    ensures And(frame, FRAME_MASK) == frame <==> frame % 4096 == 0 && frame < 0x10_0000_0000_0000
  {
    hide And, Shl, Shr, Pow2;
    Powers();
    FieldBits(frame, 12, 40);
    ShlIsMul(Pow2(40) - 1, 12);
    ShrIsDiv(frame, 12);
    ShlIsMul(Shr(frame, 12) % Pow2(40), 12);
    CutFrame(frame);
  }

  lemma CutFrame(frame: nat)
    ensures frame / 4096 % 0x100_0000_0000 * 4096 == frame <==> frame % 4096 == 0 && frame < 0x10_0000_0000_0000
  {
  }

  lemma NewEntryAbsent()
    ensures PointedFrame(NEW_ENTRY) == None
  {
    PresentBit(NEW_ENTRY);
  }

  function L4Index(page: u64): nat { Shr(And(page, L4_MASK), L4_SHIFT) }
  function L3Index(page: u64): nat { Shr(And(page, L3_MASK), L3_SHIFT) }
  function L2Index(page: u64): nat { Shr(And(page, L2_MASK), L2_SHIFT) }
  function L1Index(page: u64): nat { Shr(And(page, L1_MASK), L1_SHIFT) }

  const PAGE_SIZE: nat := 4096
  const PAGE_NUMBERS: nat := 0x10_0000_0000

  /** The 36-bit page number of a virtual address: bits 12 to 47. */
  function PageNumber(page: nat): nat {
    page / PAGE_SIZE % PAGE_NUMBERS
  }

  /** The four masked and shifted fields are the base-512 digits of the page number. */
  lemma Indices(page: u64)
    ensures L1Index(page) == PageNumber(page) % 512
    ensures L2Index(page) == PageNumber(page) / 512 % 512
    ensures L3Index(page) == PageNumber(page) / 512 / 512 % 512
    ensures L4Index(page) == PageNumber(page) / 512 / 512 / 512 < 512
  {
    Powers();
    PowSum(12, 9, 21, 4096, 512);
    PowSum(21, 9, 30, 0x20_0000, 512);
    PowSum(30, 9, 39, 0x4000_0000, 512);
    IndexField(page, 39);
    IndexField(page, 30);
    IndexField(page, 21);
    IndexField(page, 12);
    Digits(page);
  }

  lemma IndexField(page: nat, k: nat)
    ensures Shr(And(page, 511 * Pow2(k)), k) == page / Pow2(k) % 512
  {
    Powers();
    FieldBits(page, k, 9);
    ShlIsMul(511, k);
    ShrIsDiv(page, k);
  }

  lemma Digits(page: nat)
    ensures PageNumber(page) / 512 / 512 / 512 == page / 0x80_0000_0000 % 512
    ensures PageNumber(page) / 512 / 512 % 512 == page / 0x4000_0000 % 512
    ensures PageNumber(page) / 512 % 512 == page / 0x20_0000 % 512
    ensures PageNumber(page) % 512 == page / 4096 % 512
  {
    var n := page / 4096;
    DropDigit(n, 0x800_0000);
    DropDigit(n / 512, 0x4_0000);
    DropDigit(n / 512 / 512, 512);
    DivDiv(page, 4096, 512);
    DivDiv(page, 0x20_0000, 512);
    DivDiv(page, 0x4000_0000, 512);
  }

  lemma DropDigit(n: nat, m: nat)
    requires m > 0
    ensures 512 * m > 0 && n % (512 * m) / 512 == n / 512 % m && n % (512 * m) % 512 == n % 512
  {
    var y := n / 512;
    Nested(n, 512, m, y, n % 512, y / m, y % m);
    QuotientUnique(n, 512 * m, y / m, 512 * (y % m) + n % 512);
  }
}
