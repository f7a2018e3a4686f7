/** Numbers as little-endian byte strings. */
module LittleEndian {
  import opened Bits

  function FromBytes(s: seq<u8>): nat {
    if s == [] then 0 else s[0] + 256 * FromBytes(s[1..])
  }

  function ToBytes(x: nat, n: nat): (s: seq<u8>)
    ensures |s| == n
  {
    if n == 0 then [] else [x % 256] + ToBytes(x / 256, n - 1)
  }

  /** Byte i has weight `2^(8i)`. */
  lemma {:induction false} ByteIs(x: nat, n: nat, i: nat)
    requires i < n
    ensures ToBytes(x, n)[i] == x / Pow2(8 * i) % 256
  {
    Powers();
    if i == 0 {
      assert Pow2(0) == 1;
    } else {
      ByteIs(x / 256, n - 1, i - 1);
      PowSum(8, 8 * (i - 1), 8 * i, 256, Pow2(8 * (i - 1)));
      DivDiv(x, 256, Pow2(8 * (i - 1)));
    }
  }

  lemma FirstByte(b: u8, high: nat)
    ensures (b + 256 * high) % 256 == b && (b + 256 * high) / 256 == high
  {
  }

  lemma {:induction false} BytesRoundTrip(s: seq<u8>)
    ensures ToBytes(FromBytes(s), |s|) == s
  {
    if s == [] {
    } else {
      BytesRoundTrip(s[1..]);
      FirstByte(s[0], FromBytes(s[1..]));
      assert s == [s[0]] + s[1..];
    }
  }

  lemma {:induction false} NumberRoundTrip(x: nat, n: nat)
    requires x < Pow2(8 * n)
    ensures FromBytes(ToBytes(x, n)) == x
  {
    if n == 0 {
    } else {
      ByteShift(x, n);
      NumberRoundTrip(x / 256, n - 1);
      assert ToBytes(x, n)[1..] == ToBytes(x / 256, n - 1);
    }
  }

  lemma {:induction false} BytesBound(s: seq<u8>)
    ensures FromBytes(s) < Pow2(8 * |s|)
  {
    if s == [] {
    } else {
      BytesBound(s[1..]);
      Powers();
      PowSum(8, 8 * |s[1..]|, 8 * |s|, 256, Pow2(8 * |s[1..]|));
    }
  }

  lemma ByteShift(x: nat, n: nat)
    requires n > 0 && x < Pow2(8 * n)
    ensures x / 256 < Pow2(8 * (n - 1))
  {
    Powers();
    PowSum(8, 8 * (n - 1), 8 * n, 256, Pow2(8 * (n - 1)));
  }

  /** A 64-bit word from its eight bytes. */
  function Word(s: seq<u8>): u64
    requires |s| == 8
  {
    BytesBound(s);
    Powers();
    FromBytes(s)
  }
}
