/**
 Machine words as natural numbers, with the bitwise operators defined bit by bit.
 `Bit` is the reference view of a word; every operator is characterised by what it does to each bit.
 */
module Bits {

  const WORD_SIZE: nat := 0x1_0000_0000_0000_0000

  type u64 = x: nat | x < WORD_SIZE
  type u8 = x: nat | x < 256

  function Pow2(n: nat): (p: nat)
    ensures p >= 1
  {
    if n == 0 then 1 else 2 * Pow2(n - 1)
  }

  predicate Bit(x: nat, i: nat) {
    if i == 0 then x % 2 == 1 else Bit(x / 2, i - 1)
  }

  function And(x: nat, y: nat): (r: nat)
    ensures r <= x && r <= y
  {
    if x == 0 || y == 0 then 0
    else 2 * And(x / 2, y / 2) + (if x % 2 == 1 && y % 2 == 1 then 1 else 0)
  }

  function Or(x: nat, y: nat): nat {
    if x == 0 then y else if y == 0 then x
    else 2 * Or(x / 2, y / 2) + (if x % 2 == 1 || y % 2 == 1 then 1 else 0)
  }

  /** Bitwise complement of a 64-bit word. */
  function Not(x: u64): u64 {
    WORD_SIZE - 1 - x
  }

  function Shl(x: nat, k: nat): nat {
    if k == 0 then x else 2 * Shl(x, k - 1)
  }

  function Shr(x: nat, k: nat): nat {
    if k == 0 then x else Shr(x / 2, k - 1)
  }

  /** Squares a known power, so that the solver need not unfold `Pow2` at a large literal. */
  lemma PowSum(a: nat, b: nat, n: nat, x: nat, y: nat)
    requires Pow2(a) == x && Pow2(b) == y && n == a + b
    ensures Pow2(n) == x * y
  {
    PowAdd(a, b);
  }

  lemma Powers()
    ensures Pow2(8) == 256 && Pow2(9) == 512 && Pow2(12) == 4096
    ensures Pow2(40) == 0x100_0000_0000 && Pow2(52) == 0x10_0000_0000_0000
    ensures Pow2(64) == WORD_SIZE
  {
    PowSum(8, 8, 16, 256, 256);
    PowSum(16, 16, 32, 0x1_0000, 0x1_0000);
    PowSum(32, 8, 40, 0x1_0000_0000, 256);
    PowSum(40, 12, 52, 0x100_0000_0000, 4096);
    PowSum(32, 32, 64, 0x1_0000_0000, 0x1_0000_0000);
  }

  // ---------- what each operator does to a bit ----------

  lemma {:induction false} ZeroBit(i: nat)
    ensures !Bit(0, i)
  {
    if i == 0 {
    } else {
      ZeroBit(i - 1);
    }
  }

  lemma {:induction false} AndBit(x: nat, y: nat, i: nat)
    ensures Bit(And(x, y), i) <==> Bit(x, i) && Bit(y, i)
  {
    if x == 0 || y == 0 {
      ZeroBit(i);
    } else if i > 0 {
      AndBit(x / 2, y / 2, i - 1);
    }
  }

  lemma {:induction false} OrBit(x: nat, y: nat, i: nat)
    ensures Bit(Or(x, y), i) <==> Bit(x, i) || Bit(y, i)
  {
    if x == 0 || y == 0 {
      ZeroBit(i);
    } else if i > 0 {
      OrBit(x / 2, y / 2, i - 1);
    }
  }

  lemma {:induction false} ComplementBit(x: nat, n: nat, i: nat)
    requires x < Pow2(n) && i < n
    ensures Bit(Pow2(n) - 1 - x, i) <==> !Bit(x, i)
  {
    if i == 0 {
    } else {
      ComplementBit(x / 2, n - 1, i - 1);
      assert (Pow2(n) - 1 - x) / 2 == Pow2(n - 1) - 1 - x / 2;
    }
  }

  lemma NotBit(x: u64, i: nat)
    requires i < 64
    ensures Bit(Not(x), i) <==> !Bit(x, i)
  {
    Powers();
    ComplementBit(x, 64, i);
  }

  lemma {:induction false} ShlBit(x: nat, k: nat, i: nat)
    ensures Bit(Shl(x, k), i) <==> i >= k && Bit(x, i - k)
  {
    if k == 0 || i == 0 {
    } else {
      ShlBit(x, k - 1, i - 1);
    }
  }

  lemma {:induction false} ShrBit(x: nat, k: nat, i: nat)
    ensures Bit(Shr(x, k), i) <==> Bit(x, i + k)
  {
    if k == 0 {
    } else {
      ShrBit(x / 2, k - 1, i);
    }
  }

  // ---------- shifts and masks as arithmetic ----------

  lemma Distribute(a: nat, b: nat, q: nat, r: nat)
    ensures a * (b * q + r) == (a * b) * q + a * r
  {
  }

  lemma MulLe(d: nat, x: nat, y: nat)
    requires x <= y
    ensures d * x <= d * y
  {
  }

  lemma SameQuotient(d: nat, q: nat, r: nat, q': nat, r': nat)
    requires r < d && r' < d && d * q + r == d * q' + r'
    ensures q == q' && r == r'
  {
    Distribute(d, 1, q, 1);
    Distribute(d, 1, q', 1);
    if q < q' {
      MulLe(d, q + 1, q');
    } else if q' < q {
      MulLe(d, q' + 1, q);
    }
  }

  lemma QuotientUnique(x: nat, d: nat, q: nat, r: nat)
    requires d > 0 && r < d && x == d * q + r
    ensures x / d == q && x % d == r
  {
    SameQuotient(d, x / d, x % d, q, r);
  }

  lemma Nested(x: nat, a: nat, b: nat, y: nat, s: nat, q: nat, r: nat)
    requires x == a * y + s && s < a && y == b * q + r && r < b
    ensures x == (a * b) * q + (a * r + s) && a * r + s < a * b
  {
    Distribute(a, b, q, r);
    MulLe(a, r + 1, b);
    Distribute(a, 1, r, 1);
  }

  lemma DivDiv(x: nat, a: nat, b: nat)
    requires a > 0 && b > 0
    ensures a * b > 0 && x / (a * b) == x / a / b
  {
    var y := x / a;
    Nested(x, a, b, y, x % a, y / b, y % b);
    QuotientUnique(x, a * b, y / b, a * (y % b) + x % a);
  }

  lemma {:induction false} ShlIsMul(x: nat, k: nat)
    ensures Shl(x, k) == x * Pow2(k)
  {
    if k == 0 {
    } else {
      ShlIsMul(x, k - 1);
    }
  }

  lemma {:induction false} ShrIsDiv(x: nat, k: nat)
    ensures Shr(x, k) == x / Pow2(k)
  {
    if k == 0 {
    } else {
      ShrIsDiv(x / 2, k - 1);
      DivDiv(x, 2, Pow2(k - 1));
    }
  }

  /** A number below `2^n` has no bit at position n or above. */
  lemma {:induction false} HighBit(x: nat, n: nat, i: nat)
    requires x < Pow2(n) && i >= n
    ensures !Bit(x, i)
  {
    if n == 0 {
      ZeroBit(i);
    } else {
      HighBit(x / 2, n - 1, i - 1);
    }
  }

  /** The converse: a word whose bits all lie below n is below `2^n`. */
  lemma {:induction false} BoundedByBits(x: nat, n: nat)
    requires forall i: nat | i >= n :: !Bit(x, i)
    ensures x < Pow2(n)
  {
    if x > 0 {
      if n == 0 {
        var i := SomeBit(x);
        assert false;
      } else {
        forall i: nat | i >= n - 1
          ensures !Bit(x / 2, i)
        {
          assert !Bit(x, i + 1);
        }
        BoundedByBits(x / 2, n - 1);
      }
    }
  }

  lemma {:induction false} SomeBit(x: nat) returns (i: nat)
    requires x > 0
    ensures Bit(x, i)
  {
    if x % 2 == 1 {
      i := 0;
    } else {
      i := SomeBit(x / 2);
      i := i + 1;
    }
  }

  lemma {:induction false} ModBit(x: nat, n: nat, i: nat)
    ensures Bit(x % Pow2(n), i) <==> i < n && Bit(x, i)
  {
    if i >= n {
      HighBit(x % Pow2(n), n, i);
    } else {
      HalfMod(x, n);
      if i > 0 { ModBit(x / 2, n - 1, i - 1); }
    }
  }

  lemma HalfMod(x: nat, n: nat)
    requires n > 0
    ensures x % Pow2(n) % 2 == x % 2
    ensures x % Pow2(n) / 2 == x / 2 % Pow2(n - 1)
  {
    var h, y := Pow2(n - 1), x / 2;
    Nested(x, 2, h, y, x % 2, y / h, y % h);
    QuotientUnique(x, 2 * h, y / h, 2 * (y % h) + x % 2);
  }

  lemma {:induction false} MaskBit(n: nat, i: nat)
    ensures Bit(Pow2(n) - 1, i) <==> i < n
  {
    if i >= n {
      HighBit(Pow2(n) - 1, n, i);
    } else {
      ComplementBit(0, n, i);
      ZeroBit(i);
    }
  }

  lemma {:induction false} PowerBit(k: nat, i: nat)
    ensures Bit(Pow2(k), i) <==> i == k
  {
    ShlIsMul(1, k);
    ShlBit(1, k, i);
    if i > k {
      HighBit(1, 1, i - k);
    }
  }

  /** Words with the same bits are equal. */
  lemma {:induction false} SameBits(x: nat, y: nat)
    requires forall i: nat :: Bit(x, i) <==> Bit(y, i)
    ensures x == y
    decreases x + y
  {
    if x + y == 0 {
    } else {
      forall i: nat
        ensures Bit(x / 2, i) <==> Bit(y / 2, i)
      {
        assert Bit(x, i + 1) <==> Bit(y, i + 1);
      }
      assert Bit(x, 0) <==> Bit(y, 0);
      SameBits(x / 2, y / 2);
    }
  }

  lemma {:induction false} PowAdd(a: nat, b: nat)
    ensures Pow2(a + b) == Pow2(a) * Pow2(b)
  {
    if a == 0 {
    } else {
      PowAdd(a - 1, b);
    }
  }

  /** Masking with `2^n - 1` moved up by k extracts n bits starting at bit k. */
  lemma FieldBits(x: nat, k: nat, n: nat)
    ensures Shr(And(x, Shl(Pow2(n) - 1, k)), k) == Shr(x, k) % Pow2(n)
    ensures And(x, Shl(Pow2(n) - 1, k)) == Shl(Shr(x, k) % Pow2(n), k)
  {
    var mask := Shl(Pow2(n) - 1, k);
    var field := Shr(x, k) % Pow2(n);
    forall i: nat
      ensures Bit(And(x, mask), i) <==> Bit(Shl(field, k), i)
    {
      AndBit(x, mask, i);
      ShlBit(Pow2(n) - 1, k, i);
      ShlBit(field, k, i);
      if i >= k {
        MaskBit(n, i - k);
        ModBit(Shr(x, k), n, i - k);
        ShrBit(x, k, i - k);
      }
    }
    SameBits(And(x, mask), Shl(field, k));
    ShrShl(field, k);
  }

  lemma {:induction false} ShrShl(x: nat, k: nat)
    ensures Shr(Shl(x, k), k) == x
  {
    if k == 0 {
    } else {
      ShrShl(x, k - 1);
      assert Shl(x, k) / 2 == Shl(x, k - 1);
    }
  }

  /** Numbers without common bits are joined by adding them. */
  lemma {:induction false} OrIsSum(a: nat, y: nat, n: nat)
    requires y < Pow2(n)
    ensures Or(a * Pow2(n), y) == a * Pow2(n) + y
  {
    if n == 0 {
      OrZero(a);
    } else {
      var half := a * Pow2(n - 1);
      OrIsSum(a, y / 2, n - 1);
      Doubled(a, Pow2(n - 1));
      OrEven(half, y);
    }
  }

  lemma OrZero(x: nat)
    ensures Or(x, 0) == x
  {
  }

  lemma Doubled(a: nat, p: nat)
    ensures a * (2 * p) == 2 * (a * p)
  {
  }

  lemma OrEven(x: nat, y: nat)
    ensures Or(2 * x, y) == 2 * Or(x, y / 2) + y % 2
  {
    OrZero(x);
    OrZero(2 * x);
  }

  lemma OrBounded(x: nat, y: nat, n: nat)
    requires x < Pow2(n) && y < Pow2(n)
    ensures Or(x, y) < Pow2(n)
  {
    forall i: nat | i >= n
      ensures !Bit(Or(x, y), i)
    {
      OrBit(x, y, i);
      HighBit(x, n, i);
      HighBit(y, n, i);
    }
    BoundedByBits(Or(x, y), n);
  }
}
