/**
 The bitmap as a set of free frames. A word of the bitmap stands for 8 frames, one per byte of a
 64-bit word, although the word has 64 bits; `Clean` is the invariant that the other 56 stay zero.
 */
module BitmapSpec {
  import opened Bits

  const FRAMES_PER_WORD: nat := 8

  predicate Clean(words: seq<u64>) {
    forall w: nat | w < |words| :: words[w] < 256
  }

  /** Frame number k, counted from the first frame of the allocator, is free. */
  predicate IsFree(words: seq<u64>, k: nat) {
    k < 8 * |words| && Bit(words[k / 8], k % 8)
  }

  predicate FreeRun(words: seq<u64>, k: nat, n: nat) {
    forall j | k <= j < k + n :: IsFree(words, j)
  }

  predicate LowestRun(words: seq<u64>, k: nat, n: nat) {
    FreeRun(words, k, n) && forall j: nat | j < k :: !FreeRun(words, j, n)
  }

  /** The starts the in-word search looks at: the run may not touch the last frame of its word. */
  predicate FastRun(words: seq<u64>, k: nat, n: nat) {
    k % 8 + n < 8 && FreeRun(words, k, n)
  }

  predicate LowestFastRun(words: seq<u64>, k: nat, n: nat) {
    FastRun(words, k, n) && forall j: nat | j < k :: !FastRun(words, j, n)
  }

  /** Exactly the frames k to k+n-1 became allocated. */
  ghost predicate Takes(words: seq<u64>, words': seq<u64>, k: nat, n: nat) {
    |words'| == |words| && Clean(words') &&
    forall j: nat :: IsFree(words', j) <==> IsFree(words, j) && !(k <= j < k + n)
  }

  /** Exactly the frames k to k+n-1 became free. */
  ghost predicate Gives(words: seq<u64>, words': seq<u64>, k: nat, n: nat) {
    |words'| == |words| && Clean(words') &&
    forall j: nat :: IsFree(words', j) <==> IsFree(words, j) || (k <= j < k + n && j < 8 * |words|)
  }

  /** A clean bitmap is determined by its free frames. */
  lemma FreeFramesDetermine(words: seq<u64>, words': seq<u64>)
    requires |words| == |words'| && Clean(words) && Clean(words')
    requires forall j: nat :: IsFree(words, j) <==> IsFree(words', j)
    ensures words == words'
  {
    forall w: nat | w < |words|
      ensures words[w] == words'[w]
    {
      forall i: nat
        ensures Bit(words[w], i) <==> Bit(words'[w], i)
      {
        if i < 8 {
          assert (8 * w + i) / 8 == w && (8 * w + i) % 8 == i;
          assert IsFree(words, 8 * w + i) <==> IsFree(words', 8 * w + i);
        } else {
          Powers();
          HighBit(words[w], 8, i);
          HighBit(words'[w], 8, i);
        }
      }
      SameBits(words[w], words'[w]);
    }
  }

  /** Allocating a run and freeing it again restores the bitmap bit for bit. */
  lemma AllocateThenFree(words: seq<u64>, taken: seq<u64>, words': seq<u64>, k: nat, n: nat)
    requires Clean(words) && FreeRun(words, k, n)
    requires Takes(words, taken, k, n) && Gives(taken, words', k, n)
    ensures words' == words
  {
    forall j: nat
      ensures IsFree(words', j) <==> IsFree(words, j)
    {
      if k <= j < k + n {
        assert IsFree(words, j);
      }
    }
    FreeFramesDetermine(words', words);
  }

  /** The in-word search alone is incomplete: two free frames at the top of a word are not found. */
  lemma FastSearchIncomplete()
    ensures exists words: seq<u64>, k: nat ::
              Clean(words) && FreeRun(words, k, 2) && forall j: nat :: !FastRun(words, j, 2)
  {
    var words: seq<u64> := [192];
    assert Bit(192, 6) && Bit(192, 7);
    assert FreeRun(words, 6, 2);
    forall j: nat
      ensures !FastRun(words, j, 2)
    {
      if FreeRun(words, j, 2) {
        assert IsFree(words, j) && IsFree(words, j + 1);
        assert !Bit(192, 0) && !Bit(192, 1) && !Bit(192, 2) && !Bit(192, 3) && !Bit(192, 4) && !Bit(192, 5);
      }
    }
  }

  // ---------- one word ----------

  function TrailingZeros(x: u64): nat {
    if x == 0 then 64 else if x % 2 == 1 then 0 else 1 + TrailingZeros(x / 2)
  }

  /** `trailing_zeros` is the lowest set bit of a nonzero word. */
  lemma {:induction false} TrailingZerosIsLowest(x: u64)
    requires x > 0
    ensures Bit(x, TrailingZeros(x))
    ensures forall i: nat | i < TrailingZeros(x) :: !Bit(x, i)
  {
    if x % 2 == 1 {
    } else {
      TrailingZerosIsLowest(x / 2);
      forall i: nat | i < TrailingZeros(x)
        ensures !Bit(x, i)
      {
        if i > 0 { assert !Bit(x / 2, i - 1); }
      }
    }
  }

  lemma SmallBit(x: u64, i: nat)
    requires x < 256 && Bit(x, i)
    ensures i < 8 && x > 0
  {
    Powers();
    if i >= 8 { HighBit(x, 8, i); }
    ZeroBit(i);
  }

  /** The lowest set bit of a clean word is one of its 8 frames; an empty word has none. */
  lemma FirstFree(x: u64)
    requires x < 256
    ensures x == 0 <==> TrailingZeros(x) == 64
    ensures x != 0 ==> TrailingZeros(x) < 8 && Bit(x, TrailingZeros(x))
    ensures forall i: nat | i < TrailingZeros(x) :: !Bit(x, i)
  {
    if x == 0 {
      forall i: nat ensures !Bit(x, i) { ZeroBit(i); }
    } else {
      TrailingZerosIsLowest(x);
      SmallBit(x, TrailingZeros(x));
    }
  }

  function RunMask(n: nat): nat
    requires n > 0
  {
    ShlIsMul(2, n - 1);
    Shl(2, n - 1) - 1
  }

  lemma RunMaskIsMask(n: nat)
    requires n > 0
    ensures RunMask(n) == Pow2(n) - 1
  {
    ShlIsMul(2, n - 1);
  }

  lemma MaskBound(slide: nat, n: nat)
    requires n > 0 && slide + n <= 8
    ensures Shl(RunMask(n), slide) < 256
    ensures forall i: nat :: Bit(Shl(RunMask(n), slide), i) <==> slide <= i < slide + n
  {
    RunMaskIsMask(n);
    forall i: nat
      ensures Bit(Shl(RunMask(n), slide), i) <==> slide <= i < slide + n
    {
      ShlBit(RunMask(n), slide, i);
      if i >= slide { MaskBit(n, i - slide); }
    }
    Powers();
    BoundedByBits(Shl(RunMask(n), slide), 8);
  }

  predicate AllBits(word: u64, b: nat, n: nat) {
    forall i | b <= i < b + n :: Bit(word, i)
  }

  /** No run starts below the lowest set bit. */
  lemma BelowFirst(word: u64, n: nat)
    requires word < 256 && n > 0
    ensures forall b: nat | b < TrailingZeros(word) :: !AllBits(word, b, n)
  {
    FirstFree(word);
    forall b: nat | b < TrailingZeros(word)
      ensures !AllBits(word, b, n)
    {
      assert !Bit(word, b);
    }
  }

  /** Shifting, masking and comparing asks whether n frames from `slide` on are free. */
  lemma MaskMatches(word: u64, slide: nat, n: nat)
    requires n > 0
    ensures And(Shr(word, slide), RunMask(n)) == RunMask(n) <==> AllBits(word, slide, n)
  {
    var masked := And(Shr(word, slide), RunMask(n));
    RunMaskIsMask(n);
    forall i: nat
      ensures Bit(masked, i) <==> i < n && Bit(word, slide + i)
      ensures Bit(RunMask(n), i) <==> i < n
    {
      AndBit(Shr(word, slide), RunMask(n), i);
      ShrBit(word, slide, i);
      MaskBit(n, i);
    }
    if masked == RunMask(n) {
      assert AllBits(word, slide, n) by {
        forall i | slide <= i < slide + n
          ensures Bit(word, i)
        {
          assert Bit(RunMask(n), i - slide);
        }
      }
    }
    if AllBits(word, slide, n) {
      SameBits(masked, RunMask(n));
    }
  }

  /** Clearing bits of a clean word with an inverted mask. */
  lemma ClearBits(word: u64, mask: u64)
    requires word < 256 && mask < 256
    ensures And(word, Not(mask)) < 256
    ensures forall i: nat :: Bit(And(word, Not(mask)), i) <==> Bit(word, i) && !Bit(mask, i)
  {
    forall i: nat
      ensures Bit(And(word, Not(mask)), i) <==> Bit(word, i) && !Bit(mask, i)
    {
      AndBit(word, Not(mask), i);
      if Bit(word, i) {
        SmallBit(word, i);
        NotBit(mask, i);
      }
    }
  }

  lemma SetBits(word: u64, mask: u64)
    requires word < 256 && mask < 256
    ensures Or(word, mask) < 256
    ensures forall i: nat :: Bit(Or(word, mask), i) <==> Bit(word, i) || Bit(mask, i)
  {
    Powers();
    OrBounded(word, mask, 8);
    forall i: nat {
      OrBit(word, mask, i);
    }
  }

  lemma OneBit(b: nat)
    requires b < 8
    ensures Shl(1, b) < 256
    ensures forall i: nat :: Bit(Shl(1, b), i) <==> i == b
  {
    assert RunMask(1) == 1;
    MaskBound(b, 1);
  }

  // ---------- one word inside the bitmap ----------

  /** Clearing n bits of word w from bit b on takes exactly those frames. */
  lemma ClearTakes(words: seq<u64>, w: nat, b: nat, n: nat, word: u64)
    requires Clean(words) && w < |words| && b + n <= 8 && word < 256
    requires forall i: nat :: Bit(word, i) <==> Bit(words[w], i) && !(b <= i < b + n)
    ensures Takes(words, words[w := word], 8 * w + b, n)
  {
    var words' := words[w := word];
    forall j: nat
      ensures IsFree(words', j) <==> IsFree(words, j) && !(8 * w + b <= j < 8 * w + b + n)
    {
      assert j / 8 == w ==> j == 8 * w + j % 8;
    }
  }

  lemma SetGives(words: seq<u64>, w: nat, b: nat, word: u64)
    requires Clean(words) && w < |words| && b < 8 && word < 256
    requires forall i: nat :: Bit(word, i) <==> Bit(words[w], i) || i == b
    ensures Gives(words, words[w := word], 8 * w + b, 1)
  {
    var words' := words[w := word];
    forall j: nat
      ensures IsFree(words', j) <==> IsFree(words, j) || j == 8 * w + b
    {
      assert j / 8 == w ==> j == 8 * w + j % 8;
    }
  }

  /** Consecutive takes and gives add up. */
  lemma TakesMore(words: seq<u64>, mid: seq<u64>, words': seq<u64>, k: nat, n: nat)
    requires Takes(words, mid, k, n) && Takes(mid, words', k + n, 1)
    ensures Takes(words, words', k, n + 1)
  {
  }

  lemma GivesMore(words: seq<u64>, mid: seq<u64>, words': seq<u64>, k: nat, n: nat)
    requires Gives(words, mid, k, n) && Gives(mid, words', k + n, 1)
    ensures Gives(words, words', k, n + 1)
  {
  }
}
