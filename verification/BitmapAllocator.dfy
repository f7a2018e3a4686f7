/** The physical frame allocator. Every operation runs under one lock, so its steps are sequential. */
module BitmapAllocator {
  import opened Bits
  import opened Options
  import opened BitmapSpec

  datatype Result = Ok(frame: nat) | Err

  datatype FrameState = Allocated | Free

  class Allocator {
    const first: nat
    const bitmap: array<u64>

    ghost predicate Valid()
      reads bitmap
    {
      Clean(bitmap[..])
    }

    constructor (first: nat, frameCount: nat)
      ensures Valid() && fresh(bitmap) && this.first == first && bitmap.Length == frameCount / FRAMES_PER_WORD
      ensures forall j: nat :: !IsFree(bitmap[..], j)
    {
      this.first := first;
      var words := new u64[frameCount / FRAMES_PER_WORD](_ => 0);
      this.bitmap := words;
      new;
      forall j: nat
        ensures !IsFree(bitmap[..], j)
      {
        ZeroBit(j % 8);
      }
    }

    function LastFrame(): nat {
      first + bitmap.Length * FRAMES_PER_WORD
    }

    predicate InRange(frame: nat) {
      first <= frame < LastFrame()
    }

    function FrameToIndices(frame: nat): (nat, nat)
      requires frame >= first
    {
      var number := frame - first;
      (number / FRAMES_PER_WORD, number % FRAMES_PER_WORD)
    }

    method SetFrame(frame: nat, state: FrameState) returns (ok: bool)
      requires Valid()
      modifies bitmap
      ensures Valid()
      ensures ok == InRange(frame)
      ensures !ok ==> bitmap[..] == old(bitmap[..])
      ensures ok && state == Allocated ==> Takes(old(bitmap[..]), bitmap[..], frame - first, 1)
      ensures ok && state == Free ==> Gives(old(bitmap[..]), bitmap[..], frame - first, 1)
    {
      if frame < first || frame >= LastFrame() {
        return false;
      }
      var (w, b) := FrameToIndices(frame);
      ghost var words := bitmap[..];
      OneBit(b);
      match state {
        case Allocated =>
          ClearBits(bitmap[w], Shl(1, b));
          bitmap[w] := And(bitmap[w], Not(Shl(1, b)));
          ClearTakes(words, w, b, 1, bitmap[w]);
        case Free =>
          SetBits(bitmap[w], Shl(1, b));
          bitmap[w] := Or(bitmap[w], Shl(1, b));
          SetGives(words, w, b, bitmap[w]);
      }
      assert bitmap[..] == words[w := bitmap[w]];
      return true;
    }

    method GetFrame(frame: nat) returns (state: Option<FrameState>)
      requires Valid()
      ensures state.Some? <==> InRange(frame)
      ensures state == Some(Free) <==> frame >= first && IsFree(bitmap[..], frame - first)
    {
      if frame < first || frame >= LastFrame() {
        return None;
      }
      var (w, b) := FrameToIndices(frame);
      OneBit(b);
      AndBit(bitmap[w], Shl(1, b), b);
      if And(bitmap[w], Shl(1, b)) == 0 {
        ZeroBit(b);
        return Some(Allocated);
      } else {
        var i := SomeBit(And(bitmap[w], Shl(1, b)));
        AndBit(bitmap[w], Shl(1, b), i);
        return Some(Free);
      }
    }

    method AllocateOne() returns (r: Result)
      requires Valid()
      modifies bitmap
      ensures Valid()
      ensures r.Ok? ==>
                && r.frame >= first
                && LowestRun(old(bitmap[..]), r.frame - first, 1)
                && Takes(old(bitmap[..]), bitmap[..], r.frame - first, 1)
      ensures r.Err? ==> bitmap[..] == old(bitmap[..]) && forall k: nat :: !FreeRun(bitmap[..], k, 1)
    {
      for i := 0 to bitmap.Length
        invariant bitmap[..] == old(bitmap[..])
        invariant forall k: nat | k < 8 * i :: !IsFree(bitmap[..], k)
      {
        ghost var words := bitmap[..];
        var firstSetBit := TrailingZeros(bitmap[i]);
        FirstFree(bitmap[i]);
        assert forall k: nat | 8 * i <= k < 8 * i + 8 :: k / 8 == i && k % 8 == k - 8 * i;
        if firstSetBit != 64 {
          OneBit(firstSetBit);
          ClearBits(bitmap[i], Shl(1, firstSetBit));
          bitmap[i] := And(bitmap[i], Not(Shl(1, firstSetBit)));
          ClearTakes(words, i, firstSetBit, 1, bitmap[i]);
          assert bitmap[..] == words[i := bitmap[i]];
          LowestSingle(words, 8 * i + firstSetBit);
          return Ok(first + i * FRAMES_PER_WORD + firstSetBit);
        }
      }
      forall k: nat
        ensures !FreeRun(bitmap[..], k, 1)
      {
        assert !IsFree(bitmap[..], k);
      }
      return Err;
    }

    method AllocateMultipleFast(frameCount: nat) returns (r: Result)
      requires Valid() && frameCount > 1
      modifies bitmap
      ensures Valid()
      ensures r.Ok? ==>
                && r.frame >= first
                && LowestFastRun(old(bitmap[..]), r.frame - first, frameCount)
                && Takes(old(bitmap[..]), bitmap[..], r.frame - first, frameCount)
      ensures r.Err? ==> bitmap[..] == old(bitmap[..]) && forall k: nat :: !FastRun(bitmap[..], k, frameCount)
    {
      if frameCount > FRAMES_PER_WORD {
        return Err;
      }
      var mask := RunMask(frameCount);
      for i := 0 to bitmap.Length
        invariant bitmap[..] == old(bitmap[..])
        invariant forall k: nat | k < 8 * i :: !FastRun(bitmap[..], k, frameCount)
      {
        var slide := TrailingZeros(bitmap[i]);
        BelowFirst(bitmap[i], frameCount);
        while slide < FRAMES_PER_WORD - frameCount
          invariant bitmap[..] == old(bitmap[..])
          invariant forall b: nat | b < slide && b + frameCount < 8 :: !AllBits(bitmap[i], b, frameCount)
        {
          MaskMatches(bitmap[i], slide, frameCount);
          if And(Shr(bitmap[i], slide), mask) == mask {
            WordRuns(bitmap[..], i, frameCount);
            TakeRun(i, slide, frameCount);
            return Ok(first + i * FRAMES_PER_WORD + slide);
          }
          slide := slide + 1;
        }
        WordRuns(bitmap[..], i, frameCount);
      }
      NoRunsOutside(bitmap[..], frameCount);
      return Err;
    }

    /** Clears the run of bits found by the in-word search. */
    method TakeRun(w: nat, slide: nat, n: nat)
      requires Valid() && w < bitmap.Length && 0 < n && slide + n <= 8
      modifies bitmap
      ensures Valid() && Takes(old(bitmap[..]), bitmap[..], 8 * w + slide, n)
    {
      ghost var words := bitmap[..];
      MaskBound(slide, n);
      ClearBits(bitmap[w], Shl(RunMask(n), slide));
      bitmap[w] := And(bitmap[w], Not(Shl(RunMask(n), slide)));
      ClearTakes(words, w, slide, n, bitmap[w]);
      assert bitmap[..] == words[w := bitmap[w]];
    }

    /** Marks n frames one by one, as the slow path and `allocate_at` do. */
    method SetRun(start: nat, n: nat)
      requires Valid() && first <= start && start + n <= LastFrame()
      modifies bitmap
      ensures Valid() && Takes(old(bitmap[..]), bitmap[..], start - first, n)
    {
      ghost var words := bitmap[..];
      for i := 0 to n
        invariant Valid() && Takes(words, bitmap[..], start - first, i)
      {
        ghost var mid := bitmap[..];
        var ok := SetFrame(start + i, Allocated);
        TakesMore(words, mid, bitmap[..], start - first, i);
      }
    }

    /** The scan of the slow path, across word boundaries: the lowest start of a run, as word and bit. */
    method FindRun(frameCount: nat) returns (start: Option<(nat, nat)>)
      requires Valid() && frameCount > 1
      ensures start.Some? ==> LowestRun(bitmap[..], 8 * start.value.0 + start.value.1, frameCount)
      ensures start.None? ==> forall k: nat :: !FreeRun(bitmap[..], k, frameCount)
    {
      hide Scanned, FreeRun, LowestRun;
      var foundContiguousFrames := 0;
      start := None;
      ghost var words := bitmap[..];
      ScanStart(words, frameCount);
      for w := 0 to bitmap.Length
        invariant Scanned(words, 8 * w, frameCount, foundContiguousFrames, start)
      {
        for b := 0 to FRAMES_PER_WORD
          invariant Scanned(words, 8 * w + b, frameCount, foundContiguousFrames, start)
        {
          FrameBit(words, w, b);
          if And(Shr(bitmap[w], b), 1) == 1 {
            ScanFree(words, w, b, frameCount, foundContiguousFrames, start);
            if foundContiguousFrames == 0 {
              start := Some((w, b));
            }
            foundContiguousFrames := foundContiguousFrames + 1;
            if foundContiguousFrames == frameCount {
              return;
            }
          } else {
            ScanTaken(words, 8 * w + b, frameCount, foundContiguousFrames, start);
            foundContiguousFrames := 0;
            start := None;
          }
        }
      }
      ScanEnd(words, frameCount, foundContiguousFrames, start);
      start := None;
    }

    method AllocateMultipleSlow(frameCount: nat) returns (r: Result)
      requires Valid() && frameCount > 1
      modifies bitmap
      ensures Valid()
      ensures r.Ok? ==>
                && r.frame >= first
                && LowestRun(old(bitmap[..]), r.frame - first, frameCount)
                && Takes(old(bitmap[..]), bitmap[..], r.frame - first, frameCount)
      ensures r.Err? ==> bitmap[..] == old(bitmap[..]) && forall k: nat :: !FreeRun(bitmap[..], k, frameCount)
    {
      var found := FindRun(frameCount);
      if found.None? {
        return Err;
      }
      var start := first + found.value.0 * FRAMES_PER_WORD + found.value.1;
      RunInside(bitmap[..], start - first, frameCount);
      SetRun(start, frameCount);
      return Ok(start);
    }

    method AllocateContiguous(frameCount: nat) returns (r: Result)
      requires Valid()
      modifies bitmap
      ensures Valid()
      ensures frameCount == 0 ==> r == Ok(0) && bitmap[..] == old(bitmap[..])
      ensures frameCount > 0 ==> (r.Ok? <==> exists k: nat :: FreeRun(old(bitmap[..]), k, frameCount))
      ensures frameCount > 0 && r.Ok? ==>
                && r.frame >= first
                && FreeRun(old(bitmap[..]), r.frame - first, frameCount)
                && Takes(old(bitmap[..]), bitmap[..], r.frame - first, frameCount)
                && Chosen(old(bitmap[..]), r.frame - first, frameCount)
      ensures r.Err? ==> bitmap[..] == old(bitmap[..])
    {
      if frameCount == 0 {
        return Ok(0);
      }
      if frameCount == 1 {
        r := AllocateOne();
      } else {
        r := AllocateMultipleFast(frameCount);
        if r.Err? {
          r := AllocateMultipleSlow(frameCount);
        }
      }
    }

    /** Frees frame by frame; `false` is the panic on the first frame out of range. */
    method DeallocateContiguous(base: nat, frameCount: nat) returns (ok: bool)
      requires Valid() && frameCount > 0
      modifies bitmap
      ensures Valid()
      ensures ok <==> first <= base && base + frameCount <= LastFrame()
      ensures base >= first ==> Gives(old(bitmap[..]), bitmap[..], base - first, frameCount)
      ensures base < first ==> bitmap[..] == old(bitmap[..])
    {
      ghost var words := bitmap[..];
      for i := 0 to frameCount
        invariant Valid() && (i > 0 ==> first <= base && base + i <= LastFrame())
        invariant i == 0 ==> bitmap[..] == words
        invariant base >= first ==> Gives(words, bitmap[..], base - first, i)
      {
        ghost var mid := bitmap[..];
        ok := SetFrame(base + i, Free);
        if !ok {
          if base >= first {
            GivesNoMore(words, mid, base - first, i, frameCount);
          }
          return;
        }
        GivesMore(words, mid, bitmap[..], base - first, i);
      }
      return true;
    }

    /** Records an allocation made elsewhere; frames outside the range are ignored. */
    method Push(start: nat, end: nat)
      requires Valid()
      modifies bitmap
      ensures Valid()
      ensures forall j: nat ::
                IsFree(bitmap[..], j) <==> IsFree(old(bitmap[..]), j) && !(start <= first + j < end)
    {
      var frame := start;
      while frame < end
        invariant Valid()
        invariant forall j: nat ::
            IsFree(bitmap[..], j) <==> IsFree(old(bitmap[..]), j) && !(start <= first + j < frame && first + j < end)
        decreases end - frame
      {
        var _ := SetFrame(frame, Allocated);
        frame := frame + 1;
      }
    }

    /** Frees the frames of one region; `false` is the panic on a frame out of range. */
    method FreeRegion(start: nat, end: nat) returns (ok: bool)
      requires Valid()
      modifies bitmap
      ensures Valid()
      ensures ok <==> (start < end ==> first <= start && end <= LastFrame())
      ensures ok ==> forall j: nat ::
                  IsFree(bitmap[..], j) <==> IsFree(old(bitmap[..]), j) || start <= first + j < end
    {
      var frame := start;
      while frame < end
        invariant Valid() && (frame > start ==> first <= start && frame <= LastFrame() && frame <= end)
        invariant forall j: nat ::
            IsFree(bitmap[..], j) <==> IsFree(old(bitmap[..]), j) || (start <= first + j < frame && first + j < end)
        decreases end - frame
      {
        ok := SetFrame(frame, Free);
        if !ok {
          return;
        }
        frame := frame + 1;
      }
      return true;
    }

    method AllocateAt(frameCount: nat, addr: nat) returns (r: Result)
      requires Valid()
      modifies bitmap
      ensures Valid()
      ensures frameCount == 0 ==> r == Ok(0) && bitmap[..] == old(bitmap[..])
      ensures frameCount > 0 ==> (r.Ok? <==> addr >= first && FreeRun(old(bitmap[..]), addr - first, frameCount))
      ensures frameCount > 0 && r.Ok? ==>
                r.frame == addr && Takes(old(bitmap[..]), bitmap[..], addr - first, frameCount)
      ensures r.Err? ==> bitmap[..] == old(bitmap[..])
    {
      if frameCount == 0 {
        return Ok(0);
      }
      for i := 0 to frameCount
        invariant bitmap[..] == old(bitmap[..])
        invariant i > 0 ==> addr >= first && FreeRun(bitmap[..], addr - first, i)
      {
        var state := GetFrame(addr + i);
        if state != Some(Free) {
          assert addr >= first ==> !IsFree(bitmap[..], addr + i - first);
          return Err;
        }
      }
      RunInside(bitmap[..], addr - first, frameCount);
      SetRun(addr, frameCount);
      return Ok(addr);
    }
  }

  /** Which run an allocation gets: the lowest one its search can see. */
  ghost predicate Chosen(words: seq<u64>, k: nat, n: nat) {
    if n > 1 && exists j: nat :: FastRun(words, j, n) then LowestFastRun(words, k, n) else LowestRun(words, k, n)
  }

  lemma GivesNoMore(words: seq<u64>, mid: seq<u64>, k: nat, i: nat, n: nat)
    requires Gives(words, mid, k, i) && i <= n && 8 * |words| <= k + i
    ensures Gives(words, mid, k, n)
  {
  }

  datatype Region = Region(start: nat, end: nat)

  ghost predicate Covers(regions: seq<Region>, frame: nat) {
    exists i: nat :: i < |regions| && regions[i].start <= frame < regions[i].end
  }

  /**
   Builds the allocator for the frames [start, end) with the given free regions. `None` is the panic on
   a region frame out of range: the covered range is rounded down to whole words of 8 frames.
   */
  method NewAllocator(start: nat, end: nat, regions: seq<Region>) returns (r: Option<Allocator>)
    requires start <= end
    ensures r.Some? <==> forall i: nat | i < |regions| && regions[i].start < regions[i].end ::
                           start <= regions[i].start && regions[i].end <= start + (end - start) / 8 * 8
    ensures r.Some? ==> r.value.Valid() && r.value.first == start && r.value.bitmap.Length == (end - start) / 8
    ensures r.Some? ==> fresh(r.value) && fresh(r.value.bitmap)
    ensures r.Some? ==> forall j: nat :: IsFree(r.value.bitmap[..], j) <==> Covers(regions, start + j)
  {
    var a := new Allocator(start, end - start);
    for i := 0 to |regions|
      invariant a.Valid() && fresh(a.bitmap)
      invariant forall j: nat | j < i && regions[j].start < regions[j].end ::
          start <= regions[j].start && regions[j].end <= start + (end - start) / 8 * 8
      invariant forall j: nat :: IsFree(a.bitmap[..], j) <==> Covers(regions[..i], start + j)
    {
      var ok := a.FreeRegion(regions[i].start, regions[i].end);
      if !ok {
        return None;
      }
      forall j: nat
        ensures IsFree(a.bitmap[..], j) <==> Covers(regions[..i + 1], start + j)
      {
        CoversOneMore(regions, i, start + j);
      }
    }
    assert regions[..|regions|] == regions;
    return Some(a);
  }

  /** A region of nine frames fills the configured range, which covers only eight of them. */
  method LoseLastFrame() returns (r: Option<Allocator>)
    ensures r == None
  {
    r := NewAllocator(0, 9, [Region(0, 9)]);
    assert [Region(0, 9)][0] == Region(0, 9);
  }

  lemma CoversOneMore(regions: seq<Region>, i: nat, frame: nat)
    requires i < |regions|
    ensures Covers(regions[..i + 1], frame) <==>
            Covers(regions[..i], frame) || regions[i].start <= frame < regions[i].end
  {
    var more := regions[..i + 1];
    assert more[i] == regions[i] && forall j: nat | j < i :: more[j] == regions[..i][j];
  }

  /** The slow path has looked at the frames below pos: `count` free ones end there, and no run fits below. */
  ghost predicate Scanned(words: seq<u64>, pos: nat, n: nat, count: nat, start: Option<(nat, nat)>) {
    && pos <= 8 * |words| && count <= pos && count < n
    && (count > 0 ==> start.Some? && 8 * start.value.0 + start.value.1 == pos - count)
    && FreeRun(words, pos - count, count)
    && (pos > count ==> !IsFree(words, pos - count - 1))
    && (forall k: nat | k + n <= pos :: !FreeRun(words, k, n))
  }

  lemma RunInside(words: seq<u64>, k: nat, n: nat)
    requires FreeRun(words, k, n) && n > 0
    ensures k + n <= 8 * |words|
  {
    assert IsFree(words, k + n - 1);
  }

  lemma ScanStart(words: seq<u64>, n: nat)
    requires n > 0
    ensures Scanned(words, 0, n, 0, None)
  {
  }

  /** A free frame extends the run ending at it; the first time the run is long enough, it is the lowest. */
  lemma ScanFree(words: seq<u64>, w: nat, b: nat, n: nat, count: nat, start: Option<(nat, nat)>)
    requires Scanned(words, 8 * w + b, n, count, start) && IsFree(words, 8 * w + b)
    ensures var start' := if count == 0 then Some((w, b)) else start;
            && (count + 1 == n ==> start'.Some? && LowestRun(words, 8 * start'.value.0 + start'.value.1, n))
            && (count + 1 != n ==> Scanned(words, 8 * w + b + 1, n, count + 1, start'))
  {
    var pos := 8 * w + b;
    assert FreeRun(words, pos - count, count + 1);
    if count + 1 < n {
      forall k: nat | k + n == pos + 1
        ensures !FreeRun(words, k, n)
      {
        assert k <= pos - count - 1 < k + n;
      }
    }
  }

  lemma ScanTaken(words: seq<u64>, pos: nat, n: nat, count: nat, start: Option<(nat, nat)>)
    requires Scanned(words, pos, n, count, start) && pos < 8 * |words| && !IsFree(words, pos)
    ensures Scanned(words, pos + 1, n, 0, None)
  {
    forall k: nat | k + n == pos + 1
      ensures !FreeRun(words, k, n)
    {
      assert k <= pos < k + n;
    }
  }

  lemma ScanEnd(words: seq<u64>, n: nat, count: nat, start: Option<(nat, nat)>)
    requires Scanned(words, 8 * |words|, n, count, start)
    ensures forall k: nat :: !FreeRun(words, k, n)
  {
    forall k: nat | k + n > 8 * |words|
      ensures !FreeRun(words, k, n)
    {
      assert k <= k + n - 1 < k + n && !IsFree(words, k + n - 1);
    }
  }

  /** The shifted and masked bit the scan looks at. */
  lemma FrameBit(words: seq<u64>, w: nat, b: nat)
    requires w < |words| && b < 8
    ensures And(Shr(words[w], b), 1) == 1 <==> IsFree(words, 8 * w + b)
  {
    assert RunMask(1) == 1;
    MaskMatches(words[w], b, 1);
    assert (8 * w + b) / 8 == w && (8 * w + b) % 8 == b;
  }

  lemma LowestSingle(words: seq<u64>, k: nat)
    requires IsFree(words, k) && forall j: nat | j < k :: !IsFree(words, j)
    ensures LowestRun(words, k, 1)
  {
    forall j: nat | j < k
      ensures !FreeRun(words, j, 1)
    {
      assert !IsFree(words, j);
    }
  }

  /** What the search of one word says about the runs starting in it. */
  lemma WordRuns(words: seq<u64>, w: nat, n: nat)
    requires w < |words| && 0 < n <= 8
    ensures forall b: nat | b + n <= 8 :: AllBits(words[w], b, n) <==> FreeRun(words, 8 * w + b, n)
    ensures forall k: nat | 8 * w <= k < 8 * w + 8 && FastRun(words, k, n) :: AllBits(words[w], k - 8 * w, n)
  {
    forall b: nat | b + n <= 8
      ensures AllBits(words[w], b, n) <==> FreeRun(words, 8 * w + b, n)
    {
      if AllBits(words[w], b, n) {
        forall j | 8 * w + b <= j < 8 * w + b + n
          ensures IsFree(words, j)
        {
          assert j / 8 == w && j % 8 == j - 8 * w;
        }
      }
      if FreeRun(words, 8 * w + b, n) {
        forall i | b <= i < b + n
          ensures Bit(words[w], i)
        {
          assert IsFree(words, 8 * w + i);
          assert (8 * w + i) / 8 == w && (8 * w + i) % 8 == i;
        }
      }
    }
    forall k: nat | 8 * w <= k < 8 * w + 8 && FastRun(words, k, n)
      ensures AllBits(words[w], k - 8 * w, n)
    {
      assert k % 8 == k - 8 * w;
    }
  }

  lemma NoRunsOutside(words: seq<u64>, n: nat)
    requires n > 0 && forall k: nat | k < 8 * |words| :: !FastRun(words, k, n)
    ensures forall k: nat :: !FastRun(words, k, n)
  {
    forall k: nat | k >= 8 * |words|
      ensures !FastRun(words, k, n)
    {
      assert !IsFree(words, k);
    }
  }
}
