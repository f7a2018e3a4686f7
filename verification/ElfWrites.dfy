/** Series of 64-bit writes into a file image, and when their order or repetition does not matter. */
module ElfWrites {
  import opened Bits
  import opened LittleEndian
  import opened ElfAddress

  datatype Put = Put(off: nat, value: u64) {
    predicate Covers(a: nat) { off <= a < off + 8 }
  }

  predicate AllInside(puts: seq<Put>, len: nat) {
    forall i: nat | i < |puts| :: puts[i].off + 8 <= len
  }

  /** The image after all the writes, in order. */
  function Written(bytes: seq<u8>, puts: seq<Put>): (r: seq<u8>)
    requires AllInside(puts, |bytes|)
    ensures |r| == |bytes|
  {
    if puts == [] then bytes
    else
      var k := |puts| - 1;
      Write64(Written(bytes, puts[..k]), puts[k].off, puts[k].value)
  }

  predicate Touched(puts: seq<Put>, a: nat) {
    exists i: nat | i < |puts| :: puts[i].Covers(a)
  }

  /** The byte at a after the writes: from the last one covering it, else the old byte. */
  function LastByte(puts: seq<Put>, a: nat, byte: u8): u8 {
    if puts == [] then byte
    else
      var last := puts[|puts| - 1];
      if last.Covers(a) then ToBytes(last.value, 8)[a - last.off] else LastByte(puts[..|puts| - 1], a, byte)
  }

  lemma {:induction false} WrittenByte(bytes: seq<u8>, puts: seq<Put>, a: nat)
    requires AllInside(puts, |bytes|) && a < |bytes|
    ensures Written(bytes, puts)[a] == LastByte(puts, a, bytes[a])
    decreases |puts|
  {
    if puts == [] {
    } else {
      var k := |puts| - 1;
      WrittenByte(bytes, puts[..k], a);
    }
  }

  lemma {:induction false} UntouchedByte(puts: seq<Put>, a: nat, x: u8)
    requires !Touched(puts, a)
    ensures LastByte(puts, a, x) == x
    decreases |puts|
  {
    if puts == [] {
    } else {
      assert !puts[|puts| - 1].Covers(a);
      assert !Touched(puts[..|puts| - 1], a);
      UntouchedByte(puts[..|puts| - 1], a, x);
    }
  }

  lemma {:induction false} TouchedByte(puts: seq<Put>, a: nat, x: u8, y: u8)
    requires Touched(puts, a)
    ensures LastByte(puts, a, x) == LastByte(puts, a, y)
    decreases |puts|
  {
    var k := |puts| - 1;
    if puts[k].Covers(a) {
    } else {
      var i: nat :| i < |puts| && puts[i].Covers(a);
      assert puts[..k][i].Covers(a);
      TouchedByte(puts[..k], a, x, y);
    }
  }

  /** Bytes outside every write are untouched. */
  lemma OutsideUntouched(bytes: seq<u8>, puts: seq<Put>, a: nat)
    requires AllInside(puts, |bytes|) && a < |bytes| && !Touched(puts, a)
    ensures Written(bytes, puts)[a] == bytes[a]
  {
    WrittenByte(bytes, puts, a);
    UntouchedByte(puts, a, bytes[a]);
  }

  predicate SameOffsets(ps: seq<Put>, qs: seq<Put>) {
    |ps| == |qs| && forall i: nat | i < |ps| :: ps[i].off == qs[i].off
  }

  /** Writing the same places again makes the first round invisible. */
  lemma SecondRoundWins(bytes: seq<u8>, ps: seq<Put>, qs: seq<Put>)
    requires AllInside(ps, |bytes|) && AllInside(qs, |bytes|) && SameOffsets(ps, qs)
    ensures Written(Written(bytes, ps), qs) == Written(bytes, qs)
  {
    forall a: nat | a < |bytes|
      ensures Written(Written(bytes, ps), qs)[a] == Written(bytes, qs)[a]
    {
      WrittenByte(Written(bytes, ps), qs, a);
      WrittenByte(bytes, qs, a);
      if Touched(qs, a) {
        TouchedByte(qs, a, Written(bytes, ps)[a], bytes[a]);
      } else {
        assert !Touched(ps, a) by {
          if i: nat :| i < |ps| && ps[i].Covers(a) {
            assert qs[i].Covers(a);
          }
        }
        OutsideUntouched(bytes, ps, a);
      }
    }
  }

  predicate Apart(p: Put, q: Put) {
    p.off + 8 <= q.off || q.off + 8 <= p.off
  }

  predicate Disjoint(ps: seq<Put>, qs: seq<Put>) {
    forall i: nat, j: nat | i < |ps| && j < |qs| :: Apart(ps[i], qs[j])
  }

  /** Writes to disjoint places commute. */
  lemma DisjointCommute(bytes: seq<u8>, ps: seq<Put>, qs: seq<Put>)
    requires AllInside(ps, |bytes|) && AllInside(qs, |bytes|) && Disjoint(ps, qs)
    ensures Written(Written(bytes, ps), qs) == Written(Written(bytes, qs), ps)
  {
    forall a: nat | a < |bytes|
      ensures Written(Written(bytes, ps), qs)[a] == Written(Written(bytes, qs), ps)[a]
    {
      WrittenByte(Written(bytes, ps), qs, a);
      WrittenByte(Written(bytes, qs), ps, a);
      WrittenByte(bytes, ps, a);
      WrittenByte(bytes, qs, a);
      if Touched(ps, a) {
        assert !Touched(qs, a);
        UntouchedByte(qs, a, Written(bytes, ps)[a]);
        TouchedByte(ps, a, Written(bytes, qs)[a], bytes[a]);
      } else {
        UntouchedByte(ps, a, Written(bytes, qs)[a]);
        UntouchedByte(ps, a, bytes[a]);
      }
    }
  }

  /** A slot holds what the last entry for it wrote. */
  lemma LastEntryHolds(bytes: seq<u8>, puts: seq<Put>, i: nat)
    requires AllInside(puts, |bytes|) && i < |puts|
    requires forall j: nat | i < j < |puts| :: Apart(puts[i], puts[j])
    ensures Read64(Written(bytes, puts), puts[i].off) == puts[i].value
  {
    hide Written, LastByte, ToBytes, FromBytes;
    var p, r := puts[i], Written(bytes, puts);
    forall k: nat | k < 8
      ensures r[p.off + k] == ToBytes(p.value, 8)[k]
    {
      WrittenByte(bytes, puts, p.off + k);
      LastCover(puts, i, p.off + k, bytes[p.off + k]);
    }
    assert r[p.off..p.off + 8] == ToBytes(p.value, 8);
    Powers();
    NumberRoundTrip(p.value, 8);
  }

  lemma {:induction false} LastCover(puts: seq<Put>, i: nat, a: nat, x: u8)
    requires i < |puts| && puts[i].Covers(a) && forall j: nat | i < j < |puts| :: !puts[j].Covers(a)
    ensures LastByte(puts, a, x) == ToBytes(puts[i].value, 8)[a - puts[i].off]
    decreases |puts|
  {
    if i == |puts| - 1 {
    } else {
      LastCover(puts[..|puts| - 1], i, a, x);
    }
  }

  lemma WrittenOneMore(bytes: seq<u8>, puts: seq<Put>, p: Put)
    requires AllInside(puts, |bytes|) && p.off + 8 <= |bytes|
    ensures Written(bytes, puts + [p]) == Write64(Written(bytes, puts), p.off, p.value)
  {
    assert (puts + [p])[..|puts|] == puts;
  }
}
