/** Physical memory seen byte by byte; a table word is eight little-endian bytes. */
module PhysicalBytes {
  import opened Bits
  import opened LittleEndian
  import opened PageEntry
  import opened PageTree
  import opened Machines

  function FrameOf(a: nat): nat {
    a - a % PAGE_SIZE
  }

  predicate Backed(mem: Memory, a: nat) {
    FrameOf(a) in mem && |mem[FrameOf(a)]| == 512
  }

  function ByteAt(mem: Memory, a: nat): u8
    requires Backed(mem, a)
  {
    ToBytes(mem[FrameOf(a)][a % PAGE_SIZE / 8], 8)[a % 8]
  }

  function SetByte(word: u64, k: nat, b: u8): u64
    requires k < 8
  {
    Word(ToBytes(word, 8)[k := b])
  }

  function PutByte(words: seq<u64>, i: nat, b: u8): seq<u64>
    requires |words| == 512 && i < PAGE_SIZE
  {
    words[i / 8 := SetByte(words[i / 8], i % 8, b)]
  }

  function WriteByte(mem: Memory, a: nat, b: u8): Memory
    requires Backed(mem, a)
  {
    mem[FrameOf(a) := PutByte(mem[FrameOf(a)], a % PAGE_SIZE, b)]
  }

  /** Writing a byte changes that byte and no other. */
  lemma WriteThenRead(mem: Memory, a: nat, b: u8, c: nat)
    requires Backed(mem, a) && Backed(mem, c)
    ensures ByteAt(WriteByte(mem, a, b), c) == if c == a then b else ByteAt(mem, c)
  {
    var word := mem[FrameOf(a)][a % PAGE_SIZE / 8];
    BytesRoundTrip(ToBytes(word, 8)[a % 8 := b]);
    if FrameOf(c) == FrameOf(a) {
      SplitAddress(a);
      SplitAddress(c);
    }
  }

  /** Which bits of which word of its page a byte is. */
  lemma ByteOfWord(mem: Memory, a: nat)
    requires Backed(mem, a)
    ensures a / 4096 * 4096 in mem && |mem[a / 4096 * 4096]| == 512
    ensures ByteAt(mem, a) == mem[a / 4096 * 4096][a / 8 % 512] / Pow2(8 * (a % 8)) % 256
  {
    hide ToBytes, Pow2;
    WordOf(a);
    ByteIs(mem[FrameOf(a)][a % PAGE_SIZE / 8], 8, a % 8);
  }

  lemma WordOf(a: nat)
    ensures FrameOf(a) == a / 4096 * 4096 && a % PAGE_SIZE / 8 == a / 8 % 512
  {
    var q := a / 4096;
    assert a == 4096 * q + a % 4096;
    assert a / 8 == 512 * q + a % 4096 / 8;
  }

  lemma SplitAddress(a: nat)
    ensures a == FrameOf(a) + 8 * (a % PAGE_SIZE / 8) + a % 8
  {
    assert a % PAGE_SIZE % 8 == a % 8;
  }

  /** The bytes from dst on became `bytes`; nothing else changed, inside the block or outside. */
  ghost predicate Wrote(mem: Memory, mem': Memory, base: nat, count: nat, dst: nat, bytes: seq<u8>) {
    && mem'.Keys == mem.Keys
    && (forall f | f in mem && f !in Block(base, count) :: mem'[f] == mem[f])
    && (forall a: nat | base <= a < base + count * PAGE_SIZE :: Backed(mem, a) && Backed(mem', a))
    && (forall a: nat | base <= a < base + count * PAGE_SIZE ::
          ByteAt(mem', a) == if dst <= a < dst + |bytes| then bytes[a - dst] else ByteAt(mem, a))
  }

  lemma BlockBacked(mem: Memory, base: nat, count: nat, a: nat)
    requires Framed(mem) && Block(base, count) <= mem.Keys && base % PAGE_SIZE == 0
    requires base <= a < base + count * PAGE_SIZE && base + count * PAGE_SIZE <= PHYSICAL_LIMIT
    ensures Backed(mem, a) && FrameOf(a) in Block(base, count)
  {
    var f: u64 := FrameOf(a);
    assert f % PAGE_SIZE == 0;
    assert base <= f;
  }

  lemma WroteNothing(mem: Memory, base: nat, count: nat, dst: nat)
    requires Framed(mem) && Block(base, count) <= mem.Keys && base % PAGE_SIZE == 0
    requires base + count * PAGE_SIZE <= PHYSICAL_LIMIT
    ensures Wrote(mem, mem, base, count, dst, [])
  {
    forall a: nat | base <= a < base + count * PAGE_SIZE
      ensures Backed(mem, a)
    {
      BlockBacked(mem, base, count, a);
    }
  }

  lemma WroteMore(mem: Memory, mid: Memory, base: nat, count: nat, dst: nat, bytes: seq<u8>, b: u8)
    requires Framed(mid) && Block(base, count) <= mid.Keys && base % PAGE_SIZE == 0
    requires base <= dst && dst + |bytes| < base + count * PAGE_SIZE <= PHYSICAL_LIMIT
    requires Wrote(mem, mid, base, count, dst, bytes)
    ensures Backed(mid, dst + |bytes|)
    ensures Framed(WriteByte(mid, dst + |bytes|, b)) && WriteByte(mid, dst + |bytes|, b).Keys == mid.Keys
    ensures Wrote(mem, WriteByte(mid, dst + |bytes|, b), base, count, dst, bytes + [b])
  {
    var a := dst + |bytes|;
    var mem' := WriteByte(mid, a, b);
    BlockBacked(mid, base, count, a);
    assert mem'.Keys == mid.Keys;
    forall c: nat | base <= c < base + count * PAGE_SIZE
      ensures Backed(mem', c)
      ensures ByteAt(mem', c) == if dst <= c < dst + |bytes| + 1 then (bytes + [b])[c - dst] else ByteAt(mem, c)
    {
      WriteThenRead(mid, a, b, c);
    }
  }

  /** `copy_nonoverlapping` and `write_bytes` into a granted block. */
  method WriteBytes(machine: Machine, dst: nat, bytes: seq<u8>, ghost base: nat, ghost count: nat)
    requires Framed(machine.memory) && Block(base, count) <= machine.memory.Keys && base % PAGE_SIZE == 0
    requires base <= dst && dst + |bytes| <= base + count * PAGE_SIZE <= PHYSICAL_LIMIT
    modifies machine`memory
    ensures Framed(machine.memory)
    ensures Wrote(old(machine.memory), machine.memory, base, count, dst, bytes)
  {
    hide Wrote, WriteByte;
    ghost var before := machine.memory;
    WroteNothing(before, base, count, dst);
    for i := 0 to |bytes|
      invariant Framed(machine.memory) && machine.memory.Keys == before.Keys
      invariant Wrote(before, machine.memory, base, count, dst, bytes[..i])
    {
      WroteMore(before, machine.memory, base, count, dst, bytes[..i], bytes[i]);
      assert bytes[..i + 1] == bytes[..i] + [bytes[i]];
      machine.memory := WriteByte(machine.memory, dst + i, bytes[i]);
    }
    assert bytes[..|bytes|] == bytes;
  }
}
