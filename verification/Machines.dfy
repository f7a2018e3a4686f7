/**
 Physical memory together with the firmware's page allocator. The firmware is an arbitrary script of
 answers: each request consumes one, and an answer that is not a fresh, aligned, non-null block of the
 requested size counts as a refusal. A granted frame holds whatever words the script says it holds.
 */
module Machines {
  import opened Bits
  import opened Options
  import opened PageEntry
  import opened PageTree

  datatype Result<+T> = Ok(value: T) | Err(error: nat) {
    function Refusal(): Option<nat> { if Ok? then None else Some(error) }
  }

  datatype Answer = Refuse(error: nat) | Grant(base: u64, contents: seq<seq<u64>>)

  const OUT_OF_RESOURCES: nat := 9

  /** End of the physical address space a page-table entry can name. */
  const PHYSICAL_LIMIT: nat := 0x10_0000_0000_0000

  /** The frames of a block of `count` pages at an aligned base. */
  function Block(base: nat, count: nat): set<u64> {
    set f: u64 | base <= f < base + count * PAGE_SIZE && f % PAGE_SIZE == 0
  }

  lemma SingleBlock(base: u64)
    requires base % PAGE_SIZE == 0
    ensures Block(base, 1) == {base}
  {
    forall f: u64 | f in Block(base, 1)
      ensures f == base
    {
      assert f / PAGE_SIZE == base / PAGE_SIZE;
    }
  }

  predicate Acceptable(mem: Memory, count: nat, limit: nat, base: u64, contents: seq<seq<u64>>) {
    && base % PAGE_SIZE == 0 && base > 0
    && base + count * PAGE_SIZE <= limit
    && |contents| == count
    && (forall i: nat | i < count :: |contents[i]| == 512)
    && (forall f | f in mem :: !(base <= f < base + count * PAGE_SIZE))
  }

  predicate Framed(mem: Memory) {
    forall f | f in mem :: f % PAGE_SIZE == 0 && 0 < f < PHYSICAL_LIMIT && |mem[f]| == 512
  }

  /** Memory after a grant: the new frames with their arbitrary contents, everything else as before. */
  ghost predicate Granted(mem: Memory, mem': Memory, base: nat, count: nat) {
    && base % PAGE_SIZE == 0 && 0 < base && base + count * PAGE_SIZE <= PHYSICAL_LIMIT
    && mem'.Keys == mem.Keys + Block(base, count)
    && (forall f | f in mem :: mem'[f] == mem[f])
    && mem.Keys !! Block(base, count)
  }

  // ---------- what the firmware's answers amount to ----------

  /** A request for so many pages, ending at or below an address. */
  datatype Ask = Ask(count: nat, top: nat)

  /** The frames in use and the answers still to come. */
  datatype Stock = Stock(used: set<u64>, answers: seq<Answer>)

  function Rest(answers: seq<Answer>): seq<Answer> {
    if answers == [] then [] else answers[1..]
  }

  /** The next answer grants the request: an aligned, non-null block of frames not in use, below the top. */
  predicate Honours(stock: Stock, ask: Ask) {
    && stock.answers != [] && stock.answers[0].Grant?
    && stock.answers[0].base % 4096 == 0 && stock.answers[0].base > 0
    && stock.answers[0].base + 4096 * ask.count <= ask.top
    && (forall f | f in stock.used :: f < stock.answers[0].base || stock.answers[0].base + 4096 * ask.count <= f)
    && |stock.answers[0].contents| == ask.count
    && (forall i: nat | i < ask.count :: |stock.answers[0].contents[i]| == 512)
  }

  function Honoured(stock: Stock, ask: Ask): Stock
    requires Honours(stock, ask)
  {
    Stock(stock.used + Block(stock.answers[0].base, ask.count), stock.answers[1..])
  }

  /** What is left after a series of requests; `None` if one of them is not granted. */
  function Supply(stock: Stock, asks: seq<Ask>): Option<Stock> {
    if asks == [] then Some(stock)
    else
      match Supply(stock, asks[..|asks| - 1])
      case None => None
      case Some(left) =>
        var last := asks[|asks| - 1];
        if Honours(left, last) then Some(Honoured(left, last)) else None
  }

  lemma {:induction false} SupplyMore(stock: Stock, asks: seq<Ask>, more: seq<Ask>)
    ensures Supply(stock, asks + more) ==
            match Supply(stock, asks) case None => None case Some(left) => Supply(left, more)
  {
    if more == [] {
      assert asks + more == asks;
    } else {
      var k := |more| - 1;
      SupplyMore(stock, asks, more[..k]);
      assert (asks + more)[..|asks| + k] == asks + more[..k];
    }
  }

  lemma SupplyOne(stock: Stock, ask: Ask)
    ensures Supply(stock, [ask]) == if Honours(stock, ask) then Some(Honoured(stock, ask)) else None
  {
    assert Supply(stock, [ask][..0]) == Some(stock);
  }

  /** n requests for one frame anywhere in physical memory. */
  function Ones(n: nat): seq<Ask> {
    seq(n, _ => Ask(1, 0x10_0000_0000_0000))
  }

  lemma OnesAdd(m: nat, n: nat)
    ensures Ones(m + n) == Ones(m) + Ones(n)
  {
  }

  /** If n frames can be had, so can fewer. */
  lemma FewerOnes(stock: Stock, m: nat, n: nat)
    requires m <= n && Supply(stock, Ones(n)).Some?
    ensures Supply(stock, Ones(m)).Some?
  {
    OnesAdd(m, n - m);
    SupplyMore(stock, Ones(m), Ones(n - m));
  }

  /** The error of a request that was not granted: the firmware's own, if it gave one. */
  predicate FailsWith(stock: Stock, ask: Ask, error: nat) {
    !Honours(stock, ask) && (stock.answers != [] && stock.answers[0].Refuse? ==> error == stock.answers[0].error)
  }

  /** Frames were asked for one at a time, each granted and kept, up to one that was refused if any was. */
  ghost predicate Served(before: Stock, after: Stock, refusal: Option<nat>) {
    |before.used| <= |after.used| &&
    match Supply(before, Ones(|after.used| - |before.used|))
    case None => false
    case Some(left) =>
      left.used == after.used &&
      match refusal
      case None => after.answers == left.answers
      case Some(e) => FailsWith(left, Ask(1, 0x10_0000_0000_0000), e) && after.answers == Rest(left.answers)
  }

  lemma NothingServed(stock: Stock)
    ensures Served(stock, stock, None)
  {
    assert Ones(0) == [];
  }

  lemma ServedThen(a: Stock, b: Stock, c: Stock, refusal: Option<nat>)
    requires Served(a, b, None) && Served(b, c, refusal)
    ensures Served(a, c, refusal)
  {
    hide FailsWith, Supply, Ones;
    var m, n := |b.used| - |a.used|, |c.used| - |b.used|;
    OnesAdd(m, n);
    SupplyMore(a, Ones(m), Ones(n));
  }

  /** A refusal leaves one frame fewer than could be asked for. */
  lemma ServedShort(before: Stock, after: Stock, error: nat, n: nat)
    requires Served(before, after, Some(error)) && |after.used| < |before.used| + n
    ensures Supply(before, Ones(n)).None?
  {
    hide Supply, Honours, Ones;
    var m := |after.used| - |before.used|;
    OneMore(before, m);
    if Supply(before, Ones(n)).Some? {
      FewerOnes(before, m + 1, n);
    }
  }

  lemma OneMore(stock: Stock, m: nat)
    requires Supply(stock, Ones(m)).Some?
    ensures Supply(stock, Ones(m + 1)).Some? <==>
            Honours(Supply(stock, Ones(m)).value, Ask(1, 0x10_0000_0000_0000))
  {
    hide Supply, Honours;
    OnesAdd(m, 1);
    SupplyMore(stock, Ones(m), Ones(1));
    assert Ones(1) == [Ask(1, 0x10_0000_0000_0000)];
    SupplyOne(Supply(stock, Ones(m)).value, Ask(1, 0x10_0000_0000_0000));
  }

  /** Memory with a new block of the given contents. */
  function Install(mem: Memory, base: u64, contents: seq<seq<u64>>): Memory {
    mem + map f: u64 | base <= f < base + |contents| * PAGE_SIZE && f % PAGE_SIZE == 0 && base % PAGE_SIZE == 0 ::
      contents[(f - base) / PAGE_SIZE]
  }

  lemma Installed(mem: Memory, count: nat, limit: nat, base: u64, contents: seq<seq<u64>>)
    requires Framed(mem) && Acceptable(mem, count, limit, base, contents) && limit <= PHYSICAL_LIMIT
    ensures var mem' := Install(mem, base, contents);
            && Framed(mem') && Granted(mem, mem', base, count)
            && forall i: nat | i < count :: base + i * PAGE_SIZE in mem' && mem'[base + i * PAGE_SIZE] == contents[i]
  {
  }

  class Machine {
    var memory: Memory
    var answers: seq<Answer>
    var refusals: nat

    constructor (answers: seq<Answer>)
      ensures this.answers == answers && memory == map[] && refusals == 0
    {
      this.memory := map[];
      this.refusals := 0;
      this.answers := answers;
    }

    function Stocked(): Stock
      reads this
    {
      Stock(memory.Keys, answers)
    }

    method Allocate(count: nat, limit: nat) returns (r: Result<u64>)
      requires Framed(memory) && limit <= PHYSICAL_LIMIT
      modifies this
      ensures Framed(memory)
      ensures r.Ok? <==> Honours(old(Stocked()), Ask(count, limit))
      ensures r.Ok? ==> Stocked() == Honoured(old(Stocked()), Ask(count, limit))
      ensures r.Err? ==> memory == old(memory)
      ensures r.Err? ==> FailsWith(old(Stocked()), Ask(count, limit), r.error)
      ensures refusals == if r.Ok? then old(refusals) else old(refusals) + 1
      ensures r.Ok? ==> r.value == old(answers)[0].base && forall i: nat | i < count ::
                  r.value + i * PAGE_SIZE in memory && memory[r.value + i * PAGE_SIZE] == old(answers)[0].contents[i]
      ensures r.Ok? ==> Granted(old(memory), memory, r.value, count) && r.value + count * PAGE_SIZE <= limit
      ensures answers == Rest(old(answers))
    {
      hide Install, Granted, Framed, Block;
      if answers == [] {
        refusals := refusals + 1;
        return Err(OUT_OF_RESOURCES);
      }
      var answer := answers[0];
      answers := answers[1..];
      match answer {
        case Refuse(error) =>
          refusals := refusals + 1;
          return Err(error);
        case Grant(base, contents) =>
          if !Acceptable(memory, count, limit, base, contents) {
            refusals := refusals + 1;
            return Err(OUT_OF_RESOURCES);
          }
          Installed(memory, count, limit, base, contents);
          memory := Install(memory, base, contents);
          return Ok(base);
      }
    }
  }
}
