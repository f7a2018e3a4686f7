/** Whole runs of the frame allocator: what any series of requests keeps. */
module BitmapRuns {
  import opened Bits
  import opened BitmapSpec
  import opened BitmapAllocator

  datatype Block = Block(base: nat, size: nat)

  datatype Op = Allocate(n: nat) | AllocateAt(n: nat, addr: nat) | Release(index: nat)

  /** What a request answered: the frame it gave, that memory was short, or what became of a release. */
  datatype Reply = Given(frame: nat) | Short | Released | NotLive

  predicate InBlock(b: Block, f: nat) {
    b.base <= f < b.base + b.size
  }

  ghost function Frames(b: Block): set<nat> {
    set f: nat | f < b.base + b.size && InBlock(b, f)
  }

  predicate IsFreeFrame(first: nat, words: seq<u64>, f: nat) {
    first <= f && IsFree(words, f - first)
  }

  ghost function FreeFrames(first: nat, words: seq<u64>): set<nat> {
    set f: nat | f < first + 8 * |words| && IsFreeFrame(first, words, f)
  }

  ghost predicate Held(live: seq<Block>, f: nat) {
    exists i: nat :: i < |live| && f in Frames(live[i])
  }

  function Total(live: seq<Block>): nat {
    if live == [] then 0 else Total(live[..|live| - 1]) + live[|live| - 1].size
  }

  /** The live blocks are pairwise disjoint and, with the free frames, partition the initially free ones. */
  ghost predicate Partition(initial: set<nat>, free: set<nat>, live: seq<Block>) {
    && (forall i: nat, j: nat | i < j < |live| :: Frames(live[i]) !! Frames(live[j]))
    && (forall i: nat | i < |live| :: Frames(live[i]) !! free)
    && (forall f: nat :: f in initial <==> f in free || Held(live, f))
    && |free| + Total(live) == |initial|
  }

  lemma {:induction false} FramesCount(b: Block)
    ensures |Frames(b)| == b.size
    decreases b.size
  {
    if b.size == 0 {
      assert Frames(b) == {};
    } else {
      var less := Block(b.base, b.size - 1);
      FramesCount(less);
      assert Frames(b) == Frames(less) + {b.base + b.size - 1};
    }
  }

  lemma {:induction false} TotalWithout(live: seq<Block>, i: nat)
    requires i < |live|
    ensures Total(Without(live, i)) == Total(live) - live[i].size
    decreases |live|
  {
    var k := |live| - 1;
    if i == k {
      assert live[..i] + live[i + 1..] == live[..k];
    } else {
      TotalWithout(live[..k], i);
      assert (live[..i] + live[i + 1..])[..k - 1] == live[..k][..i] + live[..k][i + 1..];
      assert (live[..i] + live[i + 1..])[k - 1] == live[k];
    }
  }

  /** Moving a free block to the live ones keeps the partition. */
  lemma TakeKeeps(initial: set<nat>, free: set<nat>, live: seq<Block>, b: Block)
    requires Partition(initial, free, live) && Frames(b) <= free
    ensures Partition(initial, free - Frames(b), live + [b])
  {
    var more := live + [b];
    FramesCount(b);
    assert more[..|live|] == live;
    forall f: nat
      ensures Held(more, f) <==> Held(live, f) || f in Frames(b)
    {
      if f in Frames(b) { assert f in Frames(more[|live|]); }
      if Held(live, f) {
        var i: nat :| i < |live| && f in Frames(live[i]);
        assert f in Frames(more[i]);
      }
    }
  }

  function Without(live: seq<Block>, i: nat): (less: seq<Block>)
    requires i < |live|
    ensures |less| == |live| - 1
    ensures forall j: nat | j < |less| :: less[j] == live[if j < i then j else j + 1]
  {
    live[..i] + live[i + 1..]
  }

  lemma HeldWithout(live: seq<Block>, i: nat, f: nat)
    requires i < |live|
    ensures Held(live, f) <==> Held(Without(live, i), f) || f in Frames(live[i])
  {
    var less := Without(live, i);
    if Held(live, f) {
      var j: nat :| j < |live| && f in Frames(live[j]);
      if j != i { assert f in Frames(less[if j < i then j else j - 1]); }
    }
    if Held(less, f) {
      var j: nat :| j < |less| && f in Frames(less[j]);
      assert f in Frames(live[if j < i then j else j + 1]);
    }
  }

  lemma DisjointWithout(initial: set<nat>, free: set<nat>, live: seq<Block>, i: nat)
    requires Partition(initial, free, live) && i < |live|
    ensures var less := Without(live, i);
            && (forall j: nat, k: nat | j < k < |less| :: Frames(less[j]) !! Frames(less[k]))
            && (forall j: nat | j < |less| :: Frames(less[j]) !! free + Frames(live[i]))
  {
    var less := Without(live, i);
    forall j: nat | j < |less|
      ensures Frames(less[j]) !! free + Frames(live[i])
    {
      var j' := if j < i then j else j + 1;
      assert Frames(live[j']) !! Frames(live[i]);
    }
  }

  /** Moving a live block back to the free frames keeps the partition. */
  lemma GiveKeeps(initial: set<nat>, free: set<nat>, live: seq<Block>, i: nat)
    requires Partition(initial, free, live) && i < |live|
    ensures Partition(initial, free + Frames(live[i]), Without(live, i))
  {
    hide Total, Frames;
    FramesCount(live[i]);
    TotalWithout(live, i);
    DisjointWithout(initial, free, live, i);
    forall f: nat
      ensures f in initial <==> f in free + Frames(live[i]) || Held(Without(live, i), f)
    {
      HeldWithout(live, i, f);
    }
  }

  lemma TakeFrames(first: nat, words: seq<u64>, words': seq<u64>, k: nat, n: nat)
    requires FreeRun(words, k, n) && Takes(words, words', k, n)
    ensures Frames(Block(first + k, n)) <= FreeFrames(first, words)
    ensures FreeFrames(first, words') == FreeFrames(first, words) - Frames(Block(first + k, n))
  {
    forall f | f in Frames(Block(first + k, n))
      ensures f in FreeFrames(first, words)
    {
      assert IsFree(words, f - first);
    }
    forall f: nat
      ensures f in FreeFrames(first, words') <==> f in FreeFrames(first, words) && f !in Frames(Block(first + k, n))
    {
      if f >= first {
        assert IsFree(words', f - first) <==> IsFree(words, f - first) && !(k <= f - first < k + n);
      }
    }
  }

  lemma GiveFrames(first: nat, words: seq<u64>, words': seq<u64>, k: nat, n: nat)
    requires Gives(words, words', k, n) && k + n <= 8 * |words|
    ensures FreeFrames(first, words') == FreeFrames(first, words) + Frames(Block(first + k, n))
  {
    forall f: nat
      ensures f in FreeFrames(first, words') <==> f in FreeFrames(first, words) || f in Frames(Block(first + k, n))
    {
      if f >= first {
        assert IsFree(words', f - first) <==> IsFree(words, f - first) || k <= f - first < k + n;
      }
    }
  }

  predicate Within(a: Allocator, b: Block) {
    a.first <= b.base && b.base + b.size <= a.LastFrame()
  }

  // ---------- what a run of requests means ----------

  /** The live blocks after one more request, from its answer alone. */
  function Applied(live: seq<Block>, op: Op, reply: Reply): seq<Block> {
    match (op, reply)
    case (Allocate(n), Given(frame)) => if n == 0 then live else live + [Block(frame, n)]
    case (AllocateAt(n, _), Given(frame)) => if n == 0 then live else live + [Block(frame, n)]
    case (Release(i), Released) => if i < |live| then Without(live, i) else live
    case _ => live
  }

  function LiveAfter(ops: seq<Op>, replies: seq<Reply>): seq<Block>
    requires |ops| == |replies|
  {
    if ops == [] then []
    else
      var k := |ops| - 1;
      Applied(LiveAfter(ops[..k], replies[..k]), ops[k], replies[k])
  }

  /** How many frames a request took from the free ones. */
  function Change(live: seq<Block>, op: Op, reply: Reply): int {
    match (op, reply)
    case (Allocate(n), Given(_)) => n
    case (AllocateAt(n, _), Given(_)) => n
    case (Release(i), Released) => if i < |live| then 0 - live[i].size else 0
    case _ => 0
  }

  /** Every frame of the block was free at the start and belongs to no live block. */
  ghost predicate Available(initial: set<nat>, live: seq<Block>, b: Block) {
    forall f: nat | InBlock(b, f) :: f in initial && !Held(live, f)
  }

  /** The answer is the one the free frames call for. */
  ghost predicate Answered(initial: set<nat>, live: seq<Block>, op: Op, reply: Reply) {
    match op
    case Allocate(n) =>
      if n == 0 then reply == Given(0)
      else if reply.Given? then Available(initial, live, Block(reply.frame, n))
      else reply == Short && forall base: nat :: !Available(initial, live, Block(base, n))
    case AllocateAt(n, addr) =>
      reply == if n == 0 then Given(0) else if Available(initial, live, Block(addr, n)) then Given(addr) else Short
    case Release(i) => reply == if i < |live| then Released else NotLive
  }

  ghost predicate Faithful(initial: set<nat>, ops: seq<Op>, replies: seq<Reply>)
    requires |ops| == |replies|
  {
    ops == [] ||
    var k := |ops| - 1;
    && Faithful(initial, ops[..k], replies[..k])
    && Answered(initial, LiveAfter(ops[..k], replies[..k]), ops[k], replies[k])
  }

  lemma OneMore(initial: set<nat>, ops: seq<Op>, replies: seq<Reply>, op: Op, reply: Reply)
    requires |ops| == |replies| && Faithful(initial, ops, replies)
    requires Answered(initial, LiveAfter(ops, replies), op, reply)
    ensures Faithful(initial, ops + [op], replies + [reply])
    ensures LiveAfter(ops + [op], replies + [reply]) == Applied(LiveAfter(ops, replies), op, reply)
  {
    assert (ops + [op])[..|ops|] == ops && (replies + [reply])[..|replies|] == replies;
  }

  lemma AppliedTotal(live: seq<Block>, op: Op, reply: Reply)
    ensures Total(Applied(live, op, reply)) == Total(live) + Change(live, op, reply)
  {
    match (op, reply)
    case (Release(i), Released) =>
      if i < |live| { TotalWithout(live, i); }
    case (Allocate(n), Given(frame)) => assert (live + [Block(frame, n)])[..|live|] == live;
    case (AllocateAt(n, _), Given(frame)) => assert (live + [Block(frame, n)])[..|live|] == live;
    case _ =>
  }

  /** A block can be given out exactly when its frames are a free run of the bitmap. */
  lemma AvailableIsFree(initial: set<nat>, first: nat, words: seq<u64>, live: seq<Block>, b: Block)
    requires Partition(initial, FreeFrames(first, words), live) && b.size > 0
    ensures Available(initial, live, b) <==> b.base >= first && FreeRun(words, b.base - first, b.size)
  {
    forall f: nat
      ensures f in initial && !Held(live, f) <==> IsFreeFrame(first, words, f)
    {
      assert f in FreeFrames(first, words) <==> IsFreeFrame(first, words, f);
      if Held(live, f) {
        var i: nat :| i < |live| && f in Frames(live[i]);
        assert Frames(live[i]) !! FreeFrames(first, words);
      }
    }
    if Available(initial, live, b) {
      assert InBlock(b, b.base);
      forall j: nat | b.base - first <= j < b.base - first + b.size
        ensures IsFree(words, j)
      {
        assert InBlock(b, first + j);
      }
    }
    if b.base >= first && FreeRun(words, b.base - first, b.size) {
      forall f: nat | InBlock(b, f)
        ensures IsFreeFrame(first, words, f)
      {
        assert IsFree(words, f - first);
      }
    }
  }

  /** Performs any list of requests, releasing only live blocks. */
  method Run(a: Allocator, ops: seq<Op>) returns (live: seq<Block>, replies: seq<Reply>)
    requires a.Valid()
    modifies a.bitmap
    ensures a.Valid()
    ensures |replies| == |ops| && live == LiveAfter(ops, replies)
    ensures Faithful(old(FreeFrames(a.first, a.bitmap[..])), ops, replies)
    ensures Partition(old(FreeFrames(a.first, a.bitmap[..])), FreeFrames(a.first, a.bitmap[..]), live)
    ensures forall i: nat | i < |live| :: Within(a, live[i]) && live[i].size > 0
  {
    hide Partition, FreeFrames, Answered, Faithful, LiveAfter, Applied, Change;
    live, replies := [], [];
    ghost var initial := FreeFrames(a.first, a.bitmap[..]);
    Nothing(initial, ops);
    for t := 0 to |ops|
      invariant a.Valid() && |replies| == t
      invariant live == LiveAfter(ops[..t], replies) && Faithful(initial, ops[..t], replies)
      invariant Partition(initial, FreeFrames(a.first, a.bitmap[..]), live)
      invariant forall i: nat | i < |live| :: Within(a, live[i]) && live[i].size > 0
    {
      var live', reply := Step(a, ops[t], live, initial);
      OneMore(initial, ops[..t], replies, ops[t], reply);
      assert ops[..t + 1] == ops[..t] + [ops[t]];
      live, replies := live', replies + [reply];
    }
    assert ops[..|ops|] == ops;
  }

  lemma Nothing(initial: set<nat>, ops: seq<Op>)
    ensures Partition(initial, initial, []) && LiveAfter(ops[..0], []) == [] && Faithful(initial, ops[..0], [])
  {
  }

  /** The block an allocation of n frames at `frame` just took joins the live ones. */
  lemma Taken(a: Allocator, words: seq<u64>, words': seq<u64>, initial: set<nat>, live: seq<Block>, frame: nat, n: nat)
    requires n > 0 && frame >= a.first && |words| == a.bitmap.Length
    requires FreeRun(words, frame - a.first, n) && Takes(words, words', frame - a.first, n)
    requires Partition(initial, FreeFrames(a.first, words), live)
    ensures Partition(initial, FreeFrames(a.first, words'), live + [Block(frame, n)])
    ensures Within(a, Block(frame, n))
  {
    hide Partition, FreeFrames, Frames, Takes, FreeRun;
    RunInside(words, frame - a.first, n);
    TakeFrames(a.first, words, words', frame - a.first, n);
    TakeKeeps(initial, FreeFrames(a.first, words), live, Block(frame, n));
  }

  lemma GivenBack(a: Allocator, words: seq<u64>, words': seq<u64>, initial: set<nat>, live: seq<Block>, i: nat)
    requires i < |live| && Within(a, live[i]) && |words| == a.bitmap.Length
    requires Gives(words, words', live[i].base - a.first, live[i].size)
    requires Partition(initial, FreeFrames(a.first, words), live)
    ensures Partition(initial, FreeFrames(a.first, words'), Without(live, i))
  {
    hide Partition, FreeFrames, Frames, Gives;
    GiveFrames(a.first, words, words', live[i].base - a.first, live[i].size);
    GiveKeeps(initial, FreeFrames(a.first, words), live, i);
  }

  /** One request: its answer is the one called for, and the free count changes by exactly the frames it moved. */
  method Step(a: Allocator, op: Op, live: seq<Block>, ghost initial: set<nat>)
    returns (live': seq<Block>, reply: Reply)
    requires a.Valid()
    requires Partition(initial, FreeFrames(a.first, a.bitmap[..]), live)
    requires forall i: nat | i < |live| :: Within(a, live[i]) && live[i].size > 0
    modifies a.bitmap
    ensures a.Valid()
    ensures Answered(initial, live, op, reply) && live' == Applied(live, op, reply)
    ensures Partition(initial, FreeFrames(a.first, a.bitmap[..]), live')
    ensures |FreeFrames(a.first, a.bitmap[..])| == |old(FreeFrames(a.first, a.bitmap[..]))| - Change(live, op, reply)
    ensures forall i: nat | i < |live'| :: Within(a, live'[i]) && live'[i].size > 0
  {
    hide Partition, FreeFrames, Takes, Gives, FreeRun, Chosen, Available;
    live' := live;
    ghost var words := a.bitmap[..];
    match op {
      case Allocate(n) =>
        var r := a.AllocateContiguous(n);
        reply := if r.Ok? then Given(r.frame) else Short;
        CanAllocate(initial, a.first, words, live, n);
        if n > 0 && r.Ok? {
          Taken(a, words, a.bitmap[..], initial, live, r.frame, n);
          AvailableIsFree(initial, a.first, words, live, Block(r.frame, n));
          live' := live + [Block(r.frame, n)];
        }
      case AllocateAt(n, addr) =>
        var r := a.AllocateAt(n, addr);
        reply := if r.Ok? then Given(r.frame) else Short;
        if n > 0 {
          AvailableIsFree(initial, a.first, words, live, Block(addr, n));
        }
        if n > 0 && r.Ok? {
          Taken(a, words, a.bitmap[..], initial, live, r.frame, n);
          live' := live + [Block(r.frame, n)];
        }
      case Release(index) =>
        if index < |live| {
          var _ := a.DeallocateContiguous(live[index].base, live[index].size);
          GivenBack(a, words, a.bitmap[..], initial, live, index);
          live' := Without(live, index);
          reply := Released;
        } else {
          reply := NotLive;
        }
    }
    CountMoves(initial, FreeFrames(a.first, words), FreeFrames(a.first, a.bitmap[..]), live, op, reply);
  }

  lemma CanAllocate(initial: set<nat>, first: nat, words: seq<u64>, live: seq<Block>, n: nat)
    requires Partition(initial, FreeFrames(first, words), live)
    ensures n > 0 && (forall k: nat :: !FreeRun(words, k, n)) ==>
              forall base: nat :: !Available(initial, live, Block(base, n))
  {
    hide Partition, FreeFrames, FreeRun, Available;
    if n > 0 && forall k: nat :: !FreeRun(words, k, n) {
      forall base: nat
        ensures !Available(initial, live, Block(base, n))
      {
        AvailableIsFree(initial, first, words, live, Block(base, n));
      }
    }
  }

  lemma CountMoves(initial: set<nat>, free: set<nat>, free': set<nat>, live: seq<Block>, op: Op, reply: Reply)
    requires Partition(initial, free, live) && Partition(initial, free', Applied(live, op, reply))
    ensures |free'| == |free| - Change(live, op, reply)
  {
    AppliedTotal(live, op, reply);
  }

  /** Allocating a block and releasing it restores the bitmap. */
  method AllocateAndRelease(a: Allocator, n: nat) returns (r: Result)
    requires a.Valid() && n > 0
    modifies a.bitmap
    ensures a.Valid() && a.bitmap[..] == old(a.bitmap[..])
    ensures r.Ok? <==> exists k: nat :: FreeRun(a.bitmap[..], k, n)
  {
    hide Takes, Gives, FreeRun, Chosen;
    ghost var words := a.bitmap[..];
    r := a.AllocateContiguous(n);
    if r.Ok? {
      ghost var taken := a.bitmap[..];
      var ok := a.DeallocateContiguous(r.frame, n);
      AllocateThenFree(words, taken, a.bitmap[..], r.frame - a.first, n);
    }
  }
}
