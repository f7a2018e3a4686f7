/**
 The four-level tree of tables as it lies in physical memory. A node is named by the path of child
 indices leading to it from the root; the leaf entry of page number v is entry `v % 512` of the node
 whose path is the three leading base-512 digits of v.
 */
module PageTree {
  import opened Bits
  import opened Options
  import opened PageEntry

  /** Contents of the frames in use: page-aligned address to 512 words. */
  type Memory = map<u64, seq<u64>>

  function EmptyTable(): (words: seq<u64>)
    ensures |words| == 512 && forall i: nat | i < 512 :: words[i] == NEW_ENTRY
  {
    seq(512, _ => NEW_ENTRY)
  }

  /** The frame an entry points at. */
  function Child(mem: Memory, table: u64, index: nat): Option<u64> {
    if table in mem && index < |mem[table]| then PointedFrame(mem[table][index]) else None
  }

  datatype Path = Top | Down(up: Path, index: nat) {
    function Depth(): nat {
      match this case Top => 0 case Down(up, _) => up.Depth() + 1
    }
  }

  function TableAt(mem: Memory, root: u64, p: Path): Option<u64> {
    match p
    case Top => Some(root)
    case Down(up, index) =>
      match TableAt(mem, root, up)
      case None => None
      case Some(table) => Child(mem, table, index)
  }

  /** The k-th child index on the way down to page number v. */
  function Digit(v: nat, k: nat): nat {
    if k == 1 then v / 512 / 512 / 512 else if k == 2 then v / 512 / 512 % 512 else v / 512 % 512
  }

  /** The node k levels below the root on the way down to page number v. */
  function PathTo(v: nat, k: nat): (p: Path)
    ensures p.Depth() == k
  {
    if k == 0 then Top else Down(PathTo(v, k - 1), Digit(v, k))
  }

  lemma PathDigits(v: nat)
    ensures PathTo(v, 1) == Down(Top, Digit(v, 1))
    ensures PathTo(v, 2) == Down(PathTo(v, 1), Digit(v, 2))
    ensures PathTo(v, 3) == Down(PathTo(v, 2), Digit(v, 3))
  {
    assert PathTo(v, 0) == Top;
  }

  lemma PathInjective(v: nat, w: nat)
    requires PathTo(v, 3) == PathTo(w, 3) && v % 512 == w % 512
    ensures v == w
  {
    PathDigits(v);
    PathDigits(w);
    assert Digit(v, 3) == Digit(w, 3) && Digit(v, 2) == Digit(w, 2) && Digit(v, 1) == Digit(w, 1);
  }

  /** The present leaf word of page number v, if any. */
  function LeafEntry(mem: Memory, root: u64, v: nat): Option<u64> {
    match TableAt(mem, root, PathTo(v, 3))
    case None => None
    case Some(table) =>
      if Child(mem, table, v % 512).Some? then Some(mem[table][v % 512]) else None
  }

  /** The walk of `translate_page`, on the masked and shifted index fields. */
  function Translate(mem: Memory, root: u64, page: u64): Option<u64> {
    match Child(mem, root, L4Index(page))
    case None => None
    case Some(l3) =>
      match Child(mem, l3, L3Index(page))
      case None => None
      case Some(l2) =>
        match Child(mem, l2, L2Index(page))
        case None => None
        case Some(l1) => Child(mem, l1, L1Index(page))
  }

  /** Translation reads exactly the leaf entry of the address's 36-bit page number. */
  lemma TranslateIsLeaf(mem: Memory, root: u64, page: u64)
    ensures Translate(mem, root, page) ==
            match LeafEntry(mem, root, PageNumber(page)) case None => None case Some(entry) => PointedFrame(entry)
  {
    Indices(page);
    var v := PageNumber(page);
    PathDigits(v);
    assert TableAt(mem, root, PathTo(v, 1)) == Child(mem, root, L4Index(page));
    assert TableAt(mem, root, PathTo(v, 2)) ==
           match TableAt(mem, root, PathTo(v, 1)) case None => None case Some(t) => Child(mem, t, L3Index(page));
  }

  // ---------- well-formedness ----------

  predicate IsTable(mem: Memory, table: u64) {
    && table in mem
    && |mem[table]| == 512
    && forall i: nat | i < 512 :: PointedFrame(mem[table][i]).None? ==> mem[table][i] == NEW_ENTRY
  }

  /** Every reachable node is a table, and no frame serves as two nodes, at the same depth or across depths. */
  ghost predicate WellFormed(mem: Memory, root: u64) {
    && (forall p: Path | p.Depth() <= 3 && TableAt(mem, root, p).Some? :: IsTable(mem, TableAt(mem, root, p).value))
    && (forall p: Path, q: Path | p.Depth() <= 3 && q.Depth() <= 3 && TableAt(mem, root, p).Some? ::
          TableAt(mem, root, p) == TableAt(mem, root, q) ==> p == q)
  }

  ghost predicate IsNode(mem: Memory, root: u64, frame: u64) {
    exists p: Path :: p.Depth() <= 3 && TableAt(mem, root, p) == Some(frame)
  }

  /** The 256 upper-half entries of the root are present. */
  predicate UpperLinked(mem: Memory, root: u64) {
    root in mem && |mem[root]| == 512 && forall i: nat | 256 <= i < 512 :: PointedFrame(mem[root][i]).Some?
  }

  /**
   What mapping may do to memory: frames that are not tables keep their contents and do not become tables,
   existing tables stay where they are, every new frame is a table, and the upper half of the root is untouched.
   */
  ghost predicate Grows(mem: Memory, mem': Memory, root: u64) {
    && mem.Keys <= mem'.Keys
    && (forall f | f in mem && !IsNode(mem, root, f) :: mem'[f] == mem[f] && !IsNode(mem', root, f))
    && (forall p: Path | p.Depth() <= 3 && TableAt(mem, root, p).Some? ::
          TableAt(mem', root, p) == TableAt(mem, root, p))
    && (forall f | f in mem' && f !in mem :: IsNode(mem', root, f))
    && (root in mem && |mem[root]| == |mem'[root]| == 512 ==> mem'[root][256..] == mem[root][256..])
  }

  /** Whatever is mapped, the 256 upper entries of the root stay as they are. */
  lemma UpperHalfStays(mem: Memory, mem': Memory, root: u64, i: nat)
    requires Grows(mem, mem', root) && UpperLinked(mem, root) && WellFormed(mem', root) && 256 <= i < 512
    ensures root in mem && root in mem' && |mem[root]| == |mem'[root]| == 512 && mem'[root][i] == mem[root][i]
  {
    hide TableAt;
    assert mem'[root][i] == mem'[root][256..][i - 256];
  }

  lemma GrowsReflexive(mem: Memory, root: u64)
    ensures Grows(mem, mem, root)
  {
  }

  lemma GrowsTransitive(a: Memory, b: Memory, c: Memory, root: u64)
    requires Grows(a, b, root) && Grows(b, c, root)
    requires root in a && |a[root]| == |b[root]| == |c[root]| == 512
    ensures Grows(a, c, root)
  {
  }

  /** Each table frame is referenced by exactly one entry of one table: tables cannot be shared. */
  lemma UniqueParent(mem: Memory, root: u64, p: Path, i: nat, q: Path, j: nat)
    requires WellFormed(mem, root) && p.Depth() <= 2 && q.Depth() <= 2
    requires TableAt(mem, root, p).Some? && TableAt(mem, root, q).Some?
    requires Child(mem, TableAt(mem, root, p).value, i).Some?
    requires Child(mem, TableAt(mem, root, p).value, i) == Child(mem, TableAt(mem, root, q).value, j)
    ensures p == q && i == j
  {
    assert TableAt(mem, root, Down(p, i)) == TableAt(mem, root, Down(q, j));
  }

  // ---------- linking an empty child table ----------

  function PointEntry(words: seq<u64>, index: nat, frame: u64, flags: u64): seq<u64>
    requires index < |words|
  {
    words[index := SetPointedFrameUnchecked(words[index], frame, flags)]
  }

  /** Writes an empty table at `child` and points entry `index` of `table` at it. */
  function Link(mem: Memory, table: u64, index: nat, child: u64): Memory
    requires table in mem && index < |mem[table]|
  {
    mem[child := EmptyTable()][table := PointEntry(mem[table], index, child, PERMISSIVE)]
  }

  /** Child `index` of the node at p is absent, and `child` is a frame free to hold it. */
  ghost predicate CanLink(mem: Memory, root: u64, p: Path, index: nat, child: u64) {
    && WellFormed(mem, root)
    && p.Depth() <= 2 && index < 512
    && TableAt(mem, root, p).Some?
    && TableAt(mem, root, Down(p, index)) == None
    && !IsNode(mem, root, child)
    && child % 4096 == 0 && child < 0x10_0000_0000_0000
  }

  lemma PermissiveIsFlags()
    ensures IsFlags(PERMISSIVE)
  {
    forall i: nat | 10 <= i < 63
      ensures !Bit(PERMISSIVE, i)
    {
      HighBit(PERMISSIVE, 3, i);
    }
  }

  lemma LinkedChild(mem: Memory, table: u64, index: nat, child: u64)
    requires table in mem && index < |mem[table]| && table != child
    requires child % 4096 == 0 && child < 0x10_0000_0000_0000
    ensures Child(Link(mem, table, index, child), table, index) == Some(child)
    ensures forall i: nat :: Child(Link(mem, table, index, child), child, i) == None
  {
    PermissiveIsFlags();
    SetThenGet(mem[table][index], child, PERMISSIVE);
    MaskedFrame(child);
    NewEntryAbsent();
  }

  /** A linked entry is present, writable and user accessible, and otherwise holds only the child's frame. */
  lemma LinkedEntryBits(mem: Memory, table: u64, index: nat, child: u64, i: nat)
    requires table in mem && index < |mem[table]| && mem[table][index] == NEW_ENTRY && table != child
    requires i < 64
    ensures Bit(Link(mem, table, index, child)[table][index], i) <==> i < 3 || (12 <= i < 52 && Bit(child, i))
  {
    assert Bit(PERMISSIVE, 1) && Bit(PERMISSIVE, 2) && !Bit(PERMISSIVE, 0);
    if i >= 3 {
      HighBit(PERMISSIVE, 3, i);
      HighBit(NEW_ENTRY, 3, i);
    }
  }

  /** Linking adds one node to the tree and moves no other. */
  lemma {:induction false} LinkTableAt(mem: Memory, root: u64, p: Path, index: nat, child: u64, q: Path)
    requires CanLink(mem, root, p, index, child) && q.Depth() <= 3
    ensures TableAt(Link(mem, TableAt(mem, root, p).value, index, child), root, q) ==
            if q == Down(p, index) then Some(child) else TableAt(mem, root, q)
  {
    var table := TableAt(mem, root, p).value;
    assert IsNode(mem, root, table);
    LinkedChild(mem, table, index, child);
    if q.Top? {
    } else {
      LinkTableAt(mem, root, p, index, child, q.up);
      if q.up != Down(p, index) && TableAt(mem, root, q.up).Some? {
        assert IsNode(mem, root, TableAt(mem, root, q.up).value);
      }
    }
  }

  lemma LinkWellFormed(mem: Memory, root: u64, p: Path, index: nat, child: u64)
    requires CanLink(mem, root, p, index, child)
    ensures WellFormed(Link(mem, TableAt(mem, root, p).value, index, child), root)
  {
    var table := TableAt(mem, root, p).value;
    var mem' := Link(mem, table, index, child);
    assert IsNode(mem, root, table);
    LinkedChild(mem, table, index, child);
    forall q: Path | q.Depth() <= 3
      ensures TableAt(mem', root, q) == if q == Down(p, index) then Some(child) else TableAt(mem, root, q)
      ensures TableAt(mem, root, q) != Some(child)
    {
      LinkTableAt(mem, root, p, index, child, q);
    }
  }

  lemma LinkLeaf(mem: Memory, root: u64, p: Path, index: nat, child: u64, v: nat)
    requires CanLink(mem, root, p, index, child)
    ensures LeafEntry(Link(mem, TableAt(mem, root, p).value, index, child), root, v) == LeafEntry(mem, root, v)
  {
    LinkTableAt(mem, root, p, index, child, PathTo(v, 3));
    assert IsNode(mem, root, TableAt(mem, root, p).value);
    LinkedChild(mem, TableAt(mem, root, p).value, index, child);
    if TableAt(mem, root, PathTo(v, 3)).Some? {
      assert IsNode(mem, root, TableAt(mem, root, PathTo(v, 3)).value);
    }
  }

  /** A link in the lower half, or below the root, leaves the upper half of the root as it was. */
  lemma LinkKeepsUpper(mem: Memory, root: u64, p: Path, index: nat, child: u64)
    requires CanLink(mem, root, p, index, child) && UpperLinked(mem, root)
    ensures var mem' := Link(mem, TableAt(mem, root, p).value, index, child);
            root in mem' && |mem'[root]| == 512 && mem'[root][256..] == mem[root][256..] && UpperLinked(mem', root)
  {
    assert TableAt(mem, root, Top) == Some(root);
  }

  lemma LinkGrows(mem: Memory, root: u64, p: Path, index: nat, child: u64, before: Memory)
    requires CanLink(mem, root, p, index, child)
    requires mem.Keys == before.Keys + {child} && child !in before && forall f | f in before :: mem[f] == before[f]
    requires forall q: Path | q.Depth() <= 3 :: TableAt(before, root, q) == TableAt(mem, root, q)
    requires UpperLinked(mem, root)
    ensures Grows(before, Link(mem, TableAt(mem, root, p).value, index, child), root)
    ensures UpperLinked(Link(mem, TableAt(mem, root, p).value, index, child), root)
  {
    var table := TableAt(mem, root, p).value;
    var mem' := Link(mem, table, index, child);
    LinkKeepsUpper(mem, root, p, index, child);
    forall q: Path | q.Depth() <= 3
      ensures TableAt(mem', root, q) == if q == Down(p, index) then Some(child) else TableAt(before, root, q)
    {
      LinkTableAt(mem, root, p, index, child, q);
    }
    hide TableAt, UpperLinked;
    assert IsNode(before, root, table);
    NodeAdded(before, mem', root, Down(p, index), table, child);
  }

  /** One new frame, which is a table, and one changed table make memory grow. */
  lemma NodeAdded(before: Memory, mem: Memory, root: u64, path: Path, table: u64, child: u64)
    requires mem.Keys == before.Keys + {child} && child !in before && path.Depth() <= 3
    requires IsNode(before, root, table) && forall f | f in before && f != table :: mem[f] == before[f]
    requires forall q: Path | q.Depth() <= 3 ::
               TableAt(mem, root, q) == if q == path then Some(child) else TableAt(before, root, q)
    requires TableAt(before, root, path) == None
    requires root in before ==> |mem[root]| == 512 && |before[root]| == 512 && mem[root][256..] == before[root][256..]
    ensures Grows(before, mem, root)
  {
    hide TableAt;
  }

  // ---------- writing a leaf entry ----------

  function SetLeaf(mem: Memory, table: u64, index: nat, frame: u64, flags: u64): Memory
    requires table in mem && index < |mem[table]|
  {
    mem[table := PointEntry(mem[table], index, frame, flags)]
  }

  ghost predicate CanSetLeaf(mem: Memory, root: u64, v: nat, flags: u64) {
    WellFormed(mem, root) && TableAt(mem, root, PathTo(v, 3)).Some? && IsFlags(flags)
  }

  /** A write into a table at depth 3 moves no table. */
  lemma {:induction false} SetLeafTableAt(mem: Memory, root: u64, v: nat, frame: u64, flags: u64, q: Path)
    requires CanSetLeaf(mem, root, v, flags) && q.Depth() <= 3
    ensures TableAt(SetLeaf(mem, TableAt(mem, root, PathTo(v, 3)).value, v % 512, frame, flags), root, q) ==
            TableAt(mem, root, q)
  {
    if q.Top? {
    } else {
      SetLeafTableAt(mem, root, v, frame, flags, q.up);
      assert q.up.Depth() != PathTo(v, 3).Depth();
    }
  }

  lemma SetLeafWellFormed(mem: Memory, root: u64, v: nat, frame: u64, flags: u64)
    requires CanSetLeaf(mem, root, v, flags) && UpperLinked(mem, root)
    ensures var mem' := SetLeaf(mem, TableAt(mem, root, PathTo(v, 3)).value, v % 512, frame, flags);
            WellFormed(mem', root) && Grows(mem, mem', root) && UpperLinked(mem', root)
  {
    var table := TableAt(mem, root, PathTo(v, 3)).value;
    var mem' := SetLeaf(mem, table, v % 512, frame, flags);
    forall q: Path | q.Depth() <= 3
      ensures TableAt(mem', root, q) == TableAt(mem, root, q)
    {
      SetLeafTableAt(mem, root, v, frame, flags, q);
    }
    SetThenGet(mem[table][v % 512], frame, flags);
    assert IsNode(mem, root, table);
    assert TableAt(mem, root, Top) == Some(root);
  }

  /** The write changes the leaf entry of one page and of no other. */
  lemma SetLeafEntry(mem: Memory, root: u64, v: nat, frame: u64, flags: u64, w: nat)
    requires CanSetLeaf(mem, root, v, flags) && LeafEntry(mem, root, v) == None
    ensures LeafEntry(SetLeaf(mem, TableAt(mem, root, PathTo(v, 3)).value, v % 512, frame, flags), root, w) ==
            if w == v then Some(SetPointedFrameUnchecked(NEW_ENTRY, frame, flags)) else LeafEntry(mem, root, w)
  {
    SetLeafTableAt(mem, root, v, frame, flags, PathTo(w, 3));
    SetThenGet(NEW_ENTRY, frame, flags);
    if PathTo(w, 3) == PathTo(v, 3) && w % 512 == v % 512 {
      PathInjective(v, w);
    }
  }

  // ---------- what an operation does to the mapping ----------

  ghost predicate SameLeaves(mem: Memory, mem': Memory, root: u64) {
    forall w: nat :: LeafEntry(mem', root, w) == LeafEntry(mem, root, w)
  }

  /** Page number v, and only it, became mapped, by the given word. */
  ghost predicate MapsOne(mem: Memory, mem': Memory, root: u64, v: nat, entry: u64) {
    && LeafEntry(mem, root, v) == None
    && forall w: nat :: LeafEntry(mem', root, w) == if w == v then Some(entry) else LeafEntry(mem, root, w)
  }

  // ---------- counting the tables a page still needs ----------

  function Absent(mem: Memory, root: u64, p: Path): nat {
    if TableAt(mem, root, p).None? then 1 else 0
  }

  /** Tables missing among the first k on the way down to page number v. */
  function Missing(mem: Memory, root: u64, v: nat, k: nat): nat {
    if k == 0 then 0 else Missing(mem, root, v, k - 1) + Absent(mem, root, PathTo(v, k))
  }

  /** Every upper-half page has its level-3 table from the start. */
  lemma UpperHalfHasL3(mem: Memory, root: u64, v: nat)
    requires UpperLinked(mem, root) && 0x8_0000_0000 <= v < PAGE_NUMBERS
    ensures Absent(mem, root, PathTo(v, 1)) == 0
  {
    PathDigits(v);
    assert 256 <= Digit(v, 1) < 512;
    assert PointedFrame(mem[root][Digit(v, 1)]).Some?;
    assert TableAt(mem, root, PathTo(v, 1)) == Child(mem, root, Digit(v, 1));
  }

  lemma {:induction false} AbsentBelow(mem: Memory, root: u64, v: nat, k: nat)
    requires k <= 3 && TableAt(mem, root, PathTo(v, k)).None?
    ensures LeafEntry(mem, root, v) == None
    decreases 3 - k
  {
    if k == 3 {
    } else {
      AbsentBelow(mem, root, v, k + 1);
    }
  }
}
