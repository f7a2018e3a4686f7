/** The kernel's memory map: the firmware's sorted map with touching entries of one type merged. */
module MemoryMap {
  import opened Bits
  import opened Options
  import opened PageEntry
  import opened PageTree
  import DirectMap

  datatype MemoryType =
    | Free | Reserved | BootloaderCode | BootloaderData | KernelCode | KernelPageTable | ModuleCode
    | AcpiPreserve | AcpiReclaim | KernelStack | RuntimeCode | RuntimeData

  datatype Entry = Entry(start: nat, end: nat, ty: MemoryType) {
    predicate Contains(a: nat) { start <= a < end }
  }

  function KernelType(ty: DirectMap.MemoryType): MemoryType {
    match ty
    case Conventional | BootServicesCode | BootServicesData | PersistentMemory => Free
    case LoaderCode => BootloaderCode
    case LoaderData => BootloaderData
    case KernelCode => KernelCode
    case PageTableMemory => KernelPageTable
    case ModuleCode => ModuleCode
    case AcpiNonVolatile => AcpiPreserve
    case AcpiReclaim => AcpiReclaim
    case KernelStack => KernelStack
    case RuntimeServicesCode => RuntimeCode
    case RuntimeServicesData => RuntimeData
    case Other(_) => Reserved
  }

  function ToEntry(d: DirectMap.Descriptor): Entry {
    Entry(d.start, d.End(), KernelType(d.ty))
  }

  /** The map gives address a the type ty. */
  ghost predicate Gives(s: seq<Entry>, a: nat, ty: MemoryType) {
    exists i: nat :: i < |s| && s[i].Contains(a) && s[i].ty == ty
  }

  /** Entries in address order, none reaching into a later one. */
  predicate Sorted(s: seq<Entry>) {
    && (forall i: nat | i < |s| :: s[i].start <= s[i].end)
    && (forall i: nat, j: nat | i < j < |s| :: s[i].end <= s[j].start)
  }

  predicate Mergeable(a: Entry, b: Entry) {
    a.ty == b.ty && a.end == b.start
  }

  predicate Coalesced(s: seq<Entry>) {
    forall i: nat | i + 1 < |s| :: !Mergeable(s[i], s[i + 1])
  }

  function Join(a: Entry, b: Entry): Entry {
    Entry(a.start, b.end, a.ty)
  }

  /** The fold, as a function: the head absorbs its successors while they touch and agree. */
  function Merge(s: seq<Entry>): seq<Entry>
    decreases |s|
  {
    if |s| <= 1 then s
    else if Mergeable(s[0], s[1]) then Merge([Join(s[0], s[1])] + s[2..])
    else [s[0]] + Merge(s[1..])
  }

  lemma MergeNext(item: Entry, entries: seq<Entry>, i: nat)
    requires i < |entries|
    ensures Merge([item] + entries[i..]) ==
            if Mergeable(item, entries[i]) then Merge([Join(item, entries[i])] + entries[i + 1..])
            else [item] + Merge([entries[i]] + entries[i + 1..])
  {
    var rest := [item] + entries[i..];
    assert rest[0] == item && rest[1] == entries[i] && rest[2..] == entries[i + 1..];
    assert rest[1..] == [entries[i]] + entries[i + 1..];
  }

  lemma MergeEnds(s: seq<Entry>)
    requires |s| <= 1
    ensures Merge(s) == s
  {
  }

  /** The fold of the source, pushing each finished entry. */
  method Coalesce(entries: seq<Entry>) returns (out: seq<Entry>)
    ensures out == Merge(entries)
    ensures |out| <= |entries|
  {
    hide Merge;
    out := [];
    MergeEnds([]);
    if |entries| > 0 {
      var item := entries[0];
      assert entries == [item] + entries[1..];
      for i := 1 to |entries|
        invariant |out| < i
        invariant Merge(entries) == out + Merge([item] + entries[i..])
      {
        var next := entries[i];
        MergeNext(item, entries, i);
        if item.ty == next.ty && item.end == next.start {
          item := Entry(item.start, next.end, item.ty);
        } else {
          out := out + [item];
          item := next;
        }
      }
      MergeEnds([item]);
      assert [item] + entries[|entries|..] == [item];
      out := out + [item];
    }
  }

  // ---------- what merging keeps ----------

  lemma JoinedSorted(s: seq<Entry>)
    requires |s| > 1 && Sorted(s) && Mergeable(s[0], s[1])
    ensures Sorted([Join(s[0], s[1])] + s[2..])
  {
    var t := [Join(s[0], s[1])] + s[2..];
    assert forall i: nat | 1 <= i < |t| :: t[i] == s[i + 1];
  }

  lemma JoinedGives(s: seq<Entry>, a: nat, ty: MemoryType)
    requires |s| > 1 && Sorted(s) && Mergeable(s[0], s[1])
    ensures Gives([Join(s[0], s[1])] + s[2..], a, ty) <==> Gives(s, a, ty)
  {
    assert s[0].start <= s[0].end <= s[1].end;
    hide Sorted, Gives;
    var t := [Join(s[0], s[1])] + s[2..];
    SplitHead(s, a, ty);
    SplitHead(s[1..], a, ty);
    SplitHead(t, a, ty);
    assert s[1..][1..] == s[2..] && t[1..] == s[2..];
  }

  lemma JoinedTail(s: seq<Entry>)
    requires |s| > 1 && Sorted(s) && Mergeable(s[0], s[1])
    ensures Sorted([Join(s[0], s[1])] + s[2..])
    ensures forall a: nat, ty :: Gives([Join(s[0], s[1])] + s[2..], a, ty) <==> Gives(s, a, ty)
  {
    hide Sorted, Gives;
    JoinedSorted(s);
    forall a: nat, ty {
      JoinedGives(s, a, ty);
    }
  }

  lemma SplitHead(s: seq<Entry>, a: nat, ty: MemoryType)
    requires |s| > 0
    ensures Gives(s, a, ty) <==> (s[0].Contains(a) && s[0].ty == ty) || Gives(s[1..], a, ty)
  {
    if Gives(s, a, ty) {
      var i: nat :| i < |s| && s[i].Contains(a) && s[i].ty == ty;
      assert i > 0 ==> s[1..][i - 1] == s[i];
    }
    if Gives(s[1..], a, ty) {
      var i: nat :| i < |s[1..]| && s[1..][i].Contains(a) && s[1..][i].ty == ty;
      assert s[i + 1] == s[1..][i];
    }
  }

  /** Merging keeps the type of every address. */
  lemma {:induction false} MergeKeepsTypes(s: seq<Entry>, a: nat, ty: MemoryType)
    requires Sorted(s)
    ensures Gives(Merge(s), a, ty) <==> Gives(s, a, ty)
    decreases |s|
  {
    if |s| > 1 {
      if Mergeable(s[0], s[1]) {
        JoinedTail(s);
        MergeKeepsTypes([Join(s[0], s[1])] + s[2..], a, ty);
      } else {
        MergeKeepsTypes(s[1..], a, ty);
        SplitHead(s, a, ty);
        SplitHead(Merge(s), a, ty);
        assert Merge(s)[1..] == Merge(s[1..]);
      }
    }
  }

  lemma {:induction false} MergeHead(s: seq<Entry>)
    ensures |Merge(s)| <= |s|
    ensures |s| > 0 ==> |Merge(s)| > 0 && Merge(s)[0].start == s[0].start && Merge(s)[0].ty == s[0].ty
    decreases |s|
  {
    if |s| > 1 {
      if Mergeable(s[0], s[1]) {
        MergeHead([Join(s[0], s[1])] + s[2..]);
      } else {
        MergeHead(s[1..]);
      }
    }
  }

  /** Merging keeps the entries in order and disjoint. */
  lemma {:induction false} MergeSorted(s: seq<Entry>)
    requires Sorted(s)
    ensures Sorted(Merge(s))
    decreases |s|
  {
    if |s| > 1 {
      if Mergeable(s[0], s[1]) {
        JoinedTail(s);
        MergeSorted([Join(s[0], s[1])] + s[2..]);
      } else {
        MergeSorted(s[1..]);
        MergeHead(s[1..]);
        SortedCons(s[0], Merge(s[1..]));
      }
    }
  }

  lemma SortedCons(e: Entry, t: seq<Entry>)
    requires e.start <= e.end && Sorted(t) && (|t| > 0 ==> e.end <= t[0].start)
    ensures Sorted([e] + t)
  {
    forall i: nat | i < |t|
      ensures e.end <= t[i].start
    {
      assert i > 0 ==> t[0].end <= t[i].start;
    }
  }

  /** Merging leaves no touching pair of one type. */
  lemma {:induction false} MergeCoalesced(s: seq<Entry>)
    ensures Coalesced(Merge(s))
    decreases |s|
  {
    if |s| > 1 {
      if Mergeable(s[0], s[1]) {
        MergeCoalesced([Join(s[0], s[1])] + s[2..]);
      } else {
        MergeCoalesced(s[1..]);
        MergeHead(s[1..]);
        var t := Merge(s[1..]);
        forall i: nat | i + 1 < |[s[0]] + t|
          ensures !Mergeable(([s[0]] + t)[i], ([s[0]] + t)[i + 1])
        {
          assert i > 0 ==> !Mergeable(t[i - 1], t[i - 1 + 1]);
        }
      }
    }
  }

  lemma {:induction false} MergeNonEmpty(s: seq<Entry>)
    requires Sorted(s) && NonEmpty(s)
    ensures NonEmpty(Merge(s))
    decreases |s|
  {
    if |s| > 1 {
      if Mergeable(s[0], s[1]) {
        JoinedTail(s);
        MergeNonEmpty([Join(s[0], s[1])] + s[2..]);
      } else {
        MergeNonEmpty(s[1..]);
      }
    }
  }

  lemma {:induction false} CoalescedIsFixed(s: seq<Entry>)
    requires Coalesced(s)
    ensures Merge(s) == s
  {
    if |s| <= 1 {
    } else {
      assert !Mergeable(s[0], s[0 + 1]);
      forall i: nat | i + 1 < |s[1..]|
        ensures !Mergeable(s[1..][i], s[1..][i + 1])
      {
        assert !Mergeable(s[i + 1], s[i + 1 + 1]);
      }
      CoalescedIsFixed(s[1..]);
    }
  }

  lemma MergeIdempotent(s: seq<Entry>)
    ensures Merge(Merge(s)) == Merge(s)
  {
    MergeCoalesced(s);
    CoalescedIsFixed(Merge(s));
  }

  // ---------- the merged map is canonical ----------

  predicate NonEmpty(s: seq<Entry>) {
    forall i: nat | i < |s| :: s[i].start < s[i].end
  }

  ghost predicate SameTypes(s: seq<Entry>, t: seq<Entry>) {
    forall a: nat, ty :: Gives(s, a, ty) <==> Gives(t, a, ty)
  }

  /** Given the same types, the first entry of one map starts no later than that of the other. */
  lemma StartsNoLater(s: seq<Entry>, t: seq<Entry>)
    requires Sorted(s) && NonEmpty(t) && |t| > 0 && SameTypes(s, t)
    ensures |s| > 0 && s[0].start <= t[0].start
  {
    var a, ty := t[0].start, t[0].ty;
    assert t[0].Contains(a);
    assert Gives(t, a, ty);
    var i: nat :| i < |s| && s[i].Contains(a) && s[i].ty == ty;
    assert i > 0 ==> s[0].end <= s[i].start;
  }

  /** Just past the first entry of a coalesced map, its type does not go on. */
  lemma TypeStops(s: seq<Entry>)
    requires Sorted(s) && NonEmpty(s) && Coalesced(s) && |s| > 0
    ensures !Gives(s, s[0].end, s[0].ty)
  {
    forall i: nat | i < |s| && s[i].ty == s[0].ty
      ensures !s[i].Contains(s[0].end)
    {
      if i == 1 {
        assert !Mergeable(s[0], s[0 + 1]);
      } else if i > 1 {
        assert s[0].end <= s[1].start < s[1].end <= s[i].start;
      }
    }
  }

  /** The first entry of a coalesced map reaches as far as the same type does. */
  lemma EndsNoEarlier(s: seq<Entry>, t: seq<Entry>)
    requires Sorted(s) && NonEmpty(s) && Coalesced(s) && Sorted(t) && NonEmpty(t)
    requires |s| > 0 && |t| > 0 && s[0].start == t[0].start && s[0].ty == t[0].ty && SameTypes(s, t)
    ensures s[0].end >= t[0].end
  {
    TypeStops(s);
    assert !Gives(t, s[0].end, s[0].ty);
    assert !t[0].Contains(s[0].end);
  }

  lemma SameFirst(s: seq<Entry>, t: seq<Entry>)
    requires Sorted(s) && NonEmpty(s) && Coalesced(s) && Sorted(t) && NonEmpty(t) && Coalesced(t)
    requires |s| > 0 && |t| > 0 && SameTypes(s, t)
    ensures s[0] == t[0]
  {
    StartsNoLater(s, t);
    StartsNoLater(t, s);
    var a := s[0].start;
    assert s[0].Contains(a);
    assert Gives(s, a, s[0].ty);
    var i: nat :| i < |t| && t[i].Contains(a) && t[i].ty == s[0].ty;
    EndsNoEarlier(s, t);
    EndsNoEarlier(t, s);
  }

  lemma TailTypes(s: seq<Entry>, a: nat, ty: MemoryType)
    requires Sorted(s) && |s| > 0
    ensures Gives(s[1..], a, ty) <==> Gives(s, a, ty) && a >= s[0].end
  {
    SplitHead(s, a, ty);
    if Gives(s[1..], a, ty) {
      var i: nat :| i < |s[1..]| && s[1..][i].Contains(a) && s[1..][i].ty == ty;
      assert s[0].end <= s[i + 1].start;
    }
  }

  lemma {:induction false} CoalescedUnique(s: seq<Entry>, t: seq<Entry>)
    requires Sorted(s) && NonEmpty(s) && Coalesced(s) && Sorted(t) && NonEmpty(t) && Coalesced(t)
    requires SameTypes(s, t)
    ensures s == t
  {
    if |s| > 0 {
      StartsNoLater(t, s);
      SameFirst(s, t);
      forall a: nat, ty
        ensures Gives(s[1..], a, ty) <==> Gives(t[1..], a, ty)
      {
        TailTypes(s, a, ty);
        TailTypes(t, a, ty);
      }
      CoalescedTail(s);
      CoalescedTail(t);
      CoalescedUnique(s[1..], t[1..]);
    } else if |t| > 0 {
      StartsNoLater(s, t);
    }
  }

  lemma CoalescedTail(s: seq<Entry>)
    requires |s| > 0 && Coalesced(s)
    ensures Coalesced(s[1..])
  {
    forall i: nat | i + 1 < |s[1..]|
      ensures !Mergeable(s[1..][i], s[1..][i + 1])
    {
      assert !Mergeable(s[i + 1], s[i + 1 + 1]);
    }
  }

  /** Two maps that describe the same memory are merged into the same kernel map. */
  lemma MergeCanonical(s: seq<Entry>, t: seq<Entry>)
    requires Sorted(s) && NonEmpty(s) && Sorted(t) && NonEmpty(t) && SameTypes(s, t)
    ensures Merge(s) == Merge(t)
  {
    MergeSorted(s);
    MergeSorted(t);
    MergeCoalesced(s);
    MergeCoalesced(t);
    MergeNonEmpty(s);
    MergeNonEmpty(t);
    forall a: nat, ty
      ensures Gives(Merge(s), a, ty) <==> Gives(Merge(t), a, ty)
    {
      MergeKeepsTypes(s, a, ty);
      MergeKeepsTypes(t, a, ty);
    }
    CoalescedUnique(Merge(s), Merge(t));
  }

  // ---------- from the firmware's map to the kernel's ----------

  function ToEntries(ds: seq<DirectMap.Descriptor>): (s: seq<Entry>)
    ensures |s| == |ds| && forall i: nat | i < |ds| :: s[i] == ToEntry(ds[i])
  {
    seq(|ds|, i requires 0 <= i < |ds| => ToEntry(ds[i]))
  }

  /** The kernel map gives an address a type exactly when a firmware entry covering it converts to it. */
  lemma KernelMapTypes(ds: seq<DirectMap.Descriptor>, a: nat, ty: MemoryType)
    requires Sorted(ToEntries(ds))
    ensures Gives(Merge(ToEntries(ds)), a, ty) <==>
            exists i: nat :: i < |ds| && ds[i].start <= a < ds[i].End() && KernelType(ds[i].ty) == ty
  {
    MergeKeepsTypes(ToEntries(ds), a, ty);
    if i: nat :| i < |ds| && ds[i].start <= a < ds[i].End() && KernelType(ds[i].ty) == ty {
      assert ToEntries(ds)[i].Contains(a);
    }
    if Gives(ToEntries(ds), a, ty) {
      var i: nat :| i < |ds| && ToEntries(ds)[i].Contains(a) && ToEntries(ds)[i].ty == ty;
      assert ds[i].start <= a < ds[i].End();
    }
  }

  /** What the kernel map calls an address of a region of each firmware type. */
  lemma KindsInKernelMap(ds: seq<DirectMap.Descriptor>, i: nat, a: nat)
    requires Sorted(ToEntries(ds)) && i < |ds| && ds[i].start <= a < ds[i].start + 4096 * ds[i].pages
    ensures ds[i].ty == DirectMap.Conventional || ds[i].ty == DirectMap.PersistentMemory ||
            ds[i].ty == DirectMap.BootServicesCode || ds[i].ty == DirectMap.BootServicesData ==>
              Gives(Merge(ToEntries(ds)), a, Free)
    ensures ds[i].ty == DirectMap.LoaderCode ==> Gives(Merge(ToEntries(ds)), a, BootloaderCode)
    ensures ds[i].ty == DirectMap.LoaderData ==> Gives(Merge(ToEntries(ds)), a, BootloaderData)
    ensures ds[i].ty == DirectMap.KernelCode ==> Gives(Merge(ToEntries(ds)), a, KernelCode)
    ensures ds[i].ty == DirectMap.PageTableMemory ==> Gives(Merge(ToEntries(ds)), a, KernelPageTable)
    ensures ds[i].ty == DirectMap.ModuleCode ==> Gives(Merge(ToEntries(ds)), a, ModuleCode)
    ensures ds[i].ty == DirectMap.AcpiNonVolatile ==> Gives(Merge(ToEntries(ds)), a, AcpiPreserve)
    ensures ds[i].ty == DirectMap.AcpiReclaim ==> Gives(Merge(ToEntries(ds)), a, AcpiReclaim)
    ensures ds[i].ty == DirectMap.KernelStack ==> Gives(Merge(ToEntries(ds)), a, KernelStack)
    ensures ds[i].ty == DirectMap.RuntimeServicesCode ==> Gives(Merge(ToEntries(ds)), a, RuntimeCode)
    ensures ds[i].ty == DirectMap.RuntimeServicesData ==> Gives(Merge(ToEntries(ds)), a, RuntimeData)
    ensures ds[i].ty.Other? ==> Gives(Merge(ToEntries(ds)), a, Reserved)
  {
    hide Merge, Gives, Sorted, ToEntries;
    KernelMapTypes(ds, a, KernelType(ds[i].ty));
  }

  /** A sorted map gives an address at most one type. */
  lemma OneType(s: seq<Entry>, a: nat, ty: MemoryType, ty': MemoryType)
    requires Sorted(s) && Gives(s, a, ty) && Gives(s, a, ty')
    ensures ty == ty'
  {
    var i: nat :| i < |s| && s[i].Contains(a) && s[i].ty == ty;
    var j: nat :| j < |s| && s[j].Contains(a) && s[j].ty == ty';
  }

  /** Whatever the kernel map does not call reserved can be reached through the direct map. */
  lemma UsableIsReachable(mem: Memory, root: u64, ds: seq<DirectMap.Descriptor>, a: u64, ty: MemoryType)
    requires Sorted(ToEntries(ds)) && DirectMap.DirectFits(ds)
    requires forall i: nat | i < |ds| && ds[i].DirectMapped() ::
               DirectMap.Translates(mem, root, ds[i], DirectMap.PAGE_MAP_OFFSET)
    requires Gives(Merge(ToEntries(ds)), a, ty) && ty != Reserved
    ensures a < 0x8000_0000_0000
    ensures Translate(mem, root, 0xffff_8000_0000_0000 + a) == Some(a - a % 4096)
  {
    hide Translate, Merge, Sorted, Gives, ToEntries;
    KernelMapTypes(ds, a, ty);
    var i: nat :| i < |ds| && ds[i].start <= a < ds[i].End() && KernelType(ds[i].ty) == ty;
    assert ds[i].DirectMapped();
    assert ds[i].pages > 0;
  }
}
