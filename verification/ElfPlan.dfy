/** Writes decided entry by entry: what each table entry asks for, up to the first one that stops the loop. */
module ElfPlan {
  import opened Bits
  import opened ElfAddress
  import opened ElfWrites

  /** What an entry leads to: a write, nothing, an unresolved name, or a panic. */
  datatype Target = Slot(put: Put) | Skip | Nameless | Invalid

  /** The writes so far, and whether the loop is still going or what ended it. */
  datatype Plan = Going(puts: seq<Put>) | Unresolved(puts: seq<Put>) | Broken(puts: seq<Put>)

  function Advance(plan: Plan, target: Target): Plan {
    if !plan.Going? then plan
    else
      match target
      case Slot(put) => Going(plan.puts + [put])
      case Skip => plan
      case Nameless => Unresolved(plan.puts)
      case Invalid => Broken(plan.puts)
  }

  function PlanOf(targets: seq<Target>): Plan {
    if targets == [] then Going([]) else Advance(PlanOf(targets[..|targets| - 1]), targets[|targets| - 1])
  }

  predicate SlotsInside(targets: seq<Target>, len: nat) {
    forall i: nat | i < |targets| && targets[i].Slot? :: targets[i].put.off + 8 <= len
  }

  lemma {:induction false} PlanInside(targets: seq<Target>, len: nat)
    requires SlotsInside(targets, len)
    ensures AllInside(PlanOf(targets).puts, len)
  {
    if targets == [] {
    } else {
      PlanInside(targets[..|targets| - 1], len);
    }
  }

  lemma PlanStep(targets: seq<Target>, i: nat)
    requires i < |targets|
    ensures PlanOf(targets[..i + 1]) == Advance(PlanOf(targets[..i]), targets[i])
  {
    assert targets[..i + 1][..i] == targets[..i];
  }

  /** The writes planned so far only grow, and a loop that has ended stays as it is. */
  lemma {:induction false} PlanGrows(targets: seq<Target>, i: nat)
    requires i <= |targets|
    ensures PlanOf(targets[..i]).puts <= PlanOf(targets).puts
    ensures !PlanOf(targets[..i]).Going? ==> PlanOf(targets) == PlanOf(targets[..i])
    decreases |targets| - i
  {
    if i == |targets| {
      assert targets[..i] == targets;
    } else {
      PlanStep(targets, i);
      PlanGrows(targets, i + 1);
    }
  }

  // ---------- entries and writes ----------

  function SlotCount(targets: seq<Target>): nat {
    if targets == [] then 0
    else SlotCount(targets[..|targets| - 1]) + (if targets[|targets| - 1].Slot? then 1 else 0)
  }

  lemma {:induction false} CountIsSize(targets: seq<Target>)
    ensures PlanOf(targets).Going? ==> |PlanOf(targets).puts| == SlotCount(targets)
  {
    if targets == [] {
    } else {
      CountIsSize(targets[..|targets| - 1]);
    }
  }

  lemma {:induction false} CountGrows(targets: seq<Target>, i: nat, j: nat)
    requires i <= j <= |targets|
    ensures SlotCount(targets[..i]) <= SlotCount(targets[..j])
    ensures i < j && targets[i].Slot? ==> SlotCount(targets[..i]) < SlotCount(targets[..j])
    decreases j - i
  {
    if i == j {
    } else {
      CountGrows(targets, i + 1, j);
      assert targets[..i + 1][..i] == targets[..i];
    }
  }

  /** In a loop that ran to its end every entry was good, and each write stands in the order of its entry. */
  lemma {:induction false} TargetHasPut(targets: seq<Target>, i: nat)
    requires PlanOf(targets).Going? && i < |targets|
    ensures targets[i].Slot? || targets[i].Skip?
    ensures var puts, p := PlanOf(targets).puts, SlotCount(targets[..i]);
            targets[i].Slot? ==> p < |puts| && puts[p] == targets[i].put
    decreases |targets|
  {
    var k := |targets| - 1;
    CountIsSize(targets[..k]);
    if i == k {
    } else {
      TargetHasPut(targets[..k], i);
      assert targets[..k][..i] == targets[..i];
    }
  }

  /** Every write comes from an entry. */
  lemma {:induction false} PutHasTarget(targets: seq<Target>, p: nat) returns (i: nat)
    requires PlanOf(targets).Going? && p < |PlanOf(targets).puts|
    ensures i < |targets| && targets[i].Slot? && SlotCount(targets[..i]) == p
    decreases |targets|
  {
    var k := |targets| - 1;
    CountIsSize(targets[..k]);
    if p < |PlanOf(targets[..k]).puts| {
      i := PutHasTarget(targets[..k], p);
      assert targets[..k][..i] == targets[..i];
    } else {
      i := k;
    }
  }

  /** After a loop that ran to its end a slot holds what its entry wrote, unless a later entry reaches into it. */
  lemma SlotHolds(bytes: seq<u8>, targets: seq<Target>, i: nat)
    requires SlotsInside(targets, |bytes|) && PlanOf(targets).Going?
    requires i < |targets| && targets[i].Slot?
    requires forall j: nat | i < j < |targets| && targets[j].Slot? :: Apart(targets[i].put, targets[j].put)
    ensures AllInside(PlanOf(targets).puts, |bytes|)
    ensures Read64(Written(bytes, PlanOf(targets).puts), targets[i].put.off) == targets[i].put.value
  {
    hide PlanOf, SlotCount, Written, Read64;
    var puts, p := PlanOf(targets).puts, SlotCount(targets[..i]);
    PlanInside(targets, |bytes|);
    TargetHasPut(targets, i);
    forall q: nat | p < q < |puts|
      ensures Apart(puts[p], puts[q])
    {
      var j := PutHasTarget(targets, q);
      TargetHasPut(targets, j);
      if j <= i { CountGrows(targets, j, i); }
      assert Apart(targets[i].put, targets[j].put);
    }
    LastEntryHolds(bytes, puts, p);
  }

  // ---------- two readings of the same table ----------

  /** If some entries turn out invalid the loop breaks, after the same writes; otherwise it does the same. */
  lemma {:induction false} PlanMoves(moved: seq<Target>, still: seq<Target>)
    requires |moved| == |still| && forall i: nat | i < |moved| :: moved[i] == still[i] || moved[i].Invalid?
    ensures PlanOf(moved) == PlanOf(still) || PlanOf(moved).Broken?
    ensures PlanOf(moved).puts <= PlanOf(still).puts
    decreases |moved|
  {
    if moved == [] {
    } else {
      PlanMoves(moved[..|moved| - 1], still[..|still| - 1]);
    }
  }

  /** The entries differ at most in the values they write. */
  predicate SamePlaces(ts: seq<Target>, us: seq<Target>) {
    && |ts| == |us|
    && forall i: nat | i < |ts| ::
         if ts[i].Slot? then us[i].Slot? && ts[i].put.off == us[i].put.off else ts[i] == us[i]
  }

  lemma {:induction false} PlansAlike(ts: seq<Target>, us: seq<Target>)
    requires SamePlaces(ts, us)
    ensures PlanOf(ts).Going? <==> PlanOf(us).Going?
    ensures SameOffsets(PlanOf(ts).puts, PlanOf(us).puts)
    decreases |ts|
  {
    if ts == [] {
    } else {
      PlansAlike(ts[..|ts| - 1], us[..|us| - 1]);
    }
  }
}
