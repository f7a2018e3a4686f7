/** Any series of mapping requests refines a plain partial map from page numbers to leaf words. */
module PageRuns {
  import opened Bits
  import opened Options
  import opened PageEntry
  import opened PageTree
  import opened PageRange
  import opened Machines
  import opened Paging

  datatype Request = Request(page: u64, frame: u64, flags: u64) {
    function Number(): nat { PageNumber(page) }
    function Word(): u64 { Encoded(frame, flags) }
  }

  type View = map<nat, u64>

  /** The abstract partial map after the first requests, given what each one answered. */
  function After(requests: seq<Request>, results: seq<MapResult>): View
    requires |requests| == |results|
  {
    if requests == [] then map[]
    else
      var k := |requests| - 1;
      var view := After(requests[..k], results[..k]);
      if results[k] == Mapped then view[requests[k].Number() := requests[k].Word()] else view
  }

  /** Each request answered `AlreadyMapped` exactly when its page was in the map at that moment. */
  predicate Faithful(requests: seq<Request>, results: seq<MapResult>)
    requires |requests| == |results|
  {
    requests == [] ||
    var k := |requests| - 1;
    && Faithful(requests[..k], results[..k])
    && (results[k] == AlreadyMapped <==> requests[k].Number() in After(requests[..k], results[..k]))
  }

  ghost predicate Refines(mem: Memory, root: u64, view: View) {
    forall v: nat :: LeafEntry(mem, root, v) == if v in view then Some(view[v]) else None
  }

  /** One more request carries the refinement over. */
  lemma RefinesStep(
      mem: Memory, mem': Memory, root: u64, requests: seq<Request>, results: seq<MapResult>, request: Request,
      result: MapResult)
    requires |requests| == |results| && Faithful(requests, results) && Refines(mem, root, After(requests, results))
    requires result == AlreadyMapped <==> LeafEntry(mem, root, request.Number()).Some?
    requires result == Mapped ==> MapsOne(mem, mem', root, request.Number(), request.Word())
    requires result != Mapped ==> SameLeaves(mem, mem', root)
    ensures Faithful(requests + [request], results + [result])
    ensures Refines(mem', root, After(requests + [request], results + [result]))
  {
    assert (requests + [request])[..|requests|] == requests;
    assert (results + [result])[..|results|] == results;
  }

  lemma NothingRequested(mem: Memory, root: u64, requests: seq<Request>)
    requires forall v: nat :: LeafEntry(mem, root, v) == None
    ensures Faithful(requests[..0], []) && Refines(mem, root, After(requests[..0], []))
  {
  }

  /** Once mapped, a page keeps its word; a word in the map came from a successful request. */
  lemma {:induction false} AfterIsMapped(requests: seq<Request>, results: seq<MapResult>, v: nat)
    requires |requests| == |results| && Faithful(requests, results)
    ensures v in After(requests, results) <==>
            exists i: nat :: i < |requests| && results[i] == Mapped && requests[i].Number() == v
    ensures forall i: nat | i < |requests| && results[i] == Mapped && requests[i].Number() == v ::
              v in After(requests, results) && After(requests, results)[v] == requests[i].Word()
    decreases |requests|
  {
    if requests == [] {
    } else {
      var k := |requests| - 1;
      AfterIsMapped(requests[..k], results[..k], v);
      assert forall i: nat | i < k :: requests[..k][i] == requests[i] && results[..k][i] == results[i];
      if results[k] == Mapped && requests[k].Number() == v {
        assert v !in After(requests[..k], results[..k]);
      }
    }
  }

  /** A page number is mapped by at most one request of a run. */
  lemma {:induction false} MappedOnce(requests: seq<Request>, results: seq<MapResult>, i: nat, j: nat)
    requires |requests| == |results| && Faithful(requests, results)
    requires i < j < |requests| && results[i] == Mapped && results[j] == Mapped
    ensures requests[i].Number() != requests[j].Number()
    decreases |requests|
  {
    var k := |requests| - 1;
    if j == k {
      AfterIsMapped(requests[..k], results[..k], requests[i].Number());
      assert requests[..k][i] == requests[i] && results[..k][i] == Mapped;
    } else {
      MappedOnce(requests[..k], results[..k], i, j);
    }
  }

  /** The translation of a page in terms of the run alone. */
  lemma TranslateAfter(mem: Memory, root: u64, requests: seq<Request>, results: seq<MapResult>, page: u64)
    requires |requests| == |results| && Faithful(requests, results)
    requires forall i: nat | i < |requests| :: IsFlags(requests[i].flags)
    requires Refines(mem, root, After(requests, results))
    ensures forall i: nat | i < |requests| && results[i] == Mapped && requests[i].Number() == PageNumber(page) ::
              Translate(mem, root, page) == Some(And(requests[i].frame, FRAME_MASK))
    ensures (forall i: nat | i < |requests| && results[i] == Mapped :: requests[i].Number() != PageNumber(page)) ==>
              Translate(mem, root, page) == None
  {
    TranslateIsLeaf(mem, root, page);
    AfterIsMapped(requests, results, PageNumber(page));
    forall i: nat | i < |requests| && results[i] == Mapped && requests[i].Number() == PageNumber(page)
      ensures Translate(mem, root, page) == Some(And(requests[i].frame, FRAME_MASK))
    {
      SetThenGet(NEW_ENTRY, requests[i].frame, requests[i].flags);
    }
  }

  /** Memory and the firmware's answers between two requests. */
  datatype Moment = Moment(memory: Memory, answers: seq<Answer>) {
    function Stocked(): Stock { Stock(memory.Keys, answers) }
  }

  /** A request was short of memory exactly when the firmware could not supply the tables its page still missed. */
  ghost predicate Explained(root: u64, before: Moment, request: Request, result: MapResult, after: Moment) {
    && (result.AllocationError? <==>
          Supply(before.Stocked(), Ones(Missing(before.memory, root, request.Number(), 3))).None?)
    && Served(before.Stocked(), after.Stocked(), result.Refusal())
  }

  ghost predicate AllExplained(root: u64, requests: seq<Request>, results: seq<MapResult>, moments: seq<Moment>) {
    && |results| == |requests| && |moments| == |requests| + 1
    && forall i: nat | i < |requests| :: Explained(root, moments[i], requests[i], results[i], moments[i + 1])
  }

  /** In terms of the firmware's answers at that moment: an error exactly when the missing tables cannot be had. */
  lemma WhyRefused(root: u64, requests: seq<Request>, results: seq<MapResult>, moments: seq<Moment>, i: nat)
    requires AllExplained(root, requests, results, moments) && i < |requests|
    ensures var missing := Missing(moments[i].memory, root, PageNumber(requests[i].page), 3);
            results[i].AllocationError? <==> Supply(moments[i].Stocked(), Ones(missing)).None?
  {
    hide Served, Supply, Ones, Missing, PageNumber;
    assert Explained(root, moments[i], requests[i], results[i], moments[i + 1]);
  }

  lemma NothingExplained(root: u64, requests: seq<Request>, moment: Moment)
    ensures AllExplained(root, requests[..0], [], [moment])
  {
  }

  lemma OneExplained(
      root: u64, requests: seq<Request>, results: seq<MapResult>, moments: seq<Moment>, request: Request,
      result: MapResult, after: Moment)
    requires AllExplained(root, requests, results, moments)
    requires Explained(root, moments[|requests|], request, result, after)
    ensures AllExplained(root, requests + [request], results + [result], moments + [after])
  {
    hide Explained;
  }

  /** Builds a page table and runs every request on it, going on after errors. */
  method Run(machine: Machine, requests: seq<Request>)
    returns (r: Result<PageTable>, results: seq<MapResult>, ghost moments: seq<Moment>)
    requires Framed(machine.memory)
    requires forall i: nat | i < |requests| :: IsFlags(requests[i].flags)
    modifies machine
    ensures r.Ok? ==> r.value.machine == machine && r.value.Valid()
    ensures r.Ok? ==> |results| == |requests| && Faithful(requests, results)
    ensures r.Ok? ==> Refines(machine.memory, r.value.root, After(requests, results))
    ensures r.Err? <==> old(Supply(machine.Stocked(), NewTableAsks())).None?
    ensures r.Err? || (exists i: nat :: i < |results| && results[i].AllocationError?) <==>
            machine.refusals > old(machine.refusals)
    ensures r.Ok? ==> AllExplained(r.value.root, requests, results, moments)
    ensures r.Ok? ==>
              && moments[|requests|] == Moment(machine.memory, machine.answers)
              && Some(moments[0].Stocked()) == old(Supply(machine.Stocked(), NewTableAsks()))
    ensures r.Ok? ==>
              UpperLinked(moments[0].memory, r.value.root) && Grows(moments[0].memory, machine.memory, r.value.root)
  {
    hide WellFormed, Grows, Missing, MapsOne, SameLeaves, IsNode, Refines, Faithful, After, Framed;
    hide LeafEntry, Encoded, PageNumber, Child, Served, Supply, Ones, AllExplained, Honours, PointedFrame;
    results := [];
    r := TryNew(machine);
    ghost var made := machine.memory;
    moments := [Moment(machine.memory, machine.answers)];
    if r.Err? {
      return;
    }
    var table := r.value;
    NothingRequested(machine.memory, table.root, requests);
    NothingExplained(table.root, requests, moments[0]);
    GrowsReflexive(made, table.root);
    for i := 0 to |requests|
      invariant |results| == i && table.Valid() && Grows(made, machine.memory, table.root)
      invariant Faithful(requests[..i], results)
      invariant (exists j: nat :: j < i && results[j].AllocationError?) <==> machine.refusals > old(machine.refusals)
      invariant machine.refusals >= old(machine.refusals)
      invariant Refines(machine.memory, table.root, After(requests[..i], results))
      invariant |moments| == i + 1 && moments[i] == Moment(machine.memory, machine.answers) && moments[0].memory == made
      invariant Some(moments[0].Stocked()) == old(Supply(machine.Stocked(), NewTableAsks()))
      invariant AllExplained(table.root, requests[..i], results, moments)
    {
      ghost var mem := machine.memory;
      var request := requests[i];
      var result := table.TryMapPageWith(request.page, request.frame, request.flags);
      GrowsTransitive(made, mem, machine.memory, table.root);
      RefinesStep(mem, machine.memory, table.root, requests[..i], results, request, result);
      assert requests[..i + 1] == requests[..i] + [request];
      ghost var after := Moment(machine.memory, machine.answers);
      assert Explained(table.root, moments[i], request, result, after);
      OneExplained(table.root, requests[..i], results, moments, request, result, after);
      results := results + [result];
      moments := moments + [after];
    }
    assert requests[..|requests|] == requests;
  }
}
