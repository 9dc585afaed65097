/** Re-planning one courier's tour: the vertex layout
    [warehouse, pickup 0, delivery 0, pickup 1, delivery 1, ...], the
    delivery-after-pickup precedences, the service times, the solver run and
    the arrival/departure timeline (domain/service/PlanningService.java). */
module Planning {
  import opened Domain
  import opened PickupDeliveries
  import opened Graphs
  import opened TspSpec
  import opened Tsp

  /** The precedences of a layout with `k` requests: the delivery vertex
      2i+2 must come after the pickup vertex 2i+1, and nothing else is
      constrained. */
  ghost predicate LayoutPrecedences(precs: map<int, set<int>>, k: nat) {
    (forall d :: d in precs <==> 2 <= d <= 2 * k && d % 2 == 0) &&
    (forall d :: d in precs ==> precs[d] == {d - 1})
  }

  /** Vertex 2i+1 (the pickup of request `i`) comes before vertex 2i+2 (its
      delivery) in `t`. */
  ghost predicate PickupFirst(t: seq<int>, i: int) {
    exists a, b :: 0 <= a < b < |t| && t[a] == 2 * i + 1 && t[b] == 2 * i + 2
  }

  /** The cost model of the timeline: the graph's arc costs and the service
      times, no precedence and no duration limit. */
  function Costing(graph: Graph, service: seq<real>): Instance {
    Instance(graph, map[], Some(service), Inf)
  }

  /** Fills the vertex ids: the warehouse, then each request's pickup and
      delivery intersections in list order. */
  method BuildStops(warehouse: int, requests: map<int, Request>, ids: seq<int>) returns (stops: array<int>)
    requires AllStored(requests, ids)
    ensures stops.Length == 2 * |ids| + 1 && stops[0] == warehouse
    ensures forall i :: 0 <= i < |ids| ==>
              stops[2 * i + 1] == requests[ids[i]].pickupId && stops[2 * i + 2] == requests[ids[i]].deliveryId
  {
    stops := new int[2 * |ids| + 1];
    var idx := 0;
    stops[idx] := warehouse;
    idx := idx + 1;
    for i := 0 to |ids|
      invariant idx == 2 * i + 1 && stops[0] == warehouse
      invariant forall j :: 0 <= j < i ==>
                  stops[2 * j + 1] == requests[ids[j]].pickupId && stops[2 * j + 2] == requests[ids[j]].deliveryId
    {
      var r := requests[ids[i]];
      stops[idx] := r.pickupId;
      idx := idx + 1;
      stops[idx] := r.deliveryId;
      idx := idx + 1;
    }
  }

  /** One precedence per request: its delivery vertex after its pickup vertex. */
  method Precedences(ids: seq<int>) returns (precs: map<int, set<int>>)
    ensures LayoutPrecedences(precs, |ids|)
  {
    precs := map[];
    var requestIndex := 0;
    for i := 0 to |ids|
      invariant requestIndex == i
      invariant LayoutPrecedences(precs, i)
    {
      var pickupIndex := 1 + requestIndex * 2;
      var deliveryIndex := pickupIndex + 1;
      precs := precs[deliveryIndex := {pickupIndex}];
      requestIndex := requestIndex + 1;
    }
  }

  /** The service time of every vertex, in seconds: none at the warehouse,
      each request's pickup and delivery durations at its two vertices. */
  method ServiceTimes(requests: map<int, Request>, ids: seq<int>) returns (st: array<real>)
    requires AllStored(requests, ids)
    ensures st.Length == 2 * |ids| + 1 && st[0] == 0.0
    ensures forall i :: 0 <= i < |ids| ==>
              st[2 * i + 1] == requests[ids[i]].pickupDuration as real &&
              st[2 * i + 2] == requests[ids[i]].deliveryDuration as real
  {
    st := new real[2 * |ids| + 1](_ => 0.0);
    var requestIndex := 0;
    for i := 0 to |ids|
      invariant requestIndex == i && st[0] == 0.0
      invariant forall j :: 0 <= j < i ==>
                  st[2 * j + 1] == requests[ids[j]].pickupDuration as real &&
                  st[2 * j + 2] == requests[ids[j]].deliveryDuration as real
    {
      var r := requests[ids[i]];
      var pickupIndex := 1 + requestIndex * 2;
      var deliveryIndex := pickupIndex + 1;
      st[pickupIndex] := r.pickupDuration as real;
      st[deliveryIndex] := r.deliveryDuration as real;
      requestIndex := requestIndex + 1;
    }
  }

  /** The service time at `x`; the walk only reads it for vertices in range. */
  function ServiceOf(service: seq<real>, x: int): real {
    if 0 <= x < |service| then service[x] else 0.0
  }

  /** The arrival and departure times along `sol`: the first arrival is 0,
      each departure follows the service at that vertex, and each later
      arrival follows the previous departure by the arc's cost. */
  ghost predicate TimelineOf(graph: Graph, sol: seq<int>, service: seq<real>,
                             arrivals: seq<Ext>, departures: seq<Ext>)
    requires graph.Valid()
  {
    |arrivals| == |sol| && |departures| == |sol| &&
    (|sol| > 0 ==> arrivals[0] == Fin(0.0)) &&
    (forall i :: 0 < i < |sol| ==> arrivals[i] == departures[i - 1].Plus(graph.Cout(sol[i - 1], sol[i]))) &&
    (forall i :: 0 <= i < |sol| ==> departures[i] == arrivals[i].Plus(Fin(ServiceOf(service, sol[i]))))
  }

  /** The departure from position `j` of the walk: the service at the first
      vertex plus the cost of the path up to `j`. */
  ghost function DepartureAt(graph: Graph, sol: seq<int>, service: seq<real>, j: int): Ext
    requires graph.Valid() && 0 <= j < |sol|
  {
    Fin(ServiceOf(service, sol[0])).Plus(PathCost(Costing(graph, service), sol[..j + 1]))
  }

  /** The arrival at position `j` of the walk: time 0 at the start, then
      the previous departure plus the arc's cost. */
  ghost function ArrivalAt(graph: Graph, sol: seq<int>, service: seq<real>, j: int): Ext
    requires graph.Valid() && 0 <= j < |sol|
  {
    if j == 0 then Fin(0.0) else DepartureAt(graph, sol, service, j - 1).Plus(graph.Cout(sol[j - 1], sol[j]))
  }

  /** Leaving a vertex is arriving there and serving it. */
  lemma DepartureAfterService(graph: Graph, sol: seq<int>, service: seq<real>, j: int)
    requires graph.Valid() && 0 <= j < |sol|
    ensures DepartureAt(graph, sol, service, j) ==
            ArrivalAt(graph, sol, service, j).Plus(Fin(ServiceOf(service, sol[j])))
  {
    var inst := Costing(graph, service);
    if j > 0 {
      var prev := DepartureAt(graph, sol, service, j - 1);
      var arc := graph.Cout(sol[j - 1], sol[j]);
      var served := Fin(ServiceOf(service, sol[j]));
      calc {
        DepartureAt(graph, sol, service, j);
      == { DepartureStep(graph, sol, service, j); }
        prev.Plus(Step(inst, sol[j - 1], sol[j]));
      == { assert Service(inst, sol[j]) == ServiceOf(service, sol[j]); }
        prev.Plus(arc.Plus(served));
      == { PlusAssoc(prev, arc, served); }
        prev.Plus(arc).Plus(served);
      }
    }
  }

  /** Each departure after the first adds one step of the path to the
      previous one. */
  lemma DepartureStep(graph: Graph, sol: seq<int>, service: seq<real>, j: int)
    requires graph.Valid() && 0 < j < |sol|
    ensures DepartureAt(graph, sol, service, j) ==
            DepartureAt(graph, sol, service, j - 1).Plus(Step(Costing(graph, service), sol[j - 1], sol[j]))
  {
    var inst := Costing(graph, service);
    var first := Fin(ServiceOf(service, sol[0]));
    calc {
      DepartureAt(graph, sol, service, j);
      first.Plus(PathCost(inst, sol[..j + 1]));
    == { PathCostLast(inst, sol[..j + 1]); assert sol[..j + 1][..j] == sol[..j]; }
      first.Plus(PathCost(inst, sol[..j]).Plus(Step(inst, sol[j - 1], sol[j])));
    == { PlusAssoc(first, PathCost(inst, sol[..j]), Step(inst, sol[j - 1], sol[j])); }
      DepartureAt(graph, sol, service, j - 1).Plus(Step(inst, sol[j - 1], sol[j]));
    }
  }

  /** Walks the tour once, accumulating travel and service time. Each
      departure is the cost of the path so far plus the service at the first
      vertex. */
  method Timeline(graph: Graph, sol: seq<int>, service: seq<real>) returns (arrivals: seq<Ext>, departures: seq<Ext>)
    requires graph.Valid()
    requires forall i :: 0 <= i < |sol| ==> 0 <= sol[i] < |service|
    ensures TimelineOf(graph, sol, service, arrivals, departures)
    ensures forall i :: 0 <= i < |sol| ==> departures[i] == DepartureAt(graph, sol, service, i)
  {
    arrivals := [];
    departures := [];
    var currentTime := Fin(0.0);
    for i := 0 to |sol|
      invariant |arrivals| == i && |departures| == i
      invariant currentTime == if i == 0 then Fin(0.0) else departures[i - 1]
      invariant forall j :: 0 <= j < i ==> arrivals[j] == ArrivalAt(graph, sol, service, j)
      invariant forall j :: 0 <= j < i ==> departures[j] == DepartureAt(graph, sol, service, j)
    {
      var node := sol[i];
      if i > 0 {
        var prev := sol[i - 1];
        currentTime := currentTime.Plus(graph.Cout(prev, node));
      }
      var arrival := currentTime;
      assert arrival == ArrivalAt(graph, sol, service, i);
      var departure := arrival.Plus(Fin(service[node]));
      DepartureAfterService(graph, sol, service, i);
      assert departure == DepartureAt(graph, sol, service, i);
      currentTime := departure;
      arrivals := arrivals + [arrival];
      departures := departures + [departure];
    }
    WalkIsTimeline(graph, sol, service, arrivals, departures);
  }

  /** Times that agree with `ArrivalAt` and `DepartureAt` at every position
      form the timeline of the walk. */
  lemma WalkIsTimeline(graph: Graph, sol: seq<int>, service: seq<real>, arrivals: seq<Ext>, departures: seq<Ext>)
    requires graph.Valid() && |arrivals| == |sol| && |departures| == |sol|
    requires forall j :: 0 <= j < |sol| ==> arrivals[j] == ArrivalAt(graph, sol, service, j)
    requires forall j :: 0 <= j < |sol| ==> departures[j] == DepartureAt(graph, sol, service, j)
    ensures TimelineOf(graph, sol, service, arrivals, departures)
  {
    forall j | 0 <= j < |sol|
      ensures departures[j] == arrivals[j].Plus(Fin(ServiceOf(service, sol[j])))
    {
      DepartureAfterService(graph, sol, service, j);
    }
  }

  /** With non-negative costs and service times, time never runs backwards
      along the timeline. */
  lemma TimelineNonDecreasing(graph: Graph, sol: seq<int>, service: seq<real>,
                              arrivals: seq<Ext>, departures: seq<Ext>, i: int)
    requires graph.Valid() && TimelineOf(graph, sol, service, arrivals, departures)
    requires forall j :: 0 <= j < |sol| ==> 0 <= sol[j] < graph.n
    requires forall x, y :: 0 <= x < graph.n && 0 <= y < graph.n ==> graph.Cout(x, y).Inf? || graph.Cout(x, y).v >= 0.0
    requires forall x :: 0 <= x < |service| ==> service[x] >= 0.0
    requires 0 <= i < |sol|
    ensures arrivals[i].AtMost(departures[i])
    ensures i + 1 < |sol| ==> departures[i].AtMost(arrivals[i + 1])
  {
    PlusNonNeg(arrivals[i], Fin(ServiceOf(service, sol[i])));
    if i + 1 < |sol| {
      assert graph.Cout(sol[i], sol[i + 1]).Inf? || graph.Cout(sol[i], sol[i + 1]).v >= 0.0;
      PlusNonNeg(departures[i], graph.Cout(sol[i], sol[i + 1]));
    }
  }

  /** Under the layout's precedences, every tour visits each request's
      pickup before its delivery. */
  lemma PickupBeforeDelivery(inst: Instance, t: seq<int>, k: nat, i: int)
    requires IsTour(inst, t) && inst.g.n == 2 * k + 1 && LayoutPrecedences(inst.precedences, k)
    requires 0 <= i < k
    ensures PickupFirst(t, i)
  {
    var d := 2 * i + 2;
    IotaCount(inst.g.n, d);
    assert d in multiset(t);
    var b :| 0 <= b < |t| && t[b] == d;
    assert b != 0;
    assert d - 1 in Preds(inst, t[b]);
    assert d - 1 in t[..b];
    var a :| 0 <= a < b && t[..b][a] == d - 1;
  }

  class PlanningService {
    /** The request book the service plans from. */
    const requestBook: PickupDelivery
    /** The solver, kept between runs. */
    const tsp: Tsp1

    constructor (requestBook: PickupDelivery)
      ensures this.requestBook == requestBook && fresh(tsp)
      ensures tsp.precedences == map[] && tsp.serviceTimes == None && tsp.maxDuration == Inf
    {
      this.requestBook := requestBook;
      tsp := new Tsp1();
    }

    /** Plans the courier's tour over `costs`, the shortest-path costs
        between the laid-out stops, and walks it. The timeline is absent
        exactly when the solver stored no tour, where the source throws a
        `NullPointerException` on unboxing the missing solution. */
    method RecomputeTourForCourier(courierId: int, costs: Graph)
      returns (stops: seq<int>, timeline: Option<(seq<Ext>, seq<Ext>)>)
      requires courierId in requestBook.requestsPerCourier
      requires AllStored(requestBook.requests, requestBook.requestsPerCourier[courierId])
      requires costs.Valid() && costs.n == 2 * |requestBook.requestsPerCourier[courierId]| + 1
      modifies tsp
      ensures var ids := requestBook.requestsPerCourier[courierId];
              |stops| == 2 * |ids| + 1 && stops[0] == requestBook.warehouseAdressId &&
              (forall i :: 0 <= i < |ids| ==>
                 stops[2 * i + 1] == requestBook.requests[ids[i]].pickupId &&
                 stops[2 * i + 2] == requestBook.requests[ids[i]].deliveryId)
      ensures tsp.g == Some(costs) && tsp.SolutionInv()
      ensures LayoutPrecedences(tsp.precedences, |requestBook.requestsPerCourier[courierId]|)
      ensures var ids := requestBook.requestsPerCourier[courierId];
              tsp.serviceTimes.Some? && |tsp.serviceTimes.value| == costs.n && tsp.serviceTimes.value[0] == 0.0 &&
              (forall i :: 0 <= i < |ids| ==>
                 tsp.serviceTimes.value[2 * i + 1] == requestBook.requests[ids[i]].pickupDuration as real &&
                 tsp.serviceTimes.value[2 * i + 2] == requestBook.requests[ids[i]].deliveryDuration as real)
      ensures timeline.Some? <==> tsp.AllSome()
      ensures timeline.Some? ==>
                var t := tsp.Route();
                IsTour(tsp.Inst(), t) &&
                (forall i :: 0 <= i < |requestBook.requestsPerCourier[courierId]| ==> PickupFirst(t, i)) &&
                TimelineOf(costs, t, tsp.serviceTimes.value, timeline.value.0, timeline.value.1) &&
                timeline.value.1[|t| - 1] == PathCost(tsp.Inst(), t)
      ensures timeline.Some? && NonNeg(tsp.Inst()) ==>
                forall t :: IsTour(tsp.Inst(), t) ==> Fin(tsp.coutMeilleureSolution).AtMost(TourCost(tsp.Inst(), t))
    {
      var ids := requestBook.requestsPerCourier[courierId];
      var stopArray := BuildStops(requestBook.warehouseAdressId, requestBook.requests, ids);
      stops := stopArray[..];
      var precs := Precedences(ids);
      tsp.SetPrecedences(Some(precs));
      var serviceTimes := ServiceTimes(requestBook.requests, ids);
      tsp.SetServiceTimes(Some(serviceTimes[..]));
      tsp.ChercheSolution(30000, costs);
      timeline := WalkSolution(costs, |ids|);
    }

    /** Walks the tour the solver stored, if any, over the laid-out stops. */
    method WalkSolution(costs: Graph, k: nat) returns (timeline: Option<(seq<Ext>, seq<Ext>)>)
      requires tsp.g == Some(costs) && tsp.SolutionInv() && costs.n == 2 * k + 1
      requires LayoutPrecedences(tsp.precedences, k)
      requires tsp.serviceTimes.Some? && |tsp.serviceTimes.value| == costs.n && tsp.serviceTimes.value[0] == 0.0
      ensures timeline.Some? <==> tsp.AllSome()
      ensures timeline.Some? ==>
                var t := tsp.Route();
                IsTour(tsp.Inst(), t) &&
                (forall i :: 0 <= i < k ==> PickupFirst(t, i)) &&
                TimelineOf(costs, t, tsp.serviceTimes.value, timeline.value.0, timeline.value.1) &&
                timeline.value.1[|t| - 1] == PathCost(tsp.Inst(), t)
    {
      var sol := ReadSolution();
      if sol.None? {
        return None;
      }
      var service := tsp.serviceTimes.value;
      TourFacts(tsp.Inst(), sol.value, k, service);
      var arrivals, departures := Timeline(costs, sol.value, service);
      FinalDeparture(costs, sol.value, service, tsp.Inst());
      timeline := Some((arrivals, departures));
    }

    /** Reads the stored tour vertex by vertex; a missing entry means no
        tour was stored. */
    method ReadSolution() returns (sol: Option<seq<int>>)
      requires tsp.Ready()
      ensures sol.Some? <==> tsp.AllSome()
      ensures sol.Some? ==> sol.value == tsp.Route()
    {
      var n := tsp.g.value.n;
      var found: seq<int> := [];
      for i := 0 to n
        invariant |found| == i
        invariant forall j :: 0 <= j < i ==> tsp.meilleureSolution[j] == Some(found[j])
      {
        var node := tsp.GetSolution(i);
        if node.None? {
          return None;
        }
        found := found + [node.value];
      }
      return Some(found);
    }
  }

  /** A tour under the layout's precedences only visits vertices that have
      a service time, and serves every pickup before its delivery. */
  lemma TourFacts(inst: Instance, t: seq<int>, k: nat, service: seq<real>)
    requires IsTour(inst, t) && inst.g.n == 2 * k + 1 && |service| == inst.g.n
    requires LayoutPrecedences(inst.precedences, k)
    ensures forall i :: 0 <= i < |t| ==> 0 <= t[i] < |service|
    ensures forall i :: 0 <= i < k ==> PickupFirst(t, i)
  {
    forall i | 0 <= i < |t|
      ensures 0 <= t[i] < |service|
    {
      IotaCount(inst.g.n, t[i]);
      assert t[i] in multiset(t);
    }
    forall i | 0 <= i < k
      ensures PickupFirst(t, i)
    {
      PickupBeforeDelivery(inst, t, k, i);
    }
  }

  /** When the walk starts at the warehouse, which has no service time, the
      last departure is the cost of the whole path. */
  lemma FinalDeparture(graph: Graph, t: seq<int>, service: seq<real>, inst: Instance)
    requires graph.Valid() && |t| >= 1 && t[0] == 0 && |service| >= 1 && service[0] == 0.0
    requires inst.g == graph && inst.serviceTimes == Some(service)
    ensures DepartureAt(graph, t, service, |t| - 1) == PathCost(inst, t)
  {
    assert t[..|t|] == t;
    PathCostIgnoresOrdering(Costing(graph, service), inst, t);
  }

  /** The cost of a path depends only on the arc costs and service times. */
  lemma {:induction false} PathCostIgnoresOrdering(a: Instance, b: Instance, p: seq<int>)
    requires a.g == b.g && a.serviceTimes == b.serviceTimes && a.g.Valid()
    ensures PathCost(a, p) == PathCost(b, p)
  {
    if |p| > 1 {
      PathCostIgnoresOrdering(a, b, p[..|p| - 1]);
    }
  }
}
