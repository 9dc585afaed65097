/** The web service's own tour calculation: the cost matrix between the
    de-duplicated points, the delivery-to-pickup gate, the solver run, the
    stop list with its running clock, and the read-back of a shortest path
    (application/ApiService.java). */
module ApiServices {
  import opened Domain
  import opened Collections
  import opened Graphs
  import opened TspSpec
  import opened Tsp
  import opened ApiSpec

  const LongMax: int := 9223372036854775807
  const LongMin: int := -9223372036854775808

  /** Dropping the fraction, toward zero. */
  function Truncate(x: real): (r: int)
    ensures x >= 0.0 ==> r == x.Floor
    ensures x < 0.0 ==> r == -((-x).Floor)
  {
    if x >= 0.0 then x.Floor else -((-x).Floor)
  }

  /** The Java narrowing of a double to an integer type of range [lo, hi]:
      truncation toward zero, saturating at the bounds. */
  function Narrow(x: real, lo: int, hi: int): (r: int)
    requires lo <= 0 <= hi
    ensures lo <= r <= hi
    ensures lo <= Truncate(x) <= hi ==> r == Truncate(x)
    ensures x >= 0.0 ==> r >= 0
  {
    var t := Truncate(x);
    if t > hi then hi else if t < lo then lo else t
  }

  /** A cast keeps the whole part of a value in range and loses less than
      one unit. */
  lemma NarrowLosesFraction(x: real)
    requires 0.0 <= x < IntMax as real
    ensures Narrow(x, IntMin, IntMax) as real <= x < Narrow(x, IntMin, IntMax) as real + 1.0
  {
  }

  /** The entry at (`i`, `j`) of the cost matrix: 0 on the diagonal, the
      truncated path length when a path exists, `Integer.MAX_VALUE` otherwise. */
  function CostEntry(points: seq<int>, lengths: map<(int, int), real>, i: int, j: int): int
    requires 0 <= i < |points| && 0 <= j < |points|
  {
    if i == j then 0
    else if (points[i], points[j]) in lengths then Narrow(lengths[(points[i], points[j])], IntMin, IntMax)
    else IntMax
  }

  /** The matrix is an int matrix with a zero diagonal; with non-negative
      path lengths every entry is non-negative, and a missing path costs the
      largest int. */
  lemma CostEntryFacts(points: seq<int>, lengths: map<(int, int), real>, i: int, j: int)
    requires 0 <= i < |points| && 0 <= j < |points|
    requires forall k :: k in lengths ==> lengths[k] >= 0.0
    ensures 0 <= CostEntry(points, lengths, i, j) <= IntMax
    ensures i == j ==> CostEntry(points, lengths, i, j) == 0
    ensures i != j && (points[i], points[j]) !in lengths ==> CostEntry(points, lengths, i, j) == IntMax
  {
  }

  /** Fills the matrix of travel costs between the points. `lengths` holds
      the length of the shortest path for each pair of intersections the
      search connects. */
  method CostMatrix(points: seq<int>, lengths: map<(int, int), real>) returns (costs: array2<int>)
    ensures costs.Length0 == |points| && costs.Length1 == |points|
    ensures forall i, j :: 0 <= i < |points| && 0 <= j < |points| ==> costs[i, j] == CostEntry(points, lengths, i, j)
  {
    var n := |points|;
    costs := new int[n, n];
    for i := 0 to n
      invariant forall r, c :: 0 <= r < i && 0 <= c < n ==> costs[r, c] == CostEntry(points, lengths, r, c)
    {
      for j := 0 to n
        invariant forall r, c :: 0 <= r < i && 0 <= c < n ==> costs[r, c] == CostEntry(points, lengths, r, c)
        invariant forall c :: 0 <= c < j ==> costs[i, c] == CostEntry(points, lengths, i, c)
      {
        if i == j {
          costs[i, j] := 0;
        } else if (points[i], points[j]) in lengths {
          costs[i, j] := Narrow(lengths[(points[i], points[j])], IntMin, IntMax);
        } else {
          costs[i, j] := IntMax;
        }
      }
    }
  }

  /** The solver's view of an int cost matrix. */
  function GraphOf(costs: array2<int>): (g: Graph)
    requires costs.Length0 == costs.Length1
    reads costs
    ensures g.Valid() && g.n == costs.Length0
    ensures forall i, j :: 0 <= i < g.n && 0 <= j < g.n ==> g.Cout(i, j) == Fin(costs[i, j] as real)
  {
    Graph(costs.Length0, seq(costs.Length0, i requires 0 <= i < costs.Length0 reads costs =>
                          seq(costs.Length0, j requires 0 <= j < costs.Length0 reads costs => Fin(costs[i, j] as real))))
  }

  /** The pickup-to-delivery table: a later request with the same pickup
      overwrites an earlier one. */
  function PickupToDelivery(reqs: seq<Request>): map<int, int> {
    if reqs == [] then map[]
    else
      var last := reqs[|reqs| - 1];
      PickupToDelivery(reqs[..|reqs| - 1])[last.pickupId := last.deliveryId]
  }

  /** `reqs[i]` is the last request that picks up at `p`. */
  predicate LastPickupAt(reqs: seq<Request>, p: int, i: int) {
    0 <= i < |reqs| && reqs[i].pickupId == p && forall j :: i < j < |reqs| ==> reqs[j].pickupId != p
  }

  /** Every pickup of a request is a key, and nothing else is. */
  lemma {:induction false} PickupToDeliveryKeys(reqs: seq<Request>, p: int)
    ensures p in PickupToDelivery(reqs) <==> exists i :: 0 <= i < |reqs| && reqs[i].pickupId == p
  {
    if reqs != [] {
      var init := reqs[..|reqs| - 1];
      PickupToDeliveryKeys(init, p);
      if reqs[|reqs| - 1].pickupId != p {
        forall i | 0 <= i < |reqs| && reqs[i].pickupId == p
          ensures exists k :: 0 <= k < |init| && init[k].pickupId == p
        {
          assert init[i] == reqs[i];
        }
        forall k | 0 <= k < |init| && init[k].pickupId == p
          ensures reqs[k].pickupId == p
        {
          assert init[k] == reqs[k];
        }
      }
    }
  }

  /** Each key maps to the delivery of the last request with that pickup:
      a later request overwrites an earlier one. */
  lemma {:induction false} PickupToDeliveryLast(reqs: seq<Request>, p: int)
    requires p in PickupToDelivery(reqs)
    ensures exists i :: LastPickupAt(reqs, p, i) && PickupToDelivery(reqs)[p] == reqs[i].deliveryId
  {
    var init := reqs[..|reqs| - 1];
    var last := reqs[|reqs| - 1];
    if last.pickupId == p {
      assert LastPickupAt(reqs, p, |reqs| - 1);
    } else {
      PickupToDeliveryLast(init, p);
      var i :| LastPickupAt(init, p, i) && PickupToDelivery(init)[p] == init[i].deliveryId;
      assert reqs[i] == init[i];
      assert LastPickupAt(reqs, p, i);
    }
  }

  /** Some pickup of the table leads to delivery point `x`. */
  ghost predicate Delivers(p2d: map<int, int>, x: int) {
    exists k :: k in p2d && p2d[k] == x
  }

  /** `containsValue` followed by the scan of the entries: a pickup whose
      delivery is `x`, met in the map's own order, or none when there is
      none. */
  method FindPickup(p2d: map<int, int>, x: int) returns (pickup: Option<int>)
    ensures pickup.Some? ==> pickup.value in p2d && p2d[pickup.value] == x
    ensures pickup.None? <==> !Delivers(p2d, x)
  {
    var keys := p2d.Keys;
    while keys != {}
      invariant keys <= p2d.Keys
      invariant forall k :: k in p2d && k !in keys ==> p2d[k] != x
      decreases |keys|
    {
      NonEmptyHasInt(keys);
      var k :| k in keys;
      if p2d[k] == x {
        return Some(k);
      }
      keys := keys - {k};
    }
    return None;
  }

  /** For each point that is some request's delivery, the position of a
      pickup leading to it. The source takes the first such pickup in hash
      map order, which it leaves unspecified: any one may be taken here. */
  method DeliveryToPickupIndex(points: seq<int>, p2d: map<int, int>) returns (d2p: map<int, int>)
    ensures forall i :: i in d2p <==> 0 <= i < |points| && Delivers(p2d, points[i])
    ensures forall i :: i in d2p ==> exists k :: k in p2d && p2d[k] == points[i] && d2p[i] == IndexOf(points, k)
  {
    d2p := map[];
    for i := 0 to |points|
      invariant forall d :: d in d2p <==> 0 <= d < i && Delivers(p2d, points[d])
      invariant forall d :: d in d2p ==> exists k :: k in p2d && p2d[k] == points[d] && d2p[d] == IndexOf(points, k)
    {
      var currentPointId := points[i];
      var pickup := FindPickup(p2d, currentPointId);
      if pickup.Some? {
        var pickupIndex := IndexOf(points, pickup.value);
        d2p := d2p[i := pickupIndex];
      }
    }
  }

  /** The gate only names points: every pickup of a request is among the
      points, so each gating position is a vertex. */
  lemma GateInRange(points: seq<int>, reqs: seq<Request>, d2p: map<int, int>)
    requires forall i :: 0 <= i < |reqs| ==> reqs[i].pickupId in points
    requires forall i :: i in d2p ==> exists k :: k in PickupToDelivery(reqs) && d2p[i] == IndexOf(points, k)
    ensures forall i :: i in d2p ==> 0 <= d2p[i] < |points|
  {
    forall i | i in d2p
      ensures 0 <= d2p[i] < |points|
    {
      var k :| k in PickupToDelivery(reqs) && d2p[i] == IndexOf(points, k);
      PickupToDeliveryKeys(reqs, k);
    }
  }

  /** The custom iterator: the unvisited vertices in order, without the
      deliveries whose pickup is still unvisited. */
  method Candidates(d2p: map<int, int>, nonVus: seq<int>) returns (allowed: seq<int>)
    ensures allowed == Allowed(d2p, nonVus)
  {
    allowed := [];
    for i := 0 to |nonVus|
      invariant allowed == Gated(d2p, nonVus[..i], nonVus)
    {
      assert nonVus[..i + 1][..i] == nonVus[..i];
      var nv := nonVus[i];
      if nv in d2p {
        var pickupIndex := d2p[nv];
        if pickupIndex in nonVus {
          continue;
        }
      }
      allowed := allowed + [nv];
    }
    assert nonVus[..|nonVus|] == nonVus;
  }

  /** The stop at intersection `x`: the first request that picks up or
      delivers there, pickup checked first; no kind when none does. */
  method ClassifyStop(reqs: seq<Request>, x: int) returns (kind: Option<StopType>, requestId: int, duration: int)
    ensures Classify(reqs, x).None? ==> kind == None && requestId == -1 && duration == 0
    ensures Classify(reqs, x).Some? ==>
              kind == Some(Classify(reqs, x).value.0) && requestId == Classify(reqs, x).value.1 &&
              duration == Classify(reqs, x).value.2
  {
    kind := None;
    requestId := -1;
    duration := 0;
    for i := 0 to |reqs|
      invariant Classify(reqs, x) == Classify(reqs[i..], x)
    {
      var req := reqs[i];
      assert reqs[i..][1..] == reqs[i + 1..];
      if req.pickupId == x {
        kind := Some(Pickup);
        requestId := req.id;
        duration := req.pickupDuration;
        return;
      } else if req.deliveryId == x {
        kind := Some(Delivery);
        requestId := req.id;
        duration := req.deliveryDuration;
        return;
      }
    }
  }

  /** The intersections of a stored solution, by position; positions with
      no stored vertex are skipped. */
  function VisitedIds(points: seq<int>, sol: seq<Option<int>>): seq<int>
    requires forall i :: 0 <= i < |sol| && sol[i].Some? ==> 0 <= sol[i].value < |points|
  {
    if sol == [] then []
    else
      var last := sol[|sol| - 1];
      VisitedIds(points, sol[..|sol| - 1]) + (if last.Some? then [points[last.value]] else [])
  }

  /** The intersections along a route of vertex positions (-1 for a
      position that names no point). */
  function PointsAlong(points: seq<int>, route: seq<int>): (ids: seq<int>)
    ensures |ids| == |route|
    ensures forall i :: 0 <= i < |route| && 0 <= route[i] < |points| ==> ids[i] == points[route[i]]
  {
    seq(|route|, i requires 0 <= i < |route| => if 0 <= route[i] < |points| then points[route[i]] else -1)
  }

  /** A stored solution is either empty, and visits nothing, or full, and
      visits the points along its route. */
  lemma {:induction false} VisitedIdsOfStored(points: seq<int>, sol: seq<Option<int>>)
    requires forall i :: 0 <= i < |sol| && sol[i].Some? ==> 0 <= sol[i].value < |points|
    ensures Empty(sol) ==> VisitedIds(points, sol) == []
    ensures Full(sol) ==> VisitedIds(points, sol) == PointsAlong(points, RouteOf(sol))
  {
    if sol != [] {
      var init := sol[..|sol| - 1];
      VisitedIdsOfStored(points, init);
      if Full(sol) {
        assert Full(init);
        assert RouteOf(sol) == RouteOf(init) + [sol[|sol| - 1].value];
      } else if Empty(sol) {
        assert Empty(init);
      }
    }
  }

  /** Every vertex of a tour is a position of the graph. */
  lemma TourInRange(inst: Instance, t: seq<int>)
    requires IsTour(inst, t)
    ensures forall i :: 0 <= i < |t| ==> 0 <= t[i] < inst.g.n
  {
    forall i | 0 <= i < |t|
      ensures 0 <= t[i] < inst.g.n
    {
      IotaCount(inst.g.n, t[i]);
      assert t[i] in multiset(t);
    }
  }

  /** One more position of the stored solution. */
  lemma VisitedIdsStep(points: seq<int>, sol: seq<Option<int>>, i: int)
    requires 0 <= i < |sol|
    requires forall i :: 0 <= i < |sol| && sol[i].Some? ==> 0 <= sol[i].value < |points|
    ensures VisitedIds(points, sol[..i + 1]) ==
            VisitedIds(points, sol[..i]) + (if sol[i].Some? then [points[sol[i].value]] else [])
  {
    assert sol[..i + 1][..i] == sol[..i];
  }

  /** The stops and clock after visiting `x`: the warehouse and unserved
      points add nothing, any other point adds a stop and its duration to
      the clock. */
  function Extend(reqs: seq<Request>, warehouse: int, before: (seq<TourStop>, int), x: int): (seq<TourStop>, int) {
    if x == warehouse || Classify(reqs, x).None? then before
    else
      var (kind, rid, dur) := Classify(reqs, x).value;
      (before.0 + [TourStop(kind, rid, x, Some(before.1), Some(before.1 + dur))], before.1 + dur)
  }

  lemma StopsAlongSnoc(reqs: seq<Request>, warehouse: int, visited: seq<int>, x: int)
    ensures StopsAlong(reqs, warehouse, visited + [x]) == Extend(reqs, warehouse, StopsAlong(reqs, warehouse, visited), x)
  {
    assert (visited + [x])[..|visited|] == visited;
  }

  /** Visits one intersection other than the warehouse: classifies it,
      advances the clock by its service duration and, when a request serves
      it, adds its stop. */
  method Visit(reqs: seq<Request>, warehouseId: int, intersectionId: int, stops: seq<TourStop>, totalDuration: int)
    returns (stops': seq<TourStop>, totalDuration': int)
    requires intersectionId != warehouseId
    ensures (stops', totalDuration') == Extend(reqs, warehouseId, (stops, totalDuration), intersectionId)
  {
    var stopType, requestId, duration := ClassifyStop(reqs, intersectionId);
    var arrivalTime := totalDuration;
    totalDuration' := totalDuration + duration;
    var departureTime := totalDuration';
    stops' := stops;
    if stopType.Some? {
      stops' := stops + [TourStop(stopType.value, requestId, intersectionId, Some(arrivalTime), Some(departureTime))];
    }
  }

  /** Walks the stored tour and builds its stops with the running clock. */
  method WalkStops(tsp: Tsp1, reqs: seq<Request>, warehouseId: int, points: seq<int>)
    returns (stops: seq<TourStop>, totalDuration: int)
    requires tsp.g.Some? && tsp.meilleureSolution.Length == tsp.g.value.n == |points|
    requires forall i :: 0 <= i < |points| && tsp.meilleureSolution[i].Some? ==>
               0 <= tsp.meilleureSolution[i].value < |points|
    ensures (stops, totalDuration) == StopsAlong(reqs, warehouseId, VisitedIds(points, tsp.meilleureSolution[..]))
  {
    ghost var sol := tsp.meilleureSolution[..];
    stops := [];
    totalDuration := 0;
    for i := 0 to |points|
      invariant (stops, totalDuration) == StopsAlong(reqs, warehouseId, VisitedIds(points, sol[..i]))
    {
      ghost var prev := VisitedIds(points, sol[..i]);
      VisitedIdsStep(points, sol, i);
      var index := tsp.GetSolution(i);
      assert index == sol[i];
      if index.None? {
        assert VisitedIds(points, sol[..i + 1]) == prev;
        continue;
      }
      var intersectionId := points[index.value];
      assert VisitedIds(points, sol[..i + 1]) == prev + [intersectionId];
      StopsAlongSnoc(reqs, warehouseId, prev, intersectionId);
      if intersectionId == warehouseId {
        continue;
      }
      stops, totalDuration := Visit(reqs, warehouseId, intersectionId, stops, totalDuration);
    }
    assert sol[..|points|] == sol;
  }

  /** The warehouse, then each request's pickup and delivery. */
  method CollectPoints(warehouseId: int, reqs: seq<Request>) returns (points: seq<int>)
    ensures points == Points(warehouseId, reqs)
  {
    points := [warehouseId];
    for i := 0 to |reqs|
      invariant points == Points(warehouseId, reqs[..i])
    {
      assert reqs[..i + 1][..i] == reqs[..i];
      var req := reqs[i];
      points := points + [req.pickupId, req.deliveryId];
    }
    assert reqs[..|reqs|] == reqs;
  }

  /** Fills the pickup-to-delivery table in request order. */
  method CollectPickups(reqs: seq<Request>) returns (p2d: map<int, int>)
    ensures p2d == PickupToDelivery(reqs)
  {
    p2d := map[];
    for i := 0 to |reqs|
      invariant p2d == PickupToDelivery(reqs[..i])
    {
      assert reqs[..i + 1][..i] == reqs[..i];
      var req := reqs[i];
      p2d := p2d[req.pickupId := req.deliveryId];
    }
    assert reqs[..|reqs|] == reqs;
  }

  /** Reads the path back from the predecessor map of the shortest-path
      search: nothing when `endId` has no predecessor and is not `startId`;
      otherwise the ids from `endId` back along the predecessors, reported
      when the first of them is `startId`. `rank` witnesses that the links
      never cycle. */
  method ReconstructPath(preds: map<int, int>, startId: int, endId: int, ghost rank: map<int, nat>)
    returns (path: Option<seq<int>>)
    requires Ranked(preds, rank)
    ensures path == ExpectedPath(preds, rank, startId, endId)
  {
    if endId !in preds && endId != startId {
      return None;
    }
    var pathIntersections: seq<int> := [];
    var step: Option<int> := Some(endId);
    while step.Some?
      invariant step.Some? ==> Chain(preds, rank, step.value) + pathIntersections == Chain(preds, rank, endId)
      invariant step.None? ==> pathIntersections == Chain(preds, rank, endId)
      decreases if step.Some? then Height(preds, rank, step.value) + 1 else 0
    {
      pathIntersections := [step.value] + pathIntersections;
      step := if step.value in preds then Some(preds[step.value]) else None;
    }
    if |pathIntersections| > 0 && pathIntersections[0] == startId {
      return Some(pathIntersections);
    }
    return None;
  }

  /** The solver over `graph`, gated by `d2p` and run with a positive time
      limit: its stored tour is gated and, with non-negative costs, no tour
      is cheaper than its best cost. */
  method Solve(graph: Graph, d2p: map<int, int>) returns (tsp: Tsp1)
    requires graph.Valid() && graph.n >= 1
    requires forall d :: d in d2p ==> 0 <= d2p[d] < graph.n
    ensures fresh(tsp) && tsp.g == Some(graph) && tsp.precedences == GatePrecedences(d2p)
    ensures tsp.serviceTimes == None && tsp.maxDuration == Inf
    ensures tsp.SolutionInv()
    ensures NonNeg(tsp.Inst()) ==>
              forall t :: IsTour(tsp.Inst(), t) ==> Fin(tsp.coutMeilleureSolution).AtMost(TourCost(tsp.Inst(), t))
  {
    tsp := new Tsp1();
    tsp.SetPrecedences(Some(GatePrecedences(d2p)));
    tsp.ChercheSolution(10000, graph);
  }

  /** What `d2p` records about the points: exactly the delivery points are
      keys, each mapped to the position of a pickup leading to it. */
  ghost predicate GateFor(points: seq<int>, p2d: map<int, int>, d2p: map<int, int>) {
    (forall i :: i in d2p <==> 0 <= i < |points| && Delivers(p2d, points[i])) &&
    (forall i :: i in d2p ==> exists k :: k in p2d && p2d[k] == points[i] && d2p[i] == IndexOf(points, k))
  }

  /** In a tour gated by `d2p`, every visited delivery point comes after a
      pickup point whose request delivers there. */
  lemma GatedTourOrder(points: seq<int>, reqs: seq<Request>, d2p: map<int, int>, inst: Instance, t: seq<int>, i: int)
    requires GateFor(points, PickupToDelivery(reqs), d2p)
    requires inst.precedences == GatePrecedences(d2p) && IsTour(inst, t)
    requires 1 <= i < |t| && 0 <= t[i] < |points| && Delivers(PickupToDelivery(reqs), points[t[i]])
    ensures exists j :: 0 <= j < i && 0 <= t[j] < |points| &&
              exists r :: 0 <= r < |reqs| && reqs[r].pickupId == points[t[j]] && reqs[r].deliveryId == points[t[i]]
  {
    var p2d := PickupToDelivery(reqs);
    var k :| k in p2d && p2d[k] == points[t[i]] && d2p[t[i]] == IndexOf(points, k);
    assert d2p[t[i]] in Preds(inst, t[i]);
    var j :| 0 <= j < i && t[j] == d2p[t[i]];
    TourInRange(inst, t);
    PickupToDeliveryLast(reqs, k);
    var r :| LastPickupAt(reqs, k, r) && p2d[k] == reqs[r].deliveryId;
  }

  /** With every arc cost finite, so is the cost of every path. */
  lemma {:induction false} PathCostFinite(inst: Instance, p: seq<int>)
    requires inst.g.Valid()
    requires forall i, j :: 0 <= i < inst.g.n && 0 <= j < inst.g.n ==> inst.g.Cout(i, j).Fin?
    ensures PathCost(inst, p).Fin?
  {
    if |p| > 1 {
      PathCostFinite(inst, p[..|p| - 1]);
    }
  }

  /** A graph built from the cost matrix is finite everywhere, and
      non-negative when every path length is. */
  lemma CostGraphFacts(points: seq<int>, lengths: map<(int, int), real>, inst: Instance)
    requires inst.g.Valid() && inst.g.n == |points| && inst.serviceTimes == None
    requires forall i, j :: 0 <= i < |points| && 0 <= j < |points| ==>
               inst.g.Cout(i, j) == Fin(CostEntry(points, lengths, i, j) as real)
    ensures forall i, j :: 0 <= i < inst.g.n && 0 <= j < inst.g.n ==> inst.g.Cout(i, j).Fin?
    ensures (forall k :: k in lengths ==> lengths[k] >= 0.0) ==> NonNeg(inst)
  {
    if forall k :: k in lengths ==> lengths[k] >= 0.0 {
      forall i, j | 0 <= i < inst.g.n && 0 <= j < inst.g.n
        ensures inst.g.Cout(i, j).v >= 0.0
      {
        CostEntryFacts(points, lengths, i, j);
      }
    }
  }

  /** A stored solution names only vertices of the graph. */
  lemma StoredInRange(inst: Instance, sol: seq<Option<int>>, best: real)
    requires inst.g.Valid() && |sol| >= 1 && BestOk(inst, sol, best)
    ensures forall i :: 0 <= i < |sol| && sol[i].Some? ==> 0 <= sol[i].value < inst.g.n
  {
    if Full(sol) {
      var route := RouteOf(sol);
      TourInRange(inst, route);
      assert forall i :: 0 <= i < |sol| ==> route[i] == sol[i].value;
    }
  }

  /** The points, their cost graph and the gate, built from the requests. */
  method Prepare(reqs: seq<Request>, warehouseId: int, lengths: map<(int, int), real>)
    returns (points: seq<int>, graph: Graph, d2p: map<int, int>)
    ensures points == Dedupe(Points(warehouseId, reqs)) && |points| >= 1
    ensures graph.Valid() && graph.n == |points|
    ensures forall i, j :: 0 <= i < |points| && 0 <= j < |points| ==>
              graph.Cout(i, j) == Fin(CostEntry(points, lengths, i, j) as real)
    ensures GateFor(points, PickupToDelivery(reqs), d2p)
    ensures forall d :: d in d2p ==> 0 <= d2p[d] < |points|
  {
    var allPoints := CollectPoints(warehouseId, reqs);
    points := Dedupe(allPoints);
    DedupeSpec(allPoints);
    DedupeHead(allPoints);
    var costs := CostMatrix(points, lengths);
    graph := GraphOf(costs);
    var pickupToDelivery := CollectPickups(reqs);
    d2p := DeliveryToPickupIndex(points, pickupToDelivery);
    forall i | 0 <= i < |reqs|
      ensures reqs[i].pickupId in points
    {
      assert allPoints[2 * i + 1] == reqs[i].pickupId;
    }
    GateInRange(points, reqs, d2p);
  }

  /** Reads the solver's stored tour back as the courier's tour: the stops
      along it, no road segments, and the best cost, cast to a long, as the
      distance. */
  method Finish(tsp: Tsp1, courierId: int, reqs: seq<Request>, warehouseId: int, points: seq<int>)
    returns (tour: TourData, ghost route: seq<int>, ghost best: real)
    requires tsp.SolutionInv() && tsp.g.value.n == |points|
    requires forall i, j :: 0 <= i < |points| && 0 <= j < |points| ==> tsp.g.value.Cout(i, j).Fin?
    ensures best == tsp.coutMeilleureSolution
    ensures (route == [] && best == IntMax as real) || (IsTour(tsp.Inst(), route) && TourCost(tsp.Inst(), route) == Fin(best))
    ensures tour.courierId == courierId && tour.segments == [] &&
            tour.totalDistance == Narrow(best, LongMin, LongMax) as real
    ensures (tour.stops, tour.totalDuration) == StopsAlong(reqs, warehouseId, PointsAlong(points, route))
  {
    ghost var inst := tsp.Inst();
    ghost var sol := tsp.meilleureSolution[..];
    best := tsp.coutMeilleureSolution;
    StoredInRange(inst, sol, best);
    route := if Full(sol) then RouteOf(sol) else [];
    if Full(sol) {
      PathCostFinite(inst, route);
    }
    VisitedIdsOfStored(points, sol);
    var stops, totalDuration := WalkStops(tsp, reqs, warehouseId, points);
    var totalDistance := Narrow(tsp.GetCoutSolution(), LongMin, LongMax);
    tour := TourData(courierId, stops, [], totalDistance as real, totalDuration);
  }

  /** Three points: the warehouse (0), a pickup (1) and its delivery (2).
      Leaving the warehouse for the pickup costs 10, every other move 1. */
  function ExampleGraph(): (g: Graph)
    ensures g.Valid() && g.n == 3
  {
    Graph(3, [[Fin(0.0), Fin(10.0), Fin(1.0)],
              [Fin(1.0), Fin(0.0), Fin(1.0)],
              [Fin(1.0), Fin(1.0), Fin(0.0)]])
  }

  /** The example as the source's solver sees it: no precedences. */
  function Ungated(): Instance {
    Instance(ExampleGraph(), map[], None, Inf)
  }

  /** The example with the gate given as precedences. */
  function GatedExample(): Instance {
    Instance(ExampleGraph(), GatePrecedences(map[2 := 1]), None, Inf)
  }

  /** From the warehouse the delivery is the cheapest next point... */
  lemma UngatedFirstStep()
    ensures Nearest(Ungated(), [0], Fin(0.0), 2)
  {
    forall y | Eligible(Ungated(), [0], Fin(0.0), y)
      ensures y == 1 || y == 2
    {
    }
  }

  /** ...and the pickup is all that is left after it. */
  lemma UngatedSecondStep()
    ensures Nearest(Ungated(), [0, 2], PathCost(Ungated(), [0, 2]), 1)
  {
    forall y | Eligible(Ungated(), [0, 2], PathCost(Ungated(), [0, 2]), y)
      ensures y == 1
    {
    }
  }

  /** Without precedences the nearest-neighbour start goes to the delivery
      first... */
  lemma UngatedGreedy()
    ensures Greedy(Ungated(), [0, 2, 1])
  {
    UngatedFirstStep();
    assert [0, 2][..1] == [0];
    assert Greedy(Ungated(), [0, 2]);
    UngatedSecondStep();
    assert [0, 2, 1][..2] == [0, 2];
  }

  /** A route over the three points visits each once. */
  lemma VisitsAllThree(t: seq<int>)
    requires t == [0, 2, 1] || t == [0, 1, 2]
    ensures multiset(t) == multiset(Iota(3))
  {
    assert Iota(3) == [0, 1, 2];
  }

  /** ...that start is a tour... */
  lemma UngatedTour()
    ensures IsTour(Ungated(), [0, 2, 1])
  {
    var g := ExampleGraph();
    VisitsAllThree([0, 2, 1]);
    assert ArcAt(g, [0, 2, 1], 0) && ArcAt(g, [0, 2, 1], 1);
    assert PrecOk(Ungated(), [0, 2, 1]);
  }

  /** ...and it costs 3. */
  lemma UngatedCost()
    ensures TourCost(Ungated(), [0, 2, 1]) == Fin(3.0)
  {
    assert PathCost(Ungated(), [0, 2]) == Fin(1.0) by {
      assert [0, 2][..1] == [0];
    }
    assert [0, 2, 1][..2] == [0, 2];
  }

  /** With the gate, the only tour visits the pickup first and costs 12. */
  lemma GatedTours(t: seq<int>)
    requires IsTour(GatedExample(), t)
    ensures t == [0, 1, 2] && TourCost(GatedExample(), t) == Fin(12.0)
  {
    var inst := GatedExample();
    assert Iota(3) == [0, 1, 2];
    TourInRange(inst, t);
    assert |t| == 3 by {
      assert |multiset(t)| == |multiset(Iota(3))|;
    }
    assert Preds(inst, 2) == {1};
    assert t[1] != 2;
    IotaCount(3, 0);
    IotaCount(3, t[1]);
    assert multiset(t)[0] == 1 && multiset(t)[t[1]] == 1;
    assert t == [0, 1, 2];
    assert t[..2] == [0, 1] && [0, 1][..1] == [0];
  }

  /** Kept from the source's solver as written, where the gate lives only
      in the candidate iterator and never reaches the precedences: the
      nearest-neighbour start then delivers before it picks up, and since
      every gated tour is dearer and the search only replaces the start by
      a strictly cheaper tour, that start is the tour returned. */
  lemma HeuristicIgnoresGate()
    ensures Greedy(Ungated(), [0, 2, 1]) && TourCost(Ungated(), [0, 2, 1]) == Fin(3.0)
    ensures !PrecOk(GatedExample(), [0, 2, 1])
    ensures forall t :: IsTour(GatedExample(), t) ==> Fin(3.0).Below(TourCost(GatedExample(), t))
  {
    UngatedGreedy();
    UngatedCost();
    var inst := GatedExample();
    assert 1 in Preds(inst, [0, 2, 1][1]) && 1 !in [0, 2, 1][..1];
    forall t | IsTour(inst, t)
      ensures Fin(3.0).Below(TourCost(inst, t))
    {
      GatedTours(t);
    }
  }

  class ApiService {
    var requests: map<int, Request>
    var couriers: set<int>

    constructor ()
      ensures requests == map[] && couriers == {}
    {
      requests := map[];
      couriers := {};
    }

    method AddRequest(request: Request)
      modifies this
      ensures requests == old(requests)[request.id := request] && couriers == old(couriers)
    {
      requests := requests[request.id := request];
    }

    method AddCourier(courierId: int)
      modifies this
      ensures couriers == old(couriers) + {courierId} && requests == old(requests)
    {
      couriers := couriers + {courierId};
    }

    /** The requests with the given ids, in order. */
    function RequestsFor(requestIds: seq<int>): (reqs: seq<Request>)
      requires forall i :: 0 <= i < |requestIds| ==> requestIds[i] in requests
      reads this
      ensures |reqs| == |requestIds| && forall i :: 0 <= i < |reqs| ==> reqs[i] == requests[requestIds[i]]
    {
      seq(|requestIds|, i requires 0 <= i < |requestIds| && requestIds[i] in requests reads this => requests[requestIds[i]])
    }

    /** Plans a tour for a known courier over the given requests, from the
        warehouse; no tour for an unknown courier. `lengths` holds the
        shortest-path lengths between intersections. The ghost results are
        the de-duplicated points, the gate, the solver's instance, its
        stored route (empty when none) and its best cost. */
    method CalculateTour(courierId: int, requestIds: seq<int>, warehouseId: int, lengths: map<(int, int), real>)
      returns (tour: Option<TourData>, ghost points: seq<int>, ghost d2p: map<int, int>,
               ghost inst: Instance, ghost route: seq<int>, ghost best: real)
      requires courierId in couriers ==> forall i :: 0 <= i < |requestIds| ==> requestIds[i] in requests
      ensures courierId !in couriers <==> tour.None?
      ensures tour.Some? ==> points == Dedupe(Points(warehouseId, RequestsFor(requestIds)))
      ensures tour.Some? ==> inst.g.Valid() && inst.g.n == |points| && inst.precedences == GatePrecedences(d2p) &&
                             inst.serviceTimes == None && inst.maxDuration == Inf
      ensures tour.Some? ==> forall i, j :: 0 <= i < |points| && 0 <= j < |points| ==>
                               inst.g.Cout(i, j) == Fin(CostEntry(points, lengths, i, j) as real)
      ensures tour.Some? ==> GateFor(points, PickupToDelivery(RequestsFor(requestIds)), d2p)
      ensures tour.Some? ==> (route == [] && best == IntMax as real) ||
                             (IsTour(inst, route) && TourCost(inst, route) == Fin(best))
      ensures tour.Some? ==> tour.value.courierId == courierId && tour.value.segments == [] &&
                             tour.value.totalDistance == Narrow(best, LongMin, LongMax) as real
      ensures tour.Some? ==> (tour.value.stops, tour.value.totalDuration) ==
                               StopsAlong(RequestsFor(requestIds), warehouseId, PointsAlong(points, route))
      ensures tour.Some? && (forall k :: k in lengths ==> lengths[k] >= 0.0) ==>
                NonNeg(inst) && forall t :: IsTour(inst, t) ==> Fin(best).AtMost(TourCost(inst, t))
    {
      if courierId !in couriers {
        return None, [], map[], Instance(Graph(0, []), map[], None, Inf), [], 0.0;
      }
      var currentRequests := RequestsFor(requestIds);
      var uniquePoints, graph, deliveryToPickupIndex := Prepare(currentRequests, warehouseId, lengths);
      points, d2p := uniquePoints, deliveryToPickupIndex;
      var tsp := Solve(graph, deliveryToPickupIndex);
      inst := tsp.Inst();
      CostGraphFacts(uniquePoints, lengths, inst);
      var result;
      result, route, best := Finish(tsp, courierId, currentRequests, warehouseId, uniquePoints);
      tour := Some(result);
    }
  }
}
