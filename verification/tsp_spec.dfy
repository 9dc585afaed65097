/** What the tour solver computes, stated on values: the tours it may return,
    their cost, the precedence constraints, and the greedy choice of the
    nearest-neighbour heuristic (domain/service/TemplateTSP.java). */
module TspSpec {
  import opened Domain
  import opened Collections
  import opened Graphs

  /** Everything the solver reads besides its own search state. */
  datatype Instance = Instance(g: Graph, precedences: map<int, set<int>>,
                               serviceTimes: Option<seq<real>>, maxDuration: Ext)

  /** The vertices that must be visited before `x`. */
  function Preds(inst: Instance, x: int): set<int> {
    if x in inst.precedences then inst.precedences[x] else {}
  }

  /** The time spent at `x`; zero without a service-time array or past its end. */
  function Service(inst: Instance, x: int): real {
    match inst.serviceTimes
    case Some(st) => if 0 <= x < |st| then st[x] else 0.0
    case None => 0.0
  }

  /** The cost of moving from `x` to `y` and serving `y`. */
  function Step(inst: Instance, x: int, y: int): Ext
    requires inst.g.Valid()
  {
    inst.g.Cout(x, y).Plus(Fin(Service(inst, y)))
  }

  /** The cost of following `p` from its first vertex, serving every later one. */
  function PathCost(inst: Instance, p: seq<int>): Ext
    requires inst.g.Valid()
  {
    if |p| <= 1 then Fin(0.0)
    else PathCost(inst, p[..|p| - 1]).Plus(Step(inst, p[|p| - 2], p[|p| - 1]))
  }

  /** The cost of `p` followed by the return to the depot, vertex 0. */
  function TourCost(inst: Instance, p: seq<int>): Ext
    requires inst.g.Valid() && |p| >= 1
  {
    PathCost(inst, p).Plus(inst.g.Cout(p[|p| - 1], 0))
  }

  /** The step from position `i` of `p` to the next position is an arc. */
  predicate ArcAt(g: Graph, p: seq<int>, i: int)
    requires 0 <= i < |p| - 1
  {
    g.EstArc(p[i], p[i + 1])
  }

  predicate ArcsOk(g: Graph, p: seq<int>) {
    forall i :: 0 <= i < |p| - 1 ==> ArcAt(g, p, i)
  }

  /** Every vertex of `p` after the starting depot comes after all of its
      predecessors (the depot starts the route unconditionally). */
  predicate PrecOk(inst: Instance, p: seq<int>) {
    forall i, q :: 1 <= i < |p| && q in Preds(inst, p[i]) ==> q in p[..i]
  }

  /** A partial route from the depot: no vertex twice, arcs between
      neighbours, precedences respected. */
  predicate Prefix(inst: Instance, p: seq<int>) {
    |p| >= 1 && p[0] == 0 && multiset(p) <= multiset(Iota(inst.g.n)) &&
    ArcsOk(inst.g, p) && PrecOk(inst, p)
  }

  /** A complete tour: a permutation of all vertices starting at the depot,
      with an arc between neighbours and back to the depot, respecting the
      precedences. */
  predicate IsTour(inst: Instance, p: seq<int>) {
    |p| >= 1 && p[0] == 0 && multiset(p) == multiset(Iota(inst.g.n)) &&
    ArcsOk(inst.g, p) && PrecOk(inst, p) && inst.g.EstArc(p[|p| - 1], 0)
  }

  /** No negative arc cost or service time. */
  ghost predicate NonNeg(inst: Instance)
    requires inst.g.Valid()
  {
    (forall i, j :: 0 <= i < inst.g.n && 0 <= j < inst.g.n ==>
       inst.g.Cout(i, j).Inf? || inst.g.Cout(i, j).v >= 0.0) &&
    (forall x :: Service(inst, x) >= 0.0)
  }

  /** `r` visits the vertices of `pool` so that `vus + r` is a tour. */
  ghost predicate Completes(inst: Instance, vus: seq<int>, pool: multiset<int>, r: seq<int>) {
    multiset(r) == pool && IsTour(inst, vus + r)
  }

  /** `best` is no more than the cost of any tour that extends `vus` by the vertices of `pool`. */
  ghost predicate LowerBound(inst: Instance, vus: seq<int>, pool: multiset<int>, best: real)
    requires inst.g.Valid()
  {
    forall r :: Completes(inst, vus, pool, r) ==> |vus + r| >= 1 && Fin(best).AtMost(TourCost(inst, vus + r))
  }

  /** The heuristic may go from the end of `route` to `y`: unvisited, all
      predecessors visited, an arc, and the shift duration not exceeded. */
  predicate Eligible(inst: Instance, route: seq<int>, total: Ext, y: int)
    requires inst.g.Valid() && |route| >= 1
  {
    1 <= y < inst.g.n && y !in route &&
    (forall q :: q in Preds(inst, y) ==> q in route) &&
    inst.g.EstArc(route[|route| - 1], y) &&
    total.Plus(Step(inst, route[|route| - 1], y)).AtMost(inst.maxDuration)
  }

  /** `x` is the heuristic's choice after `route`: an eligible vertex of
      finite step cost, no eligible vertex is cheaper, and every eligible
      vertex of lower index is strictly dearer. */
  ghost predicate Nearest(inst: Instance, route: seq<int>, total: Ext, x: int)
    requires inst.g.Valid() && |route| >= 1
  {
    var cur := route[|route| - 1];
    Eligible(inst, route, total, x) && Step(inst, cur, x).Below(Inf) &&
    forall y :: Eligible(inst, route, total, y) ==>
      Step(inst, cur, x).AtMost(Step(inst, cur, y)) && (y < x ==> Step(inst, cur, x).Below(Step(inst, cur, y)))
  }

  /** No vertex can be chosen after `route`. */
  ghost predicate Stuck(inst: Instance, route: seq<int>, total: Ext)
    requires inst.g.Valid() && |route| >= 1
  {
    forall y :: Eligible(inst, route, total, y) ==> !Step(inst, route[|route| - 1], y).Below(Inf)
  }

  /** `route` starts at the depot and every later vertex is the nearest
      choice after the vertices before it. */
  ghost predicate Greedy(inst: Instance, route: seq<int>)
    requires inst.g.Valid()
    decreases |route|
  {
    if |route| <= 1 then route == [0]
    else
      var init := route[..|route| - 1];
      Greedy(inst, init) && Nearest(inst, init, PathCost(inst, init), route[|route| - 1])
  }

  /** `Iota(n)` holds each of 0..n-1 exactly once. */
  lemma IotaCount(n: nat, y: int)
    ensures multiset(Iota(n))[y] == if 0 <= y < n then 1 else 0
  {
    if n > 0 {
      assert Iota(n) == Iota(n - 1) + [n - 1];
      IotaCount(n - 1, y);
    }
  }

  /** The cost of a path of two or more vertices is that of the path
      without its last vertex plus the last step. */
  lemma PathCostLast(inst: Instance, q: seq<int>)
    requires inst.g.Valid() && |q| >= 2
    ensures PathCost(inst, q) == PathCost(inst, q[..|q| - 1]).Plus(Step(inst, q[|q| - 2], q[|q| - 1]))
  {
  }

  lemma PathCostAppend(inst: Instance, p: seq<int>, x: int)
    requires inst.g.Valid() && |p| >= 1
    ensures PathCost(inst, p + [x]) == PathCost(inst, p).Plus(Step(inst, p[|p| - 1], x))
  {
    var q := p + [x];
    PathCostLast(inst, q);
    assert q[..|q| - 1] == p;
    assert q[|q| - 2] == p[|p| - 1] && q[|q| - 1] == x;
  }

  /** Steps are never negative between vertices in range. */
  lemma StepNonNeg(inst: Instance, x: int, y: int)
    requires inst.g.Valid() && NonNeg(inst) && 0 <= x < inst.g.n && 0 <= y < inst.g.n
    ensures Step(inst, x, y).Inf? || Step(inst, x, y).v >= 0.0
  {
  }

  /** Under non-negative costs, extending a path never makes it cheaper. */
  lemma {:induction false} PathCostMonotone(inst: Instance, p: seq<int>, q: seq<int>)
    requires inst.g.Valid() && NonNeg(inst) && |p| >= 1
    requires forall i :: 0 <= i < |p + q| ==> 0 <= (p + q)[i] < inst.g.n
    ensures PathCost(inst, p).AtMost(PathCost(inst, p + q))
  {
    if q != [] {
      var init := q[..|q| - 1];
      var pq := p + q;
      assert pq[..|pq| - 1] == p + init;
      PathCostMonotone(inst, p, init);
      StepNonNeg(inst, pq[|pq| - 2], pq[|pq| - 1]);
    } else {
      assert p + q == p;
    }
  }

  /** Under non-negative costs, a tour costs at least as much as any of its prefixes. */
  lemma TourCostAbovePrefix(inst: Instance, vus: seq<int>, r: seq<int>)
    requires inst.g.Valid() && NonNeg(inst) && |vus| >= 1 && IsTour(inst, vus + r)
    ensures PathCost(inst, vus).AtMost(TourCost(inst, vus + r))
  {
    var t := vus + r;
    forall i | 0 <= i < |t|
      ensures 0 <= t[i] < inst.g.n
    {
      assert t[i] in multiset(Iota(inst.g.n));
      IotaCount(inst.g.n, t[i]);
    }
    PathCostMonotone(inst, vus, r);
  }

    /** A branch whose partial route already costs no less than `best` holds
      no tour cheaper than `best`. */
  lemma CutBranch(inst: Instance, vus: seq<int>, pool: multiset<int>, best: real)
    requires inst.g.Valid() && NonNeg(inst) && |vus| >= 1 && !PathCost(inst, vus).Below(Fin(best))
    ensures LowerBound(inst, vus, pool, best)
  {
    forall r | Completes(inst, vus, pool, r)
      ensures |vus + r| >= 1 && Fin(best).AtMost(TourCost(inst, vus + r))
    {
      TourCostAbovePrefix(inst, vus, r);
    }
  }

  /** A state of the exhaustive search: `vus` is a partial route ending at
      `cur` and costing `cost`, and `vus` and `pool` together hold every
      vertex exactly once. */
  ghost predicate Searching(inst: Instance, vus: seq<int>, pool: multiset<int>, cur: int, cost: Ext)
    requires inst.g.Valid()
  {
    Prefix(inst, vus) && cur == vus[|vus| - 1] && cost == PathCost(inst, vus) &&
    multiset(vus) + pool == multiset(Iota(inst.g.n))
  }

  /** `best` is no more than the cost of any tour that extends `vus` by the
      pool and visits `x` next. */
  ghost predicate HeadBounded(inst: Instance, vus: seq<int>, pool: multiset<int>, x: int, best: real)
    requires inst.g.Valid()
  {
    forall r :: Completes(inst, vus, pool, r) && |r| >= 1 && r[0] == x ==>
      Fin(best).AtMost(TourCost(inst, vus + r))
  }

  /** A smaller best cost keeps the bound. */
  lemma HeadBoundedMono(inst: Instance, vus: seq<int>, pool: multiset<int>, x: int, best: real, better: real)
    requires inst.g.Valid() && HeadBounded(inst, vus, pool, x, best) && better <= best
    ensures HeadBounded(inst, vus, pool, x, better)
  {
    forall r | Completes(inst, vus, pool, r) && |r| >= 1 && r[0] == x
      ensures Fin(better).AtMost(TourCost(inst, vus + r))
    {
      AtMostTrans(Fin(better), Fin(best), TourCost(inst, vus + r));
    }
  }

  /** The completions of `vus` that start with `x` are the completions of
      `vus + [x]` by the rest of the pool. */
  lemma HeadBound(inst: Instance, vus: seq<int>, pool: multiset<int>, x: int, best: real)
    requires inst.g.Valid() && |vus| >= 1
    requires LowerBound(inst, vus + [x], pool - multiset{x}, best)
    ensures HeadBounded(inst, vus, pool, x, best)
  {
    forall r | Completes(inst, vus, pool, r) && |r| >= 1 && r[0] == x
      ensures Fin(best).AtMost(TourCost(inst, vus + r))
    {
      CompletionHead(inst, vus, pool, r);
    }
  }

  /** No tour visits `x` next while one of its predecessors is unvisited. */
  lemma MissingPredecessor(inst: Instance, vus: seq<int>, pool: multiset<int>, x: int)
    requires |vus| >= 1 && exists q :: q in Preds(inst, x) && q !in vus
    ensures forall r :: Completes(inst, vus, pool, r) && |r| >= 1 ==> r[0] != x
  {
    forall r | Completes(inst, vus, pool, r) && |r| >= 1
      ensures r[0] != x
    {
      CompletionHead(inst, vus, pool, r);
    }
  }

  /** `TSP1.bound`: zero, which is a valid lower bound of what remains of any
      tour once costs are non-negative. */
  function Bound(sommetCourant: int, nonVus: seq<int>): (b: real)
    ensures b == 0.0
  {
    0.0
  }

  lemma BoundAdmissible(inst: Instance, vus: seq<int>, r: seq<int>)
    requires inst.g.Valid() && NonNeg(inst) && |vus| >= 1 && IsTour(inst, vus + r)
    ensures PathCost(inst, vus).Plus(Fin(Bound(vus[|vus| - 1], r))).AtMost(TourCost(inst, vus + r))
  {
    TourCostAbovePrefix(inst, vus, r);
  }

  /** A prefix followed by an unvisited successor whose predecessors have all
      been visited is again a prefix. */
  lemma PrefixExtend(inst: Instance, vus: seq<int>, x: int)
    requires Prefix(inst, vus) && 0 <= x < inst.g.n && x !in vus
    requires inst.g.EstArc(vus[|vus| - 1], x)
    requires forall q :: q in Preds(inst, x) ==> q in vus
    ensures Prefix(inst, vus + [x])
  {
    var p := vus + [x];
    assert p[..|vus|] == vus;
    forall i | 0 <= i < |p| - 1
      ensures ArcAt(inst.g, p, i)
    {
      if i < |vus| - 1 {
        assert ArcAt(inst.g, vus, i);
      }
    }
    forall i, q | 1 <= i < |p| && q in Preds(inst, p[i])
      ensures q in p[..i]
    {
      if i < |vus| {
        assert p[..i] == vus[..i];
      }
    }
    IotaCount(inst.g.n, x);
    assert multiset(vus)[x] == 0;
    forall y
      ensures multiset(p)[y] <= multiset(Iota(inst.g.n))[y]
    {
    }
  }

  /** The first vertex of a completion is an unvisited successor of the
      current vertex whose predecessors are all visited, and the rest of the
      completion completes the longer prefix. */
  lemma CompletionHead(inst: Instance, vus: seq<int>, pool: multiset<int>, r: seq<int>)
    requires |vus| >= 1 && |r| >= 1 && Completes(inst, vus, pool, r)
    ensures r[0] in pool
    ensures inst.g.EstArc(vus[|vus| - 1], r[0])
    ensures forall q :: q in Preds(inst, r[0]) ==> q in vus
    ensures vus + r == (vus + [r[0]]) + r[1..]
    ensures Completes(inst, vus + [r[0]], pool - multiset{r[0]}, r[1..])
  {
    var t := vus + r;
    assert r == [r[0]] + r[1..];
    assert t == (vus + [r[0]]) + r[1..];
    assert t[|vus| - 1] == vus[|vus| - 1] && t[|vus|] == r[0];
    assert ArcAt(inst.g, t, |vus| - 1);
    assert t[..|vus|] == vus;
    assert r[0] in multiset(r);
  }

  /** A prefix of length `n` with an arc home is a tour. */
  lemma PrefixComplete(inst: Instance, p: seq<int>)
    requires Prefix(inst, p) && |p| == inst.g.n && inst.g.EstArc(p[|p| - 1], 0)
    ensures IsTour(inst, p)
  {
    var m := multiset(Iota(inst.g.n));
    var d := m - multiset(p);
    assert m == multiset(p) + d;
    assert |d| == 0;
    assert d == multiset{};
  }

  /** A tour visits each predecessor of a vertex before the vertex itself. */
  lemma PrecedenceRespected(inst: Instance, t: seq<int>, i: int, q: int)
    requires IsTour(inst, t) && 1 <= i < |t| && q in Preds(inst, t[i])
    ensures exists j :: 0 <= j < i && t[j] == q
  {
    assert q in t[..i];
    var j :| 0 <= j < |t[..i]| && t[..i][j] == q;
  }

  /** The nearest vertex is an eligible one. */
  lemma NearestEligible(inst: Instance, route: seq<int>, total: Ext, x: int)
    requires inst.g.Valid() && |route| >= 1 && Nearest(inst, route, total, x)
    ensures Eligible(inst, route, total, x)
  {
  }

  /** Every non-empty prefix of a greedy route is greedy. */
  lemma {:induction false} GreedyPrefix(inst: Instance, route: seq<int>, k: int)
    requires inst.g.Valid() && Greedy(inst, route) && 1 <= k <= |route|
    ensures Greedy(inst, route[..k])
  {
    if k < |route| {
      var init := route[..|route| - 1];
      GreedyPrefix(inst, init, k);
      assert init[..k] == route[..k];
    } else {
      assert route[..k] == route;
    }
  }

  /** A greedy route is a prefix: the heuristic never breaks a constraint. */
  lemma {:induction false} GreedyIsPrefix(inst: Instance, route: seq<int>)
    requires inst.g.Valid() && inst.g.n >= 1 && Greedy(inst, route)
    ensures Prefix(inst, route)
  {
    if |route| == 1 {
      IotaCount(inst.g.n, 0);
      assert multiset(route) == multiset{0};
    } else {
      var init := route[..|route| - 1];
      var x := route[|route| - 1];
      assert route == init + [x];
      GreedyIsPrefix(inst, init);
      NearestEligible(inst, init, PathCost(inst, init), x);
      PrefixExtend(inst, init, x);
    }
  }

  /** Each leg the heuristic takes keeps the running cost within the shift duration. */
  lemma GreedyWithinShift(inst: Instance, route: seq<int>, i: int)
    requires inst.g.Valid() && Greedy(inst, route) && 1 <= i < |route|
    ensures PathCost(inst, route[..i + 1]).AtMost(inst.maxDuration)
  {
    var p := route[..i + 1];
    GreedyPrefix(inst, route, i + 1);
    var init, x := p[..i], p[i];
    assert p == init + [x];
    assert Nearest(inst, init, PathCost(inst, init), x);
    NearestEligible(inst, init, PathCost(inst, init), x);
    PathCostAppend(inst, init, x);
  }

  /** The greedy choice is unique: ties go to the lowest index. */
  lemma NearestUnique(inst: Instance, route: seq<int>, total: Ext, x: int, y: int)
    requires inst.g.Valid() && |route| >= 1
    requires Nearest(inst, route, total, x) && Nearest(inst, route, total, y)
    ensures x == y
  {
  }

  /** The service time spent along `p`, at every vertex but the first. */
  function ServiceAlong(inst: Instance, p: seq<int>): real {
    if |p| <= 1 then 0.0 else ServiceAlong(inst, p[..|p| - 1]) + Service(inst, p[|p| - 1])
  }

  /** Service times are part of the cost: under non-negative costs a path
      costs at least the service time spent along it. */
  lemma {:induction false} PathCostCoversService(inst: Instance, p: seq<int>)
    requires inst.g.Valid() && NonNeg(inst)
    requires forall i :: 0 <= i < |p| ==> 0 <= p[i] < inst.g.n
    ensures PathCost(inst, p).Inf? || PathCost(inst, p).v >= ServiceAlong(inst, p)
  {
    if |p| > 1 {
      PathCostCoversService(inst, p[..|p| - 1]);
      assert inst.g.Cout(p[|p| - 2], p[|p| - 1]).Inf? || inst.g.Cout(p[|p| - 2], p[|p| - 1]).v >= 0.0;
    }
  }
}
