/** The tour solver: a nearest-neighbour starting solution, then an
    exhaustive branch-and-bound search with a zero bound and candidates tried
    cheapest first (domain/service/TemplateTSP.java as specialised by
    domain/service/TSP1.java). */
module Tsp {
  import opened Domain
  import opened Collections
  import opened Graphs
  import opened Iterators
  import opened TspSpec

  /** No vertex of the solution is stored yet. */
  ghost predicate Empty(sol: seq<Option<int>>) {
    forall i :: 0 <= i < |sol| ==> sol[i].None?
  }

  /** Every vertex of the solution is stored. */
  ghost predicate Full(sol: seq<Option<int>>) {
    forall i :: 0 <= i < |sol| ==> sol[i].Some?
  }

  /** A stored solution read as a route. */
  ghost function RouteOf(sol: seq<Option<int>>): seq<int> {
    seq(|sol|, i requires 0 <= i < |sol| => if sol[i].Some? then sol[i].value else -1)
  }

  /** Either no tour is stored and the best cost is `Integer.MAX_VALUE`, or
      a tour is stored and the best cost is its cost (or `Integer.MAX_VALUE`
      when the heuristic's tour has no finite cost). */
  ghost predicate BestOk(inst: Instance, sol: seq<Option<int>>, best: real)
    requires inst.g.Valid()
  {
    (Empty(sol) && best == IntMax as real) ||
    (Full(sol) && IsTour(inst, RouteOf(sol)) &&
     (TourCost(inst, RouteOf(sol)) == Fin(best) ||
      (TourCost(inst, RouteOf(sol)).Inf? && best == IntMax as real)))
  }

  class Tsp1 {
    /** The best tour found so far, by position; null entries until one is stored. */
    var meilleureSolution: array<Option<int>>
    var g: Option<Graph>
    var coutMeilleureSolution: real
    var tpsLimite: int
    var precedences: map<int, set<int>>
    var serviceTimes: Option<seq<real>>
    var maxDuration: Ext
    /** The visited vertices, in visiting order, and the unvisited ones: the
        search extends and restores both in place. */
    var vus: seq<int>
    var nonVus: seq<int>

    constructor ()
      ensures g == None && precedences == map[] && serviceTimes == None && maxDuration == Inf
      ensures coutMeilleureSolution == 0.0 && tpsLimite == 0 && meilleureSolution.Length == 0
    {
      meilleureSolution := new Option<int>[0];
      g := None;
      coutMeilleureSolution := 0.0;
      tpsLimite := 0;
      precedences := map[];
      serviceTimes := None;
      maxDuration := Inf;
      vus := [];
      nonVus := [];
    }

    function Inst(): Instance
      requires g.Some?
      reads this`g, this`precedences, this`serviceTimes, this`maxDuration
    {
      Instance(g.value, precedences, serviceTimes, maxDuration)
    }

    /** A graph is loaded and the solution array matches its size. */
    ghost predicate Ready()
      reads this`g, this`meilleureSolution
    {
      g.Some? && g.value.Valid() && g.value.n >= 1 && meilleureSolution.Length == g.value.n
    }

    ghost predicate AllNone()
      reads this`meilleureSolution, meilleureSolution
    {
      Empty(meilleureSolution[..])
    }

    ghost predicate AllSome()
      reads this`meilleureSolution, meilleureSolution
    {
      Full(meilleureSolution[..])
    }

    /** The stored solution read as a route. */
    ghost function Route(): seq<int>
      reads this`meilleureSolution, meilleureSolution
    {
      RouteOf(meilleureSolution[..])
    }

    /** The best solution and its cost agree (see `BestOk`). */
    ghost predicate SolutionInv()
      reads this`g, this`precedences, this`serviceTimes, this`maxDuration
      reads this`meilleureSolution, this`coutMeilleureSolution, meilleureSolution
    {
      Ready() && BestOk(Inst(), meilleureSolution[..], coutMeilleureSolution)
    }

    /** The fields the search never changes. */
    ghost function Settings(): (Option<Graph>, map<int, set<int>>, Option<seq<real>>, Ext, array<Option<int>>, int)
      reads this`g, this`precedences, this`serviceTimes, this`maxDuration, this`meilleureSolution, this`tpsLimite
    {
      (g, precedences, serviceTimes, maxDuration, meilleureSolution, tpsLimite)
    }

    /** The search state on entry to a branch (see `Searching`). */
    ghost predicate SearchState(sommetCrt: int, coutVus: Ext)
      reads this`g, this`precedences, this`serviceTimes, this`maxDuration, this`meilleureSolution
      reads this`vus, this`nonVus
    {
      Ready() && Searching(Inst(), vus, multiset(nonVus), sommetCrt, coutVus)
    }

    /** Every predecessor of a non-depot vertex is a vertex. */
    ghost predicate PredsInRange()
      reads this`g, this`precedences, this`serviceTimes, this`maxDuration
      requires g.Some?
    {
      forall x, q :: 1 <= x < g.value.n && q in Preds(Inst(), x) ==> 0 <= q < g.value.n
    }

    /** A missing map means "no precedences". */
    method SetPrecedences(p: Option<map<int, set<int>>>)
      modifies this
      ensures precedences == if p.None? then map[] else p.value
      ensures g == old(g) && serviceTimes == old(serviceTimes) && maxDuration == old(maxDuration)
      ensures meilleureSolution == old(meilleureSolution) && coutMeilleureSolution == old(coutMeilleureSolution)
    {
      if p.None? {
        precedences := map[];
      } else {
        precedences := p.value;
      }
    }

    method SetServiceTimes(st: Option<seq<real>>)
      modifies this
      ensures serviceTimes == st
      ensures g == old(g) && precedences == old(precedences) && maxDuration == old(maxDuration)
      ensures meilleureSolution == old(meilleureSolution) && coutMeilleureSolution == old(coutMeilleureSolution)
    {
      serviceTimes := st;
    }

    method SetMaxDuration(d: Ext)
      modifies this
      ensures maxDuration == d
      ensures g == old(g) && precedences == old(precedences) && serviceTimes == old(serviceTimes)
      ensures meilleureSolution == old(meilleureSolution) && coutMeilleureSolution == old(coutMeilleureSolution)
    {
      maxDuration := d;
    }

    /** The `i`-th vertex of the best tour (null if none is stored), or -1
        without a graph or out of range. */
    function GetSolution(i: int): (r: Option<int>)
      requires g.None? || meilleureSolution.Length == g.value.n
      reads this, meilleureSolution
      ensures g.Some? && 0 <= i < g.value.n ==> r == meilleureSolution[i]
      ensures !(g.Some? && 0 <= i < g.value.n) ==> r == Some(-1)
      ensures SolutionInv() && AllSome() && 0 <= i < g.value.n ==> r == Some(Route()[i])
    {
      if g.Some? && i >= 0 && i < g.value.n then meilleureSolution[i] else Some(-1)
    }

    /** The best cost, or -1 without a graph. */
    function GetCoutSolution(): (c: real)
      reads this
      ensures g.Some? ==> c == coutMeilleureSolution
      ensures g.None? ==> c == -1.0
    {
      if g.Some? then coutMeilleureSolution else -1.0
    }

    /** Whether every member of `preds` occurs in `visited`. */
    method AllIn(preds: set<int>, visited: seq<int>) returns (ok: bool)
      ensures ok <==> forall q :: q in preds ==> q in visited
    {
      var rest := preds;
      while rest != {}
        invariant rest <= preds
        invariant forall q :: q in preds - rest ==> q in visited
        decreases rest
      {
        NonEmptyHasInt(rest);
        var q :| q in rest;
        if q !in visited {
          return false;
        }
        rest := rest - {q};
      }
      return true;
    }

    /** Whether every member of `preds` is marked in `visited`. */
    method AllMarked(preds: set<int>, visited: array<bool>) returns (ok: bool)
      requires forall q :: q in preds ==> 0 <= q < visited.Length
      ensures ok <==> forall q :: q in preds ==> visited[q]
    {
      var rest := preds;
      while rest != {}
        invariant rest <= preds
        invariant forall q :: q in preds - rest ==> visited[q]
        decreases rest
      {
        NonEmptyHasInt(rest);
        var q :| q in rest;
        if !visited[q] {
          return false;
        }
        rest := rest - {q};
      }
      return true;
    }

    /** Runs the heuristic for a starting bound, then the exhaustive search
        from the depot; does nothing when the time limit is not positive.
        With non-negative costs the best cost found is no more than the cost
        of any tour of the graph. */
    method ChercheSolution(tpsLimite: int, graph: Graph)
      requires graph.Valid() && graph.n >= 1
      requires forall x, q :: 1 <= x < graph.n && x in precedences && q in precedences[x] ==> 0 <= q < graph.n
      modifies this
      ensures tpsLimite <= 0 ==> unchanged(this)
      ensures precedences == old(precedences) && serviceTimes == old(serviceTimes) && maxDuration == old(maxDuration)
      ensures tpsLimite > 0 ==> g == Some(graph) && this.tpsLimite == tpsLimite && fresh(meilleureSolution)
      ensures tpsLimite > 0 ==> SolutionInv()
      ensures tpsLimite > 0 && NonNeg(Inst()) ==>
                forall t :: IsTour(Inst(), t) ==> Fin(coutMeilleureSolution).AtMost(TourCost(Inst(), t))
    {
      if tpsLimite <= 0 {
        return;
      }
      Reset(tpsLimite, graph);
      ghost var inst := Inst();
      ghost var pool := multiset(nonVus);
      StartState(graph.n);
      InitialBound();
      BranchAndBound(0, Fin(0.0));
      if NonNeg(inst) {
        Optimal(inst, pool, coutMeilleureSolution);
      }
    }

    /** Sets up a search: a fresh solution array with no entries, the depot
        visited and every other vertex unvisited, in increasing order. */
    method Reset(tpsLimite: int, graph: Graph)
      requires graph.Valid() && graph.n >= 1
      modifies this
      ensures g == Some(graph) && this.tpsLimite == tpsLimite && fresh(meilleureSolution)
      ensures precedences == old(precedences) && serviceTimes == old(serviceTimes) && maxDuration == old(maxDuration)
      ensures Ready() && AllNone() && vus == [0] && vus + nonVus == Iota(graph.n)
    {
      this.tpsLimite := tpsLimite;
      g := Some(graph);
      meilleureSolution := new Option<int>[graph.n](_ => None);
      var rest: seq<int> := [];
      for i := 1 to graph.n
        invariant |rest| == i - 1
        invariant forall j :: 0 <= j < |rest| ==> rest[j] == j + 1
      {
        rest := rest + [i];
      }
      nonVus := rest;
      vus := [0];
      assert vus + nonVus == Iota(graph.n);
    }

    /** The heuristic's cost becomes the best cost, or `Integer.MAX_VALUE`
        when it found no tour of finite cost. */
    method InitialBound()
      requires Ready() && PredsInRange() && AllNone()
      modifies this`coutMeilleureSolution, meilleureSolution
      ensures SolutionInv()
    {
      var heuristicCost, route := NearestNeighborHeuristic();
      if heuristicCost.Below(Inf) {
        coutMeilleureSolution := heuristicCost.v;
      } else {
        coutMeilleureSolution := IntMax as real;
      }
      if |route| == g.value.n && g.value.EstArc(route[|route| - 1], 0) {
        GreedyIsPrefix(Inst(), route);
        PrefixComplete(Inst(), route);
      }
    }

    /** The state the search starts from: the depot alone, every other
        vertex unvisited. */
    lemma StartState(n: nat)
      requires Ready() && n == g.value.n && vus == [0] && vus + nonVus == Iota(n)
      ensures SearchState(0, Fin(0.0)) && multiset([0]) + multiset(nonVus) == multiset(Iota(n))
    {
      IotaCount(n, 0);
      assert multiset(vus) <= multiset(Iota(n));
    }

    /** The nearest-neighbour heuristic: from the depot, repeatedly moves to
        the eligible vertex with the cheapest step (lowest index on ties).
        When it reaches every vertex and can return to the depot it stores the
        route and returns its cost; otherwise it returns "none" (`Inf`) and
        leaves the solution array alone. */
    method NearestNeighborHeuristic() returns (cost: Ext, ghost route: seq<int>)
      requires Ready() && PredsInRange()
      modifies meilleureSolution
      ensures Greedy(Inst(), route) && |route| <= g.value.n
      ensures |route| < g.value.n ==> cost == Inf && Stuck(Inst(), route, PathCost(Inst(), route))
      ensures |route| == g.value.n && !g.value.EstArc(route[|route| - 1], 0) ==> cost == Inf
      ensures (|route| < g.value.n || !g.value.EstArc(route[|route| - 1], 0)) ==>
                forall i :: 0 <= i < meilleureSolution.Length ==> meilleureSolution[i] == old(meilleureSolution[i])
      ensures |route| == g.value.n && g.value.EstArc(route[|route| - 1], 0) ==>
                cost == TourCost(Inst(), route) && AllSome() && Route() == route
    {
      ghost var inst := Inst();
      var graph := g.value;
      var n := graph.n;
      var visited := new bool[n](i => false);
      var rt: seq<int> := [0];
      var current := 0;
      visited[0] := true;
      var totalCost := Fin(0.0);
      while |rt| < n
        invariant 1 <= |rt| <= n && Greedy(inst, rt) && current == rt[|rt| - 1]
        invariant totalCost == PathCost(inst, rt)
        invariant visited.Length == n && forall i :: 0 <= i < n ==> (visited[i] <==> i in rt)
        invariant unchanged(meilleureSolution)
        decreases n - |rt|
      {
        var nearest, minCost := FindNearest(rt, current, totalCost, visited);
        if nearest == -1 {
          route := rt;
          return Inf, route;
        }
        visited[nearest] := true;
        PathCostAppend(inst, rt, nearest);
        assert (rt + [nearest])[..|rt|] == rt;
        rt := rt + [nearest];
        totalCost := totalCost.Plus(minCost);
        current := nearest;
      }
      route := rt;
      if !graph.EstArc(current, 0) {
        return Inf, route;
      }
      var returnCost := graph.Cout(current, 0);
      totalCost := totalCost.Plus(returnCost);
      StoreRoute(rt);
      return totalCost, route;
    }

    /** The heuristic's inner search: the eligible vertex with the cheapest
        finite step from `current` (the first such on ties), or -1 when there
        is none. */
    method FindNearest(rt: seq<int>, current: int, totalCost: Ext, visited: array<bool>) returns (nearest: int, minCost: Ext)
      requires Ready() && PredsInRange() && |rt| >= 1 && current == rt[|rt| - 1]
      requires visited.Length == g.value.n && forall i :: 0 <= i < g.value.n ==> (visited[i] <==> i in rt)
      ensures nearest == -1 ==> Stuck(Inst(), rt, totalCost)
      ensures nearest != -1 ==> Nearest(Inst(), rt, totalCost, nearest) && minCost == Step(Inst(), current, nearest)
    {
      ghost var inst := Inst();
      var graph := g.value;
      var n := graph.n;
      nearest := -1;
      minCost := Inf;
      for next := 1 to n
        invariant nearest == -1 ==>
                    (minCost == Inf &&
                     forall y :: 1 <= y < next && Eligible(inst, rt, totalCost, y) ==> !Step(inst, current, y).Below(Inf))
        invariant nearest != -1 ==>
                    (1 <= nearest < next && Eligible(inst, rt, totalCost, nearest) &&
                     minCost == Step(inst, current, nearest) && minCost.Below(Inf) &&
                     forall y :: 1 <= y < next && Eligible(inst, rt, totalCost, y) ==>
                       minCost.AtMost(Step(inst, current, y)) && (y < nearest ==> minCost.Below(Step(inst, current, y))))
      {
        if visited[next] {
          assert !Eligible(inst, rt, totalCost, next);
          continue;
        }
        var preds := if next in precedences then precedences[next] else {};
        assert preds == Preds(inst, next);
        var precedencesOk := AllMarked(preds, visited);
        if !precedencesOk {
          var q :| q in preds && !visited[q];
          assert q !in rt;
          assert !Eligible(inst, rt, totalCost, next);
          continue;
        }
        if !graph.EstArc(current, next) {
          continue;
        }
        var c := graph.Cout(current, next);
        if serviceTimes.Some? && next < |serviceTimes.value| {
          c := c.Plus(Fin(serviceTimes.value[next]));
        }
        assert c == Step(inst, current, next);
        if !totalCost.Plus(c).AtMost(maxDuration) {
          continue;
        }
        if c.Below(minCost) {
          minCost := c;
          nearest := next;
        }
      }
    }

    /** Searches every completion of the current partial route, cheapest
        successor first, pruning a branch once its cost reaches the best
        cost. On return `vus` is as it was and `nonVus` holds the same
        vertices, and, with non-negative costs, the best cost is no more than
        that of any tour completing the partial route. */
    method BranchAndBound(sommetCrt: int, coutVus: Ext)
      requires SolutionInv() && SearchState(sommetCrt, coutVus)
      modifies this`vus, this`nonVus, this`coutMeilleureSolution, meilleureSolution
      decreases |nonVus|, 4
      ensures Settings() == old(Settings())
      ensures vus == old(vus) && multiset(nonVus) == multiset(old(nonVus))
      ensures Inst() == old(Inst())
      ensures SolutionInv()
      ensures coutMeilleureSolution <= old(coutMeilleureSolution)
      ensures NonNeg(Inst()) ==> LowerBound(Inst(), vus, multiset(nonVus), coutMeilleureSolution)
    {
      if |nonVus| == 0 {
        Leaf(sommetCrt, coutVus);
      } else if coutVus.Plus(Fin(Bound(sommetCrt, nonVus))).Below(Fin(coutMeilleureSolution)) {
        TryCandidates(sommetCrt, coutVus);
      } else if NonNeg(Inst()) {
        assert coutVus.Plus(Fin(Bound(sommetCrt, nonVus))) == coutVus;
        CutBranch(Inst(), vus, multiset(nonVus), coutMeilleureSolution);
      }
    }

    /** Every vertex is visited: the route closed by the arc back to the
        depot becomes the best solution when it is strictly cheaper. */
    method Leaf(sommetCrt: int, coutVus: Ext)
      requires SolutionInv() && SearchState(sommetCrt, coutVus) && nonVus == []
      modifies this`vus, this`nonVus, this`coutMeilleureSolution, meilleureSolution
      ensures Settings() == old(Settings()) && vus == old(vus) && nonVus == old(nonVus)
      ensures Inst() == old(Inst())
      ensures SolutionInv()
      ensures coutMeilleureSolution <= old(coutMeilleureSolution)
      ensures LowerBound(Inst(), vus, multiset(nonVus), coutMeilleureSolution)
    {
      ghost var inst := Inst();
      var graph := g.value;
      if graph.EstArc(sommetCrt, 0) {
        var newCost := coutVus.Plus(graph.Cout(sommetCrt, 0));
        assert newCost == TourCost(inst, vus);
        if newCost.Below(Fin(coutMeilleureSolution)) {
          PermutationLength(vus, graph.n);
          StoreRoute(vus);
          coutMeilleureSolution := newCost.v;
        }
      }
      LeafBound(inst, vus, coutMeilleureSolution);
    }

    /** Explores each candidate the iterator offers in turn. */
    method TryCandidates(sommetCrt: int, coutVus: Ext)
      requires SolutionInv() && SearchState(sommetCrt, coutVus) && |nonVus| > 0
      modifies this`vus, this`nonVus, this`coutMeilleureSolution, meilleureSolution
      decreases |nonVus|, 3
      ensures Settings() == old(Settings())
      ensures vus == old(vus) && multiset(nonVus) == multiset(old(nonVus))
      ensures Inst() == old(Inst())
      ensures SolutionInv()
      ensures coutMeilleureSolution <= old(coutMeilleureSolution)
      ensures NonNeg(Inst()) ==> LowerBound(Inst(), vus, multiset(nonVus), coutMeilleureSolution)
    {
      ghost var inst := Inst();
      var graph := g.value;
      var it := new IteratorSeq(nonVus, sommetCrt, graph);
      ghost var pool := multiset(nonVus);
      ghost var nonVus0 := nonVus;
      while it.HasNext()
        invariant it.candidats == SortByCost(graph, sommetCrt, Successors(graph, nonVus0, sommetCrt))
        invariant it.cursor <= |it.candidats|
        invariant Settings() == old(Settings()) && Inst() == inst
        invariant vus == old(vus) && multiset(nonVus) == pool
        invariant SolutionInv() && Ready() && Searching(inst, vus, pool, sommetCrt, coutVus)
        invariant coutMeilleureSolution <= old(coutMeilleureSolution)
        invariant NonNeg(inst) ==>
                    forall y :: y in it.candidats[..it.cursor] ==> HeadBounded(inst, vus, pool, y, coutMeilleureSolution)
        decreases |it.candidats| - it.cursor
      {
        ghost var before := it.candidats[..it.cursor];
        var prochainSommet := it.Next();
        assert it.candidats[..it.cursor] == before + [prochainSommet];
        CandidatesIff(graph, nonVus0, sommetCrt, prochainSommet);
        assert prochainSommet in multiset(nonVus0);
        Explore(sommetCrt, coutVus, prochainSommet, before);
      }
      assert it.candidats[..it.cursor] == it.candidats;
      if NonNeg(inst) {
        ExhaustedBound(inst, vus, nonVus0, it.candidats, coutMeilleureSolution);
      }
    }

    /** Tries `x` as the next vertex: skipped when one of its predecessors
        is unvisited, explored otherwise. */
    method Explore(sommetCrt: int, coutVus: Ext, x: int, ghost tried: seq<int>)
      requires SolutionInv() && SearchState(sommetCrt, coutVus)
      requires x in nonVus && g.value.EstArc(sommetCrt, x)
      requires NonNeg(Inst()) ==>
                 forall y :: y in tried ==> HeadBounded(Inst(), vus, multiset(nonVus), y, coutMeilleureSolution)
      modifies this`vus, this`nonVus, this`coutMeilleureSolution, meilleureSolution
      decreases |nonVus|, 2
      ensures Settings() == old(Settings())
      ensures vus == old(vus) && multiset(nonVus) == multiset(old(nonVus))
      ensures Inst() == old(Inst())
      ensures SolutionInv()
      ensures coutMeilleureSolution <= old(coutMeilleureSolution)
      ensures NonNeg(Inst()) ==>
                forall y :: y in tried + [x] ==> HeadBounded(Inst(), vus, multiset(nonVus), y, coutMeilleureSolution)
    {
      ghost var best0 := coutMeilleureSolution;
      var preds := if x in precedences then precedences[x] else {};
      var ok := AllIn(preds, vus);
      if !ok {
        MissingPredecessor(Inst(), vus, multiset(nonVus), x);
      } else {
        Descend(sommetCrt, coutVus, x);
      }
      if NonNeg(Inst()) {
        AllHeadBoundedMono(Inst(), vus, multiset(nonVus), tried, best0, coutMeilleureSolution);
      }
    }

    /** Moves `x` from `nonVus` to `vus`, searches further unless the new
        cost exceeds the shift duration and is no better than the best, then
        moves `x` back (to the end of `nonVus`). */
    method Descend(sommetCrt: int, coutVus: Ext, x: int)
      requires SolutionInv() && SearchState(sommetCrt, coutVus)
      requires x in nonVus && g.value.EstArc(sommetCrt, x)
      requires forall q :: q in Preds(Inst(), x) ==> q in vus
      modifies this`vus, this`nonVus, this`coutMeilleureSolution, meilleureSolution
      decreases |nonVus|, 1
      ensures Settings() == old(Settings())
      ensures vus == old(vus) && multiset(nonVus) == multiset(old(nonVus))
      ensures Inst() == old(Inst())
      ensures SolutionInv()
      ensures coutMeilleureSolution <= old(coutMeilleureSolution)
      ensures NonNeg(Inst()) ==> HeadBounded(Inst(), vus, multiset(nonVus), x, coutMeilleureSolution)
    {
      ghost var vus0 := vus;
      ghost var pool0 := multiset(nonVus);
      var addCost := StepCost(sommetCrt, x);
      DescendStep(Inst(), vus0, pool0, sommetCrt, coutVus, x, addCost);
      Forward(x, coutVus.Plus(addCost), vus0, pool0);
    }

    /** The branch on `x` once its cost is known: `x` joins the route, the
        search goes on below it, and `x` is taken back. */
    method Forward(x: int, nouveauCout: Ext, ghost vus0: seq<int>, ghost pool0: multiset<int>)
      requires SolutionInv() && Ready() && x in nonVus
      requires vus == vus0 && multiset(nonVus) == pool0 && |vus0| >= 1 && x !in vus0
      requires Searching(Inst(), vus0 + [x], pool0 - multiset{x}, x, nouveauCout)
      modifies this`vus, this`nonVus, this`coutMeilleureSolution, meilleureSolution
      decreases |nonVus|, 0
      ensures Settings() == old(Settings()) && Inst() == old(Inst())
      ensures vus == vus0 && multiset(nonVus) == pool0
      ensures SolutionInv()
      ensures coutMeilleureSolution <= old(coutMeilleureSolution)
      ensures NonNeg(Inst()) ==> HeadBounded(Inst(), vus0, pool0, x, coutMeilleureSolution)
    {
      Advance(x);
      Deepen(x, nouveauCout);
      Retreat(x, vus0, pool0);
    }

    /** Searches below the route just extended by `x`, or cuts the branch when
        its cost already exceeds both the duration limit and the best tour. */
    method Deepen(x: int, nouveauCout: Ext)
      requires SolutionInv() && SearchState(x, nouveauCout)
      modifies this`vus, this`nonVus, this`coutMeilleureSolution, meilleureSolution
      decreases |nonVus|, 5
      ensures Settings() == old(Settings())
      ensures vus == old(vus) && multiset(nonVus) == multiset(old(nonVus))
      ensures SolutionInv()
      ensures coutMeilleureSolution <= old(coutMeilleureSolution)
      ensures NonNeg(Inst()) ==> LowerBound(Inst(), vus, multiset(nonVus), coutMeilleureSolution)
      ensures Inst() == old(Inst())
    {
      if nouveauCout.AtMost(maxDuration) || nouveauCout.Below(Fin(coutMeilleureSolution)) {
        BranchAndBound(x, nouveauCout);
      } else if NonNeg(Inst()) {
        CutBranch(Inst(), vus, multiset(nonVus), coutMeilleureSolution);
      }
    }

    /** `vus.add(x); nonVus.remove(x)`: moves `x` to the end of the route. */
    method Advance(x: int)
      requires SolutionInv() && x in nonVus
      modifies this`vus, this`nonVus
      ensures vus == old(vus) + [x] && nonVus == RemoveFirst(old(nonVus), x)
      ensures |nonVus| == |old(nonVus)| - 1 && multiset(nonVus) == multiset(old(nonVus)) - multiset{x}
      ensures SolutionInv()
      ensures Inst() == old(Inst()) && coutMeilleureSolution == old(coutMeilleureSolution)
    {
      vus := vus + [x];
      nonVus := RemoveFirst(nonVus, x);
    }

    /** `getCout(sommetCrt, x)` plus the service time of `x` when there is
        one for it: the cost of the step from `sommetCrt` to `x`. */
    method StepCost(sommetCrt: int, x: int) returns (addCost: Ext)
      requires Ready()
      ensures addCost == Step(Inst(), sommetCrt, x)
    {
      addCost := g.value.Cout(sommetCrt, x);
      if serviceTimes.Some? && 0 <= x < |serviceTimes.value| {
        addCost := addCost.Plus(Fin(serviceTimes.value[x]));
      } else {
        assert addCost.Plus(Fin(0.0)) == addCost;
      }
    }

    /** `vus.remove(x); nonVus.add(x)`: takes back the last step of the
        route, putting `x` at the end of the unvisited list. A bound on every
        tour through the longer route bounds every tour that visits `x` next. */
    method Retreat(x: int, ghost vus0: seq<int>, ghost pool0: multiset<int>)
      requires Ready() && |vus0| >= 1
      requires vus == vus0 + [x] && x !in vus0
      requires x in pool0 && multiset(nonVus) == pool0 - multiset{x}
      modifies this`vus, this`nonVus
      ensures vus == RemoveFirst(old(vus), x) && nonVus == old(nonVus) + [x]
      ensures vus == vus0 && multiset(nonVus) == pool0
      ensures old(SolutionInv()) ==> SolutionInv()
      ensures NonNeg(Inst()) && LowerBound(Inst(), vus0 + [x], pool0 - multiset{x}, coutMeilleureSolution) ==>
                HeadBounded(Inst(), vus0, pool0, x, coutMeilleureSolution)
      ensures Inst() == old(Inst()) && coutMeilleureSolution == old(coutMeilleureSolution)
    {
      RemoveFirstAppended(vus0, x);
      assert (pool0 - multiset{x}) + multiset{x} == pool0;
      vus := RemoveFirst(vus, x);
      nonVus := nonVus + [x];
      if NonNeg(Inst()) && LowerBound(Inst(), vus0 + [x], pool0 - multiset{x}, coutMeilleureSolution) {
        HeadBound(Inst(), vus0, pool0, x, coutMeilleureSolution);
      }
    }

    /** Copies `r` into the solution array: `vus.toArray(meilleureSolution)`
        in the search, an explicit loop in the heuristic. */
    method StoreRoute(r: seq<int>)
      requires |r| == meilleureSolution.Length
      modifies meilleureSolution
      ensures AllSome() && Route() == r
    {
      var i := 0;
      while i < |r|
        invariant 0 <= i <= |r|
        invariant forall j :: 0 <= j < i ==> meilleureSolution[j] == Some(r[j])
      {
        meilleureSolution[i] := Some(r[i]);
        i := i + 1;
      }
    }
  }

  /** The search from the depot bounds every tour. */
  lemma Optimal(inst: Instance, pool: multiset<int>, best: real)
    requires inst.g.Valid() && inst.g.n >= 1 && NonNeg(inst)
    requires multiset([0]) + pool == multiset(Iota(inst.g.n))
    requires LowerBound(inst, [0], pool, best)
    ensures forall t :: IsTour(inst, t) ==> Fin(best).AtMost(TourCost(inst, t))
  {
    forall t | IsTour(inst, t)
      ensures Fin(best).AtMost(TourCost(inst, t))
    {
      assert [0] + t[1..] == t;
      assert multiset(t) == multiset([0]) + multiset(t[1..]);
      var m := multiset(t[1..]);
      assert m == (multiset([0]) + m) - multiset([0]);
      assert pool == (multiset([0]) + pool) - multiset([0]);
      assert Completes(inst, [0], pool, t[1..]);
    }
  }

  /** A route holding every vertex once has one entry per vertex. */
  lemma PermutationLength(p: seq<int>, n: nat)
    requires multiset(p) == multiset(Iota(n))
    ensures |p| == n
  {
    assert |multiset(p)| == |multiset(Iota(n))|;
  }

  /** Descending into `x` keeps the search state. */
  /** One step of the search is well formed: from a searching state at
      `cur` with cost `cost`, taking the eligible vertex `x` at the cost of the
      step gives a searching state at `x`. */
  lemma DescendStep(inst: Instance, vus: seq<int>, pool: multiset<int>, cur: int, cost: Ext, x: int, addCost: Ext)
    requires inst.g.Valid() && Searching(inst, vus, pool, cur, cost)
    requires x in pool && inst.g.EstArc(cur, x)
    requires forall q :: q in Preds(inst, x) ==> q in vus
    requires addCost == Step(inst, cur, x)
    ensures |vus| >= 1 && x !in vus
    ensures Searching(inst, vus + [x], pool - multiset{x}, x, cost.Plus(addCost))
  {
    ExploreStep(inst, vus, pool, cur, cost, x);
    PathCostAppend(inst, vus, x);
  }

  lemma ExploreStep(inst: Instance, vus: seq<int>, pool: multiset<int>, cur: int, cost: Ext, x: int)
    requires inst.g.Valid() && Searching(inst, vus, pool, cur, cost)
    requires x in pool && inst.g.EstArc(cur, x)
    requires forall q :: q in Preds(inst, x) ==> q in vus
    ensures x !in vus
    ensures Searching(inst, vus + [x], pool - multiset{x}, x, PathCost(inst, vus + [x]))
  {
    IotaCount(inst.g.n, x);
    assert multiset(vus)[x] == 0;
    PrefixExtend(inst, vus, x);
    assert multiset(vus + [x]) + (pool - multiset{x}) == multiset(vus) + pool;
  }

  /** With nothing left to visit, the only completion is the empty one. */
  lemma LeafBound(inst: Instance, vus: seq<int>, best: real)
    requires inst.g.Valid() && |vus| >= 1
    requires IsTour(inst, vus) ==> Fin(best).AtMost(TourCost(inst, vus))
    ensures LowerBound(inst, vus, multiset{}, best)
  {
    forall r | Completes(inst, vus, multiset{}, r)
      ensures |vus + r| >= 1 && Fin(best).AtMost(TourCost(inst, vus + r))
    {
      assert |multiset(r)| == 0;
      assert vus + r == vus;
    }
  }

  /** A smaller best cost keeps the bound for every candidate already tried. */
  lemma AllHeadBoundedMono(inst: Instance, vus: seq<int>, pool: multiset<int>, ys: seq<int>, best: real, better: real)
    requires inst.g.Valid() && better <= best
    requires forall y :: y in ys ==> HeadBounded(inst, vus, pool, y, best)
    ensures forall y :: y in ys ==> HeadBounded(inst, vus, pool, y, better)
  {
    forall y | y in ys
      ensures HeadBounded(inst, vus, pool, y, better)
    {
      HeadBoundedMono(inst, vus, pool, y, best, better);
    }
  }

  /** Every completion starts with one of the candidates the iterator offers. */
  lemma ExhaustedBound(inst: Instance, vus: seq<int>, nonVus: seq<int>, cands: seq<int>, best: real)
    requires inst.g.Valid() && |vus| >= 1 && |nonVus| > 0
    requires cands == SortByCost(inst.g, vus[|vus| - 1], Successors(inst.g, nonVus, vus[|vus| - 1]))
    requires forall y :: y in cands ==> HeadBounded(inst, vus, multiset(nonVus), y, best)
    ensures LowerBound(inst, vus, multiset(nonVus), best)
  {
    forall r | Completes(inst, vus, multiset(nonVus), r)
      ensures |vus + r| >= 1 && Fin(best).AtMost(TourCost(inst, vus + r))
    {
      assert |r| == |multiset(nonVus)|;
      CompletionHead(inst, vus, multiset(nonVus), r);
      assert r[0] in nonVus;
      CandidatesIff(inst.g, nonVus, vus[|vus| - 1], r[0]);
      assert HeadBounded(inst, vus, multiset(nonVus), r[0], best);
    }
  }
}
