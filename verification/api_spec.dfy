/** The pure pieces of the web service's tour calculation: the list of
    points, their de-duplication, the precedence gate of its custom candidate
    iterator, the stop classification with its running clock, and the
    shortest-path chain read back from the predecessor map
    (application/ApiService.java). */
module ApiSpec {
  import opened Domain
  import opened Collections
  import opened TspSpec
  import opened PickupDeliveries

  /** The warehouse, then each request's pickup and delivery, in order. */
  function Points(warehouse: int, reqs: seq<Request>): (points: seq<int>)
    ensures |points| == 2 * |reqs| + 1 && points[0] == warehouse
    ensures forall i :: 0 <= i < |reqs| ==>
              points[2 * i + 1] == reqs[i].pickupId && points[2 * i + 2] == reqs[i].deliveryId
  {
    if reqs == [] then [warehouse]
    else
      var last := reqs[|reqs| - 1];
      Points(warehouse, reqs[..|reqs| - 1]) + [last.pickupId, last.deliveryId]
  }

  /** `stream().distinct()`: each value once, at its first occurrence. */
  function Dedupe(s: seq<int>): seq<int> {
    if s == [] then []
    else
      var init := s[..|s| - 1];
      Dedupe(init) + (if s[|s| - 1] in init then [] else [s[|s| - 1]])
  }

  /** De-duplication keeps exactly the values of the input, each once. */
  lemma {:induction false} DedupeSpec(s: seq<int>)
    ensures Distinct(Dedupe(s))
    ensures forall x :: x in Dedupe(s) <==> x in s
  {
    if s != [] {
      var init := s[..|s| - 1];
      DedupeSpec(init);
      forall x
        ensures x in Dedupe(s) <==> x in s
      {
        assert s == init + [s[|s| - 1]];
      }
    }
  }

  /** The first value stays first: the warehouse is vertex 0. */
  lemma {:induction false} DedupeHead(s: seq<int>)
    requires |s| > 0
    ensures |Dedupe(s)| > 0 && Dedupe(s)[0] == s[0]
  {
    if |s| > 1 {
      DedupeHead(s[..|s| - 1]);
    }
  }

  /** A list without repeated values is left as it is. */
  lemma {:induction false} DedupeDistinct(s: seq<int>)
    requires Distinct(s)
    ensures Dedupe(s) == s
  {
    if s != [] {
      var init := s[..|s| - 1];
      DedupeDistinct(init);
      assert s[|s| - 1] !in init;
      assert s == init + [s[|s| - 1]];
    }
  }

  /** De-duplicating twice changes nothing. */
  lemma DedupeIdempotent(s: seq<int>)
    ensures Dedupe(Dedupe(s)) == Dedupe(s)
  {
    DedupeSpec(s);
    DedupeDistinct(Dedupe(s));
  }

  /** `List.indexOf`: the first position of `x`, or -1. */
  function IndexOf(s: seq<int>, x: int): (i: int)
    ensures -1 <= i < |s|
    ensures i == -1 <==> x !in s
    ensures i >= 0 ==> s[i] == x && forall j :: 0 <= j < i ==> s[j] != x
  {
    if s == [] then -1
    else if s[0] == x then 0
    else
      var r := IndexOf(s[1..], x);
      if r == -1 then -1 else r + 1
  }

  /** The candidate filter of the custom iterator over a prefix of the
      unvisited list `whole`: a delivery vertex is held back while its pickup
      vertex is still in `whole`; the order of the list is kept. */
  function Gated(d2p: map<int, int>, prefix: seq<int>, whole: seq<int>): seq<int> {
    if prefix == [] then []
    else
      var nv := prefix[|prefix| - 1];
      Gated(d2p, prefix[..|prefix| - 1], whole) +
      (if nv in d2p && d2p[nv] in whole then [] else [nv])
  }

  /** The candidates the iterator offers for the unvisited list `nonVus`. */
  function Allowed(d2p: map<int, int>, nonVus: seq<int>): seq<int> {
    Gated(d2p, nonVus, nonVus)
  }

  lemma {:induction false} GatedIff(d2p: map<int, int>, prefix: seq<int>, whole: seq<int>, x: int)
    ensures x in Gated(d2p, prefix, whole) <==> x in prefix && !(x in d2p && d2p[x] in whole)
  {
    if prefix != [] {
      var init := prefix[..|prefix| - 1];
      assert prefix == init + [prefix[|prefix| - 1]];
      GatedIff(d2p, init, whole, x);
    }
  }

  /** The iterator offers the unvisited vertices in their order, leaving
      out each delivery whose pickup is still unvisited. */
  lemma AllowedIff(d2p: map<int, int>, nonVus: seq<int>, x: int)
    ensures x in Allowed(d2p, nonVus) <==> x in nonVus && !(x in d2p && d2p[x] in nonVus)
  {
    GatedIff(d2p, nonVus, nonVus, x);
  }

  /** The one-predecessor precedences the gate stands for: each delivery
      vertex after its pickup vertex. */
  function GatePrecedences(d2p: map<int, int>): map<int, set<int>> {
    map d | d in d2p :: {d2p[d]}
  }

  /** While the visited and unvisited lists split the vertices, the gate
      offers exactly the unvisited vertices whose predecessors under
      `GatePrecedences` are all visited. */
  lemma GateIsPrecedence(d2p: map<int, int>, vus: seq<int>, nonVus: seq<int>, n: nat, x: int)
    requires multiset(vus) + multiset(nonVus) == multiset(Iota(n))
    requires forall d :: d in d2p ==> 0 <= d2p[d] < n
    ensures x in Allowed(d2p, nonVus) <==>
            x in nonVus && forall q :: q in (if x in GatePrecedences(d2p) then GatePrecedences(d2p)[x] else {}) ==> q in vus
  {
    AllowedIff(d2p, nonVus, x);
    if x in d2p {
      var q := d2p[x];
      IotaCount(n, q);
      assert q in vus <==> q !in nonVus by {
        assert multiset(vus)[q] + multiset(nonVus)[q] == 1;
      }
    }
  }

  /** `reqs[j]` is the first request that picks up or delivers at `x`. */
  predicate FirstServing(reqs: seq<Request>, x: int, j: int) {
    0 <= j < |reqs| && Serves(reqs[j], x) && forall k :: 0 <= k < j ==> !Serves(reqs[k], x)
  }

  /** The stop kind, request id and service duration at intersection `x`:
      the first request serving `x` decides, and within a request the
      pickup is checked before the delivery. */
  function Classify(reqs: seq<Request>, x: int): Option<(StopType, int, int)> {
    if reqs == [] then None
    else if reqs[0].pickupId == x then Some((Pickup, reqs[0].id, reqs[0].pickupDuration))
    else if reqs[0].deliveryId == x then Some((Delivery, reqs[0].id, reqs[0].deliveryDuration))
    else Classify(reqs[1..], x)
  }

  lemma {:induction false} ClassifySpec(reqs: seq<Request>, x: int)
    ensures Classify(reqs, x).None? <==> forall k :: 0 <= k < |reqs| ==> !Serves(reqs[k], x)
    ensures Classify(reqs, x).Some? ==>
              exists j :: FirstServing(reqs, x, j) &&
                Classify(reqs, x).value ==
                  if reqs[j].pickupId == x then (Pickup, reqs[j].id, reqs[j].pickupDuration)
                  else (Delivery, reqs[j].id, reqs[j].deliveryDuration)
  {
    if reqs != [] && !Serves(reqs[0], x) {
      var rest := reqs[1..];
      ClassifySpec(rest, x);
      if Classify(rest, x).Some? {
        var j :| FirstServing(rest, x, j) &&
                 Classify(rest, x).value ==
                   if rest[j].pickupId == x then (Pickup, rest[j].id, rest[j].pickupDuration)
                   else (Delivery, rest[j].id, rest[j].deliveryDuration);
        assert FirstServing(reqs, x, j + 1);
      }
    } else if reqs != [] {
      assert FirstServing(reqs, x, 0);
    }
  }

  /** The stops built while walking the visited intersections, with the
      running clock: the warehouse and intersections no request serves are
      skipped; every other intersection becomes a stop that arrives at the
      clock and departs after its service duration. */
  function StopsAlong(reqs: seq<Request>, warehouse: int, visited: seq<int>): (seq<TourStop>, int) {
    if visited == [] then ([], 0)
    else
      var before := StopsAlong(reqs, warehouse, visited[..|visited| - 1]);
      var x := visited[|visited| - 1];
      if x == warehouse then before
      else
        match Classify(reqs, x)
        case None => before
        case Some((kind, rid, dur)) =>
          (before.0 + [TourStop(kind, rid, x, Some(before.1), Some(before.1 + dur))], before.1 + dur)
  }

  /** Stop `i + 1` arrives when stop `i` departs. */
  predicate ChainedAt(s: seq<TourStop>, i: int)
    requires 0 <= i < |s| - 1
  {
    s[i + 1].arrival == s[i].departure
  }

  /** What every stop of the walk satisfies: it has both times, it is not
      the warehouse, and its kind, request and duration are the
      classification of its intersection. */
  predicate WellFormedStop(reqs: seq<Request>, warehouse: int, st: TourStop) {
    st.arrival.Some? && st.departure.Some? && st.intersectionId != warehouse &&
    Classify(reqs, st.intersectionId) == Some((st.kind, st.requestId, st.departure.value - st.arrival.value))
  }

  /** The clock starts at 0, each stop arrives when the previous one
      departs, and the final clock is the last departure: the total duration
      is the sum of the service durations. */
  lemma {:induction false} StopsTimeline(reqs: seq<Request>, warehouse: int, visited: seq<int>)
    ensures var (s, total) := StopsAlong(reqs, warehouse, visited);
            (forall i :: 0 <= i < |s| ==> WellFormedStop(reqs, warehouse, s[i])) &&
            (|s| == 0 ==> total == 0) &&
            (|s| > 0 ==> s[0].arrival == Some(0) && s[|s| - 1].departure == Some(total)) &&
            (forall i :: 0 <= i < |s| - 1 ==> ChainedAt(s, i))
  {
    if visited != [] {
      var init := visited[..|visited| - 1];
      StopsTimeline(reqs, warehouse, init);
      var before := StopsAlong(reqs, warehouse, init);
      var s := StopsAlong(reqs, warehouse, visited).0;
      forall i | 0 <= i < |s| - 1
        ensures ChainedAt(s, i)
      {
        if i < |before.0| - 1 {
          assert ChainedAt(before.0, i);
        }
      }
    }
  }

  /** Every id on the predecessor chains has a rank that drops along each
      link, so the chains are finite. */
  ghost predicate Ranked(preds: map<int, int>, rank: map<int, nat>) {
    forall k :: k in preds ==> k in rank && (preds[k] in preds ==> preds[k] in rank && rank[preds[k]] < rank[k])
  }

  ghost function Height(preds: map<int, int>, rank: map<int, nat>, x: int): nat
    requires Ranked(preds, rank)
  {
    if x in preds then rank[x] + 1 else 0
  }

  /** The predecessor chain ending at `x`, from the first id that has no
      predecessor. */
  ghost function Chain(preds: map<int, int>, rank: map<int, nat>, x: int): seq<int>
    requires Ranked(preds, rank)
    decreases Height(preds, rank, x)
  {
    if x in preds then Chain(preds, rank, preds[x]) + [x] else [x]
  }

  /** Position `i + 1` of `p` is reached from position `i`. */
  predicate LinkAt(preds: map<int, int>, p: seq<int>, i: int)
    requires 0 <= i < |p| - 1
  {
    p[i + 1] in preds && preds[p[i + 1]] == p[i]
  }

  /** A chain ends at `x`, starts at an id without predecessor and follows
      the predecessor links. */
  lemma {:induction false} ChainShape(preds: map<int, int>, rank: map<int, nat>, x: int)
    requires Ranked(preds, rank)
    ensures var c := Chain(preds, rank, x);
            |c| >= 1 && c[|c| - 1] == x && c[0] !in preds &&
            forall i :: 0 <= i < |c| - 1 ==> LinkAt(preds, c, i)
    decreases Height(preds, rank, x)
  {
    if x in preds {
      var init := Chain(preds, rank, preds[x]);
      ChainShape(preds, rank, preds[x]);
      var c := init + [x];
      forall i | 0 <= i < |c| - 1
        ensures LinkAt(preds, c, i)
      {
        if i < |init| - 1 {
          assert LinkAt(preds, init, i);
        }
      }
    }
  }

  /** The path the shortest-path search reports from `start` to `end`:
      none when `end` has no predecessor and is not `start`, otherwise the
      chain ending at `end` if it starts at `start`. */
  ghost function ExpectedPath(preds: map<int, int>, rank: map<int, nat>, start: int, end: int): Option<seq<int>>
    requires Ranked(preds, rank)
  {
    if end !in preds && end != start then None
    else
      var c := Chain(preds, rank, end);
      if c[0] == start then Some(c) else None
  }

  /** The early "no predecessor" exit changes nothing: a path is reported
      exactly when the chain ending at `end` starts at `start`, and then it
      runs from `start` to `end` along predecessor links. */
  lemma ExpectedPathSpec(preds: map<int, int>, rank: map<int, nat>, start: int, end: int)
    requires Ranked(preds, rank)
    ensures var c := Chain(preds, rank, end);
            ExpectedPath(preds, rank, start, end) == if c[0] == start then Some(c) else None
    ensures var r := ExpectedPath(preds, rank, start, end);
            r.Some? ==> |r.value| >= 1 && r.value[0] == start && r.value[|r.value| - 1] == end &&
                        forall i :: 0 <= i < |r.value| - 1 ==> LinkAt(preds, r.value, i)
  {
    ChainShape(preds, rank, end);
  }
}
