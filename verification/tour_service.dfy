/** The per-courier tour store of the planning layer: the courier list, the
    requested orderings and the placeholder tours built from each courier's
    requests (domain/service/TourService.java). */
module TourServices {
  import opened Domain
  import opened PickupDeliveries

  /** The two placeholder stops of `r`: its pickup, then its delivery, both
      with times 0. */
  function StopsOf(r: Request): seq<TourStop> {
    [TourStop(Pickup, r.id, r.pickupId, Some(0), Some(0)),
     TourStop(Delivery, r.id, r.deliveryId, Some(0), Some(0))]
  }

  /** The placeholder stop list of `reqs`, two stops per request (see
      `DummyStopsLayout`). */
  function DummyStops(reqs: seq<Request>): (stops: seq<TourStop>)
    ensures |stops| == 2 * |reqs|
  {
    if reqs == [] then [] else DummyStops(reqs[..|reqs| - 1]) + StopsOf(reqs[|reqs| - 1])
  }

  /** The pickup of request `i` is at position 2i of the placeholder stop
      list and its delivery at 2i+1. */
  lemma {:induction false} DummyStopsLayout(reqs: seq<Request>)
    ensures forall i :: 0 <= i < |reqs| ==>
              DummyStops(reqs)[2 * i] == TourStop(Pickup, reqs[i].id, reqs[i].pickupId, Some(0), Some(0)) &&
              DummyStops(reqs)[2 * i + 1] == TourStop(Delivery, reqs[i].id, reqs[i].deliveryId, Some(0), Some(0))
  {
    if reqs != [] {
      var init := reqs[..|reqs| - 1];
      DummyStopsLayout(init);
      forall i | 0 <= i < |reqs|
        ensures DummyStops(reqs)[2 * i] == TourStop(Pickup, reqs[i].id, reqs[i].pickupId, Some(0), Some(0))
        ensures DummyStops(reqs)[2 * i + 1] == TourStop(Delivery, reqs[i].id, reqs[i].deliveryId, Some(0), Some(0))
      {
        if i < |init| {
          assert reqs[i] == init[i];
        }
      }
    }
  }

  /** The placeholder tour of `courierId`: its requests' stops, no segment,
      no distance, no duration. */
  function DummyTour(courierId: int, reqs: seq<Request>): TourData {
    TourData(courierId, DummyStops(reqs), [], 0.0, 0)
  }

  /** No courier of `cs` has a list naming a request that is not stored. */
  predicate ListsResolve(requests: map<int, Request>, perCourier: map<int, seq<int>>, cs: seq<int>) {
    forall c :: c in cs ==> AllStored(requests, ListOf(perCourier, c))
  }

  /** The position of the first courier of `cs` whose list names a request
      that is not stored, or `|cs|` when every list resolves. */
  function FirstUnresolved(requests: map<int, Request>, perCourier: map<int, seq<int>>, cs: seq<int>): (k: nat)
    ensures k <= |cs|
    ensures ListsResolve(requests, perCourier, cs[..k])
    ensures k < |cs| ==> !AllStored(requests, ListOf(perCourier, cs[k]))
  {
    if cs == [] then 0
    else if !AllStored(requests, ListOf(perCourier, cs[0])) then 0
    else
      var k := 1 + FirstUnresolved(requests, perCourier, cs[1..]);
      assert cs[..k] == [cs[0]] + cs[1..][..k - 1];
      k
  }

  /** A position before which every list resolves and at which one does not
      (or the end) is the first unresolved position. */
  lemma {:induction false} FirstUnresolvedAt(requests: map<int, Request>, perCourier: map<int, seq<int>>, cs: seq<int>, k: int)
    requires 0 <= k <= |cs|
    requires ListsResolve(requests, perCourier, cs[..k])
    requires k < |cs| ==> !AllStored(requests, ListOf(perCourier, cs[k]))
    ensures FirstUnresolved(requests, perCourier, cs) == k
  {
    if k > 0 {
      assert cs[0] in cs[..k];
      assert cs[1..][..k - 1] == cs[1..k];
      forall c | c in cs[1..k] ensures AllStored(requests, ListOf(perCourier, c)) {
        assert c in cs[..k];
      }
      FirstUnresolvedAt(requests, perCourier, cs[1..], k - 1);
    }
  }

  /** The stops of one courier's placeholder tour, built request by request;
      `complete` is false when an entry is null, where the source throws a
      `NullPointerException` on `req.getId()`. */
  method PlaceholderStops(courierRequests: seq<Option<Request>>, ghost requests: map<int, Request>, ghost ids: seq<int>)
    returns (stops: seq<TourStop>, complete: bool)
    requires |courierRequests| == |ids|
    requires forall i :: 0 <= i < |ids| ==> courierRequests[i] == Lookup(requests, ids[i])
    ensures complete <==> AllStored(requests, ids)
    ensures complete ==> stops == DummyStops(RequestsOf(requests, ids))
  {
    stops := [];
    ghost var got: seq<Request> := [];
    for i := 0 to |courierRequests|
      invariant |got| == i && AllStored(requests, ids[..i])
      invariant forall j :: 0 <= j < i ==> got[j] == requests[ids[j]]
      invariant stops == DummyStops(got)
    {
      if courierRequests[i].None? {
        assert ids[i] !in requests;
        return stops, false;
      }
      var req := courierRequests[i].value;
      assert (got + [req])[..|got|] == got;
      got := got + [req];
      stops := stops + StopsOf(req);
    }
    assert ids[..|courierRequests|] == ids;
    assert got == RequestsOf(requests, ids);
    complete := true;
  }

  /** The tour table after visiting the couriers `cs` in order: each courier
      with a non-empty list gets its placeholder tour, the others keep theirs. */
  function StoreDummies(tours: map<int, TourData>, cs: seq<int>,
                        requests: map<int, Request>, perCourier: map<int, seq<int>>): map<int, TourData>
    requires ListsResolve(requests, perCourier, cs)
  {
    if cs == [] then tours
    else
      var c := cs[|cs| - 1];
      var before := StoreDummies(tours, cs[..|cs| - 1], requests, perCourier);
      assert c in cs;
      var ids := ListOf(perCourier, c);
      if |ids| == 0 then before else before[c := DummyTour(c, RequestsOf(requests, ids))]
  }

  /** One more courier whose list resolves: the table gains its placeholder
      tour when the list is not empty. */
  lemma StoreDummiesSnoc(tours: map<int, TourData>, cs: seq<int>, c: int,
                         requests: map<int, Request>, perCourier: map<int, seq<int>>)
    requires ListsResolve(requests, perCourier, cs) && AllStored(requests, ListOf(perCourier, c))
    ensures ListsResolve(requests, perCourier, cs + [c])
    ensures var ids := ListOf(perCourier, c);
            StoreDummies(tours, cs + [c], requests, perCourier) ==
            if |ids| == 0 then StoreDummies(tours, cs, requests, perCourier)
            else StoreDummies(tours, cs, requests, perCourier)[c := DummyTour(c, RequestsOf(requests, ids))]
  {
    assert (cs + [c])[..|cs|] == cs;
  }

  /** After the pass, a listed courier with requests holds exactly its
      placeholder tour, and every other courier keeps the tour it had. */
  lemma {:induction false} StoreDummiesEffect(tours: map<int, TourData>, cs: seq<int>,
                                              requests: map<int, Request>, perCourier: map<int, seq<int>>, c: int)
    requires ListsResolve(requests, perCourier, cs)
    ensures var after := StoreDummies(tours, cs, requests, perCourier);
            if c in cs && |ListOf(perCourier, c)| > 0 then
              c in after && after[c] == DummyTour(c, RequestsOf(requests, ListOf(perCourier, c)))
            else
              (c in after <==> c in tours) && (c in tours ==> after[c] == tours[c])
  {
    if cs != [] {
      var init, last := cs[..|cs| - 1], cs[|cs| - 1];
      assert cs == init + [last];
      assert ListsResolve(requests, perCourier, init) by {
        forall d | d in init ensures AllStored(requests, ListOf(perCourier, d)) {
          assert d in cs;
        }
      }
      StoreDummiesEffect(tours, init, requests, perCourier, c);
      var before := StoreDummies(tours, init, requests, perCourier);
      var ids := ListOf(perCourier, last);
      var after := StoreDummies(tours, cs, requests, perCourier);
      if |ids| == 0 {
        assert after == before;
      } else {
        var t := DummyTour(last, RequestsOf(requests, ids));
        assert after == before[last := t];
        if c == last {
          assert after[c] == t;
        } else {
          assert c in after <==> c in before;
          assert c in before ==> after[c] == before[c];
        }
      }
    }
  }

  /** A placeholder tour lists every request twice, pickup first. */
  lemma DummyTourLayout(courierId: int, reqs: seq<Request>, i: int)
    requires 0 <= i < |reqs|
    ensures var t := DummyTour(courierId, reqs);
            |t.stops| == 2 * |reqs| && t.segments == [] && t.totalDistance == 0.0 && t.totalDuration == 0 &&
            t.stops[2 * i].kind == Pickup && t.stops[2 * i + 1].kind == Delivery &&
            t.stops[2 * i].requestId == t.stops[2 * i + 1].requestId == reqs[i].id
  {
    DummyStopsLayout(reqs);
  }

  class TourService {
    var couriers: array<int>
    var numCouriers: int
    var tours: map<int, TourData>
    var requestOrder: map<int, seq<(int, int)>>

    /** The couriers are numbered 1 to `numCouriers`. */
    ghost predicate Valid()
      reads this, couriers
    {
      couriers.Length == numCouriers &&
      forall i :: 0 <= i < couriers.Length ==> couriers[i] == i + 1
    }

    constructor ()
      ensures tours == map[] && requestOrder == map[]
      ensures numCouriers == 0 && couriers.Length == 0
      ensures Valid()
    {
      tours := map[];
      requestOrder := map[];
      numCouriers := 0;
      couriers := new int[0];
    }

    /** Builds a placeholder tour for every courier with at least one
        request, replacing any tour it had; does nothing without couriers or
        without a request book. A list naming a request that is no longer
        stored makes the source throw (`thrown`): the couriers before it keep
        their new tours, that courier and the later ones their old ones. */
    method ComputeAllTours(pd: PickupDelivery?) returns (thrown: bool)
      requires numCouriers > 0 ==> Valid()
      modifies this`tours
      ensures numCouriers <= 0 || pd == null ==> tours == old(tours) && !thrown
      ensures numCouriers > 0 && pd != null ==>
                var k := FirstUnresolved(pd.requests, pd.requestsPerCourier, couriers[..]);
                thrown == (k < couriers.Length) &&
                tours == StoreDummies(old(tours), couriers[..k], pd.requests, pd.requestsPerCourier)
    {
      thrown := false;
      if numCouriers > 0 && pd != null {
        thrown := StoreCourierTours(pd, couriers[..]);
      }
    }

    /** The courier loop over the ids `cs`, in order, stopping at the first
        list that names a request that is not stored. */
    method StoreCourierTours(pd: PickupDelivery, cs: seq<int>) returns (thrown: bool)
      modifies this`tours
      ensures var k := FirstUnresolved(pd.requests, pd.requestsPerCourier, cs);
              thrown == (k < |cs|) &&
              tours == StoreDummies(old(tours), cs[..k], pd.requests, pd.requestsPerCourier)
    {
      ghost var rq, pc := pd.requests, pd.requestsPerCourier;
      for k := 0 to |cs|
        invariant rq == pd.requests && pc == pd.requestsPerCourier
        invariant ListsResolve(rq, pc, cs[..k])
        invariant tours == StoreDummies(old(tours), cs[..k], rq, pc)
      {
        var complete := StoreCourierTour(pd, cs[k]);
        if !complete {
          FirstUnresolvedAt(rq, pc, cs, k);
          return true;
        }
        StoreDummiesSnoc(old(tours), cs[..k], cs[k], rq, pc);
        assert cs[..k + 1] == cs[..k] + [cs[k]];
      }
      FirstUnresolvedAt(rq, pc, cs, |cs|);
      assert cs[..|cs|] == cs;
      thrown := false;
    }

    /** The body of the courier loop: the courier's placeholder tour when its
        list is not empty; `complete` is false, and nothing is stored, when
        the list names a request that is not stored. */
    method StoreCourierTour(pd: PickupDelivery, courierId: int) returns (complete: bool)
      modifies this`tours
      ensures complete <==> AllStored(pd.requests, ListOf(pd.requestsPerCourier, courierId))
      ensures !complete || |ListOf(pd.requestsPerCourier, courierId)| == 0 ==> tours == old(tours)
      ensures complete && |ListOf(pd.requestsPerCourier, courierId)| > 0 ==>
                tours == old(tours)[courierId := DummyTour(courierId, RequestsOf(pd.requests, ListOf(pd.requestsPerCourier, courierId)))]
    {
      var courierRequests := pd.GetRequestsForCourier(courierId);
      if |courierRequests| == 0 {
        return true;
      }
      var stops;
      stops, complete := PlaceholderStops(courierRequests, pd.requests, ListOf(pd.requestsPerCourier, courierId));
      if complete {
        tours := tours[courierId := TourData(courierId, stops, [], 0.0, 0)];
      }
    }

    /** The stored tour of courier `id`, if any; nothing is computed. */
    function ComputeTourForCourier(id: int): (r: Option<TourData>)
      reads this
      ensures r.Some? <==> id in tours
      ensures r.Some? ==> r.value == tours[id]
    {
      if id in tours then Some(tours[id]) else None
    }

    /** Resets the courier list to the ids 1 to `n`. A negative `n` is
        stored as the count and then makes the array allocation throw
        (`thrown`), leaving the old array in place. */
    method UpdateNumCouriers(n: int) returns (thrown: bool)
      modifies this
      ensures numCouriers == n && thrown == (n < 0)
      ensures thrown ==> couriers == old(couriers)
      ensures !thrown ==> fresh(couriers) && Valid()
      ensures tours == old(tours) && requestOrder == old(requestOrder)
    {
      numCouriers := n;
      if n < 0 {
        return true;
      }
      var ids := new int[n];
      for i := 0 to n
        modifies ids
        invariant forall j :: 0 <= j < i ==> ids[j] == j + 1
      {
        ids[i] := i + 1;
      }
      couriers := ids;
      thrown := false;
    }

    /** Records that `before` should come before `after` for the courier,
        appended to that courier's list (created on first use). */
    method UpdateRequestOrder(before: int, after: int, courierId: int)
      modifies this`requestOrder
      ensures courierId in requestOrder
      ensures requestOrder[courierId] ==
              (if courierId in old(requestOrder) then old(requestOrder)[courierId] else []) + [(before, after)]
      ensures forall c :: c != courierId ==>
                (c in requestOrder <==> c in old(requestOrder)) &&
                (c in requestOrder ==> requestOrder[c] == old(requestOrder)[c])
    {
      var ofCourier := if courierId in requestOrder then requestOrder[courierId] else [];
      requestOrder := requestOrder[courierId := ofCourier + [(before, after)]];
    }
  }
}
