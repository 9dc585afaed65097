/** The requests of a delivery plan and their assignment to couriers
    (domain/model/PickupDelivery.java). */
module PickupDeliveries {
  import opened Domain
  import opened Collections

  /** `requests.get(id)`: the request stored under `id`, or null. */
  function Lookup(requests: map<int, Request>, id: int): Option<Request> {
    if id in requests then Some(requests[id]) else None
  }

  /** The ids assigned to `courierId`, empty when the courier has no list. */
  function ListOf(perCourier: map<int, seq<int>>, courierId: int): seq<int> {
    if courierId in perCourier then perCourier[courierId] else []
  }

  /** The intersection is the pickup or the delivery point of `r`. */
  predicate Serves(r: Request, x: int) {
    r.deliveryId == x || r.pickupId == x
  }

  /** The role reported for a request that serves `x`: the delivery check comes first. */
  function RoleAt(r: Request, x: int): StopType {
    if r.deliveryId == x then Delivery else Pickup
  }

  /** Every id of the list names a stored request. */
  predicate AllStored(requests: map<int, Request>, ids: seq<int>) {
    forall i :: 0 <= i < |ids| ==> ids[i] in requests
  }

  /** The stored requests with the given ids, in list order. */
  function RequestsOf(requests: map<int, Request>, ids: seq<int>): (reqs: seq<Request>)
    requires AllStored(requests, ids)
    ensures |reqs| == |ids| && forall i :: 0 <= i < |ids| ==> reqs[i] == requests[ids[i]]
  {
    if ids == [] then [] else RequestsOf(requests, ids[..|ids| - 1]) + [requests[ids[|ids| - 1]]]
  }

  class PickupDelivery {
    var requests: map<int, Request>
    var requestsPerCourier: map<int, seq<int>>
    var warehouseAdressId: int

    /** Every request is filed under its own id. */
    ghost predicate Valid()
      reads this
    {
      forall id :: id in requests ==> requests[id].id == id
    }

    constructor ()
      ensures requests == map[] && requestsPerCourier == map[] && warehouseAdressId == -1
      ensures Valid()
    {
      requests := map[];
      requestsPerCourier := map[];
      warehouseAdressId := -1;
    }

    /** The copy constructor: the copy holds its own lists, so later changes
        to either object leave the other untouched. */
    constructor Copy(other: PickupDelivery)
      ensures requests == other.requests
      ensures requestsPerCourier == other.requestsPerCourier
      ensures warehouseAdressId == other.warehouseAdressId
      ensures other.Valid() ==> Valid()
    {
      requests := other.requests;
      requestsPerCourier := other.requestsPerCourier;
      warehouseAdressId := other.warehouseAdressId;
    }

    /** Stores `request` and appends its id to the courier's list, creating
        the list on first use. Always reports success. */
    method AddRequestToCourier(courierId: int, request: Request) returns (ok: bool)
      requires Valid()
      modifies this
      ensures Valid()
      ensures ok
      ensures requests == old(requests)[request.id := request]
      ensures requestsPerCourier ==
              old(requestsPerCourier)[courierId := ListOf(old(requestsPerCourier), courierId) + [request.id]]
      ensures warehouseAdressId == old(warehouseAdressId)
    {
      requests := requests[request.id := request];
      var ofCourier := ListOf(requestsPerCourier, courierId);
      ofCourier := ofCourier + [request.id];
      requestsPerCourier := requestsPerCourier[courierId := ofCourier];
      return true;
    }

    /** Forgets the request, then drops the first occurrence of its id from
        the courier's list; reports failure only when the courier has no list
        (the request is forgotten all the same). */
    method RemoveRequestFromCourier(courierId: int, requestId: int) returns (ok: bool)
      requires Valid()
      modifies this
      ensures Valid()
      ensures ok <==> courierId in old(requestsPerCourier)
      ensures requests == old(requests) - {requestId}
      ensures requestsPerCourier ==
              if ok then old(requestsPerCourier)[courierId := RemoveFirst(old(requestsPerCourier)[courierId], requestId)]
              else old(requestsPerCourier)
      ensures warehouseAdressId == old(warehouseAdressId)
    {
      requests := requests - {requestId};
      if courierId !in requestsPerCourier {
        return false;
      }
      requestsPerCourier := requestsPerCourier[courierId := RemoveFirst(requestsPerCourier[courierId], requestId)];
      return true;
    }

    /** The courier's requests in assignment order; an id whose request has
        been forgotten yields a null entry. */
    method GetRequestsForCourier(courierId: int) returns (result: seq<Option<Request>>)
      ensures |result| == |ListOf(requestsPerCourier, courierId)|
      ensures forall i :: 0 <= i < |result| ==>
                result[i] == Lookup(requests, ListOf(requestsPerCourier, courierId)[i])
      ensures Valid() ==> forall i :: 0 <= i < |result| && result[i].Some? ==>
                result[i].value.id == ListOf(requestsPerCourier, courierId)[i]
    {
      if courierId !in requestsPerCourier {
        return [];
      }
      var ids := requestsPerCourier[courierId];
      result := [];
      var i := 0;
      while i < |ids|
        invariant 0 <= i <= |ids|
        invariant |result| == i
        invariant forall j :: 0 <= j < i ==> result[j] == Lookup(requests, ids[j])
      {
        result := result + [Lookup(requests, ids[i])];
        i := i + 1;
      }
    }

    method SetWarehouseAdressId(id: int)
      modifies this
      ensures warehouseAdressId == id
      ensures requests == old(requests) && requestsPerCourier == old(requestsPerCourier)
    {
      warehouseAdressId := id;
    }

    /** `findRequestById`: the request stored under `requestId`, if any. */
    function FindRequestById(requestId: int): (r: Option<Request>)
      reads this
      ensures r.Some? <==> requestId in requests
      ensures Valid() && r.Some? ==> r.value.id == requestId
    {
      Lookup(requests, requestId)
    }

    /** The request with the smallest id that picks up or delivers at `x`,
        with the role it plays there (delivery when it does both). */
    method FindRequestByIntersectionId(x: int) returns (r: Option<(Request, StopType)>)
      requires Valid()
      ensures r.None? <==> forall id :: id in requests ==> !Serves(requests[id], x)
      ensures r.Some? ==>
                var req := r.value.0;
                req.id in requests && requests[req.id] == req && Serves(req, x) &&
                r.value.1 == RoleAt(req, x) &&
                forall id :: id in requests && id < req.id ==> !Serves(requests[id], x)
    {
      var rest := requests.Keys;
      while rest != {}
        invariant rest <= requests.Keys
        invariant forall id :: id in requests && id !in rest ==> !Serves(requests[id], x)
        invariant forall id, k :: id in requests && id !in rest && k in rest ==> id < k
        decreases rest
      {
        MinExists(rest);
        var k :| k in rest && forall j :: j in rest ==> k <= j;
        var req := requests[k];
        if req.deliveryId == x {
          return Some((req, Delivery));
        } else if req.pickupId == x {
          return Some((req, Pickup));
        }
        rest := rest - {k};
      }
      return None;
    }
  }
}
