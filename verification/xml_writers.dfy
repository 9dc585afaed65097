/** Writing a tour and a request set back to XML (persistence/XMLWriters.java).
    The output is modelled as the elements and the attribute values written,
    in document order; the stream writer, the transformer and the file are
    not modelled. Times are kept as the numbers they are printed from. */
module XmlWriters {
  import opened Domain
  import opened Collections
  import opened Text
  import opened Tours
  import opened PickupDeliveries
  import opened XmlParsers

  /** The label written for an end of a segment where the tour does not stop. */
  const Intermediaire: string := "intermediaire"

  /** A `step` element: one road segment of the tour. */
  datatype StepElem = StepElem(origine: int, destination: int, typeStart: string, typeFinish: string,
                               departureTime: Option<int>, arrivalTime: Option<int>)

  /** The `Tour` element with its attributes and its steps. */
  datatype TourDoc = TourDoc(courierId: int, startTime: int, totalDistance: real,
                             totalDurationMinutes: int, steps: seq<StepElem>)

  // ---------------------------------------------------------------------
  // writeTour

  /** The first stop of `stops` at intersection `id`, as `getStopByIntersectionId`
      finds it. */
  function FirstStop(stops: seq<TourStop>, id: int): (r: Option<TourStop>)
    ensures r.None? <==> forall i :: 0 <= i < |stops| ==> stops[i].intersectionId != id
    ensures r.Some? ==> exists i :: FirstStopAt(stops, id, i) && stops[i] == r.value
  {
    if stops == [] then None
    else if stops[0].intersectionId == id then (assert FirstStopAt(stops, id, 0); Some(stops[0]))
    else
      var r := FirstStop(stops[1..], id);
      assert r.Some? ==> exists i :: FirstStopAt(stops, id, i) && stops[i] == r.value by {
        if r.Some? {
          var i :| FirstStopAt(stops[1..], id, i) && stops[1..][i] == r.value;
          assert FirstStopAt(stops, id, i + 1);
        }
      }
      r
  }

  /** Whatever satisfies the contract of `Tour.GetStopByIntersectionId` is the
      first stop at `id`. */
  lemma FirstStopIs(stops: seq<TourStop>, id: int, r: Option<TourStop>)
    requires r.None? <==> forall s :: s in stops ==> s.intersectionId != id
    requires r.Some? ==> exists i :: FirstStopAt(stops, id, i) && stops[i] == r.value
    ensures r == FirstStop(stops, id)
  {
    if r.Some? {
      var i :| FirstStopAt(stops, id, i) && stops[i] == r.value;
      var f := FirstStop(stops, id);
      var j :| FirstStopAt(stops, id, j) && stops[j] == f.value;
      assert i == j;
    } else {
      assert forall i :: 0 <= i < |stops| ==> stops[i] in stops;
    }
  }

  /** The type written for a segment end: the stop's type, or "intermediaire". */
  function Label(s: Option<TourStop>): string {
    if s.Some? then StopTypeName(s.value.kind) else Intermediaire
  }

  /** The `step` written for `seg`: its ends, their labels, and the departure
      and arrival times of the stops at its ends, each written only when the
      stop exists, its label is not "intermediaire" and the time is set. */
  function StepOf(stops: seq<TourStop>, seg: RoadSegment): StepElem {
    var start := FirstStop(stops, seg.startId);
    var stop := FirstStop(stops, seg.endId);
    StepElem(seg.startId, seg.endId, Label(start), Label(stop),
             if start.Some? && !EqualsIgnoreCase(Intermediaire, Label(start)) && start.value.departure.Some?
             then start.value.departure else None,
             if stop.Some? && !EqualsIgnoreCase(Intermediaire, Label(stop)) && stop.value.arrival.Some?
             then stop.value.arrival else None)
  }

  /** One step per segment taken, in order. */
  function Steps(stops: seq<TourStop>, segs: seq<RoadSegment>): (r: seq<StepElem>)
    ensures |r| == |segs| && forall i :: 0 <= i < |segs| ==> r[i] == StepOf(stops, segs[i])
  {
    seq(|segs|, i requires 0 <= i < |segs| => StepOf(stops, segs[i]))
  }

  /** No stop type's name is "intermediaire", in any case: the name test of
      the writer never suppresses a time. */
  lemma NoTypeIsIntermediaire(t: StopType)
    ensures !EqualsIgnoreCase(Intermediaire, StopTypeName(t))
  {
    assert |Lower(Intermediaire)| != |Lower(StopTypeName(t))|;
  }

  /** What a step says about where its segment starts: whether the tour
      stops there, and if so that stop's type and departure time. */
  lemma StepStartMeaning(stops: seq<TourStop>, seg: RoadSegment, i: int)
    ensures StepOf(stops, seg).origine == seg.startId
    ensures StepOf(stops, seg).typeStart == Intermediaire <==>
            forall k :: 0 <= k < |stops| ==> stops[k].intersectionId != seg.startId
    ensures FirstStopAt(stops, seg.startId, i) ==>
            StepOf(stops, seg).typeStart == StopTypeName(stops[i].kind) &&
            StepOf(stops, seg).departureTime == stops[i].departure
  {
    var start := FirstStop(stops, seg.startId);
    if start.Some? {
      NoTypeIsIntermediaire(start.value.kind);
      assert StopTypeName(start.value.kind) != Intermediaire;
      if FirstStopAt(stops, seg.startId, i) {
        FirstStopIndex(stops, seg.startId, i, start);
      }
    }
  }

  /** What a step says about where its segment ends: whether the tour stops
      there, and if so that stop's type and arrival time. */
  lemma StepFinishMeaning(stops: seq<TourStop>, seg: RoadSegment, j: int)
    ensures StepOf(stops, seg).destination == seg.endId
    ensures StepOf(stops, seg).typeFinish == Intermediaire <==>
            forall k :: 0 <= k < |stops| ==> stops[k].intersectionId != seg.endId
    ensures FirstStopAt(stops, seg.endId, j) ==>
            StepOf(stops, seg).typeFinish == StopTypeName(stops[j].kind) &&
            StepOf(stops, seg).arrivalTime == stops[j].arrival
  {
    var stop := FirstStop(stops, seg.endId);
    if stop.Some? {
      NoTypeIsIntermediaire(stop.value.kind);
      assert StopTypeName(stop.value.kind) != Intermediaire;
      if FirstStopAt(stops, seg.endId, j) {
        FirstStopIndex(stops, seg.endId, j, stop);
      }
    }
  }

  /** The first stop at an intersection is the one at its first index. */
  lemma FirstStopIndex(stops: seq<TourStop>, id: int, i: int, r: Option<TourStop>)
    requires FirstStopAt(stops, id, i) && r == FirstStop(stops, id)
    ensures r == Some(stops[i])
  {
    var j :| FirstStopAt(stops, id, j) && stops[j] == r.value;
    assert i == j;
  }

  /** `Duration.toMinutes`: whole minutes, truncated toward zero. */
  function Minutes(seconds: int): (m: int)
    ensures 0 <= seconds ==> 0 <= m && 60 * m <= seconds < 60 * m + 60
    ensures seconds < 0 ==> m <= 0 && 60 * m - 60 < seconds <= 60 * m
  {
    if seconds >= 0 then seconds / 60 else -((-seconds) / 60)
  }

  /** Writes the tour: the root attributes, then one step per segment taken.
      A tour without a start time makes the writer fail. */
  method WriteTour(tour: Tour) returns (doc: Option<TourDoc>)
    ensures doc.None? <==> tour.startTime.None?
    ensures doc.Some? ==>
            doc.value == TourDoc(tour.courierId, tour.startTime.value, tour.totalDistance,
                                 Minutes(tour.totalDuration), Steps(tour.stops, tour.roadSegmentsTaken))
  {
    if tour.startTime.None? {
      return None;
    }
    var segs := tour.roadSegmentsTaken;
    var steps: seq<StepElem> := [];
    for k := 0 to |segs|
      invariant |steps| == k && forall j :: 0 <= j < k ==> steps[j] == StepOf(tour.stops, segs[j])
    {
      var seg := segs[k];
      var start := tour.GetStopByIntersectionId(seg.startId);
      FirstStopIs(tour.stops, seg.startId, start);
      var typeStart := if start.Some? then StopTypeName(start.value.kind) else Intermediaire;
      var stop := tour.GetStopByIntersectionId(seg.endId);
      FirstStopIs(tour.stops, seg.endId, stop);
      var typeFinish := if stop.Some? then StopTypeName(stop.value.kind) else Intermediaire;
      var departureTime := None;
      if start.Some? && !EqualsIgnoreCase(Intermediaire, typeStart) && start.value.departure.Some? {
        departureTime := start.value.departure;
      }
      var arrivalTime := None;
      if stop.Some? && !EqualsIgnoreCase(Intermediaire, typeFinish) && stop.value.arrival.Some? {
        arrivalTime := stop.value.arrival;
      }
      steps := steps + [StepElem(seg.startId, seg.endId, typeStart, typeFinish, departureTime, arrivalTime)];
    }
    doc := Some(TourDoc(tour.courierId, tour.startTime.value, tour.totalDistance,
                        Minutes(tour.totalDuration), steps));
  }

  // ---------------------------------------------------------------------
  // writeRequests

  /** A `request` element: its two addresses and its two durations, in
      seconds, before they are printed. */
  datatype RequestOut = RequestOut(pickupAddress: int, deliveryAddress: int,
                                   pickupDuration: int, deliveryDuration: int)

  /** The `planningRequest` document: the depot, then the requests. */
  datatype RequestsOut = RequestsOut(depotAddress: int, departureTime: string, requests: seq<RequestOut>)

  /** The departure time written for the depot, whatever the plan says. */
  const DepotDeparture: string := "8:0:0"

  function Written(r: Request): RequestOut {
    RequestOut(r.pickupId, r.deliveryId, r.pickupDuration, r.deliveryDuration)
  }

  predicate Increasing(ids: seq<int>) {
    forall i, j :: 0 <= i < j < |ids| ==> ids[i] < ids[j]
  }

  /** Writes the depot, then every stored request once, in ascending id
      order (the order of the sorted request map); `ids` is that order. */
  method WriteRequests(pd: PickupDelivery) returns (out: RequestsOut, ghost ids: seq<int>)
    ensures out.depotAddress == pd.warehouseAdressId && out.departureTime == DepotDeparture
    ensures Increasing(ids) && forall k :: k in ids <==> k in pd.requests
    ensures |out.requests| == |ids| &&
            forall i :: 0 <= i < |ids| ==> ids[i] in pd.requests && out.requests[i] == Written(pd.requests[ids[i]])
  {
    var requests := pd.requests;
    var remaining := requests.Keys;
    var written: seq<RequestOut> := [];
    ids := [];
    while remaining != {}
      invariant remaining <= requests.Keys
      invariant forall k :: k in ids <==> k in requests && k !in remaining
      invariant Increasing(ids)
      invariant forall i, k :: 0 <= i < |ids| && k in remaining ==> ids[i] < k
      invariant |written| == |ids| &&
                forall i :: 0 <= i < |ids| ==> ids[i] in requests && written[i] == Written(requests[ids[i]])
      decreases |remaining|
    {
      MinExists(remaining);
      var least :| least in remaining && forall j :: j in remaining ==> least <= j;
      written := written + [Written(requests[least])];
      ids := ids + [least];
      remaining := remaining - {least};
    }
    out := RequestsOut(pd.warehouseAdressId, DepotDeparture, written);
  }

  /** How a duration attribute is printed. `String.valueOf(Duration)` gives
      ISO-8601 text such as "PT3M", which `Long.parseLong` rejects; the form
      the request reader accepts is the whole number of seconds. */
  datatype DurationFormat = Iso8601 | Seconds

  /** The attribute the request reader gets from a printed duration. */
  function DurationField(format: DurationFormat, seconds: int): Field<int> {
    match format
    case Iso8601 => Garbled
    case Seconds => Value(seconds)
  }

  /** The request file the parser sees when it reads back what was written:
      the ids print as text `Long.parseLong` accepts, the durations as
      `format` prints them. */
  function ReadBack(out: RequestsOut, format: DurationFormat): RequestsFile {
    RequestsDoc(Some(Value(out.depotAddress)),
                seq(|out.requests|, i requires 0 <= i < |out.requests| =>
                      RequestElem(Value(out.requests[i].pickupAddress), Value(out.requests[i].deliveryAddress),
                                  DurationField(format, out.requests[i].pickupDuration),
                                  DurationField(format, out.requests[i].deliveryDuration))))
  }

  /** As written, a request file written with at least one request reads
      back with its depot but without any request: the first duration
      attribute makes the reader throw. */
  lemma IsoDurationsNotReadBack(out: RequestsOut, clock: seq<int>)
    requires 1 <= |out.requests| <= |clock|
    ensures WarehouseOf(ReadBack(out, Iso8601)) == out.depotAddress
    ensures Loaded(ReadBack(out, Iso8601), clock) == []
  {
    var elems := ReadBack(out, Iso8601).requests;
    assert Broken(elems[0]);
    assert Accepted(elems, Unbroken) == [];
  }

  /** With durations printed in seconds, reading a written request file back
      restores the depot and every request, in the order written; only the
      ids are new, taken from the clock. */
  lemma RequestsRoundTrip(out: RequestsOut, clock: seq<int>)
    requires |out.requests| <= |clock|
    ensures WarehouseOf(ReadBack(out, Seconds)) == out.depotAddress
    ensures |Loaded(ReadBack(out, Seconds), clock)| == |out.requests|
    ensures forall i :: 0 <= i < |out.requests| ==>
              Written(Loaded(ReadBack(out, Seconds), clock)[i]) == out.requests[i] &&
              Loaded(ReadBack(out, Seconds), clock)[i].id == clock[i]
  {
    var file := ReadBack(out, Seconds);
    var elems := file.requests;
    assert forall k :: 0 <= k < |elems| ==> Complete(elems[k]) && !Broken(elems[k]);
    AcceptedIsRead(elems, Unbroken, elems);
    RequestsOfComplete(elems, clock);
    var loaded := Loaded(file, clock);
    assert loaded == Requests(elems, clock);
    forall i | 0 <= i < |out.requests|
      ensures Written(loaded[i]) == out.requests[i] && loaded[i].id == clock[i]
    {
      assert loaded[i] == ToRequest(elems[i], clock[i]);
    }
  }
}
