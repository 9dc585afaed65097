/** A courier's tour: its stops, the road segments it drives along and the
    running totals of distance and duration (domain/model/Tour.java). */
module Tours {
  import opened Domain

  /** The summed length of `segs`, in metres. */
  function SumLengths(segs: seq<RoadSegment>): real {
    if segs == [] then 0.0 else SumLengths(segs[..|segs| - 1]) + segs[|segs| - 1].length
  }

  /** Driving two stretches one after the other covers the sum of their lengths. */
  lemma {:induction false} SumLengthsAppend(a: seq<RoadSegment>, b: seq<RoadSegment>)
    ensures SumLengths(a + b) == SumLengths(a) + SumLengths(b)
  {
    if b != [] {
      var init := b[..|b| - 1];
      assert (a + b)[..|a + b| - 1] == a + init;
      SumLengthsAppend(a, init);
    } else {
      assert a + b == a;
    }
  }

  /** Road lengths are never negative, and neither is their sum. */
  lemma {:induction false} SumLengthsNonNeg(segs: seq<RoadSegment>)
    requires forall i :: 0 <= i < |segs| ==> segs[i].length >= 0.0
    ensures SumLengths(segs) >= 0.0
  {
    if segs != [] {
      SumLengthsNonNeg(segs[..|segs| - 1]);
    }
  }

  /** `stops[i]` is the first stop of `stops` at intersection `id`. */
  predicate FirstStopAt(stops: seq<TourStop>, id: int, i: int) {
    0 <= i < |stops| && stops[i].intersectionId == id &&
    forall j :: 0 <= j < i ==> stops[j].intersectionId != id
  }

  class Tour {
    const courierId: int
    var stops: seq<TourStop>
    var roadSegmentsTaken: seq<RoadSegment>
    var totalDistance: real
    var startTime: Option<int>
    /** In seconds. */
    var totalDuration: int

    /** The distance counter agrees with the segments taken. It holds as long
        as the distance is only changed through `AddRoadSegment`. */
    ghost predicate DistanceConsistent()
      reads this
    {
      totalDistance == SumLengths(roadSegmentsTaken)
    }

    constructor (courierId: int, startTime: Option<int>)
      ensures this.courierId == courierId && this.startTime == startTime
      ensures stops == [] && roadSegmentsTaken == []
      ensures totalDistance == 0.0 && totalDuration == 0
      ensures DistanceConsistent()
    {
      this.courierId := courierId;
      this.startTime := startTime;
      stops := [];
      roadSegmentsTaken := [];
      totalDistance := 0.0;
      totalDuration := 0;
    }

    method AddStop(stop: TourStop)
      modifies this
      ensures stops == old(stops) + [stop]
      ensures roadSegmentsTaken == old(roadSegmentsTaken) && totalDistance == old(totalDistance)
      ensures startTime == old(startTime) && totalDuration == old(totalDuration)
    {
      stops := stops + [stop];
    }

    /** Records `seg` as driven and adds its length to the distance. */
    method AddRoadSegment(seg: RoadSegment)
      modifies this
      ensures roadSegmentsTaken == old(roadSegmentsTaken) + [seg]
      ensures totalDistance == old(totalDistance) + seg.length
      ensures stops == old(stops) && startTime == old(startTime) && totalDuration == old(totalDuration)
      ensures old(DistanceConsistent()) ==> DistanceConsistent()
    {
      roadSegmentsTaken := roadSegmentsTaken + [seg];
      UpdateTotalDistance(seg.length);
    }

    method UpdateTotalDistance(distance: real)
      modifies this
      ensures totalDistance == old(totalDistance) + distance
      ensures stops == old(stops) && roadSegmentsTaken == old(roadSegmentsTaken)
      ensures startTime == old(startTime) && totalDuration == old(totalDuration)
    {
      totalDistance := totalDistance + distance;
    }

    method UpdateTotalDuration(duration: int)
      modifies this
      ensures totalDuration == old(totalDuration) + duration
      ensures stops == old(stops) && roadSegmentsTaken == old(roadSegmentsTaken)
      ensures startTime == old(startTime) && totalDistance == old(totalDistance)
    {
      totalDuration := totalDuration + duration;
    }

    /** The first stop at intersection `id`, or none. */
    method GetStopByIntersectionId(id: int) returns (r: Option<TourStop>)
      ensures r.None? <==> forall s :: s in stops ==> s.intersectionId != id
      ensures r.Some? ==> exists i :: FirstStopAt(stops, id, i) && stops[i] == r.value
    {
      var i := 0;
      while i < |stops|
        invariant 0 <= i <= |stops|
        invariant forall j :: 0 <= j < i ==> stops[j].intersectionId != id
      {
        if stops[i].intersectionId == id {
          assert FirstStopAt(stops, id, i);
          return Some(stops[i]);
        }
        i := i + 1;
      }
      return None;
    }

    /** The tour's content as a value, as it is serialised. */
    function Data(): (d: TourData)
      reads this
      ensures d.courierId == courierId && d.stops == stops && d.segments == roadSegmentsTaken
      ensures d.totalDistance == totalDistance && d.totalDuration == totalDuration
    {
      TourData(courierId, stops, roadSegmentsTaken, totalDistance, totalDuration)
    }
  }
}
