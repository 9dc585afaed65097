/** The data preparation of the home page (react-app/app/routes/home.tsx):
    the map and tour data received from the server are turned into the
    markers, polylines and bounds the map component draws. The HTTP calls,
    the asynchronous flow and the React state are not modelled: the received
    JSON is a parameter and the computed values are results. */
module HomeView {
  import opened Domain

  /** An intersection as received; `id` is `None` when the field is undefined. */
  datatype ApiIntersection = ApiIntersection(id: Option<int>, lat: real, lng: real)

  /** A road segment as received: only its ends are used. */
  datatype ApiRoadSegment = ApiRoadSegment(startId: int, endId: int)

  /** One entry of the adjacency record: `parseInt` of its key (`None` for
      NaN) and its segments. */
  datatype AdjacencyEntry = AdjacencyEntry(startKey: Option<int>, segments: seq<ApiRoadSegment>)

  /** A tour as received. */
  datatype ApiTour = ApiTour(courierId: int, stops: seq<TourStop>, roadSegmentsTaken: seq<ApiRoadSegment>,
                             totalDistance: real, totalDuration: int)

  /** A latitude and longitude pair. */
  datatype LatLng = LatLng(lat: real, lng: real)

  /** A polyline of two points, from the start to the end of a segment. */
  datatype Polyline = Polyline(from: LatLng, to: LatLng)

  /** A marker of the map component. */
  datatype MapIntersection = MapIntersection(id: int, position: LatLng)

  /** A tour with its segments replaced by their polylines. */
  datatype ViewTour = ViewTour(courierId: int, stops: seq<TourStop>, roadSegmentsTaken: seq<Polyline>,
                               totalDistance: real, totalDuration: int)

  /** `[[minLat, minLng], [maxLat, maxLng]]`. */
  datatype Bounds = Bounds(minLat: real, minLng: real, maxLat: real, maxLng: real)

  // ---------------------------------------------------------------------
  // The intersection map

  /** The loop keeps an entry when it is present and its id is defined. */
  predicate Keeps(e: Option<ApiIntersection>) {
    e.Some? && e.value.id.Some?
  }

  /** `intersectionMap` after `set` for each kept entry in order: a later
      entry with the same id replaces the value. */
  function IdTable(entries: seq<Option<ApiIntersection>>): map<int, ApiIntersection> {
    if entries == [] then map[]
    else
      var t := IdTable(entries[..|entries| - 1]);
      var e := entries[|entries| - 1];
      if Keeps(e) then t[e.value.id.value := e.value] else t
  }

  /** The key order of `intersectionMap`: a JavaScript `Map` keeps the order
      in which keys were first set. */
  function KeyOrder(entries: seq<Option<ApiIntersection>>): seq<int> {
    if entries == [] then []
    else
      var order := KeyOrder(entries[..|entries| - 1]);
      var e := entries[|entries| - 1];
      if Keeps(e) && e.value.id.value !in order then order + [e.value.id.value] else order
  }

  /** `entries[i]` is the last kept entry with id `id`. */
  predicate LastKeptWithId(entries: seq<Option<ApiIntersection>>, id: int, i: int) {
    0 <= i < |entries| && Keeps(entries[i]) && entries[i].value.id.value == id &&
    forall j :: i < j < |entries| ==> !(Keeps(entries[j]) && entries[j].value.id.value == id)
  }

  /** The map knows exactly the defined ids, each with the last entry carrying
      it; its key order lists each of them once. */
  lemma {:induction false} IdTableLastWins(entries: seq<Option<ApiIntersection>>, id: int)
    ensures id in IdTable(entries) <==>
            exists i :: 0 <= i < |entries| && Keeps(entries[i]) && entries[i].value.id.value == id
    ensures id in IdTable(entries) ==>
            exists i :: LastKeptWithId(entries, id, i) && IdTable(entries)[id] == entries[i].value
    ensures id in KeyOrder(entries) <==> id in IdTable(entries)
  {
    if entries != [] {
      var n := |entries| - 1;
      var init := entries[..n];
      IdTableLastWins(init, id);
      forall i | 0 <= i < n
        ensures entries[i] == init[i]
      {
      }
      if Keeps(entries[n]) && entries[n].value.id.value == id {
        assert LastKeptWithId(entries, id, n);
      } else if id in IdTable(init) {
        var i :| LastKeptWithId(init, id, i) && IdTable(init)[id] == init[i].value;
        assert LastKeptWithId(entries, id, i);
      }
    }
  }

  predicate NoDuplicates(s: seq<int>) {
    forall i, j :: 0 <= i < j < |s| ==> s[i] != s[j]
  }

  /** The key order never repeats an id. */
  lemma {:induction false} KeyOrderDistinct(entries: seq<Option<ApiIntersection>>)
    ensures NoDuplicates(KeyOrder(entries))
  {
    if entries != [] {
      KeyOrderDistinct(entries[..|entries| - 1]);
    }
  }

  /** The loop of lines 74-80: fills the map, skipping absent entries and
      undefined ids. */
  method BuildIntersectionMap(entries: seq<Option<ApiIntersection>>)
    returns (order: seq<int>, table: map<int, ApiIntersection>)
    ensures order == KeyOrder(entries) && table == IdTable(entries)
  {
    order := [];
    table := map[];
    for i := 0 to |entries|
      invariant order == KeyOrder(entries[..i]) && table == IdTable(entries[..i])
    {
      assert entries[..i + 1][..i] == entries[..i];
      var intersection := entries[i];
      if intersection.Some? && intersection.value.id.Some? {
        var id := intersection.value.id.value;
        if id !in order {
          order := order + [id];
        }
        table := table[id := intersection.value];
      }
    }
    assert entries[..|entries|] == entries;
  }

  /** `Array.from(intersectionMap.values()).map(...)`: one marker per id, in
      key order, at the position of the value kept for it. */
  function Markers(order: seq<int>, table: map<int, ApiIntersection>): (ms: seq<MapIntersection>)
    requires forall i :: 0 <= i < |order| ==> order[i] in table
    ensures |ms| == |order|
    ensures forall i :: 0 <= i < |order| ==>
              ms[i] == MapIntersection(order[i], LatLng(table[order[i]].lat, table[order[i]].lng))
  {
    seq(|order|, i requires 0 <= i < |order| =>
          MapIntersection(order[i], LatLng(table[order[i]].lat, table[order[i]].lng)))
  }

  /** Every kept entry's id gets exactly one marker, at the position of the
      last entry with that id. */
  lemma MarkersOfEntries(entries: seq<Option<ApiIntersection>>, id: int)
    ensures forall i :: 0 <= i < |KeyOrder(entries)| ==> KeyOrder(entries)[i] in IdTable(entries)
    ensures (exists i :: 0 <= i < |entries| && Keeps(entries[i]) && entries[i].value.id.value == id) ==>
            exists i, m :: LastKeptWithId(entries, id, i) && 0 <= m < |KeyOrder(entries)| &&
                           Markers(KeyOrder(entries), IdTable(entries))[m] ==
                           MapIntersection(id, LatLng(entries[i].value.lat, entries[i].value.lng))
  {
    forall i | 0 <= i < |KeyOrder(entries)|
      ensures KeyOrder(entries)[i] in IdTable(entries)
    {
      IdTableLastWins(entries, KeyOrder(entries)[i]);
    }
    IdTableLastWins(entries, id);
    if id in IdTable(entries) {
      var i :| LastKeptWithId(entries, id, i) && IdTable(entries)[id] == entries[i].value;
      var m :| 0 <= m < |KeyOrder(entries)| && KeyOrder(entries)[m] == id;
      assert Markers(KeyOrder(entries), IdTable(entries))[m] ==
             MapIntersection(id, LatLng(entries[i].value.lat, entries[i].value.lng));
    }
  }

  // ---------------------------------------------------------------------
  // Road polylines

  /** The polylines drawn for the segments of one adjacency entry, whose
      start resolved to `start`: those whose end resolves, in order. */
  function EntryLines(table: map<int, ApiIntersection>, start: ApiIntersection, segs: seq<ApiRoadSegment>): seq<Polyline> {
    if segs == [] then []
    else
      var seg := segs[|segs| - 1];
      EntryLines(table, start, segs[..|segs| - 1]) +
      (if seg.endId in table
       then [Polyline(LatLng(start.lat, start.lng), LatLng(table[seg.endId].lat, table[seg.endId].lng))]
       else [])
  }

  /** The start of an adjacency entry, looked up by its parsed key. */
  function StartOf(table: map<int, ApiIntersection>, e: AdjacencyEntry): Option<ApiIntersection> {
    if e.startKey.Some? && e.startKey.value in table then Some(table[e.startKey.value]) else None
  }

  /** The polylines of lines 90-110, entry by entry; an entry whose key does
      not resolve contributes nothing. */
  function RoadLines(table: map<int, ApiIntersection>, adj: seq<AdjacencyEntry>): seq<Polyline> {
    if adj == [] then []
    else
      var e := adj[|adj| - 1];
      RoadLines(table, adj[..|adj| - 1]) +
      (match StartOf(table, e) case None => [] case Some(start) => EntryLines(table, start, e.segments))
  }

  /** The number of segments of an entry whose end resolves. */
  function ResolvedEnds(table: map<int, ApiIntersection>, segs: seq<ApiRoadSegment>): nat {
    if segs == [] then 0
    else ResolvedEnds(table, segs[..|segs| - 1]) + (if segs[|segs| - 1].endId in table then 1 else 0)
  }

  /** The number of segments whose start key and end both resolve. */
  function Resolvable(table: map<int, ApiIntersection>, adj: seq<AdjacencyEntry>): nat {
    if adj == [] then 0
    else
      var e := adj[|adj| - 1];
      Resolvable(table, adj[..|adj| - 1]) + (if StartOf(table, e).Some? then ResolvedEnds(table, e.segments) else 0)
  }

  /** The position of a known intersection. */
  predicate KnownPoint(table: map<int, ApiIntersection>, p: LatLng) {
    exists k :: k in table && p == LatLng(table[k].lat, table[k].lng)
  }

  /** Within an entry: one polyline per segment whose end resolves, each
      ending at a known intersection. */
  lemma {:induction false} EntryLinesFacts(table: map<int, ApiIntersection>, start: ApiIntersection, segs: seq<ApiRoadSegment>)
    ensures |EntryLines(table, start, segs)| == ResolvedEnds(table, segs)
    ensures forall l :: l in EntryLines(table, start, segs) ==>
              l.from == LatLng(start.lat, start.lng) && KnownPoint(table, l.to)
  {
    if segs != [] {
      var seg := segs[|segs| - 1];
      EntryLinesFacts(table, start, segs[..|segs| - 1]);
      if seg.endId in table {
        assert KnownPoint(table, LatLng(table[seg.endId].lat, table[seg.endId].lng));
      }
    }
  }

  /** Exactly one polyline per resolvable segment, and both ends of every
      polyline are known intersections. */
  lemma {:induction false} RoadLinesFacts(table: map<int, ApiIntersection>, adj: seq<AdjacencyEntry>)
    ensures |RoadLines(table, adj)| == Resolvable(table, adj)
    ensures forall l :: l in RoadLines(table, adj) ==> KnownPoint(table, l.from) && KnownPoint(table, l.to)
  {
    if adj != [] {
      var e := adj[|adj| - 1];
      RoadLinesFacts(table, adj[..|adj| - 1]);
      var start := StartOf(table, e);
      if start.Some? {
        EntryLinesFacts(table, start.value, e.segments);
        var k := e.startKey.value;
        assert k in table && LatLng(start.value.lat, start.value.lng) == LatLng(table[k].lat, table[k].lng);
      }
    }
  }

  /** The loop of lines 90-110: for each adjacency entry whose key resolves,
      one polyline per segment whose end resolves. */
  method BuildRoadLines(table: map<int, ApiIntersection>, adj: seq<AdjacencyEntry>) returns (lines: seq<Polyline>)
    ensures lines == RoadLines(table, adj)
  {
    lines := [];
    for i := 0 to |adj|
      invariant lines == RoadLines(table, adj[..i])
    {
      assert adj[..i + 1][..i] == adj[..i];
      var segments := adj[i].segments;
      var start := StartOf(table, adj[i]);
      if start.Some? {
        ghost var before := lines;
        for j := 0 to |segments|
          invariant lines == before + EntryLines(table, start.value, segments[..j])
        {
          assert segments[..j + 1][..j] == segments[..j];
          var seg := segments[j];
          if seg.endId in table {
            var end := table[seg.endId];
            lines := lines + [Polyline(LatLng(start.value.lat, start.value.lng), LatLng(end.lat, end.lng))];
          }
        }
        assert segments[..|segments|] == segments;
      }
    }
    assert adj[..|adj|] == adj;
  }

  // ---------------------------------------------------------------------
  // Bounds

  function Lats(ms: seq<MapIntersection>): (r: seq<real>)
    ensures |r| == |ms| && forall i :: 0 <= i < |ms| ==> r[i] == ms[i].position.lat
  {
    seq(|ms|, i requires 0 <= i < |ms| => ms[i].position.lat)
  }

  function Lngs(ms: seq<MapIntersection>): (r: seq<real>)
    ensures |r| == |ms| && forall i :: 0 <= i < |ms| ==> r[i] == ms[i].position.lng
  {
    seq(|ms|, i requires 0 <= i < |ms| => ms[i].position.lng)
  }

  /** `Math.min(...xs)` on a non-empty list. */
  function Min(xs: seq<real>): (m: real)
    requires |xs| > 0
    ensures (forall i :: 0 <= i < |xs| ==> m <= xs[i]) && exists i :: 0 <= i < |xs| && m == xs[i]
  {
    if |xs| == 1 then xs[0]
    else
      var rest := Min(xs[..|xs| - 1]);
      var last := xs[|xs| - 1];
      if last < rest then last else rest
  }

  /** `Math.max(...xs)` on a non-empty list. */
  function Max(xs: seq<real>): (m: real)
    requires |xs| > 0
    ensures (forall i :: 0 <= i < |xs| ==> xs[i] <= m) && exists i :: 0 <= i < |xs| && m == xs[i]
  {
    if |xs| == 1 then xs[0]
    else
      var rest := Max(xs[..|xs| - 1]);
      var last := xs[|xs| - 1];
      if last > rest then last else rest
  }

  /** The bounds of lines 112-120, set only when there is a marker. */
  function BoundsOf(ms: seq<MapIntersection>): (b: Option<Bounds>)
    ensures b.Some? <==> |ms| > 0
    ensures b.Some? ==> forall i :: 0 <= i < |ms| ==>
              b.value.minLat <= ms[i].position.lat <= b.value.maxLat &&
              b.value.minLng <= ms[i].position.lng <= b.value.maxLng
    ensures b.Some? ==> (exists i :: 0 <= i < |ms| && b.value.minLat == ms[i].position.lat) &&
                        (exists i :: 0 <= i < |ms| && b.value.maxLat == ms[i].position.lat) &&
                        (exists i :: 0 <= i < |ms| && b.value.minLng == ms[i].position.lng) &&
                        (exists i :: 0 <= i < |ms| && b.value.maxLng == ms[i].position.lng)
  {
    if |ms| == 0 then None
    else Some(Bounds(Min(Lats(ms)), Min(Lngs(ms)), Max(Lats(ms)), Max(Lngs(ms))))
  }

  /** Line 178: the map is drawn only when bounds were set. */
  predicate ShowsMap(b: Option<Bounds>) {
    b.Some?
  }

  /** When both fetches succeed, the map is drawn exactly when some
      received intersection has a defined id. */
  lemma ShowsMapIff(entries: seq<Option<ApiIntersection>>)
    ensures forall i :: 0 <= i < |KeyOrder(entries)| ==> KeyOrder(entries)[i] in IdTable(entries)
    ensures ShowsMap(BoundsOf(Markers(KeyOrder(entries), IdTable(entries)))) <==>
            exists i :: 0 <= i < |entries| && Keeps(entries[i])
  {
    forall i | 0 <= i < |KeyOrder(entries)|
      ensures KeyOrder(entries)[i] in IdTable(entries)
    {
      IdTableLastWins(entries, KeyOrder(entries)[i]);
    }
    if i :| 0 <= i < |entries| && Keeps(entries[i]) {
      IdTableLastWins(entries, entries[i].value.id.value);
    } else if |KeyOrder(entries)| > 0 {
      IdTableLastWins(entries, KeyOrder(entries)[0]);
    }
  }

  // ---------------------------------------------------------------------
  // Tour projection

  /** The polyline of a tour segment, when both of its ends resolve. */
  function SegmentLine(table: map<int, ApiIntersection>, seg: ApiRoadSegment): Option<Polyline> {
    if seg.startId in table && seg.endId in table then
      Some(Polyline(LatLng(table[seg.startId].lat, table[seg.startId].lng),
                    LatLng(table[seg.endId].lat, table[seg.endId].lng)))
    else None
  }

  /** `map` then `filter(s !== null)`: the polylines of the resolvable
      segments, in order. */
  function TourLines(table: map<int, ApiIntersection>, segs: seq<ApiRoadSegment>): seq<Polyline> {
    if segs == [] then []
    else
      var line := SegmentLine(table, segs[|segs| - 1]);
      TourLines(table, segs[..|segs| - 1]) + (if line.Some? then [line.value] else [])
  }

  /** A tour segment is drawn exactly when both of its ends resolve, from
      its start to its end. */
  lemma {:induction false} TourLinesIff(table: map<int, ApiIntersection>, segs: seq<ApiRoadSegment>, l: Polyline)
    ensures l in TourLines(table, segs) <==>
            exists i :: 0 <= i < |segs| && SegmentLine(table, segs[i]) == Some(l)
  {
    if segs != [] {
      var n := |segs| - 1;
      TourLinesIff(table, segs[..n], l);
      forall i | 0 <= i < n
        ensures segs[..n][i] == segs[i]
      {
      }
    }
  }

  /** When every segment resolves, every one is drawn, in order. */
  lemma {:induction false} TourLinesAllResolved(table: map<int, ApiIntersection>, segs: seq<ApiRoadSegment>)
    requires forall i :: 0 <= i < |segs| ==> segs[i].startId in table && segs[i].endId in table
    ensures |TourLines(table, segs)| == |segs|
    ensures forall i :: 0 <= i < |segs| ==> Some(TourLines(table, segs)[i]) == SegmentLine(table, segs[i])
  {
    if segs != [] {
      TourLinesAllResolved(table, segs[..|segs| - 1]);
    }
  }

  /** Lines 133-150: a tour keeps its fields, its segments become polylines. */
  function ProjectTour(table: map<int, ApiIntersection>, t: ApiTour): (v: ViewTour)
    ensures v.courierId == t.courierId && v.stops == t.stops
    ensures v.totalDistance == t.totalDistance && v.totalDuration == t.totalDuration
    ensures |v.roadSegmentsTaken| <= |t.roadSegmentsTaken|
  {
    TourLinesShorter(table, t.roadSegmentsTaken);
    ViewTour(t.courierId, t.stops, TourLines(table, t.roadSegmentsTaken), t.totalDistance, t.totalDuration)
  }

  /** Filtering never adds polylines. */
  lemma {:induction false} TourLinesShorter(table: map<int, ApiIntersection>, segs: seq<ApiRoadSegment>)
    ensures |TourLines(table, segs)| <= |segs|
  {
    if segs != [] {
      TourLinesShorter(table, segs[..|segs| - 1]);
    }
  }

  /** One projected tour per received tour, in order. */
  function ProjectTours(table: map<int, ApiIntersection>, tours: seq<ApiTour>): (vs: seq<ViewTour>)
    ensures |vs| == |tours| && forall i :: 0 <= i < |tours| ==> vs[i] == ProjectTour(table, tours[i])
  {
    seq(|tours|, i requires 0 <= i < |tours| => ProjectTour(table, tours[i]))
  }
}
