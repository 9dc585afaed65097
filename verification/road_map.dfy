/** The city map: intersections keyed by id and, for each intersection, the
    road segments that leave it (domain/model/Map.java). */
module RoadMaps {
  import opened Domain
  import opened Collections
  import Text

  /** The segments recorded as leaving `start`, empty when there are none. */
  function SegmentsFrom(adj: map<int, seq<RoadSegment>>, start: int): seq<RoadSegment> {
    if start in adj then adj[start] else []
  }

  /** `segs[i]` is the first segment of `segs` that ends at `endId`. */
  predicate FirstEndingAt(segs: seq<RoadSegment>, endId: int, i: int) {
    0 <= i < |segs| && segs[i].endId == endId &&
    forall j :: 0 <= j < i ==> segs[j].endId != endId
  }

  /** The name search keeps `seg` for the already lower-cased `needle`. */
  predicate NameMatches(seg: RoadSegment, needle: string) {
    Text.Contains(Text.Lower(seg.name), needle)
  }

  /** The segments of `segs` whose name matches, in their order. */
  function MatchingIn(segs: seq<RoadSegment>, needle: string): seq<RoadSegment> {
    if segs == [] then []
    else
      MatchingIn(segs[..|segs| - 1], needle) +
      (if NameMatches(segs[|segs| - 1], needle) then [segs[|segs| - 1]] else [])
  }

  /** The matching segments of every list, visiting the start ids in `order`. */
  function MatchingAlong(adj: map<int, seq<RoadSegment>>, order: seq<int>, needle: string): seq<RoadSegment>
    requires forall k :: k in order ==> k in adj
  {
    if order == [] then []
    else
      var last := order[|order| - 1];
      assert last in order;
      MatchingAlong(adj, order[..|order| - 1], needle) + MatchingIn(adj[last], needle)
  }

  lemma {:induction false} MatchingInIff(segs: seq<RoadSegment>, needle: string, seg: RoadSegment)
    ensures seg in MatchingIn(segs, needle) <==> seg in segs && NameMatches(seg, needle)
  {
    if segs != [] {
      var init := segs[..|segs| - 1];
      assert segs == init + [segs[|segs| - 1]];
      MatchingInIff(init, needle, seg);
    }
  }

  /** The search result holds exactly the matching segments of the visited lists. */
  lemma {:induction false} MatchingAlongIff(adj: map<int, seq<RoadSegment>>, order: seq<int>,
                                            needle: string, seg: RoadSegment)
    requires forall k :: k in order ==> k in adj
    ensures seg in MatchingAlong(adj, order, needle) <==>
            exists k :: k in order && seg in adj[k] && NameMatches(seg, needle)
  {
    if order != [] {
      var init := order[..|order| - 1];
      var last := order[|order| - 1];
      assert order == init + [last];
      MatchingAlongIff(adj, init, needle, seg);
      MatchingInIff(adj[last], needle, seg);
    }
  }

  class RoadMap {
    var intersections: map<int, Intersection>
    var adjacencyList: map<int, seq<RoadSegment>>

    /** Each intersection is stored under its own id, and each recorded
        segment leaves the intersection it is filed under and joins two
        known intersections. */
    ghost predicate Valid()
      reads this
    {
      (forall id :: id in intersections ==> intersections[id].id == id) &&
      (forall s :: s in adjacencyList ==>
         s in intersections && |adjacencyList[s]| > 0 &&
         forall seg :: seg in adjacencyList[s] ==> seg.startId == s && seg.endId in intersections)
    }

    constructor ()
      ensures intersections == map[] && adjacencyList == map[]
      ensures Valid()
    {
      intersections := map[];
      adjacencyList := map[];
    }

    /** Adds `i` unless an intersection with the same id is already known. */
    method AddIntersection(i: Intersection) returns (added: bool)
      requires Valid()
      modifies this
      ensures Valid()
      ensures added <==> i.id !in old(intersections)
      ensures intersections == if added then old(intersections)[i.id := i] else old(intersections)
      ensures adjacencyList == old(adjacencyList)
    {
      if i.id in intersections {
        return false;
      }
      intersections := intersections[i.id := i];
      return true;
    }

    /** Appends `seg` to the segments leaving `startId`, provided both ends are
        known and the segment really starts there. */
    method AddRoadSegment(startId: int, seg: RoadSegment) returns (added: bool)
      requires Valid()
      modifies this
      ensures Valid()
      ensures added <==> startId in old(intersections) && seg.startId == startId &&
                         seg.endId in old(intersections)
      ensures adjacencyList ==
              if added then old(adjacencyList)[startId := SegmentsFrom(old(adjacencyList), startId) + [seg]]
              else old(adjacencyList)
      ensures intersections == old(intersections)
    {
      if startId !in intersections {
        return false;
      }
      if seg.startId != startId {
        return false;
      }
      if seg.endId !in intersections {
        return false;
      }
      var segments := SegmentsFrom(adjacencyList, startId) + [seg];
      adjacencyList := adjacencyList[startId := segments];
      return true;
    }

    /** The first segment leaving `startId` that ends at `endId`, if any. */
    method GetRoadSegment(startId: int, endId: int) returns (r: Option<RoadSegment>)
      ensures r.None? <==> forall seg :: seg in SegmentsFrom(adjacencyList, startId) ==> seg.endId != endId
      ensures r.Some? ==> exists i :: FirstEndingAt(SegmentsFrom(adjacencyList, startId), endId, i) &&
                                      SegmentsFrom(adjacencyList, startId)[i] == r.value
      ensures Valid() && r.Some? ==> r.value.startId == startId && r.value.endId == endId
    {
      var segments := SegmentsFrom(adjacencyList, startId);
      var i := 0;
      while i < |segments|
        invariant 0 <= i <= |segments|
        invariant forall j :: 0 <= j < i ==> segments[j].endId != endId
      {
        if segments[i].endId == endId {
          assert FirstEndingAt(segments, endId, i);
          return Some(segments[i]);
        }
        i := i + 1;
      }
      return None;
    }

    /** All segments whose lower-cased name contains the lower-cased `name`.
        The lists are visited in the hash map's iteration order, which the
        source leaves unspecified: `order` is that enumeration of the start ids. */
    method GetRoadSegmentByName(name: Option<string>) returns (found: seq<RoadSegment>, ghost order: seq<int>)
      ensures name.None? ==> found == []
      ensures name.Some? ==> Distinct(order) && (forall k :: k in order <==> k in adjacencyList)
      ensures name.Some? ==> found == MatchingAlong(adjacencyList, order, Text.Lower(name.value))
    {
      found := [];
      order := [];
      if name.None? {
        return;
      }
      var needle := Text.Lower(name.value);
      var keys := adjacencyList.Keys;
      while keys != {}
        invariant keys <= adjacencyList.Keys
        invariant forall k :: k in order <==> k in adjacencyList && k !in keys
        invariant Distinct(order)
        invariant found == MatchingAlong(adjacencyList, order, needle)
        decreases keys
      {
        NonEmptyHasInt(keys);
        var k :| k in keys;
        var segments := adjacencyList[k];
        ghost var before := found;
        var i := 0;
        while i < |segments|
          invariant 0 <= i <= |segments|
          invariant found == before + MatchingIn(segments[..i], needle)
        {
          assert segments[..i + 1][..i] == segments[..i];
          if NameMatches(segments[i], needle) {
            found := found + [segments[i]];
          }
          i := i + 1;
        }
        assert segments[..i] == segments;
        assert (order + [k])[..|order|] == order;
        order := order + [k];
        keys := keys - {k};
      }
    }
  }

  /** Every segment the name search returns matches, and every matching
      segment of the map is returned. */
  lemma NameSearchComplete(adj: map<int, seq<RoadSegment>>, order: seq<int>, needle: string, seg: RoadSegment)
    requires forall k :: k in order <==> k in adj
    ensures seg in MatchingAlong(adj, order, needle) <==>
            NameMatches(seg, needle) && exists k :: k in adj && seg in adj[k]
  {
    MatchingAlongIff(adj, order, needle, seg);
  }
}
