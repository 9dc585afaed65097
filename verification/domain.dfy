/** Plain records of the domain package, shared by every other module:
    intersections, road segments, requests, tour stops, and the cost type
    with an explicit "infinite" value. */
module Domain {

  datatype Option<+T> = None | Some(value: T)

  /** A cost, a distance or a duration as the solver sees it. `Inf` stands
      for the `Double.MAX_VALUE` sentinel ("no arc", "no solution yet");
      IEEE rounding is not modelled, so `Inf` absorbs every addition. */
  datatype Ext = Fin(v: real) | Inf {

    function Plus(o: Ext): Ext {
      if Fin? && o.Fin? then Fin(v + o.v) else Inf
    }

    /** Strict order: `this < o`. */
    predicate Below(o: Ext) {
      Fin? && (o.Inf? || v < o.v)
    }

    /** Non-strict order: `this <= o`. */
    predicate AtMost(o: Ext) {
      o.Inf? || (Fin? && v <= o.v)
    }
  }

  /** `Integer.MAX_VALUE`, which the source also uses as a cost sentinel. */
  const IntMax: int := 2147483647
  const IntMin: int := -2147483648

  /** Intersection: id and position (Intersection.java). */
  datatype Intersection = Intersection(id: int, lat: real, lng: real)

  /** RoadSegment: name, length in metres, directed from startId to endId (RoadSegment.java). */
  datatype RoadSegment = RoadSegment(name: string, length: real, startId: int, endId: int)

  /** Request: a pickup and a delivery intersection with their service
      durations, in seconds (Request.java). */
  datatype Request = Request(id: int, pickupId: int, pickupDuration: int,
                             deliveryId: int, deliveryDuration: int)

  /** StopType.java. */
  datatype StopType = Pickup | Delivery | Intermediate | Warehouse

  /** The Java enum constant's name, as `toString` writes it. */
  function StopTypeName(t: StopType): string {
    match t
    case Pickup => "PICKUP"
    case Delivery => "DELIVERY"
    case Intermediate => "INTERMEDIATE"
    case Warehouse => "WAREHOUSE"
  }

  /** TourStop.java; arrival and departure are nullable timestamps. */
  datatype TourStop = TourStop(kind: StopType, requestId: int, intersectionId: int,
                               arrival: Option<int>, departure: Option<int>)

  /** The field-by-field content of a tour, as it is serialised. */
  datatype TourData = TourData(courierId: int, stops: seq<TourStop>,
                               segments: seq<RoadSegment>, totalDistance: real,
                               totalDuration: int)

  lemma AtMostTrans(a: Ext, b: Ext, c: Ext)
    requires a.AtMost(b) && b.AtMost(c)
    ensures a.AtMost(c)
  {
  }

  lemma PlusNonNeg(a: Ext, b: Ext)
    requires b.Inf? || b.v >= 0.0
    ensures a.AtMost(a.Plus(b))
  {
  }

  lemma PlusAssoc(a: Ext, b: Ext, c: Ext)
    ensures a.Plus(b).Plus(c) == a.Plus(b.Plus(c))
  {
  }
}

/** Sequence and set helpers with the Java collection semantics the source relies on. */
module Collections {

  /** `List.remove(Object)`: drops the first occurrence of `x`, if any. */
  function RemoveFirst<T(==)>(s: seq<T>, x: T): (r: seq<T>)
    ensures x in s ==> |r| == |s| - 1
    ensures x !in s ==> r == s
    ensures multiset(r) == multiset(s) - multiset{x}
  {
    if s == [] then []
    else if s[0] == x then
      assert s == [s[0]] + s[1..];
      s[1..]
    else
      assert s == [s[0]] + s[1..];
      [s[0]] + RemoveFirst(s[1..], x)
  }

  /** Removing the last element again after appending an element that was absent. */
  lemma RemoveFirstAppended<T>(s: seq<T>, x: T)
    requires x !in s
    ensures RemoveFirst(s + [x], x) == s
  {
    if s != [] {
      assert (s + [x])[1..] == s[1..] + [x];
      RemoveFirstAppended(s[1..], x);
    }
  }

  predicate Distinct<T(==)>(s: seq<T>) {
    forall i, j :: 0 <= i < j < |s| ==> s[i] != s[j]
  }

  /** Lets a such-that statement pick an element of a non-empty set of ids. */
  lemma NonEmptyHasInt(s: set<int>)
    requires s != {}
    ensures exists x: int :: x in s
  {
    if forall x: int :: x !in s {
      assert false;
    }
  }

  /** Every non-empty finite set of integers has a least element. */
  lemma {:induction false} MinExists(s: set<int>)
    requires s != {}
    ensures exists k :: k in s && forall j :: j in s ==> k <= j
  {
    if forall x :: x !in s {
      assert false;
    }
    var y :| y in s;
    var rest := s - {y};
    if rest == {} {
      assert s == {y};
    } else {
      MinExists(rest);
      var m :| m in rest && forall j :: j in rest ==> m <= j;
      var k := if y < m then y else m;
      forall j | j in s
        ensures k <= j
      {
        if j != y {
          assert j in rest;
        }
      }
    }
  }

  /** `[0, 1, ..., n-1]`. */
  function Iota(n: nat): (r: seq<int>)
    ensures |r| == n && forall i :: 0 <= i < n ==> r[i] == i
  {
    seq(n, i => i)
  }
}

/** Case folding and substring search, the parts of `String` the source uses. */
module Text {

  /** `Character.toLowerCase` on the capitals of French text: the ASCII
      letters, the Latin-1 letters from U+00C0 to U+00DE except the
      multiplication sign U+00D7, and the capitals U+0152 (the ligature OE) and
      U+0178 (Y with diaeresis) from Latin Extended-A. Every other character is left as it is. */
  function LowerChar(c: char): char {
    if 'A' <= c <= 'Z' then (c as int + 32) as char
    else if '\U{00C0}' <= c <= '\U{00DE}' && c != '\U{00D7}' then (c as int + 32) as char
    else if c == '\U{0152}' then '\U{0153}'
    else if c == '\U{0178}' then '\U{00FF}'
    else c
  }

  /** `String.toLowerCase`, with the folding of `LowerChar`. */
  function Lower(s: string): (r: string)
    ensures |r| == |s| && forall i :: 0 <= i < |s| ==> r[i] == LowerChar(s[i])
  {
    if s == [] then [] else [LowerChar(s[0])] + Lower(s[1..])
  }

  /** `needle` occurs in `haystack` starting at index `i`. */
  predicate OccursAt(haystack: string, needle: string, i: int) {
    0 <= i <= |haystack| - |needle| && haystack[i..i + |needle|] == needle
  }

  /** `haystack.contains(needle)`. */
  predicate Contains(haystack: string, needle: string) {
    exists i :: 0 <= i <= |haystack| - |needle| && OccursAt(haystack, needle, i)
  }

  /** `a.equalsIgnoreCase(b)`, with the folding of `LowerChar`. */
  predicate EqualsIgnoreCase(a: string, b: string) {
    Lower(a) == Lower(b)
  }
}
