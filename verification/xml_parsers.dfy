/** Reading the request, map and tour files into domain objects
    (persistence/XMLParsers.java). The XML library is not modelled: a file
    reaches the model as the list of its elements, in document order, with
    each attribute already converted by `Long.parseLong`, `Double.parseDouble`
    and friends, or marked as text the conversion rejects. A rejected
    attribute raises an exception that the parser catches around the whole
    file, so everything read before it is kept and nothing after it. */
module XmlParsers {
  import opened Domain
  import opened PickupDeliveries
  import opened RoadMaps
  import ApiServices

  // ---------------------------------------------------------------------
  // Reading a list of elements up to the first one that throws

  /** The converted elements of `s` before the first one `conv` rejects. */
  function Accepted<T, U>(s: seq<T>, conv: T -> Option<U>): (r: seq<U>)
    ensures |r| <= |s|
    ensures forall i :: 0 <= i < |r| ==> conv(s[i]) == Some(r[i])
    ensures |r| < |s| ==> conv(s[|r|]).None?
  {
    if s == [] then []
    else match conv(s[0])
      case None => []
      case Some(u) => [u] + Accepted(s[1..], conv)
  }

  /** The converted elements when every element converts: a nested list is
      read completely or, by the exception, not at all. */
  function ConvertAll<T, U>(s: seq<T>, conv: T -> Option<U>): (r: Option<seq<U>>)
    ensures r.Some? <==> forall i :: 0 <= i < |s| ==> conv(s[i]).Some?
    ensures r.Some? ==> |r.value| == |s| && forall i :: 0 <= i < |s| ==> conv(s[i]) == Some(r.value[i])
  {
    var a := Accepted(s, conv);
    if |a| == |s| then Some(a) else None
  }

  /** Converts the elements one by one, as the inner loops of `parseTours` do. */
  method ConvertEach<T, U>(s: seq<T>, conv: T -> Option<U>) returns (r: Option<seq<U>>)
    ensures r == ConvertAll(s, conv)
  {
    var out: seq<U> := [];
    var j := 0;
    while j < |s|
      invariant 0 <= j <= |s|
      invariant |out| == j && forall k :: 0 <= k < j ==> conv(s[k]) == Some(out[k])
    {
      var u := conv(s[j]);
      if u.None? {
        AcceptedIsRead(s, conv, out);
        return None;
      }
      out := out + [u.value];
      j := j + 1;
    }
    AcceptedIsRead(s, conv, out);
    return Some(out);
  }

  /** A keyed store filled in list order with `put`: a later element replaces
      an earlier one with the same key. */
  function Index<T>(s: seq<T>, key: T -> int): map<int, T> {
    if s == [] then map[] else Index(s[..|s| - 1], key)[key(s[|s| - 1]) := s[|s| - 1]]
  }

  /** Storing one more element overwrites its key. */
  lemma IndexSnoc<T>(s: seq<T>, key: T -> int, x: T)
    ensures Index(s + [x], key) == Index(s, key)[key(x) := x]
  {
    assert (s + [x])[..|s|] == s;
  }

  /** `s[i]` is the last element of `s` whose key is `k`. */
  predicate LastWithKey<T>(s: seq<T>, key: T -> int, k: int, i: int) {
    0 <= i < |s| && key(s[i]) == k && forall j :: i < j < |s| ==> key(s[j]) != k
  }

  /** The store knows exactly the keys of the list, and under each key it
      holds the last element carrying it. */
  lemma {:induction false} IndexLastWins<T>(s: seq<T>, key: T -> int, k: int)
    ensures k in Index(s, key) <==> exists i :: 0 <= i < |s| && key(s[i]) == k
    ensures k in Index(s, key) ==> exists i :: LastWithKey(s, key, k, i) && Index(s, key)[k] == s[i]
  {
    if s != [] {
      var init := s[..|s| - 1];
      IndexLastWins(init, key, k);
      if key(s[|s| - 1]) == k {
        assert LastWithKey(s, key, k, |s| - 1);
      } else if k in Index(init, key) {
        var i :| LastWithKey(init, key, k, i) && Index(init, key)[k] == init[i];
        assert LastWithKey(s, key, k, i);
      }
      forall i | 0 <= i < |s| - 1
        ensures s[i] == init[i]
      {
      }
    }
  }

  // ---------------------------------------------------------------------
  // parseRequests

  /** An attribute of a request file: missing or empty, a number
      `Long.parseLong` accepts, or text it rejects. */
  datatype Field<T> = Blank | Value(v: T) | Garbled

  datatype RequestElem = RequestElem(pickupAddress: Field<int>, deliveryAddress: Field<int>,
                                     pickupDuration: Field<int>, deliveryDuration: Field<int>)

  /** A request file: absent, not well-formed XML, or its optional depot
      address and its request elements. */
  datatype RequestsFile =
    | NotFound
    | Unreadable
    | RequestsDoc(depot: Option<Field<int>>, requests: seq<RequestElem>)

  /** A request with a missing attribute is skipped with a warning. */
  predicate Skipped(e: RequestElem) {
    e.pickupAddress.Blank? || e.deliveryAddress.Blank? ||
    e.pickupDuration.Blank? || e.deliveryDuration.Blank?
  }

  /** A request that is not skipped but holds text that is not a number makes
      the parser throw. */
  predicate Broken(e: RequestElem) {
    !Skipped(e) &&
    (e.pickupAddress.Garbled? || e.deliveryAddress.Garbled? ||
     e.pickupDuration.Garbled? || e.deliveryDuration.Garbled?)
  }

  /** The elements the parser gets past without throwing. */
  function Unbroken(e: RequestElem): (r: Option<RequestElem>)
    ensures r.Some? <==> !Broken(e)
    ensures r.Some? ==> r.value == e
  {
    if Broken(e) then None else Some(e)
  }

  /** Every attribute holds a number. */
  predicate Complete(e: RequestElem) {
    e.pickupAddress.Value? && e.deliveryAddress.Value? &&
    e.pickupDuration.Value? && e.deliveryDuration.Value?
  }

  /** The three cases are exclusive and cover every element. */
  lemma RequestCases(e: RequestElem)
    ensures Complete(e) <==> !Skipped(e) && !Broken(e)
    ensures !(Skipped(e) && Broken(e))
  {
  }

  /** The request an element describes, its id read from the clock. */
  function ToRequest(e: RequestElem, id: int): (r: Request)
    requires Complete(e)
    ensures r.id == id && r.pickupId == e.pickupAddress.v && r.deliveryId == e.deliveryAddress.v
    ensures r.pickupDuration == e.pickupDuration.v && r.deliveryDuration == e.deliveryDuration.v
  {
    Request(id, e.pickupAddress.v, e.pickupDuration.v, e.deliveryAddress.v, e.deliveryDuration.v)
  }

  /** The requests built from the complete elements of `elems`, in order;
      element `i` gets the id `clock[i]`. */
  function Requests(elems: seq<RequestElem>, clock: seq<int>): seq<Request>
    requires |elems| <= |clock|
  {
    if elems == [] then []
    else
      var i := |elems| - 1;
      Requests(elems[..i], clock) + (if Complete(elems[i]) then [ToRequest(elems[i], clock[i])] else [])
  }

  /** A request is built exactly for each complete element. */
  lemma {:induction false} RequestsIff(elems: seq<RequestElem>, clock: seq<int>, r: Request)
    requires |elems| <= |clock|
    ensures r in Requests(elems, clock) <==>
            exists i :: 0 <= i < |elems| && Complete(elems[i]) && r == ToRequest(elems[i], clock[i])
  {
    if elems != [] {
      var n := |elems| - 1;
      RequestsIff(elems[..n], clock, r);
      forall i | 0 <= i < n
        ensures elems[..n][i] == elems[i]
      {
      }
    }
  }

  /** When every element is complete, each yields its request, in order. */
  lemma {:induction false} RequestsOfComplete(elems: seq<RequestElem>, clock: seq<int>)
    requires |elems| <= |clock| && forall k :: 0 <= k < |elems| ==> Complete(elems[k])
    ensures |Requests(elems, clock)| == |elems|
    ensures forall k :: 0 <= k < |elems| ==> Requests(elems, clock)[k] == ToRequest(elems[k], clock[k])
  {
    if elems != [] {
      var n := |elems| - 1;
      RequestsOfComplete(elems[..n], clock);
    }
  }

  /** The requests the parser adds: none when the file is missing, unreadable
      or its depot address is not a number; otherwise those of the complete
      elements before the first broken one. */
  function Loaded(file: RequestsFile, clock: seq<int>): seq<Request>
    requires file.RequestsDoc? ==> |file.requests| <= |clock|
  {
    if !file.RequestsDoc? || file.depot == Some(Garbled) then []
    else Requests(Accepted(file.requests, Unbroken), clock)
  }

  /** The warehouse set from the depot address, or the initial -1. */
  function WarehouseOf(file: RequestsFile): int {
    if file.RequestsDoc? && file.depot.Some? && file.depot.value.Value? then file.depot.value.v else -1
  }

  /** The ids of `reqs`, in order. */
  function IdsOf(reqs: seq<Request>): (ids: seq<int>)
    ensures |ids| == |reqs| && forall i :: 0 <= i < |reqs| ==> ids[i] == reqs[i].id
  {
    if reqs == [] then [] else IdsOf(reqs[..|reqs| - 1]) + [reqs[|reqs| - 1].id]
  }

  function RequestKey(r: Request): int {
    r.id
  }

  /** Every loaded request goes to the default courier 1. */
  function PerCourier(reqs: seq<Request>): map<int, seq<int>> {
    if reqs == [] then map[] else map[1 := IdsOf(reqs)]
  }

  /** What the parser loads: a request is kept exactly when its element is
      complete and comes before the first broken element, and the file and
      its depot address could be read. */
  lemma LoadedIff(file: RequestsFile, clock: seq<int>, r: Request)
    requires file.RequestsDoc? ==> |file.requests| <= |clock|
    ensures r in Loaded(file, clock) <==>
            file.RequestsDoc? && file.depot != Some(Garbled) &&
            exists i :: 0 <= i < |Accepted(file.requests, Unbroken)| &&
                        Complete(file.requests[i]) && r == ToRequest(file.requests[i], clock[i])
  {
    if file.RequestsDoc? && file.depot != Some(Garbled) {
      var a := Accepted(file.requests, Unbroken);
      RequestsIff(a, clock, r);
      forall i | 0 <= i < |a|
        ensures a[i] == file.requests[i]
      {
        assert Unbroken(file.requests[i]) == Some(a[i]);
      }
    }
  }

  /** Two requests read within the same millisecond get the same id: the
      store keeps the later one, while the courier's list holds the id twice. */
  lemma SameClockOverwrites(a: Request, b: Request)
    requires a.id == b.id && a != b
    ensures Index([a, b], RequestKey) == map[a.id := b]
    ensures PerCourier([a, b])[1] == [a.id, a.id]
  {
    assert [a, b][..1] == [a];
    assert [a][..0] == [];
    assert Index([a], RequestKey) == map[a.id := a];
  }

  method ParseRequests(file: RequestsFile, clock: seq<int>) returns (pd: PickupDelivery)
    requires file.RequestsDoc? ==> |file.requests| <= |clock|
    ensures fresh(pd) && pd.Valid()
    ensures pd.warehouseAdressId == WarehouseOf(file)
    ensures pd.requests == Index(Loaded(file, clock), RequestKey)
    ensures pd.requestsPerCourier == PerCourier(Loaded(file, clock))
  {
    pd := new PickupDelivery();
    if !file.RequestsDoc? {
      return;
    }
    match file.depot {
      case None =>
      case Some(Blank) =>
      case Some(Garbled) =>
        return;
      case Some(Value(address)) =>
        pd.SetWarehouseAdressId(address);
    }
    LoadRequests(pd, file.requests, clock);
  }

  /** The request loop of `parseRequests`, from an empty store: it skips the
      incomplete elements and stops at the first broken one. */
  method LoadRequests(pd: PickupDelivery, elems: seq<RequestElem>, clock: seq<int>)
    requires |elems| <= |clock|
    requires pd.Valid() && pd.requests == map[] && pd.requestsPerCourier == map[]
    modifies pd
    ensures pd.Valid() && pd.warehouseAdressId == old(pd.warehouseAdressId)
    ensures pd.requests == Index(Requests(Accepted(elems, Unbroken), clock), RequestKey)
    ensures pd.requestsPerCourier == PerCourier(Requests(Accepted(elems, Unbroken), clock))
  {
    ghost var acc: seq<Request> := [];
    var i := 0;
    while i < |elems|
      invariant 0 <= i <= |Accepted(elems, Unbroken)|
      invariant acc == Requests(elems[..i], clock)
      invariant pd.Valid() && pd.warehouseAdressId == old(pd.warehouseAdressId)
      invariant pd.requests == Index(acc, RequestKey) && pd.requestsPerCourier == PerCourier(acc)
    {
      RequestsStep(elems, clock, i);
      var e := elems[i];
      if Skipped(e) {
        i := i + 1;
        continue;
      }
      if e.pickupAddress.Garbled? || e.deliveryAddress.Garbled? ||
         e.pickupDuration.Garbled? || e.deliveryDuration.Garbled? {
        AcceptedStopsAt(elems, i);
        return;
      }
      var request := Request(clock[i], e.pickupAddress.v, e.pickupDuration.v,
                             e.deliveryAddress.v, e.deliveryDuration.v);
      var _ := pd.AddRequestToCourier(1, request);
      StoreStep(acc, request);
      acc := acc + [request];
      i := i + 1;
    }
    AcceptedStopsAt(elems, i);
    assert elems[..i] == elems;
  }

  /** One more element read: it contributes its request if it is complete,
      and the scan gets past it unless it is broken. */
  lemma RequestsStep(elems: seq<RequestElem>, clock: seq<int>, i: int)
    requires |elems| <= |clock| && 0 <= i <= |Accepted(elems, Unbroken)| && i < |elems|
    ensures Requests(elems[..i + 1], clock) ==
            Requests(elems[..i], clock) + (if Complete(elems[i]) then [ToRequest(elems[i], clock[i])] else [])
    ensures !Broken(elems[i]) ==> i + 1 <= |Accepted(elems, Unbroken)|
  {
    assert elems[..i + 1][..i] == elems[..i];
  }

  /** Adding one more request to the courier-1 store. */
  lemma StoreStep(acc: seq<Request>, r: Request)
    ensures Index(acc + [r], RequestKey) == Index(acc, RequestKey)[r.id := r]
    ensures PerCourier(acc + [r]) == PerCourier(acc)[1 := ListOf(PerCourier(acc), 1) + [r.id]]
  {
    IndexSnoc(acc, RequestKey, r);
    assert (acc + [r])[..|acc|] == acc;
  }

  /** When the scan throws at element `i`, or ends there, the elements read
      so far are the accepted ones. */
  lemma AcceptedStopsAt(elems: seq<RequestElem>, i: int)
    requires 0 <= i <= |Accepted(elems, Unbroken)|
    requires i == |elems| || Broken(elems[i])
    ensures Accepted(elems, Unbroken) == elems[..i]
  {
    var a := Accepted(elems, Unbroken);
    forall k | 0 <= k < |a|
      ensures a[k] == elems[k]
    {
      assert Unbroken(elems[k]) == Some(a[k]);
    }
  }

  // ---------------------------------------------------------------------
  // parseMap

  /** A `noeud` element; `None` is an attribute the number parser rejects
      (an empty attribute included). */
  datatype NodeElem = NodeElem(id: Option<int>, latitude: Option<real>, longitude: Option<real>)

  /** A `troncon` element; the street name is taken as written. */
  datatype SegmentElem = SegmentElem(origine: Option<int>, destination: Option<int>,
                                     longueur: Option<real>, nomRue: string)

  datatype MapFile = MapUnreadable | MapDoc(nodes: seq<NodeElem>, segments: seq<SegmentElem>)

  function ToIntersection(n: NodeElem): (r: Option<Intersection>)
    ensures r.Some? <==> n.id.Some? && n.latitude.Some? && n.longitude.Some?
    ensures r.Some? ==> r.value == Intersection(n.id.value, n.latitude.value, n.longitude.value)
  {
    if n.id.Some? && n.latitude.Some? && n.longitude.Some? then
      Some(Intersection(n.id.value, n.latitude.value, n.longitude.value))
    else None
  }

  /** The segment of a `troncon` element: it starts at its origin. */
  function ToSegment(e: SegmentElem): (r: Option<RoadSegment>)
    ensures r.Some? <==> e.origine.Some? && e.destination.Some? && e.longueur.Some?
    ensures r.Some? ==> r.value == RoadSegment(e.nomRue, e.longueur.value, e.origine.value, e.destination.value)
  {
    if e.origine.Some? && e.destination.Some? && e.longueur.Some? then
      Some(RoadSegment(e.nomRue, e.longueur.value, e.origine.value, e.destination.value))
    else None
  }

  /** The intersections stored by adding `nodes` in order: the first one with
      a given id stays. */
  function Table(nodes: seq<Intersection>): map<int, Intersection> {
    if nodes == [] then map[]
    else
      var t := Table(nodes[..|nodes| - 1]);
      var n := nodes[|nodes| - 1];
      if n.id in t then t else t[n.id := n]
  }

  /** `nodes[i]` is the first node of `nodes` with id `id`. */
  predicate FirstWithId(nodes: seq<Intersection>, id: int, i: int) {
    0 <= i < |nodes| && nodes[i].id == id && forall j :: 0 <= j < i ==> nodes[j].id != id
  }

  /** Every id of the file is known, under it the first node that carries it. */
  lemma {:induction false} TableFirstWins(nodes: seq<Intersection>, id: int)
    ensures id in Table(nodes) <==> exists i :: 0 <= i < |nodes| && nodes[i].id == id
    ensures id in Table(nodes) ==> exists i :: FirstWithId(nodes, id, i) && Table(nodes)[id] == nodes[i]
  {
    if nodes != [] {
      var n := |nodes| - 1;
      var init := nodes[..n];
      TableFirstWins(init, id);
      forall i | 0 <= i < n
        ensures nodes[i] == init[i]
      {
      }
      if id in Table(init) {
        var i :| FirstWithId(init, id, i) && Table(init)[id] == init[i];
        assert FirstWithId(nodes, id, i);
      } else if nodes[n].id == id {
        assert FirstWithId(nodes, id, n);
      }
    }
  }

  /** The adjacency lists built by adding `segs` in order to a map whose
      intersections are `table`, as `Map.addRoadSegment` does. */
  function Links(table: map<int, Intersection>, segs: seq<RoadSegment>): map<int, seq<RoadSegment>> {
    if segs == [] then map[]
    else
      var adj := Links(table, segs[..|segs| - 1]);
      var seg := segs[|segs| - 1];
      if seg.startId in table && seg.endId in table then
        adj[seg.startId := SegmentsFrom(adj, seg.startId) + [seg]]
      else adj
  }

  /** The reference: the segments of `segs` leaving `s`, in file order, when
      both of their ends are known intersections. */
  function Leaving(table: map<int, Intersection>, segs: seq<RoadSegment>, s: int): seq<RoadSegment> {
    if segs == [] then []
    else
      var seg := segs[|segs| - 1];
      Leaving(table, segs[..|segs| - 1], s) +
      (if seg.startId == s && s in table && seg.endId in table then [seg] else [])
  }

  /** The adjacency list of each intersection is exactly its reference list,
      and only intersections with a segment get a list. */
  lemma {:induction false} LinksAreLeaving(table: map<int, Intersection>, segs: seq<RoadSegment>, s: int)
    ensures SegmentsFrom(Links(table, segs), s) == Leaving(table, segs, s)
    ensures s in Links(table, segs) <==> Leaving(table, segs, s) != []
  {
    if segs != [] {
      LinksAreLeaving(table, segs[..|segs| - 1], s);
    }
  }

  /** A segment is recorded under `s` exactly when it is in the file, leaves
      `s`, and both of its ends are known. */
  lemma {:induction false} LeavingIff(table: map<int, Intersection>, segs: seq<RoadSegment>, s: int, seg: RoadSegment)
    ensures seg in Leaving(table, segs, s) <==> seg in segs && seg.startId == s && s in table && seg.endId in table
  {
    if segs != [] {
      var init := segs[..|segs| - 1];
      LeavingIff(table, init, s, seg);
      assert segs == init + [segs[|segs| - 1]];
    }
  }

  /** The intersections the parser stores. */
  function LoadedTable(file: MapFile): map<int, Intersection> {
    if file.MapUnreadable? then map[] else Table(Accepted(file.nodes, ToIntersection))
  }

  /** The segments the parser stores: none unless every node was read. */
  function LoadedLinks(file: MapFile): map<int, seq<RoadSegment>> {
    if file.MapUnreadable? || |Accepted(file.nodes, ToIntersection)| < |file.nodes| then map[]
    else Links(LoadedTable(file), Accepted(file.segments, ToSegment))
  }

  method ParseMap(file: MapFile) returns (m: RoadMap)
    ensures fresh(m) && m.Valid()
    ensures m.intersections == LoadedTable(file)
    ensures m.adjacencyList == LoadedLinks(file)
  {
    m := new RoadMap();
    if file.MapUnreadable? {
      return;
    }
    var complete := LoadNodes(m, file.nodes);
    if !complete {
      return;
    }
    LoadSegments(m, file.segments);
  }

  /** The `noeud` loop: adds the intersections in order until one does not
      parse, and reports whether all of them did. */
  method LoadNodes(m: RoadMap, nodes: seq<NodeElem>) returns (complete: bool)
    requires m.Valid() && m.intersections == map[] && m.adjacencyList == map[]
    modifies m
    ensures m.Valid() && m.intersections == Table(Accepted(nodes, ToIntersection)) && m.adjacencyList == map[]
    ensures complete <==> |Accepted(nodes, ToIntersection)| == |nodes|
  {
    ghost var read: seq<Intersection> := [];
    var i := 0;
    while i < |nodes|
      invariant 0 <= i <= |nodes|
      invariant |read| == i && forall k :: 0 <= k < i ==> ToIntersection(nodes[k]) == Some(read[k])
      invariant m.Valid() && m.intersections == Table(read) && m.adjacencyList == map[]
    {
      var intersection := ToIntersection(nodes[i]);
      if intersection.None? {
        AcceptedIsRead(nodes, ToIntersection, read);
        return false;
      }
      var _ := m.AddIntersection(intersection.value);
      assert (read + [intersection.value])[..i] == read;
      read := read + [intersection.value];
      i := i + 1;
    }
    AcceptedIsRead(nodes, ToIntersection, read);
    return true;
  }

  /** The `troncon` loop: files the segments in order until one does not
      parse; the intersections stay as they are. */
  method LoadSegments(m: RoadMap, segments: seq<SegmentElem>)
    requires m.Valid() && m.adjacencyList == map[]
    modifies m
    ensures m.Valid() && m.intersections == old(m.intersections)
    ensures m.adjacencyList == Links(m.intersections, Accepted(segments, ToSegment))
  {
    ghost var read: seq<RoadSegment> := [];
    var i := 0;
    while i < |segments|
      invariant 0 <= i <= |segments|
      invariant |read| == i && forall k :: 0 <= k < i ==> ToSegment(segments[k]) == Some(read[k])
      invariant m.Valid() && m.intersections == old(m.intersections)
      invariant m.adjacencyList == Links(m.intersections, read)
    {
      var segment := ToSegment(segments[i]);
      if segment.None? {
        AcceptedIsRead(segments, ToSegment, read);
        return;
      }
      var _ := m.AddRoadSegment(segment.value.startId, segment.value);
      assert (read + [segment.value])[..i] == read;
      read := read + [segment.value];
      i := i + 1;
    }
    AcceptedIsRead(segments, ToSegment, read);
  }

  /** The elements read one by one up to the end or to the first rejected
      one are the accepted ones. */
  lemma AcceptedIsRead<T, U>(s: seq<T>, conv: T -> Option<U>, read: seq<U>)
    requires |read| <= |s|
    requires forall k :: 0 <= k < |read| ==> conv(s[k]) == Some(read[k])
    requires |read| < |s| ==> conv(s[|read|]).None?
    ensures Accepted(s, conv) == read
  {
    var a := Accepted(s, conv);
    assert |a| == |read|;
    forall k | 0 <= k < |a|
      ensures a[k] == read[k]
    {
      assert Some(a[k]) == Some(read[k]);
    }
  }

  // ---------------------------------------------------------------------
  // parseTours

  /** `StopType.valueOf`: the constant with exactly that name. */
  function ParseStopType(name: string): Option<StopType> {
    if name == "PICKUP" then Some(Pickup)
    else if name == "DELIVERY" then Some(Delivery)
    else if name == "INTERMEDIATE" then Some(Intermediate)
    else if name == "WAREHOUSE" then Some(Warehouse)
    else None
  }

  /** `valueOf` accepts exactly the names the enum writes. */
  lemma ParseStopTypeIff(name: string, t: StopType)
    ensures ParseStopType(name) == Some(t) <==> name == StopTypeName(t)
  {
  }

  /** A `stop` element; times are the epoch milliseconds of the parsed local
      date-time, `None` when it does not parse. */
  datatype StopElem = StopElem(kind: string, requestId: Option<int>, intersectionId: Option<int>,
                               arrivalTime: Option<int>, departureTime: Option<int>)

  /** A `segment` element of a tour. */
  datatype SegElem = SegElem(name: string, length: Option<real>, startId: Option<int>, endId: Option<int>)

  /** A `tour` element; the totals are `None` when their element is missing
      or its text does not parse; the duration is in milliseconds. */
  datatype TourElem = TourElem(courierId: Option<int>, stops: seq<StopElem>, segments: seq<SegElem>,
                               totalDistance: Option<real>, totalDuration: Option<int>)

  datatype ToursFile = ToursUnreadable | ToursDoc(tours: seq<TourElem>)

  function ToStop(e: StopElem): (r: Option<TourStop>)
    ensures r.Some? <==> ParseStopType(e.kind).Some? && e.requestId.Some? && e.intersectionId.Some? &&
                         e.arrivalTime.Some? && e.departureTime.Some?
    ensures r.Some? ==> r.value.kind == ParseStopType(e.kind).value && r.value.requestId == e.requestId.value &&
                        r.value.intersectionId == e.intersectionId.value &&
                        r.value.arrival == e.arrivalTime && r.value.departure == e.departureTime
  {
    var kind := ParseStopType(e.kind);
    if kind.Some? && e.requestId.Some? && e.intersectionId.Some? && e.arrivalTime.Some? && e.departureTime.Some? then
      Some(TourStop(kind.value, e.requestId.value, e.intersectionId.value, e.arrivalTime, e.departureTime))
    else None
  }

  function ToRoadSegment(e: SegElem): (r: Option<RoadSegment>)
    ensures r.Some? <==> e.length.Some? && e.startId.Some? && e.endId.Some?
    ensures r.Some? ==> r.value == RoadSegment(e.name, e.length.value, e.startId.value, e.endId.value)
  {
    if e.length.Some? && e.startId.Some? && e.endId.Some? then
      Some(RoadSegment(e.name, e.length.value, e.startId.value, e.endId.value))
    else None
  }

  /** The tour a `tour` element describes: every part must parse; the
      distance is cast to `long`, dropping its fraction. */
  function ParseTour(e: TourElem): (r: Option<TourData>)
    ensures r.Some? <==> e.courierId.Some? && ConvertAll(e.stops, ToStop).Some? &&
                         ConvertAll(e.segments, ToRoadSegment).Some? &&
                         e.totalDistance.Some? && e.totalDuration.Some?
    ensures r.Some? ==> r.value.courierId == e.courierId.value &&
                        r.value.stops == ConvertAll(e.stops, ToStop).value &&
                        r.value.segments == ConvertAll(e.segments, ToRoadSegment).value &&
                        r.value.totalDuration == e.totalDuration.value
    ensures r.Some? ==> r.value.totalDistance == ApiServices.Narrow(e.totalDistance.value, ApiServices.LongMin, ApiServices.LongMax) as real
  {
    var stops := ConvertAll(e.stops, ToStop);
    var segments := ConvertAll(e.segments, ToRoadSegment);
    if e.courierId.Some? && stops.Some? && segments.Some? && e.totalDistance.Some? && e.totalDuration.Some? then
      Some(TourData(e.courierId.value, stops.value, segments.value,
                    ApiServices.Narrow(e.totalDistance.value, ApiServices.LongMin, ApiServices.LongMax) as real,
                    e.totalDuration.value))
    else None
  }

  function CourierKey(t: TourData): int {
    t.courierId
  }

  /** The tours the parser returns, keyed by courier. */
  function LoadedTours(file: ToursFile): map<int, TourData> {
    if file.ToursUnreadable? then map[] else Index(Accepted(file.tours, ParseTour), CourierKey)
  }

  /** A courier gets a tour exactly when a tour element before the first
      malformed one names it, and the last such element wins. */
  lemma LoadedToursLastWins(file: ToursFile, c: int)
    requires file.ToursDoc?
    ensures c in LoadedTours(file) <==>
            exists i :: 0 <= i < |Accepted(file.tours, ParseTour)| && ParseTour(file.tours[i]).value.courierId == c
    ensures c in LoadedTours(file) ==>
            exists i :: LastWithKey(Accepted(file.tours, ParseTour), CourierKey, c, i) &&
                        Some(LoadedTours(file)[c]) == ParseTour(file.tours[i])
  {
    var a := Accepted(file.tours, ParseTour);
    IndexLastWins(a, CourierKey, c);
    assert forall i :: 0 <= i < |a| ==> ParseTour(file.tours[i]) == Some(a[i]);
  }

  /** Reads one `tour` element, stops first, then segments, then totals. */
  method ReadTour(e: TourElem) returns (r: Option<TourData>)
    ensures r == ParseTour(e)
  {
    if e.courierId.None? {
      return None;
    }
    var stops := ConvertEach(e.stops, ToStop);
    if stops.None? {
      return None;
    }
    var segments := ConvertEach(e.segments, ToRoadSegment);
    if segments.None? || e.totalDistance.None? || e.totalDuration.None? {
      return None;
    }
    var totalDistance := ApiServices.Narrow(e.totalDistance.value, ApiServices.LongMin, ApiServices.LongMax);
    r := Some(TourData(e.courierId.value, stops.value, segments.value, totalDistance as real, e.totalDuration.value));
  }

  method ParseTours(file: ToursFile) returns (tours: map<int, TourData>)
    ensures tours == LoadedTours(file)
  {
    tours := map[];
    if file.ToursUnreadable? {
      return;
    }
    var elems := file.tours;
    ghost var read: seq<TourData> := [];
    var i := 0;
    while i < |elems|
      invariant 0 <= i <= |elems|
      invariant |read| == i && forall k :: 0 <= k < i ==> ParseTour(elems[k]) == Some(read[k])
      invariant tours == Index(read, CourierKey)
    {
      var tour := ReadTour(elems[i]);
      if tour.None? {
        AcceptedIsRead(elems, ParseTour, read);
        return;
      }
      tours := tours[tour.value.courierId := tour.value];
      IndexSnoc(read, CourierKey, tour.value);
      read := read + [tour.value];
      i := i + 1;
    }
    AcceptedIsRead(elems, ParseTour, read);
  }
}
