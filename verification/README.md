# Pickup & Delivery planner — a Dafny model of its domain core

Pickup_Delivery_App plans the rounds of bicycle couriers in a city. It has four parts:

- **The city map.** Intersections and directed road segments are read from an XML plan.
- **The delivery requests.** Each request says where a parcel is picked up and where it is
  delivered, with a service time at each end. The requests sit in a `PickupDelivery` book
  that also records each courier's list of request ids and the depot (warehouse) address.
- **Tour computation.** Costs between the points to visit are turned into a complete graph
  (`GrapheComplet`). A sequential-ordering TSP solver (`TemplateTSP`/`TSP1`) then finds the
  visiting order. It starts from a nearest-neighbour tour and improves it by branch and
  bound. The solver honours precedences ("a pickup before its delivery"), per-vertex
  service times and a shift limit.
- **Persistence and display.** Tours and request files are written and read as XML. The
  React home page turns the server's JSON into markers and polylines.

This project models that core in Dafny, file by file, in the form each source file has:

| Dafny file | models |
|---|---|
| `domain.dfy` | the value types (intersection, road segment, request, stop, stop type), the `Ext` cost domain (a finite real or `Double.MAX_VALUE`) and small sequence and text helpers |
| `road_map.dfy` | `Map.java`, as a class whose intersection table and adjacency list are updated in place |
| `pickup_delivery.dfy` | `PickupDelivery.java`, as a class over two sorted maps |
| `tour.dfy` | `Tour.java`, as a class |
| `dijkstra_table.dfy` | `CellInfo.java`, `Node.java` and `DijkstraTable.java` |
| `graphe_complet.dfy` | `GrapheComplet.java`, as a class over a 2-D array, with a value view `Graph` |
| `iterator_seq.dfy` | `IteratorSeq.java`: candidate filtering and the stable sort by arc cost |
| `tsp_spec.dfy` | the solver's specification: routes, tours, costs, precedences, the greedy heuristic |
| `tsp.dfy` | `TemplateTSP.java` + `TSP1.java`, as one class `Tsp1` proved optimal against `tsp_spec.dfy` |
| `planning.dfy` | `PlanningService.java`: stop layout, precedences, service times, the timeline |
| `tour_service.dfy` | `TourService.java` |
| `duration_util.dfy` | `DurationUtil.java` |
| `api_spec.dfy`, `api_service.dfy` | `ApiService.java`: the tour computation behind the REST API |
| `xml_parsers.dfy` | `XMLParsers.java`: requests, map and tours files |
| `xml_writers.dfy` | `XMLWriters.java`: tour and request files |
| `home_view.dfy` | the data transformation of `react-app/app/routes/home.tsx` |

Conventions:

- Ids are unbounded integers. Java `long` and `int` overflow is modelled only where the
  source narrows a value: the `(int)` and `(long)` casts of a double. `Narrow` states the
  saturating conversion of Java.
- A cost of `Double.MAX_VALUE` is modelled as `Inf`. `Integer.MAX_VALUE`, which the source
  also uses as a sentinel, is the finite value `IntMax`.
- XML and JSON documents are modelled as records of their attributes. An attribute that
  is absent or empty is `Blank` (or `None`); text that `Long.parseLong` rejects is
  `Garbled` (or `None` for a field the code parses unconditionally). An exception raised
  inside a parser's `try` block stops the loop and returns what was built so far. The
  model does exactly that: it keeps the prefix of elements before the first failure
  (`XmlParsers.Accepted`).
- Some facts come from the environment and become parameters:
  - the milliseconds the request parser reads from the clock become the `clock` sequence;
  - the iteration order of a `HashMap` becomes a ghost `order` output;
  - the shortest-path costs become the `lengths` map or the `costs` graph.

## Model

| member | source | states |
|---|---|---|
| Collections.RemoveFirst | src/main/java/domain/model/PickupDelivery.java:55 | `ArrayList.remove(Object)`: drops one occurrence (the length falls by one exactly when the element is present); the multiset loses exactly that element |
| Collections.RemoveFirstAppended | src/main/java/domain/service/TemplateTSP.java:198-216 | removing a vertex just appended to a list that did not hold it gives the list back, which is what lets branch and bound undo a step |
| RoadMaps.RoadMap.constructor | src/main/java/domain/model/Map.java:20-23 | a new map has no intersection and no segment |
| RoadMaps.RoadMap.AddIntersection | src/main/java/domain/model/Map.java:31-39 | adds the intersection exactly when its id is new (the first one with an id wins), reports whether it did, and leaves the adjacency list alone |
| RoadMaps.RoadMap.AddRoadSegment | src/main/java/domain/model/Map.java:48-74 | appends the segment to its start's list exactly when both ends are known and the segment starts where it is filed; otherwise nothing changes; the map invariant (every listed segment starts at its key and joins known intersections) is kept |
| RoadMaps.RoadMap.GetRoadSegment | src/main/java/domain/model/Map.java:83-94 | none exactly when no segment leaving `startId` ends at `endId`; otherwise the first such segment in list order |
| RoadMaps.RoadMap.GetRoadSegmentByName | src/main/java/domain/model/Map.java:102-119 | null name gives nothing; otherwise every list is visited once, in some order of the start ids, and the result is the matching segments of each list, in list order |
| RoadMaps.MatchingInIff | src/main/java/domain/model/Map.java:108-114 | a segment of one list is kept exactly when its lower-cased name contains the needle |
| RoadMaps.MatchingAlongIff | src/main/java/domain/model/Map.java:106-117 | the search result holds a segment exactly when it is in a visited list and matches |
| RoadMaps.NameSearchComplete | src/main/java/domain/model/Map.java:102-119 | whatever the visiting order, the search returns exactly the matching segments of the whole map |
| PickupDeliveries.RequestsOf | src/main/java/domain/model/PickupDelivery.java:66-69 | the stored requests of a list of ids, one per id, in order |
| PickupDeliveries.PickupDelivery.constructor | src/main/java/domain/model/PickupDelivery.java:16-20 | empty book, warehouse address -1 |
| PickupDeliveries.PickupDelivery.Copy | src/main/java/domain/model/PickupDelivery.java:22-29 | the copy holds the same requests, lists and warehouse as the original |
| PickupDeliveries.PickupDelivery.AddRequestToCourier | src/main/java/domain/model/PickupDelivery.java:31-45 | stores the request under its id, appends the id to the courier's list (creating it), returns true, keeps the book valid |
| PickupDeliveries.PickupDelivery.RemoveRequestFromCourier | src/main/java/domain/model/PickupDelivery.java:47-58 | always removes the request from the store; false and lists untouched when the courier has no list, otherwise drops the first occurrence of the id from that list |
| PickupDeliveries.PickupDelivery.GetRequestsForCourier | src/main/java/domain/model/PickupDelivery.java:60-72 | one entry per id of the courier's list (none without a list), each the stored request or null |
| PickupDeliveries.PickupDelivery.SetWarehouseAdressId | src/main/java/domain/model/PickupDelivery.java:86-88 | sets the warehouse, nothing else changes |
| PickupDeliveries.PickupDelivery.FindRequestById | src/main/java/domain/model/PickupDelivery.java:90 | found exactly when the id is stored, and then it is the request with that id |
| PickupDeliveries.PickupDelivery.FindRequestByIntersectionId | src/main/java/domain/model/PickupDelivery.java:92-102 | null exactly when no request serves the intersection; otherwise the request with the smallest id that serves it, labelled DELIVERY when it delivers there and PICKUP otherwise |
| Tours.SumLengthsAppend | src/main/java/domain/model/Tour.java:59-62 | the distance of two stretches driven in turn is the sum of their distances |
| Tours.SumLengthsNonNeg | src/main/java/domain/model/Tour.java:59-62 | non-negative segment lengths give a non-negative distance |
| Tours.Tour.constructor | src/main/java/domain/model/Tour.java:36-43 | empty stops and segments, zero distance and duration; the distance agrees with the segments |
| Tours.Tour.AddStop | src/main/java/domain/model/Tour.java:50-52 | appends the stop, nothing else changes |
| Tours.Tour.AddRoadSegment | src/main/java/domain/model/Tour.java:59-62 | appends the segment and adds its length to the distance, keeping the distance equal to the sum of the lengths taken |
| Tours.Tour.UpdateTotalDistance | src/main/java/domain/model/Tour.java:69-71 | adds to the distance, nothing else changes |
| Tours.Tour.UpdateTotalDuration | src/main/java/domain/model/Tour.java:78-80 | adds to the duration, nothing else changes |
| Tours.Tour.GetStopByIntersectionId | src/main/java/domain/model/Tour.java:113-120 | null exactly when no stop is at the intersection, otherwise the first stop there |
| Tours.Tour.Data | src/main/java/domain/model/Tour.java:83-110 | the getters: courier, stops, segments, distance and duration as stored |
| Dijkstra.CellInfo.constructor | src/main/java/domain/model/dijkstra/CellInfo.java:22-26 | the cell holds the given duration, predecessor and flag |
| Dijkstra.CellInfo.SetDuration | src/main/java/domain/model/dijkstra/CellInfo.java:33-35 | sets the duration only |
| Dijkstra.CellInfo.SetPredecessor | src/main/java/domain/model/dijkstra/CellInfo.java:43-45 | sets the predecessor only |
| Dijkstra.CellInfo.SetVisited | src/main/java/domain/model/dijkstra/CellInfo.java:53-55 | sets the flag only |
| Dijkstra.CompareDurations | src/main/java/domain/model/dijkstra/Node.java:50-52 | `Double.compare` on finite values: -1, 0, 1 exactly for less, equal, greater |
| Dijkstra.CompareDurationsOrder | src/main/java/domain/model/dijkstra/Node.java:50-52 | the comparison is antisymmetric and transitive, as `Comparable` requires |
| Dijkstra.Node.constructor | src/main/java/domain/model/dijkstra/Node.java:17-20 | the node holds the given vertex and duration |
| Dijkstra.Node.SetVertex | src/main/java/domain/model/dijkstra/Node.java:28-30 | sets the vertex only |
| Dijkstra.Node.SetDuration | src/main/java/domain/model/dijkstra/Node.java:38-40 | sets the duration only |
| Dijkstra.Node.CompareTo | src/main/java/domain/model/dijkstra/Node.java:50-52 | orders nodes by duration: -1, 0, 1 exactly for less, equal, greater |
| Dijkstra.DijkstraTable.constructor | src/main/java/domain/model/dijkstra/DijkstraTable.java:16-18 | empty table |
| Dijkstra.DijkstraTable.Put | src/main/java/domain/model/dijkstra/DijkstraTable.java:29-32 | the cell at (row, col) becomes a fresh cell with the given values, every other cell is unchanged, no row is empty |
| Dijkstra.DijkstraTable.PutCell | src/main/java/domain/model/dijkstra/DijkstraTable.java:41-44 | the cell at (row, col) becomes the given object, every other cell is unchanged |
| Dijkstra.DijkstraTable.Get | src/main/java/domain/model/dijkstra/DijkstraTable.java:54-58 | null exactly when the row or the column is absent, otherwise the stored cell |
| Dijkstra.DijkstraTable.Contains | src/main/java/domain/model/dijkstra/DijkstraTable.java:67-70 | true exactly when `get` would find a cell |
| Dijkstra.DijkstraTable.Remove | src/main/java/domain/model/dijkstra/DijkstraTable.java:78-84 | the cell is gone, every other cell is unchanged, and a row that loses its last cell is dropped |
| Graphs.CopyOf | src/main/java/domain/model/GrapheComplet.java:39 | `Arrays.copyOf`: the first n ids, zero-padded |
| Graphs.GrapheComplet.constructor | src/main/java/domain/model/GrapheComplet.java:25-29 | n by n matrix, every cost `Double.MAX_VALUE` |
| Graphs.GrapheComplet.WithVertices | src/main/java/domain/model/GrapheComplet.java:38-43 | the vertex ids are the copied prefix, every cost `Double.MAX_VALUE` |
| Graphs.GrapheComplet.FillUnset | src/main/java/domain/model/GrapheComplet.java:28 | fills every row with `Double.MAX_VALUE` |
| Graphs.GrapheComplet.GetNbSommets | src/main/java/domain/model/GrapheComplet.java:51-53 | the vertex count is the matrix size |
| Graphs.GrapheComplet.GetCout | src/main/java/domain/model/GrapheComplet.java:57-61 | the stored cost inside the range and -1 outside it |
| Graphs.GrapheComplet.SetCout | src/main/java/domain/model/GrapheComplet.java:69-71 | changes the one entry and no other |
| Graphs.GrapheComplet.View | src/main/java/domain/model/GrapheComplet.java:57-86 | the value graph has the same costs, and its arcs are the pairs of distinct in-range vertices |
| Iterators.SuccessorsIff | src/main/java/domain/service/IteratorSeq.java:33-37 | a vertex is a candidate exactly when it is unvisited and an arc leads to it |
| Iterators.SuccessorsExcludeCurrent | src/main/java/domain/service/IteratorSeq.java:33-37 | the current vertex is never its own candidate |
| Iterators.SortByCostSortedPermutation | src/main/java/domain/service/IteratorSeq.java:39-41 | the sort by arc cost is ordered, is a permutation, and keeps the order of candidates of equal cost |
| Iterators.SortByCostStable | src/main/java/domain/service/IteratorSeq.java:39-41 | `List.sort` is stable: the candidates of each cost keep their order |
| Iterators.CandidatesIff | src/main/java/domain/service/IteratorSeq.java:31-42 | the sorted candidate list holds exactly the unvisited vertices reachable by an arc |
| Iterators.IteratorSeq.constructor | src/main/java/domain/service/IteratorSeq.java:31-43 | the candidates are the successors sorted by cost; the cursor is at the start |
| Iterators.IteratorSeq.HasNext | src/main/java/domain/service/IteratorSeq.java:51-53 | true exactly while candidates remain |
| Iterators.IteratorSeq.Next | src/main/java/domain/service/IteratorSeq.java:61-63 | returns the next candidate and advances |
| Iterators.IteratorSeq.Remove | src/main/java/domain/service/IteratorSeq.java:70 | does nothing |
| Durations.ComputeDuration | src/main/java/domain/utils/DurationUtil.java:19-22 | 0 for a missing or non-positive segment; otherwise the minutes at 15 km/h (length = 250 × minutes), never negative |
| Durations.DurationMonotone | src/main/java/domain/utils/DurationUtil.java:19-22 | a longer segment never takes less time |
| Durations.DurationExamples | src/main/java/domain/utils/DurationUtil.java:19-22 | 15 km takes 60 min, 7.5 km 30 min, 900 km 3600 min, a negative length 0 |
| TspSpec.PathCostMonotone | src/main/java/domain/service/TemplateTSP.java:201-208 | under non-negative costs extending a route never lowers its cost |
| TspSpec.TourCostAbovePrefix | src/main/java/domain/service/TemplateTSP.java:173-183 | a complete tour costs at least what its visited prefix costs |
| TspSpec.CutBranch | src/main/java/domain/service/TemplateTSP.java:183 | a prefix already as dear as the best cost cannot lead to a cheaper tour, so the cut is safe |
| TspSpec.HeadBound | src/main/java/domain/service/TemplateTSP.java:198-216 | a bound on the completions of the extended prefix bounds the completions that start with that vertex |
| TspSpec.MissingPredecessor | src/main/java/domain/service/TemplateTSP.java:189-197 | a vertex whose predecessor is unvisited cannot start any completion, so skipping it loses nothing |
| TspSpec.Bound | src/main/java/domain/service/TSP1.java:11-13 | the TSP1 bound is 0 |
| TspSpec.BoundAdmissible | src/main/java/domain/service/TSP1.java:11-13 | prefix cost plus that bound never exceeds the cost of any tour completing the prefix |
| TspSpec.PrefixExtend | src/main/java/domain/service/TemplateTSP.java:189-199 | adding an unvisited vertex reached by an arc whose predecessors are visited keeps a valid prefix |
| TspSpec.CompletionHead | src/main/java/domain/service/TemplateTSP.java:184-216 | the first vertex of any completion is unvisited, reachable, has its predecessors visited, and the rest completes the extended prefix |
| TspSpec.PrefixComplete | src/main/java/domain/service/TemplateTSP.java:173-181 | a full-length prefix with an arc back to the depot is a tour |
| TspSpec.PrecedenceRespected | src/main/java/domain/service/TemplateTSP.java:189-197 | in a tour every predecessor of a vertex is visited before it |
| TspSpec.GreedyPrefix | src/main/java/domain/service/TemplateTSP.java:237-284 | every prefix of a greedy route is greedy |
| TspSpec.GreedyIsPrefix | src/main/java/domain/service/TemplateTSP.java:237-284 | a greedy route visits no vertex twice, uses arcs and respects precedences |
| TspSpec.GreedyWithinShift | src/main/java/domain/service/TemplateTSP.java:267 | each step of a greedy route keeps the running cost within the shift limit |
| TspSpec.NearestUnique | src/main/java/domain/service/TemplateTSP.java:269-272 | the strict `<` makes the chosen vertex unique: the lowest index among the cheapest |
| TspSpec.PathCostCoversService | src/main/java/domain/service/TemplateTSP.java:201-206 | under non-negative costs a path costs at least the service time spent along it |
| Tsp.Tsp1.constructor | src/main/java/domain/service/TemplateTSP.java:37-44 | no graph, no precedences, no service times, unlimited shift |
| Tsp.Tsp1.SetPrecedences | src/main/java/domain/service/TemplateTSP.java:57-60 | null gives an empty map, otherwise the given one; nothing else changes |
| Tsp.Tsp1.SetServiceTimes | src/main/java/domain/service/TemplateTSP.java:68-70 | sets the service times, nothing else changes |
| Tsp.Tsp1.SetMaxDuration | src/main/java/domain/service/TemplateTSP.java:75-77 | sets the shift limit, nothing else changes |
| Tsp.Tsp1.GetSolution | src/main/java/domain/service/TemplateTSP.java:110-114 | the stored vertex inside the range, -1 outside or without a graph; with a full solution it is the route's vertex |
| Tsp.Tsp1.GetCoutSolution | src/main/java/domain/service/TemplateTSP.java:116-120 | the best cost, or -1 without a graph |
| Tsp.Tsp1.AllIn | src/main/java/domain/service/TemplateTSP.java:189-196 | true exactly when every predecessor is visited |
| Tsp.Tsp1.AllMarked | src/main/java/domain/service/TemplateTSP.java:246-253 | true exactly when every predecessor is marked visited |
| Tsp.Tsp1.ChercheSolution | src/main/java/domain/service/TemplateTSP.java:86-108 | no effect for a non-positive time limit; otherwise the stored solution is consistent with the best cost, and under non-negative costs the best cost is at most the cost of every tour (optimality) |
| Tsp.Tsp1.Reset | src/main/java/domain/service/TemplateTSP.java:87-97 | installs the graph, an empty solution, visited = [0] and unvisited = 1..n-1 |
| Tsp.Tsp1.InitialBound | src/main/java/domain/service/TemplateTSP.java:99-105 | the heuristic's cost becomes the best cost, or `Integer.MAX_VALUE` when it is infinite, consistently with what it stored |
| Tsp.Tsp1.StartState | src/main/java/domain/service/TemplateTSP.java:94-97 | the initial visited/unvisited split is a search state at the depot with cost 0 |
| Tsp.Tsp1.NearestNeighborHeuristic | src/main/java/domain/service/TemplateTSP.java:225-308 | the route built is greedy; when it gets stuck or cannot return to the depot the cost is infinite and nothing is stored; otherwise the route is stored and the cost is its tour cost |
| Tsp.Tsp1.FindNearest | src/main/java/domain/service/TemplateTSP.java:238-273 | -1 exactly when no vertex is eligible; otherwise the unique nearest eligible vertex and its step cost |
| Tsp.Tsp1.BranchAndBound | src/main/java/domain/service/TemplateTSP.java:151-219 | restores the visited list and the unvisited multiset, never raises the best cost, keeps the solution consistent, and leaves a best cost that bounds every tour completing the current prefix |
| Tsp.Tsp1.Leaf | src/main/java/domain/service/TemplateTSP.java:173-181 | a full prefix is stored when closing it is strictly cheaper; afterwards the best cost bounds its tour |
| Tsp.Tsp1.TryCandidates | src/main/java/domain/service/TemplateTSP.java:184-217 | after all candidates, the best cost bounds every completion of the prefix |
| Tsp.Tsp1.Explore | src/main/java/domain/service/TemplateTSP.java:187-216 | one candidate: skipped for a missing predecessor, otherwise explored; afterwards the best cost bounds every completion starting with a tried candidate |
| Tsp.Tsp1.Descend | src/main/java/domain/service/TemplateTSP.java:198-216 | visit, recurse when within the shift or cheaper, undo; the best cost then bounds the completions starting with that vertex |
| Tsp.Tsp1.Forward | src/main/java/domain/service/TemplateTSP.java:198-216 | given the cost of the route extended by the vertex: visits it, searches below it and takes it back; afterwards the best cost bounds every completion that visits that vertex next |
| Tsp.Tsp1.Deepen | src/main/java/domain/service/TemplateTSP.java:211-213 | the guarded recursive call, with the same bound as `BranchAndBound` |
| Tsp.Tsp1.Advance | src/main/java/domain/service/TemplateTSP.java:198-199 | appends the vertex to the visited list and removes its first occurrence from the unvisited list |
| Tsp.Tsp1.StepCost | src/main/java/domain/service/TemplateTSP.java:201-206 | the arc cost plus the service time when the array covers the vertex |
| Tsp.Tsp1.Retreat | src/main/java/domain/service/TemplateTSP.java:215-216 | undoes the step: the vertex leaves the visited list and is appended to the unvisited list |
| Tsp.Tsp1.StoreRoute | src/main/java/domain/service/TemplateTSP.java:177 | copies a route (the visited list, or the heuristic's route) into the solution array: every entry is set and they read back as the route |
| Tsp.Optimal | src/main/java/domain/service/TemplateTSP.java:86-108 | a bound on every completion of the initial state bounds every tour |
| Tsp.ExploreStep | src/main/java/domain/service/TemplateTSP.java:198-212 | visiting an eligible candidate gives a search state at it, costed by the extended prefix |
| Tsp.LeafBound | src/main/java/domain/service/TemplateTSP.java:173-181 | a best cost bounding the prefix's own tour bounds all its (empty) completions |
| Tsp.ExhaustedBound | src/main/java/domain/service/TemplateTSP.java:184-217 | when every candidate of the iterator is bounded, every completion is |
| Planning.BuildStops | src/main/java/domain/service/PlanningService.java:32-42 | 2k+1 stops: the warehouse, then the pickup and delivery of each request in list order |
| Planning.Precedences | src/main/java/domain/service/PlanningService.java:53-62 | vertex 2i+2 (a delivery) has exactly the predecessor 2i+1 (its pickup); no other vertex has one |
| Planning.ServiceTimes | src/main/java/domain/service/PlanningService.java:67-81 | 0 at the warehouse, each request's pickup and delivery durations at its two vertices |
| Planning.DepartureAfterService | src/main/java/domain/service/PlanningService.java:101-106 | each departure is the arrival plus the service time at that vertex |
| Planning.Timeline | src/main/java/domain/service/PlanningService.java:91-109 | the arrivals and departures along the solution follow the timeline rules |
| Planning.TimelineNonDecreasing | src/main/java/domain/service/PlanningService.java:91-109 | with non-negative costs and service times, no departure precedes its arrival and no arrival precedes the previous departure |
| Planning.PickupBeforeDelivery | src/main/java/domain/service/PlanningService.java:53-64 | every tour obeying these precedences visits each pickup before its delivery |
| Planning.PlanningService.constructor | src/main/java/domain/service/PlanningService.java:18-24 | a fresh solver with default settings |
| Planning.PlanningService.RecomputeTourForCourier | src/main/java/domain/service/PlanningService.java:26-109 | the stops, precedences and service times as laid out; a timeline exists exactly when the solver stored a tour (its absence stands for the `NullPointerException` of line 93), and then it is a tour that picks up before delivering, with its timeline, whose last departure is the tour's path cost |
| Planning.PlanningService.ReadSolution | src/main/java/domain/service/PlanningService.java:112-114 | the solver's route, read vertex by vertex, when one is stored |
| Planning.TourFacts | src/main/java/domain/service/PlanningService.java:53-81 | a tour of the laid-out instance stays inside the service-time array and picks up before delivering |
| Planning.FinalDeparture | src/main/java/domain/service/PlanningService.java:91-109 | the last departure equals the solver's path cost of the same route |
| Planning.PathCostIgnoresOrdering | src/main/java/domain/service/PlanningService.java:91-109 | the path cost depends on the graph and service times only, not on the precedences or the shift |
| TourServices.DummyStops | src/main/java/domain/service/TourService.java:58-63 | two placeholder stops per request: the list is twice as long as the request list |
| TourServices.DummyStopsLayout | src/main/java/domain/service/TourService.java:58-63 | the pickup of request i sits at position 2i and its delivery at 2i+1, both with times 0 |
| TourServices.StoreDummiesEffect | src/main/java/domain/service/TourService.java:54-67 | a listed courier with requests gets its placeholder tour; every other courier keeps its tour (or none) |
| TourServices.DummyTourLayout | src/main/java/domain/service/TourService.java:58-65 | a placeholder tour has no segments, zero distance and duration, and pairs each pickup with its delivery |
| TourServices.TourService.constructor | src/main/java/domain/service/TourService.java:29-38 | no tours, no order constraints, zero couriers |
| TourServices.PlaceholderStops | src/main/java/domain/service/TourService.java:57-63 | the walk over one courier's looked-up requests completes exactly when every listed id is stored (a null entry throws in the source), and then yields the placeholder stops of those requests |
| TourServices.TourService.ComputeAllTours | src/main/java/domain/service/TourService.java:43-71 | nothing changes without couriers or a request book; otherwise placeholder tours are stored courier by courier up to the first list that names an unstored request, where the source throws (`thrown`): the couriers before it hold the placeholder table, the rest keep their old tours |
| TourServices.TourService.ComputeTourForCourier | src/main/java/domain/service/TourService.java:78-82 | the stored tour, or null when there is none |
| TourServices.TourService.UpdateNumCouriers | src/main/java/domain/service/TourService.java:131-138 | the count becomes n in every case; for n >= 0, n couriers numbered 1..n in a fresh array; for a negative n the allocation throws and the old array stays; tours and order constraints unchanged |
| TourServices.TourService.UpdateRequestOrder | src/main/java/domain/service/TourService.java:146-164 | appends the (before, after) pair to the courier's list, creating it; other couriers unchanged |
| ApiSpec.Points | src/main/java/application/ApiService.java:56-61 | the warehouse, then each request's pickup and delivery, in order |
| ApiSpec.DedupeSpec | src/main/java/application/ApiService.java:62 | `distinct()` keeps exactly the values of the input, each once |
| ApiSpec.DedupeHead | src/main/java/application/ApiService.java:62 | the warehouse stays at index 0 |
| ApiSpec.DedupeDistinct | src/main/java/application/ApiService.java:62 | a list without repeats is unchanged |
| ApiSpec.DedupeIdempotent | src/main/java/application/ApiService.java:62 | applying it twice changes nothing |
| ApiSpec.IndexOf | src/main/java/application/ApiService.java:93 | `indexOf`: -1 exactly when absent, otherwise the first index holding the value |
| ApiSpec.GatedIff | src/main/java/application/ApiService.java:108-120 | a vertex passes the gate exactly when it is not a delivery whose pickup is still unvisited |
| ApiSpec.AllowedIff | src/main/java/application/ApiService.java:108-120 | the iterator's candidates are the unvisited vertices whose pickup, if any, is visited |
| ApiSpec.GateIsPrecedence | src/main/java/application/ApiService.java:84-120 | the gate offers exactly what the solver's precedence check would allow under "pickup before delivery" precedences |
| ApiSpec.ClassifySpec | src/main/java/application/ApiService.java:140-152 | the first request serving the intersection decides; its pickup is checked before its delivery; none when no request serves it |
| ApiSpec.StopsTimeline | src/main/java/application/ApiService.java:129-162 | every recorded stop is classified correctly; the clock starts at 0, each stop arrives when the previous departs, and the final total is the last departure |
| ApiSpec.ChainShape | src/main/java/application/ApiService.java:204-210 | following predecessors from a vertex gives a chain of predecessor links ending there and starting at a vertex without predecessor |
| ApiSpec.ExpectedPathSpec | src/main/java/application/ApiService.java:204-214 | the path is that chain when it starts at the start vertex and null otherwise; a path runs from start to end along predecessor links |
| ApiServices.Truncate | src/main/java/application/ApiService.java:72 | a cast truncates toward zero |
| ApiServices.Narrow | src/main/java/application/ApiService.java:72 | a narrowing cast from double: within the target range, the truncation when it fits, never negative for a non-negative input |
| ApiServices.NarrowLosesFraction | src/main/java/application/ApiService.java:72 | for a non-negative cost below `Integer.MAX_VALUE` the cast drops less than 1 |
| ApiServices.CostEntryFacts | src/main/java/application/ApiService.java:65-75 | 0 on the diagonal, `Integer.MAX_VALUE` without a path, and always within 0..`Integer.MAX_VALUE` |
| ApiServices.CostMatrix | src/main/java/application/ApiService.java:65-75 | the square matrix of cost entries |
| ApiServices.GraphOf | src/main/java/application/ApiService.java:77 | the complete graph over the matrix, with the same costs |
| ApiServices.PickupToDeliveryKeys | src/main/java/application/ApiService.java:79-82 | the keys are exactly the pickup points |
| ApiServices.PickupToDeliveryLast | src/main/java/application/ApiService.java:79-82 | a pickup shared by several requests maps to the delivery of the last of them |
| ApiServices.FindPickup | src/main/java/application/ApiService.java:89-97 | none exactly when no pickup delivers to the point; otherwise a pickup that does |
| ApiServices.DeliveryToPickupIndex | src/main/java/application/ApiService.java:85-100 | an index is gated exactly when its point is some delivery, and it is gated by the index of a pickup delivering there |
| ApiServices.GateInRange | src/main/java/application/ApiService.java:85-100 | every gate index lies among the points |
| ApiServices.Candidates | src/main/java/application/ApiService.java:108-120 | the iterator's candidate list, as `Allowed` defines it |
| ApiServices.ClassifyStop | src/main/java/application/ApiService.java:136-152 | kind, request id and duration of the classification, or (null, -1, 0) |
| ApiServices.PointsAlong | src/main/java/application/ApiService.java:133 | the intersection id of each route index |
| ApiServices.VisitedIdsOfStored | src/main/java/application/ApiService.java:129-133 | an empty solution visits nothing; a full one visits the points along its route |
| ApiServices.Visit | src/main/java/application/ApiService.java:136-161 | one non-warehouse point: a stop with the running clock is appended when classified, otherwise nothing |
| ApiServices.WalkStops | src/main/java/application/ApiService.java:129-162 | the stops and total duration along the stored solution |
| ApiServices.CollectPoints | src/main/java/application/ApiService.java:56-61 | the point list |
| ApiServices.CollectPickups | src/main/java/application/ApiService.java:79-82 | the pickup-to-delivery map |
| ApiServices.ReconstructPath | src/main/java/application/ApiService.java:204-214 | the path of predecessors from start to end, or null |
| ApiServices.Solve | src/main/java/application/ApiService.java:84-123 | the solver runs with the gate as precedences and returns an optimal tour cost over the gated tours |
| ApiServices.GatedTourOrder | src/main/java/application/ApiService.java:84-123 | in a gated tour every delivery point comes after a pickup point of a request delivering there |
| ApiServices.CostGraphFacts | src/main/java/application/ApiService.java:65-77 | every cost is finite, and non-negative when the path lengths are |
| ApiServices.Prepare | src/main/java/application/ApiService.java:54-100 | distinct points with the warehouse first, the cost graph over them, and the gate |
| ApiServices.Finish | src/main/java/application/ApiService.java:123-164 | the tour: the stops along the solver's route, the distance as the cost cast to `long` |
| ApiServices.HeuristicIgnoresGate | src/main/java/application/ApiService.java:84-123 | as written: on three points the ungated nearest-neighbour tour delivers before picking up and is cheaper than every gated tour, so branch and bound keeps it |
| ApiServices.ApiService.constructor | src/main/java/application/ApiService.java:19-23 | no requests and no couriers |
| ApiServices.ApiService.AddRequest | src/main/java/application/ApiService.java:35-37 | stores the request under its id |
| ApiServices.ApiService.AddCourier | src/main/java/application/ApiService.java:39-41 | registers the courier |
| ApiServices.ApiService.RequestsFor | src/main/java/application/ApiService.java:54 | the stored request of each id, in order |
| ApiServices.ApiService.CalculateTour | src/main/java/application/ApiService.java:51-165 | null exactly for an unknown courier; otherwise the distinct points, the cost graph, the gate as precedences, an optimal gated tour (under non-negative lengths), its stops and timeline, and the distance as the cast cost |
| XmlParsers.Accepted | src/main/java/persistence/XMLParsers.java:76-79 | the elements converted before the first one that fails, each converted |
| XmlParsers.ConvertAll | src/main/java/persistence/XMLParsers.java:148-169 | succeeds exactly when every element converts, with the conversions in order |
| XmlParsers.ConvertEach | src/main/java/persistence/XMLParsers.java:148-169 | the conversion loop computes that result |
| XmlParsers.IndexLastWins | src/main/java/persistence/XMLParsers.java:174-175 | a `put` per element stores exactly the keys seen, each with the last element carrying it |
| XmlParsers.Unbroken | src/main/java/persistence/XMLParsers.java:58-69 | an element passes exactly when it is skipped or fully numeric |
| XmlParsers.RequestCases | src/main/java/persistence/XMLParsers.java:58-69 | an element is exactly one of: skipped, making the parser throw, or complete |
| XmlParsers.ToRequest | src/main/java/persistence/XMLParsers.java:66-73 | the request carries the parsed addresses and durations and the given id |
| XmlParsers.RequestsIff | src/main/java/persistence/XMLParsers.java:51-75 | a request is built exactly for each complete element, with its clock id |
| XmlParsers.RequestsOfComplete | src/main/java/persistence/XMLParsers.java:51-75 | all-complete elements give one request each, in order |
| XmlParsers.IdsOf | src/main/java/persistence/XMLParsers.java:74 | the ids of the requests, in order |
| XmlParsers.LoadedIff | src/main/java/persistence/XMLParsers.java:21-80 | a request is loaded exactly when the file exists, its depot does not throw, and its element is complete and comes before the first throwing element |
| XmlParsers.SameClockOverwrites | src/main/java/persistence/XMLParsers.java:73-74 | two requests read in the same millisecond share an id: the store keeps the second and courier 1's list names the id twice |
| XmlParsers.ParseRequests | src/main/java/persistence/XMLParsers.java:21-80 | warehouse as read (or -1), store = the loaded requests by id, courier 1's list = their ids in file order |
| XmlParsers.LoadRequests | src/main/java/persistence/XMLParsers.java:50-75 | the request loop stores the requests before the first throwing element |
| XmlParsers.ToIntersection | src/main/java/persistence/XMLParsers.java:101-105 | a node converts exactly when its three attributes parse |
| XmlParsers.ToSegment | src/main/java/persistence/XMLParsers.java:114-124 | a segment converts exactly when its numbers parse; the name is taken as is |
| XmlParsers.TableFirstWins | src/main/java/persistence/XMLParsers.java:97-107 | every node id read is known, under it the first node carrying it |
| XmlParsers.LinksAreLeaving | src/main/java/persistence/XMLParsers.java:110-127 | each intersection's list is exactly the file's segments leaving it between known intersections, in file order; only intersections with one get a list |
| XmlParsers.LeavingIff | src/main/java/persistence/XMLParsers.java:110-127 | a segment is listed under `s` exactly when it leaves `s` and both ends are known |
| XmlParsers.ParseMap | src/main/java/persistence/XMLParsers.java:82-134 | intersections = the nodes before the first failure; segments stored only when every node parsed, then those before the first failing segment |
| XmlParsers.LoadNodes | src/main/java/persistence/XMLParsers.java:97-107 | the node loop, reporting whether every node parsed |
| XmlParsers.LoadSegments | src/main/java/persistence/XMLParsers.java:110-127 | the segment loop |
| XmlParsers.ParseStopTypeIff | src/main/java/persistence/XMLParsers.java:152 | `valueOf` accepts exactly the names the enum prints |
| XmlParsers.ToStop | src/main/java/persistence/XMLParsers.java:151-157 | a stop converts exactly when all its attributes parse, and carries them |
| XmlParsers.ToRoadSegment | src/main/java/persistence/XMLParsers.java:163-168 | a tour segment converts exactly when its numbers parse |
| XmlParsers.ParseTour | src/main/java/persistence/XMLParsers.java:145-174 | a tour converts exactly when every part parses; the distance is cast to `long` |
| XmlParsers.LoadedToursLastWins | src/main/java/persistence/XMLParsers.java:136-181 | a courier has a tour exactly when a tour before the first failure names it; the last such tour wins |
| XmlParsers.ReadTour | src/main/java/persistence/XMLParsers.java:145-174 | the loop body computes `ParseTour` |
| XmlParsers.ParseTours | src/main/java/persistence/XMLParsers.java:136-181 | the tours loaded, keyed by courier |
| XmlWriters.FirstStop | src/main/java/domain/model/Tour.java:113-120 | none exactly when no stop is at the intersection, otherwise the first one there |
| XmlWriters.Steps | src/main/java/persistence/XMLWriters.java:51-78 | one step per segment taken, in order |
| XmlWriters.NoTypeIsIntermediaire | src/main/java/persistence/XMLWriters.java:67-72 | no stop type prints as "intermediaire", so the guard never hides a time of a real stop |
| XmlWriters.StepStartMeaning | src/main/java/persistence/XMLWriters.java:55-69 | the step starts at the segment's start; its type is "intermediaire" exactly when no stop is there, otherwise the first stop's type, whose departure time is written |
| XmlWriters.StepFinishMeaning | src/main/java/persistence/XMLWriters.java:56-74 | the same for the segment's end and the arrival time |
| XmlWriters.Minutes | src/main/java/persistence/XMLWriters.java:46 | `Duration.toMinutes` truncates toward zero |
| XmlWriters.WriteTour | src/main/java/persistence/XMLWriters.java:32-87 | fails exactly without a start time; otherwise courier, start, distance, minutes and the steps |
| XmlWriters.WriteRequests | src/main/java/persistence/XMLWriters.java:94-132 | the depot with the fixed departure time, then every stored request once, in ascending id order |
| XmlWriters.IsoDurationsNotReadBack | src/main/java/persistence/XMLWriters.java:115-116 | as written: a written file with requests reads back with its depot and no request |
| XmlWriters.RequestsRoundTrip | src/main/java/persistence/XMLWriters.java:111-118 | with durations written in seconds, reading back restores the depot and every request in order, ids from the clock |
| HomeView.IdTableLastWins | react-app/app/routes/home.tsx:74-80 | the map knows exactly the entries with an id, each with the last entry carrying it; its keys are those ids |
| HomeView.KeyOrderDistinct | react-app/app/routes/home.tsx:74-80 | the key order lists each id once |
| HomeView.BuildIntersectionMap | react-app/app/routes/home.tsx:74-80 | the loop builds that map and that key order |
| HomeView.Markers | react-app/app/routes/home.tsx:83-88 | one marker per key, in key order, at the intersection's position |
| HomeView.MarkersOfEntries | react-app/app/routes/home.tsx:74-88 | every intersection with an id gets a marker at the position of its last entry |
| HomeView.EntryLinesFacts | react-app/app/routes/home.tsx:96-106 | one line per segment whose end resolves, from the start to a known point |
| HomeView.RoadLinesFacts | react-app/app/routes/home.tsx:90-110 | one line per segment whose start and end both resolve, each joining known points |
| HomeView.BuildRoadLines | react-app/app/routes/home.tsx:90-110 | the loop computes those lines |
| HomeView.BoundsOf | react-app/app/routes/home.tsx:112-120 | bounds exactly when there is a marker; they contain every marker and each is attained |
| HomeView.ShowsMapIff | react-app/app/routes/home.tsx:112-120 | when both fetches succeed, the map is drawn (bounds are set) exactly when some received intersection has an id |
| HomeView.TourLinesIff | react-app/app/routes/home.tsx:134-144 | a tour segment is drawn exactly when both ends resolve, from start to end |
| HomeView.TourLinesAllResolved | react-app/app/routes/home.tsx:134-144 | when every end resolves, one line per segment, in order |
| HomeView.ProjectTour | react-app/app/routes/home.tsx:146-149 | every field but the segments is kept, and there are no more segments than before |
| HomeView.TourLinesShorter | react-app/app/routes/home.tsx:134-144 | filtering never adds lines |
| HomeView.ProjectTours | react-app/app/routes/home.tsx:133-150 | one projected tour per tour, in order |

## Left out

- Wall-clock limits are not modelled: `tpsLimite`, `NO_IMPROVEMENT_TIMEOUT`, `stopSearch` and `System.currentTimeMillis` in `TemplateTSP`. The modelled search always runs to exhaustion, so `Tsp.Tsp1.ChercheSolution` states optimality; the source only promises the best tour found before a timeout.
- IEEE `double` arithmetic is not modelled. Costs and lengths are exact reals, `Double.MAX_VALUE` is `Inf`, and rounding and NaN are not represented.
- Console output (`System.out.println`, `printStackTrace`, `console.log` and `console.warn`) is not modelled.
- The shortest-path search is not modelled: the priority-queue Dijkstra in `ApiService.dijkstra` (lines 173-202) and `DijkstraService`. Only the path reconstruction (lines 204-214) is modelled, as `ApiServices.ReconstructPath`. The lengths of the shortest paths enter as the `lengths` parameter, and `PlanningService`'s cost graph enters as `costs`.
- `ApiServices.ReconstructPath`: requires the predecessor map to be acyclic (a rank function). The Dijkstra loop guarantees this, but it is not modelled here.
- File, XML and network I/O are not modelled: `DocumentBuilder`, `XMLStreamWriter`, `Transformer`, `fetch` and JSON decoding. Documents are records of their attributes. Only the attribute values each writer produces are modelled, not the XML text.
- The clock is a parameter. `parseRequests` takes its request ids from `System.currentTimeMillis`, and the model receives them as the `clock` sequence. `PlanningService` takes its start time from `LocalDateTime.now()`; that time is not modelled.
- `parseTours` converts its times through `LocalDateTime.parse(...).atZone(...)`. The model reads the times as numbers. `XmlParsers.ParseTour` does not model the zone conversion.
- `LocalDateTime.toString()` and `Duration.toString()` in `writeTour` are abstracted to numbers. The `step` elements that `writeTour` produces are not what `parseTours` reads, so no tour round trip is stated.
- A partially written file is not modelled, either when `writeTour` throws or when `writeRequests` catches an exception.
- Several operations of this snapshot call members that `PickupDelivery`, `Tour`, `GrapheComplet` and `TourService` do not define. For each, the model uses the nearest member that exists:
  - `PickupDelivery.addRequest` and `setWarehouseAddress` map to `AddRequestToCourier` and `SetWarehouseAdressId`;
  - the 4- and 5-argument `Tour` constructors and `new Request(time, …)` map to the `TourData` and `Request` records;
  - `new GrapheComplet(int[][])` maps to `ApiServices.GraphOf`.
- Parts of `ApiService.java` would not compile as written: `int bound` overriding `double bound`, a `Duration` assigned to `long`, and `long totalDistance = tsp.getCoutSolution();` (line 126), which assigns a `double` to a `long`. The model follows the evident intent: integer durations in seconds, a bound of 0, and an explicit `(long)` cast of the cost, which saturates at the `long` range (`Narrow`).
- `ApiServices.Finish`: the distance is the cost under the `(long)` cast that line 126 lacks; the statement as written does not compile.
- `ApiServices.ApiService.CalculateTour`: the distance carries the same assumed `(long)` cast as `ApiServices.Finish`.
- `TourService.convertGraphToTour`, `addRoadsToTour` and `setTourForCourier` are not part of this model. They are called at `PlanningService.java:111-127` but not defined, so `Planning.PlanningService.RecomputeTourForCourier` ends at the timeline.
- The request-id generator (`Request.generateId`) is not modelled. Ids are given.
- `ApiService.calculateTour` looks requests up with `requests::get`. For a known courier, an unknown id yields null, and the source then throws a `NullPointerException`. `ApiServices.ApiService.CalculateTour` therefore requires every id to be stored when the courier is known; an unknown courier returns null at line 52, before any lookup, whatever the ids.
- `Planning.PlanningService.RecomputeTourForCourier`: requires the courier to have a list whose ids are all stored. Without one, the source throws a `NullPointerException` at line 32 or 40.
- `Planning.PlanningService.RecomputeTourForCourier`: when the solver stores no tour, the model returns an absent timeline, while the source unboxes a null `Integer` at `PlanningService.java:93` and throws a `NullPointerException`; the exception itself is not modelled.
- `RoadMaps.RoadMap.GetRoadSegmentByName`: `toLowerCase` is modelled by `Text.LowerChar`, which folds the ASCII capitals, the Latin-1 capitals U+00C0 to U+00DE except U+00D7, and U+0152 and U+0178. Other scripts and Java's special cases (such as U+0130, which lowers to two characters) are not modelled.
- `RoadMaps.MatchingInIff`: a match is stated under the folding of `Text.LowerChar`, with the limits given for `RoadMaps.RoadMap.GetRoadSegmentByName`.
- `RoadMaps.MatchingAlongIff`: a match is stated under the folding of `Text.LowerChar`, with the limits given for `RoadMaps.RoadMap.GetRoadSegmentByName`.
- `RoadMaps.NameSearchComplete`: a match is stated under the folding of `Text.LowerChar`, with the limits given for `RoadMaps.RoadMap.GetRoadSegmentByName`.
- `ApiServices.ApiService.CalculateTour`: the solver offers its candidates in cost order (`IteratorSeq`). The source's anonymous iterator offers them in the order of the unvisited list and uses the gate instead of precedences. Both visit the same candidate set (`ApiSpec.GateIsPrecedence`), so the optimum is the same; the order in which tours are tried is not modelled.
- `HashMap` iteration order is not modelled. It is a ghost output where it shows: the name search in `Map`, and the entry scan in `ApiServices.FindPickup`, which may pick any pickup delivering to the point.
- `TourService.saveTours`, `computeDistance`, `computeDuration` and `assignRequestsToCouriers` are placeholders that only print and return constants. They are not modelled.
- The React state hooks, the error handling and the rendering (`home.tsx` lines 121-189) are not modelled, except the bounds test of line 178 (`HomeView.ShowsMap`); only the data transformation is. A failed fetch, which shows the error instead of the map (lines 126-127, 156 and 170-172), is not modelled.
- `Tsp.Tsp1.ChercheSolution`: requires at least one vertex and every predecessor to be a vertex. Without them the source throws an `IllegalArgumentException` or an `ArrayIndexOutOfBoundsException`; both callers (`Planning.PlanningService.RecomputeTourForCourier` and `ApiServices.Solve`) meet the requirements.
- The order in which the `for … in` loops of `home.tsx` visit the received object's keys is not modelled. The entries arrive as a sequence in that order.

## Findings

| source | as written | input that shows it | evidently intended | confidence | as-written member | corrected member |
|---|---|---|---|---|---|---|
| src/main/java/application/ApiService.java:84-123 | the "pickup before delivery" gate lives only in the anonymous iterator; the solver's precedences stay empty, so the nearest-neighbour heuristic (TemplateTSP.java:225-307) ignores the gate, and branch and bound replaces its tour only by a strictly cheaper one | warehouse 0, pickup 1, delivery 2; cost 0→1 is 10, every other move costs 1: the heuristic returns 0→2→1 (cost 3, delivery first), and the only gated tour 0→1→2 costs 12 | the returned tour visits every pickup before its delivery | not executed | ApiServices.HeuristicIgnoresGate | ApiServices.ApiService.CalculateTour |
| src/main/java/persistence/XMLWriters.java:115-116 | request durations are written with `String.valueOf(Duration)` (ISO-8601 text such as `PT3M`), which `Long.parseLong` in `parseRequests` rejects, so the first request aborts the read | one request with pickup 208769039 (180 s) and delivery 25173820 (240 s): it is written as `pickupDuration="PT3M"`, and reading the file back loads the depot but no request | durations written as the number of seconds `parseRequests` reads, so that writing and reading back restores the requests | not executed | XmlWriters.IsoDurationsNotReadBack | XmlWriters.RequestsRoundTrip |
