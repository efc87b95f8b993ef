# RoadMap-Networks in Dafny

A verified model of the road-network library of RoadMap-Networks and of its what-if analysis.

- **Road graph.** Intersections are keyed by integer address. Each intersection maps every neighbour's address to the road that leads there. A road has two endpoints, a length and a `closed` flag; the first draft also gives it an empty `traffic` list. Constructing a road stores it in both endpoints' maps, and `add_road` first creates any missing endpoint.
- **Paths.** `find_paths` is an exhaustive depth-first search for simple paths over open roads. `compute_path_distance` adds up road lengths. `shortest_path` keeps the first path of minimal length, and `find_shortest_path` combines the two.
- **What-if analysis.** `generate_network_with_event` rebuilds a network road by road and applies an event to one road: traffic doubles its length, a closure closes it. `most_valuable_road` compares shortest distances before and after the event, road by road.

The model has seven modules:

- `RoadGraph` (graph.dfy) describes the state of a network as a value `Graph(nodes, addresses, roads)`:
  - `nodes`: the intersections by address, each with its neighbour map and the order in which its neighbours were linked;
  - `addresses`: the addresses in insertion order;
  - `roads`: a table of roads. A road object shared by two intersections is one entry of the table, and a road is identified by its position there.

  `Valid` holds the representation invariants:
  - every intersection is stored under its own address;
  - no intersection is its own neighbour;
  - adjacency is symmetric, and both ends name the same road;
  - every road joins two linked intersections.
- `PathSearch` (paths.dfy) is the search. The source is one recursive method with a `for` loop over the neighbours; the model writes that loop as a second function, `Explore`, and the two recurse into each other. Its contract says every path found is simple, open and leads to the destination. A lemma proves every such path is found.
- `Routes` (routes.dfy) holds:
  - the length of a path;
  - the loops of `compute_path_distance` and `shortest_path`, proved against it;
  - the route `find_shortest_path` returns, and its distance, which is 0.0 when there is no route, as the code computes it.
- `Views` (views.dfy) covers two things:
  - what a rebuilt network shares with the original: the same links, with roads of the same length and closed flag. Shortest distances depend on nothing else (`RouteDistanceSameView`).
  - the two events.
- `Network` (network.dfy) is the class `RoadNetwork`. Its fields hold the three pieces of state, and its methods update them in place. Each method is proved against the functions of `RoadGraph`.
- `WhatIf` (whatif.dfy) is the analysis of the complete version. `DraftWhatIf` (draft_whatif.dfy) is the first draft, with the road-object identity its loops compare.

## Model

| member | source | states |
|---|---|---|
| RoadGraph.Road.OtherEndpoint | project.py:107-113 | the result is an endpoint of the road, different from the given one, and together they are the road's two endpoints |
| RoadGraph.OtherEndpointTwice | project1.py:66-72 | taking the other endpoint twice returns the intersection one started from |
| RoadGraph.WithNodeValid | project1.py:103-112 | adding a fresh address keeps every invariant, stores an intersection with no roads under its own address and adds exactly that key |
| RoadGraph.JoinedValid | project1.py:54-64 | constructing a road between two distinct existing intersections keeps every invariant (symmetric links, no self-loop, each intersection under its own address) |
| RoadGraph.WithRoadValid | project1.py:114-128 | `add_road` keeps the invariants, never removes an intersection (the keys become the old keys plus both addresses) and appends one open road of the given length with an empty traffic list |
| RoadGraph.WithRoadLinks | project.py:164-169 | after `add_road` the two addresses are linked both ways by the new road, every other link keeps its road, and re-adding a road for a linked pair replaces that pair's road instead of adding a second one |
| RoadGraph.RoadAtInjective | project.py:101-104 | two links name the same road exactly when they join the same pair of intersections |
| RoadGraph.LinkSymmetric | project.py:103-104 | a link names the same road from either end |
| RoadGraph.LinkedCurrent | project.py:190-196 | the road stored on any link is among the roads `get_roads` collects |
| RoadGraph.WithTrafficValid | project.py:221-229 | doubling a road's length keeps the invariants |
| RoadGraph.WithTrafficRoads | project.py:226-229 | traffic changes only the length of the one road on the link, doubling it; the intersections and every other road are unchanged, and naming the endpoints in either order gives the same network |
| RoadGraph.WithClosureValid | project.py:236-240 | a closure keeps the invariants, closes only the road on the link, keeps every other road and does not depend on the order of the endpoints |
| RoadGraph.WithClosureTwice | project.py:231-240 | closing a road twice is the same as closing it once |
| PathSearch.Trail | project.py:64-85 | a path found passes through distinct intersections that are not in `visited`, from the start to the destination; each road joins consecutive intersections, is stored on that link and is open |
| PathSearch.PathShape | project.py:64-85 | consecutive roads of a path share an endpoint, the first touches the start and the last the destination, no road is closed, and the path is empty exactly when start and destination coincide |
| PathSearch.FindPaths | project.py:64-85 | the search returns `[[]]` at the destination, and every path it returns is a simple open path to the destination avoiding `visited` |
| PathSearch.Explore | project.py:76-85 | every path the loop over the neighbours returns starts with an open road to an unvisited neighbour and continues with a simple open path from there |
| PathSearch.FindPathsComplete | project.py:64-85 | every simple open path from the current intersection to the destination that avoids `visited` is found |
| PathSearch.ExploreComplete | project.py:76-85 | a path through a neighbour listed in the remaining keys is found by the loop |
| PathSearch.FindPathsExact | project.py:64-85 | a path is found if and only if it is simple, open and leads to the destination; the result is empty exactly when no such path exists |
| Routes.DistanceAppend | project.py:244-253 | the length of a concatenation is the sum of the lengths |
| Routes.DistanceCons | project.py:250-252 | putting a road in front of a path adds that road's length |
| Routes.DistancePositive | project.py:250-253 | a non-empty path over roads of positive length is longer than zero |
| Routes.ComputePathDistance | project.py:244-253 | the loop returns the sum of the lengths of the path's roads |
| Routes.FirstShortest | project.py:257-270 | the first position of a path of minimal length: no path is shorter, and every earlier path is strictly longer |
| Routes.ShortestPath | project.py:257-270 | the loop returns the first path of minimal length, which is one of the paths and no longer than any of them |
| Routes.NoRoute | project.py:215-217 | when start and end coincide or no path joins them the route is empty and its distance 0.0 |
| Routes.RouteIsFirstShortest | project.py:215-219 | when a path joins two distinct intersections, the route is the first shortest of the paths the search finds |
| Routes.RouteNoLonger | project.py:208-219 | no simple open path between distinct intersections is shorter than the route |
| Routes.RouteIsShortest | project.py:208-219 | when a path exists the route is itself a simple open path and no such path is shorter |
| Views.Translate | project.py:326-331 | a path of one network carried to a network with the same links is a path there with roads of the same lengths, position by position |
| Views.TranslateDistance | project.py:326-331 | a path and its translation have the same length |
| Views.RouteAcross | project.py:356-359 | when a path exists, the shortest distance in a network with the same view is no greater |
| Views.RouteDistanceSameView | project.py:356-359 | two networks with the same links and the same road lengths and closed flags have the same shortest distance between any two intersections |
| Views.Reopened | project.py:326-331 | the rebuilt network has every road open: the same intersections and table size, each road with its closed flag cleared |
| Views.ReopenedValid | project.py:101-105 | reopening every road keeps the invariants |
| Views.ReopenedOpen | project.py:105 | a network with no closed road is unchanged by reopening |
| Views.PerturbedValid | project.py:333-337 | an event keeps the invariants and the intersections |
| Views.SameViewPerturbed | project.py:333-337 | the same event on the same link of two networks with the same view leaves them with the same view |
| Views.EventView | project.py:318-339 | the network the analysis should see has the intersections of the original |
| Views.ClosureVisible | project3.py:28-31 | a closure always shows: the network with a road closed never has the view of the network with every road open |
| Network.RoadNetwork.constructor | project.py:140-142 | a new network has no intersections and no roads |
| Network.RoadNetwork.AddNode | project.py:144-153 | the new state is the old one with an intersection with no roads under `address`; the invariants hold and the keys grow by exactly `address` |
| Network.RoadNetwork.NewRoad | project.py:95-105 | the road constructor appends an open road with an empty traffic list and stores it in both endpoints' maps, keeping the invariants |
| Network.RoadNetwork.AddRoad | project.py:155-169 | the new state is the old one after `add_road`: missing endpoints created, the road appended, the invariants kept |
| Network.RoadNetwork.TopologyToDict | project.py:171-184 | the keys are exactly the addresses, each mapped to its neighbours' addresses; adjacency is symmetric and no address is its own neighbour |
| Network.RoadNetwork.GetNodeAddresses | project.py:186-188 | every address of the network exactly once |
| Network.RoadNetwork.GetRoads | project.py:190-196 | every road stored on some link exactly once, and no other road |
| Network.RoadNetwork.CollectRoads | project.py:192-195 | the loops over the intersections and their roads collect exactly the roads stored on some link |
| Network.RoadNetwork.FindPaths | project.py:198-206 | exactly the simple open paths from start to end, and `[[]]` when they coincide |
| Network.RoadNetwork.FindShortestPath | project.py:208-219 | the route: empty when start and end coincide or no path joins them, otherwise a simple open path that no such path beats |
| Network.RoadNetwork.InsertTraffic | project.py:221-229 | succeeds exactly when the endpoints are linked, and then doubles the length of the road on that link; on `KeyError` nothing changes |
| Network.RoadNetwork.InsertClosure | project.py:231-240 | succeeds exactly when the endpoints are linked, and then closes the road on that link; on `KeyError` nothing changes |
| WhatIf.CopyStep | project.py:326-331 | rebuilding one more road of the original, its endpoints in either order, extends the copy by that road's link, length and open flag |
| WhatIf.CopyRoads | project.py:326-331 | the rebuilding loop returns a fresh valid network that copies exactly the roads it went through: their links, their lengths, every road open |
| WhatIf.CopyDone | project.py:326-331 | a copy of every listed road has the view of the original with every road open, and its intersections are exactly those of the original that have a road |
| WhatIf.Duplicate | project.py:325-331 | the rebuilt network is fresh and valid, has the original's links and lengths with every road open, and drops intersections without roads; the original is not modified |
| WhatIf.EventOnCopy | project.py:333-337 | the copy links the selected pair exactly when the original does, and the event on the copy has the view of the original with every road open and the event applied |
| WhatIf.GeneratedView | project.py:318-339 | the copy's intersections, its success and its view follow from those of the rebuilt network |
| WhatIf.GenerateNetworkWithEvent | project.py:318-339 | a fresh network with the original's links and lengths, every road open, and the event applied to the selected road; it fails with `KeyError` exactly when the endpoints are not linked, and the input network is not modified |
| WhatIf.LastPositive | project.py:361-362 | the chosen position has a positive gain and every later gain is not positive; none is chosen exactly when no gain is positive |
| WhatIf.FirstLargest | project.py:343-350 | the chosen position has a positive gain that no gain exceeds and every earlier gain is smaller; none is chosen exactly when no gain is positive |
| WhatIf.LastPositiveStep | project.py:361-362 | one more road becomes the choice exactly when its gain is positive |
| WhatIf.FirstLargestStep | project.py:343-350 | one more road becomes the choice, and the threshold, exactly when its gain beats the threshold |
| WhatIf.RoadGain | project.py:355-359 | the loop body's difference of distances is the road's gain, and it fails with `KeyError` exactly when the start intersection has no road |
| WhatIf.MostValuableRoad | project.py:343-364 | `KeyError` exactly when there are roads and the start has none; otherwise the last listed road with a positive gain, or none |
| WhatIf.MostValuableRoadIntended | project.py:343-350 | `KeyError` in the same cases; otherwise the road with the largest positive gain, the first one on ties, or none |
| WhatIf.DisconnectingEvent | project.py:355-362 | an event that leaves no route from start to end has gain minus the original route distance, which is negative when a route existed over roads of positive length, so that road is never chosen |
| WhatIf.ThresholdNeverRaised | project.py:354-362 | with gains 2.0 then 1.0 the code as written picks the second road and the documented choice is the first |
| DraftWhatIf.Matches | project3.py:43-44 | the positions of the listed roads that are the given road object |
| DraftWhatIf.ForeignTarget | project3.py:44 | a road object of another network matches no road |
| DraftWhatIf.Doubled | project3.py:43-45 | each matched road's length doubles; endpoints, closed flags, traffic lists and every other road are unchanged |
| DraftWhatIf.Closed | project3.py:56-58 | each matched road is closed; endpoints, lengths, traffic lists and every other road are unchanged |
| DraftWhatIf.NoHit | project3.py:43-45 | with no match nothing changes |
| DraftWhatIf.ClosedTwice | project3.py:56-58 | closing the same roads twice is the same as closing them once |
| DraftWhatIf.DoubledStep | project3.py:44-45 | doubling one more matched road extends the doubled table by that road |
| DraftWhatIf.ClosedStep | project3.py:57-58 | closing one more matched road extends the closed table by that road |
| DraftWhatIf.VisitedStep | project3.py:43 | the loop meets each listed road once |
| DraftWhatIf.InsertTraffic | project3.py:36-45 | the intersections are kept, the matched roads' lengths double and nothing else changes; the invariants hold |
| DraftWhatIf.DoubleEach | project3.py:43-45 | the loop over the listed roads doubles exactly the matched roads and keeps the intersections |
| DraftWhatIf.CloseEach | project3.py:56-58 | the loop over the listed roads closes exactly the matched roads and keeps the intersections |
| DraftWhatIf.InsertClosure | project3.py:48-58 | the intersections are kept, the matched roads are closed and nothing else changes; the invariants hold |
| DraftWhatIf.GenerateNetworkWithEvent | project3.py:12-33 | as written the copy has the view of the original with every road open: the event is never applied |
| DraftWhatIf.DraftGainOpen | project3.py:88-94 | on a network with no closed road every road's gain is 0.0 |
| DraftWhatIf.DraftRoadGain | project3.py:89-91 | each road's gain is that of reopening every road, whatever the road, and `KeyError` exactly when the start has no road |
| DraftWhatIf.DraftChoose | project3.py:88-94 | the loop over the roads fails with `KeyError` exactly when there is a road and the start has none, and otherwise picks the last road when reopening every road lengthens the route, none otherwise |
| DraftWhatIf.MostValuableRoad | project3.py:76-96 | `KeyError` exactly when there are roads and the start has none; otherwise the last listed road when reopening every road lengthens the route, and none otherwise |

## Left out

- Loading a network from CSV (`load_road_network`), the drawing functions, `path_to_edges`, `visualize_shortest_path_graph_with_event` and the command-line runner are file I/O and plotting; they are not part of this model. `random.choice` is part of the runner only.
- The `check_contracts` decorators, doctest and python_ta are tooling and are not modelled.
- Lengths are exact reals: floating-point rounding of sums and of `*= 2` is not modelled.
- Iteration order of sets is unspecified in the source. `get_roads` may return its roads in any order, and the model lets the order be any listing of them. Which endpoint of a road comes first (`tuple(road.endpoints)`, `list(road.endpoints)`) is a free choice in the model. The shortest-path tie rule depends on the search's order, which follows dictionary insertion order. The choice of `most_valuable_road` depends on the order of `get_roads`: as written it returns the last road in that order with a positive gain, and the first draft returns the last road listed; both methods return that order (`order`) so that their contracts can name it.
- A road is identified by its position in its network's table; the road object shared by the two intersections' maps is that one entry. A road whose link was overwritten by re-adding the pair stays in the table but is reachable from no intersection, as the orphaned object is in the source.
- The element type of `Road.traffic` is not given in the source; the model uses a sequence of integers that is always empty.
- The complete version's road has a `closed` flag and no `traffic` list, and the first draft's road has the list and gains a `closed` attribute only when closed; the model gives every road both.
- Routes.ComputePathDistance: the source states the precondition `path != []`, but `most_valuable_road` calls it on the empty route, on which the loop returns 0.0; the model drops that precondition so that those calls are modelled as they run. The consequence (WhatIf.DisconnectingEvent): an event that cuts the start off from the end leaves no route in the copy, weighed as 0.0, so its gain is minus the original distance, negative whenever a route existed over roads of positive length, and neither choice ever picks that road although it changes the route the most. What the authors meant for an unreachable end is not stated, so the model keeps the as-written behaviour and offers no corrected gain.
- Network.RoadNetwork.InsertTraffic: the `KeyError` raised when the endpoints are not linked is modelled as the result `false` with the network unchanged; the same holds for Network.RoadNetwork.InsertClosure and WhatIf.GenerateNetworkWithEvent.
- WhatIf.MostValuableRoad: returns the chosen road's position in the table rather than the road object, and models the `KeyError` of looking up an unknown start as `Result.KeyError`; the same holds for the intended and draft versions.
- Network.RoadNetwork.InsertTraffic: requires the road given to have two distinct endpoints, which every road a network builds has (`add_road` requires `address1 != address2`); the same holds for Network.RoadNetwork.InsertClosure and WhatIf.GenerateNetworkWithEvent.
- The first draft imports `get_roads`, `find_shortest_path` and `compute_path_distance` from a module that does not define them; the model uses the complete version's definitions.
- Not modifying the input network in `generate_network_with_event` and `most_valuable_road` is stated by the frames: those methods may modify nothing that existed before the call.

## Findings

| source | as written | input that shows it | evidently intended | confidence | as-written member | corrected member |
|---|---|---|---|---|---|---|
| project.py:354-362 | the threshold `max_distance` stays 0, so every road with a positive gain replaces the choice and the last one wins | two roads listed in order with gains 2.0 and 1.0: the second is returned | the road with the largest gain, the first on ties, as the documentation says | high, not executed | WhatIf.MostValuableRoad | WhatIf.MostValuableRoadIntended |
| project3.py:12-58 | two causes: the rebuilding loop rebinds the name `road` (lines 21, 29, 31), so the event is aimed at the last road of the original network; and `insert_traffic` and `insert_closure` match by identity against the copy's roads (lines 44, 57), which are all new objects, so no road of the original, the parameter included, is ever hit; the event is never applied | any network with a road and the event `closure`: the copy keeps every road open | the copy has the event applied to the selected road; the corrected member looks the road up by its endpoints' addresses, as project.py:228-229 does, instead of matching by identity | high, not executed | DraftWhatIf.GenerateNetworkWithEvent | WhatIf.GenerateNetworkWithEvent |
