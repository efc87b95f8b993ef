/** The first draft of the what-if analysis. Its `insert_traffic` and `insert_closure` walk the
    roads of a network and change those that are the very road object they were given. Its
    `generate_network_with_event` can never hit a road for two reasons: the loop that rebuilds
    the network reuses the name of the road parameter, so the road passed on is the last road of
    the original network; and even the parameter itself is a road of the original network, while
    the copy holds only new road objects, so an identity match against the copy's roads fails
    either way (`ForeignTarget`). The event is therefore never applied. The complete version
    looks the road up by its endpoints' addresses instead. */
module DraftWhatIf {
  import opened RoadGraph
  import opened PathSearch
  import opened Routes
  import opened Views
  import opened Network
  import WhatIf

  /** A road object: the network whose table holds it and its position there. Two references
      are equal exactly when they denote the same object. */
  datatype RoadRef = RoadRef(owner: RoadNetwork, id: RoadId)

  /** The positions of the roads `get_roads` lists for `network`, whose state is `g`, that are
      the object `target`. */
  ghost function Matches(g: Graph, network: RoadNetwork, target: RoadRef): (hit: set<RoadId>)
    ensures forall id :: id in hit <==> g.Current(id) && RoadRef(network, id) == target
  {
    if target.owner == network && g.Current(target.id) then {target.id} else {}
  }

  /** No road of a network is an object of another network. */
  lemma ForeignTarget(g: Graph, network: RoadNetwork, target: RoadRef)
    requires target.owner != network
    ensures Matches(g, network, target) == {}
  {
  }

  /** The table with the length of each road at a position in `hit` doubled. */
  function Doubled(roads: seq<Road>, hit: set<RoadId>): (rs: seq<Road>)
    ensures |rs| == |roads|
    ensures forall i :: 0 <= i < |roads| ==>
              && rs[i].end1 == roads[i].end1 && rs[i].end2 == roads[i].end2
              && rs[i].closed == roads[i].closed && rs[i].traffic == roads[i].traffic
              && rs[i].length == (if i in hit then 2.0 * roads[i].length else roads[i].length)
  {
    seq(|roads|, i requires 0 <= i < |roads| =>
      if i in hit then roads[i].(length := 2.0 * roads[i].length) else roads[i])
  }

  /** The table with each road at a position in `hit` closed. */
  function Closed(roads: seq<Road>, hit: set<RoadId>): (rs: seq<Road>)
    ensures |rs| == |roads|
    ensures forall i :: 0 <= i < |roads| ==>
              && rs[i].end1 == roads[i].end1 && rs[i].end2 == roads[i].end2
              && rs[i].length == roads[i].length && rs[i].traffic == roads[i].traffic
              && rs[i].closed == (i in hit || roads[i].closed)
  {
    seq(|roads|, i requires 0 <= i < |roads| =>
      if i in hit then roads[i].(closed := true) else roads[i])
  }

  /** Doubling no road changes nothing; closing no road changes nothing. */
  lemma NoHit(roads: seq<Road>)
    ensures Doubled(roads, {}) == roads && Closed(roads, {}) == roads
  {
    assert forall i :: 0 <= i < |roads| ==> Doubled(roads, {})[i] == roads[i];
    assert forall i :: 0 <= i < |roads| ==> Closed(roads, {})[i] == roads[i];
  }

  /** Closing the same roads twice closes them once. */
  lemma ClosedTwice(roads: seq<Road>, hit: set<RoadId>)
    ensures Closed(Closed(roads, hit), hit) == Closed(roads, hit)
  {
    var once := Closed(roads, hit);
    assert forall i :: 0 <= i < |roads| ==> Closed(once, hit)[i] == once[i];
  }

  /** Doubling one more road extends the doubled table by that road. */
  lemma DoubledStep(roads: seq<Road>, hit: set<RoadId>, id: RoadId)
    requires id < |roads| && id !in hit
    ensures Doubled(roads, hit)[id := roads[id].(length := 2.0 * roads[id].length)] == Doubled(roads, hit + {id})
  {
  }

  /** Closing one more road extends the closed table by that road. */
  lemma ClosedStep(roads: seq<Road>, hit: set<RoadId>, id: RoadId)
    requires id < |roads| && id !in hit
    ensures Closed(roads, hit)[id := roads[id].(closed := true)] == Closed(roads, hit + {id})
  {
  }

  /** Doubling or closing roads keeps the invariants: only lengths and closed flags change. */
  lemma ChangedValid(g: Graph, hit: set<RoadId>)
    requires g.Valid()
    ensures Graph(g.nodes, g.addresses, Doubled(g.roads, hit)).Valid()
    ensures Graph(g.nodes, g.addresses, Closed(g.roads, hit)).Valid()
  {
    SameEndpointsValid(g, Doubled(g.roads, hit));
    SameEndpointsValid(g, Closed(g.roads, hit));
  }

  /** The positions among the first `k` roads of `rs` that are in `hit`. */
  ghost function Visited(hit: set<RoadId>, rs: seq<RoadId>, k: nat): set<RoadId>
    requires k <= |rs|
  {
    set id | id in hit && id in rs[..k]
  }

  lemma VisitedStep(hit: set<RoadId>, rs: seq<RoadId>, k: nat)
    requires k < |rs| && forall i, j :: 0 <= i < j < |rs| ==> rs[i] != rs[j]
    ensures rs[k] !in Visited(hit, rs, k)
    ensures Visited(hit, rs, k + 1) == Visited(hit, rs, k) + (if rs[k] in hit then {rs[k]} else {})
  {
    assert rs[..k + 1] == rs[..k] + [rs[k]];
  }

  /** One turn of the draft `insert_traffic` loop: road `rs[k]` is not yet doubled, and
      doubling it when it is matched extends the doubled table to the first `k + 1` roads. */
  lemma TrafficTurn(roads: seq<Road>, hit: set<RoadId>, rs: seq<RoadId>, k: nat)
    requires k < |rs| && rs[k] < |roads|
    requires forall i, j :: 0 <= i < j < |rs| ==> rs[i] != rs[j]
    ensures Doubled(roads, Visited(hit, rs, k))[rs[k]] == roads[rs[k]]
    ensures Doubled(roads, Visited(hit, rs, k + 1)) ==
              if rs[k] in hit
              then Doubled(roads, Visited(hit, rs, k))[rs[k] := roads[rs[k]].(length := 2.0 * roads[rs[k]].length)]
              else Doubled(roads, Visited(hit, rs, k))
  {
    VisitedStep(hit, rs, k);
    if rs[k] in hit {
      DoubledStep(roads, Visited(hit, rs, k), rs[k]);
    }
  }

  /** One turn of the draft `insert_closure` loop. */
  lemma ClosureTurn(roads: seq<Road>, hit: set<RoadId>, rs: seq<RoadId>, k: nat)
    requires k < |rs| && rs[k] < |roads|
    requires forall i, j :: 0 <= i < j < |rs| ==> rs[i] != rs[j]
    ensures Closed(roads, Visited(hit, rs, k))[rs[k]] == roads[rs[k]]
    ensures Closed(roads, Visited(hit, rs, k + 1)) ==
              if rs[k] in hit
              then Closed(roads, Visited(hit, rs, k))[rs[k] := roads[rs[k]].(closed := true)]
              else Closed(roads, Visited(hit, rs, k))
  {
    VisitedStep(hit, rs, k);
    if rs[k] in hit {
      ClosedStep(roads, Visited(hit, rs, k), rs[k]);
    }
  }

  /** The draft `insert_traffic`: doubles the length of each road of the network that is the
      object `roadToEdit`, and changes nothing else. */
  method InsertTraffic(network: RoadNetwork, roadToEdit: RoadRef)
    requires network.Valid()
    modifies network
    ensures network.nodes == old(network.nodes) && network.addresses == old(network.addresses)
    ensures network.roads == Doubled(old(network.roads), Matches(old(network.Value()), network, roadToEdit))
    ensures network.Valid()
  {
    ghost var g := network.Value();
    var rs := network.GetRoads();
    DoubleEach(network, roadToEdit, rs, g);
    ChangedValid(g, Matches(g, network, roadToEdit));
  }

  /** The loop of the draft `insert_traffic` over the roads `rs` that `get_roads` listed for the
      network in state `g`. */
  method DoubleEach(network: RoadNetwork, roadToEdit: RoadRef, rs: seq<RoadId>, ghost g: Graph)
    requires network.Value() == g
    requires forall i, j :: 0 <= i < j < |rs| ==> rs[i] != rs[j]
    requires forall id :: id in rs <==> g.Current(id)
    modifies network
    ensures network.nodes == g.nodes && network.addresses == g.addresses
    ensures network.roads == Doubled(g.roads, Matches(g, network, roadToEdit))
  {
    ghost var hit := Matches(g, network, roadToEdit);
    NoHit(g.roads);
    assert rs[..0] == [];
    assert Visited(hit, rs, 0) == {};
    for k := 0 to |rs|
      invariant network.nodes == g.nodes && network.addresses == g.addresses
      invariant network.roads == Doubled(g.roads, Visited(hit, rs, k))
    {
      assert rs[k] in rs;
      TrafficTurn(g.roads, hit, rs, k);
      if RoadRef(network, rs[k]) == roadToEdit {
        var road := network.roads[rs[k]];
        network.roads := network.roads[rs[k] := road.(length := 2.0 * road.length)];
      }
    }
    assert rs[..|rs|] == rs;
    assert Visited(hit, rs, |rs|) == hit;
  }

  /** The draft `insert_closure`: closes each road of the network that is the object
      `roadToEdit`, and changes nothing else. */
  method InsertClosure(network: RoadNetwork, roadToEdit: RoadRef)
    requires network.Valid()
    modifies network
    ensures network.nodes == old(network.nodes) && network.addresses == old(network.addresses)
    ensures network.roads == Closed(old(network.roads), Matches(old(network.Value()), network, roadToEdit))
    ensures network.Valid()
  {
    ghost var g := network.Value();
    var rs := network.GetRoads();
    CloseEach(network, roadToEdit, rs, g);
    ChangedValid(g, Matches(g, network, roadToEdit));
  }

  /** The loop of the draft `insert_closure` over the roads `rs` that `get_roads` listed for the
      network in state `g`. */
  method CloseEach(network: RoadNetwork, roadToEdit: RoadRef, rs: seq<RoadId>, ghost g: Graph)
    requires network.Value() == g
    requires forall i, j :: 0 <= i < j < |rs| ==> rs[i] != rs[j]
    requires forall id :: id in rs <==> g.Current(id)
    modifies network
    ensures network.nodes == g.nodes && network.addresses == g.addresses
    ensures network.roads == Closed(g.roads, Matches(g, network, roadToEdit))
  {
    ghost var hit := Matches(g, network, roadToEdit);
    NoHit(g.roads);
    assert rs[..0] == [];
    assert Visited(hit, rs, 0) == {};
    for k := 0 to |rs|
      invariant network.nodes == g.nodes && network.addresses == g.addresses
      invariant network.roads == Closed(g.roads, Visited(hit, rs, k))
    {
      assert rs[k] in rs;
      ClosureTurn(g.roads, hit, rs, k);
      if RoadRef(network, rs[k]) == roadToEdit {
        var road := network.roads[rs[k]];
        network.roads := network.roads[rs[k] := road.(closed := true)];
      }
    }
    assert rs[..|rs|] == rs;
    assert Visited(hit, rs, |rs|) == hit;
  }

  /** The draft `generate_network_with_event` as written: the rebuilding loop leaves its loop
      variable, the last road of the original network, in place of the road parameter, and no
      road of the copy is that object (nor is the parameter, a road of the original too), so the
      copy comes back without the event: every road open, the links and lengths of the
      network. */
  method GenerateNetworkWithEvent(network: RoadNetwork, road: RoadRef, event: Event)
    returns (eventNetwork: RoadNetwork)
    requires network.Valid()
    ensures fresh(eventNetwork) && eventNetwork.Valid()
    ensures forall a :: a in eventNetwork.nodes <==> network.Value().HasRoad(a)
    ensures SameView(eventNetwork.Value(), Reopened(network.Value()))
  {
    var rs;
    eventNetwork, rs := WhatIf.Duplicate(network);
    var target := if rs == [] then road else RoadRef(network, rs[|rs| - 1]);
    ghost var c := eventNetwork.Value();
    ForeignTarget(c, eventNetwork, target);
    NoHit(c.roads);
    match event
    case Traffic =>
      InsertTraffic(eventNetwork, target);
    case Closure =>
      InsertClosure(eventNetwork, target);
    assert eventNetwork.Value() == c;
  }

  /** What the draft's loop body sees for every road: the shortest distance with every road
      open minus the shortest distance in the network. */
  ghost function DraftGain(g: Graph, s: int, e: int): real
    requires g.Valid() && s in g.nodes
  {
    ReopenedValid(g);
    RouteDistance(Reopened(g), s, e) - RouteDistance(g, s, e)
  }

  /** On a network with no closed road the draft sees no gain at all. */
  lemma DraftGainOpen(g: Graph, s: int, e: int)
    requires g.Valid() && s in g.nodes
    requires forall i :: 0 <= i < |g.roads| ==> !g.roads[i].closed
    ensures DraftGain(g, s, e) == 0.0
  {
    ReopenedOpen(g);
  }

  /** The loop body of the draft `most_valuable_road` for the road at `id`. */
  method DraftRoadGain(network: RoadNetwork, id: RoadId, start: int, end: int, event: Event)
    returns (result: Result<real>)
    requires network.Valid()
    ensures result.KeyError? <==> !network.Value().HasRoad(start)
    ensures result.KeyError? ==> result.key == start
    ensures result.Success? ==> result.value == DraftGain(network.Value(), start, end)
  {
    ghost var g := network.Value();
    var eventNetwork := GenerateNetworkWithEvent(network, RoadRef(network, id), event);
    if start !in eventNetwork.nodes {
      return KeyError(start);
    }
    var updatedPath := eventNetwork.FindShortestPath(start, end);
    var updatedDistance := ComputePathDistance(eventNetwork.roads, updatedPath);
    var originalPath := network.FindShortestPath(start, end);
    var originalDistance := ComputePathDistance(network.roads, originalPath);
    ReopenedValid(g);
    RouteDistanceSameView(eventNetwork.Value(), Reopened(g), start, end);
    result := Success(updatedDistance - originalDistance);
  }

  /** The draft `most_valuable_road`: every road sees the same gain, that of reopening every
      road, and the threshold stays at 0, so the result is the last road `get_roads` lists when
      that gain is positive and none otherwise. `order` is that list. */
  method MostValuableRoad(network: RoadNetwork, start: int, end: int, event: Event)
    returns (result: Result<Option<RoadId>>, ghost order: seq<RoadId>)
    requires network.Valid()
    ensures forall i, j :: 0 <= i < j < |order| ==> order[i] != order[j]
    ensures forall id :: id in order <==> network.Value().Current(id)
    ensures result.KeyError? <==> order != [] && !network.Value().HasRoad(start)
    ensures result.KeyError? ==> result.key == start
    ensures result.Success? ==>
              result.value == (if order != [] && DraftGain(network.Value(), start, end) > 0.0
                               then Some(order[|order| - 1]) else None)
  {
    var roads := network.GetRoads();
    order := roads;
    result := DraftChoose(network, roads, start, end, event);
  }

  /** The loop of the draft `most_valuable_road` over the roads `roads`. */
  method DraftChoose(network: RoadNetwork, roads: seq<RoadId>, start: int, end: int, event: Event)
    returns (result: Result<Option<RoadId>>)
    requires network.Valid()
    ensures result.KeyError? <==> roads != [] && !network.Value().HasRoad(start)
    ensures result.KeyError? ==> result.key == start
    ensures result.Success? ==>
              result.value == (if roads != [] && DraftGain(network.Value(), start, end) > 0.0
                               then Some(roads[|roads| - 1]) else None)
  {
    ghost var g := network.Value();
    var selected: Option<RoadId> := None;
    var largest := 0.0;
    for k := 0 to |roads|
      invariant k > 0 ==> g.HasRoad(start)
      invariant selected == if k > 0 && DraftGain(g, start, end) > 0.0 then Some(roads[k - 1]) else None
    {
      var gain := DraftRoadGain(network, roads[k], start, end, event);
      if gain.KeyError? {
        return KeyError(start);
      }
      if gain.value > largest {
        selected := Some(roads[k]);
      }
    }
    result := Success(selected);
  }
}
