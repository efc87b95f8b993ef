/** The what-if analysis: rebuild a network road by road, apply an event (traffic or a closure)
    to one road of the copy, and compare the shortest distance between two intersections before
    and after, road by road. */
module WhatIf {
  import opened RoadGraph
  import opened PathSearch
  import opened Routes
  import opened Views
  import opened Network

  /** The road stored between `a` and `b` in the copy `c` has the length of the one stored there
      in `g` and is open. */
  ghost predicate CopyAgree(c: Graph, g: Graph, a: int, b: int)
    requires c.Linked(a, b) && g.Linked(a, b)
  {
    && c.RoadAt(a, b) < |c.roads| && g.RoadAt(a, b) < |g.roads|
    && c.roads[c.RoadAt(a, b)].length == g.roads[g.RoadAt(a, b)].length
    && !c.roads[c.RoadAt(a, b)].closed
  }

  /** The copy `c` links exactly the pairs the roads of `g` at the positions in `done` join. */
  ghost predicate CopyLinks(c: Graph, g: Graph, done: set<RoadId>) {
    forall a, b :: c.Linked(a, b) <==> g.Linked(a, b) && g.RoadAt(a, b) in done
  }

  /** Each road of the copy has the length of the road of `g` on the same link, and is open. */
  ghost predicate CopyAgrees(c: Graph, g: Graph) {
    forall a, b :: c.Linked(a, b) ==> g.Linked(a, b) && CopyAgree(c, g, a, b)
  }

  /** Every intersection of the copy has a road. */
  ghost predicate NoIsolated(c: Graph) {
    forall a :: a in c.nodes ==> c.HasRoad(a)
  }

  /** `c` is a copy of the roads of `g` at the positions in `done`: it links exactly the pairs
      those roads join, over open roads of the same lengths, and has no intersection without a
      road. */
  ghost predicate CopyOf(c: Graph, g: Graph, done: set<RoadId>) {
    CopyLinks(c, g, done) && CopyAgrees(c, g) && NoIsolated(c)
  }

  /** The links after adding to the copy the road at position `id` of `g`. */
  lemma CopyStepLinks(c: Graph, g: Graph, done: set<RoadId>, id: RoadId, a1: int, a2: int, length: real)
    requires g.Valid() && CopyLinks(c, g, done) && g.Current(id) && g.roads[id].Joins(a1, a2)
    requires forall a, b :: c.WithRoad(a1, a2, length).Linked(a, b) <==>
               (c.Linked(a, b) || (a == a1 && b == a2) || (a == a2 && b == a1))
    ensures CopyLinks(c.WithRoad(a1, a2, length), g, done + {id})
  {
    var c' := c.WithRoad(a1, a2, length);
    var r := g.roads[id];
    forall a, b
      ensures c'.Linked(a, b) <==> g.Linked(a, b) && g.RoadAt(a, b) in done + {id}
    {
      if g.Linked(a, b) {
        RoadAtInjective(g, a, b, r.end1, r.end2);
      }
      if (a == a1 && b == a2) || (a == a2 && b == a1) {
        LinkSymmetric(g, r.end1, r.end2);
      }
    }
  }

  /** The roads after adding to the copy the road at position `id` of `g`. */
  lemma CopyStepAgrees(c: Graph, g: Graph, id: RoadId, a1: int, a2: int)
    requires CopyAgrees(c, g) && g.Valid() && g.Current(id) && g.roads[id].Joins(a1, a2)
    requires c.Valid() && a1 != a2
    ensures CopyAgrees(c.WithRoad(a1, a2, g.roads[id].length), g)
  {
    var r := g.roads[id];
    var c' := c.WithRoad(a1, a2, r.length);
    WithRoadLinks(c, a1, a2, r.length);
    WithRoadValid(c, a1, a2, r.length);
    forall a, b | c'.Linked(a, b)
      ensures g.Linked(a, b) && CopyAgree(c', g, a, b)
    {
      if (a == a1 && b == a2) || (a == a2 && b == a1) {
        LinkSymmetric(g, r.end1, r.end2);
        assert c'.RoadAt(a, b) == |c.roads|;
        assert g.RoadAt(a, b) == id;
      } else {
        assert c.Linked(a, b) && CopyAgree(c, g, a, b);
      }
    }
  }

  /** No intersection is left without a road after adding a road. */
  lemma CopyStepNodes(c: Graph, a1: int, a2: int, length: real)
    requires c.Valid() && NoIsolated(c) && a1 != a2
    ensures NoIsolated(c.WithRoad(a1, a2, length))
  {
    var c' := c.WithRoad(a1, a2, length);
    WithRoadLinks(c, a1, a2, length);
    WithRoadValid(c, a1, a2, length);
    forall a | a in c'.nodes
      ensures c'.HasRoad(a)
    {
      if a != a1 && a != a2 {
        var b := Neighbour(c, a);
        assert c'.Linked(a, b);
      } else if a == a1 {
        assert c'.Linked(a1, a2);
      } else {
        assert c'.Linked(a2, a1);
      }
    }
  }

  /** Adding to the copy the road at position `id` of `g`, its endpoints named in either order,
      extends the copy by that road. */
  lemma CopyStep(c: Graph, g: Graph, done: set<RoadId>, id: RoadId, a1: int, a2: int)
    requires c.Valid() && g.Valid() && CopyOf(c, g, done)
    requires g.Current(id) && g.roads[id].Joins(a1, a2)
    ensures a1 != a2
    ensures CopyOf(c.WithRoad(a1, a2, g.roads[id].length), g, done + {id})
  {
    var length := g.roads[id].length;
    WithRoadLinks(c, a1, a2, length);
    CopyStepLinks(c, g, done, id, a1, a2, length);
    CopyStepAgrees(c, g, id, a1, a2);
    CopyStepNodes(c, a1, a2, length);
  }

  /** A copy of every reachable road of `g` has the view of `g` with every road open, and its
      intersections are those of `g` that have a road. */
  lemma CopyDone(c: Graph, g: Graph, done: set<RoadId>)
    requires g.Valid() && CopyOf(c, g, done)
    requires forall id :: id in done <==> g.Current(id)
    ensures SameView(c, Reopened(g))
    ensures forall a :: a in c.nodes <==> g.HasRoad(a)
  {
    var r := Reopened(g);
    forall a, b
      ensures c.Linked(a, b) <==> r.Linked(a, b)
    {
      if g.Linked(a, b) {
        LinkedCurrent(g, a, b);
      }
    }
    forall a, b | c.Linked(a, b)
      ensures Agree(c, r, a, b)
    {
      assert CopyAgree(c, g, a, b);
    }
    forall a
      ensures a in c.nodes <==> g.HasRoad(a)
    {
      if a in c.nodes {
        var b := Neighbour(c, a);
        assert g.Linked(a, b);
      }
      if g.HasRoad(a) {
        var b := Neighbour(g, a);
        LinkedCurrent(g, a, b);
        assert c.Linked(a, b);
      }
    }
  }

  lemma PrefixStep(rs: seq<RoadId>, k: nat)
    requires k < |rs|
    ensures forall id :: id in rs[..k + 1] <==> id in rs[..k] || id == rs[k]
  {
    assert rs[..k + 1] == rs[..k] + [rs[k]];
  }

  /** One turn of the rebuilding loop: adding road `rs[k]` to a copy of the roads before it
      gives a copy of the first `k + 1` roads. */
  lemma CopyTurn(c: Graph, g: Graph, done: set<RoadId>, rs: seq<RoadId>, k: nat, a1: int, a2: int)
    requires c.Valid() && g.Valid() && CopyOf(c, g, done)
    requires k < |rs| && forall id :: id in done <==> id in rs[..k]
    requires g.Current(rs[k]) && g.roads[rs[k]].Joins(a1, a2)
    ensures a1 != a2
    ensures CopyOf(c.WithRoad(a1, a2, g.roads[rs[k]].length), g, done + {rs[k]})
    ensures forall id :: id in done + {rs[k]} <==> id in rs[..k + 1]
  {
    CopyStep(c, g, done, rs[k], a1, a2);
    PrefixStep(rs, k);
  }

  /** The first half of `generate_network_with_event`: a fresh network built by adding, for
      each road `get_roads` lists, a road between the same two addresses with the same length.
      Also returns the list it went through. */
  method Duplicate(network: RoadNetwork) returns (copy: RoadNetwork, rs: seq<RoadId>)
    requires network.Valid()
    ensures fresh(copy) && copy.Valid()
    ensures forall i, j :: 0 <= i < j < |rs| ==> rs[i] != rs[j]
    ensures forall id :: id in rs <==> network.Value().Current(id)
    ensures SameView(copy.Value(), Reopened(network.Value()))
    ensures forall a :: a in copy.nodes <==> network.Value().HasRoad(a)
  {
    rs := network.GetRoads();
    ghost var done;
    copy, done := CopyRoads(network, rs);
    CopyDone(copy.Value(), network.Value(), done);
  }

  /** The loop of `generate_network_with_event` that rebuilds the roads of `rs` in a fresh
      network; `done` is the set of roads it went through. */
  method CopyRoads(network: RoadNetwork, rs: seq<RoadId>) returns (copy: RoadNetwork, ghost done: set<RoadId>)
    requires network.Valid()
    requires forall id :: id in rs ==> network.Value().Current(id)
    ensures fresh(copy) && copy.Valid()
    ensures forall id :: id in done <==> id in rs
    ensures CopyOf(copy.Value(), network.Value(), done)
  {
    copy := new RoadNetwork();
    ghost var g := network.Value();
    done := {};
    for k := 0 to |rs|
      invariant fresh(copy) && copy.Valid()
      invariant forall id :: id in done <==> id in rs[..k]
      invariant CopyOf(copy.Value(), g, done)
    {
      assert rs[k] in rs;
      var road := network.roads[rs[k]];
      var address1 :| address1 in {road.end1, road.end2};
      var address2 := if address1 == road.end1 then road.end2 else road.end1;
      CopyTurn(copy.Value(), g, done, rs, k, address1, address2);
      copy.AddRoad(address1, address2, road.length);
      done := done + {rs[k]};
    }
    assert rs[..|rs|] == rs;
  }

  /** An event on a copy with every road open has the effect the analysis expects: the copy
      links the pair exactly when `g` does, and the perturbed copy has the view of `g` with every
      road open and the event applied. */
  lemma EventOnCopy(c: Graph, g: Graph, a: int, b: int, ev: Event)
    requires c.LinksOk() && g.Valid() && SameView(c, Reopened(g))
    ensures c.Linked(a, b) <==> g.Linked(a, b)
    ensures g.Linked(a, b) ==> c.RoadAt(a, b) < |c.roads|
    ensures g.Linked(a, b) ==> SameView(Perturbed(c, a, b, ev), EventView(g, a, b, ev))
  {
    var r := Reopened(g);
    assert r.Linked(a, b) <==> g.Linked(a, b);
    if g.Linked(a, b) {
      ValidLinksOk(g);
      ReopenedLinksOk(g);
      SameViewPerturbed(c, r, a, b, ev);
    }
  }

  /** `generate_network_with_event`: a copy of the network with the event applied to the road
      stored between the endpoints of `selectedRoad`. The copy has every road open, the same
      links and lengths as the network, and none of its intersections without a road; the input
      network is not changed. Fails when the endpoints are not linked (the lookup in the copy
      raises `KeyError`). */
  method GenerateNetworkWithEvent(network: RoadNetwork, selectedRoad: Road, event: Event)
    returns (eventNetwork: RoadNetwork, ok: bool)
    requires network.Valid() && selectedRoad.end1 != selectedRoad.end2
    ensures fresh(eventNetwork) && eventNetwork.Valid()
    ensures forall a :: a in eventNetwork.nodes <==> network.Value().HasRoad(a)
    ensures ok <==> network.Value().Linked(selectedRoad.end1, selectedRoad.end2)
    ensures ok ==> SameView(eventNetwork.Value(),
                            EventView(network.Value(), selectedRoad.end1, selectedRoad.end2, event))
    ensures !ok ==> SameView(eventNetwork.Value(), Reopened(network.Value()))
  {
    ghost var g := network.Value();
    var rs;
    eventNetwork, rs := Duplicate(network);
    ghost var c := eventNetwork.Value();
    EventOnCopy(c, g, selectedRoad.end1, selectedRoad.end2, event);
    match event
    case Traffic =>
      ok := eventNetwork.InsertTraffic(selectedRoad);
    case Closure =>
      ok := eventNetwork.InsertClosure(selectedRoad);
    assert network.Value() == g;
    assert eventNetwork.Value() == if ok then Perturbed(c, selectedRoad.end1, selectedRoad.end2, event) else c;
    ValidLinksOk(c);
    GeneratedView(g, c, eventNetwork.Value(), selectedRoad.end1, selectedRoad.end2, event, ok);
  }

  /** The facts `generate_network_with_event` promises, from those about its copy. */
  lemma GeneratedView(g: Graph, c: Graph, h: Graph, a: int, b: int, ev: Event, ok: bool)
    requires g.Valid() && c.LinksOk() && SameView(c, Reopened(g))
    requires forall x :: x in c.nodes <==> g.HasRoad(x)
    requires ok <==> c.Linked(a, b)
    requires ok ==> c.RoadAt(a, b) < |c.roads| && h == Perturbed(c, a, b, ev)
    requires !ok ==> h == c
    ensures forall x :: x in h.nodes <==> g.HasRoad(x)
    ensures ok <==> g.Linked(a, b)
    ensures ok ==> SameView(h, EventView(g, a, b, ev))
    ensures !ok ==> SameView(h, Reopened(g))
  {
    EventOnCopy(c, g, a, b, ev);
  }

  /** How much the event on road `id` lengthens the shortest route from `s` to `e`: the
      distance in the perturbed copy minus the distance in `g` (each 0.0 when there is no
      route). */
  ghost function Gain(g: Graph, id: RoadId, ev: Event, s: int, e: int): real
    requires g.Valid() && g.Current(id) && s in g.nodes
  {
    var r := g.roads[id];
    EventViewValid(g, r.end1, r.end2, ev);
    RouteDistance(EventView(g, r.end1, r.end2, ev), s, e) - RouteDistance(g, s, e)
  }

  /** The gain of each road of `order`, in that order. */
  ghost function Gains(g: Graph, order: seq<RoadId>, ev: Event, s: int, e: int): (gains: seq<real>)
    requires g.Valid() && (order == [] || s in g.nodes)
    requires forall id :: id in order ==> g.Current(id)
    ensures |gains| == |order|
    ensures forall i :: 0 <= i < |order| ==> gains[i] == Gain(g, order[i], ev, s, e)
  {
    seq(|order|, i requires 0 <= i < |order| => assert order[i] in order; Gain(g, order[i], ev, s, e))
  }

  /** The position of the last positive gain, if any. */
  function LastPositive(gains: seq<real>): (k: Option<nat>)
    ensures k.Some? ==> k.value < |gains| && gains[k.value] > 0.0
    ensures k.Some? ==> forall j :: k.value < j < |gains| ==> gains[j] <= 0.0
    ensures k.None? <==> forall j :: 0 <= j < |gains| ==> gains[j] <= 0.0
    decreases |gains|
  {
    if gains == [] then None
    else if gains[|gains| - 1] > 0.0 then Some(|gains| - 1)
    else
      var k := LastPositive(gains[..|gains| - 1]);
      assert forall j :: 0 <= j < |gains| - 1 ==> gains[..|gains| - 1][j] == gains[j];
      k
  }

  /** The position of the largest gain, the first one on ties, if it is positive. */
  function FirstLargest(gains: seq<real>): (k: Option<nat>)
    ensures k.Some? ==> k.value < |gains| && gains[k.value] > 0.0
    ensures k.Some? ==> forall j :: 0 <= j < |gains| ==> gains[j] <= gains[k.value]
    ensures k.Some? ==> forall j :: 0 <= j < k.value ==> gains[j] < gains[k.value]
    ensures k.None? <==> forall j :: 0 <= j < |gains| ==> gains[j] <= 0.0
    decreases |gains|
  {
    if gains == [] then None
    else
      var k := FirstLargest(gains[..|gains| - 1]);
      assert forall j :: 0 <= j < |gains| - 1 ==> gains[..|gains| - 1][j] == gains[j];
      var best := if k.Some? then gains[k.value] else 0.0;
      if gains[|gains| - 1] > best then Some(|gains| - 1) else k
  }

  /** The largest gain when it is positive, else 0.0: the threshold the intended loop keeps. */
  function Best(gains: seq<real>): real {
    var k := FirstLargest(gains);
    if k.Some? then gains[k.value] else 0.0
  }

  /** One more gain: it becomes the choice exactly when it is positive. */
  lemma LastPositiveStep(gains: seq<real>, k: nat)
    requires k < |gains|
    ensures LastPositive(gains[..k + 1]) == if gains[k] > 0.0 then Some(k) else LastPositive(gains[..k])
  {
    assert gains[..k + 1][..k] == gains[..k];
  }

  /** One more gain: it becomes the choice, and the threshold, exactly when it beats the
      threshold. */
  lemma FirstLargestStep(gains: seq<real>, k: nat)
    requires k < |gains|
    ensures FirstLargest(gains[..k + 1]) == if gains[k] > Best(gains[..k]) then Some(k) else FirstLargest(gains[..k])
    ensures Best(gains[..k + 1]) == if gains[k] > Best(gains[..k]) then gains[k] else Best(gains[..k])
  {
    assert gains[..k + 1][..k] == gains[..k];
  }

  /** The road at position `k` of `order`, if there is one. */
  function Pick(order: seq<RoadId>, k: Option<nat>): Option<RoadId>
    requires k.Some? ==> k.value < |order|
  {
    if k.Some? then Some(order[k.value]) else None
  }

  /** The gain the loop body of `most_valuable_road` computes for road `id`: it builds the
      perturbed copy, reads the shortest distance in it and in the network, and takes the
      difference. Fails with `KeyError` when `start` has no road, so the copy lacks it. */
  method RoadGain(network: RoadNetwork, id: RoadId, start: int, end: int, event: Event)
    returns (result: Result<real>)
    requires network.Valid() && network.Value().Current(id)
    ensures result.KeyError? <==> !network.Value().HasRoad(start)
    ensures result.KeyError? ==> result.key == start
    ensures result.Success? ==> result.value == Gain(network.Value(), id, event, start, end)
  {
    ghost var g := network.Value();
    var road := network.roads[id];
    var eventNetwork, ok := GenerateNetworkWithEvent(network, road, event);
    if start !in eventNetwork.nodes {
      return KeyError(start);
    }
    var updatedPath := eventNetwork.FindShortestPath(start, end);
    var updatedDistance := ComputePathDistance(eventNetwork.roads, updatedPath);
    var originalPath := network.FindShortestPath(start, end);
    var originalDistance := ComputePathDistance(network.roads, originalPath);
    EventViewValid(g, road.end1, road.end2, event);
    RouteDistanceSameView(eventNetwork.Value(), EventView(g, road.end1, road.end2, event), start, end);
    result := Success(updatedDistance - originalDistance);
  }

  /** `most_valuable_road` as written: every road whose gain is positive replaces the choice,
      because the threshold stays at 0. The result is the LAST road, in the order `get_roads`
      lists them, whose event lengthens the shortest route, not the one that lengthens it most.
      `order` is that list. */
  method MostValuableRoad(network: RoadNetwork, start: int, end: int, event: Event)
    returns (result: Result<Option<RoadId>>, ghost order: seq<RoadId>)
    requires network.Valid()
    ensures forall i, j :: 0 <= i < j < |order| ==> order[i] != order[j]
    ensures forall id :: id in order <==> network.Value().Current(id)
    ensures result.KeyError? <==> order != [] && !network.Value().HasRoad(start)
    ensures result.KeyError? ==> result.key == start
    ensures result.Success? ==> result.value == Pick(order, LastPositive(Gains(network.Value(), order, event, start, end)))
  {
    ghost var g := network.Value();
    var roads := network.GetRoads();
    order := roads;
    var selected: Option<RoadId> := None;
    var maxDistance := 0.0;
    for k := 0 to |roads|
      invariant k > 0 ==> g.HasRoad(start)
      invariant k > 0 ==> selected == Pick(roads, LastPositive(Gains(g, roads, event, start, end)[..k]))
      invariant k == 0 ==> selected == None
    {
      assert roads[k] in roads;
      var gain := RoadGain(network, roads[k], start, end, event);
      if gain.KeyError? {
        return KeyError(start), order;
      }
      LastPositiveStep(Gains(g, roads, event, start, end), k);
      if gain.value > maxDistance {
        selected := Some(roads[k]);
      }
    }
    if roads != [] {
      assert Gains(g, roads, event, start, end)[..|roads|] == Gains(g, roads, event, start, end);
    }
    result := Success(selected);
  }

  /** The choice the documentation describes: the road whose event lengthens the shortest route
      most, the first one found on ties, and none when no road's event lengthens it. The
      threshold follows the largest gain seen so far. */
  method MostValuableRoadIntended(network: RoadNetwork, start: int, end: int, event: Event)
    returns (result: Result<Option<RoadId>>, ghost order: seq<RoadId>)
    requires network.Valid()
    ensures forall i, j :: 0 <= i < j < |order| ==> order[i] != order[j]
    ensures forall id :: id in order <==> network.Value().Current(id)
    ensures result.KeyError? <==> order != [] && !network.Value().HasRoad(start)
    ensures result.KeyError? ==> result.key == start
    ensures result.Success? ==> result.value == Pick(order, FirstLargest(Gains(network.Value(), order, event, start, end)))
  {
    ghost var g := network.Value();
    var roads := network.GetRoads();
    order := roads;
    var selected: Option<RoadId> := None;
    var maxDistance := 0.0;
    for k := 0 to |roads|
      invariant k > 0 ==> g.HasRoad(start)
      invariant k > 0 ==> selected == Pick(roads, FirstLargest(Gains(g, roads, event, start, end)[..k]))
      invariant k > 0 ==> maxDistance == Best(Gains(g, roads, event, start, end)[..k])
      invariant k == 0 ==> selected == None && maxDistance == 0.0
    {
      assert roads[k] in roads;
      var gain := RoadGain(network, roads[k], start, end, event);
      if gain.KeyError? {
        return KeyError(start), order;
      }
      FirstLargestStep(Gains(g, roads, event, start, end), k);
      if gain.value > maxDistance {
        selected := Some(roads[k]);
        maxDistance := gain.value;
      }
    }
    if roads != [] {
      assert Gains(g, roads, event, start, end)[..|roads|] == Gains(g, roads, event, start, end);
    }
    result := Success(selected);
  }

  /** An event that cuts `s` off from `e` gets a negative gain as written: the copy has no route,
      which weighs 0.0, so the gain is minus the distance in `g`, below zero whenever a route
      existed over roads of positive length. Neither choice ever picks such a road, although it
      changes the route the most. */
  lemma DisconnectingEvent(g: Graph, id: RoadId, ev: Event, s: int, e: int)
    requires g.Valid() && g.Current(id) && s in g.nodes
    requires forall p :: !IsPath(EventView(g, g.roads[id].end1, g.roads[id].end2, ev), s, e, p, {})
    ensures Gain(g, id, ev, s, e) == -RouteDistance(g, s, e)
    ensures (&& s != e
             && (exists p :: IsPath(g, s, e, p, {}))
             && (forall i :: 0 <= i < |g.roads| ==> g.roads[i].length > 0.0))
            ==> Gain(g, id, ev, s, e) < 0.0
  {
    var r := g.roads[id];
    EventViewValid(g, r.end1, r.end2, ev);
    NoRoute(EventView(g, r.end1, r.end2, ev), s, e);
    if s != e && (exists p :: IsPath(g, s, e, p, {}))
       && (forall i :: 0 <= i < |g.roads| ==> g.roads[i].length > 0.0)
    {
      var p :| IsPath(g, s, e, p, {});
      RouteIsShortest(g, s, e, p);
      PathShape(g, s, e, ShortestRoute(g, s, e), {});
      DistancePositive(g.roads, ShortestRoute(g, s, e));
    }
  }

  /** The two choices differ: with gains 2.0 and then 1.0 the code as written picks the second
      road and the documented choice is the first. */
  lemma ThresholdNeverRaised()
    ensures LastPositive([2.0, 1.0]) == Some(1)
    ensures FirstLargest([2.0, 1.0]) == Some(0)
  {
    assert [2.0, 1.0][..1] == [2.0];
    assert [2.0][..0] == [];
  }
}
