/** The road-graph substrate: intersections keyed by integer address, each holding a map from
    neighbour address to the road that leads there, and the table of roads those maps point into.
    This module describes a road network as a value; the class in module Network holds the same
    three pieces of state as fields and updates them in place. */
module RoadGraph {

  datatype Option<T> = None | Some(value: T)

  /** The outcome of an operation that looks an address up in a dictionary: its value, or the
      `KeyError` raised for the missing address. */
  datatype Result<T> = Success(value: T) | KeyError(key: int)

  /** The position of a road in its network's road table. Two roads of one network are the same
      road object exactly when their positions are equal. */
  type RoadId = nat

  /** A road between the intersections at addresses `end1` and `end2` (the source keeps the two
      endpoints as a set; the order of the fields carries no meaning). `traffic` is the list the
      first draft of the substrate gives every road; nothing reads it. */
  datatype Road = Road(end1: int, end2: int, length: real, closed: bool, traffic: seq<int>)
  {
    predicate Touches(a: int) {
      a == end1 || a == end2
    }

    /** The endpoints of this road are exactly `a` and `b`. */
    predicate Joins(a: int, b: int) {
      (end1 == a && end2 == b) || (end1 == b && end2 == a)
    }

    /** The endpoint of this road that is not `a`. */
    function OtherEndpoint(a: int): (b: int)
      requires end1 != end2 && Touches(a)
      ensures b != a && Touches(b) && Joins(a, b)
    {
      if a == end1 then end2 else end1
    }
  }

  /** Taking the other endpoint twice leads back to where one started. */
  lemma OtherEndpointTwice(r: Road, a: int)
    requires r.end1 != r.end2 && r.Touches(a)
    ensures r.OtherEndpoint(r.OtherEndpoint(a)) == a
  {
  }

  /** An intersection: its address, the road leading to each neighbour (keyed by the neighbour's
      address) and the neighbours in the order they were first linked, which is the order in
      which a dictionary of the source language yields its keys. */
  datatype Node = Node(address: int, roads: map<int, RoadId>, order: seq<int>)
  {
    /** The dictionary assignment `roads[b] = id`: a new key goes to the end of the order, an
        existing key keeps its place and gets the new value. */
    function Link(b: int, id: RoadId): Node {
      Node(address, roads[b := id], if b in roads then order else order + [b])
    }
  }

  /** `keys` lists every element of `s` exactly once. */
  ghost predicate Lists(keys: seq<int>, s: set<int>) {
    && (forall i, j :: 0 <= i < j < |keys| ==> keys[i] != keys[j])
    && (forall k :: k in keys <==> k in s)
  }

  lemma Listed(keys: seq<int>, s: set<int>, i: int)
    requires Lists(keys, s) && 0 <= i < |keys|
    ensures keys[i] in s
  {
    assert keys[i] in keys;
  }

  /** The state of a road network: the intersections by address, the addresses in the order they
      were added, and the road table. */
  datatype Graph = Graph(nodes: map<int, Node>, addresses: seq<int>, roads: seq<Road>)
  {
    /** The intersection at `a` has a road to the neighbour at `b`. */
    predicate Linked(a: int, b: int) {
      a in nodes && b in nodes[a].roads
    }

    function RoadAt(a: int, b: int): RoadId
      requires Linked(a, b)
    {
      nodes[a].roads[b]
    }

    ghost predicate LinkOk(a: int, b: int)
      requires Linked(a, b)
    {
      var id := RoadAt(a, b);
      && a != b
      && id < |roads|
      && roads[id].Joins(a, b)
      && Linked(b, a)
      && RoadAt(b, a) == id
    }

    ghost predicate NodeOk(a: int)
      requires a in nodes
    {
      && nodes[a].address == a
      && Lists(nodes[a].order, nodes[a].roads.Keys)
      && (forall b :: b in nodes[a].roads ==> LinkOk(a, b))
    }

    /** The representation invariants: every intersection is stored under its own address, has
        no road to itself, and shares each of its roads with the neighbour at the other end
        (so adjacency is symmetric); every road in the table joins two distinct intersections
        that are still linked (by that road or by one that replaced it). */
    ghost predicate Valid() {
      && Lists(addresses, nodes.Keys)
      && (forall a :: a in nodes ==> NodeOk(a))
      && (forall id :: 0 <= id < |roads| ==> RoadOk(id))
    }

    /** Road `id` joins two distinct intersections that are linked. */
    ghost predicate RoadOk(id: RoadId)
      requires id < |roads|
    {
      roads[id].end1 != roads[id].end2 && Linked(roads[id].end1, roads[id].end2)
    }

    /** Every link is well formed; a consequence of `Valid` that mentions only the links. */
    ghost predicate LinksOk() {
      forall a, b :: Linked(a, b) ==> LinkOk(a, b)
    }

    /** The road stored between `a` and `b`. */
    function RoadOf(a: int, b: int): (r: Road)
      requires Valid() && Linked(a, b)
      ensures r.Joins(a, b) && r.end1 != r.end2
    {
      assert NodeOk(a) && LinkOk(a, b);
      roads[RoadAt(a, b)]
    }

    /** Road `id` is reachable from the intersections: the link between its endpoints points to
        it. A road whose link was overwritten by a later road for the same pair is not. */
    ghost predicate Current(id: RoadId) {
      && id < |roads|
      && Linked(roads[id].end1, roads[id].end2)
      && RoadAt(roads[id].end1, roads[id].end2) == id
    }

    /** `add_node`: a fresh intersection with no roads, stored under its own address. */
    function WithNode(a: int): Graph {
      Graph(nodes[a := Node(a, map[], [])], addresses + [a], roads)
    }

    /** The constructor of a road: a new road of the given length, open and with an empty
        traffic list, appended to the table and stored in both endpoints' maps. */
    function Joined(a1: int, a2: int, length: real): Graph
      requires a1 in nodes && a2 in nodes
    {
      var id := |roads|;
      var nodes1 := nodes[a1 := nodes[a1].Link(a2, id)];
      Graph(nodes1[a2 := nodes1[a2].Link(a1, id)], addresses, roads + [Road(a1, a2, length, false, [])])
    }

    /** The network with an intersection at `a`, added if it is missing. */
    function Ensured(a: int): Graph {
      if a in nodes then this else WithNode(a)
    }

    /** `add_road`: create each missing endpoint, then construct the road. */
    function WithRoad(a1: int, a2: int, length: real): Graph {
      Ensured(a1).Ensured(a2).Joined(a1, a2, length)
    }

    /** The road table with road `id` replaced by `r`. */
    function WithRecord(id: RoadId, r: Road): Graph
      requires id < |roads|
    {
      Graph(nodes, addresses, roads[id := r])
    }

    /** The intersection at `a` exists and has at least one road. */
    predicate HasRoad(a: int) {
      a in nodes && nodes[a].roads != map[]
    }

    /** `insert_traffic` on the road stored between `a` and `b`: its length doubles. */
    function WithTraffic(a: int, b: int): Graph
      requires Linked(a, b) && RoadAt(a, b) < |roads|
    {
      var id := RoadAt(a, b);
      WithRecord(id, roads[id].(length := 2.0 * roads[id].length))
    }

    /** `insert_closure` on the road stored between `a` and `b`: it is marked closed. */
    function WithClosure(a: int, b: int): Graph
      requires Linked(a, b) && RoadAt(a, b) < |roads|
    {
      var id := RoadAt(a, b);
      WithRecord(id, roads[id].(closed := true))
    }
  }

  /** Adding a fresh intersection keeps the invariants, and the new intersection is stored under
      its own address with no roads. */
  lemma WithNodeValid(g: Graph, a: int)
    requires g.Valid() && a !in g.nodes
    ensures g.WithNode(a).Valid()
    ensures g.WithNode(a).nodes[a] == Node(a, map[], [])
    ensures g.WithNode(a).nodes.Keys == g.nodes.Keys + {a}
  {
    var h := g.WithNode(a);
    forall x | x in h.nodes
      ensures h.NodeOk(x)
    {
      if x != a {
        assert g.NodeOk(x);
        forall b | b in h.nodes[x].roads
          ensures h.LinkOk(x, b)
        {
          assert g.LinkOk(x, b);
        }
      }
    }
    forall i, j | 0 <= i < j < |h.addresses|
      ensures h.addresses[i] != h.addresses[j]
    {
      if j == |g.addresses| {
        assert h.addresses[i] == g.addresses[i] && g.addresses[i] in g.nodes;
      }
    }
    forall id | 0 <= id < |h.roads|
      ensures h.RoadOk(id)
    {
      assert g.RoadOk(id);
    }
  }

  /** What the constructor of a road does to the intersections' maps. */
  lemma JoinedNodes(g: Graph, a1: int, a2: int, length: real)
    requires a1 in g.nodes && a2 in g.nodes && a1 != a2
    ensures g.Joined(a1, a2, length).nodes.Keys == g.nodes.Keys
    ensures g.Joined(a1, a2, length).nodes[a1] == g.nodes[a1].Link(a2, |g.roads|)
    ensures g.Joined(a1, a2, length).nodes[a2] == g.nodes[a2].Link(a1, |g.roads|)
    ensures forall x :: x in g.nodes && x != a1 && x != a2 ==> g.Joined(a1, a2, length).nodes[x] == g.nodes[x]
  {
  }

  /** Each link of the network after a road is constructed is well formed. */
  lemma JoinedLinkOk(g: Graph, a1: int, a2: int, length: real, x: int, b: int)
    requires g.Valid() && a1 in g.nodes && a2 in g.nodes && a1 != a2
    requires g.Joined(a1, a2, length).Linked(x, b)
    ensures g.Joined(a1, a2, length).LinkOk(x, b)
  {
    var h := g.Joined(a1, a2, length);
    JoinedNodes(g, a1, a2, length);
    if (x == a1 && b == a2) || (x == a2 && b == a1) {
      assert h.RoadAt(x, b) == |g.roads| && h.RoadAt(b, x) == |g.roads|;
    } else {
      assert g.Linked(x, b);
      assert g.NodeOk(x) && g.LinkOk(x, b);
      assert h.RoadAt(x, b) == g.RoadAt(x, b);
      assert h.Linked(b, x) && h.RoadAt(b, x) == g.RoadAt(b, x);
    }
  }

  /** Constructing a road between two distinct intersections keeps the invariants. */
  lemma JoinedValid(g: Graph, a1: int, a2: int, length: real)
    requires g.Valid() && a1 in g.nodes && a2 in g.nodes && a1 != a2
    ensures g.Joined(a1, a2, length).Valid()
  {
    var h := g.Joined(a1, a2, length);
    var id := |g.roads|;
    JoinedNodes(g, a1, a2, length);
    forall x | x in h.nodes
      ensures h.NodeOk(x)
    {
      assert g.NodeOk(x);
      forall b | b in h.nodes[x].roads
        ensures h.LinkOk(x, b)
      {
        JoinedLinkOk(g, a1, a2, length, x, b);
      }
      if x == a1 {
        LinkLists(g.nodes[x], a2, id);
      } else if x == a2 {
        LinkLists(g.nodes[x], a1, id);
      }
    }
    forall i | 0 <= i < |h.roads|
      ensures h.RoadOk(i)
    {
      if i < id {
        assert h.roads[i] == g.roads[i];
        assert g.RoadOk(i);
      }
    }
  }

  /** The dictionary assignment keeps `order` a listing of the keys. */
  lemma LinkLists(n: Node, b: int, id: RoadId)
    requires Lists(n.order, n.roads.Keys)
    ensures Lists(n.Link(b, id).order, n.Link(b, id).roads.Keys)
  {
    var m := n.Link(b, id);
    if b !in n.roads {
      forall i, j | 0 <= i < j < |m.order|
        ensures m.order[i] != m.order[j]
      {
        if j == |n.order| {
          assert m.order[i] == n.order[i] && n.order[i] in n.roads;
        }
      }
    }
  }

  /** Making sure an intersection exists keeps the invariants, the existing intersections and
      the road table. */
  lemma EnsuredValid(g: Graph, a: int)
    requires g.Valid()
    ensures g.Ensured(a).Valid()
    ensures g.Ensured(a).nodes.Keys == g.nodes.Keys + {a}
    ensures forall x :: x in g.nodes ==> g.Ensured(a).nodes[x] == g.nodes[x]
    ensures a !in g.nodes ==> g.Ensured(a).nodes[a] == Node(a, map[], [])
    ensures g.Ensured(a).roads == g.roads
  {
    if a !in g.nodes {
      WithNodeValid(g, a);
    }
  }

  /** `add_road` keeps the invariants, never removes an intersection, and appends one open road
      of the given length with an empty traffic list to the table. */
  lemma WithRoadValid(g: Graph, a1: int, a2: int, length: real)
    requires g.Valid() && a1 != a2
    ensures g.WithRoad(a1, a2, length).Valid()
    ensures g.WithRoad(a1, a2, length).nodes.Keys == g.nodes.Keys + {a1, a2}
    ensures g.WithRoad(a1, a2, length).roads == g.roads + [Road(a1, a2, length, false, [])]
  {
    var g1 := g.Ensured(a1);
    EnsuredValid(g, a1);
    var g2 := g1.Ensured(a2);
    EnsuredValid(g1, a2);
    JoinedValid(g2, a1, a2, length);
    JoinedNodes(g2, a1, a2, length);
  }

  /** After `add_road` the two addresses are linked both ways by the new road, and every other
      link is as it was: re-adding a road for a linked pair replaces the pair's road rather than
      adding a second one. */
  lemma WithRoadLinks(g: Graph, a1: int, a2: int, length: real)
    requires g.Valid() && a1 != a2
    ensures forall a, b :: g.WithRoad(a1, a2, length).Linked(a, b) <==>
              (g.Linked(a, b) || (a == a1 && b == a2) || (a == a2 && b == a1))
    ensures g.WithRoad(a1, a2, length).RoadAt(a1, a2) == |g.roads|
    ensures g.WithRoad(a1, a2, length).RoadAt(a2, a1) == |g.roads|
    ensures forall a, b :: g.Linked(a, b) && !((a == a1 && b == a2) || (a == a2 && b == a1)) ==>
              g.WithRoad(a1, a2, length).RoadAt(a, b) == g.RoadAt(a, b)
  {
    var g1 := g.Ensured(a1);
    EnsuredValid(g, a1);
    var g2 := g1.Ensured(a2);
    EnsuredValid(g1, a2);
    JoinedNodes(g2, a1, a2, length);
    var h := g.WithRoad(a1, a2, length);
    assert h == g2.Joined(a1, a2, length);
    assert g.roads == g2.roads;
    forall a, b
      ensures h.Linked(a, b) <==> (g.Linked(a, b) || (a == a1 && b == a2) || (a == a2 && b == a1))
    {
      if a != a1 && a != a2 && a in g2.nodes {
        assert h.nodes[a] == g2.nodes[a];
        if a in g.nodes {
          assert g2.nodes[a] == g.nodes[a];
        }
      }
    }
    forall a, b | g.Linked(a, b) && !((a == a1 && b == a2) || (a == a2 && b == a1))
      ensures h.RoadAt(a, b) == g.RoadAt(a, b)
    {
      assert g2.nodes[a] == g.nodes[a];
    }
  }

  /** Replacing a road's record by one with the same endpoints keeps the invariants. */
  lemma WithRecordValid(g: Graph, id: RoadId, r: Road)
    requires g.Valid() && id < |g.roads| && r.end1 == g.roads[id].end1 && r.end2 == g.roads[id].end2
    ensures g.WithRecord(id, r).Valid()
  {
    var h := g.WithRecord(id, r);
    forall x | x in h.nodes
      ensures h.NodeOk(x)
    {
      assert g.NodeOk(x);
      forall b | b in h.nodes[x].roads
        ensures h.LinkOk(x, b)
      {
        assert g.LinkOk(x, b);
      }
    }
    forall i | 0 <= i < |h.roads|
      ensures h.RoadOk(i)
    {
      assert g.RoadOk(i);
    }
  }

  /** A neighbour of an intersection that has a road. */
  lemma Neighbour(g: Graph, a: int) returns (b: int)
    requires g.HasRoad(a)
    ensures g.Linked(a, b)
  {
    var link :| link in g.nodes[a].roads.Items;
    b := link.0;
  }

  /** In a valid network a link determines its road and a road determines its pair of
      endpoints: two links share a road exactly when they join the same two intersections. */
  lemma RoadAtInjective(g: Graph, a: int, b: int, c: int, d: int)
    requires g.Valid() && g.Linked(a, b) && g.Linked(c, d)
    ensures g.RoadAt(a, b) == g.RoadAt(c, d) <==> ((a == c && b == d) || (a == d && b == c))
  {
    assert g.NodeOk(a) && g.LinkOk(a, b);
    assert g.NodeOk(c) && g.LinkOk(c, d);
  }

  /** The road stored on a link is reachable. */
  lemma LinkedCurrent(g: Graph, a: int, b: int)
    requires g.Valid() && g.Linked(a, b)
    ensures g.Current(g.RoadAt(a, b))
  {
    assert g.NodeOk(a) && g.LinkOk(a, b);
  }

  lemma ValidLinksOk(g: Graph)
    requires g.Valid()
    ensures g.LinksOk()
  {
    forall a, b | g.Linked(a, b)
      ensures g.LinkOk(a, b)
    {
      assert g.NodeOk(a);
    }
  }

  /** A link names the same road from either end. */
  lemma LinkSymmetric(g: Graph, a: int, b: int)
    requires g.Valid() && g.Linked(a, b)
    ensures g.Linked(b, a) && g.RoadAt(b, a) == g.RoadAt(a, b) && g.RoadOf(b, a) == g.RoadOf(a, b)
    ensures g.RoadAt(a, b) < |g.roads| && g.RoadOf(a, b) == g.roads[g.RoadAt(a, b)]
  {
    assert g.NodeOk(a) && g.LinkOk(a, b);
  }

  /** Doubling a road's length keeps the invariants. */
  lemma WithTrafficValid(g: Graph, a: int, b: int)
    requires g.Valid() && g.Linked(a, b)
    ensures g.WithTraffic(a, b).Valid()
  {
    var id := g.RoadAt(a, b);
    var r := g.roads[id].(length := 2.0 * g.roads[id].length);
    LinkSymmetric(g, a, b);
    assert g.WithTraffic(a, b) == g.WithRecord(id, r);
    WithRecordValid(g, id, r);
  }

  /** Doubling a road's length keeps the links, changes that one road's length and nothing
      else, and does not depend on the order in which its endpoints are named. */
  lemma WithTrafficRoads(g: Graph, a: int, b: int)
    requires g.Valid() && g.Linked(a, b)
    ensures g.Linked(b, a) && g.WithTraffic(a, b) == g.WithTraffic(b, a)
    ensures g.WithTraffic(a, b).nodes == g.nodes && g.WithTraffic(a, b).addresses == g.addresses
    ensures |g.WithTraffic(a, b).roads| == |g.roads|
    ensures g.WithTraffic(a, b).roads[g.RoadAt(a, b)] == g.RoadOf(a, b).(length := 2.0 * g.RoadOf(a, b).length)
    ensures forall id :: 0 <= id < |g.roads| && id != g.RoadAt(a, b) ==>
              g.WithTraffic(a, b).roads[id] == g.roads[id]
  {
    LinkSymmetric(g, a, b);
  }

  /** Closing a road keeps the invariants and the links, closes that one road and changes
      nothing else, and does not depend on the order in which its endpoints are named. */
  lemma WithClosureValid(g: Graph, a: int, b: int)
    requires g.Valid() && g.Linked(a, b)
    ensures g.WithClosure(a, b).Valid()
    ensures g.Linked(b, a) && g.WithClosure(a, b) == g.WithClosure(b, a)
    ensures g.WithClosure(a, b).nodes == g.nodes && g.WithClosure(a, b).addresses == g.addresses
    ensures |g.WithClosure(a, b).roads| == |g.roads|
    ensures g.WithClosure(a, b).roads[g.RoadAt(a, b)] == g.RoadOf(a, b).(closed := true)
    ensures forall id :: 0 <= id < |g.roads| && id != g.RoadAt(a, b) ==>
              g.WithClosure(a, b).roads[id] == g.roads[id]
  {
    LinkSymmetric(g, a, b);
    WithRecordValid(g, g.RoadAt(a, b), g.RoadOf(a, b).(closed := true));
  }

  /** Closing a closed road again changes nothing. */
  lemma WithClosureTwice(g: Graph, a: int, b: int)
    requires g.Linked(a, b) && g.RoadAt(a, b) < |g.roads|
    ensures g.WithClosure(a, b).Linked(a, b)
    ensures g.WithClosure(a, b).RoadAt(a, b) < |g.WithClosure(a, b).roads|
    ensures g.WithClosure(a, b).WithClosure(a, b) == g.WithClosure(a, b)
  {
    var h := g.WithClosure(a, b);
    var id := g.RoadAt(a, b);
    assert h.roads[id := h.roads[id].(closed := true)] == h.roads;
  }
}
