/** The road network as an object whose operations update it in place. Its three fields are the
    state the source spreads over its objects: the dictionary of intersections by address (each
    with its dictionary of roads by neighbour), the order in which addresses were added, and the
    roads themselves, held in a table so that a road shared by two intersections is one entry. */
module Network {
  import opened RoadGraph
  import opened PathSearch
  import opened Routes

  class RoadNetwork {
    var nodes: map<int, Node>
    var addresses: seq<int>
    var roads: seq<Road>

    /** The current state as a value. */
    function Value(): Graph
      reads this
    {
      Graph(nodes, addresses, roads)
    }

    ghost predicate Valid()
      reads this
    {
      Value().Valid()
    }

    /** An empty network. */
    constructor ()
      ensures Value() == Graph(map[], [], []) && Valid()
    {
      nodes := map[];
      addresses := [];
      roads := [];
    }

    /** `add_node`: registers a fresh intersection with no roads under its own address. */
    method AddNode(address: int) returns (node: Node)
      requires Valid() && address !in nodes
      modifies this
      ensures Value() == old(Value()).WithNode(address)
      ensures Valid() && node == Node(address, map[], []) && nodes[address] == node
      ensures nodes.Keys == old(nodes.Keys) + {address}
    {
      WithNodeValid(Value(), address);
      node := Node(address, map[], []);
      nodes := nodes[address := node];
      addresses := addresses + [address];
    }

    /** The constructor of a road: a new open road with an empty traffic list, stored under each
        endpoint's address in the other endpoint's map. Returns the new road's position. */
    method NewRoad(address1: int, address2: int, length: real) returns (id: RoadId)
      requires Valid() && address1 in nodes && address2 in nodes && address1 != address2
      modifies this
      ensures Value() == old(Value()).Joined(address1, address2, length)
      ensures Valid() && id == old(|roads|) && roads[id] == Road(address1, address2, length, false, [])
    {
      JoinedValid(Value(), address1, address2, length);
      id := |roads|;
      roads := roads + [Road(address1, address2, length, false, [])];
      nodes := nodes[address1 := nodes[address1].Link(address2, id)];
      nodes := nodes[address2 := nodes[address2].Link(address1, id)];
    }

    /** `add_road`: creates each missing endpoint, then constructs the road. */
    method AddRoad(address1: int, address2: int, length: real)
      requires Valid() && address1 != address2
      modifies this
      ensures Value() == old(Value()).WithRoad(address1, address2, length)
      ensures Valid()
      ensures nodes.Keys == old(nodes.Keys) + {address1, address2}
      ensures roads == old(roads) + [Road(address1, address2, length, false, [])]
    {
      ghost var g := Value();
      WithRoadValid(g, address1, address2, length);
      EnsuredValid(g, address1);
      EnsuredValid(g.Ensured(address1), address2);
      if address1 !in nodes {
        var _ := AddNode(address1);
      }
      assert Value() == g.Ensured(address1);
      if address2 !in nodes {
        var _ := AddNode(address2);
      }
      assert Value() == g.Ensured(address1).Ensured(address2);
      var _ := NewRoad(address1, address2, length);
    }

    /** `topology_to_dict`: each address maps to the addresses of its neighbours. Adjacency is
        symmetric and no intersection is its own neighbour. */
    method TopologyToDict() returns (adjacency: map<int, set<int>>)
      requires Valid()
      ensures adjacency.Keys == nodes.Keys
      ensures forall a :: a in adjacency ==> adjacency[a] == nodes[a].roads.Keys
      ensures forall a, b :: a in adjacency && b in adjacency[a] ==>
                a != b && b in adjacency && a in adjacency[b]
    {
      adjacency := map[];
      assert Lists(addresses, nodes.Keys);
      for i := 0 to |addresses|
        invariant Lists(addresses, nodes.Keys)
        invariant forall a :: a in adjacency <==> a in addresses[..i]
        invariant forall a :: a in adjacency ==> a in nodes && adjacency[a] == nodes[a].roads.Keys
      {
        Listed(addresses, nodes.Keys, i);
        adjacency := adjacency[addresses[i] := nodes[addresses[i]].roads.Keys];
      }
      assert addresses[..|addresses|] == addresses;
      forall a
        ensures a in adjacency <==> a in nodes
      {
        assert a in addresses <==> a in nodes.Keys;
      }
      forall a, b | a in adjacency && b in adjacency[a]
        ensures a != b && b in adjacency && a in adjacency[b]
      {
        assert Value().NodeOk(a) && Value().LinkOk(a, b);
      }
    }

    /** `get_node_addresses`: every address exactly once, in the order they were added. */
    function GetNodeAddresses(): (result: seq<int>)
      reads this
      requires Valid()
      ensures Lists(result, nodes.Keys)
    {
      addresses
    }

    /** `get_roads`: every road reachable from an intersection, each once, in an unspecified
        order (the source collects them in a set). A road whose link was overwritten by a later
        road for the same pair is not reachable and is not listed. */
    method GetRoads() returns (result: seq<RoadId>)
      requires Valid()
      ensures forall i, j :: 0 <= i < j < |result| ==> result[i] != result[j]
      ensures forall id :: id in result <==> Value().Current(id)
    {
      var found := CollectRoads();
      result := Enumerate(found);
    }

    /** The loops of `get_roads` over the intersections and their roads: the set of the roads
        stored on some link. */
    method CollectRoads() returns (found: set<RoadId>)
      requires Valid()
      ensures forall id :: id in found <==> Value().Current(id)
    {
      ghost var g := Value();
      found := {};
      for i := 0 to |addresses|
        invariant forall id :: id in found ==> g.Current(id)
        invariant forall x, y :: x in addresses[..i] && g.Linked(x, y) ==> g.RoadAt(x, y) in found
      {
        Listed(addresses, nodes.Keys, i);
        var node := nodes[addresses[i]];
        assert g.NodeOk(addresses[i]);
        for j := 0 to |node.order|
          invariant forall id :: id in found ==> g.Current(id)
          invariant forall x, y :: x in addresses[..i] && g.Linked(x, y) ==> g.RoadAt(x, y) in found
          invariant forall y :: y in node.order[..j] ==> node.roads[y] in found
        {
          assert node.order[j] in node.order;
          LinkedCurrent(g, addresses[i], node.order[j]);
          found := found + {node.roads[node.order[j]]};
        }
        assert node.order[..|node.order|] == node.order;
        forall x, y | x in addresses[..i + 1] && g.Linked(x, y)
          ensures g.RoadAt(x, y) in found
        {
          if x == addresses[i] {
            assert y in node.order;
          } else {
            assert x in addresses[..i];
          }
        }
      }
      assert addresses[..|addresses|] == addresses;
      forall id: RoadId | g.Current(id)
        ensures id in found
      {
        assert roads[id].end1 in nodes;
      }
    }

    /** `find_paths`: exactly the simple paths over open roads from `start` to `end`. */
    function FindPaths(start: int, end: int): (paths: seq<Path>)
      reads this
      requires Valid() && start in nodes
      ensures forall p :: p in paths <==> IsPath(Value(), start, end, p, {})
      ensures start == end ==> paths == [[]]
    {
      FindPathsExact(Value(), start, end, {});
      PathSearch.FindPaths(Value(), start, end, {})
    }

    /** `find_shortest_path`: no path when `start` and `end` coincide or are not joined;
        otherwise a simple open path between them that no such path beats, the first of minimal
        length in the order of the search. */
    method FindShortestPath(start: int, end: int) returns (path: Path)
      requires Valid() && start in nodes
      ensures path == ShortestRoute(Value(), start, end) && InTable(roads, path)
      ensures (start == end || forall p :: !IsPath(Value(), start, end, p, {})) ==> path == []
      ensures forall q :: start != end && IsPath(Value(), start, end, q, {}) ==>
                && IsPath(Value(), start, end, path, {})
                && InTable(roads, q) && Distance(roads, path) <= Distance(roads, q)
    {
      var paths := FindPaths(start, end);
      if start == end || paths == [] {
        path := [];
      } else {
        FoundInTable(Value(), start, end);
        path := ShortestPath(roads, paths);
      }
      if start == end || forall p :: !IsPath(Value(), start, end, p, {}) {
        NoRoute(Value(), start, end);
      } else {
        var p :| IsPath(Value(), start, end, p, {});
        RouteIsShortest(Value(), start, end, p);
      }
    }

    /** `insert_traffic`: doubles the length of the road stored between the endpoints of
        `roadToEdit`, which may belong to another network. Fails, changing nothing, when the
        endpoints are not linked here (the lookup raises `KeyError`). */
    method InsertTraffic(roadToEdit: Road) returns (ok: bool)
      requires Valid() && roadToEdit.end1 != roadToEdit.end2
      modifies this
      ensures ok <==> old(Value()).Linked(roadToEdit.end1, roadToEdit.end2)
      ensures ok ==> Value() == old(Value()).WithTraffic(roadToEdit.end1, roadToEdit.end2)
      ensures !ok ==> Value() == old(Value())
      ensures Valid()
    {
      var first :| first in {roadToEdit.end1, roadToEdit.end2};
      var second := if first == roadToEdit.end1 then roadToEdit.end2 else roadToEdit.end1;
      ghost var g := Value();
      if first in nodes && second in nodes[first].roads {
        LinkSymmetric(g, first, second);
        WithTrafficValid(g, first, second);
        WithTrafficRoads(g, first, second);
        var id := nodes[first].roads[second];
        roads := roads[id := roads[id].(length := 2.0 * roads[id].length)];
        ok := true;
      } else {
        if g.Linked(second, first) {
          LinkSymmetric(g, second, first);
        }
        ok := false;
      }
    }

    /** `insert_closure`: marks closed the road stored between the endpoints of `roadToEdit`,
        which may belong to another network. Fails, changing nothing, when the endpoints are not
        linked here. */
    method InsertClosure(roadToEdit: Road) returns (ok: bool)
      requires Valid() && roadToEdit.end1 != roadToEdit.end2
      modifies this
      ensures ok <==> old(Value()).Linked(roadToEdit.end1, roadToEdit.end2)
      ensures ok ==> Value() == old(Value()).WithClosure(roadToEdit.end1, roadToEdit.end2)
      ensures !ok ==> Value() == old(Value())
      ensures Valid()
    {
      var first :| first in {roadToEdit.end1, roadToEdit.end2};
      var second := if first == roadToEdit.end1 then roadToEdit.end2 else roadToEdit.end1;
      ghost var g := Value();
      if first in nodes && second in nodes[first].roads {
        LinkSymmetric(g, first, second);
        WithClosureValid(g, first, second);
        var id := nodes[first].roads[second];
        roads := roads[id := roads[id].(closed := true)];
        ok := true;
      } else {
        if g.Linked(second, first) {
          LinkSymmetric(g, second, first);
        }
        ok := false;
      }
    }
  }

  /** The roads of `found`, each once, in an unspecified order. */
  method Enumerate(found: set<RoadId>) returns (result: seq<RoadId>)
    ensures forall i, j :: 0 <= i < j < |result| ==> result[i] != result[j]
    ensures forall id :: id in result <==> id in found
  {
    result := [];
    var left := found;
    while left != {}
      invariant forall i, j :: 0 <= i < j < |result| ==> result[i] != result[j]
      invariant forall id :: id in result ==> id !in left
      invariant forall id :: id in found <==> id in result || id in left
      decreases |left|
    {
      var id :| id in left;
      result := result + [id];
      left := left - {id};
    }
  }
}
