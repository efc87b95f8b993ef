/** Exhaustive enumeration of simple paths: a depth-first search from an intersection that never
    revisits an intersection already on the current branch and never uses a closed road. */
module PathSearch {
  import opened RoadGraph

  /** A path is the sequence of roads taken, first road first. */
  type Path = seq<RoadId>

  /** Road `id` leaves the intersection at `from` and is the road stored on that link. */
  ghost predicate Step(g: Graph, from: int, id: RoadId) {
    && id < |g.roads|
    && g.roads[id].end1 != g.roads[id].end2
    && g.roads[id].Touches(from)
    && g.Linked(from, g.roads[id].OtherEndpoint(from))
    && g.RoadAt(from, g.roads[id].OtherEndpoint(from)) == id
  }

  /** `p` leads from `from` to `to` over open roads of `g` without entering an intersection in
      `avoid` and without entering any intersection twice. */
  ghost predicate IsPath(g: Graph, from: int, to: int, p: Path, avoid: set<int>)
    decreases |p|
  {
    && from !in avoid
    && if p == [] then from == to
       else
         && Step(g, from, p[0])
         && !g.roads[p[0]].closed
         && IsPath(g, g.roads[p[0]].OtherEndpoint(from), to, p[1..], avoid + {from})
  }

  /** The intersections a path passes through, in order. The contract spells out what a path
      is: consecutive roads meet at an intersection, the first road touches the start and the
      last the destination, no intersection repeats, none is avoided and no road is closed. */
  ghost function Trail(g: Graph, from: int, to: int, p: Path, avoid: set<int>): (t: seq<int>)
    requires IsPath(g, from, to, p, avoid)
    ensures |t| == |p| + 1 && t[0] == from && t[|p|] == to
    ensures forall i, j :: 0 <= i < j < |t| ==> t[i] != t[j]
    ensures forall i :: 0 <= i < |t| ==> t[i] !in avoid
    ensures forall i :: 0 <= i < |p| ==>
              && p[i] < |g.roads|
              && g.Linked(t[i], t[i + 1])
              && g.RoadAt(t[i], t[i + 1]) == p[i]
              && g.roads[p[i]].Joins(t[i], t[i + 1])
              && !g.roads[p[i]].closed
    decreases |p|
  {
    if p == [] then [from]
    else
      var next := g.roads[p[0]].OtherEndpoint(from);
      var rest := Trail(g, next, to, p[1..], avoid + {from});
      assert forall i :: 1 <= i < |p| ==> p[i] == p[1..][i - 1];
      [from] + rest
  }

  /** The same facts stated about the roads alone. */
  lemma PathShape(g: Graph, from: int, to: int, p: Path, avoid: set<int>)
    requires IsPath(g, from, to, p, avoid)
    ensures p != [] ==> p[0] < |g.roads| && g.roads[p[0]].Touches(from)
    ensures p != [] ==> p[|p| - 1] < |g.roads| && g.roads[p[|p| - 1]].Touches(to)
    ensures forall i, j :: 0 <= i && j == i + 1 && j < |p| ==>
              p[i] < |g.roads| && p[j] < |g.roads| && Meet(g.roads[p[i]], g.roads[p[j]])
    ensures forall i :: 0 <= i < |p| ==> p[i] < |g.roads| && !g.roads[p[i]].closed
    ensures p == [] <==> from == to
  {
    var t := Trail(g, from, to, p, avoid);
    forall i, j | 0 <= i && j == i + 1 && j < |p|
      ensures p[i] < |g.roads| && p[j] < |g.roads| && Meet(g.roads[p[i]], g.roads[p[j]])
    {
      assert g.roads[p[i]].Joins(t[i], t[j]) && g.roads[p[j]].Joins(t[j], t[j + 1]);
    }
  }

  /** Roads `r` and `s` have an endpoint in common. */
  predicate Meet(r: Road, s: Road) {
    r.Touches(s.end1) || r.Touches(s.end2)
  }

  /** Each path of `ps` with road `id` put in front. */
  function Prepend(id: RoadId, ps: seq<Path>): (qs: seq<Path>)
    ensures |qs| == |ps|
    ensures forall i :: 0 <= i < |ps| ==> qs[i] == [id] + ps[i]
  {
    seq(|ps|, i requires 0 <= i < |ps| => [id] + ps[i])
  }

  lemma InPrepend(id: RoadId, ps: seq<Path>, p: Path)
    ensures p in Prepend(id, ps) <==> p != [] && p[0] == id && p[1..] in ps
  {
    var qs := Prepend(id, ps);
    if p in qs {
      var i :| 0 <= i < |qs| && qs[i] == p;
      assert p[1..] == ps[i];
    }
    if p != [] && p[0] == id && p[1..] in ps {
      var i :| 0 <= i < |ps| && ps[i] == p[1..];
      assert qs[i] == p;
    }
  }

  lemma DropOne(s: set<int>, visited: set<int>, cur: int)
    requires cur in s && cur !in visited
    ensures |s - (visited + {cur})| + 1 == |s - visited|
  {
    assert s - visited == (s - (visited + {cur})) + {cur};
  }

  /** The paths from the intersection at `cur` to `dest` that enter no intersection of
      `visited`, in the order of the search: at the destination the one empty path; elsewhere,
      for each neighbour in the order it was linked, the open road to it followed by every path
      onward from it. */
  function FindPaths(g: Graph, cur: int, dest: int, visited: set<int>): (ps: seq<Path>)
    requires g.Valid() && cur in g.nodes && cur !in visited
    ensures cur == dest ==> ps == [[]]
    ensures forall p :: p in ps ==> IsPath(g, cur, dest, p, visited)
    decreases |g.nodes.Keys - visited|, 1
  {
    if cur == dest then [[]]
    else
      DropOne(g.nodes.Keys, visited, cur);
      assert g.NodeOk(cur);
      Explore(g, cur, g.nodes[cur].order, dest, visited + {cur})
  }

  /** The loop of the search over the neighbours `keys` of the intersection at `cur`. */
  function Explore(g: Graph, cur: int, keys: seq<int>, dest: int, visited: set<int>): (ps: seq<Path>)
    requires g.Valid() && cur in g.nodes && cur in visited
    requires forall k :: k in keys ==> k in g.nodes[cur].roads
    ensures forall p :: p in ps ==>
              && p != []
              && Step(g, cur, p[0])
              && !g.roads[p[0]].closed
              && IsPath(g, g.roads[p[0]].OtherEndpoint(cur), dest, p[1..], visited)
    decreases |g.nodes.Keys - visited| + 1, 0, |keys|
  {
    if keys == [] then []
    else
      var k := keys[0];
      assert k in keys;
      assert k in g.nodes[cur].roads;
      var id := g.nodes[cur].roads[k];
      assert g.NodeOk(cur) && g.LinkOk(cur, keys[0]);
      var road := g.roads[id];
      var u := road.OtherEndpoint(cur);
      var rest := Explore(g, cur, keys[1..], dest, visited);
      if u !in visited && !road.closed then
        var onward := FindPaths(g, u, dest, visited);
        var here := Prepend(id, onward);
        assert forall p :: p in here ==> p != [] && p[0] == id && p[1..] in onward by {
          forall p | p in here ensures p != [] && p[0] == id && p[1..] in onward {
            InPrepend(id, onward, p);
          }
        }
        here + rest
      else
        rest
  }

  /** Every simple open path from `cur` to `dest` that avoids `visited` is found. */
  lemma {:induction false} FindPathsComplete(g: Graph, cur: int, dest: int, visited: set<int>, p: Path)
    requires g.Valid() && cur in g.nodes && cur !in visited
    requires IsPath(g, cur, dest, p, visited)
    ensures p in FindPaths(g, cur, dest, visited)
    decreases |p|, 1
  {
    var t := Trail(g, cur, dest, p, visited);
    if cur != dest {
      assert g.NodeOk(cur);
      var b := g.roads[p[0]].OtherEndpoint(cur);
      ExploreComplete(g, cur, g.nodes[cur].order, dest, visited + {cur}, p);
    }
  }

  /** The paths the search finds through the first neighbour in `keys`. */
  function ExploreHead(g: Graph, cur: int, keys: seq<int>, dest: int, visited: set<int>): seq<Path>
    requires g.Valid() && cur in g.nodes && cur in visited && keys != []
    requires keys[0] in g.nodes[cur].roads
  {
    var id := g.nodes[cur].roads[keys[0]];
    assert g.NodeOk(cur) && g.LinkOk(cur, keys[0]);
    var road := g.roads[id];
    var u := road.OtherEndpoint(cur);
    if u !in visited && !road.closed then Prepend(id, FindPaths(g, u, dest, visited)) else []
  }

  lemma ExploreUnfold(g: Graph, cur: int, keys: seq<int>, dest: int, visited: set<int>)
    requires g.Valid() && cur in g.nodes && cur in visited && keys != []
    requires forall k :: k in keys ==> k in g.nodes[cur].roads
    ensures keys[0] in g.nodes[cur].roads
    ensures Explore(g, cur, keys, dest, visited) ==
              ExploreHead(g, cur, keys, dest, visited) + Explore(g, cur, keys[1..], dest, visited)
  {
    var k := keys[0];
    assert k in keys;
  }

  lemma {:induction false} ExploreComplete(g: Graph, cur: int, keys: seq<int>, dest: int, visited: set<int>, p: Path)
    requires g.Valid() && cur in g.nodes && cur in visited
    requires forall k :: k in keys ==> k in g.nodes[cur].roads
    requires p != [] && Step(g, cur, p[0]) && !g.roads[p[0]].closed
    requires IsPath(g, g.roads[p[0]].OtherEndpoint(cur), dest, p[1..], visited)
    requires g.roads[p[0]].OtherEndpoint(cur) in keys
    ensures p in Explore(g, cur, keys, dest, visited)
    decreases |p|, 0, |keys|
  {
    var b := g.roads[p[0]].OtherEndpoint(cur);
    ExploreUnfold(g, cur, keys, dest, visited);
    if keys[0] == b {
      var id := g.nodes[cur].roads[b];
      assert id == p[0];
      FindPathsComplete(g, b, dest, visited, p[1..]);
      InPrepend(id, FindPaths(g, b, dest, visited), p);
      assert p in ExploreHead(g, cur, keys, dest, visited);
    } else {
      assert b in keys[1..];
      ExploreComplete(g, cur, keys[1..], dest, visited, p);
    }
  }

  /** The search finds exactly the simple open paths: a path is in the result if and only if it
      leads from `cur` to `dest` over open roads without repeating an intersection or entering
      `visited`. In particular the result is empty exactly when no such path exists. */
  lemma FindPathsExact(g: Graph, cur: int, dest: int, visited: set<int>)
    requires g.Valid() && cur in g.nodes && cur !in visited
    ensures forall p :: p in FindPaths(g, cur, dest, visited) <==> IsPath(g, cur, dest, p, visited)
    ensures FindPaths(g, cur, dest, visited) == [] <==> forall p :: !IsPath(g, cur, dest, p, visited)
  {
    forall p | IsPath(g, cur, dest, p, visited)
      ensures p in FindPaths(g, cur, dest, visited)
    {
      FindPathsComplete(g, cur, dest, visited, p);
    }
    var ps := FindPaths(g, cur, dest, visited);
    if ps != [] {
      assert ps[0] in ps;
    }
  }
}
