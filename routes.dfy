/** Weighing paths and choosing the shortest one: the total length of a path, the first path of
    minimal length in a list of paths, and the shortest route between two intersections. */
module Routes {
  import opened RoadGraph
  import opened PathSearch

  /** Every road of `p` is in the table. */
  ghost predicate InTable(roads: seq<Road>, p: Path) {
    forall i :: 0 <= i < |p| ==> p[i] < |roads|
  }

  ghost predicate AllInTable(roads: seq<Road>, ps: seq<Path>) {
    forall i :: 0 <= i < |ps| ==> InTable(roads, ps[i])
  }

  /** The sum of the lengths of the roads of `p`. */
  ghost function Distance(roads: seq<Road>, p: Path): real
    requires InTable(roads, p)
    decreases |p|
  {
    if p == [] then 0.0 else Distance(roads, p[..|p| - 1]) + roads[p[|p| - 1]].length
  }

  /** The length of a path is additive: splitting it anywhere splits its length. */
  lemma {:induction false} DistanceAppend(roads: seq<Road>, p: Path, q: Path)
    requires InTable(roads, p) && InTable(roads, q)
    ensures InTable(roads, p + q)
    ensures Distance(roads, p + q) == Distance(roads, p) + Distance(roads, q)
    decreases |q|
  {
    if q == [] {
      assert p + q == p;
    } else {
      var q' := q[..|q| - 1];
      DistanceAppend(roads, p, q');
      assert (p + q)[..|p + q| - 1] == p + q';
    }
  }

  /** A one-road path is as long as its road. */
  lemma DistanceSingle(roads: seq<Road>, id: RoadId)
    requires id < |roads|
    ensures InTable(roads, [id]) && Distance(roads, [id]) == roads[id].length
  {
    assert [id][..0] == [];
  }

  /** Putting a road in front of a path adds its length. */
  lemma DistanceCons(roads: seq<Road>, id: RoadId, p: Path)
    requires id < |roads| && InTable(roads, p)
    ensures InTable(roads, [id] + p)
    ensures Distance(roads, [id] + p) == roads[id].length + Distance(roads, p)
  {
    DistanceSingle(roads, id);
    DistanceAppend(roads, [id], p);
  }

  /** A non-empty path over roads of positive length is longer than zero. */
  lemma {:induction false} DistancePositive(roads: seq<Road>, p: Path)
    requires InTable(roads, p) && p != []
    requires forall i :: 0 <= i < |roads| ==> roads[i].length > 0.0
    ensures Distance(roads, p) > 0.0
    decreases |p|
  {
    if |p| == 1 {
      assert p[..0] == [];
    } else {
      DistancePositive(roads, p[..|p| - 1]);
    }
  }

  /** Every road of a path of the network is in its table. */
  lemma PathInTable(g: Graph, from: int, to: int, p: Path, avoid: set<int>)
    requires IsPath(g, from, to, p, avoid)
    ensures InTable(g.roads, p)
  {
    var t := Trail(g, from, to, p, avoid);
  }

  /** `compute_path_distance`: adds up the lengths of the roads of the path. The empty path
      weighs 0.0. */
  method ComputePathDistance(roads: seq<Road>, path: Path) returns (distance: real)
    requires InTable(roads, path)
    ensures distance == Distance(roads, path)
  {
    distance := 0.0;
    for i := 0 to |path|
      invariant distance == Distance(roads, path[..i])
    {
      assert path[..i + 1][..i] == path[..i];
      distance := distance + roads[path[i]].length;
    }
    assert path[..|path|] == path;
  }

  /** The position of the first shortest path among the first `n` paths of `ps`: no path there is
      shorter, and every path before it is strictly longer. */
  ghost function FirstShortest(roads: seq<Road>, ps: seq<Path>, n: nat): (k: nat)
    requires AllInTable(roads, ps) && 0 < n <= |ps|
    ensures k < n
    ensures forall j :: 0 <= j < n ==> Distance(roads, ps[k]) <= Distance(roads, ps[j])
    ensures forall j :: 0 <= j < k ==> Distance(roads, ps[k]) < Distance(roads, ps[j])
    decreases n
  {
    if n == 1 then 0
    else
      var k := FirstShortest(roads, ps, n - 1);
      if Distance(roads, ps[n - 1]) < Distance(roads, ps[k]) then n - 1 else k
  }

  /** `shortest_path`: keeps the first path and replaces it by each later path that is strictly
      shorter, so the result is a path of minimal length, the first one on ties. */
  method ShortestPath(roads: seq<Road>, paths: seq<Path>) returns (selected: Path)
    requires paths != [] && AllInTable(roads, paths)
    ensures selected == paths[FirstShortest(roads, paths, |paths|)]
    ensures selected in paths
    ensures forall q :: q in paths ==> Distance(roads, selected) <= Distance(roads, q)
  {
    selected := paths[0];
    var shortestDistance := ComputePathDistance(roads, paths[0]);
    ghost var k := 0;
    for i := 0 to |paths|
      invariant k < |paths| && selected == paths[k]
      invariant shortestDistance == Distance(roads, selected)
      invariant k == FirstShortest(roads, paths, if i == 0 then 1 else i)
    {
      var pathDistance := ComputePathDistance(roads, paths[i]);
      if pathDistance < shortestDistance {
        shortestDistance := pathDistance;
        selected := paths[i];
        k := i;
      }
    }
    var m := FirstShortest(roads, paths, |paths|);
    forall q | q in paths
      ensures Distance(roads, selected) <= Distance(roads, q)
    {
      var j :| 0 <= j < |paths| && paths[j] == q;
    }
  }

  /** Every road of every path the search finds is in the table. */
  lemma FoundInTable(g: Graph, s: int, e: int)
    requires g.Valid() && s in g.nodes
    ensures AllInTable(g.roads, FindPaths(g, s, e, {}))
  {
    var ps := FindPaths(g, s, e, {});
    forall i | 0 <= i < |ps| ensures InTable(g.roads, ps[i]) {
      assert ps[i] in ps;
      PathInTable(g, s, e, ps[i], {});
    }
  }

  /** The path `find_shortest_path` returns: none when start and end coincide or no path joins
      them, otherwise the first shortest of the paths the search finds. */
  ghost function ShortestRoute(g: Graph, s: int, e: int): (route: Path)
    requires g.Valid() && s in g.nodes
    ensures InTable(g.roads, route)
  {
    var ps := FindPaths(g, s, e, {});
    if s == e || ps == [] then []
    else
      FoundInTable(g, s, e);
      ps[FirstShortest(g.roads, ps, |ps|)]
  }

  /** The distance the what-if analysis reads off a network: the length of the route above,
      which is 0.0 when there is no route. */
  ghost function RouteDistance(g: Graph, s: int, e: int): real
    requires g.Valid() && s in g.nodes
  {
    Distance(g.roads, ShortestRoute(g, s, e))
  }

  /** With start and end equal, or no path between them, there is no route and its distance is
      0.0. */
  lemma NoRoute(g: Graph, s: int, e: int)
    requires g.Valid() && s in g.nodes
    requires s == e || forall p :: !IsPath(g, s, e, p, {})
    ensures ShortestRoute(g, s, e) == [] && RouteDistance(g, s, e) == 0.0
  {
    FindPathsExact(g, s, e, {});
  }

  /** When some path `p0` joins two distinct intersections, the route is the first shortest of
      the paths the search finds. */
  lemma RouteIsFirstShortest(g: Graph, s: int, e: int, p0: Path)
    requires g.Valid() && s in g.nodes && s != e
    requires IsPath(g, s, e, p0, {})
    ensures AllInTable(g.roads, FindPaths(g, s, e, {}))
    ensures FindPaths(g, s, e, {}) != []
    ensures ShortestRoute(g, s, e) ==
              FindPaths(g, s, e, {})[FirstShortest(g.roads, FindPaths(g, s, e, {}), |FindPaths(g, s, e, {})|)]
  {
    FindPathsComplete(g, s, e, {}, p0);
    FoundInTable(g, s, e);
  }

  /** No simple open path between two distinct intersections is shorter than the route. */
  lemma RouteNoLonger(g: Graph, s: int, e: int, q: Path)
    requires g.Valid() && s in g.nodes && s != e
    requires IsPath(g, s, e, q, {})
    ensures InTable(g.roads, q) && RouteDistance(g, s, e) <= Distance(g.roads, q)
  {
    var ps := FindPaths(g, s, e, {});
    RouteIsFirstShortest(g, s, e, q);
    PathInTable(g, s, e, q, {});
    FindPathsComplete(g, s, e, {}, q);
    var j :| 0 <= j < |ps| && ps[j] == q;
  }

  /** When some path `p0` joins two distinct intersections, the route is a simple open path
      between them and no such path is shorter. */
  lemma RouteIsShortest(g: Graph, s: int, e: int, p0: Path)
    requires g.Valid() && s in g.nodes && s != e
    requires IsPath(g, s, e, p0, {})
    ensures IsPath(g, s, e, ShortestRoute(g, s, e), {})
    ensures forall q :: IsPath(g, s, e, q, {}) ==>
              InTable(g.roads, q) && RouteDistance(g, s, e) <= Distance(g.roads, q)
  {
    var ps := FindPaths(g, s, e, {});
    RouteIsFirstShortest(g, s, e, p0);
    var k := FirstShortest(g.roads, ps, |ps|);
    assert ps[k] in ps;
    forall q | IsPath(g, s, e, q, {})
      ensures InTable(g.roads, q) && RouteDistance(g, s, e) <= Distance(g.roads, q)
    {
      RouteNoLonger(g, s, e, q);
    }
  }
}
