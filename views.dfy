/** What a rebuilt network has in common with the one it was rebuilt from. Rebuilding road by
    road gives the roads new positions in the table and new neighbour orders, but keeps every
    link with its length; distances read off the shortest route depend on nothing else. */
module Views {
  import opened RoadGraph
  import opened PathSearch
  import opened Routes

  /** The two what-if events: doubling a road's length, or closing it. */
  datatype Event = Traffic | Closure

  /** The road stored between `a` and `b` in `g` and the one stored there in `h` have the same
      length and the same closed flag. */
  ghost predicate Agree(g: Graph, h: Graph, a: int, b: int) {
    && g.Linked(a, b) && h.Linked(a, b)
    && g.RoadAt(a, b) < |g.roads| && h.RoadAt(a, b) < |h.roads|
    && g.roads[g.RoadAt(a, b)].length == h.roads[h.RoadAt(a, b)].length
    && g.roads[g.RoadAt(a, b)].closed == h.roads[h.RoadAt(a, b)].closed
  }

  /** `g` and `h` have the same links, and the road on each link has the same length and the
      same closed flag in both. Positions in the road tables, neighbour orders and isolated
      intersections may differ. */
  ghost predicate SameView(g: Graph, h: Graph) {
    && (forall a, b :: g.Linked(a, b) <==> h.Linked(a, b))
    && (forall a, b :: g.Linked(a, b) ==> Agree(g, h, a, b))
  }

  lemma SameViewSymmetric(g: Graph, h: Graph)
    requires SameView(g, h)
    ensures SameView(h, g)
  {
    forall a, b | h.Linked(a, b)
      ensures Agree(h, g, a, b)
    {
      assert Agree(g, h, a, b);
    }
  }

  /** The link a step of `g` takes is a link of `h` too, with a road that agrees. */
  lemma StepAgrees(g: Graph, h: Graph, from: int, id: RoadId)
    requires SameView(g, h) && Step(g, from, id)
    ensures Agree(g, h, from, g.roads[id].OtherEndpoint(from))
  {
  }

  /** The road on a link of a valid network is a step from either end. */
  lemma LinkStep(h: Graph, from: int, next: int)
    requires h.LinksOk() && h.Linked(from, next)
    ensures Step(h, from, h.RoadAt(from, next))
    ensures h.roads[h.RoadAt(from, next)].OtherEndpoint(from) == next
  {
    assert h.LinkOk(from, next);
  }

  /** A step over an open road of `g` can be taken in `h` too, to the same intersection over a
      road of the same length. */
  lemma StepAcross(g: Graph, h: Graph, from: int, id: RoadId)
    requires h.LinksOk() && SameView(g, h)
    requires Step(g, from, id) && !g.roads[id].closed
    ensures h.Linked(from, g.roads[id].OtherEndpoint(from))
    ensures Step(h, from, h.RoadAt(from, g.roads[id].OtherEndpoint(from)))
    ensures h.roads[h.RoadAt(from, g.roads[id].OtherEndpoint(from))].OtherEndpoint(from) ==
              g.roads[id].OtherEndpoint(from)
    ensures !h.roads[h.RoadAt(from, g.roads[id].OtherEndpoint(from))].closed
    ensures h.roads[h.RoadAt(from, g.roads[id].OtherEndpoint(from))].length == g.roads[id].length
  {
    var next := g.roads[id].OtherEndpoint(from);
    StepAgrees(g, h, from, id);
    LinkStep(h, from, next);
  }

  /** An open step followed by a path onward that avoids the start is a path. */
  lemma ConsPath(h: Graph, from: int, next: int, to: int, id: RoadId, rest: Path, avoid: set<int>)
    requires from !in avoid && Step(h, from, id) && !h.roads[id].closed
    requires h.roads[id].OtherEndpoint(from) == next && IsPath(h, next, to, rest, avoid + {from})
    ensures IsPath(h, from, to, [id] + rest, avoid)
  {
    assert ([id] + rest)[1..] == rest;
  }

  /** Two paths whose roads have equal lengths position by position have equal lengths. */
  lemma {:induction false} SameLengths(rs: seq<Road>, ts: seq<Road>, p: Path, q: Path)
    requires |p| == |q| && InTable(rs, p) && InTable(ts, q)
    requires forall i :: 0 <= i < |p| ==> rs[p[i]].length == ts[q[i]].length
    ensures Distance(rs, p) == Distance(ts, q)
    decreases |p|
  {
    if p != [] {
      SameLengths(rs, ts, p[..|p| - 1], q[..|q| - 1]);
    }
  }

  /** A path of `g` carried over to `h` link by link: the same intersections in the same order,
      over roads of the same lengths. */
  ghost function Translate(g: Graph, h: Graph, from: int, to: int, p: Path, avoid: set<int>): (q: Path)
    requires h.LinksOk() && SameView(g, h) && IsPath(g, from, to, p, avoid)
    ensures IsPath(h, from, to, q, avoid) && |q| == |p|
    ensures InTable(g.roads, p) && InTable(h.roads, q)
    ensures forall i :: 0 <= i < |p| ==> g.roads[p[i]].length == h.roads[q[i]].length
    decreases |p|
  {
    PathInTable(g, from, to, p, avoid);
    if p == [] then []
    else
      var next := g.roads[p[0]].OtherEndpoint(from);
      var rest := Translate(g, h, next, to, p[1..], avoid + {from});
      StepAcross(g, h, from, p[0]);
      var id := h.RoadAt(from, next);
      ConsPath(h, from, next, to, id, rest, avoid);
      PathInTable(h, from, to, [id] + rest, avoid);
      assert forall i :: 1 <= i < |p| ==> p[i] == p[1..][i - 1] && ([id] + rest)[i] == rest[i - 1];
      [id] + rest
  }

  /** A path and its translation have the same length. */
  lemma TranslateDistance(g: Graph, h: Graph, from: int, to: int, p: Path, avoid: set<int>)
    requires h.LinksOk() && SameView(g, h) && IsPath(g, from, to, p, avoid)
    ensures InTable(g.roads, p) && InTable(h.roads, Translate(g, h, from, to, p, avoid))
    ensures Distance(h.roads, Translate(g, h, from, to, p, avoid)) == Distance(g.roads, p)
  {
    var q := Translate(g, h, from, to, p, avoid);
    SameLengths(g.roads, h.roads, p, q);
  }

  /** When a path joins two distinct intersections of `g`, the shortest distance in `h` is no
      greater than in `g`. */
  lemma RouteAcross(g: Graph, h: Graph, s: int, e: int, p: Path)
    requires g.Valid() && h.Valid() && SameView(g, h) && s in g.nodes && s in h.nodes && s != e
    requires IsPath(g, s, e, p, {})
    ensures RouteDistance(h, s, e) <= RouteDistance(g, s, e)
  {
    ValidLinksOk(h);
    RouteIsShortest(g, s, e, p);
    var route := ShortestRoute(g, s, e);
    var q := Translate(g, h, s, e, route, {});
    TranslateDistance(g, h, s, e, route, {});
    RouteNoLonger(h, s, e, q);
  }

  /** Two networks with the same view have the same shortest distance between any two
      intersections present in both. */
  lemma RouteDistanceSameView(g: Graph, h: Graph, s: int, e: int)
    requires g.Valid() && h.Valid() && SameView(g, h) && s in g.nodes && s in h.nodes
    ensures RouteDistance(g, s, e) == RouteDistance(h, s, e)
  {
    SameViewSymmetric(g, h);
    ValidLinksOk(g);
    ValidLinksOk(h);
    if s == e {
      NoRoute(g, s, e);
      NoRoute(h, s, e);
    } else if p :| IsPath(g, s, e, p, {}) {
      var q := Translate(g, h, s, e, p, {});
      RouteAcross(g, h, s, e, p);
      RouteAcross(h, g, s, e, q);
    } else {
      forall q | IsPath(h, s, e, q, {})
        ensures false
      {
        var p := Translate(h, g, s, e, q, {});
      }
      NoRoute(g, s, e);
      NoRoute(h, s, e);
    }
  }

  /** Replacing the road records by records with the same endpoints keeps the invariants. */
  lemma SameEndpointsValid(g: Graph, rs: seq<Road>)
    requires g.Valid() && |rs| == |g.roads|
    requires forall i :: 0 <= i < |rs| ==> rs[i].end1 == g.roads[i].end1 && rs[i].end2 == g.roads[i].end2
    ensures Graph(g.nodes, g.addresses, rs).Valid()
  {
    var h := Graph(g.nodes, g.addresses, rs);
    forall x | x in h.nodes
      ensures h.NodeOk(x)
    {
      assert g.NodeOk(x);
      forall b | b in h.nodes[x].roads
        ensures h.LinkOk(x, b)
      {
        assert g.LinkOk(x, b);
      }
    }
    forall i | 0 <= i < |h.roads|
      ensures h.RoadOk(i)
    {
      assert g.RoadOk(i);
    }
  }

  /** The network with every road open again: a rebuilt network gets fresh roads, and a fresh
      road is open. */
  ghost function Reopened(g: Graph): (h: Graph)
    ensures h.nodes == g.nodes && h.addresses == g.addresses && |h.roads| == |g.roads|
    ensures forall i :: 0 <= i < |g.roads| ==> h.roads[i] == g.roads[i].(closed := false)
  {
    Graph(g.nodes, g.addresses, seq(|g.roads|, i requires 0 <= i < |g.roads| => g.roads[i].(closed := false)))
  }

  /** Reopening every road keeps the invariants. */
  lemma ReopenedValid(g: Graph)
    requires g.Valid()
    ensures Reopened(g).Valid()
  {
    SameEndpointsValid(g, Reopened(g).roads);
  }

  /** Reopening every road keeps every link well formed. */
  lemma ReopenedLinksOk(g: Graph)
    requires g.LinksOk()
    ensures Reopened(g).LinksOk()
  {
    var h := Reopened(g);
    forall a, b | h.Linked(a, b)
      ensures h.LinkOk(a, b)
    {
      assert g.LinkOk(a, b);
    }
  }

  /** `g` with `ev` applied to the road between `a` and `b`. */
  function Perturbed(g: Graph, a: int, b: int, ev: Event): (h: Graph)
    requires g.Linked(a, b) && g.RoadAt(a, b) < |g.roads|
  {
    match ev
    case Traffic => g.WithTraffic(a, b)
    case Closure => g.WithClosure(a, b)
  }

  /** An event keeps the invariants, the intersections and the links. */
  lemma PerturbedValid(g: Graph, a: int, b: int, ev: Event)
    requires g.Valid() && g.Linked(a, b)
    ensures g.RoadAt(a, b) < |g.roads|
    ensures Perturbed(g, a, b, ev).Valid() && Perturbed(g, a, b, ev).nodes == g.nodes
  {
    LinkSymmetric(g, a, b);
    if ev == Traffic {
      WithTrafficValid(g, a, b);
    } else {
      WithClosureValid(g, a, b);
    }
  }

  /** Replacing the road on the same link of two networks with the same view by records that
      agree keeps the view the same. */
  lemma SameViewRecord(g: Graph, h: Graph, a: int, b: int, rg: Road, rh: Road)
    requires g.LinksOk() && h.LinksOk() && SameView(g, h) && g.Linked(a, b)
    requires rg.length == rh.length && rg.closed == rh.closed
    ensures h.Linked(a, b) && g.RoadAt(a, b) < |g.roads| && h.RoadAt(a, b) < |h.roads|
    ensures SameView(g.WithRecord(g.RoadAt(a, b), rg), h.WithRecord(h.RoadAt(a, b), rh))
  {
    assert g.LinkOk(a, b) && h.LinkOk(a, b);
    var g' := g.WithRecord(g.RoadAt(a, b), rg);
    var h' := h.WithRecord(h.RoadAt(a, b), rh);
    forall x, y
      ensures g'.Linked(x, y) <==> h'.Linked(x, y)
    {
      assert g'.Linked(x, y) == g.Linked(x, y) && h'.Linked(x, y) == h.Linked(x, y);
    }
    forall x, y | g'.Linked(x, y)
      ensures Agree(g', h', x, y)
    {
      assert Agree(g, h, x, y);
      assert g.LinkOk(x, y) && h.LinkOk(x, y);
      if (x == a && y == b) || (x == b && y == a) {
        assert g.RoadAt(x, y) == g.RoadAt(a, b) && h.RoadAt(x, y) == h.RoadAt(a, b);
      } else {
        assert g.RoadAt(x, y) != g.RoadAt(a, b) && h.RoadAt(x, y) != h.RoadAt(a, b);
      }
    }
  }

  /** An event on the same link of two networks with the same view leaves them with the same
      view. */
  lemma SameViewPerturbed(g: Graph, h: Graph, a: int, b: int, ev: Event)
    requires g.LinksOk() && h.LinksOk() && SameView(g, h) && g.Linked(a, b)
    ensures h.Linked(a, b) && g.RoadAt(a, b) < |g.roads| && h.RoadAt(a, b) < |h.roads|
    ensures SameView(Perturbed(g, a, b, ev), Perturbed(h, a, b, ev))
  {
    assert Agree(g, h, a, b);
    var rg := g.roads[g.RoadAt(a, b)];
    var rh := h.roads[h.RoadAt(a, b)];
    if ev == Traffic {
      SameViewRecord(g, h, a, b, rg.(length := 2.0 * rg.length), rh.(length := 2.0 * rh.length));
    } else {
      SameViewRecord(g, h, a, b, rg.(closed := true), rh.(closed := true));
    }
  }

  /** What the copy-then-perturb analysis should see for the road between `a` and `b` of `g`:
      every road open again, then the event applied to that one road. */
  ghost function EventView(g: Graph, a: int, b: int, ev: Event): (h: Graph)
    requires g.Valid() && g.Linked(a, b)
    ensures h.nodes == g.nodes
  {
    assert g.NodeOk(a) && g.LinkOk(a, b);
    Perturbed(Reopened(g), a, b, ev)
  }

  /** The view after an event keeps the invariants. */
  lemma EventViewValid(g: Graph, a: int, b: int, ev: Event)
    requires g.Valid() && g.Linked(a, b)
    ensures EventView(g, a, b, ev).Valid()
  {
    ReopenedValid(g);
    PerturbedValid(Reopened(g), a, b, ev);
  }

  /** Reopening a network none of whose roads is closed changes nothing. */
  lemma ReopenedOpen(g: Graph)
    requires g.Valid() && forall i :: 0 <= i < |g.roads| ==> !g.roads[i].closed
    ensures Reopened(g) == g
  {
    var h := Reopened(g);
    assert h.roads == g.roads by {
      forall i | 0 <= i < |g.roads| ensures h.roads[i] == g.roads[i] {
        assert !g.roads[i].closed;
      }
    }
  }

  /** A closure is visible: the network with a road closed never has the same view as the
      network with every road open. */
  lemma ClosureVisible(g: Graph, a: int, b: int)
    requires g.Valid() && g.Linked(a, b)
    ensures !SameView(Reopened(g), EventView(g, a, b, Closure))
  {
    var r := Reopened(g);
    var h := EventView(g, a, b, Closure);
    ReopenedValid(g);
    LinkSymmetric(r, a, b);
    WithClosureValid(r, a, b);
    assert h == r.WithClosure(a, b);
    assert h.RoadAt(a, b) == r.RoadAt(a, b);
    assert !Agree(r, h, a, b);
  }
}
