/** The sphere as liblwgeom/lwgeodetic_tree.c uses it: points, edges and the primitives of lwgeodetic.c,
    of which only their geometric meaning is known. */
module Sphere {
  const FP_TOLERANCE := 0.00000000000005

  datatype Point = Point(lon: real, lat: real)

  /** An edge, or a single point when both ends are the same. */
  datatype Edge = Edge(p1: Point, p2: Point)

  /** dist is `sphere_distance`, toPoint is `edge_distance_to_point`, meet is `edge_intersects`, crossing is
      `edge_intersection`, toEdge is `edge_distance_to_edge`, toward is `circ_center_spherical`. The points
      of an edge are those for which `on` holds. */
  datatype Primitives = Primitives(
    dist: (Point, Point) -> real,
    on: (Edge, Point) -> bool,
    toPoint: (Edge, Point) -> (real, Point),
    meet: (Edge, Edge) -> bv8,
    crossing: (Edge, Edge) -> Point,
    toEdge: (Edge, Edge) -> (real, Point, Point),
    toward: (Point, Point, real) -> Point)

  const PIR_INTERSECTS: bv8 := 0x01
  const PIR_COLINEAR: bv8 := 0x02
  const PIR_B_TOUCH_RIGHT: bv8 := 0x10

  /** Distances are angles: no more than half a turn, which is less than four. */
  ghost predicate Metric(g: Primitives) {
    && (forall x, y {:trigger g.dist(x, y)} :: 0.0 <= g.dist(x, y) <= 4.0)
    && (forall x {:trigger g.dist(x, x)} :: g.dist(x, x) == 0.0)
    && (forall x, y {:trigger g.dist(x, y)} :: g.dist(x, y) == g.dist(y, x))
    && (forall x, y, z {:trigger g.dist(x, y), g.dist(y, z), g.dist(x, z)} ::
          g.dist(x, z) <= g.dist(x, y) + g.dist(y, z))
  }

  /** d is the least distance from a point of e to a point of f. */
  ghost predicate LeastBetween(g: Primitives, d: real, e: Edge, f: Edge) {
    && (forall x, y :: g.on(e, x) && g.on(f, y) ==> d <= g.dist(x, y))
    && exists x, y :: g.on(e, x) && g.on(f, y) && d == g.dist(x, y)
  }

  /** `toPoint` finds the point of e nearest to q. */
  ghost predicate FindsNearest(g: Primitives, e: Edge, q: Point) {
    var (d, near) := g.toPoint(e, q);
    && g.on(e, near) && g.dist(q, near) == d
    && forall x {:trigger g.on(e, x)} :: g.on(e, x) ==> d <= g.dist(q, x)
  }

  /** Edges that meet do so in a point of both. */
  ghost predicate FindsCrossing(g: Primitives, e: Edge, f: Edge) {
    g.meet(e, f) != 0 ==> g.on(e, g.crossing(e, f)) && g.on(f, g.crossing(e, f))
  }

  /** For edges that do not meet, `toEdge` finds the least distance and two points that have it. */
  ghost predicate FindsLeast(g: Primitives, e: Edge, f: Edge) {
    g.meet(e, f) == 0 ==>
      var (d, x, y) := g.toEdge(e, f);
      LeastBetween(g, d, e, f) && g.dist(x, y) == d
  }

  /** `toward` finds the point at distance d on the way from p to q. */
  ghost predicate FindsBetween(g: Primitives, p: Point, q: Point, d: real) {
    0.0 <= d <= g.dist(p, q) ==>
      var m := g.toward(p, q, d);
      g.dist(p, m) == d && g.dist(m, q) == g.dist(p, q) - d
  }

  /** The primitives mean what their names say. */
  ghost predicate Sound(g: Primitives) {
    && Metric(g)
    && (forall e: Edge {:trigger g.on(e, e.p1)} :: g.on(e, e.p1))
    && (forall p, x {:trigger g.on(Edge(p, p), x)} :: g.on(Edge(p, p), x) ==> x == p)
    && (forall e, q {:trigger FindsNearest(g, e, q)} :: FindsNearest(g, e, q))
    && (forall e, f {:trigger FindsCrossing(g, e, f)} :: FindsCrossing(g, e, f))
    && (forall e, f {:trigger FindsLeast(g, e, f)} :: FindsLeast(g, e, f))
    && (forall p, q, d {:trigger FindsBetween(g, p, q, d)} :: FindsBetween(g, p, q, d))
  }

  /** A globe with a single place. */
  ghost function OnePlace(): (g: Primitives)
    ensures Sound(g)
  {
    var g := Primitives(
      (x, y) => 0.0,
      (e: Edge, x) => x == e.p1,
      (e: Edge, x) => (0.0, e.p1),
      (e, f) => 0,
      (e: Edge, f) => e.p1,
      (e: Edge, f: Edge) => (0.0, e.p1, f.p1),
      (p, q, d) => p);
    assert Metric(g);
    assert forall e: Edge, f: Edge {:trigger g.toEdge(e, f)} :: LeastBetween(g, 0.0, e, f) by {
      forall e: Edge, f: Edge ensures LeastBetween(g, 0.0, e, f) {
        assert g.on(e, e.p1) && g.on(f, f.p1) && g.dist(e.p1, f.p1) == 0.0;
      }
    }
    g
  }

  type Globe = g: Primitives | Sound(g) ghost witness OnePlace()

  // ---------- the real calculation at a pair of leaves ----------

  /** The branches of `circ_tree_distance_tree_internal` for two leaves: the distance and its two points. */
  function LeafGap(g: Primitives, e: Edge, f: Edge): (real, Point, Point) {
    if e.p1 == e.p2 && f.p1 == f.p2 then (g.dist(e.p1, f.p1), e.p1, f.p1)
    else if e.p1 == e.p2 then
      var (d, near) := g.toPoint(f, e.p1);
      (d, e.p1, near)
    else if f.p1 == f.p2 then
      var (d, near) := g.toPoint(e, f.p1);
      (d, f.p1, near)
    else if g.meet(e, f) != 0 then (0.0, g.crossing(e, f), g.crossing(e, f))
    else g.toEdge(e, f)
  }

  /** At a pair of leaves the distance is the least between the two edges, and is realised by the points. */
  lemma LeafGapIsLeast(g: Globe, e: Edge, f: Edge)
    ensures var (d, c1, c2) := LeafGap(g, e, f);
            LeastBetween(g, d, e, f) && g.dist(c1, c2) == d && d >= 0.0
  {
    if e.p1 == e.p2 && f.p1 == f.p2 {
      assert g.on(e, e.p1) && g.on(f, f.p1);
    } else if e.p1 == e.p2 {
      var c := g.toPoint(f, e.p1).1;
      assert g.on(e, e.p1) && FindsNearest(g, f, e.p1) && g.dist(e.p1, c) == g.toPoint(f, e.p1).0;
    } else if f.p1 == f.p2 {
      var c := g.toPoint(e, f.p1).1;
      assert g.on(f, f.p1) && FindsNearest(g, e, f.p1) && g.dist(c, f.p1) == g.toPoint(e, f.p1).0;
      forall x, y | g.on(e, x) && g.on(f, y) ensures g.toPoint(e, f.p1).0 <= g.dist(x, y) {
        assert y == f.p1 && g.dist(x, y) == g.dist(y, x);
      }
    } else if g.meet(e, f) != 0 {
      var c := g.crossing(e, f);
      assert FindsCrossing(g, e, f) && g.dist(c, c) == 0.0;
    } else {
      assert FindsLeast(g, e, f);
    }
  }
}
