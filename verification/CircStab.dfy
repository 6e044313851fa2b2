/** What a stab line counts: `edge_intersects` of liblwgeom/lwgeodetic.c by the sides its ends lie on, and the parity of
    the crossings of a path. */
module CircStab {
  import opened Basics
  import opened GeomTypes
  import opened Sphere
  import opened CircTree
  import opened CircDistance

  const PIR_A_TOUCH_RIGHT: bv8 := 0x04
  const PIR_A_TOUCH_LEFT: bv8 := 0x08
  const PIR_B_TOUCH_LEFT: bv8 := 0x20

  /** `dot_product_side`: 1 for the left, -1 for the right, 0 for on the plane. */
  type Side = s: int | -1 <= s <= 1

  /** What `edge_intersects` works out for edges A and B: whether the planes are one, and then whether an end is in the
      other's cone; the sides of the ends; and whether both cones have a point where the planes meet. */
  datatype Places = Places(coplanar: bool, overlap: bool, a1: Side, a2: Side, b1: Side, b2: Side, inside: bool)

  /** `edge_intersects`. */
  function EdgeFlags(p: Places): bv8 {
    if p.coplanar then (if p.overlap then PIR_INTERSECTS | PIR_COLINEAR else 0)
    else if p.a1 == p.a2 && p.a1 != 0 then 0
    else if p.b1 == p.b2 && p.b1 != 0 then 0
    else if p.a1 != p.a2 && p.a1 + p.a2 == 0 && p.b1 != p.b2 && p.b1 + p.b2 == 0 then
      if p.inside then PIR_INTERSECTS else 0
    else
      PIR_INTERSECTS
      | (if p.a1 == 0 then (if p.a2 < 0 then PIR_A_TOUCH_RIGHT else PIR_A_TOUCH_LEFT)
         else if p.a2 == 0 then (if p.a1 < 0 then PIR_A_TOUCH_RIGHT else PIR_A_TOUCH_LEFT)
         else 0)
      | (if p.b1 == 0 then (if p.b2 < 0 then PIR_B_TOUCH_RIGHT else PIR_B_TOUCH_LEFT)
         else if p.b2 == 0 then (if p.b1 < 0 then PIR_B_TOUCH_RIGHT else PIR_B_TOUCH_LEFT)
         else 0)
  }

  /** A is long enough to meet the plane of B, and where both edges go through, they do so in one place. */
  predicate Reaches(p: Places) {
    && !(p.a1 == p.a2 && p.a1 != 0)
    && (p.a1 * p.a2 < 0 && p.b1 * p.b2 < 0 ==> p.inside)
  }

  /** An edge within reach counts exactly if one of its ends is strictly to the left and the other is not: what touches
      from the right, or lies in the stab line, is not counted. */
  lemma CountsExactly(p: Places)
    ensures Accepted(EdgeFlags(p)) <==>
            !p.coplanar && Reaches(p) && ((p.b1 > 0) != (p.b2 > 0) || (p.b1 == 0 && p.b2 == 0))
  {
    assert p.a1 * p.a2 < 0 <==> p.a1 != p.a2 && p.a1 + p.a2 == 0;
    assert p.b1 * p.b2 < 0 <==> p.b1 != p.b2 && p.b1 + p.b2 == 0;
  }

  predicate Has(flags: bv8, flag: bv8) {
    flags & flag != 0
  }

  /** Seen from the other edge the flags of A are those of B. */
  lemma FlagsMirror(p: Places)
    ensures var here, there := EdgeFlags(p), EdgeFlags(p.(a1 := p.b1, a2 := p.b2, b1 := p.a1, b2 := p.a2));
            && Has(here, PIR_INTERSECTS) == Has(there, PIR_INTERSECTS)
            && Has(here, PIR_COLINEAR) == Has(there, PIR_COLINEAR) == (p.coplanar && p.overlap)
            && Has(here, PIR_A_TOUCH_RIGHT) == Has(there, PIR_B_TOUCH_RIGHT)
            && Has(here, PIR_A_TOUCH_LEFT) == Has(there, PIR_B_TOUCH_LEFT)
  {
  }

  /** The stab line reaches the edge, or the edge lies in it. An edge that lies in the plane has both ends there, and no
      other has. */
  ghost predicate InReach(g: Primitives, stab: Edge, side: Point -> Side, e: Edge) {
    exists p: Places ::
      && g.meet(stab, e) == EdgeFlags(p) && p.b1 == side(e.p1) && p.b2 == side(e.p2)
      && (p.coplanar || Reaches(p)) && (p.coplanar <==> p.b1 == 0 && p.b2 == 0)
  }

  predicate OnLeft(side: Point -> Side, p: Point) {
    side(p) > 0
  }

  lemma ChangesSides(g: Primitives, stab: Edge, side: Point -> Side, e: Edge)
    requires InReach(g, stab, side, e)
    ensures Accepted(g.meet(stab, e)) <==> OnLeft(side, e.p1) != OnLeft(side, e.p2)
  {
    var p: Places :| && g.meet(stab, e) == EdgeFlags(p) && p.b1 == side(e.p1) && p.b2 == side(e.p2)
                     && (p.coplanar || Reaches(p)) && (p.coplanar <==> p.b1 == 0 && p.b2 == 0);
    CountsExactly(p);
  }

  /** Whatever vertices lie on the stab line, the crossings of a path tell whether its ends are on different sides. */
  lemma {:induction false} PathParity(g: Primitives, stab: Edge, side: Point -> Side, edges: seq<Edge>)
    requires edges != [] && forall e :: e in edges ==> InReach(g, stab, side, e)
    requires forall k :: 0 <= k < |edges| - 1 ==> edges[k].p2 == edges[k + 1].p1
    ensures Crossings(g, stab, edges) % 2 == 1 <==>
            OnLeft(side, edges[0].p1) != OnLeft(side, edges[|edges| - 1].p2)
    decreases |edges|
  {
    ChangesSides(g, stab, side, edges[0]);
    if |edges| > 1 {
      PathParity(g, stab, side, edges[1..]);
    } else {
      assert edges[1..] == [];
    }
  }

  lemma CrossingsOfTwo(g: Primitives, stab: Edge, e: Edge, f: Edge)
    ensures Crossings(g, stab, [e, f]) == Bit(Accepted(g.meet(stab, e))) + Bit(Accepted(g.meet(stab, f)))
  {
    assert [e, f] == [e] + [f];
    CrossingsAppend(g, stab, [e], [f]);
    LeafCrossings(g, stab, e);
    LeafCrossings(g, stab, f);
  }

  /** Two edges that meet on the stab line: if the path goes through there it is counted once, and if it turns back it
      is counted twice on the left and not at all on the right. */
  lemma VertexOnLine(g: Primitives, stab: Edge, side: Point -> Side, e: Edge, f: Edge)
    requires InReach(g, stab, side, e) && InReach(g, stab, side, f) && e.p2 == f.p1
    requires side(e.p2) == 0 && side(e.p1) != 0 && side(f.p2) != 0
    ensures Crossings(g, stab, [e, f]) ==
            if side(e.p1) != side(f.p2) then 1 else if side(e.p1) == 1 then 2 else 0
  {
    ChangesSides(g, stab, side, e);
    ChangesSides(g, stab, side, f);
    CrossingsOfTwo(g, stab, e, f);
  }

  /** Which edges a linear scan counts. */
  function Counted(g: Primitives, stab: Edge, edges: seq<Edge>): set<nat> {
    set k: nat | k < |edges| && Accepted(g.meet(stab, edges[k]))
  }

  lemma {:induction false} CrossingsAreMany(g: Primitives, stab: Edge, edges: seq<Edge>)
    ensures Crossings(g, stab, edges) == |Counted(g, stab, edges)|
  {
    if edges != [] {
      var n := |edges| - 1;
      var before := edges[..n];
      CrossingsAreMany(g, stab, before);
      assert edges == before + [edges[n]];
      CrossingsAppend(g, stab, before, [edges[n]]);
      LeafCrossings(g, stab, edges[n]);
      assert Counted(g, stab, edges) ==
             Counted(g, stab, before) + if Accepted(g.meet(stab, edges[n])) then {n} else {};
    }
  }

  /** A point is inside a polygon exactly if the line from it to the point outside crosses an odd number of edges, and
      not if that line keeps out of the circle. */
  lemma InsideIsOdd(g: Globe, n: Tree, m: Tree)
    requires Encloses(g, n) && n.geomType == POLYGONTYPE && m.geomType != 0 && !IsCollection(m.geomType)
    ensures var stab := Edge(FirstPoint(m), n.outside);
            && (PointInside(g, n, m) <==> |Counted(g, stab, Edges(n))| % 2 == 1)
            && (g.toPoint(stab, n.center).0 - FP_TOLERANCE > n.radius ==> !PointInside(g, n, m))
  {
    var stab := Edge(FirstPoint(m), n.outside);
    CrossingsAreMany(g, stab, Edges(n));
    if g.toPoint(stab, n.center).0 - FP_TOLERANCE > n.radius {
      OutOfReach(g, stab, n, Edges(n));
    }
  }

  /** The point tested is the first vertex of the geometry. */
  lemma {:induction false} FirstPointIsFirst(t: Tree)
    requires FanOut(t)
    ensures Edges(t) != [] && FirstPoint(t) == Edges(t)[0].p1
    decreases t
  {
    if t.Inner? {
      FirstPointIsFirst(t.nodes[0]);
    }
  }
}
