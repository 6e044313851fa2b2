/** The circle tree of liblwgeom/lwgeodetic_tree.c: its nodes, what makes a tree valid, and the test
    that walks it with a stab line. */
module CircTree {
  import opened Basics
  import opened GeomTypes
  import opened Sphere

  const CIRC_NODE_SIZE := 8

  /** CIRC_NODE. A leaf is a node without child nodes. */
  datatype Tree =
    | Leaf(center: Point, radius: real, geomType: nat, outside: Point, edge: Edge)
    | Inner(center: Point, radius: real, geomType: nat, outside: Point, nodes: seq<Tree>)

  /** The leaf edges of a tree, from left to right. */
  function Edges(t: Tree): seq<Edge>
    decreases t
  {
    match t
    case Leaf(_, _, _, _, e) => [e]
    case Inner(_, _, _, _, nodes) => EdgesOf(nodes)
  }

  function EdgesOf(s: seq<Tree>): seq<Edge>
    decreases s
  {
    if s == [] then [] else Edges(s[0]) + EdgesOf(s[1..])
  }

  /** The circle of every node encloses every point of every leaf edge below it. */
  ghost predicate Encloses(g: Primitives, t: Tree)
    decreases t
  {
    && (forall e, x :: e in Edges(t) && g.on(e, x) ==> g.dist(t.center, x) <= t.radius)
    && (t.Inner? ==> forall c :: c in t.nodes ==> Encloses(g, c))
  }

  /** Every internal node has two to eight children, as many as the array that sorts them can hold. */
  predicate FanOut(t: Tree)
    decreases t
  {
    t.Inner? ==> 2 <= |t.nodes| <= CIRC_NODE_SIZE && forall c :: c in t.nodes ==> FanOut(c)
  }

  ghost predicate Valid(g: Primitives, t: Tree) {
    Encloses(g, t) && FanOut(t)
  }

  lemma ConcatAssoc(a: seq<Edge>, b: seq<Edge>, c: seq<Edge>)
    ensures a + (b + c) == (a + b) + c
  {
  }

  lemma {:induction false} EdgesOfAppend(s: seq<Tree>, t: seq<Tree>)
    ensures EdgesOf(s + t) == EdgesOf(s) + EdgesOf(t)
  {
    if s == [] {
      assert s + t == t;
    } else {
      EdgesOfAppend(s[1..], t);
      var all := s + t;
      assert all[0] == s[0] && all[1..] == s[1..] + t;
      assert EdgesOf(all) == Edges(s[0]) + EdgesOf(all[1..]);
      ConcatAssoc(Edges(s[0]), EdgesOf(s[1..]), EdgesOf(t));
    }
  }

  lemma EdgesOfOne(t: Tree)
    ensures EdgesOf([t]) == Edges(t)
  {
    assert [t][1..] == [];
    assert EdgesOf([t]) == Edges(t) + EdgesOf([t][1..]);
  }

  lemma EdgesOfSnoc(s: seq<Tree>, i: nat)
    requires i < |s|
    ensures EdgesOf(s[..i + 1]) == EdgesOf(s[..i]) + Edges(s[i])
  {
    assert s[..i + 1] == s[..i] + [s[i]];
    EdgesOfAppend(s[..i], [s[i]]);
    EdgesOfOne(s[i]);
  }

  lemma {:induction false} EdgesOfIn(s: seq<Tree>, e: Edge)
    ensures e in EdgesOf(s) <==> exists c :: c in s && e in Edges(c)
  {
    if s != [] {
      EdgesOfIn(s[1..], e);
      if e in EdgesOf(s[1..]) {
        var c :| c in s[1..] && e in Edges(c);
        assert c in s;
      } else if e in EdgesOf(s) {
        assert s[0] in s && e in Edges(s[0]);
      }
      forall c | c in s && e in Edges(c) ensures e in EdgesOf(s) {
        assert c == s[0] || c in s[1..];
      }
    }
  }

  lemma ChildEdges(t: Tree, c: Tree, e: Edge)
    requires t.Inner? && c in t.nodes && e in Edges(c)
    ensures e in Edges(t)
  {
    EdgesOfIn(t.nodes, e);
  }

  lemma {:induction false} SomeEdge(t: Tree)
    requires FanOut(t)
    ensures Edges(t) != []
    decreases t
  {
    if t.Inner? {
      SomeEdge(t.nodes[0]);
    }
  }

  // ---------- containment ----------

  /** The flags with which a crossing of the stab line counts: it crosses, and does not graze. */
  predicate Accepted(inter: bv8) {
    inter & PIR_INTERSECTS != 0 && !(inter & PIR_B_TOUCH_RIGHT != 0 || inter & PIR_COLINEAR != 0)
  }

  /** How many of the edges the stab line crosses: the linear scan. */
  function Crossings(g: Primitives, stab: Edge, edges: seq<Edge>): nat {
    if edges == [] then 0
    else (if Accepted(g.meet(stab, edges[0])) then 1 else 0) + Crossings(g, stab, edges[1..])
  }

  lemma {:induction false} CrossingsAppend(g: Primitives, stab: Edge, s: seq<Edge>, t: seq<Edge>)
    ensures Crossings(g, stab, s + t) == Crossings(g, stab, s) + Crossings(g, stab, t)
  {
    if s == [] {
      assert s + t == t;
    } else {
      CrossingsAppend(g, stab, s[1..], t);
      assert (s + t)[1..] == s[1..] + t;
    }
  }

  lemma CrossingsSnoc(g: Primitives, stab: Edge, nodes: seq<Tree>, i: nat)
    requires i < |nodes|
    ensures Crossings(g, stab, EdgesOf(nodes[..i + 1])) ==
            Crossings(g, stab, EdgesOf(nodes[..i])) + Crossings(g, stab, Edges(nodes[i]))
  {
    EdgesOfSnoc(nodes, i);
    CrossingsAppend(g, stab, EdgesOf(nodes[..i]), Edges(nodes[i]));
  }

  /** A stab line that stays out of the circle of a tree crosses none of its edges. */
  lemma {:induction false} OutOfReach(g: Globe, stab: Edge, t: Tree, edges: seq<Edge>)
    requires Encloses(g, t) && forall e :: e in edges ==> e in Edges(t)
    requires !(g.toPoint(stab, t.center).0 - FP_TOLERANCE <= t.radius)
    ensures Crossings(g, stab, edges) == 0
  {
    if edges != [] {
      var e := edges[0];
      var x := g.crossing(stab, e);
      assert FindsCrossing(g, stab, e) && FindsNearest(g, stab, t.center);
      assert e in Edges(t) && (g.on(e, x) ==> g.dist(t.center, x) <= t.radius);
      OutOfReach(g, stab, t, edges[1..]);
    }
  }

  predicate SameParity(a: nat, b: nat) {
    a % 2 == b % 2
  }

  lemma ParityAdds(a: nat, b: nat, x: nat, y: nat)
    requires SameParity(a, x) && SameParity(b, y)
    ensures SameParity(a + b, x + y)
  {
  }

  /** The flags of a leaf: its crossing number. */
  lemma LeafCrossings(g: Primitives, stab: Edge, e: Edge)
    ensures Crossings(g, stab, [e]) == if Accepted(g.meet(stab, e)) then 1 else 0
  {
    assert [e][1..] == [];
  }

  /** `circ_tree_contains_point`: the pruned walk, reduced mod 2 at every node, gives the parity of the
      crossings over all leaf edges. */
  method ContainsPoint(g: Globe, node: Tree, pt: Point, ptOutside: Point) returns (r: nat)
    requires Encloses(g, node)
    ensures r == Crossings(g, Edge(pt, ptOutside), Edges(node)) % 2
    decreases node
  {
    var stab := Edge(pt, ptOutside);
    var d := g.toPoint(stab, node.center).0;
    if d - FP_TOLERANCE <= node.radius {
      match node
      case Leaf(_, _, _, _, edge) =>
        var inter := g.meet(stab, edge);
        LeafCrossings(g, stab, edge);
        if inter & PIR_INTERSECTS != 0 {
          if inter & PIR_B_TOUCH_RIGHT != 0 || inter & PIR_COLINEAR != 0 {
            return 0;
          } else {
            return 1;
          }
        }
      case Inner(_, _, _, _, nodes) =>
        var c := CrossingsOfChildren(g, nodes, pt, ptOutside);
        return c % 2;
    } else {
      OutOfReach(g, stab, node, Edges(node));
    }
    return 0;
  }

  /** The loop of `circ_tree_contains_point` over the children of an internal node. */
  method CrossingsOfChildren(g: Globe, nodes: seq<Tree>, pt: Point, ptOutside: Point) returns (c: nat)
    requires forall t :: t in nodes ==> Encloses(g, t)
    ensures SameParity(c, Crossings(g, Edge(pt, ptOutside), EdgesOf(nodes)))
    decreases nodes
  {
    ghost var stab := Edge(pt, ptOutside);
    ghost var total := 0;
    c := 0;
    for i := 0 to |nodes|
      invariant total == Crossings(g, stab, EdgesOf(nodes[..i]))
      invariant SameParity(c, total)
    {
      var k := ContainsPoint(g, nodes[i], pt, ptOutside);
      CrossingsSnoc(g, stab, nodes, i);
      ghost var more := Crossings(g, stab, Edges(nodes[i]));
      ParityAdds(c, k, total, more);
      c, total := c + k, total + more;
    }
    assert nodes[..|nodes|] == nodes;
  }
}
