/** Building the tree: `circ_node_internal_new` and `circ_nodes_merge` of liblwgeom/lwgeodetic_tree.c. */
module CircMerge {
  import opened Basics
  import opened GeomTypes
  import opened Sphere
  import opened CircTree

  datatype Circle = Circle(center: Point, radius: real)

  function CircleOf(t: Tree): Circle {
    Circle(t.center, t.radius)
  }

  /** The circle `small` lies inside the circle `big`. */
  predicate Covers(g: Primitives, big: Circle, small: Circle) {
    g.dist(big.center, small.center) + small.radius <= big.radius
  }

  function Abs(x: real): real {
    if x < 0.0 then -x else x
  }

  /** The two centres count as the same point. */
  predicate Concentric(g: Primitives, c: Circle, ci: Circle) {
    g.dist(c.center, ci.center) <= FP_TOLERANCE
  }

  /** One round of the merging loop: the new circle after the next child. */
  function Absorb(g: Primitives, c: Circle, ci: Circle): Circle {
    var dist, r1, ri := g.dist(c.center, ci.center), c.radius, ci.radius;
    if Concentric(g, c, ci) then Circle(c.center, r1 + 2.0 * dist)
    else if dist < Abs(r1 - ri) then
      if r1 > ri then c else ci
    else
      var D := dist + r1 + ri;
      var offset1 := ri + (D - (2.0 * r1 + 2.0 * ri)) / 2.0;
      Circle(g.toward(c.center, ci.center, offset1), D / 2.0)
  }

  /** The new circle always covers the old one; it covers the next child unless the centres coincide and
      the next child is larger. */
  lemma AbsorbCovers(g: Globe, c: Circle, ci: Circle)
    ensures Covers(g, Absorb(g, c, ci), c)
    ensures Covers(g, Absorb(g, c, ci), ci) <==>
              !(Concentric(g, c, ci) && ci.radius > c.radius + g.dist(c.center, ci.center))
  {
    var dist := g.dist(c.center, ci.center);
    assert g.dist(c.center, c.center) == 0.0 && g.dist(ci.center, ci.center) == 0.0;
    assert g.dist(ci.center, c.center) == dist >= 0.0;
    if !Concentric(g, c, ci) && !(dist < Abs(c.radius - ci.radius)) {
      var offset := (dist + ci.radius - c.radius) / 2.0;
      var m := g.toward(c.center, ci.center, offset);
      assert Absorb(g, c, ci).center == m;
      assert FindsBetween(g, c.center, ci.center, offset);
      assert g.dist(c.center, m) == offset && g.dist(m, c.center) == offset;
    }
  }

  function AbsorbAll(g: Primitives, c: Circle, rest: seq<Tree>): Circle
    decreases |rest|
  {
    if rest == [] then c else AbsorbAll(g, Absorb(g, c, CircleOf(rest[0])), rest[1..])
  }

  /** No child is larger than a circle merged before it about the same centre. */
  predicate NoLargerTwin(g: Primitives, c: Circle, rest: seq<Tree>)
    decreases |rest|
  {
    rest != [] ==>
      && !(Concentric(g, c, CircleOf(rest[0])) && rest[0].radius > c.radius + g.dist(c.center, rest[0].center))
      && NoLargerTwin(g, Absorb(g, c, CircleOf(rest[0])), rest[1..])
  }

  /** That is to say that every round covers the child it merges. */
  lemma {:induction false} RoundsCover(g: Globe, c: Circle, rest: seq<Tree>)
    ensures NoLargerTwin(g, c, rest) <==>
            forall k :: 0 <= k < |rest| ==> Covers(g, AbsorbAll(g, c, rest[..k + 1]), CircleOf(rest[k]))
    decreases |rest|
  {
    if rest != [] {
      var next := Absorb(g, c, CircleOf(rest[0]));
      AbsorbCovers(g, c, CircleOf(rest[0]));
      RoundsCover(g, next, rest[1..]);
      forall k | 0 <= k < |rest|
        ensures k == 0 ==> AbsorbAll(g, c, rest[..k + 1]) == next
        ensures k > 0 ==> AbsorbAll(g, c, rest[..k + 1]) == AbsorbAll(g, next, rest[1..][..k])
      {
        assert rest[..k + 1][1..] == rest[1..][..k];
      }
      forall k | 0 <= k < |rest| - 1
        ensures Covers(g, AbsorbAll(g, next, rest[1..][..k + 1]), CircleOf(rest[1..][k])) <==>
                Covers(g, AbsorbAll(g, c, rest[..k + 2]), CircleOf(rest[k + 1]))
      {
      }
      assert rest[..0 + 1] == rest[..1];
    }
  }

  lemma CoversTrans(g: Globe, a: Circle, b: Circle, c: Circle)
    requires Covers(g, a, b) && Covers(g, b, c)
    ensures Covers(g, a, c)
  {
    assert g.dist(a.center, c.center) <= g.dist(a.center, b.center) + g.dist(b.center, c.center);
  }

  lemma {:induction false} AbsorbAllCovers(g: Globe, c: Circle, rest: seq<Tree>)
    requires NoLargerTwin(g, c, rest)
    ensures Covers(g, AbsorbAll(g, c, rest), c)
    ensures forall t :: t in rest ==> Covers(g, AbsorbAll(g, c, rest), CircleOf(t))
    decreases |rest|
  {
    if rest == [] {
      assert g.dist(c.center, c.center) == 0.0;
    } else {
      var next := Absorb(g, c, CircleOf(rest[0]));
      var all := AbsorbAll(g, next, rest[1..]);
      AbsorbCovers(g, c, CircleOf(rest[0]));
      AbsorbAllCovers(g, next, rest[1..]);
      CoversTrans(g, all, next, c);
      CoversTrans(g, all, next, CircleOf(rest[0]));
      assert forall t :: t in rest ==> t == rest[0] || t in rest[1..];
    }
  }

  // ---------- the type of an internal node ----------

  function Promote(t: nat, ti: nat): nat {
    if t == 0 then ti
    else if !IsCollection(t) then (if t != ti then COLLECTIONTYPE else CollectionType(t))
    else if t != CollectionType(ti) then COLLECTIONTYPE
    else t
  }

  function PromoteAll(t: nat, rest: seq<Tree>): nat
    decreases |rest|
  {
    if rest == [] then t else PromoteAll(Promote(t, rest[0].geomType), rest[1..])
  }

  lemma {:induction false} CollectedType(t: nat, rest: seq<Tree>)
    requires IsCollection(t)
    ensures PromoteAll(t, rest) ==
            if forall c :: c in rest ==> CollectionType(c.geomType) == t then t else COLLECTIONTYPE
    decreases |rest|
  {
    if rest != [] {
      CollectedType(Promote(t, rest[0].geomType), rest[1..]);
      assert forall c :: c in rest <==> c == rest[0] || c in rest[1..];
    }
  }

  /** The type of several nodes is a collection that may have the others for parts. It is a narrower one than
      COLLECTIONTYPE exactly if it is the collection of all of them, and the first one is like the second or is that
      collection already. */
  lemma MergedType(t: nat, rest: seq<Tree>, multi: nat)
    requires t != 0 && rest != [] && multi != COLLECTIONTYPE
    ensures var r := PromoteAll(t, rest);
            && IsCollection(r) && (forall c :: c in rest ==> AllowsSubtype(r, c.geomType))
            && (r == multi <==> && (forall c :: c in rest ==> CollectionType(c.geomType) == multi)
                                && (t == multi || (t == rest[0].geomType && !IsCollection(t))))
  {
    var next := Promote(t, rest[0].geomType);
    TakesItsMembers(t);
    assert IsCollection(next);
    CollectedType(next, rest[1..]);
    assert forall c :: c in rest <==> c == rest[0] || c in rest[1..];
    forall c | c in rest ensures AllowsSubtype(PromoteAll(t, rest), c.geomType) {
      TakesItsMembers(c.geomType);
    }
  }

  /** Nodes without a type do not matter before the first that has one. */
  lemma UntypedFirst(first: Tree, rest: seq<Tree>)
    ensures PromoteAll(0, [first] + rest) == PromoteAll(first.geomType, rest)
  {
    assert ([first] + rest)[1..] == rest;
  }

  function NewNode(g: Primitives, c: seq<Tree>): Tree
    requires c != []
  {
    var circle := AbsorbAll(g, CircleOf(c[0]), c[1..]);
    Inner(circle.center, circle.radius, PromoteAll(c[0].geomType, c[1..]), Point(0.0, 0.0), c)
  }

  ghost predicate SafeToMerge(g: Primitives, c: seq<Tree>) {
    c != [] ==> NoLargerTwin(g, CircleOf(c[0]), c[1..])
  }

  /** The circle of a new node encloses what those of its children do. */
  lemma NewNodeEncloses(g: Globe, c: seq<Tree>)
    requires c != [] && SafeToMerge(g, c) && forall t :: t in c ==> Encloses(g, t)
    ensures Encloses(g, NewNode(g, c))
  {
    var node := NewNode(g, c);
    AbsorbAllCovers(g, CircleOf(c[0]), c[1..]);
    forall e, x | e in Edges(node) && g.on(e, x) ensures g.dist(node.center, x) <= node.radius {
      EdgesOfIn(c, e);
      var t :| t in c && e in Edges(t);
      assert t == c[0] || t in c[1..];
      assert Covers(g, CircleOf(node), CircleOf(t));
      assert g.dist(node.center, x) <= g.dist(node.center, t.center) + g.dist(t.center, x);
    }
  }

  /** `circ_node_internal_new`. */
  method InternalNew(g: Primitives, c: seq<Tree>) returns (node: Tree)
    requires c != []
    ensures node == NewNode(g, c)
  {
    var newCenter, newRadius := c[0].center, c[0].radius;
    var newGeomType: nat := c[0].geomType;
    for i := 1 to |c|
      invariant AbsorbAll(g, Circle(newCenter, newRadius), c[i..]) == AbsorbAll(g, CircleOf(c[0]), c[1..])
      invariant PromoteAll(newGeomType, c[i..]) == PromoteAll(c[0].geomType, c[1..])
    {
      assert c[i..][0] == c[i] && c[i..][1..] == c[i + 1..];
      var c1, r1 := newCenter, newRadius;
      var dist := g.dist(c1, c[i].center);
      var ri := c[i].radius;
      if newGeomType == 0 {
        newGeomType := c[i].geomType;
      } else if !IsCollection(newGeomType) {
        if newGeomType != c[i].geomType {
          newGeomType := COLLECTIONTYPE;
        } else {
          newGeomType := CollectionType(newGeomType);
        }
      } else if newGeomType != CollectionType(c[i].geomType) {
        newGeomType := COLLECTIONTYPE;
      }
      if dist <= FP_TOLERANCE {
        newRadius := r1 + 2.0 * dist;
        newCenter := c1;
      } else if dist < Abs(r1 - ri) {
        if r1 > ri {
          newCenter := c1;
          newRadius := r1;
        } else {
          newCenter := c[i].center;
          newRadius := ri;
        }
      } else {
        var D := dist + r1 + ri;
        newRadius := D / 2.0;
        var offset1 := ri + (D - (2.0 * r1 + 2.0 * ri)) / 2.0;
        newCenter := g.toward(c1, c[i].center, offset1);
      }
    }
    node := Inner(newCenter, newRadius, newGeomType, Point(0.0, 0.0), c);
  }

  // ---------- merging a list of nodes into one tree ----------

  /** One pass: groups of eight, a smaller group at the end, a solo node promoted as it is. */
  function Pass(g: Primitives, s: seq<Tree>): (r: seq<Tree>)
    ensures (s != [] ==> r != []) && (|s| > 1 ==> |r| < |s|)
    decreases |s|
  {
    if |s| >= 8 then [NewNode(g, s[..8])] + Pass(g, s[8..])
    else if |s| >= 2 then [NewNode(g, s)]
    else s
  }

  function MergeAll(g: Primitives, s: seq<Tree>): Tree
    requires s != []
    decreases |s|
  {
    if |s| == 1 then s[0] else MergeAll(g, Pass(g, s))
  }

  lemma {:induction false} PassKeepsEdges(g: Primitives, s: seq<Tree>)
    ensures EdgesOf(Pass(g, s)) == EdgesOf(s)
    decreases |s|
  {
    if |s| >= 8 {
      PassKeepsEdges(g, s[8..]);
      EdgesOfAppend(s[..8], s[8..]);
      assert s[..8] + s[8..] == s;
      EdgesOfOne(NewNode(g, s[..8]));
      EdgesOfAppend([NewNode(g, s[..8])], Pass(g, s[8..]));
    } else if |s| >= 2 {
      EdgesOfOne(NewNode(g, s));
    }
  }

  /** Merging loses, duplicates and reorders nothing. */
  lemma {:induction false} MergeKeepsEdges(g: Primitives, s: seq<Tree>)
    requires s != []
    ensures Edges(MergeAll(g, s)) == EdgesOf(s)
    decreases |s|
  {
    if |s| == 1 {
      EdgesOfOne(s[0]);
      assert s == [s[0]];
    } else {
      PassKeepsEdges(g, s);
      MergeKeepsEdges(g, Pass(g, s));
    }
  }

  /** No pass merges a node into a smaller one about the same centre. */
  ghost predicate SafePass(g: Primitives, s: seq<Tree>)
    decreases |s|
  {
    if |s| >= 8 then SafeToMerge(g, s[..8]) && SafePass(g, s[8..]) else |s| >= 2 ==> SafeToMerge(g, s)
  }

  ghost predicate SafePasses(g: Primitives, s: seq<Tree>)
    decreases |s|
  {
    |s| > 1 ==> SafePass(g, s) && SafePasses(g, Pass(g, s))
  }

  /** Of up to eight nodes that is to say that no round of the one merge loses its child. */
  lemma SafeInOnePass(g: Globe, s: seq<Tree>)
    requires 2 <= |s| <= 8
    ensures SafePasses(g, s) <==>
            forall k :: 1 <= k < |s| ==> Covers(g, AbsorbAll(g, CircleOf(s[0]), s[1..k + 1]), CircleOf(s[k]))
  {
    RoundsCover(g, CircleOf(s[0]), s[1..]);
    assert |Pass(g, s)| == 1 && SafePasses(g, Pass(g, s));
    assert |s| == 8 ==> s[..8] == s && SafePass(g, s[8..]);
    forall k | 1 <= k < |s|
      ensures s[1..][k - 1] == s[k] && s[1..][..k] == s[1..k + 1]
    {
    }
    forall k | 0 <= k < |s| - 1
      ensures s[1..][k] == s[k + 1] && s[1..][..k + 1] == s[1..k + 2]
    {
    }
  }

  lemma {:induction false} PassEncloses(g: Globe, s: seq<Tree>)
    requires SafePass(g, s) && forall t :: t in s ==> Encloses(g, t)
    ensures forall t :: t in Pass(g, s) ==> Encloses(g, t)
    decreases |s|
  {
    if |s| >= 8 {
      NewNodeEncloses(g, s[..8]);
      PassEncloses(g, s[8..]);
    } else if |s| >= 2 {
      NewNodeEncloses(g, s);
    }
  }

  /** The circles of the result enclose everything below them. */
  lemma {:induction false} MergeEncloses(g: Globe, s: seq<Tree>)
    requires s != [] && SafePasses(g, s) && forall t :: t in s ==> Encloses(g, t)
    ensures Encloses(g, MergeAll(g, s))
    decreases |s|
  {
    if |s| > 1 {
      PassEncloses(g, s);
      MergeEncloses(g, Pass(g, s));
    }
  }

  lemma NodeOfTwins(g: Globe, a: Tree, b: Tree)
    requires Concentric(g, CircleOf(a), CircleOf(b))
    ensures CircleOf(NewNode(g, [a, b])) == Circle(a.center, a.radius + 2.0 * g.dist(a.center, b.center))
  {
    var rest := [a, b][1..];
    assert rest == [b] && rest[1..] == [];
    assert AbsorbAll(g, CircleOf(a), rest) == AbsorbAll(g, Absorb(g, CircleOf(a), CircleOf(b)), rest[1..]);
  }

  /** A node over two nodes about one centre encloses all below it exactly if the first circle, widened by twice the
      distance of the centres, encloses what is below the second. */
  lemma TwinsEnclosed(g: Globe, a: Tree, b: Tree)
    requires Encloses(g, a) && Encloses(g, b) && Concentric(g, CircleOf(a), CircleOf(b))
    ensures Encloses(g, NewNode(g, [a, b])) <==>
            forall e, x :: e in Edges(b) && g.on(e, x) ==>
                             g.dist(a.center, x) <= a.radius + 2.0 * g.dist(a.center, b.center)
  {
    NodeOfTwins(g, a, b);
    assert g.dist(a.center, b.center) >= 0.0;
    forall e ensures e in Edges(NewNode(g, [a, b])) <==> e in Edges(a) || e in Edges(b) {
      EdgesOfIn([a, b], e);
      assert a in [a, b] && b in [a, b];
    }
  }

  /** A point in the middle of an edge, say, or at the centre of any node that reaches further: the node over the two,
      the point first, does not enclose the other. */
  lemma LargerTwinIsLost(g: Globe, large: Tree, e: Edge, x: Point)
    requires Encloses(g, large) && e in Edges(large) && g.on(e, x) && g.dist(large.center, x) > 0.0
    ensures var p := large.center;
            var point := Leaf(p, 0.0, POINTTYPE, p, Edge(p, p));
            Encloses(g, point) && !Encloses(g, NewNode(g, [point, large]))
  {
    var p := large.center;
    var point := Leaf(p, 0.0, POINTTYPE, p, Edge(p, p));
    assert g.dist(p, p) == 0.0;
    TwinsEnclosed(g, point, large);
  }

  // ---------- the number of children ----------

  lemma {:induction false} PassFansOut(g: Primitives, s: seq<Tree>)
    requires forall t :: t in s ==> FanOut(t)
    ensures forall t :: t in Pass(g, s) ==> FanOut(t)
    decreases |s|
  {
    if |s| >= 8 {
      PassFansOut(g, s[8..]);
      assert FanOut(NewNode(g, s[..8]));
    } else if |s| >= 2 {
      assert FanOut(NewNode(g, s));
    }
  }

  /** Whatever is merged, the nodes of the result have two to eight children. */
  lemma {:induction false} MergeFansOut(g: Primitives, s: seq<Tree>)
    requires s != [] && forall t :: t in s ==> FanOut(t)
    ensures FanOut(MergeAll(g, s))
    decreases |s|
  {
    if |s| > 1 {
      PassFansOut(g, s);
      MergeFansOut(g, Pass(g, s));
    }
  }

  // ---------- the height of the tree ----------

  function Height(t: Tree): nat
    decreases t
  {
    if t.Leaf? then 0 else 1 + HeightOf(t.nodes)
  }

  function HeightOf(s: seq<Tree>): nat
    decreases s
  {
    if s == [] then 0
    else
      var h, k := Height(s[0]), HeightOf(s[1..]);
      if h > k then h else k
  }

  function Pow8(k: nat): nat {
    if k == 0 then 1 else 8 * Pow8(k - 1)
  }

  /** Of a tree with two to eight children to a node the height is less than the number of leaves, and at least its
      logarithm. */
  lemma {:induction false} HeightAndLeaves(t: Tree)
    requires FanOut(t)
    ensures Height(t) < |Edges(t)| <= Pow8(Height(t))
    decreases t
  {
    if t.Inner? {
      var p := Pow8(HeightOf(t.nodes));
      forall c | c in t.nodes ensures Height(c) < |Edges(c)| <= p {
        HeightAndLeaves(c);
        LowerThanAll(t.nodes, c);
        Pow8Grows(Height(c), HeightOf(t.nodes));
      }
      LeavesOfAll(t.nodes, p);
      EightAtMost(|t.nodes|, p);
    }
  }

  lemma {:induction false} LowerThanAll(s: seq<Tree>, c: Tree)
    requires c in s
    ensures Height(c) <= HeightOf(s)
  {
    if c != s[0] {
      LowerThanAll(s[1..], c);
    }
  }

  lemma {:induction false} LeavesOfAll(s: seq<Tree>, p: nat)
    requires forall t :: t in s ==> Height(t) < |Edges(t)| <= p
    ensures |EdgesOf(s)| <= |s| * p && (s != [] ==> HeightOf(s) + |s| <= |EdgesOf(s)|)
    decreases |s|
  {
    if s != [] {
      LeavesOfAll(s[1..], p);
      assert |s| * p == p + (|s| - 1) * p;
      assert Height(s[0]) < |Edges(s[0])| <= p;
    }
  }

  lemma EightAtMost(n: nat, p: nat)
    requires n <= 8
    ensures n * p <= 8 * p
  {
  }

  lemma {:induction false} Pow8Grows(j: nat, k: nat)
    requires j <= k
    ensures 1 <= Pow8(j) <= Pow8(k)
  {
    if j < k {
      Pow8Grows(j, k - 1);
    } else if j > 0 {
      Pow8Grows(j - 1, k - 1);
    }
  }

  lemma {:induction false} HeightOfAppend(s: seq<Tree>, t: seq<Tree>)
    ensures HeightOf(s + t) == if HeightOf(s) > HeightOf(t) then HeightOf(s) else HeightOf(t)
    decreases |s|
  {
    if s == [] {
      assert s + t == t;
    } else {
      HeightOfAppend(s[1..], t);
      assert (s + t)[0] == s[0] && (s + t)[1..] == s[1..] + t;
    }
  }

  lemma {:induction false} PassLength(g: Primitives, s: seq<Tree>, n: nat)
    requires |s| <= 8 * n
    ensures |Pass(g, s)| <= n
    decreases |s|
  {
    if |s| >= 8 {
      PassLength(g, s[8..], n - 1);
    }
  }

  lemma HeightOfOne(t: Tree)
    ensures HeightOf([t]) == Height(t)
  {
    assert [t][1..] == [];
  }

  lemma {:induction false} PassHeight(g: Primitives, s: seq<Tree>)
    ensures HeightOf(Pass(g, s)) <= HeightOf(s) + 1
    decreases |s|
  {
    if |s| >= 8 {
      PassHeight(g, s[8..]);
      assert s[..8] + s[8..] == s;
      HeightOfAppend(s[..8], s[8..]);
      HeightOfOne(NewNode(g, s[..8]));
      HeightOfAppend([NewNode(g, s[..8])], Pass(g, s[8..]));
    } else if |s| >= 2 {
      HeightOfOne(NewNode(g, s));
    }
  }

  /** Merging up to 8^k nodes adds at most k levels. */
  lemma {:induction false} MergeHeight(g: Primitives, s: seq<Tree>, k: nat)
    requires 1 <= |s| <= Pow8(k)
    ensures Height(MergeAll(g, s)) <= HeightOf(s) + k
    decreases |s|
  {
    if |s| == 1 {
      HeightOfOne(s[0]);
      assert s == [s[0]];
    } else {
      PassHeight(g, s);
      PassLength(g, s, Pow8(k - 1));
      MergeHeight(g, Pass(g, s), k - 1);
    }
  }

  // ---------- the merging loop ----------

  lemma GroupDone(g: Primitives, s: seq<Tree>, done: seq<Tree>, k: nat)
    requires k + 8 <= |s| && done + Pass(g, s[k..]) == Pass(g, s)
    ensures done + [NewNode(g, s[k..k + 8])] + Pass(g, s[k + 8..]) == Pass(g, s)
  {
    assert s[k..][..8] == s[k..k + 8] && s[k..][8..] == s[k + 8..];
    assert Pass(g, s[k..]) == [NewNode(g, s[k..k + 8])] + Pass(g, s[k + 8..]);
  }

  /** Where child j goes in its group of eight. */
  function Slot(j: nat, group: nat): (r: nat)
    requires 8 * group <= j < 8 * group + 8
    ensures r == j - 8 * group
  {
    j % CIRC_NODE_SIZE
  }

  /** `done` are the parents written so far, over the first cells of the children s. */
  ghost predicate Merging(g: Primitives, cells: seq<Tree>, s: seq<Tree>, done: seq<Tree>) {
    && |cells| >= |s| >= 8 * |done|
    && (forall k :: 0 <= k < |s| ==> cells[k] == if k < |done| then done[k] else s[k])
    && done + Pass(g, s[8 * |done|..]) == Pass(g, s)
  }

  lemma MergingStep(g: Primitives, cells: seq<Tree>, s: seq<Tree>, done: seq<Tree>, node: Tree, next: seq<Tree>)
    requires Merging(g, cells, s, done) && 8 * |done| + 8 <= |s|
    requires node == NewNode(g, s[8 * |done|..8 * |done| + 8]) && next == done + [node]
    ensures Merging(g, cells[|done| := node], s, next)
  {
    NextGroup(g, s, done, 8 * |done|, node, next);
    NextCell(cells, s, done, node, next);
  }

  lemma NextGroup(g: Primitives, s: seq<Tree>, done: seq<Tree>, k: nat, node: Tree, next: seq<Tree>)
    requires k == 8 * |done| && k + 8 <= |s| && done + Pass(g, s[k..]) == Pass(g, s)
    requires node == NewNode(g, s[k..k + 8]) && next == done + [node]
    ensures 8 * |next| <= |s| && next + Pass(g, s[8 * |next|..]) == Pass(g, s)
  {
    var from := k + 8;
    GroupDone(g, s, done, k);
    assert 8 * |next| == from;
  }

  lemma NextCell(cells: seq<Tree>, s: seq<Tree>, done: seq<Tree>, node: Tree, next: seq<Tree>)
    requires |cells| >= |s| > |done| && next == done + [node]
    requires forall k :: 0 <= k < |s| ==> cells[k] == if k < |done| then done[k] else s[k]
    ensures |next| == |done| + 1
    ensures forall k :: 0 <= k < |s| ==> cells[|done| := node][k] == if k < |next| then next[k] else s[k]
  {
  }

  lemma OneMore(s: seq<Tree>, from: nat, j: nat)
    requires from <= j < |s|
    ensures s[from..j] + [s[j]] == s[from..j + 1]
  {
  }

  /** A full group is merged and its parent written. */
  method CloseGroup(g: Primitives, nodes: array<Tree>, at: nat, inodes: seq<Tree>, ghost s: seq<Tree>,
                    ghost done: seq<Tree>)
    requires Merging(g, nodes[..], s, done) && at == |done| && 8 * at + 8 <= |s|
    requires inodes == s[8 * at..8 * at + 8]
    modifies nodes
    ensures Merging(g, nodes[..], s, done + [NewNode(g, inodes)])
  {
    var node := InternalNew(g, inodes);
    MergingStep(g, nodes[..], s, done, node, done + [node]);
    nodes[at] := node;
    assert nodes[..] == old(nodes[..])[at := node];
  }

  /** The inner loop of `circ_nodes_merge`: parents of full groups are written over the children.
      A cell is written only after it was read. */
  method MergeGroups(g: Primitives, nodes: array<Tree>, numChildren: nat, ghost s: seq<Tree>)
    returns (numParents: nat, inodes: seq<Tree>, inodeNum: nat, ghost done: seq<Tree>)
    requires 1 < numChildren <= nodes.Length && s == nodes[..numChildren]
    modifies nodes
    ensures numParents == |done| && Merging(g, nodes[..], s, done)
    ensures numChildren < 8 * numParents + 8
    ensures inodeNum == if 8 * numParents == numChildren then 7 else numChildren - 8 * numParents - 1
    ensures 8 * numParents < numChildren ==> inodes == s[8 * numParents..]
  {
    done, inodes, inodeNum, numParents := [], [], 0, 0;
    assert s[0..] == s;
    for j := 0 to numChildren
      invariant 8 * numParents <= j < 8 * numParents + 8 && numParents == |done|
      invariant Merging(g, nodes[..], s, done)
      invariant j > 0 ==> inodeNum == if j == 8 * numParents then 7 else j - 8 * numParents - 1
      invariant j > 8 * numParents ==> inodes == s[8 * numParents..j]
    {
      inodeNum := Slot(j, numParents);
      if inodeNum == 0 {
        inodes := [];
      }
      OneMore(s, 8 * numParents, j);
      assert nodes[..][j] == s[j];
      inodes := inodes + [nodes[j]];
      if inodeNum == CIRC_NODE_SIZE - 1 {
        CloseGroup(g, nodes, numParents, inodes, s, done);
        done := done + [NewNode(g, inodes)];
        numParents := numParents + 1;
      }
    }
  }

  /** One round of the outer loop of `circ_nodes_merge`. */
  method MergePass(g: Primitives, nodes: array<Tree>, numChildren: nat) returns (numParents: nat)
    requires 1 < numChildren <= nodes.Length
    modifies nodes
    ensures numParents < numChildren && nodes[..numParents] == Pass(g, old(nodes[..numChildren]))
  {
    ghost var s, done: seq<Tree> := nodes[..numChildren], [];
    var inodes, inodeNum;
    numParents, inodes, inodeNum, done := MergeGroups(g, nodes, numChildren, s);
    assert nodes[..][..numParents] == done;
    if inodeNum == 0 {
      nodes[numParents] := inodes[0];
      numParents := numParents + 1;
      assert nodes[..numParents] == done + inodes;
    } else if inodeNum < CIRC_NODE_SIZE - 1 {
      var node := InternalNew(g, inodes);
      nodes[numParents] := node;
      numParents := numParents + 1;
      assert nodes[..numParents] == done + [node];
    } else {
      assert s[8 * numParents..] == [];
    }
  }

  /** `circ_nodes_merge`. */
  method NodesMerge(g: Primitives, nodes: array<Tree>, numNodes: nat) returns (root: Tree)
    requires 1 <= numNodes <= nodes.Length
    modifies nodes
    ensures root == MergeAll(g, old(nodes[..numNodes]))
    ensures Edges(root) == EdgesOf(old(nodes[..numNodes]))
    ensures (forall t :: t in old(nodes[..numNodes]) ==> FanOut(t)) ==> FanOut(root)
  {
    MergeKeepsEdges(g, nodes[..numNodes]);
    if forall t :: t in nodes[..numNodes] ==> FanOut(t) {
      MergeFansOut(g, nodes[..numNodes]);
    }
    var numChildren := numNodes;
    while numChildren > 1
      invariant 1 <= numChildren <= nodes.Length
      invariant MergeAll(g, nodes[..numChildren]) == MergeAll(g, old(nodes[..numNodes]))
    {
      numChildren := MergePass(g, nodes, numChildren);
    }
    root := nodes[0];
  }
}
