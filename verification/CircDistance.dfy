/** Branch and bound over two circle trees: `circ_tree_distance_tree` of liblwgeom/lwgeodetic_tree.c. */
module CircDistance {
  import opened Basics
  import opened GeomTypes
  import opened Sphere
  import opened CircTree
  import opened Sorting

  function Gap(g: Primitives, e: Edge, f: Edge): real {
    LeafGap(g, e, f).0
  }

  /** The distances of all leaf pairs: what a linear scan would compute. */
  ghost function Gaps(g: Primitives, es: seq<Edge>, fs: seq<Edge>): set<real> {
    set e, f | e in es && f in fs :: Gap(g, e, f)
  }

  function Min(a: real, b: real): real {
    if a < b then a else b
  }

  // ---------- the bounds ----------

  function MinDistance(g: Primitives, n1: Tree, n2: Tree): real {
    var d := g.dist(n1.center, n2.center);
    if d < n1.radius + n2.radius then 0.0 else d - n1.radius - n2.radius
  }

  function MaxDistance(g: Primitives, n1: Tree, n2: Tree): real {
    g.dist(n1.center, n2.center) + n1.radius + n2.radius
  }

  /** Every leaf pair lies between the bounds of its trees. */
  lemma BoundsHold(g: Globe, n1: Tree, n2: Tree, e: Edge, f: Edge)
    requires Valid(g, n1) && Valid(g, n2) && e in Edges(n1) && f in Edges(n2)
    ensures MinDistance(g, n1, n2) <= Gap(g, e, f) <= MaxDistance(g, n1, n2)
  {
    LeafGapIsLeast(g, e, f);
    var x, y :| g.on(e, x) && g.on(f, y) && Gap(g, e, f) == g.dist(x, y);
    Detour(g, n1.center, x, y, n2.center);
    assert g.on(e, e.p1) && g.on(f, f.p1);
    Detour(g, e.p1, n1.center, n2.center, f.p1);
  }

  /** Between two points both bounds are the distance. */
  lemma BoundsOfPoints(g: Globe, n1: Tree, n2: Tree)
    requires n1.Leaf? && n1.radius == 0.0 && n1.edge == Edge(n1.center, n1.center)
    requires n2.Leaf? && n2.radius == 0.0 && n2.edge == Edge(n2.center, n2.center)
    ensures MinDistance(g, n1, n2) == Gap(g, n1.edge, n2.edge) == MaxDistance(g, n1, n2)
  {
    assert g.dist(n1.center, n2.center) >= 0.0;
  }

  lemma Detour(g: Globe, a: Point, b: Point, c: Point, d: Point)
    ensures g.dist(a, d) <= g.dist(a, b) + g.dist(b, c) + g.dist(c, d)
    ensures g.dist(a, b) == g.dist(b, a) && g.dist(c, d) == g.dist(d, c)
  {
    assert g.dist(a, d) <= g.dist(a, c) + g.dist(c, d);
    assert g.dist(a, c) <= g.dist(a, b) + g.dist(b, c);
    assert g.dist(b, a) >= 0.0 && g.dist(d, c) >= 0.0;
  }

  // ---------- which way the search goes ----------

  datatype Side = Compare | Left | Right

  /** Collections are driven into first, the first tree before the second. */
  function Descend(n1: Tree, n2: Tree): Side {
    if n1.Leaf? && n2.Leaf? then Compare
    else if IsCollection(n1.geomType) then Left
    else if IsCollection(n2.geomType) then Right
    else if n1.Inner? then Left
    else Right
  }

  function Kids(t: Tree): seq<Tree> {
    if t.Leaf? then [] else t.nodes
  }

  /** The search is never sent into a leaf that carries the type of a collection. */
  predicate Drives(n1: Tree, n2: Tree)
    decreases n1, n2
  {
    match Descend(n1, n2)
    case Compare => true
    case Left => n1.Inner? && forall c :: c in n1.nodes ==> Drives(c, n2)
    case Right => n2.Inner? && forall c :: c in n2.nodes ==> Drives(n1, c)
  }

  /** No leaf carries the type of a collection. */
  predicate PlainLeaves(t: Tree)
    decreases t
  {
    match t
    case Leaf(_, _, geomType, _, _) => !IsCollection(geomType)
    case Inner(_, _, _, _, nodes) => forall c :: c in nodes ==> PlainLeaves(c)
  }

  lemma {:induction false} PlainLeavesDrive(n1: Tree, n2: Tree)
    requires PlainLeaves(n1) && PlainLeaves(n2)
    ensures Drives(n1, n2)
    decreases n1, n2
  {
    match Descend(n1, n2)
    case Compare =>
    case Left =>
      forall c | c in n1.nodes ensures Drives(c, n2) {
        PlainLeavesDrive(c, n2);
      }
    case Right =>
      forall c | c in n2.nodes ensures Drives(n1, c) {
        PlainLeavesDrive(n1, c);
      }
  }

  // ---------- the pairs of leaves the search comes to ----------

  /** The pairs of leaves the search comes to when nothing is pruned. */
  function Pairs(n1: Tree, n2: Tree): seq<(Edge, Edge)>
    decreases n1, n2, 1
  {
    match Descend(n1, n2)
    case Compare => [(n1.edge, n2.edge)]
    case Left => if n1.Leaf? then [] else PairsLeft(n1.nodes, n2)
    case Right => if n2.Leaf? then [] else PairsRight(n1, n2.nodes)
  }

  function PairsLeft(s: seq<Tree>, n2: Tree): seq<(Edge, Edge)>
    decreases s, n2, 0
  {
    if s == [] then [] else Pairs(s[0], n2) + PairsLeft(s[1..], n2)
  }

  function PairsRight(n1: Tree, s: seq<Tree>): seq<(Edge, Edge)>
    decreases n1, s, 0
  {
    if s == [] then [] else Pairs(n1, s[0]) + PairsRight(n1, s[1..])
  }

  lemma {:induction false} PairsLeftIn(s: seq<Tree>, n2: Tree, p: (Edge, Edge))
    ensures p in PairsLeft(s, n2) <==> exists c :: c in s && p in Pairs(c, n2)
  {
    if s != [] {
      PairsLeftIn(s[1..], n2, p);
      if p in PairsLeft(s[1..], n2) {
        var c :| c in s[1..] && p in Pairs(c, n2);
        assert c in s;
      } else if p in PairsLeft(s, n2) {
        assert s[0] in s && p in Pairs(s[0], n2);
      }
      forall c | c in s && p in Pairs(c, n2) ensures p in PairsLeft(s, n2) {
        assert c == s[0] || c in s[1..];
      }
    }
  }

  lemma {:induction false} PairsRightIn(n1: Tree, s: seq<Tree>, p: (Edge, Edge))
    ensures p in PairsRight(n1, s) <==> exists c :: c in s && p in Pairs(n1, c)
    decreases |s|
  {
    if s != [] {
      PairsRightIn(n1, s[1..], p);
      if p in PairsRight(n1, s[1..]) {
        var c :| c in s[1..] && p in Pairs(n1, c);
        assert c in s;
      } else if p in PairsRight(n1, s) {
        assert s[0] in s && p in Pairs(n1, s[0]);
      }
      forall c | c in s && p in Pairs(n1, c) ensures p in PairsRight(n1, s) {
        assert c == s[0] || c in s[1..];
      }
    }
  }

  /** The search comes to leaves of the two trees. */
  lemma {:induction false} PairsAreEdges(n1: Tree, n2: Tree, p: (Edge, Edge))
    requires p in Pairs(n1, n2)
    ensures p.0 in Edges(n1) && p.1 in Edges(n2)
    decreases n1, n2
  {
    match Descend(n1, n2)
    case Compare =>
    case Left =>
      PairsLeftIn(n1.nodes, n2, p);
      var c :| c in n1.nodes && p in Pairs(c, n2);
      PairsAreEdges(c, n2, p);
      ChildEdges(n1, c, p.0);
    case Right =>
      PairsRightIn(n1, n2.nodes, p);
      var c :| c in n2.nodes && p in Pairs(n1, c);
      PairsAreEdges(n1, c, p);
      ChildEdges(n2, c, p.1);
  }

  /** A search that is never sent into a leaf of collection type comes to all of them. */
  lemma {:induction false} DrivenToAll(n1: Tree, n2: Tree, e: Edge, f: Edge)
    requires Drives(n1, n2) && e in Edges(n1) && f in Edges(n2)
    ensures (e, f) in Pairs(n1, n2)
    decreases n1, n2
  {
    match Descend(n1, n2)
    case Compare =>
    case Left =>
      EdgesOfIn(n1.nodes, e);
      var c :| c in n1.nodes && e in Edges(c);
      DrivenToAll(c, n2, e, f);
      PairsLeftIn(n1.nodes, n2, (e, f));
    case Right =>
      EdgesOfIn(n2.nodes, f);
      var c :| c in n2.nodes && f in Edges(c);
      DrivenToAll(n1, c, e, f);
      PairsRightIn(n1, n2.nodes, (e, f));
  }

  // ---------- polygons ----------

  /** `circ_tree_get_point`. */
  function FirstPoint(t: Tree): Point
    decreases t
  {
    match t
    case Leaf(_, _, _, _, edge) => edge.p1
    case Inner(center, _, _, _, nodes) => if nodes == [] then center else FirstPoint(nodes[0])
  }

  /** n is a polygon that contains the first point of the primitive m. */
  predicate PointInside(g: Primitives, n: Tree, m: Tree) {
    && n.geomType == POLYGONTYPE && m.geomType != 0 && !IsCollection(m.geomType)
    && Crossings(g, Edge(FirstPoint(m), n.outside), Edges(n)) % 2 == 1
  }

  /** Somewhere on the way down a polygon contains a point of the other geometry. */
  predicate HitBelow(g: Primitives, n1: Tree, n2: Tree)
    decreases n1, n2
  {
    || PointInside(g, n1, n2) || PointInside(g, n2, n1)
    || match Descend(n1, n2)
       case Compare => false
       case Left => exists c :: c in Kids(n1) && HitBelow(g, c, n2)
       case Right => exists c :: c in Kids(n2) && HitBelow(g, n1, c)
  }

  /** Such a polygon is found: the circles on the way there are no farther apart than the least distance of edges, so
      that none of these pairs is pruned. */
  predicate HitInReach(g: Primitives, n1: Tree, n2: Tree, least: real)
    decreases n1, n2
  {
    && MinDistance(g, n1, n2) <= least
    && (|| PointInside(g, n1, n2) || PointInside(g, n2, n1)
        || match Descend(n1, n2)
           case Compare => false
           case Left => exists c :: c in Kids(n1) && HitInReach(g, c, n2, least)
           case Right => exists c :: c in Kids(n2) && HitInReach(g, n1, c, least))
  }

  predicate NoPolygon(t: Tree)
    decreases t
  {
    t.geomType != POLYGONTYPE && (t.Inner? ==> forall c :: c in t.nodes ==> NoPolygon(c))
  }

  lemma {:induction false} NoPolygonNoHit(g: Primitives, n1: Tree, n2: Tree)
    requires NoPolygon(n1) && NoPolygon(n2)
    ensures !HitBelow(g, n1, n2)
    decreases n1, n2
  {
    match Descend(n1, n2)
    case Compare =>
    case Left =>
      forall c | c in Kids(n1) ensures !HitBelow(g, c, n2) {
        NoPolygonNoHit(g, c, n2);
      }
    case Right =>
      forall c | c in Kids(n2) ensures !HitBelow(g, n1, c) {
        NoPolygonNoHit(g, n1, c);
      }
  }

  // ---------- what a search does to the running bounds ----------

  /** The running bounds and the closest points so far. */
  datatype Bounds = Bounds(minDist: real, maxDist: real, closest1: Point, closest2: Point)

  ghost predicate LowerBound(d: real, gaps: set<real>) {
    forall x :: x in gaps ==> d <= x
  }

  /** d is the least distance of a leaf pair. */
  ghost predicate Least(d: real, gaps: set<real>) {
    d in gaps && LowerBound(d, gaps)
  }

  /** What a search of leaf pairs with these distances that returns r has done to the bounds. They only come
      down, to distances that occur, and `maxDist` never below the least distance of the whole problem. */
  ghost predicate Outcome(g: Primitives, gaps: set<real>, hit: bool, least: real, b0: Bounds, b: Bounds, r: real) {
    && 0.0 <= b.minDist <= b0.minDist && b.maxDist <= b0.maxDist
    && (b.minDist == b0.minDist || b.minDist in gaps || (hit && b.minDist == 0.0))
    && (least <= b0.maxDist ==> least <= b.maxDist)
    && b.minDist == Min(b0.minDist, r)
    && (if b.minDist == b0.minDist then b.closest1 == b0.closest1 && b.closest2 == b0.closest2
        else g.dist(b.closest1, b.closest2) == b.minDist)
  }

  /** No leaf pair can still beat the bounds, unless the threshold is already met. */
  ghost predicate Settled(gaps: set<real>, b: Bounds, threshold: real) {
    forall d :: d in gaps ==> b.minDist <= d || b.maxDist < d || b.minDist < threshold
  }

  /** Nothing is looked for any more. */
  predicate Met(b: Bounds, threshold: real) {
    b.minDist == 0.0 || b.minDist < threshold
  }

  lemma OutcomeTrans(g: Primitives, gaps: set<real>, hit: bool, some: set<real>, h: bool, least: real,
                     b0: Bounds, b: Bounds, b': Bounds, r: real, d: real)
    requires Outcome(g, gaps, hit, least, b0, b, r) && Outcome(g, some, h, least, b, b', d)
    requires (h ==> hit) && some <= gaps
    ensures Outcome(g, gaps, hit, least, b0, b', Min(r, d))
  {
  }

  lemma SettledStays(gaps: set<real>, b: Bounds, b': Bounds, threshold: real)
    requires Settled(gaps, b, threshold) && b'.minDist <= b.minDist && b'.maxDist <= b.maxDist
    ensures Settled(gaps, b', threshold)
  {
  }

  /** A set with something in it has a least distance. */
  lemma {:induction false} LeastExists(gaps: set<real>, x: real) returns (d: real)
    requires x in gaps
    ensures Least(d, gaps)
    decreases |gaps|
  {
    d := x;
    if y :| y in gaps && y < x {
      var rest := gaps - {x};
      d := LeastExists(rest, y);
      forall z | z in gaps ensures d <= z {
        assert z == x || z in rest;
      }
    }
  }

  // ---------- the distances below a node ----------

  lemma KidEdges(t: Tree, c: Tree)
    requires c in Kids(t)
    ensures forall e :: e in Edges(c) ==> e in Edges(t)
  {
    forall e | e in Edges(c) ensures e in Edges(t) {
      ChildEdges(t, c, e);
    }
  }

  lemma FewerEdges(g: Primitives, es: seq<Edge>, fs: seq<Edge>, cs: seq<Edge>, ds: seq<Edge>)
    requires (forall e :: e in cs ==> e in es) && (forall f :: f in ds ==> f in fs)
    ensures Gaps(g, cs, ds) <= Gaps(g, es, fs)
  {
  }

  lemma BoundsHoldForAll(g: Globe, n1: Tree, n2: Tree)
    requires Valid(g, n1) && Valid(g, n2)
    ensures |Edges(n1)| > 0 && |Edges(n2)| > 0
    ensures Gap(g, Edges(n1)[0], Edges(n2)[0]) in Gaps(g, Edges(n1), Edges(n2))
    ensures forall d :: d in Gaps(g, Edges(n1), Edges(n2)) ==>
              0.0 <= MinDistance(g, n1, n2) <= d <= MaxDistance(g, n1, n2)
  {
    forall e, f | e in Edges(n1) && f in Edges(n2)
      ensures MinDistance(g, n1, n2) <= Gap(g, e, f) <= MaxDistance(g, n1, n2)
    {
      BoundsHold(g, n1, n2, e, f);
    }
    SomeEdge(n1);
    SomeEdge(n2);
    assert Edges(n1)[0] in Edges(n1) && Edges(n2)[0] in Edges(n2);
  }

  // ---------- the loops over children ----------

  /** The distances between two trees. */
  ghost function TreeGaps(g: Primitives, n1: Tree, n2: Tree): set<real> {
    Gaps(g, Edges(n1), Edges(n2))
  }

  ghost function PairGaps(g: Primitives, pairs: seq<(Edge, Edge)>): set<real> {
    set p | p in pairs :: Gap(g, p.0, p.1)
  }

  /** The distances of the pairs the search comes to when nothing is pruned. */
  ghost function ReachedGaps(g: Primitives, n1: Tree, n2: Tree): set<real> {
    PairGaps(g, Pairs(n1, n2))
  }

  lemma ReachedInTree(g: Primitives, n1: Tree, n2: Tree)
    ensures ReachedGaps(g, n1, n2) <= TreeGaps(g, n1, n2)
    ensures Drives(n1, n2) ==> ReachedGaps(g, n1, n2) == TreeGaps(g, n1, n2)
  {
    forall p | p in Pairs(n1, n2) ensures Gap(g, p.0, p.1) in TreeGaps(g, n1, n2) {
      PairsAreEdges(n1, n2, p);
    }
    if Drives(n1, n2) {
      forall e, f | e in Edges(n1) && f in Edges(n2) ensures Gap(g, e, f) in ReachedGaps(g, n1, n2) {
        DrivenToAll(n1, n2, e, f);
        assert Gap(g, (e, f).0, (e, f).1) in ReachedGaps(g, n1, n2);
      }
    }
  }

  ghost predicate SameKids(kids: seq<Tree>, t: Tree) {
    forall c :: c in kids <==> c in Kids(t)
  }

  lemma LeftKidGaps(g: Primitives, n1: Tree, n2: Tree, c: Tree, least: real)
    requires c in Kids(n1) && Descend(n1, n2) == Left
    ensures ReachedGaps(g, c, n2) <= ReachedGaps(g, n1, n2)
    ensures LowerBound(least, TreeGaps(g, n1, n2)) ==> LowerBound(least, TreeGaps(g, c, n2))
  {
    forall p | p in Pairs(c, n2) ensures p in Pairs(n1, n2) {
      PairsLeftIn(n1.nodes, n2, p);
    }
    KidEdges(n1, c);
    FewerEdges(g, Edges(n1), Edges(n2), Edges(c), Edges(n2));
  }

  lemma RightKidGaps(g: Primitives, n1: Tree, n2: Tree, c: Tree, least: real)
    requires c in Kids(n2) && Descend(n1, n2) == Right
    ensures ReachedGaps(g, n1, c) <= ReachedGaps(g, n1, n2)
    ensures LowerBound(least, TreeGaps(g, n1, n2)) ==> LowerBound(least, TreeGaps(g, n1, c))
  {
    forall p | p in Pairs(n1, c) ensures p in Pairs(n1, n2) {
      PairsRightIn(n1, n2.nodes, p);
    }
    KidEdges(n2, c);
    FewerEdges(g, Edges(n1), Edges(n2), Edges(n1), Edges(c));
  }

  lemma LeftSnoc(g: Primitives, n2: Tree, kids: seq<Tree>, i: nat)
    requires i < |kids|
    ensures PairGaps(g, PairsLeft(kids[..i + 1], n2)) <=
            PairGaps(g, PairsLeft(kids[..i], n2)) + ReachedGaps(g, kids[i], n2)
  {
    forall p | p in PairsLeft(kids[..i + 1], n2) ensures p in PairsLeft(kids[..i], n2) || p in Pairs(kids[i], n2) {
      PairsLeftIn(kids[..i + 1], n2, p);
      PairsLeftIn(kids[..i], n2, p);
      assert kids[..i + 1] == kids[..i] + [kids[i]];
    }
  }

  lemma RightSnoc(g: Primitives, n1: Tree, kids: seq<Tree>, i: nat)
    requires i < |kids|
    ensures PairGaps(g, PairsRight(n1, kids[..i + 1])) <=
            PairGaps(g, PairsRight(n1, kids[..i])) + ReachedGaps(g, n1, kids[i])
  {
    forall p | p in PairsRight(n1, kids[..i + 1]) ensures p in PairsRight(n1, kids[..i]) || p in Pairs(n1, kids[i]) {
      PairsRightIn(n1, kids[..i + 1], p);
      PairsRightIn(n1, kids[..i], p);
      assert kids[..i + 1] == kids[..i] + [kids[i]];
    }
  }

  /** The first i children of n1 have been searched against n2. */
  ghost predicate LeftDone(g: Primitives, n1: Tree, n2: Tree, kids: seq<Tree>, i: nat, least: real,
                           b0: Bounds, b: Bounds, r: real, threshold: real)
  {
    && i <= |kids|
    && Outcome(g, ReachedGaps(g, n1, n2), HitBelow(g, n1, n2), least, b0, b, r)
    && Settled(PairGaps(g, PairsLeft(kids[..i], n2)), b, threshold)
    && forall k :: 0 <= k < i && least <= b0.maxDist && HitInReach(g, kids[k], n2, least) ==> Met(b, threshold)
  }

  ghost predicate RightDone(g: Primitives, n1: Tree, n2: Tree, kids: seq<Tree>, i: nat, least: real,
                            b0: Bounds, b: Bounds, r: real, threshold: real)
  {
    && i <= |kids|
    && Outcome(g, ReachedGaps(g, n1, n2), HitBelow(g, n1, n2), least, b0, b, r)
    && Settled(PairGaps(g, PairsRight(n1, kids[..i])), b, threshold)
    && forall k :: 0 <= k < i && least <= b0.maxDist && HitInReach(g, n1, kids[k], least) ==> Met(b, threshold)
  }

  lemma LeftNone(g: Primitives, n1: Tree, n2: Tree, kids: seq<Tree>, least: real, b0: Bounds, threshold: real)
    requires 0.0 <= b0.minDist <= FLT_MAX
    ensures LeftDone(g, n1, n2, kids, 0, least, b0, b0, FLT_MAX, threshold)
  {
  }

  lemma LeftStep(g: Primitives, n1: Tree, n2: Tree, kids: seq<Tree>, i: nat, least: real,
                 b0: Bounds, b: Bounds, b': Bounds, r: real, d: real, threshold: real)
    requires LeftDone(g, n1, n2, kids, i, least, b0, b, r, threshold) && i < |kids| && Descend(n1, n2) == Left
    requires kids[i] in Kids(n1)
    requires Outcome(g, ReachedGaps(g, kids[i], n2), HitBelow(g, kids[i], n2), least, b, b', d)
    requires Settled(ReachedGaps(g, kids[i], n2), b', threshold)
    requires least <= b.maxDist && HitInReach(g, kids[i], n2, least) ==> Met(b', threshold)
    ensures LeftDone(g, n1, n2, kids, i + 1, least, b0, b', Min(r, d), threshold)
  {
    var c := kids[i];
    LeftKidGaps(g, n1, n2, c, least);
    var some, all := ReachedGaps(g, c, n2), ReachedGaps(g, n1, n2);
    OutcomeTrans(g, all, HitBelow(g, n1, n2), some, HitBelow(g, c, n2), least, b0, b, b', r, d);
    LeftSnoc(g, n2, kids, i);
    SettledStays(PairGaps(g, PairsLeft(kids[..i], n2)), b, b', threshold);
  }

  lemma RightNone(g: Primitives, n1: Tree, n2: Tree, kids: seq<Tree>, least: real, b0: Bounds, threshold: real)
    requires 0.0 <= b0.minDist <= FLT_MAX
    ensures RightDone(g, n1, n2, kids, 0, least, b0, b0, FLT_MAX, threshold)
  {
  }

  lemma RightStep(g: Primitives, n1: Tree, n2: Tree, kids: seq<Tree>, i: nat, least: real,
                  b0: Bounds, b: Bounds, b': Bounds, r: real, d: real, threshold: real)
    requires RightDone(g, n1, n2, kids, i, least, b0, b, r, threshold) && i < |kids| && Descend(n1, n2) == Right
    requires kids[i] in Kids(n2)
    requires Outcome(g, ReachedGaps(g, n1, kids[i]), HitBelow(g, n1, kids[i]), least, b, b', d)
    requires Settled(ReachedGaps(g, n1, kids[i]), b', threshold)
    requires least <= b.maxDist && HitInReach(g, n1, kids[i], least) ==> Met(b', threshold)
    ensures RightDone(g, n1, n2, kids, i + 1, least, b0, b', Min(r, d), threshold)
  {
    var c := kids[i];
    RightKidGaps(g, n1, n2, c, least);
    var some, all := ReachedGaps(g, n1, c), ReachedGaps(g, n1, n2);
    OutcomeTrans(g, all, HitBelow(g, n1, n2), some, HitBelow(g, n1, c), least, b0, b, b', r, d);
    RightSnoc(g, n1, kids, i);
    SettledStays(PairGaps(g, PairsRight(n1, kids[..i])), b, b', threshold);
  }

  lemma LeftAllDone(g: Primitives, n1: Tree, n2: Tree, kids: seq<Tree>, least: real, b0: Bounds, b: Bounds, r: real,
                    threshold: real)
    requires LeftDone(g, n1, n2, kids, |kids|, least, b0, b, r, threshold)
    requires Descend(n1, n2) == Left && SameKids(kids, n1)
    ensures Settled(ReachedGaps(g, n1, n2), b, threshold)
    ensures least <= b0.maxDist && (exists c :: c in Kids(n1) && HitInReach(g, c, n2, least)) ==> Met(b, threshold)
  {
    assert kids[..|kids|] == kids;
    forall p | p in Pairs(n1, n2) ensures p in PairsLeft(kids, n2) {
      PairsLeftIn(n1.nodes, n2, p);
      PairsLeftIn(kids, n2, p);
    }
    assert ReachedGaps(g, n1, n2) <= PairGaps(g, PairsLeft(kids, n2));
  }

  lemma RightAllDone(g: Primitives, n1: Tree, n2: Tree, kids: seq<Tree>, least: real, b0: Bounds, b: Bounds, r: real,
                     threshold: real)
    requires RightDone(g, n1, n2, kids, |kids|, least, b0, b, r, threshold)
    requires Descend(n1, n2) == Right && SameKids(kids, n2)
    ensures Settled(ReachedGaps(g, n1, n2), b, threshold)
    ensures least <= b0.maxDist && (exists c :: c in Kids(n2) && HitInReach(g, n1, c, least)) ==> Met(b, threshold)
  {
    assert kids[..|kids|] == kids;
    forall p | p in Pairs(n1, n2) ensures p in PairsRight(n1, kids) {
      PairsRightIn(n1, n2.nodes, p);
      PairsRightIn(n1, kids, p);
    }
    assert ReachedGaps(g, n1, n2) <= PairGaps(g, PairsRight(n1, kids));
  }

  // ---------- the search ----------

  // The pointers `min_dist`, `max_dist`, `closest1` and `closest2` of the original are in- and out-parameters here.

  /** `circ_internal_nodes_sort`: the children in order of the distance of their centres to the target. The
      copy that is sorted has room for CIRC_NODE_SIZE nodes. */
  method SortNodes(g: Primitives, nodes: array<Tree>, numNodes: nat, target: Tree)
    requires numNodes <= nodes.Length && numNodes <= CIRC_NODE_SIZE
    modifies nodes
    ensures multiset(nodes[..numNodes]) == multiset(old(nodes[..numNodes]))
    ensures SortedBy(nodes[..numNodes], (t: Tree) => g.dist(t.center, target.center))
    ensures forall k :: numNodes <= k < nodes.Length ==> nodes[k] == old(nodes[k])
  {
    var sortNodes := new Tree[CIRC_NODE_SIZE](_ => target);
    for i := 0 to numNodes
      invariant forall k :: 0 <= k < i ==> sortNodes[k] == nodes[k]
      invariant forall k :: 0 <= k < nodes.Length ==> nodes[k] == old(nodes[k])
    {
      sortNodes[i] := nodes[i];
    }
    assert sortNodes[..numNodes] == old(nodes[..numNodes]);
    var sorted := QSort(sortNodes[..numNodes], (t: Tree) => g.dist(t.center, target.center));
    assert |sorted| == |multiset(sorted)| == |multiset(old(nodes[..numNodes]))| == numNodes;
    for i := 0 to numNodes
      invariant forall k :: 0 <= k < i ==> nodes[k] == sorted[k]
      invariant forall k :: numNodes <= k < nodes.Length ==> nodes[k] == old(nodes[k])
    {
      nodes[i] := sorted[i];
    }
    assert nodes[..numNodes] == sorted;
  }

  /** The children of a node in the order the search visits them. */
  method SortedKids(g: Primitives, t: Tree, target: Tree) returns (kids: seq<Tree>)
    requires |Kids(t)| <= CIRC_NODE_SIZE
    ensures multiset(kids) == multiset(Kids(t)) && SameKids(kids, t)
  {
    var nodes := new Tree[|Kids(t)|](i requires 0 <= i < |Kids(t)| => Kids(t)[i]);
    assert nodes[..nodes.Length] == Kids(t);
    SortNodes(g, nodes, nodes.Length, target);
    kids := nodes[..nodes.Length];
    forall c: Tree ensures c in kids <==> c in Kids(t) {
      assert c in kids <==> c in multiset(kids);
      assert c in Kids(t) <==> c in multiset(Kids(t));
    }
  }

  /** The test for the first point of m in the polygon n. */
  method TestPolygon(g: Globe, n: Tree, m: Tree, b0: Bounds) returns (hit: bool, b: Bounds)
    requires Valid(g, n)
    ensures hit <==> PointInside(g, n, m)
    ensures b == if hit then Bounds(0.0, b0.maxDist, FirstPoint(m), FirstPoint(m)) else b0
  {
    hit, b := false, b0;
    if n.geomType == POLYGONTYPE && m.geomType != 0 && !IsCollection(m.geomType) {
      var pt := FirstPoint(m);
      var inside := ContainsPoint(g, n, pt, n.outside);
      if inside != 0 {
        b := Bounds(0.0, b0.maxDist, pt, pt);
        hit := true;
      }
    }
  }

  /** The distance of two edges. */
  method CompareLeaves(g: Globe, n1: Tree, n2: Tree, threshold: real, b0: Bounds, ghost least: real)
    returns (d: real, b: Bounds)
    requires n1.Leaf? && n2.Leaf? && 0.0 < b0.minDist <= FLT_MAX
    ensures Outcome(g, ReachedGaps(g, n1, n2), HitBelow(g, n1, n2), least, b0, b, d)
    ensures Settled(ReachedGaps(g, n1, n2), b, threshold)
  {
    LeafGapIsLeast(g, n1.edge, n2.edge);
    var (e, close1, close2) := LeafGap(g, n1.edge, n2.edge);
    d, b := e, b0;
    if d < b.minDist {
      b := b.(minDist := d, closest1 := close1, closest2 := close2);
    }
  }

  /** `circ_tree_distance_tree_internal`, for a problem whose least distance is at least `least`. */
  method Visit(g: Globe, n1: Tree, n2: Tree, threshold: real, b0: Bounds, ghost least: real)
    returns (r: real, b: Bounds)
    requires Valid(g, n1) && Valid(g, n2) && 0.0 <= b0.minDist <= FLT_MAX && LowerBound(least, TreeGaps(g, n1, n2))
    ensures Outcome(g, ReachedGaps(g, n1, n2), HitBelow(g, n1, n2), least, b0, b, r)
    ensures Settled(ReachedGaps(g, n1, n2), b, threshold)
    ensures least <= b0.maxDist && HitInReach(g, n1, n2, least) ==> Met(b, threshold)
    ensures Met(b0, threshold) ==> r == b0.minDist && b == b0
    ensures !Met(b0, threshold) ==> if MinDistance(g, n1, n2) > b0.maxDist then r == FLT_MAX && b == b0
                                    else b.maxDist <= MaxDistance(g, n1, n2)
    decreases n1, n2, 4
  {
    BoundsHoldForAll(g, n1, n2);
    ReachedInTree(g, n1, n2);
    b := b0;
    if b.minDist < threshold || b.minDist == 0.0 {
      return b.minDist, b;
    }
    if MinDistance(g, n1, n2) > b.maxDist {
      return FLT_MAX, b;
    }
    var max := MaxDistance(g, n1, n2);
    if max < b.maxDist {
      b := b.(maxDist := max);
    }
    r, b := Explore(g, n1, n2, threshold, b, least);
  }

  /** The rest of it, for trees that their bounds do not rule out. */
  method Explore(g: Globe, n1: Tree, n2: Tree, threshold: real, b0: Bounds, ghost least: real)
    returns (r: real, b: Bounds)
    requires Valid(g, n1) && Valid(g, n2) && 0.0 < b0.minDist <= FLT_MAX && LowerBound(least, TreeGaps(g, n1, n2))
    ensures Outcome(g, ReachedGaps(g, n1, n2), HitBelow(g, n1, n2), least, b0, b, r)
    ensures Settled(ReachedGaps(g, n1, n2), b, threshold)
    ensures least <= b0.maxDist && HitInReach(g, n1, n2, least) ==> Met(b, threshold)
    decreases n1, n2, 3
  {
    var hit;
    hit, b := TestPolygon(g, n1, n2, b0);
    if hit {
      BoundsHoldForAll(g, n1, n2);
      ReachedInTree(g, n1, n2);
      assert g.dist(b.closest1, b.closest2) == 0.0;
      return b.minDist, b;
    }
    hit, b := TestPolygon(g, n2, n1, b);
    if hit {
      BoundsHoldForAll(g, n1, n2);
      ReachedInTree(g, n1, n2);
      assert g.dist(b.closest1, b.closest2) == 0.0;
      return b.minDist, b;
    }
    if n1.Leaf? && n2.Leaf? {
      r, b := CompareLeaves(g, n1, n2, threshold, b, least);
    } else if IsCollection(n1.geomType) {
      r, b := VisitLeft(g, n1, n2, threshold, b, least);
    } else if IsCollection(n2.geomType) {
      r, b := VisitRight(g, n1, n2, threshold, b, least);
    } else if n1.Inner? {
      r, b := VisitLeft(g, n1, n2, threshold, b, least);
    } else {
      r, b := VisitRight(g, n1, n2, threshold, b, least);
    }
  }

  /** The loop over the children of n1. */
  method VisitLeft(g: Globe, n1: Tree, n2: Tree, threshold: real, b0: Bounds, ghost least: real)
    returns (r: real, b: Bounds)
    requires Valid(g, n1) && Valid(g, n2) && 0.0 <= b0.minDist <= FLT_MAX && LowerBound(least, TreeGaps(g, n1, n2))
    requires Descend(n1, n2) == Left
    ensures Outcome(g, ReachedGaps(g, n1, n2), HitBelow(g, n1, n2), least, b0, b, r)
    ensures Settled(ReachedGaps(g, n1, n2), b, threshold)
    ensures least <= b0.maxDist && (exists c :: c in Kids(n1) && HitInReach(g, c, n2, least)) ==> Met(b, threshold)
    decreases n1, n2, 2
  {
    var kids := SortedKids(g, n1, n2);
    r, b := LeftLoop(g, n1, n2, kids, threshold, b0, least);
    LeftAllDone(g, n1, n2, kids, least, b0, b, r, threshold);
  }

  method LeftLoop(g: Globe, n1: Tree, n2: Tree, kids: seq<Tree>, threshold: real, b0: Bounds, ghost least: real)
    returns (r: real, b: Bounds)
    requires Valid(g, n1) && Valid(g, n2) && 0.0 <= b0.minDist <= FLT_MAX && LowerBound(least, TreeGaps(g, n1, n2))
    requires Descend(n1, n2) == Left && SameKids(kids, n1)
    ensures LeftDone(g, n1, n2, kids, |kids|, least, b0, b, r, threshold)
    decreases n1, n2, 1
  {
    r, b := FLT_MAX, b0;
    LeftNone(g, n1, n2, kids, least, b0, threshold);
    for i := 0 to |kids|
      invariant LeftDone(g, n1, n2, kids, i, least, b0, b, r, threshold)
    {
      r, b := LeftKid(g, n1, n2, kids, i, threshold, b0, b, r, least);
    }
  }

  /** The body of that loop. */
  method LeftKid(g: Globe, n1: Tree, n2: Tree, kids: seq<Tree>, i: nat, threshold: real, ghost b0: Bounds,
                 b1: Bounds, r1: real, ghost least: real)
    returns (r: real, b: Bounds)
    requires Valid(g, n1) && Valid(g, n2) && 0.0 <= b0.minDist <= FLT_MAX && LowerBound(least, TreeGaps(g, n1, n2))
    requires Descend(n1, n2) == Left && i < |kids| && SameKids(kids, n1)
    requires LeftDone(g, n1, n2, kids, i, least, b0, b1, r1, threshold)
    ensures LeftDone(g, n1, n2, kids, i + 1, least, b0, b, r, threshold)
    decreases n1, n2, 0
  {
    assert kids[i] in Kids(n1);
    LeftKidGaps(g, n1, n2, kids[i], least);
    var d;
    d, b := Visit(g, kids[i], n2, threshold, b1, least);
    LeftStep(g, n1, n2, kids, i, least, b0, b1, b, r1, d, threshold);
    r := Min(r1, d);
  }

  /** The loop over the children of n2. */
  method VisitRight(g: Globe, n1: Tree, n2: Tree, threshold: real, b0: Bounds, ghost least: real)
    returns (r: real, b: Bounds)
    requires Valid(g, n1) && Valid(g, n2) && 0.0 <= b0.minDist <= FLT_MAX && LowerBound(least, TreeGaps(g, n1, n2))
    requires Descend(n1, n2) == Right
    ensures Outcome(g, ReachedGaps(g, n1, n2), HitBelow(g, n1, n2), least, b0, b, r)
    ensures Settled(ReachedGaps(g, n1, n2), b, threshold)
    ensures least <= b0.maxDist && (exists c :: c in Kids(n2) && HitInReach(g, n1, c, least)) ==> Met(b, threshold)
    decreases n1, n2, 2
  {
    var kids := SortedKids(g, n2, n1);
    r, b := RightLoop(g, n1, n2, kids, threshold, b0, least);
    RightAllDone(g, n1, n2, kids, least, b0, b, r, threshold);
  }

  method RightLoop(g: Globe, n1: Tree, n2: Tree, kids: seq<Tree>, threshold: real, b0: Bounds, ghost least: real)
    returns (r: real, b: Bounds)
    requires Valid(g, n1) && Valid(g, n2) && 0.0 <= b0.minDist <= FLT_MAX && LowerBound(least, TreeGaps(g, n1, n2))
    requires Descend(n1, n2) == Right && SameKids(kids, n2)
    ensures RightDone(g, n1, n2, kids, |kids|, least, b0, b, r, threshold)
    decreases n1, n2, 1
  {
    r, b := FLT_MAX, b0;
    RightNone(g, n1, n2, kids, least, b0, threshold);
    for i := 0 to |kids|
      invariant RightDone(g, n1, n2, kids, i, least, b0, b, r, threshold)
    {
      r, b := RightKid(g, n1, n2, kids, i, threshold, b0, b, r, least);
    }
  }

  /** The body of that loop. */
  method RightKid(g: Globe, n1: Tree, n2: Tree, kids: seq<Tree>, i: nat, threshold: real, ghost b0: Bounds,
                 b1: Bounds, r1: real, ghost least: real)
    returns (r: real, b: Bounds)
    requires Valid(g, n1) && Valid(g, n2) && 0.0 <= b0.minDist <= FLT_MAX && LowerBound(least, TreeGaps(g, n1, n2))
    requires Descend(n1, n2) == Right && i < |kids| && SameKids(kids, n2)
    requires RightDone(g, n1, n2, kids, i, least, b0, b1, r1, threshold)
    ensures RightDone(g, n1, n2, kids, i + 1, least, b0, b, r, threshold)
    decreases n1, n2, 0
  {
    assert kids[i] in Kids(n2);
    RightKidGaps(g, n1, n2, kids[i], least);
    var d;
    d, b := Visit(g, n1, kids[i], threshold, b1, least);
    RightStep(g, n1, n2, kids, i, least, b0, b1, b, r1, d, threshold);
    r := Min(r1, d);
  }

  // ---------- a whole search ----------

  lemma LeastGap(g: Globe, n1: Tree, n2: Tree) returns (least: real)
    requires Valid(g, n1) && Valid(g, n2)
    ensures Least(least, TreeGaps(g, n1, n2))
  {
    BoundsHoldForAll(g, n1, n2);
    least := LeastExists(TreeGaps(g, n1, n2), Gap(g, Edges(n1)[0], Edges(n2)[0]));
  }

  /** m is the least distance of a leaf pair, or one below the threshold, or zero for a point in a polygon. */
  ghost predicate Exact(g: Primitives, n1: Tree, n2: Tree, threshold: real, m: real) {
    || Least(m, TreeGaps(g, n1, n2))
    || (m in TreeGaps(g, n1, n2) && m < threshold)
    || (HitBelow(g, n1, n2) && m == 0.0)
  }

  /** The search comes to a nearest pair when nothing is pruned. */
  ghost predicate NearestReached(g: Primitives, n1: Tree, n2: Tree) {
    exists d :: d in ReachedGaps(g, n1, n2) && LowerBound(d, TreeGaps(g, n1, n2))
  }

  /** A pair the search comes to has this distance, if anything has. It is exact if the search comes to a nearest pair,
      and where neither threshold nor polygon ends the search, only then. */
  ghost predicate PairFound(g: Primitives, n1: Tree, n2: Tree, threshold: real, m: real) {
    && (m == FLT_MAX || m in ReachedGaps(g, n1, n2) || (HitBelow(g, n1, n2) && m == 0.0))
    && (NearestReached(g, n1, n2) ==> Exact(g, n1, n2, threshold, m))
    && (threshold <= 0.0 && !HitBelow(g, n1, n2) ==> (Least(m, TreeGaps(g, n1, n2)) <==> NearestReached(g, n1, n2)))
  }

  /** A polygon in reach with a point of the other geometry in it makes it zero, unless the threshold was met before. */
  ghost predicate HitFound(g: Primitives, n1: Tree, n2: Tree, threshold: real, m: real) {
    forall least :: Least(least, TreeGaps(g, n1, n2)) && HitInReach(g, n1, n2, least) ==> m == 0.0 || m < threshold
  }

  /** What a search that starts afresh leaves in `min_dist`. */
  ghost predicate Found(g: Primitives, n1: Tree, n2: Tree, threshold: real, m: real) {
    PairFound(g, n1, n2, threshold, m) && HitFound(g, n1, n2, threshold, m)
  }

  lemma HitIsFound(g: Primitives, n1: Tree, n2: Tree, least: real, b: Bounds, threshold: real)
    requires Least(least, TreeGaps(g, n1, n2)) && (HitInReach(g, n1, n2, least) ==> Met(b, threshold))
    ensures HitFound(g, n1, n2, threshold, b.minDist)
  {
    forall l | Least(l, TreeGaps(g, n1, n2)) ensures l == least {
    }
  }

  lemma BelowMax(g: Globe, n1: Tree, n2: Tree)
    ensures forall d :: d in TreeGaps(g, n1, n2) ==> d < FLT_MAX
  {
    forall e, f | e in Edges(n1) && f in Edges(n2) ensures Gap(g, e, f) < FLT_MAX {
      LeafGapIsLeast(g, e, f);
    }
  }

  lemma SettledIsFound(g: Globe, n1: Tree, n2: Tree, least: real, b0: Bounds, b: Bounds, r: real, threshold: real)
    requires Valid(g, n1) && Valid(g, n2) && threshold <= FLT_MAX
    requires Least(least, TreeGaps(g, n1, n2)) && b0.minDist == b0.maxDist == FLT_MAX
    requires Outcome(g, ReachedGaps(g, n1, n2), HitBelow(g, n1, n2), least, b0, b, r)
    requires Settled(ReachedGaps(g, n1, n2), b, threshold)
    ensures PairFound(g, n1, n2, threshold, b.minDist)
  {
    BoundsHoldForAll(g, n1, n2);
    BelowMax(g, n1, n2);
    ReachedInTree(g, n1, n2);
    var all, reached := TreeGaps(g, n1, n2), ReachedGaps(g, n1, n2);
    if NearestReached(g, n1, n2) {
      var d :| d in reached && LowerBound(d, all);
      assert d == least;
      assert b.minDist <= d || b.minDist < threshold;
    } else if Least(b.minDist, all) {
      assert b.minDist !in reached;
    }
  }

  /** The search from the bounds it begins with. What the closest points hold then is not defined. */
  method Search(g: Globe, n1: Tree, n2: Tree, threshold: real, unset1: Point, unset2: Point) returns (b: Bounds)
    requires Valid(g, n1) && Valid(g, n2) && threshold <= FLT_MAX
    ensures Found(g, n1, n2, threshold, b.minDist)
    ensures if b.minDist == FLT_MAX then b.closest1 == unset1 && b.closest2 == unset2
            else g.dist(b.closest1, b.closest2) == b.minDist
  {
    ghost var least := LeastGap(g, n1, n2);
    var start := Bounds(FLT_MAX, FLT_MAX, unset1, unset2);
    var r;
    r, b := Visit(g, n1, n2, threshold, start, least);
    SettledIsFound(g, n1, n2, least, start, b, r, threshold);
    BelowMax(g, n1, n2);
    HitIsFound(g, n1, n2, least, b, threshold);
  }

  // ---------- which searches are exact ----------

  /** If one tree is a polygon with the first point of the other in it, the distance is zero, or below the threshold. */
  lemma PointInsideIsFound(g: Globe, n1: Tree, n2: Tree, threshold: real, m: real)
    requires Valid(g, n1) && Valid(g, n2) && Found(g, n1, n2, threshold, m)
    requires PointInside(g, n1, n2) || PointInside(g, n2, n1)
    ensures m == 0.0 || m < threshold
  {
    var least := LeastGap(g, n1, n2);
    BoundsHoldForAll(g, n1, n2);
    assert HitInReach(g, n1, n2, least);
  }

  /** Whatever the distances, a search that is never sent into a leaf of collection type finds the least one. */
  lemma DrivenIsExact(g: Globe, n1: Tree, n2: Tree, threshold: real, m: real)
    requires Valid(g, n1) && Valid(g, n2) && Drives(n1, n2) && Found(g, n1, n2, threshold, m)
    ensures Exact(g, n1, n2, threshold, m)
    ensures threshold <= 0.0 && !HitBelow(g, n1, n2) ==> Least(m, TreeGaps(g, n1, n2))
  {
    ReachedInTree(g, n1, n2);
    var least := LeastGap(g, n1, n2);
    assert least in ReachedGaps(g, n1, n2);
  }

  /** The angle that a search with this threshold, in the units of the radius, may find between trees it goes through
      completely: the least one, or one below 95 percent of the threshold, or zero for a point in a polygon. */
  ghost predicate Answers(g: Primitives, n1: Tree, n2: Tree, radius: real, threshold: real, angle: real) {
    || Least(angle, TreeGaps(g, n1, n2))
    || (angle in TreeGaps(g, n1, n2) && radius * angle < 0.95 * threshold)
    || (HitBelow(g, n1, n2) && angle == 0.0)
  }

  lemma Scaled(radius: real, m: real, x: real)
    requires radius > 0.0
    ensures m < x / radius <==> radius * m < x
    ensures m <= x / radius <==> radius * m <= x
  {
    assert x / radius * radius == x;
    if m < x / radius {
      assert (x / radius - m) * radius > 0.0;
    }
    if m > x / radius {
      assert (m - x / radius) * radius > 0.0;
    }
  }

  lemma GapIsNotNegative(g: Globe, n1: Tree, n2: Tree, m: real)
    requires m in TreeGaps(g, n1, n2)
    ensures m >= 0.0
  {
    var e, f :| e in Edges(n1) && f in Edges(n2) && m == Gap(g, e, f);
    LeafGapIsLeast(g, e, f);
  }

  lemma ScaleKeepsOrder(radius: real, m: real, k: real)
    requires radius > 0.0 && m >= k
    ensures radius * m >= radius * k
  {
    assert radius * (m - k) >= 0.0;
  }

  lemma FarBelow(radius: real, angle: real, least: real, threshold: real)
    requires radius > 0.0 && 0.0 <= angle && least <= angle && radius * angle < 0.95 * threshold
    ensures radius * angle <= threshold && radius * least <= threshold
  {
    ScaleKeepsOrder(radius, angle, 0.0);
    ScaleKeepsOrder(radius, angle, least);
  }

  /** So a threshold is met exactly if the least distance meets it. */
  lemma MeetsThreshold(g: Globe, n1: Tree, n2: Tree, radius: real, threshold: real, angle: real, least: real)
    requires radius > 0.0 && Answers(g, n1, n2, radius, threshold, angle) && !HitBelow(g, n1, n2)
    requires Least(least, TreeGaps(g, n1, n2))
    ensures radius * angle <= threshold <==> radius * least <= threshold
  {
    if angle != least {
      GapIsNotNegative(g, n1, n2, angle);
      FarBelow(radius, angle, least, threshold);
    }
  }

  lemma DrivenInUnits(g: Globe, n1: Tree, n2: Tree, radius: real, threshold: real, m: real)
    requires Valid(g, n1) && Valid(g, n2) && Drives(n1, n2) && radius > 0.0
    requires Found(g, n1, n2, 0.95 * threshold / radius, m)
    ensures m < FLT_MAX && Answers(g, n1, n2, radius, threshold, m)
  {
    DrivenIsExact(g, n1, n2, 0.95 * threshold / radius, m);
    BelowMax(g, n1, n2);
    Scaled(radius, m, 0.95 * threshold);
  }

  lemma MeetsItForAll(g: Globe, n1: Tree, n2: Tree, radius: real, threshold: real, angle: real, d: real)
    requires radius > 0.0 && Answers(g, n1, n2, radius, threshold, angle) && !HitBelow(g, n1, n2)
    requires d == radius * angle
    ensures forall least :: Least(least, TreeGaps(g, n1, n2)) ==> (d <= threshold <==> radius * least <= threshold)
  {
    forall least | Least(least, TreeGaps(g, n1, n2)) ensures d <= threshold <==> radius * least <= threshold {
      MeetsThreshold(g, n1, n2, radius, threshold, angle, least);
    }
  }

  lemma InsideInUnits(g: Globe, n1: Tree, n2: Tree, radius: real, threshold: real, m: real, angle: real, d: real)
    requires Valid(g, n1) && Valid(g, n2) && radius > 0.0 && 0.95 * threshold <= radius * FLT_MAX
    requires PointInside(g, n1, n2) || PointInside(g, n2, n1)
    requires Found(g, n1, n2, 0.95 * threshold / radius, m) && (m != FLT_MAX ==> angle == m) && d == radius * angle
    ensures d == 0.0 || d < 0.95 * threshold
  {
    PointInsideIsFound(g, n1, n2, 0.95 * threshold / radius, m);
    Scaled(radius, FLT_MAX, 0.95 * threshold);
    Scaled(radius, m, 0.95 * threshold);
    assert m != FLT_MAX;
  }

  /** `circ_tree_distance_tree` on a sphere of the given radius; m is `min_dist` at the end, and the angle is that of
      the closest points. When nothing was found these are still unset. */
  method TreeDistance(g: Globe, n1: Tree, n2: Tree, radius: real, threshold: real, unset1: Point, unset2: Point)
    returns (d: real, ghost angle: real, ghost m: real)
    requires Valid(g, n1) && Valid(g, n2)
    requires radius > 0.0 && 0.95 * threshold <= radius * FLT_MAX
    ensures Found(g, n1, n2, 0.95 * threshold / radius, m)
    ensures d == radius * angle && angle == if m == FLT_MAX then g.dist(unset1, unset2) else m
    ensures PointInside(g, n1, n2) || PointInside(g, n2, n1) ==> d == 0.0 || d < 0.95 * threshold
    ensures Drives(n1, n2) ==> Answers(g, n1, n2, radius, threshold, angle)
    ensures Drives(n1, n2) && !HitBelow(g, n1, n2) ==>
              forall least :: Least(least, TreeGaps(g, n1, n2)) ==> (d <= threshold <==> radius * least <= threshold)
  {
    var thresholdRadians := 0.95 * threshold / radius;
    Scaled(radius, FLT_MAX, 0.95 * threshold);
    var b := Search(g, n1, n2, thresholdRadians, unset1, unset2);
    angle, m := g.dist(b.closest1, b.closest2), b.minDist;
    d := radius * g.dist(b.closest1, b.closest2);
    if PointInside(g, n1, n2) || PointInside(g, n2, n1) {
      InsideInUnits(g, n1, n2, radius, threshold, m, angle, d);
    }
    if Drives(n1, n2) {
      DrivenInUnits(g, n1, n2, radius, threshold, m);
      if !HitBelow(g, n1, n2) {
        MeetsItForAll(g, n1, n2, radius, threshold, angle, d);
      }
    }
  }

  function Times(a: nat, b: nat): nat
    decreases a
  {
    if a == 0 then 0 else b + Times(a - 1, b)
  }

  lemma {:induction false} TimesIsProduct(a: nat, b: nat)
    ensures Times(a, b) == a * b
  {
    if a > 0 {
      TimesIsProduct(a - 1, b);
    }
  }

  lemma {:induction false} TimesAdds(a: nat, b: nat, c: nat)
    ensures Times(a + b, c) == Times(a, c) + Times(b, c)
  {
    if a > 0 {
      TimesAdds(a - 1, b, c);
    }
  }

  lemma TimesSwaps(a: nat, b: nat)
    ensures Times(a, b) == Times(b, a)
  {
    TimesIsProduct(a, b);
    TimesIsProduct(b, a);
  }

  lemma {:induction false} PairsLeftCount(s: seq<Tree>, n2: Tree)
    requires FanOut(n2) && forall c :: c in s ==> FanOut(c)
    ensures |PairsLeft(s, n2)| <= Times(|EdgesOf(s)|, |Edges(n2)|)
    ensures |PairsLeft(s, n2)| == Times(|EdgesOf(s)|, |Edges(n2)|) <==> forall c :: c in s ==> Drives(c, n2)
    decreases s, n2, 0
  {
    if s != [] {
      SearchComplete(s[0], n2);
      PairsLeftCount(s[1..], n2);
      TimesAdds(|Edges(s[0])|, |EdgesOf(s[1..])|, |Edges(n2)|);
      assert forall c :: c in s <==> c == s[0] || c in s[1..];
    }
  }

  lemma {:induction false} PairsRightCount(n1: Tree, s: seq<Tree>)
    requires FanOut(n1) && forall c :: c in s ==> FanOut(c)
    ensures |PairsRight(n1, s)| <= Times(|EdgesOf(s)|, |Edges(n1)|)
    ensures |PairsRight(n1, s)| == Times(|EdgesOf(s)|, |Edges(n1)|) <==> forall c :: c in s ==> Drives(n1, c)
    decreases n1, s, 0
  {
    if s != [] {
      SearchComplete(n1, s[0]);
      PairsRightCount(n1, s[1..]);
      TimesAdds(|Edges(s[0])|, |EdgesOf(s[1..])|, |Edges(n1)|);
      TimesSwaps(|Edges(s[0])|, |Edges(n1)|);
      assert forall c :: c in s <==> c == s[0] || c in s[1..];
    }
  }

  /** The search comes to as many pairs of leaves as there are exactly when it is never sent into a leaf of collection
      type. */
  lemma {:induction false} SearchComplete(n1: Tree, n2: Tree)
    requires FanOut(n1) && FanOut(n2)
    ensures |Pairs(n1, n2)| <= Times(|Edges(n1)|, |Edges(n2)|)
    ensures |Pairs(n1, n2)| == Times(|Edges(n1)|, |Edges(n2)|) <==> Drives(n1, n2)
    decreases n1, n2, 1
  {
    SomeEdge(n1);
    SomeEdge(n2);
    assert Times(|Edges(n1)|, |Edges(n2)|) >= 1;
    match Descend(n1, n2)
    case Compare =>
    case Left =>
      if n1.Inner? {
        PairsLeftCount(n1.nodes, n2);
      }
    case Right =>
      if n2.Inner? {
        PairsRightCount(n1, n2.nodes);
        TimesSwaps(|Edges(n1)|, |Edges(n2)|);
      }
  }

  /** A multipoint with one non-empty member is a leaf of collection type. A search against a line of several edges
      comes to nothing: `min_dist` stays where it was, and is not the distance of the two. */
  lemma LonePointIsLost(g: Globe, p: Point, line: Tree, threshold: real, m: real)
    requires line.Inner? && line.geomType == LINETYPE && Valid(g, line)
    ensures var lone := Leaf(p, 0.0, MULTIPOINTTYPE, p, Edge(p, p));
            && Valid(g, lone) && !HitBelow(g, lone, line) && !NearestReached(g, lone, line)
            && (Found(g, lone, line, threshold, m) ==>
                  m == FLT_MAX && exists d :: d in TreeGaps(g, lone, line) && d < m)
  {
    var lone := Leaf(p, 0.0, MULTIPOINTTYPE, p, Edge(p, p));
    assert g.dist(p, p) == 0.0;
    assert Pairs(lone, line) == [] && ReachedGaps(g, lone, line) == {};
    BelowMax(g, lone, line);
    var d := LeastGap(g, lone, line);
    assert d in TreeGaps(g, lone, line) && d < FLT_MAX;
  }
}
