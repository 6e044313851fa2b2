/** The two halves of the index together: searches between trees that were merged from leaves. */
module CircIndex {
  import opened Basics
  import opened GeomTypes
  import opened Sphere
  import opened CircTree
  import opened CircMerge
  import opened CircDistance

  /** What there is to merge: leaves that enclose their edges and do not carry the type of a collection. */
  ghost predicate PlainLeafNodes(g: Primitives, s: seq<Tree>) {
    s != [] && forall t :: t in s ==> t.Leaf? && Encloses(g, t) && !IsCollection(t.geomType)
  }

  lemma {:induction false} PassIsPlain(g: Primitives, s: seq<Tree>)
    requires forall t :: t in s ==> PlainLeaves(t)
    ensures forall t :: t in Pass(g, s) ==> PlainLeaves(t)
    decreases |s|
  {
    if |s| >= 8 {
      PassIsPlain(g, s[8..]);
      assert PlainLeaves(NewNode(g, s[..8]));
    } else if |s| >= 2 {
      assert PlainLeaves(NewNode(g, s));
    }
  }

  lemma {:induction false} MergeIsPlain(g: Primitives, s: seq<Tree>)
    requires s != [] && forall t :: t in s ==> PlainLeaves(t)
    ensures PlainLeaves(MergeAll(g, s))
    decreases |s|
  {
    if |s| > 1 {
      PassIsPlain(g, s);
      MergeIsPlain(g, Pass(g, s));
    }
  }

  lemma {:induction false} PromotesToNoPolygon(t: nat, rest: seq<Tree>)
    requires t != POLYGONTYPE && forall c :: c in rest ==> c.geomType != POLYGONTYPE
    ensures PromoteAll(t, rest) != POLYGONTYPE
    decreases |rest|
  {
    if rest != [] {
      PromotesToNoPolygon(Promote(t, rest[0].geomType), rest[1..]);
    }
  }

  lemma NewNodeNoPolygon(g: Primitives, c: seq<Tree>)
    requires c != [] && forall t :: t in c ==> NoPolygon(t)
    ensures NoPolygon(NewNode(g, c))
  {
    forall t | t in c ensures t.geomType != POLYGONTYPE {
      assert NoPolygon(t);
    }
    PromotesToNoPolygon(c[0].geomType, c[1..]);
  }

  lemma {:induction false} PassNoPolygon(g: Primitives, s: seq<Tree>)
    requires forall t :: t in s ==> NoPolygon(t)
    ensures forall t :: t in Pass(g, s) ==> NoPolygon(t)
    decreases |s|
  {
    if |s| >= 8 {
      PassNoPolygon(g, s[8..]);
      NewNodeNoPolygon(g, s[..8]);
    } else if |s| >= 2 {
      NewNodeNoPolygon(g, s);
    }
  }

  lemma {:induction false} MergeNoPolygon(g: Primitives, s: seq<Tree>)
    requires s != [] && forall t :: t in s ==> NoPolygon(t)
    ensures NoPolygon(MergeAll(g, s))
    decreases |s|
  {
    if |s| > 1 {
      PassNoPolygon(g, s);
      MergeNoPolygon(g, Pass(g, s));
    }
  }

  /** Trees merged from plain leaves are what a search is exact about. */
  lemma MergedForSearch(g: Globe, s: seq<Tree>)
    requires PlainLeafNodes(g, s) && SafePasses(g, s)
    ensures Valid(g, MergeAll(g, s)) && PlainLeaves(MergeAll(g, s)) && Edges(MergeAll(g, s)) == EdgesOf(s)
  {
    MergeEncloses(g, s);
    MergeFansOut(g, s);
    MergeIsPlain(g, s);
    MergeKeepsEdges(g, s);
  }

  /** Merge two lists of leaves and search: the answer is the least distance between their edges, or one below the
      threshold, or a point in a polygon. */
  lemma IndexIsExact(g: Globe, s: seq<Tree>, t: seq<Tree>, threshold: real, m: real)
    requires PlainLeafNodes(g, s) && PlainLeafNodes(g, t) && SafePasses(g, s) && SafePasses(g, t)
    requires Found(g, MergeAll(g, s), MergeAll(g, t), threshold, m)
    ensures Exact(g, MergeAll(g, s), MergeAll(g, t), threshold, m)
    ensures TreeGaps(g, MergeAll(g, s), MergeAll(g, t)) == Gaps(g, EdgesOf(s), EdgesOf(t))
  {
    MergedForSearch(g, s);
    MergedForSearch(g, t);
    PlainLeavesDrive(MergeAll(g, s), MergeAll(g, t));
    DrivenIsExact(g, MergeAll(g, s), MergeAll(g, t), threshold, m);
  }

  /** Without polygons and threshold it is the least distance, as a linear scan of all pairs of edges would find it. */
  lemma IndexFindsLeast(g: Globe, s: seq<Tree>, t: seq<Tree>, threshold: real, m: real)
    requires PlainLeafNodes(g, s) && PlainLeafNodes(g, t) && SafePasses(g, s) && SafePasses(g, t)
    requires (forall n :: n in s ==> n.geomType != POLYGONTYPE) && (forall n :: n in t ==> n.geomType != POLYGONTYPE)
    requires threshold <= 0.0 && Found(g, MergeAll(g, s), MergeAll(g, t), threshold, m)
    ensures Least(m, Gaps(g, EdgesOf(s), EdgesOf(t)))
  {
    IndexIsExact(g, s, t, threshold, m);
    MergeNoPolygon(g, s);
    MergeNoPolygon(g, t);
    NoPolygonNoHit(g, MergeAll(g, s), MergeAll(g, t));
    MergedForSearch(g, s);
    MergedForSearch(g, t);
    PlainLeavesDrive(MergeAll(g, s), MergeAll(g, t));
    DrivenIsExact(g, MergeAll(g, s), MergeAll(g, t), threshold, m);
  }
}
