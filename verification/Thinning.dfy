/** The MULTIPOINT case of `lwgeom_remove_repeated_points_in_place` in liblwgeom/lwgeom.c: the points are thinned
    out in place until no two are within the tolerance. */
module Thinning {
  import opened Basics
  import opened Sorting

  datatype Point = Point(x: real, y: real, z: real, m: real)

  function DistanceSquared(p: Point, q: Point): real {
    (q.x - p.x) * (q.x - p.x) + (q.y - p.y) * (q.y - p.y)
  }

  /** Two points of which one is redundant. None are where the tolerance is negative. */
  predicate Near(p: Point, q: Point, tolerance: real) {
    tolerance >= 0.0 && DistanceSquared(p, q) <= tolerance * tolerance
  }

  /** The coordinate a sweep goes along. */
  function Along(dim: nat): Point -> real {
    if dim == 1 then (p: Point) => p.x else (p: Point) => p.y
  }

  lemma SquareGrows(d: real, t: real)
    requires 0.0 <= t < d
    ensures t * t < d * d
  {
    assert t * (d - t) >= 0.0 && d * (d - t) > 0.0;
  }

  /** What is outside the strip is outside the circle. */
  lemma StripIsWider(p: Point, q: Point, tolerance: real, dim: nat)
    requires Along(dim)(q) - Along(dim)(p) > tolerance
    ensures !Near(p, q, tolerance)
  {
    if tolerance >= 0.0 {
      SquareGrows(Along(dim)(q) - Along(dim)(p), tolerance);
      var dx, dy := q.x - p.x, q.y - p.y;
      assert dx * dx >= 0.0 && dy * dy >= 0.0;
    }
  }

  lemma SquaresGrow(d: real, t: real)
    requires t >= 0.0
    ensures d * d <= t * t <==> -t <= d <= t
  {
    if d > t {
      SquareGrows(d, t);
    } else if d < -t {
      SquareGrows(-d, t);
    } else {
      assert (t - d) * (t + d) >= 0.0;
    }
  }

  /** In whatever direction it goes, one step of length d from p is near exactly if d is within the tolerance. */
  lemma NearIsWithin(p: Point, q: Point, tolerance: real, d: real, c: real, s: real)
    requires c * c + s * s == 1.0 && q.x == p.x + d * c && q.y == p.y + d * s
    ensures Near(p, q, tolerance) <==> -tolerance <= d <= tolerance
  {
    assert (q.x - p.x) * (q.x - p.x) == (d * d) * (c * c);
    assert (q.y - p.y) * (q.y - p.y) == (d * d) * (s * s);
    assert (d * d) * (c * c) + (d * d) * (s * s) == (d * d) * (c * c + s * s);
    if tolerance >= 0.0 {
      SquaresGrow(d, tolerance);
    }
  }

  lemma NearIsSymmetric(p: Point, q: Point, tolerance: real)
    ensures Near(p, q, tolerance) == Near(q, p, tolerance)
  {
    assert (q.x - p.x) * (q.x - p.x) == (p.x - q.x) * (p.x - q.x);
    assert (q.y - p.y) * (q.y - p.y) == (p.y - q.y) * (p.y - q.y);
  }

  // ---------- the naive thinning ----------

  /** A point is kept if it is near none of the kept points before it, wherever they are. */
  predicate Kept(s: seq<Point>, k: nat, tolerance: real)
    requires k < |s|
  {
    forall m: nat :: m < k && Kept(s, m, tolerance) ==> !Near(s[m], s[k], tolerance)
  }

  /** The kept points among the first n. */
  function KeptOf(s: seq<Point>, n: nat, tolerance: real): (r: seq<Point>)
    requires n <= |s|
    ensures |r| <= n
  {
    if n == 0 then []
    else if Kept(s, n - 1, tolerance) then KeptOf(s, n - 1, tolerance) + [s[n - 1]]
    else KeptOf(s, n - 1, tolerance)
  }

  predicate PairwiseFar(s: seq<Point>, tolerance: real) {
    forall j, k :: 0 <= j < k < |s| ==> !Near(s[j], s[k], tolerance)
  }

  predicate CoveredBy(p: Point, kept: seq<Point>, tolerance: real) {
    exists q :: q in kept && (q == p || Near(q, p, tolerance))
  }

  /** Nothing is covered by no points, and one point more covers itself and what is near it. */
  lemma CoveredByMore(p: Point, kept: seq<Point>, q: Point, tolerance: real)
    ensures !CoveredBy(p, [], tolerance)
    ensures CoveredBy(p, kept + [q], tolerance) <==>
            CoveredBy(p, kept, tolerance) || q == p || Near(q, p, tolerance)
  {
    assert q in kept + [q] && forall x :: x in kept ==> x in kept + [q];
  }

  lemma {:induction false} KeptAreFar(s: seq<Point>, n: nat, tolerance: real)
    requires n <= |s|
    ensures PairwiseFar(KeptOf(s, n, tolerance), tolerance)
    ensures forall q :: q in KeptOf(s, n, tolerance) ==>
              exists m :: 0 <= m < n && Kept(s, m, tolerance) && s[m] == q
    ensures forall m :: 0 <= m < n && Kept(s, m, tolerance) ==> s[m] in KeptOf(s, n, tolerance)
  {
    if n > 0 {
      KeptAreFar(s, n - 1, tolerance);
      var before := KeptOf(s, n - 1, tolerance);
      if Kept(s, n - 1, tolerance) {
        forall j | 0 <= j < |before| ensures !Near(before[j], s[n - 1], tolerance) {
          assert before[j] in before;
        }
      }
    }
  }

  lemma KeptCover(s: seq<Point>, tolerance: real)
    ensures forall p :: p in s ==> CoveredBy(p, KeptOf(s, |s|, tolerance), tolerance)
  {
    KeptAreFar(s, |s|, tolerance);
    forall p | p in s ensures CoveredBy(p, KeptOf(s, |s|, tolerance), tolerance) {
      var k :| 0 <= k < |s| && s[k] == p;
      if !Kept(s, k, tolerance) {
        var m: nat :| m < k && Kept(s, m, tolerance) && Near(s[m], s[k], tolerance);
        assert s[m] in KeptOf(s, |s|, tolerance);
      }
    }
  }

  lemma {:induction false} KeptAreSome(s: seq<Point>, n: nat, tolerance: real)
    requires n <= |s|
    ensures multiset(KeptOf(s, n, tolerance)) <= multiset(s[..n])
  {
    if n > 0 {
      KeptAreSome(s, n - 1, tolerance);
      var before := KeptOf(s, n - 1, tolerance);
      assert s[..n] == s[..n - 1] + [s[n - 1]];
      assert KeptOf(s, n, tolerance) == before || KeptOf(s, n, tolerance) == before + [s[n - 1]];
    }
  }

  /** Nothing is removed from points that are pairwise far, in whatever order. */
  lemma {:induction false} FarAreKept(s: seq<Point>, n: nat, tolerance: real)
    requires n <= |s| && PairwiseFar(s, tolerance)
    ensures KeptOf(s, n, tolerance) == s[..n]
  {
    if n > 0 {
      FarAreKept(s, n - 1, tolerance);
      assert s[..n] == s[..n - 1] + [s[n - 1]];
    }
  }

  lemma FarInAnyOrder(s: seq<Point>, r: seq<Point>, tolerance: real)
    requires PairwiseFar(s, tolerance) && multiset(r) == multiset(s)
    ensures PairwiseFar(r, tolerance)
  {
    forall j, k | 0 <= j < k < |r| ensures !Near(r[j], r[k], tolerance) {
      NearIsSymmetric(r[j], r[k], tolerance);
      if r[j] != r[k] {
        assert r[j] in multiset(s) && r[k] in multiset(s);
      } else {
        Twice(r, j, k);
        OccursTwice(s, r[j]);
      }
    }
  }

  lemma Twice(s: seq<Point>, j: nat, k: nat)
    requires j < k < |s| && s[j] == s[k]
    ensures multiset(s)[s[j]] >= 2
  {
    assert s == s[..k] + [s[k]] + s[k + 1..];
    assert s[..k] == s[..j] + [s[j]] + s[j + 1..k];
  }

  lemma {:induction false} OccursTwice(s: seq<Point>, p: Point)
    requires multiset(s)[p] >= 2
    ensures exists j, k :: 0 <= j < k < |s| && s[j] == p == s[k]
  {
    var n := |s| - 1;
    assert s == s[..n] + [s[n]];
    if s[n] == p {
      assert p in multiset(s[..n]);
      var j :| 0 <= j < n && s[..n][j] == p;
      assert s[j] == p == s[n];
    } else {
      OccursTwice(s[..n], p);
      var j, k :| 0 <= j < k < n && s[..n][j] == p == s[..n][k];
      assert s[j] == p == s[k];
    }
  }

  // ---------- the sweeps ----------

  /** Some kept point among the first n, before k, is near point k. */
  predicate Struck(s: seq<Point>, n: nat, k: nat, tolerance: real)
    requires k < |s|
  {
    exists m: nat :: m < n && m < k && Kept(s, m, tolerance) && Near(s[m], s[k], tolerance)
  }

  ghost predicate SomeStruck(s: seq<Point>, n: nat, tolerance: real) {
    exists k :: 0 <= k < |s| && Struck(s, n, k, tolerance)
  }

  /** The array after the first n points have been swept: NULL for those that are struck. */
  ghost predicate Swept(a: seq<Option<Point>>, s: seq<Point>, n: nat, tolerance: real) {
    |s| <= |a| && forall k :: 0 <= k < |s| ==> a[k] == if Struck(s, n, k, tolerance) then None else Some(s[k])
  }

  /** What `qsort` leaves behind. */
  predicate SortedAlong(s: seq<Point>, dim: nat) {
    forall j, k :: 0 <= j < k < |s| ==> Along(dim)(s[j]) <= Along(dim)(s[k])
  }

  /** From the first point outside the strip on, nothing is near. */
  lemma BeyondStrip(s: seq<Point>, i: nat, j: nat, tolerance: real, dim: nat)
    requires SortedAlong(s, dim) && i < j < |s| && Along(dim)(s[j]) - Along(dim)(s[i]) > tolerance
    ensures forall k :: j <= k < |s| ==> !Near(s[i], s[k], tolerance)
  {
    forall k | j <= k < |s| ensures !Near(s[i], s[k], tolerance) {
      assert Along(dim)(s[j]) <= Along(dim)(s[k]);
      StripIsWider(s[i], s[k], tolerance, dim);
    }
  }

  lemma OneMoreSwept(s: seq<Point>, i: nat, k: nat, tolerance: real)
    requires i < |s| && k < |s|
    ensures Struck(s, i + 1, k, tolerance) <==>
            Struck(s, i, k, tolerance) || (i < k && Kept(s, i, tolerance) && Near(s[i], s[k], tolerance))
  {
  }

  /** The loop over the upcoming points: those near point i go. */
  method StrikeUpcoming(geoms: array<Option<Point>>, ghost s: seq<Point>, n: nat, i: nat, dim: nat, tolerance: real)
    returns (modified: bool)
    requires n == |s| && i < n && SortedAlong(s, dim) && geoms.Length >= n
    requires Swept(geoms[..], s, i, tolerance) && Kept(s, i, tolerance)
    modifies geoms
    ensures Swept(geoms[..], s, i + 1, tolerance)
    ensures modified <==> exists k :: 0 <= k < n && geoms[k] != old(geoms[k])
    ensures forall k :: n <= k < geoms.Length ==> geoms[k] == old(geoms[k])
  {
    modified := false;
    forall k | 0 <= k < n ensures geoms[k] == if Struck(s, i, k, tolerance) then None else Some(s[k]) {
      assert geoms[k] == geoms[..][k];
    }
    assert !Struck(s, i, i, tolerance);
    var pti := geoms[i].value;
    var j := i + 1;
    while j < n
      invariant i < j <= n
      invariant forall k :: 0 <= k < j ==> geoms[k] == if Struck(s, i + 1, k, tolerance) then None else Some(s[k])
      invariant forall k :: j <= k < n ==> geoms[k] == old(geoms[k])
      invariant forall k :: n <= k < geoms.Length ==> geoms[k] == old(geoms[k])
      invariant modified <==> exists k :: 0 <= k < j && geoms[k] != old(geoms[k])
    {
      OneMoreSwept(s, i, j, tolerance);
      if geoms[j].Some? {
        var ptj := geoms[j].value;
        if (if dim == 1 then ptj.x - pti.x else ptj.y - pti.y) > tolerance {
          BeyondStrip(s, i, j, tolerance, dim);
          break;
        }
        if DistanceSquared(pti, ptj) <= tolerance * tolerance {
          geoms[j] := None;
          modified := true;
        }
      }
      j := j + 1;
    }
    forall k | j <= k < n ensures geoms[k] == if Struck(s, i + 1, k, tolerance) then None else Some(s[k]) {
      OneMoreSwept(s, i, k, tolerance);
    }
  }

  ghost predicate Holds(a: seq<Option<Point>>, s: seq<Point>) {
    |s| <= |a| && forall k :: 0 <= k < |s| ==> a[k] == Some(s[k])
  }

  lemma NoneStruckYet(s: seq<Point>, a: seq<Option<Point>>, tolerance: real)
    requires Holds(a, s)
    ensures Swept(a, s, 0, tolerance)
  {
  }

  /** After the last point, a point is gone exactly if it is not kept. */
  lemma StruckOrKept(s: seq<Point>, k: nat, n: nat, tolerance: real)
    requires k < |s| && k <= n
    ensures Struck(s, n, k, tolerance) <==> !Kept(s, k, tolerance)
  {
  }

  /** A sweep of the sorted points: those not kept by the naive thinning become NULL. */
  method Strike(geoms: array<Option<Point>>, ghost s: seq<Point>, n: nat, dim: nat, tolerance: real)
    returns (modified: bool)
    requires n == |s| && SortedAlong(s, dim) && Holds(geoms[..], s)
    modifies geoms
    ensures forall k :: 0 <= k < n ==> geoms[k] == if Kept(s, k, tolerance) then Some(s[k]) else None
    ensures modified <==> exists k :: 0 <= k < n && !Kept(s, k, tolerance)
  {
    modified := false;
    NoneStruckYet(s, geoms[..], tolerance);
    for i := 0 to n
      invariant Swept(geoms[..], s, i, tolerance)
      invariant modified <==> SomeStruck(s, i, tolerance)
    {
      StruckOrKept(s, i, i, tolerance);
      assert geoms[..][i] == geoms[i];
      ghost var before := geoms[..];
      if geoms[i].Some? {
        var more := StrikeUpcoming(geoms, s, n, i, dim, tolerance);
        StruckMore(s, i, before, geoms[..], tolerance);
        modified := modified || more;
      } else {
        forall k | 0 <= k < n ensures Struck(s, i + 1, k, tolerance) == Struck(s, i, k, tolerance) {
          OneMoreSwept(s, i, k, tolerance);
        }
      }
    }
    forall k | 0 <= k < n
      ensures Struck(s, n, k, tolerance) <==> !Kept(s, k, tolerance)
      ensures geoms[k] == if Kept(s, k, tolerance) then Some(s[k]) else None
    {
      StruckOrKept(s, k, n, tolerance);
      assert geoms[..][k] == geoms[k];
    }
  }

  lemma StruckMore(s: seq<Point>, i: nat, a: seq<Option<Point>>, b: seq<Option<Point>>, tolerance: real)
    requires i < |s| && Swept(a, s, i, tolerance) && Swept(b, s, i + 1, tolerance)
    ensures SomeStruck(s, i + 1, tolerance) <==>
            SomeStruck(s, i, tolerance) || (exists k :: 0 <= k < |s| && b[k] != a[k])
  {
    forall k | 0 <= k < |s| ensures Struck(s, i + 1, k, tolerance) <==> Struck(s, i, k, tolerance) || b[k] != a[k] {
      OneMoreSwept(s, i, k, tolerance);
    }
  }

  /** The compaction: what is left moves to the front. */
  method Compact(geoms: array<Option<Point>>, ghost s: seq<Point>, n: nat, tolerance: real) returns (ngeoms: nat)
    requires n == |s| && n <= geoms.Length
    requires forall k :: 0 <= k < n ==> geoms[k] == if Kept(s, k, tolerance) then Some(s[k]) else None
    modifies geoms
    ensures ngeoms == |KeptOf(s, n, tolerance)| && Holds(geoms[..], KeptOf(s, n, tolerance))
  {
    var i := 0;
    for j := 0 to n
      invariant i == |KeptOf(s, j, tolerance)| <= j
      invariant forall k :: 0 <= k < i ==> geoms[k] == Some(KeptOf(s, j, tolerance)[k])
      invariant forall k :: j <= k < n ==> geoms[k] == old(geoms[k])
    {
      if geoms[j].Some? {
        geoms[i] := geoms[j];
        i := i + 1;
      }
    }
    ngeoms := i;
  }

  /** The points of an array that has no NULL among its first n. */
  function Points(a: seq<Option<Point>>): (s: seq<Point>)
    requires forall k :: 0 <= k < |a| ==> a[k].Some?
    ensures |s| == |a| && forall k :: 0 <= k < |s| ==> a[k] == Some(s[k])
  {
    if a == [] then [] else Points(a[..|a| - 1]) + [a[|a| - 1].value]
  }

  lemma HoldsPoints(a: seq<Option<Point>>, s: seq<Point>)
    requires Holds(a, s)
    ensures Points(a[..|s|]) == s
  {
    assert forall k :: 0 <= k < |s| ==> Some(Points(a[..|s|])[k]) == Some(s[k]);
  }

  lemma PointsHeld(geoms: array<Option<Point>>, n: nat)
    requires n <= geoms.Length && forall k :: 0 <= k < n ==> geoms[k].Some?
    ensures Holds(geoms[..], Points(geoms[..n]))
  {
    assert forall k :: 0 <= k < n ==> geoms[..][k] == geoms[..n][k];
  }

  lemma PointsAre(geoms: array<Option<Point>>, s: seq<Point>)
    requires Holds(geoms[..], s)
    ensures |s| <= geoms.Length && forall k :: 0 <= k < |s| ==> geoms[k].Some?
    ensures Points(geoms[..|s|]) == s
  {
    HoldsPoints(geoms[..], s);
    assert geoms[..][..|s|] == geoms[..|s|];
    assert forall k :: 0 <= k < |s| ==> geoms[k] == geoms[..][k];
  }

  method SortPrefix(geoms: array<Option<Point>>, ghost s: seq<Point>, n: nat, dim: nat) returns (ghost r: seq<Point>)
    requires n == |s| && Holds(geoms[..], s)
    modifies geoms
    ensures multiset(r) == multiset(s) && |r| == n && SortedAlong(r, dim) && Holds(geoms[..], r)
  {
    PointsAre(geoms, s);
    var sorted := QSort(Points(geoms[..n]), Along(dim));
    assert |multiset(sorted)| == |multiset(s)|;
    forall k | 0 <= k < n {
      geoms[k] := Some(sorted[k]);
    }
    r := sorted;
  }

  class MultiPoint {
    var geoms: array<Option<Point>>
    var ngeoms: nat

    ghost predicate Valid()
      reads this, geoms
    {
      ngeoms <= geoms.Length && forall k :: 0 <= k < ngeoms ==> geoms[k].Some?
    }

    ghost function Contents(): seq<Point>
      requires Valid()
      reads this, geoms
    {
      Points(geoms[..ngeoms])
    }

    /** One pass of the loop over the dimensions. */
    method Sweep(dim: nat, tolerance: real) returns (modified: bool, ghost sorted: seq<Point>)
      requires Valid()
      modifies this, geoms
      ensures Valid() && geoms == old(geoms)
      ensures multiset(sorted) == multiset(old(Contents())) && SortedAlong(sorted, dim)
      ensures Contents() == KeptOf(sorted, |sorted|, tolerance)
      ensures modified <==> exists k :: 0 <= k < |sorted| && !Kept(sorted, k, tolerance)
    {
      ghost var before := Contents();
      PointsHeld(geoms, ngeoms);
      sorted := SortPrefix(geoms, before, ngeoms, dim);
      modified := Strike(geoms, sorted, ngeoms, dim, tolerance);
      ngeoms := Compact(geoms, sorted, ngeoms, tolerance);
      PointsAre(geoms, KeptOf(sorted, |sorted|, tolerance));
    }

    /** `lwgeom_remove_repeated_points_in_place`: what the naive thinning keeps of the points in order of y, a net of
        those that were there, is left in order of x. */
    method RemoveRepeatedPoints(tolerance: real) returns (modified: bool, ghost byY: seq<Point>)
      requires Valid()
      modifies this, geoms
      ensures Valid() && geoms == old(geoms)
      ensures multiset(byY) == multiset(old(Contents())) && forall j, k :: 0 <= j < k < |byY| ==> byY[j].y <= byY[k].y
      ensures multiset(Contents()) == multiset(KeptOf(byY, |byY|, tolerance))
      ensures forall j, k :: 0 <= j < k < |Contents()| ==> Contents()[j].x <= Contents()[k].x
      ensures multiset(Contents()) <= multiset(old(Contents()))
      ensures PairwiseFar(Contents(), tolerance)
      ensures forall p :: p in old(Contents()) ==> CoveredBy(p, Contents(), tolerance)
      ensures modified <==> ngeoms < old(ngeoms)
    {
      modified := false;
      ghost var before := Contents();
      ghost var sorted, kept, again;
      var more;
      more, sorted := Sweep(0, tolerance);
      byY := sorted;
      modified := modified || more;
      kept := Contents();
      more, again := Sweep(1, tolerance);
      modified := modified || more;
      TwoSweeps(before, sorted, kept, again, Contents(), tolerance);
    }
  }

  lemma SameMembers(s: seq<Point>, r: seq<Point>)
    requires multiset(s) == multiset(r)
    ensures |s| == |r| && forall p :: p in s <==> p in r
  {
    assert |multiset(s)| == |multiset(r)|;
    assert forall p :: p in s <==> p in multiset(s);
    assert forall p :: p in r <==> p in multiset(r);
  }

  lemma {:induction false} FewerKept(s: seq<Point>, n: nat, tolerance: real)
    requires n <= |s|
    ensures |KeptOf(s, n, tolerance)| < n <==> exists k :: 0 <= k < n && !Kept(s, k, tolerance)
  {
    if n > 0 {
      FewerKept(s, n - 1, tolerance);
      if Kept(s, n - 1, tolerance) {
        assert |KeptOf(s, n, tolerance)| == |KeptOf(s, n - 1, tolerance)| + 1;
        assert forall k :: 0 <= k < n && !Kept(s, k, tolerance) ==> k < n - 1;
      } else {
        var m: nat :| m < n - 1 && Kept(s, m, tolerance) && Near(s[m], s[n - 1], tolerance);
        assert !Kept(s, n - 1, tolerance);
      }
    }
  }

  /** The first sweep leaves a net. */
  lemma FirstSweep(before: seq<Point>, sorted: seq<Point>, kept: seq<Point>, tolerance: real)
    requires multiset(sorted) == multiset(before) && kept == KeptOf(sorted, |sorted|, tolerance)
    ensures multiset(kept) <= multiset(before) && PairwiseFar(kept, tolerance)
    ensures forall p :: p in before ==> CoveredBy(p, kept, tolerance)
    ensures |kept| < |before| <==> exists k :: 0 <= k < |sorted| && !Kept(sorted, k, tolerance)
  {
    assert sorted[..|sorted|] == sorted;
    KeptAreSome(sorted, |sorted|, tolerance);
    KeptAreFar(sorted, |sorted|, tolerance);
    KeptCover(sorted, tolerance);
    SameMembers(sorted, before);
    FewerKept(sorted, |sorted|, tolerance);
  }

  /** The second sweep removes nothing from it. */
  lemma SecondSweep(kept: seq<Point>, again: seq<Point>, tolerance: real)
    requires PairwiseFar(kept, tolerance) && multiset(again) == multiset(kept)
    ensures KeptOf(again, |again|, tolerance) == again && PairwiseFar(again, tolerance)
    ensures forall k :: 0 <= k < |again| ==> Kept(again, k, tolerance)
    ensures |again| == |kept| && forall p :: p in again <==> p in kept
  {
    FarInAnyOrder(kept, again, tolerance);
    FarAreKept(again, |again|, tolerance);
    assert again[..|again|] == again;
    FewerKept(again, |again|, tolerance);
    SameMembers(again, kept);
  }

  /** What both sweeps together leave. */
  lemma TwoSweeps(before: seq<Point>, sorted: seq<Point>, kept: seq<Point>, again: seq<Point>, left: seq<Point>,
                  tolerance: real)
    requires multiset(sorted) == multiset(before) && kept == KeptOf(sorted, |sorted|, tolerance)
    requires multiset(again) == multiset(kept) && SortedAlong(again, 1) && left == KeptOf(again, |again|, tolerance)
    ensures multiset(left) <= multiset(before) && PairwiseFar(left, tolerance) && SortedAlong(left, 1)
    ensures multiset(left) == multiset(kept)
    ensures forall p :: p in before ==> CoveredBy(p, left, tolerance)
    ensures |left| < |before| <==> (exists k :: 0 <= k < |sorted| && !Kept(sorted, k, tolerance))
                                   || (exists k :: 0 <= k < |again| && !Kept(again, k, tolerance))
  {
    FirstSweep(before, sorted, kept, tolerance);
    SecondSweep(kept, again, tolerance);
  }
}
