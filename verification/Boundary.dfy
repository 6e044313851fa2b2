/** The MULTILINE and MULTICURVE cases of `lwgeom_boundary` in liblwgeom/lwgeom.c: the end points that an odd number
    of members have, section 6.1.8 of OGC 06-103r4. Coordinates are compared as values. */
module Boundary {
  datatype Point = Point(x: real, y: real, z: real, m: real)

  /** A member: a line or circular string with its vertices, or a type whose boundary is an error. */
  datatype Member = Curve(points: seq<Point>, hasZ: bool) | Unsupported

  /** `lwgeom_is_closed`: a single vertex is closed, and M does not count. */
  predicate Closed(c: Member)
    requires c.Curve? && c.points != []
  {
    var first, last := c.points[0], c.points[|c.points| - 1];
    first.x == last.x && first.y == last.y && (c.hasZ ==> first.z == last.z)
  }

  /** An open member with p at an end. */
  predicate EndsAt(c: Member, p: Point) {
    && c.Curve? && c.points != [] && !Closed(c)
    && (c.points[0] == p || c.points[|c.points| - 1] == p)
  }

  /** `lwgeom_boundary` of a member: the two ends of an open curve. */
  function Ends(c: Member): (ends: seq<Point>)
    ensures forall p :: p in ends <==> EndsAt(c, p)
    ensures forall j, k :: 0 <= j < k < |ends| ==> ends[j] != ends[k]
    ensures |ends| == 0 || |ends| == 2
  {
    if c.Unsupported? || c.points == [] || Closed(c) then []
    else [c.points[0], c.points[|c.points| - 1]]
  }

  /** How many members have p at an end. */
  function Degree(members: seq<Member>, p: Point): nat {
    if members == [] then 0
    else Degree(members[..|members| - 1], p) + if EndsAt(members[|members| - 1], p) then 1 else 0
  }

  /** Whether that is an odd number. */
  predicate Odd(members: seq<Member>, p: Point) {
    if members == [] then false else Odd(members[..|members| - 1], p) != EndsAt(members[|members| - 1], p)
  }

  lemma {:induction false} OddDegree(members: seq<Member>, p: Point)
    ensures Odd(members, p) <==> Degree(members, p) % 2 == 1
  {
    if members != [] {
      OddDegree(members[..|members| - 1], p);
    }
  }

  /** A curve alone has its ends for a boundary, unless they are one point: of the plane, or of space if it has Z. */
  lemma BoundaryOfOne(c: Member, p: Point)
    requires c.Curve? && c.points != []
    ensures var first, last := c.points[0], c.points[|c.points| - 1];
            Degree([c], p) % 2 == 1 <==>
            && (p == first || p == last)
            && (first.x != last.x || first.y != last.y || (c.hasZ && first.z != last.z))
  {
    assert [c][..0] == [];
    assert Degree([c], p) == Degree([c][..0], p) + if EndsAt(c, p) then 1 else 0;
  }

  /** s has the points that satisfy odd, each once. */
  ghost predicate Lists(s: seq<Point>, odd: Point -> bool) {
    && (forall p :: p in s <==> odd(p))
    && forall j, k :: 0 <= j < k < |s| ==> s[j] != s[k]
  }

  /** The body of the loop over the ends: an end that is there goes, with the last end put in its place, and one that
      is not is added. */
  method Toggle(out: array<Point>, n: nat, pt: Point, ghost odd: Point -> bool) returns (left: nat)
    requires n < out.Length && Lists(out[..n], odd)
    modifies out
    ensures (left == n + 1 || left + 1 == n) && left <= out.Length
    ensures Lists(out[..left], p => if p == pt then !odd(p) else odd(p))
  {
    var seen := false;
    left := n;
    ghost var s := out[..n];
    var j := 0;
    while j < left
      invariant 0 <= j <= left == n && out[..n] == s
      invariant pt !in s[..j]
    {
      if out[j] == pt {
        seen := true;
        left := left - 1;
        out[j] := out[left];
        assert s[j] == pt;
        Removed(s, j, out[..left]);
        break;
      }
      assert s[..j + 1] == s[..j] + [s[j]];
      j := j + 1;
    }
    if !seen {
      assert s[..n] == s;
      out[left] := pt;
      left := left + 1;
      assert out[..left] == s + [pt];
    }
  }

  /** Swap-remove takes out one element and keeps the others. */
  lemma Removed(s: seq<Point>, j: nat, t: seq<Point>)
    requires j < |s| && |t| == |s| - 1
    requires forall k :: 0 <= k < |t| ==> t[k] == if k == j then s[|s| - 1] else s[k]
    requires forall i, k :: 0 <= i < k < |s| ==> s[i] != s[k]
    ensures forall p :: p in t <==> p in s && p != s[j]
    ensures forall i, k :: 0 <= i < k < |t| ==> t[i] != t[k]
  {
    forall p | p in s && p != s[j] ensures p in t {
      var k :| 0 <= k < |s| && s[k] == p;
      assert t[if k == |s| - 1 then j else k] == p;
    }
  }

  lemma ListsSame(s: seq<Point>, f: Point -> bool, g: Point -> bool)
    requires Lists(s, f) && forall p :: f(p) == g(p)
    ensures Lists(s, g)
  {
  }

  /** The loop over the ends of a member. */
  method ToggleEnds(ends: seq<Point>, out: array<Point>, n: nat, ghost odd: Point -> bool) returns (left: nat)
    requires n + |ends| <= out.Length && Lists(out[..n], odd)
    requires forall j, k :: 0 <= j < k < |ends| ==> ends[j] != ends[k]
    modifies out
    ensures left <= n + |ends| && left % 2 == (n + |ends|) % 2
    ensures Lists(out[..left], p => odd(p) != (p in ends))
  {
    left := n;
    ghost var now := odd;
    for k := 0 to |ends|
      invariant left <= n + k && left % 2 == (n + k) % 2 && Lists(out[..left], now)
      invariant forall p :: now(p) == (odd(p) != (p in ends[..k]))
    {
      ghost var before := now;
      left := Toggle(out, left, ends[k], now);
      now := p => if p == ends[k] then !before(p) else before(p);
      assert ends[..k + 1] == ends[..k] + [ends[k]];
      assert ends[k] !in ends[..k];
    }
    assert ends[..|ends|] == ends;
    ListsSame(out[..left], now, p => odd(p) != (p in ends));
  }

  /** `lwgeom_boundary` of a multi-curve: a point is there once if it is an end of an odd number of members, and not
      at all otherwise. The buffer of two points a member is never overrun. */
  method BoundaryOfCurves(members: seq<Member>) returns (boundary: seq<Point>)
    ensures forall p :: p in boundary <==> Degree(members, p) % 2 == 1
    ensures forall j, k :: 0 <= j < k < |boundary| ==> boundary[j] != boundary[k]
    ensures |boundary| <= 2 * |members| && |boundary| % 2 == 0
  {
    var out := new Point[|members| * 2](_ => Point(0.0, 0.0, 0.0, 0.0));
    var n: nat := 0;
    ghost var odd: Point -> bool := p => Odd([], p);
    for i := 0 to |members|
      invariant n <= 2 * i && n % 2 == 0 && Lists(out[..n], odd)
      invariant forall p :: odd(p) == Odd(members[..i], p)
    {
      ghost var before := odd;
      var ends := Ends(members[i]);
      n := ToggleEnds(ends, out, n, odd);
      odd := p => before(p) != (p in ends);
      assert members[..i + 1][..i] == members[..i];
    }
    assert members[..|members|] == members;
    boundary := out[..n];
    forall p ensures p in boundary <==> Degree(members, p) % 2 == 1 {
      OddDegree(members, p);
    }
  }
}
