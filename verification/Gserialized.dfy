/** The body of a serialized geometry, liblwgeom/gserialized2.c: its layout, its size, and reading it back. */
module Gserialized {
  import opened Basics
  import opened GeomTypes

  const LIMIT: nat := 0x1_0000_0000

  type u32 = n: int | 0 <= n < LIMIT

  /** A POINTARRAY: the number of points and their ordinates as they lie in memory. */
  datatype PtArray = PtArray(npoints: u32, ords: seq<byte>)

  /** An LWGEOM. Every geometry below a root has the dimensions of the root. `shape` is the ELLIPSE struct
      behind its point array, five doubles. Unset is an ellipse or bezier whose point array was never set. */
  datatype Geom =
    | Simple(kind: u32, points: PtArray)
    | Poly(rings: seq<PtArray>)
    | Ellipse(points: PtArray, shape: seq<byte>)
    | Coll(kind: u32, geoms: seq<Geom>)
    | Unset(kind: u32, shape: seq<byte>)

  const ELLIPSE_TAIL := 40

  function TypeOf(g: Geom): u32 {
    match g
    case Simple(kind, _) => kind
    case Poly(_) => POLYGONTYPE
    case Ellipse(_, _) => ELLIPSETYPE
    case Coll(kind, _) => kind
    case Unset(kind, _) => kind
  }

  /** The bytes of n points of nd doubles. */
  function Len(n: nat, nd: nat): (r: nat)
    ensures (n == 0 ==> r == 0) && (n == 1 ==> r == 8 * nd) && (n > 0 ==> r >= 8 * nd)
    decreases n
  {
    if n == 0 then 0 else 8 * nd + Len(n - 1, nd)
  }

  lemma {:induction false} LenIsProduct(n: nat, nd: nat)
    ensures Len(n, nd) == n * nd * 8
  {
    if n > 0 {
      LenIsProduct(n - 1, nd);
    }
  }

  /** The point array holds npoints points of nd doubles. */
  predicate ArrayOk(pa: PtArray, nd: nat) {
    |pa.ords| == Len(pa.npoints, nd)
  }

  /** What can be written: consistent dimensions and counts that fit 32 bits. A point has at most one vertex. */
  predicate Writable(g: Geom, nd: nat)
    decreases g
  {
    match g
    case Simple(kind, pa) => IsSimple(kind) && ArrayOk(pa, nd) && (kind == POINTTYPE ==> pa.npoints <= 1)
    case Poly(rings) => |rings| < LIMIT && forall r :: r in rings ==> ArrayOk(r, nd)
    case Ellipse(pa, shape) => ArrayOk(pa, nd) && |shape| == ELLIPSE_TAIL
    case Coll(kind, geoms) => IsCollection(kind) && |geoms| < LIMIT && forall c :: c in geoms ==> Writable(c, nd)
    case Unset(_, _) => false
  }

  /** All parts are of types their collections allow. */
  predicate Allowed(g: Geom)
    decreases g
  {
    g.Coll? ==> AllAllowed(g.kind, g.geoms)
  }

  predicate AllAllowed(kind: u32, geoms: seq<Geom>)
    decreases geoms
  {
    geoms != [] ==>
      AllowsSubtype(kind, TypeOf(geoms[0])) && Allowed(geoms[0]) && AllAllowed(kind, geoms[1..])
  }

  /** An ellipse or a bezier without points, or a part that is one. */
  predicate HasEmptyCurve(g: Geom)
    decreases g
  {
    match g
    case Simple(kind, pa) => kind == BEZIERTYPE && pa.npoints == 0
    case Ellipse(pa, _) => pa.npoints == 0
    case Coll(_, geoms) => exists c :: c in geoms && HasEmptyCurve(c)
    case _ => false
  }

  /** What can be read again as it was. */
  predicate Readable(g: Geom) {
    Allowed(g) && !HasEmptyCurve(g)
  }

  /** A geometry as the reader leaves it: the array of an ellipse or bezier without points is not set. */
  function AsRead(g: Geom): (r: Geom)
    ensures TypeOf(r) == TypeOf(g)
    decreases g
  {
    match g
    case Simple(kind, pa) => if kind == BEZIERTYPE && pa.npoints == 0 then Unset(kind, []) else g
    case Ellipse(pa, shape) => if pa.npoints == 0 then Unset(ELLIPSETYPE, shape) else g
    case Coll(kind, geoms) => Coll(kind, AllAsRead(geoms))
    case _ => g
  }

  function AllAsRead(geoms: seq<Geom>): (r: seq<Geom>)
    ensures |r| == |geoms|
    decreases geoms
  {
    if geoms == [] then [] else [AsRead(geoms[0])] + AllAsRead(geoms[1..])
  }

  /** It is the same geometry exactly if there is no such curve. */
  lemma {:induction false} AsReadIsSame(g: Geom)
    ensures AsRead(g) == g <==> !HasEmptyCurve(g)
    decreases g, 1
  {
    if g.Coll? {
      AllAsReadAreSame(g.geoms);
    }
  }

  lemma {:induction false} AllAsReadAreSame(geoms: seq<Geom>)
    ensures AllAsRead(geoms) == geoms <==> forall c :: c in geoms ==> !HasEmptyCurve(c)
    decreases geoms, 0
  {
    if geoms != [] {
      var rest := AllAsRead(geoms[1..]);
      AsReadIsSame(geoms[0]);
      AllAsReadAreSame(geoms[1..]);
      assert geoms == [geoms[0]] + geoms[1..];
      assert ([AsRead(geoms[0])] + rest)[0] == AsRead(geoms[0]) && ([AsRead(geoms[0])] + rest)[1..] == rest;
    }
  }

  lemma {:induction false} AlikeAreAllowed(kind: u32, t: nat, geoms: seq<Geom>)
    requires AllowsSubtype(kind, t) && forall c :: c in geoms ==> TypeOf(c) == t && Allowed(c)
    ensures AllAllowed(kind, geoms)
    decreases |geoms|
  {
    if geoms != [] {
      AlikeAreAllowed(kind, t, geoms[1..]);
    }
  }

  /** Parts of one type in the collection of that type can be read if each can. */
  lemma AlikeAreReadable(t: nat, geoms: seq<Geom>)
    requires CollectionType(t) < LIMIT && forall c :: c in geoms ==> TypeOf(c) == t && Readable(c)
    ensures Readable(Coll(CollectionType(t), geoms))
  {
    TakesItsMembers(t);
    AlikeAreAllowed(CollectionType(t), t, geoms);
  }

  // ---------- 32-bit numbers ----------

  function U32(n: u32): (s: seq<byte>)
    ensures |s| == 4
  {
    var q1 := n / 256;
    var q2 := q1 / 256;
    var q3 := q2 / 256;
    [n % 256, q1 % 256, q2 % 256, q3]
  }

  function GetU32(s: seq<byte>): (n: u32)
    requires |s| >= 4
  {
    var b0: int, b1: int, b2: int, b3: int := s[0], s[1], s[2], s[3];
    b0 + 256 * (b1 + 256 * (b2 + 256 * b3))
  }

  lemma U32RoundTrip(n: u32, rest: seq<byte>)
    ensures GetU32(U32(n) + rest) == n
  {
    var s := U32(n) + rest;
    var q1 := n / 256;
    var q2 := q1 / 256;
    var q3 := q2 / 256;
    assert s[0] == n % 256 && s[1] == q1 % 256 && s[2] == q2 % 256 && s[3] == q3;
    assert n == n % 256 + 256 * q1 && q1 == q1 % 256 + 256 * q2 && q2 == q2 % 256 + 256 * q3;
  }

  /** Taking a concatenation apart. */
  lemma Apart(a: seq<byte>, b: seq<byte>)
    ensures (a + b)[..|a|] == a && (a + b)[|a|..] == b
  {
  }

  lemma Assoc(a: seq<byte>, b: seq<byte>, c: seq<byte>)
    ensures a + b + c == a + (b + c)
  {
  }

  /** Taking a concatenation apart further in. */
  lemma ApartIn(s: seq<byte>, k: nat, a: seq<byte>, b: seq<byte>)
    requires k <= |s| && s[k..] == a + b
    ensures k + |a| <= |s| && s[k..k + |a|] == a && s[k + |a|..] == b
  {
    Apart(a, b);
    assert s[k..k + |a|] == s[k..][..|a|] && s[k + |a|..] == s[k..][|a|..];
  }

  // ---------- the layout ----------

  function Counts(rings: seq<PtArray>): (s: seq<byte>)
    ensures |s| == 4 * |rings|
  {
    if rings == [] then [] else U32(rings[0].npoints) + Counts(rings[1..])
  }

  function Ords(rings: seq<PtArray>): seq<byte> {
    if rings == [] then [] else rings[0].ords + Ords(rings[1..])
  }

  /** Four zero bytes after an odd number of ring counts, so that the ordinates stay aligned. */
  function Padding(n: nat): seq<byte> {
    if n % 2 == 1 then [0, 0, 0, 0] else []
  }

  lemma PaddingFills(n: nat)
    ensures (4 * n + |Padding(n)|) % 8 == 0 && |Padding(n)| < 8 && forall x :: x in Padding(n) ==> x == 0
  {
  }

  function Bytes(g: Geom, nd: nat): seq<byte>
    requires Writable(g, nd)
    decreases g
  {
    match g
    case Simple(kind, pa) => U32(kind) + U32(pa.npoints) + pa.ords
    case Poly(rings) => U32(POLYGONTYPE) + U32(|rings|) + Counts(rings) + Padding(|rings|) + Ords(rings)
    case Ellipse(pa, shape) => U32(ELLIPSETYPE) + U32(pa.npoints) + pa.ords + shape
    case Coll(kind, geoms) => U32(kind) + U32(|geoms|) + BytesOf(geoms, nd)
  }

  function BytesOf(geoms: seq<Geom>, nd: nat): seq<byte>
    requires forall c :: c in geoms ==> Writable(c, nd)
    decreases geoms
  {
    if geoms == [] then [] else Bytes(geoms[0], nd) + BytesOf(geoms[1..], nd)
  }

  // ---------- the predicted size ----------

  function RingsSize(rings: seq<PtArray>, nd: nat): nat {
    if rings == [] then 0 else 4 + Len(rings[0].npoints, nd) + RingsSize(rings[1..], nd)
  }

  /** `gserialized2_from_any_size`. */
  function Size(g: Geom, nd: nat): nat
    decreases g
  {
    match g
    case Simple(_, pa) => 8 + Len(pa.npoints, nd)
    case Poly(rings) => 8 + (if |rings| % 2 == 1 then 4 else 0) + RingsSize(rings, nd)
    case Ellipse(pa, _) => 8 + Len(pa.npoints, nd) + ELLIPSE_TAIL
    case Coll(_, geoms) => 8 + SizeOf(geoms, nd)
    case Unset(_, _) => 8
  }

  function SizeOf(geoms: seq<Geom>, nd: nat): nat
    decreases geoms
  {
    if geoms == [] then 0 else Size(geoms[0], nd) + SizeOf(geoms[1..], nd)
  }

  lemma {:induction false} RingsSizeIsExact(rings: seq<PtArray>, nd: nat)
    requires forall r :: r in rings ==> ArrayOk(r, nd)
    ensures RingsSize(rings, nd) == 4 * |rings| + |Ords(rings)|
  {
    if rings != [] {
      assert ArrayOk(rings[0], nd);
      RingsSizeIsExact(rings[1..], nd);
    }
  }

  /** The predicted size is the number of bytes written, for every geometry. */
  lemma {:induction false} SizeIsExact(g: Geom, nd: nat)
    requires Writable(g, nd)
    ensures Size(g, nd) == |Bytes(g, nd)|
    decreases g, 1
  {
    match g
    case Simple(_, _) =>
    case Poly(rings) => RingsSizeIsExact(rings, nd);
    case Ellipse(_, _) =>
    case Coll(_, geoms) => SizeOfIsExact(geoms, nd);
  }

  lemma {:induction false} SizeOfIsExact(geoms: seq<Geom>, nd: nat)
    requires forall c :: c in geoms ==> Writable(c, nd)
    ensures SizeOf(geoms, nd) == |BytesOf(geoms, nd)|
    decreases geoms, 0
  {
    if geoms != [] {
      SizeIsExact(geoms[0], nd);
      SizeOfIsExact(geoms[1..], nd);
    }
  }

  // ---------- reading ----------

  datatype Result<T> = Read(value: T, size: nat) | BadType | BadSubtype | Truncated {
    predicate IsFailure() {
      !Read?
    }

    function PropagateFailure<U>(): Result<U>
      requires IsFailure()
    {
      match this
      case BadType => BadType
      case BadSubtype => BadSubtype
      case Truncated => Truncated
    }

    function Extract(): (T, nat)
      requires Read?
    {
      (value, size)
    }
  }

  /** `*_from_gserialized2_buffer` on the bytes that follow. The original trusts its buffer; where it would
      read past the end the result here is Truncated. */
  function Parse(b: seq<byte>, nd: nat): (r: Result<Geom>)
    ensures r.Read? ==> 8 <= r.size <= |b|
    decreases |b|, 0
  {
    if |b| < 8 then Truncated
    else
      var kind, n := GetU32(b), GetU32(b[4..]);
      if IsCollection(kind) then
        var (geoms, size) :- ParseAll(kind, n, b[8..], nd);
        Read(Coll(kind, geoms), 8 + size)
      else ParsePartless(kind, n, b, nd)
  }

  function ParsePartless(kind: u32, n: u32, b: seq<byte>, nd: nat): (r: Result<Geom>)
    requires |b| >= 8
    ensures r.Read? ==> 8 <= r.size <= |b|
  {
    if IsSimple(kind) then ParseSimple(kind, n, b, nd)
    else if kind == POLYGONTYPE then ParsePoly(n, b, nd)
    else if kind == ELLIPSETYPE then ParseEllipse(n, b, nd)
    else BadType
  }

  /** A point is read as one vertex at most, whatever its count, but its count is skipped. The array of a bezier
      without points is left unset. */
  function ParseSimple(kind: u32, n: u32, b: seq<byte>, nd: nat): (r: Result<Geom>)
    requires |b| >= 8
    ensures r.Read? ==> 8 <= r.size <= |b|
  {
    var len := Len(n, nd);
    if |b| < 8 + len then Truncated
    else if kind == BEZIERTYPE && n == 0 then Read(Unset(kind, []), 8)
    else if kind == POINTTYPE && n > 1 then
      Read(Simple(kind, PtArray(1, b[8..8 + 8 * nd])), 8 + len)
    else Read(Simple(kind, PtArray(n, b[8..8 + len])), 8 + len)
  }

  function ParseEllipse(n: u32, b: seq<byte>, nd: nat): (r: Result<Geom>)
    requires |b| >= 8
    ensures r.Read? ==> 8 <= r.size <= |b|
  {
    var len := Len(n, nd);
    if |b| < 8 + len + ELLIPSE_TAIL then Truncated
    else if n == 0 then Read(Unset(ELLIPSETYPE, b[8..8 + ELLIPSE_TAIL]), 8 + ELLIPSE_TAIL)
    else Read(Ellipse(PtArray(n, b[8..8 + len]), b[8 + len..8 + len + ELLIPSE_TAIL]), 8 + len + ELLIPSE_TAIL)
  }

  /** Where the ordinates of a polygon of n rings begin. */
  function RingStart(n: nat): (r: nat)
    ensures r >= 8 + 4 * n
  {
    8 + 4 * n + |Padding(n)|
  }

  function ParsePoly(n: u32, b: seq<byte>, nd: nat): (r: Result<Geom>)
    requires |b| >= 8
    ensures r.Read? ==> 8 <= r.size <= |b|
  {
    var start := RingStart(n);
    if |b| < start then Truncated
    else
      var (rings, size) :- ParseRings(n, b[8..], b[start..], nd);
      Read(Poly(rings), start + size)
  }

  /** One ring: its count at one cursor, its ordinates at the other. */
  function ParseRing(counts: seq<byte>, ords: seq<byte>, nd: nat): (r: Result<PtArray>)
    requires |counts| >= 4
    ensures r.Read? ==> r.size <= |ords|
  {
    var npoints := GetU32(counts);
    var len := Len(npoints, nd);
    if |ords| < len then Truncated else Read(PtArray(npoints, ords[..len]), len)
  }

  function ParseRings(n: nat, counts: seq<byte>, ords: seq<byte>, nd: nat): (r: Result<seq<PtArray>>)
    requires |counts| >= 4 * n
    ensures r.Read? ==> r.size <= |ords|
    decreases n
  {
    if n == 0 then Read([], 0)
    else
      var (ring, len) :- ParseRing(counts, ords, nd);
      var (rings, size) :- ParseRings(n - 1, counts[4..], ords[len..], nd);
      Read([ring] + rings, len + size)
  }

  /** One part of a collection, whose type is looked at first. */
  function ParsePart(kind: u32, b: seq<byte>, nd: nat): (r: Result<Geom>)
    ensures r.Read? ==> 8 <= r.size <= |b|
    decreases |b|, 1
  {
    if |b| < 4 then Truncated
    else if !AllowsSubtype(kind, GetU32(b)) then BadSubtype
    else Parse(b, nd)
  }

  function ParseAll(kind: u32, n: nat, b: seq<byte>, nd: nat): (r: Result<seq<Geom>>)
    ensures r.Read? ==> r.size <= |b|
    decreases |b|, 2
  {
    if n == 0 then Read([], 0)
    else
      var (g, size) :- ParsePart(kind, b, nd);
      var (geoms, more) :- ParseAll(kind, n - 1, b[size..], nd);
      Read([g] + geoms, size + more)
  }

  // ---------- reading gives back what was written ----------

  lemma Header(kind: u32, n: u32, tail: seq<byte>, rest: seq<byte>)
    ensures var b := U32(kind) + U32(n) + tail + rest;
            |b| >= 8 && GetU32(b) == kind && GetU32(b[4..]) == n && b[8..] == tail + rest
  {
    var b := U32(kind) + U32(n) + tail + rest;
    Assoc(U32(kind) + U32(n), tail, rest);
    Assoc(U32(kind), U32(n), tail + rest);
    U32RoundTrip(kind, U32(n) + (tail + rest));
    Apart(U32(kind), U32(n) + (tail + rest));
    U32RoundTrip(n, tail + rest);
    ApartIn(b, 4, U32(n), tail + rest);
  }

  lemma RingStep(rings: seq<PtArray>, nd: nat, more: seq<byte>, rest: seq<byte>)
    requires rings != [] && ArrayOk(rings[0], nd)
    ensures var counts, ords := Counts(rings) + more, Ords(rings) + rest;
            var len := |rings[0].ords|;
            && |counts| >= 4 && ParseRing(counts, ords, nd) == Read(rings[0], len)
            && counts[4..] == Counts(rings[1..]) + more && len <= |ords| && ords[len..] == Ords(rings[1..]) + rest
  {
    var r := rings[0];
    Assoc(U32(r.npoints), Counts(rings[1..]), more);
    U32RoundTrip(r.npoints, Counts(rings[1..]) + more);
    Apart(U32(r.npoints), Counts(rings[1..]) + more);
    Assoc(r.ords, Ords(rings[1..]), rest);
    Apart(r.ords, Ords(rings[1..]) + rest);
  }

  lemma {:induction false} RingsRoundTrip(rings: seq<PtArray>, nd: nat, more: seq<byte>, rest: seq<byte>)
    requires forall r :: r in rings ==> ArrayOk(r, nd)
    ensures ParseRings(|rings|, Counts(rings) + more, Ords(rings) + rest, nd) == Read(rings, |Ords(rings)|)
  {
    if rings != [] {
      RingStep(rings, nd, more, rest);
      RingsRoundTrip(rings[1..], nd, more, rest);
      assert [rings[0]] + rings[1..] == rings;
    }
  }

  lemma PolyParts(rings: seq<PtArray>, b: seq<byte>, rest: seq<byte>)
    requires |b| >= 8 && b[8..] == Counts(rings) + (Padding(|rings|) + (Ords(rings) + rest))
    ensures RingStart(|rings|) <= |b| && b[RingStart(|rings|)..] == Ords(rings) + rest
  {
    assert RingStart(|rings|) == 8 + |Counts(rings)| + |Padding(|rings|)|;
    ThirdIn(b, Counts(rings), Padding(|rings|), Ords(rings) + rest);
  }

  lemma ThirdIn(b: seq<byte>, s: seq<byte>, t: seq<byte>, u: seq<byte>)
    requires |b| >= 8 && b[8..] == s + (t + u)
    ensures 8 + |s| + |t| <= |b| && b[8 + |s| + |t|..] == u
  {
    ApartIn(b, 8, s, t + u);
    ApartIn(b, 8 + |s|, t, u);
  }

  lemma PolyRoundTrip(rings: seq<PtArray>, nd: nat, b: seq<byte>, rest: seq<byte>)
    requires |rings| < LIMIT && forall r :: r in rings ==> ArrayOk(r, nd)
    requires |b| >= 8 && b[8..] == Counts(rings) + (Padding(|rings|) + (Ords(rings) + rest))
    ensures ParsePoly(|rings|, b, nd) == Read(Poly(rings), RingStart(|rings|) + |Ords(rings)|)
  {
    PolyParts(rings, b, rest);
    RingsRoundTrip(rings, nd, Padding(|rings|) + (Ords(rings) + rest), rest);
  }

  lemma SimpleRoundTrip(kind: u32, pa: PtArray, nd: nat, b: seq<byte>, rest: seq<byte>)
    requires Writable(Simple(kind, pa), nd) && |b| >= 8 && b[8..] == pa.ords + rest
    ensures ParseSimple(kind, pa.npoints, b, nd) == Read(AsRead(Simple(kind, pa)), 8 + |pa.ords|)
  {
    ApartIn(b, 8, pa.ords, rest);
  }

  lemma EllipseRoundTrip(pa: PtArray, shape: seq<byte>, nd: nat, b: seq<byte>, rest: seq<byte>)
    requires Writable(Ellipse(pa, shape), nd) && |b| >= 8 && b[8..] == pa.ords + (shape + rest)
    ensures ParseEllipse(pa.npoints, b, nd) == Read(AsRead(Ellipse(pa, shape)), 8 + |pa.ords| + ELLIPSE_TAIL)
  {
    ApartIn(b, 8, pa.ords, shape + rest);
    ApartIn(b, 8 + |pa.ords|, shape, rest);
  }

  /** What follows the type and the count. */
  function Tail(g: Geom, nd: nat): seq<byte>
    requires Writable(g, nd)
  {
    match g
    case Simple(_, pa) => pa.ords
    case Poly(rings) => Counts(rings) + (Padding(|rings|) + Ords(rings))
    case Ellipse(pa, shape) => pa.ords + shape
    case Coll(_, geoms) => BytesOf(geoms, nd)
  }

  function CountOf(g: Geom): nat {
    match g
    case Simple(_, pa) => pa.npoints
    case Poly(rings) => |rings|
    case Ellipse(pa, _) => pa.npoints
    case Coll(_, geoms) => |geoms|
    case Unset(_, _) => 0
  }

  lemma BytesAre(g: Geom, nd: nat)
    requires Writable(g, nd)
    ensures Bytes(g, nd) == U32(TypeOf(g)) + U32(CountOf(g)) + Tail(g, nd)
  {
    match g
    case Simple(_, _) =>
    case Poly(rings) =>
      var head := U32(POLYGONTYPE) + U32(|rings|);
      Assoc(head + Counts(rings), Padding(|rings|), Ords(rings));
      Assoc(head, Counts(rings), Padding(|rings|) + Ords(rings));
    case Ellipse(pa, shape) =>
      Assoc(U32(ELLIPSETYPE) + U32(pa.npoints), pa.ords, shape);
    case Coll(_, _) =>
  }

  lemma HeaderOf(g: Geom, nd: nat, rest: seq<byte>)
    requires Writable(g, nd)
    ensures var b := Bytes(g, nd) + rest;
            |b| >= 8 && GetU32(b) == TypeOf(g) && GetU32(b[4..]) == CountOf(g) && b[8..] == Tail(g, nd) + rest
    ensures |Bytes(g, nd)| == 8 + |Tail(g, nd)|
  {
    BytesAre(g, nd);
    Header(TypeOf(g), CountOf(g), Tail(g, nd), rest);
  }

  /** A geometry without parts is read back from behind its header. */
  lemma PartlessRoundTrip(g: Geom, nd: nat, b: seq<byte>, rest: seq<byte>)
    requires Writable(g, nd) && !g.Coll? && |b| >= 8 && b[8..] == Tail(g, nd) + rest
    ensures var size := 8 + |Tail(g, nd)|;
            ParsePartless(TypeOf(g), CountOf(g), b, nd) == Read(AsRead(g), size)
  {
    match g
    case Simple(kind, pa) =>
      SimpleRoundTrip(kind, pa, nd, b, rest);
    case Poly(rings) =>
      Assoc(Counts(rings), Padding(|rings|) + Ords(rings), rest);
      Assoc(Padding(|rings|), Ords(rings), rest);
      PolyRoundTrip(rings, nd, b, rest);
    case Ellipse(pa, shape) =>
      Assoc(pa.ords, shape, rest);
      EllipseRoundTrip(pa, shape, nd, b, rest);
    case Coll(_, _) =>
  }

  /** Whatever follows it, a serialized geometry is read back as the reader leaves it, and exactly its bytes are
      consumed. A part that is not allowed is an error. */
  lemma {:induction false} RoundTrip(g: Geom, nd: nat, rest: seq<byte>)
    requires Writable(g, nd)
    ensures Parse(Bytes(g, nd) + rest, nd) ==
            if Allowed(g) then Read(AsRead(g), |Bytes(g, nd)|) else BadSubtype
    decreases g, 1
  {
    HeaderOf(g, nd, rest);
    if g.Coll? {
      RoundTripAll(g.kind, g.geoms, nd, rest);
    } else {
      PartlessRoundTrip(g, nd, Bytes(g, nd) + rest, rest);
    }
  }

  /** It comes back as it was exactly if its parts are allowed and no ellipse or bezier is without points. */
  lemma ReadBackExactly(g: Geom, nd: nat, rest: seq<byte>)
    requires Writable(g, nd)
    ensures Parse(Bytes(g, nd) + rest, nd) == Read(g, |Bytes(g, nd)|) <==> Readable(g)
  {
    RoundTrip(g, nd, rest);
    AsReadIsSame(g);
  }

  /** An ellipse without points is written, and what is read has no array. */
  lemma EmptyEllipseIsUnset(shape: seq<byte>, nd: nat, rest: seq<byte>)
    requires |shape| == ELLIPSE_TAIL
    ensures var g := Ellipse(PtArray(0, []), shape);
            Writable(g, nd) && Parse(Bytes(g, nd) + rest, nd) == Read(Unset(ELLIPSETYPE, shape), 8 + ELLIPSE_TAIL)
  {
    var g := Ellipse(PtArray(0, []), shape);
    RoundTrip(g, nd, rest);
    SizeIsExact(g, nd);
  }

  /** All of a buffer. */
  lemma ReadsWhole(g: Geom, nd: nat, s: seq<byte>)
    requires Writable(g, nd) && s == Bytes(g, nd)
    ensures Parse(s, nd) == if Allowed(g) then Read(AsRead(g), |s|) else BadSubtype
  {
    assert s + [] == s;
    RoundTrip(g, nd, []);
  }

  lemma FirstOfAll(geoms: seq<Geom>, nd: nat, rest: seq<byte>)
    requires geoms != [] && forall c :: c in geoms ==> Writable(c, nd)
    ensures var b, after := BytesOf(geoms, nd) + rest, BytesOf(geoms[1..], nd) + rest;
            && b == Bytes(geoms[0], nd) + after && |b| >= 8 && GetU32(b) == TypeOf(geoms[0])
            && |Bytes(geoms[0], nd)| <= |b| && b[|Bytes(geoms[0], nd)|..] == after
  {
    var c, after := geoms[0], BytesOf(geoms[1..], nd) + rest;
    Assoc(Bytes(c, nd), BytesOf(geoms[1..], nd), rest);
    HeaderOf(c, nd, after);
    Apart(Bytes(c, nd), after);
  }

  /** The first part, after its type is looked at. */
  lemma PartBack(kind: u32, geoms: seq<Geom>, nd: nat, rest: seq<byte>, first: Result<Geom>)
    requires geoms != [] && (forall c :: c in geoms ==> Writable(c, nd))
    requires first == Parse(Bytes(geoms[0], nd) + (BytesOf(geoms[1..], nd) + rest), nd)
    ensures ParsePart(kind, BytesOf(geoms, nd) + rest, nd) ==
            if AllowsSubtype(kind, TypeOf(geoms[0])) then first else BadSubtype
  {
    FirstOfAll(geoms, nd, rest);
  }

  /** The first part and the others behind it. */
  lemma PartsBack(kind: u32, geoms: seq<Geom>, nd: nat, rest: seq<byte>, first: Result<Geom>)
    requires geoms != [] && (forall c :: c in geoms ==> Writable(c, nd))
    requires first == Parse(Bytes(geoms[0], nd) + (BytesOf(geoms[1..], nd) + rest), nd)
    requires if first.Read? then first.size == |Bytes(geoms[0], nd)| else first == BadSubtype
    ensures ParseAll(kind, |geoms|, BytesOf(geoms, nd) + rest, nd) ==
            if AllowsSubtype(kind, TypeOf(geoms[0])) && first.Read? then
              Behind([first.value], first.size, ParseAll(kind, |geoms| - 1, BytesOf(geoms[1..], nd) + rest, nd))
            else BadSubtype
  {
    var b := BytesOf(geoms, nd) + rest;
    PartBack(kind, geoms, nd, rest, first);
    FirstPart(kind, |geoms|, b, nd, ParsePart(kind, b, nd));
    FirstOfAll(geoms, nd, rest);
  }

  lemma {:induction false} RoundTripAll(kind: u32, geoms: seq<Geom>, nd: nat, rest: seq<byte>)
    requires forall c :: c in geoms ==> Writable(c, nd)
    ensures ParseAll(kind, |geoms|, BytesOf(geoms, nd) + rest, nd) ==
            if AllAllowed(kind, geoms) then Read(AllAsRead(geoms), |BytesOf(geoms, nd)|) else BadSubtype
    decreases geoms, 0
  {
    if geoms != [] {
      var after := BytesOf(geoms[1..], nd) + rest;
      RoundTrip(geoms[0], nd, after);
      PartsBack(kind, geoms, nd, rest, Parse(Bytes(geoms[0], nd) + after, nd));
      RoundTripAll(kind, geoms[1..], nd, rest);
    }
  }

  /** No serialization is the beginning of another: the bytes determine the geometry. */
  lemma BytesDetermine(g: Geom, h: Geom, nd: nat, rest: seq<byte>, more: seq<byte>)
    requires Writable(g, nd) && Readable(g) && Writable(h, nd) && Readable(h)
    requires Bytes(g, nd) + rest == Bytes(h, nd) + more
    ensures g == h && rest == more
  {
    ReadBackExactly(g, nd, rest);
    ReadBackExactly(h, nd, more);
    assert rest == (Bytes(g, nd) + rest)[|Bytes(g, nd)|..];
  }

  /** What was read first, in front of the rest. */
  function Behind<T>(first: seq<T>, size: nat, rest: Result<seq<T>>): Result<seq<T>> {
    if rest.Read? then Read(first + rest.value, size + rest.size) else rest
  }

  lemma FirstPart(kind: u32, n: nat, b: seq<byte>, nd: nat, sub: Result<Geom>)
    requires n > 0 && sub == ParsePart(kind, b, nd)
    ensures ParseAll(kind, n, b, nd) ==
            if sub.Read? then Behind([sub.value], sub.size, ParseAll(kind, n - 1, b[sub.size..], nd))
            else sub.PropagateFailure()
  {
  }

  // ---------- alignment ----------

  /** Where the writer puts the ordinates of each point array when it starts at `at`. */
  function Blocks(g: Geom, nd: nat, at: nat): seq<(nat, seq<byte>)>
    decreases g
  {
    match g
    case Simple(_, pa) => [(at + 8, pa.ords)]
    case Poly(rings) => RingBlocks(rings, at + RingStart(|rings|))
    case Ellipse(pa, _) => [(at + 8, pa.ords)]
    case Coll(_, geoms) => BlocksOf(geoms, nd, at + 8)
    case Unset(_, _) => []
  }

  function RingBlocks(rings: seq<PtArray>, at: nat): seq<(nat, seq<byte>)> {
    if rings == [] then [] else [(at, rings[0].ords)] + RingBlocks(rings[1..], at + |rings[0].ords|)
  }

  function BlocksOf(geoms: seq<Geom>, nd: nat, at: nat): seq<(nat, seq<byte>)>
    decreases geoms
  {
    if geoms == [] then [] else Blocks(geoms[0], nd, at) + BlocksOf(geoms[1..], nd, at + Size(geoms[0], nd))
  }

  /** The point arrays of a geometry, in order. */
  function Arrays(g: Geom): seq<PtArray>
    decreases g
  {
    match g
    case Simple(_, pa) => [pa]
    case Poly(rings) => rings
    case Ellipse(pa, _) => [pa]
    case Coll(_, geoms) => ArraysOf(geoms)
    case Unset(_, _) => []
  }

  function ArraysOf(geoms: seq<Geom>): seq<PtArray>
    decreases geoms
  {
    if geoms == [] then [] else Arrays(geoms[0]) + ArraysOf(geoms[1..])
  }

  /** The blocks are the ordinates of all of them. */
  lemma {:induction false} BlocksAreAll(g: Geom, nd: nat, at: nat)
    ensures |Blocks(g, nd, at)| == |Arrays(g)|
    ensures forall k :: 0 <= k < |Arrays(g)| ==> Blocks(g, nd, at)[k].1 == Arrays(g)[k].ords
    decreases g, 1
  {
    match g
    case Poly(rings) => RingBlocksAreAll(rings, at + RingStart(|rings|));
    case Coll(_, geoms) => AllBlocksAreAll(geoms, nd, at + 8);
    case _ =>
  }

  lemma {:induction false} RingBlocksAreAll(rings: seq<PtArray>, at: nat)
    ensures |RingBlocks(rings, at)| == |rings|
    ensures forall k :: 0 <= k < |rings| ==> RingBlocks(rings, at)[k].1 == rings[k].ords
  {
    if rings != [] {
      RingBlocksAreAll(rings[1..], at + |rings[0].ords|);
    }
  }

  lemma {:induction false} AllBlocksAreAll(geoms: seq<Geom>, nd: nat, at: nat)
    ensures |BlocksOf(geoms, nd, at)| == |ArraysOf(geoms)|
    ensures forall k :: 0 <= k < |ArraysOf(geoms)| ==> BlocksOf(geoms, nd, at)[k].1 == ArraysOf(geoms)[k].ords
    decreases geoms, 0
  {
    if geoms != [] {
      BlocksAreAll(geoms[0], nd, at);
      AllBlocksAreAll(geoms[1..], nd, at + Size(geoms[0], nd));
    }
  }

  /** buf has the bytes s at position at. */
  predicate Holds(buf: seq<byte>, at: nat, s: seq<byte>) {
    at + |s| <= |buf| && buf[at..at + |s|] == s
  }

  /** Every block lies where the list says, at a multiple of eight. */
  ghost predicate AllAligned(buf: seq<byte>, blocks: seq<(nat, seq<byte>)>) {
    forall x :: x in blocks ==> x.0 % 8 == 0 && Holds(buf, x.0, x.1)
  }

  lemma HoldsBoth(buf: seq<byte>, at: nat, a: seq<byte>, b: seq<byte>)
    requires Holds(buf, at, a + b)
    ensures Holds(buf, at, a) && Holds(buf, at + |a|, b)
  {
    Apart(a, b);
    assert buf[at..at + |a|] == buf[at..at + |a + b|][..|a|];
    assert buf[at + |a|..at + |a| + |b|] == buf[at..at + |a + b|][|a|..];
  }

  lemma SumIsAligned(m: nat, n: nat)
    requires m % 8 == 0 && n % 8 == 0
    ensures (m + n) % 8 == 0
  {
  }

  lemma {:induction false} LenIsAligned(n: nat, nd: nat)
    ensures Len(n, nd) % 8 == 0
  {
    if n > 0 {
      LenIsAligned(n - 1, nd);
    }
  }

  lemma RingAligned(r: PtArray, nd: nat)
    requires ArrayOk(r, nd)
    ensures |r.ords| % 8 == 0
  {
    LenIsAligned(r.npoints, nd);
  }

  lemma {:induction false} RingsAligned(rings: seq<PtArray>, nd: nat, buf: seq<byte>, at: nat)
    requires at % 8 == 0 && Holds(buf, at, Ords(rings)) && forall r :: r in rings ==> ArrayOk(r, nd)
    ensures |Ords(rings)| % 8 == 0 && AllAligned(buf, RingBlocks(rings, at))
  {
    if rings != [] {
      var ords := rings[0].ords;
      RingAligned(rings[0], nd);
      HoldsBoth(buf, at, ords, Ords(rings[1..]));
      SumIsAligned(at, |ords|);
      RingsAligned(rings[1..], nd, buf, at + |ords|);
      SumIsAligned(|ords|, |Ords(rings[1..])|);
    }
  }

  lemma RingStartIsAligned(n: nat)
    ensures RingStart(n) % 8 == 0
  {
  }

  lemma PolyAligned(rings: seq<PtArray>, nd: nat, buf: seq<byte>, at: nat)
    requires at % 8 == 0 && |rings| < LIMIT && forall r :: r in rings ==> ArrayOk(r, nd)
    requires Holds(buf, at, Bytes(Poly(rings), nd))
    ensures |Bytes(Poly(rings), nd)| % 8 == 0 && AllAligned(buf, RingBlocks(rings, at + RingStart(|rings|)))
  {
    var head := U32(POLYGONTYPE) + U32(|rings|) + Counts(rings) + Padding(|rings|);
    var start := RingStart(|rings|);
    assert |head| == start && Bytes(Poly(rings), nd) == head + Ords(rings);
    RingStartIsAligned(|rings|);
    SumIsAligned(at, start);
    HoldsBoth(buf, at, head, Ords(rings));
    RingsAligned(rings, nd, buf, at + start);
    SumIsAligned(start, |Ords(rings)|);
  }

  lemma ArrayAligned(head: seq<byte>, pa: PtArray, nd: nat, buf: seq<byte>, at: nat)
    requires |head| == 8 && ArrayOk(pa, nd) && at % 8 == 0 && Holds(buf, at, head + pa.ords)
    ensures |pa.ords| % 8 == 0 && AllAligned(buf, [(at + 8, pa.ords)])
  {
    LenIsAligned(pa.npoints, nd);
    HoldsBoth(buf, at, head, pa.ords);
  }

  lemma SimpleAligned(kind: u32, pa: PtArray, nd: nat, buf: seq<byte>, at: nat)
    requires Writable(Simple(kind, pa), nd) && at % 8 == 0 && Holds(buf, at, Bytes(Simple(kind, pa), nd))
    ensures |Bytes(Simple(kind, pa), nd)| % 8 == 0 && AllAligned(buf, [(at + 8, pa.ords)])
  {
    ArrayAligned(U32(kind) + U32(pa.npoints), pa, nd, buf, at);
    SumIsAligned(8, |pa.ords|);
  }

  lemma EllipseAligned(pa: PtArray, shape: seq<byte>, nd: nat, buf: seq<byte>, at: nat)
    requires ArrayOk(pa, nd) && |shape| == ELLIPSE_TAIL && at % 8 == 0
    requires Holds(buf, at, Bytes(Ellipse(pa, shape), nd))
    ensures |Bytes(Ellipse(pa, shape), nd)| % 8 == 0 && AllAligned(buf, [(at + 8, pa.ords)])
  {
    var head := U32(ELLIPSETYPE) + U32(pa.npoints);
    HoldsBoth(buf, at, head + pa.ords, shape);
    ArrayAligned(head, pa, nd, buf, at);
    SumIsAligned(8 + ELLIPSE_TAIL, |pa.ords|);
  }

  lemma PartlessAligned(g: Geom, nd: nat, buf: seq<byte>, at: nat)
    requires Writable(g, nd) && !g.Coll? && at % 8 == 0 && Holds(buf, at, Bytes(g, nd))
    ensures |Bytes(g, nd)| % 8 == 0 && AllAligned(buf, Blocks(g, nd, at))
  {
    match g
    case Simple(kind, pa) => SimpleAligned(kind, pa, nd, buf, at);
    case Poly(rings) => PolyAligned(rings, nd, buf, at);
    case Ellipse(pa, shape) => EllipseAligned(pa, shape, nd, buf, at);
    case Coll(_, _) =>
  }

  /** Wherever a geometry is written at a multiple of eight, all its ordinates lie at multiples of eight, and
      what follows it does too. */
  lemma {:induction false} OrdinatesAligned(g: Geom, nd: nat, buf: seq<byte>, at: nat)
    requires Writable(g, nd) && at % 8 == 0 && Holds(buf, at, Bytes(g, nd))
    ensures |Bytes(g, nd)| % 8 == 0 && AllAligned(buf, Blocks(g, nd, at))
    decreases g, 1
  {
    if g.Coll? {
      HoldsBoth(buf, at, U32(g.kind) + U32(|g.geoms|), BytesOf(g.geoms, nd));
      AllOrdinatesAligned(g.geoms, nd, buf, at + 8);
    } else {
      PartlessAligned(g, nd, buf, at);
    }
  }

  lemma {:induction false} AllOrdinatesAligned(geoms: seq<Geom>, nd: nat, buf: seq<byte>, at: nat)
    requires at % 8 == 0 && (forall c :: c in geoms ==> Writable(c, nd)) && Holds(buf, at, BytesOf(geoms, nd))
    ensures |BytesOf(geoms, nd)| % 8 == 0 && AllAligned(buf, BlocksOf(geoms, nd, at))
    decreases geoms, 0
  {
    if geoms != [] {
      HoldsBoth(buf, at, Bytes(geoms[0], nd), BytesOf(geoms[1..], nd));
      OrdinatesAligned(geoms[0], nd, buf, at);
      SizeIsExact(geoms[0], nd);
      SumIsAligned(at, Size(geoms[0], nd));
      AllOrdinatesAligned(geoms[1..], nd, buf, at + Size(geoms[0], nd));
      SumIsAligned(Size(geoms[0], nd), |BytesOf(geoms[1..], nd)|);
    }
  }

  // ---------- the test for emptiness ----------

  /** No leaf of g has a count. */
  predicate NoCounts(g: Geom)
    decreases g
  {
    match g
    case Coll(_, geoms) => forall c :: c in geoms ==> NoCounts(c)
    case _ => CountOf(g) == 0
  }

  /** `lwgeom_is_empty`. Ellipses that have their data and beziers are never empty. */
  predicate LwEmpty(g: Geom)
    decreases g
  {
    match g
    case Simple(kind, pa) => kind != BEZIERTYPE && pa.npoints < 1
    case Poly(rings) => |rings| < 1 || rings[0].npoints < 1
    case Ellipse(_, _) => false
    case Coll(_, geoms) => forall c :: c in geoms ==> LwEmpty(c)
    case Unset(_, _) => false
  }

  /** A polygon whose shell is there but has no points. */
  predicate HasHollow(g: Geom)
    decreases g
  {
    match g
    case Poly(rings) => |rings| > 0 && rings[0].npoints == 0
    case Coll(_, geoms) => exists c :: c in geoms && HasHollow(c)
    case _ => false
  }

  predicate HasEllipse(g: Geom)
    decreases g
  {
    match g
    case Ellipse(_, _) => true
    case Coll(_, geoms) => exists c :: c in geoms && HasEllipse(c)
    case _ => false
  }

  /** An ellipse or a bezier. */
  predicate HasCurve(g: Geom)
    decreases g
  {
    match g
    case Simple(kind, _) => kind == BEZIERTYPE
    case Ellipse(_, _) => true
    case Coll(_, geoms) => exists c :: c in geoms && HasCurve(c)
    case Unset(_, _) => true
    case _ => false
  }

  /** The two notions differ by the polygons with a hollow shell and by the curves without points. */
  lemma {:induction false} EmptyUnlessHollow(g: Geom)
    ensures LwEmpty(g) && !HasHollow(g) <==> NoCounts(g) && !HasCurve(g)
    ensures (LwEmpty(g) ==> !HasCurve(g)) && (NoCounts(g) ==> !HasHollow(g))
    decreases g
  {
    match g
    case Coll(_, geoms) =>
      forall c | c in geoms
        ensures LwEmpty(c) && !HasHollow(c) <==> NoCounts(c) && !HasCurve(c)
        ensures (LwEmpty(c) ==> !HasCurve(c)) && (NoCounts(c) ==> !HasHollow(c))
      {
        EmptyUnlessHollow(c);
      }
    case _ =>
  }

  /** `gserialized2_is_empty_recurse` on the bytes that follow: how far it got, and its verdict. */
  function EmptyWalk(b: seq<byte>): (r: Result<bool>)
    ensures r.Read? ==> 8 <= r.size <= |b|
    decreases |b|, 0
  {
    if |b| < 8 then Truncated
    else
      var kind, n := GetU32(b), GetU32(b[4..]);
      if IsCollection(kind) then
        var (empty, size) :- EmptyWalkAll(n, b[8..]);
        Read(empty, 8 + size)
      else Read(n == 0, 8)
  }

  function EmptyWalkAll(n: nat, b: seq<byte>): (r: Result<bool>)
    ensures r.Read? ==> r.size <= |b|
    decreases |b|, 1
  {
    if n == 0 then Read(true, 0)
    else
      var (empty, size) :- EmptyWalk(b);
      if !empty then Read(false, size)
      else
        var (rest, more) :- EmptyWalkAll(n - 1, b[size..]);
        Read(rest, size + more)
  }

  /** The walk steps over the head of an ellipse without points but not over its shape. It stays in step if nothing
      comes after such an ellipse that it would have to look at. */
  predicate InStep(g: Geom)
    decreases g, 1
  {
    g.Coll? ==> AllInStep(g.geoms)
  }

  predicate AllInStep(geoms: seq<Geom>)
    decreases geoms, 0
  {
    geoms != [] ==>
      && InStep(geoms[0])
      && (NoCounts(geoms[0]) && |geoms| > 1 ==> !HasEllipse(geoms[0]) && AllInStep(geoms[1..]))
  }

  /** Without ellipses and beziers it always does. */
  lemma {:induction false} CurvelessInStep(g: Geom)
    requires !HasCurve(g)
    ensures InStep(g) && !HasEllipse(g)
    decreases g, 1
  {
    if g.Coll? {
      CurvelessAllInStep(g.geoms);
    }
  }

  lemma {:induction false} CurvelessAllInStep(geoms: seq<Geom>)
    requires forall c :: c in geoms ==> !HasCurve(c)
    ensures AllInStep(geoms) && forall c :: c in geoms ==> !HasEllipse(c)
    decreases geoms, 0
  {
    if geoms != [] {
      CurvelessInStep(geoms[0]);
      CurvelessAllInStep(geoms[1..]);
      assert forall c :: c in geoms <==> c == geoms[0] || c in geoms[1..];
    }
  }

  lemma WalkLeaf(b: seq<byte>)
    requires |b| >= 8 && !IsCollection(GetU32(b))
    ensures EmptyWalk(b) == Read(GetU32(b[4..]) == 0, 8)
  {
  }

  lemma WalkDown(b: seq<byte>, n: nat, inside: seq<byte>)
    requires |b| >= 8 && IsCollection(GetU32(b)) && n == GetU32(b[4..]) && inside == b[8..]
    requires EmptyWalkAll(n, inside).Read?
    ensures EmptyWalk(b) == Read(EmptyWalkAll(n, inside).value, 8 + EmptyWalkAll(n, inside).size)
  {
  }

  /** The walk says whether a geometry has no counts, and stays in step with the bytes as long as it says so. */
  lemma {:induction false} WalkIsRight(g: Geom, nd: nat, rest: seq<byte>)
    requires Writable(g, nd) && InStep(g)
    ensures var r := EmptyWalk(Bytes(g, nd) + rest);
            r.Read? && r.value == NoCounts(g) && (r.value && !HasEllipse(g) ==> r.size == |Bytes(g, nd)|)
    decreases g, 1
  {
    HeaderOf(g, nd, rest);
    if g.Coll? {
      WalkAllIsRight(g.geoms, nd, rest);
      WalkDown(Bytes(g, nd) + rest, |g.geoms|, BytesOf(g.geoms, nd) + rest);
    } else {
      WalkLeaf(Bytes(g, nd) + rest);
      assert CountOf(g) == 0 && !g.Ellipse? ==> Tail(g, nd) == [];
    }
  }

  lemma WalkFirst(n: nat, b: seq<byte>, first: Result<bool>)
    requires n > 0 && first == EmptyWalk(b) && first.Read?
    ensures EmptyWalkAll(n, b) ==
            if !first.value then Read(false, first.size)
            else if EmptyWalkAll(n - 1, b[first.size..]).Read? then
              Read(EmptyWalkAll(n - 1, b[first.size..]).value, first.size + EmptyWalkAll(n - 1, b[first.size..]).size)
            else EmptyWalkAll(n - 1, b[first.size..])
  {
  }

  lemma {:induction false} WalkAllIsRight(geoms: seq<Geom>, nd: nat, rest: seq<byte>)
    requires AllInStep(geoms) && forall c :: c in geoms ==> Writable(c, nd)
    ensures var r := EmptyWalkAll(|geoms|, BytesOf(geoms, nd) + rest);
            && r.Read? && r.value == (forall c :: c in geoms ==> NoCounts(c))
            && (r.value && (forall c :: c in geoms ==> !HasEllipse(c)) ==> r.size == |BytesOf(geoms, nd)|)
    decreases geoms, 0
  {
    if geoms != [] {
      var b := BytesOf(geoms, nd) + rest;
      FirstOfAll(geoms, nd, rest);
      WalkIsRight(geoms[0], nd, BytesOf(geoms[1..], nd) + rest);
      WalkFirst(|geoms|, b, EmptyWalk(b));
      assert forall c :: c in geoms <==> c == geoms[0] || c in geoms[1..];
      if NoCounts(geoms[0]) && |geoms| > 1 {
        WalkAllIsRight(geoms[1..], nd, rest);
      }
    }
  }

  /** In step, the walk agrees with `lwgeom_is_empty` exactly unless the geometry is empty with a hollow polygon, or
      has no counts and a curve. */
  lemma WalkAgrees(g: Geom, nd: nat, rest: seq<byte>)
    requires Writable(g, nd) && InStep(g)
    ensures var r := EmptyWalk(Bytes(g, nd) + rest);
            && r.Read?
            && (r.value == LwEmpty(g) <==> !(LwEmpty(g) && HasHollow(g)) && !(NoCounts(g) && HasCurve(g)))
  {
    WalkIsRight(g, nd, rest);
    EmptyUnlessHollow(g);
  }

  /** A polygon with a shell of no points is empty, and the walk says it is not. */
  lemma HollowIsMissed(nd: nat, rest: seq<byte>)
    ensures var g := Poly([PtArray(0, [])]);
            Writable(g, nd) && LwEmpty(g) && EmptyWalk(Bytes(g, nd) + rest) == Read(false, 8)
  {
    var g := Poly([PtArray(0, [])]);
    assert g.rings[0].npoints == 0;
    HeaderOf(g, nd, rest);
  }

  /** An ellipse and a bezier without points are not empty, and the walk says they are. */
  lemma CurveIsMissed(shape: seq<byte>, nd: nat, rest: seq<byte>)
    requires |shape| == ELLIPSE_TAIL
    ensures var g := Ellipse(PtArray(0, []), shape);
            Writable(g, nd) && !LwEmpty(g) && EmptyWalk(Bytes(g, nd) + rest) == Read(true, 8)
    ensures var g := Simple(BEZIERTYPE, PtArray(0, []));
            Writable(g, nd) && !LwEmpty(g) && EmptyWalk(Bytes(g, nd) + rest) == Read(true, 8)
  {
    var ellipse, bezier := Ellipse(PtArray(0, []), shape), Simple(BEZIERTYPE, PtArray(0, []));
    HeaderOf(ellipse, nd, rest);
    WalkLeaf(Bytes(ellipse, nd) + rest);
    HeaderOf(bezier, nd, rest);
    WalkLeaf(Bytes(bezier, nd) + rest);
  }

  lemma ZerosAreEmpty(zeros: seq<byte>, after: seq<byte>)
    requires |zeros| >= 8 && forall i :: 0 <= i < |zeros| ==> zeros[i] == 0
    ensures EmptyWalk(zeros + after) == Read(true, 8)
  {
    var b := zeros + after;
    assert GetU32(b) == 0 && GetU32(b[4..]) == 0;
    WalkLeaf(b);
  }

  lemma TwoEmptyParts(b: seq<byte>)
    requires |b| >= 8 && EmptyWalk(b) == Read(true, 8) && EmptyWalk(b[8..]) == Read(true, 8)
    ensures EmptyWalkAll(2, b) == Read(true, 16)
  {
    WalkFirst(1, b[8..], Read(true, 8));
    WalkFirst(2, b, Read(true, 8));
  }

  lemma ZerosTakenForPart(zeros: seq<byte>, nd: nat, after: seq<byte>)
    requires |zeros| == ELLIPSE_TAIL && forall i :: 0 <= i < |zeros| ==> zeros[i] == 0
    ensures EmptyWalkAll(2, Bytes(Ellipse(PtArray(0, []), zeros), nd) + after) == Read(true, 16)
  {
    var ellipse := Ellipse(PtArray(0, []), zeros);
    var b := Bytes(ellipse, nd) + after;
    HeaderOf(ellipse, nd, after);
    WalkLeaf(b);
    assert b[8..] == zeros + after;
    ZerosAreEmpty(zeros, after);
    TwoEmptyParts(b);
  }

  /** Out of step: after an ellipse of zeros without points the walk takes the ellipse for the next part, whatever that
      is, and calls the collection empty. */
  lemma EllipseHides(zeros: seq<byte>, part: Geom, nd: nat, rest: seq<byte>)
    requires |zeros| == ELLIPSE_TAIL && (forall i :: 0 <= i < |zeros| ==> zeros[i] == 0) && Writable(part, nd)
    ensures var g := Coll(COLLECTIONTYPE, [Ellipse(PtArray(0, []), zeros), part]);
            && Writable(g, nd) && !LwEmpty(g) && !InStep(g)
            && EmptyWalk(Bytes(g, nd) + rest) == Read(true, 24)
  {
    var first := Ellipse(PtArray(0, []), zeros);
    var geoms := [first, part];
    var g := Coll(COLLECTIONTYPE, geoms);
    assert first in geoms && NoCounts(first) && HasEllipse(first);
    assert forall c :: c in geoms ==> c == first || c == part;
    HeaderOf(g, nd, rest);
    FirstOfAll(geoms, nd, rest);
    ZerosTakenForPart(zeros, nd, BytesOf(geoms[1..], nd) + rest);
    WalkDown(Bytes(g, nd) + rest, 2, BytesOf(geoms, nd) + rest);
  }
}
