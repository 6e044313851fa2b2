/** liblwgeom/gserialized2.c as it runs: writers that advance through a byte buffer, size functions that
    accumulate, readers that move one or two cursors. */
module GserializedBuffer {
  import opened Basics
  import opened GeomTypes
  import opened Gserialized

  /** b with the bytes s written at position loc. */
  function Splice(b: seq<byte>, loc: nat, s: seq<byte>): (r: seq<byte>)
    requires loc + |s| <= |b|
    ensures |r| == |b|
  {
    b[..loc] + s + b[loc + |s|..]
  }

  lemma SpliceTwice(b: seq<byte>, loc: nat, s: seq<byte>, t: seq<byte>)
    requires loc + |s| + |t| <= |b|
    ensures Splice(Splice(b, loc, s), loc + |s|, t) == Splice(b, loc, s + t)
  {
  }

  lemma SpliceNothing(b: seq<byte>, loc: nat)
    requires loc <= |b|
    ensures Splice(b, loc, []) == b
  {
  }

  // ---------- the size functions ----------

  method RingsSizeOf(rings: seq<PtArray>, nd: nat) returns (size: nat)
    ensures size == RingsSize(rings, nd)
  {
    size := 0;
    for i := 0 to |rings|
      invariant size + RingsSize(rings[i..], nd) == RingsSize(rings, nd)
    {
      size := size + 4;
      size := size + Len(rings[i].npoints, nd);
      assert rings[i..][1..] == rings[i + 1..];
    }
  }

  /** `gserialized2_from_any_size`. */
  method SizeAny(g: Geom, nd: nat) returns (size: nat)
    ensures size == Size(g, nd)
    decreases g
  {
    size := 4;
    size := size + 4;
    match g
    case Simple(_, pa) =>
      size := size + Len(pa.npoints, nd);
    case Poly(rings) =>
      if |rings| % 2 == 1 {
        size := size + 4;
      }
      var rest := RingsSizeOf(rings, nd);
      size := size + rest;
    case Ellipse(pa, _) =>
      size := size + Len(pa.npoints, nd);
      size := size + ELLIPSE_TAIL;
    case Unset(_, _) =>
    case Coll(_, geoms) =>
      for i := 0 to |geoms|
        invariant size + SizeOf(geoms[i..], nd) == 8 + SizeOf(geoms, nd)
      {
        var subsize := SizeAny(geoms[i], nd);
        size := size + subsize;
        assert geoms[i..][1..] == geoms[i + 1..];
      }
  }

  // ---------- the writers ----------

  /** memcpy into the buffer. */
  method Copy(buf: array<byte>, loc: nat, s: seq<byte>) returns (next: nat)
    requires loc + |s| <= buf.Length
    modifies buf
    ensures next == loc + |s| && buf[..] == Splice(old(buf[..]), loc, s)
  {
    forall i | 0 <= i < |s| {
      buf[loc + i] := s[i];
    }
    next := loc + |s|;
  }

  /** The npoints of the rings. */
  method WriteCounts(rings: seq<PtArray>, buf: array<byte>, start: nat) returns (loc: nat)
    requires start + 4 * |rings| <= buf.Length
    modifies buf
    ensures loc == start + 4 * |rings| && buf[..] == Splice(old(buf[..]), start, Counts(rings))
  {
    loc := start;
    ghost var done: seq<byte> := [];
    SpliceNothing(buf[..], start);
    for i := 0 to |rings|
      invariant loc == start + |done| && done + Counts(rings[i..]) == Counts(rings)
      invariant buf[..] == Splice(old(buf[..]), start, done)
    {
      var word := U32(rings[i].npoints);
      assert rings[i..][1..] == rings[i + 1..];
      Assoc(done, word, Counts(rings[i + 1..]));
      SpliceTwice(old(buf[..]), start, done, word);
      loc := Copy(buf, loc, word);
      done := done + word;
    }
    assert done == Counts(rings);
  }

  /** The ordinates of the rings. */
  method WriteOrds(rings: seq<PtArray>, buf: array<byte>, start: nat) returns (loc: nat)
    requires start + |Ords(rings)| <= buf.Length
    modifies buf
    ensures loc == start + |Ords(rings)| && buf[..] == Splice(old(buf[..]), start, Ords(rings))
  {
    loc := start;
    ghost var done: seq<byte> := [];
    SpliceNothing(buf[..], start);
    for i := 0 to |rings|
      invariant loc == start + |done| && done + Ords(rings[i..]) == Ords(rings)
      invariant buf[..] == Splice(old(buf[..]), start, done)
    {
      var ords := rings[i].ords;
      assert rings[i..][1..] == rings[i + 1..];
      Assoc(done, ords, Ords(rings[i + 1..]));
      SpliceTwice(old(buf[..]), start, done, ords);
      loc := Copy(buf, loc, ords);
      done := done + ords;
      assert buf[..] == Splice(old(buf[..]), start, done);
    }
    assert done == Ords(rings);
  }

  /** The type and the count. */
  method WriteHead(kind: u32, n: u32, buf: array<byte>, start: nat) returns (loc: nat)
    requires start + 8 <= buf.Length
    modifies buf
    ensures loc == start + 8 && buf[..] == Splice(old(buf[..]), start, U32(kind) + U32(n))
  {
    loc := Copy(buf, start, U32(kind));
    loc := Copy(buf, loc, U32(n));
    SpliceTwice(old(buf[..]), start, U32(kind), U32(n));
  }

  /** `gserialized2_from_lwline` and its likes. */
  method WriteSimple(kind: u32, pa: PtArray, buf: array<byte>, start: nat) returns (size: nat)
    requires start + 8 + |pa.ords| <= buf.Length
    modifies buf
    ensures size == 8 + |pa.ords| && buf[..] == Splice(old(buf[..]), start, U32(kind) + U32(pa.npoints) + pa.ords)
  {
    ghost var before := buf[..];
    var loc := WriteHead(kind, pa.npoints, buf, start);
    SpliceTwice(before, start, U32(kind) + U32(pa.npoints), pa.ords);
    loc := Copy(buf, loc, pa.ords);
    size := loc - start;
  }

  /** `gserialized2_from_lwellipse`. */
  method WriteEllipse(pa: PtArray, shape: seq<byte>, buf: array<byte>, start: nat) returns (size: nat)
    requires start + 8 + |pa.ords| + |shape| <= buf.Length
    modifies buf
    ensures size == 8 + |pa.ords| + |shape|
    ensures buf[..] == Splice(old(buf[..]), start, U32(ELLIPSETYPE) + U32(pa.npoints) + pa.ords + shape)
  {
    ghost var before := buf[..];
    ghost var head := U32(ELLIPSETYPE) + U32(pa.npoints) + pa.ords;
    size := WriteSimple(ELLIPSETYPE, pa, buf, start);
    SpliceTwice(before, start, head, shape);
    var loc := Copy(buf, start + size, shape);
    size := loc - start;
  }

  /** `gserialized2_from_lwgeom_any`: writes the bytes of the geometry and nothing else, and returns how many. */
  method WriteAny(g: Geom, nd: nat, buf: array<byte>, start: nat) returns (size: nat)
    requires Writable(g, nd) && start + |Bytes(g, nd)| <= buf.Length
    modifies buf
    ensures size == |Bytes(g, nd)| && buf[..] == Splice(old(buf[..]), start, Bytes(g, nd))
    decreases g, 0
  {
    match g
    case Simple(kind, pa) =>
      size := WriteSimple(kind, pa, buf, start);
    case Poly(rings) =>
      size := WritePoly(rings, buf, start);
    case Ellipse(pa, shape) =>
      size := WriteEllipse(pa, shape, buf, start);
    case Coll(kind, geoms) =>
      size := WriteCollection(kind, geoms, nd, buf, start);
  }

  /** `gserialized2_from_lwcollection`. */
  method WriteCollection(kind: u32, geoms: seq<Geom>, nd: nat, buf: array<byte>, start: nat) returns (size: nat)
    requires |geoms| < LIMIT && forall c :: c in geoms ==> Writable(c, nd)
    requires start + 8 + |BytesOf(geoms, nd)| <= buf.Length
    modifies buf
    ensures size == 8 + |BytesOf(geoms, nd)|
    ensures buf[..] == Splice(old(buf[..]), start, U32(kind) + U32(|geoms|) + BytesOf(geoms, nd))
    decreases geoms, 1
  {
    ghost var before := buf[..];
    var loc := WriteHead(kind, |geoms|, buf, start);
    SpliceTwice(before, start, U32(kind) + U32(|geoms|), BytesOf(geoms, nd));
    loc := WriteAll(geoms, nd, buf, loc);
    size := loc - start;
  }

  /** Zero bytes after an odd number of counts. */
  method WritePadding(n: nat, buf: array<byte>, start: nat) returns (loc: nat)
    requires start + |Padding(n)| <= buf.Length
    modifies buf
    ensures loc == start + |Padding(n)| && buf[..] == Splice(old(buf[..]), start, Padding(n))
  {
    loc := start;
    SpliceNothing(buf[..], start);
    if n % 2 == 1 {
      loc := Copy(buf, loc, [0, 0, 0, 0]);
    }
  }

  lemma SpliceThrice(b: seq<byte>, at: nat, s: seq<byte>, t: seq<byte>, u: seq<byte>)
    requires at + |s| + |t| + |u| <= |b|
    ensures Splice(Splice(Splice(b, at, s), at + |s|, t), at + |s| + |t|, u) == Splice(b, at, s + t + u)
  {
    SpliceTwice(b, at, s, t);
    SpliceTwice(b, at, s + t, u);
  }

  /** What comes before the ordinates of a polygon. */
  function PolyHead(rings: seq<PtArray>): (s: seq<byte>)
    requires |rings| < LIMIT
    ensures |s| == RingStart(|rings|)
  {
    U32(POLYGONTYPE) + U32(|rings|) + Counts(rings) + Padding(|rings|)
  }

  method WritePolyHead(rings: seq<PtArray>, buf: array<byte>, start: nat) returns (loc: nat)
    requires |rings| < LIMIT && start + |PolyHead(rings)| <= buf.Length
    modifies buf
    ensures loc == start + |PolyHead(rings)| && buf[..] == Splice(old(buf[..]), start, PolyHead(rings))
  {
    ghost var before := buf[..];
    loc := WriteHead(POLYGONTYPE, |rings|, buf, start);
    loc := WriteCounts(rings, buf, loc);
    loc := WritePadding(|rings|, buf, loc);
    SpliceThrice(before, start, U32(POLYGONTYPE) + U32(|rings|), Counts(rings), Padding(|rings|));
  }

  /** `gserialized2_from_lwpoly`. */
  method WritePoly(rings: seq<PtArray>, buf: array<byte>, start: nat) returns (size: nat)
    requires |rings| < LIMIT && start + RingStart(|rings|) + |Ords(rings)| <= buf.Length
    modifies buf
    ensures size == RingStart(|rings|) + |Ords(rings)|
    ensures buf[..] == Splice(old(buf[..]), start, PolyHead(rings) + Ords(rings))
  {
    ghost var before := buf[..];
    var loc := WritePolyHead(rings, buf, start);
    SpliceTwice(before, start, PolyHead(rings), Ords(rings));
    loc := WriteOrds(rings, buf, loc);
    size := loc - start;
  }

  /** The loop over the parts of a collection. */
  method WriteAll(geoms: seq<Geom>, nd: nat, buf: array<byte>, start: nat) returns (loc: nat)
    requires (forall c :: c in geoms ==> Writable(c, nd)) && start + |BytesOf(geoms, nd)| <= buf.Length
    modifies buf
    ensures loc == start + |BytesOf(geoms, nd)| && buf[..] == Splice(old(buf[..]), start, BytesOf(geoms, nd))
    decreases geoms, 0
  {
    loc := start;
    ghost var done: seq<byte> := [];
    SpliceNothing(buf[..], start);
    for i := 0 to |geoms|
      invariant loc == start + |done| && done + BytesOf(geoms[i..], nd) == BytesOf(geoms, nd)
      invariant buf[..] == Splice(old(buf[..]), start, done)
    {
      NextPart(geoms, nd, i, done);
      loc, done := WritePart(geoms[i], nd, buf, loc, old(buf[..]), start, done);
    }
    assert done == BytesOf(geoms, nd);
  }

  lemma NextPart(geoms: seq<Geom>, nd: nat, i: nat, done: seq<byte>)
    requires i < |geoms| && (forall c :: c in geoms ==> Writable(c, nd))
    ensures done + BytesOf(geoms[i..], nd) == done + Bytes(geoms[i], nd) + BytesOf(geoms[i + 1..], nd)
  {
    assert geoms[i..][1..] == geoms[i + 1..];
    Assoc(done, Bytes(geoms[i], nd), BytesOf(geoms[i + 1..], nd));
  }

  /** One part behind those already written. */
  method WritePart(g: Geom, nd: nat, buf: array<byte>, loc: nat, ghost before: seq<byte>, ghost start: nat,
                   ghost done: seq<byte>)
    returns (next: nat, ghost more: seq<byte>)
    requires Writable(g, nd) && loc == start + |done| && loc + |Bytes(g, nd)| <= buf.Length == |before|
    requires buf[..] == Splice(before, start, done)
    modifies buf
    ensures next == loc + |Bytes(g, nd)| && more == done + Bytes(g, nd)
    ensures buf[..] == Splice(before, start, more)
    decreases g, 1
  {
    SpliceTwice(before, start, done, Bytes(g, nd));
    var subsize := WriteAny(g, nd, buf, loc);
    next, more := loc + subsize, done + Bytes(g, nd);
  }

  // ---------- the readers ----------

  // Reading changes nothing, so the readers have the contents of the buffer.

  lemma Further(s: seq<byte>, i: nat, k: nat)
    requires i + k <= |s|
    ensures s[i..][k..] == s[i + k..] && s[i..][..k] == s[i..i + k]
  {
  }

  lemma Within(s: seq<byte>, at: nat, i: nat, j: nat)
    requires i <= j && at + j <= |s|
    ensures s[at..][i..j] == s[at + i..at + j]
  {
  }

  /** `gserialized2_get_uint32_t`. */
  method GetAt(buf: seq<byte>, at: nat) returns (n: u32)
    requires at + 4 <= |buf|
    ensures n == GetU32(buf[at..])
  {
    n := GetU32(buf[at..]);
  }

  lemma BehindNothing<T>(rest: Result<seq<T>>)
    ensures Behind([], 0, rest) == rest
  {
    if rest.Read? {
      assert [] + rest.value == rest.value;
    }
  }

  lemma BehindOne<T>(first: seq<T>, size: nat, one: T, more: nat, rest: Result<seq<T>>)
    ensures Behind(first, size, Behind([one], more, rest)) == Behind(first + [one], size + more, rest)
  {
    if rest.Read? {
      assert first + ([one] + rest.value) == first + [one] + rest.value;
    }
  }

  lemma BehindOneOf<T>(first: seq<T>, size: nat, one: Result<T>, all: Result<seq<T>>, rest: Result<seq<T>>)
    requires one.Read? && all == Behind([one.value], one.size, rest)
    ensures Behind(first, size, all) == Behind(first + [one.value], size + one.size, rest)
  {
    BehindOne(first, size, one.value, one.size, rest);
  }

  /** What the loop over the rings is to return, when some are read and n are left. */
  ghost function RingsFrom(rings: seq<PtArray>, size: nat, n: nat, buf: seq<byte>, countsAt: nat, ordsAt: nat, nd: nat)
    : Result<seq<PtArray>>
    requires countsAt + 4 * n <= |buf| && ordsAt <= |buf|
  {
    Behind(rings, size, ParseRings(n, buf[countsAt..], buf[ordsAt..], nd))
  }

  /** One ring after those already read. */
  lemma RingAhead(rings: seq<PtArray>, size: nat, n: nat, buf: seq<byte>, countsAt: nat, ordsAt: nat, nd: nat,
                  ring: Result<PtArray>)
    requires n > 0 && countsAt + 4 * n <= |buf| && ordsAt <= |buf|
    requires ring == ParseRing(buf[countsAt..], buf[ordsAt..], nd)
    ensures ring.Read? ==> ordsAt + ring.size <= |buf|
    ensures RingsFrom(rings, size, n, buf, countsAt, ordsAt, nd) ==
            if ring.Read? then
              RingsFrom(rings + [ring.value], size + ring.size, n - 1, buf, countsAt + 4, ordsAt + ring.size, nd)
            else ring.PropagateFailure()
  {
    if ring.Read? {
      var counts, ords := buf[countsAt..], buf[ordsAt..];
      BehindOne(rings, size, ring.value, ring.size, ParseRings(n - 1, counts[4..], ords[ring.size..], nd));
      Further(buf, countsAt, 4);
      Further(buf, ordsAt, ring.size);
    }
  }

  lemma NoRingLeft(rings: seq<PtArray>, size: nat, buf: seq<byte>, countsAt: nat, ordsAt: nat, nd: nat)
    requires countsAt <= |buf| && ordsAt <= |buf|
    ensures RingsFrom(rings, size, 0, buf, countsAt, ordsAt, nd) == Read(rings, size)
  {
    assert rings + [] == rings;
  }

  method ReadRing(buf: seq<byte>, dataPtr: nat, ordinatePtr: nat, nd: nat) returns (r: Result<PtArray>)
    requires dataPtr + 4 <= |buf| && ordinatePtr <= |buf|
    ensures r == ParseRing(buf[dataPtr..], buf[ordinatePtr..], nd)
  {
    var npoints := GetAt(buf, dataPtr);
    var len := Len(npoints, nd);
    if |buf| < ordinatePtr + len {
      return Truncated;
    }
    Further(buf, ordinatePtr, len);
    r := Read(PtArray(npoints, buf[ordinatePtr..ordinatePtr + len]), len);
  }

  /** The next ring, and what is still to be read behind it. */
  method NextRing(buf: seq<byte>, dataPtr: nat, ordinatePtr: nat, nd: nat, ghost rings: seq<PtArray>, ghost size: nat,
                  ghost left: nat, ghost all: Result<seq<PtArray>>)
    returns (ring: Result<PtArray>)
    requires left > 0 && dataPtr + 4 * left <= |buf| && ordinatePtr <= |buf|
    requires all == RingsFrom(rings, size, left, buf, dataPtr, ordinatePtr, nd)
    ensures ring.Read? ==> ordinatePtr + ring.size <= |buf|
    ensures all == if ring.Read? then
                     RingsFrom(rings + [ring.value], size + ring.size, left - 1, buf, dataPtr + 4,
                               ordinatePtr + ring.size, nd)
                   else ring.PropagateFailure()
  {
    ring := ReadRing(buf, dataPtr, ordinatePtr, nd);
    RingAhead(rings, size, left, buf, dataPtr, ordinatePtr, nd, ring);
  }

  /** The loop of `lwpoly_from_gserialized2_buffer`: one cursor over the counts, one over the ordinates. */
  method ReadRings(buf: seq<byte>, n: nat, countsAt: nat, ordsAt: nat, nd: nat) returns (r: Result<seq<PtArray>>)
    requires countsAt + 4 * n <= ordsAt <= |buf|
    ensures r == ParseRings(n, buf[countsAt..], buf[ordsAt..], nd)
  {
    var dataPtr, ordinatePtr := countsAt, ordsAt;
    var rings: seq<PtArray> := [];
    ghost var size: nat, left: nat := 0, n;
    ghost var all := RingsFrom(rings, size, left, buf, countsAt, ordsAt, nd);
    BehindNothing(ParseRings(n, buf[countsAt..], buf[ordsAt..], nd));
    for i := 0 to n
      invariant left == n - i && dataPtr == countsAt + 4 * i && ordinatePtr == ordsAt + size <= |buf|
      invariant all == RingsFrom(rings, size, left, buf, dataPtr, ordinatePtr, nd)
    {
      var ring := NextRing(buf, dataPtr, ordinatePtr, nd, rings, size, left, all);
      if !ring.Read? {
        return ring.PropagateFailure();
      }
      rings := rings + [ring.value];
      dataPtr, ordinatePtr := dataPtr + 4, ordinatePtr + ring.size;
      size, left := size + ring.size, left - 1;
    }
    NoRingLeft(rings, size, buf, dataPtr, ordinatePtr, nd);
    r := Read(rings, ordinatePtr - ordsAt);
  }

  /** `lwgeom_from_gserialized2_buffer` at a position of the buffer. */
  method ReadAny(buf: seq<byte>, at: nat, nd: nat) returns (r: Result<Geom>)
    requires at <= |buf|
    ensures r == Parse(buf[at..], nd)
    decreases |buf| - at, 0
  {
    if |buf| < at + 8 {
      return Truncated;
    }
    var kind := GetAt(buf, at);
    var n := GetAt(buf, at + 4);
    Further(buf, at, 4);
    Further(buf, at, 8);
    if IsCollection(kind) {
      var parts := ReadAll(kind, n, buf, at + 8, nd);
      r := match parts
        case Read(geoms, size) => Read(Coll(kind, geoms), 8 + size)
        case BadType => BadType
        case BadSubtype => BadSubtype
        case Truncated => Truncated;
    } else {
      r := ReadPartless(kind, n, buf, at, nd);
    }
  }

  method ReadPartless(kind: u32, n: u32, buf: seq<byte>, at: nat, nd: nat) returns (r: Result<Geom>)
    requires at + 8 <= |buf|
    ensures r == ParsePartless(kind, n, buf[at..], nd)
  {
    var len := Len(n, nd);
    if IsSimple(kind) {
      if |buf| < at + 8 + len {
        return Truncated;
      }
      if kind == BEZIERTYPE && n == 0 {
        r := Read(Unset(kind, []), 8);
      } else if kind == POINTTYPE && n > 1 {
        Within(buf, at, 8, 8 + 8 * nd);
        r := Read(Simple(kind, PtArray(1, buf[at + 8..at + 8 + 8 * nd])), 8 + len);
      } else {
        Within(buf, at, 8, 8 + len);
        r := Read(Simple(kind, PtArray(n, buf[at + 8..at + 8 + len])), 8 + len);
      }
    } else if kind == POLYGONTYPE {
      r := ReadPoly(n, buf, at, nd);
    } else if kind == ELLIPSETYPE {
      if |buf| < at + 8 + len + ELLIPSE_TAIL {
        return Truncated;
      }
      var tail := at + 8 + len;
      Within(buf, at, 8 + len, 8 + len + ELLIPSE_TAIL);
      if n == 0 {
        r := Read(Unset(ELLIPSETYPE, buf[tail..tail + ELLIPSE_TAIL]), 8 + ELLIPSE_TAIL);
      } else {
        Within(buf, at, 8, 8 + len);
        r := Read(Ellipse(PtArray(n, buf[at + 8..tail]), buf[tail..tail + ELLIPSE_TAIL]), 8 + len + ELLIPSE_TAIL);
      }
    } else {
      r := BadType;
    }
  }

  lemma PolyFrom(n: u32, b: seq<byte>, nd: nat, rings: Result<seq<PtArray>>)
    requires |b| >= RingStart(n) && rings == ParseRings(n, b[8..], b[RingStart(n)..], nd)
    ensures ParsePoly(n, b, nd) ==
            if rings.Read? then Read(Poly(rings.value), RingStart(n) + rings.size) else rings.PropagateFailure()
  {
  }

  method ReadPoly(n: u32, buf: seq<byte>, at: nat, nd: nat) returns (r: Result<Geom>)
    requires at + 8 <= |buf|
    ensures r == ParsePoly(n, buf[at..], nd)
  {
    var ordinatePtr := at + 8;
    if n > 0 {
      ordinatePtr := ordinatePtr + n * 4;
      if n % 2 == 1 {
        ordinatePtr := ordinatePtr + 4;
      }
    }
    assert ordinatePtr == at + RingStart(n);
    if |buf| < ordinatePtr {
      return Truncated;
    }
    Further(buf, at, 8);
    Further(buf, at, RingStart(n));
    var rings := ReadRings(buf, n, at + 8, ordinatePtr, nd);
    PolyFrom(n, buf[at..], nd, rings);
    r := if rings.Read? then Read(Poly(rings.value), ordinatePtr - at + rings.size) else rings.PropagateFailure();
  }

  /** What the loop over the parts is to return, when some are read and n are left. */
  ghost function PartsFrom(geoms: seq<Geom>, size: nat, kind: u32, n: nat, buf: seq<byte>, at: nat, nd: nat)
    : Result<seq<Geom>>
    requires at <= |buf|
  {
    Behind(geoms, size, ParseAll(kind, n, buf[at..], nd))
  }

  /** One part after those already read. */
  lemma PartAhead(geoms: seq<Geom>, size: nat, kind: u32, n: nat, buf: seq<byte>, at: nat, nd: nat, sub: Result<Geom>)
    requires n > 0 && at <= |buf| && sub == ParsePart(kind, buf[at..], nd)
    ensures sub.Read? ==> at + sub.size <= |buf|
    ensures PartsFrom(geoms, size, kind, n, buf, at, nd) ==
            if sub.Read? then PartsFrom(geoms + [sub.value], size + sub.size, kind, n - 1, buf, at + sub.size, nd)
            else sub.PropagateFailure()
  {
    FirstPart(kind, n, buf[at..], nd, sub);
    if sub.Read? {
      Further(buf, at, sub.size);
      BehindOneOf(geoms, size, sub, ParseAll(kind, n, buf[at..], nd), ParseAll(kind, n - 1, buf[at + sub.size..], nd));
    }
  }

  lemma NoPartLeft(geoms: seq<Geom>, size: nat, kind: u32, buf: seq<byte>, at: nat, nd: nat)
    requires at <= |buf|
    ensures PartsFrom(geoms, size, kind, 0, buf, at, nd) == Read(geoms, size)
  {
    assert geoms + [] == geoms;
  }

  method ReadPart(kind: u32, buf: seq<byte>, at: nat, nd: nat) returns (r: Result<Geom>)
    requires at <= |buf|
    ensures r == ParsePart(kind, buf[at..], nd)
    decreases |buf| - at, 1
  {
    if |buf| < at + 4 {
      return Truncated;
    }
    var subtype := GetAt(buf, at);
    if !AllowsSubtype(kind, subtype) {
      return BadSubtype;
    }
    r := ReadAny(buf, at, nd);
  }

  /** The loop of `lwcollection_from_gserialized2_buffer`. */
  method ReadAll(kind: u32, n: nat, buf: seq<byte>, start: nat, nd: nat) returns (r: Result<seq<Geom>>)
    requires start <= |buf|
    ensures r == ParseAll(kind, n, buf[start..], nd)
    decreases |buf| - start, 2
  {
    var dataPtr := start;
    var geoms: seq<Geom> := [];
    ghost var size: nat, left: nat := 0, n;
    ghost var all := PartsFrom(geoms, size, kind, left, buf, start, nd);
    BehindNothing(ParseAll(kind, n, buf[start..], nd));
    for i := 0 to n
      invariant left == n - i && dataPtr == start + size <= |buf|
      invariant all == PartsFrom(geoms, size, kind, left, buf, dataPtr, nd)
    {
      var sub := ReadPart(kind, buf, dataPtr, nd);
      PartAhead(geoms, size, kind, left, buf, dataPtr, nd, sub);
      if !sub.Read? {
        return sub.PropagateFailure();
      }
      geoms := geoms + [sub.value];
      dataPtr := dataPtr + sub.size;
      size, left := size + sub.size, left - 1;
    }
    NoPartLeft(geoms, size, kind, buf, dataPtr, nd);
    r := Read(geoms, dataPtr - start);
  }

  // ---------- the two together ----------

  /** The assertion at the end of `gserialized2_from_lwgeom` holds for the body of every geometry, and reading
      the buffer gives the geometry back, exactly if it can be read again. */
  method WriteThenRead(g: Geom, nd: nat) returns (buf: array<byte>, r: Result<Geom>, expected: nat, written: nat)
    requires Writable(g, nd)
    ensures fresh(buf) && expected == written == buf.Length
    ensures buf[..] == Bytes(g, nd) && r == if Allowed(g) then Read(AsRead(g), written) else BadSubtype
    ensures r == Read(g, written) <==> Readable(g)
  {
    SizeIsExact(g, nd);
    expected := SizeAny(g, nd);
    buf := new byte[expected](_ => 0);
    written := WriteAny(g, nd, buf, 0);
    ReadsWhole(g, nd, buf[..]);
    AsReadIsSame(g);
    assert buf[..][0..] == buf[..];
    r := ReadAny(buf[..], 0, nd);
  }
}
