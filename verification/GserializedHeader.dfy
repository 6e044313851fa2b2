/** A whole serialized geometry, liblwgeom/gserialized2.c: size, SRID, flags, extended flags and box in front of the
    body. The bounds of a box are the bytes of its floats. */
module GserializedHeader {
  import opened Basics
  import opened GeomTypes
  import opened Gserialized
  import opened GserializedBuffer

  /** lwflags_t. */
  datatype Flags = Flags(z: bool, m: bool, bbox: bool, geodetic: bool, readonly: bool, solid: bool)

  datatype Box = Box(flags: Flags, xy: seq<byte>, zz: seq<byte>, mm: seq<byte>)

  datatype Whole = Whole(flags: Flags, srid: int, bbox: Option<Box>, body: Geom)

  const SRID_MAXIMUM := 999999

  function Ndims(f: Flags): nat {
    2 + Bit(f.z) + Bit(f.m)
  }

  /** `lwflags_uses_extended_flags`. */
  predicate Extended(f: Flags) {
    f.readonly || f.solid
  }

  /** `gbox_serialized_size`. */
  function BoxSize(f: Flags): nat {
    if f.geodetic then 24 else 2 * Ndims(f) * 4
  }

  /** What `gserialized2_from_gbox` writes goes by the flags of the box, not those of the geometry. */
  function BoxBytes(b: Box): seq<byte> {
    if b.flags.geodetic then b.xy + b.zz
    else b.xy + (if b.flags.z then b.zz else []) + (if b.flags.m then b.mm else [])
  }

  /** Consistent flags, four bytes to a float. */
  predicate WholeOk(g: Whole) {
    && Writable(g.body, Ndims(g.flags)) && g.flags.bbox == g.bbox.Some?
    && (g.bbox.Some? ==> |g.bbox.value.xy| == 16 && |g.bbox.value.zz| == 8 && |g.bbox.value.mm| == 8)
  }

  /** `clamp_srid`, for the configured maximum of the user range. What is in range stays, what is negative is unknown,
      and what is too large is put among the numbers after the user range. */
  function Clamp(srid: int, userMaximum: nat): (r: nat)
    requires userMaximum + 1 < SRID_MAXIMUM
    ensures 0 <= srid <= SRID_MAXIMUM ==> r == srid
    ensures srid < 0 ==> r == 0
    ensures srid > SRID_MAXIMUM ==> userMaximum < r < SRID_MAXIMUM
  {
    if srid <= 0 then 0
    else if srid > SRID_MAXIMUM then userMaximum + 1 + srid % (SRID_MAXIMUM - userMaximum - 1)
    else srid
  }

  /** Two numbers that are too large are put in one place exactly if they differ by a multiple of what there is room
      for. */
  lemma LargeClash(a: int, b: int, userMaximum: nat)
    requires userMaximum + 1 < SRID_MAXIMUM < a && SRID_MAXIMUM < b
    ensures Clamp(a, userMaximum) == Clamp(b, userMaximum) <==> (a - b) % (SRID_MAXIMUM - userMaximum - 1) == 0
  {
    SameRemainder(a, b, SRID_MAXIMUM - userMaximum - 1);
  }

  lemma SameRemainder(a: int, b: int, n: nat)
    requires n > 0
    ensures a % n == b % n <==> (a - b) % n == 0
  {
    var p, q := a / n, b / n;
    var x, y := a % n, b % n;
    assert a == n * p + x && b == n * q + y;
    assert n * (p - q) == n * p - n * q && n * (p - q - 1) == n * p - n * q - n;
    if x >= y {
      DivUnique(a - b, n, p - q, x - y);
    } else {
      DivUnique(a - b, n, p - q - 1, x - y + n);
    }
  }

  function SridBytes(srid: nat): seq<byte> {
    [srid / 0x10000 % 0x20, srid / 0x100 % 0x100, srid % 0x100]
  }

  /** `gserialized2_get_srid`: 21 bits, the highest of which is the sign. */
  function GetSrid(s: seq<byte>): int
    requires |s| == 3
  {
    var b0: int, b1: int, b2: int := s[0], s[1], s[2];
    var n := b0 % 0x20 * 0x10000 + b1 * 0x100 + b2;
    if n >= 0x10_0000 then n - 0x20_0000 else n
  }

  lemma SridRoundTrip(srid: nat)
    requires srid <= SRID_MAXIMUM
    ensures GetSrid(SridBytes(srid)) == srid
  {
    BytesOfNumber(srid);
  }

  lemma BytesOfNumber(n: nat)
    requires n < 0x20_0000
    ensures n == n / 0x10000 % 0x20 * 0x10000 + n / 0x100 % 0x100 * 0x100 + n % 0x100
  {
    var high := n / 0x100;
    assert n == high * 0x100 + n % 0x100 && n / 0x10000 == high / 0x100;
    assert high == high / 0x100 * 0x100 + high % 0x100;
  }

  /** Any number of 21 bits is read back, the negative ones too. */
  lemma SignedRoundTrip(srid: int)
    requires -0x10_0000 <= srid < 0x10_0000
    ensures GetSrid(SridBytes(srid % 0x20_0000)) == srid
  {
    BytesOfNumber(srid % 0x20_0000);
    assert srid % 0x20_0000 == if srid < 0 then srid + 0x20_0000 else srid;
  }

  /** `lwflags_get_g2flags`. */
  function G2Flags(f: Flags): byte {
    Bit(f.z) + 2 * Bit(f.m) + 4 * Bit(f.bbox) + 8 * Bit(f.geodetic) + 16 * Bit(Extended(f)) + 64
  }

  /** `gserialized2_get_lwflags`: of the extended flags only the solid one comes back. */
  function GetFlags(g: byte, x: byte): Flags {
    var z, m, bbox, geodetic := g % 2 == 1, g / 2 % 2 == 1, g / 4 % 2 == 1, g / 8 % 2 == 1;
    Flags(z, m, bbox, geodetic, false, g / 16 % 2 == 1 && x % 2 == 1)
  }

  lemma FlagsRoundTrip(f: Flags, x: byte)
    requires Extended(f) ==> x % 2 == Bit(f.solid)
    ensures GetFlags(G2Flags(f), x) == f.(readonly := false)
    ensures G2Flags(f) / 16 % 2 == Bit(f.readonly || f.solid)
    ensures G2Flags(f) / 64 == 1
  {
    SumOfBits(Bit(f.z), Bit(f.m), Bit(f.bbox), Bit(f.geodetic), Bit(Extended(f)));
  }

  lemma SumOfBits(a: nat, b: nat, c: nat, d: nat, e: nat)
    requires a <= 1 && b <= 1 && c <= 1 && d <= 1 && e <= 1
    ensures var g := a + 2 * b + 4 * c + 8 * d + 16 * e + 64;
            g % 2 == a && g / 2 % 2 == b && g / 4 % 2 == c && g / 8 % 2 == d && g / 16 % 2 == e
  {
    var g := a + 2 * b + 4 * c + 8 * d + 16 * e + 64;
    assert g / 2 == b + 2 * c + 4 * d + 8 * e + 32;
    assert g / 4 == c + 2 * d + 4 * e + 16;
    assert g / 8 == d + 2 * e + 8;
    assert g / 16 == e + 4;
  }

  function XFlags(f: Flags): seq<byte> {
    if Extended(f) then [Bit(f.solid), 0, 0, 0, 0, 0, 0, 0] else []
  }

  /** As a number of eight bytes they have the lowest bit set for solid. */
  lemma XFlagsAsNumber(f: Flags)
    ensures XFlags(f) == if f.readonly || f.solid then U32(Bit(f.solid)) + U32(0) else []
  {
  }

  /** The part with the box in it. */
  function Prefix(g: Whole): seq<byte> {
    XFlags(g.flags) + if g.bbox.Some? then BoxBytes(g.bbox.value) else []
  }

  /** `gserialized2_from_lwgeom_size`. */
  function PredictedSize(g: Whole): nat {
    8 + (if Extended(g.flags) then 8 else 0) + (if g.bbox.Some? then BoxSize(g.flags) else 0)
    + Size(g.body, Ndims(g.flags))
  }

  /** The bounds a box has beside x and y. */
  function MoreBounds(f: Flags): nat {
    if f.geodetic then 1 else Bit(f.z) + Bit(f.m)
  }

  /** The assertion at the end of `gserialized2_from_lwgeom` holds exactly if the box, where there is one, has as many
      bounds as the geometry is to have. */
  lemma AssertionHolds(g: Whole)
    requires WholeOk(g)
    ensures PredictedSize(g) == 8 + |Prefix(g)| + |Bytes(g.body, Ndims(g.flags))| <==>
            (g.bbox.Some? ==> MoreBounds(g.bbox.value.flags) == MoreBounds(g.flags))
  {
    SizeIsExact(g.body, Ndims(g.flags));
  }

  /** A box with z left on a plane geometry takes eight bytes more than were reserved. */
  lemma ForeignBoxOverruns()
    ensures var flags := Flags(false, false, true, false, false, false);
            var box := Box(flags.(z := true), seq(16, i => 0), seq(8, i => 0), seq(8, i => 0));
            var g := Whole(flags, 0, Some(box), Simple(POINTTYPE, PtArray(0, [])));
            WholeOk(g) && 8 + |Prefix(g)| + |Bytes(g.body, Ndims(g.flags))| == PredictedSize(g) + 8
  {
    var flags := Flags(false, false, true, false, false, false);
    var box := Box(flags.(z := true), seq(16, i => 0), seq(8, i => 0), seq(8, i => 0));
    var g := Whole(flags, 0, Some(box), Simple(POINTTYPE, PtArray(0, [])));
    SizeIsExact(g.body, Ndims(g.flags));
  }

  /** The body, and with it every block of ordinates, starts at a multiple of eight bytes: behind size, SRID and
      flags, extended flags if the read-only or the solid flag is set, and the pairs of bounds of the box. */
  lemma BodyIsAligned(g: Whole)
    requires WholeOk(g)
    ensures (8 + |Prefix(g)|) % 8 == 0
    ensures |Prefix(g)| ==
            (if g.flags.readonly || g.flags.solid then 8 else 0) +
            (if g.bbox.Some? then 16 + 8 * MoreBounds(g.bbox.value.flags) else 0)
  {
  }

  /** Size, SRID and flags. */
  function Head(g: Whole, size: u32, srid: nat): (s: seq<byte>)
    ensures |s| == 8
  {
    U32(size) + SridBytes(srid) + [G2Flags(g.flags)]
  }

  /** The bytes of the whole. */
  function WholeBytes(g: Whole, size: u32, srid: nat): seq<byte>
    requires WholeOk(g)
  {
    Head(g, size, srid) + Prefix(g) + Bytes(g.body, Ndims(g.flags))
  }

  /** Where the body is. */
  function BodyAt(g: byte, flags: Flags): nat {
    8 + (if g / 16 % 2 == 1 then 8 else 0) + if flags.bbox then BoxSize(flags) else 0
  }

  lemma BodyFound(g: Whole)
    requires WholeOk(g) && (g.bbox.Some? ==> MoreBounds(g.bbox.value.flags) == MoreBounds(g.flags))
    ensures BodyAt(G2Flags(g.flags), g.flags.(readonly := false)) == 8 + |Prefix(g)|
  {
    FlagsRoundTrip(g.flags, Bit(g.flags.solid));
  }

  /** `lwgeom_from_gserialized2`: flags, SRID and body. */
  function ReadWhole(s: seq<byte>): (r: Option<(Flags, int, Geom)>) {
    if |s| < 16 then None
    else
      var flags := GetFlags(s[7], s[8]);
      var at := BodyAt(s[7], flags);
      if |s| < at then None
      else
        var body := Parse(s[at..], Ndims(flags));
        if body.Read? then Some((flags, GetSrid(s[4..7]), body.value)) else None
  }

  /** The bounds `gserialized2_read_gbox_p` finds. It goes by the flags in front, and leaves the others unset. */
  datatype Bounds = Bounds(xy: seq<byte>, zz: seq<byte>, mm: seq<byte>)

  function ReadBox(s: seq<byte>): (r: Option<Bounds>) {
    if |s| < 16 then None
    else
      var flags := GetFlags(s[7], s[8]);
      var at := if s[7] / 16 % 2 == 1 then 16 else 8;
      if !flags.bbox || |s| < at + BoxSize(flags) then None
      else if flags.geodetic then Some(Bounds(s[at..at + 16], s[at + 16..at + 24], []))
      else Some(BoundsAt(s, at, flags.z, flags.m))
  }

  function BoundsAt(s: seq<byte>, at: nat, z: bool, m: bool): Bounds
    requires at + 16 + 8 * Bit(z) + 8 * Bit(m) <= |s|
  {
    var next := at + 16 + 8 * Bit(z);
    Bounds(s[at..at + 16], if z then s[at + 16..at + 24] else [], if m then s[next..next + 8] else [])
  }

  /** The box has the bounds the flags of the geometry speak of. */
  predicate SameBounds(g: Whole) {
    g.bbox.Some? ==>
      && g.bbox.value.flags.geodetic == g.flags.geodetic
      && (g.flags.geodetic || (g.bbox.value.flags.z == g.flags.z && g.bbox.value.flags.m == g.flags.m))
  }

  /** It does if it takes its flags from the geometry, as `lwgeom_add_bbox` has it. */
  lemma OwnBoxAgrees(g: Whole)
    requires g.bbox.Some? ==> g.bbox.value.flags == g.flags
    ensures SameBounds(g) && (g.bbox.Some? ==> MoreBounds(g.bbox.value.flags) == MoreBounds(g.flags))
  {
  }

  /** The bounds there are to find. */
  function BoundsOf(g: Whole): Option<Bounds> {
    if g.bbox.None? then None
    else
      var b := g.bbox.value;
      Some(Bounds(b.xy, if g.flags.geodetic || g.flags.z then b.zz else [],
                  if !g.flags.geodetic && g.flags.m then b.mm else []))
  }

  /** Where the parts of the front are found. */
  lemma FrontApart(g: Whole, size: u32, srid: nat, body: seq<byte>, s: seq<byte>)
    requires s == Head(g, size, srid) + Prefix(g) + body && |body| > 0
    ensures |s| > 8 && s[4..7] == SridBytes(srid) && s[7] == G2Flags(g.flags)
    ensures Extended(g.flags) ==> s[8] == Bit(g.flags.solid)
    ensures s[8 + |Prefix(g)|..] == body
  {
    var head := Head(g, size, srid);
    Assoc(head, Prefix(g), body);
    Apart(head + Prefix(g), body);
    assert s[4..7] == head[4..7];
    assert s[7] == head[7];
    if Extended(g.flags) {
      assert s[8] == Prefix(g)[0] == XFlags(g.flags)[0];
    }
  }

  /** What is in front of the body comes back. */
  lemma FrontRoundTrip(g: Whole, size: u32, srid: nat, body: seq<byte>, s: seq<byte>)
    requires WholeOk(g) && srid <= SRID_MAXIMUM && body == Bytes(g.body, Ndims(g.flags))
    requires g.bbox.Some? ==> MoreBounds(g.bbox.value.flags) == MoreBounds(g.flags)
    requires s == Head(g, size, srid) + Prefix(g) + body
    ensures |s| >= 16 && GetFlags(s[7], s[8]) == g.flags.(readonly := false) && GetSrid(s[4..7]) == srid
    ensures BodyAt(s[7], g.flags.(readonly := false)) == 8 + |Prefix(g)| <= |s| && s[8 + |Prefix(g)|..] == body
  {
    SizeIsExact(g.body, Ndims(g.flags));
    FrontApart(g, size, srid, body, s);
    FlagsRoundTrip(g.flags, s[8]);
    BodyFound(g);
    SridRoundTrip(srid);
  }

  lemma ReadFrom(s: seq<byte>, flags: Flags, srid: int, at: nat, body: seq<byte>, g: Geom)
    requires |s| >= 16 && GetFlags(s[7], s[8]) == flags && GetSrid(s[4..7]) == srid
    requires at == BodyAt(s[7], flags) <= |s| && s[at..] == body
    ensures Parse(body, Ndims(flags)) == Read(g, |body|) ==> ReadWhole(s) == Some((flags, srid, g))
    ensures !Parse(body, Ndims(flags)).Read? ==> ReadWhole(s) == None
  {
  }

  /** Everything but the read-only flag comes back, and the body as the reader leaves it, with nothing behind it. */
  lemma WholeRoundTrip(g: Whole, size: u32, srid: nat)
    requires WholeOk(g) && srid <= SRID_MAXIMUM
    requires g.bbox.Some? ==> MoreBounds(g.bbox.value.flags) == MoreBounds(g.flags)
    ensures ReadWhole(WholeBytes(g, size, srid)) ==
            if Allowed(g.body) then Some((g.flags.(readonly := false), srid as int, AsRead(g.body))) else None
  {
    var s, body := WholeBytes(g, size, srid), Bytes(g.body, Ndims(g.flags));
    var flags, at := g.flags.(readonly := false), 8 + |Prefix(g)|;
    FrontRoundTrip(g, size, srid, body, s);
    ReadsWhole(g.body, Ndims(g.flags), body);
    ReadFrom(s, flags, srid, at, body, AsRead(g.body));
  }

  lemma BoundsApart(s: seq<byte>, at: nat, xy: seq<byte>, zz: seq<byte>, mm: seq<byte>, rest: seq<byte>)
    requires at <= |s| && s[at..] == xy + zz + mm + rest
    ensures at + |xy| + |zz| + |mm| <= |s| && s[at..at + |xy|] == xy
    ensures s[at + |xy|..at + |xy| + |zz|] == zz
    ensures s[at + |xy| + |zz|..at + |xy| + |zz| + |mm|] == mm
  {
    Assoc(xy + zz, mm, rest);
    Assoc(xy, zz, mm + rest);
    ApartIn(s, at, xy, zz + (mm + rest));
    ApartIn(s, at + |xy|, zz, mm + rest);
    ApartIn(s, at + |xy| + |zz|, mm, rest);
  }

  lemma BoxFront(g: Whole, size: u32, srid: nat, body: seq<byte>, s: seq<byte>)
    requires g.bbox.Some? && s == Head(g, size, srid) + Prefix(g) + body
    ensures 8 + |XFlags(g.flags)| <= |s| && s[8 + |XFlags(g.flags)|..] == BoxBytes(g.bbox.value) + body
  {
    var head, x, box := Head(g, size, srid), XFlags(g.flags), BoxBytes(g.bbox.value);
    Assoc(head, x, box);
    Assoc(head + x, box, body);
    Apart(head + x, box + body);
  }

  /** The box comes back, the bounds in their places. */
  lemma BoxRoundTrip(g: Whole, size: u32, srid: nat)
    requires WholeOk(g) && srid <= SRID_MAXIMUM && SameBounds(g)
    ensures ReadBox(WholeBytes(g, size, srid)) == BoundsOf(g)
  {
    var s, body := WholeBytes(g, size, srid), Bytes(g.body, Ndims(g.flags));
    FrontRoundTrip(g, size, srid, body, s);
    FrontApart(g, size, srid, body, s);
    FlagsRoundTrip(g.flags, s[8]);
    if g.bbox.Some? {
      BoxFront(g, size, srid, body, s);
      BoxFound(g, s, body);
    }
  }

  lemma BoxFound(g: Whole, s: seq<byte>, rest: seq<byte>)
    requires WholeOk(g) && g.bbox.Some? && SameBounds(g)
    requires |s| >= 16 && GetFlags(s[7], s[8]) == g.flags.(readonly := false)
    requires s[7] / 16 % 2 == Bit(Extended(g.flags))
    requires 8 + |XFlags(g.flags)| <= |s| && s[8 + |XFlags(g.flags)|..] == BoxBytes(g.bbox.value) + rest
    ensures ReadBox(s) == BoundsOf(g)
  {
    var b := g.bbox.value;
    var zz := if g.flags.geodetic || g.flags.z then b.zz else [];
    var mm := if !g.flags.geodetic && g.flags.m then b.mm else [];
    assert BoxBytes(b) == b.xy + zz + mm;
    BoundsApart(s, 8 + |XFlags(g.flags)|, b.xy, zz, mm, rest);
  }

  /** The first word holds four times the size. */
  lemma SizeFound(g: Whole, size: u32, srid: nat)
    requires WholeOk(g)
    ensures |WholeBytes(g, size, srid)| >= 8 && GetU32(WholeBytes(g, size, srid)) == size
    ensures WholeBytes(g, size, srid)[4..7] == SridBytes(srid)
  {
    var rest := Prefix(g) + Bytes(g.body, Ndims(g.flags));
    var head, tail := Head(g, size, srid), SridBytes(srid) + [G2Flags(g.flags)];
    Assoc(U32(size), SridBytes(srid), [G2Flags(g.flags)]);
    Assoc(head, Prefix(g), Bytes(g.body, Ndims(g.flags)));
    Assoc(U32(size), tail, rest);
    U32RoundTrip(size, tail + rest);
    assert WholeBytes(g, size, srid)[4..7] == head[4..7];
  }

  /** Size, SRID, flags, extended flags and box. */
  method WriteFront(g: Whole, size: u32, srid: nat, buf: array<byte>) returns (loc: nat)
    requires 8 + |Prefix(g)| <= buf.Length
    modifies buf
    ensures loc == 8 + |Prefix(g)|
    ensures buf[..] == Splice(old(buf[..]), 0, Head(g, size, srid) + Prefix(g))
  {
    ghost var before := buf[..];
    loc := Copy(buf, 0, Head(g, size, srid));
    SpliceTwice(before, 0, Head(g, size, srid), XFlags(g.flags));
    loc := Copy(buf, loc, XFlags(g.flags));
    if g.bbox.Some? {
      SpliceTwice(before, 0, Head(g, size, srid) + XFlags(g.flags), BoxBytes(g.bbox.value));
      Assoc(Head(g, size, srid), XFlags(g.flags), BoxBytes(g.bbox.value));
      loc := Copy(buf, loc, BoxBytes(g.bbox.value));
    } else {
      assert XFlags(g.flags) + [] == XFlags(g.flags);
    }
  }

  /** `gserialized2_from_lwgeom_size`. */
  method SizeWhole(g: Whole) returns (size: nat)
    ensures size == PredictedSize(g)
  {
    size := 8;
    if Extended(g.flags) {
      size := size + 8;
    }
    if g.bbox.Some? {
      size := size + BoxSize(g.flags);
    }
    var body := SizeAny(g.body, Ndims(g.flags));
    size := size + body;
  }

  /** Every point array of the body lies at a multiple of eight. */
  lemma WholeIsAligned(g: Whole, size: u32, srid: nat)
    requires WholeOk(g)
    ensures AllAligned(WholeBytes(g, size, srid), Blocks(g.body, Ndims(g.flags), 8 + |Prefix(g)|))
  {
    var s, body, at := WholeBytes(g, size, srid), Bytes(g.body, Ndims(g.flags)), 8 + |Prefix(g)|;
    BodyIsAligned(g);
    Apart(Head(g, size, srid) + Prefix(g), body);
    assert s[at..at + |body|] == s[at..];
    OrdinatesAligned(g.body, Ndims(g.flags), s, at);
  }

  /** What is found in the bytes of a whole, its point arrays at multiples of eight. */
  ghost predicate Tells(s: seq<byte>, g: Whole, userMaximum: nat) {
    && |s| >= 16 && GetU32(s) == 4 * |s|
    && (var srid := GetSrid(s[4..7]);
        && (0 <= g.srid <= SRID_MAXIMUM ==> srid == g.srid) && (g.srid < 0 ==> srid == 0)
        && (g.srid > SRID_MAXIMUM ==> userMaximum < srid < SRID_MAXIMUM)
        && (ReadWhole(s) == Some((g.flags.(readonly := false), srid, g.body)) <==> Readable(g.body)))
    && (SameBounds(g) ==> ReadBox(s) == BoundsOf(g))
    && AllAligned(s, Blocks(g.body, Ndims(g.flags), 8 + |Prefix(g)|))
  }

  lemma WholeTells(g: Whole, userMaximum: nat, s: seq<byte>)
    requires WholeOk(g) && userMaximum + 1 < SRID_MAXIMUM && PredictedSize(g) * 4 < LIMIT
    requires g.bbox.Some? ==> MoreBounds(g.bbox.value.flags) == MoreBounds(g.flags)
    requires |s| == PredictedSize(g) && s == WholeBytes(g, |s| * 4, Clamp(g.srid, userMaximum))
    ensures Tells(s, g, userMaximum)
  {
    var srid := Clamp(g.srid, userMaximum);
    SizeFound(g, |s| * 4, srid);
    SridRoundTrip(srid);
    WholeRoundTrip(g, |s| * 4, srid);
    AsReadIsSame(g.body);
    WholeIsAligned(g, |s| * 4, srid);
    if SameBounds(g) {
      BoxRoundTrip(g, |s| * 4, srid);
    }
  }

  /** `gserialized2_from_lwgeom`: the buffer is filled exactly, and tells everything about the geometry. */
  method FromLwgeom(g: Whole, userMaximum: nat) returns (buf: array<byte>, size: nat)
    requires WholeOk(g) && userMaximum + 1 < SRID_MAXIMUM && PredictedSize(g) * 4 < LIMIT
    requires g.bbox.Some? ==> MoreBounds(g.bbox.value.flags) == MoreBounds(g.flags)
    ensures fresh(buf) && size == buf.Length == PredictedSize(g)
    ensures buf[..] == WholeBytes(g, size * 4, Clamp(g.srid, userMaximum))
    ensures Tells(buf[..], g, userMaximum)
  {
    AssertionHolds(g);
    var nd, srid := Ndims(g.flags), Clamp(g.srid, userMaximum);
    var expected := SizeWhole(g);
    buf := new byte[expected](_ => 0);
    ghost var zero := buf[..];
    var loc := WriteFront(g, expected * 4, srid, buf);
    ghost var front := Head(g, expected * 4, srid) + Prefix(g);
    SpliceTwice(zero, 0, front, Bytes(g.body, nd));
    var written := WriteAny(g.body, nd, buf, loc);
    size := loc + written;
    SpliceAll(zero, front + Bytes(g.body, nd));
    WholeTells(g, userMaximum, buf[..]);
  }

  lemma SpliceAll(b: seq<byte>, s: seq<byte>)
    requires |s| == |b|
    ensures Splice(b, 0, s) == s
  {
  }
}
