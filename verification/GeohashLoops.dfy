/** The loops of liblwgeom/lwalgorithm.c that write a geohash, read one, and find how long one may be. */
module GeohashLoops {
  import opened Basics
  import opened Geohash

  lemma ValueOfMore(bits: seq<bool>, upper: bool)
    requires |bits| < 5
    ensures Value(bits + [upper]) == Value(bits) + if upper then Weight(|bits|) else 0
  {
    assert (bits + [upper])[..|bits|] == bits;
  }

  /** The bits of character i, as far as k bits are known. */
  function Pending(p: Point, i: nat, k: nat): nat
    decreases k
  {
    if k <= 5 * i then 0 else Pending(p, i, k - 1) + if Goes(p, k - 1) then Weight(k - 1 - 5 * i) else 0
  }

  lemma {:induction false} PendingIsValue(p: Point, i: nat, k: nat)
    requires 5 * i <= k <= 5 * i + 5
    ensures Pending(p, i, k) == Value(BitsOf(p, k)[5 * i..])
    decreases k
  {
    if 5 * i < k {
      PendingIsValue(p, i, k - 1);
      ValueOfMore(BitsOf(p, k - 1)[5 * i..], Goes(p, k - 1));
      assert BitsOf(p, k)[5 * i..] == BitsOf(p, k - 1)[5 * i..] + [Goes(p, k - 1)];
    }
  }

  lemma OneMoreCharacter(p: Point, i: nat)
    ensures var v := Pending(p, i, 5 * i + 5); v < 32 && Hash(p, i + 1) == Hash(p, i) + [Char(v)]
  {
    var bits := BitsOf(p, 5 * i + 5);
    PendingIsValue(p, i, 5 * i + 5);
    FewerBits(p, 5 * i, 5 * i + 5);
    assert bits == BitsOf(p, 5 * i) + bits[5 * i..];
    WordOfMore(BitsOf(p, 5 * i), i, bits[5 * i..]);
  }

  /** `geohash_point`. */
  method GeohashPoint(p: Point, precision: nat) returns (geohash: array<char>)
    ensures fresh(geohash) && geohash[..] == Hash(p, precision)
  {
    var isEven, i := true, 0;
    var bit, ch := 0, 0;
    geohash := new char[precision];
    var box := WORLD;
    ghost var k := 0;
    while i < precision
      invariant 0 <= i <= precision && k == 5 * i + bit && 0 <= bit < 5 && (i == precision ==> bit == 0)
      invariant isEven == OfLongitude(k) && box == CellAt(p, k) && ch == Pending(p, i, k)
      invariant geohash[..i] == Hash(p, i)
      decreases 5 * precision - k
    {
      if isEven {
        var mid := (box.lon0 + box.lon1) / 2.0;
        if p.lon >= mid {
          ch := ch + Weight(bit);
          box := box.(lon0 := mid);
        } else {
          box := box.(lon1 := mid);
        }
      } else {
        var mid := (box.lat0 + box.lat1) / 2.0;
        if p.lat >= mid {
          ch := ch + Weight(bit);
          box := box.(lat0 := mid);
        } else {
          box := box.(lat1 := mid);
        }
      }
      isEven := !isEven;
      k := k + 1;
      if bit < 4 {
        bit := bit + 1;
      } else {
        OneMoreCharacter(p, i);
        geohash[i] := Char(ch);
        i := i + 1;
        bit := 0;
        ch := 0;
      }
    }
  }

  lemma Extend(bits: seq<bool>, upper: bool)
    ensures CellOf(bits + [upper]) == Half(CellOf(bits), |bits|, upper)
  {
    assert (bits + [upper])[..|bits|] == bits;
  }

  /** The half of a cell that a bit stands for. */
  method HalfCell(upper: bool, ghost bits: seq<bool>, isEven: bool, box: Box) returns (cell: Box)
    requires isEven == OfLongitude(|bits|) && box == CellOf(bits)
    ensures cell == CellOf(bits + [upper])
  {
    Extend(bits, upper);
    if isEven {
      var mid := (box.lon0 + box.lon1) / 2.0;
      cell := if upper then box.(lon0 := mid) else box.(lon1 := mid);
    } else {
      var mid := (box.lat0 + box.lat1) / 2.0;
      cell := if upper then box.(lat0 := mid) else box.(lat1 := mid);
    }
  }

  lemma NextDigit(cd: nat, j: nat)
    requires j < 5
    ensures Digits(cd)[..j + 1] == Digits(cd)[..j] + [Set(cd, j)]
  {
  }

  /** The loop over the bits of a character. */
  method DecodeDigit(cd: nat, ghost bits: seq<bool>, isEven: bool, box: Box) returns (cell: Box, even: bool)
    requires isEven == OfLongitude(|bits|) && box == CellOf(bits)
    ensures cell == CellOf(bits + Digits(cd)) && even == OfLongitude(|bits| + 5)
  {
    cell, even := box, isEven;
    ghost var done := bits;
    for j := 0 to 5
      invariant done == bits + Digits(cd)[..j] && even == OfLongitude(|done|) && cell == CellOf(done)
    {
      NextDigit(cd, j);
      var upper := Set(cd, j);
      cell := HalfCell(upper, done, even, cell);
      done, even := done + [upper], !even;
    }
    assert Digits(cd)[..5] == Digits(cd);
  }

  lemma DigitAhead(s: string, i: nat)
    requires i < |s| && Valid(s[..i]) && Digit(s[i]).Some?
    ensures Valid(s[..i + 1]) && Unword(s[..i + 1]) == Unword(s[..i]) + Digits(Digit(s[i]).value)
  {
    assert s[..i + 1][..i] == s[..i];
    assert forall k :: 0 <= k < i ==> s[..i + 1][k] == s[..i][k];
  }

  /** How many characters there are before the first that is no digit. */
  function Leading(s: string): (n: nat)
    ensures n <= |s| && Valid(s[..n]) && (n < |s| ==> Digit(s[n]).None?)
  {
    if s == "" || Digit(s[0]).None? then 0
    else
      var n := Leading(s[1..]);
      assert s[..n + 1] == [s[0]] + s[1..][..n];
      n + 1
  }

  lemma {:induction false} LeadingIs(s: string, n: nat)
    requires n <= |s| && Valid(s[..n]) && (n < |s| ==> Digit(s[n]).None?)
    ensures Leading(s) == n
  {
    if n > 0 {
      assert s[..n] == [s[0]] + s[1..n] && s[1..][..n - 1] == s[1..n];
      LeadingIs(s[1..], n - 1);
    }
  }

  /** The cell of the leading digits, and the first character that is none. */
  predicate Decoded(s: string, box: Box, invalid: Option<char>) {
    var n := Leading(s);
    box == CellOf(Unword(s[..n])) && invalid == if n < |s| then Some(s[n]) else None
  }

  lemma DecodedUpTo(s: string, n: nat)
    requires n <= |s| && Valid(s[..n]) && (n < |s| ==> Digit(s[n]).None?)
    ensures Decoded(s, CellOf(Unword(s[..n])), if n < |s| then Some(s[n]) else None)
  {
    LeadingIs(s, n);
  }

  lemma DecodedAll(s: string, box: Box, invalid: Option<char>)
    requires Valid(s) && Decoded(s, box, invalid)
    ensures box == CellOf(Unword(s)) && invalid == None
  {
    assert s[..|s|] == s;
    LeadingIs(s, |s|);
  }

  /** `decode_geohash_bbox`: the cell of the characters up to the first that is no digit, which is an error. A negative
      precision asks for all of them, and so does one that is too large. */
  method DecodeBbox(geohash: string, precision: int) returns (box: Box, invalid: Option<char>)
    ensures precision < 0 || precision >= |geohash| ==> Decoded(geohash, box, invalid)
    ensures 0 <= precision <= |geohash| ==> Decoded(geohash[..precision], box, invalid)
    ensures Valid(geohash) && (precision < 0 || precision >= |geohash|) ==>
              box == CellOf(Unword(geohash)) && invalid == None
    ensures Valid(geohash) && 0 <= precision <= |geohash| ==>
              box == CellOf(Unword(geohash[..precision])) && invalid == None
  {
    var n := precision;
    if precision < 0 || precision > |geohash| {
      n := |geohash|;
    }
    assert geohash[..|geohash|] == geohash;
    box, invalid := DecodeFirst(geohash, n);
    if Valid(geohash) {
      DecodedAll(geohash[..n], box, invalid);
    }
  }

  /** The loop over the first n characters. */
  method DecodeFirst(geohash: string, n: nat) returns (box: Box, invalid: Option<char>)
    requires n <= |geohash|
    ensures Decoded(geohash[..n], box, invalid)
  {
    var isEven := true;
    box, invalid := WORLD, None;
    ghost var s := geohash[..n];
    ghost var bits := [];
    for i := 0 to n
      invariant Valid(s[..i]) && bits == Unword(s[..i])
      invariant box == CellOf(bits) && isEven == OfLongitude(|bits|)
    {
      assert s[i] == geohash[i];
      var pos := Digit(geohash[i]);
      if pos.None? {
        DecodedUpTo(s, i);
        invalid := Some(geohash[i]);
        return;
      }
      DigitAhead(s, i);
      box, isEven := DecodeDigit(pos.value, bits, isEven, box);
      bits := bits + Digits(pos.value);
    }
    DecodedUpTo(s, n);
  }

  /** Written to any length and read in full, a hash gives the cell of its point, with the point in it. */
  method EncodeThenDecode(p: Point, n: nat) returns (box: Box, invalid: Option<char>)
    requires InWorld(p)
    ensures box == CellAt(p, 5 * n) && In(p, box) && invalid == None
  {
    var geohash := GeohashPoint(p, n);
    HashIsCell(p, p, n);
    UnwordOfWord(BitsOf(p, 5 * n), n);
    CellOfBits(p, 5 * n);
    box, invalid := DecodeBbox(geohash[..], -1);
  }

  // ---------- how long a geohash may be ----------

  /** A point of a closed box. */
  predicate Touches(bbox: Box, p: Point) {
    bbox.lon0 <= p.lon <= bbox.lon1 && bbox.lat0 <= p.lat <= bbox.lat1
  }

  function Corner(bbox: Box): Point {
    Point(bbox.lon0, bbox.lat0)
  }

  predicate WithinWorld(b: Box) {
    -180.0 <= b.lon0 <= b.lon1 <= 180.0 && -90.0 <= b.lat0 <= b.lat1 <= 90.0
  }

  predicate IsPoint(b: Box) {
    b.lon0 == b.lon1 && b.lat0 == b.lat1
  }

  /** All of a box is in one cell of k bits. */
  ghost predicate Share(bbox: Box, k: nat, cell: Box) {
    forall p :: Touches(bbox, p) ==> CellAt(p, k) == cell
  }

  function Low(b: Box, k: nat): real {
    if OfLongitude(k) then b.lon0 else b.lat0
  }

  function High(b: Box, k: nat): real {
    if OfLongitude(k) then b.lon1 else b.lat1
  }

  /** A box that is all on one side of the middle has one more bit in common. */
  lemma OneSide(bbox: Box, k: nat, cell: Box)
    requires Share(bbox, k, cell)
    ensures Low(bbox, k) > Middle(cell, k) ==> Share(bbox, k + 1, Half(cell, k, true))
    ensures High(bbox, k) < Middle(cell, k) ==> Share(bbox, k + 1, Half(cell, k, false))
  {
  }

  function Halved(width: real, n: nat): real
    decreases n
  {
    if n == 0 then width else Halved(width / 2.0, n - 1)
  }

  lemma AtLeastOne(ratio: real, d: real)
    requires d > 0.0 && ratio * d >= d
    ensures ratio >= 1.0
  {
    assert ratio < 1.0 ==> (1.0 - ratio) * d > 0.0;
  }

  /** Halving gets below any width. */
  lemma {:induction false} HalvesEnough(width: real, d: real, ratio: real) returns (n: nat)
    requires d > 0.0 && width == ratio * d && ratio >= 0.0
    ensures Halved(width, n) < d
    decreases ratio.Floor
  {
    if width < d {
      n := 0;
    } else {
      AtLeastOne(ratio, d);
      var rest := HalvesEnough(width / 2.0, d, ratio / 2.0);
      n := rest + 1;
    }
  }

  /** The middle goes through the box, or along an edge. */
  predicate Crosses(middle: real, bbox: Box, k: nat) {
    Low(bbox, k) <= middle <= High(bbox, k)
  }

  /** The first bit that the box is not all on one side of, in the order the loop looks at them. */
  predicate FirstCrossed(bbox: Box, k: nat) {
    && Crosses(Middle(CellAt(Corner(bbox), k), k), bbox, k)
    && forall j :: 0 <= j < k ==> !Crosses(Middle(CellAt(Corner(bbox), j), j), bbox, j)
  }

  predicate Around(b: Box, bbox: Box) {
    b.lon0 <= bbox.lon0 && bbox.lon1 <= b.lon1 && b.lat0 <= bbox.lat0 && bbox.lat1 <= b.lat1
  }

  /** One edge moves to the middle, if the box is all on the other side of it. */
  method Adjust(least: real, most: real, min: real, max: real) returns (lo: real, hi: real, adjusted: bool)
    requires least < most && min <= max
    ensures var mid := (least + most) / 2.0;
            if min > mid then lo == mid && hi == most && adjusted
            else if max < mid then lo == least && hi == mid && adjusted
            else lo == least && hi == most && !adjusted
  {
    var width := most - least;
    var minadjust, maxadjust := 0.0, 0.0;
    if min > least + width / 2.0 {
      minadjust := width / 2.0;
    } else if max < most - width / 2.0 {
      maxadjust := -1.0 * width / 2.0;
    }
    adjusted := minadjust != 0.0 || maxadjust != 0.0;
    lo, hi := least + minadjust, most + maxadjust;
  }

  /** The bounds after k halvings, none of which went through the box. */
  ghost predicate Narrowed(bbox: Box, k: nat, b: Box) {
    && Share(bbox, k, b) && Around(b, bbox) && b.lon0 < b.lon1 && b.lat0 < b.lat1
    && forall j :: 0 <= j < k ==> !Crosses(Middle(CellAt(Corner(bbox), j), j), bbox, j)
  }

  lemma CornerShares(bbox: Box, k: nat, b: Box)
    requires WithinWorld(bbox) && Share(bbox, k, b)
    ensures CellAt(Corner(bbox), k) == b
  {
    assert Touches(bbox, Corner(bbox));
  }

  /** The edges of longitude or those of latitude. */
  method AdjustEdges(bbox: Box, isLon: bool, ghost k: nat, b: Box) returns (half: Box, adjusted: bool)
    requires WithinWorld(bbox) && isLon == OfLongitude(k) && Narrowed(bbox, k, b)
    ensures if adjusted then Narrowed(bbox, k + 1, half) && OfLongitude(k + 1) == !isLon
            else half == b && FirstCrossed(bbox, k)
    ensures adjusted ==> half.lon1 - half.lon0 == if isLon then (b.lon1 - b.lon0) / 2.0 else b.lon1 - b.lon0
    ensures adjusted ==> half.lat1 - half.lat0 == if isLon then b.lat1 - b.lat0 else (b.lat1 - b.lat0) / 2.0
  {
    OneSide(bbox, k, b);
    CornerShares(bbox, k, b);
    if isLon {
      var lonmin, lonmax, moved := Adjust(b.lon0, b.lon1, bbox.lon0, bbox.lon1);
      half, adjusted := b.(lon0 := lonmin, lon1 := lonmax), moved;
    } else {
      var latmin, latmax, moved := Adjust(b.lat0, b.lat1, bbox.lat0, bbox.lat1);
      half, adjusted := b.(lat0 := latmin, lat1 := latmax), moved;
    }
  }

  /** `lwgeom_geohash_precision`. The loop ends because no half is narrower than the box. */
  method GeohashPrecision(bbox: Box, before: Box) returns (precision: nat, bounds: Box, ghost bits: nat)
    requires WithinWorld(bbox)
    ensures IsPoint(bbox) ==> precision == 20 && bounds == before
    ensures !IsPoint(bbox) ==> precision == bits / 5 && Narrowed(bbox, bits, bounds) && FirstCrossed(bbox, bits)
  {
    precision, bits := 0, 0;
    if bbox.lon0 == bbox.lon1 && bbox.lat0 == bbox.lat1 {
      return 20, before, 0;
    }
    bounds := WORLD;
    ghost var tall := bbox.lat0 < bbox.lat1;
    ghost var d := if tall then bbox.lat1 - bbox.lat0 else bbox.lon1 - bbox.lon0;
    ghost var width := if tall then 180.0 else 360.0;
    ghost var rounds := HalvesEnough(width, d, width / d);
    while true
      invariant Narrowed(bbox, precision, bounds) && OfLongitude(precision)
      invariant width == if tall then bounds.lat1 - bounds.lat0 else bounds.lon1 - bounds.lon0
      invariant Halved(width, rounds) < d
      decreases rounds
    {
      var adjusted;
      bounds, adjusted := AdjustEdges(bbox, true, precision, bounds);
      if !adjusted {
        break;
      }
      precision := precision + 1;
      bounds, adjusted := AdjustEdges(bbox, false, precision, bounds);
      if !adjusted {
        break;
      }
      precision := precision + 1;
      rounds, width := rounds - 1, width / 2.0;
    }
    bits := precision;
    precision := precision / 5;
  }

  lemma SharedBits(bbox: Box, k: nat, cell: Box, p: Point, q: Point)
    requires WithinWorld(bbox) && Share(bbox, k, cell) && Touches(bbox, p) && Touches(bbox, q)
    ensures BitsOf(p, k) == BitsOf(q, k)
  {
    InOwnCell(q, k);
    CellOfBits(p, k);
    OnlyOwnCell(q, BitsOf(p, k));
  }

  /** At the precision found, every point of the box has one hash. */
  lemma OneHash(bbox: Box, bits: nat, bounds: Box, p: Point, q: Point)
    requires WithinWorld(bbox) && Share(bbox, bits, bounds) && Touches(bbox, p) && Touches(bbox, q)
    ensures Hash(p, bits / 5) == Hash(q, bits / 5)
  {
    SharedBits(bbox, bits, bounds, p, q);
    FewerBits(p, 5 * (bits / 5), bits);
    FewerBits(q, 5 * (bits / 5), bits);
  }

  /** One bit more is shared exactly if the lower edge of the box is on the middle, which goes with the upper half. */
  lemma OneMoreIsShared(bbox: Box, bits: nat, bounds: Box)
    requires WithinWorld(bbox) && Share(bbox, bits, bounds) && Crosses(Middle(bounds, bits), bbox, bits)
    ensures Share(bbox, bits + 1, CellAt(Corner(bbox), bits + 1)) <==>
            Low(bbox, bits) == Middle(bounds, bits)
  {
    var low, high := Corner(bbox), Point(bbox.lon1, bbox.lat1);
    assert Touches(bbox, low) && Touches(bbox, high);
    if Low(bbox, bits) == Middle(bounds, bits) {
      assert Share(bbox, bits + 1, Half(bounds, bits, true));
    } else if Share(bbox, bits + 1, CellAt(low, bits + 1)) {
      SharedBits(bbox, bits + 1, CellAt(low, bits + 1), low, high);
      TwoSides(bbox, bits, bounds, bits + 1);
      assert false;
    }
  }

  /** Off the middle, the corners of the box differ in the bit. */
  lemma TwoSides(bbox: Box, bits: nat, bounds: Box, n: nat)
    requires WithinWorld(bbox) && Share(bbox, bits, bounds) && Crosses(Middle(bounds, bits), bbox, bits)
    requires Low(bbox, bits) < Middle(bounds, bits) && bits < n
    ensures BitsOf(Corner(bbox), n) != BitsOf(Point(bbox.lon1, bbox.lat1), n)
  {
    var low, high := Corner(bbox), Point(bbox.lon1, bbox.lat1);
    assert Touches(bbox, low) && Touches(bbox, high);
    FewerBits(low, bits + 1, n);
    FewerBits(high, bits + 1, n);
    assert BitsOf(low, bits + 1)[bits] == Goes(low, bits) && BitsOf(high, bits + 1)[bits] == Goes(high, bits);
  }

  /** Where the lower edge is off the middle, no longer hash is right for the whole box. */
  lemma NoLongerHash(bbox: Box, bits: nat, bounds: Box, n: nat)
    requires WithinWorld(bbox) && Share(bbox, bits, bounds) && Crosses(Middle(bounds, bits), bbox, bits)
    requires Low(bbox, bits) < Middle(bounds, bits) && n > bits / 5
    ensures Hash(Corner(bbox), n) != Hash(Point(bbox.lon1, bbox.lat1), n)
  {
    var low, high := Corner(bbox), Point(bbox.lon1, bbox.lat1);
    TwoSides(bbox, bits, bounds, 5 * n);
    UnwordOfWord(BitsOf(low, 5 * n), n);
    UnwordOfWord(BitsOf(high, 5 * n), n);
  }

  // ---------- when the precision is the best there is ----------

  /** The middle parts the box. What lies on it goes with the upper half. */
  predicate Splits(middle: real, bbox: Box, k: nat) {
    Low(bbox, k) < middle <= High(bbox, k)
  }

  /** The first bit in which points of the box differ. */
  predicate FirstSplit(bbox: Box, k: nat) {
    && Splits(Middle(CellAt(Corner(bbox), k), k), bbox, k)
    && forall j :: 0 <= j < k ==> !Splits(Middle(CellAt(Corner(bbox), j), j), bbox, j)
  }

  /** After k bits the box is in one cell, and was not parted. */
  ghost predicate Nested(bbox: Box, k: nat) {
    && Share(bbox, k, CellAt(Corner(bbox), k)) && Around(CellAt(Corner(bbox), k), bbox)
    && forall j :: 0 <= j < k ==> !Splits(Middle(CellAt(Corner(bbox), j), j), bbox, j)
  }

  lemma OneBitOn(bbox: Box, k: nat, cell: Box)
    requires WithinWorld(bbox) && Share(bbox, k, cell) && !Splits(Middle(cell, k), bbox, k)
    ensures Share(bbox, k + 1, Half(cell, k, Low(bbox, k) >= Middle(cell, k)))
  {
  }

  lemma NestedOn(bbox: Box, k: nat)
    requires WithinWorld(bbox) && Nested(bbox, k) && !Splits(Middle(CellAt(Corner(bbox), k), k), bbox, k)
    ensures Nested(bbox, k + 1)
    ensures var cell := CellAt(Corner(bbox), k);
            CellAt(Corner(bbox), k + 1) == Half(cell, k, Low(bbox, k) >= Middle(cell, k))
  {
    OneBitOn(bbox, k, CellAt(Corner(bbox), k));
  }

  lemma {:induction false} NestedUpTo(bbox: Box, split: nat, k: nat)
    requires WithinWorld(bbox) && FirstSplit(bbox, split) && k <= split
    ensures Nested(bbox, k)
  {
    if k > 0 {
      NestedUpTo(bbox, split, k - 1);
      NestedOn(bbox, k - 1);
    }
  }

  function Extent(b: Box, tall: bool): real {
    if tall then b.lat1 - b.lat0 else b.lon1 - b.lon0
  }

  lemma TwoBitsOn(bbox: Box, k: nat, tall: bool)
    requires WithinWorld(bbox) && OfLongitude(k) && Nested(bbox, k)
    requires !Splits(Middle(CellAt(Corner(bbox), k), k), bbox, k)
    requires !Splits(Middle(CellAt(Corner(bbox), k + 1), k + 1), bbox, k + 1)
    ensures OfLongitude(k + 2) && Nested(bbox, k + 2)
    ensures Extent(CellAt(Corner(bbox), k + 2), tall) == Extent(CellAt(Corner(bbox), k), tall) / 2.0
  {
    NestedOn(bbox, k);
    NestedOn(bbox, k + 1);
  }

  lemma {:induction false} FindSplit(bbox: Box, tall: bool, k: nat, rounds: nat) returns (split: nat)
    requires WithinWorld(bbox) && Extent(bbox, tall) > 0.0 && OfLongitude(k) && Nested(bbox, k)
    requires Halved(Extent(CellAt(Corner(bbox), k), tall), rounds) < Extent(bbox, tall)
    ensures FirstSplit(bbox, split)
    decreases rounds
  {
    if Splits(Middle(CellAt(Corner(bbox), k), k), bbox, k) {
      split := k;
    } else {
      NestedOn(bbox, k);
      if Splits(Middle(CellAt(Corner(bbox), k + 1), k + 1), bbox, k + 1) {
        split := k + 1;
      } else {
        TwoBitsOn(bbox, k, tall);
        split := FindSplit(bbox, tall, k + 2, rounds - 1);
      }
    }
  }

  /** Some bit parts every box that is no point. */
  lemma SplitExists(bbox: Box) returns (split: nat)
    requires WithinWorld(bbox) && !IsPoint(bbox)
    ensures FirstSplit(bbox, split)
  {
    var tall := bbox.lat0 < bbox.lat1;
    var width, d := Extent(WORLD, tall), Extent(bbox, tall);
    var rounds := HalvesEnough(width, d, width / d);
    split := FindSplit(bbox, tall, 0, rounds);
  }

  /** The box is in one cell of k bits exactly as long as none of the bits parts it. */
  lemma SharedExactly(bbox: Box, split: nat, k: nat)
    requires WithinWorld(bbox) && FirstSplit(bbox, split)
    ensures (exists cell :: Share(bbox, k, cell)) <==> k <= split
  {
    if k <= split {
      NestedUpTo(bbox, split, k);
    } else if cell :| Share(bbox, k, cell) {
      NestedUpTo(bbox, split, split);
      SharedBits(bbox, k, cell, Corner(bbox), Point(bbox.lon1, bbox.lat1));
      TwoSides(bbox, split, CellAt(Corner(bbox), split), k);
      assert false;
    }
  }

  /** All points of the box have one hash of n characters. */
  ghost predicate Right(bbox: Box, n: nat) {
    forall p, q :: Touches(bbox, p) && Touches(bbox, q) ==> Hash(p, n) == Hash(q, n)
  }

  lemma RightExactly(bbox: Box, split: nat, n: nat)
    requires WithinWorld(bbox) && FirstSplit(bbox, split)
    ensures Right(bbox, n) <==> 5 * n <= split
  {
    if 5 * n <= split {
      NestedUpTo(bbox, split, 5 * n);
      forall p, q | Touches(bbox, p) && Touches(bbox, q) ensures Hash(p, n) == Hash(q, n) {
        SharedBits(bbox, 5 * n, CellAt(Corner(bbox), 5 * n), p, q);
      }
    } else {
      NestedUpTo(bbox, split, split);
      NoLongerHash(bbox, split, CellAt(Corner(bbox), split), n);
      assert Touches(bbox, Corner(bbox)) && Touches(bbox, Point(bbox.lon1, bbox.lat1));
    }
  }

  /** The loop stops at a middle the box touches, which need not part it. The precision it returns is right, and the
      best exactly if no whole character is lost between the two bits. They are the same bit exactly if the lower edge
      of the box is off the middle where the loop stopped. */
  lemma PrecisionIsBest(bbox: Box, bits: nat, split: nat)
    requires WithinWorld(bbox) && FirstCrossed(bbox, bits) && FirstSplit(bbox, split)
    ensures bits <= split && Right(bbox, bits / 5)
    ensures (forall n: nat :: Right(bbox, n) ==> n <= bits / 5) <==> bits / 5 == split / 5
    ensures bits == split <==> Low(bbox, bits) < Middle(CellAt(Corner(bbox), bits), bits)
  {
    assert Crosses(Middle(CellAt(Corner(bbox), split), split), bbox, split);
    RightExactly(bbox, split, bits / 5);
    RightExactly(bbox, split, split / 5);
    forall n: nat | Right(bbox, n) ensures n <= split / 5 {
      RightExactly(bbox, split, n);
    }
  }

  /** A box with its western edge on the prime meridian, across the equator: the loop stops where the edge is, and yet
      nothing better can be done. */
  lemma OnMiddleYetBest()
    ensures var bbox := Box(0.0, 10.0, -10.0, 10.0);
            && FirstCrossed(bbox, 0) && Low(bbox, 0) == Middle(CellAt(Corner(bbox), 0), 0)
            && forall n: nat :: Right(bbox, n) ==> n == 0
  {
    var bbox := Box(0.0, 10.0, -10.0, 10.0);
    assert CellAt(Corner(bbox), 1) == Box(0.0, 180.0, -90.0, 90.0);
    assert FirstSplit(bbox, 1);
    forall n: nat | Right(bbox, n) ensures n == 0 {
      RightExactly(bbox, 1, n);
    }
  }

  /** A box whose western edge is on the prime meridian gets no character, though "s" is right for all of it. */
  lemma MeridianIsLost()
    ensures var bbox := Box(0.0, 10.0, 1.0, 10.0);
            FirstCrossed(bbox, 0) && Share(bbox, 5, Box(0.0, 45.0, 0.0, 45.0)) && Right(bbox, 1)
  {
    var bbox := Box(0.0, 10.0, 1.0, 10.0);
    forall p | Touches(bbox, p) ensures CellAt(p, 5) == Box(0.0, 45.0, 0.0, 45.0) {
      assert CellAt(p, 1) == Box(0.0, 180.0, -90.0, 90.0);
      assert CellAt(p, 2) == Box(0.0, 180.0, 0.0, 90.0);
      assert CellAt(p, 3) == Box(0.0, 90.0, 0.0, 90.0);
      assert CellAt(p, 4) == Box(0.0, 90.0, 0.0, 45.0);
    }
    forall p, q | Touches(bbox, p) && Touches(bbox, q) ensures Hash(p, 1) == Hash(q, 1) {
      OneHash(bbox, 5, Box(0.0, 45.0, 0.0, 45.0), p, q);
    }
  }

  datatype Outcome = NoBox | NotDegrees | Text(geohash: string)

  /** `lwgeom_geohash`, given the box of the geometry if it has one. */
  method LwgeomGeohash(gbox: Option<Box>, precision: int) returns (r: Outcome, ghost bits: nat)
    requires gbox.Some? ==> gbox.value.lon0 <= gbox.value.lon1 && gbox.value.lat0 <= gbox.value.lat1
    ensures r == NoBox <==> gbox == None
    ensures r == NotDegrees <==> gbox.Some? && !WithinWorld(gbox.value)
    ensures r.Text? && precision > 0 ==> |r.geohash| == precision
    ensures r.Text? && precision <= 0 && IsPoint(gbox.value) ==> |r.geohash| == 20
    ensures r.Text? && precision <= 0 && !IsPoint(gbox.value) ==>
              FirstCrossed(gbox.value, bits) && |r.geohash| == bits / 5
              && forall p :: Touches(gbox.value, p) ==> Hash(p, bits / 5) == r.geohash
    ensures r.Text? ==> var b := gbox.value;
                        r.geohash == Hash(Point((b.lon0 + b.lon1) / 2.0, (b.lat0 + b.lat1) / 2.0), |r.geohash|)
  {
    bits := 0;
    if gbox.None? {
      return NoBox, 0;
    }
    var b := gbox.value;
    if b.lon0 < -180.0 || b.lat0 < -90.0 || b.lon1 > 180.0 || b.lat1 > 90.0 {
      return NotDegrees, 0;
    }
    var lon := b.lon0 + (b.lon1 - b.lon0) / 2.0;
    var lat := b.lat0 + (b.lat1 - b.lat0) / 2.0;
    var length := precision;
    if precision <= 0 {
      var bounds;
      length, bounds, bits := GeohashPrecision(b, Box(0.0, 0.0, 0.0, 0.0));
      if !IsPoint(b) {
        forall p | Touches(b, p) ensures Hash(p, bits / 5) == Hash(Point(lon, lat), bits / 5) {
          OneHash(b, bits, bounds, p, Point(lon, lat));
        }
      }
    }
    var geohash := GeohashPoint(Point(lon, lat), length);
    r := Text(geohash[..]);
  }
}
