/** The geohash of liblwgeom/lwalgorithm.c: bits that halve the world by turns in longitude and latitude, written five
    to a character. Doubles are reals, so that midpoints are exact. */
module Geohash {
  import opened Basics

  datatype Point = Point(lon: real, lat: real)

  datatype Box = Box(lon0: real, lon1: real, lat0: real, lat1: real)

  const WORLD := Box(-180.0, 180.0, -90.0, 90.0)

  predicate InWorld(p: Point) {
    -180.0 <= p.lon <= 180.0 && -90.0 <= p.lat <= 90.0
  }

  // ---------- bits and cells ----------

  /** Bits are of longitude first, then by turns. */
  predicate OfLongitude(k: nat) {
    k == 0 || !OfLongitude(k - 1)
  }

  function Middle(b: Box, k: nat): real {
    if OfLongitude(k) then (b.lon0 + b.lon1) / 2.0 else (b.lat0 + b.lat1) / 2.0
  }

  function Coordinate(p: Point, k: nat): real {
    if OfLongitude(k) then p.lon else p.lat
  }

  /** The half of a box a bit stands for. */
  function Half(b: Box, k: nat, upper: bool): Box {
    if OfLongitude(k) then
      if upper then b.(lon0 := Middle(b, k)) else b.(lon1 := Middle(b, k))
    else
      if upper then b.(lat0 := Middle(b, k)) else b.(lat1 := Middle(b, k))
  }

  function CellOf(bits: seq<bool>): Box {
    if bits == [] then WORLD
    else Half(CellOf(bits[..|bits| - 1]), |bits| - 1, bits[|bits| - 1])
  }

  /** The box a point is in after n halvings. */
  function CellAt(p: Point, n: nat): Box {
    if n == 0 then WORLD
    else
      var b := CellAt(p, n - 1);
      Half(b, n - 1, Coordinate(p, n - 1) >= Middle(b, n - 1))
  }

  /** Bit k of a point. */
  predicate Goes(p: Point, k: nat) {
    Coordinate(p, k) >= Middle(CellAt(p, k), k)
  }

  function BitsOf(p: Point, n: nat): (bits: seq<bool>)
    ensures |bits| == n
  {
    if n == 0 then [] else BitsOf(p, n - 1) + [Goes(p, n - 1)]
  }

  /** Cells are open above, except at the end of the world. */
  predicate In(p: Point, b: Box) {
    && b.lon0 <= p.lon && (p.lon < b.lon1 || b.lon1 == 180.0)
    && b.lat0 <= p.lat && (p.lat < b.lat1 || b.lat1 == 90.0)
  }

  lemma {:induction false} CellOfBits(p: Point, n: nat)
    ensures CellOf(BitsOf(p, n)) == CellAt(p, n)
  {
    if n > 0 {
      CellOfBits(p, n - 1);
      assert BitsOf(p, n)[..n - 1] == BitsOf(p, n - 1);
    }
  }

  lemma {:induction false} CellIsBox(bits: seq<bool>)
    ensures var b := CellOf(bits); -180.0 <= b.lon0 < b.lon1 <= 180.0 && -90.0 <= b.lat0 < b.lat1 <= 90.0
  {
    if bits != [] {
      CellIsBox(bits[..|bits| - 1]);
    }
  }

  /** The cell of a point's bits has the point in it. */
  lemma {:induction false} InOwnCell(p: Point, n: nat)
    requires InWorld(p)
    ensures In(p, CellAt(p, n))
  {
    if n > 0 {
      InOwnCell(p, n - 1);
    }
  }

  /** A point in a half of a box is in the box, and on that side of the middle. */
  lemma OwnHalf(p: Point, b: Box, k: nat, upper: bool)
    requires InWorld(p) && -180.0 <= b.lon0 < b.lon1 <= 180.0 && -90.0 <= b.lat0 < b.lat1 <= 90.0
    requires In(p, Half(b, k, upper))
    ensures In(p, b) && upper == (Coordinate(p, k) >= Middle(b, k))
  {
  }

  /** No other bits have a cell with the point in it. */
  lemma {:induction false} OnlyOwnCell(p: Point, bits: seq<bool>)
    requires InWorld(p) && In(p, CellOf(bits))
    ensures BitsOf(p, |bits|) == bits
  {
    if bits != [] {
      var before := bits[..|bits| - 1];
      CellIsBox(before);
      OwnHalf(p, CellOf(before), |before|, bits[|before|]);
      OnlyOwnCell(p, before);
      CellOfBits(p, |before|);
      assert bits == before + [bits[|bits| - 1]];
    }
  }

  lemma {:induction false} FewerBits(p: Point, n: nat, m: nat)
    requires n <= m
    ensures BitsOf(p, m)[..n] == BitsOf(p, n)
  {
    if n < m {
      FewerBits(p, n, m - 1);
      assert BitsOf(p, m)[..n] == BitsOf(p, m - 1)[..n];
    }
  }

  // ---------- characters ----------

  const BASE32 := "0123456789bcdefghjkmnpqrstuvwxyz"

  /** The characters of BASE32: the ten digits and the letters without a, i, l and o. */
  function Char(v: nat): char
    requires v < 32
  {
    if v < 10 then '0' + v as char
    else if v < 17 then 'b' + (v - 10) as char
    else if v < 19 then 'j' + (v - 17) as char
    else if v < 21 then 'm' + (v - 19) as char
    else 'p' + (v - 21) as char
  }

  lemma IsBase32(v: nat)
    requires v < 32
    ensures Char(v) == BASE32[v]
  {
  }

  /** `ch |= bits[bit]`, with the weights 16, 8, 4, 2, 1. */
  function Weight(bit: nat): nat {
    if bit == 0 then 16 else if bit == 1 then 8 else if bit == 2 then 4 else if bit == 3 then 2 else 1
  }

  function Value(bits: seq<bool>): (v: nat)
    requires |bits| <= 5
  {
    if bits == [] then 0
    else Value(bits[..|bits| - 1]) + if bits[|bits| - 1] then Weight(|bits| - 1) else 0
  }

  /** `cd & mask`. */
  predicate Set(v: nat, bit: nat) {
    (if bit == 0 then v / 16 else if bit == 1 then v / 8 else if bit == 2 then v / 4 else if bit == 3 then v / 2 else v)
    % 2 == 1
  }

  function Digits(v: nat): (bits: seq<bool>)
    ensures |bits| == 5
  {
    [Set(v, 0), Set(v, 1), Set(v, 2), Set(v, 3), Set(v, 4)]
  }

  lemma ValueOfFive(bits: seq<bool>)
    requires |bits| == 5
    ensures Value(bits) ==
            (if bits[0] then 16 else 0) + (if bits[1] then 8 else 0) + (if bits[2] then 4 else 0) +
            (if bits[3] then 2 else 0) + (if bits[4] then 1 else 0)
  {
    assert bits[..4][..3] == bits[..3] && bits[..3][..2] == bits[..2] && bits[..2][..1] == bits[..1];
    assert Value(bits[..1]) == if bits[0] then 16 else 0;
    assert Value(bits[..2]) == Value(bits[..1]) + if bits[1] then 8 else 0;
    assert Value(bits[..3]) == Value(bits[..2]) + if bits[2] then 4 else 0;
    assert Value(bits[..4]) == Value(bits[..3]) + if bits[3] then 2 else 0;
  }

  lemma SetInSum(a: nat, b: nat, c: nat, d: nat, e: nat)
    requires a <= 1 && b <= 1 && c <= 1 && d <= 1 && e <= 1
    ensures var v := 16 * a + 8 * b + 4 * c + 2 * d + e; Digits(v) == [a == 1, b == 1, c == 1, d == 1, e == 1]
  {
    var v := 16 * a + 8 * b + 4 * c + 2 * d + e;
    assert v / 2 == 8 * a + 4 * b + 2 * c + d;
    assert v / 4 == 4 * a + 2 * b + c;
    assert v / 8 == 2 * a + b;
    assert v / 16 == a;
  }

  /** Five bits and the number they spell. */
  lemma DigitsOfValue(bits: seq<bool>)
    requires |bits| == 5
    ensures Value(bits) < 32 && Digits(Value(bits)) == bits
  {
    ValueOfFive(bits);
    SetInSum(Bit(bits[0]), Bit(bits[1]), Bit(bits[2]), Bit(bits[3]), Bit(bits[4]));
  }

  lemma ValueOfDigits(v: nat)
    requires v < 32
    ensures Value(Digits(v)) == v
  {
    ValueOfFive(Digits(v));
  }

  /** `tolower`. */
  function Lower(c: char): char {
    if 'A' <= c <= 'Z' then c - 'A' + 'a' else c
  }

  /** `strchr` on the digits from position i on. */
  function Find(c: char, i: nat): (v: Option<nat>)
    requires i <= 32
    ensures v.Some? ==> v.value < 32
    decreases 32 - i, c
  {
    if i == 32 then None else if Char(i) == c then Some(i) else Find(c, i + 1)
  }

  lemma {:induction false} Finds(c: char, i: nat)
    requires i <= 32
    ensures Find(c, i).Some? ==> i <= Find(c, i).value && Char(Find(c, i).value) == c
    ensures Find(c, i).None? ==> forall k :: i <= k < 32 ==> Char(k) != c
    decreases 32 - i, c
  {
    if i < 32 {
      Finds(c, i + 1);
    }
  }

  function Digit(c: char): Option<nat> {
    Find(Lower(c), 0)
  }

  lemma IsLower(v: nat)
    requires v < 32
    ensures Lower(Char(v)) == Char(v)
  {
  }

  lemma OneDigit(u: nat, v: nat)
    requires u < 32 && v < 32 && Char(u) == Char(v)
    ensures u == v
  {
  }

  lemma DigitOf(v: nat)
    requires v < 32
    ensures Digit(Char(v)) == Some(v)
  {
    IsLower(v);
    Finds(Char(v), 0);
    OneDigit(Digit(Char(v)).value, v);
  }

  /** A letter of the table is read in upper case too. */
  lemma EitherCase(c: char, v: nat)
    requires v < 32 && 'A' <= c <= 'Z' && c as int + 32 == BASE32[v] as int
    ensures Digit(c) == Some(v) && Digit(BASE32[v]) == Some(v)
  {
    IsBase32(v);
    DigitOf(v);
    assert Lower(c) == Char(v);
    IsLower(v);
  }

  lemma CharOfDigit(c: char)
    requires Digit(c).Some?
    ensures Char(Digit(c).value) == Lower(c)
  {
    Finds(Lower(c), 0);
  }

  /** Five bits to a character. */
  function Word(bits: seq<bool>, n: nat): (s: string)
    requires |bits| == 5 * n
    ensures |s| == n
  {
    if n == 0 then ""
    else
      var last := bits[5 * n - 5..];
      DigitsOfValue(last);
      Word(bits[..5 * n - 5], n - 1) + [Char(Value(last))]
  }

  predicate Valid(s: string) {
    forall k :: 0 <= k < |s| ==> Digit(s[k]).Some?
  }

  /** The bits of a string of digits. */
  function Unword(s: string): (bits: seq<bool>)
    requires Valid(s)
    ensures |bits| == 5 * |s|
  {
    if s == "" then [] else Unword(s[..|s| - 1]) + Digits(Digit(s[|s| - 1]).value)
  }

  function LowerAll(s: string): string {
    if s == "" then "" else LowerAll(s[..|s| - 1]) + [Lower(s[|s| - 1])]
  }

  lemma WordOfMore(bits: seq<bool>, n: nat, last: seq<bool>)
    requires |bits| == 5 * n && |last| == 5
    ensures Value(last) < 32 && Word(bits + last, n + 1) == Word(bits, n) + [Char(Value(last))]
  {
    DigitsOfValue(last);
    var more := bits + last;
    assert more[..5 * n] == bits && more[5 * n..] == last;
  }

  lemma UnwordOfMore(s: string, v: nat)
    requires Valid(s) && v < 32
    ensures Valid(s + [Char(v)]) && Unword(s + [Char(v)]) == Unword(s) + Digits(v)
  {
    DigitOf(v);
    assert (s + [Char(v)])[..|s|] == s;
  }

  lemma OneCharacterOn(bits: seq<bool>, n: nat, before: seq<bool>, last: seq<bool>)
    requires |before| == 5 * n && |last| == 5 && bits == before + last
    requires Valid(Word(before, n)) && Unword(Word(before, n)) == before
    ensures Valid(Word(bits, n + 1)) && Unword(Word(bits, n + 1)) == bits
  {
    DigitsOfValue(last);
    WordOfMore(before, n, last);
    UnwordOfMore(Word(before, n), Value(last));
  }

  lemma {:induction false} UnwordOfWord(bits: seq<bool>, n: nat)
    requires |bits| == 5 * n
    ensures Valid(Word(bits, n)) && Unword(Word(bits, n)) == bits
  {
    if n > 0 {
      var before, last := bits[..5 * n - 5], bits[5 * n - 5..];
      UnwordOfWord(before, n - 1);
      OneCharacterOn(bits, n - 1, before, last);
    }
  }

  lemma {:induction false} WordOfUnword(s: string)
    requires Valid(s)
    ensures Word(Unword(s), |s|) == LowerAll(s)
  {
    if s != "" {
      var before, v := s[..|s| - 1], Digit(s[|s| - 1]).value;
      WordOfUnword(before);
      ValueOfDigits(v);
      CharOfDigit(s[|s| - 1]);
      WordOfMore(Unword(before), |before|, Digits(v));
    }
  }

  lemma {:induction false} FewerCharacters(bits: seq<bool>, n: nat, m: nat)
    requires |bits| == 5 * m && n <= m
    ensures Word(bits[..5 * n], n) == Word(bits, m)[..n]
  {
    if n == m {
      assert bits[..5 * n] == bits;
    } else {
      var before := bits[..5 * m - 5];
      FewerCharacters(before, n, m - 1);
      assert before[..5 * n] == bits[..5 * n];
    }
  }

  // ---------- the properties of a geohash ----------

  function Hash(p: Point, n: nat): string {
    Word(BitsOf(p, 5 * n), n)
  }

  /** Shorter hashes are prefixes of longer ones. */
  lemma ShorterIsPrefix(p: Point, n: nat, m: nat)
    requires n <= m
    ensures Hash(p, n) == Hash(p, m)[..n]
  {
    FewerBits(p, 5 * n, 5 * m);
    FewerCharacters(BitsOf(p, 5 * m), n, m);
  }

  /** What a hash decodes to is the cell with the point in it, and the points in it are those with the hash. */
  lemma HashIsCell(p: Point, q: Point, n: nat)
    requires InWorld(p) && InWorld(q)
    ensures Valid(Hash(p, n))
    ensures Hash(q, n) == Hash(p, n) <==> In(q, CellOf(Unword(Hash(p, n))))
  {
    UnwordOfWord(BitsOf(p, 5 * n), n);
    UnwordOfWord(BitsOf(q, 5 * n), n);
    InOwnCell(q, 5 * n);
    CellOfBits(q, 5 * n);
    if In(q, CellOf(BitsOf(p, 5 * n))) {
      OnlyOwnCell(q, BitsOf(p, 5 * n));
    }
  }

  /** Whatever digits are decoded, every point of the cell has them for a hash, in lower case. */
  lemma DecodeThenEncode(s: string, q: Point)
    requires Valid(s) && InWorld(q) && In(q, CellOf(Unword(s)))
    ensures Hash(q, |s|) == LowerAll(s)
  {
    OnlyOwnCell(q, Unword(s));
    WordOfUnword(s);
  }
}
