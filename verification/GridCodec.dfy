/** geogridcoder/geosot.cpp: the code of a cell, its text, and the two coordinates interleaved in it. A machine word is
    the sequence of its bits, the lowest first. */
module GridCodec {
  import opened Basics

  type Word = seq<bool>

  // ---------- the operations of the machine ----------

  function Shl(x: Word, n: nat): (r: Word)
    ensures |r| == |x| && forall i :: 0 <= i < |x| ==> r[i] == (i >= n && x[i - n])
  {
    seq(|x|, i requires 0 <= i < |x| => i >= n && x[i - n])
  }

  function Shr(x: Word, n: nat): (r: Word)
    ensures |r| == |x| && forall i :: 0 <= i < |x| ==> r[i] == (i + n < |x| && x[i + n])
  {
    seq(|x|, i requires 0 <= i < |x| => i + n < |x| && x[i + n])
  }

  function Or(x: Word, y: Word): (r: Word)
    requires |x| == |y|
    ensures |r| == |x| && forall i :: 0 <= i < |x| ==> r[i] == (x[i] || y[i])
  {
    seq(|x|, i requires 0 <= i < |x| => x[i] || y[i])
  }

  function Xor(x: Word, y: Word): (r: Word)
    requires |x| == |y|
    ensures |r| == |x| && forall i :: 0 <= i < |x| ==> r[i] == (x[i] != y[i])
  {
    seq(|x|, i requires 0 <= i < |x| => x[i] != y[i])
  }

  function And(x: Word, y: Word): (r: Word)
    requires |x| == |y|
    ensures |r| == |x| && forall i :: 0 <= i < |x| ==> r[i] == (x[i] && y[i])
  {
    seq(|x|, i requires 0 <= i < |x| => x[i] && y[i])
  }

  /** s ones, s zeros and so on: 0x00000000FFFFFFFF, 0x0000FFFF0000FFFF down to 0x5555555555555555. */
  function Mask(s: nat): (r: Word)
    requires s > 0
    ensures |r| == 64 && forall i :: 0 <= i < 64 ==> r[i] == (i % (2 * s) < s)
  {
    seq(64, i requires 0 <= i < 64 => i % (2 * s) < s)
  }

  function Zeros(n: nat): (r: Word)
    ensures |r| == n && forall i :: 0 <= i < n ==> !r[i]
  {
    seq(n, i requires 0 <= i < n => false)
  }

  // ---------- spreading bits out ----------

  function Spread(x: Word, s: nat): (r: Word)
    requires |x| == 64 && s > 0
    ensures |r| == 64
  {
    And(Or(x, Shl(x, s)), Mask(s))
  }

  function SplitByBits(a: Word): (r: Word)
    requires |a| == 32
    ensures |r| == 64
  {
    Spread(Spread(Spread(Spread(Spread(Spread(a + Zeros(32), 32), 16), 8), 4), 2), 1)
  }

  /** Where bit i of a word of spread out groups of s bits comes from. */
  function Source(i: nat, s: nat): nat
    requires s > 0
  {
    i / (2 * s) * s + i % (2 * s)
  }

  /** x has the bits of a in groups of s bits with s zeros between them. */
  predicate Spaced(x: Word, a: Word, s: nat)
    requires |x| == 64 && |a| == 32 && s > 0
  {
    forall i :: 0 <= i < 64 ==> x[i] == (i % (2 * s) < s && Source(i, s) < 32 && a[Source(i, s)])
  }

  lemma Spread32(a: Word)
    requires |a| == 32
    ensures Spaced(Spread(a + Zeros(32), 32), a, 32)
  {
  }

  lemma Multiples(s: nat, q: int)
    ensures 4 * s * q == 4 * (s * q) && (2 * s) * (2 * q) == 4 * (s * q) && (2 * s) * (2 * q + 1) == 4 * (s * q) + 2 * s
    ensures q * (2 * s) == 2 * (s * q) && (2 * q) * s == 2 * (s * q) && (2 * q + 1) * s == 2 * (s * q) + s
  {
  }

  /** Where position i = 4sq + r is, in groups of 4s and of 2s. */
  lemma Position(i: nat, s: nat, q: int, r: int)
    requires s > 0 && 0 <= r < 4 * s && i == 4 * (s * q) + r
    ensures i / (4 * s) == q && i % (4 * s) == r && Source(i, 2 * s) == 2 * (s * q) + r
    ensures r < 2 * s ==> i % (2 * s) == r && Source(i, s) == 2 * (s * q) + r
    ensures r >= 2 * s ==> i % (2 * s) == r - 2 * s && Source(i, s) == 2 * (s * q) + r - s
  {
    Multiples(s, q);
    DivUnique(i, 4 * s, q, r);
    if r < 2 * s {
      DivUnique(i, 2 * s, 2 * q, r);
    } else {
      DivUnique(i, 2 * s, 2 * q + 1, r - 2 * s);
    }
  }

  /** Position i - s. */
  lemma PositionBefore(i: nat, s: nat, q: int, r: int)
    requires s > 0 && 0 <= r < 4 * s && i == 4 * (s * q) + r && i >= s
    ensures r < s ==> (i - s) % (4 * s) >= 2 * s
    ensures r >= s ==> (i - s) % (4 * s) == r - s && Source(i - s, 2 * s) == 2 * (s * q) + r - s
  {
    if r < s {
      assert s * (q - 1) == s * q - s;
      Position(i - s, s, q - 1, r + 3 * s);
    } else {
      Position(i - s, s, q, r - s);
    }
  }

  lemma Divided(i: nat, s: nat) returns (q: nat, r: nat)
    requires s > 0
    ensures r < 4 * s && i == 4 * (s * q) + r
  {
    q, r := i / (4 * s), i % (4 * s);
    Multiples(s, q);
  }

  lemma SpreadAt(x: Word, s: nat, i: nat)
    requires |x| == 64 && s > 0 && i < 64
    ensures Spread(x, s)[i] == ((x[i] || (i >= s && x[i - s])) && i % (2 * s) < s)
  {
  }

  /** One step halves the groups. */
  lemma SpreadStep(x: Word, a: Word, s: nat)
    requires |x| == 64 && |a| == 32 && s > 0 && Spaced(x, a, 2 * s)
    ensures Spaced(Spread(x, s), a, s)
  {
    forall i | 0 <= i < 64
      ensures Spread(x, s)[i] == (i % (2 * s) < s && Source(i, s) < 32 && a[Source(i, s)])
    {
      var q, r := Divided(i, s);
      SpreadAt(x, s, i);
      Position(i, s, q, r);
      assert 2 * (2 * s) == 4 * s;
      if i >= s {
        PositionBefore(i, s, q, r);
      }
    }
  }

  /** Bit k of the coordinate is bit 2k of the code. */
  lemma SplitIsSpread(a: Word)
    requires |a| == 32
    ensures forall i :: 0 <= i < 64 ==> SplitByBits(a)[i] == (i % 2 == 0 && a[i / 2])
  {
    var x := Spread(a + Zeros(32), 32);
    Spread32(a);
    SpreadStep(x, a, 16);
    x := Spread(x, 16);
    SpreadStep(x, a, 8);
    x := Spread(x, 8);
    SpreadStep(x, a, 4);
    x := Spread(x, 4);
    SpreadStep(x, a, 2);
    x := Spread(x, 2);
    SpreadStep(x, a, 1);
    forall i | 0 <= i < 64 ensures SplitByBits(a)[i] == (i % 2 == 0 && a[i / 2]) {
      EveryOther(i);
    }
  }

  lemma EveryOther(i: nat)
    ensures (i % (2 * 1) < 1 <==> i % 2 == 0) && (i % 2 == 0 ==> Source(i, 1) == i / 2)
  {
  }

  // ---------- and gathering them again ----------

  function Gather(x: Word, s: nat): (r: Word)
    requires |x| == 64 && s > 0
    ensures |r| == 64
  {
    And(Xor(x, Shr(x, s)), Mask(2 * s))
  }

  function MergeByBits(m: Word): (r: Word)
    requires |m| == 64
    ensures |r| == 32
  {
    Gather(Gather(Gather(Gather(Gather(And(m, Mask(1)), 1), 2), 4), 8), 16)[..32]
  }

  /** x has every other bit of m, in groups of s bits with s zeros between them. */
  predicate Packed(x: Word, m: Word, s: nat)
    requires |x| == 64 && |m| == 64 && s > 0
  {
    forall i :: 0 <= i < 64 ==> x[i] == (i % (2 * s) < s && Source(i, s) < 32 && m[2 * Source(i, s)])
  }

  lemma PackedFirst(m: Word)
    requires |m| == 64
    ensures Packed(And(m, Mask(1)), m, 1)
  {
    forall i | 0 <= i < 64
      ensures And(m, Mask(1))[i] == (i % (2 * 1) < 1 && Source(i, 1) < 32 && m[2 * Source(i, 1)])
    {
      EveryOther(i);
    }
  }

  /** Position i + s, when i is in the first half of its group. */
  lemma PositionAfter(i: nat, s: nat, q: int, r: int, groups: nat)
    requires s > 0 && 0 <= r < 2 * s && i == 4 * (s * q) + r && i < 64 == 4 * (s * groups)
    ensures i + s < 64
    ensures r < s ==> (i + s) % (2 * s) >= s
    ensures r >= s ==> (i + s) % (2 * s) == r - s && Source(i + s, s) == 2 * (s * q) + r
  {
    assert s * q < s * groups;
    assert q < groups by {
      assert q >= groups ==> s * q >= s * groups;
    }
    assert s * (q + 1) == s * q + s;
    assert s * (q + 1) <= s * groups;
    Position(i + s, s, q, r + s);
  }

  /** One step doubles the groups. */
  lemma GatherStep(x: Word, m: Word, s: nat, groups: nat)
    requires |x| == 64 && |m| == 64 && s > 0 && Packed(x, m, s) && 64 == 4 * (s * groups)
    ensures Packed(Gather(x, s), m, 2 * s)
  {
    forall i | 0 <= i < 64
      ensures Gather(x, s)[i] ==
              (i % (2 * (2 * s)) < 2 * s && Source(i, 2 * s) < 32 && m[2 * Source(i, 2 * s)])
    {
      var q, r := Divided(i, s);
      Position(i, s, q, r);
      assert 2 * (2 * s) == 4 * s;
      if r < 2 * s {
        PositionAfter(i, s, q, r, groups);
      }
    }
  }

  lemma GatherAll(m: Word)
    requires |m| == 64
    ensures Packed(Gather(Gather(Gather(Gather(Gather(And(m, Mask(1)), 1), 2), 4), 8), 16), m, 32)
  {
    var x := And(m, Mask(1));
    PackedFirst(m);
    GatherStep(x, m, 1, 16);
    x := Gather(x, 1);
    GatherStep(x, m, 2, 8);
    x := Gather(x, 2);
    GatherStep(x, m, 4, 4);
    x := Gather(x, 4);
    GatherStep(x, m, 8, 2);
    x := Gather(x, 8);
    GatherStep(x, m, 16, 1);
  }

  lemma OwnPlace(j: nat)
    requires j < 32
    ensures j % (2 * 32) < 32 && Source(j, 32) == j
  {
  }

  lemma PackedLast(x: Word, m: Word, j: nat)
    requires |x| == 64 && |m| == 64 && Packed(x, m, 32) && j < 32
    ensures x[j] == m[2 * j]
  {
    OwnPlace(j);
  }

  lemma MergeIsGather(m: Word, j: nat)
    requires |m| == 64 && j < 32
    ensures MergeByBits(m)[j] == m[2 * j]
  {
    GatherAll(m);
    PackedLast(Gather(Gather(Gather(Gather(Gather(And(m, Mask(1)), 1), 2), 4), 8), 16), m, j);
  }

  // ---------- two coordinates in a code ----------

  function MagicBits(lng: Word, lat: Word): (r: Word)
    requires |lng| == |lat| == 32
    ensures |r| == 64
  {
    Or(SplitByBits(lng), Shl(SplitByBits(lat), 1))
  }

  function UnMagicBits(m: Word): (Word, Word)
    requires |m| == 64
  {
    (MergeByBits(m), MergeByBits(Shr(m, 1)))
  }

  lemma Parity(j: nat)
    ensures 2 * j % 2 == 0 && 2 * j / 2 == j && (2 * j + 1) % 2 == 1
  {
  }

  /** The bits of the two coordinates by turns. */
  lemma MagicIsInterleave(lng: Word, lat: Word, j: nat)
    requires |lng| == |lat| == 32 && j < 32
    ensures MagicBits(lng, lat)[2 * j] == lng[j] && MagicBits(lng, lat)[2 * j + 1] == lat[j]
  {
    SplitBit(lng, j);
    SplitBit(lat, j);
    if j > 0 {
      SplitBit(lat, j - 1);
    }
  }

  lemma SplitBit(a: Word, j: nat)
    requires |a| == 32 && j < 32
    ensures SplitByBits(a)[2 * j] == a[j] && !SplitByBits(a)[2 * j + 1]
  {
    SplitIsSpread(a);
    Parity(j);
  }

  lemma UnMagicIsApart(m: Word, j: nat)
    requires |m| == 64 && j < 32
    ensures UnMagicBits(m).0[j] == m[2 * j] && UnMagicBits(m).1[j] == m[2 * j + 1]
  {
    MergeIsGather(m, j);
    MergeIsGather(Shr(m, 1), j);
  }

  /** Taking a code apart gives the coordinates it was made of. */
  lemma MagicThere(lng: Word, lat: Word)
    requires |lng| == |lat| == 32
    ensures UnMagicBits(MagicBits(lng, lat)) == (lng, lat)
  {
    var m := MagicBits(lng, lat);
    forall j | 0 <= j < 32 ensures UnMagicBits(m).0[j] == lng[j] && UnMagicBits(m).1[j] == lat[j] {
      MagicIsInterleave(lng, lat, j);
      UnMagicIsApart(m, j);
    }
    assert UnMagicBits(m).0 == lng && UnMagicBits(m).1 == lat;
  }

  /** Every code is made of the coordinates it is taken apart to. */
  lemma MagicBack(m: Word)
    requires |m| == 64
    ensures MagicBits(UnMagicBits(m).0, UnMagicBits(m).1) == m
  {
    var (lng, lat) := UnMagicBits(m);
    var r := MagicBits(lng, lat);
    forall i | 0 <= i < 64 ensures r[i] == m[i] {
      MagicIsInterleave(lng, lat, i / 2);
      UnMagicIsApart(m, i / 2);
      assert i == 2 * (i / 2) || i == 2 * (i / 2) + 1;
    }
  }

  // ---------- the text ----------

  /** `(code >> i * 2) & 0x3`. */
  function Digit(code: Word, i: nat): (v: nat)
    requires |code| == 64 && i < 32
    ensures v < 4
  {
    var low := Shr(code, i * 2);
    Bit(low[0]) + 2 * Bit(low[1])
  }

  function Char(v: nat): char {
    if v == 0 then '0' else if v == 1 then '1' else if v == 2 then '2' else '3'
  }

  predicate IsDigit(c: char) {
    '0' <= c <= '9'
  }

  /** What goes after the digit of index i. */
  function Separator(i: int, level: nat): string {
    if i > 32 - level then
      if i == 23 || i == 17 then "-" else if i == 11 then "." else ""
    else ""
  }

  /** The text as far as k digits, which have the indices 31, 30 and so on. */
  function Text(code: Word, k: nat, level: nat): string
    requires |code| == 64 && k <= 32
  {
    if k == 0 then "G"
    else Text(code, k - 1, level) + [Char(Digit(code, 32 - k))] + Separator(32 - k, level)
  }

  /** `ToString`. */
  method ToString(code: Word, level: nat) returns (strOut: string)
    requires |code| == 64 && level <= 32
    ensures strOut == Text(code, level, level)
  {
    strOut := "G";
    var i := 31;
    while i > 31 - level
      invariant 31 - level <= i <= 31 && strOut == Text(code, 31 - i, level)
    {
      var v := Digit(code, i);
      strOut := strOut + [Char(v)];
      if i > 32 - level {
        if i == 23 || i == 17 {
          strOut := strOut + "-";
        }
        if i == 11 {
          strOut := strOut + ".";
        }
      }
      i := i - 1;
    }
  }

  /** `DeCodeChar`. */
  function DeCodeChar(c: char): (v: nat)
    ensures v < 4
  {
    if c == '1' then 1 else if c == '2' then 2 else if c == '3' then 3 else 0
  }

  function Digits(grid: string): nat {
    if grid == "" then 0 else Digits(grid[..|grid| - 1]) + if IsDigit(grid[|grid| - 1]) then 1 else 0
  }

  /** A number below four as a word. */
  function WordOf(v: nat): (r: Word)
    requires v < 4
    ensures |r| == 64
  {
    [v == 1 || v == 3, v >= 2] + Zeros(62)
  }

  /** `id | (v << shift)`, at the place of the next digit. */
  function Placed(id: Word, v: nat, level: nat): (r: Word)
    requires |id| == 64 && v < 4 && level < 32
    ensures |r| == 64
  {
    Or(id, Shl(WordOf(v), (31 - level) * 2))
  }

  /** The digits of a text, at the high end of a code. */
  function Code(grid: string): (r: Word)
    requires Digits(grid) <= 32
    ensures |r| == 64
  {
    if grid == "" then Zeros(64)
    else
      var before, c := grid[..|grid| - 1], grid[|grid| - 1];
      if IsDigit(c) then Placed(Code(before), DeCodeChar(c), Digits(before)) else Code(before)
  }

  lemma {:induction false} FewerDigits(grid: string, n: nat)
    requires n <= |grid|
    ensures Digits(grid[..n]) <= Digits(grid)
  {
    if n == |grid| {
      assert grid[..n] == grid;
    } else {
      FewerDigits(grid[..|grid| - 1], n);
      assert grid[..|grid| - 1][..n] == grid[..n];
    }
  }

  /** `ToCode`. Beyond 32 digits the shift is undefined. */
  method ToCode(grid: string) returns (level: nat, code: Word)
    requires Digits(grid) <= 32
    ensures level == Digits(grid) && code == Code(grid)
  {
    level, code := 0, Zeros(64);
    for n := 0 to |grid|
      invariant Digits(grid[..n]) <= 32 && level == Digits(grid[..n]) && code == Code(grid[..n])
    {
      FewerDigits(grid, n + 1);
      assert grid[..n + 1][..n] == grid[..n];
      var c := grid[n];
      if IsDigit(c) {
        code := Placed(code, DeCodeChar(c), level);
        level := level + 1;
      }
    }
    assert grid[..|grid|] == grid;
  }

  // ---------- there and back ----------

  /** The bits of the first digits, and zeros. */
  predicate IsTop(r: Word, code: Word, level: nat)
    requires |r| == |code| == 64 && level <= 32
  {
    forall i :: 0 <= i < 64 ==> r[i] == (i >= 64 - 2 * level && code[i])
  }

  lemma DigitBits(code: Word, i: nat)
    requires |code| == 64 && i < 32
    ensures WordOf(Digit(code, i))[0] == code[2 * i] && WordOf(Digit(code, i))[1] == code[2 * i + 1]
  {
  }

  /** Putting the next digit at its place. */
  lemma OneDigitMore(id: Word, code: Word, k: nat)
    requires |id| == |code| == 64 && 0 < k <= 32 && IsTop(id, code, k - 1)
    ensures IsTop(Placed(id, Digit(code, 32 - k), k - 1), code, k)
  {
    var w := WordOf(Digit(code, 32 - k));
    DigitBits(code, 32 - k);
    var r := Placed(id, Digit(code, 32 - k), k - 1);
    forall i | 0 <= i < 64 ensures r[i] == (i >= 64 - 2 * k && code[i]) {
      if i >= 64 - 2 * k {
        assert Shl(w, 64 - 2 * k)[i] == w[i - (64 - 2 * k)];
      }
    }
  }

  /** Nothing is set at the places after the digits of a text. */
  lemma {:induction false} NothingAfter(grid: string, i: nat)
    requires Digits(grid) <= 32 && i < 64 - 2 * Digits(grid)
    ensures !Code(grid)[i]
  {
    if grid != "" {
      NothingAfter(grid[..|grid| - 1], i);
    }
  }

  /** What placing a digit sets, and what it leaves. */
  lemma PlacedBits(id: Word, v: nat, level: nat)
    requires |id| == 64 && v < 4 && level < 32 && !id[62 - 2 * level] && !id[63 - 2 * level]
    ensures Placed(id, v, level)[62 - 2 * level] <==> v == 1 || v == 3
    ensures Placed(id, v, level)[63 - 2 * level] <==> v == 2 || v == 3
    ensures forall i :: 64 - 2 * level <= i < 64 ==> Placed(id, v, level)[i] == id[i]
  {
    var w := WordOf(v);
    assert Shl(w, (31 - level) * 2)[62 - 2 * level] == w[0] && Shl(w, (31 - level) * 2)[63 - 2 * level] == w[1];
  }

  lemma LastIsRead(before: string, c: char, j: nat)
    requires Digits(before) == j < 32 && '0' <= c <= '9'
    ensures var code := Code(before + [c]);
            (code[62 - 2 * j] <==> c == '1' || c == '3') && (code[63 - 2 * j] <==> c == '2' || c == '3')
  {
    AddDigit(before, c);
    NothingAfter(before, 62 - 2 * j);
    NothingAfter(before, 63 - 2 * j);
    PlacedBits(Code(before), DeCodeChar(c), j);
  }

  /** A character more leaves the pairs before. */
  lemma PairStays(before: string, c: char, j: nat)
    requires j < Digits(before) && (if IsDigit(c) then Digits(before) < 32 else Digits(before) <= 32)
    ensures Digits(before + [c]) <= 32
    ensures Code(before + [c])[62 - 2 * j] == Code(before)[62 - 2 * j]
    ensures Code(before + [c])[63 - 2 * j] == Code(before)[63 - 2 * j]
  {
    if !IsDigit(c) {
      AddOther(before, c);
    } else {
      AddDigit(before, c);
      NothingAfter(before, 62 - 2 * Digits(before));
      NothingAfter(before, 63 - 2 * Digits(before));
      PlacedBits(Code(before), DeCodeChar(c), Digits(before));
    }
  }

  /** The j-th decimal digit of a text goes to the j-th pair of bits of the code from above, and counts for nothing if
      it is more than three. */
  lemma {:induction false} CodeIsRead(grid: string, n: nat)
    requires Digits(grid) <= 32 && n < |grid| && '0' <= grid[n] <= '9'
    ensures var j := Digits(grid[..n]);
            && j < Digits(grid)
            && (Code(grid)[62 - 2 * j] <==> grid[n] == '1' || grid[n] == '3')
            && (Code(grid)[63 - 2 * j] <==> grid[n] == '2' || grid[n] == '3')
    decreases |grid|
  {
    var before, c := grid[..|grid| - 1], grid[|grid| - 1];
    assert grid == before + [c];
    if n < |before| {
      assert before[..n] == grid[..n];
      CodeIsRead(before, n);
      PairStays(before, c, Digits(grid[..n]));
    } else {
      LastIsRead(before, c, Digits(before));
    }
  }

  lemma AddDigit(grid: string, c: char)
    requires Digits(grid) < 32 && IsDigit(c)
    ensures Digits(grid + [c]) == Digits(grid) + 1
    ensures Code(grid + [c]) == Placed(Code(grid), DeCodeChar(c), Digits(grid))
  {
    assert (grid + [c])[..|grid|] == grid;
  }

  lemma AddOther(grid: string, c: char)
    requires Digits(grid) <= 32 && !IsDigit(c)
    ensures Digits(grid + [c]) == Digits(grid) && Code(grid + [c]) == Code(grid)
  {
    assert (grid + [c])[..|grid|] == grid;
  }

  lemma DigitOfChar(v: nat)
    requires v < 4
    ensures IsDigit(Char(v)) && DeCodeChar(Char(v)) == v
  {
  }

  lemma AddSeparator(grid: string, i: int, level: nat)
    requires Digits(grid) <= 32
    ensures Digits(grid + Separator(i, level)) == Digits(grid) && Code(grid + Separator(i, level)) == Code(grid)
  {
    AddOther(grid, '-');
    AddOther(grid, '.');
    assert grid + "" == grid;
  }

  /** A digit more, with what separates it from the next. */
  lemma TextStep(before: string, v: nat, i: int, level: nat)
    requires Digits(before) < 32 && v < 4
    ensures var more := before + [Char(v)] + Separator(i, level);
            Digits(more) == Digits(before) + 1 && Code(more) == Placed(Code(before), v, Digits(before))
  {
    DigitOfChar(v);
    AddDigit(before, Char(v));
    AddSeparator(before + [Char(v)], i, level);
  }

  lemma NoText()
    ensures Digits("G") == 0 && Code("G") == Zeros(64)
  {
    assert "G" == "" + ['G'];
    AddOther("", 'G');
  }

  /** Reading a text gives its digits back. */
  lemma {:induction false} TextThere(code: Word, k: nat, level: nat)
    requires |code| == 64 && k <= 32
    ensures Digits(Text(code, k, level)) == k && IsTop(Code(Text(code, k, level)), code, k)
  {
    if k == 0 {
      NoText();
    } else {
      var before := Text(code, k - 1, level);
      TextThere(code, k - 1, level);
      TextStep(before, Digit(code, 32 - k), 32 - k, level);
      OneDigitMore(Code(before), code, k);
    }
  }

  /** The first bits of a coordinate, and zeros. */
  predicate IsAxisTop(r: Word, a: Word, level: nat)
    requires |r| == |a| == 32 && level <= 32
  {
    forall j :: 0 <= j < 32 ==> r[j] == (j >= 32 - level && a[j])
  }

  /** The first digits of a code are the first bits of both coordinates. */
  lemma TopOfMagic(lng: Word, lat: Word, top: Word, level: nat)
    requires |lng| == |lat| == 32 && |top| == 64 && level <= 32 && IsTop(top, MagicBits(lng, lat), level)
    ensures IsAxisTop(UnMagicBits(top).0, lng, level) && IsAxisTop(UnMagicBits(top).1, lat, level)
  {
    forall j | 0 <= j < 32
      ensures UnMagicBits(top).0[j] == (j >= 32 - level && lng[j])
      ensures UnMagicBits(top).1[j] == (j >= 32 - level && lat[j])
    {
      MagicIsInterleave(lng, lat, j);
      UnMagicIsApart(top, j);
    }
  }

  /** Of the text of a code, the level and the two coordinates can be read, as far as the level goes. */
  lemma ReadBack(lng: Word, lat: Word, level: nat)
    requires |lng| == |lat| == 32 && level <= 32
    ensures var grid := Text(MagicBits(lng, lat), level, level);
            && Digits(grid) == level
            && IsAxisTop(UnMagicBits(Code(grid)).0, lng, level) && IsAxisTop(UnMagicBits(Code(grid)).1, lat, level)
  {
    var code := MagicBits(lng, lat);
    TextThere(code, level, level);
    TopOfMagic(lng, lat, Code(Text(code, level, level)), level);
  }

  /** Printed, read and taken apart again, a code gives its level and its coordinates, with the bits cleared that the
      level has no digits for. */
  method PrintAndRead(lng: Word, lat: Word, level: nat) returns (level': nat, lng': Word, lat': Word)
    requires |lng| == |lat| == 32 && level <= 32
    ensures level' == level && |lng'| == |lat'| == 32
    ensures forall j :: 0 <= j < 32 ==> lng'[j] == (j >= 32 - level && lng[j]) && lat'[j] == (j >= 32 - level && lat[j])
  {
    ReadBack(lng, lat, level);
    var strOut := ToString(MagicBits(lng, lat), level);
    var top;
    level', top := ToCode(strOut);
    var apart := UnMagicBits(top);
    lng', lat' := apart.0, apart.1;
  }
}
