/** liblwgeom/lookup3.c: `hashlittle2` and its reversible mixer, on 32-bit words that wrap around. */
module Lookup3 {
  import opened Basics

  const WRAP: nat := 0x1_0000_0000

  type word = x: nat | x < WRAP

  datatype State = State(a: word, b: word, c: word)

  // ---------- words ----------

  function Add(x: word, y: word): word {
    if x + y < WRAP then x + y else x + y - WRAP
  }

  function Sub(x: word, y: word): word {
    if x >= y then x - y else x + WRAP - y
  }

  /** Exclusive or, on n bits. */
  function XorBits(x: nat, y: nat, n: nat): (r: nat)
    requires x < Pow2(n) && y < Pow2(n)
    ensures r < Pow2(n)
  {
    if n == 0 then 0 else 2 * XorBits(x / 2, y / 2, n - 1) + if x % 2 == y % 2 then 0 else 1
  }

  function Pow2(n: nat): (r: nat)
    ensures r > 0
  {
    if n == 0 then 1 else 2 * Pow2(n - 1)
  }

  lemma {:induction false} XorTwice(x: nat, y: nat, n: nat)
    requires x < Pow2(n) && y < Pow2(n)
    ensures XorBits(XorBits(x, y, n), y, n) == x
  {
    if n > 0 {
      XorTwice(x / 2, y / 2, n - 1);
      var r := XorBits(x / 2, y / 2, n - 1);
      assert XorBits(x, y, n) / 2 == r;
    }
  }

  lemma Words()
    ensures Pow2(32) == WRAP
  {
    assert Pow2(8) == 256;
    assert Pow2(16) == 65536;
    assert Pow2(24) == 16777216;
  }

  function Xor(x: word, y: word): word {
    Words();
    XorBits(x, y, 32)
  }

  lemma XorUndone(x: word, y: word)
    ensures Xor(Xor(x, y), y) == x
  {
    Words();
    XorTwice(x, y, 32);
  }

  /** `rot`, a bit at a time. */
  function Rot(x: word, k: nat): word {
    if k == 0 then x
    else
      var r := Rot(x, k - 1);
      if r < 0x8000_0000 then 2 * r else 2 * r - WRAP + 1
  }

  // ---------- what the operations on words are ----------

  /** Sums and differences wrap around. */
  lemma Wraps(x: word, y: word)
    ensures Add(x, y) == (x + y) % WRAP && Sub(x, y) == (x - y) % WRAP
  {
  }

  /** Bit i of a number. */
  predicate BitAt(x: nat, i: nat) {
    if i == 0 then x % 2 == 1 else BitAt(x / 2, i - 1)
  }

  /** A bit is set in an exclusive or exactly if it differs in the operands. */
  lemma {:induction false} XorBit(x: nat, y: nat, n: nat, i: nat)
    requires x < Pow2(n) && y < Pow2(n) && i < n
    ensures BitAt(XorBits(x, y, n), i) <==> BitAt(x, i) != BitAt(y, i)
  {
    var rest := XorBits(x / 2, y / 2, n - 1);
    assert XorBits(x, y, n) / 2 == rest;
    if i > 0 {
      XorBit(x / 2, y / 2, n - 1, i - 1);
    }
  }

  lemma XorOfWords(x: word, y: word, i: nat)
    requires i < 32
    ensures BitAt(Xor(x, y), i) <==> BitAt(x, i) != BitAt(y, i)
  {
    Words();
    XorBit(x, y, 32, i);
  }

  lemma Distributes(a: nat, b: nat, q: nat)
    ensures (a + b) * q == a * q + b * q
  {
  }

  lemma Doubles(p: nat, q: nat)
    ensures 2 * p * q == 2 * (p * q) == p * (2 * q)
  {
  }

  lemma {:induction false} PowersMultiply(i: nat, j: nat)
    ensures Pow2(i) * Pow2(j) == Pow2(i + j)
  {
    if i > 0 {
      PowersMultiply(i - 1, j);
      Doubles(Pow2(i - 1), Pow2(j));
    }
  }

  lemma AtMostOneLess(p: nat, t: nat, h: nat)
    requires t < h
    ensures t * p + p <= h * p
  {
    Distributes(t + 1, h - t - 1, p);
    Distributes(t, 1, p);
  }

  /** One bit goes round: the highest of the others becomes the lowest. */
  lemma OneRound(p: nat, q: nat, bit: nat, low: nat, rest: nat, more: nat, r: nat)
    requires p * q == 0x8000_0000 && bit <= 1 && low < p && rest < q
    requires more == (if bit == 0 then low else p + low) && r == more * q + rest
    ensures r < 0x8000_0000 <==> bit == 0
    ensures low * (2 * q) + (2 * rest + bit) == if bit == 0 then 2 * r else 2 * r - WRAP + 1
  {
    AtMostOneLess(q, low, p);
    Doubles(low, q);
    Distributes(p, low, q);
  }

  /** The high k bits and the others change places. */
  lemma {:induction false} Rotated(x: word, k: nat, p: nat, q: nat, high: nat, low: nat)
    requires k <= 32 && p == Pow2(32 - k) && q == Pow2(k) && x == high * p + low && low < p && high < q
    ensures Rot(x, k) == low * q + high
  {
    if k > 0 {
      var half := Pow2(k - 1);
      var rest, bit, more := Regroup(high, p, low);
      HalfWordSplits(k);
      Rotated(x, k - 1, 2 * p, half, rest, more);
      OneRound(p, half, bit, low, rest, more, Rot(x, k - 1));
    } else {
      assert high == 0;
    }
  }

  lemma HalfWordSplits(k: nat)
    requires 0 < k <= 32
    ensures Pow2(32 - k) * Pow2(k - 1) == 0x8000_0000
  {
    PowersMultiply(32 - k, k - 1);
    Words();
  }

  lemma Regroup(high: nat, p: nat, low: nat) returns (rest: nat, bit: nat, more: nat)
    requires low < p
    ensures bit <= 1 && high == 2 * rest + bit && more == (if bit == 0 then low else p + low) < 2 * p
    ensures high * p + low == rest * (2 * p) + more
  {
    rest, bit := high / 2, high % 2;
    more := if bit == 0 then low else p + low;
    Distributes(2 * rest, bit, p);
    Doubles(rest, p);
  }

  lemma ProductGrows(m: nat, h: nat, p: nat)
    ensures m <= h ==> m * p <= h * p
  {
    if m <= h {
      Distributes(m, h - m, p);
    }
  }

  lemma FactorBelow(h: nat, p: nat, r: nat, m: nat)
    requires h * p + r < m * p
    ensures h < m
  {
    ProductGrows(m, h, p);
  }

  lemma WordSplits(k: nat)
    requires k <= 32
    ensures Pow2(k) * Pow2(32 - k) == WRAP
  {
    PowersMultiply(k, 32 - k);
    Words();
  }

  /** `((x)<<(k)) | ((x)>>(32-(k)))`: the high k bits of a word and the others change places. */
  lemma RotIsRotation(x: word, k: nat, high: nat, low: nat)
    requires k <= 32 && x == high * Pow2(32 - k) + low && low < Pow2(32 - k)
    ensures Rot(x, k) == low * Pow2(k) + high && high < Pow2(k)
  {
    WordSplits(k);
    FactorBelow(high, Pow2(32 - k), low, Pow2(k));
    Rotated(x, k, Pow2(32 - k), Pow2(k), high, low);
  }

  // ---------- the mixer ----------

  /** A line of `mix`: `a -= c; a ^= rot(c,k); c += b`, after which b, c and a take the parts of a, b and c. */
  function Stir(s: State, k: nat): State {
    State(s.b, Add(s.c, s.b), Xor(Sub(s.a, s.c), Rot(s.c, k)))
  }

  function Unstir(s: State, k: nat): State {
    var c := Sub(s.b, s.a);
    State(Add(Xor(s.c, Rot(c, k)), c), s.a, c)
  }

  lemma StirThere(s: State, k: nat)
    ensures Unstir(Stir(s, k), k) == s
  {
    XorUndone(Sub(s.a, s.c), Rot(s.c, k));
  }

  lemma StirBack(s: State, k: nat)
    ensures Stir(Unstir(s, k), k) == s
  {
    XorUndone(s.c, Rot(Sub(s.b, s.a), k));
  }

  function Stirred(ks: seq<nat>, s: State): State {
    if ks == [] then s else Stirred(ks[1..], Stir(s, ks[0]))
  }

  function Unstirred(s: State, ks: seq<nat>): State {
    if ks == [] then s else Unstir(Unstirred(s, ks[1..]), ks[0])
  }

  lemma {:induction false} StirredIsReversible(s: State, ks: seq<nat>)
    ensures Unstirred(Stirred(ks, s), ks) == s && Stirred(ks, Unstirred(s, ks)) == s
    decreases ks
  {
    if ks != [] {
      StirredIsReversible(Stir(s, ks[0]), ks[1..]);
      StirThere(s, ks[0]);
      StirredIsReversible(s, ks[1..]);
      StirBack(Unstirred(s, ks[1..]), ks[0]);
    }
  }

  const MIX_SHIFTS: seq<nat> := [4, 6, 8, 16, 19, 4]

  function Mixed(s: State): State {
    Stirred(MIX_SHIFTS, s)
  }

  lemma FirstStir(s: State, k: nat, ks: seq<nat>)
    ensures Stirred([k] + ks, s) == Stirred(ks, Stir(s, k))
  {
    assert ([k] + ks)[1..] == ks;
  }

  lemma SixStirs(s: State, i: nat, j: nat, k: nat, l: nat, m: nat, n: nat)
    ensures Stirred([i, j, k, l, m, n], s) == Stir(Stir(Stir(Stir(Stir(Stir(s, i), j), k), l), m), n)
  {
    assert [i, j, k, l, m, n] == [i] + [j, k, l, m, n];
    assert [j, k, l, m, n] == [j] + [k, l, m, n];
    assert [k, l, m, n] == [k] + [l, m, n];
    assert [l, m, n] == [l] + [m, n];
    assert [m, n] == [m] + [n];
    FirstStir(s, i, [j, k, l, m, n]);
    var s1 := Stir(s, i);
    FirstStir(s1, j, [k, l, m, n]);
    var s2 := Stir(s1, j);
    FirstStir(s2, k, [l, m, n]);
    var s3 := Stir(s2, k);
    FirstStir(s3, l, [m, n]);
    var s4 := Stir(s3, l);
    FirstStir(s4, m, [n]);
    var s5 := Stir(s4, m);
    FirstStir(s5, n, []);
  }

  /** The lines of `mix`. */
  lemma MixLines(s0: State, s1: State, s2: State, s3: State, s4: State, s5: State, s6: State)
    requires s1 == s0.(a := Xor(Sub(s0.a, s0.c), Rot(s0.c, 4)), c := Add(s0.c, s0.b))
    requires s2 == s1.(b := Xor(Sub(s1.b, s1.a), Rot(s1.a, 6)), a := Add(s1.a, s1.c))
    requires s3 == s2.(c := Xor(Sub(s2.c, s2.b), Rot(s2.b, 8)), b := Add(s2.b, s2.a))
    requires s4 == s3.(a := Xor(Sub(s3.a, s3.c), Rot(s3.c, 16)), c := Add(s3.c, s3.b))
    requires s5 == s4.(b := Xor(Sub(s4.b, s4.a), Rot(s4.a, 19)), a := Add(s4.a, s4.c))
    requires s6 == s5.(c := Xor(Sub(s5.c, s5.b), Rot(s5.b, 4)), b := Add(s5.b, s5.a))
    ensures Mixed(s0) == s6
  {
    SixStirs(s0, 4, 6, 8, 16, 19, 4);
  }

  /** One line of `mix`. */
  method MixLine(a0: word, b0: word, c0: word, k: nat) returns (a: word, b: word, c: word)
    ensures State(b, c, a) == Stir(State(a0, b0, c0), k) && b == b0
  {
    a, b, c := a0, b0, c0;
    a := Sub(a, c);
    a := Xor(a, Rot(c, k));
    c := Add(c, b);
  }

  /** `mix`. */
  method Mix(s: State) returns (r: State)
    ensures r == Mixed(s)
  {
    var a, b, c := s.a, s.b, s.c;
    a, b, c := MixLine(a, b, c, 4);
    b, c, a := MixLine(b, c, a, 6);
    c, a, b := MixLine(c, a, b, 8);
    a, b, c := MixLine(a, b, c, 16);
    b, c, a := MixLine(b, c, a, 19);
    c, a, b := MixLine(c, a, b, 4);
    SixStirs(s, 4, 6, 8, 16, 19, 4);
    r := State(a, b, c);
  }

  // ---------- the final mixing ----------

  /** A line of `final`: `c ^= b; c -= rot(b,k)`, after which b, c and a take the parts of a, b and c. */
  function Blend(s: State, k: nat): State {
    State(s.b, Sub(Xor(s.c, s.b), Rot(s.b, k)), s.a)
  }

  function Unblend(s: State, k: nat): State {
    State(s.c, s.a, Xor(Add(s.b, Rot(s.a, k)), s.a))
  }

  lemma BlendThere(s: State, k: nat)
    ensures Unblend(Blend(s, k), k) == s
  {
    XorUndone(s.c, s.b);
  }

  lemma BlendBack(s: State, k: nat)
    ensures Blend(Unblend(s, k), k) == s
  {
    XorUndone(Add(s.b, Rot(s.a, k)), s.a);
  }

  function Blended(ks: seq<nat>, s: State): State {
    if ks == [] then s else Blended(ks[1..], Blend(s, ks[0]))
  }

  function Unblended(s: State, ks: seq<nat>): State {
    if ks == [] then s else Unblend(Unblended(s, ks[1..]), ks[0])
  }

  lemma {:induction false} BlendedIsReversible(s: State, ks: seq<nat>)
    ensures Unblended(Blended(ks, s), ks) == s && Blended(ks, Unblended(s, ks)) == s
    decreases ks
  {
    if ks != [] {
      BlendedIsReversible(Blend(s, ks[0]), ks[1..]);
      BlendThere(s, ks[0]);
      BlendedIsReversible(s, ks[1..]);
      BlendBack(Unblended(s, ks[1..]), ks[0]);
    }
  }

  const FINAL_SHIFTS: seq<nat> := [14, 11, 25, 16, 4, 14, 24]

  /** Seven lines leave each part one place on. */
  function Finished(s: State): State {
    var r := Blended(FINAL_SHIFTS, s);
    State(r.c, r.a, r.b)
  }

  lemma FirstBlend(s: State, k: nat, ks: seq<nat>)
    ensures Blended([k] + ks, s) == Blended(ks, Blend(s, k))
  {
    assert ([k] + ks)[1..] == ks;
  }

  lemma SevenBlends(s: State, i: nat, j: nat, k: nat, l: nat, m: nat, n: nat, o: nat)
    ensures Blended([i, j, k, l, m, n, o], s) ==
            Blend(Blend(Blend(Blend(Blend(Blend(Blend(s, i), j), k), l), m), n), o)
  {
    assert [i, j, k, l, m, n, o] == [i] + [j, k, l, m, n, o];
    assert [j, k, l, m, n, o] == [j] + [k, l, m, n, o];
    assert [k, l, m, n, o] == [k] + [l, m, n, o];
    assert [l, m, n, o] == [l] + [m, n, o];
    assert [m, n, o] == [m] + [n, o];
    assert [n, o] == [n] + [o];
    FirstBlend(s, i, [j, k, l, m, n, o]);
    var s1 := Blend(s, i);
    FirstBlend(s1, j, [k, l, m, n, o]);
    var s2 := Blend(s1, j);
    FirstBlend(s2, k, [l, m, n, o]);
    var s3 := Blend(s2, k);
    FirstBlend(s3, l, [m, n, o]);
    var s4 := Blend(s3, l);
    FirstBlend(s4, m, [n, o]);
    var s5 := Blend(s4, m);
    FirstBlend(s5, n, [o]);
    var s6 := Blend(s5, n);
    FirstBlend(s6, o, []);
  }

  /** The lines of `final`. */
  lemma FinalLines(s0: State, s1: State, s2: State, s3: State, s4: State, s5: State, s6: State, s7: State)
    requires s1 == s0.(c := Sub(Xor(s0.c, s0.b), Rot(s0.b, 14)))
    requires s2 == s1.(a := Sub(Xor(s1.a, s1.c), Rot(s1.c, 11)))
    requires s3 == s2.(b := Sub(Xor(s2.b, s2.a), Rot(s2.a, 25)))
    requires s4 == s3.(c := Sub(Xor(s3.c, s3.b), Rot(s3.b, 16)))
    requires s5 == s4.(a := Sub(Xor(s4.a, s4.c), Rot(s4.c, 4)))
    requires s6 == s5.(b := Sub(Xor(s5.b, s5.a), Rot(s5.a, 14)))
    requires s7 == s6.(c := Sub(Xor(s6.c, s6.b), Rot(s6.b, 24)))
    ensures Finished(s0) == s7
  {
    SevenBlends(s0, 14, 11, 25, 16, 4, 14, 24);
  }

  /** One line of `final`. */
  method FinalLine(c0: word, b: word, k: nat) returns (c: word)
    ensures forall a :: Blend(State(a, b, c0), k) == State(b, c, a)
  {
    c := Xor(c0, b);
    c := Sub(c, Rot(b, k));
  }

  /** `final`. */
  method Final(s: State) returns (r: State)
    ensures r == Finished(s)
  {
    var a, b, c := s.a, s.b, s.c;
    c := FinalLine(c, b, 14);
    a := FinalLine(a, c, 11);
    b := FinalLine(b, a, 25);
    c := FinalLine(c, b, 16);
    a := FinalLine(a, c, 4);
    b := FinalLine(b, a, 14);
    c := FinalLine(c, b, 24);
    SevenBlends(s, 14, 11, 25, 16, 4, 14, 24);
    r := State(a, b, c);
  }

  /** Both mixers lose nothing: different states stay different, and every state comes of one. */
  lemma MixersAreBijections(s: State, t: State)
    ensures Mixed(s) == Mixed(t) ==> s == t
    ensures Finished(s) == Finished(t) ==> s == t
    ensures Mixed(Unstirred(t, MIX_SHIFTS)) == t
    ensures Finished(Unblended(State(t.b, t.c, t.a), FINAL_SHIFTS)) == t
  {
    StirredIsReversible(s, MIX_SHIFTS);
    StirredIsReversible(t, MIX_SHIFTS);
    BlendedIsReversible(s, FINAL_SHIFTS);
    BlendedIsReversible(t, FINAL_SHIFTS);
    BlendedIsReversible(State(t.b, t.c, t.a), FINAL_SHIFTS);
  }
}
