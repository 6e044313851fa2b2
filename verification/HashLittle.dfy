/** `hashlittle2` of liblwgeom/lookup3.c: three ways to read a key, and one hash. */
module HashLittle {
  import opened Basics
  import opened Lookup3

  // ---------- the hash of a key ----------

  function ByteAt(key: seq<byte>, i: nat): byte {
    if i < |key| then key[i] else 0
  }

  function Limit(n: nat): nat {
    if n == 0 then 1 else 0x100 * Limit(n - 1)
  }

  /** The memory a key lies in, which goes on after it. */
  type Memory = nat -> byte

  /** The number n bytes make, low byte first. */
  function Number(m: Memory, n: nat, at: nat): (x: nat)
    ensures x < Limit(n)
  {
    if n == 0 then 0 else m(at) + 0x100 * Number(m, n - 1, at + 1)
  }

  function NumberOf(m: Memory, n: nat, at: nat): word
    requires n <= 4
  {
    LimitOfFour(n);
    Number(m, n, at)
  }

  lemma LimitOfFour(n: nat)
    requires n <= 4
    ensures Limit(n) <= Limit(4) == WRAP
  {
    assert Limit(1) == 0x100 && Limit(2) == 0x10000 && Limit(3) == 0x1000000;
  }

  /** The memory of a key alone. */
  function Alone(key: seq<byte>): Memory {
    i => ByteAt(key, i)
  }

  /** Four bytes, with zeros after the end of the key. */
  function Load(key: seq<byte>, at: nat): word {
    NumberOf(Alone(key), 4, at)
  }

  function Plus(s: State, key: seq<byte>, at: nat): State {
    State(Add(s.a, Load(key, at)), Add(s.b, Load(key, at + 4)), Add(s.c, Load(key, at + 8)))
  }

  /** Block i is added and mixed in. */
  function Next(key: seq<byte>, s: State, i: nat): State {
    Mixed(Plus(s, key, 12 * i))
  }

  /** The last block is added, with the final mixing. */
  function Last(key: seq<byte>, s: State, i: nat): State {
    Finished(Plus(s, key, 12 * i))
  }

  /** What a block, by its number, does to the state. */
  type Step = (State, nat) -> State

  function BlockOf(key: seq<byte>): Step {
    (s: State, i: nat) => Next(key, s, i)
  }

  function LastOf(key: seq<byte>): Step {
    (s: State, i: nat) => Last(key, s, i)
  }

  /** The state after n blocks. */
  function Run(step: Step, s: State, n: nat): State {
    if n == 0 then s else step(Run(step, s, n - 1), n - 1)
  }

  function RunAll(block: Step, last: Step, s: State, length: nat): State {
    var t := Run(block, s, Whole(length));
    if length == 0 then t else last(t, Whole(length))
  }

  function Start(length: nat, pc: word, pb: word): State {
    var a := Add(Add(0xdead_beef, length % WRAP), pc);
    State(a, a, Add(a, pb))
  }

  /** All blocks but the last, which may be short. */
  function Whole(length: nat): (n: nat)
    ensures length > 0 ==> 12 * n < length <= 12 * n + 12
  {
    if length == 0 then 0 else (length - 1) / 12
  }

  lemma WholeIs(length: nat, n: nat)
    requires if length == 0 then n == 0 else 12 * n < length <= 12 * n + 12
    ensures n == Whole(length)
  {
  }

  /** The state whose parts are given back. */
  function Digest(key: seq<byte>, pc: word, pb: word): State {
    RunAll(BlockOf(key), LastOf(key), Start(|key|, pc, pb), |key|)
  }

  // ---------- reading memory ----------

  /** Aligned words, aligned half words or bytes. */
  datatype Reads = Words | Halves | Bytes

  ghost predicate HoldsKey(m: Memory, key: seq<byte>) {
    forall i: nat {:trigger m(i), key[i]} :: i < |key| ==> m(i) == key[i]
  }

  function AtMost(left: nat, n: nat): nat {
    if left < n then left else n
  }

  function Left(length: nat, at: nat): nat {
    if at < length then length - at else 0
  }

  /** What there is of a number in a key is the number with zeros for the rest. */
  lemma {:induction false} NumberInKey(m: Memory, key: seq<byte>, at: nat, n: nat)
    requires HoldsKey(m, key)
    ensures Number(m, AtMost(Left(|key|, at), n), at) == Number(Alone(key), n, at)
    decreases n
  {
    if n > 0 {
      if at < |key| {
        assert m(at) == key[at];
        NumberInKey(m, key, at + 1, n - 1);
      } else {
        Zeros(key, at, n);
      }
    }
  }

  lemma {:induction false} Zeros(key: seq<byte>, at: nat, n: nat)
    requires at >= |key|
    ensures Number(Alone(key), n, at) == 0
    decreases n
  {
    if n > 0 {
      Zeros(key, at + 1, n - 1);
    }
  }

  /** The low bytes of a number: `k & 0xff`, `k & 0xffff` or `k & 0xffffff`. */
  function Low(x: nat, bytes: nat): (r: nat)
    ensures r <= x
  {
    if bytes == 0 then 0 else x % 0x100 + 0x100 * Low(x / 0x100, bytes - 1)
  }

  lemma {:induction false} LowOfNumber(m: Memory, at: nat, left: nat, n: nat)
    requires left <= n
    ensures Low(Number(m, n, at), left) == Number(m, left, at)
    decreases n
  {
    if left > 0 {
      var rest := Number(m, n - 1, at + 1);
      assert Number(m, n, at) % 0x100 == m(at) && Number(m, n, at) / 0x100 == rest;
      LowOfNumber(m, at + 1, left - 1, n - 1);
    }
  }

  lemma TwoAndMore(m: Memory, at: nat, n: nat)
    ensures Number(m, n + 2, at) == Number(m, 2, at) + 0x10000 * Number(m, n, at + 2)
  {
    assert Number(m, n + 1, at + 1) == m(at + 1) + 0x100 * Number(m, n, at + 2);
    assert Number(m, 2, at) == m(at) + 0x100 * m(at + 1);
  }

  /** `((uint32_t)k[1])<<8` and its likes. */
  function Shifted(b: byte, k: nat): (x: nat)
    ensures x < Limit(k + 1)
  {
    if k == 0 then b else 0x100 * Shifted(b, k - 1)
  }

  function ShiftedWord(b: byte, k: nat): word
    requires k < 4
  {
    LimitOfFour(k + 1);
    Shifted(b, k)
  }

  lemma {:induction false} NextByte(m: Memory, at: nat, k: nat)
    ensures Number(m, k + 1, at) == Number(m, k, at) + Shifted(m(at + k), k)
    decreases k
  {
    if k > 0 {
      NextByte(m, at + 1, k - 1);
    }
  }

  lemma AddTwice(x: word, p: word, q: word)
    requires p + q < WRAP
    ensures Add(Add(x, p), q) == Add(x, p + q)
  {
  }

  /** A byte more, from the low end. */
  lemma AddUp(x: word, m: Memory, at: nat, k: nat)
    requires k < 4
    ensures Add(Add(x, NumberOf(m, k, at)), ShiftedWord(m(at + k), k)) == Add(x, NumberOf(m, k + 1, at))
  {
    NextByte(m, at, k);
    AddTwice(x, NumberOf(m, k, at), ShiftedWord(m(at + k), k));
  }

  /** The bytes from k on, of n. */
  function High(m: Memory, at: nat, n: nat, k: nat): word
    requires k <= n <= 4
  {
    HighFits(m, at, n, k);
    Number(m, n, at) - Number(m, k, at)
  }

  lemma {:induction false} HighFits(m: Memory, at: nat, n: nat, k: nat)
    requires k <= n <= 4
    ensures Number(m, k, at) <= Number(m, n, at) < WRAP
  {
    if k < n {
      HighFits(m, at, n - 1, k);
      NextByte(m, at, n - 1);
    }
    LimitOfFour(n);
  }

  /** A byte more, from the high end. */
  lemma AddDown(x: word, m: Memory, at: nat, n: nat, k: nat)
    requires k < n <= 4
    ensures Add(Add(x, High(m, at, n, k + 1)), ShiftedWord(m(at + k), k)) == Add(x, High(m, at, n, k))
  {
    NextByte(m, at, k);
    HighFits(m, at, n, k);
    AddTwice(x, High(m, at, n, k + 1), ShiftedWord(m(at + k), k));
  }

  method AddUpTo(ghost x: word, m: Memory, at: nat, k: nat, sum: word) returns (y: word)
    requires k < 4 && sum == Add(x, NumberOf(m, k, at))
    ensures y == Add(x, NumberOf(m, k + 1, at))
  {
    AddUp(x, m, at, k);
    y := Add(sum, ShiftedWord(m(at + k), k));
  }

  /** A word of a whole block, a byte at a time. */
  method AddBytes(x: word, m: Memory, at: nat) returns (y: word)
    ensures y == Add(x, NumberOf(m, 4, at))
  {
    y := AddUpTo(x, m, at, 0, x);
    y := AddUpTo(x, m, at, 1, y);
    y := AddUpTo(x, m, at, 2, y);
    y := AddUpTo(x, m, at, 3, y);
  }

  /** A word of a whole block is added. */
  method AddWord(how: Reads, x: word, m: Memory, at: nat) returns (y: word)
    ensures y == Add(x, NumberOf(m, 4, at))
  {
    match how
    case Words =>
      y := Add(x, NumberOf(m, 4, at));
    case Halves =>
      TwoAndMore(m, at, 2);
      y := Add(x, NumberOf(m, 2, at) + 0x10000 * NumberOf(m, 2, at + 2));
    case Bytes =>
      y := AddBytes(x, m, at);
  }

  /** The cases of the switch fall through to the lower bytes. */
  method AddLastBytes(x: word, m: Memory, at: nat, n: nat) returns (y: word)
    requires n <= 4
    ensures y == Add(x, NumberOf(m, n, at))
  {
    y := x;
    if n > 3 {
      y := AddDownTo(x, m, at, n, 3, y);
    }
    assert y == Add(x, High(m, at, n, AtMost(3, n)));
    if n > 2 {
      y := AddDownTo(x, m, at, n, 2, y);
    }
    assert y == Add(x, High(m, at, n, AtMost(2, n)));
    if n > 1 {
      y := AddDownTo(x, m, at, n, 1, y);
    }
    assert y == Add(x, High(m, at, n, AtMost(1, n)));
    if n > 0 {
      y := AddDownTo(x, m, at, n, 0, y);
    }
  }

  method AddDownTo(ghost x: word, m: Memory, at: nat, ghost n: nat, k: nat, sum: word) returns (y: word)
    requires k < n <= 4 && sum == Add(x, High(m, at, n, k + 1))
    ensures y == Add(x, High(m, at, n, k))
  {
    AddDown(x, m, at, n, k);
    y := Add(sum, ShiftedWord(m(at + k), k));
  }

  /** A third byte is added first, and then the half word below it. */
  method AddLastHalves(x: word, m: Memory, at: nat, n: nat) returns (y: word)
    requires n <= 4
    ensures y == Add(x, NumberOf(m, n, at))
  {
    y := x;
    if n == 4 {
      TwoAndMore(m, at, 2);
      y := Add(y, NumberOf(m, 2, at) + 0x10000 * NumberOf(m, 2, at + 2));
    } else if n == 3 {
      NextByte(m, at, 2);
      AddTwice(x, ShiftedWord(m(at + 2), 2), NumberOf(m, 2, at));
      y := Add(y, ShiftedWord(m(at + 2), 2));
      y := Add(y, NumberOf(m, 2, at));
    } else if n == 2 {
      y := Add(y, NumberOf(m, 2, at));
    } else if n == 1 {
      y := Add(y, m(at));
    }
  }

  /** What there is of a word of the last block is added. The words look past the end of the key, and mask. */
  method AddLast(how: Reads, x: word, m: Memory, at: nat, left: nat) returns (y: word)
    ensures y == Add(x, NumberOf(m, AtMost(left, 4), at))
  {
    var n := AtMost(left, 4);
    match how
    case Words =>
      LowOfNumber(m, at, n, 4);
      y := Add(x, Low(NumberOf(m, 4, at), n));
    case Halves =>
      y := AddLastHalves(x, m, at, n);
    case Bytes =>
      y := AddLastBytes(x, m, at, n);
  }

  method AddBlock(how: Reads, s: State, m: Memory, at: nat, ghost key: seq<byte>) returns (r: State)
    requires HoldsKey(m, key) && at + 12 <= |key|
    ensures r == Plus(s, key, at)
  {
    NumberInKey(m, key, at, 4);
    NumberInKey(m, key, at + 4, 4);
    NumberInKey(m, key, at + 8, 4);
    var a := AddWord(how, s.a, m, at);
    var b := AddWord(how, s.b, m, at + 4);
    var c := AddWord(how, s.c, m, at + 8);
    r := State(a, b, c);
  }

  method AddLastBlock(how: Reads, s: State, m: Memory, at: nat, length: nat, ghost key: seq<byte>)
    returns (r: State)
    requires HoldsKey(m, key) && |key| == at + length
    ensures r == Plus(s, key, at)
  {
    NumberInKey(m, key, at, 4);
    NumberInKey(m, key, at + 4, 4);
    NumberInKey(m, key, at + 8, 4);
    var c := AddLast(how, s.c, m, at + 8, Left(length, 8));
    var b := AddLast(how, s.b, m, at + 4, Left(length, 4));
    var a := AddLast(how, s.a, m, at, length);
    r := State(a, b, c);
  }

  /** The steps are those of the key, where they are looked at. */
  ghost predicate StepsOf(block: Step, key: seq<byte>) {
    forall s: State, i: nat {:trigger block(s, i), Next(key, s, i)} :: block(s, i) == Next(key, s, i)
  }

  method AddAndMix(how: Reads, s: State, m: Memory, at: nat, ghost key: seq<byte>, ghost i: nat, ghost block: Step)
    returns (r: State)
    requires HoldsKey(m, key) && at == 12 * i && at + 12 <= |key| && StepsOf(block, key)
    ensures r == block(s, i)
  {
    r := AddBlock(how, s, m, at, key);
    r := Mix(r);
    assert r == Next(key, s, i);
  }

  /** The loop over all blocks but the last. */
  method AddBlocks(how: Reads, start: State, m: Memory, size: nat, ghost key: seq<byte>, ghost block: Step)
    returns (s: State, at: nat)
    requires HoldsKey(m, key) && |key| == size && StepsOf(block, key)
    ensures at == 12 * Whole(size) && s == Run(block, start, Whole(size))
  {
    var length := size;
    s, at := start, 0;
    ghost var n := 0;
    while length > 12
      invariant at == 12 * n && at + length == size && (size > 0 ==> length > 0)
      invariant s == Run(block, start, n)
    {
      s := AddAndMix(how, s, m, at, key, n, block);
      length := length - 12;
      at := at + 12;
      n := n + 1;
    }
    WholeIs(size, n);
  }

  /** The end of the hash, after the whole blocks. */
  method AddTail(how: Reads, s: State, m: Memory, at: nat, size: nat, ghost key: seq<byte>) returns (r: State)
    requires HoldsKey(m, key) && |key| == size && at == 12 * Whole(size)
    ensures r == if size == 0 then s else LastOf(key)(s, Whole(size))
  {
    r := s;
    if at < size {
      r := AddLastBlock(how, r, m, at, size - at, key);
      r := Final(r);
    }
  }

  /** `hashlittle2`: however the key is read, the hash is that of its bytes, whatever comes after it in memory. */
  method HashLittle2(m: Memory, size: nat, address: nat, littleEndian: bool, pc: word, pb: word, ghost key: seq<byte>)
    returns (pc': word, pb': word)
    requires HoldsKey(m, key) && |key| == size
    ensures pc' == Digest(key, pc, pb).c && pb' == Digest(key, pc, pb).b
  {
    var how := if littleEndian && address % 4 == 0 then Words
               else if littleEndian && address % 2 == 0 then Halves
               else Bytes;
    var a := Add(Add(0xdead_beef, size % WRAP), pc);
    var s, at := AddBlocks(how, State(a, a, Add(a, pb)), m, size, key, BlockOf(key));
    s := AddTail(how, s, m, at, size, key);
    return s.c, s.b;
  }

  // ---------- what it starts from ----------

  /** All three parts start from 0xdeadbeef, the length and the primary seed, the third from the other seed too. */
  lemma StartIsSum(length: nat, pc: word, pb: word)
    ensures Start(length, pc, pb).a == Start(length, pc, pb).b == (0xdead_beef + length + pc) % WRAP
    ensures Start(length, pc, pb).c == (0xdead_beef + length + pc + pb) % WRAP
  {
    var a := Add(0xdead_beef, length % WRAP);
    SumWraps(0xdead_beef, length, a);
    SumWraps(0xdead_beef + length, pc, Add(a, pc));
    SumWraps(0xdead_beef + length + pc, pb, Add(Add(a, pc), pb));
  }

  lemma SumWraps(x: nat, y: nat, r: word)
    requires r == Add(x % WRAP, y % WRAP)
    ensures r == (x + y) % WRAP
  {
    var p, q := x / WRAP, y / WRAP;
    assert x + y == WRAP * (p + q) + (x % WRAP + y % WRAP);
  }

  /** Nothing is mixed for an empty key. */
  lemma EmptyKey()
    ensures Digest([], 0, 0) == State(0xdead_beef, 0xdead_beef, 0xdead_beef)
  {
  }

  /** Up to twelve bytes are one block, with zeros for what is missing, and mixed once. */
  lemma ShortKey(key: seq<byte>, pc: word, pb: word)
    requires 0 < |key| <= 12
    ensures Digest(key, pc, pb) == Finished(Plus(Start(|key|, pc, pb), key, 0))
  {
    WholeIs(|key|, 0);
  }

  // ---------- what is not lost ----------

  lemma AddCancels(x: word, y: word, z: word)
    ensures Add(x, z) == Add(y, z) ==> x == y
    ensures Add(z, x) == Add(z, y) ==> x == y
  {
  }

  lemma PlusIsInjective(s: State, t: State, key: seq<byte>, at: nat)
    ensures Plus(s, key, at) == Plus(t, key, at) ==> s == t
  {
    AddCancels(s.a, t.a, Load(key, at));
    AddCancels(s.b, t.b, Load(key, at + 4));
    AddCancels(s.c, t.c, Load(key, at + 8));
  }

  ghost predicate Injective(step: Step) {
    forall s, t, i :: step(s, i) == step(t, i) ==> s == t
  }

  lemma StepsAreInjective(key: seq<byte>)
    ensures Injective(BlockOf(key)) && Injective(LastOf(key))
  {
    forall s: State, t: State, i: nat | BlockOf(key)(s, i) == BlockOf(key)(t, i) ensures s == t {
      MixersAreBijections(Plus(s, key, 12 * i), Plus(t, key, 12 * i));
      PlusIsInjective(s, t, key, 12 * i);
    }
    forall s: State, t: State, i: nat | LastOf(key)(s, i) == LastOf(key)(t, i) ensures s == t {
      MixersAreBijections(Plus(s, key, 12 * i), Plus(t, key, 12 * i));
      PlusIsInjective(s, t, key, 12 * i);
    }
  }

  /** Different states stay different over the same blocks. */
  lemma {:induction false} RunIsInjective(step: Step, s: State, t: State, n: nat)
    requires Injective(step) && s != t
    ensures Run(step, s, n) != Run(step, t, n)
  {
    if n > 0 {
      RunIsInjective(step, s, t, n - 1);
    }
  }

  lemma RunAllIsInjective(block: Step, last: Step, s: State, t: State, length: nat)
    requires Injective(block) && Injective(last) && s != t
    ensures RunAll(block, last, s, length) != RunAll(block, last, t, length)
  {
    RunIsInjective(block, s, t, Whole(length));
  }

  lemma StartsDiffer(length: nat, pc: word, pb: word, pc': word, pb': word)
    requires (pc, pb) != (pc', pb')
    ensures Start(length, pc, pb) != Start(length, pc', pb')
  {
    var base := Add(0xdead_beef, length % WRAP);
    AddCancels(pc, pc', base);
    AddCancels(pb, pb', Add(base, pc));
  }

  /** Different seeds give every key different digests. */
  lemma SeedsStayApart(key: seq<byte>, pc: word, pb: word, pc': word, pb': word)
    requires (pc, pb) != (pc', pb')
    ensures Digest(key, pc, pb) != Digest(key, pc', pb')
  {
    StepsAreInjective(key);
    StartsDiffer(|key|, pc, pb, pc', pb');
    RunAllIsInjective(BlockOf(key), LastOf(key), Start(|key|, pc, pb), Start(|key|, pc', pb'), |key|);
  }

  /** Two keys of one length that differ in block n only. */
  ghost predicate DifferInBlock(key: seq<byte>, other: seq<byte>, n: nat) {
    && |key| == |other| && (exists i :: 0 <= i < |key| && key[i] != other[i])
    && forall i :: 0 <= i < |key| && !(12 * n <= i < 12 * n + 12) ==> key[i] == other[i]
  }

  lemma {:induction false} NumberIsInjective(m: Memory, m': Memory, at: nat, n: nat)
    requires Number(m, n, at) == Number(m', n, at)
    ensures forall i :: at <= i < at + n ==> m(i) == m'(i)
    decreases n
  {
    if n > 0 {
      assert m(at) == Number(m, n, at) % 0x100 && m'(at) == Number(m', n, at) % 0x100;
      NumberIsInjective(m, m', at + 1, n - 1);
    }
  }

  lemma LoadIsInjective(key: seq<byte>, other: seq<byte>, at: nat)
    requires |key| == |other| && Load(key, at) == Load(other, at)
    ensures forall i :: at <= i < at + 4 && i < |key| ==> key[i] == other[i]
  {
    NumberIsInjective(Alone(key), Alone(other), at, 4);
    forall i | at <= i < at + 4 && i < |key| ensures key[i] == other[i] {
      assert Alone(key)(i) == Alone(other)(i);
    }
  }

  lemma {:induction false} SameNumber(m: Memory, m': Memory, at: nat, n: nat)
    requires forall i :: at <= i < at + n ==> m(i) == m'(i)
    ensures Number(m, n, at) == Number(m', n, at)
    decreases n
  {
    if n > 0 {
      SameNumber(m, m', at + 1, n - 1);
    }
  }

  lemma PlusShowsBlock(s: State, key: seq<byte>, other: seq<byte>, at: nat)
    requires |key| == |other| && Plus(s, key, at) == Plus(s, other, at)
    ensures forall i :: at <= i < at + 12 && i < |key| ==> key[i] == other[i]
  {
    AddCancels(Load(key, at), Load(other, at), s.a);
    AddCancels(Load(key, at + 4), Load(other, at + 4), s.b);
    AddCancels(Load(key, at + 8), Load(other, at + 8), s.c);
    LoadIsInjective(key, other, at);
    LoadIsInjective(key, other, at + 4);
    LoadIsInjective(key, other, at + 8);
  }

  lemma DifferentBlock(s: State, key: seq<byte>, other: seq<byte>, n: nat)
    requires DifferInBlock(key, other, n)
    ensures Plus(s, key, 12 * n) != Plus(s, other, 12 * n)
  {
    if Plus(s, key, 12 * n) == Plus(s, other, 12 * n) {
      PlusShowsBlock(s, key, other, 12 * n);
    }
  }

  lemma BlockIsInKey(key: seq<byte>, other: seq<byte>, n: nat)
    requires DifferInBlock(key, other, n)
    ensures n <= Whole(|key|)
  {
    var i :| 0 <= i < |key| && key[i] != other[i];
    assert 12 * n <= i < |key| <= 12 * Whole(|key|) + 12;
  }

  lemma SameBlock(s: State, key: seq<byte>, other: seq<byte>, n: nat, k: nat)
    requires DifferInBlock(key, other, n) && k != n
    ensures Plus(s, key, 12 * k) == Plus(s, other, 12 * k)
  {
    assert forall i :: 12 * k <= i < 12 * k + 12 ==> Alone(key)(i) == Alone(other)(i);
    SameNumber(Alone(key), Alone(other), 12 * k, 4);
    SameNumber(Alone(key), Alone(other), 12 * k + 4, 4);
    SameNumber(Alone(key), Alone(other), 12 * k + 8, 4);
  }

  /** Two ways to go on that differ at step n, whatever the state, and nowhere else. */
  ghost predicate DifferAt(f: Step, g: Step, n: nat) {
    && (forall s :: f(s, n) != g(s, n))
    && forall s, i :: i != n ==> f(s, i) == g(s, i)
  }

  lemma {:induction false} DifferOnce(f: Step, g: Step, s: State, n: nat, k: nat)
    requires Injective(g) && DifferAt(f, g, n)
    ensures if k <= n then Run(f, s, k) == Run(g, s, k) else Run(f, s, k) != Run(g, s, k)
  {
    if k > 0 {
      DifferOnce(f, g, s, n, k - 1);
    }
  }

  lemma KeysDifferAt(key: seq<byte>, other: seq<byte>, n: nat)
    requires DifferInBlock(key, other, n)
    ensures DifferAt(BlockOf(key), BlockOf(other), n) && DifferAt(LastOf(key), LastOf(other), n)
  {
    forall s ensures BlockOf(key)(s, n) != BlockOf(other)(s, n) && LastOf(key)(s, n) != LastOf(other)(s, n) {
      DifferentBlock(s, key, other, n);
      MixersAreBijections(Plus(s, key, 12 * n), Plus(s, other, 12 * n));
    }
    forall s: State, i: nat | i != n
      ensures BlockOf(key)(s, i) == BlockOf(other)(s, i) && LastOf(key)(s, i) == LastOf(other)(s, i)
    {
      SameBlock(s, key, other, n, i);
    }
  }

  lemma DifferAll(f: Step, g: Step, lastF: Step, lastG: Step, s: State, n: nat, length: nat)
    requires Injective(g) && Injective(lastG) && DifferAt(f, g, n) && DifferAt(lastF, lastG, n)
    requires n <= Whole(length) && length > 0
    ensures RunAll(f, lastF, s, length) != RunAll(g, lastG, s, length)
  {
    DifferOnce(f, g, s, n, Whole(length));
  }

  /** Keys of one length that differ in one block only have different digests. */
  lemma OneBlockTells(key: seq<byte>, other: seq<byte>, n: nat, pc: word, pb: word)
    requires DifferInBlock(key, other, n)
    ensures Digest(key, pc, pb) != Digest(other, pc, pb)
  {
    BlockIsInKey(key, other, n);
    KeysDifferAt(key, other, n);
    StepsAreInjective(other);
    DifferAll(BlockOf(key), BlockOf(other), LastOf(key), LastOf(other), Start(|key|, pc, pb), n, |key|);
  }
}
