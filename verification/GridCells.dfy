/** geogridcoder/geosot.h and geomgrid_ops.cpp: cells of a quadtree on 64-bit Morton codes, and the set operations
    on arrays of them. A cell of level L is named by the code of its first point, a multiple of 4^(32 - L). */
module GridCells {
  const CODES: nat := 0x1_0000_0000_0000_0000

  type Level = l: nat | 1 <= l <= 32 witness 1

  /** GEOSOTGRID, without the bookkeeping fields. */
  datatype Cell = Cell(level: Level, data: nat)

  /** The number of codes in a cell. */
  function Span(level: Level): (n: nat)
    ensures n > 0
    decreases 32 - level
  {
    if level == 32 then 1 else 4 * Span(level + 1)
  }

  /** `x & (0xFFFFFFFFFFFFFFFF << (64 - level * 2))`: the low pair of bits goes for every level above. */
  function Trunc(x: nat, level: Level): nat
    decreases 32 - level
  {
    if level == 32 then x else 4 * Trunc(x / 4, level + 1)
  }

  predicate Aligned(c: Cell) {
    c.data < CODES && Trunc(c.data, c.level) == c.data
  }

  /** A code, which is a point of the grid at its finest, lies in a cell. */
  predicate Covers(c: Cell, x: nat) {
    Trunc(x, c.level) == c.data
  }

  predicate Within(inner: Cell, outer: Cell) {
    outer.level <= inner.level && Covers(outer, inner.data)
  }

  function Coarser(a: Cell, b: Cell): Level {
    if a.level > b.level then b.level else a.level
  }

  /** One cell equals, contains or is contained in the other. */
  predicate Meet(a: Cell, b: Cell) {
    Within(a, b) || Within(b, a)
  }

  // ---------- facts about codes ----------

  lemma Fourfold(m: nat, n: nat)
    ensures 4 * (m * n) == m * (4 * n)
  {
  }

  /** The cell of a code is the block of 4^(32 - level) codes around it. */
  lemma {:induction false} TruncIsBlock(x: nat, level: Level) returns (block: nat)
    ensures Trunc(x, level) == block * Span(level)
    ensures Trunc(x, level) <= x < Trunc(x, level) + Span(level)
    decreases 32 - level
  {
    if level == 32 {
      block := x;
    } else {
      block := TruncIsBlock(x / 4, level + 1);
      Fourfold(block, Span(level + 1));
    }
  }

  lemma {:induction false} Monotone(x: nat, y: nat, level: Level)
    requires x <= y
    ensures Trunc(x, level) <= Trunc(y, level)
    decreases 32 - level
  {
    if level < 32 {
      Monotone(x / 4, y / 4, level + 1);
    }
  }

  lemma {:induction false} CoarserTwice(x: nat, level: Level, coarser: Level)
    requires coarser <= level
    ensures Trunc(Trunc(x, level), coarser) == Trunc(x, coarser)
    decreases 32 - level
  {
    if level < 32 {
      assert Trunc(x, level) / 4 == Trunc(x / 4, level + 1);
      CoarserTwice(x / 4, level + 1, coarser + 1);
    }
  }

  /** Every code lies in the aligned cell of each level that is cut out around it. */
  lemma CutIsAligned(x: nat, level: Level)
    requires x < CODES
    ensures var c := Cell(level, Trunc(x, level)); Aligned(c) && Covers(c, x)
  {
    var _ := TruncIsBlock(x, level);
    CoarserTwice(x, level, level);
  }

  // ---------- what the relations mean ----------

  /** Being within is being a subset. */
  lemma WithinIsSubset(inner: Cell, outer: Cell)
    requires Aligned(inner) && Aligned(outer)
    ensures Within(inner, outer) <==> forall x :: Covers(inner, x) ==> Covers(outer, x)
  {
    if Within(inner, outer) {
      forall x | Covers(inner, x) ensures Covers(outer, x) {
        CoarserTwice(x, inner.level, outer.level);
      }
    } else if inner.level < outer.level {
      HasNeighbour(inner.data, inner.level, outer.level);
      assert Covers(inner, inner.data + Span(outer.level));
      assert Covers(inner, inner.data);
    } else {
      assert Covers(inner, inner.data);
    }
  }

  /** A cell is not all of a coarser one. */
  lemma {:induction false} HasNeighbour(x: nat, coarser: Level, level: Level)
    requires coarser < level && Trunc(x, coarser) == x
    ensures Trunc(x + Span(level), coarser) == x && Trunc(x + Span(level), level) != Trunc(x, level)
    decreases 32 - level
  {
    if level < 32 {
      HasNeighbour(x / 4, coarser + 1, level + 1);
    } else {
      assert Trunc(x, coarser) == 4 * Trunc(x / 4, coarser + 1);
    }
  }

  /** Two cells share a code exactly when one is within the other. */
  lemma MeetIsSharedCode(a: Cell, b: Cell)
    requires Aligned(a) && Aligned(b)
    ensures Meet(a, b) <==> exists x :: Covers(a, x) && Covers(b, x)
  {
    if Within(a, b) {
      assert Covers(a, a.data) && Covers(b, a.data);
    } else if Within(b, a) {
      assert Covers(a, b.data) && Covers(b, b.data);
    } else if x :| Covers(a, x) && Covers(b, x) {
      CoarserTwice(x, if a.level <= b.level then b.level else a.level, Coarser(a, b));
      assert false;
    }
  }

  /** The masked comparison the merges make finds out whether two cells meet. */
  lemma MeetByMask(a: Cell, b: Cell)
    requires Aligned(a) && Aligned(b)
    ensures Meet(a, b) <==> Trunc(a.data, Coarser(a, b)) == Trunc(b.data, Coarser(a, b))
  {
  }

  lemma WithinTransitive(a: Cell, b: Cell, c: Cell)
    requires Within(a, b) && Within(b, c)
    ensures Within(a, c)
  {
    CoarserTwice(a.data, b.level, c.level);
  }

  /** A cell that is behind another, as the masked comparison sees it, meets nothing from there on. */
  lemma BehindForGood(a: Cell, b: Cell, later: Cell)
    requires Aligned(a) && Aligned(b) && Aligned(later) && b.data <= later.data
    requires Trunc(a.data, Coarser(a, b)) < Trunc(b.data, Coarser(a, b))
    ensures !Meet(a, later)
  {
    var level := Coarser(a, b);
    if b.data <= a.data {
      Monotone(b.data, a.data, level);
    }
    if Within(later, a) {
      Monotone(a.data, b.data, a.level);
      Monotone(b.data, later.data, a.level);
      CoarserTwice(b.data, a.level, level);
    } else if Within(a, later) {
      var _ := TruncIsBlock(a.data, later.level);
    }
  }
}
