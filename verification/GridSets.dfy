/** The two-pointer merges of geogridcoder/geomgrid_ops.cpp over arrays of cells of different levels. */
module GridSets {
  import opened GridCells
  import opened Sorting

  predicate AllAligned(s: seq<Cell>) {
    forall i :: 0 <= i < |s| ==> Aligned(s[i])
  }

  /** What `std::sort` leaves behind: `operator <` looks at the codes only. */
  predicate InOrder(s: seq<Cell>) {
    AllAligned(s) && forall i, j :: 0 <= i < j < |s| ==> s[i].data <= s[j].data
  }

  // ---------- a common code ----------

  /** `array_grid_overlap`. */
  method Overlap(a: seq<Cell>, b: seq<Cell>) returns (found: bool)
    requires InOrder(a) && InOrder(b)
    ensures found <==> exists p, q :: 0 <= p < |a| && 0 <= q < |b| && a[p].data == b[q].data
  {
    var i, j := 0, 0;
    while i < |a| && j < |b|
      invariant 0 <= i <= |a| && 0 <= j <= |b|
      invariant forall p, q :: 0 <= p < |a| && 0 <= q < |b| && (p < i || q < j) ==> a[p].data != b[q].data
    {
      if a[i].data < b[j].data {
        i := i + 1;
      } else if a[i].data == b[j].data {
        return true;
      } else {
        j := j + 1;
      }
    }
    return false;
  }

  /** Cells with one code meet, and cells of one level meet only if they have one code. */
  lemma SharedCode(a: Cell, b: Cell)
    requires Aligned(a) && Aligned(b)
    ensures a.data == b.data ==> Meet(a, b)
    ensures a.level == b.level ==> (Meet(a, b) <==> a == b)
  {
    CoarserTwice(a.data, a.level, Coarser(a, b));
    CoarserTwice(b.data, b.level, Coarser(a, b));
  }

  // ---------- a common point ----------

  predicate SomeMeet(a: seq<Cell>, b: seq<Cell>) {
    exists p, q :: 0 <= p < |a| && 0 <= q < |b| && Meet(a[p], b[q])
  }

  /** `array_grid_spanoverlap`: stepping over the smaller masked code never loses a match. */
  method SpanOverlap(a: seq<Cell>, b: seq<Cell>) returns (found: bool)
    requires InOrder(a) && InOrder(b)
    ensures found <==> SomeMeet(a, b)
  {
    var i, j := 0, 0;
    while i < |a| && j < |b|
      invariant 0 <= i <= |a| && 0 <= j <= |b|
      invariant forall p, q :: 0 <= p < |a| && 0 <= q < |b| && (p < i || q < j) ==> !Meet(a[p], b[q])
    {
      var level := if a[i].level > b[j].level then b[j].level else a[i].level;
      var dataA, dataB := Trunc(a[i].data, level), Trunc(b[j].data, level);
      MeetByMask(a[i], b[j]);
      if dataA < dataB {
        forall q | j <= q < |b| ensures !Meet(a[i], b[q]) {
          BehindForGood(a[i], b[j], b[q]);
        }
        i := i + 1;
      } else if dataA == dataB {
        return true;
      } else {
        forall p | i <= p < |a| ensures !Meet(a[p], b[j]) {
          BehindForGood(b[j], a[i], a[p]);
        }
        j := j + 1;
      }
    }
    return false;
  }

  /** `gridarray_spanoverlap`, which sorts its arrays first: on any arrays, whether some code lies in both. */
  method GridArraySpanOverlap(a: seq<Cell>, b: seq<Cell>) returns (found: bool)
    requires AllAligned(a) && AllAligned(b)
    ensures found <==> exists c, d, x :: c in a && d in b && Covers(c, x) && Covers(d, x)
  {
    if |a| == 0 || |b| == 0 {
      return false;
    }
    var gridL := QSort(a, (c: Cell) => c.data as real);
    var gridR := QSort(b, (c: Cell) => c.data as real);
    SortedCells(a, gridL);
    SortedCells(b, gridR);
    found := SpanOverlap(gridL, gridR);
    forall c, d | c in gridL && d in gridR ensures Meet(c, d) <==> exists x :: Covers(c, x) && Covers(d, x) {
      MeetIsSharedCode(c, d);
    }
    if found {
      var p, q :| 0 <= p < |gridL| && 0 <= q < |gridR| && Meet(gridL[p], gridR[q]);
      assert gridL[p] in a && gridR[q] in b;
    }
  }

  lemma SortedCells(s: seq<Cell>, r: seq<Cell>)
    requires AllAligned(s) && multiset(r) == multiset(s) && SortedBy(r, (c: Cell) => c.data as real)
    ensures InOrder(r) && forall c :: c in r <==> c in s
  {
    assert forall c :: c in s <==> c in multiset(s);
    assert forall c :: c in r <==> c in multiset(r);
    forall i | 0 <= i < |r| ensures Aligned(r[i]) {
      assert r[i] in s;
    }
  }

  // ---------- containment ----------

  datatype Move = NextA | NextB | Match | MatchBoth | Stop

  /** What one round of `array_grid_contains` does. */
  function Choose(a: Cell, b: Cell): Move {
    if a.level < b.level then
      var dataB := Trunc(b.data, a.level);
      if a.data < dataB then NextA else if a.data == dataB then Match else Stop
    else if a.level > b.level then
      if Trunc(a.data, b.level) > b.data then NextB else NextA
    else
      if a.data < b.data then NextA else if a.data == b.data then MatchBoth else Stop
  }

  /** The count of matches from a state of the merge on. */
  function Matched(a: seq<Cell>, b: seq<Cell>, i: nat, j: nat): (n: nat)
    requires i <= |a| && j <= |b|
    ensures n <= |b| - j
    decreases |a| - i + |b| - j
  {
    if i == |a| || j == |b| then 0
    else
      match Choose(a[i], b[j])
      case NextA => Matched(a, b, i + 1, j)
      case NextB => Matched(a, b, i, j + 1)
      case Match => 1 + Matched(a, b, i, j + 1)
      case MatchBoth => 1 + Matched(a, b, i + 1, j + 1)
      case Stop => 0
  }

  predicate Contains(a: seq<Cell>, b: seq<Cell>) {
    Matched(a, b, 0, 0) == |b|
  }

  /** `array_grid_contains`. */
  method GridContains(a: seq<Cell>, b: seq<Cell>) returns (r: bool)
    requires InOrder(a) && InOrder(b)
    ensures r <==> Contains(a, b)
    ensures r ==> Contained(b, a)
    ensures NoneInEarlierTop(b) ==> (r <==> Contained(b, a))
  {
    var i, j, n := 0, 0, 0;
    while i < |a| && j < |b|
      invariant 0 <= i <= |a| && 0 <= j <= |b|
      invariant n + Matched(a, b, i, j) == Matched(a, b, 0, 0)
    {
      var levelA, levelB := a[i].level, b[j].level;
      if levelA != levelB {
        if levelA < levelB {
          var dataA, dataB := Trunc(a[i].data, levelA), Trunc(b[j].data, levelA);
          if dataA < dataB {
            i := i + 1;
          } else if dataA == dataB {
            n := n + 1;
            j := j + 1;
          } else {
            break;
          }
        } else {
          var dataA, dataB := Trunc(a[i].data, levelB), Trunc(b[j].data, levelB);
          if dataA > dataB {
            j := j + 1;
          } else {
            i := i + 1;
          }
        }
      } else {
        var dataA, dataB := a[i].data, b[j].data;
        if dataA < dataB {
          i := i + 1;
        } else if dataA == dataB {
          n := n + 1;
          i := i + 1;
          j := j + 1;
        } else {
          break;
        }
      }
    }
    r := n == |b|;
    MatchedIsCovered(a, b, 0, 0);
    if NoneInEarlierTop(b) && Contained(b, a) {
      CoveredIsMatched(a, b, 0, 0);
    }
  }

  predicate CoveredFrom(a: seq<Cell>, i: nat, c: Cell) {
    exists p :: i <= p < |a| && Within(c, a[p])
  }

  predicate ContainedFrom(b: seq<Cell>, j: nat, a: seq<Cell>, i: nat) {
    forall k :: j <= k < |b| ==> CoveredFrom(a, i, b[k])
  }

  /** Every cell of b lies inside some single cell of a. */
  predicate Contained(b: seq<Cell>, a: seq<Cell>) {
    ContainedFrom(b, 0, a, 0)
  }

  /** No cell of b is strictly around this one. */
  predicate Top(b: seq<Cell>, c: Cell) {
    forall d {:trigger Within(c, d)} :: d in b && Within(c, d) ==> d == c
  }

  /** No cell of b lies inside an outermost cell of b that comes before it. */
  predicate NoneInEarlierTop(b: seq<Cell>) {
    forall j, k {:trigger Within(b[k], b[j])} :: 0 <= j < k < |b| && Top(b, b[j]) ==> !Within(b[k], b[j])
  }

  /** The count never goes up for a cell that is not covered. */
  lemma {:induction false} MatchedIsCovered(a: seq<Cell>, b: seq<Cell>, i: nat, j: nat)
    requires InOrder(a) && InOrder(b) && i <= |a| && j <= |b|
    ensures Matched(a, b, i, j) == |b| - j ==> ContainedFrom(b, j, a, i)
    decreases |a| - i + |b| - j
  {
    if i < |a| && j < |b| {
      match Choose(a[i], b[j]) {
        case NextA => MatchedIsCovered(a, b, i + 1, j);
        case Match =>
          MatchedIsCovered(a, b, i, j + 1);
          assert Within(b[j], a[i]);
        case MatchBoth =>
          MatchedIsCovered(a, b, i + 1, j + 1);
          assert Within(b[j], a[i]);
        case _ =>
      }
    }
  }

  lemma StrictlyAround(c: Cell, d: Cell)
    requires Aligned(c) && Aligned(d) && Within(c, d) && c != d
    ensures d.level < c.level
  {
  }

  /** Where a cell lies inside an earlier one, some later cell is strictly around that one. */
  lemma LaterAround(b: seq<Cell>, j: nat, k: nat) returns (m: nat)
    requires InOrder(b) && NoneInEarlierTop(b) && j < k < |b| && Within(b[k], b[j])
    ensures k < m < |b| && Within(b[j], b[m]) && b[m].level < b[j].level
    decreases b[j].level
  {
    var d :| d in b && Within(b[j], d) && d != b[j];
    StrictlyAround(b[j], d);
    m :| 0 <= m < |b| && b[m] == d;
    if m < k {
      var inner := m;
      WithinTransitive(b[k], b[j], d);
      m := LaterAround(b, inner, k);
      WithinTransitive(b[j], d, b[m]);
    }
  }

  /** No round gives up on a cell that is covered, or passes the last cell that covers another. */
  lemma RoundKeepsCover(a: seq<Cell>, b: seq<Cell>, i: nat, j: nat)
    requires InOrder(a) && InOrder(b) && NoneInEarlierTop(b) && i < |a| && j < |b| && ContainedFrom(b, j, a, i)
    ensures Choose(a[i], b[j]).NextA? ==> ContainedFrom(b, j, a, i + 1)
    ensures Choose(a[i], b[j]).Match? ==> ContainedFrom(b, j + 1, a, i)
    ensures Choose(a[i], b[j]).MatchBoth? ==> ContainedFrom(b, j + 1, a, i + 1)
    ensures !Choose(a[i], b[j]).NextB? && !Choose(a[i], b[j]).Stop?
  {
    assert CoveredFrom(a, i, b[j]);
    var p :| i <= p < |a| && Within(b[j], a[p]);
    NeverBehind(a[i], a[p], b[j]);
    match Choose(a[i], b[j]) {
      case NextA =>
        forall k | j <= k < |b| ensures CoveredFrom(a, i + 1, b[k]) {
          assert CoveredFrom(a, i, b[k]);
          if Within(b[k], a[i]) {
            PassedIsCovered(a[i], b[j], b[k], a[p]);
          }
        }
      case MatchBoth =>
        forall k | j < k < |b| ensures CoveredFrom(a, i + 1, b[k]) {
          assert CoveredFrom(a, i, b[k]);
          if Within(b[k], a[i]) {
            var m := LaterAround(b, j, k);
            assert CoveredFrom(a, i, b[m]);
            var q :| i <= q < |a| && Within(b[m], a[q]);
            WithinTransitive(b[j], b[m], a[q]);
            WithinTransitive(b[k], b[j], a[q]);
          }
        }
      case _ =>
    }
  }

  /** A cell of b that is covered from here on is not given up. */
  lemma NeverBehind(here: Cell, around: Cell, b: Cell)
    requires Aligned(here) && Aligned(around) && Aligned(b) && here.data <= around.data && Within(b, around)
    ensures !Choose(here, b).NextB? && !Choose(here, b).Stop?
  {
    var _ := TruncIsBlock(b.data, around.level);
    Monotone(here.data, b.data, here.level);
    var _ := TruncIsBlock(here.data, b.level);
  }

  /** What the cell passed covers from b on, another cell covers that also covers b. */
  lemma PassedIsCovered(passed: Cell, b: Cell, later: Cell, around: Cell)
    requires Aligned(passed) && Aligned(b) && Aligned(later) && Aligned(around) && b.data <= later.data
    requires Choose(passed, b).NextA? && Within(b, around) && Within(later, passed)
    ensures around != passed && Within(later, around)
  {
    if Trunc(passed.data, Coarser(passed, b)) < Trunc(b.data, Coarser(passed, b)) {
      BehindForGood(passed, b, later);
    } else {
      assert Within(passed, b);
      WithinTransitive(later, passed, b);
      WithinTransitive(later, b, around);
    }
  }

  lemma Uncovered(b: seq<Cell>, j: nat, a: seq<Cell>)
    requires j < |b|
    ensures !ContainedFrom(b, j, a, |a|)
  {
    assert !CoveredFrom(a, |a|, b[j]);
  }

  lemma MatchedOnce(a: seq<Cell>, b: seq<Cell>, i: nat, j: nat)
    requires i < |a| && j < |b|
    requires match Choose(a[i], b[j])
             case NextA => Matched(a, b, i + 1, j) == |b| - j
             case Match => Matched(a, b, i, j + 1) == |b| - j - 1
             case MatchBoth => Matched(a, b, i + 1, j + 1) == |b| - j - 1
             case _ => false
    ensures Matched(a, b, i, j) == |b| - j
  {
  }

  lemma {:induction false} CoveredIsMatched(a: seq<Cell>, b: seq<Cell>, i: nat, j: nat)
    requires InOrder(a) && InOrder(b) && NoneInEarlierTop(b) && i <= |a| && j <= |b| && ContainedFrom(b, j, a, i)
    ensures Matched(a, b, i, j) == |b| - j
    decreases |a| - i + |b| - j
  {
    if i == |a| {
      if j < |b| {
        Uncovered(b, j, a);
      }
    } else if j < |b| {
      RoundKeepsCover(a, b, i, j);
      match Choose(a[i], b[j]) {
        case NextA => CoveredIsMatched(a, b, i + 1, j);
        case Match => CoveredIsMatched(a, b, i, j + 1);
        case MatchBoth => CoveredIsMatched(a, b, i + 1, j + 1);
        case _ =>
      }
      MatchedOnce(a, b, i, j);
    }
  }

  // ---------- and exactly when ----------

  /** An outermost cell of b, where it is first. */
  predicate FirstTop(b: seq<Cell>, m: nat)
    requires m < |b|
  {
    Top(b, b[m]) && b[m] !in b[..m]
  }

  /** The outermost cells among the first n, each once. */
  ghost predicate TopsOf(t: seq<Cell>, b: seq<Cell>, n: nat)
    requires n <= |b|
  {
    && InOrder(t)
    && (forall p :: 0 <= p < |t| ==> Top(b, t[p]) && t[p] in b[..n])
    && (forall m {:trigger FirstTop(b, m)} :: 0 <= m < n && FirstTop(b, m) ==> b[m] in t)
    && (forall p, q :: 0 <= p < q < |t| ==> t[p] != t[q])
  }

  lemma SkipOne(t: seq<Cell>, b: seq<Cell>, n: nat)
    requires n < |b| && TopsOf(t, b, n) && !FirstTop(b, n)
    ensures TopsOf(t, b, n + 1)
  {
    assert b[..n + 1] == b[..n] + [b[n]];
  }

  lemma TakeOne(t: seq<Cell>, b: seq<Cell>, n: nat)
    requires InOrder(b) && n < |b| && TopsOf(t, b, n) && FirstTop(b, n)
    ensures TopsOf(t + [b[n]], b, n + 1)
  {
    assert b[..n + 1] == b[..n] + [b[n]];
    forall p | 0 <= p < |t| ensures t[p].data <= b[n].data {
      var m :| 0 <= m < n && b[..n][m] == t[p];
    }
  }

  lemma NextTop(t: seq<Cell>, b: seq<Cell>, n: nat) returns (more: seq<Cell>)
    requires InOrder(b) && n < |b| && TopsOf(t, b, n)
    ensures TopsOf(more, b, n + 1)
  {
    more := t;
    if FirstTop(b, n) {
      TakeOne(t, b, n);
      more := t + [b[n]];
    } else {
      SkipOne(t, b, n);
    }
  }

  lemma {:induction false} TopsExist(b: seq<Cell>, n: nat) returns (t: seq<Cell>)
    requires InOrder(b) && n <= |b|
    ensures TopsOf(t, b, n)
  {
    if n == 0 {
      t := [];
    } else {
      t := TopsExist(b, n - 1);
      t := NextTop(t, b, n - 1);
    }
  }

  /** Every cell is inside a first outermost one. */
  lemma SomeTop(b: seq<Cell>, k: nat) returns (m: nat)
    requires InOrder(b) && k < |b|
    ensures m < |b| && FirstTop(b, m) && Within(b[k], b[m])
    decreases b[k].level, k
  {
    if b[k] in b[..k] {
      var first :| 0 <= first < k && b[first] == b[k];
      m := SomeTop(b, first);
    } else if Top(b, b[k]) {
      m := k;
    } else {
      var d :| d in b && Within(b[k], d) && d != b[k];
      var around :| 0 <= around < |b| && b[around] == d;
      StrictlyAround(b[k], d);
      m := SomeTop(b, around);
      WithinTransitive(b[k], d, b[m]);
    }
  }

  lemma TopsContain(b: seq<Cell>, t: seq<Cell>)
    requires InOrder(b) && TopsOf(t, b, |b|)
    ensures Contained(b, t)
  {
    forall k | 0 <= k < |b| ensures CoveredFrom(t, 0, b[k]) {
      var m := SomeTop(b, k);
      assert b[m] in t;
      var p :| 0 <= p < |t| && t[p] == b[m];
    }
  }

  lemma AroundOne(c: Cell, x: Cell, y: Cell)
    requires Within(c, x) && Within(c, y)
    ensures Meet(x, y)
  {
    if x.level <= y.level {
      CoarserTwice(c.data, y.level, x.level);
    } else {
      CoarserTwice(c.data, x.level, y.level);
    }
  }

  /** The merge takes an outermost cell of a only once. */
  lemma {:induction false} TakenOnce(a: seq<Cell>, b: seq<Cell>, i: nat, from: nat, j: nat, k: nat)
    requires InOrder(a) && InOrder(b) && i <= |a| && from <= j < k < |b| && Top(b, b[j]) && Within(b[k], b[j])
    requires forall p :: 0 <= p < |a| ==> a[p] in b && Top(b, a[p])
    requires forall p, q :: 0 <= p < q < |a| ==> a[p] != a[q]
    ensures Matched(a, b, i, from) < |b| - from
    decreases |a| - i + |b| - from
  {
    if i < |a| {
      match Choose(a[i], b[from]) {
        case NextA => TakenOnce(a, b, i + 1, from, j, k);
        case Match =>
          assert Within(b[from], a[i]);
          if from < j {
            TakenOnce(a, b, i, from + 1, j, k);
          } else {
            assert false;
          }
        case MatchBoth =>
          if from < j {
            TakenOnce(a, b, i + 1, from + 1, j, k);
          } else if Matched(a, b, i + 1, from + 1) == |b| - from - 1 {
            MatchedIsCovered(a, b, i + 1, from + 1);
            assert CoveredFrom(a, i + 1, b[k]);
            var q :| i + 1 <= q < |a| && Within(b[k], a[q]);
            AroundOne(b[k], a[i], a[q]);
            assert false;
          }
        case _ =>
      }
    }
  }

  lemma MissedByTops(b: seq<Cell>) returns (a: seq<Cell>)
    requires InOrder(b) && !NoneInEarlierTop(b)
    ensures InOrder(a) && Contained(b, a) && !Contains(a, b)
  {
    var j, k :| 0 <= j < k < |b| && Top(b, b[j]) && Within(b[k], b[j]);
    a := TopsExist(b, |b|);
    TopsContain(b, a);
    forall p | 0 <= p < |a| ensures a[p] in b && Top(b, a[p]) {
      assert b[..|b|] == b;
    }
    TakenOnce(a, b, 0, 0, j, k);
  }

  /** `array_grid_contains` is right about an array b, whatever the other, exactly if no cell of b lies inside an
      outermost cell of b that comes before it. */
  lemma ContainsIsRight(b: seq<Cell>)
    requires InOrder(b)
    ensures (forall a :: InOrder(a) ==> (Contains(a, b) <==> Contained(b, a))) <==> NoneInEarlierTop(b)
  {
    if NoneInEarlierTop(b) {
      forall a | InOrder(a) ensures Contains(a, b) <==> Contained(b, a) {
        MatchedIsCovered(a, b, 0, 0);
        if Contained(b, a) {
          CoveredIsMatched(a, b, 0, 0);
        }
      }
    } else {
      var a := MissedByTops(b);
      assert InOrder(a);
    }
  }

  /** Where no two codes are equal, as after `array_grid2d_unique`, that is to say that the cells are disjoint. */
  lemma DistinctCodes(b: seq<Cell>)
    requires InOrder(b) && forall i, j :: 0 <= i < j < |b| ==> b[i].data < b[j].data
    ensures NoneInEarlierTop(b) <==> forall i, j :: 0 <= i < j < |b| ==> !Meet(b[i], b[j])
  {
    if NoneInEarlierTop(b) {
      forall j, k | 0 <= j < k < |b| ensures !Meet(b[j], b[k]) {
        if Within(b[j], b[k]) {
          var _ := TruncIsBlock(b[j].data, b[k].level);
        }
        if Within(b[k], b[j]) {
          var m := LaterAround(b, j, k);
          var _ := TruncIsBlock(b[j].data, b[m].level);
        }
      }
    }
  }

  /** A cell and a part of it are contained in the cell, and the merge says they are not. */
  lemma NestedIsMissed(c: Cell, part: Cell)
    requires Aligned(c) && Aligned(part) && c.data <= part.data && Within(part, c)
    ensures InOrder([c]) && InOrder([c, part]) && Contained([c, part], [c]) && !Contains([c], [c, part])
  {
    assert CoveredFrom([c], 0, c) by {
      assert Within(c, [c][0]);
    }
    assert CoveredFrom([c], 0, part) by {
      assert Within(part, [c][0]);
    }
    assert Choose(c, c) == MatchBoth;
    assert Matched([c], [c, part], 0, 0) == 1 + Matched([c], [c, part], 1, 1);
  }
}
