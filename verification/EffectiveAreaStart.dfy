/** How `tune_areas` starts: the keys in the order of `cmpfunc`, which is already a heap; and what a
    whole simplification returns. */
module EffectiveAreaStart {
  import opened Basics
  import opened IndexedHeap
  import opened EffectiveArea

  /** `cmpfunc`: by area, and for equal areas by position in the point array. */
  predicate Before(areas: seq<real>, a: nat, b: nat)
    requires a < |areas| && b < |areas|
  {
    areas[a] < areas[b] || (areas[a] == areas[b] && a < b)
  }

  /** The keys are in strictly increasing `cmpfunc` order. */
  ghost predicate InOrder(areas: seq<real>, keys: seq<nat>) {
    && (forall k :: 0 <= k < |keys| ==> keys[k] < |areas|)
    && forall j, k :: 0 <= j < k < |keys| ==> Before(areas, keys[j], keys[k])
  }

  /** The keys of all points in order: what `qsort` has to return. */
  ghost predicate Sorted(areas: seq<real>, keys: seq<nat>) {
    && InOrder(areas, keys) && |keys| == |areas|
    && forall q: nat :: q < |areas| ==> q in keys
  }

  function Insert(areas: seq<real>, keys: seq<nat>, x: nat): (r: seq<nat>)
    requires x < |areas| && forall k :: 0 <= k < |keys| ==> keys[k] < |areas|
    ensures |r| == |keys| + 1
    ensures forall q :: q in r <==> q == x || q in keys
  {
    if keys == [] || Before(areas, x, keys[0]) then [x] + keys
    else
      var r := Insert(areas, keys[1..], x);
      assert forall q :: q in keys <==> q == keys[0] || q in keys[1..];
      [keys[0]] + r
  }

  lemma ConsInOrder(areas: seq<real>, x: nat, keys: seq<nat>)
    requires InOrder(areas, keys) && x < |areas|
    requires forall q: nat :: q in keys ==> q < |areas| && Before(areas, x, q)
    ensures InOrder(areas, [x] + keys)
  {
    var r := [x] + keys;
    forall j, k | 0 <= j < k < |r| ensures Before(areas, r[j], r[k]) {
      assert r[k] in keys;
    }
  }

  lemma {:induction false} InsertKeepsOrder(areas: seq<real>, keys: seq<nat>, x: nat)
    requires InOrder(areas, keys) && x < |areas| && x !in keys
    ensures InOrder(areas, Insert(areas, keys, x))
  {
    if keys == [] || Before(areas, x, keys[0]) {
      ConsInOrder(areas, x, keys);
    } else {
      InsertKeepsOrder(areas, keys[1..], x);
      ConsInOrder(areas, keys[0], Insert(areas, keys[1..], x));
    }
  }

  function SortedKeys(areas: seq<real>, m: nat): (keys: seq<nat>)
    requires m <= |areas|
    ensures |keys| == m && forall q: nat :: q in keys <==> q < m
  {
    if m == 0 then [] else
      var keys := SortedKeys(areas, m - 1);
      assert forall k :: 0 <= k < |keys| ==> keys[k] in keys;
      Insert(areas, keys, m - 1)
  }

  lemma {:induction false} SortedKeysInOrder(areas: seq<real>, m: nat)
    requires m <= |areas|
    ensures InOrder(areas, SortedKeys(areas, m))
  {
    if m > 0 {
      SortedKeysInOrder(areas, m - 1);
      InsertKeepsOrder(areas, SortedKeys(areas, m - 1), m - 1);
    }
  }

  lemma HasFirst(b: seq<nat>)
    requires b != []
    ensures exists q: nat :: q in b
  {
    assert b[0] in b;
  }

  /** `cmpfunc` leaves `qsort` no choice: two sorted orders of the same keys are equal. */
  lemma {:induction false} OrderIsUnique(areas: seq<real>, a: seq<nat>, b: seq<nat>)
    requires InOrder(areas, a) && InOrder(areas, b) && forall q: nat :: q in a <==> q in b
    ensures a == b
  {
    if a == [] {
      if b != [] {
        HasFirst(b);
      }
    } else {
      assert a[0] in b && (b != [] ==> b[0] in a);
      assert a[0] == b[0];
      forall q: nat ensures q in a[1..] <==> q in b[1..] {
        assert q in a <==> q == a[0] || q in a[1..];
        assert q in b <==> q == b[0] || q in b[1..];
      }
      OrderIsUnique(areas, a[1..], b[1..]);
    }
  }

  // ---------- the first state ----------

  function FirstArea(p: Problem, q: nat): real
    requires q < p.n
  {
    if q == 0 || q == p.n - 1 then FLT_MAX else p.tri(q - 1, q, q + 1)
  }

  function FirstAreas(p: Problem): seq<real> {
    seq(p.n, q requires 0 <= q < p.n => FirstArea(p, q))
  }

  function AllPoints(n: nat): (s: seq<nat>)
    ensures |s| == n && forall q :: 0 <= q < n ==> s[q] == q
  {
    seq(n, q requires q >= 0 => q)
  }

  /** The state `ptarray_calc_areas` hands to the loop of `tune_areas`. */
  ghost predicate Start(p: Problem, s: State) {
    && |s.heap.nodes| == p.n && s.heap.used == p.n && Sorted(FirstAreas(p), s.heap.keys) && Indexed(s.heap)
    && (forall q {:trigger s.heap.nodes[q]} :: 0 <= q < p.n ==>
          && s.heap.nodes[q].area == FirstArea(p, q)
          && s.heap.nodes[q].prev == (if q == 0 then 0 else q - 1)
          && s.heap.nodes[q].next == (if q == p.n - 1 then q else q + 1))
    && s.res == seq(p.n, q => FLT_MAX) && s.check == 0.0 && s.i == 0
    && s.live == AllPoints(p.n)
  }

  /** Equal areas come in the order of the points, on every platform. */
  lemma KeysInOrder(p: Problem, s: State, j: nat, k: nat)
    requires Start(p, s) && j < k < p.n
    ensures var a, b := s.heap.keys[j], s.heap.keys[k];
            && a < p.n && b < p.n
            && (FirstArea(p, a) < FirstArea(p, b) || (FirstArea(p, a) == FirstArea(p, b) && a < b))
  {
    assert InOrder(FirstAreas(p), s.heap.keys);
  }

  /** The area of the triangle on point q and its neighbours. */
  function Corner(p: Problem, q: nat): real
    requires q > 0
  {
    p.tri(q - 1, q, q + 1)
  }

  /** Of the interior points with the least area q is the first, and the area is below that of the end points. */
  ghost predicate FirstOfLeast(p: Problem, q: nat) {
    && 0 < q < p.n - 1 && Corner(p, q) < FLT_MAX
    && (forall k: nat :: 0 < k < q ==> Corner(p, q) < Corner(p, k))
    && (forall k: nat :: q < k < p.n - 1 ==> Corner(p, q) <= Corner(p, k))
  }

  /** It is the first to come off the heap. */
  lemma FirstOffHeap(p: Problem, s: State, q: nat)
    requires Start(p, s) && FirstOfLeast(p, q)
    ensures s.heap.keys[0] == q
  {
    var k := SlotOf(p, s, q);
    if k > 0 {
      KeysInOrder(p, s, 0, k);
      NoneBefore(p, s.heap.keys[0], q);
    }
  }

  lemma NoneBefore(p: Problem, a: nat, q: nat)
    requires FirstOfLeast(p, q) && a < p.n && a != q
    ensures FirstArea(p, q) < FirstArea(p, a) || (FirstArea(p, q) == FirstArea(p, a) && q < a)
  {
    assert 0 < a < p.n - 1 ==> FirstArea(p, a) == Corner(p, a);
    assert FirstArea(p, q) == Corner(p, q);
  }

  lemma SlotOf(p: Problem, s: State, q: nat) returns (k: nat)
    requires Start(p, s) && q < p.n
    ensures k < p.n == |s.heap.keys| && s.heap.keys[k] == q
  {
    assert q in s.heap.keys;
    k :| 0 <= k < |s.heap.keys| && s.heap.keys[k] == q;
  }

  lemma StartIsHeap(p: Problem, s: State)
    requires ValidProblem(p) && Start(p, s)
    ensures Sane(p, s.heap) && Ordered(s.heap)
    ensures forall q: nat :: q < p.n <==> s.heap.In(q)
  {
    forall k | 1 <= k < s.heap.used ensures s.heap.At(Parent(k)) <= s.heap.At(k) {
      assert Before(FirstAreas(p), s.heap.keys[Parent(k)], s.heap.keys[k]);
    }
    forall q: nat | q < p.n ensures s.heap.In(q) {
      assert q in s.heap.keys;
    }
  }

  lemma AllAscend(p: Problem, h: Heap, live: seq<nat>)
    requires Sane(p, h) && p.n >= 2 && live == AllPoints(p.n)
    requires forall q {:trigger h.nodes[q]} :: 0 <= q < p.n ==>
               && h.nodes[q].prev == (if q == 0 then 0 else q - 1)
               && h.nodes[q].next == (if q == p.n - 1 then q else q + 1)
    ensures Linked(p, h, live) && forall q: nat :: q in live <==> q < p.n
  {
    forall q: nat ensures q in live <==> q < p.n {
      assert q < p.n ==> live[q] == q;
    }
  }

  lemma StartIsInvariant(p: Problem, s: State)
    requires ValidProblem(p) && Start(p, s)
    ensures Inv(p, s) && Ready(s)
  {
    StartIsHeap(p, s);
    AllAscend(p, s.heap, s.live);
    assert Shrunk(s.res) == {};
    forall q: nat ensures s.heap.In(q) <==> q in s.live {
    }
  }

  // ---------- a whole simplification ----------

  ghost function Final(p: Problem, s: State, setArea: bool, trshld: real): State
    requires ValidProblem(p) && Start(p, s)
  {
    StartIsInvariant(p, s);
    Run(p, s, setArea, trshld)
  }

  /** The points `ptarray_set_effective_area` keeps. */
  function Kept(res: seq<real>, trshld: real): set<nat> {
    set q: nat | q < |res| && res[q] >= trshld
  }

  lemma RecordsOf(p: Problem, t: State)
    requires Inv(p, t)
    ensures |t.res| == p.n > 0 && t.res[0] == t.res[p.n - 1] == FLT_MAX && |Shrunk(t.res)| <= Spare(p)
  {
  }

  lemma RunRecords(p: Problem, s: State, setArea: bool, trshld: real) returns (res: seq<real>)
    requires Inv(p, s) && Ready(s)
    ensures res == Run(p, s, setArea, trshld).res
    ensures |res| == p.n > 0 && res[0] == res[p.n - 1] == FLT_MAX && |Shrunk(res)| <= Spare(p)
  {
    var t := Run(p, s, setArea, trshld);
    RecordsOf(p, t);
    res := t.res;
  }

  lemma SameKeptFrom(p: Problem, s: State, trshld: real)
    requires Inv(p, s) && Ready(s)
    ensures Kept(Run(p, s, false, trshld).res, trshld) == Kept(Run(p, s, true, trshld).res, trshld)
  {
    var a := RunRecords(p, s, false, trshld);
    var b := RunRecords(p, s, true, trshld);
    forall q: nat | q < p.n ensures a[q] >= trshld <==> b[q] >= trshld {
      EarlyStopKeepsSame(p, s, trshld, q);
    }
  }

  /** The result does not depend on whether the loop stops early. */
  lemma SameKept(p: Problem, s: State, trshld: real)
    requires ValidProblem(p) && Start(p, s)
    ensures Kept(Final(p, s, false, trshld).res, trshld) == Kept(Final(p, s, true, trshld).res, trshld)
  {
    StartIsInvariant(p, s);
    SameKeptFrom(p, s, trshld);
  }

  lemma FinalRecords(p: Problem, s: State, setArea: bool, trshld: real) returns (res: seq<real>)
    requires ValidProblem(p) && Start(p, s)
    ensures res == Final(p, s, setArea, trshld).res
    ensures |res| == p.n > 0 && res[0] == res[p.n - 1] == FLT_MAX && |Shrunk(res)| <= Spare(p)
  {
    StartIsInvariant(p, s);
    res := RunRecords(p, s, setArea, trshld);
  }

  lemma EndsIn(res: seq<real>, n: nat, trshld: real)
    requires |res| == n > 0 && res[0] == res[n - 1] == FLT_MAX
    ensures (0 in Kept(res, trshld) && n - 1 in Kept(res, trshld)) <==> trshld <= FLT_MAX
  {
  }

  lemma EndsKeptFrom(p: Problem, s: State, setArea: bool, trshld: real)
    requires Inv(p, s) && Ready(s)
    ensures var kept := Kept(Run(p, s, setArea, trshld).res, trshld);
            (0 in kept && p.n - 1 in kept) <==> trshld <= FLT_MAX
  {
    var res := RunRecords(p, s, setArea, trshld);
    EndsIn(res, p.n, trshld);
  }

  /** The end points are kept exactly when the threshold is at most FLT_MAX. */
  lemma EndsKept(p: Problem, s: State, setArea: bool, trshld: real)
    requires ValidProblem(p) && Start(p, s)
    ensures var kept := Kept(Final(p, s, setArea, trshld).res, trshld);
            (0 in kept && p.n - 1 in kept) <==> trshld <= FLT_MAX
  {
    StartIsInvariant(p, s);
    EndsKeptFrom(p, s, setArea, trshld);
  }

  function Points(n: nat): (all: set<nat>)
    ensures |all| == n && forall q: nat :: q in all <==> q < n
  {
    if n == 0 then {} else Points(n - 1) + {n - 1}
  }

  lemma KeptOrShrunk(res: seq<real>, trshld: real)
    requires trshld <= FLT_MAX
    ensures |Kept(res, trshld)| + |Shrunk(res)| >= |res|
  {
    var both := Kept(res, trshld) + Shrunk(res);
    assert Points(|res|) <= both;
    assert |both - Points(|res|)| == |both| - |Points(|res|)|;
    assert |both| == |Kept(res, trshld)| + |Shrunk(res)| - |Kept(res, trshld) * Shrunk(res)|;
  }

  /** At least min(n, avoid_collaps) points are kept. */
  lemma EnoughKept(p: Problem, s: State, setArea: bool, trshld: real)
    requires ValidProblem(p) && Start(p, s) && trshld <= FLT_MAX
    ensures |Kept(Final(p, s, setArea, trshld).res, trshld)| >= if p.n <= p.avoid then p.n else p.avoid
  {
    var res := FinalRecords(p, s, setArea, trshld);
    KeptOrShrunk(res, trshld);
  }

  /** The naive algorithm eliminates all interior points of the line in this order, and gives these areas. */
  ghost predicate NaiveRun(p: Problem, order: seq<nat>, areas: seq<real>) {
    forall live: seq<nat>, left: seq<nat>, budget: int ::
      live == AllPoints(p.n) && left == [0, p.n - 1] && budget == p.n - p.avoid ==>
        Greedy(p, live, 0.0, budget, order, areas, left)
  }

  lemma FullRunIsNaive(p: Problem, s: State, trshld: real, areas: seq<real>) returns (order: seq<nat>)
    requires Inv(p, s) && Ready(s) && s.live == AllPoints(p.n) && s.check == 0.0 && s.i == 0
    requires areas == Run(p, s, true, trshld).res
    ensures NaiveRun(p, order, areas)
    ensures s.heap.used > 0 && (0 < Current(p, s) < p.n - 1 ==> order != [] && order[0] == Current(p, s))
  {
    order := RunIsGreedy(p, s, true, trshld);
    FullRunEliminatesAll(p, s, trshld);
    SameRun(p, s.live, s.check, Budget(p, s), order, areas, [0, p.n - 1]);
  }

  lemma SameRun(p: Problem, live: seq<nat>, last: real, budget: int, order: seq<nat>, areas: seq<real>, left: seq<nat>)
    requires Greedy(p, live, last, budget, order, areas, left)
    requires live == AllPoints(p.n) && last == 0.0 && budget == p.n - p.avoid && left == [0, p.n - 1]
    ensures NaiveRun(p, order, areas)
  {
  }

  lemma FirstInOrder(p: Problem, s: State, q: nat)
    requires ValidProblem(p) && Start(p, s) && FirstOfLeast(p, q)
    ensures Inv(p, s) && s.heap.used > 0 && Current(p, s) == q
  {
    StartIsInvariant(p, s);
    FirstOffHeap(p, s, q);
  }

  /** The effective areas are those of the naive algorithm, which eliminates every interior point. Of several with the
      least area the first one goes first. */
  lemma FinalIsGreedy(p: Problem, s: State, trshld: real, areas: seq<real>) returns (order: seq<nat>)
    requires ValidProblem(p) && Start(p, s) && areas == Final(p, s, true, trshld).res
    ensures NaiveRun(p, order, areas)
    ensures forall q: nat :: FirstOfLeast(p, q) ==> order != [] && order[0] == q
  {
    StartIsInvariant(p, s);
    order := FullRunIsNaive(p, s, trshld, areas);
    forall q: nat | FirstOfLeast(p, q) ensures order != [] && order[0] == q {
      FirstInOrder(p, s, q);
    }
  }

  lemma SameKeptPoints(a: seq<real>, b: seq<real>, trshld: real)
    requires |a| == |b| && Kept(a, trshld) == Kept(b, trshld)
    ensures forall q :: 0 <= q < |a| ==> (a[q] >= trshld <==> b[q] >= trshld)
  {
    forall q: nat | q < |a| ensures a[q] >= trshld <==> b[q] >= trshld {
      assert q in Kept(a, trshld) <==> q in Kept(b, trshld);
    }
  }

  function Index(keys: seq<nat>, q: nat): (k: nat)
    ensures q in keys ==> k < |keys| && keys[k] == q
  {
    if keys == [] || keys[0] == q then 0 else 1 + Index(keys[1..], q)
  }

  /** A first state for the keys of `qsort`. */
  function StartOn(p: Problem, keys: seq<nat>): State {
    var nodes := seq(p.n, q requires 0 <= q < p.n =>
      AreaNode(FirstArea(p, q), Index(keys, q), if q == 0 then 0 else q - 1, if q == p.n - 1 then q else q + 1));
    State(Heap(nodes, keys, p.n), seq(p.n, q => FLT_MAX), 0.0, 0, AllPoints(p.n))
  }

  lemma NoKeyTwice(areas: seq<real>, keys: seq<nat>)
    requires InOrder(areas, keys)
    ensures forall i, k :: 0 <= i < |keys| && 0 <= k < |keys| && keys[i] == keys[k] ==> i == k
  {
  }

  lemma StartExists(p: Problem, keys: seq<nat>)
    requires Sorted(FirstAreas(p), keys)
    ensures Start(p, StartOn(p, keys))
  {
    var nodes := StartOn(p, keys).heap.nodes;
    NoKeyTwice(FirstAreas(p), keys);
    forall k | 0 <= k < p.n ensures nodes[keys[k]].treeindex == k {
      var i := Index(keys, keys[k]);
    }
  }

  lemma SameNodes(p: Problem, s: State, t: State)
    requires Start(p, s) && Start(p, t) && s.heap.keys == t.heap.keys
    ensures s == t
  {
    forall q | 0 <= q < p.n ensures s.heap.nodes[q] == t.heap.nodes[q] {
      assert q in s.heap.keys;
      var k :| 0 <= k < p.n && s.heap.keys[k] == q;
    }
    assert s.heap.nodes == t.heap.nodes;
  }

  /** There is a first state, and only one: the outcome is a function of the line. */
  lemma OneStart(p: Problem) returns (s: State)
    requires ValidProblem(p)
    ensures Start(p, s) && forall t :: Start(p, t) ==> t == s
  {
    var keys := SortedKeys(FirstAreas(p), p.n);
    SortedKeysInOrder(FirstAreas(p), p.n);
    s := StartOn(p, keys);
    StartExists(p, keys);
    forall t | Start(p, t) ensures t == s {
      SortedIsUnique(FirstAreas(p), t.heap.keys, keys);
      SameNodes(p, s, t);
    }
  }

  lemma SortedIsUnique(areas: seq<real>, a: seq<nat>, b: seq<nat>)
    requires Sorted(areas, a) && Sorted(areas, b)
    ensures a == b
  {
    OrderIsUnique(areas, a, b);
  }

  /** These are the results of a simplification, whatever first state it comes from. */
  ghost predicate Results(p: Problem, setArea: bool, trshld: real, res: seq<real>)
    requires ValidProblem(p)
  {
    forall s :: Start(p, s) ==> res == Final(p, s, setArea, trshld).res
  }

  lemma FirstResults(p: Problem, s: State, setArea: bool, trshld: real)
    requires ValidProblem(p) && Start(p, s)
    ensures Results(p, setArea, trshld, Final(p, s, setArea, trshld).res)
  {
    forall t | Start(p, t) ensures t == s {
      SortedIsUnique(FirstAreas(p), t.heap.keys, s.heap.keys);
      SameNodes(p, s, t);
    }
  }

  /** What such results are to the naive algorithm. */
  lemma Simplified(p: Problem, setArea: bool, trshld: real, res: seq<real>)
    returns (areas: seq<real>, order: seq<nat>)
    requires ValidProblem(p) && Results(p, setArea, trshld, res)
    ensures NaiveRun(p, order, areas)
    ensures forall q: nat :: FirstOfLeast(p, q) ==> order != [] && order[0] == q
    ensures |areas| == p.n > 0 && areas[0] == areas[p.n - 1] == FLT_MAX
    ensures |res| == p.n && (setArea ==> res == areas)
    ensures forall q :: 0 <= q < p.n ==> (res[q] >= trshld <==> areas[q] >= trshld)
  {
    var s := OneStart(p);
    areas := SameResults(p, s, setArea, trshld, res);
    order := FinalIsGreedy(p, s, trshld, areas);
  }

  lemma SameResults(p: Problem, s: State, setArea: bool, trshld: real, res: seq<real>) returns (areas: seq<real>)
    requires ValidProblem(p) && Start(p, s) && res == Final(p, s, setArea, trshld).res
    ensures areas == Final(p, s, true, trshld).res && (setArea ==> res == areas)
    ensures |areas| == |res| == p.n > 0 && areas[0] == areas[p.n - 1] == FLT_MAX
    ensures forall q :: 0 <= q < p.n ==> (res[q] >= trshld <==> areas[q] >= trshld)
  {
    SameKept(p, s, trshld);
    areas := FinalRecords(p, s, true, trshld);
    var own := FinalRecords(p, s, setArea, trshld);
    SameKeptPoints(res, areas, trshld);
  }
}
