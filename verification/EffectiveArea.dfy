/** Visvalingam-Whyatt elimination, liblwgeom/effectivearea.c: the loop of `tune_areas` as a
    function on values, and what every run of it keeps. */
module EffectiveArea {
  import opened Basics
  import opened IndexedHeap

  function Max(a: real, b: real): real {
    if a > b then a else b
  }

  /** A line of n points; tri(i, j, k) is the area of the triangle on points i, j and k. */
  datatype Problem = Problem(n: nat, tri: (nat, nat, nat) -> real, avoid: int)

  ghost predicate ValidProblem(p: Problem) {
    p.n >= 2 && forall i, j, k :: 0.0 <= p.tri(i, j, k) <= FLT_MAX
  }

  /** The variables of the loop. `live` lists the points not yet eliminated. */
  datatype State = State(heap: Heap, res: seq<real>, check: real, i: nat, live: seq<nat>)

  // ---------- the naive algorithm ----------

  /** Weight of the j-th live point when the last recorded effective area is `last`. */
  function Weight(p: Problem, live: seq<nat>, last: real, j: nat): real
    requires 0 < j < |live| - 1
  {
    Max(p.tri(live[j - 1], live[j], live[j + 1]), last)
  }

  ghost predicate Lightest(p: Problem, live: seq<nat>, last: real, j: nat) {
    && 0 < j < |live| - 1
    && forall k :: 0 < k < |live| - 1 ==> Weight(p, live, last, j) <= Weight(p, live, last, k)
  }

  /** `order` eliminates, one by one, a lightest interior point of what is left. The first `budget`
      get their weight as effective area, the others FLT_MAX. */
  ghost predicate Greedy(p: Problem, live: seq<nat>, last: real, budget: int, order: seq<nat>, res: seq<real>,
                         left: seq<nat>)
    decreases |order|
  {
    if order == [] then live == left else
      exists j: nat :: Lightest(p, live, last, j) && live[j] == order[0] && order[0] < |res|
        && res[order[0]] == (if budget > 0 then Weight(p, live, last, j) else FLT_MAX)
        && Greedy(p, live[..j] + live[j + 1..], res[order[0]], budget - 1, order[1..], res, left)
  }

  // ---------- the loop ----------

  ghost predicate Sane(p: Problem, h: Heap) {
    && WellFormed(h) && |h.nodes| == |h.keys| == p.n
    && forall q :: 0 <= q < p.n ==> h.nodes[q].prev < p.n && h.nodes[q].next < p.n
  }

  /** A strictly increasing list of points from the first to the last. */
  ghost predicate Ascends(live: seq<nat>, n: nat) {
    && |live| >= 2 && live[0] == 0 && live[|live| - 1] == n - 1
    && forall j, k :: 0 <= j < k < |live| ==> live[j] < live[k] < n
  }

  ghost predicate Linked(p: Problem, h: Heap, live: seq<nat>) {
    && Sane(p, h) && Ascends(live, p.n)
    && (forall j {:trigger h.nodes[live[j]]} :: 0 <= j < |live| - 1 ==> h.nodes[live[j]].next == live[j + 1])
    && (forall j {:trigger h.nodes[live[j]]} :: 0 < j < |live| ==> h.nodes[live[j]].prev == live[j - 1])
    && h.nodes[0].prev == 0 && h.nodes[p.n - 1].next == p.n - 1
  }

  /** The j-th live point is filed under its triangle's area, or under an older, larger bound. */
  ghost predicate WeighedAt(p: Problem, h: Heap, live: seq<nat>, check: real, j: nat) {
    && Sane(p, h) && 0 < j < |live| - 1 && live[j] < p.n
    && var tri, area := p.tri(live[j - 1], live[j], live[j + 1]), h.nodes[live[j]].area;
    tri <= area <= FLT_MAX && (area <= check || area == tri)
  }

  ghost predicate Weighed(p: Problem, h: Heap, live: seq<nat>, check: real) {
    && Linked(p, h, live)
    && h.nodes[0].area == h.nodes[p.n - 1].area == FLT_MAX
    && forall j: nat :: 0 < j < |live| - 1 ==> WeighedAt(p, h, live, check, j)
  }

  ghost function Shrunk(res: seq<real>): set<nat> {
    set q: nat | q < |res| && res[q] < FLT_MAX
  }

  /** How many points may be given an area below FLT_MAX. */
  function Spare(p: Problem): nat {
    if p.avoid <= p.n then p.n - p.avoid else 0
  }

  ghost predicate Recorded(p: Problem, s: State) {
    && p.n >= 2 && Sane(p, s.heap) && |s.res| == p.n && s.res[0] == s.res[p.n - 1] == FLT_MAX
    && 0.0 <= s.check <= FLT_MAX
    && (forall q :: 0 <= q < p.n ==> 0.0 <= s.res[q] <= FLT_MAX)
    && (forall q: nat :: s.heap.In(q) ==> s.res[q] == FLT_MAX)
    && |Shrunk(s.res)| <= s.i && |Shrunk(s.res)| <= Spare(p)
  }

  /** What every iteration keeps. */
  ghost predicate Inv(p: Problem, s: State) {
    && ValidProblem(p) && Sane(p, s.heap) && Indexed(s.heap) && Ordered(s.heap) && s.heap.used + s.i == p.n
    && Linked(p, s.heap, s.live)
    && (forall q: nat :: 0 < q < p.n - 1 ==> (s.heap.In(q) <==> q in s.live))
    && Weighed(p, s.heap, s.live, s.check)
    && Floored(p, s)
    && Recorded(p, s)
  }

  /** No key is filed below the last recorded area, unless that area was forced to FLT_MAX. */
  ghost predicate Floored(p: Problem, s: State) {
    || (s.i > p.n - p.avoid && s.check == FLT_MAX)
    || (forall q: nat :: s.heap.In(q) ==> s.check <= s.heap.nodes[q].area)
  }

  /** The loop may go round again: an interior point is left, or nothing was popped yet. */
  predicate Ready(s: State) {
    |s.live| > 2 || s.i == 0
  }

  /** The point the next iteration eliminates. */
  function Current(p: Problem, s: State): nat
    requires Inv(p, s) && s.heap.used > 0
  {
    s.heap.keys[0]
  }

  function NewArea(p: Problem, s: State): real
    requires Inv(p, s) && s.heap.used > 0
  {
    if s.i < p.n - p.avoid then s.heap.nodes[s.heap.keys[0]].area else FLT_MAX
  }

  /** The areas of the two neighbours of an eliminated point are recomputed and refiled. */
  function Refile(p: Problem, h: Heap, before: nat, after: nat, r: real): (t: Heap)
    requires Sane(p, h) && Indexed(h) && Ordered(h) && before < p.n && after < p.n && before != after
    requires (before > 0 ==> h.In(before)) && (after < p.n - 1 ==> h.In(after))
    ensures Sane(p, t) && Indexed(t) && Ordered(t) && t.used == h.used
    ensures forall q: nat :: t.In(q) <==> h.In(q)
    ensures forall q :: 0 <= q < p.n ==>
              && t.nodes[q].prev == h.nodes[q].prev && t.nodes[q].next == h.nodes[q].next
              && t.nodes[q].area ==
                 if q == before && before > 0 then Max(p.tri(h.nodes[before].prev, before, after), r)
                 else if q == after && after < p.n - 1 then Max(p.tri(before, after, h.nodes[after].next), r)
                 else h.nodes[q].area
  {
    var m :=
      if before > 0 then
        var area := Max(p.tri(h.nodes[before].prev, before, after), r);
        ReweighKeeps(h, before, area);
        Reweigh(h, before, area)
      else h;
    if after < p.n - 1 then
      var area := Max(p.tri(before, after, m.nodes[after].next), r);
      ReweighKeeps(m, after, area);
      Reweigh(m, after, area)
    else m
  }

  /** Take a point out of the doubly linked list. */
  function Unlink(h: Heap, cur: nat, before: nat, after: nat): Heap
    requires WellFormed(h) && cur < |h.nodes| && before < |h.nodes| && after < |h.nodes|
  {
    var nodes := h.nodes[before := h.nodes[before].(next := h.nodes[cur].next)];
    h.(nodes := nodes[after := nodes[after].(prev := nodes[cur].prev)])
  }

  lemma Around(p: Problem, h: Heap, live: seq<nat>, j: nat)
    requires Linked(p, h, live) && j < |live|
    ensures h.nodes[live[j]].prev == (if j > 0 then live[j - 1] else 0)
    ensures h.nodes[live[j]].next == (if j < |live| - 1 then live[j + 1] else p.n - 1)
    ensures j == 0 <==> live[j] == 0
    ensures j == |live| - 1 <==> live[j] == p.n - 1
  {
  }

  lemma Neighbours(p: Problem, h: Heap, live: seq<nat>, cur: nat)
    requires Linked(p, h, live) && h.In(cur)
    requires forall q: nat :: 0 < q < p.n - 1 ==> (h.In(q) <==> q in live)
    ensures cur in live
    ensures var before, after := h.nodes[cur].prev, h.nodes[cur].next;
            && before != after && (before > 0 ==> before != cur && h.In(before))
            && (after < p.n - 1 ==> after != cur && h.In(after))
  {
    assert live[0] in live && live[|live| - 1] in live;
    var j: nat :| j < |live| && live[j] == cur;
    Around(p, h, live, j);
    assert j > 0 ==> live[j - 1] in live;
    assert j < |live| - 1 ==> live[j + 1] in live;
  }

  lemma NeighboursAreLive(p: Problem, s: State)
    requires Inv(p, s) && s.heap.used > 0
    ensures var cur := Current(p, s); var h := Pop(s.heap);
            && Sane(p, h) && Indexed(h) && Ordered(h)
            && cur < p.n && cur in s.live
            && var before, after := h.nodes[cur].prev, h.nodes[cur].next;
            && before != after
            && (before > 0 ==> h.In(before)) && (after < p.n - 1 ==> h.In(after))
  {
    PopTakesLeast(s.heap);
    Neighbours(p, s.heap, s.live, Current(p, s));
  }

  /** The index of the eliminated point in the list of live points. */
  ghost function Place(p: Problem, s: State): (j: nat)
    requires Inv(p, s) && s.heap.used > 0
    ensures j < |s.live| && s.live[j] == Current(p, s)
    ensures j == 0 <==> Current(p, s) == 0
    ensures j == |s.live| - 1 <==> Current(p, s) == p.n - 1
  {
    NeighboursAreLive(p, s);
    var j: nat :| j < |s.live| && s.live[j] == Current(p, s);
    j
  }

  function Rest(live: seq<nat>, j: nat): seq<nat>
    requires j < |live|
  {
    if 0 < j < |live| - 1 then live[..j] + live[j + 1..] else live
  }

  /** One iteration of the loop. */
  ghost function Step(p: Problem, s: State): State
    requires Inv(p, s) && s.heap.used > 0
  {
    NeighboursAreLive(p, s);
    var cur, r := Current(p, s), NewArea(p, s);
    var popped := Pop(s.heap);
    var before, after := popped.nodes[cur].prev, popped.nodes[cur].next;
    State(Unlink(Refile(p, popped, before, after, r), cur, before, after),
          s.res[cur := r], r, s.i + 1, Rest(s.live, Place(p, s)))
  }

  // ---------- every iteration keeps the invariant ----------

  lemma UnlinkKeeps(p: Problem, h: Heap, cur: nat, before: nat, after: nat)
    requires Sane(p, h) && Indexed(h) && Ordered(h)
    requires cur < p.n && before < p.n && after < p.n && before != after
    requires h.nodes[cur].next < p.n && h.nodes[cur].prev < p.n
    ensures var t := Unlink(h, cur, before, after);
            && Sane(p, t) && Indexed(t) && Ordered(t) && t.used == h.used
            && (forall q: nat :: t.In(q) <==> h.In(q))
            && (forall q :: 0 <= q < p.n ==>
                  && t.nodes[q].next == (if q == before then h.nodes[cur].next else h.nodes[q].next)
                  && t.nodes[q].prev == (if q == after then h.nodes[cur].prev else h.nodes[q].prev)
                  && t.nodes[q].area == h.nodes[q].area)
  {
    var t := Unlink(h, cur, before, after);
    assert forall k :: 0 <= k < t.used ==> t.At(k) == h.At(k);
  }

  ghost predicate HeapStep(p: Problem, h: Heap, t: Heap, cur: nat, r: real) {
    && Sane(p, h) && Sane(p, t) && Indexed(t) && Ordered(t) && t.used == h.used - 1
    && (forall q: nat :: t.In(q) <==> q != cur && h.In(q))
    && cur < p.n && h.In(cur)
    && (forall q: nat :: h.In(q) ==> h.nodes[cur].area <= h.nodes[q].area)
    && var before, after := h.nodes[cur].prev, h.nodes[cur].next;
    && before < p.n && after < p.n && before != after
    && (forall q :: 0 <= q < p.n ==>
          && t.nodes[q].next == (if q == before then h.nodes[cur].next else h.nodes[q].next)
          && t.nodes[q].prev == (if q == after then h.nodes[cur].prev else h.nodes[q].prev)
          && t.nodes[q].area ==
             if q == before && before > 0 then Max(p.tri(h.nodes[before].prev, before, after), r)
             else if q == after && after < p.n - 1 then Max(p.tri(before, after, h.nodes[after].next), r)
             else h.nodes[q].area)
  }

  lemma PopRefileUnlink(p: Problem, h: Heap, popped: Heap, cur: nat, before: nat, after: nat, r: real)
    requires Sane(p, h) && Indexed(h) && Ordered(h) && h.used > 0 && cur == h.keys[0] && popped == Pop(h)
    requires Sane(p, popped) && Indexed(popped) && Ordered(popped)
    requires before == popped.nodes[cur].prev && after == popped.nodes[cur].next && before != after
    requires (before > 0 ==> popped.In(before)) && (after < p.n - 1 ==> popped.In(after))
    ensures HeapStep(p, h, Unlink(Refile(p, popped, before, after, r), cur, before, after), cur, r)
  {
    PopTakesLeast(h);
    assert popped.nodes[before].prev == h.nodes[before].prev;
    UnlinkKeeps(p, Refile(p, popped, before, after, r), cur, before, after);
  }

  /** The heap after one iteration, node by node. */
  lemma StepHeap(p: Problem, s: State)
    requires Inv(p, s) && s.heap.used > 0
    ensures HeapStep(p, s.heap, Step(p, s).heap, Current(p, s), NewArea(p, s))
  {
    NeighboursAreLive(p, s);
    var cur, popped := Current(p, s), Pop(s.heap);
    PopRefileUnlink(p, s.heap, popped, cur, popped.nodes[cur].prev, popped.nodes[cur].next, NewArea(p, s));
  }

  lemma RestAscends(live: seq<nat>, j: nat, n: nat)
    requires Ascends(live, n) && 0 < j < |live| - 1
    ensures Ascends(live[..j] + live[j + 1..], n)
  {
    var rest := live[..j] + live[j + 1..];
    assert forall k :: 0 <= k < |rest| ==> rest[k] == live[if k < j then k else k + 1];
  }

  lemma RelinkAt(p: Problem, h: Heap, t: Heap, live: seq<nat>, j: nat, rest: seq<nat>, k: nat)
    requires Linked(p, h, live) && Sane(p, t) && 0 < j < |live| - 1 && k < |rest| == |live| - 1
    requires forall i :: 0 <= i < |rest| ==> rest[i] == live[if i < j then i else i + 1]
    requires forall q :: 0 <= q < p.n ==>
               && t.nodes[q].next == (if q == live[j - 1] then live[j + 1] else h.nodes[q].next)
               && t.nodes[q].prev == (if q == live[j + 1] then live[j - 1] else h.nodes[q].prev)
    ensures k < |rest| - 1 ==> t.nodes[rest[k]].next == rest[k + 1]
    ensures k > 0 ==> t.nodes[rest[k]].prev == rest[k - 1]
  {
    Around(p, h, live, if k < j then k else k + 1);
  }

  lemma Relink(p: Problem, h: Heap, t: Heap, live: seq<nat>, j: nat)
    requires Linked(p, h, live) && Sane(p, t) && 0 < j < |live| - 1
    requires forall q :: 0 <= q < p.n ==>
               && t.nodes[q].next == (if q == live[j - 1] then live[j + 1] else h.nodes[q].next)
               && t.nodes[q].prev == (if q == live[j + 1] then live[j - 1] else h.nodes[q].prev)
    ensures Linked(p, t, live[..j] + live[j + 1..])
  {
    var rest := live[..j] + live[j + 1..];
    RestAscends(live, j, p.n);
    forall k | 0 <= k < |rest|
      ensures k < |rest| - 1 ==> t.nodes[rest[k]].next == rest[k + 1]
      ensures k > 0 ==> t.nodes[rest[k]].prev == rest[k - 1]
    {
      RelinkAt(p, h, t, live, j, rest, k);
    }
  }

  lemma RemovedOnly(live: seq<nat>, j: nat, q: nat)
    requires j < |live| && forall i, k :: 0 <= i < k < |live| ==> live[i] < live[k]
    ensures q in live[..j] + live[j + 1..] <==> q in live && q != live[j]
  {
    if q in live && q != live[j] {
      var k :| 0 <= k < |live| && live[k] == q;
      assert k < j ==> live[..j][k] == q;
      assert k > j ==> live[j + 1..][k - j - 1] == q;
    }
  }

  lemma RelinkStep(p: Problem, h: Heap, t: Heap, live: seq<nat>, j: nat, r: real)
    requires Linked(p, h, live) && j < |live| && HeapStep(p, h, t, live[j], r)
    ensures Linked(p, t, Rest(live, j))
  {
    if 0 < j < |live| - 1 {
      Relink(p, h, t, live, j);
    } else if j == 0 {
      assert h.nodes[live[0]].next == live[1] && h.nodes[live[1]].prev == live[0];
    } else {
      assert h.nodes[live[j]].prev == live[j - 1] && h.nodes[live[j - 1]].next == live[j];
    }
  }

  lemma MembersStep(p: Problem, h: Heap, t: Heap, live: seq<nat>, j: nat, r: real)
    requires Linked(p, h, live) && j < |live| && HeapStep(p, h, t, live[j], r)
    requires forall q: nat :: 0 < q < p.n - 1 ==> (h.In(q) <==> q in live)
    ensures forall q: nat :: 0 < q < p.n - 1 ==> (t.In(q) <==> q in Rest(live, j))
  {
    forall q: nat | 0 < q < p.n - 1 ensures t.In(q) <==> q in Rest(live, j) {
      RemovedOnly(live, j, q);
    }
  }

  lemma ReweighPoint(p: Problem, h: Heap, t: Heap, live: seq<nat>, j: nat, check: real, r: real, i: nat)
    requires ValidProblem(p) && Linked(p, h, live) && WeighedAt(p, h, live, check, i)
    requires j < |live| && HeapStep(p, h, t, live[j], r) && check <= r <= FLT_MAX && i != j
    ensures var before := if i - 1 == j && j > 0 then live[i - 2] else live[i - 1];
            var after := if i + 1 == j && j < |live| - 1 then live[i + 2] else live[i + 1];
            var tri, area := p.tri(before, live[i], after), t.nodes[live[i]].area;
            tri <= area <= FLT_MAX && (area <= r || area == tri)
  {
    Around(p, h, live, i);
    Around(p, h, live, j);
  }

  /** The neighbours of a point that stays, after the j-th is taken out. */
  lemma RestAround(live: seq<nat>, j: nat, k: nat)
    requires j < |live| && 0 < k < |Rest(live, j)| - 1
    ensures var rest, i := Rest(live, j), if 0 < j < |live| - 1 && k >= j then k + 1 else k;
            && 0 < i < |live| - 1 && i != j && rest[k] == live[i]
            && rest[k - 1] == (if i - 1 == j && j > 0 then live[i - 2] else live[i - 1])
            && rest[k + 1] == (if i + 1 == j && j < |live| - 1 then live[i + 2] else live[i + 1])
  {
  }

  lemma ReweighRest(p: Problem, h: Heap, t: Heap, live: seq<nat>, j: nat, check: real, r: real, k: nat)
    requires ValidProblem(p) && Weighed(p, h, live, check)
    requires j < |live| && HeapStep(p, h, t, live[j], r) && check <= r <= FLT_MAX
    requires 0 < k < |Rest(live, j)| - 1
    ensures WeighedAt(p, t, Rest(live, j), r, k)
  {
    RestAround(live, j, k);
    var i := if 0 < j < |live| - 1 && k >= j then k + 1 else k;
    assert WeighedAt(p, h, live, check, i);
    ReweighPoint(p, h, t, live, j, check, r, i);
  }

  lemma ReweighStep(p: Problem, h: Heap, t: Heap, live: seq<nat>, j: nat, check: real, r: real)
    requires ValidProblem(p) && Weighed(p, h, live, check)
    requires j < |live| && HeapStep(p, h, t, live[j], r) && check <= r <= FLT_MAX
    ensures Weighed(p, t, Rest(live, j), r)
  {
    RelinkStep(p, h, t, live, j, r);
    forall k: nat | 0 < k < |Rest(live, j)| - 1 ensures WeighedAt(p, t, Rest(live, j), r, k) {
      ReweighRest(p, h, t, live, j, check, r, k);
    }
  }

  lemma ShrunkGrows(res: seq<real>, q: nat, r: real)
    requires q < |res| && res[q] == FLT_MAX
    ensures |Shrunk(res[q := r])| <= |Shrunk(res)| + (if r < FLT_MAX then 1 else 0)
  {
    if r < FLT_MAX {
      assert Shrunk(res[q := r]) == Shrunk(res) + {q};
    } else {
      assert Shrunk(res[q := r]) == Shrunk(res);
    }
  }

  lemma CurrentInHeap(p: Problem, s: State)
    requires Inv(p, s) && s.heap.used > 0
    ensures s.heap.In(Current(p, s)) && Current(p, s) < p.n
    ensures s.heap.nodes[Current(p, s)].area <= FLT_MAX
  {
    var j := Place(p, s);
    assert 0 < j < |s.live| - 1 ==> WeighedAt(p, s.heap, s.live, s.check, j);
  }

  /** The recorded area is never below the one before: the "wrong order" error is not reached. */
  lemma NeverOutOfOrder(p: Problem, s: State)
    requires Inv(p, s) && s.heap.used > 0
    ensures s.check <= NewArea(p, s) <= FLT_MAX
  {
    CurrentInHeap(p, s);
  }

  lemma RecordStep(p: Problem, s: State, t: State, cur: nat, r: real)
    requires Recorded(p, s) && HeapStep(p, s.heap, t.heap, cur, r) && s.check <= r <= FLT_MAX
    requires r == if s.i < p.n - p.avoid then s.heap.nodes[cur].area else FLT_MAX
    requires t.res == s.res[cur := r] && t.check == r && t.i == s.i + 1
    requires s.heap.nodes[0].area == s.heap.nodes[p.n - 1].area == FLT_MAX
    ensures Recorded(p, t)
  {
    ShrunkGrows(s.res, cur, r);
  }

  lemma FloorStep(p: Problem, h: Heap, t: Heap, live: seq<nat>, j: nat, r: real)
    requires Linked(p, h, live) && j < |live| && HeapStep(p, h, t, live[j], r)
    requires r == h.nodes[live[j]].area
    ensures forall q: nat :: t.In(q) ==> r <= t.nodes[q].area
  {
  }

  /** One iteration keeps every part of the invariant. */
  lemma StepKeeps(p: Problem, s: State)
    requires Inv(p, s) && s.heap.used > 0
    ensures Inv(p, Step(p, s)) && Step(p, s).check >= s.check
  {
    var j := Place(p, s);
    var t := Step(p, s);
    StepHeap(p, s);
    MembersStep(p, s.heap, t.heap, s.live, j, t.check);
    NeverOutOfOrder(p, s);
    ReweighStep(p, s.heap, t.heap, s.live, j, s.check, t.check);
    RecordStep(p, s, t, Current(p, s), t.check);
    if s.i < p.n - p.avoid {
      FloorStep(p, s.heap, t.heap, s.live, j, t.check);
    }
  }

  /** While the loop goes round again, the heap it pops from is not empty. */
  lemma ReadyToPop(p: Problem, s: State)
    requires Inv(p, s) && Ready(s)
    ensures s.heap.used > 0
  {
    if s.i != 0 {
      assert s.live[0] < s.live[1] < s.live[|s.live| - 1];
      assert s.live[1] in s.live;
      assert s.heap.In(s.live[1]);
    }
  }

  /** The test at the end of an iteration. */
  predicate Stops(s: State, setArea: bool, trshld: real)
    requires |s.heap.nodes| > 0
  {
    (!setArea && s.check >= trshld) || s.heap.nodes[0].next == |s.heap.nodes| - 1
  }

  lemma StopsOrReady(p: Problem, s: State, setArea: bool, trshld: real)
    requires Inv(p, s) && !Stops(s, setArea, trshld)
    ensures Ready(s)
  {
    Around(p, s.heap, s.live, 0);
  }

  /** The whole loop. It terminates because every iteration takes one key out of the heap. */
  ghost function Run(p: Problem, s: State, setArea: bool, trshld: real): (t: State)
    requires Inv(p, s) && Ready(s)
    ensures Inv(p, t) && Stops(t, setArea, trshld)
    decreases s.heap.used
  {
    ReadyToPop(p, s);
    StepKeeps(p, s);
    var t := Step(p, s);
    if Stops(t, setArea, trshld) then t else
      StopsOrReady(p, t, setArea, trshld);
      Run(p, t, setArea, trshld)
  }

  /** One round of the loop, as the code that runs it sees it. */
  lemma Advance(p: Problem, s: State, setArea: bool, trshld: real)
    requires Inv(p, s) && Ready(s)
    ensures s.heap.used > 0 && Inv(p, Step(p, s)) && Step(p, s).heap.used < s.heap.used
    ensures Step(p, s).i == s.i + 1
    ensures Stops(Step(p, s), setArea, trshld) ==> Run(p, s, setArea, trshld) == Step(p, s)
    ensures !Stops(Step(p, s), setArea, trshld) ==>
              Ready(Step(p, s)) && Run(p, s, setArea, trshld) == Run(p, Step(p, s), setArea, trshld)
  {
    ReadyToPop(p, s);
    StepKeeps(p, s);
    if !Stops(Step(p, s), setArea, trshld) {
      StopsOrReady(p, Step(p, s), setArea, trshld);
    }
  }

  /** What one round computes, in the order the code computes it. */
  lemma StepInParts(p: Problem, s: State)
    requires Inv(p, s) && s.heap.used > 0
    ensures var h, cur, t := Pop(s.heap), Current(p, s), Step(p, s);
            && Sane(p, h) && Indexed(h) && Ordered(h) && cur < p.n == |s.res|
            && var r := if s.i < p.n - p.avoid then h.nodes[cur].area else FLT_MAX;
            && r >= s.check && t.check == r && t.res == s.res[cur := r]
            && var before, after := h.nodes[cur].prev, h.nodes[cur].next;
            && before != after && (before > 0 ==> h.In(before)) && (after < p.n - 1 ==> h.In(after))
            && t.heap == Unlink(Refile(p, h, before, after, r), cur, before, after)
  {
    NeighboursAreLive(p, s);
    PopTakesLeast(s.heap);
    NeverOutOfOrder(p, s);
  }

  lemma OnlyEnds(p: Problem, h: Heap, live: seq<nat>)
    requires Linked(p, h, live) && h.nodes[0].next == p.n - 1
    ensures live == [0, p.n - 1]
  {
    Around(p, h, live, 0);
    Around(p, h, live, 1);
  }

  /** The full run leaves only the two end points. */
  lemma FullRunEliminatesAll(p: Problem, s: State, trshld: real)
    requires Inv(p, s) && Ready(s)
    ensures Run(p, s, true, trshld).live == [0, p.n - 1]
  {
    var t := Run(p, s, true, trshld);
    OnlyEnds(p, t.heap, t.live);
  }

  lemma StepRecords(p: Problem, s: State, q: nat)
    requires Inv(p, s) && s.heap.used > 0 && q < p.n
    ensures var t := Step(p, s); var cur := Current(p, s);
            && t.res[q] == (if q == cur then NewArea(p, s) else s.res[q])
            && t.check == NewArea(p, s) >= s.check
            && s.heap.In(cur) && (t.heap.In(q) <==> q != cur && s.heap.In(q))
  {
    StepHeap(p, s);
    NeverOutOfOrder(p, s);
  }

  /** The rest of a run leaves every area that was recorded, and records only areas at least as large. */
  lemma {:induction false} LaterAreasAreLarger(p: Problem, s: State, setArea: bool, trshld: real, q: nat)
    requires Inv(p, s) && Ready(s) && q < p.n
    ensures var t := Run(p, s, setArea, trshld);
            t.res[q] == s.res[q] || (s.heap.In(q) && t.res[q] >= s.check)
    decreases s.heap.used
  {
    ReadyToPop(p, s);
    StepKeeps(p, s);
    StepRecords(p, s, q);
    var t := Step(p, s);
    if !Stops(t, setArea, trshld) {
      StopsOrReady(p, t, setArea, trshld);
      LaterAreasAreLarger(p, t, setArea, trshld, q);
    }
  }

  /** Stopping early keeps the same points as the full run. */
  lemma {:induction false} EarlyStopKeepsSame(p: Problem, s: State, trshld: real, q: nat)
    requires Inv(p, s) && Ready(s) && q < p.n
    ensures Run(p, s, false, trshld).res[q] >= trshld <==> Run(p, s, true, trshld).res[q] >= trshld
    decreases s.heap.used
  {
    ReadyToPop(p, s);
    StepKeeps(p, s);
    var t := Step(p, s);
    if Stops(t, true, trshld) {
    } else if Stops(t, false, trshld) {
      StopsOrReady(p, t, true, trshld);
      LaterAreasAreLarger(p, t, true, trshld, q);
    } else {
      StopsOrReady(p, t, false, trshld);
      EarlyStopKeepsSame(p, t, trshld, q);
    }
  }

  // ---------- the loop is the naive algorithm ----------

  /** How many more points may be given an area below FLT_MAX. */
  function Budget(p: Problem, s: State): int {
    p.n - p.avoid - s.i
  }

  lemma WeightIsArea(p: Problem, s: State, j: nat)
    requires Inv(p, s) && 0 < j < |s.live| - 1
    ensures Weight(p, s.live, s.check, j) >= s.heap.nodes[s.live[j]].area
    ensures s.heap.In(s.live[j])
    ensures !(s.i > p.n - p.avoid && s.check == FLT_MAX) ==>
              Weight(p, s.live, s.check, j) == s.heap.nodes[s.live[j]].area
    ensures s.check == FLT_MAX ==> Weight(p, s.live, s.check, j) == FLT_MAX
  {
    assert WeighedAt(p, s.heap, s.live, s.check, j);
    assert s.live[0] < s.live[j] < s.live[|s.live| - 1];
    assert s.live[j] in s.live;
  }

  lemma CurrentIsLeast(p: Problem, s: State, q: nat)
    requires Inv(p, s) && s.heap.used > 0 && s.heap.In(q)
    ensures s.heap.nodes[Current(p, s)].area <= s.heap.nodes[q].area
  {
    RootIsLeast(s.heap, s.heap.nodes[q].treeindex);
  }

  lemma CurrentIsLighter(p: Problem, s: State, j: nat, k: nat)
    requires Inv(p, s) && s.heap.used > 0 && 0 < j < |s.live| - 1 && s.live[j] == Current(p, s)
    requires 0 < k < |s.live| - 1
    ensures Weight(p, s.live, s.check, j) <= Weight(p, s.live, s.check, k)
  {
    WeightIsArea(p, s, j);
    WeightIsArea(p, s, k);
    CurrentIsLeast(p, s, s.live[k]);
  }

  lemma CurrentIsLightest(p: Problem, s: State, j: nat)
    requires Inv(p, s) && s.heap.used > 0 && 0 < j < |s.live| - 1 && s.live[j] == Current(p, s)
    ensures Lightest(p, s.live, s.check, j)
  {
    forall k | 0 < k < |s.live| - 1
      ensures Weight(p, s.live, s.check, j) <= Weight(p, s.live, s.check, k)
    {
      CurrentIsLighter(p, s, j, k);
    }
  }

  /** The area recorded for an interior point is its weight; an end point has FLT_MAX. */
  lemma NewAreaIsWeight(p: Problem, s: State, j: nat)
    requires Inv(p, s) && s.heap.used > 0 && j < |s.live| && s.live[j] == Current(p, s)
    ensures NewArea(p, s) ==
            if 0 < j < |s.live| - 1 && s.i < p.n - p.avoid then Weight(p, s.live, s.check, j) else FLT_MAX
  {
    if 0 < j < |s.live| - 1 {
      WeightIsArea(p, s, j);
    }
  }

  lemma StepRecordsNewArea(p: Problem, s: State)
    requires Inv(p, s) && s.heap.used > 0
    ensures Step(p, s).check == NewArea(p, s) && Step(p, s).live == Rest(s.live, Place(p, s))
  {
  }

  /** An iteration that takes out an interior point takes a lightest one and records its weight. */
  lemma StepIsGreedy(p: Problem, s: State)
    requires Inv(p, s) && s.heap.used > 0
    ensures var j, t := Place(p, s), Step(p, s);
            if 0 < j < |s.live| - 1 then
              && Lightest(p, s.live, s.check, j)
              && t.check == (if s.i < p.n - p.avoid then Weight(p, s.live, s.check, j) else FLT_MAX)
              && t.live == s.live[..j] + s.live[j + 1..]
            else t.live == s.live && t.check == FLT_MAX
  {
    var j := Place(p, s);
    StepRecordsNewArea(p, s);
    NewAreaIsWeight(p, s, j);
    if 0 < j < |s.live| - 1 {
      CurrentIsLightest(p, s, j);
    }
  }

  /** Once FLT_MAX is recorded, the number of points that may still be given less is immaterial. */
  lemma {:induction false} BudgetIsImmaterial(p: Problem, live: seq<nat>, b: int, c: int, order: seq<nat>,
                                              res: seq<real>, left: seq<nat>)
    requires ValidProblem(p) && Greedy(p, live, FLT_MAX, b, order, res, left)
    ensures Greedy(p, live, FLT_MAX, c, order, res, left)
    decreases |order|
  {
    if order != [] {
      var j: nat :| Lightest(p, live, FLT_MAX, j) && live[j] == order[0] && order[0] < |res|
        && res[order[0]] == (if b > 0 then Weight(p, live, FLT_MAX, j) else FLT_MAX)
        && Greedy(p, live[..j] + live[j + 1..], res[order[0]], b - 1, order[1..], res, left);
      assert Weight(p, live, FLT_MAX, j) == FLT_MAX;
      BudgetIsImmaterial(p, live[..j] + live[j + 1..], b - 1, c - 1, order[1..], res, left);
    }
  }

  lemma ExtendGreedy(p: Problem, live: seq<nat>, last: real, b: int, j: nat, order: seq<nat>, res: seq<real>,
                     left: seq<nat>)
    requires Lightest(p, live, last, j) && live[j] < |res|
    requires res[live[j]] == if b > 0 then Weight(p, live, last, j) else FLT_MAX
    requires Greedy(p, live[..j] + live[j + 1..], res[live[j]], b - 1, order, res, left)
    ensures Greedy(p, live, last, b, [live[j]] + order, res, left)
  {
    assert ([live[j]] + order)[1..] == order;
  }

  /** An end point comes off the heap only when every weight is FLT_MAX. */
  lemma EndPopIsStutter(p: Problem, s: State, k: nat)
    requires Inv(p, s) && s.heap.used > 0 && 0 < k < |s.live| - 1
    requires Current(p, s) == 0 || Current(p, s) == p.n - 1
    ensures Weight(p, s.live, s.check, k) == FLT_MAX
  {
    WeightIsArea(p, s, k);
    CurrentIsLeast(p, s, s.live[k]);
    assert Recorded(p, s);
  }

  lemma AllWeightsFull(p: Problem, live: seq<nat>, last: real, b: int, c: int, order: seq<nat>, res: seq<real>,
                       left: seq<nat>)
    requires ValidProblem(p) && Greedy(p, live, FLT_MAX, b, order, res, left)
    requires forall k :: 0 < k < |live| - 1 ==> Weight(p, live, last, k) == FLT_MAX
    ensures Greedy(p, live, last, c, order, res, left)
  {
    BudgetIsImmaterial(p, live, b, c, order, res, left);
    if order != [] {
      var j: nat :| Lightest(p, live, FLT_MAX, j) && live[j] == order[0] && order[0] < |res|
        && res[order[0]] == (if c > 0 then Weight(p, live, FLT_MAX, j) else FLT_MAX)
        && Greedy(p, live[..j] + live[j + 1..], res[order[0]], c - 1, order[1..], res, left);
      assert Lightest(p, live, last, j);
    }
  }

  lemma AllStutter(p: Problem, s: State)
    requires Inv(p, s) && s.heap.used > 0 && (Current(p, s) == 0 || Current(p, s) == p.n - 1)
    ensures forall k :: 0 < k < |s.live| - 1 ==> Weight(p, s.live, s.check, k) == FLT_MAX
  {
    forall k | 0 < k < |s.live| - 1 ensures Weight(p, s.live, s.check, k) == FLT_MAX {
      EndPopIsStutter(p, s, k);
    }
  }

  /** The j-th point comes off the heap with area r when b more may have less than FLT_MAX, and `rest` is left. */
  ghost predicate Pops(p: Problem, live: seq<nat>, last: real, b: int, j: nat, r: real, rest: seq<nat>) {
    && j < |live|
    && if 0 < j < |live| - 1 then
         && Lightest(p, live, last, j) && rest == live[..j] + live[j + 1..]
         && r == if b > 0 then Weight(p, live, last, j) else FLT_MAX
       else
         rest == live && r == FLT_MAX && forall k :: 0 < k < |live| - 1 ==> Weight(p, live, last, k) == FLT_MAX
  }

  /** One iteration in front of the rest of the run. */
  lemma PopThenGreedy(p: Problem, live: seq<nat>, last: real, b: int, j: nat, r: real, rest: seq<nat>,
                      order: seq<nat>, res: seq<real>, left: seq<nat>)
    returns (more: seq<nat>)
    requires ValidProblem(p) && Pops(p, live, last, b, j, r, rest) && live[j] < |res| && res[live[j]] == r
    requires Greedy(p, rest, r, b - 1, order, res, left)
    ensures Greedy(p, live, last, b, more, res, left)
    ensures 0 < j < |live| - 1 ==> more == [live[j]] + order
  {
    more := order;
    if 0 < j < |live| - 1 {
      ExtendGreedy(p, live, last, b, j, order, res, left);
      more := [live[j]] + order;
    } else {
      AllWeightsFull(p, live, last, b - 1, b, order, res, left);
    }
  }

  lemma StepPops(p: Problem, s: State, t: State, j: nat)
    requires Inv(p, s) && s.heap.used > 0 && t == Step(p, s) && j == Place(p, s)
    ensures Pops(p, s.live, s.check, Budget(p, s), j, t.check, t.live) && s.live[j] == Current(p, s)
    ensures Budget(p, t) == Budget(p, s) - 1
  {
    StepIsGreedy(p, s);
    if !(0 < j < |s.live| - 1) {
      AllStutter(p, s);
    }
  }

  /** A step in front of a run that goes on as the naive algorithm does. */
  lemma StepThenGreedy(p: Problem, s: State, t: State, last: State, order: seq<nat>) returns (more: seq<nat>)
    requires Inv(p, s) && s.heap.used > 0 && t == Step(p, s) && |last.res| == p.n
    requires last.res[Current(p, s)] == t.check
    requires Greedy(p, t.live, t.check, Budget(p, t), order, last.res, last.live)
    ensures Greedy(p, s.live, s.check, Budget(p, s), more, last.res, last.live)
    ensures 0 < Current(p, s) < p.n - 1 ==> more == [Current(p, s)] + order
  {
    var j := Place(p, s);
    StepPops(p, s, t, j);
    more := PopThenGreedy(p, s.live, s.check, Budget(p, s), j, t.check, t.live, order, last.res, last.live);
  }

  /** What an iteration records stays. */
  lemma FirstRecordStays(p: Problem, s: State, setArea: bool, trshld: real)
    requires Inv(p, s) && Ready(s)
    ensures s.heap.used > 0 && |Run(p, s, setArea, trshld).res| == p.n
    ensures Current(p, s) < p.n && Run(p, s, setArea, trshld).res[Current(p, s)] == Step(p, s).check
  {
    Advance(p, s, setArea, trshld);
    CurrentInHeap(p, s);
    StepRecords(p, s, Current(p, s));
    if !Stops(Step(p, s), setArea, trshld) {
      LaterAreasAreLarger(p, Step(p, s), setArea, trshld, Current(p, s));
    }
  }

  /** A run eliminates points in an order the naive algorithm allows, and records the areas it gives. */
  lemma {:induction false} RunIsGreedy(p: Problem, s: State, setArea: bool, trshld: real) returns (order: seq<nat>)
    requires Inv(p, s) && Ready(s)
    ensures var t := Run(p, s, setArea, trshld);
            Greedy(p, s.live, s.check, Budget(p, s), order, t.res, t.live)
    ensures s.heap.used > 0 && (0 < Current(p, s) < p.n - 1 ==> order != [] && order[0] == Current(p, s))
    decreases s.heap.used
  {
    Advance(p, s, setArea, trshld);
    FirstRecordStays(p, s, setArea, trshld);
    var last, t := Run(p, s, setArea, trshld), Step(p, s);
    order := [];
    if !Stops(t, setArea, trshld) {
      order := RunIsGreedy(p, t, setArea, trshld);
    }
    order := StepThenGreedy(p, s, t, last, order);
  }
}
