/** The indexed min-heap of liblwgeom/effectivearea.c, as a function on values.
    A pointer to an `areanode` is its index in the node array. */
module IndexedHeap {

  datatype AreaNode = AreaNode(area: real, treeindex: nat, prev: nat, next: nat)

  datatype Heap = Heap(nodes: seq<AreaNode>, keys: seq<nat>, used: nat) {
    /** Area of the node that slot k points to. */
    function At(k: nat): real
      requires WellFormed(this) && k < |keys|
    {
      nodes[keys[k]].area
    }

    /** Node p is in the used part of the heap, and its back-pointer says where. */
    predicate In(p: nat) {
      WellFormed(this) && p < |nodes| && nodes[p].treeindex < used && keys[nodes[p].treeindex] == p
    }
  }

  predicate WellFormed(h: Heap) {
    h.used <= |h.keys| && forall k :: 0 <= k < |h.keys| ==> h.keys[k] < |h.nodes|
  }

  /** floor((c-1)/2) on C ints: the division truncates, so the root is its own parent. */
  function Parent(c: nat): nat {
    if c == 0 then 0 else (c - 1) / 2
  }

  /** treeindex is the exact inverse of the heap position. */
  ghost predicate Indexed(h: Heap) {
    WellFormed(h) && forall k :: 0 <= k < h.used ==> h.nodes[h.keys[k]].treeindex == k
  }

  ghost predicate Ordered(h: Heap) {
    WellFormed(h) && forall k :: 1 <= k < h.used ==> h.At(Parent(k)) <= h.At(k)
  }

  /** Ordered, but slot p may be larger than its children. */
  ghost predicate OrderedButDown(h: Heap, p: nat) {
    && WellFormed(h)
    && (forall k :: 1 <= k < h.used && Parent(k) != p ==> h.At(Parent(k)) <= h.At(k))
    && (forall k :: 1 <= k < h.used && Parent(k) == p && p > 0 ==> h.At(Parent(p)) <= h.At(k))
  }

  /** Ordered, but slot c may be smaller than its parent. */
  ghost predicate OrderedButUp(h: Heap, c: nat) {
    && WellFormed(h)
    && (forall k :: 1 <= k < h.used && k != c ==> h.At(Parent(k)) <= h.At(k))
    && (forall k :: 1 <= k < h.used && Parent(k) == c && c > 0 && c < h.used ==> h.At(Parent(c)) <= h.At(k))
  }

  /** h' holds the same nodes as h, possibly in other slots. */
  ghost predicate SameContents(h: Heap, h': Heap) {
    && WellFormed(h) && WellFormed(h')
    && |h'.nodes| == |h.nodes| && |h'.keys| == |h.keys| && h'.used == h.used
    && (forall p :: 0 <= p < |h.nodes| ==>
          h'.nodes[p].area == h.nodes[p].area && h'.nodes[p].prev == h.nodes[p].prev
          && h'.nodes[p].next == h.nodes[p].next)
    && (forall p: nat :: h'.In(p) <==> h.In(p))
  }

  // ---------- operations ----------

  /** Exchange two slots and repair both back-pointers. */
  function Swap(h: Heap, i: nat, j: nat): (r: Heap)
    requires WellFormed(h) && i < |h.keys| && j < |h.keys|
    ensures WellFormed(r)
  {
    var keys := h.keys[i := h.keys[j]][j := h.keys[i]];
    var nodes := h.nodes[keys[i] := h.nodes[keys[i]].(treeindex := i)];
    Heap(nodes[keys[j] := nodes[keys[j]].(treeindex := j)], keys, h.used)
  }

  /** The slot that `down` swaps with: the smaller child if it beats the parent. */
  function Smallest(h: Heap, p: nat): (s: nat)
    requires WellFormed(h) && p < |h.keys|
    ensures s == p || (p < s < h.used && Parent(s) == p)
  {
    var left, right := 2 * p + 1, 2 * p + 2;
    var s := if left < h.used && h.At(p) > h.At(left) then left else p;
    if right < h.used && h.At(right) < h.At(p) && h.At(right) < h.At(left) then right else s
  }

  function Down(h: Heap, p: nat): (r: Heap)
    requires WellFormed(h) && p < |h.keys|
    ensures WellFormed(r)
    decreases |h.keys| - p
  {
    var s := Smallest(h, p);
    if s > p then Down(Swap(h, p, s), s) else h
  }

  function Up(h: Heap, c: nat): (r: Heap)
    requires WellFormed(h) && c < |h.keys|
    ensures WellFormed(r)
    decreases c
  {
    if h.At(c) < h.At(Parent(c)) then Up(Swap(h, Parent(c), c), Parent(c)) else h
  }

  /** The heap of `minheap_pop` before sifting: the last key moved to the root. */
  function LastToRoot(h: Heap): (r: Heap)
    requires WellFormed(h) && h.used > 0
    ensures WellFormed(r)
  {
    var last := h.keys[h.used - 1];
    Heap(h.nodes[last := h.nodes[last].(treeindex := 0)], h.keys[0 := last], h.used - 1)
  }

  /** The heap after the root is taken out. */
  function Pop(h: Heap): (r: Heap)
    requires WellFormed(h) && h.used > 0
    ensures WellFormed(r)
  {
    Down(LastToRoot(h), 0)
  }

  /** Node p gets a new area and moves to where it belongs. */
  function Reweigh(h: Heap, p: nat, area: real): (r: Heap)
    requires WellFormed(h) && p < |h.nodes| && h.nodes[p].treeindex < |h.keys|
    ensures WellFormed(r)
  {
    Update(h.(nodes := h.nodes[p := h.nodes[p].(area := area)]), h.nodes[p].treeindex)
  }

  function Update(h: Heap, i: nat): (r: Heap)
    requires WellFormed(h) && i < |h.keys|
    ensures WellFormed(r)
  {
    if h.At(i) < h.At(Parent(i)) then Up(h, i) else Down(h, i)
  }

  // ---------- what they keep ----------

  lemma SwapContents(h: Heap, i: nat, j: nat)
    requires Indexed(h) && i < h.used && j < h.used && i != j
    ensures Indexed(Swap(h, i, j)) && SameContents(h, Swap(h, i, j))
    ensures forall k :: 0 <= k < h.used ==>
              Swap(h, i, j).At(k) == h.At(if k == i then j else if k == j then i else k)
  {
    var r := Swap(h, i, j);
    assert h.keys[i] != h.keys[j];
    forall p: nat ensures r.In(p) <==> h.In(p) {
      if h.In(p) {
        assert p == h.keys[h.nodes[p].treeindex];
      }
      if r.In(p) {
        assert p == r.keys[r.nodes[p].treeindex];
      }
    }
  }

  lemma SameContentsTrans(a: Heap, b: Heap, c: Heap)
    requires SameContents(a, b) && SameContents(b, c)
    ensures SameContents(a, c)
  {
  }

  lemma SwapDown(h: Heap, p: nat)
    requires Indexed(h) && p < |h.keys| && OrderedButDown(h, p)
    requires Smallest(h, p) > p
    ensures var m := Swap(h, p, Smallest(h, p));
            Indexed(m) && SameContents(h, m) && OrderedButDown(m, Smallest(h, p))
  {
    var s := Smallest(h, p);
    var m := Swap(h, p, s);
    SwapContents(h, p, s);
    forall k | 1 <= k < m.used && Parent(k) != s ensures m.At(Parent(k)) <= m.At(k) {
      if Parent(k) == p && k != s {
        assert k == 2 * p + 1 || k == 2 * p + 2;
      }
    }
  }

  lemma SmallestIsParent(h: Heap, p: nat)
    requires WellFormed(h) && p < |h.keys| && OrderedButDown(h, p)
    requires Smallest(h, p) == p
    ensures Ordered(h)
  {
    forall k | 1 <= k < h.used ensures h.At(Parent(k)) <= h.At(k) {
      if Parent(k) == p {
        assert k == 2 * p + 1 || k == 2 * p + 2;
      }
    }
  }

  lemma {:induction false} DownRestores(h: Heap, p: nat)
    requires Indexed(h) && p < |h.keys| && OrderedButDown(h, p)
    ensures Indexed(Down(h, p)) && Ordered(Down(h, p)) && SameContents(h, Down(h, p))
    decreases |h.keys| - p
  {
    var s := Smallest(h, p);
    if s > p {
      SwapDown(h, p);
      DownRestores(Swap(h, p, s), s);
      SameContentsTrans(h, Swap(h, p, s), Down(h, p));
    } else {
      SmallestIsParent(h, p);
    }
  }

  lemma {:induction false} UpRestores(h: Heap, c: nat)
    requires Indexed(h) && c < h.used && OrderedButUp(h, c)
    ensures Indexed(Up(h, c)) && Ordered(Up(h, c)) && SameContents(h, Up(h, c))
    decreases c
  {
    if h.At(c) < h.At(Parent(c)) {
      var p := Parent(c);
      var m := Swap(h, p, c);
      SwapContents(h, p, c);
      assert OrderedButUp(m, p) by {
        forall k | 1 <= k < m.used && k != p ensures m.At(Parent(k)) <= m.At(k) {
          if k != c && Parent(k) == p {
            assert h.At(p) <= h.At(k);
          }
        }
      }
      UpRestores(m, p);
      SameContentsTrans(h, m, Up(m, p));
    }
  }

  lemma {:induction false} RootIsLeast(h: Heap, k: nat)
    requires Ordered(h) && k < h.used
    ensures h.At(0) <= h.At(k)
  {
    if k > 0 {
      RootIsLeast(h, Parent(k));
    }
  }

  lemma LastToRootKeeps(h: Heap)
    requires Indexed(h) && Ordered(h) && h.used > 0
    ensures var m := LastToRoot(h);
            && Indexed(m) && OrderedButDown(m, 0) && h.In(h.keys[0]) && !m.In(h.keys[0])
            && (forall p: nat | p != h.keys[0] :: m.In(p) <==> h.In(p))
  {
    var last := h.keys[h.used - 1];
    var m := LastToRoot(h);
    forall k | 1 <= k < m.used ensures m.nodes[m.keys[k]].treeindex == k {
      assert h.keys[k] != last;
    }
    forall p: nat | p != h.keys[0] ensures m.In(p) <==> h.In(p) {
      if h.In(p) {
        assert p == h.keys[h.nodes[p].treeindex];
      }
      if m.In(p) && p != last {
        assert p == h.keys[h.nodes[p].treeindex];
      }
    }
  }

  /** The root is in the heap, has the least area in it, and popping takes out exactly that node. */
  lemma PopTakesLeast(h: Heap)
    requires Indexed(h) && Ordered(h) && h.used > 0
    ensures var r, root := Pop(h), h.keys[0];
            && Indexed(r) && Ordered(r) && r.used == h.used - 1
            && |r.nodes| == |h.nodes| && |r.keys| == |h.keys|
            && h.In(root) && !r.In(root)
            && (forall p: nat :: h.In(p) ==> h.nodes[root].area <= h.nodes[p].area)
            && (forall p: nat | p != root :: r.In(p) <==> h.In(p))
            && (forall p :: 0 <= p < |h.nodes| ==>
                  r.nodes[p].area == h.nodes[p].area && r.nodes[p].prev == h.nodes[p].prev
                  && r.nodes[p].next == h.nodes[p].next)
  {
    LastToRootKeeps(h);
    DownRestores(LastToRoot(h), 0);
    forall p: nat | h.In(p) ensures h.nodes[h.keys[0]].area <= h.nodes[p].area {
      RootIsLeast(h, h.nodes[p].treeindex);
    }
  }

  lemma RaiseOrLower(h: Heap, m: Heap, i: nat)
    requires WellFormed(h) && WellFormed(m) && Ordered(h) && m.used == h.used && i < h.used
    requires forall k :: 0 <= k < h.used && k != i ==> m.At(k) == h.At(k)
    ensures m.At(i) < m.At(Parent(i)) ==> OrderedButUp(m, i)
    ensures m.At(i) >= m.At(Parent(i)) ==> OrderedButDown(m, i)
  {
    forall k | 1 <= k < m.used && Parent(k) == i && i > 0 ensures m.At(Parent(i)) <= m.At(k) {
      assert h.At(Parent(i)) <= h.At(i) <= h.At(k);
    }
    forall k | 1 <= k < m.used && Parent(k) != i && k != i ensures m.At(Parent(k)) <= m.At(k) {
      assert h.At(Parent(k)) <= h.At(k);
    }
    if m.At(i) < m.At(Parent(i)) {
      forall k | 1 <= k < m.used && Parent(k) == i ensures m.At(Parent(k)) <= m.At(k) {
        assert h.At(Parent(i)) <= h.At(i) <= h.At(k);
      }
    }
  }

  /** Changing one area and updating keeps the heap, its members and every other area. */
  lemma ReweighKeeps(h: Heap, p: nat, area: real)
    requires Indexed(h) && Ordered(h) && h.In(p)
    ensures var r := Reweigh(h, p, area);
            && Indexed(r) && Ordered(r) && r.used == h.used
            && |r.nodes| == |h.nodes| && |r.keys| == |h.keys|
            && (forall q: nat :: r.In(q) <==> h.In(q))
            && (forall q :: 0 <= q < |h.nodes| ==>
                  r.nodes[q].area == (if q == p then area else h.nodes[q].area)
                  && r.nodes[q].prev == h.nodes[q].prev && r.nodes[q].next == h.nodes[q].next)
  {
    var i := h.nodes[p].treeindex;
    var m := h.(nodes := h.nodes[p := h.nodes[p].(area := area)]);
    assert forall k :: 0 <= k < h.used && k != i ==> h.keys[k] != p;
    assert forall q: nat :: m.In(q) <==> h.In(q);
    RaiseOrLower(h, m, i);
    if m.At(i) < m.At(Parent(i)) {
      UpRestores(m, i);
    } else {
      DownRestores(m, i);
    }
  }
}
