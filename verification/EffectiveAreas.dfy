/** liblwgeom/effectivearea.c as it runs: arrays of nodes, keys and areas changed in place. Every method
    does what its function on values says. */
module EffectiveAreas {
  import opened Basics
  import opened IndexedHeap
  import opened EffectiveArea
  import opened EffectiveAreaStart

  /** EFFECTIVE_AREAS together with the MINHEAP that `tune_areas` keeps over it. */
  class Areas {
    const p: Problem
    const nodes: array<AreaNode>
    const res: array<real>
    const keys: array<nat>
    var used: nat

    function Tree(): Heap
      reads this, nodes, keys
    {
      Heap(nodes[..], keys[..], used)
    }

    constructor (p: Problem)
      requires ValidProblem(p)
      ensures this.p == p && nodes.Length == res.Length == keys.Length == p.n
      ensures fresh(nodes) && fresh(res) && fresh(keys)
    {
      this.p := p;
      nodes := new AreaNode[p.n](_ => AreaNode(0.0, 0, 0, 0));
      res := new real[p.n](_ => 0.0);
      keys := new nat[p.n](_ => 0);
      used := 0;
    }

    method Exchange(i: nat, j: nat)
      requires WellFormed(Tree()) && i < keys.Length && j < keys.Length
      modifies nodes, keys
      ensures Tree() == Swap(old(Tree()), i, j)
    {
      var tmp := keys[i];
      keys[i] := keys[j];
      nodes[keys[i]] := nodes[keys[i]].(treeindex := i);
      keys[j] := tmp;
      nodes[keys[j]] := nodes[keys[j]].(treeindex := j);
    }

    /** Sift down. */
    method SiftDown(parent: nat)
      requires WellFormed(Tree()) && parent < keys.Length
      modifies nodes, keys
      ensures Tree() == Down(old(Tree()), parent)
      decreases keys.Length - parent
    {
      var left := parent * 2 + 1;
      var right := left + 1;
      var swap := parent;
      var leftarea, rightarea := 0.0, 0.0;
      var parentarea := nodes[keys[parent]].area;
      if left < used {
        leftarea := nodes[keys[left]].area;
        if parentarea > leftarea {
          swap := left;
        }
      }
      if right < used {
        rightarea := nodes[keys[right]].area;
        if rightarea < parentarea && rightarea < leftarea {
          swap := right;
        }
      }
      assert swap == Smallest(Tree(), parent);
      if swap > parent {
        Exchange(parent, swap);
        if swap < used {
          SiftDown(swap);
        }
      }
    }

    /** Sift up. */
    method SiftUp(start: nat)
      requires WellFormed(Tree()) && start < keys.Length
      modifies nodes, keys
      ensures Tree() == Up(old(Tree()), start)
    {
      var c := start;
      var parent := Parent(c);
      while nodes[keys[c]].area < nodes[keys[parent]].area
        invariant 0 <= c < keys.Length && parent == Parent(c) && WellFormed(Tree())
        invariant Up(Tree(), c) == Up(old(Tree()), start)
        decreases c
      {
        Exchange(parent, c);
        c := parent;
        parent := Parent(c);
      }
    }

    method MinheapPop() returns (least: nat)
      requires WellFormed(Tree()) && used > 0
      modifies this, nodes, keys
      ensures Tree() == Pop(old(Tree())) && least == old(keys[0])
    {
      least := keys[0];
      keys[0] := keys[used - 1];
      nodes[keys[0]] := nodes[keys[0]].(treeindex := 0);
      used := used - 1;
      assert Tree() == LastToRoot(old(Tree()));
      SiftDown(0);
    }

    method MinheapUpdate(idx: nat)
      requires WellFormed(Tree()) && idx < keys.Length
      modifies nodes, keys
      ensures Tree() == Update(old(Tree()), idx)
    {
      if nodes[keys[idx]].area < nodes[keys[Parent(idx)]].area {
        SiftUp(idx);
      } else {
        SiftDown(idx);
      }
    }

    /** The neighbours of an eliminated point get the areas they now have. */
    method RefileNeighbours(before: nat, after: nat, r: real)
      requires Sane(p, Tree()) && Indexed(Tree()) && Ordered(Tree())
      requires before < p.n && after < p.n && before != after
      requires (before > 0 ==> Tree().In(before)) && (after < p.n - 1 ==> Tree().In(after))
      modifies nodes, keys
      ensures Tree() == Refile(p, old(Tree()), before, after, r)
    {
      if before > 0 {
        ReweighKeeps(Tree(), before, Max(p.tri(nodes[before].prev, before, after), r));
        var area := p.tri(nodes[before].prev, before, after);
        nodes[before] := nodes[before].(area := Max(area, r));
        MinheapUpdate(nodes[before].treeindex);
      }
      if after < p.n - 1 {
        var area := p.tri(before, after, nodes[after].next);
        nodes[after] := nodes[after].(area := Max(area, r));
        MinheapUpdate(nodes[after].treeindex);
      }
    }

    method UnlinkPoint(current: nat, before: nat, after: nat)
      requires WellFormed(Tree()) && current < nodes.Length && before < nodes.Length && after < nodes.Length
      modifies nodes
      ensures Tree() == Unlink(old(Tree()), current, before, after)
    {
      nodes[before] := nodes[before].(next := nodes[current].next);
      nodes[after] := nodes[after].(prev := nodes[current].prev);
    }

    /** The arrays and the loop variables hold the state s. */
    ghost predicate Matches(s: State, check: real, i: int)
      reads this, nodes, keys, res
    {
      nodes.Length > 0 && Tree() == s.heap && res[..] == s.res && check == s.check && i == s.i
    }

    /** The test at the end of a round. */
    function AtEnd(check: real, setArea: bool, trshld: real): bool
      requires nodes.Length > 0
      reads nodes
    {
      (!setArea && check >= trshld) || nodes[0].next == nodes.Length - 1
    }

    /** One round of the loop of `tune_areas`, for the loop variables check and i. */
    method EliminateNext(ghost s: State, check: real, i: nat) returns (r: real, bug: bool)
      requires Inv(p, s) && s.heap.used > 0
      requires nodes.Length == res.Length == keys.Length == p.n
      requires Matches(s, check, i)
      modifies this, nodes, keys, res
      ensures !bug && Matches(Step(p, s), r, i + 1)
    {
      StepInParts(p, s);
      var current := MinheapPop();
      if i < p.n - p.avoid {
        res[current] := nodes[current].area;
      } else {
        res[current] := FLT_MAX;
      }
      r := res[current];
      bug := res[current] < check;
      var before, after := nodes[current].prev, nodes[current].next;
      RefileNeighbours(before, after, r);
      UnlinkPoint(current, before, after);
    }

    /** The loop of `tune_areas` from its first state: it never reports the bug, and ends in the final state. */
    method TuneAreas(ghost first: State, setArea: bool, trshld: real) returns (bug: bool)
      requires Inv(p, first) && Ready(first) && first.check == 0.0 && first.i == 0
      requires nodes.Length == res.Length == keys.Length == p.n
      requires Tree() == first.heap && res[..] == first.res
      modifies this, nodes, keys, res
      ensures !bug && res[..] == Run(p, first, setArea, trshld).res
    {
      ghost var s := first;
      var check, i, goOn := 0.0, 0, true;
      bug := false;
      while goOn
        invariant !bug && Inv(p, s) && Matches(s, check, i)
        invariant goOn ==> Ready(s) && Run(p, s, setArea, trshld) == Run(p, first, setArea, trshld)
        invariant !goOn ==> s == Run(p, first, setArea, trshld)
        decreases goOn, used
      {
        Advance(p, s, setArea, trshld);
        check, bug := EliminateNext(s, check, i);
        i := i + 1;
        s := Step(p, s);
        goOn := !AtEnd(check, setArea, trshld);
      }
    }

    /** The first links and areas, and FLT_MAX as every result. */
    method FillNodes()
      requires ValidProblem(p) && nodes.Length == res.Length == keys.Length == p.n
      modifies nodes, res
      ensures forall q :: 0 <= q < p.n ==>
                && nodes[q].area == FirstArea(p, q)
                && nodes[q].prev == (if q == 0 then 0 else q - 1)
                && nodes[q].next == (if q == p.n - 1 then q else q + 1)
      ensures res[..] == seq(p.n, q => FLT_MAX)
    {
      nodes[0] := nodes[0].(area := FLT_MAX, next := 1, prev := 0);
      res[0] := FLT_MAX;
      for i := 1 to p.n - 1
        invariant forall q :: 0 <= q < i ==>
                    && nodes[q].area == FirstArea(p, q)
                    && nodes[q].prev == (if q == 0 then 0 else q - 1) && nodes[q].next == q + 1
        invariant res[0] == FLT_MAX
      {
        nodes[i] := nodes[i].(next := i + 1, prev := i - 1, area := p.tri(i - 1, i, i + 1));
      }
      nodes[p.n - 1] := nodes[p.n - 1].(area := FLT_MAX, next := p.n - 1, prev := p.n - 2);
      res[p.n - 1] := FLT_MAX;
      for i := 1 to p.n - 1
        invariant forall q :: 0 <= q < i || q == p.n - 1 ==> res[q] == FLT_MAX
        invariant forall q :: 0 <= q < p.n ==>
                    && nodes[q].area == FirstArea(p, q)
                    && nodes[q].prev == (if q == 0 then 0 else q - 1)
                    && nodes[q].next == (if q == p.n - 1 then q else q + 1)
      {
        res[i] := FLT_MAX;
      }
    }

    /** Stands for `qsort` with `cmpfunc`; SortedIsUnique shows that its result is the only one possible. */
    method SortTheKeys()
      requires ValidProblem(p) && keys.Length == p.n
      modifies keys
      ensures Sorted(FirstAreas(p), keys[..])
    {
      var order := SortedKeys(FirstAreas(p), p.n);
      SortedKeysInOrder(FirstAreas(p), p.n);
      for k := 0 to p.n
        invariant keys[..k] == order[..k]
      {
        keys[k] := order[k];
      }
      assert keys[..] == order;
    }

    /** The references from the points to their keys. */
    method FillIndexes()
      requires nodes.Length == keys.Length && Sorted(FirstAreas(p), keys[..]) && nodes.Length == p.n
      modifies nodes
      ensures forall k :: 0 <= k < keys.Length ==> nodes[keys[k]].treeindex == k
      ensures forall q :: 0 <= q < nodes.Length ==> nodes[q] == old(nodes[q]).(treeindex := nodes[q].treeindex)
    {
      for i := 0 to keys.Length
        invariant forall k :: 0 <= k < i ==> nodes[keys[k]].treeindex == k
        invariant forall q :: 0 <= q < nodes.Length ==> nodes[q] == old(nodes[q]).(treeindex := nodes[q].treeindex)
      {
        assert forall k :: 0 <= k < i ==> Before(FirstAreas(p), keys[..][k], keys[..][i]);
        nodes[keys[i]] := nodes[keys[i]].(treeindex := i);
      }
    }

    /** Everything before the loop: the arrays hold the first state. */
    method Prepare() returns (ghost first: State)
      requires ValidProblem(p) && nodes.Length == res.Length == keys.Length == p.n
      modifies this, nodes, keys, res
      ensures Start(p, first) && Tree() == first.heap && res[..] == first.res
    {
      FillNodes();
      SortTheKeys();
      FillIndexes();
      used := p.n;
      first := State(Tree(), res[..], 0.0, 0, AllPoints(p.n));
    }

    /** `ptarray_calc_areas`: the results are those of the only possible first state. */
    method CalcAreas(setArea: bool, trshld: real) returns (bug: bool)
      requires ValidProblem(p) && nodes.Length == res.Length == keys.Length == p.n
      modifies this, nodes, keys, res
      ensures !bug && Results(p, setArea, trshld, res[..])
    {
      ghost var first := Prepare();
      StartIsInvariant(p, first);
      bug := TuneAreas(first, setArea, trshld);
      FirstResults(p, first, setArea, trshld);
    }

    /** The same, with what these results are to the naive algorithm. */
    method CalcNaiveAreas(setArea: bool, trshld: real)
      returns (bug: bool, ghost areas: seq<real>, ghost order: seq<nat>)
      requires ValidProblem(p) && nodes.Length == res.Length == keys.Length == p.n
      modifies this, nodes, keys, res
      ensures !bug
      ensures NaiveRun(p, order, areas)
      ensures forall q: nat :: FirstOfLeast(p, q) ==> order != [] && order[0] == q
      ensures |areas| == p.n && areas[0] == areas[p.n - 1] == FLT_MAX && (setArea ==> res[..] == areas)
      ensures forall q :: 0 <= q < p.n ==> (res[q] >= trshld <==> areas[q] >= trshld)
    {
      bug := CalcAreas(setArea, trshld);
      areas, order := Simplified(p, setArea, trshld, res[..]);
    }

    /** The points whose result reaches the threshold, in order, with their results if these are asked for. */
    method Collect(setArea: bool, trshld: real) returns (kept: seq<nat>, m: seq<real>)
      ensures forall q: nat :: q in kept <==> q < res.Length && res[q] >= trshld
      ensures forall j, k :: 0 <= j < k < |kept| ==> kept[j] < kept[k]
      ensures setArea ==> |m| == |kept| && forall k :: 0 <= k < |m| ==> kept[k] < res.Length && m[k] == res[kept[k]]
    {
      kept, m := [], [];
      for q := 0 to res.Length
        invariant forall x :: x in kept <==> 0 <= x < q && res[x] >= trshld
        invariant forall k :: 0 <= k < |kept| ==> kept[k] < q
        invariant forall j, k :: 0 <= j < k < |kept| ==> kept[j] < kept[k]
        invariant setArea ==> |m| == |kept| && forall k :: 0 <= k < |m| ==> kept[k] < res.Length && m[k] == res[kept[k]]
      {
        if res[q] >= trshld {
          kept := kept + [q];
          if setArea {
            m := m + [res[q]];
          }
        }
      }
    }

    /** `ptarray_set_effective_area`: the points kept are the same whether or not their areas are asked for. They are
        those to which the naive algorithm gives an area not below the threshold. */
    method SetEffectiveArea(setArea: bool, trshld: real)
      returns (kept: seq<nat>, m: seq<real>, bug: bool, ghost areas: seq<real>, ghost order: seq<nat>)
      requires ValidProblem(p) && nodes.Length == res.Length == keys.Length == p.n
      modifies this, nodes, keys, res
      ensures !bug
      ensures NaiveRun(p, order, areas)
      ensures forall q: nat :: FirstOfLeast(p, q) ==> order != [] && order[0] == q
      ensures |areas| == p.n && areas[0] == areas[p.n - 1] == FLT_MAX
      ensures forall q: nat :: q in kept <==> q < p.n && areas[q] >= trshld
      ensures forall j, k :: 0 <= j < k < |kept| ==> kept[j] < kept[k]
      ensures setArea ==> |m| == |kept| && forall k :: 0 <= k < |m| ==> kept[k] < p.n && m[k] == areas[kept[k]]
    {
      bug, areas, order := CalcNaiveAreas(setArea, trshld);
      kept, m := Collect(setArea, trshld);
    }
  }
}
