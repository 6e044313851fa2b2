/** What the callers of the C library's `qsort` may rely on. */
module Sorting {

  ghost predicate SortedBy<T>(s: seq<T>, key: T -> real) {
    forall j, k :: 0 <= j < k < |s| ==> key(s[j]) <= key(s[k])
  }

  /** The elements of s ordered by key; nothing is promised about the order of equal keys. */
  method QSort<T(==)>(s: seq<T>, key: T -> real) returns (r: seq<T>)
    ensures multiset(r) == multiset(s) && SortedBy(r, key)
  {
    r := [];
    for i := 0 to |s|
      invariant multiset(r) == multiset(s[..i]) && SortedBy(r, key)
    {
      r := InsertBy(r, key, s[i]);
      assert s[..i + 1] == s[..i] + [s[i]];
    }
    assert s[..|s|] == s;
  }

  method InsertBy<T(==)>(s: seq<T>, key: T -> real, x: T) returns (r: seq<T>)
    requires SortedBy(s, key)
    ensures multiset(r) == multiset(s) + multiset{x} && SortedBy(r, key)
  {
    var k := 0;
    while k < |s| && key(s[k]) <= key(x)
      invariant 0 <= k <= |s| && forall j :: 0 <= j < k ==> key(s[j]) <= key(x)
    {
      k := k + 1;
    }
    r := s[..k] + [x] + s[k..];
    InsertedSorted(s, key, x, k, r);
    assert s == s[..k] + s[k..];
  }

  lemma InsertedSorted<T>(s: seq<T>, key: T -> real, x: T, k: nat, r: seq<T>)
    requires SortedBy(s, key) && k <= |s| && r == s[..k] + [x] + s[k..]
    requires forall j :: 0 <= j < k ==> key(s[j]) <= key(x)
    requires k < |s| ==> key(x) <= key(s[k])
    ensures SortedBy(r, key)
  {
    forall j | k <= j < |s| ensures key(x) <= key(s[j]) {
      assert key(s[k]) <= key(s[j]);
    }
    forall i, j | 0 <= i < j < |r| ensures key(r[i]) <= key(r[j]) {
      assert r[i] == if i < k then s[i] else if i == k then x else s[i - 1];
      assert r[j] == if j < k then s[j] else if j == k then x else s[j - 1];
    }
  }
}
