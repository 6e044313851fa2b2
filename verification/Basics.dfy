/** What several parts of liblwgeom use. */
module Basics {
  type byte = b: int | 0 <= b < 256

  datatype Option<T> = None | Some(value: T)

  const FLT_MAX := 340282346638528859811704183484516925440.0

  function Bit(b: bool): nat {
    if b then 1 else 0
  }

  lemma DivUnique(i: int, n: int, q: int, r: int)
    requires n > 0 && 0 <= r < n && i == n * q + r
    ensures i / n == q && i % n == r
  {
    var k := i / n - q;
    assert i == n * (i / n) + i % n;
    assert n * k == r - i % n;
    assert k > 0 ==> n * k >= n;
    assert k < 0 ==> n * k <= -n;
  }
}
