/** Division facts shared by the ring buffers and the number codecs. */
module Arith {

  lemma AtLeastOnce(d: int, k: int)
    requires d > 0 && k >= 1
    ensures d * k >= d
  {
  }

  lemma Distribute(d: int, x: int, y: int)
    ensures d * (x - y) == d * x - d * y
  {
  }

  lemma DivUnique(a: int, d: int, q: int, r: int)
    requires d > 0 && a == d * q + r && 0 <= r < d
    ensures a / d == q && a % d == r
  {
    var e, s := a / d, a % d;
    assert a == d * e + s;
    Distribute(d, e, q);
    Distribute(d, q, e);
    if e > q { AtLeastOnce(d, e - q); }
    if e < q { AtLeastOnce(d, q - e); }
  }

  /** Fewer than `n` apart, two counters never fall into the same slot of a ring. */
  lemma ModDistinct(a: int, b: int, n: int)
    requires 0 < n && a < b < a + n
    ensures a % n != b % n
  {
    var q, r := a / n, b / n;
    assert a == n * q + a % n && b == n * r + b % n;
    Distribute(n, r, q);
    if a % n == b % n {
      if r > q { AtLeastOnce(n, r - q); }
      if r < q { Distribute(n, q, r); AtLeastOnce(n, q - r); }
    }
  }

  lemma ModNext(a: int, n: int)
    requires 0 < n
    ensures (a + n) % n == a % n
  {
    var q := a / n;
    assert a == n * q + a % n;
    Distribute(n, q, -1);
    DivUnique(a + n, n, q + 1, a % n);
  }
}
