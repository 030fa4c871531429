/** Division and multiplication facts used by several modules. */
module Arith {
  /** The number of values of a 32-bit word. */
  const WORD: int := 0x1_0000_0000

  lemma MulAtLeast(w: int, n: int)
    requires n >= 1
    ensures w >= 1 ==> w * n >= n
  {
    if w >= 1 { assert w * n == n + (w - 1) * n; }
  }

  lemma MulMono(a: int, b: int, p: nat)
    requires a <= b
    ensures a * p <= b * p
  {
    assert b * p == a * p + (b - a) * p;
  }

  lemma DivModUnique(n: int, u: int, r: int, v: int, s: int)
    requires n >= 1 && u * n + r == v * n + s && 0 <= r < n && 0 <= s < n
    ensures u == v && r == s
  {
    var w := u - v;
    assert w * n == s - r by { assert w * n == u * n - v * n; }
    MulAtLeast(w, n);
    MulAtLeast(-w, n);
    assert (-w) * n == -(w * n);
  }

  lemma DivModIs(x: int, n: int, u: int, r: int)
    requires n >= 1 && x == u * n + r && 0 <= r < n
    ensures x / n == u && x % n == r
  {
    var v, s := x / n, x % n;
    assert x == v * n + s;
    DivModUnique(n, u, r, v, s);
  }

  lemma QuotientBound(i: nat, p: nat, n: nat)
    requires p >= 1 && i < n * p
    ensures 0 <= i / p < n && i == (i / p) * p + i % p
  {
    var u := i / p;
    assert i == u * p + i % p;
    if u >= n { MulMono(n, u, p); }
  }

  lemma ModShift(i: int, n: int, d: int)
    requires n >= 1 && 0 <= i % n + d < n
    ensures (i + d) % n == i % n + d
  {
    assert i == (i / n) * n + i % n;
    DivModIs(i + d, n, i / n, i % n + d);
  }

  lemma ModTwice(x: int, n: int)
    requires n >= 1
    ensures (x % n) % n == x % n
  {
    DivModIs(x % n, n, 0, x % n);
  }
}
