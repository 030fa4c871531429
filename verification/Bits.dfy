/** Bitwise operations on two's complement numbers, defined bit by bit from the lowest bit up, without a
    width and on words of w bits. */
module Bits {
  import opened Arith

  function Pow2(k: int): (r: int)
    ensures r >= 1
  {
    if k <= 0 then 1 else 2 * Pow2(k - 1)
  }

  function Size(a: int): nat {
    if a >= 0 then a else -a
  }

  /** a ^ b. Division rounds down, so the bits of -1 are all ones. */
  function Xor(a: int, b: nat): int
    decreases b
  {
    if b == 0 then a else 2 * Xor(a / 2, b / 2) + (a + b) % 2
  }

  function Both(d: int, e: int): int {
    if d == 1 && e == 1 then 1 else 0
  }

  /** a & b. */
  function And(a: int, b: int): int
    decreases Size(a)
  {
    if a == 0 || b == 0 then 0
    else if a == -1 then b
    else if b == -1 then a
    else 2 * And(a / 2, b / 2) + Both(a % 2, b % 2)
  }

  /** Bit k of i is zero. */
  predicate BitClear(i: int, k: int) {
    i % (2 * Pow2(k)) < Pow2(k)
  }

  // ----- Words -----

  function XorWord(a: int, b: int, w: nat): int
    decreases w
  {
    if w == 0 then 0 else 2 * XorWord(a / 2, b / 2, w - 1) + (a + b) % 2
  }

  function AndWord(a: int, b: int, w: nat): int
    decreases w
  {
    if w == 0 then 0 else 2 * AndWord(a / 2, b / 2, w - 1) + Both(a % 2, b % 2)
  }

  /** The remainder by 2p is the lowest bit and the remainder by p of the rest. */
  lemma LowBits(x: int, h: int, e: int, p: int)
    requires x == 2 * h + e && 0 <= e <= 1 && p >= 1
    ensures x % (2 * p) == 2 * (h % p) + e
  {
    var q, r := h / p, h % p;
    assert h == q * p + r;
    assert q * (2 * p) == 2 * (q * p);
    DivModIs(x, 2 * p, q, 2 * r + e);
  }

  /** Operating on words is operating on the numbers and keeping the lowest w bits. */
  lemma {:induction false} XorWordIs(a: int, b: nat, w: nat)
    ensures XorWord(a, b, w) == Xor(a, b) % Pow2(w)
    decreases w
  {
    if w > 0 {
      XorWordIs(a / 2, b / 2, w - 1);
      XorStep(a, b);
      LowBits(Xor(a, b), Xor(a / 2, b / 2), (a + b) % 2, Pow2(w - 1));
    }
  }

  lemma {:induction false} AndWordIs(a: int, b: int, w: nat)
    ensures AndWord(a, b, w) == And(a, b) % Pow2(w)
    decreases w
  {
    if w > 0 {
      AndWordIs(a / 2, b / 2, w - 1);
      AndStep(a, b);
      LowBits(And(a, b), And(a / 2, b / 2), Both(a % 2, b % 2), Pow2(w - 1));
    }
  }

  // ----- One bit -----

  lemma XorStep(a: int, b: nat)
    ensures Xor(a, b) == 2 * Xor(a / 2, b / 2) + (a + b) % 2
  {
  }

  lemma AndStep(a: int, b: int)
    ensures And(a, b) == 2 * And(a / 2, b / 2) + Both(a % 2, b % 2)
  {
  }

  /** Bit k of i is bit k - 1 of i / 2, and bit 0 is the remainder. */
  lemma BitAbove(i: int, k: int)
    requires k > 0
    ensures BitClear(i, k) <==> BitClear(i / 2, k - 1)
  {
    LowBits(i, i / 2, i % 2, Pow2(k));
    assert Pow2(k) == 2 * Pow2(k - 1);
  }

  lemma LowestBit(i: int, k: int)
    requires k <= 0
    ensures Pow2(k) == 1 && (BitClear(i, k) <==> i % 2 == 0)
  {
  }

  /** Exclusive or with one bit adds it where it is clear and takes it away where it is set. */
  lemma {:induction false} XorBit(i: int, k: int)
    ensures Xor(i, Pow2(k)) == if BitClear(i, k) then i + Pow2(k) else i - Pow2(k)
    decreases k
  {
    if k > 0 {
      XorBit(i / 2, k - 1);
      BitAbove(i, k);
      XorHalf(i, k);
    } else {
      LowestBit(i, k);
      XorLowest(i);
    }
  }

  lemma XorLowest(i: int)
    ensures Xor(i, 1) == 2 * (i / 2) + (1 - i % 2)
  {
    assert Xor(i / 2, 0) == i / 2;
  }

  lemma XorParts(h: int, e: int, q: nat)
    requires 0 <= e <= 1 && q >= 1
    ensures Xor(2 * h + e, 2 * q) == 2 * Xor(h, q) + e
  {
    assert (2 * h + e) / 2 == h && (2 * q) / 2 == q && (2 * h + e + 2 * q) % 2 == e;
  }

  lemma XorHalf(i: int, k: int)
    requires k > 0
    ensures Pow2(k) == 2 * Pow2(k - 1) && Xor(i, Pow2(k)) == 2 * Xor(i / 2, Pow2(k - 1)) + i % 2
  {
    XorParts(i / 2, i % 2, Pow2(k - 1));
    assert i == 2 * (i / 2) + i % 2;
  }

  lemma {:induction false} AndSelf(a: int)
    ensures And(a, a) == a
    decreases Size(a)
  {
    if a != 0 && a != -1 {
      AndSelf(a / 2);
    }
  }

  lemma AndParts(h: int, d: int, g: int, e: int)
    requires 0 <= d <= 1 && 0 <= e <= 1
    ensures And(2 * h + d, 2 * g + e) == 2 * And(h, g) + Both(d, e)
  {
    AndStep(2 * h + d, 2 * g + e);
  }

  function Lower(a: int, b: int): int {
    if a < b then a else b
  }

  /** And of a number with itself but for one bit has that bit clear: it is the lower of the two. */
  lemma {:induction false} AndXorBit(i: int, k: int)
    ensures And(i, Xor(i, Pow2(k))) == Lower(i, Xor(i, Pow2(k)))
    decreases k
  {
    var h, e := i / 2, i % 2;
    assert i == 2 * h + e;
    if k > 0 {
      AndXorBit(h, k - 1);
      XorHalf(i, k);
      AndAbove(h, Xor(h, Pow2(k - 1)), e);
    } else {
      XorLowest(i);
      AndLowest(h, e);
    }
  }

  lemma AndAbove(h: int, g: int, e: int)
    requires 0 <= e <= 1 && And(h, g) == Lower(h, g)
    ensures And(2 * h + e, 2 * g + e) == Lower(2 * h + e, 2 * g + e)
  {
    AndParts(h, e, g, e);
  }

  lemma AndLowest(h: int, e: int)
    requires 0 <= e <= 1
    ensures And(2 * h + e, 2 * h + (1 - e)) == 2 * h
  {
    AndSelf(h);
    AndParts(h, e, h, 1 - e);
  }

  // ----- Numbers that agree in the lowest bits -----

  lemma HalvesAgree(a: int, c: int, p: int)
    requires p >= 1 && a % (2 * p) == c % (2 * p)
    ensures a % 2 == c % 2 && (a / 2) % p == (c / 2) % p
  {
    LowBits(a, a / 2, a % 2, p);
    LowBits(c, c / 2, c % 2, p);
    Unpair((a / 2) % p, a % 2, (c / 2) % p, c % 2);
  }

  lemma Unpair(x: int, d: int, y: int, e: int)
    requires 2 * x + d == 2 * y + e && 0 <= d <= 1 && 0 <= e <= 1
    ensures x == y && d == e
  {
  }

  lemma SumBit(a: int, b: int, c: int, d: int)
    requires a % 2 == c % 2 && b % 2 == d % 2
    ensures (a + b) % 2 == (c + d) % 2
  {
  }

  /** The word operations depend on the lowest w bits only. */
  lemma {:induction false} SameWords(a: int, c: int, b: int, d: int, w: nat)
    requires a % Pow2(w) == c % Pow2(w) && b % Pow2(w) == d % Pow2(w)
    ensures XorWord(a, b, w) == XorWord(c, d, w) && AndWord(a, b, w) == AndWord(c, d, w)
    decreases w
  {
    if w > 0 {
      HalvesAgree(a, c, Pow2(w - 1));
      HalvesAgree(b, d, Pow2(w - 1));
      SumBit(a, b, c, d);
      SameWords(a / 2, c / 2, b / 2, d / 2, w - 1);
    }
  }
}
