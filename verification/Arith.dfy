/** Integer arithmetic shared by the models: powers of two, the bit tricks the
    sources use on unbounded integers, and rounding-up division. */
module Arith {

  function Max(a: int, b: int): int {
    if a < b then b else a
  }

  function Min(a: int, b: int): int {
    if a < b then a else b
  }

  function Pow2(k: nat): (p: nat)
    ensures p >= 1
  {
    if k == 0 then 1 else 2 * Pow2(k - 1)
  }

  /** Bitwise conjunction of two naturals, bit by bit. */
  function BitAnd(a: nat, b: nat): nat {
    if a == 0 || b == 0 then 0
    else (if a % 2 == 1 && b % 2 == 1 then 1 else 0) + 2 * BitAnd(a / 2, b / 2)
  }

  /** The `v != 0 and (v & (v - 1)) == 0` test. */
  predicate IsPow2(v: nat) {
    v != 0 && BitAnd(v, v - 1) == 0
  }

  /** Position of the highest set bit; 0 for 0 and 1. */
  function Log2(v: nat): nat {
    if v <= 1 then 0 else 1 + Log2(v / 2)
  }

  lemma {:induction false} BitAndSelf(v: nat)
    ensures BitAnd(v, v) == v
  {
    if v != 0 {
      BitAndSelf(v / 2);
    }
  }

  /** The bit test accepts exactly the powers of two, and Log2 is their exponent. */
  lemma {:induction false} IsPow2Exact(v: nat)
    ensures IsPow2(v) <==> v == Pow2(Log2(v))
  {
    if v <= 1 {
      assert v == 0 || BitAnd(1, 0) == 0;
    } else if v % 2 == 0 {
      IsPow2Exact(v / 2);
      assert (v - 1) / 2 == v / 2 - 1;
    } else {
      assert (v - 1) / 2 == v / 2;
      BitAndSelf(v / 2);
    }
  }

  lemma {:induction false} Log2OfPow2(k: nat)
    ensures Log2(Pow2(k)) == k
  {
    if k != 0 {
      Log2OfPow2(k - 1);
    }
  }

  lemma {:induction false} Pow2Above(k: nat)
    ensures k < Pow2(k)
  {
    if k != 0 {
      Pow2Above(k - 1);
    }
  }

  lemma {:induction false} Pow2Mono(i: nat, k: nat)
    requires i <= k
    ensures Pow2(i) <= Pow2(k)
    decreases k
  {
    if i < k {
      Pow2Mono(i, k - 1);
    }
  }

  /** Round `a` up to a whole number of groups of `b`. */
  function CeilDiv(a: nat, b: nat): (q: nat)
    requires b > 0
  {
    (a + b - 1) / b
  }

  /** CeilDiv is the least number of groups of `b` that hold `a`. */
  lemma CeilDivLeast(a: nat, b: nat, q: nat)
    requires b > 0
    ensures a <= CeilDiv(a, b) * b < a + b
    ensures a <= q * b <==> CeilDiv(a, b) <= q
  {
    var c := CeilDiv(a, b);
    DivBounds(a + b - 1, b);
    assert c * b <= a + b - 1 < c * b + b;
    if c <= q {
      MulMono(c, q, b);
    } else {
      MulMono(q + 1, c, b);
      assert (q + 1) * b == q * b + b;
    }
  }

  lemma DivBounds(a: nat, b: nat)
    requires b > 0
    ensures a / b * b <= a < a / b * b + b
  {
    assert a == a / b * b + a % b;
  }

  lemma MulMono(p: nat, q: nat, b: nat)
    requires p <= q
    ensures p * b <= q * b
  {
    assert q * b == p * b + (q - p) * b;
  }

  lemma MulCancel(p: nat, q: nat, b: nat)
    ensures p * b < q * b + b ==> p <= q
  {
    if q < p {
      MulMono(q + 1, p, b);
      assert (q + 1) * b == q * b + b;
    }
  }

  /** A quotient is determined by its bounds. */
  lemma DivUnique(a: nat, b: nat, q: nat)
    requires b > 0 && q * b <= a < q * b + b
    ensures a / b == q
  {
    DivBounds(a, b);
    MulCancel(a / b, q, b);
    MulCancel(q, a / b, b);
  }

  /** Halving a quotient doubles the divisor. */
  lemma HalveTwice(a: nat, b: nat)
    requires b > 0
    ensures a / b / 2 == a / (2 * b)
  {
    var q := a / (2 * b);
    DivBounds(a, 2 * b);
    assert q * (2 * b) == (2 * q) * b;
    DivBounds(a, b);
    var c := a / b;
    MulCancel(2 * q, c, b);
    MulCancel(c, 2 * q + 1, b);
    assert (2 * q + 1) * b == 2 * q * b + b;
  }
}
