/** Facts about division and multiplication that the solver does not find by itself. */
module Arith {

  lemma MulMonotone(a: int, b: int, n: nat)
    requires a <= b
    ensures a * n <= b * n
  {
    assert (b - a) * n >= 0;
  }

  /** Quotient and remainder are determined by x == q * n + r. */
  lemma DivModUnique(x: int, n: int, q: int, r: int)
    requires n > 0 && 0 <= r < n && x == q * n + r
    ensures x / n == q && x % n == r
  {
    var q' := x / n;
    assert x == q' * n + x % n;
    if q < q' {
      MulMonotone(q + 1, q', n);
      assert false;
    }
    if q' < q {
      MulMonotone(q' + 1, q, n);
      assert false;
    }
  }

  lemma ModFacts(i: nat, n: nat)
    requires n > 0
    ensures i % n <= i
    ensures i < n ==> i % n == i
    ensures (i + n) % n == i % n
  {
    assert i == i / n * n + i % n;
    MulMonotone(0, i / n, n);
    DivModUnique(i + n, n, i / n + 1, i % n);
    if i < n {
      DivModUnique(i, n, 0, i);
    }
  }

  /** Splitting off the lowest base-k digit above a modulus. */
  lemma ModProduct(x: nat, p: nat, k: nat)
    requires p > 0 && k > 0
    ensures p * k > 0 && x % (p * k) == x / p % k * p + x % p
  {
    var q, r := x / p, x % p;
    var q1, d := q / k, q % k;
    assert q == q1 * k + d && x == q * p + r;
    assert x == q1 * (p * k) + (d * p + r) by {
      assert (q1 * k + d) * p == q1 * k * p + d * p;
      assert q1 * k * p == q1 * (p * k);
    }
    MulMonotone(d + 1, k, p);
    DivModUnique(x, p * k, q1, d * p + r);
  }

  function Pow2(d: nat): (r: nat)
    ensures r >= 1
  {
    if d == 0 then 1 else 2 * Pow2(d - 1)
  }

  lemma Pow2At0()
    ensures Pow2(0) == 1
  {
  }

  lemma Pow2Step(d: nat)
    ensures Pow2(d + 1) == 2 * Pow2(d)
  {
  }

  lemma {:induction false} Pow2Monotone(d: nat, e: nat)
    requires d <= e
    ensures Pow2(d) <= Pow2(e)
  {
    if d < e {
      Pow2Monotone(d, e - 1);
    }
  }

  lemma Pow2Plus8(e: nat)
    ensures Pow2(e + 8) == Pow2(e) * 256
  {
    assert Pow2(e + 2) == 4 * Pow2(e);
    assert Pow2(e + 4) == 4 * Pow2(e + 2);
    assert Pow2(e + 6) == 4 * Pow2(e + 4);
  }

  lemma Pow2Values()
    ensures Pow2(8) == 0x100 && Pow2(16) == 0x1_0000 && Pow2(24) == 0x100_0000 && Pow2(32) == 0x1_0000_0000
    ensures Pow2(64) == 0x1_0000_0000_0000_0000
  {
    assert Pow2(8) == 256;
    Pow2Plus8(8);
    Pow2Plus8(16);
    Pow2Plus8(24);
    Pow2Plus8(32);
    Pow2Plus8(40);
    Pow2Plus8(48);
    Pow2Plus8(56);
  }
}
