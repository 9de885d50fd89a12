/** Powers of two and the integer base-2 logarithm that stands in for
    `Math.log2` (services/meraService.ts:7) on power-of-two boundary sizes. */
module PowersOfTwo {

  function Pow2(n: nat): (r: nat)
    ensures r >= 1
  {
    if n == 0 then 1 else 2 * Pow2(n - 1)
  }

  /** n is 2^k for some k (1, 2, 4, 8, ...). */
  predicate IsPowerOfTwo(n: nat)
  {
    n == 1 || (n >= 2 && n % 2 == 0 && IsPowerOfTwo(n / 2))
  }

  /** Floor of the base-2 logarithm; exact on powers of two. */
  function Log2(n: nat): (k: nat)
    requires n >= 1
    ensures Pow2(k) <= n < Pow2(k + 1)
    ensures IsPowerOfTwo(n) ==> Pow2(k) == n
  {
    if n == 1 then 0 else 1 + Log2(n / 2)
  }

  lemma {:induction false} PowerOfTwoIsPow2(k: nat)
    ensures IsPowerOfTwo(Pow2(k)) && Log2(Pow2(k)) == k
  {
    if k > 0 {
      PowerOfTwoIsPow2(k - 1);
      assert Pow2(k) / 2 == Pow2(k - 1);
    }
  }

  lemma {:induction false} Pow2Add(a: nat, b: nat)
    ensures Pow2(a + b) == Pow2(a) * Pow2(b)
  {
    if a > 0 {
      Pow2Add(a - 1, b);
    }
  }

  lemma {:induction false} Pow2Monotone(a: nat, b: nat)
    requires a <= b
    ensures Pow2(a) <= Pow2(b)
  {
    if a < b {
      Pow2Monotone(a, b - 1);
    }
  }

  lemma {:induction false} MulMonotone(x: nat, y: nat, a: nat)
    requires x <= y
    ensures x * a <= y * a
  {
    if x < y {
      MulMonotone(x, y - 1, a);
      assert y * a == (y - 1) * a + a;
    }
  }

  lemma MulStep(x: nat, y: nat, a: nat)
    requires x < y
    ensures x * a + a <= y * a
  {
    MulMonotone(x + 1, y, a);
    assert (x + 1) * a == x * a + a;
  }

  /** The quotient is the unique t with r = t * d + rem and 0 <= rem < d. */
  lemma QuotientUnique(r: nat, d: nat, t: nat, rem: nat)
    requires d >= 1 && r == t * d + rem && rem < d
    ensures r / d == t
  {
    var q := r / d;
    assert r == q * d + r % d;
    if q < t {
      MulStep(q, t, d);
    } else if q > t {
      MulStep(t, q, d);
    }
  }

  /** Dividing by 2^m and then by 2 is dividing by 2^(m+1). */
  lemma HalveQuotient(r: nat, m: nat)
    ensures r / Pow2(m) / 2 == r / Pow2(m + 1)
  {
    var a := Pow2(m);
    var q, s := r / a, r % a;
    var t, u := q / 2, q % 2;
    assert r == q * a + s;
    assert q * a == t * (2 * a) + u * a by {
      assert q == 2 * t + u;
    }
    assert u * a + s < 2 * a by {
      if u == 1 {
        assert u * a == a;
      }
    }
    QuotientUnique(r, 2 * a, t, u * a + s);
  }

  lemma QuotientBelow(r: nat, a: nat, c: nat)
    requires a >= 1 && r < c * a
    ensures r / a < c
  {
    var q := r / a;
    assert q * a <= r;
    if q >= c {
      MulMonotone(c, q, a);
    }
  }

  lemma QuotientOfMultiple(j: nat, a: nat)
    requires a >= 1
    ensures (j * a) / a == j
  {
    QuotientUnique(j * a, a, j, 0);
  }
}
