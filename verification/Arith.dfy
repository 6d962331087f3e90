/** Division facts used by the ring and alignment arguments. */
module Arith {

  lemma MulAtLeast(k: int, d: int)
    requires k >= 1 && d > 0
    ensures k * d >= d
  {
    assert (k - 1) * d >= 0;
  }

  /** Quotient and remainder are determined by x == q * d + r with 0 <= r < d. */
  lemma DivModUnique(x: int, d: int, q: int, r: int)
    requires 0 <= r < d && x == q * d + r
    ensures x / d == q && x % d == r
  {
    var q' := x / d;
    assert x == q' * d + x % d;
    assert (q - q') * d == q * d - q' * d;
    if q > q' {
      MulAtLeast(q - q', d);
    } else if q < q' {
      MulAtLeast(q' - q, d);
    }
  }

  lemma ExactQuotient(n: nat, d: nat)
    requires d > 0 && n % d == 0
    ensures n == n / d * d
  {
  }

  predicate IsPowerOfTwo(n: nat) {
    n == 1 || (n > 1 && n % 2 == 0 && IsPowerOfTwo(n / 2))
  }

  lemma {:induction false} PowerCases(n: nat)
    requires IsPowerOfTwo(n)
    ensures n == 1 || n == 2 || n == 4 || n == 8 || n == 16 || n == 32 || n % 64 == 0
  {
    if n <= 1 {
    } else {
      var h := n / 2;
      assert n == 2 * h;
      PowerCases(h);
      if h % 64 == 0 {
        DivModUnique(n, 64, 2 * (h / 64), 0);
      }
    }
  }

  /** Of two powers of two the smaller divides the larger. */
  lemma {:induction false} PowerDivides(n: nat, m: nat)
    requires IsPowerOfTwo(n) && IsPowerOfTwo(m) && n <= m
    ensures m % n == 0
  {
    if n <= 1 {
    } else {
      PowerDivides(n / 2, m / 2);
      var q := (m / 2) / (n / 2);
      assert m == 2 * (m / 2) && n == 2 * (n / 2) && m / 2 == q * (n / 2);
      assert m == q * n;
      DivModUnique(m, n, q, 0);
    }
  }

  function Pow2(k: nat): nat {
    if k == 0 then 1 else 2 * Pow2(k - 1)
  }

  lemma {:induction false} Pow2IsPower(k: nat)
    ensures Pow2(k) >= 1 && IsPowerOfTwo(Pow2(k))
  {
    if k == 0 {
    } else {
      Pow2IsPower(k - 1);
    }
  }

  /** A larger power of two is at least twice as large. */
  lemma {:induction false} PowerGap(n: nat, m: nat)
    requires IsPowerOfTwo(n) && IsPowerOfTwo(m) && n < m
    ensures 2 * n <= m
  {
    if n == 1 {
    } else {
      PowerGap(n / 2, m / 2);
    }
  }

  lemma EightDivides(n: nat)
    requires IsPowerOfTwo(n) && n >= 8
    ensures n % 8 == 0
  {
    PowerCases(n);
    if n % 64 == 0 {
      DivModUnique(n, 8, 8 * (n / 64), 0);
    }
  }

  /** `n` rounded up to a multiple of `d`, counted in steps of `d`. */
  function RoundUp(n: nat, d: nat): nat
    requires d > 0
  {
    if n == 0 then 0 else if n <= d then d else d + RoundUp(n - d, d)
  }

  /** The rounded value is the least multiple of `d` that is not below `n`. */
  lemma {:induction false} RoundUpBounds(n: nat, d: nat)
    requires d > 0
    ensures n <= RoundUp(n, d) < n + d
    ensures RoundUp(n, d) % d == 0
  {
    if n > d {
      RoundUpBounds(n - d, d);
      AddDivisor(RoundUp(n - d, d), d);
    } else if n > 0 {
      DivModUnique(d, d, 1, 0);
    } else {
      DivModUnique(0, d, 0, 0);
    }
  }

  /** A multiple of `d` below `n + d` and not below `n` is the rounded value. */
  lemma {:induction false} RoundUpUnique(n: nat, d: nat, m: nat)
    requires d > 0 && n <= m < n + d && m % d == 0
    ensures RoundUp(n, d) == m
  {
    if m < d {
      DivModUnique(m, d, 0, m);
    } else {
      AddDivisor(m - d, d);
      if n > d {
        RoundUpUnique(n - d, d, m - d);
      } else if m < 2 * d {
        DivModUnique(m - d, d, 0, m - d);
      }
    }
  }

  lemma {:induction false} RoundUpLeast(n: nat, d: nat, m: nat)
    requires d > 0 && n <= m && m % d == 0
    ensures RoundUp(n, d) <= m
  {
    if n == 0 {
    } else if m < d {
      DivModUnique(m, d, 0, m);
    } else if n > d {
      AddDivisor(m - d, d);
      RoundUpLeast(n - d, d, m - d);
    }
  }

  /** A multiple of a multiple of 8 is a multiple of 8. */
  lemma MultipleOfEight(n: nat, d: nat)
    requires d > 0 && d % 8 == 0 && n % d == 0
    ensures n % 8 == 0
  {
    var q, c := n / d, d / 8;
    assert n == q * d && d == c * 8;
    assert q * (c * 8) == (q * c) * 8;
  }

  /** Stepping a number by one steps its remainder, wrapping at the divisor. */
  lemma NextMod(k: nat, d: nat)
    requires d > 1
    ensures (k + 1) % d == if k % d + 1 == d then 0 else k % d + 1
  {
    var q, r := k / d, k % d;
    assert k == q * d + r;
    if r + 1 == d {
      assert (q + 1) * d == q * d + d;
      DivModUnique(k + 1, d, q + 1, 0);
    } else {
      DivModUnique(k + 1, d, q, r + 1);
    }
  }

  /** Adding a multiple of the divisor does not change the remainder. */
  lemma AddMultiple(k: nat, d: nat, n: nat)
    requires d > 0
    ensures (k + n * d) % d == k % d
  {
    var q, r := k / d, k % d;
    assert k == q * d + r;
    assert (q + n) * d == q * d + n * d;
    DivModUnique(k + n * d, d, q + n, r);
  }

  /** Adding the divisor does not change the remainder. */
  lemma AddDivisor(k: nat, d: nat)
    requires d > 0
    ensures (k + d) % d == k % d
  {
    var q, r := k / d, k % d;
    assert k == q * d + r;
    assert (q + 1) * d == q * d + d;
    DivModUnique(k + d, d, q + 1, r);
  }
}
