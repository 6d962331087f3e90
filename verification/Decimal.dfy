/** The decimal printer and parser used for u64 fields: Rust's `{}` formatting and `str::parse`. */
module Decimal {
  import opened Bytes

  const PLUS: byte := 43
  const DIGIT0: byte := 48

  predicate IsDigit(b: byte) {
    DIGIT0 <= b <= DIGIT0 + 9
  }

  predicate AllDigits(s: Text) {
    forall i :: 0 <= i < |s| ==> IsDigit(s[i])
  }

  /** Most significant digit first, no leading zeros, "0" for zero. */
  function Digits(n: nat): (s: Text)
    ensures s != []
    ensures AllDigits(s)
  {
    if n < 10 then [DIGIT0 + n] else Digits(n / 10) + [DIGIT0 + n % 10]
  }

  function Value(s: Text): nat
    requires AllDigits(s)
  {
    if s == [] then 0
    else Value(s[..|s| - 1]) * 10 + (s[|s| - 1] - DIGIT0)
  }

  /** `str::parse::<u64>`: one optional '+', at least one digit, no overflow. */
  function ParseU64(s: Text): Option<nat> {
    var d := if s != [] && s[0] == PLUS then s[1..] else s;
    if d != [] && AllDigits(d) && Value(d) < U64_LIMIT then Some(Value(d)) else None
  }

  /** `c` is what is left of the decimal numeral `n` after dropping some low-order digits. */
  predicate DecimalPrefix(c: nat, n: nat) {
    c == n || (10 <= n && DecimalPrefix(c, n / 10))
  }

  lemma {:induction false} ValueOfDigits(n: nat)
    ensures Value(Digits(n)) == n
  {
    if 10 <= n {
      ValueOfDigits(n / 10);
      assert Digits(n)[..|Digits(n)| - 1] == Digits(n / 10);
    }
  }

  /** Printing then parsing a u64 gives it back. */
  lemma ParseDigits(n: nat)
    requires n < U64_LIMIT
    ensures ParseU64(Digits(n)) == Some(n)
  {
    ValueOfDigits(n);
    assert IsDigit(Digits(n)[0]);
  }

  lemma {:induction false} PrefixIsSmaller(c: nat, n: nat)
    requires DecimalPrefix(c, n)
    ensures c <= n
  {
    if c != n {
      PrefixIsSmaller(c, n / 10);
    }
  }

  /** Cutting a printed number leaves a decimal prefix of it. */
  lemma {:induction false} ValueOfCut(n: nat, k: nat)
    requires 0 < k <= |Digits(n)|
    ensures DecimalPrefix(Value(Digits(n)[..k]), n)
  {
    var s := Digits(n);
    if k == |s| {
      assert s[..k] == s;
      ValueOfDigits(n);
    } else {
      assert s[..k] == Digits(n / 10)[..k];
      ValueOfCut(n / 10, k);
    }
  }

  lemma ParseCut(n: nat, k: nat)
    requires n < U64_LIMIT
    requires 0 < k <= |Digits(n)|
    ensures ParseU64(Digits(n)[..k]).Some?
    ensures DecimalPrefix(ParseU64(Digits(n)[..k]).value, n)
  {
    ValueOfCut(n, k);
    PrefixIsSmaller(Value(Digits(n)[..k]), n);
    assert IsDigit(Digits(n)[0]);
  }

  /** A cut numeral parses to nothing or to a smaller number. */
  lemma CutIsSmaller(n: nat, k: nat)
    requires k < |Digits(n)|
    ensures ParseU64(Digits(n)[..k]) != Some(n)
  {
    if k != 0 {
      assert Digits(n)[..k] == Digits(n / 10)[..k];
      ValueOfCut(n / 10, k);
      PrefixIsSmaller(Value(Digits(n / 10)[..k]), n / 10);
      assert IsDigit(Digits(n)[0]);
    }
  }

  function Pow10(k: nat): nat {
    if k == 0 then 1 else 10 * Pow10(k - 1)
  }

  lemma {:induction false} DigitsAtMost(n: nat, k: nat)
    requires k > 0 && n < Pow10(k)
    ensures |Digits(n)| <= k
  {
    if n < 10 {
    } else {
      assert k != 1 by {
        assert Pow10(1) == 10 * Pow10(0);
      }
      DigitsAtMost(n / 10, k - 1);
    }
  }

  /** A u64 has at most 20 digits. */
  lemma U64Digits(n: nat)
    requires n < U64_LIMIT
    ensures |Digits(n)| <= 20
  {
    assert Pow10(2) == 100 && Pow10(4) == 10_000 && Pow10(6) == 1_000_000 && Pow10(8) == 100_000_000;
    assert Pow10(10) == 10_000_000_000 && Pow10(12) == 1_000_000_000_000 && Pow10(14) == 100_000_000_000_000;
    assert Pow10(16) == 10_000_000_000_000_000 && Pow10(18) == 1_000_000_000_000_000_000;
    assert Pow10(20) == 100_000_000_000_000_000_000;
    DigitsAtMost(n, 20);
  }
}
