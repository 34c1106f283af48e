/**
 * Decimal rendering of integers as JavaScript's template literals produce it
 * for integer-valued numbers of magnitude below 10^21 (`${n}`; larger ones
 * switch to exponent form, which is not modelled), and the digit-string
 * reading that inverts it.
 */
module Decimal {

  predicate IsDigit(c: char) {
    '0' <= c <= '9'
  }

  function Digit(d: nat): (c: char)
    requires d < 10
    ensures IsDigit(c)
    ensures DigitValue(c) == d
  {
    ('0' as int + d) as char
  }

  function DigitValue(c: char): nat
    requires IsDigit(c)
  {
    c as int - '0' as int
  }

  predicate AllDigits(s: string) {
    forall i :: 0 <= i < |s| ==> IsDigit(s[i])
  }

  /** Shortest decimal numeral of `n`: no sign, no leading zero. */
  function NatToString(n: nat): (s: string)
    ensures 1 <= |s|
    ensures AllDigits(s)
    ensures s[|s| - 1] == Digit(n % 10)
    ensures |s| > 1 <==> n >= 10
  {
    if n < 10 then [Digit(n)] else NatToString(n / 10) + [Digit(n % 10)]
  }

  /**
   * `${i}` for an integer of magnitude below 10^21: a minus sign before the
   * magnitude when negative.
   */
  function IntToString(i: int): (s: string)
    ensures 1 <= |s|
    ensures i < 0 <==> s[0] == '-'
    ensures forall k :: 1 <= k < |s| ==> IsDigit(s[k])
    ensures forall k :: 0 <= k < |s| ==> IsDigit(s[k]) || s[k] == '-'
  {
    if i < 0 then "-" + NatToString(-i) else NatToString(i)
  }

  /** The number a string of digits denotes (most significant first). */
  function ParseNat(s: string): nat
    requires AllDigits(s)
  {
    if |s| == 0 then 0 else ParseNat(s[..|s| - 1]) * 10 + DigitValue(s[|s| - 1])
  }

  /** Reading of a signed numeral, the inverse of `IntToString`. */
  function ParseInt(s: string): int
    requires forall k :: 1 <= k < |s| ==> IsDigit(s[k])
    requires 1 <= |s| && s[0] != '-' ==> IsDigit(s[0])
  {
    if 1 <= |s| && s[0] == '-' then -(ParseNat(s[1..]) as int) else ParseNat(s)
  }

  lemma {:induction false} ParseNatToString(n: nat)
    ensures ParseNat(NatToString(n)) == n
    decreases n
  {
    if n >= 10 {
      var s := NatToString(n);
      assert s[..|s| - 1] == NatToString(n / 10);
      ParseNatToString(n / 10);
    }
  }

  /** Reading a rendered integer gives the integer back. */
  lemma ParseIntToString(i: int)
    ensures ParseInt(IntToString(i)) == i
  {
    if i < 0 {
      assert IntToString(i)[1..] == NatToString(-i);
      ParseNatToString(-i);
    } else {
      ParseNatToString(i);
    }
  }

  /** Distinct integers have distinct renderings. */
  lemma IntToStringInjective(i: int, j: int)
    ensures IntToString(i) == IntToString(j) <==> i == j
  {
    if IntToString(i) == IntToString(j) {
      ParseIntToString(i);
      ParseIntToString(j);
    }
  }

  function Pow10(k: nat): (p: nat)
    ensures p >= 1
  {
    if k == 0 then 1 else 10 * Pow10(k - 1)
  }

  /** Quotient and remainder are determined by the division equation. */
  lemma DivModUnique(n: int, d: int, q: int, r: int)
    requires d > 0 && 0 <= r < d && n == d * q + r
    ensures n / d == q && n % d == r
  {
    var q', r' := n / d, n % d;
    assert d * (q' - q) == r - r' by {
      assert d * q' + r' == d * q + r;
    }
    MulSign(d, q' - q);
  }

  /** A nonzero multiple of `d` is at least `d` away from zero. */
  lemma MulSign(d: int, k: int)
    requires d > 0
    ensures k >= 1 ==> d * k >= d
    ensures k <= -1 ==> d * k <= -d
  {
    if k >= 1 {
      MulMono(d, 1, k);
    } else if k <= -1 {
      MulMono(d, k, -1);
    }
  }

  lemma MulMono(d: int, x: int, y: int)
    requires d > 0 && x <= y
    ensures d * x <= d * y
  {}

  /**
   * Dividing by `b` and then by `a` is dividing by `a * b`, and the remainder
   * modulo `a * b` splits into the digit-group `(n / b) % a` and `n % b`.
   */
  lemma DivModNest(n: int, a: int, b: int)
    requires a > 0 && b > 0
    ensures (n / b) / a == n / (a * b)
    ensures (n % (a * b)) / b == (n / b) % a
    ensures (n % (a * b)) % b == n % b
    ensures (n / b) % a * b + n % b == n % (a * b)
  {
    var q, r := n / b, n % b;
    var u, v := q / a, q % a;
    var low := b * v + r;
    assert n == (a * b) * u + low by {
      Regroup(n, a, b, q, r, u, v);
    }
    assert 0 <= low < a * b by {
      LowDigitsBound(a, b, v, r);
    }
    DivModUnique(n, a * b, u, low);
    DivModUnique(low, b, v, r);
    assert v * b == b * v;
  }

  /** Substituting `q == a * u + v` into `n == b * q + r`. */
  lemma Regroup(n: int, a: int, b: int, q: int, r: int, u: int, v: int)
    requires n == b * q + r && q == a * u + v
    ensures n == (a * b) * u + (b * v + r)
  {
    assert b * q == b * (a * u + v) == (a * b) * u + b * v;
  }

  /** A digit-group below `a` times `b` plus a remainder below `b` stays below `a * b`. */
  lemma LowDigitsBound(a: int, b: int, v: int, r: int)
    requires b > 0 && 0 <= v < a && 0 <= r < b
    ensures 0 <= b * v + r < a * b
  {
    MulMono(b, v, a - 1);
    MulMono(b, 0, v);
    assert b * (a - 1) == a * b - b;
  }

  /** The low `k` decimal digits of `n`, zero-padded to exactly `k` characters. */
  function Digits(n: nat, k: nat): (s: string)
    ensures |s| == k
    ensures AllDigits(s)
  {
    if k == 0 then "" else Digits(n / 10, k - 1) + [Digit(n % 10)]
  }

  /** `k` zero characters, the literal prefixes `'00'` and `'00000'`. */
  function Zeros(k: nat): (s: string)
    ensures |s| == k
    ensures AllDigits(s)
  {
    seq(k, _ => '0')
  }

  /** A zero-padded field reads back as the number modulo its width. */
  lemma {:induction false} ParseDigits(n: nat, k: nat)
    ensures ParseNat(Digits(n, k)) == n % Pow10(k)
    decreases k
  {
    if k > 0 {
      var s := Digits(n, k);
      assert s[..k - 1] == Digits(n / 10, k - 1);
      ParseDigits(n / 10, k - 1);
      DivModNest(n, Pow10(k - 1), 10);
      assert Pow10(k - 1) * 10 == Pow10(k);
    }
  }

  lemma {:induction false} DigitsOfZero(k: nat)
    ensures Digits(0, k) == Zeros(k)
    decreases k
  {
    if k > 0 {
      DigitsOfZero(k - 1);
    }
  }

  /**
   * Padding with at least `k` zeros and keeping the last `k` characters
   * (`('00' + n).slice(-2)`) yields the low `k` digits.
   */
  lemma {:induction false} TailOfPadded(m: nat, n: nat, k: nat)
    requires k <= m
    ensures |Zeros(m) + NatToString(n)| >= k
    ensures (Zeros(m) + NatToString(n))[|Zeros(m) + NatToString(n)| - k..] == Digits(n, k)
    decreases n
  {
    if k == 0 {
    } else if n < 10 {
      PaddedSingleDigit(m, n, k);
    } else {
      var s, s' := Zeros(m) + NatToString(n), Zeros(m) + NatToString(n / 10);
      assert s == s' + [Digit(n % 10)];
      TailOfPadded(m, n / 10, k - 1);
      assert s[|s| - k..] == s'[|s'| - (k - 1)..] + [Digit(n % 10)];
    }
  }

  lemma PaddedSingleDigit(m: nat, n: nat, k: nat)
    requires 0 < k <= m && n < 10
    ensures (Zeros(m) + NatToString(n))[m + 1 - k..] == Digits(n, k)
  {
    var s := Zeros(m) + [Digit(n)];
    assert Zeros(m) + NatToString(n) == s;
    assert Digits(n, k) == Digits(0, k - 1) + [Digit(n)];
    DigitsOfZero(k - 1);
    assert s[m + 1 - k..] == Zeros(m)[m - (k - 1)..] + [Digit(n)];
    assert Zeros(m)[m - (k - 1)..] == Zeros(k - 1);
  }

  /** `n` with its low `b` decimal digits dropped. */
  function DropDigits(n: nat, b: nat): nat {
    if b == 0 then n else DropDigits(n / 10, b - 1)
  }

  /** A field of `a + b` digits is its high `a` digits followed by its low `b` digits. */
  lemma {:induction false} DigitsSplit(n: nat, a: nat, b: nat)
    ensures Digits(n, a + b) == Digits(DropDigits(n, b), a) + Digits(n, b)
    decreases b
  {
    if b > 0 {
      DigitsSplit(n / 10, a, b - 1);
      assert Digits(n, a + b) == Digits(n / 10, a + (b - 1)) + [Digit(n % 10)];
    }
  }

  /** Dropping `b` digits is dividing by `10^b`. */
  lemma {:induction false} DropDigitsIsDiv(n: nat, b: nat)
    ensures DropDigits(n, b) == n / Pow10(b)
    decreases b
  {
    if b > 0 {
      DropDigitsIsDiv(n / 10, b - 1);
      DivModNest(n, Pow10(b - 1), 10);
      assert Pow10(b - 1) * 10 == Pow10(b);
    }
  }

  /** Only the low `k` digits of a number show in a `k`-digit field. */
  lemma {:induction false} DigitsMod(n: nat, k: nat)
    ensures Digits(n, k) == Digits(n % Pow10(k), k)
    decreases k
  {
    if k > 0 {
      var p', r := Pow10(k - 1), n % Pow10(k);
      assert r / 10 == (n / 10) % p' && r % 10 == n % 10 by {
        DivModNest(n, p', 10);
      }
      DigitsMod(n / 10, k - 1);
      DigitsMod(r / 10, k - 1);
    }
  }
}
