/**
 * Decimal rendering of natural numbers, as JavaScript's string conversion
 * (`n + ""`, or a template literal) writes a non-negative integer, and the
 * digit-string value that the rendering denotes.
 */
module Decimal {

  function Pow10(k: nat): (p: nat)
    ensures p >= 1
  {
    if k == 0 then 1 else 10 * Pow10(k - 1)
  }

  predicate IsDigit(c: char) {
    '0' <= c <= '9'
  }

  predicate AllDigits(s: string) {
    forall i | 0 <= i < |s| :: IsDigit(s[i])
  }

  function DigitValue(c: char): (d: nat)
    requires IsDigit(c)
    ensures d < 10
  {
    c as int - '0' as int
  }

  function DigitChar(d: nat): (c: char)
    requires d < 10
    ensures IsDigit(c) && DigitValue(c) == d
  {
    ('0' as int + d) as char
  }

  /** `String(n)` for an integer `n >= 0`: shortest digits, no leading zero. */
  function NatToString(n: nat): (s: string)
    ensures |s| >= 1 && AllDigits(s)
    ensures s[0] == '0' ==> n == 0
    ensures n < Pow10(|s|)
    ensures |s| > 1 ==> Pow10(|s| - 1) <= n
    decreases n
  {
    if n < 10 then [DigitChar(n)] else NatToString(n / 10) + [DigitChar(n % 10)]
  }

  /** The number a digit string denotes (leading zeros allowed). */
  function DigitsToNat(s: string): (n: nat)
    requires AllDigits(s)
    ensures n < Pow10(|s|)
  {
    if s == [] then 0 else DigitsToNat(s[..|s| - 1]) * 10 + DigitValue(s[|s| - 1])
  }

  /** The last `k` characters of `s`. */
  function TakeLast(s: string, k: nat): (t: string)
    requires k <= |s|
    ensures |t| == k && s == s[..|s| - k] + t
  {
    s[|s| - k..]
  }

  lemma ModUnique(n: int, m: int, a: int, b: int)
    requires m > 0 && n == m * a + b && 0 <= b < m
    ensures n % m == b && n / m == a
  {
    var d, r := n / m, n % m;
    assert m * (a - d) == r - b;
    if a > d {
      MulAtLeast(m, a - d);
    } else if a < d {
      MulAtLeast(m, d - a);
    }
  }

  lemma MulAtLeast(m: int, k: int)
    requires m > 0 && k >= 1
    ensures m * k >= m
  {
  }

  lemma ModShift(n: nat, p: nat)
    requires p > 0
    ensures ((n / 10) % p) * 10 + n % 10 == n % (10 * p)
  {
    var q := n / 10;
    var a, b := q / p, q % p;
    assert q == p * a + b;
    assert n == (10 * p) * a + (10 * b + n % 10);
    ModUnique(n, 10 * p, a, 10 * b + n % 10);
  }

  lemma {:induction false} Pow10Monotone(i: nat, j: nat)
    requires i <= j
    ensures Pow10(i) <= Pow10(j)
    decreases j
  {
    if i < j {
      Pow10Monotone(i, j - 1);
    }
  }

  /** Reading back the rendering gives the number: the rendering round-trips. */
  lemma {:induction false} DigitsOfNatToString(n: nat)
    ensures DigitsToNat(NatToString(n)) == n
    decreases n
  {
    var s := NatToString(n);
    if n < 10 {
      assert s[..|s| - 1] == [];
    } else {
      assert s[..|s| - 1] == NatToString(n / 10);
      DigitsOfNatToString(n / 10);
    }
  }

  /** Distinct numbers render to distinct strings. */
  lemma NatToStringInjective(m: nat, n: nat)
    requires NatToString(m) == NatToString(n)
    ensures m == n
  {
    DigitsOfNatToString(m);
    DigitsOfNatToString(n);
  }

  /** The last `k` digits of the rendering of `n` denote `n mod 10^k`. */
  lemma {:induction false} TakeLastValue(n: nat, k: nat)
    requires k <= |NatToString(n)|
    ensures DigitsToNat(TakeLast(NatToString(n), k)) == n % Pow10(k)
    decreases n
  {
    var s := NatToString(n);
    var t := TakeLast(s, k);
    if k == 0 {
      assert t == [];
    } else if n < 10 {
      assert t == s;
      DigitsOfNatToString(n);
    } else {
      var s' := NatToString(n / 10);
      assert s == s' + [DigitChar(n % 10)];
      assert t[..|t| - 1] == TakeLast(s', k - 1);
      assert t[|t| - 1] == DigitChar(n % 10);
      TakeLastValue(n / 10, k - 1);
      ModShift(n, Pow10(k - 1));
    }
  }

  /** Two digit strings of the same length with the same value are equal. */
  lemma {:induction false} DigitsInjective(s: string, t: string)
    requires AllDigits(s) && AllDigits(t) && |s| == |t|
    requires DigitsToNat(s) == DigitsToNat(t)
    ensures s == t
    decreases |s|
  {
    if |s| > 0 {
      var s', t' := s[..|s| - 1], t[..|t| - 1];
      var v := DigitsToNat(s);
      ModUnique(v, 10, DigitsToNat(s'), DigitValue(s[|s| - 1]));
      ModUnique(v, 10, DigitsToNat(t'), DigitValue(t[|t| - 1]));
      DigitsInjective(s', t');
      assert s[|s| - 1] == t[|t| - 1];
      assert s == s' + [s[|s| - 1]];
      assert t == t' + [t[|t| - 1]];
    }
  }
}
