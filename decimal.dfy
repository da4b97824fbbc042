/**
 * Exact decimal numbers written with ASCII digits, as matched by `\d` in Python's and
 * JavaScript's regular expressions. Prices and coordinates are modelled by their exact
 * rational value rather than by an IEEE double.
 */
module Decimal {

  predicate IsDigit(c: char) {
    '0' <= c <= '9'
  }

  predicate AllDigits(s: string) {
    forall i :: 0 <= i < |s| ==> IsDigit(s[i])
  }

  function Pow10(n: nat): (r: nat)
    ensures r >= 1
  {
    if n == 0 then 1 else 10 * Pow10(n - 1)
  }

  /** The natural number a string of decimal digits denotes (the empty string denotes 0). */
  function NatOf(ds: string): (r: nat)
    requires AllDigits(ds)
    ensures r < Pow10(|ds|)
  {
    if ds == [] then 0
    else NatOf(ds[..|ds| - 1]) * 10 + (ds[|ds| - 1] as int - '0' as int)
  }

  /** The value of `whole.frac`, e.g. DecimalValue("12", "50") == 12.5. */
  function DecimalValue(whole: string, frac: string): (r: real)
    requires AllDigits(whole) && AllDigits(frac)
    ensures NatOf(whole) as real <= r < NatOf(whole) as real + 1.0
  {
    FractionBelowOne(NatOf(frac) as real, Pow10(|frac|) as real);
    NatOf(whole) as real + NatOf(frac) as real / Pow10(|frac|) as real
  }

  lemma FractionBelowOne(n: real, p: real)
    requires 0.0 <= n < p
    ensures 0.0 <= n / p < 1.0
  {
    var q := n / p;
    assert q * p == n;
    assert q >= 1.0 ==> q * p >= p;
  }

  /** The end of the maximal run of digits that starts at `i`. */
  function DigitRunEnd(s: string, i: nat): (e: nat)
    requires i <= |s|
    ensures i <= e <= |s|
    ensures AllDigits(s[i..e])
    ensures e == |s| || !IsDigit(s[e])
    decreases |s| - i
  {
    if i < |s| && IsDigit(s[i]) then DigitRunEnd(s, i + 1) else i
  }

  /** Adding trailing zeros after the decimal point does not change the value. */
  lemma {:induction false} TrailingZeros(whole: string, frac: string)
    requires AllDigits(whole) && AllDigits(frac)
    ensures AllDigits(frac + "0") && DecimalValue(whole, frac + "0") == DecimalValue(whole, frac)
  {
    var f := frac + "0";
    assert f[..|f| - 1] == frac;
    var n, p := NatOf(frac) as real, Pow10(|frac|) as real;
    assert NatOf(f) as real == n * 10.0;
    assert Pow10(|f|) as real == p * 10.0;
    ScaledFraction(n, p);
  }

  lemma ScaledFraction(n: real, p: real)
    requires p > 0.0
    ensures (n * 10.0) / (p * 10.0) == n / p
  {
  }

  /** The value of a digit string grows one digit at a time. */
  lemma NatOfStep(ds: string, i: nat)
    requires AllDigits(ds) && i < |ds|
    ensures AllDigits(ds[..i]) && AllDigits(ds[..i + 1])
    ensures NatOf(ds[..i + 1]) == NatOf(ds[..i]) * 10 + (ds[i] as int - '0' as int)
  {
    assert ds[..i + 1][..i] == ds[..i];
  }

  /** The value of a two-digit string. */
  lemma NatOfTwo(ds: string)
    requires AllDigits(ds) && |ds| == 2
    ensures NatOf(ds) == (ds[0] as int - '0' as int) * 10 + (ds[1] as int - '0' as int)
  {
    NatOfStep(ds, 0);
    NatOfStep(ds, 1);
    assert ds[..2] == ds;
  }

  /** The value of a four-digit string. */
  lemma NatOfFour(ds: string)
    requires AllDigits(ds) && |ds| == 4
    ensures NatOf(ds) == (ds[0] as int - '0' as int) * 1000 + (ds[1] as int - '0' as int) * 100
                         + (ds[2] as int - '0' as int) * 10 + (ds[3] as int - '0' as int)
  {
    NatOfStep(ds, 0);
    NatOfStep(ds, 1);
    NatOfStep(ds, 2);
    NatOfStep(ds, 3);
    assert ds[..4] == ds;
  }

  /** A run of digits that stops before a non-digit is found by DigitRunEnd. */
  lemma {:induction false} DigitRunEndOf(s: string, i: nat, ds: string)
    requires i + |ds| <= |s| && s[i..i + |ds|] == ds && AllDigits(ds)
    requires i + |ds| == |s| || !IsDigit(s[i + |ds|])
    ensures DigitRunEnd(s, i) == i + |ds|
    decreases |ds|
  {
    if ds != [] {
      assert s[i] == ds[0];
      assert s[i + 1..i + 1 + |ds[1..]|] == ds[1..];
      DigitRunEndOf(s, i + 1, ds[1..]);
    }
  }
}
