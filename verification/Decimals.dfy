/** Decimal notation of natural numbers, as array indices, exponents and element ids are printed. */
module Decimals {
  import opened Texts

  predicate IsDigit(u: CodeUnit) { 48 <= u <= 57 }

  predicate AllDigits(t: Text) { forall i :: 0 <= i < |t| ==> IsDigit(t[i]) }

  /** Decimal text without leading zeros. */
  predicate IsDecimal(t: Text) { t != [] && AllDigits(t) && (|t| > 1 ==> t[0] != 48) }

  function Decimal(n: nat): (t: Text)
    ensures IsDecimal(t)
    ensures n > 0 ==> t[0] != 48
  {
    if n < 10 then [48 + n] else Decimal(n / 10) + [48 + n % 10]
  }

  function DecimalValue(t: Text): nat
    requires AllDigits(t)
  {
    if t == [] then 0 else DecimalValue(t[..|t| - 1]) * 10 + (t[|t| - 1] - 48)
  }

  lemma {:induction false} DecimalRoundTrip(n: nat)
    ensures DecimalValue(Decimal(n)) == n
  {
    var t := Decimal(n);
    if n < 10 {
      assert t[..0] == [];
    } else {
      assert t[..|t| - 1] == Decimal(n / 10);
      DecimalRoundTrip(n / 10);
    }
  }

  lemma {:induction false} DecimalCanonical(t: Text)
    requires IsDecimal(t)
    ensures Decimal(DecimalValue(t)) == t
    ensures |t| > 1 ==> DecimalValue(t) >= 10
  {
    if |t| == 1 {
      assert t[..0] == [];
    } else {
      var h := t[..|t| - 1];
      DecimalCanonical(h);
      if |h| == 1 { assert h[..0] == []; }
      assert t == h + [t[|t| - 1]];
    }
  }

  lemma DecimalInjective(m: nat, n: nat)
    requires Decimal(m) == Decimal(n)
    ensures m == n
  {
    DecimalRoundTrip(m);
    DecimalRoundTrip(n);
  }

  /** Length of the longest all-digit prefix. */
  function DigitSpan(t: Text): (n: nat)
    ensures n <= |t| && AllDigits(t[..n])
    ensures n < |t| ==> !IsDigit(t[n])
  {
    if t == [] || !IsDigit(t[0]) then 0 else 1 + DigitSpan(t[1..])
  }

  lemma {:induction false} DigitSpanAppend(d: Text, rest: Text)
    requires AllDigits(d)
    requires rest != [] ==> !IsDigit(rest[0])
    ensures DigitSpan(d + rest) == |d|
  {
    if d != [] {
      assert (d + rest)[1..] == d[1..] + rest;
      DigitSpanAppend(d[1..], rest);
    } else {
      assert d + rest == rest;
    }
  }
}
