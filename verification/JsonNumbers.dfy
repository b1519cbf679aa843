/**
 Finite numbers as the shortest decimal that identifies them, and the text ECMAScript's
 Number::toString gives that decimal (radix 10): plain notation while the decimal point
 lies within 21 places, exponent notation beyond. Both signed zeros print as "0".
 */
module JsonNumbers {
  import opened Outcomes
  import opened Texts
  import opened Decimals

  /** The value 0.digits * 10^point, negated when asked. Digit d is held as the code unit 48 + d. */
  datatype Number = Zero | Finite(negative: bool, digits: Text, point: int)

  predicate IsNumber(n: Number) {
    n.Finite? ==> n.digits != [] && AllDigits(n.digits) && n.digits[0] != 48 && n.digits[|n.digits| - 1] != 48
  }

  const MINUS: CodeUnit := 45
  const PLUS: CodeUnit := 43
  const DOT: CodeUnit := 46
  const LOWER_E: CodeUnit := 101
  const UPPER_E: CodeUnit := 69

  /** Characters a JSON number can hold: a printed number always runs up to the first other one. */
  predicate IsNumberUnit(u: CodeUnit) {
    IsDigit(u) || u == MINUS || u == PLUS || u == DOT || u == LOWER_E || u == UPPER_E
  }

  /** The int, frac and exp parts of section 6 of RFC 8259; an empty fraction is no fraction. */
  datatype Shape = Shape(whole: Text, fraction: Text, exponent: Option<int>)

  predicate IsShape(s: Shape) {
    IsDecimal(s.whole) && AllDigits(s.fraction)
  }

  // ---- Printing ----

  function Zeros(n: nat): (t: Text)
    ensures |t| == n && AllDigits(t)
  {
    seq(n, i => 48)
  }

  function ShapeOf(digits: Text, point: int): Shape
    requires digits != []
  {
    var k := |digits|;
    if k <= point <= 21 then Shape(digits + Zeros(point - k), [], None)
    else if 0 < point <= 21 then Shape(digits[..point], digits[point..], None)
    else if -6 < point <= 0 then Shape([48], Zeros(-point) + digits, None)
    else Shape(digits[..1], digits[1..], Some(point - 1))
  }

  function ExponentText(e: int): Text {
    [LOWER_E] + (if e < 0 then [MINUS] + Decimal(-e) else [PLUS] + Decimal(e))
  }

  function FractionText(s: Shape): Text {
    if s.fraction == [] then [] else [DOT] + s.fraction
  }

  function ExponentPart(s: Shape): Text {
    if s.exponent.None? then [] else ExponentText(s.exponent.value)
  }

  function ShapeText(s: Shape): Text {
    s.whole + FractionText(s) + ExponentPart(s)
  }

  function NumberText(n: Number): Text
    requires IsNumber(n)
  {
    match n
    case Zero => [48]
    case Finite(negative, digits, point) =>
      (if negative then [MINUS] else []) + ShapeText(ShapeOf(digits, point))
  }

  // ---- The independent reader ----

  function StripZeros(negative: bool, digits: Text, point: int): (n: Number)
    requires AllDigits(digits)
    ensures IsNumber(n)
  {
    if digits == [] then Zero
    else if digits[0] == 48 then StripZeros(negative, digits[1..], point - 1)
    else if digits[|digits| - 1] == 48 then StripZeros(negative, digits[..|digits| - 1], point)
    else Finite(negative, digits, point)
  }

  function ShapeValue(negative: bool, s: Shape): (n: Number)
    requires IsShape(s)
    ensures IsNumber(n)
  {
    StripZeros(negative, s.whole + s.fraction, |s.whole| + (if s.exponent.Some? then s.exponent.value else 0))
  }

  /** The exponent part, from its `e` to the end; Some(None) when there is none. */
  function ReadExponent(t: Text): Option<Option<int>> {
    if t == [] then Some(None)
    else if t[0] != LOWER_E && t[0] != UPPER_E then None
    else
      var signed := |t| > 1 && (t[1] == MINUS || t[1] == PLUS);
      var digits := if signed then t[2..] else t[1..];
      if digits == [] || !AllDigits(digits) then None
      else
        var value: int := DecimalValue(digits);
        Some(Some(if signed && t[1] == MINUS then -value else value))
  }

  /** The text after the integer part. */
  function ReadTail(whole: Text, t: Text): (r: Option<Shape>)
    requires IsDecimal(whole)
    ensures r.Some? ==> IsShape(r.value)
  {
    if t != [] && t[0] == DOT then
      var tail := t[1..];
      var n := DigitSpan(tail);
      var exponent := ReadExponent(tail[n..]);
      if n == 0 || exponent.None? then None else Some(Shape(whole, tail[..n], exponent.value))
    else
      var exponent := ReadExponent(t);
      if exponent.None? then None else Some(Shape(whole, [], exponent.value))
  }

  function ReadShape(t: Text): (r: Option<Shape>)
    ensures r.Some? ==> IsShape(r.value)
  {
    var n := DigitSpan(t);
    if IsDecimal(t[..n]) then ReadTail(t[..n], t[n..]) else None
  }

  function ReadUnsigned(negative: bool, t: Text): (r: Option<Number>)
    ensures r.Some? ==> IsNumber(r.value)
  {
    match ReadShape(t)
    case None => None
    case Some(s) => Some(ShapeValue(negative, s))
  }

  function ReadNumber(t: Text): (r: Option<Number>)
    ensures r.Some? ==> IsNumber(r.value)
  {
    if t != [] && t[0] == MINUS then ReadUnsigned(true, t[1..]) else ReadUnsigned(false, t)
  }

  // ---- Printing and reading are inverse ----

  lemma LeadingZero(before: nat, digits: Text, after: nat, t: Text)
    requires before > 0 && t == Zeros(before) + digits + Zeros(after)
    ensures t[0] == 48 && t[1..] == Zeros(before - 1) + digits + Zeros(after)
  {
  }

  lemma TrailingZero(digits: Text, after: nat, t: Text)
    requires digits != [] && after > 0 && t == Zeros(0) + digits + Zeros(after)
    ensures t[0] == digits[0] && t[|t| - 1] == 48 && t[..|t| - 1] == Zeros(0) + digits + Zeros(after - 1)
  {
  }

  lemma {:induction false} StripZerosExact(negative: bool, before: nat, digits: Text, after: nat, point: int, t: Text)
    requires IsNumber(Finite(negative, digits, point - before))
    requires t == Zeros(before) + digits + Zeros(after)
    ensures StripZeros(negative, t, point) == Finite(negative, digits, point - before)
    decreases before + after
  {
    hide Zeros;
    if before > 0 {
      LeadingZero(before, digits, after, t);
      StripZerosExact(negative, before - 1, digits, after, point - 1, t[1..]);
    } else if after > 0 {
      TrailingZero(digits, after, t);
      StripZerosExact(negative, 0, digits, after - 1, point, t[..|t| - 1]);
    } else {
      assert t == digits;
    }
  }

  /** The zeros a shape adds around the digits are exactly those the reader strips. */
  lemma ShapeValueStrips(negative: bool, before: nat, digits: Text, after: nat, point: int, s: Shape)
    requires IsNumber(Finite(negative, digits, point)) && IsShape(s)
    requires s.whole + s.fraction == Zeros(before) + digits + Zeros(after)
    requires |s.whole| + (if s.exponent.Some? then s.exponent.value else 0) == point + before
    ensures ShapeValue(negative, s) == Finite(negative, digits, point)
  {
    StripZerosExact(negative, before, digits, after, point + before, s.whole + s.fraction);
  }

  lemma ShapeValueExact(negative: bool, digits: Text, point: int)
    requires IsNumber(Finite(negative, digits, point))
    ensures IsShape(ShapeOf(digits, point))
    ensures ShapeValue(negative, ShapeOf(digits, point)) == Finite(negative, digits, point)
  {
    var s := ShapeOf(digits, point);
    if |digits| <= point <= 21 {
      ShapeValueStrips(negative, 0, digits, point - |digits|, point, s);
    } else if -6 < point <= 0 {
      ShapeValueStrips(negative, 1 - point, digits, 0, point, s);
    } else {
      assert s.whole + s.fraction == digits;
      ShapeValueStrips(negative, 0, digits, 0, point, s);
    }
  }

  lemma ReadExponentText(e: int)
    ensures ReadExponent(ExponentText(e)) == Some(Some(e))
    ensures ExponentText(e)[0] == LOWER_E
  {
    DecimalRoundTrip(if e < 0 then -e else e);
    var t := ExponentText(e);
    assert t[2..] == Decimal(if e < 0 then -e else e);
  }

  lemma ReadExponentPart(s: Shape)
    ensures ReadExponent(ExponentPart(s)) == Some(s.exponent)
    ensures ExponentPart(s) != [] ==> ExponentPart(s)[0] == LOWER_E
  {
    if s.exponent.Some? { ReadExponentText(s.exponent.value); }
  }

  lemma ReadFraction(whole: Text, fraction: Text, exponent: Text, e: Option<int>)
    requires IsDecimal(whole) && fraction != [] && AllDigits(fraction)
    requires ReadExponent(exponent) == Some(e) && (exponent != [] ==> !IsDigit(exponent[0]))
    ensures ReadTail(whole, [DOT] + (fraction + exponent)) == Some(Shape(whole, fraction, e))
  {
    hide ReadExponent, DigitSpan, AllDigits, IsDecimal;
    var tail := [DOT] + (fraction + exponent);
    assert tail[1..] == fraction + exponent && tail[0] == DOT;
    DigitSpanAppend(fraction, exponent);
    Split(fraction, exponent);
  }

  lemma ReadTailText(s: Shape)
    requires IsShape(s)
    ensures ReadTail(s.whole, FractionText(s) + ExponentPart(s)) == Some(s)
  {
    hide ReadExponent, DigitSpan, AllDigits, IsDecimal, ExponentText;
    var exponent := ExponentPart(s);
    ReadExponentPart(s);
    if s.fraction == [] {
      assert FractionText(s) + exponent == exponent;
    } else {
      ReadFraction(s.whole, s.fraction, exponent, s.exponent);
      Assoc([DOT], s.fraction, exponent);
    }
  }

  lemma ReadShapeText(s: Shape)
    requires IsShape(s)
    ensures ReadShape(ShapeText(s)) == Some(s)
  {
    var tail := FractionText(s) + ExponentPart(s);
    ReadExponentPart(s);
    assert tail != [] ==> !IsDigit(tail[0]);
    Assoc(s.whole, FractionText(s), ExponentPart(s));
    DigitSpanAppend(s.whole, tail);
    Split(s.whole, tail);
    ReadTailText(s);
  }

  lemma ReadUnsignedText(negative: bool, digits: Text, point: int)
    requires IsNumber(Finite(negative, digits, point))
    ensures ReadUnsigned(negative, ShapeText(ShapeOf(digits, point))) == Some(Finite(negative, digits, point))
    ensures ShapeText(ShapeOf(digits, point)) != [] && IsDigit(ShapeText(ShapeOf(digits, point))[0])
  {
    ShapeValueExact(negative, digits, point);
    ReadShapeText(ShapeOf(digits, point));
    ShapeTextUnits(ShapeOf(digits, point));
  }

  lemma ReadZero()
    ensures ReadUnsigned(false, [48]) == Some(Zero)
  {
    var s := Shape([48], [], None);
    ReadShapeText(s);
    assert ShapeText(s) == [48] == s.whole + s.fraction;
    assert StripZeros(false, [48][1..], 0) == Zero;
  }

  /** Number::toString loses nothing: the reader recovers the number from its text. */
  lemma NumberRoundTrip(n: Number)
    requires IsNumber(n)
    ensures ReadNumber(NumberText(n)) == Some(n)
  {
    match n
    case Zero => ReadZero();
    case Finite(negative, digits, point) =>
      var t := ShapeText(ShapeOf(digits, point));
      ReadUnsignedText(negative, digits, point);
      assert negative ==> ([MINUS] + t)[1..] == t;
      assert !negative ==> [] + t == t;
  }

  lemma ShapeTextUnits(s: Shape)
    requires IsShape(s)
    ensures ShapeText(s) != [] && IsDigit(ShapeText(s)[0])
    ensures forall i :: 0 <= i < |ShapeText(s)| ==> IsNumberUnit(ShapeText(s)[i])
  {
    var fraction := if s.fraction == [] then [] else [DOT] + s.fraction;
    assert forall i :: 0 <= i < |fraction| ==> IsNumberUnit(fraction[i]);
    if s.exponent.Some? {
      var e := ExponentText(s.exponent.value);
      assert forall i :: 0 <= i < |e| ==> IsNumberUnit(e[i]);
    }
  }

  lemma NumberTextUnits(n: Number)
    requires IsNumber(n)
    ensures NumberText(n) != [] && (IsDigit(NumberText(n)[0]) || NumberText(n)[0] == MINUS)
    ensures forall i :: 0 <= i < |NumberText(n)| ==> IsNumberUnit(NumberText(n)[i])
  {
    if n.Finite? {
      ShapeValueExact(n.negative, n.digits, n.point);
      ShapeTextUnits(ShapeOf(n.digits, n.point));
    }
  }
}
