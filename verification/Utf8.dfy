/**
 UTF-8 as TextEncoder, Buffer.byteLength and Encoding.UTF8.GetBytes produce it from UTF-16 code units:
 a lone surrogate is replaced by U+FFFD. The decoders are the fatal and the replacing one of the Encoding standard.
 */
module Utf8 {
  import opened Outcomes
  import opened Texts

  type Byte = b: int | 0 <= b < 256

  predicate StartsPair(s: Text) { |s| > 1 && IsHigh(s[0]) && IsLow(s[1]) }

  function Continuation(v: int): Byte { 128 + v % 64 }

  function PairBytes(high: CodeUnit, low: CodeUnit): seq<Byte>
    requires IsHigh(high) && IsLow(low)
  {
    var v := 0x10000 + (high - 0xD800) * 1024 + (low - 0xDC00);
    [240 + v / 262144, Continuation(v / 4096), Continuation(v / 64), Continuation(v)]
  }

  function UnitBytes(u: CodeUnit): seq<Byte> {
    if u < 0x80 then [u]
    else if u < 0x800 then [192 + u / 64, Continuation(u)]
    else if IsHigh(u) || IsLow(u) then [0xEF, 0xBF, 0xBD]
    else [224 + u / 4096, Continuation(u / 64), Continuation(u)]
  }

  function Encode(s: Text): seq<Byte> {
    if s == [] then []
    else if StartsPair(s) then PairBytes(s[0], s[1]) + Encode(s[2..])
    else UnitBytes(s[0]) + Encode(s[1..])
  }

  /** No lone surrogates. */
  predicate IsWellFormed(s: Text) {
    s == [] ||
    (if StartsPair(s) then IsWellFormed(s[2..]) else !IsHigh(s[0]) && !IsLow(s[0]) && IsWellFormed(s[1..]))
  }

  /** The text with every lone surrogate replaced. */
  function Scrub(s: Text): (r: Text)
    ensures |r| == |s|
  {
    if s == [] then []
    else if StartsPair(s) then s[..2] + Scrub(s[2..])
    else [if IsHigh(s[0]) || IsLow(s[0]) then 0xFFFD else s[0]] + Scrub(s[1..])
  }

  predicate IsContinuation(b: Byte) { 128 <= b < 192 }

  function Payload(b: Byte, base: int): int { b - base }

  /** The units of one encoded character and the bytes it took, or none for an invalid sequence. */
  function DecodeOne(b: seq<Byte>): (r: Option<(Text, nat)>)
    requires b != []
    ensures r.Some? ==> 1 <= r.value.1 <= |b|
  {
    if b[0] < 0x80 then Some(([Payload(b[0], 0)], 1))
    else if 194 <= b[0] < 224 then
      if |b| > 1 && IsContinuation(b[1]) then Some(([Payload(b[0], 192) * 64 + Payload(b[1], 128)], 2)) else None
    else if 224 <= b[0] < 240 then
      if |b| > 2 && IsContinuation(b[1]) && IsContinuation(b[2]) then
        var v := Payload(b[0], 224) * 4096 + Payload(b[1], 128) * 64 + Payload(b[2], 128);
        if v >= 0x800 && !IsHigh(v) && !IsLow(v) then Some(([v], 3)) else None
      else None
    else if 240 <= b[0] < 245 then
      if |b| > 3 && IsContinuation(b[1]) && IsContinuation(b[2]) && IsContinuation(b[3]) then
        var v := Payload(b[0], 240) * 262144 + Payload(b[1], 128) * 4096 + Payload(b[2], 128) * 64 + Payload(b[3], 128);
        if 0x10000 <= v < 0x110000 then
          Some(([0xD800 + (v - 0x10000) / 1024, 0xDC00 + (v - 0x10000) % 1024], 4))
        else None
      else None
    else None
  }

  function Decode(b: seq<Byte>): Option<Text> {
    if b == [] then Some([])
    else
      var first := DecodeOne(b);
      if first.None? then None
      else
        var others := Decode(b[first.value.1..]);
        if others.None? then None else Some(first.value.0 + others.value)
  }

  /** The second bytes that can follow a lead byte. */
  predicate IsSecond(lead: Byte, b: Byte) {
    if lead == 0xE0 then 0xA0 <= b < 0xC0
    else if lead == 0xED then 0x80 <= b < 0xA0
    else if lead == 0xF0 then 0x90 <= b < 0xC0
    else if lead == 0xF4 then 0x80 <= b < 0x90
    else IsContinuation(b)
  }

  /** The bytes of an invalid sequence that one replacement stands for: those that could still have
      begun a character. */
  function BrokenLength(b: seq<Byte>): (n: nat)
    requires b != []
    ensures 1 <= n <= |b|
  {
    var size := if 224 <= b[0] < 240 then 3 else if 240 <= b[0] < 245 then 4 else 2;
    if size == 2 || |b| < 2 || !IsSecond(b[0], b[1]) then 1
    else if size == 3 || |b| < 3 || !IsContinuation(b[2]) then 2
    else 3
  }

  /** Reading a file as UTF-8: what is no character becomes U+FFFD. */
  function DecodeReplacing(b: seq<Byte>): Text {
    if b == [] then []
    else
      var first := DecodeOne(b);
      if first.Some? then first.value.0 + DecodeReplacing(b[first.value.1..])
      else [0xFFFD] + DecodeReplacing(b[BrokenLength(b)..])
  }

  lemma {:induction false} DecodersAgree(b: seq<Byte>)
    ensures Decode(b).Some? ==> DecodeReplacing(b) == Decode(b).value
    decreases |b|
  {
    hide DecodeOne;
    if b != [] && DecodeOne(b).Some? { DecodersAgree(b[DecodeOne(b).value.1..]); }
  }

  lemma SixBitGroups(v: int)
    requires 0 <= v
    ensures v == (v / 262144) * 262144 + (v / 4096 % 64) * 4096 + (v / 64 % 64) * 64 + v % 64
  {
    var a := v / 64;
    var b := a / 64;
    assert b == v / 4096;
    assert b / 64 == v / 262144;
    assert v == a * 64 + v % 64 && a == b * 64 + a % 64 && b == b / 64 * 64 + b % 64;
  }

  lemma PairParts(high: CodeUnit, low: CodeUnit, v: int)
    requires IsHigh(high) && IsLow(low)
    requires v == 0x10000 + (high - 0xD800) * 1024 + (low - 0xDC00)
    ensures 0x10000 <= v < 0x110000 && v / 262144 < 5
    ensures (v - 0x10000) / 1024 == high - 0xD800 && (v - 0x10000) % 1024 == low - 0xDC00
  {
  }

  lemma DecodePair(high: CodeUnit, low: CodeUnit, rest: seq<Byte>)
    requires IsHigh(high) && IsLow(low)
    ensures DecodeOne(PairBytes(high, low) + rest) == Some(([high, low], 4))
  {
    var v := 0x10000 + (high - 0xD800) * 1024 + (low - 0xDC00);
    PairParts(high, low, v);
    SixBitGroups(v);
    var b := PairBytes(high, low) + rest;
    assert b[0] == 240 + v / 262144 && b[1] == Continuation(v / 4096) && b[2] == Continuation(v / 64)
      && b[3] == Continuation(v);
  }

  lemma DecodeTwo(u: CodeUnit, rest: seq<Byte>)
    requires 0x80 <= u < 0x800
    ensures DecodeOne(UnitBytes(u) + rest) == Some(([u], 2))
  {
    var b := UnitBytes(u) + rest;
    assert b[0] == 192 + u / 64 && b[1] == Continuation(u);
  }

  lemma DecodeThree(u: CodeUnit, rest: seq<Byte>)
    requires 0x800 <= u && !IsHigh(u) && !IsLow(u)
    ensures DecodeOne(UnitBytes(u) + rest) == Some(([u], 3))
  {
    SixBitGroups(u);
    var b := UnitBytes(u) + rest;
    assert b[0] == 224 + u / 4096 && b[1] == Continuation(u / 64) && b[2] == Continuation(u);
  }

  lemma DecodeUnit(u: CodeUnit, rest: seq<Byte>)
    ensures DecodeOne(UnitBytes(u) + rest)
         == Some(([if IsHigh(u) || IsLow(u) then 0xFFFD else u], |UnitBytes(u)|))
  {
    if 0x80 <= u < 0x800 {
      DecodeTwo(u, rest);
    } else if 0x800 <= u && !IsHigh(u) && !IsLow(u) {
      DecodeThree(u, rest);
    }
  }

  lemma DecodeStep(first: seq<Byte>, units: Text, rest: seq<Byte>, others: Text)
    requires first != [] && DecodeOne(first + rest) == Some((units, |first|))
    requires Decode(rest) == Some(others)
    ensures Decode(first + rest) == Some(units + others)
  {
    assert (first + rest)[|first|..] == rest;
  }

  lemma {:induction false} DecodeEncode(s: Text)
    ensures Decode(Encode(s)) == Some(Scrub(s))
    decreases |s|
  {
    if s != [] {
      if StartsPair(s) {
        DecodeEncode(s[2..]);
        DecodePair(s[0], s[1], Encode(s[2..]));
        DecodeStep(PairBytes(s[0], s[1]), [s[0], s[1]], Encode(s[2..]), Scrub(s[2..]));
        assert s[..2] == [s[0], s[1]];
      } else {
        DecodeEncode(s[1..]);
        DecodeUnit(s[0], Encode(s[1..]));
        DecodeStep(UnitBytes(s[0]), [if IsHigh(s[0]) || IsLow(s[0]) then 0xFFFD else s[0]], Encode(s[1..]),
          Scrub(s[1..]));
      }
    }
  }

  lemma {:induction false} ScrubIsIdentity(s: Text)
    ensures Scrub(s) == s <==> IsWellFormed(s)
    decreases |s|
  {
    if s != [] {
      if StartsPair(s) {
        ScrubIsIdentity(s[2..]);
        assert s == s[..2] + s[2..];
        assert Scrub(s)[2..] == Scrub(s[2..]);
      } else {
        ScrubIsIdentity(s[1..]);
        assert s == [s[0]] + s[1..];
        assert Scrub(s)[1..] == Scrub(s[1..]);
      }
    }
  }

  /** Decoding the encoding gives the text back exactly for well-formed texts. */
  lemma RoundTripIffWellFormed(s: Text)
    ensures Decode(Encode(s)) == Some(s) <==> IsWellFormed(s)
  {
    DecodeEncode(s);
    ScrubIsIdentity(s);
  }

  lemma EncodeInjective(a: Text, b: Text)
    requires IsWellFormed(a) && IsWellFormed(b) && Encode(a) == Encode(b)
    ensures a == b
  {
    RoundTripIffWellFormed(a);
    RoundTripIffWellFormed(b);
  }

  /** A well-formed text never ends in half a pair, so encoding distributes over what follows it. */
  lemma {:induction false} EncodeConcat(a: Text, b: Text)
    requires IsWellFormed(a)
    ensures Encode(a + b) == Encode(a) + Encode(b)
    decreases |a|
  {
    hide PairBytes, UnitBytes;
    if a == [] {
      assert a + b == b;
    } else if StartsPair(a) {
      assert (a + b)[2..] == a[2..] + b;
      EncodeConcat(a[2..], b);
      BytesAssoc(PairBytes(a[0], a[1]), Encode(a[2..]), Encode(b));
    } else {
      assert (a + b)[1..] == a[1..] + b;
      EncodeConcat(a[1..], b);
      BytesAssoc(UnitBytes(a[0]), Encode(a[1..]), Encode(b));
    }
  }

  lemma BytesAssoc(a: seq<Byte>, b: seq<Byte>, c: seq<Byte>)
    ensures a + b + c == a + (b + c)
  {
  }

  lemma {:induction false} WellFormedConcat(a: Text, b: Text)
    requires IsWellFormed(a) && IsWellFormed(b)
    ensures IsWellFormed(a + b)
    decreases |a|
  {
    if a == [] {
      assert a + b == b;
    } else if StartsPair(a) {
      assert (a + b)[2..] == a[2..] + b;
      WellFormedConcat(a[2..], b);
    } else {
      assert (a + b)[1..] == a[1..] + b;
      WellFormedConcat(a[1..], b);
    }
  }

  lemma {:induction false} EncodeLength(s: Text)
    ensures |Encode(s)| <= 3 * |s|
    decreases |s|
  {
    if s != [] {
      if StartsPair(s) { EncodeLength(s[2..]); } else { EncodeLength(s[1..]); }
    }
  }

  /** Scrubbing is what encoding does to a text anyway, and leaves it well formed. */
  lemma {:induction false} EncodeScrub(s: Text)
    ensures IsWellFormed(Scrub(s)) && Encode(Scrub(s)) == Encode(s)
    decreases |s|
  {
    if s != [] {
      var r := Scrub(s);
      if StartsPair(s) {
        EncodeScrub(s[2..]);
        assert r[0] == s[0] && r[1] == s[1] && r[2..] == Scrub(s[2..]);
      } else {
        EncodeScrub(s[1..]);
        assert r[1..] == Scrub(s[1..]);
        ScrubbedUnit(s[0]);
      }
    }
  }

  lemma ScrubbedUnit(u: CodeUnit)
    ensures UnitBytes(if IsHigh(u) || IsLow(u) then 0xFFFD else u) == UnitBytes(u)
  {
  }
}
