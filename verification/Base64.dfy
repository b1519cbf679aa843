/** Base64 with padding, section 4 of RFC 4648, as Convert.ToBase64String writes it. */
module Base64 {
  import opened Outcomes
  import opened Texts
  import opened Utf8

  type Sextet = v: int | 0 <= v < 64

  const PAD := 61
  const PLUS := 43
  const SLASH := 47

  function Letter(v: Sextet): CodeUnit {
    if v < 26 then 65 + v
    else if v < 52 then 97 + (v - 26)
    else if v < 62 then 48 + (v - 52)
    else if v == 62 then PLUS else SLASH
  }

  function Value(u: CodeUnit): Option<Sextet> {
    if 65 <= u <= 90 then Some(u - 65)
    else if 97 <= u <= 122 then Some(u - 97 + 26)
    else if 48 <= u <= 57 then Some(u - 48 + 52)
    else if u == PLUS then Some(62)
    else if u == SLASH then Some(63)
    else None
  }

  /** Four units for one to three bytes. */
  function Group(b: seq<Byte>): (t: Text)
    requires 1 <= |b| <= 3
    ensures |t| == 4
  {
    if |b| == 1 then [Letter(b[0] / 4), Letter(b[0] % 4 * 16), PAD, PAD]
    else if |b| == 2 then [Letter(b[0] / 4), Letter(b[0] % 4 * 16 + b[1] / 16), Letter(b[1] % 16 * 4), PAD]
    else [Letter(b[0] / 4), Letter(b[0] % 4 * 16 + b[1] / 16), Letter(b[1] % 16 * 4 + b[2] / 64), Letter(b[2] % 64)]
  }

  function Encode64(b: seq<Byte>): Text {
    if b == [] then [] else if |b| <= 3 then Group(b) else Group(b[..3]) + Encode64(b[3..])
  }

  /** The bytes of four units, with padding in the last group only. */
  function DecodeGroup(a: CodeUnit, b: CodeUnit, c: CodeUnit, d: CodeUnit, last: bool): Option<seq<Byte>> {
    var x, y, z, w := Value(a), Value(b), Value(c), Value(d);
    if x.None? || y.None? then None
    else
      var first := x.value * 4 + y.value / 16;
      if c == PAD then
        if last && d == PAD && y.value % 16 == 0 then Some([first]) else None
      else if z.None? then None
      else
        var second := y.value % 16 * 16 + z.value / 4;
        if d == PAD then
          if last && z.value % 4 == 0 then Some([first, second]) else None
        else if w.None? then None
        else Some([first, second, z.value % 4 * 64 + w.value])
  }

  function DecodeFour(t: Text, last: bool): Option<seq<Byte>>
    requires |t| == 4
  {
    DecodeGroup(t[0], t[1], t[2], t[3], last)
  }

  function Decode64(t: Text): Option<seq<Byte>> {
    if t == [] then Some([])
    else if |t| < 4 then None
    else
      var group, others := DecodeFour(t[..4], |t| == 4), Decode64(t[4..]);
      if group.None? || others.None? then None else Some(group.value + others.value)
  }

  lemma ValueOfLetter(v: Sextet)
    ensures Value(Letter(v)) == Some(v) && Letter(v) != PAD
  {
  }

  /** Three bytes from four groups of six bits. */
  lemma SixBits(x: Byte, y: Byte, z: Byte)
    ensures x / 4 * 4 + (x % 4 * 16 + y / 16) / 16 == x && x % 4 * 16 % 16 == 0
    ensures (x % 4 * 16 + y / 16) % 16 * 16 + (y % 16 * 4 + z / 64) / 4 == y && y % 16 * 4 % 4 == 0
    ensures (y % 16 * 4 + z / 64) % 4 * 64 + z % 64 == z
  {
    assert (x % 4 * 16 + y / 16) / 16 == x % 4 && (x % 4 * 16 + y / 16) % 16 == y / 16;
    assert (y % 16 * 4 + z / 64) / 4 == y % 16 && (y % 16 * 4 + z / 64) % 4 == z / 64;
  }

  lemma GroupOfOne(b: seq<Byte>)
    requires |b| == 1
    ensures DecodeFour(Group(b), true) == Some(b)
  {
    hide Value, Letter;
    ValueOfLetter(b[0] / 4);
    ValueOfLetter(b[0] % 4 * 16);
    SixBits(b[0], 0, 0);
    assert b == [b[0]];
  }

  lemma GroupOfTwo(b: seq<Byte>)
    requires |b| == 2
    ensures DecodeFour(Group(b), true) == Some(b)
  {
    hide Value, Letter;
    ValueOfLetter(b[0] / 4);
    ValueOfLetter(b[0] % 4 * 16 + b[1] / 16);
    ValueOfLetter(b[1] % 16 * 4);
    SixBits(b[0], b[1], 0);
    assert b == [b[0], b[1]];
  }

  lemma GroupOfThree(b: seq<Byte>, last: bool)
    requires |b| == 3
    ensures DecodeFour(Group(b), last) == Some(b)
  {
    hide Value, Letter;
    ValueOfLetter(b[0] / 4);
    ValueOfLetter(b[0] % 4 * 16 + b[1] / 16);
    ValueOfLetter(b[1] % 16 * 4 + b[2] / 64);
    ValueOfLetter(b[2] % 64);
    SixBits(b[0], b[1], b[2]);
    assert b == [b[0], b[1], b[2]];
  }

  lemma {:induction false} EncodeNonEmpty(b: seq<Byte>)
    requires b != []
    ensures |Encode64(b)| >= 4
  {
    hide Group;
  }

  lemma {:induction false} RoundTrip64(b: seq<Byte>)
    ensures Decode64(Encode64(b)) == Some(b)
  {
    hide DecodeFour, Group;
    var t := Encode64(b);
    if 1 <= |b| <= 3 {
      if |b| == 1 { GroupOfOne(b); } else if |b| == 2 { GroupOfTwo(b); } else { GroupOfThree(b, true); }
      assert t[..4] == t && t[4..] == [] && b + [] == b;
    } else if |b| > 3 {
      RoundTrip64(b[3..]);
      EncodeNonEmpty(b[3..]);
      GroupOfThree(b[..3], false);
      assert t[..4] == Group(b[..3]) && t[4..] == Encode64(b[3..]);
      assert b == b[..3] + b[3..];
    }
  }

  lemma Injective64(a: seq<Byte>, b: seq<Byte>)
    requires Encode64(a) == Encode64(b)
    ensures a == b
  {
    RoundTrip64(a);
    RoundTrip64(b);
  }

  /** Every unit belongs to the alphabet or is padding; the newline is neither. */
  predicate IsAlphabetic(t: Text) { forall i :: 0 <= i < |t| ==> t[i] == PAD || Value(t[i]).Some? }

  lemma GroupAlphabet(b: seq<Byte>)
    requires 1 <= |b| <= 3
    ensures IsAlphabetic(Group(b))
  {
    hide Value, Letter;
    ValueOfLetter(b[0] / 4);
    ValueOfLetter(b[0] % 4 * 16 + if |b| > 1 then b[1] / 16 else 0);
    ValueOfLetter(if |b| > 1 then b[1] % 16 * 4 + (if |b| > 2 then b[2] / 64 else 0) else 0);
    ValueOfLetter(if |b| > 2 then b[2] % 64 else 0);
  }

  lemma {:induction false} Alphabet64(b: seq<Byte>)
    ensures IsAlphabetic(Encode64(b))
  {
    hide Group, Value;
    if |b| > 3 {
      Alphabet64(b[3..]);
      GroupAlphabet(b[..3]);
    } else if b != [] {
      GroupAlphabet(b);
    }
  }
}
