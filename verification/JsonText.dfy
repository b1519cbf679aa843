/**
 JSON values, the text JSON.stringify prints for them, and an independent reader of that text
 (RFC 8259 without insignificant white space). Printing followed by reading is the identity.
 */
module JsonText {
  import opened Outcomes
  import opened Texts
  import opened Decimals
  import opened JsonNumbers
  import Utf8

  /** An object holds its members in enumeration order. */
  datatype Json =
    | Null
    | Bool(flag: bool)
    | Num(number: Number)
    | Str(text: Text)
    | Arr(items: seq<Json>)
    | Obj(members: seq<Member>)

  datatype Member = Member(key: Text, value: Json)

  function Keys(ms: seq<Member>): (r: seq<Text>)
    ensures |r| == |ms| && forall i :: 0 <= i < |ms| ==> r[i] == ms[i].key
  {
    seq(|ms|, i requires 0 <= i < |ms| => ms[i].key)
  }

  /** The value of a member, if there is one of that key. */
  function Find(ms: seq<Member>, key: Text): (r: Option<Json>)
    ensures r.Some? <==> key in Keys(ms)
    ensures r.Some? ==> exists i :: 0 <= i < |ms| && ms[i] == Member(key, r.value)
  {
    if ms == [] then None
    else if ms[0].key == key then
      assert ms[0] == Member(key, ms[0].value) && Keys(ms)[0] == key;
      Some(ms[0].value)
    else
      assert Keys(ms) == [ms[0].key] + Keys(ms[1..]);
      Find(ms[1..], key)
  }

  /** Numbers are normalised and no object repeats a key. */
  predicate IsJson(v: Json) {
    match v
    case Num(n) => IsNumber(n)
    case Arr(items) => forall i :: 0 <= i < |items| ==> IsJson(items[i])
    case Obj(ms) => DistinctKeys(ms) && forall i :: 0 <= i < |ms| ==> IsJson(ms[i].value)
    case _ => true
  }

  predicate DistinctKeys(ms: seq<Member>) {
    forall i, j :: 0 <= i < j < |ms| ==> ms[i].key != ms[j].key
  }

  // ---- Strings: QuoteJSONString of ECMAScript, section 7 of RFC 8259 ----

  const QUOTE: CodeUnit := 34
  const BACKSLASH: CodeUnit := 92
  const COMMA: CodeUnit := 44
  const COLON: CodeUnit := 58
  const OPEN_BRACKET: CodeUnit := 91
  const CLOSE_BRACKET: CodeUnit := 93
  const OPEN_BRACE: CodeUnit := 123
  const CLOSE_BRACE: CodeUnit := 125
  const NULL_TEXT: Text := [110, 117, 108, 108]
  const TRUE_TEXT: Text := [116, 114, 117, 101]
  const FALSE_TEXT: Text := [102, 97, 108, 115, 101]

  function HexDigit(d: int): CodeUnit
    requires 0 <= d < 16
  {
    if d < 10 then 48 + d else 87 + d
  }

  function UnicodeEscape(u: CodeUnit): Text {
    [BACKSLASH, 117, HexDigit(u / 4096), HexDigit(u / 256 % 16), HexDigit(u / 16 % 16), HexDigit(u % 16)]
  }

  /** The letter of a two-character escape, or 0 when the unit has none. */
  function ShortEscape(u: CodeUnit): CodeUnit {
    if u == 8 then 98 else if u == 9 then 116 else if u == 10 then 110 else if u == 12 then 102
    else if u == 13 then 114 else if u == QUOTE then QUOTE else if u == BACKSLASH then BACKSLASH else 0
  }

  function EscapeUnit(u: CodeUnit): Text {
    if ShortEscape(u) != 0 then [BACKSLASH, ShortEscape(u)]
    else if u < 32 || IsHigh(u) || IsLow(u) then UnicodeEscape(u)
    else [u]
  }

  /** A surrogate pair is kept; a lone surrogate is escaped. */
  function Escape(s: Text): Text {
    if s == [] then []
    else if |s| > 1 && IsHigh(s[0]) && IsLow(s[1]) then s[..2] + Escape(s[2..])
    else EscapeUnit(s[0]) + Escape(s[1..])
  }

  function QuoteText(s: Text): Text { [QUOTE] + Escape(s) + [QUOTE] }

  // ---- JSON.stringify ----

  function Print(v: Json): Text
    requires IsJson(v)
    decreases v, 0
  {
    match v
    case Null => NULL_TEXT
    case Bool(flag) => if flag then TRUE_TEXT else FALSE_TEXT
    case Num(n) => NumberText(n)
    case Str(s) => QuoteText(s)
    case Arr(items) => [OPEN_BRACKET] + PrintItems(items) + [CLOSE_BRACKET]
    case Obj(ms) => [OPEN_BRACE] + PrintMembers(ms) + [CLOSE_BRACE]
  }

  function PrintItems(items: seq<Json>): Text
    requires forall i :: 0 <= i < |items| ==> IsJson(items[i])
    decreases items, 0
  {
    if items == [] then []
    else if |items| == 1 then Print(items[0])
    else Print(items[0]) + [COMMA] + PrintItems(items[1..])
  }

  function PrintMember(m: Member): Text
    requires IsJson(m.value)
    decreases m, 0
  {
    QuoteText(m.key) + [COLON] + Print(m.value)
  }

  function PrintMembers(ms: seq<Member>): Text
    requires forall i :: 0 <= i < |ms| ==> IsJson(ms[i].value)
    decreases ms, 0
  {
    if ms == [] then []
    else if |ms| == 1 then PrintMember(ms[0])
    else PrintMember(ms[0]) + [COMMA] + PrintMembers(ms[1..])
  }

  // ---- The independent reader ----

  /** A value read from the front of a text, and the text left over. */
  datatype Parsed<T> = Failed | Parsed(value: T, rest: Text)

  function HexValue(u: CodeUnit): int {
    if 48 <= u <= 57 then u - 48 else if 97 <= u <= 102 then u - 87 else if 65 <= u <= 70 then u - 55 else -1
  }

  function ReadHex(t: Text): (r: Parsed<CodeUnit>)
    ensures r.Parsed? ==> |t| >= 4 && r.rest == t[4..]
  {
    if |t| < 4 || HexValue(t[0]) < 0 || HexValue(t[1]) < 0 || HexValue(t[2]) < 0 || HexValue(t[3]) < 0 then Failed
    else Parsed(HexValue(t[0]) * 4096 + HexValue(t[1]) * 256 + HexValue(t[2]) * 16 + HexValue(t[3]), t[4..])
  }

  /** The unit named by what follows a backslash. */
  function ReadEscape(t: Text): (r: Parsed<CodeUnit>)
    ensures r.Parsed? ==> |r.rest| < |t|
  {
    if t == [] then Failed
    else if t[0] == 117 then ReadHex(t[1..])
    else if t[0] == 98 then Parsed(8, t[1..])
    else if t[0] == 116 then Parsed(9, t[1..])
    else if t[0] == 110 then Parsed(10, t[1..])
    else if t[0] == 102 then Parsed(12, t[1..])
    else if t[0] == 114 then Parsed(13, t[1..])
    else if t[0] == QUOTE || t[0] == BACKSLASH || t[0] == 47 then Parsed(t[0], t[1..])
    else Failed
  }

  /** The rest of a string literal after its opening quote. */
  function ReadString(t: Text): (r: Parsed<Text>)
    ensures r.Parsed? ==> |r.rest| < |t|
  {
    if t == [] || t[0] < 32 then Failed
    else if t[0] == QUOTE then Parsed([], t[1..])
    else
      var unit := if t[0] == BACKSLASH then ReadEscape(t[1..]) else Parsed(t[0], t[1..]);
      if unit.Failed? then Failed
      else
        var tail := ReadString(unit.rest);
        if tail.Failed? then Failed else Parsed([unit.value] + tail.value, tail.rest)
  }

  function NumberSpan(t: Text): (n: nat)
    ensures n <= |t|
  {
    if t == [] || !IsNumberUnit(t[0]) then 0 else 1 + NumberSpan(t[1..])
  }

  predicate StartsWith(t: Text, prefix: Text)
    ensures StartsWith(t, prefix) && prefix != [] ==> t != [] && t[0] == prefix[0]
  {
    |prefix| <= |t| && t[..|prefix|] == prefix
  }

  function ReadValue(t: Text): (r: Parsed<Json>)
    ensures r.Parsed? ==> |r.rest| < |t|
    decreases |t|, 2
  {
    if t == [] then Failed
    else if t[0] == QUOTE then
      var s := ReadString(t[1..]);
      if s.Failed? then Failed else Parsed(Str(s.value), s.rest)
    else if t[0] == OPEN_BRACKET then
      if |t| > 1 && t[1] == CLOSE_BRACKET then Parsed(Arr([]), t[2..])
      else
        var items := ReadItems(t[1..]);
        if items.Failed? then Failed else Parsed(Arr(items.value), items.rest)
    else if t[0] == OPEN_BRACE then
      if |t| > 1 && t[1] == CLOSE_BRACE then Parsed(Obj([]), t[2..])
      else
        var members := ReadMembers(t[1..]);
        if members.Failed? then Failed else Parsed(Obj(members.value), members.rest)
    else if StartsWith(t, NULL_TEXT) then Parsed(Null, t[4..])
    else if StartsWith(t, TRUE_TEXT) then Parsed(Bool(true), t[4..])
    else if StartsWith(t, FALSE_TEXT) then Parsed(Bool(false), t[5..])
    else ReadNumberValue(t)
  }

  function ReadNumberValue(t: Text): (r: Parsed<Json>)
    ensures r.Parsed? ==> |r.rest| < |t|
    decreases |t|, 0
  {
    var n := NumberSpan(t);
    if n == 0 then Failed
    else
      var number := ReadNumber(t[..n]);
      if number.None? then Failed else Parsed(Num(number.value), t[n..])
  }

  /** One or more comma-separated values up to the closing bracket. */
  function ReadItems(t: Text): (r: Parsed<seq<Json>>)
    ensures r.Parsed? ==> |r.rest| < |t|
    decreases |t|, 3
  {
    var first := ReadValue(t);
    if first.Failed? || first.rest == [] then Failed
    else if first.rest[0] == CLOSE_BRACKET then Parsed([first.value], first.rest[1..])
    else if first.rest[0] != COMMA then Failed
    else
      var others := ReadItems(first.rest[1..]);
      if others.Failed? then Failed else Parsed([first.value] + others.value, others.rest)
  }

  function ReadMember(t: Text): (r: Parsed<Member>)
    ensures r.Parsed? ==> |r.rest| < |t|
    decreases |t|, 3
  {
    if t == [] || t[0] != QUOTE then Failed
    else
      var key := ReadString(t[1..]);
      if key.Failed? then Failed else ReadMemberValue(key.value, key.rest)
  }

  function ReadMemberValue(key: Text, t: Text): (r: Parsed<Member>)
    ensures r.Parsed? ==> |r.rest| < |t|
    decreases |t|, 3
  {
    if t == [] || t[0] != COLON then Failed
    else
      var value := ReadValue(t[1..]);
      if value.Failed? then Failed else Parsed(Member(key, value.value), value.rest)
  }

  function ReadMembers(t: Text): (r: Parsed<seq<Member>>)
    ensures r.Parsed? ==> |r.rest| < |t|
    decreases |t|, 4
  {
    var first := ReadMember(t);
    if first.Failed? || first.rest == [] then Failed
    else if first.rest[0] == CLOSE_BRACE then Parsed([first.value], first.rest[1..])
    else if first.rest[0] != COMMA then Failed
    else
      var others := ReadMembers(first.rest[1..]);
      if others.Failed? then Failed else Parsed([first.value] + others.value, others.rest)
  }

  // ---- Strings round-trip ----

  lemma HexDigitsOf(u: CodeUnit)
    ensures u == (u / 4096) * 4096 + (u / 256 % 16) * 256 + (u / 16 % 16) * 16 + u % 16
  {
    assert u / 256 == (u / 4096) * 16 + u / 256 % 16;
    assert u / 16 == (u / 256) * 16 + u / 16 % 16;
  }

  lemma HexRoundTrip(u: CodeUnit, rest: Text)
    ensures ReadHex(UnicodeEscape(u)[2..] + rest) == Parsed(u, rest)
  {
    var t := UnicodeEscape(u)[2..] + rest;
    assert t[4..] == rest;
    HexDigitsOf(u);
  }

  /** Reading a whole escaped unit yields that unit. */
  lemma ReadEscapedUnit(u: CodeUnit, rest: Text, t: Text)
    requires t == EscapeUnit(u) + rest
    ensures t != [] && t[0] >= 32 && t[0] != QUOTE
    ensures (if t[0] == BACKSLASH then ReadEscape(t[1..]) else Parsed(t[0], t[1..])) == Parsed(u, rest)
  {
    if ShortEscape(u) != 0 {
      assert t[1..] == [ShortEscape(u)] + rest && t[1..][1..] == rest;
    } else if u < 32 || IsHigh(u) || IsLow(u) {
      HexRoundTrip(u, rest);
      assert t[1..][1..] == UnicodeEscape(u)[2..] + rest;
    } else {
      assert t[1..] == rest;
    }
  }

  /** Reading one unit leaves the reading of the rest. */
  lemma ReadEscapedStep(u: CodeUnit, s: Text, tail: Text, rest: Text, t: Text)
    requires t == EscapeUnit(u) + tail
    requires ReadString(tail) == Parsed(s, rest)
    ensures ReadString(t) == Parsed([u] + s, rest)
  {
    ReadEscapedUnit(u, tail, t);
  }

  lemma ReadRawStep(u: CodeUnit, s: Text, tail: Text, rest: Text, t: Text)
    requires t == [u] + tail && (IsHigh(u) || IsLow(u))
    requires ReadString(tail) == Parsed(s, rest)
    ensures ReadString(t) == Parsed([u] + s, rest)
  {
    assert t[1..] == tail;
  }

  lemma QuoteTail(s: Text, rest: Text, t: Text)
    requires t == QuoteText(s) + rest
    ensures t != [] && t[0] == QUOTE && t[1..] == Escape(s) + ([QUOTE] + rest)
  {
  }

  lemma ReadEnd(rest: Text)
    ensures ReadString([QUOTE] + rest) == Parsed([], rest)
  {
    assert ([QUOTE] + rest)[1..] == rest;
  }

  lemma {:induction false} StringRoundTrip(s: Text, rest: Text)
    ensures ReadString(Escape(s) + ([QUOTE] + rest)) == Parsed(s, rest)
    decreases |s|
  {
    hide ReadString, EscapeUnit;
    var end := [QUOTE] + rest;
    var t := Escape(s) + end;
    if s == [] {
      assert t == end;
      ReadEnd(rest);
    } else if |s| > 1 && IsHigh(s[0]) && IsLow(s[1]) {
      var tail := Escape(s[2..]) + end;
      StringRoundTrip(s[2..], rest);
      ReadRawStep(s[1], s[2..], tail, rest, [s[1]] + tail);
      ReadRawStep(s[0], s[1..], [s[1]] + tail, rest, t) by {
        Assoc(s[..2], Escape(s[2..]), end);
        assert s[..2] + tail == [s[0]] + ([s[1]] + tail);
        assert s[1..] == [s[1]] + s[2..];
      }
      assert s == [s[0]] + s[1..];
    } else {
      var tail := Escape(s[1..]) + end;
      Assoc(EscapeUnit(s[0]), Escape(s[1..]), end);
      StringRoundTrip(s[1..], rest);
      ReadEscapedStep(s[0], s[1..], tail, rest, t);
      assert s == [s[0]] + s[1..];
    }
  }

  // ---- Values round-trip ----

  /** Nothing that could extend a number follows. */
  predicate Ends(rest: Text) { rest == [] || !IsNumberUnit(rest[0]) }

  lemma {:induction false} NumberSpanAppend(n: Text, rest: Text)
    requires forall i :: 0 <= i < |n| ==> IsNumberUnit(n[i])
    requires Ends(rest)
    ensures NumberSpan(n + rest) == |n|
  {
    if n == [] {
      assert n + rest == rest;
    } else {
      assert (n + rest)[1..] == n[1..] + rest;
      NumberSpanAppend(n[1..], rest);
    }
  }

  lemma NumberDispatch(t: Text)
    requires t != [] && (IsDigit(t[0]) || t[0] == MINUS)
    ensures ReadValue(t) == ReadNumberValue(t)
  {
    assert !StartsWith(t, NULL_TEXT) && !StartsWith(t, TRUE_TEXT) && !StartsWith(t, FALSE_TEXT);
  }

  lemma NumberValueRoundTrip(n: Number, rest: Text, t: Text)
    requires IsNumber(n) && Ends(rest) && t == NumberText(n) + rest
    ensures ReadNumberValue(t) == Parsed(Num(n), rest)
    ensures t != [] && (IsDigit(t[0]) || t[0] == MINUS)
  {
    var text := NumberText(n);
    NumberTextUnits(n);
    NumberSpanAppend(text, rest);
    NumberRoundTrip(n);
    assert t[..|text|] == text && t[|text|..] == rest && t[0] == text[0];
  }

  lemma PrintStarts(v: Json)
    requires IsJson(v)
    ensures Print(v) != [] && Print(v)[0] != CLOSE_BRACKET && Print(v)[0] != CLOSE_BRACE
  {
    if v.Num? { NumberTextUnits(v.number); }
  }

  /** JSON.stringify loses nothing: reading the printed text gives back the value and what followed it. */
  lemma {:induction false} ValueRoundTrip(v: Json, rest: Text)
    requires IsJson(v) && Ends(rest)
    ensures ReadValue(Print(v) + rest) == Parsed(v, rest)
    decreases v, 1
  {
    var t := Print(v) + rest;
    match v
    case Null =>
      assert t[..4] == NULL_TEXT && t[4..] == rest;
    case Bool(flag) =>
      BoolRoundTrip(flag, rest);
    case Num(n) =>
      NumberValueRoundTrip(n, rest, t);
      NumberDispatch(t);
    case Str(s) =>
      StringRoundTrip(s, rest);
      QuoteTail(s, rest, t);
    case Arr(items) =>
      ArrayRoundTrip(items, rest, t);
    case Obj(ms) =>
      ObjectRoundTrip(ms, rest, t);
  }

  lemma {:induction false} ArrayRoundTrip(items: seq<Json>, rest: Text, t: Text)
    requires forall i :: 0 <= i < |items| ==> IsJson(items[i])
    requires t == [OPEN_BRACKET] + PrintItems(items) + [CLOSE_BRACKET] + rest
    ensures ReadValue(t) == Parsed(Arr(items), rest)
    decreases items, 2
  {
    if items == [] {
      assert t[2..] == rest;
    } else {
      var body := PrintItems(items) + ([CLOSE_BRACKET] + rest);
      BodyOf(OPEN_BRACKET, PrintItems(items), CLOSE_BRACKET, rest, t);
      ItemsRoundTrip(items, rest, body);
    }
  }

  lemma {:induction false} ObjectRoundTrip(ms: seq<Member>, rest: Text, t: Text)
    requires forall i :: 0 <= i < |ms| ==> IsJson(ms[i].value)
    requires t == [OPEN_BRACE] + PrintMembers(ms) + [CLOSE_BRACE] + rest
    ensures ReadValue(t) == Parsed(Obj(ms), rest)
    decreases ms, 2
  {
    if ms == [] {
      assert t[2..] == rest;
    } else {
      var body := PrintMembers(ms) + ([CLOSE_BRACE] + rest);
      BodyOf(OPEN_BRACE, PrintMembers(ms), CLOSE_BRACE, rest, t);
      MembersRoundTrip(ms, rest, body);
    }
  }

  lemma BodyOf(open: CodeUnit, inside: Text, close: CodeUnit, rest: Text, t: Text)
    requires t == [open] + inside + [close] + rest
    ensures t != [] && t[0] == open && t[1..] == inside + ([close] + rest)
    ensures inside != [] ==> |t| > 1 && t[1] == inside[0]
  {
  }

  lemma BoolRoundTrip(flag: bool, rest: Text)
    ensures ReadValue(Print(Bool(flag)) + rest) == Parsed(Bool(flag), rest)
  {
    var t := Print(Bool(flag)) + rest;
    if flag {
      assert t[..4] == TRUE_TEXT && t[4..] == rest;
    } else {
      assert t[..5] == FALSE_TEXT && t[5..] == rest;
    }
  }

  lemma ReadItemsStep(v: Json, others: seq<Json>, tail: Text, rest: Text, t: Text)
    requires ReadValue(t) == Parsed(v, [COMMA] + tail)
    requires ReadItems(tail) == Parsed(others, rest)
    ensures ReadItems(t) == Parsed([v] + others, rest)
  {
    assert ([COMMA] + tail)[1..] == tail;
  }

  lemma ReadItemsEnd(v: Json, rest: Text, t: Text)
    requires ReadValue(t) == Parsed(v, [CLOSE_BRACKET] + rest)
    ensures ReadItems(t) == Parsed([v], rest)
  {
    assert ([CLOSE_BRACKET] + rest)[1..] == rest;
  }

  /** first, then a comma, then the others, then the end. */
  lemma ListText(first: Text, others: Text, end: Text)
    ensures first + [COMMA] + others + end == first + ([COMMA] + (others + end))
  {
  }

  lemma {:induction false} ItemsRoundTrip(items: seq<Json>, rest: Text, body: Text)
    requires items != [] && forall i :: 0 <= i < |items| ==> IsJson(items[i])
    requires body == PrintItems(items) + ([CLOSE_BRACKET] + rest)
    ensures ReadItems(body) == Parsed(items, rest)
    ensures body != [] && body[0] != CLOSE_BRACKET && body[0] == PrintItems(items)[0]
    decreases items, 1
  {
    PrintStarts(items[0]);
    if |items| == 1 {
      ValueRoundTrip(items[0], [CLOSE_BRACKET] + rest);
      ReadItemsEnd(items[0], rest, body);
      assert items == [items[0]];
    } else {
      var tail := PrintItems(items[1..]) + ([CLOSE_BRACKET] + rest);
      ListText(Print(items[0]), PrintItems(items[1..]), [CLOSE_BRACKET] + rest);
      ItemsRoundTrip(items[1..], rest, tail);
      ValueRoundTrip(items[0], [COMMA] + tail);
      ReadItemsStep(items[0], items[1..], tail, rest, body);
      assert items == [items[0]] + items[1..];
    }
  }

  lemma ReadMemberStep(key: Text, tail: Text, t: Text)
    requires t == QuoteText(key) + tail
    ensures ReadMember(t) == ReadMemberValue(key, tail)
    ensures t != [] && t[0] == QUOTE
  {
    StringRoundTrip(key, tail);
    QuoteTail(key, tail, t);
  }

  lemma {:induction false} MemberRoundTrip(m: Member, rest: Text, t: Text)
    requires IsJson(m.value) && Ends(rest)
    requires t == PrintMember(m) + rest
    ensures ReadMember(t) == Parsed(m, rest)
    ensures t != [] && t[0] == QUOTE
    decreases m, 1
  {
    var tail := [COLON] + (Print(m.value) + rest);
    Assoc(QuoteText(m.key) + [COLON], Print(m.value), rest);
    Assoc(QuoteText(m.key), [COLON], Print(m.value) + rest);
    ReadMemberStep(m.key, tail, t);
    ValueRoundTrip(m.value, rest);
    assert tail[1..] == Print(m.value) + rest;
  }

  lemma ReadMembersStep(m: Member, others: seq<Member>, tail: Text, rest: Text, t: Text)
    requires ReadMember(t) == Parsed(m, [COMMA] + tail)
    requires ReadMembers(tail) == Parsed(others, rest)
    ensures ReadMembers(t) == Parsed([m] + others, rest)
  {
    assert ([COMMA] + tail)[1..] == tail;
  }

  lemma ReadMembersEnd(m: Member, rest: Text, t: Text)
    requires ReadMember(t) == Parsed(m, [CLOSE_BRACE] + rest)
    ensures ReadMembers(t) == Parsed([m], rest)
  {
    assert ([CLOSE_BRACE] + rest)[1..] == rest;
  }

  lemma {:induction false} MembersRoundTrip(ms: seq<Member>, rest: Text, body: Text)
    requires ms != [] && forall i :: 0 <= i < |ms| ==> IsJson(ms[i].value)
    requires body == PrintMembers(ms) + ([CLOSE_BRACE] + rest)
    ensures ReadMembers(body) == Parsed(ms, rest)
    ensures body != [] && body[0] == QUOTE && body[0] == PrintMembers(ms)[0]
    decreases ms, 1
  {
    if |ms| == 1 {
      MemberRoundTrip(ms[0], [CLOSE_BRACE] + rest, body);
      ReadMembersEnd(ms[0], rest, body);
      assert ms == [ms[0]];
    } else {
      var tail := PrintMembers(ms[1..]) + ([CLOSE_BRACE] + rest);
      ListText(PrintMember(ms[0]), PrintMembers(ms[1..]), [CLOSE_BRACE] + rest);
      MembersRoundTrip(ms[1..], rest, tail);
      MemberRoundTrip(ms[0], [COMMA] + tail, body);
      ReadMembersStep(ms[0], ms[1..], tail, rest, body);
      assert ms == [ms[0]] + ms[1..];
    }
  }

  /** JSON.parse of a complete text; repeated keys are left to the caller. */
  function Parse(t: Text): Option<Json> {
    var r := ReadValue(t);
    if r.Parsed? && r.rest == [] then Some(r.value) else None
  }

  lemma ParsePrint(v: Json)
    requires IsJson(v)
    ensures Parse(Print(v)) == Some(v)
  {
    ValueRoundTrip(v, []);
    assert Print(v) + [] == Print(v);
  }

  lemma PrintInjective(a: Json, b: Json)
    requires IsJson(a) && IsJson(b) && Print(a) == Print(b)
    ensures a == b
  {
    hide Print, Parse;
    ParsePrint(a);
    ParsePrint(b);
  }

  // ---- Printed text is well-formed UTF-16, so its UTF-8 bytes lose nothing ----

  predicate HasNoSurrogates(t: Text) {
    forall i :: 0 <= i < |t| ==> !IsHigh(t[i]) && !IsLow(t[i])
  }

  lemma {:induction false} NoSurrogatesWellFormed(t: Text)
    requires HasNoSurrogates(t)
    ensures Utf8.IsWellFormed(t)
  {
    if t != [] { NoSurrogatesWellFormed(t[1..]); }
  }

  lemma {:induction false} EscapeWellFormed(s: Text)
    ensures Utf8.IsWellFormed(Escape(s))
    decreases |s|
  {
    if s == [] {
    } else if |s| > 1 && IsHigh(s[0]) && IsLow(s[1]) {
      EscapeWellFormed(s[2..]);
      assert Utf8.IsWellFormed(s[..2]) by { assert s[..2][2..] == []; }
      Utf8.WellFormedConcat(s[..2], Escape(s[2..]));
    } else {
      EscapeWellFormed(s[1..]);
      NoSurrogatesWellFormed(EscapeUnit(s[0]));
      Utf8.WellFormedConcat(EscapeUnit(s[0]), Escape(s[1..]));
    }
  }

  lemma QuoteWellFormed(s: Text)
    ensures Utf8.IsWellFormed(QuoteText(s))
  {
    EscapeWellFormed(s);
    NoSurrogatesWellFormed([QUOTE]);
    Utf8.WellFormedConcat([QUOTE], Escape(s));
    Utf8.WellFormedConcat([QUOTE] + Escape(s), [QUOTE]);
  }

  lemma WrapWellFormed(open: CodeUnit, t: Text, close: CodeUnit)
    requires Utf8.IsWellFormed(t) && HasNoSurrogates([open]) && HasNoSurrogates([close])
    ensures Utf8.IsWellFormed([open] + t + [close])
  {
    NoSurrogatesWellFormed([open]);
    NoSurrogatesWellFormed([close]);
    Utf8.WellFormedConcat([open], t);
    Utf8.WellFormedConcat([open] + t, [close]);
  }

  lemma JoinWellFormed(a: Text, u: CodeUnit, b: Text)
    requires Utf8.IsWellFormed(a) && Utf8.IsWellFormed(b) && HasNoSurrogates([u])
    ensures Utf8.IsWellFormed(a + [u] + b)
  {
    NoSurrogatesWellFormed([u]);
    Utf8.WellFormedConcat(a, [u]);
    Utf8.WellFormedConcat(a + [u], b);
  }

  lemma {:induction false} PrintWellFormed(v: Json)
    requires IsJson(v)
    ensures Utf8.IsWellFormed(Print(v))
    decreases v, 0
  {
    match v
    case Null => NoSurrogatesWellFormed(NULL_TEXT);
    case Bool(flag) => NoSurrogatesWellFormed(Print(v));
    case Num(n) =>
      NumberTextUnits(n);
      NoSurrogatesWellFormed(NumberText(n));
    case Str(s) => QuoteWellFormed(s);
    case Arr(items) =>
      PrintItemsWellFormed(items);
      WrapWellFormed(OPEN_BRACKET, PrintItems(items), CLOSE_BRACKET);
    case Obj(ms) =>
      PrintMembersWellFormed(ms);
      WrapWellFormed(OPEN_BRACE, PrintMembers(ms), CLOSE_BRACE);
  }

  lemma {:induction false} PrintItemsWellFormed(items: seq<Json>)
    requires forall i :: 0 <= i < |items| ==> IsJson(items[i])
    ensures Utf8.IsWellFormed(PrintItems(items))
    decreases items, 0
  {
    if items != [] {
      PrintWellFormed(items[0]);
      PrintItemsWellFormed(items[1..]);
      JoinWellFormed(Print(items[0]), COMMA, PrintItems(items[1..]));
    }
  }

  lemma {:induction false} PrintMembersWellFormed(ms: seq<Member>)
    requires forall i :: 0 <= i < |ms| ==> IsJson(ms[i].value)
    ensures Utf8.IsWellFormed(PrintMembers(ms))
    decreases ms, 0
  {
    if ms != [] {
      QuoteWellFormed(ms[0].key);
      PrintWellFormed(ms[0].value);
      JoinWellFormed(QuoteText(ms[0].key), COLON, Print(ms[0].value));
      PrintMembersWellFormed(ms[1..]);
      JoinWellFormed(PrintMember(ms[0]), COMMA, PrintMembers(ms[1..]));
    }
  }

  /** Written as UTF-8 and read back, the printed text parses to the value. */
  lemma BytesRoundTrip(v: Json)
    requires IsJson(v)
    ensures Utf8.Decode(Utf8.Encode(Print(v))) == Some(Print(v))
    ensures Parse(Print(v)) == Some(v)
  {
    PrintWellFormed(v);
    Utf8.RoundTripIffWellFormed(Print(v));
    ParsePrint(v);
  }
}
