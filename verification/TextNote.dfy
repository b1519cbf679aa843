/**
 Normalising the line ends of text notes: raw and escaped carriage returns and newlines become single newlines.
 The program runs five replacement passes; the reference reads the text once.
 */
module TextNote {
  import opened Texts

  const LF := 10
  const CR := 13
  const BACKSLASH := 92
  const LETTER_N := 110
  const LETTER_R := 114

  const ESCAPED_N: Text := [BACKSLASH, LETTER_N]
  const ESCAPED_R: Text := [BACKSLASH, LETTER_R]
  const ESCAPED_RN: Text := [BACKSLASH, LETTER_R, BACKSLASH, LETTER_N]
  const CRLF: Text := [CR, LF]

  // ---- The five passes ----

  /** String.prototype.replace with a global literal pattern and a newline for each match. */
  function Replace(t: Text, pattern: Text): Text
    requires pattern != []
  {
    if |t| < |pattern| then t
    else if t[..|pattern|] == pattern then [LF] + Replace(t[|pattern|..], pattern)
    else [t[0]] + Replace(t[1..], pattern)
  }

  predicate Includes(t: Text, pattern: Text)
    requires pattern != []
  {
    |t| >= |pattern| && (t[..|pattern|] == pattern || Includes(t[1..], pattern))
  }

  function Normalize(value: Text): Text {
    var unescaped :=
      if Includes(value, ESCAPED_N) || Includes(value, ESCAPED_R) then
        Replace(Replace(Replace(value, ESCAPED_RN), ESCAPED_N), ESCAPED_R)
      else value;
    Replace(Replace(unescaped, CRLF), [CR])
  }

  predicate Matches(requested: Text, actual: Text) {
    var r, a := Normalize(requested), Normalize(actual);
    a == r || a == r + [LF]
  }

  // ---- One pass ----

  predicate StartsWith(t: Text, a: CodeUnit, b: CodeUnit) { |t| >= 2 && t[0] == a && t[1] == b }

  /** How much of the text's start is one escaped line end. */
  function EscapeLength(t: Text): (n: nat)
    ensures n <= |t|
  {
    if StartsWith(t, BACKSLASH, LETTER_R) && StartsWith(t[2..], BACKSLASH, LETTER_N) then 4
    else if StartsWith(t, BACKSLASH, LETTER_N) || StartsWith(t, BACKSLASH, LETTER_R) then 2
    else 0
  }

  /** How much of the text's start is one line end, of either kind; a raw carriage return takes a line end
      after it along. */
  function LineEndLength(t: Text): (n: nat)
    ensures n <= |t|
  {
    if t == [] then 0
    else if t[0] == CR then
      var rest := t[1..];
      1 + if rest != [] && rest[0] == LF then 1 else EscapeLength(rest)
    else EscapeLength(t)
  }

  function OnePass(t: Text): Text {
    if t == [] then []
    else if LineEndLength(t) > 0 then [LF] + OnePass(t[LineEndLength(t)..])
    else [t[0]] + OnePass(t[1..])
  }

  // ---- The passes are one pass ----

  function Unescape(t: Text): Text {
    if t == [] then []
    else if EscapeLength(t) > 0 then [LF] + Unescape(t[EscapeLength(t)..])
    else [t[0]] + Unescape(t[1..])
  }

  function Newlines(t: Text): Text {
    if t == [] then []
    else if StartsWith(t, CR, LF) then [LF] + Newlines(t[2..])
    else if t[0] == CR then [LF] + Newlines(t[1..])
    else [t[0]] + Newlines(t[1..])
  }

  lemma ReplaceHead(t: Text, pattern: Text)
    requires pattern != []
    ensures Replace(t, pattern) == [] <==> t == []
    ensures t != [] ==> Replace(t, pattern)[0] == t[0] || Replace(t, pattern)[0] == LF
  {
  }

  lemma Tail(c: CodeUnit, t: Text)
    ensures ([c] + t)[1..] == t && ([c] + t)[0] == c
  {
  }

  /** A unit that cannot begin a match stays. */
  lemma ReplaceSkip(c: CodeUnit, t: Text, pattern: Text)
    requires pattern != [] && ([c] + t)[..if |t| + 1 < |pattern| then |t| + 1 else |pattern|] != pattern
    ensures Replace([c] + t, pattern) == [c] + Replace(t, pattern)
  {
    Tail(c, t);
  }

  lemma ReplaceOther(c: CodeUnit, t: Text, pattern: Text)
    requires pattern != [] && c != pattern[0]
    ensures Replace([c] + t, pattern) == [c] + Replace(t, pattern)
  {
    Tail(c, t);
    var n := if |t| + 1 < |pattern| then |t| + 1 else |pattern|;
    assert ([c] + t)[..n][0] == c;
    ReplaceSkip(c, t, pattern);
  }

  lemma ReplaceMatch(t: Text, rest: Text, pattern: Text)
    requires pattern != [] && t == pattern + rest
    ensures Replace(t, pattern) == [LF] + Replace(rest, pattern)
  {
    Split(pattern, rest);
  }

  /** A pair whose second unit differs from a pattern's is no match of it. */
  lemma ReplacePair(c: CodeUnit, d: CodeUnit, t: Text, pattern: Text)
    requires |pattern| >= 2 && (c != pattern[0] || d != pattern[1])
    ensures Replace([c, d] + t, pattern) == [c] + Replace([d] + t, pattern)
  {
    var all := [c, d] + t;
    assert all == [c] + ([d] + t);
    var n := if |all| < |pattern| then |all| else |pattern|;
    assert all[..n][0] == c && all[..n][1] == d;
    ReplaceSkip(c, [d] + t, pattern);
  }

  lemma {:induction false} PassesUnescape(t: Text)
    ensures Replace(Replace(Replace(t, ESCAPED_RN), ESCAPED_N), ESCAPED_R) == Unescape(t)
  {
    hide Replace;
    if t == [] {
      ReplaceHead([], ESCAPED_RN);
      ReplaceHead([], ESCAPED_N);
      ReplaceHead([], ESCAPED_R);
    } else if EscapeLength(t) == 4 {
      PassesUnescape(t[4..]);
      PassBoth(t, t[4..]);
    } else if StartsWith(t, BACKSLASH, LETTER_N) {
      PassesUnescape(t[2..]);
      PassNewline(t, t[2..]);
    } else if StartsWith(t, BACKSLASH, LETTER_R) {
      PassesUnescape(t[2..]);
      PassReturn(t, t[2..]);
    } else {
      PassesUnescape(t[1..]);
      PassOther(t, t[1..]);
    }
  }

  lemma PassBoth(t: Text, rest: Text)
    requires t == ESCAPED_RN + rest
    ensures Replace(Replace(Replace(t, ESCAPED_RN), ESCAPED_N), ESCAPED_R) ==
      [LF] + Replace(Replace(Replace(rest, ESCAPED_RN), ESCAPED_N), ESCAPED_R)
  {
    hide Replace;
    ReplaceMatch(t, rest, ESCAPED_RN);
    ReplaceOther(LF, Replace(rest, ESCAPED_RN), ESCAPED_N);
    ReplaceOther(LF, Replace(Replace(rest, ESCAPED_RN), ESCAPED_N), ESCAPED_R);
  }

  lemma PassNewline(t: Text, rest: Text)
    requires t == ESCAPED_N + rest
    ensures Replace(Replace(Replace(t, ESCAPED_RN), ESCAPED_N), ESCAPED_R) ==
      [LF] + Replace(Replace(Replace(rest, ESCAPED_RN), ESCAPED_N), ESCAPED_R)
  {
    hide Replace;
    ReplacePair(BACKSLASH, LETTER_N, rest, ESCAPED_RN);
    ReplaceOther(LETTER_N, rest, ESCAPED_RN);
    var once := Replace(rest, ESCAPED_RN);
    assert [BACKSLASH] + ([LETTER_N] + once) == ESCAPED_N + once;
    ReplaceMatch(ESCAPED_N + once, once, ESCAPED_N);
    ReplaceOther(LF, Replace(once, ESCAPED_N), ESCAPED_R);
  }

  lemma PassReturn(t: Text, rest: Text)
    requires t == ESCAPED_R + rest && !StartsWith(rest, BACKSLASH, LETTER_N)
    ensures Replace(Replace(Replace(t, ESCAPED_RN), ESCAPED_N), ESCAPED_R) ==
      [LF] + Replace(Replace(Replace(rest, ESCAPED_RN), ESCAPED_N), ESCAPED_R)
  {
    hide Replace;
    NotBoth(t, rest);
    ReplaceSkip(BACKSLASH, [LETTER_R] + rest, ESCAPED_RN);
    ReplaceOther(LETTER_R, rest, ESCAPED_RN);
    var once := Replace(rest, ESCAPED_RN);
    assert [BACKSLASH] + ([LETTER_R] + once) == [BACKSLASH, LETTER_R] + once;
    ReplacePair(BACKSLASH, LETTER_R, once, ESCAPED_N);
    ReplaceOther(LETTER_R, once, ESCAPED_N);
    var twice := Replace(once, ESCAPED_N);
    assert [BACKSLASH] + ([LETTER_R] + twice) == ESCAPED_R + twice;
    ReplaceMatch(ESCAPED_R + twice, twice, ESCAPED_R);
  }

  lemma NotBoth(t: Text, rest: Text)
    requires t == ESCAPED_R + rest && !StartsWith(rest, BACKSLASH, LETTER_N)
    ensures t == [BACKSLASH] + ([LETTER_R] + rest) && t[..if |t| < 4 then |t| else 4] != ESCAPED_RN
  {
    if |t| >= 4 { assert t[..4][2] == rest[0] && t[..4][3] == rest[1]; }
  }

  lemma PassOther(t: Text, rest: Text)
    requires t != [] && t == [t[0]] + rest && EscapeLength(t) == 0
    ensures Replace(Replace(Replace(t, ESCAPED_RN), ESCAPED_N), ESCAPED_R) ==
      [t[0]] + Replace(Replace(Replace(rest, ESCAPED_RN), ESCAPED_N), ESCAPED_R)
  {
    hide Replace;
    var c, once := t[0], Replace(rest, ESCAPED_RN);
    var twice := Replace(once, ESCAPED_N);
    ReplaceHead(rest, ESCAPED_RN);
    ReplaceHead(once, ESCAPED_N);
    SkipUnlessPair(c, rest, ESCAPED_RN);
    SkipUnlessPair(c, once, ESCAPED_N);
    SkipUnlessPair(c, twice, ESCAPED_R);
  }

  lemma SkipUnlessPair(c: CodeUnit, t: Text, pattern: Text)
    requires |pattern| >= 2 && (c != pattern[0] || t == [] || t[0] != pattern[1])
    ensures Replace([c] + t, pattern) == [c] + Replace(t, pattern)
  {
    hide Replace;
    if c != pattern[0] {
      ReplaceOther(c, t, pattern);
    } else if t == [] {
      ReplaceSkip(c, t, pattern);
    } else {
      assert [c] + t == [c, t[0]] + t[1..] && [t[0]] + t[1..] == t;
      ReplacePair(c, t[0], t[1..], pattern);
    }
  }

  lemma {:induction false} PassesNewlines(t: Text)
    ensures Replace(Replace(t, CRLF), [CR]) == Newlines(t)
  {
    hide Replace;
    if t == [] {
      ReplaceHead([], CRLF);
      ReplaceHead([], [CR]);
    } else if StartsWith(t, CR, LF) {
      PassesNewlines(t[2..]);
      assert t == CRLF + t[2..];
      ReplaceMatch(t, t[2..], CRLF);
      ReplaceOther(LF, Replace(t[2..], CRLF), [CR]);
    } else {
      PassesNewlines(t[1..]);
      assert t == [t[0]] + t[1..];
      SkipUnlessPair(t[0], t[1..], CRLF);
      var once := Replace(t[1..], CRLF);
      if t[0] == CR { ReplaceMatch([CR] + once, once, [CR]); } else { ReplaceOther(t[0], once, [CR]); }
    }
  }

  lemma UnescapeHead(t: Text)
    ensures Unescape(t) == [] <==> t == []
    ensures t != [] && EscapeLength(t) == 0 ==> Unescape(t)[0] == t[0]
  {
  }

  lemma NewlinesStep(c: CodeUnit, t: Text)
    ensures c != CR ==> Newlines([c] + t) == [c] + Newlines(t)
    ensures c == CR && (t == [] || t[0] != LF) ==> Newlines([c] + t) == [LF] + Newlines(t)
    ensures c == CR && t != [] && t[0] == LF ==> Newlines([c] + t) == [LF] + Newlines(t[1..])
  {
    Tail(c, t);
    if t != [] { assert ([c] + t)[2..] == t[1..]; }
  }

  lemma {:induction false} NewlinesOfUnescape(t: Text)
    ensures Newlines(Unescape(t)) == OnePass(t)
    decreases |t|
  {
    hide EscapeLength;
    if t != [] {
      var n := LineEndLength(t);
      if t[0] == CR {
        NoEscapeAtReturn(t);
        var rest := t[1..];
        NewlinesOfUnescape(t[n..]);
        assert rest[n - 1..] == t[n..];
        if n > 1 {
          UnescapeLineEnd(rest, n - 1);
          Tail(LF, Unescape(t[n..]));
        } else {
          UnescapeHead(rest);
          assert rest == t[n..];
        }
        NewlinesStep(CR, Unescape(rest));
      } else if n > 0 {
        NewlinesOfUnescape(t[n..]);
        NewlinesStep(LF, Unescape(t[n..]));
      } else {
        NewlinesOfUnescape(t[1..]);
        NewlinesStep(t[0], Unescape(t[1..]));
      }
    }
  }

  lemma NoEscapeAtReturn(t: Text)
    requires t != [] && t[0] == CR
    ensures EscapeLength(t) == 0
  {
  }

  lemma UnescapeLineEnd(t: Text, n: nat)
    requires t != [] && n == if t[0] == LF then 1 else EscapeLength(t)
    requires n > 0
    ensures Unescape(t) == [LF] + Unescape(t[n..])
  {
  }

  /** No carriage return and no escaped line end. */
  predicate IsNormal(t: Text) {
    forall i :: 0 <= i < |t| ==> t[i] != CR && !(i + 1 < |t| && t[i] == BACKSLASH && t[i + 1] in {LETTER_N, LETTER_R})
  }

  lemma {:induction false} UnescapeUnlessIncluded(t: Text)
    requires !Includes(t, ESCAPED_N) && !Includes(t, ESCAPED_R)
    ensures Unescape(t) == t
  {
    if t != [] {
      assert t == [t[0]] + t[1..];
      if |t| >= 2 {
        assert t[..2] == [t[0], t[1]];
        UnescapeUnlessIncluded(t[1..]);
      } else {
        assert t[1..] == [];
      }
    }
  }

  /** The five passes, guard included, are the one pass. */
  lemma NormalizeIsOnePass(t: Text)
    ensures Normalize(t) == OnePass(t)
  {
    hide Replace, Unescape, Newlines, OnePass;
    PassesUnescape(t);
    PassesNewlines(Unescape(t));
    NewlinesOfUnescape(t);
    if !Includes(t, ESCAPED_N) && !Includes(t, ESCAPED_R) { UnescapeUnlessIncluded(t); }
  }

  lemma {:induction false} OnePassIsNormal(t: Text)
    ensures IsNormal(OnePass(t)) && (OnePass(t) == [] <==> t == [])
    ensures t != [] ==> OnePass(t)[0] == LF || OnePass(t)[0] == t[0]
    decreases |t|
  {
    if t != [] {
      var n := LineEndLength(t);
      if n > 0 {
        OnePassIsNormal(t[n..]);
        NormalCons(LF, OnePass(t[n..]));
      } else {
        OnePassIsNormal(t[1..]);
        NormalCons(t[0], OnePass(t[1..]));
      }
    }
  }

  lemma NormalCons(c: CodeUnit, t: Text)
    requires IsNormal(t) && c != CR && !(c == BACKSLASH && t != [] && t[0] in {LETTER_N, LETTER_R})
    ensures IsNormal([c] + t)
  {
    var all := [c] + t;
    forall i | 0 <= i < |all|
      ensures all[i] != CR && !(i + 1 < |all| && all[i] == BACKSLASH && all[i + 1] in {LETTER_N, LETTER_R})
    {
      if i > 0 { assert all[i] == t[i - 1]; }
    }
  }

  lemma {:induction false} NormalIsFixed(t: Text)
    requires IsNormal(t)
    ensures OnePass(t) == t
  {
    if t != [] {
      assert t[0] != CR && !(|t| > 1 && t[0] == BACKSLASH && t[1] in {LETTER_N, LETTER_R});
      assert t == [t[0]] + t[1..];
      forall i | 0 <= i < |t| - 1 ensures t[1..][i] == t[i + 1] {}
      NormalTail(t);
      NormalIsFixed(t[1..]);
    }
  }

  lemma NormalTail(t: Text)
    requires IsNormal(t) && t != []
    ensures IsNormal(t[1..])
  {
    var rest := t[1..];
    forall i | 0 <= i < |rest|
      ensures rest[i] != CR && !(i + 1 < |rest| && rest[i] == BACKSLASH && rest[i + 1] in {LETTER_N, LETTER_R})
    {
      assert rest[i] == t[i + 1];
    }
  }

  /** The normalised text has no carriage return and no escaped line end; exactly such texts are left alone. */
  lemma NormalizeIsNormal(t: Text)
    ensures IsNormal(Normalize(t)) && (Normalize(t) == t <==> IsNormal(t))
  {
    hide Normalize, OnePass, IsNormal;
    NormalizeIsOnePass(t);
    OnePassIsNormal(t);
    if IsNormal(t) { NormalIsFixed(t); }
  }

  lemma NormalizeIdempotent(t: Text)
    ensures Normalize(Normalize(t)) == Normalize(t)
  {
    hide Normalize, IsNormal;
    NormalizeIsNormal(t);
    NormalizeIsNormal(Normalize(t));
  }

  /** Normalising either side first does not change a match. */
  lemma MatchesUpToNormalization(requested: Text, actual: Text)
    ensures Matches(Normalize(requested), actual) <==> Matches(requested, actual)
    ensures Matches(requested, Normalize(actual)) <==> Matches(requested, actual)
    ensures Matches(requested, requested)
  {
    hide Normalize;
    NormalizeIdempotent(requested);
    NormalizeIdempotent(actual);
  }

  /** Two texts match if and only if, read once, the actual one is the requested one, with or without a
      newline after it. */
  lemma MatchesExactly(requested: Text, actual: Text)
    ensures Matches(requested, actual) <==>
      OnePass(actual) == OnePass(requested) || OnePass(actual) == OnePass(requested) + [LF]
  {
    hide Normalize, OnePass;
    NormalizeIsOnePass(requested);
    NormalizeIsOnePass(actual);
  }

  lemma OnePassStep(t: Text)
    requires t != []
    ensures var n := LineEndLength(t); OnePass(t) == [if n > 0 then LF else t[0]] + OnePass(t[if n > 0 then n else 1..])
  {
    hide LineEndLength;
  }

  lemma OnePassEnds()
    ensures OnePass([]) == [] && OnePass([LF]) == [LF] && OnePass([CR]) == [LF] && OnePass([CR, LF]) == [LF]
  {
    OnePassStep([LF]);
    OnePassStep([CR]);
    OnePassStep([CR, LF]);
    assert [CR][1..] == [] && [LF][1..] == [] && [CR, LF][1..] == [LF] && [CR, LF][2..] == [];
  }

  function FinalNewline(t: Text): Text { if t != [] && t[|t| - 1] == CR then [] else [LF] }

  lemma {:induction false} OnePassFinalNewline(t: Text)
    ensures OnePass(t + [LF]) == OnePass(t) + FinalNewline(t)
    decreases |t|
  {
    hide OnePass, LineEndLength;
    if t == [] || t == [CR] {
      OnePassEnds();
      assert t + [LF] == if t == [] then [LF] else [CR, LF];
    } else {
      var n := LineEndLength(t);
      LineEndBeforeNewline(t);
      var k := if n > 0 then n else 1;
      assert (t + [LF])[k..] == t[k..] + [LF];
      OnePassStep(t);
      OnePassStep(t + [LF]);
      OnePassFinalNewline(t[k..]);
      assert FinalNewline(t[k..]) == FinalNewline(t);
      Assoc([if n > 0 then LF else t[0]], OnePass(t[k..]), FinalNewline(t));
    }
  }

  /** Appending a newline changes no line end but a final carriage return. */
  lemma LineEndBeforeNewline(t: Text)
    requires t != [] && t != [CR]
    ensures LineEndLength(t + [LF]) == LineEndLength(t)
    ensures LineEndLength(t) == |t| ==> t[|t| - 1] != CR
  {
    var all := t + [LF];
    assert forall i :: 0 <= i < |t| ==> all[i] == t[i];
    assert all[1..] == t[1..] + [LF];
    EscapeBeforeNewline(t);
    if |t| > 1 { EscapeBeforeNewline(t[1..]); }
  }

  lemma EscapeBeforeNewline(t: Text)
    ensures EscapeLength(t + [LF]) == EscapeLength(t)
    ensures EscapeLength(t) > 0 ==> t[EscapeLength(t) - 1] in {LETTER_N, LETTER_R}
  {
    var all := t + [LF];
    assert forall i :: 0 <= i < |t| ==> all[i] == t[i];
    if |t| >= 2 { assert all[2..] == t[2..] + [LF]; }
  }

  /** A newline added at the end on the way back never breaks a match. */
  lemma MatchesFinalNewline(requested: Text)
    ensures Matches(requested, requested + [LF])
  {
    hide Normalize, OnePass;
    NormalizeIsOnePass(requested);
    NormalizeIsOnePass(requested + [LF]);
    OnePassFinalNewline(requested);
    assert OnePass(requested) + [] == OnePass(requested);
  }
}
