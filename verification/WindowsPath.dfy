/**
 Lexical identity of absolute Windows paths. Lower-casing is a parameter with the few properties of
 String.prototype.toLowerCase that matter here; none of them fixes what it does to a letter outside ASCII.
 */
module WindowsPath {
  import opened Outcomes
  import opened Texts

  const SLASH := 47
  const BACKSLASH := 92
  const COLON := 58
  const DOT := 46
  const MAXIMUM_LENGTH := 2000

  /** Capital I with a dot above, the one unit whose lower case is longer than it is. */
  const DOTTED_CAPITAL := 0x130

  const HERE: Text := [DOT]
  const UP: Text := [DOT, DOT]

  predicate IsLetter(u: CodeUnit) { 65 <= u <= 90 || 97 <= u <= 122 }

  function SlashUnit(u: CodeUnit): CodeUnit { if u == BACKSLASH then SLASH else u }

  function Slashes(t: Text): Text { seq(|t|, i requires 0 <= i < |t| => SlashUnit(t[i])) }

  function AsciiLower(t: Text): Text { seq(|t|, i requires 0 <= i < |t| => LowerUnit(t[i])) }

  function Dotted(t: Text): nat {
    if t == [] then 0 else (if t[0] == DOTTED_CAPITAL then 1 else 0) + Dotted(t[1..])
  }

  /** The length of a text in lower case. */
  function Stretch(t: Text): nat { |t| + Dotted(t) }

  predicate IsAscii(t: Text) { forall i :: 0 <= i < |t| ==> t[i] < 128 }

  predicate HasNoSlash(t: Text) { forall i :: 0 <= i < |t| ==> t[i] != SLASH }

  predicate IsClean(t: Text) { forall i :: 0 <= i < |t| ==> t[i] > 31 && t[i] != BACKSLASH }

  /** What is used of lower-casing. A slash is no letter and ends a word, so that even a final sigma is decided between
      slashes. */
  ghost predicate IsLowerCasing(lower: Text -> Text) {
    && (forall t :: IsAscii(t) ==> lower(t) == AsciiLower(t))
    && (forall t :: lower(AsciiLower(t)) == lower(t))
    && (forall t :: lower(lower(t)) == lower(t))
    && (forall t :: |lower(t)| == Stretch(t))
    && (forall t :: HasNoSlash(t) ==> HasNoSlash(lower(t)))
    && (forall t :: IsClean(t) ==> IsClean(lower(t)))
    && (forall t :: (lower(t) == HERE ==> t == HERE) && (lower(t) == UP ==> t == UP))
    && (forall a: Text, b: Text :: lower(a + [SLASH] + b) == lower(a) + [SLASH] + lower(b))
  }

  /** What the identity ignores: the separators' style and the letters' case. */
  function Fold(lower: Text -> Text, t: Text): Text { lower(Slashes(t)) }

  // ---- Prefix, segments, parts ----

  function RunLength(t: Text): (n: nat)
    ensures n <= |t| && (n < |t| ==> t[n] == SLASH) && forall i :: 0 <= i < n ==> t[i] != SLASH
  {
    if t == [] || t[0] == SLASH then 0 else 1 + RunLength(t[1..])
  }

  predicate StartsWithDrive(t: Text) { |t| >= 3 && IsLetter(t[0]) && t[1] == COLON && t[2] == SLASH }

  /** Where a leading //server/share ends, without the slash after it; 0 when there is none. */
  function ShareEnd(t: Text): (n: nat)
    ensures n <= |t| && (n > 0 ==> n >= 5)
    ensures 0 < n < |t| ==> t[n] == SLASH
  {
    if !(|t| >= 2 && t[0] == SLASH && t[1] == SLASH) then 0
    else
      var server := RunLength(t[2..]);
      if server == 0 || 2 + server == |t| then 0
      else
        var share := RunLength(t[3 + server..]);
        if share == 0 then 0 else 3 + server + share
  }

  function PrefixLength(t: Text): (n: nat)
    ensures n <= |t|
  {
    if StartsWithDrive(t) then 3
    else if ShareEnd(t) > 0 then (if ShareEnd(t) < |t| then ShareEnd(t) + 1 else ShareEnd(t))
    else if t != [] && t[0] == SLASH then 1
    else 0
  }

  /** String.prototype.split on the slash. */
  function Segments(t: Text): (r: seq<Text>)
    ensures r != []
  {
    if t == [] then [[]]
    else
      var others := Segments(t[1..]);
      if t[0] == SLASH then [[]] + others else [[t[0]] + others[0]] + others[1..]
  }

  function Join(parts: seq<Text>): Text {
    if parts == [] then []
    else if |parts| == 1 then parts[0]
    else parts[0] + [SLASH] + Join(parts[1..])
  }

  function Step(parts: seq<Text>, segment: Text): seq<Text> {
    if segment == [] || segment == HERE then parts
    else if segment == UP then (if parts == [] then [] else parts[..|parts| - 1])
    else parts + [segment]
  }

  function Resolve(segments: seq<Text>): seq<Text> {
    if segments == [] then [] else Step(Resolve(segments[..|segments| - 1]), segments[|segments| - 1])
  }

  function WithoutSlash(prefix: Text): Text {
    if prefix != [] && prefix[|prefix| - 1] == SLASH then prefix[..|prefix| - 1] else prefix
  }

  function Canonical(t: Text): Text {
    var n := PrefixLength(t);
    WithoutSlash(t[..n]) + [SLASH] + Join(Resolve(Segments(t[n..])))
  }

  predicate IsSeparator(u: CodeUnit) { u == SLASH || u == BACKSLASH }

  predicate IsAbsolute(p: Text) {
    (|p| >= 3 && IsLetter(p[0]) && p[1] == COLON && IsSeparator(p[2])) || (p != [] && IsSeparator(p[0]))
  }

  predicate IsAccepted(p: Text) {
    IsAbsolute(p) && |p| <= MAXIMUM_LENGTH && forall i :: 0 <= i < |p| ==> p[i] > 31
  }

  /** The path without empty, "." and ".." segments, in its own case. */
  function CanonicalPath(p: Text): Text { Canonical(Slashes(p)) }

  function Identity(lower: Text -> Text, p: Text): Option<Text> {
    if IsAccepted(p) then Some(lower(CanonicalPath(p))) else None
  }

  // ---- Folding first or last ----

  function LowerAll(lower: Text -> Text, parts: seq<Text>): (r: seq<Text>)
    ensures |r| == |parts| && forall i :: 0 <= i < |parts| ==> r[i] == lower(parts[i])
  {
    seq(|parts|, i requires 0 <= i < |parts| => lower(parts[i]))
  }

  lemma LowerEmpty(lower: Text -> Text)
    requires IsLowerCasing(lower)
    ensures lower([]) == [] && forall t :: lower(t) == [] ==> t == []
  {
    assert |lower([])| == Stretch([]);
  }

  lemma LowerSpecial(lower: Text -> Text)
    requires IsLowerCasing(lower)
    ensures lower(HERE) == HERE && lower(UP) == UP
  {
    assert AsciiLower(HERE) == HERE && AsciiLower(UP) == UP;
  }

  lemma LowerSlashed(lower: Text -> Text, a: Text, b: Text)
    requires IsLowerCasing(lower)
    ensures lower(a + [SLASH] + b) == lower(a) + [SLASH] + lower(b)
  {
  }

  lemma LowerAscii(lower: Text -> Text, t: Text)
    requires IsLowerCasing(lower) && IsAscii(t)
    ensures lower(t) == AsciiLower(t)
  {
  }

  lemma LowerKeeps(lower: Text -> Text, t: Text)
    requires IsLowerCasing(lower)
    ensures (HasNoSlash(t) ==> HasNoSlash(lower(t))) && (IsClean(t) ==> IsClean(lower(t)))
    ensures lower(lower(t)) == lower(t) && |lower(t)| == Stretch(t)
  {
  }

  lemma LowerHead(lower: Text -> Text, t: Text)
    requires IsLowerCasing(lower) && t != [] && t[0] == SLASH
    ensures lower(t) == [SLASH] + lower(t[1..])
  {
    hide IsLowerCasing;
    LowerEmpty(lower);
    assert t == [] + [SLASH] + t[1..];
    LowerSlashed(lower, [], t[1..]);
  }

  /** The run before the first slash, and what comes after it, are lower-cased apart. */
  lemma LowerRun(lower: Text -> Text, t: Text)
    requires IsLowerCasing(lower)
    ensures var n, low := RunLength(t), lower(t);
      var m := RunLength(low);
      && low[..m] == lower(t[..n]) && (n < |t| <==> m < |low|)
      && (n < |t| ==> low[m + 1..] == lower(t[n + 1..])) && (n == 0 <==> m == 0)
  {
    hide IsLowerCasing, RunLength, Stretch;
    var n := RunLength(t);
    var run := lower(t[..n]);
    LowerEmpty(lower);
    LowerKeeps(lower, t[..n]);
    assert HasNoSlash(t[..n]);
    PlainRun(run);
    if n < |t| {
      assert t == t[..n] + [SLASH] + t[n + 1..];
      LowerSlashed(lower, t[..n], t[n + 1..]);
      var rest := [SLASH] + lower(t[n + 1..]);
      Assoc(run, [SLASH], lower(t[n + 1..]));
      RunStays(run, rest);
      Split(run, rest);
      assert lower(t) == run + rest && rest[1..] == lower(t[n + 1..]);
    } else {
      assert t[..n] == t;
    }
  }

  lemma LowerDrive(lower: Text -> Text, t: Text)
    requires IsLowerCasing(lower) && StartsWithDrive(t)
    ensures StartsWithDrive(lower(t)) && lower(t)[..3] == lower(t[..3]) && lower(t)[3..] == lower(t[3..])
    ensures WithoutSlash(lower(t[..3])) == lower(t[..2])
  {
    hide IsLowerCasing;
    var drive, rest := t[..2], t[3..];
    LowerEmpty(lower);
    assert t == drive + [SLASH] + rest && t[..3] == drive + [SLASH] + [];
    LowerSlashed(lower, drive, rest);
    LowerSlashed(lower, drive, []);
    LowerAscii(lower, drive);
    var low := [LowerUnit(t[0]), COLON];
    assert AsciiLower(drive) == low;
    Assoc(low, [SLASH], lower(rest));
    assert lower(t[..3]) == low + [SLASH] && (low + [SLASH])[..2] == low;
    Split(low + [SLASH], lower(rest));
  }

  lemma LowerShare(lower: Text -> Text, t: Text)
    requires IsLowerCasing(lower) && ShareEnd(t) > 0
    ensures var end, low := ShareEnd(t), lower(t);
      var m := ShareEnd(low);
      && m > 0 && low[..m] == lower(t[..end]) && (end < |t| <==> m < |low|)
        && (end < |t| ==> low[m + 1..] == lower(t[end + 1..]))
  {
    hide IsLowerCasing, RunLength, ShareEnd;
    var low, rest := lower(t), t[2..];
    ShareParts(t);
    var server := RunLength(rest);
    var names := rest[server + 1..];
    var share := RunLength(names);
    ShareOf(t, rest, names, server, share);
    LowerHead(lower, t);
    LowerHead(lower, t[1..]);
    assert t[1..][1..] == rest;
    LowerRun(lower, rest);
    LowerRun(lower, names);
    LowerShareText(lower, rest[..server], names[..share]);
    ShareOf(low, lower(rest), lower(names), RunLength(lower(rest)), RunLength(lower(names)));
  }

  lemma ShareParts(t: Text)
    requires ShareEnd(t) > 0
    ensures |t| >= 2 && t[0] == SLASH && t[1] == SLASH && t == [SLASH] + ([SLASH] + t[2..])
    ensures 0 < RunLength(t[2..]) < |t[2..]| && RunLength(t[2..][RunLength(t[2..]) + 1..]) > 0
  {
    hide RunLength;
    DropDrop(t, 2, RunLength(t[2..]) + 1);
  }

  /** A //server/share, run by run. */
  lemma ShareOf(low: Text, rest: Text, names: Text, m: nat, n: nat)
    requires low == [SLASH] + ([SLASH] + rest) && m == RunLength(rest) > 0 && m < |rest| && names == rest[m + 1..]
    requires n == RunLength(names) > 0
    ensures ShareEnd(low) == 3 + m + n && low[..3 + m + n] == [SLASH, SLASH] + rest[..m] + [SLASH] + names[..n]
    ensures n < |names| <==> 3 + m + n < |low|
    ensures n < |names| ==> low[3 + m + n + 1..] == names[n + 1..]
  {
    hide RunLength, ShareEnd;
    var server, share, tail := rest[..m], names[..n], names[n..];
    LeadingSlashes(low, rest, m);
    ShareEndIs(low, m, n);
    RunSplits(rest, m);
    RegroupShare(low, server, share, tail, rest, names);
    var head := [SLASH, SLASH] + server + [SLASH] + share;
    Split(head, tail);
    if n < |names| { DropDrop(low, 3 + m + n, 1); }
  }

  lemma RunSplits(t: Text, m: nat)
    requires m == RunLength(t) < |t|
    ensures t == t[..m] + [SLASH] + t[m + 1..]
  {
    hide RunLength;
  }

  lemma DropDrop(t: Text, i: nat, j: nat)
    requires i + j <= |t|
    ensures t[i..][j..] == t[i + j..]
  {
  }

  lemma LeadingSlashes(low: Text, rest: Text, m: nat)
    requires low == [SLASH] + ([SLASH] + rest) && m < |rest|
    ensures |low| == 2 + |rest| && low[0] == SLASH && low[1] == SLASH && low[2..] == rest
      && low[3 + m..] == rest[m + 1..]
  {
    DropDrop(low, 2, m + 1);
  }

  lemma ShareEndIs(t: Text, m: nat, n: nat)
    requires 3 + m <= |t| && t[0] == SLASH && t[1] == SLASH && m == RunLength(t[2..]) > 0
      && n == RunLength(t[3 + m..]) > 0
    ensures ShareEnd(t) == 3 + m + n
  {
    hide RunLength;
  }

  lemma RegroupShare(low: Text, server: Text, share: Text, tail: Text, rest: Text, names: Text)
    requires low == [SLASH] + ([SLASH] + rest) && rest == server + [SLASH] + names && names == share + tail
    ensures low == [SLASH, SLASH] + server + [SLASH] + share + tail
  {
  }

  lemma LowerShareText(lower: Text -> Text, server: Text, share: Text)
    requires IsLowerCasing(lower)
    ensures lower([SLASH, SLASH] + server + [SLASH] + share) == [SLASH, SLASH] + lower(server) + [SLASH] + lower(share)
  {
    hide IsLowerCasing;
    var name := [SLASH, SLASH] + server + [SLASH] + share;
    assert name[1..][1..] == server + [SLASH] + share;
    LowerHead(lower, name);
    LowerHead(lower, name[1..]);
    LowerSlashed(lower, server, share);
  }

  predicate HasPrefix(t: Text) { StartsWithDrive(t) || (t != [] && t[0] == SLASH) }

  /** The prefix and the rest are lower-cased apart. */
  lemma LowerPrefix(lower: Text -> Text, t: Text)
    requires IsLowerCasing(lower) && HasPrefix(t)
    ensures var n, low := PrefixLength(t), lower(t);
      var m := PrefixLength(low);
      && n > 0 && m > 0 && low[m..] == lower(t[n..]) && WithoutSlash(low[..m]) == lower(WithoutSlash(t[..n]))
  {
    hide IsLowerCasing, RunLength, ShareEnd;
    if StartsWithDrive(t) {
      LowerDrive(lower, t);
      assert t[..3][..2] == t[..2];
    } else {
      LowerHead(lower, t);
      LowerEmpty(lower);
      if ShareEnd(t) > 0 {
        LowerSharePrefix(lower, t);
      } else {
        LowerNoShare(lower, t);
        assert t[..1][..0] == [];
      }
    }
  }

  lemma LowerSharePrefix(lower: Text -> Text, t: Text)
    requires IsLowerCasing(lower) && ShareEnd(t) > 0 && !StartsWithDrive(t) && !StartsWithDrive(lower(t))
    ensures var n, low := PrefixLength(t), lower(t);
      var m := PrefixLength(low);
      && n > 0 && m > 0 && low[m..] == lower(t[n..]) && WithoutSlash(low[..m]) == lower(WithoutSlash(t[..n]))
  {
    hide IsLowerCasing, RunLength;
    LowerShare(lower, t);
    LowerEmpty(lower);
    var end, low := ShareEnd(t), lower(t);
    var m := ShareEnd(low);
    ShareText(t);
    ShareText(low);
    if end < |t| {
      assert t[..end + 1][..end] == t[..end] && low[..m + 1][..m] == low[..m];
    } else {
      assert t[end..] == [] && low[m..] == [];
    }
  }

  /** A share does not end in a slash. */
  lemma ShareText(t: Text)
    requires ShareEnd(t) > 0
    ensures t[ShareEnd(t) - 1] != SLASH && WithoutSlash(t[..ShareEnd(t)]) == t[..ShareEnd(t)]
  {
    var server := RunLength(t[2..]);
    var share := RunLength(t[3 + server..]);
    assert t[3 + server..][share - 1] == t[ShareEnd(t) - 1];
  }

  lemma LowerNoShare(lower: Text -> Text, t: Text)
    requires IsLowerCasing(lower) && t != [] && t[0] == SLASH && ShareEnd(t) == 0
    ensures ShareEnd(lower(t)) == 0
  {
    hide IsLowerCasing, RunLength;
    var low := lower(t);
    LowerHead(lower, t);
    LowerRun(lower, t[1..]);
    FirstUnit(t[1..]);
    FirstUnit(low[1..]);
    assert low[1..] == lower(t[1..]);
    if |t| > 1 && t[1] == SLASH {
      LowerHead(lower, t[1..]);
      LowerNoNames(lower, t, t[2..]);
    }
  }

  lemma LowerNoNames(lower: Text -> Text, t: Text, rest: Text)
    requires IsLowerCasing(lower) && t == [SLASH] + ([SLASH] + rest) && lower(t) == [SLASH] + ([SLASH] + lower(rest))
    requires ShareEnd(t) == 0
    ensures ShareEnd(lower(t)) == 0
  {
    hide IsLowerCasing, RunLength;
    var low := lower(t);
    assert t[2..] == rest && low[2..] == lower(rest);
    LowerRun(lower, rest);
    var server, m := RunLength(rest), RunLength(lower(rest));
    if 0 < server < |rest| {
      assert rest[server + 1..] == t[3 + server..] && lower(rest)[m + 1..] == low[3 + m..];
      LowerRun(lower, rest[server + 1..]);
    }
  }

  lemma FirstUnit(t: Text)
    ensures RunLength(t) == 0 <==> t == [] || t[0] == SLASH
  {
  }

  lemma {:induction false} LowerSegments(lower: Text -> Text, t: Text)
    requires IsLowerCasing(lower)
    ensures Segments(lower(t)) == LowerAll(lower, Segments(t))
    decreases |t|
  {
    hide Segments, IsLowerCasing, RunLength;
    var n := RunLength(t);
    var m := RunLength(lower(t));
    LowerRun(lower, t);
    SegmentsByRun(t);
    SegmentsByRun(lower(t));
    if n < |t| {
      LowerSegments(lower, t[n + 1..]);
      assert LowerAll(lower, [t[..n]] + Segments(t[n + 1..])) == [lower(t[..n])] +
        LowerAll(lower, Segments(t[n + 1..]));
    } else {
      assert t[..n] == t && lower(t)[..m] == lower(t);
    }
  }

  lemma SegmentsByRun(t: Text)
    ensures var n := RunLength(t); Segments(t) == if n < |t| then [t[..n]] + Segments(t[n + 1..]) else [t]
  {
    hide RunLength, Segments, HasNoSlash;
    var n := RunLength(t);
    RunText(t);
    if n < |t| {
      RunSplits(t, n);
      SegmentsSlashed(t[..n], t[n + 1..]);
    } else {
      assert t[..n] == t;
      SegmentsAlone(t);
    }
  }

  lemma SegmentsSlashed(name: Text, rest: Text)
    requires HasNoSlash(name)
    ensures Segments(name + [SLASH] + rest) == [name] + Segments(rest)
  {
    hide Segments, HasNoSlash;
    var tail := [SLASH] + rest;
    Assoc(name, [SLASH], rest);
    assert tail[1..] == rest;
    SegmentsRest(tail);
    SegmentsOfName(name, tail);
    assert ([[]] + Segments(rest))[1..] == Segments(rest);
  }

  lemma SegmentsAlone(name: Text)
    requires HasNoSlash(name)
    ensures Segments(name) == [name]
  {
    hide Segments, HasNoSlash;
    SegmentsRest([]);
    SegmentsOfName(name, []);
    assert name + [] == name && [name] + Segments([])[1..] == [name];
  }

  lemma RunText(t: Text)
    ensures var n := RunLength(t); t == t[..n] + t[n..] && HasNoSlash(t[..n]) && (n < |t| ==> t[n..][0] == SLASH)
  {
    hide RunLength;
  }

  lemma SegmentsRest(rest: Text)
    ensures rest == [] ==> Segments(rest) == [[]]
    ensures rest != [] && rest[0] == SLASH ==> Segments(rest) == [[]] + Segments(rest[1..])
  {
  }

  lemma {:induction false} LowerResolve(lower: Text -> Text, segments: seq<Text>)
    requires IsLowerCasing(lower)
    ensures Resolve(LowerAll(lower, segments)) == LowerAll(lower, Resolve(segments))
  {
    hide IsLowerCasing;
    if segments != [] {
      var front, last := segments[..|segments| - 1], segments[|segments| - 1];
      assert LowerAll(lower, segments)[..|segments| - 1] == LowerAll(lower, front);
      LowerResolve(lower, front);
      LowerStep(lower, Resolve(front), last);
    }
  }

  lemma LowerStep(lower: Text -> Text, parts: seq<Text>, segment: Text)
    requires IsLowerCasing(lower)
    ensures Step(LowerAll(lower, parts), lower(segment)) == LowerAll(lower, Step(parts, segment))
  {
    hide IsLowerCasing;
    LowerSpecial(lower);
    LowerDots(lower, segment);
    LowerEmpty(lower);
  }

  lemma LowerDots(lower: Text -> Text, t: Text)
    requires IsLowerCasing(lower)
    ensures (lower(t) == HERE ==> t == HERE) && (lower(t) == UP ==> t == UP)
  {
  }

  lemma {:induction false} LowerJoin(lower: Text -> Text, parts: seq<Text>)
    requires IsLowerCasing(lower)
    ensures Join(LowerAll(lower, parts)) == lower(Join(parts))
  {
    hide IsLowerCasing;
    if |parts| > 1 {
      LowerJoin(lower, parts[1..]);
      assert LowerAll(lower, parts)[1..] == LowerAll(lower, parts[1..]);
      LowerSlashed(lower, parts[0], Join(parts[1..]));
    } else if |parts| == 0 {
      LowerEmpty(lower);
    }
  }

  /** Lower-casing the result is the same as lower-casing the path first. */
  lemma LowerCanonical(lower: Text -> Text, t: Text)
    requires IsLowerCasing(lower) && HasPrefix(t)
    ensures Canonical(lower(t)) == lower(Canonical(t)) && PrefixLength(lower(t)) > 0
  {
    hide Segments, Resolve, Join, PrefixLength, IsLowerCasing, HasPrefix, WithoutSlash;
    var n := PrefixLength(t);
    LowerPrefix(lower, t);
    LowerSegments(lower, t[n..]);
    LowerResolve(lower, Segments(t[n..]));
    var parts := Resolve(Segments(t[n..]));
    LowerJoin(lower, parts);
    LowerSlashed(lower, WithoutSlash(t[..n]), Join(parts));
  }

  lemma AcceptedHasPrefix(p: Text)
    requires IsAccepted(p)
    ensures HasPrefix(Slashes(p)) && IsClean(Slashes(p)) && |Slashes(p)| == |p|
  {
    assert forall i :: 0 <= i < |p| ==> Slashes(p)[i] == SlashUnit(p[i]);
  }

  lemma IdentityFolded(lower: Text -> Text, p: Text)
    requires IsLowerCasing(lower) && IsAccepted(p)
    ensures Identity(lower, p) == Some(Canonical(Fold(lower, p))) && PrefixLength(Fold(lower, p)) > 0
    ensures IsClean(Fold(lower, p))
  {
    hide IsAccepted, Canonical, PrefixLength, HasPrefix, IsClean, Slashes, Dotted, HasNoSlash, AsciiLower, IsAscii;
    AcceptedHasPrefix(p);
    LowerCanonical(lower, Slashes(p));
  }

  // ---- What is accepted, and which prefix is kept ----

  /** A path is accepted if and only if it has at most 2000 units and no control characters, and starts with a drive
      letter, a colon and a separator, or with a separator; both separators count. */
  lemma AcceptedExactly(p: Text)
    ensures IsAccepted(p) <==>
      && |p| <= 2000 && (forall u :: u in p ==> u >= 32)
      && ((exists letter, rest, separator :: p == [letter, 58, separator] + rest && separator in [47, 92]
             && (letter in Lit("ABCDEFGHIJKLMNOPQRSTUVWXYZ") || letter in Lit("abcdefghijklmnopqrstuvwxyz")))
          || exists separator, rest :: p == [separator] + rest && separator in [47, 92])
  {
    if p != [] { assert p == [p[0]] + p[1..]; }
    if |p| >= 3 { assert p == [p[0], p[1], p[2]] + p[3..]; }
    forall u ensures IsLetter(u) <==> u in Lit("ABCDEFGHIJKLMNOPQRSTUVWXYZ") || u in Lit("abcdefghijklmnopqrstuvwxyz") {
      LettersAre(u);
    }
    if forall u :: u in p ==> u >= 32 {
      forall i | 0 <= i < |p| ensures p[i] > 31 { assert p[i] in p; }
    }
  }

  lemma LettersAre(u: CodeUnit)
    ensures IsLetter(u) <==> u in Lit("ABCDEFGHIJKLMNOPQRSTUVWXYZ") || u in Lit("abcdefghijklmnopqrstuvwxyz")
  {
    var upper, low := Lit("ABCDEFGHIJKLMNOPQRSTUVWXYZ"), Lit("abcdefghijklmnopqrstuvwxyz");
    LettersInOrder();
    if 65 <= u <= 90 { assert upper[u - 65] == u; }
    if 97 <= u <= 122 { assert low[u - 97] == u; }
  }

  lemma LettersInOrder()
    ensures var upper, low := Lit("ABCDEFGHIJKLMNOPQRSTUVWXYZ"), Lit("abcdefghijklmnopqrstuvwxyz");
      |upper| == 26 && |low| == 26 && forall i :: 0 <= i < 26 ==> upper[i] == 65 + i && low[i] == 97 + i
  {
  }

  /** A server and a share, each at least one unit long and without a slash. */
  ghost predicate IsShare(t: Text, server: Text, share: Text) {
    server != [] && share != [] && HasNoSlash(server) && HasNoSlash(share)
      && t == [SLASH, SLASH] + server + [SLASH] + share
  }

  /** The first n units are a server and a share, and the path ends there or goes on with a slash. */
  ghost predicate IsShareHead(t: Text, n: nat) {
    n <= |t| && (exists server, share :: IsShare(t[..n], server, share)) && (n < |t| ==> t[n] == SLASH)
  }

  lemma ShareThere(t: Text, server: Text, share: Text, tail: Text)
    requires server != [] && share != [] && HasNoSlash(server) && HasNoSlash(share)
    requires t == [SLASH, SLASH] + server + [SLASH] + share + tail && (tail == [] || tail[0] == SLASH)
    ensures ShareEnd(t) == 3 + |server| + |share|
  {
    hide RunLength, HasNoSlash;
    var names := share + tail;
    var rest := server + ([SLASH] + names);
    TwoSlashes(t, server, share, tail, rest, names);
    PlainRun(server);
    PlainRun(share);
    RunStays(server, [SLASH] + names);
    RunStays(share, tail);
    ShareEndIs(t, |server|, |share|);
  }

  lemma TwoSlashes(t: Text, server: Text, share: Text, tail: Text, rest: Text, names: Text)
    requires t == [SLASH, SLASH] + server + [SLASH] + share + tail && names == share + tail
    requires rest == server + ([SLASH] + names)
    ensures |t| >= 3 + |server| && t[0] == SLASH && t[1] == SLASH && t[2..] == rest && t[3 + |server|..] == names
  {
    var front := [SLASH, SLASH] + server + [SLASH];
    assert t == front + names;
    assert t == [SLASH, SLASH] + rest;
  }

  lemma HeadIsShare(t: Text, n: nat)
    requires IsShareHead(t, n)
    ensures n > 0 && ShareEnd(t) == n
  {
    hide RunLength, ShareEnd, HasNoSlash;
    var server, share :| IsShare(t[..n], server, share);
    assert t == t[..n] + t[n..];
    ShareThere(t, server, share, t[n..]);
  }

  lemma ShareIsHead(t: Text)
    requires ShareEnd(t) > 0
    ensures IsShareHead(t, ShareEnd(t))
  {
    hide RunLength, ShareEnd;
    ShareParts(t);
    var rest := t[2..];
    var names := rest[RunLength(rest) + 1..];
    var server, share := rest[..RunLength(rest)], names[..RunLength(names)];
    ShareOf(t, rest, names, RunLength(rest), RunLength(names));
    assert server != [] && share != [] && HasNoSlash(server) && HasNoSlash(share);
    hide HasNoSlash;
    assert IsShare(t[..ShareEnd(t)], server, share);
  }

  /** The prefix of an absolute path is its drive with the slash; else its server and share, with the slash after them
      if there is one; else its first slash. */
  lemma PrefixExactly(t: Text)
    requires HasPrefix(t)
    ensures IsLetter(t[0]) ==> t[..PrefixLength(t)] == [t[0], 58, 47]
    ensures forall n: nat :: !IsLetter(t[0]) && IsShareHead(t, n) ==> PrefixLength(t) == n + if n < |t| then 1 else 0
    ensures !IsLetter(t[0]) && (forall n: nat :: !IsShareHead(t, n)) ==> t[..PrefixLength(t)] == [47]
  {
    hide ShareEnd, IsShareHead;
    forall n: nat | IsShareHead(t, n) ensures n > 0 && ShareEnd(t) == n { HeadIsShare(t, n); }
    if ShareEnd(t) > 0 { ShareIsHead(t); }
  }

  // ---- windowsPathIdentity ----

  method WindowsPathIdentity(lower: Text -> Text, p: Text) returns (r: Option<Text>)
    ensures r == Identity(lower, p)
  {
    hide Canonical, Segments, PrefixLength;
    if !IsAccepted(p) { return None; }
    var text := Slashes(p);
    var n := PrefixLength(text);
    var prefix := text[..n];
    var segments := Segments(text[n..]);
    var parts: seq<Text> := [];
    assert segments[..0] == [];
    for i := 0 to |segments|
      invariant parts == Resolve(segments[..i])
    {
      assert segments[..i + 1][..i] == segments[..i];
      var part := segments[i];
      if part != [] && part != HERE {
        if part == UP {
          if |parts| > 0 { parts := parts[..|parts| - 1]; }
        } else {
          parts := parts + [part];
        }
      }
    }
    assert segments[..|segments|] == segments;
    CanonicalIs(text, n, parts);
    return Some(lower(WithoutSlash(prefix) + [SLASH] + Join(parts)));
  }

  lemma CanonicalIs(t: Text, n: nat, parts: seq<Text>)
    requires n == PrefixLength(t) && parts == Resolve(Segments(t[n..]))
    ensures Canonical(t) == WithoutSlash(t[..n]) + [SLASH] + Join(parts)
  {
  }

  // ---- Case and separators are ignored ----

  lemma AcceptedAlike(p: Text, q: Text)
    requires AsciiLower(Slashes(p)) == AsciiLower(Slashes(q))
    ensures IsAccepted(p) <==> IsAccepted(q)
  {
    assert |AsciiLower(Slashes(p))| == |p| && |AsciiLower(Slashes(q))| == |q|;
    forall i | 0 <= i < |p| ensures LowerUnit(SlashUnit(p[i])) == LowerUnit(SlashUnit(q[i])) {
      assert AsciiLower(Slashes(p))[i] == AsciiLower(Slashes(q))[i];
    }
  }

  /** Paths that differ only in the style of their separators and the case of ASCII letters have one identity. */
  lemma IdentityIgnoresStyle(lower: Text -> Text, p: Text, q: Text)
    requires IsLowerCasing(lower) && AsciiLower(Slashes(p)) == AsciiLower(Slashes(q))
    ensures Identity(lower, p) == Identity(lower, q)
  {
    hide Canonical, IsAccepted, Slashes, AsciiLower, Dotted, IsClean, HasNoSlash, IsAscii, PrefixLength;
    AcceptedAlike(p, q);
    assert lower(AsciiLower(Slashes(p))) == Fold(lower, p) && lower(AsciiLower(Slashes(q))) == Fold(lower, q);
    if IsAccepted(p) {
      IdentityFolded(lower, p);
      IdentityFolded(lower, q);
    }
  }

  /** A backslash is as good as a slash anywhere, and everything else is told apart from them. */
  lemma SeparatorsAlike(lower: Text -> Text, p: Text, q: Text)
    requires |p| == |q| && forall i :: 0 <= i < |p| ==> q[i] == if p[i] == 92 then 47 else p[i]
    ensures Identity(lower, p) == Identity(lower, q) && CanonicalPath(q) == Canonical(q)
  {
    hide Canonical;
    assert Slashes(p) == q && Slashes(q) == q;
    AcceptedAlike(p, q);
  }

  /** Paths that differ in the case of any letters have one identity if and only if both have one or neither has. */
  lemma IdentityIgnoresCase(lower: Text -> Text, p: Text, q: Text)
    requires IsLowerCasing(lower) && Fold(lower, p) == Fold(lower, q)
    ensures Identity(lower, p) == Identity(lower, q) <==> (IsAccepted(p) <==> IsAccepted(q))
  {
    hide Canonical, IsAccepted, IsLowerCasing, Fold, PrefixLength, IsClean;
    if IsAccepted(p) { IdentityFolded(lower, p); }
    if IsAccepted(q) { IdentityFolded(lower, q); }
  }

  /** The Kelvin sign is in lower case a plain k, but no drive letter. */
  lemma KelvinDriveHasNoIdentity(lower: Text -> Text)
    requires IsLowerCasing(lower) && lower([0x212A, COLON]) == [107, COLON]
    ensures var p, q: Text := [0x212A, COLON, SLASH], [107, COLON, SLASH];
      Fold(lower, p) == Fold(lower, q) && Identity(lower, p).None? && Identity(lower, q).Some?
  {
    hide IsLowerCasing;
    var p, q: Text := [0x212A, COLON, SLASH], [107, COLON, SLASH];
    var kelvin, k: Text := [0x212A, COLON], [107, COLON];
    assert Slashes(p) == p && Slashes(q) == q;
    assert p == kelvin + [SLASH] + [] && q == k + [SLASH] + [];
    LowerSlashed(lower, kelvin, []);
    LowerSlashed(lower, k, []);
    assert AsciiLower(k) == k;
    LowerAscii(lower, k);
  }

  // ---- The prefix stays, the rest is clean ----

  predicate IsName(t: Text) {
    t != [] && t != HERE && t != UP && forall i :: 0 <= i < |t| ==> t[i] != SLASH
  }

  predicate AreNames(parts: seq<Text>) { forall i :: 0 <= i < |parts| ==> IsName(parts[i]) }

  lemma {:induction false} SegmentsHaveNoSlash(t: Text)
    ensures forall i, j :: 0 <= i < |Segments(t)| && 0 <= j < |Segments(t)[i]| ==> Segments(t)[i][j] != SLASH
  {
    if t != [] {
      SegmentsHaveNoSlash(t[1..]);
      var others := Segments(t[1..]);
      if t[0] != SLASH {
        assert forall i :: 1 <= i < |others| ==> Segments(t)[i] == others[i];
        assert Segments(t)[0] == [t[0]] + others[0];
      } else {
        assert forall i :: 1 <= i < |others| + 1 ==> Segments(t)[i] == others[i - 1];
      }
    }
  }

  lemma {:induction false} ResolvedAreNames(segments: seq<Text>)
    requires forall i, j :: 0 <= i < |segments| && 0 <= j < |segments[i]| ==> segments[i][j] != SLASH
    ensures AreNames(Resolve(segments))
  {
    if segments != [] {
      var front := segments[..|segments| - 1];
      assert forall i :: 0 <= i < |front| ==> front[i] == segments[i];
      ResolvedAreNames(front);
    }
  }

  lemma IdentityParts(lower: Text -> Text, p: Text)
    requires IsLowerCasing(lower) && IsAccepted(p)
    ensures var t := Fold(lower, p);
      var root, parts := WithoutSlash(t[..PrefixLength(t)]), Resolve(Segments(t[PrefixLength(t)..]));
      Identity(lower, p) == Some(root + [SLASH] + Join(parts)) && AreNames(parts) && PrefixLength(t) > 0
  {
    hide Fold, Segments, Resolve, PrefixLength, IsLowerCasing, IsAccepted, IsClean;
    var t := Fold(lower, p);
    IdentityFolded(lower, p);
    SegmentsHaveNoSlash(t[PrefixLength(t)..]);
    ResolvedAreNames(Segments(t[PrefixLength(t)..]));
  }

  // ---- Which names survive, counted from the end ----

  function DropLast(parts: seq<Text>, n: nat): seq<Text> { if n >= |parts| then [] else parts[..|parts| - n] }

  /** Reading from the end, every ".." cancels the nearest name before it that is not cancelled yet. */
  function Survivors(segments: seq<Text>, pending: nat): seq<Text> {
    if segments == [] then []
    else
      var front, last := segments[..|segments| - 1], segments[|segments| - 1];
      if last == [] || last == HERE then Survivors(front, pending)
      else if last == UP then Survivors(front, pending + 1)
      else if pending > 0 then Survivors(front, pending - 1)
      else Survivors(front, 0) + [last]
  }

  /** The stack of parts holds exactly the names that no later ".." cancels. */
  lemma {:induction false} ResolveIsSurvivors(segments: seq<Text>, pending: nat)
    ensures DropLast(Resolve(segments), pending) == Survivors(segments, pending)
  {
    if segments != [] {
      var front, last := segments[..|segments| - 1], segments[|segments| - 1];
      ResolveIsSurvivors(front, pending);
      ResolveIsSurvivors(front, pending + 1);
      ResolveIsSurvivors(front, 0);
      if pending > 0 { ResolveIsSurvivors(front, pending - 1); }
    }
  }

  // ---- Fixed point ----

  lemma {:induction false} SegmentsOfJoin(parts: seq<Text>)
    requires AreNames(parts) && parts != []
    ensures Segments(Join(parts)) == parts
  {
    hide Segments;
    assert HasNoSlash(parts[0]) && parts == [parts[0]] + parts[1..];
    if |parts| == 1 {
      SegmentsAlone(parts[0]);
    } else {
      SegmentsOfJoin(parts[1..]);
      SegmentsSlashed(parts[0], Join(parts[1..]));
    }
  }

  lemma {:induction false} SegmentsOfName(name: Text, rest: Text)
    requires HasNoSlash(name) && (rest == [] || rest[0] == SLASH)
    ensures Segments(rest)[0] == [] && Segments(name + rest) == [name] + Segments(rest)[1..]
  {
    if name == [] {
      assert name + rest == rest;
    } else {
      assert (name + rest)[1..] == name[1..] + rest;
      SegmentsOfName(name[1..], rest);
      assert [name[0]] + name[1..] == name;
      assert ([name[1..]] + Segments(rest)[1..])[1..] == Segments(rest)[1..];
    }
  }

  lemma {:induction false} ResolveNames(parts: seq<Text>)
    requires AreNames(parts)
    ensures Resolve(parts) == parts
  {
    if parts != [] {
      ResolveNames(parts[..|parts| - 1]);
      assert IsName(parts[|parts| - 1]);
    }
  }

  lemma ResolveJoin(parts: seq<Text>)
    requires AreNames(parts)
    ensures Resolve(Segments(Join(parts))) == parts
  {
    if parts == [] {
      var bare: seq<Text> := [[]];
      assert bare[..0] == parts;
    } else {
      SegmentsOfJoin(parts);
      ResolveNames(parts);
    }
  }

  /** The prefix of a canonical path is the prefix it was built with. */
  lemma PrefixOfCanonical(t: Text, parts: seq<Text>)
    requires PrefixLength(t) > 0 && AreNames(parts)
    ensures var root := WithoutSlash(t[..PrefixLength(t)]);
      var r := root + [SLASH] + Join(parts);
      PrefixLength(r) == |root| + 1
  {
    hide RunLength;
    var n := PrefixLength(t);
    var root := WithoutSlash(t[..n]);
    var r := root + [SLASH] + Join(parts);
    if StartsWithDrive(t) {
      assert root == t[..2];
    } else if ShareEnd(t) > 0 {
      var end := ShareEnd(t);
      assert root == t[..end];
      ShareStays(t, r);
      assert !StartsWithDrive(r);
    } else {
      assert root == [];
      JoinHead(parts);
      assert r == [SLASH] + Join(parts);
      assert ShareEnd(r) == 0;
    }
  }

  lemma JoinHead(parts: seq<Text>)
    requires AreNames(parts)
    ensures Join(parts) != [] ==> Join(parts)[0] != SLASH
  {
    if parts != [] { assert IsName(parts[0]); }
  }

  lemma {:induction false} RunStays(a: Text, b: Text)
    requires RunLength(a) == |a| && (b == [] || b[0] == SLASH)
    ensures RunLength(a + b) == |a|
  {
    if a == [] {
      assert a + b == b;
    } else {
      assert (a + b)[1..] == a[1..] + b;
      RunStays(a[1..], b);
    }
  }

  lemma {:induction false} RunPrefix(t: Text)
    ensures RunLength(t[..RunLength(t)]) == RunLength(t)
  {
    if t != [] && t[0] != SLASH {
      RunPrefix(t[1..]);
      assert t[..RunLength(t)][1..] == t[1..][..RunLength(t[1..])];
    }
  }

  /** A path that goes on with a slash after the same //server/share has the same share. */
  lemma ShareStays(t: Text, r: Text)
    requires ShareEnd(t) > 0 && |r| > ShareEnd(t) && r[..ShareEnd(t)] == t[..ShareEnd(t)] && r[ShareEnd(t)] == SLASH
    ensures ShareEnd(r) == ShareEnd(t)
  {
    hide RunLength;
    var end := ShareEnd(t);
    var server := RunLength(t[2..]);
    var share := RunLength(t[3 + server..]);
    assert forall i :: 0 <= i < end ==> r[i] == r[..end][i] == t[i];
    assert t[2 + server] == t[2..][server] == SLASH;
    RunSame(t[2..], r[2..]);
    RunSame(t[3 + server..], r[3 + server..]);
  }

  lemma RunSame(t: Text, r: Text)
    requires |r| > RunLength(t) && r[RunLength(t)] == SLASH && forall i :: 0 <= i < RunLength(t) ==> r[i] == t[i]
    ensures RunLength(r) == RunLength(t)
  {
    var n := RunLength(t);
    RunPrefix(t);
    assert r[..n] == t[..n];
    assert r == r[..n] + r[n..];
    RunStays(r[..n], r[n..]);
  }

  // ---- The identity is accepted unless too long ----

  lemma AbsoluteFromPrefix(r: Text)
    requires PrefixLength(r) > 0
    ensures IsAbsolute(r)
  {
    hide RunLength;
  }

  /** However many ".." segments a path has, its identity keeps the drive, share or root as its own prefix; after it
      come only names: no empty, "." or ".." segment. */
  lemma IdentityKeepsPrefix(lower: Text -> Text, p: Text)
    requires IsLowerCasing(lower) && IsAccepted(p)
    ensures var t, r := Fold(lower, p), Identity(lower, p).value;
      var root := WithoutSlash(t[..PrefixLength(t)]);
      && root + [SLASH] <= r && PrefixLength(r) == |root| + 1
      && (r[|root| + 1..] == [] || AreNames(Segments(r[|root| + 1..])))
  {
    hide Segments, Resolve, Join, PrefixLength, Fold, IsAccepted, IsName, IsLowerCasing;
    var t, r := Fold(lower, p), Identity(lower, p).value;
    IdentityParts(lower, p);
    var root, parts := WithoutSlash(t[..PrefixLength(t)]), Resolve(Segments(t[PrefixLength(t)..]));
    PrefixOfCanonical(t, parts);
    Split(root + [SLASH], Join(parts));
    JoinEmpty();
    if parts != [] { SegmentsOfJoin(parts); }
  }

  lemma JoinEmpty()
    ensures Join([]) == []
  {
  }

  lemma CanonicalTwice(lower: Text -> Text, p: Text, r: Text)
    requires IsLowerCasing(lower) && IsAccepted(p) && Identity(lower, p) == Some(r)
    ensures PrefixLength(r) > 0 && Canonical(r) == r
  {
    hide Segments, Resolve, Join, PrefixLength, Fold, IsAccepted, IsLowerCasing;
    var t := Fold(lower, p);
    IdentityParts(lower, p);
    var root, parts := WithoutSlash(t[..PrefixLength(t)]), Resolve(Segments(t[PrefixLength(t)..]));
    PrefixOfCanonical(t, parts);
    Split(root + [SLASH], Join(parts));
    assert r[..|root| + 1] == root + [SLASH] && r[|root| + 1..] == Join(parts);
    ResolveJoin(parts);
  }

  lemma {:induction false} SegmentsClean(t: Text)
    requires IsClean(t)
    ensures forall i :: 0 <= i < |Segments(t)| ==> IsClean(Segments(t)[i])
  {
    if t != [] {
      assert IsClean(t[1..]);
      SegmentsClean(t[1..]);
      var others := Segments(t[1..]);
      forall i | 0 <= i < |Segments(t)| ensures IsClean(Segments(t)[i]) {
        if t[0] == SLASH {
          if i > 0 { assert Segments(t)[i] == others[i - 1]; }
        } else if i > 0 {
          assert Segments(t)[i] == others[i];
        } else {
          assert Segments(t)[0] == [t[0]] + others[0];
        }
      }
    }
  }

  lemma {:induction false} ResolveClean(segments: seq<Text>)
    requires forall i :: 0 <= i < |segments| ==> IsClean(segments[i])
    ensures forall i :: 0 <= i < |Resolve(segments)| ==> IsClean(Resolve(segments)[i])
  {
    hide IsClean;
    if segments != [] { ResolveClean(segments[..|segments| - 1]); }
  }

  lemma {:induction false} JoinClean(parts: seq<Text>)
    requires forall i :: 0 <= i < |parts| ==> IsClean(parts[i])
    ensures IsClean(Join(parts))
  {
    if |parts| > 1 {
      JoinClean(parts[1..]);
      assert IsClean(parts[0]);
    } else if |parts| == 1 {
      assert IsClean(parts[0]);
    }
  }

  lemma CanonicalClean(t: Text)
    requires IsClean(t)
    ensures IsClean(Canonical(t))
  {
    hide Segments, Resolve, Join, PrefixLength;
    var n := PrefixLength(t);
    assert IsClean(t[n..]) && IsClean(WithoutSlash(t[..n]));
    SegmentsClean(t[n..]);
    ResolveClean(Segments(t[n..]));
    JoinClean(Resolve(Segments(t[n..])));
  }

  lemma SlashesOfClean(t: Text)
    requires IsClean(t)
    ensures Slashes(t) == t && forall i :: 0 <= i < |t| ==> t[i] > 31
  {
  }

  // ---- Length of the identity ----

  lemma {:induction false} DottedConcat(a: Text, b: Text)
    ensures Dotted(a + b) == Dotted(a) + Dotted(b)
  {
    if a == [] {
      assert a + b == b;
    } else {
      assert (a + b)[1..] == a[1..] + b;
      DottedConcat(a[1..], b);
    }
  }

  lemma StretchSlashed(a: Text, b: Text)
    ensures Stretch(a + [SLASH] + b) == Stretch(a) + 1 + Stretch(b)
  {
    DottedConcat(a + [SLASH], b);
    DottedConcat(a, [SLASH]);
    assert [SLASH][1..] == [] && Dotted([SLASH]) == 0;
  }

  /** The length of the parts in lower case, with a slash for each. */
  function Weight(parts: seq<Text>): nat {
    if parts == [] then 0 else Weight(parts[..|parts| - 1]) + Stretch(parts[|parts| - 1]) + 1
  }

  lemma {:induction false} WeightFront(x: Text, parts: seq<Text>)
    ensures Weight([x] + parts) == Stretch(x) + 1 + Weight(parts)
  {
    hide Stretch;
    if parts == [] {
      assert [x] + parts == [x] && [x][..0] == [];
    } else {
      assert ([x] + parts)[..|parts|] == [x] + parts[..|parts| - 1];
      WeightFront(x, parts[..|parts| - 1]);
    }
  }

  lemma {:induction false} WeightOfSegments(t: Text)
    ensures Weight(Segments(t)) == Stretch(t) + 1
  {
    if t == [] {
      var none: seq<Text>, bare: seq<Text> := [], [[]];
      assert bare[..0] == none;
    } else {
      WeightOfSegments(t[1..]);
      var others := Segments(t[1..]);
      if t[0] == SLASH {
        WeightFront([], others);
      } else {
        assert others == [others[0]] + others[1..];
        WeightFront(others[0], others[1..]);
        WeightFront([t[0]] + others[0], others[1..]);
        DottedConcat([t[0]], others[0]);
      }
    }
  }

  lemma {:induction false} WeightOfResolved(segments: seq<Text>)
    ensures Weight(Resolve(segments)) <= Weight(segments)
  {
    hide Stretch;
    if segments != [] { WeightOfResolved(segments[..|segments| - 1]); }
  }

  lemma {:induction false} WeightOfJoin(parts: seq<Text>)
    ensures Stretch(Join(parts)) == if parts == [] then 0 else Weight(parts) - 1
  {
    if parts != [] {
      hide Stretch;
      assert parts == [parts[0]] + parts[1..];
      WeightFront(parts[0], parts[1..]);
      WeightOfJoin(parts[1..]);
      if |parts| > 1 { StretchSlashed(parts[0], Join(parts[1..])); } else { NoWeight(); }
    }
  }

  lemma NoWeight()
    ensures Weight([]) == 0
  {
  }

  /** A path that is its //server/share and no more, not even a slash after it. */
  predicate IsBareShare(p: Text) { p != [] && ShareEnd(Slashes(p)) == |p| }

  /** The canonical path, measured in lower case, is no longer than the path, but for the slash that a
      bare share gets. */
  lemma CanonicalLength(t: Text)
    requires PrefixLength(t) > 0
    ensures Stretch(Canonical(t)) <= Stretch(t) + if ShareEnd(t) == |t| then 1 else 0
    ensures ShareEnd(t) == |t| ==> Canonical(t) == t + [SLASH]
  {
    hide Segments, Resolve, Join, ShareEnd, Weight, Stretch;
    var n := PrefixLength(t);
    var root, parts := WithoutSlash(t[..n]), Resolve(Segments(t[n..]));
    WeightOfSegments(t[n..]);
    WeightOfResolved(Segments(t[n..]));
    WeightOfJoin(parts);
    StretchSlashed(root, Join(parts));
    PrefixSlash(t);
    StretchSlashed(root, t[n..]);
    if ShareEnd(t) == |t| {
      NothingLeft(t[n..]);
      assert t[..n] == t && t[n..] == [];
      assert root + [SLASH] + [] == t + [SLASH];
      assert Stretch([]) == 0 by { StretchEmpty(); }
    }
  }

  lemma StretchEmpty()
    ensures Stretch([]) == 0
  {
  }

  lemma NothingLeft(t: Text)
    requires t == []
    ensures Join(Resolve(Segments(t))) == []
  {
    var bare: seq<Text> := [[]];
    assert bare[..0] == [];
  }

  lemma PrefixSlash(t: Text)
    requires PrefixLength(t) > 0
    ensures var n := PrefixLength(t);
      if ShareEnd(t) == |t| then n == |t| && WithoutSlash(t[..n]) == t
      else t == WithoutSlash(t[..n]) + [SLASH] + t[n..]
  {
    hide RunLength;
    if ShareEnd(t) == |t| {
      ShareText(t);
      assert t[..|t|] == t;
    }
  }

  /** The exact length of the identity: that of the canonical path, with one unit more for every dotted capital in it. A
      bare share gains a slash; every other identity is longer than its path by at most the dotted capitals. */
  lemma IdentityLength(lower: Text -> Text, p: Text)
    requires IsLowerCasing(lower) && IsAccepted(p)
    ensures var n := |Identity(lower, p).value|;
      && n == Stretch(CanonicalPath(p))
      && (if IsBareShare(p) then n == |p| + 1 + Dotted(p) else n <= |p| + Dotted(p))
  {
    hide Canonical, PrefixLength, ShareEnd, IsAccepted, HasPrefix, Slashes, Dotted, IsClean, HasNoSlash, AsciiLower;
    hide IsAscii;
    AcceptedHasPrefix(p);
    HasPrefixLength(Slashes(p));
    CanonicalLength(Slashes(p));
    SlashesDotted(p);
    if IsBareShare(p) {
      StretchSlashed(Slashes(p), []);
      StretchEmpty();
      assert Slashes(p) + [SLASH] + [] == Slashes(p) + [SLASH];
    }
  }

  lemma HasPrefixLength(t: Text)
    requires HasPrefix(t)
    ensures PrefixLength(t) > 0
  {
  }

  lemma {:induction false} SlashesDotted(p: Text)
    ensures Dotted(Slashes(p)) == Dotted(p) && |Slashes(p)| == |p|
  {
    if p != [] {
      assert Slashes(p)[1..] == Slashes(p[1..]);
      SlashesDotted(p[1..]);
    }
  }

  /** The identity is its own identity, except where the canonical path, measured in lower case, has more
      than 2000 units. */
  lemma IdentityFixedPoint(lower: Text -> Text, p: Text)
    requires IsLowerCasing(lower) && IsAccepted(p)
    ensures var r := Identity(lower, p).value;
      Identity(lower, r) == if Stretch(CanonicalPath(p)) > MAXIMUM_LENGTH then None else Some(r)
  {
    hide PrefixLength, Fold, Canonical, IsAbsolute, Slashes, IsClean, HasNoSlash, AsciiLower, IsAscii, Dotted;
    var r := Identity(lower, p).value;
    AcceptedHasPrefix(p);
    CanonicalClean(Slashes(p));
    SlashesOfClean(r);
    CanonicalTwice(lower, p, r);
    AbsoluteFromPrefix(r);
  }

  /** Where a path has no dotted capitals, that is a bare share of exactly 2000 units. */
  lemma PlainFixedPoint(lower: Text -> Text, p: Text)
    requires IsLowerCasing(lower) && IsAccepted(p) && Dotted(p) == 0
    ensures var r := Identity(lower, p).value;
      Identity(lower, r) == if IsBareShare(p) && |p| == MAXIMUM_LENGTH then None else Some(r)
  {
    hide IsLowerCasing, IsAbsolute, CanonicalPath, IsBareShare, Dotted;
    IdentityFixedPoint(lower, p);
    IdentityLength(lower, p);
  }

  /** Such a share exists: //a/bbb… */
  lemma LongShareHasNoFixedPoint(lower: Text -> Text) returns (p: Text)
    requires IsLowerCasing(lower)
    ensures IsAccepted(p) && Identity(lower, p).Some? && Identity(lower, Identity(lower, p).value).None?
  {
    hide IsLowerCasing;
    var name: Text := seq(1996, i => 98);
    p := [SLASH, SLASH, 97, SLASH] + name;
    var t := Slashes(p);
    assert t == p;
    var rest := t[2..];
    assert rest == [97] + ([SLASH] + name) && rest[1..] == [SLASH] + name;
    assert RunLength(rest) == 1;
    assert t[4..] == name;
    PlainRun(name);
    hide RunLength, Canonical;
    assert ShareEnd(t) == |p|;
    NoDotted(p);
    PlainFixedPoint(lower, p);
  }

  /** And so does a path of dotted capitals: C:/ and 1996 of them, accepted at 1999 units. */
  lemma DottedPathHasNoFixedPoint(lower: Text -> Text) returns (p: Text)
    requires IsLowerCasing(lower)
    ensures IsAccepted(p) && !IsBareShare(p) && |p| < MAXIMUM_LENGTH
    ensures Identity(lower, p).Some? && Identity(lower, Identity(lower, p).value).None?
  {
    hide IsLowerCasing;
    var name: Text := seq(1996, i => DOTTED_CAPITAL);
    p := [67, COLON, SLASH] + name;
    assert Slashes(p) == p;
    DottedCanonical(p, name);
    StretchSlashed([67, COLON], name);
    AllDotted(name);
    hide Canonical, ShareEnd;
    assert ShareEnd(p) == 0 by { NoShare(p); }
    IdentityFixedPoint(lower, p);
  }

  lemma NoShare(p: Text)
    requires p != [] && p[0] != SLASH
    ensures ShareEnd(p) == 0
  {
  }

  lemma DottedCanonical(t: Text, name: Text)
    requires t == [67, COLON, SLASH] + name && name != [] && name[0] == DOTTED_CAPITAL && HasNoSlash(name)
    ensures Canonical(t) == [67, COLON] + [SLASH] + name
  {
    hide Segments, Resolve;
    assert t[3..] == name && WithoutSlash(t[..3]) == [67, COLON];
    SegmentsOfName(name, []);
    SegmentsRest([]);
    assert name + [] == name && [name] + Segments([])[1..] == [name];
    ResolveOne(name);
  }

  lemma ResolveOne(name: Text)
    requires name != [] && name[0] != DOT
    ensures Resolve([name]) == [name]
  {
    assert [name][..0] == [];
  }

  lemma {:induction false} AllDotted(t: Text)
    requires forall i :: 0 <= i < |t| ==> t[i] == DOTTED_CAPITAL
    ensures Dotted(t) == |t|
  {
    if t != [] { AllDotted(t[1..]); }
  }

  lemma {:induction false} NoDotted(t: Text)
    requires forall i :: 0 <= i < |t| ==> t[i] != DOTTED_CAPITAL
    ensures Dotted(t) == 0
  {
    if t != [] { NoDotted(t[1..]); }
  }

  lemma {:induction false} PlainRun(t: Text)
    requires HasNoSlash(t)
    ensures RunLength(t) == |t|
  {
    if t != [] {
      assert HasNoSlash(t[1..]);
      PlainRun(t[1..]);
    }
  }

  // ---- One lower-casing ----

  function LowerOne(u: CodeUnit): Text {
    if u == DOTTED_CAPITAL then [0x69, 0x307] else if u == 0x212A then [107] else [LowerUnit(u)]
  }

  /** ASCII letters, the dotted capital and the Kelvin sign, which are the units with an ASCII unit in
      their lower case. */
  function SimpleLower(t: Text): Text {
    if t == [] then [] else LowerOne(t[0]) + SimpleLower(t[1..])
  }

  lemma {:induction false} SimpleConcat(a: Text, b: Text)
    ensures SimpleLower(a + b) == SimpleLower(a) + SimpleLower(b)
  {
    if a == [] {
      assert a + b == b;
    } else {
      assert (a + b)[1..] == a[1..] + b;
      SimpleConcat(a[1..], b);
      Assoc(LowerOne(a[0]), SimpleLower(a[1..]), SimpleLower(b));
    }
  }

  lemma {:induction false} SimpleTwice(t: Text)
    ensures SimpleLower(SimpleLower(t)) == SimpleLower(t) && SimpleLower(AsciiLower(t)) == SimpleLower(t)
  {
    if t != [] {
      var u, rest := t[0], t[1..];
      SimpleTwice(rest);
      SimpleConcat(LowerOne(u), SimpleLower(rest));
      OneUnit(u);
      hide LowerOne;
      assert AsciiLower(t)[1..] == AsciiLower(rest);
    }
  }

  lemma {:induction false} SimpleUnits(t: Text)
    ensures |SimpleLower(t)| == Stretch(t)
    ensures (HasNoSlash(t) ==> HasNoSlash(SimpleLower(t))) && (IsClean(t) ==> IsClean(SimpleLower(t)))
  {
    if t != [] {
      var u, rest := t[0], t[1..];
      SimpleUnits(rest);
      if HasNoSlash(t) { assert t[0] != SLASH && HasNoSlash(rest); }
      if IsClean(t) { assert t[0] > 31 && t[0] != BACKSLASH && IsClean(rest); }
    }
  }

  lemma {:induction false} SimpleAscii(t: Text)
    requires IsAscii(t)
    ensures SimpleLower(t) == AsciiLower(t)
  {
    if t != [] {
      SimpleAscii(t[1..]);
      assert AsciiLower(t) == [LowerUnit(t[0])] + AsciiLower(t[1..]);
    }
  }

  lemma OneUnit(u: CodeUnit)
    ensures SimpleLower(LowerOne(u)) == LowerOne(u) && LowerOne(LowerUnit(u)) == LowerOne(u)
    ensures u != SLASH ==> HasNoSlash(LowerOne(u))
  {
    var low := LowerOne(u);
    assert low[1..] == (if u == DOTTED_CAPITAL then [0x307] else []);
    assert [0x307][1..] == [];
    if u == DOTTED_CAPITAL { assert SimpleLower(low[1..]) == [0x307]; }
  }

  lemma {:induction false} SimpleDots(t: Text, n: nat)
    requires |SimpleLower(t)| == n && forall i :: 0 <= i < n ==> SimpleLower(t)[i] == DOT
    ensures |t| == n && forall i :: 0 <= i < n ==> t[i] == DOT
  {
    if t != [] {
      var low := LowerOne(t[0]);
      assert SimpleLower(t)[0] == low[0] && t[0] == DOT;
      assert SimpleLower(t)[1..] == SimpleLower(t[1..]);
      SimpleDots(t[1..], n - 1);
    }
  }

  lemma SimpleSlashed(a: Text, b: Text)
    ensures SimpleLower(a + [SLASH] + b) == SimpleLower(a) + [SLASH] + SimpleLower(b)
  {
    hide SimpleLower;
    SimpleConcat(a + [SLASH], b);
    SimpleConcat(a, [SLASH]);
    SimpleSlash();
  }

  lemma SimpleSlash()
    ensures SimpleLower([SLASH]) == [SLASH]
  {
    assert [SLASH][1..] == [];
  }

  lemma SimpleHere(t: Text)
    ensures (SimpleLower(t) == HERE ==> t == HERE) && (SimpleLower(t) == UP ==> t == UP)
  {
    hide SimpleLower;
    if SimpleLower(t) == HERE { SimpleDots(t, 1); }
    if SimpleLower(t) == UP { SimpleDots(t, 2); }
  }

  /** The properties asked of a lower-casing can be had together, with the Kelvin sign as in the example above. */
  lemma SimpleLowerIsLowerCasing()
    ensures IsLowerCasing(SimpleLower) && SimpleLower([0x212A, COLON]) == [107, COLON]
  {
    hide SimpleLower, HasNoSlash, IsClean, IsAscii, AsciiLower, Stretch;
    forall t
      ensures SimpleLower(SimpleLower(t)) == SimpleLower(t) && SimpleLower(AsciiLower(t)) == SimpleLower(t)
    {
      SimpleTwice(t);
    }
    forall t ensures |SimpleLower(t)| == Stretch(t) && (HasNoSlash(t) ==> HasNoSlash(SimpleLower(t)))
      && (IsClean(t) ==> IsClean(SimpleLower(t)))
    {
      SimpleUnits(t);
    }
    forall t | IsAscii(t) ensures SimpleLower(t) == AsciiLower(t) { SimpleAscii(t); }
    forall t ensures (SimpleLower(t) == HERE ==> t == HERE) && (SimpleLower(t) == UP ==> t == UP) { SimpleHere(t); }
    forall a: Text, b: Text
      ensures SimpleLower(a + [SLASH] + b) == SimpleLower(a) + [SLASH] + SimpleLower(b)
    {
      SimpleSlashed(a, b);
    }
    SimpleKelvin();
  }

  lemma SimpleKelvin()
    ensures SimpleLower([0x212A, COLON]) == [107, COLON]
  {
    assert [0x212A, COLON][1..] == [COLON] && [COLON][1..] == [];
    assert SimpleLower([COLON]) == [COLON];
  }
}
