/**
 The canonical join of nullable strings and the encoding of trusted facts built on it. Neither carries lengths or
 counts, yet both can be read back.
 */
module CanonicalJoin {
  import opened Outcomes
  import opened Texts
  import opened Decimals
  import opened Sorting
  import opened Utf8
  import opened Base64

  const NEWLINE := 10
  const MINUS := 45

  /** "-" for null, "+" and the base64 of the UTF-8 bytes otherwise, each on its own line. */
  function Line(v: Option<Text>): Text {
    if v.None? then [MINUS, NEWLINE] else [PLUS] + Encode64(Encode(v.value)) + [NEWLINE]
  }

  function Join(values: seq<Option<Text>>): Text {
    if values == [] then [] else Line(values[0]) + Join(values[1..])
  }

  /** CanonicalJoin: the builder holds the join of the values so far. */
  method BuildJoin(values: seq<Option<Text>>) returns (builder: Text)
    ensures builder == Join(values)
  {
    hide Encode, Encode64;
    builder := [];
    assert values[..0] == [];
    for i := 0 to |values|
      invariant builder == Join(values[..i])
    {
      assert values[..i + 1] == values[..i] + [values[i]];
      JoinConcat(values[..i], [values[i]]);
      JoinOne(values[i]);
      if values[i].None? {
        builder := builder + [MINUS, NEWLINE];
      } else {
        AppendLine(builder, [PLUS], Encode64(Encode(values[i].value)), [NEWLINE]);
        builder := builder + [PLUS] + Encode64(Encode(values[i].value)) + [NEWLINE];
      }
    }
    assert values[..|values|] == values;
  }

  lemma AppendLine(a: Text, b: Text, c: Text, d: Text)
    ensures a + b + c + d == a + (b + c + d)
  {
  }

  lemma JoinOne(v: Option<Text>)
    ensures Join([v]) == Line(v)
  {
    hide Line;
    assert Line(v) + [] == Line(v);
  }

  lemma {:induction false} JoinConcat(a: seq<Option<Text>>, b: seq<Option<Text>>)
    ensures Join(a + b) == Join(a) + Join(b)
  {
    hide Line;
    if a == [] {
      assert a + b == b;
    } else {
      assert (a + b)[1..] == a[1..] + b;
      JoinConcat(a[1..], b);
      Assoc(Line(a[0]), Join(a[1..]), Join(b));
    }
  }

  predicate IsWellFormedValue(v: Option<Text>) { v.Some? ==> IsWellFormed(v.value) }

  predicate AreWellFormed(values: seq<Option<Text>>) { forall i :: 0 <= i < |values| ==> IsWellFormedValue(values[i]) }

  /** A line is non-empty, and its only newline is its last unit. */
  predicate IsLine(t: Text) { t != [] && t[|t| - 1] == NEWLINE && forall i :: 0 <= i < |t| - 1 ==> t[i] != NEWLINE }

  lemma LineIsLine(v: Option<Text>)
    ensures IsLine(Line(v)) && |Line(v)| >= 2
  {
    hide Encode, Encode64;
    if v.Some? { Alphabet64(Encode(v.value)); }
  }

  lemma LineInjective(a: Option<Text>, b: Option<Text>)
    requires IsWellFormedValue(a) && IsWellFormedValue(b) && Line(a) == Line(b)
    ensures a == b
  {
    hide Encode, Encode64, IsWellFormed;
    assert Line(a)[0] == Line(b)[0];
    if a.Some? && b.Some? {
      var x, y := Encode64(Encode(a.value)), Encode64(Encode(b.value));
      assert x == Line(a)[1..|Line(a)| - 1] && y == Line(b)[1..|Line(b)| - 1];
      Injective64(Encode(a.value), Encode(b.value));
      EncodeInjective(a.value, b.value);
    }
  }

  /** Lines are a prefix code. */
  lemma FirstLine(a: Text, b: Text, restA: Text, restB: Text)
    requires IsLine(a) && IsLine(b) && a + restA == b + restB
    ensures a == b && restA == restB
  {
    NoShorterLine(a, b, restA, restB);
    NoShorterLine(b, a, restB, restA);
    var t := a + restA;
    assert t[..|a|] == a && t[..|b|] == b && t[|a|..] == restA && t[|b|..] == restB;
  }

  lemma NoShorterLine(a: Text, b: Text, restA: Text, restB: Text)
    requires IsLine(a) && IsLine(b) && a + restA == b + restB
    ensures |a| >= |b|
  {
    var t, last := a + restA, |a| - 1;
    assert t[last] == NEWLINE;
    assert last < |b| ==> t[last] == b[last];
  }

  /** Two lists of nullable well-formed strings, of any lengths, have the same join only when they are the same list. */
  lemma {:induction false} JoinInjective(a: seq<Option<Text>>, b: seq<Option<Text>>)
    requires AreWellFormed(a) && AreWellFormed(b) && Join(a) == Join(b)
    ensures a == b
  {
    hide Line, IsWellFormedValue, IsLine;
    if a == [] {
      if b != [] {
        LineIsLine(b[0]);
      }
    } else if b == [] {
      LineIsLine(a[0]);
    } else {
      LineIsLine(a[0]);
      LineIsLine(b[0]);
      FirstLine(Line(a[0]), Line(b[0]), Join(a[1..]), Join(b[1..]));
      LineInjective(a[0], b[0]);
      JoinInjective(a[1..], b[1..]);
      assert a == [a[0]] + a[1..] && b == [b[0]] + b[1..];
    }
  }

  function ScrubValue(v: Option<Text>): Option<Text> { if v.None? then None else Some(Scrub(v.value)) }

  function ScrubAll(values: seq<Option<Text>>): seq<Option<Text>> {
    seq(|values|, i requires 0 <= i < |values| => ScrubValue(values[i]))
  }

  lemma {:induction false} JoinScrubbed(values: seq<Option<Text>>)
    ensures Join(ScrubAll(values)) == Join(values) && AreWellFormed(ScrubAll(values))
  {
    hide Line, ScrubValue, ScrubAll, AreWellFormed;
    ScrubNone();
    if values != [] {
      JoinScrubbed(values[1..]);
      ScrubbedLine(values[0]);
      ScrubCons(values);
      WellFormedCons(ScrubValue(values[0]), ScrubAll(values[1..]));
      assert ([ScrubValue(values[0])] + ScrubAll(values[1..]))[1..] == ScrubAll(values[1..]);
    }
  }

  lemma ScrubNone()
    ensures ScrubAll([]) == [] && AreWellFormed([])
  {
  }

  lemma ScrubbedLine(v: Option<Text>)
    ensures Line(ScrubValue(v)) == Line(v) && IsWellFormedValue(ScrubValue(v))
  {
    hide Encode, Encode64, Scrub, IsWellFormed;
    if v.Some? { EncodeScrub(v.value); }
  }

  lemma ScrubCons(values: seq<Option<Text>>)
    requires values != []
    ensures ScrubAll(values) == [ScrubValue(values[0])] + ScrubAll(values[1..])
  {
    hide ScrubValue;
  }

  lemma WellFormedCons(head: Option<Text>, rest: seq<Option<Text>>)
    requires IsWellFormedValue(head) && AreWellFormed(rest)
    ensures AreWellFormed([head] + rest)
  {
    hide IsWellFormedValue;
  }

  /** For any strings: the joins agree if and only if the lists do once lone surrogates are replaced by U+FFFD. */
  lemma JoinAgreesExactly(a: seq<Option<Text>>, b: seq<Option<Text>>)
    ensures Join(a) == Join(b) <==> ScrubAll(a) == ScrubAll(b)
  {
    hide Join, ScrubAll, AreWellFormed;
    JoinScrubbed(a);
    JoinScrubbed(b);
    if Join(a) == Join(b) { JoinInjective(ScrubAll(a), ScrubAll(b)); }
  }

  /** So a lone surrogate cannot be told from U+FFFD. */
  lemma LoneSurrogatesCollide(u: CodeUnit)
    requires IsHigh(u) || IsLow(u)
    ensures Join([Some([u])]) == Join([Some([0xFFFD])])
  {
    hide Join;
    var lone: Text, mark: Text := [u], [0xFFFD];
    assert lone[1..] == [] && mark[1..] == [];
    assert Scrub(lone) == [0xFFFD] + Scrub([]) == mark && Scrub(mark) == [0xFFFD] + Scrub([]) == mark;
    assert ScrubAll([Some(lone)]) == [Some(mark)] && ScrubAll([Some(mark)]) == [Some(mark)];
    JoinAgreesExactly([Some([u])], [Some([0xFFFD])]);
  }

  // ---- Trusted facts ----

  datatype Fact = Fact(uniqueId: Text, elementId: int, document: Option<Text>, category: Option<Text>,
      typeId: Option<Text>, state: Option<Text>, present: bool, verified: bool, visible: bool)

  const DOMAIN: Text := Lit("dynamic-result-reference-trusted-facts/v1") + [NEWLINE]
  const COLUMNS := 9

  function IntText(n: int): Text { if n < 0 then [MINUS] + Decimal(-n) else Decimal(n) }

  function FlagText(b: bool): Text { if b then [49] else [48] }

  function Columns(f: Fact): (r: seq<Option<Text>>)
    ensures |r| == COLUMNS
  {
    [Some(f.uniqueId), Some(IntText(f.elementId)), f.document, f.category, f.typeId, f.state,
     Some(FlagText(f.present)), Some(FlagText(f.verified)), Some(FlagText(f.visible))]
  }

  ghost predicate Reads(t: Text, n: nat) { IsDecimal(t) && DecimalValue(t) == n }

  /** Decimal notation, with a minus sign in front of a negative number. */
  ghost predicate ReadsInteger(t: Text, n: int) {
    if n >= 0 then Reads(t, n) else t != [] && t[0] == MINUS && Reads(t[1..], -n)
  }

  lemma ReadsExactly(t: Text, n: nat)
    ensures Reads(t, n) <==> t == Decimal(n)
  {
    DecimalRoundTrip(n);
    if Reads(t, n) { DecimalCanonical(t); }
  }

  lemma IntTextExactly(t: Text, n: int)
    ensures ReadsInteger(t, n) <==> t == IntText(n)
  {
    hide Decimal, Reads;
    if n >= 0 {
      ReadsExactly(t, n);
    } else {
      assert ([MINUS] + Decimal(-n))[1..] == Decimal(-n);
      ReadsExactly(Decimal(-n), -n);
      if ReadsInteger(t, n) {
        ReadsExactly(t[1..], -n);
        assert t == [MINUS] + t[1..];
      }
    }
  }

  /** The nine columns of a fact: its texts and nulls as they are, the element id in decimal notation, and 1 or 0. */
  ghost predicate IsFactRow(f: Fact, row: seq<Option<Text>>) {
    && |row| == 9 && row[0] == Some(f.uniqueId) && row[1].Some? && ReadsInteger(row[1].value, f.elementId)
    && row[2] == f.document && row[3] == f.category && row[4] == f.typeId && row[5] == f.state
    && row[6] == (if f.present then Some(['1' as CodeUnit]) else Some(['0' as CodeUnit]))
    && row[7] == (if f.verified then Some(['1' as CodeUnit]) else Some(['0' as CodeUnit]))
    && row[8] == (if f.visible then Some(['1' as CodeUnit]) else Some(['0' as CodeUnit]))
  }

  lemma ColumnsExactly(f: Fact, row: seq<Option<Text>>)
    ensures row == Columns(f) <==> IsFactRow(f, row)
  {
    hide IntText, ReadsInteger;
    IntTextExactly(IntText(f.elementId), f.elementId);
    if IsFactRow(f, row) {
      IntTextExactly(row[1].value, f.elementId);
      assert row == Columns(f);
    }
  }

  const BY_ID := (a: Fact, b: Fact) => TextLe(a.uniqueId, b.uniqueId)

  /** string.Join("\n", rows) */
  function Rows(facts: seq<Fact>): Text {
    if facts == [] then []
    else if |facts| == 1 then Join(Columns(facts[0]))
    else Join(Columns(facts[0])) + [NEWLINE] + Rows(facts[1..])
  }

  /** The text that TrustedFactsHash hashes. */
  function TrustedFactsText(facts: seq<Fact>): Text { DOMAIN + Rows(Sort(facts, BY_ID)) }

  predicate IsWellFormedFact(f: Fact) {
    && IsWellFormed(f.uniqueId) && IsWellFormedValue(f.document) && IsWellFormedValue(f.category)
    && IsWellFormedValue(f.typeId) && IsWellFormedValue(f.state)
  }

  lemma {:induction false} BasicIsWellFormed(t: Text)
    requires forall i :: 0 <= i < |t| ==> t[i] < 0xD800
    ensures IsWellFormed(t)
  {
    if t != [] { BasicIsWellFormed(t[1..]); }
  }

  lemma IntTextInjective(m: int, n: int)
    requires IntText(m) == IntText(n)
    ensures m == n
  {
    hide Decimal;
    if m < 0 && n < 0 {
      assert IntText(m)[1..] == Decimal(-m) && IntText(n)[1..] == Decimal(-n);
      DecimalInjective(-m, -n);
    } else if m >= 0 && n >= 0 {
      DecimalInjective(m, n);
    } else {
      IntTextSign(m);
      IntTextSign(n);
    }
  }

  lemma IntTextSign(n: int)
    ensures IntText(n) != [] && (IntText(n)[0] == MINUS <==> n < 0)
  {
    hide Decimal;
  }

  lemma IntTextWellFormed(n: int)
    ensures IsWellFormed(IntText(n))
  {
    hide Decimal;
    BasicIsWellFormed(IntText(n));
  }

  lemma ColumnsWellFormed(f: Fact)
    requires IsWellFormedFact(f)
    ensures AreWellFormed(Columns(f))
  {
    hide IntText;
    IntTextWellFormed(f.elementId);
    BasicIsWellFormed(FlagText(f.present));
    BasicIsWellFormed(FlagText(f.verified));
    BasicIsWellFormed(FlagText(f.visible));
  }

  lemma ColumnsInjective(a: Fact, b: Fact)
    requires Columns(a) == Columns(b)
    ensures a == b
  {
    hide IntText;
    var x, y := Columns(a), Columns(b);
    assert x[0] == y[0] && x[1] == y[1] && x[2] == y[2] && x[3] == y[3] && x[4] == y[4] && x[5] == y[5] && x[6] == y[6]
      && x[7] == y[7] && x[8] == y[8];
    IntTextInjective(a.elementId, b.elementId);
    assert a.present == b.present && a.verified == b.verified && a.visible == b.visible;
  }

  /** Equally many lines in front are the same lines, whatever follows. */
  lemma {:induction false} SameFront(a: seq<Option<Text>>, b: seq<Option<Text>>, restA: Text, restB: Text)
    requires |a| == |b| && AreWellFormed(a) && AreWellFormed(b) && Join(a) + restA == Join(b) + restB
    ensures a == b && restA == restB
  {
    hide Line, IsWellFormedValue, IsLine;
    if a == [] {
      assert Join(a) + restA == restA && Join(b) + restB == restB;
    } else {
      LineIsLine(a[0]);
      LineIsLine(b[0]);
      Assoc(Line(a[0]), Join(a[1..]), restA);
      Assoc(Line(b[0]), Join(b[1..]), restB);
      FirstLine(Line(a[0]), Line(b[0]), Join(a[1..]) + restA, Join(b[1..]) + restB);
      LineInjective(a[0], b[0]);
      SameFront(a[1..], b[1..], restA, restB);
      assert a == [a[0]] + a[1..] && b == [b[0]] + b[1..];
    }
  }

  /** The rows as a first row and what follows it. */
  function RestOfRows(facts: seq<Fact>): Text
    requires facts != []
  {
    if |facts| == 1 then [] else [NEWLINE] + Rows(facts[1..])
  }

  lemma RowsSplit(facts: seq<Fact>)
    requires facts != []
    ensures Rows(facts) == Join(Columns(facts[0])) + RestOfRows(facts) && |Rows(facts)| > 0
  {
    hide Columns, Line;
    var first := Columns(facts[0]);
    LineIsLine(first[0]);
    if |facts| == 1 {
      assert Join(first) + [] == Join(first);
    } else {
      Assoc(Join(first), [NEWLINE], Rows(facts[1..]));
    }
  }

  /** What the text keeps of a fact: its columns with lone surrogates replaced. */
  function Shape(f: Fact): seq<Option<Text>> { ScrubAll(Columns(f)) }

  function Shapes(facts: seq<Fact>): (r: seq<seq<Option<Text>>>)
    ensures |r| == |facts| && forall i :: 0 <= i < |r| ==> r[i] == Shape(facts[i])
  {
    seq(|facts|, i requires 0 <= i < |facts| => Shape(facts[i]))
  }

  /** Equal rows are rows of facts with equal shapes. */
  lemma {:induction false} RowsExact(a: seq<Fact>, b: seq<Fact>)
    ensures Rows(a) == Rows(b) <==> Shapes(a) == Shapes(b)
  {
    hide Shape, Rows, RestOfRows;
    NoRows();
    if a == [] {
      if b != [] { RowsSplit(b); }
    } else if b == [] {
      RowsSplit(a);
    } else {
      RowsExact(a[1..], b[1..]);
      FirstShape(a, b);
      assert Shapes(a) == [Shape(a[0])] + Shapes(a[1..]) && Shapes(b) == [Shape(b[0])] + Shapes(b[1..]);
      if Shapes(a) == Shapes(b) { SameShapesRest(a, b); }
    }
  }

  lemma NoRows()
    ensures Rows([]) == []
  {
  }

  lemma FirstShape(a: seq<Fact>, b: seq<Fact>)
    requires a != [] && b != []
    ensures Rows(a) == Rows(b) <==> Shape(a[0]) == Shape(b[0]) && RestOfRows(a) == RestOfRows(b)
    ensures Rows(a) == Rows(b) ==> Rows(a[1..]) == Rows(b[1..])
  {
    hide Columns, Join, ScrubAll, AreWellFormed, Rows, RestOfRows;
    RowsSplit(a);
    RowsSplit(b);
    JoinScrubbed(Columns(a[0]));
    JoinScrubbed(Columns(b[0]));
    ScrubKeepsLength(Columns(a[0]));
    ScrubKeepsLength(Columns(b[0]));
    if Rows(a) == Rows(b) {
      SameFront(Shape(a[0]), Shape(b[0]), RestOfRows(a), RestOfRows(b));
      SameRest(a, b);
    }
  }

  lemma ScrubKeepsLength(values: seq<Option<Text>>)
    ensures |ScrubAll(values)| == |values|
  {
  }

  lemma SameShapesRest(a: seq<Fact>, b: seq<Fact>)
    requires a != [] && b != [] && Shapes(a) == Shapes(b)
      && (Shapes(a[1..]) == Shapes(b[1..]) ==> Rows(a[1..]) == Rows(b[1..]))
    ensures Shape(a[0]) == Shape(b[0]) && RestOfRows(a) == RestOfRows(b)
  {
    hide Shape, Rows;
    assert Shapes(a)[0] == Shapes(b)[0] && Shapes(a)[1..] == Shapes(a[1..]) && Shapes(b)[1..] == Shapes(b[1..]);
  }

  /** Well-formed facts have no shape but their own. */
  lemma ShapeInjective(a: Fact, b: Fact)
    requires IsWellFormedFact(a) && IsWellFormedFact(b) && Shape(a) == Shape(b)
    ensures a == b
  {
    hide Columns, IsWellFormedFact;
    ColumnsWellFormed(a);
    ColumnsWellFormed(b);
    ScrubWellFormed(Columns(a));
    ScrubWellFormed(Columns(b));
    ColumnsInjective(a, b);
  }

  lemma ScrubWellFormed(values: seq<Option<Text>>)
    requires AreWellFormed(values)
    ensures ScrubAll(values) == values
  {
    hide Scrub, IsWellFormed;
    forall i | 0 <= i < |values| ensures ScrubAll(values)[i] == values[i] {
      assert IsWellFormedValue(values[i]);
      if values[i].Some? { ScrubIsIdentity(values[i].value); }
    }
  }

  lemma SameRest(a: seq<Fact>, b: seq<Fact>)
    requires a != [] && b != [] && RestOfRows(a) == RestOfRows(b)
    ensures Rows(a[1..]) == Rows(b[1..])
  {
    hide Columns, Join;
    if |a| > 1 && |b| > 1 {
      assert RestOfRows(a)[1..] == Rows(a[1..]) && RestOfRows(b)[1..] == Rows(b[1..]);
    }
  }

  lemma ByIdTotal()
    ensures TotalPreorder(BY_ID)
  {
    hide TextLe;
    forall a: Fact, b: Fact ensures BY_ID(a, b) || BY_ID(b, a) { TextLeTotal(a.uniqueId, b.uniqueId); }
    forall a: Fact, b: Fact, c: Fact | BY_ID(a, b) && BY_ID(b, c) ensures BY_ID(a, c) {
      TextLeTransitive(a.uniqueId, b.uniqueId, c.uniqueId);
    }
  }

  ghost predicate AreWellFormedFacts(facts: seq<Fact>) { forall f :: f in facts ==> IsWellFormedFact(f) }

  /** For any facts: the hashed texts agree if and only if the sorted facts do, once lone surrogates are replaced. */
  lemma TrustedFactsTextExact(a: seq<Fact>, b: seq<Fact>)
    ensures TrustedFactsText(a) == TrustedFactsText(b) <==> Shapes(Sort(a, BY_ID)) == Shapes(Sort(b, BY_ID))
  {
    hide Rows, Sort, DOMAIN, Shapes;
    var x, y := Sort(a, BY_ID), Sort(b, BY_ID);
    RowsExact(x, y);
    Split(DOMAIN, Rows(x));
    Split(DOMAIN, Rows(y));
  }

  /** The hashed text determines well-formed facts up to the order they are sorted into. */
  lemma TrustedFactsTextInjective(a: seq<Fact>, b: seq<Fact>)
    requires AreWellFormedFacts(a) && AreWellFormedFacts(b)
    ensures TrustedFactsText(a) == TrustedFactsText(b) <==> Sort(a, BY_ID) == Sort(b, BY_ID)
  {
    hide TrustedFactsText, IsWellFormedFact, Sort, Shape;
    var x, y := Sort(a, BY_ID), Sort(b, BY_ID);
    SameMembers(a, x);
    SameMembers(b, y);
    TrustedFactsTextExact(a, b);
    if Shapes(x) == Shapes(y) {
      assert |x| == |Shapes(x)| == |y|;
      forall i | 0 <= i < |x| ensures x[i] == y[i] {
        assert Shapes(x)[i] == Shapes(y)[i] && x[i] in x && y[i] in y;
        ShapeInjective(x[i], y[i]);
      }
    }
  }

  /** Facts that share an id are the same fact. */
  ghost predicate SharesOnlyEquals(facts: seq<Fact>) {
    forall x, y :: x in facts && y in facts && x.uniqueId == y.uniqueId ==> x == y
  }

  ghost predicate HasDistinctIds(facts: seq<Fact>) {
    forall i, j :: 0 <= i < j < |facts| ==> facts[i].uniqueId != facts[j].uniqueId
  }

  lemma DistinctShareNothing(facts: seq<Fact>)
    requires HasDistinctIds(facts)
    ensures SharesOnlyEquals(facts)
  {
    forall x, y | x in facts && y in facts && x.uniqueId == y.uniqueId ensures x == y {
      var i :| 0 <= i < |facts| && facts[i] == x;
      var j :| 0 <= j < |facts| && facts[j] == y;
      assert i == j;
    }
  }

  lemma EqualsHaveNoTies(facts: seq<Fact>, sorted: seq<Fact>)
    requires SharesOnlyEquals(facts) && multiset(facts) == multiset(sorted)
    ensures NoTies(sorted, BY_ID)
  {
    hide TextLe;
    SameMembers(facts, sorted);
    forall x, y | x in sorted && y in sorted && BY_ID(x, y) && BY_ID(y, x) ensures x == y {
      TextLeAntisymmetric(x.uniqueId, y.uniqueId);
      assert x in facts && y in facts;
    }
  }

  /** The text depends on the order of the facts in no way. */
  ghost predicate IsOrderIndependent(facts: seq<Fact>) {
    forall others :: multiset(others) == multiset(facts) ==> TrustedFactsText(others) == TrustedFactsText(facts)
  }

  /** When facts that share an id are equal, the hashed texts agree exactly when the facts do, in whatever
      order they come. */
  lemma TrustedFactsAgree(a: seq<Fact>, b: seq<Fact>)
    requires AreWellFormedFacts(a) && AreWellFormedFacts(b) && SharesOnlyEquals(a)
    ensures TrustedFactsText(a) == TrustedFactsText(b) <==> multiset(a) == multiset(b)
  {
    hide TrustedFactsText, Sort, IsWellFormedFact;
    TrustedFactsTextInjective(a, b);
    if multiset(a) == multiset(b) {
      ByIdTotal();
      SortSorted(a, BY_ID);
      SortSorted(b, BY_ID);
      EqualsHaveNoTies(a, Sort(a, BY_ID));
      SortedUnique(Sort(a, BY_ID), Sort(b, BY_ID), BY_ID);
    }
  }

  /** The same for facts with distinct ids, which is what the program collects. */
  lemma TrustedFactsOrderIndependent(a: seq<Fact>, b: seq<Fact>)
    requires AreWellFormedFacts(a) && AreWellFormedFacts(b) && HasDistinctIds(a)
    ensures TrustedFactsText(a) == TrustedFactsText(b) <==> multiset(a) == multiset(b)
  {
    hide TrustedFactsText, AreWellFormedFacts;
    DistinctShareNothing(a);
    TrustedFactsAgree(a, b);
  }

  function WithId(id: Text): Fact -> bool { (f: Fact) => f.uniqueId == id }

  /** The sort keeps facts that share an id in their input order. */
  lemma SharedIdsStay(facts: seq<Fact>, id: Text)
    ensures Filter(Sort(facts, BY_ID), WithId(id)) == Filter(facts, WithId(id))
  {
    hide TextLe, Sort, Filter;
    ByIdTotal();
    FilterSort(facts, BY_ID, WithId(id));
    FilterMembers(facts, WithId(id));
    var kept := Filter(facts, WithId(id));
    forall i, j | 0 <= i < j < |kept| ensures BY_ID(kept[i], kept[j]) {
      assert kept[i] in kept && kept[j] in kept;
      TextLeTotal(id, id);
    }
    SortedIsSort(kept, BY_ID);
  }

  lemma FrontFilter(x: Fact, y: Fact, rest: seq<Fact>)
    requires x.uniqueId == y.uniqueId && Shape(x) != Shape(y)
    ensures Shapes(Filter([x, y] + rest, WithId(x.uniqueId))) != Shapes(Filter([y, x] + rest, WithId(x.uniqueId)))
  {
    hide Shape;
    var keep := WithId(x.uniqueId);
    FilterConcat([x, y], rest, keep);
    FilterConcat([y, x], rest, keep);
    assert [x, y][1..] == [y] && [y, x][1..] == [x] && [x][1..] == [] && [y][1..] == [];
    assert Filter([x, y], keep) == [x] + ([y] + []) && Filter([y, x], keep) == [y] + ([x] + []);
    var one, two := Filter([x, y] + rest, keep), Filter([y, x] + rest, keep);
    assert one[0] == x && two[0] == y;
    assert Shapes(one)[0] != Shapes(two)[0];
  }

  lemma TakeOne(facts: seq<Fact>, x: Fact) returns (rest: seq<Fact>)
    requires x in facts
    ensures multiset(facts) == multiset(rest) + multiset{x}
  {
    var i :| 0 <= i < |facts| && facts[i] == x;
    rest := facts[..i] + facts[i + 1..];
    assert facts == facts[..i] + [x] + facts[i + 1..];
  }

  lemma TakeOut(facts: seq<Fact>, x: Fact, y: Fact) returns (rest: seq<Fact>)
    requires x in facts && y in facts && x != y
    ensures multiset([x, y] + rest) == multiset(facts) && multiset([y, x] + rest) == multiset(facts)
  {
    var others := TakeOne(facts, x);
    assert y in multiset(facts) && y in multiset(others);
    rest := TakeOne(others, y);
    assert multiset([x, y]) == multiset([y, x]) == multiset{x} + multiset{y};
  }

  /** Facts that share an id look alike in the text. */
  ghost predicate SharesOnlyAlike(facts: seq<Fact>) {
    forall x, y :: x in facts && y in facts && x.uniqueId == y.uniqueId ==> Shape(x) == Shape(y)
  }

  function Ids(facts: seq<Fact>): (r: seq<Text>)
    ensures |r| == |facts| && forall i :: 0 <= i < |r| ==> r[i] == facts[i].uniqueId
  {
    seq(|facts|, i requires 0 <= i < |facts| => facts[i].uniqueId)
  }

  const BY_TEXT := (a: Text, b: Text) => TextLe(a, b)

  lemma ByTextTotal()
    ensures TotalPreorder(BY_TEXT)
  {
    hide TextLe;
    forall a: Text, b: Text ensures BY_TEXT(a, b) || BY_TEXT(b, a) { TextLeTotal(a, b); }
    forall a: Text, b: Text, c: Text | BY_TEXT(a, b) && BY_TEXT(b, c)
      ensures BY_TEXT(a, c)
    {
      TextLeTransitive(a, b, c);
    }
  }

  lemma IdsConcat(a: seq<Fact>, b: seq<Fact>)
    ensures Ids(a + b) == Ids(a) + Ids(b)
  {
  }

  lemma PickFact(facts: seq<Fact>, x: Fact) returns (front: seq<Fact>, back: seq<Fact>)
    requires x in multiset(facts)
    ensures facts == front + [x] + back && multiset(front + back) == multiset(facts) - multiset{x}
  {
    assert x in facts;
    var i :| 0 <= i < |facts| && facts[i] == x;
    front, back := facts[..i], facts[i + 1..];
    assert facts == front + [x] + back;
  }

  lemma RestOfFacts(facts: seq<Fact>)
    requires facts != []
    ensures facts[0] in multiset(facts) && multiset(facts[1..]) == multiset(facts) - multiset{facts[0]}
    ensures facts == [facts[0]] + facts[1..]
  {
    assert facts == [facts[0]] + facts[1..];
  }

  lemma {:induction false} IdsMultiset(a: seq<Fact>, b: seq<Fact>)
    requires multiset(a) == multiset(b)
    ensures multiset(Ids(a)) == multiset(Ids(b))
    decreases |a|
  {
    hide Ids;
    if a == [] {
      assert |multiset(b)| == 0 && b == [];
    } else {
      var x := a[0];
      RestOfFacts(a);
      var front, back := PickFact(b, x);
      IdsMultiset(a[1..], front + back);
      IdsConcat([x], a[1..]);
      IdsConcat(front, back);
      IdsConcat(front + [x], back);
      IdsConcat(front, [x]);
      IdsPut(Ids([x]), Ids(a[1..]), Ids(front), Ids(back));
    }
  }

  lemma IdsPut(one: seq<Text>, others: seq<Text>, front: seq<Text>, back: seq<Text>)
    requires multiset(others) == multiset(front + back)
    ensures multiset(one + others) == multiset(front + one + back)
  {
  }

  /** Sorted by id, the same facts have the same ids in the same places. */
  lemma SortedIds(a: seq<Fact>, b: seq<Fact>)
    requires multiset(a) == multiset(b)
    ensures Ids(Sort(a, BY_ID)) == Ids(Sort(b, BY_ID))
  {
    hide TextLe, Sort;
    var x, y := Sort(a, BY_ID), Sort(b, BY_ID);
    ByIdTotal();
    ByTextTotal();
    SortSorted(a, BY_ID);
    SortSorted(b, BY_ID);
    IdsMultiset(x, y);
    forall i, j | 0 <= i < j < |x| ensures BY_TEXT(Ids(x)[i], Ids(x)[j]) { assert BY_ID(x[i], x[j]); }
    forall i, j | 0 <= i < j < |y| ensures BY_TEXT(Ids(y)[i], Ids(y)[j]) { assert BY_ID(y[i], y[j]); }
    forall s, t | BY_TEXT(s, t) && BY_TEXT(t, s) ensures s == t { TextLeAntisymmetric(s, t); }
    SortedUnique(Ids(x), Ids(y), BY_TEXT);
  }

  /** Facts in the same places look alike if those with equal ids do. */
  lemma AlikeInPlace(facts: seq<Fact>, x: seq<Fact>, y: seq<Fact>)
    requires SharesOnlyAlike(facts) && multiset(x) == multiset(facts) == multiset(y) && Ids(x) == Ids(y)
    ensures Shapes(x) == Shapes(y)
  {
    hide Shape;
    SameMembers(x, facts);
    SameMembers(y, facts);
    assert |x| == |Ids(x)| == |y|;
    forall i | 0 <= i < |x| ensures Shapes(x)[i] == Shapes(y)[i] {
      assert Ids(x)[i] == Ids(y)[i] && x[i] in facts && y[i] in facts;
    }
  }

  /** The shapes of the facts with one id, in order. */
  lemma {:induction false} FilterShapes(x: seq<Fact>, y: seq<Fact>, id: Text)
    requires Ids(x) == Ids(y) && Shapes(x) == Shapes(y)
    ensures Shapes(Filter(x, WithId(id))) == Shapes(Filter(y, WithId(id)))
    decreases |x|
  {
    hide Shape;
    assert |x| == |Ids(x)| == |y|;
    if x != [] {
      assert Ids(x)[0] == Ids(y)[0] && Shapes(x)[0] == Shapes(y)[0];
      assert Ids(x[1..]) == Ids(x)[1..] == Ids(y[1..]) && Shapes(x[1..]) == Shapes(x)[1..] == Shapes(y[1..]);
      FilterShapes(x[1..], y[1..], id);
      var restX, restY := Filter(x[1..], WithId(id)), Filter(y[1..], WithId(id));
      if x[0].uniqueId == id {
        ShapesCons(x[0], restX);
        ShapesCons(y[0], restY);
      }
      assert [] + restX == restX && [] + restY == restY;
    }
  }

  lemma ShapesCons(f: Fact, rest: seq<Fact>)
    ensures Shapes([f] + rest) == [Shape(f)] + Shapes(rest)
  {
    hide Shape;
  }

  /** For any facts: the text is independent of their order if and only if facts that share an id look alike in it. */
  lemma OrderIndependentExactly(facts: seq<Fact>)
    ensures IsOrderIndependent(facts) <==> SharesOnlyAlike(facts)
  {
    hide TrustedFactsText, Sort, Filter, Shape, Shapes;
    if SharesOnlyAlike(facts) {
      ByIdTotal();
      forall others | multiset(others) == multiset(facts) ensures TrustedFactsText(others) == TrustedFactsText(facts) {
        SortSorted(others, BY_ID);
        SortSorted(facts, BY_ID);
        SortedIds(others, facts);
        AlikeInPlace(facts, Sort(others, BY_ID), Sort(facts, BY_ID));
        TrustedFactsTextExact(others, facts);
      }
    } else {
      var x, y :| x in facts && y in facts && x.uniqueId == y.uniqueId && Shape(x) != Shape(y);
      var rest := TakeOut(facts, x, y);
      SharedIdsKeepOrder(x, y, rest);
      assert TrustedFactsText([x, y] + rest) != TrustedFactsText([y, x] + rest);
    }
  }

  /** Facts that share an id and do not look alike can be swapped, and the text tells. */
  lemma SharedIdsKeepOrder(x: Fact, y: Fact, rest: seq<Fact>)
    requires x.uniqueId == y.uniqueId && Shape(x) != Shape(y)
    ensures TrustedFactsText([x, y] + rest) != TrustedFactsText([y, x] + rest)
  {
    hide TrustedFactsText, Sort, Filter, Shape, Shapes;
    var one, two := [x, y] + rest, [y, x] + rest;
    assert multiset(one) == multiset([x, y]) + multiset(rest) && multiset(two) == multiset([y, x]) + multiset(rest);
    assert multiset([x, y]) == multiset{x, y} == multiset([y, x]);
    TrustedFactsTextExact(one, two);
    SortedIds(one, two);
    SharedIdsStay(one, x.uniqueId);
    SharedIdsStay(two, x.uniqueId);
    if Shapes(Sort(one, BY_ID)) == Shapes(Sort(two, BY_ID)) {
      FilterShapes(Sort(one, BY_ID), Sort(two, BY_ID), x.uniqueId);
      FrontFilter(x, y, rest);
    }
  }

  /** The same for the hash itself, as far as it does not collide on the two texts. */
  lemma TrustedFactsHashAgrees(sha: Text -> Text, a: seq<Fact>, b: seq<Fact>)
    requires AreWellFormedFacts(a) && AreWellFormedFacts(b) && SharesOnlyEquals(a)
    requires sha(TrustedFactsText(a)) == sha(TrustedFactsText(b)) ==> TrustedFactsText(a) == TrustedFactsText(b)
    ensures sha(TrustedFactsText(a)) == sha(TrustedFactsText(b)) <==> multiset(a) == multiset(b)
  {
    hide TrustedFactsText;
    TrustedFactsAgree(a, b);
  }
}
