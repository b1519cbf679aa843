/**
 The two canonical JSON printers of the repository. The completion outbox sorts the keys of every
 object by code unit. The payload digest does the same but rebuilds each object first, and an
 object always enumerates array-index keys first and numerically.
 */
module CanonicalJson {
  import opened Outcomes
  import opened Texts
  import opened Decimals
  import opened Sorting
  import opened JsonText

  /** The order in which a printer lays out the members of an object. */
  datatype Layout = Ordinal | Enumeration

  const MAXIMUM_INDEX := 4294967294

  predicate IsArrayIndex(k: Text) {
    IsDecimal(k) && DecimalValue(k) <= MAXIMUM_INDEX
  }

  /** The keys that an object enumerates first: the decimal texts of the numbers below 2^32 - 1. */
  lemma ArrayIndexExactly(k: Text)
    ensures IsArrayIndex(k) <==> exists n: nat :: n < 4294967295 && k == Decimal(n)
  {
    hide Decimal, DecimalValue;
    if IsArrayIndex(k) { DecimalCanonical(k); }
    if n: nat :| n < 4294967295 && k == Decimal(n) {
      DecimalIsDecimal(n);
      DecimalRoundTrip(n);
    }
  }

  lemma DecimalIsDecimal(n: nat)
    ensures IsDecimal(Decimal(n))
  {
  }

  predicate KeyLe(l: Layout, a: Text, b: Text) {
    match l
    case Ordinal => TextLe(a, b)
    case Enumeration =>
      if IsArrayIndex(a) && IsArrayIndex(b) then DecimalValue(a) <= DecimalValue(b)
      else if IsArrayIndex(a) || IsArrayIndex(b) then IsArrayIndex(a)
      else TextLe(a, b)
  }

  function MemberLe(l: Layout): (Member, Member) -> bool {
    (a: Member, b: Member) => KeyLe(l, a.key, b.key)
  }

  /** The value with the members of every object laid out in order. */
  function Normal(l: Layout, v: Json): Json {
    match v
    case Arr(items) => Arr(seq(|items|, i requires 0 <= i < |items| => Normal(l, items[i])))
    case Obj(ms) => Obj(Sort(NormalValues(l, ms), MemberLe(l)))
    case _ => v
  }

  function NormalValues(l: Layout, ms: seq<Member>): (r: seq<Member>)
    ensures |r| == |ms|
    ensures forall i :: 0 <= i < |ms| ==> r[i] == Member(ms[i].key, Normal(l, ms[i].value))
  {
    seq(|ms|, i requires 0 <= i < |ms| => Member(ms[i].key, Normal(l, ms[i].value)))
  }

  // ---- completion-outbox.js: canonical ----

  function Canonical(v: Json): Text
    requires IsJson(v)
    decreases v, 0
  {
    match v
    case Arr(items) => [OPEN_BRACKET] + CanonicalItems(items) + [CLOSE_BRACKET]
    case Obj(ms) =>
      var keys := Sort(Keys(ms), TextLe);
      SameMembers(keys, Keys(ms));
      [OPEN_BRACE] + CanonicalMembers(keys, ms) + [CLOSE_BRACE]
    case _ => Print(v)
  }

  function CanonicalItems(items: seq<Json>): Text
    requires forall i :: 0 <= i < |items| ==> IsJson(items[i])
    decreases items, 1, |items|
  {
    if items == [] then []
    else if |items| == 1 then Canonical(items[0])
    else Canonical(items[0]) + [COMMA] + CanonicalItems(items[1..])
  }

  function CanonicalMember(key: Text, ms: seq<Member>): Text
    requires forall i :: 0 <= i < |ms| ==> IsJson(ms[i].value)
    requires key in Keys(ms)
    decreases ms, 0
  {
    QuoteText(key) + [COLON] + Canonical(Find(ms, key).value)
  }

  function CanonicalMembers(keys: seq<Text>, ms: seq<Member>): Text
    requires forall i :: 0 <= i < |ms| ==> IsJson(ms[i].value)
    requires forall i :: 0 <= i < |keys| ==> keys[i] in Keys(ms)
    decreases ms, 1, |keys|
  {
    if keys == [] then []
    else if |keys| == 1 then CanonicalMember(keys[0], ms)
    else CanonicalMember(keys[0], ms) + [COMMA] + CanonicalMembers(keys[1..], ms)
  }

  // ---- payload-digest-v2: canonicalValue and canonicalPayloadJsonV2 ----

  function IndexMembers(ms: seq<Member>): seq<Member> {
    if ms == [] then []
    else (if IsArrayIndex(ms[0].key) then [ms[0]] else []) + IndexMembers(ms[1..])
  }

  function NamedMembers(ms: seq<Member>): seq<Member> {
    if ms == [] then []
    else (if IsArrayIndex(ms[0].key) then [] else [ms[0]]) + NamedMembers(ms[1..])
  }

  /** Object.fromEntries: how the rebuilt object enumerates. */
  function FromEntries(ms: seq<Member>): seq<Member> {
    Sort(IndexMembers(ms), MemberLe(Enumeration)) + NamedMembers(ms)
  }

  function CanonicalValue(v: Json): Json {
    match v
    case Arr(items) => Arr(seq(|items|, i requires 0 <= i < |items| => CanonicalValue(items[i])))
    case Obj(ms) => Obj(FromEntries(Sort(CanonicalValues(ms), MemberLe(Ordinal))))
    case _ => v
  }

  function CanonicalValues(ms: seq<Member>): (r: seq<Member>)
    ensures |r| == |ms|
    ensures forall i :: 0 <= i < |ms| ==> r[i] == Member(ms[i].key, CanonicalValue(ms[i].value))
  {
    seq(|ms|, i requires 0 <= i < |ms| => Member(ms[i].key, CanonicalValue(ms[i].value)))
  }

  function CanonicalPayload(v: Json): Text
    requires IsJson(v)
  {
    CanonicalValueIsNormal(v);
    NormalIsJson(Enumeration, v);
    Print(CanonicalValue(v))
  }

  // ---- Key orders ----

  lemma KeyLeTotal(l: Layout, a: Text, b: Text)
    ensures KeyLe(l, a, b) || KeyLe(l, b, a)
  {
    TextLeTotal(a, b);
  }

  lemma KeyLeTransitive(l: Layout, a: Text, b: Text, c: Text)
    requires KeyLe(l, a, b) && KeyLe(l, b, c)
    ensures KeyLe(l, a, c)
  {
    if l.Ordinal? || (!IsArrayIndex(a) && !IsArrayIndex(b)) { TextLeTransitive(a, b, c); }
  }

  lemma KeyLeAntisymmetric(l: Layout, a: Text, b: Text)
    requires KeyLe(l, a, b) && KeyLe(l, b, a)
    ensures a == b
  {
    if l.Enumeration? && IsArrayIndex(a) && IsArrayIndex(b) {
      DecimalCanonical(a);
      DecimalCanonical(b);
    } else {
      TextLeAntisymmetric(a, b);
    }
  }

  lemma MemberLePreorder(l: Layout)
    ensures TotalPreorder(MemberLe(l))
  {
    var le := MemberLe(l);
    forall a, b ensures le(a, b) || le(b, a) { KeyLeTotal(l, a.key, b.key); }
    forall a, b, c | le(a, b) && le(b, c) ensures le(a, c) { KeyLeTransitive(l, a.key, b.key, c.key); }
  }

  /** Members with different keys never tie. */
  lemma MembersDoNotTie(l: Layout, ms: seq<Member>)
    requires DistinctKeys(ms)
    ensures NoTies(ms, MemberLe(l)) && Distinct(ms)
  {
    forall x, y | x in ms && y in ms && MemberLe(l)(x, y) && MemberLe(l)(y, x) ensures x == y {
      KeyLeAntisymmetric(l, x.key, y.key);
    }
  }

  lemma DistinctKeysMultiset(a: seq<Member>, b: seq<Member>)
    requires DistinctKeys(a) && multiset(a) == multiset(b)
    ensures DistinctKeys(b)
  {
    SameMembers(a, b);
    MembersDoNotTie(Ordinal, a);
    DistinctMultiset(a, b);
    forall i, j | 0 <= i < j < |b| ensures b[i].key != b[j].key {
      assert b[i] in a && b[j] in a && b[i] != b[j];
    }
  }

  // ---- Normal forms ----

  lemma {:induction false} NormalIsJson(l: Layout, v: Json)
    requires IsJson(v)
    ensures IsJson(Normal(l, v))
  {
    match v
    case Arr(items) =>
      forall i | 0 <= i < |items| ensures IsJson(Normal(l, items[i])) { NormalIsJson(l, items[i]); }
    case Obj(ms) =>
      var values := NormalValues(l, ms);
      var sorted := Sort(values, MemberLe(l));
      DistinctKeysMultiset(values, sorted);
      forall i | 0 <= i < |ms| ensures IsJson(values[i].value) { NormalIsJson(l, ms[i].value); }
      SameMembers(values, sorted);
      forall i | 0 <= i < |sorted| ensures IsJson(sorted[i].value) {
        assert sorted[i] in values;
      }
    case _ =>
  }

  /** Any sorted arrangement of the normalised members is the normal form's. */
  lemma NormalMembersUnique(l: Layout, ms: seq<Member>, r: seq<Member>)
    requires DistinctKeys(ms) && multiset(r) == multiset(ms) && SortedBy(r, MemberLe(l))
    ensures r == Sort(ms, MemberLe(l))
  {
    MemberLePreorder(l);
    SortSorted(ms, MemberLe(l));
    MembersDoNotTie(l, ms);
    SameMembers(r, ms);
    SortedUnique(r, Sort(ms, MemberLe(l)), MemberLe(l));
  }

  /** Equal up to the order of object members. */
  ghost predicate SameJson(a: Json, b: Json)
    decreases a
  {
    match a
    case Arr(items) =>
      b.Arr? && |items| == |b.items| && forall i :: 0 <= i < |items| ==> SameJson(items[i], b.items[i])
    case Obj(ms) =>
      b.Obj? && |ms| == |b.members| && forall i :: 0 <= i < |ms| ==> HasSameMember(ms[i], b.members)
    case _ => a == b
  }

  ghost predicate HasSameMember(m: Member, ms: seq<Member>)
    decreases m
  {
    exists j :: 0 <= j < |ms| && ms[j].key == m.key && SameJson(m.value, ms[j].value)
  }

  lemma {:induction false} SameJsonHasSameNormal(l: Layout, a: Json, b: Json)
    requires IsJson(a) && IsJson(b) && SameJson(a, b)
    ensures Normal(l, a) == Normal(l, b)
  {
    match a
    case Arr(items) =>
      forall i | 0 <= i < |items| ensures Normal(l, items[i]) == Normal(l, b.items[i]) {
        SameJsonHasSameNormal(l, items[i], b.items[i]);
      }
    case Obj(ms) =>
      var x, y := NormalValues(l, ms), NormalValues(l, b.members);
      forall i | 0 <= i < |x| ensures x[i] in y {
        assert HasSameMember(ms[i], b.members);
        var j :| 0 <= j < |b.members| && b.members[j].key == ms[i].key && SameJson(ms[i].value, b.members[j].value);
        SameJsonHasSameNormal(l, ms[i].value, b.members[j].value);
        assert y[j] == x[i];
      }
      MembersDoNotTie(l, x);
      DistinctCover(x, y);
      MemberLePreorder(l);
      SortSorted(x, MemberLe(l));
      NormalMembersUnique(l, y, Sort(x, MemberLe(l)));
    case _ =>
  }

  lemma {:induction false} SameNormalIsSameJson(l: Layout, a: Json, b: Json)
    requires Normal(l, a) == Normal(l, b)
    ensures SameJson(a, b)
    decreases a, 1
  {
    match a
    case Arr(items) =>
      forall i | 0 <= i < |items| ensures SameJson(items[i], b.items[i]) {
        assert Normal(l, a).items[i] == Normal(l, b).items[i];
        SameNormalIsSameJson(l, items[i], b.items[i]);
      }
    case Obj(ms) =>
      SameNormalMembers(l, ms, b.members);
    case _ =>
  }

  lemma {:induction false} SameNormalMembers(l: Layout, a: seq<Member>, b: seq<Member>)
    requires Sort(NormalValues(l, a), MemberLe(l)) == Sort(NormalValues(l, b), MemberLe(l))
    ensures |a| == |b|
    ensures forall i :: 0 <= i < |a| ==> HasSameMember(a[i], b)
    decreases a, 0
  {
    assert |a| == |Sort(NormalValues(l, a), MemberLe(l))| == |b|;
    forall i | 0 <= i < |a| ensures HasSameMember(a[i], b) {
      var j := SameNormalMember(l, a, b, i);
      SameNormalIsSameJson(l, a[i].value, b[j].value);
    }
  }

  lemma SameNormalMember(l: Layout, a: seq<Member>, b: seq<Member>, i: nat) returns (j: nat)
    requires Sort(NormalValues(l, a), MemberLe(l)) == Sort(NormalValues(l, b), MemberLe(l)) && i < |a|
    ensures |a| == |b| && j < |b| && b[j].key == a[i].key && Normal(l, b[j].value) == Normal(l, a[i].value)
  {
    var x, y := NormalValues(l, a), NormalValues(l, b);
    assert multiset(x) == multiset(Sort(x, MemberLe(l))) == multiset(y);
    SameMembers(x, y);
    assert x[i] in y;
    j :| 0 <= j < |y| && y[j] == x[i];
  }

  // ---- The printers print normal forms ----

  lemma TextLePreorder()
    ensures TotalPreorder(TextLe)
  {
    forall a, b ensures TextLe(a, b) || TextLe(b, a) { TextLeTotal(a, b); }
    forall a, b, c | TextLe(a, b) && TextLe(b, c) ensures TextLe(a, c) { TextLeTransitive(a, b, c); }
  }

  lemma KeysMultiset(a: seq<Member>, b: seq<Member>)
    requires DistinctKeys(a) && multiset(a) == multiset(b)
    ensures multiset(Keys(a)) == multiset(Keys(b))
  {
    SameMembers(a, b);
    assert Distinct(Keys(a));
    forall i | 0 <= i < |a| ensures Keys(a)[i] in Keys(b) {
      assert a[i] in b;
      var j :| 0 <= j < |b| && b[j] == a[i];
      assert Keys(b)[j] == Keys(a)[i];
    }
    DistinctCover(Keys(a), Keys(b));
  }

  lemma SortedKeysOfNormal(ms: seq<Member>)
    requires DistinctKeys(ms)
    ensures Keys(Sort(ms, MemberLe(Ordinal))) == Sort(Keys(ms), TextLe)
  {
    var sorted := Sort(ms, MemberLe(Ordinal));
    MemberLePreorder(Ordinal);
    SortSorted(ms, MemberLe(Ordinal));
    TextLePreorder();
    SortSorted(Keys(ms), TextLe);
    forall i, j | 0 <= i < j < |sorted| ensures TextLe(Keys(sorted)[i], Keys(sorted)[j]) {
      assert MemberLe(Ordinal)(sorted[i], sorted[j]);
    }
    KeysMultiset(ms, sorted);
    forall x, y | TextLe(x, y) && TextLe(y, x) ensures x == y { TextLeAntisymmetric(x, y); }
    SortedUnique(Keys(sorted), Sort(Keys(ms), TextLe), TextLe);
  }

  lemma FindUnique(ms: seq<Member>, i: nat)
    requires DistinctKeys(ms) && i < |ms|
    ensures Keys(ms)[i] in Keys(ms) && Find(ms, ms[i].key) == Some(ms[i].value)
  {
    var v := Find(ms, Keys(ms)[i]).value;
    var j :| 0 <= j < |ms| && ms[j] == Member(ms[i].key, v);
  }

  /** Sorting keys and then looking values up prints the ordinal normal form. */
  lemma {:induction false} CanonicalPrintsNormal(v: Json)
    requires IsJson(v)
    ensures IsJson(Normal(Ordinal, v)) && Canonical(v) == Print(Normal(Ordinal, v))
    decreases v, 1
  {
    NormalIsJson(Ordinal, v);
    match v
    case Arr(items) =>
      CanonicalItemsPrint(items, Normal(Ordinal, v).items);
    case Obj(ms) =>
      var values := NormalValues(Ordinal, ms);
      var sorted := Sort(values, MemberLe(Ordinal));
      assert Keys(values) == Keys(ms);
      SortedKeysOfNormal(values);
      SameMembers(values, sorted);
      SameMembers(Keys(sorted), Keys(ms));
      CanonicalMembersPrint(ms, sorted);
    case _ =>
  }

  lemma {:induction false} CanonicalItemsPrint(items: seq<Json>, normal: seq<Json>)
    requires forall i :: 0 <= i < |items| ==> IsJson(items[i])
    requires |normal| == |items| && forall i :: 0 <= i < |items| ==>
      normal[i] == Normal(Ordinal, items[i]) && IsJson(normal[i])
    ensures CanonicalItems(items) == PrintItems(normal)
    decreases items, 1
  {
    if items != [] {
      CanonicalPrintsNormal(items[0]);
      CanonicalItemsPrint(items[1..], normal[1..]);
    }
  }

  lemma CanonicalMemberPrints(ms: seq<Member>, i: nat, m: Member)
    requires DistinctKeys(ms) && i < |ms| && forall j :: 0 <= j < |ms| ==> IsJson(ms[j].value)
    requires m == NormalValues(Ordinal, ms)[i] && IsJson(m.value)
    requires Canonical(ms[i].value) == Print(m.value)
    ensures m.key in Keys(ms) && CanonicalMember(m.key, ms) == PrintMember(m)
  {
    hide Canonical, Print, QuoteText, Normal, IsJson;
    FindUnique(ms, i);
  }

  lemma {:induction false} CanonicalMembersPrint(ms: seq<Member>, normal: seq<Member>)
    requires DistinctKeys(ms) && forall i :: 0 <= i < |ms| ==> IsJson(ms[i].value)
    requires forall i :: 0 <= i < |normal| ==> normal[i] in NormalValues(Ordinal, ms) && IsJson(normal[i].value)
    requires forall i :: 0 <= i < |normal| ==> Keys(normal)[i] in Keys(ms)
    ensures CanonicalMembers(Keys(normal), ms) == PrintMembers(normal)
    decreases ms, 1, |normal|
  {
    if normal != [] {
      var i :| 0 <= i < |ms| && NormalValues(Ordinal, ms)[i] == normal[0];
      CanonicalPrintsNormal(ms[i].value);
      hide Canonical, CanonicalMember, Print, PrintMember, NormalValues, Normal;
      CanonicalMemberPrints(ms, i, normal[0]);
      assert Keys(normal)[1..] == Keys(normal[1..]);
      CanonicalMembersPrint(ms, normal[1..]);
    }
  }

  lemma {:induction false} MembersPartition(ms: seq<Member>)
    ensures multiset(IndexMembers(ms)) + multiset(NamedMembers(ms)) == multiset(ms)
    ensures forall m :: m in IndexMembers(ms) ==> IsArrayIndex(m.key)
    ensures forall m :: m in NamedMembers(ms) ==> !IsArrayIndex(m.key)
  {
    if ms != [] {
      MembersPartition(ms[1..]);
      assert ms == [ms[0]] + ms[1..];
    }
  }

  lemma NamedMembersOf(ms: seq<Member>, m: Member)
    requires m in NamedMembers(ms)
    ensures m in ms && !IsArrayIndex(m.key)
  {
    MembersPartition(ms);
    assert m in multiset(NamedMembers(ms));
    assert m in multiset(ms);
  }

  lemma PrependSorted(m: Member, tail: seq<Member>)
    requires SortedBy(tail, MemberLe(Enumeration))
    requires forall x :: x in tail ==> MemberLe(Enumeration)(m, x)
    ensures SortedBy([m] + tail, MemberLe(Enumeration))
  {
    var r := [m] + tail;
    forall i, j | 0 <= i < j < |r| ensures MemberLe(Enumeration)(r[i], r[j]) {
      assert r[j] == tail[j - 1] && r[j] in tail;
      if i > 0 { assert r[i] == tail[i - 1]; }
    }
  }

  lemma {:induction false} NamedMembersSorted(ms: seq<Member>)
    requires SortedBy(ms, MemberLe(Ordinal))
    ensures SortedBy(NamedMembers(ms), MemberLe(Enumeration))
  {
    if ms != [] {
      var tail := NamedMembers(ms[1..]);
      NamedMembersSorted(ms[1..]);
      if !IsArrayIndex(ms[0].key) {
        forall m | m in tail ensures MemberLe(Enumeration)(ms[0], m) {
          NamedMembersOf(ms[1..], m);
          assert MemberLe(Ordinal)(ms[0], m);
        }
        PrependSorted(ms[0], tail);
      }
    }
  }

  /** Rebuilding an object from ordinally sorted entries puts it in enumeration order. */
  lemma FromEntriesSorts(ms: seq<Member>)
    requires DistinctKeys(ms)
    ensures FromEntries(Sort(ms, MemberLe(Ordinal))) == Sort(ms, MemberLe(Enumeration))
  {
    var sorted := Sort(ms, MemberLe(Ordinal));
    MemberLePreorder(Ordinal);
    MemberLePreorder(Enumeration);
    SortSorted(ms, MemberLe(Ordinal));
    MembersPartition(sorted);
    NamedMembersSorted(sorted);
    var indexed, named := Sort(IndexMembers(sorted), MemberLe(Enumeration)), NamedMembers(sorted);
    SortSorted(IndexMembers(sorted), MemberLe(Enumeration));
    SameMembers(indexed, IndexMembers(sorted));
    var r := indexed + named;
    forall i, j | 0 <= i < j < |r| ensures MemberLe(Enumeration)(r[i], r[j]) {
      if j < |indexed| {
      } else if i >= |indexed| {
        assert r[i] == named[i - |indexed|] && r[j] == named[j - |indexed|];
      } else {
        assert r[i] in indexed && r[j] in named;
      }
    }
    NormalMembersUnique(Enumeration, ms, r);
  }

  lemma {:induction false} CanonicalValueIsNormal(v: Json)
    requires IsJson(v)
    ensures CanonicalValue(v) == Normal(Enumeration, v)
  {
    match v
    case Arr(items) =>
      forall i | 0 <= i < |items| ensures CanonicalValue(items[i]) == Normal(Enumeration, items[i]) {
        CanonicalValueIsNormal(items[i]);
      }
    case Obj(ms) =>
      forall i | 0 <= i < |ms| ensures CanonicalValues(ms)[i] == NormalValues(Enumeration, ms)[i] {
        CanonicalValueIsNormal(ms[i].value);
      }
      assert CanonicalValues(ms) == NormalValues(Enumeration, ms);
      FromEntriesSorts(NormalValues(Enumeration, ms));
    case _ =>
  }

  // ---- Main results ----

  lemma NormalTextEquality(l: Layout, a: Json, b: Json)
    requires IsJson(a) && IsJson(b) && IsJson(Normal(l, a)) && IsJson(Normal(l, b))
    ensures Print(Normal(l, a)) == Print(Normal(l, b)) <==> SameJson(a, b)
  {
    if Print(Normal(l, a)) == Print(Normal(l, b)) {
      PrintInjective(Normal(l, a), Normal(l, b));
      SameNormalIsSameJson(l, a, b);
    }
    if SameJson(a, b) { SameJsonHasSameNormal(l, a, b); }
  }

  /** The outbox's canonical text identifies a value exactly up to member order. */
  lemma CanonicalEquality(a: Json, b: Json)
    requires IsJson(a) && IsJson(b)
    ensures Canonical(a) == Canonical(b) <==> SameJson(a, b)
  {
    CanonicalPrintsNormal(a);
    CanonicalPrintsNormal(b);
    NormalTextEquality(Ordinal, a, b);
  }

  /** So does the payload digest's. */
  lemma CanonicalPayloadEquality(a: Json, b: Json)
    requires IsJson(a) && IsJson(b)
    ensures CanonicalPayload(a) == CanonicalPayload(b) <==> SameJson(a, b)
  {
    CanonicalValueIsNormal(a);
    CanonicalValueIsNormal(b);
    NormalIsJson(Enumeration, a);
    NormalIsJson(Enumeration, b);
    NormalTextEquality(Enumeration, a, b);
  }

  lemma {:induction false} SameJsonReflexive(v: Json)
    ensures SameJson(v, v)
  {
    SameNormalIsSameJson(Ordinal, v, v);
  }

  lemma {:induction false} NormalIsSameJson(l: Layout, v: Json)
    requires IsJson(v)
    ensures SameJson(v, Normal(l, v))
  {
    match v
    case Arr(items) =>
      forall i | 0 <= i < |items| ensures SameJson(items[i], Normal(l, items[i])) { NormalIsSameJson(l, items[i]); }
    case Obj(ms) =>
      var values := NormalValues(l, ms);
      var sorted := Sort(values, MemberLe(l));
      SameMembers(values, sorted);
      forall i | 0 <= i < |ms| ensures HasSameMember(ms[i], sorted) {
        NormalIsSameJson(l, ms[i].value);
        assert values[i] in sorted;
        var j :| 0 <= j < |sorted| && sorted[j] == values[i];
      }
    case _ =>
  }

  /** Parsing a canonical text, in whatever member order, and printing it again changes nothing. */
  lemma CanonicalFixedPoint(v: Json)
    requires IsJson(v)
    ensures Parse(Canonical(v)).Some? && IsJson(Parse(Canonical(v)).value)
    ensures SameJson(v, Parse(Canonical(v)).value)
    ensures forall w :: IsJson(w) && SameJson(Parse(Canonical(v)).value, w) ==> Canonical(w) == Canonical(v)
  {
    var n := Normal(Ordinal, v);
    CanonicalPrintsNormal(v);
    ParsePrint(n);
    NormalIsSameJson(Ordinal, v);
    CanonicalEquality(v, n);
    forall w | IsJson(w) && SameJson(n, w) ensures Canonical(w) == Canonical(v) {
      CanonicalEquality(n, w);
    }
  }

  lemma CanonicalPayloadFixedPoint(v: Json)
    requires IsJson(v)
    ensures Parse(CanonicalPayload(v)).Some? && IsJson(Parse(CanonicalPayload(v)).value)
    ensures SameJson(v, Parse(CanonicalPayload(v)).value)
    ensures forall w :: IsJson(w) && SameJson(Parse(CanonicalPayload(v)).value, w) ==>
      CanonicalPayload(w) == CanonicalPayload(v)
  {
    var n := Normal(Enumeration, v);
    CanonicalValueIsNormal(v);
    NormalIsJson(Enumeration, v);
    ParsePrint(n);
    NormalIsSameJson(Enumeration, v);
    CanonicalPayloadEquality(v, n);
    forall w | IsJson(w) && SameJson(n, w) ensures CanonicalPayload(w) == CanonicalPayload(v) {
      CanonicalPayloadEquality(n, w);
    }
  }

  /** In every object, the two orders rank each pair of keys alike. */
  predicate OrdersAgree(v: Json) {
    match v
    case Arr(items) => forall i :: 0 <= i < |items| ==> OrdersAgree(items[i])
    case Obj(ms) =>
      && (forall i, j :: 0 <= i < |ms| && 0 <= j < |ms| ==>
            (KeyLe(Ordinal, ms[i].key, ms[j].key) <==> KeyLe(Enumeration, ms[i].key, ms[j].key)))
      && (forall i :: 0 <= i < |ms| ==> OrdersAgree(ms[i].value))
    case _ => true
  }

  ghost predicate KeysRankedAlike(ms: seq<Member>) {
    forall a, b :: a in ms && b in ms ==> (KeyLe(Ordinal, a.key, b.key) <==> KeyLe(Enumeration, a.key, b.key))
  }

  lemma RankedAlikeSortAlike(ms: seq<Member>)
    requires DistinctKeys(ms) && KeysRankedAlike(ms)
    ensures Sort(ms, MemberLe(Ordinal)) == Sort(ms, MemberLe(Enumeration))
  {
    var sorted := Sort(ms, MemberLe(Ordinal));
    MemberLePreorder(Ordinal);
    SortSorted(ms, MemberLe(Ordinal));
    SameMembers(ms, sorted);
    forall i, j | 0 <= i < j < |sorted| ensures MemberLe(Enumeration)(sorted[i], sorted[j]) {
      assert sorted[i] in ms && sorted[j] in ms && MemberLe(Ordinal)(sorted[i], sorted[j]);
    }
    NormalMembersUnique(Enumeration, ms, sorted);
  }

  lemma SortAlikeRankedAlike(ms: seq<Member>)
    requires Sort(ms, MemberLe(Ordinal)) == Sort(ms, MemberLe(Enumeration))
    ensures KeysRankedAlike(ms)
  {
    var r := Sort(ms, MemberLe(Ordinal));
    MemberLePreorder(Ordinal);
    MemberLePreorder(Enumeration);
    SortSorted(ms, MemberLe(Ordinal));
    SortSorted(ms, MemberLe(Enumeration));
    SameMembers(ms, r);
    forall a, b | a in ms && b in ms ensures KeyLe(Ordinal, a.key, b.key) <==> KeyLe(Enumeration, a.key, b.key) {
      SortedBothWays(r, a, b);
    }
  }

  /** The keys rank alike whatever normal form the values are in. */
  lemma RankedAlikeNormalValues(l: Layout, ms: seq<Member>)
    ensures KeysRankedAlike(NormalValues(l, ms)) <==>
      forall i, j :: 0 <= i < |ms| && 0 <= j < |ms| ==>
        (KeyLe(Ordinal, ms[i].key, ms[j].key) <==> KeyLe(Enumeration, ms[i].key, ms[j].key))
  {
    var values := NormalValues(l, ms);
    assert forall i :: 0 <= i < |ms| ==> values[i] in values && values[i].key == ms[i].key;
    forall a | a in values ensures exists i :: 0 <= i < |ms| && values[i] == a && ms[i].key == a.key {
    }
  }

  lemma {:induction false} OrdersAgreeSameNormal(v: Json)
    requires IsJson(v) && OrdersAgree(v)
    ensures Normal(Ordinal, v) == Normal(Enumeration, v)
  {
    match v
    case Arr(items) =>
      forall i | 0 <= i < |items| ensures Normal(Ordinal, items[i]) == Normal(Enumeration, items[i]) {
        OrdersAgreeSameNormal(items[i]);
      }
    case Obj(ms) =>
      var values := NormalValues(Ordinal, ms);
      forall i | 0 <= i < |ms| ensures values[i] == NormalValues(Enumeration, ms)[i] {
        OrdersAgreeSameNormal(ms[i].value);
      }
      assert values == NormalValues(Enumeration, ms);
      RankedAlikeNormalValues(Ordinal, ms);
      RankedAlikeSortAlike(values);
    case _ =>
  }

  /** Members laid out alike under both orders are ranked alike by both. */
  lemma SortedBothWays(r: seq<Member>, a: Member, b: Member)
    requires SortedBy(r, MemberLe(Ordinal)) && SortedBy(r, MemberLe(Enumeration))
    requires a in r && b in r
    ensures KeyLe(Ordinal, a.key, b.key) <==> KeyLe(Enumeration, a.key, b.key)
  {
    var i :| 0 <= i < |r| && r[i] == a;
    var j :| 0 <= j < |r| && r[j] == b;
    if i < j {
      assert MemberLe(Ordinal)(a, b) && MemberLe(Enumeration)(a, b);
    } else if j < i {
      assert MemberLe(Ordinal)(b, a) && MemberLe(Enumeration)(b, a);
      if KeyLe(Ordinal, a.key, b.key) { KeyLeAntisymmetric(Ordinal, a.key, b.key); }
      if KeyLe(Enumeration, a.key, b.key) { KeyLeAntisymmetric(Enumeration, a.key, b.key); }
    }
    KeyLeTotal(Ordinal, a.key, a.key);
    KeyLeTotal(Enumeration, a.key, a.key);
  }

  lemma SameNormalValues(ms: seq<Member>)
    requires DistinctKeys(ms)
    requires Sort(NormalValues(Ordinal, ms), MemberLe(Ordinal)) ==
      Sort(NormalValues(Enumeration, ms), MemberLe(Enumeration))
    ensures NormalValues(Ordinal, ms) == NormalValues(Enumeration, ms)
  {
    hide Sort, MemberLe, Normal;
    var x, y := NormalValues(Ordinal, ms), NormalValues(Enumeration, ms);
    assert multiset(x) == multiset(Sort(x, MemberLe(Ordinal))) == multiset(y);
    SameMembers(x, y);
    forall i | 0 <= i < |ms| ensures x[i] == y[i] {
      assert x[i] in y;
      var j :| 0 <= j < |y| && y[j] == x[i];
    }
  }

  lemma {:induction false} SameNormalOrdersAgree(v: Json)
    requires IsJson(v) && Normal(Ordinal, v) == Normal(Enumeration, v)
    ensures OrdersAgree(v)
  {
    match v
    case Arr(items) =>
      forall i | 0 <= i < |items| ensures OrdersAgree(items[i]) {
        assert Normal(Ordinal, v).items[i] == Normal(Enumeration, v).items[i];
        SameNormalOrdersAgree(items[i]);
      }
    case Obj(ms) =>
      SameNormalValues(ms);
      SortAlikeRankedAlike(NormalValues(Ordinal, ms));
      RankedAlikeNormalValues(Ordinal, ms);
      forall i | 0 <= i < |ms| ensures OrdersAgree(ms[i].value) {
        assert NormalValues(Ordinal, ms)[i].value == NormalValues(Enumeration, ms)[i].value;
        SameNormalOrdersAgree(ms[i].value);
      }
    case _ =>
  }

  /** The two printers give the same text exactly when their orders agree on the keys of every object. */
  lemma CanonicalPrintersAgree(v: Json)
    requires IsJson(v)
    ensures Canonical(v) == CanonicalPayload(v) <==> OrdersAgree(v)
  {
    CanonicalPrintsNormal(v);
    CanonicalValueIsNormal(v);
    NormalIsJson(Enumeration, v);
    if Canonical(v) == CanonicalPayload(v) {
      PrintInjective(Normal(Ordinal, v), Normal(Enumeration, v));
      SameNormalOrdersAgree(v);
    }
    if OrdersAgree(v) { OrdersAgreeSameNormal(v); }
  }

  predicate HasNoIndexKeys(v: Json) {
    match v
    case Arr(items) => forall i :: 0 <= i < |items| ==> HasNoIndexKeys(items[i])
    case Obj(ms) => forall i :: 0 <= i < |ms| ==> !IsArrayIndex(ms[i].key) && HasNoIndexKeys(ms[i].value)
    case _ => true
  }

  lemma {:induction false} NoIndexKeysAgree(v: Json)
    requires IsJson(v) && HasNoIndexKeys(v)
    ensures Canonical(v) == CanonicalPayload(v)
  {
    NoIndexKeysOrder(v);
    CanonicalPrintersAgree(v);
  }

  lemma {:induction false} NoIndexKeysOrder(v: Json)
    requires HasNoIndexKeys(v)
    ensures OrdersAgree(v)
  {
    match v
    case Arr(items) =>
      forall i | 0 <= i < |items| ensures OrdersAgree(items[i]) { NoIndexKeysOrder(items[i]); }
    case Obj(ms) =>
      forall i | 0 <= i < |ms| ensures OrdersAgree(ms[i].value) { NoIndexKeysOrder(ms[i].value); }
    case _ =>
  }

  lemma TenBeforeNine(ten: Text, nine: Text)
    requires ten == [49, 48] && nine == [57]
    ensures KeyLe(Ordinal, ten, nine) && !KeyLe(Enumeration, ten, nine)
  {
    assert ten[..1] == [49] && ten[..1][..0] == [] && nine[..0] == [];
    assert DecimalValue([]) == 0 && DecimalValue(ten[..1]) == 1 && DecimalValue(ten) == 10 && DecimalValue(nine) == 9;
  }

  /** {"10":null,"9":null} prints differently: "10" sorts before "9" but enumerates after it. */
  lemma IndexKeysDisagree(ten: Text, nine: Text)
    requires ten == [49, 48] && nine == [57]
    ensures var v := Obj([Member(ten, Null), Member(nine, Null)]);
      IsJson(v) && Canonical(v) != CanonicalPayload(v)
  {
    hide KeyLe, Canonical, CanonicalPayload;
    var v := Obj([Member(ten, Null), Member(nine, Null)]);
    TenBeforeNine(ten, nine);
    assert v.members[0].key == ten && v.members[1].key == nine;
    CanonicalPrintersAgree(v);
  }
}
