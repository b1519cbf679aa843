/** Which field names carry target identities, and which hold maps keyed by them. */
module IdentityNames {
  import opened Texts

  const UNDERSCORE := 95
  const HYPHEN := 45

  /** The name without underscores and hyphens, in lower case. */
  function Compact(name: Text): Text {
    if name == [] then []
    else if name[0] == UNDERSCORE || name[0] == HYPHEN then Compact(name[1..])
    else [LowerUnit(name[0])] + Compact(name[1..])
  }

  predicate EndsWith(t: Text, end: Text) { |end| <= |t| && t[|t| - |end|..] == end }

  const SUBJECTS: seq<Text> := [
    Lit("element"), Lit("target"), Lit("view"), Lit("sheet"), Lit("room"), Lit("space"), Lit("system"), Lit("circuit"),
    Lit("level"), Lit("host"), Lit("textnote"), Lit("connector"), Lit("fitting"), Lit("sourcescoped")]

  const IDENTIFIERS: seq<Text> :=
    [[], Lit("id"), Lit("ids"), Lit("uniqueid"), Lit("uniqueids"), Lit("name"), Lit("names")]

  predicate IsIdentityField(name: Text) {
    name != [] &&
    var c := Compact(name);
    || c == Lit("uniqueid") || c == Lit("uniqueids")
    || exists i, j :: 0 <= i < |SUBJECTS| && 0 <= j < |IDENTIFIERS| && EndsWith(c, SUBJECTS[i] + IDENTIFIERS[j])
  }

  const COLLECTIONS: seq<Text> := [
    [], Lit("item"), Lit("items"), Lit("element"), Lit("elements"), Lit("target"), Lit("targets"), Lit("view"),
    Lit("views"), Lit("sheet"), Lit("sheets"), Lit("room"), Lit("rooms"), Lit("space"), Lit("spaces"), Lit("system"),
    Lit("systems"), Lit("circuit"), Lit("circuits"), Lit("level"), Lit("levels"), Lit("host"), Lit("hosts"),
    Lit("textnote"), Lit("textnotes"), Lit("connector"), Lit("connectors"), Lit("fitting"), Lit("fittings")]

  const MAP_KEYS: seq<Text> := [Lit("byid"), Lit("byuniqueid"), Lit("bytarget")]

  predicate IsIdentityMapField(name: Text) {
    name != [] && exists i, j ::
      0 <= i < |COLLECTIONS| && 0 <= j < |MAP_KEYS| && Compact(name) == COLLECTIONS[i] + MAP_KEYS[j]
  }

  predicate IsNaming(c: Text, front: Text, subject: Text, identifier: Text) {
    subject in SUBJECTS && identifier in IDENTIFIERS && c == front + (subject + identifier)
  }

  /** Whatever stands in front, a name is accepted for how it ends: a subject, with or without an identifier after it.
      The unique identifier alone must be the whole name. */
  lemma IdentityFieldExactly(name: Text)
    ensures IsIdentityField(name) <==>
      || Compact(name) in [Lit("uniqueid"), Lit("uniqueids")]
      || exists front, subject, identifier :: IsNaming(Compact(name), front, subject, identifier)
  {
    hide SUBJECTS, IDENTIFIERS, Lit;
    var c := Compact(name);
    NamesAreLong();
    if i, j :| 0 <= i < |SUBJECTS| && 0 <= j < |IDENTIFIERS| && EndsWith(c, SUBJECTS[i] + IDENTIFIERS[j]) {
      var end := SUBJECTS[i] + IDENTIFIERS[j];
      assert c == c[..|c| - |end|] + end;
      assert IsNaming(c, c[..|c| - |end|], SUBJECTS[i], IDENTIFIERS[j]);
    }
    if front, subject, identifier :| IsNaming(c, front, subject, identifier) {
      var i :| 0 <= i < |SUBJECTS| && SUBJECTS[i] == subject;
      var j :| 0 <= j < |IDENTIFIERS| && IDENTIFIERS[j] == identifier;
      assert EndsWith(c, SUBJECTS[i] + IDENTIFIERS[j]);
    }
  }

  lemma NamesAreLong()
    ensures Lit("uniqueid") != [] && Lit("uniqueids") != [] && [] !in SUBJECTS && [] !in MAP_KEYS
  {
    assert forall i :: 0 <= i < |SUBJECTS| ==> |SUBJECTS[i]| >= 4;
  }

  /** A name is that of an identity map if and only if it is a collection, or nothing, followed by a map key. */
  lemma IdentityMapFieldExactly(name: Text)
    ensures IsIdentityMapField(name) <==>
      exists collection, key :: collection in COLLECTIONS && key in MAP_KEYS && Compact(name) == collection + key
  {
    hide COLLECTIONS, MAP_KEYS, Lit;
    NamesAreLong();
    if collection, key :| collection in COLLECTIONS && key in MAP_KEYS && Compact(name) == collection + key {
      var i :| 0 <= i < |COLLECTIONS| && COLLECTIONS[i] == collection;
      var j :| 0 <= j < |MAP_KEYS| && MAP_KEYS[j] == key;
    }
  }

  lemma LowerLiteral(s: string)
    requires forall i :: 0 <= i < |s| ==> 'a' <= s[i] <= 'z'
    ensures Compact(Lit(s)) == Lit(s)
    decreases |s|
  {
    if s != "" {
      LowerLiteral(s[1..]);
      assert Lit(s)[1..] == Lit(s[1..]);
      assert Lit(s) == [Lit(s)[0]] + Lit(s[1..]);
    }
  }

  lemma {:induction false} CompactConcat(a: Text, b: Text)
    ensures Compact(a + b) == Compact(a) + Compact(b)
  {
    if a == [] {
      assert a + b == b;
    } else {
      assert (a + b)[1..] == a[1..] + b;
      CompactConcat(a[1..], b);
    }
  }

  const ELEMENT_ID: Text := Lit("element") + ([UNDERSCORE] + Lit("id"))
  const ELEMENT_IDS: Text := Lit("element") + ([UNDERSCORE] + Lit("ids"))

  lemma CompactName(first: string, second: string)
    requires (forall i :: 0 <= i < |first| ==> 'a' <= first[i] <= 'z') && forall i :: 0 <= i < |second| ==>
      'a' <= second[i] <= 'z'
    ensures Compact(Lit(first) + ([UNDERSCORE] + Lit(second))) == Lit(first) + Lit(second)
  {
    LowerLiteral(first);
    LowerLiteral(second);
    CompactConcat(Lit(first), [UNDERSCORE] + Lit(second));
    CompactConcat([UNDERSCORE], Lit(second));
    assert Compact([UNDERSCORE]) == [];
  }

  /** "element_id" and "element_ids" carry identities. */
  lemma ElementNamesAreIdentities()
    ensures IsIdentityField(ELEMENT_ID) && IsIdentityField(ELEMENT_IDS)
  {
    CompactName("element", "id");
    CompactName("element", "ids");
    assert SUBJECTS[0] == Lit("element") && IDENTIFIERS[1] == Lit("id") && IDENTIFIERS[2] == Lit("ids");
    assert EndsWith(Compact(ELEMENT_ID), SUBJECTS[0] + IDENTIFIERS[1]);
    assert EndsWith(Compact(ELEMENT_IDS), SUBJECTS[0] + IDENTIFIERS[2]);
  }

  /** No map's name ends in "d" with an "a" before it. */
  lemma MapKeysEnd(key: Text)
    requires key in MAP_KEYS
    ensures |key| >= 2 && key[|key| - 2] != 97
  {
    var first, second, third := Lit("byid"), Lit("byuniqueid"), Lit("bytarget");
    assert MAP_KEYS == [first, second, third];
    assert first[2] == 105 && second[8] == 105 && third[6] == 101;
  }

  lemma NoMapName(name: Text, front: Text)
    requires name == front + [97, 100]
    ensures !IsIdentityMapField(name)
  {
    hide COLLECTIONS, MAP_KEYS;
    CompactConcat(front, [97, 100]);
    var compact := Compact(front) + [97, 100];
    assert Compact([100]) == [100] && Compact([97, 100]) == [97, 100];
    forall i, j | 0 <= i < |COLLECTIONS| && 0 <= j < |MAP_KEYS| ensures compact != COLLECTIONS[i] + MAP_KEYS[j] {
      var collection, key := COLLECTIONS[i], MAP_KEYS[j];
      MapKeysEnd(key);
      assert (collection + key)[|collection + key| - 2] == key[|key| - 2];
      assert compact[|compact| - 2] == 97;
    }
  }

  /** A payload itself is no identity map. */
  lemma PayloadIsNoMap()
    ensures !IsIdentityMapField(Lit("payload"))
  {
    hide IsIdentityMapField;
    var name := Lit("payload");
    assert name[5] == 97 && name[6] == 100;
    assert name == name[..5] + [97, 100];
    NoMapName(name, name[..5]);
  }

  /** No map's name is a single unit. */
  lemma ShortIsNoMap(u: CodeUnit)
    ensures !IsIdentityMapField([u])
  {
    hide COLLECTIONS, MAP_KEYS;
    assert |Compact([u])| <= 1;
    forall i, j | 0 <= i < |COLLECTIONS| && 0 <= j < |MAP_KEYS| ensures Compact([u]) != COLLECTIONS[i] + MAP_KEYS[j] {
      MapKeysEnd(MAP_KEYS[j]);
    }
  }
}
