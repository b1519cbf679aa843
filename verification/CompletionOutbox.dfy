/**
 The completion outbox: what one retained record says, what reading it back accepts, and how a result
 too large for one message travels as a reference and is restored from the store. The digest and the
 keyed signature are parameters; nothing is assumed of them but the shape of their output.
 */
module CompletionOutbox {
  import opened Outcomes
  import opened Texts
  import opened Decimals
  import opened JsonNumbers
  import opened JsonText
  import opened CanonicalJson
  import opened Sorting
  import Utf8

  datatype Crypto = Crypto(sha: Text -> Text, mac: (Text, Text) -> Text)

  datatype OutboxError =
    | IdentityInvalid | KeyInvalid | EnvelopeInvalid | ResultMismatch | RecordTooLarge | Unreadable
    | RecordInvalid | SignatureInvalid | BindingMismatch | ResultConflict
    | DeliveryLeaseMissing | DeliveryReferenceInvalid | DeliveryIdentityMismatch
    | DeliveryRecordMissing | DeliveryDigestMismatch

  const RECORD_LIMIT := 67108864
  const DELIVERY_BUDGET := 8388608

  const SCHEMA := Lit("schema")
  const PAYLOAD := Lit("payload")
  const SIGNATURE := Lit("signature")
  const IDENTITY := Lit("identity")
  const ENVELOPE := Lit("envelope")
  const CONTENT := Lit("content")
  const STRUCTURED := Lit("structuredContent")
  const RESULT := Lit("operation_result_v2")
  const BINDING := Lit("binding")
  const OPERATION_ID := Lit("operation_id")
  const REQUEST_IDENTITY := Lit("request_identity")
  const IDENTITY_SHA := Lit("identity_sha256")
  const STRUCTURED_SHA := Lit("structured_sha256")
  const IS_ERROR := Lit("isError")
  const TYPE := Lit("type")
  const TEXT := Lit("text")

  const GENERATION := Lit("generation")
  const ASSIGNMENT_ID := Lit("assignment_id")
  const RUN_ID := Lit("run_id")
  const SESSION_ID := Lit("session_id")
  const PRINCIPAL_ID := Lit("principal_id")
  const REQUEST_SIGNATURE := Lit("request_signature")

  const RECORD_SCHEMA := Lit("revit-operator.assignment-completion-outbox/v2")
  const DELIVERY_SCHEMA := Lit("revit-operator.assignment-completion-delivery/v2")
  const RESULT_SCHEMA := Lit("revit-operator.assignment-kernel-mcp-result/v2")
  const UNAVAILABLE: Text := Lit("Presentation unavailable: this result exceeds ") + Lit("the MCP delivery budget. ")
    + Lit("Full canonical observation retained; ") + Lit("no image was delivered. ") +
      Lit("Use a smaller scoped capture for visual review.")

  predicate IsHex64(t: Text) {
    |t| == 64 && forall i :: 0 <= i < 64 ==> IsDigit(t[i]) || 97 <= t[i] <= 102
  }

  ghost predicate IsCrypto(c: Crypto) {
    (forall t :: IsHex64(c.sha(t))) && (forall k, t :: IsHex64(c.mac(k, t)))
  }

  // ---- Object members ----

  /** `value?.key`, with None for undefined. */
  function Get(v: Option<Json>, key: Text): (r: Option<Json>)
    ensures r.Some? && v.Some? && IsJson(v.value) ==> IsJson(r.value)
  {
    if v.Some? && v.value.Obj? then Find(v.value.members, key) else None
  }

  lemma GetMember(ms: seq<Member>, i: nat)
    requires DistinctKeys(ms) && i < |ms|
    ensures Get(Some(Obj(ms)), ms[i].key) == Some(ms[i].value)
  {
    assert Keys(ms)[i] == ms[i].key;
    var v := Find(ms, ms[i].key);
    var j :| 0 <= j < |ms| && ms[j] == Member(ms[i].key, v.value);
  }

  /** `{ ...object, key: value }`: a present key keeps its place, an absent one goes last. */
  function SetMember(ms: seq<Member>, key: Text, value: Json): (r: seq<Member>)
    ensures key in Keys(r)
  {
    if ms == [] then
      assert Keys([Member(key, value)])[0] == key;
      [Member(key, value)]
    else if ms[0].key == key then
      assert Keys([Member(key, value)] + ms[1..])[0] == key;
      [Member(key, value)] + ms[1..]
    else
      var r := [ms[0]] + SetMember(ms[1..], key, value);
      assert forall i :: 0 <= i < |r| - 1 ==> Keys(r)[i + 1] == Keys(SetMember(ms[1..], key, value))[i];
      r
  }

  lemma KeysCons(m: Member, rest: seq<Member>)
    ensures Keys([m] + rest) == [m.key] + Keys(rest)
  {
  }

  lemma SetMemberStep(ms: seq<Member>, key: Text, value: Json)
    requires ms != []
    ensures SetMember(ms, key, value) ==
      if ms[0].key == key then [Member(key, value)] + ms[1..] else [ms[0]] + SetMember(ms[1..], key, value)
  {
  }

  lemma {:induction false} SetMemberTwice(ms: seq<Member>, key: Text, value: Json, v: Json)
    ensures SetMember(SetMember(ms, key, value), key, v) == SetMember(ms, key, v)
  {
    if ms == [] {
      SetMemberStep([Member(key, value)], key, v);
      assert [Member(key, value)][1..] == [];
    } else {
      SetMemberStep(ms, key, value);
      SetMemberStep(ms, key, v);
      SetMemberTwice(ms[1..], key, value, v);
      var once := SetMember(ms, key, value);
      assert once[1..] == if ms[0].key == key then ms[1..] else SetMember(ms[1..], key, value);
      SetMemberStep(once, key, v);
    }
  }

  lemma {:induction false} SetMemberFinds(ms: seq<Member>, key: Text, value: Json)
    ensures Find(SetMember(ms, key, value), key) == Some(value)
  {
    if ms != [] {
      SetMemberFinds(ms[1..], key, value);
      SetMemberStep(ms, key, value);
      var r := SetMember(ms, key, value);
      assert r[1..] == if ms[0].key == key then ms[1..] else SetMember(ms[1..], key, value);
    }
  }

  lemma {:induction false} SetMemberKeepsKeys(ms: seq<Member>, key: Text, value: Json, before: seq<Text>,
      after: seq<Text>)
    requires before == Keys(ms) && after == Keys(SetMember(ms, key, value))
    ensures after == if key in before then before else before + [key]
  {
    hide Find, Keys, SetMember;
    if ms == [] {
      NoKeys(key, value);
    } else {
      var rest := ms[1..];
      assert ms == [ms[0]] + rest;
      KeysCons(ms[0], rest);
      SetMemberStep(ms, key, value);
      SetMemberKeepsKeys(rest, key, value, Keys(rest), Keys(SetMember(rest, key, value)));
      KeysCons(ms[0], SetMember(rest, key, value));
      KeysCons(Member(key, value), rest);
      ConsKey(ms[0].key, key, Keys(rest), Keys(SetMember(rest, key, value)));
    }
  }

  lemma NoKeys(key: Text, value: Json)
    ensures Keys([]) == [] && Keys(SetMember([], key, value)) == [key]
  {
  }

  lemma ConsKey(head: Text, key: Text, before: seq<Text>, after: seq<Text>)
    requires after == if key in before then before else before + [key]
    ensures head != key ==>
      [head] + after == (if key in [head] + before then [head] + before else [head] + before + [key])
    ensures head == key ==> key in [head] + before
  {
  }

  lemma SetMemberKeys(ms: seq<Member>, key: Text, value: Json)
    ensures Keys(SetMember(ms, key, value)) == if key in Keys(ms) then Keys(ms) else Keys(ms) + [key]
    ensures Find(SetMember(ms, key, value), key) == Some(value)
    ensures forall v :: SetMember(SetMember(ms, key, value), key, v) == SetMember(ms, key, v)
  {
    hide Find, Keys, SetMember;
    forall v ensures SetMember(SetMember(ms, key, value), key, v) == SetMember(ms, key, v) {
      SetMemberTwice(ms, key, value, v);
    }
    SetMemberFinds(ms, key, value);
    SetMemberKeepsKeys(ms, key, value, Keys(ms), Keys(SetMember(ms, key, value)));
  }

  lemma {:induction false} SetMemberOthers(ms: seq<Member>, key: Text, value: Json, other: Text)
    requires other != key
    ensures Find(SetMember(ms, key, value), other) == Find(ms, other)
  {
    if ms != [] {
      SetMemberOthers(ms[1..], key, value, other);
      SetMemberStep(ms, key, value);
      var r := SetMember(ms, key, value);
      assert r[1..] == if ms[0].key == key then ms[1..] else SetMember(ms[1..], key, value);
    }
  }

  lemma {:induction false} SetMemberSame(ms: seq<Member>, key: Text)
    requires key in Keys(ms)
    ensures SetMember(ms, key, Find(ms, key).value) == ms
  {
    assert ms == [ms[0]] + ms[1..];
    KeysCons(ms[0], ms[1..]);
    SetMemberStep(ms, key, Find(ms, key).value);
    if ms[0].key != key { SetMemberSame(ms[1..], key); }
  }

  lemma {:induction false} SetMemberValues(ms: seq<Member>, key: Text, value: Json)
    requires IsJson(value) && forall i :: 0 <= i < |ms| ==> IsJson(ms[i].value)
    ensures forall i :: 0 <= i < |SetMember(ms, key, value)| ==> IsJson(SetMember(ms, key, value)[i].value)
  {
    if ms != [] && ms[0].key != key { SetMemberValues(ms[1..], key, value); }
  }

  lemma DistinctKeysOfKeys(ms: seq<Member>)
    ensures DistinctKeys(ms) <==> Distinct(Keys(ms))
  {
    assert forall i :: 0 <= i < |ms| ==> Keys(ms)[i] == ms[i].key;
  }

  lemma SetMemberIsJson(ms: seq<Member>, key: Text, value: Json)
    requires IsJson(Obj(ms)) && IsJson(value)
    ensures IsJson(Obj(SetMember(ms, key, value)))
  {
    hide SetMember;
    var r := SetMember(ms, key, value);
    assert (forall i :: 0 <= i < |r| ==> IsJson(r[i].value)) by {
      SetMemberValues(ms, key, value);
    }
    assert DistinctKeys(r) by {
      hide IsJson;
      SetMemberKeys(ms, key, value);
      DistinctKeysOfKeys(ms);
      DistinctKeysOfKeys(r);
    }
  }

  /** A two-member object. */
  function Object2(k1: Text, v1: Json, k2: Text, v2: Json): (r: Json)
    requires k1 != k2 && IsJson(v1) && IsJson(v2)
    ensures IsJson(r) && Get(Some(r), k1) == Some(v1) && Get(Some(r), k2) == Some(v2)
  {
    var ms := [Member(k1, v1), Member(k2, v2)];
    GetMember(ms, 0);
    GetMember(ms, 1);
    Obj(ms)
  }

  /** A three-member object. */
  function Object3(k1: Text, v1: Json, k2: Text, v2: Json, k3: Text, v3: Json): (r: Json)
    requires k1 != k2 && k1 != k3 && k2 != k3 && IsJson(v1) && IsJson(v2) && IsJson(v3)
    ensures IsJson(r) && Get(Some(r), k1) == Some(v1) && Get(Some(r), k2) == Some(v2) && Get(Some(r), k3) == Some(v3)
    ensures r.Obj? && Keys(r.members) == [k1, k2, k3]
  {
    var ms := [Member(k1, v1), Member(k2, v2), Member(k3, v3)];
    GetMember(ms, 0);
    GetMember(ms, 1);
    GetMember(ms, 2);
    Obj(ms)
  }

  lemma NamesDiffer()
    ensures BINDING != OPERATION_ID && BINDING != REQUEST_IDENTITY && OPERATION_ID != REQUEST_IDENTITY
    ensures IDENTITY != ENVELOPE && SCHEMA != PAYLOAD && SCHEMA != SIGNATURE && PAYLOAD != SIGNATURE
    ensures CONTENT != STRUCTURED && IS_ERROR != CONTENT && IS_ERROR != STRUCTURED && TYPE != TEXT
    ensures SCHEMA != IDENTITY_SHA && SCHEMA != STRUCTURED_SHA && IDENTITY_SHA != STRUCTURED_SHA
  {
    assert |BINDING| == 7 && |OPERATION_ID| == 12 && |REQUEST_IDENTITY| == 16;
    assert |SCHEMA| == 6 && |PAYLOAD| == 7 && |SIGNATURE| == 9;
    assert |IDENTITY_SHA| == 15 && |STRUCTURED_SHA| == 17 && |CONTENT| == 7 && |STRUCTURED| == 17;
    assert IDENTITY[0] == 105 && ENVELOPE[0] == 101;
    assert IS_ERROR[0] == 105 && CONTENT[0] == 99 && |IS_ERROR| == 7;
    assert TYPE[1] == 121 && TEXT[1] == 101;
  }

  // ---- Lease identity ----

  predicate IsNonemptyText(v: Option<Json>) {
    v.Some? && v.value.Str? && v.value.text != []
  }

  /** Number.isSafeInteger(x) && x > 0, for the decimal 0.digits * 10^point. */
  predicate IsPositiveSafeInteger(n: Number)
    requires IsNumber(n)
  {
    n.Finite? && !n.negative && |n.digits| <= n.point <= 16
      && DecimalValue(n.digits + Zeros(n.point - |n.digits|)) <= 9007199254740991
  }

  function PowerOfTen(n: nat): nat { if n == 0 then 1 else 10 * PowerOfTen(n - 1) }

  lemma {:induction false} DecimalLength(k: nat, n: nat)
    requires n > 0 && k < PowerOfTen(n)
    ensures |Decimal(k)| <= n
  {
    if k >= 10 {
      OneDigit();
      DecimalLength(k / 10, n - 1);
    }
  }

  lemma OneDigit()
    ensures PowerOfTen(1) == 10
  {
    assert PowerOfTen(0) == 1;
  }

  lemma SixteenDigits()
    ensures PowerOfTen(16) == 10000000000000000
  {
    assert PowerOfTen(4) == 10000;
    assert PowerOfTen(8) == 10000 * PowerOfTen(4);
    assert PowerOfTen(12) == 10000 * PowerOfTen(8);
    assert PowerOfTen(16) == 10000 * PowerOfTen(12);
  }

  /** The text of a number that is no plain natural number has a unit that is no digit. */
  lemma OddText(n: Number)
    requires IsNumber(n) && n.Finite? && (n.negative || n.point < |n.digits| || n.point > 21)
    ensures !AllDigits(NumberText(n))
  {
    hide Zeros, Decimal;
    var s, t := ShapeOf(n.digits, n.point), NumberText(n);
    if n.negative {
      assert t[0] == MINUS;
    } else {
      assert t == s.whole + FractionText(s) + ExponentPart(s);
      if s.fraction != [] {
        assert t[|s.whole|] == JsonNumbers.DOT;
      } else {
        assert t[|s.whole|] == LOWER_E;
      }
    }
  }

  lemma PlainText(n: Number)
    requires IsNumber(n) && n.Finite? && !n.negative && |n.digits| <= n.point <= 21
    ensures NumberText(n) == n.digits + Zeros(n.point - |n.digits|) && IsDecimal(NumberText(n))
      && NumberText(n)[0] != 48
  {
    hide Zeros;
    var t := n.digits + Zeros(n.point - |n.digits|);
    assert [] + (t + [] + []) == t;
    assert t[0] == n.digits[0];
  }

  /** A positive safe integer is a number that prints as the decimal of one. */
  lemma SafeIntegerExactly(n: Number)
    requires IsNumber(n)
    ensures IsPositiveSafeInteger(n) <==> exists k: nat :: 1 <= k <= 9007199254740991 && NumberText(n) == Decimal(k)
  {
    hide NumberText, Decimal, DecimalValue, PowerOfTen;
    if IsPositiveSafeInteger(n) {
      PlainText(n);
      var t := NumberText(n);
      DecimalCanonical(t);
      var k := DecimalValue(t);
      assert k != 0 by { NotZero(t); }
      assert NumberText(n) == Decimal(k);
    }
    if k: nat :| 1 <= k <= 9007199254740991 && NumberText(n) == Decimal(k) {
      assert n.Finite? by { ZeroText(k); }
      if n.negative || n.point < |n.digits| || n.point > 21 { OddText(n); }
      PlainText(n);
      SixteenDigits();
      DecimalLength(k, 16);
      DecimalRoundTrip(k);
    }
  }

  lemma ZeroText(k: nat)
    requires k > 0
    ensures NumberText(Zero) != Decimal(k)
  {
  }

  lemma NotZero(t: Text)
    requires IsDecimal(t) && t[0] != 48
    ensures DecimalValue(t) != 0
  {
    DecimalCanonical(t);
    assert Decimal(0) == [48];
  }

  lemma Hex64Exactly(t: Text)
    ensures IsHex64(t) <==> |t| == 64 && forall i :: 0 <= i < |t| ==> t[i] in Lit("0123456789abcdef")
  {
    var hex := Lit("0123456789abcdef");
    assert hex == [48, 49, 50, 51, 52, 53, 54, 55, 56, 57, 97, 98, 99, 100, 101, 102];
  }

  /** JSON.parse(JSON.stringify(value)). */
  function Copy(v: Json): (r: Json)
    requires IsJson(v)
    ensures r == v
  {
    ParsePrint(v);
    Parse(Print(v)).value
  }

  predicate IsBinding(binding: Option<Json>)
    requires binding.Some? ==> IsJson(binding.value)
  {
    var generation := Get(binding, GENERATION);
    && IsNonemptyText(Get(binding, ASSIGNMENT_ID)) && IsNonemptyText(Get(binding, RUN_ID))
    && IsNonemptyText(Get(binding, SESSION_ID)) && IsNonemptyText(Get(binding, PRINCIPAL_ID))
    && generation.Some? && generation.value.Num? && IsPositiveSafeInteger(generation.value.number)
  }

  predicate IsSigned(request: Option<Json>) {
    var signature := Get(request, REQUEST_SIGNATURE);
    signature.Some? && signature.value.Str?
  }

  function Identity(lease: Option<Json>): (r: Result<Json, OutboxError>)
    requires lease.Some? ==> IsJson(lease.value)
    ensures r.Ok? ==> IsJson(r.value)
    ensures r.Ok? ==> lease.Some?
  {
    var binding := Get(lease, BINDING);
    var operation := Get(lease, OPERATION_ID);
    var request := Get(lease, REQUEST_IDENTITY);
    if IsBinding(binding) && IsNonemptyText(operation) && IsSigned(request) then
      NamesDiffer();
      Ok(Copy(Object3(BINDING, binding.value, OPERATION_ID, operation.value, REQUEST_IDENTITY, request.value)))
    else Err(IdentityInvalid)
  }

  /** The name of the record file, up to its directory and suffix. */
  function RecordPath(c: Crypto, identity: Json): Text
    requires IsJson(identity)
  {
    c.sha(Canonical(identity))
  }

  // ---- Records ----

  function RecordPayload(identity: Json, envelope: Json): (r: Json)
    requires IsJson(identity) && IsJson(envelope)
    ensures IsJson(r) && Get(Some(r), IDENTITY) == Some(identity) && Get(Some(r), ENVELOPE) == Some(envelope)
  {
    NamesDiffer();
    Object2(IDENTITY, identity, ENVELOPE, envelope)
  }

  function Record(c: Crypto, key: Text, payload: Json): (r: Json)
    requires IsJson(payload)
    ensures IsJson(r) && Get(Some(r), SCHEMA) == Some(Str(RECORD_SCHEMA)) && Get(Some(r), PAYLOAD) == Some(payload)
    ensures Get(Some(r), SIGNATURE) == Some(Str(c.mac(key, Canonical(payload))))
  {
    NamesDiffer();
    Object3(SCHEMA, Str(RECORD_SCHEMA), PAYLOAD, payload, SIGNATURE, Str(c.mac(key, Canonical(payload))))
  }

  function RetainedEnvelope(structured: Json): (r: Json)
    requires IsJson(structured)
    ensures IsJson(r) && Get(Some(r), STRUCTURED) == Some(structured)
  {
    NamesDiffer();
    Object2(CONTENT, Arr([]), STRUCTURED, structured)
  }

  /** What a retain decides before it touches the file system. */
  datatype Retention = Retention(path: Text, envelope: Json, bytes: seq<Utf8.Byte>)

  function Prepare(c: Crypto, key: Text, lease: Json, envelope: Json): (r: Result<Retention, OutboxError>)
    requires IsJson(lease) && IsJson(envelope)
    ensures r.Ok? ==> IsJson(r.value.envelope) && |r.value.bytes| <= RECORD_LIMIT
    ensures r.Ok? ==> Identity(Some(lease)).Ok? && r.value.path == RecordPath(c, Identity(Some(lease)).value)
  {
    var structured := Get(Some(envelope), STRUCTURED);
    if Get(structured, SCHEMA) != Some(Str(RESULT_SCHEMA)) then Err(EnvelopeInvalid)
    else
      var result := Identity(Get(structured, RESULT));
      var identity := Identity(Some(lease));
      if result.Err? then Err(result.error)
      else if identity.Err? then Err(identity.error)
      else if Canonical(result.value) != Canonical(identity.value) then Err(ResultMismatch)
      else
        var retained := Copy(RetainedEnvelope(structured.value));
        var payload := RecordPayload(identity.value, retained);
        if !IsHex64(key) then Err(KeyInvalid)
        else
          var bytes := Utf8.Encode(Print(Record(c, key, payload)));
          if |bytes| > RECORD_LIMIT then Err(RecordTooLarge)
          else Ok(Retention(RecordPath(c, identity.value), retained, bytes))
  }

  /** A retain is prepared if and only if the key is well formed, the structured content is a result of the expected
      schema whose identity is canonically the lease's own, and the signed record is within 64 mebibytes. */
  lemma PrepareExactly(c: Crypto, key: Text, lease: Json, envelope: Json)
    requires IsJson(lease) && IsJson(envelope)
    ensures Prepare(c, key, lease, envelope).Ok? <==>
      && IsHex64(key) && Get(Get(Some(envelope), STRUCTURED), SCHEMA) == Some(Str(RESULT_SCHEMA))
      && Identity(Some(lease)).Ok? && Identity(Get(Get(Some(envelope), STRUCTURED), RESULT)).Ok?
      && Canonical(Identity(Get(Get(Some(envelope), STRUCTURED), RESULT)).value) ==
        Canonical(Identity(Some(lease)).value)
      && |Utf8.Encode(Print(Record(c, key, RecordPayload(Identity(Some(lease)).value,
           RetainedEnvelope(Get(Some(envelope), STRUCTURED).value)))))| <= 67108864
  {
    hide Utf8.Encode, Print, IsJson, Identity, Canonical, IsHex64, Record, RecordPayload, RetainedEnvelope, RecordPath;
    hide SCHEMA, STRUCTURED, RESULT, RESULT_SCHEMA;
  }

  /** A lease has an identity if and only if its binding names assignment, run, session and principal and
      counts a positive safe generation, its operation has a name, and its request a signature; the identity is
      those three members. */
  lemma IdentityExactly(lease: Json)
    requires IsJson(lease)
    ensures var binding, request := Get(Some(lease), BINDING), Get(Some(lease), REQUEST_IDENTITY);
      Identity(Some(lease)).Ok? <==>
      && IsName(Get(binding, ASSIGNMENT_ID)) && IsName(Get(binding, RUN_ID))
      && IsName(Get(binding, SESSION_ID)) && IsName(Get(binding, PRINCIPAL_ID))
      && Get(binding, GENERATION).Some? && Get(binding, GENERATION).value.Num?
      && (exists k: nat ::
            1 <= k <= 9007199254740991 && NumberText(Get(binding, GENERATION).value.number) == Decimal(k))
      && IsName(Get(Some(lease), OPERATION_ID))
      && Get(request, REQUEST_SIGNATURE).Some? && Get(request, REQUEST_SIGNATURE).value.Str?
    ensures Identity(Some(lease)).Ok? ==>
      var identity := Some(Identity(Some(lease)).value);
      && Get(identity, BINDING) == Get(Some(lease), BINDING)
        && Get(identity, OPERATION_ID) == Get(Some(lease), OPERATION_ID)
      && Get(identity, REQUEST_IDENTITY) == Get(Some(lease), REQUEST_IDENTITY)
      && identity.value.Obj? && Keys(identity.value.members) == [BINDING, OPERATION_ID, REQUEST_IDENTITY]
  {
    hide Find, IsPositiveSafeInteger, IsNonemptyText, IsName, Identity, NumberText, Decimal;
    hide BINDING, OPERATION_ID, REQUEST_IDENTITY, ASSIGNMENT_ID, RUN_ID, SESSION_ID, PRINCIPAL_ID, GENERATION;
    hide REQUEST_SIGNATURE;
    IdentityIs(lease);
    IdentityMembers(lease);
    var binding := Get(Some(lease), BINDING);
    NameIs(Get(binding, ASSIGNMENT_ID));
    NameIs(Get(binding, RUN_ID));
    NameIs(Get(binding, SESSION_ID));
    NameIs(Get(binding, PRINCIPAL_ID));
    NameIs(Get(Some(lease), OPERATION_ID));
    GenerationIs(Get(binding, GENERATION));
  }

  lemma GenerationIs(v: Option<Json>)
    requires v.Some? ==> IsJson(v.value)
    ensures (v.Some? && v.value.Num? && IsPositiveSafeInteger(v.value.number)) <==>
      (v.Some? && v.value.Num? && exists k: nat ::
        1 <= k <= 9007199254740991 && NumberText(v.value.number) == Decimal(k))
  {
    hide NumberText, Decimal, IsPositiveSafeInteger;
    if v.Some? && v.value.Num? { SafeIntegerExactly(v.value.number); }
  }

  lemma IdentityIs(lease: Json)
    requires IsJson(lease)
    ensures var binding, request := Get(Some(lease), BINDING), Get(Some(lease), REQUEST_IDENTITY);
      Identity(Some(lease)).Ok? <==>
      && IsNonemptyText(Get(binding, ASSIGNMENT_ID)) && IsNonemptyText(Get(binding, RUN_ID))
      && IsNonemptyText(Get(binding, SESSION_ID)) && IsNonemptyText(Get(binding, PRINCIPAL_ID))
      && Get(binding, GENERATION).Some? && Get(binding, GENERATION).value.Num?
      && IsPositiveSafeInteger(Get(binding, GENERATION).value.number)
      && IsNonemptyText(Get(Some(lease), OPERATION_ID))
      && Get(request, REQUEST_SIGNATURE).Some? && Get(request, REQUEST_SIGNATURE).value.Str?
  {
    hide Find, IsPositiveSafeInteger;
    hide BINDING, OPERATION_ID, REQUEST_IDENTITY, ASSIGNMENT_ID, RUN_ID, SESSION_ID, PRINCIPAL_ID, GENERATION;
    hide REQUEST_SIGNATURE, Copy;
    NamesDiffer();
  }

  lemma IdentityMembers(lease: Json)
    requires IsJson(lease)
    ensures Identity(Some(lease)).Ok? ==>
      var identity := Some(Identity(Some(lease)).value);
      && Get(identity, BINDING) == Get(Some(lease), BINDING)
        && Get(identity, OPERATION_ID) == Get(Some(lease), OPERATION_ID)
      && Get(identity, REQUEST_IDENTITY) == Get(Some(lease), REQUEST_IDENTITY)
      && identity.value.Obj? && Keys(identity.value.members) == [BINDING, OPERATION_ID, REQUEST_IDENTITY]
  {
    hide Find, IsPositiveSafeInteger;
    hide BINDING, OPERATION_ID, REQUEST_IDENTITY, ASSIGNMENT_ID, RUN_ID, SESSION_ID, PRINCIPAL_ID, GENERATION;
    hide REQUEST_SIGNATURE, Copy;
    NamesDiffer();
  }

  /** A string of at least one unit. */
  ghost predicate IsName(v: Option<Json>) {
    exists u, rest :: v == Some(Str([u] + rest))
  }

  lemma NameIs(v: Option<Json>)
    ensures IsName(v) <==> IsNonemptyText(v)
  {
    if IsNonemptyText(v) { assert v.value.text == [v.value.text[0]] + v.value.text[1..]; }
  }

  /** Checks the content of a record file against the lease it is read for. */
  function CheckRecord(c: Crypto, key: Text, identity: Json, record: Json): (r: Result<Json, OutboxError>)
    requires IsJson(identity) && IsJson(record)
    ensures r.Ok? ==> IsJson(r.value)
  {
    var signature := Get(Some(record), SIGNATURE);
    var payload := Get(Some(record), PAYLOAD);
    if Get(Some(record), SCHEMA) != Some(Str(RECORD_SCHEMA)) || signature.None? || !signature.value.Str?
       || !IsHex64(signature.value.text) || payload.None? then Err(RecordInvalid)
    else if !IsHex64(key) then Err(KeyInvalid)
    else if signature.value.text != c.mac(key, Canonical(payload.value)) then Err(SignatureInvalid)
    else
      var bound := Get(payload, IDENTITY);
      if bound.None? || Canonical(bound.value) != Canonical(identity) then Err(BindingMismatch)
      else
        var envelope := Get(payload, ENVELOPE);
        var result := Get(Get(envelope, STRUCTURED), RESULT);
        if result.None? then Err(ResultMismatch)
        else
          var own := Identity(result);
          if own.Err? then Err(own.error)
          else if Canonical(own.value) != Canonical(identity) then Err(ResultMismatch)
          else Ok(envelope.value)
  }

  /** readCompletionOutboxV2, given what the record file of the lease holds; None is a missing file. */
  function ReadRecord(c: Crypto, key: Text, lease: Json, file: Option<seq<Utf8.Byte>>)
      : (r: Result<Option<Json>, OutboxError>)
    requires IsJson(lease)
    ensures r.Ok? && r.value.Some? ==> IsJson(r.value.value) && file.Some?
  {
    var identity := Identity(Some(lease));
    if identity.Err? then Err(identity.error)
    else if file.None? then Ok(None)
    else if |file.value| > RECORD_LIMIT then Err(RecordTooLarge)
    else
      var record := Parse(Utf8.DecodeReplacing(file.value));
      if record.None? || !IsJson(record.value) then Err(Unreadable)
      else
        var envelope := CheckRecord(c, key, identity.value, record.value);
        if envelope.Err? then Err(envelope.error) else Ok(Some(envelope.value))
  }

  /** A prepared record passes every check for any lease with canonically the same identity. */
  lemma PreparedRecordChecks(c: Crypto, key: Text, identity: Json, other: Json, structured: Json)
    requires IsCrypto(c) && IsHex64(key) && IsJson(identity) && IsJson(other) && IsJson(structured)
    requires Identity(Get(Some(structured), RESULT)).Ok?
    requires Canonical(Identity(Get(Some(structured), RESULT)).value) == Canonical(identity) == Canonical(other)
    ensures CheckRecord(c, key, other, Record(c, key, RecordPayload(identity, RetainedEnvelope(structured))))
         == Ok(RetainedEnvelope(structured))
  {
    hide Get, Canonical, Identity, IsHex64, IsJson, Record, RecordPayload, RetainedEnvelope;
    hide SCHEMA, PAYLOAD, SIGNATURE, IDENTITY, ENVELOPE, STRUCTURED, RESULT, RECORD_SCHEMA;
  }

  lemma PrintedRecordReads(c: Crypto, key: Text, reader: Json, record: Json)
    requires IsJson(reader) && IsJson(record) && Identity(Some(reader)).Ok?
    requires |Utf8.Encode(Print(record))| <= RECORD_LIMIT
    ensures var checked := CheckRecord(c, key, Identity(Some(reader)).value, record);
      ReadRecord(c, key, reader, Some(Utf8.Encode(Print(record)))) == if checked.Ok? then Ok(Some(checked.value))
        else Err(checked.error)
  {
    hide Utf8.Encode, Utf8.Decode, Utf8.DecodeReplacing, Parse, Print, IsJson, CheckRecord, Identity;
    BytesRoundTrip(record);
    Utf8.DecodersAgree(Utf8.Encode(Print(record)));
  }

  lemma PreparedIs(c: Crypto, key: Text, lease: Json, envelope: Json)
    requires IsJson(lease) && IsJson(envelope) && Prepare(c, key, lease, envelope).Ok?
    ensures IsHex64(key) && Get(Some(envelope), STRUCTURED).Some? && Identity(Some(lease)).Ok?
    ensures var structured := Get(Some(envelope), STRUCTURED);
      && Get(structured, SCHEMA) == Some(Str(RESULT_SCHEMA))
      && Identity(Get(structured, RESULT)).Ok?
      && Canonical(Identity(Get(structured, RESULT)).value) == Canonical(Identity(Some(lease)).value)
    ensures var structured, identity := Get(Some(envelope), STRUCTURED).value, Identity(Some(lease)).value;
      var record := Record(c, key, RecordPayload(identity, RetainedEnvelope(structured)));
      var bytes := Utf8.Encode(Print(record));
      |bytes| <= RECORD_LIMIT &&
      Prepare(c, key, lease, envelope).value == Retention(RecordPath(c, identity), RetainedEnvelope(structured), bytes)
  {
    hide Utf8.Encode, Print, IsJson, Identity, Canonical, IsHex64, Record, RecordPayload, RetainedEnvelope, RecordPath;
    hide SCHEMA, STRUCTURED, RESULT, RESULT_SCHEMA;
  }

  /** What a retain writes, a read of the same lease identity returns. */
  lemma PreparedReadsBack(c: Crypto, key: Text, lease: Json, envelope: Json, reader: Json)
    requires IsCrypto(c) && IsJson(lease) && IsJson(envelope) && IsJson(reader)
    requires Prepare(c, key, lease, envelope).Ok? && Identity(Some(reader)).Ok?
    requires Canonical(Identity(Some(reader)).value) == Canonical(Identity(Some(lease)).value)
    ensures ReadRecord(c, key, reader, Some(Prepare(c, key, lease, envelope).value.bytes))
         == Ok(Some(Prepare(c, key, lease, envelope).value.envelope))
    ensures Get(Some(Prepare(c, key, lease, envelope).value.envelope), STRUCTURED) == Get(Some(envelope), STRUCTURED)
  {
    hide Prepare, Utf8.Encode, Print, IsJson, CheckRecord, Identity, Canonical, ReadRecord, Get, IsHex64;
    hide Record, RecordPayload, RetainedEnvelope, SCHEMA, STRUCTURED, RESULT, RESULT_SCHEMA;
    PreparedIs(c, key, lease, envelope);
    var structured := Get(Some(envelope), STRUCTURED).value;
    var identity := Identity(Some(lease)).value;
    PreparedRecordChecks(c, key, identity, Identity(Some(reader)).value, structured);
    PrintedRecordReads(c, key, reader, Record(c, key, RecordPayload(identity, RetainedEnvelope(structured))));
  }

  /** The record that a file holds, if it holds one. */
  function RecordIn(bytes: seq<Utf8.Byte>): Option<Json> {
    var record := Parse(Utf8.DecodeReplacing(bytes));
    if record.Some? && IsJson(record.value) then record else None
  }

  /** A record signed with the key, of a payload bound to this identity. */
  predicate IsSignedFor(c: Crypto, key: Text, identity: Json, record: Json)
    requires IsJson(identity) && IsJson(record)
  {
    var payload := Get(Some(record), PAYLOAD);
    && Get(Some(record), SCHEMA) == Some(Str(RECORD_SCHEMA)) && payload.Some?
    && Get(Some(record), SIGNATURE) == Some(Str(c.mac(key, Canonical(payload.value))))
    && Get(payload, IDENTITY).Some? && Canonical(Get(payload, IDENTITY).value) == Canonical(identity)
  }

  function EnvelopeIn(record: Json): Option<Json> { Get(Get(Some(record), PAYLOAD), ENVELOPE) }

  /** A signed record whose envelope holds a result of the same identity. */
  predicate IsRecordFor(c: Crypto, key: Text, identity: Json, record: Json)
    requires IsJson(identity) && IsJson(record)
  {
    var result := Identity(Get(Get(EnvelopeIn(record), STRUCTURED), RESULT));
    IsSignedFor(c, key, identity, record) && result.Ok? && Canonical(result.value) == Canonical(identity)
  }

  /** A read returns an envelope only from a record signed for the lease's identity, whose result is of
      that identity too. */
  lemma ReadIsBound(c: Crypto, key: Text, lease: Json, bytes: seq<Utf8.Byte>)
    requires IsJson(lease)
    requires ReadRecord(c, key, lease, Some(bytes)).Ok?
    ensures Identity(Some(lease)).Ok? && RecordIn(bytes).Some? && |bytes| <= RECORD_LIMIT
    ensures IsRecordFor(c, key, Identity(Some(lease)).value, RecordIn(bytes).value)
    ensures EnvelopeIn(RecordIn(bytes).value).Some?
      && ReadRecord(c, key, lease, Some(bytes)) == Ok(EnvelopeIn(RecordIn(bytes).value))
  {
    hide Utf8.DecodeReplacing, Parse, IsJson, Identity, Canonical, IsHex64, CheckRecord, EnvelopeIn, IsRecordFor;
    CheckedIsBound(c, key, Identity(Some(lease)).value, RecordIn(bytes).value);
  }

  lemma CheckedIsBound(c: Crypto, key: Text, identity: Json, record: Json)
    requires IsJson(identity) && IsJson(record) && CheckRecord(c, key, identity, record).Ok?
    ensures IsRecordFor(c, key, identity, record)
    ensures EnvelopeIn(record) == Some(CheckRecord(c, key, identity, record).value)
  {
    hide IsJson, Identity, Canonical, Find, IsHex64;
    hide SCHEMA, PAYLOAD, SIGNATURE, IDENTITY, ENVELOPE, STRUCTURED, RESULT, RECORD_SCHEMA;
  }

  /** Leases with canonically the same identity read the same from a file. */
  lemma SameIdentityReadsSame(c: Crypto, key: Text, a: Json, b: Json, file: Option<seq<Utf8.Byte>>)
    requires IsJson(a) && IsJson(b) && Identity(Some(a)).Ok? && Identity(Some(b)).Ok?
    requires Canonical(Identity(Some(a)).value) == Canonical(Identity(Some(b)).value)
    ensures ReadRecord(c, key, a, file) == ReadRecord(c, key, b, file)
  {
    hide Utf8.DecodeReplacing, Parse, IsJson, Identity, Canonical, Find, IsHex64, Get;
    hide SCHEMA, PAYLOAD, SIGNATURE, IDENTITY, ENVELOPE, STRUCTURED, RESULT, RECORD_SCHEMA;
  }

  /** A prepared record is refused for every other identity, even at a path they share. */
  lemma PreparedRecordMismatches(c: Crypto, key: Text, identity: Json, other: Json, structured: Json)
    requires IsCrypto(c) && IsHex64(key) && IsJson(identity) && IsJson(other) && IsJson(structured)
    requires Canonical(identity) != Canonical(other)
    ensures CheckRecord(c, key, other, Record(c, key, RecordPayload(identity, RetainedEnvelope(structured)))) ==
      Err(BindingMismatch)
  {
    hide Get, Canonical, Identity, IsHex64, IsJson, Record, RecordPayload, RetainedEnvelope;
    hide SCHEMA, PAYLOAD, SIGNATURE, IDENTITY, ENVELOPE, STRUCTURED, RESULT, RECORD_SCHEMA;
  }

  /** What a retain wrote is not read for another identity. */
  lemma PreparedReadsMismatch(c: Crypto, key: Text, lease: Json, envelope: Json, reader: Json)
    requires IsCrypto(c) && IsJson(lease) && IsJson(envelope) && IsJson(reader)
    requires Prepare(c, key, lease, envelope).Ok? && Identity(Some(reader)).Ok?
    requires Canonical(Identity(Some(reader)).value) != Canonical(Identity(Some(lease)).value)
    ensures ReadRecord(c, key, reader, Some(Prepare(c, key, lease, envelope).value.bytes)) == Err(BindingMismatch)
  {
    hide Prepare, Utf8.Encode, Print, IsJson, CheckRecord, Identity, Canonical, ReadRecord, Get, IsHex64;
    hide Record, RecordPayload, RetainedEnvelope, SCHEMA, STRUCTURED, RESULT, RESULT_SCHEMA;
    PreparedIs(c, key, lease, envelope);
    var structured := Get(Some(envelope), STRUCTURED).value;
    var identity := Identity(Some(lease)).value;
    PreparedRecordMismatches(c, key, identity, Identity(Some(reader)).value, structured);
    PrintedRecordReads(c, key, reader, Record(c, key, RecordPayload(identity, RetainedEnvelope(structured))));
  }

  // ---- Bounded delivery ----

  function ByteLength(v: Json): nat
    requires IsJson(v)
  {
    |Utf8.Encode(Print(v))|
  }

  function Reference(c: Crypto, identity: Json, structured: Json): (r: Json)
    requires IsJson(identity) && IsJson(structured)
    ensures IsJson(r) && Get(Some(r), SCHEMA) == Some(Str(DELIVERY_SCHEMA))
    ensures Get(Some(r), IDENTITY_SHA) == Some(Str(c.sha(Canonical(identity))))
    ensures Get(Some(r), STRUCTURED_SHA) == Some(Str(c.sha(Canonical(structured))))
    ensures r.Obj? && Keys(r.members) == [SCHEMA, IDENTITY_SHA, STRUCTURED_SHA]
  {
    NamesDiffer();
    Object3(SCHEMA, Str(DELIVERY_SCHEMA), IDENTITY_SHA, Str(c.sha(Canonical(identity))),
            STRUCTURED_SHA, Str(c.sha(Canonical(structured))))
  }

  function NoticeContent(): (r: Json)
    ensures IsJson(r)
  {
    NamesDiffer();
    Arr([Object2(TYPE, Str(TEXT), TEXT, Str(UNAVAILABLE))])
  }

  /** The last resort: the reference without the presentation. */
  function Notice(isError: bool, reference: Json): (r: Json)
    requires IsJson(reference)
    ensures IsJson(r) && r.Obj? && Get(Some(r), STRUCTURED) == Some(reference)
  {
    NamesDiffer();
    if isError then Object3(IS_ERROR, Bool(true), CONTENT, NoticeContent(), STRUCTURED, reference)
    else Object2(CONTENT, NoticeContent(), STRUCTURED, reference)
  }

  /** deliverCompletionOutboxV2 after its retain succeeded. */
  function Deliver(c: Crypto, lease: Json, envelope: Json): (r: Json)
    requires IsJson(lease) && IsJson(envelope) && Identity(Some(lease)).Ok?
    requires Get(Some(envelope), STRUCTURED).Some?
    ensures IsJson(r)
  {
    if ByteLength(envelope) <= DELIVERY_BUDGET then envelope
    else
      var reference := Reference(c, Identity(Some(lease)).value, Get(Some(envelope), STRUCTURED).value);
      SetMemberIsJson(envelope.members, STRUCTURED, reference);
      var delivery := Obj(SetMember(envelope.members, STRUCTURED, reference));
      if ByteLength(delivery) <= DELIVERY_BUDGET then delivery
      else Notice(Get(Some(envelope), IS_ERROR) == Some(Bool(true)), reference)
  }

  /** Object.keys(reference).sort().join(","). */
  function JoinKeys(keys: seq<Text>): Text {
    if keys == [] then [] else if |keys| == 1 then keys[0] else keys[0] + [COMMA] + JoinKeys(keys[1..])
  }

  const REFERENCE_KEYS := IDENTITY_SHA + [COMMA] + (SCHEMA + [COMMA] + STRUCTURED_SHA)

  predicate IsHexMember(v: Option<Json>) {
    v.Some? && v.value.Str? && IsHex64(v.value.text)
  }

  /** What the retained record restores for a reference to these two digests. */
  function Recover(c: Crypto, key: Text, lease: Json, file: Option<seq<Utf8.Byte>>, identitySha: Text,
      structuredSha: Text)
      : (r: Result<Json, OutboxError>)
    requires IsJson(lease)
    ensures r.Ok? ==> IsJson(r.value)
  {
    var identity := Identity(Some(lease));
    if identity.Err? then Err(identity.error)
    else if identitySha != c.sha(Canonical(identity.value)) then Err(DeliveryIdentityMismatch)
    else
      var retained := ReadRecord(c, key, lease, file);
      if retained.Err? then Err(retained.error)
      else if retained.value.None? then Err(DeliveryRecordMissing)
      else
        var structured := Get(retained.value, STRUCTURED);
        if structured.None? || c.sha(Canonical(structured.value)) != structuredSha then Err(DeliveryDigestMismatch)
        else Ok(structured.value)
  }

  function Hydrate(c: Crypto, key: Text, lease: Option<Json>, file: Option<seq<Utf8.Byte>>, envelope: Json)
      : (r: Result<Json, OutboxError>)
    requires (lease.Some? ==> IsJson(lease.value)) && IsJson(envelope)
    ensures r.Ok? ==> IsJson(r.value)
  {
    var reference := Get(Some(envelope), STRUCTURED);
    if Get(reference, SCHEMA) != Some(Str(DELIVERY_SCHEMA)) then Ok(envelope)
    else if lease.None? then Err(DeliveryLeaseMissing)
    else if JoinKeys(Sort(Keys(reference.value.members), TextLe)) != REFERENCE_KEYS
         || !IsHexMember(Get(reference, IDENTITY_SHA)) || !IsHexMember(Get(reference, STRUCTURED_SHA))
    then Err(DeliveryReferenceInvalid)
    else
      var structured := Recover(c, key, lease.value, file,
        Get(reference, IDENTITY_SHA).value.text, Get(reference, STRUCTURED_SHA).value.text);
      if structured.Err? then Err(structured.error)
      else
        SetMemberIsJson(envelope.members, STRUCTURED, structured.value);
        Ok(Obj(SetMember(envelope.members, STRUCTURED, structured.value)))
  }

  lemma TextOrderNoTies(s: seq<Text>)
    ensures NoTies(s, TextLe)
  {
    hide TextLe;
    forall x, y | x in s && y in s && TextLe(x, y) && TextLe(y, x) ensures x == y { TextLeAntisymmetric(x, y); }
  }

  lemma ThreeInOrder(a: Text, b: Text, c: Text)
    requires TextLe(b, a) && TextLe(a, c) && TextLe(b, c)
    ensures SortedBy([b, a, c], TextLe)
  {
    hide TextLe;
  }

  lemma SameThree(a: Text, b: Text, c: Text)
    ensures multiset([a, b, c]) == multiset([b, a, c])
  {
  }

  lemma SortThree(a: Text, b: Text, c: Text)
    requires TextLe(b, a) && TextLe(a, c) && TextLe(b, c)
    ensures Sort([a, b, c], TextLe) == [b, a, c]
  {
    hide TextLe, Sort, TotalPreorder, NoTies, SortedBy;
    ThreeInOrder(a, b, c);
    SameThree(a, b, c);
    TextLePreorder();
    SortSorted([a, b, c], TextLe);
    TextOrderNoTies(Sort([a, b, c], TextLe));
    SortedUnique(Sort([a, b, c], TextLe), [b, a, c], TextLe);
  }

  lemma JoinThree(a: Text, b: Text, c: Text)
    ensures JoinKeys([a, b, c]) == a + [COMMA] + (b + [COMMA] + c)
  {
    assert [a, b, c][1..] == [b, c] && [b, c][1..] == [c];
    assert JoinKeys([c]) == c;
    assert JoinKeys([b, c]) == b + [COMMA] + c;
  }

  lemma ReferenceNamesOrder()
    ensures TextLe(IDENTITY_SHA, SCHEMA) && TextLe(SCHEMA, STRUCTURED_SHA) && TextLe(IDENTITY_SHA, STRUCTURED_SHA)
  {
    assert IDENTITY_SHA[0] == 105 && SCHEMA[0] == STRUCTURED_SHA[0] == 115;
    assert SCHEMA[1..][0] == 99 && STRUCTURED_SHA[1..][0] == 116;
  }

  lemma ReferenceKeysSort()
    ensures JoinKeys(Sort([SCHEMA, IDENTITY_SHA, STRUCTURED_SHA], TextLe)) == REFERENCE_KEYS
  {
    hide SCHEMA, IDENTITY_SHA, STRUCTURED_SHA, Sort, JoinKeys, TextLe;
    ReferenceNamesOrder();
    SortThree(SCHEMA, IDENTITY_SHA, STRUCTURED_SHA);
    JoinThree(IDENTITY_SHA, SCHEMA, STRUCTURED_SHA);
  }

  /** A message whose structured content is the reference for this identity and content. */
  ghost predicate Refers(c: Crypto, identity: Json, structured: Json, message: Json)
    requires IsJson(identity) && IsJson(structured)
  {
    Get(Some(message), STRUCTURED) == Some(Reference(c, identity, structured))
  }

  /** The value hydration puts in place of a reference, when it accepts the reference. */
  ghost predicate Restores(c: Crypto, key: Text, identity: Json, structured: Json, lease: Json,
      file: Option<seq<Utf8.Byte>>, restored: Json)
    requires IsJson(identity) && IsJson(structured) && IsJson(lease)
  {
    && Identity(Some(lease)).Ok?
    && c.sha(Canonical(Identity(Some(lease)).value)) == c.sha(Canonical(identity))
    && ReadRecord(c, key, lease, file).Ok?
    && Get(ReadRecord(c, key, lease, file).value, STRUCTURED) == Some(restored)
    && IsJson(restored) && c.sha(Canonical(restored)) == c.sha(Canonical(structured))
  }

  lemma ReferencePasses(c: Crypto, identity: Json, structured: Json)
    requires IsCrypto(c) && IsJson(identity) && IsJson(structured)
    ensures var r := Some(Reference(c, identity, structured));
      Get(r, SCHEMA) == Some(Str(DELIVERY_SCHEMA)) &&
      JoinKeys(Sort(Keys(r.value.members), TextLe)) == REFERENCE_KEYS &&
      IsHexMember(Get(r, IDENTITY_SHA)) && IsHexMember(Get(r, STRUCTURED_SHA))
  {
    hide SCHEMA, IDENTITY_SHA, STRUCTURED_SHA, DELIVERY_SCHEMA, REFERENCE_KEYS, Reference, Canonical, IsHex64, Get;
    hide JoinKeys, Sort;
    ReferenceKeysSort();
  }

  /** A reference is accepted exactly for its own identity digest and content digest, and restores
      the retained content. */
  lemma HydrateAccepts(c: Crypto, key: Text, identity: Json, structured: Json, lease: Json,
      file: Option<seq<Utf8.Byte>>, message: Json)
    requires IsCrypto(c) && IsJson(identity) && IsJson(structured) && IsJson(lease) && IsJson(message)
    requires Refers(c, identity, structured, message)
    ensures Hydrate(c, key, Some(lease), file, message).Ok? <==>
      exists restored :: Restores(c, key, identity, structured, lease, file, restored)
    ensures forall restored :: Restores(c, key, identity, structured, lease, file, restored) ==>
      Hydrate(c, key, Some(lease), file, message) == Ok(Obj(SetMember(message.members, STRUCTURED, restored)))
  {
    hide SCHEMA, IDENTITY_SHA, STRUCTURED_SHA, STRUCTURED, DELIVERY_SCHEMA, Reference, Canonical, Find, Recover;
    hide ReadRecord, Identity, IsJson, SetMember, Restores, Hydrate, Refers, Get;
    HydrateReference(c, key, identity, structured, lease, file, message);
    RecoverRestores(c, key, identity, structured, lease, file);
  }

  lemma HydrateReference(c: Crypto, key: Text, identity: Json, structured: Json, lease: Json,
      file: Option<seq<Utf8.Byte>>, message: Json)
    requires IsCrypto(c) && IsJson(identity) && IsJson(structured) && IsJson(lease) && IsJson(message)
    requires Refers(c, identity, structured, message)
    ensures message.Obj?
    ensures var r := Recover(c, key, lease, file, c.sha(Canonical(identity)), c.sha(Canonical(structured)));
      Hydrate(c, key, Some(lease), file, message) ==
        if r.Ok? then Ok(Obj(SetMember(message.members, STRUCTURED, r.value))) else Err(r.error)
  {
    hide SCHEMA, IDENTITY_SHA, STRUCTURED_SHA, STRUCTURED, DELIVERY_SCHEMA, REFERENCE_KEYS, Reference, Canonical;
    hide IsHex64, Find, JoinKeys, Sort;
    hide Recover, IsJson, SetMember;
    ReferencePasses(c, identity, structured);
  }

  lemma RecoverRestores(c: Crypto, key: Text, identity: Json, structured: Json, lease: Json,
      file: Option<seq<Utf8.Byte>>)
    requires IsJson(identity) && IsJson(structured) && IsJson(lease)
    ensures var r := Recover(c, key, lease, file, c.sha(Canonical(identity)), c.sha(Canonical(structured)));
      (r.Ok? ==> Restores(c, key, identity, structured, lease, file, r.value)) &&
      forall restored :: Restores(c, key, identity, structured, lease, file, restored) ==> r == Ok(restored)
  {
    hide STRUCTURED, Canonical, Find, ReadRecord, Identity, IsJson;
  }

  /** The digest tells these two values apart, unless they are canonically the same. */
  predicate NoCollision(c: Crypto, a: Json, b: Json)
    requires IsJson(a) && IsJson(b)
  {
    c.sha(Canonical(a)) == c.sha(Canonical(b)) ==> Canonical(a) == Canonical(b)
  }

  lemma NoCollisionSame(c: Crypto, a: Json, b: Json)
    requires IsJson(a) && IsJson(b) && NoCollision(c, a, b) && c.sha(Canonical(a)) == c.sha(Canonical(b))
    ensures SameJson(a, b)
  {
    hide Canonical, SameJson;
    CanonicalEquality(a, b);
  }

  /** A reference is accepted only for its own lease identity and its own content, as far as the digest does not collide
      on the pairs at hand. Everything else, an unreadable record included, is refused. */
  lemma HydrateRefusesOthers(c: Crypto, key: Text, identity: Json, structured: Json, lease: Json,
      file: Option<seq<Utf8.Byte>>, message: Json)
    requires IsCrypto(c) && IsJson(identity) && IsJson(structured) && IsJson(lease) && IsJson(message)
    requires Refers(c, identity, structured, message)
    requires Identity(Some(lease)).Ok? ==> NoCollision(c, Identity(Some(lease)).value, identity)
    requires forall stored ::
      ReadRecord(c, key, lease, file).Ok? && Get(ReadRecord(c, key, lease, file).value, STRUCTURED) == Some(stored)
      && IsJson(stored) ==>
      NoCollision(c, stored, structured)
    ensures Hydrate(c, key, Some(lease), file, message).Ok? ==>
      && Identity(Some(lease)).Ok? && SameJson(Identity(Some(lease)).value, identity)
      && ReadRecord(c, key, lease, file).Ok? && Get(ReadRecord(c, key, lease, file).value, STRUCTURED).Some?
      && SameJson(Get(ReadRecord(c, key, lease, file).value, STRUCTURED).value, structured)
  {
    hide Hydrate, STRUCTURED, Reference, Canonical, IsJson, Find, ReadRecord, Identity, SameJson, SetMember;
    hide NoCollision, Refers, Get;
    HydrateAccepts(c, key, identity, structured, lease, file, message);
    if Hydrate(c, key, Some(lease), file, message).Ok? {
      var restored :| Restores(c, key, identity, structured, lease, file, restored);
      NoCollisionSame(c, Identity(Some(lease)).value, identity);
      NoCollisionSame(c, restored, structured);
    }
  }

  lemma SameJsonGet(a: Json, b: Json, key: Text)
    requires IsJson(a) && IsJson(b) && SameJson(a, b) && Get(Some(a), key).Some?
    ensures Get(Some(b), key).Some? && SameJson(Get(Some(a), key).value, Get(Some(b), key).value)
  {
    var x := Find(a.members, key).value;
    var i :| 0 <= i < |a.members| && a.members[i] == Member(key, x);
    assert HasSameMember(a.members[i], b.members);
    var j :| 0 <= j < |b.members| && b.members[j].key == key && SameJson(x, b.members[j].value);
    GetMember(b.members, j);
  }

  /** The retained record a delivery leaves behind: its own, or one that agreed with it canonically. */
  ghost predicate Agrees(c: Crypto, key: Text, lease: Json, envelope: Json, file: Option<seq<Utf8.Byte>>)
    requires IsJson(lease) && IsJson(envelope)
  {
    && Prepare(c, key, lease, envelope).Ok?
    && ReadRecord(c, key, lease, file).Ok? && ReadRecord(c, key, lease, file).value.Some?
    && Canonical(ReadRecord(c, key, lease, file).value.value) ==
      Canonical(Prepare(c, key, lease, envelope).value.envelope)
  }

  lemma RetainedAgrees(c: Crypto, key: Text, lease: Json, envelope: Json, file: Option<seq<Utf8.Byte>>)
    requires IsCrypto(c) && IsJson(lease) && IsJson(envelope) && Agrees(c, key, lease, envelope, file)
    ensures Get(Some(envelope), STRUCTURED).Some? && Identity(Some(lease)).Ok?
    ensures var retained := Get(ReadRecord(c, key, lease, file).value, STRUCTURED);
      retained.Some? && IsJson(retained.value) && SameJson(Get(Some(envelope), STRUCTURED).value, retained.value) &&
      Restores(c, key, Identity(Some(lease)).value, Get(Some(envelope), STRUCTURED).value, lease, file, retained.value)
  {
    hide Prepare, Utf8.Encode, Print, IsJson, Identity, Canonical, ReadRecord, Find, IsHex64;
    hide Record, RecordPayload, RetainedEnvelope, SCHEMA, STRUCTURED, RESULT, RESULT_SCHEMA, SameJson;
    PreparedIs(c, key, lease, envelope);
    var structured := Get(Some(envelope), STRUCTURED).value;
    var stored := ReadRecord(c, key, lease, file).value.value;
    CanonicalEquality(RetainedEnvelope(structured), stored);
    SameJsonGet(RetainedEnvelope(structured), stored, STRUCTURED);
    CanonicalEquality(structured, Get(Some(stored), STRUCTURED).value);
  }

  lemma DeliverRefers(c: Crypto, lease: Json, envelope: Json)
    requires IsJson(lease) && IsJson(envelope) && Identity(Some(lease)).Ok?
    requires Get(Some(envelope), STRUCTURED).Some?
    ensures Deliver(c, lease, envelope) == envelope ||
      Refers(c, Identity(Some(lease)).value, Get(Some(envelope), STRUCTURED).value, Deliver(c, lease, envelope))
    ensures Deliver(c, lease, envelope).Obj? && envelope.Obj?
    ensures
      var reference := Reference(c, Identity(Some(lease)).value, Get(Some(envelope), STRUCTURED).value);
      Deliver(c, lease, envelope) in
        [envelope, Obj(SetMember(envelope.members, STRUCTURED, reference)),
         Notice(Get(Some(envelope), IS_ERROR) == Some(Bool(true)), reference)]
  {
    hide ByteLength, STRUCTURED, Find, IsJson, Identity, Reference, Notice, SetMember;
    SetMemberKeys(envelope.members, STRUCTURED,
      Reference(c, Identity(Some(lease)).value, Get(Some(envelope), STRUCTURED).value));
  }

  // ---- What is delivered ----

  /** The other object has the same members in the same order, but for the structured content, which is this value. */
  ghost predicate IsReplaced(envelope: Json, value: Json, other: Json) {
    && envelope.Obj? && other.Obj? && Keys(other.members) == Keys(envelope.members)
    && Find(other.members, STRUCTURED) == Some(value)
    && forall key :: key != STRUCTURED ==> Find(other.members, key) == Find(envelope.members, key)
  }

  lemma SetMemberReplaces(envelope: Json, value: Json)
    requires envelope.Obj? && STRUCTURED in Keys(envelope.members)
    ensures IsReplaced(envelope, value, Obj(SetMember(envelope.members, STRUCTURED, value)))
  {
    hide STRUCTURED, SetMember, Find, Keys;
    SetMemberKeys(envelope.members, STRUCTURED, value);
    forall key | key != STRUCTURED
      ensures Find(SetMember(envelope.members, STRUCTURED, value), key) == Find(envelope.members, key)
    {
      SetMemberOthers(envelope.members, STRUCTURED, value, key);
    }
  }

  lemma SameMembersSame(a: seq<Member>, b: seq<Member>)
    requires DistinctKeys(a) && DistinctKeys(b) && Keys(a) == Keys(b) && forall key :: Find(a, key) == Find(b, key)
    ensures a == b
  {
    hide Find;
    assert |a| == |Keys(a)| == |b|;
    forall i | 0 <= i < |a| ensures a[i] == b[i] {
      assert Keys(a)[i] == a[i].key && Keys(b)[i] == b[i].key;
      GetMember(a, i);
      GetMember(b, i);
    }
  }

  lemma ReplacedOnce(envelope: Json, value: Json, a: Json, b: Json)
    requires IsJson(a) && IsJson(b) && IsReplaced(envelope, value, a) && IsReplaced(envelope, value, b)
    ensures a == b
  {
    hide Find, Keys, STRUCTURED;
    forall key ensures Find(a.members, key) == Find(b.members, key) {
      if key == STRUCTURED { assert Find(a.members, STRUCTURED) == Find(b.members, STRUCTURED); }
    }
    SameMembersSame(a.members, b.members);
  }

  /** The reference and, for the presentation, one text; the error mark of the envelope is kept. */
  ghost predicate IsNotice(envelope: Json, message: Json) {
    && message.Obj? && (forall key :: key in Keys(message.members) ==> key in [IS_ERROR, CONTENT, STRUCTURED])
    && Get(Some(message), IS_ERROR) == (if Get(Some(envelope), IS_ERROR) == Some(Bool(true)) then Some(Bool(true))
      else None)
    && var content := Get(Some(message), CONTENT);
       && content.Some? && content.value.Arr? && |content.value.items| == 1
       && Get(Some(content.value.items[0]), TYPE) == Some(Str(Lit("text")))
       && Get(Some(content.value.items[0]), TEXT) == Some(Str(UNAVAILABLE))
  }

  lemma NoticeIs(envelope: Json, reference: Json)
    requires IsJson(reference)
    ensures IsNotice(envelope, Notice(Get(Some(envelope), IS_ERROR) == Some(Bool(true)), reference))
  {
    hide IS_ERROR, CONTENT, STRUCTURED, NoticeContent, Object2, Object3, Find, Keys;
    NamesDiffer();
    NoticeContentReads();
    var isError := Get(Some(envelope), IS_ERROR) == Some(Bool(true));
    var message := Notice(isError, reference);
    if isError {
      ThreeKeys(IS_ERROR, Bool(true), CONTENT, NoticeContent(), STRUCTURED, reference);
    } else {
      TwoKeys(CONTENT, NoticeContent(), STRUCTURED, reference, IS_ERROR);
    }
  }

  lemma NoticeContentReads()
    ensures var content := NoticeContent();
      && content.Arr? && |content.items| == 1 && Get(Some(content.items[0]), TYPE) == Some(Str(Lit("text")))
      && Get(Some(content.items[0]), TEXT) == Some(Str(UNAVAILABLE))
  {
    hide UNAVAILABLE, Find, Object2, Keys;
    NamesDiffer();
  }

  lemma TwoKeys(k1: Text, v1: Json, k2: Text, v2: Json, other: Text)
    requires k1 != k2 && IsJson(v1) && IsJson(v2)
    ensures Object2(k1, v1, k2, v2).Obj? && Keys(Object2(k1, v1, k2, v2).members) == [k1, k2]
    ensures other != k1 && other != k2 ==> Get(Some(Object2(k1, v1, k2, v2)), other) == None
  {
    hide Find, IsJson;
    var ms := [Member(k1, v1), Member(k2, v2)];
    assert Keys(ms) == [k1, k2];
    assert Find(ms, other).Some? <==> other in [k1, k2];
  }

  lemma ThreeKeys(k1: Text, v1: Json, k2: Text, v2: Json, k3: Text, v3: Json)
    requires k1 != k2 && k1 != k3 && k2 != k3 && IsJson(v1) && IsJson(v2) && IsJson(v3)
    ensures Object3(k1, v1, k2, v2, k3, v3).Obj? && Keys(Object3(k1, v1, k2, v2, k3, v3).members) == [k1, k2, k3]
  {
    hide Find, IsJson;
  }

  /** A message fits when its text, in UTF-8, is within eight mebibytes. */
  ghost predicate Fits(v: Json)
    requires IsJson(v)
  {
    |Utf8.Encode(Print(v))| <= 8388608
  }

  /** Which message is delivered. An envelope that fits is delivered as it is; else with a reference to the
      retained record in place of its structured content and every other member as it was, if that fits; and only
      else as a notice. */
  lemma DeliverExactly(c: Crypto, lease: Json, envelope: Json)
    requires IsJson(lease) && IsJson(envelope) && Identity(Some(lease)).Ok? && Get(Some(envelope), STRUCTURED).Some?
    ensures Fits(envelope) ==> Deliver(c, lease, envelope) == envelope
    ensures !Fits(envelope) ==>
      var message := Deliver(c, lease, envelope);
      var reference := Get(Some(message), STRUCTURED);
      && reference.Some? && IsJson(reference.value) && Get(reference, SCHEMA) == Some(Str(DELIVERY_SCHEMA))
      && Get(reference, IDENTITY_SHA) == Some(Str(c.sha(Canonical(Identity(Some(lease)).value))))
      && Get(reference, STRUCTURED_SHA) == Some(Str(c.sha(Canonical(Get(Some(envelope), STRUCTURED).value))))
      && forall small :: IsJson(small) && IsReplaced(envelope, reference.value, small) ==>
           if Fits(small) then message == small else IsNotice(envelope, message)
  {
    hide STRUCTURED, IS_ERROR, Find, Keys, IsJson, Identity, Reference, Notice, SetMember, Print, Utf8.Encode, IsNotice;
    hide IsReplaced, Canonical;
    if !Fits(envelope) {
      var reference := Reference(c, Identity(Some(lease)).value, Get(Some(envelope), STRUCTURED).value);
      var delivery := Obj(SetMember(envelope.members, STRUCTURED, reference));
      SetMemberIsJson(envelope.members, STRUCTURED, reference);
      SetMemberKeys(envelope.members, STRUCTURED, reference);
      SetMemberReplaces(envelope, reference);
      NoticeIs(envelope, reference);
      forall small | IsJson(small) && IsReplaced(envelope, reference, small) ensures small == delivery {
        ReplacedOnce(envelope, reference, small, delivery);
      }
    }
  }

  /** A value to put in place of the structured content can always be put there. */
  lemma CanReplace(envelope: Json, value: Json)
    requires IsJson(envelope) && IsJson(value) && Get(Some(envelope), STRUCTURED).Some?
    ensures exists small :: IsJson(small) && IsReplaced(envelope, value, small)
  {
    hide STRUCTURED, Find, IsReplaced;
    SetMemberIsJson(envelope.members, STRUCTURED, value);
    SetMemberReplaces(envelope, value);
  }

  /** Whatever branch the delivery took, hydrating it restores the structured content (up to member order),
      and the delivered message is otherwise untouched. */
  lemma HydrateAfterDeliver(c: Crypto, key: Text, lease: Json, envelope: Json, file: Option<seq<Utf8.Byte>>)
    requires IsCrypto(c) && IsJson(lease) && IsJson(envelope) && Agrees(c, key, lease, envelope, file)
    ensures Identity(Some(lease)).Ok? && Get(Some(envelope), STRUCTURED).Some?
    ensures var message := Deliver(c, lease, envelope);
      var hydrated := Hydrate(c, key, Some(lease), file, message);
      && hydrated.Ok?
      && (message == envelope ==> hydrated.value == envelope)
      && message.Obj? && Get(Some(hydrated.value), STRUCTURED).Some?
      && SameJson(Get(Some(envelope), STRUCTURED).value, Get(Some(hydrated.value), STRUCTURED).value)
      && hydrated.value == Obj(SetMember(message.members, STRUCTURED, Get(Some(hydrated.value), STRUCTURED).value))
  {
    hide ByteLength, STRUCTURED, SCHEMA, Find, IsJson, Identity, Deliver, SetMember, ReadRecord, Restores, SameJson;
    hide Prepare, Refers;
    hide DELIVERY_SCHEMA, RESULT_SCHEMA, Canonical, Hydrate;
    var identity := Identity(Some(lease)).value;
    RetainedAgrees(c, key, lease, envelope, file);
    var structured := Get(Some(envelope), STRUCTURED).value;
    var restored := Get(ReadRecord(c, key, lease, file).value, STRUCTURED).value;
    var message := Deliver(c, lease, envelope);
    DeliverRefers(c, lease, envelope);
    if message == envelope {
      WholeEnvelopeHydrates(c, key, lease, envelope, file);
    } else {
      HydrateAccepts(c, key, identity, structured, lease, file, message);
      SetMemberKeys(message.members, STRUCTURED, restored);
    }
  }

  /** A message hydrates alike for every lease with canonically the same identity. */
  lemma SameIdentityHydrates(c: Crypto, key: Text, a: Json, b: Json, file: Option<seq<Utf8.Byte>>, message: Json)
    requires IsJson(a) && IsJson(b) && IsJson(message) && Identity(Some(a)).Ok? && Identity(Some(b)).Ok?
    requires Canonical(Identity(Some(a)).value) == Canonical(Identity(Some(b)).value)
    ensures Hydrate(c, key, Some(a), file, message) == Hydrate(c, key, Some(b), file, message)
  {
    hide IsJson, Identity, Canonical, Get, ReadRecord, Sort, JoinKeys, Keys, IsHexMember, SetMember;
    hide SCHEMA, STRUCTURED, DELIVERY_SCHEMA, REFERENCE_KEYS, IDENTITY_SHA, STRUCTURED_SHA;
    SameIdentityReadsSame(c, key, a, b, file);
  }

  lemma SchemasDiffer()
    ensures DELIVERY_SCHEMA != RESULT_SCHEMA
  {
    assert |DELIVERY_SCHEMA| == 48 && |RESULT_SCHEMA| == 46;
  }

  /** A result that fits is passed through, and no result can pose as a reference. */
  lemma WholeEnvelopeHydrates(c: Crypto, key: Text, lease: Json, envelope: Json, file: Option<seq<Utf8.Byte>>)
    requires IsJson(lease) && IsJson(envelope) && Prepare(c, key, lease, envelope).Ok?
    ensures Hydrate(c, key, Some(lease), file, envelope) == Ok(envelope)
    ensures Get(Some(envelope), STRUCTURED).Some?
    ensures SameJson(Get(Some(envelope), STRUCTURED).value, Get(Some(envelope), STRUCTURED).value)
    ensures envelope.Obj? && Obj(SetMember(envelope.members, STRUCTURED, Get(Some(envelope), STRUCTURED).value)) ==
      envelope
  {
    hide STRUCTURED, SCHEMA, IsJson, Identity, Find, ReadRecord, SameJson, Prepare, DELIVERY_SCHEMA, RESULT_SCHEMA;
    hide SetMember, Canonical;
    PreparedIs(c, key, lease, envelope);
    SchemasDiffer();
    SameJsonReflexive(Get(Some(envelope), STRUCTURED).value);
    SetMemberSame(envelope.members, STRUCTURED);
  }

  /** Replacing a member and putting its value back changes nothing. */
  lemma PutBack(ms: seq<Member>, key: Text, other: Json)
    requires key in Keys(ms)
    ensures SetMember(SetMember(ms, key, other), key, Find(ms, key).value) == ms
  {
    hide Find, SetMember;
    SetMemberKeys(ms, key, other);
    SetMemberSame(ms, key);
  }

  /** When the record on file is the delivery's own, the original structured content comes back exactly. */
  lemma HydrateOwnRecord(c: Crypto, key: Text, lease: Json, envelope: Json)
    requires IsCrypto(c) && IsJson(lease) && IsJson(envelope) && Prepare(c, key, lease, envelope).Ok?
    ensures var file := Some(Prepare(c, key, lease, envelope).value.bytes);
      var hydrated := Hydrate(c, key, Some(lease), file, Deliver(c, lease, envelope));
      hydrated.Ok? && Get(Some(hydrated.value), STRUCTURED) == Get(Some(envelope), STRUCTURED)
    ensures var file := Some(Prepare(c, key, lease, envelope).value.bytes);
      var message := Deliver(c, lease, envelope);
      message == envelope || (exists value :: IsReplaced(envelope, value, message)) ==>
        Hydrate(c, key, Some(lease), file, message) == Ok(envelope)
  {
    hide Notice, Reference, IS_ERROR, ByteLength, STRUCTURED, SCHEMA, Find, IsJson, Identity, Deliver, SetMember;
    hide ReadRecord, SameJson, Prepare, Refers, Hydrate;
    hide DELIVERY_SCHEMA, RESULT_SCHEMA, Canonical;
    var file := Some(Prepare(c, key, lease, envelope).value.bytes);
    PreparedReadsBack(c, key, lease, envelope, lease);
    RetainedAgrees(c, key, lease, envelope, file);
    var structured := Get(Some(envelope), STRUCTURED).value;
    var message := Deliver(c, lease, envelope);
    DeliverRefers(c, lease, envelope);
    if message == envelope {
      WholeEnvelopeHydrates(c, key, lease, envelope, file);
    } else {
      HydrateAccepts(c, key, Identity(Some(lease)).value, structured, lease, file, message);
      SetMemberKeys(message.members, STRUCTURED, structured);
      if value :| IsReplaced(envelope, value, message) {
        PutBackReplaced(envelope, structured, value, message);
      }
    }
  }

  /** Putting the structured content back into an envelope it was replaced in gives the envelope. */
  lemma PutBackReplaced(envelope: Json, structured: Json, value: Json, message: Json)
    requires IsJson(envelope) && IsJson(message) && IsJson(structured) && IsReplaced(envelope, value, message)
    requires Get(Some(envelope), STRUCTURED) == Some(structured)
    ensures Obj(SetMember(message.members, STRUCTURED, structured)) == envelope
  {
    hide STRUCTURED, Find, Keys, SetMember, IsJson;
    SetMemberIsJson(message.members, STRUCTURED, structured);
    SetMemberReplaces(message, structured);
    SetMemberReplaces(envelope, structured);
    SetMemberSame(envelope.members, STRUCTURED);
    ReplacedOnce(envelope, structured, Obj(SetMember(message.members, STRUCTURED, structured)), envelope);
  }

  /** A delivery whose presentation fits, whole or around a reference, hydrates from its own record to
      the whole envelope. */
  lemma FittingDeliveryHydrates(c: Crypto, key: Text, lease: Json, envelope: Json)
    requires IsCrypto(c) && IsJson(lease) && IsJson(envelope) && Prepare(c, key, lease, envelope).Ok?
    requires Get(Some(envelope), STRUCTURED).Some?
    ensures var message, file := Deliver(c, lease, envelope), Some(Prepare(c, key, lease, envelope).value.bytes);
      && Get(Some(message), STRUCTURED).Some?
      && (Fits(envelope)
          || (exists small ::
                IsJson(small) && IsReplaced(envelope, Get(Some(message), STRUCTURED).value, small) && Fits(small)) ==>
            Hydrate(c, key, Some(lease), file, message) == Ok(envelope))
  {
    hide Prepare, Deliver, Hydrate, IsReplaced, Fits, IsJson, IsCrypto, Identity, STRUCTURED, Find;
    DeliverExactly(c, lease, envelope);
    HydrateOwnRecord(c, key, lease, envelope);
  }

  // ---- Every delivered message fits ----

  lemma {:induction false} EscapeLength(s: Text)
    ensures |Escape(s)| <= 6 * |s|
    decreases |s|
  {
    if s != [] {
      if |s| > 1 && IsHigh(s[0]) && IsLow(s[1]) { EscapeLength(s[2..]); } else { EscapeLength(s[1..]); }
    }
  }

  lemma MemberLength(key: Text, v: Json)
    requires IsJson(v)
    ensures |PrintMember(Member(key, v))| <= 6 * |key| + 3 + |Print(v)|
  {
    EscapeLength(key);
  }

  lemma StrLength(s: Text)
    ensures |Print(Str(s))| <= 6 * |s| + 2
  {
    EscapeLength(s);
  }

  lemma Object2Length(k1: Text, v1: Json, k2: Text, v2: Json)
    requires k1 != k2 && IsJson(v1) && IsJson(v2)
    ensures |Print(Object2(k1, v1, k2, v2))| <= 6 * |k1| + 6 * |k2| + |Print(v1)| + |Print(v2)| + 9
  {
    hide PrintMember;
    MemberLength(k1, v1);
    MemberLength(k2, v2);
    var m1, m2 := Member(k1, v1), Member(k2, v2);
    assert Object2(k1, v1, k2, v2) == Obj([m1, m2]);
    assert [m1, m2][1..] == [m2];
    assert |PrintMembers([m2])| == |PrintMember(m2)|;
    assert |PrintMembers([m1, m2])| == |PrintMember(m1)| + 1 + |PrintMember(m2)|;
  }

  lemma Object3Length(k1: Text, v1: Json, k2: Text, v2: Json, k3: Text, v3: Json)
    requires k1 != k2 && k1 != k3 && k2 != k3 && IsJson(v1) && IsJson(v2) && IsJson(v3)
    ensures |Print(Object3(k1, v1, k2, v2, k3, v3))|
         <= 6 * |k1| + 6 * |k2| + 6 * |k3| + |Print(v1)| + |Print(v2)| + |Print(v3)| + 13
  {
    hide PrintMember;
    MemberLength(k1, v1);
    MemberLength(k2, v2);
    MemberLength(k3, v3);
    var m1, m2, m3 := Member(k1, v1), Member(k2, v2), Member(k3, v3);
    assert Object3(k1, v1, k2, v2, k3, v3) == Obj([m1, m2, m3]);
    assert [m1, m2, m3][1..] == [m2, m3] && [m2, m3][1..] == [m3];
    assert |PrintMembers([m3])| == |PrintMember(m3)|;
    assert |PrintMembers([m2, m3])| == |PrintMember(m2)| + 1 + |PrintMember(m3)|;
    assert |PrintMembers([m1, m2, m3])| == |PrintMember(m1)| + 1 + |PrintMembers([m2, m3])|;
  }

  lemma NameLengths()
    ensures |SCHEMA| <= 20 && |IDENTITY_SHA| <= 20 && |STRUCTURED_SHA| <= 20 && |IS_ERROR| <= 20 && |CONTENT| <= 20
    ensures |STRUCTURED| <= 20 && |TYPE| <= 20 && |TEXT| <= 20 && |DELIVERY_SCHEMA| <= 50 && |UNAVAILABLE| <= 200
  {
  }

  lemma ReferenceLength(c: Crypto, identity: Json, structured: Json)
    requires IsCrypto(c) && IsJson(identity) && IsJson(structured)
    ensures |Print(Reference(c, identity, structured))| <= 1500
  {
    hide SCHEMA, IDENTITY_SHA, STRUCTURED_SHA, DELIVERY_SCHEMA, Canonical, Print, Object3;
    NameLengths();
    var a, b := c.sha(Canonical(identity)), c.sha(Canonical(structured));
    assert IsHex64(a) && IsHex64(b);
    StrLength(DELIVERY_SCHEMA);
    StrLength(a);
    StrLength(b);
    NamesDiffer();
    Object3Length(SCHEMA, Str(DELIVERY_SCHEMA), IDENTITY_SHA, Str(a), STRUCTURED_SHA, Str(b));
  }

  lemma PrintSingleton(v: Json)
    requires IsJson(v)
    ensures IsJson(Arr([v])) && |Print(Arr([v]))| == |Print(v)| + 2
  {
    assert PrintItems([v]) == Print(v);
  }

  lemma TextObjectLength(k1: Text, s1: Text, k2: Text, s2: Text)
    requires k1 != k2 && |k1| <= 20 && |k2| <= 20 && |s1| <= 20 && |s2| <= 200
    ensures IsJson(Object2(k1, Str(s1), k2, Str(s2))) && |Print(Object2(k1, Str(s1), k2, Str(s2)))| <= 1900
  {
    StrLength(s1);
    StrLength(s2);
    hide Print, Object2;
    Object2Length(k1, Str(s1), k2, Str(s2));
  }

  lemma NoticeContentLength(name: Text, text: Text, unavailable: Text, content: Json)
    requires name != text && |name| <= 20 && |text| <= 20 && |unavailable| <= 200
    requires content == Arr([Object2(name, Str(text), text, Str(unavailable))])
    ensures IsJson(content) && |Print(content)| <= 2000
  {
    hide Print, Object2, IsJson;
    TextObjectLength(name, text, text, unavailable);
    PrintSingleton(Object2(name, Str(text), text, Str(unavailable)));
  }

  lemma NoticeContentIs(content: Json)
    requires content == NoticeContent()
    ensures IsJson(content) && |Print(content)| <= 2000
  {
    hide TYPE, TEXT, UNAVAILABLE, Print, Object2, IsJson;
    NameLengths();
    NamesDiffer();
    NoticeContentLength(TYPE, TEXT, UNAVAILABLE, content);
  }

  lemma NoticeLength(isError: bool, reference: Json)
    requires IsJson(reference)
    ensures |Print(Notice(isError, reference))| <= |Print(reference)| + 3000
  {
    hide IS_ERROR, CONTENT, STRUCTURED, NoticeContent, Object2, Object3;
    NameLengths();
    NamesDiffer();
    NoticeContentIs(NoticeContent());
    assert IsJson(Bool(true)) && |Print(Bool(true))| == 4;
    hide Print, IsJson;
    if isError {
      Object3Length(IS_ERROR, Bool(true), CONTENT, NoticeContent(), STRUCTURED, reference);
    } else {
      Object2Length(CONTENT, NoticeContent(), STRUCTURED, reference);
    }
  }

  /** Every delivered message is within the delivery budget. */
  lemma DeliverFits(c: Crypto, lease: Json, envelope: Json)
    requires IsCrypto(c) && IsJson(lease) && IsJson(envelope) && Identity(Some(lease)).Ok?
    requires Get(Some(envelope), STRUCTURED).Some?
    ensures ByteLength(Deliver(c, lease, envelope)) <= DELIVERY_BUDGET
  {
    hide STRUCTURED, IS_ERROR, Find, IsJson, Identity, Reference, Notice, SetMember, Print, Utf8.Encode;
    var reference := Reference(c, Identity(Some(lease)).value, Get(Some(envelope), STRUCTURED).value);
    var message := Deliver(c, lease, envelope);
    ReferenceLength(c, Identity(Some(lease)).value, Get(Some(envelope), STRUCTURED).value);
    NoticeLength(Get(Some(envelope), IS_ERROR) == Some(Bool(true)), reference);
    Utf8.EncodeLength(Print(message));
  }
}
