/**
 Coverage of provider usage: which request attempts are settled by response identities, which receipts
 account for them, and the verdict drawn from both.
 */
module ProviderUsage {
  import opened Outcomes
  import opened Texts

  /** A JSON field as far as the parsers look at it. */
  datatype Field = Undefined | NullValue | Word(text: Text) | Other

  const CODEX := Lit("codex_agent")
  const DESKTOP := Lit("desktop_computer")
  const OPENAI := Lit("openai")
  const NOT_STARTED := Lit("not_started")
  const COMPLETED := Lit("completed")
  const INTERRUPTED := Lit("interrupted")
  const FAILED := Lit("failed")
  const TURN_SCHEMA := Lit("revit-operator.provider-turn-usage/v1")
  const RESPONSE_SCHEMA := Lit("revit-operator.provider-response-usage/v1")
  const MAXIMUM := 1000

  predicate IsId(f: Field) {
    f.Word? && 1 <= |f.text| <= 256 && forall i :: 0 <= i < |f.text| ==> f.text[i] > 31
  }

  /** A usage object; a value that is no object has every field undefined. */
  datatype Raw = Raw(schema: Field, session: Field, message: Field, disposition: Field, thread: Field, turn: Field,
      ids: Option<seq<Field>>)

  const NO_OBJECT := Raw(Undefined, Undefined, Undefined, Undefined, Undefined, Undefined, None)

  /** A parsed usage. Direct responses have neither thread nor turn; turns not started have null ones. */
  datatype Usage = Usage(session: Text, message: Text, thread: Option<Text>, turn: Option<Text>, disposition: Text,
      ids: seq<Text>)

  function Words(fs: seq<Field>): (r: seq<Text>)
    requires forall i :: 0 <= i < |fs| ==> fs[i].Word?
    ensures |r| == |fs| && forall i :: 0 <= i < |fs| ==> r[i] == fs[i].text
  {
    seq(|fs|, i requires 0 <= i < |fs| => fs[i].text)
  }

  predicate AreIds(fs: seq<Field>) {
    |fs| <= MAXIMUM && (forall i :: 0 <= i < |fs| ==> IsId(fs[i])) && forall i, j :: 0 <= i < j < |fs| ==>
      fs[i] != fs[j]
  }

  function ParseTurn(r: Raw): Option<Usage> {
    if r.schema != Word(TURN_SCHEMA) || !IsId(r.session) || !IsId(r.message)
       || !(r.disposition in {Word(NOT_STARTED), Word(COMPLETED), Word(INTERRUPTED), Word(FAILED)})
       || r.ids.None? || !AreIds(r.ids.value) then None
    else if r.disposition == Word(NOT_STARTED) then
      if r.thread != NullValue || r.turn != NullValue || r.ids.value != [] then None
      else Some(Usage(r.session.text, r.message.text, None, None, NOT_STARTED, []))
    else if !IsId(r.thread) || !IsId(r.turn) then None
    else Some(Usage(r.session.text, r.message.text, Some(r.thread.text), Some(r.turn.text), r.disposition.text,
      Words(r.ids.value)))
  }

  function ParseResponse(r: Raw): Option<Usage> {
    if r.schema != Word(RESPONSE_SCHEMA) || !IsId(r.session) || !IsId(r.message)
       || !(r.disposition in {Word(COMPLETED), Word(INTERRUPTED), Word(FAILED)})
       || r.ids.None? || |r.ids.value| != 1 || !AreIds(r.ids.value) || r.thread != Undefined || r.turn != Undefined
         then None
    else Some(Usage(r.session.text, r.message.text, None, None, r.disposition.text, Words(r.ids.value)))
  }

  function Parse(direct: bool, r: Raw): Option<Usage> {
    if direct then ParseResponse(r) else ParseTurn(r)
  }

  /** A request attempt as coverage receives it. */
  datatype Row = Row(session: Field, message: Field, route: Field, turnUsage: Raw, responseUsage: Raw, conflicted: bool)

  datatype Receipt = Receipt(provider: Field, route: Field, call: Field, turn: Field)

  predicate IsDirect(row: Row) { row.route == Word(DESKTOP) }

  function UsageOf(row: Row): Option<Usage> {
    Parse(IsDirect(row), if IsDirect(row) then row.responseUsage else row.turnUsage)
  }

  predicate IsStarted(u: Usage) { u.disposition != NOT_STARTED }

  /** The response ids an attempt lays claim to. */
  function Claims(row: Row): seq<Text> {
    var u := UsageOf(row);
    if u.Some? && IsStarted(u.value) then u.value.ids else []
  }

  predicate Accounts(direct: bool, turn: Option<Text>, receipt: Receipt, id: Text) {
    && receipt.provider == Word(OPENAI) && receipt.route == Word(if direct then DESKTOP else CODEX)
    && receipt.call == Word(id) && (direct || (turn.Some? && receipt.turn == Word(turn.value)))
  }

  predicate HasReceipt(direct: bool, turn: Option<Text>, receipts: seq<Receipt>, id: Text) {
    exists i :: 0 <= i < |receipts| && Accounts(direct, turn, receipts[i], id)
  }

  predicate IsAgentRoute(route: Field) { route == Word(CODEX) || route == Word(DESKTOP) }

  // ---- The verdict, declaratively ----

  /** The response is on a receipt of the provider for the attempt's own route and, for an agent turn, for that turn. */
  ghost predicate IsBilled(direct: bool, turn: Option<Text>, receipts: seq<Receipt>, id: Text) {
    exists k ::
      && 0 <= k < |receipts| && receipts[k].provider == Word(OPENAI) && receipts[k].call == Word(id)
      && (if direct then receipts[k].route == Word(DESKTOP)
          else receipts[k].route == Word(CODEX) && turn.Some? && receipts[k].turn == Word(turn.value))
  }

  lemma BilledIs(direct: bool, turn: Option<Text>, receipts: seq<Receipt>, id: Text)
    ensures IsBilled(direct, turn, receipts, id) <==> HasReceipt(direct, turn, receipts, id)
  {
    hide OPENAI, DESKTOP, CODEX;
    if i :| 0 <= i < |receipts| && Accounts(direct, turn, receipts[i], id) { }
    if IsBilled(direct, turn, receipts, id) {
      var k :|
        && 0 <= k < |receipts| && receipts[k].provider == Word(OPENAI) && receipts[k].call == Word(id)
        && (if direct then receipts[k].route == Word(DESKTOP)
            else receipts[k].route == Word(CODEX) && turn.Some? && receipts[k].turn == Word(turn.value));
      assert Accounts(direct, turn, receipts[k], id);
    }
  }

  /** An attempt with a well-formed usage of its own, every response of it on a receipt. */
  ghost predicate IsSettled(row: Row, receipts: seq<Receipt>) {
    && IsId(row.session) && IsId(row.message) && !row.conflicted
    && (row.route == Undefined || IsAgentRoute(row.route))
    && UsageOf(row).Some?
    && var u := UsageOf(row).value;
       && Word(u.session) == row.session && Word(u.message) == row.message
       && (u.disposition != NOT_STARTED ==>
             u.ids != [] && forall i :: 0 <= i < |u.ids| ==>
               IsBilled(row.route == Word(DESKTOP), u.turn, receipts, u.ids[i]))
  }

  /** No two attempts are the same request, and none claims another's response. */
  ghost predicate AreIndependent(a: Row, b: Row) {
    (a.session, a.message) != (b.session, b.message) && forall id :: id in Claims(a) ==> id !in Claims(b)
  }

  ghost predicate IsClaimed(rows: seq<Row>, id: Text) {
    exists i :: 0 <= i < |rows| && id in Claims(rows[i])
  }

  ghost predicate RowsComplete(rows: seq<Row>, receipts: seq<Receipt>) {
    && (forall i :: 0 <= i < |rows| ==> IsSettled(rows[i], receipts))
    && (forall i, j :: 0 <= i < j < |rows| ==> AreIndependent(rows[i], rows[j]))
  }

  ghost predicate ReceiptsClaimed(rows: seq<Row>, receipts: seq<Receipt>) {
    forall r :: r in receipts && IsAgentRoute(r.route) ==> r.call.Word? && IsClaimed(rows, r.call.text)
  }

  ghost predicate IsComplete(attempts: Option<seq<Row>>, receipts: Option<seq<Receipt>>) {
    && attempts.Some? && 1 <= |attempts.value| <= MAXIMUM && receipts.Some? && |receipts.value| <= MAXIMUM
    && RowsComplete(attempts.value, receipts.value) && ReceiptsClaimed(attempts.value, receipts.value)
  }

  ghost predicate IsUninvoked(attempts: Option<seq<Row>>, receipts: Option<seq<Receipt>>) {
    && IsComplete(attempts, receipts) && receipts.value == []
    && forall i :: 0 <= i < |attempts.value| ==>
         !IsDirect(attempts.value[i]) && UsageOf(attempts.value[i]).Some?
           && !IsStarted(UsageOf(attempts.value[i]).value)
  }

  // ---- buildProviderUsageCoverageV1 ----

  datatype RowCover = RowCover(usage: Option<Usage>, direct: bool, complete: bool, missing: seq<Text>)

  datatype Coverage = Coverage(requestCount: nat, rows: seq<RowCover>, unassigned: seq<Field>, complete: bool,
      uninvoked: bool)

  function Missing(direct: bool, turn: Option<Text>, receipts: seq<Receipt>, ids: seq<Text>): seq<Text> {
    if ids == [] then []
    else
      (if HasReceipt(direct, turn, receipts, ids[0]) then [] else [ids[0]]) + Missing(direct, turn, receipts, ids[1..])
  }

  lemma {:induction false} NoneMissing(direct: bool, turn: Option<Text>, receipts: seq<Receipt>, ids: seq<Text>)
    ensures Missing(direct, turn, receipts, ids) == [] <==> forall i :: 0 <= i < |ids| ==>
      HasReceipt(direct, turn, receipts, ids[i])
  {
    if ids != [] {
      NoneMissing(direct, turn, receipts, ids[1..]);
      assert forall i :: 0 <= i < |ids| - 1 ==> ids[1..][i] == ids[i + 1];
      if forall i :: 0 <= i < |ids| - 1 ==> HasReceipt(direct, turn, receipts, ids[1..][i]) {
        forall i | 1 <= i < |ids| ensures HasReceipt(direct, turn, receipts, ids[i]) {
          assert ids[i] == ids[1..][i - 1];
        }
      }
    }
  }

  lemma MissingStep(direct: bool, turn: Option<Text>, receipts: seq<Receipt>, ids: seq<Text>, i: nat)
    requires i < |ids|
    ensures Missing(direct, turn, receipts, ids[i..]) ==
      (if HasReceipt(direct, turn, receipts, ids[i]) then [] else [ids[i]]) +
        Missing(direct, turn, receipts, ids[i + 1..])
  {
    hide HasReceipt;
    assert ids[i..][1..] == ids[i + 1..];
  }

  /** The ids of one attempt: any claimed before, and any without a receipt. */
  method CoverIds(u: Usage, direct: bool, receipts: seq<Receipt>, covered: set<Text>)
      returns (unclaimed: bool, missing: seq<Text>, after: set<Text>)
    requires forall i, j :: 0 <= i < j < |u.ids| ==> u.ids[i] != u.ids[j]
    ensures unclaimed <==> forall i :: 0 <= i < |u.ids| ==> u.ids[i] !in covered
    ensures missing == Missing(direct, u.turn, receipts, u.ids)
    ensures after == covered + set id | id in u.ids
  {
    hide HasReceipt, Missing;
    var ids := u.ids;
    NothingMissingOfNone(direct, u.turn, receipts);
    unclaimed, missing, after := true, [], covered;
    assert ids[0..] == ids;
    for i := 0 to |ids|
      invariant unclaimed <==> forall j :: 0 <= j < i ==> ids[j] !in covered
      invariant missing + Missing(direct, u.turn, receipts, ids[i..]) == Missing(direct, u.turn, receipts, ids)
      invariant forall id :: id in after <==> id in covered || id in ids[..i]
    {
      MissingStep(direct, u.turn, receipts, ids, i);
      assert ids[..i + 1] == ids[..i] + [ids[i]];
      assert ids[i] in after <==> ids[i] in covered;
      if ids[i] in after { unclaimed := false; }
      after := after + {ids[i]};
      if !HasReceipt(direct, u.turn, receipts, ids[i]) {
        Regroup(missing, ids[i], Missing(direct, u.turn, receipts, ids[i + 1..]));
        missing := missing + [ids[i]];
      }
    }
    assert ids[..|ids|] == ids && ids[|ids|..] == [];
  }

  lemma ParsedIdsDistinct(row: Row)
    requires UsageOf(row).Some?
    ensures forall i, j :: 0 <= i < j < |UsageOf(row).value.ids| ==>
      UsageOf(row).value.ids[i] != UsageOf(row).value.ids[j]
  {
    hide CODEX, DESKTOP, NOT_STARTED, COMPLETED, INTERRUPTED, FAILED, TURN_SCHEMA, RESPONSE_SCHEMA;
  }

  /** Covers one attempt against everything seen before it. */
  method CoverRow(row: Row, receipts: seq<Receipt>, keys: set<(Field, Field)>, covered: set<Text>)
      returns (r: RowCover, after: set<Text>)
    ensures r.complete <==>
      IsSettled(row, receipts) && (row.session, row.message) !in keys
      && (forall id :: id in Claims(row) ==> id !in covered)
    ensures r.usage == UsageOf(row) && r.direct == IsDirect(row)
    ensures r.missing == Lacking(row, receipts)
    ensures after == covered + set id | id in Claims(row)
  {
    hide CODEX, DESKTOP, NOT_STARTED, OPENAI, IsId, Parse, HasReceipt, IsBilled, Missing;
    var usage := UsageOf(row);
    forall turn: Option<Text>, id ensures IsBilled(IsDirect(row), turn, receipts, id) <==>
      HasReceipt(IsDirect(row), turn, receipts, id)
    {
      BilledIs(IsDirect(row), turn, receipts, id);
    }
    var valid := IsId(row.session) && IsId(row.message) && (row.session, row.message) !in keys && !row.conflicted;
    var direct := IsDirect(row);
    if row.route != Undefined && row.route != Word(CODEX) && !direct { valid := false; }
    if usage.None? { valid := false; }
    if usage.Some? && (Word(usage.value.session) != row.session || Word(usage.value.message) != row.message) {
      valid := false;
    }
    var missing: seq<Text> := [];
    after := covered;
    if usage.Some? && IsStarted(usage.value) {
      if |usage.value.ids| == 0 { valid := false; }
      ParsedIdsDistinct(row);
      var unclaimed, lacking, now := CoverIds(usage.value, direct, receipts, covered);
      NoneMissing(direct, usage.value.turn, receipts, usage.value.ids);
      NothingMissingOfNone(direct, usage.value.turn, receipts);
      missing, after := lacking, now;
      if !unclaimed || |missing| > 0 { valid := false; }
    }
    r := RowCover(usage, direct, valid, missing);
  }

  lemma NothingMissingOfNone(direct: bool, turn: Option<Text>, receipts: seq<Receipt>)
    ensures Missing(direct, turn, receipts, []) == []
  {
  }

  ghost function KeysOf(rows: seq<Row>): set<(Field, Field)> {
    set i | 0 <= i < |rows| :: (rows[i].session, rows[i].message)
  }

  ghost function ClaimsOf(rows: seq<Row>): set<Text> { set i, id | 0 <= i < |rows| && id in Claims(rows[i]) :: id }

  function Unassigned(receipts: seq<Receipt>, covered: set<Text>): seq<Field> {
    if receipts == [] then [] else
      var head := if IsAgentRoute(receipts[0].route) && !(receipts[0].call.Word? && receipts[0].call.text in covered)
        then [receipts[0].call] else [];
      head + Unassigned(receipts[1..], covered)
  }

  lemma {:induction false} NoneUnassigned(receipts: seq<Receipt>, covered: set<Text>)
    ensures Unassigned(receipts, covered) == [] <==>
      forall r :: r in receipts && IsAgentRoute(r.route) ==> r.call.Word? && r.call.text in covered
  {
    hide IsAgentRoute;
    if receipts != [] {
      NoneUnassigned(receipts[1..], covered);
      assert forall r :: r in receipts <==> r == receipts[0] || r in receipts[1..];
    }
  }

  /** An attempt that is settled and independent of those before it. */
  ghost predicate Stands(rows: seq<Row>, i: nat, receipts: seq<Receipt>)
    requires i < |rows|
  {
    && IsSettled(rows[i], receipts) && (rows[i].session, rows[i].message) !in KeysOf(rows[..i])
    && forall id :: id in Claims(rows[i]) ==> id !in ClaimsOf(rows[..i])
  }

  /** The ids an attempt claims that no receipt accounts for, in claim order. */
  function Lacking(row: Row, receipts: seq<Receipt>): seq<Text> {
    if Claims(row) == [] then [] else Missing(IsDirect(row), UsageOf(row).value.turn, receipts, Claims(row))
  }

  lemma ExtendComplete(rows: seq<Row>, i: nat, receipts: seq<Receipt>)
    requires i < |rows|
    ensures RowsComplete(rows[..i + 1], receipts) <==> RowsComplete(rows[..i], receipts) && Stands(rows, i, receipts)
  {
    hide IsSettled, Claims;
    var front, all := rows[..i], rows[..i + 1];
    assert all == front + [rows[i]];
    if RowsComplete(all, receipts) {
      forall j | 0 <= j < i ensures IsSettled(front[j], receipts) && AreIndependent(front[j], rows[i]) {
        assert all[j] == front[j] && all[i] == rows[i];
      }
      forall j, k | 0 <= j < k < i ensures AreIndependent(front[j], front[k]) {
        assert all[j] == front[j] && all[k] == front[k];
      }
      assert IsSettled(all[i], receipts);
    }
    if RowsComplete(front, receipts) && Stands(rows, i, receipts) {
      forall j | 0 <= j < i ensures AreIndependent(all[j], all[i]) {
        assert all[j] == front[j];
        assert (front[j].session, front[j].message) in KeysOf(front);
      }
    }
  }

  lemma ExtendSets(rows: seq<Row>, i: nat)
    requires i < |rows|
    ensures KeysOf(rows[..i + 1]) == KeysOf(rows[..i]) + {(rows[i].session, rows[i].message)}
    ensures ClaimsOf(rows[..i + 1]) == ClaimsOf(rows[..i]) + set id | id in Claims(rows[i])
  {
    hide Claims;
    assert rows[..i + 1] == rows[..i] + [rows[i]];
    var all := rows[..i + 1];
    assert all[i] == rows[i];
    assert forall j :: 0 <= j < i ==> all[j] == rows[..i][j];
  }

  ghost predicate IsCoverOf(c: RowCover, rows: seq<Row>, i: nat, receipts: seq<Receipt>)
    requires i < |rows|
  {
    && c.usage == UsageOf(rows[i]) && c.direct == IsDirect(rows[i]) && c.missing == Lacking(rows[i], receipts)
    && (c.complete <==> Stands(rows, i, receipts))
  }

  lemma CoverStands(c: RowCover, rows: seq<Row>, i: nat, receipts: seq<Receipt>)
    requires i < |rows| && c.usage == UsageOf(rows[i]) && c.direct == IsDirect(rows[i])
      && c.missing == Lacking(rows[i], receipts)
    requires c.complete <==>
      IsSettled(rows[i], receipts) && (rows[i].session, rows[i].message) !in KeysOf(rows[..i])
      && (forall id :: id in Claims(rows[i]) ==> id !in ClaimsOf(rows[..i]))
    ensures IsCoverOf(c, rows, i, receipts)
  {
  }

  /** The coverage verdict holds exactly when every attempt is settled, attempts are independent, and the
      agent receipts are exactly accounted for. */
  method BuildCoverage(attempts: Option<seq<Row>>, receipts: Option<seq<Receipt>>) returns (c: Coverage)
    ensures c.complete <==> IsComplete(attempts, receipts)
    ensures c.uninvoked <==> IsUninvoked(attempts, receipts)
    ensures c.requestCount == if attempts.Some? then |attempts.value| else 0
    ensures attempts.Some? && |attempts.value| <= MAXIMUM && receipts.Some? && |receipts.value| <= MAXIMUM ==>
      (&& |c.rows| == |attempts.value| && c.unassigned == Unassigned(receipts.value, ClaimsOf(attempts.value))
       && forall i :: 0 <= i < |c.rows| ==> IsCoverOf(c.rows[i], attempts.value, i, receipts.value))
  {
    hide IsSettled, Claims, Stands, Lacking, UsageOf, CODEX, DESKTOP, IsAgentRoute, RowsComplete, KeysOf, ClaimsOf;
    var all := if attempts.Some? then attempts.value else [];
    var some := if receipts.None? then [] else if |receipts.value| <= MAXIMUM then receipts.value
      else receipts.value[..MAXIMUM];
    var rows := if |all| <= MAXIMUM then all else all[..MAXIMUM];
    var bounded := 0 < |all| <= MAXIMUM && receipts.Some? && |receipts.value| <= MAXIMUM;
    var complete := bounded;
    var keys: set<(Field, Field)>, covered: set<Text> := {}, {};
    var covers: seq<RowCover> := [];
    var idle := true;
    EmptyRows(some);
    assert rows[..0] == [];
    for i := 0 to |rows|
      invariant complete <==> bounded && RowsComplete(rows[..i], some)
      invariant keys == KeysOf(rows[..i]) && covered == ClaimsOf(rows[..i])
      invariant |covers| == i && forall j :: 0 <= j < i ==> IsCoverOf(covers[j], rows, j, some)
      invariant idle <==> forall j :: 0 <= j < i ==>
        !IsDirect(rows[j]) && UsageOf(rows[j]).Some? && !IsStarted(UsageOf(rows[j]).value)
    {
      ExtendComplete(rows, i, some);
      ExtendSets(rows, i);
      var cover, after := CoverRow(rows[i], some, keys, covered);
      CoverStands(cover, rows, i, some);
      keys := keys + {(rows[i].session, rows[i].message)};
      covered := after;
      complete := complete && cover.complete;
      covers := covers + [cover];
      idle := idle && !cover.direct && cover.usage.Some? && !IsStarted(cover.usage.value);
    }
    assert rows[..|rows|] == rows;
    var unassigned := Unassigned(some, covered);
    NoneUnassigned(some, covered);
    ClaimedIsClaims(rows);
    if |unassigned| > 0 { complete := false; }
    c := Coverage(|all|, covers, unassigned, complete, complete && idle && |some| == 0);
  }

  lemma EmptyRows(receipts: seq<Receipt>)
    ensures RowsComplete([], receipts) && KeysOf([]) == {} && ClaimsOf([]) == {}
  {
  }

  lemma ClaimedIsClaims(rows: seq<Row>)
    ensures forall id :: id in ClaimsOf(rows) <==> IsClaimed(rows, id)
  {
  }

  // ---- What the verdict means ----

  /** In a complete coverage, the call ids of the agent receipts are exactly the ids the attempts claim. */
  lemma CompleteAccountsForAll(rows: seq<Row>, receipts: seq<Receipt>)
    requires IsComplete(Some(rows), Some(receipts))
    ensures (set r | r in receipts && IsAgentRoute(r.route) :: r.call) == (set id | id in ClaimsOf(rows) :: Word(id))
    ensures forall i, j, id :: 0 <= i < |rows| && 0 <= j < |rows| && id in Claims(rows[i]) && id in Claims(rows[j]) ==>
      i == j
  {
    hide CODEX, DESKTOP, OPENAI, NOT_STARTED, IsId, Parse, UsageOf, IsBilled, IsAgentRoute;
    ClaimedIsClaims(rows);
    forall id | id in ClaimsOf(rows) ensures exists r :: r in receipts && IsAgentRoute(r.route) && r.call == Word(id) {
      var i :| 0 <= i < |rows| && id in Claims(rows[i]);
      assert IsSettled(rows[i], receipts);
      var u := UsageOf(rows[i]).value;
      var k :| 0 <= k < |u.ids| && u.ids[k] == id;
      BilledCall(rows[i].route == Word(DESKTOP), u.turn, receipts, u.ids[k]);
    }
    forall i, j, id | 0 <= i < |rows| && 0 <= j < |rows| && id in Claims(rows[i]) && id in Claims(rows[j])
      ensures i == j
    {
      assert i < j ==> AreIndependent(rows[i], rows[j]);
      assert j < i ==> AreIndependent(rows[j], rows[i]);
    }
  }

  lemma SettledMonotone(row: Row, a: seq<Receipt>, b: seq<Receipt>)
    requires IsSettled(row, a) && forall r :: r in a ==> r in b
    ensures IsSettled(row, b)
  {
    hide IsId, UsageOf, CODEX, DESKTOP, OPENAI, NOT_STARTED, IsBilled;
    var u, direct := UsageOf(row).value, row.route == Word(DESKTOP);
    forall i | IsStarted(u) && 0 <= i < |u.ids| ensures IsBilled(direct, u.turn, b, u.ids[i]) {
      BilledMonotone(direct, u.turn, a, b, u.ids[i]);
    }
  }

  lemma BilledMonotone(direct: bool, turn: Option<Text>, a: seq<Receipt>, b: seq<Receipt>, id: Text)
    requires IsBilled(direct, turn, a, id) && forall r :: r in a ==> r in b
    ensures IsBilled(direct, turn, b, id)
  {
    var k :|
      && 0 <= k < |a| && a[k].provider == Word(OPENAI) && a[k].call == Word(id)
      && (if direct then a[k].route == Word(DESKTOP)
          else a[k].route == Word(CODEX) && turn.Some? && a[k].turn == Word(turn.value));
    assert a[k] in b;
    var j :| 0 <= j < |b| && b[j] == a[k];
  }

  /** A billed response is on an agent receipt. */
  lemma BilledCall(direct: bool, turn: Option<Text>, receipts: seq<Receipt>, id: Text)
    requires IsBilled(direct, turn, receipts, id)
    ensures exists r :: r in receipts && IsAgentRoute(r.route) && r.call == Word(id)
  {
    hide OPENAI, DESKTOP, CODEX;
    var k :|
      && 0 <= k < |receipts| && receipts[k].provider == Word(OPENAI) && receipts[k].call == Word(id)
      && (if direct then receipts[k].route == Word(DESKTOP)
          else receipts[k].route == Word(CODEX) && turn.Some? && receipts[k].turn == Word(turn.value));
    assert receipts[k] in receipts;
  }

  lemma CompleteWithSameReceipts(attempts: Option<seq<Row>>, a: seq<Receipt>, b: seq<Receipt>)
    requires multiset(a) == multiset(b) && IsComplete(attempts, Some(a))
    ensures IsComplete(attempts, Some(b))
  {
    hide IsSettled, AreIndependent, IsClaimed, IsAgentRoute;
    forall r ensures r in a <==> r in b {
      assert r in multiset(a) <==> r in multiset(b);
    }
    assert |a| == |multiset(a)| == |multiset(b)| == |b|;
    forall i | 0 <= i < |attempts.value| ensures IsSettled(attempts.value[i], b) {
      SettledMonotone(attempts.value[i], a, b);
    }
  }

  /** Neither verdict depends on the order of the receipts. */
  lemma ReceiptOrderIrrelevant(attempts: Option<seq<Row>>, a: seq<Receipt>, b: seq<Receipt>)
    requires multiset(a) == multiset(b)
    ensures IsComplete(attempts, Some(a)) <==> IsComplete(attempts, Some(b))
    ensures IsUninvoked(attempts, Some(a)) <==> IsUninvoked(attempts, Some(b))
  {
    hide IsComplete;
    if IsComplete(attempts, Some(a)) { CompleteWithSameReceipts(attempts, a, b); }
    if IsComplete(attempts, Some(b)) { CompleteWithSameReceipts(attempts, b, a); }
    assert |a| == |multiset(a)| == |multiset(b)| == |b|;
  }
}
