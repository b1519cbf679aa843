/**
 The host's ledger of request attempts: attempts are begun by the host, and response metadata can only settle or
 spoil an attempt that exists.
 */
module ProviderLedger {
  import opened Outcomes
  import opened Texts
  import opened ProviderUsage

  type Key = (Text, Text)

  datatype LedgerRow = LedgerRow(direct: bool, usage: Option<Usage>, conflicted: bool)

  /** What the ledger holds: rows by request, the order they were begun in, and whether it overflowed. */
  datatype LedgerState = LedgerState(attempts: map<Key, LedgerRow>, order: seq<Key>, overflow: bool)

  /** The two usage fields of a response; None is an absent field. */
  datatype Response = Response(turnUsage: Option<Raw>, responseUsage: Option<Raw>)

  datatype Event =
    | Begin(session: Field, message: Field, route: Field)
    | Observe(session: Field, message: Field, response: Response)

  function KeyOf(session: Field, message: Field): Option<Key> {
    if session.Word? && message.Word? then Some((session.text, message.text)) else None
  }

  // ---- What one event does ----

  function Began(s: LedgerState, session: Field, message: Field, route: Field): LedgerState {
    var chosen := if route == Undefined then Word(CODEX) else route;
    if !IsId(session) || !IsId(message) || !IsAgentRoute(chosen) then s.(overflow := true)
    else
      var key, direct := (session.text, message.text), chosen == Word(DESKTOP);
      if key in s.attempts then
        if s.attempts[key].direct == direct then s
        else s.(attempts := s.attempts[key := s.attempts[key].(conflicted := true)])
      else if |s.order| >= MAXIMUM then s.(overflow := true)
      else s.(attempts := s.attempts[key := LedgerRow(direct, None, false)], order := s.order + [key])
  }

  /** What a response says about an attempt. */
  datatype Reading = Silent | Spoils | Settles(usage: Usage)

  function Read(key: Key, direct: bool, response: Response): Reading {
    var own := if direct then response.responseUsage else response.turnUsage;
    var foreign := if direct then response.turnUsage else response.responseUsage;
    if own.None? then (if foreign.None? then Silent else Spoils)
    else
      var usage := Parse(direct, own.value);
      if usage.None? || (usage.value.session, usage.value.message) != key then Spoils else Settles(usage.value)
  }

  function RowAfter(row: LedgerRow, reading: Reading): LedgerRow {
    match reading
    case Silent => row
    case Spoils => row.(conflicted := true)
    case Settles(u) =>
      if row.usage.None? then row.(usage := Some(u))
      else if row.usage.value == u then row else row.(conflicted := true)
  }

  function Observed(s: LedgerState, session: Field, message: Field, response: Response): LedgerState {
    var key := KeyOf(session, message);
    if key.None? || key.value !in s.attempts then s
    else s.(attempts := s.attempts[key.value :=
      RowAfter(s.attempts[key.value], Read(key.value, s.attempts[key.value].direct, response))])
  }

  function After(s: LedgerState, e: Event): LedgerState {
    match e
    case Begin(session, message, route) => Began(s, session, message, route)
    case Observe(session, message, response) => Observed(s, session, message, response)
  }

  function Run(s: LedgerState, events: seq<Event>): LedgerState {
    if events == [] then s else After(Run(s, events[..|events| - 1]), events[|events| - 1])
  }

  /** The stored attempt as coverage reads it again. */
  function RawUsage(direct: bool, u: Usage): Raw {
    var ids := seq(|u.ids|, i requires 0 <= i < |u.ids| => Word(u.ids[i]));
    if direct then Raw(Word(RESPONSE_SCHEMA), Word(u.session), Word(u.message), Word(u.disposition), Undefined,
      Undefined, Some(ids))
    else Raw(Word(TURN_SCHEMA), Word(u.session), Word(u.message), Word(u.disposition),
             if u.thread.None? then NullValue else Word(u.thread.value), if u.turn.None? then NullValue
               else Word(u.turn.value), Some(ids))
  }

  function AsRow(key: Key, row: LedgerRow): Row {
    var stored := if row.usage.None? then NO_OBJECT else RawUsage(row.direct, row.usage.value);
    Row(Word(key.0), Word(key.1), if row.direct then Word(DESKTOP) else Undefined,
        if row.direct then NO_OBJECT else stored, if row.direct then stored else NO_OBJECT, row.conflicted)
  }

  function Rows(s: LedgerState): (rows: seq<Row>)
    requires forall i :: 0 <= i < |s.order| ==> s.order[i] in s.attempts
  {
    seq(|s.order|, i requires 0 <= i < |s.order| => AsRow(s.order[i], s.attempts[s.order[i]]))
  }

  // ---- The invariant ----

  /** A row's usage belongs to the row's own request and survives being parsed again. */
  predicate IsOwnRow(key: Key, row: LedgerRow) {
    && IsId(Word(key.0)) && IsId(Word(key.1))
    && (row.usage.Some? ==>
      (row.usage.value.session, row.usage.value.message) == key
      && Parse(row.direct, RawUsage(row.direct, row.usage.value)) == row.usage)
  }

  ghost predicate Valid(s: LedgerState) {
    && |s.order| <= MAXIMUM
    && (forall i, j :: 0 <= i < j < |s.order| ==> s.order[i] != s.order[j])
    && (forall key :: key in s.attempts <==> key in s.order)
    && (forall key :: key in s.attempts ==> IsOwnRow(key, s.attempts[key]))
  }

  /** What a ledger that has moved on from s to t still holds. */
  ghost predicate Extends(s: LedgerState, t: LedgerState) {
    && (s.overflow ==> t.overflow) && s.order <= t.order
    && forall key :: key in s.attempts ==>
         (&& key in t.attempts && t.attempts[key].direct == s.attempts[key].direct
          && (s.attempts[key].conflicted ==> t.attempts[key].conflicted)
          && (s.attempts[key].usage.Some? ==> t.attempts[key].usage == s.attempts[key].usage))
  }

  /** A parsed usage parses again to itself. */
  lemma ParseFixed(direct: bool, raw: Raw)
    requires Parse(direct, raw).Some?
    ensures var u := Parse(direct, raw).value; Parse(direct, RawUsage(direct, u)) == Some(u)
  {
    hide CODEX, DESKTOP, NOT_STARTED, COMPLETED, INTERRUPTED, FAILED, TURN_SCHEMA, RESPONSE_SCHEMA;
    var u := Parse(direct, raw).value;
    var again := RawUsage(direct, u).ids.value;
    if |u.ids| > 0 { assert again == raw.ids.value; }
    assert Words(again) == u.ids;
  }

  lemma ReadIsOwn(key: Key, direct: bool, response: Response)
    requires IsId(Word(key.0)) && IsId(Word(key.1)) && Read(key, direct, response).Settles?
    ensures IsOwnRow(key, LedgerRow(direct, Some(Read(key, direct, response).usage), false))
  {
    hide Parse, IsId, RawUsage;
    ParseFixed(direct, if direct then response.responseUsage.value else response.turnUsage.value);
  }

  lemma IdIsWord(f: Field)
    requires IsId(f)
    ensures f.Word?
  {
  }

  /** Replacing a row by one that keeps what it recorded. */
  lemma ReplaceKeeps(s: LedgerState, key: Key, row: LedgerRow)
    requires Valid(s) && key in s.attempts && IsOwnRow(key, row)
    requires row.direct == s.attempts[key].direct && (s.attempts[key].conflicted ==> row.conflicted)
    requires s.attempts[key].usage.Some? ==> row.usage == s.attempts[key].usage
    ensures var t := s.(attempts := s.attempts[key := row]); Valid(t) && Extends(s, t)
  {
    hide IsOwnRow;
  }

  lemma AppendKeeps(s: LedgerState, key: Key, row: LedgerRow)
    requires Valid(s) && key !in s.attempts && |s.order| < MAXIMUM && IsOwnRow(key, row)
    ensures var t := s.(attempts := s.attempts[key := row], order := s.order + [key]); Valid(t) && Extends(s, t)
  {
    hide IsOwnRow;
  }

  lemma OwnRowSpoilt(key: Key, row: LedgerRow)
    requires IsOwnRow(key, row)
    ensures IsOwnRow(key, row.(conflicted := true))
  {
    hide IsId, Parse, RawUsage;
  }

  lemma SameKeeps(s: LedgerState)
    requires Valid(s)
    ensures Extends(s, s) && Valid(s.(overflow := true)) && Extends(s, s.(overflow := true))
  {
    hide IsOwnRow;
  }

  lemma AfterKeeps(s: LedgerState, e: Event)
    requires Valid(s)
    ensures Valid(After(s, e)) && Extends(s, After(s, e))
  {
    hide Parse, IsId, RawUsage, CODEX, DESKTOP, IsAgentRoute, Read, Extends;
    SameKeeps(s);
    if e.Observe? {
      var key := KeyOf(e.session, e.message);
      if key.Some? && key.value in s.attempts {
        var row := s.attempts[key.value];
        var reading := Read(key.value, row.direct, e.response);
        if reading.Settles? { ReadIsOwn(key.value, row.direct, e.response); }
        ReplaceKeeps(s, key.value, RowAfter(row, reading));
      }
    } else if IsId(e.session) && IsId(e.message) {
      IdIsWord(e.session);
      IdIsWord(e.message);
      var key := (e.session.text, e.message.text);
      var chosen := if e.route == Undefined then Word(CODEX) else e.route;
      if key in s.attempts {
        OwnRowSpoilt(key, s.attempts[key]);
        ReplaceKeeps(s, key, s.attempts[key].(conflicted := true));
      } else if |s.order| < MAXIMUM {
        AppendKeeps(s, key, LedgerRow(chosen == Word(DESKTOP), None, false));
      }
    }
  }

  /** Over every run: at most 1000 attempts, never one removed; conflict and overflow never clear; a recorded usage
      never changes, and is the attempt's own. */
  lemma {:induction false} RunKeeps(s: LedgerState, events: seq<Event>)
    requires Valid(s)
    ensures Valid(Run(s, events)) && Extends(s, Run(s, events))
  {
    if events != [] {
      var before := events[..|events| - 1];
      RunKeeps(s, before);
      AfterKeeps(Run(s, before), events[|events| - 1]);
    }
  }

  // ---- createProviderUsageLedgerV1 ----

  class Ledger {
    var attempts: map<Key, LedgerRow>
    var order: seq<Key>
    var overflow: bool

    function State(): LedgerState
      reads this
    {
      LedgerState(attempts, order, overflow)
    }

    constructor ()
      ensures State() == LedgerState(map[], [], false) && Valid(State())
    {
      attempts, order, overflow := map[], [], false;
    }

    method Begin(session: Field, message: Field, route: Field)
      requires Valid(State())
      modifies this
      ensures State() == Began(old(State()), session, message, route)
      ensures Valid(State()) && Extends(old(State()), State())
    {
      hide IsId, CODEX, DESKTOP, Valid;
      AfterKeeps(State(), Event.Begin(session, message, route));
      var chosen := if route == Undefined then Word(CODEX) else route;
      if !IsId(session) || !IsId(message) || !IsAgentRoute(chosen) {
        overflow := true;
        return;
      }
      IdIsWord(session);
      IdIsWord(message);
      var key := (session.text, message.text);
      if key in attempts {
        if attempts[key].direct != (chosen == Word(DESKTOP)) {
          attempts := attempts[key := attempts[key].(conflicted := true)];
        }
        return;
      }
      if |order| >= MAXIMUM {
        overflow := true;
        return;
      }
      attempts, order := attempts[key := LedgerRow(chosen == Word(DESKTOP), None, false)], order + [key];
    }

    method Observe(session: Field, message: Field, response: Response)
      requires Valid(State())
      modifies this
      ensures State() == Observed(old(State()), session, message, response)
      ensures Valid(State()) && Extends(old(State()), State())
    {
      hide IsId, CODEX, DESKTOP, Valid, Parse;
      AfterKeeps(State(), Event.Observe(session, message, response));
      if !(session.Word? && message.Word? && (session.text, message.text) in attempts) { return; }
      var key := (session.text, message.text);
      var row := attempts[key];
      var field := if row.direct then response.responseUsage else response.turnUsage;
      if field.None? {
        if (if row.direct then response.turnUsage else response.responseUsage).Some? {
          attempts := attempts[key := row.(conflicted := true)];
        }
        return;
      }
      var usage := Parse(row.direct, field.value);
      if usage.None? {
        attempts := attempts[key := row.(conflicted := true)];
        return;
      }
      if usage.value.session != session.text || usage.value.message != message.text
        || (row.usage.Some? && row.usage != usage)
      {
        attempts := attempts[key := row.(conflicted := true)];
        return;
      }
      attempts := attempts[key := row.(usage := usage)];
    }

    method Snapshot(receipts: Option<seq<Receipt>>) returns (c: Coverage)
      requires Valid(State())
      ensures c.complete <==> SnapshotComplete(State(), receipts)
      ensures c.uninvoked <==> SnapshotUninvoked(State(), receipts)
      ensures c.requestCount == |order|
    {
      hide IsComplete, IsUninvoked, AsRow;
      var rows: seq<Row> := [];
      for i := 0 to |order|
        invariant |rows| == i && forall j :: 0 <= j < i ==> rows[j] == AsRow(order[j], attempts[order[j]])
      {
        rows := rows + [AsRow(order[i], attempts[order[i]])];
      }
      assert rows == Rows(State());
      c := BuildCoverage(Some(rows), receipts);
      c := c.(complete := !overflow && c.complete, uninvoked := !overflow && c.uninvoked);
    }
  }

  // ---- What a complete snapshot means ----

  ghost predicate SnapshotComplete(s: LedgerState, receipts: Option<seq<Receipt>>)
    requires Valid(s)
  {
    !s.overflow && IsComplete(Some(Rows(s)), receipts)
  }

  ghost predicate SnapshotUninvoked(s: LedgerState, receipts: Option<seq<Receipt>>)
    requires Valid(s)
  {
    !s.overflow && IsUninvoked(Some(Rows(s)), receipts)
  }

  lemma RowReadsBack(key: Key, row: LedgerRow)
    requires IsOwnRow(key, row)
    ensures UsageOf(AsRow(key, row)) == row.usage && IsDirect(AsRow(key, row)) == row.direct
  {
    hide RawUsage, TURN_SCHEMA, RESPONSE_SCHEMA, IsId, NOT_STARTED, COMPLETED, INTERRUPTED, FAILED;
  }

  /** The ids a settled attempt stands for. */
  function OwnIds(row: LedgerRow): seq<Text> {
    if row.usage.Some? && IsStarted(row.usage.value) then row.usage.value.ids else []
  }

  /** In a complete snapshot every begun attempt is settled by its own usage and unspoiled, no response id belongs to
      two attempts, and the call ids of the agent receipts are exactly the ids of the attempts. */
  lemma CompleteSnapshot(s: LedgerState, receipts: seq<Receipt>)
    requires Valid(s) && SnapshotComplete(s, Some(receipts))
    ensures s.order != []
    ensures forall key :: key in s.attempts ==>
      var row := s.attempts[key];
      !row.conflicted && row.usage.Some? && (row.usage.value.session, row.usage.value.message) == key
    ensures forall a, b, id ::
      a in s.attempts && b in s.attempts && id in OwnIds(s.attempts[a]) && id in OwnIds(s.attempts[b]) ==> a == b
    ensures (set r | r in receipts && IsAgentRoute(r.route) :: r.call) ==
      set key, id | key in s.attempts && id in OwnIds(s.attempts[key]) :: Word(id)
  {
    hide AsRow, IsAgentRoute, IsOwnRow, UsageOf, IsId, CODEX, DESKTOP, OPENAI, NOT_STARTED;
    var rows := Rows(s);
    forall i | 0 <= i < |rows| ensures Claims(rows[i]) == OwnIds(s.attempts[s.order[i]]) {
      RowReadsBack(s.order[i], s.attempts[s.order[i]]);
    }
    CompleteAccountsForAll(rows, receipts);
    CompleteRowsSettled(s, receipts);
    ClaimsAreOwn(s);
    forall a, b, id | a in s.attempts && b in s.attempts && id in OwnIds(s.attempts[a]) && id in OwnIds(s.attempts[b])
      ensures a == b
    {
      var i :| 0 <= i < |s.order| && s.order[i] == a;
      var j :| 0 <= j < |s.order| && s.order[j] == b;
      assert id in Claims(rows[i]) && id in Claims(rows[j]);
    }
  }

  lemma CompleteRowsSettled(s: LedgerState, receipts: seq<Receipt>)
    requires Valid(s) && SnapshotComplete(s, Some(receipts))
    ensures forall key :: key in s.attempts ==>
      var row := s.attempts[key];
      !row.conflicted && row.usage.Some? && (row.usage.value.session, row.usage.value.message) == key
  {
    hide IsId, CODEX, DESKTOP, OPENAI, NOT_STARTED, Parse, RawUsage, UsageOf;
    forall key | key in s.attempts
      ensures var row := s.attempts[key];
        !row.conflicted && row.usage.Some? && (row.usage.value.session, row.usage.value.message) == key
    {
      var i :| 0 <= i < |s.order| && s.order[i] == key;
      assert IsSettled(Rows(s)[i], receipts);
      RowReadsBack(key, s.attempts[key]);
    }
  }

  lemma ClaimsAreOwn(s: LedgerState)
    requires Valid(s)
    ensures (set id | id in ClaimsOf(Rows(s)) :: Word(id)) == set key, id | key in s.attempts
      && id in OwnIds(s.attempts[key]) :: Word(id)
  {
    hide AsRow, IsOwnRow, UsageOf, NOT_STARTED;
    var rows := Rows(s);
    forall i | 0 <= i < |rows| ensures Claims(rows[i]) == OwnIds(s.attempts[s.order[i]]) {
      RowReadsBack(s.order[i], s.attempts[s.order[i]]);
    }
    forall key, id | key in s.attempts && id in OwnIds(s.attempts[key]) ensures id in ClaimsOf(rows) {
      var i :| 0 <= i < |s.order| && s.order[i] == key;
      assert id in Claims(rows[i]);
    }
    forall id | id in ClaimsOf(rows) ensures exists key :: key in s.attempts && id in OwnIds(s.attempts[key]) {
      var i :| 0 <= i < |rows| && id in Claims(rows[i]);
      assert s.order[i] in s.attempts;
    }
  }
}
