/**
 The order of observations does not matter: with the begins fixed, the ledger's verdicts depend only on which
 responses were observed.
 */
module ProviderOrder {
  import opened Outcomes
  import opened Texts
  import opened ProviderUsage
  import opened ProviderLedger

  function Begins(events: seq<Event>): seq<Event> {
    if events == [] then []
    else
      var last := events[|events| - 1];
      Begins(events[..|events| - 1]) + if last.Begin? then [last] else []
  }

  function Observations(events: seq<Event>): (r: seq<Event>)
    ensures forall e :: e in r <==> e in events && e.Observe?
  {
    if events == [] then []
    else
      var last := events[|events| - 1];
      assert forall e :: e in events <==> e in events[..|events| - 1] || e == last;
      Observations(events[..|events| - 1]) + if last.Observe? then [last] else []
  }

  predicate AllObserve(events: seq<Event>) { forall i :: 0 <= i < |events| ==> events[i].Observe? }

  function KeyOfEvent(e: Event): Option<Key> { KeyOf(e.session, e.message) }

  /** Every observation comes after its attempt has begun, or its attempt never begins. */
  ghost predicate IsTimely(s: LedgerState, events: seq<Event>) {
    forall i :: 0 <= i < |events| && events[i].Observe? ==>
      var key := KeyOfEvent(events[i]);
      key.Some? && key.value in Run(s, events).attempts ==> key.value in Run(s, events[..i]).attempts
  }

  // ---- Observations commute with begins ----

  lemma SpoilingCommutes(row: LedgerRow, reading: Reading)
    ensures RowAfter(row.(conflicted := true), reading) == RowAfter(row, reading).(conflicted := true)
    ensures RowAfter(row, reading).direct == row.direct
  {
  }

  lemma ObserveCommutesWithBegin(s: LedgerState, b: Event, o: Event)
    requires b.Begin? && o.Observe?
    requires KeyOfEvent(o).Some? ==> KeyOfEvent(o).value in s.attempts || KeyOfEvent(o).value !in After(s, b).attempts
    ensures After(After(s, o), b) == After(After(s, b), o)
  {
    hide IsId, CODEX, DESKTOP, IsAgentRoute, Read, RowAfter;
    var key := KeyOfEvent(o);
    if key.Some? && key.value in s.attempts {
      SpoilingCommutes(s.attempts[key.value], Read(key.value, s.attempts[key.value].direct, o.response));
    }
    var t, u := After(After(s, o), b), After(After(s, b), o);
    assert t.order == u.order && t.overflow == u.overflow;
    assert t.attempts == u.attempts;
  }

  lemma {:induction false} RunConcat(s: LedgerState, a: seq<Event>, b: seq<Event>)
    ensures Run(s, a + b) == Run(Run(s, a), b)
  {
    if b == [] {
      assert a + b == a;
    } else {
      var front := b[..|b| - 1];
      assert (a + b)[..|a + b| - 1] == a + front;
      RunConcat(s, a, front);
    }
  }

  lemma {:induction false} ObservingKeepsKeys(s: LedgerState, obs: seq<Event>)
    requires AllObserve(obs)
    ensures Run(s, obs).attempts.Keys == s.attempts.Keys
  {
    hide Read, RowAfter;
    if obs != [] { ObservingKeepsKeys(s, obs[..|obs| - 1]); }
  }

  lemma {:induction false} BeginPastObservations(s: LedgerState, obs: seq<Event>, b: Event)
    requires b.Begin? && AllObserve(obs)
    requires forall o :: o in obs && KeyOfEvent(o).Some? ==>
      KeyOfEvent(o).value in s.attempts || KeyOfEvent(o).value !in After(s, b).attempts
    ensures After(Run(s, obs), b) == Run(After(s, b), obs)
  {
    hide After, KeyOfEvent;
    if obs != [] {
      var front, o := obs[..|obs| - 1], obs[|obs| - 1];
      BeginPastObservations(s, front, b);
      var mid := Run(s, front);
      ObservingKeepsKeys(s, front);
      ObservingKeepsKeys(After(s, b), front);
      assert o in obs;
      ObserveCommutesWithBegin(mid, b, o);
      assert Run(s, obs) == After(mid, o);
      assert Run(After(s, b), obs) == After(Run(After(s, b), front), o);
    }
  }

  lemma {:induction false} KeysGrow(s: LedgerState, events: seq<Event>, i: nat, key: Key)
    requires i <= |events| && key in Run(s, events[..i]).attempts
    ensures key in Run(s, events).attempts
    decreases |events|
  {
    hide IsId, CODEX, DESKTOP, Read, RowAfter;
    if i == |events| {
      assert events[..i] == events;
    } else {
      var front := events[..|events| - 1];
      assert front[..i] == events[..i];
      KeysGrow(s, front, i, key);
    }
  }

  lemma TimelyFront(s: LedgerState, events: seq<Event>)
    requires events != [] && IsTimely(s, events)
    ensures IsTimely(s, events[..|events| - 1])
  {
    hide Run, KeyOfEvent;
    var front := events[..|events| - 1];
    forall i | 0 <= i < |front| && front[i].Observe?
      ensures var key := KeyOfEvent(front[i]); key.Some? && key.value in Run(s, front).attempts ==>
        key.value in Run(s, front[..i]).attempts
    {
      assert front[..i] == events[..i] && front[i] == events[i];
      var key := KeyOfEvent(front[i]);
      if key.Some? && key.value in Run(s, front).attempts {
        KeysGrow(s, events, |front|, key.value);
      }
    }
  }

  /** A timely run ends as if all its begins came first. */
  lemma {:induction false} ObservationsLast(s: LedgerState, events: seq<Event>)
    requires IsTimely(s, events)
    ensures Run(s, events) == Run(Run(s, Begins(events)), Observations(events))
  {
    hide After, IsTimely, KeyOfEvent;
    if events != [] {
      var front, last := events[..|events| - 1], events[|events| - 1];
      TimelyFront(s, events);
      ObservationsLast(s, front);
      var bs, os := Begins(front), Observations(front);
      assert Run(s, events) == After(Run(Run(s, bs), os), last);
      if last.Observe? {
        assert Begins(events) == bs + [];
        assert Begins(events) == bs && Observations(events) == os + [last];
        assert (os + [last])[..|os|] == os;
      } else {
        assert Observations(events) == os + [];
        assert Observations(events) == os && Begins(events) == bs + [last];
        assert (bs + [last])[..|bs|] == bs;
        TimelyAtEnd(s, events, Run(s, bs));
        BeginPastObservations(Run(s, bs), os, last);
      }
    }
  }

  lemma TimelyAtEnd(s: LedgerState, events: seq<Event>, base: LedgerState)
    requires events != [] && IsTimely(s, events) && events[|events| - 1].Begin?
    requires Run(s, events[..|events| - 1]) == Run(base, Observations(events[..|events| - 1]))
    ensures var last := events[|events| - 1];
      forall o :: o in Observations(events[..|events| - 1]) && KeyOfEvent(o).Some? ==>
        KeyOfEvent(o).value in base.attempts || KeyOfEvent(o).value !in After(base, last).attempts
  {
    hide Read, RowAfter, KeyOfEvent, IsId, CODEX, DESKTOP, IsAgentRoute;
    var front, last := events[..|events| - 1], events[|events| - 1];
    var os := Observations(front);
    ObservingKeepsKeys(base, os);
    forall o | o in os && KeyOfEvent(o).Some? && KeyOfEvent(o).value !in base.attempts
      ensures KeyOfEvent(o).value !in After(base, last).attempts
    {
      var i :| 0 <= i < |front| && front[i] == o;
      assert events[i] == o && events[..i] == front[..i];
      var key := KeyOfEvent(o).value;
      if key in Run(s, events[..i]).attempts { KeysGrow(s, front, i, key); }
      assert key !in Run(s, events).attempts;
      assert Run(s, events) == After(Run(base, os), last);
      SameKeysBegun(base, Run(base, os), last, os);
    }
  }

  /** What a begin adds depends only on the keys, the order and the overflow before it. */
  lemma SameKeysBegun(s: LedgerState, t: LedgerState, b: Event, obs: seq<Event>)
    requires b.Begin? && AllObserve(obs) && t == Run(s, obs)
    ensures After(t, b).attempts.Keys == After(s, b).attempts.Keys
  {
    hide IsId, CODEX, DESKTOP, IsAgentRoute, Run;
    ObservingKeepsKeys(s, obs);
    ObservingKeepsOrder(s, obs);
  }

  lemma {:induction false} ObservingKeepsOrder(s: LedgerState, obs: seq<Event>)
    requires AllObserve(obs)
    ensures Run(s, obs).order == s.order && Run(s, obs).overflow == s.overflow
  {
    hide Read, RowAfter;
    if obs != [] { ObservingKeepsOrder(s, obs[..|obs| - 1]); }
  }

  // ---- What a set of observations does to a row ----

  /** One of the observations reads this way for the attempt. */
  ghost predicate IsRead(key: Key, direct: bool, obs: seq<Event>, reading: Reading) {
    exists o :: o in obs && o.Observe? && KeyOfEvent(o) == Some(key) && Read(key, direct, o.response) == reading
  }

  /** A usage the attempt holds already or one of the observations brings. */
  ghost predicate IsOffered(key: Key, row: LedgerRow, obs: seq<Event>, u: Usage) {
    row.usage == Some(u) || IsRead(key, row.direct, obs, Settles(u))
  }

  /** The attempt ends up in conflict: it was, an observation spoils it, or two different usages are offered. */
  ghost predicate IsRuined(key: Key, row: LedgerRow, obs: seq<Event>) {
    || row.conflicted || IsRead(key, row.direct, obs, Spoils)
    || exists u, v :: IsOffered(key, row, obs, u) && IsOffered(key, row, obs, v) && u != v
  }

  lemma ReadOneMore(key: Key, direct: bool, obs: seq<Event>, o: Event, reading: Reading)
    requires o.Observe?
    ensures IsRead(key, direct, obs + [o], reading) <==>
      IsRead(key, direct, obs, reading) || (KeyOfEvent(o) == Some(key) && Read(key, direct, o.response) == reading)
  {
    hide Read, KeyOfEvent;
    forall e ensures e in obs + [o] <==> e in obs || e == o {}
  }

  /** The row after any observations, said without their order. */
  ghost predicate IsRowAfter(key: Key, row: LedgerRow, obs: seq<Event>, end: LedgerRow) {
    && end.direct == row.direct
    && (end.conflicted <==> IsRuined(key, row, obs))
    && (end.usage.Some? ==> IsOffered(key, row, obs, end.usage.value))
    && (end.usage.None? ==> forall u :: !IsOffered(key, row, obs, u))
  }

  lemma RowStep(key: Key, row: LedgerRow, obs: seq<Event>, o: Event, end: LedgerRow)
    requires o.Observe? && IsRowAfter(key, row, obs, end)
    ensures IsRowAfter(key, row, obs + [o], if KeyOfEvent(o) == Some(key)
      then RowAfter(end, Read(key, row.direct, o.response)) else end)
  {
    hide Read, KeyOfEvent, IsRead;
    forall reading ensures IsRead(key, row.direct, obs + [o], reading) <==>
        IsRead(key, row.direct, obs, reading)
          || (KeyOfEvent(o) == Some(key) && Read(key, row.direct, o.response) == reading)
    {
      ReadOneMore(key, row.direct, obs, o, reading);
    }
    OfferedOneMore(key, row, obs, o);
  }

  lemma OfferedOneMore(key: Key, row: LedgerRow, obs: seq<Event>, o: Event)
    requires o.Observe?
    ensures forall u :: IsOffered(key, row, obs + [o], u) <==>
      IsOffered(key, row, obs, u) || (KeyOfEvent(o) == Some(key) && Read(key, row.direct, o.response) == Settles(u))
  {
    hide Read, KeyOfEvent, IsRead;
    forall u ensures IsOffered(key, row, obs + [o], u) <==>
        IsOffered(key, row, obs, u) || (KeyOfEvent(o) == Some(key) && Read(key, row.direct, o.response) == Settles(u))
    {
      ReadOneMore(key, row.direct, obs, o, Settles(u));
    }
  }

  lemma {:induction false} RowsAfter(s: LedgerState, obs: seq<Event>, key: Key)
    requires AllObserve(obs) && key in s.attempts
    ensures key in Run(s, obs).attempts && IsRowAfter(key, s.attempts[key], obs, Run(s, obs).attempts[key])
  {
    hide Read, RowAfter, IsRowAfter;
    if obs == [] {
      NothingObserved(key, s.attempts[key]);
    } else {
      var front, o := obs[..|obs| - 1], obs[|obs| - 1];
      assert obs == front + [o];
      RowsAfter(s, front, key);
      RowDirect(key, s.attempts[key], front, Run(s, front).attempts[key]);
      RowStep(key, s.attempts[key], front, o, Run(s, front).attempts[key]);
    }
  }

  lemma RowDirect(key: Key, row: LedgerRow, obs: seq<Event>, end: LedgerRow)
    requires IsRowAfter(key, row, obs, end)
    ensures end.direct == row.direct
  {
  }

  lemma NothingObserved(key: Key, row: LedgerRow)
    ensures IsRowAfter(key, row, [], row)
  {
    hide Read, KeyOfEvent;
  }

  lemma SameReadings(key: Key, row: LedgerRow, a: seq<Event>, b: seq<Event>)
    requires forall e :: e in a <==> e in b
    ensures forall end :: IsRowAfter(key, row, a, end) ==> IsRowAfter(key, row, b, end)
  {
    hide Read, KeyOfEvent;
    assert forall reading :: IsRead(key, row.direct, a, reading) <==> IsRead(key, row.direct, b, reading);
    hide IsRead;
    assert forall u :: IsOffered(key, row, a, u) <==> IsOffered(key, row, b, u);
    hide IsOffered;
  }

  // ---- The verdicts ----

  /** The same ledger, as far as verdicts go: only the usages of spoilt attempts may differ. */
  ghost predicate IsAlike(s: LedgerState, t: LedgerState) {
    && s.order == t.order && s.overflow == t.overflow && s.attempts.Keys == t.attempts.Keys
    && forall key :: key in s.attempts ==>
         (&& s.attempts[key].conflicted == t.attempts[key].conflicted
          && (!s.attempts[key].conflicted ==> s.attempts[key] == t.attempts[key]))
  }

  lemma SameObservationsAlike(s: LedgerState, a: seq<Event>, b: seq<Event>)
    requires AllObserve(a) && AllObserve(b) && forall e :: e in a <==> e in b
    ensures IsAlike(Run(s, a), Run(s, b))
  {
    hide Run, Read, KeyOfEvent, AllObserve;
    ObservingKeepsKeys(s, a);
    ObservingKeepsKeys(s, b);
    ObservingKeepsOrder(s, a);
    ObservingKeepsOrder(s, b);
    var t, u := Run(s, a), Run(s, b);
    forall key | key in t.attempts
      ensures t.attempts[key].conflicted == u.attempts[key].conflicted
        && (!t.attempts[key].conflicted ==> t.attempts[key] == u.attempts[key])
    {
      RowsAfter(s, a, key);
      RowsAfter(s, b, key);
      SameReadings(key, s.attempts[key], a, b);
      RowsDetermined(key, s.attempts[key], b, t.attempts[key], u.attempts[key]);
    }
  }

  lemma RowsDetermined(key: Key, row: LedgerRow, obs: seq<Event>, x: LedgerRow, y: LedgerRow)
    requires IsRowAfter(key, row, obs, x) && IsRowAfter(key, row, obs, y)
    ensures x.conflicted == y.conflicted && (!x.conflicted ==> x == y)
  {
    hide IsRead, IsOffered;
  }

  lemma AlikeVerdicts(s: LedgerState, t: LedgerState, receipts: Option<seq<Receipt>>)
    requires Valid(s) && Valid(t) && IsAlike(s, t) && SnapshotComplete(s, receipts)
    ensures SnapshotComplete(t, receipts) && (SnapshotUninvoked(s, receipts) <==> SnapshotUninvoked(t, receipts))
  {
    hide IsOwnRow, AsRow, IsUninvoked, IsComplete;
    CompleteHasReceipts(Rows(s), receipts);
    CompleteRowsSettled(s, receipts.value);
    assert forall key :: key in s.attempts ==> s.attempts[key] == t.attempts[key];
    assert Rows(s) == Rows(t);
  }

  lemma CompleteHasReceipts(rows: seq<Row>, receipts: Option<seq<Receipt>>)
    requires IsComplete(Some(rows), receipts)
    ensures receipts.Some?
  {
  }

  // ---- Any run ----

  /** The run without the observations that come before their attempt has begun. */
  function Heard(s: LedgerState, events: seq<Event>): seq<Event> {
    if events == [] then []
    else
      var front, last := events[..|events| - 1], events[|events| - 1];
      var key := KeyOfEvent(last);
      var unheard := last.Observe? && (key.None? || key.value !in Run(s, front).attempts);
      Heard(s, front) + if unheard then [] else [last]
  }

  /** An observation of an attempt that has not begun changes nothing. */
  lemma UnheardIsLost(s: LedgerState, o: Event)
    requires o.Observe? && (KeyOfEvent(o).None? || KeyOfEvent(o).value !in s.attempts)
    ensures After(s, o) == s
  {
    hide Read;
  }

  lemma RunOneMore(s: LedgerState, events: seq<Event>, e: Event)
    ensures Run(s, events + [e]) == After(Run(s, events), e)
    ensures Begins(events + [e]) == Begins(events) + if e.Begin? then [e] else []
  {
    hide After;
    assert (events + [e])[..|events|] == events;
  }

  lemma {:induction false} HeardSame(s: LedgerState, events: seq<Event>)
    ensures Run(s, Heard(s, events)) == Run(s, events) && Begins(Heard(s, events)) == Begins(events)
  {
    hide After, KeyOfEvent;
    if events != [] {
      var front, last := events[..|events| - 1], events[|events| - 1];
      HeardSame(s, front);
      var key := KeyOfEvent(last);
      assert events == front + [last];
      RunOneMore(s, front, last);
      RunOneMore(s, Heard(s, front), last);
      if last.Observe? && (key.None? || key.value !in Run(s, front).attempts) {
        UnheardIsLost(Run(s, front), last);
        assert Heard(s, events) == Heard(s, front) + [] == Heard(s, front);
        assert Begins(events) == Begins(front) + [] == Begins(front);
      }
    }
  }

  /** Every observation is of an attempt that has begun. */
  ghost predicate IsHeard(s: LedgerState, events: seq<Event>) {
    forall i :: 0 <= i < |events| && events[i].Observe? ==>
      KeyOfEvent(events[i]).Some? && KeyOfEvent(events[i]).value in Run(s, events[..i]).attempts
  }

  lemma HeardExtends(s: LedgerState, events: seq<Event>, e: Event)
    requires IsHeard(s, events)
    requires e.Observe? ==> KeyOfEvent(e).Some? && KeyOfEvent(e).value in Run(s, events).attempts
    ensures IsHeard(s, events + [e])
  {
    hide Run, KeyOfEvent;
    var all := events + [e];
    forall i | 0 <= i < |all| && all[i].Observe?
      ensures KeyOfEvent(all[i]).Some? && KeyOfEvent(all[i]).value in Run(s, all[..i]).attempts
    {
      if i < |events| { assert all[i] == events[i] && all[..i] == events[..i]; } else { assert all[..i] == events; }
    }
  }

  lemma {:induction false} HeardIsHeard(s: LedgerState, events: seq<Event>)
    ensures IsHeard(s, Heard(s, events))
  {
    hide After, KeyOfEvent, IsHeard;
    if events == [] {
      NothingHeard(s);
    } else {
      var front, last := events[..|events| - 1], events[|events| - 1];
      HeardIsHeard(s, front);
      HeardSame(s, front);
      var key := KeyOfEvent(last);
      if last.Observe? && (key.None? || key.value !in Run(s, front).attempts) {
        assert Heard(s, front) + [] == Heard(s, front);
      } else {
        HeardExtends(s, Heard(s, front), last);
      }
    }
  }

  lemma NothingHeard(s: LedgerState)
    ensures IsHeard(s, [])
  {
  }

  lemma HeardIsTimely(s: LedgerState, events: seq<Event>)
    requires IsHeard(s, events)
    ensures IsTimely(s, events)
  {
    hide Run, KeyOfEvent;
  }

  /** For timely runs: with the begins fixed, reordering the observations changes neither verdict. */
  lemma TimelyOrderIrrelevant(s: LedgerState, a: seq<Event>, b: seq<Event>, receipts: Option<seq<Receipt>>)
    requires Valid(s) && IsTimely(s, a) && IsTimely(s, b)
    requires Begins(a) == Begins(b) && multiset(Observations(a)) == multiset(Observations(b))
    ensures Valid(Run(s, a)) && Valid(Run(s, b))
    ensures SnapshotComplete(Run(s, a), receipts) <==> SnapshotComplete(Run(s, b), receipts)
    ensures SnapshotUninvoked(Run(s, a), receipts) <==> SnapshotUninvoked(Run(s, b), receipts)
  {
    hide Valid, IsTimely, Run, Begins, IsAlike, IsComplete, IsUninvoked, Rows;
    RunKeeps(s, a);
    RunKeeps(s, b);
    ObservationsLast(s, a);
    ObservationsLast(s, b);
    var base, oa, ob := Run(s, Begins(a)), Observations(a), Observations(b);
    forall e ensures e in oa <==> e in ob {
      assert e in multiset(oa) <==> e in multiset(ob);
    }
    SameObservationsAlike(base, oa, ob);
    SameObservationsAlike(base, ob, oa);
    if SnapshotComplete(Run(s, a), receipts) { AlikeVerdicts(Run(s, a), Run(s, b), receipts); }
    if SnapshotComplete(Run(s, b), receipts) { AlikeVerdicts(Run(s, b), Run(s, a), receipts); }
    UninvokedIsComplete(Run(s, a), receipts);
    UninvokedIsComplete(Run(s, b), receipts);
  }

  /** For any runs: both verdicts depend only on the begins and on the observations that were heard,
      in whatever order. */
  lemma ObservationOrderIrrelevant(s: LedgerState, a: seq<Event>, b: seq<Event>, receipts: Option<seq<Receipt>>)
    requires Valid(s) && Begins(a) == Begins(b)
    requires multiset(Observations(Heard(s, a))) == multiset(Observations(Heard(s, b)))
    ensures Valid(Run(s, a)) && Valid(Run(s, b))
    ensures SnapshotComplete(Run(s, a), receipts) <==> SnapshotComplete(Run(s, b), receipts)
    ensures SnapshotUninvoked(Run(s, a), receipts) <==> SnapshotUninvoked(Run(s, b), receipts)
  {
    hide Valid, IsTimely, IsHeard, Run, Begins, Heard, Observations, IsComplete, IsUninvoked, Rows;
    HeardSame(s, a);
    HeardSame(s, b);
    HeardIsHeard(s, a);
    HeardIsHeard(s, b);
    HeardIsTimely(s, Heard(s, a));
    HeardIsTimely(s, Heard(s, b));
    TimelyOrderIrrelevant(s, Heard(s, a), Heard(s, b), receipts);
  }

  lemma UninvokedIsComplete(s: LedgerState, receipts: Option<seq<Receipt>>)
    requires Valid(s)
    ensures SnapshotUninvoked(s, receipts) ==> SnapshotComplete(s, receipts)
  {
    hide IsComplete, Rows;
  }

  const EMPTY := LedgerState(map[], [], false)

  /** An observation moved before its attempt's begin is lost: timeliness cannot be dropped above. */
  lemma EarlyObservationIsLost(session: Text, message: Text, usage: Usage)
    requires IsId(Word(session)) && IsId(Word(message))
    requires usage == Usage(session, message, None, None, NOT_STARTED, [])
    ensures var b, o := Begin(Word(session), Word(message), Undefined),
      Observe(Word(session), Word(message), Response(Some(RawUsage(false, usage)), None));
      && Valid(EMPTY) && Valid(Run(EMPTY, [b, o])) && Valid(Run(EMPTY, [o, b]))
      && SnapshotUninvoked(Run(EMPTY, [b, o]), Some([])) && !SnapshotComplete(Run(EMPTY, [o, b]), Some([]))
  {
    hide Began, Observed, RawUsage, IsId, Valid, IsUninvoked, IsComplete, AsRow, CODEX, DESKTOP, NOT_STARTED;
    var b, o := Begin(Word(session), Word(message), Undefined),
      Observe(Word(session), Word(message), Response(Some(RawUsage(false, usage)), None));
    var key := (session, message);
    EmptyIsValid();
    RunKeeps(EMPTY, [b, o]);
    RunKeeps(EMPTY, [o, b]);
    FirstBegin(session, message);
    FirstSettlement(session, message, usage);
    var begun := After(EMPTY, b);
    assert [b, o][..1] == [b] && [b][..0] == [] && [o, b][..1] == [o] && [o][..0] == [];
    assert Run(EMPTY, []) == EMPTY;
    assert Run(EMPTY, [b]) == begun && Run(EMPTY, [o]) == After(EMPTY, o);
    assert Run(EMPTY, [o, b]) == begun && Run(EMPTY, [b, o]) == After(begun, o);
    assert Rows(After(begun, o)) == [AsRow(key, LedgerRow(false, Some(usage), false))];
    IdleAttemptIsComplete(key, LedgerRow(false, Some(usage), false));
    UninvokedIsComplete(After(begun, o), Some([]));
    UnsettledIsIncomplete(begun, key);
  }

  lemma EmptyIsValid()
    ensures Valid(EMPTY)
  {
  }

  lemma FirstBegin(session: Text, message: Text)
    requires IsId(Word(session)) && IsId(Word(message))
    ensures After(EMPTY, Begin(Word(session), Word(message), Undefined)) ==
      LedgerState(map[(session, message) := LedgerRow(false, None, false)], [(session, message)], false)
  {
    hide IsId;
    assert CODEX[0] != DESKTOP[0];
  }

  lemma FirstSettlement(session: Text, message: Text, usage: Usage)
    requires IsId(Word(session)) && IsId(Word(message))
    requires usage == Usage(session, message, None, None, NOT_STARTED, [])
    ensures var o, key := Observe(Word(session), Word(message), Response(Some(RawUsage(false, usage)), None)),
      (session, message);
      && After(EMPTY, o) == EMPTY
      && After(LedgerState(map[key := LedgerRow(false, None, false)], [key], false), o) ==
        LedgerState(map[key := LedgerRow(false, Some(usage), false)], [key], false)
      && IsOwnRow(key, LedgerRow(false, Some(usage), false)) && !IsStarted(usage)
  {
    hide TURN_SCHEMA, RESPONSE_SCHEMA, COMPLETED, INTERRUPTED, FAILED, NOT_STARTED, IsId, CODEX, DESKTOP;
    assert Words([]) == [];
    assert Parse(false, RawUsage(false, usage)) == Some(usage);
  }

  lemma IdleAttemptIsComplete(key: Key, row: LedgerRow)
    requires IsOwnRow(key, row) && !row.direct && !row.conflicted && row.usage.Some? && !IsStarted(row.usage.value)
    ensures IsUninvoked(Some([AsRow(key, row)]), Some([]))
  {
    hide RawUsage, Parse, IsId;
    RowReadsBack(key, row);
  }

  lemma UnsettledIsIncomplete(s: LedgerState, key: Key)
    requires Valid(s) && s.order == [key] && s.attempts == map[key := LedgerRow(false, None, false)]
    ensures !SnapshotComplete(s, Some([]))
  {
    hide RawUsage, Parse, IsId;
    assert key in s.attempts;
    if SnapshotComplete(s, Some([])) {
      CompleteRowsSettled(s, []);
    }
  }
}
