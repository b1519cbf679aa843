/**
 The ledger told from its history: what counts as a usage, what a response says about an attempt, and which attempts,
 routes and conflicts a run of begins leaves.
 */
module ProviderHistory {
  import opened Outcomes
  import opened Texts
  import opened ProviderUsage
  import opened ProviderLedger

  // ---- Usages ----

  /** A string of 1 to 256 units, none of them a control character. */
  predicate IsIdText(t: Text) { 1 <= |t| && |t| < 257 && forall u :: u in t ==> u >= 32 }

  lemma IdTextIs(f: Field)
    ensures IsId(f) <==> f.Word? && IsIdText(f.text)
  {
    if f.Word? {
      if IsIdText(f.text) { assert forall i :: 0 <= i < |f.text| ==> f.text[i] in f.text; }
    }
  }

  /** A well-formed usage of either route: at most 1000 different response ids; exactly one for a direct response, which
      names no thread and no turn; none for a turn that was not started; a thread and a turn for one that was. */
  predicate IsUsage(direct: bool, u: Usage) {
    && IsIdText(u.session) && IsIdText(u.message) && |u.ids| <= 1000
    && (forall id :: id in u.ids ==> IsIdText(id)) && (forall i, j :: 0 <= i < j < |u.ids| ==> u.ids[i] != u.ids[j])
    && if direct then
         u.disposition in {COMPLETED, INTERRUPTED, FAILED} && |u.ids| == 1 && u.thread.None? && u.turn.None?
       else if u.disposition == NOT_STARTED then u.ids == [] && u.thread.None? && u.turn.None?
       else
         && u.disposition in {COMPLETED, INTERRUPTED, FAILED} && u.thread.Some? && IsIdText(u.thread.value)
         && u.turn.Some? && IsIdText(u.turn.value)
  }

  lemma DispositionsDiffer()
    ensures NOT_STARTED !in {COMPLETED, INTERRUPTED, FAILED}
  {
    assert NOT_STARTED[0] == 110 && COMPLETED[0] == 99 && INTERRUPTED[0] == 105 && FAILED[0] == 102;
  }

  lemma IdsAre(ids: seq<Text>, fs: seq<Field>)
    requires |fs| == |ids| && forall i :: 0 <= i < |ids| ==> fs[i] == Word(ids[i])
    ensures AreIds(fs) <==>
      |ids| <= 1000 && (forall id :: id in ids ==> IsIdText(id)) && forall i, j :: 0 <= i < j < |ids| ==>
        ids[i] != ids[j]
    ensures (forall i :: 0 <= i < |fs| ==> fs[i].Word?) && Words(fs) == ids
  {
    hide IsId, IsIdText;
    forall i | 0 <= i < |fs| ensures IsId(fs[i]) <==> IsIdText(ids[i]) { IdTextIs(fs[i]); }
    if AreIds(fs) {
      forall id | id in ids ensures IsIdText(id) {
        var i :| 0 <= i < |ids| && ids[i] == id;
        assert IsId(fs[i]);
      }
      forall i, j | 0 <= i < j < |ids| ensures ids[i] != ids[j] { assert fs[i] != fs[j]; }
    }
  }

  lemma WordsAre(fs: seq<Field>)
    requires AreIds(fs)
    ensures (forall i :: 0 <= i < |fs| ==> fs[i].Word?) && forall i :: 0 <= i < |fs| ==> fs[i] == Word(Words(fs)[i])
  {
    forall i | 0 <= i < |fs| ensures fs[i].Word? { IdTextIs(fs[i]); }
  }

  /** Parsing is the inverse of printing: a value parses to a usage if and only if the usage is well formed and the
      value is its printed form. */
  lemma ParseExactly(direct: bool, raw: Raw, u: Usage)
    ensures Parse(direct, raw) == Some(u) <==> IsUsage(direct, u) && raw == RawUsage(direct, u)
  {
    hide COMPLETED, INTERRUPTED, FAILED, NOT_STARTED, IsId, IsIdText, AreIds, TURN_SCHEMA, RESPONSE_SCHEMA;
    DispositionsDiffer();
    IdTextIs(raw.session);
    IdTextIs(raw.message);
    IdTextIs(raw.thread);
    IdTextIs(raw.turn);
    IdsAre(u.ids, RawUsage(direct, u).ids.value);
    if raw.ids.Some? && AreIds(raw.ids.value) {
      WordsAre(raw.ids.value);
      IdsAre(Words(raw.ids.value), raw.ids.value);
      if Words(raw.ids.value) == u.ids { assert raw.ids.value == RawUsage(direct, u).ids.value; }
    }
  }

  /** A response settles an attempt if and only if its own field holds the printed form of a well-formed usage of that
      very request; it says nothing if and only if it has neither field; in every other case it spoils the attempt. */
  lemma ReadExactly(key: Key, direct: bool, response: Response)
    ensures var own, foreign := if direct then response.responseUsage else response.turnUsage,
        if direct then response.turnUsage else response.responseUsage;
      && (forall u :: Read(key, direct, response) == Settles(u) <==>
            IsUsage(direct, u) && own == Some(RawUsage(direct, u)) && (u.session, u.message) == key)
      && (Read(key, direct, response).Silent? <==> own.None? && foreign.None?)
  {
    hide Parse, IsUsage, RawUsage;
    var own := if direct then response.responseUsage else response.turnUsage;
    if own.Some? {
      forall u ensures Parse(direct, own.value) == Some(u) <==> IsUsage(direct, u) && own.value == RawUsage(direct, u) {
        ParseExactly(direct, own.value, u);
      }
    }
  }

  // ---- Begins ----

  const NOTHING := LedgerState(map[], [], false)

  predicate IsDesktop(route: Field) { route == Word(DESKTOP) }

  /** The event begins an attempt of this request on one of the two routes; no route means the agent's. */
  predicate BeginsKey(e: Event, key: Key) {
    && e.Begin? && e.session == Word(key.0) && e.message == Word(key.1) && IsIdText(key.0) && IsIdText(key.1)
    && (e.route == Undefined || e.route == Word(CODEX) || e.route == Word(DESKTOP))
  }

  predicate IsAccepted(e: Event) {
    && e.Begin? && e.session.Word? && e.message.Word? && BeginsKey(e, (e.session.text, e.message.text))
  }

  ghost function BegunKeys(events: seq<Event>): set<Key> {
    set i | 0 <= i < |events| && IsAccepted(events[i]) :: (events[i].session.text, events[i].message.text)
  }

  ghost predicate IsFirst(events: seq<Event>, i: nat, key: Key) {
    i < |events| && BeginsKey(events[i], key) && forall j :: 0 <= j < i ==> !BeginsKey(events[j], key)
  }

  ghost predicate IsBegunOn(events: seq<Event>, key: Key, desktop: bool) {
    exists i :: 0 <= i < |events| && OnRoute(events[i], key, desktop)
  }

  /** The event begins the request on the desktop's route, or on the agent's. */
  predicate OnRoute(e: Event, key: Key, desktop: bool) { BeginsKey(e, key) && IsDesktop(e.route) == desktop }

  /** What the begins of a request say of its attempt: the route of the first, and a conflict if both routes occur. */
  ghost predicate IsHistory(events: seq<Event>, key: Key, row: LedgerRow) {
    && row.usage.None? && (exists i: nat :: IsFirst(events, i, key) && OnRoute(events[i], key, row.direct))
    && (row.conflicted <==> IsBegunOn(events, key, true) && IsBegunOn(events, key, false))
  }

  ghost predicate AreBegins(events: seq<Event>) { forall i :: 0 <= i < |events| ==> events[i].Begin? }

  ghost predicate IsRefused(events: seq<Event>) { exists i :: 0 <= i < |events| && !IsAccepted(events[i]) }

  ghost predicate TellsHistory(events: seq<Event>, s: LedgerState) {
    && (s.overflow <==> IsRefused(events) || |BegunKeys(events)| > 1000)
    && s.attempts.Keys <= BegunKeys(events) && |s.attempts| == |s.order| <= 1000
    && (|BegunKeys(events)| <= 1000 ==> s.attempts.Keys == BegunKeys(events))
    && (|BegunKeys(events)| > 1000 ==> |s.order| == 1000)
    && forall key :: key in s.attempts ==> IsHistory(events, key, s.attempts[key])
  }

  lemma BeganIs(s: LedgerState, e: Event)
    requires e.Begin?
    ensures var t := Began(s, e.session, e.message, e.route);
      if !IsAccepted(e) then t == s.(overflow := true)
      else
        var key := (e.session.text, e.message.text);
        if key in s.attempts then
          t == if s.attempts[key].direct == IsDesktop(e.route) then s
               else s.(attempts := s.attempts[key := s.attempts[key].(conflicted := true)])
        else if |s.order| >= 1000 then t == s.(overflow := true)
        else t == s.(attempts := s.attempts[key := LedgerRow(IsDesktop(e.route), None, false)],
          order := s.order + [key])
  {
    hide IsId, IsIdText;
    RoutesDiffer();
    hide CODEX, DESKTOP;
    IdTextIs(e.session);
    IdTextIs(e.message);
  }

  lemma RoutesDiffer()
    ensures CODEX != DESKTOP
  {
    assert |CODEX| == 11 && |DESKTOP| == 16;
  }

  lemma KeysExtend(events: seq<Event>, e: Event)
    ensures BegunKeys(events + [e]) ==
      BegunKeys(events) + if IsAccepted(e) then {(e.session.text, e.message.text)} else {}
    ensures IsRefused(events + [e]) <==> IsRefused(events) || !IsAccepted(e)
  {
    hide BeginsKey;
    var all := events + [e];
    assert forall i :: 0 <= i < |events| ==> all[i] == events[i];
    assert all[|events|] == e;
    if i :| 0 <= i < |events| && !IsAccepted(events[i]) { assert !IsAccepted(all[i]); }
    forall key | key in BegunKeys(events) ensures key in BegunKeys(all) {
      var i :| 0 <= i < |events| && IsAccepted(events[i]) && key == (events[i].session.text, events[i].message.text);
      assert IsAccepted(all[i]);
    }
  }

  lemma RoutesExtend(events: seq<Event>, e: Event, key: Key, desktop: bool)
    ensures IsBegunOn(events + [e], key, desktop) <==> IsBegunOn(events, key, desktop) || OnRoute(e, key, desktop)
  {
    hide OnRoute;
    var all := events + [e];
    assert forall i :: 0 <= i < |events| ==> all[i] == events[i];
    assert all[|events|] == e;
    if i :| 0 <= i < |events| && OnRoute(events[i], key, desktop) { assert OnRoute(all[i], key, desktop); }
  }

  lemma FirstStays(events: seq<Event>, e: Event, key: Key, i: nat)
    requires IsFirst(events, i, key)
    ensures IsFirst(events + [e], i, key) && (events + [e])[i] == events[i]
  {
    hide BeginsKey;
    assert forall j :: 0 <= j < |events| ==> (events + [e])[j] == events[j];
  }

  /** A further event that begins another request, or none, tells nothing of this one. */
  lemma HistoryElsewhere(events: seq<Event>, e: Event, key: Key, row: LedgerRow)
    requires IsHistory(events, key, row) && !BeginsKey(e, key)
    ensures IsHistory(events + [e], key, row)
  {
    hide BeginsKey, IsDesktop, IsBegunOn;
    var i: nat :| IsFirst(events, i, key) && OnRoute(events[i], key, row.direct);
    FirstStays(events, e, key, i);
    RoutesExtend(events, e, key, true);
    RoutesExtend(events, e, key, false);
  }

  /** A further begin of the same request: a conflict, if its route is not the first one's. */
  lemma HistoryAgain(events: seq<Event>, e: Event, key: Key, row: LedgerRow)
    requires IsHistory(events, key, row) && BeginsKey(e, key)
    ensures IsHistory(events + [e], key, if row.direct == IsDesktop(e.route) then row else row.(conflicted := true))
  {
    hide BeginsKey, IsDesktop;
    var i: nat :| IsFirst(events, i, key) && OnRoute(events[i], key, row.direct);
    assert IsBegunOn(events, key, row.direct);
    hide IsBegunOn;
    FirstStays(events, e, key, i);
    RoutesExtend(events, e, key, true);
    RoutesExtend(events, e, key, false);
  }

  lemma BegunIsAccepted(e: Event, key: Key)
    requires BeginsKey(e, key)
    ensures IsAccepted(e) && key == (e.session.text, e.message.text)
  {
  }

  lemma KeysContain(events: seq<Event>, key: Key)
    ensures forall i :: 0 <= i < |events| && BeginsKey(events[i], key) ==> key in BegunKeys(events)
  {
    forall i | 0 <= i < |events| && BeginsKey(events[i], key) ensures key in BegunKeys(events) {
      BegunIsAccepted(events[i], key);
    }
  }

  /** The first begin of a request. */
  lemma HistoryFirst(events: seq<Event>, e: Event, key: Key)
    requires BeginsKey(e, key) && key !in BegunKeys(events)
    ensures IsHistory(events + [e], key, LedgerRow(IsDesktop(e.route), None, false))
  {
    KeysContain(events, key);
    var desktop := IsDesktop(e.route);
    hide IsDesktop, BeginsKey, BegunKeys;
    var all, n: nat := events + [e], |events|;
    assert forall i :: 0 <= i < |events| ==> all[i] == events[i];
    assert all[n] == e;
    assert IsFirst(all, n, key) && OnRoute(all[n], key, desktop);
    RoutesExtend(events, e, key, true);
    RoutesExtend(events, e, key, false);
  }

  lemma TellsOneMore(events: seq<Event>, s: LedgerState, e: Event)
    requires e.Begin? && TellsHistory(events, s)
    ensures TellsHistory(events + [e], Began(s, e.session, e.message, e.route))
  {
    hide TellsHistory, IsHistory, BegunKeys, IsRefused, Began, BeginsKey, IsDesktop;
    BeganIs(s, e);
    KeysExtend(events, e);
    if IsAccepted(e) {
      var key := (e.session.text, e.message.text);
      OnlyKey(e, key);
      TellsElsewhere(events, s, e);
      if key in s.attempts {
        TellsAgain(events, s, e, key);
      } else if |s.order| < 1000 {
        NewKey(events, s, key);
        HistoryFirst(events, e, key);
        TellsNew(events, s, e, key, Began(s, e.session, e.message, e.route));
      } else {
        TellsFull(events, s, e, key);
      }
    } else {
      NotBegun(e);
      TellsElsewhere(events, s, e);
      TellsRefused(events, s, e);
    }
  }

  lemma TellsElsewhere(events: seq<Event>, s: LedgerState, e: Event)
    requires TellsHistory(events, s)
    ensures forall key :: key in s.attempts && !BeginsKey(e, key) ==> IsHistory(events + [e], key, s.attempts[key])
  {
    hide IsHistory, BegunKeys, IsRefused, BeginsKey;
    forall key | key in s.attempts && !BeginsKey(e, key) ensures IsHistory(events + [e], key, s.attempts[key]) {
      HistoryElsewhere(events, e, key, s.attempts[key]);
    }
  }

  lemma TellsRefused(events: seq<Event>, s: LedgerState, e: Event)
    requires TellsHistory(events, s) && IsRefused(events + [e]) && BegunKeys(events + [e]) == BegunKeys(events) + {}
    requires forall key :: key in s.attempts ==> IsHistory(events + [e], key, s.attempts[key])
    ensures TellsHistory(events + [e], s.(overflow := true))
  {
    hide IsHistory, BegunKeys, IsRefused;
    assert BegunKeys(events) + {} == BegunKeys(events);
  }

  lemma TellsFull(events: seq<Event>, s: LedgerState, e: Event, key: Key)
    requires TellsHistory(events, s) && key !in s.attempts && |s.order| >= 1000
    requires BegunKeys(events + [e]) == BegunKeys(events) + {key}
    requires forall other :: other in s.attempts ==> IsHistory(events + [e], other, s.attempts[other])
    ensures TellsHistory(events + [e], s.(overflow := true))
  {
    hide IsHistory, BegunKeys, IsRefused;
    FullKeys(events, s, key);
  }

  lemma TellsAgain(events: seq<Event>, s: LedgerState, e: Event, key: Key)
    requires TellsHistory(events, s) && key in s.attempts && BeginsKey(e, key)
    requires BegunKeys(events + [e]) == BegunKeys(events) + {key} && (IsRefused(events + [e]) <==> IsRefused(events))
    requires forall other :: other in s.attempts && other != key ==> IsHistory(events + [e], other, s.attempts[other])
    ensures TellsHistory(events + [e],
      if s.attempts[key].direct == IsDesktop(e.route) then s
      else s.(attempts := s.attempts[key := s.attempts[key].(conflicted := true)]))
  {
    hide IsHistory, BegunKeys, IsRefused, BeginsKey, IsDesktop;
    HistoryAgain(events, e, key, s.attempts[key]);
    assert BegunKeys(events) + {key} == BegunKeys(events);
    SizeAfter(s.attempts, key, s.attempts[key].(conflicted := true));
  }

  lemma TellsNew(events: seq<Event>, s: LedgerState, e: Event, key: Key, t: LedgerState)
    requires TellsHistory(events, s) && key !in s.attempts && |s.order| < 1000 && |BegunKeys(events) + {key}| <= 1000
    requires BegunKeys(events + [e]) == BegunKeys(events) + {key} && (IsRefused(events + [e]) <==> IsRefused(events))
    requires |BegunKeys(events)| == |s.attempts|
    requires forall other :: other in s.attempts ==> IsHistory(events + [e], other, s.attempts[other])
    requires IsHistory(events + [e], key, LedgerRow(IsDesktop(e.route), None, false))
    requires t == s.(attempts := s.attempts[key := LedgerRow(IsDesktop(e.route), None, false)],
      order := s.order + [key])
    ensures TellsHistory(events + [e], t)
  {
    hide IsHistory, BegunKeys, IsRefused, IsDesktop;
    SizeAfter(s.attempts, key, t.attempts[key]);
  }

  lemma OnlyKey(e: Event, key: Key)
    requires BeginsKey(e, key)
    ensures forall other :: BeginsKey(e, other) ==> other == key
  {
  }

  lemma NotBegun(e: Event)
    requires !IsAccepted(e)
    ensures forall key :: !BeginsKey(e, key)
  {
    assert e.Begin? && e.session.Word? && e.message.Word? ==> forall key :: BeginsKey(e, key) ==>
      key == (e.session.text, e.message.text);
  }

  lemma SizeAfter(attempts: map<Key, LedgerRow>, key: Key, row: LedgerRow)
    ensures |attempts[key := row]| == |attempts| + if key in attempts then 0 else 1
    ensures attempts[key := row].Keys == attempts.Keys + {key}
  {
    var after := attempts[key := row];
    assert after.Keys == attempts.Keys + {key};
    assert |after| == |after.Keys| && |attempts| == |attempts.Keys|;
  }

  /** While there is room, every request begun so far has its attempt. */
  lemma NewKey(events: seq<Event>, s: LedgerState, key: Key)
    requires TellsHistory(events, s) && key !in s.attempts && |s.order| < 1000
    ensures key !in BegunKeys(events) && |BegunKeys(events)| == |s.attempts| && |BegunKeys(events) + {key}| <= 1000
  {
    hide IsHistory, BegunKeys, IsRefused;
    assert s.attempts.Keys == BegunKeys(events) && |s.attempts| == |s.attempts.Keys|;
  }

  /** Without room, a request that has no attempt is one too many. */
  lemma FullKeys(events: seq<Event>, s: LedgerState, key: Key)
    requires TellsHistory(events, s) && key !in s.attempts && |s.order| >= 1000
    ensures |BegunKeys(events) + {key}| > 1000
  {
    hide IsHistory, BegunKeys, IsRefused;
    var keys := BegunKeys(events) + {key};
    var rest := keys - s.attempts.Keys;
    assert key in rest && keys == s.attempts.Keys + rest;
    assert |s.attempts| == |s.attempts.Keys| && |keys| == |s.attempts.Keys| + |rest|;
  }

  /** Over any run of begins: the ledger overflows if and only if one was refused or more than 1000 requests were begun;
      every request begun has its attempt unless they are more than 1000; and an attempt has the route of its first
      begin and a conflict if and only if two of its begins differ in route. */
  lemma {:induction false} BeginsExactly(events: seq<Event>)
    requires AreBegins(events)
    ensures TellsHistory(events, Run(NOTHING, events))
  {
    hide TellsHistory;
    if events == [] {
      NothingTells();
    } else {
      var front, last := events[..|events| - 1], events[|events| - 1];
      assert events == front + [last];
      BeginsExactly(front);
      TellsOneMore(front, Run(NOTHING, front), last);
    }
  }

  lemma NothingTells()
    ensures TellsHistory([], NOTHING)
  {
    assert BegunKeys([]) == {};
  }
}
