/**
 Many processes retaining completions at once. Each writes a pending file of its own, flushes it, and
 publishes it by an exclusive link; any of them may crash at any moment.
 */
module OutboxRuns {
  import opened Outcomes
  import opened Texts
  import opened JsonText
  import opened CanonicalJson
  import opened CompletionOutbox
  import Utf8

  type Bytes = seq<Utf8.Byte>

  datatype Call = Call(lease: Json, envelope: Json)

  datatype System = System(crypto: Crypto, key: Text, calls: seq<Call>)

  /** Where a call to retainCompletionOutboxV2 stands; the pending file's content is part of it. */
  datatype Phase =
    | Start
    | Writing(written: Bytes)
    | Flushed(written: Bytes)
    | Linked
    | Exists
    | Finished(outcome: Result<(), OutboxError>)
    | Crashed

  datatype State = State(phases: seq<Phase>, files: map<Text, Bytes>)

  ghost predicate IsSystem(y: System) {
    IsCrypto(y.crypto) && forall i :: 0 <= i < |y.calls| ==> IsJson(y.calls[i].lease) && IsJson(y.calls[i].envelope)
  }

  function Prepared(y: System, call: Call): Result<Retention, OutboxError>
    requires IsJson(call.lease) && IsJson(call.envelope)
  {
    Prepare(y.crypto, y.key, call.lease, call.envelope)
  }

  function FileAt(files: map<Text, Bytes>, path: Text): Option<Bytes> {
    if path in files then Some(files[path]) else None
  }

  /** readCompletionOutboxV2 against the current store. */
  function ReadStore(y: System, files: map<Text, Bytes>, lease: Json): Result<Option<Json>, OutboxError>
    requires IsJson(lease)
  {
    var identity := Identity(Some(lease));
    if identity.Err? then Err(identity.error)
    else ReadRecord(y.crypto, y.key, lease, FileAt(files, RecordPath(y.crypto, identity.value)))
  }

  /** What a retain reports when it finds a record already published. */
  function Compare(y: System, files: map<Text, Bytes>, call: Call): Result<(), OutboxError>
    requires IsJson(call.lease) && IsJson(call.envelope) && Prepared(y, call).Ok?
  {
    var previous := ReadStore(y, files, call.lease);
    if previous.Err? then Err(previous.error)
    else if previous.value.Some? && Canonical(previous.value.value) == Canonical(Prepared(y, call).value.envelope)
      then Ok(())
    else Err(ResultConflict)
  }

  /** One step of the call in phase `from`. */
  ghost predicate Moves(y: System, call: Call, from: Phase, files: map<Text, Bytes>, to: Phase,
      files': map<Text, Bytes>)
    requires IsJson(call.lease) && IsJson(call.envelope)
  {
    var prepared := Prepared(y, call);
    match from
    case Start =>
      files' == files && to == (if prepared.Err? then Finished(Err(prepared.error)) else Writing([]))
    case Writing(w) =>
      files' == files && prepared.Ok? &&
      if w == prepared.value.bytes then to == Flushed(w)
      else to.Writing? && w <= to.written <= prepared.value.bytes
    case Flushed(w) =>
      prepared.Ok? &&
      if prepared.value.path in files then to == Exists && files' == files
      else to == Linked && files' == files[prepared.value.path := w]
    case Linked => files' == files && to == Finished(Ok(()))
    case Exists => files' == files && prepared.Ok? && to == Finished(Compare(y, files, call))
    case Finished(_) => false
    case Crashed => false
  }

  ghost predicate StepOf(y: System, s: State, s': State, i: nat)
    requires IsSystem(y)
  {
    && i < |y.calls| == |s.phases|
    && |s'.phases| == |s.phases|
    && (forall j :: 0 <= j < |s.phases| && j != i ==> s'.phases[j] == s.phases[j])
    && (Moves(y, y.calls[i], s.phases[i], s.files, s'.phases[i], s'.files)
        || (!s.phases[i].Finished? && s'.phases[i] == Crashed && s'.files == s.files))
  }

  ghost predicate Next(y: System, s: State, s': State)
    requires IsSystem(y)
  {
    exists i: nat :: StepOf(y, s, s', i)
  }

  /** Every published file is the complete record of some retain for that path. */
  ghost predicate IsStore(y: System, files: map<Text, Bytes>) {
    forall path :: path in files ==> Publishes(y, path, files[path])
  }

  ghost predicate Publishes(y: System, path: Text, bytes: Bytes) {
    exists call: Call :: IsJson(call.lease) && IsJson(call.envelope) && Prepared(y, call).Ok?
      && Prepared(y, call).value.path == path && Prepared(y, call).value.bytes == bytes
  }

  ghost predicate Init(y: System, s: State) {
    |s.phases| == |y.calls| && (forall i :: 0 <= i < |s.phases| ==> s.phases[i] == Start) && IsStore(y, s.files)
  }

  ghost predicate IsRun(y: System, run: seq<State>)
    requires IsSystem(y)
  {
    run != [] && Init(y, run[0]) && forall n :: 0 <= n < |run| - 1 ==> Next(y, run[n], run[n + 1])
  }

  // ---- The invariant ----

  ghost predicate PhaseFits(y: System, call: Call, phase: Phase, files: map<Text, Bytes>)
    requires IsJson(call.lease) && IsJson(call.envelope)
  {
    var prepared := Prepared(y, call);
    match phase
    case Writing(w) => prepared.Ok? && w <= prepared.value.bytes
    case Flushed(w) => prepared.Ok? && w == prepared.value.bytes
    case Linked => prepared.Ok? && prepared.value.path in files && files[prepared.value.path] == prepared.value.bytes
    case Exists => prepared.Ok? && prepared.value.path in files
    case Finished(outcome) =>
      if prepared.Err? then outcome == Err(prepared.error)
      else prepared.value.path in files && outcome == Compare(y, files, call)
    case _ => true
  }

  ghost predicate Inv(y: System, s: State)
    requires IsSystem(y)
  {
    && |s.phases| == |y.calls|
    && IsStore(y, s.files)
    && forall i :: 0 <= i < |s.phases| ==> PhaseFits(y, y.calls[i], s.phases[i], s.files)
  }

  /** Files are only ever added. */
  ghost predicate Extends(files: map<Text, Bytes>, files': map<Text, Bytes>) {
    forall path :: path in files ==> path in files' && files'[path] == files[path]
  }

  lemma CompareStable(y: System, files: map<Text, Bytes>, files': map<Text, Bytes>, call: Call)
    requires IsJson(call.lease) && IsJson(call.envelope) && Prepared(y, call).Ok?
    requires Extends(files, files') && Prepared(y, call).value.path in files
    ensures Compare(y, files', call) == Compare(y, files, call)
  {
    hide Prepare, ReadRecord, Canonical, IsJson, Identity;
  }

  lemma PhaseStable(y: System, call: Call, phase: Phase, files: map<Text, Bytes>, files': map<Text, Bytes>)
    requires IsJson(call.lease) && IsJson(call.envelope)
    requires PhaseFits(y, call, phase, files) && Extends(files, files')
    ensures PhaseFits(y, call, phase, files')
  {
    hide IsJson, Prepared, Compare;
    if phase.Finished? && Prepared(y, call).Ok? { CompareStable(y, files, files', call); }
  }

  /** A call that published its own record agrees with it. */
  lemma OwnRecordAgrees(y: System, call: Call, files: map<Text, Bytes>)
    requires IsCrypto(y.crypto) && IsJson(call.lease) && IsJson(call.envelope) && Prepared(y, call).Ok?
    requires FileAt(files, Prepared(y, call).value.path) == Some(Prepared(y, call).value.bytes)
    ensures Compare(y, files, call) == Ok(())
  {
    hide Prepare, ReadRecord, Canonical, IsJson, Identity, IsCrypto;
    PreparedReadsBack(y.crypto, y.key, call.lease, call.envelope, call.lease);
  }

  lemma MoveFits(y: System, call: Call, from: Phase, files: map<Text, Bytes>, to: Phase, files': map<Text, Bytes>)
    requires IsCrypto(y.crypto) && IsJson(call.lease) && IsJson(call.envelope)
    requires PhaseFits(y, call, from, files) && IsStore(y, files)
    requires Moves(y, call, from, files, to, files')
    ensures PhaseFits(y, call, to, files') && IsStore(y, files') && Extends(files, files')
  {
    hide IsJson, Prepared, Compare, IsCrypto;
    if from.Linked? { OwnRecordAgrees(y, call, files); }
    if from.Flushed? {
      assert Publishes(y, Prepared(y, call).value.path, Prepared(y, call).value.bytes);
    }
  }

  lemma NextKeepsInv(y: System, s: State, s': State)
    requires IsSystem(y) && Inv(y, s) && Next(y, s, s')
    ensures Inv(y, s') && Extends(s.files, s'.files)
  {
    hide PhaseFits, IsStore, Moves, IsJson, IsCrypto;
    var i: nat :| StepOf(y, s, s', i);
    var call := y.calls[i];
    if s'.phases[i] == Crashed && s'.files == s.files {
      CrashFits(y, call, s'.files);
    } else {
      MoveFits(y, call, s.phases[i], s.files, s'.phases[i], s'.files);
    }
    forall j | 0 <= j < |s.phases| ensures PhaseFits(y, y.calls[j], s'.phases[j], s'.files) {
      if j != i { PhaseStable(y, y.calls[j], s.phases[j], s.files, s'.files); }
    }
  }

  lemma CrashFits(y: System, call: Call, files: map<Text, Bytes>)
    requires IsJson(call.lease) && IsJson(call.envelope)
    ensures PhaseFits(y, call, Crashed, files)
  {
  }

  lemma {:induction false} RunKeepsInv(y: System, run: seq<State>, n: nat)
    requires IsSystem(y) && IsRun(y, run) && n < |run|
    ensures Inv(y, run[n])
  {
    hide IsJson, IsStore, Prepared, Compare, IsCrypto, Next;
    if n > 0 {
      RunKeepsInv(y, run, n - 1);
      assert Next(y, run[n - 1], run[n - 1 + 1]);
      NextKeepsInv(y, run[n - 1], run[n]);
    }
  }

  // ---- Main results ----

  /** Whatever was linked first under a path stays there, unchanged, for the rest of the run. */
  lemma {:induction false} FirstLinkStays(y: System, run: seq<State>, m: nat, n: nat)
    requires IsSystem(y) && IsRun(y, run) && m <= n < |run|
    ensures Extends(run[m].files, run[n].files)
    decreases n - m
  {
    hide Inv, Next, Init, IsSystem;
    if m < n {
      RunKeepsInv(y, run, n - 1);
      assert Next(y, run[n - 1], run[n - 1 + 1]);
      NextKeepsInv(y, run[n - 1], run[n]);
      FirstLinkStays(y, run, m, n - 1);
    }
  }

  /** Two leases for one record: their identities are canonically the same, whatever else they hold
      in whatever order. */
  ghost predicate SameIdentity(a: Json, b: Json)
    requires IsJson(a) && IsJson(b)
  {
    Identity(Some(a)).Ok? && Identity(Some(b)).Ok?
      && Canonical(Identity(Some(a)).value) == Canonical(Identity(Some(b)).value)
  }

  lemma SameIdentityReads(y: System, files: map<Text, Bytes>, a: Json, b: Json)
    requires IsJson(a) && IsJson(b) && SameIdentity(a, b)
    ensures ReadStore(y, files, a) == ReadStore(y, files, b)
  {
    hide IsJson, Identity, ReadRecord, Canonical;
    SameIdentityReadsSame(y.crypto, y.key, a, b, FileAt(files, RecordPath(y.crypto, Identity(Some(a)).value)));
  }

  /** Once a read finds a record, every later read for that lease identity gives the same answer. */
  lemma ReadsAgree(y: System, run: seq<State>, m: nat, n: nat, lease: Json, later: Json)
    requires IsSystem(y) && IsRun(y, run) && m <= n < |run| && IsJson(lease) && IsJson(later)
      && SameIdentity(lease, later)
    requires ReadStore(y, run[m].files, lease).Ok? && ReadStore(y, run[m].files, lease).value.Some?
    ensures ReadStore(y, run[n].files, later) == ReadStore(y, run[m].files, lease)
  {
    hide IsRun, IsSystem, IsJson, Identity, ReadRecord, RecordPath, SameIdentity;
    FirstLinkStays(y, run, m, n);
    SameIdentityReads(y, run[n].files, lease, later);
  }

  /** A finished retain that passed its own checks reports exactly how its envelope compares with the
      record that stands under its path: success if they agree canonically, otherwise the reader's
      error or a conflict. */
  lemma RetainOutcome(y: System, run: seq<State>, n: nat, i: nat)
    requires IsSystem(y) && IsRun(y, run) && n < |run| && i < |y.calls| == |run[n].phases|
    requires run[n].phases[i].Finished? && Prepared(y, y.calls[i]).Ok?
    ensures Prepared(y, y.calls[i]).value.path in run[n].files
    ensures run[n].phases[i].outcome.Ok? <==>
      var stored := ReadStore(y, run[n].files, y.calls[i].lease);
      stored.Ok? && stored.value.Some? &&
      SameJson(Prepared(y, y.calls[i]).value.envelope, stored.value.value)
    ensures
      var stored := ReadStore(y, run[n].files, y.calls[i].lease);
      stored.Ok? && !(stored.value.Some? && SameJson(Prepared(y, y.calls[i]).value.envelope, stored.value.value)) ==>
        run[n].phases[i].outcome == Err(ResultConflict)
  {
    hide IsRun, IsJson, IsCrypto, SameJson, Prepared, ReadStore, Compare, Inv;
    RunKeepsInv(y, run, n);
    FinishedFits(y, run[n], i);
    CompareMeans(y, run[n].files, y.calls[i]);
  }

  lemma FinishedFits(y: System, s: State, i: nat)
    requires IsSystem(y) && Inv(y, s) && i < |y.calls| && s.phases[i].Finished?
    ensures var call := y.calls[i];
      if Prepared(y, call).Err? then s.phases[i].outcome == Err(Prepared(y, call).error)
      else Prepared(y, call).value.path in s.files && s.phases[i].outcome == Compare(y, s.files, call)
  {
    hide IsStore, IsJson, IsCrypto, Compare, Prepared;
    assert PhaseFits(y, y.calls[i], s.phases[i], s.files);
  }

  lemma CompareMeans(y: System, files: map<Text, Bytes>, call: Call)
    requires IsJson(call.lease) && IsJson(call.envelope) && Prepared(y, call).Ok?
    ensures
      var stored := ReadStore(y, files, call.lease);
      var agrees := stored.Ok? && stored.value.Some? && SameJson(Prepared(y, call).value.envelope, stored.value.value);
      (Compare(y, files, call).Ok? <==> agrees) &&
      (stored.Ok? && !agrees ==> Compare(y, files, call) == Err(ResultConflict))
  {
    hide IsJson, Canonical, SameJson, Prepare, ReadStore, ReadRecord, Identity, FileAt, RecordPath;
    var stored := ReadStore(y, files, call.lease);
    if stored.Ok? && stored.value.Some? {
      ReadStoreIsJson(y, files, call.lease);
      CanonicalEquality(Prepared(y, call).value.envelope, stored.value.value);
    }
  }

  lemma ReadStoreIsJson(y: System, files: map<Text, Bytes>, lease: Json)
    requires IsJson(lease) && ReadStore(y, files, lease).Ok? && ReadStore(y, files, lease).value.Some?
    ensures IsJson(ReadStore(y, files, lease).value.value)
  {
  }

  /** No reader sees a partial record: in every reachable state a read finds no record at all, or the record that some
      complete retain published under that path. If that retain was for the reader's identity the read returns its
      envelope, and otherwise, when two identities share a digest, the read reports a binding mismatch. */
  lemma ReadsAreComplete(y: System, run: seq<State>, n: nat, lease: Json)
    requires IsSystem(y) && IsRun(y, run) && n < |run| && IsJson(lease) && Identity(Some(lease)).Ok?
    ensures ReadStore(y, run[n].files, lease) == Ok(None) ||
      exists call: Call :: IsJson(call.lease) && IsJson(call.envelope) && Prepared(y, call).Ok?
        && FileAt(run[n].files, Prepared(y, call).value.path) == Some(Prepared(y, call).value.bytes)
        && ReadStore(y, run[n].files, lease) ==
             (if SameIdentity(call.lease, lease) then Ok(Some(Prepared(y, call).value.envelope))
               else Err(BindingMismatch))
  {
    hide IsRun, IsJson, Canonical, IsCrypto, Prepare, Identity, ReadRecord;
    RunKeepsInv(y, run, n);
    var identity := Identity(Some(lease)).value;
    var path := RecordPath(y.crypto, identity);
    if path in run[n].files {
      assert Publishes(y, path, run[n].files[path]);
      var call: Call :| IsJson(call.lease) && IsJson(call.envelope) && Prepared(y, call).Ok?
        && Prepared(y, call).value.path == path && Prepared(y, call).value.bytes == run[n].files[path];
      if SameIdentity(call.lease, lease) {
        PreparedReadsBack(y.crypto, y.key, call.lease, call.envelope, lease);
      } else {
        PreparedReadsMismatch(y.crypto, y.key, call.lease, call.envelope, lease);
      }
    } else {
      EmptyRead(y, lease);
    }
  }

  lemma EmptyRead(y: System, lease: Json)
    requires IsJson(lease) && Identity(Some(lease)).Ok?
    ensures ReadRecord(y.crypto, y.key, lease, None) == Ok(None)
  {
    hide Identity, IsJson, CheckRecord;
  }

  /** Two retains for one lease identity that both succeeded retained canonically the same envelope. */
  lemma SuccessesAgree(y: System, run: seq<State>, n: nat, i: nat, j: nat)
    requires IsSystem(y) && IsRun(y, run) && n < |run| && i < |y.calls| && j < |y.calls| == |run[n].phases|
    requires run[n].phases[i] == Finished(Ok(())) && run[n].phases[j] == Finished(Ok(()))
    requires SameIdentity(y.calls[i].lease, y.calls[j].lease)
    ensures Prepared(y, y.calls[i]).Ok? && Prepared(y, y.calls[j]).Ok?
    ensures Canonical(Prepared(y, y.calls[i]).value.envelope) == Canonical(Prepared(y, y.calls[j]).value.envelope)
  {
    hide IsRun, IsJson, IsCrypto, Prepared, ReadStore, Inv, Canonical, SameIdentity;
    RunKeepsInv(y, run, n);
    FinishedFits(y, run[n], i);
    FinishedFits(y, run[n], j);
    SameIdentityReads(y, run[n].files, y.calls[i].lease, y.calls[j].lease);
  }

  /** A retain that succeeded left a record that agrees with its envelope, and every later state holds it. */
  lemma SuccessAgrees(y: System, run: seq<State>, n: nat, m: nat, i: nat)
    requires IsSystem(y) && IsRun(y, run) && n <= m < |run| && i < |y.calls| == |run[n].phases|
    requires run[n].phases[i] == Finished(Ok(())) && Identity(Some(y.calls[i].lease)).Ok?
    ensures var call := y.calls[i];
      Agrees(y.crypto, y.key, call.lease, call.envelope,
             FileAt(run[m].files, RecordPath(y.crypto, Identity(Some(call.lease)).value)))
  {
    hide IsRun, IsJson, IsCrypto, Prepare, Inv, Canonical, Identity, ReadRecord, RecordPath;
    RunKeepsInv(y, run, n);
    FinishedFits(y, run[n], i);
    FirstLinkStays(y, run, n, m);
    PreparedPath(y, y.calls[i]);
  }

  lemma PreparedPath(y: System, call: Call)
    requires IsJson(call.lease) && IsJson(call.envelope) && Prepared(y, call).Ok?
    ensures Identity(Some(call.lease)).Ok?
      && Prepared(y, call).value.path == RecordPath(y.crypto, Identity(Some(call.lease)).value)
  {
    hide Prepare, IsJson, Identity, Canonical, RecordPath;
    PreparedIs(y.crypto, y.key, call.lease, call.envelope);
  }

  /** What a retain that nothing disturbs makes of the store, and what it reports. */
  function Retained(y: System, s: State, i: nat): State
    requires i < |y.calls| == |s.phases| && IsJson(y.calls[i].lease) && IsJson(y.calls[i].envelope)
  {
    var prepared := Prepared(y, y.calls[i]);
    if prepared.Err? then s.(phases := s.phases[i := Finished(Err(prepared.error))])
    else if prepared.value.path in s.files then s.(phases := s.phases[i := Finished(Compare(y, s.files, y.calls[i]))])
    else State(s.phases[i := Finished(Ok(()))], s.files[prepared.value.path := prepared.value.bytes])
  }

  /** The call is in this phase, and the rest as in s. */
  function At(s: State, i: nat, phase: Phase, files: map<Text, Bytes>): State
    requires i < |s.phases|
  {
    State(s.phases[i := phase], files)
  }

  lemma MovesTo(y: System, s: State, i: nat, from: Phase, files: map<Text, Bytes>, to: Phase, files': map<Text, Bytes>)
    requires IsSystem(y) && i < |y.calls| == |s.phases| && Moves(y, y.calls[i], from, files, to, files')
    ensures StepOf(y, At(s, i, from, files), At(s, i, to, files'), i)
  {
    hide Moves, IsJson, IsCrypto;
  }

  /** The moves of a retain up to the link. */
  lemma WriteMoves(y: System, call: Call, files: map<Text, Bytes>)
    requires IsJson(call.lease) && IsJson(call.envelope) && Prepared(y, call).Ok?
    ensures var bytes := Prepared(y, call).value.bytes;
      && Moves(y, call, Start, files, Writing([]), files)
      && (bytes != [] ==> Moves(y, call, Writing([]), files, Writing(bytes), files))
      && Moves(y, call, Writing(bytes), files, Flushed(bytes), files)
  {
    hide IsJson, Prepared, Compare;
  }

  /** The link, or finding it there, and the report. */
  lemma LinkMoves(y: System, call: Call, files: map<Text, Bytes>)
    requires IsJson(call.lease) && IsJson(call.envelope) && Prepared(y, call).Ok?
    ensures
      var path, bytes := Prepared(y, call).value.path, Prepared(y, call).value.bytes;
      if path in files then Moves(y, call, Flushed(bytes), files, Exists, files)
                            && Moves(y, call, Exists, files, Finished(Compare(y, files, call)), files)
      else Moves(y, call, Flushed(bytes), files, Linked, files[path := bytes])
           && Moves(y, call, Linked, files[path := bytes], Finished(Ok(())), files[path := bytes])
  {
    hide IsJson, Prepared, Compare;
  }

  /** A retain that is left alone comes to its end: it publishes its record where there is none, and otherwise reports
      how the record that is there compares with its envelope. */
  lemma RetainCompletes(y: System, s: State, i: nat) returns (run: seq<State>)
    requires IsSystem(y) && i < |y.calls| == |s.phases| && s.phases[i] == Start
    ensures run != [] && run[0] == s && run[|run| - 1] == Retained(y, s, i)
    ensures forall n :: 0 <= n < |run| - 1 ==> StepOf(y, run[n], run[n + 1], i)
  {
    hide IsJson, IsCrypto, Prepared, Compare, StepOf, Moves;
    var call, files, prepared := y.calls[i], s.files, Prepared(y, y.calls[i]);
    assert At(s, i, Start, files) == s;
    if prepared.Err? {
      RefusedMoves(y, call, files);
      MovesTo(y, s, i, Start, files, Finished(Err(prepared.error)), files);
      run := [s, At(s, i, Finished(Err(prepared.error)), files)];
    } else {
      var path, bytes := prepared.value.path, prepared.value.bytes;
      WriteMoves(y, call, files);
      LinkMoves(y, call, files);
      var front := [s, At(s, i, Writing([]), files), At(s, i, Writing(bytes), files)];
      MovesTo(y, s, i, Start, files, Writing([]), files);
      if bytes == [] {
        front := front[..2];
      } else {
        MovesTo(y, s, i, Writing([]), files, Writing(bytes), files);
      }
      MovesTo(y, s, i, Writing(bytes), files, Flushed(bytes), files);
      var flushed := At(s, i, Flushed(bytes), files);
      if path in files {
        MovesTo(y, s, i, Flushed(bytes), files, Exists, files);
        MovesTo(y, s, i, Exists, files, Finished(Compare(y, files, call)), files);
        run := front + [flushed, At(s, i, Exists, files), At(s, i, Finished(Compare(y, files, call)), files)];
      } else {
        var linked := files[path := bytes];
        MovesTo(y, s, i, Flushed(bytes), files, Linked, linked);
        MovesTo(y, s, i, Linked, linked, Finished(Ok(())), linked);
        run := front + [flushed, At(s, i, Linked, linked), At(s, i, Finished(Ok(())), linked)];
      }
    }
  }

  lemma RefusedMoves(y: System, call: Call, files: map<Text, Bytes>)
    requires IsJson(call.lease) && IsJson(call.envelope) && Prepared(y, call).Err?
    ensures Moves(y, call, Start, files, Finished(Err(Prepared(y, call).error)), files)
  {
    hide IsJson, Prepared, Compare;
  }

  /** End to end: after a retain has succeeded, hydrating its delivered message at any later moment, with any lease
      of canonically the same identity, restores the structured content up to member order and leaves the rest of
      the message alone. */
  lemma DeliveryHydrates(y: System, run: seq<State>, n: nat, m: nat, i: nat, lease: Json)
    requires IsSystem(y) && IsRun(y, run) && n <= m < |run| && i < |y.calls| == |run[n].phases|
    requires run[n].phases[i] == Finished(Ok(())) && IsJson(lease) && SameIdentity(y.calls[i].lease, lease)
    ensures Get(Some(y.calls[i].envelope), STRUCTURED).Some?
    ensures var call := y.calls[i];
      var message := Deliver(y.crypto, call.lease, call.envelope);
      var file := FileAt(run[m].files, RecordPath(y.crypto, Identity(Some(lease)).value));
      var hydrated := Hydrate(y.crypto, y.key, Some(lease), file, message);
      && hydrated.Ok? && message.Obj? && (message == call.envelope ==> hydrated.value == call.envelope)
      && Get(Some(hydrated.value), STRUCTURED).Some?
      && SameJson(Get(Some(call.envelope), STRUCTURED).value, Get(Some(hydrated.value), STRUCTURED).value)
      && hydrated.value == Obj(SetMember(message.members, STRUCTURED, Get(Some(hydrated.value), STRUCTURED).value))
  {
    hide IsRun, IsJson, IsCrypto, Identity, Canonical, Agrees, Hydrate, Deliver, SameJson, SetMember, Get, STRUCTURED;
    var call := y.calls[i];
    SuccessAgrees(y, run, n, m, i);
    var file := FileAt(run[m].files, RecordPath(y.crypto, Identity(Some(call.lease)).value));
    HydrateAfterDeliver(y.crypto, y.key, call.lease, call.envelope, file);
    SameIdentityHydrates(y.crypto, y.key, call.lease, lease, file, Deliver(y.crypto, call.lease, call.envelope));
  }
}
