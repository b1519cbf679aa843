/**
 One cache key under any number of overlapping stores, reads, prunes and crashes. There is no lock: each
 file appears by a move that never overwrites, and is marked read-only afterwards.
 */
module CacheRuns {
  import opened Outcomes
  import opened Texts
  import opened CompilationCache

  /** Where a call stands; a read remembers the manifest it has already read. */
  datatype Phase =
    | Ready
    | ArtifactMoved
    | BothMoved
    | ArtifactMarked
    | BothMarked
    | Checking
    | Holding(manifest: File<Manifest>)
    | Done(result: Result<Lookup, CacheError>)
    | Crashed

  /** A call to Store with these bytes, or with None a call to TryRead alone. */
  type Call = Option<Bytes>

  datatype System = System(sha: Bytes -> Text, key: Text, bindings: Bindings, calls: seq<Call>)

  /** The prunes under way are counted by what they did last: made the key's manifest writable, deleted it, or made the
      artifact writable. */
  datatype Prunes = Prunes(cleared: nat, deleted: nat, freed: nat)

  const NO_PRUNES := Prunes(0, 0, 0)

  datatype State = State(phases: seq<Phase>, artifact: Option<File<Bytes>>, manifest: Option<File<Manifest>>,
      prunes: Prunes)

  predicate IsSystem(y: System) {
    forall i :: 0 <= i < |y.calls| && y.calls[i].Some? ==> IsStorable(y.calls[i].value)
  }

  function ManifestOf(y: System, assembly: Bytes): Manifest { ManifestFor(y.sha, y.key, y.bindings, assembly) }

  function Marked<T>(file: Option<File<T>>): Option<File<T>> {
    if file.Some? then Some(file.value.(readOnly := true)) else None
  }

  function Unmarked<T>(file: Option<File<T>>): Option<File<T>> {
    if file.Some? then Some(file.value.(readOnly := false)) else None
  }

  predicate IsDeletable<T>(file: Option<File<T>>) { file.None? || !file.value.readOnly }

  predicate IsMarked<T>(file: Option<File<T>>) { file.Some? && file.value.readOnly }

  /** One step of a call: to its next phase and the two files as it leaves them. */
  ghost predicate Moves(y: System, call: Call, from: Phase, s: State, to: Phase, s': State) {
    match from
    case Ready =>
      if call.None? then to == Checking && s'.artifact == s.artifact && s'.manifest == s.manifest
      else
        to == ArtifactMoved && s'.manifest == s.manifest &&
        if s.artifact.Some? then s'.artifact == s.artifact
        else s'.artifact.Some? && s'.artifact.value.content == call.value && !s'.artifact.value.readOnly
    case ArtifactMoved =>
      call.Some? && to == BothMoved && s'.artifact == s.artifact &&
      if s.manifest.Some? then s'.manifest == s.manifest
      else s'.manifest.Some? && s'.manifest.value.content == ManifestOf(y, call.value) && !s'.manifest.value.readOnly
    case BothMoved =>
      // marking a file that a prune has taken away throws, which is a crash here
      s.artifact.Some? && to == ArtifactMarked && s'.artifact == Marked(s.artifact) && s'.manifest == s.manifest
    case ArtifactMarked =>
      s.manifest.Some? && to == BothMarked && s'.artifact == s.artifact && s'.manifest == Marked(s.manifest)
    case BothMarked =>
      to == Checking && s'.artifact == s.artifact && s'.manifest == s.manifest
    case Checking =>
      s'.artifact == s.artifact && s'.manifest == s.manifest &&
      if s.artifact.Some? && s.manifest.Some? then to == Holding(s.manifest.value)
      else to == Done(if s.artifact.None? && s.manifest.None? then Ok(Miss) else Err(Incomplete))
    case Holding(manifest) =>
      s'.artifact == s.artifact && s'.manifest == s.manifest &&
      to == Done(if s.artifact.Some? then Check(y.sha, y.key, y.bindings, manifest, s.artifact.value) else Err(Mutable))
    case Done(_) => false
    case Crashed => false
  }

  ghost predicate CallStep(y: System, s: State, s': State, i: nat) {
    && i < |y.calls| == |s.phases| == |s'.phases|
    && s'.prunes == s.prunes
    && (forall j :: 0 <= j < |s.phases| && j != i ==> s'.phases[j] == s.phases[j])
    && (Moves(y, y.calls[i], s.phases[i], s, s'.phases[i], s')
        || (!s.phases[i].Done? && s'.phases[i] == Crashed && s'.artifact == s.artifact && s'.manifest == s.manifest))
  }

  /** A prune lists manifests. Having chosen this key it makes the manifest writable and deletes it, then makes the
      artifact writable and deletes it; it may stop anywhere in between. Deleting a read-only file throws. */
  ghost predicate PruneStep(s: State, s': State) {
    var p := s.prunes;
    || (s.manifest.Some? && s' == s.(manifest := Unmarked(s.manifest), prunes := p.(cleared := p.cleared + 1)))
    || (p.cleared > 0 && IsDeletable(s.manifest)
      && s' == s.(manifest := None, prunes := p.(cleared := p.cleared - 1, deleted := p.deleted + 1)))
    || (p.deleted > 0 && s.artifact.Some?
      && s' == s.(artifact := Unmarked(s.artifact), prunes := p.(deleted := p.deleted - 1, freed := p.freed + 1)))
    || (p.freed > 0 && IsDeletable(s.artifact) && s' == s.(artifact := None, prunes := p.(freed := p.freed - 1)))
    || (p.cleared > 0 && s' == s.(prunes := p.(cleared := p.cleared - 1)))
    || (p.deleted > 0 && s' == s.(prunes := p.(deleted := p.deleted - 1)))
    || (p.freed > 0 && s' == s.(prunes := p.(freed := p.freed - 1)))
  }

  ghost predicate Next(y: System, s: State, s': State, pruning: bool) {
    (exists i: nat :: CallStep(y, s, s', i)) || (pruning && PruneStep(s, s'))
  }

  ghost predicate Init(y: System, s: State) {
    s == State(seq(|y.calls|, _ => Ready), None, None, NO_PRUNES)
  }

  ghost predicate IsRun(y: System, run: seq<State>, pruning: bool) {
    run != [] && Init(y, run[0]) && forall n :: 0 <= n < |run| - 1 ==> Next(y, run[n], run[n + 1], pruning)
  }

  // ---- With or without prunes: whole files of some writer ----

  ghost predicate IsWritten(y: System, assembly: Bytes) {
    exists i :: 0 <= i < |y.calls| && y.calls[i] == Some(assembly)
  }

  ghost predicate IsWrittenManifest(y: System, m: Manifest) {
    exists assembly :: IsWritten(y, assembly) && m == ManifestOf(y, assembly)
  }

  /** A hit returned one writer's bytes, matching the hash and length of some writer's manifest. */
  ghost predicate HonestHit(y: System, r: Result<Lookup, CacheError>) {
    r.Ok? && r.value.Hit? ==>
      IsWritten(y, r.value.assembly) &&
      exists other :: IsWritten(y, other) && y.sha(other) == y.sha(r.value.assembly) && |other| == |r.value.assembly|
  }

  ghost predicate WholePhase(y: System, phase: Phase) {
    match phase
    case Holding(manifest) => IsWrittenManifest(y, manifest.content)
    case Done(r) => HonestHit(y, r)
    case _ => true
  }

  ghost predicate WholeFiles(y: System, s: State) {
    && |s.phases| == |y.calls|
    && (s.artifact.Some? ==> IsWritten(y, s.artifact.value.content))
    && (s.manifest.Some? ==> IsWrittenManifest(y, s.manifest.value.content))
    && forall i :: 0 <= i < |s.phases| ==> WholePhase(y, s.phases[i])
  }

  lemma CheckIsHonest(y: System, manifest: File<Manifest>, artifact: File<Bytes>)
    requires IsWrittenManifest(y, manifest.content) && IsWritten(y, artifact.content)
    ensures HonestHit(y, Check(y.sha, y.key, y.bindings, manifest, artifact))
  {
  }

  lemma MoveKeepsWhole(y: System, s: State, s': State, i: nat)
    requires WholeFiles(y, s) && CallStep(y, s, s', i)
    ensures WholeFiles(y, s')
  {
    hide Check, HonestHit;
    assert WholePhase(y, s.phases[i]);
    if y.calls[i].Some? { assert IsWritten(y, y.calls[i].value); }
    if s.phases[i].Holding? && s.artifact.Some? { CheckIsHonest(y, s.phases[i].manifest, s.artifact.value); }
    NoHitIsHonest(y, Incomplete);
    NoHitIsHonest(y, Mutable);
  }

  lemma NoHitIsHonest(y: System, e: CacheError)
    ensures HonestHit(y, Ok(Miss)) && HonestHit(y, Err(e))
  {
  }

  lemma {:induction false} WholeFilesHold(y: System, run: seq<State>, pruning: bool, n: nat)
    requires IsRun(y, run, pruning) && n < |run|
    ensures WholeFiles(y, run[n])
  {
    hide WholePhase, CallStep, PruneStep;
    if n > 0 {
      WholeFilesHold(y, run, pruning, n - 1);
      assert Next(y, run[n - 1], run[n - 1 + 1], pruning);
      var s, s' := run[n - 1], run[n];
      if i: nat :| CallStep(y, s, s', i) {
        MoveKeepsWhole(y, s, s', i);
      } else {
        PruneKeepsWhole(y, s, s');
      }
    } else {
      StartIsWhole(y, run[0]);
    }
  }

  lemma PruneKeepsWhole(y: System, s: State, s': State)
    requires WholeFiles(y, s) && PruneStep(s, s')
    ensures WholeFiles(y, s')
  {
    hide WholePhase;
  }

  lemma StartIsWhole(y: System, s: State)
    requires Init(y, s)
    ensures WholeFiles(y, s)
  {
  }

  /** Whatever the writers wrote and however they, prunes and crashes overlap, a read that hits returns
      the bytes of one writer, with the hash and length of some writer's manifest: never a mixture. */
  lemma ReadsAreHonest(y: System, run: seq<State>, pruning: bool, n: nat, i: nat)
    requires IsRun(y, run, pruning) && n < |run| && i < |run[n].phases| && run[n].phases[i].Done?
    ensures HonestHit(y, run[n].phases[i].result)
  {
    WholeFilesHold(y, run, pruning, n);
    assert WholePhase(y, run[n].phases[i]);
  }

  // ---- Equal bytes, no prune of the key ----

  ghost predicate EqualBytes(y: System, assembly: Bytes) {
    IsStorable(assembly) && forall i :: 0 <= i < |y.calls| && y.calls[i].Some? ==> y.calls[i].value == assembly
  }

  /** What a store has established by the time it reaches a phase. */
  ghost predicate Progress(y: System, assembly: Bytes, call: Call, phase: Phase, s: State) {
    match phase
    case Ready => true
    case ArtifactMoved => call.Some? && s.artifact.Some?
    case BothMoved => call.Some? && s.artifact.Some? && s.manifest.Some?
    case ArtifactMarked => call.Some? && s.artifact.Some? && s.manifest.Some? && s.artifact.value.readOnly
    case BothMarked => call.Some? && Published(s)
    case Checking => call.Some? ==> Published(s)
    case Holding(manifest) => call.Some? ==>
      Published(s) && manifest.readOnly && manifest.content == ManifestOf(y, assembly)
    case Done(r) => call.Some? ==> r == Ok(Hit(assembly))
    case Crashed => true
  }

  ghost predicate Published(s: State) {
    IsMarked(s.artifact) && IsMarked(s.manifest)
  }

  ghost predicate EqualInv(y: System, assembly: Bytes, s: State) {
    && |s.phases| == |y.calls|
    && (s.artifact.Some? ==> s.artifact.value.content == assembly)
    && (s.manifest.Some? ==> s.manifest.value.content == ManifestOf(y, assembly))
    && forall i :: 0 <= i < |s.phases| ==> Progress(y, assembly, y.calls[i], s.phases[i], s)
  }

  /** Without a prune, files stay and never become writable again. */
  ghost predicate Grows(s: State, s': State) {
    && (s.artifact.Some? ==> s'.artifact.Some? && (s.artifact.value.readOnly ==> s'.artifact.value.readOnly))
    && (s.manifest.Some? ==> s'.manifest.Some? && (s.manifest.value.readOnly ==> s'.manifest.value.readOnly))
  }

  lemma MatchingFilesHit(y: System, assembly: Bytes, manifest: File<Manifest>, artifact: File<Bytes>)
    requires IsStorable(assembly) && manifest.readOnly && artifact.readOnly
    requires manifest.content == ManifestOf(y, assembly) && artifact.content == assembly
    ensures Check(y.sha, y.key, y.bindings, manifest, artifact) == Ok(Hit(assembly))
  {
  }

  lemma MoveProgress(y: System, assembly: Bytes, s: State, s': State, i: nat)
    requires EqualBytes(y, assembly) && EqualInv(y, assembly, s) && CallStep(y, s, s', i)
    ensures Grows(s, s') && Progress(y, assembly, y.calls[i], s'.phases[i], s')
    ensures s'.artifact.Some? ==> s'.artifact.value.content == assembly
    ensures s'.manifest.Some? ==> s'.manifest.value.content == ManifestOf(y, assembly)
  {
    hide Check;
    assert Progress(y, assembly, y.calls[i], s.phases[i], s);
    if s.phases[i].Holding? && y.calls[i].Some? {
      MatchingFilesHit(y, assembly, s.phases[i].manifest, s.artifact.value);
    }
  }

  lemma ProgressStable(y: System, assembly: Bytes, call: Call, phase: Phase, s: State, s': State)
    requires Progress(y, assembly, call, phase, s) && Grows(s, s')
    ensures Progress(y, assembly, call, phase, s')
  {
  }

  lemma EqualStep(y: System, assembly: Bytes, s: State, s': State, i: nat)
    requires EqualBytes(y, assembly) && EqualInv(y, assembly, s) && CallStep(y, s, s', i)
    ensures EqualInv(y, assembly, s')
  {
    hide Progress, Grows, Moves;
    MoveProgress(y, assembly, s, s', i);
    forall j | 0 <= j < |s'.phases| ensures Progress(y, assembly, y.calls[j], s'.phases[j], s') {
      if j != i { ProgressStable(y, assembly, y.calls[j], s.phases[j], s, s'); }
    }
  }

  lemma {:induction false} EqualInvHolds(y: System, assembly: Bytes, run: seq<State>, n: nat)
    requires EqualBytes(y, assembly) && IsRun(y, run, false) && n < |run|
    ensures EqualInv(y, assembly, run[n])
  {
    hide CallStep;
    if n > 0 {
      EqualInvHolds(y, assembly, run, n - 1);
      assert Next(y, run[n - 1], run[n - 1 + 1], false);
      var i: nat :| CallStep(y, run[n - 1], run[n], i);
      EqualStep(y, assembly, run[n - 1], run[n], i);
    }
  }

  /** Any number of overlapping stores of equal bytes, with crashes but no prune of the key: every store
      that finishes reads back a hit with exactly those bytes. */
  lemma EqualStoresHit(y: System, assembly: Bytes, run: seq<State>, n: nat, i: nat)
    requires EqualBytes(y, assembly) && IsRun(y, run, false) && n < |run|
    requires i < |y.calls| == |run[n].phases| && y.calls[i].Some? && run[n].phases[i].Done?
    ensures run[n].phases[i].result == Ok(Hit(assembly))
  {
    EqualInvHolds(y, assembly, run, n);
    assert Progress(y, assembly, y.calls[i], run[n].phases[i], run[n]);
  }

  // ---- Crashes between the moves and the marks ----

  /** The files a lone store of an empty key has left by the time it reaches a phase. */
  function Left(y: System, assembly: Bytes, phase: Phase): State {
    var artifact := File(assembly, phase.ArtifactMarked? || phase.BothMarked?, 0);
    var manifest := File(ManifestOf(y, assembly), phase.BothMarked?, 0);
    State([Crashed],
          if phase == Ready then None else Some(artifact),
          if phase == Ready || phase == ArtifactMoved then None else Some(manifest), NO_PRUNES)
  }

  predicate IsStoring(phase: Phase) {
    phase in {Ready, ArtifactMoved, BothMoved, ArtifactMarked, BothMarked}
  }

  /** A lone store can crash in every phase with exactly those files behind it. */
  lemma CrashIsReachable(y: System, assembly: Bytes, phase: Phase)
    requires y.calls == [Some(assembly)] && IsStoring(phase)
    ensures exists run: seq<State> :: IsRun(y, run, false) && run[|run| - 1] == Left(y, assembly, phase)
  {
    var run := Solo(y, assembly, phase);
    var s := run[|run| - 1];
    var crashed := run + [Left(y, assembly, phase)];
    assert CallStep(y, s, Left(y, assembly, phase), 0);
    forall n | 0 <= n < |crashed| - 1 ensures Next(y, crashed[n], crashed[n + 1], false) {
      if n < |run| - 1 { assert Next(y, run[n], run[n + 1], false); }
    }
    assert IsRun(y, crashed, false);
  }

  lemma {:induction false} Solo(y: System, assembly: Bytes, phase: Phase) returns (run: seq<State>)
    requires y.calls == [Some(assembly)] && IsStoring(phase)
    ensures IsRun(y, run, false) && run[|run| - 1] == Left(y, assembly, phase).(phases := [phase])
    decreases match phase case Ready => 0 case ArtifactMoved => 1 case BothMoved => 2 case ArtifactMarked => 3
      case _ => 4
  {
    var here := Left(y, assembly, phase).(phases := [phase]);
    if phase == Ready {
      assert seq(1, _ => Ready) == [Ready];
      run := [here];
    } else {
      var before := match phase case ArtifactMoved => Ready case BothMoved => ArtifactMoved
        case ArtifactMarked => BothMoved case _ => ArtifactMarked;
      var front := Solo(y, assembly, before);
      run := front + [here];
      assert CallStep(y, front[|front| - 1], here, 0);
      forall n | 0 <= n < |run| - 1 ensures Next(y, run[n], run[n + 1], false) {
        if n < |front| - 1 { assert Next(y, front[n], front[n + 1], false); }
      }
    }
  }

  // ---- Which crashes leave the key readable ----

  function ReadOf(y: System, s: State): Result<Lookup, CacheError> {
    TryReadFiles(y.sha, y.key, y.bindings, s.artifact, s.manifest)
  }

  /** Where a read stands that has seen these files and no others. */
  ghost predicate ReadsThese(y: System, s: State, phase: Phase) {
    match phase
    case Checking => true
    case Holding(manifest) => s.artifact.Some? && s.manifest == Some(manifest)
    case Done(r) => r == ReadOf(y, s)
    case Crashed => true
    case _ => false
  }

  lemma ReadsOn(y: System, s: State, s': State, i: nat, k: nat)
    requires CallStep(y, s, s', k) && i < |s.phases| && ReadsThese(y, s, s.phases[i])
    requires s'.artifact == s.artifact && s'.manifest == s.manifest
    ensures ReadsThese(y, s', s'.phases[i])
  {
    hide Check;
    if i == k && s.phases[i].Holding? {
      assert s'.phases[i] == Crashed || s'.phases[i] == Done(ReadOf(y, s));
    } else if i == k && s.phases[i].Checking? {
      assert s'.phases[i].Done? ==> s'.phases[i] == Done(ReadOf(y, s));
    } else if i != k {
      assert s'.phases[i] == s.phases[i];
    }
  }

  lemma PruneReadsOn(y: System, s: State, s': State, i: nat)
    requires PruneStep(s, s') && i < |s.phases| && ReadsThese(y, s, s.phases[i])
    requires s'.artifact == s.artifact && s'.manifest == s.manifest
    ensures i < |s'.phases| && ReadsThese(y, s', s'.phases[i])
  {
    hide TryReadFiles;
    assert s'.phases[i] == s.phases[i] && ReadOf(y, s') == ReadOf(y, s);
  }

  /** A read during which the two files stay as they are returns what they hold, whatever else happens. */
  lemma UndisturbedRead(y: System, s: State, run: seq<State>, i: nat)
    requires IsSequel(y, s, run) && i < |s.phases| && s.phases[i] == Checking
    requires forall n :: 0 <= n < |run| ==> run[n].artifact == s.artifact && run[n].manifest == s.manifest
    ensures run != [] && i < |run[|run| - 1].phases|
    ensures run[|run| - 1].phases[i].Done? ==> run[|run| - 1].phases[i].result == ReadOf(y, s)
  {
    ReadsTheseHolds(y, s, run, i);
    var last := run[|run| - 1];
    assert ReadOf(y, last) == ReadOf(y, s);
    assert ReadsThese(y, last, last.phases[i]);
  }

  lemma {:induction false} ReadsTheseHolds(y: System, s: State, run: seq<State>, i: nat)
    requires IsSequel(y, s, run) && i < |s.phases| && s.phases[i] == Checking
    requires forall n :: 0 <= n < |run| ==> run[n].artifact == s.artifact && run[n].manifest == s.manifest
    ensures run != [] && i < |run[|run| - 1].phases| && ReadsThese(y, run[|run| - 1], run[|run| - 1].phases[i])
  {
    hide CallStep, PruneStep, ReadsThese;
    if |run| == 1 {
      ReadBegins(y, s, i);
    } else {
      var n := |run| - 2;
      var front := run[..n + 1];
      forall m | 0 <= m < |front| - 1 ensures Next(y, front[m], front[m + 1], true) {
        assert Next(y, run[m], run[m + 1], true);
      }
      ReadsTheseHolds(y, s, front, i);
      var last, last' := run[n], run[n + 1];
      assert Next(y, last, last', true);
      if PruneStep(last, last') {
        PruneReadsOn(y, last, last', i);
      } else {
        var k: nat :| CallStep(y, last, last', k);
        SamePhases(y, last, last', k);
        ReadsOn(y, last, last', i, k);
      }
    }
  }

  lemma ReadBegins(y: System, s: State, i: nat)
    requires i < |s.phases| && s.phases[i] == Checking
    ensures ReadsThese(y, s, s.phases[i])
  {
  }

  lemma SamePhases(y: System, s: State, s': State, k: nat)
    requires CallStep(y, s, s', k)
    ensures |s'.phases| == |s.phases|
  {
    hide Moves;
  }

  /** A store has been in this phase by the n-th state. */
  ghost predicate Reached(run: seq<State>, n: nat, phase: Phase)
    requires n < |run|
  {
    exists m, i :: 0 <= m <= n && 0 <= i < |run[m].phases| && run[m].phases[i] == phase
  }

  lemma ReachedNext(run: seq<State>, n: nat, phase: Phase)
    requires 0 < n < |run|
    ensures Reached(run, n, phase) <==> Reached(run, n - 1, phase) || phase in run[n].phases
  {
    if Reached(run, n, phase) {
      var m, i :| 0 <= m <= n && 0 <= i < |run[m].phases| && run[m].phases[i] == phase;
      assert m < n ==> Reached(run, n - 1, phase);
    }
    if phase in run[n].phases {
      var i :| 0 <= i < |run[n].phases| && run[n].phases[i] == phase;
    }
  }

  /** What the files owe to the phases, without prunes: the manifest comes after the artifact, marks in
      the same order. */
  ghost predicate InOrder(y: System, s: State) {
    && |s.phases| == |y.calls|
    && (s.manifest.Some? ==> s.artifact.Some?) && (IsMarked(s.manifest) ==> IsMarked(s.artifact))
    && forall i :: 0 <= i < |s.phases| ==>
         match s.phases[i]
         case ArtifactMoved => s.artifact.Some?
         case BothMoved => s.manifest.Some?
         case ArtifactMarked => s.manifest.Some? && IsMarked(s.artifact)
         case BothMarked => IsMarked(s.manifest)
         case _ => true
  }

  lemma OrderKept(y: System, s: State, s': State, i: nat)
    requires InOrder(y, s) && CallStep(y, s, s', i)
    ensures InOrder(y, s') && Grows(s, s')
    ensures s'.artifact.Some? <==> s.artifact.Some? || s'.phases[i] == ArtifactMoved
    ensures s'.manifest.Some? <==> s.manifest.Some? || s'.phases[i] == BothMoved
    ensures IsMarked(s'.manifest) <==> IsMarked(s.manifest) || s'.phases[i] == BothMarked
  {
    hide Check;
  }

  /** Without prunes the files tell exactly how far some store has come. */
  lemma {:induction false} FilesTell(y: System, run: seq<State>, n: nat)
    requires IsRun(y, run, false) && n < |run|
    ensures InOrder(y, run[n])
    ensures run[n].artifact.Some? <==> Reached(run, n, ArtifactMoved)
    ensures run[n].manifest.Some? <==> Reached(run, n, BothMoved)
    ensures IsMarked(run[n].manifest) <==> Reached(run, n, BothMarked)
  {
    hide CallStep, InOrder, Reached;
    if n == 0 {
      NothingReached(y, run);
    } else {
      FilesTell(y, run, n - 1);
      assert Next(y, run[n - 1], run[n - 1 + 1], false);
      var i: nat :| CallStep(y, run[n - 1], run[n], i);
      OrderKept(y, run[n - 1], run[n], i);
      ReachedNext(run, n, ArtifactMoved);
      ReachedNext(run, n, BothMoved);
      ReachedNext(run, n, BothMarked);
      PhaseTells(y, run[n - 1], run[n], i);
    }
  }

  lemma NothingReached(y: System, run: seq<State>)
    requires IsRun(y, run, false)
    ensures InOrder(y, run[0]) && run[0].artifact.None? && run[0].manifest.None?
    ensures forall phase :: phase != Ready ==> !Reached(run, 0, phase)
  {
  }

  /** A phase that is held now was held before or is the one just entered; the files already showed the former. */
  lemma PhaseTells(y: System, s: State, s': State, i: nat)
    requires InOrder(y, s) && CallStep(y, s, s', i)
    ensures ArtifactMoved in s'.phases ==> s.artifact.Some? || s'.phases[i] == ArtifactMoved
    ensures BothMoved in s'.phases ==> s.manifest.Some? || s'.phases[i] == BothMoved
    ensures BothMarked in s'.phases ==> IsMarked(s.manifest) || s'.phases[i] == BothMarked
    ensures s'.phases[i] in s'.phases
  {
    hide Moves;
  }

  /** The manifest belongs to the artifact. */
  predicate Match(y: System, s: State) {
    s.artifact.Some? && s.manifest.Some? && s.manifest.value.content.artifactLength == |s.artifact.value.content|
    && s.manifest.value.content.artifactHash == y.sha(s.artifact.value.content)
  }

  lemma ReadIs(y: System, s: State)
    requires IsSystem(y) && WholeFiles(y, s) && InOrder(y, s)
    ensures ReadOf(y, s).Ok? <==> s.artifact.None? || (IsMarked(s.manifest) && Match(y, s))
  {
    hide WholePhase;
    if s.artifact.Some? {
      var i :| 0 <= i < |y.calls| && y.calls[i] == Some(s.artifact.value.content);
    }
    if s.manifest.Some? {
      var other :| IsWritten(y, other) && s.manifest.value.content == ManifestOf(y, other);
      var i :| 0 <= i < |y.calls| && y.calls[i] == Some(other);
    }
  }

  /** Whatever bytes were stored and wherever stores crashed, as long as nothing pruned the key: a read returns normally
      if and only if no store ever moved its artifact, or some store marked its manifest and the two files match. */
  lemma ReadableExactly(y: System, run: seq<State>, n: nat)
    requires IsSystem(y) && IsRun(y, run, false) && n < |run|
    ensures ReadOf(y, run[n]).Ok? <==>
      !Reached(run, n, ArtifactMoved) || (Reached(run, n, BothMarked) && Match(y, run[n]))
  {
    hide InOrder, WholeFiles, Match, Reached;
    WholeFilesHold(y, run, false, n);
    FilesTell(y, run, n);
    ReadIs(y, run[n]);
  }

  /** With equal bytes the files always match: what counts is only how far some store came before it crashed. */
  lemma ReadableAfterCrashes(y: System, assembly: Bytes, run: seq<State>, n: nat)
    requires EqualBytes(y, assembly) && IsRun(y, run, false) && n < |run|
    ensures ReadOf(y, run[n]).Ok? <==> !Reached(run, n, ArtifactMoved) || Reached(run, n, BothMarked)
    ensures ReadOf(y, run[n]).Ok? ==>
      ReadOf(y, run[n]) == Ok(if Reached(run, n, BothMarked) then Hit(assembly) else Miss)
  {
    hide InOrder, Reached, Progress, IsRun;
    EqualInvHolds(y, assembly, run, n);
    FilesTell(y, run, n);
    MarkedIsBehind(y, run[n]);
    ReadableExactly(y, run, n);
  }

  lemma MarkedIsBehind(y: System, s: State)
    requires InOrder(y, s)
    ensures (s.manifest.Some? ==> s.artifact.Some?) && (IsMarked(s.manifest) ==> IsMarked(s.artifact))
  {
  }

  // ---- Which crashes are permanent ----

  /** The call changes no file any more. */
  predicate IsIdle(call: Call, phase: Phase) {
    (call.None? && phase.Ready?) || phase.Checking? || phase.Holding? || phase.Done? || phase.Crashed?
  }

  /** No store of the key and no prune of it is under way; stores may have finished or crashed, reads go on. */
  predicate IsQuiet(y: System, s: State) {
    && s.prunes == NO_PRUNES && |s.phases| == |y.calls|
    && forall i :: 0 <= i < |y.calls| ==> IsIdle(y.calls[i], s.phases[i])
  }

  /** An orphaned artifact: no manifest, and nothing under way. */
  predicate IsOrphaned(y: System, s: State) {
    IsQuiet(y, s) && s.artifact.Some? && s.manifest.None?
  }

  /** What may follow a state: reads and prunes, crashes, and whatever stores are under way. */
  ghost predicate IsSequel(y: System, s: State, run: seq<State>) {
    run != [] && run[0] == s && forall n :: 0 <= n < |run| - 1 ==> Next(y, run[n], run[n + 1], true)
  }

  lemma OrphanStep(y: System, s: State, s': State)
    requires IsOrphaned(y, s) && Next(y, s, s', true)
    ensures IsOrphaned(y, s') && s'.artifact == s.artifact
  {
    hide Check;
    assert !PruneStep(s, s');
    var i: nat :| CallStep(y, s, s', i);
    assert IsIdle(y.calls[i], s.phases[i]);
  }

  /** An orphan is permanent: until another store comes, every read throws, and no prune, which lists
      manifests, sees it. */
  lemma {:induction false} OrphanIsPermanent(y: System, s: State, run: seq<State>, n: nat)
    requires IsOrphaned(y, s) && IsSequel(y, s, run) && n < |run|
    ensures IsOrphaned(y, run[n]) && run[n].artifact == s.artifact && ReadOf(y, run[n]) == Err(Incomplete)
  {
    hide IsOrphaned, Next;
    if n > 0 {
      OrphanIsPermanent(y, s, run, n - 1);
      assert Next(y, run[n - 1], run[n - 1 + 1], true);
      OrphanStep(y, run[n - 1], run[n]);
    }
    OrphanUnreadable(y, run[n]);
  }

  lemma OrphanUnreadable(y: System, s: State)
    requires IsOrphaned(y, s)
    ensures ReadOf(y, s) == Err(Incomplete)
  {
  }

  /** No reads, crashes or prunes ever make the key readable again. */
  ghost predicate IsLost(y: System, s: State) {
    forall run, n: nat :: IsSequel(y, s, run) && n < |run| ==> ReadOf(y, run[n]).Err?
  }

  /** What a prune of this key has done when it stops after k of its file steps. */
  function Pruned(s: State, k: nat): State {
    if k == 0 then s
    else if k == 1 then s.(manifest := Unmarked(s.manifest))
    else if k == 2 then s.(manifest := None)
    else if k == 3 then s.(manifest := None, artifact := Unmarked(s.artifact))
    else s.(manifest := None, artifact := None)
  }

  /** The k file steps of a prune, and then its end. */
  lemma PruneSequel(y: System, s: State, k: nat) returns (run: seq<State>)
    requires s.prunes == NO_PRUNES && s.manifest.Some? && s.artifact.Some? && k <= 4
    ensures run != [] && IsSequel(y, s, run) && run[|run| - 1] == Pruned(s, k)
  {
    var s1 := Pruned(s, 1).(prunes := Prunes(1, 0, 0));
    var s2 := Pruned(s, 2).(prunes := Prunes(0, 1, 0));
    var s3 := Pruned(s, 3).(prunes := Prunes(0, 0, 1));
    assert PruneStep(s, s1) && PruneStep(s1, s2) && PruneStep(s2, s3) && PruneStep(s3, Pruned(s, 4));
    assert PruneStep(s1, Pruned(s, 1)) && PruneStep(s2, Pruned(s, 2)) && PruneStep(s3, Pruned(s, 3));
    hide PruneStep, Pruned, CallStep;
    run := if k == 0 then [s] else if k == 1 then [s, s1, Pruned(s, 1)] else if k == 2 then [s, s1, s2, Pruned(s, 2)]
           else if k == 3 then [s, s1, s2, s3, Pruned(s, 3)] else [s, s1, s2, s3, Pruned(s, 4)];
    PrunedNothing(s);
  }

  lemma PrunedNothing(s: State)
    ensures Pruned(s, 0) == s
  {
  }

  /** A manifest alone is pruned away. */
  lemma LoneManifestSequel(y: System, s: State) returns (run: seq<State>)
    requires s.prunes == NO_PRUNES && s.manifest.Some? && s.artifact.None?
    ensures IsSequel(y, s, run) && run[|run| - 1].manifest.None? && run[|run| - 1].artifact.None?
  {
    var s1 := s.(manifest := Unmarked(s.manifest), prunes := Prunes(1, 0, 0));
    var s2 := s.(manifest := None, prunes := Prunes(0, 1, 0));
    assert PruneStep(s, s1) && PruneStep(s1, s2);
    run := [s, s1, s2];
  }

  /** Once no store is under way, the key is lost if and only if it has an artifact and no manifest. */
  lemma LostExactly(y: System, s: State)
    requires IsQuiet(y, s)
    ensures IsLost(y, s) <==> s.artifact.Some? && s.manifest.None?
  {
    hide IsSequel, IsQuiet, Check;
    if s.artifact.Some? && s.manifest.None? {
      forall run, n: nat | IsSequel(y, s, run) && n < |run|
        ensures ReadOf(y, run[n]).Err?
      {
        OrphanIsPermanent(y, s, run, n);
      }
    } else {
      var run := FreshRead(y, s);
      assert ReadOf(y, run[|run| - 1]).Ok?;
    }
  }

  lemma FreshRead(y: System, s: State) returns (run: seq<State>)
    requires IsQuiet(y, s) && !(s.artifact.Some? && s.manifest.None?)
    ensures run != [] && IsSequel(y, s, run) && ReadOf(y, run[|run| - 1]) == Ok(Miss)
  {
    hide Next;
    if s.manifest.None? {
      run := [s];
    } else if s.artifact.None? {
      run := LoneManifestSequel(y, s);
    } else {
      run := PruneSequel(y, s, 4);
    }
  }

  /** Wherever stores crashed, with any bytes and no prune so far: once none is under way, the key is lost if and only
      if some store moved its artifact and none moved its manifest. */
  lemma LostAfterCrashes(y: System, run: seq<State>, n: nat)
    requires IsRun(y, run, false) && n < |run| && IsQuiet(y, run[n])
    ensures IsLost(y, run[n]) <==> Reached(run, n, ArtifactMoved) && !Reached(run, n, BothMoved)
  {
    hide IsLost, Reached, IsRun, InOrder, IsQuiet;
    FilesTell(y, run, n);
    LostExactly(y, run[n]);
  }

  /** A prune that stops after k of its four file steps leaves the key lost exactly when it has deleted the manifest and
      not yet the artifact. */
  lemma LostAfterPrune(y: System, s: State, k: nat)
    requires IsQuiet(y, s) && s.artifact.Some? && s.manifest.Some? && k <= 4
    ensures exists run: seq<State> :: run != [] && IsSequel(y, s, run) && run[|run| - 1] == Pruned(s, k)
    ensures IsLost(y, Pruned(s, k)) <==> k == 2 || k == 3
  {
    hide IsLost, IsSequel;
    var run := PruneSequel(y, s, k);
    LostExactly(y, Pruned(s, k));
  }

  /** A lone store that ran to its end, and read its bytes back. */
  lemma FinishedStore(y: System, assembly: Bytes) returns (run: seq<State>)
    requires y.calls == [Some(assembly)] && IsStorable(assembly)
    ensures run != [] && IsRun(y, run, false)
      && run[|run| - 1] == Left(y, assembly, BothMarked).(phases := [Done(Ok(Hit(assembly)))])
  {
    var front := Solo(y, assembly, BothMarked);
    var files := Left(y, assembly, BothMarked);
    var s0, s1 := files.(phases := [BothMarked]), files.(phases := [Checking]);
    var s2, s3 := files.(phases := [Holding(files.manifest.value)]), files.(phases := [Done(Ok(Hit(assembly)))]);
    MatchingFilesHit(y, assembly, files.manifest.value, files.artifact.value);
    assert CallStep(y, s0, s1, 0) && CallStep(y, s1, s2, 0) && CallStep(y, s2, s3, 0);
    run := front + [s1, s2, s3];
    hide CallStep, Init;
    forall n | 0 <= n < |run| - 1 ensures Next(y, run[n], run[n + 1], false) {
      if n < |front| - 1 { assert Next(y, front[n], front[n + 1], false); }
    }
  }

  /** Both ways to lose a key do happen: a store that crashes between its moves, and a prune that stops between its
      deletions after a store has finished and read its bytes back. */
  lemma LossesArise(y: System, assembly: Bytes)
    requires y.calls == [Some(assembly)] && IsStorable(assembly)
    ensures IsLost(y, Left(y, assembly, ArtifactMoved))
    ensures exists run: seq<State>, sequel: seq<State> ::
      && run != [] && sequel != [] && IsRun(y, run, false) && run[|run| - 1].phases == [Done(Ok(Hit(assembly)))]
      && IsSequel(y, run[|run| - 1], sequel) && IsLost(y, sequel[|sequel| - 1])
  {
    hide IsLost, IsSequel, IsRun;
    LostExactly(y, Left(y, assembly, ArtifactMoved));
    var run := FinishedStore(y, assembly);
    var sequel := PruneSequel(y, run[|run| - 1], 2);
    LostAfterPrune(y, run[|run| - 1], 2);
  }

  // ---- A later store of a lost key ----

  /** A store that runs from its first step to its last mark over an orphaned artifact keeps that artifact. The key is
      then readable, with the old bytes, if and only if they have the hash and length of the bytes now stored; otherwise
      every read fails, though a prune can now remove the entry. */
  lemma StoreOverOrphan(y: System, run: seq<State>, i: nat, held: Bytes, assembly: Bytes)
    requires IsStorable(held) && IsStorable(assembly) && |run| == 5 && i < |y.calls| && y.calls[i] == Some(assembly)
    requires forall n :: 0 <= n < 5 ==>
      |run[n].phases| == |y.calls|
      && run[n].phases[i] == [Ready, ArtifactMoved, BothMoved, ArtifactMarked, BothMarked][n]
    requires forall n :: 0 <= n < 4 ==> CallStep(y, run[n], run[n + 1], i)
    requires run[0].artifact.Some? && run[0].artifact.value.content == held && run[0].manifest.None?
    ensures run[4].artifact == Marked(run[0].artifact) && run[4].manifest.Some?
      && run[4].manifest.value.content == ManifestOf(y, assembly)
    ensures ReadOf(y, run[4]) == if |held| == |assembly| && y.sha(held) == y.sha(assembly) then Ok(Hit(held))
      else Err(ArtifactInvalid)
  {
    assert CallStep(y, run[0], run[0 + 1], i) && CallStep(y, run[1], run[1 + 1], i)
      && CallStep(y, run[2], run[2 + 1], i) && CallStep(y, run[3], run[3 + 1], i);
  }
}
