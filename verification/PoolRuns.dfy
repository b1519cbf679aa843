/**
 The image pool under interleaving. The gate serialises pruning, staging and leasing, each of which takes
 many steps; closing and deleting a lease file, pinning, and the crash of a process can happen between
 any two of them.
 */
module PoolRuns {
  import opened Outcomes
  import opened Texts
  import opened RuntimeImagePool
  import opened Sorting
  import RuntimeWorkspace

  /** An open lease file: the image it belongs to and the process holding it. */
  datatype Handle = Handle(image: Text, owner: nat)

  /** What the holder of the gate is doing. */
  datatype Stage =
    | Sweeping(todo: seq<Text>, now: int, reserve: bool, retained: nat, retainedBytes: nat, scanned: set<nat>,
      active: bool)
    | Deleting(name: Text, rest: Stage)
    | Reserved
    | Opening(identity: Text)
    | Staging(identity: Text, temporary: Text)
    | Publishing(identity: Text, temporary: Text)
    | Leasing(identity: Text)

  datatype Gate = Free | Held(owner: nat, stage: Stage)

  datatype State = State(images: Images, staging: set<Text>, handles: map<nat, Handle>, gate: Gate)

  /** A process that crashes or returns drops its file handles; the files stay. */
  function Dropped(handles: map<nat, Handle>, p: nat): map<nat, Handle> {
    map id | id in handles && handles[id].owner != p :: handles[id]
  }

  datatype Step =
    | TakeGate(p: nat, order: seq<Text>, now: int, reserve: bool)
    | SweepMarker(marker: nat, refused: bool)
    | Decide
    | FinishDelete
    | FinishPrune(abandoned: set<Text>)
    | ChooseImage(identity: Text)
    | OpenImage
    | StartStaging(temporary: Text)
    | DropEntry
    | Publish(written: int, package: Package)
    | Verified(id: nat, touched: int)
    | Refuse
    | CloseLease(id: nat)
    | DeleteMarker(name: Text, id: nat)
    | Pin(name: Text, pinned: bool)
    | Crash(p: nat)

  function Published(written: int, package: Package): Image
    requires RuntimeWorkspace.WithinBounds(package.lengths)
  {
    Image(Some(written), PackageBytes(package), package.content, false, false, {})
  }

  /** Steps of the process that holds the gate. */
  ghost predicate GateStep(s: State, s': State, step: Step)
    requires s.gate.Held?
  {
    var owner, stage := s.gate.owner, s.gate.stage;
    match step
    case SweepMarker(marker, refused) =>
      // reopening the marker fails while a handle on it is open, or is refused; otherwise the marker is deleted
      && stage.Sweeping? && stage.todo != [] && stage.todo[0] in s.images
      && marker in s.images[stage.todo[0]].markers && marker !in stage.scanned
      && var image := s.images[stage.todo[0]];
         s' == if marker in s.handles || refused
               then s.(gate := Held(owner, stage.(scanned := stage.scanned + {marker}, active := true)))
               else s.(images := s.images[stage.todo[0] := image.(markers := image.markers - {marker})])
    case Decide =>
      && stage.Sweeping? && stage.todo != [] && stage.todo[0] in s.images
      && var name, image := stage.todo[0], s.images[stage.todo[0]];
      && image.markers <= stage.scanned
      && var next := stage.(todo := stage.todo[1..], scanned := {}, active := false);
         if !stage.active && Evicts(image, {}, stage.now, stage.reserve, stage.retained, stage.retainedBytes)
         // the files of the directory go first, among them the manifest and the pin
         then s' == s.(images := s.images[name := image.(manifest := None, pinned := false)],
                       gate := Held(owner, Deleting(name, next)))
         else
           var kept := next.(retained := stage.retained + 1, retainedBytes := stage.retainedBytes + image.bytes);
           s' == s.(gate := Held(owner, kept))
    case FinishDelete =>
      stage.Deleting? && s' == s.(images := s.images - {stage.name}, gate := Held(owner, stage.rest))
    case FinishPrune(abandoned) =>
      && stage.Sweeping? && stage.todo == [] && abandoned <= s.staging
      && s' == (if stage.retainedBytes > MAXIMUM_BYTES then s.(gate := Free)
                else s.(staging := s.staging - abandoned,
                        gate := if stage.reserve then Held(owner, Reserved) else Free))
    case ChooseImage(identity) =>
      && stage.Reserved?
      && s' == (if identity !in s.images && |s.images| >= MAXIMUM_ENTRIES then s.(gate := Free)
                else s.(images := if identity in s.images then s.images else s.images[identity := EMPTY_ENTRY],
                        gate := Held(owner, Opening(identity))))
    case OpenImage =>
      && stage.Opening? && stage.identity in s.images && s.images[stage.identity].manifest.Some?
      && s' == s.(gate := Held(owner, Leasing(stage.identity)))
    case StartStaging(temporary) =>
      && stage.Opening? && stage.identity in s.images && s.images[stage.identity].manifest.None?
      && s' == s.(staging := s.staging + {temporary}, gate := Held(owner, Staging(stage.identity, temporary)))
    case DropEntry =>
      && stage.Staging? && stage.identity in s.images && s.images[stage.identity] == EMPTY_ENTRY
      && s' == s.(images := s.images - {stage.identity},
                  gate := Held(owner, Publishing(stage.identity, stage.temporary)))
    case Publish(written, package) =>
      && stage.Publishing? && RuntimeWorkspace.WithinBounds(package.lengths)
      && s' == s.(images := s.images[stage.identity := Published(written, package)],
                  staging := s.staging - {stage.temporary}, gate := Held(owner, Leasing(stage.identity)))
    case Verified(id, touched) =>
      && stage.Leasing? && stage.identity in s.images && id !in s.handles
      && (forall name :: name in s.images ==> id !in s.images[name].markers)
      && var image := s.images[stage.identity];
         var leased := image.(manifest := Some(touched), hasLeases := true, markers := image.markers + {id});
         s' == s.(images := s.images[stage.identity := leased],
                  handles := s.handles[id := Handle(stage.identity, owner)], gate := Free)
    // any check that throws: the temporary directory of a staging is removed on the way out
    case Refuse =>
      && !stage.Sweeping? && !stage.Deleting?
      && s' == s.(staging := if stage.Staging? || stage.Publishing? then s.staging - {stage.temporary} else s.staging,
                  gate := Free)
    case _ => false
  }

  /** Steps that take no gate, and taking it. */
  ghost predicate FreeStep(s: State, s': State, step: Step) {
    match step
    case TakeGate(p, order, now, reserve) =>
      && s.gate == Free && Enumerates(order, s.images)
      && s' == s.(gate := Held(p, Sweeping(Sort(order, NewerFirst(s.images)), now, reserve, 0, 0, {}, false)))
    case CloseLease(id) => id in s.handles && s' == s.(handles := s.handles - {id})
    case DeleteMarker(name, id) =>
      && name in s.images && id !in s.handles
      && s' == s.(images := s.images[name := s.images[name].(markers := s.images[name].markers - {id})])
    case Pin(name, pinned) =>
      name in s.images && s' == s.(images := s.images[name := s.images[name].(pinned := pinned)])
    case Crash(p) =>
      s' == s.(handles := Dropped(s.handles, p), gate := if s.gate.Held? && s.gate.owner == p then Free else s.gate)
    case _ => false
  }

  ghost predicate StepTo(s: State, s': State, step: Step) {
    FreeStep(s, s', step) || (s.gate.Held? && GateStep(s, s', step))
  }

  ghost predicate Next(s: State, s': State) {
    exists step :: StepTo(s, s', step)
  }

  ghost predicate IsRun(run: seq<State>) {
    run != [] && run[0] == State(map[], {}, map[], Free) &&
    forall n :: 0 <= n < |run| - 1 ==> Next(run[n], run[n + 1])
  }

  // ---- The invariant ----

  /** An image with an open lease handle has its directory, its published manifest and its lease file. */
  ghost predicate LeasesHold(s: State) {
    forall id :: id in s.handles ==>
      s.handles[id].image in s.images && s.images[s.handles[id].image].manifest.Some?
        && id in s.images[s.handles[id].image].markers
  }

  ghost predicate NoHandleOn(s: State, name: Text) {
    forall id :: id in s.handles ==> s.handles[id].image != name
  }

  ghost predicate SweepFits(s: State, stage: Stage)
    requires stage.Sweeping?
  {
    && Distinct(stage.todo)
    && (forall name :: name in stage.todo ==> name in s.images)
    && (stage.todo != [] && !stage.active ==>
          forall id :: id in s.handles && id in stage.scanned ==> s.handles[id].image != stage.todo[0])
  }

  ghost predicate StageFits(s: State, stage: Stage) {
    match stage
    case Sweeping(_, _, _, _, _, _, _) => SweepFits(s, stage)
    case Deleting(name, rest) =>
      name in s.images && NoHandleOn(s, name) && rest.Sweeping? && name !in rest.todo && rest.scanned == {}
        && SweepFits(s, rest)
    case Opening(identity) => identity in s.images
    case Publishing(identity, _) => identity !in s.images && |s.images| < MAXIMUM_ENTRIES
    case Leasing(identity) => identity in s.images && s.images[identity].manifest.Some?
    case _ => true
  }

  ghost predicate Inv(s: State) {
    LeasesHold(s) && |s.images| <= MAXIMUM_ENTRIES && (s.gate.Held? ==> StageFits(s, s.gate.stage))
  }

  lemma TakeGateKeepsInv(s: State, s': State, owner: nat, order: seq<Text>, now: int, reserve: bool)
    requires Inv(s) && FreeStep(s, s', TakeGate(owner, order, now, reserve))
    ensures Inv(s')
  {
    hide Sort, NewerFirst;
    SortedEnumeration(order, s.images);
  }

  lemma ReleaseKeepsInv(s: State, s': State, step: Step)
    requires Inv(s) && (step.CloseLease? || step.Crash?) && FreeStep(s, s', step)
    ensures Inv(s')
  {
    assert forall id :: id in s'.handles ==> id in s.handles && s'.handles[id] == s.handles[id];
  }

  /** Changes to one entry that keep its manifest and every marker with an open handle. */
  lemma TouchKeepsInv(s: State, s': State, name: Text)
    requires Inv(s) && name in s.images && name in s'.images && s' == s.(images := s.images[name := s'.images[name]])
    requires s'.images[name].manifest == s.images[name].manifest
    requires forall id :: id in s.images[name].markers && id in s.handles ==> id in s'.images[name].markers
    ensures Inv(s')
  {
    UpdateSize(s.images, name, s'.images[name]);
  }

  lemma FreeStepKeepsInv(s: State, s': State, step: Step)
    requires Inv(s) && FreeStep(s, s', step)
    ensures Inv(s')
  {
    hide Sort, NewerFirst, Inv;
    match step
    case TakeGate(owner, order, now, reserve) => TakeGateKeepsInv(s, s', owner, order, now, reserve);
    case DeleteMarker(name, id) => TouchKeepsInv(s, s', name);
    case Pin(name, pinned) => TouchKeepsInv(s, s', name);
    case CloseLease(_) => ReleaseKeepsInv(s, s', step);
    case Crash(_) => ReleaseKeepsInv(s, s', step);
  }

  lemma SweepMarkerKeepsInv(s: State, s': State, marker: nat, refused: bool)
    requires Inv(s) && s.gate.Held? && GateStep(s, s', SweepMarker(marker, refused))
    ensures Inv(s')
  {
    var stage := s.gate.stage;
    assert SweepFits(s, stage);
    if marker !in s.handles && !refused {
      UpdateSize(s.images, stage.todo[0], s'.images[stage.todo[0]]);
      assert s'.gate.stage == stage && s'.handles == s.handles;
      assert SweepFits(s', stage);
    } else {
      assert SweepFits(s', s'.gate.stage);
    }
  }

  /** A prune that found no lease held on the entry deletes nothing anybody uses. */
  lemma SweptIsUnused(s: State)
    requires Inv(s) && s.gate.Held? && s.gate.stage.Sweeping? && s.gate.stage.todo != [] && !s.gate.stage.active
    requires s.images[s.gate.stage.todo[0]].markers <= s.gate.stage.scanned
    ensures NoHandleOn(s, s.gate.stage.todo[0])
  {
    var stage := s.gate.stage;
    assert SweepFits(s, stage);
    forall id | id in s.handles ensures s.handles[id].image != stage.todo[0] {
      assert id in s.images[s.handles[id].image].markers;
    }
  }

  lemma NextSweepFits(s: State, stage: Stage, next: Stage)
    requires stage.Sweeping? && SweepFits(s, stage) && stage.todo != []
    requires next.Sweeping? && next.todo == stage.todo[1..] && next.scanned == {} && !next.active
    ensures SweepFits(s, next) && stage.todo[0] !in next.todo
  {
    DistinctHead(stage.todo);
    forall name | name in next.todo ensures name in stage.todo { }
  }

  lemma DecideKeepsInv(s: State, s': State)
    requires Inv(s) && s.gate.Held? && GateStep(s, s', Decide)
    ensures Inv(s')
  {
    hide Evicts;
    var stage := s.gate.stage;
    var name := stage.todo[0];
    assert SweepFits(s, stage);
    UpdateSize(s.images, name, s'.images[name]);
    var next := if s'.gate.stage.Deleting? then s'.gate.stage.rest else s'.gate.stage;
    NextSweepFits(s, stage, next);
    if s'.gate.stage.Deleting? {
      SweptIsUnused(s);
      assert SweepFits(s', next);
    }
  }

  lemma FinishDeleteKeepsInv(s: State, s': State)
    requires Inv(s) && s.gate.Held? && GateStep(s, s', FinishDelete)
    ensures Inv(s')
  {
    var stage := s.gate.stage;
    UpdateSize(s.images, stage.name, EMPTY_ENTRY);
    assert SweepFits(s, stage.rest);
    assert SweepFits(s', stage.rest);
  }

  lemma ChooseKeepsInv(s: State, s': State, identity: Text)
    requires Inv(s) && s.gate.Held? && GateStep(s, s', ChooseImage(identity))
    ensures Inv(s')
  {
    UpdateSize(s.images, identity, EMPTY_ENTRY);
  }

  lemma StagingKeepsInv(s: State, s': State, step: Step)
    requires Inv(s) && s.gate.Held? && GateStep(s, s', step)
    requires step.FinishPrune? || step.OpenImage? || step.StartStaging? || step.Refuse?
    ensures Inv(s')
  {
    assert s'.images == s.images && s'.handles == s.handles;
  }

  lemma DropKeepsInv(s: State, s': State)
    requires Inv(s) && s.gate.Held? && GateStep(s, s', DropEntry)
    ensures Inv(s')
  {
    UpdateSize(s.images, s.gate.stage.identity, EMPTY_ENTRY);
  }

  lemma PublishKeepsInv(s: State, s': State, written: int, package: Package)
    requires Inv(s) && s.gate.Held? && GateStep(s, s', Publish(written, package))
    ensures Inv(s')
  {
    UpdateSize(s.images, s.gate.stage.identity, Published(written, package));
  }

  lemma VerifiedKeepsInv(s: State, s': State, id: nat, touched: int)
    requires Inv(s) && s.gate.Held? && GateStep(s, s', Verified(id, touched))
    ensures Inv(s')
  {
    UpdateSize(s.images, s.gate.stage.identity, s'.images[s.gate.stage.identity]);
  }

  lemma GateStepKeepsInv(s: State, s': State, step: Step)
    requires Inv(s) && s.gate.Held? && GateStep(s, s', step)
    ensures Inv(s')
  {
    hide Inv;
    match step
    case SweepMarker(marker, refused) => SweepMarkerKeepsInv(s, s', marker, refused);
    case Decide => DecideKeepsInv(s, s');
    case FinishDelete => FinishDeleteKeepsInv(s, s');
    case ChooseImage(identity) => ChooseKeepsInv(s, s', identity);
    case DropEntry => DropKeepsInv(s, s');
    case Publish(written, package) => PublishKeepsInv(s, s', written, package);
    case Verified(id, touched) => VerifiedKeepsInv(s, s', id, touched);
    case FinishPrune(_) => StagingKeepsInv(s, s', step);
    case OpenImage => StagingKeepsInv(s, s', step);
    case StartStaging(_) => StagingKeepsInv(s, s', step);
    case Refuse => StagingKeepsInv(s, s', step);
    case _ =>
  }

  lemma NextKeepsInv(s: State, s': State)
    requires Inv(s) && Next(s, s')
    ensures Inv(s')
  {
    hide Inv, FreeStep, GateStep;
    var step :| StepTo(s, s', step);
    if FreeStep(s, s', step) {
      FreeStepKeepsInv(s, s', step);
    } else {
      GateStepKeepsInv(s, s', step);
    }
  }

  lemma {:induction false} RunKeepsInv(run: seq<State>, n: nat)
    requires IsRun(run) && n < |run|
    ensures Inv(run[n])
  {
    hide Next;
    if n > 0 {
      RunKeepsInv(run, n - 1);
      assert Next(run[n - 1], run[n - 1 + 1]);
      NextKeepsInv(run[n - 1], run[n]);
    }
  }

  // ---- Main results ----

  /** In every reachable state an image with an open lease has its directory and published manifest. */
  lemma LeasedImageSurvives(run: seq<State>, n: nat, id: nat)
    requires IsRun(run) && n < |run| && id in run[n].handles
    ensures run[n].handles[id].image in run[n].images
    ensures run[n].images[run[n].handles[id].image].manifest.Some?
    ensures id in run[n].images[run[n].handles[id].image].markers
  {
    RunKeepsInv(run, n);
  }

  /** In every reachable state there are at most eight image entries. */
  lemma PoolStaysBounded(run: seq<State>, n: nat)
    requires IsRun(run) && n < |run|
    ensures |run[n].images| <= MAXIMUM_ENTRIES
  {
    RunKeepsInv(run, n);
  }

  lemma LeasedStep(s: State, s': State, id: nat)
    requires Inv(s) && Next(s, s') && id in s.handles && id in s'.handles
    ensures s'.handles[id] == s.handles[id]
    ensures s.handles[id].image in s.images && s.handles[id].image in s'.images
    ensures s'.images[s.handles[id].image].bytes == s.images[s.handles[id].image].bytes
    ensures s'.images[s.handles[id].image].content == s.images[s.handles[id].image].content
  {
    hide FreeStep, GateStep;
    var step :| StepTo(s, s', step);
    var name := s.handles[id].image;
    assert name in s.images && id in s.images[name].markers;
    if FreeStep(s, s', step) {
      FreeStepStays(s, s', step, name, id);
    } else {
      GateStepStays(s, s', step, name, id);
    }
  }

  /** The image is still there, with the same files, and the handle is still open on it. */
  ghost predicate Stays(s: State, s': State, name: Text, id: nat)
    requires name in s.images && id in s.handles && id in s'.handles
  {
    && s'.handles[id] == s.handles[id] && name in s'.images
    && s'.images[name].bytes == s.images[name].bytes && s'.images[name].content == s.images[name].content
  }

  lemma FreeStepStays(s: State, s': State, step: Step, name: Text, id: nat)
    requires FreeStep(s, s', step) && id in s.handles && id in s'.handles && name in s.images
    ensures Stays(s, s', name, id)
  {
    hide Enumerates, Sort, NewerFirst;
  }

  lemma GateStepStays(s: State, s': State, step: Step, name: Text, id: nat)
    requires Inv(s) && s.gate.Held? && GateStep(s, s', step) && id in s.handles && id in s'.handles
    requires name == s.handles[id].image
    ensures name in s.images && Stays(s, s', name, id)
  {
    hide Evicts, SweepFits, Published;
    assert name in s.images && id in s.images[name].markers;
  }

  /** For as long as a lease handle stays open, its image keeps its files: no step replaces or empties the directory. */
  lemma {:induction false} LeasedImageUnchanged(run: seq<State>, m: nat, n: nat, id: nat)
    requires IsRun(run) && m <= n < |run| && forall k :: m <= k <= n ==> id in run[k].handles
    ensures run[n].handles[id] == run[m].handles[id]
    ensures var name := run[m].handles[id].image;
      && name in run[m].images && name in run[n].images
      && run[n].images[name].content == run[m].images[name].content
        && run[n].images[name].bytes == run[m].images[name].bytes
    decreases n - m
  {
    hide Next, Inv;
    if m < n {
      LeasedImageUnchanged(run, m, n - 1, id);
      RunKeepsInv(run, n - 1);
      assert Next(run[n - 1], run[n - 1 + 1]);
      LeasedStep(run[n - 1], run[n], id);
    } else {
      LeasedImageSurvives(run, m, id);
    }
  }
}
