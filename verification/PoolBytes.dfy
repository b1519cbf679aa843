/**
 The bytes of the image pool over whole runs. A prune that finds more than its budget refuses, so that nothing is staged
 on top of it: the pool exceeds its budget by one staged image at most, however many images are leased or pinned.
 */
module PoolBytes {
  import opened Outcomes
  import opened Texts
  import opened RuntimeImagePool
  import opened PoolRuns
  import opened Sorting
  import RuntimeWorkspace

  // ---- The bytes of all entries ----

  ghost function Bytes(images: Images): nat
    decreases |images|
  {
    if images == map[] then 0
    else
      var name :| name in images;
      UpdateSize(images, name, EMPTY_ENTRY);
      images[name].bytes + Bytes(images - {name})
  }

  lemma {:induction false} BytesWithout(images: Images, name: Text)
    requires name in images
    ensures Bytes(images) == images[name].bytes + Bytes(images - {name})
    decreases |images|
  {
    var first :| first in images && Bytes(images) == images[first].bytes + Bytes(images - {first});
    if first != name {
      UpdateSize(images, first, EMPTY_ENTRY);
      UpdateSize(images, name, EMPTY_ENTRY);
      BytesWithout(images - {first}, name);
      BytesWithout(images - {name}, first);
      assert images - {first} - {name} == images - {name} - {first};
    }
  }

  lemma BytesUpdate(images: Images, name: Text, image: Image)
    ensures Bytes(images[name := image]) == image.bytes + Bytes(images - {name})
  {
    BytesWithout(images[name := image], name);
    assert images[name := image] - {name} == images - {name};
  }

  ghost predicate AreIn(names: seq<Text>, images: Images) { forall name :: name in names ==> name in images }

  lemma {:induction false} TotalAlike(images: Images, others: Images, names: seq<Text>)
    requires AreIn(names, images) && AreIn(names, others)
    requires forall name :: name in names ==> images[name].bytes == others[name].bytes
    ensures TotalBytes(images, names) == TotalBytes(others, names)
  {
    if names != [] { TotalAlike(images, others, names[1..]); }
  }

  lemma {:induction false} BytesEnumerated(images: Images, order: seq<Text>)
    requires Enumerates(order, images)
    ensures Bytes(images) == TotalBytes(images, order)
  {
    if order == [] {
      assert images == map[];
    } else {
      var rest := images - {order[0]};
      DistinctHead(order);
      assert order == [order[0]] + order[1..];
      BytesEnumerated(rest, order[1..]);
      TotalAlike(images, rest, order[1..]);
      BytesWithout(images, order[0]);
    }
  }

  /** An entry that keeps its bytes leaves every total alone. */
  lemma SameBytes(images: Images, name: Text, image: Image, names: seq<Text>)
    requires name in images && image.bytes == images[name].bytes && AreIn(names, images)
    ensures Bytes(images[name := image]) == Bytes(images)
    ensures AreIn(names, images[name := image]) && TotalBytes(images[name := image], names) == TotalBytes(images, names)
  {
    BytesUpdate(images, name, image);
    BytesWithout(images, name);
    TotalAlike(images, images[name := image], names);
  }

  lemma BytesRemoved(images: Images, name: Text, names: seq<Text>)
    requires name in images && name !in names && AreIn(names, images)
    ensures Bytes(images - {name}) == Bytes(images) - images[name].bytes
    ensures AreIn(names, images - {name}) && TotalBytes(images - {name}, names) == TotalBytes(images, names)
  {
    BytesWithout(images, name);
    TotalAlike(images, images - {name}, names);
  }

  // ---- Runs ----

  /** Manifests have no bound of their own: here none is longer than this. */
  ghost predicate IsWithin(step: Step, manifest: nat) { step.Publish? ==> step.package.manifestBytes <= manifest }

  ghost predicate NextWithin(s: State, s': State, manifest: nat) {
    exists step :: StepTo(s, s', step) && IsWithin(step, manifest)
  }

  ghost predicate IsRunWithin(run: seq<State>, manifest: nat) {
    run != [] && run[0] == State(map[], {}, map[], Free) &&
    forall n :: 0 <= n < |run| - 1 ==> NextWithin(run[n], run[n + 1], manifest)
  }

  ghost function Limit(manifest: nat): nat { MAXIMUM_BYTES + STAGING_BYTES + manifest }

  /** What a sweep has kept and has still to look at is all there is. */
  ghost predicate SweepCounts(images: Images, stage: Stage, extra: nat)
    requires stage.Sweeping?
  {
    AreIn(stage.todo, images) && Bytes(images) == stage.retainedBytes + TotalBytes(images, stage.todo) + extra
  }

  ghost predicate StageCounts(images: Images, stage: Stage) {
    match stage
    case Sweeping(_, _, _, _, _, _, _) => SweepCounts(images, stage, 0)
    case Deleting(name, rest) => name in images && rest.Sweeping? && name !in rest.todo
      && SweepCounts(images, rest, images[name].bytes)
    case Leasing(_) => true
    case _ => Bytes(images) <= MAXIMUM_BYTES
  }

  ghost predicate Counts(s: State, manifest: nat) {
    Bytes(s.images) <= Limit(manifest) && (s.gate.Held? ==> StageCounts(s.images, s.gate.stage))
  }

  /** Any change to one entry that keeps its bytes. */
  lemma TouchCounts(images: Images, name: Text, image: Image, stage: Stage)
    requires name in images && image.bytes == images[name].bytes && StageCounts(images, stage)
    ensures StageCounts(images[name := image], stage) && Bytes(images[name := image]) == Bytes(images)
  {
    hide TotalBytes, Bytes;
    var todo := if stage.Sweeping? then stage.todo else if stage.Deleting? then stage.rest.todo else [];
    SameBytes(images, name, image, todo);
  }

  lemma FreeStepCounts(s: State, s': State, step: Step, manifest: nat)
    requires Counts(s, manifest) && FreeStep(s, s', step)
    ensures Counts(s', manifest)
  {
    hide TotalBytes, Bytes, Sort, NewerFirst, StageCounts, Enumerates;
    match step
    case TakeGate(owner, order, now, reserve) => TakeGateCounts(s, order, now, reserve);
    case DeleteMarker(name, id) => TouchedCounts(s, s', name, manifest);
    case Pin(name, pinned) => TouchedCounts(s, s', name, manifest);
    case CloseLease(_) =>
    case Crash(_) =>
  }

  lemma TouchedCounts(s: State, s': State, name: Text, manifest: nat)
    requires Counts(s, manifest) && name in s.images && name in s'.images
    requires s' == s.(images := s.images[name := s'.images[name]]) && s'.images[name].bytes == s.images[name].bytes
    ensures Counts(s', manifest)
  {
    hide TotalBytes, Bytes, StageCounts;
    SameBytes(s.images, name, s'.images[name], []);
    if s.gate.Held? { TouchCounts(s.images, name, s'.images[name], s.gate.stage); }
  }

  lemma TakeGateCounts(s: State, order: seq<Text>, now: int, reserve: bool)
    requires Enumerates(order, s.images)
    ensures StageCounts(s.images, Sweeping(Sort(order, NewerFirst(s.images)), now, reserve, 0, 0, {}, false))
  {
    hide Sort, NewerFirst;
    SortedEnumeration(order, s.images);
    BytesEnumerated(s.images, Sort(order, NewerFirst(s.images)));
  }

  lemma DecideCounts(s: State, s': State, manifest: nat)
    requires Inv(s) && Counts(s, manifest) && s.gate.Held? && GateStep(s, s', Decide)
    ensures Counts(s', manifest)
  {
    hide Evicts, Bytes;
    var stage := s.gate.stage;
    var name, rest := stage.todo[0], stage.todo[1..];
    assert SweepFits(s, stage);
    DistinctHead(stage.todo);
    assert stage.todo == [name] + rest;
    SameBytes(s.images, name, s.images[name].(manifest := None, pinned := false), rest);
  }

  lemma FinishDeleteCounts(s: State, s': State, manifest: nat)
    requires Counts(s, manifest) && s.gate.Held? && GateStep(s, s', FinishDelete)
    ensures Counts(s', manifest)
  {
    hide TotalBytes, Bytes;
    BytesRemoved(s.images, s.gate.stage.name, s.gate.stage.rest.todo);
  }

  lemma FinishPruneCounts(s: State, s': State, abandoned: set<Text>, manifest: nat)
    requires Counts(s, manifest) && s.gate.Held? && GateStep(s, s', FinishPrune(abandoned))
    ensures Counts(s', manifest)
  {
    hide Bytes;
  }

  lemma ChooseCounts(s: State, s': State, identity: Text, manifest: nat)
    requires Counts(s, manifest) && s.gate.Held? && GateStep(s, s', ChooseImage(identity))
    ensures Counts(s', manifest)
  {
    hide TotalBytes, Bytes;
    if identity !in s.images {
      BytesUpdate(s.images, identity, EMPTY_ENTRY);
      assert s.images - {identity} == s.images;
    }
  }

  lemma DropCounts(s: State, s': State, manifest: nat)
    requires Counts(s, manifest) && s.gate.Held? && GateStep(s, s', DropEntry)
    ensures Counts(s', manifest)
  {
    hide TotalBytes, Bytes;
    BytesRemoved(s.images, s.gate.stage.identity, []);
  }

  lemma PublishCounts(s: State, s': State, written: int, package: Package, manifest: nat)
    requires Inv(s) && Counts(s, manifest) && s.gate.Held? && GateStep(s, s', Publish(written, package))
    requires package.manifestBytes <= manifest
    ensures Counts(s', manifest)
  {
    hide TotalBytes, Bytes;
    var identity := s.gate.stage.identity;
    RuntimeWorkspace.SumIsNatural(package.lengths);
    BytesUpdate(s.images, identity, Published(written, package));
    assert s.images - {identity} == s.images;
  }

  lemma StillCounts(s: State, s': State, step: Step, manifest: nat)
    requires Counts(s, manifest) && s.gate.Held? && GateStep(s, s', step)
    requires step.OpenImage? || step.StartStaging? || step.Refuse?
    ensures Counts(s', manifest)
  {
    hide TotalBytes, Bytes;
  }

  lemma VerifiedCounts(s: State, s': State, id: nat, touched: int, manifest: nat)
    requires Counts(s, manifest) && s.gate.Held? && GateStep(s, s', Verified(id, touched))
    ensures Counts(s', manifest)
  {
    hide TotalBytes, Bytes;
    SameBytes(s.images, s.gate.stage.identity, s'.images[s.gate.stage.identity], []);
  }

  lemma SweepMarkerCounts(s: State, s': State, marker: nat, refused: bool, manifest: nat)
    requires Counts(s, manifest) && s.gate.Held? && GateStep(s, s', SweepMarker(marker, refused))
    ensures Counts(s', manifest)
  {
    hide TotalBytes, Bytes;
    var name := s.gate.stage.todo[0];
    if s'.images != s.images { TouchCounts(s.images, name, s'.images[name], s.gate.stage); }
  }

  lemma GateStepCounts(s: State, s': State, step: Step, manifest: nat)
    requires Inv(s) && Counts(s, manifest) && s.gate.Held? && GateStep(s, s', step) && IsWithin(step, manifest)
    ensures Counts(s', manifest)
  {
    hide Inv, Counts;
    match step
    case SweepMarker(marker, refused) => SweepMarkerCounts(s, s', marker, refused, manifest);
    case Decide => DecideCounts(s, s', manifest);
    case FinishDelete => FinishDeleteCounts(s, s', manifest);
    case FinishPrune(abandoned) => FinishPruneCounts(s, s', abandoned, manifest);
    case ChooseImage(identity) => ChooseCounts(s, s', identity, manifest);
    case DropEntry => DropCounts(s, s', manifest);
    case Publish(written, package) => PublishCounts(s, s', written, package, manifest);
    case Verified(id, touched) => VerifiedCounts(s, s', id, touched, manifest);
    case OpenImage => StillCounts(s, s', step, manifest);
    case StartStaging(_) => StillCounts(s, s', step, manifest);
    case Refuse => StillCounts(s, s', step, manifest);
    case _ =>
  }

  lemma NextCounts(s: State, s': State, manifest: nat)
    requires Inv(s) && Counts(s, manifest) && NextWithin(s, s', manifest)
    ensures Inv(s') && Counts(s', manifest)
  {
    hide Inv, Counts, FreeStep, GateStep, IsWithin;
    var step :| StepTo(s, s', step) && IsWithin(step, manifest);
    assert Next(s, s');
    NextKeepsInv(s, s');
    if FreeStep(s, s', step) {
      FreeStepCounts(s, s', step, manifest);
    } else {
      GateStepCounts(s, s', step, manifest);
    }
  }

  lemma {:induction false} RunCounts(run: seq<State>, manifest: nat, n: nat)
    requires IsRunWithin(run, manifest) && n < |run|
    ensures Inv(run[n]) && Counts(run[n], manifest)
  {
    hide NextWithin;
    if n > 0 {
      RunCounts(run, manifest, n - 1);
      assert NextWithin(run[n - 1], run[n - 1 + 1], manifest);
      NextCounts(run[n - 1], run[n], manifest);
    }
  }

  // ---- Main results ----

  /** In every reachable state the entries, in whatever order they are added up, have at most two gibibytes and 256
      mebibytes and one manifest, even while images are leased or pinned past the budget. */
  lemma PoolBytesBounded(run: seq<State>, manifest: nat, n: nat, order: seq<Text>)
    requires IsRunWithin(run, manifest) && n < |run| && Enumerates(order, run[n].images)
    ensures TotalBytes(run[n].images, order) <= MAXIMUM_BYTES + STAGING_BYTES + manifest
  {
    hide IsRunWithin;
    RunCounts(run, manifest, n);
    BytesEnumerated(run[n].images, order);
  }

  /** When an image is about to be staged, the entries are within two gibibytes. */
  lemma StagingStartsWithinBudget(run: seq<State>, manifest: nat, n: nat, order: seq<Text>)
    requires IsRunWithin(run, manifest) && n < |run| && Enumerates(order, run[n].images)
    requires run[n].gate.Held? && (run[n].gate.stage.Staging? || run[n].gate.stage.Publishing?)
    ensures TotalBytes(run[n].images, order) <= MAXIMUM_BYTES
  {
    hide IsRunWithin;
    RunCounts(run, manifest, n);
    BytesEnumerated(run[n].images, order);
  }

  /** Every run has a longest manifest. */
  lemma {:induction false} RunIsWithin(run: seq<State>) returns (manifest: nat)
    requires IsRun(run)
    ensures IsRunWithin(run, manifest)
  {
    hide StepTo;
    if |run| == 1 {
      manifest := 0;
    } else {
      var front, last := run[..|run| - 1], |run| - 2;
      forall n | 0 <= n < |front| - 1 ensures Next(front[n], front[n + 1]) { assert Next(run[n], run[n + 1]); }
      var before := RunIsWithin(front);
      assert Next(run[last], run[last + 1]);
      var step :| StepTo(run[last], run[last + 1], step);
      manifest := if step.Publish? && step.package.manifestBytes > before then step.package.manifestBytes else before;
      forall n | 0 <= n < |run| - 1 ensures NextWithin(run[n], run[n + 1], manifest) {
        if n < last {
          assert NextWithin(front[n], front[n + 1], before);
          var other :| StepTo(run[n], run[n + 1], other) && IsWithin(other, before);
          assert IsWithin(other, manifest);
        } else {
          assert IsWithin(step, manifest);
        }
      }
    }
  }
}
