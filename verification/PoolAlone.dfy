/**
 The steps of PoolRuns put together again: what the pool does in one go, under its gate, is a run of the single steps of
 one process that nothing disturbs.
 */
module PoolAlone {
  import opened Outcomes
  import opened Texts
  import opened Sorting
  import opened RuntimeImagePool
  import opened PoolRuns

  /** A step of a process that takes the gate or holds it. */
  ghost predicate Acts(p: nat, s: State, s': State) {
    exists step: Step ::
      || (step.TakeGate? && step.p == p && FreeStep(s, s', step))
      || (s.gate.Held? && s.gate.owner == p && GateStep(s, s', step))
  }

  ghost predicate IsActing(p: nat, s: State, run: seq<State>, t: State) {
    && run != [] && run[0] == s && run[|run| - 1] == t
    && forall n :: 0 <= n < |run| - 1 ==> Acts(p, run[n], run[n + 1])
  }

  /** Steps of this process alone lead from one state to the other. */
  ghost predicate Leads(p: nat, s: State, t: State) {
    exists run: seq<State> :: IsActing(p, s, run, t)
  }

  lemma Stays(p: nat, s: State)
    ensures Leads(p, s, s)
  {
    assert IsActing(p, s, [s], s);
  }

  lemma Steps(p: nat, s: State, t: State)
    requires Acts(p, s, t)
    ensures Leads(p, s, t)
  {
    hide Acts;
    assert IsActing(p, s, [s, t], t);
  }

  lemma Then(p: nat, s: State, t: State, u: State)
    requires Leads(p, s, t) && Leads(p, t, u)
    ensures Leads(p, s, u)
  {
    hide Acts;
    var a: seq<State> :| IsActing(p, s, a, t);
    var b: seq<State> :| IsActing(p, t, b, u);
    var run := a + b[1..];
    forall n | 0 <= n < |run| - 1 ensures Acts(p, run[n], run[n + 1]) {
      if n < |a| - 1 {
        assert Acts(p, a[n], a[n + 1]);
      } else {
        var m := n - |a| + 1;
        assert Acts(p, b[m], b[m + 1]);
      }
    }
    assert IsActing(p, s, run, u);
  }

  lemma StepsThen(p: nat, s: State, t: State, u: State)
    requires Acts(p, s, t) && Leads(p, t, u)
    ensures Leads(p, s, u)
  {
    hide Acts, Leads;
    Steps(p, s, t);
    Then(p, s, t, u);
  }

  // ---- Sweeping the markers of one entry ----

  /** The process p is looking at an entry; it has found these markers open so far. */
  ghost predicate IsSweeping(p: nat, s: State, open: set<nat>) {
    && s.gate.Held? && s.gate.owner == p && s.gate.stage.Sweeping? && s.gate.stage.todo != []
    && s.gate.stage.todo[0] in s.images && s.handles.Keys <= open
    && s.gate.stage.scanned <= s.images[s.gate.stage.todo[0]].markers * open
    && (s.gate.stage.active <==> s.gate.stage.scanned != {})
  }

  function Swept(s: State, open: set<nat>): State
    requires s.gate.Held? && s.gate.stage.Sweeping? && s.gate.stage.todo != [] && s.gate.stage.todo[0] in s.images
  {
    var stage := s.gate.stage;
    var name, left := stage.todo[0], s.images[stage.todo[0]].markers * open;
    s.(images := s.images[name := Sweep(s.images[name], open)],
       gate := Held(s.gate.owner, stage.(scanned := left, active := left != {})))
  }

  lemma SweepOne(p: nat, s: State, open: set<nat>, marker: nat) returns (t: State)
    requires IsSweeping(p, s, open)
    requires marker in s.images[s.gate.stage.todo[0]].markers - s.gate.stage.scanned
    ensures Acts(p, s, t) && IsSweeping(p, t, open) && Swept(t, open) == Swept(s, open)
    ensures s.gate.stage.todo[0] == t.gate.stage.todo[0]
    ensures t.images[t.gate.stage.todo[0]].markers - t.gate.stage.scanned
      == s.images[s.gate.stage.todo[0]].markers - s.gate.stage.scanned - {marker}
  {
    var stage := s.gate.stage;
    var name := stage.todo[0];
    var image := s.images[name];
    if marker in open {
      t := s.(gate := Held(p, stage.(scanned := stage.scanned + {marker}, active := true)));
    } else {
      var rest := image.(markers := image.markers - {marker});
      t := s.(images := s.images[name := rest]);
      assert rest.markers * open == image.markers * open;
      UpdateTwice(s.images, name, rest, Sweep(image, open));
    }
    assert GateStep(s, t, SweepMarker(marker, marker in open));
  }

  lemma {:induction false} SweepMarkers(p: nat, s: State, open: set<nat>)
    requires IsSweeping(p, s, open)
    ensures Leads(p, s, Swept(s, open))
    decreases s.images[s.gate.stage.todo[0]].markers - s.gate.stage.scanned
  {
    hide Acts, Leads;
    var stage := s.gate.stage;
    var image := s.images[stage.todo[0]];
    if image.markers <= stage.scanned {
      assert image.markers * open == image.markers == stage.scanned;
      assert s.images == s.images[stage.todo[0] := Sweep(image, open)];
      Stays(p, s);
    } else {
      var marker :| marker in image.markers && marker !in stage.scanned;
      var t := SweepOne(p, s, open, marker);
      SweepMarkers(p, t, open);
      StepsThen(p, s, t, Swept(s, open));
    }
  }

  // ---- A prune ----

  /** The prune has looked at the first i entries and kept these. */
  ghost predicate IsPruning(p: nat, s: State, was: Images, open: set<nat>, names: seq<Text>, now: int, reserve: bool,
      kept: seq<Text>, bytes: nat, i: nat)
  {
    && Enumerates(names, was) && KeptSoFar(was, open, names, now, reserve, kept, bytes, i)
    && s.images == Midway(was, open, names, kept, i) && s.handles.Keys <= open
    && s.gate == Held(p, Sweeping(names[i..], now, reserve, |kept|, bytes, {}, false))
  }

  /** The swept entry is about to be decided on. */
  ghost predicate IsDeciding(p: nat, s: State, name: Text, next: Stage) {
    && next.Sweeping? && next.scanned == {} && !next.active && name in s.images
    && var scanned := s.images[name].markers;
       s.gate == Held(p, next.(todo := [name] + next.todo, scanned := scanned, active := scanned != {}))
  }

  lemma DropOne(p: nat, s: State, name: Text, next: Stage) returns (t: State)
    requires IsDeciding(p, s, name, next)
    requires Evicts(s.images[name], s.images[name].markers, next.now, next.reserve, next.retained, next.retainedBytes)
    ensures Leads(p, s, t) && t == s.(images := s.images - {name}, gate := Held(p, next))
  {
    var image := s.images[name];
    assert image.markers * image.markers == image.markers;
    var bare := image.(manifest := None, pinned := false);
    var u := s.(images := s.images[name := bare], gate := Held(p, Deleting(name, next)));
    t := s.(images := s.images - {name}, gate := Held(p, next));
    assert u.images - {name} == s.images - {name};
    assert ([name] + next.todo)[1..] == next.todo;
    assert GateStep(s, u, Decide) && GateStep(u, t, FinishDelete);
    Steps(p, s, u);
    Steps(p, u, t);
    Then(p, s, u, t);
  }

  lemma KeepOne(p: nat, s: State, name: Text, next: Stage) returns (t: State)
    requires IsDeciding(p, s, name, next)
    requires !Evicts(s.images[name], s.images[name].markers, next.now, next.reserve, next.retained, next.retainedBytes)
    ensures Leads(p, s, t)
    ensures t == s.(gate := Held(p, next.(retained := next.retained + 1,
                                          retainedBytes := next.retainedBytes + s.images[name].bytes)))
  {
    var image := s.images[name];
    assert image.markers * image.markers == image.markers;
    t := s.(gate := Held(p, next.(retained := next.retained + 1, retainedBytes := next.retainedBytes + image.bytes)));
    assert ([name] + next.todo)[1..] == next.todo;
    assert GateStep(s, t, Decide);
    Steps(p, s, t);
  }

  lemma SweptEvicts(image: Image, open: set<nat>, now: int, reserve: bool, retained: nat, retainedBytes: nat)
    ensures Evicts(Sweep(image, open), Sweep(image, open).markers, now, reserve, retained, retainedBytes)
         == Evicts(image, open, now, reserve, retained, retainedBytes)
  {
    var left := Sweep(image, open);
    assert left.markers * left.markers == image.markers * open;
  }

  /** One entry: its markers are swept, and then it goes or stays. */
  lemma PruneOne(p: nat, s: State, was: Images, open: set<nat>, names: seq<Text>, now: int, reserve: bool,
      kept: seq<Text>, bytes: nat, i: nat) returns (t: State, kept': seq<Text>, bytes': nat)
    requires IsPruning(p, s, was, open, names, now, reserve, kept, bytes, i) && i < |names|
    ensures Leads(p, s, t) && IsPruning(p, t, was, open, names, now, reserve, kept', bytes', i + 1)
    ensures t.handles == s.handles && t.staging == s.staging
  {
    hide KeptSoFar, Midway, Leads, Acts, Evicts, GateStep;
    KeptNext(was, open, names, now, reserve, kept, bytes, i);
    MidwayNext(was, open, names, kept, i);
    var name, image := names[i], was[names[i]];
    assert names[i..] == [name] + names[i + 1..];
    SweepMarkers(p, s, open);
    SweptEvicts(image, open, now, reserve, |kept|, bytes);
    var swept, next := Swept(s, open), Sweeping(names[i + 1..], now, reserve, |kept|, bytes, {}, false);
    if Evicts(image, open, now, reserve, |kept|, bytes) {
      t := DropOne(p, swept, name, next);
      kept', bytes' := kept, bytes;
    } else {
      t := KeepOne(p, swept, name, next);
      kept', bytes' := kept + [name], bytes + image.bytes;
    }
    Then(p, s, swept, t);
  }

  lemma {:induction false} PruneRest(p: nat, s: State, was: Images, open: set<nat>, names: seq<Text>, now: int,
      reserve: bool, kept: seq<Text>, bytes: nat, i: nat) returns (t: State, kept': seq<Text>, bytes': nat)
    requires i <= |names| && IsPruning(p, s, was, open, names, now, reserve, kept, bytes, i)
    ensures Leads(p, s, t) && IsPruning(p, t, was, open, names, now, reserve, kept', bytes', |names|)
    ensures t.handles == s.handles && t.staging == s.staging
    decreases |names| - i
  {
    hide IsPruning, Leads;
    if i == |names| {
      t, kept', bytes' := s, kept, bytes;
      Stays(p, s);
    } else {
      var u, kept1, bytes1 := PruneOne(p, s, was, open, names, now, reserve, kept, bytes, i);
      t, kept', bytes' := PruneRest(p, u, was, open, names, now, reserve, kept1, bytes1, i + 1);
      Then(p, s, u, t);
    }
  }

  /** A process that takes the gate and is left alone prunes as the pool does in one go: what its steps leave is what
      the prune leaves. `open` are the markers it cannot reopen: those with an open handle, and any others. */
  lemma PruneIsRun(p: nat, s: State, open: set<nat>, order: seq<Text>, now: int, reserve: bool)
    requires s.gate == Free && Enumerates(order, s.images) && s.handles.Keys <= open
    ensures
      var pruned := PruneOf(s.images, open, order, now, reserve);
      var remaining := Remaining(s.images, open, pruned.kept);
      Leads(p, s, if pruned.bytes > MAXIMUM_BYTES then s.(images := remaining)
                  else State(remaining, {}, s.handles, if reserve then Held(p, Reserved) else Free))
  {
    hide Leads, Midway, KeptSoFar, Remaining, Prune, Sort, NewerFirst, Acts;
    var was, names := s.images, Sort(order, NewerFirst(s.images));
    SortedEnumeration(order, was);
    MidwayStart(was, open, names);
    KeptStart(was, open, names, now, reserve);
    assert names[0..] == names;
    var begun := s.(gate := Held(p, Sweeping(names, now, reserve, 0, 0, {}, false)));
    TakesGate(p, s, order, now, reserve, begun);
    var swept, kept, bytes := PruneRest(p, begun, was, open, names, now, reserve, [], 0, 0);
    Then(p, s, begun, swept);
    KeptEnd(was, open, names, now, reserve, kept, bytes);
    MidwayEnd(was, open, names, kept);
    assert names[|names|..] == [];
    assert swept == State(Remaining(was, open, kept), s.staging, s.handles,
                          Held(p, Sweeping([], now, reserve, |kept|, bytes, {}, false)));
    var t := Finished(swept, bytes, reserve);
    FinishesPrune(p, swept, now, reserve, |kept|, bytes);
    Then(p, s, swept, t);
  }

  function Finished(s: State, bytes: nat, reserve: bool): State
    requires s.gate.Held?
  {
    if bytes > MAXIMUM_BYTES then s.(gate := Free)
    else s.(staging := {}, gate := if reserve then Held(s.gate.owner, Reserved) else Free)
  }

  lemma TakesGate(p: nat, s: State, order: seq<Text>, now: int, reserve: bool, t: State)
    requires s.gate == Free && Enumerates(order, s.images)
    requires t == s.(gate := Held(p, Sweeping(Sort(order, NewerFirst(s.images)), now, reserve, 0, 0, {}, false)))
    ensures Leads(p, s, t)
  {
    hide Sort, NewerFirst;
    assert FreeStep(s, t, TakeGate(p, order, now, reserve));
    Steps(p, s, t);
  }

  lemma FinishesPrune(p: nat, s: State, now: int, reserve: bool, retained: nat, bytes: nat)
    requires s.gate == Held(p, Sweeping([], now, reserve, retained, bytes, {}, false))
    ensures Leads(p, s, Finished(s, bytes, reserve))
  {
    assert s.staging - s.staging == {};
    assert GateStep(s, Finished(s, bytes, reserve), FinishPrune(s.staging));
    Steps(p, s, Finished(s, bytes, reserve));
  }

  // ---- Opening or staging the image, and leasing it ----

  /** The outcome of an attempt on the pool as it stands, with the gate given back. */
  function Admitted(p: nat, s: State, identity: Text, o: Observed, lease: nat): State {
    var a := Admit(s.images, identity, o, lease);
    State(a.images, s.staging, if a.outcome.Ok? then s.handles[lease := Handle(identity, p)] else s.handles, Free)
  }

  /** A lease file that does not exist yet. */
  predicate IsNewLease(s: State, lease: nat) {
    lease !in s.handles && forall name :: name in s.images ==> lease !in s.images[name].markers
  }

  lemma Refuses(p: nat, s: State)
    requires s.gate.Held? && s.gate.owner == p && !s.gate.stage.Sweeping? && !s.gate.stage.Deleting?
    requires !s.gate.stage.Staging? && !s.gate.stage.Publishing?
    ensures Leads(p, s, s.(gate := Free))
  {
    assert GateStep(s, s.(gate := Free), Refuse);
    Steps(p, s, s.(gate := Free));
  }

  lemma Leases(p: nat, s: State, identity: Text, intact: bool, lease: nat, touched: int)
    requires s.gate == Held(p, Leasing(identity)) && identity in s.images && IsNewLease(s, lease)
    ensures
      var image := s.images[identity];
      var leased := image.(manifest := Some(touched), hasLeases := true, markers := image.markers + {lease});
      Leads(p, s, if intact then
        s.(images := s.images[identity := leased], handles := s.handles[lease := Handle(identity, p)], gate := Free)
        else s.(gate := Free))
  {
    if intact {
      var image := s.images[identity];
      var leased := image.(manifest := Some(touched), hasLeases := true, markers := image.markers + {lease});
      var t := s.(images := s.images[identity := leased], handles := s.handles[lease := Handle(identity, p)],
        gate := Free);
      assert GateStep(s, t, Verified(lease, touched));
      Steps(p, s, t);
    } else {
      Refuses(p, s);
    }
  }

  /** Staging that throws before the staged image is in place. */
  lemma StagingFails(p: nat, s: State, identity: Text, temporary: Text)
    requires s.gate == Held(p, Opening(identity)) && identity in s.images && s.images[identity].manifest.None?
    requires temporary !in s.staging
    ensures Leads(p, s, s.(gate := Free))
  {
    var u := s.(staging := s.staging + {temporary}, gate := Held(p, Staging(identity, temporary)));
    assert u.staging - {temporary} == s.staging;
    assert GateStep(s, u, StartStaging(temporary)) && GateStep(u, s.(gate := Free), Refuse);
    Steps(p, s, u);
    Steps(p, u, s.(gate := Free));
    Then(p, s, u, s.(gate := Free));
  }

  lemma Stages(p: nat, s: State, identity: Text, o: Observed, temporary: Text)
    requires s.gate == Held(p, Opening(identity)) && identity in s.images && s.images[identity] == EMPTY_ENTRY
    requires temporary !in s.staging && IsStaged(o)
    ensures Leads(p, s, s.(images := s.images[identity := StagedImage(o)], gate := Held(p, Leasing(identity))))
  {
    var u := s.(staging := s.staging + {temporary}, gate := Held(p, Staging(identity, temporary)));
    var v := u.(images := s.images - {identity}, gate := Held(p, Publishing(identity, temporary)));
    var t := s.(images := s.images[identity := StagedImage(o)], gate := Held(p, Leasing(identity)));
    assert v.staging - {temporary} == s.staging;
    assert v.images[identity := StagedImage(o)] == t.images;
    assert GateStep(s, u, StartStaging(temporary)) && GateStep(u, v, DropEntry);
    assert GateStep(v, t, Publish(o.published, o.staged.value));
    Steps(p, s, u);
    Steps(p, u, v);
    Steps(p, v, t);
    Then(p, s, u, v);
    Then(p, s, v, t);
  }

  lemma Opens(p: nat, s: State, identity: Text)
    requires s.gate == Held(p, Opening(identity)) && identity in s.images && s.images[identity].manifest.Some?
    ensures Leads(p, s, s.(gate := Held(p, Leasing(identity))))
  {
    assert GateStep(s, s.(gate := Held(p, Leasing(identity))), OpenImage);
    Steps(p, s, s.(gate := Held(p, Leasing(identity))));
  }

  lemma Chooses(p: nat, s: State, identity: Text)
    requires s.gate == Held(p, Reserved)
    ensures Leads(p, s, if identity !in s.images && |s.images| >= MAXIMUM_ENTRIES then s.(gate := Free)
      else s.(images := if identity in s.images then s.images else s.images[identity := EMPTY_ENTRY],
              gate := Held(p, Opening(identity))))
  {
    var t := if identity !in s.images && |s.images| >= MAXIMUM_ENTRIES then s.(gate := Free)
      else s.(images := if identity in s.images then s.images else s.images[identity := EMPTY_ENTRY],
              gate := Held(p, Opening(identity)));
    assert GateStep(s, t, ChooseImage(identity));
    Steps(p, s, t);
  }

  /** From the chosen entry to the outcome. */
  lemma OpensOrStages(p: nat, s: State, identity: Text, o: Observed, lease: nat, temporary: Text)
    requires s.gate == Held(p, Opening(identity)) && identity in s.images && o.referencesValid
    requires IsNewLease(s, lease) && temporary !in s.staging
    ensures Leads(p, s, Admitted(p, s, identity, o, lease))
  {
    hide Leads;
    var entry, t := s.images[identity], Admitted(p, s, identity, o, lease);
    assert s.images[identity := entry] == s.images;
    if entry.manifest.Some? {
      var u := s.(gate := Held(p, Leasing(identity)));
      Opens(p, s, identity);
      Leases(p, u, identity, o.intact, lease, o.touched);
      Then(p, s, u, t);
    } else if o.freeBytes < MINIMUM_FREE_BYTES + STAGING_BYTES {
      Refuses(p, s);
    } else if !IsStaged(o) || entry != EMPTY_ENTRY {
      StagingFails(p, s, identity, temporary);
    } else {
      var u := s.(images := s.images[identity := StagedImage(o)], gate := Held(p, Leasing(identity)));
      Stages(p, s, identity, o, temporary);
      var image := StagedImage(o);
      UpdateTwice(s.images, identity, image,
                  image.(manifest := Some(o.touched), hasLeases := true, markers := image.markers + {lease}));
      Leases(p, u, identity, o.intact, lease, o.touched);
      Then(p, s, u, t);
    }
  }

  lemma AdmitIsRun(p: nat, s: State, identity: Text, o: Observed, lease: nat, temporary: Text)
    requires s.gate == Held(p, Reserved) && IsNewLease(s, lease) && temporary !in s.staging
    ensures Leads(p, s, Admitted(p, s, identity, o, lease))
  {
    hide Leads;
    var t := Admitted(p, s, identity, o, lease);
    if !o.referencesValid {
      Refuses(p, s);
    } else if identity !in s.images && |s.images| >= MAXIMUM_ENTRIES {
      Chooses(p, s, identity);
    } else {
      var images := if identity in s.images then s.images else s.images[identity := EMPTY_ENTRY];
      var u := s.(images := images, gate := Held(p, Opening(identity)));
      Chooses(p, s, identity);
      AdmitEntered(s.images, identity, o, lease);
      OpensOrStages(p, u, identity, o, lease, temporary);
      Then(p, s, u, t);
    }
  }

  /** It makes no difference to an attempt whether its entry was there before. */
  lemma AdmitEntered(images: Images, identity: Text, o: Observed, lease: nat)
    requires o.referencesValid && (identity in images || |images| < MAXIMUM_ENTRIES)
    ensures Admit(if identity in images then images else images[identity := EMPTY_ENTRY], identity, o, lease)
         == Admit(images, identity, o, lease)
  {
    var entry := if identity in images then images[identity] else EMPTY_ENTRY;
    var entered := if identity in images then images else images[identity := EMPTY_ENTRY];
    assert entered == images[identity := entry] && entered[identity := entry] == entered;
  }

  /** A process that takes the gate and is left alone acquires as the pool does in one go: it prunes, and leases or
      refuses exactly what an attempt on the pruned pool leases or refuses. */
  lemma AcquireIsRun(p: nat, s: State, open: set<nat>, order: seq<Text>, now: int, identity: Text, o: Observed,
      lease: nat, temporary: Text)
    requires s.gate == Free && Enumerates(order, s.images) && s.handles.Keys <= open && IsNewLease(s, lease)
    ensures
      var pruned := PruneOf(s.images, open, order, now, true);
      var remaining := Remaining(s.images, open, pruned.kept);
      var a := Admit(remaining, identity, o, lease);
      Leads(p, s, if pruned.bytes > MAXIMUM_BYTES then s.(images := remaining)
                  else State(a.images, {}, if a.outcome.Ok? then s.handles[lease := Handle(identity, p)] else s.handles,
                             Free))
  {
    hide Leads, PruneOf, Admit;
    PruneIsRun(p, s, open, order, now, true);
    var pruned := PruneOf(s.images, open, order, now, true);
    if pruned.bytes <= MAXIMUM_BYTES {
      var remaining := Remaining(s.images, open, pruned.kept);
      var u := State(remaining, {}, s.handles, Held(p, Reserved));
      AdmitIsRun(p, u, identity, o, lease, temporary);
      Then(p, s, u, Admitted(p, u, identity, o, lease));
    }
  }
}
