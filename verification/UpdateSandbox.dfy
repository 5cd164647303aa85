/**
 The sandbox object itself: `apply`, `recover` and `rollback` as they change the
 directory tree one file operation at a time, each stoppable before any operation.
 */
module UpdateSandbox {
  import opened Wrappers
  import opened UpdateTree
  import opened UpdatePlans
  import opened UpdateRecovery
  import opened UpdateRuns
  import opened UpdateLeftovers

  /** A stop inside one stretch of steps is a stop of the whole. */
  lemma StoppedIn(t: Tree, done: seq<Step>, chunk: seq<Step>, steps: seq<Step>, cut: Cut)
    requires |done| <= cut.at < |done| + |chunk| && done + chunk <= steps
    ensures RunCut(t, steps, cut) == RunCut(Run(t, done), chunk, Cut(cut.at - |done|, cut.ioError))
  {
    var rest := steps[|done + chunk|..];
    assert steps == done + chunk + rest;
    RunCutAppend(t, done + chunk, rest, cut);
    RunCutAppend(t, done, chunk, cut);
  }

  lemma StagedTree(t: Tree, u: Update, m: Migrated)
    requires StagingDir(u.updateId) !in t
    ensures var staged := Run(t, StageArtifact(u) + StageData(u, m));
            && (SlotIsTaken(staged, u.updateId) <==> SlotIsTaken(t, u.updateId))
            && Run(staged, Publish(u)) == t[SlotDir(u.updateId) := StagedDir(u, m, false)]
  {
    hide Run;
    RunAppend(t, StageArtifact(u), StageData(u, m));
    StageArtifactRun(t, u);
    StageDataRun(t[StagingDir(u.updateId) := map["app.bin" := Blob(u.artifact)]], u, m);
    PublishRun(t[StagingDir(u.updateId) := StagedDir(u, m, false)], u);
    var staged := t[StagingDir(u.updateId) := StagedDir(u, m, false)];
    assert t[StagingDir(u.updateId) := map["app.bin" := Blob(u.artifact)]][StagingDir(u.updateId) := StagedDir(u, m, false)]
           == staged;
    assert staged - {StagingDir(u.updateId)} == t;
    assert staged[StagingDir(u.updateId)] == StagedDir(u, m, false);
  }

  /** Publishing a slot does not touch the pointers. */
  lemma SameActivation(t: Tree, current: ActiveInstall, u: Update, o: Options, dir: Dir)
    requires o.migrated.Some?
    ensures ActivationPlan(t[SlotDir(u.updateId) := dir], current, u, o) == ActivationPlan(t, current, u, o)
  {
  }

  lemma PublishRun(t: Tree, u: Update)
    requires StagingDir(u.updateId) in t
    ensures Run(t, Publish(u)) == (t - {StagingDir(u.updateId)})[SlotDir(u.updateId) := t[StagingDir(u.updateId)]]
  {
    assert Publish(u)[1..] == [];
  }

  lemma RemovalShrinks(dir: Dir, name: string)
    requires name in dir
    ensures |dir - {name}| == |dir| - 1
  {
    assert (dir - {name}).Keys == dir.Keys - {name};
  }

  lemma EmptyDirIsCleaned(policy: Policy, t: Tree, place: Place)
    requires place in t && t[place] == map[]
    requires place.StagingDir? || (place.SlotDir? && place.id !in ReferencedIn(ViewOf(policy, t)))
    ensures Cleans(policy, t, RemoveDir(place)) && Exec(t, RemoveDir(place)) == t - {place}
  {
    hide ViewOf, ReferencedIn;
  }

  lemma RecoveryOfNothing(policy: Policy, t: Tree)
    ensures Recovery(policy, t, []) && ExecAll(t, []) == t
  {
  }

  lemma {:induction false} RecoveryJoins(policy: Policy, t: Tree, first: seq<FsOp>, second: seq<FsOp>)
    requires Recovery(policy, t, first) && Recovery(policy, ExecAll(t, first), second)
    ensures Recovery(policy, t, first + second)
    ensures ExecAll(t, first + second) == ExecAll(ExecAll(t, first), second)
    decreases |first|
  {
    if first == [] {
      assert first + second == second;
    } else {
      assert (first + second)[1..] == first[1..] + second;
      RecoveryJoins(policy, Exec(t, first[0]), first[1..], second);
    }
  }

  lemma RecoveryExtends(policy: Policy, t: Tree, ops: seq<FsOp>, op: FsOp)
    requires Recovery(policy, t, ops) && Cleans(policy, ExecAll(t, ops), op)
    ensures Recovery(policy, t, ops + [op]) && ExecAll(t, ops + [op]) == Exec(ExecAll(t, ops), op)
  {
    var t' := ExecAll(t, ops);
    RecoveryOfNothing(policy, Exec(t', op));
    assert [op][1..] == [];
    assert Recovery(policy, t', [op]);
    assert ExecAll(t', [op]) == Exec(t', op);
    RecoveryJoins(policy, t, ops, [op]);
  }

  lemma CleanHasNoRecovery(policy: Policy, t: Tree)
    ensures forall ops :: Clean(policy, t) && Recovery(policy, t, ops) ==> ExecAll(t, ops) == t
  {
  }

  lemma ActiveHasPointers(policy: Policy, t: Tree)
    requires Active(policy, t).Some?
    ensures PointerDir in t
  {
  }

  /** The file operations of `initialize`, in order. */
  lemma InitialWrites(b: Baseline)
    ensures var slot := SlotDir("baseline");
            var t1 := Exec(map[PointerDir := map[]], MakeDir(slot));
            var t2 := Exec(t1, WriteFile(slot, "app.bin", Blob(b.artifact)));
            var t3 := Exec(t2, WriteFile(slot, "data.bin", Blob(b.data)));
            var t4 := Exec(t3, WriteFile(slot, "state.json", SlotState(BaselineRecord(b))));
            Exec(t4, WriteFile(PointerDir, "a.json", Pointer(NewPointer(1, "baseline")))) == InitialTree(b)
  {
    hide BaselineRecord, NewPointer;
    var slot := SlotDir("baseline");
    var app, data, state := Blob(b.artifact), Blob(b.data), SlotState(BaselineRecord(b));
    assert map[]["app.bin" := app]["data.bin" := data]["state.json" := state]
           == map["app.bin" := app, "data.bin" := data, "state.json" := state];
  }

  class UpdateRecoverySandbox {
    const policy: Policy
    var tree: Tree

    constructor (policy: Policy, baseline: Baseline)
      requires BaselineIsAccepted(baseline)
      ensures this.policy == policy && tree == InitialTree(baseline)
      ensures Bootable(policy, tree) <==> |baseline.artifact| <= policy.maximumArtifactBytes
    {
      this.policy := policy;
      tree := map[PointerDir := map[]];
      new;
      hide Exec, InitialTree, Bootable;
      var slot, r := SlotDir("baseline"), BaselineRecord(baseline);
      tree := Exec(tree, MakeDir(slot));
      tree := Exec(tree, WriteFile(slot, "app.bin", Blob(baseline.artifact)));
      tree := Exec(tree, WriteFile(slot, "data.bin", Blob(baseline.data)));
      tree := Exec(tree, WriteFile(slot, "state.json", SlotState(r)));
      tree := Exec(tree, WriteFile(PointerDir, "a.json", Pointer(NewPointer(1, "baseline"))));
      InitialWrites(baseline);
      InitialIsBootable(policy, baseline);
    }

    /** Performs the steps one by one; `None` when the stop falls among them. */
    method Do(steps: seq<Step>, cut: Cut) returns (left: Option<Cut>)
      modifies this`tree
      ensures left.Some? <==> cut.at >= |steps|
      ensures left.Some? ==> tree == Run(old(tree), steps) && left.value == Cut(cut.at - |steps|, cut.ioError)
      ensures left.None? ==> tree == RunCut(old(tree), steps, cut)
    {
      var index := 0;
      while index < |steps|
        invariant 0 <= index <= |steps| && index <= cut.at
        invariant Run(tree, steps[index..]) == Run(old(tree), steps)
        invariant RunCut(tree, steps[index..], Cut(cut.at - index, cut.ioError)) == RunCut(old(tree), steps, cut)
      {
        assert steps[index..][1..] == steps[index + 1..];
        if index == cut.at {
          if cut.ioError { tree := ExecAll(tree, steps[index].onError); }
          return None;
        }
        tree := Exec(tree, steps[index].op);
        index := index + 1;
      }
      left := Some(Cut(cut.at - index, cut.ioError));
    }

    /** What the caller sees: a plan's ending, or an error when the call was stopped. */
    static function Outcome(plan: Plan, after: Option<ActiveInstall>): Result<ActiveInstall, string>
    {
      match plan.ending
      case Refuses(code) => Failure(code)
      case Returns(install) => Success(install)
      case ReturnsActive => if after.Some? then Success(after.value) else Failure("no_healthy_installation")
    }

    /** From the staging directory to the published slot. */
    method Stage(current: ActiveInstall, u: Update, o: Options, cut: Cut) returns (left: Result<Cut, string>)
      requires Active(policy, tree) == Some(current) && RefuseBefore(policy, current, tree, u, o).None?
      modifies this`tree
      ensures var plan := ApplyPlan(policy, old(tree), u, o);
              && (left.Failure? ==>
                    && tree == RunCut(old(tree), plan.steps, cut)
                    && (if cut.at >= |plan.steps| then plan.ending == Refuses(left.error) else left.error == "installation_failed"))
              && (left.Success? ==>
                    && o.migrated.Some? && cut.at >= 8 && left.value == Cut(cut.at - 8, cut.ioError)
                    && var activation := ActivationPlan(old(tree), current, u, o);
                    var front := StageArtifact(u) + StageData(u, o.migrated.value) + Publish(u);
                    && plan == Plan(front + activation.steps, activation.ending)
                    && tree == Run(old(tree), front)
                    && tree == old(tree)[SlotDir(u.updateId) := StagedDir(u, o.migrated.value, false)])
    {
      hide Run, RunCut, ViewOf, Active, ReplaceFile, CreateFile, ActivationPlan, StagedDir;
      ghost var t, plan := tree, ApplyPlan(policy, tree, u, o);
      var next := Do(StageArtifact(u), cut);
      assert Run(t, []) == t by { RunNothing(policy, t, {}); }
      if next.None? { StoppedIn(t, [], StageArtifact(u), plan.steps, cut); return Failure("installation_failed"); }
      var refused := RefuseMigration(u, o);
      if refused.Some? { RunCutAll(t, StageArtifact(u), cut); return Failure(refused.value.code); }
      var m := o.migrated.value;
      ghost var staged := StageArtifact(u) + StageData(u, m);
      next := Do(StageData(u, m), next.value);
      if next.None? { StoppedIn(t, StageArtifact(u), StageData(u, m), plan.steps, cut); return Failure("installation_failed"); }
      RunAppend(t, StageArtifact(u), StageData(u, m));
      StagedTree(t, u, m);
      if SlotIsTaken(tree, u.updateId) { RunCutAll(t, staged, cut); return Failure("installation_failed"); }
      next := Do(Publish(u), next.value);
      if next.None? { StoppedIn(t, staged, Publish(u), plan.steps, cut); return Failure("installation_failed"); }
      RunAppend(t, staged, Publish(u));
      if o.fault == Some(PreActivationInterruption) { RunCutAll(t, staged + Publish(u), cut); return Failure("installation_interrupted"); }
      left := Success(next.value);
    }

    /** From the published slot to the healthy mark. */
    method Activate(current: ActiveInstall, u: Update, o: Options, cut: Cut) returns (r: Result<(), string>)
      requires o.migrated.Some?
      modifies this`tree
      ensures var plan := ActivationPlan(old(tree), current, u, o);
              && tree == RunCut(old(tree), plan.steps, cut)
              && (cut.at >= |plan.steps| ==> r == if plan.ending.Refuses? then Failure(plan.ending.code) else Success(()))
              && (cut.at < |plan.steps| ==> r == Failure("installation_failed"))
      ensures !ActivationPlan(old(tree), current, u, o).ending.Returns?
    {
      hide Run, RunCut, ReplaceFile;
      ghost var t := tree;
      var other := current.pointer.Other();
      if TemporaryIsTaken(tree, other, o.pointerUuid) {
        var collided := Do(CollideWithTemporary(other, o.pointerUuid), cut);
        if collided.Some? { RunCutAll(t, CollideWithTemporary(other, o.pointerUuid), cut); }
        return Failure("installation_failed");
      }
      ghost var point, mark := PointAt(current, u.updateId, o.pointerUuid), MarkHealthy(u, o);
      var next := Do(PointAt(current, u.updateId, o.pointerUuid), cut);
      RunCutAppend(t, point, mark, cut);
      if next.None? { return Failure("installation_failed"); }
      if o.fault == Some(PostActivationHealthFailure) || !o.healthy {
        RunCutAll(t, point, cut);
        return Failure("startup_health_failed");
      }
      next := Do(MarkHealthy(u, o), next.value);
      if next.None? { return Failure("installation_failed"); }
      RunCutAll(t, point + mark, cut);
      RunAppend(t, point, mark);
      r := Success(());
    }

    /**
     Does exactly the operations of `ApplyPlan` up to the stop. From a bootable tree it
     leaves a bootable one, whose active install is the old one or, past a passed health
     check, the new one.
     */
    method Apply(u: Update, o: Options, cut: Cut) returns (r: Result<ActiveInstall, string>)
      modifies this`tree
      ensures var plan := ApplyPlan(policy, old(tree), u, o);
              && tree == RunCut(old(tree), plan.steps, cut)
              && (cut.at >= |plan.steps| ==> r == Outcome(plan, Active(policy, tree)))
              && (cut.at < |plan.steps| ==> r == Failure("installation_failed"))
      ensures old(Bootable(policy, tree)) && VerifiedUpdate(policy, u) ==>
                && Bootable(policy, tree)
                && (Active(policy, tree) == old(Active(policy, tree)) || (o.healthy && Active(policy, tree)
                      == Some(NewInstall(old(Active(policy, tree)).value, u, Migration(o)))))
    {
      hide Run, RunCut, ViewOf, ActivationPlan;
      ghost var t, plan := tree, ApplyPlan(policy, tree, u, o);
      if Bootable(policy, t) && VerifiedUpdate(policy, u) { ApplyIsCrashAtomic(policy, t, u, o, cut); }
      NothingRuns(t, cut);
      var found := Active(policy, tree);
      if found.None? { return Failure("no_healthy_installation"); }
      var refused := RefuseBefore(policy, found.value, tree, u, o);
      if refused.Some? { return Outcome(Plan([], refused.value), found); }
      var staged := Stage(found.value, u, o, cut);
      if staged.Failure? { return Failure(staged.error); }
      ghost var front := StageArtifact(u) + StageData(u, o.migrated.value) + Publish(u);
      SameActivation(t, found.value, u, o, StagedDir(u, o.migrated.value, false));
      RunCutAppend(t, front, ActivationPlan(t, found.value, u, o).steps, cut);
      var activated := Activate(found.value, u, o, staged.value);
      if activated.Failure? { return Failure(activated.error); }
      var installed := Active(policy, tree);
      r := if installed.Some? then Success(installed.value) else Failure("no_healthy_installation");
    }

    method Rollback(uuid: string, cut: Cut) returns (r: Result<ActiveInstall, string>)
      modifies this`tree
      ensures var plan := RollbackPlan(policy, old(tree), uuid);
              && tree == RunCut(old(tree), plan.steps, cut)
              && (cut.at >= |plan.steps| ==> r == Outcome(plan, Active(policy, tree)))
              && (cut.at < |plan.steps| ==> r == Failure("EIO"))
      ensures old(Bootable(policy, tree)) ==> Bootable(policy, tree)
    {
      hide Run, RunCut, EntryAt, ReplaceFile;
      ghost var t, steps := tree, RollbackPlan(policy, tree, uuid).steps;
      if Bootable(policy, t) { RollbackIsCrashAtomic(policy, t, uuid, cut); }
      NothingRuns(t, cut);
      var pointers := ValidPointers(ViewOf(policy, tree));
      var previous := 1;
      if |pointers| == 0 { return Failure("rollback_unavailable"); }
      while previous < |pointers| && pointers[previous].entry.pointer.slotId == pointers[0].entry.pointer.slotId
        invariant 1 <= previous <= |pointers|
        invariant forall i :: 1 <= i < previous ==> pointers[i].entry.pointer.slotId == pointers[0].entry.pointer.slotId
      {
        previous := previous + 1;
      }
      if previous == |pointers| { return Failure("rollback_unavailable"); }
      var current, target := Install(pointers[0]), pointers[previous].entry.slot.record;
      if SupportedPath(target.version, current.record.version) !in policy.supportedPaths {
        return Failure("rollback_unsupported");
      }
      if cut.at >= |steps| { RunCutAll(t, steps, cut); }
      if TemporaryIsTaken(tree, current.pointer.Other(), uuid) {
        var collided := Do(CollideWithTemporary(current.pointer.Other(), uuid), cut);
        return Failure(if collided.Some? then "EEXIST" else "EIO");
      }
      var next := Do(PointAt(current, target.slotId, uuid), cut);
      if next.None? { return Failure("EIO"); }
      var installed := Active(policy, tree);
      r := if installed.Some? then Success(installed.value) else Failure("no_healthy_installation");
    }

    /** Removes a directory's files in any order, then the directory; `None` when stopped. */
    method RemoveTree(place: Place, budget: nat) returns (left: Option<nat>, ghost ops: seq<FsOp>)
      requires PointerDir in tree && place in tree
      requires place.StagingDir? || (place.SlotDir? && place.id !in ReferencedIn(ViewOf(policy, tree)))
      modifies this`tree
      ensures Recovery(policy, old(tree), ops) && tree == ExecAll(old(tree), ops)
      ensures PointerDir in tree && ViewOf(policy, tree) == ViewOf(policy, old(tree))
      ensures left.Some? ==> tree == old(tree) - {place}
      ensures left.None? ==> tree.Keys == old(tree.Keys) && forall p :: p in tree && p != place ==> tree[p] == old(tree)[p]
      ensures left.Some? <==> budget >= |old(tree)[place]| + 1
      ensures left.Some? ==> left.value == budget - |old(tree)[place]| - 1
    {
      hide ViewOf, ReferencedIn, Recovery, ExecAll, Cleans, Exec;
      ops := [];
      RecoveryOfNothing(policy, tree);
      var remaining: nat := budget;
      while tree[place] != map[]
        invariant place in tree && PointerDir in tree && tree.Keys == old(tree.Keys)
        invariant forall p :: p in tree && p != place ==> tree[p] == old(tree)[p]
        invariant Recovery(policy, old(tree), ops) && tree == ExecAll(old(tree), ops)
        invariant ViewOf(policy, tree) == ViewOf(policy, old(tree))
        invariant remaining + |old(tree)[place]| == budget + |tree[place]|
        decreases |tree[place]|
      {
        if remaining == 0 { return None, ops; }
        var name :| name in tree[place];
        ops := RemoveFile(ops, place, name, old(tree));
        remaining := remaining - 1;
      }
      if remaining == 0 { return None, ops; }
      EmptyDirIsCleaned(policy, tree, place);
      ops := ExtendRecovery(ops, RemoveDir(place), old(tree));
      assert tree == old(tree) - {place};
      left := Some(remaining - 1);
    }

    /** Removes one file of a directory that nobody needs. */
    method RemoveFile(ghost ops: seq<FsOp>, place: Place, name: string, ghost start: Tree) returns (ghost longer: seq<FsOp>)
      requires PointerDir in tree && place in tree && name in tree[place]
      requires place.StagingDir? || (place.SlotDir? && place.id !in ReferencedIn(ViewOf(policy, tree)))
      requires Recovery(policy, start, ops) && tree == ExecAll(start, ops)
      modifies this`tree
      ensures Recovery(policy, start, longer) && tree == ExecAll(start, longer)
      ensures PointerDir in tree && ViewOf(policy, tree) == ViewOf(policy, old(tree))
      ensures place in tree && tree == old(tree)[place := old(tree)[place] - {name}] && |tree[place]| == |old(tree)[place]| - 1
    {
      hide ViewOf, ReferencedIn, Recovery, ExecAll;
      RemovalShrinks(tree[place], name);
      longer := ExtendRecovery(ops, UnlinkFile(place, name), start);
    }

    /** One more removal of a recovery that started from `start`. */
    method ExtendRecovery(ghost ops: seq<FsOp>, op: FsOp, ghost start: Tree) returns (ghost longer: seq<FsOp>)
      requires PointerDir in tree && Cleans(policy, tree, op)
      requires Recovery(policy, start, ops) && tree == ExecAll(start, ops)
      modifies this`tree
      ensures longer == ops + [op] && tree == Exec(old(tree), op)
      ensures Recovery(policy, start, longer) && tree == ExecAll(start, longer)
      ensures PointerDir in tree && ViewOf(policy, tree) == ViewOf(policy, old(tree))
    {
      CleaningKeepsEntry(policy, tree, op, A);
      CleaningKeepsEntry(policy, tree, op, B);
      RecoveryExtends(policy, start, ops, op);
      tree := Exec(tree, op);
      longer := ops + [op];
    }

    /** Removes the given directories, but for the referenced slots, in any order. */
    method RemoveAll(places: set<Place>, referenced: set<string>, budget: nat)
      returns (left: Result<nat, string>, ghost ops: seq<FsOp>)
      requires PointerDir in tree && referenced == ReferencedIn(ViewOf(policy, tree))
      requires forall p :: p in places ==> p in tree && !p.PointerDir?
      modifies this`tree
      ensures Recovery(policy, old(tree), ops) && tree == ExecAll(old(tree), ops)
      ensures PointerDir in tree && ViewOf(policy, tree) == ViewOf(policy, old(tree)) && tree.Keys <= old(tree.Keys)
      ensures left.Success? ==> forall p :: p in places && p in tree ==> IsKept(p, referenced)
      ensures forall p :: p in old(tree) && p !in places ==> p in tree && tree[p] == old(tree)[p]
      ensures left.Success? <==> AreSafe(places) && Cost(old(tree), places, referenced) <= budget
      ensures left.Success? ==> left.value == budget - Cost(old(tree), places, referenced)
    {
      hide ViewOf, ReferencedIn, Recovery, Cost, ExecAll, IsSafeId;
      ops := [];
      RecoveryOfNothing(policy, tree);
      var rest, remaining: nat := places, budget;
      while rest != {}
        invariant rest <= places && tree.Keys <= old(tree.Keys)
        invariant forall p :: p in rest ==> p in tree && tree[p] == old(tree)[p]
        invariant forall p :: p in old(tree) && p !in places ==> p in tree && tree[p] == old(tree)[p]
        invariant PointerDir in tree && ViewOf(policy, tree) == ViewOf(policy, old(tree))
        invariant Recovery(policy, old(tree), ops) && tree == ExecAll(old(tree), ops)
        invariant forall p :: p in places - rest && p in tree ==> IsKept(p, referenced)
        invariant AreSafe(places - rest)
        invariant remaining + Cost(old(tree), places, referenced) == budget + Cost(old(tree), rest, referenced)
      {
        var place :| place in rest;
        CostOfOne(old(tree), rest, referenced, place);
        rest := rest - {place};
        if !IsSafeId(place.id) { return Failure("invalid_entry"), ops; }
        if place.SlotDir? && place.id in referenced { continue; }
        var next, removed := RemoveTree(place, remaining);
        RecoveryJoins(policy, old(tree), ops, removed);
        ops := ops + removed;
        if next.None? { return Failure("recovery_failed"), ops; }
        remaining := next.value;
      }
      CostOfNone(old(tree), referenced);
      assert places - rest == places;
      left := Success(remaining);
    }

    /**
     Removes what is staged and every slot that no valid pointer names, in any order and
     stopped after any number of operations. Nothing a reader can see changes.
     */
    method Recover(budget: nat) returns (r: Result<ActiveInstall, string>, ghost ops: seq<FsOp>)
      modifies this`tree
      ensures RemovesWithinBounds(policy, old(tree), ops) && tree == ExecAll(old(tree), ops)
      ensures Active(policy, tree) == old(Active(policy, tree))
      ensures r.Success? ==> Clean(policy, tree) && Active(policy, tree) == Some(r.value)
      ensures old(Clean(policy, tree)) ==> tree == old(tree)
      ensures r.Success? <==> old(CanRecover(policy, tree, budget))
    {
      hide ViewOf, ReferencedIn, Recovery, Cost, AreSafe, ExecAll, ActiveOf;
      ops := [];
      RecoveryOfNothing(policy, tree);
      CleanHasNoRecovery(policy, tree);
      var found := Active(policy, tree);
      if found.None? { return Failure("no_healthy_installation"), ops; }
      ActiveHasPointers(policy, tree);
      var referenced := ReferencedIn(ViewOf(policy, tree));
      var staged := set p | p in tree && p.StagingDir?;
      if |staged| > MAX_ENTRIES { return Failure("recovery_work_bounded"), ops; }
      var left, more := RemoveAll(staged, referenced, budget);
      ops := more;
      assert SlotPlaces(tree) == SlotPlaces(old(tree));
      if left.Failure? { return Failure(left.error), ops; }
      referenced := ReferencedIn(ViewOf(policy, tree));
      var slots := set p | p in tree && p.SlotDir?;
      if |slots| > MAX_ENTRIES { return Failure("recovery_work_bounded"), ops; }
      SameCost(old(tree), tree, slots, referenced);
      left, more := RemoveAll(slots, referenced, left.value);
      RecoveryJoins(policy, old(tree), ops, more);
      ops := ops + more;
      if left.Failure? { return Failure(left.error), ops; }
      r := Success(found.value);
    }
  }

  /** Checks the baseline and installs it; nothing is written when it is refused. */
  method Initialize(policy: Policy, baseline: Baseline) returns (r: Result<UpdateRecoverySandbox, string>)
    ensures r.Success? <==>
              |baseline.data| <= 1_048_576 && IsVersionText(baseline.version) && 0 <= baseline.dataSchema <= 1_000_000
    ensures r.Success? ==> fresh(r.value) && r.value.policy == policy && r.value.tree == InitialTree(baseline)
    ensures |baseline.data| > 1_048_576 ==> r == Failure("local_data_too_large")
    ensures |baseline.data| <= 1_048_576 && !IsVersionText(baseline.version) ==> r == Failure("invalid_baseline_version")
    ensures |baseline.data| <= 1_048_576 && IsVersionText(baseline.version) && r.Failure? ==> r.error == "invalid_baseline_schema"
  {
    if |baseline.data| > MAX_DATA_BYTES { return Failure("local_data_too_large"); }
    if !IsVersionText(baseline.version) { return Failure("invalid_baseline_version"); }
    if !(0 <= baseline.dataSchema <= MAX_SCHEMA) { return Failure("invalid_baseline_schema"); }
    var sandbox := new UpdateRecoverySandbox(policy, baseline);
    r := Success(sandbox);
  }
}
