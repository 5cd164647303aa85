/**
 The promises of the updater over whole calls and whole runs: crash-atomic updates,
 rollback that restores the prior slot, recovery that changes nothing visible, and an
 installation that boots after any history of complete and interrupted calls.
 */
module UpdateRuns {
  import opened Wrappers
  import opened UpdateTree
  import opened UpdatePlans
  import opened UpdateRecovery

  // ----- apply -----

  /** The call runs to its end, past the health check. */
  ghost predicate ApplyCompletes(policy: Policy, t: Tree, u: Update, o: Options)
  {
    ApplyPlan(policy, t, u, o).ending.ReturnsActive?
  }

  /** Every stop shows the old install; the end shows the new one just when its generation is in range. */
  ghost predicate StopsSafely(policy: Policy, t: Tree, u: Update, o: Options, c: ActiveInstall, plan: Plan)
  {
    var v := ViewOf(policy, t);
    && ActiveOf(v) == Some(c)
    && Until(policy, t, plan.steps, OldViews(v))
    && (plan.ending.ReturnsActive? ==> Proceeds(policy, t, u, o) && o.healthy && |plan.steps| == 16)
    && (if plan.ending.ReturnsActive? && c.generation < MAX_GENERATION
        then PointerDir in Run(t, plan.steps)
             && ViewOf(policy, Run(t, plan.steps)) == v.With(c.pointer.Other(), Some(NewEntry(c, u, Migration(o))))
        else Shows(policy, Run(t, plan.steps), OldViews(v)))
  }

  /** The stops of a call that gets past publishing. */
  lemma ActivationStops(policy: Policy, t: Tree, u: Update, o: Options)
    requires Proceeds(policy, t, u, o)
    ensures var c := Current(policy, t);
            var activation := ActivationPlan(t, c, u, o);
            var front := StageArtifact(u) + StageData(u, o.migrated.value) + Publish(u);
            StopsSafely(policy, t, u, o, c, Plan(front + activation.steps, activation.ending))
  {
    hide Until, Run, ViewOf, TemporaryIsTaken, StagedDir, ReplaceFile, CreateFile, PointAt, MarkHealthy, CollideWithTemporary;
    hide NewEntry, NewRecord, ValidPointers, RefuseBefore, SlotIsTaken, StageArtifact, StageData, Publish;
    var c := Current(policy, t);
    ActiveShape(policy, t);
    PointedPhase(policy, t, u, o);
    MarkedPhase(policy, t, u, o);
    CollisionPhase(policy, t, u, o);
    var front := StageArtifact(u) + StageData(u, o.migrated.value) + Publish(u);
    var point := PointAt(c, u.updateId, o.pointerUuid);
    assert front + (point + MarkHealthy(u, o)) == front + point + MarkHealthy(u, o);
  }

  /** The stops of a call that is refused before publishing. */
  lemma RefusedStops(policy: Policy, t: Tree, u: Update, o: Options)
    requires Bootable(policy, t) && VerifiedUpdate(policy, u) && !Proceeds(policy, t, u, o)
    ensures StopsSafely(policy, t, u, o, Current(policy, t), ApplyPlan(policy, t, u, o))
  {
    hide Until, Run, ViewOf, ActiveOf, SlotIsTaken, StagedDir, NewEntry, NewRecord, StageArtifact, StageData, ActivationPlan;
    ActiveShape(policy, t);
    var v := ViewOf(policy, t);
    RunNothing(policy, t, OldViews(v));
    StagedSteps(policy, t, u, None);
    if SlotIsTaken(t, u.updateId) && o.migrated.Some? {
      StagedSteps(policy, t, u, o.migrated);
    }
  }

  lemma ProceedingStops(policy: Policy, t: Tree, u: Update, o: Options)
    requires Proceeds(policy, t, u, o)
    ensures StopsSafely(policy, t, u, o, Current(policy, t), ApplyPlan(policy, t, u, o))
  {
    hide Until, Run, ViewOf, ActiveOf, RefuseBefore, SlotIsTaken, StagedDir, NewEntry, NewRecord;
    hide StageArtifact, StageData, Publish, ActivationPlan;
    PublishedPhase(policy, t, u, o);
    ActivationStops(policy, t, u, o);
  }

  lemma ApplyStops(policy: Policy, t: Tree, u: Update, o: Options)
    requires Bootable(policy, t) && VerifiedUpdate(policy, u)
    ensures StopsSafely(policy, t, u, o, Current(policy, t), ApplyPlan(policy, t, u, o))
  {
    hide StopsSafely, Proceeds;
    if Proceeds(policy, t, u, o) {
      ProceedingStops(policy, t, u, o);
    } else {
      RefusedStops(policy, t, u, o);
    }
  }

  lemma StagedSteps(policy: Policy, t: Tree, u: Update, m: Option<Migrated>)
    requires Bootable(policy, t) && ActiveOf(ViewOf(policy, t)).Some?
    ensures var v := ViewOf(policy, t);
            var steps := StageArtifact(u) + if m.None? then [] else StageData(u, m.value);
            && Until(policy, t, steps, OldViews(v)) && Shows(policy, Run(t, steps), OldViews(v))
            && (m.None? ==> steps == StageArtifact(u))
  {
    hide Until, Run, ViewOf;
    var v := ViewOf(policy, t);
    var steps := StageArtifact(u) + if m.None? then [] else StageData(u, m.value);
    StagingSteps(policy, t, steps);
    UntilMore(policy, t, steps, {v}, OldViews(v));
  }

  lemma RunNothing(policy: Policy, t: Tree, views: set<View>)
    ensures Until(policy, t, [], views) && Run(t, []) == t
  {
  }

  /** A taken temporary name ends the call after publishing; its removal shows nothing. */
  lemma CollisionPhase(policy: Policy, t: Tree, u: Update, o: Options)
    requires Proceeds(policy, t, u, o)
    ensures var v := ViewOf(policy, t);
            var steps := StageArtifact(u) + StageData(u, o.migrated.value) + Publish(u)
                         + CollideWithTemporary(ActiveOf(v).value.pointer.Other(), o.pointerUuid);
            Until(policy, t, steps, OldViews(v)) && Shows(policy, Run(t, steps), OldViews(v))
  {
    hide Until, Run, ViewOf;
    var v := ViewOf(policy, t);
    var front := StageArtifact(u) + StageData(u, o.migrated.value) + Publish(u);
    var name := ActiveOf(v).value.pointer.Other();
    PublishedPhase(policy, t, u, o);
    var published := t[SlotDir(u.updateId) := StagedDir(u, o.migrated.value, false)];
    CollisionSteps(policy, published, name, o.pointerUuid);
    UntilMore(policy, published, CollideWithTemporary(name, o.pointerUuid), {v}, OldViews(v));
    UntilAppend(policy, t, front, CollideWithTemporary(name, o.pointerUuid), OldViews(v));
    RunAppend(t, front, CollideWithTemporary(name, o.pointerUuid));
  }

  lemma CollisionSteps(policy: Policy, t: Tree, name: PointerName, uuid: string)
    requires PointerDir in t
    ensures var steps := CollideWithTemporary(name, uuid);
            Until(policy, t, steps, {ViewOf(policy, t)}) && Shows(policy, Run(t, steps), {ViewOf(policy, t)})
  {
    var steps := CollideWithTemporary(name, uuid);
    TemporaryIsNoPointer(name.File(), uuid);
    OtherPointerFileIsInvisible(policy, t, steps[0].op);
    assert steps[1..] == [];
    assert Run(Exec(t, steps[0].op), []) == Exec(t, steps[0].op);
  }

  /**
   Wherever `apply` is stopped, the installation boots and the active install is exactly
   the old one, or exactly the new one. It is the new one if and only if the call got past
   its last operation and the old generation was below the limit.
   */
  lemma ApplyIsCrashAtomic(policy: Policy, t: Tree, u: Update, o: Options, cut: Cut)
    requires Bootable(policy, t) && VerifiedUpdate(policy, u)
    ensures var steps := ApplyPlan(policy, t, u, o).steps;
            var c := Active(policy, t);
            var t' := RunCut(t, steps, cut);
            && c.Some? && Bootable(policy, t')
            && Active(policy, t') ==
                 (if ApplyCompletes(policy, t, u, o) && cut.at >= |steps| && c.value.generation < MAX_GENERATION
                  then Some(NewInstall(c.value, u, Migration(o))) else c)
            && (Active(policy, t') != c ==> o.healthy)
  {
    hide Until, Run, RunCut, ViewOf, ApplyPlan;
    var steps := ApplyPlan(policy, t, u, o).steps;
    var v := ViewOf(policy, t);
    ApplyStops(policy, t, u, o);
    ActiveShape(policy, t);
    var c := ActiveOf(v).value;
    if cut.at < |steps| {
      UntilCut(policy, t, steps, OldViews(v), cut);
      OldViewsKeepActive(policy, RunCut(t, steps, cut), v);
    } else {
      RunCutAll(t, steps, cut);
      if ApplyCompletes(policy, t, u, o) && c.generation < MAX_GENERATION {
        RaisedView(v, NewEntry(c, u, o.migrated.value));
      } else {
        OldViewsKeepActive(policy, Run(t, steps), v);
      }
    }
  }

  // ----- rollback -----

  /** Two valid pointers and a supported path back: what `rollback` needs. */
  ghost predicate RollbackCompletes(policy: Policy, t: Tree, uuid: string)
  {
    RollbackPlan(policy, t, uuid).ending.ReturnsActive?
  }

  lemma RollbackNeeds(policy: Policy, t: Tree, uuid: string)
    requires Bootable(policy, t)
    ensures var v := ViewOf(policy, t);
            && ActiveOf(v).Some?
            && var c := ActiveOf(v).value;
            RollbackCompletes(policy, t, uuid) <==>
              && v.At(c.pointer.Other()).Some?
              && SupportedPath(v.At(c.pointer.Other()).value.slot.record.version, c.record.version) in policy.supportedPaths
              && !TemporaryIsTaken(t, c.pointer.Other(), uuid)
  {
    hide EntryAt, TemporaryIsTaken, PointAt, CollideWithTemporary;
  }

  lemma RollbackStops(policy: Policy, t: Tree, uuid: string)
    requires Bootable(policy, t)
    ensures var plan := RollbackPlan(policy, t, uuid);
            var v := ViewOf(policy, t);
            && ActiveOf(v).Some?
            && var c := ActiveOf(v).value;
            var other := c.pointer.Other();
            && Until(policy, t, plan.steps, OldViews(v))
            && (plan.ending.ReturnsActive? ==> v.At(other).Some? && |plan.steps| == 4)
            && (if plan.ending.ReturnsActive? && c.generation < MAX_GENERATION
                then PointerDir in Run(t, plan.steps)
                     && ViewOf(policy, Run(t, plan.steps)) == v.With(other,
                          Some(Entry(NewPointer(c.generation + 1, v.At(other).value.pointer.slotId), v.At(other).value.slot)))
                else Shows(policy, Run(t, plan.steps), OldViews(v)))
  {
    hide Until, Run, ReadSlotDir, PointAt, CollideWithTemporary, PointerAt;
    ActiveShape(policy, t);
    var v := ViewOf(policy, t);
    var c := ActiveOf(v).value;
    var other := c.pointer.Other();
    RunNothing(policy, t, OldViews(v));
    if v.At(other).Some? {
      EntryShape(policy, t, other);
      var id := v.At(other).value.pointer.slotId;
      PointAtPhase(policy, t, c, id, uuid);
      CollisionSteps(policy, t, other, uuid);
      UntilMore(policy, t, CollideWithTemporary(other, uuid), {v}, OldViews(v));
      assert Candidate(policy, t, NewPointer(c.generation + 1, id)) ==
               if c.generation < MAX_GENERATION
               then Some(Entry(NewPointer(c.generation + 1, id), v.At(other).value.slot)) else None;
    }
  }

  /** Wherever `rollback` is stopped, the active install is the old one, or the other valid one at the next generation. */
  lemma RollbackIsCrashAtomic(policy: Policy, t: Tree, uuid: string, cut: Cut)
    requires Bootable(policy, t)
    ensures var steps := RollbackPlan(policy, t, uuid).steps;
            var c := Active(policy, t);
            var t' := RunCut(t, steps, cut);
            && c.Some? && Bootable(policy, t')
            && if RollbackCompletes(policy, t, uuid) && cut.at >= |steps| && c.value.generation < MAX_GENERATION
               then var other := c.value.pointer.Other();
                    var e := ViewOf(policy, t).At(other);
                    e.Some? && Active(policy, t') ==
                      Some(ActiveInstall(e.value.slot.record, e.value.slot.data, other, c.value.generation + 1))
               else Active(policy, t') == c
  {
    hide Until, Run, RunCut, RollbackPlan, EntryAt;
    var steps := RollbackPlan(policy, t, uuid).steps;
    var v := ViewOf(policy, t);
    RollbackStops(policy, t, uuid);
    ActiveShape(policy, t);
    var c := ActiveOf(v).value;
    if cut.at < |steps| {
      UntilCut(policy, t, steps, OldViews(v), cut);
      OldViewsKeepActive(policy, RunCut(t, steps, cut), v);
    } else {
      RunCutAll(t, steps, cut);
      if RollbackCompletes(policy, t, uuid) && c.generation < MAX_GENERATION {
        var other := c.pointer.Other();
        RaisedView(v, Entry(NewPointer(c.generation + 1, v.At(other).value.pointer.slotId), v.At(other).value.slot));
      } else {
        OldViewsKeepActive(policy, Run(t, steps), v);
      }
    }
  }

  /** After a completed update the two pointers hold the prior install and the new one. */
  lemma UpdatedView(policy: Policy, t: Tree, u: Update, o: Options)
    requires Bootable(policy, t) && VerifiedUpdate(policy, u) && ApplyCompletes(policy, t, u, o)
    requires Current(policy, t).generation < MAX_GENERATION
    ensures var c := Current(policy, t);
            var updated := Run(t, ApplyPlan(policy, t, u, o).steps);
            && Bootable(policy, updated)
            && Active(policy, updated) == Some(NewInstall(c, u, Migration(o)))
            && ViewOf(policy, updated).At(c.pointer) ==
                 Some(Entry(NewPointer(c.generation, c.record.slotId), Installed(c.record, c.data)))
  {
    hide Until, Run, EntryAt, ApplyPlan, ReplaceFile;
    ActiveShape(policy, t);
    ApplyStops(policy, t, u, o);
    RaisedView(ViewOf(policy, t), NewEntry(Current(policy, t), u, Migration(o)));
  }

  /**
   A completed update followed by a completed rollback brings back the prior slot, its
   record and its data, under its own pointer file and two generations up. The rollback
   completes exactly when the path back is supported and its temporary name is free.
   */
  lemma RollbackUndoesApply(policy: Policy, t: Tree, u: Update, o: Options, uuid: string)
    requires Bootable(policy, t) && VerifiedUpdate(policy, u) && ApplyCompletes(policy, t, u, o)
    requires Current(policy, t).generation < MAX_GENERATION
    ensures var c := Current(policy, t);
            var updated := Run(t, ApplyPlan(policy, t, u, o).steps);
            var restored := Run(updated, RollbackPlan(policy, updated, uuid).steps);
            && (RollbackCompletes(policy, updated, uuid) <==>
                  SupportedPath(c.record.version, u.target.version) in policy.supportedPaths
                  && !TemporaryIsTaken(updated, c.pointer, uuid))
            && (RollbackCompletes(policy, updated, uuid) ==>
                  Active(policy, restored) ==
                    (if c.generation + 1 < MAX_GENERATION
                     then Some(ActiveInstall(c.record, c.data, c.pointer, c.generation + 2))
                     else Some(NewInstall(c, u, Migration(o)))))
  {
    hide Until, Run, RunCut, EntryAt, ApplyPlan, RollbackPlan, ApplyCompletes, RollbackCompletes, TemporaryIsTaken, Sound;
    var updated := Run(t, ApplyPlan(policy, t, u, o).steps);
    UpdatedView(policy, t, u, o);
    var back := RollbackPlan(policy, updated, uuid).steps;
    RollbackNeeds(policy, updated, uuid);
    var cut := Cut(|back|, false);
    RunCutAll(updated, back, cut);
    RollbackIsCrashAtomic(policy, updated, uuid, cut);
  }

  // ----- recover -----

  /** A slot that some pointer names without being valid stays dead when files are removed from it. */
  lemma RemovalKeepsDead(policy: Policy, id: string, dir: Dir, name: string)
    ensures Dead(ReadSlotDir(policy, id, dir)) ==> Dead(ReadSlotDir(policy, id, dir - {name}))
  {
  }

  lemma CleaningKeepsEntry(policy: Policy, t: Tree, op: FsOp, name: PointerName)
    requires PointerDir in t && Cleans(policy, t, op)
    ensures PointerDir in Exec(t, op) && EntryAt(policy, Exec(t, op), name) == EntryAt(policy, t, name)
  {
    var t' := Exec(t, op);
    if PointerAt(t, name).Some? && op.place.SlotDir? && op.place.id == PointerAt(t, name).value.slotId {
      var id := op.place.id;
      assert EntryAt(policy, t, name).None?;
      assert Dead(ReadSlot(policy, t, id));
      if op.UnlinkFile? {
        RemovalKeepsDead(policy, id, t[op.place], op.name);
      }
    }
    SameEntry(policy, t, t', name);
  }

  /** `recover`, however far it gets and in whatever order, never changes what is installed. */
  lemma {:induction false} RecoveryKeepsView(policy: Policy, t: Tree, ops: seq<FsOp>)
    requires PointerDir in t && Recovery(policy, t, ops)
    ensures PointerDir in ExecAll(t, ops) && ViewOf(policy, ExecAll(t, ops)) == ViewOf(policy, t)
    ensures Active(policy, ExecAll(t, ops)) == Active(policy, t)
    decreases |ops|
  {
    if ops != [] {
      CleaningKeepsEntry(policy, t, ops[0], A);
      CleaningKeepsEntry(policy, t, ops[0], B);
      RecoveryKeepsView(policy, Exec(t, ops[0]), ops[1..]);
    }
  }

  /** A finished recovery leaves exactly the slots of the valid pointers, and a second one does nothing. */
  lemma RecoveryIsIdempotent(policy: Policy, t: Tree, ops: seq<FsOp>, again: seq<FsOp>)
    requires Bootable(policy, t) && Recovery(policy, t, ops)
    requires Clean(policy, ExecAll(t, ops)) && Recovery(policy, ExecAll(t, ops), again)
    ensures var t' := ExecAll(t, ops);
            && again == []
            && (forall id :: StagingDir(id) !in t')
            && (forall id :: SlotDir(id) in t' <==> id in ReferencedIn(ViewOf(policy, t)))
  {
    hide Exec, ExecAll, ReadSlot, PointerAt;
    RecoveryKeepsView(policy, t, ops);
    var t' := ExecAll(t, ops);
    if EntryAt(policy, t', A).Some? { EntryShape(policy, t', A); }
    if EntryAt(policy, t', B).Some? { EntryShape(policy, t', B); }
  }

  /** As long as something is left over, recovery can go on. */
  lemma RecoveryCanContinue(policy: Policy, t: Tree)
    requires !Clean(policy, t)
    ensures exists op :: Cleans(policy, t, op)
  {
    var p :| p in t && !(p.PointerDir? || (p.SlotDir? && p.id in ReferencedIn(ViewOf(policy, t))));
    if t[p] == map[] {
      assert Cleans(policy, t, RemoveDir(p));
    } else {
      var name :| name in t[p];
      assert Cleans(policy, t, UnlinkFile(p, name));
    }
  }

  // ----- runs -----

  datatype Command =
    | Apply(u: Update, o: Options, cut: Cut)
    | Rollback(uuid: string, cut: Cut)
    | Recover(ops: seq<FsOp>)

  function Perform(policy: Policy, t: Tree, command: Command): Tree
  {
    match command
    case Apply(u, o, cut) => RunCut(t, ApplyPlan(policy, t, u, o).steps, cut)
    case Rollback(uuid, cut) => RunCut(t, RollbackPlan(policy, t, uuid).steps, cut)
    case Recover(ops) => ExecAll(t, ops)
  }

  ghost predicate Legal(policy: Policy, t: Tree, command: Command)
  {
    match command
    case Apply(u, _, _) => VerifiedUpdate(policy, u)
    case Rollback(_, _) => true
    case Recover(ops) => Recovery(policy, t, ops)
  }

  function PerformAll(policy: Policy, t: Tree, commands: seq<Command>): Tree
    decreases |commands|
  {
    if commands == [] then t else PerformAll(policy, Perform(policy, t, commands[0]), commands[1..])
  }

  ghost predicate LegalAll(policy: Policy, t: Tree, commands: seq<Command>)
    decreases |commands|
  {
    commands == [] || (Legal(policy, t, commands[0]) && LegalAll(policy, Perform(policy, t, commands[0]), commands[1..]))
  }

  lemma PerformKeepsBootable(policy: Policy, t: Tree, command: Command)
    requires Bootable(policy, t) && Legal(policy, t, command)
    ensures Bootable(policy, Perform(policy, t, command))
    ensures Current(policy, Perform(policy, t, command)).generation >= Current(policy, t).generation
  {
    hide Run, RunCut, ViewOf, ApplyPlan, RollbackPlan, ApplyCompletes, RollbackCompletes;
    match command {
      case Apply(u, o, cut) => ApplyIsCrashAtomic(policy, t, u, o, cut);
      case Rollback(uuid, cut) => RollbackIsCrashAtomic(policy, t, uuid, cut);
      case Recover(ops) => RecoveryKeepsView(policy, t, ops);
    }
  }

  /**
   After any history of calls, each complete or stopped anywhere, the installation boots,
   its valid pointers share neither generation nor slot, and the active generation never fell.
   */
  lemma {:induction false} AlwaysBootable(policy: Policy, t: Tree, commands: seq<Command>)
    requires Bootable(policy, t) && LegalAll(policy, t, commands)
    ensures Bootable(policy, PerformAll(policy, t, commands))
    ensures Current(policy, PerformAll(policy, t, commands)).generation >= Current(policy, t).generation
    decreases |commands|
  {
    hide Bootable, Perform, Legal;
    if commands != [] {
      PerformKeepsBootable(policy, t, commands[0]);
      AlwaysBootable(policy, Perform(policy, t, commands[0]), commands[1..]);
    }
  }

  // ----- initialize -----

  datatype Baseline = Baseline(version: string, channel: Channel, artifact: Bytes, data: Bytes, dataSchema: int)

  /** What `initialize` checks of its baseline before it writes anything. */
  predicate BaselineIsAccepted(b: Baseline)
  {
    |b.data| <= MAX_DATA_BYTES && IsVersionText(b.version) && 0 <= b.dataSchema <= MAX_SCHEMA
  }

  function BaselineRecord(b: Baseline): SlotRecord
  {
    SlotRecord("baseline", b.version, b.channel, OfBytes(b.artifact), b.dataSchema, OfBytes(b.data), true)
  }

  /** The tree a finished `initialize` leaves. */
  function InitialTree(b: Baseline): Tree
  {
    map[ SlotDir("baseline") := map["app.bin" := Blob(b.artifact), "data.bin" := Blob(b.data),
                                    "state.json" := SlotState(BaselineRecord(b))],
         PointerDir := map["a.json" := Pointer(NewPointer(1, "baseline"))] ]
  }

  lemma BaselineReads(policy: Policy, b: Baseline)
    requires BaselineIsAccepted(b)
    ensures ReadSlot(policy, InitialTree(b), "baseline") ==
              if |b.artifact| <= policy.maximumArtifactBytes then Some(Installed(BaselineRecord(b), b.data)) else None
  {
    hide IsVersionText;
    assert "app.bin"[0] != "data.bin"[0] && "app.bin"[0] != "state.json"[0] && "data.bin"[0] != "state.json"[0];
  }

  lemma InitialEntries(policy: Policy, b: Baseline)
    requires BaselineIsAccepted(b)
    ensures PointerDir in InitialTree(b) && EntryAt(policy, InitialTree(b), B) == None
    ensures EntryAt(policy, InitialTree(b), A) ==
              if |b.artifact| <= policy.maximumArtifactBytes
              then Some(Entry(NewPointer(1, "baseline"), Installed(BaselineRecord(b), b.data))) else None
  {
    hide ReadSlot, IsVersionText;
    BaselineReads(policy, b);
    assert "a.json"[0] != "b.json"[0];
  }

  /**
   A finished `initialize` is bootable just when the baseline artifact is within the
   policy's bound, which `initialize` itself does not check.
   */
  lemma InitialIsBootable(policy: Policy, b: Baseline)
    requires BaselineIsAccepted(b)
    ensures Bootable(policy, InitialTree(b)) <==> |b.artifact| <= policy.maximumArtifactBytes
    ensures Bootable(policy, InitialTree(b)) ==>
              Active(policy, InitialTree(b)) == Some(ActiveInstall(BaselineRecord(b), b.data, A, 1))
  {
    hide EntryAt, InitialTree, BaselineRecord;
    InitialEntries(policy, b);
  }

  /** Every history that starts with a finished `initialize` of a fitting baseline leaves a bootable installation. */
  lemma BootsAfterInitialize(policy: Policy, b: Baseline, commands: seq<Command>)
    requires BaselineIsAccepted(b) && |b.artifact| <= policy.maximumArtifactBytes
    requires LegalAll(policy, InitialTree(b), commands)
    ensures Bootable(policy, PerformAll(policy, InitialTree(b), commands))
  {
    InitialIsBootable(policy, b);
    AlwaysBootable(policy, InitialTree(b), commands);
  }

  /** What the caller and the world contribute to a completed update from one installed identity. */
  predicate Favours(policy: Policy, source: Identity, dataBytes: nat, u: Update, o: Options)
  {
    && u.source == source && o.fault.None? && o.healthy
    && o.migrated.Some? && o.migrated.value.dataSchema == u.target.dataSchema && |o.migrated.value.data| <= MAX_DATA_BYTES
    && IsSafeInteger(o.availableBytes) && o.availableBytes >= (|u.artifact| + dataBytes) * policy.minimumFreeSpaceMultiplier
  }

  /** The first update of a fresh installation goes through when nothing is against it. */
  lemma FirstUpdateCompletes(policy: Policy, b: Baseline, u: Update, o: Options)
    requires BaselineIsAccepted(b) && |b.artifact| <= policy.maximumArtifactBytes
    requires VerifiedUpdate(policy, u) && u.updateId != "baseline"
    requires Favours(policy, Identity(b.version, b.channel, b.dataSchema), |b.data|, u, o)
    ensures var t := InitialTree(b);
            && Bootable(policy, t) && ApplyCompletes(policy, t, u, o)
            && Active(policy, Run(t, ApplyPlan(policy, t, u, o).steps))
               == Some(ActiveInstall(NewRecord(u, Migration(o), true), Migration(o).data, B, 2))
  {
    hide Run, ApplyPlan, ViewOf, ApplyCompletes;
    var t := InitialTree(b);
    InitialIsBootable(policy, b);
    FreshTreeAccepts(policy, b, u, o);
    UpdatedView(policy, t, u, o);
  }

  lemma FreshTreeAccepts(policy: Policy, b: Baseline, u: Update, o: Options)
    requires Active(policy, InitialTree(b)) == Some(ActiveInstall(BaselineRecord(b), b.data, A, 1))
    requires u.updateId != "baseline" && Favours(policy, Identity(b.version, b.channel, b.dataSchema), |b.data|, u, o)
    ensures ApplyCompletes(policy, InitialTree(b), u, o)
  {
    hide Active, StageArtifact, StageData, Publish, PointAt, MarkHealthy;
    assert |TemporaryName("b.json", o.pointerUuid)| >= 10;
  }
}
