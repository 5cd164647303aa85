/**
 When exactly an update goes through on any installation, that an interrupted one goes through
 after a recovery, and a history that reaches the generation limit, where it silently does not.
 */
module UpdateLimit {
  import opened Wrappers
  import opened Text
  import opened Versioning
  import opened UpdateTree
  import opened UpdatePlans
  import opened UpdateRecovery
  import opened UpdateRuns

  function IdentityOf(r: SlotRecord): Identity { Identity(r.version, r.channel, r.dataSchema) }

  /** Nothing in the tree stands in the way of the update. */
  predicate HasRoom(t: Tree, current: ActiveInstall, u: Update, pointerUuid: string)
  {
    && current.record.slotId != u.updateId && StagingDir(u.updateId) !in t && !SlotIsTaken(t, u.updateId)
    && !TemporaryIsTaken(t, current.pointer.Other(), pointerUuid)
  }

  /** An update completes exactly when caller and world favour it and the tree has room for it. */
  lemma ApplyNeeds(policy: Policy, t: Tree, u: Update, o: Options)
    requires Bootable(policy, t)
    ensures var c := Current(policy, t);
            ApplyCompletes(policy, t, u, o) <==>
              Favours(policy, IdentityOf(c.record), |c.data|, u, o) && HasRoom(t, c, u, o.pointerUuid)
  {
    hide ViewOf, Sound, SlotIsTaken, TemporaryIsTaken, StageArtifact, StageData, Publish, PointAt, MarkHealthy;
    var c := Current(policy, t);
    assert o.fault.Some? ==> o.fault.value.PermissionFailure? || o.fault.value.StagingInterruption? || o.fault.value.MigrationFailure?
                             || o.fault.value.PreActivationInterruption? || o.fault.value.PostActivationHealthFailure?;
    if RefuseBefore(policy, c, t, u, o).None? && RefuseMigration(u, o).None? { ActivationEnds(t, c, u, o); }
  }

  lemma ActivationEnds(t: Tree, c: ActiveInstall, u: Update, o: Options)
    requires o.migrated.Some?
    ensures ActivationPlan(t, c, u, o).ending.ReturnsActive? <==>
              !TemporaryIsTaken(t, c.pointer.Other(), o.pointerUuid) && o.fault != Some(PostActivationHealthFailure) && o.healthy
  {
    hide TemporaryIsTaken, PointAt, MarkHealthy;
  }

  // ----- trying again -----

  /** A slot that a valid pointer names is taken. */
  lemma ReferencedIsTaken(policy: Policy, t: Tree, id: string)
    requires id in ReferencedIn(ViewOf(policy, t))
    ensures SlotIsTaken(t, id)
  {
    var name := if EntryAt(policy, t, A).Some? && EntryAt(policy, t, A).value.pointer.slotId == id then A else B;
    EntryShape(policy, t, name);
    assert "state.json" in t[SlotDir(id)];
  }

  lemma OldViewsReference(v: View, w: View)
    requires ActiveOf(v).Some? && w in OldViews(v)
    ensures ReferencedIn(w) <= ReferencedIn(v)
  {
  }

  /**
   An update that would have completed and was stopped anywhere goes through after a finished
   recovery, unless its new temporary name is taken; until then the old install stays active.
   */
  lemma InterruptedUpdateGoesThrough(policy: Policy, t: Tree, u: Update, o: Options, cut: Cut, ops: seq<FsOp>, again: Options)
    requires Bootable(policy, t) && VerifiedUpdate(policy, u) && ApplyCompletes(policy, t, u, o)
    requires cut.at < |ApplyPlan(policy, t, u, o).steps|
    requires Recovery(policy, Perform(policy, t, Apply(u, o, cut)), ops)
    requires Clean(policy, ExecAll(Perform(policy, t, Apply(u, o, cut)), ops))
    requires Favours(policy, IdentityOf(Current(policy, t).record), |Current(policy, t).data|, u, again)
    ensures var recovered := ExecAll(Perform(policy, t, Apply(u, o, cut)), ops);
            && Bootable(policy, recovered) && Active(policy, recovered) == Active(policy, t)
            && (ApplyCompletes(policy, recovered, u, again) <==>
                  !TemporaryIsTaken(recovered, Current(policy, t).pointer.Other(), again.pointerUuid))
  {
    hide Until, Run, RunCut, ViewOf, ApplyPlan, ApplyCompletes, Recovery, ExecAll, Sound, Favours, SlotIsTaken, TemporaryIsTaken, ReferencedIn, Active, OldViews;
    var stopped := Perform(policy, t, Apply(u, o, cut));
    var recovered := ExecAll(stopped, ops);
    ApplyNeeds(policy, t, u, o);
    ApplyIsCrashAtomic(policy, t, u, o, cut);
    StoppedShows(policy, t, u, o, cut);
    RecoveryKeepsView(policy, stopped, ops);
    OldViewsReference(ViewOf(policy, t), ViewOf(policy, stopped));
    assert Bootable(policy, recovered) by { BootableByView(policy, stopped, recovered); }
    if u.updateId in ReferencedIn(ViewOf(policy, t)) { ReferencedIsTaken(policy, t, u.updateId); }
    assert SlotDir(u.updateId) !in recovered;
    ApplyNeeds(policy, recovered, u, again);
    AbsentIsFree(recovered, u.updateId);
  }

  lemma AbsentIsFree(t: Tree, id: string)
    requires SlotDir(id) !in t
    ensures !SlotIsTaken(t, id)
  {
  }

  lemma BootableByView(policy: Policy, t: Tree, t': Tree)
    requires Bootable(policy, t) && PointerDir in t' && ViewOf(policy, t') == ViewOf(policy, t)
    ensures Bootable(policy, t')
  {
  }

  lemma StoppedShows(policy: Policy, t: Tree, u: Update, o: Options, cut: Cut)
    requires Bootable(policy, t) && VerifiedUpdate(policy, u) && cut.at < |ApplyPlan(policy, t, u, o).steps|
    ensures ActiveOf(ViewOf(policy, t)).Some?
    ensures ViewOf(policy, Perform(policy, t, Apply(u, o, cut))) in OldViews(ViewOf(policy, t))
  {
    hide Until, RunCut, ViewOf, ApplyPlan;
    ApplyStops(policy, t, u, o);
    UntilCut(policy, t, ApplyPlan(policy, t, u, o).steps, OldViews(ViewOf(policy, t)), cut);
  }

  // ----- reaching the generation limit -----

  /** Two valid pointers of one identity, nothing else beside them, and no slots but the given ones. */
  ghost predicate Cycling(policy: Policy, t: Tree, identity: Identity, slots: set<string>)
  {
    && Bootable(policy, t)
    && t[PointerDir].Keys == {"a.json", "b.json"}
    && (forall name: PointerName :: HoldsIdentity(EntryAt(policy, t, name), identity))
    && (forall p :: p in t ==> p.PointerDir? || (p.SlotDir? && p.id in slots))
  }

  predicate HoldsIdentity(e: Option<Entry>, identity: Identity)
  {
    e.Some? && IdentityOf(e.value.slot.record) == identity
  }

  lemma TemporaryIsFree(t: Tree, name: PointerName, uuid: string)
    requires PointerDir in t && t[PointerDir].Keys <= {"a.json", "b.json"}
    ensures !TemporaryIsTaken(t, name, uuid)
  {
    assert |TemporaryName(name.File(), uuid)| >= 10;
  }

  /** Replacing a pointer leaves the other places alone and no temporary file behind. */
  lemma PointTree(policy: Policy, t: Tree, c: ActiveInstall, id: string, uuid: string)
    requires PointerDir in t && t[PointerDir].Keys <= {"a.json", "b.json"}
    ensures var name, t' := c.pointer.Other().File(), Run(t, PointAt(c, id, uuid));
            t' == t[PointerDir := t[PointerDir][name := Pointer(NewPointer(c.generation + 1, id))]]
  {
    var name := c.pointer.Other();
    PointStops(policy, t, name, NewPointer(c.generation + 1, id), uuid);
    ReplaceTrees(t, PointerDir, name.File(), Pointer(NewPointer(c.generation + 1, id)), uuid);
    TemporaryIsFree(t, name, uuid);
    var d := t[PointerDir];
    assert d - {TemporaryName(name.File(), uuid)} == d;
  }

  lemma RollbackIsPoint(policy: Policy, t: Tree, uuid: string)
    requires RollbackCompletes(policy, t, uuid) && Bootable(policy, t)
    ensures var c := Current(policy, t); var e := ViewOf(policy, t).At(c.pointer.Other());
            e.Some? && RollbackPlan(policy, t, uuid).steps == PointAt(c, e.value.slot.record.slotId, uuid)
  {
    hide EntryAt, TemporaryIsTaken, PointAt;
  }

  /** One rollback swaps the two installs and raises the generation by one. */
  lemma CycleOnce(policy: Policy, t: Tree, identity: Identity, slots: set<string>, uuid: string)
    requires Cycling(policy, t, identity, slots) && Current(policy, t).generation < MAX_GENERATION
    requires SupportedPath(identity.version, identity.version) in policy.supportedPaths
    ensures var t' := Perform(policy, t, Rollback(uuid, Cut(4, false)));
            Cycling(policy, t', identity, slots) && Current(policy, t').generation == Current(policy, t).generation + 1
  {
    hide Run, RunCut, EntryAt, RollbackPlan, RollbackCompletes, TemporaryIsTaken, Sound, PointAt, ReadSlotDir, IsSafeId;
    var c := Current(policy, t);
    var v := ViewOf(policy, t);
    ActiveShape(policy, t);
    TemporaryIsFree(t, c.pointer.Other(), uuid);
    assert HoldsIdentity(EntryAt(policy, t, A), identity) && HoldsIdentity(EntryAt(policy, t, B), identity);
    RollbackNeeds(policy, t, uuid);
    RollbackStops(policy, t, uuid);
    RollbackIsCrashAtomic(policy, t, uuid, Cut(4, false));
    RollbackIsPoint(policy, t, uuid);
    RunCutAll(t, RollbackPlan(policy, t, uuid).steps, Cut(4, false));
    PointTree(policy, t, c, v.At(c.pointer.Other()).value.slot.record.slotId, uuid);
    var t' := Perform(policy, t, Rollback(uuid, Cut(4, false)));
    assert t' == Run(t, RollbackPlan(policy, t, uuid).steps);
    assert ViewOf(policy, t').a == EntryAt(policy, t', A) && ViewOf(policy, t').b == EntryAt(policy, t', B);
    forall name: PointerName ensures HoldsIdentity(EntryAt(policy, t', name), identity) {
      assert EntryAt(policy, t', name) == ViewOf(policy, t').At(name) && EntryAt(policy, t, name) == v.At(name);
      assert HoldsIdentity(v.At(name), identity) && HoldsIdentity(v.At(c.pointer.Other()), identity);
    }
  }

  /** Repeated rollbacks over a same-version path reach the limit. */
  lemma {:induction false} CycleToLimit(policy: Policy, t: Tree, identity: Identity, slots: set<string>, uuid: string)
    returns (commands: seq<Command>)
    requires Cycling(policy, t, identity, slots)
    requires SupportedPath(identity.version, identity.version) in policy.supportedPaths
    ensures LegalAll(policy, t, commands)
    ensures var t' := PerformAll(policy, t, commands);
            Cycling(policy, t', identity, slots) && Current(policy, t').generation == MAX_GENERATION
    decreases MAX_GENERATION - Current(policy, t).generation
  {
    hide Perform, EntryAt, ViewOf, Sound;
    ActiveShape(policy, t);
    if Current(policy, t).generation == MAX_GENERATION {
      commands := [];
    } else {
      var command := Rollback(uuid, Cut(4, false));
      CycleOnce(policy, t, identity, slots, uuid);
      var rest := CycleToLimit(policy, Perform(policy, t, command), identity, slots, uuid);
      commands := [command] + rest;
      assert commands[1..] == rest;
    }
  }

  /** The tree that a completed update leaves. */
  lemma UpdatedTree(policy: Policy, t: Tree, u: Update, o: Options)
    requires Bootable(policy, t) && VerifiedUpdate(policy, u) && ApplyCompletes(policy, t, u, o)
    requires t[PointerDir].Keys <= {"a.json", "b.json"}
    ensures var c := Current(policy, t);
            var pointers := t[PointerDir][c.pointer.Other().File() := Pointer(NewPointer(c.generation + 1, u.updateId))];
            Run(t, ApplyPlan(policy, t, u, o).steps)
            == t[SlotDir(u.updateId) := StagedDir(u, Migration(o), true)][PointerDir := pointers]
  {
    hide Until, Run, ViewOf, EntryAt, PointAt, MarkHealthy, StagedDir, StageArtifact, StageData, Publish, Sound;
    var c, m := Current(policy, t), Migration(o);
    ApplyStops(policy, t, u, o);
    PublishedPhase(policy, t, u, o);
    var front := StageArtifact(u) + StageData(u, m) + Publish(u);
    var point, mark := PointAt(c, u.updateId, o.pointerUuid), MarkHealthy(u, o);
    var published := t[SlotDir(u.updateId) := StagedDir(u, m, false)];
    assert ApplyPlan(policy, t, u, o).steps == front + (point + mark) by { CompletedSteps(policy, t, u, o); }
    RunAppend(t, front, point + mark);
    RunAppend(published, point, mark);
    PointTree(policy, published, c, u.updateId, o.pointerUuid);
    var pointers := t[PointerDir][c.pointer.Other().File() := Pointer(NewPointer(c.generation + 1, u.updateId))];
    assert published[PointerDir] == t[PointerDir];
    var pointed := published[PointerDir := pointers];
    MarkRun(policy, pointed, u, o);
    assert pointed[SlotDir(u.updateId) := StagedDir(u, m, true)]
           == t[SlotDir(u.updateId) := StagedDir(u, m, true)][PointerDir := pointers];
  }

  lemma CompletedSteps(policy: Policy, t: Tree, u: Update, o: Options)
    requires Proceeds(policy, t, u, o) && ApplyCompletes(policy, t, u, o)
    ensures var c, m := Current(policy, t), Migration(o);
            ApplyPlan(policy, t, u, o).steps
            == StageArtifact(u) + StageData(u, m) + Publish(u) + (PointAt(c, u.updateId, o.pointerUuid) + MarkHealthy(u, o))
  {
    hide ViewOf, Sound, SlotIsTaken, TemporaryIsTaken, StageArtifact, StageData, Publish, PointAt, MarkHealthy, RefuseBefore;
    assert Active(policy, t) == Some(Current(policy, t));
    assert ActivationPlan(t, Current(policy, t), u, o).ending.ReturnsActive?;
  }

  lemma MarkRun(policy: Policy, t: Tree, u: Update, o: Options)
    requires PointerDir in t && o.migrated.Some?
    requires SlotDir(u.updateId) in t && t[SlotDir(u.updateId)] == StagedDir(u, Migration(o), false)
    ensures Run(t, MarkHealthy(u, o)) == t[SlotDir(u.updateId) := StagedDir(u, Migration(o), true)]
  {
    hide Until, Run, ViewOf, StagedDir;
    StagedIsUnmarked(u, Migration(o), o.stateUuid);
    MarkPhase(policy, t, u.updateId, NewRecord(u, Migration(o), true), o.stateUuid);
  }

  /** A first update that brings the installed version again. */
  predicate IsSameVersionRecovery(policy: Policy, b: Baseline, u: Update, o: Options)
  {
    var identity := Identity(b.version, b.channel, b.dataSchema);
    && BaselineIsAccepted(b) && |b.artifact| <= policy.maximumArtifactBytes
    && VerifiedUpdate(policy, u) && u.updateId != "baseline" && u.target == identity && Favours(policy, identity, |b.data|, u, o)
  }

  lemma RecoveredTree(policy: Policy, b: Baseline, u: Update, o: Options)
    requires IsSameVersionRecovery(policy, b, u, o)
    ensures var t, t' := InitialTree(b), Perform(policy, InitialTree(b), Apply(u, o, Cut(16, false)));
            && Bootable(policy, t) && Current(policy, t) == ActiveInstall(BaselineRecord(b), b.data, A, 1)
            && ApplyCompletes(policy, t, u, o) && t' == Run(t, ApplyPlan(policy, t, u, o).steps)
  {
    hide Run, RunCut, ApplyPlan, ApplyCompletes, ViewOf, Sound, InitialTree, Favours;
    InitialIsBootable(policy, b);
    FirstUpdateCompletes(policy, b, u, o);
    ApplyStops(policy, InitialTree(b), u, o);
    RunCutAll(InitialTree(b), ApplyPlan(policy, InitialTree(b), u, o).steps, Cut(16, false));
  }

  lemma RecoveredPlaces(policy: Policy, b: Baseline, u: Update, o: Options)
    requires IsSameVersionRecovery(policy, b, u, o)
    ensures var t' := Perform(policy, InitialTree(b), Apply(u, o, Cut(16, false)));
            && PointerDir in t' && t'[PointerDir].Keys == {"a.json", "b.json"}
            && forall p :: p in t' ==> p.PointerDir? || (p.SlotDir? && p.id in {"baseline", u.updateId})
  {
    hide Run, RunCut, ApplyPlan, ApplyCompletes, ViewOf, Sound, InitialTree, Favours, StagedDir, Perform;
    RecoveredTree(policy, b, u, o);
    InitialPointers(b);
    UpdatedTree(policy, InitialTree(b), u, o);
  }

  lemma RecoveredEntries(policy: Policy, b: Baseline, u: Update, o: Options)
    requires IsSameVersionRecovery(policy, b, u, o)
    ensures var t' := Perform(policy, InitialTree(b), Apply(u, o, Cut(16, false)));
            Bootable(policy, t') && forall name: PointerName :: HoldsIdentity(EntryAt(policy, t', name), u.target)
  {
    hide Run, RunCut, ApplyPlan, ApplyCompletes, EntryAt, InitialTree, Perform;
    RecoveredTree(policy, b, u, o);
    UpdatedView(policy, InitialTree(b), u, o);
    var t' := Perform(policy, InitialTree(b), Apply(u, o, Cut(16, false)));
    ActiveShape(policy, t');
    forall name: PointerName ensures HoldsIdentity(EntryAt(policy, t', name), u.target) {
      assert EntryAt(policy, t', name) == ViewOf(policy, t').At(name);
    }
  }

  /** A same-version recovery of a fresh installation leaves two installs to cycle between. */
  lemma RecoveredCycles(policy: Policy, b: Baseline, u: Update, o: Options)
    requires IsSameVersionRecovery(policy, b, u, o)
    ensures Cycling(policy, Perform(policy, InitialTree(b), Apply(u, o, Cut(16, false))), u.target, {"baseline", u.updateId})
  {
    hide Perform, InitialTree, EntryAt, Favours, Bootable;
    RecoveredPlaces(policy, b, u, o);
    RecoveredEntries(policy, b, u, o);
  }

  lemma InitialPointers(b: Baseline)
    ensures InitialTree(b).Keys == {SlotDir("baseline"), PointerDir} && InitialTree(b)[PointerDir].Keys == {"a.json"}
  {
  }

  lemma FavoursLess(policy: Policy, source: Identity, more: nat, less: nat, u: Update, o: Options)
    requires Favours(policy, source, more, u, o) && less <= more
    ensures Favours(policy, source, less, u, o)
  {
    assert (|u.artifact| + less) * policy.minimumFreeSpaceMultiplier <= (|u.artifact| + more) * policy.minimumFreeSpaceMultiplier;
  }

  lemma ActiveDataFits(policy: Policy, t: Tree)
    requires Bootable(policy, t)
    ensures |Current(policy, t).data| <= MAX_DATA_BYTES
  {
    hide ViewOf, Sound, Active;
    ActiveShape(policy, t);
  }

  lemma {:induction false} PerformJoins(policy: Policy, t: Tree, command: Command, commands: seq<Command>)
    requires Legal(policy, t, command) && LegalAll(policy, Perform(policy, t, command), commands)
    ensures LegalAll(policy, t, [command] + commands)
    ensures PerformAll(policy, t, [command] + commands) == PerformAll(policy, Perform(policy, t, command), commands)
  {
    hide Perform, Legal;
    assert ([command] + commands)[1..] == commands;
  }

  /**
   The failing input: a fresh installation, one same-version recovery and enough rollbacks reach
   the generation limit. A further update and a further rollback then complete, and the old install
   stays active.
   */
  lemma LimitIsReached(policy: Policy, b: Baseline, u: Update, o: Options, uuid: string, second: Update, again: Options)
    returns (commands: seq<Command>)
    requires IsSameVersionRecovery(policy, b, u, o)
    requires SupportedPath(b.version, b.version) in policy.supportedPaths
    requires VerifiedUpdate(policy, second) && second.updateId != "baseline" && second.updateId != u.updateId
    requires Favours(policy, u.target, MAX_DATA_BYTES, second, again)
    ensures LegalAll(policy, InitialTree(b), commands)
    ensures var t := PerformAll(policy, InitialTree(b), commands);
            && Bootable(policy, t) && Current(policy, t).generation == MAX_GENERATION
            && ApplyCompletes(policy, t, second, again)
            && Active(policy, Run(t, ApplyPlan(policy, t, second, again).steps)) == Active(policy, t)
            && RollbackCompletes(policy, t, uuid)
            && Active(policy, Run(t, RollbackPlan(policy, t, uuid).steps)) == Active(policy, t)
  {
    hide Run, RunCut, ApplyPlan, ApplyCompletes, RollbackPlan, RollbackCompletes, EntryAt, StagedDir, Sound, ViewOf, Perform, Favours;
    var identity := u.target;
    var first := Apply(u, o, Cut(16, false));
    RecoveredCycles(policy, b, u, o);
    var rest := CycleToLimit(policy, Perform(policy, InitialTree(b), first), identity, {"baseline", u.updateId}, uuid);
    commands := [first] + rest;
    PerformJoins(policy, InitialTree(b), first, rest);
    var t := PerformAll(policy, InitialTree(b), commands);
    CyclingAccepts(policy, t, identity, {"baseline", u.updateId}, second, again);
    var cut := Cut(|ApplyPlan(policy, t, second, again).steps|, false);
    RunCutAll(t, ApplyPlan(policy, t, second, again).steps, cut);
    ApplyIsCrashAtomic(policy, t, second, again, cut);
    LimitStopsRollback(policy, t, identity, {"baseline", u.updateId}, uuid);
  }

  /** At the limit a rollback between two installs completes without effect. */
  lemma LimitStopsRollback(policy: Policy, t: Tree, identity: Identity, slots: set<string>, uuid: string)
    requires Cycling(policy, t, identity, slots) && Current(policy, t).generation == MAX_GENERATION
    requires SupportedPath(identity.version, identity.version) in policy.supportedPaths
    ensures RollbackCompletes(policy, t, uuid)
    ensures Active(policy, Run(t, RollbackPlan(policy, t, uuid).steps)) == Active(policy, t)
  {
    hide Run, RunCut, RollbackPlan, RollbackCompletes, Sound, EntryAt, TemporaryIsTaken, ReadSlotDir;
    var c, steps := Current(policy, t), RollbackPlan(policy, t, uuid).steps;
    TemporaryIsFree(t, c.pointer.Other(), uuid);
    ActiveShape(policy, t);
    assert HoldsIdentity(EntryAt(policy, t, A), identity) && HoldsIdentity(EntryAt(policy, t, B), identity);
    RollbackNeeds(policy, t, uuid);
    var cut := Cut(|steps|, false);
    RunCutAll(t, steps, cut);
    RollbackIsCrashAtomic(policy, t, uuid, cut);
  }

  lemma CyclingAccepts(policy: Policy, t: Tree, identity: Identity, slots: set<string>, u: Update, o: Options)
    requires Cycling(policy, t, identity, slots) && u.updateId !in slots
    requires Favours(policy, identity, MAX_DATA_BYTES, u, o)
    ensures ApplyCompletes(policy, t, u, o)
  {
    hide ApplyCompletes, EntryAt, Sound, Favours, TemporaryIsTaken, ReadSlotDir;
    var c := Current(policy, t);
    ActiveShape(policy, t);
    ActiveDataFits(policy, t);
    FavoursLess(policy, identity, MAX_DATA_BYTES, |c.data|, u, o);
    TemporaryIsFree(t, c.pointer.Other(), o.pointerUuid);
    ActiveEntry(ViewOf(policy, t));
    assert HoldsIdentity(EntryAt(policy, t, A), identity) && HoldsIdentity(EntryAt(policy, t, B), identity);
    assert SlotDir(c.record.slotId) in t;
    ApplyNeeds(policy, t, u, o);
  }

  // ----- one concrete history -----

  lemma OneSplits()
    ensures Split("1.0.0", '.') == ["1", "0", "0"]
  {
    SplitAt("1", "0.0", '.');
    SplitAt("0", "0", '.');
    SplitPart("0", '.');
    assert "1" + ['.'] + "0.0" == "1.0.0" && "0" + ['.'] + "0" == "0.0";
  }

  lemma OneIsAVersion()
    ensures IsVersionText("1.0.0")
  {
    hide Split;
    OneSplits();
    assert IndexOf("1.0.0", '+') == -1 && IndexOf("1.0.0", '-') == -1;
  }

  /** With empty artifacts and data, version 1.0.0 throughout: the premises of `LimitIsReached` can be met. */
  lemma LimitIsReachedFromNothing() returns (policy: Policy, b: Baseline, commands: seq<Command>, u: Update, o: Options)
    ensures BaselineIsAccepted(b) && VerifiedUpdate(policy, u) && LegalAll(policy, InitialTree(b), commands)
    ensures var t := PerformAll(policy, InitialTree(b), commands);
            && Bootable(policy, t) && Current(policy, t).generation == MAX_GENERATION
            && ApplyCompletes(policy, t, u, o)
            && Active(policy, Run(t, ApplyPlan(policy, t, u, o).steps)) == Active(policy, t)
            && RollbackCompletes(policy, t, "r")
            && Active(policy, Run(t, RollbackPlan(policy, t, "r").steps)) == Active(policy, t)
  {
    hide Run, ApplyPlan, ApplyCompletes, RollbackPlan, RollbackCompletes, Bootable, PerformAll, LegalAll, IsVersionText, InitialTree, Active;
    OneIsAVersion();
    var identity := Identity("1.0.0", Stable, 0);
    policy := Policy(0, 0, [SupportedPath("1.0.0", "1.0.0")]);
    b := Baseline("1.0.0", Stable, [], [], 0);
    o := Options(0, None, Some(Migrated([], 0)), true, "p", "s");
    var first := Update("first", identity, identity, [], OfBytes([]));
    u := Update("second", identity, identity, [], OfBytes([]));
    commands := LimitIsReached(policy, b, first, o, "r", u, o);
  }
}
