/**
 The file operations that `apply`, `rollback` and `recover` perform, in order, and
 what stopping after any of them leaves behind.
 */
module UpdatePlans {
  import opened Wrappers
  import opened UpdateTree

  /** One file operation and the clean-up the source runs when that operation throws. */
  datatype Step = Step(op: FsOp, onError: seq<FsOp>)

  /** Where a call is stopped: after `at` operations, by a crash or by an I/O error. */
  datatype Cut = Cut(at: nat, ioError: bool)

  function Run(t: Tree, steps: seq<Step>): Tree
    decreases |steps|
  {
    if steps == [] then t else Run(Exec(t, steps[0].op), steps[1..])
  }

  /** The tree left by a call that is stopped; a stop past the end does nothing. */
  function RunCut(t: Tree, steps: seq<Step>, cut: Cut): Tree
    decreases |steps|
  {
    if steps == [] then t
    else if cut.at == 0 then (if cut.ioError then ExecAll(t, steps[0].onError) else t)
    else RunCut(Exec(t, steps[0].op), steps[1..], Cut(cut.at - 1, cut.ioError))
  }

  /** `writeFile` is not atomic: a crash can leave the file torn. */
  function CreateFile(place: Place, name: string, content: Content): (steps: seq<Step>)
    ensures |steps| == 2
  {
    [Step(WriteFile(place, name, Torn), []), Step(WriteFile(place, name, content), [])]
  }

  function TemporaryName(name: string, uuid: string): string { name + "." + uuid + ".tmp" }

  /** `replaceCanonical`: write a temporary file, unlink the old one, rename. */
  function ReplaceFile(place: Place, name: string, content: Content, uuid: string): (steps: seq<Step>)
    ensures |steps| == 4
  {
    var temporary := TemporaryName(name, uuid);
    var cleanUp := [UnlinkFile(place, temporary)];
    [ Step(WriteFile(place, temporary, Torn), cleanUp),
      Step(WriteFile(place, temporary, content), cleanUp),
      Step(UnlinkFile(place, name), cleanUp),
      Step(RenameFile(place, temporary, name), cleanUp) ]
  }

  // ----- apply -----

  datatype Identity = Identity(version: string, channel: Channel, dataSchema: int)

  datatype Update = Update(updateId: string, source: Identity, target: Identity, artifact: Bytes, artifactSha256: Digest)

  /** What `verifyUpdatePackage` has established of an update. */
  predicate VerifiedUpdate(policy: Policy, u: Update)
  {
    && IsSafeId(u.updateId) && IsVersionText(u.target.version) && 0 <= u.target.dataSchema <= MAX_SCHEMA
    && |u.artifact| <= policy.maximumArtifactBytes && u.artifactSha256 == OfBytes(u.artifact)
  }

  datatype Fault =
    | MigrationFailure | PermissionFailure | PostActivationHealthFailure
    | PreActivationInterruption | StagingInterruption

  datatype Migrated = Migrated(data: Bytes, dataSchema: int)

  /** `migrated` is what the callback returns, `None` if it throws; `healthy` the health check's answer. */
  datatype Options = Options(
    availableBytes: int, fault: Option<Fault>, migrated: Option<Migrated>, healthy: bool,
    pointerUuid: string, stateUuid: string)

  datatype Ending = Refuses(code: string) | Returns(install: ActiveInstall) | ReturnsActive

  datatype Plan = Plan(steps: seq<Step>, ending: Ending)

  predicate IsSafeInteger(n: int) { -9_007_199_254_740_991 <= n <= 9_007_199_254_740_991 }

  function NewRecord(u: Update, m: Migrated, healthy: bool): SlotRecord
  {
    SlotRecord(u.updateId, u.target.version, u.target.channel, u.artifactSha256, m.dataSchema, OfBytes(m.data), healthy)
  }

  function NewPointer(generation: int, slotId: string): PointerRecord
  {
    PointerRecord(generation, slotId, PointerChecksum(generation, slotId))
  }

  function StageArtifact(u: Update): (steps: seq<Step>)
    ensures |steps| == 3
  {
    [Step(MakeDir(StagingDir(u.updateId)), [])] + CreateFile(StagingDir(u.updateId), "app.bin", Blob(u.artifact))
  }

  function StageData(u: Update, m: Migrated): (steps: seq<Step>)
    ensures |steps| == 4
  {
    CreateFile(StagingDir(u.updateId), "data.bin", Blob(m.data))
    + CreateFile(StagingDir(u.updateId), "state.json", SlotState(NewRecord(u, m, false)))
  }

  function Publish(u: Update): (steps: seq<Step>)
    ensures |steps| == 1
  {
    [Step(RenameDir(StagingDir(u.updateId), SlotDir(u.updateId)), [])]
  }

  /** Renaming a directory over another one needs the other to be empty. */
  predicate SlotIsTaken(t: Tree, id: string) { SlotDir(id) in t && t[SlotDir(id)] != map[] }

  function RefuseBefore(policy: Policy, current: ActiveInstall, t: Tree, u: Update, o: Options): Option<Ending>
  {
    if current.record.slotId == u.updateId then
      if current.record.version == u.target.version && current.record.channel == u.target.channel
         && current.record.artifactSha256 == u.artifactSha256 && current.record.dataSchema == u.target.dataSchema
      then Some(Returns(current)) else Some(Refuses("update_id_conflict"))
    else if Identity(current.record.version, current.record.channel, current.record.dataSchema) != u.source then
      Some(Refuses("installed_source_mismatch"))
    else if !IsSafeInteger(o.availableBytes)
            || o.availableBytes < (|u.artifact| + |current.data|) * policy.minimumFreeSpaceMultiplier then
      Some(Refuses("insufficient_space"))
    else if o.fault == Some(PermissionFailure) then Some(Refuses("permission_denied"))
    else if StagingDir(u.updateId) in t then Some(Refuses("installation_failed"))
    else None
  }

  function RefuseMigration(u: Update, o: Options): Option<Ending>
  {
    if o.fault == Some(StagingInterruption) then Some(Refuses("installation_interrupted"))
    else if o.fault == Some(MigrationFailure) || o.migrated.None? then Some(Refuses("migration_failed"))
    else if o.migrated.value.dataSchema != u.target.dataSchema || |o.migrated.value.data| > MAX_DATA_BYTES then
      Some(Refuses("migration_result_invalid"))
    else None
  }

  function TemporaryIsTaken(t: Tree, name: PointerName, uuid: string): bool
  {
    PointerDir in t && TemporaryName(name.File(), uuid) in t[PointerDir]
  }

  /** The exclusive create throws, and the clean-up removes the file that was there. */
  function CollideWithTemporary(name: PointerName, uuid: string): (steps: seq<Step>)
    ensures |steps| == 1
  {
    [Step(UnlinkFile(PointerDir, TemporaryName(name.File(), uuid)), [])]
  }

  function ApplyPlan(policy: Policy, t: Tree, u: Update, o: Options): Plan
  {
    match Active(policy, t)
    case None => Plan([], Refuses("no_healthy_installation"))
    case Some(current) =>
      match RefuseBefore(policy, current, t, u, o)
      case Some(ending) => Plan([], ending)
      case None =>
        match RefuseMigration(u, o)
        case Some(ending) => Plan(StageArtifact(u), ending)
        case None =>
          var staged := StageArtifact(u) + StageData(u, o.migrated.value);
          if SlotIsTaken(t, u.updateId) then Plan(staged, Refuses("installation_failed"))
          else if o.fault == Some(PreActivationInterruption) then
            Plan(staged + Publish(u), Refuses("installation_interrupted"))
          else
            var activation := ActivationPlan(t, current, u, o);
            Plan(staged + Publish(u) + activation.steps, activation.ending)
  }

  /** From the published slot on: the new pointer, the health check, the healthy mark. */
  function ActivationPlan(t: Tree, current: ActiveInstall, u: Update, o: Options): (plan: Plan)
    requires o.migrated.Some?
    ensures plan.ending.ReturnsActive? ==> |plan.steps| == 8
  {
    if TemporaryIsTaken(t, current.pointer.Other(), o.pointerUuid) then
      Plan(CollideWithTemporary(current.pointer.Other(), o.pointerUuid), Refuses("installation_failed"))
    else if o.fault == Some(PostActivationHealthFailure) || !o.healthy then
      Plan(PointAt(current, u.updateId, o.pointerUuid), Refuses("startup_health_failed"))
    else
      Plan(PointAt(current, u.updateId, o.pointerUuid) + MarkHealthy(u, o), ReturnsActive)
  }

  /** Replaces the pointer that is not the active one. */
  function PointAt(current: ActiveInstall, slotId: string, uuid: string): (steps: seq<Step>)
    ensures |steps| == 4
  {
    ReplaceFile(PointerDir, current.pointer.Other().File(),
                Pointer(NewPointer(current.generation + 1, slotId)), uuid)
  }

  function MarkHealthy(u: Update, o: Options): (steps: seq<Step>)
    requires o.migrated.Some?
    ensures |steps| == 4
  {
    ReplaceFile(SlotDir(u.updateId), "state.json", SlotState(NewRecord(u, o.migrated.value, true)), o.stateUuid)
  }

  // ----- rollback -----

  function RollbackPlan(policy: Policy, t: Tree, uuid: string): Plan
  {
    var pointers := ValidPointers(ViewOf(policy, t));
    if |pointers| < 2 || pointers[1].entry.pointer.slotId == pointers[0].entry.pointer.slotId then
      Plan([], Refuses("rollback_unavailable"))
    else
      var current, previous := Install(pointers[0]), pointers[1].entry.slot.record;
      if SupportedPath(previous.version, current.record.version) !in policy.supportedPaths then
        Plan([], Refuses("rollback_unsupported"))
      else if TemporaryIsTaken(t, current.pointer.Other(), uuid) then
        Plan(CollideWithTemporary(current.pointer.Other(), uuid), Refuses("EEXIST"))
      else Plan(PointAt(current, previous.slotId, uuid), ReturnsActive)
  }

  // ----- recover -----

  /** Removing one file or one emptied directory that no valid pointer needs. */
  ghost predicate Cleans(policy: Policy, t: Tree, op: FsOp)
  {
    && (op.UnlinkFile? || op.RemoveDir?)
    && (op.place.StagingDir? || (op.place.SlotDir? && op.place.id !in ReferencedIn(ViewOf(policy, t))))
    && op.place in t
    && (op.UnlinkFile? ==> op.name in t[op.place])
    && (op.RemoveDir? ==> t[op.place] == map[])
  }

  /** Any order in which a recovery, complete or cut off, can go about its removals. */
  ghost predicate Recovery(policy: Policy, t: Tree, ops: seq<FsOp>)
    decreases |ops|
  {
    ops == [] || (Cleans(policy, t, ops[0]) && Recovery(policy, Exec(t, ops[0]), ops[1..]))
  }

  /** What a finished recovery leaves: no staging, and only the slots of valid pointers. */
  ghost predicate Clean(policy: Policy, t: Tree)
  {
    forall p :: p in t ==> p.PointerDir? || (p.SlotDir? && p.id in ReferencedIn(ViewOf(policy, t)))
  }

  // ----- steps whose every stopping point before the end shows one of a few views -----

  ghost predicate Shows(policy: Policy, t: Tree, views: set<View>) { PointerDir in t && ViewOf(policy, t) in views }

  ghost predicate Until(policy: Policy, t: Tree, steps: seq<Step>, views: set<View>)
    decreases |steps|
  {
    steps != [] ==>
      && Shows(policy, t, views)
      && Shows(policy, ExecAll(t, steps[0].onError), views)
      && Until(policy, Exec(t, steps[0].op), steps[1..], views)
  }

  lemma {:induction false} UntilAppend(policy: Policy, t: Tree, first: seq<Step>, second: seq<Step>, views: set<View>)
    requires Until(policy, t, first, views) && Until(policy, Run(t, first), second, views)
    ensures Until(policy, t, first + second, views)
    decreases |first|
  {
    if first == [] {
      assert first + second == second;
    } else {
      assert (first + second)[1..] == first[1..] + second;
      UntilAppend(policy, Exec(t, first[0].op), first[1..], second, views);
    }
  }

  lemma {:induction false} UntilMore(policy: Policy, t: Tree, steps: seq<Step>, views: set<View>, more: set<View>)
    requires Until(policy, t, steps, views) && views <= more
    ensures Until(policy, t, steps, more)
    decreases |steps|
  {
    if steps != [] {
      UntilMore(policy, Exec(t, steps[0].op), steps[1..], views, more);
    }
  }

  lemma {:induction false} UntilCut(policy: Policy, t: Tree, steps: seq<Step>, views: set<View>, cut: Cut)
    requires Until(policy, t, steps, views) && cut.at < |steps|
    ensures Shows(policy, RunCut(t, steps, cut), views)
    decreases |steps|
  {
    if cut.at > 0 {
      UntilCut(policy, Exec(t, steps[0].op), steps[1..], views, Cut(cut.at - 1, cut.ioError));
    }
  }

  lemma {:induction false} RunAppend(t: Tree, first: seq<Step>, second: seq<Step>)
    ensures Run(t, first + second) == Run(Run(t, first), second)
    decreases |first|
  {
    if first == [] {
      assert first + second == second;
    } else {
      assert (first + second)[1..] == first[1..] + second;
      RunAppend(Exec(t, first[0].op), first[1..], second);
    }
  }

  /** A stop either falls in the first part or leaves it complete. */
  lemma {:induction false} RunCutAppend(t: Tree, first: seq<Step>, second: seq<Step>, cut: Cut)
    ensures cut.at < |first| ==> RunCut(t, first + second, cut) == RunCut(t, first, cut)
    ensures cut.at >= |first| ==>
              RunCut(t, first + second, cut) == RunCut(Run(t, first), second, Cut(cut.at - |first|, cut.ioError))
    decreases |first|
  {
    if first == [] {
      assert first + second == second;
    } else {
      assert (first + second)[1..] == first[1..] + second;
      if cut.at > 0 {
        RunCutAppend(Exec(t, first[0].op), first[1..], second, Cut(cut.at - 1, cut.ioError));
      }
    }
  }

  lemma {:induction false} RunCutAll(t: Tree, steps: seq<Step>, cut: Cut)
    requires cut.at >= |steps|
    ensures RunCut(t, steps, cut) == Run(t, steps)
    decreases |steps|
  {
    if steps != [] {
      RunCutAll(Exec(t, steps[0].op), steps[1..], Cut(cut.at - 1, cut.ioError));
    }
  }
}
