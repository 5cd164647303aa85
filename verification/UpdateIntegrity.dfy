/**
 What is installed is exactly what its record's digests say: no damaged slot is ever active, and
 the active artifact is always the baseline's or that of an update of the history.
 */
module UpdateIntegrity {
  import opened Wrappers
  import opened UpdateTree
  import opened UpdatePlans
  import opened UpdateRecovery
  import opened UpdateRuns

  // ----- valid entries -----

  /** The directory holds what the record says: both files with their digests, within their bounds. */
  predicate IsIntact(policy: Policy, dir: Dir, r: SlotRecord, data: Bytes)
  {
    && "state.json" in dir && dir["state.json"] == SlotState(r)
    && "app.bin" in dir && dir["app.bin"].Blob? && OfBytes(dir["app.bin"].bytes) == r.artifactSha256
    && |dir["app.bin"].bytes| <= policy.maximumArtifactBytes
    && "data.bin" in dir && dir["data.bin"] == Blob(data) && OfBytes(data) == r.dataSha256 && |data| <= 1_048_576
    && IsSafeId(r.slotId) && IsVersionText(r.version) && 0 <= r.dataSchema <= 1_000_000
  }

  /** A pointer file with its checksum that names an intact, healthy slot of its own id. */
  predicate IsValidEntry(policy: Policy, t: Tree, name: PointerName, e: Entry)
  {
    var file := if name.A? then "a.json" else "b.json";
    var id := e.pointer.slotId;
    && PointerDir in t && file in t[PointerDir] && t[PointerDir][file] == Pointer(e.pointer)
    && 1 <= e.pointer.generation <= 1_000_000 && e.pointer.checksum == OfPointer(e.pointer.generation, id)
    && SlotDir(id) in t && IsIntact(policy, t[SlotDir(id)], e.slot.record, e.slot.data)
    && e.slot.record.slotId == id && e.slot.record.healthy
  }

  lemma ReadsExactly(policy: Policy, t: Tree, id: string, s: Installed)
    ensures ReadSlot(policy, t, id) == Some(s) <==>
              SlotDir(id) in t && IsIntact(policy, t[SlotDir(id)], s.record, s.data) && s.record.slotId == id
  {
    hide IsSafeId, IsVersionText;
  }

  /** A pointer is valid exactly when its slot is intact. */
  lemma ValidExactly(policy: Policy, t: Tree, name: PointerName, e: Entry)
    ensures EntryAt(policy, t, name) == Some(e) <==> IsValidEntry(policy, t, name, e)
  {
    hide IsIntact, IsSafeId, ReadSlot;
    ReadsExactly(policy, t, e.pointer.slotId, e.slot);
    if IsValidEntry(policy, t, name, e) { IntactIsSafe(policy, t[SlotDir(e.pointer.slotId)], e.slot.record, e.slot.data); }
    if EntryAt(policy, t, name) == Some(e) { EntryShape(policy, t, name); }
  }

  lemma IntactIsSafe(policy: Policy, dir: Dir, r: SlotRecord, data: Bytes)
    requires IsIntact(policy, dir, r, data)
    ensures IsSafeId(r.slotId)
  {
  }

  /** The active install is the valid entry with the highest generation, and there is none without a valid entry. */
  lemma ActiveExactly(policy: Policy, t: Tree)
    ensures Active(policy, t) == None <==> forall name, e :: !IsValidEntry(policy, t, name, e)
    ensures Active(policy, t).Some? ==>
              var c := Active(policy, t).value;
              exists e :: IsValidEntry(policy, t, c.pointer, e) && c == ActiveInstall(e.slot.record, e.slot.data, c.pointer, e.pointer.generation)
                && forall name, other :: IsValidEntry(policy, t, name, other) ==> other.pointer.generation <= c.generation
  {
    hide IsValidEntry, EntryAt;
    forall name: PointerName, e ensures EntryAt(policy, t, name) == Some(e) <==> IsValidEntry(policy, t, name, e) {
      ValidExactly(policy, t, name, e);
    }
    forall name: PointerName ensures EntryAt(policy, t, name) == ViewOf(policy, t).At(name) {
    }
    if Active(policy, t).Some? {
      var c := Active(policy, t).value;
      var e := ViewOf(policy, t).At(c.pointer).value;
      assert EntryAt(policy, t, c.pointer) == Some(e);
      assert IsValidEntry(policy, t, c.pointer, e);
      assert c == ActiveInstall(e.slot.record, e.slot.data, c.pointer, e.pointer.generation);
    }
    if EntryAt(policy, t, A).Some? { assert IsValidEntry(policy, t, A, EntryAt(policy, t, A).value); }
    if EntryAt(policy, t, B).Some? { assert IsValidEntry(policy, t, B, EntryAt(policy, t, B).value); }
  }

  /** Of two valid entries of one generation the first file's is active. */
  lemma TiesGoToTheFirst(policy: Policy, t: Tree, a: Entry, b: Entry)
    requires IsValidEntry(policy, t, A, a) && IsValidEntry(policy, t, B, b) && a.pointer.generation == b.pointer.generation
    ensures Active(policy, t).Some? && Active(policy, t).value.pointer == A
  {
    hide IsValidEntry, EntryAt;
    ValidExactly(policy, t, A, a);
    ValidExactly(policy, t, B, b);
  }

  // ----- damage -----

  /** A file of a slot that is no longer what it was. */
  predicate IsDamaged(dir: Dir, dir': Dir, file: string)
  {
    (file == "app.bin" || file == "data.bin") && file in dir && (file !in dir' || dir'[file] != dir[file])
    && "state.json" in dir && "state.json" in dir' && dir'["state.json"] == dir["state.json"]
  }

  /** Damage to either file of a slot makes every pointer to it invalid. */
  lemma DamageIsNoticed(policy: Policy, t: Tree, name: PointerName, dir': Dir, file: string)
    requires EntryAt(policy, t, name).Some?
    requires var id := EntryAt(policy, t, name).value.pointer.slotId; SlotDir(id) in t && IsDamaged(t[SlotDir(id)], dir', file)
    ensures var id := EntryAt(policy, t, name).value.pointer.slotId; EntryAt(policy, t[SlotDir(id) := dir'], name) == None
  {
    hide EntryAt;
    var e := EntryAt(policy, t, name).value;
    var t' := t[SlotDir(e.pointer.slotId) := dir'];
    ValidExactly(policy, t, name, e);
    if EntryAt(policy, t', name).Some? {
      ValidExactly(policy, t', name, EntryAt(policy, t', name).value);
    }
  }

  /** The installation falls back to the other valid entry, and has no active install without one. */
  lemma DamageFallsBack(policy: Policy, t: Tree, dir': Dir, file: string)
    requires Bootable(policy, t)
    requires var id := Current(policy, t).record.slotId; SlotDir(id) in t && IsDamaged(t[SlotDir(id)], dir', file)
    ensures var c := Current(policy, t);
            var other := ViewOf(policy, t).At(c.pointer.Other());
            Active(policy, t[SlotDir(c.record.slotId) := dir']) ==
              if other.None? then None
              else Some(ActiveInstall(other.value.slot.record, other.value.slot.data, c.pointer.Other(), other.value.pointer.generation))
  {
    hide EntryAt, IsDamaged;
    var c := Current(policy, t);
    var t' := t[SlotDir(c.record.slotId) := dir'];
    ActiveShape(policy, t);
    DamageIsNoticed(policy, t, c.pointer, dir', file);
    OtherNamesAnother(policy, t);
    assert EntryAt(policy, t', c.pointer.Other()) == EntryAt(policy, t, c.pointer.Other()) by {
      OtherSlotReads(policy, t, t', c.pointer.Other(), c.record.slotId);
    }
  }

  /** The other pointer file, valid or not, does not name the active slot. */
  lemma OtherNamesAnother(policy: Policy, t: Tree)
    requires Bootable(policy, t)
    ensures var c := Current(policy, t);
            PointerAt(t, c.pointer.Other()).Some? ==> PointerAt(t, c.pointer.Other()).value.slotId != c.record.slotId
  {
    hide ReadSlotDir, PointerAt;
    ActiveShape(policy, t);
  }

  lemma OtherSlotReads(policy: Policy, t: Tree, t': Tree, name: PointerName, id: string)
    requires PointerDir in t && PointerDir in t' && t[PointerDir] == t'[PointerDir]
    requires forall p :: p != SlotDir(id) ==> (p in t <==> p in t') && (p in t ==> t[p] == t'[p])
    requires PointerAt(t, name).Some? ==> PointerAt(t, name).value.slotId != id
    ensures EntryAt(policy, t', name) == EntryAt(policy, t, name)
  {
    hide ReadSlotDir, PointerParses, IsSafeId;
  }

  // ----- where the active install comes from -----

  /** The record is the baseline's, or that of an update of the history with its migrated data. */
  ghost predicate ComesFrom(b: Baseline, commands: seq<Command>, r: SlotRecord)
  {
    || r == SlotRecord("baseline", b.version, b.channel, OfBytes(b.artifact), b.dataSchema, OfBytes(b.data), true)
    || exists i :: 0 <= i < |commands| && IsUpdateTo(commands[i], r)
  }

  predicate IsUpdateTo(command: Command, r: SlotRecord)
  {
    command.Apply? && command.o.migrated.Some?
    && var u, m := command.u, command.o.migrated.value;
    r == SlotRecord(u.updateId, u.target.version, u.target.channel, OfBytes(u.artifact), m.dataSchema, OfBytes(m.data), true)
  }

  ghost predicate AllComeFrom(b: Baseline, commands: seq<Command>, v: View)
  {
    && (v.a.Some? ==> ComesFrom(b, commands, v.a.value.slot.record))
    && (v.b.Some? ==> ComesFrom(b, commands, v.b.value.slot.record))
  }

  /** The views that an update can leave. */
  lemma ViewsAfterApply(policy: Policy, t: Tree, u: Update, o: Options, cut: Cut)
    requires Bootable(policy, t) && VerifiedUpdate(policy, u)
    ensures var v, c := ViewOf(policy, t), Current(policy, t);
            var v' := ViewOf(policy, Perform(policy, t, Apply(u, o, cut)));
            v' in OldViews(v) || (o.migrated.Some? && v' == v.With(c.pointer.Other(), Some(NewEntry(c, u, o.migrated.value))))
  {
    hide Until, Run, RunCut, ViewOf, ApplyPlan, NewEntry;
    var steps := ApplyPlan(policy, t, u, o).steps;
    ApplyStops(policy, t, u, o);
    if cut.at < |steps| {
      UntilCut(policy, t, steps, OldViews(ViewOf(policy, t)), cut);
    } else {
      RunCutAll(t, steps, cut);
    }
  }

  /** The views that a rollback can leave. */
  lemma ViewsAfterRollback(policy: Policy, t: Tree, uuid: string, cut: Cut)
    requires Bootable(policy, t)
    ensures var v, c := ViewOf(policy, t), Current(policy, t);
            var v', other := ViewOf(policy, Perform(policy, t, Rollback(uuid, cut))), c.pointer.Other();
            v' in OldViews(v)
            || (v.At(other).Some? && v' == v.With(other,
                  Some(Entry(NewPointer(c.generation + 1, v.At(other).value.pointer.slotId), v.At(other).value.slot))))
  {
    hide Until, Run, RunCut, ViewOf, RollbackPlan;
    var steps := RollbackPlan(policy, t, uuid).steps;
    RollbackStops(policy, t, uuid);
    if cut.at < |steps| {
      UntilCut(policy, t, steps, OldViews(ViewOf(policy, t)), cut);
    } else {
      RunCutAll(t, steps, cut);
    }
  }

  lemma ComesFromMore(b: Baseline, past: seq<Command>, command: Command, r: SlotRecord)
    ensures ComesFrom(b, past, r) || IsUpdateTo(command, r) ==> ComesFrom(b, past + [command], r)
  {
    var more := past + [command];
    if i: int :| 0 <= i < |past| && IsUpdateTo(past[i], r) { assert more[i] == past[i]; }
    assert more[|past|] == command;
  }

  lemma StepComesFrom(policy: Policy, t: Tree, b: Baseline, past: seq<Command>, command: Command)
    requires Bootable(policy, t) && Legal(policy, t, command) && AllComeFrom(b, past, ViewOf(policy, t))
    ensures AllComeFrom(b, past + [command], ViewOf(policy, Perform(policy, t, command)))
  {
    hide RunCut, ViewOf, ApplyPlan, RollbackPlan, Sound, ComesFrom, ExecAll;
    var v := ViewOf(policy, t);
    forall r ensures ComesFrom(b, past, r) || IsUpdateTo(command, r) ==> ComesFrom(b, past + [command], r) {
      ComesFromMore(b, past, command, r);
    }
    match command
    case Apply(u, o, cut) => ViewsAfterApply(policy, t, u, o, cut);
    case Rollback(uuid, cut) => ViewsAfterRollback(policy, t, uuid, cut);
    case Recover(ops) => RecoveryKeepsView(policy, t, ops);
  }

  lemma {:induction false} RunComesFrom(policy: Policy, t: Tree, b: Baseline, past: seq<Command>, commands: seq<Command>)
    requires Bootable(policy, t) && LegalAll(policy, t, commands) && AllComeFrom(b, past, ViewOf(policy, t))
    ensures AllComeFrom(b, past + commands, ViewOf(policy, PerformAll(policy, t, commands)))
    decreases |commands|
  {
    hide Bootable, Perform, Legal, AllComeFrom, ViewOf;
    if commands == [] {
      assert past + commands == past;
    } else {
      StepComesFrom(policy, t, b, past, commands[0]);
      PerformKeepsBootable(policy, t, commands[0]);
      RunComesFrom(policy, Perform(policy, t, commands[0]), b, past + [commands[0]], commands[1..]);
      assert past + [commands[0]] + commands[1..] == past + commands;
    }
  }

  /**
   After any history of complete and interrupted calls the active slot holds the files whose digests
   its record carries, and its artifact is the baseline's or that of an update of the history.
   */
  lemma ActiveIsIntact(policy: Policy, b: Baseline, commands: seq<Command>)
    requires BaselineIsAccepted(b) && |b.artifact| <= policy.maximumArtifactBytes
    requires LegalAll(policy, InitialTree(b), commands)
    ensures var t := PerformAll(policy, InitialTree(b), commands);
            && Bootable(policy, t) && var c := Current(policy, t);
            && SlotDir(c.record.slotId) in t && IsIntact(policy, t[SlotDir(c.record.slotId)], c.record, c.data)
            && var artifact := t[SlotDir(c.record.slotId)]["app.bin"];
            || (c.record.slotId == "baseline" && c.record.version == b.version && artifact == Blob(b.artifact) && c.data == b.data)
            || exists i :: 0 <= i < |commands| && IsUpdateTo(commands[i], c.record)
                 && artifact == Blob(commands[i].u.artifact) && c.data == commands[i].o.migrated.value.data
  {
    hide InitialTree, PerformAll, LegalAll, Bootable, IsSafeId, IsVersionText, BaselineRecord, EntryAt, Sound;
    var start, t := InitialTree(b), PerformAll(policy, InitialTree(b), commands);
    BootsAfterInitialize(policy, b, commands);
    InitialComesFrom(policy, b);
    InitialIsBootable(policy, b);
    RunComesFrom(policy, start, b, [], commands);
    assert [] + commands == commands;
    var c := Current(policy, t);
    ActiveShape(policy, t);
    ReadsExactly(policy, t, c.record.slotId, Installed(c.record, c.data));
    assert ComesFrom(b, commands, c.record);
  }

  lemma InitialComesFrom(policy: Policy, b: Baseline)
    requires BaselineIsAccepted(b)
    ensures AllComeFrom(b, [], ViewOf(policy, InitialTree(b)))
  {
    hide EntryAt, InitialTree;
    InitialEntries(policy, b);
  }
}
