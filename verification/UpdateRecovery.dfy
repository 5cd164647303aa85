/**
 Crash safety of the dual-slot updater: an installation stays bootable, and stays the
 same until the very last file operation, wherever a call is stopped.
 */
module UpdateRecovery {
  import opened Wrappers
  import opened UpdateTree
  import opened UpdatePlans

  // ----- views -----

  /** The active entry and the other one. */
  lemma ActiveEntry(v: View)
    requires Sound(v)
    ensures ActiveOf(v).Some?
    ensures var c := ActiveOf(v).value;
            && v.At(c.pointer).Some?
            && v.At(c.pointer).value.slot == Installed(c.record, c.data)
            && v.At(c.pointer).value.pointer.generation == c.generation
            && (v.At(c.pointer.Other()).Some? ==> v.At(c.pointer.Other()).value.pointer.generation < c.generation)
  {
  }

  /** Losing the pointer that is not active changes nothing. */
  lemma DroppedView(v: View)
    requires Sound(v)
    ensures var c := ActiveOf(v).value;
            var dropped := v.With(c.pointer.Other(), None);
            Sound(dropped) && ActiveOf(dropped) == Some(c)
  {
  }

  /** A newer entry in that place, with another slot, becomes the active one. */
  lemma RaisedView(v: View, e: Entry)
    requires Sound(v)
    requires e.pointer.generation > ActiveOf(v).value.generation
    requires e.pointer.slotId != v.At(ActiveOf(v).value.pointer).value.pointer.slotId
    ensures var other := ActiveOf(v).value.pointer.Other();
            Sound(v.With(other, Some(e))) && ActiveOf(v.With(other, Some(e))) == Some(Install(Named(other, e)))
  {
  }

  // ----- the phases of apply -----

  function StagedDir(u: Update, m: Migrated, healthy: bool): Dir
  {
    map["app.bin" := Blob(u.artifact), "data.bin" := Blob(m.data), "state.json" := SlotState(NewRecord(u, m, healthy))]
  }

  lemma RunTwo(t: Tree, a: Step, b: Step)
    ensures Run(t, [a, b]) == Exec(Exec(t, a.op), b.op)
  {
    assert [a, b][1..] == [b] && [b][1..] == [];
    assert Run(Exec(t, a.op), [b]) == Exec(Exec(t, a.op), b.op);
  }

  /** Creating a file writes it twice, the first time torn. */
  lemma CreateRun(t: Tree, place: Place, name: string, content: Content)
    requires place in t
    ensures Run(t, CreateFile(place, name, content)) == t[place := t[place][name := content]]
  {
    var steps := CreateFile(place, name, content);
    RunTwo(t, steps[0], steps[1]);
    var t1 := Exec(t, steps[0].op);
    var t2 := Exec(t1, steps[1].op);
    assert t1[place][name := content] == t[place][name := content];
    assert t2 == t[place := t[place][name := content]];
  }

  lemma StageArtifactRun(t: Tree, u: Update)
    requires StagingDir(u.updateId) !in t
    ensures Run(t, StageArtifact(u)) == t[StagingDir(u.updateId) := map["app.bin" := Blob(u.artifact)]]
  {
    var w := StagingDir(u.updateId);
    var make := [Step(MakeDir(w), [])];
    RunAppend(t, make, CreateFile(w, "app.bin", Blob(u.artifact)));
    assert make[1..] == [];
    assert Run(t, make) == t[w := map[]];
    CreateRun(t[w := map[]], w, "app.bin", Blob(u.artifact));
    assert map[]["app.bin" := Blob(u.artifact)] == map["app.bin" := Blob(u.artifact)];
  }

  lemma StageDataRun(t: Tree, u: Update, m: Migrated)
    requires StagingDir(u.updateId) in t && t[StagingDir(u.updateId)] == map["app.bin" := Blob(u.artifact)]
    ensures Run(t, StageData(u, m)) == t[StagingDir(u.updateId) := StagedDir(u, m, false)]
  {
    var w := StagingDir(u.updateId);
    var data, state := Blob(m.data), SlotState(NewRecord(u, m, false));
    RunAppend(t, CreateFile(w, "data.bin", data), CreateFile(w, "state.json", state));
    CreateRun(t, w, "data.bin", data);
    var t1 := t[w := t[w]["data.bin" := data]];
    CreateRun(t1, w, "state.json", state);
    assert t1[w]["state.json" := state] == StagedDir(u, m, false);
  }

  lemma StagingPhase(policy: Policy, t: Tree, u: Update, m: Migrated)
    requires PointerDir in t && StagingDir(u.updateId) !in t
    ensures Until(policy, t, StageArtifact(u) + StageData(u, m), {ViewOf(policy, t)})
    ensures Run(t, StageArtifact(u) + StageData(u, m)) == t[StagingDir(u.updateId) := StagedDir(u, m, false)]
  {
    StagingSteps(policy, t, StageArtifact(u) + StageData(u, m));
    RunAppend(t, StageArtifact(u), StageData(u, m));
    StageArtifactRun(t, u);
    StageDataRun(t[StagingDir(u.updateId) := map["app.bin" := Blob(u.artifact)]], u, m);
  }

  ghost predicate StagingOnly(steps: seq<Step>)
  {
    forall i :: 0 <= i < |steps| ==>
      (steps[i].op.MakeDir? || steps[i].op.WriteFile?) && steps[i].op.place.StagingDir? && steps[i].onError == []
  }

  lemma {:induction false} StagingSteps(policy: Policy, t: Tree, steps: seq<Step>)
    requires PointerDir in t && StagingOnly(steps)
    ensures Until(policy, t, steps, {ViewOf(policy, t)}) && Shows(policy, Run(t, steps), {ViewOf(policy, t)})
    decreases |steps|
  {
    if steps != [] {
      StagingIsInvisible(policy, t, steps[0].op);
      StagingSteps(policy, Exec(t, steps[0].op), steps[1..]);
    }
  }

  lemma StagedReads(policy: Policy, u: Update, m: Migrated, healthy: bool)
    requires VerifiedUpdate(policy, u) && m.dataSchema == u.target.dataSchema && |m.data| <= MAX_DATA_BYTES
    ensures ReadSlotDir(policy, u.updateId, StagedDir(u, m, healthy)) == Some(Installed(NewRecord(u, m, healthy), m.data))
  {
  }

  /** Publishing the staged slot shows nothing: it is not healthy yet. */
  lemma PublishPhase(policy: Policy, t: Tree, u: Update, m: Migrated)
    requires PointerDir in t && StagingDir(u.updateId) !in t && !SlotIsTaken(t, u.updateId)
    ensures var staged := t[StagingDir(u.updateId) := StagedDir(u, m, false)];
            var published := t[SlotDir(u.updateId) := StagedDir(u, m, false)];
            && Until(policy, staged, Publish(u), {ViewOf(policy, t)})
            && Run(staged, Publish(u)) == published
            && Shows(policy, published, {ViewOf(policy, t)})
  {
    var staged := t[StagingDir(u.updateId) := StagedDir(u, m, false)];
    var published := t[SlotDir(u.updateId) := StagedDir(u, m, false)];
    SameEntry(policy, t, staged, A);
    SameEntry(policy, t, staged, B);
    assert Exec(staged, Publish(u)[0].op) == published;
    assert Publish(u)[1..] == [];
    UnmarkedIsDead(policy, u.updateId, StagedDir(u, m, false));
    UnmarkedIsDead(policy, u.updateId, map[]);
    DeadSlotIsInvisible(policy, t, published, u.updateId);
  }

  lemma TemporaryIsNoPointer(name: string, uuid: string)
    requires |name| >= 6
    ensures TemporaryName(name, uuid) != A.File() && TemporaryName(name, uuid) != B.File()
    ensures TemporaryName(name, uuid) != name
  {
    assert |TemporaryName(name, uuid)| >= |name| + 5;
  }

  /** Four steps, from the trees they pass through. */
  lemma ReplaceUntil(policy: Policy, t: Tree, steps: seq<Step>, cleanUp: FsOp, t1: Tree, t2: Tree, t3: Tree, views: set<View>)
    requires |steps| == 4 && t1 == Exec(t, steps[0].op) && t2 == Exec(t1, steps[1].op) && t3 == Exec(t2, steps[2].op)
    requires forall i :: 0 <= i < 4 ==> steps[i].onError == [cleanUp]
    requires Shows(policy, t, views) && Shows(policy, t1, views) && Shows(policy, t2, views) && Shows(policy, t3, views)
    requires Shows(policy, Exec(t, cleanUp), views) && Shows(policy, Exec(t1, cleanUp), views)
    requires Shows(policy, Exec(t2, cleanUp), views) && Shows(policy, Exec(t3, cleanUp), views)
    ensures Until(policy, t, steps, views)
    ensures Run(t, steps) == Exec(t3, steps[3].op)
  {
    var one, two, three := steps[1..], steps[1..][1..], steps[1..][1..][1..];
    assert three == [steps[3]] && three[1..] == [] && two[0] == steps[2] && one[0] == steps[1];
    assert Run(t3, three) == Exec(t3, steps[3].op);
    assert Run(t2, two) == Exec(t3, steps[3].op);
    assert Run(t1, one) == Exec(t3, steps[3].op);
    CleanUpRuns(t, cleanUp);
    CleanUpRuns(t1, cleanUp);
    CleanUpRuns(t2, cleanUp);
    CleanUpRuns(t3, cleanUp);
    assert Until(policy, Exec(t3, steps[3].op), three[1..], views);
    assert Until(policy, t3, three, views);
    assert Until(policy, t2, two, views);
    assert Until(policy, t1, one, views);
  }

  lemma CleanUpRuns(t: Tree, op: FsOp)
    ensures ExecAll(t, [op]) == Exec(t, op)
  {
    assert [op][1..] == [];
  }

  /** The trees of a replacement, away from every reader. */
  lemma ReplaceTrees(t: Tree, place: Place, name: string, content: Content, uuid: string)
    requires place in t && |name| >= 6
    ensures var steps := ReplaceFile(place, name, content, uuid);
            var temporary := TemporaryName(name, uuid);
            var t1 := Exec(t, steps[0].op);
            var t2 := Exec(t1, steps[1].op);
            var t3 := Exec(t2, steps[2].op);
            && t1 == t[place := t[place][temporary := Torn]]
            && t2 == t[place := t[place][temporary := content]]
            && t3 == t[place := t[place][temporary := content] - {name}]
            && temporary != name
            && Exec(t3, steps[3].op) == t[place := (t[place] - {temporary})[name := content]]
  {
    var steps := ReplaceFile(place, name, content, uuid);
    var temporary := TemporaryName(name, uuid);
    assert |temporary| >= |name| + 5;
    var d := t[place];
    assert d[temporary := Torn][temporary := content] == d[temporary := content];
    var d3 := d[temporary := content] - {name};
    assert (d3 - {temporary})[name := d3[temporary]] == (d - {temporary})[name := content];
  }

  /** The stopping points of a pointer replacement. */
  lemma PointStops(policy: Policy, t: Tree, name: PointerName, p: PointerRecord, uuid: string)
    requires PointerDir in t
    ensures var steps := ReplaceFile(PointerDir, name.File(), Pointer(p), uuid);
            var v := ViewOf(policy, t);
            var t3 := t[PointerDir := t[PointerDir][TemporaryName(name.File(), uuid) := Pointer(p)] - {name.File()}];
            && Until(policy, t, steps, {v, v.With(name, None)})
            && ViewOf(policy, t3) == v.With(name, None)
            && Run(t, steps) == Exec(t3, RenameFile(PointerDir, TemporaryName(name.File(), uuid), name.File()))
  {
    var steps := ReplaceFile(PointerDir, name.File(), Pointer(p), uuid);
    var v := ViewOf(policy, t);
    TemporaryIsNoPointer(name.File(), uuid);
    ReplaceTrees(t, PointerDir, name.File(), Pointer(p), uuid);
    var cleanUp := UnlinkFile(PointerDir, TemporaryName(name.File(), uuid));
    var t1 := Exec(t, steps[0].op);
    var t2 := Exec(t1, steps[1].op);
    var t3 := Exec(t2, steps[2].op);
    OtherPointerFileIsInvisible(policy, t, steps[0].op);
    OtherPointerFileIsInvisible(policy, t1, steps[1].op);
    UnlinkPointer(policy, t2, name);
    OtherPointerFileIsInvisible(policy, t, cleanUp);
    OtherPointerFileIsInvisible(policy, t1, cleanUp);
    OtherPointerFileIsInvisible(policy, t2, cleanUp);
    OtherPointerFileIsInvisible(policy, t3, cleanUp);
    ReplaceUntil(policy, t, steps, cleanUp, t1, t2, t3, {v, v.With(name, None)});
  }

  /** The entry that a pointer record would be, were it installed. */
  function Candidate(policy: Policy, t: Tree, p: PointerRecord): Option<Entry>
  {
    var s := ReadSlot(policy, t, p.slotId);
    if PointerParses(p) && s.Some? && s.value.record.healthy then Some(Entry(p, s.value)) else None
  }

  /**
   Replacing a pointer: every stop before the last operation shows the old view, or it
   without that pointer; the last one installs the new pointer.
   */
  lemma PointPhase(policy: Policy, t: Tree, name: PointerName, p: PointerRecord, uuid: string)
    requires PointerDir in t
    ensures var steps := ReplaceFile(PointerDir, name.File(), Pointer(p), uuid);
            var v := ViewOf(policy, t);
            var t' := Run(t, steps);
            && Until(policy, t, steps, {v, v.With(name, None)})
            && PointerDir in t'
            && ViewOf(policy, t') == v.With(name, Candidate(policy, t, p))
            && PointerAt(t', name) == (if PointerParses(p) then Some(p) else None)
            && PointerAt(t', name.Other()) == PointerAt(t, name.Other())
            && (forall q :: q != PointerDir ==> (q in t <==> q in t') && (q in t ==> t[q] == t'[q]))
  {
    hide Until, Run, Exec, ReplaceFile, ReadSlotDir, PointerParses, EntryAt;
    var v := ViewOf(policy, t);
    var temporary := TemporaryName(name.File(), uuid);
    TemporaryIsNoPointer(name.File(), uuid);
    PointStops(policy, t, name, p, uuid);
    var t3 := t[PointerDir := t[PointerDir][temporary := Pointer(p)] - {name.File()}];
    RenamePointer(policy, t3, name, temporary, p);
    assert PointerAt(t3, name.Other()) == PointerAt(t, name.Other());
    assert Candidate(policy, t3, p) == Candidate(policy, t, p);
    assert v.With(name, None).With(name, Candidate(policy, t, p)) == v.With(name, Candidate(policy, t, p));
  }

  ghost predicate Unmarked(dir: Dir)
  {
    "state.json" in dir ==> dir["state.json"].SlotState? && !dir["state.json"].slot.healthy
  }

  /** A slot whose record is missing, or still says unhealthy, is dead. */
  lemma UnmarkedIsDead(policy: Policy, id: string, dir: Dir)
    requires Unmarked(dir)
    ensures Dead(ReadSlotDir(policy, id, dir))
  {
  }

  /** Changing files of an unmarked slot shows nothing. */
  lemma UnmarkedSlot(policy: Policy, t: Tree, id: string, dir: Dir)
    requires PointerDir in t && SlotDir(id) in t && Unmarked(t[SlotDir(id)]) && Unmarked(dir)
    ensures Shows(policy, t[SlotDir(id) := dir], {ViewOf(policy, t)})
  {
    UnmarkedIsDead(policy, id, t[SlotDir(id)]);
    UnmarkedIsDead(policy, id, dir);
    DeadSlotIsInvisible(policy, t, t[SlotDir(id) := dir], id);
  }

  /** Marking a slot healthy: no stop before the last operation shows it. */
  lemma MarkPhase(policy: Policy, t: Tree, id: string, r: SlotRecord, uuid: string)
    requires PointerDir in t && SlotDir(id) in t && "state.json" in t[SlotDir(id)] && Unmarked(t[SlotDir(id)])
    requires TemporaryName("state.json", uuid) !in t[SlotDir(id)]
    ensures var steps := ReplaceFile(SlotDir(id), "state.json", SlotState(r), uuid);
            && Until(policy, t, steps, {ViewOf(policy, t)})
            && Run(t, steps) == t[SlotDir(id) := t[SlotDir(id)]["state.json" := SlotState(r)]]
  {
    var place := SlotDir(id);
    var steps := ReplaceFile(place, "state.json", SlotState(r), uuid);
    var temporary := TemporaryName("state.json", uuid);
    ReplaceTrees(t, place, "state.json", SlotState(r), uuid);
    var d := t[place];
    var cleanUp := UnlinkFile(place, temporary);
    var t1 := t[place := d[temporary := Torn]];
    var t2 := t[place := d[temporary := SlotState(r)]];
    var d3 := d[temporary := SlotState(r)] - {"state.json"};
    var t3 := t[place := d3];
    assert d - {temporary} == d && d[temporary := Torn] - {temporary} == d && d[temporary := SlotState(r)] - {temporary} == d;
    assert Exec(t, cleanUp) == t && Exec(t1, cleanUp) == t && Exec(t2, cleanUp) == t;
    assert Exec(t3, cleanUp) == t[place := d3 - {temporary}];
    UnmarkedSlot(policy, t, id, d[temporary := Torn]);
    UnmarkedSlot(policy, t, id, d[temporary := SlotState(r)]);
    UnmarkedSlot(policy, t, id, d3);
    UnmarkedSlot(policy, t, id, d3 - {temporary});
    ReplaceUntil(policy, t, steps, cleanUp, t1, t2, t3, {ViewOf(policy, t)});
  }

  // ----- apply -----

  /** The active install of a bootable tree. */
  ghost function Current(policy: Policy, t: Tree): (c: ActiveInstall)
    requires Bootable(policy, t)
    ensures Active(policy, t) == Some(c)
  {
    Active(policy, t).value
  }

  /** The outcome of the migration callback. */
  function Migration(o: Options): Migrated { if o.migrated.Some? then o.migrated.value else Migrated([], 0) }

  /** What a successful update installs: the migrated copy of the data, one generation up. */
  function NewInstall(current: ActiveInstall, u: Update, m: Migrated): ActiveInstall
  {
    ActiveInstall(NewRecord(u, m, true), m.data, current.pointer.Other(), current.generation + 1)
  }

  /** The view before a call, and the same after the inactive pointer was unlinked. */
  function OldViews(v: View): set<View>
    requires ActiveOf(v).Some?
  {
    {v, v.With(ActiveOf(v).value.pointer.Other(), None)}
  }

  lemma OldViewsKeepActive(policy: Policy, t: Tree, v: View)
    requires Sound(v) && ActiveOf(v).Some? && Shows(policy, t, OldViews(v))
    ensures Bootable(policy, t) && Active(policy, t) == ActiveOf(v)
  {
    DroppedView(v);
  }

  /** The update passes every check before its first operation and after its migration. */
  ghost predicate Proceeds(policy: Policy, t: Tree, u: Update, o: Options)
  {
    && Bootable(policy, t) && VerifiedUpdate(policy, u) && Active(policy, t).Some?
    && RefuseBefore(policy, Active(policy, t).value, t, u, o).None? && RefuseMigration(u, o).None?
    && !SlotIsTaken(t, u.updateId)
  }

  /** Staging and publishing show nothing new. */
  lemma PublishedPhase(policy: Policy, t: Tree, u: Update, o: Options)
    requires Proceeds(policy, t, u, o)
    ensures var m, v := o.migrated.value, ViewOf(policy, t);
            var staged := StageArtifact(u) + StageData(u, m);
            var published := t[SlotDir(u.updateId) := StagedDir(u, m, false)];
            && Until(policy, t, staged, OldViews(v)) && Shows(policy, Run(t, staged), OldViews(v))
            && Until(policy, t, staged + Publish(u), OldViews(v))
            && Run(t, staged + Publish(u)) == published
            && PointerDir in published && ViewOf(policy, published) == v
  {
    var m, v := o.migrated.value, ViewOf(policy, t);
    var staged := StageArtifact(u) + StageData(u, m);
    StagingPhase(policy, t, u, m);
    PublishPhase(policy, t, u, m);
    UntilMore(policy, t, staged, {v}, OldViews(v));
    UntilMore(policy, Run(t, staged), Publish(u), {v}, OldViews(v));
    UntilAppend(policy, t, staged, Publish(u), OldViews(v));
    RunAppend(t, staged, Publish(u));
  }

  lemma ActiveShape(policy: Policy, t: Tree)
    requires Bootable(policy, t)
    ensures Active(policy, t).Some?
    ensures var c := Active(policy, t).value;
            1 <= c.generation <= MAX_GENERATION && c.record.healthy && IsSafeId(c.record.slotId)
            && ReadSlot(policy, t, c.record.slotId) == Some(Installed(c.record, c.data))
            && ViewOf(policy, t).At(c.pointer) ==
                 Some(Entry(NewPointer(c.generation, c.record.slotId), Installed(c.record, c.data)))
  {
    ActiveEntry(ViewOf(policy, t));
    EntryShape(policy, t, Active(policy, t).value.pointer);
  }

  /** Replacing the inactive pointer by one to a slot, one generation up. */
  lemma PointAtPhase(policy: Policy, t: Tree, c: ActiveInstall, id: string, uuid: string)
    requires PointerDir in t && c.generation >= 1 && IsSafeId(id)
    ensures var t' := Run(t, PointAt(c, id, uuid));
            var v, other := ViewOf(policy, t), c.pointer.Other();
            var p := NewPointer(c.generation + 1, id);
            && Until(policy, t, PointAt(c, id, uuid), {v, v.With(other, None)})
            && PointerDir in t' && ViewOf(policy, t') == v.With(other, Candidate(policy, t, p))
            && PointerAt(t', other) == (if c.generation < MAX_GENERATION then Some(p) else None)
            && (forall q :: q != PointerDir ==> (q in t <==> q in t') && (q in t ==> t[q] == t'[q]))
  {
    hide Until, Run, ViewOf, PointerAt, Candidate;
    PointPhase(policy, t, c.pointer.Other(), NewPointer(c.generation + 1, id), uuid);
    assert PointerParses(NewPointer(c.generation + 1, id)) <==> c.generation < MAX_GENERATION;
  }

  /** Pointing at the published slot shows at most the loss of the inactive pointer. */
  lemma PointedPhase(policy: Policy, t: Tree, u: Update, o: Options)
    requires Proceeds(policy, t, u, o)
    ensures var v := ViewOf(policy, t);
            var c := Active(policy, t).value;
            var front := StageArtifact(u) + StageData(u, o.migrated.value) + Publish(u);
            var point := PointAt(c, u.updateId, o.pointerUuid);
            var pointed := Run(t, front + point);
            && Until(policy, t, front + point, OldViews(v))
            && PointerDir in pointed && ViewOf(policy, pointed) == v.With(c.pointer.Other(), None)
            && SlotDir(u.updateId) in pointed && pointed[SlotDir(u.updateId)] == StagedDir(u, o.migrated.value, false)
            && PointerAt(pointed, c.pointer.Other()) ==
                 (if c.generation < MAX_GENERATION then Some(NewPointer(c.generation + 1, u.updateId)) else None)
  {
    hide Until, Run, ViewOf, ReadSlotDir;
    var v := ViewOf(policy, t);
    var c := Active(policy, t).value;
    var front := StageArtifact(u) + StageData(u, o.migrated.value) + Publish(u);
    var point := PointAt(c, u.updateId, o.pointerUuid);
    ActiveShape(policy, t);
    PublishedPhase(policy, t, u, o);
    var published := t[SlotDir(u.updateId) := StagedDir(u, o.migrated.value, false)];
    PointAtPhase(policy, published, c, u.updateId, o.pointerUuid);
    UnmarkedIsDead(policy, u.updateId, StagedDir(u, o.migrated.value, false));
    assert Candidate(policy, published, NewPointer(c.generation + 1, u.updateId)).None?;
    UntilAppend(policy, t, front, point, OldViews(v));
    RunAppend(t, front, point);
  }

  function NewEntry(c: ActiveInstall, u: Update, m: Migrated): Entry
  {
    Entry(NewPointer(c.generation + 1, u.updateId), Installed(NewRecord(u, m, true), m.data))
  }

  /** The last phase: every stop still shows the old install, the end shows the new one. */
  lemma MarkedPhase(policy: Policy, t: Tree, u: Update, o: Options)
    requires Proceeds(policy, t, u, o)
    ensures var v := ViewOf(policy, t);
            var c := Active(policy, t).value;
            var front := StageArtifact(u) + StageData(u, o.migrated.value) + Publish(u)
                         + PointAt(c, u.updateId, o.pointerUuid);
            var marked := Run(t, front + MarkHealthy(u, o));
            var dropped := v.With(c.pointer.Other(), None);
            && Until(policy, t, front + MarkHealthy(u, o), OldViews(v))
            && PointerDir in marked
            && ViewOf(policy, marked) == (if c.generation < MAX_GENERATION
                 then v.With(c.pointer.Other(), Some(NewEntry(c, u, o.migrated.value))) else dropped)
  {
    hide Until, Run, ViewOf, EntryAt, ReplaceFile, CreateFile, ReadSlot, StagedDir, NewRecord, Bootable;
    var m := o.migrated.value;
    var v := ViewOf(policy, t);
    var c := Active(policy, t).value;
    var other := c.pointer.Other();
    var front := StageArtifact(u) + StageData(u, m) + Publish(u) + PointAt(c, u.updateId, o.pointerUuid);
    var pointed := Run(t, front);
    ActiveShape(policy, t);
    PointedPhase(policy, t, u, o);
    StagedIsUnmarked(u, m, o.stateUuid);
    MarkPhase(policy, pointed, u.updateId, NewRecord(u, m, true), o.stateUuid);
    UntilMore(policy, pointed, MarkHealthy(u, o), {ViewOf(policy, pointed)}, OldViews(v));
    UntilAppend(policy, t, front, MarkHealthy(u, o), OldViews(v));
    RunAppend(t, front, MarkHealthy(u, o));
    MarkedView(policy, pointed, u, m, other, v, c.generation);
  }

  lemma StagedIsUnmarked(u: Update, m: Migrated, uuid: string)
    ensures Unmarked(StagedDir(u, m, false)) && "state.json" in StagedDir(u, m, false)
    ensures TemporaryName("state.json", uuid) !in StagedDir(u, m, false)
    ensures StagedDir(u, m, false)["state.json" := SlotState(NewRecord(u, m, true))] == StagedDir(u, m, true)
  {
    assert |TemporaryName("state.json", uuid)| >= 15;
  }

  /** Once its slot is marked, the waiting pointer is valid, unless its generation is out of range. */
  lemma MarkedView(policy: Policy, pointed: Tree, u: Update, m: Migrated, other: PointerName, v: View, generation: int)
    requires VerifiedUpdate(policy, u) && m.dataSchema == u.target.dataSchema && |m.data| <= MAX_DATA_BYTES
    requires PointerDir in pointed && ViewOf(policy, pointed) == v.With(other, None)
    requires PointerAt(pointed, other) ==
               (if generation < MAX_GENERATION then Some(NewPointer(generation + 1, u.updateId)) else None)
    requires v.At(other.Other()).Some? && v.At(other.Other()).value.pointer.slotId != u.updateId
    requires SlotDir(u.updateId) in pointed && Unmarked(pointed[SlotDir(u.updateId)])
    ensures var marked := pointed[SlotDir(u.updateId) := StagedDir(u, m, true)];
            var e := Entry(NewPointer(generation + 1, u.updateId), Installed(NewRecord(u, m, true), m.data));
            ViewOf(policy, marked) == v.With(other, if generation < MAX_GENERATION then Some(e) else None)
  {
    hide ReadSlotDir, Unmarked, StagedDir;
    var marked := pointed[SlotDir(u.updateId) := StagedDir(u, m, true)];
    StagedReads(policy, u, m, true);
    UnmarkedIsDead(policy, u.updateId, pointed[SlotDir(u.updateId)]);
    assert PointerAt(pointed, other.Other()) == Some(v.At(other.Other()).value.pointer);
    SameEntry(policy, pointed, marked, other.Other());
  }
}
