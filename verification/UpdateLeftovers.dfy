/**
 What interrupted and superseded updates leave behind, how far recovery clears it away, and
 exactly when an installation can never be recovered again.
 */
module UpdateLeftovers {
  import opened Sets
  import opened Sums
  import opened Wrappers
  import opened UpdateTree
  import opened UpdatePlans
  import opened UpdateRecovery
  import opened UpdateRuns
  import opened UpdateLimit

  const MAX_ENTRIES := 16

  function StagedPlaces(t: Tree): set<Place> { set p | p in t && p.StagingDir? }

  function SlotPlaces(t: Tree): set<Place> { set p | p in t && p.SlotDir? }

  predicate AreSafe(places: set<Place>)
  {
    forall p :: p in places ==> p.PointerDir? || IsSafeId(p.id)
  }

  predicate IsKept(p: Place, referenced: set<string>) { p.SlotDir? && p.id in referenced }

  /** One operation for each file of a directory and one for the directory. */
  function Removals(t: Tree, places: set<Place>, referenced: set<string>): map<Place, nat>
  {
    map p | p in places && p in t && !IsKept(p, referenced) :: |t[p]| + 1
  }

  /** How many operations the removal of some directories takes. */
  ghost function Cost(t: Tree, places: set<Place>, referenced: set<string>): nat
  {
    Total(Removals(t, places, referenced))
  }

  lemma CostOfOne(t: Tree, places: set<Place>, referenced: set<string>, place: Place)
    requires place in places && place in t
    ensures Cost(t, places, referenced)
            == Cost(t, places - {place}, referenced) + if IsKept(place, referenced) then 0 else |t[place]| + 1
  {
    hide Total;
    var m := Removals(t, places, referenced);
    if IsKept(place, referenced) {
      assert Removals(t, places - {place}, referenced) == m;
    } else {
      TotalRemove(m, place);
      assert Removals(t, places - {place}, referenced) == m - {place};
    }
  }

  lemma CostOfNone(t: Tree, referenced: set<string>)
    ensures Cost(t, {}, referenced) == 0
  {
    assert Removals(t, {}, referenced) == map[];
  }

  lemma SameCost(t: Tree, t': Tree, places: set<Place>, referenced: set<string>)
    requires forall p :: p in places ==> p in t && p in t' && t[p] == t'[p]
    ensures Cost(t', places, referenced) == Cost(t, places, referenced)
  {
    assert Removals(t', places, referenced) == Removals(t, places, referenced);
  }

  /** What a recovery needs: an install, at most sixteen entries of each kind, safe names, and time for every removal. */
  ghost predicate CanRecover(policy: Policy, t: Tree, budget: nat)
  {
    var referenced := ReferencedIn(ViewOf(policy, t));
    && Active(policy, t).Some?
    && |StagedPlaces(t)| <= MAX_ENTRIES && |SlotPlaces(t)| <= MAX_ENTRIES
    && AreSafe(StagedPlaces(t)) && AreSafe(SlotPlaces(t))
    && Cost(t, StagedPlaces(t), referenced) + Cost(t, SlotPlaces(t), referenced) <= budget
  }

  /** What one call of `recover` can do: nothing past sixteen staged entries, and no slot goes past sixteen slots. */
  ghost predicate RemovesWithinBounds(policy: Policy, t: Tree, ops: seq<FsOp>)
  {
    && Recovery(policy, t, ops)
    && (|StagedPlaces(t)| > MAX_ENTRIES ==> ExecAll(t, ops) == t)
    && (|SlotPlaces(t)| > MAX_ENTRIES ==> SlotPlaces(ExecAll(t, ops)) == SlotPlaces(t))
  }

  /** A call as the sandbox makes it. */
  ghost predicate Happens(policy: Policy, t: Tree, command: Command)
  {
    Legal(policy, t, command) && (command.Recover? ==> RemovesWithinBounds(policy, t, command.ops))
  }

  ghost predicate AllHappen(policy: Policy, t: Tree, commands: seq<Command>)
    decreases |commands|
  {
    commands == [] || (Happens(policy, t, commands[0]) && AllHappen(policy, Perform(policy, t, commands[0]), commands[1..]))
  }

  lemma {:induction false} AllAreLegal(policy: Policy, t: Tree, commands: seq<Command>)
    requires AllHappen(policy, t, commands)
    ensures LegalAll(policy, t, commands)
    decreases |commands|
  {
    hide Perform, Legal;
    if commands != [] { AllAreLegal(policy, Perform(policy, t, commands[0]), commands[1..]); }
  }

  // ----- what updates and rollbacks do to the directories -----

  /** An operation on files, or on the staging directory and the slot of one of the ids. */
  predicate StaysAt(op: FsOp, ids: set<string>)
  {
    match op
    case MakeDir(place) => place.StagingDir? && place.id in ids
    case RenameDir(source, target) => source.StagingDir? && source.id in ids && target == SlotDir(source.id)
    case RemoveDir(_) => false
    case _ => true
  }

  ghost predicate AllStayAt(steps: seq<Step>, ids: set<string>)
  {
    forall i :: 0 <= i < |steps| ==>
      StaysAt(steps[i].op, ids) && forall k :: 0 <= k < |steps[i].onError| ==> StaysAt(steps[i].onError[k], ids)
  }

  /** No directory went but the ids' staging directories, and only theirs and their slots came. */
  predicate OnlyAt(t: Tree, t': Tree, ids: set<string>)
  {
    && (forall p :: p in t && !(p.StagingDir? && p.id in ids) ==> p in t')
    && (forall p :: p in t' && p !in t ==> !p.PointerDir? && p.id in ids)
  }

  lemma StaysOnlyAt(t: Tree, op: FsOp, ids: set<string>)
    requires StaysAt(op, ids)
    ensures OnlyAt(t, Exec(t, op), ids)
  {
  }

  lemma {:induction false} AllOnlyAt(start: Tree, t: Tree, ops: seq<FsOp>, ids: set<string>)
    requires OnlyAt(start, t, ids) && forall k :: 0 <= k < |ops| ==> StaysAt(ops[k], ids)
    ensures OnlyAt(start, ExecAll(t, ops), ids)
    decreases |ops|
  {
    hide StaysAt, Exec;
    if ops != [] {
      StaysOnlyAt(t, ops[0], ids);
      AllOnlyAt(start, Exec(t, ops[0]), ops[1..], ids);
    }
  }

  lemma {:induction false} StopsOnlyAt(start: Tree, t: Tree, steps: seq<Step>, cut: Cut, ids: set<string>)
    requires OnlyAt(start, t, ids) && AllStayAt(steps, ids)
    ensures OnlyAt(start, RunCut(t, steps, cut), ids)
    decreases |steps|
  {
    hide StaysAt, Exec;
    if steps != [] {
      if cut.at == 0 {
        if cut.ioError { AllOnlyAt(start, t, steps[0].onError, ids); }
      } else {
        StaysOnlyAt(t, steps[0].op, ids);
        StopsOnlyAt(start, Exec(t, steps[0].op), steps[1..], Cut(cut.at - 1, cut.ioError), ids);
      }
    }
  }

  /** An update that does anything found its staging directory free. */
  lemma ApplyStaysAt(policy: Policy, t: Tree, u: Update, o: Options)
    ensures AllStayAt(ApplyPlan(policy, t, u, o).steps, {u.updateId})
    ensures ApplyPlan(policy, t, u, o).steps != [] ==> StagingDir(u.updateId) !in t
  {
    hide ViewOf, Active, RefuseMigration, SlotIsTaken, ActivationPlan, StageArtifact, StageData, Publish, StaysAt;
    if Active(policy, t).Some? {
      StagingStaysAt(u, Migration(o));
      if o.migrated.Some? { ActivationStaysAt(t, Active(policy, t).value, u, o); }
    }
    assert RefuseMigration(u, o).None? ==> o.migrated.Some? by { MigrationNeeded(u, o); }
  }

  lemma MigrationNeeded(u: Update, o: Options)
    ensures RefuseMigration(u, o).None? ==> o.migrated.Some?
  {
  }

  lemma StagingStaysAt(u: Update, m: Migrated)
    ensures AllStayAt(StageArtifact(u), {u.updateId}) && AllStayAt(StageData(u, m), {u.updateId}) && AllStayAt(Publish(u), {u.updateId})
  {
  }

  lemma ActivationStaysAt(t: Tree, c: ActiveInstall, u: Update, o: Options)
    requires o.migrated.Some?
    ensures AllStayAt(ActivationPlan(t, c, u, o).steps, {u.updateId})
  {
    hide TemporaryIsTaken;
  }

  lemma RollbackStaysAt(policy: Policy, t: Tree, uuid: string)
    ensures AllStayAt(RollbackPlan(policy, t, uuid).steps, {})
  {
    hide ViewOf, TemporaryIsTaken;
  }

  /** Updates and rollbacks, complete or stopped anywhere, remove neither slots nor staged entries. */
  lemma OnlyRecoveryRemoves(policy: Policy, t: Tree, command: Command)
    requires !command.Recover?
    ensures var t' := Perform(policy, t, command); SlotPlaces(t) <= SlotPlaces(t') && StagedPlaces(t) <= StagedPlaces(t')
    ensures OnlyAt(t, Perform(policy, t, command), if command.Apply? then {command.u.updateId} else {})
  {
    hide RunCut, ApplyPlan, RollbackPlan, AllStayAt;
    match command
    case Apply(u, o, cut) =>
      ApplyStaysAt(policy, t, u, o);
      StopsOnlyAt(t, t, ApplyPlan(policy, t, u, o).steps, cut, {u.updateId});
      NothingRuns(t, cut);
    case Rollback(uuid, cut) =>
      RollbackStaysAt(policy, t, uuid);
      StopsOnlyAt(t, t, RollbackPlan(policy, t, uuid).steps, cut, {});
  }

  lemma NothingRuns(t: Tree, cut: Cut)
    ensures RunCut(t, [], cut) == t && Run(t, []) == t
  {
  }

  // ----- leftovers over runs -----

  lemma LeftoversStayOnce(policy: Policy, t: Tree, command: Command)
    requires Happens(policy, t, command)
    ensures |SlotPlaces(t)| > MAX_ENTRIES ==> SlotPlaces(t) <= SlotPlaces(Perform(policy, t, command))
    ensures |StagedPlaces(t)| > MAX_ENTRIES ==> StagedPlaces(t) <= StagedPlaces(Perform(policy, t, command))
  {
    hide SlotPlaces, StagedPlaces, RunCut, ApplyPlan, RollbackPlan, Recovery, ExecAll;
    if !command.Recover? { OnlyRecoveryRemoves(policy, t, command); }
  }

  /** More than sixteen slots, or staged entries, stay through every history of complete and interrupted calls. */
  lemma {:induction false} LeftoversStay(policy: Policy, t: Tree, commands: seq<Command>)
    requires AllHappen(policy, t, commands)
    ensures |SlotPlaces(t)| > MAX_ENTRIES ==> SlotPlaces(t) <= SlotPlaces(PerformAll(policy, t, commands))
    ensures |StagedPlaces(t)| > MAX_ENTRIES ==> StagedPlaces(t) <= StagedPlaces(PerformAll(policy, t, commands))
    decreases |commands|
  {
    hide SlotPlaces, StagedPlaces, Perform, Happens;
    if commands != [] {
      var t' := Perform(policy, t, commands[0]);
      LeftoversStayOnce(policy, t, commands[0]);
      if |SlotPlaces(t)| > MAX_ENTRIES { Smaller(SlotPlaces(t), SlotPlaces(t')); }
      if |StagedPlaces(t)| > MAX_ENTRIES { Smaller(StagedPlaces(t), StagedPlaces(t')); }
      LeftoversStay(policy, t', commands[1..]);
    }
  }

  // ----- names over runs -----

  /** Every directory has a name that `recover` accepts. */
  predicate NamesAreSafe(t: Tree)
  {
    AreSafe(StagedPlaces(t)) && AreSafe(SlotPlaces(t))
  }

  lemma {:induction false} RecoveryShrinks(policy: Policy, t: Tree, ops: seq<FsOp>)
    requires Recovery(policy, t, ops)
    ensures ExecAll(t, ops).Keys <= t.Keys
    decreases |ops|
  {
    hide ViewOf;
    if ops != [] { RecoveryShrinks(policy, Exec(t, ops[0]), ops[1..]); }
  }

  lemma NamesStaySafeOnce(policy: Policy, t: Tree, command: Command)
    requires NamesAreSafe(t) && Happens(policy, t, command)
    ensures NamesAreSafe(Perform(policy, t, command))
  {
    hide Perform, Recovery, IsSafeId;
    if command.Recover? {
      RecoveryShrinks(policy, t, command.ops);
      assert Perform(policy, t, command) == ExecAll(t, command.ops) by { PerformsRecovery(policy, t, command); }
    } else {
      OnlyRecoveryRemoves(policy, t, command);
    }
  }

  lemma PerformsRecovery(policy: Policy, t: Tree, command: Command)
    requires command.Recover?
    ensures Perform(policy, t, command) == ExecAll(t, command.ops)
  {
  }

  lemma {:induction false} NamesStaySafe(policy: Policy, t: Tree, commands: seq<Command>)
    requires NamesAreSafe(t) && AllHappen(policy, t, commands)
    ensures NamesAreSafe(PerformAll(policy, t, commands))
    decreases |commands|
  {
    hide NamesAreSafe, Perform, Happens;
    if commands != [] {
      NamesStaySafeOnce(policy, t, commands[0]);
      NamesStaySafe(policy, Perform(policy, t, commands[0]), commands[1..]);
    }
  }

  // ----- when recovery is lost -----

  /** Whatever is called from here on, with whatever time, recovery is refused. */
  ghost predicate NeverRecovers(policy: Policy, t: Tree)
  {
    forall commands, budget: nat :: AllHappen(policy, t, commands) ==> !CanRecover(policy, PerformAll(policy, t, commands), budget)
  }

  predicate IsOverfull(t: Tree) { |StagedPlaces(t)| > MAX_ENTRIES || |SlotPlaces(t)| > MAX_ENTRIES }

  lemma OverfullIsRefused(policy: Policy, t: Tree, commands: seq<Command>, budget: nat)
    requires IsOverfull(t) && AllHappen(policy, t, commands)
    ensures !CanRecover(policy, PerformAll(policy, t, commands), budget)
  {
    hide SlotPlaces, StagedPlaces, PerformAll, AllHappen, Cost, AreSafe, ReferencedIn, Active, ViewOf;
    var t' := PerformAll(policy, t, commands);
    LeftoversStay(policy, t, commands);
    if |SlotPlaces(t)| > MAX_ENTRIES { Smaller(SlotPlaces(t), SlotPlaces(t')); }
    if |StagedPlaces(t)| > MAX_ENTRIES { Smaller(StagedPlaces(t), StagedPlaces(t')); }
  }

  /**
   An installation with any history can never be recovered again exactly when it holds more than
   sixteen slots or more than sixteen staged entries.
   */
  lemma RecoveryIsLostExactly(policy: Policy, b: Baseline, past: seq<Command>)
    requires BaselineIsAccepted(b) && |b.artifact| <= policy.maximumArtifactBytes
    requires AllHappen(policy, InitialTree(b), past)
    ensures var t := PerformAll(policy, InitialTree(b), past); NeverRecovers(policy, t) <==> IsOverfull(t)
  {
    hide SlotPlaces, StagedPlaces, AllHappen, Cost, AreSafe, ReferencedIn, ViewOf, InitialTree, IsOverfull, CanRecover, NamesAreSafe, Bootable;
    var t := PerformAll(policy, InitialTree(b), past);
    if IsOverfull(t) {
      forall commands, budget: nat | AllHappen(policy, t, commands)
        ensures !CanRecover(policy, PerformAll(policy, t, commands), budget)
      {
        OverfullIsRefused(policy, t, commands, budget);
      }
    } else {
      AllAreLegal(policy, InitialTree(b), past);
      BootsAfterInitialize(policy, b, past);
      InitialIsSafe(b);
      NamesStaySafe(policy, InitialTree(b), past);
      var budget := EnoughTime(policy, t);
      assert AllHappen(policy, t, []) && PerformAll(policy, t, []) == t by { NothingHappens(policy, t); }
    }
  }

  lemma InitialIsSafe(b: Baseline)
    ensures NamesAreSafe(InitialTree(b))
  {
    assert IsSafeId("baseline");
  }

  lemma NothingHappens(policy: Policy, t: Tree)
    ensures AllHappen(policy, t, []) && PerformAll(policy, t, []) == t
  {
  }

  lemma EnoughTime(policy: Policy, t: Tree) returns (budget: nat)
    requires Bootable(policy, t) && NamesAreSafe(t) && !IsOverfull(t)
    ensures CanRecover(policy, t, budget)
  {
    hide Cost, AreSafe, StagedPlaces, SlotPlaces, ViewOf, ReferencedIn;
    var referenced := ReferencedIn(ViewOf(policy, t));
    ActiveShape(policy, t);
    budget := Cost(t, StagedPlaces(t), referenced) + Cost(t, SlotPlaces(t), referenced);
  }

  // ----- the failing inputs -----

  /** Updates that run to their end, one after the other. */
  function Updating(us: seq<Update>, o: Options): seq<Command>
  {
    if us == [] then [] else [Apply(us[0], o, Cut(16, false))] + Updating(us[1..], o)
  }

  /** No two updates share an id, and none has one of the given ids. */
  predicate HaveOwnIds(us: seq<Update>, ids: set<string>)
  {
    && (forall i :: 0 <= i < |us| ==> us[i].updateId !in ids)
    && (forall i, j :: 0 <= i < j < |us| ==> us[i].updateId != us[j].updateId)
  }

  /** Same-version updates that nothing is against. */
  ghost predicate AreFavoured(policy: Policy, identity: Identity, us: seq<Update>, o: Options)
  {
    forall i :: 0 <= i < |us| ==>
      VerifiedUpdate(policy, us[i]) && us[i].target == identity && Favours(policy, identity, MAX_DATA_BYTES, us[i], o)
  }

  /** As many slots as generations, nothing staged, no temporary files. */
  ghost predicate IsFilled(policy: Policy, t: Tree, identity: Identity, ids: set<string>)
  {
    && Bootable(policy, t) && t[PointerDir].Keys <= {"a.json", "b.json"}
    && IdentityOf(Current(policy, t).record) == identity && |SlotPlaces(t)| == Current(policy, t).generation
    && forall p :: p in t ==> p.PointerDir? || (p.SlotDir? && p.id in ids)
  }

  lemma FilledAccepts(policy: Policy, t: Tree, identity: Identity, ids: set<string>, u: Update, o: Options)
    requires IsFilled(policy, t, identity, ids) && u.updateId !in ids && Favours(policy, identity, MAX_DATA_BYTES, u, o)
    ensures ApplyCompletes(policy, t, u, o)
  {
    hide ApplyCompletes, ViewOf, Sound, Active, Favours, TemporaryIsTaken, ReadSlotDir, SlotPlaces;
    var c := Current(policy, t);
    ActiveShape(policy, t);
    ActiveDataFits(policy, t);
    FavoursLess(policy, identity, MAX_DATA_BYTES, |c.data|, u, o);
    TemporaryIsFree(t, c.pointer.Other(), o.pointerUuid);
    assert SlotDir(c.record.slotId) in t;
    ApplyNeeds(policy, t, u, o);
  }

  /** One more update, one more slot. */
  lemma FillOne(policy: Policy, t: Tree, identity: Identity, ids: set<string>, u: Update, o: Options)
    requires IsFilled(policy, t, identity, ids) && u.updateId !in ids && Current(policy, t).generation < MAX_GENERATION
    requires VerifiedUpdate(policy, u) && u.target == identity && Favours(policy, identity, MAX_DATA_BYTES, u, o)
    ensures var t' := Perform(policy, t, Apply(u, o, Cut(16, false)));
            IsFilled(policy, t', identity, ids + {u.updateId}) && Current(policy, t').generation == Current(policy, t).generation + 1
  {
    hide Run, RunCut, ApplyPlan, ViewOf, Sound, Active, StagedDir, Favours, VerifiedUpdate, SlotPlaces;
    FilledAccepts(policy, t, identity, ids, u, o);
    ApplyStops(policy, t, u, o);
    var steps := ApplyPlan(policy, t, u, o).steps;
    RunCutAll(t, steps, Cut(16, false));
    UpdatedTree(policy, t, u, o);
    UpdatedView(policy, t, u, o);
    MigrationMatches(policy, identity, u, o);
    FilledPlaces(t, ids, u.updateId, StagedDir(u, Migration(o), true), Run(t, steps)[PointerDir]);
  }

  lemma FilledPlaces(t: Tree, ids: set<string>, id: string, dir: Dir, pointers: Dir)
    requires id !in ids && forall p :: p in t ==> p.PointerDir? || (p.SlotDir? && p.id in ids)
    ensures var t' := t[SlotDir(id) := dir][PointerDir := pointers];
            && |SlotPlaces(t')| == |SlotPlaces(t)| + 1
            && forall p :: p in t' ==> p.PointerDir? || (p.SlotDir? && p.id in ids + {id})
  {
    assert SlotPlaces(t[SlotDir(id) := dir][PointerDir := pointers]) == SlotPlaces(t) + {SlotDir(id)};
  }

  lemma MigrationMatches(policy: Policy, identity: Identity, u: Update, o: Options)
    requires Favours(policy, identity, MAX_DATA_BYTES, u, o)
    ensures Migration(o).dataSchema == u.target.dataSchema
  {
  }

  lemma {:induction false} FillAll(policy: Policy, t: Tree, identity: Identity, ids: set<string>, us: seq<Update>, o: Options)
    requires IsFilled(policy, t, identity, ids) && HaveOwnIds(us, ids) && AreFavoured(policy, identity, us, o)
    requires Current(policy, t).generation + |us| <= MAX_GENERATION
    ensures AllHappen(policy, t, Updating(us, o))
    ensures Bootable(policy, PerformAll(policy, t, Updating(us, o)))
    ensures |SlotPlaces(PerformAll(policy, t, Updating(us, o)))| == Current(policy, t).generation + |us|
    decreases |us|
  {
    hide Perform, Favours, VerifiedUpdate, Bootable, SlotPlaces, Active;
    if us != [] {
      var command := Apply(us[0], o, Cut(16, false));
      FillOne(policy, t, identity, ids, us[0], o);
      FillAll(policy, Perform(policy, t, command), identity, ids + {us[0].updateId}, us[1..], o);
      assert Updating(us, o)[1..] == Updating(us[1..], o);
    }
  }

  /**
   The failing input: a fresh installation and sixteen same-version updates leave seventeen
   healthy slots, and recovery is lost.
   */
  lemma SlotsOverflow(policy: Policy, b: Baseline, us: seq<Update>, o: Options)
    requires BaselineIsAccepted(b) && |b.artifact| <= policy.maximumArtifactBytes && |us| == MAX_ENTRIES
    requires HaveOwnIds(us, {"baseline"}) && AreFavoured(policy, Identity(b.version, b.channel, b.dataSchema), us, o)
    ensures AllHappen(policy, InitialTree(b), Updating(us, o))
    ensures var t := PerformAll(policy, InitialTree(b), Updating(us, o));
            Bootable(policy, t) && |SlotPlaces(t)| == MAX_ENTRIES + 1 && NeverRecovers(policy, t)
  {
    hide HaveOwnIds, AreFavoured, AllHappen, PerformAll, Updating, NeverRecovers, Bootable;
    var t := InitialTree(b);
    assert IsFilled(policy, t, Identity(b.version, b.channel, b.dataSchema), {"baseline"}) && Current(policy, t).generation == 1 by {
      InitialIsFilled(policy, b);
    }
    FillAll(policy, t, Identity(b.version, b.channel, b.dataSchema), {"baseline"}, us, o);
    RecoveryIsLostExactly(policy, b, Updating(us, o));
  }

  lemma InitialIsFilled(policy: Policy, b: Baseline)
    requires BaselineIsAccepted(b) && |b.artifact| <= policy.maximumArtifactBytes
    ensures IsFilled(policy, InitialTree(b), Identity(b.version, b.channel, b.dataSchema), {"baseline"})
    ensures Current(policy, InitialTree(b)).generation == 1
  {
    hide InitialTree, ViewOf, Sound, Active;
    InitialIsBootable(policy, b);
    InitialPointers(b);
    assert SlotPlaces(InitialTree(b)) == {SlotDir("baseline")};
  }

  /** Updates that stop right after they made their staging directories. */
  function Interrupting(us: seq<Update>, o: Options): seq<Command>
  {
    if us == [] then [] else [Apply(us[0], o, Cut(1, false))] + Interrupting(us[1..], o)
  }

  /** The given install is active, and the ids cover its slot and what is staged. */
  ghost predicate IsStaging(policy: Policy, t: Tree, c: ActiveInstall, ids: set<string>)
  {
    Bootable(policy, t) && Active(policy, t) == Some(c) && c.record.slotId in ids
    && forall p :: p in StagedPlaces(t) ==> p.id in ids
  }

  lemma MakesStaging(policy: Policy, t: Tree, c: ActiveInstall, u: Update, o: Options)
    requires Active(policy, t) == Some(c) && c.record.slotId != u.updateId && StagingDir(u.updateId) !in t
    requires Favours(policy, IdentityOf(c.record), |c.data|, u, o)
    ensures var t' := Perform(policy, t, Apply(u, o, Cut(1, false))); t' == Exec(t, MakeDir(StagingDir(u.updateId)))
  {
    hide Active, SlotIsTaken, ActivationPlan, StageData, Publish, Exec;
    var steps := ApplyPlan(policy, t, u, o).steps;
    assert |steps| >= 3 && steps[0] == StageArtifact(u)[0];
    assert RunCut(Exec(t, steps[0].op), steps[1..], Cut(0, false)) == Exec(t, steps[0].op);
  }

  /** One more interrupted update, one more staged entry. */
  lemma StageOne(policy: Policy, t: Tree, c: ActiveInstall, ids: set<string>, u: Update, o: Options)
    requires IsStaging(policy, t, c, ids) && u.updateId !in ids && Favours(policy, IdentityOf(c.record), |c.data|, u, o)
    ensures var t' := Perform(policy, t, Apply(u, o, Cut(1, false)));
            IsStaging(policy, t', c, ids + {u.updateId}) && |StagedPlaces(t')| == |StagedPlaces(t)| + 1
  {
    hide ViewOf, Sound, Perform, Favours;
    assert StagingDir(u.updateId) in t ==> StagingDir(u.updateId) in StagedPlaces(t);
    MakesStaging(policy, t, c, u, o);
    var op := MakeDir(StagingDir(u.updateId));
    StagingIsInvisible(policy, t, op);
    assert StagedPlaces(Exec(t, op)) == StagedPlaces(t) + {StagingDir(u.updateId)};
  }

  lemma {:induction false} StageAll(policy: Policy, t: Tree, c: ActiveInstall, ids: set<string>, us: seq<Update>, o: Options)
    requires IsStaging(policy, t, c, ids) && HaveOwnIds(us, ids)
    requires forall i :: 0 <= i < |us| ==> VerifiedUpdate(policy, us[i]) && Favours(policy, IdentityOf(c.record), |c.data|, us[i], o)
    ensures AllHappen(policy, t, Interrupting(us, o))
    ensures var t' := PerformAll(policy, t, Interrupting(us, o));
            Bootable(policy, t') && Active(policy, t') == Some(c) && |StagedPlaces(t')| == |StagedPlaces(t)| + |us|
    decreases |us|
  {
    hide Perform, Favours, VerifiedUpdate, Bootable, StagedPlaces, Active;
    if us != [] {
      var command := Apply(us[0], o, Cut(1, false));
      StageOne(policy, t, c, ids, us[0], o);
      StageAll(policy, Perform(policy, t, command), c, ids + {us[0].updateId}, us[1..], o);
      assert Interrupting(us, o)[1..] == Interrupting(us[1..], o);
    }
  }

  /** The other failing input: seventeen interrupted updates of a fresh installation leave seventeen staged entries. */
  lemma StagedOverflow(policy: Policy, b: Baseline, us: seq<Update>, o: Options)
    requires BaselineIsAccepted(b) && |b.artifact| <= policy.maximumArtifactBytes && |us| == MAX_ENTRIES + 1
    requires HaveOwnIds(us, {"baseline"})
    requires forall i :: 0 <= i < |us| ==>
               VerifiedUpdate(policy, us[i]) && Favours(policy, Identity(b.version, b.channel, b.dataSchema), |b.data|, us[i], o)
    ensures AllHappen(policy, InitialTree(b), Interrupting(us, o))
    ensures var t := PerformAll(policy, InitialTree(b), Interrupting(us, o));
            && Bootable(policy, t) && Active(policy, t) == Active(policy, InitialTree(b))
            && |StagedPlaces(t)| == MAX_ENTRIES + 1 && NeverRecovers(policy, t)
  {
    hide HaveOwnIds, VerifiedUpdate, Favours, AllHappen, PerformAll, Interrupting, NeverRecovers, Bootable, InitialTree, Active;
    var t := InitialTree(b);
    InitialIsBootable(policy, b);
    InitialPointers(b);
    assert StagedPlaces(t) == {};
    StageAll(policy, t, ActiveInstall(BaselineRecord(b), b.data, A, 1), {"baseline"}, us, o);
    RecoveryIsLostExactly(policy, b, Interrupting(us, o));
  }

  // ----- one concrete pair of histories -----

  /** The letter `a`, n times. */
  function Letters(n: nat): string { seq(n, _ => 'a') }

  function EmptyUpdates(n: nat): seq<Update>
  {
    seq(n, i requires 0 <= i < n =>
      Update(Letters(i + 1), Identity("1.0.0", Stable, 0), Identity("1.0.0", Stable, 0), [], OfBytes([])))
  }

  lemma EmptyUpdatesAreVerified(policy: Policy, n: nat)
    requires n <= 80
    ensures forall i :: 0 <= i < n ==> VerifiedUpdate(policy, EmptyUpdates(n)[i])
    ensures HaveOwnIds(EmptyUpdates(n), {"baseline"})
  {
    hide IsVersionText;
    OneIsAVersion();
    forall i | 0 <= i < n ensures EmptyUpdates(n)[i].updateId != "baseline" {
      assert EmptyUpdates(n)[i].updateId[0] == 'a' && "baseline"[0] == 'b';
    }
    forall i, j | 0 <= i < j < n ensures EmptyUpdates(n)[i].updateId != EmptyUpdates(n)[j].updateId {
      assert |EmptyUpdates(n)[i].updateId| == i + 1 && |EmptyUpdates(n)[j].updateId| == j + 1;
    }
  }

  /** Empty artifacts and data, version 1.0.0 throughout: both ways of losing recovery can happen. */
  lemma RecoveryIsLostFromNothing() returns (policy: Policy, b: Baseline, updated: seq<Command>, interrupted: seq<Command>)
    ensures BaselineIsAccepted(b) && AllHappen(policy, InitialTree(b), updated) && AllHappen(policy, InitialTree(b), interrupted)
    ensures NeverRecovers(policy, PerformAll(policy, InitialTree(b), updated))
    ensures NeverRecovers(policy, PerformAll(policy, InitialTree(b), interrupted))
  {
    hide VerifiedUpdate, EmptyUpdates, HaveOwnIds, IsVersionText, AllHappen, PerformAll, NeverRecovers, Updating, Interrupting, InitialTree;
    OneIsAVersion();
    policy := Policy(0, 0, [SupportedPath("1.0.0", "1.0.0")]);
    b := Baseline("1.0.0", Stable, [], [], 0);
    var o := Options(0, None, Some(Migrated([], 0)), true, "p", "s");
    EmptyUpdatesAreVerified(policy, 16);
    EmptyUpdatesAreVerified(policy, 17);
    EmptyUpdatesAreFavoured(policy, o, 16);
    EmptyUpdatesAreFavoured(policy, o, 17);
    updated := Updating(EmptyUpdates(16), o);
    interrupted := Interrupting(EmptyUpdates(17), o);
    SlotsOverflow(policy, b, EmptyUpdates(16), o);
    StagedOverflow(policy, b, EmptyUpdates(17), o);
  }

  lemma EmptyUpdatesAreFavoured(policy: Policy, o: Options, n: nat)
    requires policy.minimumFreeSpaceMultiplier == 0 && o == Options(0, None, Some(Migrated([], 0)), true, o.pointerUuid, o.stateUuid)
    ensures var us, identity := EmptyUpdates(n), Identity("1.0.0", Stable, 0);
            |us| == n && forall i :: 0 <= i < n ==>
              us[i].target == identity && Favours(policy, identity, MAX_DATA_BYTES, us[i], o) && Favours(policy, identity, 0, us[i], o)
  {
  }
}
