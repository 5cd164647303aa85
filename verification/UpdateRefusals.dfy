/** Which error each refused update or rollback gets, in the source's order, and what it leaves untouched. */
module UpdateRefusals {
  import opened Wrappers
  import opened UpdateTree
  import opened UpdatePlans
  import opened UpdateRecovery
  import opened UpdateRuns
  import Versioning

  /** The update that is installed already. */
  predicate IsInstalled(c: ActiveInstall, u: Update)
  {
    c.record.version == u.target.version && c.record.channel == u.target.channel
    && c.record.artifactSha256 == u.artifactSha256 && c.record.dataSchema == u.target.dataSchema
  }

  predicate IsSource(c: ActiveInstall, u: Update)
  {
    c.record.version == u.source.version && c.record.channel == u.source.channel && c.record.dataSchema == u.source.dataSchema
  }

  /** A safe integer that covers the artifact and the data, times the policy's multiplier. */
  predicate HasSpace(policy: Policy, c: ActiveInstall, u: Update, o: Options)
  {
    -9_007_199_254_740_991 <= o.availableBytes <= 9_007_199_254_740_991
    && o.availableBytes >= (|u.artifact| + |c.data|) * policy.minimumFreeSpaceMultiplier
  }

  /** Before anything is written: the same update again is answered from the active install; the others name what is wrong. */
  lemma RefusedBeforeWriting(policy: Policy, t: Tree, u: Update, o: Options)
    requires Bootable(policy, t)
    ensures var c, plan := Current(policy, t), ApplyPlan(policy, t, u, o);
            && (c.record.slotId == u.updateId ==>
                  plan == Plan([], if IsInstalled(c, u) then Returns(c) else Refuses("update_id_conflict")))
            && (c.record.slotId != u.updateId ==>
                  && (!IsSource(c, u) ==> plan == Plan([], Refuses("installed_source_mismatch")))
                  && (IsSource(c, u) && !HasSpace(policy, c, u, o) ==> plan == Plan([], Refuses("insufficient_space")))
                  && (IsSource(c, u) && HasSpace(policy, c, u, o) && o.fault == Some(PermissionFailure) ==>
                        plan == Plan([], Refuses("permission_denied")))
                  && (IsSource(c, u) && HasSpace(policy, c, u, o) && o.fault != Some(PermissionFailure) && StagingDir(u.updateId) in t ==>
                        plan == Plan([], Refuses("installation_failed")))
                  && (IsSource(c, u) && HasSpace(policy, c, u, o) && o.fault != Some(PermissionFailure) && StagingDir(u.updateId) !in t ==>
                        plan.steps != []))
  {
    hide ViewOf, Sound, SlotIsTaken, TemporaryIsTaken, ActivationPlan, RefuseMigration;
    var c := Current(policy, t);
    assert Active(policy, t) == Some(c);
    if RefuseBefore(policy, c, t, u, o).None? { PlansWrite(policy, t, u, o); }
  }

  lemma PlansWrite(policy: Policy, t: Tree, u: Update, o: Options)
    requires Bootable(policy, t) && RefuseBefore(policy, Current(policy, t), t, u, o).None?
    ensures |ApplyPlan(policy, t, u, o).steps| >= 3
  {
    hide ViewOf, Sound, SlotIsTaken, RefuseBefore, ActivationPlan;
    assert Active(policy, t) == Some(Current(policy, t));
  }

  /** Nothing is against the update before it writes. */
  predicate Writes(policy: Policy, t: Tree, c: ActiveInstall, u: Update, o: Options)
  {
    && c.record.slotId != u.updateId && IsSource(c, u) && HasSpace(policy, c, u, o)
    && o.fault != Some(PermissionFailure) && StagingDir(u.updateId) !in t
  }

  /** The migration's result fits the target. */
  predicate MigrationFits(u: Update, o: Options)
  {
    && o.fault != Some(StagingInterruption) && o.fault != Some(MigrationFailure) && o.migrated.Some?
    && o.migrated.value.dataSchema == u.target.dataSchema && |o.migrated.value.data| <= 1_048_576
  }

  /** After it staged the artifact: what the migration, the slot, the pointer and the health check decide, in this order. */
  lemma RefusedAfterWriting(policy: Policy, t: Tree, u: Update, o: Options)
    requires Bootable(policy, t) && Writes(policy, t, Current(policy, t), u, o)
    ensures var c, ending := Current(policy, t), ApplyPlan(policy, t, u, o).ending;
            var temporary := TemporaryName(if c.pointer.A? then "b.json" else "a.json", o.pointerUuid);
            ending ==
              if o.fault == Some(StagingInterruption) then Refuses("installation_interrupted")
              else if o.fault == Some(MigrationFailure) || o.migrated == None then Refuses("migration_failed")
              else if !MigrationFits(u, o) then Refuses("migration_result_invalid")
              else if SlotDir(u.updateId) in t && t[SlotDir(u.updateId)] != map[] then Refuses("installation_failed")
              else if o.fault == Some(PreActivationInterruption) then Refuses("installation_interrupted")
              else if temporary in t[PointerDir] then Refuses("installation_failed")
              else if o.fault == Some(PostActivationHealthFailure) || !o.healthy then Refuses("startup_health_failed")
              else ReturnsActive
  {
    hide ViewOf, Sound, StageArtifact, StageData, Publish, PointAt, MarkHealthy, CollideWithTemporary;
    assert Active(policy, t) == Some(Current(policy, t));
  }

  /** Every refusal of a rollback, in the source's order; the first two write nothing. */
  lemma RollbackRefusals(policy: Policy, t: Tree, uuid: string)
    requires Bootable(policy, t)
    ensures var c, plan := Current(policy, t), RollbackPlan(policy, t, uuid);
            var other := ViewOf(policy, t).At(c.pointer.Other());
            var temporary := TemporaryName(if c.pointer.A? then "b.json" else "a.json", uuid);
            if other.None? then plan == Plan([], Refuses("rollback_unavailable"))
            else if SupportedPath(other.value.slot.record.version, c.record.version) !in policy.supportedPaths then
              plan == Plan([], Refuses("rollback_unsupported"))
            else if temporary in t[PointerDir] then plan.ending == Refuses("EEXIST")
            else plan.ending == ReturnsActive
  {
    hide EntryAt, PointAt, CollideWithTemporary;
    ActiveEntry(ViewOf(policy, t));
  }

  // ----- stops -----

  /** A stop leaves the operations before it, and after an error the clean-up of the one that failed. */
  lemma {:induction false} StopIs(t: Tree, steps: seq<Step>, cut: Cut)
    requires cut.at < |steps|
    ensures var before := Run(t, steps[..cut.at]);
            RunCut(t, steps, cut) == if cut.ioError then ExecAll(before, steps[cut.at].onError) else before
    decreases |steps|
  {
    if cut.at == 0 {
      assert steps[..0] == [];
    } else {
      StopIs(Exec(t, steps[0].op), steps[1..], Cut(cut.at - 1, cut.ioError));
      assert steps[..cut.at][1..] == steps[1..][..cut.at - 1];
    }
  }

  /** A file replacement that fails leaves no temporary file. */
  lemma FailedReplacementCleansUp(t: Tree, place: Place, name: string, content: Content, uuid: string, k: nat)
    requires place in t && |name| >= 6 && k < 4
    ensures var t' := RunCut(t, ReplaceFile(place, name, content, uuid), Cut(k, true));
            place in t' && TemporaryName(name, uuid) !in t'[place]
            && (k < 3 ==> t'[place] == t[place] - {TemporaryName(name, uuid)})
            && (k == 3 ==> t'[place] == t[place] - {TemporaryName(name, uuid), name})
  {
    var steps := ReplaceFile(place, name, content, uuid);
    var temporary := TemporaryName(name, uuid);
    var cleanUp := UnlinkFile(place, temporary);
    ReplaceTrees(t, place, name, content, uuid);
    StopIs(t, steps, Cut(k, true));
    var d := t[place];
    Prefixes(t, steps, k);
    CleanUpRuns(Run(t, steps[..k]), cleanUp);
    assert d[temporary := Torn] - {temporary} == d - {temporary} && d[temporary := content] - {temporary} == d - {temporary};
    assert d[temporary := content] - {name} - {temporary} == d - {temporary, name};
  }

  /** The first operations of four, one after the other. */
  lemma Prefixes(t: Tree, steps: seq<Step>, k: nat)
    requires |steps| == 4 && k < 4
    ensures Run(t, steps[..k]) ==
              if k == 0 then t else if k == 1 then Exec(t, steps[0].op)
              else if k == 2 then Exec(Exec(t, steps[0].op), steps[1].op)
              else Exec(Exec(Exec(t, steps[0].op), steps[1].op), steps[2].op)
  {
    var one, two, three := steps[..1], steps[..2], steps[..3];
    assert one[1..] == [] && two[1..] == [steps[1]] && three[1..] == [steps[1], steps[2]];
    RunOne(Exec(t, steps[0].op), steps[1]);
    RunTwo(Exec(t, steps[0].op), steps[1], steps[2]);
    assert steps[..0] == [];
  }

  lemma RunOne(t: Tree, step: Step)
    ensures Run(t, [step]) == Exec(t, step.op)
  {
    assert [step][1..] == [];
  }

  // ----- names and numbers -----

  /** One to eighty lower-case letters, digits, dots and hyphens, a letter or digit at both ends. */
  lemma SafeIdsAre(id: string)
    ensures IsSafeId(id) <==>
              && 1 <= |id| <= 80
              && (forall i :: 0 <= i < |id| ==> 'a' <= id[i] <= 'z' || '0' <= id[i] <= '9' || id[i] == '.' || id[i] == '-')
              && id[0] != '.' && id[0] != '-' && id[|id| - 1] != '.' && id[|id| - 1] != '-'
  {
  }

  /** A generation is valid from 1 to 1,000,000 and only with its own checksum. */
  lemma PointersAre(p: PointerRecord)
    ensures PointerParses(p) <==>
              1 <= p.generation <= 1_000_000 && IsSafeId(p.slotId) && p.checksum == OfPointer(p.generation, p.slotId)
  {
  }

  /** Version texts are semantic versions of at most 64 characters. */
  lemma VersionTextsAre(text: string)
    ensures IsVersionText(text) <==> |text| <= 64 && Versioning.IsSemanticVersion(text)
  {
    if |text| == 0 { Versioning.EmptyIsNoVersion(); }
  }
}
