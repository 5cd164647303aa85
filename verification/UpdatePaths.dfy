/**
 Supported update paths: the list a policy may hold, the path checks of an update package, and
 what they mean for the installed version over whole runs.
 */
module UpdatePaths {
  import opened Wrappers
  import opened Text
  import opened Versioning
  import opened UpdateTree
  import opened UpdatePlans
  import opened UpdateRecovery
  import opened UpdateRuns

  const MAXIMUM_PATHS := 32

  datatype Mode = SameVersionRecovery | InPlaceUpdate {
    function Name(): string { if SameVersionRecovery? then "same-version-recovery" else "in-place-update" }
  }

  datatype Path = Path(sourceVersion: string, targetVersion: string, mode: Mode) {
    function Identity(): string { sourceVersion + ":" + targetVersion + ":" + mode.Name() }
  }

  /** An entry of the list before its fields are checked. */
  datatype RawPath = RawPath(sourceVersion: string, targetVersion: string, mode: string)

  /** The precedence of two version texts, in SemVer's order. */
  ghost predicate Newer(a: string, b: string)
  {
    IsSemanticVersion(a) && IsSemanticVersion(b) && Less(ParseSemanticVersion(b).value, ParseSemanticVersion(a).value)
  }

  ghost predicate NotOlder(a: string, b: string)
  {
    IsSemanticVersion(a) && IsSemanticVersion(b) && !Newer(b, a)
  }

  /** The mode says which way the path leads. */
  ghost predicate IsDirected(p: Path)
  {
    && IsVersionText(p.sourceVersion) && IsVersionText(p.targetVersion)
    && if p.mode.InPlaceUpdate? then Newer(p.targetVersion, p.sourceVersion)
       else WithoutBuild(p.targetVersion) == WithoutBuild(p.sourceVersion)
  }

  ghost predicate AreDirected(paths: seq<Path>)
  {
    forall i :: 0 <= i < |paths| ==> IsDirected(paths[i])
  }

  /** Without duplicates and in the order of code units. */
  predicate IsStrictlySorted(paths: seq<Path>)
  {
    forall i :: 0 <= i < |paths| - 1 ==> Before(paths[i].Identity(), paths[i + 1].Identity())
  }

  predicate IsModeName(s: string)
  {
    s == "same-version-recovery" || s == "in-place-update"
  }

  function Typed(raw: RawPath): Path
  {
    Path(raw.sourceVersion, raw.targetVersion, if raw.mode == "in-place-update" then InPlaceUpdate else SameVersionRecovery)
  }

  function TypedAll(raw: seq<RawPath>): seq<Path>
  {
    seq(|raw|, i requires 0 <= i < |raw| => Typed(raw[i]))
  }

  ghost predicate IsAccepted(raw: RawPath)
  {
    IsModeName(raw.mode) && IsDirected(Typed(raw))
  }

  method ParsePath(raw: RawPath) returns (r: Result<Path, string>)
    ensures r.Success? <==> IsAccepted(raw)
    ensures r.Success? ==> r.value == Typed(raw)
    ensures r.Success? ==> (r.value == Path(raw.sourceVersion, raw.targetVersion, InPlaceUpdate) && raw.mode == "in-place-update")
                           || (r.value == Path(raw.sourceVersion, raw.targetVersion, SameVersionRecovery) && raw.mode == "same-version-recovery")
    ensures r.Success? <==>
              && IsVersionText(raw.sourceVersion) && IsVersionText(raw.targetVersion)
              && ((raw.mode == "in-place-update" && Newer(raw.targetVersion, raw.sourceVersion))
                  || (raw.mode == "same-version-recovery" && WithoutBuild(raw.targetVersion) == WithoutBuild(raw.sourceVersion)))
    ensures !IsVersionText(raw.sourceVersion) ==> r == Failure("invalid_source_version")
    ensures IsVersionText(raw.sourceVersion) && IsVersionText(raw.targetVersion) && IsModeName(raw.mode) && r.Failure? ==>
              r.error == "invalid_supported_path_direction"
  {
    if !IsVersionText(raw.sourceVersion) { return Failure("invalid_source_version"); }
    if !IsVersionText(raw.targetVersion) { return Failure("invalid_target_version"); }
    if !IsModeName(raw.mode) { return Failure("invalid_path_mode"); }
    var comparison := CompareSemanticVersions(raw.targetVersion, raw.sourceVersion);
    if (raw.mode == "same-version-recovery" && comparison.value != 0) || (raw.mode == "in-place-update" && comparison.value <= 0) {
      return Failure("invalid_supported_path_direction");
    }
    r := Success(Typed(raw));
  }

  /** The text by which the list is sorted. */
  function KeyOf(raw: RawPath): string { raw.sourceVersion + ":" + raw.targetVersion + ":" + raw.mode }

  lemma KeysAreIdentities(raw: RawPath)
    requires IsModeName(raw.mode)
    ensures Typed(raw).Identity() == KeyOf(raw)
  {
  }

  /** A list is accepted exactly when it is bounded, every entry leads where its mode says, and it is strictly sorted. */
  method ParseSupportedPaths(raw: seq<RawPath>) returns (r: Result<seq<Path>, string>)
    ensures r.Success? <==>
              1 <= |raw| <= MAXIMUM_PATHS && (forall i :: 0 <= i < |raw| ==> IsAccepted(raw[i])) && IsStrictlySorted(TypedAll(raw))
    ensures r.Success? ==> r.value == TypedAll(raw) && AreDirected(r.value)
    ensures r.Success? <==>
              1 <= |raw| <= 32 && (forall i :: 0 <= i < |raw| ==> IsAccepted(raw[i]))
              && forall i :: 0 <= i < |raw| - 1 ==> Before(KeyOf(raw[i]), KeyOf(raw[i + 1]))
  {
    if |raw| == 0 || |raw| > MAXIMUM_PATHS { return Failure("invalid_supported_paths"); }
    var paths: seq<Path> := [];
    for i := 0 to |raw|
      invariant |paths| == i && forall k :: 0 <= k < i ==> IsAccepted(raw[k]) && paths[k] == Typed(raw[k])
    {
      var path := ParsePath(raw[i]);
      if path.Failure? { return Failure(path.error); }
      paths := paths + [path.value];
    }
    assert paths == TypedAll(raw);
    forall i | 0 <= i < |raw| ensures paths[i].Identity() == KeyOf(raw[i]) { KeysAreIdentities(raw[i]); }
    if !IsStrictlySorted(paths) { return Failure("invalid_supported_path_order"); }
    r := Success(paths);
  }

  // ----- the path checks of an update package -----

  predicate IsListed(paths: seq<Path>, source: string, target: string)
  {
    exists i :: 0 <= i < |paths| && paths[i].sourceVersion == source && paths[i].targetVersion == target
  }

  lemma SameIsNotNewer(a: string, b: string)
    requires IsSemanticVersion(a) && IsSemanticVersion(b) && WithoutBuild(a) == WithoutBuild(b)
    ensures !Newer(a, b) && !Newer(b, a)
  {
    EqualUpToBuild(a, b);
    ParsedIsWellFormed(a);
    OrderIsTotal(ParseSemanticVersion(a).value, ParseSemanticVersion(b).value);
  }

  lemma NewerIsNotOlder(a: string, b: string)
    requires Newer(a, b)
    ensures NotOlder(a, b)
  {
    ParsedIsWellFormed(a);
    ParsedIsWellFormed(b);
    OrderIsTotal(ParseSemanticVersion(a).value, ParseSemanticVersion(b).value);
  }

  lemma DirectedIsNotOlder(p: Path)
    requires IsDirected(p)
    ensures NotOlder(p.targetVersion, p.sourceVersion)
  {
    if p.mode.InPlaceUpdate? {
      NewerIsNotOlder(p.targetVersion, p.sourceVersion);
    } else {
      SameIsNotNewer(p.targetVersion, p.sourceVersion);
    }
  }

  /**
   With a policy's paths an update passes exactly when its path is listed: the later checks for
   downgrades and modes cannot fail, and what passes is no downgrade.
   */
  method CheckUpdatePath(paths: seq<Path>, source: string, target: string) returns (r: Result<Path, string>)
    requires IsSemanticVersion(source) && IsSemanticVersion(target)
    ensures !IsListed(paths, source, target) ==> r == Failure("unsupported_update_path")
    ensures r.Success? ==> IsListed(paths, source, target) && r.value in paths && NotOlder(target, source)
                           && (r.value.mode.InPlaceUpdate? <==> Newer(target, source))
    ensures AreDirected(paths) && IsListed(paths, source, target) ==> r.Success?
  {
    hide ParseSemanticVersion, WithoutBuild, Less;
    var index := 0;
    while index < |paths| && !(paths[index].sourceVersion == source && paths[index].targetVersion == target)
      invariant 0 <= index <= |paths|
      invariant forall i :: 0 <= i < index ==> !(paths[i].sourceVersion == source && paths[i].targetVersion == target)
    {
      index := index + 1;
    }
    if index == |paths| { return Failure("unsupported_update_path"); }
    var path := paths[index];
    var comparison := CompareSemanticVersions(target, source);
    if WithoutBuild(target) == WithoutBuild(source) { SameIsNotNewer(target, source); }
    if Newer(target, source) { NewerIsNotOlder(target, source); }
    if comparison.value < 0 { return Failure("downgrade_rejected"); }
    if (comparison.value == 0 && !path.mode.SameVersionRecovery?) || (comparison.value > 0 && !path.mode.InPlaceUpdate?) {
      return Failure("update_mode_mismatch");
    }
    r := Success(path);
  }

  // ----- what the paths mean for installations -----

  lemma NotOlderIsTransitive(a: string, b: string, c: string)
    requires NotOlder(a, b) && NotOlder(b, c)
    ensures NotOlder(a, c)
  {
    var x, y, z := ParseSemanticVersion(a).value, ParseSemanticVersion(b).value, ParseSemanticVersion(c).value;
    ParsedIsWellFormed(a);
    ParsedIsWellFormed(b);
    ParsedIsWellFormed(c);
    OrderIsTotal(x, y);
    OrderIsTotal(y, z);
    OrderIsTotal(x, z);
    if x != y && y != z {
      OrderIsTransitive(z, y, x);
    }
  }

  /** The paths of a policy as rollback reads them. */
  ghost predicate HoldsPaths(policy: Policy, paths: seq<Path>)
  {
    AreDirected(paths) && forall p :: p in policy.supportedPaths ==> IsListed(paths, p.sourceVersion, p.targetVersion)
  }

  /** A rollback that completes never goes to a newer version. */
  lemma RollbackNeverUpgrades(policy: Policy, paths: seq<Path>, t: Tree, uuid: string)
    requires Bootable(policy, t) && HoldsPaths(policy, paths) && RollbackCompletes(policy, t, uuid)
    ensures var c := Current(policy, t);
            var other := ViewOf(policy, t).At(c.pointer.Other());
            other.Some? && NotOlder(c.record.version, other.value.slot.record.version)
  {
    hide ViewOf, RollbackCompletes, TemporaryIsTaken, Sound, IsDirected;
    RollbackNeeds(policy, t, uuid);
    var c := Current(policy, t);
    var other := ViewOf(policy, t).At(c.pointer.Other()).value;
    assert IsListed(paths, other.slot.record.version, c.record.version);
    var i :| 0 <= i < |paths| && paths[i].sourceVersion == other.slot.record.version && paths[i].targetVersion == c.record.version;
    DirectedIsNotOlder(paths[i]);
  }

  lemma ActiveIsVersioned(policy: Policy, t: Tree)
    requires Bootable(policy, t)
    ensures NotOlder(Current(policy, t).record.version, Current(policy, t).record.version)
  {
    ActiveShape(policy, t);
    var version := Current(policy, t).record.version;
    SameIsNotNewer(version, version);
  }

  /** An update along a listed path, however far it gets, never lowers the installed version. */
  lemma ApplyNeverDowngrades(policy: Policy, paths: seq<Path>, t: Tree, u: Update, o: Options, cut: Cut)
    requires Bootable(policy, t) && VerifiedUpdate(policy, u)
    requires AreDirected(paths) && IsListed(paths, u.source.version, u.target.version)
    ensures var t' := Perform(policy, t, Apply(u, o, cut));
            Bootable(policy, t') && NotOlder(Current(policy, t').record.version, Current(policy, t).record.version)
  {
    hide ViewOf, RunCut, ApplyPlan, Sound, IsDirected, ApplyCompletes;
    ApplyIsCrashAtomic(policy, t, u, o, cut);
    ActiveIsVersioned(policy, t);
    if ApplyCompletes(policy, t, u, o) {
      CompletesFromItsSource(policy, t, u, o);
      var i :| 0 <= i < |paths| && paths[i].sourceVersion == u.source.version && paths[i].targetVersion == u.target.version;
      DirectedIsNotOlder(paths[i]);
    }
  }

  lemma CompletesFromItsSource(policy: Policy, t: Tree, u: Update, o: Options)
    requires Bootable(policy, t) && VerifiedUpdate(policy, u) && ApplyCompletes(policy, t, u, o)
    ensures Current(policy, t).record.version == u.source.version
  {
    hide ViewOf, Run, Until;
    ApplyStops(policy, t, u, o);
  }

  /** No rollback, and every update along a listed path. */
  ghost predicate IsForward(paths: seq<Path>, command: Command)
  {
    match command
    case Apply(u, _, _) => IsListed(paths, u.source.version, u.target.version)
    case Rollback(_, _) => false
    case Recover(_) => true
  }

  /** Over any run of complete or interrupted updates and recoveries the installed version never falls. */
  lemma {:induction false} VersionNeverFalls(policy: Policy, paths: seq<Path>, t: Tree, commands: seq<Command>)
    requires Bootable(policy, t) && LegalAll(policy, t, commands) && AreDirected(paths)
    requires forall i :: 0 <= i < |commands| ==> IsForward(paths, commands[i])
    ensures Bootable(policy, PerformAll(policy, t, commands))
    ensures NotOlder(Current(policy, PerformAll(policy, t, commands)).record.version, Current(policy, t).record.version)
    decreases |commands|
  {
    hide Bootable, Perform, NotOlder, AreDirected;
    if commands == [] {
      ActiveIsVersioned(policy, t);
    } else {
      var t' := Perform(policy, t, commands[0]);
      StepNeverDowngrades(policy, paths, t, commands[0]);
      VersionNeverFalls(policy, paths, t', commands[1..]);
      NotOlderIsTransitive(Current(policy, PerformAll(policy, t, commands)).record.version,
                           Current(policy, t').record.version, Current(policy, t).record.version);
    }
  }

  lemma StepNeverDowngrades(policy: Policy, paths: seq<Path>, t: Tree, command: Command)
    requires Bootable(policy, t) && Legal(policy, t, command) && AreDirected(paths) && IsForward(paths, command)
    ensures Bootable(policy, Perform(policy, t, command))
    ensures NotOlder(Current(policy, Perform(policy, t, command)).record.version, Current(policy, t).record.version)
  {
    hide ViewOf, RunCut, ApplyPlan, NotOlder;
    PerformKeepsBootable(policy, t, command);
    if command.Apply? {
      ApplyNeverDowngrades(policy, paths, t, command.u, command.o, command.cut);
    } else {
      ActiveIsVersioned(policy, t);
      RecoveryKeepsView(policy, t, command.ops);
    }
  }
}
