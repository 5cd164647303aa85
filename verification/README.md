# Verified models of the chat platform's stateful cores

This project models the parts of the repository whose correctness depends on history, on
interruption or on interleaving, and proves what they promise:

- the dual-slot updater, whose every file operation can be the last one before a crash, the
  integrity of what is installed, and the list of supported update paths;
- the realtime hub with its subscription index, admission, duplicate window, sequence numbers and
  byte accounting, and the client cursor at the other end;
- the depth-first cycle finder of the architecture check;
- the ordered, bounded message windows of the web client;
- client addresses, trusted networks and the walk through `x-forwarded-for`;
- the checkpoint protocol of desktop notifications;
- the fixed-window rate limiter, sessions, permissions and the moderation order;
- semantic versions.

## How the models are built

A component that updates its fields is a class with the same fields and methods. Each method is
proved equal to a step function on values (`RealtimeHub.Step`, `UpdatePlans.ApplyPlan` with
`RunCut`, `AuthSessions.Step`, `DesktopPolling.PollOnce`, `RateLimiter.Decide`), and the promises
are lemmas about those functions over every run. Pure code is a function with lemmas about it.

- A crash is a `Cut`: a call may stop before any file operation, with or without the clean-up that
  runs when an operation throws. Writing a file is two operations, so it can be left torn.
- In the hub every span between two `await`s is one `Event`; a run is any legal sequence of events,
  so the theorems hold for every interleaving. `WebsocketHub.WebsocketHub` carries the closures.
- SHA-256 is an injective function: a digest is represented by what was hashed.
- `localeCompare` is the sign of the difference of a real rank. Every countable total preorder has
  such a rank; where distinct ids must not compare equal, the rank is required to be injective.
  For notification positions (ISO instants, lower-case UUIDs) it is the order of code units.
- Clocks, random values, callbacks and the outcome of foreign calls (password hashing, the native
  notification service, I/O errors) are parameters.

## What the code does not promise, with exact conditions

- A pointer's generation is limited to 1,000,000. At the limit `apply` and `rollback` still finish
  without an error, but the old install stays active: the new one becomes active if and only if
  the old generation is below the limit (`UpdateRuns.ApplyIsCrashAtomic`, `RollbackIsCrashAtomic`).
  A same-version recovery and enough rollbacks get there from a fresh installation, and both calls
  then finish without effect (`UpdateLimit.LimitIsReached`).
- `initialize` does not check the artifact's size. The finished installation boots if and only if
  the artifact is within `maximumArtifactBytes` (`UpdateRuns.InitialIsBootable`).
- `recover` refuses more than sixteen staged entries or slots, and no other call removes one that
  was there before. An installation can never be recovered again if and only if it holds more than
  sixteen of either (`UpdateLeftovers.RecoveryIsLostExactly`). Sixteen completed updates of a fresh
  installation, or seventeen that stop in staging, lead there (`SlotsOverflow`, `StagedOverflow`).
- `maxSubscriptions` is checked before the awaits of a subscribe message, so two handlers can
  exceed it (`HubRuns.SubscriptionLimitIsNotACap`). It is a cap of a run, whatever the waiting
  handlers still do, if and only if every message that passed also fits when the waiting handlers
  are counted (`HubLimits.SubscriptionLimitIsExact`).
- A subscribe handler can resume after `cleanup` and leave an unregistered socket in the index
  (`HubRuns.IndexedSocketMayBeUnregistered`). Indexed sockets stay registered before `close` if
  and only if no handler does so (`HubLimits.RegistrationIsExact`).
- Merging message windows in two steps can differ from merging at once
  (`MessageWindow.MovedTimesAreNotIncremental` moves a message back in time). For one maximum
  they agree if and only if each trimmed message that the second batch leaves alone has enough
  messages beyond it in the whole (`MessageWindow.IncrementalExactly`). For all maxima they agree
  if and only if no message that the second batch leaves alone loses messages beyond it, counted
  up to the largest maximum (`IncrementalForEveryMaximum`). Fixed creation times are enough
  (`MergingIsIncremental`).
- Switching notifications on takes the server's clock as the checkpoint, and a clock behind the
  stored one moves it back (`DesktopPolling.ClockBehindMovesBack`). The checkpoint of a run never
  moves back if and only if no such clock lies behind the instant stored then
  (`CheckpointFollowsClocks`), and no handled position can be offered again if and only if none
  lies behind the instant of the last one handled (`HandledFollowsClocks`).
- A notification that the desktop accepted is offered again by the next query over the same
  listing if and only if its acceptance could not be stored (`DesktopPolling.ReofferedExactly`).
- The rate limiter admits up to `2 * limit - 1` calls in a span of one window's length, and every
  limit meets that bound when the window is at least two milliseconds long
  (`RateLimiter.RateIsBounded`, `RateLimiter.BoundIsMet`).

## Model

| member | source | states |
|---|---|---|
| Versioning.ComparePrerelease | tools/release/versioning.ts:121-137 | the loop computes SemVer's order of prerelease lists: -1, 1 or 0 exactly for smaller, greater and equal lists |
| Versioning.CompareSemanticVersions | tools/release/versioning.ts:139-146 | fails exactly on texts that are no versions; otherwise the sign of the order, 0 exactly for texts equal up to build metadata |
| Versioning.OrderIsTotal | tools/release/versioning.ts:139-146 | any two distinct versions are ordered one way and not the other |
| Versioning.OrderIsTransitive | tools/release/versioning.ts:121-146 | the order is transitive over mixed numeric and alphanumeric prerelease lists of any length |
| Versioning.LessIsExact | tools/release/versioning.ts:121-146 | one version is older exactly by the larger number at the first difference, else as a prerelease of the same release, else by the first different identifier: numbers by value and before texts, texts by code unit, a proper prefix first |
| Versioning.ParsedPrints | tools/release/versioning.ts:105-119 | printing a parsed version gives back its text without the build metadata |
| Versioning.PrintedParses | tools/release/versioning.ts:105-119 | every well-formed version parses from its text |
| Versioning.ParsesExactly | tools/release/versioning.ts:105-119 | a text parses to a version exactly when it is the version, written without leading zeros, with any build metadata behind |
| Versioning.EqualUpToBuild | tools/release/versioning.ts:105-146 | two texts parse to one version exactly when they agree up to build metadata |
| UpdatePaths.ParsePath | tools/release/update-recovery.ts:347-370 | an entry is accepted exactly when its versions parse and its mode, one of two names, says which way it leads |
| UpdatePaths.ParseSupportedPaths | tools/release/update-recovery.ts:343-382 | a list is accepted exactly when it has 1 to 32 accepted entries, strictly ascending by source, target and mode |
| UpdatePaths.CheckUpdatePath | tools/release/update-recovery.ts:746-762 | with a policy's paths an update passes exactly when its path is listed, so the downgrade and mode checks cannot fail; what passes is no downgrade |
| UpdatePaths.RollbackNeverUpgrades | tools/release/update-recovery.ts:1147-1158 | a rollback that completes goes to a version that is not newer |
| UpdatePaths.ApplyNeverDowngrades | tools/release/update-recovery.ts:1002-1111 | an update along a listed path, stopped anywhere, does not lower the installed version |
| UpdatePaths.VersionNeverFalls | tools/release/update-recovery.ts:1002-1145 | over any run of complete or interrupted updates and recoveries the installed version never falls |
| UpdateTree.EntryShape | tools/release/update-recovery.ts:937-990 | a valid pointer names a healthy slot of its own identity within the generation range |
| UpdateTree.SameEntry | tools/release/update-recovery.ts:937-990 | a pointer file reads the same as long as it and the slot it names read the same |
| UpdateTree.StagingIsInvisible | tools/release/update-recovery.ts:964-990 | no operation inside the staging area changes what is installed |
| UpdateTree.DeadSlotIsInvisible | tools/release/update-recovery.ts:937-990 | no change of a slot that stays unreadable or unhealthy changes what is installed, even when a stale pointer names it |
| UpdateTree.UnlinkPointer | tools/release/update-recovery.ts:854-858 | unlinking a pointer file removes exactly that entry from the view |
| UpdateTree.RenamePointer | tools/release/update-recovery.ts:859 | the final rename of a pointer installs exactly the entry it names |
| UpdateIntegrity.ReadsExactly | tools/release/update-recovery.ts:937-962 | a slot is read exactly when its record parses under its own id and both files are there within their bounds with the digests of the record |
| UpdateIntegrity.ValidExactly | tools/release/update-recovery.ts:937-990 | a pointer is valid exactly when its generation and checksum are right and it names an intact, healthy slot |
| UpdateIntegrity.ActiveExactly | tools/release/update-recovery.ts:964-1000 | the active install is the valid entry with the highest generation, and there is none exactly without a valid entry |
| UpdateIntegrity.TiesGoToTheFirst | tools/release/update-recovery.ts:982-988 | of two valid entries of one generation the first is active |
| UpdateIntegrity.DamageIsNoticed | tools/release/update-recovery.ts:937-962 | changing or removing the artifact or the data of a slot makes every pointer to it invalid |
| UpdateIntegrity.DamageFallsBack | tools/release/update-recovery.ts:964-1000 | when the active slot is damaged the other valid entry is active, and without one there is none |
| UpdateIntegrity.ActiveIsIntact | tools/release/update-recovery.ts:880-1174 | after any history the active slot holds the files of its digests, and record, artifact and data are the baseline's or those of an update of the history |
| UpdateRecovery.ActiveEntry | tools/release/update-recovery.ts:992-1000 | the active install is the entry with the highest generation |
| UpdateRecovery.DroppedView | tools/release/update-recovery.ts:964-1000 | losing the pointer that is not active leaves the active install |
| UpdateRecovery.RaisedView | tools/release/update-recovery.ts:964-1000 | a newer entry on another slot in the inactive pointer becomes the active install |
| UpdateRecovery.StagingPhase | tools/release/update-recovery.ts:1040-1075 | every stop while staging shows the old installation; at the end the staged files are complete |
| UpdateRecovery.PublishPhase | tools/release/update-recovery.ts:1076 | moving the staged slot into place shows nothing new |
| UpdateRecovery.PointPhase | tools/release/update-recovery.ts:850-864 | every stop inside a pointer replacement, the unlink-then-rename gap included, shows the old view with or without that pointer; the rename installs the new one |
| UpdateRecovery.MarkPhase | tools/release/update-recovery.ts:1102-1105 | every stop while the healthy mark is written still shows the old installation |
| UpdateRecovery.PointedPhase | tools/release/update-recovery.ts:1040-1091 | up to the pointer at the unhealthy slot every stop shows the old installation, at most without the inactive pointer |
| UpdateRecovery.MarkedPhase | tools/release/update-recovery.ts:1040-1105 | the last operation of an update installs the new slot exactly below the generation limit |
| UpdateRuns.ApplyStops | tools/release/update-recovery.ts:1002-1111 | every stop of `apply`, on every refusing, failing and completing path, shows the old install; the end shows the new one exactly when the call completes below the generation limit |
| UpdateRuns.ApplyIsCrashAtomic | tools/release/update-recovery.ts:1002-1111 | wherever `apply` is stopped, `active` gives exactly the old install, or exactly the new one if and only if the call completed below the generation limit, and the new one only after a passed health check |
| UpdateRuns.RollbackNeeds | tools/release/update-recovery.ts:1147-1158 | rollback completes exactly with a second valid pointer, a supported path back and a free temporary name |
| UpdateRefusals.RefusedBeforeWriting | tools/release/update-recovery.ts:1002-1040 | an update that is installed already is answered, and what is wrong before anything is written is named, in this order |
| UpdateRefusals.RefusedAfterWriting | tools/release/update-recovery.ts:1040-1111 | the outcome of an update that writes, by migration, slot, pointer file and health check, in this order |
| UpdateRefusals.RollbackRefusals | tools/release/update-recovery.ts:1147-1174 | every refusal of a rollback, in order |
| UpdateRefusals.StopIs | tools/release/update-recovery.ts:850-864 | a stop leaves exactly the operations before it, and after an error the clean-up of the failed one |
| UpdateRefusals.FailedReplacementCleansUp | tools/release/update-recovery.ts:844-864 | a file replacement that fails leaves no temporary file |
| UpdateRefusals.SafeIdsAre | tools/release/update-recovery.ts:306-312 | which ids are safe |
| UpdateRefusals.PointersAre | tools/release/update-recovery.ts:829-840 | which pointer records are valid |
| UpdateRuns.RollbackStops | tools/release/update-recovery.ts:1147-1174 | all stops of `rollback` before its rename show the old installation |
| UpdateRuns.RollbackIsCrashAtomic | tools/release/update-recovery.ts:1147-1174 | wherever `rollback` is stopped, the active install is the old one, or the other valid one at the next generation |
| UpdateRuns.UpdatedView | tools/release/update-recovery.ts:1002-1111 | after an update the other pointer still holds the prior install |
| UpdateRuns.RollbackUndoesApply | tools/release/update-recovery.ts:1002-1174 | rollback after a completed update restores the prior slot, record and data exactly, two generations up |
| UpdateRuns.CleaningKeepsEntry | tools/release/update-recovery.ts:1113-1145 | no removal that recovery makes touches a valid entry |
| UpdateRuns.RecoveryKeepsView | tools/release/update-recovery.ts:1113-1145 | recovery, cut off anywhere and in any order, never changes what is installed |
| UpdateRuns.RecoveryIsIdempotent | tools/release/update-recovery.ts:1113-1145 | a finished recovery leaves exactly the slots of the valid pointers and a second one does nothing |
| UpdateRuns.RecoveryCanContinue | tools/release/update-recovery.ts:1113-1145 | as long as something is left over there is a further removal |
| UpdateRuns.PerformKeepsBootable | tools/release/update-recovery.ts:964-1174 | one call, complete or stopped anywhere, keeps the installation bootable and the generation from falling |
| UpdateRuns.AlwaysBootable | tools/release/update-recovery.ts:964-1174 | after any history of complete and interrupted calls `active` succeeds and two valid pointers share neither a generation nor a slot |
| UpdateRuns.InitialIsBootable | tools/release/update-recovery.ts:880-935 | a finished `initialize` boots if and only if the artifact is within the policy's bound |
| UpdateRuns.BootsAfterInitialize | tools/release/update-recovery.ts:880-1174 | every history that starts with a finished `initialize` of a fitting baseline boots |
| UpdateRuns.FirstUpdateCompletes | tools/release/update-recovery.ts:880-1111 | on a fresh installation an update from its identity, with enough space, a fitting migration and a passed health check, goes through |
| UpdateLimit.ApplyNeeds | tools/release/update-recovery.ts:1002-1111 | on any bootable tree an update completes exactly when its source is the installed identity, space, migration and health check are in order, and slot, staging directory and temporary name are free |
| UpdateLimit.InterruptedUpdateGoesThrough | tools/release/update-recovery.ts:1002-1145 | an update that was stopped anywhere leaves the old install active and completes after a finished recovery, exactly when its new temporary name is free |
| UpdateLimit.UpdatedTree | tools/release/update-recovery.ts:1040-1105 | a completed update changes exactly its own slot and the other pointer file |
| UpdateLimit.CycleOnce | tools/release/update-recovery.ts:1147-1174 | a rollback between two installs of one identity completes, keeps both and raises the generation by one |
| UpdateLimit.LimitIsReached | tools/release/update-recovery.ts:1002-1174 | from any fresh installation one same-version recovery and rollbacks reach generation 1,000,000, where a further favoured update and a further rollback complete and the old install stays active |
| UpdateLimit.LimitIsReachedFromNothing | tools/release/update-recovery.ts:829 | a concrete policy, baseline and history that do so |
| UpdateLeftovers.OnlyRecoveryRemoves | tools/release/update-recovery.ts:1002-1174 | updates and rollbacks, complete or stopped anywhere, remove neither slots nor staged entries, and add only those of their own id |
| UpdateLeftovers.LeftoversStay | tools/release/update-recovery.ts:1002-1174 | more than sixteen slots, or staged entries, all stay through every history of complete and interrupted calls |
| UpdateLeftovers.NamesStaySafe | tools/release/update-recovery.ts:1113-1145 | no history creates a name that recovery refuses |
| UpdateLeftovers.RecoveryIsLostExactly | tools/release/update-recovery.ts:1113-1145 | after any history of a fresh installation, every recovery in every continuation is refused exactly when more than sixteen slots or staged entries are there |
| UpdateLeftovers.FillAll | tools/release/update-recovery.ts:1002-1111 | each completed same-version update with an id of its own adds one slot, up to the generation limit |
| UpdateLeftovers.SlotsOverflow | tools/release/update-recovery.ts:1134 | the failing input: sixteen completed updates of a fresh installation leave seventeen slots, and recovery is lost |
| UpdateLeftovers.StagedOverflow | tools/release/update-recovery.ts:1121 | the other failing input: seventeen updates that stop in staging leave seventeen staged entries under the unchanged active install, and recovery is lost |
| UpdateLeftovers.RecoveryIsLostFromNothing | tools/release/update-recovery.ts:1121-1134 | a concrete policy, baseline and pair of histories that do so |
| UpdateSandbox.Initialize | tools/release/update-recovery.ts:880-935 | refuses exactly more than 1,048,576 bytes of data, bad versions and schemas outside 0 to 1,000,000, in this order; otherwise writes the initial tree |
| UpdateSandbox.UpdateRecoverySandbox.constructor | tools/release/update-recovery.ts:899-934 | the file operations of `initialize` leave the initial tree |
| UpdateSandbox.UpdateRecoverySandbox.Do | tools/release/update-recovery.ts:850-864 | performs steps one by one up to the stop, with the clean-up of a failed one |
| UpdateSandbox.UpdateRecoverySandbox.Stage | tools/release/update-recovery.ts:1039-1079 | staging, migration and publishing leave exactly the planned tree or the planned error |
| UpdateSandbox.UpdateRecoverySandbox.Activate | tools/release/update-recovery.ts:1080-1105 | pointer, health check and healthy mark leave exactly the planned tree or the planned error |
| UpdateSandbox.UpdateRecoverySandbox.Apply | tools/release/update-recovery.ts:1002-1111 | the tree and the result of `apply` at every stop; from a bootable tree the old or the healthy new install |
| UpdateSandbox.UpdateRecoverySandbox.Rollback | tools/release/update-recovery.ts:1147-1174 | the tree and the result of `rollback` at every stop |
| UpdateSandbox.UpdateRecoverySandbox.RemoveTree | tools/release/update-recovery.ts:1125-1128 | removing a directory is a recovery of single removals, complete or cut off |
| UpdateSandbox.UpdateRecoverySandbox.Recover | tools/release/update-recovery.ts:1113-1145 | succeeds exactly with an active install, at most 16 staged entries and 16 slots, safe names and time for every removal; the active install never changes; a success leaves a clean tree, a clean tree is left alone, past 16 staged entries nothing changes and past 16 slots every slot stays |
| RealtimeCursor.Cursor.AcceptDelivery | apps/web/src/realtime.ts:8-23 | an id that is remembered is refused and changes nothing; otherwise the verdict and the bounded set of seen ids |
| RealtimeCursor.VerdictsAreExact | apps/web/src/realtime.ts:8-23 | over any list of messages an event is refused exactly while its id is among the last 2,048 accepted, and a gap is reported exactly when an accepted number does not follow the highest accepted one |
| RealtimeCursor.DuplicatesAreRefused | apps/web/src/realtime.ts:8-23 | among up to 2,048 messages, in any order, an event is accepted exactly the first time |
| RealtimeCursor.GapsFrom | apps/web/src/realtime.ts:8-23 | from any place in a numbered stream, a gap is reported exactly after a missed event |
| RealtimeCursor.GapsAreExact | apps/web/src/realtime.ts:8-23 | a fresh client that gets any in-order selection of a numbered stream is told of a gap exactly after a missed event |
| HubAdmission.OwnedStep | apps/server/src/websocket.ts:228-357 | every registered socket has its state and every outstanding send its number, under every event |
| HubAdmission.CapacityStep | apps/server/src/websocket.ts:277-292 | connections plus pending never exceed the total, per-address and per-account limits, despite the awaits before the check |
| HubAdmission.ConnectMoves | apps/server/src/websocket.ts:311-336 | a connection takes over the reservation of its request, per address and per account |
| HubEvents.AdmissionIsExact | apps/server/src/websocket.ts:277-292 | a request gets its reservation exactly when the hub is not draining and none of the three limits is reached |
| HubEvents.ReservationsAreUsedOnce | apps/server/src/websocket.ts:311-336 | an expired or used reservation connects nobody |
| HubEvents.BeginIsExact | apps/server/src/websocket.ts:558-569 | a subscribe message passes exactly when the hub is not draining and the space is there already or fits |
| HubEvents.NobodyJoinsAfterDrain | apps/server/src/websocket.ts:1026-1032 | from a drain on, no reservation is made and no socket is registered in any run |
| HubEvents.ClosedIsEmpty | apps/server/src/websocket.ts:1026-1085 | after `close` no socket is registered in any run, and the index is empty |
| HubIndex.IndexStep | apps/server/src/websocket.ts:348-398 | before `close`, every event keeps the index equal to the sockets' own sets, without empty entries and with the exact count |
| HubIndex.CountCoversSocket | apps/server/src/websocket.ts:379-398 | the count covers every socket's set, so its clamp at zero never acts |
| HubIndex.TargetsAreSubscribed | apps/server/src/websocket.ts:857-895 | `deliver` reaches exactly the registered sockets whose own set holds the space and whose buffered, queued and new bytes together are within the bound |
| HubAccounting.SettleReleases | apps/server/src/websocket.ts:650-662 | a callback releases exactly what its send added unless `cleanup` already did, and no clamp acts |
| HubEvents.SendIsExact | apps/server/src/websocket.ts:629-670 | a message is queued and counted once exactly for an open socket with room in its buffers; otherwise nothing changes |
| HubEvents.SettleIsExact | apps/server/src/websocket.ts:650-662 | the first callback of a message takes it out of every count, later ones do nothing |
| HubAccounting.CleanupKeepsAccounts | apps/server/src/websocket.ts:348-357 | `cleanup` keeps the byte total exact while callbacks are outstanding |
| HubAccounting.AccountsStep | apps/server/src/websocket.ts:629-670 | `outboundQueueBytes` is the sum over all states, none of which exceeds its bound, and `queuedMessages` and `queuedBytes` the number and size of unsettled sends, under every event |
| HubDelivery.AcceptKeepsWindow | apps/server/src/websocket.ts:844-855 | accepting an id keeps the window equal to the last 10,000 accepted ids and equal ids apart |
| HubDelivery.RefusedExactly | apps/server/src/websocket.ts:844-855 | an id is refused exactly while it is among the last 10,000 accepted ones |
| HubDelivery.DeduplicatedStep | apps/server/src/websocket.ts:844-962 | the duplicate window and the delivery log stay exact under every event, concurrent fan-out included |
| HubDelivery.DeliveredAtMostOncePerWindow | apps/server/src/websocket.ts:844-962 | between two deliveries of one id lie at least 10,000 other accepted ids |
| HubDelivery.AdvanceCounts | apps/server/src/websocket.ts:857-876 | the counter table stays bounded and a subscribed space keeps its counter while the index fits the table |
| HubEvents.TableBound | apps/server/src/websocket.ts:169-172 | the counter table holds the product of the two limits, but at least 1 and at most 100,000 |
| HubDelivery.SentIsLogged | apps/server/src/websocket.ts:857-895 | a delivery is logged with the number it carries and the sockets it reaches |
| HubDelivery.SentAreLogged | apps/server/src/websocket.ts:857-895 | over any run the log gains for each space exactly what was sent to it, in order and number by number |
| HubDelivery.NumbersAreConsecutive | apps/server/src/websocket.ts:857-876 | over any run in which the index fits the counter table, a space that stays subscribed numbers its deliveries consecutively |
| HubDelivery.GapsAreDetected | apps/server/src/websocket.ts:857-895 | end to end, while the index fits the counter table, a client of a space that stays subscribed is told of a gap exactly after a missed event |
| HubRuns.InvariantStep | apps/server/src/websocket.ts:228-1085 | every event keeps capacity, accounts, duplicate window, counters and, until closed, the index |
| HubRuns.InvariantOfRun | apps/server/src/websocket.ts:228-1085 | and so does every run |
| HubRuns.ReachableInvariant | apps/server/src/websocket.ts:228-1085 | all of it holds in every state that a fresh hub can reach |
| HubRuns.SubscriptionLimitIsNotACap | apps/server/src/websocket.ts:558-576 | the failing input of `HubLimits.SubscriptionLimitIsExact`: two subscribe handlers exceed the limit of one |
| HubRuns.IndexedSocketMayBeUnregistered | apps/server/src/websocket.ts:570-576 | the failing input of `HubLimits.RegistrationIsExact`: a subscribe handler indexes a socket after `cleanup` |
| HubLimits.StepClaims | apps/server/src/websocket.ts:348-390 | under every event the spaces a socket has or waits for grow at most by that of a message that passed the limit check |
| HubLimits.ClaimsCanResume | apps/server/src/websocket.ts:570-576 | the waiting handlers of a socket can resume so that all its claims become subscriptions |
| HubLimits.ClaimsDecide | apps/server/src/websocket.ts:558-576 | however the waiting handlers resume, no socket exceeds the limit, exactly when no socket claims more than the limit |
| HubLimits.SubscriptionLimitIsExact | apps/server/src/websocket.ts:558-576 | the limit is a cap throughout a run of a fresh hub, and whatever its waiting handlers still do, exactly when each message that passed the check fits with the waiting handlers counted |
| HubLimits.RegisteredStep | apps/server/src/websocket.ts:348-390 | an event other than `close` keeps indexed sockets registered exactly when it is no handler that resumes after `cleanup` |
| HubLimits.RegistrationIsExact | apps/server/src/websocket.ts:570-576 | throughout a run of a fresh hub before `close` all indexed sockets are registered exactly when no handler resumes after `cleanup` |
| HubLimits.IndexFits | apps/server/src/websocket.ts:169-172 | where the subscription limit holds with the waiting handlers counted and indexed sockets are registered, the index fits the counter table, if `maxConnections` times `maxSubscriptions` is at most 100,000 |
| HubLimits.DisciplinedRun | apps/server/src/websocket.ts:228-1085 | both conditions, capacity and the index survive every run before `close` without a late handler or a message that slips past the limit |
| HubLimits.GapsAreDetectedWithinLimits | apps/server/src/websocket.ts:857-895 | in such runs of a fresh hub with such limits a client of a space that stays subscribed is told of a gap exactly after a missed event |
| WebsocketHub.WebsocketHub.Admit | apps/server/src/websocket.ts:277-292 | admits exactly with capacity and without draining |
| WebsocketHub.WebsocketHub.Connect | apps/server/src/websocket.ts:311-336 | registers exactly a pending request |
| WebsocketHub.WebsocketHub.BeginSubscribe | apps/server/src/websocket.ts:558-569 | the limit check before the awaits |
| WebsocketHub.WebsocketHub.CheckCapacity | apps/server/src/websocket.ts:278-289 | the three counts of the check are those of the registered and pending sockets |
| WebsocketHub.WebsocketHub.AddSubscription | apps/server/src/websocket.ts:570-576 | a resuming handler ends and subscribes its socket, registered or not |
| WebsocketHub.WebsocketHub.Index | apps/server/src/websocket.ts:365-377 | the socket's set and the index gain the space together |
| WebsocketHub.WebsocketHub.RemoveSubscription | apps/server/src/websocket.ts:379-390 | the socket's set and the index lose the space together, an emptied space disappears |
| WebsocketHub.WebsocketHub.RemoveAllSubscriptions | apps/server/src/websocket.ts:392-398 | the loop removes exactly the socket's own spaces |
| WebsocketHub.WebsocketHub.Cleanup | apps/server/src/websocket.ts:348-357 | unregistering, unsubscribing and taking back the bytes are one event, and nothing for a socket already gone |
| WebsocketHub.WebsocketHub.SendSerialized | apps/server/src/websocket.ts:629-670 | queues exactly an accepted message; a throwing send leaves no trace |
| WebsocketHub.WebsocketHub.Settle | apps/server/src/websocket.ts:651-662 | the first call of a callback releases its message, later ones do nothing |
| WebsocketHub.WebsocketHub.Remember | apps/server/src/websocket.ts:844-855 | accepts exactly ids outside the window |
| WebsocketHub.WebsocketHub.NextSequence | apps/server/src/websocket.ts:860-876 | the move to the end and the eviction leave the specified table |
| WebsocketHub.WebsocketHub.EvictSequence | apps/server/src/websocket.ts:866-874 | the search finds the first space without subscribers, whose counter goes; the oldest one goes when all have some |
| WebsocketHub.WebsocketHub.SendAll | apps/server/src/websocket.ts:886-892 | the loop over the subscribers, in any order, reaches exactly the targets |
| WebsocketHub.WebsocketHub.Deliver | apps/server/src/websocket.ts:857-895 | the whole delivery is one event |
| WebsocketHub.WebsocketHub.Drain | apps/server/src/websocket.ts:1026-1032 | draining forgets all reservations |
| ArchitectureCycles.TailIsSimpleCycle | tools/architecture/check.ts:172-176 | the tail of the active path closed at its node is a simple cycle |
| ArchitectureCycles.PositionsFall | tools/architecture/check.ts:166-187 | along edges that close no report the finishing position only falls |
| ArchitectureCycles.ClosedWalkIsReported | tools/architecture/check.ts:166-187 | every closed walk contains an edge that closes a report |
| ArchitectureCycles.EdgesAreListed | tools/architecture/check.ts:181 | the edges are those that the graph lists |
| ArchitectureCycles.CycleFinder.Report | tools/architecture/check.ts:172-176 | one more genuine cycle, ending with the current edge |
| ArchitectureCycles.CycleFinder.Visit | tools/architecture/check.ts:171-184 | ends on every finite graph, restores the active path, finishes the node or reports it |
| ArchitectureCycles.Cycles | tools/architecture/check.ts:166-187 | reports only simple cycles, hits every closed walk, is empty if and only if the graph is acyclic, and ends no two reports with the same edge when the dependencies are sets |
| MessageWindow.OrderedIsUnique | apps/web/src/message-window.ts:43-48 | an ordered list is determined by its elements |
| MessageWindow.BeforeIs | apps/web/src/message-window.ts:43-48 | earlier creation comes first, the smaller id at equal times |
| MessageWindow.PutReplaces | apps/web/src/message-window.ts:40-42 | `Map.set` keeps one message per id, the last one |
| MessageWindow.ByIdKeepsLatest | apps/web/src/message-window.ts:40-42 | the filled map holds exactly the latest message of each id |
| MessageWindow.SortOrders | apps/web/src/message-window.ts:43-48 | the sort orders strictly and keeps the elements |
| MessageWindow.MergedIsOrderedLatest | apps/web/src/message-window.ts:34-49 | the merge is the ordered list of the latest message of each id |
| MessageWindow.KeptByRivals | apps/web/src/message-window.ts:12-23 | a message is kept exactly when fewer than `maximum` messages lie beyond it |
| MessageWindow.RivalsStay | apps/web/src/message-window.ts:12-23 | with fixed creation times no message loses messages beyond it when ids are added |
| MessageWindow.IncrementalExactly | apps/web/src/message-window.ts:12-52 | for one maximum: merging in two steps equals merging at once exactly when every message that the first step trims and the second batch leaves alone has at least `maximum` messages beyond it in the whole |
| MessageWindow.IncrementalForEveryMaximum | apps/web/src/message-window.ts:12-52 | for every maximum: it does exactly when no message that the second batch leaves alone has fewer messages beyond it in the whole, counted up to the largest maximum |
| MessageWindow.MergingIsIncremental | apps/web/src/message-window.ts:12-52 | with fixed creation times, merging in two steps equals merging at once, for both retentions and every maximum |
| MessageWindow.MovedTimesAreNotIncremental | apps/web/src/message-window.ts:34-52 | the failing input: a message that moves back in time, trimmed to one message |
| MessageWindow.FindPlace | apps/web/src/ordered-messages.ts:32-40 | the binary search splits an ordered list at the message's place |
| MessageWindow.UpsertOrderedMessage | apps/web/src/ordered-messages.ts:13-43 | replaces or inserts one message; on an ordered list this is the merge with it |
| MessageWindow.ExchangeIsMerged | apps/web/src/ordered-messages.ts:18-23 | replacing in place at an unchanged position is the merge |
| MessageWindow.InsertIsMerged | apps/web/src/ordered-messages.ts:25-43 | removing and inserting in order is the merge |
| MessageWindow.UpsertMessageWindow | apps/web/src/message-window.ts:25-32 | fails exactly on a bad maximum; on an ordered window it equals `mergeMessageWindow` with one message |
| MessageWindow.MergeMessageWindow | apps/web/src/message-window.ts:34-52 | the two loops compute the specified merge |
| MessageWindow.TrimmedStaysTrimmed | apps/web/src/message-window.ts:12-23 | a message that was trimmed stays out of every later window over the same ids |
| MessageWindow.FeedIsOneMerge | apps/web/src/message-window.ts:25-52 | any number of realtime updates equals one merge |
| ClientAddress.ParseIpv4Bytes | apps/server/src/client-address.ts:155-167 | the loop accepts exactly four octets without leading zeros |
| ClientAddress.CanonicalAddress | apps/server/src/client-address.ts:208-216 | the loop prints the specified canonical form |
| ClientAddress.GroupsAreExact | apps/server/src/client-address.ts:181-206 | the group parser accepts exactly the plain and the compressed forms of section 2.2 of RFC 4291, with their values |
| ClientAddress.EmbeddedParses | apps/server/src/client-address.ts:169-180 | a dotted tail means the two groups of its four octets |
| ClientAddress.FromIpv6IsAddress | apps/server/src/client-address.ts:138-152 | an address of ten zero bytes and two bytes 255 becomes the four-byte IPv4 address behind them (section 2.5.5.2 of RFC 4291), any other stays IPv6 |
| ClientAddress.Ipv4RoundTrip | apps/server/src/client-address.ts:155-167 | a printed IPv4 address parses to it |
| ClientAddress.Ipv6RoundTrip | apps/server/src/client-address.ts:169-216 | a printed IPv6 address parses to it |
| ClientAddress.CanonicalParses | apps/server/src/client-address.ts:133-216 | every address prints to a text that parses to the same family and bytes |
| ClientAddress.ParsedIsAddress | apps/server/src/client-address.ts:133-153 | what parses is an address with its canonical text |
| ClientAddress.ReparseKeeps | apps/server/src/client-address.ts:133-153 | parsing the canonical text of any accepted address gives that address |
| ClientRanges.AndClearsLow | apps/server/src/client-address.ts:112-116 | `&` with a shifted mask clears the low bits |
| ClientRanges.MaskBytes | apps/server/src/client-address.ts:108-124 | the loops compute the specified mask |
| ClientRanges.MaskedIsArithmetic | apps/server/src/client-address.ts:108-124 | masking clears the low bits of the big-endian value |
| ClientRanges.ParsedIsCidr | apps/server/src/client-address.ts:77-98 | what parses is an aligned network with a bounded prefix and its canonical text |
| ClientRanges.MatchIsRange | apps/server/src/client-address.ts:100-106 | matching a network is membership in its aligned range of the same family |
| ClientRanges.MatchesAnyIsMembership | apps/server/src/client-address.ts:100-106 | an address is trusted exactly when it lies in the range of some network |
| ClientResolver.CidrRoundTrip | apps/server/src/client-address.ts:77-98 | a network prints to a text that parses to it |
| ClientResolver.CidrIsExact | apps/server/src/client-address.ts:77-98 | a text is a network exactly when it is an address, a slash and one to three digits, the prefix is bounded and the address a multiple of the network's size |
| ClientResolver.CidrRefusals | apps/server/src/client-address.ts:77-98 | why an entry is refused, in order |
| ClientResolver.ConfigurationIsExact | apps/server/src/client-address.ts:25-43 | every outcome of a configured list, from its parts between commas |
| ClientResolver.ConfigurationRoundTrip | apps/server/src/client-address.ts:25-43 | the comma-joined result of any accepted configuration configures the same list |
| ClientResolver.HeaderReads | apps/server/src/client-address.ts:53-63 | a header of up to sixteen canonical addresses is read as these addresses |
| ClientResolver.HeaderIsExact | apps/server/src/client-address.ts:53-63 | a header is used exactly when it joins 1 to 16 addresses, each between any blanks, by commas in at most 2,048 characters, and it is read as these |
| ClientResolver.ClientIsExact | apps/server/src/client-address.ts:65-72 | the client is the rightmost untrusted address of the listed ones and the peer, or the leftmost |
| ClientResolver.FirstUntrustedIs | apps/server/src/client-address.ts:65-72 | the walk ends at the rightmost untrusted address, or at the leftmost address |
| ClientResolver.LeftIsIgnored | apps/server/src/client-address.ts:65-72 | what stands left of an untrusted address has no influence |
| ClientResolver.Resolve | apps/server/src/client-address.ts:45-75 | unreadable peers are unknown; otherwise the text of the rightmost untrusted address among those that the header lists between blanks and commas and the peer, or of the leftmost; without such a header the peer |
| DesktopNotifications.QueryDeliveries | apps/server/src/app.ts:566-637 | the handler's loop computes the specified page |
| DesktopNotifications.SortAscends | apps/server/src/app.ts:178-186 | the sort is strictly ascending and keeps the records |
| DesktopNotifications.NewerIs | apps/server/src/app.ts:188-197 | the filter keeps exactly the records behind the checkpoint, in order |
| DesktopNotifications.OffersAre | apps/server/src/app.ts:585-613 | the offers are exactly the wanted records, in order |
| DesktopNotifications.PageIs | apps/server/src/app.ts:566-637 | a page offers newer wanted records in ascending order, its checkpoint covers the listing, and without overflow it offers all of them |
| DesktopNotifications.PageIsExact | apps/server/src/app.ts:566-637 | from the listing alone: exactly the unread, unarchived, unexpired, wanted records behind the checkpoint with fewer than twenty listed behind them are offered; more than twenty behind the checkpoint overflow; the new checkpoint is the last listed place or the old one |
| DesktopNotifications.InitialPage | apps/server/src/app.ts:585-620 | switching on offers nothing and answers with the server's present |
| DesktopPolling.DesktopClient.HandleItems | apps/web/src/desktop-notifications.ts:217-238 | the loop stores the checkpoint of each handled item and stops where the specification stops |
| DesktopPolling.DesktopClient.Poll | apps/web/src/desktop-notifications.ts:182-248 | the whole poll, with every way it can end |
| DesktopPolling.DesktopClient.Initialize | apps/web/src/desktop-notifications.ts:157-180 | switching on takes the server's present as the checkpoint |
| DesktopPolling.ConsumeRecordsAPrefix | apps/web/src/desktop-notifications.ts:217-238 | a poll handles a prefix of the offered items and its checkpoint is the last of them |
| DesktopPolling.LoopEnds | apps/web/src/desktop-notifications.ts:217-238 | the loop stops at the first item that was not handled and saved, and what happened there decides status, count and whether notifications stay on |
| DesktopPolling.PollEnds | apps/web/src/desktop-notifications.ts:182-248 | how every poll ends: status, checkpoint and settings |
| DesktopPolling.SettingsAre | apps/web/src/desktop-notifications.ts:157-180 | the settings that switching on and the control leave |
| DesktopPolling.PollMovesForward | apps/web/src/desktop-notifications.ts:182-248 | however a poll ends, the checkpoint only moves forward over what was handled |
| DesktopPolling.CompletePollOffersAll | apps/web/src/desktop-notifications.ts:209-248 | a poll that completes without overflow has handled every newer record that the server does not filter |
| DesktopPolling.CoveredIsRecorded | apps/web/src/desktop-notifications.ts:182-248 | however a poll without overflow ends, its checkpoint covers a wanted newer record exactly when it handled the record |
| DesktopPolling.NothingIsSkipped | apps/web/src/desktop-notifications.ts:157-248 | over any run of polls cut off anywhere, a record that is listed and wanted, without overflow, until it is handled is covered by the checkpoint only once handled, or after switching on passed over it |
| DesktopPolling.StepProgresses | apps/web/src/desktop-notifications.ts:157-248 | one step keeps the handled positions covered exactly when it does not switch on with an answer before the last of them |
| DesktopPolling.CheckpointIsExact | apps/web/src/desktop-notifications.ts:157-248 | over any run the checkpoint never moves back exactly when switching on never answers with a position before the stored one |
| DesktopPolling.EarlierIsEarlierClock | apps/web/src/desktop-notifications.ts:157-180 | against the position of a record, an earlier answer is an earlier server clock |
| DesktopPolling.CheckpointFollowsClocks | apps/web/src/desktop-notifications.ts:157-248 | over any run over records with UUIDs the checkpoint never moves back exactly when no clock lies behind the instant stored when switching on |
| DesktopPolling.OfferedExactly | apps/server/src/app.ts:188-197 | some query offers a record at a position exactly when the checkpoint does not cover it |
| DesktopPolling.HandledIsExact | apps/web/src/desktop-notifications.ts:157-248 | over any run no handled position can be offered again exactly when switching on never answers before the last one handled |
| DesktopPolling.HandledFollowsClocks | apps/web/src/desktop-notifications.ts:157-248 | over any such run no handled position can be offered again exactly when no clock lies behind the instant of the last one handled when switching on |
| DesktopPolling.ClockBehindMovesBack | apps/web/src/desktop-notifications.ts:157-180 | the failing input: a handled record and a server clock behind it |
| DesktopPolling.RunProgresses | apps/web/src/desktop-notifications.ts:157-248 | over any run of polls cut off anywhere in which switching on never answers before the last handled position, the checkpoint covers what was handled and handled positions ascend strictly |
| DesktopPolling.RecordedIsNotOfferedAgain | apps/web/src/desktop-notifications.ts:182-248 | after such a run no page offers a handled notification again while its position is unchanged |
| DesktopPolling.ReofferedExactly | apps/web/src/desktop-notifications.ts:217-230 | an item the desktop handled is offered again exactly when its acceptance could not be stored |
| RateLimiter.CreateRateLimiter | packages/auth/src/index.ts:849-862 | the constructor's errors, in order |
| RateLimiter.FixedWindowRateLimiter.Consume | packages/auth/src/index.ts:863-884 | the new table and the answer of one call |
| RateLimiter.FixedWindowRateLimiter.RemoveExpired | packages/auth/src/index.ts:886-889 | the loop deletes exactly the expired buckets |
| RateLimiter.TableIsBounded | packages/auth/src/index.ts:866-873 | no call grows the table beyond its bound |
| RateLimiter.RefusalChargesNothing | packages/auth/src/index.ts:866-881 | a refused call changes no count of any key |
| RateLimiter.DecisionIsExact | packages/auth/src/index.ts:863-889 | a call is admitted exactly when the table has room, if need be without its expired buckets, and every key with an open window is below the limit; the new table key by key |
| RateLimiter.ExpiredMakeRoom | packages/auth/src/index.ts:866-873 | a table full of expired buckets admits new keys |
| RateLimiter.WindowsHold | packages/auth/src/index.ts:863-884 | over any run the buckets are the keys' last windows, each with at most the limit, a window's length apart |
| RateLimiter.WindowIsBounded | packages/auth/src/index.ts:863-884 | at most the limit is admitted within each window |
| RateLimiter.RateIsBounded | packages/auth/src/index.ts:863-884 | at most twice the limit less one is admitted in any half-open span of a window's length |
| RateLimiter.BoundIsMet | packages/auth/src/index.ts:863-884 | for every limit and every window of at least two milliseconds a run meets this bound |
| RateLimiter.RunIsBounded | packages/auth/src/index.ts:863-889 | the table of any run is bounded |
| AuthenticationService.InMemoryAuthStore.RevokeEach | packages/auth/src/index.ts:240-265 | the loops revoke exactly the sessions aimed at and count them |
| AuthenticationService.InMemoryAuthStore.TouchSession | packages/auth/src/index.ts:205-214 | moves the limits of one unrevoked session |
| AuthenticationService.InMemoryAuthStore.ChangeCredentials | packages/auth/src/index.ts:169-185 | compare-and-set of the credential version |
| AuthenticationService.Authenticate | packages/auth/src/index.ts:433-472 | succeeds exactly for a live session and touches it within its absolute expiry |
| AuthenticationService.Login | packages/auth/src/index.ts:404-431 | issues a session exactly to an active account with a matching password |
| AuthenticationService.Register | packages/auth/src/index.ts:376-402 | creates account and session together; a taken name or a failing session write leaves the store as it was |
| AuthenticationService.ChangePassword | packages/auth/src/index.ts:544-580 | the new version, the revocations, the event and the new session together; whichever write fails, the store is as it was |
| AuthenticationService.InMemoryAuthStore.Restore | packages/auth/src/index.ts:285-302 | a failing transaction puts all three collections back |
| AuthenticationService.RevokeAndRecord | packages/auth/src/index.ts:478-516 | both logouts of several sessions revoke and record, or neither |
| AuthenticationService.RevokeOwnedSession | packages/auth/src/index.ts:518-542 | revokes the session with the handle and records it, or neither |
| AuthenticationService.ResetCredentials | packages/auth/src/index.ts:582-589 | the new credentials and the revocations together, or neither |
| AuthSessions.StepKeepsSound | packages/auth/src/index.ts:361-589 | every call keeps ids and digests distinct, expiries fixed at issue and the idle limit capped |
| AuthSessions.SessionsOnlyAge | packages/auth/src/index.ts:196-265 | over any run a session keeps owner and expiry, and once revoked it never changes |
| AuthSessions.LiveIsAuthentic | packages/auth/src/index.ts:437-453 | a session's token authenticates exactly while the session is live |
| AuthSessions.AuthenticatesExactly | packages/auth/src/index.ts:437-453 | a token authenticates exactly through an unrevoked session of an active account, at its version and within both limits |
| AuthSessions.TokensAre | packages/auth/src/index.ts:437-440 | which texts are tokens |
| AuthSessions.UseIsExact | packages/auth/src/index.ts:454-467 | after a use the token authenticates exactly until `idleSessionMs` later and within its absolute limit; no other token is touched |
| AuthSessions.IdleTokensExpire | packages/auth/src/index.ts:361-589 | over any run a token that authenticates was issued or used less than `idleSessionMs` before |
| AuthSessions.RegistrationIsExact | packages/auth/src/index.ts:376-402 | a registration issues a session, within both limits from then on, exactly when it is not turned away and the name is free |
| AuthSessions.LoginIsExact | packages/auth/src/index.ts:404-431 | a login issues a session, within both limits from then on, exactly to an active account with a matching password |
| AuthSessions.AccountsAfter | packages/auth/src/index.ts:376-589 | what every call does to the accounts: password hashes and versions |
| AuthSessions.EventsAreRecorded | packages/auth/src/index.ts:478-589 | what every call records as a security event |
| AuthSessions.PutIsMapSet | packages/auth/src/index.ts:196-199 | putting a session replaces the one with its id or appends |
| AuthSessions.NothingOutlivesItsExpiry | packages/auth/src/index.ts:437-467 | no run of calls carries a session past the expiry fixed at its issue |
| AuthSessions.RevokedStaysOut | packages/auth/src/index.ts:215-265 | a revoked session never authenticates again |
| AuthSessions.IdleWithinAbsolute | packages/auth/src/index.ts:676-701 | in reachable stores the idle limit lies within the absolute one when the configuration says so |
| AuthSessions.OnlyTheReturnedSession | packages/auth/src/index.ts:544-580 | right after a password change the returned session authenticates if its limits are positive, and no other session of the account does |
| AuthSessions.OldSessionsStayOut | packages/auth/src/index.ts:544-580 | and the earlier ones never authenticate again, in any continuation |
| AuthSessions.LogoutIsExact | packages/auth/src/index.ts:474-516 | each logout ends exactly the sessions it aims at |
| AuthSessions.RevokeOwnedIsExact | packages/auth/src/index.ts:518-542 | revoking by handle ends exactly the first unrevoked session of the account with the handle |
| AuthSessions.ChangeEndsSessions | packages/auth/src/index.ts:544-580 | a password change ends all earlier sessions of its account and no other |
| AuthSessions.ResetIsExact | packages/auth/src/index.ts:582-589 | a reset ends all sessions of its account and no other |
| Authorization.ScopeKeyIsInjective | packages/authorization/src/index.ts:425-427 | no two scopes share a key |
| Authorization.EvaluationOfMembers | packages/authorization/src/index.ts:120-146 | without ownership, allowed exactly when an applicable grant is more specific than every applicable deny; the scope is that of a decision which none outranks |
| Authorization.EvaluationIs | packages/authorization/src/index.ts:81-146 | allowed exactly for a valid actor who owns the community or whose grant outranks every deny, with the matching reason |
| Authorization.EvaluationIsExact | packages/authorization/src/index.ts:81-146 | answer and reason from the input alone: a decision counts exactly for the permission asked for, at one of the scopes, with a global or community role assigned to the actor there; a grant needs a more specific scope than every deny |
| Authorization.ScopeIsThatOfWitness | packages/authorization/src/index.ts:129-146 | the scope named is that of a counting decision of the answer's effect than which none is more specific, a deny coming first |
| Authorization.OwnerNamesTheCommunity | packages/authorization/src/index.ts:92-99 | an owner's answer names the community |
| Authorization.OnlyWitnessesMatter | packages/authorization/src/index.ts:100-128 | decisions that do not count change neither answer nor reason |
| Authorization.OrderDoesNotMatter | packages/authorization/src/index.ts:120-146 | order and repetition of decisions do not change answer and reason |
| Authorization.DenyNeverAllows | packages/authorization/src/index.ts:120-146 | one more deny never turns a refusal into a permission |
| Authorization.GrantNeverRefuses | packages/authorization/src/index.ts:120-146 | one more grant never turns a permission into a refusal |
| Authorization.ModerationIsAsymmetric | packages/authorization/src/index.ts:240-278 | nobody moderates themselves and no two accounts moderate each other |
| Authorization.ModerationIsTransitive | packages/authorization/src/index.ts:240-278 | who moderates a moderator moderates whom that one moderates |
| Authorization.NoModerationCycle | packages/authorization/src/index.ts:240-278 | no chain of moderators of any length returns to its start |
| Authorization.ModerationIsExact | packages/authorization/src/index.ts:240-278 | moderation needs the permission, another account that does not own the community, and ownership or a role above every role of the target |
| Authorization.ModerationReason | packages/authorization/src/index.ts:251-276 | the reason of every refusal |
| Authorization.PositionIsHighest | packages/authorization/src/index.ts:262-274 | a position is the highest one held, and -1 without any |

## Left out

- Signatures, metadata and envelope parsing of update packages: an update is taken as verified, with its digest matching its artifact; only the path checks are modelled.
- Symbolic links, foreign entries and failing directory reads in `recover`: the sandbox never creates them; a removal that fails is a stop.
- The 16 KB and 4 KB read bounds of records, unknown JSON keys and the text form of records: a file that is no such record is `Torn`.
- A rename over an empty slot directory succeeds, as POSIX says; Windows semantics are not modelled.
- An interrupted `initialize`: histories start from a finished one.
- Numbers beyond 2^53 in version texts: numeric identifiers are exact integers.
- The message rate of a socket, presence and member status, heartbeats, metrics and close codes of the hub.
- Origin, cookie and rate-limit checks of `verify`: they only turn requests away before the modelled check.
- A socket's state object is an entry of a table keyed by the socket instead of a shared reference; handlers that keep the object keep the key.
- The rules that build the dependency graph of the architecture check: the finder is modelled on any graph.
- Message fields other than id, time and text: the windows never read them.
- Equal ranks of different ids in `localeCompare`: canonically equivalent texts do not occur among ids.
- The text encoding of checkpoints: a checkpoint is the position it encodes.
- A settings change during a poll: polls are serialised among themselves, but the settings control (`apps/web/src/desktop-notification-controls.tsx:88-104`) can save or initialize while a poll waits. The poll then writes back the preference it started from, which can switch notifications on again and move the checkpoint back. A poll is one step of the model.
- `listSessions`, profiles and the checks of names on registration: each is settled by reading one branch.
- Interleaved authentication calls: a failing in-memory transaction restores whole maps, together with what other calls wrote meanwhile; every call is taken as atomic.
- Role and decision writes of the authorization store, and `transferOwnership`.
- The comparator of the permission sort answers 1 for two grants in either order: the intended key is used instead.
- Password hashing, `recovery.ts`, and everything backed by Postgres or Valkey.
