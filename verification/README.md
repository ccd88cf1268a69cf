# Zero-downtime Linux updates: verified model

A Dafny 4.11 model of the update system's logic and proofs about it. It covers
the edge agent (`orchestrator`), the cloud's append-only store and assignment
resolution (`api-server`), the log viewer (`log-tui`) and the interval type of
`sea-orm-timescale`. `dafny verify dfyconfig.toml` checks everything.

| file | models |
|---|---|
| `Options.dfy`, `Text.dfy`, `Numbers.dfy`, `Sorting.dfy` | optional values, results, map lookup; whitespace; `usize` arithmetic; a stable sort by a given order |
| `References.dfy` | image references: comparison, tag stripping, when the two orders agree |
| `Reconcile.dfy` | the merge that emits create/update/remove actions, and what applying them to the live vector does |
| `AppLoop.dfy` | one update cycle, the frozen main loop, whole runs of cycles that may fail anywhere |
| `OsUpdate.dfy` | the OS loop, its countdown timers, the freeze flag and application ticks, one step per await |
| `Lifecycle.dfy` | the per-container lifecycle loop as a trace of events and container calls |
| `Shipping.dfy`, `DeviceLog.dfy`, `AppLogRegistry.dfy` | bounded log buffers, the device shipper, the per-application registry |
| `VersionedTable.dfy` | the three append-only tables |
| `Assignments.dfy` | which assignment, OS version and config a device gets |
| `DeviceSummaries.dfy` | grouping and joining reports per device |
| `WrapText.dfy`, `LogPane.dfy`, `LogView.dfy` | wrapping, the scroll window, the viewer's state machine |
| `Interval.dfy` | printing and parsing intervals |

Code that changes state step by step is a method, in a class where the source
has an object, proved against a function of the old state; the promises are
lemmas about that function over all inputs, runs and failures. Calls into Podman,
bootc, the cloud API and the database return arbitrary results, which are inputs
of the model; so is what other tasks do during an await.

## What the proofs show about the code

- A cycle that finishes leaves one matching application per target whatever the
  references (`EveryCycleConverges`). That no matching application is touched on
  the way holds over a pool of references if and only if no two of them clash
  (`MatchesAreSafeIff`): sorting by full reference does not sort by the stripped
  one, as `alpine-slim:1` sorts before `alpine:1` but `alpine` before
  `alpine-slim`. `SortBridge` gives the exact condition for the order of a list;
  without it a build with debug assertions panics at
  `orchestrator/src/loop_apps.rs:208-209`.
- An application that is kept keeps its old full reference;
  `FullReferenceUpToDate` says exactly when that shows.
- The architecture documentation says the application loop freezes instantly. It
  does if and only if no cycle is running when the flag goes up
  (`FreezeIsInstantIff`); otherwise an apply meets that cycle if and only if it
  has not ended by then (`ApplyOverlapsIff`).
- The documentation says the freeze lasts until the reboot. With nothing staged
  and nothing under way the flag is up if and only if an immediate switch failed,
  and then the applications stay frozen for the life of the process although no
  reboot is under way (`FrozenForNothingIff`).
- While the cloud keeps asking for it deferred, an update that is staged but not
  booted is never applied by this process if and only if no countdown was started (the status read after the
  switch failed, or the image was staged before the process started) or the
  countdown's apply has resolved without a reboot; then the applications stay
  frozen as well (`StrandedIff`).
- A flush request is acknowledged even when its push failed:
  `AcknowledgementIsUnconditional`.
- What an add or update inserts exceeds every earlier version of its key if and
  only if each deleted row of the key is covered by an active one
  (`VersionsGrowIff`); `version` starts over at 1 when a deleted key is added
  again (`VersionRestartsAfterDelete`). `config_version` is 1 in every row of
  every run (`ConfigVersionStaysOne`).
- An update to another key can leave two active rows there
  (`UpdateKeepsUniqueIff` has the condition).
- Device-over-group precedence rests on NULLs sorting last under `DESC`; where
  they sort first the group wins (`DedupIsEffective` proves both).
- An assignment names one row of the configs. Updating or re-adding a config
  gives it a new id, so its assignments no longer resolve and are unlisted for
  good (`ConfigChangeUnlistsIff`, `WithdrawnForGood`).
- `list_application_configs_for_device` looks at neither deletion nor
  supersession. Over key-preserving runs it lists exactly the configs in force if
  and only if nothing was withdrawn (`ListingIsCurrentIff`): a deleted config
  stays listed (`DeletedConfigStaysResolved`). A superseded one is listed after an
  update has moved it away (`MovedConfigStaysResolvedIff` has the condition).
- The interval parser's full-form units `us`, `ms` and `hr` are never reached, on
  any text (`TwoLetterUnitsUnreached`): `5 ms` is rejected as a short form with a
  bad number.
- The `u32` failure counter wraps, so the threshold event comes again after 2^32
  failures without a reset (`ThresholdExactly`, `ThresholdsSeparatedByReset`).

## Model

| member | source | states |
|---|---|---|
| References.PairOrder | orchestrator/src/loop_apps.rs:188-188 | for two references with different names, full order and stripped order agree if and only if neither clashes with the other |
| References.SortBridge | orchestrator/src/loop_apps.rs:60-62 | sorting any list by full reference yields the strict stripped order the merge needs if and only if its names are distinct and no two references clash |
| References.ClashSortsBackwards | orchestrator/src/loop_apps.rs:284-286 | every clash makes the full references sort against their names |
| References.TagSortsAfterHyphen | orchestrator/src/loop_apps.rs:284-286 | two ordinary image names that do clash |
| References.StripIsPrefix | orchestrator/src/loop_apps.rs:188-188 | stripping cuts exactly at the first ':' |
| Reconcile.ReconcileIterator.constructor | orchestrator/src/loop_apps.rs:178-215 | the iterator starts with both lists reversed and keyed by name, indices attached; strict order is demanded by a build with debug assertions only |
| Reconcile.ReconcileIterator.Next | orchestrator/src/loop_apps.rs:221-268 | each call emits the first of the remaining actions and leaves the others, or ends when none is left |
| Reconcile.EmitsExactlyJustified | orchestrator/src/loop_apps.rs:221-268 | an action is emitted if and only if the lists call for it: target without application, application without target, or same name with another digest or config |
| Reconcile.NothingToDo | orchestrator/src/loop_apps.rs:250-266 | no action is emitted if and only if the sorted lists match position by position |
| Reconcile.ExecuteProgress | orchestrator/src/loop_apps.rs:64-102 | from any point of the merge the remaining actions stay inside the changing vector, hit the intended original applications, and are sound wherever they stop |
| Reconcile.SwapRemoveTail | orchestrator/src/loop_apps.rs:82-82 | swap_remove leaves everything before the index in place and loses nothing after it |
| Reconcile.EveryCycleConverges | orchestrator/src/loop_apps.rs:64-102 | for every device, target list and failure pattern, whatever clashes or repeats among the names: no index out of range; wherever the cycle stops every application is old or launched for a target, and every old one is still there or was released; a finished cycle leaves exactly one matching application per target |
| Reconcile.ExecuteLands | orchestrator/src/loop_apps.rs:221-268 | from any point of the merge, without any order of the lists, the remaining actions stay in bounds and end in that matching |
| Reconcile.CycleConverges | orchestrator/src/loop_apps.rs:64-102 | where sorting yields strict name order: wherever the cycle stops names are distinct and no application that matched was touched, and a finished cycle has released exactly the unmatched ones |
| Reconcile.CycleStopsAtFirstFailure | orchestrator/src/loop_apps.rs:64-102 | for every pattern of failures the cycle runs its actions up to the first that fails; all launches and teardowns up to there have happened, the failing action's own teardown included |
| AppLoop.AppLoop.TryUpdate | orchestrator/src/loop_apps.rs:43-112 | the cycle with its early returns: final device for every device and target list (a debug build demands that none clash), one application per target and the targets' config ids reported, in the API's order, exactly when all actions finished, soundness after any failure where names are in order |
| AppLoop.AppLoop.ApplyActions | orchestrator/src/loop_apps.rs:64-102 | looping over the iterator while swap_remove and push change the vector equals executing the planned actions |
| AppLoop.AppLoop.Perform | orchestrator/src/loop_apps.rs:65-101 | one action on the vector, including where a failed teardown or launch leaves it |
| AppLoop.MatchesAreSafeIff | orchestrator/src/loop_apps.rs:60-102 | for every pool of references: in every cycle of every device and target list from it, whatever fails, no application that matches a target is touched, if and only if no two references clash |
| AppLoop.SecondCycleIsIdle | orchestrator/src/loop_apps.rs:250-266 | right after a finished cycle over references that do not clash, the same targets plan no action, whatever would have failed |
| AppLoop.SameReferencesAreIdle | orchestrator/src/loop_apps.rs:250-266 | the same for references that clash, if every application carries its target's full reference |
| AppLoop.FullReferenceUpToDate | orchestrator/src/loop_apps.rs:257-259 | with distinct target names, every target's full reference is running after a finished cycle if and only if no old application it kept matches a target under another tag; where references do not clash, if and only if no old application at all does |
| AppLoop.CycleKeepsPool | orchestrator/src/loop_apps.rs:37-39 | a cycle that finished or failed leaves a device from which the next cycle can start |
| AppLoop.RunIsSafe | orchestrator/src/loop_apps.rs:29-40 | over any run of polls, whatever fails and whatever the references, no cycle goes out of bounds; with a pool of references that do not clash, every cycle starts in strict order |
| AppLoop.RunRecovers | orchestrator/src/loop_apps.rs:29-40 | after any history the next cycle that finishes leaves one application per target, and the one after it is idle if the references do not clash |
| AppLoop.RunAppsMainLoop | orchestrator/src/loop_apps.rs:17-41 | the main loop is the run of its unfrozen polls, in a release build for all references |
| AppLoop.UnfrozenInOrder | orchestrator/src/loop_apps.rs:29-35 | the ticks contribute to that run in order, each its poll if and only if it finds the flag down |
| AppLoop.ClashRestartsUnchanged | orchestrator/src/loop_apps.rs:239-249 | the smallest case of it: of two targets in sorted order, the merge removes and recreates an application matching the first if and only if they clash |
| WrapText.WrapText | log-tui/src/ui.rs:151-197 | termination; every line within its limit; ink preserved; lines start and end in ink; one empty line for blank text; re-splitting gives the words back when none is overlong |
| WrapText.WrappedFits | log-tui/src/ui.rs:157-169 | no line exceeds its limit, for all text and widths |
| WrapText.WrappedKeepsInk | log-tui/src/ui.rs:165-196 | output without whitespace equals input without whitespace |
| WrapText.WrappedLinesTrimmed | log-tui/src/ui.rs:193-195 | blank text gives one empty line; otherwise no line is empty or padded |
| WrapText.WrappedResplits | log-tui/src/ui.rs:173-178 | without overlong words the lines read back as the exact word list |
| WrapText.WordsOfJoin | log-tui/src/ui.rs:165-165 | splitting words joined by blanks gives the words back |
| WrapText.InkOfWords | log-tui/src/ui.rs:165-165 | the words hold all the ink of the text, in order |
| WrapText.GreedyStaysAhead | log-tui/src/ui.rs:167-190 | if greedy has placed at least as many words, it needs no more lines than any other breaking of the rest |
| WrapText.GreedyIsOptimal | log-tui/src/ui.rs:151-197 | for every text and all widths, no breaking of the words into lines within the same limits has fewer lines; a word too long for line 0 is covered if the other lines hold it |
| WrapText.BreakableIff | log-tui/src/ui.rs:155-163 | such a breaking exists if and only if line 0 can take enough words that no later one is too long for the other lines |
| WrapText.GreedyIsASplit | log-tui/src/ui.rs:151-197 | without overlong words the output is itself such a breaking, so the bound is met |
| WrapText.PlaceFillsLines | log-tui/src/ui.rs:165-190 | a word is broken only if it does not fit on an empty line, and then only where a line is full |
| LogPane.LogPane.Draw | log-tui/src/ui.rs:34-58 | rendering only the newest entries gives the clamped offset and visible rows of a full rendering |
| LogPane.EnoughRows | log-tui/src/ui.rs:42-51 | a suffix of entries that fills the need shows the same window as all entries |
| LogPane.WindowIsFull | log-tui/src/ui.rs:53-58 | the pane is full whenever there are rows for it, and shows the rows that end `scroll` above the newest, or the oldest ones when scrolled too far |
| LogPane.RowsFit | log-tui/src/ui.rs:126-145 | the first row starts with the prefix and the others with the indent, and rows stay inside the pane up to the one cell always left for text |
| LogPane.RowsAreFewest | log-tui/src/ui.rs:126-145 | no way of breaking the message into rows that fit behind prefix and indent has fewer |
| LogPane.RowsKeepInk | log-tui/src/ui.rs:101-146 | an entry's rows show its prefix and message without loss |
| Shipping.FlushConserves | orchestrator/src/logging.rs:160-188 | a flush moves entries from the buffer to the ledger in order, losing none |
| Shipping.AppendConserves | orchestrator/src/logging.rs:134-139 | the same for a pushed entry and the batch flush it may cause |
| Shipping.BatchIsPushed | orchestrator/src/logging.rs:134-138 | an entry that fills the batch pushes all that is buffered, as one segment if the push succeeds; below the batch nothing leaves; a failed push drops exactly what exceeds the cap, oldest first |
| Shipping.ArrivesInOrder | orchestrator/src/logging.rs:164-186 | what arrived is what was received with entries left out: nothing twice, nothing out of order |
| DeviceLog.LogsConserved | orchestrator/src/logging.rs:130-188 | over every interleaving of sends, receives, ticks and shutdown: conservation, order and the memory bound |
| DeviceLog.AcknowledgedFlushSettles | orchestrator/src/logging.rs:41-49 | an acknowledged flush that left nothing behind has settled everything sent before it |
| DeviceLog.AcknowledgementIsUnconditional | orchestrator/src/logging.rs:140-143 | the acknowledgement is sent anyway; the flush left nothing exactly if there was nothing, the push succeeded, or the cap is 0 |
| DeviceLog.BoundIsReached | orchestrator/src/logging.rs:175-178 | the bound max(log_max_buffer, log_max_batch - 1) is attained for all limits |
| DeviceLog.EverySegmentHasItsPush | orchestrator/src/logging.rs:164-186 | over every run, entries are dropped only by one failed push that leaves exactly the cap, and delivered only by one successful push that leaves nothing |
| DeviceLog.MessagesPush | orchestrator/src/logging.rs:132-143 | every receive takes the next message: a full batch and a flush request are pushed, leaving nothing on success and no more than the cap on failure |
| DeviceLog.TicksPush | orchestrator/src/logging.rs:144-157 | a tick and the end of the channel push what is buffered, and only the end of the channel stops the loop |
| DeviceLog.OtherEvents | orchestrator/src/logging.rs:126-157 | sends fill the channel until the senders are gone, and a stopped loop does nothing more |
| DeviceLog.OrchestratorLogger.Serve | orchestrator/src/logging.rs:126-157 | the select loop over any finite interleaving does what the step function says |
| DeviceLog.OrchestratorLogger.HandleMessage | orchestrator/src/logging.rs:132-143 | taking one message off the channel: buffering and batch flush, or flush and acknowledge |
| DeviceLog.OrchestratorLogger.FlushBuffer | orchestrator/src/logging.rs:160-188 | the in-place flush: clear on success, drain the oldest beyond the cap on failure |
| AppLogRegistry.Isolation | orchestrator/src/podman/log_registry.rs:83-139 | over every event history, each application's stream, name, conservation and bound depend on its own events only |
| AppLogRegistry.AlwaysNamed | orchestrator/src/podman/log_registry.rs:87-98 | streams and buffers exist only under registered names |
| AppLogRegistry.AlwaysAttributed | orchestrator/src/podman/log_registry.rs:112-117 | every captured entry carries the name registered when it was captured |
| AppLogRegistry.DeliveredInOrder | orchestrator/src/podman/log_registry.rs:145-177 | what reaches an application's endpoint is its own stream's entries in order, none twice |
| AppLogRegistry.EverySegmentHasItsEvent | orchestrator/src/podman/log_registry.rs:83-139 | over every run, each application's entries are delivered only by its own successful push, dropped only by a failed one down to the cap, and lost only by a failed one at removal or shutdown |
| AppLogRegistry.EntryPushesBatch | orchestrator/src/podman/log_registry.rs:118-124 | a captured entry pushes its application's buffer exactly when it fills the batch |
| AppLogRegistry.TickPushes | orchestrator/src/podman/log_registry.rs:131-137 | a tick pushes every application's buffer |
| AppLogRegistry.EndPushes | orchestrator/src/podman/log_registry.rs:92-106 | removal and shutdown push what is buffered once, and nothing stays |
| AppLogRegistry.OthersKeepBuffer | orchestrator/src/podman/log_registry.rs:83-139 | no other event touches an application's buffer, and only the shutdown stops the task |
| AppLogRegistry.NothingAfterShutdown | orchestrator/src/podman/log_registry.rs:100-106 | no event has any effect after the shutdown |
| AppLogRegistry.Task.Serve | orchestrator/src/podman/log_registry.rs:75-140 | the registry's loop over any finite sequence of events computes the registry state |
| AppLogRegistry.Task.Push | orchestrator/src/podman/log_registry.rs:118-124 | buffering a chunk's entry, with the full buffer taken out, flushed and put back |
| AppLogRegistry.Task.FlushAll | orchestrator/src/podman/log_registry.rs:131-137 | the tick flushes every buffer, in whatever order the map is walked |
| AppLogRegistry.Task.AbandonAll | orchestrator/src/podman/log_registry.rs:100-106 | shutdown flushes every buffer once and gives up the rest |
| AppLogRegistry.Task.FlushApplicationLogs | orchestrator/src/podman/log_registry.rs:145-177 | one application's flush and what it hands back |
| OsUpdate.RunIsSafe | orchestrator/src/loop_os.rs:39-149 | at every step of every interleaving: the flag never falls, every apply finds it up, no application cycle starts once it is up, a report was booted in the status that cycle read |
| OsUpdate.TargetDecides | orchestrator/src/loop_os.rs:64-89 | at every target read in every run: reported if and only if the cycle's status shows it booted, else applied iff staged and immediate, left to its timer iff staged and deferred, and switched to iff neither, whatever else is staged; the flag rises exactly for an immediate one not booted |
| OsUpdate.SwitchDecides | orchestrator/src/loop_os.rs:105-146 | a failed switch ends the cycle; a successful one goes on to apply or to the second status read |
| OsUpdate.AppliesItsTarget | orchestrator/src/loop_os.rs:75-117 | over every run with an honest staging tool, the loop applies only the target it read last, immediate, staged and not booted |
| OsUpdate.CycleCalls | orchestrator/src/loop_os.rs:39-149 | which calls a cycle awaits, read off its results alone |
| OsUpdate.TickStartsIff | orchestrator/src/loop_apps.rs:29-37 | a poll starts an application cycle if and only if the flag is down and none is running |
| OsUpdate.OnceFrozen | orchestrator/src/loop_apps.rs:29-35 | once up the flag stays up and no application cycle starts, however the run goes on |
| OsUpdate.FreezeIsInstantIff | orchestrator/src/loop_apps.rs:32-37 | with the flag up, no application cycle runs in any continuation if and only if none is running now |
| OsUpdate.ApplyOverlapsIff | orchestrator/src/loop_os.rs:116-145 | at every apply of every run, an application cycle is running if and only if one was running when the flag went up and has not ended since |
| OsUpdate.FreezeDoesNotStopRunningCycle | orchestrator/src/loop_apps.rs:32-37 | a run in which an application cycle is running when the update is applied |
| OsUpdate.OneStagingOneCountdown | orchestrator/src/loop_os.rs:71-147 | a run that keeps naming one image switches successfully at most once and starts at most one countdown |
| OsUpdate.CountdownNeedsRecheck | orchestrator/src/loop_os.rs:125-146 | a deferred switch starts its countdown if and only if the status read after it succeeds |
| OsUpdate.FrozenForNothingIff | orchestrator/src/loop_os.rs:105-117 | over every run from process start, in an idle state with nothing staged there is no timer, and the flag is up if and only if an immediate switch has failed; then it stays up and no application cycle starts, in every continuation |
| OsUpdate.StrandedIff | orchestrator/src/loop_os.rs:75-147 | over every deferred run from process start, a staged and not booted image is never applied in any continuation if and only if no countdown was started or its apply has resolved; in the second case the flag is up |
| OsUpdate.TimersAccounted | orchestrator/src/loop_os.rs:136-146 | every timer started is asleep, about to apply or has applied |
| OsUpdate.StrandingHappens | orchestrator/src/loop_os.rs:132-145 | a failed status read after the switch, or a failed apply of the timer, leaves the update staged with no timer |
| OsUpdate.StrandedForever | orchestrator/src/loop_os.rs:75-89 | from there every run with the same deferred target has no countdown and not one apply, and if the flag is up no application cycle either |
| OsUpdate.OsUpdater.TrySwitch | orchestrator/src/loop_os.rs:39-149 | one cycle, whatever its calls return and however other tasks interleave, is a run of the transition system, and its own steps are exactly the calls that the state and the results demand |
| OsUpdate.OsUpdater.Others | orchestrator/src/loop_os.rs:136-146 | the timers and the application ticks during an await are steps of the transition system |
| OsUpdate.RunOsMainLoop | orchestrator/src/loop_os.rs:10-37 | any number of cycles from process start is a run made of exactly those steps, so all of the above holds of it |
| Lifecycle.TraceIsSound | orchestrator/src/application.rs:108-217 | over every run: state changes chain within each epoch, alarms are as many as falls from running to stopped, the counter is the failures since the last reset, no stop or destroy before removal |
| Lifecycle.IterationFromHistory | orchestrator/src/application.rs:119-213 | over every run, all that an iteration puts out, in order, is given by what was announced, registered and counted before it, without the loop's variables; and which iteration is the last |
| Lifecycle.StoppedIsStarted | orchestrator/src/application.rs:154-171 | a container is started exactly when it is found stopped, once, and the outcome is reported at once; a log is registered exactly when the container turns out running and a handle is known |
| Lifecycle.ThresholdExactly | orchestrator/src/application.rs:112-117 | the threshold event is sent if and only if the iteration fails and brings the failures since the last reset to ten modulo 2^32 |
| Lifecycle.ThresholdsSeparatedByReset | orchestrator/src/application.rs:176-183 | two threshold events are separated by a reset unless at least 2^32 failures lie between |
| Lifecycle.RemovalComesLast | orchestrator/src/application.rs:201-211 | destroy happens at most once, directly after stop, and ends the trace but for their error reports |
| Lifecycle.LogsResume | orchestrator/src/application.rs:139-152 | a log registration resumes if and only if one came before it |
| Lifecycle.RunLifecycleLoop | orchestrator/src/application.rs:95-218 | the nested loops produce exactly that trace |
| Lifecycle.OneIteration | orchestrator/src/application.rs:119-213 | one pass of the inner loop, with its breaks to the outer one |
| Lifecycle.Respond | orchestrator/src/application.rs:154-185 | failure counting, alarm and start attempt for each state |
| Lifecycle.RegisterStream | orchestrator/src/application.rs:139-152 | registration whenever the container becomes running and a handle is known |
| VersionedTable.AlwaysWellFormed | api-server/src/api_v1/db/application_configs.rs:109-164 | over every run of add, update and delete, superseding edges lead to existing rows of larger id and version, and no row is both deleted and superseded |
| VersionedTable.RowsAreInsertions | api-server/src/api_v1/db/application_configs.rs:99-216 | over every run, the rows hold what the accepted adds and updates asked for, payload included, one each, in order |
| VersionedTable.AddInserts | api-server/src/api_v1/db/application_configs.rs:109-164 | an add supersedes by its new row exactly the active rows of its scope for the same device, or failing a device the same group |
| VersionedTable.UpdateInserts | api-server/src/api_v1/db/application_configs.rs:181-210 | an update supersedes by its new row, active and with the payload given, exactly the row it names |
| VersionedTable.DeleteMarks | api-server/src/api_v1/db/application_configs.rs:218-236 | a delete marks exactly the active row it names |
| VersionedTable.AcceptedIff | api-server/src/api_v1/db/os_assignments.rs:146-160 | which operations are refused, and with which error |
| VersionedTable.HistoryIsKept | api-server/src/api_v1/db/application_configs.rs:193-235 | rows keep their content, and an inactive row is frozen and never becomes active again |
| VersionedTable.Latest | api-server/src/api_v1/db/application_configs.rs:154-164 | following edges ends at a row that is not superseded, with a larger version |
| VersionedTable.AtMostOneActive | api-server/src/api_v1/db/os_assignments.rs:101-139 | over every run of adds, deletes and key-preserving updates, each device and each group has at most one active row per scope |
| VersionedTable.UpdateKeepsUniqueIff | api-server/src/api_v1/db/application_assignments.rs:183-219 | an update keeps that if and only if no other active row already has the new key |
| VersionedTable.LatestIsTheActiveRow | api-server/src/api_v1/db/application_assignments.rs:137-176 | chains stay within a key and, unless deleted, end at the key's one active row |
| VersionedTable.AlwaysOnlyNewest | api-server/src/api_v1/db/application_configs.rs:109-164 | over every key-preserving run, no row but the newest of its key is active |
| VersionedTable.VersionsGrowIff | api-server/src/api_v1/db/application_configs.rs:126-131 | over every key-preserving run, an added or updated row exceeds every earlier version of its key if and only if every deleted row of the key is covered by an active one |
| VersionedTable.VersionRestartsAfterDelete | api-server/src/api_v1/db/application_configs.rs:126-131 | deleting a key's active row and adding the key again gives version 1 |
| VersionedTable.ConfigVersionStaysOne | api-server/src/api_v1/db/application_configs.rs:122-125 | over every run the config version carried from row to row is 1 |
| VersionedTable.MaxVersionIs | api-server/src/api_v1/db/application_configs.rs:126-131 | the fold over the superseded rows is their largest version |
| VersionedTable.Table.AddRow | api-server/src/api_v1/db/application_configs.rs:99-169 | insert, then supersede row by row; refused without change if device and group are not as the table demands |
| VersionedTable.Table.UpdateRow | api-server/src/api_v1/db/os_assignments.rs:146-187 | a new row replaces the active row given; not found and refused leave the table unchanged |
| VersionedTable.Table.DeleteRow | api-server/src/api_v1/db/os_assignments.rs:189-207 | marks the active row deleted and counts it |
| Assignments.DedupIsEffective | api-server/src/api_v1/db/application_assignments.rs:57-102 | a row is returned if and only if no candidate of its application beats it: device before group, then lowest id, with NULLs last; group before device with NULLs first |
| Assignments.DedupIsDistinct | api-server/src/api_v1/db/application_assignments.rs:93-102 | one row per application, and every application with a candidate has one |
| Assignments.ListForDevice | api-server/src/api_v1/db/application_assignments.rs:48-115 | the seen-set pass and the paging compute a page of the deduplicated ranking and its length |
| Assignments.ConfigIdToAppId | api-server/src/api_v1/db/application_assignments.rs:80-90 | the id map answers for every listed assignment exactly as a lookup of its active config |
| Assignments.PagesTile | api-server/src/api_v1/db/application_assignments.rs:104-112 | successive pages neither overlap nor leave a gap while the product does not wrap |
| Assignments.RowWithBothOutranks | api-server/src/api_v1/db/application_assignments.rs:68-72 | a group row that also names another device outranks the device's own row if and only if that device's id is larger, so the exclusivity assumption is needed |
| Assignments.AppsGetAssigned | api-server/src/api_v1/routes/device/apps.rs:43-66 | the configs returned are exactly those of effective assignments, none dropped, with distinct applications |
| Assignments.AssignmentsOverRuns | api-server/src/api_v1/routes/device/apps.rs:43-66 | every key-preserving run of the assignments and every run of the configs yields tables for which that holds |
| Assignments.WithdrawsIff | api-server/src/api_v1/db/application_configs.rs:193-216 | an accepted change to the configs ends the resolution of exactly the assignments whose config it supersedes or deletes |
| Assignments.ConfigChangeUnlistsIff | api-server/src/api_v1/db/application_assignments.rs:80-102 | over every run of both tables, of the assignments listed for a device it unlists exactly those |
| Assignments.WithdrawnForGood | api-server/src/api_v1/db/application_configs.rs:193-235 | over every continuation they do not resolve again |
| Assignments.OsWinnerBeatsAll | api-server/src/api_v1/db/os_assignments.rs:55-79 | the one OS assignment returned beats every other candidate, and there is one whenever there is a candidate |
| Assignments.OsAssignmentOverRuns | api-server/src/api_v1/db/os_assignments.rs:45-80 | over every key-preserving run of the table, a device gets its own active row, else its group's |
| Assignments.ConfigsForDevice | api-server/src/api_v1/db/application_configs.rs:62-96 | the result is the newest device config of each application, else its newest group config, ascending by id, whatever the order of the map |
| Assignments.ListingIsCurrentIff | api-server/src/api_v1/db/application_configs.rs:58-95 | over every key-preserving run no superseded config is listed, and the listing is exactly the configs in force, or only active ones, if and only if every key it draws on still has an active row |
| Assignments.MovedConfigStaysResolvedIff | api-server/src/api_v1/db/application_configs.rs:181-210 | a config that an update has superseded stays listed if and only if the new row is not for that application and device, or only for its group where the old one was its own |
| Assignments.DeletedConfigStaysResolved | api-server/src/api_v1/db/application_configs.rs:71-84 | deleting a config changes nothing in what that listing resolves |
| DeviceSummaries.Assemble | api-server/src/api_v1/db/device_summaries.rs:82-172 | grouping in maps and taking the groups out again equals filtering the rows for each device in row order |
| DeviceSummaries.OsRowShownOnce | api-server/src/api_v1/db/device_summaries.rs:85-98 | a version report is shown by its own device and no other |
| DeviceSummaries.OsRowInPlace | api-server/src/api_v1/db/device_summaries.rs:82-98 | each report with a version is shown in its place by its own device |
| DeviceSummaries.AppRowInPlace | api-server/src/api_v1/db/device_summaries.rs:118-141 | each reported application is shown in its place by its own device, with the name and image its config leads to |
| LogView.ViewIsSound | log-tui/src/app.rs:92-200 | over every run the open stream matches the filters on screen and the epoch, and the logs are the last max_logs entries accepted since the last clear |
| LogView.StaleStreamIsSilent | log-tui/src/app.rs:107-110 | a replaced stream never has any effect again |
| LogView.OffsetInRange | log-tui/src/main.rs:50-77 | over every run that draws before each key and each burst of messages, the scroll offset stays within the rows above the pane at the last draw plus the messages since or one key's step |
| LogView.EntryKeepsScrolledUp | log-tui/src/app.rs:127-131 | so an entry advances a scrolled-up view by one and never overflows it, short of 2^64 - 1 rows and messages together |
| LogView.KeysChoose | log-tui/src/app.rs:134-200 | what the open stream asks for after each key, and that it is replaced only when that changes |
| LogView.KeysScroll | log-tui/src/app.rs:158-171 | up moves half a pane towards older entries and down undoes it |
| LogView.MessagesShow | log-tui/src/app.rs:107-120 | what each message of the current stream shows of the connection |
| LogView.App.Serve | log-tui/src/app.rs:107-200 | the event loop does what the step function says |
| LogView.App.Append | log-tui/src/app.rs:122-132 | pushing and popping keeps the newest entries, and the scroll offset advances as a `usize` does |
| LogView.App.HandleKey | log-tui/src/app.rs:134-200 | every key's effect on the filters, the scroll offset and the stream |
| Interval.ParseDisplay | sea-orm-timescale/src/types.rs:38-122 | parsing what is displayed gives the interval back, for all units and 64-bit numbers, and the short form declines it |
| Interval.ShortFormParses | sea-orm-timescale/src/types.rs:92-122 | every number with a short code parses to that unit |
| Interval.ShortAgreesWithFull | sea-orm-timescale/src/types.rs:60-122 | short and full form give the same value |
| Interval.FullFormParses | sea-orm-timescale/src/types.rs:60-90 | every text with a number before its first blank and letters after it: parses if and only if the unit is in the table and has at least three letters; otherwise which error |
| Interval.TwoLetterUnitsUnreached | sea-orm-timescale/src/types.rs:79-82 | on every text that reaches the full parser's unit table, the unit is not `us`, `ms` or `hr` |
| Interval.ShortFormIff | sea-orm-timescale/src/types.rs:92-122 | the short form accepts exactly a number directly followed by one of the eight codes |
| Interval.ShortCodesAre | sea-orm-timescale/src/types.rs:111-121 | which unit each short code stands for |
| Interval.ShortFormRejects | sea-orm-timescale/src/types.rs:106-109 | a short code after something that is not a number is rejected at once |
| Interval.FullUnitIff | sea-orm-timescale/src/types.rs:79-89 | each unit goes by exactly its listed names |
| Interval.Rejections | sea-orm-timescale/src/types.rs:68-76 | where the short form does not apply, a text without a blank or without a number before it is rejected with that error |
| Interval.ParseI64Iff | sea-orm-timescale/src/types.rs:74-76 | digits with or without a sign denote their 64-bit value, leading zeros aside |
| Interval.OnlyNumbersParse | sea-orm-timescale/src/types.rs:74-76 | nothing but digits with at most one sign is read as a number, and only within 64 bits |
| Interval.ParseShowInt | sea-orm-timescale/src/types.rs:74-76 | decimal digits of every 64-bit number read back as that number |

## Left out

- Reconcile.EveryCycleConverges: says matching applications, not equal full references, because an unchanged application keeps its old tag; FullReferenceUpToDate has the exact condition.
- AppLoop.RunIsSafe: strict order in every cycle is claimed for a pool of references no two of which clash; SortBridge shows that this is what sorting needs.
- Lifecycle.TraceIsSound: the timeout may also end the wait of a container that keeps running; the program has fewer runs, so nothing proved is lost.
- OsUpdate.OneStagingOneCountdown: assumes that a status shows the real deployments and that a successful switch stages its target until another switch.
- OsUpdate.RunIsSafe: covers one process lifetime; a reboot starts a new one with the flag down.
- LogPane.LogPane.Draw: assumes that no more rows exist than a `usize` counts.
- VersionedTable.AtMostOneActive: each operation is atomic. `update_*` inserts and supersedes without a transaction, and the Postgres unique indexes are not modelled.
- VersionedTable.Table.AddRow: ids have no gaps, timestamps are not kept, the rows superseded are read in order of id, and `version` and `config_version` are kept for all three tables though only configs have the columns.
- Assignments.ConfigChangeUnlistsIff: assignments name configs that exist, as the foreign key sees to.
- Assignments.DedupIsEffective: rows are for a device or a group, never both, as the source's comment has it; RowWithBothOutranks shows what happens otherwise.
- Interval.FullFormParses: lower-casing is ASCII; the Kelvin sign, which Unicode lower-cases to `k`, is not treated.
- DeviceSummaries.Assemble: the device filters and paging are a database query and are not modelled.
- WrapText.WrapText: one character is one cell, as in the source.
- Applications, deployments and rows are values: aliasing between them is not modelled because the source has none.
- Time: ticks, sleeps and timers are events; nothing is claimed about when or whether they happen.
- HTTP, SSE, SQL text, Podman, bootc, TPM and JWT: replaced by arbitrary results.
- Log entries still in the channel or in a buffer when the process dies: lost, not accounted for.
- Simple tables, pings, tenants, groups, users, audit triggers, migrations and configuration loading: easy members only.
