# Verified models of the tiling scripts' stateful cores

This project models five stateful cores of the tiling scripts and proves what they promise about every run.

* **Shortcut reconciler** (`KeyLists`, `ShortcutStore`, `HolderScan`, `HolderOrder`, `Preflight`, `ApplyPlan`,
  `ForceRecord`, `ExactDaemon`, `ForceOutcome`, `ReconcilerFacts`, `Reconciler`): a transaction over a key-binding daemon that other programs
  write to. The daemon is a class holding a map from actions to active and default keys; between any two calls other clients may
  change it, every call may fail, and a foreign write may take effect and then report failure. Every enumeration, every owner
  and keyed answer and, for every write, how much had been heard before it is logged, and what a call concludes is stated of the
  answers it was given. A `quiet` store is one nobody else
  writes to and whose replies are faithful, a `reliable` one does not fail, and an `exact` one answers keyed queries with exactly
  the actions that hold the key. Replies with anything out of bounds are refused, as are writes out of bounds and any write after
  the client's 64th. The catalog and the conflict table are a parameter, of which `WellFormed` is assumed: unique usable ids, posts
  and chords within bounds, and a row 0 that relocates Lock Session from its old chords to one target chord in range.
* **Workspace adapter** (`SessionKeys`, `WorkspaceLists`, `Lifecycle`, `GlobalMapping`, `WorkspaceRules`, `DisplacementPass`,
  `NativeWorkspace`, `WorkspaceFacts`, `WorkspaceAdapter`): which output each backing desktop belongs to, across topology signals, outputs lost and
  returned, migrations, selections and cleanup. The window system is a class whose calls may fail and whose desktops, outputs,
  views and windows change at will between operations, except that no desktop id comes back; a `faithful` one does what it says.
* **Active-group flights** (`HighlightFlights`, `Decimal`): one query in flight, late and repeated replies dropped.
* **Float-intent store** (`IntentCodec`, `IntentStore`): codec, size bound and atomic replacement of the membership file.
* **Geometry write order** (`GeometryOrder`): the canonical order of window moves.

`Prelude` holds what several of them share. A class method is proved against functions of values, and what the source promises
is then proved of those functions. A `hide` at the head of a body keeps the verifier from taking the named predicates apart
there; what is needed of them comes from the lemmas that the body calls.

## Where the code does less than it seems to

* The holder scan keys its rows by component and action joined with a slash. Two actions whose joined identities coincide are
  merged, so the order of the daemon's reply can decide which of them is shown, and even whether the scan succeeds
  (`Preflight.CollidingIdentitiesDependOnOrder`). Every order succeeds with the same findings exactly when, in the first reply
  that lists a joined identity for clearing, every listing of it is of one action with one list
  (`HolderOrder.OrderInvisibleIff`).
* The comment on the float-intent caps says they hold a full snapshot with margin. That holds for one side
  (`IntentCodec.OneSideAlwaysFits`); two full sides of longest ids are refused (`IntentCodec.TwoFullSidesNeverFit`).
* One cleanup pass does not settle the desktops: the spare it appends can free an earlier empty desktop
  (`Lifecycle.OnePassMayNotSettle`). Two passes do (`Lifecycle.TwoPassesSettle`).
* A topology signal under which no connected output can be identified stops before the view history is pruned, so an entry of a
  lost output can outlive it (`WorkspaceAdapter.WorkspaceNativeAdapter.UnidentifiedSignal`); such a signal drops exactly the
  entries whose desktop is gone or out of its list. That every entry resolves is promised of signals that identify an output.
* In the global mode a recorded desktop that is on the returning output's list already keeps its place there, so the recorded order
  need not come back: with the output back but not yet noticed, selecting on another output the desktop that it shows trades a
  recorded desktop onto its list (`WorkspaceAdapter.WorkspaceNativeAdapter.TradedBeforeReturn`). The order comes back exactly when
  the list the recorded desktops find ends in the first of them, for some number of them, and holds none of the others
  (`DisplacementPass.ReturnHomeIff`, `DisplacementPass.ReconciledBack`). With nothing lost in the same pass that list is the one
  before it, less what other returned records name; else it is what the losses, in the order they were handled, make of it.
* A daemon client refuses more than 64 writes in its lifetime (`kwin/native-effect/shortcutreconciler.cpp:2645`, `:2900`), while one
  Apply may need one per catalog row plus one: an Apply that can begin may ask for 65 (`ExactDaemon.PlanMayExceedWrites`). An
  undisturbed Apply succeeds exactly on a clean preflight with writes enough left for its whole plan
  (`Reconciler.ShortcutReconciler.WriteProjectKeys`); for a second call and for Force the count is in
  `Reconciler.ShortcutReconciler.ApplyAgain` and `Reconciler.ShortcutReconciler.ApplyForced`.

## Model

| member | source | states |
|---|---|---|
| Shortcuts.DedupKeys | kwin/native-effect/shortcutreconciler.cpp:1009-1019 | the loop keeps the first occurrence of each key |
| Shortcuts.DedupKeepsFirst | kwin/native-effect/shortcutreconciler.cpp:1009-1019 | the kept keys come in the order of their first occurrences |
| Shortcuts.ConflictingKeysIn | kwin/native-effect/shortcutreconciler.cpp:947-957 | exactly the active keys that are required, in order, each once |
| Shortcuts.RemainderAfterClearIn | kwin/native-effect/shortcutreconciler.cpp:983-993 | exactly the active keys that are not required, in order |
| Shortcuts.ClearSplits | kwin/native-effect/shortcutreconciler.cpp:947-993 | removals and remainder share no key and together hold every active key; the remainder keeps every count |
| Shortcuts.ClearSettles | kwin/native-effect/shortcutreconciler.cpp:947-993 | clearing twice clears nothing more, and a list is unchanged exactly when it holds no required key |
| Shortcuts.Bounds | kwin/native-effect/shortcutreconciler.h:184-187 | names of 1 to 256 characters, at most 16 keys per list, key values up to 536870911 |
| Shortcuts.LockPostFor | kwin/native-effect/shortcutreconciler.cpp:995-1007 | the loop computes Lock Session's relocated list |
| Shortcuts.LockPostRelocates | kwin/native-effect/shortcutreconciler.cpp:995-1019 | the relocated list has lost the old chord and holds the new one, no key twice |
| Shortcuts.LockPostKeepsOthers | kwin/native-effect/shortcutreconciler.cpp:995-1019 | every other key keeps its place in the order |
| Shortcuts.LockPostIdempotent | kwin/native-effect/shortcutreconciler.cpp:995-1019 | relocating a relocated list changes nothing |
| Shortcuts.LockPostFits | kwin/native-effect/shortcutreconciler.cpp:995-1019 | relocating a list within bounds gives a list within bounds |
| Shortcuts.SubstituteInPlace | kwin/native-effect/shortcutreconciler.cpp:995-1007 | with one target chord it stands where each old chord stood, and every other key where it was |
| Shortcuts.EnabledRequiredKeys | kwin/native-effect/shortcutreconciler.cpp:1596-1636 | the required keys of a draft, as read from catalog, table and kept images |
| Shortcuts.RequiredAre | kwin/native-effect/shortcutreconciler.cpp:1569-1636 | the required keys are, each once, those an enabled row asks for (its canonical chord, its conflict row's project keys, or, when kept, its live keys) or the lock in scope does, all of them unless the kept chords pass the cap |
| Shortcuts.ExpectedPostIsAtPost | kwin/native-effect/shortcutreconciler.cpp:3676-3689 | an enabled row's post is that of the first conflict row of its project and, when none names it, its canonical chord alone, or nothing when that is 0 |
| Shortcuts.KeepKeysForImages | kwin/native-effect/shortcutreconciler.cpp:1569-1594 | the live keys of kept rows in catalog order, up to the cap |
| ShortcutStore.FindAllowlisted | kwin/native-effect/shortcutreconciler.cpp:248-271 | missing, exactly one, or several tuples of an action |
| ShortcutStore.Store.SetForeignShortcutKeys | kwin/native-effect/shortcutreconciler.cpp:2876-2971 | success means the keys were written, and one of the client's writes is used up; failure may come before or after the write took effect; out of bounds or after the 64th write nothing is written; otherwise a reliable call succeeds |
| HolderScan.ScanIsExact | kwin/native-effect/shortcutreconciler.cpp:3384-3545 | a successful scan has one row per joined identity, each from a listing, and every listing with something to clear has its row |
| HolderScan.ScanVerdict | kwin/native-effect/shortcutreconciler.cpp:3384-3545 | a successful scan has a row exactly when a listed action outside the project may not hold a required key it actively holds, and a blocker exactly when such a listed action holds none; its rows are exactly the former |
| HolderScan.StatusAgreesWithScan | kwin/native-effect/shortcutreconciler.cpp:1928-2068 | when the scan succeeds the status is Clear exactly when the scan found neither rows nor blockers |
| HolderScan.ConflictIsFirst | kwin/native-effect/shortcutreconciler.cpp:1984-2068 | one answer's conflict names the key and the first listed outsider, with everything listed before it in order; it is clear of conflict exactly when no listed holder is an outsider or out of bounds |
| HolderScan.StatusIsFirst | kwin/native-effect/shortcutreconciler.cpp:1984-2068 | the status of all answers is that of the first one in trouble, and Clear exactly when none is |
| HolderScan.ClearAnswer | kwin/native-effect/shortcutreconciler.cpp:1984-2068 | one answer is clear exactly when the key can be asked about, no listed holder is out of bounds or an outsider, and the daemon calls the key available exactly when it lists nobody |
| HolderOrder.OrderInvisibleIff | kwin/native-effect/shortcutreconciler.cpp:3384-3545 | every order of holders inside the replies gives a successful scan with the same rows, and blockers or none alike, exactly when in the first reply that lists a joined identity for clearing every listing of it is of one action with one list |
| Preflight.CollidingIdentitiesDependOnOrder | kwin/native-effect/shortcutreconciler.cpp:3384-3545 | two colliding actions, at a well-formed configuration and the keys its draft requires, for which the order decides the rows, and two for which it decides whether the snapshot succeeds |
| Preflight.StatusMatchesSnapshot | kwin/native-effect/shortcutreconciler.cpp:1928-2068 | whenever the snapshot succeeds on given readings, the status on the same readings is Clear exactly when it has no rows and no blockers |
| Preflight.QuietStatusAgrees | kwin/native-effect/shortcutreconciler.cpp:1928-2068 | on a state nobody changes, a status and a snapshot taken separately agree in that way |
| Preflight.SnapshotRowsSplit | kwin/native-effect/shortcutreconciler.cpp:3202-3575 | clear rows have distinct ids, and removals and remainder split each active list |
| Preflight.ForceableExactly | kwin/native-effect/shortcutreconciler.cpp:4299-4313 | the preview of a successful snapshot is forceable exactly when some listed outsider actively holds a required key and none holds none, and its rows are then exactly the outsiders that hold one |
| Preflight.SnapshotIgnoresReplyOrder | kwin/native-effect/shortcutreconciler.cpp:3384-3545 | when no identity is contested, reordering holders inside the replies gives a snapshot too, with the same rows and the same Force preview |
| ApplyPlan.NeedsResume | kwin/native-effect/shortcutreconciler.cpp:3707-3894 | after any prefix of a plan the new plan is what remained, so both end in the same state |
| ApplyPlan.InterruptedApplyResumes | kwin/native-effect/shortcutreconciler.cpp:3707-3894 | an apply cut off at any write and run again reaches the final state of an uninterrupted one, and then has nothing to write |
| ApplyPlan.PlanBounded | kwin/native-effect/shortcutreconciler.cpp:3707-3894 | a plan writes only catalog rows and, with an Authentic focus, Lock Session, no action twice, at most one write per row plus one |
| ApplyPlan.PlanInOrder | kwin/native-effect/shortcutreconciler.cpp:3707-3894 | a plan's writes come in the order focus-right, Lock Session, other enabled rows, disabled rows, the last two in catalog order |
| ApplyPlan.PlanReachesRow | kwin/native-effect/shortcutreconciler.cpp:3764-3894 | after the whole plan every present row is where the draft wants it: disabled rows empty, kept rows as they were, Authentic rows at the post of the first conflict row that names them, or at their canonical chord alone when none does |
| ReconcilerFacts.PlanHoldsDraft | kwin/native-effect/shortcutreconciler.cpp:3707-3894 | the state after a whole plan, row by row and with the lock's old chords gone and its targets held, read off configuration and state alone |
| ReconcilerFacts.PlanReachesImage | kwin/native-effect/shortcutreconciler.cpp:3707-4075 | the finish accepts the image the whole plan reaches exactly when Lock Session, if in scope, held an old chord or the target chord |
| ReconcilerFacts.FinalImageShows | kwin/native-effect/shortcutreconciler.cpp:3895-4075 | the finish accepts exactly the enumerations that list each disabled row at most once and empty, each Authentic row once with its conflict row's post or canonical chord, each kept row once with its image, and the lock once, relocated |
| ApplyPlan.LockNeverLost | kwin/native-effect/shortcutreconciler.cpp:3707-3762 | after any prefix of the plan Lock Session still holds an old or a new chord if it did at the start, and lost the old one only with focus-right at its post |
| ReconcilerFacts.LockHeldThroughoutApply | kwin/native-effect/shortcutreconciler.cpp:3707-3762 | the same at every intermediate state of a call that follows its plan |
| ExactDaemon.CleanIffApplicable | kwin/native-effect/shortcutreconciler.cpp:3202-3575 | on exact keyed answers the preflight of a state that can be enumerated is clean exactly when its rows are there, its lock can be relocated and no other action holds a required key |
| ExactDaemon.StaysApplicable | kwin/native-effect/shortcutreconciler.cpp:3587-3894 | after any prefix of the plan an Apply can begin again |
| ExactDaemon.PlanMayExceedWrites | kwin/native-effect/shortcutreconciler.cpp:2645-2650 | a well-formed catalog of 65 rows and a state at which an Apply can begin and its plan has 65 writes |
| ForceOutcome.ClearedApplicable | kwin/native-effect/shortcutreconciler.cpp:4370-4627 | once the holders of a forceable preview are cleared, an Apply of the same draft can begin |
| ForceOutcome.ForceableIff | kwin/native-effect/shortcutreconciler.cpp:4241-4314 | of a readable state on exact keyed answers a snapshot succeeds exactly when its rows are there, and its preview is forceable exactly when some action holds a required key that it may not hold; the rows are exactly those actions |
| ForceOutcome.SameSnapshot | kwin/native-effect/shortcutreconciler.cpp:3202-3575 | on a daemon that tells its actions apart, two readings of one state give the same snapshot |
| Reconciler.ShortcutReconciler.CollectHolderSnapshot | kwin/native-effect/shortcutreconciler.cpp:3202-3575 | the snapshot is the one that the answers given during the call determine; on an undisturbed daemon, the one its state determines |
| Reconciler.ShortcutReconciler.CheckKeyedForeignOccupancy | kwin/native-effect/shortcutreconciler.cpp:1928-2068 | the status is the one that the answers given during the call determine, nothing else is asked, and nothing is written; a draft that disables an unknown row is answered Unavailable, and when nothing interferes or fails and every answer is readable the status is that of all the answers there are |
| Reconciler.ShortcutReconciler.WriteProjectKeys | kwin/native-effect/shortcutreconciler.cpp:3587-4078 | whatever others do: only project rows and Lock Session are written, each at most once, each with what the draft asks for on an enumeration of this call that shows it otherwise, and Lock Session relocated from one that shows focus-right at its post; each write follows an owner answer of its own that names the owner the preflight found, and so does success; a refusal by the preflight of what the daemon answered writes nothing; success means the final read shows every row as promised, Authentic rows at conflict post or canonical chord. When nobody else writes, the writes are a prefix of the plan, all of it on success, and success leaves the state that way; when also nothing fails and the state can be enumerated, it succeeds exactly on a clean preflight with writes enough left for the whole plan; it never succeeds for an unknown draft or a state out of bounds |
| Reconciler.ShortcutReconciler.VerifyFinal | kwin/native-effect/shortcutreconciler.cpp:3895-4075 | the finish accepts an enumeration exactly when Authentic rows are listed at the post of their first conflict row or their canonical chord, Keep rows at their image, present disabled rows empty and the lock relocated |
| Reconciler.ShortcutReconciler.ApplyAgain | kwin/native-effect/shortcutreconciler.cpp:3587-4078 | when nobody else writes, applying again after a first call cut off anywhere reaches the final state of the plan, and after a success writes nothing; on exact keyed answers the second call, with no more failures, succeeds exactly when an Apply could begin at first and the client has writes enough left for what remains of the plan |
| Reconciler.ShortcutReconciler.BuildForcePreview | kwin/native-effect/shortcutreconciler.cpp:4241-4314 | the preview is the one that the answers given during the call determine, forceable exactly when some listed outsider holds a required key and none lacks one; on an undisturbed readable daemon that tells its actions apart it is forceable exactly when the rows are there and some action holds a required key that it may not, and its rows are exactly those actions |
| ReconcilerFacts.ActualPreviewBinds | kwin/native-effect/shortcutreconciler.cpp:4241-4314 | a forceable preview of a state binds the owner, the draft, the image and presence of every row, and for each row to be cleared the list some required key is held with |
| Reconciler.ShortcutReconciler.PersistUnion | kwin/native-effect/shortcutreconciler.cpp:4466-4494 | the durable list never shrinks; on success it is the old list and after it, each once, the actions to be cleared that were not on it |
| Reconciler.ShortcutReconciler.ClearHolder | kwin/native-effect/shortcutreconciler.cpp:4518-4571 | at most one foreign write, after the owner was asked again, replacing the list just re-read by that list without the required keys |
| Reconciler.ShortcutReconciler.ClearHolders | kwin/native-effect/shortcutreconciler.cpp:4518-4571 | clears happen in confirmed order, each from a re-read of its own made after the one before, and never uncover the record |
| Reconciler.ShortcutReconciler.ApplyForced | kwin/native-effect/shortcutreconciler.cpp:4370-4627 | neither store is touched unless the confirmation equals the preview that the first answers of this call determine, on an undisturbed daemon the preview of its actual state; the durable list covers everything taken wherever the call stops; the writes are clears, each from a later read of its own, then project rows as in an Apply, each after an owner answer of its own, the clears pinned to the confirmed owner; success leaves every row as the draft shows it and the kept rows as confirmed; when nothing interferes and nothing fails on a daemon that tells its actions apart, it succeeds exactly when the confirmation is the forceable preview of the state, the durable list has room for the holders and the client has writes enough left |
| Reconciler.ShortcutReconciler.RestoreOne | kwin/native-effect/shortcutreconciler.cpp:4150-4202 | at most one foreign write, and it writes the defaults just reported |
| Reconciler.ShortcutReconciler.Revert | kwin/native-effect/shortcutreconciler.cpp:4095-4207 | restores happen in list order, each after an owner answer of its own that names the owner asked first; the list is emptied only when nothing foreign is outstanding; the record stays covered wherever the call stops; no action of component kwin whose name begins with omnitiler- is written, and after an undisturbed success every other listed action holds its defaults; when nothing interferes and nothing fails, it succeeds exactly when the list is empty, or the state can be enumerated, every listed action can be restored and the client has writes enough left |
| Reconciler.ShortcutReconciler.RevertAgain | kwin/native-effect/shortcutreconciler.cpp:4128-4207 | when nobody else writes, a revert after an interrupted one ends where one uninterrupted revert would, with every listed action outside kwin/omnitiler- at its defaults and the others untouched; once the failures stop it succeeds exactly when the first did or the original list could be reverted with the writes left |
| Reconciler.ShortcutReconciler.AnyRun | kwin/native-effect/shortcutreconciler.cpp:4466-4571 | over any sequence of apply, force and revert calls with failures anywhere, every action whose last clear was not followed by a reset is on the durable list, unless its component is kwin and its name begins with omnitiler-; no write and no answer is ever struck from the logs |
| ForceRecord.InterruptedRevertResumes | kwin/native-effect/shortcutreconciler.cpp:4128-4207 | restoring a prefix and then the whole list is restoring the whole list |
| ForceRecord.CoveredIsRecorded | kwin/native-effect/shortcutreconciler.cpp:4466-4494 | the record law read off the log alone: every action whose last foreign write was not a reset is listed, but for those of kwin that begin with omnitiler- |
| ForceRecord.TargetsAre | kwin/native-effect/shortcutreconciler.cpp:909-916 | a revert writes to exactly the listed actions whose component is not kwin or whose name does not begin with omnitiler- |
| ReconcilerFacts.RevertGivesBack | kwin/native-effect/shortcutreconciler.cpp:4150-4202 | what a revert wrote, and after an undisturbed success what each listed action holds, in those terms |
| SessionKeys.SessionOutputKeys.Rebuild | kwin/src/workspace-native.ts:603-633 | the k-th connected output of an identity tuple gets the k-th key ever issued for that tuple, issued keys stay, and a new one is issued only when the tuple has fewer |
| SessionKeys.SessionOutputKeys.KeyFor | kwin/src/workspace-native.ts:635-650 | an output's own key, else the first ever issued for its tuple |
| SessionKeys.NthKeyStable | kwin/src/workspace-native.ts:598-651 | issuing more keys never changes which key is the k-th of a tuple |
| SessionKeys.DistinctOutputsDistinctKeys | kwin/src/workspace-native.ts:598-651 | distinct connected outputs have distinct keys |
| SessionKeys.ReturningOutputKeepsKey | kwin/src/workspace-native.ts:598-651 | an output that returns in the same rank among its tuple gets its old key |
| WorkspaceLists.MovedToKeeps | kwin/src/workspace-native.ts:2115-2135 | moving desktops keeps the partition, unlists none, and puts each on the destination alone |
| WorkspaceLists.RebuiltCovers | kwin/src/workspace-native.ts:1534-1586 | after a local rebuild every live desktop is on exactly one list and nothing else is listed; other lists only lose dead desktops |
| GlobalMapping.AssignedIsMove | kwin/src/workspace-native.ts:1588-1605 | assigning moves a desktop to the end of the list unless it is there already |
| GlobalMapping.AssignedKeeps | kwin/src/workspace-native.ts:1588-1605 | lists and inverse map stay in step, with the desktop on that list alone |
| GlobalMapping.AssignedAllIsMove | kwin/src/workspace-native.ts:1588-1605 | assigning several appends, in order, those not there already |
| GlobalMapping.UnassignedKeeps | kwin/src/workspace-native.ts:1607-1620 | the desktop leaves both maps, which stay in step |
| GlobalMapping.GlobalRebuiltCovers | kwin/src/workspace-native.ts:1635-1702 | after a global rebuild the maps agree and every live desktop is on exactly one list |
| Lifecycle.TwoPassesSettle | kwin/src/workspace-native.ts:1870-1900 | in all three modes two passes reach a fixed point in which every connected output's list ends in an empty desktop, and what comes before it there is unmanaged, occupied, in view, kept, the last of all, or on a list or in a session of at most two |
| Lifecycle.WithTrailingEnds | kwin/src/workspace-native.ts:503-529 | after its turn a list ends in an empty desktop, and no other list has changed |
| Lifecycle.RetiredSticks | kwin/src/workspace-native.ts:503-529 | what a list's turn did not retire is held by a guard that still holds at its end, the floor of two per list being one of them |
| Lifecycle.TurnInOrder | kwin/src/workspace-native.ts:503-529 | a list's turn retires from the front: an earlier desktop outlives a later one only when unmanaged, occupied, in view, kept, or last of all |
| Lifecycle.TurnKeepsTwo | kwin/src/workspace-native.ts:3256-3397 | a list's turn never takes a list of two or more below two, and a list of at most two loses nothing |
| Lifecycle.OnePassMayNotSettle | kwin/src/workspace-native.ts:503-529 | two desktops for which a second pass still removes one |
| Lifecycle.PassRemovesOnlyRetirable | kwin/src/workspace-native.ts:3256-3397 | a pass removes only managed desktops that are unoccupied, out of view, not retained and not displaced, and never goes below two |
| Lifecycle.PassKeepsTwo | kwin/src/workspace-native.ts:2703-2730 | in every mode a pass leaves each list two of the desktops it has once rebuilt, and all of at most two |
| Lifecycle.RoomyPass | kwin/src/workspace-native.ts:503-529 | a local pass needs room below the cap only for the lists that do not end in an empty desktop, and the next pass needs none |
| Lifecycle.LastKept | kwin/src/workspace-native.ts:507-513 | a local pass keeps the unoccupied last desktop of a list last when every live desktop is listed |
| Displacement.MovedAreHome | kwin/src/workspace-native.ts:2043-2075 | returned desktops sit at the end of their list in recorded order, on no other list |
| Displacement.StaysHome | kwin/src/workspace-native.ts:2043-2086 | later returns to other outputs leave them there |
| ViewHistory.ObservedAllSound | kwin/src/workspace-native.ts:2317-2359 | no observation makes a remembered view equal the observed one |
| ViewHistory.SignalRemembers | kwin/src/workspace-native.ts:2317-2424 | over a signal each output is observed at its view and remembers the one observed before when that changed and still resolves |
| ViewHistory.ReturnsFresh | kwin/src/workspace-native.ts:2317-2424 | an output that a signal finds gone comes back with no view remembered |
| Migration.InsertAfterPlaces | kwin/src/workspace-native.ts:1390-1410 | the inserted desktop directly follows the view, and every other keeps its place |
| Migration.MigratedKeeps | kwin/src/workspace-native.ts:1389-1411 | a migration keeps the partition and moves exactly one desktop, directly behind the target's view |
| Ring.StepBack | kwin/src/workspace-native.ts:1129-1132 | one step back undoes one step forward |
| Ring.StepIs | kwin/src/workspace-native.ts:1129-1132 | a step goes to the next or previous position and wraps at both ends |
| Ring.RingVisitsAll | kwin/src/workspace-native.ts:1129-1132 | once round the ring visits every desktop exactly once and returns |
| WorkspaceFacts.RecordsWithoutSound | kwin/src/workspace-native.ts:1420-1433 | exactly the migrated desktop leaves the displaced records |
| WorkspaceFacts.CarriedMoveOff | kwin/src/workspace-native.ts:2025-2030 | moving a lost output's live desktops off and dropping its list unmaps none of them |
| DisplacementPass.ReturnHomeIff | kwin/src/workspace-native.ts:2043-2086 | one return in the global mode restores recorded order exactly when the list ended in the first of the recorded desktops and held none of the others |
| DisplacementPass.ReconciledBack | kwin/src/workspace-native.ts:1916-2094 | whatever is lost and returns in one pass, the lists stay a partition; every recorded desktop of a connected output is alone on the list of the last that names it; the desktops of an unshared record end its list in recorded order, in the global mode exactly when the list they found ended in the first of them |
| DisplacementPass.ReturnedTo | kwin/src/workspace-native.ts:2043-2086 | the whole list of a returned output with an unshared record: what it had less what other returned records name, and its own desktops at the end, in the global mode only the missing ones |
| DisplacementPass.FreshReturnHome | kwin/src/workspace-native.ts:2043-2086 | recorded order comes back when none of the desktops was on the list or claimed by an output lost in the same pass |
| DisplacementPass.RestStays | kwin/src/workspace-native.ts:1959-1996 | when every output known but not connected is displaced to a connected survivor that lists its desktops, and no connected output has a record, the pass changes no list |
| DisplacementPass.AfterLossesKeep | kwin/src/workspace-native.ts:1964-2041 | in whatever order outputs are found lost, the lists stay a partition and no list gains a desktop that no lost output claims |
| DisplacementPass.BelongingOrder | kwin/src/workspace-native.ts:1999-2015 | what is taken of a lost output comes in order: its list's live desktops, then those of its windows, then its view, each once |
| WorkspaceFacts.ToggleRemembered | kwin/src/workspace-native.ts:2317-2424 | a signal after a view change remembers the view left behind |
| WorkspaceAdapter.WorkspaceNativeAdapter.RebuildLocalMapping | kwin/src/workspace-native.ts:1534-1586 | does the local rebuild or, when something is unreadable, nothing; with a readable window system it is done |
| WorkspaceAdapter.WorkspaceNativeAdapter.RebuildGlobalMapping | kwin/src/workspace-native.ts:1635-1702 | does the global rebuild or, when something is unreadable, nothing |
| WorkspaceAdapter.WorkspaceNativeAdapter.AppendDesktopFor | kwin/src/workspace-native.ts:3151-3254 | a created desktop is new and last on the output's list alone; a failed creation leaves the lists, the maps and the managed set as they were |
| WorkspaceAdapter.WorkspaceNativeAdapter.RequestRemoval | kwin/src/workspace-native.ts:3256-3297 | every removal is requested in a state where the desktop is managed, on no window, in no view and not kept, more than two are live and it is not the last; the window system records it with its windows and views |
| WorkspaceAdapter.WorkspaceNativeAdapter.RemoveManagedEmpty | kwin/src/workspace-native.ts:3256-3397 | retires the desktop exactly when no guard holds it; from a list of at most two nothing is retired |
| WorkspaceAdapter.WorkspaceNativeAdapter.EnsureTrailingEmptyDesktop | kwin/src/workspace-native.ts:503-529 | with calls that can be relied on, does to one list exactly what the pass over values does, leaving it two of its desktops and all of at most two |
| WorkspaceAdapter.WorkspaceNativeAdapter.CleanupDesktops | kwin/src/workspace-native.ts:1870-1900 | with everything readable, is the pass over values, and each connected output's list keeps two of its desktops and all of at most two; otherwise keeps the mapping and only makes guarded removals |
| WorkspaceAdapter.WorkspaceNativeAdapter.CleanupSettles | kwin/src/workspace-native.ts:1870-1900 | a third pass changes nothing after two, and every connected output's list ends empty |
| WorkspaceAdapter.WorkspaceNativeAdapter.MoveLocalIdsTo | kwin/src/workspace-native.ts:2124-2135 | the loops move the desktops, in order, to the end of one list |
| WorkspaceAdapter.WorkspaceNativeAdapter.EnsureDisplacedPresent | kwin/src/workspace-native.ts:2137-2170 | moves to the end of the survivor's list the displaced desktops that are not there, in either mode |
| WorkspaceAdapter.WorkspaceNativeAdapter.SelectSurvivorKey | kwin/src/workspace-native.ts:587-593 | with faithful readings the survivor is the active screen's output when it has a key among the connected ones, else the first connected one |
| WorkspaceAdapter.WorkspaceNativeAdapter.KeepDisplaced | kwin/src/workspace-native.ts:1971-1996 | keeps every mapped live desktop mapped while an output stays away; with its survivor there the record stands and the desktops are on that survivor alone, else the record names the survivor chosen now, the active screen's output when that is connected and identified and otherwise the first connected one, whose local list has them, and no other desktop or record is touched |
| WorkspaceAdapter.WorkspaceNativeAdapter.DisplaceLost | kwin/src/workspace-native.ts:1998-2041 | records exactly the live desktops known of a lost output, changing no other record, and puts them without unmapping a live desktop on one connected output alone: with faithful readings the active screen's when that is identified and connected, else the first |
| WorkspaceAdapter.WorkspaceNativeAdapter.ReturnDisplaced | kwin/src/workspace-native.ts:2043-2086 | moves exactly the recorded desktops to the returned output and drops its record |
| WorkspaceAdapter.WorkspaceNativeAdapter.ReconcileOutputDisplacement | kwin/src/workspace-native.ts:1916-2094 | for any outputs lost and gained at once every live mapped desktop stays mapped, on one list; the outputs found lost are exactly the known ones not connected, and with faithful readings each goes to the active screen's output when that is identified and connected, else to the first; the lists are exactly what handling the losses in some order, each with its survivor, and then the returns makes of the lists before; every recorded desktop of a returned output is back, alone on the list of the last that names it, and an unshared record in its order, in the global mode exactly when the list it found ended in the first of its desktops; with nothing to move, no list, view or record changes |
| WorkspaceAdapter.WorkspaceNativeAdapter.MembershipByKey | kwin/src/workspace-native.ts:2200-2268 | exactly the desktops of the readable windows on each connected output |
| WorkspaceAdapter.WorkspaceNativeAdapter.HandleTopologySignal | kwin/src/workspace-native.ts:956-983 | after a readable signal that identifies an output every previous-view entry is of a connected output, live, in scope and different from the recorded current view; one that identifies none drops exactly the entries whose desktop is gone or out of its list; desktops and lists are those the displacement pass leaves, tended by cleanup: what a guard holds stays, on its list and in order |
| WorkspaceAdapter.WorkspaceNativeAdapter.UnidentifiedSignal | kwin/src/workspace-native.ts:956-983 | a signal that identifies no output keeps the remembered view of an output that is gone while the desktop is held |
| WorkspaceAdapter.WorkspaceNativeAdapter.CommitWorkspaceMigration | kwin/src/workspace-native.ts:1326-1448 | a commit, on the lists as they were or as a rebuild of them makes them, moves exactly the one desktop from the source's list behind the view on the target's list, and leaves every other list alone when the lists already covered the live desktops; it drops that desktop alone from the displaced records and the source's history, every other remembered view that still resolves staying (with readings that can be relied on), and returns a refill from the remaining scope, none only when that is empty; with a readable window system it is refused exactly for an ineligible desktop; a refusal leaves records and history |
| WorkspaceAdapter.WorkspaceNativeAdapter.SelectLogical | kwin/src/workspace-native.ts:2896-2950 | selects an existing position of the active output only; in the global mode a desktop that another output shows is traded for the active output's view |
| WorkspaceAdapter.WorkspaceNativeAdapter.SelectTrailingOrCreate | kwin/src/workspace-native.ts:1001-1020 | what comes into view is an empty desktop of the active output's own list; with everything readable it is the last of that list, created only when the list does not end in an empty one, and it fails only at the cap |
| WorkspaceAdapter.WorkspaceNativeAdapter.RefillFor | kwin/src/migration-source-refill.ts:71-85 | from what remains of the source's scope: its own view while in it, else the remembered view under the most-recently-used rule, else the last remaining |
| WorkspaceAdapter.WorkspaceNativeAdapter.SelectRelative | kwin/src/workspace-native.ts:1086-1147 | on success the active output's view has moved one step, wrapping, along the ring of its own scope; with a readable window system it succeeds exactly when the output is identified and its view is on that ring |
| WorkspaceAdapter.WorkspaceNativeAdapter.PreviousThenSignal | kwin/src/workspace-native.ts:1025-1081 | in the local mode, with no output waiting to be displaced or to return, selecting the previous view and a signal exchange view and remembered view when the view left behind survives; it survives when a window, a pending send or a displaced output holds it, or it is the last of its list and every live desktop is listed, and there is room for one desktop per list that does not end in an empty one |
| WorkspaceAdapter.WorkspaceNativeAdapter.PreviousTwice | kwin/src/workspace-native.ts:1025-1081 | twice over restores both while both desktops survive, and both do under that condition |
| WorkspaceAdapter.WorkspaceNativeAdapter.TradedBeforeReturn | kwin/src/workspace-native.ts:2043-2086 | a selection before the signal that brings an output back, after which its two recorded desktops are on its list and not in recorded order |
| WorkspaceAdapter.WorkspaceNativeAdapter.AnyRun | kwin/src/workspace-native.ts:956-1448 | over any sequence of operations and environment steps the mapping stays a partition, no recorded removal is struck from the window system's log and every one was guarded, and no remembered view is the observed one |
| HighlightFlights.CorrelationInjective | kwin/src/active-group-highlight.ts:697-700 | both correlation shapes together spell the pair of counters without ambiguity |
| HighlightFlights.CorrelationFits | kwin/src/active-group-highlight.ts:670-701 | every correlation of a generation of at most 64 characters is within the wire cap |
| HighlightFlights.CorrelationsUnique | kwin/src/active-group-highlight.ts:656-741 | no two flights of an instance share a correlation |
| HighlightFlights.ActiveGroupHighlight.Refresh | kwin/src/active-group-highlight.ts:656-741 | for given answers of the environment, a new flight is pending and nothing is cleared, or nothing is pending and the highlight is cleared once |
| HighlightFlights.ActiveGroupHighlight.Invalidate | kwin/src/active-group-highlight.ts:743-748 | nothing is shown until a flight issued later is accepted |
| HighlightFlights.ActiveGroupHighlight.OnReply | kwin/src/active-group-highlight.ts:750-850 | for given answers of the environment, only the first reply to the newest flight acts, and it sets the highlight exactly when justified by identity and a fresh observation |
| HighlightFlights.ActiveGroupHighlight.AnyRun | kwin/src/active-group-highlight.ts:656-850 | over any interleaving highlights go up in issue order, none twice, none from before the latest invalidation |
| Decimal.Injective | kwin/src/active-group-highlight.ts:697-700 | different counters are spelled differently |
| IntentCodec.NormalizeIdentifies | crates/omnitiler/src/float_intent_store.rs:148-179 | two ids normalise alike exactly when equal or one is the braced spelling of the other's UUID |
| IntentCodec.NormalizeAccepts | crates/omnitiler/src/float_intent_store.rs:148-179 | an id of 1 to 128 letters, digits and -_. stands for itself, a braced UUID of hexadecimal runs 8-4-4-4-12 for what is between the braces, and nothing else is accepted |
| IntentCodec.NormalizeAll | crates/omnitiler/src/float_intent_store.rs:181-194 | accepts exactly the lists that are bounded, normalise throughout and then hold no id twice, and returns that normalisation |
| IntentCodec.ParseStoreBytes | crates/omnitiler/src/float_intent_store.rs:394-411 | corrupt, foreign namespace, or the two canonical disjoint lists, for bodies in the writer's own layout |
| IntentCodec.StoredBodyReadsBack | crates/omnitiler/src/float_intent_store.rs:394-411 | a stored body reads back under its own namespace as exactly its lists and is refused under any other; a body without a tile list reads as an empty one |
| IntentCodec.ParsedIsStorable | crates/omnitiler/src/float_intent_store.rs:394-411 | whatever bytes are parsed, the result is canonical and disjoint and would read back the same |
| IntentCodec.BodySize | crates/omnitiler/src/float_intent_store.rs:302-312 | the exact size of a body |
| IntentCodec.OneSideAlwaysFits | crates/omnitiler/src/float_intent_store.rs:77-85 | a full snapshot of one side is always within the cap |
| IntentCodec.TwoFullSidesNeverFit | crates/omnitiler/src/float_intent_store.rs:310-312 | two full sides of longest ids are always above it |
| IntentCodec.PrunedIsOrderedIntersection | crates/omnitiler/src/float_intent_store.rs:222-273 | a pruned list is the stored one, in order, less the ids no live entry normalises to |
| IntentStore.AtomicReplace | crates/omnitiler/src/float_intent_store.rs:544-576 | every state the directory passes through has the whole old or the whole new body in the final file; an occupant of the temporary name is preserved |
| IntentStore.ReadFiltered | crates/omnitiler/src/float_intent_store.rs:233-274 | changes nothing; degrades to empty or reads what the listing says |
| IntentStore.WriteBoth | crates/omnitiler/src/float_intent_store.rs:290-332 | refuses exactly what cannot be stored, before touching the disk; never replaces a file that is not a regular one of the user's; otherwise the body is that of the request normalised, whole in place on success, and old or whole new after a failure |
| IntentStore.AcceptedWriteReadsBack | crates/omnitiler/src/float_intent_store.rs:233-332 | after an accepted write a read returns the normalised lists, pruned as asked, under that namespace only |
| GeometryOrder.WritesAreChangedWindowsInOrder | kwin/src/geometry-order.ts:29-52 | the writes are the changed windows, once each, by area growth and then id |
| GeometryOrder.WritesIgnoreInputOrder | kwin/src/geometry-order.ts:29-52 | the same for every order of the input |
| GeometryOrder.WritesReachDesired | kwin/src/geometry-order.ts:29-52 | applied in sequence they turn the old layout into the desired one and touch nothing else |

## Left out

* D-Bus marshalling, reply parsers and introspection of the shortcut daemon: the store's calls stand for them, with failure at any call.
* Owner and user-id resolution beyond "the owner may have changed, then the call fails".
* `KConfig` file handling and path and permission checks of the cleared list: it is a cell that loads, saves and clears as a whole.
* The literal key constants, conflict table and catalog: a well-formed configuration stands for them.
* The allowlist of the project-row setter: it admits the catalog and the conflict table's actions, among them every action it is given.
* Friendly names are one string per action, and the presence check of conflict-table rows is part of the catalog check.
* The settings modules, the border renderer, drag handling, tray publishing and the small config decoders: no state that these proofs need.
* Re-entrancy guards, per-desktop tiling flags, the set of owned desktops and log tokens of the workspace adapter.
* The adapter's mode is fixed for the life of the model object; re-enabling resets all mapping state in the source as here.
* Move-target resolution (`kwin/src/workspace-native.ts:1152-1310`): it rebuilds and appends as the selections do and would add only easy members.
* Survivor choice by distance: the source passes no geometry of the lost output, so it never applies.
* WorkspaceAdapter.WorkspaceNativeAdapter.KeepDisplaced: in the global mode the move to a new survivor edits only the local lists, as in the source, so desktops need not be at their recorded survivor until a later pass; no claim is made that they are.
* WorkspaceAdapter.WorkspaceNativeAdapter.PreviousThenSignal: for a signal with nothing to displace or to return; one with an output waiting to be displaced or to return moves desktops and may switch views. A desktop that cleanup appends beyond the cap of 32 makes the desktops unreadable, and no exchange is claimed then.
* WorkspaceAdapter.WorkspaceNativeAdapter.CommitWorkspaceMigration: a refused migration may already have rebuilt the mapping, and no claim is made that it has not.
* WorkspaceAdapter.WorkspaceNativeAdapter.CleanupDesktops: equality with the pass over values is claimed while the desktops stay within the cap of 32 and some output is identified; without one only the guards and the partition are claimed of the method, and `Lifecycle.TwoPassesSettle` of the pass.
* A reply delivered while the query is still being sent, followed by a failure of the sending call.
* Wire formats of the group query and its reply: a reply is what parsing made of it.
* IntentCodec.ParseStoreBytes: JSON bodies in other layouts than the writer's own (white space, field order, escapes), which the source reads, count as corrupt here.
* Bus and owner name syntax beyond the character set and length of a namespace field.
* Opening the runtime directory without following links, and ownership and mode checks beyond one flag per file; concurrent writers of the store.
* The ids of desktops and outputs are opaque; the alphabet checks on them are not modelled.
