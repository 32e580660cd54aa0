# Verification of the Airflow service's stateful and algorithmic parts

This project models the parts of the repository whose behaviour is hard to see from one function body, and proves
properties of them with Dafny 4.11. `dafny verify dfyconfig.toml` checks everything.

## What is modelled

**The HDFS disaster-recovery protocol** (`tests_dags_image/dags/dr_sync_folderv2.py`). Two sites each hold a live folder
and a set of numbered snapshots; a DAG run is a chain of calls that can fail or crash one by one.

- `Decimal`, `Snapshots`, `SnapshotNames`: snapshot names, the pattern that reads them, the latest number.
- `HdfsTree`: folder contents and the two kinds of `distcp`.
- `DrProtocol`, `DrInvariant`, `DrHistory`: the protocol as a transition system with one program counter per run, its
  invariant, and theorems about histories of any length.
- `DrSync`: the DAG's functions, statement by statement, on mutable folder objects. Each is proved to take only steps of
  `DrProtocol`, so that the theorems of `DrHistory` hold of it.

Users may write to main's live folder between any two calls, and a call may fail before or after taking effect. A full
copy overlays the snapshot on the DR folder and deletes nothing. A differential copy needs the DR folder to equal the
base snapshot and applies the difference of main's two snapshots. A copy that fails leaves anything in the DR folder.
What users write to main is a sequence of contents given in advance; nothing else may show up in main's live folder. A
folder that is `up` answers every call; the safety theorems need no such assumption, that a run succeeds does.

**The site manager** (`site-manager/pkg/disasterrecovery/airflow/manager.go`).

- `ComponentHealth`, `ComponentOrder`: pods to component scores, scores to the status of the service, the polling loops.
  The order in which Go walks the replica map is a parameter. Products are 64-bit.
- `ModeSwitch`, `ModeSwitchHistory`, `ModeSwitchRace`: a mode switch as interleaved processes. A send on an unbuffered
  channel and its receive are one step. The results of scaling, waiting and pod deletion are fixed in advance. With
  `sharedErr` the goroutine's list calls assign the same `err` the verdict is taken from, as in the source (lines 190, 200,
  224 against 246, 255, 262); without it, receiving an error and fixing the verdict is one step. The verdict is right in
  every switch that is `Sound`, and there is no deadlock in any that is not `CanHang`. `FalseDoneIff`, `HangsIff` and
  `DeletionAfterFailedScaleIff` say exactly which switches, with the shared `err`, go wrong, and in what way.

**The schema generator** (`docker-transfer/generate_json_schema.py`).

- `Json`: documents, locations, `$ref` (a simplified JSON Pointer: sections 4 and 6 of RFC 6901 without escapes).
  `WrongType` stands for Python's `TypeError` and `AttributeError`.
- `SchemaProjection`, `SchemaReuse`: the cursor loop that builds the customised schema, against the declarative
  restriction of the community schema to the listed paths, and what the result is location by location.
- `SchemaDefaults`: the recursion that rewrites defaults, through possibly cyclic `$ref`s. `SchemaUpdate` and
  `SchemaUpdateAll`: what it computes, in a form without an order, and when shared definitions are safe.
- `SchemaMerge`, `SchemaKeys`, `SchemaRenameOrder`: deep merge, removal and renaming of keys, and what the order of the
  keys has to do with it.

**Smaller cores.** `PrimeSieve` (`cpu_load_dag.py`), `ImageTags`, `TagUpdate`, `TagUpdateLaws` (`sync_util.py`),
`PgConnection` (the PostgreSQL URL built by `dbaas_secrets_backend.py` and the pattern in `airflowLibrary.py` that reads
such URLs).

## What the proofs found

- `DrHistory.InterruptedUpdateBlocks`: a run that dies after creating main's snapshot n+1 and before DR's blocks the folder
  for good; no data is lost, but every later check raises.
- `DrHistory.CrashDuringCleanup`: docs/public/dr-sync-dag.md says that previous snapshots are deleted. An update deletes its
  base exactly when it completes. A base left over by a crash after DR's snapshot was made is never deleted: later runs
  only delete the snapshot before the one they copied (`LeftoverBaseStays`).
- `ModeSwitchRace.FalseDoneIff`: with the shared `err`, some schedule reports DONE although a result was an error exactly
  when a deployment fails to scale, or exactly one scaling fails, or all scaling succeeds and waiting for a deployment
  fails. `HangsIff`: some schedule waits forever exactly when a deployment fails to scale and there is another workload.
- `ModeSwitchRace.DeletionAfterFailedScaleIff`: executor pods can be deleted after a failed scaling exactly when it is the
  only failed one, there are pods to delete, and, with the shared `err`, at most one waiting result is an error; without
  it, when nothing is awaited.
- `ComponentOrder.OrderMattersIff`: docs/public/airflow-site-manager.md says when the service is down and when degraded. In
  the code the order of the map decides, exactly when one counted component is down and another degraded.
  `ComponentHealth.UnknownScore`: with a component that has more ready pods than configured, or whose pods cannot be
  listed, the service is down if no counted component is degraded, and degraded if one is and none is down.
- `SchemaUpdate.GuardHoldsIff`: the refusal to update through references guards first-level properties only. A default one
  level further down in a shared definition is rewritten without an error.
- `SchemaRenameOrder.OneOutcomeIff`: where an object has both the old and the new key, the outcome of renaming depends on the
  order of its keys exactly when an old key is below the value that is moved.
- `SchemaMerge.AssociativeIff`, `SchemaMerge.SelfMergeIff`, `SchemaKeys.RoundTripIff`, `TagUpdateLaws.RepeatIff`,
  `PgConnection.BuiltReadsBackIff`: the exact conditions of laws that hold for most inputs but not for all.

## Model

| member | source | states |
|---|---|---|
| `Decimal.ParsePrint` | tests_dags_image/dags/dr_sync_folderv2.py:263 | `int()` of a printed number is the number, for every natural number |
| `Decimal.PrintParse` | tests_dags_image/dags/dr_sync_folderv2.py:263 | printing what was read gives the digits back iff there is no zero in front of another digit |
| `Decimal.ParseZero` | tests_dags_image/dags/dr_sync_folderv2.py:263 | a zero in front does not change the number read |
| `Decimal.NoLeadingZero` | tests_dags_image/dags/dr_sync_folderv2.py:324 | printed numbers have no zero in front |
| `SnapshotNames.NumberOfName` | tests_dags_image/dags/dr_sync_folderv2.py:261-263 | the pattern accepts the printed name of n iff n is not negative, and then reads n back |
| `SnapshotNames.MatchesIff` | tests_dags_image/dags/dr_sync_folderv2.py:261 | the pattern accepts exactly the prefix followed by one or more digits and nothing else |
| `SnapshotNames.NameInjective` | tests_dags_image/dags/dr_sync_folderv2.py:324 | different numbers never get the same snapshot name |
| `SnapshotNames.IdOfText` | tests_dags_image/dags/dr_sync_folderv2.py:252-266 | snapshots and their names correspond one to one, in both directions |
| `SnapshotNames.IdNumber` | tests_dags_image/dags/dr_sync_folderv2.py:261-263 | a snapshot has the number the pattern reads from its name, foreign names such as `snapshot_007` included |
| `SnapshotNames.GetLatest` | tests_dags_image/dags/dr_sync_folderv2.py:257-266 | the loop returns -1 iff no name is the prefix followed by digits only, otherwise the greatest number read from any name |
| `SnapshotNames.Max` | tests_dags_image/dags/dr_sync_folderv2.py:266 | the greatest member of the list |
| `Snapshots.LatestUnique` | tests_dags_image/dags/dr_sync_folderv2.py:252-266 | a number that bounds all and is one of them is the latest: the answer does not depend on the listing order |
| `Snapshots.LatestAdd` | tests_dags_image/dags/dr_sync_folderv2.py:324-365 | creating snapshot n makes the latest number the greater of n and the old one |
| `Snapshots.LatestRemove` | tests_dags_image/dags/dr_sync_folderv2.py:419-430 | deleting a snapshot older than the latest keeps the latest number |
| `HdfsTree.ListingEmpty` | tests_dags_image/dags/dr_sync_folderv2.py:317 | the listing the guards look at is empty iff the folder is |
| `HdfsTree.ListingIs` | tests_dags_image/dags/dr_sync_folderv2.py:396-401 | a name is listed iff something is at it or below it |
| `HdfsTree.OverlayIs` | tests_dags_image/dags/dr_sync_folderv2.py:493-503 | a full copy brings every entry of the snapshot over, removes nothing, and so yields the snapshot iff DR has nothing else |
| `HdfsTree.ApplyDiff` | tests_dags_image/dags/dr_sync_folderv2.py:508-520 | a differential copy yields the target snapshot iff the DR folder agrees with the base wherever the difference is silent |
| `DrInvariant.BeginInv` | tests_dags_image/dags/dr_sync_folderv2.py:283-363 | every choice of check_folder_state meets what the chosen copy relies on: an empty DR folder, or DR equal to the base |
| `DrInvariant.CreateMainInv` | tests_dags_image/dags/dr_sync_folderv2.py:324-366 | creating the snapshot to copy keeps the invariant |
| `DrInvariant.CopyInv` | tests_dags_image/dags/dr_sync_folderv2.py:493-520 | a successful copy of either kind makes the DR folder equal to main's newest snapshot |
| `DrInvariant.ReadLatestInv` | tests_dags_image/dags/dr_sync_folderv2.py:390-392 | the number read again is the number copied |
| `DrInvariant.CompareInv` | tests_dags_image/dags/dr_sync_folderv2.py:396-404 | the comparison never raises after a successful copy |
| `DrInvariant.NextInv` | tests_dags_image/dags/dr_sync_folderv2.py:283-430 | every call, crash, failed copy and user write keeps the invariant |
| `DrHistory.AlwaysInv` | tests_dags_image/dags/dr_sync_folderv2.py:283-430 | the invariant holds in every reachable state |
| `DrHistory.CommonSnapshotsAgree` | docs/public/dr-sync-dag.md:15 | in every reachable state a snapshot number on both sites names the same content |
| `DrHistory.ReadLatestIsChosen` | tests_dags_image/dags/dr_sync_folderv2.py:390-392 | whenever validation reads main's latest number it gets the one chosen at the start of the run, and DR equals that snapshot |
| `DrHistory.DrLatestMonotone` | tests_dags_image/dags/dr_sync_folderv2.py:283-430 | the latest number on DR and the count of completed runs never go back |
| `DrHistory.RecoveryPointNeverLost` | tests_dags_image/dags/dr_sync_folderv2.py:283-430 | once one run has completed, every later state, crashes and failed copies included, has a number on both sites with identical content |
| `DrHistory.StepKeeps` | tests_dags_image/dags/dr_sync_folderv2.py:343-430 | a step changes or removes no snapshot but the one its call names |
| `DrHistory.BaseDeletedOnlyAfterSuccessor` | tests_dags_image/dags/dr_sync_folderv2.py:419-430 | a common snapshot disappears only while its successor is common, before and after |
| `DrHistory.RefusesIff` | tests_dags_image/dags/dr_sync_folderv2.py:288-361 | in reachable states the check refuses exactly when a folder is missing, DR holds data without a snapshot, or main is ahead of the common number |
| `DrHistory.RefusalIsPermanent` | tests_dags_image/dags/dr_sync_folderv2.py:288-361 | after a refusal every later check refuses for the same reason and no snapshot nor the DR folder ever changes |
| `DrHistory.InterruptedUpdateBlocks` | tests_dags_image/dags/dr_sync_folderv2.py:358-366 | a run that fails between main's snapshot n+1 and DR's blocks the folder; snapshot n stays a recovery point |
| `DrHistory.InterruptedFirstCopy` | tests_dags_image/dags/dr_sync_folderv2.py:335-349 | a first copy interrupted anywhere before its DR snapshot is resumed with the same number iff DR is empty by then, and refused otherwise |
| `DrHistory.LeftoverBaseStays` | tests_dags_image/dags/dr_sync_folderv2.py:419-430 | a snapshot older than the base of the current run is never deleted and never created again |
| `DrHistory.CrashDuringCleanup` | tests_dags_image/dags/dr_sync_folderv2.py:393-430 | the base of an update is gone from both sites, for good, iff the run completed; it stays on DR iff the run crashed, and on main iff it crashed before the deletion there |
| `DrHistory.BaseIsThere` | tests_dags_image/dags/dr_sync_folderv2.py:393-394 | every update reaches its comparison with the base on both sites |
| `DrHistory.FaultFreeRuns` | docs/public/dr-sync-dag.md:13-22 | k fault-free runs from empty sites leave exactly snapshot k on each, equal in content; never more than two on the way; none is refused |
| `DrHistory.FaultFreeProgress` | tests_dags_image/dags/dr_sync_folderv2.py:283-430 | a fault-free run is never refused nor stuck: there is a next call, and it brings the end nearer |
| `DrHistory.FaultFreeCompletes` | tests_dags_image/dags/dr_sync_folderv2.py:283-430 | any fault-free history goes on to one more completed run, in eight steps from the start of a run |
| `DrHistory.ReachesKeeps` | tests_dags_image/dags/dr_sync_folderv2.py:283-430 | what any sequence of steps keeps, from any state in the invariant |
| `DrSync.GetLatestSnapshotNumber` | tests_dags_image/dags/dr_sync_folderv2.py:252-266 | answers the latest number of the folder's snapshots, or fails |
| `DrSync.Classify` | tests_dags_image/dags/dr_sync_folderv2.py:288-361 | the order of tests in check_folder_state decides as the protocol does |
| `DrSync.HadoopDistCp` | tests_dags_image/dags/dr_sync_folderv2.py:493-520 | the contract of the two copy commands |
| `DrSync.HdfsFolder.CreateSnapshot` | tests_dags_image/dags/dr_sync_folderv2.py:324 | adds a snapshot of the live folder under an unused name or changes nothing |
| `DrSync.HdfsFolder.DeleteSnapshot` | tests_dags_image/dags/dr_sync_folderv2.py:343 | removes the named snapshot or changes nothing |
| `DrSync.FolderSync.CheckFolderState` | tests_dags_image/dags/dr_sync_folderv2.py:283-380 | takes only protocol steps; refuses or chooses as the protocol decides; writes nothing to main's live folder; a refusal touches no snapshot, and a choice leaves one new snapshot, of what users had written at some moment of the call; only a failing call, or a latest snapshot under a name the DAG does not print, can keep it from its choice |
| `DrSync.FolderSync.DistCp` | tests_dags_image/dags/dr_sync_folderv2.py:493-520 | takes only protocol steps, ends copied or failed, and cannot fail while both clusters are up: what distcp needs is there |
| `DrSync.FolderSync.ValidateDistcpSuccessful` | tests_dags_image/dags/dr_sync_folderv2.py:383-430 | takes only protocol steps; success is one completed run with the copied number the latest on both sites and its base gone; it cannot fail while both clusters are up |
| `DrSync.FolderSync.RunOnce` | tests_dags_image/dags/dr_sync_folderv2.py:482-530 | a run interrupted anywhere keeps the invariant and the recovery point, never takes DR back and never writes to main's live folder; a refused run changes nothing; a run that ends well leaves the chosen snapshot latest on both sites and in the DR folder, with what users had written at some moment of the run, the base gone and every other snapshot as it was; it ends well if nothing fails |
| `ComponentHealth.PodRunningAndReady` | site-manager/pkg/kubernetes/utils/utils.go:223-237 | true exactly for a running pod whose first Ready condition is True; an error never comes with true |
| `ComponentHealth.GetComponentStatus` | site-manager/pkg/disasterrecovery/airflow/manager.go:56-92 | each of the four scores exactly for its class of observations |
| `ComponentHealth.WaitForScaleUp` | site-manager/pkg/disasterrecovery/airflow/manager.go:432-455 | succeeds iff some poll saw exactly the configured number of ready pods, above zero |
| `ComponentHealth.WaitForScaleDown` | site-manager/pkg/disasterrecovery/airflow/manager.go:408-430 | succeeds iff some poll saw anything else |
| `ComponentHealth.FactorSettles` | site-manager/pkg/disasterrecovery/airflow/manager.go:127-135 | after each factor, a zero product means down, a negative one degraded, and otherwise nothing is settled yet |
| `ComponentHealth.ProductFits` | site-manager/pkg/disasterrecovery/airflow/manager.go:127 | the product of up to four scores stays within 64 bits |
| `ComponentHealth.Wrap64Is` | site-manager/pkg/disasterrecovery/airflow/manager.go:127 | products are taken modulo 2^64 as signed numbers |
| `ComponentHealth.GetAirflowStatus` | site-manager/pkg/disasterrecovery/airflow/manager.go:117-159 | the product loop computes the order-dependent status of the counted components, with flower and statsd only degrading it |
| `ComponentHealth.CoreUpIff` | site-manager/pkg/disasterrecovery/airflow/manager.go:117-142 | in every order, up iff all counted components are up |
| `ComponentHealth.CountedIff` | site-manager/pkg/disasterrecovery/airflow/manager.go:120-127 | a score counts unless it is flower's, statsd's, or a worker's that is not deployed |
| `ComponentHealth.OverallByName` | site-manager/pkg/disasterrecovery/airflow/manager.go:117-159 | the service is up iff every component that counts is, and flower and statsd where deployed; these two only turn up into degraded |
| `ComponentOrder.OrderMattersIff` | site-manager/pkg/disasterrecovery/airflow/manager.go:120-138 | walking the replica map in another order changes the status iff one counted component is down and another degraded |
| `ComponentOrder.CountedPermuted` | site-manager/pkg/disasterrecovery/airflow/manager.go:120-127 | two orders of the map count the same scores |
| `ComponentOrder.Realized` | site-manager/pkg/disasterrecovery/airflow/manager.go:120-127 | whatever order the scores are put in, some order of the map counts them so |
| `ComponentHealth.UnknownScore` | site-manager/pkg/disasterrecovery/airflow/manager.go:56-138 | a score no pods explain keeps the service from being up; it is down unless a degraded component decides |
| `ModeSwitch.NextInv` | site-manager/pkg/disasterrecovery/airflow/manager.go:177-389 | the invariant of all processes of a switch is kept by every step, race or not |
| `ModeSwitch.SoundStep` | site-manager/pkg/disasterrecovery/airflow/manager.go:244-280 | in a sound switch the verdict variable always tells whether an error was received |
| `ModeSwitchHistory.VerdictIsScheduleIndependent` | site-manager/pkg/disasterrecovery/airflow/manager.go:244-280 | the verdict is DONE iff every scaling, waiting and deletion result is nil, whatever the schedule |
| `ModeSwitchHistory.NoDeadlock` | site-manager/pkg/disasterrecovery/airflow/manager.go:189-260 | while the main routine is unfinished some process can step, unless a deployment's error can be wiped out while another worker waits |
| `ModeSwitchHistory.HistoriesAreBounded` | site-manager/pkg/disasterrecovery/airflow/manager.go:189-260 | every step uses up work, so no schedule runs forever |
| `ModeSwitchHistory.EveryScheduleReachesTheVerdict` | site-manager/pkg/disasterrecovery/airflow/manager.go:177-389 | a schedule out of steps has reached the right verdict |
| `ModeSwitchHistory.NoSendOnClosedChannel` | site-manager/pkg/disasterrecovery/airflow/manager.go:210-240 | when a channel closes every sender has been received from; no channel closes twice |
| `ModeSwitchHistory.DeletionsComeLast` | site-manager/pkg/disasterrecovery/airflow/manager.go:234-240 | executor pods are deleted only after every scaling and waiting result was received |
| `ModeSwitchHistory.NoDeletionAfterFailedScale` | site-manager/pkg/disasterrecovery/airflow/manager.go:210-240 | in a sound switch that awaits something, no deletion starts after a failed scaling |
| `ModeSwitchHistory.DoneMeansSeen` | site-manager/pkg/disasterrecovery/airflow/manager.go:340-376 | ACTIVE and DONE: each awaited component was seen with its configured ready pods; STANDBY and DONE: each seen not up and every executor pod deleted |
| `ModeSwitchHistory.DoneIffSeen` | site-manager/pkg/disasterrecovery/airflow/manager.go:244-280 | a sound switch out of steps reports DONE iff every component was scaled, every awaited one was at some poll up (on standby: not up), and on standby the executor pods were listed and all deleted |
| `ModeSwitchRace.ErrorLostIff` | site-manager/pkg/disasterrecovery/airflow/manager.go:190-255 | going on after a received error has the same condition as a wrong DONE |
| `ModeSwitchRace.NeverLostWhenSound` | site-manager/pkg/disasterrecovery/airflow/manager.go:244-260 | otherwise no schedule does |
| `ModeSwitchRace.LoseDeploymentError` | site-manager/pkg/disasterrecovery/airflow/manager.go:200-246 | a schedule in which the first listing of stateful sets wipes a deployment's error and the switch reports DONE |
| `ModeSwitchRace.LoseLastError` | site-manager/pkg/disasterrecovery/airflow/manager.go:224-246 | a schedule in which the second listing wipes the only scaling error and the switch reports DONE |
| `ModeSwitchRace.LoseWaitError` | site-manager/pkg/disasterrecovery/airflow/manager.go:224-255 | a schedule in which the second listing wipes a waiting error and the switch reports DONE |
| `ModeSwitchRace.FalseDone` | site-manager/pkg/disasterrecovery/airflow/manager.go:189-270 | every vulnerable switch has a schedule that reports DONE although a result was an error |
| `ModeSwitchRace.FalseDoneIff` | site-manager/pkg/disasterrecovery/airflow/manager.go:189-270 | with the shared variable some schedule reports DONE although a result was an error iff a deployment fails to scale, or exactly one scaling fails, or all scale and waiting for a deployment fails |
| `ModeSwitchRace.SwitchHangs` | site-manager/pkg/disasterrecovery/airflow/manager.go:189-260 | every switch that can hang has a schedule that reaches a state without a verdict in which no process can step |
| `ModeSwitchRace.HangsIff` | site-manager/pkg/disasterrecovery/airflow/manager.go:189-260 | with the shared variable some schedule never reaches a verdict iff a deployment fails to scale and there is another workload |
| `ModeSwitchRace.DeletionAfterFailedScaleIff` | site-manager/pkg/disasterrecovery/airflow/manager.go:232-240 | exactly when executor pods can be deleted after a failed scaling, with the shared variable and without |
| `Json.SplitJoin` | docker-transfer/generate_json_schema.py:135 | splitting a reference undoes joining its parts |
| `Json.RefPathOf` | docker-transfer/generate_json_schema.py:135-138 | resolving `#/a/b/c` follows the keys a, b, c |
| `Json.JoinSplit` | docker-transfer/generate_json_schema.py:135 | the parts of a reference are what its slashes part |
| `Json.DropsFirstMark` | docker-transfer/generate_json_schema.py:135 | the first `#/` goes, wherever it is, and nothing else |
| `Json.AtPut` | docker-transfer/generate_json_schema.py:204 | what is written at a location is read there; writing back what is there changes nothing |
| `Json.PutElsewhere` | docker-transfer/generate_json_schema.py:204 | a write leaves locations alone that part from it at the first key |
| `SchemaProjection.InsertRestricted` | docker-transfer/generate_json_schema.py:110-159 | inserting one more path into a restriction gives the restriction to one more path |
| `SchemaProjection.ReuseIsRestriction` | docker-transfer/generate_json_schema.py:100-160 | for distinct prefix-free paths that resolve inline, the result is the copied global keys with exactly the restriction of the community schema |
| `SchemaProjection.ReuseIgnoresOrder` | docker-transfer/generate_json_schema.py:109-160 | every permutation of the list gives the same schema |
| `SchemaProjection.InlinedLeaf` | docker-transfer/generate_json_schema.py:134-146 | an inlined leaf keeps all its own keys but the reference, and the definition supplies the rest |
| `SchemaProjection.LeafOkIff` | docker-transfer/generate_json_schema.py:128-143 | a leaf can be kept unless it is a bare reference that does not lead to an object |
| `SchemaReuse.ReusedTop` | docker-transfer/generate_json_schema.py:100-108 | the top level has exactly the global keys, with their values, and the listed first parameters |
| `SchemaReuse.ReusedInterior` | docker-transfer/generate_json_schema.py:146-159 | every interior node on a listed path keeps its keys and values, allows additional properties iff it spoke about them, and has exactly the listed children |
| `SchemaReuse.ReusedLeaf` | docker-transfer/generate_json_schema.py:127-145 | every listed parameter is there unchanged, unless it is a bare reference; then the definition supplies what its own keys do not |
| `SchemaProjection.AddPath` | docker-transfer/generate_json_schema.py:110-159 | the cursor loop over one path computes the recursive insertion, errors included |
| `SchemaProjection.ReuseExistingParams` | docker-transfer/generate_json_schema.py:100-160 | the three nested loops compute it for all paths, errors included |
| `SchemaDefaults.CompareComplexElement` | docker-transfer/generate_json_schema.py:163-211 | the loop over the values with its recursion computes the comparison, on cyclic references too |
| `SchemaDefaults.CompareKey` | docker-transfer/generate_json_schema.py:166-211 | one round of the loop, with every error case |
| `SchemaDefaults.UpdatePath` | docker-transfer/generate_json_schema.py:217-238 | walking schema and values in step finds the element and its value, then sets or compares |
| `SchemaDefaults.UpdateDefaultsForExistingSchema` | docker-transfer/generate_json_schema.py:214-238 | the loop over all listed paths |
| `SchemaDefaults.PickIs` | docker-transfer/generate_json_schema.py:225 | looking a key up in the values gives the value under it, and fails iff no entry has the key |
| `SchemaDefaults.ToJsonIs` | docker-transfer/generate_json_schema.py:204 | a default set to a dictionary has its keys, and the values under them |
| `SchemaDefaults.CompareChangesDefaults` | docker-transfer/generate_json_schema.py:163-211 | whatever the references, nothing but defaults that were there changes |
| `SchemaUpdate.GuardHoldsIff` | docker-transfer/generate_json_schema.py:179-194 | nothing reached through a reference is ever changed iff shared definitions carry defaults on first-level properties only |
| `SchemaUpdate.Dirty` | docker-transfer/generate_json_schema.py:188-194 | for any other definition there are values that rewrite it without an error |
| `SchemaUpdate.RefComputes` | docker-transfer/generate_json_schema.py:167-194 | with first-level defaults only, a comparison through a reference succeeds iff the values agree and never changes anything |
| `SchemaUpdate.BelowComputes` | docker-transfer/generate_json_schema.py:163-211 | the comparison succeeds iff the values fit, and then replaces just the element by the one with its defaults set, in whatever order the values come |
| `SchemaUpdate.RevaluedAgrees` | docker-transfer/generate_json_schema.py:163-211 | every default met below an updated element equals its value |
| `SchemaUpdateAll.PutDiverge` | docker-transfer/generate_json_schema.py:238 | a write does not show at a location that is no prefix or extension of it |
| `SchemaUpdateAll.WalkIs` | docker-transfer/generate_json_schema.py:221-225 | the walk finds the element and the value of the path, or fails when either is missing |
| `SchemaUpdateAll.ValueAtIs` | docker-transfer/generate_json_schema.py:221-225 | the value found is the one under the path's keys, entry by entry |
| `SchemaUpdateAll.ValueStands` | docker-transfer/generate_json_schema.py:221-225 | a value is found only if one is there |
| `SchemaUpdateAll.OnlyDefaultsChange` | docker-transfer/generate_json_schema.py:214-238 | for all schemas, values and paths, nothing but defaults changes |
| `SchemaUpdateAll.UpdateMeetsValues` | docker-transfer/generate_json_schema.py:214-238 | the update succeeds iff the values fit; then each listed element is the updated one, everything else including shared definitions is as before, and every default met at or below a listed path equals its value |
| `SchemaMerge.DeepMerge` | docker-transfer/generate_json_schema.py:284-301 | the loop with its recursion does the merge in any order of the override's keys, and fails where `properties` are no object |
| `SchemaMerge.MergeKeys` | docker-transfer/generate_json_schema.py:284-301 | the merge has the keys of both sides; a one-sided key keeps its value, a common one the override's, and only `properties` on both sides are merged |
| `SchemaMerge.MergedIsMerge` | docker-transfer/generate_json_schema.py:284-301 | on documents whose `properties` all are objects the program never fails and returns the merge the laws are about |
| `SchemaMerge.SelfMergeIff` | docker-transfer/generate_json_schema.py:284-301 | merging a document into itself gives it back iff all its `properties` are objects, and fails otherwise |
| `SchemaMerge.MergeSelf` | docker-transfer/generate_json_schema.py:284-301 | merging a schema into itself changes nothing |
| `SchemaMerge.MergeTwice` | docker-transfer/generate_json_schema.py:284-301 | merging an override again changes nothing |
| `SchemaMerge.AbsorbedIff` | docker-transfer/generate_json_schema.py:284-301 | merging returns the override iff it already says everything the base says |
| `SchemaMerge.AssociativeIff` | docker-transfer/generate_json_schema.py:284-301 | merging is associative iff the third schema revives no properties the second dropped, unless it absorbs them |
| `SchemaKeys.RemoveCommonKey` | docker-transfer/generate_json_schema.py:265-271 | the loop computes the removal in any order of keys |
| `SchemaKeys.RemoveAt` | docker-transfer/generate_json_schema.py:265-271 | no location through the key is left and every other location is as before |
| `SchemaKeys.RemoveIdempotent` | docker-transfer/generate_json_schema.py:265-271 | removing twice is removing once |
| `SchemaKeys.ReplaceCommonKey` | docker-transfer/generate_json_schema.py:274-281 | the loop yields a renaming, whatever the order of keys and whatever the two keys |
| `SchemaKeys.RenamedToItself` | docker-transfer/generate_json_schema.py:274-281 | renaming a key to itself removes it |
| `SchemaRenameOrder.RenamedIff` | docker-transfer/generate_json_schema.py:274-281 | there is one outcome where no old key is below a value moved over another |
| `SchemaRenameOrder.ClashDependsOnOrder` | docker-transfer/generate_json_schema.py:274-281 | otherwise the walks in two orders of the keys yield two outcomes |
| `SchemaRenameOrder.OneOutcomeIff` | docker-transfer/generate_json_schema.py:274-281 | the walks in all orders of the keys yield one outcome iff, where both keys meet, no old key is below the value moved |
| `SchemaRenameOrder.WalksIff` | docker-transfer/generate_json_schema.py:274-281 | the outcomes of renaming are exactly those of walking the keys of each object in some order |
| `SchemaKeys.RenameRemovesKey` | docker-transfer/generate_json_schema.py:274-281 | whatever the order, no object is left with the old key outside the values under the new one |
| `SchemaKeys.RoundTripIff` | docker-transfer/generate_json_schema.py:274-281 | renaming forth and back, in whatever orders, restores the document iff no object the pass reaches had the new key |
| `PrimeSieve.PrimesUpToSpec` | tests_dags_image/dags/cpu_load_dag.py:22-48 | the specified list holds exactly the primes up to n, strictly increasing |
| `PrimeSieve.Sieve` | tests_dags_image/dags/cpu_load_dag.py:22-48 | the sieve returns exactly that list for every positive number and refuses the others |
| `PrimeSieve.MarkFromSquare` | tests_dags_image/dags/cpu_load_dag.py:38 | marking may begin at the square: smaller multiples are marked already |
| `PrimeSieve.SkipComposite` | tests_dags_image/dags/cpu_load_dag.py:34 | a composite start has nothing new to mark |
| `PrimeSieve.StopAtRoot` | tests_dags_image/dags/cpu_load_dag.py:30-48 | what is unmarked beyond the square root is prime |
| `PrimeSieve.MarkMultiples` | tests_dags_image/dags/cpu_load_dag.py:38-40 | the inner loop marks exactly the multiples of start that lack a smaller factor |
| `PrimeSieve.AppendUnmarked` | tests_dags_image/dags/cpu_load_dag.py:44-46 | the last loop appends the primes beyond the root in order |
| `ImageTags.ReleaseIsGreedy` | docker-transfer/sync_util.py:21-23 | the release pattern matches iff it can, with the longest name and then the longest tag |
| `ImageTags.ParseImageIff` | docker-transfer/sync_util.py:72-79 | a string is read as (name, tag) iff its line is `name:tag`: reading undoes printing |
| `ImageTags.LineIs` | docker-transfer/sync_util.py:72 | a line break at the end does not belong to the image |
| `ImageTags.TagCharIs` | docker-transfer/sync_util.py:21 | the characters of a tag, by code |
| `ImageTags.VersionsIff` | docker-transfer/sync_util.py:19-25 | a name has a tag iff some entry names it, and then the tag of the last such entry |
| `ImageTags.ParseReleaseImages` | docker-transfer/sync_util.py:15-25 | the loop computes these versions; all are names and tags of the pattern |
| `TagUpdate.ApplyRules` | docker-transfer/sync_util.py:30-63 | the three rules one after the other leave the tag of the last one that applies |
| `TagUpdate.UpdateFields` | docker-transfer/sync_util.py:65-66 | the loop over the fields updates each, in any order |
| `TagUpdate.UpdateNode` | docker-transfer/sync_util.py:28-82 | the recursion over dictionaries, lists and strings |
| `TagUpdateLaws.UpdateOkIff` | docker-transfer/sync_util.py:30-63 | the update fails exactly on trees with a name that cannot be looked up |
| `TagUpdateLaws.RegistryRule` | docker-transfer/sync_util.py:30-39 | without a repository a listed registry gives the tag |
| `TagUpdateLaws.RepositoryRule` | docker-transfer/sync_util.py:54-63 | a listed repository gives the tag, whatever the registry |
| `TagUpdateLaws.FullImageRule` | docker-transfer/sync_util.py:41-52 | otherwise registry and repository joined by one slash do, however many slashes there are at the joint; if that is not listed, the tag is only walked into |
| `TagUpdateLaws.NoImageRule` | docker-transfer/sync_util.py:30-66 | without a repository and a listed registry the tag is only walked into |
| `TagUpdateLaws.TrimRightIs` | docker-transfer/sync_util.py:43 | slashes at the end are cut off, all of them and nothing else |
| `TagUpdateLaws.TrimLeftIs` | docker-transfer/sync_util.py:43 | so are slashes at the beginning |
| `TagUpdateLaws.UpdatedText` | docker-transfer/sync_util.py:71-80 | a known image keeps its name and gets the released tag; every other string stays; once is enough |
| `TagUpdateLaws.UpdateRetags` | docker-transfer/sync_util.py:28-82 | keys, list lengths and all other leaves are kept; only known image strings and tag fields of known images change |
| `TagUpdateLaws.RepeatIff` | docker-transfer/sync_util.py:28-82 | a second run changes nothing iff the release file lists no other tag for any dictionary's rewritten repository, full image or registry |
| `TagUpdateLaws.StandingRepeats` | docker-transfer/sync_util.py:28-82 | in particular where no registry or repository field is itself rewritten |
| `TagUpdateLaws.SecondRunDiffers` | docker-transfer/sync_util.py:54-66 | a family of trees on which two runs leave two different tags |
| `TagUpdateLaws.SuchVersions` | docker-transfer/sync_util.py:15-25 | the release file `a:2`, `a:1:7`, `a:2:9` parses to versions of that family |
| `PgConnection.TakeIff` | integration-tests/tests/robot/tests/shared/lib/airflowLibrary.py:122-124 | a group whose class excludes its delimiter can be taken off in one way only |
| `PgConnection.ReadIff` | integration-tests/tests/robot/tests/shared/lib/airflowLibrary.py:120-136 | the pattern matches exactly the URLs put together from readable fields, in one way only |
| `PgConnection.BuildIsUrl` | docker/dbaasintegrationpackage/qsdbaasintegration/dbaas_secrets_backend.py:389-424 | the backend builds a URL of that shape for every TLS setting |
| `PgConnection.BuiltReadsBackIff` | docker/dbaasintegrationpackage/qsdbaasintegration/dbaas_secrets_backend.py:389-424 | host, user, password, port and database come back unchanged iff each is non-empty and free of the delimiters that end it |
| `PgConnection.ReadsBack` | docker/dbaasintegrationpackage/qsdbaasintegration/dbaas_secrets_backend.py:389-424 | user, password, host, port and the database, under `dbName`, `name` or neither, come back, and each TLS setting gives its mode |
| `PgConnection.ReadableIff` | integration-tests/tests/robot/tests/shared/lib/airflowLibrary.py:122-124 | what each group of the pattern may hold, field by field |

## Left out

- DR protocol: nobody but the run writes to the DR site or creates snapshots (docs/public/dr-sync-dag.md:15), one run is
  active at a time (`max_active_runs=1`), tasks are not retried within a run, an abandoned distcp has stopped before the
  next run, and the folders are on different clusters. Several folders are independent copies of the model.
- DR protocol: content summaries (lines 405-417) only log. The Hive, PostgreSQL, Kerberos and Ambari tasks are not modelled.
- `DrSync.HadoopDistCp`: is the contract distcp documents when it reports success, not a model of distcp.
- Numbers are unbounded and digits ASCII. The square root of the sieve is exact, without the rounding of `math.sqrt`.
- `ChangeMode` when a list call fails: no channel is closed then, which is outside the assumptions of the theorems.
- `ChangeMode`: the test of `err` right after a list call and the call are one step, and the data race on `err` is modelled
  as a sequentially consistent interleaving. What the polls and calls answer is fixed before the switch starts.
- `ComponentHealth.GetAirflowStatus`: says nothing about more than four counted components; the configured map has four.
- `ScaleDeployment` and `ScaleStatefulSet`: only their single send is modelled, as one result per worker.
- Schema and values trees are values rather than dictionaries changed in place, so aliasing between two documents is not
  visible; inside one document a location stands for the aliased element, as the cursor of the source does.
- Schema elements that are not objects (boolean schemas) always raise `WrongType` in the model; Python raises for most.
- `SchemaUpdateAll.UpdateMeetsValues`: assumes distinct, prefix-free paths and references into `definitions`, as in the
  schema and the list the generator works on.
- `validate_defaults` and `validate_properties_in_defaults`: recursive checks without state; they would add easy members.
- `ImageTags.ParseReleaseImages`: entries of the release file are strings, and `\w` is ASCII.
- `PgConnection`: the caller's handling of a string that does not match, and the choice among secret sources.
- Loading and writing YAML and JSON, logging, jsonschema validation, the rest of the secrets backend, Keycloak, Helm
  templates, Dockerfiles and the other test DAGs.
