# Transactional package installation: a model and its proofs

This project models the install engine of a package installer and the file system transactions its steps perform,
and proves what an interrupted, failing or successful request leaves on the disk. `dafny verify dfyconfig.toml`
checks all of it.

The disk is a tree of directories and files (`FileTree`). `FileSystem` is an object whose methods are the calls the
installer makes. Every call may fail when `faulty` is set, a copy or a write may stop half way, and every change is
appended to `log`, so a crash is any entry of the log. On top of it:

| module | what it models |
|---|---|
| `FileTree`, `FileEdits`, `FileSystem`, `PackageTrees` | trees and paths; rename, copy, remove and mkdir with faults; `CopyDir`, `MoveDir`, `MoveFile`; the installer's context |
| `CopyBackup`, `StorageDirectories`, `Repair`, `UpdateRun` | the steps that swap the package tree, and a whole update with its recovery record |
| `Recovery`, `RecoveryFile`, `RecoveryRun` | crash repair, the record's text, a recovery request |
| `AppInstaller`, `PkgmgrSignal` | the step loop with its undo and clean loops, and the signals the client sees |
| `RdsJournal`, `RdsModify`, `RdsParser` | journalled file edits, their undo, the delta's text |
| `DirectoryClimbing`, `DeltaPatch` | delta updates and the test on the paths they list |
| `Icons`, `Manifest`, `ManifestSaga` | the icon and manifest steps with their undo and recovery, and a run of steps behind the latter |
| `PluginXmlParser`, `PluginManager`, `OrderedStrings` | the streaming walk over a manifest and the choice of plugins |
| `BackgroundCategory`, `LegacyDirectories`, `Sizes` | category normalisation, directories shared by users, block and megabyte arithmetic |

How to read the contracts:

- `fs.faulty` false means that every call succeeds that can succeed. Where a method sets it to false half way, the
  faults end there. An update's run, its undo and one recovery are described with faults anywhere; what finally comes
  back is said of recoveries without.
- A ghost out-parameter or argument (`t0`, `k0`, `left`, `arrived`) names a state the claim is about.
- A new process that recovers reads the record, then a manifest (`StepParseManifest`), which sets the package path and
  writes the record anew, then repairs; a backend puts these steps in this order. What a manifest's text says is the
  function `named`, and `Steady` says that the manifests found name the recorded package; `NamedByOld` is enough for it.
- `Run`'s step order is the one the steps need: record, `StepCopyBackup`, `StepCopyStorageDirectories`, other steps;
  recovery of the storage directories before recovery of the package.

What the proofs show the code does not do, each as a lemma or as the exact condition of an if-and-only-if:

- A failed run without faults comes back to the old package with delivered storage directories merged and with
  storage directories only the new version has (`Fail`); `ComesBackIff` says exactly when that is the old package.
- A recovery or an undo in which a rename fails has to copy a storage directory; stopped meanwhile, or when a call
  fails, it loses what was not copied. `RecoverAfterFaults` says exactly which disks come back, `LoseStorage` shows one
  that does not.
- An undo that fails drops the record all the same (src/common/recovery_file.cc:99-105). Where the backup had not
  become the package by then, the package lies in its backup and nobody is going to repair it: these disks are
  `Orphaned`, and `Stuck` tells them from the others at the end of a run with an undo error.
- A recovery reports success also when the backup could not be moved, since that result is not looked at
  (src/common/step/filesystem/step_recover_files.cc:49), and the record is dropped (`Replaced`).
- Recovery does what the record says. A torn record names no package or one whose id is a beginning of the true id; a
  record whose unpacked directory does not fit the buffer names the right package only if what is cut off of that
  directory happens to be its id (`PackageReadsBack`). Otherwise the interrupted update is left as it is
  (`CrashAndRecover`).
- A recovery that finds a manifest writes the record anew, in place, before it repairs anything. Stopped meanwhile it
  leaves a torn record, and no later process recovers the package (`LoseRecord`, `RecoverAnew`).
- A backup that stops half way cannot be undone: what had not been moved yet is removed (`BackupAndUndo`).
- A torn copy of the manifest is taken for its backup, a truncated copy of an icon keeps all later ones from being
  brought back (`StopAndRecover`, `ReplaceIcons` with their exact conditions).
- `MoveFile` succeeds also when the source could not be removed (src/common/utils/file_util.cc:224-231); the file left
  in the package then wins over the new version's file of that name. This is the `left` of the update's contracts.
- Undoing an RDS request removes a file listed under `#add` that was there before (`AddedOverIsLost`), and leaves one
  that was added and then changed (`LeaveAdded`), which undoing backwards would not (`OrderMattersIff`). A run without
  faults is all or nothing exactly when there is no file of the first kind and no change of the second before one that
  cannot be made (`ProcessOrUndo`).
- A USER update of a package that lacks data/ or shared/ fails, since both moves must succeed
  (src/common/step/filesystem/step_copy_storage_directories.cc:57-69), and undo reports an error although it has put
  everything right.
- A comment, processing instruction or document type before the root element keeps every tag plugin from being loaded
  (`TagPluginLoadedIff`).
- A user record that cannot be read counts as "not installed", so another user's legacy directory can be removed;
  `SparesOthersIff` and `Run` say exactly when.
- A delta that replaces a directory with subdirectories by a file fails, since removing the files leaves the empty
  directories (`CanPatchDelta`).
- A delta for a package without bin/ fails, since the iterator over that directory throws
  (src/common/step/filesystem/step_delta_patch.cc:55).
- The comment at src/common/external_storage.cc:131 says that for a "wgt" the whole content is measured; the code
  measures single directories for "wgt" and the whole for everything else. The model follows the code.

## Model

| member | source | states |
|---|---|---|
| FileTree.MergeFileAt | src/common/utils/file_util.cc:148-173 | the merge of two trees, at every path: the target decides what it claims, the source everything else |
| FileTree.MergeIsSource | src/common/utils/file_util.cc:148-173 | merging leaves the source itself if and only if the source contains the target |
| FileSystem.FileSystem.Rename | src/common/utils/file_util.cc:188-200 | rename onto a missing path or an empty directory of the right kind, all or nothing |
| FileSystem.FileSystem.CopyFile | src/common/utils/file_util.cc:177-186 | copy_file; a failing one may leave a partial target and nothing else |
| FileSystem.FileSystem.WriteFile | src/common/recovery_file.cc:175-208 | the disk shows nothing but beginnings of the text on the way; without faults the whole text at the end |
| FileSystem.FileSystem.CreateDirectories | src/common/utils/file_util.cc:94-107 | exactly the missing directories on the way, one by one from the top; fails if and only if a file is in the way |
| FileSystem.FileSystem.CreateDir | src/common/utils/file_util.cc:94-107 | anything that exists at the path will do, and is left alone |
| FileSystem.FileSystem.CopyDir | src/common/utils/file_util.cc:122-175 | source unchanged; success gives an exact copy at a missing target, the left-biased merge with the merge flag; without faults it succeeds if and only if the kinds agree |
| FileSystem.FileSystem.CopyEntries | src/common/utils/file_util.cc:148-174 | the loop: every entry done is overlaid, every other entry is as before, and a clash of kinds stops it |
| FileSystem.FileSystem.MoveDir | src/common/utils/file_util.cc:188-209 | rename and the copying fallback end in the same tree; at every moment the source is whole or the target complete |
| FileSystem.MovedIsSource | src/common/utils/file_util.cc:188-209 | so what MoveDir leaves is what was moved if and only if that is a file or contains what was there |
| FileSystem.FileSystem.MoveFile | src/common/utils/file_util.cc:211-232 | refuses an existing target; rename or copy and remove; true also when the source could not be removed |
| PackageTrees.BackupPathIsApart | src/common/paths.cc:19-24 | a package and its backup lie side by side, neither inside the other |
| CopyBackup.StepCopyBackup.Precheck | src/common/step/backup/step_copy_backup.cc:28-45 | the two error cases, and the paths it sets otherwise |
| CopyBackup.StepCopyBackup.Process | src/common/step/backup/step_copy_backup.cc:47-55 | from log position `saved` on, every disk has the complete old package in the backup; success leaves the new content merged over files that could not be removed, and only those, and nothing where it was unpacked; without faults it succeeds if and only if the unpacked directory is there |
| CopyBackup.StepCopyBackup.Backup | src/common/step/backup/step_copy_backup.cc:90-132 | true: the backup is the old package and the package is empty but for leftover files; false: a fault, and either nothing happened or every entry is whole in the package or in the backup |
| CopyBackup.StepCopyBackup.BackupAndUndo | src/common/step/backup/step_copy_backup.cc:70-132 | a backup that stops half way and is undone: the old package comes back if and only if the backup was whole or never begun; otherwise what had not been moved is lost |
| CopyBackup.StepCopyBackup.BackupEntry | src/common/step/backup/step_copy_backup.cc:96-128 | one entry moves over whole; a failure leaves it, and every other entry, whole in one of the two places |
| CopyBackup.StepCopyBackup.NewContent | src/common/step/backup/step_copy_backup.cc:164-182 | the unpacked tree merged over what is left of the package, and gone from where it was; a failure leaves it there; the backup stays as it is; without faults it succeeds if and only if the merge is possible |
| CopyBackup.StepCopyBackup.Undo | src/common/step/backup/step_copy_backup.cc:70-88 | brings the backup back if there is one; every disk on the way has the backup whole or the package restored; without faults the unpacked tree is gone |
| CopyBackup.StepCopyBackup.RollbackApplicationDirectory | src/common/step/backup/step_copy_backup.cc:194-208 | the package becomes what the backup was, whatever it held; fails only by a fault, and then the backup is still whole |
| CopyBackup.StepCopyBackup.Clean | src/common/step/backup/step_copy_backup.cc:57-68 | removes the backup and never touches the package |
| StorageDirectories.MoveEntry | src/common/step/filesystem/step_copy_storage_directories.cc:29-39 | one storage directory moves or merges completely, or its source stays whole; no other entry changes |
| StorageDirectories.StepCopyStorageDirectories.Precheck | src/common/step/filesystem/step_copy_storage_directories.cc:41-52 | the backup's path, and the error exactly when there is no backup |
| StorageDirectories.StepCopyStorageDirectories.Process | src/common/step/filesystem/step_copy_storage_directories.cc:54-75 | on every disk each storage directory is in the backup or complete in the package; success in USER mode means both are merged new over old and cache/ exists; without faults where each of them is in the end is known from the two trees, and shared/ stays where data/ cannot be moved; GLOBAL does nothing |
| StorageDirectories.StepCopyStorageDirectories.Undo | src/common/step/filesystem/step_copy_storage_directories.cc:77-94 | with any faults, every disk on the way differs only in storage directories that only the package had, each whole in the package or whole in the backup; without faults, or with status OK, all are in the backup |
| StorageDirectories.StepCopyStorageDirectories.CacheDir | src/common/step/filesystem/step_copy_storage_directories.cc:96-105 | success means cache/ exists, an existing one is kept; nothing else changes |
| Repair.WholeIff | src/common/step/filesystem/step_recover_storage_directories.cc:23-32 | while storage directories go back, the package that comes back stays the same if and only if none of them is half in the backup |
| Repair.HomeIff | src/common/step/backup/step_copy_backup.cc:194-208 | the backup alone is the package that should come back if and only if every storage directory only the package had is whole in it |
| Repair.GivingBackIff | src/common/step/filesystem/step_recover_storage_directories.cc:34-44 | a disk on the way comes back to the same package if and only if each such directory is whole in the backup, or has not reached it and is whole in the package |
| Repair.SwappingIff | src/common/step/backup/step_copy_backup.cc:194-208 | the same for a disk while the backup replaces the package, from the disk where giving back ended |
| UpdateRun.UpdateRun.Run | src/common/app_installer.cc:39-141 | crash atomicity: once the backup is complete, every disk of the run has the record as written and recovers to an acceptable old package, or shows the final package, with no backup if the record is still there. Only where calls fail in the undo is a disk excepted: one that lost a storage directory, or one whose record is gone before the backup is back. Success: every entry of the package outside `touched` is the new content, merged with the user's storage directories in USER mode, and nothing is left where it was unpacked; failure: the old package, and without faults nothing left there either. An undo error leaves the package, or a backup a repair would make one of. Without faults the run succeeds if and only if the record can be created, the unpacked directory is there, the storage directories can be delivered and the later steps succeed |
| UpdateRun.UpdateRun.CrashAndRecover | src/common/step/recovery/step_open_recovery_file.cc:14-36 | the machine stops behind any entry of the log, and new processes that know nothing but the record recover, themselves stopped any number of times: the backup is used if and only if the record reads as an update of this package and no process was stopped at one it had torn; then the package is the final one or an acceptable old one, the old one itself where nothing is merged; otherwise package and backup stay as they were. A record that fits reads so, or leads nowhere else; the old version's manifest keeps recovery at this package |
| UpdateRun.UpdateRun.Continue | src/common/app_installer.cc:49-117 | the same from the second step on; a failed run without faults comes back to exactly ComesBack, one that reports only FAILED to exactly what the disk at the start of undoing gives; without faults it succeeds if and only if the storage directories can be delivered and the later steps succeed |
| UpdateRun.UpdateRun.UndoBoth | src/common/app_installer.cc:88-102 | both undos in reverse order, with any faults: a disk on the way is past recovery only if it has lost a storage directory or the record went before the backup was back; without faults, or when both succeed, the old package up to its storage directories and no backup; after an error, unless a storage directory was lost, a repair of the last disk gives an acceptable package |
| UpdateRun.UpdateRun.CleanUp | src/common/step/configuration/step_configure.cc:172-177 | the package never changes while cleaning; a disk that still has the record has the complete backup, or none |
| UpdateRun.UpdateRun.WriteRecord | src/common/step/configuration/step_configure.cc:118-135 | three writes, of which only the first is looked at: a record at its path only, which even torn says update or nothing, and names no package but this one or a beginning of its id if it fits; without faults the whole text; it is created if and only if nothing is there and its directory is |
| UpdateRun.UpdateRun.FailLater | src/common/step/backup/step_copy_backup.cc:194-208 | any failure behind a successful StepCopyStorageDirectories in USER mode, whatever later steps did to the rest of the package: the result is exactly the old package with data/ and shared/ merged, new over old |
| UpdateRun.UpdateRun.Fail | src/common/step/filesystem/step_copy_storage_directories.cc:54-94 | a run without faults that fails in the second step or behind it, in either mode: exactly the old package, where a storage directory that was delivered stays merged and one only the new version has slips in |
| UpdateRun.ComesBackIff | src/common/step/filesystem/step_copy_storage_directories.cc:54-94 | that is the old package if and only if the old storage directories contain what is delivered into them and the new version has none that the old one lacks |
| UpdateRun.UpdateRun.UndoFirst | src/common/step/backup/step_copy_backup.cc:70-88 | a run that fails in the first step, with any faults: every disk on the way recovers to an acceptable package, or its record is gone before the backup is back; a repair of the last disk gives an acceptable package however it ends; FAILED means the backup is the package again |
| UpdateRun.MergedIsOld | src/common/step/filesystem/step_copy_storage_directories.cc:77-94 | that is the old package itself if and only if each old storage directory contains the new one |
| UpdateRun.OldPackageExactly | src/common/step/filesystem/step_copy_storage_directories.cc:54-94 | the old package is the only acceptable one if and only if the old storage directories contain the new ones |
| UpdateRun.UpdateRun.GiveUp | src/common/app_installer.cc:88-102 | the undoing of a run that fails in the second step or behind it: the disks it leaves, and that after an error the package can be repaired unless a storage directory was lost |
| UpdateRun.UpdateRun.RecoverableIsSteady | src/common/step/configuration/step_parse_manifest.cc:88-106 | on a disk that recovers to an acceptable package the manifest found first is the old version's |
| UpdateRun.UserFileSurvives | src/common/step/filesystem/step_copy_storage_directories.cc:54-75 | an old file under data/ or shared/ that the new version does not claim is in the updated package with its content, and nothing else comes from the old one |
| Recovery.StepRecoverStorageDirectories.RecoveryUpdate | src/common/step/filesystem/step_recover_storage_directories.cc:34-44 | with any faults: a disk on the way recovers to the same package if and only if it has lost nothing; without faults none has, and the backup has every storage directory; nothing happens without a package path |
| Recovery.StepRecoverStorageDirectories.MoveAppStorage | src/common/step/filesystem/step_recover_storage_directories.cc:23-32 | with any faults: one storage directory that only the package has goes back whole or stays whole; no other entry changes |
| Recovery.StepRecoverFiles.RecoveryUpdate | src/common/step/filesystem/step_recover_files.cc:33-52 | with any faults: on every disk the backup is untouched, or is the package; the error exactly where the removal fails; the result of the move is not looked at |
| Recovery.StepRecoverFiles.RecoveryNew | src/common/step/filesystem/step_recover_files.cc:20-31 | the package of an unfinished installation is gone, nothing else is touched |
| Recovery.StepRecoverFiles.SetPackagePath | src/common/step/filesystem/step_recover_files.cc:54-60 | fails without a package id, else sets the path under the application root |
| Recovery.Recover | src/common/step/filesystem/step_recover_files.cc:33-52 | one recovery run, with any faults: a disk on the way recovers to the same package if and only if every storage directory is whole where it is looked for, and no other entry is lost; without faults it gives the package RestoredAt describes and no backup; OK with faults means the backup became the package or is still there for another repair, exactly as complete as that condition says |
| Recovery.RecoverInterrupted | src/common/step/filesystem/step_recover_files.cc:33-52 | any number of recovery runs stopped anywhere and one that finishes give what a single undisturbed run gives |
| Recovery.RecoverAfterFaults | src/common/step/filesystem/step_recover_files.cc:33-52 | a recovery with faults, stopped anywhere, and others without: the package comes back if and only if the disk it stopped at has every storage directory whole where it is looked for |
| Recovery.LoseStorage | src/common/step/filesystem/step_recover_storage_directories.cc:23-32 | a disk that fails this, from a run: the rename fails and the machine stops behind the first call of the copying; an empty directory comes back |
| RecoveryRun.StepOpenRecoveryFile.Process | src/common/step/recovery/step_open_recovery_file.cc:14-36 | takes kind, package id and unpacked directory from the record; fails without one, ends the process for another kind where assertions are compiled in, and changes nothing on disk |
| RecoveryRun.StepOpenRecoveryFile.Undo | src/common/step/recovery/step_open_recovery_file.cc:38-44 | detaches the record, so that it outlives the failed run |
| RecoveryRun.StepParseManifest.LocateConfigFile | src/common/step/configuration/step_parse_manifest.cc:86-107 | the manifest in the backup, else in the package, else the installed one; sets the package path |
| RecoveryRun.StepParseManifest.Process | src/common/step/configuration/step_parse_manifest.cc:790-862 | settles on the package the manifest names, or the recorded one without a manifest; writes that id to the record and ignores how that ends: only beginnings of the record's text reach the disk, the empty one first; fails, with nothing changed, if and only if the manifest cannot be used |
| RecoveryRun.RecoveryRequest | src/common/step/recovery/step_recovery.cc:14-24 | a new process, with any faults: nothing but the package it settles on, its backup and the record changes; the record is gone only if the whole recovery succeeded, and on every other disk it is as it was or a beginning of the text that is written anew; without faults, if it fits, it reads the same on every disk but those of that writing, where package and backup are untouched; success with faults leaves the package back or the backup still there; it does nothing if the manifest stops it |
| RecoveryRun.RunSteps | src/common/step/configuration/step_parse_manifest.cc:842-846 | the manifest step and the recovery steps behind it, with any faults: the same for every disk of theirs |
| RecoveryRun.SteadyStays | src/common/step/configuration/step_parse_manifest.cc:88-106 | on no disk of a repair does a manifest turn up that names another package |
| RecoveryRun.Dispatch | src/common/step/recovery/step_recovery.cc:14-24 | dispatch by recorded kind: an error for all but installation and update, with nothing changed |
| RecoveryRun.RecoverAnew | src/common/step/configuration/step_parse_manifest.cc:842-846 | any number of new processes stopped anywhere and one that is not: the recorded package comes back if and only if none of them was stopped at a record it had torn; otherwise it stays with its backup as it was then, whatever later processes do |
| RecoveryRun.RunAndStop | src/common/step/configuration/step_parse_manifest.cc:842-846 | one new process stopped anywhere: the package that comes back stays the same; the record is as it was or torn, and then, if it fitted, nothing else has changed |
| RecoveryRun.LeaveAlone | src/common/step/recovery/step_open_recovery_file.cc:14-36 | any number of new processes on a disk whose record leads elsewhere leave this package and its backup alone |
| RecoveryRun.LoseRecord | src/common/step/configuration/step_parse_manifest.cc:842-846 | such a disk, from a run: the machine stops behind the first change of a recovery that found a manifest; the record is empty, and no later process looks for the package |
| RecoveryFile.RoundTrip | src/common/recovery_file.cc:140-208 | writing and reading gives the record back if and only if its strings fit the lines and the buffer; a kind without a string of its own reads as Unknown |
| RecoveryFile.ReadsLines | src/common/recovery_file.cc:25-38 | a file of three lines gives the kind that its first line spells, the unpacked directory and the package id |
| RecoveryFile.TornWrite | src/common/recovery_file.cc:140-208 | any beginning of a written record reads as the true kind or Unknown |
| RecoveryFile.TornPackage | src/common/recovery_file.cc:140-208 | and, if its lines fit the buffer, names a beginning of the true package id |
| RecoveryFile.PackageReadsBack | src/common/recovery_file.cc:140-208 | for plain strings of any length the package id reads back if and only if both lines fit, or what is cut off of the unpacked directory is the id |
| RecoveryFile.PrefixOfKind | src/common/recovery_file.cc:25-38 | no kind's string begins another's |
| RecoveryFile.RecoveryFile.constructor | src/common/recovery_file.cc:80-97 | creating makes an empty file, opening reads an existing one and changes nothing; a failure leaves no path |
| RecoveryFile.RecoveryFile.CreateRecoveryFileForPath | src/common/recovery_file.cc:52-64 | refuses a path where anything is, and then changes nothing; otherwise an empty record |
| RecoveryFile.RecoveryFile.OpenRecoveryFileForPath | src/common/recovery_file.cc:66-78 | the fields are what the text says; nothing for a missing file |
| RecoveryFile.RecoveryFile.ReadFileContent | src/common/recovery_file.cc:140-173 | the fields read are those of Parsed; false only when the file cannot be opened |
| RecoveryFile.RecoveryFile.WriteAndCommitFileContent | src/common/recovery_file.cc:175-208 | only beginnings of the text reach the disk, the empty one first; without faults what is on disk is the text, and parses to the record if it fits |
| RecoveryFile.RecoveryFile.Detach | src/common/recovery_file.cc:107-109 | the path is forgotten |
| RecoveryFile.RecoveryFile.Destroy | src/common/recovery_file.cc:99-105 | removes the file unless it was detached, and nothing else |
| AppInstaller.AppInstaller.Run | src/common/app_installer.cc:39-141 | calls, result and final world: forward calls up to the first failure, then one undo each in reverse and no clean, ERROR if and only if every undo succeeded; or cleans in order; the client sees the protocol, and if no signal is lost exactly the error codes that the steps report once the package id is known, in order, or else the failing step's status, the percentage of every step that succeeds from then on, and END with the outcome |
| AppInstaller.AppInstaller.UndoAll | src/common/app_installer.cc:88-102 | undoes k, k-1, ..., 0 once each, whatever fails or throws; what they report reaches the client in that order |
| AppInstaller.AppInstaller.CleanAll | src/common/app_installer.cc:104-117 | cleans in order up to and including the first failure; what is reported reaches the client |
| AppInstaller.AppInstaller.EnterStep | src/common/app_installer.cc:49-71 | process only after a good precheck, on what that left; an exception counts as ERROR; what both report reaches the client in order, once it was told START |
| AppInstaller.AppInstaller.Report | src/common/app_installer.cc:144-149 | without loss the client is told exactly the codes reported, in order, if it was told START, and else nothing |
| AppInstaller.AppInstaller.TellEnd | src/common/app_installer.cc:121-129 | START if it was never sent, the status as an error if none was sent, then END with the outcome, and nothing else |
| AppInstaller.SagaRestores | src/common/app_installer.cc:88-102 | if every step compensates on the worlds of this run, undoing from step k gives a world like the one before step 0 |
| AppInstaller.FailedRunRestores | src/common/step/step.h:10-14 | the same for a whole failing run |
| AppInstaller.CompensatesInEveryRun | src/common/step/step.h:10-14 | a step that compensates everywhere does in every run |
| ManifestSaga.BackupCompensates | src/common/step/backup/step_backup_manifest.cc:34-76 | the manifest backup compensates on every tree, up to what is reverted to |
| ManifestSaga.FailedRunKeepsManifest | src/common/step/backup/step_backup_manifest.cc:34-76 | a run that fails at any step, whose first backs the manifest up and whose others leave the backup alone, gives back exactly the tree it began with |
| AppInstaller.PercentBounds | src/common/app_installer.cc:73-85 | progress never decreases, never passes 100, and is 100 at the last step |
| AppInstaller.Percent | src/common/app_installer.cc:82-85 | the percentage of the steps made, rounded down |
| PkgmgrSignal.PkgmgrSignal.SendStarted | src/common/pkgmgr_signal.cc:50-72 | only once, and when it succeeds the client has START and, for an uninstallation, one signal for each application in order; a lost signal never breaks the protocol |
| PkgmgrSignal.PkgmgrSignal.SendAppids | src/common/pkgmgr_signal.cc:157-169 | what arrives is the applications in order, up to the first lost one |
| PkgmgrSignal.PkgmgrSignal.SendProgress | src/common/pkgmgr_signal.cc:74-82 | only when started |
| PkgmgrSignal.PkgmgrSignal.SendError | src/common/pkgmgr_signal.cc:104-123 | refused before START and after END; remembered as sent even if lost |
| PkgmgrSignal.PkgmgrSignal.SendFinished | src/common/pkgmgr_signal.cc:84-102 | END once, with an error before it if the run failed without one: that error has the code of the status |
| RdsModify.StepRdsModify.ProcessOrUndo | src/common/step/rds/step_rds_modify.cc:45-67 | for lists of files where none to be added is there yet, any fault anywhere: success is the old package with the lists applied; otherwise undo gives every file its old content and removes the added ones and the temporary backup, if and only if no added file has been changed; an added file is gone if and only if no later entry changes it. Without faults it succeeds if and only if nothing to be added is there and every change can be made, and is all or nothing if and only if nothing to be added is there and no added file is changed before a change that cannot be made |
| RdsModify.StepRdsModify.AddFiles | src/common/step/rds/step_rds_modify.cc:75-105 | without faults the loop stops exactly at the first file that is there already, with the files before it added and that one journalled |
| RdsModify.StepRdsModify.OldFileIsLost | src/common/step/rds/step_rds_modify.cc:192-201 | the undo after such a stop deletes the file that was there |
| RdsJournal.AddsAreRemoved | src/common/step/rds/step_rds_modify.cc:192-201 | undoing additions removes every file they name, whoever put it there |
| RdsModify.StepRdsModify.Process | src/common/step/rds/step_rds_modify.cc:45-62 | the journal's promise holds however it ends; OK means every listed edit is made; without faults the journal ends exactly at the first change that cannot be made |
| RdsModify.StepRdsModify.Edit | src/common/step/rds/step_rds_modify.cc:55-60 | add, then modify, then delete, each only after success of the one before |
| RdsModify.StepRdsModify.AddFile | src/common/step/rds/step_rds_modify.cc:78-103 | one round of AddFiles keeps the journal's promise; a directory that is there is left alone, a file that is there stops it |
| RdsModify.StepRdsModify.ModifyFile | src/common/step/rds/step_rds_modify.cc:110-123 | one round of ModifyFiles keeps the journal's promise; without faults it succeeds if and only if the file is there, was not changed before, and the delta has its new content; never for a directory |
| RdsModify.StepRdsModify.DeleteFile | src/common/step/rds/step_rds_modify.cc:130-140 | one round of DeleteFiles keeps the journal's promise; without faults it succeeds if and only if the file is there and was not changed before, or the directory is empty, and then exactly that goes |
| RdsModify.StepRdsModify.DeleteDirectoryAndUndo | src/common/step/rds/step_rds_modify.cc:204-210 | an empty directory that was deleted is there again after the undo, and nothing else has changed |
| RdsJournal.DirectoryEntries | src/common/step/rds/step_rds_modify.cc:192-213 | undoing entries of directories: a deleted one is made again, an added one goes with all in it, a modified one cannot be restored |
| RdsModify.StepRdsModify.PerformBackup | src/common/step/rds/step_rds_modify.cc:157-187 | an edit is journalled only when the content it replaces is safe in the backup; the package is not touched; without faults a file is journalled if and only if it is there and was not before |
| RdsModify.StepRdsModify.RestoreFiles | src/common/step/rds/step_rds_modify.cc:189-216 | without faults it plays the journal forwards as Restore says, then drops the backup; false where the original throws; with faults, for files, some first entries are played back exactly and at most the next file is torn |
| RdsModify.StepRdsModify.SetUpTempBackupDir | src/common/step/rds/step_rds_modify.cc:144-155 | a new directory and nothing else |
| RdsJournal.RestoreAll | src/common/step/rds/step_rds_modify.cc:189-216 | from wherever the editing stopped, the journal played forwards succeeds; it brings every file back if and only if no added file has been changed |
| RdsJournal.RestoreLast | src/common/step/rds/step_rds_modify.cc:189-216 | for any journal of files whose changed ones have a copy: playing it forwards succeeds, and at each file the last entry that names it decides |
| RdsJournal.AddedIsGoneIff | src/common/step/rds/step_rds_modify.cc:192-213 | an added file is gone after that if and only if no later entry changes it; otherwise it stays with the backup's content |
| RdsJournal.BackwardsRestores | src/common/step/rds/step_rds_modify.cc:189-216 | played backwards the journal always brings every file back |
| RdsJournal.OrderMattersIff | src/common/step/rds/step_rds_modify.cc:189-216 | so the two orders differ if and only if an added file has been changed |
| RdsModify.StepRdsModify.LeaveAdded | src/common/step/rds/step_rds_modify.cc:64-67 | a failing run: an added file is changed, a later change cannot be made, and the undone request leaves the file |
| RdsJournal.AddedOverIsLost | src/common/step/rds/step_rds_modify.cc:192-198 | a file listed under add that was there before is removed by the undo |
| RdsParser.RDSParser.Parse | src/common/rds_parser.cc:20-45 | the lines of each section are appended to its list; false if and only if the file cannot be opened |
| RdsParser.RoundTrip | src/common/rds_parser.cc:20-45 | parsing gives back what was printed if and only if no entry contains a newline or is a marker |
| RdsParser.LinesAreConserved | src/common/rds_parser.cc:27-42 | the lists together hold exactly as many entries as there are lines after the first marker that are not markers |
| RdsParser.ReadEntries | src/common/rds_parser.cc:40-41 | printed entries are read in order into the open section and what follows is read as before |
| DirectoryClimbing.StaysBelow | src/common/utils/file_util.cc:473-480 | a path in which no ".." stands between separators or ends resolves to a place at or below its base, the same below every base |
| DirectoryClimbing.HasDirectoryClimbing | src/common/utils/file_util.cc:473-480 | true if and only if somewhere ".." stands with a separator or the beginning before it and a separator or the end behind it |
| DirectoryClimbing.PathOfText | src/common/utils/file_util.cc:473-480 | the text of a path, with or without a separator before it, names that path |
| DeltaPatch.ValidateDeltaInfo | src/common/step/filesystem/step_delta_patch.cc:38-52 | true if and only if in no listed path, character by character, a ".." stands between separators or ends |
| DeltaPatch.ValidTargets | src/common/step/filesystem/step_delta_patch.cc:38-52 | with a valid delta the system resolves each listed path to the place in the working copy that the patch edits |
| DeltaPatch.StepDeltaPatch.ApplyDeletedFiles | src/common/step/filesystem/step_delta_patch.cc:90-100 | exactly the files and directories at and below the removed paths go; always reports success |
| DeltaPatch.StepDeltaPatch.ModifyOne | src/common/step/filesystem/step_delta_patch.cc:104-150 | exactly that file becomes the decoded one; the temporary file is gone; without faults it succeeds if and only if file and patch are there and decode |
| DeltaPatch.StepDeltaPatch.ApplyModifiedFiles | src/common/step/filesystem/step_delta_patch.cc:102-152 | every listed file is decoded against its old content, every other file is as before; without faults it succeeds if and only if each of them can be |
| DeltaPatch.StepDeltaPatch.AddOne | src/common/step/filesystem/step_delta_patch.cc:157-180 | one path is added and what it is not above stays as it was; without faults it succeeds if and only if nothing is in its way |
| DeltaPatch.StepDeltaPatch.ApplyAddedFiles | src/common/step/filesystem/step_delta_patch.cc:154-183 | every added file is the patch's, other files are as before; without faults it succeeds if and only if each path could be added alone and no added file is above another added path or given twice |
| DeltaPatch.StepDeltaPatch.ApplyPatch | src/common/step/filesystem/step_delta_patch.cc:185-194 | at every path: the patch's file if added, the decoded one if modified, nothing below a removed path, else the old file; nothing outside the working copy, the patch and the temporary file changes; without faults it succeeds if and only if, on the tree it begins with, every modified file is not removed and decodes, every added one is in the patch, no file that stays is above it, and no directory that keeps an entry is in its place |
| DeltaPatch.StepDeltaPatch.PatchOfDelta | src/common/step/filesystem/step_delta_patch.cc:185-194 | patching with the differences of two versions gives the new one, if decoding undoes encoding |
| DeltaPatch.StepDeltaPatch.CanPatchDelta | src/common/step/filesystem/step_delta_patch.cc:167-172 | the differences of two versions can be applied if and only if no added file takes the place of a directory with a subdirectory, since removals leave empty directories |
| DeltaPatch.StepDeltaPatch.ApplyDelta | src/common/step/filesystem/step_delta_patch.cc:185-194 | a run without faults on such lists succeeds if and only if that is so, and then the working copy has exactly the new version's files |
| DeltaPatch.StepDeltaPatch.CopySkipMount | src/common/step/filesystem/step_delta_patch.cc:196-223 | an exact copy without the mount point; the source is only read; without faults it always succeeds |
| DeltaPatch.StepDeltaPatch.Trim | src/common/step/filesystem/step_delta_patch.cc:289-301 | nothing with a delta root; without one exactly those files go, and it fails if and only if bin/ is missing or an icon text is too short |
| DeltaPatch.StepDeltaPatch.RemoveBinarySymlinks | src/common/step/filesystem/step_delta_patch.cc:54-64 | exactly the links in bin/ go; fails if and only if there is no bin/ |
| DeltaPatch.StepDeltaPatch.RemoveStorageDirectories | src/common/step/filesystem/step_delta_patch.cc:66-72 | exactly the files below data/, cache/, shared/data/ and shared/trusted/ go |
| DeltaPatch.StepDeltaPatch.RemoveExtraIconFiles | src/common/step/filesystem/step_delta_patch.cc:74-88 | exactly the first icon of each web application goes; fails if and only if such a text is shorter than the package directory's |
| DeltaPatch.StepDeltaPatch.ExtraIconOf | src/common/step/filesystem/step_delta_patch.cc:74-88 | an icon below the package directory is that place in the copy, for web applications only |
| DeltaPatch.StepDeltaPatch.Process | src/common/step/filesystem/step_delta_patch.cc:248-312 | success: the lists are valid; the working copy before patching has exactly the files of the installed package, or of the delta root in it, but the mount point and, without a delta root, links in bin/, runtime directories and extra icons; afterwards it is that patched; the patch directory is gone; the installed package is only read; without faults it succeeds if and only if the delta can be prepared and applied |
| DeltaPatch.StepDeltaPatch.Prepare | src/common/step/filesystem/step_delta_patch.cc:248-301 | without faults the copy and the patch directory are made if and only if the delta is there, is valid, has no stale patch directory, and what is to be trimmed can be found |
| DeltaPatch.StepDeltaPatch.ProcessDelta | src/common/step/filesystem/step_delta_patch.cc:248-312 | the same for the whole step: from the installed package to the new version |
| Icons.StepBackupIcons.Gather | src/common/step/backup/step_backup_icons.cc:24-43 | exactly the files named after an application id with an icon: the id itself, or the id and one extension, where the id may have dots |
| Icons.StemIff | src/common/step/backup/step_backup_icons.cc:33-37 | the file name without its extension is an id if and only if the name is that id, or that id and one extension |
| Icons.IconName | src/common/step/filesystem/step_create_icons.cc:44-49 | the application's id with the source's last extension, or with .png where the source has none |
| Icons.StepBackupIcons.Process | src/common/step/backup/step_backup_icons.cc:24-55 | the gathered icons are set aside one by one, up to the first failure; a fault that leaves something half done leaves an icon together with its backup; no other entry changes; without faults, with distinct ids and no stale backup, all are |
| Icons.StepBackupIcons.Undo | src/common/step/backup/step_backup_icons.cc:63-72 | the directory is as it was before, even where the status reports an error; an icon that is there together with its backup stays so |
| Icons.StepBackupIcons.Clean | src/common/step/backup/step_backup_icons.cc:57-81 | the backups go and nothing else; with faults at most these |
| Icons.StepCreateIcons.Process | src/common/step/filesystem/step_create_icons.cc:27-65 | the directory is made if missing; exactly the icons copied are recorded, each under its application's name with the source's content; success means every icon that exists was copied; nothing outside the directory changes but directories above it; without faults it succeeds if and only if the directory is there or can be made, and every icon that is there is a file whose name is free and given once |
| Icons.StepCreateIcons.CopyIcons | src/common/step/filesystem/step_create_icons.cc:40-62 | no entry that was there changes; what a fault leaves half done is new and not recorded; the same condition for success without faults |
| Icons.StepCreateIcons.Undo | src/common/step/filesystem/step_create_icons.cc:19-25 | exactly the recorded icons go; with faults at most these |
| Icons.ReplaceIcons | src/common/step/backup/step_backup_icons.cc:24-81 | both steps as a run makes them, with distinct ids and no stale backup: a failed run, undone in reverse, restores the icon directory if and only if on the disk where the undoing began no icon was there together with its backup and no entry was unknown, and without faults it always does; success gives the old directory minus the package's icons plus the new ones, each with its application's name and content; without faults it comes if and only if these can be created once the old ones are set aside |
| Icons.UndoOverTorn | src/common/step/backup/step_backup_icons.cc:63-72 | a disk on which the undo fails: over a truncated copy of any icon it never gives the directory back |
| Icons.BringBack | src/common/step/backup/step_backup_icons.cc:63-72 | taking back the first icon of several leaves the directory with the others set aside |
| Manifest.StepBackupManifest.Process | src/common/step/backup/step_backup_manifest.cc:34-47 | OK: the backup is the manifest; only the backup's name is ever touched; refuses an existing backup |
| Manifest.StepBackupManifest.Undo | src/common/step/backup/step_backup_manifest.cc:60-76 | with any faults, every disk on the way reverts to the same manifest; without, it is in place and the backup is gone |
| Manifest.StepBackupManifest.Clean | src/common/step/backup/step_backup_manifest.cc:49-58 | the backup goes, the manifest stays |
| Manifest.StepRecoverManifest.RecoveryNew | src/common/step/filesystem/step_recover_manifest.cc:21-32 | the manifest of an unfinished installation is gone; nothing happens without a package id |
| Manifest.StepRecoverManifest.RecoveryUpdate | src/common/step/filesystem/step_recover_manifest.cc:34-52 | with any faults, every disk on the way reverts to the same manifest |
| Manifest.StopAndRecover | src/common/step/filesystem/step_recover_manifest.cc:34-52 | an update stopped anywhere, from the copy on and with any faults, its undo included, then recoveries stopped anywhere and one that finishes: the tree is the one before if and only if the backup was not torn on the disk where it stopped or began to be undone; once the copy was made it never is |
| Manifest.Update | src/common/step/backup/step_backup_manifest.cc:26-76 | the same for every disk of the update, without the recovery |
| Manifest.RevertedIff | src/common/step/backup/step_backup_manifest.cc:34-47 | on any disk that differs at the backup alone, what is reverted to is the old manifest if and only if there is no backup or a whole one |
| Manifest.TornCopyIsTaken | src/common/step/backup/step_backup_manifest.cc:34-47 | a copy cut short is what recovery would bring back |
| PluginXmlParser.PluginsXmlParser.NextChildElement | src/common/plugins/plugin_xml_parser.cc:57-77 | stops at the next child element of that depth with nothing skipped, or finds none before the parent ends |
| PluginXmlParser.PluginsXmlParser.Parse | src/common/plugins/plugin_xml_parser.cc:11-51 | the tags are the names found, in order and without duplicates; unchanged when the file cannot be read |
| PluginXmlParser.StreamAgreesWithTree | src/common/plugins/plugin_xml_parser.cc:31-77 | the names found in a document's event stream are those of the root's child elements, or none when something stands before the root |
| PluginXmlParser.CompleteIffRootFirst | src/common/plugins/plugin_xml_parser.cc:31-77 | the names are complete if and only if the root comes first or has no child elements |
| PluginManager.PluginManager.LoadPlugins | src/common/plugins/plugin_manager.cc:45-119 | the plugins appended are those Loaded names; false if and only if the manifest or the list cannot be read, and then none is |
| PluginManager.PluginManager.TagListed | src/common/plugins/plugin_manager.cc:64-74 | the binary search over the sorted names is membership |
| PluginManager.PluginManager.AnyStarts | src/common/plugins/plugin_manager.cc:75-111 | the two nested loops find a key exactly when some application has one that begins with the plugin's name |
| PluginManager.LoadedIff | src/common/plugins/plugin_manager.cc:62-117 | a plugin is loaded if and only if it is listed, wanted and its library opens; never more often than listed |
| PluginManager.LoadedInOrder | src/common/plugins/plugin_manager.cc:113-116 | in list order |
| PluginManager.TagPluginLoadedIff | src/common/plugins/plugin_manager.cc:64-74 | a tag plugin is loaded if and only if the root comes first and has a child element of its name |
| PluginManager.MetadataPluginLoadedIff | src/common/plugins/plugin_manager.cc:75-93 | a metadata plugin is loaded if and only if some application has a metadata key that begins with its name |
| PluginManager.CategoryPluginLoadedIff | src/common/plugins/plugin_manager.cc:93-111 | a category plugin is loaded if and only if some application has a category that begins with its name |
| PluginManager.OtherPluginNeverLoaded | src/common/plugins/plugin_manager.cc:62-117 | a plugin of another kind never is |
| OrderedStrings.LowerBound | src/common/plugins/plugin_manager.cc:66-67 | everything before the result is below the name, nothing from it on is |
| OrderedStrings.SortOrders | src/common/plugins/plugin_manager.cc:56-56 | sorting orders and keeps every name |
| OrderedStrings.InsertOnce | src/common/plugins/plugin_xml_parser.cc:35-48 | insertion into an ordered set adds that one member and no duplicate |
| BackgroundCategory.StepCheckBackgroundCategory.Process | src/common/step/security/step_check_background_category.cc:197-219 | OK if and only if no application breaks the rule: a public one asks for "system", or an untrusted one for anything; then each list is duplicate-free and as a set what the rule grants; otherwise those before the first offender are done, its own list is empty and the rest untouched |
| BackgroundCategory.StepCheckBackgroundCategory.Normalise | src/common/step/security/step_check_background_category.cc:207-215 | one application's new list; emptied when it breaks the rule |
| BackgroundCategory.ShouldSendFail | src/common/step/security/step_check_background_category.cc:47-55 | which levels and which categories break the rule |
| BackgroundCategory.StepCheckBackgroundCategory.GetBackgroundCategories | src/common/step/security/step_check_background_category.cc:105-112 | the ordered set of the entries |
| BackgroundCategory.SentIsGranted | src/common/step/security/step_check_background_category.cc:41-103 | no duplicates; as a set the input, or with the six known ones when older than 2.4, supported and not untrusted |
| BackgroundCategory.SentIsStable | src/common/step/security/step_check_background_category.cc:197-219 | running on its own result does not fail and changes nothing |
| LegacyDirectories.QueryIsPackageInstalled | src/common/pkgmgr_query.cc:184-212 | true if and only if the record can be read and the package is that user's own |
| LegacyDirectories.LegacyDirectories.CreateLegacyDirectories | src/common/shared_dirs.cc:450-485 | makes exactly these directories, shared/data and shared/trusted among them, and never a file; true only if all exist; succeeds without faults when nothing is in the way |
| LegacyDirectories.LegacyDirectories.DeleteLegacyDirectories | src/common/shared_dirs.cc:487-521 | removes the directory if and only if there are users and nobody else asked holds the package |
| LegacyDirectories.DeletesIffLast | src/common/shared_dirs.cc:487-521 | with complete answers the directory goes exactly with the last holder |
| LegacyDirectories.SparesOthersIff | src/common/pkgmgr_query.cc:184-212 | for every database: a deletion spares the other holders if and only if, when there are any, one of them is asked and can be answered for |
| LegacyDirectories.LegacyDirectories.Serve | src/common/shared_dirs.cc:450-521 | one install or uninstall request, with unreadable and unlisted users: all directories stay shared as they should if and only if it spares the other holders |
| LegacyDirectories.LegacyDirectories.Run | src/common/shared_dirs.cc:450-521 | over any run of requests: after every one of them each legacy directory exists exactly while somebody has the package, if and only if every request spares the other holders |
| Sizes.RoundUpToBlockSizeOf | src/common/utils/file_util.cc:43-45 | a multiple of the block size, at least the size, less than one block more |
| Sizes.RoundUpIsLeast | src/common/utils/file_util.cc:43-45 | no smaller multiple holds the size |
| Sizes.OccupiedIsEnough | src/common/utils/file_util.cc:258-293 | the total is whole blocks, holds all files, and is less than one block too many for each |
| Sizes.GetDirectorySize | src/common/utils/file_util.cc:274-294 | those bounds in 64-bit arithmetic; -1 if and only if something cannot be read |
| Sizes.GetUnpackedPackageSize | src/common/utils/file_util.cc:234-272 | the same for an archive |
| Sizes.AddUp | src/common/utils/file_util.cc:281-290 | the loop's total is exactly the files in whole blocks, or -1 |
| Sizes.SizeInMB | src/common/external_storage.cc:27-29 | the least number of megabytes that holds the size; 0 for a failed measurement, through the unsigned division |
| Sizes.ExternalSize | src/common/external_storage.cc:116-138 | at least one megabyte; for a "wgt" at least each directory that is there and at most one megabyte too many for each and one more; otherwise the least number of megabytes that holds the whole |

## Left out

- Symbolic links to directories: CopyDir follows them; the trees here have none.
- A `remove_all` or `rename` that stops half way: both are single steps of the disk.
- AppInstaller.AppInstaller.Run: progress is unbounded arithmetic, the original multiplies 32-bit integers; a step is four functions of a world that includes whatever decides how calls end, instead of a virtual object. Where signals are lost only the protocol is stated.
- FileSystem.FileSystem.CopyDir: the target's parent directory exists, as it does wherever it is called here; permissions, ownership and times are not modelled.
- FileSystem.FileSystem.MoveDir: the target's parent directory exists; the original's copying fallback would make it.
- CopyBackup.StepCopyBackup.Backup: internal storage without `.mmc` and no backup left by an earlier run; an error of `create_directories`, which the original ignores, fails here; a backup that stops half way loses files when it is undone, as BackupAndUndo says exactly, so the guarantees of a run start when it is complete.
- CopyBackup.StepCopyBackup.Process: exceptions of the directory iterator on a missing package are not modelled; the package is there.
- UpdateRun.UpdateRun.Run: steps that write to data/ or shared/ of the package after StepCopyStorageDirectories, or unpack something in the same place, are excluded; what other steps write is the parameter `touched`.
- UpdateRun.UpdateRun.CrashAndRecover: no faults during recovery, only crashes; RecoverAfterFaults is about those. A manifest on the stopped disk that cannot be read or names another package is excluded by `Steady`.
- UpdateRun.UpdateRun.WriteRecord: its three writes belong to three steps, here they follow each other.
- RecoveryFile.RecoveryFile.ReadFileContent: a line that begins with NUL, which is undefined behaviour in the original, reads as empty.
- RecoveryRun.RecoveryRequest: icon recovery and the registry steps are one outcome, `others`; the package is a directory or missing, and apart from the record.
- RecoveryRun.StepParseManifest.Process: the parser is a function of the manifest's text; what it fills into the manifest data is not modelled, and a manifest that names the empty id counts as unreadable.
- RecoveryRun.LeaveAlone: ends where a process would meet a file in the place of a package, or a manifest that names another package than the record.
- RdsModify.StepRdsModify.ProcessOrUndo: no faults during the undo, which RestoreFiles describes; directories in the lists are handled by the code but not in the guarantee.
- DeltaPatch.StepDeltaPatch.Process: which leaves are links is a function of their content, an icon's text is resolved name by name; the xdelta process is a function that may fail.
- DeltaPatch.StepDeltaPatch.ApplyPatch: modified paths must be distinct for the claim; with faults nothing is said of the working copy.
- Icons.ReplaceIcons: no faults during the undo; the icon directory is there; `StepRecoverIcons` matches by name prefix and removes icons without a backup, so it has no such property.
- Manifest.StopAndRecover: no faults during recovery, only crashes.
- PluginXmlParser.PluginsXmlParser.Parse: a reader error in the middle of a parsed document, which the original treats as an element found, cannot happen here; reading the file and the plugin list's own format are not modelled.
- PluginManager.PluginManager.LoadPlugins: a plugin's library opens or not by a fixed function of its entry.
- LegacyDirectories.LegacyDirectories.Run: requests are atomic, and the disk does not fail.
- Sizes.GetDirectorySize: sizes whose sum leaves 64 bits overflow in the original and are excluded.
- Sizes.ExternalSize: sizes beyond what an int of megabytes holds are excluded; the calls to app2ext are not modelled.
- `DeleteUserDirectories`, skeleton and external directories: loops over users with a weaker property than the legacy directories.
- D-Bus, app2ext, security manager, certificate and privilege checks, the package database: foreign code.
- Manifest parsing, request type tables, TEP and mount steps, registration steps, preload error file, `sync()`.
