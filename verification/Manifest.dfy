/** StepBackupManifest and StepRecoverManifest: the manifest file and its copy beside it. */
module Manifest {
  import opened FileTree
  import opened FileSystem
  import opened PackageTrees

  /** Nothing but files where the manifest and its backup are kept. */
  predicate Ready(t: Node, xml: Path) {
    xml != [] && IsDir(t, Parent(xml)) && !IsDir(t, xml) && !IsDir(t, BackupPath(xml))
  }

  /** What undoing or recovering would make of the manifest: the backup if there is one. */
  function Reverted(t: Node, xml: Path): Option<Node>
    requires xml != []
  {
    if Exists(t, BackupPath(xml)) then Get(t, BackupPath(xml)) else Get(t, xml)
  }

  /** Undoing or recovering from b ends as from a. */
  predicate Equivalent(a: Node, b: Node, xml: Path) {
    Ready(b, xml) && SameOutside2(a, b, xml, BackupPath(xml)) && Reverted(b, xml) == Reverted(a, xml)
  }

  lemma EntryIsReady(a: Node, b: Node, xml: Path)
    requires Ready(a, xml) && SameOutside2(a, b, xml, BackupPath(xml))
    ensures IsDir(b, Parent(xml))
  {
    var bck, d := BackupPath(xml), Parent(xml);
    BackupPathIsApart(xml);
    NotAboveParent(bck, xml);
    CutKeepsDir(a, xml, d);
    CutKeepsDir(Cut(a, xml), bck, d);
    CutKeepsDir(b, xml, d);
    CutKeepsDir(Cut(b, xml), bck, d);
  }

  /** There is no backup of the manifest of t0, or a whole one. */
  predicate BackedUp(t0: Node, t: Node, xml: Path)
    requires xml != []
  {
    !Exists(t, BackupPath(xml)) || Get(t, BackupPath(xml)) == Get(t0, xml)
  }

  /** On a disk that differs at the backup alone, reverting brings the old manifest if and only if the backup is
      not a part of it. */
  lemma RevertedIff(t0: Node, t: Node, xml: Path)
    requires Ready(t0, xml) && SameOutside(t0, t, BackupPath(xml)) && !IsDir(t, BackupPath(xml))
    ensures Ready(t, xml) && SameOutside2(t0, t, xml, BackupPath(xml))
    ensures Reverted(t, xml) == Get(t0, xml) <==> BackedUp(t0, t, xml)
  {
    BackupPathIsApart(xml);
    SameOutsideGet(t0, t, BackupPath(xml), xml);
    Widen(t0, t, xml, BackupPath(xml));
    EntryIsReady(t0, t, xml);
  }

  /** Without a backup the old tree is back exactly when the manifest is. */
  lemma BackAgainIff(t0: Node, t: Node, xml: Path)
    requires xml != [] && Get(t0, BackupPath(xml)) == None && SameOutside2(t0, t, xml, BackupPath(xml))
    requires Get(t, BackupPath(xml)) == None
    ensures t == t0 <==> Get(t, xml) == Get(t0, xml)
  {
    if Get(t, xml) == Get(t0, xml) {
      var bck := BackupPath(xml);
      BackupPathIsApart(xml);
      GetCutOther(t0, xml, bck);
      GetCutOther(t, xml, bck);
      SameEverywhere(Cut(t0, xml), Cut(t, xml), bck);
      SameEverywhere(t0, t, xml);
    }
  }

  /** The tree a copy without faults makes. */
  function CopiedTree(t: Node, xml: Path): Node
    requires xml != []
  {
    if CanCopy(t, xml, BackupPath(xml), false) then Put(t, BackupPath(xml), Get(t, xml).value) else t
  }

  /** The tree an undo without faults makes. */
  function UndoneTree(t: Node, xml: Path): Node
    requires xml != []
  {
    if Exists(t, BackupPath(xml)) && Exists(Cut(t, xml), BackupPath(xml)) then
      Renamed(Cut(t, xml), BackupPath(xml), xml)
    else t
  }

  class StepBackupManifest {
    const fs: FileSystem
    const xmlPath: Path

    constructor (fs: FileSystem, xmlPath: Path)
      ensures this.fs == fs && this.xmlPath == xmlPath
    {
      this.fs, this.xmlPath := fs, xmlPath;
    }

    method Precheck() returns (status: Status)
      ensures status == if Exists(fs.root, xmlPath) then OK else MANIFEST_NOT_FOUND
    {
      return if Exists(fs.root, xmlPath) then OK else MANIFEST_NOT_FOUND;
    }

    /** The copy; it is refused when there is a backup already, and may be left unfinished. */
    method Process() returns (status: Status)
      requires fs.Valid() && Ready(fs.root, xmlPath)
      modifies fs`root, fs`log
      ensures fs.Valid() && old(fs.log) <= fs.log && Ready(fs.root, xmlPath)
      ensures SameOutside(old(fs.root), fs.root, BackupPath(xmlPath))
      ensures forall i | |old(fs.log)| <= i < |fs.log| ::
        SameOutside(old(fs.root), fs.log[i], BackupPath(xmlPath)) && IsFile(fs.log[i], BackupPath(xmlPath))
      ensures status == OK || status == MANIFEST_ERROR
      ensures status == OK ==>
        old(IsFile(fs.root, xmlPath)) &&
        Get(fs.root, BackupPath(xmlPath)) == Get(fs.root, xmlPath) == old(Get(fs.root, xmlPath))
      ensures !fs.faulty ==> (status == OK <==> old(IsFile(fs.root, xmlPath) && !Exists(fs.root, BackupPath(xmlPath))))
      ensures !fs.faulty ==> fs.root == old(CopiedTree(fs.root, xmlPath))
    {
      hide Cut, Put, Get;
      var backupXmlPath := BackupPath(xmlPath);
      BackupPathIsApart(xmlPath);
      ghost var before := fs.root;
      var ok := fs.CopyFile(xmlPath, backupXmlPath, false);
      SameOutsideGet(before, fs.root, backupXmlPath, xmlPath);
      Widen(before, fs.root, xmlPath, backupXmlPath);
      EntryIsReady(before, fs.root, xmlPath);
      return if ok then OK else MANIFEST_ERROR;
    }

    method Clean() returns (status: Status)
      requires fs.Valid() && Ready(fs.root, xmlPath)
      modifies fs`root, fs`log
      ensures fs.Valid() && SameOutside(old(fs.root), fs.root, BackupPath(xmlPath))
      ensures Get(fs.root, xmlPath) == old(Get(fs.root, xmlPath))
      ensures status == OK ==> Get(fs.root, BackupPath(xmlPath)) == None
      ensures !fs.faulty ==> status == OK
    {
      hide Cut, Put, Get;
      var bck := BackupPath(xmlPath);
      BackupPathIsApart(xmlPath);
      ghost var before := fs.root;
      var ok := fs.Remove(bck);
      GetCut(before, bck);
      CutCut(before, bck);
      SameOutsideGet(before, fs.root, bck, xmlPath);
      return if ok then OK else MANIFEST_ERROR;
    }

    /** Whatever fails and wherever it stops, what is left can still be undone or recovered to the same end. */
    method Undo() returns (status: Status)
      requires fs.Valid() && Ready(fs.root, xmlPath)
      modifies fs`root, fs`log
      ensures fs.Valid() && old(fs.log) <= fs.log
      ensures Equivalent(old(fs.root), fs.root, xmlPath)
      ensures forall i | |old(fs.log)| <= i < |fs.log| :: Equivalent(old(fs.root), fs.log[i], xmlPath)
      ensures status == OK ==> Get(fs.root, xmlPath) == old(Reverted(fs.root, xmlPath))
      ensures !fs.faulty ==>
        status == OK && !Exists(fs.root, BackupPath(xmlPath)) && fs.root == old(UndoneTree(fs.root, xmlPath))
    {
      if Exists(fs.root, BackupPath(xmlPath)) {
        var removed, moved := BringBack(fs, xmlPath);
        return if removed && moved then OK else MANIFEST_ERROR;
      }
      BackupPathIsApart(xmlPath);
      return OK;
    }
  }

  /** The manifest is removed and its backup moved to its place. */
  method BringBack(fs: FileSystem, xmlPath: Path) returns (removed: bool, moved: bool)
    requires fs.Valid() && Ready(fs.root, xmlPath) && Exists(fs.root, BackupPath(xmlPath))
    modifies fs`root, fs`log
    ensures fs.Valid() && old(fs.log) <= fs.log
    ensures Equivalent(old(fs.root), fs.root, xmlPath)
    ensures forall i | |old(fs.log)| <= i < |fs.log| :: Equivalent(old(fs.root), fs.log[i], xmlPath)
    ensures moved ==> Get(fs.root, xmlPath) == old(Get(fs.root, BackupPath(xmlPath)))
    ensures !fs.faulty ==>
      removed && moved && !Exists(fs.root, BackupPath(xmlPath)) && fs.root == old(UndoneTree(fs.root, xmlPath))
  {
    hide Cut, Put, Get;
    var bck := BackupPath(xmlPath);
    BackupPathIsApart(xmlPath);
    moved := false;
    ghost var before := fs.root;
    removed := fs.Remove(xmlPath);
    Removal(before, fs.root, xmlPath);
    if !removed {
      return;
    }
    ghost var between, started := fs.root, |fs.log|;
    moved := fs.MoveFile(bck, xmlPath);
    Move(before, between, fs.root, xmlPath);
    forall i | started <= i < |fs.log| ensures Equivalent(before, fs.log[i], xmlPath) {
      Move(before, between, fs.log[i], xmlPath);
    }
  }

  lemma Removal(a: Node, b: Node, xml: Path)
    requires Ready(a, xml) && (b == a || b == Cut(a, xml)) && Exists(a, BackupPath(xml))
    ensures Equivalent(a, b, xml) && Get(b, BackupPath(xml)) == Get(a, BackupPath(xml))
    ensures b == Cut(a, xml) ==> Get(b, xml) == None
  {
    BackupPathIsApart(xml);
    GetCutOther(a, xml, BackupPath(xml));
    GetCut(a, xml);
    CutCut(a, xml);
    EntryIsReady(a, b, xml);
  }

  lemma Move(a: Node, b: Node, c: Node, xml: Path)
    requires Equivalent(a, b, xml) && Get(b, xml) == None && IsFile(b, BackupPath(xml))
    requires SameOutside2(b, c, BackupPath(xml), xml)
    requires Get(c, BackupPath(xml)) == Get(b, BackupPath(xml)) ||
      (Get(c, BackupPath(xml)) == None && Get(c, xml) == Get(b, BackupPath(xml)))
    requires !IsDir(c, xml)
    ensures Equivalent(a, c, xml)
  {
    BackupPathIsApart(xml);
    CutCommute(b, xml, BackupPath(xml));
    CutCommute(c, xml, BackupPath(xml));
    EntryIsReady(b, c, xml);
  }

  class StepRecoverManifest {
    const fs: FileSystem
    const manifestDir: Path
    const pkgid: Name

    constructor (fs: FileSystem, manifestDir: Path, pkgid: Name)
      ensures this.fs == fs && this.manifestDir == manifestDir && this.pkgid == pkgid
    {
      this.fs, this.manifestDir, this.pkgid := fs, manifestDir, pkgid;
    }

    function XmlPath(): (p: Path)
      ensures p != [] && Parent(p) == manifestDir && Last(p) == pkgid + ".xml"
    {
      manifestDir + [pkgid + ".xml"]
    }

    method RecoveryNew() returns (status: Status)
      requires fs.Valid() && Ready(fs.root, XmlPath())
      modifies fs`root, fs`log
      ensures fs.Valid() && status == OK && SameOutside(old(fs.root), fs.root, XmlPath())
      ensures pkgid == "" ==> fs.root == old(fs.root)
      ensures pkgid != "" && !fs.faulty ==> !Exists(fs.root, XmlPath())
    {
      hide Cut, Put, Get;
      if pkgid != "" && Exists(fs.root, XmlPath()) {
        GetCut(fs.root, XmlPath());
        CutCut(fs.root, XmlPath());
        var _ := fs.Remove(XmlPath());
      }
      return OK;
    }

    method RecoveryUpdate() returns (status: Status)
      requires fs.Valid() && Ready(fs.root, XmlPath())
      modifies fs`root, fs`log
      ensures fs.Valid() && old(fs.log) <= fs.log
      ensures Equivalent(old(fs.root), fs.root, XmlPath())
      ensures forall i | |old(fs.log)| <= i < |fs.log| :: Equivalent(old(fs.root), fs.log[i], XmlPath())
      ensures pkgid != "" && !fs.faulty ==> status == OK && !Exists(fs.root, BackupPath(XmlPath()))
    {
      if pkgid != "" && Exists(fs.root, BackupPath(XmlPath())) {
        var removed, _ := BringBack(fs, XmlPath());
        if !removed {
          return RECOVERY_ERROR;
        }
      } else {
        BackupPathIsApart(XmlPath());
      }
      return OK;
    }
  }

  lemma Chain(a: Node, b: Node, c: Node, xml: Path)
    requires Equivalent(a, b, xml) && Equivalent(b, c, xml)
    ensures Equivalent(a, c, xml)
  {}

  /** A later step writes the new manifest; the revert does not change, for the backup is there. */
  lemma NewManifest(a: Node, b: Node, xml: Path)
    requires Ready(a, xml) && Exists(a, BackupPath(xml)) && SameOutside(a, b, xml) && !IsDir(b, xml)
    ensures Equivalent(a, b, xml)
  {
    BackupPathIsApart(xml);
    Widen(a, b, xml, BackupPath(xml));
    SameOutsideGet(a, b, xml, BackupPath(xml));
    EntryIsReady(a, b, xml);
  }

  /** The disk t of an update of t0's manifest, when what is to be reverted to was settled on the disk d. */
  ghost predicate Hangs(t0: Node, d: Node, t: Node, xml: Path)
    requires xml != []
  {
    Ready(t, xml) && SameOutside2(t0, t, xml, BackupPath(xml)) &&
    (Reverted(t, xml) == Get(t0, xml) <==> BackedUp(t0, d, xml))
  }

  lemma HangsOn(t0: Node, d: Node, a: Node, b: Node, xml: Path)
    requires xml != [] && Hangs(t0, d, a, xml) && Equivalent(a, b, xml)
    ensures Hangs(t0, d, b, xml)
  {
  }

  /** With the backup whole, nothing that leaves it alone changes what is reverted to. */
  lemma SavedForGood(t0: Node, saved: Node, t: Node, xml: Path)
    requires Ready(t0, xml) && Exists(t0, xml) && SameOutside(t0, saved, BackupPath(xml)) && Ready(saved, xml)
    requires Get(saved, BackupPath(xml)) == Get(t0, xml) && SameOutside(saved, t, xml) && !IsDir(t, xml)
    ensures Hangs(t0, t, t, xml) && BackedUp(t0, t, xml)
  {
    BackupPathIsApart(xml);
    NewManifest(saved, t, xml);
    SameOutsideGet(saved, t, xml, BackupPath(xml));
    Widen(t0, saved, xml, BackupPath(xml));
    SameOutside2Trans(t0, saved, t, xml, BackupPath(xml));
  }

  /** The disk that decides what disk i is reverted to: itself, or the one on which undoing began. */
  function Settled(log: seq<Node>, undone: nat, i: nat): Node
    requires i < |log|
  {
    log[if i < undone then i else undone]
  }

  /** An update of the manifest, with any faults: it is backed up, the new one is written, and if something fails
      or `undo` says so, that is undone.  From log position `saved` on the backup has been made, at `undone` undoing
      began. */
  method Update(backup: StepBackupManifest, text: string, undo: bool) returns (saved: nat, undone: nat)
    requires backup.fs.Valid() && Ready(backup.fs.root, backup.xmlPath)
    requires IsFile(backup.fs.root, backup.xmlPath) && !Exists(backup.fs.root, BackupPath(backup.xmlPath))
    modifies backup.fs`root, backup.fs`log
    ensures backup.fs.Valid() && old(backup.fs.log) <= backup.fs.log && undone <= |backup.fs.log|
    ensures forall i | |old(backup.fs.log)| <= i < |backup.fs.log| ::
      Hangs(old(backup.fs.root), Settled(backup.fs.log, undone, i), backup.fs.log[i], backup.xmlPath)
    ensures forall i | |old(backup.fs.log)| <= i < |backup.fs.log| ::
      saved <= i ==> BackedUp(old(backup.fs.root), Settled(backup.fs.log, undone, i), backup.xmlPath)
    ensures !backup.fs.faulty ==> saved < |backup.fs.log|
  {
    hide Cut, Put, Get, Reverted, BackedUp, Independent, SameOutside, SameOutside2, Equivalent, Hangs;
    var fs, xml := backup.fs, backup.xmlPath;
    ghost var t0 := fs.root;
    var started := |fs.log|;
    var status := backup.Precheck();
    if status == OK {
      status := backup.Process();
    }
    DiskHangs(t0, fs.root, xml);
    forall i | started <= i < |fs.log| ensures Hangs(t0, fs.log[i], fs.log[i], xml) {
      DiskHangs(t0, fs.log[i], xml);
    }
    saved := |fs.log| - 1;
    var n := |fs.log|;
    if status == OK {
      ghost var whole := fs.root;
      SavedForGood(t0, whole, whole, xml);
      var _ := fs.WriteFile(xml, text);
      SavedForGood(t0, whole, fs.root, xml);
      forall i | n <= i < |fs.log| ensures Hangs(t0, fs.log[i], fs.log[i], xml) && BackedUp(t0, fs.log[i], xml) {
        SavedForGood(t0, whole, fs.log[i], xml);
      }
    }
    undone := |fs.log|;
    if undo || status != OK {
      undone := |fs.log| - 1;
      ghost var start, m := fs.root, |fs.log|;
      HangsIsReady(t0, start, start, xml);
      var _ := backup.Undo();
      forall i | m <= i < |fs.log| ensures Hangs(t0, start, fs.log[i], xml) {
        HangsOn(t0, start, start, fs.log[i], xml);
      }
    }
    if status != OK {
      saved := |fs.log|;
    }
  }

  /** Such an update is stopped behind entry `at` of the log; then recovery runs without faults, each stopped
      anywhere, and one that is not.  The tree is the one before if and only if the backup was not torn on the disk
      where the update stopped or began to be undone; once the backup was made it never is. */
  method StopAndRecover(fs: FileSystem, manifestDir: Path, pkgid: Name, text: string, undo: bool, at: nat, crashes: nat)
    returns (saved: nat, undone: nat, shown: seq<Node>)
    requires fs.Valid() && pkgid != ""
    requires var xml := manifestDir + [pkgid + ".xml"];
      Ready(fs.root, xml) && IsFile(fs.root, xml) && !Exists(fs.root, BackupPath(xml))
    modifies fs
    ensures old(fs.log) <= shown && undone <= |shown| && (!old(fs.faulty) ==> saved < |shown|)
    ensures |old(fs.log)| <= at < |shown| ==>
      (fs.root == old(fs.root) <==>
         BackedUp(old(fs.root), Settled(shown, undone, at), manifestDir + [pkgid + ".xml"])) &&
      (saved <= at ==> fs.root == old(fs.root))
  {
    hide Cut, Put, Get, Ready, Reverted, BackedUp, Independent, Equivalent, Hangs;
    ghost var t0 := fs.root;
    var started := |fs.log|;
    var recover := new StepRecoverManifest(fs, manifestDir, pkgid);
    var xml := recover.XmlPath();
    var backup := new StepBackupManifest(fs, xml);
    saved, undone := Update(backup, text, undo);
    shown := fs.log;
    if started <= at < |shown| {
      ghost var d := Settled(shown, undone, at);
      fs.faulty := false;
      HangsIsReady(t0, d, shown[at], xml);
      HangsHasRoot(shown[at], xml);
      fs.CrashAt(at);
      Recoveries(fs, recover, crashes);
      Ended(t0, d, shown[at], fs.root, xml);
    }
  }

  lemma DiskHangs(t0: Node, t: Node, xml: Path)
    requires Ready(t0, xml) && SameOutside(t0, t, BackupPath(xml)) && !IsDir(t, BackupPath(xml))
    ensures Hangs(t0, t, t, xml)
  {
    RevertedIff(t0, t, xml);
  }

  lemma HangsHasRoot(t: Node, xml: Path)
    requires Ready(t, xml)
    ensures t.Dir?
  {
  }

  lemma HangsIsReady(t0: Node, d: Node, t: Node, xml: Path)
    requires xml != [] && Hangs(t0, d, t, xml)
    ensures Ready(t, xml)
  {
  }

  lemma Ended(t0: Node, d: Node, t: Node, now: Node, xml: Path)
    requires xml != [] && Hangs(t0, d, t, xml) && Equivalent(t, now, xml)
    requires Get(t0, BackupPath(xml)) == None && Get(now, BackupPath(xml)) == None
    ensures now == t0 <==> BackedUp(t0, d, xml)
  {
    SameOutside2Trans(t0, t, now, xml, BackupPath(xml));
    BackAgainIff(t0, now, xml);
  }

  /** Recovery runs stopped anywhere, and one that is not. */
  method Recoveries(fs: FileSystem, recover: StepRecoverManifest, crashes: nat)
    requires fs.Valid() && !fs.faulty && recover.fs == fs && recover.pkgid != "" && Ready(fs.root, recover.XmlPath())
    modifies fs`root, fs`log
    ensures fs.Valid() && Equivalent(old(fs.root), fs.root, recover.XmlPath())
    ensures Get(fs.root, BackupPath(recover.XmlPath())) == None
  {
    hide Cut, Put, Get, Reverted, Independent, SameOutside2;
    var xml := recover.XmlPath();
    ghost var first := fs.root;
    Itself(first, xml);
    for n := 0 to crashes
      invariant fs.Valid() && Equivalent(first, fs.root, xml)
    {
      ghost var before := fs.root;
      var started := |fs.log|;
      var _ := recover.RecoveryUpdate();
      Chain(first, before, fs.root, xml);
      if started < |fs.log| {
        var at :| started <= at < |fs.log|;
        Chain(first, before, fs.log[at], xml);
        HangsHasRoot(fs.log[at], xml);
        fs.CrashAt(at);
      }
    }
    ghost var before := fs.root;
    var _ := recover.RecoveryUpdate();
    Chain(first, before, fs.root, xml);
  }

  lemma Itself(t: Node, xml: Path)
    requires Ready(t, xml)
    ensures Equivalent(t, t, xml)
  {
  }

  /** A copy cut short is taken for the backup: a crash inside Process loses the manifest. */
  lemma TornCopyIsTaken(t: Node, xml: Path, text: string, part: string)
    requires Ready(t, xml) && FileAt(t, xml) == Some(text) && part < text && !Exists(t, BackupPath(xml))
    ensures var torn := Put(t, BackupPath(xml), File(part)); Reverted(torn, xml) == Some(File(part)) != Get(t, xml)
  {
    GetPut(t, BackupPath(xml), File(part));
  }
}
