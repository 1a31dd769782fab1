/** A recovery request: StepOpenRecoveryFile, StepParseManifest, which writes the record anew, the recovery steps for
    the recorded kind, and what becomes of the record when the run is over. */
module RecoveryRun {
  import opened FileTree
  import opened FileSystem
  import opened PackageTrees
  import opened Repair
  import opened Recovery
  import opened RecoveryFile
  import DirectoryClimbing

  const MANIFEST: Name := "tizen-manifest.xml"

  /** Where packages and their manifests are installed, and what the parser makes of a manifest's text: the package
      id it names, unless it cannot be read. */
  datatype Site = Site(appRoot: Path, manifestDir: Path, named: string -> Option<Name>) {
    function PackagePath(id: Name): (p: Path)
      ensures p != []
    {
      appRoot + [id]
    }

    function ManifestPath(id: Name): Path {
      manifestDir + [id + ".xml"]
    }
  }

  /** What a file says as a record. */
  function RecordAt(t: Node, file: Path): Record {
    Parsed(FileAt(t, file).GetOr(""))
  }

  /** The manifest that a recovery of package id reads: in the backup, in the package, or the installed one. */
  function Located(t: Node, site: Site, id: Name): Option<Path> {
    var pkg := site.PackagePath(id);
    if Exists(t, BackupPath(pkg) + [MANIFEST]) then Some(BackupPath(pkg) + [MANIFEST])
    else if Exists(t, pkg + [MANIFEST]) then Some(pkg + [MANIFEST])
    else if Exists(t, site.ManifestPath(id)) then Some(site.ManifestPath(id))
    else None
  }

  /** The package a manifest names; one that names the empty id cannot be used. */
  function Told(manifest: Option<Node>, site: Site): (id: Option<Name>)
    ensures id.Some? <==>
      manifest.Some? && manifest.value.File? && site.named(manifest.value.content) !in {None, Some("")}
    ensures id.Some? ==> id == site.named(manifest.value.content)
  {
    if manifest.Some? && manifest.value.File? && site.named(manifest.value.content) != Some("") then
      site.named(manifest.value.content)
    else None
  }

  /** The package that a recovery of the recorded id settles on, unless the manifest stops it. */
  function Settled(t: Node, site: Site, id: Name): Option<Name> {
    if id == "" then None
    else if Located(t, site, id).None? then Some(id)
    else Told(Get(t, Located(t, site, id).value), site)
  }

  class StepOpenRecoveryFile {
    const context: InstallerContext
    const fs: FileSystem
    var recoveryFile: RecoveryFile?

    constructor (context: InstallerContext, fs: FileSystem)
      ensures this.context == context && this.fs == fs && recoveryFile == null
    {
      this.context, this.fs, recoveryFile := context, fs, null;
    }

    /** All that a new process knows of the one that stopped is what the record says.  Where assertions are compiled
        in, any kind but installation and update ends the process. */
    method Process(file: Path, asserts: bool) returns (status: Status, aborted: bool)
      requires fs.Valid() && file != []
      modifies this, context`pkgid, context`unpackedDirPath, fs`root, fs`log
      ensures fs.Valid() && fs.root == old(fs.root) && fs.log == old(fs.log)
      ensures status in {OK, RECOVERY_ERROR}
      ensures aborted ==> asserts && RecordAt(fs.root, file).kind !in {Install, Update}
      ensures !fs.faulty && IsFile(fs.root, file) ==>
        aborted == (asserts && RecordAt(fs.root, file).kind !in {Install, Update}) && (!aborted ==> status == OK)
      ensures status == OK ==> IsFile(fs.root, file) && !aborted
      ensures status == OK ==>
        var r := RecordAt(fs.root, file);
        (asserts ==> r.kind in {Install, Update}) &&
        recoveryFile != null && fresh(recoveryFile) && recoveryFile.fs == fs && recoveryFile.path == file &&
        recoveryFile.kind == r.kind && recoveryFile.unpackedDir == r.unpackedDir && recoveryFile.pkgid == r.pkgid &&
        context.pkgid == r.pkgid && context.unpackedDirPath == DirectoryClimbing.PathOf(r.unpackedDir)
      ensures status != OK ==> recoveryFile == old(recoveryFile)
    {
      hide Parsed;
      var opened' := RecoveryFile.OpenRecoveryFileForPath(fs, file);
      if opened' == null {
        return RECOVERY_ERROR, false;
      }
      context.unpackedDirPath := DirectoryClimbing.PathOf(opened'.unpackedDir);
      context.pkgid := opened'.pkgid;
      if opened'.kind !in {Install, Update} && asserts {
        return RECOVERY_ERROR, true;
      }
      recoveryFile := opened';
      return OK, false;
    }

    /** The record must outlive a recovery that failed. */
    method Undo() returns (status: Status)
      modifies recoveryFile
      ensures status == OK && (recoveryFile != null ==> recoveryFile.path == [])
    {
      if recoveryFile != null {
        recoveryFile.Detach();
      }
      return OK;
    }
  }

  /** StepParseManifest for the manifest location RECOVERY. */
  class StepParseManifest {
    const context: InstallerContext
    const fs: FileSystem
    const site: Site

    constructor (context: InstallerContext, fs: FileSystem, site: Site)
      ensures this.context == context && this.fs == fs && this.site == site
    {
      this.context, this.fs, this.site := context, fs, site;
    }

    method Precheck() returns (status: Status)
      ensures status == if context.pkgid == "" then INVALID_VALUE else OK
    {
      return if context.pkgid == "" then INVALID_VALUE else OK;
    }

    method LocateConfigFile() returns (manifest: Option<Path>)
      requires context.rootApplicationPath == site.appRoot
      modifies context`pkgPath
      ensures context.pkgPath == site.PackagePath(context.pkgid) && manifest == Located(fs.root, site, context.pkgid)
    {
      context.pkgPath := context.rootApplicationPath + [context.pkgid];
      var backup, inPackage := BackupPath(context.pkgPath) + [MANIFEST], context.pkgPath + [MANIFEST];
      var installed := site.manifestDir + [context.pkgid + ".xml"];
      return if Exists(fs.root, backup) then Some(backup)
        else if Exists(fs.root, inPackage) then Some(inPackage)
        else if Exists(fs.root, installed) then Some(installed)
        else None;
    }

    /** Settles on a package, and writes its id to the record, whatever becomes of that. */
    method Process(record: RecoveryFile) returns (status: Status)
      requires fs.Valid() && record.fs == fs && record.path != [] && IsFile(fs.root, record.path)
      requires context.pkgid != "" && context.rootApplicationPath == site.appRoot
      modifies context`pkgid, context`pkgPath, record`pkgid, fs`root, fs`log
      ensures fs.Valid() && old(fs.log) <= fs.log && status in {OK, PARSE_ERROR}
      ensures status == OK ==>
        old(Settled(fs.root, site, context.pkgid)) == Some(context.pkgid) && context.pkgid != "" &&
        context.pkgPath == site.PackagePath(context.pkgid)
      ensures !fs.faulty ==> (status == OK <==> old(Settled(fs.root, site, context.pkgid)).Some?)
      ensures status != OK || old(Located(fs.root, site, context.pkgid)).None? ==>
        fs.root == old(fs.root) && fs.log == old(fs.log) && context.pkgid == old(context.pkgid)
      ensures
        var r := Record(record.kind, record.unpackedDir, context.pkgid);
        Rewritten(old(fs.root), fs.root, r, record.path) &&
        forall i | |old(fs.log)| <= i < |fs.log| :: Rewritten(old(fs.root), fs.log[i], r, record.path)
      ensures SameOutside(old(fs.root), fs.root, record.path)
      ensures forall i | |old(fs.log)| <= i < |fs.log| :: SameOutside(old(fs.root), fs.log[i], record.path)
      ensures status == OK && !fs.faulty && old(Located(fs.root, site, context.pkgid)).Some? ==>
        |old(fs.log)| < |fs.log| && FileAt(fs.log[|old(fs.log)|], record.path) == Some("") &&
        (Fits(Record(record.kind, record.unpackedDir, context.pkgid)) && Recorded(record.kind) == record.kind ==>
           RecordAt(fs.root, record.path) == Record(record.kind, record.unpackedDir, context.pkgid))
    {
      hide Cut, Put, Get, Parsed, Text, Located, Fits;
      var manifest := LocateConfigFile();
      if manifest == None {
        return OK;
      }
      var failed := fs.Fails();
      var info := Told(Get(fs.root, manifest.value), site);
      if failed || info == None {
        return PARSE_ERROR;
      }
      context.pkgid := info.value;
      context.pkgPath := context.rootApplicationPath + [context.pkgid];
      record.pkgid := context.pkgid;
      var _ := record.WriteAndCommitFileContent();
      return OK;
    }
  }

  /** The record's file is as it was, or shows a beginning of the text of r. */
  predicate Rewritten(before: Node, now: Node, r: Record, file: Path) {
    Get(now, file) == Get(before, file) || (FileAt(now, file).Some? && FileAt(now, file).value <= Text(r))
  }

  /** StepRecovery dispatches on the recorded kind. */
  method Dispatch(kind: RequestType, context: InstallerContext, fs: FileSystem) returns (status: Status)
    requires fs.Valid() && context.rootApplicationPath != [] && context.pkgid != ""
    requires context.pkgPath == context.rootApplicationPath + [context.pkgid] && Laid(fs.root, context.pkgPath)
    modifies context`pkgPath, fs`root, fs`log
    ensures fs.Valid() && old(fs.log) <= fs.log && context.pkgPath == old(context.pkgPath)
    ensures status == OK ==> kind in {Install, Update}
    ensures !fs.faulty ==> status == if kind in {Install, Update} then OK else RECOVERY_ERROR
    ensures kind !in {Install, Update} ==> fs.root == old(fs.root) && fs.log == old(fs.log)
    ensures SameOutside2(old(fs.root), fs.root, context.pkgPath, BackupPath(context.pkgPath))
    ensures forall i | |old(fs.log)| <= i < |fs.log| ::
      SameOutside2(old(fs.root), fs.log[i], context.pkgPath, BackupPath(context.pkgPath))
    ensures kind == Update ==>
      Recovers(old(fs.root), fs.root, context.pkgPath, fs.faulty) &&
      (forall i | |old(fs.log)| <= i < |fs.log| :: Recovers(old(fs.root), fs.log[i], context.pkgPath, fs.faulty)) &&
      (status == OK && Exists(old(fs.root), BackupPath(context.pkgPath)) ==>
         Replaced(old(fs.root), fs.root, context.pkgPath, fs.faulty)) &&
      (!fs.faulty ==>
         Get(fs.root, context.pkgPath) == old(RestoredAt(fs.root, context.pkgPath)) &&
         !Exists(fs.root, BackupPath(context.pkgPath)))
    ensures kind == Install && !fs.faulty ==> !Exists(fs.root, context.pkgPath)
  {
    hide Cut, Put, Get, RestoredAt, Saved, Independent, KeepsRest, Replaced;
    var pkg := context.pkgPath;
    ghost var before := fs.root;
    BackupPathIsApart(pkg);
    match kind {
      case Install =>
        var files := new StepRecoverFiles(context, fs);
        status := files.RecoveryNew();
        Widen(before, fs.root, pkg, BackupPath(pkg));
      case Update =>
        RecoversItself(before, pkg);
        status := Recover(context, fs);
      case _ =>
        status := RECOVERY_ERROR;
    }
  }

  /** A disk of a recovery: it recovers to the same package exactly when it has lost nothing, and without faults it
      has not. */
  ghost predicate Recovers(before: Node, now: Node, pkg: Path, faulty: bool)
    requires pkg != []
  {
    Laid(now, pkg) && KeepsRest(before, now, pkg) &&
    (!faulty ==> RestoredAt(now, pkg) == RestoredAt(before, pkg)) &&
    (Exists(before, BackupPath(pkg)) ==> (RestoredAt(now, pkg) == RestoredAt(before, pkg) <==> Saved(before, now, pkg)))
  }

  lemma RecoversItself(t: Node, pkg: Path)
    requires Laid(t, pkg)
    ensures Recovers(t, t, pkg, false) && Recovers(t, t, pkg, true)
  {
    forall k | OnlyInPackage(Kids(t, pkg), Kids(t, BackupPath(pkg)), k)
      ensures Lookup(Kids(t, pkg), k) == Some(Kids(t, pkg)[k])
    {
    }
  }

  /** Two disks with the same package and the same backup. */
  predicate SamePackage(a: Node, b: Node, pkg: Path)
    requires pkg != []
  {
    Get(a, pkg) == Get(b, pkg) && Get(a, BackupPath(pkg)) == Get(b, BackupPath(pkg))
  }

  lemma SameKids(a: Node, b: Node, pkg: Path)
    requires pkg != [] && SamePackage(a, b, pkg)
    ensures Kids(a, pkg) == Kids(b, pkg) && Kids(a, BackupPath(pkg)) == Kids(b, BackupPath(pkg))
    ensures Exists(a, BackupPath(pkg)) == Exists(b, BackupPath(pkg)) && Exists(a, pkg) == Exists(b, pkg)
    ensures RestoredAt(a, pkg) == RestoredAt(b, pkg)
    ensures IsDir(a, Parent(pkg)) && IsDir(b, Parent(pkg)) ==> Laid(a, pkg) == Laid(b, pkg)
  {
    hide Get, RestoredKids;
  }

  /** Only the package and its backup matter to a recovery. */
  lemma RecoversFrom(before: Node, before': Node, now: Node, now': Node, pkg: Path, faulty: bool)
    requires pkg != [] && Recovers(before, now, pkg, faulty) && IsDir(now', Parent(pkg))
    requires SamePackage(before, before', pkg) && SamePackage(now, now', pkg)
    ensures Recovers(before', now', pkg, faulty)
    ensures RestoredAt(before', pkg) == RestoredAt(before, pkg)
    ensures Replaced(before', now', pkg, faulty) == Replaced(before, now, pkg, faulty)
  {
    hide Get, RestoredAt, SamePackage, Kids, Independent;
    SameKids(before, before', pkg);
    SameKids(now, now', pkg);
    SavedFrom(before, before', now, now', pkg);
    forall k | k !in STORAGE ensures KeepsEntry(before', now', pkg, k) {
      assert KeepsEntry(before, now, pkg, k);
    }
    assert Get(now, pkg) == Get(now', pkg) by {
      GetOf(now, now', pkg);
    }
    assert IsDir(now, Parent(pkg));
  }

  lemma GetOf(a: Node, b: Node, pkg: Path)
    requires pkg != [] && SamePackage(a, b, pkg)
    ensures Get(a, pkg) == Get(b, pkg)
  {
  }

  lemma SavedFrom(before: Node, before': Node, now: Node, now': Node, pkg: Path)
    requires pkg != [] && SamePackage(before, before', pkg) && SamePackage(now, now', pkg)
    ensures Saved(before', now', pkg) == Saved(before, now, pkg)
  {
    hide Get, Exists, RestoredAt;
    SameKids(before, before', pkg);
    SameKids(now, now', pkg);
  }

  /** A change at the record's file is no change for the package. */
  lemma RecordIsApart(now: Node, later: Node, pkg: Path, file: Path)
    requires file != [] && pkg != [] && Independent(pkg, file) && Independent(BackupPath(pkg), file)
    requires SameOutside(now, later, file)
    ensures SamePackage(now, later, pkg)
    ensures IsDir(later, Parent(pkg)) == IsDir(now, Parent(pkg)) && Laid(later, pkg) == Laid(now, pkg)
  {
    hide Cut, Get;
    SameOutsideGet(now, later, file, pkg);
    SameOutsideGet(now, later, file, BackupPath(pkg));
    NotAboveParent(file, pkg);
    CutKeepsDir(now, file, Parent(pkg));
    CutKeepsDir(later, file, Parent(pkg));
  }

  /** The package that a recovery from the disk t settles on. */
  function Target(t: Node, site: Site, file: Path): Option<Name> {
    Settled(t, site, RecordAt(t, file).pkgid)
  }

  /** A disk on which that package can be looked for. */
  predicate Searchable(t: Node, site: Site, file: Path) {
    Target(t, site, file).Some? ==>
      var pkg := site.PackagePath(Target(t, site, file).value);
      Laid(t, pkg) && Independent(pkg, file) && Independent(BackupPath(pkg), file)
  }

  /** A disk of a recovery of package id, seen from the one it began with. */
  ghost predicate Recovering(before: Node, now: Node, site: Site, file: Path, id: Name, faulty: bool)
    requires file != []
  {
    var r, pkg := RecordAt(before, file), site.PackagePath(id);
    SameElsewhere(before, now, pkg, BackupPath(pkg), file) &&
    (!Exists(now, file) || Rewritten(before, now, r.(pkgid := id), file)) &&
    (r.kind !in {Install, Update} ==> SameOutside(before, now, file)) &&
    (r.kind == Update ==> Recovers(before, now, pkg, faulty))
  }

  /** A disk from the writing of the record. */
  lemma WritingRecovers(before: Node, now: Node, site: Site, file: Path, id: Name, faulty: bool)
    requires file != [] && SameOutside(before, now, file)
    requires Rewritten(before, now, RecordAt(before, file).(pkgid := id), file)
    requires var pkg := site.PackagePath(id);
      Laid(before, pkg) && Independent(pkg, file) && Independent(BackupPath(pkg), file)
    ensures Recovering(before, now, site, file, id, faulty) && Laid(now, site.PackagePath(id))
    ensures IsFile(before, file) ==> IsFile(now, file)
  {
    hide Cut, Get, Recovers, Laid, RecordAt, Text, RestoredAt, SamePackage, Replaced, Independent;
    var pkg := site.PackagePath(id);
    RecordIsApart(before, now, pkg, file);
    RecoversItself(before, pkg);
    LaidHasParent(before, pkg);
    SamePackageItself(before, pkg);
    RecoversFrom(before, before, before, now, pkg, faulty);
    SameOutsideElsewhere(before, now, pkg, file);
  }

  lemma SamePackageItself(t: Node, pkg: Path)
    requires pkg != []
    ensures SamePackage(t, t, pkg)
  {
  }

  lemma LaidHasParent(t: Node, pkg: Path)
    requires Laid(t, pkg)
    ensures IsDir(t, Parent(pkg))
  {
  }

  lemma SameOutsideElsewhere(a: Node, b: Node, pkg: Path, file: Path)
    requires pkg != [] && file != [] && SameOutside(a, b, file)
    ensures SameElsewhere(a, b, pkg, BackupPath(pkg), file)
  {
    forall x: Path | Independent(pkg, x) && Independent(BackupPath(pkg), x) && Independent(file, x)
      ensures Get(a, x) == Get(b, x)
    {
      SameOutsideGet(a, b, file, x);
    }
  }

  lemma ElsewhereTrans(a: Node, b: Node, c: Node, pkg: Path, file: Path)
    requires pkg != [] && SameElsewhere(a, b, pkg, BackupPath(pkg), file)
    requires SameElsewhere(b, c, pkg, BackupPath(pkg), file)
    ensures SameElsewhere(a, c, pkg, BackupPath(pkg), file)
  {
    forall x: Path | Independent(pkg, x) && Independent(BackupPath(pkg), x) && Independent(file, x)
      ensures Get(a, x) == Get(c, x)
    {
      assert Get(a, x) == Get(b, x) == Get(c, x);
    }
  }

  /** A disk from the repairing, behind the disk `parsed` with the record that was written. */
  lemma RepairingRecovers(before: Node, parsed: Node, now: Node, site: Site, file: Path, id: Name, faulty: bool)
    requires file != [] && SameOutside(before, parsed, file)
    requires Rewritten(before, parsed, RecordAt(before, file).(pkgid := id), file)
    requires
      var pkg := site.PackagePath(id);
      Laid(before, pkg) && Independent(pkg, file) && Independent(BackupPath(pkg), file) &&
      SameOutside2(parsed, now, pkg, BackupPath(pkg)) &&
      (RecordAt(before, file).kind !in {Install, Update} ==> now == parsed) &&
      (RecordAt(before, file).kind == Update ==> Recovers(parsed, now, pkg, faulty))
    ensures Recovering(before, now, site, file, id, faulty) && Get(now, file) == Get(parsed, file)
    ensures IsFile(before, file) ==> IsFile(now, file)
    ensures
      var pkg := site.PackagePath(id);
      SamePackage(before, parsed, pkg) && RestoredAt(parsed, pkg) == RestoredAt(before, pkg) &&
      (Replaced(parsed, now, pkg, faulty) && RecordAt(before, file).kind == Update ==>
         Replaced(before, now, pkg, faulty))
  {
    hide Cut, Get, Recovers, Laid, RecordAt, RestoredAt, SamePackage, Replaced, Independent;
    var pkg := site.PackagePath(id);
    RecordIsApart(before, parsed, pkg, file);
    SamePackageItself(now, pkg);
    SameOutside2Get(parsed, now, pkg, BackupPath(pkg), file);
    SameOutsideElsewhere(before, parsed, pkg, file);
    ElsewhereIsSame(parsed, now, pkg, BackupPath(pkg), file);
    ElsewhereTrans(before, parsed, now, pkg, file);
    SamePackageBack(before, parsed, pkg);
    if RecordAt(before, file).kind == Update {
      RecoversLaid(parsed, now, pkg, faulty);
      RecoversFrom(parsed, before, now, now, pkg, faulty);
    }
  }

  lemma SamePackageBack(a: Node, b: Node, pkg: Path)
    requires pkg != [] && SamePackage(a, b, pkg)
    ensures SamePackage(b, a, pkg) && RestoredAt(a, pkg) == RestoredAt(b, pkg)
  {
    SameKids(a, b, pkg);
  }

  lemma RecoversLaid(before: Node, now: Node, pkg: Path, faulty: bool)
    requires pkg != [] && Recovers(before, now, pkg, faulty)
    ensures Laid(now, pkg) && IsDir(now, Parent(pkg))
    ensures !faulty ==> RestoredAt(now, pkg) == RestoredAt(before, pkg)
  {
  }

  /** The end of the run, where the record may be removed. */
  lemma EndRecovers(before: Node, repaired: Node, now: Node, site: Site, file: Path, id: Name, faulty: bool)
    requires file != [] && Recovering(before, repaired, site, file, id, faulty)
    requires SameOutside(repaired, now, file) && (now == repaired || !Exists(now, file))
    requires var pkg := site.PackagePath(id); Independent(pkg, file) && Independent(BackupPath(pkg), file)
    ensures Recovering(before, now, site, file, id, faulty)
    ensures
      var pkg := site.PackagePath(id);
      Get(now, pkg) == Get(repaired, pkg) && Exists(now, pkg) == Exists(repaired, pkg) &&
      Exists(now, BackupPath(pkg)) == Exists(repaired, BackupPath(pkg))
    ensures RecordAt(before, file).kind == Update && Replaced(before, repaired, site.PackagePath(id), faulty) ==>
      Replaced(before, now, site.PackagePath(id), faulty)
  {
    hide Cut, Get, Recovers, Laid, RecordAt, RestoredAt, SamePackage, Replaced, Independent, IsFile, Rewritten;
    var pkg := site.PackagePath(id);
    RecordIsApart(repaired, now, pkg, file);
    SameOutsideElsewhere(repaired, now, pkg, file);
    ElsewhereTrans(before, repaired, now, pkg, file);
    SamePackageItself(before, pkg);
    SameKids(repaired, now, pkg);
    GetOf(repaired, now, pkg);
    if RecordAt(before, file).kind == Update {
      RecoversLaid(before, repaired, pkg, faulty);
      RecoversFrom(before, before, repaired, now, pkg, faulty);
    }
  }

  /** What the disk's record says is what it said, with the id written anew; or nothing but the record has changed,
      and its writing is under way. */
  ghost predicate StillReads(before: Node, now: Node, file: Path, id: Name)
    requires file != []
  {
    RecordAt(now, file) == RecordAt(before, file).(pkgid := id) || SameOutside(before, now, file)
  }

  /** Some disk of the writing has an empty record. */
  ghost predicate Emptied(before: Node, now: Node, file: Path)
    requires file != []
  {
    SameOutside(before, now, file) && FileAt(now, file) == Some("")
  }

  /** The steps between the opening of the record and the end of the run. */
  method RunSteps(context: InstallerContext, fs: FileSystem, site: Site, record: RecoveryFile) returns (status: Status)
    requires fs.Valid() && record.fs == fs && record.path != [] && IsFile(fs.root, record.path)
    requires context.rootApplicationPath == site.appRoot && site.appRoot != []
    requires Record(record.kind, record.unpackedDir, context.pkgid) == RecordAt(fs.root, record.path)
    requires Searchable(fs.root, site, record.path)
    modifies context`pkgid, context`pkgPath, record`pkgid, fs`root, fs`log
    ensures fs.Valid() && old(fs.log) <= fs.log
    ensures
      var id := old(Target(fs.root, site, record.path));
      (status == OK ==> id.Some? && record.kind in {Install, Update}) &&
      (!fs.faulty ==> (status == OK <==> id.Some? && record.kind in {Install, Update})) &&
      (id == None ==> fs.root == old(fs.root) && fs.log == old(fs.log))
    ensures old(Target(fs.root, site, record.path)).Some? ==>
      var id := old(Target(fs.root, site, record.path)).value;
      Recovering(old(fs.root), fs.root, site, record.path, id, fs.faulty) &&
      forall i | |old(fs.log)| <= i < |fs.log| ::
        Recovering(old(fs.root), fs.log[i], site, record.path, id, fs.faulty)
    ensures IsFile(fs.root, record.path)
    ensures forall i | |old(fs.log)| <= i < |fs.log| :: IsFile(fs.log[i], record.path)
    ensures old(Target(fs.root, site, record.path)).Some? && !fs.faulty ==>
      var id := old(Target(fs.root, site, record.path)).value;
      (Fits(Record(record.kind, record.unpackedDir, id)) ==>
         forall i | |old(fs.log)| <= i < |fs.log| :: StillReads(old(fs.root), fs.log[i], record.path, id)) &&
      (old(Located(fs.root, site, context.pkgid)).Some? ==>
         |old(fs.log)| < |fs.log| && Emptied(old(fs.root), fs.log[|old(fs.log)|], record.path))
    ensures old(Target(fs.root, site, record.path)).Some? && !fs.faulty ==>
      var pkg := site.PackagePath(old(Target(fs.root, site, record.path)).value);
      (record.kind == Install ==> !Exists(fs.root, pkg)) &&
      (record.kind == Update ==>
         Get(fs.root, pkg) == old(RestoredAt(fs.root, pkg)) && !Exists(fs.root, BackupPath(pkg)))
    ensures status == OK && record.kind == Update ==>
      var pkg := site.PackagePath(old(Target(fs.root, site, record.path)).value);
      old(Exists(fs.root, BackupPath(pkg))) ==> Replaced(old(fs.root), fs.root, pkg, fs.faulty)
  {
    hide Cut, Put, Get, RestoredAt, RecordAt, Independent, BackupPath, Recovers, Recovering, Rewritten, Settled;
    hide Replaced, SameOutside, SameOutside2, Laid, IsFile, FileAt, Located, SamePackage, Fits;
    ghost var before, file := fs.root, record.path;
    RecordIsRead(before, file);
    var parse := new StepParseManifest(context, fs, site);
    status := parse.Precheck();
    if status != OK {
      NoTarget(before, site);
      return;
    }
    ghost var target := Target(before, site, file);
    NothingRewritten(before, file);
    if target.Some? {
      WritingRecovers(before, before, site, file, target.value, fs.faulty);
    }
    status := parse.Process(record);
    if status != OK {
      return;
    }
    ghost var parsed, m, id, pkg := fs.root, |fs.log|, context.pkgid, context.pkgPath;
    RecordIsApart(before, parsed, pkg, file);
    WritingRecovers(before, parsed, site, file, id, fs.faulty);
    forall i | |old(fs.log)| <= i < m
      ensures Recovering(before, fs.log[i], site, file, id, fs.faulty) && IsFile(fs.log[i], file)
    {
      WritingRecovers(before, fs.log[i], site, file, id, fs.faulty);
    }
    status := Dispatch(record.kind, context, fs);
    RepairingRecovers(before, parsed, fs.root, site, file, id, fs.faulty);
    forall i | m <= i < |fs.log|
      ensures Recovering(before, fs.log[i], site, file, id, fs.faulty) && IsFile(fs.log[i], file)
    {
      RepairingRecovers(before, parsed, fs.log[i], site, file, id, fs.faulty);
    }
    BackupStays(before, parsed, pkg);
    if !fs.faulty && Fits(Record(record.kind, record.unpackedDir, id)) {
      forall i | |old(fs.log)| <= i < |fs.log| ensures StillReads(before, fs.log[i], file, id) {
        if m <= i {
          RepairingRecovers(before, parsed, fs.log[i], site, file, id, fs.faulty);
          SameRecord(parsed, fs.log[i], file);
        }
      }
    }
  }

  lemma SameRecord(a: Node, b: Node, file: Path)
    requires Get(b, file) == Get(a, file)
    ensures RecordAt(b, file) == RecordAt(a, file) && IsFile(b, file) == IsFile(a, file)
  {
    hide Get, Parsed;
  }

  lemma RecordIsRead(t: Node, file: Path)
    ensures var r := RecordAt(t, file); Read(r) && Recorded(r.kind) == r.kind
  {
    ParsedIsRead(FileAt(t, file).GetOr(""));
  }

  lemma BackupStays(a: Node, b: Node, pkg: Path)
    requires pkg != [] && SamePackage(a, b, pkg)
    ensures Exists(a, BackupPath(pkg)) == Exists(b, BackupPath(pkg))
  {
  }

  lemma NoTarget(t: Node, site: Site)
    ensures Settled(t, site, "") == None
  {
  }

  lemma NothingRewritten(t: Node, file: Path)
    requires file != []
    ensures SameOutside(t, t, file) && forall r :: Rewritten(t, t, r, file)
  {
    hide Text;
  }

  /** The whole run of a new process; `others` says how the steps that are not modelled here end.  The record is
      gone only after a recovery that succeeded. */
  method RecoveryRequest(context: InstallerContext, fs: FileSystem, site: Site, file: Path, others: bool, asserts: bool)
    returns (ok: bool)
    requires fs.Valid() && IsFile(fs.root, file) && file != []
    requires context.rootApplicationPath == site.appRoot && site.appRoot != []
    requires Searchable(fs.root, site, file)
    modifies context`pkgid, context`unpackedDirPath, context`pkgPath, fs`root, fs`log
    ensures fs.Valid() && old(fs.log) <= fs.log
    ensures
      var r, id := old(RecordAt(fs.root, file)), old(Target(fs.root, site, file));
      (ok ==> others && id.Some? && r.kind in {Install, Update} && (fs.faulty || !Exists(fs.root, file))) &&
      (!fs.faulty ==> ok == (others && id.Some? && r.kind in {Install, Update})) &&
      (id == None || (asserts && r.kind !in {Install, Update}) ==> fs.root == old(fs.root) && fs.log == old(fs.log))
    ensures old(Target(fs.root, site, file)).Some? ==>
      var id := old(Target(fs.root, site, file)).value;
      Recovering(old(fs.root), fs.root, site, file, id, fs.faulty) &&
      forall i | |old(fs.log)| <= i < |fs.log| ::
        Recovering(old(fs.root), fs.log[i], site, file, id, fs.faulty)
    ensures IsFile(fs.root, file) || ok
    ensures forall i | |old(fs.log)| <= i < |fs.log| :: IsFile(fs.log[i], file) || (ok && fs.log[i] == fs.root)
    ensures old(Target(fs.root, site, file)).Some? && !fs.faulty ==>
      var r, id := old(RecordAt(fs.root, file)), old(Target(fs.root, site, file)).value;
      (Fits(r.(pkgid := id)) ==>
         forall i | |old(fs.log)| <= i < |fs.log| ::
           StillReads(old(fs.root), fs.log[i], file, id) || (ok && fs.log[i] == fs.root)) &&
      (old(Located(fs.root, site, r.pkgid)).Some? && !(asserts && r.kind !in {Install, Update}) ==>
         |old(fs.log)| < |fs.log| && Emptied(old(fs.root), fs.log[|old(fs.log)|], file))
    ensures old(Target(fs.root, site, file)).Some? && !fs.faulty ==>
      var r, pkg := old(RecordAt(fs.root, file)), site.PackagePath(old(Target(fs.root, site, file)).value);
      (r.kind == Install ==> !Exists(fs.root, pkg)) &&
      (r.kind == Update ==>
         Get(fs.root, pkg) == old(RestoredAt(fs.root, pkg)) && !Exists(fs.root, BackupPath(pkg)))
    ensures ok && old(RecordAt(fs.root, file)).kind == Update ==>
      var pkg := site.PackagePath(old(Target(fs.root, site, file)).value);
      old(Exists(fs.root, BackupPath(pkg))) ==> Replaced(old(fs.root), fs.root, pkg, fs.faulty)
  {
    hide Cut, Put, Get, RestoredAt, RecordAt, Independent, BackupPath, Recovers, Recovering, Rewritten, Settled;
    hide Replaced, SameOutside, SameOutside2, StillReads, Emptied, Laid, IsFile, FileAt, Located, SamePackage, Fits;
    ghost var before := fs.root;
    ghost var r := RecordAt(before, file);
    ghost var target := Target(before, site, file);
    if target.Some? {
      NothingRewritten(before, file);
      WritingRecovers(before, before, site, file, target.value, fs.faulty);
    }
    var open := new StepOpenRecoveryFile(context, fs);
    var status, aborted := open.Process(file, asserts);
    if status != OK {
      return false;
    }
    status := RunSteps(context, fs, site, open.recoveryFile);
    ok := status == OK && others;
    if !ok {
      var _ := open.Undo();
    }
    ghost var repaired, n := fs.root, |fs.log|;
    open.recoveryFile.Destroy();
    NothingRewritten(repaired, file);
    if target.Some? {
      EndRecovers(before, repaired, fs.root, site, file, target.value, fs.faulty);
    }
  }

  /** The record on the disk says that package id was being updated. */
  predicate ReadsAs(t: Node, file: Path, id: Name) {
    RecordAt(t, file).kind == Update && RecordAt(t, file).pkgid == id
  }

  /** The manifests that a recovery of package id comes upon name it: the backup's; without one the package's, and
      the installed one where the package has none or may lose it to a backup without. */
  predicate Steady(t: Node, site: Site, id: Name) {
    var pkg := site.PackagePath(id);
    SteadyWith(Get(t, BackupPath(pkg) + [MANIFEST]), Get(t, pkg + [MANIFEST]), Get(t, site.ManifestPath(id)),
               Exists(t, BackupPath(pkg)), site, id)
  }

  predicate SteadyWith(inBackup: Option<Node>, inPackage: Option<Node>, installed: Option<Node>, backup: bool,
                       site: Site, id: Name)
  {
    if inBackup.Some? then Told(inBackup, site) == Some(id)
    else
      (inPackage.Some? ==> Told(inPackage, site) == Some(id)) &&
      (installed.Some? && (backup || inPackage == None) ==> Told(installed, site) == Some(id))
  }

  lemma SteadySettles(t: Node, site: Site, id: Name)
    requires id != "" && Steady(t, site, id)
    ensures Settled(t, site, id) == Some(id)
  {
    hide Get, BackupPath;
  }

  /** The record, the package, its backup and its installed manifest are different places. */
  predicate Sited(site: Site, file: Path, id: Name) {
    var pkg, installed := site.PackagePath(id), site.ManifestPath(id);
    file != [] && id != "" && site.appRoot != [] && Independent(pkg, file) && Independent(BackupPath(pkg), file) &&
    Independent(pkg, installed) && Independent(BackupPath(pkg), installed) && Independent(file, installed)
  }

  lemma EntryAt(t: Node, p: Path, k: Name)
    requires !IsFile(t, p)
    ensures Get(t, p + [k]) == Lookup(Kids(t, p), k)
  {
    GetAppend(t, p, [k]);
  }

  /** What the manifests say stays the same while the package is repaired. */
  lemma SteadyStays(before: Node, now: Node, site: Site, file: Path, id: Name, faulty: bool)
    requires Steady(before, site, id) && Sited(site, file, id) && Laid(before, site.PackagePath(id))
    requires Recovers(before, now, site.PackagePath(id), faulty)
    requires SameElsewhere(before, now, site.PackagePath(id), BackupPath(site.PackagePath(id)), file)
    ensures Steady(now, site, id)
  {
    hide Get, RestoredAt, Saved, Kids, Told, Independent, BackupPath, SameElsewhere, Sited;
    var pkg := site.PackagePath(id);
    EntryAt(before, pkg, MANIFEST);
    EntryAt(before, BackupPath(pkg), MANIFEST);
    EntryAt(now, pkg, MANIFEST);
    EntryAt(now, BackupPath(pkg), MANIFEST);
    assert KeepsEntry(before, now, pkg, MANIFEST);
    InstalledStays(before, now, site, file, id);
    if !Exists(now, BackupPath(pkg)) {
      NoKids(now, BackupPath(pkg));
    }
    if !Exists(before, BackupPath(pkg)) {
      NoKids(before, BackupPath(pkg));
    }
  }

  lemma InstalledStays(before: Node, now: Node, site: Site, file: Path, id: Name)
    requires Sited(site, file, id)
    requires SameElsewhere(before, now, site.PackagePath(id), BackupPath(site.PackagePath(id)), file)
    ensures Get(now, site.ManifestPath(id)) == Get(before, site.ManifestPath(id))
  {
  }

  lemma NoKids(t: Node, p: Path)
    requires !Exists(t, p)
    ensures Kids(t, p) == map[]
  {
  }

  /** What is left of a record of package id after its rewriting was cut short. */
  predicate Torn(t: Node, file: Path, id: Name) {
    RecordAt(t, file).kind in {Update, Unknown} && RecordAt(t, file).pkgid <= id
  }

  lemma RewrittenReads(before: Node, now: Node, file: Path)
    requires Rewritten(before, now, RecordAt(before, file), file)
    ensures RecordAt(now, file).kind in {RecordAt(before, file).kind, Unknown}
    ensures RecordAt(now, file).pkgid <= RecordAt(before, file).pkgid
  {
    hide Get, Parsed, Text;
    var r := RecordAt(before, file);
    if Get(now, file) == Get(before, file) {
      SameRecord(before, now, file);
    } else {
      RecordIsRead(before, file);
      TornWrite(r, FileAt(now, file).value);
      TornPackage(r, FileAt(now, file).value);
    }
  }

  /** A new process on a disk whose record reads as an update of package id, stopped behind any of its changes. */
  method RunAndStop(fs: FileSystem, site: Site, mode: RequestMode, file: Path, id: Name, others: bool, asserts: bool)
    requires fs.Valid() && !fs.faulty && IsFile(fs.root, file) && Sited(site, file, id)
    requires ReadsAs(fs.root, file, id) && Laid(fs.root, site.PackagePath(id)) && Steady(fs.root, site, id)
    modifies fs`root, fs`log
    ensures fs.Valid() && Laid(fs.root, site.PackagePath(id)) && Steady(fs.root, site, id)
    ensures RestoredAt(fs.root, site.PackagePath(id)) == old(RestoredAt(fs.root, site.PackagePath(id)))
    ensures
      SameElsewhere(old(fs.root), fs.root, site.PackagePath(id), BackupPath(site.PackagePath(id)), file)
    ensures IsFile(fs.root, file) || (!Exists(fs.root, file) && !Exists(fs.root, BackupPath(site.PackagePath(id))))
    ensures IsFile(fs.root, file) ==> Torn(fs.root, file, id)
    ensures IsFile(fs.root, file) && old(Fits(RecordAt(fs.root, file))) ==>
      RecordAt(fs.root, file) == old(RecordAt(fs.root, file)) || SameOutside(old(fs.root), fs.root, file)
  {
    hide Cut, Put, Get, RestoredAt, RecordAt, Independent, BackupPath, Recovers, Rewritten, Settled, Steady;
    hide SameOutside, SameOutside2, IsFile, FileAt, Located, SamePackage, Fits, SameElsewhere, Laid, Replaced;
    ghost var before, pkg := fs.root, site.PackagePath(id);
    SteadySettles(before, site, id);
    NothingRewritten(before, file);
    SameOutsideElsewhere(before, before, pkg, file);
    RewrittenReads(before, before, file);
    var started := |fs.log|;
    var context := new InstallerContext(site.appRoot, mode);
    SitedApart(site, file, id);
    var ok := RecoveryRequest(context, fs, site, file, others, asserts);
    if started < |fs.log| {
      ghost var end := fs.root;
      var at :| started <= at < |fs.log|;
      ghost var stop := fs.log[at];
      assert Recovering(before, stop, site, file, id, false);
      RecoversLaid(before, stop, pkg, false);
      SteadyStays(before, stop, site, file, id, false);
      RootOf(stop, Parent(pkg));
      if IsFile(stop, file) {
        FileExists(stop, file);
        RecordOf(before, file, id);
        RewrittenReads(before, stop, file);
      }
      fs.CrashAt(at);
    }
  }

  lemma SitedApart(site: Site, file: Path, id: Name)
    requires Sited(site, file, id)
    ensures Independent(site.PackagePath(id), file) && Independent(BackupPath(site.PackagePath(id)), file)
  {
  }

  lemma FileExists(t: Node, p: Path)
    requires IsFile(t, p)
    ensures Exists(t, p)
  {
  }

  lemma RecordOf(t: Node, file: Path, id: Name)
    requires ReadsAs(t, file, id)
    ensures RecordAt(t, file).(pkgid := id) == RecordAt(t, file)
  {
  }

  /** No beginning of x is id, nor the name of a package that has id's directory for its backup. */
  predicate Foreign(x: Name, id: Name) {
    !(id <= x) && forall n | 0 <= n <= |x| :: x[..n] + ".bck" != id
  }

  /** No package has id's directory for its backup. */
  predicate NoBackupName(id: Name) {
    forall n | 0 <= n <= |id| :: id[..n] + ".bck" != id
  }

  /** The record on the disk leads recovery away from package id. */
  predicate Astray(t: Node, file: Path, id: Name) {
    RecordAt(t, file).kind == Unknown || (RecordAt(t, file).kind == Update && Foreign(RecordAt(t, file).pkgid, id))
  }

  lemma ForeignBeginnings(x: Name, y: Name, id: Name)
    requires Foreign(x, id) && y <= x
    ensures Foreign(y, id)
  {
    assert forall n | 0 <= n <= |y| :: y[..n] == x[..n];
  }

  /** A record that is torn and does not read as this package's leads away from it. */
  lemma TornIsAstray(t: Node, file: Path, id: Name)
    requires Torn(t, file, id) && !ReadsAs(t, file, id) && NoBackupName(id)
    ensures Astray(t, file, id)
  {
    hide RecordAt;
    var x := RecordAt(t, file).pkgid;
    assert forall n | 0 <= n <= |x| :: x[..n] == id[..n];
  }

  lemma Siblings(dir: Path, a: Name, b: Name)
    requires a != b && a + ".bck" != b && a != b + ".bck"
    ensures var p, q := dir + [a], dir + [b];
      Independent(p, q) && Independent(BackupPath(p), q) &&
      Independent(p, BackupPath(q)) && Independent(BackupPath(p), BackupPath(q))
  {
    var p, q := dir + [a], dir + [b];
    var n := |dir|;
    assert p[n] == a && q[n] == b && BackupPath(p)[n] == a + ".bck" && BackupPath(q)[n] == b + ".bck";
    assert (a + ".bck")[..|a|] == a && (b + ".bck")[..|b|] == b;
  }

  /** A disk of a recovery that was led to package x. */
  lemma AstrayStays(before: Node, now: Node, site: Site, file: Path, id: Name, x: Name, faulty: bool)
    requires Sited(site, file, id) && Astray(before, file, id) && x == RecordAt(before, file).pkgid
    requires Recovering(before, now, site, file, x, faulty) && before.Dir?
    ensures SamePackage(before, now, site.PackagePath(id)) && now.Dir?
    ensures Exists(now, file) ==> Astray(now, file, id)
  {
    hide Cut, Get, RecordAt, Recovers, Rewritten, Laid;
    var pkg := site.PackagePath(id);
    var r := RecordAt(before, file);
    assert r.(pkgid := x) == r;
    if r.kind == Unknown {
      RecordIsApart(before, now, pkg, file);
      DirOutside(before, now, file);
    } else {
      RecoversLaid(before, now, site.PackagePath(x), faulty);
      RootOf(now, Parent(site.PackagePath(x)));
      assert x[..|x|] == x;
      assert (id + ".bck")[..|id|] == id;
      Siblings(site.appRoot, x, id);
    }
    if Exists(now, file) {
      RewrittenReads(before, now, file);
      if RecordAt(now, file).kind == Update {
        ForeignBeginnings(x, RecordAt(now, file).pkgid, id);
      }
    }
  }

  lemma DirOutside(a: Node, b: Node, p: Path)
    requires p != [] && SameOutside(a, b, p) && a.Dir?
    ensures b.Dir?
  {
  }

  /** New processes on a disk whose record leads them away from package id, stopped anywhere: they leave it and its
      backup alone, and so does the one that follows, as long as the manifests they find name the packages they are
      looked for. */
  method LeaveAlone(fs: FileSystem, site: Site, mode: RequestMode, file: Path, id: Name, crashes: nat, others: bool,
                    asserts: bool)
    requires fs.Valid() && !fs.faulty && IsFile(fs.root, file) && Sited(site, file, id) && Astray(fs.root, file, id)
    modifies fs`root, fs`log
    ensures fs.Valid() && SamePackage(old(fs.root), fs.root, site.PackagePath(id))
    ensures IsFile(fs.root, file) ==> Astray(fs.root, file, id)
  {
    hide Cut, Put, Get, RecordAt, Independent, BackupPath, Recovers, Recovering, Rewritten, Settled, Sited;
    hide SameOutside, IsFile, FileAt, Located, SamePackage, Fits, Searchable, Astray, RestoredAt, Replaced;
    ghost var before, pkg := fs.root, site.PackagePath(id);
    SamePackageItself(before, pkg);
    SiteFits(site, file, id);
    var n := 0;
    while n < crashes && IsFile(fs.root, file) && Searchable(fs.root, site, file) &&
      Target(fs.root, site, file) in {None, Some(RecordAt(fs.root, file).pkgid)}
      invariant fs.Valid() && SamePackage(before, fs.root, pkg)
      invariant IsFile(fs.root, file) ==> Astray(fs.root, file, id)
    {
      ghost var start := fs.root;
      var started := |fs.log|;
      var context := new InstallerContext(site.appRoot, mode);
      var ok := RecoveryRequest(context, fs, site, file, others, asserts);
      if started < |fs.log| {
        var at :| started <= at < |fs.log|;
        ghost var stop := fs.log[at];
        AstrayStays(start, stop, site, file, id, RecordAt(start, file).pkgid, false);
        SamePackageTrans(before, start, stop, pkg);
        if IsFile(stop, file) {
          FileExists(stop, file);
        }
        fs.CrashAt(at);
      }
      n := n + 1;
    }
  }

  lemma SamePackageTrans(a: Node, b: Node, c: Node, pkg: Path)
    requires pkg != [] && SamePackage(a, b, pkg) && SamePackage(b, c, pkg)
    ensures SamePackage(a, c, pkg)
  {
  }

  lemma SiteFits(site: Site, file: Path, id: Name)
    requires Sited(site, file, id)
    ensures site.appRoot != [] && file != []
  {
  }

  /** A new process was stopped while it wrote the record anew, and what it left does not read as package id's. */
  ghost predicate Forgotten(stops: seq<Node>, file: Path, id: Name) {
    stops != [] && IsFile(stops[|stops| - 1], file) && !ReadsAs(stops[|stops| - 1], file, id)
  }

  /** What new processes make of a disk whose record reads as an update of package id: any number of them are
      stopped, anywhere, and one is not.  The package comes back if and only if none of them was stopped at a record
      that does not read so any more; otherwise it stays with its backup as it was then. */
  method RecoverAnew(fs: FileSystem, site: Site, mode: RequestMode, file: Path, id: Name, crashes: nat, others: bool,
                     asserts: bool)
    returns (ghost stops: seq<Node>)
    requires fs.Valid() && !fs.faulty && IsFile(fs.root, file) && Sited(site, file, id)
    requires ReadsAs(fs.root, file, id) && Laid(fs.root, site.PackagePath(id)) && Steady(fs.root, site, id)
    modifies fs`root, fs`log
    ensures |stops| <= crashes && forall i | 0 <= i < |stops| - 1 :: ReadsAs(stops[i], file, id)
    ensures forall i | 0 <= i < |stops| ::
      RestoredAt(stops[i], site.PackagePath(id)) == old(RestoredAt(fs.root, site.PackagePath(id)))
    ensures !Forgotten(stops, file, id) ==>
      var pkg := site.PackagePath(id);
      Get(fs.root, pkg) == old(RestoredAt(fs.root, pkg)) && !Exists(fs.root, BackupPath(pkg)) &&
      (others ==> !Exists(fs.root, file)) &&
      SameElsewhere(old(fs.root), fs.root, pkg, BackupPath(pkg), file)
    ensures Forgotten(stops, file, id) && NoBackupName(id) ==>
      SamePackage(stops[|stops| - 1], fs.root, site.PackagePath(id))
    ensures stops != [] && NoBackupName(id) && Exists(stops[|stops| - 1], BackupPath(site.PackagePath(id))) ==>
      (!Exists(fs.root, BackupPath(site.PackagePath(id))) <==> !Forgotten(stops, file, id))
  {
    hide Cut, Put, Get, RecordAt, Independent, BackupPath, Recovers, Recovering, Rewritten, Settled, Steady;
    hide SameOutside, FileAt, Located, SamePackage, Fits, Searchable, Astray, RestoredAt, Replaced, Laid, Torn;
    hide SameElsewhere, ReadsAs;
    ghost var before, pkg := fs.root, site.PackagePath(id);
    SiteFits(site, file, id);
    ElsewhereItself(before, pkg, file);
    var n := 0;
    stops := [];
    while n < crashes && IsFile(fs.root, file) && ReadsAs(fs.root, file, id)
      invariant fs.Valid() && Laid(fs.root, pkg) && Steady(fs.root, site, id) && |stops| == n <= crashes
      invariant RestoredAt(fs.root, pkg) == RestoredAt(before, pkg)
      invariant SameElsewhere(before, fs.root, pkg, BackupPath(pkg), file)
      invariant IsFile(fs.root, file) || (!Exists(fs.root, file) && !Exists(fs.root, BackupPath(pkg)))
      invariant if stops == [] then fs.root == before
        else fs.root == stops[|stops| - 1] && (IsFile(fs.root, file) ==> Torn(fs.root, file, id))
      invariant forall i | 0 <= i < |stops| :: RestoredAt(stops[i], pkg) == RestoredAt(before, pkg)
      invariant forall i | 0 <= i < |stops| - 1 :: ReadsAs(stops[i], file, id)
    {
      ghost var start := fs.root;
      RunAndStop(fs, site, mode, file, id, others, asserts);
      ElsewhereTrans(before, start, fs.root, pkg, file);
      stops := stops + [fs.root];
      n := n + 1;
    }
    ghost var last := fs.root;
    if !IsFile(fs.root, file) {
      NoBackup(fs.root, pkg);
    } else if ReadsAs(fs.root, file, id) {
      RunToTheEnd(fs, site, mode, file, id, others, asserts);
      ElsewhereTrans(before, last, fs.root, pkg, file);
    } else if NoBackupName(id) {
      TornIsAstray(last, file, id);
      LeaveAlone(fs, site, mode, file, id, crashes - n, others, asserts);
      BackupStays(last, fs.root, pkg);
    }
  }

  lemma ElsewhereItself(t: Node, pkg: Path, file: Path)
    requires pkg != []
    ensures SameElsewhere(t, t, pkg, BackupPath(pkg), file)
  {
  }

  /** The process that nobody stops. */
  method RunToTheEnd(fs: FileSystem, site: Site, mode: RequestMode, file: Path, id: Name, others: bool, asserts: bool)
    requires fs.Valid() && !fs.faulty && IsFile(fs.root, file) && Sited(site, file, id)
    requires ReadsAs(fs.root, file, id) && Laid(fs.root, site.PackagePath(id)) && Steady(fs.root, site, id)
    modifies fs`root, fs`log
    ensures
      var pkg := site.PackagePath(id);
      Get(fs.root, pkg) == old(RestoredAt(fs.root, pkg)) && !Exists(fs.root, BackupPath(pkg)) &&
      (others ==> !Exists(fs.root, file)) &&
      SameElsewhere(old(fs.root), fs.root, pkg, BackupPath(pkg), file)
  {
    hide Cut, Put, Get, RestoredAt, RecordAt, Independent, BackupPath, Recovers, Rewritten, Settled, Steady;
    hide SameOutside, IsFile, FileAt, Located, SamePackage, Fits, SameElsewhere, Laid, Replaced;
    SteadySettles(fs.root, site, id);
    SitedApart(site, file, id);
    var context := new InstallerContext(site.appRoot, mode);
    var _ := RecoveryRequest(context, fs, site, file, others, asserts);
  }

  /** Such a record: the machine stops behind the first change of a recovery that found a manifest.  The record is
      empty then, and no later process looks for the package. */
  method LoseRecord(fs: FileSystem, site: Site, mode: RequestMode, file: Path, id: Name, crashes: nat, others: bool,
                    asserts: bool)
    requires fs.Valid() && !fs.faulty && IsFile(fs.root, file) && Sited(site, file, id)
    requires ReadsAs(fs.root, file, id) && Laid(fs.root, site.PackagePath(id)) && Steady(fs.root, site, id)
    requires Located(fs.root, site, id).Some?
    modifies fs`root, fs`log
    ensures SamePackage(old(fs.root), fs.root, site.PackagePath(id))
  {
    hide Cut, Put, Get, RestoredAt, RecordAt, Independent, BackupPath, Recovers, Recovering, Rewritten, Settled, Steady;
    hide SameOutside, IsFile, FileAt, Located, SamePackage, Fits, SameElsewhere, Laid, Replaced;
    ghost var before, pkg := fs.root, site.PackagePath(id);
    SteadySettles(fs.root, site, id);
    SitedApart(site, file, id);
    var at := |fs.log|;
    var context := new InstallerContext(site.appRoot, mode);
    var _ := RecoveryRequest(context, fs, site, file, others, asserts);
    ghost var stop := fs.log[at];
    EmptyIsAstray(before, stop, site, file, id);
    fs.CrashAt(at);
    LeaveAlone(fs, site, mode, file, id, crashes, others, asserts);
    SamePackageTrans(before, stop, fs.root, pkg);
  }

  lemma EmptyIsAstray(before: Node, now: Node, site: Site, file: Path, id: Name)
    requires Sited(site, file, id) && before.Dir? && Emptied(before, now, file)
    ensures IsFile(now, file) && Astray(now, file, id) && now.Dir?
    ensures SamePackage(before, now, site.PackagePath(id))
  {
    hide Cut, Get;
    RecordIsApart(before, now, site.PackagePath(id), file);
    DirOutside(before, now, file);
  }
}
