/** A whole update of a package's files: StepConfigure's record, StepCopyBackup, StepCopyStorageDirectories
    and any later steps, run forwards, and then undone in reverse or cleaned in order; and what a new process
    makes of the disk when it stops on the way. */
module UpdateRun {
  import opened FileTree
  import opened FileSystem
  import opened PackageTrees
  import opened CopyBackup
  import opened StorageDirectories
  import opened Repair
  import RecoveryFile
  import RecoveryRun

  datatype Result = DONE | FAILED | CLEANUP_ERROR | UNDO_ERROR

  /** The packages r that an interrupted update of o by u may come back to: o, where a storage directory
      that had already been merged with the new one stays merged, and where o has none, the new one may
      have slipped in. */
  ghost predicate Acceptable(r: map<Name, Node>, o: map<Name, Node>, u: map<Name, Node>) {
    forall k ::
      if k in STORAGE then
        if k in o then Lookup(r, k) in {Some(o[k]), Some(Moved(o[k], Lookup(u, k)))} else (k in r ==> k in u)
      else Lookup(r, k) == Lookup(o, k)
  }

  /** A package p0 that holds the new content u, and possibly files that could not be moved out. */
  ghost predicate Loaded(p0: map<Name, Node>, o: map<Name, Node>, u: map<Name, Node>) {
    p0.Keys <= o.Keys + u.Keys &&
    forall k | k in STORAGE && k in o :: Moved(o[k], Lookup(p0, k)) == Moved(o[k], Lookup(u, k))
  }

  /** Merging the new storage directories into the old ones would change nothing. */
  predicate NothingToMerge(o: map<Name, Node>, u: map<Name, Node>) {
    forall k | k in STORAGE && k in u :: k in o && GainsNothing(o, u, k)
  }

  /** The old storage directory holds all that the new one has; a file stays itself whatever it is moved over. */
  predicate GainsNothing(o: map<Name, Node>, u: map<Name, Node>, k: Name)
    requires k in o
  {
    o[k].File? || (k in u ==> Contained(u[k], o[k]))
  }

  /** Only then is the old package the only one that can come back; a new version without data/ and shared/
      is such a case. */
  lemma OldPackageExactly(o: map<Name, Node>, u: map<Name, Node>)
    ensures (forall r | Acceptable(r, o, u) :: r == o) <==> NothingToMerge(o, u)
    ensures STORAGE !! u.Keys ==> NothingToMerge(o, u)
  {
    forall k | k in o ensures Moved(o[k], Lookup(u, k)) == o[k] <==> GainsNothing(o, u, k) {
      MovedIsSource(o[k], Lookup(u, k));
    }
    if NothingToMerge(o, u) {
      forall r | Acceptable(r, o, u) ensures r == o {
        forall k ensures Lookup(r, k) == Lookup(o, k) {
        }
        SameLookups(r, o);
      }
    } else {
      var k :| k in STORAGE && k in u && !(k in o && GainsNothing(o, u, k));
      var r := o[k := if k in o then Moved(o[k], Lookup(u, k)) else u[k]];
      assert Acceptable(r, o, u) && (k in o ==> r[k] != o[k]);
      assert r != o;
    }
  }

  /** The old package with its storage directories merged, new over old. */
  function Merged(o: map<Name, Node>, u: map<Name, Node>): map<Name, Node> {
    map k | k in o :: if k in STORAGE then Moved(o[k], Lookup(u, k)) else o[k]
  }

  /** That is the old package itself if and only if its storage directories already hold all the new ones have. */
  lemma MergedIsOld(o: map<Name, Node>, u: map<Name, Node>)
    ensures Merged(o, u) == o <==> forall k | k in STORAGE && k in o :: GainsNothing(o, u, k)
  {
    forall k | k in o ensures Moved(o[k], Lookup(u, k)) == o[k] <==> GainsNothing(o, u, k) {
      MovedIsSource(o[k], Lookup(u, k));
    }
    if Merged(o, u) == o {
      forall k | k in STORAGE && k in o ensures Moved(o[k], Lookup(u, k)) == o[k] {
        assert Merged(o, u)[k] == Moved(o[k], Lookup(u, k));
      }
    }
  }

  /** A backup that has handed its storage directories over, and a package that has them merged. */
  lemma DeliveredRestores(p: map<Name, Node>, b: map<Name, Node>, o: map<Name, Node>, u: map<Name, Node>)
    requires forall k | k in STORAGE :: k !in b && k in o && Lookup(p, k) == Some(Moved(o[k], Lookup(u, k)))
    requires forall k | k !in STORAGE :: Lookup(b, k) == Lookup(o, k)
    ensures RestoredKids(p, b) == Merged(o, u)
  {
    forall k ensures Lookup(RestoredKids(p, b), k) == Lookup(Merged(o, u), k) {
      assert k in STORAGE ==> Lookup(p, k).Some? && k in p;
      assert k !in STORAGE ==> (Lookup(b, k).Some? <==> Lookup(o, k).Some?);
    }
    SameLookups(RestoredKids(p, b), Merged(o, u));
  }

  /** Every file of the old storage directory that the new one does not claim is in the delivered one, and
      nothing else comes from the old one. */
  lemma UserFileSurvives(old': Node, new': Option<Node>, q: Path)
    requires old'.Dir?
    ensures FileAt(Moved(old', new'), q) ==
      if new'.Some? && Claims(new'.value, q) then FileAt(new'.value, q) else FileAt(old', q)
  {
    if new'.Some? {
      MergeFileAt(old', new'.value, q);
    }
  }

  /** What a run without faults comes back to: the old package, where a storage directory that was delivered stays
      merged, and one that only the new version has slips in. */
  function ComesBack(o: map<Name, Node>, u: map<Name, Node>, mode: RequestMode): map<Name, Node> {
    map k | k in o.Keys + STORAGE && (k in o || k in u) ::
      if k !in o then u[k]
      else if k in STORAGE && mode == USER && Goes(u, o, k) then Moved(o[k], Lookup(u, k))
      else o[k]
  }

  /** That is the old package if and only if every storage directory that is delivered already holds all the new
      one has, and the new version has none that the old one lacks. */
  lemma ComesBackIff(o: map<Name, Node>, u: map<Name, Node>, mode: RequestMode)
    ensures ComesBack(o, u, mode) == o <==>
      forall k | k in STORAGE ::
        if k in o then mode == USER && Goes(u, o, k) ==> GainsNothing(o, u, k) else k !in u
  {
    forall k | k in o ensures Moved(o[k], Lookup(u, k)) == o[k] <==> GainsNothing(o, u, k) {
      MovedIsSource(o[k], Lookup(u, k));
    }
    var r := ComesBack(o, u, mode);
    if r == o {
      forall k | k in STORAGE
        ensures if k in o then mode == USER && Goes(u, o, k) ==> GainsNothing(o, u, k) else k !in u
      {
        assert k in r <==> k in o;
      }
    } else {
      if forall k | k in STORAGE ::
        if k in o then mode == USER && Goes(u, o, k) ==> GainsNothing(o, u, k) else k !in u
      {
        forall k ensures Lookup(r, k) == Lookup(o, k) {}
        SameLookups(r, o);
      }
    }
  }

  /** Without faults the second step delivers the storage directories u of the new version into those of o. */
  predicate StorageGoes(o: map<Name, Node>, u: map<Name, Node>, mode: RequestMode) {
    mode == USER ==>
      (forall k | k in STORAGE :: CanMove(Lookup(o, k), Lookup(u, k), true)) && (CACHE in u ==> u[CACHE].Dir?)
  }

  /** A package and its backup when the second step has ended, however it did. */
  lemma TravelledComesBack(p: map<Name, Node>, b: map<Name, Node>, o: map<Name, Node>, u: map<Name, Node>,
                           mode: RequestMode)
    requires forall k | k !in STORAGE :: Lookup(b, k) == Lookup(o, k)
    requires if mode == USER then forall k | k in STORAGE :: Travelled(u, o, p, b, k)
      else forall k | k in STORAGE :: Lookup(b, k) == Lookup(o, k) && Lookup(p, k) == Lookup(u, k)
    ensures RestoredKids(p, b) == ComesBack(o, u, mode)
  {
    forall k ensures Lookup(RestoredKids(p, b), k) == Lookup(ComesBack(o, u, mode), k) {
      Present(b, k);
      Present(p, k);
      Present(o, k);
      Present(u, k);
    }
    SameLookups(RestoredKids(p, b), ComesBack(o, u, mode));
  }

  lemma AcceptableStart(p: map<Name, Node>, o: map<Name, Node>, u: map<Name, Node>)
    requires p.Keys <= o.Keys + u.Keys
    ensures Acceptable(RestoredKids(p, o), o, u)
  {
  }

  lemma OldIsAcceptable(o: map<Name, Node>, u: map<Name, Node>)
    ensures Acceptable(o, o, u)
  {
  }

  lemma AcceptableFlight(p0: map<Name, Node>, p: map<Name, Node>, b: map<Name, Node>, o: map<Name, Node>,
                         u: map<Name, Node>)
    requires Loaded(p0, o, u) && InFlight(p0, o, p, b)
    ensures Acceptable(RestoredKids(p, b), o, u)
  {
    var r := RestoredKids(p, b);
    forall k
      ensures if k in STORAGE then
        if k in o then Lookup(r, k) in {Some(o[k]), Some(Moved(o[k], Lookup(u, k)))} else (k in r ==> k in u)
        else Lookup(r, k) == Lookup(o, k)
    {
      assert Lookup(b, k).Some? == (k in b) && Lookup(o, k).Some? == (k in o);
      if k in STORAGE && k !in b {
        assert Lookup(p, k).Some? == (k in p);
      }
    }
  }

  /** RestoredKids looks at nothing but the package's storage directories. */
  lemma OnlyStorageMatters(p: map<Name, Node>, p': map<Name, Node>, b: map<Name, Node>)
    requires forall k | k in STORAGE :: Lookup(p, k) == Lookup(p', k)
    ensures RestoredKids(p, b) == RestoredKids(p', b)
  {
    forall k ensures Lookup(RestoredKids(p, b), k) == Lookup(RestoredKids(p', b), k) {
      assert k in STORAGE ==> Lookup(p, k) == Lookup(p', k);
      assert k in STORAGE ==> (Lookup(p, k).Some? == (k in p) && Lookup(p', k).Some? == (k in p'));
    }
    SameLookups(RestoredKids(p, b), RestoredKids(p', b));
  }

  /** New content merged over what Backup() could not move out. */
  lemma LoadedPackage(o: map<Name, Node>, u: Node, left: map<Name, Node>)
    requires u.Dir? && Leftovers(left, o)
    ensures Loaded(Merge(u, Dir(left)).kids, o, u.kids)
  {
    var p0 := Merge(u, Dir(left)).kids;
    forall k | k in STORAGE && k in o
      ensures Moved(o[k], Lookup(p0, k)) == Moved(o[k], Lookup(u.kids, k))
    {
      if o[k].Dir? {
        assert k !in left;
        assert Lookup(p0, k) == Lookup(u.kids, k);
      }
    }
  }

  lemma HolderOf(t: Node, p: Path)
    requires p != [] && Exists(t, p)
    ensures IsDir(t, Parent(p))
  {
    GetAppend(t, Parent(p), [Last(p)]);
    assert p == Parent(p) + [Last(p)];
  }

  class UpdateRun {
    const context: InstallerContext
    const fs: FileSystem
    const pkg: Path
    const recordPath: Path
    const copyBackup: StepCopyBackup
    const copyStorage: StepCopyStorageDirectories
    ghost const o: map<Name, Node>
    ghost const u: map<Name, Node>
    /** The entries of the package that later steps may write to. */
    const touched: set<Name>
    /** The record's file as the run's first steps leave it. */
    ghost var written: Option<Node>

    constructor (context: InstallerContext, fs: FileSystem, recordPath: Path, touched: set<Name>)
      requires fs.Valid()
      requires context.rootApplicationPath != []
      ensures this.context == context && this.fs == fs && this.recordPath == recordPath && this.touched == touched
      ensures pkg == context.rootApplicationPath + [context.pkgid]
      ensures o == Kids(fs.root, pkg) && u == Kids(fs.root, context.unpackedDirPath)
      ensures fresh(copyBackup) && copyBackup.context == context && copyBackup.fs == fs
      ensures fresh(copyStorage) && copyStorage.context == context && copyStorage.fs == fs
    {
      this.context, this.fs, this.recordPath, this.touched := context, fs, recordPath, touched;
      pkg := context.rootApplicationPath + [context.pkgid];
      copyBackup := new StepCopyBackup(context, fs);
      copyStorage := new StepCopyStorageDirectories(context, fs);
      o := Kids(fs.root, context.rootApplicationPath + [context.pkgid]);
      u := Kids(fs.root, context.unpackedDirPath);
      written := None;
    }

    /** The paths of the run, as the steps before it set them; all different places. */
    ghost predicate Placed()
      reads this, context
    {
      context.pkgid != "" && context.rootApplicationPath != [] &&
      pkg == context.rootApplicationPath + [context.pkgid] &&
      touched !! STORAGE && recordPath != [] &&
      var unpacked, backup := context.unpackedDirPath, BackupPath(pkg);
      copyBackup.context == copyStorage.context == context && copyBackup.fs == copyStorage.fs == fs &&
      Independent(unpacked, pkg) && Independent(unpacked, backup) &&
      Independent(recordPath, pkg) && Independent(recordPath, backup) && Independent(recordPath, unpacked)
    }

    /** A repair of the disk t would give an acceptable package. */
    ghost predicate Restorable(t: Node)
      requires pkg != []
      reads this
    {
      Laid(t, pkg) &&
      RestoredAt(t, pkg).Some? && RestoredAt(t, pkg).value.Dir? && Acceptable(RestoredAt(t, pkg).value.kids, o, u)
    }

    /** The disk t has the record, as it was written, and recovers to an acceptable package. */
    ghost predicate Recoverable(t: Node)
      requires pkg != []
      reads this
    {
      Restorable(t) && Get(t, recordPath) == written && IsFile(t, recordPath)
    }

    /** The package is in its backup, or half in it, and no record says so: nobody is going to repair it. */
    ghost predicate Orphaned(t: Node)
      requires pkg != []
      reads this
    {
      Restorable(t) && !Exists(t, recordPath) && Exists(t, BackupPath(pkg))
    }

    ghost predicate BothThere(t: Node)
      requires pkg != []
      reads this
    {
      IsDir(t, Parent(pkg)) && IsDir(t, pkg) && IsDir(t, BackupPath(pkg)) &&
      Get(t, recordPath) == written && IsFile(t, recordPath)
    }

    lemma RecoverableNow(t: Node)
      requires pkg != [] && BothThere(t)
      ensures Recoverable(t) <==> Acceptable(RestoredKids(Kids(t, pkg), Kids(t, BackupPath(pkg))), o, u)
      ensures Laid(t, pkg)
    {
    }

    /** The package is the new content, which has gone from where it was unpacked, over the files that Backup()
        copied but could not remove. */
    ghost predicate Arrived(t: Node, left: map<Name, Node>)
      reads this, fs`faulty, context`unpackedDirPath
    {
      !Exists(t, context.unpackedDirPath) &&
      Leftovers(left, o) && (!fs.faulty ==> left == map[]) && Kids(t, pkg) == Merge(Dir(u), Dir(left)).kids
    }

    method ProcessBackup() returns (status: Status, saved: nat)
      requires Placed() && fs.Valid()
      requires IsDir(fs.root, Parent(pkg)) && IsDir(fs.root, pkg) && !Exists(fs.root, BackupPath(pkg))
      requires IsFile(fs.root, recordPath) && Get(fs.root, recordPath) == written
      requires o == Kids(fs.root, pkg) && u == Kids(fs.root, context.unpackedDirPath)
      modifies fs`root, fs`log, copyBackup, context`pkgPath
      ensures Placed() && copyBackup.Ready() && context.pkgPath == pkg && copyBackup.installPath == pkg
      ensures old(fs.log) <= fs.log && |old(fs.log)| <= saved <= |fs.log|
      ensures forall i | saved <= i < |fs.log| :: Recoverable(fs.log[i])
      ensures saved < |fs.log| ==> BothThere(fs.root) && Recoverable(fs.root) && Kids(fs.root, BackupPath(pkg)) == o
      ensures saved == |fs.log| ==> status != OK && fs.faulty
      ensures status == OK ==> exists left :: Arrived(fs.root, left)
      ensures !fs.faulty ==> (status == OK <==> old(IsDir(fs.root, context.unpackedDirPath)))
    {
      hide Cut, Put, Get, RestoredKids, Acceptable, Loaded;
      var _ := copyBackup.Precheck();
      BackupPathIsApart(pkg);
      status, saved := copyBackup.Process();
      forall i | |old(fs.log)| <= i < |fs.log| ensures Get(fs.log[i], recordPath) == written {
        assert SameElsewhere(old(fs.root), fs.log[i], pkg, BackupPath(pkg), context.unpackedDirPath);
      }
      if status == OK {
        ghost var left :| Leftovers(left, o) && (!fs.faulty ==> left == map[]) &&
          Get(fs.root, pkg) == Some(Merge(old(Get(fs.root, context.unpackedDirPath).value), Dir(left)));
        assert old(Get(fs.root, context.unpackedDirPath).value) == Dir(u);
        assert Arrived(fs.root, left);
      }
      forall i | saved <= i < |fs.log| ensures Recoverable(fs.log[i]) && BothThere(fs.log[i]) {
        HolderOf(fs.log[i], pkg);
        AcceptableStart(Kids(fs.log[i], pkg), o, u);
        RecoverableNow(fs.log[i]);
      }
    }

    /** After the first step: the backup is the old package and the new content is in place. */
    ghost predicate Swapped(t: Node, left: map<Name, Node>)
      requires pkg != []
      reads this, fs`faulty, context`unpackedDirPath
    {
      BothThere(t) && Recoverable(t) && Kids(t, BackupPath(pkg)) == o && Arrived(t, left)
    }

    /** The package of a successful update, with nothing left where it was unpacked: the new content, with the
        user's storage directories merged into it in USER mode.  Only the entries in `except` may be anything. */
    ghost predicate Delivered(t: Node, left: map<Name, Node>, except: set<Name>)
      reads this, context
    {
      var p0, p := Merge(Dir(u), Dir(left)).kids, Kids(t, pkg);
      IsDir(t, pkg) && !Exists(t, context.unpackedDirPath) &&
      if context.requestMode == USER then
        (forall k | k in STORAGE :: k in o && Lookup(p, k) == Some(Moved(o[k], Lookup(u, k)))) &&
        (forall k | k !in STORAGE && k != CACHE && k !in except :: Lookup(p, k) == Lookup(p0, k)) &&
        (CACHE !in except ==> Lookup(p, CACHE) == Some(if CACHE in p0 then p0[CACHE] else EmptyDir))
      else
        forall k | k !in except :: Lookup(p, k) == Lookup(p0, k)
    }

    /** A disk that differs from a recoverable one only in how far the storage directories have travelled. */
    lemma FlightIsRecoverable(before: Node, now: Node, left: map<Name, Node>)
      requires Placed() && Swapped(before, left) && context.pkgPath == pkg
      requires copyStorage.backupPath == BackupPath(pkg) && copyStorage.Travelling(before, now)
      ensures BothThere(now) && Recoverable(now)
      ensures Get(now, context.unpackedDirPath) == Get(before, context.unpackedDirPath)
    {
      hide Cut, Put, Get, RestoredKids, InFlight, Acceptable, Loaded;
      BackupPathIsApart(pkg);
      HolderOf(now, pkg);
      SameOutside2Get(before, now, pkg, BackupPath(pkg), recordPath);
      SameOutside2Get(before, now, pkg, BackupPath(pkg), context.unpackedDirPath);
      LoadedPackage(o, Dir(u), left);
      AcceptableFlight(Kids(before, pkg), Kids(now, pkg), Kids(now, BackupPath(pkg)), o, u);
      RecoverableNow(now);
    }

    /** What a rollback from t makes of the package. */
    function Restores(t: Node): map<Name, Node>
      requires pkg != []
    {
      RestoredKids(Kids(t, pkg), Kids(t, BackupPath(pkg)))
    }

    method ProcessStorage(ghost left: map<Name, Node>) returns (status: Status)
      requires Placed() && fs.Valid() && context.pkgPath == pkg && Swapped(fs.root, left)
      modifies fs`root, fs`log, copyStorage
      ensures fs.Valid() && old(fs.log) <= fs.log && copyStorage.backupPath == BackupPath(pkg)
      ensures BothThere(fs.root) && Recoverable(fs.root)
      ensures forall i | |old(fs.log)| <= i < |fs.log| :: Recoverable(fs.log[i])
      ensures status == OK ==> Delivered(fs.root, left, {})
      ensures status == OK && context.requestMode == USER ==> Restores(fs.root) == Merged(o, u)
      ensures !fs.faulty ==> Restores(fs.root) == ComesBack(o, u, context.requestMode)
      ensures !fs.faulty ==> (status == OK <==> StorageGoes(o, u, context.requestMode))
    {
      hide Cut, Put, Get, RestoredKids, Acceptable, Loaded, Travelled, InFlight, Delivered;
      MergeIntoEmpty(Dir(u));
      BackupThere(fs.root);
      status := copyStorage.Precheck();
      if status != OK {
        return;
      }
      status := copyStorage.Process();
      FlightIsRecoverable(old(fs.root), fs.root, left);
      forall i | |old(fs.log)| <= i < |fs.log| ensures Recoverable(fs.log[i]) {
        FlightIsRecoverable(old(fs.root), fs.log[i], left);
      }
      if status == OK {
        LoadedPackage(o, Dir(u), left);
        ItemsDelivered(old(fs.root), fs.root, left);
      }
      if !fs.faulty {
        ItemsTravelled(old(fs.root), fs.root);
      }
    }

    lemma BackupThere(t: Node)
      requires pkg != [] && BothThere(t)
      ensures Exists(t, BackupPath(pkg))
    {
    }

    lemma ItemsDelivered(before: Node, now: Node, left: map<Name, Node>)
      requires pkg != [] && Swapped(before, left) && Loaded(Kids(before, pkg), o, u) && IsDir(now, pkg)
      requires Get(now, context.unpackedDirPath) == Get(before, context.unpackedDirPath)
      requires var p0, p, b := Kids(before, pkg), Kids(now, pkg), Kids(now, BackupPath(pkg));
        InFlight(p0, o, p, b) &&
        if context.requestMode == USER then
          (forall k | k in STORAGE :: k in o && k !in b && Lookup(p, k) == Some(Moved(o[k], Lookup(p0, k)))) &&
          Lookup(p, CACHE) == Some(if CACHE in p0 then p0[CACHE] else EmptyDir)
        else now == before
      ensures Delivered(now, left, {})
      ensures context.requestMode == USER ==> Restores(now) == Merged(o, u)
    {
      hide Cut, Put, Get, RestoredKids;
      if context.requestMode == USER {
        DeliveredRestores(Kids(now, pkg), Kids(now, BackupPath(pkg)), o, u);
      }
    }

    lemma ItemsTravelled(before: Node, now: Node)
      requires pkg != [] && Swapped(before, map[])
      requires var p0, p, b := Kids(before, pkg), Kids(now, pkg), Kids(now, BackupPath(pkg));
        InFlight(p0, o, p, b) &&
        if context.requestMode == USER then forall k | k in STORAGE :: Travelled(p0, o, p, b, k) else now == before
      ensures Restores(now) == ComesBack(o, u, context.requestMode)
    {
      hide Cut, Put, Get, RestoredKids, Travelled;
      MergeIntoEmpty(Dir(u));
      TravelledComesBack(Kids(now, pkg), Kids(now, BackupPath(pkg)), o, u, context.requestMode);
    }

    /** b is a after steps that leave the storage directories, the backup and the record alone and unpack nothing. */
    predicate KeepsStorage(a: Node, b: Node)
      requires pkg != []
      reads context`unpackedDirPath
    {
      (Exists(b, context.unpackedDirPath) ==> Exists(a, context.unpackedDirPath)) &&
      b.Dir? && IsDir(b, pkg) && Get(b, BackupPath(pkg)) == Get(a, BackupPath(pkg)) &&
      Get(b, recordPath) == Get(a, recordPath) && Kids(b, pkg) - touched == Kids(a, pkg) - touched
    }

    lemma Untouched(a: map<Name, Node>, b: map<Name, Node>)
      requires a - touched == b - touched
      ensures forall k | k !in touched :: Lookup(a, k) == Lookup(b, k)
    {
      forall k | k !in touched ensures Lookup(a, k) == Lookup(b, k) {
        assert k in a <==> k in a - touched;
        assert k in b <==> k in b - touched;
        if k in a {
          assert a[k] == (a - touched)[k] == (b - touched)[k] == b[k];
        }
      }
    }

    lemma KeptIsRecoverable(a: Node, b: Node)
      requires pkg != [] && touched !! STORAGE && BothThere(a) && Recoverable(a) && KeepsStorage(a, b)
      ensures BothThere(b) && Recoverable(b) && Restores(b) == Restores(a)
    {
      hide Cut, Put, Get, RestoredKids, Acceptable;
      HolderOf(b, pkg);
      Untouched(Kids(b, pkg), Kids(a, pkg));
      OnlyStorageMatters(Kids(a, pkg), Kids(b, pkg), Kids(b, BackupPath(pkg)));
      RecoverableNow(a);
      RecoverableNow(b);
    }

    lemma KeptIsDelivered(a: Node, b: Node, left: map<Name, Node>)
      requires pkg != [] && touched !! STORAGE && Delivered(a, left, {}) && KeepsStorage(a, b)
      ensures Delivered(b, left, touched)
    {
      hide Get;
      Untouched(Kids(b, pkg), Kids(a, pkg));
    }

    /** Whatever other steps do, forwards or backwards, to the entries in `touched` and to the rest of the disk. */
    method OtherSteps()
      requires Placed() && fs.Valid() && BothThere(fs.root) && Recoverable(fs.root)
      modifies fs`root, fs`log
      ensures fs.Valid() && old(fs.log) <= fs.log
      ensures BothThere(fs.root) && Recoverable(fs.root) && KeepsStorage(old(fs.root), fs.root)
      ensures Restores(fs.root) == old(Restores(fs.root))
      ensures forall i | |old(fs.log)| <= i < |fs.log| :: Recoverable(fs.log[i])
    {
      hide Cut, Put, Get, Recoverable, RestoredKids;
      var changes: int := *;
      while changes > 0
        invariant fs.Valid() && old(fs.log) <= fs.log
        invariant BothThere(fs.root) && Recoverable(fs.root) && KeepsStorage(old(fs.root), fs.root)
        invariant Restores(fs.root) == old(Restores(fs.root))
        invariant forall i | |old(fs.log)| <= i < |fs.log| :: Recoverable(fs.log[i])
      {
        var next: Node := *;
        if KeepsStorage(fs.root, next) {
          KeptIsRecoverable(fs.root, next);
          fs.Commit(next);
        }
        changes := changes - 1;
      }
    }

    /** A disk t while the run is undone: the backup is what it was at the disk `mid`, or it is the package. */
    ghost predicate Unwinding(mid: Node, t: Node)
      requires pkg != []
      reads this
    {
      Laid(t, pkg) && Get(t, recordPath) == written && IsFile(t, recordPath) && Swapping(mid, t, pkg)
    }

    /** Puts the storage directories back; a disk on the way can be recovered unless it has lost one of them. */
    method UndoStorage() returns (status: Status)
      requires Placed() && fs.Valid() && context.pkgPath == pkg
      requires copyStorage.backupPath == BackupPath(pkg) && BothThere(fs.root) && Recoverable(fs.root)
      modifies fs`root, fs`log
      ensures fs.Valid() && old(fs.log) <= fs.log
      ensures BothThere(fs.root) && GivingBack(old(fs.root), fs.root, pkg)
      ensures forall i | |old(fs.log)| <= i < |fs.log| :: Saved(old(fs.root), fs.log[i], pkg) ==> Recoverable(fs.log[i])
      ensures !fs.faulty ==> forall i | |old(fs.log)| <= i < |fs.log| :: Saved(old(fs.root), fs.log[i], pkg)
      ensures !fs.faulty || status == OK ==> Kids(fs.root, BackupPath(pkg)) == old(Restores(fs.root))
    {
      hide Cut, Put, Get, RestoredKids, Acceptable, GoingBack, Saved, Home, RestoredAt;
      BackupPathIsApart(pkg);
      ghost var before := fs.root;
      RecoverableNow(before);
      status := copyStorage.Undo();
      forall t: Node | t == fs.root || t in fs.log[|old(fs.log)|..]
        ensures Get(t, recordPath) == written && (Saved(before, t, pkg) ==> Recoverable(t))
      {
        SameOutside2Get(before, t, pkg, BackupPath(pkg), recordPath);
        GivingBackIff(before, t, pkg);
      }
      forall i | |old(fs.log)| <= i < |fs.log| ensures Saved(before, fs.log[i], pkg) ==> Recoverable(fs.log[i]) {
        assert fs.log[i] == fs.log[|old(fs.log)|..][i - |old(fs.log)|];
      }
      HomeIff(Kids(before, pkg), Kids(before, BackupPath(pkg)), Kids(fs.root, pkg), Kids(fs.root, BackupPath(pkg)));
    }

    method UndoBackup() returns (status: Status)
      requires Placed() && copyBackup.Ready() && copyBackup.installPath == pkg
      modifies fs`root, fs`log
      ensures fs.Valid() && old(fs.log) <= fs.log
      ensures !fs.faulty ==> status == OK && !Exists(fs.root, context.unpackedDirPath)
      ensures old(BothThere(fs.root)) ==>
        Unwinding(old(fs.root), fs.root) &&
        forall i | |old(fs.log)| <= i < |fs.log| :: Unwinding(old(fs.root), fs.log[i])
      ensures old(BothThere(fs.root)) && status == OK ==>
        !Exists(fs.root, BackupPath(pkg)) && IsDir(fs.root, pkg) &&
        Kids(fs.root, pkg) == old(Kids(fs.root, BackupPath(pkg)))
    {
      hide Cut, Put, Get, Swapping;
      ghost var before := fs.root;
      status := copyBackup.Undo();
      assert fs.log[|fs.log| - 1] == fs.root;
      if BothThere(before) {
        UnwindingItself(before);
        forall i | |old(fs.log)| <= i < |fs.log| ensures Unwinding(before, fs.log[i]) {
          UnwindingDisk(before, fs.log[i]);
        }
      }
    }

    lemma UnwindingItself(t: Node)
      requires pkg != [] && BothThere(t)
      ensures Unwinding(t, t)
    {
    }

    lemma UnwindingDisk(before: Node, now: Node)
      requires Placed() && BothThere(before) && Swapping(before, now, pkg)
      requires SameElsewhere(before, now, pkg, BackupPath(pkg), context.unpackedDirPath)
      ensures Unwinding(before, now)
    {
      hide Cut, Put;
      var bck := BackupPath(pkg);
      if Get(now, bck) == Get(before, bck) {
        HolderOf(now, bck);
      } else {
        HolderOf(now, pkg);
      }
    }

    /** Behind a disk whose backup is an acceptable package, whatever fails, every disk recovers to one. */
    lemma UnwindingIsRecoverable(mid: Node, t: Node)
      requires pkg != [] && BothThere(mid) && Recoverable(mid) && Acceptable(Kids(mid, BackupPath(pkg)), o, u)
      requires Unwinding(mid, t)
      ensures Recoverable(t)
    {
      hide Acceptable, RestoredKids;
      var bck := BackupPath(pkg);
      if Get(t, bck) == Get(mid, bck) && Get(t, pkg) != Get(mid, pkg) {
        assert Kids(t, pkg).Keys == Entries(t, pkg) || Kids(t, pkg) == map[];
        NothingToRestore(Kids(t, pkg), Kids(t, bck));
      }
    }

    /** The whole undoing: a disk can be recovered unless it has lost a storage directory. */
    lemma UnwoundIsRecoverable(before: Node, mid: Node, t: Node)
      requires pkg != [] && BothThere(before) && Recoverable(before) && GivingBack(before, mid, pkg)
      requires Unwinding(mid, t)
      ensures Saved(before, t, pkg) ==> Recoverable(t)
    {
      hide Acceptable, RestoredKids, GoingBack, Saved, Swapping;
      SwappingIff(before, mid, t, pkg);
    }

    lemma RecordIsApart(a: Node, b: Node)
      requires Placed() && SameOutside(a, b, recordPath)
      ensures Get(a, pkg) == Get(b, pkg) && Get(a, BackupPath(pkg)) == Get(b, BackupPath(pkg))
      ensures Get(a, context.unpackedDirPath) == Get(b, context.unpackedDirPath)
      ensures IsDir(a, Parent(pkg)) == IsDir(b, Parent(pkg))
    {
      SameOutsideGet(a, b, recordPath, pkg);
      SameOutsideGet(a, b, recordPath, BackupPath(pkg));
      SameOutsideGet(a, b, recordPath, context.unpackedDirPath);
      NotAboveParent(recordPath, pkg);
      CutKeepsDir(a, recordPath, Parent(pkg));
      CutKeepsDir(b, recordPath, Parent(pkg));
    }

    /** StepConfigure's record: the kind first, then the directory StepUnzip unpacks to, then the package id that
        StepParseManifest reads.  Only the first of the writes is looked at. */
    method WriteRecord(unpackedDir: string) returns (record: RecoveryFile.RecoveryFile?)
      requires Placed() && fs.Valid()
      modifies fs`root, fs`log
      ensures fs.Valid() && old(fs.log) <= fs.log
      ensures SameOutside(old(fs.root), fs.root, recordPath)
      ensures record != null ==> fresh(record) && OwnsRecord(record) && IsFile(fs.root, recordPath)
      ensures record != null ==>
        RecoveryRun.RecordAt(fs.root, recordPath).kind in {RecoveryFile.Update, RecoveryFile.Unknown}
      ensures record != null && !fs.faulty ==>
        FileAt(fs.root, recordPath) == Some(RecoveryFile.Text(RecordOf(unpackedDir)))
      ensures record != null && RecoveryFile.Read(RecordOf(unpackedDir)) ==>
        RecoveryRun.Torn(fs.root, recordPath, context.pkgid)
      ensures !fs.faulty ==>
        (record != null <==> old(!Exists(fs.root, recordPath) && IsDir(fs.root, Parent(recordPath))))
    {
      hide Cut, Put, Get, RecoveryFile.Parsed, RecoveryFile.Fits, RecoveryFile.Text, RecoveryRun.Torn;
      record := RecoveryFile.RecoveryFile.CreateRecoveryFileForPath(fs, recordPath);
      if record == null {
        return;
      }
      record.kind := RecoveryFile.Update;
      var ok := record.WriteAndCommitFileContent();
      if !ok {
        record.Destroy();
        return null;
      }
      WriteIsTorn(fs.root, RecoveryFile.Record(RecoveryFile.Update, "", ""));
      record.unpackedDir := unpackedDir;
      ok := record.WriteAndCommitFileContent();
      if ok {
        WriteIsTorn(fs.root, RecoveryFile.Record(RecoveryFile.Update, unpackedDir, ""));
      }
      record.pkgid := context.pkgid;
      ok := record.WriteAndCommitFileContent();
      if ok {
        WriteIsTorn(fs.root, RecordOf(unpackedDir));
      }
    }

    /** A file that holds a beginning of such a record. */
    lemma WriteIsTorn(t: Node, r: RecoveryFile.Record)
      requires FileAt(t, recordPath).Some? && FileAt(t, recordPath).value <= RecoveryFile.Text(r)
      requires r.kind == RecoveryFile.Update && r.pkgid in {"", context.pkgid}
      ensures RecoveryFile.Read(r) ==> RecoveryRun.Torn(t, recordPath, context.pkgid)
    {
      hide Get, RecoveryFile.Text, RecoveryFile.Parsed;
      RecoveryFile.TornWrite(r, FileAt(t, recordPath).value);
      if RecoveryFile.Read(r) {
        RecoveryFile.TornPackage(r, FileAt(t, recordPath).value);
      }
    }

    function RecordOf(unpackedDir: string): RecoveryFile.Record
      reads context`pkgid
    {
      RecoveryFile.Record(RecoveryFile.Update, unpackedDir, context.pkgid)
    }

    /** The record is read back as one of this package: it fits, or the part of the unpacked directory that is cut
        off happens to be the package id. */
    predicate ReadsBack(unpackedDir: string)
      reads context`pkgid
    {
      if |unpackedDir| <= RecoveryFile.BUFFER - 2 then |context.pkgid| <= RecoveryFile.BUFFER - 1
      else context.pkgid == RecoveryFile.Clipped(unpackedDir[RecoveryFile.BUFFER - 1..])
    }

    predicate Plain(unpackedDir: string)
      reads context`pkgid
    {
      RecoveryFile.PlainText(unpackedDir) && RecoveryFile.PlainText(context.pkgid)
    }

    /** The record on the disk says that this package was being updated. */
    predicate ReadsSo(t: Node)
      reads context`pkgid
    {
      RecoveryRun.ReadsAs(t, recordPath, context.pkgid)
    }

    ghost predicate OwnsRecord(record: RecoveryFile.RecoveryFile)
      reads record
    {
      record.fs == fs && record.path == recordPath
    }

    /** The old package is back, up to the storage directories, and nothing of the update is left. */
    ghost predicate RolledBack(t: Node)
      requires pkg != []
      reads this, fs`faulty, context`unpackedDirPath
    {
      IsDir(t, pkg) && Acceptable(Kids(t, pkg), o, u) && !Exists(t, BackupPath(pkg)) &&
      (!fs.faulty ==> !Exists(t, recordPath) && !Exists(t, context.unpackedDirPath))
    }

    /** What a disk t of the run may show, given the disk at its end: it has the record and recovers to an
        acceptable old package; or the package is final, and if the record is there still, recovery finds no
        backup and leaves it. */
    ghost predicate Atomic(t: Node, final: Node)
      requires pkg != []
      reads this
    {
      Recoverable(t) ||
      (Get(t, pkg) == Get(final, pkg) && IsDir(t, pkg) &&
       (Exists(t, recordPath) ==> Laid(t, pkg) && Get(t, recordPath) == written && !Exists(t, BackupPath(pkg))))
    }

    /** The end of a run whose undo failed, if no storage directory was lost: a repair would give an acceptable
        package.  One will be made if and only if the record is still there, or else no repair is needed. */
    ghost predicate Stuck(t: Node)
      requires pkg != []
      reads this
    {
      Restorable(t) &&
      if Exists(t, recordPath) then Recoverable(t)
      else Orphaned(t) || (IsDir(t, pkg) && Acceptable(Kids(t, pkg), o, u))
    }

    /** The end of a failed run, which drops the record. */
    method DropRecord(record: RecoveryFile.RecoveryFile)
      requires Placed() && fs.Valid() && OwnsRecord(record) && !IsFile(fs.root, pkg)
      modifies fs`root, fs`log
      ensures fs.Valid() && old(fs.log) <= fs.log
      ensures Get(fs.root, pkg) == old(Get(fs.root, pkg))
      ensures Get(fs.root, BackupPath(pkg)) == old(Get(fs.root, BackupPath(pkg)))
      ensures Get(fs.root, context.unpackedDirPath) == old(Get(fs.root, context.unpackedDirPath))
      ensures fs.root == old(fs.root) || !Exists(fs.root, recordPath)
      ensures IsDir(fs.root, Parent(pkg)) == old(IsDir(fs.root, Parent(pkg)))
      ensures !fs.faulty && old(IsFile(fs.root, recordPath)) ==> !Exists(fs.root, recordPath)
      ensures forall i | |old(fs.log)| <= i < |fs.log| :: fs.log[i] == fs.root
    {
      hide Cut, Put, Get;
      ghost var before := fs.root;
      record.Destroy();
      RecordIsApart(before, fs.root);
    }

    /** A disk that can be recovered, when the record is dropped. */
    lemma DroppedIsStuck(undone: Node, now: Node)
      requires Placed() && Recoverable(undone) && Get(now, pkg) == Get(undone, pkg)
      requires Get(now, BackupPath(pkg)) == Get(undone, BackupPath(pkg))
      requires IsDir(now, Parent(pkg)) && (now == undone || !Exists(now, recordPath))
      ensures Stuck(now) && (Atomic(now, now) || Orphaned(now))
    {
      hide Get, Acceptable, RestoredKids;
    }

    /** Undoing the first step, and the end of the failed run.  Whatever fails, a repair of the last disk would give
        an acceptable package; where the record is dropped before the backup is back, there will be none. */
    method UndoFirst(record: RecoveryFile.RecoveryFile) returns (result: Result)
      requires Placed() && copyBackup.Ready() && copyBackup.installPath == pkg && OwnsRecord(record)
      requires BothThere(fs.root) && Recoverable(fs.root) && Acceptable(Kids(fs.root, BackupPath(pkg)), o, u)
      modifies fs`root, fs`log
      ensures fs.Valid() && old(fs.log) <= fs.log && result in {FAILED, UNDO_ERROR} && (!fs.faulty ==> result == FAILED)
      ensures result == FAILED ==> RolledBack(fs.root) && Kids(fs.root, pkg) == old(Kids(fs.root, BackupPath(pkg)))
      ensures Stuck(fs.root)
      ensures forall i | |old(fs.log)| <= i < |fs.log| ::
        Atomic(fs.log[i], fs.root) || (fs.faulty && Orphaned(fs.log[i]))
    {
      hide Cut, Put, Get, RestoredKids, Acceptable, RestoredAt, Swapping, Stuck, Orphaned;
      ghost var before := fs.root;
      var status := UndoBackup();
      ghost var undone, n := fs.root, |fs.log|;
      forall i | |old(fs.log)| <= i < n ensures Recoverable(fs.log[i]) {
        UnwindingIsRecoverable(before, fs.log[i]);
      }
      UnwindingIsRecoverable(before, undone);
      DropRecord(record);
      DroppedIsStuck(undone, fs.root);
      result := if status == OK then FAILED else UNDO_ERROR;
      if status == OK {
        NoOrphan(fs.root);
      }
    }

    lemma NoOrphan(t: Node)
      requires pkg != [] && !Exists(t, BackupPath(pkg))
      ensures !Orphaned(t)
    {
    }

    /** Both undos and the end of the run.  Where calls fail on the way, a disk that has lost a storage directory
        is past recovery; no other is, and without faults none is. */
    method UndoBoth(record: RecoveryFile.RecoveryFile) returns (result: Result)
      requires Placed() && copyBackup.Ready() && copyBackup.installPath == pkg && OwnsRecord(record)
      requires context.pkgPath == pkg && copyStorage.backupPath == BackupPath(pkg)
      requires BothThere(fs.root) && Recoverable(fs.root)
      modifies fs`root, fs`log
      ensures fs.Valid() && old(fs.log) <= fs.log && result in {FAILED, UNDO_ERROR}
      ensures result == FAILED || !fs.faulty ==> RolledBack(fs.root) && Kids(fs.root, pkg) == old(Restores(fs.root))
      ensures if Saved(old(fs.root), fs.root, pkg) then Stuck(fs.root) else fs.faulty && fs.root != old(fs.root)
      ensures forall i | |old(fs.log)| <= i < |fs.log| ::
        Atomic(fs.log[i], fs.root) ||
        (fs.faulty && (Orphaned(fs.log[i]) || !Saved(old(fs.root), fs.log[i], pkg)))
    {
      hide Cut, Put, Get, RestoredKids, Acceptable, RestoredAt, Recoverable, GivingBack, Swapping, Saved, Stuck;
      hide Orphaned;
      ghost var before := fs.root;
      RecoverableNow(before);
      var storage := UndoStorage();
      ghost var mid, n := fs.root, |fs.log|;
      var status := UndoBackup();
      ghost var undone, m := fs.root, |fs.log|;
      forall i | n <= i < m ensures Saved(before, fs.log[i], pkg) ==> Recoverable(fs.log[i]) {
        UnwoundIsRecoverable(before, mid, fs.log[i]);
      }
      UnwoundIsRecoverable(before, mid, undone);
      if !fs.faulty {
        forall i | n <= i < m ensures Saved(before, fs.log[i], pkg) {
          SavedBehind(before, mid, fs.log[i]);
        }
        SavedBehind(before, mid, undone);
      }
      DropRecord(record);
      SavedStays(before, undone, fs.root);
      SavedItself(before);
      if Saved(before, undone, pkg) {
        DroppedIsStuck(undone, fs.root);
      }
      result := if storage == OK && status == OK then FAILED else UNDO_ERROR;
      if !Exists(fs.root, BackupPath(pkg)) {
        NoOrphan(fs.root);
      }
    }

    lemma SavedItself(t: Node)
      requires pkg != [] && Recoverable(t)
      ensures Saved(t, t, pkg)
    {
      RecoveryRun.RecoversItself(t, pkg);
      var p, b := Kids(t, pkg), Kids(t, BackupPath(pkg));
      assert forall k | OnlyInPackage(p, b, k) :: Lookup(p, k) == Some(p[k]);
    }

    lemma SavedStays(before: Node, undone: Node, now: Node)
      requires pkg != [] && Get(now, pkg) == Get(undone, pkg)
      requires Get(now, BackupPath(pkg)) == Get(undone, BackupPath(pkg))
      ensures Saved(before, undone, pkg) == Saved(before, now, pkg)
    {
      RecoveryRun.SavedFrom(before, before, undone, now, pkg);
    }

    lemma SavedBehind(before: Node, mid: Node, t: Node)
      requires pkg != [] && Kids(mid, BackupPath(pkg)) == Restores(before) && Unwinding(mid, t)
      ensures Saved(before, t, pkg)
    {
      forall k | OnlyInPackage(Kids(before, pkg), Kids(before, BackupPath(pkg)), k)
        ensures Lookup(Kids(mid, BackupPath(pkg)), k) == Some(Kids(before, pkg)[k])
      {
      }
      HomeIsSaved(before, mid, t, pkg);
    }

    /** A USER update that fails anywhere behind a successful second step: whatever the later steps did to the
        rest of the package, the old one comes back with the storage directories merged, exactly. */
    method FailLater(record: RecoveryFile.RecoveryFile, ghost left: map<Name, Node>)
      returns (storage: Status, result: Result)
      requires Placed() && copyBackup.Ready() && copyBackup.installPath == pkg && OwnsRecord(record)
      requires context.pkgPath == pkg && Swapped(fs.root, left) && context.requestMode == USER
      modifies fs`root, fs`log, copyStorage
      ensures fs.Valid()
      ensures storage == OK && (result == FAILED || !fs.faulty) ==>
        RolledBack(fs.root) && Kids(fs.root, pkg) == Merged(o, u)
    {
      hide Cut, Put, Get, RestoredKids, Acceptable, RestoredAt, Recoverable, Delivered, Loaded, Merged;
      result := FAILED;
      storage := ProcessStorage(left);
      if storage == OK {
        OtherSteps();
        result := UndoBoth(record);
      }
    }

    /** A run without faults that fails in the second step or behind it: what comes back is known exactly. */
    method Fail(record: RecoveryFile.RecoveryFile)
      requires Placed() && copyBackup.Ready() && copyBackup.installPath == pkg && OwnsRecord(record)
      requires context.pkgPath == pkg && Swapped(fs.root, map[]) && !fs.faulty
      modifies fs`root, fs`log, copyStorage
      ensures fs.Valid() && RolledBack(fs.root) && Kids(fs.root, pkg) == ComesBack(o, u, context.requestMode)
    {
      hide Cut, Put, Get, RestoredKids, Acceptable, RestoredAt, Recoverable, Delivered, Loaded, ComesBack, Merged;
      var storage := ProcessStorage(map[]);
      if storage == OK {
        OtherSteps();
      }
      var _ := UndoBoth(record);
    }

    /** clean() of the steps in order: the record goes first, then the backup. */
    method CleanUp(record: RecoveryFile.RecoveryFile) returns (result: Result)
      requires Placed() && copyBackup.Ready() && copyBackup.installPath == pkg && OwnsRecord(record)
      requires BothThere(fs.root) && Recoverable(fs.root)
      modifies fs`root, fs`log
      ensures fs.Valid() && old(fs.log) <= fs.log
      ensures Get(fs.root, pkg) == old(Get(fs.root, pkg))
      ensures Get(fs.root, context.unpackedDirPath) == old(Get(fs.root, context.unpackedDirPath))
      ensures forall i | |old(fs.log)| <= i < |fs.log| :: Atomic(fs.log[i], fs.root)
      ensures result == DONE ==> !Exists(fs.root, BackupPath(pkg))
      ensures result in {DONE, CLEANUP_ERROR} && (!fs.faulty ==> result == DONE && !Exists(fs.root, recordPath))
    {
      hide Cut, Put, Get, RestoredKids, Acceptable, RestoredAt;
      ghost var before := fs.root;
      RecoverableNow(before);
      DropRecord(record);
      ghost var dropped, n := fs.root, |fs.log|;
      HolderOf(dropped, pkg);
      var status := copyBackup.Clean();
      forall i | n <= i < |fs.log| ensures Atomic(fs.log[i], fs.root) {
        SameOutsideGet(dropped, fs.log[i], BackupPath(pkg), recordPath);
        HolderOf(fs.log[i], pkg);
      }
      SameOutsideGet(dropped, fs.root, BackupPath(pkg), recordPath);
      SameOutsideGet(dropped, fs.root, BackupPath(pkg), context.unpackedDirPath);
      result := if status == OK then DONE else CLEANUP_ERROR;
    }

    /** The disk at log position i of a run whose undoing began at position `undone` has lost a storage directory:
        a call failed while it was copied back. */
    ghost predicate Lost(log: seq<Node>, undone: nat, i: nat)
      requires pkg != []
      reads this
    {
      undone < i < |log| && !Saved(log[undone], log[i], pkg)
    }

    /** The undoing of a run that fails in the second step or behind it, with the log position where it begins. */
    method GiveUp(record: RecoveryFile.RecoveryFile) returns (result: Result, undone: nat)
      requires Placed() && copyBackup.Ready() && copyBackup.installPath == pkg && OwnsRecord(record)
      requires context.pkgPath == pkg && copyStorage.backupPath == BackupPath(pkg)
      requires BothThere(fs.root) && Recoverable(fs.root)
      modifies fs`root, fs`log
      ensures fs.Valid() && old(fs.log) <= fs.log && undone == |old(fs.log)| - 1
      ensures result in {FAILED, UNDO_ERROR} && fs.log[undone] == old(fs.root)
      ensures forall i | |old(fs.log)| <= i < |fs.log| ::
        Atomic(fs.log[i], fs.root) || (fs.faulty && (Orphaned(fs.log[i]) || Lost(fs.log, undone, i)))
      ensures Stuck(fs.root) || (fs.faulty && Lost(fs.log, undone, |fs.log| - 1))
      ensures result == FAILED || !fs.faulty ==> RolledBack(fs.root) && Kids(fs.root, pkg) == old(Restores(fs.root))
      ensures !fs.faulty ==> !Exists(fs.root, recordPath)
    {
      hide Cut, Put, Get, RestoredKids, Acceptable, RestoredAt, Recoverable, Saved, Stuck, Orphaned, Atomic, RolledBack;
      undone := |fs.log| - 1;
      ghost var start := fs.root;
      result := UndoBoth(record);
      assert fs.log[undone] == start && fs.log[|fs.log| - 1] == fs.root;
      RolledBackHasNoRecord(fs.root);
    }

    /** The run from the second step on; `later` says whether the steps behind it succeed.  Also returns the log
        position at which undoing began. */
    method Continue(record: RecoveryFile.RecoveryFile, ghost left: map<Name, Node>, later: bool)
      returns (result: Result, undone: nat)
      requires Placed() && copyBackup.Ready() && copyBackup.installPath == pkg && OwnsRecord(record)
      requires context.pkgPath == pkg && Swapped(fs.root, left)
      modifies fs`root, fs`log, copyStorage
      ensures fs.Valid() && old(fs.log) <= fs.log && |old(fs.log)| <= undone + 1
      ensures forall i | |old(fs.log)| <= i < |fs.log| ::
        Atomic(fs.log[i], fs.root) || (fs.faulty && (Orphaned(fs.log[i]) || Lost(fs.log, undone, i)))
      ensures result in {FAILED, UNDO_ERROR} ==> undone < |fs.log|
      ensures result == UNDO_ERROR ==> Stuck(fs.root) || (fs.faulty && Lost(fs.log, undone, |fs.log| - 1))
      ensures !fs.faulty ==> (result == DONE <==> later && StorageGoes(o, u, context.requestMode))
      ensures result == FAILED || (result == UNDO_ERROR && !fs.faulty) ==>
        RolledBack(fs.root) && Kids(fs.root, pkg) == Restores(fs.log[undone])
      ensures result in {FAILED, UNDO_ERROR} && !fs.faulty ==>
        Kids(fs.root, pkg) == ComesBack(o, u, context.requestMode)
      ensures result in {DONE, CLEANUP_ERROR} ==> Delivered(fs.root, left, touched)
      ensures result == DONE ==> !Exists(fs.root, BackupPath(pkg))
      ensures !fs.faulty ==> result != CLEANUP_ERROR && !Exists(fs.root, recordPath)
    {
      hide Cut, Put, Get, RestoredKids, Acceptable, RestoredAt, Recoverable, Delivered, Loaded, Saved, ComesBack;
      hide Merged, Stuck, Orphaned, StorageGoes, Atomic, RolledBack;
      var storage := ProcessStorage(left);
      if storage == OK {
        ghost var arrived := fs.root;
        OtherSteps();
        if later {
          KeptIsDelivered(arrived, fs.root, left);
          ghost var cleaning, m := fs.root, |fs.log|;
          result := CleanUp(record);
          forall i | |old(fs.log)| <= i < m ensures Atomic(fs.log[i], fs.root) {
            RecoverableIsAtomic(fs.log[i], fs.root);
          }
          DeliveredStays(cleaning, fs.root, left);
          return result, |fs.log|;
        }
        OtherSteps();
      }
      ghost var n := |fs.log|;
      result, undone := GiveUp(record);
      forall i | |old(fs.log)| <= i < n ensures Atomic(fs.log[i], fs.root) {
        RecoverableIsAtomic(fs.log[i], fs.root);
      }
    }

    lemma RecoverableIsAtomic(t: Node, final: Node)
      requires pkg != [] && Recoverable(t)
      ensures Atomic(t, final)
    {
    }

    lemma DeliveredStays(a: Node, b: Node, left: map<Name, Node>)
      requires Get(a, pkg) == Get(b, pkg) && Get(a, context.unpackedDirPath) == Get(b, context.unpackedDirPath)
      requires Delivered(a, left, touched)
      ensures Delivered(b, left, touched)
    {
    }

    /** The run behind the record; if the backup is never completed, `saved` is the length of the log. */
    method Proceed(record: RecoveryFile.RecoveryFile, later: bool) returns (result: Result, saved: nat, undone: nat)
      requires Placed() && fs.Valid() && OwnsRecord(record)
      requires IsDir(fs.root, Parent(pkg)) && IsDir(fs.root, pkg) && !Exists(fs.root, BackupPath(pkg))
      requires o == Kids(fs.root, pkg) && u == Kids(fs.root, context.unpackedDirPath)
      requires IsFile(fs.root, recordPath) && Get(fs.root, recordPath) == written
      modifies fs`root, fs`log, copyBackup, copyStorage, context`pkgPath
      ensures fs.Valid() && old(fs.log) <= fs.log && saved <= |fs.log|
      ensures !fs.faulty ==> saved < |fs.log|
      ensures forall i | saved <= i < |fs.log| ::
        Atomic(fs.log[i], fs.root) || (fs.faulty && (Orphaned(fs.log[i]) || Lost(fs.log, undone, i)))
      ensures saved < |fs.log| && result == UNDO_ERROR ==>
        Stuck(fs.root) || (fs.faulty && Lost(fs.log, undone, |fs.log| - 1))
      ensures saved < |fs.log| && (result == FAILED || (result == UNDO_ERROR && !fs.faulty)) ==> RolledBack(fs.root)
      ensures result in {DONE, CLEANUP_ERROR} ==>
        saved < |fs.log| &&
        exists left :: Leftovers(left, o) && (!fs.faulty ==> left == map[]) && Delivered(fs.root, left, touched)
      ensures result == DONE ==> !Exists(fs.root, BackupPath(pkg))
      ensures saved < |fs.log| && !fs.faulty ==> result != CLEANUP_ERROR && !Exists(fs.root, recordPath)
      ensures !fs.faulty ==>
        (result == DONE <==>
         old(IsDir(fs.root, context.unpackedDirPath)) && StorageGoes(o, u, context.requestMode) && later)
    {
      hide Cut, Put, Get, RestoredKids, Acceptable, RestoredAt, Recoverable, Delivered, Loaded, Saved, Merged;
      hide BothThere, Arrived, RolledBack, Independent, BackupPath, Leftovers, Stuck, Orphaned, StorageGoes;
      var status;
      status, saved := ProcessBackup();
      if status != OK {
        undone := |fs.log| - 1;
        if saved < |fs.log| {
          OldIsAcceptable(o, u);
          result := UndoFirst(record);
          RolledBackHasNoRecord(fs.root);
        } else {
          var _ := UndoBackup();
          record.Destroy();
          result, saved := FAILED, |fs.log|;
        }
        return;
      }
      ghost var left :| Arrived(fs.root, left);
      ArrivedLeft(fs.root, left);
      result, undone := Continue(record, left, later);
    }

    /** Crash atomicity: once the backup is complete (log position `saved`), every disk the run leaves behind is
        Atomic, unless calls fail while it is undone and a storage directory is lost.  The run ends with the update
        made, the package known entry by entry, or rolled back. */
    method Run(unpackedDir: string, later: bool) returns (result: Result, saved: nat, undone: nat)
      requires Placed() && fs.Valid()
      requires IsDir(fs.root, Parent(pkg)) && IsDir(fs.root, pkg) && !Exists(fs.root, BackupPath(pkg))
      requires o == Kids(fs.root, pkg) && u == Kids(fs.root, context.unpackedDirPath)
      modifies fs`root, fs`log, copyBackup, copyStorage, context`pkgPath, this`written
      ensures fs.Valid() && old(fs.log) <= fs.log && saved <= |fs.log|
      ensures !fs.faulty && old(!Exists(fs.root, recordPath) && IsDir(fs.root, Parent(recordPath))) ==> saved < |fs.log|
      ensures !fs.faulty ==>
        (result == DONE <==>
         old(!Exists(fs.root, recordPath) && IsDir(fs.root, Parent(recordPath)) &&
             IsDir(fs.root, context.unpackedDirPath)) &&
         StorageGoes(o, u, context.requestMode) && later)
      ensures forall i | saved <= i < |fs.log| ::
        Atomic(fs.log[i], fs.root) || (fs.faulty && (Orphaned(fs.log[i]) || Lost(fs.log, undone, i)))
      ensures saved < |fs.log| && result == UNDO_ERROR ==>
        Stuck(fs.root) || (fs.faulty && Lost(fs.log, undone, |fs.log| - 1))
      ensures saved < |fs.log| && !fs.faulty && Plain(unpackedDir) ==> (Reads(written) <==> ReadsBack(unpackedDir))
      ensures saved < |fs.log| && RecoveryFile.Read(RecordOf(unpackedDir)) ==> Leads(written)
      ensures saved < |fs.log| && (result == FAILED || (result == UNDO_ERROR && !fs.faulty)) ==> RolledBack(fs.root)
      ensures result in {DONE, CLEANUP_ERROR} ==>
        saved < |fs.log| &&
        exists left :: Leftovers(left, o) && (!fs.faulty ==> left == map[]) && Delivered(fs.root, left, touched)
      ensures result == DONE ==> !Exists(fs.root, BackupPath(pkg))
      ensures saved < |fs.log| && !fs.faulty ==> result != CLEANUP_ERROR && !Exists(fs.root, recordPath)
    {
      hide Cut, Put, Get, RestoredKids, Acceptable, RestoredAt, Recoverable, Delivered, Loaded, Saved, Merged;
      hide BothThere, Arrived, RolledBack, BackupPath, Leftovers, Plain, Atomic, Lost, Reads, ReadsBack, ReadsSo;
      hide Stuck, Orphaned, StorageGoes, RecoveryFile.Text, RecoveryFile.Read, RecoveryRun.Torn, Leads;
      var record := WriteRecord(unpackedDir);
      RecordIsApart(old(fs.root), fs.root);
      if record == null {
        return FAILED, |fs.log|, |fs.log|;
      }
      written := Get(fs.root, recordPath);
      if !fs.faulty && Plain(unpackedDir) {
        WrittenReads(fs.root, unpackedDir);
      }
      TornLeads(fs.root);
      result, saved, undone := Proceed(record, later);
    }

    lemma WrittenReads(t: Node, unpackedDir: string)
      requires Plain(unpackedDir) && FileAt(t, recordPath) == Some(RecoveryFile.Text(RecordOf(unpackedDir)))
      ensures Reads(Get(t, recordPath)) <==> ReadsBack(unpackedDir)
    {
      hide RecoveryFile.Text, RecoveryFile.Parsed, Get;
      RecoveryFile.PackageReadsBack(RecordOf(unpackedDir));
    }

    /** What a file says, once it is on the disk. */
    ghost predicate Reads(file: Option<Node>)
      reads context`pkgid
    {
      file.Some? && file.value.File? &&
      var r := RecoveryFile.Parsed(file.value.content); r.kind == RecoveryFile.Update && r.pkgid == context.pkgid
    }

    /** What it says, if it is cut short: nothing, or that a package of this id or a beginning of it was updated. */
    ghost predicate Leads(file: Option<Node>)
      reads context`pkgid
    {
      file.Some? && file.value.File? &&
      var r := RecoveryFile.Parsed(file.value.content);
      r.kind in {RecoveryFile.Update, RecoveryFile.Unknown} && r.pkgid <= context.pkgid
    }

    lemma TornLeads(t: Node)
      ensures IsFile(t, recordPath) ==> (RecoveryRun.Torn(t, recordPath, context.pkgid) <==> Leads(Get(t, recordPath)))
    {
      hide RecoveryFile.Parsed;
    }

    lemma ReadsWritten(t: Node)
      ensures IsFile(t, recordPath) ==> (ReadsSo(t) <==> Reads(Get(t, recordPath)))
    {
      hide RecoveryFile.Parsed;
    }

    lemma RolledBackHasNoRecord(t: Node)
      requires pkg != []
      ensures RolledBack(t) && !fs.faulty ==> !Exists(t, recordPath)
    {
    }

    lemma ArrivedLeft(t: Node, left: map<Name, Node>)
      requires Arrived(t, left)
      ensures Leftovers(left, o) && (!fs.faulty ==> left == map[])
    {
    }

    /** The machine stops during the run, behind entry `at` of the log, and new processes recover from the record
        they find, themselves stopped any number of times.  The backup is used if and only if the record reads so and
        none of the new processes was stopped at one that does not; then the package is the final one or an acceptable
        old one.  Otherwise the package and its backup stay as they were. */
    method CrashAndRecover(unpackedDir: string, later: bool, at: nat, site: RecoveryRun.Site, crashes: nat,
                           others: bool, asserts: bool)
      returns (result: Result, saved: nat, undone: nat, shown: seq<Node>, ghost stops: seq<Node>)
      requires Placed() && fs.Valid() && Here(site)
      requires IsDir(fs.root, Parent(pkg)) && IsDir(fs.root, pkg) && !Exists(fs.root, BackupPath(pkg))
      requires o == Kids(fs.root, pkg) && u == Kids(fs.root, context.unpackedDirPath)
      modifies fs, copyBackup, copyStorage, context`pkgPath, this`written
      ensures old(fs.log) <= shown && saved <= |shown| && |stops| <= crashes
      ensures forall i | saved <= i < |shown| ::
        Atomic(shown[i], shown[|shown| - 1]) || (old(fs.faulty) && (Orphaned(shown[i]) || Lost(shown, undone, i)))
      ensures saved <= |shown| && !old(fs.faulty) && Plain(unpackedDir) && ReadsBack(unpackedDir) ==>
        forall i | saved <= i < |shown| && IsFile(shown[i], recordPath) :: ReadsSo(shown[i])
      ensures RecoveryFile.Read(RecordOf(unpackedDir)) && RecoveryRun.NoBackupName(context.pkgid) ==>
        Stopped(shown, saved, at) ==> ReadsSo(shown[at]) || RecoveryRun.Astray(shown[at], recordPath, context.pkgid)
      ensures NamedByOld(site) ==>
        forall i | saved <= i < |shown| && Recoverable(shown[i]) :: RecoveryRun.Steady(shown[i], site, context.pkgid)
      ensures Stopped(shown, saved, at) ==> ComesOut(RestoredAt(shown[at], pkg), shown[|shown| - 1])
      ensures Stopped(shown, saved, at) && ReadsSo(shown[at]) && RecoveryRun.Steady(shown[at], site, context.pkgid) ==>
        if !RecoveryRun.Forgotten(stops, recordPath, context.pkgid) then
          !Exists(fs.root, BackupPath(pkg)) && Get(fs.root, pkg) == RestoredAt(shown[at], pkg)
        else
          RecoveryRun.NoBackupName(context.pkgid) ==>
          RestoredAt(stops[|stops| - 1], pkg) == RestoredAt(shown[at], pkg) &&
          RecoveryRun.SamePackage(stops[|stops| - 1], fs.root, pkg)
      ensures Stopped(shown, saved, at) && RecoveryRun.Astray(shown[at], recordPath, context.pkgid) ==>
        stops == [] && RecoveryRun.SamePackage(shown[at], fs.root, pkg)
    {
      hide Cut, Put, Get, RestoredAt, RestoredKids, Acceptable, RolledBack, Saved, Delivered, Leftovers, Lost, Orphaned;
      hide Independent, BackupPath, Recoverable, RecoveryRun.RecordAt, ReadsSo, Reads, Plain, ReadsBack, StorageGoes;
      hide RecoveryRun.Steady, RecoveryRun.Astray, RecoveryRun.SamePackage, RecoveryRun.Sited, ComesOut, NamedByOld;
      hide RecoveryRun.NoBackupName, Leads, RecoveryFile.Read;
      stops := [];
      result, saved, undone := Run(unpackedDir, later);
      shown := fs.log;
      ghost var final := fs.root;
      forall i | saved <= i < |shown| ensures OnDisk(shown[i], final, site) {
        DisksAre(shown[i], final, site);
      }
      if saved <= at < |shown| && IsFile(shown[at], recordPath) && Laid(shown[at], pkg) {
        fs.faulty := false;
        HasRoot(shown[at]);
        fs.CrashAt(at);
        if ReadsSo(shown[at]) && RecoveryRun.Steady(shown[at], site, context.pkgid) {
          ReadsAlike(shown[at]);
          stops := RecoveryRun.RecoverAnew(fs, site, context.requestMode, recordPath, context.pkgid, crashes, others,
                                           asserts);
        } else if RecoveryRun.Astray(shown[at], recordPath, context.pkgid) {
          RecoveryRun.LeaveAlone(fs, site, context.requestMode, recordPath, context.pkgid, crashes, others, asserts);
        }
      }
      if saved <= at < |shown| && ReadsSo(shown[at]) {
        NotBoth(shown[at]);
      }
    }

    /** New processes look for this package where this one did. */
    predicate Here(site: RecoveryRun.Site)
      reads context`rootApplicationPath, context`pkgid
    {
      site.appRoot == context.rootApplicationPath && pkg == site.PackagePath(context.pkgid) &&
      RecoveryRun.Sited(site, recordPath, context.pkgid)
    }

    /** The old version's manifest names the package. */
    ghost predicate NamedByOld(site: RecoveryRun.Site)
      reads context`pkgid
    {
      "tizen-manifest.xml" in o && RecoveryRun.Told(Some(o["tizen-manifest.xml"]), site) == Some(context.pkgid)
    }

    /** The final package, or an acceptable old one; the old one itself where the new version brings nothing into its
        storage directories. */
    ghost predicate ComesOut(r: Option<Node>, final: Node)
      reads this
    {
      r == Get(final, pkg) ||
      (r.Some? && r.value.Dir? && Acceptable(r.value.kids, o, u) && (NothingToMerge(o, u) ==> r.value.kids == o))
    }

    ghost predicate OnDisk(t: Node, final: Node, site: RecoveryRun.Site)
      requires pkg != []
      reads this, context`pkgid
    {
      (Reads(written) && Atomic(t, final) && IsFile(t, recordPath) ==> ReadsSo(t)) &&
      (Leads(written) && Atomic(t, final) && IsFile(t, recordPath) && RecoveryRun.NoBackupName(context.pkgid) ==>
         ReadsSo(t) || RecoveryRun.Astray(t, recordPath, context.pkgid)) &&
      (NamedByOld(site) && Recoverable(t) ==> RecoveryRun.Steady(t, site, context.pkgid)) &&
      (Atomic(t, final) && IsFile(t, recordPath) ==> Laid(t, pkg) && ComesOut(RestoredAt(t, pkg), final))
    }

    lemma DisksAre(t: Node, final: Node, site: RecoveryRun.Site)
      requires pkg != [] && Here(site)
      ensures OnDisk(t, final, site)
    {
      hide RestoredAt, RestoredKids, Acceptable, Get, RecoveryRun.RecordAt, RecoveryRun.Steady, Reads, NothingToMerge;
      hide NamedByOld, Leads, RecoveryRun.Torn, RecoveryRun.NoBackupName, RecoveryRun.Astray;
      if Recoverable(t) && NamedByOld(site) {
        RecoverableIsSteady(t, site);
      }
      if Atomic(t, final) && IsFile(t, recordPath) {
        ReadsWritten(t);
        TornLeads(t);
        if Leads(written) && RecoveryRun.NoBackupName(context.pkgid) && !ReadsSo(t) {
          RecoveryRun.TornIsAstray(t, recordPath, context.pkgid);
        }
        OldPackageExactly(o, u);
        if !Recoverable(t) {
          RecoveryHasNothing(t);
        }
      }
    }

    lemma RecoveryHasNothing(t: Node)
      requires pkg != [] && !Exists(t, BackupPath(pkg))
      ensures RestoredAt(t, pkg) == Get(t, pkg)
    {
    }

    /** A disk that recovers to an acceptable package has its manifest where recovery looks first. */
    lemma RecoverableIsSteady(t: Node, site: RecoveryRun.Site)
      requires pkg != [] && Here(site) && NamedByOld(site) && Recoverable(t)
      ensures RecoveryRun.Steady(t, site, context.pkgid)
    {
      hide Get, RecoveryRun.Told, Kids, BackupPath;
      var m := RecoveryRun.MANIFEST;
      RecoveryRun.EntryAt(t, pkg, m);
      RecoveryRun.EntryAt(t, BackupPath(pkg), m);
      assert Lookup(RestoredAt(t, pkg).value.kids, m) == Lookup(o, m);
      if !Exists(t, BackupPath(pkg)) {
        RecoveryRun.NoKids(t, BackupPath(pkg));
        KidsOf(t);
      } else {
        Present(Kids(t, BackupPath(pkg)), m);
      }
    }

    lemma KidsOf(t: Node)
      requires IsDir(t, pkg)
      ensures Kids(t, pkg) == Get(t, pkg).value.kids
    {
    }

    lemma ReadsAlike(t: Node)
      ensures ReadsSo(t) == RecoveryRun.ReadsAs(t, recordPath, context.pkgid)
    {
    }

    lemma NotBoth(t: Node)
      requires ReadsSo(t)
      ensures !RecoveryRun.Astray(t, recordPath, context.pkgid)
    {
      hide RecoveryRun.RecordAt;
    }

    /** The machine stopped with the record on a disk that the run leaves recoverable. */
    ghost predicate Stopped(shown: seq<Node>, saved: nat, at: nat)
      requires pkg != []
      reads this
    {
      saved <= at < |shown| && IsFile(shown[at], recordPath) && Atomic(shown[at], shown[|shown| - 1])
    }

    lemma HasRoot(t: Node)
      requires Laid(t, pkg)
      ensures t.Dir?
    {
    }
  }
}
