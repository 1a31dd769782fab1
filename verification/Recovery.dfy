/** Repairing the package tree after a crash: StepRecoverStorageDirectories, then StepRecoverFiles. */
module Recovery {
  import opened FileTree
  import opened FileSystem
  import opened PackageTrees
  import opened StorageDirectories
  import opened Repair

  class StepRecoverStorageDirectories {
    const context: InstallerContext
    const fs: FileSystem

    constructor (context: InstallerContext, fs: FileSystem)
      ensures this.context == context && this.fs == fs
    {
      this.context, this.fs := context, fs;
    }

    /** Without a package path nothing is put back, and the next step drops what the package holds.  With one,
        whatever fails, a disk on the way recovers to the same package exactly when it has lost nothing. */
    method RecoveryUpdate() returns (status: Status)
      requires fs.Valid() && (context.pkgPath != [] ==> Laid(fs.root, context.pkgPath))
      modifies fs`root, fs`log
      ensures fs.Valid() && old(fs.log) <= fs.log && status == OK
      ensures context.pkgPath == [] || !Exists(old(fs.root), BackupPath(context.pkgPath)) ==>
        fs.root == old(fs.root) && fs.log == old(fs.log)
      ensures context.pkgPath != [] && Exists(old(fs.root), BackupPath(context.pkgPath)) ==>
        GivingBack(old(fs.root), fs.root, context.pkgPath) &&
        forall i | |old(fs.log)| <= i < |fs.log| ::
          GivingBack(old(fs.root), fs.log[i], context.pkgPath) &&
          (Equivalent(old(fs.root), fs.log[i], context.pkgPath) <==> Saved(old(fs.root), fs.log[i], context.pkgPath))
      ensures context.pkgPath != [] && Exists(old(fs.root), BackupPath(context.pkgPath)) && !fs.faulty ==>
        Home(old(Kids(fs.root, context.pkgPath)), old(Kids(fs.root, BackupPath(context.pkgPath))),
             Kids(fs.root, BackupPath(context.pkgPath))) &&
        forall i | |old(fs.log)| <= i < |fs.log| :: Saved(old(fs.root), fs.log[i], context.pkgPath)
    {
      hide Cut, Put, Get, RestoredKids, GoingBack, GivingBack, Independent, BackupPath, Laid;
      hide SameEntry, EntryOnly, Saved, Home, Equivalent;
      var pkg := context.pkgPath;
      if pkg != [] && Exists(fs.root, BackupPath(pkg)) {
        ghost var before := fs.root;
        BackupIsDir(before, pkg);
        NothingGivenBack(before, pkg);
        var _ := MoveAppStorage(DATA, before);
        ghost var mid, n := fs.root, |fs.log|;
        KeptOrSame(before, mid, pkg, DATA, SHARED);
        var _ := MoveAppStorage(SHARED, before);
        KeptOrSame(mid, fs.root, pkg, SHARED, DATA);
        forall i | |old(fs.log)| <= i < |fs.log|
          ensures Equivalent(before, fs.log[i], pkg) <==> Saved(before, fs.log[i], pkg)
        {
          GivingBackIff(before, fs.log[i], pkg);
        }
        if !fs.faulty {
          KeptAt(mid, fs.root, pkg, DATA);
          BothHome(before, fs.root, pkg);
          KeptAt(before, mid, pkg, SHARED);
          Settled(before, mid, pkg);
          Settled(before, fs.root, pkg);
          assert forall i | |old(fs.log)| <= i < |fs.log| :: fs.log[i] == if i < n then mid else fs.root;
        }
      }
      return OK;
    }

    lemma BackupIsDir(t: Node, pkg: Path)
      requires Laid(t, pkg)
      ensures Exists(t, BackupPath(pkg)) ==> IsDir(t, BackupPath(pkg))
    {
    }

    lemma KeptOrSame(a: Node, b: Node, pkg: Path, changed: Name, key: Name)
      requires pkg != [] && (b == a || EntryOnly(a, b, pkg, BackupPath(pkg), changed)) && key != changed
      ensures SameEntry(a, b, pkg, BackupPath(pkg), key)
    {
    }

    lemma KeptAt(a: Node, b: Node, pkg: Path, key: Name)
      requires pkg != [] && SameEntry(a, b, pkg, BackupPath(pkg), key)
      ensures Lookup(Kids(b, BackupPath(pkg)), key) == Lookup(Kids(a, BackupPath(pkg)), key)
    {
    }

    method MoveAppStorage(key: Name, ghost start: Node) returns (ok: bool)
      requires fs.Valid() && context.pkgPath != [] && key in STORAGE
      requires GivingBack(start, fs.root, context.pkgPath)
      requires SameEntry(start, fs.root, context.pkgPath, BackupPath(context.pkgPath), key)
      modifies fs`root, fs`log
      ensures fs.Valid() && old(fs.log) <= fs.log
      ensures GivingBack(start, fs.root, context.pkgPath)
      ensures forall i | |old(fs.log)| <= i < |fs.log| :: GivingBack(start, fs.log[i], context.pkgPath)
      ensures fs.root == old(fs.root) ||
        EntryOnly(old(fs.root), fs.root, context.pkgPath, BackupPath(context.pkgPath), key)
      ensures
        var s := Lookup(Kids(start, context.pkgPath), key);
        var d := Lookup(Kids(start, BackupPath(context.pkgPath)), key);
        (ok ==> s.Some? && d.None?) && (!fs.faulty ==> ok == (s.Some? && d.None?)) &&
        (ok ==> Lookup(Kids(fs.root, BackupPath(context.pkgPath)), key) == s)
      ensures !fs.faulty ==> forall i | |old(fs.log)| <= i < |fs.log| :: fs.log[i] == fs.root
    {
      hide Cut, Put, Get, GoingBack;
      var pkg := context.pkgPath;
      var bck := BackupPath(pkg);
      EntryOf(fs.root, pkg, key);
      Present(Kids(fs.root, pkg), key);
      if !Exists(fs.root, pkg + [key]) {
        return false;
      }
      BackupPathIsApart(pkg);
      ok := MoveEntry(fs, pkg, bck, key, false);
      GoesBack(start, old(fs.root), fs.root, pkg, key);
      forall i | |old(fs.log)| <= i < |fs.log| ensures GivingBack(start, fs.log[i], pkg) {
        GoesBack(start, old(fs.root), fs.log[i], pkg, key);
      }
    }
  }

  lemma RootOf(t: Node, p: Path)
    requires Exists(t, p) && IsDir(t, p)
    ensures t.Dir?
  {
  }

  lemma EntryOf(t: Node, p: Path, key: Name)
    ensures Exists(t, p + [key]) <==> IsDir(t, p) && key in Kids(t, p)
  {
    GetAppend(t, p, [key]);
  }

  class StepRecoverFiles {
    const context: InstallerContext
    const fs: FileSystem

    constructor (context: InstallerContext, fs: FileSystem)
      ensures this.context == context && this.fs == fs
    {
      this.context, this.fs := context, fs;
    }

    method SetPackagePath() returns (known: bool)
      modifies context`pkgPath
      ensures known == (context.pkgid != "")
      ensures context.pkgPath == if known then context.rootApplicationPath + [context.pkgid] else old(context.pkgPath)
    {
      if context.pkgid == "" {
        return false;
      }
      context.pkgPath := context.rootApplicationPath + [context.pkgid];
      return true;
    }

    method RecoveryNew() returns (status: Status)
      requires fs.Valid()
      modifies context`pkgPath, fs`root, fs`log
      ensures fs.Valid() && status == OK
      ensures context.pkgid == "" ==> fs.root == old(fs.root) && fs.log == old(fs.log)
      ensures fs.log == old(fs.log) || fs.log == old(fs.log) + [fs.root]
      ensures fs.log == old(fs.log) ==> fs.root == old(fs.root)
      ensures context.pkgid != "" ==> fs.root == old(fs.root) || !Exists(fs.root, context.pkgPath)
      ensures context.pkgid != "" && !fs.faulty ==> !Exists(fs.root, context.pkgPath)
      ensures context.pkgid != "" ==>
        context.pkgPath == context.rootApplicationPath + [context.pkgid] &&
        SameOutside(old(fs.root), fs.root, context.pkgPath)
    {
      var known := SetPackagePath();
      if !known {
        return OK;
      }
      if Exists(fs.root, context.pkgPath) {
        var _ := fs.RemoveAll(context.pkgPath);
        GetCut(old(fs.root), context.pkgPath);
        CutCut(old(fs.root), context.pkgPath);
      }
      return OK;
    }

    lemma Removed(before: Node, now: Node, pkg: Path)
      requires Laid(before, pkg) && now == Cut(before, pkg)
      ensures RollingBack(before, now, pkg) && Get(now, pkg) == None
      ensures Get(now, BackupPath(pkg)) == Get(before, BackupPath(pkg))
    {
      hide Cut, Get;
      var bck := BackupPath(pkg);
      BackupPathIsApart(pkg);
      GetCut(before, pkg);
      CutCut(before, pkg);
      SameOutsideGet(before, now, pkg, bck);
      Widen(before, now, pkg, bck);
      DirKept(before, now, pkg, bck, Parent(pkg));
    }

    lemma MovedOver(before: Node, cleared: Node, now: Node, pkg: Path)
      requires Laid(before, pkg) && RollingBack(before, cleared, pkg) && Get(cleared, pkg) == None
      requires Get(cleared, BackupPath(pkg)) == Get(before, BackupPath(pkg))
      requires SameOutside2(cleared, now, BackupPath(pkg), pkg)
      requires (Get(now, BackupPath(pkg)) == Get(before, BackupPath(pkg)) && !IsFile(now, pkg) &&
                Entries(now, pkg) <= Entries(before, BackupPath(pkg))) ||
        (Get(now, BackupPath(pkg)) == None && Get(now, pkg) == Get(before, BackupPath(pkg)))
      ensures RollingBack(before, now, pkg)
    {
      hide Cut, Get;
      var bck := BackupPath(pkg);
      BackupPathIsApart(pkg);
      SameOutside2Swap(cleared, now, bck, pkg);
      SameOutside2Trans(before, cleared, now, pkg, bck);
      DirKept(before, now, pkg, bck, Parent(pkg));
    }

    /** Whatever fails, a disk on the way has the backup untouched, or the backup as the package. */
    method RecoveryUpdate() returns (status: Status)
      requires fs.Valid()
      requires context.pkgid != "" ==> Laid(fs.root, context.rootApplicationPath + [context.pkgid])
      modifies context`pkgPath, fs`root, fs`log
      ensures fs.Valid() && old(fs.log) <= fs.log
      ensures status == OK || (status == RECOVERY_ERROR && fs.faulty && fs.root == old(fs.root))
      ensures context.pkgid == "" ==>
        status == OK && fs.root == old(fs.root) && fs.log == old(fs.log) && context.pkgPath == old(context.pkgPath)
      ensures context.pkgid != "" ==>
        context.pkgPath == context.rootApplicationPath + [context.pkgid] &&
        (!Exists(old(fs.root), BackupPath(context.pkgPath)) ==> fs.root == old(fs.root) && fs.log == old(fs.log)) &&
        RollingBack(old(fs.root), fs.root, context.pkgPath) &&
        (forall i | |old(fs.log)| <= i < |fs.log| :: RollingBack(old(fs.root), fs.log[i], context.pkgPath)) &&
        (!fs.faulty && Exists(old(fs.root), BackupPath(context.pkgPath)) ==>
           !Exists(fs.root, BackupPath(context.pkgPath)) &&
           Get(fs.root, context.pkgPath) == Get(old(fs.root), BackupPath(context.pkgPath)))
    {
      hide Cut, Put, Get, Swapping, SameOutside2, Laid, RollingBack;
      var known := SetPackagePath();
      if !known {
        return OK;
      }
      var pkg := context.pkgPath;
      ghost var before := fs.root;
      NothingRolledBack(before, pkg);
      if Exists(fs.root, BackupPath(pkg)) {
        if Exists(fs.root, pkg) {
          var removed := fs.RemoveAll(pkg);
          if !removed {
            return RECOVERY_ERROR;
          }
          Removed(before, fs.root, pkg);
        }
        MoveBackupOver(before);
      }
      return OK;
    }

    lemma NothingRolledBack(t: Node, pkg: Path)
      requires Laid(t, pkg)
      ensures RollingBack(t, t, pkg)
    {
    }

    /** The backup goes where the package was; the result of this move is not looked at. */
    method MoveBackupOver(ghost before: Node)
      requires fs.Valid() && Laid(before, context.pkgPath) && RollingBack(before, fs.root, context.pkgPath)
      requires !Exists(fs.root, context.pkgPath) && Exists(before, BackupPath(context.pkgPath))
      requires Get(fs.root, BackupPath(context.pkgPath)) == Get(before, BackupPath(context.pkgPath))
      modifies fs`root, fs`log
      ensures fs.Valid() && old(fs.log) <= fs.log
      ensures RollingBack(before, fs.root, context.pkgPath)
      ensures forall i | |old(fs.log)| <= i < |fs.log| :: RollingBack(before, fs.log[i], context.pkgPath)
      ensures !fs.faulty ==>
        !Exists(fs.root, BackupPath(context.pkgPath)) &&
        Get(fs.root, context.pkgPath) == Get(before, BackupPath(context.pkgPath))
    {
      hide Cut, Put, Get, Swapping, SameOutside2;
      var pkg := context.pkgPath;
      BackupPathIsApart(pkg);
      ghost var cleared := fs.root;
      var _ := fs.MoveDir(BackupPath(pkg), pkg, false);
      MovedOver(before, cleared, fs.root, pkg);
      forall i | |old(fs.log)| <= i < |fs.log| ensures RollingBack(before, fs.log[i], pkg) {
        MovedOver(before, cleared, fs.log[i], pkg);
      }
    }
  }

  /** One recovery run over the package's files, in the order the steps are added.  Whatever fails, a disk on
      the way recovers to the same package exactly when every storage directory is whole where it is looked for. */
  method Recover(context: InstallerContext, fs: FileSystem) returns (status: Status)
    requires fs.Valid() && context.pkgid != ""
    requires context.pkgPath == context.rootApplicationPath + [context.pkgid] && Laid(fs.root, context.pkgPath)
    modifies context`pkgPath, fs`root, fs`log
    ensures fs.Valid() && old(fs.log) <= fs.log && context.pkgPath == old(context.pkgPath)
    ensures status == OK || (status == RECOVERY_ERROR && fs.faulty)
    ensures !Exists(old(fs.root), BackupPath(context.pkgPath)) ==> fs.root == old(fs.root) && fs.log == old(fs.log)
    ensures Laid(fs.root, context.pkgPath)
    ensures SameOutside2(old(fs.root), fs.root, context.pkgPath, BackupPath(context.pkgPath))
    ensures Exists(old(fs.root), BackupPath(context.pkgPath)) && status == OK ==>
      Replaced(old(fs.root), fs.root, context.pkgPath, fs.faulty)
    ensures forall i | |old(fs.log)| <= i < |fs.log| ::
      Laid(fs.log[i], context.pkgPath) && KeepsRest(old(fs.root), fs.log[i], context.pkgPath) &&
      SameOutside2(old(fs.root), fs.log[i], context.pkgPath, BackupPath(context.pkgPath)) &&
      (Equivalent(old(fs.root), fs.log[i], context.pkgPath) <==> Saved(old(fs.root), fs.log[i], context.pkgPath))
    ensures !fs.faulty ==>
      forall i | |old(fs.log)| <= i < |fs.log| :: Equivalent(old(fs.root), fs.log[i], context.pkgPath)
    ensures !fs.faulty ==>
      Get(fs.root, context.pkgPath) == old(RestoredAt(fs.root, context.pkgPath)) &&
      !Exists(fs.root, BackupPath(context.pkgPath))
  {
    hide Cut, Put, Get, RestoredKids, GoingBack, GivingBack, RollingBack, Independent, BackupPath, Home, Saved;
    var pkg := context.pkgPath;
    ghost var before := fs.root;
    var storage := new StepRecoverStorageDirectories(context, fs);
    var _ := storage.RecoveryUpdate();
    ghost var mid, n := fs.root, |fs.log|;
    var files := new StepRecoverFiles(context, fs);
    MidIsLaid(before, mid, pkg);
    status := files.RecoveryUpdate();
    if Exists(before, BackupPath(pkg)) {
      MidIsLaid(before, mid, pkg);
      forall i | |old(fs.log)| <= i < n
        ensures Laid(fs.log[i], pkg) && SameOutside2(before, fs.log[i], pkg, BackupPath(pkg))
        ensures KeepsRest(before, fs.log[i], pkg)
      {
        MidIsLaid(before, fs.log[i], pkg);
      }
      forall i | n <= i < |fs.log|
        ensures Laid(fs.log[i], pkg) && SameOutside2(before, fs.log[i], pkg, BackupPath(pkg))
        ensures Equivalent(before, fs.log[i], pkg) <==> Saved(before, fs.log[i], pkg)
        ensures KeepsRest(before, fs.log[i], pkg)
      {
        BehindMid(before, mid, fs.log[i], pkg);
      }
      BehindMid(before, mid, fs.root, pkg);
      if !fs.faulty {
        forall i | n <= i < |fs.log| ensures Saved(before, fs.log[i], pkg) {
          RollingBackSwaps(mid, fs.log[i], pkg);
          HomeIsSaved(before, mid, fs.log[i], pkg);
        }
        RollingBackSwaps(mid, fs.root, pkg);
        HomeIsSaved(before, mid, fs.root, pkg);
        NoBackup(fs.root, pkg);
      }
    } else {
      NoBackup(before, pkg);
    }
  }

  lemma NoBackup(t: Node, pkg: Path)
    requires pkg != [] && !Exists(t, BackupPath(pkg))
    ensures RestoredAt(t, pkg) == Get(t, pkg)
  {
  }

  lemma MidIsLaid(before: Node, mid: Node, pkg: Path)
    requires Laid(before, pkg) && (mid == before || GivingBack(before, mid, pkg))
    ensures Laid(mid, pkg) && SameOutside2(before, mid, pkg, BackupPath(pkg))
    ensures Exists(before, BackupPath(pkg)) ==> IsDir(before, BackupPath(pkg)) && Exists(mid, BackupPath(pkg))
    ensures Exists(before, BackupPath(pkg)) ==> KeepsRest(before, mid, pkg)
  {
  }

  lemma BehindMid(before: Node, mid: Node, now: Node, pkg: Path)
    requires Laid(before, pkg) && IsDir(before, BackupPath(pkg)) && GivingBack(before, mid, pkg)
    requires RollingBack(mid, now, pkg)
    ensures Laid(now, pkg) && SameOutside2(before, now, pkg, BackupPath(pkg))
    ensures Equivalent(before, now, pkg) <==> Saved(before, now, pkg)
    ensures KeepsRest(before, now, pkg)
  {
    hide RestoredKids, GoingBack, Saved;
    RollingBackKeepsRest(before, mid, now, pkg);
    SameOutside2Trans(before, mid, now, pkg, BackupPath(pkg));
    RollingBackIff(before, mid, now, pkg);
  }

  /** Recovery runs cut short at any of their steps, as often as one likes, and a last one that finishes:
      the package is the one a single undisturbed run would have made. */
  method RecoverInterrupted(context: InstallerContext, fs: FileSystem, crashes: nat)
    requires fs.Valid() && !fs.faulty && context.pkgid != ""
    requires context.pkgPath == context.rootApplicationPath + [context.pkgid] && Laid(fs.root, context.pkgPath)
    modifies context`pkgPath, fs`root, fs`log
    ensures fs.Valid() && context.pkgPath == old(context.pkgPath)
    ensures Get(fs.root, context.pkgPath) == old(RestoredAt(fs.root, context.pkgPath))
    ensures !Exists(fs.root, BackupPath(context.pkgPath))
    ensures SameOutside2(old(fs.root), fs.root, context.pkgPath, BackupPath(context.pkgPath))
  {
    hide Cut, Put, Get, RestoredKids, Saved;
    for n := 0 to crashes
      invariant fs.Valid() && context.pkgPath == old(context.pkgPath) && context.pkgid != ""
      invariant Laid(fs.root, context.pkgPath) && Equivalent(old(fs.root), fs.root, context.pkgPath)
    {
      ghost var before := fs.root;
      var started := |fs.log|;
      var _ := Recover(context, fs);
      if started < |fs.log| {
        var at :| started <= at < |fs.log|;
        assert Equivalent(before, fs.log[at], context.pkgPath);
        RootOf(fs.log[at], Parent(context.pkgPath));
        fs.CrashAt(at);
      }
    }
    var _ := Recover(context, fs);
  }

  /** A recovery run with faults anywhere, stopped anywhere, and then recoveries without: the package comes back
      exactly when the disk it was stopped at had every storage directory whole where it is looked for. */
  method RecoverAfterFaults(context: InstallerContext, fs: FileSystem, at: nat, crashes: nat) returns (shown: seq<Node>)
    requires fs.Valid() && context.pkgid != ""
    requires context.pkgPath == context.rootApplicationPath + [context.pkgid] && Laid(fs.root, context.pkgPath)
    modifies context`pkgPath, fs
    ensures old(fs.log) <= shown && context.pkgPath == old(context.pkgPath)
    ensures |old(fs.log)| <= at < |shown| ==>
      !Exists(fs.root, BackupPath(context.pkgPath)) &&
      (Get(fs.root, context.pkgPath) == old(RestoredAt(fs.root, context.pkgPath)) <==>
       Saved(old(fs.root), shown[at], context.pkgPath))
    ensures !old(fs.faulty) ==>
      forall i | |old(fs.log)| <= i < |shown| :: Saved(old(fs.root), shown[i], context.pkgPath)
  {
    hide Cut, Put, Get, RestoredKids, Saved;
    ghost var before := fs.root;
    var started := |fs.log|;
    var _ := Recover(context, fs);
    shown := fs.log;
    if started <= at < |shown| {
      fs.faulty := false;
      assert Equivalent(before, shown[at], context.pkgPath) <==> Saved(before, shown[at], context.pkgPath);
      RootOf(shown[at], Parent(context.pkgPath));
      fs.CrashAt(at);
      RecoverInterrupted(context, fs, crashes);
    }
  }

  /** Such a disk: the rename of a storage directory fails, and the machine stops right behind the first call of
      the copying that follows.  An empty directory is all that comes back. */
  method LoseStorage(context: InstallerContext, fs: FileSystem, key: Name, crashes: nat)
    requires fs.Valid() && !fs.faulty && context.pkgid != ""
    requires context.pkgPath == context.rootApplicationPath + [context.pkgid] && Laid(fs.root, context.pkgPath)
    requires var pkg := context.pkgPath;
      Exists(fs.root, BackupPath(pkg)) && OnlyInPackage(Kids(fs.root, pkg), Kids(fs.root, BackupPath(pkg)), key) &&
      Kids(fs.root, pkg)[key].Dir? && Kids(fs.root, pkg)[key] != EmptyDir
    modifies context`pkgPath, fs`root, fs`log
    ensures IsDir(fs.root, context.pkgPath) && Lookup(Kids(fs.root, context.pkgPath), key) == Some(EmptyDir)
    ensures Get(fs.root, context.pkgPath) != old(RestoredAt(fs.root, context.pkgPath))
  {
    hide Cut, Put;
    var pkg := context.pkgPath;
    var bck := BackupPath(pkg);
    BackupPathIsApart(pkg);
    IndependentChildren(pkg, bck, key);
    GetAppend(fs.root, pkg, [key]);
    GetAppend(fs.root, bck, [key]);
    ghost var before := fs.root;
    var at := |fs.log|;
    var _ := fs.CopyAway(pkg + [key], bck + [key], false);
    GetPut(before, bck + [key], EmptyDir);
    CutPut(before, bck + [key], EmptyDir);
    EmptyShowsUp(before, fs.log[at], pkg, key);
    RootOf(fs.log[at], Parent(pkg));
    fs.CrashAt(at);
    RecoverInterrupted(context, fs, crashes);
  }

  lemma EmptyShowsUp(before: Node, now: Node, pkg: Path, key: Name)
    requires Laid(before, pkg) && IsDir(before, pkg) && IsDir(before, BackupPath(pkg)) && key in STORAGE
    requires SameOutside(before, now, BackupPath(pkg) + [key]) && Get(now, BackupPath(pkg) + [key]) == Some(EmptyDir)
    requires key in Kids(before, pkg) && key !in Kids(before, BackupPath(pkg)) && Kids(before, pkg)[key] != EmptyDir
    ensures Laid(now, pkg) && RestoredAt(now, pkg).Some? && RestoredAt(now, pkg).value.Dir?
    ensures Lookup(RestoredAt(now, pkg).value.kids, key) == Some(EmptyDir)
    ensures RestoredAt(now, pkg) != RestoredAt(before, pkg)
  {
    hide Cut;
    var bck := BackupPath(pkg);
    BackupPathIsApart(pkg);
    SameOutsideEntry(before, now, bck, key);
    SameOutsideGet(before, now, bck, pkg);
    NotAboveParent(bck, pkg);
    CutKeepsDir(before, bck, Parent(pkg));
    CutKeepsDir(now, bck, Parent(pkg));
    assert Lookup(RestoredAt(before, pkg).value.kids, key) == Some(Kids(before, pkg)[key]);
  }
}
