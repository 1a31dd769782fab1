/** StepCopyBackup: the old package is moved aside entry by entry, the new one moved in. */
module CopyBackup {
  import opened FileTree
  import opened FileSystem
  import opened PackageTrees
  import opened Repair

  /** Files whose removal failed after they were copied into the backup. */
  predicate Leftovers(left: map<Name, Node>, whole: map<Name, Node>) {
    forall k | k in left :: k in whole && left[k] == whole[k] && whole[k].File?
  }

  /** Backup() between two entries: those in todo are still in the package only, and with `clean` nothing else is. */
  ghost predicate HalfMoved(whole: map<Name, Node>, pkg: map<Name, Node>, bck: map<Name, Node>, todo: set<Name>,
                            clean: bool)
  {
    (clean ==> pkg.Keys <= todo) &&
    (forall k :: k in bck <==> k in whole && k !in todo) && (forall k | k in bck :: bck[k] == whole[k]) &&
    (forall k | k in todo :: k in pkg) &&
    (forall k | k in pkg :: k in whole && pkg[k] == whole[k] && (k !in todo ==> whole[k].File?))
  }

  lemma HalfMovedStep(whole: map<Name, Node>, pkg: map<Name, Node>, bck: map<Name, Node>,
                      pkg': map<Name, Node>, bck': map<Name, Node>,
                      todo: set<Name>, clean: bool, name: Name)
    requires HalfMoved(whole, pkg, bck, todo, clean) && name in todo
    requires pkg' - {name} == pkg - {name} && bck' - {name} == bck - {name}
    requires Lookup(bck', name) == Lookup(whole, name) && name in whole
    requires name in pkg' ==> !clean && pkg'[name] == whole[name] && whole[name].File?
    ensures HalfMoved(whole, pkg', bck', todo - {name}, clean)
  {
    forall k | k != name
      ensures (k in pkg' <==> k in pkg) && (k in pkg' ==> pkg'[k] == pkg[k])
      ensures (k in bck' <==> k in bck) && (k in bck' ==> bck'[k] == bck[k])
    {
      KidsBut(pkg', pkg, name, k);
      KidsBut(bck', bck, name, k);
    }
  }

  /** Every entry of the package is whole in it or in the backup. */
  ghost predicate Split(whole: map<Name, Node>, pkg: map<Name, Node>, bck: map<Name, Node>) {
    forall k | k in whole :: Lookup(pkg, k) == Some(whole[k]) || Lookup(bck, k) == Some(whole[k])
  }

  lemma HalfMovedSplits(whole: map<Name, Node>, pkg: map<Name, Node>, bck: map<Name, Node>,
                        pkg': map<Name, Node>, bck': map<Name, Node>,
                        todo: set<Name>, clean: bool, name: Name)
    requires HalfMoved(whole, pkg, bck, todo, clean) && name in whole
    requires pkg' - {name} == pkg - {name} && bck' - {name} == bck - {name}
    requires Lookup(pkg', name) == Some(whole[name])
    ensures Split(whole, pkg', bck')
  {
    forall k | k in whole ensures Lookup(pkg', k) == Some(whole[k]) || Lookup(bck', k) == Some(whole[k]) {
      if k != name {
        KidsBut(pkg', pkg, name, k);
        KidsBut(bck', bck, name, k);
      }
    }
  }

  class StepCopyBackup {
    const context: InstallerContext
    const fs: FileSystem
    var installPath: Path
    var backupPath: Path

    constructor (context: InstallerContext, fs: FileSystem)
      ensures this.context == context && this.fs == fs
      ensures installPath == [] && backupPath == []
    {
      this.context, this.fs := context, fs;
      installPath, backupPath := [], [];
    }

    /** The paths are set as precheck sets them, and the unpacked tree lies elsewhere. */
    ghost predicate Ready()
      reads this, context, fs
    {
      fs.Valid() && installPath != [] && backupPath == BackupPath(installPath) && context.pkgPath == installPath &&
      IsDir(fs.root, Parent(installPath)) &&
      (context.unpackedDirPath != [] ==>
        Independent(context.unpackedDirPath, installPath) && Independent(context.unpackedDirPath, backupPath))
    }

    method Precheck() returns (status: Status)
      modifies this, context`pkgPath
      ensures status == (if context.pkgid == "" then PACKAGE_NOT_FOUND
                         else if context.rootApplicationPath == [] then INVALID_VALUE else OK)
      ensures status == OK ==> context.pkgPath == installPath == context.rootApplicationPath + [context.pkgid]
      ensures status == OK ==> backupPath == BackupPath(installPath)
      ensures status != OK ==> context.pkgPath == old(context.pkgPath)
    {
      if context.pkgid == "" {
        return PACKAGE_NOT_FOUND;
      }
      if context.rootApplicationPath == [] {
        return INVALID_VALUE;
      }
      context.pkgPath := context.rootApplicationPath + [context.pkgid];
      installPath := context.pkgPath;
      backupPath := BackupPath(context.pkgPath);
      return OK;
    }

    /** The directory that holds the package and its backup stays. */
    lemma RootKept(a: Node, b: Node)
      requires installPath != [] && backupPath == BackupPath(installPath)
      requires SameOutside2(a, b, installPath, backupPath)
      ensures IsDir(a, Parent(installPath)) == IsDir(b, Parent(installPath))
    {
      DirKept(a, b, installPath, backupPath, Parent(installPath));
    }

    /** Also returns where in the log the backup was complete. */
    method Process() returns (status: Status, saved: nat)
      requires Ready() && IsDir(fs.root, installPath) && !Exists(fs.root, backupPath)
      modifies fs`root, fs`log
      ensures Ready() && old(fs.log) <= fs.log && |old(fs.log)| <= saved <= |fs.log|
      ensures status in {OK, APP_DIR_ERROR}
      ensures saved == |fs.log| ==> status != OK && fs.faulty && HalfWay(old(fs.root), fs.root)
      ensures !fs.faulty ==>
        (status == OK <==> context.unpackedDirPath != [] && old(IsDir(fs.root, context.unpackedDirPath)))
      ensures forall i | saved <= i < |fs.log| ::
        Get(fs.log[i], backupPath) == old(Get(fs.root, installPath)) && IsDir(fs.log[i], installPath) &&
        Entries(fs.log[i], installPath) <=
        old(Entries(fs.root, installPath) + Entries(fs.root, context.unpackedDirPath))
      ensures forall i | |old(fs.log)| <= i < |fs.log| ::
        SameElsewhere(old(fs.root), fs.log[i], installPath, backupPath, context.unpackedDirPath)
      ensures status == OK ==> old(IsDir(fs.root, context.unpackedDirPath))
      ensures status == OK ==> exists left: map<Name, Node> ::
        Leftovers(left, old(Kids(fs.root, installPath))) && (!fs.faulty ==> left == map[]) &&
        Get(fs.root, installPath) == Some(Merge(old(Get(fs.root, context.unpackedDirPath).value), Dir(left)))
      ensures status == OK ==> !Exists(fs.root, context.unpackedDirPath)
    {
      hide Cut, Put, Get;
      BackupPathIsApart(installPath);
      var ok := Backup();
      saved := if ok then |fs.log| - 1 else |fs.log|;
      forall i | |old(fs.log)| <= i < |fs.log|
        ensures SameElsewhere(old(fs.root), fs.log[i], installPath, backupPath, context.unpackedDirPath)
      {
        ElsewhereIsSame(old(fs.root), fs.log[i], installPath, backupPath, context.unpackedDirPath);
      }
      if !ok {
        return APP_DIR_ERROR, saved;
      }
      ghost var left := Kids(fs.root, installPath);
      ghost var from := context.unpackedDirPath;
      assert Get(fs.root, installPath) == Some(Dir(left));
      if from != [] {
        SameOutside2Get(old(fs.root), fs.root, installPath, backupPath, from);
      }
      ok := NewContent();
      forall i | saved < i < |fs.log|
        ensures Get(fs.log[i], backupPath) == old(Get(fs.root, installPath)) && IsDir(fs.log[i], installPath)
        ensures Entries(fs.log[i], installPath) <= old(Entries(fs.root, installPath) + Entries(fs.root, from))
      {
        assert SameElsewhere(fs.log[saved], fs.log[i], installPath, from, installPath);
      }
      status := if ok then OK else APP_DIR_ERROR;
    }

    method NewContent() returns (ok: bool)
      requires Ready() && IsDir(fs.root, installPath)
      modifies fs`root, fs`log
      ensures Ready() && old(fs.log) <= fs.log
      ensures context.unpackedDirPath == [] ==> !ok && fs.log == old(fs.log)
      ensures !fs.faulty && context.unpackedDirPath != [] ==>
        ok == CanMove(old(Get(fs.root, context.unpackedDirPath)), old(Get(fs.root, installPath)), true)
      ensures forall i | |old(fs.log)| <= i < |fs.log| ::
        SameElsewhere(old(fs.root), fs.log[i], installPath, context.unpackedDirPath, installPath) &&
        IsDir(fs.log[i], installPath) &&
        Entries(fs.log[i], installPath) <=
        old(Entries(fs.root, installPath) + Entries(fs.root, context.unpackedDirPath))
      ensures ok ==> old(IsDir(fs.root, context.unpackedDirPath))
      ensures ok ==>
        Get(fs.root, installPath) ==
        Some(Merge(old(Get(fs.root, context.unpackedDirPath).value), old(Get(fs.root, installPath).value)))
      ensures if ok then !Exists(fs.root, context.unpackedDirPath)
        else Get(fs.root, context.unpackedDirPath) == old(Get(fs.root, context.unpackedDirPath))
    {
      var from := context.unpackedDirPath;
      if from == [] {
        return false;
      }
      // create_directories finds the parent directory in place
      ok := fs.MoveDir(from, installPath, true);
      NotAboveParent(from, installPath);
      DirKept(old(fs.root), fs.root, from, installPath, Parent(installPath));
      forall i | |old(fs.log)| <= i < |fs.log|
        ensures SameElsewhere(old(fs.root), fs.log[i], installPath, from, installPath)
      {
        ElsewhereIsSame(old(fs.root), fs.log[i], from, installPath, installPath);
      }
    }

    /** Drops the unpacked tree and brings the backup back, if there is one; the disk only ever shows the backup or
        the restored package. */
    method Undo() returns (status: Status)
      requires Ready()
      modifies fs`root, fs`log
      ensures Ready() && old(fs.log) <= fs.log
      ensures status == OK ==> !Exists(fs.root, backupPath)
      ensures status == OK ==>
        Get(fs.root, installPath) == old(Get(fs.root, if Exists(fs.root, backupPath) then backupPath else installPath))
      ensures status != OK ==> fs.faulty && status == APP_DIR_ERROR
      ensures !fs.faulty && context.unpackedDirPath != [] ==> !Exists(fs.root, context.unpackedDirPath)
      ensures Swapping(old(fs.root), fs.root, installPath)
      ensures forall i | |old(fs.log)| <= i < |fs.log| ::
        SameElsewhere(old(fs.root), fs.log[i], installPath, backupPath, context.unpackedDirPath)
      ensures forall i | |old(fs.log)| <= i < |fs.log| :: Swapping(old(fs.root), fs.log[i], installPath)
    {
      hide Cut, Put, Get;
      BackupPathIsApart(installPath);
      var unpacked := context.unpackedDirPath;
      if unpacked != [] {
        var _ := fs.RemoveAll(unpacked);
        UndoneApart(old(fs.root), fs.root, unpacked);
      }
      if Exists(fs.root, backupPath) {
        ghost var dropped := fs.root;
        var ok := RollbackApplicationDirectory();
        if unpacked != [] {
          SameOutside2Get(dropped, fs.root, installPath, backupPath, unpacked);
        }
        if !ok {
          return APP_DIR_ERROR;
        }
      }
      return OK;
    }

    lemma UndoneApart(before: Node, now: Node, unpacked: Path)
      requires installPath != [] && backupPath == BackupPath(installPath)
      requires unpacked != [] && Independent(unpacked, installPath) && Independent(unpacked, backupPath)
      requires now == before || now == Cut(before, unpacked)
      ensures Get(now, installPath) == Get(before, installPath) && Get(now, backupPath) == Get(before, backupPath)
      ensures IsDir(now, Parent(installPath)) == IsDir(before, Parent(installPath))
      ensures SameElsewhere(before, now, installPath, backupPath, unpacked)
      ensures now == Cut(before, unpacked) ==> !Exists(now, unpacked)
    {
      GetCut(before, unpacked);
      CutCut(before, unpacked);
      SameOutsideGet(before, now, unpacked, installPath);
      SameOutsideGet(before, now, unpacked, backupPath);
      NotAboveParent(unpacked, installPath);
      CutKeepsDir(before, unpacked, Parent(installPath));
      forall x: Path | Independent(unpacked, x) ensures Get(before, x) == Get(now, x) {
        SameOutsideGet(before, now, unpacked, x);
      }
    }

    method RollbackApplicationDirectory() returns (ok: bool)
      requires Ready() && Exists(fs.root, backupPath)
      modifies fs`root, fs`log
      ensures Ready() && old(fs.log) <= fs.log
      ensures ok ==> Get(fs.root, installPath) == old(Get(fs.root, backupPath)) && !Exists(fs.root, backupPath)
      ensures !ok ==> fs.faulty
      ensures SameOutside2(old(fs.root), fs.root, installPath, backupPath)
      ensures Swapping(old(fs.root), fs.root, installPath)
      ensures forall i | |old(fs.log)| <= i < |fs.log| ::
        SameElsewhere(old(fs.root), fs.log[i], installPath, backupPath, context.unpackedDirPath)
      ensures forall i | |old(fs.log)| <= i < |fs.log| :: Swapping(old(fs.root), fs.log[i], installPath)
    {
      hide Cut, Put, Get;
      BackupPathIsApart(installPath);
      if Exists(fs.root, installPath) {
        ok := fs.RemoveAll(installPath);
        if !ok {
          return;
        }
        GetCut(old(fs.root), installPath);
        CutCut(old(fs.root), installPath);
        SameOutsideGet(old(fs.root), fs.root, installPath, backupPath);
        Widen(old(fs.root), fs.root, installPath, backupPath);
        RootKept(old(fs.root), fs.root);
        ElsewhereIsSame(old(fs.root), fs.root, installPath, backupPath, context.unpackedDirPath);
      }
      ghost var cleared := fs.root;
      ok := fs.MoveDir(backupPath, installPath, false);
      assert fs.log[|fs.log| - 1] == fs.root;
      SameOutside2Swap(cleared, fs.root, backupPath, installPath);
      RootKept(cleared, fs.root);
      forall i | |fs.log| > i >= |old(fs.log)| && fs.log[i] != cleared
        ensures SameElsewhere(cleared, fs.log[i], installPath, backupPath, context.unpackedDirPath)
      {
        ElsewhereIsSame(cleared, fs.log[i], backupPath, installPath, context.unpackedDirPath);
      }
    }

    method Clean() returns (status: Status)
      requires Ready()
      modifies fs`root, fs`log
      ensures Ready() && old(fs.log) <= fs.log
      ensures status == OK ==> !Exists(fs.root, backupPath)
      ensures status != OK ==> fs.faulty && status == APP_DIR_ERROR
      ensures SameOutside(old(fs.root), fs.root, backupPath)
      ensures forall i | |old(fs.log)| <= i < |fs.log| :: SameOutside(old(fs.root), fs.log[i], backupPath)
      ensures Get(fs.root, installPath) == old(Get(fs.root, installPath))
      ensures forall i | |old(fs.log)| <= i < |fs.log| ::
        Get(fs.log[i], installPath) == old(Get(fs.root, installPath)) && !Exists(fs.log[i], backupPath)
    {
      hide Cut, Put, Get;
      BackupPathIsApart(installPath);
      if Exists(fs.root, backupPath) {
        var removed := fs.RemoveAll(backupPath);
        if !removed {
          return APP_DIR_ERROR;
        }
        GetCut(old(fs.root), backupPath);
        CutCut(old(fs.root), backupPath);
        SameOutsideGet(old(fs.root), fs.root, backupPath, installPath);
        Widen(old(fs.root), fs.root, installPath, backupPath);
        RootKept(old(fs.root), fs.root);
      }
      return OK;
    }

    /** A backup that was never begun, or one that stopped between two entries. */
    ghost predicate HalfWay(before: Node, now: Node)
      reads this
    {
      if Exists(now, backupPath) then
        IsDir(now, installPath) && IsDir(now, backupPath) &&
        Split(Kids(before, installPath), Kids(now, installPath), Kids(now, backupPath))
      else
        now == before
    }

    /** A backup, whole or stopped half way, that is undone at once.  The old package comes back if and only if the
        backup was whole or was never begun; the entries that were still to be moved are lost otherwise. */
    method BackupAndUndo() returns (ok: bool, status: Status, ghost half: Node)
      requires Ready() && IsDir(fs.root, installPath) && !Exists(fs.root, backupPath)
      modifies fs`root, fs`log
      ensures if ok then Get(half, backupPath) == old(Get(fs.root, installPath)) else HalfWay(old(fs.root), half)
      ensures !fs.faulty ==> ok
      ensures status == OK ==>
        (Get(fs.root, installPath) == old(Get(fs.root, installPath)) <==>
         !Exists(half, backupPath) || Get(half, backupPath) == old(Get(fs.root, installPath)))
      ensures !fs.faulty ==> status == OK
    {
      hide Cut, Put, Get;
      ok := Backup();
      half := fs.root;
      status := Undo();
    }

    method Backup() returns (ok: bool)
      requires Ready() && IsDir(fs.root, installPath) && !Exists(fs.root, backupPath)
      modifies fs`root, fs`log
      ensures Ready() && old(fs.log) <= fs.log
      ensures SameOutside2(old(fs.root), fs.root, installPath, backupPath)
      ensures forall i | |old(fs.log)| <= i < |fs.log| :: SameOutside2(old(fs.root), fs.log[i], installPath, backupPath)
      ensures ok ==> |old(fs.log)| < |fs.log|
      ensures ok ==> Get(fs.root, backupPath) == old(Get(fs.root, installPath)) && IsDir(fs.root, installPath)
      ensures ok ==> Leftovers(Kids(fs.root, installPath), old(Kids(fs.root, installPath)))
      ensures ok && !fs.faulty ==> Get(fs.root, installPath).value == EmptyDir
      ensures !ok ==> fs.faulty
      ensures !ok ==> HalfWay(old(fs.root), fs.root)
    {
      hide Cut, Put, Get;
      BackupPathIsApart(installPath);
      ok := fs.MakeDirectory(backupPath);
      if !ok {
        return;
      }
      GetPut(old(fs.root), backupPath, EmptyDir);
      CutPut(old(fs.root), backupPath, EmptyDir);
      Widen(old(fs.root), fs.root, installPath, backupPath);
      SameOutsideGet(old(fs.root), fs.root, backupPath, installPath);
      RootKept(old(fs.root), fs.root);
      ghost var whole := old(Kids(fs.root, installPath));
      var todo := Get(fs.root, installPath).value.kids.Keys;
      while todo != {}
        invariant Ready() && old(fs.log) < fs.log && todo <= whole.Keys
        invariant SameOutside2(old(fs.root), fs.root, installPath, backupPath)
        invariant forall i | |old(fs.log)| <= i < |fs.log| ::
          SameOutside2(old(fs.root), fs.log[i], installPath, backupPath)
        invariant IsDir(fs.root, installPath) && IsDir(fs.root, backupPath)
        invariant HalfMoved(whole, Kids(fs.root, installPath), Kids(fs.root, backupPath), todo, !fs.faulty)
        decreases |todo|
      {
        var name :| name in todo;
        ok := BackupEntry(name, old(fs.root), whole, todo);
        if !ok {
          return false;
        }
        todo := todo - {name};
      }
      ok := true;
      assert Kids(fs.root, backupPath) == whole;
    }

    /** One round of Backup()'s loop. */
    method BackupEntry(name: Name, ghost start: Node, ghost whole: map<Name, Node>, ghost todo: set<Name>)
      returns (ok: bool)
      requires Ready() && IsDir(fs.root, installPath) && IsDir(fs.root, backupPath)
      requires SameOutside2(start, fs.root, installPath, backupPath)
      requires name in todo && name in whole
      requires HalfMoved(whole, Kids(fs.root, installPath), Kids(fs.root, backupPath), todo, !fs.faulty)
      modifies fs`root, fs`log
      ensures Ready() && old(fs.log) <= fs.log
      ensures SameOutside2(start, fs.root, installPath, backupPath)
      ensures forall i | |old(fs.log)| <= i < |fs.log| :: SameOutside2(start, fs.log[i], installPath, backupPath)
      ensures IsDir(fs.root, installPath) && IsDir(fs.root, backupPath)
      ensures ok ==> HalfMoved(whole, Kids(fs.root, installPath), Kids(fs.root, backupPath), todo - {name}, !fs.faulty)
      ensures !ok ==> fs.faulty && Split(whole, Kids(fs.root, installPath), Kids(fs.root, backupPath))
    {
      hide Cut, Put, Get;
      BackupPathIsApart(installPath);
      var from, to := installPath + [name], backupPath + [name];
      IndependentChildren(installPath, backupPath, name);
      TwoEntries(fs.root, fs.root, installPath, backupPath, name);
      if IsDir(fs.root, from) {
        ok := fs.MoveDir(from, to, false);
      } else {
        ok := fs.MoveFile(from, to);
      }
      TwoEntries(old(fs.root), fs.root, installPath, backupPath, name);
      forall i | |old(fs.log)| <= i < |fs.log| ensures SameOutside2(start, fs.log[i], installPath, backupPath) {
        TwoEntries(old(fs.root), fs.log[i], installPath, backupPath, name);
      }
      RootKept(old(fs.root), fs.root);
      if ok {
        HalfMovedStep(whole, old(Kids(fs.root, installPath)), old(Kids(fs.root, backupPath)),
                      Kids(fs.root, installPath), Kids(fs.root, backupPath), todo, !fs.faulty, name);
      } else {
        HalfMovedSplits(whole, old(Kids(fs.root, installPath)), old(Kids(fs.root, backupPath)),
                        Kids(fs.root, installPath), Kids(fs.root, backupPath), todo, !fs.faulty, name);
      }
    }
  }
}
