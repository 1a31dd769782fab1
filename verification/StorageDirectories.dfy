/** StepCopyStorageDirectories: data/ and shared/ travel between the backup and the new package. */
module StorageDirectories {
  import opened FileTree
  import opened FileSystem
  import opened PackageTrees
  import opened Repair

  /** The storage directories on their way from the backup b0 into the package p0: each is still in the
      backup, or complete in the package. */
  ghost predicate InFlight(p0: map<Name, Node>, b0: map<Name, Node>, p: map<Name, Node>, b: map<Name, Node>) {
    forall k ::
      if k in STORAGE then
        (Lookup(b, k) == Lookup(b0, k) && (k !in b0 ==> Lookup(p, k) == Lookup(p0, k))) ||
        (k in b0 && k !in b && Lookup(p, k) == Some(Moved(b0[k], Lookup(p0, k))))
      else
        Lookup(b, k) == Lookup(b0, k) && (k != CACHE ==> Lookup(p, k) == Lookup(p0, k))
  }

  /** The storage directory is moved by a run without faults: shared/ only after data/. */
  predicate Goes(p0: map<Name, Node>, b0: map<Name, Node>, key: Name) {
    CanMove(Lookup(b0, DATA), Lookup(p0, DATA), true) &&
    (key != DATA ==> CanMove(Lookup(b0, key), Lookup(p0, key), true))
  }

  /** Where a storage directory is after a run without faults. */
  ghost predicate Travelled(p0: map<Name, Node>, b0: map<Name, Node>, p: map<Name, Node>, b: map<Name, Node>,
                            key: Name) {
    if Goes(p0, b0, key) then key in b0 && key !in b && Lookup(p, key) == Some(Moved(b0[key], Lookup(p0, key)))
    else Lookup(b, key) == Lookup(b0, key) && (key !in b0 ==> Lookup(p, key) == Lookup(p0, key))
  }

  /** b differs from a at most at the entry `key` of the directories p and q. */
  ghost predicate EntryOnly(a: Node, b: Node, p: Path, q: Path, key: Name)
    requires p != [] && q != []
  {
    SameOutside2(a, b, p, q) && IsDir(b, p) && IsDir(b, q) &&
    forall k | k != key ::
      Lookup(Kids(b, p), k) == Lookup(Kids(a, p), k) && Lookup(Kids(b, q), k) == Lookup(Kids(a, q), k)
  }

  lemma EntryOnlyFrom(a: Node, b: Node, p: Path, q: Path, key: Name)
    requires Independent(p, q) && IsDir(a, p) && IsDir(a, q)
    requires SameOutside2(a, b, p + [key], q + [key])
    ensures EntryOnly(a, b, p, q, key)
    ensures Get(b, p + [key]) == Lookup(Kids(b, p), key) && Get(b, q + [key]) == Lookup(Kids(b, q), key)
  {
    hide Cut, Get;
    TwoEntries(a, b, p, q, key);
    forall k | k != key
      ensures Lookup(Kids(b, p), k) == Lookup(Kids(a, p), k) && Lookup(Kids(b, q), k) == Lookup(Kids(a, q), k)
    {
      KidsBut(Kids(b, p), Kids(a, p), key, k);
      KidsBut(Kids(b, q), Kids(a, q), key, k);
    }
  }

  /** MoveDir(from / key, to / key), seen from the two directories. */
  method MoveEntry(fs: FileSystem, from: Path, to: Path, key: Name, merge: bool) returns (ok: bool)
    requires fs.Valid() && Independent(from, to) && IsDir(fs.root, from) && IsDir(fs.root, to)
    modifies fs`root, fs`log
    ensures fs.Valid() && old(fs.log) <= fs.log
    ensures EntryOnly(old(fs.root), fs.root, from, to, key)
    ensures forall i | |old(fs.log)| <= i < |fs.log| :: EntryOnly(old(fs.root), fs.log[i], from, to, key)
    ensures forall i | |old(fs.log)| <= i < |fs.log| ::
      Lookup(Kids(fs.log[i], from), key) == old(Lookup(Kids(fs.root, from), key)) || (ok && fs.log[i] == fs.root)
    ensures var s, d := old(Lookup(Kids(fs.root, from), key)), old(Lookup(Kids(fs.root, to), key));
      (ok ==> CanMove(s, d, merge)) && (!fs.faulty && CanMove(s, d, merge) ==> ok) &&
      (if ok then
         key !in Kids(fs.root, from) && Lookup(Kids(fs.root, to), key) == Some(Moved(s.value, d))
       else
         Lookup(Kids(fs.root, from), key) == s) &&
      (s.None? || (d.Some? && !merge) ==> fs.root == old(fs.root) && fs.log == old(fs.log)) &&
      (!fs.faulty && ok && d.None? ==> fs.log == old(fs.log) + [fs.root])
  {
    hide Cut, Put, Get;
    var src, dst := from + [key], to + [key];
    IndependentChildren(from, to, key);
    EntryOnlyFrom(fs.root, fs.root, from, to, key);
    ok := fs.MoveDir(src, dst, merge);
    EntryOnlyFrom(old(fs.root), fs.root, from, to, key);
    forall i | |old(fs.log)| <= i < |fs.log|
      ensures EntryOnly(old(fs.root), fs.log[i], from, to, key)
      ensures Lookup(Kids(fs.log[i], from), key) == old(Lookup(Kids(fs.root, from), key)) ||
        (ok && fs.log[i] == fs.root)
    {
      EntryOnlyFrom(old(fs.root), fs.log[i], from, to, key);
    }
  }

  /** The entry `key` of both directories has not changed. */
  ghost predicate SameEntry(a: Node, b: Node, p: Path, q: Path, key: Name) {
    Lookup(Kids(b, p), key) == Lookup(Kids(a, p), key) && Lookup(Kids(b, q), key) == Lookup(Kids(a, q), key)
  }

  lemma KeptEntry(a: Node, b: Node, p: Path, q: Path, changed: Name, key: Name)
    requires p != [] && q != [] && EntryOnly(a, b, p, q, changed) && key != changed
    ensures SameEntry(a, b, p, q, key)
  {
  }

  lemma NothingGivenBack(t: Node, pkg: Path)
    requires Laid(t, pkg) && IsDir(t, BackupPath(pkg))
    ensures GivingBack(t, t, pkg) && forall key :: SameEntry(t, t, pkg, BackupPath(pkg), key)
  {
  }

  /** One more storage directory goes back, or is on its way. */
  lemma GoesBack(start: Node, before: Node, now: Node, pkg: Path, key: Name)
    requires pkg != [] && key in STORAGE && GivingBack(start, before, pkg)
    requires SameEntry(start, before, pkg, BackupPath(pkg), key)
    requires EntryOnly(before, now, pkg, BackupPath(pkg), key)
    requires var s, d := Lookup(Kids(before, pkg), key), Lookup(Kids(before, BackupPath(pkg)), key);
      (s.None? || d.Some? ==> now == before) &&
      (Lookup(Kids(now, pkg), key) == s || (key !in Kids(now, pkg) && Lookup(Kids(now, BackupPath(pkg)), key) == s))
    ensures GivingBack(start, now, pkg)
  {
    hide Cut, Put, Get;
    var bck := BackupPath(pkg);
    BackupPathIsApart(pkg);
    DirKept(before, now, pkg, bck, Parent(pkg));
    SameOutside2Trans(start, before, now, pkg, bck);
    var p0, b0, p, b := Kids(start, pkg), Kids(start, bck), Kids(now, pkg), Kids(now, bck);
    forall k
      ensures if OnlyInPackage(p0, b0, k) then
          Lookup(p, k) == Lookup(p0, k) || (k !in p && Lookup(b, k) == Lookup(p0, k))
        else
          Lookup(p, k) == Lookup(p0, k) && Lookup(b, k) == Lookup(b0, k)
    {
      Present(p, k);
      Present(Kids(before, pkg), k);
      Present(p0, k);
      Present(b0, k);
    }
  }

  /** Nothing is lost where each storage directory is home or has not left. */
  lemma Settled(before: Node, now: Node, pkg: Path)
    requires Laid(before, pkg) && IsDir(before, BackupPath(pkg)) && GivingBack(before, now, pkg)
    requires forall k | k in STORAGE && OnlyInPackage(Kids(before, pkg), Kids(before, BackupPath(pkg)), k) ::
      Lookup(Kids(now, BackupPath(pkg)), k) in {None, Lookup(Kids(before, pkg), k)}
    ensures Saved(before, now, pkg)
  {
    hide Laid, GivingBack, Get;
    GivingBackIff(before, now, pkg);
    forall k | OnlyInPackage(Kids(before, pkg), Kids(before, BackupPath(pkg)), k) && k in Kids(now, BackupPath(pkg))
      ensures Kids(now, BackupPath(pkg))[k] == Kids(before, pkg)[k]
    {
      assert Lookup(Kids(now, BackupPath(pkg)), k) != None;
    }
  }

  lemma BothHome(before: Node, now: Node, pkg: Path)
    requires pkg != []
    requires forall k | k in STORAGE && OnlyInPackage(Kids(before, pkg), Kids(before, BackupPath(pkg)), k) ::
      Lookup(Kids(now, BackupPath(pkg)), k) == Lookup(Kids(before, pkg), k)
    ensures Home(Kids(before, pkg), Kids(before, BackupPath(pkg)), Kids(now, BackupPath(pkg)))
  {
  }

  /** Moving one more storage directory keeps every one of them in one place. */
  lemma InFlightStep(p0: map<Name, Node>, b0: map<Name, Node>, p: map<Name, Node>, b: map<Name, Node>,
                     p': map<Name, Node>, b': map<Name, Node>, key: Name)
    requires InFlight(p0, b0, p, b) && key in STORAGE
    requires Lookup(b, key) == Lookup(b0, key) && Lookup(p, key) == Lookup(p0, key)
    requires forall k | k != key :: Lookup(b', k) == Lookup(b, k) && Lookup(p', k) == Lookup(p, k)
    requires (Lookup(b', key) == Lookup(b, key) && (key !in b ==> Lookup(p', key) == Lookup(p, key))) ||
      (key in b && key !in b' && Lookup(p', key) == Some(Moved(b[key], Lookup(p, key))))
    ensures InFlight(p0, b0, p', b')
  {
    assert Lookup(b, key) == Lookup(b0, key);
    forall k
      ensures if k in STORAGE then
        (Lookup(b', k) == Lookup(b0, k) && (k !in b0 ==> Lookup(p', k) == Lookup(p0, k))) ||
        (k in b0 && k !in b' && Lookup(p', k) == Some(Moved(b0[k], Lookup(p0, k))))
      else
        Lookup(b', k) == Lookup(b0, k) && (k != CACHE ==> Lookup(p', k) == Lookup(p0, k))
    {
      if k != key {
        assert Lookup(b', k) == Lookup(b, k) && Lookup(p', k) == Lookup(p, k);
        assert Lookup(b', k).Some? == (k in b') && Lookup(b, k).Some? == (k in b);
        assert Lookup(p', k).Some? == (k in p') && Lookup(p, k).Some? == (k in p);
      }
    }
  }

  class StepCopyStorageDirectories {
    const context: InstallerContext
    const fs: FileSystem
    var backupPath: Path

    constructor (context: InstallerContext, fs: FileSystem)
      ensures this.context == context && this.fs == fs && backupPath == []
    {
      this.context, this.fs, backupPath := context, fs, [];
    }

    ghost predicate Ready()
      reads this, context, fs
    {
      fs.Valid() && context.pkgPath != [] && backupPath == BackupPath(context.pkgPath) &&
      IsDir(fs.root, context.pkgPath) && IsDir(fs.root, backupPath)
    }

    method Precheck() returns (status: Status)
      requires context.pkgPath != []
      modifies this
      ensures backupPath == BackupPath(context.pkgPath)
      ensures status == if Exists(fs.root, backupPath) then OK else INVALID_VALUE
    {
      backupPath := BackupPath(context.pkgPath);
      return if Exists(fs.root, backupPath) then OK else INVALID_VALUE;
    }

    ghost predicate Travelling(before: Node, now: Node)
      requires context.pkgPath != [] && backupPath != []
      reads this, context
    {
      var pkg := context.pkgPath;
      SameOutside2(before, now, pkg, backupPath) && IsDir(now, pkg) && IsDir(now, backupPath) &&
      InFlight(Kids(before, pkg), Kids(before, backupPath), Kids(now, pkg), Kids(now, backupPath))
    }

    lemma NothingTravelled(t: Node)
      requires context.pkgPath != [] && backupPath != [] && IsDir(t, context.pkgPath) && IsDir(t, backupPath)
      ensures Travelling(t, t)
    {
    }

    method Process() returns (status: Status)
      requires Ready()
      modifies fs`root, fs`log
      ensures Ready() && old(fs.log) <= fs.log
      ensures Travelling(old(fs.root), fs.root)
      ensures forall i | |old(fs.log)| <= i < |fs.log| :: Travelling(old(fs.root), fs.log[i])
      ensures context.requestMode == GLOBAL ==> status == OK && fs.root == old(fs.root) && fs.log == old(fs.log)
      ensures status == OK && context.requestMode == USER ==>
        var p0, b0 := old(Kids(fs.root, context.pkgPath)), old(Kids(fs.root, backupPath));
        var p, b := Kids(fs.root, context.pkgPath), Kids(fs.root, backupPath);
        (forall k | k in STORAGE :: k in b0 && CanMove(Some(b0[k]), Lookup(p0, k), true) && k !in b &&
                                    Lookup(p, k) == Some(Moved(b0[k], Lookup(p0, k)))) &&
        Lookup(p, CACHE) == Some(if CACHE in p0 then p0[CACHE] else EmptyDir) && p[CACHE].Dir?
      ensures status == OK && context.requestMode == USER ==>
        "cache" in Kids(fs.root, context.pkgPath) &&
        Lookup(Kids(fs.root, backupPath), "data") == Lookup(Kids(fs.root, backupPath), "shared") == None
      ensures !fs.faulty && status != OK ==>
        var p0, b0 := old(Kids(fs.root, context.pkgPath)), old(Kids(fs.root, backupPath));
        (exists k | k in STORAGE :: !CanMove(Lookup(b0, k), Lookup(p0, k), true)) || (CACHE in p0 && p0[CACHE].File?)
      ensures !fs.faulty && context.requestMode == USER ==> forall k | k in STORAGE ::
        Travelled(old(Kids(fs.root, context.pkgPath)), old(Kids(fs.root, backupPath)),
                  Kids(fs.root, context.pkgPath), Kids(fs.root, backupPath), k)
      ensures !fs.faulty && context.requestMode == USER &&
              !CanMove(old(Lookup(Kids(fs.root, backupPath), "data")),
                       old(Lookup(Kids(fs.root, context.pkgPath), "data")), true) ==>
        status != OK && Lookup(Kids(fs.root, backupPath), "shared") == old(Lookup(Kids(fs.root, backupPath), "shared"))
    {
      hide Cut, Put, Get, Independent, BackupPath, SameOutside2, Moved, InFlight, Travelled;
      NothingTravelled(fs.root);
      if context.requestMode == GLOBAL {
        return OK;
      }
      status := ProcessUser();
      if !fs.faulty {
        SharedWaits(old(Kids(fs.root, context.pkgPath)), old(Kids(fs.root, backupPath)),
                    Kids(fs.root, context.pkgPath), Kids(fs.root, backupPath));
      }
    }

    /** shared/ is only moved behind data/. */
    lemma SharedWaits(p0: map<Name, Node>, b0: map<Name, Node>, p: map<Name, Node>, b: map<Name, Node>)
      requires forall k | k in STORAGE :: Travelled(p0, b0, p, b, k)
      ensures !CanMove(Lookup(b0, "data"), Lookup(p0, "data"), true) ==> Lookup(b, "shared") == Lookup(b0, "shared")
    {
      assert Travelled(p0, b0, p, b, SHARED);
    }

    /** The part for a user's package. */
    method ProcessUser() returns (status: Status)
      requires Ready()
      modifies fs`root, fs`log
      ensures Ready() && old(fs.log) <= fs.log
      ensures Travelling(old(fs.root), fs.root)
      ensures forall i | |old(fs.log)| <= i < |fs.log| :: Travelling(old(fs.root), fs.log[i])
      ensures status == OK ==>
        var p0, b0 := old(Kids(fs.root, context.pkgPath)), old(Kids(fs.root, backupPath));
        var p, b := Kids(fs.root, context.pkgPath), Kids(fs.root, backupPath);
        (forall k | k in STORAGE :: k in b0 && CanMove(Some(b0[k]), Lookup(p0, k), true) && k !in b &&
                                    Lookup(p, k) == Some(Moved(b0[k], Lookup(p0, k)))) &&
        Lookup(p, CACHE) == Some(if CACHE in p0 then p0[CACHE] else EmptyDir) && p[CACHE].Dir?
      ensures !fs.faulty && status != OK ==>
        var p0, b0 := old(Kids(fs.root, context.pkgPath)), old(Kids(fs.root, backupPath));
        (exists k | k in STORAGE :: !CanMove(Lookup(b0, k), Lookup(p0, k), true)) || (CACHE in p0 && p0[CACHE].File?)
      ensures !fs.faulty ==> forall k | k in STORAGE ::
        Travelled(old(Kids(fs.root, context.pkgPath)), old(Kids(fs.root, backupPath)),
                  Kids(fs.root, context.pkgPath), Kids(fs.root, backupPath), k)
    {
      hide Cut, Put, Get, Independent, BackupPath, SameOutside2, Moved, InFlight;
      ghost var before := fs.root;
      var ok := BringBoth();
      if !ok {
        return APP_DIR_ERROR;
      }
      ghost var mid := fs.root;
      CacheStays(before, mid);
      ok := CacheDir(before);
      return if ok then OK else APP_DIR_ERROR;
    }

    lemma CacheStays(before: Node, now: Node)
      requires context.pkgPath != [] && backupPath != [] && Travelling(before, now)
      ensures BroughtOnly(before, now) ==>
        Lookup(Kids(now, context.pkgPath), CACHE) == Lookup(Kids(before, context.pkgPath), CACHE)
    {
    }

    /** The package's other entries are as they were. */
    ghost predicate BroughtOnly(before: Node, now: Node)
      requires context.pkgPath != []
      reads this, context
    {
      forall k | k !in STORAGE :: Lookup(Kids(now, context.pkgPath), k) == Lookup(Kids(before, context.pkgPath), k)
    }

    method BringBoth() returns (ok: bool)
      requires Ready()
      modifies fs`root, fs`log
      ensures Ready() && old(fs.log) <= fs.log
      ensures Travelling(old(fs.root), fs.root) && BroughtOnly(old(fs.root), fs.root)
      ensures forall i | |old(fs.log)| <= i < |fs.log| :: Travelling(old(fs.root), fs.log[i])
      ensures
        var p0, b0 := old(Kids(fs.root, context.pkgPath)), old(Kids(fs.root, backupPath));
        var p, b := Kids(fs.root, context.pkgPath), Kids(fs.root, backupPath);
        (ok ==> forall k | k in STORAGE :: k in b0 && CanMove(Some(b0[k]), Lookup(p0, k), true) && k !in b &&
                                           Lookup(p, k) == Some(Moved(b0[k], Lookup(p0, k)))) &&
        (!fs.faulty && !ok ==> exists k | k in STORAGE :: !CanMove(Lookup(b0, k), Lookup(p0, k), true)) &&
        (!fs.faulty ==> forall k | k in STORAGE :: Travelled(p0, b0, p, b, k))
    {
      hide Cut, Put, Get, Independent, BackupPath, SameOutside2, Moved;
      NothingTravelled(fs.root);
      BackupPathIsApart(context.pkgPath);
      ok := Bring(DATA, old(fs.root));
      if ok {
        ok := Bring(SHARED, old(fs.root));
      }
    }

    /** MoveAppStorage from the backup into the package, merging. */
    method Bring(key: Name, ghost start: Node) returns (ok: bool)
      requires Ready() && key in STORAGE && Travelling(start, fs.root)
      requires Lookup(Kids(fs.root, backupPath), key) == Lookup(Kids(start, backupPath), key)
      requires Lookup(Kids(fs.root, context.pkgPath), key) == Lookup(Kids(start, context.pkgPath), key)
      modifies fs`root, fs`log
      ensures Ready() && old(fs.log) <= fs.log
      ensures Travelling(start, fs.root)
      ensures forall i | |old(fs.log)| <= i < |fs.log| :: Travelling(start, fs.log[i])
      ensures EntryOnly(old(fs.root), fs.root, backupPath, context.pkgPath, key)
      ensures var s, d := Lookup(Kids(start, backupPath), key), Lookup(Kids(start, context.pkgPath), key);
        (ok ==> CanMove(s, d, true) && key !in Kids(fs.root, backupPath) &&
                Lookup(Kids(fs.root, context.pkgPath), key) == Some(Moved(s.value, d))) &&
        (!ok ==> Lookup(Kids(fs.root, backupPath), key) == s) &&
        (!fs.faulty && CanMove(s, d, true) ==> ok)
    {
      hide Cut, Put, Get;
      var pkg := context.pkgPath;
      BackupPathIsApart(pkg);
      ok := MoveEntry(fs, backupPath, pkg, key, true);
      OnTheWay(start, old(fs.root), fs.root, key);
      forall i | |old(fs.log)| <= i < |fs.log| ensures Travelling(start, fs.log[i]) {
        OnTheWay(start, old(fs.root), fs.log[i], key);
      }
    }

    lemma OnTheWay(start: Node, before: Node, now: Node, key: Name)
      requires context.pkgPath != [] && backupPath == BackupPath(context.pkgPath)
      requires Travelling(start, before) && key in STORAGE
      requires Lookup(Kids(before, backupPath), key) == Lookup(Kids(start, backupPath), key)
      requires Lookup(Kids(before, context.pkgPath), key) == Lookup(Kids(start, context.pkgPath), key)
      requires EntryOnly(before, now, backupPath, context.pkgPath, key)
      requires var s, d := Lookup(Kids(before, backupPath), key), Lookup(Kids(before, context.pkgPath), key);
        (s.None? ==> now == before) &&
        (Lookup(Kids(now, backupPath), key) == s ||
         (s.Some? && key !in Kids(now, backupPath) &&
          Lookup(Kids(now, context.pkgPath), key) == Some(Moved(s.value, d))))
      ensures Travelling(start, now)
    {
      hide Cut, Put, Get, InFlight;
      BackupPathIsApart(context.pkgPath);
      SameOutside2Swap(before, now, backupPath, context.pkgPath);
      InFlightStep(Kids(start, context.pkgPath), Kids(start, backupPath),
                   Kids(before, context.pkgPath), Kids(before, backupPath),
                   Kids(now, context.pkgPath), Kids(now, backupPath), key);
    }

    /** Puts the storage directories back into a backup that lacks them.  The status says whether both had
        to be put back, not whether anything went wrong. */
    method Undo() returns (status: Status)
      requires Ready() && Laid(fs.root, context.pkgPath)
      modifies fs`root, fs`log
      ensures Ready() && old(fs.log) <= fs.log
      ensures GivingBack(old(fs.root), fs.root, context.pkgPath)
      ensures forall i | |old(fs.log)| <= i < |fs.log| :: GivingBack(old(fs.root), fs.log[i], context.pkgPath)
      ensures status == OK ==> forall k | k in STORAGE ::
        OnlyInPackage(old(Kids(fs.root, context.pkgPath)), old(Kids(fs.root, backupPath)), k)
      ensures !fs.faulty && status != OK ==> exists k | k in STORAGE ::
        !OnlyInPackage(old(Kids(fs.root, context.pkgPath)), old(Kids(fs.root, backupPath)), k)
      ensures !fs.faulty || status == OK ==>
        Home(old(Kids(fs.root, context.pkgPath)), old(Kids(fs.root, backupPath)), Kids(fs.root, backupPath))
      ensures !fs.faulty ==> forall i | |old(fs.log)| <= i < |fs.log| :: Saved(old(fs.root), fs.log[i], context.pkgPath)
    {
      hide Cut, Put, Get, RestoredKids, GoingBack, GivingBack, Independent, BackupPath, Laid;
      hide SameEntry, EntryOnly, Saved, Home;
      status := OK;
      ghost var before := fs.root;
      NothingGivenBack(before, context.pkgPath);
      var ok := GiveBack(DATA, before);
      if !ok {
        status := APP_DIR_ERROR;
      }
      ghost var mid, n := fs.root, |fs.log|;
      KeptEntry(before, mid, context.pkgPath, backupPath, DATA, SHARED);
      ok := GiveBack(SHARED, before);
      if !ok {
        status := APP_DIR_ERROR;
      }
      KeptEntry(mid, fs.root, context.pkgPath, backupPath, SHARED, DATA);
      if !fs.faulty || status == OK {
        BothHome(before, fs.root, context.pkgPath);
      }
      if !fs.faulty {
        Settled(before, mid, context.pkgPath);
        Settled(before, fs.root, context.pkgPath);
        assert forall i | |old(fs.log)| <= i < |fs.log| :: fs.log[i] == if i < n then mid else fs.root;
      }
    }

    /** MoveAppStorage from the package into the backup, without merging. */
    method GiveBack(key: Name, ghost start: Node) returns (ok: bool)
      requires Ready() && key in STORAGE && GivingBack(start, fs.root, context.pkgPath)
      requires SameEntry(start, fs.root, context.pkgPath, backupPath, key)
      modifies fs`root, fs`log
      ensures Ready() && old(fs.log) <= fs.log
      ensures GivingBack(start, fs.root, context.pkgPath)
      ensures forall i | |old(fs.log)| <= i < |fs.log| :: GivingBack(start, fs.log[i], context.pkgPath)
      ensures EntryOnly(old(fs.root), fs.root, context.pkgPath, backupPath, key)
      ensures var s, d := Lookup(Kids(start, context.pkgPath), key), Lookup(Kids(start, backupPath), key);
        (ok ==> s.Some? && d.None?) && (!fs.faulty ==> ok == (s.Some? && d.None?)) &&
        (ok ==> Lookup(Kids(fs.root, backupPath), key) == s)
      ensures !fs.faulty ==> forall i | |old(fs.log)| <= i < |fs.log| :: fs.log[i] == fs.root
    {
      hide Cut, Put, Get, GoingBack;
      var pkg := context.pkgPath;
      BackupPathIsApart(pkg);
      ok := MoveEntry(fs, pkg, backupPath, key, false);
      GoesBack(start, old(fs.root), fs.root, pkg, key);
      forall i | |old(fs.log)| <= i < |fs.log| ensures GivingBack(start, fs.log[i], pkg) {
        GoesBack(start, old(fs.root), fs.log[i], pkg, key);
      }
    }

    method CacheDir(ghost start: Node) returns (ok: bool)
      requires Ready() && Travelling(start, fs.root)
      modifies fs`root, fs`log
      ensures Ready() && old(fs.log) <= fs.log
      ensures Travelling(start, fs.root)
      ensures forall i | |old(fs.log)| <= i < |fs.log| :: Travelling(start, fs.log[i])
      ensures forall k | k != CACHE ::
        Lookup(Kids(fs.root, context.pkgPath), k) == old(Lookup(Kids(fs.root, context.pkgPath), k))
      ensures Kids(fs.root, backupPath) == old(Kids(fs.root, backupPath))
      ensures var c := old(Lookup(Kids(fs.root, context.pkgPath), CACHE));
        (ok ==> Lookup(Kids(fs.root, context.pkgPath), CACHE) == Some(c.GetOr(EmptyDir)) && c.GetOr(EmptyDir).Dir?) &&
        (!fs.faulty && c.GetOr(EmptyDir).Dir? ==> ok)
    {
      hide Cut, Put, Get, InFlight;
      var pkg := context.pkgPath;
      var cache := pkg + [CACHE];
      BackupPathIsApart(pkg);
      IndependentChildren(backupPath, pkg, CACHE);
      EntryOnlyFrom(fs.root, fs.root, pkg, backupPath, CACHE);
      if IsDir(fs.root, cache) {
        return true;
      }
      ok := fs.MakeDirectory(cache);
      if ok {
        GetPut(old(fs.root), cache, EmptyDir);
        CutPut(old(fs.root), cache, EmptyDir);
        SameOutsideEntry(old(fs.root), fs.root, pkg, CACHE);
        Widen(old(fs.root), fs.root, pkg, backupPath);
        SameOutsideGet(old(fs.root), fs.root, cache, backupPath);
        forall k | k != CACHE
          ensures Lookup(Kids(fs.root, pkg), k) == old(Lookup(Kids(fs.root, pkg), k))
        {
          KidsBut(Kids(fs.root, pkg), old(Kids(fs.root, pkg)), CACHE, k);
        }
        CacheIsNoStorage(Kids(start, pkg), Kids(start, backupPath),
                         old(Kids(fs.root, pkg)), Kids(fs.root, pkg), Kids(fs.root, backupPath));
      }
    }
  }

  lemma CacheIsNoStorage(p0: map<Name, Node>, b0: map<Name, Node>, p: map<Name, Node>, p': map<Name, Node>,
                         b: map<Name, Node>)
    requires InFlight(p0, b0, p, b) && forall k | k != CACHE :: Lookup(p', k) == Lookup(p, k)
    ensures InFlight(p0, b0, p', b)
  {
    forall k | k in STORAGE ensures k in p' <==> k in p {
      assert Lookup(p', k) == Lookup(p, k);
    }
  }
}
