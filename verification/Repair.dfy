/** What a package and its backup come back to, whoever puts them right: the undo of an update, or a recovery
    after a crash.  Both give the storage directories back to the backup and then make the backup the package. */
module Repair {
  import opened FileTree
  import opened FileSystem
  import opened PackageTrees

  /** What rolling back or recovering makes of a package p and its backup b: the backup, with those storage
      directories of the package that the backup lacks. */
  function RestoredKids(p: map<Name, Node>, b: map<Name, Node>): map<Name, Node> {
    map k | k in b.Keys + STORAGE && (k in b || k in p) :: if k in b then b[k] else p[k]
  }

  /** The package that recovery makes of a disk. */
  function RestoredAt(t: Node, pkg: Path): Option<Node>
    requires pkg != []
  {
    if Exists(t, BackupPath(pkg)) then Some(Dir(RestoredKids(Kids(t, pkg), Kids(t, BackupPath(pkg))))) else Get(t, pkg)
  }

  /** Where the package lives, and the shape of the two trees that recovery looks at. */
  predicate Laid(t: Node, pkg: Path) {
    pkg != [] && IsDir(t, Parent(pkg)) && !IsFile(t, pkg) && !IsFile(t, BackupPath(pkg))
  }

  /** Two disks that recover to the same package and agree on everything else. */
  ghost predicate Equivalent(a: Node, b: Node, pkg: Path)
    requires pkg != []
  {
    Laid(b, pkg) && SameOutside2(a, b, pkg, BackupPath(pkg)) && RestoredAt(b, pkg) == RestoredAt(a, pkg)
  }

  lemma NothingToRestore(p: map<Name, Node>, b: map<Name, Node>)
    ensures (forall k | k in STORAGE && k in p :: k in b) ==> RestoredKids(p, b) == b
  {
  }

  /** A storage directory that only the package has. */
  predicate OnlyInPackage(p: map<Name, Node>, b: map<Name, Node>, key: Name) {
    key in STORAGE && key in p && key !in b
  }

  /** Storage directories on their way from the package p0 into the backup b0: while one is copied its target
      may hold anything. */
  ghost predicate GoingBack(p0: map<Name, Node>, b0: map<Name, Node>, p: map<Name, Node>, b: map<Name, Node>) {
    forall k ::
      if OnlyInPackage(p0, b0, k) then
        Lookup(p, k) == Lookup(p0, k) || (k !in p && Lookup(b, k) == Lookup(p0, k))
      else
        Lookup(p, k) == Lookup(p0, k) && Lookup(b, k) == Lookup(b0, k)
  }

  /** Each of them is whole in the backup if there is anything of it. */
  ghost predicate Whole(p0: map<Name, Node>, b0: map<Name, Node>, b: map<Name, Node>) {
    forall k | OnlyInPackage(p0, b0, k) && k in b :: b[k] == p0[k]
  }

  ghost predicate Home(p0: map<Name, Node>, b0: map<Name, Node>, b: map<Name, Node>) {
    forall k | OnlyInPackage(p0, b0, k) :: Lookup(b, k) == Lookup(p0, k)
  }

  /** The package that comes back is the same if and only if no storage directory is half in the backup. */
  lemma WholeIff(p0: map<Name, Node>, b0: map<Name, Node>, p: map<Name, Node>, b: map<Name, Node>)
    requires GoingBack(p0, b0, p, b)
    ensures RestoredKids(p, b) == RestoredKids(p0, b0) <==> Whole(p0, b0, b)
  {
    var r, r0 := RestoredKids(p, b), RestoredKids(p0, b0);
    forall k
      ensures OnlyInPackage(p0, b0, k) ==> Lookup(r0, k) == Some(p0[k])
      ensures OnlyInPackage(p0, b0, k) ==> Lookup(r, k) == Some(if k in b then b[k] else p0[k])
      ensures !OnlyInPackage(p0, b0, k) ==> Lookup(r, k) == Lookup(r0, k)
    {
      Present(p, k);
      Present(b, k);
      Present(p0, k);
      Present(b0, k);
    }
    if Whole(p0, b0, b) {
      SameLookups(r, r0);
    } else {
      var k :| OnlyInPackage(p0, b0, k) && k in b && b[k] != p0[k];
      assert Lookup(r, k) != Lookup(r0, k);
    }
  }

  /** The backup alone is that package if and only if every storage directory has come home. */
  lemma HomeIff(p0: map<Name, Node>, b0: map<Name, Node>, p: map<Name, Node>, b: map<Name, Node>)
    requires GoingBack(p0, b0, p, b)
    ensures b == RestoredKids(p0, b0) <==> Home(p0, b0, b)
  {
    var r0 := RestoredKids(p0, b0);
    forall k
      ensures OnlyInPackage(p0, b0, k) ==> Lookup(r0, k) == Some(p0[k])
      ensures !OnlyInPackage(p0, b0, k) ==> Lookup(b, k) == Lookup(r0, k)
    {
      Present(b, k);
      Present(p0, k);
      Present(b0, k);
    }
    if Home(p0, b0, b) {
      SameLookups(b, r0);
    } else {
      var k :| OnlyInPackage(p0, b0, k) && Lookup(b, k) != Lookup(p0, k);
      assert Lookup(b, k) != Lookup(r0, k);
    }
  }

  lemma Present(m: map<Name, Node>, k: Name)
    ensures Lookup(m, k).Some? == (k in m)
  {
  }

  /** A disk of the first half of a repair. */
  ghost predicate GivingBack(before: Node, now: Node, pkg: Path)
    requires pkg != []
  {
    Laid(now, pkg) && IsDir(now, BackupPath(pkg)) && SameOutside2(before, now, pkg, BackupPath(pkg)) &&
    GoingBack(Kids(before, pkg), Kids(before, BackupPath(pkg)), Kids(now, pkg), Kids(now, BackupPath(pkg)))
  }

  /** The second half: the backup is untouched, and the package is too or has at most what of the backup is
      copied; or the backup is the package. */
  ghost predicate Swapping(before: Node, now: Node, pkg: Path)
    requires pkg != []
  {
    var bck := BackupPath(pkg);
    (Get(now, bck) == Get(before, bck) &&
     (Get(now, pkg) == Get(before, pkg) || (!IsFile(now, pkg) && Entries(now, pkg) <= Entries(before, bck)))) ||
    (Get(now, bck) == None && Get(now, pkg) == Get(before, bck))
  }

  /** A disk of the second half. */
  ghost predicate RollingBack(before: Node, now: Node, pkg: Path)
    requires pkg != []
  {
    Laid(now, pkg) && SameOutside2(before, now, pkg, BackupPath(pkg)) && Swapping(before, now, pkg)
  }

  /** Every storage directory that only the package had is whole where a repair looks for it: in the backup,
      or, if the backup has none of it, in the package. */
  ghost predicate Saved(before: Node, now: Node, pkg: Path)
    requires pkg != []
  {
    var p0, b0, p, b := Kids(before, pkg), Kids(before, BackupPath(pkg)), Kids(now, pkg), Kids(now, BackupPath(pkg));
    forall k | OnlyInPackage(p0, b0, k) :: (if k in b then Some(b[k]) else Lookup(p, k)) == Some(p0[k])
  }

  /** What a repair makes of an entry that is no storage directory: the backup's stays, while the package's does
      too or is gone or has one of the backup coming in its place; or the backup's is the package's now. */
  predicate KeepsEntry(before: Node, now: Node, pkg: Path, k: Name)
    requires pkg != []
  {
    var p0, b0 := Lookup(Kids(before, pkg), k), Lookup(Kids(before, BackupPath(pkg)), k);
    var p, b := Lookup(Kids(now, pkg), k), Lookup(Kids(now, BackupPath(pkg)), k);
    if Exists(now, BackupPath(pkg)) then
      Exists(before, BackupPath(pkg)) && b == b0 && (p == p0 || p == None || b0.Some?)
    else
      p == if Exists(before, BackupPath(pkg)) then b0 else p0
  }

  ghost predicate KeepsRest(before: Node, now: Node, pkg: Path)
    requires pkg != []
  {
    forall k | k !in STORAGE :: KeepsEntry(before, now, pkg, k)
  }

  lemma RollingBackKeepsRest(before: Node, mid: Node, now: Node, pkg: Path)
    requires pkg != [] && IsDir(before, BackupPath(pkg)) && GivingBack(before, mid, pkg)
    requires now == mid || RollingBack(mid, now, pkg)
    ensures KeepsRest(before, now, pkg)
  {
    hide SameOutside2;
    forall k | k !in STORAGE ensures KeepsEntry(before, now, pkg, k) {
      var p0, b0 := Kids(before, pkg), Kids(before, BackupPath(pkg));
      assert Lookup(Kids(mid, pkg), k) == Lookup(p0, k) && Lookup(Kids(mid, BackupPath(pkg)), k) == Lookup(b0, k);
      Present(Kids(now, pkg), k);
      assert Kids(now, pkg) == map[] || Entries(now, pkg) == Kids(now, pkg).Keys;
    }
  }

  /** A repair that reports success although calls may have failed: the backup is still there, since the move that
      nobody looks at failed, or it is the package. */
  ghost predicate Replaced(before: Node, now: Node, pkg: Path, faulty: bool)
    requires pkg != []
  {
    if Exists(now, BackupPath(pkg)) then
      faulty && (RestoredAt(now, pkg) == RestoredAt(before, pkg) <==> Saved(before, now, pkg))
    else
      Get(now, pkg) == RestoredAt(before, pkg) <==> Saved(before, now, pkg)
  }

  /** Giving back keeps the package that comes back exactly where nothing is lost. */
  lemma GivingBackIff(before: Node, now: Node, pkg: Path)
    requires Laid(before, pkg) && IsDir(before, BackupPath(pkg)) && GivingBack(before, now, pkg)
    ensures Equivalent(before, now, pkg) <==> Saved(before, now, pkg)
    ensures Saved(before, now, pkg) <==>
      Whole(Kids(before, pkg), Kids(before, BackupPath(pkg)), Kids(now, BackupPath(pkg)))
  {
    hide RestoredKids;
    var p0, b0, p, b := Kids(before, pkg), Kids(before, BackupPath(pkg)), Kids(now, pkg), Kids(now, BackupPath(pkg));
    WholeIff(p0, b0, p, b);
    WholeIsSaved(p0, b0, p, b);
  }

  /** The whole repair: behind the disk `mid`, where everything is given back that is going to be. */
  lemma SwappingIff(before: Node, mid: Node, now: Node, pkg: Path)
    requires pkg != [] && IsDir(before, BackupPath(pkg)) && IsDir(mid, BackupPath(pkg)) && !IsFile(now, BackupPath(pkg))
    requires GoingBack(Kids(before, pkg), Kids(before, BackupPath(pkg)), Kids(mid, pkg), Kids(mid, BackupPath(pkg)))
    requires Swapping(mid, now, pkg)
    ensures RestoredAt(now, pkg) == RestoredAt(before, pkg) <==> Saved(before, now, pkg)
  {
    hide RestoredKids, GoingBack;
    var bck := BackupPath(pkg);
    var p0, b0, p, b := Kids(before, pkg), Kids(before, bck), Kids(now, pkg), Kids(now, bck);
    if Get(now, bck) == Get(mid, bck) && Get(now, pkg) == Get(mid, pkg) {
      WholeIff(p0, b0, p, b);
      WholeIsSaved(p0, b0, p, b);
    } else {
      HomeIff(p0, b0, Kids(mid, pkg), Kids(mid, bck));
      if Get(now, bck) == Get(mid, bck) {
        NothingToRestore(p, b);
        forall k | OnlyInPackage(p0, b0, k) ensures k in p ==> k in b {
          assert k in p ==> k in Entries(now, pkg);
        }
        HomeAtBackup(p0, b0, p, b);
      }
    }
  }

  lemma WholeIsSaved(p0: map<Name, Node>, b0: map<Name, Node>, p: map<Name, Node>, b: map<Name, Node>)
    requires GoingBack(p0, b0, p, b)
    ensures Whole(p0, b0, b) <==>
      forall k | OnlyInPackage(p0, b0, k) :: (if k in b then Some(b[k]) else Lookup(p, k)) == Some(p0[k])
  {
    forall k | OnlyInPackage(p0, b0, k) ensures k !in b ==> Lookup(p, k) == Some(p0[k]) {
      Present(b, k);
    }
  }

  lemma RollingBackIff(before: Node, mid: Node, now: Node, pkg: Path)
    requires Laid(before, pkg) && IsDir(before, BackupPath(pkg))
    requires GivingBack(before, mid, pkg) && RollingBack(mid, now, pkg)
    ensures Equivalent(before, now, pkg) <==> Saved(before, now, pkg)
  {
    hide RestoredAt, GoingBack, Saved, Swapping;
    SameOutside2Trans(before, mid, now, pkg, BackupPath(pkg));
    SwappingIff(before, mid, now, pkg);
  }

  lemma HomeAtBackup(p0: map<Name, Node>, b0: map<Name, Node>, p: map<Name, Node>, b: map<Name, Node>)
    requires p.Keys <= b.Keys
    ensures Home(p0, b0, b) <==>
      forall k | OnlyInPackage(p0, b0, k) :: (if k in b then Some(b[k]) else Lookup(p, k)) == Some(p0[k])
  {
  }

  lemma RollingBackSwaps(before: Node, now: Node, pkg: Path)
    requires pkg != [] && RollingBack(before, now, pkg)
    ensures Swapping(before, now, pkg)
  {
  }

  lemma HomeIsSaved(before: Node, mid: Node, now: Node, pkg: Path)
    requires pkg != [] && Swapping(mid, now, pkg)
    requires Home(Kids(before, pkg), Kids(before, BackupPath(pkg)), Kids(mid, BackupPath(pkg)))
    ensures Saved(before, now, pkg)
  {
    hide Get;
    forall k | OnlyInPackage(Kids(before, pkg), Kids(before, BackupPath(pkg)), k)
      ensures Lookup(Kids(mid, BackupPath(pkg)), k) == Some(Kids(before, pkg)[k])
    {
      Present(Kids(before, pkg), k);
    }
  }
}
