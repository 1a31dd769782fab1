/** shared_dirs.cc: the legacy directory of a package, one for all the users who have it. */
module LegacyDirectories {
  import opened FileTree
  import opened FileSystem
  import opened FileEdits

  type Uid = nat

  /** The registered pairs of user and package. */
  type Database = set<(Uid, Name)>

  /** The users the user service lists, the user global packages belong to, and those whose records cannot be read. */
  datatype Users = Users(listed: seq<Uid>, globalUser: Uid, unreadable: set<Uid>)

  /** The directories inside a legacy directory, in the order they are made. */
  const ENTRIES: seq<Path> := [[], ["cache"], ["data"], ["shared"], ["shared", "trusted"], ["shared", "data"]]

  ghost predicate Present(t: Node, p: Path) {
    forall e | e in ENTRIES :: IsDir(t, p + e)
  }

  ghost predicate ClearFor(t: Node, p: Path) {
    forall e | e in ENTRIES :: Clear(t, p + e)
  }

  /** What a record says about a package: None when there is none, else whether it is a global one. A user's own
      record comes before the global one. */
  function Record(db: Database, u: Users, uid: Uid, pkgid: Name): Option<bool> {
    if uid in u.unreadable then None
    else if (uid, pkgid) in db then Some(uid == u.globalUser)
    else if (u.globalUser, pkgid) in db then Some(true)
    else None
  }

  /** Only the asked user's own installation counts; a global package does not count for the others. */
  function QueryIsPackageInstalled(db: Database, u: Users, uid: Uid, pkgid: Name): (r: bool)
    ensures r <==> uid !in u.unreadable && (uid, pkgid) in db
  {
    var info := Record(db, u, uid, pkgid);
    if info.None? then false
    else if uid == u.globalUser && info.value then true
    else if uid != u.globalUser && info.value then false
    else true
  }

  /** Those a deletion for `uid` asks about. */
  function Asked(u: Users, uid: Uid): set<Uid> {
    ((set l | l in u.listed) + {u.globalUser}) - {uid}
  }

  /** A deletion for `uid` goes ahead when there are users and nobody asked says the package is theirs. */
  ghost predicate Deletes(db: Database, u: Users, uid: Uid, pkgid: Name) {
    u.listed != [] && forall a | a in Asked(u, uid) :: a in u.unreadable || (a, pkgid) !in db
  }

  ghost predicate Held(db: Database, pkgid: Name) {
    exists h :: (h, pkgid) in db
  }

  ghost predicate HeldByOther(db: Database, uid: Uid, pkgid: Name) {
    exists h :: h != uid && (h, pkgid) in db
  }

  /** If anybody else has the package, somebody who is asked and can be answered for has it. */
  ghost predicate Answered(db: Database, u: Users, uid: Uid, pkgid: Name) {
    HeldByOther(db, uid, pkgid) ==> exists a :: a in Asked(u, uid) && a !in u.unreadable && (a, pkgid) in db
  }

  /** A deletion spares the others if and only if one of them answers: a record that cannot be read counts as no
      record, and a user who is not listed is not asked. */
  lemma SparesOthersIff(db: Database, u: Users, uid: Uid, pkgid: Name)
    requires u.listed != []
    ensures (Deletes(db, u, uid, pkgid) ==> !HeldByOther(db, uid, pkgid)) <==> Answered(db, u, uid, pkgid)
  {
    if a :| a in Asked(u, uid) && a !in u.unreadable && (a, pkgid) in db {
      assert a != uid;
    }
  }

  /** Everyone with a package is known to the user service and can be asked. */
  ghost predicate Complete(db: Database, u: Users) {
    u.unreadable == {} && forall h | h in db :: h.0 in u.listed || h.0 == u.globalUser
  }

  lemma CompleteAnswers(db: Database, u: Users, uid: Uid, pkgid: Name)
    requires Complete(db, u)
    ensures Answered(db, u, uid, pkgid)
  {
    if h :| h != uid && (h, pkgid) in db {
      assert (h, pkgid).0 in u.listed || (h, pkgid).0 == u.globalUser;
      assert h in Asked(u, uid);
    }
  }

  /** With complete answers the last one to go takes the directory away, and nobody else does. */
  lemma DeletesIffLast(db: Database, u: Users, uid: Uid, pkgid: Name)
    requires Complete(db, u) && u.listed != [] && (uid, pkgid) !in db
    ensures Deletes(db, u, uid, pkgid) <==> !Held(db, pkgid)
  {
    CompleteAnswers(db, u, uid, pkgid);
    SparesOthersIff(db, u, uid, pkgid);
    assert Held(db, pkgid) <==> HeldByOther(db, uid, pkgid);
  }

  datatype Request = Install(uid: Uid, pkgid: Name) | Uninstall(uid: Uid, pkgid: Name)

  function Registered(db: Database, r: Request): Database {
    match r
    case Install(uid, pkgid) => db + {(uid, pkgid)}
    case Uninstall(uid, pkgid) => db - {(uid, pkgid)}
  }

  class LegacyDirectories {
    const fs: FileSystem
    const users: Users
    const legacyAppDir: Path
    var db: Database

    constructor (fs: FileSystem, users: Users, legacyAppDir: Path)
      ensures this.fs == fs && this.users == users && this.legacyAppDir == legacyAppDir && db == {}
    {
      this.fs, this.users, this.legacyAppDir, db := fs, users, legacyAppDir, {};
    }

    function At(pkgid: Name): Path {
      legacyAppDir + [pkgid]
    }

    /** The directories of a package are there whenever somebody has it, and only then. */
    ghost predicate Shared(t: Node, db: Database, pkgid: Name) {
      (Held(db, pkgid) ==> Present(t, At(pkgid))) && (users.listed != [] && !Held(db, pkgid) ==> !Exists(t, At(pkgid)))
    }

    ghost predicate AllShared(t: Node, db: Database) {
      forall p :: Shared(t, db, p)
    }

    ghost predicate AllClear(t: Node) {
      forall p :: ClearFor(t, At(p))
    }

    /** Serving the request, after which the database is `db`, takes no directory from another user. */
    ghost predicate Spares(db: Database, r: Request) {
      r.Uninstall? && users.listed != [] ==> Answered(db, users, r.uid, r.pkgid)
    }

    /** A directory that cannot be made is a failure only if it is not there; the rights are set after each. */
    method CreateLegacyDirectories(pkgid: Name) returns (ok: bool)
      requires fs.Valid()
      modifies fs`root, fs`log
      ensures fs.Valid() && old(fs.log) <= fs.log
      ensures ok ==> forall e | e in ENTRIES :: Exists(fs.root, At(pkgid) + e)
      ensures ok ==> var p := At(pkgid);
        Exists(fs.root, p + ["cache"]) && Exists(fs.root, p + ["data"]) &&
        Exists(fs.root, p + ["shared", "data"]) && Exists(fs.root, p + ["shared", "trusted"])
      ensures Grown(old(fs.root), fs.root, At(pkgid))
      ensures !fs.faulty && old(ClearFor(fs.root, At(pkgid))) ==> ok && Present(fs.root, At(pkgid))
    {
      hide Get, MakeDirs, Grown, Clear;
      ghost var before := fs.root;
      NotGrown(before, At(pkgid));
      assert At(pkgid) + [] == At(pkgid) && ENTRIES[0] == [];
      var made := MakeOne(pkgid, [], before);
      if !made {
        return false;
      }
      var i := 0;
      while i < |ENTRIES|
        invariant 0 <= i <= |ENTRIES|
        invariant fs.Valid() && old(fs.log) <= fs.log && Grown(before, fs.root, At(pkgid))
        invariant forall j | 0 <= j < i :: Exists(fs.root, At(pkgid) + ENTRIES[j])
        invariant !fs.faulty && ClearFor(before, At(pkgid)) ==>
          forall j | 0 <= j < i :: IsDir(fs.root, At(pkgid) + ENTRIES[j])
      {
        ghost var was := fs.root;
        made := MakeOne(pkgid, ENTRIES[i], before);
        StillThere(was, fs.root);
        if !made {
          return false;
        }
        var refused := fs.Fails();
        if refused {
          return false;
        }
        i := i + 1;
      }
      var refused := fs.Fails();
      return !refused;
    }

    method MakeOne(pkgid: Name, entry: Path, ghost before: Node) returns (ok: bool)
      requires fs.Valid() && entry in ENTRIES && Grown(before, fs.root, At(pkgid))
      modifies fs`root, fs`log
      ensures fs.Valid() && old(fs.log) <= fs.log && Grown(before, fs.root, At(pkgid))
      ensures forall q :: old(IsDir(fs.root, q)) ==> IsDir(fs.root, q)
      ensures forall q :: old(FileAt(fs.root, q)) == FileAt(fs.root, q)
      ensures ok ==> Exists(fs.root, At(pkgid) + entry)
      ensures !fs.faulty && Clear(before, At(pkgid) + entry) ==> ok && IsDir(fs.root, At(pkgid) + entry)
    {
      hide MakeDirs, Get, ClearWay, Clear, Grown, Independent;
      var p := At(pkgid) + entry;
      ghost var was := fs.root;
      var made := fs.CreateDirectories(p);
      ghost var k := |p|;
      if !made {
        k :| 0 <= k <= |p| && ClearWay(was, p[..k]) && fs.root == MakeDirs(was, p[..k]);
      }
      assert made ==> p[..k] == p;
      forall q
        ensures FileAt(fs.root, q) == FileAt(was, q) && (IsDir(fs.root, q) <==> IsDir(was, q) || q <= p[..k])
      {
        MakeDirsPoint(was, p[..k], q);
      }
      GrownMore(before, was, fs.root, At(pkgid), entry, p[..k]);
      assert made ==> IsDir(fs.root, p);
      if Clear(before, p) {
        GrownClear(before, was, At(pkgid), p);
        ClearIsClearWay(was, p);
      }
      if !made && !Exists(fs.root, p) {
        return false;
      }
      return true;
    }

    /** Asks the other users one after another, then the global user, and removes the directory unless one of
        them has the package. The result of the removal is not looked at. */
    method DeleteLegacyDirectories(uid: Uid, pkgid: Name)
      requires fs.Valid()
      modifies fs`root, fs`log
      ensures fs.Valid() && old(fs.log) <= fs.log
      ensures fs.root == old(fs.root) || (Deletes(db, users, uid, pkgid) && fs.root == Cut(old(fs.root), At(pkgid)))
      ensures !fs.faulty && Deletes(db, users, uid, pkgid) ==> fs.root == Cut(old(fs.root), At(pkgid))
    {
      if users.listed == [] {
        return;
      }
      var delFlag := true;
      var i := 0;
      while i < |users.listed| && delFlag
        invariant 0 <= i <= |users.listed|
        invariant delFlag ==>
          forall l | l in users.listed[..i] && l != uid :: !QueryIsPackageInstalled(db, users, l, pkgid)
        invariant !delFlag ==> exists l | l in users.listed && l != uid :: QueryIsPackageInstalled(db, users, l, pkgid)
      {
        var l := users.listed[i];
        assert users.listed[..i + 1] == users.listed[..i] + [l];
        if l != uid && QueryIsPackageInstalled(db, users, l, pkgid) {
          delFlag := false;
        }
        i := i + 1;
      }
      if delFlag && uid != users.globalUser && QueryIsPackageInstalled(db, users, users.globalUser, pkgid) {
        delFlag := false;
      }
      if delFlag {
        assert users.listed[..i] == users.listed;
        var _ := fs.RemoveAll(At(pkgid));
      }
    }

    /** The steps of one request: the record changes, then the directory is made or given up.  Everything stays
        shared exactly when the request spares the other users. */
    method Serve(r: Request)
      requires fs.Valid() && !fs.faulty && AllClear(fs.root)
      modifies this`db, fs`root, fs`log
      ensures fs.Valid() && old(fs.log) <= fs.log && AllClear(fs.root) && db == Registered(old(db), r)
      ensures forall p | p != r.pkgid :: old(Shared(fs.root, db, p)) ==> Shared(fs.root, db, p)
      ensures old(Shared(fs.root, db, r.pkgid)) ==> (Shared(fs.root, db, r.pkgid) <==> Spares(db, r))
    {
      hide Get, Cut, Present, Grown, ClearFor, Deletes;
      ghost var before, was := fs.root, db;
      db := Registered(db, r);
      match r {
        case Install(uid, pkgid) =>
          assert ClearFor(before, At(pkgid));
          var _ := CreateLegacyDirectories(pkgid);
          forall p
            ensures ClearFor(fs.root, At(p))
            ensures if p == pkgid then Shared(fs.root, db, p) else Shared(before, was, p) ==> Shared(fs.root, db, p)
          {
            assert ClearFor(before, At(p));
            GrownElsewhere(before, fs.root, legacyAppDir, pkgid, p);
            if p == pkgid {
              assert (uid, pkgid) in db;
            } else {
              HeldElsewhere(was, r, p);
            }
          }
        case Uninstall(uid, pkgid) =>
          DeleteLegacyDirectories(uid, pkgid);
          forall p
            ensures ClearFor(fs.root, At(p))
            ensures p != pkgid && Shared(before, was, p) ==> Shared(fs.root, db, p)
          {
            assert ClearFor(before, At(p));
            CutElsewhere(before, legacyAppDir, pkgid, p);
            if p != pkgid {
              HeldElsewhere(was, r, p);
            }
          }
          assert ClearFor(before, At(pkgid));
          CutElsewhere(before, legacyAppDir, pkgid, pkgid);
          HeldLess(was, r, pkgid);
          GivenUp(uid, pkgid);
          AbsentIsNotPresent(fs.root, At(pkgid));
      }
    }

    lemma AbsentIsNotPresent(t: Node, p: Path)
      ensures Present(t, p) ==> Exists(t, p)
    {
      assert p + [] == p && ENTRIES[0] == [];
    }

    /** With the caller's record gone, all others are other users. */
    lemma GivenUp(uid: Uid, pkgid: Name)
      requires (uid, pkgid) !in db
      ensures Deletes(db, users, uid, pkgid) ==> users.listed != []
      ensures users.listed != [] ==>
        ((Deletes(db, users, uid, pkgid) ==> !Held(db, pkgid)) <==> Answered(db, users, uid, pkgid))
      ensures users.listed != [] && !Held(db, pkgid) ==> Deletes(db, users, uid, pkgid)
    {
      assert Held(db, pkgid) <==> HeldByOther(db, uid, pkgid);
      if users.listed != [] {
        SparesOthersIff(db, users, uid, pkgid);
      }
    }

    /** The disk t after the first n requests, from the database db, shares all directories as it should. */
    ghost predicate SharedAfter(t: Node, db: Database, requests: seq<Request>, n: nat)
      requires n <= |requests|
    {
      AllShared(t, RegisteredAll(db, requests[..n]))
    }

    ghost predicate SparesAt(db: Database, requests: seq<Request>, n: nat)
      requires 0 < n <= |requests|
    {
      Spares(RegisteredAll(db, requests[..n]), requests[n - 1])
    }

    /** Entry marks[n] of the log is disk n of those a run shows between its requests. */
    ghost predicate Marked(log: seq<Node>, disks: seq<Node>, marks: seq<nat>) {
      |marks| == |disks| && (forall n | 0 <= n < |disks| :: marks[n] < |log| && log[marks[n]] == disks[n]) &&
      forall n, m | 0 <= n < m < |marks| :: marks[n] <= marks[m]
    }

    /** Any run of requests: the directories are shared as they should be after every one of them exactly when each
        spares the other users.  disks[n] is the disk after n requests. */
    method Run(requests: seq<Request>) returns (ghost disks: seq<Node>, ghost marks: seq<nat>)
      requires fs.Valid() && !fs.faulty && AllClear(fs.root) && AllShared(fs.root, db)
      modifies this`db, fs`root, fs`log
      ensures fs.Valid() && db == RegisteredAll(old(db), requests)
      ensures |disks| == |requests| + 1 && disks[0] == old(fs.root) && disks[|requests|] == fs.root
      ensures Marked(fs.log, disks, marks)
      ensures (forall n | 0 <= n <= |requests| :: SharedAfter(disks[n], old(db), requests, n)) <==>
        (forall n | 0 < n <= |requests| :: SparesAt(old(db), requests, n))
    {
      hide AllShared, Spares, SharedAfter, SparesAt, AllClear, Marked;
      disks, marks := [fs.root], [|fs.log| - 1];
      StartsShared(fs.root, requests);
      FirstMark(fs.log, fs.root);
      var n := 0;
      while n < |requests|
        invariant 0 <= n <= |requests| && fs.Valid() && AllClear(fs.root) && db == RegisteredAll(old(db), requests[..n])
        invariant |disks| == n + 1 && disks[0] == old(fs.root) && disks[n] == fs.root && Marked(fs.log, disks, marks)
        invariant |marks| == n + 1 && marks[n] == |fs.log| - 1
        invariant (forall m | 0 <= m <= n :: SharedAfter(disks[m], old(db), requests, m)) <==>
          (forall m | 0 < m <= n :: SparesAt(old(db), requests, m))
      {
        ghost var before, was, logged, shown := fs.root, db, fs.log, disks;
        Serve(requests[n]);
        OneMoreRequest(before, was, fs.root, old(db), requests, n);
        NextMark(logged, fs.log, disks, marks);
        disks, marks := disks + [fs.root], marks + [|fs.log| - 1];
        OneMoreSpared(shown, fs.root, old(db), requests, n);
        n := n + 1;
      }
      assert requests[..n] == requests;
    }

    lemma FirstMark(log: seq<Node>, t: Node)
      requires log != [] && log[|log| - 1] == t
      ensures Marked(log, [t], [|log| - 1])
    {
    }

    lemma NextMark(before: seq<Node>, log: seq<Node>, disks: seq<Node>, marks: seq<nat>)
      requires before <= log && before != [] && Marked(before, disks, marks)
      ensures Marked(log, disks + [log[|log| - 1]], marks + [|log| - 1])
    {
    }

    lemma OneMoreSpared(disks: seq<Node>, t: Node, db0: Database, requests: seq<Request>, n: nat)
      requires n < |requests| && |disks| == n + 1
      requires (forall m | 0 <= m <= n :: SharedAfter(disks[m], db0, requests, m)) <==>
        (forall m | 0 < m <= n :: SparesAt(db0, requests, m))
      requires SharedAfter(disks[n], db0, requests, n) ==>
        (SharedAfter(t, db0, requests, n + 1) <==> SparesAt(db0, requests, n + 1))
      ensures (forall m | 0 <= m <= n + 1 :: SharedAfter((disks + [t])[m], db0, requests, m)) <==>
        (forall m | 0 < m <= n + 1 :: SparesAt(db0, requests, m))
    {
      hide SharedAfter, SparesAt;
      var all := disks + [t];
      assert forall m | 0 <= m <= n :: all[m] == disks[m];
      assert all[n + 1] == t;
      if forall m | 0 <= m <= n + 1 :: SharedAfter(all[m], db0, requests, m) {
        assert forall m | 0 <= m <= n :: SharedAfter(disks[m], db0, requests, m) by {
          forall m | 0 <= m <= n ensures SharedAfter(disks[m], db0, requests, m) {
            assert SharedAfter(all[m], db0, requests, m);
          }
        }
        assert SharedAfter(all[n + 1], db0, requests, n + 1);
      }
      if forall m | 0 < m <= n + 1 :: SparesAt(db0, requests, m) {
        assert SparesAt(db0, requests, n + 1);
        assert SharedAfter(disks[n], db0, requests, n);
      }
    }

    lemma StartsShared(t: Node, requests: seq<Request>)
      ensures AllShared(t, db) ==> SharedAfter(t, db, requests, 0)
    {
      assert requests[..0] == [];
    }

    lemma OneMoreRequest(before: Node, was: Database, now: Node, db0: Database, requests: seq<Request>, n: nat)
      requires n < |requests| && was == RegisteredAll(db0, requests[..n]) && db == Registered(was, requests[n])
      requires forall p | p != requests[n].pkgid :: Shared(before, was, p) ==> Shared(now, db, p)
      requires Shared(before, was, requests[n].pkgid) ==>
        (Shared(now, db, requests[n].pkgid) <==> Spares(db, requests[n]))
      ensures db == RegisteredAll(db0, requests[..n + 1])
      ensures SharedAfter(before, db0, requests, n) ==>
        (SharedAfter(now, db0, requests, n + 1) <==> SparesAt(db0, requests, n + 1))
    {
      hide Shared, Spares;
      assert requests[..n + 1][..n] == requests[..n];
      if AllShared(before, was) {
        StaysShared(before, was, now, db, requests[n]);
      }
    }

    lemma StaysShared(before: Node, was: Database, now: Node, db': Database, r: Request)
      requires AllShared(before, was)
      requires forall p | p != r.pkgid :: Shared(before, was, p) ==> Shared(now, db', p)
      requires Shared(before, was, r.pkgid) ==> (Shared(now, db', r.pkgid) <==> Spares(db', r))
      ensures AllShared(now, db') <==> Spares(db', r)
    {
      hide Shared, Spares;
      assert Shared(before, was, r.pkgid);
      forall p | p != r.pkgid ensures Shared(now, db', p) {
        assert Shared(before, was, p);
      }
    }
  }

  function RegisteredAll(db: Database, requests: seq<Request>): Database {
    if requests == [] then db else Registered(RegisteredAll(db, requests[..|requests| - 1]), requests[|requests| - 1])
  }

  /** Between a and b directories were made for the package at p, and nothing else happened. */
  ghost predicate Grown(a: Node, b: Node, p: Path) {
    forall q ::
      FileAt(b, q) == FileAt(a, q) && (IsDir(a, q) ==> IsDir(b, q)) &&
      (IsDir(b, q) ==> IsDir(a, q) || exists e | e in ENTRIES :: q <= p + e)
  }

  lemma NotGrown(a: Node, p: Path)
    ensures Grown(a, a, p)
  {}

  lemma GrownMore(a: Node, b: Node, c: Node, p: Path, entry: Path, made: Path)
    requires Grown(a, b, p) && entry in ENTRIES && made <= p + entry
    requires forall q :: FileAt(c, q) == FileAt(b, q) && (IsDir(c, q) <==> IsDir(b, q) || q <= made)
    ensures Grown(a, c, p)
  {}

  lemma StillThere(a: Node, b: Node)
    requires forall q :: FileAt(a, q) == FileAt(b, q) && (IsDir(a, q) ==> IsDir(b, q))
    ensures forall q :: Exists(a, q) ==> Exists(b, q)
  {
    forall q | Exists(a, q) ensures Exists(b, q) {
      assert FileAt(a, q).Some? || IsDir(a, q);
      assert FileAt(a, q) == FileAt(b, q);
    }
  }

  lemma GrownClear(a: Node, b: Node, p: Path, q: Path)
    requires Grown(a, b, p)
    ensures Clear(b, q) == Clear(a, q)
  {}

  lemma HeldElsewhere(db: Database, r: Request, p: Name)
    requires p != r.pkgid
    ensures Held(Registered(db, r), p) == Held(db, p)
  {
    if h :| (h, p) in db { assert (h, p) in Registered(db, r); }
  }

  lemma HeldLess(db: Database, r: Request, p: Name)
    requires r.Uninstall?
    ensures Held(Registered(db, r), p) ==> Held(db, p)
  {}

  /** Directories made for one package are not those of another. */
  lemma GrownElsewhere(a: Node, b: Node, dir: Path, made: Name, p: Name)
    requires Grown(a, b, dir + [made]) && ClearFor(a, dir + [p])
    ensures ClearFor(b, dir + [p])
    ensures Present(a, dir + [p]) ==> Present(b, dir + [p])
    ensures p != made && !Exists(a, dir + [p]) ==> !Exists(b, dir + [p])
  {
    forall e | e in ENTRIES ensures Clear(b, dir + [p] + e) {
      GrownClear(a, b, dir + [made], dir + [p] + e);
    }
    var q := dir + [p];
    assert Exists(b, q) ==> FileAt(b, q).Some? || IsDir(b, q);
    if e :| e in ENTRIES && q <= dir + [made] + e {
      assert q[|dir|] == p && (dir + [made] + e)[|dir|] == made;
    }
  }

  lemma CutElsewhere(t: Node, dir: Path, cut: Name, p: Name)
    requires ClearFor(t, dir + [p])
    ensures ClearFor(Cut(t, dir + [cut]), dir + [p])
    ensures p != cut && Present(t, dir + [p]) ==> Present(Cut(t, dir + [cut]), dir + [p])
    ensures p != cut ==> Exists(Cut(t, dir + [cut]), dir + [p]) == Exists(t, dir + [p])
    ensures !Exists(Cut(t, dir + [cut]), dir + [cut])
  {
    var c := dir + [cut];
    GetCut(t, c);
    if p != cut {
      assert c[|dir|] == cut && (dir + [p])[|dir|] == p;
      GetCutOther(t, c, dir + [p]);
    }
    forall e | e in ENTRIES
      ensures Clear(Cut(t, c), dir + [p] + e)
      ensures p != cut && IsDir(t, dir + [p] + e) ==> IsDir(Cut(t, c), dir + [p] + e)
    {
      assert (dir + [p] + e)[|dir|] == p;
      CutPoint(t, c, dir + [p] + e);
      forall q | q <= dir + [p] + e ensures FileAt(Cut(t, c), q) == None {
        CutPoint(t, c, q);
        assert FileAt(t, q) == None;
      }
    }
  }
}
