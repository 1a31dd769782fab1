/** The installer's context and the trees an update moves between: the package, its backup and the
    unpacked new version. */
module PackageTrees {
  import opened FileTree
  import opened FileSystem

  datatype Status =
    | OK | ERROR | APP_DIR_ERROR | INVALID_VALUE | PACKAGE_NOT_FOUND | RECOVERY_ERROR | ICON_ERROR
    | MANIFEST_ERROR | MANIFEST_NOT_FOUND | PARSE_ERROR | DELTA_ERROR

  datatype RequestMode = USER | GLOBAL

  const DATA: Name := "data"
  const SHARED: Name := "shared"
  const CACHE: Name := "cache"
  const STORAGE: set<Name> := {DATA, SHARED}

  class InstallerContext {
    var rootApplicationPath: Path
    var pkgid: Name
    var pkgPath: Path
    var unpackedDirPath: Path
    var requestMode: RequestMode

    /** A new process knows where packages live, and nothing of any of them. */
    constructor (appRoot: Path, mode: RequestMode)
      ensures rootApplicationPath == appRoot && requestMode == mode
      ensures pkgid == "" && pkgPath == [] && unpackedDirPath == []
    {
      rootApplicationPath, requestMode := appRoot, mode;
      pkgid, pkgPath, unpackedDirPath := "", [], [];
    }
  }

  /** paths.cc: the path with ".bck" appended to its last name. */
  function BackupPath(p: Path): (b: Path)
    requires p != []
    ensures |b| == |p| && Parent(b) == Parent(p)
  {
    Parent(p) + [Last(p) + ".bck"]
  }

  lemma BackupPathIsApart(p: Path)
    requires p != []
    ensures Independent(p, BackupPath(p)) && Independent(BackupPath(p), p)
  {
    assert |BackupPath(p)[|p| - 1]| == |p[|p| - 1]| + 4;
  }

  /** The entries of the directory at p; none when there is no directory. */
  function Kids(t: Node, p: Path): map<Name, Node> {
    if IsDir(t, p) then Get(t, p).value.kids else map[]
  }

  function Lookup(m: map<Name, Node>, k: Name): Option<Node> {
    if k in m then Some(m[k]) else None
  }

  lemma SameLookups(a: map<Name, Node>, b: map<Name, Node>)
    requires forall k :: Lookup(a, k) == Lookup(b, k)
    ensures a == b
  {
    forall k ensures (k in a <==> k in b) && (k in a ==> a[k] == b[k]) {
      assert Lookup(a, k) == Lookup(b, k);
    }
  }

  /** Two directories after a change at the entry `name` of both. */
  lemma TwoEntries(a: Node, b: Node, p: Path, q: Path, name: Name)
    requires Independent(p, q) && IsDir(a, p) && IsDir(a, q)
    requires SameOutside2(a, b, p + [name], q + [name])
    ensures SameOutside2(a, b, p, q)
    ensures IsDir(b, p) && Kids(b, p) - {name} == Kids(a, p) - {name}
    ensures IsDir(b, q) && Kids(b, q) - {name} == Kids(a, q) - {name}
    ensures Get(a, p + [name]) == Lookup(Kids(a, p), name) && Get(a, q + [name]) == Lookup(Kids(a, q), name)
    ensures Get(b, p + [name]) == Lookup(Kids(b, p), name) && Get(b, q + [name]) == Lookup(Kids(b, q), name)
  {
    TwoCuts(a, p, q, name);
    TwoCuts(b, p, q, name);
    assert Kids(a, p) - {name} == Cut(Get(a, p).value, [name]).kids;
    assert Kids(b, p) - {name} == Cut(Get(b, p).value, [name]).kids;
    assert Kids(a, q) - {name} == Cut(Get(a, q).value, [name]).kids;
    assert Kids(b, q) - {name} == Cut(Get(b, q).value, [name]).kids;
  }

  lemma TwoCuts(t: Node, p: Path, q: Path, name: Name)
    requires Independent(p, q)
    ensures var c := Cut(Cut(t, p + [name]), q + [name]);
      Cut(Cut(c, p), q) == Cut(Cut(t, p), q) &&
      Get(c, p) == (if Exists(t, p) then Some(Cut(Get(t, p).value, [name])) else None) &&
      Get(c, q) == if Exists(t, q) then Some(Cut(Get(t, q).value, [name])) else None
    ensures Get(t, p + [name]) == if IsDir(t, p) then Lookup(Kids(t, p), name) else None
    ensures Get(t, q + [name]) == if IsDir(t, q) then Lookup(Kids(t, q), name) else None
  {
    var pn, qn := p + [name], q + [name];
    IndependentChildren(p, q, name);
    IndependentChildren(q, p, name);
    var d := Cut(t, pn);
    CutCommute(d, qn, p);
    CutBelow(t, p, [name]);
    CutBelow(Cut(t, p), q, [name]);
    GetCutOther(d, qn, p);
    GetCutAbove(t, p, [name]);
    GetCutAbove(d, q, [name]);
    GetCutOther(t, pn, q);
    GetAppend(t, p, [name]);
    GetAppend(t, q, [name]);
  }

  /** A directory that holds none of its changes at or above itself stays a directory. */
  lemma DirKept(a: Node, b: Node, p: Path, q: Path, d: Path)
    requires p != [] && q != [] && SameOutside2(a, b, p, q) && !(p <= d) && !(q <= d)
    ensures IsDir(a, d) == IsDir(b, d)
  {
    CutKeepsDir(a, p, d);
    CutKeepsDir(b, p, d);
    CutKeepsDir(Cut(a, p), q, d);
    CutKeepsDir(Cut(b, p), q, d);
  }

  /** Nothing but what lies at, above or below the three paths can tell a from b. */
  ghost predicate SameElsewhere(a: Node, b: Node, p: Path, q: Path, r: Path) {
    forall x: Path | Independent(p, x) && Independent(q, x) && Independent(r, x) :: Get(a, x) == Get(b, x)
  }

  lemma ElsewhereIsSame(a: Node, b: Node, p: Path, q: Path, r: Path)
    requires p != [] && q != [] && SameOutside2(a, b, p, q)
    ensures SameElsewhere(a, b, p, q, r) && SameElsewhere(a, b, q, r, p) && SameElsewhere(a, b, q, p, r)
  {
    forall x: Path | Independent(p, x) && Independent(q, x)
      ensures Get(a, x) == Get(b, x)
    {
      SameOutside2Get(a, b, p, q, x);
    }
  }

  lemma SameOutside2Trans(a: Node, b: Node, c: Node, p: Path, q: Path)
    requires p != [] && q != [] && SameOutside2(a, b, p, q) && SameOutside2(b, c, p, q)
    ensures SameOutside2(a, c, p, q)
  {
  }

  lemma SameOutside2Refl(t: Node, p: Path, q: Path)
    requires p != [] && q != []
    ensures SameOutside2(t, t, p, q)
  {
  }

  lemma SameOutside2Swap(a: Node, b: Node, p: Path, q: Path)
    requires Independent(p, q) && SameOutside2(a, b, p, q)
    ensures SameOutside2(a, b, q, p)
  {
    CutCommute(a, p, q);
    CutCommute(b, p, q);
  }

  lemma KidsBut(a: map<Name, Node>, b: map<Name, Node>, name: Name, k: Name)
    requires a - {name} == b - {name} && k != name
    ensures Lookup(a, k) == Lookup(b, k)
  {
    assert k in a <==> k in a - {name};
    assert k in b <==> k in b - {name};
    if k in a {
      assert a[k] == (a - {name})[k] == (b - {name})[k] == b[k];
    }
  }
}
