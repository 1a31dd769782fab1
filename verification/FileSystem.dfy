/** The file operations of file_util and the POSIX calls under them, over one mutable directory tree.
    Any call may fail where `faulty` is set; `log` keeps every tree the disk has held, so that a crash is
    a choice of one of its entries. */
module FileSystem {
  import opened FileTree

  /** rename() accepts a missing target, an empty directory for a directory, and a file for a file. */
  predicate CanRename(t: Node, src: Path, dst: Path)
    requires dst != []
  {
    Exists(t, src) && IsDir(t, Parent(dst)) &&
    (Exists(t, dst) ==> if IsDir(t, src) then Get(t, dst).value == EmptyDir else IsFile(t, dst))
  }

  function Renamed(t: Node, src: Path, dst: Path): Node
    requires src != [] && dst != [] && Exists(t, src)
  {
    Put(Cut(t, src), dst, Get(t, src).value)
  }

  predicate CanCopy(t: Node, src: Path, dst: Path, overwrite: bool)
    requires dst != []
  {
    IsFile(t, src) && IsDir(t, Parent(dst)) && (Exists(t, dst) ==> overwrite && IsFile(t, dst))
  }

  predicate CanRemove(t: Node, p: Path) {
    IsDir(t, p) ==> Get(t, p).value == EmptyDir
  }

  /** What MoveDir leaves at its target: a directory is merged, a file renamed over a file replaces it. */
  function Moved(s: Node, d: Option<Node>): Node {
    if s.File? then s else Overlay(s, d)
  }

  /** That is the tree that was moved if and only if it is a file, or what stood there is all in it. */
  lemma MovedIsSource(s: Node, d: Option<Node>)
    ensures Moved(s, d) == s <==> s.File? || (d.Some? ==> Contained(d.value, s))
  {
    if d.Some? {
      MergeIsSource(s, d.value);
    }
  }

  /** MoveDir succeeds on these trees when no call fails. */
  predicate CanMove(s: Option<Node>, d: Option<Node>, merge: bool) {
    s.Some? && (d.Some? ==> merge && if s.value.Dir? then KindCompatible(s.value, d.value) else d.value.File?)
  }

  lemma SameOutsideGet(a: Node, b: Node, p: Path, q: Path)
    requires p != [] && SameOutside(a, b, p) && Independent(p, q)
    ensures Get(a, q) == Get(b, q)
  {
    GetCutOther(a, p, q);
    GetCutOther(b, p, q);
  }

  lemma SameOutside2Get(a: Node, b: Node, p: Path, q: Path, r: Path)
    requires p != [] && q != [] && SameOutside2(a, b, p, q) && Independent(p, r) && Independent(q, r)
    ensures Get(a, r) == Get(b, r)
  {
    SameOutsideGet(Cut(a, p), Cut(b, p), q, r);
    GetCutOther(a, p, r);
    GetCutOther(b, p, r);
  }

  lemma EntriesStep(before: map<Name, Node>, after: map<Name, Node>, name: Name)
    requires after - {name} == before - {name}
    ensures after.Keys <= before.Keys + {name}
  {
    assert forall k | k in after && k != name :: k in after - {name};
  }

  /** A change at one path is a change at two. */
  lemma Widen(a: Node, b: Node, p: Path, q: Path)
    requires Independent(p, q) && (SameOutside(a, b, p) || SameOutside(a, b, q))
    ensures SameOutside2(a, b, p, q)
  {
    CutCommute(a, p, q);
    CutCommute(b, p, q);
  }

  lemma RenamedFrame(t: Node, src: Path, dst: Path)
    requires Independent(src, dst) && CanRename(t, src, dst)
    ensures SameOutside2(t, Renamed(t, src, dst), src, dst)
    ensures Get(Renamed(t, src, dst), src) == None
    ensures Get(Renamed(t, src, dst), dst) == Get(t, src)
  {
    var c, n := Cut(t, src), Get(t, src).value;
    GetCut(t, src);
    GetPutOther(c, dst, n, src);
    NotAboveParent(src, dst);
    CutKeepsDir(t, src, Parent(dst));
    GetPut(c, dst, n);
    CutPut(c, dst, n);
    CutCut(t, src);
    CutCommute(Put(c, dst, n), src, dst);
    CutCommute(c, src, dst);
  }

  /** A directory survives the removal of anything that is not at or above it. */
  lemma CutKeepsDir(t: Node, p: Path, d: Path)
    requires p != [] && !(p <= d)
    ensures IsDir(Cut(t, p), d) == IsDir(t, d)
  {
    if d <= p {
      assert p == d + p[|d|..];
      GetCutAbove(t, d, p[|d|..]);
    } else {
      GetCutOther(t, p, d);
    }
  }

  lemma NotAboveParent(p: Path, q: Path)
    requires Independent(p, q)
    ensures !(p <= Parent(q))
  {
    assert q == Parent(q) + [Last(q)];
  }

  function Entries(t: Node, p: Path): set<Name> {
    if IsDir(t, p) then Get(t, p).value.kids.Keys else {}
  }

  /** b differs from a at most at p, where a directory stays one and there are no entries but these. */
  predicate Within(a: Node, b: Node, p: Path, names: set<Name>)
    requires p != []
  {
    SameOutside(a, b, p) && Entries(b, p) <= names && (IsDir(a, p) ==> IsDir(b, p)) && (IsFile(b, p) ==> IsFile(a, p))
  }

  lemma {:induction false} StillBlocked(t: Node, q: Path, p: Path)
    requires q <= p && !ClearWay(t, q)
    ensures !ClearWay(t, p)
    decreases |q|
  {
    if t.Dir? && q != [] && q[0] in t.kids {
      StillBlocked(t.kids[q[0]], q[1..], p[1..]);
    }
  }

  /** A file in the way was there before any directory was made. */
  lemma FileInTheWay(t: Node, p: Path, k: nat)
    requires k < |p| && ClearWay(t, p[..k]) && IsFile(MakeDirs(t, p[..k]), p[..k + 1])
    ensures MakeDirs(t, p[..k]) == t == MakeDirs(t, p)
  {
    MakeDirsPoint(t, p[..k], p[..k + 1]);
    PrefixIsDir(t, p[..k], p[..k + 1]);
    NothingToMake(t, p[..k]);
    BlockedMakesNothing(t, p, k + 1);
  }

  lemma {:induction false} NothingToMake(t: Node, p: Path)
    requires IsDir(t, p)
    ensures MakeDirs(t, p) == t
  {
    if p != [] {
      NothingToMake(t.kids[p[0]], p[1..]);
      assert t.kids[p[0] := t.kids[p[0]]] == t.kids;
    }
  }

  lemma {:induction false} BlockedMakesNothing(t: Node, p: Path, k: nat)
    requires k <= |p| && IsFile(t, p[..k])
    ensures MakeDirs(t, p) == t
    decreases k
  {
    if k > 0 {
      assert p[..k][1..] == p[1..][..k - 1];
      BlockedMakesNothing(t.kids[p[0]], p[1..], k - 1);
      assert t.kids[p[0] := t.kids[p[0]]] == t.kids;
    }
  }

  lemma PutRoot(t: Node, p: Path, n: Node)
    requires t.Dir? && p != []
    ensures Put(t, p, n).Dir?
  {
  }

  class FileSystem {
    var root: Node
    var faulty: bool
    var log: seq<Node>

    ghost predicate Valid()
      reads this
    {
      root.Dir? && log != [] && log[|log| - 1] == root
    }

    constructor (tree: Node)
      requires tree.Dir?
      ensures Valid() && root == tree && log == [tree] && !faulty
    {
      root, log, faulty := tree, [tree], false;
    }

    /** One atomic change of the disk. */
    method Commit(t: Node)
      requires t.Dir?
      modifies this`root, this`log
      ensures Valid() && root == t && log == old(log) + [t]
    {
      root := t;
      log := log + [t];
    }

    /** The disk as it was found after the machine stopped right behind an earlier change. */
    method CrashAt(i: nat)
      requires i < |log| && log[i].Dir?
      modifies this`root, this`log
      ensures Valid() && root == old(log[i]) && log == old(log) + [root]
    {
      Commit(log[i]);
    }

    method Fails() returns (failed: bool)
      ensures failed ==> faulty
    {
      var unlucky: bool := *;
      failed := faulty && unlucky;
    }

    method Rename(src: Path, dst: Path) returns (ok: bool)
      requires Valid() && src != [] && dst != []
      modifies this`root, this`log
      ensures Valid()
      ensures ok ==> CanRename(old(root), src, dst) && root == Renamed(old(root), src, dst) && log == old(log) + [root]
      ensures !ok ==> root == old(root) && log == old(log)
      ensures !faulty ==> ok == CanRename(old(root), src, dst)
    {
      var failed := Fails();
      ok := !failed && CanRename(root, src, dst);
      if ok {
        Commit(Renamed(root, src, dst));
      }
    }

    /** A copy that fails or is cut short may leave a truncated target. */
    method CopyFile(src: Path, dst: Path, overwrite: bool) returns (ok: bool)
      requires Valid() && src != [] && dst != []
      modifies this`root, this`log
      ensures Valid() && old(log) <= log
      ensures forall i | |old(log)| <= i < |log| :: SameOutside(old(root), log[i], dst) && IsFile(log[i], dst)
      ensures SameOutside(old(root), root, dst)
      ensures ok ==> CanCopy(old(root), src, dst, overwrite)
      ensures ok ==> root == Put(old(root), dst, old(Get(root, src).value)) && Get(root, dst) == old(Get(root, src))
      ensures !ok && root != old(root) ==> CanCopy(old(root), src, dst, overwrite) && faulty && IsFile(root, dst)
      ensures !CanCopy(old(root), src, dst, overwrite) ==> log == old(log)
      ensures !faulty ==> ok == CanCopy(old(root), src, dst, overwrite)
    {
      if !CanCopy(root, src, dst, overwrite) {
        return false;
      }
      var before, n := root, Get(root, src).value;
      ok := !faulty;
      if faulty {
        var started: bool := *;
        if !started {
          return false;
        }
        var truncated: string := *;
        GetPut(before, dst, File(truncated));
        CutPut(before, dst, File(truncated));
        Commit(Put(before, dst, File(truncated)));
        ok := *;
        if !ok {
          return;
        }
      }
      GetPut(before, dst, n);
      CutPut(before, dst, n);
      Commit(Put(before, dst, n));
    }

    /** fopen for writing, some fputs and fclose.  Only a failing fopen is reported; the disk may show any
        beginning of the text on the way, and with write errors keep it. */
    method WriteFile(p: Path, text: string) returns (ok: bool)
      requires Valid() && p != []
      modifies this`root, this`log
      ensures Valid() && old(log) <= log
      ensures SameOutside(old(root), root, p)
      ensures forall i | |old(log)| <= i < |log| ::
        SameOutside(old(root), log[i], p) && FileAt(log[i], p).Some? && FileAt(log[i], p).value <= text
      ensures ok ==> IsDir(old(root), Parent(p)) && FileAt(root, p).Some? && FileAt(root, p).value <= text
      ensures ok ==> |old(log)| < |log| && FileAt(log[|old(log)|], p) == Some("")
      ensures ok && !faulty ==> FileAt(root, p) == Some(text)
      ensures !ok ==> root == old(root) && log == old(log)
      ensures !faulty ==> ok == (IsDir(old(root), Parent(p)) && !IsDir(old(root), p))
    {
      hide Cut, Put;
      var failed := Fails();
      if failed || !IsDir(root, Parent(p)) || IsDir(root, p) {
        return false;
      }
      var before := root;
      var reached := 0;
      ok := true;
      GetPut(before, p, File(text[..reached]));
      CutPut(before, p, File(text[..reached]));
      PutRoot(before, p, File(text[..reached]));
      Commit(Put(before, p, File(text[..reached])));
      while reached < |text|
        invariant Valid() && old(log) <= log && reached <= |text|
        invariant SameOutside(before, root, p) && FileAt(root, p) == Some(text[..reached])
        invariant |old(log)| < |log| && FileAt(log[|old(log)|], p) == Some("")
        invariant forall i | |old(log)| <= i < |log| ::
          SameOutside(before, log[i], p) && FileAt(log[i], p).Some? && FileAt(log[i], p).value <= text
      {
        failed := Fails();
        if failed {
          return;
        }
        var next: nat := *;
        reached := if reached < next < |text| then next else |text|;
        GetPut(before, p, File(text[..reached]));
        CutPut(before, p, File(text[..reached]));
        PutRoot(before, p, File(text[..reached]));
        Commit(Put(before, p, File(text[..reached])));
      }
      assert text[..reached] == text;
    }

    /** mkdir() */
    method MakeDirectory(p: Path) returns (ok: bool)
      requires Valid() && p != []
      modifies this`root, this`log
      ensures Valid()
      ensures ok ==> !Exists(old(root), p) && IsDir(old(root), Parent(p))
      ensures ok ==> root == Put(old(root), p, EmptyDir) && log == old(log) + [root]
      ensures !ok ==> root == old(root) && log == old(log)
      ensures !faulty ==> ok == (!Exists(old(root), p) && IsDir(old(root), Parent(p)))
    {
      var failed := Fails();
      ok := !failed && !Exists(root, p) && IsDir(root, Parent(p));
      if ok {
        Commit(Put(root, p, EmptyDir));
      }
    }

    /** bf::create_directories: one mkdir after the other, from the top. */
    method CreateDirectories(p: Path) returns (ok: bool)
      requires Valid()
      modifies this`root, this`log
      ensures Valid() && old(log) <= log
      ensures exists k | 0 <= k <= |p| :: ClearWay(old(root), p[..k]) && root == MakeDirs(old(root), p[..k])
      ensures forall i | |old(log)| <= i < |log| ::
        exists k | 0 <= k <= |p| :: ClearWay(old(root), p[..k]) && log[i] == MakeDirs(old(root), p[..k])
      ensures ok ==> ClearWay(old(root), p)
      ensures ok || !faulty ==> root == MakeDirs(old(root), p)
      ensures !faulty ==> ok == ClearWay(old(root), p)
    {
      var k := 0;
      assert MakeDirs(root, p[..0]) == root;
      while k < |p|
        invariant 0 <= k <= |p| && Valid() && old(log) <= log
        invariant root == MakeDirs(old(root), p[..k]) && ClearWay(old(root), p[..k])
        invariant forall i | |old(log)| <= i < |log| ::
          exists k | 0 <= k <= |p| :: ClearWay(old(root), p[..k]) && log[i] == MakeDirs(old(root), p[..k])
      {
        var q := p[..k + 1];
        assert q == p[..k] + [p[k]];
        MakeDirsStep(old(root), p[..k], p[k]);
        if IsFile(root, q) {
          StillBlocked(old(root), q, p);
          FileInTheWay(old(root), p, k);
          return false;
        }
        if !Exists(root, q) {
          ok := MakeDirectory(q);
          if !ok {
            return;
          }
        }
        k := k + 1;
      }
      assert p[..k] == p;
      return true;
    }

    /** CreateDir of file_util: anything that exists will do. */
    method CreateDir(p: Path) returns (ok: bool)
      requires Valid()
      modifies this`root, this`log
      ensures Valid() && old(log) <= log
      ensures exists k | 0 <= k <= |p| :: root == MakeDirs(old(root), p[..k])
      ensures old(Exists(root, p)) ==> ok && root == old(root) && log == old(log)
      ensures !old(Exists(root, p)) && ok ==> ClearWay(old(root), p)
      ensures !old(Exists(root, p)) && (ok || !faulty) ==> root == MakeDirs(old(root), p)
      ensures !faulty && !old(Exists(root, p)) ==> ok == ClearWay(old(root), p)
    {
      assert MakeDirs(root, p[..0]) == root;
      if Exists(root, p) {
        return true;
      }
      ok := CreateDirectories(p);
    }

    /** bf::remove: a missing path is no error, a non-empty directory is. */
    method Remove(p: Path) returns (ok: bool)
      requires Valid() && p != []
      modifies this`root, this`log
      ensures Valid()
      ensures ok ==> CanRemove(old(root), p) && root == Cut(old(root), p)
      ensures !ok ==> root == old(root)
      ensures log == old(log) || log == old(log) + [root]
      ensures !faulty ==> ok == CanRemove(old(root), p)
    {
      var failed := Fails();
      ok := !failed && CanRemove(root, p);
      if ok {
        Commit(Cut(root, p));
      }
    }

    /** bf::remove_all, all of it or nothing. */
    method RemoveAll(p: Path) returns (ok: bool)
      requires Valid() && p != []
      modifies this`root, this`log
      ensures Valid()
      ensures ok ==> root == Cut(old(root), p) && log == old(log) + [root]
      ensures !ok ==> root == old(root) && log == old(log)
      ensures !faulty ==> ok
    {
      var failed := Fails();
      ok := !failed;
      if ok {
        Commit(Cut(root, p));
      }
    }

    /** Copies the directory src to dst; with merge an existing entry of dst is kept. */
    method CopyDir(src: Path, dst: Path, merge: bool) returns (ok: bool)
      requires Valid() && Independent(src, dst) && IsDir(root, Parent(dst))
      modifies this`root, this`log
      ensures Valid() && old(log) <= log
      ensures SameOutside(old(root), root, dst)
      ensures Get(root, src) == old(Get(root, src))
      ensures forall i | |old(log)| <= i < |log| ::
        Within(old(root), log[i], dst, old(Entries(root, src) + Entries(root, dst)))
      ensures ok ==> IsDir(old(root), src) && CanMove(old(Get(root, src)), old(Get(root, dst)), merge)
      ensures ok ==> Get(root, dst) == Some(Overlay(old(Get(root, src).value), old(Get(root, dst))))
      ensures !IsDir(old(root), src) ==> root == old(root) && log == old(log)
      ensures !faulty && IsDir(old(root), src) && CanMove(old(Get(root, src)), old(Get(root, dst)), merge) ==> ok
      ensures !faulty && IsDir(old(root), src) && !Exists(old(root), dst) ==>
        |old(log)| < |log| && log[|old(log)|] == Put(old(root), dst, EmptyDir)
      decreases if Exists(root, src) then Get(root, src).value else EmptyDir, 2
    {
      if !IsDir(root, src) || (Exists(root, dst) && !merge) {
        return false;
      }
      if !Exists(root, dst) {
        var made := MakeDirectory(dst);
        if !made {
          return false;
        }
        GetPut(old(root), dst, EmptyDir);
        CutPut(old(root), dst, EmptyDir);
      } else if IsFile(root, dst) {
        // nothing can be created below a file, so the first entry to copy fails
        return Get(root, src).value.kids == map[];
      }
      SameOutsideGet(old(root), root, dst, src);
      ok := CopyEntries(src, dst, merge);
      if !Exists(old(root), dst) && ok {
        MergeIntoEmpty(Get(root, src).value);
      }
    }

    /** The loop of CopyDir, over a directory that is there. */
    method CopyEntries(src: Path, dst: Path, merge: bool) returns (ok: bool)
      requires Valid() && Independent(src, dst) && IsDir(root, dst) && IsDir(root, src)
      requires merge || Get(root, dst).value == EmptyDir
      modifies this`root, this`log
      ensures Valid() && old(log) <= log
      ensures SameOutside(old(root), root, dst) && Get(root, src) == old(Get(root, src))
      ensures forall i | |old(log)| <= i < |log| ::
        Within(old(root), log[i], dst, old(Entries(root, src) + Entries(root, dst)))
      ensures ok ==> KindCompatible(old(Get(root, src).value), old(Get(root, dst).value))
      ensures ok ==> Get(root, dst) == Some(Merge(old(Get(root, src).value), old(Get(root, dst).value)))
      ensures !faulty && KindCompatible(old(Get(root, src).value), old(Get(root, dst).value)) ==> ok
      decreases Get(root, src).value, 1
    {
      ghost var s, before := Get(root, src).value, Get(root, dst).value.kids;
      var todo := Get(root, src).value.kids.Keys;
      while todo != {}
        invariant Valid() && old(log) <= log
        invariant SameOutside(old(root), root, dst)
        invariant forall i | |old(log)| <= i < |log| :: Within(old(root), log[i], dst, s.kids.Keys + before.Keys)
        invariant Get(root, src) == Some(s) && IsDir(root, dst) && todo <= s.kids.Keys
        invariant Copied(s.kids, before, Get(root, dst).value.kids, todo)
        decreases |todo|
      {
        var name :| name in todo;
        ok := CopyEntry(src, dst, name, merge, old(root), s, before, todo);
        if !ok {
          return false;
        }
        todo := todo - {name};
      }
      ok := true;
      CopiedAll(s, before, Get(root, dst).value.kids);
    }

    /** One round of that loop, for an entry still to do. */
    method CopyEntry(src: Path, dst: Path, name: Name, merge: bool,
                     ghost start: Node, ghost s: Node, ghost before: map<Name, Node>, ghost todo: set<Name>)
      returns (ok: bool)
      requires Valid() && Independent(src, dst) && IsDir(root, dst) && Get(root, src) == Some(s) && s.Dir?
      requires merge || before == map[]
      requires SameOutside(start, root, dst) && name in todo && name in s.kids
      requires Copied(s.kids, before, Get(root, dst).value.kids, todo)
      modifies this`root, this`log
      ensures Valid() && old(log) <= log
      ensures SameOutside(start, root, dst) && IsDir(root, dst) && Get(root, src) == Some(s)
      ensures forall i | |old(log)| <= i < |log| :: Within(start, log[i], dst, s.kids.Keys + before.Keys)
      ensures ok ==> Copied(s.kids, before, Get(root, dst).value.kids, todo - {name})
      ensures !faulty && !ok ==> !KindCompatible(s, Dir(before))
      decreases s, 0
    {
      var current, target := src + [name], dst + [name];
      ghost var now := Get(root, dst).value.kids;
      GetAppend(root, src, [name]);
      GetAppend(root, dst, [name]);
      IndependentChildren(src, dst, name);
      CopiedClash(s, before, now, todo, name);
      ok := true;
      if IsDir(root, current) {
        ok := CopyDir(current, target, merge);
      } else if !(merge && Exists(root, target)) {
        ok := CopyFile(current, target, false);
      }
      SameOutsideEntry(old(root), root, dst, name);
      SameOutsideGet(old(root), root, dst, src);
      forall i | |old(log)| <= i < |log| ensures Within(start, log[i], dst, s.kids.Keys + before.Keys) {
        SameOutsideEntry(old(root), log[i], dst, name);
        EntriesStep(now, Get(log[i], dst).value.kids, name);
      }
      if ok {
        CopiedStep(s.kids, before, now, Get(root, dst).value.kids, todo, name);
      }
    }

    /** Renames src to dst, or copies and then removes it where that fails.  At every moment the source is
        whole, or the target is complete. */
    method MoveDir(src: Path, dst: Path, merge: bool) returns (ok: bool)
      requires Valid() && src != [] && Independent(src, dst) && IsDir(root, Parent(dst))
      modifies this`root, this`log
      ensures Valid() && old(log) <= log
      ensures ok ==> CanMove(old(Get(root, src)), old(Get(root, dst)), merge)
      ensures ok ==>
        Get(root, src) == None && Get(root, dst) == Some(Moved(old(Get(root, src).value), old(Get(root, dst))))
      ensures !ok ==> Get(root, src) == old(Get(root, src))
      ensures SameOutside2(old(root), root, src, dst)
      ensures forall i | |old(log)| <= i < |log| ::
        SameOutside2(old(root), log[i], src, dst) &&
        (Get(log[i], src) == old(Get(root, src)) || (ok && log[i] == root)) &&
        Entries(log[i], dst) <= old(Entries(root, src) + Entries(root, dst)) &&
        (old(IsDir(root, dst)) ==> IsDir(log[i], dst)) &&
        (IsFile(log[i], dst) ==> old(IsFile(root, dst)) || (ok && log[i] == root))
      ensures !Exists(old(root), src) || (Exists(old(root), dst) && !merge) ==> root == old(root) && log == old(log)
      ensures !faulty && CanMove(old(Get(root, src)), old(Get(root, dst)), merge) ==> ok
      ensures !faulty && ok && !Exists(old(root), dst) ==> log == old(log) + [root]
    {
      if Exists(root, dst) && !merge {
        return false;
      }
      ok := Rename(src, dst);
      if ok {
        RenamedFrame(old(root), src, dst);
        if IsDir(old(root), src) {
          MergeIntoEmpty(old(Get(root, src).value));
        }
        return;
      }
      ok := CopyAway(src, dst, merge);
    }

    /** What MoveDir does when the rename fails.  The directory is made first, so that the target shows up empty. */
    method CopyAway(src: Path, dst: Path, merge: bool) returns (ok: bool)
      requires Valid() && src != [] && Independent(src, dst) && IsDir(root, Parent(dst))
      modifies this`root, this`log
      ensures Valid() && old(log) <= log
      ensures ok ==> IsDir(old(root), src) && CanMove(old(Get(root, src)), old(Get(root, dst)), merge)
      ensures ok ==>
        Get(root, src) == None && Get(root, dst) == Some(Moved(old(Get(root, src).value), old(Get(root, dst))))
      ensures !ok ==> Get(root, src) == old(Get(root, src))
      ensures SameOutside2(old(root), root, src, dst)
      ensures forall i | |old(log)| <= i < |log| ::
        SameOutside2(old(root), log[i], src, dst) &&
        (Get(log[i], src) == old(Get(root, src)) || (ok && log[i] == root)) &&
        Entries(log[i], dst) <= old(Entries(root, src) + Entries(root, dst)) &&
        (old(IsDir(root, dst)) ==> IsDir(log[i], dst)) && (IsFile(log[i], dst) ==> old(IsFile(root, dst)))
      ensures !IsDir(old(root), src) ==> root == old(root) && log == old(log)
      ensures !faulty && IsDir(old(root), src) && CanMove(old(Get(root, src)), old(Get(root, dst)), merge) ==> ok
      ensures !faulty && IsDir(old(root), src) && !Exists(old(root), dst) ==>
        |old(log)| < |log| && log[|old(log)|] == Put(old(root), dst, EmptyDir)
    {
      ok := CopyDir(src, dst, merge);
      SameOutsideGet(old(root), root, dst, src);
      Widen(old(root), root, src, dst);
      forall i | |old(log)| <= i < |log|
        ensures SameOutside2(old(root), log[i], src, dst) && Get(log[i], src) == old(Get(root, src))
      {
        Widen(old(root), log[i], src, dst);
        SameOutsideGet(old(root), log[i], dst, src);
      }
      if !ok {
        return;
      }
      ghost var copied := root;
      ok := RemoveAll(src);
      if ok {
        GetCut(copied, src);
        CutCut(copied, src);
        GetCutOther(copied, src, dst);
      }
    }

    /** Renames a file, or copies and then removes it; a failing removal is not reported. */
    method MoveFile(src: Path, dst: Path) returns (ok: bool)
      requires Valid() && src != [] && Independent(src, dst)
      modifies this`root, this`log
      ensures Valid() && old(log) <= log
      ensures ok ==> Exists(old(root), src) && !Exists(old(root), dst) && IsDir(old(root), Parent(dst))
      ensures ok ==> Get(root, dst) == old(Get(root, src))
      ensures ok ==> Get(root, src) == None || (faulty && Get(root, src) == old(Get(root, src)))
      ensures !ok ==>
        Get(root, src) == old(Get(root, src)) &&
        (root == old(root) || (faulty && IsFile(root, dst) && IsFile(old(root), src)))
      ensures SameOutside2(old(root), root, src, dst)
      ensures forall i | |old(log)| <= i < |log| ::
        SameOutside2(old(root), log[i], src, dst) &&
        (IsFile(log[i], dst) || Get(log[i], dst) == old(Get(root, src))) &&
        (Get(log[i], src) == old(Get(root, src)) || (ok && log[i] == root))
      ensures Exists(old(root), dst) ==> root == old(root) && log == old(log)
      ensures !faulty ==> ok == (Exists(old(root), src) && !Exists(old(root), dst) && IsDir(old(root), Parent(dst)))
      ensures !faulty ==> log == if ok then old(log) + [root] else old(log)
      ensures !faulty && ok ==> root == Renamed(old(root), src, dst)
    {
      if Exists(root, dst) {
        return false;
      }
      ok := Rename(src, dst);
      if ok {
        RenamedFrame(old(root), src, dst);
        return;
      }
      ok := CopyFile(src, dst, true);
      SameOutsideGet(old(root), root, dst, src);
      Widen(old(root), root, src, dst);
      forall i | |old(log)| <= i < |log|
        ensures SameOutside2(old(root), log[i], src, dst) && Get(log[i], src) == old(Get(root, src))
      {
        Widen(old(root), log[i], src, dst);
        SameOutsideGet(old(root), log[i], dst, src);
      }
      if !ok {
        return;
      }
      ghost var copied := root;
      var removed := RemoveAll(src);
      if removed {
        GetCut(copied, src);
        CutCut(copied, src);
        GetCutOther(copied, src, dst);
      }
    }
  }

  /** CopyDir between two entries: those not in todo are copied, the others are as before. */
  ghost predicate Copied(s: map<Name, Node>, before: map<Name, Node>, now: map<Name, Node>, todo: set<Name>) {
    (forall k | k in s && k in before && k !in todo :: KindCompatible(s[k], before[k])) &&
    (forall k | k in s && k !in todo ::
       k in now && now[k] == Overlay(s[k], if k in before then Some(before[k]) else None)) &&
    (forall k | k !in s || k in todo :: (k in now <==> k in before) && (k in now ==> now[k] == before[k]))
  }

  lemma CopiedStep(s: map<Name, Node>, before: map<Name, Node>, now: map<Name, Node>, after: map<Name, Node>,
                   todo: set<Name>, name: Name)
    requires Copied(s, before, now, todo) && name in todo && name in s
    requires after - {name} == now - {name}
    requires name in now ==> KindCompatible(s[name], now[name])
    requires name in after && after[name] == Overlay(s[name], if name in now then Some(now[name]) else None)
    ensures Copied(s, before, after, todo - {name})
  {
    forall k | k != name
      ensures (k in after <==> k in now) && (k in now ==> after[k] == now[k])
    {
      assert k in after <==> k in after - {name};
      assert k in now <==> k in now - {name};
      if k in now {
        assert after[k] == (after - {name})[k] == (now - {name})[k];
      }
    }
  }

  lemma CopiedClash(s: Node, before: map<Name, Node>, now: map<Name, Node>, todo: set<Name>, name: Name)
    requires s.Dir? && Copied(s.kids, before, now, todo) && name in todo && name in s.kids
    ensures now.Keys <= s.kids.Keys + before.Keys
    ensures name in now <==> name in before
    ensures KindCompatible(s, Dir(before)) && name in now ==> KindCompatible(s.kids[name], now[name])
  {
  }

  lemma CopiedAll(s: Node, before: map<Name, Node>, now: map<Name, Node>)
    requires s.Dir? && Copied(s.kids, before, now, {})
    ensures KindCompatible(s, Dir(before)) && Dir(now) == Merge(s, Dir(before))
    ensures before == map[] ==> Dir(now) == s
  {
    var merged := Merge(s, Dir(before)).kids;
    assert now.Keys == merged.Keys;
    forall k | k in now ensures now[k] == merged[k] {
      if k in s.kids {
        assert now[k] == Overlay(s.kids[k], if k in before then Some(before[k]) else None);
      }
    }
    assert now == merged;
    if before == map[] {
      MergeIntoEmpty(s);
    }
  }

  lemma IndependentChildren(src: Path, dst: Path, name: Name)
    requires Independent(src, dst)
    ensures Independent(src + [name], dst + [name]) && Independent(src, dst + [name])
    ensures Parent(dst + [name]) == dst && Parent(src + [name]) == src
  {
    var i := if |src| <= |dst| then FirstDifference(src, dst) else FirstDifference(dst, src);
    assert (src + [name])[i] == src[i] && (dst + [name])[i] == dst[i];
  }

  ghost function FirstDifference(p: Path, q: Path): (i: nat)
    requires !(p <= q) && |p| <= |q|
    ensures i < |p| && p[i] != q[i]
  {
    if p[0] != q[0] then 0
    else
      assert p == [p[0]] + p[1..] && q == [q[0]] + q[1..];
      1 + FirstDifference(p[1..], q[1..])
  }

}
