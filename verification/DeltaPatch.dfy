/** StepDeltaPatch: the new version of a package is made from a copy of the old one and a delta. */
module DeltaPatch {
  import opened DirectoryClimbing
  import opened FileTree
  import opened FileEdits
  import opened FileSystem
  import opened PackageTrees

  const EXTERNAL_MEMORY_MOUNT_POINT: Name := ".mmc"
  const BINARY_DIR: Name := "bin"

  /** What the installer and the applications put into a package themselves. */
  const RUNTIME_DIRS: seq<Path> := [["data"], ["cache"], ["shared", "data"], ["shared", "trusted"]]

  /** An application of the old manifest: its type and the texts of its icons. */
  datatype OldApp = OldApp(kind: string, icons: seq<string>)

  datatype DeltaInfo = DeltaInfo(added: seq<Path>, modified: seq<Path>, removed: seq<Path>)

  /** The lists as the delta file has them. */
  datatype DeltaText = DeltaText(added: seq<string>, modified: seq<string>, removed: seq<string>)

  function ToPaths(texts: seq<string>): (paths: seq<Path>)
    ensures |paths| == |texts| && forall i | 0 <= i < |texts| :: paths[i] == PathOf(texts[i])
  {
    seq(|texts|, i requires 0 <= i < |texts| => PathOf(texts[i]))
  }

  function ToInfo(text: DeltaText): DeltaInfo {
    DeltaInfo(ToPaths(text.added), ToPaths(text.modified), ToPaths(text.removed))
  }

  method AnyClimbs(texts: seq<string>) returns (found: bool)
    ensures found <==> exists s | s in texts :: Climbs(s)
  {
    for i := 0 to |texts|
      invariant forall k | 0 <= k < i :: !Climbs(texts[k])
    {
      if HasDirectoryClimbing(texts[i]) {
        return true;
      }
    }
    return false;
  }

  method ValidateDeltaInfo(text: DeltaText) returns (ok: bool)
    ensures ok <==> forall s | s in text.added + text.modified + text.removed :: !Climbs(s)
  {
    var found := AnyClimbs(text.added);
    if found {
      return false;
    }
    found := AnyClimbs(text.modified);
    if found {
      return false;
    }
    found := AnyClimbs(text.removed);
    return !found;
  }

  /** A valid delta addresses the working copy only: what the system resolves is what ApplyPatch edits. */
  lemma ValidTargets(text: DeltaText, base: Path, i: nat)
    requires forall s | s in text.added + text.modified + text.removed :: !Climbs(s)
    ensures i < |text.added| ==> Resolve(base, text.added[i]) == base + ToInfo(text).added[i]
    ensures i < |text.modified| ==> Resolve(base, text.modified[i]) == base + ToInfo(text).modified[i]
    ensures i < |text.removed| ==> Resolve(base, text.removed[i]) == base + ToInfo(text).removed[i]
  {
    if i < |text.added| {
      StaysBelow(base, text.added[i]);
    }
    if i < |text.modified| {
      StaysBelow(base, text.modified[i]);
    }
    if i < |text.removed| {
      StaysBelow(base, text.removed[i]);
    }
  }

  predicate Distinct(s: seq<Path>) {
    forall i, j | 0 <= i < j < |s| :: s[i] != s[j]
  }

  /** q lies at or below a removed path. */
  predicate Removed(removed: seq<Path>, q: Path) {
    exists r | r in removed :: r <= q
  }

  /** A path that is added as a file, not as a directory. */
  predicate AddedFile(t: Node, patch: Path, added: seq<Path>, q: Path) {
    q in added && !IsDir(t, patch + q)
  }

  /** Nothing outside the three places has changed. */
  ghost predicate Elsewhere(a: Node, b: Node, app: Path, patch: Path, temp: Path) {
    forall q | !(app <= q) && !(patch <= q) && !(temp <= q) ::
      FileAt(b, q) == FileAt(a, q) && IsDir(b, q) == IsDir(a, q)
  }

  lemma BelowElsewhere(a: Node, b: Node, app: Path, patch: Path, temp: Path, p: Path)
    requires p != [] && SameOutside(a, b, p) && (app <= p || patch <= p || temp <= p)
    ensures Elsewhere(a, b, app, patch, temp)
  {
    forall q | !(p <= q) ensures FileAt(b, q) == FileAt(a, q) && IsDir(b, q) == IsDir(a, q) {
      CutPoint(a, p, q);
      CutPoint(b, p, q);
    }
  }

  /** A file moved from src to dst, seen at every path. */
  lemma MovedFile(a: Node, b: Node, src: Path, dst: Path)
    requires Independent(src, dst) && IsFile(a, src) && !IsDir(a, dst) && IsDir(a, Parent(dst))
    requires SameOutside2(a, b, src, dst)
    requires Get(b, src) == None && Get(b, dst) == Get(a, src)
    ensures forall q ::
      FileAt(b, q) == (if q == dst then FileAt(a, src) else if q == src then None else FileAt(a, q)) &&
      IsDir(b, q) == IsDir(a, q)
  {
    hide Cut, Put, Get;
    var n := Get(a, src).value;
    var c := Put(Cut(a, src), dst, n);
    NotAboveParent(src, dst);
    CutKeepsDir(a, src, Parent(dst));
    GetPut(Cut(a, src), dst, n);
    GetPutOther(Cut(a, src), dst, n, src);
    GetCut(a, src);
    CutPut(Cut(a, src), dst, n);
    CutCommute(c, src, dst);
    CutCommute(b, src, dst);
    CutCut(a, src);
    CutCommute(a, src, dst);
    CutCommute(Cut(a, src), src, dst);
    GetCutOther(c, src, dst);
    GetCutOther(b, src, dst);
    SameEverywhere(Cut(b, src), Cut(c, src), dst);
    SameEverywhere(b, c, src);
    CutIsOnlyFile(a, src);
    GetCutOther(a, src, dst);
    CopyIsOnlyFile(Cut(a, src), c, dst);
  }

  /** x lies at or below app + r for an r of rs. */
  ghost predicate Below(app: Path, rs: seq<Path>, x: Path) {
    exists r | r in rs :: app + r <= x
  }

  lemma BelowOneMore(app: Path, rs: seq<Path>, i: nat, x: Path)
    requires i < |rs|
    ensures Below(app, rs[..i + 1], x) <==> Below(app, rs[..i], x) || app + rs[i] <= x
  {
    assert rs[..i + 1] == rs[..i] + [rs[i]];
  }

  lemma BelowRelative(app: Path, rs: seq<Path>, q: Path)
    ensures Below(app, rs, app + q) <==> Removed(rs, q)
  {
    forall r | r in rs ensures app + r <= app + q <==> r <= q {
      assert (app + r)[|app|..] == r && (app + q)[|app|..] == q;
      if app + r <= app + q {
        var rest := (app + q)[|app + r|..];
        assert app + q == (app + r) + rest && (app + q)[|app|..] == r + rest;
      }
    }
  }

  lemma BetweenElsewhere(a: Node, b: Node, app: Path, patch: Path, temp: Path, p: Path, r: Path)
    requires p != [] && r != [] && SameOutside2(a, b, p, r)
    requires (app <= p || patch <= p || temp <= p) && (app <= r || patch <= r || temp <= r)
    ensures Elsewhere(a, b, app, patch, temp)
  {
    forall q | !(p <= q) && !(r <= q) ensures FileAt(b, q) == FileAt(a, q) && IsDir(b, q) == IsDir(a, q) {
      CutPoint(a, p, q);
      CutPoint(b, p, q);
      CutPoint(Cut(a, p), r, q);
      CutPoint(Cut(b, p), r, q);
    }
  }

  lemma ElsewhereTrans(a: Node, b: Node, c: Node, app: Path, patch: Path, temp: Path)
    requires Elsewhere(a, b, app, patch, temp) && Elsewhere(b, c, app, patch, temp)
    ensures Elsewhere(a, c, app, patch, temp)
  {
  }

  class StepDeltaPatch {
    const fs: FileSystem
    /** What xdelta3 makes of an old file and a patch; None for a failing exit status. */
    const decode: (string, string) -> Option<string>
    /** The working copy, the patch directory and the path of the temporary file. */
    const app: Path
    const patch: Path
    const temp: Path
    /** The installed package, as a path and as a text, and the part of it the delta is about. */
    const pkgDir: Path
    const pkgText: string
    const deltaRoot: Path
    /** Which leaves are symbolic links, and the applications of the installed version. */
    const isLink: string -> bool
    const oldApps: seq<OldApp>

    constructor (fs: FileSystem, decode: (string, string) -> Option<string>, app: Path, patch: Path, temp: Path,
                 pkgDir: Path, pkgText: string, deltaRoot: Path, isLink: string -> bool, oldApps: seq<OldApp>)
      ensures this.fs == fs && this.decode == decode && this.app == app && this.patch == patch && this.temp == temp
      ensures this.pkgDir == pkgDir && this.pkgText == pkgText && this.deltaRoot == deltaRoot
      ensures this.isLink == isLink && this.oldApps == oldApps
    {
      this.fs, this.decode, this.app, this.patch, this.temp := fs, decode, app, patch, temp;
      this.pkgDir, this.pkgText, this.deltaRoot := pkgDir, pkgText, deltaRoot;
      this.isLink, this.oldApps := isLink, oldApps;
    }

    ghost predicate Apart() {
      Independent(app, patch) && Independent(patch, app) && Independent(app, temp) && Independent(temp, app) &&
      Independent(patch, temp) && Independent(temp, patch)
    }

    /** The file at q of the new version, by the lists. */
    function Patched(t: Node, info: DeltaInfo, q: Path): Option<string> {
      if AddedFile(t, patch, info.added, q) then FileAt(t, patch + q)
      else if q in info.modified then
        if IsFile(t, app + q) && IsFile(t, patch + q) then decode(FileAt(t, app + q).value, FileAt(t, patch + q).value)
        else None
      else if Removed(info.removed, q) then None
      else FileAt(t, app + q)
    }

    /** A failing removal is only logged. */
    method ApplyDeletedFiles(info: DeltaInfo) returns (ok: bool)
      requires fs.Valid() && Apart()
      modifies fs`root, fs`log
      ensures fs.Valid() && ok && (Exists(fs.root, temp) ==> old(Exists(fs.root, temp)))
      ensures Elsewhere(old(fs.root), fs.root, app, patch, temp)
      ensures !fs.faulty ==> forall x ::
        FileAt(fs.root, x) == (if Below(app, info.removed, x) then None else old(FileAt(fs.root, x))) &&
        IsDir(fs.root, x) == (!Below(app, info.removed, x) && old(IsDir(fs.root, x)))
    {
      hide Cut, Put, Get;
      for i := 0 to |info.removed|
        invariant fs.Valid() && Elsewhere(old(fs.root), fs.root, app, patch, temp)
        invariant Exists(fs.root, temp) ==> old(Exists(fs.root, temp))
        invariant !fs.faulty ==> forall x ::
          FileAt(fs.root, x) == (if Below(app, info.removed[..i], x) then None else old(FileAt(fs.root, x))) &&
          IsDir(fs.root, x) == (!Below(app, info.removed[..i], x) && old(IsDir(fs.root, x)))
      {
        ghost var before := fs.root;
        var p := app + info.removed[i];
        var removed := fs.RemoveAll(p);
        assert Exists(fs.root, temp) <==> FileAt(fs.root, temp).Some? || IsDir(fs.root, temp);
        CutPoint(before, p, temp);
        forall x
          ensures removed ==>
            FileAt(fs.root, x) == (if p <= x then None else FileAt(before, x)) &&
            IsDir(fs.root, x) == (!(p <= x) && IsDir(before, x))
          ensures !(app <= x) ==> !(p <= x)
          ensures Below(app, info.removed[..i + 1], x) <==> Below(app, info.removed[..i], x) || p <= x
        {
          CutPoint(before, p, x);
          BelowOneMore(app, info.removed, i, x);
          assert app <= p;
        }
      }
      assert info.removed[..|info.removed|] == info.removed;
      return true;
    }

    /** The file and its patch are there and decode. */
    predicate CanModify(t: Node, relative: Path) {
      IsFile(t, app + relative) && IsFile(t, patch + relative) &&
      decode(FileAt(t, app + relative).value, FileAt(t, patch + relative).value).Some?
    }

    /** One round of ApplyModifiedFiles: the file is decoded into a temporary one and copied back. */
    method ModifyOne(relative: Path) returns (ok: bool)
      requires fs.Valid() && Apart() && !IsDir(fs.root, temp)
      modifies fs`root, fs`log
      ensures fs.Valid() && Elsewhere(old(fs.root), fs.root, app, patch, temp) && !IsDir(fs.root, temp)
      ensures !fs.faulty && ok ==> !Exists(fs.root, temp)
      ensures !fs.faulty && old(IsDir(fs.root, Parent(temp))) ==> ok == old(CanModify(fs.root, relative))
      ensures !fs.faulty && ok && !old(Exists(fs.root, temp)) ==>
        old(IsFile(fs.root, app + relative) && IsFile(fs.root, patch + relative)) && forall x ::
        IsDir(fs.root, x) == old(IsDir(fs.root, x)) &&
        FileAt(fs.root, x) ==
          if x == app + relative then
            old(decode(FileAt(fs.root, app + relative).value, FileAt(fs.root, patch + relative).value))
          else old(FileAt(fs.root, x))
    {
      hide Cut, Put, Get, Elsewhere;
      ghost var t0 := fs.root;
      var patchFile, input := patch + relative, app + relative;
      ElsewhereRefl(t0);
      if !IsFile(fs.root, input) || !IsFile(fs.root, patchFile) {
        return false;
      }
      var decoded := decode(FileAt(fs.root, input).value, FileAt(fs.root, patchFile).value);
      if decoded.None? {
        return false;
      }
      ok := fs.WriteFile(temp, decoded.value);
      if !ok {
        return;
      }
      Under(temp, app, relative);
      CopyIsOnlyFile(t0, fs.root, temp);
      BelowElsewhere(t0, fs.root, app, patch, temp, temp);
      ghost var t1 := fs.root;
      StillFile(t0, t1, input, temp);
      PrefixIsDir(t1, Parent(input), input);
      ok := fs.CopyFile(temp, input, true);
      if fs.root != t1 {
        BelowElsewhere(t1, fs.root, app, patch, temp, input);
        ElsewhereTrans(t0, t1, fs.root, app, patch, temp);
        CopyIsOnlyFile(t1, fs.root, input);
      }
      ghost var t2 := fs.root;
      StillFile(t1, t2, temp, input);
      DropTemp();
      ElsewhereTrans(t0, t2, fs.root, app, patch, temp);
    }

    method DropTemp()
      requires fs.Valid() && Apart() && IsFile(fs.root, temp)
      modifies fs`root, fs`log
      ensures fs.Valid() && Elsewhere(old(fs.root), fs.root, app, patch, temp)
      ensures !fs.faulty ==> !Exists(fs.root, temp) && OnlyFile(old(fs.root), fs.root, temp)
      ensures !IsDir(fs.root, temp)
    {
      hide Cut, Put, Get, Elsewhere;
      ghost var t := fs.root;
      ElsewhereRefl(t);
      var removed := fs.Remove(temp);
      if removed {
        CutIsOnlyFile(t, temp);
        GetCut(t, temp);
        CutCut(t, temp);
        PrefixIsDir(t, Parent(temp), temp);
        BelowElsewhere(t, fs.root, app, patch, temp, temp);
      }
    }

    lemma ElsewhereRefl(t: Node)
      ensures Elsewhere(t, t, app, patch, temp)
    {
    }

    lemma StillFile(a: Node, b: Node, p: Path, q: Path)
      requires IsFile(a, p) && p != q && (a == b || OnlyFile(a, b, q))
      ensures IsFile(b, p)
    {
      assert FileAt(b, p) == FileAt(a, p);
    }

    /** The file at x after the first n modified files. */
    ghost predicate ModifiedAt(t0: Node, t: Node, modified: seq<Path>, n: nat, x: Path)
      requires n <= |modified|
    {
      IsDir(t, x) == IsDir(t0, x) &&
      if app <= x && x[|app|..] in modified[..n] then
        FileAt(t0, x).Some? && FileAt(t0, patch + x[|app|..]).Some? &&
        FileAt(t, x) == decode(FileAt(t0, x).value, FileAt(t0, patch + x[|app|..]).value)
      else FileAt(t, x) == FileAt(t0, x)
    }

    ghost predicate AllModified(t0: Node, t: Node, modified: seq<Path>, n: nat)
      requires n <= |modified|
    {
      forall x :: ModifiedAt(t0, t, modified, n, x)
    }

    method ApplyModifiedFiles(info: DeltaInfo) returns (ok: bool)
      requires fs.Valid() && Apart() && !Exists(fs.root, temp)
      modifies fs`root, fs`log
      ensures fs.Valid() && Elsewhere(old(fs.root), fs.root, app, patch, temp) && !IsDir(fs.root, temp)
      ensures !fs.faulty && ok && Distinct(info.modified) ==>
        AllModified(old(fs.root), fs.root, info.modified, |info.modified|)
      ensures !fs.faulty && Distinct(info.modified) && old(IsDir(fs.root, Parent(temp))) ==>
        ok == forall r | r in info.modified :: old(CanModify(fs.root, r))
    {
      hide Cut, Put, Get, Elsewhere, Distinct, AllModified, CanModify;
      ElsewhereRefl(fs.root);
      NothingModified(fs.root, info.modified);
      ok := true;
      for i := 0 to |info.modified|
        invariant fs.Valid() && Elsewhere(old(fs.root), fs.root, app, patch, temp)
        invariant !IsDir(fs.root, temp) && (!fs.faulty ==> !Exists(fs.root, temp))
        invariant !fs.faulty && Distinct(info.modified) ==> AllModified(old(fs.root), fs.root, info.modified, i)
        invariant !fs.faulty && Distinct(info.modified) && old(IsDir(fs.root, Parent(temp))) ==>
          forall r | r in info.modified[..i] :: CanModify(old(fs.root), r)
      {
        ghost var before := fs.root;
        assert info.modified[i] in info.modified && info.modified[..i + 1] == info.modified[..i] + [info.modified[i]];
        StillThere(old(fs.root), before);
        if !fs.faulty && Distinct(info.modified) {
          StillModifiable(old(fs.root), before, info.modified, i);
        }
        ok := ModifyOne(info.modified[i]);
        ElsewhereTrans(old(fs.root), before, fs.root, app, patch, temp);
        if !ok {
          return;
        }
        if !fs.faulty && Distinct(info.modified) {
          OneMoreModified(old(fs.root), before, fs.root, info.modified, i);
        }
      }
      assert info.modified[..|info.modified|] == info.modified;
      return true;
    }

    /** A file that has not been modified yet can be if it could at the beginning. */
    lemma StillModifiable(t0: Node, t: Node, modified: seq<Path>, i: nat)
      requires Apart() && i < |modified| && Distinct(modified) && AllModified(t0, t, modified, i)
      ensures CanModify(t, modified[i]) == CanModify(t0, modified[i])
    {
      hide Get;
      var r := modified[i];
      Under(app, patch, r);
      assert (app + r)[|app|..] == r && r !in modified[..i];
      assert ModifiedAt(t0, t, modified, i, app + r) && ModifiedAt(t0, t, modified, i, patch + r);
      assert FileAt(t, app + r) == FileAt(t0, app + r) && FileAt(t, patch + r) == FileAt(t0, patch + r);
    }

    lemma NothingModified(t: Node, modified: seq<Path>)
      ensures AllModified(t, t, modified, 0)
    {
    }

    lemma OneMoreModified(t0: Node, t: Node, t': Node, modified: seq<Path>, i: nat)
      requires Apart() && i < |modified| && Distinct(modified) && AllModified(t0, t, modified, i)
      requires IsFile(t, app + modified[i]) && IsFile(t, patch + modified[i])
      requires forall x ::
        IsDir(t', x) == IsDir(t, x) &&
        FileAt(t', x) ==
          if x == app + modified[i] then
            decode(FileAt(t, app + modified[i]).value, FileAt(t, patch + modified[i]).value)
          else FileAt(t, x)
      ensures AllModified(t0, t', modified, i + 1)
    {
      hide Get;
      var r := modified[i];
      Under(app, patch, r);
      assert (app + r)[|app|..] == r;
      assert modified[..i + 1] == modified[..i] + [r];
      assert r !in modified[..i];
      assert ModifiedAt(t0, t, modified, i, app + r) && ModifiedAt(t0, t, modified, i, patch + r);
      var n := i + 1;
      forall x ensures ModifiedAt(t0, t', modified, n, x) {
        assert ModifiedAt(t0, t, modified, i, x);
        if app <= x {
          assert x == app + x[|app|..];
        }
      }
    }

    /** The tree after the first n added files. */
    ghost predicate AddedAt(t0: Node, t: Node, added: seq<Path>, n: nat, q: Path)
      requires n <= |added|
    {
      IsDir(t, patch + q) == IsDir(t0, patch + q) &&
      if AddedFile(t0, patch, added[..n], q) then
        FileAt(t0, patch + q).Some? && FileAt(t, app + q) == FileAt(t0, patch + q) && FileAt(t, patch + q) == None
      else FileAt(t, app + q) == FileAt(t0, app + q) && FileAt(t, patch + q) == FileAt(t0, patch + q)
    }

    /** bf::create_directories for a path in the working copy. */
    method MakeBelowApp(p: Path) returns (ok: bool)
      requires fs.Valid() && Apart() && IsDir(fs.root, Parent(app)) && (app <= p || p == Parent(app))
      modifies fs`root, fs`log
      ensures fs.Valid() && IsDir(fs.root, Parent(app)) && Elsewhere(old(fs.root), fs.root, app, patch, temp)
      ensures forall q ::
        FileAt(fs.root, q) == old(FileAt(fs.root, q)) && IsDir(fs.root, patch + q) == old(IsDir(fs.root, patch + q))
      ensures forall q :: old(IsDir(fs.root, q)) ==> IsDir(fs.root, q)
      ensures forall q | !(q <= p) :: Get(fs.root, q) == old(Get(fs.root, q))
      ensures !fs.faulty ==> ok == old(Clear(fs.root, p)) && IsDir(fs.root, p) == ok
    {
      hide Cut, Put, Get, MakeDirs, ClearWay;
      ghost var t := fs.root;
      ClearEitherWay(t, p);
      MakeDirsPoint(t, p, p);
      forall k: nat, q | k <= |p| && !(q <= p) ensures Get(MakeDirs(t, p[..k]), q) == Get(t, q) {
        MakeDirsOther(t, p[..k], q);
      }
      ok := fs.CreateDirectories(p);
      ghost var k :| 0 <= k <= |p| && fs.root == MakeDirs(old(fs.root), p[..k]);
      forall q
        ensures FileAt(fs.root, q) == old(FileAt(fs.root, q)) && (old(IsDir(fs.root, q)) ==> IsDir(fs.root, q))
        ensures !(app <= q) ==> IsDir(fs.root, q) == old(IsDir(fs.root, q))
      {
        MakeDirsPoint(old(fs.root), p[..k], q);
        if q <= p[..k] && !(app <= q) {
          assert q <= p && q <= Parent(app);
          if q != Parent(app) {
            PrefixIsDir(old(fs.root), q, Parent(app));
          }
        }
      }
      forall q ensures !(app <= patch + q) {
        Under(app, patch, q);
      }
    }

    lemma ClearEitherWay(t: Node, p: Path)
      ensures Clear(t, p) <==> ClearWay(t, p)
      ensures IsDir(t, p) ==> Clear(t, p)
    {
      if Clear(t, p) {
        ClearIsClearWay(t, p);
      }
      if ClearWay(t, p) {
        ClearWayIsClear(t, p);
      }
      if IsDir(t, p) {
        forall q | q <= p ensures FileAt(t, q) == None {
          if q != p {
            PrefixIsDir(t, q, p);
          }
        }
      }
    }

    method RemoveTarget(target: Path) returns (ok: bool)
      requires fs.Valid() && Apart() && app <= target && IsDir(fs.root, Parent(app))
      modifies fs`root, fs`log
      ensures fs.Valid() && IsDir(fs.root, Parent(app)) && Elsewhere(old(fs.root), fs.root, app, patch, temp)
      ensures forall q ::
        (q != target ==>
           FileAt(fs.root, q) == old(FileAt(fs.root, q)) && IsDir(fs.root, q) == old(IsDir(fs.root, q))) &&
        IsDir(fs.root, patch + q) == old(IsDir(fs.root, patch + q))
      ensures forall q | Independent(target, q) :: Get(fs.root, q) == old(Get(fs.root, q))
      ensures ok ==> !Exists(fs.root, target)
      ensures !fs.faulty ==> ok == old(CanRemove(fs.root, target))
    {
      hide Cut, Put, Get, MakeDirs;
      ghost var t := fs.root;
      ElsewhereRefl(t);
      ok := fs.Remove(target);
      if ok {
        forall q
          ensures !(target <= q) ==> FileAt(fs.root, q) == FileAt(t, q) && IsDir(fs.root, q) == IsDir(t, q)
          ensures q != target ==> FileAt(fs.root, q) == FileAt(t, q) && IsDir(fs.root, q) == IsDir(t, q)
        {
          CutPoint(t, target, q);
          NothingBelow(t, target, q);
        }
        forall q | Independent(target, q) ensures Get(fs.root, q) == Get(t, q) {
          GetCutOther(t, target, q);
        }
        GetCut(t, target);
        forall q ensures !(target <= patch + q) {
          Under(app, patch, q);
        }
        AboveTarget(target);
      }
    }

    lemma AboveTarget(target: Path)
      requires app != [] && app <= target
      ensures !(target <= Parent(app))
    {
    }

    lemma NothingBelow(t: Node, p: Path, q: Path)
      requires CanRemove(t, p)
      ensures p <= q && p != q ==> !Exists(t, q)
    {
      if p <= q && p != q {
        assert q == p + q[|p|..];
        GetAppend(t, p, q[|p|..]);
      }
    }

    method MoveIn(source: Path, target: Path, relative: Path) returns (ok: bool)
      requires fs.Valid() && Apart() && source == patch + relative && target == app + relative
      requires !IsDir(fs.root, source)
      requires IsDir(fs.root, Parent(app))
      modifies fs`root, fs`log
      ensures fs.Valid() && IsDir(fs.root, Parent(app)) && Elsewhere(old(fs.root), fs.root, app, patch, temp)
      ensures !fs.faulty && ok ==> old(FileAt(fs.root, source)).Some? && forall q ::
        IsDir(fs.root, q) == old(IsDir(fs.root, q)) &&
        FileAt(fs.root, q) ==
          if q == target then old(FileAt(fs.root, source)) else if q == source then None else old(FileAt(fs.root, q))
      ensures forall q | Independent(source, q) && Independent(target, q) :: Get(fs.root, q) == old(Get(fs.root, q))
      ensures !fs.faulty ==>
        ok == old(FileAt(fs.root, source).Some? && !Exists(fs.root, target) && IsDir(fs.root, Parent(target)))
    {
      hide Cut, Put, Get, MakeDirs;
      ghost var t := fs.root;
      Under(source, app, relative);
      Under(app, patch, relative);
      Under(patch, app, relative);
      ApartBelow(relative);
      ok := fs.MoveFile(source, target);
      forall q | !(source <= q) && !(target <= q)
        ensures FileAt(fs.root, q) == FileAt(t, q) && IsDir(fs.root, q) == IsDir(t, q)
      {
        CutPoint(t, source, q);
        CutPoint(fs.root, source, q);
        CutPoint(Cut(t, source), target, q);
        CutPoint(Cut(fs.root, source), target, q);
      }
      forall q | Independent(source, q) && Independent(target, q) ensures Get(fs.root, q) == Get(t, q) {
        SameOutside2Get(t, fs.root, source, target, q);
      }
      AboveTarget(target);
      assert patch <= source && !(source <= Parent(app));
      if ok && !fs.faulty {
        MovedFile(t, fs.root, source, target);
      }
    }

    lemma ApartBelow(relative: Path)
      requires Apart()
      ensures Independent(patch + relative, app + relative)
      ensures !(patch + relative <= Parent(app))
    {
      Under(app, patch, relative);
      Under(patch + relative, app, relative);
      NotAboveParent(patch + relative, app);
    }

    ghost predicate OneAdded(t0: Node, t: Node, relative: Path) {
      forall q ::
        IsDir(t, patch + q) == IsDir(t0, patch + q) &&
        if q == relative && !IsDir(t0, patch + q) then
          FileAt(t0, patch + q).Some? && FileAt(t, app + q) == FileAt(t0, patch + q) && FileAt(t, patch + q) == None
        else
          FileAt(t, app + q) == FileAt(t0, app + q) && FileAt(t, patch + q) == FileAt(t0, patch + q)
    }

    lemma AddedDirectory(t0: Node, t: Node, relative: Path)
      requires IsDir(t0, patch + relative)
      requires forall q :: FileAt(t, q) == FileAt(t0, q) && IsDir(t, patch + q) == IsDir(t0, patch + q)
      ensures OneAdded(t0, t, relative)
    {
    }

    lemma AddedStep(t0: Node, t1: Node, t2: Node, t3: Node, relative: Path)
      requires Apart() && !IsDir(t0, patch + relative)
      requires forall q ::
        (q != app + relative ==> FileAt(t1, q) == FileAt(t0, q)) && IsDir(t1, patch + q) == IsDir(t0, patch + q)
      requires forall q :: FileAt(t2, q) == FileAt(t1, q) && IsDir(t2, patch + q) == IsDir(t1, patch + q)
      requires FileAt(t2, patch + relative).Some?
      requires forall q ::
        IsDir(t3, q) == IsDir(t2, q) &&
        FileAt(t3, q) ==
          if q == app + relative then FileAt(t2, patch + relative)
          else if q == patch + relative then None
          else FileAt(t2, q)
      ensures OneAdded(t0, t3, relative)
    {
      hide Cut, Put, Get, IsDir, FileAt;
      forall q
        ensures IsDir(t3, patch + q) == IsDir(t0, patch + q)
        ensures FileAt(t3, app + q) == if q == relative then FileAt(t2, patch + relative) else FileAt(t0, app + q)
        ensures FileAt(t3, patch + q) == if q == relative then None else FileAt(t0, patch + q)
      {
        Difference(relative, q);
        var a, p := app + q, patch + q;
        assert FileAt(t3, a) == if q == relative then FileAt(t2, patch + relative) else FileAt(t2, a);
        assert FileAt(t3, p) == if q == relative then None else FileAt(t2, p);
        assert FileAt(t2, a) == FileAt(t1, a) && FileAt(t2, p) == FileAt(t1, p);
      }
      Difference(relative, relative);
    }

    lemma Difference(relative: Path, q: Path)
      requires Apart()
      ensures app + q == app + relative <==> q == relative
      ensures patch + q == patch + relative <==> q == relative
      ensures app + q != patch + relative && patch + q != app + relative
    {
      assert (app + q)[|app|..] == q && (app + relative)[|app|..] == relative;
      assert (patch + q)[|patch|..] == q && (patch + relative)[|patch|..] == relative;
      Under(app, patch, relative);
      Under(patch, app, relative);
      assert app <= app + q && patch <= patch + q;
    }

    /** A directory can be added if no file is in its way; a file, if it is in the patch, no file is above its place,
        and there is no directory there that still has entries. */
    ghost predicate CanAddNow(t: Node, relative: Path)
      requires app != []
    {
      if IsDir(t, patch + relative) then Clear(t, app + relative)
      else
        FileAt(t, patch + relative).Some? && Clear(t, Parent(app + relative)) && CanRemove(t, app + relative)
    }

    /** Adding one path leaves what is not above it as it was, and below it too if it is a directory. */
    ghost predicate Spared(t: Node, t': Node, relative: Path) {
      var dir := IsDir(t, patch + relative);
      (forall s | !(s <= relative) && (relative <= s ==> dir) :: Get(t', app + s) == Get(t, app + s)) &&
      (forall s | IsDir(t, app + s) && (s != relative || dir) :: IsDir(t', app + s)) &&
      (dir ==> IsDir(t', app + relative))
    }

    lemma SparedDirectory(t: Node, t': Node, relative: Path)
      requires app != [] && IsDir(t, patch + relative) && IsDir(t', app + relative)
      requires forall q :: IsDir(t, q) ==> IsDir(t', q)
      requires forall q | !(q <= app + relative) :: Get(t', q) == Get(t, q)
      ensures Spared(t, t', relative)
    {
      hide Get, IsDir;
      forall s | !(s <= relative) ensures !(app + s <= app + relative) {
        BelowApp(s, relative);
      }
    }

    lemma BelowApp(s: Path, r: Path)
      ensures app + s <= app + r <==> s <= r
      ensures app + s == app + r <==> s == r
    {
      assert (app + s)[|app|..] == s && (app + r)[|app|..] == r;
      if app + s <= app + r {
        assert (app + r)[..|app + s|] == app + s;
        assert r[..|s|] == (app + r)[|app|..|app + s|] == s;
      }
      if s <= r {
        assert r == s + r[|s|..];
        assert app + r == (app + s) + r[|s|..];
      }
    }

    lemma SparedFile(t: Node, t1: Node, t2: Node, t3: Node, relative: Path)
      requires Apart() && !IsDir(t, patch + relative)
      requires t1 == t || forall q | Independent(app + relative, q) :: Get(t1, q) == Get(t, q)
      requires t1 == t || forall q | q != app + relative :: IsDir(t1, q) == IsDir(t, q)
      requires forall q | !(q <= Parent(app + relative)) :: Get(t2, q) == Get(t1, q)
      requires forall q :: IsDir(t1, q) ==> IsDir(t2, q)
      requires forall q | Independent(patch + relative, q) && Independent(app + relative, q) :: Get(t3, q) == Get(t2, q)
      requires forall q :: IsDir(t3, q) == IsDir(t2, q)
      ensures Spared(t, t3, relative)
    {
      hide Get, IsDir;
      forall s | !(s <= relative) && !(relative <= s) ensures Get(t3, app + s) == Get(t, app + s) {
        BelowApp(s, relative);
        BelowApp(relative, s);
        Under(patch, app, s);
        Under(app, patch, relative);
        Under(app + s, patch, relative);
        assert Parent(app + relative) <= app + relative;
      }
      forall s | IsDir(t, app + s) && s != relative ensures IsDir(t3, app + s) {
        BelowApp(s, relative);
      }
    }

    /** What makes room for a file and what moves it there, together. */
    lemma RoomForFile(t: Node, t1: Node, relative: Path)
      requires app != []
      requires t1 == t || forall q | q != app + relative :: FileAt(t1, q) == FileAt(t, q)
      ensures Clear(t1, Parent(app + relative)) == Clear(t, Parent(app + relative))
    {
      var target := app + relative;
      assert !(target <= Parent(target));
      forall q | q <= Parent(target) ensures FileAt(t1, q) == FileAt(t, q) {
      }
    }

    /** One round of ApplyAddedFiles. */
    method AddOne(relative: Path) returns (ok: bool)
      requires fs.Valid() && Apart() && IsDir(fs.root, Parent(app))
      modifies fs`root, fs`log
      ensures fs.Valid() && IsDir(fs.root, Parent(app)) && Elsewhere(old(fs.root), fs.root, app, patch, temp)
      ensures !fs.faulty && ok ==> OneAdded(old(fs.root), fs.root, relative)
      ensures !fs.faulty && ok ==> Spared(old(fs.root), fs.root, relative)
      ensures !fs.faulty ==> ok == old(CanAddNow(fs.root, relative))
    {
      hide Cut, Put, Get, MakeDirs, Elsewhere, IsDir, FileAt, OneAdded, Clear, Spared, CanRemove;
      var source, target := patch + relative, app + relative;
      ElsewhereRefl(fs.root);
      if IsDir(fs.root, source) {
        ok := MakeBelowApp(target);
        AddedDirectory(old(fs.root), fs.root, relative);
        if !fs.faulty && ok {
          SparedDirectory(old(fs.root), fs.root, relative);
        }
        return;
      }
      ghost var t0 := fs.root;
      if Exists(fs.root, target) {
        ok := RemoveTarget(target);
        if !ok {
          return;
        }
      }
      ghost var cleared := fs.root;
      MissingCanGo(t0, target);
      RoomForFile(t0, cleared, relative);
      var _ := MakeBelowApp(Parent(target));
      ElsewhereTrans(old(fs.root), cleared, fs.root, app, patch, temp);
      ghost var made := fs.root;
      ok := MoveIn(source, target, relative);
      ElsewhereTrans(old(fs.root), made, fs.root, app, patch, temp);
      if ok && !fs.faulty {
        AddedStep(old(fs.root), cleared, made, fs.root, relative);
        SparedFile(old(fs.root), cleared, made, fs.root, relative);
      }
    }

    lemma MissingCanGo(t: Node, p: Path)
      requires app != [] && app <= p
      ensures !Exists(t, p) ==> CanRemove(t, p)
      ensures !(p <= Parent(p))
    {
    }

    ghost predicate AllAdded(t0: Node, t: Node, added: seq<Path>, n: nat)
      requires n <= |added|
    {
      forall q :: AddedAt(t0, t, added, n, q)
    }

    /** The first n paths can be added one after the other: each could be alone, and no added file is above
        another added path, nor given twice. */
    ghost predicate CanAddAll(t: Node, added: seq<Path>, n: nat)
      requires app != [] && n <= |added|
    {
      (forall i | 0 <= i < n :: CanAddNow(t, added[i])) &&
      forall i, j | 0 <= i < n && 0 <= j < n && i != j && !IsDir(t, patch + added[i]) :: !(added[i] <= added[j])
    }

    /** What the first n added paths left as it was, and the directories they made. */
    ghost predicate KeptSoFar(t0: Node, t: Node, added: seq<Path>, n: nat)
      requires n <= |added|
    {
      (forall s | Spares(t0, added, n, s) :: Get(t, app + s) == Get(t0, app + s)) &&
      (forall j | 0 <= j < n && IsDir(t0, patch + added[j]) :: IsDir(t, app + added[j]))
    }

    ghost predicate Spares(t0: Node, added: seq<Path>, n: nat, s: Path)
      requires n <= |added|
    {
      forall j | 0 <= j < n :: !(s <= added[j]) && (added[j] <= s ==> IsDir(t0, patch + added[j]))
    }

    /** Fault-free, exactly the lists that can be added are. */
    method ApplyAddedFiles(info: DeltaInfo) returns (ok: bool)
      requires fs.Valid() && Apart() && IsDir(fs.root, Parent(app))
      modifies fs`root, fs`log
      ensures fs.Valid() && Elsewhere(old(fs.root), fs.root, app, patch, temp)
      ensures !fs.faulty && ok ==> AllAdded(old(fs.root), fs.root, info.added, |info.added|)
      ensures !fs.faulty ==> ok == CanAddAll(old(fs.root), info.added, |info.added|)
    {
      hide Cut, Put, Get, Elsewhere, OneAdded, AllAdded, CanAddAll, CanAddNow, KeptSoFar, Spared;
      ElsewhereRefl(fs.root);
      NothingAdded(fs.root, info.added);
      ghost var t0, n := fs.root, |info.added|;
      for i := 0 to |info.added|
        invariant fs.Valid() && IsDir(fs.root, Parent(app)) && Elsewhere(t0, fs.root, app, patch, temp)
        invariant !fs.faulty ==> AllAdded(t0, fs.root, info.added, i) && KeptSoFar(t0, fs.root, info.added, i)
        invariant !fs.faulty ==> CanAddAll(t0, info.added, i)
      {
        ghost var before := fs.root;
        if !fs.faulty {
          StillAddable(t0, before, info.added, i);
        }
        ok := AddOne(info.added[i]);
        ElsewhereTrans(t0, before, fs.root, app, patch, temp);
        if !ok {
          FewerCan(t0, info.added, i + 1);
          return;
        }
        if !fs.faulty {
          OneMoreAdded(t0, before, fs.root, info.added, i);
          OneMoreKept(t0, before, fs.root, info.added, i);
        }
      }
      return true;
    }

    lemma FewerCan(t: Node, added: seq<Path>, n: nat)
      requires app != [] && n <= |added|
      ensures CanAddAll(t, added, |added|) ==> CanAddAll(t, added, n)
    {
    }

    /** Files in the way of a path: those there were, and those that were added. */
    lemma ClearNow(t0: Node, t: Node, added: seq<Path>, i: nat, r: Path)
      requires Apart() && i <= |added| && AllAdded(t0, t, added, i) && Elsewhere(t0, t, app, patch, temp)
      ensures Clear(t, app + r) <==>
        Clear(t0, app + r) && forall j | 0 <= j < i && !IsDir(t0, patch + added[j]) :: !(added[j] <= r)
    {
      hide Get, IsDir;
      forall q | q <= app + r && !(app <= q) ensures FileAt(t, q) == FileAt(t0, q) {
        NotInPatch(q, r);
      }
      forall g ensures FileAt(t, app + g) == None <==>
        (FileAt(t0, app + g) == None && !AddedFile(t0, patch, added[..i], g))
      {
        assert AddedAt(t0, t, added, i, g);
      }
      forall j | 0 <= j < i ensures AddedFile(t0, patch, added[..i], added[j]) == !IsDir(t0, patch + added[j]) {
        assert added[..i][j] == added[j];
      }
      if Clear(t, app + r) {
        forall q | q <= app + r ensures FileAt(t0, q) == None {
          assert FileAt(t, q) == None;
          if app <= q {
            assert q == app + q[|app|..];
          }
        }
        forall j | 0 <= j < i && !IsDir(t0, patch + added[j]) ensures !(added[j] <= r) {
          BelowApp(added[j], r);
          assert FileAt(t, app + added[j]) != None;
        }
      }
      if Clear(t0, app + r) && forall j | 0 <= j < i && !IsDir(t0, patch + added[j]) :: !(added[j] <= r) {
        forall q | q <= app + r ensures FileAt(t, q) == None {
          assert FileAt(t0, q) == None;
          if app <= q {
            var g := q[|app|..];
            assert q == app + g;
            BelowApp(g, r);
            assert !AddedFile(t0, patch, added[..i], g);
          }
        }
      }
    }

    lemma NotInPatch(q: Path, r: Path)
      requires Apart() && q <= app + r
      ensures !(patch <= q) && !(temp <= q)
    {
      Under(patch, app, r);
      Under(temp, app, r);
    }

    /** Whether the next path can be added now shows at the beginning. */
    lemma StillAddable(t0: Node, t: Node, added: seq<Path>, i: nat)
      requires Apart() && i < |added| && IsDir(t0, Parent(app)) && IsDir(t, Parent(app))
      requires AllAdded(t0, t, added, i) && Elsewhere(t0, t, app, patch, temp)
      requires KeptSoFar(t0, t, added, i) && CanAddAll(t0, added, i)
      ensures CanAddNow(t, added[i]) <==> CanAddAll(t0, added, i + 1)
    {
      hide Get, IsDir, Clear, AllAdded, KeptSoFar, CanRemove, Elsewhere;
      var r := added[i];
      PatchNow(t0, t, added, i, r);
      if IsDir(t0, patch + r) {
        ClearNow(t0, t, added, i, r);
      } else {
        FileAddable(t0, t, added, i);
      }
    }

    /** The patch has what has not been moved out of it. */
    lemma PatchNow(t0: Node, t: Node, added: seq<Path>, i: nat, r: Path)
      requires i <= |added| && AllAdded(t0, t, added, i)
      ensures IsDir(t, patch + r) == IsDir(t0, patch + r)
      ensures !IsDir(t0, patch + r) ==>
        (FileAt(t, patch + r).Some? <==>
         FileAt(t0, patch + r).Some? && forall j | 0 <= j < i :: added[j] != r)
    {
      hide Get, IsDir;
      assert AddedAt(t0, t, added, i, r);
      if r in added[..i] {
        var j :| 0 <= j < i && added[j] == r;
      }
      forall j | 0 <= j < i && added[j] == r ensures r in added[..i] {
        assert added[..i][j] == r;
      }
    }

    lemma FileAddable(t0: Node, t: Node, added: seq<Path>, i: nat)
      requires Apart() && i < |added| && IsDir(t0, Parent(app)) && IsDir(t, Parent(app))
      requires AllAdded(t0, t, added, i) && Elsewhere(t0, t, app, patch, temp) && KeptSoFar(t0, t, added, i)
      requires !IsDir(t0, patch + added[i])
      ensures
        FileAt(t, patch + added[i]).Some? && Clear(t, Parent(app + added[i])) && CanRemove(t, app + added[i]) <==>
        FileAt(t0, patch + added[i]).Some? && Clear(t0, Parent(app + added[i])) && CanRemove(t0, app + added[i]) &&
        (forall j | 0 <= j < i && !IsDir(t0, patch + added[j]) :: !(added[j] <= added[i])) &&
        forall j | 0 <= j < i :: !(added[i] <= added[j])
    {
      hide Get, IsDir, Clear, AllAdded, Elsewhere;
      var r := added[i];
      PatchNow(t0, t, added, i, r);
      if FileAt(t0, patch + r).Some? && forall j | 0 <= j < i :: added[j] != r {
        ParentClear(t0, t, added, i);
        if forall j | 0 <= j < i && !IsDir(t0, patch + added[j]) :: !(added[j] <= r) {
          if forall j | 0 <= j < i :: !(r <= added[j]) {
            assert Spares(t0, added, i, r);
            SameCanRemove(t0, t, app + r);
          } else {
            var j :| 0 <= j < i && r <= added[j];
            Filled(t0, t, added, i, j);
          }
        }
      }
    }

    lemma SameCanRemove(t0: Node, t: Node, p: Path)
      requires Get(t, p) == Get(t0, p)
      ensures CanRemove(t, p) == CanRemove(t0, p)
    {
    }

    lemma ParentClear(t0: Node, t: Node, added: seq<Path>, i: nat)
      requires Apart() && i < |added| && IsDir(t0, Parent(app)) && IsDir(t, Parent(app))
      requires AllAdded(t0, t, added, i) && Elsewhere(t0, t, app, patch, temp)
      requires forall j | 0 <= j < i :: added[j] != added[i]
      ensures Clear(t, Parent(app + added[i])) <==>
        Clear(t0, Parent(app + added[i])) &&
        forall j | 0 <= j < i && !IsDir(t0, patch + added[j]) :: !(added[j] <= added[i])
    {
      hide Get, IsDir, Clear, AllAdded, Elsewhere;
      var r := added[i];
      if r == [] {
        assert app + r == app;
        ClearEitherWay(t0, Parent(app));
        ClearEitherWay(t, Parent(app));
      } else {
        assert Parent(app + r) == app + Parent(r);
        ClearNow(t0, t, added, i, Parent(r));
        forall j | 0 <= j < i ensures added[j] <= r <==> added[j] <= Parent(r) {
          if added[j] <= r {
            assert |added[j]| < |r|;
          }
        }
      }
    }

    /** A path that was added keeps those above it from being removed. */
    lemma Filled(t0: Node, t: Node, added: seq<Path>, i: nat, j: nat)
      requires j < i < |added| && added[i] <= added[j] && added[i] != added[j] && app != []
      requires AllAdded(t0, t, added, i) && KeptSoFar(t0, t, added, i)
      ensures !CanRemove(t, app + added[i])
    {
      hide Get;
      BelowApp(added[i], added[j]);
      assert AddedAt(t0, t, added, i, added[j]);
      assert added[..i][j] == added[j];
      assert Exists(t, app + added[j]);
      if CanRemove(t, app + added[i]) {
        NothingBelow(t, app + added[i], app + added[j]);
        assert false;
      }
    }

    lemma OneMoreKept(t0: Node, t: Node, t': Node, added: seq<Path>, i: nat)
      requires app != [] && i < |added| && AllAdded(t0, t, added, i) && KeptSoFar(t0, t, added, i)
      requires Spared(t, t', added[i]) && CanAddAll(t0, added, i + 1)
      ensures KeptSoFar(t0, t', added, i + 1)
    {
      hide Get, IsDir, CanAddNow;
      assert AddedAt(t0, t, added, i, added[i]);
      forall s | Spares(t0, added, i + 1, s) ensures Get(t', app + s) == Get(t0, app + s) {
        assert Spares(t0, added, i, s);
      }
    }

    lemma NothingAdded(t: Node, added: seq<Path>)
      requires app != []
      ensures AllAdded(t, t, added, 0) && KeptSoFar(t, t, added, 0) && CanAddAll(t, added, 0)
    {
    }

    lemma OneMoreAdded(t0: Node, t: Node, t': Node, added: seq<Path>, i: nat)
      requires i < |added| && AllAdded(t0, t, added, i) && OneAdded(t, t', added[i])
      ensures AllAdded(t0, t', added, i + 1)
    {
      hide IsDir, FileAt, Get;
      var n := i + 1;
      assert added[..n] == added[..i] + [added[i]];
      forall q ensures AddedAt(t0, t', added, n, q) {
        assert AddedAt(t0, t, added, i, q);
      }
    }

    /** An added path, once the removed ones are gone: no file is above its place, and no directory that still has
        entries is where a file goes. */
    ghost predicate CanAddAfter(t: Node, removed: seq<Path>, r: Path) {
      if IsDir(t, patch + r) then forall g | g <= r :: GoneOr(t, removed, g)
      else
        FileAt(t, patch + r).Some? && (forall g | g <= r && g != r :: GoneOr(t, removed, g)) &&
        forall n :: !Exists(t, app + (r + [n])) || Removed(removed, r + [n])
    }

    predicate GoneOr(t: Node, removed: seq<Path>, g: Path) {
      FileAt(t, app + g) == None || Removed(removed, g)
    }

    /** No added file is above another added path, nor given twice. */
    ghost predicate Unnested(t: Node, added: seq<Path>) {
      forall i, j | 0 <= i < |added| && 0 <= j < |added| && i != j && !IsDir(t, patch + added[i]) ::
        !(added[i] <= added[j])
    }

    /** Exactly these patches can be applied to t. */
    ghost predicate CanPatch(t: Node, info: DeltaInfo) {
      (forall r | r in info.modified :: !Removed(info.removed, r) && CanModify(t, r)) &&
      (forall r | r in info.added :: CanAddAfter(t, info.removed, r)) && Unnested(t, info.added)
    }

    /** A patch that is applied makes the file that the lists say of every path, and touches nothing else.  Without
        faults it is applied if and only if every modified file is there with a patch that decodes, every added one
        is in the patch, and nothing is in the way of the added ones. */
    method ApplyPatch(info: DeltaInfo) returns (ok: bool)
      requires fs.Valid() && Apart() && IsDir(fs.root, Parent(app)) && !Exists(fs.root, temp)
      modifies fs`root, fs`log
      ensures fs.Valid() && Elsewhere(old(fs.root), fs.root, app, patch, temp)
      ensures !fs.faulty && ok && Distinct(info.modified) ==>
        forall q :: FileAt(fs.root, app + q) == Patched(old(fs.root), info, q)
      ensures !fs.faulty && Distinct(info.modified) && old(IsDir(fs.root, Parent(temp))) ==>
        ok == CanPatch(old(fs.root), info)
    {
      hide Cut, Put, Get, Distinct, AllModified, AllAdded, Elsewhere, CanModify, CanAddAll, Unnested, CanAddAfter;
      ghost var t0 := fs.root;
      ok := ApplyDeletedFiles(info);
      ghost var t1 := fs.root;
      StillThere(t0, t1);
      if !fs.faulty {
        ModifiableAfter(t0, t1, info);
      }
      ok := ApplyModifiedFiles(info);
      ghost var t2 := fs.root;
      ElsewhereTrans(t0, t1, t2, app, patch, temp);
      if !ok {
        return;
      }
      StillThere(t1, t2);
      ghost var certain := !fs.faulty && Distinct(info.modified) && IsDir(t0, Parent(temp));
      if certain {
        AddableAfter(t0, t1, t2, info);
      }
      ok := ApplyAddedFiles(info);
      ElsewhereTrans(t0, t2, fs.root, app, patch, temp);
      if !fs.faulty && ok && Distinct(info.modified) {
        AllPatched(t0, t1, t2, fs.root, info);
      }
    }

    /** t1 is t0 without the removed paths. */
    ghost predicate Pruned(t0: Node, t1: Node, removed: seq<Path>) {
      forall x ::
        FileAt(t1, x) == (if Below(app, removed, x) then None else FileAt(t0, x)) &&
        IsDir(t1, x) == (!Below(app, removed, x) && IsDir(t0, x))
    }

    lemma ModifiableAfter(t0: Node, t1: Node, info: DeltaInfo)
      requires Apart() && Pruned(t0, t1, info.removed)
      ensures forall r :: CanModify(t1, r) == (!Removed(info.removed, r) && CanModify(t0, r))
    {
      hide Get;
      forall r ensures CanModify(t1, r) == (!Removed(info.removed, r) && CanModify(t0, r)) {
        BelowRelative(app, info.removed, r);
        PatchIsKept(info.removed, r);
        assert FileAt(t1, patch + r) == FileAt(t0, patch + r);
        assert FileAt(t1, app + r) == if Removed(info.removed, r) then None else FileAt(t0, app + r);
      }
    }

    /** What there is in the working copy after removing and modifying. */
    lemma ThereAfter(t0: Node, t1: Node, t2: Node, info: DeltaInfo, g: Path)
      requires Apart() && Pruned(t0, t1, info.removed) && AllModified(t1, t2, info.modified, |info.modified|)
      requires forall r | r in info.modified :: CanModify(t1, r)
      ensures FileAt(t2, app + g) == None <==> GoneOr(t0, info.removed, g)
      ensures IsDir(t2, app + g) == (!Removed(info.removed, g) && IsDir(t0, app + g))
      ensures Exists(t2, app + g) == (!Removed(info.removed, g) && Exists(t0, app + g))
      ensures FileAt(t2, patch + g) == FileAt(t0, patch + g) && IsDir(t2, patch + g) == IsDir(t0, patch + g)
    {
      hide Get;
      assert info.modified[..|info.modified|] == info.modified;
      assert ModifiedAt(t1, t2, info.modified, |info.modified|, app + g);
      assert ModifiedAt(t1, t2, info.modified, |info.modified|, patch + g);
      assert (app + g)[|app|..] == g && app <= app + g;
      Under(app, patch, g);
      BelowRelative(app, info.removed, g);
      PatchIsKept(info.removed, g);
      assert forall t: Node, p: Path :: Exists(t, p) <==> FileAt(t, p).Some? || IsDir(t, p);
    }

    lemma AddableAfter(t0: Node, t1: Node, t2: Node, info: DeltaInfo)
      requires Apart() && Pruned(t0, t1, info.removed) && AllModified(t1, t2, info.modified, |info.modified|)
      requires forall r | r in info.modified :: CanModify(t1, r)
      requires IsDir(t0, Parent(app)) && IsDir(t2, Parent(app))
      ensures CanAddAll(t2, info.added, |info.added|) <==>
        (forall r | r in info.added :: CanAddAfter(t0, info.removed, r)) && Unnested(t0, info.added)
    {
      hide Get, Pruned, AllModified, CanModify, CanAddNow, CanAddAfter;
      var added := info.added;
      forall r
        ensures CanAddNow(t2, r) == CanAddAfter(t0, info.removed, r) && IsDir(t2, patch + r) == IsDir(t0, patch + r)
      {
        ThereAfter(t0, t1, t2, info, r);
        OneAddableAfter(t0, t1, t2, info, r);
      }
      forall r | r in added ensures exists i :: 0 <= i < |added| && added[i] == r {
      }
    }

    lemma OneAddableAfter(t0: Node, t1: Node, t2: Node, info: DeltaInfo, r: Path)
      requires Apart() && Pruned(t0, t1, info.removed) && AllModified(t1, t2, info.modified, |info.modified|)
      requires forall r | r in info.modified :: CanModify(t1, r)
      requires IsDir(t0, Parent(app)) && IsDir(t2, Parent(app))
      ensures CanAddNow(t2, r) == CanAddAfter(t0, info.removed, r)
    {
      hide Get, Pruned, AllModified, CanModify, CanRemove, Clear;
      ThereAfter(t0, t1, t2, info, r);
      ClearAfter(t0, t1, t2, info, r);
      if r == [] {
        assert app + r == app;
        ClearEitherWay(t2, Parent(app));
        forall g | g <= r && g != r ensures GoneOr(t0, info.removed, g) {
        }
      } else {
        assert Parent(app + r) == app + Parent(r);
        ClearAfter(t0, t1, t2, info, Parent(r));
        forall g
          ensures (g <= Parent(r) ==> GoneOr(t0, info.removed, g)) <==>
            (g <= r && g != r ==> GoneOr(t0, info.removed, g))
        {
          if g <= r && g != r {
            assert |g| < |r|;
          }
        }
      }
      VacantIff(t2, app + r);
      forall n ensures Exists(t2, (app + r) + [n]) <==>
        Exists(t0, app + (r + [n])) && !Removed(info.removed, r + [n])
      {
        assert (app + r) + [n] == app + (r + [n]);
        ThereAfter(t0, t1, t2, info, r + [n]);
      }
    }

    lemma ClearAfter(t0: Node, t1: Node, t2: Node, info: DeltaInfo, r: Path)
      requires Apart() && Pruned(t0, t1, info.removed) && AllModified(t1, t2, info.modified, |info.modified|)
      requires forall r | r in info.modified :: CanModify(t1, r)
      requires IsDir(t2, Parent(app))
      ensures Clear(t2, app + r) <==> forall g | g <= r :: GoneOr(t0, info.removed, g)
    {
      hide Get, Pruned, AllModified, CanModify, IsDir;
      ClearEitherWay(t2, Parent(app));
      forall q | q <= app + r && !(app <= q) ensures FileAt(t2, q) == None {
        assert q <= Parent(app);
      }
      if Clear(t2, app + r) {
        forall g | g <= r ensures GoneOr(t0, info.removed, g) {
          BelowApp(g, r);
          ThereAfter(t0, t1, t2, info, g);
          assert FileAt(t2, app + g) == None;
        }
      }
      if forall g | g <= r :: GoneOr(t0, info.removed, g) {
        forall q | q <= app + r ensures FileAt(t2, q) == None {
          if app <= q {
            var g := q[|app|..];
            assert q == app + g;
            BelowApp(g, r);
            ThereAfter(t0, t1, t2, info, g);
          }
        }
      }
    }

    lemma StillThere(a: Node, b: Node)
      requires Apart() && Elsewhere(a, b, app, patch, temp)
      ensures IsDir(a, Parent(app)) == IsDir(b, Parent(app)) && IsDir(a, Parent(temp)) == IsDir(b, Parent(temp))
    {
      NotAboveParent(patch, app);
      NotAboveParent(temp, app);
      NotAboveParent(app, temp);
      NotAboveParent(patch, temp);
    }

    lemma AllPatched(t0: Node, t1: Node, t2: Node, t3: Node, info: DeltaInfo)
      requires Apart() && !Exists(t0, temp)
      requires forall x ::
        FileAt(t1, x) == (if Below(app, info.removed, x) then None else FileAt(t0, x)) &&
        IsDir(t1, x) == (!Below(app, info.removed, x) && IsDir(t0, x))
      requires AllModified(t1, t2, info.modified, |info.modified|)
      requires AllAdded(t2, t3, info.added, |info.added|)
      ensures forall q :: FileAt(t3, app + q) == Patched(t0, info, q)
    {
      hide Get;
      assert info.modified[..|info.modified|] == info.modified && info.added[..|info.added|] == info.added;
      forall q ensures FileAt(t3, app + q) == Patched(t0, info, q) {
        assert AddedAt(t2, t3, info.added, |info.added|, q);
        assert ModifiedAt(t1, t2, info.modified, |info.modified|, app + q);
        assert ModifiedAt(t1, t2, info.modified, |info.modified|, patch + q);
        assert (app + q)[|app|..] == q && app <= app + q;
        BelowRelative(app, info.removed, q);
        PatchIsKept(info.removed, q);
        Under(app, patch, q);
      }
    }

    lemma PatchIsKept(removed: seq<Path>, q: Path)
      requires Apart()
      ensures !Below(app, removed, patch + q)
    {
      forall r | r in removed ensures !(app + r <= patch + q) {
        Under(app, patch, q);
        assert app <= app + r;
      }
    }

    /** The lists are the differences between the old tree and the new one, and the patch directory holds what
        they need. */
    ghost predicate IsDelta(t: Node, old': Node, new': Node, info: DeltaInfo, encode: (string, string) -> string) {
      Get(t, app) == Some(old') &&
      (forall q :: q in info.added <==> FileAt(new', q).Some? && FileAt(old', q) == None) &&
      (forall q :: q in info.modified <==>
         FileAt(new', q).Some? && FileAt(old', q).Some? && FileAt(new', q) != FileAt(old', q)) &&
      (forall q :: q in info.removed <==> FileAt(new', q) == None && FileAt(old', q).Some?) &&
      (forall q | q in info.added :: FileAt(t, patch + q) == FileAt(new', q)) &&
      (forall q | q in info.modified ::
         FileAt(t, patch + q) == Some(encode(FileAt(old', q).value, FileAt(new', q).value)))
    }

    /** Patching with the differences gives the new version, if decoding undoes encoding. */
    lemma PatchOfDelta(t: Node, old': Node, new': Node, info: DeltaInfo, encode: (string, string) -> string)
      requires IsDelta(t, old', new', info, encode)
      requires forall a, b :: decode(a, encode(a, b)) == Some(b)
      ensures forall q :: Patched(t, info, q) == FileAt(new', q)
    {
      forall q ensures Patched(t, info, q) == FileAt(new', q) {
        GetAppend(t, app, q);
        assert FileAt(t, app + q) == FileAt(old', q);
        if q !in info.added && q !in info.modified {
          if Removed(info.removed, q) {
            var r :| r in info.removed && r <= q;
            if r != q {
              NothingBelowFile(old', r, q);
            }
          }
        }
      }
    }

    /** The differences can be applied if and only if no added file takes the place of a directory that has a
        subdirectory: of such a directory the removals leave the empty subdirectories. */
    lemma CanPatchDelta(t: Node, old': Node, new': Node, info: DeltaInfo, encode: (string, string) -> string)
      requires IsDelta(t, old', new', info, encode) && Distinct(info.added)
      requires forall a, b :: decode(a, encode(a, b)) == Some(b)
      ensures CanPatch(t, info) <==> forall r, n | r in info.added :: !IsDir(old', r + [n])
    {
      hide CanModify, CanAddAfter;
      forall r | r in info.modified ensures !Removed(info.removed, r) && CanModify(t, r) {
        ModifiedOfDelta(t, old', new', info, encode, r);
      }
      forall r | r in info.added
        ensures CanAddAfter(t, info.removed, r) <==> forall n :: !IsDir(old', r + [n])
      {
        AddedOfDelta(t, old', new', info, encode, r);
      }
      forall i, j | 0 <= i < |info.added| && 0 <= j < |info.added| && i != j
        ensures !(info.added[i] <= info.added[j])
      {
        assert info.added[i] in info.added && info.added[j] in info.added;
        assert info.added[i] != info.added[j];
        if info.added[i] <= info.added[j] {
          PrefixIsDir(new', info.added[i], info.added[j]);
        }
      }
    }

    lemma ModifiedOfDelta(t: Node, old': Node, new': Node, info: DeltaInfo, encode: (string, string) -> string, r: Path)
      requires IsDelta(t, old', new', info, encode) && r in info.modified
      requires forall a, b :: decode(a, encode(a, b)) == Some(b)
      ensures !Removed(info.removed, r) && CanModify(t, r)
    {
      GetAppend(t, app, r);
      if Removed(info.removed, r) {
        var d :| d in info.removed && d <= r;
        if d != r {
          NothingBelowFile(old', d, r);
        }
      }
    }

    /** Nothing but a file that is removed is gone with the removed paths. */
    lemma RemovedOfDelta(t: Node, old': Node, new': Node, info: DeltaInfo, encode: (string, string) -> string, g: Path)
      requires IsDelta(t, old', new', info, encode) && Exists(old', g)
      ensures Removed(info.removed, g) <==> g in info.removed
    {
      if Removed(info.removed, g) {
        var d :| d in info.removed && d <= g;
        if d != g {
          NothingBelowFile(old', d, g);
        }
      }
    }

    lemma AddedOfDelta(t: Node, old': Node, new': Node, info: DeltaInfo, encode: (string, string) -> string, r: Path)
      requires IsDelta(t, old', new', info, encode) && r in info.added
      ensures CanAddAfter(t, info.removed, r) <==> forall n :: !IsDir(old', r + [n])
    {
      hide Get;
      forall g ensures Get(t, app + g) == Get(old', g) {
        GetAppend(t, app, g);
      }
      forall g | g <= r && g != r ensures GoneOr(t, info.removed, g) {
        PrefixIsDir(new', g, r);
        FileOrDir(new', g);
        FileOrDir(old', g);
        if FileAt(old', g).Some? {
          RemovedOfDelta(t, old', new', info, encode, g);
        }
      }
      forall n ensures (!Exists(t, app + (r + [n])) || Removed(info.removed, r + [n])) <==> !IsDir(old', r + [n]) {
        var g := r + [n];
        NothingBelowFile(new', r, g);
        FileOrDir(new', g);
        FileOrDir(old', g);
        if Exists(old', g) {
          RemovedOfDelta(t, old', new', info, encode, g);
        }
      }
    }

    lemma FileOrDir(t: Node, p: Path)
      ensures Exists(t, p) <==> FileAt(t, p).Some? || IsDir(t, p)
      ensures FileAt(t, p).Some? ==> !IsDir(t, p)
    {
    }

    /** Fault-free patching with the differences gives the new version if and only if that is so. */
    method ApplyDelta(info: DeltaInfo, ghost old': Node, ghost new': Node, ghost encode: (string, string) -> string)
      returns (ok: bool)
      requires fs.Valid() && !fs.faulty && Apart() && !Exists(fs.root, temp)
      requires IsDir(fs.root, Parent(app)) && IsDir(fs.root, Parent(temp))
      requires IsDelta(fs.root, old', new', info, encode) && Distinct(info.added) && Distinct(info.modified)
      requires forall a, b :: decode(a, encode(a, b)) == Some(b)
      modifies fs`root, fs`log
      ensures ok <==> forall r, n | r in info.added :: !IsDir(old', r + [n])
      ensures ok ==> forall q :: FileAt(fs.root, app + q) == FileAt(new', q)
    {
      hide Get, Patched, CanPatch, Distinct;
      CanPatchDelta(fs.root, old', new', info, encode);
      PatchOfDelta(fs.root, old', new', info, encode);
      ok := ApplyPatch(info);
    }

    /** Copies a package without its external memory mount point. */
    method CopySkipMount(from: Path, to: Path) returns (ok: bool)
      requires fs.Valid() && Independent(from, to) && IsDir(fs.root, from) && !Exists(fs.root, to)
      modifies fs`root, fs`log
      ensures fs.Valid() && SameOutside(old(fs.root), fs.root, to)
      ensures ok ==> Get(fs.root, to) == Some(Dir(old(Get(fs.root, from).value.kids) - {".mmc"}))
      ensures !fs.faulty ==> ok == old(IsDir(fs.root, Parent(to)))
    {
      hide Cut, Put;
      ok := fs.MakeDirectory(to);
      if !ok {
        return;
      }
      GetPut(old(fs.root), to, EmptyDir);
      CutPut(old(fs.root), to, EmptyDir);
      SameOutsideGet(old(fs.root), fs.root, to, from);
      ghost var s := Get(fs.root, from).value;
      var names := Get(fs.root, from).value.kids.Keys;
      ghost var todo := names;
      while names != {}
        invariant fs.Valid() && names <= todo <= s.kids.Keys
        invariant todo - names <= {EXTERNAL_MEMORY_MOUNT_POINT} && EXTERNAL_MEMORY_MOUNT_POINT !in s.kids.Keys - todo
        invariant SameOutside(old(fs.root), fs.root, to) && IsDir(fs.root, to) && Get(fs.root, from) == Some(s)
        invariant s.Dir?
        invariant Copied(s.kids, map[], Get(fs.root, to).value.kids, todo)
        decreases |names|
      {
        var name :| name in names;
        names := names - {name};
        if name != EXTERNAL_MEMORY_MOUNT_POINT {
          ok := fs.CopyEntry(from, to, name, false, old(fs.root), s, map[], todo);
          if !ok {
            return;
          }
          todo := todo - {name};
        }
      }
      ok := true;
      SkippedMount(s.kids, Get(fs.root, to).value.kids, todo);
    }

    lemma SkippedMount(s: map<Name, Node>, now: map<Name, Node>, todo: set<Name>)
      requires Copied(s, map[], now, todo) && todo <= {EXTERNAL_MEMORY_MOUNT_POINT}
      requires EXTERNAL_MEMORY_MOUNT_POINT in s ==> EXTERNAL_MEMORY_MOUNT_POINT in todo
      ensures now == s - {EXTERNAL_MEMORY_MOUNT_POINT}
    {
    }

    /** One removal of a file of the working copy. */
    lemma FileRemoved(t: Node, p: Path)
      requires p != [] && !IsDir(t, app + p) && app != []
      ensures SameOutside(t, Cut(t, app + p), app)
      ensures forall q :: FileAt(Cut(t, app + p), app + q) == if q == p then None else FileAt(t, app + q)
    {
      CutBelow(t, app, p);
      CutIsOnlyFile(t, app + p);
      forall q ensures app + q == app + p <==> q == p {
        assert (app + q)[|app|..] == q && (app + p)[|app|..] == p;
      }
    }

    /** bin/n is a symbolic link. */
    predicate IsBinaryLink(t: Node, at: Path, q: Path) {
      |q| == 2 && q[0] == "bin" && FileAt(t, at + q).Some? && isLink(FileAt(t, at + q).value)
    }

    /** Links in bin/ go; false where the original throws, for want of that directory. */
    method RemoveBinarySymlinks() returns (ok: bool)
      requires fs.Valid() && app != []
      modifies fs`root, fs`log
      ensures fs.Valid() && SameOutside(old(fs.root), fs.root, app)
      ensures ok == old(IsDir(fs.root, app + [BINARY_DIR]))
      ensures ok && !fs.faulty ==> forall q ::
        FileAt(fs.root, app + q) == if IsBinaryLink(old(fs.root), app, q) then None else old(FileAt(fs.root, app + q))
    {
      hide Cut, Put, Get, SameOutside;
      ghost var t0 := fs.root;
      AppIsSame(t0);
      var bin := app + [BINARY_DIR];
      if !IsDir(fs.root, bin) {
        return false;
      }
      var names := Entries(fs.root, bin);
      var todo := names;
      LinksAreEntries(t0, names);
      while todo != {}
        invariant fs.Valid() && todo <= names && SameOutside(t0, fs.root, app)
        invariant !fs.faulty ==> forall q ::
          FileAt(fs.root, app + q) == if IsBinaryLink(t0, app, q) && q[1] !in todo then None else FileAt(t0, app + q)
        decreases |todo|
      {
        var name :| name in todo;
        var p := [BINARY_DIR, name];
        ghost var before := fs.root;
        if IsFile(fs.root, app + p) && isLink(FileAt(fs.root, app + p).value) {
          FileRemoved(before, p);
          var _ := fs.Remove(app + p);
          AppIsTrans(t0, before, fs.root);
        }
        forall q | !fs.faulty
          ensures FileAt(fs.root, app + q) ==
            if IsBinaryLink(t0, app, q) && q[1] !in todo - {name} then None else FileAt(t0, app + q)
        {
          assert FileAt(before, app + p) == FileAt(t0, app + p);
          assert |q| == 2 && q[0] == BINARY_DIR && q[1] == name ==> q == p;
        }
        todo := todo - {name};
      }
      return true;
    }

    lemma LinksAreEntries(t: Node, names: set<Name>)
      requires names == Entries(t, app + [BINARY_DIR])
      ensures forall q | IsBinaryLink(t, app, q) :: q[1] in names
    {
      forall q | IsBinaryLink(t, app, q) ensures q[1] in names {
        assert app + q == app + [BINARY_DIR] + [q[1]];
        GetAppend(t, app + [BINARY_DIR], [q[1]]);
      }
    }

    lemma AppIsSame(t: Node)
      requires app != []
      ensures SameOutside(t, t, app)
    {
    }

    lemma AppIsTrans(a: Node, b: Node, c: Node)
      requires app != [] && SameOutside(a, b, app) && (c == b || SameOutside(b, c, app))
      ensures SameOutside(a, c, app)
    {
    }

    predicate InRuntimeDir(n: nat, q: Path)
      requires n <= |RUNTIME_DIRS|
    {
      exists i | 0 <= i < n :: RUNTIME_DIRS[i] <= q
    }

    /** A place that the installer or the applications write to. */
    predicate IsRuntime(q: Path) {
      ["data"] <= q || ["cache"] <= q || ["shared", "data"] <= q || ["shared", "trusted"] <= q
    }

    lemma RuntimeIff(q: Path)
      ensures InRuntimeDir(|RUNTIME_DIRS|, q) <==> IsRuntime(q)
    {
      assert RUNTIME_DIRS[0] == ["data"] && RUNTIME_DIRS[1] == ["cache"];
      assert RUNTIME_DIRS[2] == ["shared", "data"] && RUNTIME_DIRS[3] == ["shared", "trusted"];
    }

    /** What cannot be removed is left. */
    method RemoveStorageDirectories()
      requires fs.Valid() && app != []
      modifies fs`root, fs`log
      ensures fs.Valid() && SameOutside(old(fs.root), fs.root, app)
      ensures !fs.faulty ==> forall q ::
        FileAt(fs.root, app + q) == if IsRuntime(q) then None else old(FileAt(fs.root, app + q))
    {
      hide Cut, Put, Get, SameOutside;
      ghost var t0 := fs.root;
      AppIsSame(t0);
      for i := 0 to |RUNTIME_DIRS|
        invariant fs.Valid() && SameOutside(t0, fs.root, app)
        invariant !fs.faulty ==>
          forall q :: FileAt(fs.root, app + q) == if InRuntimeDir(i, q) then None else FileAt(t0, app + q)
      {
        ghost var before := fs.root;
        var p := RUNTIME_DIRS[i];
        var _ := fs.RemoveAll(app + p);
        DirRemoved(before, p);
        AppIsTrans(t0, before, fs.root);
        forall q ensures InRuntimeDir(i + 1, q) <==> InRuntimeDir(i, q) || p <= q {
        }
      }
      forall q ensures InRuntimeDir(|RUNTIME_DIRS|, q) <==> IsRuntime(q) {
        RuntimeIff(q);
      }
    }

    lemma DirRemoved(t: Node, p: Path)
      requires p != [] && app != []
      ensures SameOutside(t, Cut(t, app + p), app)
      ensures forall q :: FileAt(Cut(t, app + p), app + q) == if p <= q then None else FileAt(t, app + q)
    {
      CutBelow(t, app, p);
      forall q ensures FileAt(Cut(t, app + p), app + q) == if p <= q then None else FileAt(t, app + q) {
        CutPoint(t, app + p, app + q);
        assert app + p <= app + q <==> p <= q by {
          if app + p <= app + q {
            assert (app + q)[..|app + p|] == app + p;
            assert (app + p)[|app|..] == p && (app + q)[|app|..] == q;
          }
          if p <= q {
            assert q == p + q[|p|..];
            assert app + q == (app + p) + q[|p|..];
          }
        }
      }
    }

    /** The place of a web application's first icon inside the package, if its text is long enough to have one. */
    function ExtraIcon(a: OldApp): Option<Path> {
      if a.kind != "webapp" || a.icons == [] || |a.icons[0]| < |pkgText| then None
      else Some(PathOf(a.icons[0][|pkgText|..]))
    }

    /** It is the first icon's place below the package directory; other applications have none. */
    lemma ExtraIconOf(kind: string, p: Path, others: seq<string>)
      requires forall n | n in p :: IsName(n)
      ensures ExtraIcon(OldApp(kind, [pkgText + "/" + TextOf(p)] + others)) ==
        if kind == "webapp" then Some(p) else None
    {
      PathOfText(p);
      var text := pkgText + "/" + TextOf(p);
      assert text == pkgText + ("/" + TextOf(p)) && text[|pkgText|..] == "/" + TextOf(p);
    }

    predicate IsExtraIcon(n: nat, q: Path)
      requires n <= |oldApps|
    {
      exists i | 0 <= i < n :: ExtraIcon(oldApps[i]) == Some(q)
    }

    predicate TooShort(a: OldApp) {
      a.kind == "webapp" && a.icons != [] && |a.icons[0]| < |pkgText|
    }

    /** The first icon of each web application goes; false where the original throws, for a text that is too short. */
    method RemoveExtraIconFiles() returns (ok: bool)
      requires fs.Valid() && app != []
      modifies fs`root, fs`log
      ensures fs.Valid() && SameOutside(old(fs.root), fs.root, app)
      ensures ok <==> forall a | a in oldApps && a.kind == "webapp" && a.icons != [] :: |pkgText| <= |a.icons[0]|
      ensures ok && !fs.faulty ==> forall q ::
        FileAt(fs.root, app + q) == if IsExtraIcon(|oldApps|, q) then None else old(FileAt(fs.root, app + q))
    {
      hide Cut, Put, Get, SameOutside, ExtraIcon;
      ghost var t0 := fs.root;
      AppIsSame(t0);
      for i := 0 to |oldApps|
        invariant fs.Valid() && SameOutside(t0, fs.root, app)
        invariant forall j | 0 <= j < i :: !TooShort(oldApps[j])
        invariant !fs.faulty ==>
          forall q :: FileAt(fs.root, app + q) == if IsExtraIcon(i, q) then None else FileAt(t0, app + q)
      {
        var a := oldApps[i];
        if TooShort(a) {
          assert a in oldApps;
          return false;
        }
        ghost var before := fs.root;
        if a.kind == "webapp" && a.icons != [] {
          var p := PathOf(a.icons[0][|pkgText|..]);
          IconOf(a);
          var _ := fs.Remove(app + p);
          IconRemoved(before, fs.root, p);
          AppIsTrans(t0, before, fs.root);
        } else {
          IconOf(a);
        }
        forall q ensures IsExtraIcon(i + 1, q) <==> IsExtraIcon(i, q) || ExtraIcon(a) == Some(q) {
        }
      }
      return true;
    }

    lemma IconOf(a: OldApp)
      requires !TooShort(a)
      ensures ExtraIcon(a) == if a.kind == "webapp" &&
      a.icons != [] then Some(PathOf(a.icons[0][|pkgText|..])) else None
    {
    }

    /** bf::remove of a place that may be a directory, which goes only if it is empty. */
    lemma IconRemoved(t: Node, t': Node, p: Path)
      requires app != [] && (t' == t || (t' == Cut(t, app + p) && CanRemove(t, app + p)))
      ensures SameOutside(t, t', app)
      ensures t' == Cut(t, app + p) || !CanRemove(t, app + p) ==>
        forall q :: FileAt(t', app + q) == if q == p then None else FileAt(t, app + q)
    {
      if p == [] {
        assert app + p == app;
        CutCut(t, app);
      } else {
        CutBelow(t, app, p);
      }
      if t' == Cut(t, app + p) || !CanRemove(t, app + p) {
        forall q ensures FileAt(t', app + q) == if q == p then None else FileAt(t, app + q) {
          CutPoint(t, app + p, app + q);
          assert (app + q)[|app|..] == q && (app + p)[|app|..] == p;
          if t' == Cut(t, app + p) && CanRemove(t, app + p) && app + p <= app + q && q != p {
            NothingBelowEmpty(t, app + p, app + q);
          }
        }
      }
    }

    lemma NothingBelowEmpty(t: Node, p: Path, q: Path)
      requires CanRemove(t, p) && p <= q && p != q
      ensures FileAt(t, q) == None
    {
      if IsDir(t, p) {
        assert q == p + q[|p|..];
        GetAppend(t, p, q[|p|..]);
      } else {
        NothingBelowFile(t, p, q);
      }
    }

    /** A file of the working copy, when the delta is for the whole package: files that the installer or the
        applications made are not copied. */
    predicate Trimmed(t: Node, at: Path, q: Path) {
      IsBinaryLink(t, at, q) || IsRuntime(q) || IsExtraIcon(|oldApps|, q)
    }
    /** A file of the working copy before the patch is applied. */
    function CopiedFile(t: Node, q: Path): Option<string> {
      if q != [] && q[0] == EXTERNAL_MEMORY_MOUNT_POINT then None
      else if deltaRoot == [] && Trimmed(t, pkgDir + deltaRoot, q) then None
      else FileAt(t, pkgDir + deltaRoot + q)
    }

    /** Drops from the copy what is not to be patched; false where the original throws. */
    method Trim() returns (ok: bool)
      requires fs.Valid() && app != []
      modifies fs`root, fs`log
      ensures fs.Valid() && SameOutside(old(fs.root), fs.root, app)
      ensures deltaRoot != [] ==> ok && fs.root == old(fs.root)
      ensures deltaRoot == [] ==>
        ok == (old(IsDir(fs.root, app + [BINARY_DIR])) && forall a | a in oldApps :: !TooShort(a))
      ensures deltaRoot == [] && ok && !fs.faulty ==> forall q ::
        FileAt(fs.root, app + q) == if Trimmed(old(fs.root), app, q) then None else old(FileAt(fs.root, app + q))
    {
      hide Cut, Put, Get, SameOutside, IsBinaryLink, IsRuntime, IsExtraIcon;
      ghost var t0 := fs.root;
      AppIsSame(t0);
      if deltaRoot != [] {
        return true;
      }
      ok := RemoveBinarySymlinks();
      if !ok {
        return;
      }
      ghost var t1 := fs.root;
      RemoveStorageDirectories();
      ghost var t2 := fs.root;
      AppIsTrans(t0, t1, t2);
      ok := RemoveExtraIconFiles();
      AppIsTrans(t0, t2, fs.root);
    }

    /** The copied tree, file by file. */
    lemma CopyAt(t0: Node, t: Node, from: Path)
      requires IsDir(t0, from) && Get(t, app) == Some(Dir(Get(t0, from).value.kids - {EXTERNAL_MEMORY_MOUNT_POINT}))
      ensures forall q ::
        FileAt(t, app + q) == if q != [] && q[0] == EXTERNAL_MEMORY_MOUNT_POINT then None else FileAt(t0, from + q)
      ensures IsDir(t, app + [BINARY_DIR]) == IsDir(t0, from + [BINARY_DIR])
    {
      GetAppend(t, app, [BINARY_DIR]);
      GetAppend(t0, from, [BINARY_DIR]);
      forall q
        ensures FileAt(t, app + q) == if q != [] &&
        q[0] == EXTERNAL_MEMORY_MOUNT_POINT then None else FileAt(t0, from + q)
      {
        GetAppend(t, app, q);
        GetAppend(t0, from, q);
      }
    }

    lemma CopiedAt(t0: Node, t: Node, now: Node)
      requires forall q ::
        FileAt(t, app + q) ==
        if q != [] && q[0] == EXTERNAL_MEMORY_MOUNT_POINT then None else FileAt(t0, pkgDir + deltaRoot + q)
      requires if deltaRoot == [] then
          forall q :: FileAt(now, app + q) == if Trimmed(t, app, q) then None else FileAt(t, app + q)
        else now == t
      ensures forall q :: FileAt(now, app + q) == CopiedFile(t0, q)
    {
      hide Get, FileAt, IsRuntime, IsExtraIcon;
      forall q ensures FileAt(now, app + q) == CopiedFile(t0, q) {
        assert FileAt(t, app + q) ==
          if q != [] && q[0] == EXTERNAL_MEMORY_MOUNT_POINT then None else FileAt(t0, pkgDir + deltaRoot + q);
      }
    }

    /** The patch directory is not there yet, the delta lists nothing that climbs, and if it is for the whole package
        what is to be trimmed can be found. */
    ghost predicate Startable(t: Node, deltaFile: Name, text: DeltaText) {
      Exists(t, app + [deltaFile]) && !Exists(t, patch) &&
      (forall s | s in text.added + text.modified + text.removed :: !Climbs(s)) &&
      (deltaRoot == [] ==>
         IsDir(t, pkgDir + deltaRoot + [BINARY_DIR]) && forall a | a in oldApps :: !TooShort(a))
    }

    /** The working copy and the patch directory when the patch is about to be applied. */
    ghost predicate Prepared(t0: Node, t: Node) {
      var installed := pkgDir + deltaRoot;
      Get(t, patch) == Get(t0, app) && (forall q :: FileAt(t, app + q) == CopiedFile(t0, q)) &&
      (deltaRoot != [] ==>
         Get(t, app) == Some(Dir(Kids(t0, installed) - {EXTERNAL_MEMORY_MOUNT_POINT})))
    }

    /** Everything before the patch is applied: the delta is moved away, and a copy of the installed package takes
        its place. */
    method Prepare(deltaFile: Name, parsed: Option<DeltaText>) returns (ok: bool)
      requires fs.Valid() && Apart() && IsDir(fs.root, Parent(app)) && IsDir(fs.root, Parent(patch))
      requires !Exists(fs.root, temp)
      requires var installed := pkgDir + deltaRoot;
        Independent(app, installed) && Independent(installed, app) && Independent(patch, installed) &&
        IsDir(fs.root, installed)
      modifies fs`root, fs`log
      ensures fs.Valid() && Elsewhere(old(fs.root), fs.root, app, patch, temp) && !Exists(fs.root, temp)
      ensures ok ==> old(Exists(fs.root, app + [deltaFile])) && parsed.Some?
      ensures ok ==>
        (forall s | s in parsed.value.added + parsed.value.modified + parsed.value.removed :: !Climbs(s))
      ensures ok ==> Get(fs.root, patch) == old(Get(fs.root, app))
      ensures !fs.faulty ==> ok == (parsed.Some? && old(Startable(fs.root, deltaFile, parsed.value)))
      ensures !fs.faulty && ok ==> Prepared(old(fs.root), fs.root)
    {
      hide Cut, Put, Get, Elsewhere, Trimmed, CopiedFile;
      ghost var t0 := fs.root;
      ElsewhereRefl(t0);
      if !Exists(fs.root, app + [deltaFile]) || parsed.None? {
        return false;
      }
      ok := ValidateDeltaInfo(parsed.value);
      if !ok {
        return;
      }
      var installed := pkgDir + deltaRoot;
      GetAppend(t0, app, [deltaFile]);
      ok := fs.MoveDir(app, patch, false);
      ghost var moved := fs.root;
      BetweenElsewhere(t0, moved, app, patch, temp, app, patch);
      NoTempMade(t0, moved, moved);
      if !ok {
        return;
      }
      SameOutside2Get(t0, moved, app, patch, installed);
      StillThere(t0, moved);
      ok := CopySkipMount(installed, app);
      ghost var whole := fs.root;
      BelowElsewhere(moved, whole, app, patch, temp, app);
      ElsewhereTrans(t0, moved, whole, app, patch, temp);
      NoTempMade(t0, moved, whole);
      if !ok {
        return;
      }
      CopyAt(t0, whole, installed);
      ok := Trim();
      AppIsTrans(moved, whole, fs.root);
      BelowElsewhere(moved, fs.root, app, patch, temp, app);
      ElsewhereTrans(t0, moved, fs.root, app, patch, temp);
      NoTempMade(t0, moved, fs.root);
      SameOutsideGet(moved, fs.root, app, patch);
      if ok && !fs.faulty {
        CopiedAt(t0, whole, fs.root);
      }
    }

    /** The delta in the unpacked directory becomes the new version there, made from the installed package, which
        is only read.  Also returns the disk as it was before the patch was applied. */
    method Process(deltaFile: Name, parsed: Option<DeltaText>) returns (ok: bool, ghost copied: Node)
      requires fs.Valid() && Apart() && IsDir(fs.root, Parent(app)) && IsDir(fs.root, Parent(patch))
      requires !Exists(fs.root, temp)
      requires var installed := pkgDir + deltaRoot;
        Independent(app, installed) && Independent(installed, app) && Independent(patch, installed) &&
        IsDir(fs.root, installed)
      modifies fs`root, fs`log
      ensures fs.Valid() && Elsewhere(old(fs.root), fs.root, app, patch, temp)
      ensures ok ==> old(Exists(fs.root, app + [deltaFile])) && parsed.Some?
      ensures ok ==>
        (forall s | s in parsed.value.added + parsed.value.modified + parsed.value.removed :: !Climbs(s))
      ensures ok ==> Get(copied, patch) == old(Get(fs.root, app))
      ensures ok && !fs.faulty ==> !Exists(fs.root, patch)
      ensures ok && !fs.faulty && Distinct(ToInfo(parsed.value).modified) ==>
        forall q :: FileAt(fs.root, app + q) == Patched(copied, ToInfo(parsed.value), q)
      ensures !fs.faulty && parsed.Some? && old(Startable(fs.root, deltaFile, parsed.value)) ==>
        Prepared(old(fs.root), copied)
      ensures !fs.faulty && parsed.Some? && Distinct(ToInfo(parsed.value).modified) &&
              old(IsDir(fs.root, Parent(temp))) ==>
        ok == (old(Startable(fs.root, deltaFile, parsed.value)) && CanPatch(copied, ToInfo(parsed.value)))
    {
      hide Cut, Put, Get, Distinct, Elsewhere, Patched, CanPatch, Startable, Prepared, Independent;
      ok := Prepare(deltaFile, parsed);
      copied := fs.root;
      if !ok {
        return;
      }
      StillThere(old(fs.root), copied);
      ok := ApplyPatch(ToInfo(parsed.value));
      ghost var patched := fs.root;
      ElsewhereTrans(old(fs.root), copied, patched, app, patch, temp);
      if !ok {
        return;
      }
      PatchIsSomewhere();
      var _ := fs.RemoveAll(patch);
      PatchDropped(patched, fs.root);
      ElsewhereTrans(old(fs.root), patched, fs.root, app, patch, temp);
    }

    lemma PatchIsSomewhere()
      requires Apart()
      ensures patch != []
    {
    }

    /** A whole delta without faults: if what was prepared differs from the new version as the lists say, the result
        is the new version, unless an added file takes the place of a directory with a subdirectory. */
    method ProcessDelta(deltaFile: Name, text: DeltaText, ghost old': Node, ghost new': Node,
                        ghost encode: (string, string) -> string) returns (ok: bool, ghost copied: Node)
      requires fs.Valid() && !fs.faulty && Apart() && !Exists(fs.root, temp)
      requires IsDir(fs.root, Parent(app)) && IsDir(fs.root, Parent(patch)) && IsDir(fs.root, Parent(temp))
      requires var installed := pkgDir + deltaRoot;
        Independent(app, installed) && Independent(installed, app) && Independent(patch, installed) &&
        IsDir(fs.root, installed)
      requires Startable(fs.root, deltaFile, text)
      requires Distinct(ToInfo(text).added) && Distinct(ToInfo(text).modified)
      requires forall a, b :: decode(a, encode(a, b)) == Some(b)
      modifies fs`root, fs`log
      ensures Prepared(old(fs.root), copied)
      ensures IsDelta(copied, old', new', ToInfo(text), encode) ==>
        (ok <==> forall r, n | r in ToInfo(text).added :: !IsDir(old', r + [n])) &&
        (ok ==> forall q :: FileAt(fs.root, app + q) == FileAt(new', q))
    {
      hide Get, Distinct, CanPatch, Patched, Prepared, IsDelta, Startable, Independent;
      ok, copied := Process(deltaFile, Some(text));
      if IsDelta(copied, old', new', ToInfo(text), encode) {
        CanPatchDelta(copied, old', new', ToInfo(text), encode);
        PatchOfDelta(copied, old', new', ToInfo(text), encode);
      }
    }

    lemma PatchDropped(t: Node, t': Node)
      requires Apart() && (t' == t || t' == Cut(t, patch))
      ensures Elsewhere(t, t', app, patch, temp)
      ensures t' == Cut(t, patch) ==> !Exists(t', patch)
      ensures forall q :: FileAt(t', app + q) == FileAt(t, app + q)
    {
      hide Cut, Get;
      CutCut(t, patch);
      GetCut(t, patch);
      BelowElsewhere(t, t', app, patch, temp, patch);
      forall q ensures FileAt(t', app + q) == FileAt(t, app + q) {
        CutPoint(t, patch, app + q);
        Under(patch, app, q);
      }
    }

    lemma NoTempMade(a: Node, b: Node, c: Node)
      requires Apart() && SameOutside2(a, b, app, patch) && SameOutside(b, c, app)
      ensures Get(c, temp) == Get(a, temp)
    {
      SameOutside2Get(a, b, app, patch, temp);
      SameOutsideGet(b, c, app, temp);
    }
  }
}
