/** StepRDSModify: a package is edited in place, file by file, under a journal that a failure is undone with. */
module RdsModify {
  import opened FileTree
  import opened FileEdits
  import opened FileSystem
  import opened PackageTrees
  import opened RdsJournal

  class StepRdsModify {
    const context: InstallerContext
    const fs: FileSystem
    const filesToAdd: seq<Path>
    const filesToModify: seq<Path>
    const filesToDelete: seq<Path>
    var backupTempDir: Path
    var successModifications: seq<Entry>

    constructor (context: InstallerContext, fs: FileSystem, adds: seq<Path>, modifies': seq<Path>, deletes: seq<Path>)
      ensures this.context == context && this.fs == fs
      ensures filesToAdd == adds && filesToModify == modifies' && filesToDelete == deletes
      ensures backupTempDir == [] && successModifications == []
    {
      this.context, this.fs := context, fs;
      filesToAdd, filesToModify, filesToDelete := adds, modifies', deletes;
      backupTempDir, successModifications := [], [];
    }

    /** The first n entries of the journal have been played back from t. */
    ghost predicate PlayedBack(t: Node, now: Node, n: nat)
      requires context.pkgPath != []
      reads this, context
    {
      n <= |successModifications| &&
      Restore(t, context.pkgPath, backupTempDir, successModifications[..n]) == Some(now)
    }

    /** A call failed: what was played back is, and at most the next file is torn. */
    ghost predicate BrokenOff(t: Node, now: Node, n: nat)
      requires context.pkgPath != []
      reads this, context
    {
      n <= |successModifications| &&
      exists r :: PlayedBack(t, r, n) &&
        (now == r ||
         (n < |successModifications| && context.pkgPath + successModifications[n].file != [] &&
          SameOutside(r, now, context.pkgPath + successModifications[n].file)))
    }

    lemma PlaysOn(t: Node, now: Node, next: Node, n: nat)
      requires context.pkgPath != [] && n < |successModifications| && PlayedBack(t, now, n)
      requires RestoreEntry(now, context.pkgPath, backupTempDir, successModifications[n]) == Some(next)
      ensures PlayedBack(t, next, n + 1)
    {
      var j := successModifications;
      assert j[..n + 1] == j[..n] + [j[n]];
      RestoreSnoc(t, context.pkgPath, backupTempDir, j[..n], j[n]);
    }

    /** No directory comes up while a journal without any is played back. */
    lemma NoDirectoryPlayed(t: Node, now: Node, n: nat)
      requires Independent(backupTempDir, context.pkgPath) && Independent(context.pkgPath, backupTempDir)
      requires n < |successModifications| && PlayedBack(t, now, n)
      requires Playable(t, context.pkgPath, backupTempDir, successModifications)
      ensures successModifications[n].op == DELETE ==> !IsDir(now, backupTempDir + successModifications[n].file)
    {
      var j := successModifications;
      assert j[n] in j;
      RestoreLast(t, context.pkgPath, backupTempDir, j[..n]);
    }

    /** RestoreFiles: plays the journal forwards; false where the original throws.  With faults it breaks off. */
    method RestoreFiles() returns (completed: bool)
      requires fs.Valid() && context.pkgPath != [] && backupTempDir != []
      modifies fs`root, fs`log
      ensures fs.Valid() && old(fs.log) <= fs.log
      ensures old(Orderly(fs.root)) ==>
        if completed then
          exists r :: PlayedBack(old(fs.root), r, |successModifications|) && fs.root == Cut(r, backupTempDir)
        else exists n :: BrokenOff(old(fs.root), fs.root, n)
      ensures !fs.faulty ==>
        var r := Restore(old(fs.root), context.pkgPath, backupTempDir, successModifications);
        completed == r.Some? && (completed ==> fs.root == Cut(r.value, backupTempDir))
    {
      hide Cut, Put, Get, PlayedBack, Playable, Independent, CanRemove, CanCopy;
      var app, tmp := context.pkgPath, backupTempDir;
      var i := 0;
      ghost var start := fs.root;
      NothingPlayed(start);
      while i < |successModifications|
        invariant 0 <= i <= |successModifications| && fs.Valid() && old(fs.log) <= fs.log
        invariant old(Orderly(fs.root)) ==> PlayedBack(start, fs.root, i)
        invariant !fs.faulty ==>
          Restore(old(fs.root), app, tmp, successModifications) == Restore(fs.root, app, tmp, successModifications[i..])
      {
        var e := successModifications[i];
        var source, destination := tmp + e.file, app + e.file;
        assert successModifications[i..][0] == e && successModifications[i..][1..] == successModifications[i + 1..];
        ghost var before := fs.root;
        if old(Orderly(fs.root)) {
          NoDirectoryPlayed(start, before, i);
          NothingElse(before, app + e.file);
        }
        if e.op == ADD {
          if IsDir(fs.root, source) {
            var ok := fs.RemoveAll(destination);
            if !ok {
              assert old(Orderly(fs.root)) ==> BrokenOff(start, fs.root, i);
              return false;
            }
          } else {
            var ok := fs.Remove(destination);
            if !ok {
              assert old(Orderly(fs.root)) ==> BrokenOff(start, fs.root, i);
              return false;
            }
          }
        } else if e.op == DELETE && IsDir(fs.root, source) {
          var _ := fs.CreateDir(destination);
        } else {
          var ok := fs.CopyFile(source, destination, true);
          if !ok {
            assert old(Orderly(fs.root)) ==> BrokenOff(start, fs.root, i);
            return false;
          }
        }
        if old(Orderly(fs.root)) {
          PlaysOn(start, before, fs.root, i);
        }
        i := i + 1;
      }
      completed := fs.RemoveAll(tmp);
      if !completed {
        assert old(Orderly(fs.root)) ==> BrokenOff(start, fs.root, i);
      }
    }

    ghost predicate Orderly(t: Node)
      reads this, context
    {
      Independent(backupTempDir, context.pkgPath) && Independent(context.pkgPath, backupTempDir) &&
      Playable(t, context.pkgPath, backupTempDir, successModifications)
    }

    lemma NothingPlayed(t: Node)
      requires context.pkgPath != []
      ensures PlayedBack(t, t, 0)
    {
      assert successModifications[..0] == [];
    }

    lemma NothingElse(t: Node, p: Path)
      requires p != []
      ensures SameOutside(t, t, p)
    {
    }

    /** The package, the unpacked delta and the backup are three different places. */
    ghost predicate Ready()
      reads this, context, fs
    {
      var app, unzip, tmp := context.pkgPath, context.unpackedDirPath, backupTempDir;
      fs.Valid() && Independent(tmp, app) && Independent(app, tmp) && Independent(app, unzip) &&
      Independent(tmp, unzip) &&
      IsDir(fs.root, tmp)
    }

    /** The lists the promise is made for: nothing that is added is there or lies below another listed file;
        nothing that is changed is a directory.  What is added may also be changed. */
    ghost predicate Restorable(t0: Node)
      reads context`pkgPath
    {
      Sound(t0) && NoneThere(t0)
    }

    ghost predicate NoneThere(t0: Node)
      reads context`pkgPath
    {
      forall r | r in filesToAdd :: !Exists(t0, context.pkgPath + r)
    }

    ghost predicate Sound(t0: Node)
      reads context`pkgPath
    {
      var app := context.pkgPath;
      (forall r | r in filesToModify + filesToDelete :: !IsDir(t0, app + r)) &&
      forall r | r in filesToAdd + filesToModify + filesToDelete :: !Grown(app, filesToAdd, app + r)
    }

    /** Nothing but a file that is there already can keep a file from being added. */
    ghost predicate Supplied(t0: Node)
      reads context
    {
      var app, unzip := context.pkgPath, context.unpackedDirPath;
      (forall i, j | 0 <= i < j < |filesToAdd| :: filesToAdd[i] != filesToAdd[j]) &&
      forall r | r in filesToAdd ::
        IsFile(t0, unzip + r) && app + r != [] && !IsDir(t0, app + r) && Clear(t0, Parent(app + r)) &&
        !Grown(app, filesToAdd, app + r)
    }

    ghost predicate Guarded(t0: Node)
      reads this, context, fs
    {
      Restorable(t0) && AddsFirst(filesToAdd, successModifications) &&
      Journalled(t0, fs.root, context.pkgPath, backupTempDir, filesToAdd, successModifications)
    }

    /** Nothing is changed before all is added. */
    predicate InTurn(op: Operation)
      reads this
    {
      if op == ADD then forall e | e in successModifications :: e.op == ADD
      else forall r | r in filesToAdd :: Entry(r, ADD) in successModifications
    }

    /** The journal keeps its promise, and an operation of that kind on the file is due. */
    ghost predicate Due(t0: Node, file: Path, op: Operation)
      reads this, context, fs
    {
      Guarded(t0) && InTurn(op) && file in Listed(op)
    }

    function Listed(op: Operation): seq<Path> {
      match op case ADD => filesToAdd case MODIFY => filesToModify case DELETE => filesToDelete
    }

    /** The files that are changed, in the order they are. */
    function Changes(): seq<Path> {
      filesToModify + filesToDelete
    }

    /** From the tree t1, where all files are added, to t the first n changes were made, and nothing else happened
        outside the backup, which has exactly the first m files that are changed. */
    ghost predicate ChangedUpTo(t1: Node, t: Node, n: nat, m: nat)
      requires n <= |Changes()| && m <= |Changes()|
      reads this`backupTempDir, context
    {
      var app, tmp := context.pkgPath, backupTempDir;
      IsDir(t1, app) &&
      (forall q | !(tmp <= q) :: IsDir(t, q) == IsDir(t1, q)) &&
      (forall q | !(tmp <= q) && (forall r | r in Changes()[..n] :: q != app + r) :: FileAt(t, q) == FileAt(t1, q)) &&
      (forall g :: FileAt(t, tmp + g).Some? <==> g in Changes()[..m]) &&
      (forall g | g in Changes()[..m] :: FileAt(t1, app + g).Some?) &&
      forall g | IsDir(t, tmp + g) :: IsDir(t1, app + g)
    }

    /** The next change is journalled if its file is there and has not been changed before. */
    ghost predicate Saveable(t1: Node, n: nat)
      requires n < |Changes()|
      reads context
    {
      FileAt(t1, context.pkgPath + Changes()[n]).Some? && Changes()[n] !in Changes()[..n]
    }

    /** It is made if moreover the delta has the new content of a file that is modified. */
    ghost predicate Changeable(t1: Node, n: nat)
      requires n < |Changes()|
      reads context
    {
      Saveable(t1, n) && (n < |filesToModify| ==> FileAt(t1, context.unpackedDirPath + Changes()[n]).Some?)
    }

    /** The journal of the changes. */
    function ChangeEntries(): seq<Entry> {
      EntriesOf(filesToModify, MODIFY) + EntriesOf(filesToDelete, DELETE)
    }

    /** A run without faults that made k changes and stopped at the next one. */
    ghost predicate Halted(t1: Node, earlier: seq<Entry>, journal: seq<Entry>, k: nat)
      requires k < |Changes()|
      reads context
    {
      (forall i | 0 <= i < k :: Changeable(t1, i)) && !Changeable(t1, k) &&
      journal == earlier + ChangeEntries()[..if Saveable(t1, k) then k + 1 else k]
    }

    /** A run without faults, n changes behind the tree t1. */
    ghost predicate OnCourse(t1: Node, n: nat)
      requires n <= |Changes()|
      reads this`backupTempDir, context, fs
    {
      !fs.faulty && ChangedUpTo(t1, fs.root, n, n) &&
      forall r | r in Changes() :: !IsDir(t1, context.pkgPath + r)
    }

    /** That run is about to change this file. */
    ghost predicate Next(t1: Node, n: nat, file: Path)
      reads this`backupTempDir, context, fs
    {
      n < |Changes()| && file == Changes()[n] && OnCourse(t1, n)
    }

    /** Its old content is in the backup. */
    ghost predicate SavedNext(t1: Node, n: nat)
      reads this`backupTempDir, context, fs
    {
      n < |Changes()| && ChangedUpTo(t1, fs.root, n, n + 1)
    }

    /** Nothing in the backup is in the way of a file that is there. */
    lemma BackupIsClear(t1: Node, t: Node, n: nat, file: Path)
      requires n <= |Changes()| && ChangedUpTo(t1, t, n, n) && FileAt(t1, context.pkgPath + file).Some?
      requires IsDir(t, backupTempDir) && backupTempDir != []
      ensures file != [] && Parent(backupTempDir + file) == backupTempDir + Parent(file)
      ensures Clear(t, Parent(backupTempDir + file)) && !IsDir(t, backupTempDir + file)
      ensures forall g | g <= Parent(file) :: IsDir(t1, context.pkgPath + g)
    {
      hide Get, ChangedUpTo;
      var app, tmp := context.pkgPath, backupTempDir;
      NotTheRoot(t1, t, n, file);
      forall g | g <= Parent(file) ensures IsDir(t1, app + g) {
        assert g <= file && |g| < |file|;
        assert app + g <= app + file && app + g != app + file;
        PrefixIsDir(t1, app + g, app + file);
      }
      forall q | q <= Parent(tmp + file) ensures FileAt(t, q) == None {
        if q <= tmp {
          if q != tmp {
            PrefixIsDir(t, q, tmp);
          }
        } else {
          var g := q[|tmp|..];
          assert q == tmp + g && g <= Parent(file);
          OnlyChanged(t1, t, n, g);
        }
      }
    }

    lemma NotTheRoot(t1: Node, t: Node, n: nat, file: Path)
      requires n <= |Changes()| && ChangedUpTo(t1, t, n, n) && FileAt(t1, context.pkgPath + file).Some?
      ensures file != [] && Parent(backupTempDir + file) == backupTempDir + Parent(file)
      ensures !IsDir(t, backupTempDir + file)
    {
      assert context.pkgPath + [] == context.pkgPath;
    }

    /** Making the directory for the copy. */
    lemma HolderOnCourse(t1: Node, t: Node, made: Node, n: nat, file: Path)
      requires n <= |Changes()| && ChangedUpTo(t1, t, n, n) && FileAt(t1, context.pkgPath + file).Some?
      requires IsDir(t, backupTempDir) && backupTempDir != []
      requires forall q :: FileAt(made, q) == FileAt(t, q)
      requires forall q | IsDir(t, q) :: IsDir(made, q)
      requires forall q | IsDir(made, q) :: IsDir(t, q) || q <= Parent(backupTempDir + file)
      ensures ChangedUpTo(t1, made, n, n) && !IsDir(made, backupTempDir + file)
    {
      hide Get;
      var app, tmp := context.pkgPath, backupTempDir;
      BackupIsClear(t1, t, n, file);
      forall q | !(tmp <= q) && IsDir(made, q) ensures IsDir(t, q) {
        if !IsDir(t, q) {
          assert q <= tmp + Parent(file) && tmp <= tmp + Parent(file);
          assert q <= tmp && q != tmp;
          PrefixIsDir(t, q, tmp);
        }
      }
      forall g | IsDir(made, tmp + g) ensures IsDir(t1, app + g) {
        if !IsDir(t, tmp + g) {
          assert tmp + g <= tmp + Parent(file);
          assert g == (tmp + g)[|tmp|..] && Parent(file) == (tmp + Parent(file))[|tmp|..];
          assert g <= Parent(file);
        }
      }
      NotTheRoot(t1, made, n, file);
    }

    /** Copying the file into the backup. */
    lemma CopyOnCourse(t1: Node, made: Node, now: Node, n: nat)
      requires n < |Changes()| && ChangedUpTo(t1, made, n, n) && FileAt(t1, context.pkgPath + Changes()[n]).Some?
      requires OnlyFile(made, now, backupTempDir + Changes()[n])
      requires FileAt(now, backupTempDir + Changes()[n]).Some?
      ensures ChangedUpTo(t1, now, n, n + 1)
    {
      hide Get, IsDir, FileAt;
      var tmp, file := backupTempDir, Changes()[n];
      assert Changes()[..n + 1] == Changes()[..n] + [file];
      forall g | g != file ensures tmp + g != tmp + file {
        assert (tmp + g)[|tmp|..] == g && (tmp + file)[|tmp|..] == file;
      }
      assert tmp <= tmp + file;
    }

    lemma OnlyChanged(t1: Node, t: Node, n: nat, g: Path)
      requires n <= |Changes()| && ChangedUpTo(t1, t, n, n) && IsDir(t1, context.pkgPath + g)
      ensures FileAt(t, backupTempDir + g) == None
    {
    }

    /** CreateDir(p) for a path at, above or inside the backup. */
    method MakeBackupDir(p: Path, ghost t0: Node) returns (ok: bool)
      requires Ready() && (backupTempDir <= p || p <= backupTempDir)
      modifies fs`root, fs`log
      ensures Ready() && old(fs.log) <= fs.log
      ensures forall q :: FileAt(fs.root, q) == old(FileAt(fs.root, q))
      ensures forall q :: old(IsDir(fs.root, q)) ==> IsDir(fs.root, q)
      ensures forall q :: IsDir(fs.root, q) ==> old(IsDir(fs.root, q)) || q <= p
      ensures !fs.faulty && old(Clear(fs.root, p)) ==> ok && IsDir(fs.root, p)
      ensures old(Guarded(t0)) ==> Guarded(t0)
    {
      hide Cut, Put, Get, MakeDirs, Journalled, Restorable, AddsFirst;
      ghost var before := fs.root;
      if Clear(before, p) {
        ClearIsClearWay(before, p);
      }
      ok := fs.CreateDir(p);
      ghost var k :| 0 <= k <= |p| && fs.root == MakeDirs(old(fs.root), p[..k]);
      BackupDirsKept(t0, old(fs.root), p[..k]);
      MakeDirsPoint(before, p, p);
      forall q ensures old(IsDir(fs.root, q)) ==> IsDir(fs.root, q)
        ensures IsDir(fs.root, q) ==> old(IsDir(fs.root, q)) || q <= p
      {
        MakeDirsPoint(before, p[..k], q);
      }
    }

    lemma BackupDirsKept(t0: Node, t: Node, p: Path)
      requires backupTempDir <= p || p <= backupTempDir
      requires IsDir(t, backupTempDir)
      ensures var t' := MakeDirs(t, p);
        IsDir(t', backupTempDir) && (forall q :: FileAt(t', q) == FileAt(t, q)) &&
        (Journalled(t0, t, context.pkgPath, backupTempDir, filesToAdd, successModifications) ==>
         Journalled(t0, t', context.pkgPath, backupTempDir, filesToAdd, successModifications))
    {
      hide Cut, Put, Get, MakeDirs, Journalled;
      var tmp := backupTempDir;
      forall q ensures FileAt(MakeDirs(t, p), q) == FileAt(t, q) && (IsDir(t, q) ==> IsDir(MakeDirs(t, p), q)) {
        MakeDirsPoint(t, p, q);
      }
      forall q | q <= p && !(tmp <= q) ensures IsDir(t, q) {
        assert q <= tmp;
        PrefixIsDir(t, q, tmp);
      }
      if Journalled(t0, t, context.pkgPath, tmp, filesToAdd, successModifications) {
        DirsKept(t0, t, MakeDirs(t, p), context.pkgPath, tmp, filesToAdd, successModifications, p);
      }
    }

    /** The file is copied into the backup, where it must not be yet. */
    method SaveCopy(relative: Path, ghost t0: Node, ghost t1: Node, ghost n: nat) returns (ok: bool)
      requires Ready()
      modifies fs`root, fs`log
      ensures Ready() && old(fs.log) <= fs.log
      ensures old(Guarded(t0)) ==> Guarded(t0)
      ensures forall q | !(backupTempDir <= q) :: FileAt(fs.root, q) == old(FileAt(fs.root, q))
      ensures ok ==>
        FileAt(fs.root, backupTempDir + relative).Some? &&
        FileAt(fs.root, backupTempDir + relative) == old(FileAt(fs.root, context.pkgPath + relative)) &&
        (old(Guarded(t0)) ==> forall e | e in successModifications && e.op != ADD :: e.file != relative)
      ensures old(Next(t1, n, relative)) ==> ok == Saveable(t1, n) && (ok ==> SavedNext(t1, n))
    {
      hide Cut, Put, Get, MakeDirs, Journalled, Restorable, AddsFirst, ChangedUpTo;
      var source, target := context.pkgPath + relative, backupTempDir + relative;
      Under(backupTempDir, context.pkgPath, relative);
      Unsaveable(t1, fs.root, n, relative);
      ghost var there := Next(t1, n, relative) && FileAt(t1, source).Some?;
      ok := HoldCopy(relative, t0, t1, n);
      if !ok {
        return;
      }
      ghost var made := fs.root;
      Unsaveable(t1, made, n, relative);
      ok := fs.CopyFile(source, target, false);
      if fs.root != made {
        CopyIsOnlyFile(made, fs.root, target);
        if old(Guarded(t0)) {
          BackupKept(t0, made, fs.root, context.pkgPath, backupTempDir, filesToAdd, successModifications, relative);
        }
      }
      if there && ok {
        CopyOnCourse(t1, made, fs.root, n);
      }
    }

    /** The directory the copy goes to is made unless there is something. */
    method HoldCopy(relative: Path, ghost t0: Node, ghost t1: Node, ghost n: nat) returns (ok: bool)
      requires Ready()
      modifies fs`root, fs`log
      ensures Ready() && old(fs.log) <= fs.log
      ensures forall q :: FileAt(fs.root, q) == old(FileAt(fs.root, q))
      ensures old(Guarded(t0)) ==> Guarded(t0)
      ensures old(Next(t1, n, relative)) && FileAt(t1, context.pkgPath + relative).Some? ==>
        ok && ChangedUpTo(t1, fs.root, n, n) && IsDir(fs.root, Parent(backupTempDir + relative)) &&
        !IsDir(fs.root, backupTempDir + relative)
    {
      hide Cut, Put, Get, MakeDirs, Journalled, Restorable, AddsFirst, ChangedUpTo, Clear;
      var holder := Parent(backupTempDir + relative);
      InOrAbove(backupTempDir, relative);
      ghost var before := fs.root;
      ghost var there := Next(t1, n, relative) && FileAt(t1, context.pkgPath + relative).Some?;
      if there {
        BackupIsClear(t1, before, n, relative);
        ClearOrDir(before, holder);
      }
      ok := true;
      if !Exists(fs.root, holder) {
        ok := MakeBackupDir(holder, t0);
      }
      if there {
        HolderOnCourse(t1, before, fs.root, n, relative);
      }
    }

    lemma ClearOrDir(t: Node, p: Path)
      requires Clear(t, p)
      ensures Exists(t, p) ==> IsDir(t, p)
    {
      assert FileAt(t, p) == None;
    }

    /** What a copy of the next file finds. */
    lemma Unsaveable(t1: Node, t: Node, n: nat, file: Path)
      requires Independent(backupTempDir, context.pkgPath)
      ensures n < |Changes()| && file == Changes()[n] && ChangedUpTo(t1, t, n, n) ==>
        (Saveable(t1, n) ==>
           IsFile(t, context.pkgPath + file) && FileAt(t, backupTempDir + file) == None) &&
        (!Saveable(t1, n) ==>
           FileAt(t, context.pkgPath + file) == None || FileAt(t, backupTempDir + file).Some?)
    {
      hide Get;
      if n < |Changes()| && file == Changes()[n] && ChangedUpTo(t1, t, n, n) && file !in Changes()[..n] {
        Under(backupTempDir, context.pkgPath, file);
        forall r | r in Changes()[..n] ensures context.pkgPath + file != context.pkgPath + r {
          assert (context.pkgPath + file)[|context.pkgPath|..] == file;
          assert (context.pkgPath + r)[|context.pkgPath|..] == r;
        }
      }
    }

    lemma InOrAbove(tmp: Path, r: Path)
      requires tmp != []
      ensures tmp <= Parent(tmp + r) || Parent(tmp + r) <= tmp
    {
      if r == [] {
        assert tmp + r == tmp;
      } else {
        assert Parent(tmp + r) == tmp + Parent(r);
      }
    }

    /** Only a file whose old content is safe is journalled. */
    method PerformBackup(relative: Path, op: Operation, ghost t0: Node, ghost t1: Node, ghost n: nat)
      returns (ok: bool)
      requires Ready()
      modifies fs`root, fs`log, this`successModifications
      ensures Ready() && old(fs.log) <= fs.log
      ensures successModifications == old(successModifications) + if ok then [Entry(relative, op)] else []
      ensures forall q | !(backupTempDir <= q) :: FileAt(fs.root, q) == old(FileAt(fs.root, q))
      ensures op == ADD ==> ok && fs.root == old(fs.root)
      ensures old(Due(t0, relative, op)) ==> Guarded(t0) && InTurn(op)
      ensures old(Due(t0, relative, op)) && ok && op != ADD ==>
        forall e | e in old(successModifications) && e.op != ADD :: e.file != relative
      ensures op != ADD && old(Next(t1, n, relative)) ==> ok == Saveable(t1, n) && (ok ==> SavedNext(t1, n))
      ensures op != ADD && old(IsDir(fs.root, context.pkgPath + relative)) ==>
        IsDir(fs.root, context.pkgPath + relative)
      ensures op != ADD && !fs.faulty &&
              old(IsDir(fs.root, context.pkgPath + relative) && Clear(fs.root, backupTempDir + relative)) ==>
        ok && DirectorySaved(old(fs.root), fs.root, relative)
    {
      hide Cut, Put, Get, MakeDirs, Journalled, Restorable, AddsFirst, ChangedUpTo, Saveable;
      NoDirectoryNext(t1, n, relative);
      if backupTempDir == [] {
        return false;
      }
      if op == DELETE || op == MODIFY {
        if IsDir(fs.root, context.pkgPath + relative) {
          ok := MakeBackupDir(backupTempDir + relative, t0);
        } else {
          ok := SaveCopy(relative, t0, t1, n);
        }
        if !ok {
          return;
        }
      }
      if old(Due(t0, relative, op)) {
        NoListedDirectory(t0, old(fs.root), relative, op);
        OldContent(t0, old(fs.root), fs.root, relative, op);
        EntryKept(t0, fs.root, context.pkgPath, backupTempDir, filesToAdd, successModifications, Entry(relative, op));
        OneMoreInTurn(Entry(relative, op));
      }
      successModifications := successModifications + [Entry(relative, op)];
      return true;
    }

    lemma NoListedDirectory(t0: Node, t: Node, relative: Path, op: Operation)
      requires Independent(backupTempDir, context.pkgPath) && Restorable(t0) && relative in Listed(op)
      requires Journalled(t0, t, context.pkgPath, backupTempDir, filesToAdd, successModifications)
      ensures !IsDir(t, context.pkgPath + relative) && !Grown(context.pkgPath, filesToAdd, context.pkgPath + relative)
    {
      Under(backupTempDir, context.pkgPath, relative);
    }

    lemma NoDirectoryNext(t1: Node, n: nat, file: Path)
      requires Ready()
      ensures Next(t1, n, file) ==> !IsDir(fs.root, context.pkgPath + file)
    {
      Under(backupTempDir, context.pkgPath, file);
    }

    lemma OneMoreInTurn(e: Entry)
      requires AddsFirst(filesToAdd, successModifications) && InTurn(e.op)
      ensures AddsFirst(filesToAdd, successModifications + [e])
      ensures if e.op == ADD then forall d | d in successModifications + [e] :: d.op == ADD
        else forall r | r in filesToAdd :: Entry(r, ADD) in successModifications + [e]
    {
      var j := successModifications;
      assert forall d | d in j + [e] :: d in j || d == e;
      forall i, k | 0 <= i < k < |j + [e]| && (j + [e])[k].op == ADD ensures (j + [e])[i].op == ADD {
        assert (j + [e])[i] == j[i] && j[i] in j;
      }
    }

    /** A listed file that is not journalled for a change yet still has its old content, unless it was added. */
    lemma OldContent(t0: Node, t: Node, now: Node, relative: Path, op: Operation)
      requires context.pkgPath != [] && Independent(backupTempDir, context.pkgPath) && Restorable(t0)
      requires relative in Listed(op)
      requires Journalled(t0, t, context.pkgPath, backupTempDir, filesToAdd, successModifications)
      requires forall q | !(backupTempDir <= q) :: FileAt(now, q) == FileAt(t, q)
      ensures relative in filesToAdd ==> !Exists(t0, context.pkgPath + relative)
      ensures op != ADD && (forall e | e in successModifications && e.op != ADD :: e.file != relative) &&
              FileAt(now, backupTempDir + relative) == FileAt(t, context.pkgPath + relative) &&
              FileAt(now, backupTempDir + relative).Some?
        ==> Safe(t0, now, context.pkgPath, backupTempDir, filesToAdd, relative)
      ensures op == ADD ==> relative in filesToAdd
    {
      hide Get;
      var app := context.pkgPath;
      Under(backupTempDir, app, relative);
      if op != ADD && (forall e | e in successModifications && e.op != ADD :: e.file != relative) {
        if FileAt(now, app + relative).Some? {
          PrefixIsDir(now, Parent(app + relative), app + relative);
        }
        if relative !in filesToAdd {
          forall e | e in successModifications ensures app + e.file != app + relative {
            assert (app + e.file)[|app|..] == e.file && (app + relative)[|app|..] == relative;
          }
        }
      }
    }

    ghost predicate AllApplied(t0: Node)
      reads this, context, fs
    {
      Applied(t0, fs.root, context.pkgPath, context.unpackedDirPath, successModifications)
    }

    /** An edit of the file that was journalled last. */
    lemma EditedLast(t0: Node, t: Node, t': Node, file: Path, op: Operation)
      requires context.pkgPath != [] && Independent(backupTempDir, context.pkgPath)
      requires Independent(context.pkgPath, context.unpackedDirPath)
      requires Independent(backupTempDir, context.unpackedDirPath)
      requires successModifications != [] && successModifications[|successModifications| - 1] == Entry(file, op)
      requires Journalled(t0, t, context.pkgPath, backupTempDir, filesToAdd, successModifications)
      requires OnlyFile(t, t', context.pkgPath + file)
      ensures Journalled(t0, t', context.pkgPath, backupTempDir, filesToAdd, successModifications)
      ensures var earlier := successModifications[..|successModifications| - 1];
        Applied(t0, t, context.pkgPath, context.unpackedDirPath, earlier) &&
        (op != DELETE ==> Entry(file, DELETE) !in earlier) &&
        (if op == DELETE then FileAt(t', context.pkgPath + file) == None
         else
           FileAt(t', context.pkgPath + file).Some? &&
           FileAt(t', context.pkgPath + file) == FileAt(t0, context.unpackedDirPath + file)) ==>
        Applied(t0, t', context.pkgPath, context.unpackedDirPath, successModifications)
    {
      hide Get, FileAt, IsDir, Independent, Journalled;
      var j, app := successModifications, context.pkgPath;
      assert j[|j| - 1] in j;
      EditKept(t0, t, t', app, backupTempDir, filesToAdd, j, file);
      assert j == j[..|j| - 1] + [Entry(file, op)];
      forall e | e in j && e.file != file ensures app + e.file != app + file {
        assert (app + e.file)[|app|..] == e.file && (app + file)[|app|..] == file;
      }
    }

    /** What the unpacked delta holds does not change. */
    lemma DeltaIsKept(t0: Node, t: Node, file: Path)
      requires Independent(context.pkgPath, context.unpackedDirPath)
      requires Independent(backupTempDir, context.unpackedDirPath)
      requires Journalled(t0, t, context.pkgPath, backupTempDir, filesToAdd, successModifications)
      ensures FileAt(t, context.unpackedDirPath + file) == FileAt(t0, context.unpackedDirPath + file)
    {
      var app, unzip := context.pkgPath, context.unpackedDirPath;
      Under(backupTempDir, unzip, file);
      forall e | e in successModifications ensures app + e.file != unzip + file {
        Under(app, unzip, file);
        assert app <= app + e.file;
      }
    }

    lemma AppliedKept(t0: Node, t: Node, t': Node, journal: seq<Entry>)
      requires Independent(backupTempDir, context.pkgPath)
      requires forall q | !(backupTempDir <= q) :: FileAt(t', q) == FileAt(t, q)
      ensures Applied(t0, t, context.pkgPath, context.unpackedDirPath, journal) ==>
        Applied(t0, t', context.pkgPath, context.unpackedDirPath, journal)
    {
      forall e | e in journal ensures FileAt(t', context.pkgPath + e.file) == FileAt(t, context.pkgPath + e.file) {
        Under(backupTempDir, context.pkgPath, e.file);
      }
    }

    lemma Earlier(earlier: seq<Entry>, e: Entry)
      requires successModifications == earlier + [e]
      ensures successModifications[..|successModifications| - 1] == earlier
      ensures successModifications[|successModifications| - 1] == e && e in successModifications
    {
    }

    /** The file is in the delta and nothing is in its place or in its way. */
    ghost predicate Addable(t: Node, file: Path)
      reads context
    {
      IsFile(t, context.unpackedDirPath + file) && context.pkgPath + file != [] &&
      !Exists(t, context.pkgPath + file) && Clear(t, Parent(context.pkgPath + file))
    }

    /** From a to b the file was added, with the directories above it, and nothing else happened. */
    ghost predicate OneAdded(a: Node, b: Node, file: Path)
      reads context
    {
      (forall q ::
         FileAt(b, q) ==
         if q == context.pkgPath + file then FileAt(a, context.unpackedDirPath + file) else FileAt(a, q)) &&
      (forall q | IsDir(a, q) :: IsDir(b, q)) &&
      forall q | IsDir(b, q) :: IsDir(a, q) || (q <= context.pkgPath + file && q != context.pkgPath + file)
    }

    /** The holder of a file that can be added is there in the end, and the file can be copied into it. */
    lemma HolderIsClear(t: Node, made: Node, file: Path)
      requires Addable(t, file)
      requires forall q :: FileAt(made, q) == FileAt(t, q)
      requires forall q | IsDir(made, q) :: IsDir(t, q) || q <= Parent(context.pkgPath + file)
      requires forall q | IsDir(t, q) :: IsDir(made, q)
      ensures ClearWay(t, Parent(context.pkgPath + file))
      ensures Exists(t, Parent(context.pkgPath + file)) ==> IsDir(made, Parent(context.pkgPath + file))
      ensures IsFile(made, context.unpackedDirPath + file) && !Exists(made, context.pkgPath + file)
    {
      var dest := context.pkgPath + file;
      ClearIsClearWay(t, Parent(dest));
      assert FileAt(t, Parent(dest)) == None;
      assert FileAt(made, context.unpackedDirPath + file) == FileAt(t, context.unpackedDirPath + file);
      assert FileAt(made, dest) == FileAt(t, dest) == None;
      assert !IsDir(t, dest) && !(dest <= Parent(dest));
    }

    lemma AddedOne(t: Node, made: Node, now: Node, file: Path)
      requires Addable(t, file)
      requires forall q :: FileAt(made, q) == FileAt(t, q)
      requires forall q | IsDir(made, q) :: IsDir(t, q) || q <= Parent(context.pkgPath + file)
      requires forall q | IsDir(t, q) :: IsDir(made, q)
      requires OnlyFile(made, now, context.pkgPath + file)
      requires FileAt(now, context.pkgPath + file) == FileAt(made, context.unpackedDirPath + file)
      ensures OneAdded(t, now, file)
    {
      hide Get, IsDir, FileAt;
    }

    /** CreateDir of the directory a file is added to. */
    method MakeHolder(file: Path, ghost t0: Node) returns (ok: bool)
      requires Ready()
      modifies fs`root, fs`log
      ensures Ready() && old(fs.log) <= fs.log
      ensures forall q :: FileAt(fs.root, q) == old(FileAt(fs.root, q))
      ensures forall q :: old(IsDir(fs.root, q)) ==> IsDir(fs.root, q)
      ensures forall q :: IsDir(fs.root, q) ==> old(IsDir(fs.root, q)) || q <= Parent(context.pkgPath + file)
      ensures var holder := Parent(context.pkgPath + file);
        !fs.faulty && old(!Exists(fs.root, holder) && ClearWay(fs.root, holder)) ==> ok && IsDir(fs.root, holder)
      ensures old(Guarded(t0)) && file in filesToAdd ==> Guarded(t0)
    {
      hide Cut, Put, Get, MakeDirs, ClearWay, Journalled, Restorable;
      var holder := Parent(context.pkgPath + file);
      ok := fs.CreateDir(holder);
      ghost var k :| 0 <= k <= |holder| && fs.root == MakeDirs(old(fs.root), holder[..k]);
      forall q
        ensures FileAt(fs.root, q) == old(FileAt(fs.root, q)) && (old(IsDir(fs.root, q)) ==> IsDir(fs.root, q))
        ensures IsDir(fs.root, q) ==> old(IsDir(fs.root, q)) || q <= holder
      {
        MakeDirsPoint(old(fs.root), holder[..k], q);
      }
      if !fs.faulty && old(!Exists(fs.root, holder) && ClearWay(fs.root, holder)) {
        MakeDirsPoint(old(fs.root), holder, holder);
      }
      if old(Guarded(t0)) && file in filesToAdd {
        forall q | q <= holder[..k] ensures Grown(context.pkgPath, filesToAdd, q) {
          assert q <= context.pkgPath + file && |q| < |context.pkgPath + file|;
        }
        DirsKept(t0, old(fs.root), fs.root, context.pkgPath, backupTempDir, filesToAdd, successModifications,
                 holder[..k]);
      }
    }

    /** The directory a file is added to is made unless there is something. */
    method Hold(file: Path, ghost t0: Node) returns (ok: bool)
      requires Ready() && context.pkgPath + file != []
      modifies fs`root, fs`log
      ensures Ready() && old(fs.log) <= fs.log
      ensures forall q :: FileAt(fs.root, q) == old(FileAt(fs.root, q))
      ensures forall q :: old(IsDir(fs.root, q)) ==> IsDir(fs.root, q)
      ensures forall q :: IsDir(fs.root, q) ==> old(IsDir(fs.root, q)) || q <= Parent(context.pkgPath + file)
      ensures old(Guarded(t0)) && file in filesToAdd ==> Guarded(t0)
      ensures old(IsFile(fs.root, context.pkgPath + file)) ==> ok && fs.root == old(fs.root)
      ensures !fs.faulty && old(Addable(fs.root, file)) ==>
        ok && IsDir(fs.root, Parent(context.pkgPath + file)) &&
        IsFile(fs.root, context.unpackedDirPath + file) && !Exists(fs.root, context.pkgPath + file)
    {
      hide Cut, Put, Get, MakeDirs, Journalled, Restorable, Clear, ClearWay;
      var destination := context.pkgPath + file;
      ghost var addable, start := Addable(fs.root, file), fs.root;
      if addable {
        HolderIsClear(start, start, file);
      }
      if IsFile(start, destination) {
        PrefixIsDir(start, Parent(destination), destination);
      }
      ok := true;
      if !Exists(fs.root, Parent(destination)) {
        ok := MakeHolder(file, t0);
      }
      if addable {
        HolderIsClear(start, fs.root, file);
      }
    }

    /** One round of AddFiles. */
    method AddFile(file: Path, ghost t0: Node) returns (ok: bool)
      requires Ready()
      modifies fs`root, fs`log, this`successModifications
      ensures Ready() && old(fs.log) <= fs.log
      ensures ok ==> successModifications == old(successModifications) + [Entry(file, ADD)]
      ensures old(Due(t0, file, ADD)) ==> Guarded(t0) && InTurn(ADD)
      ensures old(Due(t0, file, ADD) && AllApplied(t0)) && ok ==> AllApplied(t0)
      ensures !fs.faulty && old(Addable(fs.root, file)) ==> ok && OneAdded(old(fs.root), fs.root, file)
      ensures old(IsFile(fs.root, context.pkgPath + file)) ==>
        !ok && fs.root == old(fs.root) && successModifications == old(successModifications) + [Entry(file, ADD)]
      ensures old(IsDir(fs.root, context.pkgPath + file)) ==> ok && fs.root == old(fs.root)
    {
      hide Cut, Put, Get, MakeDirs, Journalled, Restorable, Applied, Clear, OneAdded, Independent;
      ok := PerformBackup(file, ADD, t0, t0, 0);
      if !ok {
        return;
      }
      if old(Due(t0, file, ADD)) {
        NoListedDirectory(t0, fs.root, file, ADD);
      }
      if IsDir(fs.root, context.pkgPath + file) {
        return true;
      }
      Earlier(old(successModifications), Entry(file, ADD));
      ok := AddNew(file, t0, old(successModifications));
    }

    lemma NewFileKept(t0: Node, start: Node, made: Node, now: Node, file: Path, earlier: seq<Entry>)
      requires context.pkgPath != [] && Independent(backupTempDir, context.pkgPath)
      requires Independent(context.pkgPath, context.unpackedDirPath)
      requires Independent(backupTempDir, context.unpackedDirPath)
      requires successModifications == earlier + [Entry(file, ADD)] && Entry(file, DELETE) !in earlier
      requires forall q :: FileAt(made, q) == FileAt(start, q)
      requires Journalled(t0, made, context.pkgPath, backupTempDir, filesToAdd, successModifications)
      requires OnlyFile(made, now, context.pkgPath + file)
      ensures Journalled(t0, now, context.pkgPath, backupTempDir, filesToAdd, successModifications)
      ensures Applied(t0, start, context.pkgPath, context.unpackedDirPath, earlier) &&
              FileAt(now, context.pkgPath + file).Some? &&
              FileAt(now, context.pkgPath + file) == FileAt(made, context.unpackedDirPath + file)
        ==> Applied(t0, now, context.pkgPath, context.unpackedDirPath, successModifications)
    {
      hide Journalled, Applied, OnlyFile, Get, IsDir, FileAt;
      EditedLast(t0, made, now, file, ADD);
      DeltaIsKept(t0, made, file);
      AppliedKept(t0, start, made, earlier);
      Earlier(earlier, Entry(file, ADD));
    }

    ghost predicate EarlierApplied(t0: Node, earlier: seq<Entry>)
      reads context, fs
    {
      Applied(t0, fs.root, context.pkgPath, context.unpackedDirPath, earlier)
    }

    /** The part for a file that is not a directory. */
    method AddNew(file: Path, ghost t0: Node, ghost earlier: seq<Entry>) returns (ok: bool)
      requires Ready() && !IsDir(fs.root, context.pkgPath + file)
      requires successModifications == earlier + [Entry(file, ADD)]
      modifies fs`root, fs`log
      ensures Ready() && old(fs.log) <= fs.log
      ensures old(Guarded(t0) && InTurn(ADD)) && file in filesToAdd ==> Guarded(t0)
      ensures ok && file in filesToAdd && old(Guarded(t0) && InTurn(ADD) && EarlierApplied(t0, earlier)) ==>
        AllApplied(t0)
      ensures !fs.faulty && old(Addable(fs.root, file)) ==> ok && OneAdded(old(fs.root), fs.root, file)
      ensures old(IsFile(fs.root, context.pkgPath + file)) ==> !ok && fs.root == old(fs.root)
    {
      hide Cut, Put, Get, MakeDirs, Journalled, Restorable, Applied, Clear, ClearWay, OneAdded, OnlyFile, Grown;
      var destination := context.pkgPath + file;
      ghost var careful := Guarded(t0) && InTurn(ADD) && file in filesToAdd;
      ghost var addable, start := Addable(fs.root, file), fs.root;
      if careful {
        assert forall e | e in earlier :: e in successModifications;
        NoListedDirectory(t0, start, file, ADD);
      }
      ok := Hold(file, t0);
      if !ok {
        return;
      }
      ghost var made := fs.root;
      ok := fs.CopyFile(context.unpackedDirPath + file, destination, false);
      if ok || fs.root != made {
        CopyIsOnlyFile(made, fs.root, destination);
        if careful {
          NewFileKept(t0, start, made, fs.root, file, earlier);
        }
        if addable && ok {
          AddedOne(start, made, fs.root, file);
        }
      }
    }

    /** One round of ModifyFiles. */
    method ModifyFile(file: Path, ghost t0: Node, ghost t1: Node, ghost n: nat) returns (ok: bool)
      requires Ready()
      modifies fs`root, fs`log, this`successModifications
      ensures Ready() && old(fs.log) <= fs.log
      ensures ok ==> successModifications == old(successModifications) + [Entry(file, MODIFY)]
      ensures old(Due(t0, file, MODIFY)) ==> Guarded(t0) && InTurn(MODIFY)
      ensures old(Due(t0, file, MODIFY) && AllApplied(t0)) && ok ==> AllApplied(t0)
      ensures old(Next(t1, n, file)) && n < |filesToModify| ==>
        ok == Changeable(t1, n) && (ok ==> OnCourse(t1, n + 1)) &&
        successModifications == old(successModifications) + if Saveable(t1, n) then [Entry(file, MODIFY)] else []
      ensures old(IsDir(fs.root, context.pkgPath + file)) ==> !ok
    {
      hide Cut, Put, Get, MakeDirs, Journalled, Restorable, Applied, ChangedUpTo, OnlyFile, AddsFirst;
      var destination := context.pkgPath + file;
      ok := PerformBackup(file, MODIFY, t0, t1, n);
      if !ok {
        return;
      }
      ghost var saved := fs.root;
      ghost var next := old(Next(t1, n, file)) && n < |filesToModify|;
      if next {
        ChangeFinds(t1, saved, n);
      }
      ok := fs.CopyFile(context.unpackedDirPath + file, destination, true);
      if ok || fs.root != saved {
        CopyIsOnlyFile(saved, fs.root, destination);
        if next {
          ChangeOnCourse(t1, saved, fs.root, n);
        }
        if old(Due(t0, file, MODIFY)) {
          Earlier(old(successModifications), Entry(file, MODIFY));
          EditedLast(t0, saved, fs.root, file, MODIFY);
          DeltaIsKept(t0, saved, file);
          AppliedKept(t0, old(fs.root), saved, old(successModifications));
        }
      }
    }

    /** bf::remove of the file or directory that was saved since the tree `before`. */
    method DropTarget(file: Path, ghost before: Node) returns (ok: bool)
      requires Ready() && IsDir(before, backupTempDir)
      modifies fs`root, fs`log
      ensures Ready() && old(fs.log) <= fs.log
      ensures if ok then fs.root == Cut(old(fs.root), context.pkgPath + file) else fs.root == old(fs.root)
      ensures !fs.faulty ==> ok == old(CanRemove(fs.root, context.pkgPath + file))
      ensures old(DirectorySaved(before, fs.root, file)) ==>
        old(CanRemove(fs.root, context.pkgPath + file)) == CanRemove(before, context.pkgPath + file) &&
        (ok ==> DirectoryDropped(before, fs.root, file))
    {
      hide Cut, Put, Get, DirectorySaved, DirectoryDropped, CanRemove;
      SomewhereElse();
      ghost var saved := fs.root;
      if DirectorySaved(before, saved, file) {
        StillVacant(before, saved, file);
      }
      ok := fs.Remove(context.pkgPath + file);
      StillReady(saved, context.pkgPath + file);
      if DirectorySaved(before, saved, file) {
        DirectoryGone(before, saved, fs.root, file, ok);
      }
    }

    /** One round of DeleteFiles. */
    method DeleteFile(file: Path, ghost t0: Node, ghost t1: Node, ghost n: nat) returns (ok: bool)
      requires Ready()
      modifies fs`root, fs`log, this`successModifications
      ensures Ready() && old(fs.log) <= fs.log
      ensures ok ==> successModifications == old(successModifications) + [Entry(file, DELETE)]
      ensures old(Due(t0, file, DELETE)) ==> Guarded(t0) && InTurn(DELETE)
      ensures old(Due(t0, file, DELETE) && AllApplied(t0)) && ok ==> AllApplied(t0)
      ensures old(Next(t1, n, file)) && n >= |filesToModify| ==>
        ok == Changeable(t1, n) && (ok ==> OnCourse(t1, n + 1)) &&
        successModifications == old(successModifications) + if Saveable(t1, n) then [Entry(file, DELETE)] else []
      ensures !fs.faulty && old(IsDir(fs.root, context.pkgPath + file) && Clear(fs.root, backupTempDir + file)) ==>
        ok == old(CanRemove(fs.root, context.pkgPath + file)) &&
        (ok ==> DirectoryDropped(old(fs.root), fs.root, file))
    {
      hide DirectorySaved, DirectoryDropped, Clear, CanRemove;
      hide Cut, Put, Get, MakeDirs, Journalled, Restorable, Applied, ChangedUpTo, OnlyFile, AddsFirst;
      var destination := context.pkgPath + file;
      ok := PerformBackup(file, DELETE, t0, t1, n);
      if !ok {
        return;
      }
      ghost var saved := fs.root;
      ghost var next := old(Next(t1, n, file)) && n >= |filesToModify|;
      if next {
        ChangeFinds(t1, saved, n);
      }
      ok := DropTarget(file, old(fs.root));
      if !ok {
        return;
      }
      ghost var due := old(Due(t0, file, DELETE));
      if due {
        NoListedDirectory(t0, saved, file, DELETE);
      }
      if next || due {
        CutIsOnlyFile(saved, destination);
      }
      if next {
        ChangeOnCourse(t1, saved, fs.root, n);
      }
      if due {
        Earlier(old(successModifications), Entry(file, DELETE));
        EditedLast(t0, saved, fs.root, file, DELETE);
        AppliedKept(t0, old(fs.root), saved, old(successModifications));
      }
    }

    /** A directory has one like it in the backup, and nothing else is different. */
    ghost predicate DirectorySaved(t: Node, saved: Node, file: Path)
      reads this`backupTempDir, context`pkgPath
    {
      (forall q :: FileAt(saved, q) == FileAt(t, q)) && (forall q | IsDir(t, q) :: IsDir(saved, q)) &&
      (forall q | IsDir(saved, q) :: IsDir(t, q) || q <= backupTempDir + file) &&
      IsDir(t, context.pkgPath + file) && IsDir(t, backupTempDir) && IsDir(saved, backupTempDir + file)
    }

    /** The directory is gone, the one in the backup is there, and nothing else is different. */
    ghost predicate DirectoryDropped(t: Node, now: Node, file: Path)
      reads this`backupTempDir, context`pkgPath
    {
      (forall q :: FileAt(now, q) == FileAt(t, q)) && IsDir(now, backupTempDir + file) &&
      forall q | !(backupTempDir <= q) :: IsDir(now, q) == (q != context.pkgPath + file && IsDir(t, q))
    }

    /** A directory that is removed, after one like it was made in the backup. */
    lemma StillVacant(t: Node, saved: Node, file: Path)
      requires Apart(backupTempDir) && DirectorySaved(t, saved, file)
      ensures CanRemove(saved, context.pkgPath + file) == CanRemove(t, context.pkgPath + file)
    {
      hide Get, IsDir, FileAt;
      var p := context.pkgPath + file;
      VacantIff(t, p);
      VacantIff(saved, p);
      forall n ensures Exists(saved, p + [n]) == Exists(t, p + [n]) {
        assert p + [n] == context.pkgPath + (file + [n]);
        NotInBackup(file + [n], file);
        ThereIff(t, p + [n]);
        ThereIff(saved, p + [n]);
      }
    }

    lemma NotInBackup(r: Path, file: Path)
      requires Apart(backupTempDir)
      ensures !(context.pkgPath + r <= backupTempDir + file) && !(backupTempDir <= context.pkgPath + r)
    {
      Under(backupTempDir, context.pkgPath, r);
      Under(context.pkgPath, backupTempDir, file);
    }

    lemma DirectoryGone(t: Node, saved: Node, now: Node, file: Path, ok: bool)
      requires Apart(backupTempDir) && context.pkgPath != [] && DirectorySaved(t, saved, file)
      requires if ok then CanRemove(saved, context.pkgPath + file) && now == Cut(saved, context.pkgPath + file)
        else now == saved
      ensures ok ==> DirectoryDropped(t, now, file)
    {
      hide Get, Cut;
      var p := context.pkgPath + file;
      NotInBackup(file, file);
      if ok {
        forall q ensures FileAt(now, q) == FileAt(t, q) && IsDir(now, q) == (q != p && IsDir(saved, q)) {
          CutPoint(saved, p, q);
          if p <= q && q != p {
            EmptyBelow(saved, p, q);
          }
        }
        forall q | !(backupTempDir <= q) && IsDir(saved, q) ensures IsDir(t, q) {
          if q <= backupTempDir + file {
            assert q <= backupTempDir;
            PrefixIsDir(t, q, backupTempDir);
          }
        }
      }
    }

    lemma EmptyBelow(t: Node, p: Path, q: Path)
      requires CanRemove(t, p) && p <= q && p != q
      ensures !Exists(t, q)
    {
      assert q == p + q[|p|..];
      GetAppend(t, p, q[|p|..]);
    }

    /** Deleting an empty directory and undoing that: it is there again, and nothing has changed. */
    method DeleteDirectoryAndUndo(file: Path) returns (deleted: bool, restored: bool)
      requires Ready() && !fs.faulty && successModifications == []
      requires IsDir(fs.root, context.pkgPath + file) && CanRemove(fs.root, context.pkgPath + file)
      requires Clear(fs.root, backupTempDir + file)
      modifies fs`root, fs`log, this`successModifications
      ensures deleted && restored
      ensures forall q | !(backupTempDir <= q) ::
        FileAt(fs.root, q) == old(FileAt(fs.root, q)) && IsDir(fs.root, q) == old(IsDir(fs.root, q))
    {
      hide Cut, Put, Get, MakeDirs, Journalled, Restorable, Applied, AddsFirst, Independent, RestoreEntry;
      ghost var t, p := fs.root, context.pkgPath + file;
      SomewhereElse();
      deleted := DeleteFile(file, t, t, 0);
      ghost var gone := fs.root;
      forall q | q <= p ensures FileAt(gone, q) == None && (q != p ==> IsDir(t, q)) {
        if q != p {
          PrefixIsDir(t, q, p);
        }
      }
      DirectoryEntries(gone, context.pkgPath, backupTempDir, file);
      restored := RestoreFiles();
      assert successModifications == [Entry(file, DELETE)] && successModifications[1..] == [];
      ghost var r := RestoreEntry(gone, context.pkgPath, backupTempDir, Entry(file, DELETE)).value;
      assert Restore(r, context.pkgPath, backupTempDir, successModifications[1..]) == Some(r);
      forall q | !(backupTempDir <= q)
        ensures FileAt(fs.root, q) == FileAt(t, q) && IsDir(fs.root, q) == IsDir(t, q)
      {
        CutPoint(r, backupTempDir, q);
      }
    }

    lemma SomewhereElse()
      requires Ready()
      ensures context.pkgPath != [] && backupTempDir != []
    {
    }

    /** What the next change finds once the old content is safe. */
    lemma ChangeFinds(t1: Node, t: Node, n: nat)
      requires Ready() && n < |Changes()| && ChangedUpTo(t1, t, n, n + 1) && Saveable(t1, n)
      requires !IsDir(t1, context.pkgPath + Changes()[n])
      ensures var file := Changes()[n];
        FileAt(t, context.unpackedDirPath + file) == FileAt(t1, context.unpackedDirPath + file) &&
        IsFile(t, context.pkgPath + file) && IsDir(t, Parent(context.pkgPath + file)) &&
        CanRemove(t, context.pkgPath + file)
    {
      hide Get;
      var app, unzip, file := context.pkgPath, context.unpackedDirPath, Changes()[n];
      Under(backupTempDir, app, file);
      Under(backupTempDir, unzip, file);
      Under(app, unzip, file);
      forall r | r in Changes()[..n] ensures app + file != app + r && unzip + file != app + r {
        assert (app + file)[|app|..] == file && (app + r)[|app|..] == r && app <= app + r;
      }
      PrefixIsDir(t, Parent(app + file), app + file);
    }

    /** The next change itself. */
    lemma ChangeOnCourse(t1: Node, t: Node, now: Node, n: nat)
      requires Independent(backupTempDir, context.pkgPath)
      requires n < |Changes()| && ChangedUpTo(t1, t, n, n + 1) && OnlyFile(t, now, context.pkgPath + Changes()[n])
      ensures ChangedUpTo(t1, now, n + 1, n + 1)
    {
      hide Get, IsDir, FileAt;
      var app, tmp, file := context.pkgPath, backupTempDir, Changes()[n];
      assert Changes()[..n + 1] == Changes()[..n] + [file];
      Under(tmp, app, file);
      assert forall g :: tmp <= tmp + g;
    }

    lemma StillReady(t: Node, p: Path)
      requires backupTempDir != [] && context.pkgPath <= p && Independent(context.pkgPath, backupTempDir)
      requires IsDir(t, backupTempDir)
      ensures IsDir(Cut(t, p), backupTempDir)
    {
      CutPoint(t, p, backupTempDir);
    }

    /** From a to b the first n files were added, with the directories above them, and nothing else happened. */
    ghost predicate AddedUpTo(a: Node, b: Node, n: nat)
      requires n <= |filesToAdd|
      reads context
    {
      var app, unzip := context.pkgPath, context.unpackedDirPath;
      (forall q | (forall r | r in filesToAdd[..n] :: q != app + r) :: FileAt(b, q) == FileAt(a, q)) &&
      (forall r | r in filesToAdd[..n] :: FileAt(b, app + r).Some?) &&
      (forall q | IsDir(a, q) :: IsDir(b, q)) &&
      forall q | IsDir(b, q) :: IsDir(a, q) || Grown(app, filesToAdd, q)
    }

    /** The next file can be added if it is not there yet, and is there if it was. */
    lemma NextFile(a: Node, b: Node, n: nat)
      requires n < |filesToAdd| && Supplied(a) && AddedUpTo(a, b, n)
      requires Independent(context.pkgPath, context.unpackedDirPath)
      ensures FileAt(b, context.unpackedDirPath + filesToAdd[n]).Some?
      ensures !Exists(a, context.pkgPath + filesToAdd[n]) ==> Addable(b, filesToAdd[n])
      ensures Exists(a, context.pkgPath + filesToAdd[n]) ==>
        IsFile(a, context.pkgPath + filesToAdd[n]) && IsFile(b, context.pkgPath + filesToAdd[n])
    {
      var app, unzip, file := context.pkgPath, context.unpackedDirPath, filesToAdd[n];
      var dest := app + file;
      assert file in filesToAdd;
      forall r | r in filesToAdd[..n] ensures dest != app + r && unzip + file != app + r {
        assert dest[|app|..] == file && (app + r)[|app|..] == r;
        Under(app, unzip, file);
        assert app <= app + r;
      }
      assert FileAt(b, unzip + file) == FileAt(a, unzip + file) && FileAt(b, dest) == FileAt(a, dest);
      assert !IsDir(b, dest);
      assert Exists(a, dest) <==> FileAt(a, dest).Some?;
      assert Exists(b, dest) <==> FileAt(b, dest).Some?;
      forall q | q <= Parent(dest) ensures FileAt(b, q) == None {
        assert FileAt(a, q) == None;
        assert q <= dest && q != dest;
        forall r | r in filesToAdd[..n] ensures q != app + r {
          assert r in filesToAdd && !Grown(app, filesToAdd, app + r);
        }
      }
    }

    lemma OneMoreAdded(a: Node, b: Node, c: Node, n: nat)
      requires n < |filesToAdd| && AddedUpTo(a, b, n) && OneAdded(b, c, filesToAdd[n])
      requires FileAt(b, context.unpackedDirPath + filesToAdd[n]).Some?
      ensures AddedUpTo(a, c, n + 1)
    {
      hide Get, IsDir, FileAt;
      assert filesToAdd[..n + 1] == filesToAdd[..n] + [filesToAdd[n]];
      assert filesToAdd[n] in filesToAdd;
    }

    /** A run without faults stops adding at the first file that was there. */
    ghost predicate StoppedAt(a: Node, b: Node, journal: seq<Entry>, k: nat)
      requires k < |filesToAdd|
      reads context
    {
      IsFile(a, context.pkgPath + filesToAdd[k]) && AddedUpTo(a, b, k) && journal == EntriesOf(filesToAdd[..k + 1], ADD)
    }

    method AddFiles(ghost t0: Node) returns (ok: bool)
      requires Ready()
      modifies fs`root, fs`log, this`successModifications
      ensures Ready() && old(fs.log) <= fs.log
      ensures !fs.faulty && old(Supplied(fs.root) && successModifications == []) ==>
        if ok then old(NoneThere(fs.root)) && AddedUpTo(old(fs.root), fs.root, |filesToAdd|)
        else exists k | 0 <= k < |filesToAdd| :: StoppedAt(old(fs.root), fs.root, successModifications, k)
      ensures old(Guarded(t0) && InTurn(ADD)) ==> Guarded(t0) && InTurn(ADD)
      ensures old(Guarded(t0) && InTurn(ADD) && AllApplied(t0)) && ok ==> AllApplied(t0)
      ensures ok ==> successModifications == old(successModifications) + EntriesOf(filesToAdd, ADD)
    {
      hide Cut, Put, Get, MakeDirs, Journalled, Restorable, Applied, Supplied, Addable, OneAdded, Independent;
      assert EntriesOf(filesToAdd[..0], ADD) == [];
      ghost var start := fs.root;
      for i := 0 to |filesToAdd|
        invariant Ready() && old(fs.log) <= fs.log
        invariant old(Guarded(t0) && InTurn(ADD)) ==> Guarded(t0) && InTurn(ADD)
        invariant old(Guarded(t0) && InTurn(ADD) && AllApplied(t0)) ==> AllApplied(t0)
        invariant successModifications == old(successModifications) + EntriesOf(filesToAdd[..i], ADD)
        invariant !fs.faulty && Supplied(start) ==>
          AddedUpTo(start, fs.root, i) && forall r | r in filesToAdd[..i] :: !Exists(start, context.pkgPath + r)
      {
        ghost var before := fs.root;
        if !fs.faulty && Supplied(start) {
          NextFile(start, before, i);
        }
        assert filesToAdd[..i + 1] == filesToAdd[..i] + [filesToAdd[i]];
        assert EntriesOf(filesToAdd[..i + 1], ADD) == EntriesOf(filesToAdd[..i], ADD) + [Entry(filesToAdd[i], ADD)];
        ok := AddFile(filesToAdd[i], t0);
        if !fs.faulty && Supplied(start) {
          if Exists(start, context.pkgPath + filesToAdd[i]) {
            assert old(successModifications) == [] ==> StoppedAt(start, fs.root, successModifications, i);
          } else {
            OneMoreAdded(start, before, fs.root, i);
          }
        }
        if !ok {
          return;
        }
        assert EntriesOf(filesToAdd[..i + 1], ADD) == EntriesOf(filesToAdd[..i], ADD) + [Entry(filesToAdd[i], ADD)];
      }
      assert filesToAdd[..|filesToAdd|] == filesToAdd;
      return true;
    }

    /** Before the request the same can be said of a file that is there or is going to be added. */
    ghost predicate ToSave(t0: Node, n: nat)
      requires n < |Changes()|
      reads context`pkgPath
    {
      (FileAt(t0, context.pkgPath + Changes()[n]).Some? || Changes()[n] in filesToAdd) &&
      Changes()[n] !in Changes()[..n]
    }

    ghost predicate ToChange(t0: Node, n: nat)
      requires n < |Changes()|
      reads context`pkgPath, context`unpackedDirPath
    {
      ToSave(t0, n) && (n < |filesToModify| ==> FileAt(t0, context.unpackedDirPath + Changes()[n]).Some?)
    }

    /** All changes can be made. */
    ghost predicate AllToChange(t0: Node)
      reads context`pkgPath, context`unpackedDirPath
    {
      forall n | 0 <= n < |Changes()| :: ToChange(t0, n)
    }

    /** No added file is changed before a change that cannot be made. */
    ghost predicate Unmixed(t0: Node)
      reads context`pkgPath, context`unpackedDirPath
    {
      forall i, k | 0 <= i <= k < |Changes()| && Changes()[i] in filesToAdd && !ToChange(t0, k) ::
        exists j | 0 <= j < i :: !ToChange(t0, j)
    }

    /** The package is there, and the backup is empty. */
    ghost predicate Fresh(t0: Node)
      reads this`backupTempDir, context`pkgPath
    {
      IsDir(t0, context.pkgPath) && (forall g :: FileAt(t0, backupTempDir + g) == None) &&
      forall g | IsDir(t0, backupTempDir + g) :: g == []
    }

    /** A run without faults, of which all files were added, stopped at change k. */
    ghost predicate Stops(t0: Node, journal: seq<Entry>, k: nat)
      reads context`pkgPath, context`unpackedDirPath
    {
      k < |Changes()| && (forall i | 0 <= i < k :: ToChange(t0, i)) && !ToChange(t0, k) &&
      journal == EntriesOf(filesToAdd, ADD) + ChangeEntries()[..if ToSave(t0, k) then k + 1 else k]
    }

    /** When all files are added, the changes begin. */
    lemma AddedStarts(t0: Node, t1: Node)
      requires Ready() && Sound(t0) && Fresh(t0) && AddedUpTo(t0, t1, |filesToAdd|)
      ensures ChangedUpTo(t1, t1, 0, 0) && forall r | r in Changes() :: !IsDir(t1, context.pkgPath + r)
    {
      hide Get, FileAt, IsDir;
      var app, tmp := context.pkgPath, backupTempDir;
      forall g ensures FileAt(t1, tmp + g) == None && (IsDir(t1, tmp + g) ==> g == []) {
        forall r | r in filesToAdd[..|filesToAdd|] ensures tmp + g != app + r {
          Under(tmp, app, r);
          assert tmp <= tmp + g;
        }
        if IsDir(t1, tmp + g) && g != [] {
          var r :| r in filesToAdd && tmp + g <= app + r;
          Under(tmp, app, r);
        }
      }
      assert app + [] == app;
    }

    /** What can be changed then is what could be said before. */
    lemma AddedChangeable(t0: Node, t1: Node, n: nat)
      requires Ready() && AddedUpTo(t0, t1, |filesToAdd|) && n < |Changes()|
      ensures Saveable(t1, n) == ToSave(t0, n) && Changeable(t1, n) == ToChange(t0, n)
    {
      hide Get, FileAt, IsDir;
      var app, unzip, file := context.pkgPath, context.unpackedDirPath, Changes()[n];
      assert filesToAdd[..|filesToAdd|] == filesToAdd;
      forall r | r in filesToAdd ensures unzip + file != app + r && (app + file == app + r ==> file == r) {
        Under(app, unzip, file);
        assert app <= app + r && (app + file)[|app|..] == file && (app + r)[|app|..] == r;
      }
    }

    lemma HaltedStops(t0: Node, t1: Node, journal: seq<Entry>, k: nat)
      requires Ready() && AddedUpTo(t0, t1, |filesToAdd|) && k < |Changes()|
      requires Halted(t1, EntriesOf(filesToAdd, ADD), journal, k)
      ensures Stops(t0, journal, k)
    {
      hide Saveable, ToSave, Changeable, ToChange, AddedUpTo;
      forall i | 0 <= i <= k ensures Changeable(t1, i) == ToChange(t0, i) && Saveable(t1, i) == ToSave(t0, i) {
        AddedChangeable(t0, t1, i);
      }
    }

    lemma JournalMixed(journal: seq<Entry>, m: nat)
      requires m <= |ChangeEntries()| && journal == EntriesOf(filesToAdd, ADD) + ChangeEntries()[..m]
      ensures Mixed(filesToAdd, journal) <==> exists i | 0 <= i < m :: Changes()[i] in filesToAdd
    {
      var adds, changes := EntriesOf(filesToAdd, ADD), ChangeEntries();
      forall i | 0 <= i < |changes| ensures changes[i].file == Changes()[i] && changes[i].op != ADD {
      }
      if Mixed(filesToAdd, journal) {
        var e :| e in journal && e.op != ADD && e.file in filesToAdd;
        var i :| 0 <= i < |journal| && journal[i] == e;
        assert i >= |adds| && journal[i] == changes[i - |adds|];
        assert Changes()[i - |adds|] in filesToAdd;
      }
      if i :| 0 <= i < m && Changes()[i] in filesToAdd {
        assert journal[|adds| + i] == changes[i];
        assert changes[i] in journal;
      }
    }

    /** Where a run without faults stops decides whether an added file has been changed. */
    lemma StopsMixed(t0: Node, journal: seq<Entry>, k: nat)
      requires Stops(t0, journal, k)
      ensures Mixed(filesToAdd, journal) <==> !Unmixed(t0)
      ensures !AllToChange(t0)
    {
      hide FileAt, ChangeEntries, EntriesOf, Mixed;
      ChangeEntriesAll();
      var m := if ToSave(t0, k) then k + 1 else k;
      JournalMixed(journal, m);
      if i :| 0 <= i < m && Changes()[i] in filesToAdd {
        assert i <= k && !ToChange(t0, k);
        assert !Unmixed(t0);
      } else {
        assert Changes()[k] !in filesToAdd by {
          if Changes()[k] in Changes()[..k] {
            var c :| 0 <= c < k && Changes()[c] == Changes()[k];
          }
        }
        forall i, n | 0 <= i <= n < |Changes()| && Changes()[i] in filesToAdd && !ToChange(t0, n)
          ensures exists j | 0 <= j < i :: !ToChange(t0, j)
        {
          assert !ToChange(t0, k) && k < i;
        }
      }
    }

    lemma ChangeEntriesAll()
      ensures |ChangeEntries()| == |Changes()|
    {
    }

    lemma EntriesSoFar(k: nat)
      requires k < |Changes()|
      ensures var m := |filesToModify|;
        ChangeEntries()[..k] ==
          (if k <= m then EntriesOf(filesToModify[..k], MODIFY)
           else EntriesOf(filesToModify, MODIFY) + EntriesOf(filesToDelete[..k - m], DELETE)) &&
        ChangeEntries()[..k + 1] == ChangeEntries()[..k] + [Entry(Changes()[k], if k < m then MODIFY else DELETE)]
    {
      var m := |filesToModify|;
      if k <= m {
        assert ChangeEntries()[..k] == EntriesOf(filesToModify[..k], MODIFY);
      } else {
        assert ChangeEntries()[..k] == EntriesOf(filesToModify, MODIFY) + EntriesOf(filesToDelete[..k - m], DELETE);
      }
    }

    /** A run without faults that has made the first k changes. */
    ghost predicate Going(t1: Node, earlier: seq<Entry>, k: nat)
      reads this`backupTempDir, this`successModifications, context, fs
    {
      k <= |Changes()| && OnCourse(t1, k) && (forall i | 0 <= i < k :: Changeable(t1, i)) &&
      successModifications == earlier + ChangeEntries()[..k]
    }

    /** What one more change makes of it. */
    lemma GoesOn(t1: Node, earlier: seq<Entry>, before: seq<Entry>, k: nat, ok: bool)
      requires k < |Changes()| && (forall i | 0 <= i < k :: Changeable(t1, i)) && ok == Changeable(t1, k)
      requires before == earlier + ChangeEntries()[..k] && (ok ==> OnCourse(t1, k + 1))
      requires successModifications == before +
        if Saveable(t1, k) then [Entry(Changes()[k], if k < |filesToModify| then MODIFY else DELETE)] else []
      ensures if ok then Going(t1, earlier, k + 1) else Halted(t1, earlier, successModifications, k)
    {
      hide ChangedUpTo;
      EntriesSoFar(k);
      assert ok ==> Saveable(t1, k);
    }

    method ModifyFiles(ghost t0: Node, ghost t1: Node, ghost earlier: seq<Entry>) returns (ok: bool)
      requires Ready()
      modifies fs`root, fs`log, this`successModifications
      ensures Ready() && old(fs.log) <= fs.log
      ensures old(Guarded(t0) && InTurn(MODIFY)) ==> Guarded(t0) && InTurn(MODIFY)
      ensures old(Guarded(t0) && InTurn(MODIFY) && AllApplied(t0)) && ok ==> AllApplied(t0)
      ensures ok ==> successModifications == old(successModifications) + EntriesOf(filesToModify, MODIFY)
      ensures old(Going(t1, earlier, 0)) ==>
        if ok then Going(t1, earlier, |filesToModify|)
        else exists k | 0 <= k < |Changes()| :: Halted(t1, earlier, successModifications, k)
    {
      hide Cut, Put, Get, MakeDirs, Journalled, Restorable, Applied, ChangedUpTo, Changeable, Saveable, AddsFirst;
      hide Halted, ChangeEntries;
      assert EntriesOf(filesToModify[..0], MODIFY) == [];
      for i := 0 to |filesToModify|
        invariant Ready() && old(fs.log) <= fs.log
        invariant old(Guarded(t0) && InTurn(MODIFY)) ==> Guarded(t0) && InTurn(MODIFY)
        invariant old(Guarded(t0) && InTurn(MODIFY) && AllApplied(t0)) ==> AllApplied(t0)
        invariant successModifications == old(successModifications) + EntriesOf(filesToModify[..i], MODIFY)
        invariant old(Going(t1, earlier, 0)) ==> Going(t1, earlier, i)
      {
        assert filesToModify[i] == Changes()[i];
        ghost var before := successModifications;
        ok := ModifyFile(filesToModify[i], t0, t1, i);
        if old(Going(t1, earlier, 0)) {
          GoesOn(t1, earlier, before, i, ok);
        }
        if !ok {
          return;
        }
        assert EntriesOf(filesToModify[..i + 1], MODIFY) ==
          EntriesOf(filesToModify[..i], MODIFY) + [Entry(filesToModify[i], MODIFY)];
      }
      assert filesToModify[..|filesToModify|] == filesToModify;
      return true;
    }

    method DeleteFiles(ghost t0: Node, ghost t1: Node, ghost earlier: seq<Entry>) returns (ok: bool)
      requires Ready()
      modifies fs`root, fs`log, this`successModifications
      ensures Ready() && old(fs.log) <= fs.log
      ensures old(Guarded(t0) && InTurn(DELETE)) ==> Guarded(t0) && InTurn(DELETE)
      ensures old(Guarded(t0) && InTurn(DELETE) && AllApplied(t0)) && ok ==> AllApplied(t0)
      ensures ok ==> successModifications == old(successModifications) + EntriesOf(filesToDelete, DELETE)
      ensures old(Going(t1, earlier, |filesToModify|)) ==>
        if ok then Going(t1, earlier, |Changes()|)
        else exists k | 0 <= k < |Changes()| :: Halted(t1, earlier, successModifications, k)
    {
      hide Cut, Put, Get, MakeDirs, Journalled, Restorable, Applied, ChangedUpTo, Changeable, Saveable, AddsFirst;
      hide Halted, ChangeEntries;
      assert EntriesOf(filesToDelete[..0], DELETE) == [];
      for i := 0 to |filesToDelete|
        invariant Ready() && old(fs.log) <= fs.log
        invariant old(Guarded(t0) && InTurn(DELETE)) ==> Guarded(t0) && InTurn(DELETE)
        invariant old(Guarded(t0) && InTurn(DELETE) && AllApplied(t0)) ==> AllApplied(t0)
        invariant successModifications == old(successModifications) + EntriesOf(filesToDelete[..i], DELETE)
        invariant old(Going(t1, earlier, |filesToModify|)) ==> Going(t1, earlier, |filesToModify| + i)
      {
        ghost var k, before := |filesToModify| + i, successModifications;
        assert filesToDelete[i] == Changes()[k];
        ok := DeleteFile(filesToDelete[i], t0, t1, k);
        if old(Going(t1, earlier, |filesToModify|)) {
          GoesOn(t1, earlier, before, k, ok);
        }
        if !ok {
          return;
        }
        assert EntriesOf(filesToDelete[..i + 1], DELETE) ==
          EntriesOf(filesToDelete[..i], DELETE) + [Entry(filesToDelete[i], DELETE)];
      }
      assert filesToDelete[..|filesToDelete|] == filesToDelete;
      return true;
    }

    /** The backup directory is a new one with a unique name. */
    method SetUpTempBackupDir(unique: Path) returns (ok: bool)
      requires fs.Valid() && unique != []
      modifies fs`root, fs`log, this`backupTempDir
      ensures fs.Valid() && old(fs.log) <= fs.log && backupTempDir == unique
      ensures exists k | 0 <= k <= |unique| :: fs.root == MakeDirs(old(fs.root), unique[..k])
      ensures ok && !old(Exists(fs.root, unique)) ==> IsDir(fs.root, unique)
      ensures !fs.faulty && old(!Exists(fs.root, unique) && Clear(fs.root, unique)) ==> ok
    {
      backupTempDir := unique;
      if Clear(fs.root, unique) {
        ClearIsClearWay(fs.root, unique);
      }
      ok := fs.CreateDir(unique);
      MakeDirsPoint(old(fs.root), unique, unique);
    }

    /** All edits of the lists have been made in the package, and nothing else. */
    ghost predicate Edited(t0: Node, t: Node)
      reads this, context
    {
      forall r :: FileAt(t, context.pkgPath + r) ==
        if r in filesToDelete then None
        else if r in filesToModify || r in filesToAdd then FileAt(t0, context.unpackedDirPath + r)
        else FileAt(t0, context.pkgPath + r)
    }

    lemma AppliedIsEdited(t0: Node, t: Node)
      requires Independent(backupTempDir, context.pkgPath)
      requires successModifications ==
        EntriesOf(filesToAdd, ADD) + EntriesOf(filesToModify, MODIFY) + EntriesOf(filesToDelete, DELETE)
      requires Applied(t0, t, context.pkgPath, context.unpackedDirPath, successModifications)
      requires Journalled(t0, t, context.pkgPath, backupTempDir, filesToAdd, successModifications)
      ensures Edited(t0, t)
    {
      hide Get;
      var app, j := context.pkgPath, successModifications;
      forall r
        ensures FileAt(t, app + r) ==
          if r in filesToDelete then None
          else if r in filesToModify || r in filesToAdd then FileAt(t0, context.unpackedDirPath + r)
          else FileAt(t0, app + r)
      {
        Under(backupTempDir, app, r);
        if r in filesToDelete {
          InJournal(filesToDelete, DELETE, r);
          assert Entry(r, DELETE) in j;
        } else if r in filesToModify {
          InJournal(filesToModify, MODIFY, r);
          assert Entry(r, MODIFY) in j;
        } else if r in filesToAdd {
          InJournal(filesToAdd, ADD, r);
          assert Entry(r, ADD) in j;
        } else {
          forall e | e in j ensures app + e.file != app + r {
            assert (app + e.file)[|app|..] == e.file && (app + r)[|app|..] == r;
          }
        }
      }
    }

    lemma NothingApplied(t: Node)
      ensures Applied(t, t, context.pkgPath, context.unpackedDirPath, [])
    {
    }

    lemma InJournal(files: seq<Path>, op: Operation, r: Path)
      requires r in files
      ensures Entry(r, op) in EntriesOf(files, op)
    {
      var i :| 0 <= i < |files| && files[i] == r;
      assert EntriesOf(files, op)[i] == Entry(r, op);
    }

    ghost predicate Apart(tmp: Path)
      reads context
    {
      var app, unzip := context.pkgPath, context.unpackedDirPath;
      Independent(tmp, app) && Independent(app, tmp) && Independent(app, unzip) && Independent(tmp, unzip)
    }

    /** Also returns the tree the editing started from: the old one, with the backup directory. */
    method Process(unique: Path) returns (status: Status, ghost t0: Node)
      requires fs.Valid() && Apart(unique) && successModifications == [] && !Exists(fs.root, unique)
      modifies fs`root, fs`log, this
      ensures fs.Valid() && old(fs.log) <= fs.log && backupTempDir == unique
      ensures forall q :: FileAt(t0, q) == old(FileAt(fs.root, q)) && (old(IsDir(fs.root, q)) ==> IsDir(t0, q))
      ensures Restorable(old(fs.root)) ==> Guarded(t0)
      ensures Restorable(old(fs.root)) && status == OK ==> Edited(t0, fs.root)
      ensures !fs.faulty && old(Supplied(fs.root) && !NoneThere(fs.root) && Clear(fs.root, unique)) ==>
        status != OK && Supplied(t0) &&
        exists k | 0 <= k < |filesToAdd| :: StoppedAt(t0, fs.root, successModifications, k)
      ensures !fs.faulty && old(Promising(fs.root, unique)) && old(NoneThere(fs.root)) ==>
        if status == OK then AllToChange(old(fs.root)) else exists k :: Stops(old(fs.root), successModifications, k)
    {
      hide Cut, Put, Get, MakeDirs, Edited, Restorable, Supplied, NoneThere, StoppedAt, Clear, AllToChange, Stops;
      hide Sound, Fresh;
      var ok := SetUpTempBackupDir(unique);
      t0 := fs.root;
      ghost var k :| 0 <= k <= |unique| && t0 == MakeDirs(old(fs.root), unique[..k]);
      StillRestorable(old(fs.root), t0, unique[..k]);
      StillPredictable(old(fs.root), t0, unique[..k]);
      if !ok {
        return ERROR, t0;
      }
      status := Edit(t0);
      StillPredictable(old(fs.root), t0, unique[..k]);
    }

    lemma StillRestorable(t: Node, t0: Node, p: Path)
      requires t0 == MakeDirs(t, p) && Apart(backupTempDir) && p <= backupTempDir
      ensures forall q :: FileAt(t0, q) == FileAt(t, q) && (IsDir(t, q) ==> IsDir(t0, q))
      ensures Restorable(t) ==> Restorable(t0)
      ensures NoneThere(t0) == NoneThere(t) && (Supplied(t) ==> Supplied(t0))
    {
      hide Cut, Put, Get, MakeDirs;
      forall q ensures FileAt(t0, q) == FileAt(t, q) && IsDir(t0, q) == (IsDir(t, q) || (ClearWay(t, p) && q <= p)) {
        MakeDirsPoint(t, p, q);
      }
      var app := context.pkgPath;
      forall r ensures Exists(t0, app + r) == Exists(t, app + r) && IsDir(t0, app + r) == IsDir(t, app + r) {
        Under(backupTempDir, app, r);
        assert Exists(t0, app + r) <==> FileAt(t0, app + r).Some? || IsDir(t0, app + r);
        assert Exists(t, app + r) <==> FileAt(t, app + r).Some? || IsDir(t, app + r);
      }
      if Supplied(t) {
        StillSupplied(t, t0);
      }
    }

    /** What the outcome of a run without faults can be told from: the lists are sound, the delta has what is added,
        the package is there, and no file is in the way of the backup. */
    ghost predicate Promising(t: Node, unique: Path)
      reads context
    {
      Sound(t) && Supplied(t) && Clear(t, unique) && IsDir(t, context.pkgPath)
    }

    lemma StillPredictable(t: Node, t0: Node, p: Path)
      requires t0 == MakeDirs(t, p) && Apart(backupTempDir) && p <= backupTempDir && !Exists(t, backupTempDir)
      ensures Sound(t) ==> Sound(t0)
      ensures IsDir(t, context.pkgPath) ==> Fresh(t0)
      ensures forall n | 0 <= n < |Changes()| :: ToSave(t0, n) == ToSave(t, n) && ToChange(t0, n) == ToChange(t, n)
      ensures AllToChange(t0) == AllToChange(t)
      ensures forall j, k :: Stops(t0, j, k) == Stops(t, j, k)
    {
      hide Cut, Put, Get, MakeDirs;
      var app, tmp := context.pkgPath, backupTempDir;
      forall q ensures FileAt(t0, q) == FileAt(t, q) && IsDir(t0, q) == (IsDir(t, q) || (ClearWay(t, p) && q <= p)) {
        MakeDirsPoint(t, p, q);
      }
      forall r ensures IsDir(t0, app + r) == IsDir(t, app + r) {
        Under(tmp, app, r);
      }
      forall g ensures FileAt(t0, tmp + g) == None && (IsDir(t0, tmp + g) ==> g == []) {
        if g != [] {
          NothingBelowFile(t, tmp, tmp + g);
        }
        assert g == [] ==> tmp + g == tmp;
        NothingThere(t, tmp + g);
        assert tmp + g <= p ==> |g| == 0;
      }
      assert app + [] == app;
      forall n | 0 <= n < |Changes()| ensures ToSave(t0, n) == ToSave(t, n) && ToChange(t0, n) == ToChange(t, n) {
        assert FileAt(t0, app + Changes()[n]) == FileAt(t, app + Changes()[n]);
      }
    }

    lemma StillSupplied(t: Node, t0: Node)
      requires Supplied(t)
      requires forall q :: FileAt(t0, q) == FileAt(t, q)
      requires forall r :: IsDir(t0, context.pkgPath + r) == IsDir(t, context.pkgPath + r)
      ensures Supplied(t0)
    {
      hide Get;
      var app, unzip := context.pkgPath, context.unpackedDirPath;
      forall r | r in filesToAdd
        ensures IsFile(t0, unzip + r) && !IsDir(t0, app + r) && Clear(t0, Parent(app + r))
      {
        assert FileAt(t0, unzip + r) == FileAt(t, unzip + r);
        forall q | q <= Parent(app + r) ensures FileAt(t0, q) == None {
          assert FileAt(t, q) == None;
        }
      }
    }

    lemma AllInTurn()
      ensures forall r | r in filesToAdd :: Entry(r, ADD) in EntriesOf(filesToAdd, ADD)
    {
      forall r | r in filesToAdd ensures Entry(r, ADD) in EntriesOf(filesToAdd, ADD) {
        InJournal(filesToAdd, ADD, r);
      }
    }

    /** A request whose outcome without faults is known beforehand. */
    ghost predicate Predictable(t0: Node)
      reads this`backupTempDir, context
    {
      Supplied(t0) && Sound(t0) && NoneThere(t0) && Fresh(t0)
    }

    /** AddFiles, ModifyFiles and DeleteFiles, each only after the one before succeeded. */
    method Edit(ghost t0: Node) returns (status: Status)
      requires Ready() && t0 == fs.root && successModifications == []
      modifies fs`root, fs`log, this`successModifications
      ensures Ready() && old(fs.log) <= fs.log
      ensures Restorable(t0) ==> Guarded(t0)
      ensures Restorable(t0) && status == OK ==> Edited(t0, fs.root)
      ensures !fs.faulty && Supplied(t0) && !NoneThere(t0) ==>
        status != OK && exists k | 0 <= k < |filesToAdd| :: StoppedAt(t0, fs.root, successModifications, k)
      ensures !fs.faulty && Predictable(t0) ==>
        if status == OK then AllToChange(t0) else exists k :: Stops(t0, successModifications, k)
    {
      hide Cut, Put, Get, MakeDirs, Restorable, Edited, Supplied, NoneThere, StoppedAt, Journalled, Applied, Sound;
      hide AddedUpTo, Stops, Fresh, ToChange, Going, Halted;
      NothingJournalled(t0, context.pkgPath, backupTempDir, filesToAdd);
      NothingApplied(t0);
      var ok := AddFiles(t0);
      if !ok {
        NotAllAdded(t0);
        return ERROR;
      }
      ghost var t1, adds := fs.root, EntriesOf(filesToAdd, ADD);
      AllInTurn();
      if !fs.faulty && Predictable(t0) {
        Begins(t0);
      }
      ok := MakeChanges(t0, t1, adds);
      status := if ok then OK else ERROR;
      if !fs.faulty && Predictable(t0) {
        if ok {
          AllChanged(t0, t1);
        } else {
          var k :| 0 <= k < |Changes()| && Halted(t1, adds, successModifications, k);
          HaltedStops(t0, t1, successModifications, k);
        }
      }
      if ok && Restorable(t0) {
        AppliedIsEdited(t0, fs.root);
      }
    }

    lemma NotAllAdded(t0: Node)
      ensures forall b, j: seq<Entry>, k: nat | k < |filesToAdd| && StoppedAt(t0, b, j, k) :: !NoneThere(t0)
    {
      forall b, j: seq<Entry>, k: nat | k < |filesToAdd| && StoppedAt(t0, b, j, k) ensures !NoneThere(t0) {
        assert filesToAdd[k] in filesToAdd;
      }
    }

    lemma Begins(t0: Node)
      requires Ready() && Sound(t0) && Fresh(t0) && AddedUpTo(t0, fs.root, |filesToAdd|) && !fs.faulty
      requires successModifications == EntriesOf(filesToAdd, ADD)
      ensures Going(fs.root, EntriesOf(filesToAdd, ADD), 0)
    {
      hide ChangedUpTo, AddedUpTo, Sound, Fresh;
      AddedStarts(t0, fs.root);
    }

    lemma AllChanged(t0: Node, t1: Node)
      requires Ready() && AddedUpTo(t0, t1, |filesToAdd|) && Going(t1, EntriesOf(filesToAdd, ADD), |Changes()|)
      ensures AllToChange(t0)
    {
      hide AddedUpTo, ToChange, Changeable;
      forall n | 0 <= n < |Changes()| ensures ToChange(t0, n) {
        AddedChangeable(t0, t1, n);
      }
    }

    method MakeChanges(ghost t0: Node, ghost t1: Node, ghost adds: seq<Entry>) returns (ok: bool)
      requires Ready() && successModifications == adds
      modifies fs`root, fs`log, this`successModifications
      ensures Ready() && old(fs.log) <= fs.log
      ensures old(Guarded(t0) && InTurn(MODIFY)) ==> Guarded(t0)
      ensures old(Guarded(t0) && InTurn(MODIFY) && AllApplied(t0)) && ok ==> AllApplied(t0)
      ensures ok ==>
        successModifications == adds + EntriesOf(filesToModify, MODIFY) + EntriesOf(filesToDelete, DELETE)
      ensures old(Going(t1, adds, 0)) ==>
        if ok then Going(t1, adds, |Changes()|)
        else exists k | 0 <= k < |Changes()| :: Halted(t1, adds, successModifications, k)
    {
      hide Cut, Put, Get, MakeDirs, Restorable, Journalled, Applied, AddsFirst, Going, Halted;
      ok := ModifyFiles(t0, t1, adds);
      if ok {
        ok := DeleteFiles(t0, t1, adds);
      }
    }

    /** The package is the old one with the lists applied, or the old one. */
    ghost predicate AllOrNothing(t0: Node, t: Node, status: Status, tmp: Path)
      reads this, context
    {
      if status == OK then Edited(t0, t)
      else forall q | !(tmp <= q) :: FileAt(t, q) == FileAt(t0, q) && (IsDir(t0, q) ==> IsDir(t, q))
    }

    /** The whole step: wherever a fault stops it, undoing it brings every file of the package back if and only if no
        added file has been changed; without one the package is the old one with the lists applied.  A run without
        faults is all or nothing if and only if no file is there yet where one is to be added, and no added file is
        changed before a change that cannot be made. */
    method ProcessOrUndo(unique: Path) returns (status: Status, undone: bool)
      requires fs.Valid() && Apart(unique) && successModifications == [] && !Exists(fs.root, unique)
      modifies fs, this
      ensures fs.Valid()
      ensures Restorable(old(fs.root)) ==>
        (AllOrNothing(old(fs.root), fs.root, status, unique) <==>
         status == OK || !Mixed(filesToAdd, successModifications))
      ensures Restorable(old(fs.root)) && status != OK ==> undone && !Exists(fs.root, unique)
      ensures !old(fs.faulty) && old(Promising(fs.root, unique)) ==>
        (status == OK <==> old(NoneThere(fs.root)) && AllToChange(old(fs.root))) &&
        (AllOrNothing(old(fs.root), fs.root, status, unique) <==>
         old(NoneThere(fs.root)) && Unmixed(old(fs.root)))
      ensures !old(fs.faulty) && old(Promising(fs.root, unique)) && old(NoneThere(fs.root)) && status != OK ==>
        exists k :: Stops(old(fs.root), successModifications, k)
      ensures Restorable(old(fs.root)) && status != OK ==>
        forall r | r in filesToAdd ::
          FileAt(fs.root, context.pkgPath + r) == None <==> !ChangedIn(successModifications, r)
    {
      hide Cut, Put, Get, MakeDirs, Restorable, Journalled, Restore, Supplied, NoneThere, StoppedAt, Clear, Mixed;
      hide OldFiles, OldDirs, AllToChange, Unmixed, Stops, Sound, AddsFirst;
      ghost var t0;
      ghost var before, promising := fs.root, !fs.faulty && Promising(fs.root, unique);
      ghost var doomed := promising && !NoneThere(fs.root);
      RestorableIs(fs.root);
      status, t0 := Process(unique);
      undone := false;
      ghost var k: nat := 0;
      if doomed {
        k :| 0 <= k < |filesToAdd| && StoppedAt(t0, fs.root, successModifications, k);
      } else if promising && status != OK {
        k :| Stops(before, successModifications, k);
        StopsMixed(before, successModifications, k);
      } else if promising {
        AllIsUnmixed(before);
      }
      if status != OK {
        fs.faulty := false;
        ghost var stopped := fs.root;
        undone := RestoreFiles();
        if Restorable(before) {
          RestoreAll(t0, stopped, context.pkgPath, unique, filesToAdd, successModifications);
          BackupGone(before, t0, Restore(stopped, context.pkgPath, unique, successModifications).value, unique);
          AddedGone(before, t0, stopped, unique);
        }
        if doomed {
          OldFileIsLost(t0, stopped, unique, k);
        } else if promising {
          assert Stops(before, successModifications, k);
        }
      }
    }

    predicate ChangedIn(journal: seq<Entry>, file: Path) {
      exists e | e in journal :: e.file == file && e.op != ADD
    }

    lemma AddedGone(before: Node, t0: Node, t: Node, tmp: Path)
      requires Independent(tmp, context.pkgPath) && Independent(context.pkgPath, tmp) && Restorable(t0)
      requires Journalled(t0, t, context.pkgPath, tmp, filesToAdd, successModifications)
      requires AddsFirst(filesToAdd, successModifications)
      ensures var u := Restore(t, context.pkgPath, tmp, successModifications);
        u.Some? &&
        forall r | r in filesToAdd ::
          FileAt(Cut(u.value, tmp), context.pkgPath + r) == None <==> !ChangedIn(successModifications, r)
    {
      hide Cut, Put, Get, Journalled, AddsFirst, Restore, FileAt;
      RestoreAll(t0, t, context.pkgPath, tmp, filesToAdd, successModifications);
      var u := Restore(t, context.pkgPath, tmp, successModifications).value;
      forall r | r in filesToAdd
        ensures FileAt(Cut(u, tmp), context.pkgPath + r) == None <==> !ChangedIn(successModifications, r)
      {
        AddedIsGoneIff(t0, t, context.pkgPath, tmp, filesToAdd, successModifications, r);
        Under(tmp, context.pkgPath, r);
        CutPoint(u, tmp, context.pkgPath + r);
      }
    }

    /** Such a request: an added file is changed, and a later change cannot be made.  Undone, the file stays. */
    method LeaveAdded(unique: Path, i: nat, k: nat) returns (status: Status, undone: bool)
      requires fs.Valid() && Apart(unique) && successModifications == [] && !Exists(fs.root, unique)
      requires !fs.faulty && Promising(fs.root, unique) && NoneThere(fs.root)
      requires i < k < |Changes()| && Changes()[i] in filesToAdd
      requires (forall j | 0 <= j < k :: ToChange(fs.root, j)) && !ToChange(fs.root, k)
      modifies fs, this
      ensures status != OK && undone
      ensures
        var file := context.pkgPath + Changes()[i];
        old(FileAt(fs.root, file)) == None && FileAt(fs.root, file).Some?
    {
      hide Cut, Put, Get, Supplied, Clear, ToChange, FileAt;
      ghost var before, file := fs.root, context.pkgPath + Changes()[i];
      NothingThere(before, file);
      status, undone := ProcessOrUndo(unique);
      ghost var n :| Stops(before, successModifications, n);
      assert n == k;
      ghost var e := ChangeEntries()[i];
      assert successModifications[|EntriesOf(filesToAdd, ADD)| + i] == e && e.file == Changes()[i] && e.op != ADD;
      assert e in successModifications;
    }

    lemma AllIsUnmixed(t: Node)
      requires AllToChange(t)
      ensures Unmixed(t)
    {
    }

    lemma RestorableIs(t: Node)
      ensures Restorable(t) == (Sound(t) && NoneThere(t))
    {
    }

    lemma OldFileIsLost(t0: Node, t: Node, tmp: Path, k: nat)
      requires k < |filesToAdd| && Supplied(t0) && StoppedAt(t0, t, successModifications, k)
      requires Independent(tmp, context.pkgPath)
      ensures var u, lost := Restore(t, context.pkgPath, tmp, successModifications), context.pkgPath + filesToAdd[k];
        u.Some? && FileAt(Cut(u.value, tmp), lost) == None && FileAt(t0, lost).Some? && !(tmp <= lost)
    {
      var app, files := context.pkgPath, filesToAdd[..k + 1];
      forall r | r in files ensures !IsDir(t, app + r) {
        assert r in filesToAdd;
      }
      AddsAreRemoved(t, app, tmp, files);
      assert files[k] in files;
      Under(tmp, app, filesToAdd[k]);
      CutPoint(Restore(t, app, tmp, successModifications).value, tmp, app + filesToAdd[k]);
    }

    lemma BackupGone(before: Node, t0: Node, t: Node, tmp: Path)
      requires tmp != [] && OldDirs(t0, t, context.pkgPath, tmp, filesToAdd)
      requires forall q :: FileAt(t0, q) == FileAt(before, q) && (IsDir(before, q) ==> IsDir(t0, q))
      ensures !Exists(Cut(t, tmp), tmp)
      ensures OldFiles(t0, t, tmp) <==> forall q | !(tmp <= q) ::
        FileAt(Cut(t, tmp), q) == FileAt(before, q) && (IsDir(before, q) ==> IsDir(Cut(t, tmp), q))
    {
      hide Cut, Put, Get;
      GetCut(t, tmp);
      forall q | !(tmp <= q)
        ensures FileAt(Cut(t, tmp), q) == FileAt(t, q) && (IsDir(before, q) ==> IsDir(Cut(t, tmp), q))
      {
        CutPoint(t, tmp, q);
      }
    }
  }
}
