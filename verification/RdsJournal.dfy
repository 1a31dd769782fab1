/** The journal of StepRDSModify: what it promises while a package is edited file by file, and why playing it
    back restores the package. */
module RdsJournal {
  import opened FileTree
  import opened FileEdits
  import opened FileSystem

  datatype Operation = ADD | MODIFY | DELETE

  datatype Entry = Entry(file: Path, op: Operation)

  function EntriesOf(files: seq<Path>, op: Operation): seq<Entry> {
    seq(|files|, i requires 0 <= i < |files| => Entry(files[i], op))
  }

  /** One round of RestoreFiles: None where the original throws. */
  function RestoreEntry(t: Node, app: Path, tmp: Path, e: Entry): Option<Node>
    requires app != []
  {
    var source, destination := tmp + e.file, app + e.file;
    if e.op == ADD then
      if IsDir(t, source) || CanRemove(t, destination) then Some(Cut(t, destination)) else None
    else if e.op == DELETE && IsDir(t, source) then
      Some(if Exists(t, destination) then t else MakeDirs(t, destination))
    else if CanCopy(t, source, destination, true) then
      Some(Put(t, destination, Get(t, source).value))
    else None
  }

  /** The journal is played forwards. */
  function Restore(t: Node, app: Path, tmp: Path, journal: seq<Entry>): Option<Node>
    requires app != []
    decreases |journal|
  {
    if journal == [] then Some(t)
    else
      var next := RestoreEntry(t, app, tmp, journal[0]);
      if next.None? then None else Restore(next.value, app, tmp, journal[1..])
  }

  function Targets(app: Path, journal: seq<Entry>): set<Path> {
    set e | e in journal :: app + e.file
  }

  /** A directory that exists only because a file is to be added below it. */
  ghost predicate Grown(app: Path, adds: seq<Path>, q: Path) {
    exists s | s in adds :: q <= app + s && q != app + s
  }

  ghost predicate Safe(t0: Node, t: Node, app: Path, tmp: Path, adds: seq<Path>, file: Path) {
    FileAt(t, tmp + file).Some? && app + file != [] && IsDir(t, Parent(app + file)) &&
    (file !in adds ==> FileAt(t, tmp + file) == FileAt(t0, app + file))
  }

  /** What the journal promises while the tree t0 is being edited into t: a path it does not name is as it
      was; one to be modified or deleted has a copy in the backup, which is its old content unless it was added
      before; one to be added did not exist; and no directory is lost or appears, but above added files. */
  ghost predicate Journalled(t0: Node, t: Node, app: Path, tmp: Path, adds: seq<Path>, journal: seq<Entry>) {
    (forall q | !(tmp <= q) && q !in Targets(app, journal) :: FileAt(t, q) == FileAt(t0, q)) &&
    (forall e | e in journal && e.op != ADD :: Safe(t0, t, app, tmp, adds, e.file)) &&
    (forall e | e in journal && e.op == ADD :: e.file in adds) &&
    (forall e | e in journal && e.file in adds :: !Exists(t0, app + e.file)) &&
    (forall q | !(tmp <= q) && IsDir(t0, q) :: IsDir(t, q)) &&
    (forall q | !(tmp <= q) && IsDir(t, q) :: IsDir(t0, q) || Grown(app, adds, q)) &&
    forall e | e in journal :: !Grown(app, adds, app + e.file)
  }

  /** Every journalled change has been made; what was added or modified may have been deleted since. */
  ghost predicate Applied(t0: Node, t: Node, app: Path, unzip: Path, journal: seq<Entry>) {
    forall e | e in journal ::
      if Entry(e.file, DELETE) in journal then FileAt(t, app + e.file) == None
      else FileAt(t, app + e.file).Some? && FileAt(t, app + e.file) == FileAt(t0, unzip + e.file)
  }

  lemma NothingJournalled(t: Node, app: Path, tmp: Path, adds: seq<Path>)
    ensures Journalled(t, t, app, tmp, adds, [])
  {
  }

  /** A journal without directories, in which all that was modified or deleted has a copy to come back from. */
  ghost predicate Playable(t: Node, app: Path, tmp: Path, journal: seq<Entry>) {
    forall e | e in journal ::
      !IsDir(t, app + e.file) &&
      (e.op != ADD ==> FileAt(t, tmp + e.file).Some? && app + e.file != [] && IsDir(t, Parent(app + e.file)))
  }

  /** The file at q by the last entry that names it: nothing if that is an addition, else what the backup has. */
  function LastWord(t: Node, app: Path, tmp: Path, journal: seq<Entry>, q: Path): Option<string>
    decreases |journal|
  {
    if journal == [] then FileAt(t, q)
    else
      var n := |journal| - 1;
      if app + journal[n].file != q then LastWord(t, app, tmp, journal[..n], q)
      else if journal[n].op == ADD then None
      else FileAt(t, tmp + journal[n].file)
  }

  lemma {:induction false} RestoreSnoc(t: Node, app: Path, tmp: Path, journal: seq<Entry>, e: Entry)
    requires app != []
    ensures var r := Restore(t, app, tmp, journal);
      Restore(t, app, tmp, journal + [e]) == if r.None? then None else RestoreEntry(r.value, app, tmp, e)
    decreases |journal|
  {
    if journal == [] {
      assert ([] + [e])[1..] == [];
    } else {
      assert (journal + [e])[1..] == journal[1..] + [e];
      var next := RestoreEntry(t, app, tmp, journal[0]);
      if next.Some? {
        RestoreSnoc(next.value, app, tmp, journal[1..], e);
      }
    }
  }

  /** One entry of such a journal. */
  lemma RestoreOne(t: Node, app: Path, tmp: Path, e: Entry)
    requires Independent(tmp, app) && Independent(app, tmp) && Playable(t, app, tmp, [e])
    ensures var r := RestoreEntry(t, app, tmp, e);
      r.Some? && (forall q :: IsDir(r.value, q) == IsDir(t, q)) &&
      forall q :: FileAt(r.value, q) ==
        if q != app + e.file then FileAt(t, q) else if e.op == ADD then None else FileAt(t, tmp + e.file)
  {
    hide Cut, Put, Get;
    var source, dest := tmp + e.file, app + e.file;
    assert e in [e];
    if e.op == ADD {
      CutIsOnlyFile(t, dest);
    } else {
      var n := Get(t, source).value;
      GetPut(t, dest, n);
      CutPut(t, dest, n);
      CopyIsOnlyFile(t, Put(t, dest, n), dest);
    }
  }

  /** Playing such a journal forwards succeeds, and at each file the last entry that names it decides. */
  lemma {:induction false} RestoreLast(t: Node, app: Path, tmp: Path, journal: seq<Entry>)
    requires Independent(tmp, app) && Independent(app, tmp) && Playable(t, app, tmp, journal)
    ensures var r := Restore(t, app, tmp, journal);
      r.Some? && (forall q :: IsDir(r.value, q) == IsDir(t, q)) &&
      forall q :: FileAt(r.value, q) == LastWord(t, app, tmp, journal, q)
    decreases |journal|
  {
    hide Cut, Put, Get, FileAt, IsDir, RestoreEntry;
    if journal != [] {
      var n := |journal| - 1;
      var e := journal[n];
      assert journal == journal[..n] + [e] && e in journal;
      RestoreLast(t, app, tmp, journal[..n]);
      RestoreSnoc(t, app, tmp, journal[..n], e);
      var r := Restore(t, app, tmp, journal[..n]).value;
      forall d | d in journal[..n] ensures app + d.file != tmp + e.file {
        Under(tmp, app, d.file);
        assert tmp <= tmp + e.file;
      }
      NotNamed(t, app, tmp, journal[..n], tmp + e.file);
      RestoreOne(r, app, tmp, e);
    }
  }

  lemma {:induction false} NotNamed(t: Node, app: Path, tmp: Path, journal: seq<Entry>, q: Path)
    requires forall e | e in journal :: app + e.file != q
    ensures LastWord(t, app, tmp, journal, q) == FileAt(t, q)
    decreases |journal|
  {
    if journal != [] {
      NotNamed(t, app, tmp, journal[..|journal| - 1], q);
    }
  }

  /** The entry that decides a file that is named. */
  lemma {:induction false} LastEntry(t: Node, app: Path, tmp: Path, journal: seq<Entry>, file: Path) returns (i: nat)
    requires exists e :: e in journal && e.file == file
    ensures i < |journal| && journal[i].file == file && forall j | i < j < |journal| :: journal[j].file != file
    ensures LastWord(t, app, tmp, journal, app + file) == if journal[i].op == ADD then None else FileAt(t, tmp + file)
    decreases |journal|
  {
    var n := |journal| - 1;
    assert journal == journal[..n] + [journal[n]];
    if journal[n].file == file {
      i := n;
    } else {
      assert (app + journal[n].file)[|app|..] == journal[n].file && (app + file)[|app|..] == file;
      i := LastEntry(t, app, tmp, journal[..n], file);
    }
  }

  /** A file that was to be added is changed by a later entry. */
  predicate Mixed(adds: seq<Path>, journal: seq<Entry>) {
    exists e | e in journal :: e.op != ADD && e.file in adds
  }

  /** The tree t holds the files of t0, outside the backup directory, and at most some new empty directories. */
  ghost predicate SameFiles(t0: Node, t: Node, app: Path, tmp: Path, adds: seq<Path>) {
    OldFiles(t0, t, tmp) && OldDirs(t0, t, app, tmp, adds)
  }

  ghost predicate OldFiles(t0: Node, t: Node, tmp: Path) {
    forall q | !(tmp <= q) :: FileAt(t, q) == FileAt(t0, q)
  }

  ghost predicate OldDirs(t0: Node, t: Node, app: Path, tmp: Path, adds: seq<Path>) {
    forall q | !(tmp <= q) :: (IsDir(t0, q) ==> IsDir(t, q)) && (IsDir(t, q) ==> IsDir(t0, q) || Grown(app, adds, q))
  }

  lemma JournalPlays(t0: Node, t: Node, app: Path, tmp: Path, adds: seq<Path>, journal: seq<Entry>)
    requires Independent(tmp, app) && Independent(app, tmp) && Journalled(t0, t, app, tmp, adds, journal)
    ensures Playable(t, app, tmp, journal)
  {
    hide Get;
    forall e | e in journal ensures !IsDir(t, app + e.file) {
      Under(tmp, app, e.file);
    }
  }

  /** The adding comes first, and a file that was to be added is changed only behind its addition. */
  predicate AddsFirst(adds: seq<Path>, journal: seq<Entry>) {
    (forall i, j | 0 <= i < j < |journal| && journal[j].op == ADD :: journal[i].op == ADD) &&
    forall e | e in journal && e.op != ADD && e.file in adds :: Entry(e.file, ADD) in journal
  }

  /** From wherever the editing stopped, playing the journal forwards succeeds.  It brings every file back if and
      only if no added file has been changed since. */
  lemma RestoreAll(t0: Node, t: Node, app: Path, tmp: Path, adds: seq<Path>, journal: seq<Entry>)
    requires Independent(tmp, app) && Independent(app, tmp) && Journalled(t0, t, app, tmp, adds, journal)
    requires AddsFirst(adds, journal)
    ensures var r := Restore(t, app, tmp, journal);
      r.Some? && OldDirs(t0, r.value, app, tmp, adds) && (OldFiles(t0, r.value, tmp) <==> !Mixed(adds, journal))
  {
    hide Get, FileAt, Restore, IsDir, Grown;
    JournalPlays(t0, t, app, tmp, adds, journal);
    RestoreLast(t, app, tmp, journal);
    var r := Restore(t, app, tmp, journal).value;
    if Mixed(adds, journal) {
      var e :| e in journal && e.op != ADD && e.file in adds;
      var i := LastEntry(t, app, tmp, journal, e.file);
      assert journal[i].op != ADD;
      NothingThere(t0, app + e.file);
      Under(tmp, app, e.file);
      assert Safe(t0, t, app, tmp, adds, e.file);
      assert FileAt(r, app + e.file) != FileAt(t0, app + e.file);
    } else {
      forall q | !(tmp <= q) ensures FileAt(r, q) == FileAt(t0, q) {
        if e :| e in journal && app + e.file == q {
          var i := LastEntry(t, app, tmp, journal, e.file);
          NothingThere(t0, q);
          assert journal[i] in journal;
        } else {
          NotNamed(t, app, tmp, journal, q);
        }
      }
    }
  }

  lemma NothingThere(t: Node, p: Path)
    ensures !Exists(t, p) ==> FileAt(t, p) == None
  {
  }

  /** After the undoing of a request an added file is gone if and only if no later entry changes it; otherwise it
      stays behind as the backup has it. */
  lemma AddedIsGoneIff(t0: Node, t: Node, app: Path, tmp: Path, adds: seq<Path>, journal: seq<Entry>, file: Path)
    requires Independent(tmp, app) && Independent(app, tmp) && Journalled(t0, t, app, tmp, adds, journal)
    requires AddsFirst(adds, journal) && file in adds && !Exists(t0, app + file)
    ensures var r := Restore(t, app, tmp, journal);
      r.Some? && (FileAt(r.value, app + file) == None <==> forall e | e in journal && e.file == file :: e.op == ADD) &&
      FileAt(r.value, app + file) in {None, FileAt(t, tmp + file)}
  {
    hide Get, FileAt, Restore, IsDir, Grown;
    JournalPlays(t0, t, app, tmp, adds, journal);
    RestoreLast(t, app, tmp, journal);
    NothingThere(t0, app + file);
    if e :| e in journal && e.file == file {
      var i := LastEntry(t, app, tmp, journal, file);
      assert journal[i] in journal;
      forall d | d in journal && d.file == file && journal[i].op == ADD ensures d.op == ADD {
        var j :| 0 <= j < |journal| && journal[j] == d;
      }
    } else {
      forall e | e in journal ensures app + e.file != app + file {
        assert (app + e.file)[|app|..] == e.file && (app + file)[|app|..] == file;
      }
      NotNamed(t, app, tmp, journal, app + file);
      Under(tmp, app, file);
    }
  }

  /** The journal played backwards. */
  function RestoreBackwards(t: Node, app: Path, tmp: Path, journal: seq<Entry>): Option<Node>
    requires app != []
    decreases |journal|
  {
    if journal == [] then Some(t)
    else
      var next := RestoreEntry(t, app, tmp, journal[|journal| - 1]);
      if next.None? then None else RestoreBackwards(next.value, app, tmp, journal[..|journal| - 1])
  }

  function Reversed(journal: seq<Entry>): seq<Entry> {
    seq(|journal|, i requires 0 <= i < |journal| => journal[|journal| - 1 - i])
  }

  lemma {:induction false} BackwardsIsReversed(t: Node, app: Path, tmp: Path, journal: seq<Entry>)
    requires app != []
    ensures RestoreBackwards(t, app, tmp, journal) == Restore(t, app, tmp, Reversed(journal))
    decreases |journal|
  {
    if journal != [] {
      var n := |journal| - 1;
      assert Reversed(journal)[0] == journal[n] && Reversed(journal)[1..] == Reversed(journal[..n]);
      var next := RestoreEntry(t, app, tmp, journal[n]);
      if next.Some? {
        BackwardsIsReversed(next.value, app, tmp, journal[..n]);
      }
    }
  }

  lemma ReversedHas(journal: seq<Entry>)
    ensures forall e :: e in Reversed(journal) <==> e in journal
  {
    var back := Reversed(journal);
    forall e ensures e in back <==> e in journal {
      if e in journal {
        var i :| 0 <= i < |journal| && journal[i] == e;
        assert back[|journal| - 1 - i] == e;
      }
    }
  }

  /** The first entry that names a file that was to be added is its addition. */
  lemma FirstIsAddition(adds: seq<Path>, journal: seq<Entry>, i: nat)
    requires AddsFirst(adds, journal) && i < |journal| && journal[i].file in adds
    requires forall j | 0 <= j < i :: journal[j].file != journal[i].file
    ensures journal[i].op == ADD
  {
  }

  /** Played backwards the journal always brings every file back. */
  lemma BackwardsRestores(t0: Node, t: Node, app: Path, tmp: Path, adds: seq<Path>, journal: seq<Entry>)
    requires Independent(tmp, app) && Independent(app, tmp) && Journalled(t0, t, app, tmp, adds, journal)
    requires AddsFirst(adds, journal)
    ensures var b := RestoreBackwards(t, app, tmp, journal); b.Some? && SameFiles(t0, b.value, app, tmp, adds)
  {
    hide Get, FileAt, Restore, RestoreBackwards, IsDir, Grown, Reversed;
    BackwardsIsReversed(t, app, tmp, journal);
    var back := Reversed(journal);
    ReversedHas(journal);
    JournalPlays(t0, t, app, tmp, adds, journal);
    RestoreLast(t, app, tmp, back);
    var b := Restore(t, app, tmp, back).value;
    forall q | !(tmp <= q) ensures FileAt(b, q) == FileAt(t0, q) {
      if e :| e in journal && app + e.file == q {
        FirstWord(t0, t, app, tmp, adds, journal, e.file);
      } else {
        NotNamed(t, app, tmp, back, q);
      }
    }
  }

  lemma EntryPromise(t0: Node, t: Node, app: Path, tmp: Path, adds: seq<Path>, journal: seq<Entry>, e: Entry)
    requires Journalled(t0, t, app, tmp, adds, journal) && e in journal
    ensures if e.file in adds then FileAt(t0, app + e.file) == None
      else e.op != ADD && FileAt(t, tmp + e.file) == FileAt(t0, app + e.file)
  {
    NothingThere(t0, app + e.file);
  }

  lemma FirstWord(t0: Node, t: Node, app: Path, tmp: Path, adds: seq<Path>, journal: seq<Entry>, file: Path)
    requires Journalled(t0, t, app, tmp, adds, journal) && AddsFirst(adds, journal)
    requires exists e :: e in journal && e.file == file
    ensures LastWord(t, app, tmp, Reversed(journal), app + file) == FileAt(t0, app + file)
  {
    hide Journalled, FileAt;
    var back := Reversed(journal);
    ReversedHas(journal);
    var i := LastEntry(t, app, tmp, back, file);
    var k := |journal| - 1 - i;
    assert journal[k] == back[i];
    EntryPromise(t0, t, app, tmp, adds, journal, journal[k]);
    if file in adds {
      forall j | 0 <= j < k ensures journal[j].file != file {
        assert back[|journal| - 1 - j] == journal[j];
      }
      FirstIsAddition(adds, journal, k);
    }
  }

  /** So the order of undoing matters exactly where an added file has been changed since. */
  lemma OrderMattersIff(t0: Node, t: Node, app: Path, tmp: Path, adds: seq<Path>, journal: seq<Entry>)
    requires Independent(tmp, app) && Independent(app, tmp) && Journalled(t0, t, app, tmp, adds, journal)
    requires AddsFirst(adds, journal)
    ensures var f, b := Restore(t, app, tmp, journal), RestoreBackwards(t, app, tmp, journal);
      f.Some? && b.Some? &&
      ((forall q | !(tmp <= q) :: FileAt(f.value, q) == FileAt(b.value, q)) <==> !Mixed(adds, journal))
  {
    hide Get, FileAt, Restore, RestoreBackwards, Journalled;
    RestoreAll(t0, t, app, tmp, adds, journal);
    BackwardsRestores(t0, t, app, tmp, adds, journal);
  }

  /** Making directories for, or inside, the backup or above an added file. */
  lemma DirsKept(t0: Node, t: Node, t': Node, app: Path, tmp: Path, adds: seq<Path>, journal: seq<Entry>, p: Path)
    requires Journalled(t0, t, app, tmp, adds, journal) && t' == MakeDirs(t, p)
    requires forall q | q <= p && !(tmp <= q) :: IsDir(t, q) || Grown(app, adds, q)
    ensures Journalled(t0, t', app, tmp, adds, journal)
    ensures forall q :: FileAt(t', q) == FileAt(t, q)
    ensures forall q | IsDir(t, q) :: IsDir(t', q)
  {
    forall q
      ensures FileAt(t', q) == FileAt(t, q) && IsDir(t', q) == (IsDir(t, q) || (ClearWay(t, p) && q <= p))
    {
      MakeDirsPoint(t, p, q);
    }
  }

  /** A new file in the backup, which no entry of the journal needs yet. */
  lemma BackupKept(t0: Node, t: Node, t': Node, app: Path, tmp: Path, adds: seq<Path>, journal: seq<Entry>, file: Path)
    requires Independent(tmp, app) && Journalled(t0, t, app, tmp, adds, journal)
    requires OnlyFile(t, t', tmp + file) && FileAt(t, tmp + file) == None
    ensures Journalled(t0, t', app, tmp, adds, journal)
    ensures forall e | e in journal && e.op != ADD :: e.file != file
    ensures forall q | !(tmp <= q) :: FileAt(t', q) == FileAt(t, q)
  {
  }

  lemma EntryKept(t0: Node, t: Node, app: Path, tmp: Path, adds: seq<Path>, journal: seq<Entry>, e: Entry)
    requires Journalled(t0, t, app, tmp, adds, journal) && !Grown(app, adds, app + e.file)
    requires e.file in adds ==> !Exists(t0, app + e.file)
    requires if e.op == ADD then e.file in adds else Safe(t0, t, app, tmp, adds, e.file)
    ensures Journalled(t0, t, app, tmp, adds, journal + [e])
  {
    assert Targets(app, journal + [e]) == Targets(app, journal) + {app + e.file};
  }

  /** Editing a file that the journal names. */
  lemma EditKept(t0: Node, t: Node, t': Node, app: Path, tmp: Path, adds: seq<Path>, journal: seq<Entry>, file: Path)
    requires Independent(tmp, app) && Journalled(t0, t, app, tmp, adds, journal)
    requires OnlyFile(t, t', app + file) && exists e :: e in journal && e.file == file
    ensures Journalled(t0, t', app, tmp, adds, journal)
  {
    forall q | !(tmp <= q) && q !in Targets(app, journal) ensures FileAt(t', q) == FileAt(t0, q) {
      var e :| e in journal && e.file == file;
      assert app + e.file in Targets(app, journal);
    }
    forall e | e in journal ensures FileAt(t', tmp + e.file) == FileAt(t, tmp + e.file) {
      Under(app, tmp, e.file);
      Under(tmp, app, file);
      assert tmp <= tmp + e.file;
    }
  }

  /** The entries of directories: a deleted one is made again, an added one goes with all that is in it, and a
      modified one cannot be restored. */
  lemma DirectoryEntries(t: Node, app: Path, tmp: Path, file: Path)
    requires app != [] && IsDir(t, tmp + file)
    ensures Clear(t, app + file) ==>
      var r := RestoreEntry(t, app, tmp, Entry(file, DELETE));
      r.Some? && IsDir(r.value, app + file) && (forall q :: FileAt(r.value, q) == FileAt(t, q)) &&
      forall q :: IsDir(r.value, q) == (IsDir(t, q) || q <= app + file)
    ensures
      var r := RestoreEntry(t, app, tmp, Entry(file, ADD));
      r.Some? && !Exists(r.value, app + file) && forall q | !(app + file <= q) :: FileAt(r.value, q) == FileAt(t, q)
    ensures RestoreEntry(t, app, tmp, Entry(file, MODIFY)) == None
  {
    hide Cut, Put, Get;
    var dest := app + file;
    GetCut(t, dest);
    forall q | !(dest <= q) ensures FileAt(Cut(t, dest), q) == FileAt(t, q) {
      CutPoint(t, dest, q);
    }
    if Clear(t, dest) {
      ClearIsClearWay(t, dest);
      ThereIff(t, dest);
      assert FileAt(t, dest) == None;
      forall q
        ensures FileAt(MakeDirs(t, dest), q) == FileAt(t, q)
        ensures IsDir(MakeDirs(t, dest), q) == (IsDir(t, q) || q <= dest)
        ensures IsDir(t, dest) && q <= dest ==> IsDir(t, q)
      {
        MakeDirsPoint(t, dest, q);
        if IsDir(t, dest) && q <= dest && q != dest {
          PrefixIsDir(t, q, dest);
        }
      }
    }
  }

  /** Undoing additions removes every file they name, whoever put it there. */
  lemma {:induction false} AddsAreRemoved(t: Node, app: Path, tmp: Path, files: seq<Path>)
    requires app != [] && forall r | r in files :: !IsDir(t, app + r)
    ensures var u := Restore(t, app, tmp, EntriesOf(files, ADD));
      u.Some? && (forall r | r in files :: FileAt(u.value, app + r) == None) &&
      forall q :: FileAt(t, q) == None ==> FileAt(u.value, q) == None
    decreases |files|
  {
    if files != [] {
      var j, dest := EntriesOf(files, ADD), app + files[0];
      assert j[0] == Entry(files[0], ADD) && j[1..] == EntriesOf(files[1..], ADD);
      assert files[0] in files && files == [files[0]] + files[1..];
      var next := Cut(t, dest);
      assert RestoreEntry(t, app, tmp, j[0]) == Some(next);
      forall q ensures (FileAt(t, q) == None ==> FileAt(next, q) == None) && (IsDir(next, q) ==> IsDir(t, q)) {
        CutPoint(t, dest, q);
      }
      CutPoint(t, dest, dest);
      AddsAreRemoved(next, app, tmp, files[1..]);
    }
  }

  /** A listed file that was there before is lost: adding it fails, and undoing that removes it. */
  lemma AddedOverIsLost(t: Node, app: Path, tmp: Path, r: Path)
    requires app != [] && FileAt(t, app + r).Some? && !IsDir(t, tmp + r)
    ensures var u := Restore(t, app, tmp, [Entry(r, ADD)]); u.Some? && FileAt(u.value, app + r) == None
  {
    CutPoint(t, app + r, app + r);
  }
}
