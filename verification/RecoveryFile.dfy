/** The recovery record: three lines of text that say which request was running, written with fputs and read
    back with fgets into a buffer of 200 characters. */
module RecoveryFile {
  import opened FileTree
  import opened FileSystem

  datatype RequestType =
    | Unknown | Install | Update | Uninstall | Reinstall | Delta | Recovery | MountInstall | MountUpdate
    | ManifestDirectInstall | ManifestDirectUpdate | Clear | Move | DisablePkg | EnablePkg

  datatype Record = Record(kind: RequestType, unpackedDir: string, pkgid: string)

  const BUFFER := 200

  function KindString(kind: RequestType): string {
    match kind
    case Install => "NEW"
    case Update => "UPDATE"
    case Uninstall => "UNINSTALLATION"
    case Reinstall => "RDS"
    case Delta => "DELTA"
    case _ => "UNKNOWN"
  }

  function KindOf(mode: string): RequestType {
    if mode == "NEW" then Install
    else if mode == "UPDATE" then Update
    else if mode == "UNINSTALLATION" then Uninstall
    else if mode == "RDS" then Reinstall
    else if mode == "DELTA" then Delta
    else Unknown
  }

  /** The kinds that have a string of their own. */
  function Recorded(kind: RequestType): RequestType {
    if kind in {Install, Update, Uninstall, Reinstall, Delta} then kind else Unknown
  }

  /** What a C string function sees of s. */
  function CString(s: string): (c: string)
    ensures c <= s && '\0' !in c && ('\0' !in s ==> c == s)
  {
    if s == [] || s[0] == '\0' then [] else [s[0]] + CString(s[1..])
  }

  function Text(r: Record): string {
    KindString(r.kind) + "\n" + CString(r.unpackedDir) + "\n" + CString(r.pkgid) + "\n"
  }

  /** The characters one fgets takes from s with room for `room` of them. */
  function Taken(s: string, room: nat): (n: nat)
    ensures n <= |s| && n <= room
    ensures n == 0 <==> s == [] || room == 0
    ensures '\n' !in s[..n] || (n > 0 && s[n - 1] == '\n' && '\n' !in s[..n - 1])
    ensures n < |s| && n < room ==> n > 0 && s[n - 1] == '\n'
  {
    if s == [] || room == 0 then 0
    else if s[0] == '\n' then 1
    else
      var n := 1 + Taken(s[1..], room - 1);
      assert s[..n] == [s[0]] + s[1..][..n - 1];
      assert n > 1 ==> s[n - 1] == s[1..][n - 2] && s[..n - 1] == [s[0]] + s[1..][..n - 2];
      n
  }

  /** A line that starts with NUL makes the original look in front of its buffer; here it reads as empty. */
  function TruncateNewLine(data: string): string {
    var c := CString(data);
    if c != [] && c[|c| - 1] == '\n' then c[..|c| - 1] else c
  }

  function Line(s: string): string {
    TruncateNewLine(s[..Taken(s, BUFFER - 1)])
  }

  function Rest(s: string): string {
    s[Taken(s, BUFFER - 1)..]
  }

  /** What reading the text s leaves in a new object. */
  function Parsed(s: string): Record {
    if s == [] then Record(Unknown, "", "")
    else Record(KindOf(Line(s)), if Rest(s) == [] then "" else Line(Rest(s)),
                if Rest(s) == [] || Rest(Rest(s)) == [] then "" else Line(Rest(Rest(s))))
  }

  predicate PlainText(s: string) {
    '\n' !in s && '\0' !in s
  }

  /** Records that survive being written and read. */
  predicate Fits(r: Record) {
    PlainText(r.unpackedDir) && PlainText(r.pkgid) &&
    ((|r.unpackedDir| <= 198 && |r.pkgid| <= 199) || (|r.unpackedDir| == 199 && r.pkgid == ""))
  }

  /** How fgets cuts a plain line off a text. */
  lemma {:induction false} TakenLine(a: string, b: string, room: nat)
    requires '\n' !in a
    ensures Taken(a + "\n" + b, room) == if |a| < room then |a| + 1 else room
    decreases |a|
  {
    var s := a + "\n" + b;
    if a != [] && room > 0 {
      assert s[0] == a[0] && s[1..] == a[1..] + "\n" + b;
      TakenLine(a[1..], b, room - 1);
    }
  }

  lemma {:induction false} CStringOfPlain(s: string)
    requires '\0' !in s
    ensures CString(s) == s
  {
  }

  /** Reading a text that begins with the plain line a. */
  lemma ReadLine(a: string, b: string)
    requires PlainText(a)
    ensures var s := a + "\n" + b;
      if |a| <= BUFFER - 2 then Line(s) == a && Rest(s) == b
      else Line(s) == a[..BUFFER - 1] && Rest(s) == a[BUFFER - 1..] + "\n" + b
  {
    var s := a + "\n" + b;
    TakenLine(a, b, BUFFER - 1);
    if |a| <= BUFFER - 2 {
      assert s[..|a| + 1] == a + "\n";
      CStringOfPlain(a + "\n");
    } else {
      assert s[..BUFFER - 1] == a[..BUFFER - 1];
      CStringOfPlain(a[..BUFFER - 1]);
      assert s[BUFFER - 1..] == a[BUFFER - 1..] + "\n" + b;
    }
  }

  lemma LineIsPlain(s: string)
    ensures PlainText(Line(s)) && |Line(s)| <= BUFFER - 1 && Line(s) <= s
  {
    var data := s[..Taken(s, BUFFER - 1)];
    var c := CString(data);
    assert forall i | 0 <= i < |c| :: c[i] == data[i];
    assert forall x | x in Line(s) :: x in c && x != '\0';
    if |c| > 0 && c[|c| - 1] == '\n' {
      assert |c| == |data| ==> c[..|c| - 1] == data[..|data| - 1];
    }
  }

  lemma ParsedText(r: Record)
    requires PlainText(r.unpackedDir) && PlainText(r.pkgid)
    ensures var s := Text(r); var u := r.unpackedDir;
      s != [] && Parsed(s).kind == Recorded(r.kind) && Rest(s) != [] &&
      Line(Rest(s)) == (if |u| <= BUFFER - 2 then u else u[..BUFFER - 1]) &&
      Rest(Rest(s)) == if |u| <= BUFFER - 2 then r.pkgid + "\n" else u[BUFFER - 1..] + "\n" + (r.pkgid + "\n")
  {
    hide CString, Taken, Line, Rest;
    var k, u, p := KindString(r.kind), r.unpackedDir, r.pkgid;
    CStringOfPlain(u);
    CStringOfPlain(p);
    assert Text(r) == k + "\n" + (u + "\n" + (p + "\n"));
    KindReads(r.kind);
    ReadLine(k, u + "\n" + (p + "\n"));
    ReadLine(u, p + "\n");
  }

  lemma KindReads(kind: RequestType)
    ensures PlainText(KindString(kind)) && |KindString(kind)| < BUFFER - 2 && KindOf(KindString(kind)) == Recorded(kind)
  {
  }

  /** Reading back what was written gives the record again exactly when it fits. */
  lemma RoundTrip(r: Record)
    ensures Parsed(Text(r)) == r.(kind := Recorded(r.kind)) <==> Fits(r)
  {
    hide CString, Taken, Line, Rest, Text, KindOf, KindString;
    var s := Text(r);
    if !PlainText(r.unpackedDir) || !PlainText(r.pkgid) {
      LineIsPlain(Rest(s));
      LineIsPlain(Rest(Rest(s)));
    } else {
      ParsedText(r);
      LastLine(r, Rest(Rest(s)));
      var u := r.unpackedDir;
      assert |u| == BUFFER - 1 ==> u[..BUFFER - 1] == u;
      assert |u| > BUFFER - 1 ==> |u[..BUFFER - 1]| < |u|;
    }
  }

  /** What one fgets reads of a line that is longer than its buffer. */
  function Clipped(s: string): string {
    if |s| <= BUFFER - 1 then s else s[..BUFFER - 1]
  }

  /** The package id that is read back is the one written if the unpacked directory fits and so does the id; or
      if the directory does not fit, but what is cut off of it happens to be the id. */
  lemma PackageReadsBack(r: Record)
    requires PlainText(r.unpackedDir) && PlainText(r.pkgid)
    ensures Parsed(Text(r)).kind == Recorded(r.kind)
    ensures Parsed(Text(r)).pkgid == r.pkgid <==>
      if |r.unpackedDir| <= BUFFER - 2 then |r.pkgid| <= BUFFER - 1
      else r.pkgid == Clipped(r.unpackedDir[BUFFER - 1..])
  {
    hide CString, Taken, Line, Rest, Text, KindOf, KindString;
    var u, p := r.unpackedDir, r.pkgid;
    ParsedText(r);
    if |u| <= BUFFER - 2 {
      ClippedLine(p, "");
      assert p + "\n" + "" == p + "\n";
    } else {
      ClippedLine(u[BUFFER - 1..], p + "\n");
    }
  }

  lemma ClippedLine(a: string, b: string)
    requires PlainText(a)
    ensures Line(a + "\n" + b) == Clipped(a)
  {
    hide CString, Taken, Line, Rest;
    ReadLine(a, b);
    assert |a| == BUFFER - 1 ==> a[..BUFFER - 1] == a;
  }

  /** The third line, when the second one has been read. */
  lemma LastLine(r: Record, tail: string)
    requires PlainText(r.unpackedDir) && PlainText(r.pkgid)
    requires tail == if |r.unpackedDir| <= BUFFER - 2 then r.pkgid + "\n"
                     else r.unpackedDir[BUFFER - 1..] + "\n" + (r.pkgid + "\n")
    ensures tail != []
    ensures |r.unpackedDir| <= BUFFER - 1 ==> (Line(tail) == r.pkgid <==> Fits(r))
    ensures |r.unpackedDir| > BUFFER - 1 ==> !Fits(r)
  {
    hide CString, Taken, Line, Rest;
    var u, p := r.unpackedDir, r.pkgid;
    if |u| <= BUFFER - 2 {
      assert tail == p + "\n" + "";
      ReadLine(p, "");
    } else if |u| == BUFFER - 1 {
      assert tail == "" + "\n" + (p + "\n");
      ReadLine("", p + "\n");
    }
  }

  /** What a file of three lines says, whatever follows them: the kind, the unpacked directory and the package id.
      The five kinds have these strings and no others. */
  lemma ReadsLines(kind: string, unpackedDir: string, pkgid: string, tail: string)
    requires PlainText(kind) && PlainText(unpackedDir) && PlainText(pkgid)
    requires |kind| <= 198 && |unpackedDir| <= 198 && |pkgid| <= 198
    ensures var r := Parsed(kind + "\n" + unpackedDir + "\n" + pkgid + "\n" + tail);
      r.unpackedDir == unpackedDir && r.pkgid == pkgid &&
      (r.kind == Install <==> kind == "NEW") && (r.kind == Update <==> kind == "UPDATE") &&
      (r.kind == Uninstall <==> kind == "UNINSTALLATION") && (r.kind == Reinstall <==> kind == "RDS") &&
      (r.kind == Delta <==> kind == "DELTA") && r.kind in {Install, Update, Uninstall, Reinstall, Delta, Unknown}
  {
    hide CString, Taken, Line, Rest;
    var s := kind + "\n" + unpackedDir + "\n" + pkgid + "\n" + tail;
    var third := pkgid + "\n" + tail;
    var second := unpackedDir + "\n" + third;
    assert s == kind + "\n" + second;
    ReadLine(kind, second);
    ReadLine(unpackedDir, third);
    ReadLine(pkgid, tail);
  }

  /** A write cut short anywhere leaves a file that reads as the true kind or as Unknown. */
  lemma TornWrite(r: Record, torn: string)
    requires torn <= Text(r)
    ensures Parsed(torn).kind in {Recorded(r.kind), Unknown}
  {
    hide CString, Taken, Line, Rest, KindOf, KindString;
    var k := KindString(r.kind);
    KindReads(r.kind);
    if torn != [] {
      if |torn| <= |k| {
        assert torn == k[..|torn|];
        PrefixOfKind(r.kind, |torn|);
        ReadTorn(torn);
      } else {
        assert torn[|k|] == '\n';
        var tail := torn[|k| + 1..];
        assert torn == k + "\n" + tail;
        ReadLine(k, tail);
      }
    }
  }

  /** Records that reading can give. */
  predicate Read(r: Record) {
    PlainText(r.unpackedDir) && PlainText(r.pkgid) && |r.unpackedDir| <= BUFFER - 1 && |r.pkgid| <= BUFFER - 1
  }

  lemma ParsedIsRead(s: string)
    ensures Read(Parsed(s)) && Recorded(Parsed(s).kind) == Parsed(s).kind
  {
    hide CString, Taken, Line, Rest, KindString;
    LineIsPlain(Rest(s));
    LineIsPlain(Rest(Rest(s)));
  }

  /** Its package id is a beginning of the true one. */
  lemma TornPackage(r: Record, torn: string)
    requires torn <= Text(r) && Read(r)
    ensures Parsed(torn).pkgid <= r.pkgid
  {
    hide CString, Taken, Line, Rest, KindOf, KindString;
    var k, u, p := KindString(r.kind), r.unpackedDir, r.pkgid;
    KindReads(r.kind);
    CStringOfPlain(u);
    CStringOfPlain(p);
    assert Text(r) == k + "\n" + (u + "\n" + (p + "\n"));
    TornLine(k, u + "\n" + (p + "\n"), torn);
    if Rest(torn) != [] {
      var second := Rest(torn);
      TornLine(u, p + "\n", second);
      if Rest(second) != [] {
        var third := Rest(second);
        if |u| == BUFFER - 1 {
          assert u[BUFFER - 1..] + "\n" + (p + "\n") == "" + "\n" + (p + "\n");
          TornLine("", p + "\n", third);
        } else {
          assert p + "\n" == p + "\n" + "";
          TornLine(p, "", third);
        }
      }
    }
  }

  /** Reading a text that is cut short somewhere: the line is a beginning of the true one, and if anything is
      left to read, it is a beginning of the true rest. */
  lemma TornLine(a: string, b: string, torn: string)
    requires PlainText(a) && |a| <= BUFFER - 1 && torn <= a + "\n" + b
    ensures Line(torn) <= a
    ensures Rest(torn) != [] ==> Rest(torn) <= if |a| <= BUFFER - 2 then b else a[BUFFER - 1..] + "\n" + b
  {
    hide CString, Taken, Line, Rest;
    if |torn| <= |a| {
      assert torn == a[..|torn|];
      assert forall x | x in torn :: x in a;
      ReadTorn(torn);
    } else {
      assert torn[|a|] == '\n';
      var tail := torn[|a| + 1..];
      assert torn == a + "\n" + tail;
      ReadLine(a, tail);
    }
  }

  lemma ReadTorn(s: string)
    requires PlainText(s) && |s| <= BUFFER - 1
    ensures Line(s) == s && Rest(s) == []
  {
    TakenAll(s, BUFFER - 1);
    CStringOfPlain(s);
    assert s[..|s|] == s;
  }

  lemma {:induction false} TakenAll(s: string, room: nat)
    requires '\n' !in s && |s| <= room
    ensures Taken(s, room) == |s|
  {
    if s != [] {
      TakenAll(s[1..], room - 1);
    }
  }

  /** No kind's string is the beginning of another's. */
  lemma PrefixOfKind(kind: RequestType, n: nat)
    requires n <= |KindString(kind)|
    ensures KindOf(KindString(kind)[..n]) in {Recorded(kind), Unknown}
    ensures PlainText(KindString(kind)[..n])
  {
    var k := KindString(kind);
    if n == |k| {
      assert k[..n] == k;
    }
    var m := k[..n];
    assert n > 0 ==> m[0] == k[0];
    assert n > 1 ==> m[1] == k[1];
    assert forall x | x in m :: x in k;
  }

  /** The object that owns the file: while its path is set, dropping the object removes the file. */
  class RecoveryFile {
    const fs: FileSystem
    var path: Path
    var kind: RequestType
    var unpackedDir: string
    var pkgid: string

    /** Creates the file, or reads an existing one; the path is cleared when that fails. */
    constructor (fs: FileSystem, path: Path, load: bool)
      requires fs.Valid() && path != []
      modifies fs`root, fs`log
      ensures this.fs == fs && fs.Valid() && old(fs.log) <= fs.log
      ensures this.path in {path, []}
      ensures load ==> fs.root == old(fs.root) && fs.log == old(fs.log)
      ensures load && this.path != [] ==>
        FileAt(fs.root, path).Some? && Record(kind, unpackedDir, this.pkgid) == Parsed(FileAt(fs.root, path).value)
      ensures load && !fs.faulty && IsFile(fs.root, path) ==> this.path == path
      ensures !load && this.path != [] ==>
        old(IsDir(fs.root, Parent(path))) && FileAt(fs.root, path) == Some("") && unpackedDir == "" && this.pkgid == ""
      ensures !load && !fs.faulty && old(IsDir(fs.root, Parent(path)) && !IsDir(fs.root, path)) ==> this.path == path
      ensures SameOutside(old(fs.root), fs.root, path)
    {
      this.fs, this.path := fs, path;
      kind, unpackedDir, pkgid := Unknown, "", "";
      new;
      var ok;
      if load {
        ok := ReadFileContent();
      } else {
        ok := fs.WriteFile(path, "");
      }
      if !ok {
        this.path := [];
      }
    }

    /** A new record is refused where anything is already. */
    static method CreateRecoveryFileForPath(fs: FileSystem, path: Path) returns (file: RecoveryFile?)
      requires fs.Valid() && path != []
      modifies fs`root, fs`log
      ensures fs.Valid() && old(fs.log) <= fs.log && SameOutside(old(fs.root), fs.root, path)
      ensures old(Exists(fs.root, path)) ==> file == null && fs.root == old(fs.root) && fs.log == old(fs.log)
      ensures file != null ==>
        fresh(file) && file.fs == fs && file.path == path && file.unpackedDir == "" && file.pkgid == "" &&
        FileAt(fs.root, path) == Some("") && old(IsDir(fs.root, Parent(path)))
      ensures !fs.faulty && old(!Exists(fs.root, path) && IsDir(fs.root, Parent(path))) ==> file != null
    {
      hide Cut;
      if Exists(fs.root, path) {
        return null;
      }
      var created := new RecoveryFile(fs, path, false);
      file := if created.path == [] then null else created;
    }

    static method OpenRecoveryFileForPath(fs: FileSystem, path: Path) returns (file: RecoveryFile?)
      requires fs.Valid() && path != []
      modifies fs`root, fs`log
      ensures fs.Valid() && fs.root == old(fs.root) && fs.log == old(fs.log)
      ensures !Exists(fs.root, path) ==> file == null
      ensures file != null ==>
        fresh(file) && file.fs == fs && file.path == path && FileAt(fs.root, path).Some? &&
        Record(file.kind, file.unpackedDir, file.pkgid) == Parsed(FileAt(fs.root, path).value)
      ensures !fs.faulty && IsFile(fs.root, path) ==> file != null
    {
      hide Parsed;
      if !Exists(fs.root, path) {
        return null;
      }
      var opened' := new RecoveryFile(fs, path, true);
      file := if opened'.path == [] then null else opened';
    }

    /** The three lines are read one after the other; a missing one leaves its field as it was. */
    method ReadFileContent() returns (ok: bool)
      requires fs.Valid() && path != []
      modifies this`kind, this`unpackedDir, this`pkgid
      ensures ok ==> FileAt(fs.root, path).Some?
      ensures ok && old(unpackedDir) == "" && old(pkgid) == "" ==>
        Record(kind, unpackedDir, pkgid) == Parsed(FileAt(fs.root, path).value)
      ensures !fs.faulty && IsFile(fs.root, path) ==> ok
    {
      hide Taken, CString, KindOf;
      var failed := fs.Fails();
      if failed || !IsFile(fs.root, path) {
        return false;
      }
      var handle := FileAt(fs.root, path).value;
      if handle == "" {
        kind := Unknown;
        return true;
      }
      kind := KindOf(Line(handle));
      handle := Rest(handle);
      if handle == "" {
        return true;
      }
      unpackedDir := Line(handle);
      handle := Rest(handle);
      if handle == "" {
        return true;
      }
      pkgid := Line(handle);
      return true;
    }

    /** The result does not say whether all of the text reached the disk. */
    method WriteAndCommitFileContent() returns (ok: bool)
      requires fs.Valid() && path != []
      modifies fs`root, fs`log
      ensures fs.Valid() && old(fs.log) <= fs.log
      ensures SameOutside(old(fs.root), fs.root, path)
      ensures forall i | |old(fs.log)| <= i < |fs.log| ::
        SameOutside(old(fs.root), fs.log[i], path) && FileAt(fs.log[i], path).Some? &&
        FileAt(fs.log[i], path).value <= Text(Record(kind, unpackedDir, pkgid)) &&
        Parsed(FileAt(fs.log[i], path).value).kind in {Recorded(kind), Unknown}
      ensures if ok then IsFile(fs.root, path) && Parsed(FileAt(fs.root, path).value).kind in {Recorded(kind), Unknown}
        else fs.root == old(fs.root)
      ensures ok ==>
        FileAt(fs.root, path).Some? && FileAt(fs.root, path).value <= Text(Record(kind, unpackedDir, pkgid)) &&
        |old(fs.log)| < |fs.log| && FileAt(fs.log[|old(fs.log)|], path) == Some("")
      ensures !ok ==> fs.log == old(fs.log)
      ensures !fs.faulty && old(IsFile(fs.root, path)) ==> ok
      ensures ok && !fs.faulty ==> FileAt(fs.root, path) == Some(Text(Record(kind, unpackedDir, pkgid)))
      ensures ok && !fs.faulty && Fits(Record(kind, unpackedDir, pkgid)) ==>
        FileAt(fs.root, path).Some? &&
        Parsed(FileAt(fs.root, path).value) == Record(Recorded(kind), unpackedDir, pkgid)
    {
      hide Parsed, Text, Cut, Get, KindString;
      var r := Record(kind, unpackedDir, pkgid);
      if IsFile(fs.root, path) {
        PrefixIsDir(fs.root, Parent(path), path);
      }
      ok := fs.WriteFile(path, Text(r));
      RoundTrip(r);
      if ok {
        TornWrite(r, FileAt(fs.root, path).value);
      }
      forall i | |old(fs.log)| <= i < |fs.log|
        ensures Parsed(FileAt(fs.log[i], path).value).kind in {Recorded(kind), Unknown}
      {
        TornWrite(r, FileAt(fs.log[i], path).value);
      }
    }

    method Detach()
      modifies this`path
      ensures path == []
    {
      path := [];
    }

    /** The destructor. */
    method Destroy()
      requires fs.Valid()
      modifies fs`root, fs`log
      ensures fs.Valid() && old(fs.log) <= fs.log
      ensures path == [] ==> fs.root == old(fs.root) && fs.log == old(fs.log)
      ensures path != [] ==> SameOutside(old(fs.root), fs.root, path)
      ensures path != [] && !fs.faulty && old(IsFile(fs.root, path)) ==> !Exists(fs.root, path)
      ensures fs.root == old(fs.root) || !Exists(fs.root, path)
      ensures forall i | |old(fs.log)| <= i < |fs.log| :: fs.log[i] == fs.root
    {
      if path != [] {
        var _ := fs.Remove(path);
        CutCut(old(fs.root), path);
        GetCut(old(fs.root), path);
      }
    }
  }
}
