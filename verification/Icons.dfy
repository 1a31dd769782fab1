/** StepBackupIcons and StepCreateIcons: the icons of the old package are set aside, those of the new one put
    in their directory. */
module Icons {
  import opened FileTree
  import opened FileSystem
  import opened PackageTrees

  datatype App = App(appid: string, icon: Option<Path>)

  /** The file name without its last extension. */
  function Stem(name: Name): Name {
    if name == [] || '.' !in name then name
    else if name[|name| - 1] == '.' then name[..|name| - 1]
    else Stem(name[..|name| - 1])
  }

  /** The last extension with its dot, or nothing. */
  function Extension(name: Name): (e: string)
    ensures Stem(name) + e == name
    ensures e == "" <==> '.' !in name
    ensures e != "" ==> e[0] == '.' && '.' !in e[1..]
  {
    if name == [] || '.' !in name then ""
    else if name[|name| - 1] == '.' then "."
    else Extension(name[..|name| - 1]) + [name[|name| - 1]]
  }

  function BackupName(name: Name): Name {
    name + ".bck"
  }

  /** The dot at k is the last one. */
  predicate LastDot(s: string, k: nat) {
    k < |s| && s[k] == '.' && '.' !in s[k + 1..]
  }

  /** The id itself, or the id with one extension; the id may have dots of its own. */
  predicate NamedAfter(name: Name, id: string) {
    if '.' in name then LastDot(name, |id|) && name[..|id|] == id else name == id
  }

  lemma OneLastDot(s: string, j: nat, k: nat)
    requires LastDot(s, j) && LastDot(s, k)
    ensures j == k
  {
  }

  lemma ExtensionAt(name: Name)
    requires '.' in name
    ensures LastDot(name, |Stem(name)|) && Extension(name) == name[|Stem(name)|..] && Stem(name) <= name
  {
    var e := Extension(name);
    assert name[|Stem(name)|..] == e && name[|Stem(name)| + 1..] == e[1..];
  }

  /** The stem of a name is what it is named after. */
  lemma StemIff(name: Name, id: string)
    ensures Stem(name) == id <==> NamedAfter(name, id)
  {
    if '.' in name {
      ExtensionAt(name);
      if NamedAfter(name, id) {
        OneLastDot(name, |id|, |Stem(name)|);
      }
    }
  }

  /** The name is one of an icon of these applications. */
  predicate IsIconOf(apps: seq<App>, name: Name) {
    exists a | a in apps :: a.icon.Some? && NamedAfter(name, a.appid)
  }

  predicate DistinctIds(apps: seq<App>) {
    forall i, j | 0 <= i < j < |apps| :: apps[i].appid != apps[j].appid
  }

  predicate Once(names: seq<Name>) {
    forall i, j | 0 <= i < j < |names| :: names[i] != names[j]
  }

  /** No file bears the backup name of one of these. */
  predicate NoStale(k: map<Name, Node>, names: seq<Name>) {
    forall n | n in names :: BackupName(n) !in k
  }

  /** The icon directory k0 with the icons `names` set aside. */
  function SetAside(k0: map<Name, Node>, names: seq<Name>): map<Name, Node>
    requires forall n | n in names :: n in k0
  {
    if names == [] then k0
    else
      var k, n := SetAside(k0, names[..|names| - 1]), names[|names| - 1];
      (k - {n})[BackupName(n) := k0[n]]
  }

  lemma {:induction false} SetAsideAt(k0: map<Name, Node>, names: seq<Name>, x: Name)
    requires (forall n | n in names :: n in k0) && Once(names) && NoStale(k0, names)
    ensures Lookup(SetAside(k0, names), x) ==
      if x in names then None
      else if exists n :: n in names && x == BackupName(n) then Some(k0[x[..|x| - 4]])
      else Lookup(k0, x)
  {
    if names != [] {
      var last, rest := names[|names| - 1], names[..|names| - 1];
      SetAsideAt(k0, rest, x);
      assert names == rest + [last];
      assert BackupName(last)[..|BackupName(last)| - 4] == last;
      forall n | n in rest ensures x == BackupName(n) ==> x[..|x| - 4] == n {
      }
    }
  }

  /** Two entries of one directory. */
  lemma TwoNames(a: Node, b: Node, d: Path, x: Name, y: Name)
    requires d != [] && IsDir(a, d) && x != y && SameOutside2(a, b, d + [x], d + [y])
    ensures SameOutside(a, b, d) && IsDir(b, d)
    ensures Kids(b, d) - {x, y} == Kids(a, d) - {x, y}
    ensures Get(b, d + [x]) == Lookup(Kids(b, d), x) && Get(b, d + [y]) == Lookup(Kids(b, d), y)
    ensures Get(a, d + [x]) == Lookup(Kids(a, d), x) && Get(a, d + [y]) == Lookup(Kids(a, d), y)
  {
    TwoNameCuts(a, d, x, y);
    TwoNameCuts(b, d, x, y);
    assert Kids(a, d) - {x, y} == Cut(Cut(Get(a, d).value, [x]), [y]).kids;
    assert Kids(b, d) - {x, y} == Cut(Cut(Get(b, d).value, [x]), [y]).kids;
  }

  lemma TwoNameCuts(t: Node, d: Path, x: Name, y: Name)
    requires d != []
    ensures var c := Cut(Cut(t, d + [x]), d + [y]);
      Cut(c, d) == Cut(t, d) && Get(c, d) == if Exists(t, d) then Some(Cut(Cut(Get(t, d).value, [x]), [y])) else None
    ensures Get(t, d + [x]) == if IsDir(t, d) then Lookup(Kids(t, d), x) else None
    ensures Get(t, d + [y]) == if IsDir(t, d) then Lookup(Kids(t, d), y) else None
  {
    CutBelow(Cut(t, d + [x]), d, [y]);
    CutBelow(t, d, [x]);
    GetCutAbove(t, d, [x]);
    GetCutAbove(Cut(t, d + [x]), d, [y]);
    GetAppend(t, d, [x]);
    GetAppend(t, d, [y]);
  }

  /** Bringing the first icon back. */
  lemma BringBack(k0: map<Name, Node>, names: seq<Name>)
    requires names != [] && (forall n | n in names :: n in k0) && Once(names) && NoStale(k0, names)
    ensures var k, n := SetAside(k0, names), names[0];
      BackupName(n) in k && n !in k && k[BackupName(n)] == k0[n] &&
      (k - {BackupName(n)})[n := k[BackupName(n)]] == SetAside(k0, names[1..])
  {
    hide SetAside, Once;
    var k, n := SetAside(k0, names), names[0];
    assert n in names;
    SetAsideAt(k0, names, n);
    SetAsideAt(k0, names, BackupName(n));
    SameBackup(BackupName(n), n);
    assert Lookup(k, BackupName(n)).Some? && Lookup(k, n) == None;
    var back, rest := (k - {BackupName(n)})[n := k[BackupName(n)]], SetAside(k0, names[1..]);
    forall x ensures Lookup(back, x) == Lookup(rest, x) {
      BroughtBackAt(k0, names, x);
    }
    SameLookups(back, rest);
  }

  /** Taking the first icon back changes its own entry and its backup's. */
  lemma BroughtBackAt(k0: map<Name, Node>, names: seq<Name>, x: Name)
    requires names != [] && (forall n | n in names :: n in k0) && Once(names) && NoStale(k0, names)
    ensures var n := names[0];
      Lookup(SetAside(k0, names[1..]), x) ==
        if x == n then Some(k0[n]) else if x == BackupName(n) then None else Lookup(SetAside(k0, names), x)
  {
    hide SetAside;
    var n, rest := names[0], names[1..];
    assert names == [n] + rest;
    SetAsideAt(k0, names, x);
    SetAsideAt(k0, rest, x);
    forall m | m in names && x == BackupName(m) ensures x[..|x| - 4] == m {
      SameBackup(x, m);
    }
    assert n !in rest;
    assert BackupName(n) !in k0;
  }

  lemma SameBackup(x: Name, n: Name)
    ensures x == BackupName(n) ==> x[..|x| - 4] == n
  {
  }

  /** MoveFile between two names of one directory.  `tidy` says that a fault left nothing half done: neither a
      truncated copy nor the original of a finished one.  Where it did, both names are there. */
  method RenameIcon(fs: FileSystem, d: Path, x: Name, y: Name) returns (ok: bool, tidy: bool)
    requires fs.Valid() && d != [] && IsDir(fs.root, d) && x != y
    modifies fs`root, fs`log
    ensures fs.Valid() && IsDir(fs.root, d) && SameOutside(old(fs.root), fs.root, d)
    ensures var k, k' := old(Kids(fs.root, d)), Kids(fs.root, d);
      (ok ==> x in k && y !in k) && (!fs.faulty ==> tidy && ok == (x in k && y !in k)) &&
      (tidy ==> k' == if ok then (k - {x})[y := k[x]] else k) &&
      (!tidy ==> x in k && y !in k && x in k' && y in k') &&
      forall n | n != x && n != y :: Lookup(k', n) == Lookup(k, n)
  {
    hide Cut, Put, Get;
    var from, to := d + [x], d + [y];
    var before := fs.root;
    Siblings(d, x, y);
    TwoNames(fs.root, fs.root, d, x, y);
    ok := fs.MoveFile(from, to);
    TwoNames(old(fs.root), fs.root, d, x, y);
    tidy := if ok then !Exists(fs.root, from) else !Exists(fs.root, to) || Exists(before, to);
    Renamed(old(Kids(fs.root, d)), Kids(fs.root, d), x, y, ok);
  }

  lemma Siblings(d: Path, x: Name, y: Name)
    requires x != y
    ensures Independent(d + [x], d + [y]) && Parent(d + [y]) == d
  {
    assert (d + [x])[|d|] == x && (d + [y])[|d|] == y;
  }

  lemma Renamed(k: map<Name, Node>, k': map<Name, Node>, x: Name, y: Name, ok: bool)
    requires k' - {x, y} == k - {x, y} && x != y
    ensures ok && x in k && x !in k' && y in k' && k'[y] == k[x] ==> k' == (k - {x})[y := k[x]]
    ensures Lookup(k', x) == Lookup(k, x) && Lookup(k', y) == Lookup(k, y) ==> k' == k
    ensures forall n | n != x && n != y :: Lookup(k', n) == Lookup(k, n)
  {
    forall n | n != x && n != y ensures Lookup(k', n) == Lookup(k, n) {
      assert n in k' <==> n in k' - {x, y};
      assert n in k <==> n in k - {x, y};
      assert n in k ==> k[n] == (k - {x, y})[n] && k'[n] == (k' - {x, y})[n];
    }
    if ok && x in k && x !in k' && y in k' && k'[y] == k[x] {
      SameLookups(k', (k - {x})[y := k[x]]);
    }
    if Lookup(k', x) == Lookup(k, x) && Lookup(k', y) == Lookup(k, y) {
      SameLookups(k', k);
    }
  }

  predicate IsBackupOf(names: seq<Name>, x: Name) {
    exists n | n in names :: x == n + ".bck"
  }

  /** Nothing but these names and their backups is different. */
  ghost predicate OnlyThese(k0: map<Name, Node>, k: map<Name, Node>, names: seq<Name>) {
    forall x | x !in names && !IsBackupOf(names, x) :: Lookup(k, x) == Lookup(k0, x)
  }

  /** An icon and its backup are both there: a fault left one of them behind. */
  ghost predicate Stuck(k: map<Name, Node>, names: seq<Name>) {
    exists n | n in names :: n in k && BackupName(n) in k
  }

  /** Moving another icon, either way, does not loosen one that is stuck. */
  lemma StaysStuck(k: map<Name, Node>, k': map<Name, Node>, names: seq<Name>, m: Name, n: Name)
    requires n in names && m in names && n != m && BackupName(n) !in names && BackupName(m) !in names
    requires n in k && BackupName(n) in k
    requires forall x | x != m && x != BackupName(m) :: Lookup(k', x) == Lookup(k, x)
    ensures n in k' && BackupName(n) in k'
  {
    SameBackup(BackupName(n), n);
    SameBackup(BackupName(m), m);
    assert BackupName(n) != BackupName(m) && n != BackupName(m);
    assert Lookup(k', n) == Lookup(k, n) && Lookup(k', BackupName(n)) == Lookup(k, BackupName(n));
  }

  lemma StillOnlyThese(k0: map<Name, Node>, k: map<Name, Node>, k': map<Name, Node>, names: seq<Name>, m: Name)
    requires OnlyThese(k0, k, names) && m in names
    requires forall x | x != m && x != BackupName(m) :: Lookup(k', x) == Lookup(k, x)
    ensures OnlyThese(k0, k', names)
  {
    forall x | x !in names && !IsBackupOf(names, x) ensures Lookup(k', x) == Lookup(k0, x) {
      assert x != BackupName(m);
    }
  }

  class StepBackupIcons {
    const fs: FileSystem
    const iconDir: Path
    const apps: seq<App>
    /** The icons to set aside; each goes to its backup name. */
    var icons: seq<Name>

    constructor (fs: FileSystem, iconDir: Path, apps: seq<App>)
      ensures this.fs == fs && this.iconDir == iconDir && this.apps == apps && icons == []
    {
      this.fs, this.iconDir, this.apps, icons := fs, iconDir, apps, [];
    }

    ghost predicate Ready()
      reads this, fs
    {
      fs.Valid() && iconDir != [] && IsDir(fs.root, iconDir)
    }

    /** The list is the package's icon files, each once when no two apps share an id. */
    ghost predicate Gathered(k: map<Name, Node>)
      reads this
    {
      (forall n | n in icons :: n in k && k[n].File?) &&
      (forall n :: n in icons <==> n in k && k[n].File? && IsIconOf(apps, n)) &&
      (DistinctIds(apps) ==> Once(icons))
    }

    method Gather()
      requires Ready() && icons == []
      modifies this`icons
      ensures Gathered(Kids(fs.root, iconDir))
    {
      var k := Kids(fs.root, iconDir);
      var todo := k.Keys;
      while todo != {}
        invariant todo <= k.Keys
        invariant forall n :: n in icons <==> n in k && n !in todo && k[n].File? && IsIconOf(apps, n)
        invariant DistinctIds(apps) ==> Once(icons)
        decreases |todo|
      {
        var name :| name in todo;
        todo := todo - {name};
        if k[name].File? {
          ghost var before := icons;
          for i := 0 to |apps|
            invariant forall n :: n in icons <==> n in before || (n == name && IsIconOf(apps[..i], name))
            invariant DistinctIds(apps) ==> Once(icons)
            invariant IsIconOf(apps[..i], name) || icons == before
          {
            assert apps[..i + 1] == apps[..i] + [apps[i]];
            StemIff(name, apps[i].appid);
            if apps[i].icon.Some? && Stem(name) == apps[i].appid {
              icons := icons + [name];
            }
          }
          assert apps[..|apps|] == apps;
        }
      }
    }

    /** The disk with the first m icons set aside. */
    ghost predicate Aside(k0: map<Name, Node>, m: nat)
      reads this, fs
    {
      m <= |icons| && (forall n | n in icons :: n in k0) && Kids(fs.root, iconDir) == SetAside(k0, icons[..m])
    }

    /** Distinct ids, and no file with an icon's backup name: then only faults keep the undo from restoring. */
    ghost predicate Careful(k0: map<Name, Node>)
      reads this
    {
      Once(icons) && NoStale(k0, icons) && forall n | n in icons :: n in k0 && k0[n].File?
    }

    method Process() returns (status: Status, tidy: bool, moved: nat)
      requires Ready() && icons == []
      modifies this`icons, fs`root, fs`log
      ensures Ready() && SameOutside(old(fs.root), fs.root, iconDir) && status in {OK, ICON_ERROR}
      ensures Gathered(old(Kids(fs.root, iconDir)))
      ensures DistinctIds(apps) && NoStale(old(Kids(fs.root, iconDir)), icons) ==> Careful(old(Kids(fs.root, iconDir)))
      ensures Careful(old(Kids(fs.root, iconDir))) ==>
        if tidy then Aside(old(Kids(fs.root, iconDir)), moved) && (status == OK ==> moved == |icons|)
        else Stuck(Kids(fs.root, iconDir), icons)
      ensures OnlyThese(old(Kids(fs.root, iconDir)), Kids(fs.root, iconDir), icons)
      ensures !fs.faulty ==> tidy && (Careful(old(Kids(fs.root, iconDir))) ==> status == OK)
    {
      hide Cut, Put, Get, SetAside, OnlyThese, NoStale;
      Gather();
      ghost var k0 := Kids(fs.root, iconDir);
      SetAsideNone(k0);
      NothingMoved(k0);
      tidy, moved := true, 0;
      while moved < |icons|
        invariant moved <= |icons| && Ready() && SameOutside(old(fs.root), fs.root, iconDir)
        invariant Gathered(k0) && (!fs.faulty ==> tidy)
        invariant OnlyThese(k0, Kids(fs.root, iconDir), icons)
        invariant Careful(k0) ==> if tidy then Aside(k0, moved) else StuckUpTo(Kids(fs.root, iconDir), moved)
      {
        var name := icons[moved];
        ghost var k, neat := Kids(fs.root, iconDir), tidy;
        if Careful(k0) && tidy {
          FreeBackup(k0, moved);
        }
        var ok, clean := RenameIcon(fs, iconDir, name, BackupName(name));
        StillOnlyThese(k0, k, Kids(fs.root, iconDir), icons, name);
        tidy := tidy && clean;
        if Careful(k0) {
          OneMoreMove(k0, k, Kids(fs.root, iconDir), moved, neat, clean);
        }
        if !ok {
          return ICON_ERROR, tidy, moved;
        }
        if Careful(k0) && tidy {
          OneMoreAside(k0, icons, moved);
        }
        moved := moved + 1;
      }
      return OK, tidy, moved;
    }

    /** One of the first m icons is stuck. */
    ghost predicate StuckUpTo(k: map<Name, Node>, m: nat)
      requires m <= |icons|
      reads this
    {
      exists i | 0 <= i < m :: icons[i] in k && BackupName(icons[i]) in k
    }

    /** The next icon is there, and its backup name is free. */
    lemma FreeBackup(k0: map<Name, Node>, m: nat)
      requires Careful(k0) && m < |icons|
      ensures var k := SetAside(k0, icons[..m]); icons[m] in k && BackupName(icons[m]) !in k
    {
      hide SetAside;
      var k, y := SetAside(k0, icons[..m]), BackupName(icons[m]);
      OneMoreAside(k0, icons, m);
      NoBackupGathered(k0, m);
      SetAsideAt(k0, icons[..m], y);
      forall n | n in icons[..m] ensures y != BackupName(n) {
        SameBackup(y, n);
        SameBackup(y, icons[m]);
      }
      assert icons[m] in icons;
      assert Lookup(k, y) == Lookup(k0, y) == None;
    }

    lemma NothingMoved(k: map<Name, Node>)
      ensures OnlyThese(k, k, icons)
    {
    }

    lemma OneMoreMove(k0: map<Name, Node>, k: map<Name, Node>, k': map<Name, Node>, m: nat, neat: bool, clean: bool)
      requires m < |icons| && Careful(k0)
      requires !neat ==> StuckUpTo(k, m)
      requires !clean ==> icons[m] in k' && BackupName(icons[m]) in k'
      requires forall x | x != icons[m] && x != BackupName(icons[m]) :: Lookup(k', x) == Lookup(k, x)
      ensures !(neat && clean) ==> StuckUpTo(k', m + 1) && Stuck(k', icons)
    {
      if !clean {
        assert icons[m] in icons;
      } else if !neat {
        var i :| 0 <= i < m && icons[i] in k && BackupName(icons[i]) in k;
        NoBackupGathered(k0, i);
        NoBackupGathered(k0, m);
        StaysStuck(k, k', icons, icons[m], icons[i]);
        assert icons[i] in icons;
      }
    }

    lemma NoBackupGathered(k0: map<Name, Node>, i: nat)
      requires i < |icons| && Careful(k0)
      ensures BackupName(icons[i]) !in icons
    {
      assert icons[i] in icons;
    }

    lemma NextBack(k0: map<Name, Node>, k: map<Name, Node>, i: nat, moved: nat)
      requires Careful(k0) && i <= moved <= |icons| && i < |icons| && k == SetAside(k0, icons[i..moved])
      ensures var n := icons[i];
        if i < moved then
          BackupName(n) in k && n !in k &&
          (k - {BackupName(n)})[n := k[BackupName(n)]] == SetAside(k0, icons[i + 1..moved])
        else BackupName(n) !in k && k == k0
    {
      hide SetAside;
      assert icons[i] in icons;
      if i < moved {
        BringBack(k0, icons[i..moved]);
        assert icons[i..moved][1..] == icons[i + 1..moved];
      } else {
        assert icons[i..moved] == [];
        SetAsideNone(k0);
      }
    }

    lemma StaysJammed(k0: map<Name, Node>, k: map<Name, Node>, k': map<Name, Node>, i: nat, n: Name)
      requires Careful(k0) && i < |icons| && n in icons && n in k && BackupName(n) in k
      requires forall x | x != icons[i] && x != BackupName(icons[i]) :: Lookup(k', x) == Lookup(k, x)
      requires icons[i] == n ==> k' == k
      ensures n in k' && BackupName(n) in k'
    {
      if icons[i] != n {
        var j :| 0 <= j < |icons| && icons[j] == n;
        NoBackupGathered(k0, i);
        NoBackupGathered(k0, j);
        StaysStuck(k, k', icons, icons[i], n);
      }
    }

    /** Brings the icons back one by one; the first that cannot be moved ends it, also when it was never moved. */
    method Undo(ghost k0: map<Name, Node>, ghost moved: nat) returns (status: Status)
      requires Ready()
      modifies fs`root, fs`log
      ensures Ready() && SameOutside(old(fs.root), fs.root, iconDir)
      ensures !fs.faulty && Careful(k0) && old(Aside(k0, moved)) ==>
        Kids(fs.root, iconDir) == k0 && status == if moved == |icons| then OK else ICON_ERROR
      ensures !fs.faulty && Careful(k0) && old(Stuck(Kids(fs.root, iconDir), icons)) ==>
        Stuck(Kids(fs.root, iconDir), icons)
      ensures OnlyThese(old(Kids(fs.root, iconDir)), Kids(fs.root, iconDir), icons)
    {
      hide Cut, Put, Get, SetAside, OnlyThese, Once, NoStale;
      ghost var start := Kids(fs.root, iconDir);
      ghost var careful := !fs.faulty && Careful(k0) && Aside(k0, moved);
      ghost var jammed := !fs.faulty && Careful(k0) && Stuck(start, icons);
      ghost var n: Name := [];
      if jammed {
        n :| n in icons && n in start && BackupName(n) in start;
      }
      NothingMoved(start);
      var i := 0;
      while i < |icons|
        invariant 0 <= i <= |icons| && Ready() && SameOutside(old(fs.root), fs.root, iconDir)
        invariant OnlyThese(start, Kids(fs.root, iconDir), icons)
        invariant careful ==> i <= moved && Kids(fs.root, iconDir) == SetAside(k0, icons[i..moved])
        invariant jammed ==> n in Kids(fs.root, iconDir) && BackupName(n) in Kids(fs.root, iconDir)
      {
        ghost var k := Kids(fs.root, iconDir);
        if careful {
          NextBack(k0, k, i, moved);
        }
        var ok, _ := RenameIcon(fs, iconDir, BackupName(icons[i]), icons[i]);
        StillOnlyThese(start, k, Kids(fs.root, iconDir), icons, icons[i]);
        if jammed {
          StaysJammed(k0, k, Kids(fs.root, iconDir), i, n);
        }
        if !ok {
          return ICON_ERROR;
        }
        i := i + 1;
      }
      if careful {
        assert icons[i..moved] == [];
        SetAsideNone(k0);
      }
      return OK;
    }

    ghost predicate BackupsAreFiles(k: map<Name, Node>)
      reads this
    {
      forall n | n in icons && BackupName(n) in k :: k[BackupName(n)].File?
    }

    function BackupNames(n: nat): set<Name>
      requires n <= |icons|
      reads this
    {
      set i | 0 <= i < n :: BackupName(icons[i])
    }

    /** RemoveBackupIcons: what cannot be removed is only logged. */
    method Clean() returns (status: Status)
      requires Ready()
      modifies fs`root, fs`log
      ensures Ready() && SameOutside(old(fs.root), fs.root, iconDir) && status == OK
      ensures !fs.faulty && BackupsAreFiles(old(Kids(fs.root, iconDir))) ==>
        Kids(fs.root, iconDir) == old(Kids(fs.root, iconDir)) - BackupNames(|icons|)
      ensures forall n ::
        Lookup(Kids(fs.root, iconDir), n) == old(Lookup(Kids(fs.root, iconDir), n)) ||
        (IsBackupOf(icons, n) && n !in Kids(fs.root, iconDir))
    {
      hide Cut, Put, Get;
      ghost var k := Kids(fs.root, iconDir);
      assert k - BackupNames(0) == k;
      for i := 0 to |icons|
        invariant Ready() && SameOutside(old(fs.root), fs.root, iconDir)
        invariant !fs.faulty && BackupsAreFiles(k) ==> Kids(fs.root, iconDir) == k - BackupNames(i)
        invariant forall n ::
          Lookup(Kids(fs.root, iconDir), n) == Lookup(k, n) || (IsBackupOf(icons, n) && n !in Kids(fs.root, iconDir))
      {
        ghost var before := fs.root;
        var name := BackupName(icons[i]);
        var _ := fs.Remove(iconDir + [name]);
        RemovedName(before, fs.root, iconDir, name);
        assert BackupNames(i + 1) == BackupNames(i) + {name};
        assert k - BackupNames(i + 1) == (k - BackupNames(i)) - {name};
      }
      return OK;
    }
  }

  /** bf::remove of one name of a directory. */
  lemma RemovedName(t: Node, t': Node, d: Path, name: Name)
    requires d != [] && IsDir(t, d) && (t' == t || t' == Cut(t, d + [name]))
    ensures IsDir(t', d) && SameOutside(t, t', d)
    ensures t' == Cut(t, d + [name]) ==> Kids(t', d) == Kids(t, d) - {name}
    ensures CanRemove(t, d + [name]) <== (name in Kids(t, d) ==> Kids(t, d)[name].File?)
    ensures IsDir(t, d + [name]) <==> name in Kids(t, d) && Kids(t, d)[name].Dir?
  {
    CutBelow(t, d, [name]);
    GetCutAbove(t, d, [name]);
    GetAppend(t, d, [name]);
    assert Cut(Get(t, d).value, [name]).kids == Kids(t, d) - {name};
  }

  lemma SetAsideNone(k0: map<Name, Node>)
    ensures SetAside(k0, []) == k0
  {
  }

  lemma OneMoreAside(k0: map<Name, Node>, names: seq<Name>, i: nat)
    requires i < |names| && (forall n | n in names :: n in k0) && Once(names) && NoStale(k0, names)
    ensures var k, n := SetAside(k0, names[..i]), names[i];
      n in k && k[n] == k0[n] && SetAside(k0, names[..i + 1]) == (k - {n})[BackupName(n) := k[n]]
  {
    var rest := names[..i + 1];
    assert rest[..|rest| - 1] == names[..i] && rest[|rest| - 1] == names[i];
    SetAsideAt(k0, names[..i], names[i]);
    assert Lookup(SetAside(k0, names[..i]), names[i]) == Lookup(k0, names[i]);
  }

  /** k is the directory k1 with new entries of these names. */
  ghost predicate Created(k1: map<Name, Node>, k: map<Name, Node>, names: seq<Name>) {
    (forall n :: n in k <==> n in k1 || n in names) && (forall n | n in k1 :: n !in names && k[n] == k1[n]) &&
    forall n | n in names :: n in k && k[n].File?
  }

  lemma CreatedMore(k1: map<Name, Node>, k: map<Name, Node>, k': map<Name, Node>, names: seq<Name>, name: Name)
    requires Created(k1, k, names) && name !in k && k' - {name} == k - {name} && name in k' && k'[name].File?
    ensures Created(k1, k', names + [name])
  {
    forall n | n != name ensures (n in k' <==> n in k) && (n in k' ==> k'[n] == k[n]) {
      KidsBut(k', k, name, n);
      assert Lookup(k', n) == Lookup(k, n);
      assert Lookup(k', n).Some? == (n in k') && Lookup(k, n).Some? == (n in k);
    }
  }

  lemma IconExtension(s: string)
    ensures forall k: nat | LastDot(s, k) :: s[k..] == Extension(s) && s[k..] != ""
  {
    forall k: nat | LastDot(s, k) ensures s[k..] == Extension(s) && s[k..] != "" {
      assert s[k] in s;
      ExtensionAt(s);
      OneLastDot(s, k, |Stem(s)|);
    }
  }

  /** The file name of an app's icon: its id with the extension of the source. */
  function IconName(a: App): (n: Name)
    requires a.icon.Some? && a.icon.value != []
    ensures '.' !in Last(a.icon.value) ==> n == a.appid + ".png"
    ensures forall k: nat | LastDot(Last(a.icon.value), k) :: n == a.appid + Last(a.icon.value)[k..]
  {
    IconExtension(Last(a.icon.value));
    a.appid + if Extension(Last(a.icon.value)) != "" then Extension(Last(a.icon.value)) else ".png"
  }

  /** An app whose icon exists, outside the icon directory, has it there under its own name, one of `names`. */
  ghost predicate IconCopied(iconDir: Path, t0: Node, t: Node, names: seq<Name>, a: App) {
    a.icon.Some? && a.icon.value != [] && Independent(iconDir, a.icon.value) && Exists(t0, a.icon.value) ==>
      IconName(a) in names && Lookup(Kids(t, iconDir), IconName(a)) == Get(t0, a.icon.value)
  }

  predicate Wanted(t: Node, a: App) {
    a.icon.Some? && a.icon.value != [] && Exists(t, a.icon.value)
  }

  /** Every icon that is there is a file, and its name is free in the directory k and given only once. */
  ghost predicate Creatable(t: Node, k: map<Name, Node>, apps: seq<App>) {
    forall i | 0 <= i < |apps| :: CreatableAt(t, k, apps, i)
  }

  ghost predicate CreatableAt(t: Node, k: map<Name, Node>, apps: seq<App>, i: nat)
    requires i < |apps|
  {
    Wanted(t, apps[i]) ==>
      IsFile(t, apps[i].icon.value) && IconName(apps[i]) !in k && !NamedBefore(t, apps, i, IconName(apps[i]))
  }

  ghost predicate NamedBefore(t: Node, apps: seq<App>, n: nat, name: Name)
    requires n <= |apps|
  {
    exists j | 0 <= j < n && Wanted(t, apps[j]) :: IconName(apps[j]) == name
  }

  /** The icons to copy lie outside the icon directory. */
  predicate Elsewhere(iconDir: Path, apps: seq<App>) {
    forall a | a in apps && a.icon.Some? :: Independent(iconDir, a.icon.value)
  }

  lemma CreatableAlike(t: Node, t': Node, k: map<Name, Node>, iconDir: Path, apps: seq<App>)
    requires Elsewhere(iconDir, apps)
    requires forall q | Independent(iconDir, q) :: Get(t', q) == Get(t, q)
    ensures Creatable(t', k, apps) == Creatable(t, k, apps)
  {
    hide Get, IconName;
    forall i | 0 <= i < |apps| && apps[i].icon.Some?
      ensures Wanted(t', apps[i]) == Wanted(t, apps[i])
      ensures IsFile(t', apps[i].icon.value) == IsFile(t, apps[i].icon.value)
    {
      assert apps[i] in apps;
    }
    forall i | 0 <= i < |apps| ensures CreatableAt(t', k, apps, i) == CreatableAt(t, k, apps, i) {
    }
  }

  /** Nothing but icons of these apps. */
  ghost predicate NamesOf(names: seq<Name>, apps: seq<App>) {
    forall n | n in names :: exists a | a in apps :: a.icon.Some? && a.icon.value != [] && n == IconName(a)
  }

  /** Every entry that was there is there, and the recorded ones are new; unless something half done is left they
      are all that is new, and else something is that is not recorded. */
  ghost predicate KeptAndNew(k1: map<Name, Node>, k: map<Name, Node>, names: seq<Name>, tidy: bool) {
    (forall n | n in k1 :: Lookup(k, n) == Lookup(k1, n)) && (forall n | n in names :: n in k && n !in k1) &&
    if tidy then Created(k1, k, names) else exists n :: n in k && n !in k1 && n !in names
  }

  class StepCreateIcons {
    const fs: FileSystem
    const iconDir: Path
    const apps: seq<App>
    var icons: seq<Name>

    constructor (fs: FileSystem, iconDir: Path, apps: seq<App>)
      ensures this.fs == fs && this.iconDir == iconDir && this.apps == apps && icons == []
    {
      this.fs, this.iconDir, this.apps, icons := fs, iconDir, apps, [];
    }

    ghost predicate Named()
      reads this
    {
      iconDir != [] && forall a | a in apps && a.icon.Some? :: a.icon.value != []
    }

    ghost predicate Ready()
      reads this, fs
    {
      fs.Valid() && Named() && IsDir(fs.root, iconDir)
    }

    lemma StillCopied(t0: Node, t: Node, t': Node, names: seq<Name>, a: App, name: Name)
      requires IconCopied(iconDir, t0, t, names, a)
      requires Kids(t', iconDir) - {name} == Kids(t, iconDir) - {name} && name !in Kids(t, iconDir)
      ensures IconCopied(iconDir, t0, t', names + [name], a)
    {
      hide Get;
      if a.icon.Some? && a.icon.value != [] && IconName(a) != name {
        KidsBut(Kids(t', iconDir), Kids(t, iconDir), name, IconName(a));
      }
    }

    /** copy_file into the icon directory. */
    method CreateIcon(source: Path, name: Name) returns (ok: bool, tidy: bool)
      requires Ready() && source != []
      modifies fs`root, fs`log
      ensures Ready() && SameOutside(old(fs.root), fs.root, iconDir)
      ensures var k := old(Kids(fs.root, iconDir)); var k' := Kids(fs.root, iconDir);
        k' - {name} == k - {name} && (ok ==> tidy) && (tidy || (name !in k && name in k')) &&
        (ok ==> name !in k && name in k' && k'[name].File? && Some(k'[name]) == old(Get(fs.root, source))) &&
        (tidy && !ok ==> k' == k) && (!fs.faulty ==> tidy && ok == (name !in k && old(IsFile(fs.root, source))))
    {
      hide Cut, Put, Get;
      var target := iconDir + [name];
      var before := fs.root;
      assert Parent(target) == iconDir;
      EntryLookup(before, iconDir, name);
      ok := fs.CopyFile(source, target, false);
      SameOutsideEntry(before, fs.root, iconDir, name);
      EntryLookup(fs.root, iconDir, name);
      tidy := ok || Kids(fs.root, iconDir) == Kids(before, iconDir);
    }

    lemma EntryLookup(t: Node, d: Path, name: Name)
      requires IsDir(t, d)
      ensures Get(t, d + [name]) == Lookup(Kids(t, d), name)
    {
      GetAppend(t, d, [name]);
    }

    /** The directory is made when there is nothing. */
    method Process() returns (status: Status, tidy: bool)
      requires fs.Valid() && Named() && !IsFile(fs.root, iconDir) && icons == []
      modifies this`icons, fs`root, fs`log
      ensures fs.Valid() && status in {OK, ICON_ERROR, ERROR}
      ensures status == ERROR ==> !Exists(old(fs.root), iconDir) && icons == []
      ensures status != ERROR ==>
        Ready() && KeptAndNew(old(Kids(fs.root, iconDir)), Kids(fs.root, iconDir), icons, tidy)
      ensures forall q | !(iconDir <= q) :: FileAt(fs.root, q) == old(FileAt(fs.root, q))
      ensures Exists(old(fs.root), iconDir) ==> SameOutside(old(fs.root), fs.root, iconDir) && status != ERROR
      ensures NamesOf(icons, apps)
      ensures status == OK ==> forall a | a in apps :: IconCopied(iconDir, old(fs.root), fs.root, icons, a)
      ensures !fs.faulty ==> tidy
      ensures !fs.faulty && Elsewhere(iconDir, apps) ==>
        (status == OK <==>
         old((Exists(fs.root, iconDir) || ClearWay(fs.root, iconDir)) &&
             Creatable(fs.root, Kids(fs.root, iconDir), apps)))
    {
      hide Cut, Put, Get, MakeDirs, Created, IconCopied, KeptAndNew, Creatable, ClearWay;
      var before := fs.root;
      if !Exists(fs.root, iconDir) {
        var made := fs.CreateDirectories(iconDir);
        ghost var k :| 0 <= k <= |iconDir| && fs.root == MakeDirs(before, iconDir[..k]);
        forall q ensures FileAt(fs.root, q) == FileAt(before, q) {
          MakeDirsPoint(before, iconDir[..k], q);
        }
        if !made {
          return ERROR, true;
        }
        NewDirectory(before);
        if Elsewhere(iconDir, apps) {
          forall q | Independent(iconDir, q) ensures Get(fs.root, q) == Get(before, q) {
            MakeDirsOther(before, iconDir, q);
          }
          CreatableAlike(before, fs.root, map[], iconDir, apps);
        }
      }
      ghost var start := fs.root;
      status, tidy := CopyIcons();
      forall q | !(iconDir <= q) ensures FileAt(fs.root, q) == FileAt(before, q) {
        CutPoint(start, iconDir, q);
        CutPoint(fs.root, iconDir, q);
      }
      forall a | a in apps && status == OK ensures IconCopied(iconDir, before, fs.root, icons, a) {
        CopiedBefore(before, start, fs.root, a);
      }
    }

    lemma NewDirectory(t: Node)
      requires iconDir != [] && !Exists(t, iconDir) && ClearWay(t, iconDir)
      ensures IsDir(MakeDirs(t, iconDir), iconDir) && Kids(MakeDirs(t, iconDir), iconDir) == map[]
      ensures Kids(t, iconDir) == map[]
    {
      MakeDirsPoint(t, iconDir, iconDir);
      assert iconDir == Parent(iconDir) + [Last(iconDir)];
      ClearAbove(t, Parent(iconDir), Last(iconDir));
      MakeDirsStep(t, Parent(iconDir), Last(iconDir));
      MakeDirsPoint(t, Parent(iconDir), iconDir);
      assert FileAt(t, iconDir) == None && !(iconDir <= Parent(iconDir));
      assert !Exists(MakeDirs(t, Parent(iconDir)), iconDir);
      GetPut(MakeDirs(t, Parent(iconDir)), iconDir, EmptyDir);
    }

    lemma CopiedBefore(before: Node, start: Node, now: Node, a: App)
      requires start == before || start == MakeDirs(before, iconDir)
      requires IconCopied(iconDir, start, now, icons, a)
      ensures IconCopied(iconDir, before, now, icons, a)
    {
      if a.icon.Some? && Independent(iconDir, a.icon.value) {
        MakeDirsOther(before, iconDir, a.icon.value);
      }
    }

    /** An icon that is copied is recorded, one whose copy fails is not, whatever it left behind. */
    method CopyIcons() returns (status: Status, tidy: bool)
      requires Ready() && icons == []
      modifies this`icons, fs`root, fs`log
      ensures Ready() && SameOutside(old(fs.root), fs.root, iconDir) && status in {OK, ICON_ERROR}
      ensures KeptAndNew(old(Kids(fs.root, iconDir)), Kids(fs.root, iconDir), icons, tidy)
      ensures NamesOf(icons, apps)
      ensures status == OK ==> forall a | a in apps :: IconCopied(iconDir, old(fs.root), fs.root, icons, a)
      ensures !fs.faulty ==> tidy
      ensures !fs.faulty && Elsewhere(iconDir, apps) ==>
        (status == OK <==> old(Creatable(fs.root, Kids(fs.root, iconDir), apps)))
    {
      hide Cut, Put, Get, Created, KeptAndNew, CreatableAt, SoFar;
      ghost var t0 := fs.root;
      NothingSoFar(t0);
      for i := 0 to |apps|
        invariant Ready() && SoFar(t0, fs.root, i)
        invariant !fs.faulty && Elsewhere(iconDir, apps) ==>
          forall j | 0 <= j < i :: CreatableAt(t0, Kids(t0, iconDir), apps, j)
      {
        var ok;
        ok, tidy := CopyIconOf(i, t0);
        if !ok {
          return ICON_ERROR, tidy;
        }
      }
      IsSoFar(t0, fs.root, |apps|);
      return OK, true;
    }

    /** The first n icons are copied. */
    ghost predicate SoFar(t0: Node, t: Node, n: nat)
      requires n <= |apps| && iconDir != []
      reads this
    {
      SameOutside(t0, t, iconDir) && KeptAndNew(Kids(t0, iconDir), Kids(t, iconDir), icons, true) &&
      NamesOf(icons, apps) && (forall j | 0 <= j < n :: IconCopied(iconDir, t0, t, icons, apps[j])) &&
      (Elsewhere(iconDir, apps) ==> forall x :: x in icons <==> NamedBefore(t0, apps, n, x))
    }

    lemma NothingSoFar(t: Node)
      requires iconDir != [] && icons == []
      ensures SoFar(t, t, 0)
    {
      NothingCreated(Kids(t, iconDir));
    }

    lemma IsSoFar(t0: Node, t: Node, n: nat)
      requires n <= |apps| && iconDir != [] && SoFar(t0, t, n)
      ensures SameOutside(t0, t, iconDir) && KeptAndNew(Kids(t0, iconDir), Kids(t, iconDir), icons, true)
      ensures NamesOf(icons, apps) && forall j | 0 <= j < n :: IconCopied(iconDir, t0, t, icons, apps[j])
    {
    }

    /** One round of the loop. */
    method CopyIconOf(i: nat, ghost t0: Node) returns (ok: bool, tidy: bool)
      requires Ready() && i < |apps| && SoFar(t0, fs.root, i)
      modifies this`icons, fs`root, fs`log
      ensures Ready() && SameOutside(t0, fs.root, iconDir) && NamesOf(icons, apps)
      ensures KeptAndNew(Kids(t0, iconDir), Kids(fs.root, iconDir), icons, tidy) && (ok ==> tidy)
      ensures ok ==> SoFar(t0, fs.root, i + 1)
      ensures !fs.faulty ==>
        tidy && (Elsewhere(iconDir, apps) ==> ok == CreatableAt(t0, Kids(t0, iconDir), apps, i))
    {
      hide Cut, Put, Get, Created, KeptAndNew, NamedBefore;
      ok, tidy := true, true;
      ghost var t, k1 := fs.root, Kids(t0, iconDir);
      if apps[i].icon.Some? {
        assert apps[i] in apps;
        var source := apps[i].icon.value;
        if Independent(iconDir, source) {
          SameOutsideGet(t0, t, iconDir, source);
        }
        if Exists(fs.root, source) {
          var name := IconName(apps[i]);
          TakenSoFar(t0, t, i, name);
          ok, tidy := CreateIcon(source, name);
          KeptButNew(k1, Kids(t, iconDir), Kids(fs.root, iconDir), icons, name, ok, tidy);
          if !ok {
            return;
          }
          OneMoreIcon(t0, t, fs.root, i);
          icons := icons + [name];
          return;
        }
      }
      NoIcon(t0, t, i);
    }

    /** A name is taken if it was, or was given to an icon before. */
    lemma TakenSoFar(t0: Node, t: Node, n: nat, name: Name)
      requires n < |apps| && iconDir != [] && SoFar(t0, t, n)
      ensures Elsewhere(iconDir, apps) ==>
        (name in Kids(t, iconDir) <==> name in Kids(t0, iconDir) || NamedBefore(t0, apps, n, name))
    {
    }

    lemma NoIcon(t0: Node, t: Node, n: nat)
      requires n < |apps| && iconDir != [] && SoFar(t0, t, n) && Named()
      requires apps[n].icon.Some? ==> !Exists(t, apps[n].icon.value)
      ensures SoFar(t0, t, n + 1)
      ensures Elsewhere(iconDir, apps) ==> CreatableAt(t0, Kids(t0, iconDir), apps, n)
    {
      hide Get, IconName, Created;
      assert apps[n] in apps;
      if apps[n].icon.Some? && Independent(iconDir, apps[n].icon.value) {
        SameOutsideGet(t0, t, iconDir, apps[n].icon.value);
      }
      forall x ensures Elsewhere(iconDir, apps) ==> NamedBefore(t0, apps, n + 1, x) == NamedBefore(t0, apps, n, x) {
      }
    }

    lemma OneMoreIcon(t0: Node, t: Node, t': Node, n: nat)
      requires Ready() && n < |apps| && SoFar(t0, t, n) && SameOutside(t, t', iconDir)
      requires apps[n].icon.Some? && Exists(t, apps[n].icon.value)
      requires var name := IconName(apps[n]);
        name !in Kids(t, iconDir) && Kids(t', iconDir) - {name} == Kids(t, iconDir) - {name} &&
        KeptAndNew(Kids(t0, iconDir), Kids(t', iconDir), icons + [name], true) &&
        Lookup(Kids(t', iconDir), name) == Get(t, apps[n].icon.value)
      ensures SameOutside(t0, t', iconDir) && NamesOf(icons + [IconName(apps[n])], apps)
      ensures forall j | 0 <= j < n + 1 :: IconCopied(iconDir, t0, t', icons + [IconName(apps[n])], apps[j])
      ensures Elsewhere(iconDir, apps) ==>
        forall x :: x in icons + [IconName(apps[n])] <==> NamedBefore(t0, apps, n + 1, x)
    {
      hide Get, IconName, KeptAndNew, Cut;
      var name, source := IconName(apps[n]), apps[n].icon.value;
      assert apps[n] in apps;
      if Independent(iconDir, source) {
        SameOutsideGet(t0, t, iconDir, source);
      }
      forall j | 0 <= j <= n ensures IconCopied(iconDir, t0, t', icons + [name], apps[j]) {
        if j < n {
          StillCopied(t0, t, t', icons, apps[j], name);
        }
      }
      forall x ensures Elsewhere(iconDir, apps) ==>
        (NamedBefore(t0, apps, n + 1, x) <==> NamedBefore(t0, apps, n, x) || x == name)
      {
      }
    }

    lemma KeptButNew(k1: map<Name, Node>, k: map<Name, Node>, k': map<Name, Node>, names: seq<Name>, name: Name,
                     ok: bool, clean: bool)
      requires KeptAndNew(k1, k, names, true) && k' - {name} == k - {name}
      requires if ok then name !in k && name in k' && k'[name].File?
        else if clean then k' == k else name !in k && name in k'
      ensures if ok then KeptAndNew(k1, k', names + [name], true) else KeptAndNew(k1, k', names, clean)
    {
      hide Created;
      if ok {
        KeptBut(k1, k, k', name);
        CreatedMore(k1, k, k', names, name);
      } else {
        KeptLeft(k1, k, k', names, name, clean);
      }
    }

    lemma KeptLeft(k1: map<Name, Node>, k: map<Name, Node>, k': map<Name, Node>, names: seq<Name>, name: Name,
                   clean: bool)
      requires KeptAndNew(k1, k, names, true) && k' - {name} == k - {name}
      requires if clean then k' == k else name !in k && name in k'
      ensures KeptAndNew(k1, k', names, clean)
    {
      hide Created;
      KeptBut(k1, k, k', name);
      if !clean {
        assert name !in k1 && name !in names;
        forall n | n in names ensures n in k' && n !in k1 {
          assert Lookup(k', n) == Lookup(k, n) && Lookup(k, n).Some?;
        }
      }
    }

    lemma KeptBut(k1: map<Name, Node>, k: map<Name, Node>, k': map<Name, Node>, name: Name)
      requires k' - {name} == k - {name} && forall n | n in k1 :: Lookup(k, n) == Lookup(k1, n)
      ensures name !in k ==> forall n | n in k1 :: n != name && Lookup(k', n) == Lookup(k1, n)
      ensures forall n | n != name :: Lookup(k', n) == Lookup(k, n)
    {
      forall n | n != name ensures Lookup(k', n) == Lookup(k, n) {
        KidsBut(k', k, name, n);
      }
      forall n | n in k1 ensures n in k {
        assert Lookup(k, n) == Lookup(k1, n);
      }
    }

    /** remove_all of what was recorded. */
    method Undo() returns (status: Status)
      requires Ready()
      modifies fs`root, fs`log
      ensures Ready() && SameOutside(old(fs.root), fs.root, iconDir) && status == OK
      ensures !fs.faulty ==> Kids(fs.root, iconDir) == old(Kids(fs.root, iconDir)) - set n | n in icons
      ensures forall n ::
        Lookup(Kids(fs.root, iconDir), n) == old(Lookup(Kids(fs.root, iconDir), n)) ||
        (n in icons && n !in Kids(fs.root, iconDir))
    {
      hide Cut, Put, Get;
      ghost var k := Kids(fs.root, iconDir);
      for i := 0 to |icons|
        invariant Ready() && SameOutside(old(fs.root), fs.root, iconDir)
        invariant !fs.faulty ==> Kids(fs.root, iconDir) == k - set j | 0 <= j < i :: icons[j]
        invariant forall n ::
          Lookup(Kids(fs.root, iconDir), n) == Lookup(k, n) || (n in icons && n !in Kids(fs.root, iconDir))
      {
        ghost var before := fs.root;
        var _ := fs.RemoveAll(iconDir + [icons[i]]);
        RemovedName(before, fs.root, iconDir, icons[i]);
        assert (set j | 0 <= j < i + 1 :: icons[j]) == (set j | 0 <= j < i :: icons[j]) + {icons[i]};
      }
      assert (set j | 0 <= j < |icons| :: icons[j]) == set n | n in icons;
      return OK;
    }
  }

  /** A directory with something in the way is not restored. */
  lemma NotRestored(backup: StepBackupIcons, k0: map<Name, Node>, k2: map<Name, Node>, k: map<Name, Node>)
    requires backup.Careful(k0) && OnlyThese(k2, k, backup.icons) && InTheWay(backup.icons, k0, k2)
    requires Stuck(k2, backup.icons) ==> Stuck(k, backup.icons)
    ensures k != k0
  {
    if Stuck(k, backup.icons) {
      var n :| n in backup.icons && n in k && BackupName(n) in k;
      assert BackupName(n) !in k0;
    } else {
      var x :| x in k2 && x !in k0 && x !in backup.icons && !IsBackupOf(backup.icons, x);
      assert Lookup(k, x) == Lookup(k2, x);
    }
  }

  /** What is new in the directory with the old icons set aside either jams the undo or is new altogether. */
  lemma NewIsInTheWay(backup: StepBackupIcons, k0: map<Name, Node>, k2: map<Name, Node>, x: Name)
    requires backup.Careful(k0)
    requires var k1 := SetAside(k0, backup.icons); x in k2 && x !in k1 && forall n | n in k1 ::
      Lookup(k2, n) == Lookup(k1, n)
    ensures Stuck(k2, backup.icons) || (x !in k0 && x !in backup.icons && !IsBackupOf(backup.icons, x))
  {
    hide SetAside;
    var k1, names := SetAside(k0, backup.icons), backup.icons;
    SetAsideAt(k0, names, x);
    assert Lookup(k1, x) == None;
    if x in names {
      SetAsideAt(k0, names, BackupName(x));
      SameBackup(BackupName(x), x);
      assert BackupName(x) !in names;
      assert Lookup(k1, BackupName(x)).Some?;
      assert Lookup(k2, BackupName(x)) == Lookup(k1, BackupName(x));
    }
  }

  /** What undoing the creation leaves: the directory as the first step left it, or something in the way. */
  lemma Unmade(backup: StepBackupIcons, k0: map<Name, Node>, k1: map<Name, Node>, made: map<Name, Node>,
               created: seq<Name>, neat: bool, clean: bool)
    requires backup.Careful(k0) && KeptAndNew(k1, made, created, clean)
    requires if neat then k1 == SetAside(k0, backup.icons) else Stuck(k1, backup.icons)
    ensures var k2 := made - set n | n in created;
      (clean ==> k2 == k1) && (!(neat && clean) ==> InTheWay(backup.icons, k0, k2))
  {
    hide SetAside;
    var k2 := made - set n | n in created;
    assert forall n | n in k1 :: n in k2 && Lookup(k2, n) == Lookup(k1, n) by {
      forall n | n in k1 ensures n in k2 && Lookup(k2, n) == Lookup(k1, n) {
        assert Lookup(made, n) == Lookup(k1, n);
      }
    }
    if clean {
      assert forall n :: n in k2 <==> n in k1;
      assert k2 == k1;
    }
    if !neat {
      var n :| n in backup.icons && n in k1 && BackupName(n) in k1;
      assert Stuck(k2, backup.icons);
    } else if !clean {
      var x :| x in made && x !in k1 && x !in created;
      NewIsInTheWay(backup, k0, k2, x);
    }
  }

  /** Something keeps the undo from restoring k0: a pair of names, or an entry it does not know. */
  ghost predicate InTheWay(names: seq<Name>, k0: map<Name, Node>, k: map<Name, Node>) {
    Stuck(k, names) || exists x :: x in k && x !in k0 && x !in names && !IsBackupOf(names, x)
  }

  /** Both steps as a run makes them, with any faults until something is undone.  A failure of either, undone in
      reverse, gives the icon directory back if and only if nothing is in the way on the disk `stopped` where the
      undoing began; without faults nothing is.  Success leaves the directory without the old icons and with the new
      ones; without faults it comes if and only if these can be created once the old ones are set aside. */
  method ReplaceIcons(fs: FileSystem, iconDir: Path, oldApps: seq<App>, newApps: seq<App>)
    returns (ok: bool, gone: seq<Name>, created: seq<Name>, stopped: Node)
    requires fs.Valid() && iconDir != [] && IsDir(fs.root, iconDir)
    requires forall a | a in newApps && a.icon.Some? :: a.icon.value != []
    modifies fs
    ensures fs.Valid() && SameOutside(old(fs.root), fs.root, iconDir) && IsDir(fs.root, iconDir)
    ensures forall n :: n in gone <==>
      (n in old(Kids(fs.root, iconDir)) && old(Kids(fs.root, iconDir))[n].File? && IsIconOf(oldApps, n))
    ensures var k0, k := old(Kids(fs.root, iconDir)), Kids(fs.root, iconDir);
      DistinctIds(oldApps) && NoStale(k0, gone) ==>
        (!ok ==> (k == k0 <==> !InTheWay(gone, k0, Kids(stopped, iconDir) - set n | n in created))) &&
        (!ok && !old(fs.faulty) ==> k == k0) &&
        (!old(fs.faulty) && Elsewhere(iconDir, newApps) ==>
           (ok <==> Creatable(old(fs.root), SetAside(k0, gone), newApps))) &&
        (ok && !old(fs.faulty) ==>
           Created(k0 - (set n | n in gone), k, created) && NamesOf(created, newApps) &&
           forall a | a in newApps :: IconCopied(iconDir, old(fs.root), fs.root, created, a))
  {
    hide Cut, Put, Get, SetAside, Created, OnlyThese, Stuck, IconCopied, NoStale, KeptAndNew, InTheWay, Creatable;
    ghost var t0, k0 := fs.root, Kids(fs.root, iconDir);
    var backup := new StepBackupIcons(fs, iconDir, oldApps);
    var create := new StepCreateIcons(fs, iconDir, newApps);
    created := [];
    var status, moved, tidy;
    status, tidy, moved := backup.Process();
    gone := backup.icons;
    assert gone[..|gone|] == gone;
    stopped := fs.root;
    ghost var aside := fs.root;
    StuckIsInTheWay(gone, k0, Kids(aside, iconDir));
    CreatableOutside(t0, aside, iconDir, newApps);
    if status == OK {
      var clean;
      status, clean := create.Process();
      created := create.icons;
      if status == OK {
        KeptIsCreated(Kids(aside, iconDir), Kids(fs.root, iconDir), created);
        FinishIcons(backup, k0, t0, aside, created, newApps);
        return true, gone, created, stopped;
      }
      fs.faulty := false;
      stopped := fs.root;
      var _ := create.Undo();
      if backup.Careful(k0) {
        Unmade(backup, k0, Kids(aside, iconDir), Kids(stopped, iconDir), created, tidy, clean);
      }
      tidy := tidy && clean;
    }
    fs.faulty := false;
    ghost var k2 := Kids(fs.root, iconDir);
    assert k2 == Kids(stopped, iconDir) - set n | n in created;
    var _ := backup.Undo(k0, moved);
    if backup.Careful(k0) && InTheWay(gone, k0, k2) {
      NotRestored(backup, k0, k2, Kids(fs.root, iconDir));
    }
    return false, gone, created, stopped;
  }

  lemma CreatableOutside(t: Node, t': Node, iconDir: Path, apps: seq<App>)
    requires iconDir != [] && SameOutside(t, t', iconDir)
    ensures Elsewhere(iconDir, apps) ==> forall k :: Creatable(t', k, apps) == Creatable(t, k, apps)
  {
    hide Cut, Get;
    if Elsewhere(iconDir, apps) {
      forall q | Independent(iconDir, q) ensures Get(t', q) == Get(t, q) {
        SameOutsideGet(t, t', iconDir, q);
      }
      forall k ensures Creatable(t', k, apps) == Creatable(t, k, apps) {
        CreatableAlike(t, t', k, iconDir, apps);
      }
    }
  }

  /** The old icons' backups go when the new icons are there. */
  method FinishIcons(backup: StepBackupIcons, ghost k0: map<Name, Node>, ghost t0: Node, ghost aside: Node,
                     ghost created: seq<Name>, ghost newApps: seq<App>)
    requires backup.Ready() && SameOutside(t0, aside, backup.iconDir)
    requires forall a | a in newApps :: IconCopied(backup.iconDir, aside, backup.fs.root, created, a)
    modifies backup.fs`root, backup.fs`log
    ensures backup.Ready() && SameOutside(old(backup.fs.root), backup.fs.root, backup.iconDir)
    ensures !backup.fs.faulty && backup.Careful(k0) &&
            old(Created(SetAside(k0, backup.icons), Kids(backup.fs.root, backup.iconDir), created)) ==>
      Created(k0 - (set n | n in backup.icons), Kids(backup.fs.root, backup.iconDir), created) &&
      forall a | a in newApps :: IconCopied(backup.iconDir, t0, backup.fs.root, created, a)
  {
    hide Cut, Put, Get, SetAside, Created, IconCopied, NoStale;
    ghost var copied, d := backup.fs.root, backup.iconDir;
    CarefulNames(backup, k0);
    var _ := CleanIcons(backup, k0, created);
    if !backup.fs.faulty && backup.Careful(k0) && Created(SetAside(k0, backup.icons), Kids(copied, d), created) {
      forall a | a in newApps ensures IconCopied(d, t0, backup.fs.root, created, a) {
        assert IconCopied(d, aside, copied, created, a);
        IconStays(d, t0, aside, copied, backup.fs.root, created, a);
      }
    }
  }

  lemma KeptIsCreated(k1: map<Name, Node>, k: map<Name, Node>, names: seq<Name>)
    ensures KeptAndNew(k1, k, names, true) ==> Created(k1, k, names)
  {
  }

  lemma CarefulNames(backup: StepBackupIcons, k0: map<Name, Node>)
    ensures backup.Careful(k0) ==>
      (forall n | n in backup.icons :: n in k0 && k0[n].File?) && Once(backup.icons) && NoStale(k0, backup.icons)
  {
  }

  lemma StuckIsInTheWay(names: seq<Name>, k0: map<Name, Node>, k: map<Name, Node>)
    ensures Stuck(k, names) ==> InTheWay(names, k0, k)
  {
  }

  lemma IconStays(iconDir: Path, t0: Node, aside: Node, copied: Node, now: Node, created: seq<Name>, a: App)
    requires iconDir != [] && SameOutside(t0, aside, iconDir) && IconCopied(iconDir, aside, copied, created, a)
    requires forall n | n in created :: Lookup(Kids(now, iconDir), n) == Lookup(Kids(copied, iconDir), n)
    ensures IconCopied(iconDir, t0, now, created, a)
  {
    if a.icon.Some? && a.icon.value != [] && Independent(iconDir, a.icon.value) {
      SameOutsideGet(t0, aside, iconDir, a.icon.value);
    }
  }

  /** A disk on which the undo fails: a fault has cut the copy of an icon short, where the rename failed.  The
      truncated file stays, and so do all icons that were to be brought back after it. */
  method UndoOverTorn(backup: StepBackupIcons, name: Name, part: string) returns (status: Status)
    requires backup.Ready() && !backup.fs.faulty
    requires backup.Careful(Kids(backup.fs.root, backup.iconDir)) && name in backup.icons
    modifies backup.fs`root, backup.fs`log
    ensures backup.Ready() && Kids(backup.fs.root, backup.iconDir) != old(Kids(backup.fs.root, backup.iconDir))
    ensures Stuck(Kids(backup.fs.root, backup.iconDir), backup.icons)
  {
    hide Cut, Put, Get;
    var fs, d := backup.fs, backup.iconDir;
    ghost var k0 := Kids(fs.root, d);
    TornCopy(fs.root, d, name, part);
    fs.Commit(Put(fs.root, d + [BackupName(name)], File(part)));
    status := backup.Undo(k0, 0);
    StuckIsInTheWay(backup.icons, k0, Kids(fs.root, d));
    ItIsOnlyThese(Kids(fs.root, d), backup.icons);
    NotRestored(backup, k0, Kids(fs.root, d), Kids(fs.root, d));
  }

  lemma ItIsOnlyThese(k: map<Name, Node>, names: seq<Name>)
    ensures OnlyThese(k, k, names)
  {
  }

  lemma TornCopy(t: Node, d: Path, name: Name, part: string)
    requires d != [] && t.Dir? && IsDir(t, d) && name in Kids(t, d)
    ensures var torn := Put(t, d + [BackupName(name)], File(part));
      torn.Dir? && IsDir(torn, d) && name in Kids(torn, d) && BackupName(name) in Kids(torn, d)
  {
    hide Cut, Get;
    var target := d + [BackupName(name)];
    var torn := Put(t, target, File(part));
    assert Parent(target) == d;
    PutRoot(t, target, File(part));
    GetPut(t, target, File(part));
    CutPut(t, target, File(part));
    SameOutsideEntry(t, torn, d, BackupName(name));
    KidsBut(Kids(torn, d), Kids(t, d), BackupName(name), name);
    GetAppend(torn, d, [BackupName(name)]);
    assert Lookup(Kids(torn, d), name) == Lookup(Kids(t, d), name);
  }

  method CleanIcons(backup: StepBackupIcons, ghost k0: map<Name, Node>, ghost created: seq<Name>)
    returns (status: Status)
    requires backup.Ready()
    modifies backup.fs`root, backup.fs`log
    ensures backup.Ready() && SameOutside(old(backup.fs.root), backup.fs.root, backup.iconDir)
    ensures var gone := backup.icons;
      !backup.fs.faulty &&
      (forall n | n in gone :: n in k0 && k0[n].File?) && Once(gone) && NoStale(k0, gone) &&
      Created(SetAside(k0, gone), old(Kids(backup.fs.root, backup.iconDir)), created) ==>
      Created(k0 - (set n | n in gone), Kids(backup.fs.root, backup.iconDir), created) &&
      forall n | n in created ::
        Lookup(Kids(backup.fs.root, backup.iconDir), n) == old(Lookup(Kids(backup.fs.root, backup.iconDir), n))
  {
    hide Cut, Put, Get, SetAside, Created;
    ghost var k2, gone := Kids(backup.fs.root, backup.iconDir), backup.icons;
    status := backup.Clean();
    if (forall n | n in gone :: n in k0 && k0[n].File?) && Once(gone) && NoStale(k0, gone) &&
      Created(SetAside(k0, gone), k2, created)
    {
      IconsReplaced(k0, k2, gone, created);
      BackupsKept(k0, k2, gone, created);
      assert backup.BackupNames(|gone|) == set n | n in gone :: BackupName(n);
    }
  }

  lemma BackupsKept(k0: map<Name, Node>, k2: map<Name, Node>, gone: seq<Name>, created: seq<Name>)
    requires (forall n | n in gone :: n in k0 && k0[n].File?) && Once(gone) && NoStale(k0, gone)
    requires Created(SetAside(k0, gone), k2, created)
    ensures forall n | n in gone :: BackupName(n) in k2 && k2[BackupName(n)].File?
  {
    hide SetAside;
    forall n | n in gone ensures BackupName(n) in k2 && k2[BackupName(n)].File? {
      SetAsideAt(k0, gone, BackupName(n));
      SameBackup(BackupName(n), n);
      assert Lookup(SetAside(k0, gone), BackupName(n)) == Some(k0[n]);
      assert k2[BackupName(n)] == SetAside(k0, gone)[BackupName(n)];
    }
  }

  /** The old icons' backups removed from the directory that has the new icons. */
  lemma IconsReplaced(k0: map<Name, Node>, k2: map<Name, Node>, gone: seq<Name>, created: seq<Name>)
    requires (forall n | n in gone :: n in k0 && k0[n].File?) && Once(gone) && NoStale(k0, gone)
    requires Created(SetAside(k0, gone), k2, created)
    ensures var cleaned := k2 - (set n | n in gone :: BackupName(n));
      Created(k0 - (set n | n in gone), cleaned, created) &&
      forall n | n in created :: Lookup(cleaned, n) == Lookup(k2, n)
  {
    hide SetAside;
    var k1 := SetAside(k0, gone);
    var plain, cleaned := k0 - (set n | n in gone), k2 - (set n | n in gone :: BackupName(n));
    forall x
      ensures x in cleaned <==> x in plain || x in created
      ensures x in plain ==> x !in created && cleaned[x] == plain[x]
      ensures x in created ==> x in cleaned && cleaned[x].File?
    {
      SetAsideAt(k0, gone, x);
      assert Lookup(k1, x).Some? == (x in k1);
      assert x in plain <==> x in k0 && x !in gone;
      if exists n :: n in gone && x == BackupName(n) {
        assert x in k1 && x !in created && x !in k0;
        assert x !in cleaned;
      } else {
        assert x in cleaned <==> x in k2;
      }
    }
  }

  lemma NothingCreated(k: map<Name, Node>)
    ensures Created(k, k, [])
  {
  }
}
