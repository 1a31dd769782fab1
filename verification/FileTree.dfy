/** Directory trees as values: what a path names, how one path is replaced or removed, and how two
    trees are merged.  The class in FileSystem.dfy holds such a tree and changes it step by step. */
module FileTree {
  type Name = string
  type Path = seq<Name>

  datatype Option<+T> = None | Some(value: T) {
    function GetOr(default: T): T {
      if Some? then value else default
    }
  }

  /** A leaf is a regular file, or a symbolic link to one that is only ever copied as it stands. */
  datatype Node = File(content: string) | Dir(kids: map<Name, Node>)

  const EmptyDir := Dir(map[])

  function Parent(p: Path): Path
    requires p != []
  {
    p[..|p| - 1]
  }

  function Last(p: Path): Name
    requires p != []
  {
    p[|p| - 1]
  }

  /** Neither path lies at or below the other. */
  predicate Independent(p: Path, q: Path) {
    !(p <= q) && !(q <= p)
  }

  function Get(t: Node, p: Path): Option<Node> {
    if p == [] then Some(t)
    else if t.Dir? && p[0] in t.kids then Get(t.kids[p[0]], p[1..])
    else None
  }

  predicate Exists(t: Node, p: Path) {
    Get(t, p).Some?
  }

  predicate IsDir(t: Node, p: Path) {
    Get(t, p).Some? && Get(t, p).value.Dir?
  }

  predicate IsFile(t: Node, p: Path) {
    Get(t, p).Some? && Get(t, p).value.File?
  }

  /** The content of the file at p, if there is one. */
  function FileAt(t: Node, p: Path): Option<string> {
    if IsFile(t, p) then Some(Get(t, p).value.content) else None
  }

  /** t with n at p; unchanged when the directory that should hold p is missing. */
  function Put(t: Node, p: Path, n: Node): Node {
    if p == [] then n
    else if t.File? then t
    else if |p| == 1 then Dir(t.kids[p[0] := n])
    else if p[0] in t.kids then Dir(t.kids[p[0] := Put(t.kids[p[0]], p[1..], n)])
    else t
  }

  /** t without whatever is at p. */
  function Cut(t: Node, p: Path): Node
    requires p != []
  {
    if t.File? || p[0] !in t.kids then t
    else if |p| == 1 then Dir(t.kids - {p[0]})
    else Dir(t.kids[p[0] := Cut(t.kids[p[0]], p[1..])])
  }

  /** a and b differ at most at and below p. */
  predicate SameOutside(a: Node, b: Node, p: Path)
    requires p != []
  {
    Cut(a, p) == Cut(b, p)
  }

  /** a and b differ at most at and below p and q. */
  predicate SameOutside2(a: Node, b: Node, p: Path, q: Path)
    requires p != [] && q != []
  {
    Cut(Cut(a, p), q) == Cut(Cut(b, p), q)
  }

  lemma {:induction false} GetAppend(t: Node, p: Path, q: Path)
    ensures Get(t, p + q) == if Exists(t, p) then Get(Get(t, p).value, q) else None
  {
    if p == [] {
      assert p + q == q;
    } else if t.Dir? && p[0] in t.kids {
      assert (p + q)[1..] == p[1..] + q;
      GetAppend(t.kids[p[0]], p[1..], q);
    }
  }

  lemma {:induction false} GetPut(t: Node, p: Path, n: Node)
    requires p != [] && IsDir(t, Parent(p))
    ensures Get(Put(t, p, n), p) == Some(n)
  {
    if |p| > 1 {
      assert Parent(p)[1..] == Parent(p[1..]);
      GetPut(t.kids[p[0]], p[1..], n);
    }
  }

  lemma {:induction false} GetPutOther(t: Node, p: Path, n: Node, q: Path)
    requires Independent(p, q)
    ensures Get(Put(t, p, n), q) == Get(t, q)
  {
    if t.Dir? && p[0] == q[0] && p[0] in t.kids && |p| > 1 {
      IndependentTail(p, q);
      GetPutOther(t.kids[p[0]], p[1..], n, q[1..]);
    }
  }

  lemma IndependentTail(p: Path, q: Path)
    requires Independent(p, q) && p[0] == q[0]
    ensures Independent(p[1..], q[1..])
  {
    assert p == [p[0]] + p[1..] && q == [q[0]] + q[1..];
  }

  lemma {:induction false} GetCutOther(t: Node, p: Path, q: Path)
    requires Independent(p, q)
    ensures Get(Cut(t, p), q) == Get(t, q)
  {
    if t.Dir? && p[0] == q[0] && p[0] in t.kids && |p| > 1 {
      IndependentTail(p, q);
      GetCutOther(t.kids[p[0]], p[1..], q[1..]);
    }
  }

  lemma {:induction false} GetCut(t: Node, p: Path)
    requires p != []
    ensures Get(Cut(t, p), p) == None
  {
    if t.Dir? && p[0] in t.kids && |p| > 1 {
      GetCut(t.kids[p[0]], p[1..]);
    }
  }

  /** Removing p leaves the directories above it in place. */
  lemma {:induction false} GetCutAbove(t: Node, q: Path, r: Path)
    requires r != []
    ensures Get(Cut(t, q + r), q) == if Exists(t, q) then Some(Cut(Get(t, q).value, r)) else None
  {
    if q == [] {
      assert q + r == r;
    } else if t.Dir? && q[0] in t.kids {
      assert (q + r)[1..] == q[1..] + r;
      GetCutAbove(t.kids[q[0]], q[1..], r);
    }
  }

  lemma {:induction false} CutPut(t: Node, p: Path, n: Node)
    requires p != []
    ensures Cut(Put(t, p, n), p) == Cut(t, p)
  {
    if t.Dir? {
      if |p| == 1 {
        assert t.kids[p[0] := n] - {p[0]} == t.kids - {p[0]};
      } else if p[0] in t.kids {
        CutPut(t.kids[p[0]], p[1..], n);
      }
    }
  }

  lemma {:induction false} CutCut(t: Node, p: Path)
    requires p != []
    ensures Cut(Cut(t, p), p) == Cut(t, p)
  {
    if t.Dir? && p[0] in t.kids && |p| > 1 {
      CutCut(t.kids[p[0]], p[1..]);
    }
  }

  /** Removing something below p and then p is the same as removing p. */
  lemma {:induction false} CutBelow(t: Node, p: Path, r: Path)
    requires p != [] && r != []
    ensures Cut(Cut(t, p + r), p) == Cut(t, p)
  {
    assert (p + r)[0] == p[0];
    if t.Dir? && p[0] in t.kids {
      if |p| == 1 {
        assert (p + r)[1..] == r;
        assert t.kids[p[0] := Cut(t.kids[p[0]], r)] - {p[0]} == t.kids - {p[0]};
      } else {
        assert (p + r)[1..] == p[1..] + r;
        CutBelow(t.kids[p[0]], p[1..], r);
      }
    }
  }

  lemma {:induction false} CutCommute(t: Node, p: Path, q: Path)
    requires Independent(p, q)
    ensures Cut(Cut(t, p), q) == Cut(Cut(t, q), p)
  {
    if t.Dir? {
      if p[0] == q[0] {
        if |p| > 1 && |q| > 1 && p[0] in t.kids {
          IndependentTail(p, q);
          CutCommute(t.kids[p[0]], p[1..], q[1..]);
        }
      } else {
        var a, b := Cut(Cut(t, p), q).kids, Cut(Cut(t, q), p).kids;
        assert a.Keys == b.Keys;
        assert forall k | k in a :: a[k] == b[k];
        assert a == b;
      }
    }
  }

  /** Putting n at p, seen at every path. */
  lemma {:induction false} PutPoint(t: Node, p: Path, n: Node, q: Path)
    requires p != [] && IsDir(t, Parent(p))
    ensures FileAt(Put(t, p, n), q) == if p <= q then FileAt(n, q[|p|..]) else FileAt(t, q)
    ensures IsDir(Put(t, p, n), q) == if p <= q then IsDir(n, q[|p|..]) else IsDir(t, q)
  {
    if q != [] && q[0] == p[0] {
      assert q == [q[0]] + q[1..] && p == [p[0]] + p[1..];
      if |p| > 1 {
        assert Parent(p)[1..] == Parent(p[1..]);
        PutPoint(t.kids[p[0]], p[1..], n, q[1..]);
        assert p <= q <==> p[1..] <= q[1..];
        assert p <= q ==> q[|p|..] == q[1..][|p[1..]|..];
      } else {
        assert p <= q && q[|p|..] == q[1..];
      }
    }
  }

  /** Removing p, seen at every path. */
  lemma {:induction false} CutPoint(t: Node, p: Path, q: Path)
    requires p != []
    ensures FileAt(Cut(t, p), q) == if p <= q then None else FileAt(t, q)
    ensures IsDir(Cut(t, p), q) == (!(p <= q) && IsDir(t, q))
  {
    if q != [] && q[0] == p[0] {
      assert q == [q[0]] + q[1..] && p == [p[0]] + p[1..];
      if t.Dir? && p[0] in t.kids && |p| > 1 {
        CutPoint(t.kids[p[0]], p[1..], q[1..]);
        assert p <= q <==> p[1..] <= q[1..];
      } else if |p| == 1 {
        assert p <= q;
      }
    }
  }

  /** Every prefix of a path that names something names a directory. */
  lemma {:induction false} PrefixIsDir(t: Node, p: Path, q: Path)
    requires Exists(t, q) && p <= q && p != q
    ensures IsDir(t, p)
  {
    assert q == p + q[|p|..];
    GetAppend(t, p, q[|p|..]);
  }

  /** t with the directory p and those above it, as far as no file is in the way. */
  function MakeDirs(t: Node, p: Path): Node
    decreases |p|
  {
    if p == [] || t.File? then t
    else Dir(t.kids[p[0] := MakeDirs(if p[0] in t.kids then t.kids[p[0]] else EmptyDir, p[1..])])
  }

  /** No file stands at p or above it. */
  predicate ClearWay(t: Node, p: Path) {
    t.Dir? && (p == [] || p[0] !in t.kids || ClearWay(t.kids[p[0]], p[1..]))
  }

  /** One mkdir more. */
  lemma {:induction false} MakeDirsStep(t: Node, p: Path, name: Name)
    requires t.Dir? && ClearWay(t, p)
    ensures var r, q := MakeDirs(t, p), p + [name];
      r.Dir? && IsDir(r, p) &&
      MakeDirs(t, q) == (if Exists(r, q) then r else Put(r, q, EmptyDir)) && ClearWay(t, q) == !IsFile(r, q)
    decreases |p|
  {
    var q := p + [name];
    if p == [] {
      var below := if name in t.kids then t.kids[name] else EmptyDir;
      assert q[0] == name && q[1..] == [];
      assert MakeDirs(t, q) == Dir(t.kids[name := MakeDirs(below, [])]);
      assert name in t.kids ==> t.kids[name := below] == t.kids && Get(t, q) == Get(below, []);
      assert name in t.kids ==> ClearWay(t, q) == ClearWay(below, []);
    } else {
      assert q[1..] == p[1..] + [name];
      var below := if p[0] in t.kids then t.kids[p[0]] else EmptyDir;
      MakeDirsStep(below, p[1..], name);
    }
  }

  lemma {:induction false} MakeDirsPoint(t: Node, p: Path, q: Path)
    ensures FileAt(MakeDirs(t, p), q) == FileAt(t, q)
    ensures IsDir(MakeDirs(t, p), q) == (IsDir(t, q) || (ClearWay(t, p) && q <= p))
    decreases |p|
  {
    if p != [] && t.Dir? && q != [] && q[0] == p[0] {
      var below := if p[0] in t.kids then t.kids[p[0]] else EmptyDir;
      MakeDirsPoint(below, p[1..], q[1..]);
      assert q == [q[0]] + q[1..] && p == [p[0]] + p[1..];
      assert q <= p <==> q[1..] <= p[1..];
      if p[0] !in t.kids {
        assert ClearWay(below, p[1..]);
        assert q[1..] == [] ==> q[1..] <= p[1..];
      }
    }
  }

  /** What is not above p stays the same, also below a directory that is made. */
  lemma {:induction false} MakeDirsOther(t: Node, p: Path, q: Path)
    requires !(q <= p)
    ensures Get(MakeDirs(t, p), q) == Get(t, q)
    decreases |p|
  {
    if p != [] && t.Dir? && p[0] == q[0] {
      assert p == [p[0]] + p[1..] && q == [q[0]] + q[1..];
      var below := if p[0] in t.kids then t.kids[p[0]] else EmptyDir;
      MakeDirsOther(below, p[1..], q[1..]);
    }
  }

  /** What is clear all the way is clear above. */
  lemma {:induction false} ClearAbove(t: Node, p: Path, name: Name)
    requires ClearWay(t, p + [name])
    ensures ClearWay(t, p)
    decreases |p|
  {
    if p != [] && p[0] in t.kids {
      assert (p + [name])[1..] == p[1..] + [name];
      ClearAbove(t.kids[p[0]], p[1..], name);
    }
  }

  /** A tree that is the same outside p, and the same at p, is the same. */
  lemma {:induction false} SameEverywhere(a: Node, b: Node, p: Path)
    requires p != [] && SameOutside(a, b, p) && Get(a, p) == Get(b, p)
    ensures a == b
  {
    if a.Dir? && b.Dir? {
      if p[0] in a.kids && p[0] in b.kids {
        if |p| > 1 {
          var ca, cb := Cut(a, p).kids, Cut(b, p).kids;
          assert ca[p[0]] == cb[p[0]];
          SameEverywhere(a.kids[p[0]], b.kids[p[0]], p[1..]);
        }
        assert forall k | k in a.kids && k != p[0] :: k in Cut(a, p).kids && a.kids[k] == Cut(a, p).kids[k];
        assert forall k | k in b.kids && k != p[0] :: k in Cut(b, p).kids && b.kids[k] == Cut(b, p).kids[k];
        assert a.kids.Keys == b.kids.Keys;
        assert a.kids == b.kids;
      } else if |p| > 1 {
        assert Cut(a, p).kids.Keys == a.kids.Keys && Cut(b, p).kids.Keys == b.kids.Keys;
      }
    }
  }

  /** What a directory looks like after a change at one of its entries. */
  lemma {:induction false} SameOutsideEntry(a: Node, b: Node, p: Path, name: Name)
    requires p != [] && SameOutside(a, b, p + [name])
    requires IsDir(a, p)
    ensures SameOutside(a, b, p)
    ensures IsDir(b, p)
    ensures Get(b, p).value.kids - {name} == Get(a, p).value.kids - {name}
    ensures Get(b, p + [name]) == if name in Get(b, p).value.kids then Some(Get(b, p).value.kids[name]) else None
  {
    CutBelow(a, p, [name]);
    CutBelow(b, p, [name]);
    GetCutAbove(a, p, [name]);
    GetCutAbove(b, p, [name]);
    GetAppend(b, p, [name]);
    var na, nb := Get(a, p).value, Get(b, p).value;
    assert Cut(na, [name]) == Cut(nb, [name]);
    assert Cut(na, [name]).kids == na.kids - {name};
    assert Cut(nb, [name]).kids == nb.kids - {name};
  }

  /** Copying s over d without replacing anything: directories merge, an existing target wins. */
  function Merge(s: Node, d: Node): Node {
    if s.Dir? && d.Dir? then
      Dir(map k | k in s.kids.Keys + d.kids.Keys ::
            if k in s.kids && k in d.kids then Merge(s.kids[k], d.kids[k])
            else if k in s.kids then s.kids[k]
            else d.kids[k])
    else d
  }

  /** What copying s to a place that may hold d leaves there. */
  function Overlay(s: Node, d: Option<Node>): Node {
    if d.None? then s else Merge(s, d.value)
  }

  /** No directory of s meets a file of d, unless there is nothing to copy out of it. */
  predicate KindCompatible(s: Node, d: Node) {
    s.Dir? ==>
      (d.Dir? ==> forall k | k in s.kids && k in d.kids :: KindCompatible(s.kids[k], d.kids[k])) &&
      (d.File? ==> s.kids == map[])
  }

  lemma MergeIntoEmpty(s: Node)
    requires s.Dir?
    ensures Merge(s, EmptyDir) == s
  {
    assert Merge(s, EmptyDir).kids == s.kids;
  }

  /** The tree d has an entry at q, or a file above q. */
  predicate Claims(d: Node, q: Path) {
    q == [] || d.File? || (q[0] in d.kids && Claims(d.kids[q[0]], q[1..]))
  }

  /** Merging is a left-biased union: the target decides every path it claims, the source the rest. */
  lemma {:induction false} MergeFileAt(s: Node, d: Node, q: Path)
    requires s.Dir?
    ensures FileAt(Merge(s, d), q) == if Claims(d, q) then FileAt(d, q) else FileAt(s, q)
  {
    if d.Dir? && q != [] && (q[0] in s.kids <==> q[0] !in d.kids) {
      var from := if q[0] in s.kids then s.kids[q[0]] else d.kids[q[0]];
      assert Merge(s, d).kids[q[0]] == from;
      ClaimedFile(d, q);
    } else if d.Dir? && q != [] && q[0] in s.kids {
      if s.kids[q[0]].Dir? {
        MergeFileAt(s.kids[q[0]], d.kids[q[0]], q[1..]);
      } else {
        assert |q| == 1 ==> q[1..] == [];
        assert |q| > 1 ==> Get(s, q) == Get(s.kids[q[0]], q[1..]) == None;
        ClaimedFile(d.kids[q[0]], q[1..]);
      }
    }
  }

  lemma {:induction false} ClaimedFile(d: Node, q: Path)
    ensures FileAt(d, q).Some? ==> Claims(d, q)
  {
    if d.Dir? && q != [] && q[0] in d.kids {
      ClaimedFile(d.kids[q[0]], q[1..]);
    }
  }

  /** Everything in d is in s, and is the same there. */
  predicate Contained(d: Node, s: Node) {
    if d.Dir? && s.Dir? then forall k | k in d.kids :: k in s.kids && Contained(d.kids[k], s.kids[k]) else d == s
  }

  /** Copying a tree over one that it contains is the only copying that leaves the tree itself. */
  lemma {:induction false} MergeIsSource(s: Node, d: Node)
    ensures Merge(s, d) == s <==> Contained(d, s)
  {
    if s.Dir? && d.Dir? {
      var m := Merge(s, d).kids;
      forall k | k in d.kids
        ensures k in m && (k in s.kids ==> (m[k] == s.kids[k] <==> Contained(d.kids[k], s.kids[k])))
      {
        if k in s.kids {
          MergeIsSource(s.kids[k], d.kids[k]);
        }
      }
      if Contained(d, s) {
        assert m.Keys == s.kids.Keys;
        assert m == s.kids;
      } else {
        var k :| k in d.kids && !(k in s.kids && Contained(d.kids[k], s.kids[k]));
        assert k in m && (k in s.kids ==> m[k] != s.kids[k]);
      }
    }
  }

  /** What contains a tree agrees with it at every path. */
  lemma {:induction false} ContainedAt(d: Node, s: Node, q: Path)
    requires Contained(d, s) && Exists(d, q)
    ensures FileAt(s, q) == FileAt(d, q) && IsDir(s, q) == IsDir(d, q)
  {
    if d.Dir? && s.Dir? && q != [] {
      ContainedAt(d.kids[q[0]], s.kids[q[0]], q[1..]);
    }
  }
}
