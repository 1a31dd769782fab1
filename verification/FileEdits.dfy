/** Single-file edits of a tree, seen at every path. */
module FileEdits {
  import opened FileTree
  import opened FileSystem

  /** b is a with another content at the file dest. */
  ghost predicate OnlyFile(a: Node, b: Node, dest: Path) {
    (forall q | q != dest :: FileAt(b, q) == FileAt(a, q)) && forall q :: IsDir(b, q) == IsDir(a, q)
  }

  lemma Under(p: Path, q: Path, r: Path)
    requires Independent(p, q)
    ensures !(p <= q + r) && p + r != q + r && !(p <= Parent(q + r)) && Independent(p, q + r)
  {
    var i := if |p| <= |q| then FirstDifference(p, q) else FirstDifference(q, p);
    assert (p + r)[i] == p[i] && (q + r)[i] == q[i];
    assert Parent(q + r) == (q + r)[..|q + r| - 1];
    assert i < |Parent(q + r)| ==> Parent(q + r)[i] == q[i];
  }

  lemma CopyIsOnlyFile(a: Node, b: Node, dest: Path)
    requires dest != [] && SameOutside(a, b, dest) && IsFile(b, dest) && !IsDir(a, dest) && IsDir(a, Parent(dest))
    ensures OnlyFile(a, b, dest)
  {
    var n := Get(b, dest).value;
    GetPut(a, dest, n);
    CutPut(a, dest, n);
    SameEverywhere(b, Put(a, dest, n), dest);
    forall q ensures (q != dest ==> FileAt(b, q) == FileAt(a, q)) && IsDir(b, q) == IsDir(a, q) {
      PutPoint(a, dest, n, q);
      if dest <= q && q != dest {
        NothingBelowFile(a, dest, q);
        assert q[|dest|..] != [];
      } else if q == dest {
        assert q[|dest|..] == [];
      }
    }
  }

  lemma CutIsOnlyFile(a: Node, dest: Path)
    requires dest != [] && !IsDir(a, dest)
    ensures OnlyFile(a, Cut(a, dest), dest) && FileAt(Cut(a, dest), dest) == None
  {
    forall q ensures (q != dest ==> FileAt(Cut(a, dest), q) == FileAt(a, q)) && IsDir(Cut(a, dest), q) == IsDir(a, q) {
      CutPoint(a, dest, q);
      if dest <= q && q != dest {
        NothingBelowFile(a, dest, q);
      }
    }
    CutPoint(a, dest, dest);
  }

  lemma NothingBelowFile(t: Node, p: Path, q: Path)
    requires !IsDir(t, p) && p <= q && p != q
    ensures !Exists(t, q)
  {
    if Exists(t, q) {
      PrefixIsDir(t, p, q);
    }
  }

  /** What can be removed has nothing below it. */
  lemma VacantIff(t: Node, p: Path)
    ensures CanRemove(t, p) <==> forall n :: !Exists(t, p + [n])
  {
    forall n ensures Exists(t, p + [n]) <==> IsDir(t, p) && n in Get(t, p).value.kids {
      GetAppend(t, p, [n]);
    }
    if IsDir(t, p) && forall n :: !Exists(t, p + [n]) {
      assert Get(t, p).value.kids == map[];
    }
  }

  lemma ThereIff(t: Node, p: Path)
    ensures Exists(t, p) <==> FileAt(t, p).Some? || IsDir(t, p)
    ensures FileAt(t, p).Some? ==> !IsDir(t, p)
  {
  }

  /** No file stands where a directory on the way to p should be. */
  ghost predicate Clear(t: Node, p: Path) {
    forall q | q <= p :: FileAt(t, q) == None
  }

  lemma {:induction false} ClearWayIsClear(t: Node, p: Path)
    requires ClearWay(t, p)
    ensures Clear(t, p)
    decreases |p|
  {
    forall q | q <= p ensures FileAt(t, q) == None {
      if q != [] && q[0] in t.kids {
        assert p == [p[0]] + p[1..] && q == [q[0]] + q[1..];
        ClearWayIsClear(t.kids[p[0]], p[1..]);
        assert q[0] == p[0] && q[1..] <= p[1..];
        assert FileAt(t.kids[p[0]], q[1..]) == None;
        assert FileAt(t, q) == FileAt(t.kids[q[0]], q[1..]);
      }
    }
  }

  lemma {:induction false} ClearIsClearWay(t: Node, p: Path)
    requires Clear(t, p)
    ensures ClearWay(t, p)
    decreases |p|
  {
    assert [] <= p && FileAt(t, []) == None;
    if p != [] && p[0] in t.kids {
      forall q | q <= p[1..] ensures FileAt(t.kids[p[0]], q) == None {
        assert [p[0]] + q <= p && FileAt(t, [p[0]] + q) == None;
        assert ([p[0]] + q)[1..] == q;
      }
      ClearIsClearWay(t.kids[p[0]], p[1..]);
    }
  }
}
