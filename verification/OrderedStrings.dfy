/** Strings in the order of std::string, and the ordered containers kept of them. */
module OrderedStrings {
  /** The order of std::string. */
  predicate Below(a: string, b: string) {
    b != [] && (a == [] || a[0] < b[0] || (a[0] == b[0] && Below(a[1..], b[1..])))
  }

  lemma {:induction false} BelowIsTotal(a: string, b: string)
    ensures Below(a, b) || a == b || Below(b, a)
    ensures !(Below(a, b) && Below(b, a)) && !Below(a, a)
  {
    if a != [] && b != [] {
      BelowIsTotal(a[1..], b[1..]);
      if a[0] == b[0] && a[1..] == b[1..] {
        assert a == [a[0]] + a[1..] && b == [b[0]] + b[1..];
      }
    }
    BelowIsIrreflexive(a);
  }

  lemma {:induction false} BelowIsIrreflexive(a: string)
    ensures !Below(a, a)
  {
    if a != [] {
      BelowIsIrreflexive(a[1..]);
    }
  }

  lemma {:induction false} BelowIsTransitive(a: string, b: string, c: string)
    requires Below(a, b) && Below(b, c)
    ensures Below(a, c)
  {
    if a != [] && a[0] == b[0] == c[0] {
      BelowIsTransitive(a[1..], b[1..], c[1..]);
    }
  }

  ghost predicate Ascending(s: seq<string>) {
    forall i, j | 0 <= i < j < |s| :: Below(s[i], s[j])
  }

  lemma EmptyAscends()
    ensures Ascending([])
  {}

  /** Insertion into a set kept in order. */
  function InsertOnce(s: seq<string>, x: string): (r: seq<string>)
    requires Ascending(s)
    ensures Ascending(r) && forall y :: y in r <==> y in s || y == x
  {
    if s == [] then [x]
    else if s[0] == x then s
    else if Below(x, s[0]) then
      assert Ascending([x] + s) by {
        forall j | 0 <= j < |s| ensures Below(x, s[j]) {
          if j > 0 { BelowIsTransitive(x, s[0], s[j]); }
        }
      }
      [x] + s
    else
      var t := InsertOnce(s[1..], x);
      assert Ascending([s[0]] + t) by {
        BelowIsTotal(s[0], x);
        forall j | 0 <= j < |t| ensures Below(s[0], t[j]) {
          assert t[j] in t;
        }
      }
      [s[0]] + t
  }

  /** The ordered set of the members of s. */
  function AsSet(s: seq<string>): (r: seq<string>)
    ensures Ascending(r) && forall y :: y in r <==> y in s
  {
    if s == [] then [] else InsertOnce(AsSet(s[..|s| - 1]), s[|s| - 1])
  }

  /** An ordered set is determined by its members. */
  lemma {:induction false} AscendingIsUnique(s: seq<string>, t: seq<string>)
    requires Ascending(s) && Ascending(t)
    requires forall x :: x in s <==> x in t
    ensures s == t
  {
    if s == [] {
      SomeMember(t);
    } else {
      assert s[0] in t && t[0] in s;
      FirstIsLeast(s, t[0]);
      FirstIsLeast(t, s[0]);
      BelowIsTotal(s[0], t[0]);
      forall x ensures x in s[1..] <==> x in t[1..] {
        InRest(s, x);
        InRest(t, x);
      }
      assert s == [s[0]] + s[1..] && t == [t[0]] + t[1..];
      AscendingIsUnique(s[1..], t[1..]);
    }
  }

  lemma SomeMember(s: seq<string>)
    ensures s == [] || exists x :: x in s
  {
    if s != [] { assert s[0] in s; }
  }

  lemma InRest(s: seq<string>, x: string)
    requires Ascending(s) && s != []
    ensures x in s[1..] <==> x in s && x != s[0]
  {
    BelowIsTotal(s[0], s[0]);
    assert s == [s[0]] + s[1..];
  }

  lemma FirstIsLeast(s: seq<string>, x: string)
    requires Ascending(s) && x in s
    ensures x == s[0] || Below(s[0], x)
  {}

  // std::sort, as insertion into an ordered sequence.

  ghost predicate Ordered(s: seq<string>) {
    forall i, j | 0 <= i <= j < |s| :: !Below(s[j], s[i])
  }

  function Insert(s: seq<string>, x: string): seq<string> {
    if s == [] || Below(x, s[0]) then [x] + s else [s[0]] + Insert(s[1..], x)
  }

  function Sort(s: seq<string>): seq<string> {
    if s == [] then [] else Insert(Sort(s[1..]), s[0])
  }

  lemma BelowOrEqual(a: string, b: string, c: string)
    requires !Below(b, a) && !Below(c, b)
    ensures !Below(c, a)
  {
    BelowIsTotal(a, b);
    BelowIsTotal(b, c);
    BelowIsTotal(a, c);
    if Below(a, b) && Below(b, c) {
      BelowIsTransitive(a, b, c);
    }
  }

  lemma {:induction false} InsertKeeps(s: seq<string>, x: string)
    requires Ordered(s)
    ensures Ordered(Insert(s, x)) && multiset(Insert(s, x)) == multiset(s) + multiset{x}
  {
    BelowIsTotal(x, x);
    if s == [] {
    } else if Below(x, s[0]) {
      BelowIsTotal(x, s[0]);
      forall j | 0 <= j < |s| ensures !Below(s[j], x) {
        BelowOrEqual(x, s[0], s[j]);
      }
    } else {
      InsertKeeps(s[1..], x);
      var t := Insert(s[1..], x);
      assert s == [s[0]] + s[1..];
      forall j | 0 <= j < |t| ensures !Below(t[j], s[0]) {
        assert t[j] in multiset(t);
        assert t[j] in s[1..] || t[j] == x;
      }
      BelowIsTotal(s[0], s[0]);
    }
  }

  lemma {:induction false} SortOrders(s: seq<string>)
    ensures Ordered(Sort(s)) && multiset(Sort(s)) == multiset(s)
  {
    if s != [] {
      SortOrders(s[1..]);
      InsertKeeps(Sort(s[1..]), s[0]);
      assert s == [s[0]] + s[1..];
    }
  }

  /** std::lower_bound: how many entries are below x. */
  method LowerBound(s: seq<string>, x: string) returns (n: nat)
    requires Ordered(s)
    ensures n <= |s|
    ensures forall i | 0 <= i < n :: Below(s[i], x)
    ensures forall i | n <= i < |s| :: !Below(s[i], x)
  {
    hide Below;
    n := 0;
    var hi := |s|;
    while n < hi
      invariant 0 <= n <= hi <= |s|
      invariant forall i | 0 <= i < n :: Below(s[i], x)
      invariant forall i | hi <= i < |s| :: !Below(s[i], x)
    {
      var mid := (n + hi) / 2;
      if Below(s[mid], x) {
        forall i | n <= i < mid ensures Below(s[i], x) {
          BelowThrough(s[i], s[mid], x);
        }
        n := mid + 1;
      } else {
        forall i | mid <= i < hi ensures !Below(s[i], x) {
          BelowOrEqual(x, s[mid], s[i]);
        }
        hi := mid;
      }
    }
  }

  lemma BelowThrough(a: string, b: string, c: string)
    requires !Below(b, a) && Below(b, c)
    ensures Below(a, c)
  {
    BelowIsTotal(a, b);
    if a != b {
      BelowIsTransitive(a, b, c);
    }
  }

  /** The first entry not below a name is the name, if the name is there. */
  lemma NameAt(s: seq<string>, name: string, n: nat)
    requires Ordered(s) && name in s && n <= |s|
    requires forall i | 0 <= i < n :: Below(s[i], name)
    requires forall i | n <= i < |s| :: !Below(s[i], name)
    ensures n < |s| && s[n] == name
  {
    var i :| 0 <= i < |s| && s[i] == name;
    BelowIsTotal(name, name);
    BelowIsTotal(s[n], name);
  }

  lemma SameMembers(s: seq<string>, t: seq<string>)
    requires multiset(s) == multiset(t)
    ensures forall x :: x in s <==> x in t
  {
    forall x ensures x in s <==> x in t {
      assert x in multiset(s) <==> x in multiset(t);
    }
  }
}
