/** HasDirectoryClimbing: the textual test that keeps listed paths below their base. */
module DirectoryClimbing {
  import opened FileTree

  /** The pieces of s between separators, empty ones included. */
  function Split(s: string, separators: set<char>): (pieces: seq<string>)
    ensures pieces != []
  {
    if s == [] then [""]
    else if s[0] in separators then [""] + Split(s[1..], separators)
    else
      var rest := Split(s[1..], separators);
      [[s[0]] + rest[0]] + rest[1..]
  }

  /** Where w stands in s between two separators, or the ends. */
  predicate PieceAt(s: string, separators: set<char>, i: nat, w: string) {
    i + |w| <= |s| && s[i..i + |w|] == w && (forall c | c in w :: c !in separators) &&
    (i == 0 || s[i - 1] in separators) && (i + |w| == |s| || s[i + |w|] in separators)
  }

  lemma PieceBehind(s: string, separators: set<char>, i: nat, w: string)
    requires s != []
    ensures PieceAt(s, separators, i + 1, w) <==> PieceAt(s[1..], separators, i, w) && (i == 0 ==> s[0] in separators)
  {
    if i + 1 + |w| <= |s| {
      assert s[i + 1..i + 1 + |w|] == s[1..][i..i + |w|];
    }
  }

  lemma {:induction false} FirstPiece(s: string, separators: set<char>, w: string)
    ensures w == Split(s, separators)[0] <==> PieceAt(s, separators, 0, w)
  {
    if s != [] && s[0] !in separators {
      var rest := Split(s[1..], separators);
      FirstPiece(s[1..], separators, rest[0]);
      assert s[0..1 + |rest[0]|] == [s[0]] + s[1..][0..|rest[0]|];
      if w != [] {
        FirstPiece(s[1..], separators, w[1..]);
        if PieceAt(s, separators, 0, w) {
          assert s[1..][0..|w| - 1] == s[0..|w|][1..] == w[1..];
        }
      }
    }
  }

  lemma {:induction false} LaterPiece(s: string, separators: set<char>, w: string)
    ensures w in Split(s, separators)[1..] <==> exists i | 0 < i <= |s| :: PieceAt(s, separators, i, w)
  {
    if s != [] {
      var rest := Split(s[1..], separators);
      assert rest == [rest[0]] + rest[1..];
      LaterPiece(s[1..], separators, w);
      FirstPiece(s[1..], separators, w);
      if w in Split(s, separators)[1..] {
        if s[0] in separators && w == rest[0] {
          PieceBehind(s, separators, 0, w);
        } else {
          var i :| 0 < i <= |s| - 1 && PieceAt(s[1..], separators, i, w);
          PieceBehind(s, separators, i, w);
        }
      }
      if i :| 0 < i <= |s| && PieceAt(s, separators, i, w) {
        PieceBehind(s, separators, i - 1, w);
      }
    }
  }

  /** A ".." with a separator or the beginning before it, and a separator or the end behind it. */
  ghost predicate Climbs(s: string) {
    exists i | 0 <= i <= |s| - 2 :: ClimbsAt(s, i)
  }

  predicate ClimbsAt(s: string, i: nat)
    requires i + 2 <= |s|
  {
    s[i] == '.' && s[i + 1] == '.' &&
    (i == 0 || s[i - 1] == '/' || s[i - 1] == '\\') && (i + 2 == |s| || s[i + 2] == '/' || s[i + 2] == '\\')
  }

  /** A piece ".." of s. */
  lemma ClimbsIff(s: string)
    ensures ".." in Split(s, {'/', '\\'}) <==> Climbs(s)
  {
    var separators, pieces := {'/', '\\'}, Split(s, {'/', '\\'});
    assert pieces == [pieces[0]] + pieces[1..];
    FirstPiece(s, separators, "..");
    LaterPiece(s, separators, "..");
    forall i | 0 <= i <= |s| - 2 ensures PieceAt(s, separators, i, "..") <==> ClimbsAt(s, i) {
      assert s[i..i + 2] == [s[i], s[i + 1]];
    }
  }

  /** Some segment of the path is "..". */
  predicate HasDirectoryClimbing(s: string): (climbs: bool)
    ensures climbs <==> Climbs(s)
  {
    ClimbsIff(s);
    ".." in Split(s, {'/', '\\'})
  }

  /** Where the system ends up when it follows the pieces from a directory. */
  function Follow(from: Path, pieces: seq<string>): Path
    decreases |pieces|
  {
    if pieces == [] then from
    else if pieces[0] == "" || pieces[0] == "." then Follow(from, pieces[1..])
    else if pieces[0] == ".." then Follow(if from == [] then [] else Parent(from), pieces[1..])
    else Follow(from + [pieces[0]], pieces[1..])
  }

  /** base / s as the system resolves it: only '/' separates. */
  function Resolve(base: Path, s: string): Path {
    Follow(base, Split(s, {'/'}))
  }

  function Names(pieces: seq<string>): Path {
    if pieces == [] then []
    else (if pieces[0] == "" || pieces[0] == "." then [] else [pieces[0]]) + Names(pieces[1..])
  }

  /** The path a text names. */
  function PathOf(s: string): Path {
    Names(Split(s, {'/'}))
  }

  /** A path as a text. */
  function TextOf(p: Path): string {
    if p == [] then "" else if |p| == 1 then p[0] else p[0] + "/" + TextOf(p[1..])
  }

  predicate IsName(n: Name) {
    n != "" && n != "." && '/' !in n
  }

  lemma {:induction false} SplitOff(a: string, b: string)
    requires '/' !in a
    ensures Split(a, {'/'}) == [a] && Split(a + "/" + b, {'/'}) == [a] + Split(b, {'/'})
  {
    if a == [] {
      assert a + "/" + b == "/" + b && ("/" + b)[1..] == b;
    } else {
      SplitOff(a[1..], b);
      var t := a + "/" + b;
      assert t[0] == a[0] != '/' && t[1..] == a[1..] + "/" + b && [a[0]] + a[1..] == a;
      assert Split(a, {'/'}) == [[a[0]] + a[1..]];
      assert Split(t, {'/'}) == [[a[0]] + a[1..]] + ([a[1..]] + Split(b, {'/'}))[1..];
    }
  }

  /** The text of a path names that path, with or without a separator before it. */
  lemma {:induction false} PathOfText(p: Path)
    requires forall n | n in p :: IsName(n)
    ensures PathOf(TextOf(p)) == p && PathOf("/" + TextOf(p)) == p
  {
    if p != [] {
      assert p[0] in p && p == [p[0]] + p[1..];
      SplitOff(p[0], TextOf(p[1..]));
      PathOfText(p[1..]);
      if |p| == 1 {
        assert Names([p[0]]) == [p[0]] + Names([]);
      }
    } else {
      assert Split("", {'/'}) == [""];
    }
    var t := TextOf(p);
    SplitOff("", t);
    assert "" + "/" + t == "/" + t;
    assert ([""] + Split(t, {'/'}))[1..] == Split(t, {'/'});
  }

  /** Splitting at fewer separators finds no ".." that the test does not see. */
  lemma {:induction false} CoarserSplit(s: string)
    ensures var a, b := Split(s, {'/'}), Split(s, {'/', '\\'});
      ('\\' !in a[0] ==> b[0] == a[0]) && forall x | x in a[1..] && '\\' !in x :: x in b[1..]
  {
    if s != [] {
      CoarserSplit(s[1..]);
      var a, b := Split(s[1..], {'/'}), Split(s[1..], {'/', '\\'});
      assert a == [a[0]] + a[1..] && b == [b[0]] + b[1..];
      assert Split(s, {'/'})[1..] == if s[0] == '/' then a else a[1..];
      assert Split(s, {'/', '\\'})[1..] == if s[0] == '/' || s[0] == '\\' then b else b[1..];
    }
  }

  lemma {:induction false} FollowDown(from: Path, pieces: seq<string>)
    requires ".." !in pieces
    ensures Follow(from, pieces) == from + Names(pieces)
    decreases |pieces|
  {
    if pieces == [] {
      assert from + [] == from;
    } else if pieces[0] == "" || pieces[0] == "." {
      FollowDown(from, pieces[1..]);
      assert Names(pieces) == Names(pieces[1..]);
    } else {
      FollowDown(from + [pieces[0]], pieces[1..]);
      assert from + [pieces[0]] + Names(pieces[1..]) == from + Names(pieces);
    }
  }

  /** A path that passes the test names something at or below its base, the same below every base. */
  lemma StaysBelow(base: Path, s: string)
    requires !Climbs(s)
    ensures Resolve(base, s) == base + PathOf(s)
  {
    ClimbsIff(s);
    CoarserSplit(s);
    var a := Split(s, {'/'});
    assert a == [a[0]] + a[1..];
    var b := Split(s, {'/', '\\'});
    assert b == [b[0]] + b[1..];
    FollowDown(base, a);
  }
}
