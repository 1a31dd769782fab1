/** RDSParser: the text of a delta, three marked sections of file names, one a line. */
module RdsParser {
  import opened FileTree

  datatype Section = NoSection | Add | Modify | Delete

  datatype Lists = Lists(toAdd: seq<string>, toModify: seq<string>, toDelete: seq<string>)

  function Marker(s: Section): string
    requires s != NoSection
  {
    match s case Add => "#add" case Modify => "#modify" case Delete => "#delete"
  }

  /** The section a line begins, if it is a marker. */
  function Begins(line: string): Section {
    if line == "#delete" then Delete
    else if line == "#add" then Add
    else if line == "#modify" then Modify
    else NoSection
  }

  /** The characters up to the first newline. */
  function LineEnd(s: string): (n: nat)
    ensures n <= |s| && '\n' !in s[..n] && (n < |s| ==> s[n] == '\n')
  {
    if s == [] || s[0] == '\n' then 0
    else
      var n := 1 + LineEnd(s[1..]);
      assert s[..n] == [s[0]] + s[1..][..n - 1];
      n
  }

  function After(s: string): string {
    if LineEnd(s) < |s| then s[LineEnd(s) + 1..] else []
  }

  /** The lines getline finds. */
  function Lines(s: string): seq<string>
    decreases |s|
  {
    if s == [] then [] else [s[..LineEnd(s)]] + Lines(After(s))
  }

  /** The entries of section `want` in these lines, when `current` is open. */
  function Entries(lines: seq<string>, current: Section, want: Section): seq<string> {
    if lines == [] then []
    else if Begins(lines[0]) != NoSection then Entries(lines[1..], Begins(lines[0]), want)
    else (if current == want then [lines[0]] else []) + Entries(lines[1..], current, want)
  }

  /** What these lines add to each list when `current` is open. */
  function Read(lines: seq<string>, current: Section): Lists {
    Lists(Entries(lines, current, Add), Entries(lines, current, Modify), Entries(lines, current, Delete))
  }

  function Parsed(text: string): Lists {
    Read(Lines(text), NoSection)
  }

  function Append(a: Lists, b: Lists): Lists {
    Lists(a.toAdd + b.toAdd, a.toModify + b.toModify, a.toDelete + b.toDelete)
  }

  function Only(s: Section, line: string): Lists {
    Lists(if s == Add then [line] else [], if s == Modify then [line] else [], if s == Delete then [line] else [])
  }

  lemma ReadLine(line: string, rest: seq<string>, current: Section)
    ensures Read([line] + rest, current) ==
      if Begins(line) != NoSection then Read(rest, Begins(line)) else Append(Only(current, line), Read(rest, current))
  {
    assert ([line] + rest)[1..] == rest;
  }

  lemma AppendAssociates(a: Lists, b: Lists, c: Lists)
    ensures Append(Append(a, b), c) == Append(a, Append(b, c))
  {}

  lemma FirstOf(s: string)
    requires s != []
    ensures Lines(s) == [s[..LineEnd(s)]] + Lines(After(s))
  {}

  lemma NothingLeft(s: string, current: Section)
    requires s == []
    ensures Read(Lines(s), current) == Lists([], [], [])
  {}

  class RDSParser {
    var filesToAdd: seq<string>
    var filesToModify: seq<string>
    var filesToDelete: seq<string>

    constructor ()
      ensures filesToAdd == [] && filesToModify == [] && filesToDelete == []
    {
      filesToAdd, filesToModify, filesToDelete := [], [], [];
    }

    function Collected(): Lists
      reads this
    {
      Lists(filesToAdd, filesToModify, filesToDelete)
    }

    /** One getline. */
    method GetLine(text: string, pos: nat) returns (line: string, next: nat)
      requires pos < |text|
      ensures line == text[pos..][..LineEnd(text[pos..])]
      ensures pos < next <= |text| && text[next..] == After(text[pos..])
    {
      next := pos;
      while next < |text| && text[next] != '\n'
        invariant pos <= next <= |text|
        invariant LineEnd(text[pos..]) == next - pos + LineEnd(text[next..])
      {
        assert text[next..][0] == text[next] && text[next..][1..] == text[next + 1..];
        next := next + 1;
      }
      line := text[pos..next];
      if next < |text| {
        next := next + 1;
      }
    }

    /** `file` is the text of the delta file, None when it cannot be opened. */
    method Parse(file: Option<string>) returns (ok: bool)
      modifies this
      ensures ok == file.Some?
      ensures Collected() == if ok then Append(old(Collected()), Parsed(file.value)) else old(Collected())
    {
      hide Lines, LineEnd, Entries;
      if file.None? {
        return false;
      }
      var text := file.value;
      var current := NoSection;
      var pos := 0;
      ghost var start := Collected();
      assert text[0..] == text;
      while pos < |text|
        invariant 0 <= pos <= |text|
        invariant Append(start, Parsed(text)) == Append(Collected(), Read(Lines(text[pos..]), current))
      {
        ghost var rest, before, was := text[pos..], Collected(), current;
        var line;
        line, pos := GetLine(text, pos);
        FirstOf(rest);
        ReadLine(line, Lines(text[pos..]), was);
        if line == "#delete" {
          current := Delete;
        } else if line == "#add" {
          current := Add;
        } else if line == "#modify" {
          current := Modify;
        } else {
          match current {
            case Add => filesToAdd := filesToAdd + [line];
            case Modify => filesToModify := filesToModify + [line];
            case Delete => filesToDelete := filesToDelete + [line];
            case NoSection =>
          }
          assert Collected() == Append(before, Only(was, line));
          AppendAssociates(before, Only(was, line), Read(Lines(text[pos..]), was));
        }
      }
      NothingLeft(text[pos..], current);
      return true;
    }
  }

  /** Entries that a line can carry. */
  predicate Plain(entry: string) {
    '\n' !in entry && entry !in {"#add", "#modify", "#delete"}
  }

  function PrintEntries(entries: seq<string>): string {
    if entries == [] then "" else entries[0] + "\n" + PrintEntries(entries[1..])
  }

  function Print(l: Lists): string {
    "#add" + "\n" + PrintEntries(l.toAdd) +
    ("#modify" + "\n" + PrintEntries(l.toModify) + ("#delete" + "\n" + PrintEntries(l.toDelete)))
  }

  lemma {:induction false} LineEndOf(a: string, b: string)
    requires '\n' !in a
    ensures LineEnd(a + "\n" + b) == |a|
  {
    if a != [] {
      assert (a + "\n" + b)[1..] == a[1..] + "\n" + b;
      LineEndOf(a[1..], b);
    }
  }

  lemma FirstLine(a: string, b: string)
    requires '\n' !in a
    ensures Lines(a + "\n" + b) == [a] + Lines(b)
  {
    LineEndOf(a, b);
    var s := a + "\n" + b;
    assert s[..|a|] == a && s[|a| + 1..] == b;
  }

  lemma ReadOne(entry: string, tail: string, current: Section, want: Section)
    requires Plain(entry)
    ensures Entries(Lines(entry + "\n" + tail), current, want) ==
      (if current == want then [entry] else []) + Entries(Lines(tail), current, want)
  {
    FirstLine(entry, tail);
    assert ([entry] + Lines(tail))[1..] == Lines(tail);
  }

  /** Printed entries are read back into the open section, and what follows is read as before. */
  lemma {:induction false} ReadEntries(entries: seq<string>, rest: string, current: Section, want: Section)
    requires forall e | e in entries :: Plain(e)
    ensures Entries(Lines(PrintEntries(entries) + rest), current, want) ==
      (if current == want then entries else []) + Entries(Lines(rest), current, want)
  {
    hide Entries, Lines, Plain;
    if entries == [] {
      assert PrintEntries(entries) + rest == rest;
    } else {
      var tail := PrintEntries(entries[1..]) + rest;
      assert PrintEntries(entries) + rest == entries[0] + "\n" + tail;
      ReadOne(entries[0], tail, current, want);
      ReadEntries(entries[1..], rest, current, want);
      assert [entries[0]] + entries[1..] == entries;
    }
  }

  lemma ReadSection(s: Section, entries: seq<string>, rest: string, current: Section, want: Section)
    requires s != NoSection && forall e | e in entries :: Plain(e)
    ensures Entries(Lines(Marker(s) + "\n" + PrintEntries(entries) + rest), current, want) ==
      (if s == want then entries else []) + Entries(Lines(rest), s, want)
  {
    var tail := PrintEntries(entries) + rest;
    assert Marker(s) + "\n" + PrintEntries(entries) + rest == Marker(s) + "\n" + tail;
    FirstLine(Marker(s), tail);
    assert Begins(Marker(s)) == s;
    assert ([Marker(s)] + Lines(tail))[1..] == Lines(tail);
    ReadEntries(entries, rest, s, want);
  }

  lemma {:induction false} ParsedIsPlain(lines: seq<string>, current: Section, want: Section)
    requires forall l | l in lines :: '\n' !in l
    ensures forall e | e in Entries(lines, current, want) :: Plain(e)
  {
    if lines != [] {
      ParsedIsPlain(lines[1..], if Begins(lines[0]) != NoSection then Begins(lines[0]) else current, want);
    }
  }

  lemma {:induction false} LinesArePlain(s: string)
    ensures forall l | l in Lines(s) :: '\n' !in l
    decreases |s|
  {
    if s != [] {
      LinesArePlain(After(s));
    }
  }

  /** Parsing gives back what was printed exactly when every entry is plain. */
  lemma RoundTrip(l: Lists)
    ensures Parsed(Print(l)) == l <==> forall e | e in l.toAdd + l.toModify + l.toDelete :: Plain(e)
  {
    if forall e | e in l.toAdd + l.toModify + l.toDelete :: Plain(e) {
      var last := Marker(Delete) + "\n" + PrintEntries(l.toDelete);
      var middle := Marker(Modify) + "\n" + PrintEntries(l.toModify) + last;
      forall want | want != NoSection
        ensures Entries(Lines(Print(l)), NoSection, want) == Listed(l, want)
      {
        ReadSection(Add, l.toAdd, middle, NoSection, want);
        ReadSection(Modify, l.toModify, last, Add, want);
        assert last + "" == last;
        ReadSection(Delete, l.toDelete, "", Modify, want);
      }
    } else {
      LinesArePlain(Print(l));
      ParsedIsPlain(Lines(Print(l)), NoSection, Add);
      ParsedIsPlain(Lines(Print(l)), NoSection, Modify);
      ParsedIsPlain(Lines(Print(l)), NoSection, Delete);
    }
  }

  function Listed(l: Lists, want: Section): seq<string>
    requires want != NoSection
  {
    match want case Add => l.toAdd case Modify => l.toModify case Delete => l.toDelete
  }

  /** The lines that belong to some section: all but the markers and what stands before the first of them. */
  function Sectioned(lines: seq<string>, open: bool): nat {
    if lines == [] then 0
    else if Begins(lines[0]) != NoSection then Sectioned(lines[1..], true)
    else (if open then 1 else 0) + Sectioned(lines[1..], open)
  }

  /** No line is lost or read twice. */
  lemma {:induction false} LinesAreConserved(lines: seq<string>, current: Section)
    ensures |Entries(lines, current, Add)| + |Entries(lines, current, Modify)| + |Entries(lines, current, Delete)| ==
      Sectioned(lines, current != NoSection)
  {
    if lines != [] {
      LinesAreConserved(lines[1..], if Begins(lines[0]) != NoSection then Begins(lines[0]) else current);
    }
  }
}
