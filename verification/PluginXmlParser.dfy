/** PluginsXmlParser: the names of the root's child elements, found from a streaming reader. */
module PluginXmlParser {
  import opened FileTree
  import opened OrderedStrings

  /** A node of a document: an element, or a text, comment, instruction or document type. */
  datatype Xml = Element(name: string, kids: seq<Xml>) | Other

  /** A document: one root element and what may stand before and after it. */
  datatype Document = Document(before: nat, root: Xml, after: nat)

  /** What a reader stops at. */
  datatype Event = Start(name: string, depth: nat) | End(depth: nat) | Leaf(depth: nat)

  /** The events of a node; an element without children has no end of its own. */
  function Events(n: Xml, depth: nat): (es: seq<Event>)
    ensures es != []
    decreases n
  {
    match n
    case Element(name, kids) =>
      [Start(name, depth)] + EventsOf(kids, depth + 1) + (if kids == [] then [] else [End(depth)])
    case Other => [Leaf(depth)]
  }

  function EventsOf(kids: seq<Xml>, depth: nat): seq<Event>
    decreases kids
  {
    if kids == [] then [] else Events(kids[0], depth) + EventsOf(kids[1..], depth)
  }

  function Leaves(n: nat): (es: seq<Event>)
    ensures |es| == n && forall i | 0 <= i < n :: es[i] == Leaf(0)
  {
    seq(n, i => Leaf(0))
  }

  function Stream(d: Document): seq<Event> {
    Leaves(d.before) + (Events(d.root, 0) + Leaves(d.after))
  }

  predicate WellFormed(d: Document) {
    d.root.Element?
  }

  /** The names of the elements among these nodes, in document order. */
  function ElementNames(kids: seq<Xml>): seq<string> {
    if kids == [] then []
    else (if kids[0].Element? then [kids[0].name] else []) + ElementNames(kids[1..])
  }

  /** The search below `depth` ends here: at a child element, or at anything else that is not deeper. */
  predicate Stops(e: Event, depth: nat) {
    if e.Start? then e.depth == depth + 1 else e.depth <= depth
  }

  /** A search below `depth` passes over the events from..to. */
  ghost predicate Passes(es: seq<Event>, from: nat, to: nat, depth: nat) {
    from <= to <= |es| && forall i | from <= i < to :: !Stops(es[i], depth)
  }

  /** A search from `from` on ends without a child. */
  ghost predicate Dry(es: seq<Event>, from: nat, depth: nat) {
    exists k: nat :: Passes(es, from, k, depth) && (k < |es| ==> Stops(es[k], depth) && !es[k].Start?)
  }

  /** The names a search for children of the document's first level comes by. */
  function Found(es: seq<Event>): seq<string> {
    if es == [] then []
    else if !Stops(es[0], 0) then Found(es[1..])
    else if es[0].Start? then [es[0].name] + Found(es[1..])
    else []
  }

  /** XmlTextReader over an event stream. */
  class TextReader {
    const events: seq<Event>
    var next: nat

    ghost predicate Valid()
      reads this
    {
      next <= |events|
    }

    constructor (es: seq<Event>)
      ensures Valid() && events == es && next == 0
    {
      events, next := es, 0;
    }

    method Read() returns (more: bool)
      requires Valid()
      modifies this
      ensures Valid()
      ensures more == (old(next) < |events|)
      ensures next == if more then old(next) + 1 else old(next)
    {
      more := next < |events|;
      if more {
        next := next + 1;
      }
    }

    /** The depth of the current node, 0 before the first. */
    function Depth(): (d: nat)
      requires Valid()
      reads this
    {
      if next == 0 then 0 else events[next - 1].depth
    }

    function Current(): Event
      requires Valid() && next > 0
      reads this
    {
      events[next - 1]
    }
  }

  class PluginsXmlParser {
    var tags: seq<string>

    constructor ()
      ensures tags == []
    {
      tags := [];
    }

    /** Moves the reader to the first place where a search for children of `depth` stops. */
    method NextChildElement(reader: TextReader, depth: nat) returns (found: bool)
      requires reader.Valid()
      modifies reader
      ensures reader.Valid() && old(reader.next) <= reader.next
      ensures found ==> reader.next > old(reader.next) && reader.Current().Start? && Stops(reader.Current(), depth)
      ensures found ==> Passes(reader.events, old(reader.next), reader.next - 1, depth)
      ensures !found ==> Dry(reader.events, old(reader.next), depth)
    {
      ghost var start := reader.next;
      var more := reader.Read();
      while more
        invariant reader.Valid() && start <= reader.next
        invariant more ==> start < reader.next
        invariant !more ==> reader.next == |reader.events|
        invariant Passes(reader.events, start, if more then reader.next - 1 else reader.next, depth)
        decreases |reader.events| - reader.next, more
      {
        match reader.Current() {
          case Start(_, d) =>
            if d == depth + 1 {
              return true;
            }
          case _ =>
            if reader.Depth() <= depth {
              assert Passes(reader.events, start, reader.next - 1, depth);
              return false;
            }
        }
        more := reader.Read();
      }
      return false;
    }

    /** `file` is None when the manifest cannot be read as XML. */
    method Parse(file: Option<Document>) returns (ok: bool)
      modifies this
      ensures ok == file.Some?
      ensures !ok ==> tags == old(tags)
      ensures ok ==> Ascending(tags) && forall x :: x in tags <==> x in Found(Stream(file.value))
    {
      hide Stream, Ascending, Passes, Dry, Found;
      if file.None? {
        return false;
      }
      var reader := new TextReader(Stream(file.value));
      var depth := reader.Depth();
      var names: seq<string> := [];
      EmptyAscends();
      var found := NextChildElement(reader, depth);
      assert reader.events[0..] == reader.events;
      if found {
        Skip(reader.events, 0, reader.next - 1);
      } else {
        NothingFound(reader.events, 0);
      }
      while found
        invariant reader.Valid()
        invariant found ==> reader.next > 0 && reader.Current().Start? && Stops(reader.Current(), depth)
        invariant Ascending(names)
        invariant forall x :: x in Found(reader.events) <==>
          x in names || (found && x in Found(reader.events[reader.next - 1..]))
        decreases if found then |reader.events| - reader.next + 1 else 0
      {
        ghost var was, at := names, reader.next;
        names := InsertOnce(names, reader.Current().name);
        FoundHere(reader.events, at - 1);
        found := NextChildElement(reader, depth);
        if found {
          Skip(reader.events, at, reader.next - 1);
        } else {
          NothingFound(reader.events, at);
        }
      }
      tags := names;
      return true;
    }
  }

  lemma {:induction false} Skip(es: seq<Event>, from: nat, to: nat)
    requires Passes(es, from, to, 0)
    ensures Found(es[from..]) == Found(es[to..])
    decreases if from < to then to - from else 0
  {
    if from < to {
      assert es[from..][1..] == es[from + 1..];
      Skip(es, from + 1, to);
    }
  }

  lemma FoundHere(es: seq<Event>, at: nat)
    requires at < |es| && es[at].Start? && Stops(es[at], 0)
    ensures Found(es[at..]) == [es[at].name] + Found(es[at + 1..])
  {
    assert es[at..][1..] == es[at + 1..];
  }

  lemma NothingFound(es: seq<Event>, from: nat)
    requires Dry(es, from, 0)
    ensures from <= |es| && Found(es[from..]) == []
  {
    var k: nat :| Passes(es, from, k, 0) && (k < |es| ==> Stops(es[k], 0) && !es[k].Start?);
    Skip(es, from, k);
  }

  // The stream against the tree.

  lemma {:induction false} FoundInNode(n: Xml, depth: nat, rest: seq<Event>)
    requires depth > 0
    ensures Found(Events(n, depth) + rest) ==
      (if depth == 1 && n.Element? then [n.name] else []) + Found(rest)
    decreases n
  {
    match n
    case Other =>
      assert (Events(n, depth) + rest)[1..] == rest;
    case Element(name, kids) =>
      var tail := (if kids == [] then [] else [End(depth)]) + rest;
      var es := Events(n, depth) + rest;
      assert es[1..] == EventsOf(kids, depth + 1) + tail;
      FoundInKids(kids, depth + 1, tail);
      assert kids != [] ==> tail[1..] == rest;
      assert kids == [] ==> tail == rest;
  }

  lemma {:induction false} FoundInKids(kids: seq<Xml>, depth: nat, rest: seq<Event>)
    requires depth > 0
    ensures Found(EventsOf(kids, depth) + rest) == (if depth == 1 then ElementNames(kids) else []) + Found(rest)
    decreases kids
  {
    if kids == [] {
      assert EventsOf(kids, depth) + rest == rest;
    } else {
      var tail := EventsOf(kids[1..], depth) + rest;
      assert EventsOf(kids, depth) + rest == Events(kids[0], depth) + tail;
      FoundInNode(kids[0], depth, tail);
      FoundInKids(kids[1..], depth, rest);
    }
  }

  /** The search finds the root's child elements, unless something stands before the root: then it finds none. */
  lemma StreamAgreesWithTree(d: Document)
    requires WellFormed(d)
    ensures Found(Stream(d)) == if d.before == 0 then ElementNames(d.root.kids) else []
  {
    if d.before == 0 {
      var kids := d.root.kids;
      var tail := (if kids == [] then [] else [End(0)]) + Leaves(d.after);
      assert Stream(d)[1..] == EventsOf(kids, 1) + tail;
      FoundInKids(kids, 1, tail);
    }
  }

  /** So the names are complete exactly when the root comes first or has no child elements. */
  lemma CompleteIffRootFirst(d: Document)
    requires WellFormed(d)
    ensures (forall x :: x in Found(Stream(d)) <==> x in ElementNames(d.root.kids)) <==>
      d.before == 0 || ElementNames(d.root.kids) == []
  {
    StreamAgreesWithTree(d);
    if ElementNames(d.root.kids) != [] {
      assert ElementNames(d.root.kids)[0] in ElementNames(d.root.kids);
    }
  }
}
