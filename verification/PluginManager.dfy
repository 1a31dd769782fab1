/** PluginManager: which plugins of the list are loaded for a manifest. */
module PluginManager {
  import opened FileTree
  import opened OrderedStrings
  import opened PluginXmlParser

  datatype PluginInfo = PluginInfo(kind: string, name: string, path: string)

  /** An application of the manifest: its metadata keys and its categories. */
  datatype App = App(metadata: seq<string>, category: seq<string>)

  const TAG := "tag"
  const METADATA := "metadata"
  const CATEGORY := "category"

  /** std::string::find: where `t` first occurs in `s`. */
  function Find(s: string, t: string): (p: Option<nat>)
    ensures p.Some? ==> p.value <= |s| && t <= s[p.value..]
  {
    if t <= s then Some(0)
    else if s == [] then None
    else
      var p := Find(s[1..], t);
      if p.Some? then
        assert s[1..][p.value..] == s[p.value + 1..];
        Some(p.value + 1)
      else None
  }

  predicate Starts(keys: seq<string>, name: string) {
    exists k | k in keys :: name <= k
  }

  /** Whether the manifest asks for this plugin. */
  predicate Wanted(info: PluginInfo, tags: seq<string>, apps: seq<App>) {
    if info.kind == TAG then info.name in tags
    else if info.kind == METADATA then exists a | a in apps :: Starts(a.metadata, info.name)
    else info.kind == CATEGORY && exists a | a in apps :: Starts(a.category, info.name)
  }

  /** The plugins loaded from a list, given those a library can be opened for. */
  function Loaded(list: seq<PluginInfo>, tags: seq<string>, apps: seq<App>,
                  loadable: PluginInfo -> bool): seq<PluginInfo> {
    if list == [] then []
    else
      (if Wanted(list[0], tags, apps) && loadable(list[0]) then [list[0]] else []) +
      Loaded(list[1..], tags, apps, loadable)
  }

  class PluginManager {
    const loadable: PluginInfo -> bool
    const apps: seq<App>
    var loadedPlugins: seq<PluginInfo>

    constructor (loadable: PluginInfo -> bool, apps: seq<App>)
      ensures this.loadable == loadable && this.apps == apps && loadedPlugins == []
    {
      this.loadable, this.apps, loadedPlugins := loadable, apps, [];
    }

    /** The search for a tag in the sorted names. */
    method TagListed(tags: seq<string>, name: string) returns (listed: bool)
      requires Ordered(tags)
      ensures listed <==> name in tags
    {
      var n := LowerBound(tags, name);
      listed := n < |tags| && tags[n] == name;
      if name in tags {
        NameAt(tags, name, n);
      }
    }

    /** The two nested searches over metadata or categories, left together once a name matches. */
    method AnyStarts(lists: seq<seq<string>>, name: string) returns (done: bool)
      ensures done <==> exists l | l in lists :: Starts(l, name)
    {
      done := false;
      var i := 0;
      while i < |lists| && !done
        invariant 0 <= i <= |lists|
        invariant !done ==> forall l | l in lists[..i] :: !Starts(l, name)
        invariant done ==> exists l | l in lists :: Starts(l, name)
      {
        var j := 0;
        while j < |lists[i]| && !done
          invariant 0 <= j <= |lists[i]|
          invariant !done ==> forall k | k in lists[i][..j] :: !(name <= k)
          invariant done ==> Starts(lists[i], name)
        {
          var key := lists[i][j];
          assert key in lists[i] && lists[i][..j + 1] == lists[i][..j] + [key];
          FindAtStart(key, name);
          var at := Find(key, name);
          done := at.Some? && at.value == 0;
          j := j + 1;
        }
        assert lists[i][..|lists[i]|] == lists[i] && lists[..i + 1] == lists[..i] + [lists[i]];
        i := i + 1;
      }
    }

    /** `file` is the manifest, `list` the plugin list; None where one cannot be read. */
    method LoadPlugins(file: Option<Document>, list: Option<seq<PluginInfo>>) returns (ok: bool)
      requires file.Some? ==> WellFormed(file.value)
      modifies this
      ensures ok == (file.Some? && list.Some?)
      ensures loadedPlugins == old(loadedPlugins) +
        if ok then Loaded(list.value, Found(Stream(file.value)), apps, loadable) else []
    {
      hide Wanted, Found, Stream, Ordered, Sort, Below, Ascending, Starts;
      var parser := new PluginsXmlParser();
      var parsed := parser.Parse(file);
      if !parsed || list.None? {
        return false;
      }
      var tags := Sort(parser.tags);
      SortOrders(parser.tags);
      SameMembers(tags, parser.tags);
      ghost var found := Found(Stream(file.value));
      var i := 0;
      assert list.value[0..] == list.value;
      while i < |list.value|
        invariant 0 <= i <= |list.value|
        invariant old(loadedPlugins) + Loaded(list.value, found, apps, loadable) ==
          loadedPlugins + Loaded(list.value[i..], found, apps, loadable)
      {
        var info := list.value[i];
        var wanted := IsWanted(info, tags);
        WantedDependsOnMembers(info, tags, found, apps);
        assert list.value[i..][1..] == list.value[i + 1..];
        if wanted && loadable(info) {
          loadedPlugins := loadedPlugins + [info];
        }
        i := i + 1;
      }
      return true;
    }

    /** The three kinds of condition; a plugin of another kind is never loaded. */
    method IsWanted(info: PluginInfo, tags: seq<string>) returns (wanted: bool)
      requires Ordered(tags)
      ensures wanted <==> Wanted(info, tags, apps)
    {
      if info.kind == TAG {
        wanted := TagListed(tags, info.name);
      } else if info.kind == METADATA {
        var keys := seq(|apps|, i requires 0 <= i < |apps| => apps[i].metadata);
        assert forall i | 0 <= i < |apps| :: keys[i] == apps[i].metadata;
        wanted := AnyStarts(keys, info.name);
      } else if info.kind == CATEGORY {
        var keys := seq(|apps|, i requires 0 <= i < |apps| => apps[i].category);
        assert forall i | 0 <= i < |apps| :: keys[i] == apps[i].category;
        wanted := AnyStarts(keys, info.name);
      } else {
        wanted := false;
      }
    }
  }

  lemma WantedDependsOnMembers(info: PluginInfo, s: seq<string>, t: seq<string>, apps: seq<App>)
    requires forall x :: x in s <==> x in t
    ensures Wanted(info, s, apps) == Wanted(info, t, apps)
  {}

  lemma FindAtStart(s: string, t: string)
    ensures Find(s, t).Some? && Find(s, t).value == 0 <==> t <= s
  {}

  /** A listed plugin is loaded if and only if the manifest asks for it and its library opens. */
  lemma {:induction false} LoadedIff(list: seq<PluginInfo>, tags: seq<string>, apps: seq<App>,
                                     loadable: PluginInfo -> bool, p: PluginInfo)
    ensures p in Loaded(list, tags, apps, loadable) <==> p in list && Wanted(p, tags, apps) && loadable(p)
    ensures multiset(Loaded(list, tags, apps, loadable)) <= multiset(list)
  {
    if list != [] {
      LoadedIff(list[1..], tags, apps, loadable, p);
      assert list == [list[0]] + list[1..];
    }
  }

  /** The order of the list is kept. */
  lemma {:induction false} LoadedInOrder(a: seq<PluginInfo>, b: seq<PluginInfo>, tags: seq<string>, apps: seq<App>,
                                         loadable: PluginInfo -> bool)
    ensures Loaded(a + b, tags, apps, loadable) == Loaded(a, tags, apps, loadable) + Loaded(b, tags, apps, loadable)
  {
    if a == [] {
      assert a + b == b;
    } else {
      assert (a + b)[1..] == a[1..] + b;
      LoadedInOrder(a[1..], b, tags, apps, loadable);
    }
  }

  /** A tag plugin is loaded exactly when an element of its name is a child of the root and nothing stands
      before the root: a comment above it keeps every tag plugin from being loaded. */
  lemma TagPluginLoadedIff(d: Document, list: seq<PluginInfo>, apps: seq<App>,
                           loadable: PluginInfo -> bool, p: PluginInfo)
    requires WellFormed(d) && p in list && p.kind == "tag" && loadable(p)
    ensures p in Loaded(list, Found(Stream(d)), apps, loadable) <==>
      d.before == 0 && p.name in ElementNames(d.root.kids)
  {
    LoadedIff(list, Found(Stream(d)), apps, loadable, p);
    StreamAgreesWithTree(d);
  }

  /** A metadata plugin is loaded exactly when some application has a metadata key that begins with its name. */
  lemma MetadataPluginLoadedIff(list: seq<PluginInfo>, tags: seq<string>, apps: seq<App>,
                                loadable: PluginInfo -> bool, p: PluginInfo)
    requires p in list && p.kind == "metadata" && loadable(p)
    ensures p in Loaded(list, tags, apps, loadable) <==>
      exists a, key | a in apps && key in a.metadata :: p.name <= key
  {
    LoadedIff(list, tags, apps, loadable, p);
  }

  /** A category plugin is loaded exactly when some application has a category that begins with its name. */
  lemma CategoryPluginLoadedIff(list: seq<PluginInfo>, tags: seq<string>, apps: seq<App>,
                                loadable: PluginInfo -> bool, p: PluginInfo)
    requires p in list && p.kind == "category" && loadable(p)
    ensures p in Loaded(list, tags, apps, loadable) <==>
      exists a, category | a in apps && category in a.category :: p.name <= category
  {
    LoadedIff(list, tags, apps, loadable, p);
  }

  /** A plugin of another kind never is, and one of a kind that is wanted only if it is listed and its library
      opens. */
  lemma OtherPluginNeverLoaded(list: seq<PluginInfo>, tags: seq<string>, apps: seq<App>,
                               loadable: PluginInfo -> bool, p: PluginInfo)
    requires p.kind !in {"tag", "metadata", "category"} || p !in list || !loadable(p)
    ensures p !in Loaded(list, tags, apps, loadable)
  {
    LoadedIff(list, tags, apps, loadable, p);
  }
}
