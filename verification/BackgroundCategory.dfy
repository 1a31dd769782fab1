/** StepCheckBackgroundCategory: the background categories an application may keep and those it is given. */
module BackgroundCategory {
  import opened OrderedStrings
  import opened PackageTrees

  datatype PrivilegeLevel = UNTRUSTED | PUBLIC | PARTNER | PLATFORM

  const SYSTEM := "system"

  /** The known categories, in the order of their set. */
  const KNOWN: seq<string> := ["background-network", "download", "iot-communication", "location", "media", "sensor"]

  lemma KnownIsASet()
    ensures Ascending(KNOWN) && SYSTEM !in KNOWN
  {
    assert Below(KNOWN[0], KNOWN[1]) && Below(KNOWN[1], KNOWN[2]) && Below(KNOWN[2], KNOWN[3]);
    assert Below(KNOWN[3], KNOWN[4]) && Below(KNOWN[4], KNOWN[5]);
  }

  /** What decides besides the categories themselves. */
  datatype Rules = Rules(level: PrivilegeLevel, before24: bool, supported: bool)

  predicate IsTrustedCert(level: PrivilegeLevel) {
    level == PARTNER || level == PLATFORM
  }

  /** A trusted application may ask for anything, a public one not for "system", an untrusted one for nothing. */
  predicate ShouldSendFail(r: Rules, cats: seq<string>): (fails: bool)
    ensures r.level in {PARTNER, PLATFORM} ==> !fails
    ensures r.level == PUBLIC ==> (fails <==> "system" in cats)
    ensures r.level == UNTRUSTED ==> (fails <==> cats != [])
  {
    (r.level == PUBLIC && SYSTEM in cats) || (r.level == UNTRUSTED && cats != [])
  }

  predicate ShouldSendAll(r: Rules, cats: seq<string>) {
    r.before24 && r.supported && ((r.level == PUBLIC && SYSTEM !in cats) || IsTrustedCert(r.level))
  }

  predicate ShouldSendSystem(r: Rules, cats: seq<string>) {
    IsTrustedCert(r.level) && SYSTEM in cats
  }

  predicate ShouldSendKnown(r: Rules, cats: seq<string>) {
    !(ShouldSendFail(r, cats) || ShouldSendAll(r, cats)) && cats != [] && KnownOf(cats) != []
  }

  predicate ShouldSendUnknown(r: Rules, cats: seq<string>) {
    !(ShouldSendFail(r, cats) || cats == [] || UnknownOf(cats) == [])
  }

  /** std::set_intersection: the entries of s that keep allows. */
  function Filtered(s: seq<string>, keep: string -> bool): (r: seq<string>)
    ensures forall x :: x in r <==> x in s && keep(x)
    ensures Ascending(s) ==> Ascending(r)
  {
    if s == [] then []
    else
      var rest := Filtered(s[1..], keep);
      assert s == [s[0]] + s[1..];
      assert Ascending(s) ==> forall x | x in rest :: Below(s[0], x);
      if keep(s[0]) then [s[0]] + rest else rest
  }

  function KnownOf(cats: seq<string>): seq<string> {
    Filtered(KNOWN, x => x in cats)
  }

  function UnknownOf(cats: seq<string>): seq<string> {
    Filtered(cats, x => x !in KNOWN && x != SYSTEM)
  }

  /** The list an application is left with. */
  function Sent(r: Rules, cats: seq<string>): seq<string> {
    (if ShouldSendAll(r, cats) then KNOWN else []) +
    (if ShouldSendSystem(r, cats) then [SYSTEM] else []) +
    (if ShouldSendKnown(r, cats) then KnownOf(cats) else []) +
    (if ShouldSendUnknown(r, cats) then UnknownOf(cats) else [])
  }

  /** The rule for whoever writes a manifest: the categories asked for, and for an older application that may
      run in the background all the known ones. */
  function Granted(r: Rules, asked: set<string>): set<string> {
    if r.before24 && r.supported && r.level != UNTRUSTED then
      asked + {"media", "download", "background-network", "location", "sensor", "iot-communication"}
    else asked
  }

  function Members(s: seq<string>): set<string> {
    set x | x in s
  }

  ghost predicate NoDuplicates(s: seq<string>) {
    forall i, j | 0 <= i < j < |s| :: s[i] != s[j]
  }

  lemma AscendingHasNoDuplicates(s: seq<string>)
    requires Ascending(s)
    ensures NoDuplicates(s)
  {
    forall i, j | 0 <= i < j < |s| ensures s[i] != s[j] {
      BelowIsTotal(s[i], s[i]);
    }
  }

  lemma ApartHasNoDuplicates(a: seq<string>, b: seq<string>)
    requires NoDuplicates(a) && NoDuplicates(b) && forall x | x in a :: x !in b
    ensures NoDuplicates(a + b)
  {
    forall i, j | 0 <= i < j < |a + b| ensures (a + b)[i] != (a + b)[j] {
      if i < |a| <= j {
        assert a[i] in a && b[j - |a|] in b;
      }
    }
  }

  lemma ThreeApart(a: seq<string>, b: seq<string>, c: seq<string>)
    requires NoDuplicates(a) && NoDuplicates(b) && NoDuplicates(c)
    requires (forall x | x in a :: x !in b && x !in c) && forall x | x in b :: x !in c
    ensures NoDuplicates(a + b + c)
  {
    ApartHasNoDuplicates(a, b);
    ApartHasNoDuplicates(a + b, c);
  }

  lemma SentHasNoDuplicates(r: Rules, cats: seq<string>)
    requires Ascending(cats) && !ShouldSendFail(r, cats)
    ensures NoDuplicates(Sent(r, cats))
  {
    hide Ascending, NoDuplicates, KNOWN;
    KnownIsASet();
    AscendingHasNoDuplicates(KNOWN);
    AscendingHasNoDuplicates(KnownOf(cats));
    AscendingHasNoDuplicates(UnknownOf(cats));
    SmallOnes([SYSTEM]);
    SmallOnes([]);
    var all := if ShouldSendAll(r, cats) then KNOWN else [];
    var system := if ShouldSendSystem(r, cats) then [SYSTEM] else [];
    var known := if ShouldSendKnown(r, cats) then KnownOf(cats) else [];
    var unknown := if ShouldSendUnknown(r, cats) then UnknownOf(cats) else [];
    assert Sent(r, cats) == all + system + known + unknown;
    if ShouldSendAll(r, cats) {
      ThreeApart(all, system, unknown);
      assert all + system + known == all + system;
    } else {
      ThreeApart(system, known, unknown);
      assert all + system + known == system + known;
    }
  }

  lemma KnownAre()
    ensures forall x :: x in KNOWN <==>
      x in {"media", "download", "background-network", "location", "sensor", "iot-communication"}
  {
    assert KNOWN[0] in KNOWN && KNOWN[1] in KNOWN && KNOWN[2] in KNOWN;
    assert KNOWN[3] in KNOWN && KNOWN[4] in KNOWN && KNOWN[5] in KNOWN;
  }

  /** Whatever is sent has no duplicates and is what the rule grants. */
  lemma SentIsGranted(r: Rules, cats: seq<string>)
    requires Ascending(cats) && !ShouldSendFail(r, cats)
    ensures NoDuplicates(Sent(r, cats))
    ensures Members(Sent(r, cats)) == Granted(r, Members(cats))
  {
    hide Ascending, NoDuplicates, KNOWN, Sent;
    SentHasNoDuplicates(r, cats);
    KnownAre();
    forall x ensures x in Sent(r, cats) <==> x in cats || (ShouldSendAll(r, cats) && x in KNOWN) {
      SentHas(r, cats, x);
    }
  }

  lemma SmallOnes(s: seq<string>)
    requires |s| <= 1
    ensures NoDuplicates(s)
  {}

  lemma SentHas(r: Rules, cats: seq<string>, x: string)
    requires !ShouldSendFail(r, cats)
    ensures x in Sent(r, cats) <==> x in cats || (ShouldSendAll(r, cats) && x in KNOWN)
  {
    if x in cats && x in KNOWN { assert x in KnownOf(cats); }
    if x in cats && x !in KNOWN && x != SYSTEM { assert x in UnknownOf(cats); }
  }

  /** The step changes nothing when it runs on its own result, and does not fail on it. */
  lemma SentIsStable(r: Rules, cats: seq<string>)
    requires Ascending(cats) && !ShouldSendFail(r, cats)
    ensures !ShouldSendFail(r, AsSet(Sent(r, cats)))
    ensures Sent(r, AsSet(Sent(r, cats))) == Sent(r, cats)
  {
    hide Ascending;
    KnownIsASet();
    var again := AsSet(Sent(r, cats));
    forall x ensures x in again <==> x in cats || (ShouldSendAll(r, cats) && x in KNOWN) {
      SentHas(r, cats, x);
    }
    if ShouldSendAll(r, cats) {
      forall x ensures x in UnknownOf(again) <==> x in UnknownOf(cats) {}
      AscendingIsUnique(UnknownOf(again), UnknownOf(cats));
      if cats == [] {
        NoUnknown(again);
      }
    } else {
      AscendingIsUnique(again, cats);
    }
  }

  lemma NoUnknown(s: seq<string>)
    requires forall x | x in s :: x in KNOWN
    ensures UnknownOf(s) == []
  {
    SomeMember(UnknownOf(s));
  }

  class Application {
    var backgroundCategory: seq<string>

    constructor (asked: seq<string>)
      ensures backgroundCategory == asked
    {
      backgroundCategory := asked;
    }
  }

  class StepCheckBackgroundCategory {
    const rules: Rules

    constructor (rules: Rules)
      ensures this.rules == rules
    {
      this.rules := rules;
    }

    method GetBackgroundCategories(app: Application) returns (cats: seq<string>)
      ensures cats == AsSet(app.backgroundCategory)
    {
      cats := [];
      var i := 0;
      while i < |app.backgroundCategory|
        invariant 0 <= i <= |app.backgroundCategory|
        invariant cats == AsSet(app.backgroundCategory[..i])
      {
        assert app.backgroundCategory[..i + 1][..i] == app.backgroundCategory[..i];
        cats := InsertOnce(cats, app.backgroundCategory[i]);
        i := i + 1;
      }
      assert app.backgroundCategory[..i] == app.backgroundCategory;
    }

    method CopyValuesToBackgroundCategory(values: seq<string>, app: Application)
      modifies app
      ensures app.backgroundCategory == old(app.backgroundCategory) + values
    {
      var i := 0;
      while i < |values|
        invariant 0 <= i <= |values|
        invariant app.backgroundCategory == old(app.backgroundCategory) + values[..i]
      {
        app.backgroundCategory := app.backgroundCategory + [values[i]];
        i := i + 1;
      }
    }

    /** One application; its list is emptied first, also when it then breaks the rule. */
    method Normalise(app: Application) returns (ok: bool)
      modifies app
      ensures ok == !ShouldSendFail(rules, AsSet(old(app.backgroundCategory)))
      ensures app.backgroundCategory == if ok then Sent(rules, AsSet(old(app.backgroundCategory))) else []
    {
      hide Filtered, KNOWN, AsSet, KnownOf, UnknownOf, ShouldSendFail, ShouldSendAll, ShouldSendSystem, ShouldSendKnown;
      hide ShouldSendUnknown;
      var cats := GetBackgroundCategories(app);
      app.backgroundCategory := [];
      if ShouldSendFail(rules, cats) {
        return false;
      }
      if ShouldSendAll(rules, cats) {
        CopyValuesToBackgroundCategory(KNOWN, app);
      }
      if ShouldSendSystem(rules, cats) {
        app.backgroundCategory := app.backgroundCategory + [SYSTEM];
      }
      if ShouldSendKnown(rules, cats) {
        CopyValuesToBackgroundCategory(KnownOf(cats), app);
      }
      if ShouldSendUnknown(rules, cats) {
        CopyValuesToBackgroundCategory(UnknownOf(cats), app);
      }
      return true;
    }

    /** Stops at the first application that breaks the rule; those before it have their result already. */
    method Process(apps: seq<Application>) returns (status: Status)
      requires forall i, j | 0 <= i < j < |apps| :: apps[i] != apps[j]
      modifies set app | app in apps
      ensures status == OK || status == ERROR
      ensures status == OK <==>
        forall i | 0 <= i < |apps| :: !ShouldSendFail(rules, AsSet(old(apps[i].backgroundCategory)))
      ensures status == OK ==> forall i | 0 <= i < |apps| ::
        NoDuplicates(apps[i].backgroundCategory) &&
        Members(apps[i].backgroundCategory) == Granted(rules, Members(old(apps[i].backgroundCategory)))
      ensures status == ERROR ==> exists k | 0 <= k < |apps| ::
        ShouldSendFail(rules, AsSet(old(apps[k].backgroundCategory))) && apps[k].backgroundCategory == [] &&
        (forall i | 0 <= i < k :: apps[i].backgroundCategory == Sent(rules, AsSet(old(apps[i].backgroundCategory)))) &&
        forall i | k < i < |apps| :: apps[i].backgroundCategory == old(apps[i].backgroundCategory)
    {
      hide Sent, ShouldSendFail, AsSet, Granted, NoDuplicates;
      var n := 0;
      while n < |apps|
        invariant 0 <= n <= |apps|
        invariant forall i | 0 <= i < n :: !ShouldSendFail(rules, AsSet(old(apps[i].backgroundCategory)))
        invariant forall i | 0 <= i < n ::
          apps[i].backgroundCategory == Sent(rules, AsSet(old(apps[i].backgroundCategory)))
        invariant forall i | n <= i < |apps| :: apps[i].backgroundCategory == old(apps[i].backgroundCategory)
      {
        var ok := Normalise(apps[n]);
        if !ok {
          return ERROR;
        }
        n := n + 1;
      }
      forall i | 0 <= i < |apps|
        ensures NoDuplicates(apps[i].backgroundCategory) &&
          Members(apps[i].backgroundCategory) == Granted(rules, Members(old(apps[i].backgroundCategory)))
      {
        SentIsGranted(rules, AsSet(old(apps[i].backgroundCategory)));
        assert Members(AsSet(old(apps[i].backgroundCategory))) == Members(old(apps[i].backgroundCategory));
      }
      return OK;
    }
  }
}
