/** The signals an installer sends to its client. */
module PkgmgrSignal {
  import opened PackageTrees

  datatype State = NOT_SENT | STARTED | FINISHED

  datatype Signal =
    | START | APP_UNINSTALL(appid: string) | PROGRESS(value: nat) | ERROR_KEY(code: Status) | END(ok: bool)

  /** The protocol: one START, then the uninstalled apps, then progress and errors, at most one END and
      nothing after it; progress never goes back and never passes 100. */
  ghost predicate Protocol(d: seq<Signal>) {
    (d != [] ==> d[0] == START) &&
    (forall i | 0 < i < |d| :: d[i] != START) &&
    (forall i | 0 <= i < |d| - 1 :: !d[i].END?) &&
    (forall i | 0 < i < |d| :: d[i].APP_UNINSTALL? ==> d[i - 1] == START || d[i - 1].APP_UNINSTALL?) &&
    (forall i | 0 <= i < |d| :: d[i].PROGRESS? ==> d[i].value <= 100) &&
    (forall i, j | 0 <= i < j < |d| :: d[i].PROGRESS? && d[j].PROGRESS? ==> d[i].value <= d[j].value)
  }

  /** No progress beyond `bound` has been reported. */
  predicate UpTo(d: seq<Signal>, bound: nat) {
    forall s | s in d :: s.PROGRESS? ==> s.value <= bound
  }

  predicate Ended(d: seq<Signal>) {
    d != [] && d[|d| - 1].END?
  }

  function Uninstalled(appids: seq<string>): seq<Signal> {
    seq(|appids|, i requires 0 <= i < |appids| => APP_UNINSTALL(appids[i]))
  }

  function Errors(codes: seq<Status>): seq<Signal> {
    seq(|codes|, i requires 0 <= i < |codes| => ERROR_KEY(codes[i]))
  }

  /** The error codes the client sees. */
  function Codes(d: seq<Signal>): seq<Status> {
    if d == [] then []
    else Codes(d[..|d| - 1]) + if d[|d| - 1].ERROR_KEY? then [d[|d| - 1].code] else []
  }

  /** The progress the client sees. */
  function Progresses(d: seq<Signal>): seq<nat> {
    if d == [] then []
    else Progresses(d[..|d| - 1]) + if d[|d| - 1].PROGRESS? then [d[|d| - 1].value] else []
  }

  lemma {:induction false} SeenOf(a: seq<Signal>, b: seq<Signal>)
    ensures Codes(a + b) == Codes(a) + Codes(b) && Progresses(a + b) == Progresses(a) + Progresses(b)
    decreases |b|
  {
    if b == [] {
      assert a + b == a;
    } else {
      assert (a + b)[..|a + b| - 1] == a + b[..|b| - 1];
      SeenOf(a, b[..|b| - 1]);
    }
  }

  lemma {:induction false} SeenOfErrors(codes: seq<Status>)
    ensures Codes(Errors(codes)) == codes && Progresses(Errors(codes)) == []
  {
    if codes != [] {
      var rest := codes[..|codes| - 1];
      assert Errors(codes)[..|codes| - 1] == Errors(rest) && codes == rest + [codes[|codes| - 1]];
      SeenOfErrors(rest);
    }
  }

  lemma {:induction false} SeenOfStart(appids: seq<string>)
    ensures var d := [START] + Uninstalled(appids); Codes(d) == [] && Progresses(d) == []
  {
    var d := [START] + Uninstalled(appids);
    if appids == [] {
      assert d[..0] == [];
    } else {
      assert d[..|d| - 1] == [START] + Uninstalled(appids[..|appids| - 1]);
      SeenOfStart(appids[..|appids| - 1]);
    }
  }

  lemma ErrorOrEndFollows(d: seq<Signal>, s: Signal)
    requires Protocol(d) && d != [] && !Ended(d) && (s.ERROR_KEY? || s.END?)
    ensures Protocol(d + [s]) && Ended(d + [s]) == s.END?
    ensures s in d + [s] && forall x | x in d :: x in d + [s]
  {
    assert (d + [s])[|d|] == s;
  }

  lemma AppidsFollow(appids: seq<string>)
    ensures var d := [START] + Uninstalled(appids); Protocol(d) && UpTo(d, 0) && !Ended(d)
  {
  }

  class PkgmgrSignal {
    const isUninstall: bool
    const lossy: bool
    const appids: seq<string>
    var state: State
    var errorMessageSent: bool
    var delivered: seq<Signal>

    constructor (isUninstall: bool, lossy: bool, appids: seq<string>)
      ensures this.isUninstall == isUninstall && this.lossy == lossy && this.appids == appids
      ensures Valid() && state == NOT_SENT && delivered == [] && !errorMessageSent
    {
      this.isUninstall, this.lossy, this.appids := isUninstall, lossy, appids;
      state, errorMessageSent, delivered := NOT_SENT, false, [];
    }

    ghost predicate Valid()
      reads this
    {
      Protocol(delivered) &&
      (state == NOT_SENT ==> delivered == [] && !errorMessageSent) &&
      (state != NOT_SENT ==> delivered != []) &&
      (state == FINISHED <==> Ended(delivered)) &&
      (errorMessageSent && !lossy ==> exists s | s in delivered :: s.ERROR_KEY?)
    }

    /** Only a signal that gets through is seen by the client. */
    method SendSignal(s: Signal) returns (ok: bool)
      modifies this`delivered
      ensures delivered == if ok then old(delivered) + [s] else old(delivered)
      ensures !lossy ==> ok
    {
      var lost: bool := *;
      ok := !(lossy && lost);
      if ok {
        delivered := delivered + [s];
      }
    }

    method SendStarted() returns (ok: bool)
      requires Valid()
      modifies this`state, this`delivered
      ensures Valid()
      ensures old(state) != NOT_SENT ==> !ok && state == old(state) && delivered == old(delivered)
      ensures old(state) == NOT_SENT && !lossy ==> ok
      ensures ok ==> state == STARTED && delivered == [START] + if isUninstall then Uninstalled(appids) else []
      ensures state == old(state) || state == STARTED
      ensures UpTo(delivered, 0) || delivered == old(delivered)
    {
      if state != NOT_SENT {
        return false;
      }
      ok := SendSignal(START);
      if !ok {
        return;
      }
      state := STARTED;
      if isUninstall {
        ok := SendAppids();
      }
    }

    method SendAppids() returns (ok: bool)
      requires Valid() && delivered == [START] && state == STARTED
      modifies this`delivered
      ensures Valid() && UpTo(delivered, 0) && (!lossy ==> ok)
      ensures delivered <= [START] + Uninstalled(appids) && (ok ==> delivered == [START] + Uninstalled(appids))
    {
      hide Protocol, UpTo, Ended;
      assert delivered == [START] + Uninstalled(appids[..0]);
      for i := 0 to |appids|
        invariant state == STARTED && errorMessageSent == old(errorMessageSent)
        invariant delivered == [START] + Uninstalled(appids[..i])
      {
        assert appids[..i + 1] == appids[..i] + [appids[i]];
        assert Uninstalled(appids[..i + 1]) == Uninstalled(appids[..i]) + [APP_UNINSTALL(appids[i])];
        ok := SendSignal(APP_UNINSTALL(appids[i]));
        if !ok {
          AppidsFollow(appids[..i]);
          assert Uninstalled(appids[..i]) <= Uninstalled(appids);
          return;
        }
      }
      assert appids[..|appids|] == appids;
      AppidsFollow(appids);
      return true;
    }

    method SendProgress(progress: nat) returns (ok: bool)
      requires Valid() && progress <= 100 && UpTo(delivered, progress)
      modifies this`delivered
      ensures Valid() && UpTo(delivered, progress)
      ensures ok ==> state == STARTED && delivered == old(delivered) + [PROGRESS(progress)]
      ensures !ok ==> delivered == old(delivered)
      ensures state == STARTED && !lossy ==> ok
    {
      if state != STARTED {
        return false;
      }
      ok := SendSignal(PROGRESS(progress));
    }

    method SendError(result: Status) returns (ok: bool)
      requires Valid()
      modifies this`delivered, this`errorMessageSent
      ensures Valid()
      ensures delivered == if ok then old(delivered) + [ERROR_KEY(result)] else old(delivered)
      ensures old(state) == STARTED && !lossy ==> ok
      ensures errorMessageSent == (old(errorMessageSent) || old(state) == STARTED)
    {
      if state != STARTED {
        return false;
      }
      errorMessageSent := true;
      ok := SendSignal(ERROR_KEY(result));
      assert ok ==> delivered[|delivered| - 1] == ERROR_KEY(result);
    }

    method SendFinished(result: Status) returns (ok: bool)
      requires Valid()
      modifies this`delivered, this`state
      ensures Valid()
      ensures old(state) != STARTED ==> !ok && delivered == old(delivered) && state == old(state)
      ensures old(state) == STARTED && !lossy ==> ok
      ensures ok ==> state == FINISHED && delivered[|delivered| - 1] == END(result == OK)
      ensures ok && result != OK && !lossy ==> exists s | s in delivered :: s.ERROR_KEY?
      ensures ok ==>
        delivered == old(delivered) +
          (if result != OK && !errorMessageSent then [ERROR_KEY(result)] else []) + [END(result == OK)]
      ensures old(delivered) <= delivered
    {
      if state != STARTED {
        return false;
      }
      hide Protocol;
      if result != OK && !errorMessageSent {
        ErrorOrEndFollows(delivered, ERROR_KEY(result));
        ok := SendSignal(ERROR_KEY(result));
        if !ok {
          return;
        }
      }
      ErrorOrEndFollows(delivered, END(result == OK));
      ok := SendSignal(END(result == OK));
      if ok {
        state := FINISHED;
      }
    }
  }
}
