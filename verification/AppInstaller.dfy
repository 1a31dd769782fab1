/** AppInstaller::Run: the steps are entered in order, undone in reverse after a failure, cleaned in order
    after a success, and the client is told. */
module AppInstaller {
  import P = PackageTrees
  import opened FileTree
  import opened PkgmgrSignal

  /** How a call of a step ends. */
  datatype Outcome = Returned(status: P.Status) | Threw

  /** What a call does: to the world all steps share, to the step's own fields, and which errors it reports
      through on_error. */
  datatype Reply<V, M> = Reply(shared: V, own: M, outcome: Outcome, errors: seq<P.Status>)

  /** A step is its four virtual functions.  Whatever decides how a call ends is part of the world. */
  datatype Step<!V, !M> = Step(
    precheck: (V, M) -> Reply<V, M>,
    process: (V, M) -> Reply<V, M>,
    undo: (V, M) -> Reply<V, M>,
    clean: (V, M) -> Reply<V, M>)

  datatype Call = Precheck(i: nat) | Process(i: nat) | Undo(i: nat) | Clean(i: nat)

  datatype Result = Ok | Error | CleanupError | UndoError

  const PROGRESS_RANGE := 100

  /** An exception counts as ERROR, never as success. */
  function StatusOf(o: Outcome): (s: P.Status)
    ensures s == P.OK <==> o == Returned(P.OK)
    ensures o == Threw ==> s == P.ERROR
    ensures forall status :: o == Returned(status) ==> s == status
  {
    if o.Threw? then P.ERROR else o.status
  }

  /** precheck, and process if that went well. */
  function Enter<V, M>(s: Step<V, M>, v: V, m: M): Reply<V, M> {
    var r := s.precheck(v, m);
    if StatusOf(r.outcome) != P.OK then r else s.process(r.shared, r.own)
  }

  /** The world when the first k steps have been entered. */
  function Shared<V, M>(steps: seq<Step<V, M>>, v: V, own: seq<M>, k: nat): V
    requires k <= |steps| == |own|
    decreases k, 0
  {
    if k == 0 then v else Entry(steps, v, own, k - 1).shared
  }

  function Entry<V, M>(steps: seq<Step<V, M>>, v: V, own: seq<M>, i: nat): Reply<V, M>
    requires i < |steps| == |own|
    decreases i, 1
  {
    Enter(steps[i], Shared(steps, v, own, i), own[i])
  }

  predicate Enters<V, M>(steps: seq<Step<V, M>>, v: V, own: seq<M>, i: nat)
    requires i < |steps| == |own|
  {
    StatusOf(Entry(steps, v, own, i).outcome) == P.OK
  }

  /** Undoing step k and all before it, starting in the world w; each step still has the fields it had after
      it was entered. */
  function UndoFrom<V, M>(steps: seq<Step<V, M>>, v: V, own: seq<M>, w: V, k: nat): V
    requires k < |steps| == |own|
  {
    var r := steps[k].undo(w, Entry(steps, v, own, k).own);
    if k == 0 then r.shared else UndoFrom(steps, v, own, r.shared, k - 1)
  }

  predicate AllUndone<V, M>(steps: seq<Step<V, M>>, v: V, own: seq<M>, w: V, k: nat)
    requires k < |steps| == |own|
  {
    var r := steps[k].undo(w, Entry(steps, v, own, k).own);
    StatusOf(r.outcome) == P.OK && (k == 0 || AllUndone(steps, v, own, r.shared, k - 1))
  }

  /** The world after the first j steps are cleaned. */
  function Cleaned<V, M>(steps: seq<Step<V, M>>, v: V, own: seq<M>, j: nat): V
    requires j <= |steps| == |own|
  {
    if j == 0 then Shared(steps, v, own, |steps|)
    else steps[j - 1].clean(Cleaned(steps, v, own, j - 1), Entry(steps, v, own, j - 1).own).shared
  }

  predicate Cleans<V, M>(steps: seq<Step<V, M>>, v: V, own: seq<M>, j: nat)
    requires j < |steps| == |own|
  {
    StatusOf(steps[j].clean(Cleaned(steps, v, own, j), Entry(steps, v, own, j).own).outcome) == P.OK
  }

  function ForwardCalls<V, M>(steps: seq<Step<V, M>>, v: V, own: seq<M>, k: nat): seq<Call>
    requires k <= |steps| == |own|
  {
    if k == 0 then []
    else
      var checked := steps[k - 1].precheck(Shared(steps, v, own, k - 1), own[k - 1]);
      ForwardCalls(steps, v, own, k - 1) + [Precheck(k - 1)] +
      if StatusOf(checked.outcome) == P.OK then [Process(k - 1)] else []
  }

  /** The errors that entering step i reports. */
  function EntryErrors<V, M>(steps: seq<Step<V, M>>, v: V, own: seq<M>, i: nat): seq<P.Status>
    requires i < |steps| == |own|
  {
    var checked := steps[i].precheck(Shared(steps, v, own, i), own[i]);
    checked.errors +
    if StatusOf(checked.outcome) == P.OK then steps[i].process(checked.shared, checked.own).errors else []
  }

  /** The package id is known after one of the first k steps. */
  predicate Known<V, M>(steps: seq<Step<V, M>>, v: V, own: seq<M>, hasPkgid: V -> bool, k: nat)
    requires k <= |steps| == |own|
  {
    exists i | 0 < i <= k :: hasPkgid(Shared(steps, v, own, i))
  }

  /** The errors of the first k steps that are reported once the package id is known. */
  function Reported<V, M>(steps: seq<Step<V, M>>, v: V, own: seq<M>, hasPkgid: V -> bool, k: nat): seq<P.Status>
    requires k <= |steps| == |own|
  {
    if k == 0 then []
    else
      Reported(steps, v, own, hasPkgid, k - 1) +
      if Known(steps, v, own, hasPkgid, k - 1) then EntryErrors(steps, v, own, k - 1) else []
  }

  /** The progress made by the first k steps, from where the package id is known. */
  function Advanced<V, M>(steps: seq<Step<V, M>>, v: V, own: seq<M>, hasPkgid: V -> bool, k: nat): seq<nat>
    requires k <= |steps| == |own|
  {
    if k == 0 then []
    else
      Advanced(steps, v, own, hasPkgid, k - 1) +
      if Known(steps, v, own, hasPkgid, k) then [Percent(k, |steps|)] else []
  }

  /** The errors reported while step k and all before it are undone. */
  function UndoErrors<V, M>(steps: seq<Step<V, M>>, v: V, own: seq<M>, w: V, k: nat): seq<P.Status>
    requires k < |steps| == |own|
  {
    var r := steps[k].undo(w, Entry(steps, v, own, k).own);
    r.errors + if k == 0 then [] else UndoErrors(steps, v, own, r.shared, k - 1)
  }

  /** The errors reported while the first j steps are cleaned. */
  function CleanErrors<V, M>(steps: seq<Step<V, M>>, v: V, own: seq<M>, j: nat): seq<P.Status>
    requires j <= |steps| == |own|
  {
    if j == 0 then []
    else
      CleanErrors(steps, v, own, j - 1) +
      steps[j - 1].clean(Cleaned(steps, v, own, j - 1), Entry(steps, v, own, j - 1).own).errors
  }

  function UndoCalls(k: nat): (calls: seq<Call>)
    ensures |calls| == k + 1
  {
    seq(k + 1, i requires 0 <= i <= k => Undo(k - i))
  }

  function CleanCalls(j: nat): seq<Call> {
    seq(j, i requires 0 <= i < j => Clean(i))
  }

  /** Step s undoes what entering it did, however that ended, on any world that looks like the one it left. */
  ghost predicate Compensates<V(!new), M(!new)>(s: Step<V, M>, same: (V, V) -> bool) {
    forall v, m, w {:trigger Enter(s, v, m), same(w, v)}{:trigger s.undo(w, Enter(s, v, m).own)} ::
      same(w, Enter(s, v, m).shared) ==> same(s.undo(w, Enter(s, v, m).own).shared, v)
  }

  /** The same for step i on the worlds of one run: it need only undo what it did there. */
  ghost predicate CompensatesAt<V(!new), M(!new)>(steps: seq<Step<V, M>>, v: V, own: seq<M>, i: nat,
                                  same: (V, V) -> bool)
    requires i < |steps| == |own|
  {
    forall w ::
      same(w, Shared(steps, v, own, i + 1)) ==>
      same(steps[i].undo(w, Entry(steps, v, own, i).own).shared, Shared(steps, v, own, i))
  }

  lemma CompensatesInEveryRun<V(!new), M(!new)>(steps: seq<Step<V, M>>, v: V, own: seq<M>, i: nat, same: (V, V) -> bool)
    requires i < |steps| == |own| && Compensates(steps[i], same)
    ensures CompensatesAt(steps, v, own, i, same)
  {
    var before := Shared(steps, v, own, i);
    forall w | same(w, Shared(steps, v, own, i + 1))
      ensures same(steps[i].undo(w, Entry(steps, v, own, i).own).shared, before)
    {
      assert Entry(steps, v, own, i) == Enter(steps[i], before, own[i]);
      assert same(w, Enter(steps[i], before, own[i]).shared);
    }
  }

  /** The saga: if every step compensates, a run that fails at step k ends in a world that looks like the one
      it began with. */
  lemma {:induction false} SagaRestores<V(!new), M(!new)>(steps: seq<Step<V, M>>, v: V, own: seq<M>, w: V, k: nat,
                                                         same: (V, V) -> bool)
    requires k < |steps| == |own|
    requires forall i | 0 <= i <= k :: CompensatesAt(steps, v, own, i, same)
    requires same(w, Shared(steps, v, own, k + 1))
    ensures same(UndoFrom(steps, v, own, w, k), v)
  {
    var r := steps[k].undo(w, Entry(steps, v, own, k).own);
    assert CompensatesAt(steps, v, own, k, same);
    assert same(r.shared, Shared(steps, v, own, k));
    if k > 0 {
      SagaRestores(steps, v, own, r.shared, k - 1, same);
    }
  }

  /** The failing run as a whole. */
  lemma FailedRunRestores<V(!new), M(!new)>(steps: seq<Step<V, M>>, v: V, own: seq<M>, k: nat, same: (V, V) -> bool)
    requires k < |steps| == |own|
    requires forall i | 0 <= i <= k :: CompensatesAt(steps, v, own, i, same)
    requires same(Shared(steps, v, own, k + 1), Shared(steps, v, own, k + 1))
    ensures same(UndoFrom(steps, v, own, Shared(steps, v, own, k + 1), k), v)
  {
    SagaRestores(steps, v, own, Shared(steps, v, own, k + 1), k, same);
  }

  /** current_step * kProgressRange / total_steps */
  function Percent(step: nat, total: nat): (p: nat)
    requires total > 0
    ensures p * total <= 100 * step < (p + 1) * total
  {
    step * PROGRESS_RANGE / total
  }

  lemma PercentBounds(step: nat, total: nat)
    requires step < total
    ensures Percent(step, total) <= Percent(step + 1, total) <= 100
    ensures Percent(total, total) == 100
  {
    Quotient(step * 100, (step + 1) * 100, total);
    Quotient((step + 1) * 100, total * 100, total);
    Exact(100, total);
  }

  lemma Scale(a: int, b: int, n: nat)
    requires a <= b
    ensures a * n <= b * n
  {
  }

  lemma Quotient(a: nat, b: nat, n: nat)
    requires n > 0 && a <= b
    ensures a / n <= b / n
  {
    var x, y := a / n, b / n;
    assert x * n <= a && b < y * n + n;
    if x > y {
      Scale(y + 1, x, n);
    }
  }

  lemma Exact(q: nat, n: nat)
    requires n > 0
    ensures n * q / n == q
  {
    var x := n * q / n;
    assert x * n <= q * n < x * n + n;
    if x < q {
      Scale(x + 1, q, n);
    } else if x > q {
      Scale(q + 1, x, n);
    }
  }

  class AppInstaller<V, M> {
    const steps: seq<Step<V, M>>
    const pi: PkgmgrSignal?
    const hasPkgid: V -> bool
    var shared: V
    var own: seq<M>
    var calls: seq<Call>

    constructor (steps: seq<Step<V, M>>, pi: PkgmgrSignal?, hasPkgid: V -> bool, shared: V, own: seq<M>)
      ensures this.steps == steps && this.pi == pi && this.hasPkgid == hasPkgid
      ensures this.shared == shared && this.own == own && calls == []
    {
      this.steps, this.pi, this.hasPkgid := steps, pi, hasPkgid;
      this.shared, this.own, calls := shared, own, [];
    }

    /** The signals so far are in order and report no progress beyond `bound`. */
    ghost predicate Told(bound: nat)
      reads this, pi
    {
      pi != null ==> pi.Valid() && pi.state != FINISHED && UpTo(pi.delivered, bound)
    }

    /** HandleStepError, once for every error a step reports. */
    method Report(errors: seq<P.Status>, ghost bound: nat)
      requires Told(bound)
      modifies pi
      ensures Told(bound) && (pi != null ==> old(pi.delivered) <= pi.delivered && pi.state == old(pi.state))
      ensures pi != null && !pi.lossy ==> Heard(old(pi.delivered), old(pi.errorMessageSent), errors)
    {
      hide Protocol, Ended, Errors;
      if pi != null {
        NoErrors();
        for i := 0 to |errors|
          invariant Told(bound) && old(pi.delivered) <= pi.delivered && pi.state == old(pi.state)
          invariant !pi.lossy ==> Heard(old(pi.delivered), old(pi.errorMessageSent), errors[..i])
        {
          var _ := pi.SendError(errors[i]);
          OneError(errors, i);
        }
        assert errors[..|errors|] == errors;
      }
    }

    lemma NoErrors()
      ensures Errors([]) == []
    {
    }

    lemma OneError(errors: seq<P.Status>, i: nat)
      requires i < |errors|
      ensures Errors(errors[..i + 1]) == Errors(errors[..i]) + [ERROR_KEY(errors[i])] && errors[..i + 1] != []
    {
    }

    /** These errors, in this order, are all that the client has been told since; before START it is told none. */
    ghost predicate Heard(before: seq<Signal>, sent: bool, errors: seq<P.Status>)
      requires pi != null
      reads pi
    {
      pi.delivered == before + (if pi.state == STARTED then Errors(errors) else []) &&
      pi.errorMessageSent == (sent || (pi.state == STARTED && errors != []))
    }

    lemma NothingHeard()
      requires pi != null
      ensures Heard(pi.delivered, pi.errorMessageSent, [])
    {
      assert pi.delivered + [] == pi.delivered;
    }

    /** After `done` was heard up to the signals `between`, more was. */
    lemma HeardMore(before: seq<Signal>, sent: bool, between: seq<Signal>, sentBetween: bool, done: seq<P.Status>,
                    errors: seq<P.Status>)
      requires pi != null && Heard(between, sentBetween, errors)
      requires between == before + (if pi.state == STARTED then Errors(done) else [])
      requires sentBetween == (sent || (pi.state == STARTED && done != []))
      ensures Heard(before, sent, done + errors)
    {
      assert Errors(done + errors) == Errors(done) + Errors(errors);
    }

    /** Takes over what a call of step i did; `done` are the errors the client was told from the signals `before`
        on. */
    method Finish(call: Call, reply: Reply<V, M>, ghost bound: nat, ghost before: seq<Signal>, ghost sent: bool,
                  ghost done: seq<P.Status>)
      returns (status: P.Status)
      requires Told(bound) && call.i < |own| && (pi != null && !pi.lossy ==> Heard(before, sent, done))
      modifies this, pi
      ensures Told(bound) && (pi != null ==> old(pi.delivered) <= pi.delivered && pi.state == old(pi.state))
      ensures pi != null && !pi.lossy ==> Heard(before, sent, done + reply.errors)
      ensures shared == reply.shared && own == old(own)[call.i := reply.own] && calls == old(calls) + [call]
      ensures status == StatusOf(reply.outcome)
    {
      ghost var between, sentBetween := if pi != null then pi.delivered else [], pi != null && pi.errorMessageSent;
      Report(reply.errors, bound);
      if pi != null && !pi.lossy {
        HeardMore(before, sent, between, sentBetween, done, reply.errors);
      }
      shared, own, calls := reply.shared, own[call.i := reply.own], calls + [call];
      return StatusOf(reply.outcome);
    }

    /** One round of the forward loop. */
    method EnterStep(i: nat, ghost bound: nat) returns (status: P.Status)
      requires i < |steps| == |own| && Told(bound)
      modifies this, pi
      ensures Told(bound) && (pi != null ==> old(pi.delivered) <= pi.delivered && pi.state == old(pi.state))
      ensures
        var checked := steps[i].precheck(old(shared), old(own)[i]);
        var good := StatusOf(checked.outcome) == P.OK;
        var r := if good then steps[i].process(checked.shared, checked.own) else checked;
        r == Enter(steps[i], old(shared), old(own)[i]) &&
        shared == r.shared && own == old(own)[i := r.own] && status == StatusOf(r.outcome) &&
        calls == old(calls) + [Precheck(i)] + (if good then [Process(i)] else []) &&
        (pi != null && !pi.lossy ==>
           Heard(old(pi.delivered), old(pi.errorMessageSent), checked.errors + if good then r.errors else []))
    {
      hide Heard, Told, StatusOf, Protocol;
      ghost var before, sent := if pi != null then pi.delivered else [], pi != null && pi.errorMessageSent;
      if pi != null {
        NothingHeard();
      }
      var checked := steps[i].precheck(shared, own[i]);
      assert [] + checked.errors == checked.errors == checked.errors + [];
      status := Finish(Precheck(i), checked, bound, before, sent, []);
      if status == P.OK {
        status := Finish(Process(i), steps[i].process(shared, own[i]), bound, before, sent, checked.errors);
      }
    }

    /** START as soon as the package id is known, and the progress made. */
    method Tell(i: nat)
      requires i < |steps| && Told(Percent(i, |steps|))
      modifies pi
      ensures Told(Percent(i + 1, |steps|))
      ensures pi != null && !pi.lossy && hasPkgid(shared) ==> PROGRESS(Percent(i + 1, |steps|)) in pi.delivered
      ensures pi != null && !pi.lossy ==>
        (pi.state == STARTED <==> old(pi.state) == STARTED || hasPkgid(shared)) &&
        pi.errorMessageSent == old(pi.errorMessageSent) &&
        pi.delivered == old(pi.delivered) +
          (if old(pi.state) == NOT_SENT && hasPkgid(shared) then
             [START] + (if pi.isUninstall then Uninstalled(pi.appids) else []) else []) +
          (if pi.state == STARTED then [PROGRESS(Percent(i + 1, |steps|))] else [])
    {
      PercentBounds(i, |steps|);
      if pi != null {
        if pi.state == NOT_SENT {
          if hasPkgid(shared) {
            var _ := pi.SendStarted();
          }
        }
        ghost var before := pi.delivered;
        var sent := pi.SendProgress(Percent(i + 1, |steps|));
        assert sent ==> pi.delivered[|before|] == PROGRESS(Percent(i + 1, |steps|));
      }
    }

    /** One round of the forward loop, with what the client is told of it. */
    method Advance(i: nat, ghost v: V, ghost m: seq<M>) returns (status: P.Status)
      requires i < |steps| == |own| == |m| && Told(Percent(i, |steps|))
      requires shared == Shared(steps, v, m, i) && own[i] == m[i] && calls == ForwardCalls(steps, v, m, i)
      requires pi != null && !pi.lossy ==> Sees(v, m, i)
      modifies this, pi
      ensures shared == Shared(steps, v, m, i + 1) && own == old(own)[i := Entry(steps, v, m, i).own]
      ensures status == StatusOf(Entry(steps, v, m, i).outcome) && calls == ForwardCalls(steps, v, m, i + 1)
      ensures Told(Percent(if status == P.OK then i + 1 else i, |steps|))
      ensures pi != null && !pi.lossy ==>
        if status == P.OK then
          Sees(v, m, i + 1) && (hasPkgid(shared) ==> PROGRESS(Percent(i + 1, |steps|)) in pi.delivered)
        else Failing(v, m, i)
    {
      hide UpTo, Protocol, Percent, Ended, Shared, ForwardCalls, Heard, Known, Reported, Advanced, Codes, Progresses;
      EnterOne(v, m, i);
      ghost var heard, sent := if pi != null then pi.delivered else [], pi != null && pi.errorMessageSent;
      status := EnterStep(i, Percent(i, |steps|));
      if pi != null && !pi.lossy {
        SeesErrors(v, m, i, heard, sent);
      }
      if status == P.OK {
        ghost var told := if pi != null then pi.delivered else [];
        Tell(i);
        if pi != null && !pi.lossy {
          SeesProgress(v, m, i, told);
        }
      }
    }

    /** The forward loop; it stops at the first step that fails. */
    method EnterAll() returns (processStatus: P.Status, failed: Option<nat>)
      requires |own| == |steps| && calls == [] && (pi != null ==> pi.Valid() && pi.state == NOT_SENT)
      modifies this, pi
      ensures Told(100) && |own| == |steps| && (processStatus == P.OK <==> failed.None?)
      ensures failed.Some? ==>
        failed.value < |steps| && processStatus == StatusOf(Entry(steps, old(shared), old(own), failed.value).outcome)
      ensures var k := failed.GetOr(|steps|); var n := if failed.Some? then k + 1 else k;
        k <= |steps| && n <= |steps| &&
        (forall i | 0 <= i < k :: Enters(steps, old(shared), old(own), i)) &&
        (failed.Some? ==> !Enters(steps, old(shared), old(own), k)) &&
        (forall i | 0 <= i < n :: own[i] == Entry(steps, old(shared), old(own), i).own) &&
        shared == Shared(steps, old(shared), old(own), n) &&
        calls == ForwardCalls(steps, old(shared), old(own), n)
      ensures pi != null && !pi.lossy && failed.None? && steps != [] && hasPkgid(shared) ==>
        PROGRESS(100) in pi.delivered
      ensures pi != null && !pi.lossy ==>
        if failed.Some? then Failing(old(shared), old(own), failed.value) else Sees(old(shared), old(own), |steps|)
    {
      hide UpTo, Protocol, Percent, Ended, Shared, ForwardCalls, Sees, Failing, Heard;
      NothingTold(if steps == [] then 100 else Percent(0, |steps|));
      EnterNone(shared, own);
      if pi != null {
        NothingSeen(shared, own);
      }
      processStatus, failed := P.OK, None;
      ghost var v, m := shared, own;
      var it := 0;
      while it < |steps|
        invariant it <= |steps| == |own|
        invariant shared == Shared(steps, v, m, it)
        invariant forall i | 0 <= i < it :: Enters(steps, v, m, i) && own[i] == Entry(steps, v, m, i).own
        invariant forall i | it <= i < |steps| :: own[i] == m[i]
        invariant calls == ForwardCalls(steps, v, m, it)
        invariant Told(if steps == [] then 100 else Percent(it, |steps|))
        invariant pi != null && !pi.lossy && it > 0 && hasPkgid(shared) ==>
          PROGRESS(Percent(it, |steps|)) in pi.delivered
        invariant pi != null && !pi.lossy ==> Sees(v, m, it)
        invariant processStatus == P.OK
      {
        PercentBounds(it, |steps|);
        processStatus := Advance(it, v, m);
        if processStatus != P.OK {
          Loosen(Percent(it, |steps|));
          return processStatus, Some(it);
        }
        it := it + 1;
      }
      if steps != [] {
        PercentBounds(it - 1, |steps|);
      }
    }

    /** What the client has seen, if no signal is lost, when the first k steps have succeeded. */
    ghost predicate Sees(v: V, m: seq<M>, k: nat)
      requires pi != null && k <= |steps| == |m|
      reads pi
    {
      (pi.state == STARTED <==> Known(steps, v, m, hasPkgid, k)) &&
      Codes(pi.delivered) == Reported(steps, v, m, hasPkgid, k) &&
      Progresses(pi.delivered) == Advanced(steps, v, m, hasPkgid, k) &&
      pi.errorMessageSent == (Reported(steps, v, m, hasPkgid, k) != [])
    }

    /** The same when step k has been entered. */
    ghost predicate Failing(v: V, m: seq<M>, k: nat)
      requires pi != null && k < |steps| == |m|
      reads pi
    {
      (pi.state == STARTED <==> Known(steps, v, m, hasPkgid, k)) &&
      Codes(pi.delivered) == Reported(steps, v, m, hasPkgid, k + 1) &&
      Progresses(pi.delivered) == Advanced(steps, v, m, hasPkgid, k) &&
      pi.errorMessageSent == (Reported(steps, v, m, hasPkgid, k + 1) != [])
    }

    lemma SeesErrors(v: V, m: seq<M>, k: nat, before: seq<Signal>, sent: bool)
      requires pi != null && k < |steps| == |m| && Heard(before, sent, EntryErrors(steps, v, m, k))
      requires pi.state == STARTED <==> Known(steps, v, m, hasPkgid, k)
      requires Codes(before) == Reported(steps, v, m, hasPkgid, k)
      requires Progresses(before) == Advanced(steps, v, m, hasPkgid, k)
      requires sent == (Reported(steps, v, m, hasPkgid, k) != [])
      ensures Failing(v, m, k)
    {
      hide Known, EntryErrors, Codes, Progresses, Advanced, Errors;
      var errors := EntryErrors(steps, v, m, k);
      SeenOf(before, Errors(errors));
      SeenOfErrors(errors);
      assert before + [] == before;
    }

    lemma SeesProgress(v: V, m: seq<M>, k: nat, before: seq<Signal>)
      requires pi != null && k < |steps| == |m|
      requires Codes(before) == Reported(steps, v, m, hasPkgid, k + 1)
      requires Progresses(before) == Advanced(steps, v, m, hasPkgid, k)
      requires pi.errorMessageSent == (Reported(steps, v, m, hasPkgid, k + 1) != [])
      requires pi.state == STARTED <==>
        Known(steps, v, m, hasPkgid, k) || hasPkgid(Shared(steps, v, m, k + 1))
      requires pi.delivered == before +
        (if !Known(steps, v, m, hasPkgid, k) && hasPkgid(Shared(steps, v, m, k + 1)) then
           [START] + (if pi.isUninstall then Uninstalled(pi.appids) else []) else []) +
        (if pi.state == STARTED then [PROGRESS(Percent(k + 1, |steps|))] else [])
      ensures Sees(v, m, k + 1)
    {
      hide Shared, Reported, Codes, Progresses, Percent;
      assert Known(steps, v, m, hasPkgid, k + 1) <==>
        Known(steps, v, m, hasPkgid, k) || hasPkgid(Shared(steps, v, m, k + 1));
      var p := [PROGRESS(Percent(k + 1, |steps|))];
      var start := [START] + (if pi.isUninstall then Uninstalled(pi.appids) else []);
      SeenOfStart(if pi.isUninstall then pi.appids else []);
      assert Uninstalled([]) == [] && [START] + [] == [START];
      SeenOf(before, start);
      SeenOf(before + start, p);
      SeenOf(before, p);
      SeenOf(before, []);
      OneProgress(Percent(k + 1, |steps|));
      assert before + [] == before && (before + start) + [] == before + start;
    }

    lemma OneProgress(value: nat)
      ensures Codes([PROGRESS(value)]) == [] && Progresses([PROGRESS(value)]) == [value]
      ensures Codes([]) == [] && Progresses([]) == []
    {
      assert [PROGRESS(value)][..0] == [];
    }

    lemma NothingTold(bound: nat)
      requires pi != null ==> pi.Valid() && pi.state == NOT_SENT
      ensures Told(bound)
    {
    }

    lemma NothingSeen(v: V, m: seq<M>)
      requires pi != null && pi.Valid() && pi.state == NOT_SENT && |m| == |steps|
      ensures Sees(v, m, 0)
    {
    }

    lemma EnterNone(v: V, m: seq<M>)
      requires |m| == |steps|
      ensures Shared(steps, v, m, 0) == v && ForwardCalls(steps, v, m, 0) == []
    {
    }

    lemma EnterOne(v: V, m: seq<M>, it: nat)
      requires it < |m| == |steps|
      ensures var w := Shared(steps, v, m, it);
        Shared(steps, v, m, it + 1) == Enter(steps[it], w, m[it]).shared &&
        Entry(steps, v, m, it) == Enter(steps[it], w, m[it]) &&
        ForwardCalls(steps, v, m, it + 1) == ForwardCalls(steps, v, m, it) + ([Precheck(it)] +
          if StatusOf(steps[it].precheck(w, m[it]).outcome) == P.OK then [Process(it)] else [])
    {
    }

    lemma Loosen(bound: nat)
      requires Told(bound) && bound <= 100
      ensures Told(100)
    {
    }

    lemma OneUndo(k: nat, it: nat)
      requires it <= k
      ensures k - it < |UndoCalls(k)| && UndoCalls(k)[..k - it + 1] == UndoCalls(k)[..k - it] + [Undo(it)]
      ensures UndoCalls(k)[..k + 1] == UndoCalls(k)
    {
    }

    lemma UndoOne(v: V, m: seq<M>, w: V, k: nat)
      requires k < |steps| == |m|
      ensures var r := steps[k].undo(w, Entry(steps, v, m, k).own); var good := StatusOf(r.outcome) == P.OK;
        if k == 0 then
          UndoFrom(steps, v, m, w, k) == r.shared && AllUndone(steps, v, m, w, k) == good &&
          UndoErrors(steps, v, m, w, k) == r.errors
        else
          UndoFrom(steps, v, m, w, k) == UndoFrom(steps, v, m, r.shared, k - 1) &&
          AllUndone(steps, v, m, w, k) == (good && AllUndone(steps, v, m, r.shared, k - 1)) &&
          UndoErrors(steps, v, m, w, k) == r.errors + UndoErrors(steps, v, m, r.shared, k - 1)
    {
    }

    /** The reverse loop: every step from k down is undone, whatever becomes of the others. */
    method UndoAll(k: nat, ghost v: V, ghost m: seq<M>) returns (ret: Result)
      requires k < |steps| == |own| == |m| && Told(100)
      requires forall i | 0 <= i <= k :: own[i] == Entry(steps, v, m, i).own
      modifies this, pi
      ensures Told(100) && (pi != null ==> old(pi.delivered) <= pi.delivered)
      ensures shared == UndoFrom(steps, v, m, old(shared), k)
      ensures ret == if AllUndone(steps, v, m, old(shared), k) then Error else UndoError
      ensures calls == old(calls) + UndoCalls(k)
      ensures pi != null ==> pi.state == old(pi.state)
      ensures pi != null && !pi.lossy ==>
        Heard(old(pi.delivered), old(pi.errorMessageSent), UndoErrors(steps, v, m, old(shared), k))
    {
      hide Entry, Shared, UpTo, Heard, UndoFrom, AllUndone, UndoErrors, Protocol, UndoCalls, Told;
      hide StatusOf, Ended, Errors;
      ret := Error;
      var it := k;
      ghost var done: seq<P.Status> := [];
      ghost var before, sent := if pi != null then pi.delivered else [], pi != null && pi.errorMessageSent;
      if pi != null {
        NothingHeard();
      }
      while true
        invariant 0 <= it <= k && |own| == |steps| && Told(100)
        invariant pi != null ==> old(pi.delivered) <= pi.delivered
        invariant forall i | 0 <= i <= it :: own[i] == Entry(steps, v, m, i).own
        invariant UndoFrom(steps, v, m, old(shared), k) == UndoFrom(steps, v, m, shared, it)
        invariant AllUndone(steps, v, m, old(shared), k) == (ret == Error && AllUndone(steps, v, m, shared, it))
        invariant ret in {Error, UndoError}
        invariant calls == old(calls) + UndoCalls(k)[..k - it]
        invariant pi != null ==> pi.state == old(pi.state)
        invariant pi != null && !pi.lossy ==> Heard(before, sent, done)
        invariant UndoErrors(steps, v, m, old(shared), k) == done + UndoErrors(steps, v, m, shared, it)
        decreases it
      {
        ghost var errors := steps[it].undo(shared, own[it]).errors;
        UndoOne(v, m, shared, it);
        var status := Finish(Undo(it), steps[it].undo(shared, own[it]), 100, before, sent, done);
        if it > 0 {
          ghost var rest := UndoErrors(steps, v, m, shared, it - 1);
          assert done + (errors + rest) == done + errors + rest;
        }
        done := done + errors;
        OneUndo(k, it);
        if status != P.OK {
          ret := UndoError;
        }
        if it == 0 {
          return;
        }
        it := it - 1;
      }
    }

    lemma CleanNone(v: V, m: seq<M>)
      requires |steps| == |m|
      ensures Cleaned(steps, v, m, 0) == Shared(steps, v, m, |steps|) && CleanErrors(steps, v, m, 0) == []
    {
    }

    lemma CleanOne(v: V, m: seq<M>, j: nat)
      requires j < |steps| == |m|
      ensures var r := steps[j].clean(Cleaned(steps, v, m, j), Entry(steps, v, m, j).own);
        Cleaned(steps, v, m, j + 1) == r.shared && Cleans(steps, v, m, j) == (StatusOf(r.outcome) == P.OK) &&
        CleanErrors(steps, v, m, j + 1) == CleanErrors(steps, v, m, j) + r.errors
    {
    }

    /** The cleaning loop stops at the first step that fails. */
    method CleanAll(ghost v: V, ghost m: seq<M>) returns (ret: Result, j: nat)
      requires |steps| == |own| == |m| && Told(100)
      requires shared == Shared(steps, v, m, |steps|)
      requires forall i | 0 <= i < |steps| :: own[i] == Entry(steps, v, m, i).own
      modifies this, pi
      ensures Told(100) && (pi != null ==> old(pi.delivered) <= pi.delivered)
      ensures j <= |steps| && (forall i | 0 <= i < j :: Cleans(steps, v, m, i))
      ensures if j < |steps| then !Cleans(steps, v, m, j) && ret == CleanupError else ret == Ok
      ensures var done := if j < |steps| then j + 1 else j;
        calls == old(calls) + CleanCalls(done) && shared == Cleaned(steps, v, m, done) &&
        (pi != null ==> pi.state == old(pi.state)) &&
        (pi != null && !pi.lossy ==>
           Heard(old(pi.delivered), old(pi.errorMessageSent), CleanErrors(steps, v, m, done)))
    {
      hide Entry, Shared, UpTo, Heard, Protocol, Cleaned, Cleans, CleanErrors;
      CleanNone(v, m);
      j := 0;
      ghost var before, sent := if pi != null then pi.delivered else [], pi != null && pi.errorMessageSent;
      if pi != null {
        NothingHeard();
      }
      while j < |steps|
        invariant j <= |steps| && |own| == |steps| && Told(100)
        invariant pi != null ==> old(pi.delivered) <= pi.delivered
        invariant forall i | 0 <= i < j :: Cleans(steps, v, m, i)
        invariant forall i | j <= i < |steps| :: own[i] == Entry(steps, v, m, i).own
        invariant calls == old(calls) + CleanCalls(j) && shared == Cleaned(steps, v, m, j)
        invariant pi != null ==> pi.state == old(pi.state)
        invariant pi != null && !pi.lossy ==>
          Heard(before, sent, CleanErrors(steps, v, m, j))
      {
        CleanOne(v, m, j);
        var status := Finish(Clean(j), steps[j].clean(shared, own[j]), 100, before, sent, CleanErrors(steps, v, m, j));
        assert CleanCalls(j + 1) == CleanCalls(j) + [Clean(j)];
        if status != P.OK {
          return CleanupError, j;
        }
        j := j + 1;
      }
      ret := Ok;
    }

    /** START if the package id never became known, and END. */
    method TellEnd(processStatus: P.Status)
      requires Told(100)
      modifies pi
      ensures pi != null ==> Protocol(pi.delivered)
      ensures pi != null && !pi.lossy ==>
        pi.delivered != [] && pi.delivered[|pi.delivered| - 1] == END(processStatus == P.OK) &&
        (processStatus != P.OK ==> exists s | s in pi.delivered :: s.ERROR_KEY?) &&
        (forall s | s in old(pi.delivered) :: s in pi.delivered) &&
        pi.delivered == old(pi.delivered) +
          (if old(pi.state) == NOT_SENT then
             [START] + (if pi.isUninstall then Uninstalled(pi.appids) else []) else []) +
          (if processStatus != P.OK && !old(pi.errorMessageSent) then [ERROR_KEY(processStatus)] else []) +
          [END(processStatus == P.OK)]
    {
      if pi != null {
        if pi.state == NOT_SENT {
          var _ := pi.SendStarted();
        }
        var _ := pi.SendFinished(processStatus);
      }
    }

    /** Runs the steps; also returns the step that failed, or how many were cleaned.  The calls made, the
        world left behind and the result are those of the saga; the client sees the protocol, and when no
        signal is lost it sees the end of it. */
    method Run() returns (ret: Result, failed: Option<nat>, cleaned: nat)
      requires |own| == |steps| && calls == []
      requires pi != null ==> pi.Valid() && pi.state == NOT_SENT
      modifies this, pi
      ensures cleaned <= |steps| && (failed.Some? ==> failed.value < |steps|)
      ensures failed.Some? ==> var k := failed.value;
        k < |steps| && !Enters(steps, old(shared), old(own), k) &&
        (forall i | 0 <= i < k :: Enters(steps, old(shared), old(own), i)) &&
        calls == ForwardCalls(steps, old(shared), old(own), k + 1) + UndoCalls(k) &&
        var w := Shared(steps, old(shared), old(own), k + 1);
        shared == UndoFrom(steps, old(shared), old(own), w, k) &&
        ret == if AllUndone(steps, old(shared), old(own), w, k) then Error else UndoError
      ensures failed.None? ==>
        cleaned <= |steps| && (forall i | 0 <= i < |steps| :: Enters(steps, old(shared), old(own), i)) &&
        (forall i | 0 <= i < cleaned :: Cleans(steps, old(shared), old(own), i)) &&
        (cleaned < |steps| ==> !Cleans(steps, old(shared), old(own), cleaned)) &&
        ret == (if cleaned < |steps| then CleanupError else Ok) &&
        var called := if cleaned < |steps| then cleaned + 1 else cleaned;
        calls == ForwardCalls(steps, old(shared), old(own), |steps|) + CleanCalls(called) &&
        shared == Cleaned(steps, old(shared), old(own), called)
      ensures pi != null ==> Protocol(pi.delivered)
      ensures pi != null && !pi.lossy ==>
        pi.delivered != [] && pi.delivered[|pi.delivered| - 1] == END(failed.None?) &&
        (failed.Some? ==> exists s | s in pi.delivered :: s.ERROR_KEY?) &&
        (failed.None? && steps != [] && hasPkgid(Shared(steps, old(shared), old(own), |steps|)) ==>
           PROGRESS(100) in pi.delivered)
      ensures pi != null && !pi.lossy ==>
        Codes(pi.delivered) == Seen(old(shared), old(own), failed, cleaned) &&
        Progresses(pi.delivered) == Advanced(steps, old(shared), old(own), hasPkgid, failed.GetOr(|steps|))
    {
      hide Entry, Shared, Enters, AllUndone, UndoFrom, Protocol, UpTo, Percent, Codes, Progresses, Heard, Advanced;
      hide Reported, Known, UndoErrors, CleanErrors, Seen, Cleaned, Cleans, ForwardCalls, Told;
      ghost var v, m := shared, own;
      var processStatus;
      processStatus, failed := EnterAll();
      ret, cleaned := Ok, 0;
      ghost var before, sent := if pi != null then pi.delivered else [], pi != null && pi.errorMessageSent;
      if failed.Some? {
        ret := UndoAll(failed.value, v, m);
      } else {
        ret, cleaned := CleanAll(v, m);
      }
      if pi != null && !pi.lossy {
        AllSeen(v, m, failed, cleaned, before, sent, processStatus);
      }
      TellEnd(processStatus);
    }

    /** The error codes a client sees of the run: all that the steps report from the moment the package id is known,
        in the order they report them; if there are none and a step failed, its status. */
    ghost function Seen(v: V, m: seq<M>, failed: Option<nat>, cleaned: nat): seq<P.Status>
      requires |steps| == |m| && (failed.Some? ==> failed.value < |steps|) && cleaned <= |steps|
    {
      var k := failed.GetOr(|steps|);
      var entered := Reported(steps, v, m, hasPkgid, if failed.Some? then k + 1 else k);
      var later :=
        if !Known(steps, v, m, hasPkgid, k) then []
        else if failed.Some? then UndoErrors(steps, v, m, Shared(steps, v, m, k + 1), k)
        else CleanErrors(steps, v, m, if cleaned < |steps| then cleaned + 1 else cleaned);
      if failed.Some? && entered + later == [] then [StatusOf(Entry(steps, v, m, k).outcome)] else entered + later
    }

    /** What the client has seen when END is about to be sent, and what it sees with it. */
    lemma AllSeen(v: V, m: seq<M>, failed: Option<nat>, cleaned: nat, before: seq<Signal>, sent: bool,
                  processStatus: P.Status)
      requires pi != null && |steps| == |m| && cleaned <= |steps|
      requires failed.Some? ==>
        failed.value < |steps| && processStatus == StatusOf(Entry(steps, v, m, failed.value).outcome)
      requires processStatus == P.OK <==> failed.None?
      requires var k := failed.GetOr(|steps|); var n := if failed.Some? then k + 1 else k;
        (pi.state == STARTED <==> Known(steps, v, m, hasPkgid, k)) &&
        Codes(before) == Reported(steps, v, m, hasPkgid, n) &&
        Progresses(before) == Advanced(steps, v, m, hasPkgid, k) &&
        sent == (Reported(steps, v, m, hasPkgid, n) != []) &&
        Heard(before, sent,
              if failed.Some? then UndoErrors(steps, v, m, Shared(steps, v, m, k + 1), k)
              else CleanErrors(steps, v, m, if cleaned < |steps| then cleaned + 1 else cleaned))
      ensures var end := pi.delivered +
          (if pi.state == NOT_SENT then [START] + (if pi.isUninstall then Uninstalled(pi.appids) else []) else []) +
          (if processStatus != P.OK && !pi.errorMessageSent then [ERROR_KEY(processStatus)] else []) +
          [END(processStatus == P.OK)];
        Codes(end) == Seen(v, m, failed, cleaned) &&
        Progresses(end) == Advanced(steps, v, m, hasPkgid, failed.GetOr(|steps|))
    {
      hide Shared, Entry, Codes, Progresses, Reported, Known, UndoErrors, CleanErrors, Advanced, Errors;
      var later := if failed.Some? then UndoErrors(steps, v, m, Shared(steps, v, m, failed.value + 1), failed.value)
        else CleanErrors(steps, v, m, if cleaned < |steps| then cleaned + 1 else cleaned);
      SeenOfErrors(later);
      SeenOf(before, Errors(later));
      assert before + [] == before;
      EndSeen(pi.delivered, pi.state == NOT_SENT, if pi.isUninstall then pi.appids else [], pi.errorMessageSent,
              processStatus);
      assert Uninstalled([]) == [];
    }

    lemma EndSeen(d: seq<Signal>, late: bool, appids: seq<string>, sent: bool, status: P.Status)
      ensures var error := if status != P.OK && !sent then [status] else [];
        var end := d + (if late then [START] + Uninstalled(appids) else []) +
          (if status != P.OK && !sent then [ERROR_KEY(status)] else []) + [END(status == P.OK)];
        Codes(end) == Codes(d) + error && Progresses(end) == Progresses(d)
    {
      hide Codes, Progresses, Uninstalled;
      var start := if late then [START] + Uninstalled(appids) else [];
      var error := if status != P.OK && !sent then [ERROR_KEY(status)] else [];
      SeenOfStart(appids);
      OneProgress(0);
      OneEnd(status);
      SeenOf(d, start);
      SeenOf(d + start, error);
      SeenOf(d + start + error, [END(status == P.OK)]);
    }

    lemma OneEnd(status: P.Status)
      ensures Codes([ERROR_KEY(status)]) == [status] && Progresses([ERROR_KEY(status)]) == []
      ensures forall ok :: Codes([END(ok)]) == [] && Progresses([END(ok)]) == []
    {
      assert [ERROR_KEY(status)][..0] == [];
      forall ok ensures Codes([END(ok)]) == [] && Progresses([END(ok)]) == [] {
        assert [END(ok)][..0] == [];
      }
    }
  }
}
