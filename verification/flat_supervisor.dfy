/** The single-file supervisor (pyautossh.py): one run of the ssh client is
    classified as terminal success or not, `connect_ssh` retries it with a
    fixed delay after every failure, and `main` maps how that ended to a
    process exit code. */
module FlatSupervisor {
  import opened Common
  import opened Budget

  /** How long one run of the client is waited for before it counts as an
      active session. */
  const ProcessTimeoutSeconds: real := 30.0

  /** The exit status of the program on every failure path. */
  const ExitFailure: int := 255

  /** What waiting on the spawned client reports: it was still running at
      the deadline, or it exited with a return code. */
  datatype WaitResult = TimedOut | Exited(returncode: int)

  /** `_attempt_connection`: `wait` stands for spawning `command` and waiting
      up to `timeout` seconds for it. */
  function AttemptConnection(inv: Invocation, wait: (seq<string>, real) -> WaitResult): (ok: bool)
    ensures ok <==> wait(Command(inv), ProcessTimeoutSeconds) == Exited(0)
  {
    ClassifyWait(wait(Command(inv), ProcessTimeoutSeconds))
  }

  /** A run is a terminal success only if the client exited with code 0
      within the timeout; a timeout is an active session, not a success. */
  function ClassifyWait(w: WaitResult): (ok: bool)
  {
    match w
    case TimedOut => false
    case Exited(code) => code == 0
  }

  lemma ClassifyWaitCases(w: WaitResult)
    ensures w.TimedOut? ==> !ClassifyWait(w)
    ensures w.Exited? && w.returncode == 0 ==> ClassifyWait(w)
    ensures w.Exited? && w.returncode != 0 ==> !ClassifyWait(w)
  {
  }

  /** The `while` loop of `connect_ssh` entered with `used` attempts made;
      `outcomes` are the answers the attempter has still to give, and when
      none is left the attempter raises. A failed attempt is followed by
      `time.sleep(delay)`, which raises on a negative delay. */
  function Loop(inv: Invocation, max: Option<int>, delay: real, used: nat, outcomes: seq<bool>): (r: Run<Invocation>)
    decreases |outcomes|
  {
    if !(max.None? || used < max.value) then
      Run(Raised(ConnectionError), [])
    else if |outcomes| == 0 then
      Run(Raised(Unexpected), [Attempt(inv)])
    else if outcomes[0] then
      Run(Returned, [Attempt(inv)])
    else if delay < 0.0 then
      Run(Raised(SleepRejected), [Attempt(inv), Sleep(delay)])
    else
      var rest := Loop(inv, max, delay, used + 1, outcomes[1..]);
      Run(rest.outcome, [Attempt(inv), Sleep(delay)] + rest.trace)
  }

  /** `connect_ssh`: look the executable up once, then run the loop with
      the path found and the forwarded arguments. */
  function ConnectSsh(which: Option<string>, args: seq<string>, max: Option<int>, delay: real, outcomes: seq<bool>): (r: Run<Invocation>)
    ensures |r.trace| > 0 && r.trace[0] == Resolve
    ensures FindSshExecutable(which).None? ==> r == Run(Raised(ClientNotFound), [Resolve])
  {
    match FindSshExecutable(which)
    case None => Run(Raised(ClientNotFound), [Resolve])
    case Some(exec) =>
      var loop := Loop(Invocation(exec, args), max, delay, 0, outcomes);
      Run(loop.outcome, [Resolve] + loop.trace)
  }

  /** A negative delay cuts the run short: the sleep after the first failed
      attempt raises. */
  predicate Rejects(delay: real, v: Verdict)
  {
    delay < 0.0 && v.failures > 0
  }

  /** The run `connect_ssh` makes for each verdict: every failed attempt is
      followed by a sleep of `delay`, including the last one before the
      budget runs out, unless that first sleep is rejected. */
  function Expected(inv: Invocation, delay: real, v: Verdict): Run<Invocation>
  {
    if Rejects(delay, v) then Run(Raised(SleepRejected), [Attempt(inv), Sleep(delay)])
    else match v
    case SucceedsAfter(f) => Run(Returned, Cycles(inv, delay, 1.0, f) + [Attempt(inv)])
    case ExhaustedAfter(f) => Run(Raised(ConnectionError), Cycles(inv, delay, 1.0, f))
    case RunsDryAfter(f) => Run(Raised(Unexpected), Cycles(inv, delay, 1.0, f) + [Attempt(inv)])
  }

  /** The loop agrees with the reference semantics from every state. */
  lemma {:induction false} LoopMatchesPredict(inv: Invocation, max: Option<int>, delay: real, used: nat, outcomes: seq<bool>)
    ensures Loop(inv, max, delay, used, outcomes) == Expected(inv, delay, Predict(Remaining(max, used), outcomes))
    decreases |outcomes|
  {
    var b := Remaining(max, used);
    if !(max.None? || used < max.value) {
      assert b == Some(0);
    } else if |outcomes| == 0 {
    } else if outcomes[0] {
      assert FirstTrue(outcomes) == Some(0);
    } else {
      var rest := outcomes[1..];
      LoopMatchesPredict(inv, max, delay, used + 1, rest);
      RemainingAfterAttempt(max, used);
      PredictAfterFailure(b, outcomes);
      if delay < 0.0 {
        return;
      }
      var pair: seq<Event<Invocation>> := [Attempt(inv), Sleep(delay)];
      match Predict(Remaining(max, used + 1), rest)
      case SucceedsAfter(f) =>
        assert pair + (Cycles(inv, delay, 1.0, f) + [Attempt(inv)])
            == (pair + Cycles(inv, delay, 1.0, f)) + [Attempt(inv)];
      case ExhaustedAfter(f) =>
      case RunsDryAfter(f) =>
        assert pair + (Cycles(inv, delay, 1.0, f) + [Attempt(inv)])
            == (pair + Cycles(inv, delay, 1.0, f)) + [Attempt(inv)];
    }
  }

  /** `connect_ssh` in closed form: after the one lookup, the run is the
      expected run of the verdict for the whole budget. */
  lemma ConnectSshMatchesPredict(which: Option<string>, args: seq<string>, max: Option<int>, delay: real, outcomes: seq<bool>)
    requires FindSshExecutable(which).Some?
    ensures var inv := Invocation(which.value, args);
            var e := Expected(inv, delay, Predict(Remaining(max, 0), outcomes));
            ConnectSsh(which, args, max, delay, outcomes) == Run(e.outcome, [Resolve] + e.trace)
  {
    LoopMatchesPredict(Invocation(which.value, args), max, delay, 0, outcomes);
  }

  /** The lookup, `m` failed rounds, and possibly one closing call: every
      event after the lookup is that call or a sleep of `delay`, and every
      call but a closing one is followed by a sleep. */
  lemma AlternatingTrace(inv: Invocation, delay: real, m: nat, closing: seq<Event<Invocation>>, t: seq<Event<Invocation>>)
    requires closing == [] || closing == [Attempt(inv)]
    requires t == [Resolve] + Cycles(inv, delay, 1.0, m) + closing
    ensures forall i :: 1 <= i < |t| ==> t[i] == Attempt(inv) || t[i] == Sleep(delay)
    ensures forall i :: 0 <= i < |t| - 1 && t[i].Attempt? ==> t[i + 1] == Sleep(delay)
  {
    var c := Cycles(inv, delay, 1.0, m);
    ConstantCycles(inv, delay, m);
    forall i | 0 <= i < |t|
      ensures 1 <= i ==> t[i] == Attempt(inv) || t[i] == Sleep(delay)
      ensures i < |t| - 1 && t[i].Attempt? ==> t[i + 1] == Sleep(delay)
    {
      if 1 <= i <= 2 * m {
        var j := (i - 1) / 2;
        if (i - 1) % 2 == 0 {
          assert t[i] == c[2 * j];
          assert t[i + 1] == c[2 * j + 1];
        } else {
          assert t[i] == c[2 * j + 1];
        }
      }
    }
  }

  /** How many events of each kind a session that found the executable and
      ended with verdict `v` holds, when no sleep was rejected. */
  lemma SessionCounts(inv: Invocation, delay: real, v: Verdict)
    requires !Rejects(delay, v)
    ensures var t := [Resolve] + Expected(inv, delay, v).trace;
            && Count(t, Resolving) == 1
            && Count(t, Attempting) == v.failures + (if v.ExhaustedAfter? then 0 else 1)
            && Count(t, Sleeping) == v.failures
  {
    var e := Expected(inv, delay, v).trace;
    if v.ExhaustedAfter? {
      CyclesCount(inv, delay, 1.0, v.failures, Attempting);
      CyclesCount(inv, delay, 1.0, v.failures, Sleeping);
      CyclesCount(inv, delay, 1.0, v.failures, Resolving);
    } else {
      ClosedCyclesCount(inv, delay, 1.0, v.failures);
    }
    CountPrepend(Resolve, e, Resolving);
    CountPrepend(Resolve, e, Attempting);
    CountPrepend(Resolve, e, Sleeping);
  }

  /** The order of the events of a session that found the executable and
      ended with verdict `v`, when no sleep was rejected. */
  lemma SessionShape(inv: Invocation, delay: real, v: Verdict)
    requires !Rejects(delay, v)
    ensures var t := [Resolve] + Expected(inv, delay, v).trace;
            && (forall i :: 1 <= i < |t| ==> t[i] == Attempt(inv) || t[i] == Sleep(delay))
            && (forall i :: 0 <= i < |t| - 1 && t[i].Attempt? ==> t[i + 1] == Sleep(delay))
            && (!v.ExhaustedAfter? ==> t[|t| - 1] == Attempt(inv))
            && (v.ExhaustedAfter? && v.failures > 0 ==> t[|t| - 1] == Sleep(delay))
  {
    var c := Cycles(inv, delay, 1.0, v.failures);
    var closing: seq<Event<Invocation>> := if v.ExhaustedAfter? then [] else [Attempt(inv)];
    var t := [Resolve] + Expected(inv, delay, v).trace;
    assert t == [Resolve] + c + closing;
    if v.ExhaustedAfter? && v.failures > 0 {
      ConstantCycles(inv, delay, v.failures);
      assert t[|t| - 1] == c[2 * (v.failures - 1) + 1];
    }
    AlternatingTrace(inv, delay, v.failures, closing, t);
  }

  /** The events of a session that found the executable and ended with
      verdict `v`: a rejected sleep leaves one attempt and that sleep. */
  lemma SessionFacts(inv: Invocation, delay: real, v: Verdict)
    ensures var t := [Resolve] + Expected(inv, delay, v).trace;
            && t[0] == Resolve
            && Count(t, Resolving) == 1
            && Count(t, Attempting)
               == (if Rejects(delay, v) then 1 else v.failures + (if v.ExhaustedAfter? then 0 else 1))
            && Count(t, Sleeping) == (if Rejects(delay, v) then 1 else v.failures)
            && (forall i :: 1 <= i < |t| ==> t[i] == Attempt(inv) || t[i] == Sleep(delay))
            && (forall i :: 0 <= i < |t| - 1 && t[i].Attempt? ==> t[i + 1] == Sleep(delay))
            && (Rejects(delay, v) ==> t == [Resolve, Attempt(inv), Sleep(delay)])
            && (!Rejects(delay, v) && !v.ExhaustedAfter? ==> t[|t| - 1] == Attempt(inv))
            && (!Rejects(delay, v) && v.ExhaustedAfter? && v.failures > 0 ==> t[|t| - 1] == Sleep(delay))
  {
    if Rejects(delay, v) {
      var t := [Resolve] + Expected(inv, delay, v).trace;
      var none: seq<Event<Invocation>> := [];
      var one := [Sleep(delay)] + none;
      var two := [Attempt(inv)] + one;
      assert t == [Resolve] + two;
      forall k: Kind
        ensures Count(t, k) == 1
      {
        CountPrepend(Sleep(delay), none, k);
        CountPrepend(Attempt(inv), one, k);
        CountPrepend(Resolve, two, k);
      }
    } else {
      SessionCounts(inv, delay, v);
      SessionShape(inv, delay, v);
    }
  }

  /** If the first success is attempt `k` (1-based) and the budget allows it,
      `connect_ssh` returns after exactly `k` attempts, the last event being
      that attempt, with one sleep after each of the `k - 1` failures; with a
      negative delay and `k > 1` the first sleep raises instead. */
  lemma ConnectSshStopsAtFirstSuccess(which: Option<string>, args: seq<string>, max: Option<int>, delay: real, outcomes: seq<bool>, k: nat)
    requires FindSshExecutable(which).Some?
    requires 1 <= k <= |outcomes| && outcomes[k - 1]
    requires forall j :: 0 <= j < k - 1 ==> !outcomes[j]
    requires max.None? || k <= max.value
    ensures var r := ConnectSsh(which, args, max, delay, outcomes);
            (delay >= 0.0 || k == 1) ==>
              && r.outcome == Returned
              && Count(r.trace, Attempting) == k
              && Count(r.trace, Sleeping) == k - 1
              && r.trace[|r.trace| - 1] == Attempt(Invocation(which.value, args))
    ensures delay < 0.0 && k > 1 ==>
              ConnectSsh(which, args, max, delay, outcomes)
              == Run(Raised(SleepRejected), [Resolve, Attempt(Invocation(which.value, args)), Sleep(delay)])
  {
    ExplainsUnique(Remaining(max, 0), outcomes, SucceedsAfter(k - 1));
    ConnectSshMatchesPredict(which, args, max, delay, outcomes);
    SessionFacts(Invocation(which.value, args), delay, SucceedsAfter(k - 1));
  }

  /** With a budget of `n >= 1` and `n` failing outcomes, `connect_ssh`
      raises the connection error after exactly `n` attempts, having slept
      after each of them, the last one included; with a negative delay the
      first sleep raises instead. */
  lemma ConnectSshExhausts(which: Option<string>, args: seq<string>, delay: real, outcomes: seq<bool>, n: int)
    requires FindSshExecutable(which).Some?
    requires 1 <= n <= |outcomes|
    requires forall j :: 0 <= j < n ==> !outcomes[j]
    ensures var r := ConnectSsh(which, args, Some(n), delay, outcomes);
            delay >= 0.0 ==>
              && r.outcome == Raised(ConnectionError)
              && Count(r.trace, Attempting) == n
              && Count(r.trace, Sleeping) == n
              && r.trace[|r.trace| - 1] == Sleep(delay)
    ensures delay < 0.0 ==>
              ConnectSsh(which, args, Some(n), delay, outcomes)
              == Run(Raised(SleepRejected), [Resolve, Attempt(Invocation(which.value, args)), Sleep(delay)])
  {
    ExplainsUnique(Some(n), outcomes, ExhaustedAfter(n));
    ConnectSshMatchesPredict(which, args, Some(n), delay, outcomes);
    SessionFacts(Invocation(which.value, args), delay, ExhaustedAfter(n));
  }

  /** A maximum of zero or below makes no attempt and no sleep: the lookup
      is followed directly by the connection error. */
  lemma ConnectSshNoBudget(which: Option<string>, args: seq<string>, max: int, delay: real, outcomes: seq<bool>)
    requires FindSshExecutable(which).Some?
    requires max <= 0
    ensures ConnectSsh(which, args, Some(max), delay, outcomes) == Run(Raised(ConnectionError), [Resolve])
  {
  }

  /** With a maximum, `connect_ssh` never makes more attempts than it. */
  lemma ConnectSshBounded(which: Option<string>, args: seq<string>, max: int, delay: real, outcomes: seq<bool>)
    requires FindSshExecutable(which).Some?
    ensures Count(ConnectSsh(which, args, Some(max), delay, outcomes).trace, Attempting)
            <= Remaining(Some(max), 0).value
  {
    ConnectSshMatchesPredict(which, args, Some(max), delay, outcomes);
    SessionFacts(Invocation(which.value, args), delay, Predict(Remaining(Some(max), 0), outcomes));
  }

  /** Without a maximum, `connect_ssh` never raises the connection error:
      it returns exactly when some outcome succeeds and no sleep before it
      was rejected, that is, the delay is not negative or the very first
      attempt succeeds. */
  lemma ConnectSshUnbounded(which: Option<string>, args: seq<string>, delay: real, outcomes: seq<bool>)
    requires FindSshExecutable(which).Some?
    ensures var r := ConnectSsh(which, args, None, delay, outcomes);
            && r.outcome != Raised(ConnectionError)
            && (r.outcome == Returned <==>
                  exists k :: 0 <= k < |outcomes| && outcomes[k] && (delay >= 0.0 || k == 0))
  {
    ConnectSshMatchesPredict(which, args, None, delay, outcomes);
    var v := Predict(None, outcomes);
    if v.SucceedsAfter? && !Rejects(delay, v) {
      assert outcomes[v.failures];
    }
    if exists k :: 0 <= k < |outcomes| && outcomes[k] && (delay >= 0.0 || k == 0) {
      var k :| 0 <= k < |outcomes| && outcomes[k] && (delay >= 0.0 || k == 0);
      assert FirstTrue(outcomes).Some? && FirstTrue(outcomes).value <= k;
    }
  }

  /** A negative delay makes `time.sleep` raise after the first failed
      attempt: exactly when the budget allows an attempt and the first answer
      is False, and then nothing else happens. */
  lemma ConnectSshRejectsNegativeDelay(which: Option<string>, args: seq<string>, max: Option<int>, delay: real, outcomes: seq<bool>)
    requires FindSshExecutable(which).Some?
    ensures var r := ConnectSsh(which, args, max, delay, outcomes);
            r.outcome == Raised(SleepRejected) <==>
              delay < 0.0 && |outcomes| > 0 && !outcomes[0] && (max.None? || max.value > 0)
    ensures var r := ConnectSsh(which, args, max, delay, outcomes);
            r.outcome == Raised(SleepRejected) ==>
              r.trace == [Resolve, Attempt(Invocation(which.value, args)), Sleep(delay)]
  {
    ConnectSshMatchesPredict(which, args, max, delay, outcomes);
    var v := Predict(Remaining(max, 0), outcomes);
    if v.SucceedsAfter? && v.failures == 0 {
      assert outcomes[0];
    }
  }

  /** The lookup happens exactly once and before anything else, and every
      attempt is handed the same executable and the same arguments. */
  lemma ConnectSshResolvesOnce(which: Option<string>, args: seq<string>, max: Option<int>, delay: real, outcomes: seq<bool>)
    ensures var r := ConnectSsh(which, args, max, delay, outcomes);
            && r.trace[0] == Resolve
            && Count(r.trace, Resolving) == 1
            && (FindSshExecutable(which).Some? ==>
                  forall i :: 0 <= i < |r.trace| && r.trace[i].Attempt? ==>
                    r.trace[i].call == Invocation(which.value, args))
  {
    if FindSshExecutable(which).None? {
      CountPrepend<Invocation>(Resolve, [], Resolving);
    } else {
      ConnectSshMatchesPredict(which, args, max, delay, outcomes);
      SessionFacts(Invocation(which.value, args), delay, Predict(Remaining(max, 0), outcomes));
    }
  }

  /** Every sleep lasts `delay`, and every failed attempt is followed by one:
      the sleeps equal the attempts on exhaustion or when the sleep raised,
      and are one fewer when the last attempt succeeded or raised. */
  lemma ConnectSshSleepsAfterEveryFailure(which: Option<string>, args: seq<string>, max: Option<int>, delay: real, outcomes: seq<bool>)
    requires FindSshExecutable(which).Some?
    ensures var r := ConnectSsh(which, args, max, delay, outcomes);
            && (forall i :: 0 <= i < |r.trace| && r.trace[i].Sleep? ==> r.trace[i].seconds == delay)
            && (forall i :: 0 <= i < |r.trace| - 1 && r.trace[i].Attempt? ==> r.trace[i + 1] == Sleep(delay))
            && (r.outcome in {Raised(ConnectionError), Raised(SleepRejected)} ==>
                  Count(r.trace, Sleeping) == Count(r.trace, Attempting))
            && (r.outcome !in {Raised(ConnectionError), Raised(SleepRejected)} ==>
                  Count(r.trace, Sleeping) + 1 == Count(r.trace, Attempting))
  {
    ConnectSshMatchesPredict(which, args, max, delay, outcomes);
    SessionFacts(Invocation(which.value, args), delay, Predict(Remaining(max, 0), outcomes));
  }

  /** `connect_ssh` as the source writes it: one `while` loop over a counter
      that grows by one per attempt. */
  method ConnectSshLoop(which: Option<string>, args: seq<string>, max: Option<int>, delay: real, outcomes: seq<bool>)
    returns (r: Run<Invocation>)
    ensures r == ConnectSsh(which, args, max, delay, outcomes)
  {
    var found := FindSshExecutable(which);
    if found.None? {
      return Run(Raised(ClientNotFound), [Resolve]);
    }
    var inv := Invocation(found.value, args);
    ghost var whole := Loop(inv, max, delay, 0, outcomes);
    var trace: seq<Event<Invocation>> := [Resolve];
    var numAttempt: nat := 0;
    var rest := outcomes;
    while max.None? || numAttempt < max.value
      invariant numAttempt <= |outcomes| && rest == outcomes[numAttempt..]
      invariant Count(trace, Attempting) == numAttempt
      invariant whole.outcome == Loop(inv, max, delay, numAttempt, rest).outcome
      invariant [Resolve] + whole.trace == trace + Loop(inv, max, delay, numAttempt, rest).trace
      decreases |rest|
    {
      ghost var before := Loop(inv, max, delay, numAttempt, rest);
      numAttempt := numAttempt + 1;
      CountAppend(trace, [Attempt(inv)], Attempting);
      if |rest| == 0 {
        trace := trace + [Attempt(inv)];
        return Run(Raised(Unexpected), trace);
      }
      var ok := rest[0];
      rest := rest[1..];
      if ok {
        trace := trace + [Attempt(inv)];
        return Run(Returned, trace);
      }
      if delay < 0.0 {
        trace := trace + [Attempt(inv), Sleep(delay)];
        return Run(Raised(SleepRejected), trace);
      }
      ghost var after := Loop(inv, max, delay, numAttempt, rest);
      assert before.trace == [Attempt(inv), Sleep(delay)] + after.trace;
      assert trace + before.trace == (trace + [Attempt(inv)] + [Sleep(delay)]) + after.trace;
      trace := trace + [Attempt(inv)];
      CountAppend(trace, [Sleep(delay)], Attempting);
      trace := trace + [Sleep(delay)];
    }
    return Run(Raised(ConnectionError), trace);
  }

  /** `main`: 0 when `connect_ssh` returns, 255 for every exception it lets
      through, whatever its kind. */
  function ExitCode(o: Outcome): (code: int)
    ensures code == 0 <==> o == Returned
    ensures o.Raised? ==> code == ExitFailure
  {
    match o
    case Returned => 0
    case Raised(ClientNotFound) => ExitFailure
    case Raised(ConnectionError) => ExitFailure
    case Raised(Interrupted) => ExitFailure
    case Raised(SleepRejected) => ExitFailure
    case Raised(Unexpected) => ExitFailure
  }

  /** `main` with parsed options, over the lookup and the attempter's answers. */
  function Main(which: Option<string>, args: seq<string>, max: Option<int>, delay: real, outcomes: seq<bool>): int
  {
    ExitCode(ConnectSsh(which, args, max, delay, outcomes).outcome)
  }

  /** The program exits with 0 exactly when the client is found and some
      attempt the budget allows succeeds with no rejected sleep before it;
      otherwise with 255. */
  lemma MainExitStatus(which: Option<string>, args: seq<string>, max: Option<int>, delay: real, outcomes: seq<bool>)
    ensures Main(which, args, max, delay, outcomes) in {0, ExitFailure}
    ensures Main(which, args, max, delay, outcomes) == 0 <==>
              && FindSshExecutable(which).Some?
              && exists k :: && 0 <= k < |outcomes| && outcomes[k]
                             && (max.None? || k < max.value)
                             && (delay >= 0.0 || k == 0)
  {
    if FindSshExecutable(which).Some? {
      ConnectSshMatchesPredict(which, args, max, delay, outcomes);
      var v := Predict(Remaining(max, 0), outcomes);
      if v.SucceedsAfter? && !Rejects(delay, v) {
        assert outcomes[v.failures];
      }
      if exists k :: 0 <= k < |outcomes| && outcomes[k] && (max.None? || k < max.value) && (delay >= 0.0 || k == 0) {
        var k :| 0 <= k < |outcomes| && outcomes[k] && (max.None? || k < max.value) && (delay >= 0.0 || k == 0);
        assert FirstTrue(outcomes).Some? && FirstTrue(outcomes).value <= k;
      }
    }
  }
}
