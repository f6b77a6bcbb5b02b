/** The packaged supervisor (src/pyautossh/pyautossh.py): the default
    attempter classifies one invoker result, and `SSHSessionManager.connect`
    looks the executable up once and hands a fixed-argument attempt to a
    `RetryPolicy` with the default backoff. */
module SessionManager {
  import opened Common
  import opened Budget
  import RetryPolicy
  import FlatSupervisor

  /** The default wait for one run of the client. */
  const DefaultProcessTimeoutSeconds: real := 30.0

  /** `CommandResult`: the exit code when the process ended within the
      timeout, and whether it was still running at the deadline. */
  datatype CommandResult = CommandResult(returncode: Option<int>, timedOut: bool)

  /** What `SubprocessInvoker.invoke` reports once its wait is over. */
  function SubprocessResult(w: FlatSupervisor.WaitResult): (r: CommandResult)
    ensures r.timedOut <==> w.TimedOut?
    ensures r.returncode.Some? <==> w.Exited?
    ensures w.Exited? ==> r.returncode.value == w.returncode
  {
    match w
    case TimedOut => CommandResult(None, true)
    case Exited(code) => CommandResult(Some(code), false)
  }

  /** The decision of `default_attempt_connection`: a timeout is an active
      session and no terminal success, exit code 0 is success, and anything
      else (an exit code other than 0, or none) is failure. */
  function Classify(result: CommandResult): (ok: bool)
  {
    if result.timedOut then false
    else result.returncode == Some(0)
  }

  lemma ClassifyCases(result: CommandResult)
    ensures result.timedOut ==> !Classify(result)
    ensures !result.timedOut && result.returncode == Some(0) ==> Classify(result)
    ensures !result.timedOut && result.returncode != Some(0) ==> !Classify(result)
  {
  }

  /** `default_attempt_connection`: `invoke` stands for running `command`
      with a wait of at most `timeout` seconds. */
  function DefaultAttemptConnection(inv: Invocation, invoke: (seq<string>, real) -> CommandResult): (ok: bool)
    ensures ok <==> && !invoke(Command(inv), DefaultProcessTimeoutSeconds).timedOut
                    && invoke(Command(inv), DefaultProcessTimeoutSeconds).returncode == Some(0)
  {
    Classify(invoke(Command(inv), DefaultProcessTimeoutSeconds))
  }

  /** Both variants decide the same way on the same wait: the packaged
      invoker's result classifies exactly as the single-file attempter's. */
  lemma ClassifiersAgree(w: FlatSupervisor.WaitResult)
    ensures Classify(SubprocessResult(w)) == FlatSupervisor.ClassifyWait(w)
  {
  }

  /** The policy `connect` builds: the default backoff, so a constant delay. */
  function ConnectPolicy(max: Option<int>, delay: real): RetryPolicy.Policy
  {
    RetryPolicy.Policy(max, delay, RetryPolicy.DefaultBackoff)
  }

  /** `SSHSessionManager.connect`: `finder` is what the injected finder
      produced (`None` when it raised `SSHClientNotFound`); `outcomes` are the
      injected attempter's answers, as in `RetryPolicy.Call`. */
  function Connect(finder: Option<string>, args: seq<string>, max: Option<int>, delay: real, outcomes: seq<bool>): (r: Run<Invocation>)
    ensures |r.trace| > 0 && r.trace[0] == Resolve
    ensures finder.None? ==> r == Run(Raised(ClientNotFound), [Resolve])
    ensures finder.Some? ==>
              var c := RetryPolicy.Call(ConnectPolicy(max, delay), Invocation(finder.value, args), outcomes);
              && (r.outcome == Returned <==> c.result == RetryPolicy.Done(true))
              && (r.outcome == Raised(ConnectionError) <==> c.result == RetryPolicy.Done(false))
              && (r.outcome == Raised(SleepRejected) <==> c.result == RetryPolicy.SleepRaised)
              && r.trace == [Resolve] + c.trace
  {
    match finder
    case None => Run(Raised(ClientNotFound), [Resolve])
    case Some(exec) =>
      var c := RetryPolicy.Call(ConnectPolicy(max, delay), Invocation(exec, args), outcomes);
      Run(ConnectOutcome(c.result), [Resolve] + c.trace)
  }

  /** How `connect` ends for each way `call` ends: False becomes the
      connection error, and exceptions propagate. */
  function ConnectOutcome(result: RetryPolicy.CallResult): Outcome
  {
    match result
    case Done(true) => Returned
    case Done(false) => Raised(ConnectionError)
    case FnRaised => Raised(Unexpected)
    case SleepRaised => Raised(SleepRejected)
  }

  /** The finder runs exactly once and first; every attempt gets the same
      executable and the same arguments; every sleep lasts `delay`. */
  lemma ConnectResolvesOnce(finder: Option<string>, args: seq<string>, max: Option<int>, delay: real, outcomes: seq<bool>)
    ensures var r := Connect(finder, args, max, delay, outcomes);
            && r.trace[0] == Resolve
            && Count(r.trace, Resolving) == 1
            && (finder.Some? ==>
                  forall i :: 0 <= i < |r.trace| && r.trace[i].Attempt? ==>
                    r.trace[i].call == Invocation(finder.value, args))
            && (forall i :: 0 <= i < |r.trace| && r.trace[i].Sleep? ==> r.trace[i] == Sleep(delay))
  {
    var r := Connect(finder, args, max, delay, outcomes);
    if finder.None? {
      CountPrepend<Invocation>(Resolve, [], Resolving);
    } else {
      var inv := Invocation(finder.value, args);
      var p := ConnectPolicy(max, delay);
      var c := RetryPolicy.Call(p, inv, outcomes);
      RetryPolicy.CallMatchesPredict(p, inv, outcomes);
      RetryPolicy.ExpectedCounts(inv, delay, 1.0, Predict(Remaining(max, 0), outcomes));
      RetryPolicy.CallConstantDelay(max, delay, inv, outcomes);
      CountPrepend(Resolve, c.trace, Resolving);
      forall i | 1 <= i < |r.trace|
        ensures r.trace[i] == Attempt(inv) || r.trace[i] == Sleep(delay)
      {
        assert r.trace[i] == c.trace[i - 1];
      }
    }
  }

  /** `connect` returns exactly when the client is found and some answer the
      budget allows is True, reached without a rejected sleep; it raises the
      connection error exactly when the client is found, the budget is bounded
      and every answer it allows is False; and `time.sleep` raises exactly
      when the delay is negative and a first failure leaves budget to retry. */
  lemma ConnectAnswers(finder: Option<string>, args: seq<string>, max: Option<int>, delay: real, outcomes: seq<bool>)
    ensures Connect(finder, args, max, delay, outcomes).outcome == Returned <==>
              && finder.Some?
              && exists k :: && 0 <= k < |outcomes| && outcomes[k]
                             && (max.None? || k < max.value)
                             && (delay >= 0.0 || k == 0)
    ensures Connect(finder, args, max, delay, outcomes).outcome == Raised(ConnectionError) <==>
              && finder.Some? && max.Some?
              && Remaining(max, 0).value <= |outcomes|
              && (forall j :: 0 <= j < Remaining(max, 0).value ==> !outcomes[j])
              && (delay >= 0.0 || Remaining(max, 0).value <= 1)
    ensures Connect(finder, args, max, delay, outcomes).outcome == Raised(SleepRejected) <==>
              && finder.Some? && delay < 0.0
              && |outcomes| > 0 && !outcomes[0]
              && (max.None? || max.value > 1)
  {
    if finder.Some? {
      var p := ConnectPolicy(max, delay);
      RetryPolicy.CallAnswers(p, Invocation(finder.value, args), outcomes);
      forall k: int
        ensures SleepsAllowed(delay, 1.0, k) <==> delay >= 0.0 || k <= 0
      {
        SleepsAllowedConstant(delay, k);
      }
      forall j: nat
        ensures NthDelay(delay, 1.0, j) == delay
      {
        NthDelayConstant(delay, j);
      }
      if delay < 0.0 && |outcomes| > 0 && !outcomes[0] && (max.None? || max.value > 1) {
        assert NthDelay(delay, 1.0, 0) < 0.0;
      }
    }
  }

  /** The two closed forms, verdict by verdict: the single-file run has one
      more sleep after a spent positive budget, and the outcomes differ only
      when a negative delay meets a budget of one failed attempt. */
  lemma ExpectedRunsAgree(inv: Invocation, delay: real, v: Verdict)
    ensures var flat := FlatSupervisor.Expected(inv, delay, v);
            var pkg := RetryPolicy.Expected(inv, delay, 1.0, v);
            && (flat.outcome != ConnectOutcome(pkg.result) <==> delay < 0.0 && v == ExhaustedAfter(1))
            && flat.trace == pkg.trace
                 + (if pkg.result == RetryPolicy.Done(false) && v.failures > 0 then [Sleep(delay)] else [])
  {
    if delay < 0.0 {
      if v.failures > 0 && RetryPolicy.Rejects(delay, 1.0, v) {
        assert Cycles(inv, delay, 1.0, 1) == [Attempt(inv), Sleep(delay)];
      } else if v.failures > 0 {
        assert v == ExhaustedAfter(1);
        assert Cycles(inv, delay, 1.0, 0) + [Attempt(inv)] == [Attempt(inv)];
      }
    } else if v.ExhaustedAfter? && v.failures > 0 {
      CyclesSnoc(inv, delay, 1.0, v.failures - 1);
      NthDelayConstant(delay, v.failures - 1);
      var c := Cycles(inv, delay, 1.0, v.failures - 1);
      assert c + [Attempt(inv), Sleep(delay)] == (c + [Attempt(inv)]) + [Sleep(delay)];
    }
  }

  /** The two variants end the same way on the same inputs, except when a
      negative delay meets a single allowed attempt that fails: the
      single-file variant still sleeps, and `time.sleep` raises, where the
      packaged one gives up without sleeping. Their runs differ only in the
      single-file variant's sleep after the final failure of a spent positive
      budget. */
  lemma VariantsAgree(which: Option<string>, args: seq<string>, max: Option<int>, delay: real, outcomes: seq<bool>)
    ensures var flat := FlatSupervisor.ConnectSsh(which, args, max, delay, outcomes);
            var pkg := Connect(FindSshExecutable(which), args, max, delay, outcomes);
            flat.outcome != pkg.outcome <==>
              && FindSshExecutable(which).Some? && delay < 0.0 && max == Some(1)
              && |outcomes| > 0 && !outcomes[0]
    ensures var flat := FlatSupervisor.ConnectSsh(which, args, max, delay, outcomes);
            var pkg := Connect(FindSshExecutable(which), args, max, delay, outcomes);
            flat.outcome != pkg.outcome ==>
              flat.outcome == Raised(SleepRejected) && pkg.outcome == Raised(ConnectionError)
    ensures var flat := FlatSupervisor.ConnectSsh(which, args, max, delay, outcomes);
            var pkg := Connect(FindSshExecutable(which), args, max, delay, outcomes);
            flat.trace == pkg.trace
              + (if pkg.outcome == Raised(ConnectionError) && max.Some? && max.value > 0
                 then [Sleep(delay)] else [])
  {
    if FindSshExecutable(which).Some? {
      var inv := Invocation(which.value, args);
      var b := Remaining(max, 0);
      var v := Predict(b, outcomes);
      FlatSupervisor.ConnectSshMatchesPredict(which, args, max, delay, outcomes);
      RetryPolicy.CallMatchesPredict(ConnectPolicy(max, delay), inv, outcomes);
      ExpectedRunsAgree(inv, delay, v);
      if max == Some(1) && |outcomes| > 0 && !outcomes[0] {
        ExplainsUnique(b, outcomes, ExhaustedAfter(1));
      }
      var flatTrace := [Resolve] + FlatSupervisor.Expected(inv, delay, v).trace;
      var pkgTrace := [Resolve] + RetryPolicy.Expected(inv, delay, 1.0, v).trace;
      assert v.ExhaustedAfter? ==> (v.failures > 0 <==> max.Some? && max.value > 0);
      assert flatTrace == pkgTrace + (if RetryPolicy.Expected(inv, delay, 1.0, v).result == RetryPolicy.Done(false) && v.failures > 0 then [Sleep(delay)] else []);
    }
  }

  /** The repository's own scenarios: success on the first attempt, success
      on the third after two failures (all three answers used), exhaustion
      after three failures with a bound of three, and a missing client. */
  lemma Scenarios()
    ensures Connect(Some("/fake/ssh"), ["user@host"], Some(3), 0.0, [true]).outcome == Returned
    ensures var r := Connect(Some("/fake/ssh"), ["user@host"], Some(5), 0.0, [false, false, true]);
            r.outcome == Returned && Count(r.trace, Attempting) == 3
    ensures var r := Connect(Some("/fake/ssh"), ["user@host"], Some(3), 0.0, [false, false, false]);
            r.outcome == Raised(ConnectionError) && Count(r.trace, Attempting) == 3
    ensures var r := Connect(None, ["user@host"], Some(3), 0.0, [true]);
            r.outcome == Raised(ClientNotFound) && Count(r.trace, Attempting) == 0
  {
    var inv := Invocation("/fake/ssh", ["user@host"]);
    var second := RetryPolicy.Call(ConnectPolicy(Some(5), 0.0), inv, [false, false, true]);
    SleepsAllowedConstant(0.0, 2);
    RetryPolicy.CallStopsAtFirstSuccess(ConnectPolicy(Some(5), 0.0), inv, [false, false, true], 3);
    CountPrepend(Resolve, second.trace, Attempting);
    var third := RetryPolicy.Call(ConnectPolicy(Some(3), 0.0), inv, [false, false, false]);
    RetryPolicy.CallExhausts(0.0, RetryPolicy.DefaultBackoff, inv, [false, false, false], 3);
    CountPrepend(Resolve, third.trace, Attempting);
    CountPrepend<Invocation>(Resolve, [], Attempting);
  }
}
