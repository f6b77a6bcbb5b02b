/** `RetryPolicy` (src/pyautossh/retry_policy.py): call a function until it
    answers True or the attempt budget is used up, sleeping between attempts
    with a delay multiplied by `backoff` after every sleep, and not sleeping
    after the final failure. */
module RetryPolicy {
  import opened Common
  import opened Budget

  /** The backoff multiplier when none is given: the delay stays constant. */
  const DefaultBackoff: real := 1.0

  /** The policy's configuration: a bound on the attempts (`None` retries
      for ever; zero or below allows none), the first delay, and the factor
      applied to the delay after each sleep. */
  datatype Policy = Policy(maxAttempts: Option<int>, delay: real, backoff: real)

  /** How `call` ends: it answers a boolean, the function it calls raises
      and the exception propagates, or `time.sleep` raises because the
      current delay is negative. */
  datatype CallResult = Done(ok: bool) | FnRaised | SleepRaised

  datatype CallRun<+A> = CallRun(result: CallResult, trace: seq<Event<A>>)

  /** The `while` loop of `call` entered with `attempts` calls made and the
      delay at `currentDelay`. The function called is represented by `fn`,
      which every call records; `outcomes` are its answers to come, and when
      none is left it raises. */
  function CallFrom<A>(p: Policy, fn: A, attempts: nat, currentDelay: real, outcomes: seq<bool>): (r: CallRun<A>)
    decreases |outcomes|
  {
    if !(p.maxAttempts.None? || attempts < p.maxAttempts.value) then
      CallRun(Done(false), [])
    else if |outcomes| == 0 then
      CallRun(FnRaised, [Attempt(fn)])
    else if outcomes[0] then
      CallRun(Done(true), [Attempt(fn)])
    else if p.maxAttempts.Some? && attempts + 1 >= p.maxAttempts.value then
      CallRun(Done(false), [Attempt(fn)])
    else if currentDelay < 0.0 then
      CallRun(SleepRaised, [Attempt(fn), Sleep(currentDelay)])
    else
      var rest := CallFrom(p, fn, attempts + 1, Scaled(currentDelay, p.backoff), outcomes[1..]);
      CallRun(rest.result, [Attempt(fn), Sleep(currentDelay)] + rest.trace)
  }

  /** `RetryPolicy.call`. */
  function Call<A>(p: Policy, fn: A, outcomes: seq<bool>): CallRun<A>
  {
    CallFrom(p, fn, 0, p.delay, outcomes)
  }

  /** The sleeps `call` makes for each verdict when every sleep is accepted:
      one between any two calls. */
  function SleepsOf(v: Verdict): nat
  {
    match v
    case SucceedsAfter(f) => f
    case ExhaustedAfter(f) => if f == 0 then 0 else f - 1
    case RunsDryAfter(f) => f
  }

  /** The run for verdict `v` reaches a sleep of negative length. */
  predicate Rejects(delay: real, backoff: real, v: Verdict)
  {
    FirstNegative(delay, backoff).Some? && FirstNegative(delay, backoff).value < SleepsOf(v)
  }

  /** The run `call` makes for each verdict: a sleep between any two calls,
      none after the last one; or, when a sleep of negative length is
      reached, every round up to and including that sleep, which raises. */
  function Expected<A>(fn: A, delay: real, backoff: real, v: Verdict): CallRun<A>
  {
    if Rejects(delay, backoff, v) then
      CallRun(SleepRaised, Cycles(fn, delay, backoff, FirstNegative(delay, backoff).value + 1))
    else match v
      case SucceedsAfter(f) => CallRun(Done(true), Cycles(fn, delay, backoff, f) + [Attempt(fn)])
      case ExhaustedAfter(f) =>
        CallRun(Done(false), if f == 0 then [] else Cycles(fn, delay, backoff, f - 1) + [Attempt(fn)])
      case RunsDryAfter(f) => CallRun(FnRaised, Cycles(fn, delay, backoff, f) + [Attempt(fn)])
  }

  /** An accepted first sleep moves the first negative sleep one round
      nearer, and the run of the bumped verdict reaches it exactly when the
      run of the verdict from the next delay does. */
  lemma RejectsAfterFailure(delay: real, backoff: real, v: Verdict)
    requires v.ExhaustedAfter? ==> v.failures > 0
    requires delay >= 0.0
    ensures Rejects(delay, backoff, Bump(v)) == Rejects(Scaled(delay, backoff), backoff, v)
    ensures Rejects(delay, backoff, Bump(v)) ==>
              FirstNegative(delay, backoff).value == FirstNegative(Scaled(delay, backoff), backoff).value + 1
  {
    FirstNegativeStep(delay, backoff);
    assert SleepsOf(Bump(v)) == SleepsOf(v) + 1;
  }

  /** One more failed round in front of an expected run, with the delay one
      backoff step earlier, is the expected run of the bumped verdict. */
  lemma ExpectedAfterFailure<A>(fn: A, delay: real, backoff: real, v: Verdict)
    requires v.ExhaustedAfter? ==> v.failures > 0
    requires delay >= 0.0
    ensures Expected(fn, delay, backoff, Bump(v)).result == Expected(fn, Scaled(delay, backoff), backoff, v).result
    ensures Expected(fn, delay, backoff, Bump(v)).trace
         == [Attempt(fn), Sleep(delay)] + Expected(fn, Scaled(delay, backoff), backoff, v).trace
  {
    var later := Scaled(delay, backoff);
    var pair: seq<Event<A>> := [Attempt(fn), Sleep(delay)];
    RejectsAfterFailure(delay, backoff, v);
    if Rejects(later, backoff, v) {
      var j := FirstNegative(later, backoff).value;
      assert Cycles(fn, delay, backoff, j + 2) == pair + Cycles(fn, later, backoff, j + 1);
    } else {
      var m := if v.ExhaustedAfter? then v.failures - 1 else v.failures;
      var c := Cycles(fn, later, backoff, m);
      assert Cycles(fn, delay, backoff, m + 1) == pair + c;
      assert pair + (c + [Attempt(fn)]) == (pair + c) + [Attempt(fn)];
    }
  }

  /** A failed call that leaves budget, with a delay `time.sleep` accepts,
      puts one call and one sleep of the current delay in front of the rest
      of the loop. */
  lemma CallFromAfterFailure<A>(p: Policy, fn: A, attempts: nat, currentDelay: real, outcomes: seq<bool>)
    requires p.maxAttempts.None? || attempts + 1 < p.maxAttempts.value
    requires |outcomes| > 0 && !outcomes[0]
    ensures currentDelay >= 0.0 ==>
              CallFrom(p, fn, attempts, currentDelay, outcomes).result
              == CallFrom(p, fn, attempts + 1, Scaled(currentDelay, p.backoff), outcomes[1..]).result
    ensures currentDelay >= 0.0 ==>
              CallFrom(p, fn, attempts, currentDelay, outcomes).trace
              == [Attempt(fn), Sleep(currentDelay)]
                 + CallFrom(p, fn, attempts + 1, Scaled(currentDelay, p.backoff), outcomes[1..]).trace
    ensures currentDelay < 0.0 ==>
              CallFrom(p, fn, attempts, currentDelay, outcomes)
              == CallRun(SleepRaised, [Attempt(fn), Sleep(currentDelay)])
  {
  }

  /** The loop agrees with the reference semantics from every state. */
  lemma {:induction false} CallFromMatchesPredict<A>(p: Policy, fn: A, attempts: nat, currentDelay: real, outcomes: seq<bool>)
    ensures CallFrom(p, fn, attempts, currentDelay, outcomes)
         == Expected(fn, currentDelay, p.backoff, Predict(Remaining(p.maxAttempts, attempts), outcomes))
    decreases |outcomes|
  {
    var b := Remaining(p.maxAttempts, attempts);
    if !(p.maxAttempts.None? || attempts < p.maxAttempts.value) {
      assert b == Some(0);
    } else if |outcomes| == 0 {
    } else if outcomes[0] {
      assert FirstTrue(outcomes) == Some(0);
    } else if p.maxAttempts.Some? && attempts + 1 >= p.maxAttempts.value {
      assert b == Some(1);
      ExplainsUnique(b, outcomes, ExhaustedAfter(1));
    } else {
      var rest := outcomes[1..];
      assert b.None? || b.value >= 2;
      RemainingAfterAttempt(p.maxAttempts, attempts);
      PredictAfterFailure(b, outcomes);
      var w := Predict(Spend(b), rest);
      assert w.ExhaustedAfter? ==> Spend(b) == Some(w.failures) && w.failures > 0;
      CallFromAfterFailure(p, fn, attempts, currentDelay, outcomes);
      if currentDelay < 0.0 {
        assert SleepsOf(Bump(w)) > 0;
        assert Cycles(fn, currentDelay, p.backoff, 1) == [Attempt(fn), Sleep(currentDelay)];
      } else {
        CallFromMatchesPredict(p, fn, attempts + 1, Scaled(currentDelay, p.backoff), rest);
        ExpectedAfterFailure(fn, currentDelay, p.backoff, w);
      }
    }
  }

  /** `call` in closed form: the expected run of the verdict for the whole
      budget, starting from the policy's first delay. */
  lemma CallMatchesPredict<A>(p: Policy, fn: A, outcomes: seq<bool>)
    ensures Call(p, fn, outcomes) == Expected(fn, p.delay, p.backoff, Predict(Remaining(p.maxAttempts, 0), outcomes))
  {
    CallFromMatchesPredict(p, fn, 0, p.delay, outcomes);
  }

  /** How many calls and sleeps an expected run holds: one sleep between any
      two calls, or as many sleeps as calls when the last sleep raised. */
  lemma ExpectedCounts<A>(fn: A, delay: real, backoff: real, v: Verdict)
    ensures var t := Expected(fn, delay, backoff, v).trace;
            && Count(t, Resolving) == 0
            && Count(t, Attempting)
               == (if Rejects(delay, backoff, v) then FirstNegative(delay, backoff).value + 1
                   else if v.ExhaustedAfter? then v.failures else v.failures + 1)
            && Count(t, Sleeping)
               == (if Rejects(delay, backoff, v) then FirstNegative(delay, backoff).value + 1 else SleepsOf(v))
  {
    if Rejects(delay, backoff, v) {
      var m := FirstNegative(delay, backoff).value + 1;
      CyclesCount(fn, delay, backoff, m, Resolving);
      CyclesCount(fn, delay, backoff, m, Attempting);
      CyclesCount(fn, delay, backoff, m, Sleeping);
    } else if v.ExhaustedAfter? {
      if v.failures > 0 {
        ClosedCyclesCount(fn, delay, backoff, v.failures - 1);
      }
    } else {
      ClosedCyclesCount(fn, delay, backoff, v.failures);
    }
  }

  /** The order of an expected run: calls at even positions, the `i`-th
      sleep (from 0) lasting the `i`-th delay; a call at the end unless the
      last sleep raised. */
  lemma ExpectedShape<A>(fn: A, delay: real, backoff: real, v: Verdict)
    ensures var t := Expected(fn, delay, backoff, v).trace;
            && (!Rejects(delay, backoff, v) ==> |t| % 2 == 1 - (if |t| == 0 then 1 else 0))
            && (Rejects(delay, backoff, v) ==> |t| == 2 * (FirstNegative(delay, backoff).value + 1))
            && (forall i :: 0 <= 2 * i < |t| ==> t[2 * i] == Attempt(fn))
            && (forall i :: 0 <= 2 * i + 1 < |t| ==> t[2 * i + 1] == Sleep(NthDelay(delay, backoff, i)))
            && (!Rejects(delay, backoff, v) && |t| > 0 ==> t[|t| - 1] == Attempt(fn))
            && (Rejects(delay, backoff, v) ==>
                  t[|t| - 1] == Sleep(NthDelay(delay, backoff, FirstNegative(delay, backoff).value)))
  {
    var t := Expected(fn, delay, backoff, v).trace;
    if Rejects(delay, backoff, v) {
      var m := FirstNegative(delay, backoff).value;
      CyclesShape(fn, delay, backoff, m + 1);
      assert t[|t| - 1] == t[2 * m + 1];
    } else if |t| > 0 {
      var m := if v.ExhaustedAfter? then v.failures - 1 else v.failures;
      var c := Cycles(fn, delay, backoff, m);
      assert t == c + [Attempt(fn)];
      CyclesShape(fn, delay, backoff, m);
      forall i | 0 <= 2 * i < |t|
        ensures t[2 * i] == Attempt(fn)
      {
        if i < m {
          assert t[2 * i] == c[2 * i];
        }
      }
      forall i | 0 <= 2 * i + 1 < |t|
        ensures t[2 * i + 1] == Sleep(NthDelay(delay, backoff, i))
      {
        assert t[2 * i + 1] == c[2 * i + 1];
      }
    }
  }

  /** Every sleep of an expected run but a final one has a length
      `time.sleep` accepts. */
  lemma ExpectedSleepsAccepted<A>(fn: A, delay: real, backoff: real, v: Verdict)
    ensures var t := Expected(fn, delay, backoff, v).trace;
            forall i :: 0 <= i < |t| - 1 && t[i].Sleep? ==> t[i].seconds >= 0.0
  {
    var t := Expected(fn, delay, backoff, v).trace;
    ExpectedShape(fn, delay, backoff, v);
    ExpectedCounts(fn, delay, backoff, v);
    var bound := if Rejects(delay, backoff, v) then FirstNegative(delay, backoff).value else SleepsOf(v);
    SleepsAllowedIff(delay, backoff, bound);
    assert !Rejects(delay, backoff, v) ==> |t| <= 2 * SleepsOf(v) + 1;
    forall i | 0 <= i < |t| - 1
      ensures t[i].Sleep? ==> t[i].seconds >= 0.0
    {
      var j := i / 2;
      if i % 2 == 0 {
        assert t[2 * j] == Attempt(fn);
      } else {
        assert t[2 * j + 1] == Sleep(NthDelay(delay, backoff, j));
        assert j < bound;
      }
    }
  }

  /** `call` answers True exactly when some answer within the allowed number
      of attempts is True and every sleep before it is accepted. */
  lemma CallAnswersTrue<A>(p: Policy, fn: A, outcomes: seq<bool>)
    ensures Call(p, fn, outcomes).result == Done(true) <==>
              exists k :: && 0 <= k < |outcomes| && outcomes[k]
                          && (p.maxAttempts.None? || k < p.maxAttempts.value)
                          && SleepsAllowed(p.delay, p.backoff, k)
  {
    var b := Remaining(p.maxAttempts, 0);
    var v := Predict(b, outcomes);
    CallMatchesPredict(p, fn, outcomes);
    if v.SucceedsAfter? && !Rejects(p.delay, p.backoff, v) {
      SleepsAllowedIff(p.delay, p.backoff, v.failures);
      assert outcomes[v.failures];
    }
    if exists k :: && 0 <= k < |outcomes| && outcomes[k]
                   && (p.maxAttempts.None? || k < p.maxAttempts.value)
                   && SleepsAllowed(p.delay, p.backoff, k) {
      var k :| && 0 <= k < |outcomes| && outcomes[k]
               && (p.maxAttempts.None? || k < p.maxAttempts.value)
               && SleepsAllowed(p.delay, p.backoff, k);
      assert FirstTrue(outcomes).Some? && FirstTrue(outcomes).value <= k;
      SleepsAllowedIff(p.delay, p.backoff, k);
      SleepsAllowedIff(p.delay, p.backoff, FirstTrue(outcomes).value);
    }
  }

  /** `call` answers False exactly when the bound is set, every answer it
      allows is False, and every sleep between those calls is accepted. */
  lemma CallAnswersFalse<A>(p: Policy, fn: A, outcomes: seq<bool>)
    ensures Call(p, fn, outcomes).result == Done(false) <==>
              && p.maxAttempts.Some?
              && Remaining(p.maxAttempts, 0).value <= |outcomes|
              && (forall j :: 0 <= j < Remaining(p.maxAttempts, 0).value ==> !outcomes[j])
              && SleepsAllowed(p.delay, p.backoff, Remaining(p.maxAttempts, 0).value - 1)
  {
    var b := Remaining(p.maxAttempts, 0);
    var v := Predict(b, outcomes);
    CallMatchesPredict(p, fn, outcomes);
    if p.maxAttempts.Some? {
      SleepsAllowedIff(p.delay, p.backoff, b.value - 1);
      if b.value <= |outcomes| && forall j :: 0 <= j < b.value ==> !outcomes[j] {
        ExplainsUnique(b, outcomes, ExhaustedAfter(b.value));
      }
    }
  }

  /** `time.sleep` raises inside `call` exactly when some sleep the loop
      reaches, after a run of False answers and with budget left for another
      call, has a negative length. */
  lemma CallRaisesInSleep<A>(p: Policy, fn: A, outcomes: seq<bool>)
    ensures Call(p, fn, outcomes).result == SleepRaised <==>
              exists j: nat :: && j < |outcomes|
                               && (p.maxAttempts.None? || j + 1 < p.maxAttempts.value)
                               && (forall i :: 0 <= i <= j ==> !outcomes[i])
                               && NthDelay(p.delay, p.backoff, j) < 0.0
  {
    var b := Remaining(p.maxAttempts, 0);
    var v := Predict(b, outcomes);
    CallMatchesPredict(p, fn, outcomes);
    FirstNegativeIsFirst(p.delay, p.backoff);
    var fnz := FirstNegative(p.delay, p.backoff);
    if Rejects(p.delay, p.backoff, v) {
      var j := fnz.value;
      assert j < |outcomes| && (p.maxAttempts.None? || j + 1 < p.maxAttempts.value);
      assert forall i :: 0 <= i <= j ==> !outcomes[i];
    }
    if exists j: nat :: && j < |outcomes|
                        && (p.maxAttempts.None? || j + 1 < p.maxAttempts.value)
                        && (forall i :: 0 <= i <= j ==> !outcomes[i])
                        && NthDelay(p.delay, p.backoff, j) < 0.0 {
      var j: nat :| && j < |outcomes|
                    && (p.maxAttempts.None? || j + 1 < p.maxAttempts.value)
                    && (forall i :: 0 <= i <= j ==> !outcomes[i])
                    && NthDelay(p.delay, p.backoff, j) < 0.0;
      SleepsAllowedIff(p.delay, p.backoff, j + 1);
      assert fnz.Some? && fnz.value <= j;
      if v.SucceedsAfter? {
        assert v.failures > j;
      }
    }
  }

  /** The three ways `call` can end, each characterized by the answers, the
      bound and the delay schedule alone. */
  lemma CallAnswers<A>(p: Policy, fn: A, outcomes: seq<bool>)
    ensures Call(p, fn, outcomes).result == Done(true) <==>
              exists k :: && 0 <= k < |outcomes| && outcomes[k]
                          && (p.maxAttempts.None? || k < p.maxAttempts.value)
                          && SleepsAllowed(p.delay, p.backoff, k)
    ensures Call(p, fn, outcomes).result == Done(false) <==>
              && p.maxAttempts.Some?
              && Remaining(p.maxAttempts, 0).value <= |outcomes|
              && (forall j :: 0 <= j < Remaining(p.maxAttempts, 0).value ==> !outcomes[j])
              && SleepsAllowed(p.delay, p.backoff, Remaining(p.maxAttempts, 0).value - 1)
    ensures Call(p, fn, outcomes).result == SleepRaised <==>
              exists j: nat :: && j < |outcomes|
                               && (p.maxAttempts.None? || j + 1 < p.maxAttempts.value)
                               && (forall i :: 0 <= i <= j ==> !outcomes[i])
                               && NthDelay(p.delay, p.backoff, j) < 0.0
  {
    CallAnswersTrue(p, fn, outcomes);
    CallAnswersFalse(p, fn, outcomes);
    CallRaisesInSleep(p, fn, outcomes);
  }

  /** Without a bound, `call` never answers False. */
  lemma CallUnbounded<A>(delay: real, backoff: real, fn: A, outcomes: seq<bool>)
    ensures Call(Policy(None, delay, backoff), fn, outcomes).result != Done(false)
  {
    CallAnswersFalse(Policy(None, delay, backoff), fn, outcomes);
  }

  /** With a bound, the function is called at most that many times (none
      when the bound is zero or below). */
  lemma CallBounded<A>(p: Policy, fn: A, outcomes: seq<bool>)
    requires p.maxAttempts.Some?
    ensures Count(Call(p, fn, outcomes).trace, Attempting) <= Remaining(p.maxAttempts, 0).value
  {
    var v := Predict(Remaining(p.maxAttempts, 0), outcomes);
    CallMatchesPredict(p, fn, outcomes);
    ExpectedCounts(fn, p.delay, p.backoff, v);
  }

  /** Once the function answers True nothing more happens: the call that
      answered is the last event, and it is call number `k`, the position of
      the first True, provided every sleep before it is accepted; otherwise
      a sleep raises before call number `k`. */
  lemma CallStopsAtFirstSuccess<A>(p: Policy, fn: A, outcomes: seq<bool>, k: nat)
    requires 1 <= k <= |outcomes| && outcomes[k - 1]
    requires forall j :: 0 <= j < k - 1 ==> !outcomes[j]
    requires p.maxAttempts.None? || k <= p.maxAttempts.value
    ensures var r := Call(p, fn, outcomes);
            SleepsAllowed(p.delay, p.backoff, k - 1) ==>
              && r.result == Done(true)
              && Count(r.trace, Attempting) == k
              && Count(r.trace, Sleeping) == k - 1
              && r.trace[|r.trace| - 1] == Attempt(fn)
    ensures var r := Call(p, fn, outcomes);
            !SleepsAllowed(p.delay, p.backoff, k - 1) ==>
              r.result == SleepRaised && Count(r.trace, Attempting) < k
  {
    ExplainsUnique(Remaining(p.maxAttempts, 0), outcomes, SucceedsAfter(k - 1));
    CallMatchesPredict(p, fn, outcomes);
    ExpectedCounts(fn, p.delay, p.backoff, SucceedsAfter(k - 1));
    SleepsAllowedIff(p.delay, p.backoff, k - 1);
  }

  /** With a bound `n >= 1` and `n` False answers, the function is called
      exactly `n` times with `n - 1` sleeps, none after the final failure,
      provided those sleeps are accepted; otherwise a sleep raises before
      call number `n`. */
  lemma CallExhausts<A>(delay: real, backoff: real, fn: A, outcomes: seq<bool>, n: int)
    requires 1 <= n <= |outcomes|
    requires forall j :: 0 <= j < n ==> !outcomes[j]
    ensures var r := Call(Policy(Some(n), delay, backoff), fn, outcomes);
            SleepsAllowed(delay, backoff, n - 1) ==>
              && r.result == Done(false)
              && Count(r.trace, Attempting) == n
              && Count(r.trace, Sleeping) == n - 1
              && r.trace[|r.trace| - 1] == Attempt(fn)
    ensures var r := Call(Policy(Some(n), delay, backoff), fn, outcomes);
            !SleepsAllowed(delay, backoff, n - 1) ==>
              r.result == SleepRaised && Count(r.trace, Attempting) < n
  {
    ExplainsUnique(Some(n), outcomes, ExhaustedAfter(n));
    CallMatchesPredict(Policy(Some(n), delay, backoff), fn, outcomes);
    ExpectedCounts(fn, delay, backoff, ExhaustedAfter(n));
    SleepsAllowedIff(delay, backoff, n - 1);
  }

  /** A bound of zero or below answers False without calling or sleeping. */
  lemma CallNoBudget<A>(max: int, delay: real, backoff: real, fn: A, outcomes: seq<bool>)
    requires max <= 0
    ensures Call(Policy(Some(max), delay, backoff), fn, outcomes) == CallRun(Done(false), [])
  {
  }

  /** The delay schedule: calls and sleeps alternate, starting with a call,
      and the `i`-th sleep (from 0) lasts `delay * backoff^i`. Every sleep
      but a final one has a length `time.sleep` accepts; the run ends with a
      call, or with a sleep of negative length exactly when that sleep raised. */
  lemma CallDelaySchedule<A>(p: Policy, fn: A, outcomes: seq<bool>)
    ensures var r := Call(p, fn, outcomes);
            var t := r.trace;
            && (|t| > 0 && r.result != SleepRaised ==> t[|t| - 1] == Attempt(fn))
            && (r.result == SleepRaised ==> |t| > 0 && t[|t| - 1].Sleep? && t[|t| - 1].seconds < 0.0)
            && (forall i :: 0 <= 2 * i < |t| ==> t[2 * i] == Attempt(fn))
            && (forall i :: 0 <= 2 * i + 1 < |t| ==> t[2 * i + 1] == Sleep(NthDelay(p.delay, p.backoff, i)))
            && (forall i :: 0 <= 2 * i + 1 < |t| ==> t[2 * i + 1] == Sleep(p.delay * Pow(p.backoff, i)))
            && (forall i :: 0 <= i < |t| - 1 && t[i].Sleep? ==> t[i].seconds >= 0.0)
  {
    var v := Predict(Remaining(p.maxAttempts, 0), outcomes);
    CallMatchesPredict(p, fn, outcomes);
    ExpectedShape(fn, p.delay, p.backoff, v);
    ExpectedSleepsAccepted(fn, p.delay, p.backoff, v);
    FirstNegativeIsFirst(p.delay, p.backoff);
    var t := Call(p, fn, outcomes).trace;
    forall i | 0 <= 2 * i + 1 < |t|
      ensures t[2 * i + 1] == Sleep(p.delay * Pow(p.backoff, i))
    {
      NthDelayIsPower(p.delay, p.backoff, i);
    }
  }

  /** With the default backoff every event is a call of `fn` or a sleep of
      the policy's delay. */
  lemma CallConstantDelay<A>(max: Option<int>, delay: real, fn: A, outcomes: seq<bool>)
    ensures var t := Call(Policy(max, delay, DefaultBackoff), fn, outcomes).trace;
            forall i :: 0 <= i < |t| ==> t[i] == Attempt(fn) || t[i] == Sleep(delay)
  {
    var p := Policy(max, delay, DefaultBackoff);
    var t := Call(p, fn, outcomes).trace;
    CallDelaySchedule(p, fn, outcomes);
    forall i | 0 <= i < |t|
      ensures t[i] == Attempt(fn) || t[i] == Sleep(delay)
    {
      var j := i / 2;
      if i % 2 == 0 {
        assert t[2 * j] == Attempt(fn);
      } else {
        assert t[2 * j + 1] == Sleep(NthDelay(delay, 1.0, j));
        NthDelayConstant(delay, j);
      }
    }
  }

  /** `call` as the source writes it: a `while` loop over the attempt counter
      and the current delay. */
  method CallLoop<A>(p: Policy, fn: A, outcomes: seq<bool>) returns (r: CallRun<A>)
    ensures r == Call(p, fn, outcomes)
  {
    ghost var whole := Call(p, fn, outcomes);
    var attempts: nat := 0;
    var currentDelay := p.delay;
    var trace: seq<Event<A>> := [];
    var rest := outcomes;
    while p.maxAttempts.None? || attempts < p.maxAttempts.value
      invariant attempts <= |outcomes| && rest == outcomes[attempts..]
      invariant whole.result == CallFrom(p, fn, attempts, currentDelay, rest).result
      invariant whole.trace == trace + CallFrom(p, fn, attempts, currentDelay, rest).trace
      decreases |rest|
    {
      ghost var before := CallFrom(p, fn, attempts, currentDelay, rest);
      attempts := attempts + 1;
      if |rest| == 0 {
        return CallRun(FnRaised, trace + [Attempt(fn)]);
      }
      var ok := rest[0];
      rest := rest[1..];
      if ok {
        return CallRun(Done(true), trace + [Attempt(fn)]);
      }
      if p.maxAttempts.Some? && attempts >= p.maxAttempts.value {
        trace := trace + [Attempt(fn)];
        break;
      }
      if currentDelay < 0.0 {
        return CallRun(SleepRaised, trace + [Attempt(fn), Sleep(currentDelay)]);
      }
      ghost var after := CallFrom(p, fn, attempts, Scaled(currentDelay, p.backoff), rest);
      assert before.trace == [Attempt(fn), Sleep(currentDelay)] + after.trace;
      assert trace + before.trace == (trace + [Attempt(fn), Sleep(currentDelay)]) + after.trace;
      trace := trace + [Attempt(fn), Sleep(currentDelay)];
      currentDelay := Scaled(currentDelay, p.backoff);
    }
    return CallRun(Done(false), trace);
  }
}
