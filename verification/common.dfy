/** Types shared by both supervisor variants: the error kinds, the trace of
    observable effects a supervised session leaves behind, and the two small
    helpers both variants use to resolve and to launch the ssh client. */
module Common {

  datatype Option<+T> = None | Some(value: T)

  /** The exceptions a supervised session can end with. */
  datatype Failure =
    | ClientNotFound   // SSHClientNotFound: no ssh executable was found
    | ConnectionError  // SSHConnectionError: the attempt budget was used up
    | Interrupted      // KeyboardInterrupt from the controlling terminal
    | SleepRejected    // ValueError from `time.sleep`: the delay was negative
    | Unexpected       // any other exception, e.g. the attempter itself raising

  /** How a call of the supervisor ends: it returns, or it raises. */
  datatype Outcome = Returned | Raised(failure: Failure)

  /** What every call of the connection attempter is handed: the resolved
      executable and the forwarded ssh arguments. */
  datatype Invocation = Invocation(exec: string, args: seq<string>)

  /** One observable effect: the executable lookup, one call of the
      attempter (carrying what it was called with), or one sleep. */
  datatype Event<+A> = Resolve | Attempt(call: A) | Sleep(seconds: real)

  datatype Kind = Resolving | Attempting | Sleeping

  /** The trace of a supervised session together with how it ended. */
  datatype Run<+A> = Run(outcome: Outcome, trace: seq<Event<A>>)

  function KindOf<A>(e: Event<A>): Kind
  {
    match e
    case Resolve => Resolving
    case Attempt(_) => Attempting
    case Sleep(_) => Sleeping
  }

  /** The number of events of kind `k` in `t`. */
  function Count<A>(t: seq<Event<A>>, k: Kind): (n: nat)
    ensures n <= |t|
  {
    if |t| == 0 then 0
    else (if KindOf(t[0]) == k then 1 else 0) + Count(t[1..], k)
  }

  /** A count is zero exactly when no event of that kind occurs. */
  lemma {:induction false} CountZero<A>(t: seq<Event<A>>, k: Kind)
    ensures Count(t, k) == 0 <==> forall i :: 0 <= i < |t| ==> KindOf(t[i]) != k
  {
    if |t| > 0 {
      CountZero(t[1..], k);
      assert forall i :: 1 <= i < |t| ==> t[i] == t[1..][i - 1];
    }
  }

  lemma {:induction false} CountAppend<A>(a: seq<Event<A>>, b: seq<Event<A>>, k: Kind)
    ensures Count(a + b, k) == Count(a, k) + Count(b, k)
    decreases |a|
  {
    if |a| == 0 {
      assert a + b == b;
    } else {
      assert (a + b)[1..] == a[1..] + b;
      CountAppend(a[1..], b, k);
    }
  }

  function Pow(base: real, n: nat): real
  {
    if n == 0 then 1.0 else base * Pow(base, n - 1)
  }

  /** The delay after one backoff step. Naming the step keeps each delay of
      the schedule a single term, so proofs can match it syntactically. */
  function Scaled(delay: real, factor: real): real
  {
    delay * factor
  }

  /** `m` rounds of "call the attempter, it fails, sleep", where the delay
      starts at `delay` and is multiplied by `backoff` after every sleep. */
  function Cycles<A>(call: A, delay: real, backoff: real, m: nat): (t: seq<Event<A>>)
    ensures |t| == 2 * m
    decreases m
  {
    if m == 0 then []
    else [Attempt(call), Sleep(delay)] + Cycles(call, Scaled(delay, backoff), backoff, m - 1)
  }

  /** The delay of the `i`-th sleep (from 0) when the first is `delay` and
      each later one is scaled by `backoff`. */
  function NthDelay(delay: real, backoff: real, i: nat): real
    decreases i
  {
    if i == 0 then delay else NthDelay(Scaled(delay, backoff), backoff, i - 1)
  }

  /** The `i`-th delay is `delay * backoff^i`. */
  lemma {:induction false} NthDelayIsPower(delay: real, backoff: real, i: nat)
    ensures NthDelay(delay, backoff, i) == delay * Pow(backoff, i)
    decreases i
  {
    if i > 0 {
      NthDelayIsPower(Scaled(delay, backoff), backoff, i - 1);
      assert delay * backoff * Pow(backoff, i - 1) == delay * (backoff * Pow(backoff, i - 1));
    }
  }

  /** `time.sleep` accepts only non-negative lengths: the first `n` sleeps of
      the schedule are all accepted. */
  predicate SleepsAllowed(delay: real, backoff: real, n: int)
  {
    forall i: nat :: i < n ==> NthDelay(delay, backoff, i) >= 0.0
  }

  /** The index of the first sleep of the schedule whose length is negative:
      the first one when `delay` is, the second when a positive delay meets a
      negative backoff, none otherwise. */
  function FirstNegative(delay: real, backoff: real): Option<nat>
  {
    if delay < 0.0 then Some(0)
    else if delay > 0.0 && backoff < 0.0 then Some(1)
    else None
  }

  lemma {:induction false} NthDelayNonNegative(delay: real, backoff: real, i: nat)
    requires delay >= 0.0 && backoff >= 0.0
    ensures NthDelay(delay, backoff, i) >= 0.0
    decreases i
  {
    if i > 0 {
      assert Scaled(delay, backoff) >= 0.0;
      NthDelayNonNegative(Scaled(delay, backoff), backoff, i - 1);
    }
  }

  lemma {:induction false} NthDelayZero(backoff: real, i: nat)
    ensures NthDelay(0.0, backoff, i) == 0.0
    decreases i
  {
    if i > 0 {
      assert Scaled(0.0, backoff) == 0.0;
      NthDelayZero(backoff, i - 1);
    }
  }

  /** `FirstNegative` is where the schedule first goes below zero, and no
      earlier sleep does. */
  lemma FirstNegativeIsFirst(delay: real, backoff: real)
    ensures FirstNegative(delay, backoff).Some? ==>
              NthDelay(delay, backoff, FirstNegative(delay, backoff).value) < 0.0
    ensures FirstNegative(delay, backoff).Some? ==>
              SleepsAllowed(delay, backoff, FirstNegative(delay, backoff).value)
    ensures FirstNegative(delay, backoff).None? ==>
              forall i: nat :: NthDelay(delay, backoff, i) >= 0.0
  {
    if delay > 0.0 && backoff < 0.0 {
      assert NthDelay(delay, backoff, 1) == NthDelay(Scaled(delay, backoff), backoff, 0);
    } else if delay == 0.0 {
      forall i: nat
        ensures NthDelay(delay, backoff, i) >= 0.0
      {
        NthDelayZero(backoff, i);
      }
    } else if delay > 0.0 {
      forall i: nat
        ensures NthDelay(delay, backoff, i) >= 0.0
      {
        NthDelayNonNegative(delay, backoff, i);
      }
    }
  }

  /** The first `n` sleeps are accepted exactly when the first negative one,
      if any, comes at index `n` or later. */
  lemma SleepsAllowedIff(delay: real, backoff: real, n: int)
    ensures SleepsAllowed(delay, backoff, n) <==>
              FirstNegative(delay, backoff).None? || n <= FirstNegative(delay, backoff).value
  {
    FirstNegativeIsFirst(delay, backoff);
  }

  /** With the identity backoff every sleep has the same length, so the first
      `n` are accepted exactly when that length is not negative or `n` is 0. */
  lemma SleepsAllowedConstant(delay: real, n: int)
    ensures SleepsAllowed(delay, 1.0, n) <==> delay >= 0.0 || n <= 0
  {
    SleepsAllowedIff(delay, 1.0, n);
  }

  /** After an accepted sleep, the first negative sleep is one step nearer. */
  lemma FirstNegativeStep(delay: real, backoff: real)
    requires delay >= 0.0
    ensures FirstNegative(delay, backoff) != Some(0)
    ensures FirstNegative(Scaled(delay, backoff), backoff)
         == if FirstNegative(delay, backoff).None? then None else Some(FirstNegative(delay, backoff).value - 1)
  {
    if delay > 0.0 && backoff < 0.0 {
      assert delay * backoff < 0.0;
    } else if delay > 0.0 {
      assert delay * backoff >= 0.0;
    }
  }

  /** With the identity backoff every delay is the first one. */
  lemma {:induction false} NthDelayConstant(delay: real, i: nat)
    ensures NthDelay(delay, 1.0, i) == delay
  {
    if i > 0 {
      assert Scaled(delay, 1.0) == delay;
      NthDelayConstant(delay, i - 1);
    }
  }

  /** Round `i` of `Cycles` calls `call` and then sleeps the `i`-th delay. */
  lemma {:induction false} CyclesShape<A>(call: A, delay: real, backoff: real, m: nat)
    ensures forall i :: 0 <= i < m ==> Cycles(call, delay, backoff, m)[2 * i] == Attempt(call)
    ensures forall i :: 0 <= i < m ==>
              Cycles(call, delay, backoff, m)[2 * i + 1] == Sleep(NthDelay(delay, backoff, i))
    decreases m
  {
    if m > 0 {
      var t := Cycles(call, delay, backoff, m);
      var rest := Cycles(call, Scaled(delay, backoff), backoff, m - 1);
      CyclesShape(call, Scaled(delay, backoff), backoff, m - 1);
      forall i | 1 <= i < m
        ensures t[2 * i] == Attempt(call)
        ensures t[2 * i + 1] == Sleep(NthDelay(delay, backoff, i))
      {
        assert t[2 * i] == rest[2 * (i - 1)];
        assert t[2 * i + 1] == rest[2 * (i - 1) + 1];
      }
    }
  }

  /** One more round appends a call and a sleep of the `m`-th delay. */
  lemma {:induction false} CyclesSnoc<A>(call: A, delay: real, backoff: real, m: nat)
    ensures Cycles(call, delay, backoff, m + 1)
         == Cycles(call, delay, backoff, m) + [Attempt(call), Sleep(NthDelay(delay, backoff, m))]
    decreases m
  {
    if m > 0 {
      var pair: seq<Event<A>> := [Attempt(call), Sleep(delay)];
      CyclesSnoc(call, Scaled(delay, backoff), backoff, m - 1);
      assert pair + (Cycles(call, Scaled(delay, backoff), backoff, m - 1)
                     + [Attempt(call), Sleep(NthDelay(delay, backoff, m))])
          == (pair + Cycles(call, Scaled(delay, backoff), backoff, m - 1))
             + [Attempt(call), Sleep(NthDelay(delay, backoff, m))];
    }
  }

  /** `Cycles` holds exactly `m` attempts, `m` sleeps and no lookup. */
  lemma {:induction false} CyclesCount<A>(call: A, delay: real, backoff: real, m: nat, k: Kind)
    ensures Count(Cycles(call, delay, backoff, m), k) == if k == Resolving then 0 else m
    decreases m
  {
    if m > 0 {
      var rest := Cycles(call, Scaled(delay, backoff), backoff, m - 1);
      assert Cycles(call, delay, backoff, m) == [Attempt(call)] + ([Sleep(delay)] + rest);
      CyclesCount(call, Scaled(delay, backoff), backoff, m - 1, k);
      CountPrepend(Sleep(delay), rest, k);
      CountPrepend(Attempt(call), [Sleep(delay)] + rest, k);
    }
  }

  /** Prefixing one event adds one to the count of its own kind only. */
  lemma CountPrepend<A>(e: Event<A>, t: seq<Event<A>>, k: Kind)
    ensures Count([e] + t, k) == (if KindOf(e) == k then 1 else 0) + Count(t, k)
  {
    assert ([e] + t)[1..] == t;
  }

  /** The counts of a run of `m` failed rounds closed by one more call. */
  lemma ClosedCyclesCount<A>(call: A, delay: real, backoff: real, m: nat)
    ensures Count(Cycles(call, delay, backoff, m) + [Attempt(call)], Attempting) == m + 1
    ensures Count(Cycles(call, delay, backoff, m) + [Attempt(call)], Sleeping) == m
    ensures Count(Cycles(call, delay, backoff, m) + [Attempt(call)], Resolving) == 0
  {
    var c := Cycles(call, delay, backoff, m);
    CyclesCount(call, delay, backoff, m, Attempting);
    CyclesCount(call, delay, backoff, m, Sleeping);
    CyclesCount(call, delay, backoff, m, Resolving);
    CountAppend(c, [Attempt(call)], Attempting);
    CountAppend(c, [Attempt(call)], Sleeping);
    CountAppend(c, [Attempt(call)], Resolving);
  }

  /** With the identity backoff every round calls `call` and sleeps `delay`. */
  lemma ConstantCycles<A>(call: A, delay: real, m: nat)
    ensures forall i :: 0 <= i < m ==> Cycles(call, delay, 1.0, m)[2 * i] == Attempt(call)
    ensures forall i :: 0 <= i < m ==> Cycles(call, delay, 1.0, m)[2 * i + 1] == Sleep(delay)
  {
    CyclesShape(call, delay, 1.0, m);
    forall i | 0 <= i < m
      ensures Cycles(call, delay, 1.0, m)[2 * i + 1] == Sleep(delay)
    {
      NthDelayConstant(delay, i);
    }
  }

  /** The executable lookup of both variants: `which` is what the search of
      PATH reported, and an empty path is falsy, so it counts as not found. */
  function FindSshExecutable(which: Option<string>): (r: Option<string>)
    ensures r.Some? <==> which.Some? && which.value != ""
    ensures r.Some? ==> r.value == which.value
  {
    match which
    case Some(path) => if path != "" then Some(path) else None
    case None => None
  }

  /** The argument vector handed to the process layer. */
  function Command(inv: Invocation): (cmd: seq<string>)
    ensures |cmd| == |inv.args| + 1
    ensures cmd[0] == inv.exec
    ensures cmd[1..] == inv.args
  {
    [inv.exec] + inv.args
  }
}
