# pyautossh connection-retry supervisor, modelled in Dafny

pyautossh wraps the `ssh` client and restarts it when the connection drops.
It stops when a run ends cleanly or when the attempt budget is spent. This
project models that supervisor and proves how it behaves.

The model covers three parts of the repository:

- The single-file program, `pyautossh.py`, in module `FlatSupervisor`:
  - `_attempt_connection` decides whether one run of the client was a terminal success.
  - `connect_ssh` looks the executable up once, then loops: attempt, and sleep after every failure.
  - `main` maps how `connect_ssh` ended to the exit status 0 or 255.
- `RetryPolicy`, in `src/pyautossh/retry_policy.py`, in module `RetryPolicy`:
  - a bounded or unbounded loop over a function returning a boolean;
  - no sleep after the final failure;
  - the delay is multiplied by `backoff` after each sleep.
- The packaged session manager, `src/pyautossh/pyautossh.py`, in module `SessionManager`:
  - `default_attempt_connection` classifies one invoker result.
  - `SSHSessionManager.connect` resolves the executable once, runs a `RetryPolicy` with the default backoff, and turns a False answer into `SSHConnectionError`.

The outside world becomes data:

- **The PATH lookup.** `shutil.which` becomes an `Option<string>`. An empty path is falsy in `if path:`, so it counts as not found (`Common.FindSshExecutable`).
- **The attempter.** Its answers are a finite `seq<bool>`, consumed one per call, the way the repository's test double consumes its list. When no answer is left the attempter raises. That attempt is recorded, and the run ends with the `Unexpected` failure (the test double's `IndexError`).
- **Waiting on the process.** This is a function parameter: it returns `TimedOut` or `Exited(code)`, or a `CommandResult` in the packaged variant.
- **Sleeping.** Each call of `time.sleep` is a `Sleep(seconds)` event in a trace. The lookup is a `Resolve` event and each attempter call an `Attempt(call)` event, where `call` carries the executable and arguments handed over.
- **Negative delays.** `time.sleep` raises `ValueError` for a negative length. The delay comes straight from `--autossh-reconnect-delay` (a float, so `-1` is accepted), and under `RetryPolicy` a negative backoff makes every other delay negative. The sleep call that raised is recorded, and the run ends with the `SleepRejected` failure, which `main` maps to 255 like any other exception.

Module `Budget` is an independent reference semantics, written without any loop:

- `Remaining` gives the attempts the guard still allows.
- `Predict` gives the verdict (`SucceedsAfter`, `ExhaustedAfter` or `RunsDryAfter`, each with its number of failures).
- `Explains` gives the declarative reading of a verdict. `Predict` satisfies it.

Each retry loop is proved equal, from every state, to the run its verdict prescribes (`LoopMatchesPredict`, `CallFromMatchesPredict`). The properties about attempts, sleeps, delays and answers follow from these closed forms. Each loop also has an imperative twin (`ConnectSshLoop`, `CallLoop`) written as the source's `while` loop. Its loop invariants tie it to the functional definition.

The two retry loops differ on exhaustion:

- `connect_ssh` sleeps after every failure, the last one included. So a budget of `n` spent on `n` failures leaves `n` attempts and `n` sleeps.
- `RetryPolicy.call` breaks before that final sleep, leaving `n` attempts and `n - 1` sleeps.

In the model, `SessionManager.VariantsAgree` proves this trailing sleep is the only difference between the two traces. It also proves the two supervisors end the same way except in one case: a negative delay with a budget of one failed attempt. There the single-file supervisor still calls `time.sleep`, which raises, while `RetryPolicy` gives up without sleeping. The model treats each run of the client as finished once its wait is over; the list of what is left out says what that hides.

`main` has no empty-arguments check: with no forwarded arguments it still calls `connect_ssh`. Only the packaged `cli.py` shows usage and exits nonzero in that case. The model follows the code of `pyautossh.py`, so `FlatSupervisor.Main` and `FlatSupervisor.MainExitStatus` hold for empty `args` too.

## Model

| member | source | states |
|---|---|---|
| `Common.FindSshExecutable` | pyautossh.py:90-95 | the lookup finds something exactly when PATH gave a non-empty path, and then returns that path unchanged; otherwise the client is not found |
| `Common.Command` | src/pyautossh/pyautossh.py:48 | the command starts with the executable, and its tail is the forwarded arguments, in order and unchanged |
| `Common.NthDelayIsPower` | src/pyautossh/retry_policy.py:38-49 | after `i` backoff steps the current delay is `delay * backoff^i` |
| `Common.FirstNegativeIsFirst` | src/pyautossh/retry_policy.py:38-49 | the first sleep of the schedule that `time.sleep` rejects is the first with a negative length; every earlier one is accepted, and without one every sleep is accepted |
| `Budget.Remaining` | pyautossh.py:160-161 | the guard `max is None or num_attempt < max` still allows attempts exactly when the count is below the maximum; unbounded stays unbounded; a maximum of zero or below allows none |
| `Budget.Predict` | src/pyautossh/retry_policy.py:40-51 | the verdict is explained by the outcomes: success at the first True the budget reaches; exhaustion after exactly the budget of Falses; running dry when the Falses end first |
| `Budget.PredictAfterFailure` | pyautossh.py:161-168 | one failed attempt within budget takes the loop one step along the same verdict, with one attempt less to spend |
| `FlatSupervisor.AttemptConnection` | pyautossh.py:117-129 | a run is a terminal success exactly when the client, spawned as `[ssh_exec] + ssh_args`, exited with code 0 within 30 seconds; a timeout or any other code is failure |
| `FlatSupervisor.ClassifyWaitCases` | pyautossh.py:119-129 | timeout gives False, exit code 0 gives True, any other exit code gives False |
| `FlatSupervisor.ConnectSsh` | pyautossh.py:158-171 | the lookup comes first; if it finds nothing, `SSHClientNotFound` is raised and nothing else happens |
| `FlatSupervisor.LoopMatchesPredict` | pyautossh.py:160-171 | from any attempt count, the loop's outcome and trace are the ones the reference verdict prescribes: a sleep of `reconnect_delay` after every failure, and the final attempt on success or when the attempter raises; with a negative delay, the sleep after the first failure raises and ends the run |
| `FlatSupervisor.ConnectSshMatchesPredict` | pyautossh.py:158-171 | after one lookup, `connect_ssh` makes exactly the run of the verdict for the whole budget, negative-delay case included |
| `FlatSupervisor.ConnectSshStopsAtFirstSuccess` | pyautossh.py:160-168 | if the first True is at 1-based position `k` within the budget, it returns after exactly `k` attempts and `k - 1` sleeps, the successful attempt being the last event, unless the delay is negative and `k > 1`: then the first sleep raises after one attempt |
| `FlatSupervisor.ConnectSshExhausts` | pyautossh.py:160-171 | with maximum `n >= 1` and `n` Falses, it raises `SSHConnectionError` after exactly `n` attempts and `n` sleeps, the last event being a sleep; with a negative delay, the first sleep raises after one attempt |
| `FlatSupervisor.ConnectSshNoBudget` | pyautossh.py:161-171 | with a maximum of zero or below, no attempt and no sleep are made before `SSHConnectionError` |
| `FlatSupervisor.ConnectSshBounded` | pyautossh.py:160-164 | with a maximum, the attempts never exceed it (none when it is zero or below) |
| `FlatSupervisor.ConnectSshUnbounded` | pyautossh.py:161-171 | without a maximum it never raises `SSHConnectionError`; it returns exactly when some answer is True and no sleep before it raised, that is, the delay is not negative or the first answer is True |
| `FlatSupervisor.ConnectSshRejectsNegativeDelay` | pyautossh.py:160-168 | `time.sleep` raises exactly when the delay is negative, the budget allows an attempt, and the first answer is False; the run is then the lookup, one attempt and that sleep |
| `FlatSupervisor.ConnectSshResolvesOnce` | pyautossh.py:158-164 | exactly one lookup, before anything else; every attempt gets the same executable and the same arguments |
| `FlatSupervisor.ConnectSshSleepsAfterEveryFailure` | pyautossh.py:164-168 | every attempt that is not the last event is followed by a sleep of `reconnect_delay`; sleeps equal attempts on exhaustion or when the sleep raised, and are one fewer otherwise |
| `FlatSupervisor.ConnectSshLoop` | pyautossh.py:158-171 | the `while` loop with its counter ends with the same outcome and the same trace as `ConnectSsh` |
| `FlatSupervisor.ExitCode` | pyautossh.py:23-38 | status 0 exactly when `connect_ssh` returned; 255 for `SSHClientNotFound`, `SSHConnectionError`, `KeyboardInterrupt` and any other exception, the `ValueError` of a negative sleep included |
| `FlatSupervisor.MainExitStatus` | pyautossh.py:19-38 | the program exits with 0 or 255; 0 exactly when the client is found and some answer the budget reaches is True, with the delay not negative or that answer the first |
| `RetryPolicy.CallFromAfterFailure` | src/pyautossh/retry_policy.py:40-49 | a False answer with budget left adds one call and one sleep of the current delay, and the loop continues with the delay times `backoff`; if the current delay is negative, that sleep raises and ends the run |
| `RetryPolicy.CallFromMatchesPredict` | src/pyautossh/retry_policy.py:37-51 | from any attempt count and current delay, the loop's answer and trace are the ones the reference verdict prescribes, with no sleep after the final call; if the run reaches a sleep of negative length, it ends there with that sleep raising |
| `RetryPolicy.CallMatchesPredict` | src/pyautossh/retry_policy.py:18-51 | `call` makes exactly the run of the verdict for the whole budget, starting from the configured delay, negative-sleep case included |
| `RetryPolicy.CallAnswers` | src/pyautossh/retry_policy.py:40-51 | True exactly when some answer within the allowed attempts is True and every sleep before it has a length `time.sleep` accepts; False exactly when the bound is set, every answer it allows is False, and the sleeps between them are accepted; `time.sleep` raises exactly when some sleep reached after a run of Falses, with budget left, is negative |
| `RetryPolicy.CallUnbounded` | src/pyautossh/retry_policy.py:40-51 | without a bound it never answers False |
| `RetryPolicy.CallBounded` | src/pyautossh/retry_policy.py:40-46 | with a bound, the function is called at most that many times |
| `RetryPolicy.CallStopsAtFirstSuccess` | src/pyautossh/retry_policy.py:40-49 | after the first True at position `k` there are no more calls or sleeps, and there were exactly `k` calls and `k - 1` sleeps, provided those sleeps are accepted; otherwise a sleep raises before call `k` |
| `RetryPolicy.CallExhausts` | src/pyautossh/retry_policy.py:40-51 | with bound `n >= 1` and `n` Falses: exactly `n` calls and `n - 1` sleeps, the last event a call, the answer False, provided those sleeps are accepted; otherwise a sleep raises before call `n` |
| `RetryPolicy.CallNoBudget` | src/pyautossh/retry_policy.py:37-51 | a bound of zero or below answers False without calling or sleeping |
| `RetryPolicy.CallDelaySchedule` | src/pyautossh/retry_policy.py:37-49 | calls and sleeps alternate, starting with a call; the `i`-th sleep (from 0) lasts `delay * backoff^i`; every sleep but a final one has a non-negative length; the run ends with a call, or with a negative sleep exactly when that sleep raised |
| `RetryPolicy.CallConstantDelay` | src/pyautossh/retry_policy.py:18-49 | with the default backoff of 1.0, every event is a call of the same function or a sleep of exactly `delay` |
| `RetryPolicy.CallLoop` | src/pyautossh/retry_policy.py:23-51 | the `while` loop with its early `break` ends with the same answer and the same trace as `Call` |
| `SessionManager.SubprocessResult` | src/pyautossh/process_invoker.py:60-66 | a process still running at the deadline gives no return code and `timed_out`; one that exited gives its code and not `timed_out` |
| `SessionManager.DefaultAttemptConnection` | src/pyautossh/pyautossh.py:36-57 | True exactly when invoking `[ssh_exec] + ssh_args` with a 30-second timeout did not time out and returned code 0 |
| `SessionManager.ClassifyCases` | src/pyautossh/pyautossh.py:51-57 | `timed_out` gives False, return code 0 gives True, any other return code gives False |
| `SessionManager.ClassifiersAgree` | src/pyautossh/pyautossh.py:51-57 | on the same wait, the packaged attempter decides exactly as the single-file one does |
| `SessionManager.Connect` | src/pyautossh/pyautossh.py:98-103 | the finder runs first; if it raises `SSHClientNotFound` nothing else happens; otherwise `connect` returns exactly when the policy answers True, raises `SSHConnectionError` exactly when it answers False, lets a raising sleep through, and adds nothing to the policy's run |
| `SessionManager.ConnectResolvesOnce` | src/pyautossh/pyautossh.py:98-100 | the finder runs exactly once, before any attempt; every attempt gets the same executable and arguments, and every sleep lasts `reconnect_delay` |
| `SessionManager.ConnectAnswers` | src/pyautossh/pyautossh.py:98-103 | it returns exactly when the client is found and some answer within the budget is True, with the delay not negative or that answer the first; it raises the connection error exactly when the client is found, the bound is set, every answer it allows is False, and the delay is not negative or at most one attempt is allowed; `time.sleep` raises exactly when the delay is negative, the first answer is False and the bound allows a second attempt |
| `SessionManager.VariantsAgree` | src/pyautossh/pyautossh.py:98-103 | with the same lookup and answers, the packaged `connect` ends like `connect_ssh` (pyautossh.py:158-171) except when the delay is negative and a bound of 1 meets a False answer, where `connect_ssh`'s sleep raises and `connect` raises the connection error; the traces differ only in the sleep `connect_ssh` adds after the last failure of a spent positive budget |
| `SessionManager.Scenarios` | tests/test_pyautossh.py:52-106 | `[True]` with maximum 3 returns; `[False, False, True]` with maximum 5 returns after 3 attempts; three Falses with maximum 3 raise `SSHConnectionError` after 3 attempts; a missing client raises `SSHClientNotFound` with no attempt |

## Left out

- Spawning and waiting on the client process (`subprocess.Popen` and `wait`, `SubprocessInvoker.invoke`) is OS I/O. What the wait reports is a parameter: a function of the command and the timeout.
- A client still running at the timeout is not modelled past the timeout. The single-file attempter returns False from inside `with subprocess.Popen(...)` (pyautossh.py:118-123), and leaving that block waits for the child to exit. `SubprocessInvoker.invoke` (src/pyautossh/process_invoker.py:60-66) leaves the child running, so the packaged supervisor can sleep and start a second `ssh` while the first still runs. Both are treated as one finished attempt, so `VariantsAgree` compares the two supervisors only up to this difference in time and in concurrent processes.
- The PATH search by `shutil.which` is an environment lookup. Its answer is an `Option<string>` input.
- `time.sleep` is recorded as a trace event carrying the delay. No time passes.
- Delays are exact `real` numbers. The floating-point rounding of `current_delay *= self.backoff` is not modelled.
- `KeyboardInterrupt` arrives asynchronously, so the model never raises it. It exists only as the `Interrupted` failure, which `main` maps to 255.
- An attempter that raises is modelled only by running out of answers, which gives `Unexpected`. Other exceptions from the attempter or the finder are not modelled: those from the attempter would propagate the same way; a finder is modelled as returning a path or raising `SSHClientNotFound`.
- Argument parsing is not modelled: `parse_args` is a thin wrapper over argparse's `parse_known_args`. `main` is modelled from the parsed values on.
- `src/pyautossh/cli.py`, including its empty-arguments usage check, is not part of this model. It imports a name the shown session-manager module does not define. `src/pyautossh/exceptions.py` is not part of this model either; its two exceptions are `Failure` constructors.
- Logging setup and every log message are left out.
- `RetryPolicy.__init__` only stores its three arguments. It is the `RetryPolicy.Policy` datatype, with the backoff default `RetryPolicy.DefaultBackoff`, so it has no member of its own.
- The model assumes the attempter does not change the argument list it is handed. `connect` (src/pyautossh/pyautossh.py:100) passes the same `ssh_args` list object to every call, so an injected attempter that mutated it would change what later attempts receive. Forwarded arguments are an immutable `seq<string>`, so "every attempt gets the same arguments" (`ConnectSshResolvesOnce`, `ConnectResolvesOnce`) holds only under that assumption. Both default attempters build a new list (pyautossh.py:118, src/pyautossh/pyautossh.py:48).
- `time.sleep` failing for reasons other than a negative length (an overflowing length, or NaN) is not modelled: delays are exact reals.
- The function `call` retries is represented by the value every call records in the trace. `connect` uses the executable and arguments its closure fixes.
