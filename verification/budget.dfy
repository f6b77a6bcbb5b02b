/** The reference semantics shared by both retry loops: given how many attempts
    the budget still allows and the outcomes the attempter will return, which
    of the three ways a retry loop can end is the one that happens. */
module Budget {
  import opened Common

  /** The attempts the loop guard `attempts < max` still allows once `used`
      attempts were made; `None` when the budget is unbounded. A maximum of
      zero or below allows none. */
  function Remaining(max: Option<int>, used: nat): (b: Option<nat>)
    ensures b.None? <==> max.None?
    ensures b.Some? ==> (b.value > 0 <==> used < max.value)
    ensures b.Some? && b.value > 0 ==> used + b.value == max.value
  {
    match max
    case None => None
    case Some(m) => if used < m then Some(m - used) else Some(0)
  }

  /** The budget left after one more attempt. */
  function Spend(b: Option<nat>): (b': Option<nat>)
    requires b.None? || b.value > 0
    ensures b'.None? <==> b.None?
    ensures b'.Some? ==> b'.value + 1 == b.value
  {
    match b
    case None => None
    case Some(n) => Some(n - 1)
  }

  lemma RemainingAfterAttempt(max: Option<int>, used: nat)
    requires max.None? || used < max.value
    ensures Remaining(max, used + 1) == Spend(Remaining(max, used))
  {
  }

  /** The 0-based position of the first successful outcome, if any. */
  function FirstTrue(s: seq<bool>): (r: Option<nat>)
    ensures r.Some? ==> r.value < |s| && s[r.value] && forall j :: 0 <= j < r.value ==> !s[j]
    ensures r.None? <==> forall j :: 0 <= j < |s| ==> !s[j]
  {
    if |s| == 0 then None
    else if s[0] then Some(0)
    else
      match FirstTrue(s[1..])
      case None => None
      case Some(k) => Some(k + 1)
  }

  /** How a retry loop ends; each case counts the attempts that returned
      failure before the end. */
  datatype Verdict =
    | SucceedsAfter(failures: nat)   // then one more attempt succeeds
    | ExhaustedAfter(failures: nat)  // all attempts the budget allows failed
    | RunsDryAfter(failures: nat)    // no outcome is left: the next call raises

  /** The declarative reading of a verdict: what must be true of the budget
      and of the outcomes for a loop to end this way. */
  ghost predicate Explains(budget: Option<nat>, s: seq<bool>, v: Verdict)
  {
    match v
    case SucceedsAfter(f) =>
      && f < |s| && s[f]
      && (forall j :: 0 <= j < f ==> !s[j])
      && (budget.None? || f < budget.value)
    case ExhaustedAfter(f) =>
      && budget == Some(f) && f <= |s|
      && (forall j :: 0 <= j < f ==> !s[j])
    case RunsDryAfter(f) =>
      && f == |s|
      && (forall j :: 0 <= j < |s| ==> !s[j])
      && (budget.None? || |s| < budget.value)
  }

  function Predict(budget: Option<nat>, s: seq<bool>): (v: Verdict)
    ensures Explains(budget, s, v)
  {
    var first := FirstTrue(s);
    if first.Some? && (budget.None? || first.value < budget.value) then SucceedsAfter(first.value)
    else if budget.Some? && budget.value <= |s| then ExhaustedAfter(budget.value)
    else RunsDryAfter(|s|)
  }

  /** No other verdict explains the same budget and outcomes: `Predict`
      is exactly the declarative reading. */
  lemma ExplainsUnique(budget: Option<nat>, s: seq<bool>, v: Verdict)
    requires Explains(budget, s, v)
    ensures v == Predict(budget, s)
  {
  }

  function Bump(v: Verdict): (w: Verdict)
    ensures w.failures == v.failures + 1
  {
    match v
    case SucceedsAfter(f) => SucceedsAfter(f + 1)
    case ExhaustedAfter(f) => ExhaustedAfter(f + 1)
    case RunsDryAfter(f) => RunsDryAfter(f + 1)
  }

  /** One failed attempt moves the loop one step along the same verdict. */
  lemma PredictAfterFailure(budget: Option<nat>, s: seq<bool>)
    requires |s| > 0 && !s[0]
    requires budget.None? || budget.value > 0
    ensures Predict(budget, s) == Bump(Predict(Spend(budget), s[1..]))
  {
    var v := Predict(Spend(budget), s[1..]);
    assert forall j :: 1 <= j < |s| ==> s[j] == s[1..][j - 1];
    assert Explains(budget, s, Bump(v));
    ExplainsUnique(budget, s, Bump(v));
  }
}
