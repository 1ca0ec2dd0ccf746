/** The dispatch rate limiter: a token bucket, over whole runs of calls. Token
    counts and instants are real numbers here where the engine has floats. */
module TokenBucket {

  /** A burst allowance and the rate, per second, that refills it. */
  datatype Policy = Policy(capacity: nat, refillPerSec: nat)

  predicate ValidPolicy(p: Policy) {
    p.capacity >= 1 && p.refillPerSec >= 1
  }

  datatype State = State(tokens: real, lastRefill: real)

  function Full(p: Policy, now: real): State {
    State(p.capacity as real, now)
  }

  /** Zero when the clock is behind. */
  function Elapsed(now: real, since: real): real {
    if now > since then now - since else 0.0
  }

  function Min(a: real, b: real): real {
    if a < b then a else b
  }

  /** The tokens that come back in `span` seconds. */
  function Accrued(p: Policy, span: real): real {
    span * p.refillPerSec as real
  }

  /** The tokens a call at `now` finds. */
  function Refilled(p: Policy, s: State, now: real): real {
    Min(s.tokens + Accrued(p, Elapsed(now, s.lastRefill)), p.capacity as real)
  }

  /** The state after a call at `now`. */
  function AfterCall(p: Policy, s: State, now: real): State {
    State(if Refilled(p, s, now) >= 1.0 then Refilled(p, s, now) - 1.0 else Refilled(p, s, now), now)
  }

  class Bucket {
    const policy: Policy
    var tokens: real
    var lastRefill: real

    ghost predicate Valid()
      reads this
    {
      ValidPolicy(policy) && 0.0 <= tokens <= policy.capacity as real
    }

    ghost function Abs(): State
      reads this
    {
      State(tokens, lastRefill)
    }

    /** Starts full. */
    constructor (policy: Policy, now: real)
      requires ValidPolicy(policy)
      ensures Valid() && this.policy == policy && Abs() == Full(policy, now)
    {
      this.policy := policy;
      tokens := policy.capacity as real;
      lastRefill := now;
    }

    /** One call: credit the time since the last one, and spend a token if there is one. */
    method TryAcquire(now: real) returns (admitted: bool)
      requires Valid()
      modifies this
      ensures Valid()
      ensures Abs() == AfterCall(policy, old(Abs()), now)
      ensures admitted <==> Refilled(policy, old(Abs()), now) >= 1.0
    {
      var capacity := policy.capacity as real;
      var elapsed := Elapsed(now, lastRefill);
      AccruedGrows(policy, 0.0, elapsed);
      tokens := Min(tokens + Accrued(policy, elapsed), capacity);
      lastRefill := now;
      if tokens >= 1.0 {
        tokens := tokens - 1.0;
        admitted := true;
      } else {
        admitted := false;
      }
    }
  }

  /* ----- Runs: a bucket created at `start`, called at `times` ----- */

  function StateAt(p: Policy, start: real, times: seq<real>, k: nat): State
    requires k <= |times|
  {
    if k == 0 then Full(p, start) else AfterCall(p, StateAt(p, start, times, k - 1), times[k - 1])
  }

  /** The tokens call `k` finds. */
  function Found(p: Policy, start: real, times: seq<real>, k: nat): real
    requires k < |times|
  {
    Refilled(p, StateAt(p, start, times, k), times[k])
  }

  predicate Admitted(p: Policy, start: real, times: seq<real>, k: nat)
    requires k < |times|
  {
    Found(p, start, times, k) >= 1.0
  }

  /** Admissions among the calls from `i` up to, not including, `j`. */
  function Count(p: Policy, start: real, times: seq<real>, i: nat, j: nat): nat
    requires i <= j <= |times|
  {
    if i == j then 0
    else Count(p, start, times, i, j - 1) + (if Admitted(p, start, times, j - 1) then 1 else 0)
  }

  /** The time the clock has moved forward between calls `i` and `j`; steps back
      do not count. */
  function Travel(times: seq<real>, i: nat, j: nat): real
    requires i <= j < |times|
  {
    if i == j then 0.0 else Travel(times, i, j - 1) + Elapsed(times[j], times[j - 1])
  }

  /** What the policy allows from call `i` to call `j`, less what it has
      admitted there. */
  function Budget(p: Policy, start: real, times: seq<real>, i: nat, j: nat): real
    requires i <= j < |times|
  {
    p.capacity as real + Accrued(p, Travel(times, i, j)) - Count(p, start, times, i, j) as real
  }

  lemma AccruedGrows(p: Policy, a: real, b: real)
    requires a <= b
    ensures Accrued(p, 0.0) == 0.0 && Accrued(p, a) <= Accrued(p, b)
  {
  }

  lemma AccruedAdds(p: Policy, a: real, b: real)
    ensures Accrued(p, a + b) == Accrued(p, a) + Accrued(p, b)
  {
  }

  /** Tokens stay between zero and the capacity. */
  lemma {:induction false} TokensInRange(p: Policy, start: real, times: seq<real>, k: nat)
    requires ValidPolicy(p) && k <= |times|
    ensures 0.0 <= StateAt(p, start, times, k).tokens <= p.capacity as real
    ensures k < |times| ==> 0.0 <= Found(p, start, times, k) <= p.capacity as real
  {
    hide Accrued;
    if k > 0 { TokensInRange(p, start, times, k - 1); }
    if k < |times| {
      AccruedGrows(p, 0.0, Elapsed(times[k], StateAt(p, start, times, k).lastRefill));
    }
  }

  /** What a call finds, from what the call before it found. */
  lemma FoundNext(p: Policy, start: real, times: seq<real>, k: nat)
    requires k + 1 < |times|
    ensures
      var left := Found(p, start, times, k) - (if Admitted(p, start, times, k) then 1.0 else 0.0);
      Found(p, start, times, k + 1) == Min(left + Accrued(p, Elapsed(times[k + 1], times[k])), p.capacity as real)
  {
    hide Accrued, Elapsed;
    assert StateAt(p, start, times, k + 1).lastRefill == times[k];
  }

  lemma FoundFirst(p: Policy, start: real, times: seq<real>)
    requires ValidPolicy(p) && times != []
    ensures Found(p, start, times, 0) == p.capacity as real
  {
    hide Accrued;
    AccruedGrows(p, 0.0, Elapsed(times[0], start));
  }

  /** From one call to the next, every budget moves as the tokens do. */
  lemma BudgetNext(p: Policy, start: real, times: seq<real>, i: nat, j: nat)
    requires i <= j && j + 1 < |times|
    ensures Budget(p, start, times, i, j + 1)
         == Budget(p, start, times, i, j) - (if Admitted(p, start, times, j) then 1.0 else 0.0)
            + Accrued(p, Elapsed(times[j + 1], times[j]))
  {
    hide Admitted, Accrued, Elapsed;
    AccruedAdds(p, Travel(times, i, j), Elapsed(times[j + 1], times[j]));
  }

  /** The tokens are the tightest budget over all windows that end here. */
  lemma {:induction false} FoundIsTightestBudget(p: Policy, start: real, times: seq<real>, j: nat) returns (least: nat)
    requires ValidPolicy(p) && j < |times|
    ensures forall i :: 0 <= i <= j ==> Found(p, start, times, j) <= Budget(p, start, times, i, j)
    ensures least <= j && Found(p, start, times, j) == Budget(p, start, times, least, j)
  {
    hide Found, Admitted, Accrued, Elapsed;
    AccruedGrows(p, 0.0, 0.0);
    assert Budget(p, start, times, j, j) == p.capacity as real;
    if j == 0 {
      FoundFirst(p, start, times);
      least := 0;
    } else {
      least := FoundIsTightestBudget(p, start, times, j - 1);
      FoundNext(p, start, times, j - 1);
      forall i | 0 <= i < j
        ensures Budget(p, start, times, i, j)
             == Budget(p, start, times, i, j - 1) - (if Admitted(p, start, times, j - 1) then 1.0 else 0.0)
                + Accrued(p, Elapsed(times[j], times[j - 1]))
      {
        BudgetNext(p, start, times, i, j - 1);
      }
      if Found(p, start, times, j) == p.capacity as real { least := j; }
    }
  }

  /* ----- Main results ----- */

  /** One more admission at call `j` keeps the window from call `i` within the
      burst plus the refill for `span` seconds. */
  predicate Allows(p: Policy, start: real, times: seq<real>, i: nat, j: nat, span: real)
    requires i <= j < |times|
  {
    Count(p, start, times, i, j) as real + 1.0 <= p.capacity as real + p.refillPerSec as real * span
  }

  lemma AccruedIsRateTimesSpan(p: Policy, span: real)
    ensures Accrued(p, span) == p.refillPerSec as real * span
  {
  }

  /** Measured by the time the clock moved forward in the window. */
  predicate AllowsTravel(p: Policy, start: real, times: seq<real>, i: nat, j: nat)
    requires i <= j < |times|
  {
    Allows(p, start, times, i, j, Travel(times, i, j))
  }

  /** Measured from the first instant of the window to its last. */
  predicate AllowsSpan(p: Policy, start: real, times: seq<real>, i: nat, j: nat)
    requires i <= j < |times|
  {
    Allows(p, start, times, i, j, times[j] - times[i])
  }

  /** For any call times at all, a call is admitted exactly when admitting it
      keeps every window that ends with it within the burst plus the refill for
      the time the clock moved forward in the window. */
  lemma AdmitsExactlyThePolicy(p: Policy, start: real, times: seq<real>, j: nat)
    requires ValidPolicy(p) && j < |times|
    ensures Admitted(p, start, times, j) <==> forall i :: 0 <= i <= j ==> AllowsTravel(p, start, times, i, j)
  {
    hide Found, AllowsTravel, Budget;
    var least := FoundIsTightestBudget(p, start, times, j);
    forall i | 0 <= i <= j
      ensures AllowsTravel(p, start, times, i, j) <==> Budget(p, start, times, i, j) >= 1.0
    {
      AllowsIsBudget(p, start, times, i, j);
    }
    assert AllowsTravel(p, start, times, least, j) <==> Admitted(p, start, times, j);
  }

  lemma AllowsIsBudget(p: Policy, start: real, times: seq<real>, i: nat, j: nat)
    requires i <= j < |times|
    ensures AllowsTravel(p, start, times, i, j) <==> Budget(p, start, times, i, j) >= 1.0
  {
    hide Count, Accrued, Travel;
    AccruedIsRateTimesSpan(p, Travel(times, i, j));
  }

  /** In any window, at most the burst plus the refill for the time the clock
      moved forward in it is admitted. */
  lemma WindowBound(p: Policy, start: real, times: seq<real>, i: nat, j: nat)
    requires ValidPolicy(p) && i <= j < |times|
    ensures Count(p, start, times, i, j + 1) as real
         <= p.capacity as real + p.refillPerSec as real * Travel(times, i, j)
  {
    hide Found, StateAt, Accrued, Travel;
    var least := FoundIsTightestBudget(p, start, times, j);
    TokensInRange(p, start, times, j);
    assert Found(p, start, times, j) <= Budget(p, start, times, i, j);
    AccruedIsRateTimesSpan(p, Travel(times, i, j));
  }

  /** The clock does not step back between calls `i` and `j`. */
  predicate NoStepBack(times: seq<real>, i: nat, j: nat)
    requires i <= j < |times|
  {
    forall k :: i <= k < j ==> times[k] <= times[k + 1]
  }

  /** The clock moves forward by at least the span of a window, and by exactly the
      span if and only if it does not step back in the window. */
  lemma {:induction false} TravelIsSpan(times: seq<real>, i: nat, j: nat)
    requires i <= j < |times|
    ensures Travel(times, i, j) >= times[j] - times[i]
    ensures Travel(times, i, j) == times[j] - times[i] <==> NoStepBack(times, i, j)
  {
    if i < j {
      TravelIsSpan(times, i, j - 1);
      assert NoStepBack(times, i, j) <==> NoStepBack(times, i, j - 1) && times[j - 1] <= times[j];
    }
  }

  /** A step back does not count. */
  lemma TravelOfOneStep(times: seq<real>, k: nat)
    requires k + 1 < |times|
    ensures Travel(times, k, k + 1) == if times[k] < times[k + 1] then times[k + 1] - times[k] else 0.0
  {
    assert Travel(times, k, k) == 0.0;
  }

  /** So while the clock does not step back, the policy is the documented one: the
      burst plus the refill over the span of each window. */
  lemma SpanPolicy(p: Policy, start: real, times: seq<real>, j: nat)
    requires ValidPolicy(p) && j < |times| && NoStepBack(times, 0, j)
    ensures Admitted(p, start, times, j) <==> forall i :: 0 <= i <= j ==> AllowsSpan(p, start, times, i, j)
  {
    hide Admitted, Allows, Travel;
    AdmitsExactlyThePolicy(p, start, times, j);
    forall i | 0 <= i <= j
      ensures AllowsTravel(p, start, times, i, j) <==> AllowsSpan(p, start, times, i, j)
    {
      TravelIsSpan(times, i, j);
    }
    hide AllowsTravel, AllowsSpan;
  }

  /** And at most that much is admitted in any window of at most `span` seconds in
      which the clock does not step back. */
  lemma SpanBound(p: Policy, start: real, times: seq<real>, i: nat, j: nat, span: real)
    requires ValidPolicy(p) && i <= j < |times| && NoStepBack(times, i, j) && times[j] - times[i] <= span
    ensures Count(p, start, times, i, j + 1) as real <= p.capacity as real + p.refillPerSec as real * span
  {
    hide Count, Accrued, Travel;
    WindowBound(p, start, times, i, j);
    TravelIsSpan(times, i, j);
    AccruedGrows(p, Travel(times, i, j), span);
    AccruedIsRateTimesSpan(p, Travel(times, i, j));
    AccruedIsRateTimesSpan(p, span);
  }

  /** Calls at least one refill apart are all admitted. */
  lemma {:induction false} SpacedCallsAreAdmitted(p: Policy, start: real, times: seq<real>, k: nat)
    requires ValidPolicy(p) && k < |times|
    requires forall i :: 0 <= i < |times| - 1 ==> times[i + 1] - times[i] >= 1.0 / p.refillPerSec as real
    ensures Admitted(p, start, times, k)
  {
    hide Found, StateAt, Accrued, Elapsed;
    if k == 0 {
      FoundFirst(p, start, times);
    } else {
      SpacedCallsAreAdmitted(p, start, times, k - 1);
      FoundNext(p, start, times, k - 1);
      TokensInRange(p, start, times, k - 1);
      OneRefill(p, times[k], times[k - 1]);
    }
  }

  lemma OneRefill(p: Policy, now: real, since: real)
    requires ValidPolicy(p) && now - since >= 1.0 / p.refillPerSec as real
    ensures Accrued(p, Elapsed(now, since)) >= 1.0
  {
    var rate := p.refillPerSec as real;
    var gap := 1.0 / rate;
    assert gap * rate == 1.0;
    AccruedGrows(p, gap, now - since);
  }

  /** A policy of one call and four refills a second admits calls a quarter of a
      second apart, and refuses them when they are closer. */
  lemma QuarterSecond()
    ensures
      var p := Policy(1, 4);
      Admitted(p, 0.0, [0.0, 0.25], 1) && !Admitted(p, 0.0, [0.0, 0.2], 1)
  {
    var p := Policy(1, 4);
    var a, b := [0.0, 0.25], [0.0, 0.2];
    assert StateAt(p, 0.0, a, 0) == State(1.0, 0.0) && StateAt(p, 0.0, a, 1) == State(0.0, 0.0);
    assert StateAt(p, 0.0, b, 0) == State(1.0, 0.0) && StateAt(p, 0.0, b, 1) == State(0.0, 0.0);
  }

  /** A burst on a full bucket is admitted up to the capacity and no further. */
  lemma {:induction false} BurstIsCapped(p: Policy, start: real, times: seq<real>, n: nat)
    requires ValidPolicy(p) && n <= |times|
    requires forall k :: 0 <= k < |times| ==> times[k] == times[0]
    ensures Count(p, start, times, 0, n) == if n < p.capacity then n else p.capacity
  {
    hide Admitted, Accrued, Travel, AllowsSpan;
    if n > 0 {
      var j := n - 1;
      BurstIsCapped(p, start, times, j);
      SpanPolicy(p, start, times, j);
      forall i | 0 <= i <= j
        ensures AllowsSpan(p, start, times, i, j) <==> Count(p, start, times, i, j) + 1 <= p.capacity
        ensures Count(p, start, times, i, j) <= Count(p, start, times, 0, j)
      {
        AllowsAtOnce(p, start, times, i, j);
        CountShrinks(p, start, times, i, j);
      }
      assert Admitted(p, start, times, j) <==> Count(p, start, times, 0, j) + 1 <= p.capacity;
    }
  }

  /** With no time in the window, the burst is all there is. */
  lemma AllowsAtOnce(p: Policy, start: real, times: seq<real>, i: nat, j: nat)
    requires i <= j < |times| && times[i] == times[j]
    ensures AllowsSpan(p, start, times, i, j) <==> Count(p, start, times, i, j) + 1 <= p.capacity
  {
    var span := times[j] - times[i];
    assert span == 0.0;
    assert p.refillPerSec as real * span == 0.0;
  }

  lemma {:induction false} CountShrinks(p: Policy, start: real, times: seq<real>, i: nat, j: nat)
    requires i <= j <= |times|
    ensures Count(p, start, times, i, j) <= Count(p, start, times, 0, j)
  {
    hide Admitted;
    if i < j { CountShrinks(p, start, times, i, j - 1); }
  }

  /** When the clock steps back, a span can be refilled twice: two calls at second
      10 are admitted by a bucket of one. */
  lemma BackwardsClockOveradmits()
    ensures
      var times := [0.0, 10.0, 0.0, 10.0];
      Count(Policy(1, 1), 0.0, times, 1, 4) == 2 && times[3] - times[1] == 0.0
  {
    var p, times := Policy(1, 1), [0.0, 10.0, 0.0, 10.0];
    assert StateAt(p, 0.0, times, 0) == State(1.0, 0.0);
    assert StateAt(p, 0.0, times, 1) == State(0.0, 0.0);
    assert StateAt(p, 0.0, times, 2) == State(0.0, 10.0);
    assert StateAt(p, 0.0, times, 3) == State(0.0, 0.0);
    assert Admitted(p, 0.0, times, 1) && !Admitted(p, 0.0, times, 2) && Admitted(p, 0.0, times, 3);
    assert Count(p, 0.0, times, 1, 2) == 1 && Count(p, 0.0, times, 1, 3) == 1;
  }
}
