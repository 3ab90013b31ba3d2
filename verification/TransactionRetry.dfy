/** The retry loop around database transactions, over every sequence of outcomes. */
module TransactionRetry {
  datatype Driver = CockroachDb | Postgres

  // A failure: a known request error with its code, whether its message says the transaction was already
  // closed, and its SQLSTATE; or anything else.
  datatype Failure = Known(code: string, saysClosed: bool, sqlState: string) | Unknown

  // A transaction result that is falsy in JavaScript is still a success.
  datatype TryResult = Success(truthy: bool) | Failed(error: Failure)

  datatype Options = Options(
    driver: Driver, retriesAllowed: int, baseRetryDelayMs: real, maxRetryDelayMs: real, timeout: real, maxTimeout: real)

  datatype Verdict = No | Retry | IncreaseTimeout

  const TRANSACTION_ERROR := "P2028"
  const CODES_TO_RETRY := {"P2034", "P1017", "P2028"}

  function IsRetryAllowed(r: TryResult, driver: Driver): Verdict {
    match r
    case Success(_) => No
    case Failed(Unknown) => No
    case Failed(Known(code, saysClosed, sqlState)) =>
      if code == TRANSACTION_ERROR && saysClosed then IncreaseTimeout
      else if code in CODES_TO_RETRY then Retry
      else if driver == CockroachDb && sqlState == "40001" then Retry
      else No
  }

  function Min(a: real, b: real): real {
    if a <= b then a else b
  }

  function Pow2(n: nat): real {
    if n == 0 then 1.0 else 2.0 * Pow2(n - 1)
  }

  /** The wait before the given retry (1 = first): the base doubled each time, capped. */
  function CalculateRetryDelay(retries: nat, base: real, maxDelay: real): real
    requires retries > 0
  {
    Min(Pow2(retries - 1) * base, maxDelay)
  }

  /** Closed-transaction failures among the first `n` tries. */
  function ClosedCount(outcomes: nat -> TryResult, driver: Driver, n: nat): nat {
    if n == 0 then 0
    else ClosedCount(outcomes, driver, n - 1) + if IsRetryAllowed(outcomes(n - 1), driver) == IncreaseTimeout then 1 else 0
  }

  /** The timeout after `k` closed-transaction failures, one doubling at a time. */
  function IteratedTimeout(o: Options, k: nat): real {
    if k == 0 then o.timeout else Min(IteratedTimeout(o, k - 1) * 2.0, o.maxTimeout)
  }

  /** The sleeps before the first `r` retries. */
  function WaitList(o: Options, r: nat): (waits: seq<real>)
    ensures |waits| == r
  {
    if r == 0 then [] else WaitList(o, r - 1) + [CalculateRetryDelay(r, o.baseRetryDelayMs, o.maxRetryDelayMs)]
  }

  /** The timeouts of the first `n` tries. */
  function TimeoutList(o: Options, outcomes: nat -> TryResult, n: nat): (timeouts: seq<real>)
    ensures |timeouts| == n
  {
    if n == 0 then []
    else TimeoutList(o, outcomes, n - 1) + [IteratedTimeout(o, ClosedCount(outcomes, o.driver, n - 1))]
  }

  predicate AllRetried(outcomes: nat -> TryResult, driver: Driver, n: nat) {
    forall i :: 0 <= i < n ==> IsRetryAllowed(outcomes(i), driver) != No
  }

  /** Tries the options allow: the first one always. */
  function MaxTries(o: Options): nat {
    if o.retriesAllowed > 0 then o.retriesAllowed + 1 else 1
  }

  // ---------- the policy, in the error codes' words ----------

  /** A failed try that may be retried. */
  predicate Retriable(r: TryResult, driver: Driver) {
    && r.Failed? && r.error.Known?
    && (r.error.code in {"P2034", "P1017", "P2028"} || (driver == CockroachDb && r.error.sqlState == "40001"))
  }

  /** The transaction was closed before it could finish: the next try gets more time. */
  predicate RanOutOfTime(r: TryResult) {
    r.Failed? && r.error.Known? && r.error.code == "P2028" && r.error.saysClosed
  }

  lemma VerdictIs(r: TryResult, driver: Driver)
    ensures IsRetryAllowed(r, driver) != No <==> Retriable(r, driver)
    ensures IsRetryAllowed(r, driver) == IncreaseTimeout <==> RanOutOfTime(r)
  {
  }

  /** Each wait doubles the one before, up to the cap. */
  ghost predicate Doubling(o: Options, waits: seq<real>) {
    && (waits != [] ==> waits[0] == if o.baseRetryDelayMs <= o.maxRetryDelayMs then o.baseRetryDelayMs else o.maxRetryDelayMs)
    && forall i :: 0 <= i < |waits| - 1 ==>
         waits[i + 1] == if 2.0 * waits[i] <= o.maxRetryDelayMs then 2.0 * waits[i] else o.maxRetryDelayMs
  }

  /** The first try gets the configured time; a try after one that ran out of time twice as much, up to the cap. */
  ghost predicate Extending(o: Options, outcomes: nat -> TryResult, timeouts: seq<real>) {
    && (timeouts != [] ==> timeouts[0] == o.timeout)
    && forall i :: 0 <= i < |timeouts| - 1 ==>
         timeouts[i + 1] ==
         if !RanOutOfTime(outcomes(i)) then timeouts[i]
         else if timeouts[i] * 2.0 <= o.maxTimeout then timeouts[i] * 2.0 else o.maxTimeout
  }

  lemma {:induction false} WaitsDouble(o: Options, r: nat)
    requires o.maxRetryDelayMs >= 0.0
    ensures Doubling(o, WaitList(o, r))
  {
    hide CalculateRetryDelay;
    if r > 0 {
      WaitsDouble(o, r - 1);
      DelayDoubles(r, o.baseRetryDelayMs, o.maxRetryDelayMs);
      var waits := WaitList(o, r);
      assert waits[..r - 1] == WaitList(o, r - 1);
      assert waits[r - 1] == CalculateRetryDelay(r, o.baseRetryDelayMs, o.maxRetryDelayMs);
      if r > 1 {
        assert waits[r - 2] == WaitList(o, r - 1)[r - 2] == CalculateRetryDelay(r - 1, o.baseRetryDelayMs, o.maxRetryDelayMs);
      }
      forall i | 0 <= i < r - 1
        ensures waits[i + 1] == if 2.0 * waits[i] <= o.maxRetryDelayMs then 2.0 * waits[i] else o.maxRetryDelayMs
      {
        if i < r - 2 { assert waits[i] == WaitList(o, r - 1)[i] && waits[i + 1] == WaitList(o, r - 1)[i + 1]; }
      }
    }
  }

  lemma DelayDoubles(retries: nat, base: real, maxDelay: real)
    requires retries > 0 && maxDelay >= 0.0
    ensures retries == 1 ==> CalculateRetryDelay(1, base, maxDelay) == if base <= maxDelay then base else maxDelay
    ensures retries > 1 ==>
              var before := CalculateRetryDelay(retries - 1, base, maxDelay);
              CalculateRetryDelay(retries, base, maxDelay) == if 2.0 * before <= maxDelay then 2.0 * before else maxDelay
  {
    if retries > 1 { assert Pow2(retries - 1) * base == 2.0 * (Pow2(retries - 2) * base); }
  }

  lemma {:induction false} TimeoutsExtend(o: Options, outcomes: nat -> TryResult, n: nat)
    ensures Extending(o, outcomes, TimeoutList(o, outcomes, n))
  {
    hide IsRetryAllowed;
    if n > 0 {
      TimeoutsExtend(o, outcomes, n - 1);
      var timeouts := TimeoutList(o, outcomes, n);
      var before := TimeoutList(o, outcomes, n - 1);
      assert timeouts == before + [timeouts[n - 1]];
      if n > 1 {
        VerdictIs(outcomes(n - 2), o.driver);
        assert before[n - 2] == IteratedTimeout(o, ClosedCount(outcomes, o.driver, n - 2));
      }
      assert forall i :: 0 <= i < n - 1 ==> timeouts[i] == before[i];
    }
  }

  /**
   * The loop. Try `i` (from 0) has outcome `outcomes(i)`; `waits` and `timeouts` record the sleep before
   * each retry and the timeout each try ran with.
   */
  method PrismaTransaction(o: Options, outcomes: nat -> TryResult)
    returns (result: TryResult, tries: nat, waits: seq<real>, timeouts: seq<real>)
    ensures 1 <= tries <= MaxTries(o)
    ensures result == outcomes(tries - 1)
    ensures AllRetried(outcomes, o.driver, tries - 1)
    ensures forall i :: 0 <= i < tries - 1 ==> Retriable(outcomes(i), o.driver)
    ensures tries < (if o.retriesAllowed > 0 then o.retriesAllowed + 1 else 1) ==> !Retriable(result, o.driver)
    ensures |waits| == tries - 1 && (o.maxRetryDelayMs >= 0.0 ==> Doubling(o, waits))
    ensures |timeouts| == tries && Extending(o, outcomes, timeouts)
    ensures IsRetryAllowed(result, o.driver) != No ==> tries == MaxTries(o)
    ensures waits == WaitList(o, tries - 1)
    ensures timeouts == TimeoutList(o, outcomes, tries)
  {
    hide IsRetryAllowed, CalculateRetryDelay, Min, Doubling, Extending;
    var timeout := o.timeout;
    var retries := 0;
    waits, timeouts := [], [];
    result := outcomes(0);
    while true
      invariant 0 <= retries < MaxTries(o)
      invariant AllRetried(outcomes, o.driver, retries)
      invariant forall i :: 0 <= i < retries ==> Retriable(outcomes(i), o.driver)
      invariant waits == WaitList(o, if retries == 0 then 0 else retries - 1)
      invariant timeouts == TimeoutList(o, outcomes, retries)
      invariant timeout == IteratedTimeout(o, ClosedCount(outcomes, o.driver, retries))
      decreases MaxTries(o) - retries
    {
      if retries > 0 {
        waits := waits + [CalculateRetryDelay(retries, o.baseRetryDelayMs, o.maxRetryDelayMs)];
      }
      result := outcomes(retries);
      timeouts := timeouts + [timeout];
      tries := retries + 1;
      VerdictIs(result, o.driver);
      TimeoutsExtend(o, outcomes, tries);
      if o.maxRetryDelayMs >= 0.0 { WaitsDouble(o, tries - 1); }
      if result.Success? && result.truthy { break; }
      var retryAllowed := IsRetryAllowed(result, o.driver);
      if retryAllowed == No { break; }
      if retryAllowed == IncreaseTimeout {
        timeout := Min(timeout * 2.0, o.maxTimeout);
      }
      retries := retries + 1;
      if !(retries <= o.retriesAllowed) { break; }
    }
  }

  function Doubled(t: real, k: nat): real {
    t * Pow2(k)
  }

  lemma DoubledStep(t: real, k: nat)
    ensures Doubled(t, 0) == t
    ensures Doubled(t, k + 1) == Doubled(t, k) * 2.0
  {
    assert t * (2.0 * Pow2(k)) == t * Pow2(k) * 2.0;
  }

  /** After k >= 1 closed-transaction failures the timeout is min(t * 2^k, maxTimeout). */
  lemma {:induction false} TimeoutClosedForm(o: Options, k: nat)
    requires k > 0 && o.maxTimeout >= 0.0
    ensures IteratedTimeout(o, k) == Min(Doubled(o.timeout, k), o.maxTimeout)
  {
    hide Doubled;
    DoubledStep(o.timeout, k - 1);
    if k == 1 {
      assert IteratedTimeout(o, 1) == Min(IteratedTimeout(o, 0) * 2.0, o.maxTimeout);
    } else {
      TimeoutClosedForm(o, k - 1);
    }
  }

  function Sum(waits: seq<real>): real {
    if waits == [] then 0.0 else Sum(waits[..|waits| - 1]) + waits[|waits| - 1]
  }

  function GeometricBound(base: real, r: nat): real {
    base * (Pow2(r) - 1.0)
  }

  function LinearBound(maxDelay: real, r: nat): real {
    r as real * maxDelay
  }

  lemma BoundsStep(base: real, maxDelay: real, r: nat)
    ensures GeometricBound(base, 0) == 0.0 && LinearBound(maxDelay, 0) == 0.0
    ensures GeometricBound(base, r + 1) == GeometricBound(base, r) + Doubled(base, r)
    ensures LinearBound(maxDelay, r + 1) == LinearBound(maxDelay, r) + maxDelay
  {
    hide CalculateRetryDelay;
    assert base * (2.0 * Pow2(r) - 1.0) == base * (Pow2(r) - 1.0) + Pow2(r) * base;
    assert (r + 1) as real == r as real + 1.0;
    assert (r as real + 1.0) * maxDelay == r as real * maxDelay + maxDelay;
  }

  lemma LastWait(o: Options, r: nat)
    requires r > 0
    ensures Sum(WaitList(o, r)) == Sum(WaitList(o, r - 1)) + CalculateRetryDelay(r, o.baseRetryDelayMs, o.maxRetryDelayMs)
  {
    hide CalculateRetryDelay;
    var waits := WaitList(o, r);
    assert waits[..r - 1] == WaitList(o, r - 1);
    assert waits[r - 1] == CalculateRetryDelay(r, o.baseRetryDelayMs, o.maxRetryDelayMs);
  }

  lemma DelayBounds(retries: nat, base: real, maxDelay: real)
    requires retries > 0
    ensures CalculateRetryDelay(retries, base, maxDelay) <= Doubled(base, retries - 1)
    ensures CalculateRetryDelay(retries, base, maxDelay) <= maxDelay
  {
    assert Pow2(retries - 1) * base == base * Pow2(retries - 1);
  }

  /** The sleeps of `r` retries add up to at most base * (2^r - 1) and at most r * maxDelay. */
  lemma {:induction false} TotalWait(o: Options, r: nat)
    ensures Sum(WaitList(o, r)) <= GeometricBound(o.baseRetryDelayMs, r)
    ensures Sum(WaitList(o, r)) <= LinearBound(o.maxRetryDelayMs, r)
  {
    hide GeometricBound, LinearBound, Doubled, CalculateRetryDelay;
    if r == 0 {
      BoundsStep(o.baseRetryDelayMs, o.maxRetryDelayMs, 0);
    } else {
      TotalWait(o, r - 1);
      BoundsStep(o.baseRetryDelayMs, o.maxRetryDelayMs, r - 1);
      LastWait(o, r);
      DelayBounds(r, o.baseRetryDelayMs, o.maxRetryDelayMs);
    }
  }
}
