/** The exponential backoff polling strategy: its attempt loop with hooks, and its delays over the reals. */
module Polling {
  import opened JsText

  // `jitterFactor` None means the default 0.2.
  datatype Config = Config(
    initialDelayMs: real, maxDelayMs: real, backoffMultiplier: real, maxAttempts: int, jitterFactor: Option<real>)

  datatype Cause = Timeout | Cancelled | InvalidConfig

  datatype PollingError = PollingError(cause: Cause, attemptsMade: nat)

  // ---------- configuration ----------

  function ValidateConfig(c: Config): Option<PollingError> {
    if c.initialDelayMs < 0.0 then Some(PollingError(InvalidConfig, 0))
    else if c.maxDelayMs < 0.0 then Some(PollingError(InvalidConfig, 0))
    else if c.initialDelayMs > c.maxDelayMs then Some(PollingError(InvalidConfig, 0))
    else if c.backoffMultiplier <= 0.0 then Some(PollingError(InvalidConfig, 0))
    else if c.maxAttempts < 1 then Some(PollingError(InvalidConfig, 0))
    else if c.jitterFactor.Some? && (c.jitterFactor.value < 0.0 || c.jitterFactor.value > 1.0) then
      Some(PollingError(InvalidConfig, 0))
    else None
  }

  /** What a configuration must be. */
  predicate IsValid(c: Config) {
    && 0.0 <= c.initialDelayMs <= c.maxDelayMs
    && 0.0 < c.backoffMultiplier
    && 1 <= c.maxAttempts
    && (c.jitterFactor.Some? ==> 0.0 <= c.jitterFactor.value <= 1.0)
  }

  lemma ValidConfigIff(c: Config)
    ensures ValidateConfig(c) == None <==> IsValid(c)
    ensures ValidateConfig(c).Some? ==> ValidateConfig(c).value == PollingError(InvalidConfig, 0)
  {
  }

  // ---------- delays ----------

  function Power(r: real, n: nat): real {
    if n == 0 then 1.0 else r * Power(r, n - 1)
  }

  function Min(a: real, b: real): real {
    if a <= b then a else b
  }

  function Max(a: real, b: real): real {
    if a >= b then a else b
  }

  /** Math.round: to the nearest integer, halves upwards. */
  function Round(x: real): real {
    (x + 0.5).Floor as real
  }

  function Scaled(delay: real, factor: real): real {
    delay * factor
  }

  function BaseDelay(c: Config, attemptIndex: nat): real {
    Min(Scaled(c.initialDelayMs, Power(c.backoffMultiplier, attemptIndex)), c.maxDelayMs)
  }

  function JitterFactor(c: Config): real {
    if c.jitterFactor.Some? then c.jitterFactor.value else 0.2
  }

  /** `random` is the value Math.random returned. */
  function CalculateDelay(c: Config, attemptIndex: nat, random: real): real {
    var baseDelay := BaseDelay(c, attemptIndex);
    var jitter := Jitter(baseDelay, JitterFactor(c), random);
    Min(c.maxDelayMs, Max(0.0, Round(baseDelay + jitter)))
  }

  function Jitter(baseDelay: real, jitterFactor: real, random: real): real {
    baseDelay * jitterFactor * (random - 0.5)
  }

  /** Half the jitter factor of a delay: how far jitter may move it. */
  function Spread(baseDelay: real, jitterFactor: real): real {
    baseDelay * jitterFactor / 2.0
  }

  lemma {:induction false} PowerIsPositive(r: real, n: nat)
    requires r > 0.0
    ensures Power(r, n) > 0.0
  {
    if n > 0 { PowerIsPositive(r, n - 1); }
  }

  lemma BaseDelayInRange(c: Config, attemptIndex: nat)
    requires ValidateConfig(c) == None
    ensures 0.0 <= BaseDelay(c, attemptIndex) <= c.maxDelayMs
  {
    PowerIsPositive(c.backoffMultiplier, attemptIndex);
  }

  /**
   * For every valid configuration a wait lies within the cap, and within half the jitter factor (plus the
   * rounding) of the un-jittered delay.
   */
  lemma DelayInRange(c: Config, attemptIndex: nat, random: real)
    requires ValidateConfig(c) == None && 0.0 <= random < 1.0
    ensures var d, base := CalculateDelay(c, attemptIndex, random), BaseDelay(c, attemptIndex);
            var spread := Spread(base, JitterFactor(c));
            0.0 <= d <= c.maxDelayMs && base - spread - 0.5 <= d <= base + spread + 0.5
  {
    hide BaseDelay, Round, Jitter, Spread;
    BaseDelayInRange(c, attemptIndex);
    var base, j := BaseDelay(c, attemptIndex), JitterFactor(c);
    JitterBounds(base, j, random);
    RoundAndClamp(base, Jitter(base, j, random), Spread(base, j), c.maxDelayMs);
  }

  lemma JitterBounds(base: real, j: real, random: real)
    requires 0.0 <= base && 0.0 <= j && 0.0 <= random < 1.0
    ensures -Spread(base, j) <= Jitter(base, j, random) <= Spread(base, j)
  {
    ProductIsNonNegative(base, j);
    ScaleBounds(base * j, random - 0.5);
  }

  lemma ProductIsNonNegative(x: real, y: real)
    requires x >= 0.0 && y >= 0.0
    ensures x * y >= 0.0
  {
  }

  lemma ScaleBounds(spread: real, x: real)
    requires spread >= 0.0 && -0.5 <= x <= 0.5
    ensures -(spread / 2.0) <= spread * x <= spread / 2.0
  {
    ProductIsNonNegative(spread, x + 0.5);
    ProductIsNonNegative(spread, 0.5 - x);
  }

  lemma RoundAndClamp(base: real, x: real, s: real, cap: real)
    requires 0.0 <= base <= cap && -s <= x <= s
    ensures var d := Min(cap, Max(0.0, Round(base + x)));
            0.0 <= d <= cap && base - s - 0.5 <= d <= base + s + 0.5
  {
    assert base + x - 0.5 < Round(base + x) <= base + x + 0.5;
  }

  lemma JitterAtZero(base: real, j: real)
    ensures Jitter(base, j, 0.0) == -Spread(base, j)
  {
  }

  lemma ClampedRoundIsPositive(cap: real, x: real)
    requires x >= 0.5 ==> cap > 0.0
    ensures Min(cap, Max(0.0, Round(x))) > 0.0 <==> x >= 0.5
  {
  }

  /**
   * A wait is positive whatever the random number exactly when the jitter cannot pull the un-jittered delay
   * below half a millisecond; otherwise some run does not wait at all.
   */
  lemma DelayIsAlwaysPositiveIff(c: Config, attemptIndex: nat)
    requires ValidateConfig(c) == None
    ensures (forall random :: 0.0 <= random < 1.0 ==> CalculateDelay(c, attemptIndex, random) > 0.0)
            <==> BaseDelay(c, attemptIndex) - Spread(BaseDelay(c, attemptIndex), JitterFactor(c)) >= 0.5
  {
    hide BaseDelay, Round, Jitter, Spread, Min, Max;
    BaseDelayInRange(c, attemptIndex);
    var base, j := BaseDelay(c, attemptIndex), JitterFactor(c);
    JitterAtZero(base, j);
    forall random | 0.0 <= random < 1.0
      ensures CalculateDelay(c, attemptIndex, random) > 0.0 <==> base + Jitter(base, j, random) >= 0.5
      ensures base + Jitter(base, j, random) >= base - Spread(base, j)
    {
      JitterBounds(base, j, random);
      SpreadBelowDelay(base, j);
      ClampedRoundIsPositive(c.maxDelayMs, base + Jitter(base, j, random));
    }
    if base - Spread(base, j) < 0.5 {
      assert !(CalculateDelay(c, attemptIndex, 0.0) > 0.0);
    }
  }

  /** Jitter never moves a delay by more than half of it. */
  lemma SpreadBelowDelay(base: real, j: real)
    requires 0.0 <= base && 0.0 <= j <= 1.0
    ensures 0.0 <= Spread(base, j) <= base / 2.0
  {
    ProductIsNonNegative(base, j);
    ProductIsNonNegative(base, 1.0 - j);
  }

  /** A valid configuration, with a positive initial delay, whose first wait can be 0. */
  lemma DelayCanBeZero()
    ensures var c := Config(0.5, 10.0, 2.0, 3, None);
            ValidateConfig(c) == None && CalculateDelay(c, 0, 0.0) == 0.0
  {
    var c := Config(0.5, 10.0, 2.0, 3, None);
    assert BaseDelay(c, 0) == 0.5;
    assert 0.5 * 0.2 * (0.0 - 0.5) == -0.05;
    assert Round(0.45) == 0.0;
  }

  /**
   * What a wait is: the un-jittered delay moved by a random part of the jitter factor (0.2 by default), rounded
   * to the nearest integer, halves upwards, unless that is above the cap.
   */
  lemma DelayIsNearest(c: Config, attemptIndex: nat, random: real)
    requires ValidateConfig(c) == None && 0.0 <= random < 1.0
    ensures var d, base := CalculateDelay(c, attemptIndex, random), BaseDelay(c, attemptIndex);
            var exact := base + base * (if c.jitterFactor.Some? then c.jitterFactor.value else 0.2) * (random - 0.5);
            || (d == d.Floor as real && exact - 0.5 < d <= exact + 0.5)
            || (d == c.maxDelayMs && c.maxDelayMs <= exact + 0.5)
  {
    hide BaseDelay;
    BaseDelayInRange(c, attemptIndex);
    var base, j := BaseDelay(c, attemptIndex), JitterFactor(c);
    JitterBounds(base, j, random);
    SpreadBelowDelay(base, j);
    JitterFormula(base, j, random);
    hide Jitter, Spread, Round, Min, Max;
    NearestWithin(c.maxDelayMs, base + Jitter(base, j, random));
  }

  lemma JitterFormula(base: real, j: real, random: real)
    ensures Jitter(base, j, random) == base * j * (random - 0.5)
  {
  }

  lemma NearestWithin(cap: real, x: real)
    requires x >= 0.0 && cap >= 0.0
    ensures var d := Min(cap, Max(0.0, Round(x)));
            (d == d.Floor as real && x - 0.5 < d <= x + 0.5) || (d == cap && cap <= x + 0.5)
  {
    var n := (x + 0.5).Floor;
    assert n as real <= x + 0.5 < n as real + 1.0;
    assert (n as real).Floor == n;
  }

  /** The un-jittered delays: the initial one, then each the one before times the multiplier, capped. */
  lemma BaseDelaysMultiply(c: Config, k: nat)
    requires ValidateConfig(c) == None
    ensures BaseDelay(c, 0) == c.initialDelayMs
    ensures BaseDelay(c, k + 1) ==
            if Scaled(BaseDelay(c, k), c.backoffMultiplier) <= c.maxDelayMs then Scaled(BaseDelay(c, k), c.backoffMultiplier)
            else c.maxDelayMs
  {
    hide Scaled, Power;
    var m, p := c.backoffMultiplier, Power(c.backoffMultiplier, k);
    var x := Scaled(c.initialDelayMs, p);
    UncappedDelay(c, 0);
    UncappedDelay(c, k);
    UncappedDelay(c, k + 1);
    PowerIsPositive(m, k);
    ScaledStep(c.initialDelayMs, m, k);
    if x > c.maxDelayMs {
      if m < 1.0 { PowersShrink(m, k); ScaledDown(c.initialDelayMs, p); }
      ScaledUp(x, c.maxDelayMs, m);
    }
  }

  lemma UncappedDelay(c: Config, k: nat)
    ensures Power(c.backoffMultiplier, 0) == 1.0 && Scaled(c.initialDelayMs, 1.0) == c.initialDelayMs
    ensures Power(c.backoffMultiplier, k + 1) == c.backoffMultiplier * Power(c.backoffMultiplier, k)
  {
  }

  lemma ScaledStep(d: real, m: real, k: nat)
    ensures Scaled(d, Power(m, k + 1)) == Scaled(Scaled(d, Power(m, k)), m)
  {
    assert d * (m * Power(m, k)) == d * Power(m, k) * m;
  }

  lemma ScaledDown(d: real, p: real)
    requires d >= 0.0 && 0.0 <= p <= 1.0
    ensures Scaled(d, p) <= d
  {
    ProductIsNonNegative(d, 1.0 - p);
  }

  lemma ScaledUp(x: real, cap: real, m: real)
    requires x > cap >= 0.0 && m >= 1.0
    ensures Scaled(x, m) >= x && Scaled(cap, m) >= cap
  {
    ProductIsNonNegative(x, m - 1.0);
    ProductIsNonNegative(cap, m - 1.0);
  }

  lemma {:induction false} PowersShrink(r: real, n: nat)
    requires 0.0 < r < 1.0
    ensures 0.0 < Power(r, n) <= 1.0
  {
    PowerIsPositive(r, n);
    if n > 0 {
      PowersShrink(r, n - 1);
      ProductIsNonNegative(1.0 - r, Power(r, n - 1));
    }
  }

  /** With a multiplier of at least 1 the un-jittered delays never decrease. */
  lemma BaseDelaysGrow(c: Config, i: nat, j: nat)
    requires ValidateConfig(c) == None && c.backoffMultiplier >= 1.0 && i <= j
    ensures BaseDelay(c, i) <= BaseDelay(c, j)
  {
    PowersGrow(c.backoffMultiplier, i, j);
    assert c.initialDelayMs * (Power(c.backoffMultiplier, j) - Power(c.backoffMultiplier, i)) >= 0.0;
  }

  lemma {:induction false} PowersGrow(r: real, i: nat, j: nat)
    requires r >= 1.0 && i <= j
    ensures 0.0 < Power(r, i) <= Power(r, j)
    decreases j
  {
    PowerIsPositive(r, i);
    if i < j {
      PowersGrow(r, i, j - 1);
      assert (r - 1.0) * Power(r, j - 1) >= 0.0;
    }
  }

  // ---------- the attempt loop ----------

  datatype Poll = Complete | Incomplete | Throws

  // What happens around one attempt: whether the signal is aborted before it, the poll's outcome, the random
  // number of the wait after it, and whether that wait is aborted.
  datatype World = World(
    abortedAtStart: bool, aborted: nat -> bool, poll: nat -> Poll, random: nat -> real, waitAborted: nat -> bool)

  // Calls of pollFn and of the hooks.
  datatype Event =
    | Polled(attempt: nat)
    | OnAttempt(attempt: nat, isComplete: bool)
    | OnWait(attempt: nat, waitMs: real)
    | OnSuccess(totalAttempts: nat)
    | OnFailure(cause: Cause, attemptsMade: nat)

  datatype Ending = Completed(attempt: nat) | Failed(error: PollingError) | PollThrew(attempt: nat)

  class ExponentialBackoffStrategy {
    const config: Config

    constructor (config: Config)
      requires ValidateConfig(config) == None
      ensures this.config == config
    {
      this.config := config;
    }

    /** Creating a strategy: an invalid configuration is rejected before any attempt. */
    static method Create(config: Config) returns (r: Result<ExponentialBackoffStrategy, PollingError>)
      ensures r.Ok? <==> IsValid(config)
      ensures r.Ok? ==> fresh(r.value) && r.value.config == config
      ensures r.Err? ==> r.error == PollingError(InvalidConfig, 0)
    {
      ValidConfigIff(config);
      var invalid := ValidateConfig(config);
      if invalid.Some? { return Err(invalid.value); }
      var strategy := new ExponentialBackoffStrategy(config);
      return Ok(strategy);
    }

    method Execute(w: World) returns (ending: Ending, log: seq<Event>)
      requires ValidateConfig(config) == None
      ensures (ending, log) == Run(config, w)
    {
      hide RunFrom, CalculateDelay, Block;
      log := [];
      var aborted;
      aborted, log := CheckAborted(w.abortedAtStart, 0, log);
      assert w.abortedAtStart ==> log == [OnFailure(Cancelled, 0)];
      if aborted { return Failed(PollingError(Cancelled, 0)), log; }
      var attempt := 1;
      while attempt <= config.maxAttempts
        invariant 1 <= attempt <= config.maxAttempts + 1
        invariant attempt <= config.maxAttempts ==> RunFrom(config, w, 1).0 == RunFrom(config, w, attempt).0
        invariant attempt <= config.maxAttempts ==> RunFrom(config, w, 1).1 == log + RunFrom(config, w, attempt).1
        invariant attempt > config.maxAttempts ==>
                    RunFrom(config, w, 1) ==
                    (Failed(PollingError(Timeout, config.maxAttempts)), log + [OnFailure(Timeout, config.maxAttempts)])
      {
        ghost var before := log;
        RunShape(config, w, attempt);
        aborted, log := CheckAborted(w.aborted(attempt), attempt - 1, log);
        if aborted { return Failed(PollingError(Cancelled, attempt - 1)), log; }
        var result := w.poll(attempt);
        log := log + [Polled(attempt)];
        if result == Throws { return PollThrew(attempt), log; }
        log := log + [OnAttempt(attempt, result == Complete)];
        if result == Complete {
          log := log + [OnSuccess(attempt)];
          assert log == before + [Polled(attempt), OnAttempt(attempt, true), OnSuccess(attempt)];
          return Completed(attempt), log;
        }
        if attempt < config.maxAttempts {
          var waited;
          waited, log := WaitBeforeRetry(attempt, w, log);
          LogOfWait(before, config, w, attempt);
          if !waited { return Failed(PollingError(Cancelled, attempt)), log; }
          LaterEvents(before, Block(config, w, attempt), RunFrom(config, w, attempt + 1).1);
        } else {
          assert log + [OnFailure(Timeout, attempt)] ==
                 before + [Polled(attempt), OnAttempt(attempt, false), OnFailure(Timeout, attempt)];
        }
        attempt := attempt + 1;
      }
      log := log + [OnFailure(Timeout, config.maxAttempts)];
      return Failed(PollingError(Timeout, config.maxAttempts)), log;
    }

    method CheckAborted(signalAborted: bool, attemptsMade: nat, log: seq<Event>) returns (aborted: bool, log': seq<Event>)
      ensures aborted == signalAborted
      ensures log' == if signalAborted then log + [OnFailure(Cancelled, attemptsMade)] else log
    {
      aborted := signalAborted;
      log' := if signalAborted then log + [OnFailure(Cancelled, attemptsMade)] else log;
    }

    method WaitBeforeRetry(attempt: nat, w: World, log: seq<Event>) returns (waited: bool, log': seq<Event>)
      requires attempt > 0
      ensures waited == !w.waitAborted(attempt)
      ensures log' == log + [OnWait(attempt, CalculateDelay(config, attempt - 1, w.random(attempt)))]
                      + (if waited then [] else [OnFailure(Cancelled, attempt)])
    {
      var delayMs := CalculateDelay(config, attempt - 1, w.random(attempt));
      log' := log + [OnWait(attempt, delayMs)];
      waited := !w.waitAborted(attempt);
      if !waited { log' := log' + [OnFailure(Cancelled, attempt)]; }
    }
  }

  /** An incomplete attempt and the wait after it. */
  function Block(c: Config, w: World, n: nat): seq<Event>
    requires n > 0
  {
    [Polled(n), OnAttempt(n, false), OnWait(n, CalculateDelay(c, n - 1, w.random(n)))]
  }

  /** The run from attempt `n` on. */
  function RunFrom(c: Config, w: World, n: nat): (Ending, seq<Event>)
    requires 0 < n <= c.maxAttempts
    decreases c.maxAttempts - n
  {
    if w.aborted(n) then (Failed(PollingError(Cancelled, n - 1)), [OnFailure(Cancelled, n - 1)])
    else if w.poll(n) == Throws then (PollThrew(n), [Polled(n)])
    else if w.poll(n) == Complete then (Completed(n), [Polled(n), OnAttempt(n, true), OnSuccess(n)])
    else if n == c.maxAttempts then
      (Failed(PollingError(Timeout, n)), [Polled(n), OnAttempt(n, false), OnFailure(Timeout, n)])
    else if w.waitAborted(n) then (Failed(PollingError(Cancelled, n)), Block(c, w, n) + [OnFailure(Cancelled, n)])
    else
      var (ending, rest) := RunFrom(c, w, n + 1);
      (ending, Block(c, w, n) + rest)
  }

  /** A whole run. */
  function Run(c: Config, w: World): (Ending, seq<Event>)
    requires c.maxAttempts >= 1
  {
    if w.abortedAtStart then (Failed(PollingError(Cancelled, 0)), [OnFailure(Cancelled, 0)]) else RunFrom(c, w, 1)
  }

  lemma RunShape(c: Config, w: World, n: nat)
    requires 0 < n <= c.maxAttempts
    ensures w.aborted(n) ==> RunFrom(c, w, n) == (Failed(PollingError(Cancelled, n - 1)), [OnFailure(Cancelled, n - 1)])
    ensures !w.aborted(n) && w.poll(n) == Throws ==> RunFrom(c, w, n) == (PollThrew(n), [Polled(n)])
    ensures !w.aborted(n) && w.poll(n) == Complete ==>
              RunFrom(c, w, n) == (Completed(n), [Polled(n), OnAttempt(n, true), OnSuccess(n)])
    ensures !w.aborted(n) && w.poll(n) == Incomplete ==>
              RunFrom(c, w, n) ==
              if n == c.maxAttempts then
                (Failed(PollingError(Timeout, n)), [Polled(n), OnAttempt(n, false), OnFailure(Timeout, n)])
              else if w.waitAborted(n) then
                (Failed(PollingError(Cancelled, n)), Block(c, w, n) + [OnFailure(Cancelled, n)])
              else (RunFrom(c, w, n + 1).0, Block(c, w, n) + RunFrom(c, w, n + 1).1)
  {
  }

  lemma LaterEvents(before: seq<Event>, block: seq<Event>, rest: seq<Event>)
    ensures before + (block + rest) == (before + block) + rest
  {
  }

  lemma LogOfWait(before: seq<Event>, c: Config, w: World, n: nat)
    requires n > 0
    ensures var log := before + [Polled(n)] + [OnAttempt(n, false)] + [OnWait(n, CalculateDelay(c, n - 1, w.random(n)))];
            log + [] == before + Block(c, w, n)
            && log + [OnFailure(Cancelled, n)] == before + (Block(c, w, n) + [OnFailure(Cancelled, n)])
  {
    hide CalculateDelay;
  }

  // ---------- the grammar of hooks ----------

  /** `k` incomplete attempts from attempt `n`, each followed by one wait. */
  function Blocks(c: Config, w: World, n: nat, k: nat): seq<Event>
    requires n > 0
    decreases k
  {
    if k == 0 then [] else Block(c, w, n) + Blocks(c, w, n + 1, k - 1)
  }

  /** How a log may end after the blocks, `n` being the number of the next attempt. */
  predicate IsTail(c: Config, tail: seq<Event>, ending: Ending, n: nat)
    requires n > 0
  {
    || (tail == [OnFailure(Cancelled, n - 1)] && ending == Failed(PollingError(Cancelled, n - 1)))
    || (tail == [Polled(n)] && ending == PollThrew(n) && n <= c.maxAttempts)
    || (tail == [Polled(n), OnAttempt(n, true), OnSuccess(n)] && ending == Completed(n) && n <= c.maxAttempts)
    || (tail == [Polled(n), OnAttempt(n, false), OnFailure(Timeout, n)]
        && ending == Failed(PollingError(Timeout, n)) && n == c.maxAttempts)
  }

  /** Every run is a number of incomplete attempts separated by single waits, and one of four endings. */
  lemma HookGrammar(c: Config, w: World) returns (k: nat, tail: seq<Event>)
    requires c.maxAttempts >= 1
    ensures k < c.maxAttempts
    ensures Run(c, w).1 == Blocks(c, w, 1, k) + tail
    ensures IsTail(c, tail, Run(c, w).0, k + 1)
  {
    if w.abortedAtStart {
      k, tail := 0, Run(c, w).1;
    } else {
      k, tail := GrammarFrom(c, w, 1);
    }
  }

  lemma {:induction false} GrammarFrom(c: Config, w: World, n: nat) returns (k: nat, tail: seq<Event>)
    requires 0 < n <= c.maxAttempts
    ensures n + k <= c.maxAttempts
    ensures RunFrom(c, w, n).1 == Blocks(c, w, n, k) + tail
    ensures IsTail(c, tail, RunFrom(c, w, n).0, n + k)
    decreases c.maxAttempts - n
  {
    if w.aborted(n) || w.poll(n) != Incomplete || n == c.maxAttempts {
      k, tail := 0, RunFrom(c, w, n).1;
    } else if w.waitAborted(n) {
      k, tail := 1, [OnFailure(Cancelled, n)];
      assert Blocks(c, w, n, 1) == Block(c, w, n) + Blocks(c, w, n + 1, 0);
    } else {
      k, tail := GrammarFrom(c, w, n + 1);
      assert Block(c, w, n) + (Blocks(c, w, n + 1, k) + tail) == Blocks(c, w, n, k + 1) + tail;
      k := k + 1;
    }
  }

  /** The events of each incomplete attempt, in their places: the poll, its hook, and the wait before the next. */
  lemma {:induction false} BlocksAt(c: Config, w: World, n: nat, k: nat, i: nat)
    requires n > 0 && i < k
    ensures |Blocks(c, w, n, k)| == 3 * k
    ensures Blocks(c, w, n, k)[3 * i] == Polled(n + i)
    ensures Blocks(c, w, n, k)[3 * i + 1] == OnAttempt(n + i, false)
    ensures Blocks(c, w, n, k)[3 * i + 2] == OnWait(n + i, CalculateDelay(c, n + i - 1, w.random(n + i)))
    decreases k
  {
    hide CalculateDelay;
    var rest := Blocks(c, w, n + 1, k - 1);
    assert Blocks(c, w, n, k) == Block(c, w, n) + rest;
    if k == 1 {
      assert rest == [];
    } else {
      BlocksAt(c, w, n + 1, k - 1, if i == 0 then 0 else i - 1);
      if i > 0 {
        assert 3 * i - 3 == 3 * (i - 1);
      }
    }
  }

  /** Attempt `k` is polled: nothing before it ended the run. */
  ghost predicate Reaches(w: World, k: nat) {
    && !w.abortedAtStart
    && (forall i :: 1 <= i < k ==> !w.aborted(i) && w.poll(i) == Incomplete && !w.waitAborted(i))
    && !w.aborted(k)
  }

  /** How a run ends, and with which attempt, from what happens around its attempts. */
  lemma RunEndsAt(c: Config, w: World, k: nat)
    requires 1 <= k <= c.maxAttempts
    ensures Run(c, w).0 == Completed(k) <==> Reaches(w, k) && w.poll(k) == Complete
    ensures Run(c, w).0 == PollThrew(k) <==> Reaches(w, k) && w.poll(k) == Throws
    ensures Run(c, w).0 == Failed(PollingError(Timeout, k)) <==>
            Reaches(w, k) && w.poll(k) == Incomplete && k == c.maxAttempts
    ensures Run(c, w).0 == Failed(PollingError(Cancelled, k)) <==>
            && Reaches(w, k) && w.poll(k) == Incomplete && k < c.maxAttempts
            && (w.waitAborted(k) || w.aborted(k + 1))
    ensures Run(c, w).0 == Failed(PollingError(Cancelled, 0)) <==> w.abortedAtStart || w.aborted(1)
  {
    if !w.abortedAtStart { RunFromEndsAt(c, w, 1, k); }
  }

  ghost predicate ReachesFrom(w: World, n: nat, k: nat) {
    && (forall i :: n <= i < k ==> !w.aborted(i) && w.poll(i) == Incomplete && !w.waitAborted(i))
    && !w.aborted(k)
  }

  lemma {:induction false} RunFromEndsAt(c: Config, w: World, n: nat, k: nat)
    requires 1 <= n <= k <= c.maxAttempts
    ensures var ending := RunFrom(c, w, n).0;
            && (ending == Completed(k) <==> ReachesFrom(w, n, k) && w.poll(k) == Complete)
            && (ending == PollThrew(k) <==> ReachesFrom(w, n, k) && w.poll(k) == Throws)
            && (ending == Failed(PollingError(Timeout, k)) <==>
                ReachesFrom(w, n, k) && w.poll(k) == Incomplete && k == c.maxAttempts)
            && (ending == Failed(PollingError(Cancelled, k)) <==>
                && ReachesFrom(w, n, k) && w.poll(k) == Incomplete && k < c.maxAttempts
                && (w.waitAborted(k) || w.aborted(k + 1)))
            && (ending == Failed(PollingError(Cancelled, n - 1)) <==> w.aborted(n))
    decreases k - n
  {
    hide RunFrom, Block, CalculateDelay;
    RunShape(c, w, n);
    EndingIsLater(c, w, n);
    if n < c.maxAttempts { EndingIsLater(c, w, n + 1); RunShape(c, w, n + 1); }
    if n < k {
      RunFromEndsAt(c, w, n + 1, k);
      assert ReachesFrom(w, n, k) <==>
             !w.aborted(n) && w.poll(n) == Incomplete && !w.waitAborted(n) && ReachesFrom(w, n + 1, k);
    }
  }

  function EndedAt(ending: Ending): nat {
    match ending case Completed(k) => k case PollThrew(k) => k case Failed(error) => error.attemptsMade
  }

  lemma {:induction false} EndingIsLater(c: Config, w: World, n: nat)
    requires 1 <= n <= c.maxAttempts
    ensures var ending := RunFrom(c, w, n).0;
            EndedAt(ending) >= if ending.Failed? && ending.error.cause == Cancelled then n - 1 else n
    ensures RunFrom(c, w, n).0.Failed? && RunFrom(c, w, n).0.error.attemptsMade == n - 1 ==> w.aborted(n)
    decreases c.maxAttempts - n
  {
    hide RunFrom, Block, CalculateDelay;
    RunShape(c, w, n);
    if n < c.maxAttempts { EndingIsLater(c, w, n + 1); }
  }

  function CountPolls(log: seq<Event>): nat {
    if log == [] then 0 else (if log[0].Polled? then 1 else 0) + CountPolls(log[1..])
  }

  function CountTerminal(log: seq<Event>): nat {
    if log == [] then 0 else (if log[0].OnSuccess? || log[0].OnFailure? then 1 else 0) + CountTerminal(log[1..])
  }

  lemma {:induction false} CountConcat(a: seq<Event>, b: seq<Event>)
    ensures CountPolls(a + b) == CountPolls(a) + CountPolls(b)
    ensures CountTerminal(a + b) == CountTerminal(a) + CountTerminal(b)
  {
    if a == [] {
      assert a + b == b;
    } else {
      assert (a + b)[1..] == a[1..] + b;
      CountConcat(a[1..], b);
    }
  }

  lemma {:induction false} CountBlocks(c: Config, w: World, n: nat, k: nat)
    requires n > 0
    ensures CountPolls(Blocks(c, w, n, k)) == k && CountTerminal(Blocks(c, w, n, k)) == 0
    decreases k
  {
    if k > 0 {
      CountBlocks(c, w, n + 1, k - 1);
      CountConcat(Block(c, w, n), Blocks(c, w, n + 1, k - 1));
      CountThree(Polled(n), OnAttempt(n, false), Block(c, w, n)[2]);
    }
  }

  lemma CountThree(a: Event, b: Event, d: Event)
    ensures CountPolls([a, b, d]) == (if a.Polled? then 1 else 0) + (if b.Polled? then 1 else 0) + (if d.Polled? then 1 else 0)
    ensures CountTerminal([a, b, d]) == CountTerminal([a]) + CountTerminal([b]) + CountTerminal([d])
    ensures CountTerminal([a]) == if a.OnSuccess? || a.OnFailure? then 1 else 0
    ensures CountTerminal([b]) == if b.OnSuccess? || b.OnFailure? then 1 else 0
    ensures CountTerminal([d]) == if d.OnSuccess? || d.OnFailure? then 1 else 0
  {
    assert [a][1..] == [] && [b][1..] == [] && [d][1..] == [];
    assert [a, b, d] == [a] + ([b] + [d]);
    CountConcat([a], [b] + [d]);
    CountConcat([b], [d]);
  }

  /**
   * pollFn is called at most maxAttempts times. Unless it throws, exactly one of onSuccess and onFailure is
   * called, once, as the last event, and it reports the number of pollFn calls; if it throws, neither is.
   * The last poll threw or completed exactly when the run ends so.
   */
  lemma OneTerminalHook(c: Config, w: World)
    requires c.maxAttempts >= 1
    ensures var (ending, log) := Run(c, w);
            && log != []
            && CountPolls(log) <= c.maxAttempts
            && (ending.PollThrew? ==> CountTerminal(log) == 0 && ending.attempt == CountPolls(log) && w.poll(ending.attempt) == Throws)
            && (ending.Completed? ==> CountTerminal(log) == 1 && Last(log) == OnSuccess(CountPolls(log))
                                      && ending.attempt == CountPolls(log) && w.poll(ending.attempt) == Complete)
            && (ending.Failed? ==> CountTerminal(log) == 1 && Last(log) == OnFailure(ending.error.cause, CountPolls(log))
                                   && ending.error.attemptsMade == CountPolls(log)
                                   && (CountPolls(log) > 0 ==> w.poll(CountPolls(log)) == Incomplete))
  {
    var k, tail := HookGrammar(c, w);
    CountBlocks(c, w, 1, k);
    CountConcat(Blocks(c, w, 1, k), tail);
    if |tail| == 3 { CountThree(tail[0], tail[1], tail[2]); }
    else { assert tail[1..] == []; assert CountPolls(tail) == if tail[0].Polled? then 1 else 0; }
    if !w.abortedAtStart { EndingFollowsLastPoll(c, w, 1); }
  }

  /** A run ends as its last poll said: it threw, it completed, or it was incomplete. */
  lemma {:induction false} EndingFollowsLastPoll(c: Config, w: World, n: nat)
    requires 0 < n <= c.maxAttempts
    ensures var ending := RunFrom(c, w, n).0;
            && (ending.PollThrew? ==> w.poll(ending.attempt) == Throws)
            && (ending.Completed? ==> w.poll(ending.attempt) == Complete)
            && (ending.Failed? ==> ending.error.attemptsMade >= n - 1)
            && (ending.Failed? && ending.error.attemptsMade >= n ==> w.poll(ending.error.attemptsMade) == Incomplete)
    decreases c.maxAttempts - n
  {
    if n < c.maxAttempts { EndingFollowsLastPoll(c, w, n + 1); }
  }
}
