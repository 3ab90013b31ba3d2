/** The retry loop of the backend HTTP client, over every sequence of attempt outcomes. */
module HttpRetry {
  import opened JsText

  // `delayOf` is the configured delay function; None means that it throws.
  datatype Config = Config(
    maxRetries: int,
    statusCodes: seq<int>,
    delayOf: nat -> Option<real>,
    maxDelay: real,
    maxJitter: real,
    respectRetryAfter: bool,
    retryOnNetworkError: bool,
    retryOnTimeout: bool)

  // `retryAfter` is the parsed header, None when absent or invalid.
  datatype Response = Response(statusCode: int, retryAfter: Option<real>)

  datatype ErrorKind = TimeoutError | OtherError | DelayThrew | WaitAborted | DumpFailed

  datatype Attempt = Resolved(response: Response) | Rejected(error: ErrorKind)

  // What rejects first while the loop drains the body and waits, if anything does.
  datatype Pause = Undisturbed | WaitRejects | DumpRejects

  // What the world does around one attempt: its outcome, whether the signal is aborted when it fails, the
  // random factor of the jitter, and how the pause after it goes.
  datatype Round = Round(attempt: Attempt, aborted: bool, random: real, pause: Pause)

  type World = nat -> Round

  datatype Event =
    | Called(n: nat)
    | AskedDelay(n: nat)
    | Dumped(n: nat)
    | Waited(n: nat, ms: real)

  datatype Outcome = Returned(n: nat) | Threw(error: ErrorKind)

  function ApplyJitterAndCap(delay: real, random: real, c: Config): real {
    var d := delay + random * c.maxJitter;
    if d <= c.maxDelay then d else c.maxDelay
  }

  /** Whether the delay for a response comes from its Retry-After header. */
  predicate UsesHeader(c: Config, r: Response) {
    c.respectRetryAfter && r.retryAfter.Some?
  }

  predicate IsRetryable(c: Config, a: Attempt) {
    match a
    case Resolved(r) => r.statusCode in c.statusCodes
    case Rejected(e) => if e == TimeoutError then c.retryOnTimeout else c.retryOnNetworkError
  }

  /** Attempts are numbered from 1; the last one is reached when the retries are used up. */
  predicate IsLast(c: Config, n: nat) {
    n - 1 >= c.maxRetries
  }

  /** Whether attempt `n` ends the loop, returning or rethrowing. */
  predicate Stops(c: Config, world: World, n: nat) {
    var round := world(n);
    IsLast(c, n) || !IsRetryable(c, round.attempt) || (round.attempt.Rejected? && round.aborted)
  }

  /** The retry loop. */
  method WithRetry(c: Config, world: World) returns (outcome: Outcome, log: seq<Event>)
    ensures Run(c, world, 1) == (outcome, log)
  {
    hide Run, Head, DelayAfter, IsRetryable;
    log := [];
    var retryNumber := 0;
    while true
      invariant 0 <= retryNumber
      invariant Run(c, world, 1).0 == Run(c, world, retryNumber + 1).0
      invariant Run(c, world, 1).1 == log + Run(c, world, retryNumber + 1).1
      decreases if retryNumber <= c.maxRetries then c.maxRetries - retryNumber + 1 else 0
    {
      var isLastAttempt := retryNumber >= c.maxRetries;
      retryNumber := retryNumber + 1;
      RunShape(c, world, retryNumber);
      var ended, events := OneAttempt(c, world, retryNumber, isLastAttempt);
      log := log + events;
      if ended.Some? { return ended.value, log; }
    }
  }

  /** The body of the loop: None when it continues with the next attempt. */
  method OneAttempt(c: Config, world: World, n: nat, isLastAttempt: bool) returns (ended: Option<Outcome>, log: seq<Event>)
    requires n > 0 && isLastAttempt == IsLast(c, n)
    ensures ended.None? <==> GoesOn(c, world, n)
    ensures ended.Some? ==> Run(c, world, n) == (ended.value, log)
    ensures ended.None? ==> log == Head(c, world, n)
  {
    var round := world(n);
    log := [Called(n)];
    var delay;
    match round.attempt {
      case Rejected(e) =>
        if isLastAttempt || round.aborted { return Some(Threw(e)), log; }
        if (if e == TimeoutError then !c.retryOnTimeout else !c.retryOnNetworkError) { return Some(Threw(e)), log; }
        log := log + [AskedDelay(n)];
        var configured := c.delayOf(n);
        if configured.None? {
          assert log == Head(c, world, n);
          return Some(Threw(DelayThrew)), log;
        }
        delay := ApplyJitterAndCap(configured.value, round.random, c);
      case Resolved(response) =>
        if isLastAttempt || response.statusCode !in c.statusCodes { return Some(Returned(n)), log; }
        if UsesHeader(c, response) {
          delay := ApplyJitterAndCap(response.retryAfter.value, round.random, c);
        } else {
          log := log + [AskedDelay(n)];
          var configured := c.delayOf(n);
          if configured.None? {
            assert log == Head(c, world, n);
            return Some(Threw(DelayThrew)), log;
          }
          delay := ApplyJitterAndCap(configured.value, round.random, c);
        }
        log := log + [Dumped(n)];
    }
    if delay > 0.0 {
      log := log + [Waited(n, delay)];
      assert log == Head(c, world, n);
      if round.pause == WaitRejects { return Some(Threw(WaitAborted)), log; }
    }
    assert log == Head(c, world, n);
    if round.attempt.Resolved? && round.pause == DumpRejects { return Some(Threw(DumpFailed)), log; }
    return None, log;
  }

  /** The delay chosen after attempt `n`, None when the delay function is asked and throws. */
  function DelayAfter(c: Config, world: World, n: nat): Option<real> {
    var round := world(n);
    if round.attempt.Resolved? && UsesHeader(c, round.attempt.response) then
      Some(ApplyJitterAndCap(round.attempt.response.retryAfter.value, round.random, c))
    else
      match c.delayOf(n) case None => None case Some(d) => Some(ApplyJitterAndCap(d, round.random, c))
  }

  function Asks(c: Config, world: World, n: nat): bool {
    !(world(n).attempt.Resolved? && UsesHeader(c, world(n).attempt.response))
  }

  /** What one attempt that does not stop the loop contributes to the log. */
  function Head(c: Config, world: World, n: nat): seq<Event> {
    [Called(n)]
    + (if Asks(c, world, n) then [AskedDelay(n)] else [])
    + match DelayAfter(c, world, n)
      case None => []
      case Some(delay) =>
        (if world(n).attempt.Resolved? then [Dumped(n)] else []) + (if delay > 0.0 then [Waited(n, delay)] else [])
  }

  /** How the pause after attempt `n` ends the loop, if it does: only a wait can be aborted, only a body dumped. */
  function PauseError(c: Config, world: World, n: nat): Option<ErrorKind> {
    if world(n).pause == WaitRejects && DelayAfter(c, world, n).Some? && DelayAfter(c, world, n).value > 0.0 then Some(WaitAborted)
    else if world(n).pause == DumpRejects && world(n).attempt.Resolved? then Some(DumpFailed)
    else None
  }

  /** The run from attempt `n` on: how it ends and what it does. */
  function Run(c: Config, world: World, n: nat): (Outcome, seq<Event>)
    requires n > 0
    decreases if n - 1 <= c.maxRetries then c.maxRetries - n + 1 else 0, if IsLast(c, n) then 0 else 1
  {
    var a := world(n).attempt;
    if Stops(c, world, n) then
      (match a case Resolved(_) => Returned(n) case Rejected(e) => Threw(e), [Called(n)])
    else if DelayAfter(c, world, n).None? then
      (Threw(DelayThrew), Head(c, world, n))
    else if PauseError(c, world, n).Some? then
      (Threw(PauseError(c, world, n).value), Head(c, world, n))
    else
      var (outcome, rest) := Run(c, world, n + 1);
      (outcome, Head(c, world, n) + rest)
  }

  // ---------- properties of every run ----------

  function CountDumps(log: seq<Event>, n: nat): nat {
    if log == [] then 0 else (if log[0] == Dumped(n) then 1 else 0) + CountDumps(log[1..], n)
  }

  /** The numbers of the attempts made, in order. */
  function CallNumbers(log: seq<Event>): seq<nat> {
    if log == [] then [] else (if log[0].Called? then [log[0].n] else []) + CallNumbers(log[1..])
  }

  /** The arguments the delay function received, in order. */
  function DelayArguments(log: seq<Event>): seq<nat> {
    if log == [] then [] else (if log[0].AskedDelay? then [log[0].n] else []) + DelayArguments(log[1..])
  }

  function Range(from: nat, length: nat): seq<nat> {
    seq(length, i => from + i)
  }

  lemma {:induction false} DumpsConcat(a: seq<Event>, b: seq<Event>, n: nat)
    ensures CountDumps(a + b, n) == CountDumps(a, n) + CountDumps(b, n)
    decreases |a|
  {
    if a == [] {
      assert a + b == b;
    } else {
      assert (a + b)[1..] == a[1..] + b;
      DumpsConcat(a[1..], b, n);
    }
  }

  lemma {:induction false} CallsConcat(a: seq<Event>, b: seq<Event>)
    ensures CallNumbers(a + b) == CallNumbers(a) + CallNumbers(b)
    decreases |a|
  {
    if a == [] {
      assert a + b == b;
    } else {
      assert (a + b)[0] == a[0] && (a + b)[1..] == a[1..] + b;
      CallsConcat(a[1..], b);
    }
  }

  lemma {:induction false} DelaysConcat(a: seq<Event>, b: seq<Event>)
    ensures DelayArguments(a + b) == DelayArguments(a) + DelayArguments(b)
    decreases |a|
  {
    if a == [] {
      assert a + b == b;
    } else {
      assert (a + b)[0] == a[0] && (a + b)[1..] == a[1..] + b;
      DelaysConcat(a[1..], b);
    }
  }

  lemma LogConcat(a: seq<Event>, b: seq<Event>, n: nat)
    ensures CountDumps(a + b, n) == CountDumps(a, n) + CountDumps(b, n)
    ensures CallNumbers(a + b) == CallNumbers(a) + CallNumbers(b)
    ensures DelayArguments(a + b) == DelayArguments(a) + DelayArguments(b)
  {
    DumpsConcat(a, b, n);
    CallsConcat(a, b);
    DelaysConcat(a, b);
  }

  lemma NoEvent(n: nat)
    ensures CallNumbers([]) == [] && DelayArguments([]) == [] && CountDumps([], n) == 0
  {
  }

  lemma OneEvent(e: Event, n: nat)
    ensures CallNumbers([e]) == if e.Called? then [e.n] else []
    ensures DelayArguments([e]) == if e.AskedDelay? then [e.n] else []
    ensures CountDumps([e], n) == if e == Dumped(n) then 1 else 0
  {
    assert [e][1..] == [];
  }

  lemma HeadFacts(c: Config, world: World, n: nat, k: nat)
    ensures CallNumbers(Head(c, world, n)) == [n]
    ensures DelayArguments(Head(c, world, n)) == if Asks(c, world, n) then [n] else []
    ensures CountDumps(Head(c, world, n), k) ==
            if k == n && world(n).attempt.Resolved? && DelayAfter(c, world, n).Some? then 1 else 0
    ensures Called(k) in Head(c, world, n) <==> k == n
  {
    hide Head, DelayAfter, Asks, CountDumps, CallNumbers, DelayArguments;
    var delay := DelayAfter(c, world, n);
    var ask, dump, wait := HeadParts(c, world, n);
    LogConcat([Called(n)], ask + (dump + wait), k);
    LogConcat(ask, dump + wait, k);
    LogConcat(dump, wait, k);
    OneEvent(Called(n), k);
    OneEvent(AskedDelay(n), k);
    OneEvent(Dumped(n), k);
    if wait != [] { OneEvent(wait[0], k); }
    NoEvent(k);
  }

  lemma HeadParts(c: Config, world: World, n: nat) returns (ask: seq<Event>, dump: seq<Event>, wait: seq<Event>)
    ensures Head(c, world, n) == [Called(n)] + (ask + (dump + wait))
    ensures ask == if Asks(c, world, n) then [AskedDelay(n)] else []
    ensures dump == if world(n).attempt.Resolved? && DelayAfter(c, world, n).Some? then [Dumped(n)] else []
    ensures wait == [] || (wait == [wait[0]] && wait[0].Waited?)
    ensures forall k :: Called(k) in Head(c, world, n) <==> k == n
  {
    hide Asks, DelayAfter;
    var delay := DelayAfter(c, world, n);
    ask := if Asks(c, world, n) then [AskedDelay(n)] else [];
    dump := if delay.Some? && world(n).attempt.Resolved? then [Dumped(n)] else [];
    wait := if delay.Some? && delay.value > 0.0 then [Waited(n, delay.value)] else [];
  }

  /** Whether the loop goes on after attempt `n`. */
  predicate GoesOn(c: Config, world: World, n: nat) {
    && !Stops(c, world, n)
    && DelayAfter(c, world, n).Some?
    && PauseError(c, world, n).None?
  }

  /** A run is the log of its first attempt followed, if the loop goes on, by the run from the next. */
  lemma RunShape(c: Config, world: World, n: nat)
    requires n > 0
    ensures Stops(c, world, n) ==>
              Run(c, world, n).1 == [Called(n)]
              && Run(c, world, n).0 == match world(n).attempt case Resolved(_) => Returned(n) case Rejected(e) => Threw(e)
    ensures !Stops(c, world, n) && !GoesOn(c, world, n) ==>
              Run(c, world, n).1 == Head(c, world, n)
              && Run(c, world, n).0 ==
                 Threw(if DelayAfter(c, world, n).None? then DelayThrew else PauseError(c, world, n).value)
    ensures GoesOn(c, world, n) ==>
              Run(c, world, n).1 == Head(c, world, n) + Run(c, world, n + 1).1
              && Run(c, world, n).0 == Run(c, world, n + 1).0
  {
  }

  /** Attempts left, counting attempt `n`: one at least, and no more than the retries allow. */
  function Allowed(c: Config, n: nat): int {
    if IsLast(c, n) then 1 else c.maxRetries - n + 2
  }

  /** Attempts are made one after the other, at most maxRetries + 1 of them (and always one). */
  lemma {:induction false} AttemptsAreBounded(c: Config, world: World, n: nat)
    requires n > 0
    ensures 1 <= |CallNumbers(Run(c, world, n).1)| <= Allowed(c, n)
    ensures CallNumbers(Run(c, world, n).1) == Range(n, |CallNumbers(Run(c, world, n).1)|)
    ensures Run(c, world, n).0.Returned? ==> Run(c, world, n).0.n == n + |CallNumbers(Run(c, world, n).1)| - 1
    decreases Allowed(c, n)
  {
    hide Run, Head, DelayAfter, Asks, CallNumbers;
    RunShape(c, world, n);
    HeadFacts(c, world, n, n);
    OneEvent(Called(n), n);
    if GoesOn(c, world, n) {
      AttemptsAreBounded(c, world, n + 1);
      CallsConcat(Head(c, world, n), Run(c, world, n + 1).1);
    }
  }

  lemma {:induction false} EventsComeLater(c: Config, world: World, n: nat)
    requires n > 0
    ensures forall e :: e in Run(c, world, n).1 ==> e.n >= n
    ensures Run(c, world, n).0.Returned? ==> Run(c, world, n).0.n >= n
    decreases Allowed(c, n)
  {
    RunShape(c, world, n);
    if GoesOn(c, world, n) { EventsComeLater(c, world, n + 1); }
  }

  lemma {:induction false} NoDumpWithoutEvent(log: seq<Event>, k: nat)
    requires Dumped(k) !in log
    ensures CountDumps(log, k) == 0
  {
    if log != [] { NoDumpWithoutEvent(log[1..], k); }
  }

  /** A response is either the one returned, with its body left alone, or its body is dumped exactly once. */
  ghost predicate Accounted(run: (Outcome, seq<Event>), k: nat) {
    if run.0 == Returned(k) then CountDumps(run.1, k) == 0 else CountDumps(run.1, k) == 1
  }

  /**
   * Every response that `fn` produced is accounted for exactly when its attempt ends the loop or its
   * delay could be computed: a body leaks only when the delay function throws.
   */
  lemma {:induction false} ResponsesAreAccounted(c: Config, world: World, n: nat, k: nat)
    requires n > 0 && Called(k) in Run(c, world, n).1 && world(k).attempt.Resolved?
    ensures Accounted(Run(c, world, n), k) <==> Stops(c, world, k) || DelayAfter(c, world, k).Some?
    decreases Allowed(c, n)
  {
    hide Run, Head, DelayAfter, Asks, CountDumps, CallNumbers, DelayArguments, IsRetryable;
    RunShape(c, world, n);
    HeadFacts(c, world, n, k);
    EventsComeLater(c, world, n);
    if GoesOn(c, world, n) {
      var rest := Run(c, world, n + 1);
      EventsComeLater(c, world, n + 1);
      LogConcat(Head(c, world, n), rest.1, k);
      if k == n {
        NoDumpWithoutEvent(rest.1, k);
      } else {
        ResponsesAreAccounted(c, world, n + 1, k);
      }
    } else if Stops(c, world, n) {
      NoDumpWithoutEvent([Called(n)], k);
    }
  }

  ghost predicate NoLeak(c: Config, world: World) {
    forall k: nat :: Called(k) in Run(c, world, 1).1 && world(k).attempt.Resolved? ==> Accounted(Run(c, world, 1), k)
  }

  /**
   * No run loses a response body exactly when no status is retried, or the delay function throws for none of
   * the retries the configuration allows.
   */
  lemma NothingLeaks(c: Config)
    ensures (forall world: World :: NoLeak(c, world)) <==>
            c.statusCodes == [] || forall n: nat :: 1 <= n <= c.maxRetries ==> c.delayOf(n).Some?
  {
    hide Run, CountDumps, Accounted;
    if c.statusCodes == [] || forall n: nat :: 1 <= n <= c.maxRetries ==> c.delayOf(n).Some? {
      forall world: World ensures NoLeak(c, world) {
        forall k: nat | Called(k) in Run(c, world, 1).1 && world(k).attempt.Resolved? ensures Accounted(Run(c, world, 1), k) {
          EventsComeLater(c, world, 1);
          ResponsesAreAccounted(c, world, 1, k);
        }
      }
    } else {
      var n := FirstThrow(c);
      var world := Retried(c.statusCodes[0], _ => None);
      forall h | 1 <= h < n ensures GoesOn(c, world, h) { assert c.statusCodes[0] in c.statusCodes; }
      ReachedBy(c, world, 1, n);
      ResponsesAreAccounted(c, world, 1, n);
      assert !NoLeak(c, world);
    }
  }

  lemma FirstThrow(c: Config) returns (n: nat)
    requires exists k: nat :: 1 <= k <= c.maxRetries && c.delayOf(k).None?
    ensures 1 <= n <= c.maxRetries && c.delayOf(n).None? && forall h: nat :: 1 <= h < n ==> c.delayOf(h).Some?
  {
    n := 1;
    while c.delayOf(n).Some?
      invariant 1 <= n <= c.maxRetries
      invariant forall h: nat :: 1 <= h < n ==> c.delayOf(h).Some?
      decreases c.maxRetries - n
    {
      n := n + 1;
    }
  }

  /** The world in which every attempt gets the given status, with the given Retry-After values, undisturbed. */
  function Retried(statusCode: int, headers: nat -> Option<real>): World {
    (n: nat) => Round(Resolved(Response(statusCode, headers(n))), false, 0.0, Undisturbed)
  }

  /** An attempt is made when the loop goes on after all before it. */
  lemma {:induction false} ReachedBy(c: Config, world: World, n: nat, k: nat)
    requires 0 < n <= k && forall h :: n <= h < k ==> GoesOn(c, world, h)
    ensures Called(k) in Run(c, world, n).1
    decreases k - n
  {
    hide Run, Head, GoesOn;
    if n < k {
      RunShapeGoesOn(c, world, n);
      ReachedBy(c, world, n + 1, k);
    } else {
      CalledFirst(c, world, n);
    }
  }

  lemma RunShapeGoesOn(c: Config, world: World, n: nat)
    requires n > 0 && GoesOn(c, world, n)
    ensures Run(c, world, n).1 == Head(c, world, n) + Run(c, world, n + 1).1
  {
    hide Run, Head, GoesOn, Stops;
    RunShape(c, world, n);
  }

  lemma CalledFirst(c: Config, world: World, n: nat)
    requires n > 0
    ensures Called(n) in Run(c, world, n).1
  {
    hide Run, Head, GoesOn, Stops;
    RunShape(c, world, n);
    HeadFacts(c, world, n, n);
  }

  /** Conversely the loop goes on after every attempt before one that is made. */
  lemma {:induction false} CalledLater(c: Config, world: World, n: nat, h: nat, k: nat)
    requires 0 < n <= h < k && Called(k) in Run(c, world, n).1
    ensures GoesOn(c, world, h)
    decreases h - n
  {
    hide Run, Head, GoesOn, Stops;
    RunShape(c, world, n);
    HeadFacts(c, world, n, k);
    if h > n { CalledLater(c, world, n + 1, h, k); }
  }

  /** A throwing delay function does lose a body. */
  lemma ThrowingDelayLeaks()
    ensures var c := Config(1, [503], _ => None, 100.0, 0.0, true, true, true);
            var world: World := _ => Round(Resolved(Response(503, None)), false, 0.0, Undisturbed);
            Called(1) in Run(c, world, 1).1 && !Accounted(Run(c, world, 1), 1)
  {
    var c := Config(1, [503], _ => None, 100.0, 0.0, true, true, true);
    var world: World := _ => Round(Resolved(Response(503, None)), false, 0.0, Undisturbed);
    RunShape(c, world, 1);
    assert 503 in c.statusCodes;
    assert Head(c, world, 1)[0] == Called(1);
    ResponsesAreAccounted(c, world, 1, 1);
  }

  /**
   * Every wait is positive, at most maxDelay, never after the last attempt, and followed by the next attempt
   * unless it is aborted or the body drained beside it cannot be.
   */
  lemma {:induction false} WaitsAreBounded(c: Config, world: World, n: nat, k: nat, ms: real)
    requires n > 0 && Waited(k, ms) in Run(c, world, n).1
    ensures 0.0 < ms <= c.maxDelay && !IsLast(c, k)
    ensures Called(k + 1) in Run(c, world, n).1
            || Run(c, world, n).0 == Threw(WaitAborted) || Run(c, world, n).0 == Threw(DumpFailed)
    decreases Allowed(c, n)
  {
    RunShape(c, world, n);
    if GoesOn(c, world, n) && Waited(k, ms) in Run(c, world, n + 1).1 {
      WaitsAreBounded(c, world, n + 1, k, ms);
    } else if GoesOn(c, world, n) {
      RunShape(c, world, n + 1);
      assert Run(c, world, n + 1).1[0] == Called(n + 1);
      assert Called(n + 1) in Run(c, world, n + 1).1;
    }
  }

  // ---------- the policy, in the configuration's words ----------

  /** The outcome is one the configuration retries, and retries are left. */
  predicate IsRetried(c: Config, world: World, k: nat) {
    && k <= c.maxRetries
    && match world(k).attempt
       case Resolved(response) => response.statusCode in c.statusCodes
       case Rejected(error) => !world(k).aborted && (if error == TimeoutError then c.retryOnTimeout else c.retryOnNetworkError)
  }

  /** The delay before jitter: the Retry-After value if there is one and it counts, else what the delay function says. */
  function ChosenDelay(c: Config, world: World, k: nat): Option<real> {
    match world(k).attempt
    case Resolved(Response(_, Some(ms))) => if c.respectRetryAfter then Some(ms) else c.delayOf(k)
    case _ => c.delayOf(k)
  }

  /** With a random part of the maximal jitter added, and capped. */
  function Jittered(ms: real, random: real, maxJitter: real, maxDelay: real): real {
    if ms + random * maxJitter > maxDelay then maxDelay else ms + random * maxJitter
  }

  function JitteredDelay(c: Config, world: World, k: nat): Option<real> {
    match ChosenDelay(c, world, k)
    case None => None
    case Some(ms) => Some(Jittered(ms, world(k).random, c.maxJitter, c.maxDelay))
  }

  lemma JitterIsApplied(ms: real, random: real, c: Config)
    ensures ApplyJitterAndCap(ms, random, c) == Jittered(ms, random, c.maxJitter, c.maxDelay)
  {
  }

  /** What disturbs the pause after attempt `k`, if anything does. */
  function Disturbance(c: Config, world: World, k: nat): Option<ErrorKind> {
    match world(k).pause
    case Undisturbed => None
    case WaitRejects => if JitteredDelay(c, world, k).Some? && JitteredDelay(c, world, k).value > 0.0 then Some(WaitAborted) else None
    case DumpRejects => if world(k).attempt.Resolved? then Some(DumpFailed) else None
  }

  lemma PolicyOf(c: Config, world: World, k: nat)
    requires k > 0
    ensures Stops(c, world, k) <==> !IsRetried(c, world, k)
    ensures DelayAfter(c, world, k) == JitteredDelay(c, world, k)
    ensures PauseError(c, world, k) == Disturbance(c, world, k)
  {
    forall ms ensures ApplyJitterAndCap(ms, world(k).random, c) == Jittered(ms, world(k).random, c.maxJitter, c.maxDelay) {
      JitterIsApplied(ms, world(k).random, c);
    }
    hide ApplyJitterAndCap, Jittered;
    assert DelayAfter(c, world, k) == JitteredDelay(c, world, k);
    hide DelayAfter, JitteredDelay;
  }

  /** There is a next attempt exactly when this one is retried, its delay is known, and its pause undisturbed. */
  lemma NextAttemptIff(c: Config, world: World, k: nat)
    requires Called(k) in Run(c, world, 1).1
    ensures k > 0
    ensures Called(k + 1) in Run(c, world, 1).1 <==>
            IsRetried(c, world, k) && JitteredDelay(c, world, k).Some? && Disturbance(c, world, k).None?
  {
    hide Run, Head, Stops, DelayAfter, PauseError, IsRetried, JitteredDelay, Disturbance;
    EventsComeLater(c, world, 1);
    PolicyOf(c, world, k);
    if Called(k + 1) in Run(c, world, 1).1 { CalledLater(c, world, 1, k, k + 1); }
    if GoesOn(c, world, k) {
      forall h | 1 <= h < k ensures GoesOn(c, world, h) { CalledLater(c, world, 1, h, k); }
      ReachedBy(c, world, 1, k + 1);
    }
  }

  /** The last attempt decides how the run ends. */
  lemma {:induction false} LastAttemptDecides(c: Config, world: World, n: nat, k: nat)
    requires n > 0 && Called(k) in Run(c, world, n).1 && Called(k + 1) !in Run(c, world, n).1
    ensures k > 0
    ensures !IsRetried(c, world, k) || JitteredDelay(c, world, k).None? || Disturbance(c, world, k).Some?
    ensures Run(c, world, n).0 ==
            if !IsRetried(c, world, k) then
              match world(k).attempt case Resolved(_) => Returned(k) case Rejected(error) => Threw(error)
            else if JitteredDelay(c, world, k).None? then Threw(DelayThrew)
            else Threw(Disturbance(c, world, k).value)
    decreases Allowed(c, n)
  {
    hide Run, Head, Stops, DelayAfter, PauseError, IsRetried, JitteredDelay, Disturbance;
    EventsComeLater(c, world, n);
    RunShape(c, world, n);
    HeadFacts(c, world, n, k);
    PolicyOf(c, world, n);
    if GoesOn(c, world, n) {
      CalledFirst(c, world, n + 1);
      GoesOnAllows(c, world, n);
      LastAttemptDecides(c, world, n + 1, k);
    }
  }

  lemma GoesOnAllows(c: Config, world: World, n: nat)
    requires n > 0 && GoesOn(c, world, n)
    ensures Allowed(c, n + 1) < Allowed(c, n)
  {
  }

  /** A wait lasts exactly as long as the policy says. */
  lemma {:induction false} WaitIsChosen(c: Config, world: World, n: nat, k: nat, ms: real)
    requires n > 0 && Waited(k, ms) in Run(c, world, n).1
    ensures JitteredDelay(c, world, k) == Some(ms)
    decreases Allowed(c, n)
  {
    hide Run, Stops, PauseError, JitteredDelay, DelayAfter;
    RunShape(c, world, n);
    PolicyOf(c, world, n);
    if GoesOn(c, world, n) && Waited(k, ms) in Run(c, world, n + 1).1 {
      GoesOnAllows(c, world, n);
      WaitIsChosen(c, world, n + 1, k, ms);
    }
  }

  /** The delay function sees strictly increasing retry numbers. */
  lemma {:induction false} DelayIsAskedInOrder(c: Config, world: World, n: nat)
    requires n > 0
    ensures var args := DelayArguments(Run(c, world, n).1);
            && (forall i, j :: 0 <= i < j < |args| ==> args[i] < args[j])
            && (forall i :: 0 <= i < |args| ==> args[i] >= n)
    decreases Allowed(c, n)
  {
    hide Run, Head, DelayArguments, DelayAfter, IsRetryable;
    RunShape(c, world, n);
    HeadFacts(c, world, n, n);
    if GoesOn(c, world, n) {
      LogConcat(Head(c, world, n), Run(c, world, n + 1).1, n);
      DelayIsAskedInOrder(c, world, n + 1);
    } else {
      NoDelayForCall(n);
    }
  }

  lemma NoDelayForCall(n: nat)
    ensures DelayArguments([Called(n)]) == []
  {
    assert [Called(n)][1..] == [];
  }

  /** It is asked about exactly the attempts that are retried without a Retry-After value. */
  lemma {:induction false} DelayIsAskedAbout(c: Config, world: World, n: nat, k: nat)
    requires n > 0
    ensures k in DelayArguments(Run(c, world, n).1) <==> Called(k) in Run(c, world, n).1 && !Stops(c, world, k) && Asks(c, world, k)
    decreases Allowed(c, n)
  {
    hide Run, Head, DelayArguments, DelayAfter, IsRetryable, Asks;
    RunShape(c, world, n);
    HeadFacts(c, world, n, k);
    HeadFacts(c, world, n, n);
    if GoesOn(c, world, n) {
      EventsComeLater(c, world, n + 1);
      LogConcat(Head(c, world, n), Run(c, world, n + 1).1, n);
      DelayIsAskedAbout(c, world, n + 1, k);
      DelayIsAskedInOrder(c, world, n + 1);
    } else {
      NoDelayForCall(n);
    }
  }

  /** Attempt `k` is retried, and the delay function is asked how long to wait. */
  ghost predicate AskedAfter(c: Config, world: World, n: nat, k: nat)
    requires n > 0
  {
    Called(k) in Run(c, world, n).1 && !Stops(c, world, k) && Asks(c, world, k)
  }

  /** No attempt retried on its Retry-After value comes before one the delay function is asked about. */
  ghost predicate NoSkip(c: Config, world: World, n: nat)
    requires n > 0
  {
    forall h, k :: n <= h < k && AskedAfter(c, world, n, k) ==> Asks(c, world, h)
  }

  /**
   * The delay function sees 1, 2, 3, ... exactly when no attempt that is retried on its Retry-After value
   * comes before one it is asked about.
   */
  lemma {:induction false} DelayCountsUp(c: Config, world: World, n: nat)
    requires n > 0
    ensures var args := DelayArguments(Run(c, world, n).1);
            args == Range(n, |args|) <==> NoSkip(c, world, n)
    decreases Allowed(c, n)
  {
    hide Run, DelayArguments, Asks, AskedAfter, IsRetryable, PauseError, DelayAfter;
    var args := DelayArguments(Run(c, world, n).1);
    if !GoesOn(c, world, n) {
      NothingAskedLater(c, world, n);
    } else {
      var rest := DelayArguments(Run(c, world, n + 1).1);
      AskedLater(c, world, n);
      DelayCountsUp(c, world, n + 1);
      if Asks(c, world, n) {
        ShiftedRange(n, rest);
        NoSkipStep(c, world, n);
      } else if rest != [] {
        assert rest[0] in rest && AskedAfter(c, world, n, rest[0]);
        assert Range(n, |rest|)[0] == n;
      }
    }
  }

  lemma NoSkipStep(c: Config, world: World, n: nat)
    requires n > 0 && Asks(c, world, n)
    requires forall k :: k > n ==> (AskedAfter(c, world, n, k) <==> AskedAfter(c, world, n + 1, k))
    ensures NoSkip(c, world, n) <==> NoSkip(c, world, n + 1)
  {
    hide Asks, AskedAfter;
    if NoSkip(c, world, n) {
      var next := n + 1;
      forall h, k | next <= h < k && AskedAfter(c, world, next, k) ensures Asks(c, world, h) {
        assert AskedAfter(c, world, n, k);
      }
    }
    if NoSkip(c, world, n + 1) {
      forall h, k | n <= h < k && AskedAfter(c, world, n, k) ensures Asks(c, world, h) {
        assert AskedAfter(c, world, n + 1, k);
      }
    }
  }

  /** Where the loop ends nothing is asked later, and at most one question is put. */
  lemma NothingAskedLater(c: Config, world: World, n: nat)
    requires n > 0 && !GoesOn(c, world, n)
    ensures DelayArguments(Run(c, world, n).1) == [] || DelayArguments(Run(c, world, n).1) == [n]
    ensures forall k :: k > n ==> !AskedAfter(c, world, n, k)
  {
    hide Run, Head, DelayAfter, DelayArguments, Asks, IsRetryable, PauseError;
    RunShape(c, world, n);
    OneEvent(Called(n), n);
    HeadFacts(c, world, n, n);
    forall k | k > n ensures !AskedAfter(c, world, n, k) { HeadFacts(c, world, n, k); }
  }

  /** Where the loop goes on, the later questions are those of the run from the next attempt. */
  lemma AskedLater(c: Config, world: World, n: nat)
    requires n > 0 && GoesOn(c, world, n)
    ensures var rest := DelayArguments(Run(c, world, n + 1).1);
            && DelayArguments(Run(c, world, n).1) == (if Asks(c, world, n) then [n] + rest else rest)
            && (forall k :: k in rest ==> k > n)
            && forall k :: k > n ==>
                 (AskedAfter(c, world, n, k) <==> k in rest) && (AskedAfter(c, world, n + 1, k) <==> k in rest)
  {
    hide Run, Head, DelayArguments, Asks, GoesOn, Stops;
    RunShape(c, world, n);
    HeadFacts(c, world, n, n);
    DelaysConcat(Head(c, world, n), Run(c, world, n + 1).1);
    DelayIsAskedInOrder(c, world, n + 1);
    var rest := DelayArguments(Run(c, world, n + 1).1);
    forall k | k > n
      ensures AskedAfter(c, world, n, k) <==> k in rest
      ensures AskedAfter(c, world, n + 1, k) <==> k in rest
    {
      HeadFacts(c, world, n, k);
      DelayIsAskedAbout(c, world, n + 1, k);
    }
  }

  lemma ShiftedRange(n: nat, rest: seq<nat>)
    ensures [n] + rest == Range(n, |rest| + 1) <==> rest == Range(n + 1, |rest|)
  {
    var all := [n] + rest;
    if all == Range(n, |rest| + 1) {
      forall i | 0 <= i < |rest| ensures rest[i] == Range(n + 1, |rest|)[i] {
        assert all[i + 1] == Range(n, |rest| + 1)[i + 1];
      }
    }
  }

  ghost predicate CountsUp(c: Config, world: World) {
    var args := DelayArguments(Run(c, world, 1).1); args == Range(1, |args|)
  }

  /**
   * The delay function sees 1, 2, 3, ... in every run exactly when the configuration ignores Retry-After,
   * retries no status, or allows one retry at most. The default configuration is none of these.
   */
  lemma AlwaysCountsUpIff(c: Config)
    ensures (forall world: World :: CountsUp(c, world)) <==> !c.respectRetryAfter || c.statusCodes == [] || c.maxRetries <= 1
  {
    hide Run, DelayArguments, AskedAfter, NoSkip;
    if !c.respectRetryAfter || c.statusCodes == [] || c.maxRetries <= 1 {
      forall world: World ensures CountsUp(c, world) {
        NoSkipWhere(c, world);
        DelayCountsUp(c, world, 1);
      }
    } else {
      var world := Retried(c.statusCodes[0], n => if n == 1 then Some(0.0) else None);
      assert c.statusCodes[0] in c.statusCodes;
      SkipsOne(c, world);
      DelayCountsUp(c, world, 1);
      assert !CountsUp(c, world);
    }
  }

  lemma NoSkipWhere(c: Config, world: World)
    requires !c.respectRetryAfter || c.statusCodes == [] || c.maxRetries <= 1
    ensures NoSkip(c, world, 1)
  {
    hide Run;
    forall h, k | 1 <= h < k && AskedAfter(c, world, 1, k) ensures Asks(c, world, h) {
      CalledLater(c, world, 1, h, k);
    }
  }

  lemma SkipsOne(c: Config, world: World)
    requires GoesOn(c, world, 1) && !Asks(c, world, 1) && !Stops(c, world, 2) && Asks(c, world, 2)
    ensures !NoSkip(c, world, 1)
  {
    hide Run, Asks, GoesOn, Stops;
    ReachedBy(c, world, 1, 2);
    assert AskedAfter(c, world, 1, 2);
  }

  /** In particular it does without Retry-After handling, and when no header arrives. */
  lemma DelayCountsUpWithoutHeader(c: Config, world: World)
    requires !c.respectRetryAfter || forall n :: world(n).attempt.Resolved? ==> world(n).attempt.response.retryAfter.None?
    ensures CountsUp(c, world)
  {
    hide Run, DelayArguments;
    DelayCountsUp(c, world, 1);
  }

  /** Once a Retry-After value is followed, it does not: here the delay function sees 2 only. */
  lemma RetryAfterSkipsANumber()
    ensures var c := Config(2, [503], _ => Some(0.0), 100.0, 0.0, true, true, true);
            var world: World := n => Round(Resolved(Response(if n <= 2 then 503 else 200, if n == 1 then Some(1.0) else None)),
                                           false, 0.0, Undisturbed);
            DelayArguments(Run(c, world, 1).1) == [2]
  {
    var c := Config(2, [503], _ => Some(0.0), 100.0, 0.0, true, true, true);
    var world: World := n => Round(Resolved(Response(if n <= 2 then 503 else 200, if n == 1 then Some(1.0) else None)),
                                   false, 0.0, Undisturbed);
    assert 503 in c.statusCodes && 200 !in c.statusCodes;
    hide Run, Head, DelayArguments;
    assert GoesOn(c, world, 1) && GoesOn(c, world, 2) && Stops(c, world, 3);
    RunShape(c, world, 1);
    RunShape(c, world, 2);
    RunShape(c, world, 3);
    HeadFacts(c, world, 1, 1);
    HeadFacts(c, world, 2, 2);
    OneEvent(Called(3), 3);
    DelaysConcat(Head(c, world, 1), Run(c, world, 2).1);
    DelaysConcat(Head(c, world, 2), Run(c, world, 3).1);
  }

  /** A response is returned only if it is not retryable or the retries are used up. */
  lemma {:induction false} ReturnedRetryableIsLast(c: Config, world: World, n: nat)
    requires n > 0 && Run(c, world, n).0.Returned?
    ensures var k := Run(c, world, n).0.n;
            world(k).attempt.Resolved?
            && (world(k).attempt.response.statusCode in c.statusCodes ==> IsLast(c, k))
    decreases Allowed(c, n)
  {
    RunShape(c, world, n);
    if GoesOn(c, world, n) { ReturnedRetryableIsLast(c, world, n + 1); }
  }
}
