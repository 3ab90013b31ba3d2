/**
 * The single-consumer mode of periodic jobs: a lease on one shared key, taken or refreshed before
 * each run, refreshed during the run and shortened after it.
 */
module PeriodicLock {
  import opened JsText

  const DEFAULT_LOCK_TIMEOUT: nat := 120000

  type Id = int

  datatype Config = Config(
    intervalInMs: Option<nat>, lockTimeout: Option<nat>, lockTimeoutAfterSuccess: Option<nat>)

  /** Twice the interval unless configured; a missing or zero interval falls back to the default. */
  function LockTimeout(c: Config): nat {
    if c.lockTimeout.Some? then c.lockTimeout.value
    else if c.intervalInMs.Some? && c.intervalInMs.value != 0 then c.intervalInMs.value * 2
    else DEFAULT_LOCK_TIMEOUT
  }

  /**
   * The default lease is twice the interval, as promised, exactly for a non-zero interval; a zero one, or a
   * cron schedule, gets the fixed default instead.
   */
  lemma DefaultLeaseIsTwiceTheInterval(c: Config)
    requires c.lockTimeout.None?
    ensures (c.intervalInMs.Some? && LockTimeout(c) == 2 * c.intervalInMs.value) <==> c.intervalInMs.Some? && c.intervalInMs.value != 0
    ensures c.intervalInMs == None || c.intervalInMs == Some(0) ==> LockTimeout(c) == 120000
  {
  }

  /** The lease left after a run, so that another instance cannot take over immediately. */
  function PostTimeout(c: Config): nat {
    if c.lockTimeoutAfterSuccess.Some? then c.lockTimeoutAfterSuccess.value
    else if c.intervalInMs.Some? then c.intervalInMs.value
    else DEFAULT_LOCK_TIMEOUT
  }

  // ---------- the shared key ----------

  datatype Lease = Lease(owner: Id, expiry: nat)

  datatype Store = Store(now: nat, lease: Option<Lease>)

  function Holder(s: Store): Option<Id> {
    if s.lease.Some? && s.now < s.lease.value.expiry then Some(s.lease.value.owner) else None
  }

  function AcquireIfFree(s: Store, id: Id, ttl: nat): (bool, Store) {
    if Holder(s) == None then (true, s.(lease := Some(Lease(id, s.now + ttl)))) else (false, s)
  }

  function ExtendIfHolder(s: Store, id: Id, ttl: nat): (bool, Store) {
    if Holder(s) == Some(id) then (true, s.(lease := Some(Lease(id, s.now + ttl)))) else (false, s)
  }

  function ReleaseIfHolder(s: Store, id: Id): Store {
    if Holder(s) == Some(id) then s.(lease := None) else s
  }

  class LockStore {
    var now: nat
    var lease: Option<Lease>

    constructor ()
      ensures State() == Store(0, None)
    {
      now, lease := 0, None;
    }

    function State(): Store
      reads this
    {
      Store(now, lease)
    }

    method TryAcquire(id: Id, ttl: nat) returns (acquired: bool)
      modifies this
      ensures (acquired, State()) == AcquireIfFree(old(State()), id, ttl)
    {
      acquired := lease.None? || now >= lease.value.expiry;
      if acquired { lease := Some(Lease(id, now + ttl)); }
    }

    /** Acquisition with `acquiredExternally`: extend what this identity already holds. */
    method TryRefresh(id: Id, ttl: nat) returns (acquired: bool)
      modifies this
      ensures (acquired, State()) == ExtendIfHolder(old(State()), id, ttl)
    {
      acquired := lease.Some? && now < lease.value.expiry && lease.value.owner == id;
      if acquired { lease := Some(Lease(id, now + ttl)); }
    }

    method Release(id: Id)
      modifies this
      ensures State() == ReleaseIfHolder(old(State()), id)
    {
      if lease.Some? && now < lease.value.expiry && lease.value.owner == id { lease := None; }
    }
  }

  // ---------- one instance, step by step ----------

  // Between the two attempts of an acquisition other instances may act.
  datatype Phase = Idle | Retrying | Running

  function FreshStep(c: Config, id: Id, s: Store): (Phase, Store) {
    var (acquired, s') := AcquireIfFree(s, id, LockTimeout(c));
    (if acquired then Running else Retrying, s')
  }

  function RefreshStep(c: Config, id: Id, s: Store): (Phase, Store) {
    var (acquired, s') := ExtendIfHolder(s, id, LockTimeout(c));
    (if acquired then Running else Idle, s')
  }

  /** Shrinking the lease and stopping the refresh timer, whether the run succeeded or threw. */
  function FinishStep(c: Config, id: Id, s: Store): (Phase, Store) {
    (Idle, ExtendIfHolder(s, id, PostTimeout(c)).1)
  }

  class PeriodicJob {
    const executorId: Id
    const config: Config
    const redis: LockStore
    var phase: Phase

    constructor (executorId: Id, config: Config, redis: LockStore)
      ensures this.executorId == executorId && this.config == config && this.redis == redis && phase == Idle
    {
      this.executorId, this.config, this.redis, phase := executorId, config, redis, Idle;
    }

    /** First attempt of tryAcquireExclusiveLock. */
    method TryFresh()
      requires phase == Idle
      modifies this, redis
      ensures (phase, redis.State()) == FreshStep(config, executorId, old(redis.State()))
    {
      var acquired := redis.TryAcquire(executorId, LockTimeout(config));
      phase := if acquired then Running else Retrying;
    }

    /** Second attempt: as the identity that may still hold the key. */
    method TryRefresh()
      requires phase == Retrying
      modifies this, redis
      ensures (phase, redis.State()) == RefreshStep(config, executorId, old(redis.State()))
    {
      var acquired := redis.TryRefresh(executorId, LockTimeout(config));
      phase := if acquired then Running else Idle;
    }

    /** The refresh timer of a running job. */
    method AutoRefresh()
      requires phase == Running
      modifies redis
      ensures redis.State() == ExtendIfHolder(old(redis.State()), executorId, LockTimeout(config)).1
    {
      var kept := redis.TryRefresh(executorId, LockTimeout(config));
    }

    method UpdateLockPostExecution()
      requires phase == Running
      modifies this, redis
      ensures (phase, redis.State()) == FinishStep(config, executorId, old(redis.State()))
    {
      var kept := redis.TryRefresh(executorId, PostTimeout(config));
      phase := Idle;
    }

    method Dispose()
      modifies redis
      ensures redis.State() == ReleaseIfHolder(old(redis.State()), executorId)
    {
      redis.Release(executorId);
    }
  }

  // ---------- any number of instances ----------

  // Every executor id is one instance; ids without an entry are idle.
  datatype System = System(store: Store, phases: map<Id, Phase>)

  datatype Action =
    | Tick(elapsed: nat)
    | Fresh(id: Id)
    | Refresh(id: Id)
    | AutoRefresh(id: Id)
    | Finish(id: Id)
    | Dispose(id: Id)

  const INITIAL := System(Store(0, None), map[])

  function PhaseOf(sys: System, id: Id): Phase {
    if id in sys.phases then sys.phases[id] else Idle
  }

  predicate Enabled(sys: System, a: Action) {
    match a
    case Tick(_) => true
    case Fresh(i) => PhaseOf(sys, i) == Idle
    case Refresh(i) => PhaseOf(sys, i) == Retrying
    case AutoRefresh(i) => PhaseOf(sys, i) == Running
    case Finish(i) => PhaseOf(sys, i) == Running
    case Dispose(_) => true
  }

  function With(sys: System, id: Id, next: (Phase, Store)): System {
    System(next.1, sys.phases[id := next.0])
  }

  function Step(configs: Id -> Config, sys: System, a: Action): System {
    match a
    case Tick(d) => sys.(store := sys.store.(now := sys.store.now + d))
    case Fresh(i) => With(sys, i, FreshStep(configs(i), i, sys.store))
    case Refresh(i) => With(sys, i, RefreshStep(configs(i), i, sys.store))
    case AutoRefresh(i) => sys.(store := ExtendIfHolder(sys.store, i, LockTimeout(configs(i))).1)
    case Finish(i) => With(sys, i, FinishStep(configs(i), i, sys.store))
    case Dispose(i) => sys.(store := ReleaseIfHolder(sys.store, i))
  }

  function Execute(configs: Id -> Config, sys: System, actions: seq<Action>): System
    decreases |actions|
  {
    if actions == [] then sys else Execute(configs, Step(configs, sys, actions[0]), actions[1..])
  }

  // The two assumptions on runs: time never runs past the lease of a running holder (it refreshes
  // before), and nobody is disposed of mid-run.
  predicate Timely(sys: System, a: Action) {
    a.Tick? && Holder(sys.store).Some? && PhaseOf(sys, Holder(sys.store).value) == Running
    ==> sys.store.now + a.elapsed < sys.store.lease.value.expiry
  }

  predicate NotDisposedMidRun(sys: System, a: Action) {
    a.Dispose? ==> PhaseOf(sys, a.id) != Running
  }

  predicate Disciplined(configs: Id -> Config, sys: System, actions: seq<Action>)
    decreases |actions|
  {
    actions == [] ||
    (&& Enabled(sys, actions[0])
     && Timely(sys, actions[0])
     && NotDisposedMidRun(sys, actions[0])
     && Disciplined(configs, Step(configs, sys, actions[0]), actions[1..]))
  }

  ghost predicate PositiveTimeouts(configs: Id -> Config) {
    forall i :: LockTimeout(configs(i)) > 0
  }

  /** Whoever runs holds the unexpired lease. */
  ghost predicate RunnersHold(sys: System) {
    forall i :: i in sys.phases && sys.phases[i] == Running ==> Holder(sys.store) == Some(i)
  }

  /** A step keeps the runner in possession of the lease exactly when it meets the two assumptions. */
  lemma StepKeepsRunnersHolding(configs: Id -> Config, sys: System, a: Action)
    requires PositiveTimeouts(configs) && RunnersHold(sys) && Enabled(sys, a)
    ensures RunnersHold(Step(configs, sys, a)) <==> Timely(sys, a) && NotDisposedMidRun(sys, a)
  {
    var next := Step(configs, sys, a);
    match a {
      case Tick(_) =>
        if Holder(sys.store).Some? && PhaseOf(sys, Holder(sys.store).value) == Running {
          assert Holder(sys.store).value in next.phases;
        }
      case Fresh(i) => assert LockTimeout(configs(i)) > 0;
      case Refresh(i) => assert LockTimeout(configs(i)) > 0;
      case AutoRefresh(i) => assert LockTimeout(configs(i)) > 0;
      case Finish(i) =>
      case Dispose(i) => if PhaseOf(sys, i) == Running { assert i in next.phases; }
    }
  }

  /** In every disciplined run of any number of instances, at most one executes at a time. */
  lemma {:induction false} AtMostOneRuns(configs: Id -> Config, sys: System, actions: seq<Action>, i: Id, j: Id)
    requires PositiveTimeouts(configs) && RunnersHold(sys) && Disciplined(configs, sys, actions)
    requires PhaseOf(Execute(configs, sys, actions), i) == Running
    requires PhaseOf(Execute(configs, sys, actions), j) == Running
    ensures i == j
    decreases |actions|
  {
    if actions != [] {
      StepKeepsRunnersHolding(configs, sys, actions[0]);
      AtMostOneRuns(configs, Step(configs, sys, actions[0]), actions[1..], i, j);
    }
  }

  lemma AtMostOneRunsFromStart(configs: Id -> Config, actions: seq<Action>, i: Id, j: Id)
    requires PositiveTimeouts(configs) && Disciplined(configs, INITIAL, actions)
    requires PhaseOf(Execute(configs, INITIAL, actions), i) == Running
    requires PhaseOf(Execute(configs, INITIAL, actions), j) == Running
    ensures i == j
  {
    AtMostOneRuns(configs, INITIAL, actions, i, j);
  }

  /** The acting identity never changes a lease another identity holds: in particular the shrink does not. */
  lemma OthersLeaseIsUntouched(configs: Id -> Config, sys: System, a: Action, holder: Id)
    requires !a.Tick? && Enabled(sys, a) && Holder(sys.store) == Some(holder) && a.id != holder
    ensures Step(configs, sys, a).store == sys.store
    ensures PhaseOf(Step(configs, sys, a), a.id) == Running ==> PhaseOf(sys, a.id) == Running
  {
  }

  // ---------- the post-execution lease ----------

  /** Until `until`, `id` holds the key, for that long or because it is running again. */
  ghost predicate Reserved(sys: System, id: Id, until: nat) {
    sys.store.now < until ==>
      && Holder(sys.store) == Some(id)
      && (PhaseOf(sys, id) == Running || sys.store.lease.value.expiry >= until)
  }

  lemma StepKeepsReservation(configs: Id -> Config, sys: System, a: Action, id: Id, since: nat)
    requires PositiveTimeouts(configs) && Enabled(sys, a) && Timely(sys, a)
    requires a != Dispose(id) && since <= sys.store.now
    requires Reserved(sys, id, since + PostTimeout(configs(id)))
    ensures Reserved(Step(configs, sys, a), id, since + PostTimeout(configs(id)))
  {
    assert LockTimeout(configs(id)) > 0;
  }

  /**
   * After a run that still held its lease ends at time `since`, no other executor runs before the
   * post-execution lease is over, unless this executor gives the key up by being disposed of.
   */
  lemma {:induction false} NoOtherStartsBeforePostLeaseEnds(configs: Id -> Config, sys: System, actions: seq<Action>, id: Id, since: nat, other: Id)
    requires PositiveTimeouts(configs) && RunnersHold(sys) && Disciplined(configs, sys, actions)
    requires since <= sys.store.now && Reserved(sys, id, since + PostTimeout(configs(id)))
    requires Dispose(id) !in actions && other != id
    requires PhaseOf(Execute(configs, sys, actions), other) == Running
    ensures Execute(configs, sys, actions).store.now >= since + PostTimeout(configs(id))
    decreases |actions|
  {
    if actions == [] {
      assert other in sys.phases;
    } else {
      StepKeepsRunnersHolding(configs, sys, actions[0]);
      StepKeepsReservation(configs, sys, actions[0], id, since);
      NoOtherStartsBeforePostLeaseEnds(configs, Step(configs, sys, actions[0]), actions[1..], id, since, other);
    }
  }

  lemma {:induction false} DisciplinedSplit(configs: Id -> Config, sys: System, a: seq<Action>, b: seq<Action>)
    ensures Execute(configs, sys, a + b) == Execute(configs, Execute(configs, sys, a), b)
    ensures Disciplined(configs, sys, a + b) <==> Disciplined(configs, sys, a) && Disciplined(configs, Execute(configs, sys, a), b)
    decreases |a|
  {
    if a == [] {
      assert a + b == b;
    } else {
      assert (a + b)[0] == a[0] && (a + b)[1..] == a[1..] + b;
      DisciplinedSplit(configs, Step(configs, sys, a[0]), a[1..], b);
    }
  }

  lemma {:induction false} DisciplinedRunnersHold(configs: Id -> Config, sys: System, actions: seq<Action>)
    requires PositiveTimeouts(configs) && RunnersHold(sys) && Disciplined(configs, sys, actions)
    ensures RunnersHold(Execute(configs, sys, actions))
    decreases |actions|
  {
    if actions != [] {
      StepKeepsRunnersHolding(configs, sys, actions[0]);
      DisciplinedRunnersHold(configs, Step(configs, sys, actions[0]), actions[1..]);
    }
  }

  /** The whole story from the initial state: history, the end of a run, and what happens later. */
  lemma PostLeaseProtectsFromOthers(configs: Id -> Config, before: seq<Action>, id: Id, later: seq<Action>, other: Id)
    requires PositiveTimeouts(configs)
    requires Disciplined(configs, INITIAL, before + [Finish(id)] + later)
    requires Dispose(id) !in later && other != id
    requires PhaseOf(Execute(configs, INITIAL, before + [Finish(id)] + later), other) == Running
    ensures Execute(configs, INITIAL, before + [Finish(id)] + later).store.now
            >= Execute(configs, INITIAL, before).store.now + PostTimeout(configs(id))
  {
    var sys := Execute(configs, INITIAL, before);
    DisciplinedSplit(configs, INITIAL, before + [Finish(id)], later);
    DisciplinedSplit(configs, INITIAL, before, [Finish(id)]);
    DisciplinedRunnersHold(configs, INITIAL, before);
    assert Enabled(sys, Finish(id)) by { assert [Finish(id)][0] == Finish(id); }
    assert id in sys.phases;
    var done := Step(configs, sys, Finish(id));
    assert Execute(configs, sys, [Finish(id)]) == done by { assert [Finish(id)][1..] == []; }
    StepKeepsRunnersHolding(configs, sys, Finish(id));
    NoOtherStartsBeforePostLeaseEnds(configs, done, later, id, sys.store.now, other);
  }

  /** Within its own post-execution lease an instance gets to run again, by the second attempt. */
  lemma HolderRunsAgain(configs: Id -> Config, sys: System, id: Id)
    requires PhaseOf(sys, id) == Idle && Holder(sys.store) == Some(id)
    ensures PhaseOf(Execute(configs, sys, [Fresh(id), Refresh(id)]), id) == Running
  {
    var once := Step(configs, sys, Fresh(id));
    assert [Fresh(id), Refresh(id)][1..] == [Refresh(id)] && [Refresh(id)][1..] == [];
    assert Execute(configs, once, [Refresh(id)]) == Execute(configs, Step(configs, once, Refresh(id)), []);
  }

  /** How long the key stays reserved after a run: as configured, else for one interval, else for 120 seconds. */
  function AfterRun(c: Config): nat {
    match (c.lockTimeoutAfterSuccess, c.intervalInMs)
    case (Some(ms), _) => ms
    case (None, Some(interval)) => interval
    case (None, None) => 120000
  }

  /** How long a lease lasts: as configured, else for two intervals, else (none, or zero) for 120 seconds. */
  function LeaseTime(c: Config): nat {
    match (c.lockTimeout, c.intervalInMs)
    case (Some(ms), _) => ms
    case (None, Some(interval)) => if interval > 0 then 2 * interval else 120000
    case (None, None) => 120000
  }

  /** After a run that still held the key, an idle instance can start exactly once the reserved time is over. */
  lemma OthersStartAfterReserve(configs: Id -> Config, sys: System, i: Id, elapsed: nat, j: Id)
    requires PhaseOf(sys, i) == Running && Holder(sys.store) == Some(i) && i != j && PhaseOf(sys, j) == Idle
    ensures var end := Step(configs, Step(configs, Step(configs, sys, Finish(i)), Tick(elapsed)), Fresh(j));
            PhaseOf(end, i) == Idle && (PhaseOf(end, j) == Running <==> elapsed >= AfterRun(configs(i)))
  {
  }

  /** After a start, or a refresh during the run, an idle instance can start exactly once the lease has run out. */
  lemma OthersStartAfterLease(configs: Id -> Config, sys: System, i: Id, elapsed: nat, j: Id)
    requires i != j && PhaseOf(sys, j) == Idle && 0 < LeaseTime(configs(i))
    requires (PhaseOf(sys, i) == Idle && Holder(sys.store) == None) || (PhaseOf(sys, i) == Running && Holder(sys.store) == Some(i))
    ensures var begun := if PhaseOf(sys, i) == Idle then Step(configs, sys, Fresh(i)) else Step(configs, sys, AutoRefresh(i));
            var end := Step(configs, Step(configs, begun, Tick(elapsed)), Fresh(j));
            PhaseOf(begun, i) == Running && (PhaseOf(end, j) == Running <==> elapsed >= LeaseTime(configs(i)))
  {
  }

  /**
   * Both assumptions are needed: right after a step that leaves `i` running, a first attempt of an idle
   * instance makes two run at once exactly when that step broke one of them.
   */
  lemma ViolationBreaksExclusion(configs: Id -> Config, sys: System, a: Action, i: Id, j: Id)
    requires PositiveTimeouts(configs) && RunnersHold(sys) && Enabled(sys, a)
    requires PhaseOf(sys, i) == Running && PhaseOf(Step(configs, sys, a), i) == Running
    requires i != j && PhaseOf(Step(configs, sys, a), j) == Idle
    ensures var end := Step(configs, Step(configs, sys, a), Fresh(j));
            PhaseOf(end, i) == Running && PhaseOf(end, j) == Running <==> !(Timely(sys, a) && NotDisposedMidRun(sys, a))
  {
    var next := Step(configs, sys, a);
    assert i in sys.phases && Holder(sys.store) == Some(i);
    StepKeepsRunnersHolding(configs, sys, a);
    if Timely(sys, a) && NotDisposedMidRun(sys, a) {
      assert i in next.phases && Holder(next.store) == Some(i);
    } else {
      assert a.Tick? || a == Dispose(i) by { RunnerIsUnique(sys, i); }
      assert Holder(next.store) == None;
    }
  }

  lemma RunnerIsUnique(sys: System, i: Id)
    requires RunnersHold(sys) && PhaseOf(sys, i) == Running
    ensures forall k :: PhaseOf(sys, k) == Running ==> k == i
  {
    assert i in sys.phases;
    forall k | PhaseOf(sys, k) == Running ensures k == i { assert k in sys.phases; }
  }

  /** The same after any history that kept the assumptions: their first breach is what breaks exclusion. */
  lemma FirstBreachBreaksExclusion(configs: Id -> Config, history: seq<Action>, a: Action, i: Id, j: Id)
    requires PositiveTimeouts(configs) && Disciplined(configs, INITIAL, history)
    requires Enabled(Execute(configs, INITIAL, history), a)
    requires PhaseOf(Execute(configs, INITIAL, history), i) == Running
    requires PhaseOf(Execute(configs, INITIAL, history + [a]), i) == Running
    requires i != j && PhaseOf(Execute(configs, INITIAL, history + [a]), j) == Idle
    ensures var sys, end := Execute(configs, INITIAL, history), Execute(configs, INITIAL, history + [a] + [Fresh(j)]);
            PhaseOf(end, i) == Running && PhaseOf(end, j) == Running <==> !(Timely(sys, a) && NotDisposedMidRun(sys, a))
  {
    hide Step;
    var sys := Execute(configs, INITIAL, history);
    DisciplinedRunnersHold(configs, INITIAL, history);
    DisciplinedSplit(configs, INITIAL, history, [a]);
    DisciplinedSplit(configs, INITIAL, history + [a], [Fresh(j)]);
    ExecuteOne(configs, sys, a);
    ExecuteOne(configs, Step(configs, sys, a), Fresh(j));
    ViolationBreaksExclusion(configs, sys, a, i, j);
  }

  lemma ExecuteOne(configs: Id -> Config, sys: System, a: Action)
    ensures Execute(configs, sys, [a]) == Step(configs, sys, a)
  {
    assert [a][1..] == [];
  }

  /** A late refresh breaks exclusion: the expired lease goes to another instance while the first still runs. */
  lemma LateRefreshBreaksExclusion(configs: Id -> Config)
    requires PositiveTimeouts(configs)
    ensures var end := Execute(configs, INITIAL, [Fresh(1)] + [Tick(LockTimeout(configs(1)))] + [Fresh(2)]);
            PhaseOf(end, 1) == Running && PhaseOf(end, 2) == Running
  {
    var late := Tick(LockTimeout(configs(1)));
    assert LockTimeout(configs(1)) > 0;
    ExecuteOne(configs, INITIAL, Fresh(1));
    DisciplinedSplit(configs, INITIAL, [Fresh(1)], [late]);
    ExecuteOne(configs, Execute(configs, INITIAL, [Fresh(1)]), late);
    assert Disciplined(configs, INITIAL, [Fresh(1)]) by { assert [Fresh(1)][1..] == []; }
    FirstBreachBreaksExclusion(configs, [Fresh(1)], late, 1, 2);
  }

  /** Being disposed of mid-run does break exclusion: the released key is free for another instance. */
  lemma DisposeMidRunBreaksExclusion(configs: Id -> Config)
    requires PositiveTimeouts(configs)
    ensures var end := Execute(configs, INITIAL, [Fresh(1), Dispose(1), Fresh(2)]);
            PhaseOf(end, 1) == Running && PhaseOf(end, 2) == Running
  {
    assert LockTimeout(configs(1)) > 0;
    var s1 := Step(configs, INITIAL, Fresh(1));
    var s2 := Step(configs, s1, Dispose(1));
    var s3 := Step(configs, s2, Fresh(2));
    assert [Fresh(1), Dispose(1), Fresh(2)][1..] == [Dispose(1), Fresh(2)];
    assert [Dispose(1), Fresh(2)][1..] == [Fresh(2)] && [Fresh(2)][1..] == [];
    assert Execute(configs, s2, [Fresh(2)]) == Execute(configs, s3, []);
    assert Execute(configs, s1, [Dispose(1), Fresh(2)]) == s3;
  }
}
