// What the refresh protocol guarantees over every run.

module RefreshTheorems {
  import opened Prelude
  import opened Clocks
  import opened Errors
  import opened Selectors
  import opened VaultCache
  import opened Refresh
  import opened RefreshInvariant

  // ---------- When a call may skip its own fetch ----------

  /** The step makes call `c` return `Ok` from the refresh check without installing a fetch of its own. */
  predicate ReusesCache(s: State, s': State, c: Call) {
    && c in s.pcs && c in s'.pcs
    && s'.pcs[c].Reading? && !s.pcs[c].Reading? && !s.pcs[c].Installing?
  }

  /** The instant at which the call judged the vault's age. */
  function JudgedAt(s: State, c: Call): Instant
    requires c in s.pcs
  {
    if s.pcs[c].AwaitStale? then s.pcs[c].judgedAt else s.clock
  }

  /** Younger than the ttl, and more than 30 seconds before any token expiry the clock can represent. */
  predicate FreshBy(config: CacheConfig, v: CachedVault, at: Instant) {
    && at < v.fetchedAt + config.ttl
    && match v.session.expiresIn
       case None => true
       case Some(seconds) =>
         var expiry := v.fetchedAt + seconds * SECOND;
         expiry <= config.lastInstant ==> at + 30 * SECOND < expiry
  }

  /** Freshness, for a vault that some fetch brought, in terms of the settings and of that fetch. */
  lemma FreshExactly(config: CacheConfig, log: seq<Attempt>, v: CachedVault, at: Instant)
    requires FetchedWhole(config, log, v) && v.fetchedAt <= at
    ensures IsFreshAt(v, config, at) <==> FreshBy(config, v, at)
  {
    ReuseBounds(v, config, at);
  }

  /**
   * Within the stale window: younger than the ttl and the window together, and than the longest
   * duration, at which their sum saturates.
   */
  predicate StaleBy(config: CacheConfig, v: CachedVault, at: Instant) {
    && config.staleIfError > 0
    && at < v.fetchedAt + config.ttl + config.staleIfError
    && at < v.fetchedAt + 0xFFFF_FFFF_FFFF_FFFF * 1_000_000_000 + 999_999_999
  }

  /** The attempt that finished last failed, transiently. */
  predicate FailedTransiently(log: seq<Attempt>) {
    match LastFinished(log)
    case Some(FetchFailed(_, e, _)) => IsTransient(e)
    case _ => false
  }

  lemma EligibleWhenReused(env: Env, s: State, c: Call)
    requires Inv(env, s) && c in s.pcs && RunCall(env, s, c).Some?
    requires ReusesCache(s, RunCall(env, s, c).value, c)
    ensures s.shared.cache.Some?
    ensures var v, at := s.shared.cache.value, JudgedAt(s, c);
            && v.fetchedAt <= at <= s.clock
            && (FreshBy(env.config, v, at) || (StaleBy(env.config, v, at) && FailedTransiently(s.log)))
  {
    if TransientFailure(LastFinished(s.log)) {
      TransientExactly(LastFinished(s.log).value.error);
    }
    if s.pcs[c].AwaitStale? {
      assert s.mutex == Some(c);
      assert Holder(s) == s.pcs[c];
    }
    var v, at := s.shared.cache.value, JudgedAt(s, c);
    ReuseBounds(v, env.config, at);
    FreshExactly(env.config, s.log, v, at);
  }

  /**
   * In every interleaving, a call that reuses the cache does so on a vault that was fresh when
   * judged, or on one within the stale window while the most recently finished refresh attempt
   * of the whole process failed for lack of a response or with status 408, 429 or 5xx. In particular nothing stale is served after a
   * non-transient failure, or after a success, until another attempt has finished.
   */
  lemma ReusedOnlyWhenEligible(env: Env, steps: seq<Step>, step: Step, c: Call)
    requires Execute(env, steps).Some? && Apply(env, Execute(env, steps).value, step).Some?
    requires ReusesCache(Execute(env, steps).value, Apply(env, Execute(env, steps).value, step).value, c)
    ensures var s := Execute(env, steps).value;
            && s.shared.cache.Some?
            && var v, at := s.shared.cache.value, JudgedAt(s, c);
            && v.fetchedAt <= at <= s.clock
            && (FreshBy(env.config, v, at)
                || (StaleBy(env.config, v, at) && FailedTransiently(s.log)))
  {
    Reachable(env, steps);
    assert step == Run(c);
    EligibleWhenReused(env, Execute(env, steps).value, c);
  }

  // ---------- One fetch at a time, and the shared cooldown ----------

  /** At most one call is fetching, and it is the one recorded as in flight. */
  lemma SingleFlight(env: Env, steps: seq<Step>)
    requires Execute(env, steps).Some?
    ensures var s := Execute(env, steps).value;
            && (forall c, d | c in s.pcs && d in s.pcs && s.pcs[c].Fetching? && s.pcs[d].Fetching? :: c == d)
            && (forall i | 0 <= i < |s.log| :: s.log[i].outcome.InFlight? ==>
                  i == |s.log| - 1 && exists c | c in s.pcs :: s.pcs[c].Fetching?)
  {
    Reachable(env, steps);
    OneInFlight(env.config, Execute(env, steps).value);
  }

  lemma OneInFlight(config: CacheConfig, s: State)
    requires MutexInv(s) && LogInv(config, s)
    ensures forall c, d | c in s.pcs && d in s.pcs && s.pcs[c].Fetching? && s.pcs[d].Fetching? :: c == d
    ensures forall i | 0 <= i < |s.log| :: s.log[i].outcome.InFlight? ==>
              i == |s.log| - 1 && exists c | c in s.pcs :: s.pcs[c].Fetching?
  {
    assert forall i | 0 <= i < |s.log| - 1 :: Before(config, s.log[i], s.log[|s.log| - 1]);
    if Holder(s).Fetching? {
      assert s.pcs[s.mutex.value].Fetching?;
    }
    forall c, d | c in s.pcs && d in s.pcs && s.pcs[c].Fetching? && s.pcs[d].Fetching? ensures c == d {
      assert s.pcs[c].HoldsMutex() && s.pcs[d].HoldsMutex();
    }
  }

  /** A fetch runs only while the cache holds nothing fresh and nothing that may be deferred. */
  lemma FetchesOnlyWhenNeeded(env: Env, steps: seq<Step>, c: Call)
    requires Execute(env, steps).Some?
    requires c in Execute(env, steps).value.pcs && Execute(env, steps).value.pcs[c].Fetching?
    ensures var s := Execute(env, steps).value;
            s.shared.cache.Some? ==>
              && !FreshBy(env.config, s.shared.cache.value, s.clock)
              && !DeferredBy(env.config, s.shared.cache.value, s.clock)
  {
    Reachable(env, steps);
    var s := Execute(env, steps).value;
    assert Holder(s).Fetching?;
    if s.shared.cache.Some? {
      FreshExactly(env.config, s.log, s.shared.cache.value, s.clock);
      ReuseBounds(s.shared.cache.value, env.config, s.clock);
    }
  }

  /** Within the stale window, and before the instant to which the last stale serve deferred the refresh. */
  predicate DeferredBy(config: CacheConfig, v: CachedVault, at: Instant) {
    StaleBy(config, v, at) && v.refreshRetryAfter.Some? && at < v.refreshRetryAfter.value
  }

  /**
   * Either check, before or under the mutex, accepts the cached vault exactly when it is fresh or
   * its refresh is deferred; otherwise the call goes on.
   */
  lemma ChecksExactly(env: Env, steps: seq<Step>, c: Call)
    requires Execute(env, steps).Some?
    requires var s := Execute(env, steps).value; c in s.pcs && (s.pcs[c].FirstCheck? || s.pcs[c].SecondCheck?)
    ensures var s := Execute(env, steps).value;
            var v := s.shared.cache;
            var s' := RunCall(env, s, c).value;
            if v.Some? && (FreshBy(env.config, v.value, s.clock) || DeferredBy(env.config, v.value, s.clock))
            then s'.pcs[c] == Reading(Basis(v.value.fetchedAt, s.clock))
            else s'.pcs[c] == if s.pcs[c].FirstCheck? then AwaitMutex else ThrottleCheck
  {
    Reachable(env, steps);
    var s := Execute(env, steps).value;
    if s.shared.cache.Some? {
      FreshExactly(env.config, s.log, s.shared.cache.value, s.clock);
      ReuseBounds(s.shared.cache.value, env.config, s.clock);
    }
  }

  /** The recorded failure's deadline can be represented by the clock. */
  predicate DeadlineFits(config: CacheConfig, outcome: Outcome)
    requires outcome.FetchFailed?
  {
    outcome.recordedAt.Some? ==> outcome.recordedAt.value + config.retryInterval <= config.lastInstant
  }

  /** After a failed attempt, whoever starts the next one starts it no sooner than the cooldown allows. */
  lemma CooldownRespected(env: Env, steps: seq<Step>, i: nat, j: nat)
    requires Execute(env, steps).Some?
    requires i < j < |Execute(env, steps).value.log|
    requires var a := Execute(env, steps).value.log[i].outcome;
             a.FetchFailed? && DeadlineFits(env.config, a)
    ensures var log := Execute(env, steps).value.log;
            log[j].startedAt >= log[i].outcome.at + env.config.retryInterval
  {
    Reachable(env, steps);
    var s := Execute(env, steps).value;
    assert Before(env.config, s.log[i], s.log[j]);
    assert WellTimed(s.log[i], s.clock);
  }

  // ---------- How often the upstream is asked ----------

  function Count(log: seq<Attempt>, p: Attempt -> bool): nat {
    if log == [] then 0 else Count(log[..|log| - 1], p) + if p(log[|log| - 1]) then 1 else 0
  }

  predicate StartedWithin(a: Attempt, from: Instant, to: Instant) {
    from <= a.startedAt <= to
  }

  predicate FailedWithin(a: Attempt, from: Instant, to: Instant) {
    a.outcome.FetchFailed? && from <= a.outcome.at <= to
  }

  /** How many attempts finished with a failure in a window. */
  function FailuresWithin(log: seq<Attempt>, from: Instant, to: Instant): nat {
    Count(log, (a: Attempt) => FailedWithin(a, from, to))
  }

  /** How many attempts started in a window, in all and by their outcome. */
  function StartsWithin(log: seq<Attempt>, from: Instant, to: Instant): nat {
    Count(log, (a: Attempt) => StartedWithin(a, from, to))
  }

  function DropsWithin(log: seq<Attempt>, from: Instant, to: Instant): nat {
    Count(log, (a: Attempt) => StartedWithin(a, from, to) && a.outcome.Abandoned?)
  }

  function SuccessesWithin(log: seq<Attempt>, from: Instant, to: Instant): nat {
    Count(log, (a: Attempt) => StartedWithin(a, from, to) && a.outcome.Succeeded?)
  }

  /** The other two outcomes: failed, or still in flight. */
  function PressingWithin(log: seq<Attempt>, from: Instant, to: Instant): nat {
    Count(log, (a: Attempt) => StartedWithin(a, from, to) && (a.outcome.FetchFailed? || a.outcome.InFlight?))
  }

  lemma {:induction false} StartsSplit(log: seq<Attempt>, from: Instant, to: Instant)
    ensures StartsWithin(log, from, to) ==
            PressingWithin(log, from, to) + DropsWithin(log, from, to) + SuccessesWithin(log, from, to)
  {
    if log != [] {
      StartsSplit(log[..|log| - 1], from, to);
    }
  }

  // ---------- Instants that keep apart ----------

  predicate Apart(times: seq<Instant>, gap: nat) {
    forall i, j | 0 <= i < j < |times| :: times[i] + gap <= times[j]
  }

  lemma {:induction false} ApartBound(times: seq<Instant>, gap: nat)
    requires Apart(times, gap) && times != []
    ensures times[0] + (|times| - 1) * gap <= times[|times| - 1]
  {
    var n := |times| - 1;
    if n > 0 {
      ApartBound(times[..n], gap);
      assert times[n - 1] + gap <= times[n];
      AddOne(n - 1, gap);
    }
  }

  lemma AddOne(n: int, d: nat)
    ensures (n + 1) * d == n * d + d
  {
  }

  /** The instants that `at` picks from the log, in order. */
  function Picked(log: seq<Attempt>, at: Attempt -> Option<Instant>): seq<Instant> {
    if log == [] then []
    else
      Picked(log[..|log| - 1], at) +
      match at(log[|log| - 1]) case None => [] case Some(t) => [t]
  }

  lemma {:induction false} PickedFrom(log: seq<Attempt>, at: Attempt -> Option<Instant>, t: Instant)
    requires t in Picked(log, at)
    ensures exists i :: 0 <= i < |log| && at(log[i]) == Some(t)
  {
    var n := |log| - 1;
    if at(log[n]) != Some(t) {
      PickedFrom(log[..n], at, t);
      var i :| 0 <= i < n && at(log[..n][i]) == Some(t);
      assert at(log[i]) == Some(t);
    }
  }

  ghost predicate PickedApart(log: seq<Attempt>, at: Attempt -> Option<Instant>, gap: nat) {
    forall i, j | 0 <= i < j < |log| && at(log[i]).Some? && at(log[j]).Some? :: at(log[i]).value + gap <= at(log[j]).value
  }

  lemma {:induction false} PickedKeepApart(log: seq<Attempt>, at: Attempt -> Option<Instant>, gap: nat)
    requires PickedApart(log, at, gap)
    ensures Apart(Picked(log, at), gap)
  {
    if log != [] {
      var n := |log| - 1;
      var before := Picked(log[..n], at);
      PickedKeepApart(log[..n], at, gap);
      if at(log[n]).Some? {
        forall i | 0 <= i < |before| ensures before[i] + gap <= at(log[n]).value {
          PickedFrom(log[..n], at, before[i]);
        }
      }
    }
  }

  lemma {:induction false} PickedCount(log: seq<Attempt>, at: Attempt -> Option<Instant>, p: Attempt -> bool)
    requires forall i | 0 <= i < |log| :: p(log[i]) <==> at(log[i]).Some?
    ensures |Picked(log, at)| == Count(log, p)
  {
    if log != [] {
      PickedCount(log[..|log| - 1], at, p);
    }
  }

  /** Attempts whose instants lie in a window and keep an interval apart are at most W / interval + 1. */
  lemma WindowBound(log: seq<Attempt>, at: Attempt -> Option<Instant>, p: Attempt -> bool, gap: nat, from: Instant, to: Instant)
    requires gap > 0 && from <= to && PickedApart(log, at, gap)
    requires forall i | 0 <= i < |log| :: p(log[i]) <==> at(log[i]).Some?
    requires forall i | 0 <= i < |log| :: at(log[i]).Some? ==> from <= at(log[i]).value <= to
    ensures Count(log, p) <= (to - from) / gap + 1
  {
    var times := Picked(log, at);
    PickedKeepApart(log, at, gap);
    PickedCount(log, at, p);
    if times != [] {
      PickedFrom(log, at, times[0]);
      PickedFrom(log, at, times[|times| - 1]);
      ApartBound(times, gap);
      DivBound(|times| - 1, gap, to - from);
    } else {
      DivBound(0, gap, to - from);
    }
  }

  /** In a well-timed sequential log, a later attempt starts an interval after an earlier failure. */
  lemma FailureSpaces(config: CacheConfig, s: State, i: nat, j: nat, to: Instant)
    requires LogInv(config, s) && i < j < |s.log|
    requires s.log[i].outcome.FetchFailed? || s.log[i].outcome.InFlight?
    requires s.log[j].startedAt <= to && to + config.retryInterval <= config.lastInstant
    ensures s.log[i].outcome.FetchFailed?
    ensures s.log[i].startedAt <= s.log[i].outcome.at
    ensures s.log[i].outcome.at + config.retryInterval <= s.log[j].startedAt
  {
    assert Before(config, s.log[i], s.log[j]);
    assert WellTimed(s.log[i], s.clock);
  }

  /**
   * However many callers there are, a window of length W sees at most W / interval + 1 failed
   * attempts finish, provided the clock can still represent the window's end plus the interval.
   */
  lemma FailureRateBound(env: Env, steps: seq<Step>, from: Instant, to: Instant)
    requires Execute(env, steps).Some?
    requires from <= to && env.config.retryInterval > 0
    requires to + env.config.retryInterval <= env.config.lastInstant
    ensures FailuresWithin(Execute(env, steps).value.log, from, to) <= (to - from) / env.config.retryInterval + 1
  {
    Reachable(env, steps);
    FailuresBound(env.config, Execute(env, steps).value, from, to);
  }

  lemma FailuresBound(config: CacheConfig, s: State, from: Instant, to: Instant)
    requires LogInv(config, s) && from <= to && config.retryInterval > 0
    requires to + config.retryInterval <= config.lastInstant
    ensures FailuresWithin(s.log, from, to) <= (to - from) / config.retryInterval + 1
  {
    var p := (a: Attempt) => FailedWithin(a, from, to);
    var at := (a: Attempt) => if FailedWithin(a, from, to) then Some(a.outcome.at) else None;
    forall i, j | 0 <= i < j < |s.log| && at(s.log[i]).Some? && at(s.log[j]).Some?
      ensures at(s.log[i]).value + config.retryInterval <= at(s.log[j]).value
    {
      assert WellTimed(s.log[j], s.clock);
      FailureSpaces(config, s, i, j, to);
    }
    WindowBound(s.log, at, p, config.retryInterval, from, to);
  }

  lemma PressingBound(config: CacheConfig, s: State, from: Instant, to: Instant)
    requires LogInv(config, s) && from <= to && config.retryInterval > 0
    requires to + config.retryInterval <= config.lastInstant
    ensures PressingWithin(s.log, from, to) <= (to - from) / config.retryInterval + 1
  {
    var p := (a: Attempt) => StartedWithin(a, from, to) && (a.outcome.FetchFailed? || a.outcome.InFlight?);
    var at := (a: Attempt) =>
      if StartedWithin(a, from, to) && (a.outcome.FetchFailed? || a.outcome.InFlight?) then Some(a.startedAt) else None;
    forall i, j | 0 <= i < j < |s.log| && at(s.log[i]).Some? && at(s.log[j]).Some?
      ensures at(s.log[i]).value + config.retryInterval <= at(s.log[j]).value
    {
      FailureSpaces(config, s, i, j, to);
    }
    WindowBound(s.log, at, p, config.retryInterval, from, to);
  }

  /**
   * The pressure on the upstream: a window of length W sees at most W / interval + 1 attempts
   * start, besides those of the window that succeeded or were dropped by their caller, provided
   * the clock can represent the window's end plus the interval.
   */
  lemma StartRateBound(env: Env, steps: seq<Step>, from: Instant, to: Instant)
    requires Execute(env, steps).Some?
    requires from <= to && env.config.retryInterval > 0
    requires to + env.config.retryInterval <= env.config.lastInstant
    ensures var log := Execute(env, steps).value.log;
            StartsWithin(log, from, to) <=
            (to - from) / env.config.retryInterval + 1 + DropsWithin(log, from, to) + SuccessesWithin(log, from, to)
  {
    Reachable(env, steps);
    var s := Execute(env, steps).value;
    PressingBound(env.config, s, from, to);
    StartsSplit(s.log, from, to);
  }

  lemma DivBound(n: int, d: nat, w: nat)
    requires d > 0 && n * d <= w
    ensures n <= w / d
  {
    var q := w / d;
    assert w < (q + 1) * d;
    CancelFactor(n, q + 1, d);
  }

  lemma CancelFactor(a: int, b: int, d: nat)
    requires a * d < b * d
    ensures a < b
  {
  }

  /**
   * A call that has found nothing to reuse starts a fetch exactly when the last finished
   * attempt is not a failure, its deadline overflowed the clock, or the deadline has passed.
   */
  lemma FetchStartsExactly(env: Env, steps: seq<Step>, c: Call)
    requires Execute(env, steps).Some?
    requires c in Execute(env, steps).value.pcs && Execute(env, steps).value.pcs[c].ThrottleCheck?
    ensures var s := Execute(env, steps).value;
            var s' := RunCall(env, s, c).value;
            && (s'.pcs[c].Fetching? || s'.pcs[c] == Done(Err(Api(RefreshThrottled)), None))
            && (s'.pcs[c].Fetching? <==>
                  match LastFinished(s.log)
                  case Some(FetchFailed(_, _, Some(r))) =>
                    || r + env.config.retryInterval > env.config.lastInstant
                    || s.clock >= r + env.config.retryInterval
                  case _ => true)
  {
    Reachable(env, steps);
    var s := Execute(env, steps).value;
    assert s.mutex == Some(c);
    assert Holder(s).ThrottleCheck?;
  }

  // ---------- An interval beyond the clock's range disables the cooldown ----------

  /**
   * If the retry interval exceeds the clock's range, `checked_add` overflows for every failure
   * and the cooldown does not exist: no call is ever throttled.
   */
  lemma OverflowNeverThrottles(env: Env, steps: seq<Step>)
    requires Execute(env, steps).Some?
    requires env.config.retryInterval > env.config.lastInstant
    ensures var s := Execute(env, steps).value;
            Holder(s).Completed? || Holder(s).Broken? || s.shared.retryAfter.None?
  {
    Reachable(env, steps);
    NoDeadline(env.config, Execute(env, steps).value);
  }

  lemma NoDeadline(config: CacheConfig, s: State)
    requires CooldownInv(config, s) && config.retryInterval > config.lastInstant
    ensures Holder(s).Completed? || Holder(s).Broken? || s.shared.retryAfter.None?
  {
    match LastFinished(s.log)
    case Some(FetchFailed(_, _, Some(r))) => assert CheckedAdd(r, config.retryInterval, config.lastInstant).None?;
    case _ =>
  }

  // ---------- Runs in which the upstream is asked again and again ----------

  lemma ExecuteOne(env: Env, steps: seq<Step>, step: Step)
    ensures Execute(env, steps + [step]) ==
            match Execute(env, steps) case None => None case Some(s) => Apply(env, s, step)
  {
    assert (steps + [step])[..|steps|] == steps;
  }

  /** Nothing is cached or cooling down, nobody holds the mutex, and all attempts so far started now. */
  predicate Cold(s: State, t: Instant, attempts: nat) {
    && s.clock == t && s.mutex.None? && s.shared.cache.None? && s.shared.retryAfter.None?
    && |s.log| == attempts
    && (forall i | 0 <= i < attempts :: StartedWithin(s.log[i], t, t))
    && (forall c | c in s.pcs :: c.number < attempts)
  }

  /** A state that differs from the cold one only in the position of one call. */
  predicate Underway(s: State, cold: State, c: Call, pc: Pc, mutex: Option<Call>, log: seq<Attempt>) {
    && s.clock == cold.clock && s.shared.cache.None? && s.shared.retryAfter.None?
    && s.mutex == mutex && s.pcs == cold.pcs[c := pc] && s.log == log
  }

  lemma ArrivesCold(env: Env, s: State, c: Call)
    requires Cold(s, s.clock, c.number)
    ensures Apply(env, s, Arrive(c)).Some?
    ensures Underway(Apply(env, s, Arrive(c)).value, s, c, FirstCheck, None, s.log)
  {
  }

  lemma MissesTwice(env: Env, s: State, cold: State, c: Call)
    ensures Underway(s, cold, c, FirstCheck, None, cold.log) ==>
              var s' := Apply(env, s, Run(c)); s'.Some? && Underway(s'.value, cold, c, AwaitMutex, None, cold.log)
    ensures Underway(s, cold, c, SecondCheck, Some(c), cold.log) ==>
              var s' := Apply(env, s, Run(c)); s'.Some? && Underway(s'.value, cold, c, ThrottleCheck, Some(c), cold.log)
  {
  }

  lemma LocksCold(env: Env, s: State, cold: State, c: Call)
    requires Underway(s, cold, c, AwaitMutex, None, cold.log)
    ensures Apply(env, s, Run(c)).Some?
    ensures Underway(Apply(env, s, Run(c)).value, cold, c, SecondCheck, Some(c), cold.log)
  {
  }

  lemma FetchesCold(env: Env, s: State, cold: State, c: Call)
    requires Underway(s, cold, c, ThrottleCheck, Some(c), cold.log)
    ensures Apply(env, s, Run(c)).Some?
    ensures Underway(Apply(env, s, Run(c)).value, cold, c, Fetching, Some(c), cold.log + [Attempt(cold.clock, InFlight)])
  {
  }

  /** One more call gets as far as its fetch. */
  lemma FetchBegins(env: Env, steps: seq<Step>, c: Call, t: Instant) returns (more: seq<Step>)
    requires Execute(env, steps).Some? && Cold(Execute(env, steps).value, t, c.number)
    ensures Execute(env, more).Some?
    ensures var cold := Execute(env, steps).value;
            Underway(Execute(env, more).value, cold, c, Fetching, Some(c), cold.log + [Attempt(t, InFlight)])
  {
    var cold := Execute(env, steps).value;
    more := steps + [Arrive(c)];
    ExecuteOne(env, steps, Arrive(c));
    ArrivesCold(env, cold, c);
    MissesTwice(env, Execute(env, more).value, cold, c);
    ExecuteOne(env, more, Run(c));
    more := more + [Run(c)];
    LocksCold(env, Execute(env, more).value, cold, c);
    ExecuteOne(env, more, Run(c));
    more := more + [Run(c)];
    MissesTwice(env, Execute(env, more).value, cold, c);
    ExecuteOne(env, more, Run(c));
    more := more + [Run(c)];
    FetchesCold(env, Execute(env, more).value, cold, c);
    ExecuteOne(env, more, Run(c));
    more := more + [Run(c)];
  }

  /** The caller leaves during its fetch. */
  lemma DropsCold(env: Env, s: State, cold: State, c: Call, t: Instant)
    requires Cold(cold, t, c.number)
    requires Underway(s, cold, c, Fetching, Some(c), cold.log + [Attempt(t, InFlight)])
    ensures Apply(env, s, Cancel(c)).Some?
    ensures var s' := Apply(env, s, Cancel(c)).value;
            Cold(s', t, c.number + 1) && s'.log == cold.log + [Attempt(t, Abandoned(t))]
  {
    assert s.log[..|s.log| - 1] == cold.log;
  }

  lemma BreaksCold(env: Env, s: State, cold: State, c: Call, t: Instant, error: ClientError)
    requires Cold(cold, t, c.number) && error.IsFetchError()
    requires Underway(s, cold, c, Fetching, Some(c), cold.log + [Attempt(t, InFlight)])
    ensures Apply(env, s, FetchErr(c, error)).Some?
    ensures Underway(Apply(env, s, FetchErr(c, error)).value, cold, c, Broken(error), Some(c),
                     cold.log + [Attempt(t, FetchFailed(t, error, None))])
  {
    assert s.log[..|s.log| - 1] == cold.log;
  }

  /** The failure is recorded, but its deadline overflows. */
  lemma FailsCold(env: Env, s: State, cold: State, c: Call, t: Instant, error: ClientError)
    requires Cold(cold, t, c.number) && !error.PermitsStaleCache()
    requires t + env.config.retryInterval > env.config.lastInstant
    requires Underway(s, cold, c, Broken(error), Some(c), cold.log + [Attempt(t, FetchFailed(t, error, None))])
    ensures Apply(env, s, Run(c)).Some?
    ensures var s' := Apply(env, s, Run(c)).value;
            Cold(s', t, c.number + 1) && s'.log == cold.log + [Attempt(t, FetchFailed(t, error, Some(t)))]
  {
    assert s.log[..|s.log| - 1] == cold.log;
  }

  /** The run has `n` attempts, all started at instant `t` and all with the same kind of outcome. */
  predicate AllDropped(s: State, t: Instant, n: nat) {
    Cold(s, t, n) && forall i | 0 <= i < n :: s.log[i].outcome == Abandoned(t)
  }

  predicate AllFailed(s: State, t: Instant, n: nat) {
    Cold(s, t, n) && forall i | 0 <= i < n :: FailedWithin(s.log[i], t, t)
  }

  lemma WaitUntil(env: Env, t: Instant)
    requires t <= env.config.lastInstant
    ensures Execute(env, [Tick(t)]).Some?
    ensures AllDropped(Execute(env, [Tick(t)]).value, t, 0) && AllFailed(Execute(env, [Tick(t)]).value, t, 0)
  {
    assert [] + [Tick(t)] == [Tick(t)];
    ExecuteOne(env, [], Tick(t));
  }

  lemma {:induction false} DroppedRun(env: Env, selector: Selector, t: Instant, n: nat) returns (steps: seq<Step>)
    requires t <= env.config.lastInstant
    ensures Execute(env, steps).Some? && AllDropped(Execute(env, steps).value, t, n)
  {
    if n == 0 {
      WaitUntil(env, t);
      steps := [Tick(t)];
    } else {
      var before := DroppedRun(env, selector, t, n - 1);
      var c := Call(n - 1, selector);
      var cold := Execute(env, before).value;
      var fetching := FetchBegins(env, before, c, t);
      DropsCold(env, Execute(env, fetching).value, cold, c, t);
      ExecuteOne(env, fetching, Cancel(c));
      steps := fetching + [Cancel(c)];
    }
  }

  lemma {:induction false} FailedRun(env: Env, selector: Selector, error: ClientError, t: Instant, n: nat) returns (steps: seq<Step>)
    requires t <= env.config.lastInstant < t + env.config.retryInterval
    requires error.IsFetchError() && !error.PermitsStaleCache()
    ensures Execute(env, steps).Some? && AllFailed(Execute(env, steps).value, t, n)
  {
    if n == 0 {
      WaitUntil(env, t);
      steps := [Tick(t)];
    } else {
      var before := FailedRun(env, selector, error, t, n - 1);
      var c := Call(n - 1, selector);
      var cold := Execute(env, before).value;
      var fetching := FetchBegins(env, before, c, t);
      BreaksCold(env, Execute(env, fetching).value, cold, c, t, error);
      ExecuteOne(env, fetching, FetchErr(c, error));
      var broken := fetching + [FetchErr(c, error)];
      FailsCold(env, Execute(env, broken).value, cold, c, t, error);
      ExecuteOne(env, broken, Run(c));
      steps := broken + [Run(c)];
    }
  }

  lemma {:induction false} CountAll(log: seq<Attempt>, p: Attempt -> bool)
    ensures (forall i | 0 <= i < |log| :: p(log[i])) ==> Count(log, p) == |log|
    ensures (forall i | 0 <= i < |log| :: !p(log[i])) ==> Count(log, p) == 0
  {
    if log != [] {
      CountAll(log[..|log| - 1], p);
    }
  }

  lemma CountsOfRun(s: State, t: Instant, n: nat, from: Instant)
    requires from <= t && Cold(s, t, n)
    ensures StartsWithin(s.log, from, t) == n
    ensures AllDropped(s, t, n) ==> DropsWithin(s.log, from, t) == n && SuccessesWithin(s.log, from, t) == 0
    ensures AllFailed(s, t, n) ==>
              && FailuresWithin(s.log, from, t) == n
              && DropsWithin(s.log, from, t) == 0 && SuccessesWithin(s.log, from, t) == 0
  {
    CountAll(s.log, (a: Attempt) => StartedWithin(a, from, t));
    CountAll(s.log, (a: Attempt) => FailedWithin(a, from, t));
    CountAll(s.log, (a: Attempt) => StartedWithin(a, from, t) && a.outcome.Abandoned?);
    CountAll(s.log, (a: Attempt) => StartedWithin(a, from, t) && a.outcome.Succeeded?);
  }

  /**
   * A caller that leaves while its fetch is under way releases the mutex without starting the
   * cooldown. So, whatever the configuration, any number of attempts can start at one instant.
   */
  lemma DropsBreakTheRate(env: Env, selector: Selector, t: Instant, n: nat) returns (steps: seq<Step>)
    requires t <= env.config.lastInstant
    ensures Execute(env, steps).Some?
    ensures var log := Execute(env, steps).value.log;
            StartsWithin(log, t, t) == n && DropsWithin(log, t, t) == n
  {
    steps := DroppedRun(env, selector, t, n);
    CountsOfRun(Execute(env, steps).value, t, n, t);
  }

  /**
   * Where the deadline overflows, any number of attempts can start and fail at one instant, with
   * nobody leaving.
   */
  lemma OverflowBreaksTheRate(env: Env, selector: Selector, error: ClientError, t: Instant, n: nat) returns (steps: seq<Step>)
    requires t <= env.config.lastInstant < t + env.config.retryInterval
    requires error.IsFetchError() && !error.PermitsStaleCache()
    ensures Execute(env, steps).Some?
    ensures var log := Execute(env, steps).value.log;
            && StartsWithin(log, t, t) == n && FailuresWithin(log, t, t) == n
            && DropsWithin(log, t, t) == 0 && SuccessesWithin(log, t, t) == 0
  {
    steps := FailedRun(env, selector, error, t, n);
    CountsOfRun(Execute(env, steps).value, t, n, t);
  }

  /** During an outage that no caller runs away from, the window sees at most W / interval + 1 attempts start. */
  ghost predicate RateHolds(env: Env, steps: seq<Step>, from: Instant, to: Instant)
    requires env.config.retryInterval > 0
  {
    Execute(env, steps).Some? ==>
      var log := Execute(env, steps).value.log;
      SuccessesWithin(log, from, to) == 0 && DropsWithin(log, from, to) == 0 ==>
        StartsWithin(log, from, to) <= (to - from) / env.config.retryInterval + 1
  }

  /**
   * The promise that the interval bounds the pressure during an outage holds of every run without
   * dropped fetches exactly when the clock can represent the window's end plus the interval.
   */
  lemma RateHoldsExactly(env: Env, from: Instant, to: Instant)
    requires from <= to <= env.config.lastInstant && env.config.retryInterval > 0
    ensures (forall steps :: RateHolds(env, steps, from, to)) <==> to + env.config.retryInterval <= env.config.lastInstant
  {
    if to + env.config.retryInterval <= env.config.lastInstant {
      forall steps ensures RateHolds(env, steps, from, to) {
        if Execute(env, steps).Some? {
          StartRateBound(env, steps, from, to);
        }
      }
    } else {
      var n := (to - from) / env.config.retryInterval + 2;
      var steps := FailedRun(env, Selector("", None), Api(InvalidBaseUrl), to, n);
      CountsOfRun(Execute(env, steps).value, to, n, from);
      assert !RateHolds(env, steps, from, to);
    }
  }

  /** Nor can the condition on dropped fetches be left out: with them the promise fails in every window. */
  lemma RateNeedsNoDrops(env: Env, selector: Selector, from: Instant, to: Instant) returns (steps: seq<Step>)
    requires from <= to <= env.config.lastInstant && env.config.retryInterval > 0
    ensures Execute(env, steps).Some?
    ensures var log := Execute(env, steps).value.log;
            && SuccessesWithin(log, from, to) == 0
            && StartsWithin(log, from, to) > (to - from) / env.config.retryInterval + 1
  {
    var n := (to - from) / env.config.retryInterval + 2;
    steps := DroppedRun(env, selector, to, n);
    CountsOfRun(Execute(env, steps).value, to, n, from);
  }

  // ---------- The cache only ever moves forward ----------

  /** Once filled the cache stays filled, and no step replaces a vault by an older one. */
  lemma CacheMovesForward(env: Env, steps: seq<Step>, step: Step)
    requires Execute(env, steps).Some? && Apply(env, Execute(env, steps).value, step).Some?
    ensures var s := Execute(env, steps).value;
            var s' := Apply(env, s, step).value;
            s.shared.cache.Some? ==>
              && s'.shared.cache.Some?
              && s.shared.cache.value.fetchedAt <= s'.shared.cache.value.fetchedAt
  {
    Reachable(env, steps);
    StepMovesForward(env, Execute(env, steps).value, step);
  }

  lemma StepMovesForward(env: Env, s: State, step: Step)
    requires Inv(env, s) && Apply(env, s, step).Some?
    ensures var s' := Apply(env, s, step).value;
            s.shared.cache.Some? ==>
              s'.shared.cache.Some? && s.shared.cache.value.fetchedAt <= s'.shared.cache.value.fetchedAt
  {
    if step.Run? && s.pcs[step.call].HoldsMutex() {
      assert Holder(s) == s.pcs[step.call];
    }
  }

  /**
   * Every answer is the lookup function applied to one completed fetch, with the key and the
   * vault content of that same fetch, and that fetch is no older than the vault the refresh
   * check accepted. An empty cache is never read.
   */
  lemma AnswersComeFromOneFetch(env: Env, steps: seq<Step>, c: Call) returns (i: nat)
    requires Execute(env, steps).Some?
    requires c in Execute(env, steps).value.pcs && Execute(env, steps).value.pcs[c].Reading?
    ensures var s := Execute(env, steps).value;
            && i < |s.log| && s.log[i].outcome.Succeeded?
            && s.pcs[c].accepted.fetchedAt <= s.log[i].outcome.at
            && RunCall(env, s, c).Some?
            && RunCall(env, s, c).value.pcs[c] ==
               Done(env.resolve(s.log[i].outcome.sync, s.log[i].outcome.session.userKey, c.selector), Some(s.pcs[c].accepted))
  {
    Reachable(env, steps);
    var s := Execute(env, steps).value;
    var v := s.shared.cache.value;
    assert FetchedWhole(env.config, s.log, v);
    i :| 0 <= i < |s.log| && s.log[i].outcome == Succeeded(v.fetchedAt, v.session, v.sync);
  }

  /** `MissingCachedSync` is unreachable. */
  lemma CacheNeverMissing(env: Env, steps: seq<Step>, c: Call)
    requires env.Honest()
    requires Execute(env, steps).Some? && c in Execute(env, steps).value.pcs
    requires Execute(env, steps).value.pcs[c].Done?
    ensures Execute(env, steps).value.pcs[c].result != Err(Api(MissingCachedSync))
  {
    Reachable(env, steps);
  }

  // ---------- Nothing gets stuck ----------

  /** While some call is unfinished, some call or its upstream can take a step. */
  lemma NoDeadlock(env: Env, steps: seq<Step>, c: Call)
    requires Execute(env, steps).Some? && c in Execute(env, steps).value.pcs
    requires !Execute(env, steps).value.pcs[c].Done? && !Execute(env, steps).value.pcs[c].Cancelled?
    ensures var s := Execute(env, steps).value;
            exists d | d in s.pcs :: s.pcs[d].Fetching? || RunCall(env, s, d).Some?
  {
    Reachable(env, steps);
    var s := Execute(env, steps).value;
    if s.pcs[c].AwaitMutex? && s.mutex.Some? {
      var d := s.mutex.value;
      assert s.pcs[d].HoldsMutex();
      assert s.pcs[d].Fetching? || RunCall(env, s, d).Some?;
    } else {
      assert s.pcs[c].Fetching? || RunCall(env, s, c).Some?;
    }
  }
}

module RefreshCounters {
  import opened Prelude
  import opened Errors
  import opened Lookup
  import opened VaultCache
  import opened Refresh
  import opened RefreshInvariant

  /** How often each kind of event occurred. */
  datatype Tally = Tally(
    ok: nat, hits: nat, deferred: nat, staleAfterError: nat, refreshed: nat,
    errors: nat, throttled: nat, failed: nat,
    drops: nat, droppedInstalling: nat, droppedStale: nat)

  function Bit(b: bool): nat {
    if b then 1 else 0
  }

  function AddEvent(t: Tally, e: Event): Tally {
    match e
    case ReturnedOk(_, grounds) =>
      t.(ok := t.ok + 1,
         hits := t.hits + Bit(grounds.Fresh?),
         deferred := t.deferred + Bit(grounds.Deferred?),
         staleAfterError := t.staleAfterError + Bit(grounds.StaleAfterError?),
         refreshed := t.refreshed + Bit(grounds.Refreshed?))
    case ReturnedErr(_, error) =>
      t.(errors := t.errors + 1,
         throttled := t.throttled + Bit(error == Api(RefreshThrottled)),
         failed := t.failed + Bit(error != Api(RefreshThrottled)))
    case Dropped(_, at) =>
      t.(drops := t.drops + 1,
         droppedInstalling := t.droppedInstalling + Bit(at.Installing?),
         droppedStale := t.droppedStale + Bit(at.AwaitStale?))
  }

  function TallyOf(journal: seq<Event>): Tally {
    if journal == [] then Tally(0, 0, 0, 0, 0, 0, 0, 0, 0, 0, 0)
    else AddEvent(TallyOf(journal[..|journal| - 1]), journal[|journal| - 1])
  }

  lemma TallySnoc(journal: seq<Event>, e: Event)
    ensures TallyOf(journal + [e]) == AddEvent(TallyOf(journal), e)
  {
    assert (journal + [e])[..|journal|] == journal;
  }

  /** How many fetches of the log completed. */
  datatype Fetches = Fetches(succeeded: nat, failed: nat)

  function FetchesOf(log: seq<Attempt>): Fetches {
    if log == [] then Fetches(0, 0)
    else
      var n, last := FetchesOf(log[..|log| - 1]), log[|log| - 1].outcome;
      Fetches(n.succeeded + Bit(last.Succeeded?), n.failed + Bit(last.FetchFailed?))
  }

  lemma FetchesSnoc(log: seq<Attempt>, a: Attempt)
    ensures FetchesOf(log + [a]).succeeded == FetchesOf(log).succeeded + Bit(a.outcome.Succeeded?)
    ensures FetchesOf(log + [a]).failed == FetchesOf(log).failed + Bit(a.outcome.FetchFailed?)
  {
    assert (log + [a])[..|log|] == log;
  }

  /**
   * The exact account, in every reachable state of every run, cancellations included. The bits
   * stand for what the mutex holder has done upstream but not yet booked, or booked but not yet
   * returned.
   */
  predicate Accounts(n: Counters, h: Pc, t: Tally, f: Fetches) {
    && n.cacheHits == t.hits
    && n.staleServes == t.deferred + t.staleAfterError
    && n.refreshSuccesses == t.refreshed + t.droppedInstalling + Bit(h.Installing?)
    && n.refreshFailures == t.failed + t.staleAfterError + t.droppedStale + Bit(h.StaleNow? || h.AwaitStale?)
    && n.refreshSuccesses + Bit(h.Completed?) == f.succeeded
    && n.refreshFailures + Bit(h.Broken?) == f.failed
  }

  predicate Balanced(s: State) {
    Accounts(s.shared.counters, Holder(s), TallyOf(s.journal), FetchesOf(s.log))
  }

  /** The part of the invariant that the account relies on. */
  predicate Positions(s: State) {
    && MutexInv(s)
    && (Holder(s).Fetching? ==> s.log != [] && s.log[|s.log| - 1].outcome.InFlight?)
    && (Holder(s).Broken? ==>
          && s.log != [] && s.log[|s.log| - 1].outcome.FetchFailed?
          && Holder(s).error != Api(RefreshThrottled))
    && (Holder(s).AwaitStale? ==> Holder(s).error != Api(RefreshThrottled))
  }

  lemma InvPositions(env: Env, s: State)
    requires Inv(env, s)
    ensures Positions(s)
  {
  }

  lemma CloseCounts(s: State, outcome: Outcome)
    requires s.log != []
    ensures var f, f', last := FetchesOf(s.log), FetchesOf(CloseAttempt(s, outcome).log), s.log[|s.log| - 1].outcome;
            && f'.succeeded + Bit(last.Succeeded?) == f.succeeded + Bit(outcome.Succeeded?)
            && f'.failed + Bit(last.FetchFailed?) == f.failed + Bit(outcome.FetchFailed?)
  {
    var n := |s.log| - 1;
    assert s.log == s.log[..n] + [s.log[n]];
    FetchesSnoc(s.log[..n], s.log[n]);
    FetchesSnoc(s.log[..n], s.log[n].(outcome := outcome));
  }

  predicate Account(s: State, t: Tally, f: Fetches) {
    Accounts(s.shared.counters, Holder(s), t, f)
  }

  /** The step from `s` writes at most one journal entry, and the account of `s'` includes it. */
  predicate Booked(s: State, s': State, t: Tally, f: Fetches) {
    || (s'.journal == s.journal && Account(s', t, f))
    || (|s'.journal| == |s.journal| + 1
        && var e := s'.journal[|s.journal|];
           s'.journal == s.journal + [e] && Account(s', AddEvent(t, e), f))
  }

  lemma ReuseBooked(env: Env, s: State, c: Call, otherwise: Pc, t: Tally, f: Fetches)
    requires Positions(s) && Account(s, t, f) && c in s.pcs
    requires (s.pcs[c].FirstCheck? && otherwise.AwaitMutex?) || (s.pcs[c].SecondCheck? && otherwise.ThrottleCheck?)
    ensures Booked(s, CheckReuse(env, s, c, otherwise), t, f)
  {
    var s' := CheckReuse(env, s, c, otherwise);
    if s.mutex == Some(c) {
      assert Holder(s) == SecondCheck && (Holder(s') == ThrottleCheck || Holder(s') == AwaitMutex);
    } else {
      assert Holder(s') == Holder(s);
    }
  }

  lemma ThrottleBooked(env: Env, s: State, c: Call, t: Tally, f: Fetches)
    requires Positions(s) && Account(s, t, f) && c in s.pcs && s.pcs[c].ThrottleCheck?
    ensures Booked(s, CheckThrottle(s, c), t, f)
  {
    assert s.mutex == Some(c) && Holder(s) == ThrottleCheck;
    assert Holder(CheckThrottle(s, c)) == if Throttled(s.shared, s.clock) then AwaitMutex else Fetching;
  }

  lemma FailureBooked(env: Env, s: State, c: Call, t: Tally, f: Fetches)
    requires Positions(s) && Account(s, t, f) && c in s.pcs && s.pcs[c].Broken?
    ensures Booked(s, FailureRecorded(env, s, c, s.pcs[c].error), t, f)
  {
    var e := s.pcs[c].error;
    assert s.mutex == Some(c) && Holder(s) == Broken(e);
    assert Holder(FailureRecorded(env, s, c, e)) == if e.PermitsStaleCache() then StaleNow(e) else AwaitMutex;
  }

  lemma StaleBooked(env: Env, s: State, c: Call, t: Tally, f: Fetches)
    requires Positions(s) && Account(s, t, f) && c in s.pcs && s.pcs[c].AwaitStale?
    ensures Booked(s, StaleDecided(env, s, c, s.pcs[c].error, s.pcs[c].judgedAt), t, f)
  {
    assert s.mutex == Some(c) && Holder(s) == s.pcs[c];
    assert Holder(StaleDecided(env, s, c, s.pcs[c].error, s.pcs[c].judgedAt)) == AwaitMutex;
  }

  lemma RunBooked(env: Env, s: State, c: Call, t: Tally, f: Fetches)
    requires Positions(s) && Account(s, t, f) && RunCall(env, s, c).Some?
    ensures Booked(s, RunCall(env, s, c).value, t, f)
  {
    var s' := RunCall(env, s, c).value;
    match s.pcs[c]
    case FirstCheck => ReuseBooked(env, s, c, AwaitMutex, t, f);
    case SecondCheck => ReuseBooked(env, s, c, ThrottleCheck, t, f);
    case AwaitMutex => assert Holder(s) == AwaitMutex && Holder(s') == SecondCheck;
    case ThrottleCheck => ThrottleBooked(env, s, c, t, f);
    case Completed(v) => assert s.mutex == Some(c) && Holder(s) == Completed(v) && Holder(s') == Installing(v);
    case Installing(v) => assert s.mutex == Some(c) && Holder(s) == Installing(v) && Holder(s') == AwaitMutex;
    case Broken(_) => FailureBooked(env, s, c, t, f);
    case StaleNow(e) => assert s.mutex == Some(c) && Holder(s) == StaleNow(e) && Holder(s') == AwaitStale(e, s.clock);
    case AwaitStale(_, _) => StaleBooked(env, s, c, t, f);
    case Reading(_) => assert Holder(s') == Holder(s);
    case _ =>
  }

  lemma CancelBooked(env: Env, s: State, c: Call, t: Tally, f: Fetches)
    requires Positions(s) && Account(s, t, f) && c in s.pcs && s.pcs[c].Awaiting()
    ensures Booked(s, Dismiss(s, c), t, f)
  {
    if s.mutex == Some(c) {
      assert Holder(s) == s.pcs[c] && Holder(Dismiss(s, c)) == AwaitMutex;
    } else {
      assert Holder(Dismiss(s, c)) == Holder(s);
    }
  }

  /** Steps other than the end of a fetch complete no attempt. */
  lemma ThrottleSameFetches(s: State, c: Call)
    ensures FetchesOf(CheckThrottle(s, c).log) == FetchesOf(s.log)
  {
    FetchesSnoc(s.log, Attempt(s.clock, InFlight));
  }

  lemma RecordSameFetches(env: Env, s: State, c: Call, error: ClientError)
    requires s.log != [] && s.log[|s.log| - 1].outcome.FetchFailed?
    ensures FetchesOf(FailureRecorded(env, s, c, error).log) == FetchesOf(s.log)
  {
    var outcome := s.log[|s.log| - 1].outcome.(recordedAt := Some(s.clock));
    CloseCounts(s, outcome);
    assert FailureRecorded(env, s, c, error).log == CloseAttempt(s, outcome).log;
  }

  lemma DropSameFetches(s: State, c: Call)
    requires c in s.pcs && s.pcs[c].Fetching? && s.log != [] && s.log[|s.log| - 1].outcome.InFlight?
    ensures FetchesOf(Dismiss(s, c).log) == FetchesOf(s.log)
  {
    CloseCounts(s, Abandoned(s.clock));
    assert Dismiss(s, c).log == CloseAttempt(s, Abandoned(s.clock)).log;
  }

  /** The sections that write the log. */
  predicate WritesLog(s: State, step: Step) {
    || step.FetchOk? || step.FetchErr?
    || (step.Run? && step.call in s.pcs && (s.pcs[step.call].ThrottleCheck? || s.pcs[step.call].Broken?))
    || (step.Cancel? && step.call in s.pcs && s.pcs[step.call].Fetching?)
  }

  lemma OthersKeepLog(env: Env, s: State, step: Step)
    requires Apply(env, s, step).Some? && !WritesLog(s, step)
    ensures Apply(env, s, step).value.log == s.log
  {
  }

  lemma SameFetches(env: Env, s: State, step: Step)
    requires Positions(s) && Apply(env, s, step).Some? && !step.FetchOk? && !step.FetchErr?
    ensures FetchesOf(Apply(env, s, step).value.log) == FetchesOf(s.log)
  {
    if !WritesLog(s, step) {
      OthersKeepLog(env, s, step);
    } else {
      var c := step.call;
      assert s.mutex == Some(c) && Holder(s) == s.pcs[c];
      if s.pcs[c].ThrottleCheck? {
        ThrottleSameFetches(s, c);
      } else if s.pcs[c].Broken? {
        RecordSameFetches(env, s, c, s.pcs[c].error);
      } else {
        DropSameFetches(s, c);
      }
    }
  }

  lemma FetchBooked(env: Env, s: State, step: Step, t: Tally)
    requires Positions(s) && Account(s, t, FetchesOf(s.log)) && Apply(env, s, step).Some?
    requires step.FetchOk? || step.FetchErr?
    ensures Booked(s, Apply(env, s, step).value, t, FetchesOf(Apply(env, s, step).value.log))
  {
    if step.FetchOk? {
      FetchOkBooked(env, s, step.call, step.session, step.sync, t);
    } else {
      FetchErrBooked(env, s, step.call, step.error, t);
    }
  }

  lemma FetchOkBooked(env: Env, s: State, c: Call, session: Session, sync: Sync, t: Tally)
    requires Positions(s) && Account(s, t, FetchesOf(s.log)) && Apply(env, s, FetchOk(c, session, sync)).Some?
    ensures var s' := Apply(env, s, FetchOk(c, session, sync)).value; Booked(s, s', t, FetchesOf(s'.log))
  {
    var s' := Apply(env, s, FetchOk(c, session, sync)).value;
    assert s.mutex == Some(c) && Holder(s) == Fetching && Holder(s').Completed?;
    CloseCounts(s, Succeeded(s.clock, session, sync));
    assert s'.log == CloseAttempt(s, Succeeded(s.clock, session, sync)).log;
  }

  lemma FetchErrBooked(env: Env, s: State, c: Call, error: ClientError, t: Tally)
    requires Positions(s) && Account(s, t, FetchesOf(s.log)) && Apply(env, s, FetchErr(c, error)).Some?
    ensures var s' := Apply(env, s, FetchErr(c, error)).value; Booked(s, s', t, FetchesOf(s'.log))
  {
    var s' := Apply(env, s, FetchErr(c, error)).value;
    assert s.mutex == Some(c) && Holder(s) == Fetching && Holder(s').Broken?;
    CloseCounts(s, FetchFailed(s.clock, error, None));
    assert s'.log == CloseAttempt(s, FetchFailed(s.clock, error, None)).log;
  }

  lemma StepBooked(env: Env, s: State, step: Step, t: Tally)
    requires Positions(s) && Account(s, t, FetchesOf(s.log)) && Apply(env, s, step).Some?
    ensures Booked(s, Apply(env, s, step).value, t, FetchesOf(Apply(env, s, step).value.log))
  {
    if step.FetchOk? || step.FetchErr? {
      FetchBooked(env, s, step, t);
    } else {
      SameFetches(env, s, step);
      match step
      case Tick(_) => assert Holder(Apply(env, s, step).value) == Holder(s);
      case Arrive(_) => assert Holder(Apply(env, s, step).value) == Holder(s);
      case Cancel(c) => CancelBooked(env, s, c, t, FetchesOf(s.log));
      case Run(c) => RunBooked(env, s, c, t, FetchesOf(s.log));
    }
  }

  lemma StepBalances(env: Env, s: State, step: Step)
    requires Positions(s) && Balanced(s) && Apply(env, s, step).Some?
    ensures Balanced(Apply(env, s, step).value)
  {
    var s' := Apply(env, s, step).value;
    StepBooked(env, s, step, TallyOf(s.journal));
    if |s'.journal| > |s.journal| {
      TallySnoc(s.journal, s'.journal[|s.journal|]);
    }
  }

  lemma {:induction false} RunBalanced(env: Env, steps: seq<Step>)
    requires Execute(env, steps).Some?
    ensures Balanced(Execute(env, steps).value)
  {
    if steps != [] {
      Reachable(env, steps[..|steps| - 1]);
      InvPositions(env, Execute(env, steps[..|steps| - 1]).value);
      RunBalanced(env, steps[..|steps| - 1]);
      StepBalances(env, Execute(env, steps[..|steps| - 1]).value, steps[|steps| - 1]);
    }
  }

  lemma {:induction false} TallySplits(j: seq<Event>)
    ensures var t := TallyOf(j);
            && t.ok == t.hits + t.deferred + t.staleAfterError + t.refreshed
            && t.errors == t.throttled + t.failed
            && t.droppedInstalling + t.droppedStale <= t.drops
  {
    if j != [] {
      TallySplits(j[..|j| - 1]);
    }
  }

  /** Every call has finished and none was cancelled. */
  predicate Quiescent(s: State) {
    && (forall c | c in s.pcs :: s.pcs[c].Done?)
    && TallyOf(s.journal).drops == 0
  }

  /**
   * In every quiescent state of an uncancelled run the counters account for every call: hits,
   * stale serves and refreshes add up to the calls that passed the refresh check; refreshes and
   * failures are the fetches that completed; and the calls that failed are those that were
   * throttled plus the failures no stale value answered.
   */
  predicate AccountedFor(n: Counters, t: Tally, f: Fetches) {
    && n.cacheHits + n.staleServes + n.refreshSuccesses == t.ok
    && n.refreshSuccesses == f.succeeded
    && n.refreshFailures == f.failed
    && t.errors == t.throttled + (n.refreshFailures - t.staleAfterError)
  }

  lemma CountersAccountForEveryCall(env: Env, steps: seq<Step>)
    requires Execute(env, steps).Some? && Quiescent(Execute(env, steps).value)
    ensures var s := Execute(env, steps).value;
            AccountedFor(s.shared.counters, TallyOf(s.journal), FetchesOf(s.log))
  {
    RunBalanced(env, steps);
    QuiescentAccount(Execute(env, steps).value);
  }

  lemma QuiescentAccount(s: State)
    requires Balanced(s) && Quiescent(s)
    ensures AccountedFor(s.shared.counters, TallyOf(s.journal), FetchesOf(s.log))
  {
    TallySplits(s.journal);
    assert Holder(s) == AwaitMutex || Holder(s).Done?;
  }

  /** The counters as loaded, each wrapped at 2^64, against the number of accepted calls. */
  predicate LoadsAccount(n: Counters, t: Tally) {
    (Load(n.cacheHits) + Load(n.staleServes) + Load(n.refreshSuccesses)) % U64 == Load(t.ok)
  }

  lemma LoadsAdd(n: Counters, t: Tally)
    requires n.cacheHits + n.staleServes + n.refreshSuccesses == t.ok
    ensures LoadsAccount(n, t)
  {
    LoadSum(n.cacheHits, n.staleServes, n.refreshSuccesses, t.ok);
  }

  /** The loaded values still add up modulo 2^64. */
  lemma LoadedCountersAccount(env: Env, steps: seq<Step>)
    requires Execute(env, steps).Some? && Quiescent(Execute(env, steps).value)
    ensures LoadsAccount(Execute(env, steps).value.shared.counters, TallyOf(Execute(env, steps).value.journal))
  {
    CountersAccountForEveryCall(env, steps);
    LoadsAdd(Execute(env, steps).value.shared.counters, TallyOf(Execute(env, steps).value.journal));
  }

  lemma LoadSum(a: nat, b: nat, c: nat, total: nat)
    requires a + b + c == total
    ensures (Load(a) + Load(b) + Load(c)) % U64 == Load(total)
  {
    LoadParts(a);
    LoadParts(b);
    LoadParts(c);
    LoadShift(Load(a) + Load(b) + Load(c), a / U64 + b / U64 + c / U64);
  }

  lemma LoadParts(n: nat)
    ensures n == n / U64 * U64 + Load(n)
  {
  }

  lemma LoadShift(x: nat, q: nat)
    ensures Load(x + q * U64) == Load(x)
  {
    if q > 0 {
      LoadShift(x, q - 1);
      assert x + q * U64 == x + (q - 1) * U64 + U64;
    }
  }
}
