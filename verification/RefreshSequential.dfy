// The client's method, run by one caller without interruption, is one run of the protocol.

module RefreshSequential {
  import opened Prelude
  import opened Clocks
  import opened Errors
  import opened VaultCache
  import opened Refresh

  function Continue(env: Env, s: State, schedule: seq<Step>): Option<State> {
    if schedule == [] then Some(s)
    else
      match Continue(env, s, schedule[..|schedule| - 1])
      case None => None
      case Some(s') => Apply(env, s', schedule[|schedule| - 1])
  }

  /** The schedule takes `s` to a state at time `t` in which only the call has moved. */
  predicate Reaches(
      env: Env, s: State, schedule: seq<Step>, t: Instant, c: Call, pc: Pc, mutex: Option<Call>, shared: Shared)
  {
    match Continue(env, s, schedule)
    case None => false
    case Some(end) => end.clock == t && end.pcs == s.pcs[c := pc] && end.mutex == mutex && end.shared == shared
  }

  lemma ContinueOne(env: Env, s: State, schedule: seq<Step>, step: Step)
    ensures Continue(env, s, schedule + [step]) ==
            match Continue(env, s, schedule) case None => None case Some(s') => Apply(env, s', step)
  {
    assert (schedule + [step])[..|schedule|] == schedule;
  }

  lemma Wait(
      env: Env, s: State, schedule: seq<Step>, t: Instant, later: Instant, c: Call, pc: Pc, mutex: Option<Call>, shared: Shared)
    requires Reaches(env, s, schedule, t, c, pc, mutex, shared) && t <= later <= env.config.lastInstant
    ensures Reaches(env, s, schedule + [Tick(later - t)], later, c, pc, mutex, shared)
  {
    ContinueOne(env, s, schedule, Tick(later - t));
  }

  lemma Begin(env: Env, s: State, c: Call, t: Instant)
    requires c !in s.pcs && s.mutex.None? && s.clock <= t <= env.config.lastInstant
    ensures Reaches(env, s, [Tick(t - s.clock)] + [Arrive(c)], t, c, FirstCheck, None, s.shared)
  {
    ContinueOne(env, s, [], Tick(t - s.clock));
    assert [] + [Tick(t - s.clock)] == [Tick(t - s.clock)];
    ContinueOne(env, s, [Tick(t - s.clock)], Arrive(c));
  }

  /** One of the two checks either passes, or leaves everything as it is. */
  lemma Check(
      env: Env, s: State, schedule: seq<Step>, t: Instant, c: Call, pc: Pc, mutex: Option<Call>, shared: Shared, otherwise: Pc)
    requires Reaches(env, s, schedule, t, c, pc, mutex, shared)
    requires (pc.FirstCheck? && mutex.None? && otherwise.AwaitMutex?)
             || (pc.SecondCheck? && mutex == Some(c) && otherwise.ThrottleCheck?)
    ensures Reusable(env.config, shared.cache, t) ==>
              Reaches(env, s, schedule + [Run(c)], t, c, Reading(Basis(shared.cache.value.fetchedAt, t)), None,
                      Reuse(env.config, shared, t))
    ensures !Reusable(env.config, shared.cache, t) ==>
              Reaches(env, s, schedule + [Run(c)], t, c, otherwise, mutex, shared)
  {
    ContinueOne(env, s, schedule, Run(c));
  }

  lemma Lock(env: Env, s: State, schedule: seq<Step>, t: Instant, c: Call, shared: Shared)
    requires Reaches(env, s, schedule, t, c, AwaitMutex, None, shared)
    ensures Reaches(env, s, schedule + [Run(c)], t, c, SecondCheck, Some(c), shared)
  {
    ContinueOne(env, s, schedule, Run(c));
  }

  lemma Throttle(env: Env, s: State, schedule: seq<Step>, t: Instant, c: Call, shared: Shared)
    requires Reaches(env, s, schedule, t, c, ThrottleCheck, Some(c), shared)
    ensures Throttled(shared, t) ==>
              Reaches(env, s, schedule + [Run(c)], t, c, Done(Err(Api(RefreshThrottled)), None), None, shared)
    ensures !Throttled(shared, t) ==> Reaches(env, s, schedule + [Run(c)], t, c, Fetching, Some(c), shared)
  {
    ContinueOne(env, s, schedule, Run(c));
  }

  lemma Fetch(env: Env, s: State, schedule: seq<Step>, t: Instant, c: Call, shared: Shared, v: CachedVault)
    requires Reaches(env, s, schedule, t, c, Fetching, Some(c), shared)
    requires v == NewVault(env.config, v.session, v.sync, t)
    ensures Reaches(env, s, schedule + [FetchOk(c, v.session, v.sync)], t, c, Completed(v), Some(c), shared)
  {
    ContinueOne(env, s, schedule, FetchOk(c, v.session, v.sync));
  }

  lemma Store(env: Env, s: State, schedule: seq<Step>, t: Instant, c: Call, shared: Shared, v: CachedVault)
    requires Reaches(env, s, schedule, t, c, Completed(v), Some(c), shared)
    ensures Reaches(env, s, schedule + [Run(c)] + [Run(c)], t, c, Reading(Basis(v.fetchedAt, v.fetchedAt)), None,
                    Install(RecordSuccess(shared), v))
  {
    ContinueOne(env, s, schedule, Run(c));
    ContinueOne(env, s, schedule + [Run(c)], Run(c));
  }

  lemma Fail(env: Env, s: State, schedule: seq<Step>, t: Instant, c: Call, shared: Shared, error: ClientError)
    requires Reaches(env, s, schedule, t, c, Fetching, Some(c), shared) && error.IsFetchError()
    ensures Reaches(env, s, schedule + [FetchErr(c, error)], t, c, Broken(error), Some(c), shared)
  {
    ContinueOne(env, s, schedule, FetchErr(c, error));
  }

  lemma Record(env: Env, s: State, schedule: seq<Step>, t: Instant, c: Call, shared: Shared, error: ClientError)
    requires Reaches(env, s, schedule, t, c, Broken(error), Some(c), shared)
    ensures error.PermitsStaleCache() ==>
              Reaches(env, s, schedule + [Run(c)], t, c, StaleNow(error), Some(c), RecordFailure(env.config, shared, t))
    ensures !error.PermitsStaleCache() ==>
              Reaches(env, s, schedule + [Run(c)], t, c, Done(Err(error), None), None, RecordFailure(env.config, shared, t))
  {
    ContinueOne(env, s, schedule, Run(c));
  }

  lemma FallBack(env: Env, s: State, schedule: seq<Step>, t: Instant, c: Call, shared: Shared, error: ClientError)
    requires Reaches(env, s, schedule, t, c, StaleNow(error), Some(c), shared)
    ensures StaleEligible(env.config, shared, t) ==>
              Reaches(env, s, schedule + [Run(c)] + [Run(c)], t, c, Reading(Basis(shared.cache.value.fetchedAt, t)), None,
                      ServeStale(env.config, shared, t))
    ensures !StaleEligible(env.config, shared, t) ==>
              Reaches(env, s, schedule + [Run(c)] + [Run(c)], t, c, Done(Err(error), None), None, shared)
  {
    ContinueOne(env, s, schedule, Run(c));
    ContinueOne(env, s, schedule + [Run(c)], Run(c));
  }

  /** The call passed the check, or carries its error. */
  predicate Returned(pc: Pc, r: Result<(), ClientError>) {
    match r
    case Ok(_) => pc.Reading?
    case Err(e) => pc == Done(Err(e), None)
  }

  ghost predicate Runs(env: Env, s: State, c: Call, schedule: seq<Step>, shared: Shared, r: Result<(), ClientError>) {
    exists t: Instant, pc :: Returned(pc, r) && Reaches(env, s, schedule, t, c, pc, None, shared)
  }

  predicate Possible(config: CacheConfig, fetch: FetchResult, t: Instant) {
    match fetch
    case Fetched(v) => v == NewVault(config, v.session, v.sync, t)
    case Failed(error) => error.IsFetchError()
  }

  /**
   * From any state in which the mutex is free, at any clock readings and for any outcome of the
   * fetch, the protocol has a run of this one call that ends in the shared state and with the
   * result that the client's method is proved to have.
   */
  lemma UninterruptedCall(
      env: Env, s: State, c: Call, t1: Instant, t2: Instant, t3: Instant, t4: Instant, t5: Instant, fetch: FetchResult)
    returns (schedule: seq<Step>)
    requires c !in s.pcs && s.mutex.None? && s.clock <= t1 <= t2 <= t3 <= t4 <= t5 <= env.config.lastInstant
    requires Possible(env.config, fetch, t4)
    ensures var (shared, r) := EnsureFresh(env.config, s.shared, t1, t2, t3, t4, t5, fetch);
            Runs(env, s, c, schedule, shared, r)
  {
    schedule := [Tick(t1 - s.clock)] + [Arrive(c)];
    Begin(env, s, c, t1);
    Check(env, s, schedule, t1, c, FirstCheck, None, s.shared, AwaitMutex);
    schedule := schedule + [Run(c)];
    if !Reusable(env.config, s.shared.cache, t1) {
      Lock(env, s, schedule, t1, c, s.shared);
      schedule := schedule + [Run(c)];
      Wait(env, s, schedule, t1, t2, c, SecondCheck, Some(c), s.shared);
      schedule := schedule + [Tick(t2 - t1)];
      Check(env, s, schedule, t2, c, SecondCheck, Some(c), s.shared, ThrottleCheck);
      schedule := schedule + [Run(c)];
      if !Reusable(env.config, s.shared.cache, t2) {
        schedule := FromThrottle(env, s, schedule, c, t2, t3, t4, t5, fetch);
      }
    }
  }

  lemma FromThrottle(
      env: Env, s: State, before: seq<Step>, c: Call, t2: Instant, t3: Instant, t4: Instant, t5: Instant, fetch: FetchResult)
    returns (schedule: seq<Step>)
    requires Reaches(env, s, before, t2, c, ThrottleCheck, Some(c), s.shared)
    requires t2 <= t3 <= t4 <= t5 <= env.config.lastInstant && Possible(env.config, fetch, t4)
    ensures Throttled(s.shared, t3) ==> Runs(env, s, c, schedule, s.shared, Err(Api(RefreshThrottled)))
    ensures !Throttled(s.shared, t3) ==>
              match fetch
              case Fetched(v) => Runs(env, s, c, schedule, Install(RecordSuccess(s.shared), v), Ok(()))
              case Failed(error) =>
                var recorded := RecordFailure(env.config, s.shared, t4);
                if error.PermitsStaleCache() && StaleEligible(env.config, recorded, t5)
                then Runs(env, s, c, schedule, ServeStale(env.config, recorded, t5), Ok(()))
                else Runs(env, s, c, schedule, recorded, Err(error))
  {
    Wait(env, s, before, t2, t3, c, ThrottleCheck, Some(c), s.shared);
    schedule := before + [Tick(t3 - t2)];
    Throttle(env, s, schedule, t3, c, s.shared);
    schedule := schedule + [Run(c)];
    if !Throttled(s.shared, t3) {
      Wait(env, s, schedule, t3, t4, c, Fetching, Some(c), s.shared);
      schedule := schedule + [Tick(t4 - t3)];
      match fetch
      case Fetched(v) =>
        Fetch(env, s, schedule, t4, c, s.shared, v);
        schedule := schedule + [FetchOk(c, v.session, v.sync)];
        Store(env, s, schedule, t4, c, s.shared, v);
        schedule := schedule + [Run(c)] + [Run(c)];
      case Failed(error) =>
        var recorded := RecordFailure(env.config, s.shared, t4);
        Fail(env, s, schedule, t4, c, s.shared, error);
        schedule := schedule + [FetchErr(c, error)];
        Record(env, s, schedule, t4, c, s.shared, error);
        schedule := schedule + [Run(c)];
        if error.PermitsStaleCache() {
          Wait(env, s, schedule, t4, t5, c, StaleNow(error), Some(c), recorded);
          schedule := schedule + [Tick(t5 - t4)];
          FallBack(env, s, schedule, t5, c, recorded, error);
          schedule := schedule + [Run(c)] + [Run(c)];
        }
    }
  }
}
