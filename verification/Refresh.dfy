// The vault cache refresh protocol: any number of concurrent resolve calls over one shared
// client, as a state machine whose steps are the sections between two awaits. A section that
// holds the read/write lock never awaits, so it is one step; the refresh mutex is held across
// awaits and is part of the state. Clock ticks, fetch outcomes, scheduling and cancellation at
// an await are arbitrary.

module Refresh {
  import opened Prelude
  import opened Clocks
  import opened Errors
  import opened EncryptedStrings
  import opened Ciphers
  import opened Selectors
  import opened Lookup
  import opened VaultCache

  /** The settings, and the lookup applied to a vault once the refresh check has passed. */
  datatype Env = Env(config: CacheConfig, resolve: (Sync, SymmetricKey, Selector) -> Result<SecretDocument, ClientError>)
  {
    /** The lookup itself never claims that the cache is empty. */
    ghost predicate Honest() {
      forall sync, key, selector :: resolve(sync, key, selector) != Err(Api(MissingCachedSync))
    }
  }

  /** One call of `resolve`. */
  datatype Call = Call(number: nat, selector: Selector)

  /** The vault that the refresh check accepted: when it was fetched, and when it was judged. */
  datatype Basis = Basis(fetchedAt: Instant, judgedAt: Instant)

  /** Where a call is. The calls from `SecondCheck` to `AwaitStale` hold the refresh mutex. */
  datatype Pc =
    | FirstCheck
    | AwaitMutex
    | SecondCheck
    | ThrottleCheck
    | Fetching
    | Completed(vault: CachedVault)
    | Installing(vault: CachedVault)
    | Broken(error: ClientError)
    | StaleNow(error: ClientError)
    | AwaitStale(error: ClientError, judgedAt: Instant)
    | Reading(accepted: Basis)
    | Done(result: Result<SecretDocument, ClientError>, basis: Option<Basis>)
    | Cancelled
  {
    predicate HoldsMutex() {
      SecondCheck? || ThrottleCheck? || Fetching? || Completed? || Installing? || Broken? || StaleNow? || AwaitStale?
    }

    /** Suspended at an await, where the caller may drop the future. */
    predicate Awaiting() {
      FirstCheck? || AwaitMutex? || SecondCheck? || Fetching? || Installing? || AwaitStale? || Reading?
    }
  }

  /** One upstream fetch, in the history of the run. */
  datatype Attempt = Attempt(startedAt: Instant, outcome: Outcome)

  datatype Outcome =
    | InFlight
    | Abandoned(at: Instant)
    | Succeeded(at: Instant, session: Session, sync: Sync)
    | FetchFailed(at: Instant, error: ClientError, recordedAt: Option<Instant>)

  /** Why `ensure_fresh_cached_sync` returned `Ok`. */
  datatype Grounds = Fresh | Deferred | StaleAfterError | Refreshed

  datatype Event =
    | ReturnedOk(call: Call, grounds: Grounds)
    | ReturnedErr(call: Call, error: ClientError)
    | Dropped(call: Call, at: Pc)

  datatype State = State(
    clock: Instant,
    shared: Shared,
    mutex: Option<Call>,
    pcs: map<Call, Pc>,
    log: seq<Attempt>,
    journal: seq<Event>)

  const INITIAL: State := State(0, COLD, None, map[], [], [])

  datatype Step =
    | Tick(duration: nat)
    | Arrive(call: Call)
    | Run(call: Call)
    | FetchOk(call: Call, session: Session, sync: Sync)
    | FetchErr(call: Call, error: ClientError)
    | Cancel(call: Call)

  // ---------- Steps ----------

  function Move(s: State, c: Call, pc: Pc): State {
    s.(pcs := s.pcs[c := pc])
  }

  function Release(s: State, c: Call): State {
    s.(mutex := if s.mutex == Some(c) then None else s.mutex)
  }

  function ReturnOk(s: State, c: Call, grounds: Grounds, accepted: Basis): State {
    Release(Move(s, c, Reading(accepted)), c).(journal := s.journal + [ReturnedOk(c, grounds)])
  }

  function ReturnErr(s: State, c: Call, error: ClientError): State {
    Release(Move(s, c, Done(Err(error), None)), c).(journal := s.journal + [ReturnedErr(c, error)])
  }

  function CloseAttempt(s: State, outcome: Outcome): State {
    if s.log == [] then s
    else s.(log := s.log[..|s.log| - 1] + [s.log[|s.log| - 1].(outcome := outcome)])
  }

  function CheckReuse(env: Env, s: State, c: Call, otherwise: Pc): State {
    var s' := s.(shared := Reuse(env.config, s.shared, s.clock));
    if Reusable(env.config, s.shared.cache, s.clock) then
      var v := s.shared.cache.value;
      ReturnOk(s', c, if IsFreshAt(v, env.config, s.clock) then Fresh else Deferred, Basis(v.fetchedAt, s.clock))
    else Move(s', c, otherwise)
  }

  function CheckThrottle(s: State, c: Call): State {
    if Throttled(s.shared, s.clock) then ReturnErr(s, c, Api(RefreshThrottled))
    else Move(s, c, Fetching).(log := s.log + [Attempt(s.clock, InFlight)])
  }

  function FailureRecorded(env: Env, s: State, c: Call, error: ClientError): State {
    var s' := s.(shared := RecordFailure(env.config, s.shared, s.clock));
    var s'' := if s.log != [] && s.log[|s.log| - 1].outcome.FetchFailed?
               then CloseAttempt(s', s.log[|s.log| - 1].outcome.(recordedAt := Some(s.clock)))
               else s';
    if error.PermitsStaleCache() then Move(s'', c, StaleNow(error)) else ReturnErr(s'', c, error)
  }

  function StaleDecided(env: Env, s: State, c: Call, error: ClientError, judgedAt: Instant): State {
    if StaleEligible(env.config, s.shared, judgedAt) then
      ReturnOk(s.(shared := ServeStale(env.config, s.shared, judgedAt)), c, StaleAfterError,
               Basis(s.shared.cache.value.fetchedAt, judgedAt))
    else ReturnErr(s, c, error)
  }

  function Answer(env: Env, shared: Shared, selector: Selector): Result<SecretDocument, ClientError> {
    match shared.cache
    case None => Err(Api(MissingCachedSync))
    case Some(v) => env.resolve(v.sync, v.session.userKey, selector)
  }

  /** The next section of one call, or `None` when the call cannot move by itself. */
  function RunCall(env: Env, s: State, c: Call): Option<State> {
    if c !in s.pcs then None
    else
      match s.pcs[c]
      case FirstCheck => Some(CheckReuse(env, s, c, AwaitMutex))
      case AwaitMutex => if s.mutex.Some? then None else Some(Move(s.(mutex := Some(c)), c, SecondCheck))
      case SecondCheck => Some(CheckReuse(env, s, c, ThrottleCheck))
      case ThrottleCheck => Some(CheckThrottle(s, c))
      case Completed(v) => Some(Move(s.(shared := RecordSuccess(s.shared)), c, Installing(v)))
      case Installing(v) => Some(ReturnOk(s.(shared := Install(s.shared, v)), c, Refreshed, Basis(v.fetchedAt, v.fetchedAt)))
      case Broken(e) => Some(FailureRecorded(env, s, c, e))
      case StaleNow(e) => Some(Move(s, c, AwaitStale(e, s.clock)))
      case AwaitStale(e, judgedAt) => Some(StaleDecided(env, s, c, e, judgedAt))
      case Reading(accepted) => Some(Move(s, c, Done(Answer(env, s.shared, c.selector), Some(accepted))))
      case _ => None
  }

  function Dismiss(s: State, c: Call): State
    requires c in s.pcs
  {
    var s' := if s.pcs[c].Fetching? then CloseAttempt(s, Abandoned(s.clock)) else s;
    Release(Move(s', c, Cancelled), c).(journal := s.journal + [Dropped(c, s.pcs[c])])
  }

  function Apply(env: Env, s: State, step: Step): Option<State> {
    match step
    case Tick(d) => if s.clock + d <= env.config.lastInstant then Some(s.(clock := s.clock + d)) else None
    case Arrive(c) => if c in s.pcs then None else Some(Move(s, c, FirstCheck))
    case Run(c) => RunCall(env, s, c)
    case FetchOk(c, session, sync) =>
      if c in s.pcs && s.pcs[c].Fetching? then
        Some(CloseAttempt(Move(s, c, Completed(NewVault(env.config, session, sync, s.clock))),
                          Succeeded(s.clock, session, sync)))
      else None
    case FetchErr(c, error) =>
      if c in s.pcs && s.pcs[c].Fetching? && error.IsFetchError() then
        Some(CloseAttempt(Move(s, c, Broken(error)), FetchFailed(s.clock, error, None)))
      else None
    case Cancel(c) => if c in s.pcs && s.pcs[c].Awaiting() then Some(Dismiss(s, c)) else None
  }

  function Execute(env: Env, steps: seq<Step>): Option<State> {
    if steps == [] then Some(INITIAL)
    else
      match Execute(env, steps[..|steps| - 1])
      case None => None
      case Some(s) => Apply(env, s, steps[|steps| - 1])
  }

  // ---------- Invariant ----------

  /** The last attempt that ran to completion. */
  function LastFinished(log: seq<Attempt>): Option<Outcome> {
    if log == [] then None
    else
      match log[|log| - 1].outcome
      case InFlight => LastFinished(log[..|log| - 1])
      case Abandoned(_) => LastFinished(log[..|log| - 1])
      case outcome => Some(outcome)
  }

  predicate TransientFailure(outcome: Option<Outcome>) {
    outcome.Some? && outcome.value.FetchFailed? && outcome.value.error.PermitsStaleCache()
  }

  predicate MutexInv(s: State) {
    && (forall c | c in s.pcs :: s.pcs[c].HoldsMutex() <==> s.mutex == Some(c))
    && (s.mutex.Some? ==> s.mutex.value in s.pcs)
  }

  /** The position of the mutex holder; `AwaitMutex` stands for nobody. */
  function Holder(s: State): Pc {
    if s.mutex.Some? && s.mutex.value in s.pcs then s.pcs[s.mutex.value] else AwaitMutex
  }

  predicate WellTimed(a: Attempt, clock: Instant) {
    && a.startedAt <= clock
    && match a.outcome
       case InFlight => true
       case Abandoned(at) => a.startedAt <= at <= clock
       case Succeeded(at, _, _) => a.startedAt <= at <= clock
       case FetchFailed(at, e, r) => a.startedAt <= at <= clock && (r.Some? ==> at <= r.value <= clock)
  }

  /** `a` was over before `b` started, and if it failed its cooldown was over too. */
  predicate Before(config: CacheConfig, a: Attempt, b: Attempt) {
    match a.outcome
    case InFlight => false
    case Abandoned(at) => at <= b.startedAt
    case Succeeded(at, _, _) => at <= b.startedAt
    case FetchFailed(at, _, r) =>
      && at <= b.startedAt
      && r.Some? && r.value <= b.startedAt
      && (r.value + config.retryInterval <= config.lastInstant ==> r.value + config.retryInterval <= b.startedAt)
  }

  predicate AllTimed(log: seq<Attempt>, clock: Instant) {
    forall i {:trigger WellTimed(log[i], clock)} | 0 <= i < |log| :: WellTimed(log[i], clock)
  }

  predicate Sequential(config: CacheConfig, log: seq<Attempt>) {
    forall i, j {:trigger Before(config, log[i], log[j])} | 0 <= i < j < |log| :: Before(config, log[i], log[j])
  }

  predicate LogInv(config: CacheConfig, s: State) {
    && s.clock <= config.lastInstant
    && AllTimed(s.log, s.clock)
    && Sequential(config, s.log)
    && (Holder(s).Fetching? <==> s.log != [] && s.log[|s.log| - 1].outcome.InFlight?)
    && (Holder(s).Broken? <==>
          s.log != [] && s.log[|s.log| - 1].outcome.FetchFailed? && s.log[|s.log| - 1].outcome.recordedAt.None?)
  }

  /** The retry deadline is a function of the last finished attempt, except while it is being recorded. */
  function CooldownOf(config: CacheConfig, outcome: Option<Outcome>): Option<Instant> {
    match outcome
    case Some(FetchFailed(_, _, Some(r))) => CheckedAdd(r, config.retryInterval, config.lastInstant)
    case _ => None
  }

  predicate CooldownInv(config: CacheConfig, s: State) {
    Holder(s).Completed? || Holder(s).Broken? || s.shared.retryAfter == CooldownOf(config, LastFinished(s.log))
  }

  predicate NotReusable(config: CacheConfig, s: State) {
    !Reusable(config, s.shared.cache, s.clock)
  }

  predicate NoNewerThan(cache: Option<CachedVault>, t: Instant) {
    cache.Some? ==> cache.value.fetchedAt <= t
  }

  /** What the call that holds the mutex knows. */
  predicate HolderInv(config: CacheConfig, s: State) {
    match Holder(s)
    case ThrottleCheck => NotReusable(config, s)
    case Fetching => NotReusable(config, s)
    case Completed(v) => NotReusable(config, s) && FromLast(config, s, v)
    case Installing(v) => NotReusable(config, s) && FromLast(config, s, v)
    case Broken(e) =>
      NotReusable(config, s) && s.log != [] && s.log[|s.log| - 1].outcome.FetchFailed?
      && s.log[|s.log| - 1].outcome.error == e && e.IsFetchError()
    case StaleNow(e) =>
      NotReusable(config, s) && TransientFailure(LastFinished(s.log)) && e.IsFetchError()
    case AwaitStale(e, judgedAt) =>
      NotReusable(config, s) && TransientFailure(LastFinished(s.log)) && e.IsFetchError()
      && judgedAt <= s.clock && NoNewerThan(s.shared.cache, judgedAt)
    case _ => true
  }

  predicate FromLast(config: CacheConfig, s: State, v: CachedVault) {
    && s.log != []
    && s.log[|s.log| - 1].outcome == Succeeded(v.fetchedAt, v.session, v.sync)
    && v == NewVault(config, v.session, v.sync, v.fetchedAt)
    && NoNewerThan(s.shared.cache, v.fetchedAt)
  }

  /** The vault came whole from one completed fetch: its session, its content and its age. */
  predicate FetchedWhole(config: CacheConfig, log: seq<Attempt>, v: CachedVault) {
    && (exists i | 0 <= i < |log| :: log[i].outcome == Succeeded(v.fetchedAt, v.session, v.sync))
    && v.expiresAt == NewVault(config, v.session, v.sync, v.fetchedAt).expiresAt
  }

  predicate CacheInv(config: CacheConfig, s: State) {
    && (s.shared.cache.Some? ==>
          var v := s.shared.cache.value;
          && v.fetchedAt <= s.clock
          && FetchedWhole(config, s.log, v)
          && (CanDeferAt(v, config, s.clock) ==> TransientFailure(LastFinished(s.log))))
  }

  ghost predicate ReaderInv(env: Env, s: State) {
    forall c | c in s.pcs ::
      && (s.pcs[c].Reading? ==> s.shared.cache.Some? && s.pcs[c].accepted.fetchedAt <= s.shared.cache.value.fetchedAt)
      && (env.Honest() && s.pcs[c].Done? ==> s.pcs[c].result != Err(Api(MissingCachedSync)))
  }

  ghost predicate Inv(env: Env, s: State) {
    && MutexInv(s) && LogInv(env.config, s) && CooldownInv(env.config, s)
    && HolderInv(env.config, s) && CacheInv(env.config, s) && ReaderInv(env, s)
  }
}
