// The cached vault, its two deadlines, and the shared state of the API client: the cache behind
// a read/write lock, the retry deadline behind the refresh mutex, and the atomic counters.

module Clocks {
  import opened Prelude

  const SECOND: nat := 1_000_000_000

  /** `Duration::MAX`, in nanoseconds. */
  const MAX_DURATION: nat := 0xFFFF_FFFF_FFFF_FFFF * SECOND + 999_999_999

  /** An instant, in nanoseconds since the earliest one the platform can represent. */
  type Instant = nat

  /** `Instant::checked_add` on a platform whose last instant is `limit`. */
  function CheckedAdd(t: Instant, d: nat, limit: nat): Option<Instant> {
    if t + d <= limit then Some(t + d) else None
  }

  function CheckedSub(t: Instant, d: nat): Option<Instant> {
    if d <= t then Some(t - d) else None
  }

  /** `Instant::duration_since`, which saturates at zero. */
  function DurationSince(now: Instant, earlier: Instant): nat {
    if earlier <= now then now - earlier else 0
  }

  /** `Duration::saturating_add`. */
  function SaturatingAdd(a: nat, b: nat): nat {
    if a + b <= MAX_DURATION then a + b else MAX_DURATION
  }
}

module VaultCache {
  import opened Prelude
  import opened Clocks
  import opened Errors
  import opened EncryptedStrings
  import opened Lookup

  /** `TOKEN_EXPIRY_REFRESH_SKEW`. */
  const SKEW: nat := 30 * SECOND

  /** The cache settings, and the last instant of the platform's clock. */
  datatype CacheConfig = CacheConfig(ttl: nat, staleIfError: nat, retryInterval: nat, lastInstant: nat)

  datatype Session = Session(userKey: SymmetricKey, expiresIn: Option<nat>)

  datatype CachedVault = CachedVault(
    session: Session,
    sync: Sync,
    fetchedAt: Instant,
    expiresAt: Option<Instant>,
    refreshRetryAfter: Option<Instant>)

  /** `CachedVault::new`. */
  function NewVault(config: CacheConfig, session: Session, sync: Sync, fetchedAt: Instant): CachedVault {
    CachedVault(
      session, sync, fetchedAt,
      if session.expiresIn.None? then None
      else CheckedAdd(fetchedAt, session.expiresIn.value * SECOND, config.lastInstant),
      None)
  }

  /** `is_fresh_at`. */
  predicate IsFreshAt(v: CachedVault, config: CacheConfig, now: Instant) {
    if config.ttl == 0 || DurationSince(now, v.fetchedAt) >= config.ttl then false
    else
      match v.expiresAt
      case None => true
      case Some(expires) =>
        var deadline := CheckedSub(expires, SKEW);
        deadline.Some? && now < deadline.value
  }

  /** `is_within_stale_if_error_at`. */
  predicate IsWithinStaleAt(v: CachedVault, config: CacheConfig, now: Instant) {
    && config.staleIfError != 0
    && DurationSince(now, v.fetchedAt) < SaturatingAdd(config.ttl, config.staleIfError)
  }

  /** `can_defer_refresh_at`. */
  predicate CanDeferAt(v: CachedVault, config: CacheConfig, now: Instant) {
    IsWithinStaleAt(v, config, now) && v.refreshRetryAfter.Some? && now < v.refreshRetryAfter.value
  }

  /**
   * The atomic counters, as totals of their increments; a load returns the total modulo 2^64,
   * which is what a wrapping `AtomicU64` holds.
   */
  datatype Counters = Counters(cacheHits: nat, refreshSuccesses: nat, refreshFailures: nat, staleServes: nat)

  const U64: nat := 0x1_0000_0000_0000_0000

  function Load(total: nat): nat {
    total % U64
  }

  /** What all callers share. */
  datatype Shared = Shared(cache: Option<CachedVault>, retryAfter: Option<Instant>, counters: Counters)

  const COLD: Shared := Shared(None, None, Counters(0, 0, 0, 0))

  // ---------- The atomic sections of the client, as functions of the shared state ----------

  predicate Reusable(config: CacheConfig, cache: Option<CachedVault>, now: Instant) {
    cache.Some? && (IsFreshAt(cache.value, config, now) || CanDeferAt(cache.value, config, now))
  }

  /** `reuse_cached_sync_if_available`, once the read lock is held. */
  function Reuse(config: CacheConfig, s: Shared, now: Instant): Shared {
    if s.cache.None? then s
    else if IsFreshAt(s.cache.value, config, now) then
      s.(counters := s.counters.(cacheHits := s.counters.cacheHits + 1))
    else if CanDeferAt(s.cache.value, config, now) then
      s.(counters := s.counters.(staleServes := s.counters.staleServes + 1))
    else s
  }

  predicate Throttled(s: Shared, now: Instant) {
    s.retryAfter.Some? && now < s.retryAfter.value
  }

  function RecordSuccess(s: Shared): Shared {
    s.(retryAfter := None, counters := s.counters.(refreshSuccesses := s.counters.refreshSuccesses + 1))
  }

  function RecordFailure(config: CacheConfig, s: Shared, now: Instant): Shared {
    s.(retryAfter := CheckedAdd(now, config.retryInterval, config.lastInstant),
       counters := s.counters.(refreshFailures := s.counters.refreshFailures + 1))
  }

  predicate StaleEligible(config: CacheConfig, s: Shared, now: Instant) {
    s.cache.Some? && IsWithinStaleAt(s.cache.value, config, now)
  }

  /** `serve_stale_after_error` for a transient error, once the write lock is held. */
  function ServeStale(config: CacheConfig, s: Shared, now: Instant): Shared {
    if !StaleEligible(config, s, now) then s
    else
      var deadline := CheckedAdd(now, config.retryInterval, config.lastInstant);
      s.(cache := Some(s.cache.value.(refreshRetryAfter := Some(if deadline.Some? then deadline.value else now))),
         counters := s.counters.(staleServes := s.counters.staleServes + 1))
  }

  function Install(s: Shared, vault: CachedVault): Shared {
    s.(cache := Some(vault))
  }

  // ---------- Time only takes away ----------

  lemma FreshnessExpires(v: CachedVault, config: CacheConfig, now: Instant, later: Instant)
    requires v.fetchedAt <= now <= later
    ensures IsFreshAt(v, config, later) ==> IsFreshAt(v, config, now)
    ensures IsWithinStaleAt(v, config, later) ==> IsWithinStaleAt(v, config, now)
    ensures CanDeferAt(v, config, later) ==> CanDeferAt(v, config, now)
  {
  }

  /** Both kinds of reuse, in plain arithmetic; a vault from after the check counts as new. */
  lemma ReuseBounds(v: CachedVault, config: CacheConfig, now: Instant)
    ensures IsFreshAt(v, config, now) <==>
            && config.ttl > 0 && now < v.fetchedAt + config.ttl
            && (v.expiresAt.Some? ==> now + 30 * SECOND < v.expiresAt.value)
    ensures IsWithinStaleAt(v, config, now) <==>
            && config.staleIfError > 0
            && now < v.fetchedAt + config.ttl + config.staleIfError
            && now - v.fetchedAt < 0xFFFF_FFFF_FFFF_FFFF * SECOND + 999_999_999
  {
  }

  /**
   * A stale serve changes nothing of the vault but its deferral: from then on it may be served
   * again without a fetch exactly while it stays within the stale window and one retry interval
   * has not passed, and not at all if that deadline overflows the clock.
   */
  lemma DeferralLastsOneInterval(config: CacheConfig, s: Shared, judgedAt: Instant, now: Instant)
    requires StaleEligible(config, s, judgedAt) && judgedAt <= now
    ensures var v, v' := s.cache.value, ServeStale(config, s, judgedAt).cache.value;
            && v' == v.(refreshRetryAfter := v'.refreshRetryAfter)
            && (CanDeferAt(v', config, now) <==>
                && IsWithinStaleAt(v, config, now)
                && judgedAt + config.retryInterval <= config.lastInstant
                && now < judgedAt + config.retryInterval)
  {
  }

  /** How one refresh attempt ended. */
  datatype FetchResult = Fetched(vault: CachedVault) | Failed(error: ClientError)

  /** The client object: its fields are updated in place by the sections above. */
  class ApiClient {
    const config: CacheConfig
    var cache: Option<CachedVault>
    var retryAfter: Option<Instant>
    var counters: Counters

    ghost function State(): Shared
      reads this
    {
      Shared(cache, retryAfter, counters)
    }

    constructor (config: CacheConfig)
      ensures this.config == config && State() == COLD
    {
      this.config := config;
      cache, retryAfter, counters := None, None, Counters(0, 0, 0, 0);
    }

    method ReuseCachedSyncIfAvailable(now: Instant) returns (reused: bool)
      modifies this`counters
      ensures State() == Reuse(config, old(State()), now)
      ensures reused == Reusable(config, cache, now)
    {
      if cache.None? {
        return false;
      }
      if IsFreshAt(cache.value, config, now) {
        counters := counters.(cacheHits := counters.cacheHits + 1);
        return true;
      }
      if CanDeferAt(cache.value, config, now) {
        counters := counters.(staleServes := counters.staleServes + 1);
        return true;
      }
      return false;
    }

    method ServeStaleAfterError(error: ClientError, now: Instant) returns (served: bool)
      modifies this`cache, this`counters
      ensures State() == if IsTransient(error) then ServeStale(config, old(State()), now) else old(State())
      ensures served == (IsTransient(error) && StaleEligible(config, old(State()), now))
    {
      TransientExactly(error);
      if !error.PermitsStaleCache() {
        return false;
      }
      if cache.None? {
        return false;
      }
      if !IsWithinStaleAt(cache.value, config, now) {
        return false;
      }
      var deadline := CheckedAdd(now, config.retryInterval, config.lastInstant);
      cache := Some(cache.value.(refreshRetryAfter := Some(if deadline.Some? then deadline.value else now)));
      counters := counters.(staleServes := counters.staleServes + 1);
      return true;
    }

    /**
     * `ensure_fresh_cached_sync` run by one caller without interruption. The parameters are
     * its successive clock readings and the outcome of the fetch, used only if it gets that far.
     */
    method EnsureFreshCachedSync(t1: Instant, t2: Instant, t3: Instant, t4: Instant, t5: Instant, fetch: FetchResult)
      returns (r: Result<(), ClientError>)
      modifies this
      ensures (State(), r) == EnsureFresh(config, old(State()), t1, t2, t3, t4, t5, fetch)
    {
      var reused := ReuseCachedSyncIfAvailable(t1);
      if reused {
        return Ok(());
      }
      reused := ReuseCachedSyncIfAvailable(t2);
      if reused {
        return Ok(());
      }
      if retryAfter.Some? && t3 < retryAfter.value {
        return Err(Api(RefreshThrottled));
      }
      match fetch
      case Failed(error) =>
        retryAfter := CheckedAdd(t4, config.retryInterval, config.lastInstant);
        counters := counters.(refreshFailures := counters.refreshFailures + 1);
        TransientExactly(error);
        var served := ServeStaleAfterError(error, t5);
        if served {
          return Ok(());
        }
        return Err(error);
      case Fetched(refreshed) =>
        retryAfter := None;
        counters := counters.(refreshSuccesses := counters.refreshSuccesses + 1);
        cache := Some(refreshed);
        return Ok(());
    }
  }

  /** The uninterrupted run as a composition of the atomic sections. */
  function EnsureFresh(
      config: CacheConfig, s: Shared,
      t1: Instant, t2: Instant, t3: Instant, t4: Instant, t5: Instant, fetch: FetchResult):
    (Shared, Result<(), ClientError>)
  {
    if Reusable(config, s.cache, t1) then (Reuse(config, s, t1), Ok(()))
    else if Reusable(config, s.cache, t2) then (Reuse(config, s, t2), Ok(()))
    else if Throttled(s, t3) then (s, Err(Api(RefreshThrottled)))
    else
      match fetch
      case Fetched(vault) => (Install(RecordSuccess(s), vault), Ok(()))
      case Failed(error) =>
        var recorded := RecordFailure(config, s, t4);
        if error.PermitsStaleCache() && StaleEligible(config, recorded, t5)
        then (ServeStale(config, recorded, t5), Ok(()))
        else (recorded, Err(error))
  }
}
