// What becomes of a failed fetch: served from the stale vault, or passed on.

module RefreshFailures {
  import opened Prelude
  import opened Clocks
  import opened Errors
  import opened VaultCache
  import opened Refresh
  import opened RefreshInvariant
  import opened RefreshTheorems
  import opened RefreshSequential

  function Turns(schedule: seq<Step>, c: Call): nat {
    if schedule == [] then 0
    else Turns(schedule[..|schedule| - 1], c) + if schedule[|schedule| - 1] == Run(c) then 1 else 0
  }

  /** The call holds the mutex, the cached vault is still the one it will fall back to, and no time was lost. */
  predicate Holds(s: State, c: Call, v: Option<CachedVault>, since: Instant) {
    s.mutex == Some(c) && c in s.pcs && s.shared.cache == v && since <= s.clock
  }

  /** Where a call with a failed fetch is after so many turns. */
  ghost predicate Phase(config: CacheConfig, s: State, c: Call, e: ClientError, v: Option<CachedVault>, since: Instant, turns: nat) {
    c in s.pcs && since <= s.clock
    && if turns == 0 then Holds(s, c, v, since) && s.pcs[c] == Broken(e)
       else if !IsTransient(e) then turns == 1 && s.pcs[c] == Done(Err(e), None)
       else if turns == 1 then Holds(s, c, v, since) && s.pcs[c] == StaleNow(e)
       else if turns == 2 then
         Holds(s, c, v, since) && s.pcs[c].AwaitStale? && s.pcs[c].error == e && since <= s.pcs[c].judgedAt <= s.clock
       else turns == 3 && exists t :: Resolved(config, s, c, e, v, since, t)
  }

  /** The call judged the vault at `t` and took it if it was within the stale window, or else passed the error on. */
  predicate Resolved(config: CacheConfig, s: State, c: Call, e: ClientError, v: Option<CachedVault>, since: Instant, t: Instant) {
    && c in s.pcs && since <= t <= s.clock
    && if v.Some? && StaleBy(config, v.value, t)
       then s.pcs[c].Reading? && s.pcs[c].accepted == Basis(v.value.fetchedAt, t)
       else s.pcs[c] == Done(Err(e), None)
  }

  lemma OthersWait(env: Env, s: State, step: Step, c: Call)
    requires Inv(env, s) && Apply(env, s, step).Some? && c in s.pcs && s.mutex == Some(c)
    requires s.pcs[c].Broken? || s.pcs[c].StaleNow? || s.pcs[c].AwaitStale?
    requires step != Run(c) && step != Cancel(c)
    ensures var s' := Apply(env, s, step).value;
            && c in s'.pcs && s'.pcs[c] == s.pcs[c] && s'.mutex == Some(c)
            && s'.shared.cache == s.shared.cache && s.clock <= s'.clock
  {
    if step.Run? && step.call in s.pcs {
      assert !s.pcs[step.call].HoldsMutex();
    }
  }

  lemma RunLeaves(env: Env, s: State, other: Call, c: Call)
    requires RunCall(env, s, other).Some? && c in s.pcs && other != c
    ensures var s' := RunCall(env, s, other).value;
            c in s'.pcs && s'.pcs[c] == s.pcs[c] && s.clock == s'.clock
  {
  }

  lemma OthersLeave(env: Env, s: State, step: Step, c: Call)
    requires Apply(env, s, step).Some? && c in s.pcs && (s.pcs[c].Reading? || s.pcs[c].Done?)
    requires step != Run(c) && step != Cancel(c)
    ensures var s' := Apply(env, s, step).value;
            c in s'.pcs && s'.pcs[c] == s.pcs[c] && s.clock <= s'.clock
  {
    if step.Run? {
      RunLeaves(env, s, step.call, c);
    }
  }

  lemma OwnTurn(env: Env, s: State, c: Call, e: ClientError, v: Option<CachedVault>, since: Instant, turns: nat)
    requires Inv(env, s) && RunCall(env, s, c).Some? && turns < 3
    requires Phase(env.config, s, c, e, v, since, turns)
    ensures Phase(env.config, RunCall(env, s, c).value, c, e, v, since, turns + 1)
  {
    TransientExactly(e);
    var s' := RunCall(env, s, c).value;
    if turns == 2 {
      var t := s.pcs[c].judgedAt;
      if v.Some? {
        assert Holder(s) == s.pcs[c];
        ReuseBounds(v.value, env.config, t);
      }
      assert Resolved(env.config, s', c, e, v, since, t);
    }
  }

  lemma StillInPhase(env: Env, s: State, step: Step, c: Call, e: ClientError, v: Option<CachedVault>, since: Instant, turns: nat)
    requires Inv(env, s) && Apply(env, s, step).Some? && step != Run(c) && step != Cancel(c)
    requires Phase(env.config, s, c, e, v, since, turns)
    ensures Phase(env.config, Apply(env, s, step).value, c, e, v, since, turns)
  {
    if s.pcs[c].Reading? || s.pcs[c].Done? {
      OthersLeave(env, s, step, c);
      if turns == 3 {
        var t :| Resolved(env.config, s, c, e, v, since, t);
        assert Resolved(env.config, Apply(env, s, step).value, c, e, v, since, t);
      }
    } else {
      OthersWait(env, s, step, c);
    }
  }

  lemma OneMoreStep(
      env: Env, s: State, step: Step, c: Call, e: ClientError, v: Option<CachedVault>, since: Instant, turns: nat)
    requires Inv(env, s) && Apply(env, s, step).Some? && step != Cancel(c)
    requires Phase(env.config, s, c, e, v, since, turns) && (step == Run(c) ==> turns < 3)
    ensures Inv(env, Apply(env, s, step).value)
    ensures Phase(env.config, Apply(env, s, step).value, c, e, v, since, if step == Run(c) then turns + 1 else turns)
  {
    StepKeeps(env, s, step);
    if step == Run(c) {
      OwnTurn(env, s, c, e, v, since, turns);
    } else {
      StillInPhase(env, s, step, c, e, v, since, turns);
    }
  }

  lemma {:induction false} EveryTurnDecides(
      env: Env, s: State, schedule: seq<Step>, c: Call, e: ClientError, v: Option<CachedVault>)
    requires Inv(env, s) && Continue(env, s, schedule).Some? && Cancel(c) !in schedule
    requires Phase(env.config, s, c, e, v, s.clock, 0)
    requires Turns(schedule, c) <= if IsTransient(e) then 3 else 1
    ensures Inv(env, Continue(env, s, schedule).value)
    ensures Phase(env.config, Continue(env, s, schedule).value, c, e, v, s.clock, Turns(schedule, c))
  {
    if schedule != [] {
      var n := |schedule| - 1;
      EveryTurnDecides(env, s, schedule[..n], c, e, v);
      var before := Continue(env, s, schedule[..n]).value;
      assert schedule[n] in schedule;
      OneMoreStep(env, before, schedule[n], c, e, v, s.clock, Turns(schedule[..n], c));
    }
  }

  /**
   * In every run and under every schedule: a call whose fetch failed ends in that error at its
   * next turn, unless the failure lacked a response or had status 408, 429 or 5xx. Then after
   * three turns it has judged the vault that was cached when the fetch failed, at an instant
   * since then, and has accepted it if it was within the stale window and passed the error on if
   * it was not, or if there was none.
   */
  lemma FailuresAreResolved(env: Env, steps: seq<Step>, schedule: seq<Step>, c: Call, e: ClientError)
    requires Execute(env, steps).Some?
    requires var s := Execute(env, steps).value; c in s.pcs && s.pcs[c] == Broken(e)
    requires Continue(env, Execute(env, steps).value, schedule).Some? && Cancel(c) !in schedule
    ensures var s := Execute(env, steps).value;
            var s' := Continue(env, s, schedule).value;
            && (!IsTransient(e) && Turns(schedule, c) == 1 ==> c in s'.pcs && s'.pcs[c] == Done(Err(e), None))
            && (IsTransient(e) && Turns(schedule, c) == 3 ==>
                  exists t :: Resolved(env.config, s', c, e, s.shared.cache, s.clock, t))
  {
    Reachable(env, steps);
    var s := Execute(env, steps).value;
    if Turns(schedule, c) == if IsTransient(e) then 3 else 1 {
      EveryTurnDecides(env, s, schedule, c, e, s.shared.cache);
    }
  }

  /** Revoked credentials, refusals, and answers that cannot be used are not transient. */
  lemma LastingFailures(endpoint: string, error: CryptoError)
    ensures !IsTransient(Api(HttpStatus(endpoint, 401))) && !IsTransient(Api(HttpStatus(endpoint, 403)))
    ensures !IsTransient(Api(HttpStatus(endpoint, 404))) && !IsTransient(Api(HttpStatus(endpoint, 407)))
    ensures !IsTransient(Api(InvalidJson(endpoint))) && !IsTransient(Api(ResponseTooLarge(endpoint)))
    ensures !IsTransient(Crypto(error))
  {
  }
}
