// What every step of the refresh protocol keeps, and what follows over whole runs.

module RefreshInvariant {
  import opened Prelude
  import opened Errors
  import opened Lookup
  import opened VaultCache
  import opened Refresh

  lemma LastFinishedSnoc(log: seq<Attempt>, a: Attempt)
    ensures LastFinished(log + [a]) ==
            if a.outcome.InFlight? || a.outcome.Abandoned? then LastFinished(log) else Some(a.outcome)
  {
    assert (log + [a])[..|log|] == log;
  }

  lemma TickKeeps(env: Env, s: State, d: nat)
    requires Inv(env, s) && s.clock + d <= env.config.lastInstant
    ensures Inv(env, s.(clock := s.clock + d))
  {
    var s' := s.(clock := s.clock + d);
    assert Holder(s') == Holder(s);
    forall i | 0 <= i < |s.log| ensures WellTimed(s.log[i], s'.clock) {
      assert WellTimed(s.log[i], s.clock);
    }
    if s.shared.cache.Some? {
      FreshnessExpires(s.shared.cache.value, env.config, s.clock, s'.clock);
    }
    assert NotReusable(env.config, s) ==> NotReusable(env.config, s');
  }

  lemma ArriveKeeps(env: Env, s: State, c: Call)
    requires Inv(env, s) && c !in s.pcs
    ensures Inv(env, Move(s, c, FirstCheck))
  {
    assert Holder(Move(s, c, FirstCheck)) == Holder(s);
  }

  lemma CheckReuseKeeps(env: Env, s: State, c: Call, otherwise: Pc)
    requires Inv(env, s) && c in s.pcs
    requires (s.pcs[c].FirstCheck? && otherwise.AwaitMutex?) || (s.pcs[c].SecondCheck? && otherwise.ThrottleCheck?)
    ensures Inv(env, CheckReuse(env, s, c, otherwise))
  {
    var s' := CheckReuse(env, s, c, otherwise);
    assert s'.shared.cache == s.shared.cache && s'.shared.retryAfter == s.shared.retryAfter && s'.log == s.log;
    if s.mutex == Some(c) {
      assert Holder(s) == SecondCheck;
    } else {
      assert Holder(s') == Holder(s);
    }
  }

  lemma LockKeeps(env: Env, s: State, c: Call)
    requires Inv(env, s) && c in s.pcs && s.pcs[c].AwaitMutex? && s.mutex.None?
    ensures Inv(env, Move(s.(mutex := Some(c)), c, SecondCheck))
  {
    assert Holder(s) == AwaitMutex;
    assert Holder(Move(s.(mutex := Some(c)), c, SecondCheck)) == SecondCheck;
  }

  lemma ThrottleKeeps(env: Env, s: State, c: Call)
    requires Inv(env, s) && c in s.pcs && s.pcs[c].ThrottleCheck?
    ensures Inv(env, CheckThrottle(s, c))
  {
    var s' := CheckThrottle(s, c);
    assert s.mutex == Some(c) && Holder(s) == ThrottleCheck;
    if !Throttled(s.shared, s.clock) {
      assert Holder(s') == Fetching;
      LastFinishedSnoc(s.log, Attempt(s.clock, InFlight));
      forall i, j | 0 <= i < j < |s'.log| ensures Before(env.config, s'.log[i], s'.log[j]) {
        if j == |s.log| {
          CooldownOver(env.config, s, i);
        } else {
          assert Before(env.config, s.log[i], s.log[j]);
        }
      }
      forall i | 0 <= i < |s'.log| ensures WellTimed(s'.log[i], s'.clock) {
        if i < |s.log| {
          assert WellTimed(s.log[i], s.clock);
        }
      }
    }
  }

  /** When no deadline is pending, every earlier attempt is over, and so is its cooldown. */
  lemma CooldownOver(config: CacheConfig, s: State, i: nat)
    requires LogInv(config, s) && CooldownInv(config, s) && Holder(s).ThrottleCheck? && !Throttled(s.shared, s.clock) && i < |s.log|
    ensures Before(config, s.log[i], Attempt(s.clock, InFlight))
  {
    assert WellTimed(s.log[i], s.clock);
    if i == |s.log| - 1 {
      assert LastFinished(s.log) == if s.log[i].outcome.Abandoned? then LastFinished(s.log[..i]) else Some(s.log[i].outcome);
    } else {
      assert Before(config, s.log[i], s.log[|s.log| - 1]);
      assert WellTimed(s.log[|s.log| - 1], s.clock);
    }
  }

  lemma CloseKeeps(config: CacheConfig, s: State, outcome: Outcome)
    requires LogInv(config, s) && s.log != []
    requires WellTimed(Attempt(s.log[|s.log| - 1].startedAt, outcome), s.clock)
    ensures var log := CloseAttempt(s, outcome).log;
            && |log| == |s.log|
            && log[..|log| - 1] == s.log[..|s.log| - 1]
            && log[|log| - 1] == Attempt(s.log[|s.log| - 1].startedAt, outcome)
            && AllTimed(log, s.clock)
            && Sequential(config, log)
            && LastFinished(log) ==
               (if outcome.InFlight? || outcome.Abandoned? then LastFinished(s.log[..|s.log| - 1]) else Some(outcome))
  {
    var n := |s.log| - 1;
    var log := CloseAttempt(s, outcome).log;
    assert log == s.log[..n] + [Attempt(s.log[n].startedAt, outcome)];
    LastFinishedSnoc(s.log[..n], Attempt(s.log[n].startedAt, outcome));
    forall i, j | 0 <= i < j < |log| ensures Before(config, log[i], log[j]) {
      assert Before(config, s.log[i], s.log[j]);
    }
    forall i | 0 <= i < |log| ensures WellTimed(log[i], s.clock) {
      assert WellTimed(s.log[i], s.clock);
    }
  }

  /** Closing the running attempt loses no completed fetch. */
  lemma CloseKeepsFetched(config: CacheConfig, s: State, outcome: Outcome)
    requires s.log != [] && !s.log[|s.log| - 1].outcome.Succeeded?
    ensures forall v :: FetchedWhole(config, s.log, v) ==> FetchedWhole(config, CloseAttempt(s, outcome).log, v)
  {
    var log := CloseAttempt(s, outcome).log;
    forall v | FetchedWhole(config, s.log, v) ensures FetchedWhole(config, log, v) {
      var i :| 0 <= i < |s.log| && s.log[i].outcome == Succeeded(v.fetchedAt, v.session, v.sync);
      assert log[i] == s.log[i];
    }
  }

  lemma FetchOkKeeps(env: Env, s: State, c: Call, session: Session, sync: Sync)
    requires Inv(env, s) && c in s.pcs && s.pcs[c].Fetching?
    ensures Inv(env, Apply(env, s, FetchOk(c, session, sync)).value)
  {
    var s' := Apply(env, s, FetchOk(c, session, sync)).value;
    var outcome := Succeeded(s.clock, session, sync);
    var v := NewVault(env.config, session, sync, s.clock);
    assert s.mutex == Some(c) && Holder(s) == Fetching && Holder(s') == Completed(v);
    assert WellTimed(s.log[|s.log| - 1], s.clock);
    CloseKeeps(env.config, s, outcome);
    CloseKeepsFetched(env.config, s, outcome);
    assert s'.log == CloseAttempt(s, outcome).log;
  }

  lemma FetchErrKeeps(env: Env, s: State, c: Call, error: ClientError)
    requires Inv(env, s) && c in s.pcs && s.pcs[c].Fetching? && error.IsFetchError()
    ensures Inv(env, Apply(env, s, FetchErr(c, error)).value)
  {
    var s' := Apply(env, s, FetchErr(c, error)).value;
    var outcome := FetchFailed(s.clock, error, None);
    assert s.mutex == Some(c) && Holder(s) == Fetching && Holder(s') == Broken(error);
    assert WellTimed(s.log[|s.log| - 1], s.clock);
    CloseKeeps(env.config, s, outcome);
    CloseKeepsFetched(env.config, s, outcome);
    assert s'.log == CloseAttempt(s, outcome).log;
  }

  lemma SuccessKeeps(env: Env, s: State, c: Call)
    requires Inv(env, s) && c in s.pcs && s.pcs[c].Completed?
    ensures Inv(env, RunCall(env, s, c).value)
  {
    var s' := RunCall(env, s, c).value;
    assert s.mutex == Some(c) && Holder(s') == Installing(s.pcs[c].vault);
    assert LastFinished(s.log) == Some(s.log[|s.log| - 1].outcome);
  }

  lemma InstallKeeps(env: Env, s: State, c: Call)
    requires Inv(env, s) && c in s.pcs && s.pcs[c].Installing?
    ensures Inv(env, RunCall(env, s, c).value)
  {
    var s' := RunCall(env, s, c).value;
    assert s.mutex == Some(c) && Holder(s') == AwaitMutex;
    var v := s.pcs[c].vault;
    assert s.log[|s.log| - 1].outcome == Succeeded(v.fetchedAt, v.session, v.sync);
    assert WellTimed(s.log[|s.log| - 1], s.clock);
    assert FetchedWhole(env.config, s.log, v);
  }

  lemma FailureKeeps(env: Env, s: State, c: Call)
    requires Inv(env, s) && c in s.pcs && s.pcs[c].Broken?
    ensures Inv(env, RunCall(env, s, c).value)
  {
    var s' := RunCall(env, s, c).value;
    var e := s.pcs[c].error;
    assert s.mutex == Some(c) && Holder(s) == Broken(e);
    assert WellTimed(s.log[|s.log| - 1], s.clock);
    var outcome := s.log[|s.log| - 1].outcome.(recordedAt := Some(s.clock));
    CloseKeeps(env.config, s, outcome);
    CloseKeepsFetched(env.config, s, outcome);
    assert s'.log == CloseAttempt(s, outcome).log;
    assert Holder(s') == if e.PermitsStaleCache() then StaleNow(e) else AwaitMutex;
  }

  lemma StaleNowKeeps(env: Env, s: State, c: Call)
    requires Inv(env, s) && c in s.pcs && s.pcs[c].StaleNow?
    ensures Inv(env, RunCall(env, s, c).value)
  {
    var s' := RunCall(env, s, c).value;
    assert s.mutex == Some(c) && Holder(s') == AwaitStale(s.pcs[c].error, s.clock);
  }

  lemma StaleDecidedKeeps(env: Env, s: State, c: Call)
    requires Inv(env, s) && c in s.pcs && s.pcs[c].AwaitStale?
    ensures Inv(env, RunCall(env, s, c).value)
  {
    var s' := RunCall(env, s, c).value;
    assert s.mutex == Some(c) && Holder(s') == AwaitMutex;
    if StaleEligible(env.config, s.shared, s.pcs[c].judgedAt) {
      var v, v' := s.shared.cache.value, s'.shared.cache.value;
      assert FetchedWhole(env.config, s.log, v) && v' == v.(refreshRetryAfter := v'.refreshRetryAfter);
      assert FetchedWhole(env.config, s'.log, v');
    }
  }

  lemma ReadKeeps(env: Env, s: State, c: Call)
    requires Inv(env, s) && c in s.pcs && s.pcs[c].Reading?
    ensures Inv(env, RunCall(env, s, c).value)
  {
    var s' := RunCall(env, s, c).value;
    assert Holder(s') == Holder(s);
  }

  lemma CancelKeeps(env: Env, s: State, c: Call)
    requires Inv(env, s) && c in s.pcs && s.pcs[c].Awaiting()
    ensures Inv(env, Dismiss(s, c))
  {
    if s.pcs[c].Fetching? {
      CancelFetchKeeps(env, s, c);
    } else {
      var s' := Dismiss(s, c);
      if s.mutex == Some(c) {
        assert Holder(s) == s.pcs[c] && Holder(s') == AwaitMutex;
      } else {
        assert Holder(s') == Holder(s);
      }
    }
  }

  lemma CancelFetchKeeps(env: Env, s: State, c: Call)
    requires Inv(env, s) && c in s.pcs && s.pcs[c].Fetching?
    ensures Inv(env, Dismiss(s, c))
  {
    var s' := Dismiss(s, c);
    assert s.mutex == Some(c) && Holder(s) == Fetching && Holder(s') == AwaitMutex;
    var outcome := Abandoned(s.clock);
    assert WellTimed(s.log[|s.log| - 1], s.clock);
    CloseKeeps(env.config, s, outcome);
    CloseKeepsFetched(env.config, s, outcome);
    assert s'.log == CloseAttempt(s, outcome).log;
  }

  /** Every step of every call, of the clock and of the upstream keeps the invariant. */
  lemma StepKeeps(env: Env, s: State, step: Step)
    requires Inv(env, s) && Apply(env, s, step).Some?
    ensures Inv(env, Apply(env, s, step).value)
  {
    match step
    case Tick(d) => TickKeeps(env, s, d);
    case Arrive(c) => ArriveKeeps(env, s, c);
    case FetchOk(c, session, sync) => FetchOkKeeps(env, s, c, session, sync);
    case FetchErr(c, error) => FetchErrKeeps(env, s, c, error);
    case Cancel(c) => CancelKeeps(env, s, c);
    case Run(c) =>
      match s.pcs[c]
      case FirstCheck => CheckReuseKeeps(env, s, c, AwaitMutex);
      case AwaitMutex => LockKeeps(env, s, c);
      case SecondCheck => CheckReuseKeeps(env, s, c, ThrottleCheck);
      case ThrottleCheck => ThrottleKeeps(env, s, c);
      case Completed(_) => SuccessKeeps(env, s, c);
      case Installing(_) => InstallKeeps(env, s, c);
      case Broken(_) => FailureKeeps(env, s, c);
      case StaleNow(_) => StaleNowKeeps(env, s, c);
      case AwaitStale(_, _) => StaleDecidedKeeps(env, s, c);
      case Reading(_) => ReadKeeps(env, s, c);
      case _ =>
  }

  lemma {:induction false} Reachable(env: Env, steps: seq<Step>)
    requires Execute(env, steps).Some?
    ensures Inv(env, Execute(env, steps).value)
  {
    if steps != [] {
      Reachable(env, steps[..|steps| - 1]);
      StepKeeps(env, Execute(env, steps[..|steps| - 1]).value, steps[|steps| - 1]);
    }
  }
}
