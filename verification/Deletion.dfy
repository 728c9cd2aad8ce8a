// The deletion signal: a 404 tells the caller to delete the secret, so it must mean that the
// item is absent from a vault that was really fetched.

module AnswersExplained {
  import opened Prelude
  import opened Errors
  import opened Ciphers
  import opened VaultCache
  import opened Refresh
  import opened RefreshInvariant

  /** A refusal of the refresh check: the error of a fetch, or the throttle. */
  predicate RefreshError(result: Result<SecretDocument, ClientError>) {
    result.Err? && (result.error.IsFetchError() || result.error == Api(RefreshThrottled))
  }

  /**
   * The accepted vault was the call's own fetch, or no older than the ttl and the stale window
   * together when the call judged it.
   */
  predicate Recent(config: CacheConfig, b: Basis) {
    && b.fetchedAt <= b.judgedAt
    && (b.judgedAt == b.fetchedAt || b.judgedAt < b.fetchedAt + config.ttl + config.staleIfError)
  }

  /**
   * Attempt `i` completed, no earlier than the accepted vault was fetched, and the result is the
   * lookup applied to what it fetched.
   */
  predicate LookedUpIn(
      env: Env, log: seq<Attempt>, i: nat, c: Call, result: Result<SecretDocument, ClientError>, accepted: Basis)
  {
    && i < |log| && log[i].outcome.Succeeded?
    && accepted.fetchedAt <= log[i].outcome.at
    && result == env.resolve(log[i].outcome.sync, log[i].outcome.session.userKey, c.selector)
  }

  ghost predicate Explained(env: Env, log: seq<Attempt>, c: Call, done: Pc)
    requires done.Done?
  {
    match done.basis
    case None => RefreshError(done.result)
    case Some(accepted) =>
      Recent(env.config, accepted) && exists i :: LookedUpIn(env, log, i, c, done.result, accepted)
  }

  ghost predicate AllExplained(env: Env, s: State) {
    forall c | c in s.pcs ::
      && (s.pcs[c].Reading? ==> Recent(env.config, s.pcs[c].accepted))
      && (s.pcs[c].Done? ==> Explained(env, s.log, c, s.pcs[c]))
  }

  /** Completed fetches are never forgotten or changed. */
  predicate Remembers(log: seq<Attempt>, log': seq<Attempt>) {
    forall i | 0 <= i < |log| && log[i].outcome.Succeeded? :: i < |log'| && log'[i] == log[i]
  }

  lemma StepRemembers(env: Env, s: State, step: Step)
    requires Inv(env, s) && Apply(env, s, step).Some?
    ensures Remembers(s.log, Apply(env, s, step).value.log)
  {
    if !step.Tick? && !step.Arrive? && step.call in s.pcs && s.pcs[step.call].HoldsMutex() {
      assert Holder(s) == s.pcs[step.call];
    }
  }

  lemma StillExplained(env: Env, log: seq<Attempt>, log': seq<Attempt>, c: Call, done: Pc)
    requires done.Done? && Explained(env, log, c, done) && Remembers(log, log')
    ensures Explained(env, log', c, done)
  {
    if done.basis.Some? {
      var i :| LookedUpIn(env, log, i, c, done.result, done.basis.value);
      assert LookedUpIn(env, log', i, c, done.result, done.basis.value);
    }
  }

  /** Passing the refresh check accepts a vault that is recent enough. */
  lemma NewlyReading(env: Env, s: State, c: Call)
    requires Inv(env, s) && RunCall(env, s, c).Some?
    requires !s.pcs[c].Reading? && RunCall(env, s, c).value.pcs[c].Reading?
    ensures Recent(env.config, RunCall(env, s, c).value.pcs[c].accepted)
  {
    if s.pcs[c].HoldsMutex() {
      assert Holder(s) == s.pcs[c];
    }
    if !s.pcs[c].Installing? {
      ReuseBounds(s.shared.cache.value, env.config, RunCall(env, s, c).value.pcs[c].accepted.judgedAt);
    }
  }

  lemma NewlyDone(env: Env, s: State, c: Call)
    requires Inv(env, s) && RunCall(env, s, c).Some?
    requires !s.pcs[c].Done? && RunCall(env, s, c).value.pcs[c].Done?
    requires s.pcs[c].Reading? ==> Recent(env.config, s.pcs[c].accepted)
    ensures Explained(env, RunCall(env, s, c).value.log, c, RunCall(env, s, c).value.pcs[c])
  {
    var done := RunCall(env, s, c).value.pcs[c];
    if s.pcs[c].Reading? {
      var v := s.shared.cache.value;
      assert FetchedWhole(env.config, s.log, v);
      var i :| 0 <= i < |s.log| && s.log[i].outcome == Succeeded(v.fetchedAt, v.session, v.sync);
      assert LookedUpIn(env, s.log, i, c, done.result, s.pcs[c].accepted);
    } else {
      assert Holder(s) == s.pcs[c];
      assert RefreshError(done.result);
    }
  }

  /** A call changes position only in its own steps, and finishes or starts reading only in its runs. */
  lemma OnlyRunsDecide(env: Env, s: State, step: Step, c: Call)
    requires Apply(env, s, step).Some? && c in Apply(env, s, step).value.pcs && step != Run(c)
    requires Apply(env, s, step).value.pcs[c].Reading? || Apply(env, s, step).value.pcs[c].Done?
    ensures c in s.pcs && s.pcs[c] == Apply(env, s, step).value.pcs[c]
  {
  }

  lemma FinishedStays(env: Env, s: State, c: Call)
    requires c in s.pcs && (s.pcs[c].Done? || s.pcs[c].Reading?) && RunCall(env, s, c).Some?
    ensures s.pcs[c].Reading? && RunCall(env, s, c).value.pcs[c].Done?
  {
  }

  lemma StepExplains(env: Env, s: State, step: Step)
    requires Inv(env, s) && AllExplained(env, s) && Apply(env, s, step).Some?
    ensures AllExplained(env, Apply(env, s, step).value)
  {
    var s' := Apply(env, s, step).value;
    StepRemembers(env, s, step);
    forall c | c in s'.pcs
      ensures s'.pcs[c].Reading? ==> Recent(env.config, s'.pcs[c].accepted)
      ensures s'.pcs[c].Done? ==> Explained(env, s'.log, c, s'.pcs[c])
    {
      if s'.pcs[c].Reading? || s'.pcs[c].Done? {
        if step == Run(c) {
          RunExplains(env, s, c);
        } else {
          OnlyRunsDecide(env, s, step, c);
          if s'.pcs[c].Done? {
            StillExplained(env, s.log, s'.log, c, s.pcs[c]);
          }
        }
      }
    }
  }

  lemma RunExplains(env: Env, s: State, c: Call)
    requires Inv(env, s) && AllExplained(env, s) && RunCall(env, s, c).Some?
    ensures var s' := RunCall(env, s, c).value;
            && (s'.pcs[c].Reading? ==> Recent(env.config, s'.pcs[c].accepted))
            && (s'.pcs[c].Done? ==> Explained(env, s'.log, c, s'.pcs[c]))
  {
    var s' := RunCall(env, s, c).value;
    if s.pcs[c].Done? || s.pcs[c].Reading? {
      FinishedStays(env, s, c);
      NewlyDone(env, s, c);
    } else if s'.pcs[c].Reading? {
      NewlyReading(env, s, c);
    } else if s'.pcs[c].Done? {
      NewlyDone(env, s, c);
    }
  }

  /**
   * In every reachable state, each finished call either carries an error of the refresh check,
   * or is the lookup function applied to the content and the key of one completed fetch, which
   * is no older than the vault that the call accepted as recent enough.
   */
  lemma {:induction false} EveryAnswerExplained(env: Env, steps: seq<Step>)
    requires Execute(env, steps).Some?
    ensures AllExplained(env, Execute(env, steps).value)
  {
    if steps != [] {
      var init := steps[..|steps| - 1];
      EveryAnswerExplained(env, init);
      Reachable(env, init);
      StepExplains(env, Execute(env, init).value, steps[|steps| - 1]);
    }
  }
}

module Deletion {
  import opened Prelude
  import opened Errors
  import opened Ciphers
  import opened Selectors
  import opened Lookup
  import opened VaultCache
  import opened RefreshTheorems
  import opened AnswersExplained
  import R = Refresh
  import A = Admission

  const NOT_FOUND := StatusKind(404, ItemNotFound)

  /** The client whose lookup is the real one. */
  function Client(config: CacheConfig, prim: Primitives): R.Env {
    R.Env(config, (sync, userKey, selector) => ResolveOn(prim, sync, userKey, selector))
  }

  /** Of all errors only a missing cipher maps to 404; an upstream 404 does not. */
  lemma OnlyMissingMapsTo404(error: ClientError)
    ensures ProviderStatusAndKind(error).status == 404 <==> error == Api(CipherNotFound)
    ensures error == Api(CipherNotFound) <==> ProviderStatusAndKind(error) == NOT_FOUND
    ensures error.IsFetchError() || error == Api(RefreshThrottled) ==> ProviderStatusAndKind(error).status != 404
  {
  }

  lemma StatusIs404Exactly(answer: A.Answer)
    ensures A.StatusOf(answer).status == 404 <==> answer == Err(Api(CipherNotFound))
    ensures answer == Err(Api(CipherNotFound)) ==> A.StatusOf(answer) == NOT_FOUND
  {
    if answer.Err? {
      OnlyMissingMapsTo404(answer.error);
    }
  }

  /** The real lookup never claims that the cache is empty, so `MissingCachedSync` cannot occur. */
  lemma ClientIsHonest(config: CacheConfig, prim: Primitives)
    ensures Client(config, prim).Honest()
  {
    forall sync, userKey, selector
      ensures Client(config, prim).resolve(sync, userKey, selector) != Err(Api(MissingCachedSync))
    {
      NotFoundExactlyWhenAbsent(prim, sync, userKey, selector);
    }
  }

  lemma ClientNeverMissesItsCache(config: CacheConfig, prim: Primitives, steps: seq<R.Step>, c: R.Call)
    requires R.Execute(Client(config, prim), steps).Some?
    requires var s := R.Execute(Client(config, prim), steps).value; c in s.pcs && s.pcs[c].Done?
    ensures R.Execute(Client(config, prim), steps).value.pcs[c].result != Err(Api(MissingCachedSync))
  {
    ClientIsHonest(config, prim);
    CacheNeverMissing(Client(config, prim), steps, c);
  }

  /**
   * Attempt `i` completed no earlier than the accepted vault was fetched, and whether the answer
   * is 404 is whether the item is absent from what that attempt fetched.
   */
  ghost predicate DecidedBy(prim: Primitives, log: seq<R.Attempt>, i: nat, key: string, accepted: R.Basis, status: nat) {
    && i < |log| && log[i].outcome.Succeeded?
    && accepted.fetchedAt <= log[i].outcome.at
    && (status == 404 <==> Absent(prim, log[i].outcome.sync, log[i].outcome.session.userKey, key))
  }

  lemma LookupDecides(config: CacheConfig, prim: Primitives, log: seq<R.Attempt>, i: nat, c: R.Call, answer: A.Answer, accepted: R.Basis)
    requires LookedUpIn(Client(config, prim), log, i, c, answer, accepted)
    ensures DecidedBy(prim, log, i, c.selector.key, accepted, A.StatusOf(answer).status)
  {
    var fetched := log[i].outcome;
    NotFoundExactlyWhenAbsent(prim, fetched.sync, fetched.session.userKey, c.selector);
    StatusIs404Exactly(answer);
  }

  /** What the status of a finished call says about the vault. */
  ghost predicate Decided(config: CacheConfig, prim: Primitives, log: seq<R.Attempt>, c: R.Call, done: R.Pc)
    requires done.Done?
  {
    match done.basis
    case None => A.StatusOf(done.result).status != 404
    case Some(accepted) =>
      && Recent(config, accepted)
      && exists i :: DecidedBy(prim, log, i, c.selector.key, accepted, A.StatusOf(done.result).status)
  }

  lemma ExplainedIsDecided(config: CacheConfig, prim: Primitives, log: seq<R.Attempt>, c: R.Call, done: R.Pc)
    requires done.Done? && Explained(Client(config, prim), log, c, done)
    ensures Decided(config, prim, log, c, done)
  {
    match done.basis
    case None => OnlyMissingMapsTo404(done.result.error);
    case Some(accepted) =>
      var i :| LookedUpIn(Client(config, prim), log, i, c, done.result, accepted);
      LookupDecides(config, prim, log, i, c, done.result, accepted);
  }

  /**
   * In every run, a finished call answers 404 exactly when the item is absent from one completed
   * fetch, no older than the vault the call accepted, which was its own fetch or within the ttl
   * and the stale window when judged. A call refused by the refresh check never answers 404.
   */
  lemma NotFoundOnlyWhenAbsent(config: CacheConfig, prim: Primitives, steps: seq<R.Step>, c: R.Call)
    requires R.Execute(Client(config, prim), steps).Some?
    requires var s := R.Execute(Client(config, prim), steps).value; c in s.pcs && s.pcs[c].Done?
    ensures var s := R.Execute(Client(config, prim), steps).value; Decided(config, prim, s.log, c, s.pcs[c])
  {
    var s := R.Execute(Client(config, prim), steps).value;
    EveryAnswerExplained(Client(config, prim), steps);
    ExplainedIsDecided(config, prim, s.log, c, s.pcs[c]);
  }

  lemma ReadingAnswers(env: R.Env, s: R.State, c: R.Call)
    requires c in s.pcs && s.pcs[c].Reading?
    ensures R.RunCall(env, s, c).Some?
    ensures R.RunCall(env, s, c).value.pcs[c] == R.Done(R.Answer(env, s.shared, c.selector), Some(s.pcs[c].accepted))
  {
  }

  lemma AnswerIsLookup(config: CacheConfig, prim: Primitives, shared: Shared, selector: Selector)
    requires shared.cache.Some?
    ensures R.Answer(Client(config, prim), shared, selector) ==
            ResolveOn(prim, shared.cache.value.sync, shared.cache.value.session.userKey, selector)
  {
  }

  lemma LookupIs404Exactly(prim: Primitives, v: CachedVault, selector: Selector)
    ensures A.StatusOf(ResolveOn(prim, v.sync, v.session.userKey, selector)).status == 404 <==>
            Absent(prim, v.sync, v.session.userKey, selector.key)
  {
    NotFoundExactlyWhenAbsent(prim, v.sync, v.session.userKey, selector);
    StatusIs404Exactly(ResolveOn(prim, v.sync, v.session.userKey, selector));
  }

  /** A call that has passed the refresh check answers 404 exactly when the cached vault lacks the item. */
  lemma ReadingDecidesAbsence(config: CacheConfig, prim: Primitives, s: R.State, c: R.Call)
    requires c in s.pcs && s.pcs[c].Reading? && s.shared.cache.Some?
    ensures var v := s.shared.cache.value;
            var answer := R.Answer(Client(config, prim), s.shared, c.selector);
            && R.RunCall(Client(config, prim), s, c).Some?
            && R.RunCall(Client(config, prim), s, c).value.pcs[c] == R.Done(answer, Some(s.pcs[c].accepted))
            && (A.StatusOf(answer).status == 404 <==> Absent(prim, v.sync, v.session.userKey, c.selector.key))
  {
    ReadingAnswers(Client(config, prim), s, c);
    LookupIs404Exactly(prim, s.shared.cache.value, c.selector);
    AnswerIsLookup(config, prim, s.shared, c.selector);
  }

  // ---------- Through the handler ----------

  lemma ValidationIsNever404(ref: RemoteRef)
    ensures FromRemoteRef(ref).Err? ==> ProviderStatusAndKind(FromRemoteRef(ref).error).status != 404
  {
    if FromRemoteRef(ref).Err? {
      OnlyMissingMapsTo404(FromRemoteRef(ref).error);
      assert !FromRemoteRef(ref).error.Api?;
    }
  }

  /** Whatever the handler does, it answers 404 only to relay a missing cipher from the provider. */
  lemma HandlerAnswers404OnlyForMissing(env: A.Env, s: A.State, step: A.Step, id: A.Id, k: StatusKind)
    requires A.Apply(env, s, step).Some? && k.status == 404
    requires !(id in s.pcs && s.pcs[id].Answered(k))
    requires id in A.Apply(env, s, step).value.pcs && A.Apply(env, s, step).value.pcs[id].Answered(k)
    ensures step == A.ProviderDone(id, Err(Api(CipherNotFound))) && k == NOT_FOUND
    ensures id in s.pcs && s.pcs[id].Calling?
  {
    match step
    case Run(j) =>
      if j == id {
        if s.pcs[id].Admitted? {
          ValidationIsNever404(s.pcs[id].ref);
        }
      } else {
        A.RunLeavesOthers(env, s, j, id);
      }
    case ProviderDone(j, answer) =>
      if j == id {
        StatusIs404Exactly(answer);
      }
    case _ =>
  }

  /**
   * The deletion signal, end to end. When the provider call of a request finishes, the request
   * is answered 404 exactly when the item its selector names is absent from the completed fetch
   * that the call consulted, which is no older than the vault it accepted as recent enough.
   */
  lemma DeletionSignalIsGenuine(
      config: CacheConfig, prim: Primitives, steps: seq<R.Step>, c: R.Call, env: A.Env, s: A.State, id: A.Id)
    requires R.Execute(Client(config, prim), steps).Some?
    requires var r := R.Execute(Client(config, prim), steps).value; c in r.pcs && r.pcs[c].Done?
    requires id in s.pcs && s.pcs[id].Calling? && s.pcs[id].selector == c.selector
    ensures var r := R.Execute(Client(config, prim), steps).value;
            var s' := A.Apply(env, s, A.ProviderDone(id, r.pcs[c].result));
            && s'.Some? && id in s'.value.pcs
            && (s'.value.pcs[id].Answered(NOT_FOUND) <==> A.StatusOf(r.pcs[c].result).status == 404)
            && Decided(config, prim, r.log, c, r.pcs[c])
  {
    NotFoundOnlyWhenAbsent(config, prim, steps, c);
    ProviderAnswerIsRelayed(env, s, id, R.Execute(Client(config, prim), steps).value.pcs[c].result);
  }

  lemma ProviderAnswerIsRelayed(env: A.Env, s: A.State, id: A.Id, answer: A.Answer)
    requires id in s.pcs && s.pcs[id].Calling?
    ensures var s' := A.Apply(env, s, A.ProviderDone(id, answer));
            && s'.Some? && id in s'.value.pcs
            && (s'.value.pcs[id].Answered(NOT_FOUND) <==> A.StatusOf(answer).status == 404)
  {
    StatusIs404Exactly(answer);
  }

  /**
   * Conversely, under any schedule, a validated and permitted request that is not shed and whose
   * item is absent from the vault that the provider call reads is answered 404.
   */
  lemma AbsentItemGets404(
      config: CacheConfig, prim: Primitives, r: R.State, c: R.Call,
      env: A.Env, s: A.State, schedule: seq<A.Step>, id: A.Id)
    returns (calling: A.State, finishing: A.State)
    requires c in r.pcs && r.pcs[c].Reading? && r.shared.cache.Some?
    requires Absent(prim, r.shared.cache.value.sync, r.shared.cache.value.session.userKey, c.selector.key)
    requires id in s.pcs && s.pcs[id].Decoded? && FromRemoteRef(s.pcs[id].ref) == Ok(c.selector)
    requires A.Continue(env, s, schedule).Some? && A.TurnsAreGood(env, s, schedule, id, c.selector)
    requires A.Turns(schedule, id) == 3 && forall step | step in schedule :: !A.Ends(step, id)
    ensures A.Continue(env, s, schedule) == Some(calling)
    ensures A.Apply(env, calling, A.ProviderDone(id, R.Answer(Client(config, prim), r.shared, c.selector))) == Some(finishing)
    ensures id in finishing.pcs && finishing.pcs[id] == A.Finishing(NOT_FOUND)
  {
    var answer := R.Answer(Client(config, prim), r.shared, c.selector);
    ReadingDecidesAbsence(config, prim, r, c);
    StatusIs404Exactly(answer);
    calling, finishing := A.AdmittedRequestIsAnswered(env, s, schedule, id, c.selector, answer);
  }
}
