// The resolve handler: authorization, body, permit, selector, policy, provider. Any number of
// requests interleave with policy reloads and with clients that disconnect at an await.

module Admission {
  import opened Prelude
  import opened Errors
  import opened Ciphers
  import opened Selectors
  import opened PolicyRules
  import opened AuthPolicy

  type Id = nat

  /** The concurrency limit, absent when the cap is disabled, and the token digest. */
  datatype Env = Env(limit: Option<nat>, digest: string -> Digest)

  /** `resolve_semaphore`: a limit of zero means no semaphore. */
  function LimitOf(configured: nat): Option<nat> {
    if configured > 0 then Some(configured) else None
  }

  /** What the handler learned when it authorized a request, and from what. */
  datatype Ticket = Ticket(mode: AuthMode, values: seq<string>, scope: Scope)

  datatype BodyRead = BodyOk(ref: RemoteRef) | UnsupportedMediaType | BodyTooLarge | BodyMalformed | BodyTimeout

  type Answer = Result<SecretDocument, ClientError>

  /** Where a request is. It is at an await in `ReadingBody` and in `Calling`. */
  datatype Pc =
    | Arrived(values: seq<string>)
    | ReadingBody(ticket: Ticket)
    | Decoded(ticket: Ticket, ref: RemoteRef)
    | Admitted(ticket: Ticket, ref: RemoteRef)
    | Validated(ticket: Ticket, ref: RemoteRef, selector: Selector)
    | Calling(ticket: Ticket, ref: RemoteRef, selector: Selector, checkedUnder: Rules)
    | Finishing(status: StatusKind)   // metric recorded, permit not yet dropped
    | Done(status: StatusKind)
    | Disconnected
  {
    predicate PastAdmission() {
      Admitted? || Validated? || Calling?
    }

    /** Authorized and not yet answered. */
    predicate HasTicket() {
      ReadingBody? || Decoded? || PastAdmission()
    }

    predicate Dismissable() {
      Arrived? || ReadingBody? || Calling?
    }

    predicate Answered(k: StatusKind) {
      (Finishing? || Done?) && status == k
    }
  }

  datatype State = State(
    rules: Rules,
    auth: AuthMode,
    available: nat,
    permits: set<Id>,
    pcs: map<Id, Pc>,
    recorded: map<StatusKind, nat>)

  function Initial(env: Env, rules: Rules, auth: AuthMode): State {
    State(rules, auth, if env.limit.Some? then env.limit.value else 0, {}, map[], map[])
  }

  datatype Step =
    | Arrive(id: Id, values: seq<string>)
    | Run(id: Id)
    | BodyDone(id: Id, body: BodyRead)
    | ProviderDone(id: Id, answer: Answer)
    | Disconnect(id: Id)
    | ReloadRules(rules: Rules)
    | ReloadAuth(capabilities: seq<Capability>)

  const UNAUTHORIZED := StatusKind(401, Auth)
  const OVERLOADED := StatusKind(503, Overloaded)
  const FORBIDDEN := StatusKind(403, PolicyDenied)
  const SUCCEEDED := StatusKind(200, NoError)

  // ---------- Steps ----------

  function CountOf(recorded: map<StatusKind, nat>, k: StatusKind): nat {
    if k in recorded then recorded[k] else 0
  }

  function Move(s: State, id: Id, pc: Pc): State {
    s.(pcs := s.pcs[id := pc])
  }

  function Release(s: State, id: Id): State {
    if id in s.permits then s.(permits := s.permits - {id}, available := s.available + 1) else s
  }

  /** Records the metric of the answer that is about to be returned. */
  function Finish(s: State, id: Id, k: StatusKind): State {
    Move(s, id, Finishing(k)).(recorded := s.recorded[k := CountOf(s.recorded, k) + 1])
  }

  function AuthorizeRequest(env: Env, s: State, id: Id, values: seq<string>): State {
    match Authorize(env.digest, s.auth, values)
    case None => Finish(s, id, UNAUTHORIZED)
    case Some(scope) => Move(s, id, ReadingBody(Ticket(s.auth, values, scope)))
  }

  function BodyStatus(body: BodyRead): StatusKind {
    match body
    case UnsupportedMediaType => StatusKind(415, InvalidRequest)
    case BodyTooLarge => StatusKind(413, InvalidRequest)
    case BodyTimeout => StatusKind(408, RequestTimeout)
    case _ => StatusKind(400, InvalidRequest)
  }

  function Decode(s: State, id: Id, ticket: Ticket, body: BodyRead): State {
    if body.BodyOk? then Move(s, id, Decoded(ticket, body.ref)) else Finish(s, id, BodyStatus(body))
  }

  /** `try_acquire_owned`, which never waits. */
  function Admit(env: Env, s: State, id: Id, ticket: Ticket, ref: RemoteRef): State {
    if env.limit.None? then Move(s, id, Admitted(ticket, ref))
    else if s.available == 0 then Finish(s, id, OVERLOADED)
    else Move(s.(available := s.available - 1, permits := s.permits + {id}), id, Admitted(ticket, ref))
  }

  function Validate(s: State, id: Id, ticket: Ticket, ref: RemoteRef): State {
    match FromRemoteRef(ref)
    case Err(e) => Finish(s, id, ProviderStatusAndKind(e))
    case Ok(selector) => Move(s, id, Validated(ticket, ref, selector))
  }

  predicate Permitted(rules: Rules, scope: Scope, key: string) {
    Allows(rules, key) && ScopeAllows(scope, key)
  }

  /**
   * The global rules grant the key, and so does the scope: each allows everything, lists the
   * key, or lists a prefix that the key continues.
   */
  ghost predicate MayRead(rules: Rules, scope: Scope, key: string) {
    RulesGrant(rules, key) && (scope == Global || (scope.ScopedTo? && RulesGrant(scope.rules, key)))
  }

  lemma PermittedExactly(rules: Rules, scope: Scope, key: string)
    ensures Permitted(rules, scope, key) <==> MayRead(rules, scope, key)
  {
    AllowsExactly(rules, key);
    if scope.ScopedTo? {
      AllowsExactly(scope.rules, key);
    }
  }

  function CheckPolicy(s: State, id: Id, ticket: Ticket, ref: RemoteRef, selector: Selector): State {
    if Permitted(s.rules, ticket.scope, selector.key)
    then Move(s, id, Calling(ticket, ref, selector, s.rules))
    else Finish(s, id, FORBIDDEN)
  }

  function StatusOf(answer: Answer): StatusKind {
    match answer
    case Ok(_) => SUCCEEDED
    case Err(e) => ProviderStatusAndKind(e)
  }

  function RunRequest(env: Env, s: State, id: Id): Option<State> {
    if id !in s.pcs then None
    else
      match s.pcs[id]
      case Arrived(values) => Some(AuthorizeRequest(env, s, id, values))
      case Decoded(ticket, ref) => Some(Admit(env, s, id, ticket, ref))
      case Admitted(ticket, ref) => Some(Validate(s, id, ticket, ref))
      case Validated(ticket, ref, selector) => Some(CheckPolicy(s, id, ticket, ref, selector))
      case Finishing(k) => Some(Release(Move(s, id, Done(k)), id))
      case _ => None
  }

  function Apply(env: Env, s: State, step: Step): Option<State> {
    match step
    case Arrive(id, values) => if id in s.pcs then None else Some(Move(s, id, Arrived(values)))
    case Run(id) => RunRequest(env, s, id)
    case BodyDone(id, body) =>
      if id in s.pcs && s.pcs[id].ReadingBody? then Some(Decode(s, id, s.pcs[id].ticket, body)) else None
    case ProviderDone(id, answer) =>
      if id in s.pcs && s.pcs[id].Calling? then Some(Finish(s, id, StatusOf(answer))) else None
    case Disconnect(id) =>
      if id in s.pcs && s.pcs[id].Dismissable() then Some(Release(Move(s, id, Disconnected), id)) else None
    case ReloadRules(rules) => Some(s.(rules := rules))
    case ReloadAuth(capabilities) => if s.auth.Scoped? then Some(s.(auth := Scoped(capabilities))) else None
  }

  function Execute(env: Env, start: State, steps: seq<Step>): Option<State> {
    if steps == [] then Some(start)
    else
      match Execute(env, start, steps[..|steps| - 1])
      case None => None
      case Some(s) => Apply(env, s, steps[|steps| - 1])
  }

  // ---------- Invariants ----------

  predicate PermitInv(env: Env, s: State) {
    && (forall id | id in s.permits :: id in s.pcs && (s.pcs[id].PastAdmission() || s.pcs[id].Finishing?))
    && (forall id | id in s.pcs && s.pcs[id].PastAdmission() :: env.limit.Some? ==> id in s.permits)
    && (if env.limit.Some? then s.available + |s.permits| == env.limit.value else s.permits == {})
  }

  predicate TicketOk(env: Env, t: Ticket) {
    Authorize(env.digest, t.mode, t.values) == Some(t.scope)
  }

  predicate PcOk(env: Env, pc: Pc) {
    match pc
    case ReadingBody(t) => TicketOk(env, t)
    case Decoded(t, _) => TicketOk(env, t)
    case Admitted(t, _) => TicketOk(env, t)
    case Validated(t, ref, selector) => TicketOk(env, t) && FromRemoteRef(ref) == Ok(selector)
    case Calling(t, ref, selector, rules) =>
      TicketOk(env, t) && FromRemoteRef(ref) == Ok(selector) && Permitted(rules, t.scope, selector.key)
    case _ => true
  }

  predicate PcInv(env: Env, s: State) {
    forall id | id in s.pcs :: PcOk(env, s.pcs[id])
  }

  /** The requests answered, or about to be, with the given status and kind. */
  function AnsweredWith(s: State, k: StatusKind): set<Id> {
    set id | id in s.pcs && s.pcs[id].Answered(k)
  }

  ghost predicate MetricInv(s: State) {
    forall k :: CountOf(s.recorded, k) == |AnsweredWith(s, k)|
  }

  ghost predicate Inv(env: Env, s: State) {
    PermitInv(env, s) && PcInv(env, s) && MetricInv(s)
  }

  lemma MoveKeepsMetrics(s: State, id: Id, pc: Pc)
    requires MetricInv(s)
    requires (id in s.pcs ==> !s.pcs[id].Finishing? && !s.pcs[id].Done?) && !pc.Finishing? && !pc.Done?
    ensures MetricInv(Move(s, id, pc))
  {
    forall k ensures CountOf(s.recorded, k) == |AnsweredWith(Move(s, id, pc), k)| {
      assert AnsweredWith(Move(s, id, pc), k) == AnsweredWith(s, k);
    }
  }

  lemma FinishKeepsMetrics(s: State, id: Id, k: StatusKind)
    requires MetricInv(s) && id in s.pcs && !s.pcs[id].Finishing? && !s.pcs[id].Done?
    ensures MetricInv(Finish(s, id, k))
  {
    var s' := Finish(s, id, k);
    forall j ensures CountOf(s'.recorded, j) == |AnsweredWith(s', j)| {
      AnsweredOneMore(s, s', id, k, j);
    }
  }

  lemma AnsweredOneMore(s: State, s': State, id: Id, k: StatusKind, j: StatusKind)
    requires id in s.pcs && !s.pcs[id].Answered(j)
    requires s'.pcs == s.pcs[id := Finishing(k)]
    ensures |AnsweredWith(s', j)| == |AnsweredWith(s, j)| + if j == k then 1 else 0
  {
    assert id !in AnsweredWith(s, j);
    if j == k {
      assert AnsweredWith(s', j) == AnsweredWith(s, j) + {id};
    } else {
      assert AnsweredWith(s', j) == AnsweredWith(s, j);
    }
  }

  lemma SameMetrics(s: State, s': State)
    requires MetricInv(s) && s'.recorded == s.recorded
    requires s'.pcs.Keys == s.pcs.Keys
    requires forall id, k | id in s.pcs :: s'.pcs[id].Answered(k) <==> s.pcs[id].Answered(k)
    ensures MetricInv(s')
  {
    forall k ensures CountOf(s'.recorded, k) == |AnsweredWith(s', k)| {
      assert AnsweredWith(s', k) == AnsweredWith(s, k);
    }
  }

  lemma ReleaseKeepsMetrics(s: State, id: Id)
    requires MetricInv(s)
    ensures MetricInv(Release(s, id))
  {
    SameMetrics(s, Release(s, id));
  }

  lemma RunKeepsMetrics(env: Env, s: State, id: Id)
    requires MetricInv(s) && RunRequest(env, s, id).Some?
    ensures MetricInv(RunRequest(env, s, id).value)
  {
    match s.pcs[id]
    case Arrived(values) =>
      match Authorize(env.digest, s.auth, values) {
        case None => FinishKeepsMetrics(s, id, UNAUTHORIZED);
        case Some(scope) => MoveKeepsMetrics(s, id, ReadingBody(Ticket(s.auth, values, scope)));
      }
    case Decoded(ticket, ref) =>
      if env.limit.Some? && s.available == 0 {
        FinishKeepsMetrics(s, id, OVERLOADED);
      } else {
        MoveKeepsMetrics(s, id, Admitted(ticket, ref));
        SameMetrics(Move(s, id, Admitted(ticket, ref)), RunRequest(env, s, id).value);
      }
    case Admitted(ticket, ref) =>
      match FromRemoteRef(ref) {
        case Err(e) => FinishKeepsMetrics(s, id, ProviderStatusAndKind(e));
        case Ok(selector) => MoveKeepsMetrics(s, id, Validated(ticket, ref, selector));
      }
    case Validated(ticket, ref, selector) =>
      if Permitted(s.rules, ticket.scope, selector.key) {
        MoveKeepsMetrics(s, id, Calling(ticket, ref, selector, s.rules));
      } else {
        FinishKeepsMetrics(s, id, FORBIDDEN);
      }
    case Finishing(k) => SameMetrics(s, RunRequest(env, s, id).value);
  }

  lemma StepKeepsMetrics(env: Env, s: State, step: Step)
    requires MetricInv(s) && Apply(env, s, step).Some?
    ensures MetricInv(Apply(env, s, step).value)
  {
    match step
    case Arrive(id, values) => MoveKeepsMetrics(s, id, Arrived(values));
    case Run(id) => RunKeepsMetrics(env, s, id);
    case BodyDone(id, body) =>
      if body.BodyOk? {
        MoveKeepsMetrics(s, id, Decoded(s.pcs[id].ticket, body.ref));
      } else {
        FinishKeepsMetrics(s, id, BodyStatus(body));
      }
    case ProviderDone(id, answer) => FinishKeepsMetrics(s, id, StatusOf(answer));
    case Disconnect(id) =>
      MoveKeepsMetrics(s, id, Disconnected);
      ReleaseKeepsMetrics(Move(s, id, Disconnected), id);
    case ReloadRules(_) => SameMetrics(s, Apply(env, s, step).value);
    case ReloadAuth(_) => SameMetrics(s, Apply(env, s, step).value);
  }

  lemma MoveKeepsPermits(env: Env, s: State, id: Id, pc: Pc)
    requires PermitInv(env, s)
    requires id in s.permits ==> pc.PastAdmission() || pc.Finishing?
    requires pc.PastAdmission() && env.limit.Some? ==> id in s.permits
    ensures PermitInv(env, Move(s, id, pc))
  {
  }

  lemma FinishKeepsPermits(env: Env, s: State, id: Id, k: StatusKind)
    requires PermitInv(env, s)
    ensures PermitInv(env, Finish(s, id, k))
  {
    MoveKeepsPermits(env, s, id, Finishing(k));
  }

  /** A permit is granted to a request that holds none, or nothing changes but the metric. */
  lemma AdmitKeepsPermits(env: Env, s: State, id: Id, ticket: Ticket, ref: RemoteRef)
    requires PermitInv(env, s) && id in s.pcs && s.pcs[id].Decoded?
    ensures PermitInv(env, Admit(env, s, id, ticket, ref))
  {
    if env.limit.None? {
      MoveKeepsPermits(env, s, id, Admitted(ticket, ref));
    } else if s.available == 0 {
      FinishKeepsPermits(env, s, id, OVERLOADED);
    } else {
      assert id !in s.permits;
    }
  }

  lemma LeaveKeepsPermits(env: Env, s: State, id: Id, pc: Pc)
    requires PermitInv(env, s) && !pc.PastAdmission()
    ensures PermitInv(env, Release(Move(s, id, pc), id))
  {
  }

  lemma RunKeepsPermits(env: Env, s: State, id: Id)
    requires PermitInv(env, s) && RunRequest(env, s, id).Some?
    ensures PermitInv(env, RunRequest(env, s, id).value)
  {
    match s.pcs[id]
    case Arrived(values) =>
      match Authorize(env.digest, s.auth, values) {
        case None => FinishKeepsPermits(env, s, id, UNAUTHORIZED);
        case Some(scope) => MoveKeepsPermits(env, s, id, ReadingBody(Ticket(s.auth, values, scope)));
      }
    case Decoded(ticket, ref) => AdmitKeepsPermits(env, s, id, ticket, ref);
    case Admitted(ticket, ref) =>
      match FromRemoteRef(ref) {
        case Err(e) => FinishKeepsPermits(env, s, id, ProviderStatusAndKind(e));
        case Ok(selector) => MoveKeepsPermits(env, s, id, Validated(ticket, ref, selector));
      }
    case Validated(ticket, ref, selector) =>
      if Permitted(s.rules, ticket.scope, selector.key) {
        MoveKeepsPermits(env, s, id, Calling(ticket, ref, selector, s.rules));
      } else {
        FinishKeepsPermits(env, s, id, FORBIDDEN);
      }
    case Finishing(k) => LeaveKeepsPermits(env, s, id, Done(k));
  }

  lemma StepKeepsPermits(env: Env, s: State, step: Step)
    requires PermitInv(env, s) && Apply(env, s, step).Some?
    ensures PermitInv(env, Apply(env, s, step).value)
  {
    match step
    case Arrive(id, values) => MoveKeepsPermits(env, s, id, Arrived(values));
    case Run(id) => RunKeepsPermits(env, s, id);
    case BodyDone(id, body) =>
      if body.BodyOk? {
        MoveKeepsPermits(env, s, id, Decoded(s.pcs[id].ticket, body.ref));
      } else {
        FinishKeepsPermits(env, s, id, BodyStatus(body));
      }
    case ProviderDone(id, answer) => FinishKeepsPermits(env, s, id, StatusOf(answer));
    case Disconnect(id) => LeaveKeepsPermits(env, s, id, Disconnected);
    case ReloadRules(_) =>
    case ReloadAuth(_) =>
  }

  /** Only the request that moved has a new position. */
  predicate OnlyMoved(s: State, s': State, id: Id) {
    id in s'.pcs && s'.pcs == s.pcs[id := s'.pcs[id]]
  }

  lemma RunMovesOne(env: Env, s: State, id: Id)
    requires id in s.pcs && PcOk(env, s.pcs[id]) && RunRequest(env, s, id).Some?
    ensures OnlyMoved(s, RunRequest(env, s, id).value, id) && PcOk(env, RunRequest(env, s, id).value.pcs[id])
  {
  }

  lemma MovedKeepsPcs(env: Env, s: State, s': State, id: Id)
    requires PcInv(env, s) && OnlyMoved(s, s', id) && PcOk(env, s'.pcs[id])
    ensures PcInv(env, s')
  {
    forall j | j in s'.pcs ensures PcOk(env, s'.pcs[j]) {
      if j != id {
        assert s'.pcs[j] == s.pcs[j];
      }
    }
  }

  lemma StepKeepsPcs(env: Env, s: State, step: Step)
    requires PcInv(env, s) && Apply(env, s, step).Some?
    ensures PcInv(env, Apply(env, s, step).value)
  {
    var s' := Apply(env, s, step).value;
    match step
    case Arrive(id, _) => MovedKeepsPcs(env, s, s', id);
    case Run(id) =>
      RunMovesOne(env, s, id);
      MovedKeepsPcs(env, s, s', id);
    case BodyDone(id, _) => MovedKeepsPcs(env, s, s', id);
    case ProviderDone(id, _) => MovedKeepsPcs(env, s, s', id);
    case Disconnect(id) => MovedKeepsPcs(env, s, s', id);
    case ReloadRules(_) =>
    case ReloadAuth(_) =>
  }

  lemma {:induction false} Reachable(env: Env, rules: Rules, auth: AuthMode, steps: seq<Step>)
    requires Execute(env, Initial(env, rules, auth), steps).Some?
    ensures Inv(env, Execute(env, Initial(env, rules, auth), steps).value)
  {
    var start := Initial(env, rules, auth);
    if steps == [] {
      forall k ensures CountOf(start.recorded, k) == |AnsweredWith(start, k)| {
        assert AnsweredWith(start, k) == {};
      }
    } else {
      Reachable(env, rules, auth, steps[..|steps| - 1]);
      var s := Execute(env, start, steps[..|steps| - 1]).value;
      StepKeepsPermits(env, s, steps[|steps| - 1]);
      StepKeepsPcs(env, s, steps[|steps| - 1]);
      StepKeepsMetrics(env, s, steps[|steps| - 1]);
    }
  }

  // ---------- Theorems ----------

  function CallingIn(s: State): set<Id> {
    set id | id in s.pcs && s.pcs[id].Calling?
  }

  /**
   * Over every interleaving: with a limit, available permits plus permits held is the limit, so
   * at most that many requests are at the provider; a request whose body is being read holds
   * none; and once no admitted request is left every permit is back.
   */
  lemma PermitsConserved(env: Env, rules: Rules, auth: AuthMode, steps: seq<Step>)
    requires Execute(env, Initial(env, rules, auth), steps).Some? && env.limit.Some?
    ensures var s := Execute(env, Initial(env, rules, auth), steps).value;
            && s.available + |s.permits| == env.limit.value
            && |CallingIn(s)| <= env.limit.value
            && (forall id | id in s.pcs && s.pcs[id].ReadingBody? :: id !in s.permits)
            && (forall id | id in s.pcs && s.pcs[id].Calling? :: id in s.permits)
            && ((forall id | id in s.pcs :: !s.pcs[id].PastAdmission() && !s.pcs[id].Finishing?) ==>
                  s.available == env.limit.value)
  {
    Reachable(env, rules, auth, steps);
    var s := Execute(env, Initial(env, rules, auth), steps).value;
    Within(CallingIn(s), s.permits);
    if s.permits != {} {
      var id :| id in s.permits;
      assert s.pcs[id].PastAdmission() || s.pcs[id].Finishing?;
    }
  }

  lemma {:induction false} Within(a: set<Id>, b: set<Id>)
    requires a <= b
    ensures |a| <= |b|
  {
    if x :| x in a {
      Within(a - {x}, b - {x});
    }
  }

  /** Each kind of answer is counted as many times as requests were answered with it. */
  lemma MetricsCountAnswers(env: Env, rules: Rules, auth: AuthMode, steps: seq<Step>, k: StatusKind)
    requires Execute(env, Initial(env, rules, auth), steps).Some?
    ensures var s := Execute(env, Initial(env, rules, auth), steps).value;
            CountOf(s.recorded, k) == |AnsweredWith(s, k)|
  {
    Reachable(env, rules, auth, steps);
  }

  /** An answer, once recorded, is the answer returned. */
  lemma AnswersAreFinal(env: Env, s: State, step: Step, id: Id, k: StatusKind)
    requires id in s.pcs && s.pcs[id].Answered(k) && Apply(env, s, step).Some?
    ensures id in Apply(env, s, step).value.pcs && Apply(env, s, step).value.pcs[id].Answered(k)
  {
    if step == Run(id) {
      assert s.pcs[id] == Finishing(k);
    }
  }

  /**
   * Whatever reloads and disconnects happened before, a request reaches the provider only with a
   * validated selector whose key is allowed both by the global rules in force at that moment and
   * by the scope that its token was granted by the auth policy in force when an earlier step of
   * the run authorized it.
   */
  lemma ProviderReachedOnlyIfAllowed(env: Env, rules: Rules, auth: AuthMode, steps: seq<Step>, step: Step, id: Id)
    requires Execute(env, Initial(env, rules, auth), steps + [step]).Some?
    requires var s := Execute(env, Initial(env, rules, auth), steps);
             s.Some? && !(id in s.value.pcs && s.value.pcs[id].Calling?)
    requires var s' := Execute(env, Initial(env, rules, auth), steps + [step]).value;
             id in s'.pcs && s'.pcs[id].Calling?
    ensures var s := Execute(env, Initial(env, rules, auth), steps).value;
            var pc := Execute(env, Initial(env, rules, auth), steps + [step]).value.pcs[id];
            && MayRead(s.rules, pc.ticket.scope, pc.selector.key)
            && (exists k: nat :: AuthorizedAt(env, Initial(env, rules, auth), steps, k, id, pc.ticket))
            && FromRemoteRef(pc.ref) == Ok(pc.selector) && WellFormed(pc.selector)
  {
    var start := Initial(env, rules, auth);
    assert (steps + [step])[..|steps|] == steps;
    Reachable(env, rules, auth, steps);
    Reachable(env, rules, auth, steps + [step]);
    var s := Execute(env, start, steps).value;
    var s' := Execute(env, start, steps + [step]).value;
    EnteringProvider(env, s, step, id);
    TicketsComeFromTheRun(env, start, steps, id);
    PermittedExactly(s.rules, s'.pcs[id].ticket.scope, s'.pcs[id].selector.key);
    assert PcOk(env, s'.pcs[id]);
    SelectorNormalForm(s'.pcs[id].ref);
  }

  /** Step `k` of the run authorized the request, under the auth policy in force at that moment. */
  predicate AuthorizedAt(env: Env, start: State, steps: seq<Step>, k: nat, id: Id, t: Ticket) {
    && k < |steps| && steps[k] == Run(id)
    && var before := Execute(env, start, steps[..k]);
       && before.Some? && id in before.value.pcs && before.value.pcs[id] == Arrived(t.values)
       && t.mode == before.value.auth
       && Authorize(env.digest, before.value.auth, t.values) == Some(t.scope)
  }

  lemma NewTicket(env: Env, s: State, step: Step, id: Id)
    requires Apply(env, s, step).Some?
    requires id in Apply(env, s, step).value.pcs && Apply(env, s, step).value.pcs[id].HasTicket()
    ensures var t := Apply(env, s, step).value.pcs[id].ticket;
            && id in s.pcs
            && ((s.pcs[id].HasTicket() && s.pcs[id].ticket == t)
                || (step == Run(id) && s.pcs[id] == Arrived(t.values) && t.mode == s.auth
                    && Authorize(env.digest, s.auth, t.values) == Some(t.scope)))
  {
    if step.Run? && step.id != id {
      RunLeavesOthers(env, s, step.id, id);
    }
  }

  lemma {:induction false} TicketsComeFromTheRun(env: Env, start: State, steps: seq<Step>, id: Id)
    requires Execute(env, start, steps).Some? && start.pcs == map[]
    requires var s := Execute(env, start, steps).value; id in s.pcs && s.pcs[id].HasTicket()
    ensures exists k: nat :: AuthorizedAt(env, start, steps, k, id, Execute(env, start, steps).value.pcs[id].ticket)
  {
    var n := |steps| - 1;
    var init := steps[..n];
    var s := Execute(env, start, init).value;
    var t := Execute(env, start, steps).value.pcs[id].ticket;
    NewTicket(env, s, steps[n], id);
    if s.pcs[id].HasTicket() && s.pcs[id].ticket == t {
      TicketsComeFromTheRun(env, start, init, id);
      var k: nat :| AuthorizedAt(env, start, init, k, id, t);
      assert init[..k] == steps[..k];
      assert AuthorizedAt(env, start, steps, k, id, t);
    } else {
      assert AuthorizedAt(env, start, steps, n, id, t);
    }
  }

  lemma EnteringProvider(env: Env, s: State, step: Step, id: Id)
    requires Apply(env, s, step).Some? && !(id in s.pcs && s.pcs[id].Calling?)
    requires id in Apply(env, s, step).value.pcs && Apply(env, s, step).value.pcs[id].Calling?
    ensures Apply(env, s, step).value.pcs[id].checkedUnder == s.rules
    ensures id in s.pcs && s.pcs[id].Validated? && s.pcs[id].ticket == Apply(env, s, step).value.pcs[id].ticket
  {
    if step.Run? && step.id in s.pcs && step.id != id {
      RunLeavesOthers(env, s, step.id, id);
    }
  }

  lemma RunLeavesOthers(env: Env, s: State, id: Id, other: Id)
    requires RunRequest(env, s, id).Some? && other != id
    ensures other in RunRequest(env, s, id).value.pcs <==> other in s.pcs
    ensures other in s.pcs ==> RunRequest(env, s, id).value.pcs[other] == s.pcs[other]
  {
  }

  // ---------- A permitted request gets its answer ----------

  function Continue(env: Env, s: State, schedule: seq<Step>): Option<State>
    decreases |schedule|
  {
    if schedule == [] then Some(s)
    else
      match Apply(env, s, schedule[0])
      case None => None
      case Some(s') => Continue(env, s', schedule[1..])
  }

  /** The number of times a schedule runs the request. */
  function Turns(schedule: seq<Step>, id: Id): nat {
    if schedule == [] then 0 else (if schedule[0] == Run(id) then 1 else 0) + Turns(schedule[1..], id)
  }

  /** The turns between decoding and the provider. */
  function Ahead(pc: Pc): nat {
    if pc.Decoded? then 3 else if pc.Admitted? then 2 else if pc.Validated? then 1 else 0
  }

  /** At its own turn the request finds a permit, or finds its key permitted, whichever it needs. */
  ghost predicate TurnIsGood(env: Env, s: State, id: Id, selector: Selector) {
    id in s.pcs ==>
      && (s.pcs[id].Decoded? && env.limit.Some? ==> s.available > 0)
      && (s.pcs[id].Validated? ==> MayRead(s.rules, s.pcs[id].ticket.scope, selector.key))
  }

  ghost predicate TurnsAreGood(env: Env, s: State, schedule: seq<Step>, id: Id, selector: Selector)
    decreases |schedule|
  {
    schedule == [] || (
      && (schedule[0] == Run(id) ==> TurnIsGood(env, s, id, selector))
      && match Apply(env, s, schedule[0])
         case None => true
         case Some(s') => TurnsAreGood(env, s', schedule[1..], id, selector))
  }

  /** The client leaves, or the provider's answer arrives. */
  predicate Ends(step: Step, id: Id) {
    step == Disconnect(id) || (step.ProviderDone? && step.id == id)
  }

  predicate OnItsWay(pc: Pc, ticket: Ticket, ref: RemoteRef, selector: Selector) {
    || pc == Decoded(ticket, ref)
    || pc == Admitted(ticket, ref)
    || pc == Validated(ticket, ref, selector)
    || (pc.Calling? && pc.ticket == ticket && pc.ref == ref && pc.selector == selector)
  }

  lemma OthersLeaveAlone(env: Env, s: State, step: Step, id: Id)
    requires id in s.pcs && (s.pcs[id].Decoded? || s.pcs[id].PastAdmission()) && Apply(env, s, step).Some?
    requires step != Run(id) && !Ends(step, id)
    ensures id in Apply(env, s, step).value.pcs && Apply(env, s, step).value.pcs[id] == s.pcs[id]
  {
    if step.Run? {
      RunLeavesOthers(env, s, step.id, id);
    }
  }

  lemma OwnTurnAdvances(env: Env, s: State, id: Id, ticket: Ticket, ref: RemoteRef, selector: Selector)
    requires id in s.pcs && OnItsWay(s.pcs[id], ticket, ref, selector) && FromRemoteRef(ref) == Ok(selector)
    requires RunRequest(env, s, id).Some? && TurnIsGood(env, s, id, selector)
    ensures var s' := RunRequest(env, s, id).value;
            && id in s'.pcs && OnItsWay(s'.pcs[id], ticket, ref, selector)
            && Ahead(s'.pcs[id]) + 1 == Ahead(s.pcs[id])
  {
    PermittedExactly(s.rules, ticket.scope, selector.key);
  }

  lemma {:induction false} EveryTurnAdvances(
      env: Env, s: State, schedule: seq<Step>, id: Id, ticket: Ticket, ref: RemoteRef, selector: Selector)
    requires id in s.pcs && OnItsWay(s.pcs[id], ticket, ref, selector) && FromRemoteRef(ref) == Ok(selector)
    requires Continue(env, s, schedule).Some? && TurnsAreGood(env, s, schedule, id, selector)
    requires forall step | step in schedule :: !Ends(step, id)
    ensures var s' := Continue(env, s, schedule).value;
            && id in s'.pcs && OnItsWay(s'.pcs[id], ticket, ref, selector)
            && Ahead(s'.pcs[id]) + Turns(schedule, id) == Ahead(s.pcs[id])
    decreases |schedule|
  {
    if schedule != [] {
      var s1 := Apply(env, s, schedule[0]).value;
      assert schedule[0] in schedule;
      if schedule[0] == Run(id) {
        OwnTurnAdvances(env, s, id, ticket, ref, selector);
      } else {
        OthersLeaveAlone(env, s, schedule[0], id);
      }
      EveryTurnAdvances(env, s1, schedule[1..], id, ticket, ref, selector);
    }
  }

  /**
   * Under any schedule of other requests, reloads and disconnects, a decoded request with a valid
   * selector that finds a permit at its first turn and its key permitted at its third is at the
   * provider after its third turn, unless its client left; its metric and answer are then those
   * of the provider's result.
   */
  lemma AdmittedRequestIsAnswered(
      env: Env, s: State, schedule: seq<Step>, id: Id, selector: Selector, answer: Answer)
    returns (calling: State, finishing: State)
    requires id in s.pcs && s.pcs[id].Decoded? && FromRemoteRef(s.pcs[id].ref) == Ok(selector)
    requires Continue(env, s, schedule).Some? && TurnsAreGood(env, s, schedule, id, selector)
    requires Turns(schedule, id) == 3 && forall step | step in schedule :: !Ends(step, id)
    ensures Continue(env, s, schedule) == Some(calling)
    ensures id in calling.pcs && calling.pcs[id].Calling? && calling.pcs[id].selector == selector
    ensures Apply(env, calling, ProviderDone(id, answer)) == Some(finishing)
    ensures id in finishing.pcs
    ensures finishing.pcs[id] ==
            Finishing(if answer.Ok? then StatusKind(200, NoError) else ProviderStatusAndKind(answer.error))
  {
    EveryTurnAdvances(env, s, schedule, id, s.pcs[id].ticket, s.pcs[id].ref, selector);
    calling := Continue(env, s, schedule).value;
    finishing := Finish(calling, id, StatusOf(answer));
  }

  // ---------- Which answer, when ----------

  /** The status and label of an error, if it is one. */
  function ErrorAnswer<T>(r: Result<T, ClientError>): Option<(nat, ErrorKind)> {
    match r
    case Ok(_) => None
    case Err(e) => Some((ProviderStatusAndKind(e).status, ProviderStatusAndKind(e).kind))
  }

  /** How each step of a request answers it, in status codes; `None` where it goes on. */
  ghost predicate AnsweredAs(s': State, id: Id, status: Option<(nat, ErrorKind)>) {
    id in s'.pcs
    && match status
       case None => !s'.pcs[id].Finishing?
       case Some((code, kind)) => s'.pcs[id] == Finishing(StatusKind(code, kind))
  }

  /**
   * An arriving request is answered 401 exactly when it is not authorized, a decoded one 503
   * exactly when a limit is set and no permit is left, an admitted one with the validation error
   * of its reference exactly when there is one, and a validated one 403 exactly when the global
   * rules or its scope do not grant its key.
   */
  lemma RefusalsExactly(env: Env, s: State, id: Id)
    requires id in s.pcs
    ensures s.pcs[id].Arrived? ==>
              AnsweredAs(RunRequest(env, s, id).value, id,
                         if Authorize(env.digest, s.auth, s.pcs[id].values).None? then Some((401, Auth)) else None)
    ensures s.pcs[id].Decoded? ==>
              AnsweredAs(RunRequest(env, s, id).value, id,
                         if env.limit.Some? && s.available == 0 then Some((503, Overloaded)) else None)
    ensures s.pcs[id].Admitted? ==>
              AnsweredAs(RunRequest(env, s, id).value, id, ErrorAnswer(FromRemoteRef(s.pcs[id].ref)))
    ensures s.pcs[id].Validated? ==>
              AnsweredAs(RunRequest(env, s, id).value, id,
                         if MayRead(s.rules, s.pcs[id].ticket.scope, s.pcs[id].selector.key) then None
                         else Some((403, PolicyDenied)))
  {
    if s.pcs[id].Validated? {
      PermittedExactly(s.rules, s.pcs[id].ticket.scope, s.pcs[id].selector.key);
    }
  }

  /** A body that cannot be used is answered by what is wrong with it, a document of the provider with 200. */
  lemma OutcomesExactly(env: Env, s: State, id: Id, body: BodyRead, answer: Answer)
    requires id in s.pcs
    ensures s.pcs[id].ReadingBody? ==>
              AnsweredAs(Apply(env, s, BodyDone(id, body)).value, id,
                         match body
                         case BodyOk(_) => None
                         case UnsupportedMediaType => Some((415, InvalidRequest))
                         case BodyTooLarge => Some((413, InvalidRequest))
                         case BodyMalformed => Some((400, InvalidRequest))
                         case BodyTimeout => Some((408, RequestTimeout)))
    ensures s.pcs[id].Calling? ==>
              AnsweredAs(Apply(env, s, ProviderDone(id, answer)).value, id,
                         if answer.Ok? then Some((200, NoError)) else ErrorAnswer(answer))
  {
  }

  // ---------- The handler itself ----------

  /** The state the handler updates in place. */
  class Handler {
    const limit: Option<nat>
    const digest: string -> Digest
    var rules: Rules
    var auth: AuthMode
    var available: nat
    var recorded: map<StatusKind, nat>

    constructor (configured: nat, digest: string -> Digest, rules: Rules, auth: AuthMode)
      ensures this.limit == LimitOf(configured) && this.digest == digest && this.rules == rules && this.auth == auth
      ensures recorded == map[] && (limit.None? <==> configured == 0)
      ensures limit.Some? ==> available == limit.value == configured
    {
      this.limit, this.digest, this.rules, this.auth := LimitOf(configured), digest, rules, auth;
      available := configured;
      recorded := map[];
    }

    method RecordResolveRequest(k: StatusKind)
      modifies this`recorded
      ensures recorded == old(recorded)[k := CountOf(old(recorded), k) + 1]
    {
      recorded := recorded[k := (if k in recorded then recorded[k] else 0) + 1];
    }

    method TryAcquire() returns (acquired: bool)
      modifies this`available
      ensures acquired <==> limit.None? || old(available) > 0
      ensures available == if limit.Some? && acquired then old(available) - 1 else old(available)
    {
      if limit.None? {
        return true;
      }
      if available == 0 {
        return false;
      }
      available := available - 1;
      return true;
    }

    method DropPermit()
      modifies this`available
      ensures available == if limit.Some? then old(available) + 1 else old(available)
    {
      if limit.Some? {
        available := available + 1;
      }
    }

    /** The part of `resolve` that runs under a permit. */
    method ResolveAdmitted(scope: Scope, ref: RemoteRef, provider: Selector -> Answer)
      returns (k: StatusKind, called: Option<Selector>)
      ensures match FromRemoteRef(ref)
              case Err(e) => k == ProviderStatusAndKind(e) && called.None?
              case Ok(selector) =>
                if MayRead(rules, scope, selector.key)
                then k == StatusOf(provider(selector)) && called == Some(selector)
                else k == FORBIDDEN && called.None?
    {
      var selector := FromRemoteRef(ref);
      if selector.Err? {
        return ProviderStatusAndKind(selector.error), None;
      }
      PermittedExactly(rules, scope, selector.value.key);
      if !Allows(rules, selector.value.key) || !ScopeAllows(scope, selector.value.key) {
        return FORBIDDEN, None;
      }
      return StatusOf(provider(selector.value)), Some(selector.value);
    }

    /**
     * `resolve` run without interruption. The body and the provider are the environment;
     * `called` is the selector the provider was asked for, if it was.
     */
    method Resolve(values: seq<string>, body: BodyRead, provider: Selector -> Answer)
      returns (k: StatusKind, called: Option<Selector>)
      modifies this
      ensures rules == old(rules) && auth == old(auth) && available == old(available)
      ensures recorded == old(recorded)[k := CountOf(old(recorded), k) + 1]
      ensures var scope := Authorize(digest, auth, values);
              && (scope.None? ==> k == UNAUTHORIZED && called.None?)
              && (scope.Some? && !body.BodyOk? ==> k == BodyStatus(body) && called.None?)
              && (scope.Some? && body.BodyOk? && limit.Some? && available == 0 ==> k == OVERLOADED && called.None?)
              && (scope.Some? && body.BodyOk? && (limit.None? || available > 0) ==>
                    match FromRemoteRef(body.ref)
                    case Err(e) => k == ProviderStatusAndKind(e) && called.None?
                    case Ok(selector) =>
                      if MayRead(rules, scope.value, selector.key)
                      then k == StatusOf(provider(selector)) && called == Some(selector)
                      else k == FORBIDDEN && called.None?)
    {
      called := None;
      var scope := Authorize(digest, auth, values);
      if scope.None? {
        k := UNAUTHORIZED;
        RecordResolveRequest(k);
        return;
      }
      if !body.BodyOk? {
        k := BodyStatus(body);
        RecordResolveRequest(k);
        return;
      }
      var acquired := TryAcquire();
      if !acquired {
        k := OVERLOADED;
        RecordResolveRequest(k);
        return;
      }
      k, called := ResolveAdmitted(scope.value, body.ref, provider);
      RecordResolveRequest(k);
      DropPermit();
    }
  }
}
