// The shutdown broadcast: a flag store followed by `notify_waiters`, against any number of
// waiters that register, check the flag and only then park.

module Lifecycle {
  import opened Prelude

  type Id = nat

  /** The atomic flag, and the state of the notifier: its broadcast count and registered waiters. */
  datatype Signal = Signal(flag: bool, broadcasts: nat, waiting: set<Id>)

  const QUIET := Signal(false, 0, {})

  function StoreFlag(s: Signal): Signal {
    s.(flag := true)
  }

  function NotifyWaiters(s: Signal): Signal {
    s.(broadcasts := s.broadcasts + 1, waiting := {})
  }

  /** Enabling a future created at broadcast count `created`: a broadcast since then counts. */
  function Enable(s: Signal, w: Id, created: nat): Signal {
    if s.broadcasts == created then s.(waiting := s.waiting + {w}) else s
  }

  function Forget(s: Signal, w: Id): Signal {
    s.(waiting := s.waiting - {w})
  }

  /** The shared object, whose two fields every clone points to. */
  class Lifecycle {
    var shuttingDown: bool
    var broadcasts: nat
    var waiting: set<Id>

    ghost function State(): Signal
      reads this
    {
      Signal(shuttingDown, broadcasts, waiting)
    }

    constructor ()
      ensures State() == QUIET
    {
      shuttingDown, broadcasts, waiting := false, 0, {};
    }

    method MarkShuttingDown()
      modifies this
      ensures State() == NotifyWaiters(StoreFlag(old(State())))
    {
      shuttingDown := true;
      broadcasts, waiting := broadcasts + 1, {};
    }

    method IsReady() returns (ready: bool)
      ensures ready == !State().flag
    {
      ready := !shuttingDown;
    }

    /** `shutdown_requested` up to its only await; `parked` says whether it gets there. */
    method ShutdownRequested(w: Id) returns (parked: bool)
      modifies this`waiting
      ensures State() == Enable(old(State()), w, old(State()).broadcasts)
      ensures parked == !State().flag
    {
      waiting := waiting + {w};
      var ready := IsReady();
      parked := ready;
    }
  }

  // ---------- Interleavings ----------

  /** A call of `mark_shutting_down`. */
  datatype Marker = Begun | Stored | Finished

  /** A call of `shutdown_requested`. */
  datatype Waiter =
    | Created(at: nat)   // the future exists; broadcasts so far
    | Enabled
    | Parked
    | Returned
    | Dropped

  datatype State = State(signal: Signal, markers: map<Id, Marker>, waiters: map<Id, Waiter>)

  const INITIAL := State(QUIET, map[], map[])

  datatype Step =
    | BeginMark(m: Id)
    | RunMark(m: Id)
    | BeginWait(w: Id)
    | RunWait(w: Id)
    | DropWait(w: Id)

  function RunMarker(s: State, m: Id): Option<State> {
    if m !in s.markers then None
    else
      match s.markers[m]
      case Begun => Some(s.(signal := StoreFlag(s.signal), markers := s.markers[m := Stored]))
      case Stored => Some(s.(signal := NotifyWaiters(s.signal), markers := s.markers[m := Finished]))
      case Finished => None
  }

  function RunWaiter(s: State, w: Id): Option<State> {
    if w !in s.waiters then None
    else
      match s.waiters[w]
      case Created(at) => Some(s.(signal := Enable(s.signal, w, at), waiters := s.waiters[w := Enabled]))
      case Enabled =>
        if s.signal.flag then Some(s.(signal := Forget(s.signal, w), waiters := s.waiters[w := Returned]))
        else Some(s.(waiters := s.waiters[w := Parked]))
      case Parked => if w in s.signal.waiting then None else Some(s.(waiters := s.waiters[w := Returned]))
      case _ => None
  }

  function Apply(s: State, step: Step): Option<State> {
    match step
    case BeginMark(m) => if m in s.markers then None else Some(s.(markers := s.markers[m := Begun]))
    case RunMark(m) => RunMarker(s, m)
    case BeginWait(w) =>
      if w in s.waiters then None else Some(s.(waiters := s.waiters[w := Created(s.signal.broadcasts)]))
    case RunWait(w) => RunWaiter(s, w)
    case DropWait(w) =>
      if w in s.waiters && s.waiters[w].Parked? then
        Some(s.(signal := Forget(s.signal, w), waiters := s.waiters[w := Dropped]))
      else None
  }

  function Execute(steps: seq<Step>): Option<State> {
    if steps == [] then Some(INITIAL)
    else
      match Execute(steps[..|steps| - 1])
      case None => None
      case Some(s) => Apply(s, steps[|steps| - 1])
  }

  predicate Inv(s: State) {
    && (forall m | m in s.markers :: !s.markers[m].Begun? ==> s.signal.flag)
    && (s.signal.broadcasts > 0 ==> s.signal.flag)
    && (forall w | w in s.signal.waiting :: w in s.waiters && (s.waiters[w].Enabled? || s.waiters[w].Parked?))
    && (forall w | w in s.waiters ::
          && (s.waiters[w].Created? ==> s.waiters[w].at <= s.signal.broadcasts)
          && (s.waiters[w].Returned? ==> s.signal.flag)
          && ((s.waiters[w].Enabled? || s.waiters[w].Parked?) && w !in s.signal.waiting ==> s.signal.flag)
          && (s.waiters[w].Parked? && w in s.signal.waiting ==>
                forall m | m in s.markers :: !s.markers[m].Finished?))
  }

  lemma StepKeeps(s: State, step: Step)
    requires Inv(s) && Apply(s, step).Some?
    ensures Inv(Apply(s, step).value)
  {
  }

  lemma {:induction false} Reachable(steps: seq<Step>)
    requires Execute(steps).Some?
    ensures Inv(Execute(steps).value)
  {
    if steps != [] {
      Reachable(steps[..|steps| - 1]);
      StepKeeps(Execute(steps[..|steps| - 1]).value, steps[|steps| - 1]);
    }
  }

  /**
   * No wake-up is lost and none is invented: once any shutdown mark has finished, no parked
   * waiter is still waiting to be notified; and no waiter has returned unless the flag is set.
   */
  lemma NoLostWakeup(steps: seq<Step>, m: Id, w: Id)
    requires Execute(steps).Some? && w in Execute(steps).value.waiters
    ensures var s := Execute(steps).value;
            && (s.waiters[w].Returned? ==> s.signal.flag)
            && (m in s.markers && s.markers[m].Finished? && s.waiters[w].Parked? ==> w !in s.signal.waiting)
  {
    Reachable(steps);
  }

  /** How many of its own steps a waiter still has ahead of it. */
  function Remaining(w: Waiter): nat {
    match w
    case Created(_) => 3
    case Enabled => 2
    case Parked => 1
    case _ => 0
  }

  predicate Unfinished(s: State, w: Id) {
    w in s.waiters && !s.waiters[w].Returned? && !s.waiters[w].Dropped?
  }

  predicate Marked(s: State) {
    exists m | m in s.markers :: s.markers[m].Finished?
  }

  lemma OwnStepAdvances(s: State, w: Id)
    requires Inv(s) && Marked(s) && Unfinished(s, w)
    ensures RunWaiter(s, w).Some?
    ensures var s' := RunWaiter(s, w).value;
            w in s'.waiters && Remaining(s'.waiters[w]) < Remaining(s.waiters[w]) && !s'.waiters[w].Dropped?
            && Marked(s')
  {
    var m :| m in s.markers && s.markers[m].Finished?;
    assert RunWaiter(s, w).value.markers[m].Finished?;
  }

  lemma OthersLeaveAlone(s: State, step: Step, w: Id)
    requires w in s.waiters && Apply(s, step).Some?
    requires step != RunWait(w) && step != DropWait(w)
    ensures w in Apply(s, step).value.waiters && Apply(s, step).value.waiters[w] == s.waiters[w]
    ensures Marked(s) ==> Marked(Apply(s, step).value)
  {
    var s' := Apply(s, step).value;
    if Marked(s) {
      var m :| m in s.markers && s.markers[m].Finished?;
      assert s'.markers[m].Finished?;
    }
  }

  /** The number of times a schedule runs the waiter. */
  function Turns(schedule: seq<Step>, w: Id): nat {
    if schedule == [] then 0 else (if schedule[0] == RunWait(w) then 1 else 0) + Turns(schedule[1..], w)
  }

  function Continue(s: State, schedule: seq<Step>): Option<State>
    decreases |schedule|
  {
    if schedule == [] then Some(s)
    else
      match Apply(s, schedule[0])
      case None => None
      case Some(s') => Continue(s', schedule[1..])
  }

  /**
   * Prompt wake-up: after a finished shutdown mark, under any further interleaving that does
   * not drop the waiter, every turn it gets takes it forward, and after as many turns as it has
   * steps left it has returned.
   */
  lemma {:induction false} ReturnsWhenScheduled(s: State, schedule: seq<Step>, w: Id)
    requires Inv(s) && Marked(s) && w in s.waiters && !s.waiters[w].Dropped?
    requires Continue(s, schedule).Some? && DropWait(w) !in schedule
    ensures var s' := Continue(s, schedule).value;
            w in s'.waiters && !s'.waiters[w].Dropped?
            && Remaining(s'.waiters[w]) + Turns(schedule, w) <= Remaining(s.waiters[w])
    ensures Turns(schedule, w) == Remaining(s.waiters[w]) ==> Continue(s, schedule).value.waiters[w].Returned?
    decreases |schedule|
  {
    if schedule != [] {
      var s1 := Apply(s, schedule[0]).value;
      StepKeeps(s, schedule[0]);
      assert schedule[0] in schedule;
      if schedule[0] == RunWait(w) {
        OwnStepAdvances(s, w);
      } else {
        OthersLeaveAlone(s, schedule[0], w);
      }
      ReturnsWhenScheduled(s1, schedule[1..], w);
    }
  }

  /** A waiter that never dropped is never blocked once a mark has finished. */
  lemma NeverBlockedAfterMark(steps: seq<Step>, w: Id)
    requires Execute(steps).Some? && Marked(Execute(steps).value) && Unfinished(Execute(steps).value, w)
    ensures RunWaiter(Execute(steps).value, w).Some?
  {
    Reachable(steps);
    OwnStepAdvances(Execute(steps).value, w);
  }
}
