/** The cooperative semaphore around child processes: the `_active` counter of
    backend/core/regex_isolated.py and backend/core/textfsm_isolated.py. Tasks are switched
    only at awaits, so what runs between two awaits is one step. */
module JobSlots {

  /** How a call ends: answered "busy", cancelled while it slept, or left the protected
      block, by a result, an exception or a cancellation. */
  datatype End = Busy | CancelledWaiting | Left

  datatype Phase = Sleeping | Holding | Ended(end: End)

  /** `acquired` and `released` record every slot ever taken and given back. */
  datatype State = State(active: int, tasks: map<nat, Phase>, acquired: multiset<nat>, released: multiset<nat>)

  datatype Action =
    | Poll(task: nat, late: bool)   // first or repeated test of the counter; late: past the deadline
    | CancelSleep(task: nat)
    | Leave(task: nat)

  predicate Enabled(s: State, a: Action) {
    match a
    case Poll(t, _) => t !in s.tasks || s.tasks[t] == Sleeping
    case CancelSleep(t) => t in s.tasks && s.tasks[t] == Sleeping
    case Leave(t) => t in s.tasks && s.tasks[t] == Holding
  }

  function Apply(s: State, a: Action, limit: nat): State
    requires Enabled(s, a)
  {
    match a
    case Poll(t, late) =>
      if s.active >= limit then s.(tasks := s.tasks[t := if late then Ended(Busy) else Sleeping])
      else s.(active := s.active + 1, tasks := s.tasks[t := Holding], acquired := s.acquired + multiset{t})
    case CancelSleep(t) => s.(tasks := s.tasks[t := Ended(CancelledWaiting)])
    case Leave(t) =>
      s.(active := s.active - 1, tasks := s.tasks[t := Ended(Left)], released := s.released + multiset{t})
  }

  const INITIAL := State(0, map[], multiset{}, multiset{})

  /** The tasks between acquire and release. */
  function Holders(s: State): set<nat> {
    set t | t in s.tasks && s.tasks[t] == Holding
  }

  /** A slot is taken at most once per task and given back at most once, after it was taken. */
  ghost predicate SlotsBalance(s: State) {
    forall t :: s.acquired[t] == (if t in s.tasks && s.tasks[t] in {Holding, Ended(Left)} then 1 else 0)
                && s.released[t] == (if t in s.tasks && s.tasks[t] == Ended(Left) then 1 else 0)
  }

  ghost predicate Inv(s: State, limit: nat) {
    s.active == |Holders(s)| <= limit && SlotsBalance(s)
  }

  lemma StepKeepsBalance(s: State, a: Action, limit: nat)
    requires SlotsBalance(s) && Enabled(s, a)
    ensures SlotsBalance(Apply(s, a, limit))
  {
    match a
    case Poll(_, _) =>
    case CancelSleep(_) =>
    case Leave(_) =>
  }

  lemma StepMovesHolders(s: State, a: Action, limit: nat)
    requires Enabled(s, a)
    ensures Holders(Apply(s, a, limit))
            == match a
               case Poll(t, _) => if s.active >= limit then Holders(s) else Holders(s) + {t}
               case CancelSleep(_) => Holders(s)
               case Leave(t) => Holders(s) - {t}
  {
  }

  lemma StepKeepsInv(s: State, a: Action, limit: nat)
    requires Inv(s, limit) && Enabled(s, a)
    ensures Inv(Apply(s, a, limit), limit)
  {
    StepKeepsBalance(s, a, limit);
    StepMovesHolders(s, a, limit);
    if a.Poll? {
      assert a.task !in Holders(s);
    } else if a.Leave? {
      assert a.task in Holders(s);
    }
  }

  ghost predicate IsRun(states: seq<State>, actions: seq<Action>, limit: nat) {
    && |states| == |actions| + 1 && states[0] == INITIAL
    && forall i | 0 <= i < |actions| ::
         Enabled(states[i], actions[i]) && states[i + 1] == Apply(states[i], actions[i], limit)
  }

  /** In every schedule the counter is the number of tasks that hold a slot, never above the
      limit, and every slot taken is given back exactly once. */
  lemma {:induction false} CounterIsExact(states: seq<State>, actions: seq<Action>, limit: nat, i: nat)
    requires IsRun(states, actions, limit) && i < |states|
    ensures Inv(states[i], limit)
  {
    if i == 0 {
      assert Holders(INITIAL) == {};
    } else {
      CounterIsExact(states, actions, limit, i - 1);
      StepKeepsInv(states[i - 1], actions[i - 1], limit);
    }
  }

  /** A task is told "busy" only while exactly `limit` other tasks hold a slot, and being
      told so changes nothing but that task. */
  lemma BusyOnlyWhenFull(states: seq<State>, actions: seq<Action>, limit: nat, i: nat)
    requires IsRun(states, actions, limit) && i < |actions|
    requires actions[i].Poll? && states[i + 1].tasks[actions[i].task] == Ended(Busy)
    ensures |Holders(states[i])| == limit && Holders(states[i + 1]) == Holders(states[i])
    ensures states[i + 1].active == states[i].active && actions[i].late
  {
    CounterIsExact(states, actions, limit, i);
    CounterIsExact(states, actions, limit, i + 1);
  }

  /** What one test of the counter decides: a free slot is taken at once; otherwise the task
      sleeps on until its deadline has passed. */
  lemma PollDecides(s: State, t: nat, late: bool, limit: nat)
    requires Enabled(s, Poll(t, late))
    ensures var s' := Apply(s, Poll(t, late), limit);
            && t in s'.tasks
            && s'.tasks[t] == (if s.active < limit then Holding else if late then Ended(Busy) else Sleeping)
            && s'.active == (if s.active < limit then s.active + 1 else s.active)
            && (forall u | u != t :: u in s'.tasks <==> u in s.tasks)
            && (forall u | u != t && u in s.tasks :: s'.tasks[u] == s.tasks[u])
  {
  }

  /** When every task has ended the counter is back at zero. */
  lemma AllEndedMeansZero(states: seq<State>, actions: seq<Action>, limit: nat, i: nat)
    requires IsRun(states, actions, limit) && i < |states|
    requires forall t | t in states[i].tasks :: states[i].tasks[t].Ended?
    ensures states[i].active == 0 && states[i].acquired == states[i].released
  {
    CounterIsExact(states, actions, limit, i);
    assert Holders(states[i]) == {};
    var s := states[i];
    forall t
      ensures s.acquired[t] == s.released[t]
    {
      assert t in s.tasks ==> s.tasks[t].Ended?;
    }
  }

  // ----- The code between two awaits -----

  datatype Decision = Sleep | AnswerBusy | Acquired

  /** The decision as a phase of the task. */
  function PhaseOf(d: Decision): Phase {
    match d
    case Sleep => Sleeping
    case AnswerBusy => Ended(Busy)
    case Acquired => Holding
  }

  class Slots {
    const limit: nat
    var active: nat

    constructor (limit: nat)
      ensures this.limit == limit && active == 0
    {
      this.limit, active := limit, 0;
    }

    /** One turn of the waiting loop, up to the next await. */
    method TryAcquire(late: bool) returns (d: Decision)
      requires active <= limit
      modifies this
      ensures active <= limit
      ensures d == Acquired <==> old(active) < limit
      ensures d == AnswerBusy <==> old(active) == limit && late
      ensures active == if d == Acquired then old(active) + 1 else old(active)
      ensures forall s: State, t: nat | s.active == old(active) && Enabled(s, Poll(t, late)) ::
                var s' := Apply(s, Poll(t, late), limit);
                s'.active == active && t in s'.tasks && s'.tasks[t] == PhaseOf(d)
    {
      if active >= limit {
        if late {
          return AnswerBusy;
        }
        return Sleep;
      }
      active := active + 1;
      return Acquired;
    }

    /** The `finally` block. */
    method Release()
      requires 0 < active
      modifies this
      ensures active == old(active) - 1
      ensures forall s: State, t: nat, limit: nat | s.active == old(active) && Enabled(s, Leave(t)) ::
                Apply(s, Leave(t), limit).active == active
    {
      active := active - 1;
    }
  }
}
