/** The capped run event log and its two readers
    (backend/repositories/run_event_repository.py). */
module EventLog {
  import opened Common
  import opened Text

  const MAX_MESSAGE_LENGTH: nat := 1000
  const TRUNCATED_KIND := "truncated"

  /** What a caller reports. */
  datatype Event = Event(
    node: string, kind: string, message: string, level: string, device: Option<string>, child: Option<nat>)

  datatype Row = Row(id: nat, run: nat, event: Event)

  /** The table in id order. */
  type Log = seq<Row>

  /** Ids are positive and grow. */
  ghost predicate Ordered(log: Log) {
    && (forall i | 0 <= i < |log| :: log[i].id > 0)
    && (forall i, j | 0 <= i < j < |log| :: log[i].id < log[j].id)
  }

  function OfRun(log: Log, run: nat): Log {
    if log == [] then []
    else OfRun(log[..|log| - 1], run) + if log[|log| - 1].run == run then [log[|log| - 1]] else []
  }

  /** A long message keeps its beginning; nothing else changes. */
  function Cut(e: Event): (r: Event)
    ensures r.message <= e.message && |r.message| == Min(|e.message|, 1000)
    ensures r == e.(message := r.message)
  {
    if |e.message| <= MAX_MESSAGE_LENGTH then e else e.(message := e.message[..MAX_MESSAGE_LENGTH])
  }

  /** The row stored instead of the event that hits the cap. */
  function Marker(e: Event, cap: nat): Event {
    Cut(Event(e.node, TRUNCATED_KIND,
              "Event log truncated after " + Decimal(cap) + " events; later events are dropped.",
              "warning", None, None))
  }

  /** The marker is of its own kind, a warning, about the step but no device. */
  lemma MarkerIs(e: Event, cap: nat)
    ensures var m := Marker(e, cap);
            && m.kind == "truncated" && m.level == "warning" && m.node == e.node
            && m.device == None && m.child == None
            && m.message <= "Event log truncated after " + Decimal(cap) + " events; later events are dropped."
  {
  }

  // ----- Writing -----

  /** `add_event` once it has counted `count` rows of the run. */
  function Added(log: Log, nextId: nat, run: nat, e: Event, count: nat, cap: nat): Log {
    if count > cap then log
    else log + [Row(nextId, run, if count == cap then Marker(e, cap) else Cut(e))]
  }

  class RunEventRepository {
    var log: Log
    var nextId: nat

    ghost predicate Valid()
      reads this
    {
      Ordered(log) && nextId > 0 && forall i | 0 <= i < |log| :: log[i].id < nextId
    }

    constructor ()
      ensures Valid() && log == []
    {
      log, nextId := [], 1;
    }

    method AddEvent(run: nat, event: Event, cap: nat)
      requires Valid()
      modifies this
      ensures Valid()
      ensures log == Added(old(log), old(nextId), run, event, |OfRun(old(log), run)|, cap)
      ensures var count := |OfRun(old(log), run)|;
              if count > cap then log == old(log)
              else && |log| == |old(log)| + 1 && old(log) <= log
                   && var row := log[|log| - 1];
                      && row.id == old(nextId) && row.run == run && row.event.node == event.node
                      && (if count == cap then row.event.kind == "truncated" && row.event.level == "warning"
                          else row.event.(message := event.message) == event && row.event.message <= event.message)
    {
      var count := |OfRun(log, run)|;
      if count > cap {
        return;
      }
      var e := event;
      if count == cap {
        e := e.(kind := TRUNCATED_KIND, level := "warning");
        e := e.(message := "Event log truncated after " + Decimal(cap) + " events; later events are dropped.");
        e := e.(device := None, child := None);
      }
      log := log + [Row(nextId, run, Cut(e))];
      nextId := nextId + 1;
    }

    /** `list_events`: the first `limit` of the run's rows that follow the cursor. */
    method ListEvents(run: nat, afterId: nat, limit: nat) returns (page: Log)
      requires Valid()
      ensures exists k | 0 <= k <= |OfRun(log, run)| ::
                && SplitsAt(OfRun(log, run), afterId, k)
                && page == OfRun(log, run)[k..Min(k + limit, |OfRun(log, run)|)]
    {
      var rows := After(OfRun(log, run), afterId);
      page := if |rows| <= limit then rows else rows[..limit];
      OfRunOrdered(log, run);
      var k := SplitPoint(OfRun(log, run), afterId);
      RestAfter(OfRun(log, run), afterId, k);
      PageAt(log, run, afterId, limit, k);
    }

    /** `list_latest_events`: newest first with a limit, then reversed. */
    method ListLatestEvents(run: nat, limit: nat, node: Option<string>) returns (tail: Log)
      requires Valid()
      ensures IsTail(log, run, node, limit, tail)
      ensures tail == Last(OfNode(OfRun(log, run), node), limit)
    {
      var rows := OfNode(OfRun(log, run), node);
      var newestFirst := Reversed(rows);
      var some := if |newestFirst| <= limit then newestFirst else newestFirst[..limit];
      tail := Reversed(some);
      LastRows(rows, limit);
      TailIs(log, run, node, limit);
    }
  }

  function Last(rows: Log, limit: nat): Log {
    if |rows| <= limit then rows else rows[|rows| - limit..]
  }

  /** The newest rows of the run, or of one of its steps, up to the limit, oldest first. */
  ghost predicate IsTail(log: Log, run: nat, node: Option<string>, limit: nat, tail: Log) {
    && Ordered(tail) && |tail| <= limit
    && (forall r | r in tail :: r in log && r.run == run && (node.Some? ==> r.event.node == node.value))
    && (forall r | r in log && r.run == run && (node.Some? ==> r.event.node == node.value) && r !in tail ::
          |tail| == limit && forall q | q in tail :: r.id < q.id)
  }

  // ----- What the cap guarantees -----

  /** A call between its count and its insert. */
  datatype Caller = Caller(run: nat, event: Event, count: nat)

  /** The log, the calls that have counted and not inserted, the events whose calls ended, and
      the ids of the rows that the cap put in place of an event. */
  datatype State = State(log: Log, nextId: nat, callers: map<nat, Caller>, ended: seq<Caller>, markers: set<nat>)

  /** Counting and inserting are two statements; any calls may come in between. */
  datatype Action =
    | Count(caller: nat, run: nat, event: Event)
    | Insert(caller: nat)

  predicate Enabled(s: State, a: Action) {
    match a
    case Count(c, _, _) => c !in s.callers
    case Insert(c) => c in s.callers
  }

  function Apply(s: State, a: Action, cap: nat): State
    requires Enabled(s, a)
  {
    match a
    case Count(c, run, event) => s.(callers := s.callers[c := Caller(run, event, |OfRun(s.log, run)|)])
    case Insert(c) =>
      var x := s.callers[c];
      State(Added(s.log, s.nextId, x.run, x.event, x.count, cap), s.nextId + 1, s.callers - {c}, s.ended + [x],
            if x.count == cap then s.markers + {s.nextId} else s.markers)
  }

  const START := State([], 1, map[], [], {})

  ghost predicate IsRun(states: seq<State>, actions: seq<Action>, cap: nat) {
    && |states| == |actions| + 1 && states[0] == START
    && forall i | 0 <= i < |actions| ::
         Enabled(states[i], actions[i]) && states[i + 1] == Apply(states[i], actions[i], cap)
  }

  /** The calls of a run between count and insert. */
  function Open(s: State, run: nat): set<nat> {
    set c | c in s.callers && s.callers[c].run == run
  }

  /** Of those, the ones that will store a row. */
  function Storing(s: State, run: nat, cap: nat): set<nat> {
    set c | c in s.callers && s.callers[c].run == run && s.callers[c].count <= cap
  }

  /** At most `m` calls of the run overlap. */
  ghost predicate Overlap(states: seq<State>, run: nat, m: nat) {
    forall i | 0 <= i < |states| :: |Open(states[i], run)| <= m
  }

  /** The cap's rows of a run. */
  function Markers(s: State, run: nat): set<nat> {
    set i | i in s.markers && exists k | 0 <= k < |OfRun(s.log, run)| :: OfRun(s.log, run)[k].id == i
  }

  lemma OfRunAppend(log: Log, row: Row, run: nat)
    ensures OfRun(log + [row], run) == OfRun(log, run) + if row.run == run then [row] else []
  {
    assert (log + [row])[..|log|] == log;
  }

  /** The row a call stores, if it stores one. */
  lemma AddedRows(s: State, x: Caller, cap: nat, run: nat)
    ensures OfRun(Added(s.log, s.nextId, x.run, x.event, x.count, cap), run)
            == OfRun(s.log, run) + if x.run == run && x.count <= cap then [StoredRow(s, x, cap)] else []
  {
    if x.count <= cap {
      OfRunAppend(s.log, StoredRow(s, x, cap), run);
    }
  }

  function StoredRow(s: State, x: Caller, cap: nat): Row {
    Row(s.nextId, x.run, if x.count == cap then Marker(x.event, cap) else Cut(x.event))
  }

  function Min(a: nat, b: nat): nat {
    if a < b then a else b
  }

  function EventsOf(ended: seq<Caller>, run: nat): seq<Event> {
    if ended == [] then []
    else
      var last := ended[|ended| - 1];
      EventsOf(ended[..|ended| - 1], run) + if last.run == run then [last.event] else []
  }

  /** The rows of a run hold the first `cap` events, cut, and, if more were reported, one
      marker in place of the next; nothing else. */
  ghost predicate Capped(rows: Log, events: seq<Event>, cap: nat) {
    && |rows| == Min(|events|, cap + 1)
    && (forall k | 0 <= k < |rows| && k < cap :: rows[k].event == Cut(events[k]))
    && (|rows| == cap + 1 ==> rows[cap].event == Marker(events[cap], cap))
  }

  lemma CappedStep(rows: Log, events: seq<Event>, cap: nat, e: Event, row: Row)
    requires Capped(rows, events, cap)
    ensures |rows| > cap ==> Capped(rows, events + [e], cap)
    ensures |rows| <= cap && row.event == (if |rows| == cap then Marker(e, cap) else Cut(e)) ==>
              Capped(rows + [row], events + [e], cap)
  {
  }

  // ----- Any number of overlapping calls -----

  /** Rows in id order, with ids below `nextId`; the first `cap` are events, never markers. */
  ghost predicate RowsSound(rows: Log, nextId: nat, markers: set<nat>, cap: nat) {
    && (forall k | 0 <= k < |rows| :: rows[k].id < nextId)
    && (forall i, j | 0 <= i < j < |rows| :: rows[i].id < rows[j].id)
    && (forall k | 0 <= k < |rows| && k < cap :: rows[k].id !in markers)
  }

  /** And nothing has counted rows that are not there. */
  ghost predicate Sound(s: State, run: nat, cap: nat) {
    && RowsSound(OfRun(s.log, run), s.nextId, s.markers, cap)
    && (forall i | i in s.markers :: i < s.nextId)
    && (forall c | c in s.callers && s.callers[c].run == run :: s.callers[c].count <= |OfRun(s.log, run)|)
  }

  lemma RowsStaySound(rows: Log, nextId: nat, markers: set<nat>, cap: nat, row: Row)
    requires RowsSound(rows, nextId, markers, cap) && row.id == nextId
    ensures RowsSound(rows, nextId + 1, markers, cap) && RowsSound(rows, nextId + 1, markers + {nextId}, cap)
    ensures nextId !in markers ==> RowsSound(rows + [row], nextId + 1, markers, cap)
    ensures |rows| >= cap ==> RowsSound(rows + [row], nextId + 1, markers + {nextId}, cap)
  {
  }

  lemma StepKeepsSound(s: State, a: Action, cap: nat, run: nat)
    requires Sound(s, run, cap) && Enabled(s, a)
    ensures Sound(Apply(s, a, cap), run, cap)
  {
    if a.Insert? {
      InsertKeepsRowsSound(s, s.callers[a.caller], cap, run);
    }
  }

  lemma {:induction false} InsertKeepsRowsSound(s: State, x: Caller, cap: nat, run: nat)
    requires Sound(s, run, cap) && (x.run == run ==> x.count <= |OfRun(s.log, run)|)
    ensures var rows := OfRun(Added(s.log, s.nextId, x.run, x.event, x.count, cap), run);
            && |rows| >= |OfRun(s.log, run)|
            && RowsSound(rows, s.nextId + 1, if x.count == cap then s.markers + {s.nextId} else s.markers, cap)
  {
    var rows, row := OfRun(s.log, run), StoredRow(s, x, cap);
    AddedRows(s, x, cap, run);
    RowsStaySound(rows, s.nextId, s.markers, cap, row);
    if x.run != run || x.count > cap {
      assert rows + [] == rows;
    }
  }

  lemma {:induction false} RunIsSound(states: seq<State>, actions: seq<Action>, cap: nat, run: nat, i: nat)
    requires IsRun(states, actions, cap) && i < |states|
    ensures Sound(states[i], run, cap)
  {
    if i > 0 {
      RunIsSound(states, actions, cap, run, i - 1);
      StepKeepsSound(states[i - 1], actions[i - 1], cap, run);
    }
  }

  /** A count adds a call that will store a row only while at most `cap` rows are stored; an
      insert turns one such call into a row. */
  lemma StepKeepsBound(s: State, a: Action, cap: nat, run: nat, m: nat)
    requires Enabled(s, a) && |OfRun(s.log, run)| + |Storing(s, run, cap)| <= cap + m
    requires |Open(Apply(s, a, cap), run)| <= m
    ensures var s' := Apply(s, a, cap); |OfRun(s'.log, run)| + |Storing(s', run, cap)| <= cap + m
  {
    var s' := Apply(s, a, cap);
    match a
    case Count(c, r, _) =>
      StoringAreOpen(s', run, cap);
      if r != run || |OfRun(s.log, run)| > cap {
        assert Storing(s', run, cap) == Storing(s, run, cap);
      }
    case Insert(c) =>
      var x := s.callers[c];
      AddedRows(s, x, cap, run);
      if x.run == run && x.count <= cap {
        assert c in Storing(s, run, cap);
        assert Storing(s', run, cap) == Storing(s, run, cap) - {c};
      } else {
        assert Storing(s', run, cap) == Storing(s, run, cap);
      }
  }

  lemma StoringAreOpen(s: State, run: nat, cap: nat)
    ensures |Storing(s, run, cap)| <= |Open(s, run)|
  {
    Smaller(Storing(s, run, cap), Open(s, run));
  }

  lemma Smaller(a: set<nat>, b: set<nat>)
    requires a <= b
    ensures |a| <= |b|
  {
    assert |b| == |a| + |b - a| by {
      assert b == a + (b - a);
    }
  }

  lemma {:induction false} RunIsBounded(states: seq<State>, actions: seq<Action>, cap: nat, run: nat, m: nat, i: nat)
    requires IsRun(states, actions, cap) && Overlap(states, run, m) && i < |states|
    ensures |OfRun(states[i].log, run)| + |Storing(states[i], run, cap)| <= cap + m
  {
    if i > 0 {
      RunIsBounded(states, actions, cap, run, m, i - 1);
      assert |Open(states[i], run)| <= m;
      StepKeepsBound(states[i - 1], actions[i - 1], cap, run, m);
    } else {
      assert Storing(START, run, cap) == {};
    }
  }

  /** Ids of the rows from index `k` on. */
  function IdsFrom(rows: Log, k: nat): set<nat>
    requires k <= |rows|
    decreases |rows| - k
  {
    if k == |rows| then {} else {rows[k].id} + IdsFrom(rows, k + 1)
  }

  lemma {:induction false} IdsFromIs(rows: Log, k: nat)
    requires k <= |rows|
    ensures |IdsFrom(rows, k)| <= |rows| - k
    ensures forall n | k <= n < |rows| :: rows[n].id in IdsFrom(rows, k)
    decreases |rows| - k
  {
    if k < |rows| {
      IdsFromIs(rows, k + 1);
    }
  }

  /** Main result: with at most `m` calls of a run between count and insert, the run holds at
      most `cap + m` rows, the first `cap` of them events, and so at most `m` markers. */
  lemma OverlapBoundsTheLog(states: seq<State>, actions: seq<Action>, cap: nat, run: nat, m: nat, i: nat)
    requires IsRun(states, actions, cap) && Overlap(states, run, m) && i < |states|
    ensures var rows := OfRun(states[i].log, run);
            && |rows| <= cap + m
            && (forall k | 0 <= k < |rows| && k < cap :: rows[k].id !in Markers(states[i], run))
            && |Markers(states[i], run)| <= m
  {
    var s := states[i];
    var rows := OfRun(s.log, run);
    RunIsBounded(states, actions, cap, run, m, i);
    RunIsSound(states, actions, cap, run, i);
    var k := if |rows| < cap then |rows| else cap;
    IdsFromIs(rows, k);
    Smaller(Markers(s, run), IdsFrom(rows, k));
  }

  /** While no two calls of the run overlap, the one that has counted counted what is stored. */
  ghost predicate OneAtATime(s: State, run: nat, cap: nat) {
    && Capped(OfRun(s.log, run), EventsOf(s.ended, run), cap)
    && (forall c | c in s.callers && s.callers[c].run == run :: s.callers[c].count == |OfRun(s.log, run)|)
  }

  lemma StepOneAtATime(s: State, a: Action, cap: nat, run: nat)
    requires Enabled(s, a) && OneAtATime(s, run, cap) && |Open(s, run)| <= 1
    ensures OneAtATime(Apply(s, a, cap), run, cap)
  {
    if a.Insert? {
      var x := s.callers[a.caller];
      AddedRows(s, x, cap, run);
      EventsOfEnded(s.ended, x, run);
      if x.run == run {
        CappedStep(OfRun(s.log, run), EventsOf(s.ended, run), cap, x.event, StoredRow(s, x, cap));
        OnlyOneOpen(s, run, a.caller);
      }
    }
  }

  lemma EventsOfEnded(ended: seq<Caller>, x: Caller, run: nat)
    ensures EventsOf(ended + [x], run) == EventsOf(ended, run) + if x.run == run then [x.event] else []
  {
    assert (ended + [x])[..|ended|] == ended;
  }

  lemma OnlyOneOpen(s: State, run: nat, c: nat)
    requires |Open(s, run)| <= 1 && c in s.callers && s.callers[c].run == run
    ensures forall d | d in s.callers && s.callers[d].run == run :: d == c
  {
    if d :| d in s.callers && s.callers[d].run == run && d != c {
      Smaller({c, d}, Open(s, run));
    }
  }

  /** And if no two calls of the run overlap, it holds min(n, cap + 1) rows after n calls: the
      first `cap` events, cut, and one marker in place of the next. */
  lemma {:induction false} CapKeepsFirstEvents(states: seq<State>, actions: seq<Action>, cap: nat, run: nat, i: nat)
    requires IsRun(states, actions, cap) && Overlap(states, run, 1) && i < |states|
    ensures OneAtATime(states[i], run, cap)
    ensures Capped(OfRun(states[i].log, run), EventsOf(states[i].ended, run), cap)
  {
    if i > 0 {
      CapKeepsFirstEvents(states, actions, cap, run, i - 1);
      StepOneAtATime(states[i - 1], actions[i - 1], cap, run);
    }
  }

  // ----- The bounds are reached -----

  ghost predicate Reached(states: seq<State>, actions: seq<Action>, cap: nat, run: nat, m: nat, s: State) {
    IsRun(states, actions, cap) && Overlap(states, run, m) && states[|states| - 1] == s
  }

  lemma Extend(states: seq<State>, actions: seq<Action>, cap: nat, run: nat, m: nat, s: State, a: Action)
    requires Reached(states, actions, cap, run, m, s) && Enabled(s, a) && |Open(Apply(s, a, cap), run)| <= m
    ensures Reached(states + [Apply(s, a, cap)], actions + [a], cap, run, m, Apply(s, a, cap))
  {
    var states', actions' := states + [Apply(s, a, cap)], actions + [a];
    forall i | 0 <= i < |actions'|
      ensures Enabled(states'[i], actions'[i]) && states'[i + 1] == Apply(states'[i], actions'[i], cap)
    {
      if i < |actions| {
        assert states'[i] == states[i] && states'[i + 1] == states[i + 1] && actions'[i] == actions[i];
      }
    }
  }

  ghost predicate AllMarkers(rows: Log, cap: nat, markers: set<nat>, e: Event) {
    forall n | cap <= n < |rows| :: rows[n].id in markers && rows[n].event == Marker(e, cap)
  }

  /** Rows from `cap` on are markers; the callers `from` to `to` have counted `cap` rows. */
  ghost predicate Crowd(s: State, cap: nat, run: nat, e: Event, rows: nat, from: nat, to: nat) {
    && |OfRun(s.log, run)| == rows && Sound(s, run, cap)
    && AllMarkers(OfRun(s.log, run), cap, s.markers, e)
    && (forall c :: c in s.callers <==> from <= c < to)
    && (forall c | c in s.callers :: s.callers[c] == Caller(run, e, cap))
  }

  lemma CrowdIsOpen(s: State, run: nat, m: nat)
    requires forall c | c in s.callers :: c < m
    ensures |Open(s, run)| <= m
  {
    BelowIs(m);
    Smaller(Open(s, run), Below(m));
  }

  function Below(m: nat): set<nat> {
    if m == 0 then {} else Below(m - 1) + {m - 1}
  }

  lemma {:induction false} BelowIs(m: nat)
    ensures |Below(m)| == m && forall c: nat :: c in Below(m) <==> c < m
  {
    if m > 0 {
      BelowIs(m - 1);
    }
  }

  /** One call after the other stores the first `k` events. */
  lemma {:induction false} FillUp(cap: nat, run: nat, e: Event, m: nat, k: nat)
    returns (states: seq<State>, actions: seq<Action>, s: State)
    requires m > 0 && k <= cap
    ensures Reached(states, actions, cap, run, m, s) && Crowd(s, cap, run, e, k, 0, 0)
  {
    if k == 0 {
      states, actions, s := [START], [], START;
      CrowdIsOpen(s, run, m);
    } else {
      states, actions, s := FillUp(cap, run, e, m, k - 1);
      var counted := Apply(s, Count(0, run, e), cap);
      CrowdIsOpen(counted, run, m);
      Extend(states, actions, cap, run, m, s, Count(0, run, e));
      StepKeepsSound(s, Count(0, run, e), cap, run);
      var stored := Apply(counted, Insert(0), cap);
      CrowdIsOpen(stored, run, m);
      Extend(states + [counted], actions + [Count(0, run, e)], cap, run, m, counted, Insert(0));
      StepKeepsSound(counted, Insert(0), cap, run);
      AddedRows(counted, Caller(run, e, k - 1), cap, run);
      states, actions, s := states + [counted] + [stored], actions + [Count(0, run, e)] + [Insert(0)], stored;
    }
  }

  /** Then `k` calls count before any inserts. */
  lemma {:induction false} Gather(cap: nat, run: nat, e: Event, m: nat, k: nat)
    returns (states: seq<State>, actions: seq<Action>, s: State)
    requires 0 < m && k <= m
    ensures Reached(states, actions, cap, run, m, s) && Crowd(s, cap, run, e, cap, 0, k)
  {
    if k == 0 {
      states, actions, s := FillUp(cap, run, e, m, cap);
    } else {
      states, actions, s := Gather(cap, run, e, m, k - 1);
      var a := Count(k - 1, run, e);
      var counted := Apply(s, a, cap);
      CrowdIsOpen(counted, run, m);
      Extend(states, actions, cap, run, m, s, a);
      StepKeepsSound(s, a, cap, run);
      states, actions, s := states + [counted], actions + [a], counted;
    }
  }

  /** And all of them insert: every one of their rows is a marker. */
  lemma {:induction false} BoundIsReached(cap: nat, run: nat, e: Event, m: nat, k: nat)
    returns (states: seq<State>, actions: seq<Action>, s: State)
    requires 0 < m && k <= m
    ensures Reached(states, actions, cap, run, m, s) && Crowd(s, cap, run, e, cap + k, k, m)
  {
    if k == 0 {
      states, actions, s := Gather(cap, run, e, m, m);
    } else {
      states, actions, s := BoundIsReached(cap, run, e, m, k - 1);
      var a := Insert(k - 1);
      StoreOneMore(s, cap, run, e, m, k);
      CrowdIsOpen(Apply(s, a, cap), run, m);
      Extend(states, actions, cap, run, m, s, a);
      states, actions, s := states + [Apply(s, a, cap)], actions + [a], Apply(s, a, cap);
    }
  }

  /** The next of them inserts. */
  lemma {:induction false} StoreOneMore(s: State, cap: nat, run: nat, e: Event, m: nat, k: nat)
    requires 0 < k <= m && Crowd(s, cap, run, e, cap + k - 1, k - 1, m)
    ensures Enabled(s, Insert(k - 1)) && Crowd(Apply(s, Insert(k - 1), cap), cap, run, e, cap + k, k, m)
  {
    StepKeepsSound(s, Insert(k - 1), cap, run);
    var x := Caller(run, e, cap);
    assert s.callers[k - 1] == x;
    AddedRows(s, x, cap, run);
    MarkersGrow(OfRun(s.log, run), cap, s.markers, e, StoredRow(s, x, cap));
  }

  lemma MarkersGrow(rows: Log, cap: nat, markers: set<nat>, e: Event, row: Row)
    requires AllMarkers(rows, cap, markers, e) && row.event == Marker(e, cap)
    ensures AllMarkers(rows + [row], cap, markers + {row.id}, e)
  {
  }

  ghost predicate SingleMarker(states: seq<State>, run: nat) {
    forall i | 0 <= i < |states| :: |Markers(states[i], run)| <= 1
  }

  /** The marker is single in every run exactly when no two calls of a run overlap. */
  lemma SingleMarkerIff(cap: nat, run: nat, m: nat)
    requires m > 0
    ensures (forall states, actions | IsRun(states, actions, cap) && Overlap(states, run, m) ::
               SingleMarker(states, run))
            <==> m == 1
  {
    if m == 1 {
      forall states, actions | IsRun(states, actions, cap) && Overlap(states, run, m)
        ensures SingleMarker(states, run)
      {
        forall i | 0 <= i < |states|
          ensures |Markers(states[i], run)| <= 1
        {
          OverlapBoundsTheLog(states, actions, cap, run, m, i);
        }
      }
    } else {
      var states, actions, s := BoundIsReached(cap, run, Event("n", "k", "m", "info", None, None), m, m);
      var a, b := OfRun(s.log, run)[cap].id, OfRun(s.log, run)[cap + 1].id;
      Smaller({a, b}, Markers(s, run));
      assert |Markers(states[|states| - 1], run)| > 1;
    }
  }

  // ----- Paging -----

  function After(rows: Log, afterId: nat): Log {
    if rows == [] then []
    else After(rows[..|rows| - 1], afterId) + if rows[|rows| - 1].id > afterId then [rows[|rows| - 1]] else []
  }

  function Page(log: Log, run: nat, afterId: nat, limit: nat): Log {
    var rows := After(OfRun(log, run), afterId);
    if |rows| <= limit then rows else rows[..limit]
  }

  /** A run's rows are ordered too, and end no later than the table does. */
  lemma {:induction false} OfRunOrdered(log: Log, run: nat)
    requires Ordered(log)
    ensures Ordered(OfRun(log, run))
    ensures forall k | 0 <= k < |OfRun(log, run)| :: log != [] && OfRun(log, run)[k].id <= log[|log| - 1].id
  {
    if log != [] {
      var n := |log| - 1;
      var prefix := log[..n];
      OfRunOrdered(prefix, run);
      assert prefix != [] ==> prefix[n - 1].id < log[n].id;
    }
  }

  lemma {:induction false} NothingAfter(rows: Log, afterId: nat)
    requires forall i | 0 <= i < |rows| :: rows[i].id <= afterId
    ensures After(rows, afterId) == []
  {
    if rows != [] {
      NothingAfter(rows[..|rows| - 1], afterId);
    }
  }

  lemma {:induction false} RestAfter(rows: Log, afterId: nat, k: nat)
    requires k <= |rows|
    requires forall i | 0 <= i < k :: rows[i].id <= afterId
    requires forall i | k <= i < |rows| :: afterId < rows[i].id
    ensures After(rows, afterId) == rows[k..]
  {
    if k == |rows| {
      NothingAfter(rows, afterId);
    } else {
      var n := |rows| - 1;
      RestAfter(rows[..n], afterId, k);
      assert rows[k..] == rows[..n][k..] + [rows[n]];
    }
  }

  /** Exactly the rows from index `k` on follow the cursor. */
  ghost predicate SplitsAt(rows: Log, afterId: nat, k: nat)
    requires k <= |rows|
  {
    (forall i | 0 <= i < k :: rows[i].id <= afterId) && (forall i | k <= i < |rows| :: afterId < rows[i].id)
  }

  lemma {:induction false} SplitPoint(rows: Log, afterId: nat) returns (k: nat)
    requires Ordered(rows)
    ensures k <= |rows| && SplitsAt(rows, afterId, k)
  {
    if rows == [] || rows[|rows| - 1].id <= afterId {
      k := |rows|;
    } else {
      k := SplitPoint(rows[..|rows| - 1], afterId);
    }
  }

  lemma PageAt(log: Log, run: nat, afterId: nat, limit: nat, k: nat)
    requires k <= |OfRun(log, run)| && SplitsAt(OfRun(log, run), afterId, k)
    ensures Page(log, run, afterId, limit) == OfRun(log, run)[k..Min(k + limit, |OfRun(log, run)|)]
  {
    RestAfter(OfRun(log, run), afterId, k);
    SliceOfSlice(OfRun(log, run), k, limit);
  }

  lemma {:induction false} SliceOfSlice(rows: Log, k: nat, limit: nat)
    requires k <= |rows|
    ensures rows[k..][..Min(limit, |rows| - k)] == rows[k..Min(k + limit, |rows|)]
    ensures rows[k..][..|rows| - k] == rows[k..]
  {
  }

  /** The cursor after `k` rows have been read. */
  function Cursor(rows: Log, k: nat): nat
    requires k <= |rows|
  {
    if k == 0 then 0 else rows[k - 1].id
  }

  /** The page at that cursor is the next `limit` rows. */
  lemma PageIsNext(log: Log, run: nat, limit: nat, k: nat)
    requires Ordered(log) && k <= |OfRun(log, run)|
    ensures var rows := OfRun(log, run);
            Page(log, run, Cursor(rows, k), limit) == rows[k..Min(k + limit, |rows|)]
  {
    OfRunOrdered(log, run);
    PageAt(log, run, Cursor(OfRun(log, run), k), limit, k);
  }

  // ----- Following the cursor while rows appear -----

  lemma {:induction false} InOfRun(log: Log, run: nat, r: Row)
    ensures r in OfRun(log, run) <==> r in log && r.run == run
  {
    if log != [] {
      InOfRun(log[..|log| - 1], run, r);
      assert r in log <==> r in log[..|log| - 1] || r == log[|log| - 1];
    }
  }

  function NextCursor(page: Log, cursor: nat): nat {
    if page == [] then cursor else page[|page| - 1].id
  }

  /** A page holds exactly the run's rows between the cursor and the next one, in id order; a
      short page leaves none behind. */
  lemma {:induction false} PageIsInterval(log: Log, run: nat, cursor: nat, limit: nat)
    requires Ordered(log) && limit > 0
    ensures var page := Page(log, run, cursor, limit); var next := NextCursor(page, cursor);
            && Ordered(page) && |page| <= limit && cursor <= next
            && (forall r :: r in page <==> r in log && r.run == run && cursor < r.id <= next)
            && (|page| < limit ==> forall r | r in log && r.run == run :: r.id <= next)
  {
    var rows := OfRun(log, run);
    OfRunOrdered(log, run);
    var k := SplitPoint(rows, cursor);
    PageAt(log, run, cursor, limit, k);
    var n := Min(k + limit, |rows|);
    SliceIsInterval(rows, cursor, k, n);
    forall r
      ensures r in rows <==> r in log && r.run == run
    {
      InOfRun(log, run, r);
    }
  }

  lemma {:induction false} OrderedSlice(rows: Log, k: nat, n: nat)
    requires Ordered(rows) && k <= n <= |rows|
    ensures Ordered(rows[k..n]) && forall r | r in rows[k..n] :: r in rows
  {
    forall i, j | 0 <= i < j < n - k
      ensures rows[k..n][i].id < rows[k..n][j].id
    {
      assert rows[k..n][i] == rows[k + i] && rows[k..n][j] == rows[k + j];
    }
  }

  lemma {:induction false} SliceIsInterval(rows: Log, cursor: nat, k: nat, n: nat)
    requires Ordered(rows) && k <= n <= |rows| && SplitsAt(rows, cursor, k) && (k < |rows| ==> k < n)
    ensures var page := rows[k..n]; var next := NextCursor(page, cursor);
            && Ordered(page) && cursor <= next
            && (forall r :: r in page <==> r in rows && cursor < r.id <= next)
            && (n == |rows| ==> forall r | r in rows :: r.id <= next)
  {
    var page, next := rows[k..n], NextCursor(rows[k..n], cursor);
    OrderedSlice(rows, k, n);
    assert k < n ==> next == rows[n - 1].id;
    forall r | r in rows
      ensures r in page <==> cursor < r.id <= next
      ensures n == |rows| ==> r.id <= next
    {
      var i :| 0 <= i < |rows| && rows[i] == r;
      if k <= i < n {
        assert page[i - k] == r;
      }
    }
  }

  /** The reader's cursor at its `i`-th read, when the table at read `j` is `logs[j]`. */
  function CursorAt(logs: seq<Log>, run: nat, limit: nat, i: nat): nat
    requires i <= |logs|
  {
    if i == 0 then 0
    else
      var cursor := CursorAt(logs, run, limit, i - 1);
      NextCursor(Page(logs[i - 1], run, cursor, limit), cursor)
  }

  /** Tables in id order in which rows appear, at whatever place: an id is assigned before its
      row is committed. */
  ghost predicate Growing(logs: seq<Log>) {
    && (forall i | 0 <= i < |logs| :: Ordered(logs[i]))
    && (forall i, j, r | 0 <= i < j < |logs| && r in logs[i] :: r in logs[j])
  }

  /** `r` became visible at read `f`. */
  ghost predicate Appears(logs: seq<Log>, f: nat, r: Row)
    requires f < |logs|
  {
    r in logs[f] && (f == 0 || r !in logs[f - 1])
  }

  /** By read `i`, `r` became visible at or behind the cursor. */
  ghost predicate Late(logs: seq<Log>, run: nat, limit: nat, r: Row, i: nat)
    requires i < |logs|
  {
    exists f | 0 <= f <= i :: Appears(logs, f, r) && r.id <= CursorAt(logs, run, limit, f)
  }

  ghost predicate CursorRises(logs: seq<Log>, run: nat, limit: nat, k: nat)
    requires k < |logs|
  {
    CursorAt(logs, run, limit, k) <= CursorAt(logs, run, limit, k + 1)
  }

  lemma {:induction false} CursorStep(logs: seq<Log>, run: nat, limit: nat, k: nat)
    requires k < |logs| && Ordered(logs[k]) && limit > 0
    ensures CursorRises(logs, run, limit, k)
  {
    PageIsInterval(logs[k], run, CursorAt(logs, run, limit, k), limit);
  }

  lemma {:induction false} RisingCursors(logs: seq<Log>, run: nat, limit: nat, i: nat, j: nat)
    requires i <= j <= |logs| && forall k | i <= k < j :: CursorRises(logs, run, limit, k)
    ensures CursorAt(logs, run, limit, i) <= CursorAt(logs, run, limit, j)
    decreases j
  {
    if i < j {
      RisingCursors(logs, run, limit, i, j - 1);
      assert CursorRises(logs, run, limit, j - 1);
    }
  }

  lemma {:induction false} CursorGrows(logs: seq<Log>, run: nat, limit: nat, i: nat, j: nat)
    requires Growing(logs) && limit > 0 && i <= j <= |logs|
    ensures CursorAt(logs, run, limit, i) <= CursorAt(logs, run, limit, j)
  {
    forall k | i <= k < j
      ensures CursorRises(logs, run, limit, k)
    {
      CursorStep(logs, run, limit, k);
    }
    RisingCursors(logs, run, limit, i, j);
  }

  /** What the first `n` reads have returned. */
  ghost predicate Got(logs: seq<Log>, run: nat, limit: nat, n: nat, r: Row)
    requires n <= |logs|
  {
    && n > 0 && r in logs[n - 1] && r.run == run
    && r.id <= CursorAt(logs, run, limit, n) && !Late(logs, run, limit, r, n - 1)
  }

  /** A row ahead of the cursor is not late; one that was visible before is late or not as it
      was; one that is new is late exactly when it is behind the cursor. */
  lemma LateNow(logs: seq<Log>, run: nat, limit: nat, n: nat, r: Row)
    requires Growing(logs) && limit > 0 && n < |logs| && r in logs[n]
    ensures r.id > CursorAt(logs, run, limit, n) ==> !Late(logs, run, limit, r, n)
    ensures n > 0 && r in logs[n - 1] ==> (Late(logs, run, limit, r, n) <==> Late(logs, run, limit, r, n - 1))
    ensures Appears(logs, n, r) && r.id <= CursorAt(logs, run, limit, n) ==> Late(logs, run, limit, r, n)
  {
    forall f | 0 <= f <= n
      ensures CursorAt(logs, run, limit, f) <= CursorAt(logs, run, limit, n)
    {
      CursorGrows(logs, run, limit, f, n);
    }
  }

  lemma GotNext(logs: seq<Log>, run: nat, limit: nat, n: nat, r: Row)
    requires Growing(logs) && limit > 0 && n < |logs|
    ensures Got(logs, run, limit, n + 1, r)
            <==> Got(logs, run, limit, n, r) || r in Page(logs[n], run, CursorAt(logs, run, limit, n), limit)
  {
    PageIsInterval(logs[n], run, CursorAt(logs, run, limit, n), limit);
    if r in logs[n] {
      LateNow(logs, run, limit, n, r);
    }
  }

  /** A reader that follows the cursor until a page is short. It returns rows once each and in
      id order, and of the rows of the run exactly those that did not become visible at or
      behind its cursor. */
  method ReadAll(logs: seq<Log>, run: nat, limit: nat) returns (all: Log, last: nat, complete: bool)
    requires limit > 0 && logs != [] && Growing(logs)
    ensures last < |logs| && Ordered(all)
    ensures forall r | r in all :: r in logs[last] && r.run == run
    ensures forall r | r in logs[last] && r.run == run && r !in all ::
              Late(logs, run, limit, r, last) || (!complete && r.id > CursorAt(logs, run, limit, last + 1))
    ensures forall r | r in all :: !Late(logs, run, limit, r, last)
    ensures !complete ==> last == |logs| - 1 && |all| >= |logs|
  {
    all, last, complete := [], 0, false;
    var cursor := 0;
    while true
      invariant last < |logs| && last <= |all|
      invariant cursor == CursorAt(logs, run, limit, last)
      invariant Ordered(all) && forall r | r in all :: r.id <= cursor
      invariant forall r :: r in all <==> Got(logs, run, limit, last, r)
      decreases |logs| - last
    {
      var page := Page(logs[last], run, cursor, limit);
      PageIsInterval(logs[last], run, cursor, limit);
      OrderedConcat(all, page, cursor);
      forall r
        ensures r in all + page <==> Got(logs, run, limit, last + 1, r)
      {
        GotNext(logs, run, limit, last, r);
      }
      all := all + page;
      cursor := NextCursor(page, cursor);
      if |page| < limit {
        complete := true;
        break;
      }
      if last == |logs| - 1 {
        break;
      }
      last := last + 1;
    }
  }

  lemma OrderedConcat(a: Log, b: Log, cursor: nat)
    requires Ordered(a) && Ordered(b)
    requires (forall r | r in a :: r.id <= cursor) && (forall r | r in b :: cursor < r.id)
    ensures Ordered(a + b)
  {
    forall i, j | 0 <= i < j < |a + b|
      ensures (a + b)[i].id < (a + b)[j].id
    {
      assert i < |a| ==> a[i] in a;
      assert j >= |a| ==> b[j - |a|] in b;
    }
  }

  /** Rows that are only ever appended are never late. */
  lemma AppendedIsNotLate(logs: seq<Log>, run: nat, limit: nat, r: Row, i: nat)
    requires Growing(logs) && limit > 0 && i < |logs|
    requires forall k | 0 < k < |logs| :: logs[k - 1] <= logs[k]
    ensures !Late(logs, run, limit, r, i)
  {
    forall f | 0 <= f <= i && Appears(logs, f, r)
      ensures r.id > CursorAt(logs, run, limit, f)
    {
      if f > 0 {
        CursorIsStored(logs, run, limit, f);
        NewRowIsLast(logs[f - 1], logs[f], r);
      }
    }
  }

  lemma NewRowIsLast(before: Log, after: Log, r: Row)
    requires before <= after && Ordered(after) && r in after && r !in before
    ensures forall q | q in before :: q.id < r.id
  {
    forall k | 0 <= k < |before|
      ensures after[k] != r
    {
      assert before[k] == after[k];
    }
    forall q | q in before
      ensures q.id < r.id
    {
      var k :| 0 <= k < |before| && before[k] == q;
      assert after[k] == q;
    }
  }

  ghost predicate HasId(log: Log, id: nat) {
    exists r | r in log :: r.id == id
  }

  lemma HasIdStill(before: Log, after: Log, id: nat)
    requires HasId(before, id) && forall r | r in before :: r in after
    ensures HasId(after, id)
  {
    var r :| r in before && r.id == id;
    assert r in after;
  }

  lemma PageEndIsStored(log: Log, run: nat, cursor: nat, limit: nat)
    requires Ordered(log) && limit > 0 && Page(log, run, cursor, limit) != []
    ensures HasId(log, NextCursor(Page(log, run, cursor, limit), cursor))
  {
    var page := Page(log, run, cursor, limit);
    PageIsInterval(log, run, cursor, limit);
    var top := page[|page| - 1];
    assert top in page && top in log;
  }

  lemma {:induction false} CursorIsStored(logs: seq<Log>, run: nat, limit: nat, f: nat)
    requires Growing(logs) && limit > 0 && 0 < f <= |logs|
    ensures CursorAt(logs, run, limit, f) == 0 || HasId(logs[f - 1], CursorAt(logs, run, limit, f))
  {
    var cursor := CursorAt(logs, run, limit, f - 1);
    if Page(logs[f - 1], run, cursor, limit) != [] {
      PageEndIsStored(logs[f - 1], run, cursor, limit);
    } else if f > 1 {
      CursorIsStored(logs, run, limit, f - 1);
      if cursor != 0 {
        HasIdStill(logs[f - 2], logs[f - 1], cursor);
      }
    }
  }

  /** A row that is late is never returned: id 1 was assigned first and committed second. */
  lemma LateRowIsMissed(e: Event)
    ensures var early, late := Row(2, 7, e), Row(1, 7, e); var logs := [[early], [late, early]];
            && Growing(logs) && Late(logs, 7, 1, late, 1)
            && Page(logs[0], 7, 0, 1) == [early] && Page(logs[1], 7, 2, 1) == []
  {
    var early, late := Row(2, 7, e), Row(1, 7, e);
    var logs := [[early], [late, early]];
    FirstPages(e);
    assert CursorAt(logs, 7, 1, 0) == 0;
    assert CursorAt(logs, 7, 1, 1) == NextCursor([early], 0);
    assert Appears(logs, 1, late);
  }

  lemma FirstPages(e: Event)
    ensures Page([Row(2, 7, e)], 7, 0, 1) == [Row(2, 7, e)] && Page([Row(1, 7, e), Row(2, 7, e)], 7, 2, 1) == []
  {
    var early, late := Row(2, 7, e), Row(1, 7, e);
    assert [] + [early] == [early] && [] + [late] == [late] && [late] + [early] == [late, early];
    OfRunAppend([], early, 7);
    OfRunAppend([], late, 7);
    OfRunAppend([late], early, 7);
    RestAfter([early], 0, 0);
    NothingAfter([late, early], 2);
  }

  // ----- The tail -----

  function OfNode(rows: Log, node: Option<string>): Log {
    if node.None? || rows == [] then rows
    else
      OfNode(rows[..|rows| - 1], node) + if rows[|rows| - 1].event.node == node.value then [rows[|rows| - 1]] else []
  }

  lemma {:induction false} InOfNode(rows: Log, node: Option<string>, r: Row)
    ensures r in OfNode(rows, node) <==> r in rows && (node.Some? ==> r.event.node == node.value)
  {
    if node.Some? && rows != [] {
      InOfNode(rows[..|rows| - 1], node, r);
      assert r in rows <==> r in rows[..|rows| - 1] || r == rows[|rows| - 1];
    }
  }

  /** The rows that `list_latest_events` chooses from. */
  lemma RowsOfNode(log: Log, run: nat, node: Option<string>)
    requires Ordered(log)
    ensures var rows := OfNode(OfRun(log, run), node);
            Ordered(rows)
            && forall r :: r in rows <==> r in log && r.run == run && (node.Some? ==> r.event.node == node.value)
  {
    OfRunOrdered(log, run);
    OfNodeOrdered(OfRun(log, run), node);
    forall r
      ensures r in OfNode(OfRun(log, run), node)
              <==> r in log && r.run == run && (node.Some? ==> r.event.node == node.value)
    {
      InOfRun(log, run, r);
      InOfNode(OfRun(log, run), node, r);
    }
  }

  /** A suffix of ordered rows is ordered, and all others come before it. */
  lemma {:induction false} SuffixIs(rows: Log, k: nat)
    requires Ordered(rows) && k <= |rows|
    ensures Ordered(rows[k..]) && (forall r | r in rows[k..] :: r in rows)
    ensures forall r, q | r in rows && r !in rows[k..] && q in rows[k..] :: r.id < q.id
  {
    OrderedSlice(rows, k, |rows|);
    assert rows[k..|rows|] == rows[k..];
    forall i | k <= i < |rows|
      ensures rows[i] in rows[k..]
    {
      assert rows[k..][i - k] == rows[i];
    }
    forall r, q | r in rows && r !in rows[k..] && q in rows[k..]
      ensures r.id < q.id
    {
      var i :| 0 <= i < |rows| && rows[i] == r;
      var j :| 0 <= j < |rows[k..]| && rows[k..][j] == q;
      assert rows[k + j] == q;
    }
  }

  lemma {:induction false} LastIs(rows: Log, limit: nat)
    requires Ordered(rows)
    ensures var tail := Last(rows, limit);
            && Ordered(tail) && |tail| <= limit && (forall r | r in tail :: r in rows)
            && (forall r | r in rows && r !in tail :: |tail| == limit && forall q | q in tail :: r.id < q.id)
  {
    if |rows| > limit {
      SuffixIs(rows, |rows| - limit);
    }
  }

  lemma {:induction false} TailIs(log: Log, run: nat, node: Option<string>, limit: nat)
    requires Ordered(log)
    ensures IsTail(log, run, node, limit, Last(OfNode(OfRun(log, run), node), limit))
  {
    RowsOfNode(log, run, node);
    LastIs(OfNode(OfRun(log, run), node), limit);
  }

  lemma {:induction false} OfNodeOrdered(rows: Log, node: Option<string>)
    requires Ordered(rows)
    ensures Ordered(OfNode(rows, node))
  {
    if node.Some? && rows != [] {
      var prefix := rows[..|rows| - 1];
      OfNodeOrdered(prefix, node);
      forall k | 0 <= k < |OfNode(prefix, node)|
        ensures OfNode(prefix, node)[k].id < rows[|rows| - 1].id
      {
        InOfNode(prefix, node, OfNode(prefix, node)[k]);
      }
    }
  }

  function Reversed(rows: Log): Log {
    if rows == [] then [] else [rows[|rows| - 1]] + Reversed(rows[..|rows| - 1])
  }

  lemma {:induction false} ReversedLength(rows: Log)
    ensures |Reversed(rows)| == |rows|
  {
    if rows != [] {
      ReversedLength(rows[..|rows| - 1]);
    }
  }

  lemma {:induction false} ReversedAppend(a: Log, b: Log)
    ensures Reversed(a + b) == Reversed(b) + Reversed(a)
    decreases |b|
  {
    if b == [] {
      assert a + b == a;
    } else {
      var n := |b| - 1;
      assert (a + b)[..|a| + n] == a + b[..n];
      ReversedAppend(a, b[..n]);
    }
  }

  lemma {:induction false} ReversedTwice(rows: Log)
    ensures Reversed(Reversed(rows)) == rows
  {
    if rows != [] {
      var n := |rows| - 1;
      ReversedTwice(rows[..n]);
      ReversedAppend([rows[n]], Reversed(rows[..n]));
      assert Reversed([rows[n]]) == [rows[n]];
    }
  }

  lemma LastRows(rows: Log, limit: nat)
    ensures var newest := Reversed(rows);
            Reversed(if |newest| <= limit then newest else newest[..limit]) == Last(rows, limit)
  {
    ReversedLength(rows);
    if |rows| <= limit {
      ReversedTwice(rows);
    } else {
      ReversedTake(rows, limit);
    }
  }

  /** The first `k` of the reversed rows are the last `k` rows, reversed. */
  lemma {:induction false} ReversedTake(rows: Log, k: nat)
    requires k <= |rows|
    ensures |Reversed(rows)| == |rows| && Reversed(Reversed(rows)[..k]) == rows[|rows| - k..]
  {
    var head, tail := rows[..|rows| - k], rows[|rows| - k..];
    assert rows == head + tail;
    ReversedAppend(head, tail);
    ReversedLength(rows);
    ReversedLength(tail);
    assert Reversed(rows)[..k] == Reversed(tail);
    ReversedTwice(tail);
  }
}
