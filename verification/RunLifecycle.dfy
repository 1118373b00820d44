/** Workflow runs and their step rows under any number of interleaved writers
    (backend/repositories/run_repository.py). Every SQL statement is one atomic step. */
module RunLifecycle {
  import opened Common
  import opened CompareAndSet

  datatype RunStatus = Pending | Running | Paused | Success | Failed | Cancelled

  const TERMINAL_RUN_STATUSES: set<RunStatus> := {Success, Failed, Cancelled}
  const ALL_RUN_STATUSES: set<RunStatus> := {Pending, Running, Paused, Success, Failed, Cancelled}

  datatype StepStatus = StepPending | StepRunning | StepSuccess | StepPartial | StepFailed | StepSkipped

  const TERMINAL_STEP_STATUSES: set<StepStatus> := {StepSuccess, StepFailed, StepSkipped}
  const STEP_ROW_MESSAGE_MAX: nat := 4000

  /** The columns a status write may carry along. */
  datatype Column =
    | HatchetRunId | ErrorMessage | ErrorCategory | ErrorId | StartedAt | FinishedAt
    | CurrentNodeId | DebugMessage | ApprovalState | Output | Failure

  /** Column values of a row; a column that is absent is NULL. */
  type Columns = map<Column, Option<string>>

  function Value(cols: Columns, c: Column): Option<string> {
    if c in cols then cols[c] else None
  }

  datatype Run = Run(status: RunStatus, cols: Columns)

  datatype Step = Step(run: nat, node: string, status: StepStatus, cols: Columns)

  datatype Db = Db(runs: map<nat, Run>, steps: map<nat, Step>)

  datatype Action =
    | CreateRun(run: nat)
    | TransitionRun(run: nat, to: RunStatus, from: Option<set<RunStatus>>, fields: Columns)
    | RecordHatchetRunId(run: nat, hatchetId: string)
    | FailRunningSteps(run: nat, message: string, now: string)
    | SkipPendingSteps(run: nat, now: string)
    | CreateStep(step: nat, run: nat, node: string)
    | UpdateStep(step: nat, stepStatus: StepStatus, fields: Columns)

  // ----- What each statement does -----

  /** Without `from_statuses` the guard is "not terminal". */
  function Guard(from: Option<set<RunStatus>>): set<RunStatus> {
    if from.Some? then from.value else ALL_RUN_STATUSES - TERMINAL_RUN_STATUSES
  }

  function TransitionValues(to: RunStatus, fields: Columns): Columns {
    if to in TERMINAL_RUN_STATUSES then fields[CurrentNodeId := None][ApprovalState := None] else fields
  }

  predicate Matches(db: Db, run: nat, guard: set<RunStatus>) {
    run in db.runs && db.runs[run].status in guard
  }

  function Moved(r: Run, to: RunStatus, fields: Columns): Run {
    Run(to, r.cols + TransitionValues(to, fields))
  }

  /** The first UPDATE of `finalise_open_step_results`, on one row. */
  function FailRunning(s: Step, run: nat, message: string, now: string): Step {
    if s.run == run && s.status == StepRunning
    then s.(status := StepFailed,
            cols := s.cols[ErrorMessage := Some(Cut(message))]
                    [ErrorCategory := Some("internal")][FinishedAt := Some(now)])
    else s
  }

  /** The second one. */
  function SkipPending(s: Step, run: nat, now: string): Step {
    if s.run == run && s.status == StepPending
    then s.(status := StepSkipped, cols := s.cols[FinishedAt := Some(now)])
    else s
  }

  function Cut(message: string): string {
    if |message| <= STEP_ROW_MESSAGE_MAX then message else message[..STEP_ROW_MESSAGE_MAX]
  }

  /** The row an `update_step_result` call must leave as it is. */
  predicate Frozen(db: Db, s: Step) {
    s.status in TERMINAL_STEP_STATUSES && s.run in db.runs && db.runs[s.run].status == Cancelled
  }

  /** The unique index on (run, node). */
  predicate StepExists(db: Db, run: nat, node: string) {
    exists x | x in db.steps :: db.steps[x].run == run && db.steps[x].node == node
  }

  function Apply(db: Db, a: Action): Db {
    match a
    case CreateRun(run) =>
      if run in db.runs then db else db.(runs := db.runs[run := Run(Pending, map[])])
    case TransitionRun(run, to, from, fields) =>
      if Matches(db, run, Guard(from)) then db.(runs := db.runs[run := Moved(db.runs[run], to, fields)]) else db
    case RecordHatchetRunId(run, id) =>
      if run in db.runs
      then db.(runs := db.runs[run := db.runs[run].(cols := db.runs[run].cols[HatchetRunId := Some(id)])])
      else db
    case FailRunningSteps(run, message, now) =>
      db.(steps := map x | x in db.steps :: FailRunning(db.steps[x], run, message, now))
    case SkipPendingSteps(run, now) =>
      db.(steps := map x | x in db.steps :: SkipPending(db.steps[x], run, now))
    case CreateStep(step, run, node) =>
      if step in db.steps || StepExists(db, run, node) then db
      else db.(steps := db.steps[step := Step(run, node, StepPending, map[])])
    case UpdateStep(step, status, fields) =>
      if step in db.steps && !Frozen(db, db.steps[step])
      then db.(steps := db.steps[step := db.steps[step].(status := status, cols := db.steps[step].cols + fields)])
      else db
  }

  function DbAt(db: Db, actions: seq<Action>, i: nat): Db
    requires i <= |actions|
  {
    if i == 0 then db else Apply(DbAt(db, actions, i - 1), actions[i - 1])
  }

  /** The two UPDATEs of a finished run touch only its own running, and its own pending, rows. */
  lemma OtherRowsUntouched(db: Db, run: nat, message: string, now: string, x: nat)
    requires x in db.steps
    ensures var after := Apply(db, FailRunningSteps(run, message, now));
            && OnlySteps(db, after) && (db.steps[x].run != run || db.steps[x].status != StepRunning
                                        ==> after.steps[x] == db.steps[x])
    ensures var after := Apply(db, SkipPendingSteps(run, now));
            && OnlySteps(db, after) && (db.steps[x].run != run || db.steps[x].status != StepPending
                                        ==> after.steps[x] == db.steps[x])
  {
  }

  ghost predicate OnlySteps(was: Db, now: Db) {
    now.runs == was.runs && now.steps.Keys == was.steps.Keys
  }

  /** A new run is pending and bare. */
  lemma NewRunIsPending(db: Db, run: nat)
    ensures Apply(db, CreateRun(run))
            == if run in db.runs then db else Db(db.runs[run := Run(Pending, map[])], db.steps)
  {
  }

  // ----- A run's status is a compare-and-set row -----

  /** What an action means for the status of run `id`. */
  function CallOn(a: Action, id: nat): Call<RunStatus> {
    if a.TransitionRun? && a.run == id then Call(Guard(a.from), a.to) else Call({}, Pending)
  }

  function CallsOn(actions: seq<Action>, id: nat): seq<Call<RunStatus>> {
    seq(|actions|, i requires 0 <= i < |actions| => CallOn(actions[i], id))
  }

  /** Only `transition_run` moves a status; recording the engine's run id never does. */
  lemma {:induction false} RunHistory(db: Db, actions: seq<Action>, id: nat, i: nat)
    requires id in db.runs && i <= |actions|
    ensures id in DbAt(db, actions, i).runs
    ensures DbAt(db, actions, i).runs[id].status == StatusAt(db.runs[id].status, CallsOn(actions, id), i)
  {
    if i > 0 {
      RunHistory(db, actions, id, i - 1);
    }
  }

  /** Explicit `from_statuses` name no terminal status, except to write that status again
      (the one caller that does annotates a cancelled run). */
  ghost predicate Disciplined(actions: seq<Action>) {
    forall i | 0 <= i < |actions| && actions[i].TransitionRun? ::
      Guard(actions[i].from) * TERMINAL_RUN_STATUSES <= {actions[i].to}
  }

  /** Success, failed and cancelled are absorbing in every interleaving. */
  lemma TerminalRunStaysTerminal(db: Db, actions: seq<Action>, id: nat, i: nat, j: nat)
    requires id in db.runs && i <= j <= |actions| && Disciplined(actions)
    requires id in DbAt(db, actions, i).runs && DbAt(db, actions, i).runs[id].status in TERMINAL_RUN_STATUSES
    ensures id in DbAt(db, actions, j).runs
    ensures DbAt(db, actions, j).runs[id].status == DbAt(db, actions, i).runs[id].status
  {
    RunHistory(db, actions, id, i);
    RunHistory(db, actions, id, j);
    TerminalIsAbsorbing(db.runs[id].status, CallsOn(actions, id), TERMINAL_RUN_STATUSES, i, j);
  }

  /** The discipline is exactly what is needed: a guard that breaks it reopens some run. */
  lemma GuardKeepsTerminalIff(to: RunStatus, from: Option<set<RunStatus>>)
    ensures (forall db: Db, id: nat, fields: Columns |
               id in db.runs && db.runs[id].status in TERMINAL_RUN_STATUSES ::
               Apply(db, TransitionRun(id, to, from, fields)).runs[id].status == db.runs[id].status)
            <==> Guard(from) * TERMINAL_RUN_STATUSES <= {to}
  {
    if !(Guard(from) * TERMINAL_RUN_STATUSES <= {to}) {
      var s :| s in Guard(from) && s in TERMINAL_RUN_STATUSES && s != to;
      var db := Db(map[0 := Run(s, map[])], map[]);
      assert Apply(db, TransitionRun(0, to, from, map[])).runs[0].status == to;
    } else {
      forall db: Db, id: nat, fields: Columns |
        id in db.runs && db.runs[id].status in TERMINAL_RUN_STATUSES
        ensures Apply(db, TransitionRun(id, to, from, fields)).runs[id].status == db.runs[id].status
      {
        if Matches(db, id, Guard(from)) {
          assert db.runs[id].status in Guard(from) * TERMINAL_RUN_STATUSES;
        }
      }
    }
  }

  /** Told that call `i` changed the row. */
  predicate Told(db: Db, actions: seq<Action>, i: nat)
    requires i < |actions| && actions[i].TransitionRun?
  {
    Matches(DbAt(db, actions, i), actions[i].run, Guard(actions[i].from))
  }

  /** At most one writer is told that it ended the run. A later one that is told so wrote the
      same status again, as its `from_statuses` allow: the cancelled-to-cancelled note. */
  lemma OneWriterEndsTheRun(db: Db, actions: seq<Action>, id: nat, i: nat, j: nat)
    requires id in db.runs && i <= j < |actions| && Disciplined(actions)
    requires actions[i].TransitionRun? && actions[i].run == id && actions[i].to in TERMINAL_RUN_STATUSES
    requires actions[j].TransitionRun? && actions[j].run == id && actions[j].to in TERMINAL_RUN_STATUSES
    requires Told(db, actions, i) && Told(db, actions, j)
    ensures i == j || (actions[j].to == actions[i].to && actions[j].to in Guard(actions[j].from))
  {
    RunHistory(db, actions, id, i);
    RunHistory(db, actions, id, j);
    OneTerminalMove(db.runs[id].status, CallsOn(actions, id), TERMINAL_RUN_STATUSES, i, j);
  }

  /** At most one worker claims a pending run, since nothing moves a run back to pending. */
  lemma OneWorkerClaimsTheRun(db: Db, actions: seq<Action>, id: nat, i: nat, j: nat)
    requires id in db.runs && i < j < |actions|
    requires forall k | 0 <= k < |actions| && actions[k].TransitionRun? :: actions[k].to != Pending
    requires actions[i].TransitionRun? && actions[i].run == id && actions[i].from == Some({Pending})
    requires actions[j].TransitionRun? && actions[j].run == id && actions[j].from == Some({Pending})
    requires Told(db, actions, i)
    ensures !Told(db, actions, j)
  {
    RunHistory(db, actions, id, i);
    RunHistory(db, actions, id, j);
    if Told(db, actions, j) {
      var k := SecondWinnerNeedsAWayBack(db.runs[id].status, CallsOn(actions, id), i, j);
    }
  }

  /** A run that ended holds no node to approve and no approval state. */
  ghost predicate EndedRunsAreClean(db: Db) {
    forall id | id in db.runs && db.runs[id].status in TERMINAL_RUN_STATUSES ::
      Value(db.runs[id].cols, CurrentNodeId) == None && Value(db.runs[id].cols, ApprovalState) == None
  }

  lemma {:induction false} EndedRunsStayClean(db: Db, actions: seq<Action>, i: nat)
    requires EndedRunsAreClean(db) && i <= |actions|
    ensures EndedRunsAreClean(DbAt(db, actions, i))
  {
    if i > 0 {
      EndedRunsStayClean(db, actions, i - 1);
      var before, after := DbAt(db, actions, i - 1), DbAt(db, actions, i);
      forall id | id in after.runs && after.runs[id].status in TERMINAL_RUN_STATUSES
        ensures Value(after.runs[id].cols, CurrentNodeId) == None
        ensures Value(after.runs[id].cols, ApprovalState) == None
      {
        if id in before.runs && after.runs[id] == before.runs[id] {
        } else {
          assert actions[i - 1].TransitionRun? || actions[i - 1].RecordHatchetRunId?;
        }
      }
    }
  }

  // ----- Closed step rows stay closed -----

  /** Exactly the rows of a cancelled run that no late worker can change: `partial` is not
      among the terminal step statuses. */
  lemma FrozenIffNoUpdateApplies(db: Db, x: nat)
    requires x in db.steps && db.steps[x].run in db.runs && db.runs[db.steps[x].run].status == Cancelled
    ensures (forall status, fields :: Apply(db, UpdateStep(x, status, fields)) == db)
            <==> db.steps[x].status in {StepSuccess, StepFailed, StepSkipped}
  {
    if db.steps[x].status !in TERMINAL_STEP_STATUSES {
      assert Apply(db, UpdateStep(x, StepSuccess, map[])).steps[x].status == StepSuccess;
    }
  }

  /** A concrete reopening: a late worker puts a partial row of a cancelled run to running. */
  lemma PartialRowIsReopened()
    ensures var db := Db(map[1 := Run(Cancelled, map[])], map[7 := Step(1, "n", StepPartial, map[])]);
            Apply(db, UpdateStep(7, StepRunning, map[])).steps[7].status == StepRunning
  {
    var db := Db(map[1 := Run(Cancelled, map[])], map[7 := Step(1, "n", StepPartial, map[])]);
    assert !Frozen(db, db.steps[7]);
  }

  /** No action changes a terminal row of a cancelled run. */
  lemma StepLeavesFrozenRow(db: Db, a: Action, x: nat)
    requires x in db.steps && Frozen(db, db.steps[x])
    ensures x in Apply(db, a).steps && Apply(db, a).steps[x] == db.steps[x]
  {
  }

  lemma {:induction false} FrozenRowStays(db: Db, actions: seq<Action>, x: nat, i: nat, j: nat)
    requires i <= j <= |actions| && Disciplined(actions)
    requires x in DbAt(db, actions, i).steps && Frozen(DbAt(db, actions, i), DbAt(db, actions, i).steps[x])
    requires DbAt(db, actions, i).steps[x].run in db.runs
    ensures x in DbAt(db, actions, j).steps && DbAt(db, actions, j).steps[x] == DbAt(db, actions, i).steps[x]
    decreases j
  {
    if i < j {
      FrozenRowStays(db, actions, x, i, j - 1);
      var row := DbAt(db, actions, i).steps[x];
      TerminalRunStaysTerminal(db, actions, row.run, i, j - 1);
      StepLeavesFrozenRow(DbAt(db, actions, j - 1), actions[j - 1], x);
    }
  }

  /** Run `id` is cancelled and step row `x` is one of its rows. */
  ghost predicate RowOfCancelled(db: Db, id: nat, x: nat) {
    id in db.runs && db.runs[id].status == Cancelled && x in db.steps && db.steps[x].run == id
  }

  /** What `finalise_open_step_results` finds running in a cancelled run stays failed, with the
      cut message and otherwise unchanged in every column, in every continuation. */
  lemma FailedRowStaysFailed(db: Db, actions: seq<Action>, i: nat, j: nat, x: nat)
    requires i < j <= |actions| && Disciplined(actions)
    requires actions[i].FailRunningSteps? && actions[i].run in db.runs
    requires RowOfCancelled(DbAt(db, actions, i), actions[i].run, x)
    requires DbAt(db, actions, i).steps[x].status == StepRunning
    ensures x in DbAt(db, actions, j).steps && DbAt(db, actions, j).steps[x].status == StepFailed
    ensures var was, cols := DbAt(db, actions, i).steps[x], DbAt(db, actions, j).steps[x].cols;
            && Value(cols, FinishedAt) == Some(actions[i].now)
            && Value(cols, ErrorCategory) == Some("internal")
            && Value(cols, ErrorMessage).Some? && Value(cols, ErrorMessage).value <= actions[i].message
            && |Value(cols, ErrorMessage).value| == (if |actions[i].message| < 4000 then |actions[i].message| else 4000)
            && (forall c | c !in {FinishedAt, ErrorCategory, ErrorMessage} :: Value(cols, c) == Value(was.cols, c))
  {
    FrozenRowStays(db, actions, x, i + 1, j);
  }

  /** What it finds pending stays skipped. */
  lemma SkippedRowStaysSkipped(db: Db, actions: seq<Action>, m: nat, j: nat, x: nat)
    requires m < j <= |actions| && Disciplined(actions)
    requires actions[m].SkipPendingSteps? && actions[m].run in db.runs
    requires RowOfCancelled(DbAt(db, actions, m), actions[m].run, x)
    requires DbAt(db, actions, m).steps[x].status == StepPending
    ensures x in DbAt(db, actions, j).steps && DbAt(db, actions, j).steps[x].status == StepSkipped
    ensures var was, cols := DbAt(db, actions, m).steps[x], DbAt(db, actions, j).steps[x].cols;
            && Value(cols, FinishedAt) == Some(actions[m].now)
            && (forall c | c != FinishedAt :: Value(cols, c) == Value(was.cols, c))
  {
    FrozenRowStays(db, actions, x, m + 1, j);
  }

  /** An UPDATE of one row, by a worker, that takes effect and leaves the row open. */
  ghost predicate Reopens(db: Db, a: Action, x: nat) {
    && a.UpdateStep? && a.step == x && a.stepStatus in {StepRunning, StepPartial}
    && x in db.steps && !Frozen(db, db.steps[x])
  }

  /** Between the statements `i` and `m` a worker set row `x` to running or partial, and
      nothing changed it from then on. */
  ghost predicate StartedBetween(db: Db, actions: seq<Action>, i: nat, m: nat, x: nat)
    requires i < m < |actions|
  {
    exists k | i < k < m :: StartedAt(db, actions, k, m, x)
  }

  ghost predicate StartedAt(db: Db, actions: seq<Action>, k: nat, m: nat, x: nat)
    requires k < m < |actions|
  {
    Reopens(DbAt(db, actions, k), actions[k], x) && SameRow(DbAt(db, actions, k + 1), DbAt(db, actions, m), x)
  }

  /** The rows that escape: one that was open at the first UPDATE at `i` is still open after
      the second one at `m` if and only if a worker started it in between. A row that does
      not escape is frozen for good. */
  lemma {:induction false} RowEscapesIff(db: Db, actions: seq<Action>, i: nat, m: nat, x: nat)
    requires i < m < |actions| && Disciplined(actions)
    requires actions[i].FailRunningSteps? && actions[m].SkipPendingSteps? && actions[m].run == actions[i].run
    requires actions[i].run in db.runs && RowOfCancelled(DbAt(db, actions, i), actions[i].run, x)
    requires DbAt(db, actions, i).steps[x].status in {StepRunning, StepPending}
    ensures x in DbAt(db, actions, m + 1).steps
    ensures !Frozen(DbAt(db, actions, m + 1), DbAt(db, actions, m + 1).steps[x])
            <==> StartedBetween(db, actions, i, m, x)
  {
    var id := actions[i].run;
    RowStays(db, actions, id, x, i, m);
    SkipLeavesOpen(DbAt(db, actions, m), id, actions[m].now, x);
    assert DbAt(db, actions, m + 1) == Apply(DbAt(db, actions, m), actions[m]);
    OpenMeansStarted(db, actions, i, m, x);
    if StartedBetween(db, actions, i, m, x) {
      StartedMeansOpen(db, actions, i, m, x);
    }
  }

  lemma {:induction false} StartedMeansOpen(db: Db, actions: seq<Action>, i: nat, m: nat, x: nat)
    requires i < m < |actions| && StartedBetween(db, actions, i, m, x)
    ensures x in DbAt(db, actions, m).steps && DbAt(db, actions, m).steps[x].status in {StepRunning, StepPartial}
  {
    var k :| i < k < m && StartedAt(db, actions, k, m, x);
    ReopenedIsOpen(DbAt(db, actions, k), actions[k], x);
  }

  lemma {:induction false} OpenMeansStarted(db: Db, actions: seq<Action>, i: nat, m: nat, x: nat)
    requires i < m < |actions| && Disciplined(actions)
    requires actions[i].FailRunningSteps? && actions[i].run in db.runs
    requires RowOfCancelled(DbAt(db, actions, i), actions[i].run, x)
    requires DbAt(db, actions, i).steps[x].status in {StepRunning, StepPending}
    requires x in DbAt(db, actions, m).steps
    ensures DbAt(db, actions, m).steps[x].status in {StepRunning, StepPartial} ==> StartedBetween(db, actions, i, m, x)
  {
    if DbAt(db, actions, m).steps[x].status in {StepRunning, StepPartial} {
      var id := actions[i].run;
      RowStays(db, actions, id, x, i, i + 1);
      FailLeavesClosed(DbAt(db, actions, i), id, actions[i].message, actions[i].now, x);
      var k := LastReopening(db, actions, id, x, i + 1, m);
      assert StartedAt(db, actions, k, m, x);
    }
  }

  /** The second UPDATE leaves open exactly the running and partial rows. */
  lemma SkipLeavesOpen(db: Db, id: nat, now: string, x: nat)
    requires RowOfCancelled(db, id, x)
    ensures var after := Apply(db, SkipPendingSteps(id, now));
            x in after.steps && (!Frozen(after, after.steps[x]) <==> db.steps[x].status in {StepRunning, StepPartial})
  {
  }

  lemma FailLeavesClosed(db: Db, id: nat, message: string, now: string, x: nat)
    requires RowOfCancelled(db, id, x) && db.steps[x].status in {StepRunning, StepPending}
    ensures var after := Apply(db, FailRunningSteps(id, message, now));
            x in after.steps && after.steps[x].status in {StepFailed, StepPending}
  {
  }

  lemma ReopenedIsOpen(db: Db, a: Action, x: nat)
    requires Reopens(db, a, x)
    ensures x in Apply(db, a).steps && Apply(db, a).steps[x].status in {StepRunning, StepPartial}
  {
  }

  ghost predicate SameRow(a: Db, b: Db, x: nat) {
    x in a.steps && x in b.steps && a.steps[x] == b.steps[x]
  }

  /** A cancelled run's rows stay rows of a cancelled run. */
  lemma {:induction false} RowStays(db: Db, actions: seq<Action>, id: nat, x: nat, i: nat, j: nat)
    requires i <= j <= |actions| && Disciplined(actions) && id in db.runs
    requires RowOfCancelled(DbAt(db, actions, i), id, x)
    ensures RowOfCancelled(DbAt(db, actions, j), id, x)
    decreases j
  {
    if i < j {
      RowStays(db, actions, id, x, i, j - 1);
      TerminalRunStaysTerminal(db, actions, id, i, j);
    }
  }

  /** A row of a cancelled run that is running or partial, and was not, was put there. */
  lemma {:induction false} LastReopening(db: Db, actions: seq<Action>, id: nat, x: nat, i: nat, m: nat) returns (k: nat)
    requires i <= m <= |actions| && Disciplined(actions) && id in db.runs
    requires RowOfCancelled(DbAt(db, actions, i), id, x)
    requires DbAt(db, actions, i).steps[x].status !in {StepRunning, StepPartial}
    requires x in DbAt(db, actions, m).steps && DbAt(db, actions, m).steps[x].status in {StepRunning, StepPartial}
    ensures i <= k < m && Reopens(DbAt(db, actions, k), actions[k], x)
    ensures SameRow(DbAt(db, actions, k + 1), DbAt(db, actions, m), x)
    decreases m
  {
    RowStays(db, actions, id, x, i, m - 1);
    var before, after := DbAt(db, actions, m - 1), DbAt(db, actions, m);
    if before.steps[x] == after.steps[x] {
      k := LastReopening(db, actions, id, x, i, m - 1);
    } else {
      k := m - 1;
    }
  }

  /** Such an escape: a worker starts a pending row between the two UPDATEs of a cancel. */
  lemma RowStartedBetweenUpdatesStaysOpen()
    ensures var db := Db(map[1 := Run(Cancelled, map[])], map[7 := Step(1, "n", StepPending, map[])]);
            var actions := [FailRunningSteps(1, "m", "t"), UpdateStep(7, StepRunning, map[]), SkipPendingSteps(1, "t")];
            7 in DbAt(db, actions, 3).steps && DbAt(db, actions, 3).steps[7].status == StepRunning
  {
    var db := Db(map[1 := Run(Cancelled, map[])], map[7 := Step(1, "n", StepPending, map[])]);
    var actions := [FailRunningSteps(1, "m", "t"), UpdateStep(7, StepRunning, map[]), SkipPendingSteps(1, "t")];
    assert DbAt(db, actions, 0) == db;
    assert DbAt(db, actions, 1).steps[7].status == StepPending;
    assert DbAt(db, actions, 2).steps[7].status == StepRunning;
  }

  // ----- The repository's methods -----

  /** `update_run_status`: only the values given are written; an approval state is cleared
      only on request and only when no new one is given. */
  function StatusFields(candidates: Columns, clearApproval: bool): Columns {
    var given := map c | c in candidates && candidates[c].Some? :: candidates[c];
    if Value(candidates, ApprovalState).None? && clearApproval then given[ApprovalState := None] else given
  }

  /** The statuses in which a run has ended. */
  predicate Ended(status: RunStatus) {
    status == Success || status == Failed || status == Cancelled
  }

  /** Run `id` may be changed, `was` to `now`; nothing else may. */
  ghost predicate OnlyRun(was: Db, now: Db, id: nat) {
    && now.steps == was.steps && now.runs.Keys == was.runs.Keys
    && forall x | x in was.runs && x != id :: now.runs[x] == was.runs[x]
  }

  ghost predicate OnlyStep(was: Db, now: Db, id: nat) {
    now.runs == was.runs && now.steps.Keys == was.steps.Keys
    && forall x | x in was.steps && x != id :: now.steps[x] == was.steps[x]
  }

  /** The value that a column of a row gets from a call: what the call gives, else what it was. */
  function Given(candidates: Columns, c: Column, was: Option<string>): Option<string> {
    if c in candidates && candidates[c].Some? then candidates[c] else was
  }

  class RunRepository {
    var db: Db

    constructor (initial: Db)
      ensures db == initial
    {
      db := initial;
    }

    method Transition(run: nat, to: RunStatus, from: Option<set<RunStatus>>, fields: Columns) returns (changed: bool)
      modifies this
      ensures db == Apply(old(db), TransitionRun(run, to, from, fields))
      ensures OnlyRun(old(db), db, run) && (!changed ==> db == old(db))
      ensures changed <==> run in old(db).runs
                           && (if from.Some? then old(db).runs[run].status in from.value
                               else !Ended(old(db).runs[run].status))
      ensures changed ==> db.runs[run].status == to
      ensures changed ==> forall c :: Value(db.runs[run].cols, c)
                                      == if Ended(to) && (c == CurrentNodeId || c == ApprovalState) then None
                                         else if c in fields then fields[c] else Value(old(db).runs[run].cols, c)
    {
      var guard := if from.Some? then from.value else ALL_RUN_STATUSES - TERMINAL_RUN_STATUSES;
      var values := fields;
      if to in TERMINAL_RUN_STATUSES {
        values := values[CurrentNodeId := None][ApprovalState := None];
      }
      changed := false;
      if run in db.runs && db.runs[run].status in guard {
        db := db.(runs := db.runs[run := Run(to, db.runs[run].cols + values)]);
        changed := true;
      }
    }

    /** `record_hatchet_run_id`: one column, whatever the status has become meanwhile. */
    method StoreHatchetRunId(run: nat, hatchetId: string)
      requires run in db.runs
      modifies this
      ensures db == Apply(old(db), RecordHatchetRunId(run, hatchetId)) && OnlyRun(old(db), db, run)
      ensures run in db.runs && db.runs[run].status == old(db).runs[run].status
      ensures forall c :: Value(db.runs[run].cols, c)
                          == if c == HatchetRunId then Some(hatchetId) else Value(old(db).runs[run].cols, c)
    {
      db := db.(runs := db.runs[run := db.runs[run].(cols := db.runs[run].cols[HatchetRunId := Some(hatchetId)])]);
    }

    /** A refused update leaves the row as the other writer made it. */
    method UpdateRunStatus(run: nat, status: RunStatus, candidates: Columns, clearApproval: bool) returns (row: Run)
      requires run in db.runs
      modifies this
      ensures db == Apply(old(db), TransitionRun(run, status, None, StatusFields(candidates, clearApproval)))
      ensures OnlyRun(old(db), db, run) && run in db.runs && row == db.runs[run]
      ensures Ended(old(db).runs[run].status) ==> row == old(db).runs[run]
      ensures !Ended(old(db).runs[run].status) ==>
                && row.status == status
                && forall c :: Value(row.cols, c)
                               == if Ended(status) && (c == CurrentNodeId || c == ApprovalState) then None
                                  else if c == ApprovalState && clearApproval then Given(candidates, c, None)
                                  else Given(candidates, c, Value(old(db).runs[run].cols, c))
    {
      var fields := map c | c in candidates && candidates[c].Some? :: candidates[c];
      if Value(candidates, ApprovalState).None? && clearApproval {
        fields := fields[ApprovalState := None];
      }
      var _ := Transition(run, status, None, fields);
      row := db.runs[run];
    }

    /** Two UPDATE statements, one transaction; `between` is what other sessions did from the
        first to the second. */
    method FinaliseOpenStepResults(run: nat, message: string, now: string, between: seq<Action>)
      modifies this
      ensures var first := Apply(old(db), FailRunningSteps(run, message, now));
              db == Apply(DbAt(first, between, |between|), SkipPendingSteps(run, now))
    {
      db := db.(steps := map x | x in db.steps :: FailRunning(db.steps[x], run, message, now));
      db := DbAt(db, between, |between|);
      db := db.(steps := map x | x in db.steps :: SkipPending(db.steps[x], run, now));
    }

    method UpdateStepResult(step: nat, status: StepStatus, candidates: Columns) returns (row: Step)
      requires step in db.steps
      modifies this
      ensures db == Apply(old(db), UpdateStep(step, status, StatusFields(candidates, false)))
      ensures OnlyStep(old(db), db, step) && step in db.steps && row == db.steps[step]
      ensures var was := old(db).steps[step];
              if was.status in {StepSuccess, StepFailed, StepSkipped}
                 && was.run in old(db).runs && old(db).runs[was.run].status == Cancelled
              then row == was
              else && row.run == was.run && row.node == was.node && row.status == status
                   && forall c :: Value(row.cols, c) == Given(candidates, c, Value(was.cols, c))
    {
      var values := map c | c in candidates && candidates[c].Some? :: candidates[c];
      var current := db.steps[step];
      var cancelledRun := current.run in db.runs && db.runs[current.run].status == Cancelled;
      if !(current.status in TERMINAL_STEP_STATUSES && cancelledRun) {
        db := db.(steps := db.steps[step := current.(status := status, cols := current.cols + values)]);
      }
      row := db.steps[step];
    }

    /** A second delivery of the same node is refused by the unique index. */
    method CreateStepResult(step: nat, run: nat, node: string) returns (created: bool)
      requires step !in db.steps
      modifies this
      ensures db == Apply(old(db), CreateStep(step, run, node))
      ensures created <==> forall x | x in old(db).steps :: old(db).steps[x].run != run || old(db).steps[x].node != node
      ensures created ==> db == old(db).(steps := old(db).steps[step := Step(run, node, StepPending, map[])])
      ensures !created ==> db == old(db)
    {
      created := !StepExists(db, run, node);
      if created {
        db := db.(steps := db.steps[step := Step(run, node, StepPending, map[])]);
      }
    }
  }
}
