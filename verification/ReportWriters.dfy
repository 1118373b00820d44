/** Any number of `replace_rows` writers over one table, interleaved at statement level
    (backend/repositories/report_data_records_repository.py). A writer's DELETE is invisible
    to others until it commits, its check reads what is committed minus its own deletion,
    and insert plus commit is one step that the unique index on (run, dataset, device,
    position) may reject. `created_at` is the begin time of the writing transaction
    (backend/core/models/report_data_records.py). */
module ReportWriters {
  import opened Common
  import opened ReportRecords

  const REPLACE_ATTEMPTS: nat := 2

  /** The arguments of one `replace_rows` call. */
  datatype Job = Job(device: string, dataset: string, rows: seq<string>, run: Option<nat>, node: Option<string>)

  /** What a run's collection is stored under. */
  datatype Key = Key(run: nat, dataset: string, device: string)

  predicate At(r: Row, k: Key) {
    r.run == Some(k.run) && r.dataset == k.dataset && r.device == k.device
  }

  function RowsAt(t: Table, k: Key): Table {
    set r | r in t && At(r, k)
  }

  function KeyOf(j: Job): Key
    requires j.run.Some?
  {
    Key(j.run.value, j.dataset, j.device)
  }

  // ----- One attempt's statements -----

  /** The number of rows written: an empty collection still stores its marker. */
  function RecordCount(j: Job): nat {
    if j.rows == [] then 1 else |j.rows|
  }

  function Record(j: Job, c: CollectionId, firstId: nat, now: Timestamp, p: nat): Row
    requires p < RecordCount(j)
  {
    Row(firstId + p, j.device, j.dataset, if j.rows == [] then "{}" else j.rows[p], c, p,
        j.rows == [], j.run, j.node, now)
  }

  function Records(j: Job, c: CollectionId, firstId: nat, now: Timestamp): Table {
    set p | 0 <= p < RecordCount(j) :: Record(j, c, firstId, now, p)
  }

  /** Another node's row: the writer may not replace it. */
  predicate OtherNode(j: Job, r: Row) {
    j.node.Some? && r.node.Some? && r.node != j.node
  }

  /** The rows the DELETE of an attempt removes: its own node's and those without a node,
      or every row of the key when the writer has no node. */
  function Deletion(j: Job, t: Table): Table {
    if j.run.None? then {} else set r | r in t && At(r, KeyOf(j)) && !OtherNode(j, r)
  }

  /** `_refuse_other_node` finds a row. */
  predicate Refuses(j: Job, visible: Table) {
    j.run.Some? && exists r | r in visible :: At(r, KeyOf(j)) && OtherNode(j, r)
  }

  /** The partial unique index rejects one of the attempt's rows. */
  predicate Collides(j: Job, visible: Table) {
    j.run.Some? && exists r | r in visible :: At(r, KeyOf(j)) && r.position < RecordCount(j)
  }

  // ----- What the call is for, in the columns of the rows -----

  ghost predicate SameKey(j: Job, r: Row) {
    j.run.Some? && r.run == j.run && r.dataset == j.dataset && r.device == j.device
  }

  /** The run's own earlier row: of the writing node, or without a node, or any row when the
      writer has no node. */
  ghost predicate Replaceable(j: Job, r: Row) {
    SameKey(j, r) && (j.node.None? || r.node.None? || r.node == j.node)
  }

  /** Another node of the run wrote the row. */
  ghost predicate Foreign(j: Job, r: Row) {
    SameKey(j, r) && j.node.Some? && r.node.Some? && r.node != j.node
  }

  /** `rows` are what the call stores: one row for each given one, in its place, or one marker
      when nothing was given. */
  ghost predicate Stores(j: Job, c: CollectionId, at: Timestamp, rows: Table) {
    && (forall r | r in rows ::
          && r.collection == c && r.run == j.run && r.node == j.node && r.dataset == j.dataset
          && r.device == j.device && r.createdAt == at
          && (r.isEmpty <==> j.rows == [])
          && (if j.rows == [] then r.position == 0 && r.data == "{}"
              else r.position < |j.rows| && r.data == j.rows[r.position]))
    && (forall r, q | r in rows && q in rows && r.position == q.position :: r == q)
    && HasPosition(rows, 0) && (forall p | 0 <= p < |j.rows| :: HasPosition(rows, p))
  }

  lemma DeletionIs(j: Job, t: Table, r: Row)
    ensures r in Deletion(j, t) <==> r in t && Replaceable(j, r)
  {
  }

  lemma RefusesIs(j: Job, t: Table)
    ensures Refuses(j, t) <==> exists r | r in t :: Foreign(j, r)
  {
    if r :| r in t && Foreign(j, r) {
      assert At(r, KeyOf(j)) && OtherNode(j, r);
    }
    if Refuses(j, t) {
      var r :| r in t && At(r, KeyOf(j)) && OtherNode(j, r);
      assert Foreign(j, r);
    }
  }

  /** The index is hit by a row at a position that the call writes. */
  lemma CollidesIs(j: Job, t: Table)
    ensures Collides(j, t) <==> exists r | r in t :: SameKey(j, r) && (r.position == 0 || r.position < |j.rows|)
  {
    if r :| r in t && SameKey(j, r) && (r.position == 0 || r.position < |j.rows|) {
      assert At(r, KeyOf(j)) && r.position < RecordCount(j);
    }
    if Collides(j, t) {
      var r :| r in t && At(r, KeyOf(j)) && r.position < RecordCount(j);
      assert SameKey(j, r);
    }
  }

  // ----- The interleaved system -----

  datatype Outcome = Wrote | Conflict | IntegrityError | DatabaseError

  /** `begun` is when the attempt's transaction began. */
  datatype Phase =
    | Ready
    | Deleted(removed: Table, begun: Timestamp)
    | Checked(removed: Table, begun: Timestamp)
    | Finished(outcome: Outcome)

  datatype Writer = Writer(job: Job, attempt: nat, phase: Phase)

  /** `used` holds every collection id handed out, `nextId` the row id sequence, `purged`
      the keys whose stored collection a purge has cut into. */
  datatype State = State(
    table: Table,
    writers: map<nat, Writer>,
    used: set<CollectionId>,
    nextId: nat,
    purged: set<Key>,
    clock: Timestamp)

  datatype Action =
    | Arrive(w: nat, job: Job)
    | Delete(w: nat, begun: Timestamp)
    | Check(w: nat)
    | Insert(w: nat, collection: CollectionId)
    | Fail(w: nat)
    | Purge(batch: Table, cutoff: Timestamp)
    | Tick(now: Timestamp)

  predicate InFlight(p: Phase) {
    p.Deleted? || p.Checked?
  }

  /** A purge may delete any rows older than its cutoff, so also rows that it selected some
      time ago. */
  ghost predicate Enabled(s: State, a: Action) {
    match a
    case Arrive(w, _) => w !in s.writers
    case Delete(w, begun) => w in s.writers && s.writers[w].phase.Ready? && begun <= s.clock
    case Check(w) => w in s.writers && s.writers[w].phase.Deleted?
    case Insert(w, c) => w in s.writers && s.writers[w].phase.Checked? && c !in s.used
    case Fail(w) => w in s.writers && !s.writers[w].phase.Finished?
    case Purge(batch, cutoff) => batch <= s.table && forall r | r in batch :: r.createdAt < cutoff
    case Tick(now) => s.clock <= now
  }

  function Moved(s: State, w: nat, phase: Phase): State
    requires w in s.writers
  {
    s.(writers := s.writers[w := s.writers[w].(phase := phase)])
  }

  /** A rejected insert: start over once, then report the integrity error. */
  function Retried(s: State, w: nat): State
    requires w in s.writers
  {
    var x := s.writers[w];
    if x.attempt + 1 < REPLACE_ATTEMPTS && x.job.run.Some?
    then s.(writers := s.writers[w := x.(attempt := x.attempt + 1, phase := Ready)])
    else Moved(s, w, Finished(IntegrityError))
  }

  function Keys(rows: Table): set<Key> {
    set r | r in rows && r.run.Some? :: Key(r.run.value, r.dataset, r.device)
  }

  function Committed(s: State, w: nat, c: CollectionId): State
    requires w in s.writers && s.writers[w].phase.Checked?
  {
    var x := s.writers[w];
    var added := Records(x.job, c, s.nextId, x.phase.begun);
    State(s.table - x.phase.removed + added,
          s.writers[w := x.(phase := Finished(Wrote))],
          s.used + {c},
          s.nextId + RecordCount(x.job),
          s.purged - Keys(added),
          s.clock)
  }

  ghost function Apply(s: State, a: Action): State
    requires Enabled(s, a)
  {
    match a
    case Arrive(w, job) => s.(writers := s.writers[w := Writer(job, 0, Ready)])
    case Delete(w, begun) => Moved(s, w, Deleted(Deletion(s.writers[w].job, s.table), begun))
    case Check(w) =>
      var x := s.writers[w];
      if Refuses(x.job, s.table - x.phase.removed) then Moved(s, w, Finished(Conflict))
      else Moved(s, w, Checked(x.phase.removed, x.phase.begun))
    case Insert(w, c) =>
      var x := s.writers[w];
      if Collides(x.job, s.table - x.phase.removed) then Retried(s, w) else Committed(s, w, c)
    case Fail(w) => Moved(s, w, Finished(DatabaseError))
    case Purge(batch, _) => s.(table := s.table - batch, purged := s.purged + Keys(batch))
    case Tick(now) => s.(clock := now)
  }

  // ----- What holds in every run -----

  /** What a writer in flight has deleted was its own to delete. */
  ghost predicate WriterSound(s: State, x: Writer) {
    && x.attempt < REPLACE_ATTEMPTS
    && (InFlight(x.phase) ==>
          && x.phase.begun <= s.clock
          && forall r | r in x.phase.removed ::
               r.collection in s.used && x.job.run.Some? && At(r, KeyOf(x.job)) && !OtherNode(x.job, r))
  }

  ghost predicate Sound(s: State) {
    && UniqueIds(s.table)
    && (forall r | r in s.table :: r.collection in s.used && r.id < s.nextId)
    && (forall w | w in s.writers :: WriterSound(s, s.writers[w]))
  }

  /** Every collection contains position 0; its rows are one whole collection. */
  lemma RecordsAreWhole(j: Job, c: CollectionId, firstId: nat, now: Timestamp)
    ensures OneCollection(Records(j, c, firstId, now)) && Numbered(Records(j, c, firstId, now), RecordCount(j))
    ensures Record(j, c, firstId, now, 0) in Records(j, c, firstId, now)
    ensures forall r | r in Records(j, c, firstId, now) ::
              r.collection == c && r.run == j.run && r.node == j.node && r.dataset == j.dataset
              && r.device == j.device && r.createdAt == now && firstId <= r.id < firstId + RecordCount(j)
    ensures Stores(j, c, now, Records(j, c, firstId, now))
  {
    var rows := Records(j, c, firstId, now);
    forall p | 0 <= p < RecordCount(j)
      ensures HasPosition(rows, p)
    {
      assert Record(j, c, firstId, now, p) in rows;
    }
    assert Record(j, c, firstId, now, 0) in rows;
  }

  lemma StepKeepsSound(s: State, a: Action)
    requires Sound(s) && Enabled(s, a)
    ensures Sound(Apply(s, a))
  {
    match a
    case Insert(w, c) =>
      if !Collides(s.writers[w].job, s.table - s.writers[w].phase.removed) {
        CommitKeepsSound(s, w, c);
      }
    case _ =>
  }

  lemma CommitKeepsSound(s: State, w: nat, c: CollectionId)
    requires Sound(s) && Enabled(s, Insert(w, c))
    ensures Sound(Committed(s, w, c))
  {
    RecordsAreWhole(s.writers[w].job, c, s.nextId, s.writers[w].phase.begun);
    var s' := Committed(s, w, c);
    forall v | v in s'.writers
      ensures WriterSound(s', s'.writers[v])
    {
      assert WriterSound(s, s.writers[v]);
    }
  }

  ghost predicate Init(s: State) {
    Sound(s) && KeysKept(s) && s.writers == map[]
  }

  ghost predicate IsRun(states: seq<State>, actions: seq<Action>) {
    && |states| == |actions| + 1
    && Init(states[0])
    && forall i | 0 <= i < |actions| ::
         Enabled(states[i], actions[i]) && states[i + 1] == Apply(states[i], actions[i])
  }

  lemma {:induction false} RunIsSound(states: seq<State>, actions: seq<Action>, i: nat)
    requires IsRun(states, actions) && i < |states|
    ensures Sound(states[i])
  {
    if i > 0 {
      RunIsSound(states, actions, i - 1);
      StepKeepsSound(states[i - 1], actions[i - 1]);
    }
  }

  // ----- One collection per key -----

  /** At most one collection: one id, one node, no position twice. */
  ghost predicate OneCollection(rows: Table) {
    forall r, q | r in rows && q in rows ::
      r.collection == q.collection && r.node == q.node && (r.position == q.position ==> r == q)
  }

  ghost predicate HasPosition(rows: Table, p: nat) {
    exists r | r in rows :: r.position == p
  }

  /** Positions are exactly 0..n-1, and an empty marker stands alone. */
  ghost predicate Numbered(rows: Table, n: nat) {
    && n > 0
    && (forall r | r in rows :: r.position < n && (r.isEmpty ==> n == 1))
    && (forall p | 0 <= p < n :: HasPosition(rows, p))
  }

  ghost predicate Whole(rows: Table) {
    rows == {} || exists n: nat :: Numbered(rows, n)
  }

  /** Nothing, or exactly what some call stores. */
  ghost predicate Stored(rows: Table) {
    rows == {} || exists j, c, at :: Stores(j, c, at, rows)
  }

  /** What a call stores is numbered without a gap, and a marker is alone. */
  lemma StoredIsWhole(rows: Table)
    requires Stored(rows)
    ensures Whole(rows)
  {
    if rows != {} {
      var j, c, at :| Stores(j, c, at, rows);
      assert Numbered(rows, if j.rows == [] then 1 else |j.rows|);
    }
  }

  ghost predicate KeyInv(t: Table, purged: set<Key>, k: Key) {
    OneCollection(RowsAt(t, k)) && (k !in purged ==> Stored(RowsAt(t, k)))
  }

  ghost predicate KeysKept(s: State) {
    forall k :: KeyInv(s.table, s.purged, k)
  }

  /** What an insert finds at its key, its own deletion aside. */
  function Leftover(s: State, w: nat): Table
    requires w in s.writers && s.writers[w].phase.Checked? && s.writers[w].job.run.Some?
  {
    RowsAt(s.table - s.writers[w].phase.removed, KeyOf(s.writers[w].job))
  }

  /** An insert meets the index, or finds its key clear. */
  ghost predicate Tidy(s: State, a: Action) {
    a.Insert? && Enabled(s, a) && s.writers[a.w].job.run.Some? ==>
      Collides(s.writers[a.w].job, s.table - s.writers[a.w].phase.removed) || Leftover(s, a.w) == {}
  }

  /** A commit touches its own key only, where it adds its rows to what it found. */
  lemma CommitRowsAt(s: State, w: nat, c: CollectionId, k: Key)
    requires Sound(s) && Enabled(s, Insert(w, c))
    ensures var x := s.writers[w]; var t := Committed(s, w, c).table;
            RowsAt(t, k) == if x.job.run.Some? && KeyOf(x.job) == k
                            then Leftover(s, w) + Records(x.job, c, s.nextId, x.phase.begun)
                            else RowsAt(s.table, k)
  {
    var x := s.writers[w];
    RecordsAreWhole(x.job, c, s.nextId, x.phase.begun);
    assert WriterSound(s, x);
  }

  /** The exact condition: an insert keeps one collection at its key if and only if the index
      rejects it or no row that it did not delete is left there. */
  lemma OneCollectionAfterInsertIff(s: State, w: nat, c: CollectionId)
    requires Sound(s) && KeysKept(s) && Enabled(s, Insert(w, c)) && s.writers[w].job.run.Some?
    ensures OneCollection(RowsAt(Apply(s, Insert(w, c)).table, KeyOf(s.writers[w].job))) <==> Tidy(s, Insert(w, c))
  {
    var x := s.writers[w];
    var k := KeyOf(x.job);
    assert KeyInv(s.table, s.purged, k);
    if !Collides(x.job, s.table - x.phase.removed) {
      CommitRowsAt(s, w, c, k);
      RecordsAreWhole(x.job, c, s.nextId, x.phase.begun);
      var added := Records(x.job, c, s.nextId, x.phase.begun);
      if r :| r in Leftover(s, w) {
        assert r.collection != Record(x.job, c, s.nextId, x.phase.begun, 0).collection;
      } else {
        assert Leftover(s, w) + added == added;
      }
    }
  }

  /** Every other step, a purge beside writers in flight included, keeps every key. */
  lemma TidyStepKeepsKeys(s: State, a: Action)
    requires Sound(s) && KeysKept(s) && Enabled(s, a) && Tidy(s, a)
    ensures KeysKept(Apply(s, a))
  {
    match a
    case Insert(w, c) =>
      if !Collides(s.writers[w].job, s.table - s.writers[w].phase.removed) {
        CommitKeepsKeys(s, w, c);
      }
    case Purge(batch, cutoff) =>
      forall k
        ensures KeyInv(s.table - batch, s.purged + Keys(batch), k)
      {
        assert KeyInv(s.table, s.purged, k);
        if k !in Keys(batch) {
          UntouchedKey(s, batch, k);
        }
      }
    case _ =>
  }

  lemma CommitKeepsKeys(s: State, w: nat, c: CollectionId)
    requires Sound(s) && KeysKept(s) && Enabled(s, Insert(w, c))
    requires s.writers[w].job.run.Some? ==> Leftover(s, w) == {}
    ensures KeysKept(Committed(s, w, c))
  {
    var x := s.writers[w];
    var s' := Committed(s, w, c);
    var added := Records(x.job, c, s.nextId, x.phase.begun);
    RecordsAreWhole(x.job, c, s.nextId, x.phase.begun);
    forall k
      ensures KeyInv(s'.table, s'.purged, k)
    {
      CommitRowsAt(s, w, c, k);
      assert KeyInv(s.table, s.purged, k);
      if x.job.run.Some? && KeyOf(x.job) == k {
        assert Leftover(s, w) + added == added;
      } else {
        assert k !in Keys(added);
      }
    }
  }

  lemma UntouchedKey(s: State, batch: Table, k: Key)
    requires k !in Keys(batch)
    ensures RowsAt(s.table - batch, k) == RowsAt(s.table, k)
  {
    forall r | r in batch && r.run.Some?
      ensures !At(r, k)
    {
      assert Key(r.run.value, r.dataset, r.device) in Keys(batch);
    }
  }

  ghost predicate AlwaysOneCollection(states: seq<State>) {
    forall i, k | 0 <= i < |states| :: OneCollection(RowsAt(states[i].table, k))
  }

  ghost predicate AlwaysTidy(states: seq<State>, actions: seq<Action>)
    requires |states| == |actions| + 1
  {
    forall i | 0 <= i < |actions| :: Tidy(states[i], actions[i])
  }

  lemma {:induction false} TidyRunKeepsKeys(states: seq<State>, actions: seq<Action>, i: nat)
    requires IsRun(states, actions) && i < |states|
    requires forall m | 0 <= m < i :: Tidy(states[m], actions[m])
    ensures KeysKept(states[i])
  {
    if i > 0 {
      TidyRunKeepsKeys(states, actions, i - 1);
      RunIsSound(states, actions, i - 1);
      TidyStepKeepsKeys(states[i - 1], actions[i - 1]);
    }
  }

  lemma {:induction false} OneCollectionMeansTidy(states: seq<State>, actions: seq<Action>, i: nat)
    requires IsRun(states, actions) && AlwaysOneCollection(states) && i <= |actions|
    ensures forall m | 0 <= m < i :: Tidy(states[m], actions[m])
  {
    if i > 0 {
      OneCollectionMeansTidy(states, actions, i - 1);
      TidyRunKeepsKeys(states, actions, i - 1);
      RunIsSound(states, actions, i - 1);
      var s, a := states[i - 1], actions[i - 1];
      if a.Insert? && s.writers[a.w].job.run.Some? {
        OneCollectionAfterInsertIff(s, a.w, a.collection);
        assert OneCollection(RowsAt(states[i].table, KeyOf(s.writers[a.w].job)));
      }
    }
  }

  /** Over whole runs, with purges wherever they fall: no key ever holds two collections if
      and only if every insert met the index or found its key clear; then every key that no
      purge has cut is whole too. */
  lemma OneCollectionIffTidy(states: seq<State>, actions: seq<Action>)
    requires IsRun(states, actions)
    ensures AlwaysOneCollection(states) <==> AlwaysTidy(states, actions)
    ensures AlwaysTidy(states, actions) ==> forall i | 0 <= i < |states| :: KeysKept(states[i])
  {
    if AlwaysOneCollection(states) {
      OneCollectionMeansTidy(states, actions, |actions|);
    }
    if AlwaysTidy(states, actions) {
      forall i | 0 <= i < |states|
        ensures KeysKept(states[i])
      {
        TidyRunKeepsKeys(states, actions, i);
      }
      forall i, k | 0 <= i < |states|
        ensures OneCollection(RowsAt(states[i].table, k))
      {
        assert KeyInv(states[i].table, states[i].purged, k);
      }
    }
  }

  // ----- When every insert is tidy: transactions against retention -----

  /** No transaction in flight is older than `longest`. */
  ghost predicate Timely(s: State, longest: int) {
    forall w | w in s.writers && InFlight(s.writers[w].phase) :: s.clock - s.writers[w].phase.begun <= longest
  }

  /** Transactions last at most `longest`, and purges keep at least the last `retention`. */
  ghost predicate Timed(states: seq<State>, actions: seq<Action>, longest: int, retention: int)
    requires |states| == |actions| + 1
  {
    && (forall i | 0 <= i < |states| :: Timely(states[i], longest))
    && (forall i | 0 <= i < |actions| && actions[i].Purge? :: actions[i].cutoff <= states[i].clock - retention)
  }

  /** A committed row at position 0 that the writer did not delete, and no purge can take
      while the writer is in flight: its insert must fail. */
  ghost predicate Blocked(t: Table, j: Job, removed: Table, since: Timestamp)
    requires j.run.Some?
  {
    exists r | r in t && r !in removed :: At(r, KeyOf(j)) && r.position == 0 && r.createdAt >= since
  }

  /** Between DELETE and commit: either the insert is bound to collide, or everything at the
      key is deleted, except that before the check other nodes' rows may still be there. */
  ghost predicate Covered(t: Table, x: Writer, longest: int)
    requires InFlight(x.phase) && x.job.run.Some?
  {
    || Blocked(t, x.job, x.phase.removed, x.phase.begun - longest)
    || (forall r | r in t && At(r, KeyOf(x.job)) :: r in x.phase.removed || (x.phase.Deleted? && OtherNode(x.job, r)))
  }

  ghost predicate AllCovered(s: State, longest: int) {
    forall w | w in s.writers && InFlight(s.writers[w].phase) && s.writers[w].job.run.Some? ::
      Covered(s.table, s.writers[w], longest)
  }

  /** The key step: a covered insert that does not collide finds nothing left at its key. */
  lemma CoveredInsertIsTidy(s: State, a: Action, longest: int)
    requires AllCovered(s, longest) && Enabled(s, a)
    ensures Tidy(s, a)
  {
    if a.Insert? && s.writers[a.w].job.run.Some? {
      var x := s.writers[a.w];
      assert Covered(s.table, x, longest);
      if r :| r in s.table && r !in x.phase.removed && At(r, KeyOf(x.job)) && r.position == 0 {
        assert r in s.table - x.phase.removed;
      }
    }
  }

  /** After a commit, any other writer in flight on the key is bound to collide. */
  lemma CommitKeepsCover(s: State, w: nat, c: CollectionId, longest: int, x: Writer)
    requires Sound(s) && Timely(s, longest) && Enabled(s, Insert(w, c))
    requires WriterSound(s, x) && InFlight(x.phase) && x.job.run.Some? && Covered(s.table, x, longest)
    ensures Covered(Committed(s, w, c).table, x, longest)
    ensures s.writers[w].job.run.Some? && KeyOf(s.writers[w].job) == KeyOf(x.job) ==>
              Blocked(Committed(s, w, c).table, x.job, x.phase.removed, x.phase.begun - longest)
  {
    var v, t, k := s.writers[w], Committed(s, w, c).table, KeyOf(x.job);
    CommitRowsAt(s, w, c, k);
    if v.job.run.Some? && KeyOf(v.job) == k {
      RecordsAreWhole(v.job, c, s.nextId, v.phase.begun);
      var first := Record(v.job, c, s.nextId, v.phase.begun, 0);
      assert first in RowsAt(t, k) && first !in x.phase.removed;
      assert first.createdAt >= x.phase.begun - longest;
    } else {
      SameRowsSameCover(s.table, t, x, longest);
    }
  }

  lemma SameRowsSameCover(t: Table, t': Table, x: Writer, longest: int)
    requires InFlight(x.phase) && x.job.run.Some? && Covered(t, x, longest)
    requires RowsAt(t', KeyOf(x.job)) == RowsAt(t, KeyOf(x.job))
    ensures Covered(t', x, longest)
  {
    var k := KeyOf(x.job);
    forall r
      ensures r in t' && At(r, k) <==> r in t && At(r, k)
    {
      assert r in RowsAt(t', k) <==> r in RowsAt(t, k);
    }
    var since := x.phase.begun - longest;
    if Blocked(t, x.job, x.phase.removed, since) {
      var r :| r in t && r !in x.phase.removed && At(r, k) && r.position == 0 && r.createdAt >= since;
      assert r in t' && At(r, k);
    }
  }

  /** A purge that keeps two transaction lengths leaves the blocking row alone. */
  lemma PurgeKeepsCover(s: State, batch: Table, cutoff: Timestamp, longest: int, x: Writer)
    requires InFlight(x.phase) && x.job.run.Some? && Covered(s.table, x, longest)
    requires s.clock - x.phase.begun <= longest && cutoff <= s.clock - 2 * longest
    requires Enabled(s, Purge(batch, cutoff))
    ensures Covered(s.table - batch, x, longest)
  {
    var since := x.phase.begun - longest;
    if Blocked(s.table, x.job, x.phase.removed, since) {
      var r :| r in s.table && r !in x.phase.removed && At(r, KeyOf(x.job)) && r.position == 0 && r.createdAt >= since;
      assert r in s.table - batch;
    }
  }

  lemma CheckKeepsCover(s: State, w: nat, longest: int)
    requires Enabled(s, Check(w)) && s.writers[w].job.run.Some? && Covered(s.table, s.writers[w], longest)
    requires !Refuses(s.writers[w].job, s.table - s.writers[w].phase.removed)
    ensures var x := s.writers[w];
            Covered(s.table, x.(phase := Checked(x.phase.removed, x.phase.begun)), longest)
  {
    var x := s.writers[w];
    forall r | r in s.table && At(r, KeyOf(x.job)) && OtherNode(x.job, r)
      ensures r in x.phase.removed
    {
      assert r !in s.table - x.phase.removed;
    }
  }

  lemma StepKeepsCover(s: State, a: Action, longest: int)
    requires Sound(s) && Timely(s, longest) && AllCovered(s, longest) && Enabled(s, a)
    requires a.Purge? ==> a.cutoff <= s.clock - 2 * longest
    ensures AllCovered(Apply(s, a), longest)
  {
    var s' := Apply(s, a);
    forall w | w in s'.writers && InFlight(s'.writers[w].phase) && s'.writers[w].job.run.Some?
      ensures Covered(s'.table, s'.writers[w], longest)
    {
      StepKeepsCoverOf(s, a, longest, w);
    }
  }

  lemma StepKeepsCoverOf(s: State, a: Action, longest: int, w: nat)
    requires Sound(s) && Timely(s, longest) && AllCovered(s, longest) && Enabled(s, a)
    requires a.Purge? ==> a.cutoff <= s.clock - 2 * longest
    requires var s' := Apply(s, a); w in s'.writers && InFlight(s'.writers[w].phase) && s'.writers[w].job.run.Some?
    ensures Covered(Apply(s, a).table, Apply(s, a).writers[w], longest)
  {
    match a
    case Insert(v, c) =>
      if !Collides(s.writers[v].job, s.table - s.writers[v].phase.removed) {
        CommitKeepsCover(s, v, c, longest, s.writers[w]);
      }
    case Purge(batch, cutoff) =>
      PurgeKeepsCover(s, batch, cutoff, longest, s.writers[w]);
    case Check(v) =>
      if v == w {
        CheckKeepsCover(s, w, longest);
      }
    case _ =>
  }

  lemma {:induction false} TimedRunIsCovered(
      states: seq<State>, actions: seq<Action>, longest: int, retention: int, i: nat)
    requires IsRun(states, actions) && Timed(states, actions, longest, retention) && 2 * longest <= retention
    requires i < |states|
    ensures AllCovered(states[i], longest)
  {
    if i > 0 {
      TimedRunIsCovered(states, actions, longest, retention, i - 1);
      RunIsSound(states, actions, i - 1);
      StepKeepsCover(states[i - 1], actions[i - 1], longest);
    }
  }

  lemma TimedRunIsTidy(states: seq<State>, actions: seq<Action>, longest: int, retention: int)
    requires IsRun(states, actions) && Timed(states, actions, longest, retention) && 2 * longest <= retention
    ensures AlwaysTidy(states, actions)
  {
    forall i | 0 <= i < |actions|
      ensures Tidy(states[i], actions[i])
    {
      TimedRunIsCovered(states, actions, longest, retention, i);
      CoveredInsertIsTidy(states[i], actions[i], longest);
    }
  }

  /** Main result: with a retention of at least two transaction lengths, in every reachable
      state each (run, dataset, device) holds rows of at most one collection, and, unless a
      purge cut into it, exactly the rows that one call stores. */
  lemma OneWholeCollectionPerKey(states: seq<State>, actions: seq<Action>, longest: int, retention: int, i: nat, k: Key)
    requires IsRun(states, actions) && Timed(states, actions, longest, retention) && 2 * longest <= retention
    requires i < |states|
    ensures OneCollection(RowsAt(states[i].table, k))
    ensures k !in states[i].purged ==> Stored(RowsAt(states[i].table, k)) && Whole(RowsAt(states[i].table, k))
  {
    TimedRunIsTidy(states, actions, longest, retention);
    OneCollectionIffTidy(states, actions);
    assert KeyInv(states[i].table, states[i].purged, k);
    if k !in states[i].purged {
      StoredIsWhole(RowsAt(states[i].table, k));
    }
  }

  // ----- Ownership -----

  /** Who may remove a stored row: a purge, or a committing writer of the same key that is
      not another node's. */
  ghost predicate MayRemove(s: State, a: Action, r: Row) {
    match a
    case Purge(batch, cutoff) => r in batch && r.createdAt < cutoff
    case Insert(w, _) =>
      w in s.writers && s.writers[w].job.run.Some? && At(r, KeyOf(s.writers[w].job))
      && !OtherNode(s.writers[w].job, r)
    case _ => false
  }

  lemma RemovalIsAuthorised(s: State, a: Action, r: Row)
    requires Sound(s) && Enabled(s, a)
    requires r in s.table && r !in Apply(s, a).table
    ensures MayRemove(s, a, r)
  {
    match a
    case Insert(w, c) =>
      assert WriterSound(s, s.writers[w]);
    case _ =>
  }

  /** Over whole runs: a row that has disappeared was removed by a step entitled to it. */
  lemma {:induction false} OwnedRowsAreSafe(states: seq<State>, actions: seq<Action>, i: nat, j: nat, r: Row)
    returns (m: nat)
    requires IsRun(states, actions) && i <= j < |states|
    requires r in states[i].table && r !in states[j].table
    ensures i <= m < j && r in states[m].table && r !in states[m + 1].table
    ensures MayRemove(states[m], actions[m], r)
    decreases j - i
  {
    if r in states[i + 1].table {
      m := OwnedRowsAreSafe(states, actions, i + 1, j, r);
    } else {
      m := i;
      RunIsSound(states, actions, i);
      RemovalIsAuthorised(states[i], actions[i], r);
    }
  }

  /** While another node's row is stored at its key, a writer's check ends in the conflict
      error, and its insert lands only if it is not tidy; otherwise the table stays. */
  lemma ForeignRowStopsWriter(s: State, a: Action, w: nat, r: Row)
    requires Sound(s) && Enabled(s, a)
    requires a.Check? || a.Insert?
    requires a.w == w && s.writers[w].job.run.Some?
    requires r in s.table && At(r, KeyOf(s.writers[w].job)) && OtherNode(s.writers[w].job, r)
    ensures a.Check? ==> Apply(s, a).writers[w].phase == Finished(Conflict) && Apply(s, a).table == s.table
    ensures a.Insert? ==>
              (Tidy(s, a)
               <==> Apply(s, a).writers[w].phase in {Ready, Finished(IntegrityError)} && Apply(s, a).table == s.table)
  {
    var x := s.writers[w];
    assert WriterSound(s, x);
    assert r in s.table - x.phase.removed;
    if a.Insert? {
      assert r in Leftover(s, w);
    }
  }

  /** Writer `w` has `job` and has not succeeded; `early` if it is not past its check either. */
  predicate NotDone(s: State, w: nat, job: Job, early: bool) {
    && w in s.writers && s.writers[w].job == job && s.writers[w].phase != Finished(Wrote)
    && (early ==> !s.writers[w].phase.Checked?)
  }

  lemma StepKeepsNotDone(s: State, a: Action, w: nat, job: Job, early: bool, r: Row)
    requires Sound(s) && Enabled(s, a) && NotDone(s, w, job, early) && (early || Tidy(s, a))
    requires job.run.Some? && r in s.table && At(r, KeyOf(job)) && OtherNode(job, r)
    ensures NotDone(Apply(s, a), w, job, early)
  {
    if (a.Insert? || a.Check?) && a.w == w {
      ForeignRowStopsWriter(s, a, w, r);
    }
  }

  /** Over whole runs: as long as that row stays, a writer that was not yet past its check
      never succeeds, whatever is purged; in a tidy run no writer does. */
  lemma {:induction false} ForeignRowMeansNoSuccess(
      states: seq<State>, actions: seq<Action>, i: nat, j: nat, w: nat, job: Job, early: bool, r: Row)
    requires IsRun(states, actions) && i <= j < |states| && NotDone(states[i], w, job, early)
    requires early || AlwaysTidy(states, actions)
    requires job.run.Some? && At(r, KeyOf(job)) && OtherNode(job, r)
    requires forall k | i <= k < j :: r in states[k].table
    ensures NotDone(states[j], w, job, early)
    decreases j
  {
    if i < j {
      ForeignRowMeansNoSuccess(states, actions, i, j - 1, w, job, early, r);
      RunIsSound(states, actions, j - 1);
      StepKeepsNotDone(states[j - 1], actions[j - 1], w, job, early, r);
    }
  }

  /** And nothing else stops a writer: a conflict comes with another node's row, a rejection
      with a committed row that the attempt did not delete. */
  lemma ErrorsHaveACause(s: State, a: Action, w: nat)
    requires Enabled(s, a) && (a.Check? || a.Insert?) && a.w == w
    ensures var x, now := s.writers[w], Apply(s, a).writers[w].phase;
            && (a.Check? ==> now in {Checked(x.phase.removed, x.phase.begun), Finished(Conflict)})
            && (now == Finished(Conflict) ==>
                  x.job.run.Some? && exists r | r in s.table :: At(r, KeyOf(x.job)) && OtherNode(x.job, r))
            && (a.Insert? && now != Finished(Wrote) ==>
                  x.job.run.Some? && exists r | r in s.table && r !in x.phase.removed :: At(r, KeyOf(x.job)))
  {
    var x := s.writers[w];
    if a.Check? && Refuses(x.job, s.table - x.phase.removed) {
      var r :| r in s.table - x.phase.removed && At(r, KeyOf(x.job)) && OtherNode(x.job, r);
      assert r in s.table;
    }
    if a.Insert? && Collides(x.job, s.table - x.phase.removed) {
      var r :| r in s.table - x.phase.removed && At(r, KeyOf(x.job)) && r.position < RecordCount(x.job);
      assert r in s.table && r !in x.phase.removed;
    }
  }

  /** In every run: a writer that reports success added exactly its own rows to what it found
      at its key and changed no other key; so its rows are alone there exactly when the insert
      was tidy. One that does not succeed in a step changed nothing. */
  lemma SuccessIsExact(states: seq<State>, actions: seq<Action>, i: nat, w: nat, k: Key)
    requires IsRun(states, actions) && i < |actions|
    requires actions[i].Insert? && actions[i].w == w
    ensures var x := states[i].writers[w]; var before, after := states[i].table, states[i + 1].table;
            if states[i + 1].writers[w].phase == Finished(Wrote)
            then var own := after - before;
                 && Stores(x.job, actions[i].collection, x.phase.begun, own)
                 && (if x.job.run.Some? && KeyOf(x.job) == k
                     then && own <= RowsAt(after, k)
                          && (forall r | r in RowsAt(after, k) - own :: r.position != 0 && r.position >= |x.job.rows|)
                          && (RowsAt(after, k) == own <==> Tidy(states[i], actions[i]))
                     else RowsAt(after, k) == RowsAt(before, k))
            else after == before
  {
    RunIsSound(states, actions, i);
    var s, c := states[i], actions[i].collection;
    var x := s.writers[w];
    if !Collides(x.job, s.table - x.phase.removed) {
      CommitAddsItsRows(s, w, c);
      CommitRowsAt(s, w, c, k);
      if x.job.run.Some? && KeyOf(x.job) == k {
        var own := Records(x.job, c, s.nextId, x.phase.begun);
        forall r | r in Leftover(s, w)
          ensures r in s.table && r !in own && r.position >= RecordCount(x.job)
        {
          assert r in s.table - x.phase.removed;
        }
        if r :| r in Leftover(s, w) {
          assert r in RowsAt(states[i + 1].table, k) && r !in own;
        } else {
          assert Leftover(s, w) + own == own;
        }
      }
    }
  }

  /** What a commit adds is what the call stores. */
  lemma CommitAddsItsRows(s: State, w: nat, c: CollectionId)
    requires Sound(s) && Enabled(s, Insert(w, c))
    ensures var x := s.writers[w]; var own := Committed(s, w, c).table - s.table;
            own == Records(x.job, c, s.nextId, x.phase.begun) && Stores(x.job, c, x.phase.begun, own)
            && (x.job.run.Some? ==> own <= RowsAt(Committed(s, w, c).table, KeyOf(x.job)))
  {
    var x := s.writers[w];
    RecordsAreWhole(x.job, c, s.nextId, x.phase.begun);
    var records := Records(x.job, c, s.nextId, x.phase.begun);
    assert forall r | r in records :: r !in s.table;
    assert Committed(s, w, c).table - s.table == records;
  }

  // ----- The retry is bounded and never stuck -----

  predicate ActsFor(a: Action, w: nat) {
    !a.Purge? && !a.Tick? && a.w == w
  }

  /** Statements a writer can still issue: three per attempt, one to arrive. */
  function Remaining(s: State, w: nat): int {
    if w !in s.writers then 3 * REPLACE_ATTEMPTS + 1
    else
      var x := s.writers[w];
      match x.phase
      case Finished(_) => 0
      case Ready => 3 * (REPLACE_ATTEMPTS - x.attempt)
      case Deleted(_, _) => 3 * (REPLACE_ATTEMPTS - x.attempt) - 1
      case Checked(_, _) => 3 * (REPLACE_ATTEMPTS - x.attempt) - 2
  }

  function StepsOf(actions: seq<Action>, w: nat): nat {
    if actions == [] then 0
    else StepsOf(actions[..|actions| - 1], w) + if ActsFor(actions[|actions| - 1], w) then 1 else 0
  }

  /** Each statement of a writer uses one up; the others' statements do not count. */
  lemma StepUsesUpOne(s: State, a: Action, w: nat)
    requires Sound(s) && Enabled(s, a)
    ensures 0 <= Remaining(Apply(s, a), w) <= Remaining(s, w) - if ActsFor(a, w) then 1 else 0
  {
    if w in s.writers {
      assert s.writers[w].attempt < REPLACE_ATTEMPTS;
    }
    match a
    case Arrive(_, _) =>
    case Delete(_, _) =>
    case Check(_) =>
    case Insert(_, _) =>
    case Fail(_) =>
    case Purge(_, _) =>
    case Tick(_) =>
  }

  /** No writer issues more than seven statements, however the others interleave. */
  lemma {:induction false} RetryIsBounded(states: seq<State>, actions: seq<Action>, i: nat, w: nat)
    requires IsRun(states, actions) && i < |states|
    ensures StepsOf(actions[..i], w) + Remaining(states[i], w) <= 7
    ensures Remaining(states[i], w) >= 0
  {
    if i > 0 {
      RetryIsBounded(states, actions, i - 1, w);
      RunIsSound(states, actions, i - 1);
      StepUsesUpOne(states[i - 1], actions[i - 1], w);
      assert actions[..i][..i - 1] == actions[..i - 1];
      assert actions[..i][i - 1] == actions[i - 1];
    }
  }

  /** A new writer has two attempts: a rejection of the first starts the second, one of the
      second, or of a runless write, is reported. */
  lemma RejectedOnceTriesAgain(s: State, w: nat, c: CollectionId, job: Job)
    ensures w !in s.writers ==> Apply(s, Arrive(w, job)).writers[w] == Writer(job, 0, Ready)
    ensures Enabled(s, Insert(w, c)) && Collides(s.writers[w].job, s.table - s.writers[w].phase.removed) ==>
              var x, now := s.writers[w], Apply(s, Insert(w, c)).writers[w];
              && now.job == x.job && Apply(s, Insert(w, c)).table == s.table
              && (if x.attempt == 0 then now.attempt == 1 && now.phase == Ready
                  else now.phase == Finished(IntegrityError))
  {
  }

  /** An unfinished writer always has a statement to issue, whatever the others did. */
  lemma WriterIsNeverStuck(s: State, w: nat, c: CollectionId)
    requires w in s.writers && !s.writers[w].phase.Finished? && c !in s.used
    ensures Enabled(s, Delete(w, s.clock)) || Enabled(s, Check(w)) || Enabled(s, Insert(w, c))
  {
  }

  // ----- A shorter retention is not enough -----

  const RIVAL_A := Job("r1", "inv", ["a", "b"], Some(1), None)
  const RIVAL_B := Job("r1", "inv", ["x"], Some(1), None)
  const RUNLESS := Job("r1", "inv", ["z"], None, None)
  const RACE_KEY := Key(1, "inv", "r1")
  const A0 := Row(0, "r1", "inv", "a", 7, 0, false, Some(1), None, 0)
  const A1 := Row(1, "r1", "inv", "b", 7, 1, false, Some(1), None, 0)

  function Z(longest: int): Row {
    Row(2, "r1", "inv", "z", 8, 0, false, None, None, longest)
  }

  /** The table with the three writers in these phases. */
  function Race(t: Table, a: Phase, b: Phase, z: Phase, used: set<CollectionId>, nextId: nat, clock: Timestamp): State {
    State(t, map[1 := Writer(RIVAL_A, 0, a), 2 := Writer(RIVAL_B, 0, b), 3 := Writer(RUNLESS, 0, z)],
          used, nextId, {}, clock)
  }

  /** Writer 2 deletes just before writer 1, which began `longest` earlier, commits; a runless
      collection supersedes that one; and just before writer 2 would take longer than
      `longest`, a purge takes the first row of it. */
  function RaceActions(longest: int, retention: int): seq<Action> {
    [Arrive(1, RIVAL_A), Arrive(2, RIVAL_B), Arrive(3, RUNLESS), Delete(1, 0), Tick(longest),
     Delete(2, longest), Delete(3, longest), Check(1), Check(2), Check(3),
     Insert(1, 7), Insert(3, 8), Tick(2 * longest), Purge({A0}, 2 * longest - retention), Insert(2, 9)]
  }

  function RaceCut(longest: int): State {
    State({A1, Z(longest)},
          map[1 := Writer(RIVAL_A, 0, Finished(Wrote)), 2 := Writer(RIVAL_B, 0, Checked({}, longest)),
              3 := Writer(RUNLESS, 0, Finished(Wrote))],
          {7, 8}, 3, {RACE_KEY}, 2 * longest)
  }

  function RaceState(longest: int, i: nat): State {
    var wrote, late := Finished(Wrote), Checked({}, longest);
    if i == 0 then State({}, map[], {}, 0, {}, 0)
    else if i == 1 then State({}, map[1 := Writer(RIVAL_A, 0, Ready)], {}, 0, {}, 0)
    else if i == 2 then State({}, map[1 := Writer(RIVAL_A, 0, Ready), 2 := Writer(RIVAL_B, 0, Ready)], {}, 0, {}, 0)
    else if i == 3 then Race({}, Ready, Ready, Ready, {}, 0, 0)
    else if i == 4 then Race({}, Deleted({}, 0), Ready, Ready, {}, 0, 0)
    else if i == 5 then Race({}, Deleted({}, 0), Ready, Ready, {}, 0, longest)
    else if i == 6 then Race({}, Deleted({}, 0), Deleted({}, longest), Ready, {}, 0, longest)
    else if i == 7 then Race({}, Deleted({}, 0), Deleted({}, longest), Deleted({}, longest), {}, 0, longest)
    else if i == 8 then Race({}, Checked({}, 0), Deleted({}, longest), Deleted({}, longest), {}, 0, longest)
    else if i == 9 then Race({}, Checked({}, 0), late, Deleted({}, longest), {}, 0, longest)
    else if i == 10 then Race({}, Checked({}, 0), late, late, {}, 0, longest)
    else if i == 11 then Race({A0, A1}, wrote, late, late, {7}, 2, longest)
    else if i == 12 then Race({A0, A1, Z(longest)}, wrote, late, wrote, {7, 8}, 3, longest)
    else if i == 13 then Race({A0, A1, Z(longest)}, wrote, late, wrote, {7, 8}, 3, 2 * longest)
    else if i == 14 then RaceCut(longest)
    else
      State({A1, Z(longest)} + Records(RIVAL_B, 9, 3, longest),
            RaceCut(longest).writers[2 := Writer(RIVAL_B, 0, wrote)], {7, 8, 9}, 4, {}, 2 * longest)
  }

  ghost predicate Follows(s: State, a: Action, s': State) {
    Enabled(s, a) && s' == Apply(s, a)
  }

  lemma RaceOpens(longest: int)
    requires longest >= 0
    ensures Follows(RaceState(longest, 0), Arrive(1, RIVAL_A), RaceState(longest, 1))
    ensures Follows(RaceState(longest, 1), Arrive(2, RIVAL_B), RaceState(longest, 2))
    ensures Follows(RaceState(longest, 2), Arrive(3, RUNLESS), RaceState(longest, 3))
  {
  }

  lemma RaceDeletes(longest: int)
    requires longest >= 0
    ensures Follows(RaceState(longest, 3), Delete(1, 0), RaceState(longest, 4))
    ensures Follows(RaceState(longest, 4), Tick(longest), RaceState(longest, 5))
    ensures Follows(RaceState(longest, 5), Delete(2, longest), RaceState(longest, 6))
    ensures Follows(RaceState(longest, 6), Delete(3, longest), RaceState(longest, 7))
  {
    assert Deletion(RIVAL_A, {}) == {} && Deletion(RIVAL_B, {}) == {};
  }

  lemma RaceChecks(longest: int)
    requires longest >= 0
    ensures Follows(RaceState(longest, 7), Check(1), RaceState(longest, 8))
    ensures Follows(RaceState(longest, 8), Check(2), RaceState(longest, 9))
    ensures Follows(RaceState(longest, 9), Check(3), RaceState(longest, 10))
  {
    var none: Table := {};
    assert none - none == none;
  }

  lemma RaceFirstCommits(longest: int)
    requires longest >= 0
    ensures Follows(RaceState(longest, 10), Insert(1, 7), RaceState(longest, 11))
  {
    assert A0 == Record(RIVAL_A, 7, 0, 0, 0) && A1 == Record(RIVAL_A, 7, 0, 0, 1);
    assert Records(RIVAL_A, 7, 0, 0) == {A0, A1};
    var none: Table := {};
    assert none - none + {A0, A1} == {A0, A1};
  }

  lemma RaceRunlessCommits(longest: int)
    requires longest >= 0
    ensures Follows(RaceState(longest, 11), Insert(3, 8), RaceState(longest, 12))
    ensures Follows(RaceState(longest, 12), Tick(2 * longest), RaceState(longest, 13))
  {
    assert Z(longest) == Record(RUNLESS, 8, 2, longest, 0);
    assert Records(RUNLESS, 8, 2, longest) == {Z(longest)};
    assert {A0, A1} - {} + {Z(longest)} == {A0, A1, Z(longest)};
  }

  lemma RacePurges(longest: int, retention: int)
    requires longest >= 0 && retention < 2 * longest
    ensures Follows(RaceState(longest, 13), Purge({A0}, 2 * longest - retention), RaceState(longest, 14))
  {
    assert {A0, A1, Z(longest)} - {A0} == {A1, Z(longest)};
    assert Keys({A0}) == {RACE_KEY};
  }

  lemma RaceEnds(longest: int)
    requires longest >= 0
    ensures Follows(RaceState(longest, 14), Insert(2, 9), RaceState(longest, 15))
    ensures !Tidy(RaceState(longest, 14), Insert(2, 9))
  {
    var cut := RaceCut(longest);
    assert A1 in Leftover(cut, 2);
    var added := Records(RIVAL_B, 9, 3, longest);
    assert Record(RIVAL_B, 9, 3, longest, 0) in added;
    assert Keys(added) == {RACE_KEY};
    assert cut.table - {} == cut.table;
    assert {7, 8} + {9} == {7, 8, 9};
    assert cut.purged - Keys(added) == {};
  }

  /** What the purge takes is what its query selects. */
  lemma RacePurgeIsSelected(longest: int, retention: int)
    requires longest >= 0 && retention < 2 * longest
    ensures {A0} <= Purgeable(RaceState(longest, 13).table, 2 * longest - retention)
  {
    var t: Table := {A0, A1, Z(longest)};
    assert RankOne(t, Z(longest)) && !RankOne(t, A0) && !RankOne(t, A1);
    assert A0 in Purgeable(t, 2 * longest - retention);
  }

  lemma RaceStarts(longest: int)
    ensures Init(RaceState(longest, 0))
  {
    forall k
      ensures KeyInv({}, {}, k)
    {
      assert RowsAt({}, k) == {};
    }
  }

  lemma RaceStep(longest: int, retention: int, i: nat)
    requires longest >= 0 && retention < 2 * longest && i < 15
    ensures Follows(RaceState(longest, i), RaceActions(longest, retention)[i], RaceState(longest, i + 1))
  {
    if i < 3 {
      RaceOpens(longest);
    } else if i < 7 {
      RaceDeletes(longest);
    } else if i < 10 {
      RaceChecks(longest);
    } else if i < 13 {
      RaceFirstCommits(longest);
      RaceRunlessCommits(longest);
    } else {
      RacePurges(longest, retention);
      RaceEnds(longest);
    }
  }

  lemma RaceIsTimely(longest: int, i: nat)
    requires longest >= 0 && i < 16
    ensures Timely(RaceState(longest, i), longest)
  {
    var s := RaceState(longest, i);
    forall w | w in s.writers && InFlight(s.writers[w].phase)
      ensures s.clock - s.writers[w].phase.begun <= longest
    {
      assert w in {1, 2, 3};
    }
  }

  function RaceStates(longest: int): seq<State> {
    seq(16, i requires 0 <= i < 16 => RaceState(longest, i))
  }

  lemma RaceIsTimed(longest: int, retention: int)
    requires longest >= 0
    ensures Timed(RaceStates(longest), RaceActions(longest, retention), longest, retention)
  {
    var states, actions := RaceStates(longest), RaceActions(longest, retention);
    forall i | 0 <= i < 16
      ensures Timely(states[i], longest)
    {
      RaceIsTimely(longest, i);
    }
    assert actions[13] == Purge({A0}, 2 * longest - retention) && states[13].clock == 2 * longest;
  }

  lemma {:induction false} RaceIsARun(longest: int, retention: int)
    requires longest >= 0 && retention < 2 * longest
    ensures IsRun(RaceStates(longest), RaceActions(longest, retention))
  {
    var states, actions := RaceStates(longest), RaceActions(longest, retention);
    forall i | 0 <= i < 15
      ensures Enabled(states[i], actions[i]) && states[i + 1] == Apply(states[i], actions[i])
    {
      RaceStep(longest, retention, i);
    }
    RaceStarts(longest);
  }

  /** That is a run with those times in which two collections land at one key. */
  lemma {:induction false} ShortRetentionMixesCollections(longest: int, retention: int)
    requires longest >= 0 && retention < 2 * longest
    ensures IsRun(RaceStates(longest), RaceActions(longest, retention))
    ensures Timed(RaceStates(longest), RaceActions(longest, retention), longest, retention)
    ensures !AlwaysOneCollection(RaceStates(longest))
  {
    RaceIsARun(longest, retention);
    RaceIsTimed(longest, retention);
    RaceEnds(longest);
    var states, actions := RaceStates(longest), RaceActions(longest, retention);
    assert !Tidy(states[14], actions[14]);
    OneCollectionIffTidy(states, actions);
  }

  /** The guarantee needs exactly that retention: if transactions may last `longest`, no key
      ever holds two collections in any run if and only if purges keep at least twice that. */
  lemma RetentionIff(longest: int, retention: int)
    requires longest >= 0
    ensures (forall states, actions | IsRun(states, actions) && Timed(states, actions, longest, retention) ::
               AlwaysOneCollection(states))
            <==> 2 * longest <= retention
  {
    if 2 * longest <= retention {
      forall states, actions | IsRun(states, actions) && Timed(states, actions, longest, retention)
        ensures AlwaysOneCollection(states)
      {
        TimedRunIsTidy(states, actions, longest, retention);
        OneCollectionIffTidy(states, actions);
      }
    } else {
      ShortRetentionMixesCollections(longest, retention);
    }
  }
}
