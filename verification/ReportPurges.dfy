/** Purge sessions beside writers: a batch is selected in one statement and deleted in a later
    one, and commits fall in between, in any order of their stamps
    (backend/repositories/report_data_records_repository.py). Row ids are drawn before a
    commit, so they need not grow from one commit to the next. */
module ReportPurges {
  import opened Common
  import opened ReportRecords

  /** What the rows of one collection share. */
  datatype Origin = Origin(dataset: string, device: string, at: Timestamp)

  function OriginOf(r: Row): Origin {
    Origin(r.dataset, r.device, r.createdAt)
  }

  /** `selected` holds each session's batch between its SELECT and its DELETE, `made` the
      origin of every collection ever committed. */
  datatype State = State(
    table: Table,
    selected: map<nat, Table>,
    made: map<CollectionId, Origin>,
    clock: Timestamp)

  datatype Action =
    | Select(session: nat, batch: Table, cutoff: Timestamp)
    | Delete(session: nat)
    | Commit(removed: Table, added: Table, collection: CollectionId, origin: Origin)
    | Tick(now: Timestamp)

  /** A commit replaces rows of one dataset and device by a collection of its own, stamped with
      the time at which its transaction began. */
  ghost predicate IsCommit(s: State, removed: Table, added: Table, c: CollectionId, origin: Origin) {
    && added != {} && c !in s.made && UniqueIds(s.table + added) && origin.at <= s.clock
    && (forall a | a in added :: a.collection == c && OriginOf(a) == origin)
    && (forall r | r in removed :: r.dataset == origin.dataset && r.device == origin.device)
  }

  ghost predicate Enabled(s: State, a: Action) {
    match a
    case Select(_, batch, cutoff) => batch <= Purgeable(s.table, cutoff)
    case Delete(p) => p in s.selected
    case Commit(removed, added, c, origin) => IsCommit(s, removed, added, c, origin)
    case Tick(now) => s.clock <= now
  }

  ghost function Apply(s: State, a: Action): State
    requires Enabled(s, a)
  {
    match a
    case Select(p, batch, _) => s.(selected := s.selected[p := batch])
    case Delete(p) => s.(table := s.table - s.selected[p], selected := s.selected - {p})
    case Commit(removed, added, c, origin) =>
      s.(table := s.table - removed + added, made := s.made[c := origin])
    case Tick(now) => s.(clock := now)
  }

  ghost predicate AsMade(rows: Table, made: map<CollectionId, Origin>) {
    forall r | r in rows :: r.collection in made && OriginOf(r) == made[r.collection]
  }

  ghost predicate Sound(s: State) {
    UniqueIds(s.table) && AsMade(s.table, s.made) && forall p | p in s.selected :: AsMade(s.selected[p], s.made)
  }

  lemma StepKeepsSound(s: State, a: Action)
    requires Sound(s) && Enabled(s, a)
    ensures Sound(Apply(s, a))
  {
  }

  ghost predicate IsRun(states: seq<State>, actions: seq<Action>) {
    && |states| == |actions| + 1 && Sound(states[0]) && states[0].selected == map[]
    && forall i | 0 <= i < |actions| ::
         Enabled(states[i], actions[i]) && states[i + 1] == Apply(states[i], actions[i])
  }

  lemma {:induction false} RunIsSound(states: seq<State>, actions: seq<Action>, i: nat)
    requires IsRun(states, actions) && i < |states|
    ensures Sound(states[i])
  {
    if i > 0 {
      RunIsSound(states, actions, i - 1);
      StepKeepsSound(states[i - 1], actions[i - 1]);
    }
  }

  // ----- When a DELETE changes an answer -----

  ghost predicate SameAnswers(t: Table, t': Table) {
    forall dataset, includeEmpty :: Latest(t', dataset, includeEmpty) == Latest(t, dataset, includeEmpty)
  }

  /** No stored row of the batch belongs to a newest collection. */
  ghost predicate Disposable(s: State, batch: Table) {
    forall g | g in batch && g in s.table :: g.collection !in NewestCollections(s.table)
  }

  /** Exactly then its DELETE keeps every latest answer. */
  lemma DeleteKeepsAnswersIff(s: State, p: nat)
    requires Sound(s) && p in s.selected
    ensures SameAnswers(s.table, Apply(s, Delete(p)).table) <==> Disposable(s, s.selected[p])
  {
    var gone := s.selected[p] * s.table;
    assert s.table - s.selected[p] == s.table - gone;
    forall r, q | r in s.table && q in s.table && r.collection == q.collection
      ensures SamePartition(r, q)
    {
      assert OriginOf(r) == OriginOf(q);
    }
    DeletionKeepsLatestIff(s.table, gone);
  }

  // ----- Transactions against retention -----

  /** No DELETE of the run changes a latest answer. */
  ghost predicate DeletesKeepAnswers(states: seq<State>, actions: seq<Action>)
    requires |states| == |actions| + 1
  {
    forall i | 0 <= i < |actions| && actions[i].Delete? :: SameAnswers(states[i].table, states[i + 1].table)
  }

  /** Transactions last at most `longest`, and purges keep at least the last `retention`. */
  ghost predicate InTime(s: State, a: Action, longest: int, retention: int) {
    && (a.Commit? ==> s.clock - a.origin.at <= longest)
    && (a.Select? ==> a.cutoff <= s.clock - retention)
  }

  ghost predicate Timed(states: seq<State>, actions: seq<Action>, longest: int, retention: int)
    requires |states| == |actions| + 1
  {
    forall i | 0 <= i < |actions| :: InTime(states[i], actions[i], longest, retention)
  }

  /** Every batch in hand is older than the retention and outside the newest collections. */
  ghost predicate BatchesDisposable(s: State, retention: int) {
    forall p, g | p in s.selected && g in s.selected[p] ::
      g.createdAt < s.clock - retention && g.collection !in NewestCollections(s.table)
  }

  /** In a partition that a commit does not touch, the first row was first before. */
  lemma FirstElsewhere(t: Table, removed: Table, added: Table, a: Row, r: Row)
    requires a in added && r !in added && RankOne(t - removed + added, r) && r.createdAt < a.createdAt
    requires forall q | q in removed :: SamePartition(a, q)
    ensures RankOne(t, r)
  {
    var after := t - removed + added;
    assert a in after && !Newer(r, a);
    assert !SamePartition(a, r);
    forall q | q in t && SamePartition(q, r)
      ensures q == r || Newer(r, q)
    {
      assert q !in removed;
      assert q in after;
    }
  }

  /** A commit does not bring a collection to the top that was made before it began. */
  lemma CommitExposesNone(s: State, removed: Table, added: Table, c: CollectionId, origin: Origin, before: CollectionId)
    requires Sound(s) && IsCommit(s, removed, added, c, origin)
    requires before in s.made && s.made[before].at < origin.at && before !in NewestCollections(s.table)
    ensures before !in NewestCollections(s.table - removed + added)
  {
    var after := s.table - removed + added;
    if before in NewestCollections(after) {
      var r :| r in after && RankOne(after, r) && r.collection == before;
      var a :| a in added;
      assert OriginOf(r) == s.made[before] && OriginOf(a) == origin;
      FirstElsewhere(s.table, removed, added, a, r);
    }
  }

  lemma StepKeepsBatches(s: State, a: Action, longest: int, retention: int)
    requires Sound(s) && BatchesDisposable(s, retention) && Enabled(s, a)
    requires InTime(s, a, longest, retention) && longest <= retention
    ensures BatchesDisposable(Apply(s, a), retention)
  {
    match a
    case Delete(p) =>
      DeletionKeepsNewest(s.table, s.selected[p]);
    case Commit(removed, added, c, origin) =>
      forall p, g | p in s.selected && g in s.selected[p]
        ensures g.collection !in NewestCollections(s.table - removed + added)
      {
        assert OriginOf(g) == s.made[g.collection];
        CommitExposesNone(s, removed, added, c, origin, g.collection);
      }
    case _ =>
  }

  lemma {:induction false} TimedRunKeepsBatches(
      states: seq<State>, actions: seq<Action>, longest: int, retention: int, i: nat)
    requires IsRun(states, actions) && Timed(states, actions, longest, retention) && longest <= retention
    requires i < |states|
    ensures BatchesDisposable(states[i], retention)
  {
    if i > 0 {
      TimedRunKeepsBatches(states, actions, longest, retention, i - 1);
      RunIsSound(states, actions, i - 1);
      StepKeepsBatches(states[i - 1], actions[i - 1], longest, retention);
    }
  }

  /** Main result: with a retention of at least the longest transaction, deleting a batch
      changes no latest answer, however long ago it was selected, whatever was committed since
      and in whatever order of stamps. */
  lemma DeleteKeepsLatest(states: seq<State>, actions: seq<Action>, longest: int, retention: int)
    requires IsRun(states, actions) && Timed(states, actions, longest, retention) && longest <= retention
    ensures DeletesKeepAnswers(states, actions)
  {
    forall i | 0 <= i < |actions| && actions[i].Delete?
      ensures SameAnswers(states[i].table, states[i + 1].table)
    {
      RunIsSound(states, actions, i);
      TimedRunKeepsBatches(states, actions, longest, retention, i);
      DeleteKeepsAnswersIff(states[i], actions[i].session);
    }
  }

  // ----- A shorter retention is not enough -----

  const OLD := Row(1, "r1", "inv", "o", 1, 0, false, None, None, 0)
  const BACK := Row(0, "r1", "inv", "b", 3, 0, false, Some(1), None, 0)

  function Top(longest: int): Row {
    Row(2, "r1", "inv", "t", 2, 0, false, Some(1), None, longest)
  }

  function Made(longest: int): map<CollectionId, Origin> {
    map[1 := Origin("inv", "r1", 0), 2 := Origin("inv", "r1", longest)]
  }

  /** A batch is selected; a run's writer that began `longest` ago replaces the collection
      above it by one that it stamps with its begin; the batch is deleted. */
  function ExposedActions(longest: int, retention: int): seq<Action> {
    [Select(0, {OLD}, longest - retention), Commit({Top(longest)}, {BACK}, 3, Origin("inv", "r1", 0)), Delete(0)]
  }

  function ExposedStates(longest: int): seq<State> {
    var made := Made(longest)[3 := Origin("inv", "r1", 0)];
    [State({OLD, Top(longest)}, map[], Made(longest), longest),
     State({OLD, Top(longest)}, map[0 := {OLD}], Made(longest), longest),
     State({OLD, BACK}, map[0 := {OLD}], made, longest),
     State({BACK}, map[], made, longest)]
  }

  lemma ExposedSelects(longest: int, retention: int)
    requires 0 <= longest && retention < longest
    ensures var states, a := ExposedStates(longest), ExposedActions(longest, retention)[0];
            Sound(states[0]) && Enabled(states[0], a) && states[1] == Apply(states[0], a)
  {
    var t: Table := {OLD, Top(longest)};
    assert RankOne(t, Top(longest)) && !RankOne(t, OLD);
    assert OLD in Purgeable(t, longest - retention);
  }

  lemma ExposedCommits(longest: int, retention: int)
    requires 0 <= longest && retention < longest
    ensures var states, a := ExposedStates(longest), ExposedActions(longest, retention)[1];
            Enabled(states[1], a) && states[2] == Apply(states[1], a)
  {
    assert BACK in {BACK};
    assert {OLD, Top(longest)} - {Top(longest)} + {BACK} == {OLD, BACK};
  }

  lemma ExposedDeletes(longest: int, retention: int)
    requires 0 <= longest && retention < longest
    ensures var states, a := ExposedStates(longest), ExposedActions(longest, retention)[2];
            && Sound(states[2]) && Enabled(states[2], a) && states[3] == Apply(states[2], a)
            && !SameAnswers(states[2].table, states[3].table)
  {
    var s := ExposedStates(longest)[2];
    assert {OLD, BACK} - {OLD} == {BACK};
    assert map[0 := {OLD}] - {0} == map[];
    assert RankOne(s.table, OLD);
    assert OLD in s.table && OLD.collection in NewestCollections(s.table);
    DeleteKeepsAnswersIff(s, 0);
  }

  /** With any shorter retention a commit can bring a selected collection back to the top, and
      its DELETE then loses the answer. */
  lemma EarlierCommitExposesBatch(longest: int, retention: int)
    requires 0 <= longest && retention < longest
    ensures var states, actions := ExposedStates(longest), ExposedActions(longest, retention);
            && IsRun(states, actions) && Timed(states, actions, longest, retention)
            && !DeletesKeepAnswers(states, actions)
  {
    var states, actions := ExposedStates(longest), ExposedActions(longest, retention);
    ExposedSelects(longest, retention);
    ExposedCommits(longest, retention);
    ExposedDeletes(longest, retention);
    forall i | 0 <= i < |actions|
      ensures Enabled(states[i], actions[i]) && states[i + 1] == Apply(states[i], actions[i])
      ensures InTime(states[i], actions[i], longest, retention)
    {
      assert i == 0 || i == 1 || i == 2;
    }
    assert actions[2].Delete? && !SameAnswers(states[2].table, states[2 + 1].table);
  }

  /** Exactly that retention is needed: if transactions may last `longest`, no DELETE changes a
      latest answer in any run if and only if purges keep at least that long. */
  lemma PurgeRetentionIff(longest: int, retention: int)
    requires 0 <= longest
    ensures (forall states, actions | IsRun(states, actions) && Timed(states, actions, longest, retention) ::
               DeletesKeepAnswers(states, actions))
            <==> longest <= retention
  {
    if longest <= retention {
      forall states, actions | IsRun(states, actions) && Timed(states, actions, longest, retention)
        ensures DeletesKeepAnswers(states, actions)
      {
        DeleteKeepsLatest(states, actions, longest, retention);
      }
    } else {
      EarlierCommitExposesBatch(longest, retention);
    }
  }
}
