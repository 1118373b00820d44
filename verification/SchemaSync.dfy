/** Bringing a live schema to the shape of the models: analysis, creation of what is
    missing, column changes (backend/migrations/auto_schema.py) and the migration that runs
    them in sequence (backend/core/schema_manager.py). */
module SchemaSync {
  import opened Common
  import opened ColumnTypes

  const SKIP_TABLES: set<string> := {"schema_migrations", "alembic_version"}

  datatype ModelColumn = ModelColumn(kind: SqlType, nullable: bool, primaryKey: bool)

  /** `indexes` maps each named index to whether it is unique. */
  datatype ModelTable = ModelTable(columns: map<string, ModelColumn>, indexes: map<string, bool>)

  type Model = map<string, ModelTable>

  datatype Column = Column(kind: SqlType, nullable: bool)

  datatype Table = Table(columns: map<string, Column>, indexes: map<string, bool>)

  type Live = map<string, Table>

  /** One statement sent to the database. */
  datatype Ddl =
    | CreateTable(table: string)
    | AddColumn(table: string, name: string)
    | CreateIndex(table: string, name: string)
    | AlterType(table: string, name: string)
    | AlterNull(table: string, name: string)

  /** Which statements the database accepts. */
  type Accepts = Ddl -> bool

  type Pair = (string, string)

  // ----- Analysis -----

  predicate Managed(m: Model, t: string) {
    t in m && t !in SKIP_TABLES
  }

  function MissingTables(m: Model, l: Live): set<string> {
    set t | t in m && Managed(m, t) && t !in l
  }

  predicate ColumnMissing(m: Model, l: Live, t: string, c: string) {
    && Managed(m, t) && t in l && c in m[t].columns && c !in l[t].columns
    && !m[t].columns[c].primaryKey
  }

  function MissingColumns(m: Model, l: Live): set<Pair> {
    set t, c | t in m && c in m[t].columns && ColumnMissing(m, l, t, c) :: (t, c)
  }

  predicate IndexMissing(m: Model, l: Live, t: string, i: string) {
    Managed(m, t) && t in l && i in m[t].indexes && i !in l[t].indexes
  }

  function MissingIndexes(m: Model, l: Live): set<Pair> {
    set t, i | t in m && i in m[t].indexes && IndexMissing(m, l, t, i) :: (t, i)
  }

  /** `missing_unique_indexes`. */
  function MissingUnique(m: Model, l: Live): set<Pair> {
    set t, i | t in m && i in m[t].indexes && IndexMissing(m, l, t, i) && m[t].indexes[i] :: (t, i)
  }

  datatype ColumnDiff = ColumnDiff(table: string, name: string, db: Column, model: Column) {
    predicate TypeChanged() {
      db.kind != model.kind
    }
    predicate NullableChanged() {
      db.nullable != model.nullable
    }
    /** Adding NOT NULL is risky; otherwise the type change decides. */
    predicate IsSafe() {
      if NullableChanged() && !model.nullable then false
      else if !TypeChanged() then true
      else Safe(db.kind, model.kind)
    }
  }

  function Wanted(c: ModelColumn): Column {
    Column(c.kind, c.nullable)
  }

  /** A non-key column that both sides have, but differently. */
  predicate Differs(m: Model, l: Live, t: string, c: string) {
    && Managed(m, t) && t in l && c in m[t].columns && c in l[t].columns
    && !m[t].columns[c].primaryKey
    && l[t].columns[c] != Wanted(m[t].columns[c])
  }

  function DiffOf(m: Model, l: Live, t: string, c: string): ColumnDiff
    requires Differs(m, l, t, c)
  {
    ColumnDiff(t, c, l[t].columns[c], Wanted(m[t].columns[c]))
  }

  function ColumnDiffs(m: Model, l: Live): set<ColumnDiff> {
    set t, c | t in m && c in m[t].columns && Differs(m, l, t, c) :: DiffOf(m, l, t, c)
  }

  // ----- What the statements make of the live schema -----

  /** CREATE TABLE creates the columns and the indexes. */
  function Fresh(t: ModelTable): Table {
    Table(map c | c in t.columns :: Wanted(t.columns[c]), t.indexes)
  }

  function WithTables(m: Model, l: Live, names: set<string>): Live
    requires names <= m.Keys
  {
    l + map t | t in names :: Fresh(m[t])
  }

  function WithColumns(m: Model, l: Live, pairs: set<Pair>): Live {
    map t | t in l ::
      if t in m
      then l[t].(columns := l[t].columns + map c | c in m[t].columns && (t, c) in pairs :: Wanted(m[t].columns[c]))
      else l[t]
  }

  function WithIndexes(m: Model, l: Live, pairs: set<Pair>): Live {
    map t | t in l ::
      if t in m
      then l[t].(indexes := l[t].indexes + map i | i in m[t].indexes && (t, i) in pairs :: m[t].indexes[i])
      else l[t]
  }

  function AcceptedTables(m: Model, l: Live, ok: Accepts): set<string> {
    set t | t in MissingTables(m, l) && ok(CreateTable(t))
  }

  function AcceptedColumns(m: Model, l: Live, ok: Accepts): set<Pair> {
    set p | p in MissingColumns(m, l) && ok(AddColumn(p.0, p.1))
  }

  function AcceptedIndexes(m: Model, l: Live, ok: Accepts): set<Pair> {
    set p | p in MissingIndexes(m, l) && ok(CreateIndex(p.0, p.1))
  }

  function AfterTables(m: Model, l: Live, ok: Accepts): Live {
    WithTables(m, l, AcceptedTables(m, l, ok))
  }

  function AfterColumns(m: Model, l: Live, ok: Accepts): Live {
    WithColumns(m, AfterTables(m, l, ok), AcceptedColumns(m, AfterTables(m, l, ok), ok))
  }

  /** The live schema when `run` has issued everything. */
  function Synced(m: Model, l: Live, ok: Accepts): Live {
    WithIndexes(m, AfterColumns(m, l, ok), AcceptedIndexes(m, AfterColumns(m, l, ok), ok))
  }

  ghost predicate AcceptsAll(ok: Accepts) {
    forall d :: ok(d)
  }

  // ----- Nothing already present is removed -----

  /** Every table, column and index of `l` is in `l'`, unchanged. */
  ghost predicate Extends(l: Live, l': Live) {
    forall t | t in l ::
      && t in l'
      && (forall c | c in l[t].columns :: c in l'[t].columns && l'[t].columns[c] == l[t].columns[c])
      && (forall i | i in l[t].indexes :: i in l'[t].indexes && l'[t].indexes[i] == l[t].indexes[i])
  }

  lemma ExtendsTransitive(a: Live, b: Live, c: Live)
    requires Extends(a, b) && Extends(b, c)
    ensures Extends(a, c)
  {
  }

  lemma TablesExtend(m: Model, l: Live, names: set<string>)
    requires names <= MissingTables(m, l)
    ensures Extends(l, WithTables(m, l, names))
  {
  }

  lemma ColumnsExtend(m: Model, l: Live, pairs: set<Pair>)
    requires pairs <= MissingColumns(m, l)
    ensures Extends(l, WithColumns(m, l, pairs))
  {
    forall t, c | t in l && c in l[t].columns
      ensures (t, c) !in pairs
    {
      assert (t, c) !in MissingColumns(m, l);
    }
  }

  lemma IndexesExtend(m: Model, l: Live, pairs: set<Pair>)
    requires pairs <= MissingIndexes(m, l)
    ensures Extends(l, WithIndexes(m, l, pairs))
  {
    forall t, i | t in l && i in l[t].indexes
      ensures (t, i) !in pairs
    {
      assert (t, i) !in MissingIndexes(m, l);
    }
  }

  /** Nothing is lost, whatever the database accepts or refuses. */
  lemma SyncRemovesNothing(m: Model, l: Live, ok: Accepts)
    ensures Extends(l, Synced(m, l, ok))
  {
    var a, b := AfterTables(m, l, ok), AfterColumns(m, l, ok);
    TablesExtend(m, l, AcceptedTables(m, l, ok));
    ColumnsExtend(m, a, AcceptedColumns(m, a, ok));
    IndexesExtend(m, b, AcceptedIndexes(m, b, ok));
    ExtendsTransitive(l, a, b);
    ExtendsTransitive(l, b, Synced(m, l, ok));
  }

  // ----- Convergence -----

  lemma TablesConverge(m: Model, l: Live, ok: Accepts)
    requires AcceptsAll(ok)
    ensures MissingTables(m, AfterTables(m, l, ok)) == {}
  {
    assert AcceptedTables(m, l, ok) == MissingTables(m, l);
  }

  lemma ColumnsConverge(m: Model, l: Live, pairs: set<Pair>)
    requires MissingColumns(m, l) <= pairs
    ensures MissingColumns(m, WithColumns(m, l, pairs)) == {}
  {
    var l' := WithColumns(m, l, pairs);
    forall t, c | t in m && c in m[t].columns
      ensures !ColumnMissing(m, l', t, c)
    {
      if ColumnMissing(m, l, t, c) {
        assert (t, c) in MissingColumns(m, l);
      }
    }
  }

  lemma IndexesConverge(m: Model, l: Live, pairs: set<Pair>)
    requires MissingIndexes(m, l) <= pairs
    ensures MissingIndexes(m, WithIndexes(m, l, pairs)) == {}
  {
    var l' := WithIndexes(m, l, pairs);
    forall t, i | t in m && i in m[t].indexes
      ensures !IndexMissing(m, l', t, i)
    {
      if IndexMissing(m, l, t, i) {
        assert (t, i) in MissingIndexes(m, l);
      }
    }
  }

  /** Main result: if the database accepts everything, nothing is missing afterwards. */
  lemma {:induction false} SyncConverges(m: Model, l: Live, ok: Accepts)
    requires AcceptsAll(ok)
    ensures var l' := Synced(m, l, ok);
            MissingTables(m, l') == {} && MissingColumns(m, l') == {} && MissingIndexes(m, l') == {}
  {
    var a, b := AfterTables(m, l, ok), AfterColumns(m, l, ok);
    TablesConverge(m, l, ok);
    assert AcceptedColumns(m, a, ok) == MissingColumns(m, a);
    ColumnsConverge(m, a, AcceptedColumns(m, a, ok));
    assert AcceptedIndexes(m, b, ok) == MissingIndexes(m, b);
    IndexesConverge(m, b, AcceptedIndexes(m, b, ok));
    var l' := Synced(m, l, ok);
    assert MissingTables(m, l') == MissingTables(m, a);
    assert MissingColumns(m, l') == MissingColumns(m, b);
  }

  /** A second run finds nothing to do. */
  lemma {:induction false} SecondRunIsIdle(m: Model, l: Live, ok: Accepts, again: Accepts)
    requires AcceptsAll(ok)
    ensures var l' := Synced(m, l, ok);
            && AcceptedTables(m, l', again) == {} && AcceptedColumns(m, AfterTables(m, l', again), again) == {}
            && AcceptedIndexes(m, AfterColumns(m, l', again), again) == {}
            && Synced(m, l', again) == l'
  {
    var l' := Synced(m, l, ok);
    SyncConverges(m, l, ok);
    assert AfterTables(m, l', again) == l';
    assert AfterColumns(m, l', again) == l' by {
      assert AcceptedColumns(m, l', again) == {};
      NothingToAdd(m, l');
    }
    NothingToAdd(m, l');
  }

  lemma NothingToAdd(m: Model, l: Live)
    ensures WithColumns(m, l, {}) == l && WithIndexes(m, l, {}) == l
  {
    forall t | t in l && t in m
      ensures WithColumns(m, l, {})[t] == l[t] && WithIndexes(m, l, {})[t] == l[t]
    {
      assert l[t].columns + map[] == l[t].columns && l[t].indexes + map[] == l[t].indexes;
    }
  }

  // ----- The result, table by table -----

  /** A model table that is not one of the two bookkeeping tables. */
  predicate Kept(m: Model, t: string) {
    t in m && t != "schema_migrations" && t != "alembic_version"
  }

  /** The columns of table `t` after all statements for them: a table exists if it did or was
      created; an old one gains the accepted missing columns that are no keys, a new one has
      all of the model's; nothing else changes. */
  ghost predicate ColumnsAsIssued(m: Model, l: Live, l': Live, ok: Accepts, t: string) {
    && (t in l' <==> t in l || (Kept(m, t) && ok(CreateTable(t))))
    && (t in l' ==> forall c ::
          c in l'[t].columns
          <==> if t !in l then c in m[t].columns
               else c in l[t].columns
                    || (Kept(m, t) && c in m[t].columns && !m[t].columns[c].primaryKey && ok(AddColumn(t, c))))
    && (t in l' ==> forall c | c in l'[t].columns ::
          l'[t].columns[c] == if t in l && c in l[t].columns then l[t].columns[c]
                              else Column(m[t].columns[c].kind, m[t].columns[c].nullable))
  }

  /** The same for its indexes, with their uniqueness. */
  ghost predicate IndexesAsIssued(m: Model, l: Live, l': Live, ok: Accepts, t: string)
    requires t in l' && (t in l || t in m)
  {
    && (forall i ::
          i in l'[t].indexes
          <==> if t !in l then i in m[t].indexes
               else i in l[t].indexes || (Kept(m, t) && i in m[t].indexes && ok(CreateIndex(t, i))))
    && (forall i | i in l'[t].indexes ::
          l'[t].indexes[i] == if t in l && i in l[t].indexes then l[t].indexes[i] else m[t].indexes[i])
  }

  /** Main result for `run`, whatever the database accepts: that is what it leaves. */
  lemma SyncedColumns(m: Model, l: Live, ok: Accepts, t: string)
    ensures ColumnsAsIssued(m, l, Synced(m, l, ok), ok, t)
  {
    var a := AfterTables(m, l, ok);
    assert t in a <==> t in l || (Kept(m, t) && ok(CreateTable(t)));
    if t in a {
      AfterColumnsAre(m, a, ok, t);
      assert Synced(m, l, ok)[t].columns == AfterColumns(m, l, ok)[t].columns;
    }
  }

  /** The columns of a table `t` of `a` after the accepted additions. */
  lemma AfterColumnsAre(m: Model, a: Live, ok: Accepts, t: string)
    requires t in a
    ensures var b := WithColumns(m, a, AcceptedColumns(m, a, ok));
            && t in b
            && (forall c :: c in b[t].columns
                  <==> c in a[t].columns
                       || (Kept(m, t) && c in m[t].columns && !m[t].columns[c].primaryKey && ok(AddColumn(t, c))))
            && (forall c | c in b[t].columns ::
                  b[t].columns[c] == if c in a[t].columns then a[t].columns[c]
                                     else Column(m[t].columns[c].kind, m[t].columns[c].nullable))
  {
    if t in m {
      forall c | c in m[t].columns
        ensures (t, c) in AcceptedColumns(m, a, ok) <==> ColumnMissing(m, a, t, c) && ok(AddColumn(t, c))
      {
      }
    }
  }

  lemma SyncedIndexes(m: Model, l: Live, ok: Accepts, t: string)
    requires t in Synced(m, l, ok)
    ensures t in l || t in m
    ensures IndexesAsIssued(m, l, Synced(m, l, ok), ok, t)
  {
    AfterIndexesAre(m, AfterColumns(m, l, ok), ok, t);
  }

  /** The indexes of a table `t` of `b` after the accepted additions. */
  lemma AfterIndexesAre(m: Model, b: Live, ok: Accepts, t: string)
    requires t in b
    ensures var l' := WithIndexes(m, b, AcceptedIndexes(m, b, ok));
            && t in l'
            && (forall i :: i in l'[t].indexes
                  <==> i in b[t].indexes || (Kept(m, t) && i in m[t].indexes && ok(CreateIndex(t, i))))
            && (forall i | i in l'[t].indexes ::
                  l'[t].indexes[i] == if i in b[t].indexes then b[t].indexes[i] else m[t].indexes[i])
  {
    if t in m {
      forall i | i in m[t].indexes
        ensures (t, i) in AcceptedIndexes(m, b, ok) <==> IndexMissing(m, b, t, i) && ok(CreateIndex(t, i))
      {
      }
    }
  }

  /** Table `t` of the model is there with every column that is no key and every index, a new one
      exactly as in the model; a bookkeeping table or one that is not the model's is untouched. */
  ghost predicate HoldsTheModel(m: Model, l: Live, l': Live, t: string) {
    if Kept(m, t) then
      && t in l' && m[t].indexes.Keys <= l'[t].indexes.Keys
      && (forall c | c in m[t].columns && !m[t].columns[c].primaryKey :: c in l'[t].columns)
      && (t !in l ==> l'[t].columns.Keys == m[t].columns.Keys && l'[t].indexes == m[t].indexes)
    else (t in l' <==> t in l) && (t in l ==> l'[t] == l[t])
  }

  lemma IssuedHoldsTheModel(m: Model, l: Live, l': Live, ok: Accepts, t: string)
    requires AcceptsAll(ok) && ColumnsAsIssued(m, l, l', ok, t)
    requires t in l' ==> (t in l || t in m) && IndexesAsIssued(m, l, l', ok, t)
    ensures HoldsTheModel(m, l, l', t)
  {
    if t in l && !Kept(m, t) {
      assert l'[t].columns == l[t].columns && l'[t].indexes == l[t].indexes;
    }
  }

  /** And if the database accepts everything, the live schema holds the model. */
  lemma SyncedHoldsTheModel(m: Model, l: Live, ok: Accepts, t: string)
    requires AcceptsAll(ok)
    ensures HoldsTheModel(m, l, Synced(m, l, ok), t)
  {
    SyncedColumns(m, l, ok, t);
    if t in Synced(m, l, ok) {
      SyncedIndexes(m, l, ok, t);
    }
    IssuedHoldsTheModel(m, l, Synced(m, l, ok), ok, t);
  }

  /** What the analysis lists. */
  lemma AnalysisIs(m: Model, l: Live, t: string, x: string)
    ensures t in MissingTables(m, l) <==> Kept(m, t) && t !in l
    ensures (t, x) in MissingColumns(m, l)
            <==> && Kept(m, t) && t in l && x in m[t].columns && x !in l[t].columns && !m[t].columns[x].primaryKey
    ensures (t, x) in MissingIndexes(m, l) <==> Kept(m, t) && t in l && x in m[t].indexes && x !in l[t].indexes
    ensures (t, x) in MissingUnique(m, l)
            <==> Kept(m, t) && t in l && x in m[t].indexes && x !in l[t].indexes && m[t].indexes[x]
  {
  }

  // ----- Column changes -----

  /** The columns a migration changes. */
  function Chosen(m: Model, l: Live, force: bool): set<ColumnDiff> {
    set d | d in ColumnDiffs(m, l) && (d.IsSafe() || force)
  }

  /** One column: the type first, then the nullability; a refused statement ends the column. */
  function Altered(d: ColumnDiff, c: Column, ok: Accepts): Column {
    if d.TypeChanged() && !ok(AlterType(d.table, d.name)) then c
    else
      var typed := if d.TypeChanged() then c.(kind := d.model.kind) else c;
      if d.NullableChanged() && ok(AlterNull(d.table, d.name)) then typed.(nullable := d.model.nullable) else typed
  }

  /** The column as the diffs in `done`, computed on `base`, leave it. */
  function AlteredAt(m: Model, base: Live, l: Live, done: set<ColumnDiff>, ok: Accepts, t: string, c: string): Column
    requires t in l && c in l[t].columns
  {
    if Differs(m, base, t, c) && DiffOf(m, base, t, c) in done
    then Altered(DiffOf(m, base, t, c), l[t].columns[c], ok)
    else l[t].columns[c]
  }

  function AfterDiffs(m: Model, base: Live, l: Live, done: set<ColumnDiff>, ok: Accepts): Live {
    map t | t in l ::
      l[t].(columns := map c | c in l[t].columns :: AlteredAt(m, base, l, done, ok, t, c))
  }

  /** What a column is after `run`: what it was, or what the model wants. */
  lemma {:induction false} SyncedColumn(m: Model, l: Live, ok: Accepts, t: string, c: string)
    requires t in Synced(m, l, ok) && c in Synced(m, l, ok)[t].columns && Managed(m, t) && c in m[t].columns
    ensures Synced(m, l, ok)[t].columns[c]
            == if t in l && c in l[t].columns then l[t].columns[c] else Wanted(m[t].columns[c])
  {
    SyncRemovesNothing(m, l, ok);
  }

  /** `run` neither adds nor removes a column difference. */
  lemma SyncKeepsDiffs(m: Model, l: Live, ok: Accepts, t: string, c: string)
    ensures Differs(m, Synced(m, l, ok), t, c) <==> Differs(m, l, t, c)
    ensures Differs(m, l, t, c) ==> DiffOf(m, Synced(m, l, ok), t, c) == DiffOf(m, l, t, c)
  {
    var l' := Synced(m, l, ok);
    SyncRemovesNothing(m, l, ok);
    if Managed(m, t) && c in m[t].columns && t in l' && c in l'[t].columns {
      SyncedColumn(m, l, ok, t, c);
    }
  }

  /** The live schema a migration leaves. */
  function Migrated(m: Model, l: Live, force: bool, ok: Accepts): Live {
    AfterDiffs(m, l, Synced(m, l, ok), Chosen(m, l, force), ok)
  }

  lemma MigratedColumn(m: Model, l: Live, force: bool, ok: Accepts, t: string, c: string)
    requires AcceptsAll(ok)
    ensures Differs(m, Migrated(m, l, force, ok), t, c)
            <==> Differs(m, l, t, c) && !DiffOf(m, l, t, c).IsSafe() && !force
    ensures Differs(m, Migrated(m, l, force, ok), t, c) ==>
              DiffOf(m, Migrated(m, l, force, ok), t, c) == DiffOf(m, l, t, c)
  {
    SyncKeepsDiffs(m, l, ok, t, c);
    if Differs(m, l, t, c) {
      var d := DiffOf(m, l, t, c);
      assert d in ColumnDiffs(m, l);
      assert d in Chosen(m, l, force) <==> d.IsSafe() || force;
      assert Altered(d, d.db, ok) == d.model;
    }
  }

  /** Main result: when every statement succeeds, a migration leaves exactly the differences
      that were unsafe to begin with, and none at all when forced. */
  lemma {:induction false} MigrationLeavesExactlyTheUnsafe(m: Model, l: Live, force: bool, ok: Accepts)
    requires AcceptsAll(ok)
    ensures ColumnDiffs(m, Migrated(m, l, force, ok))
            == if force then {} else set d | d in ColumnDiffs(m, l) && !d.IsSafe()
  {
    var l' := Migrated(m, l, force, ok);
    var left := if force then {} else set d | d in ColumnDiffs(m, l) && !d.IsSafe();
    forall d | d in ColumnDiffs(m, l')
      ensures d in left
    {
      var t, c :| t in m && c in m[t].columns && Differs(m, l', t, c) && d == DiffOf(m, l', t, c);
      MigratedColumn(m, l, force, ok, t, c);
      assert d in ColumnDiffs(m, l);
    }
    forall d | d in left
      ensures d in ColumnDiffs(m, l')
    {
      var t, c :| t in m && c in m[t].columns && Differs(m, l, t, c) && d == DiffOf(m, l, t, c);
      MigratedColumn(m, l, force, ok, t, c);
    }
  }

  /** A column that both sides have, not a key, and that differs in type or nullability. */
  predicate Unlike(m: Model, l: Live, t: string, c: string) {
    && Kept(m, t) && t in l && c in m[t].columns && c in l[t].columns && !m[t].columns[c].primaryKey
    && (l[t].columns[c].kind != m[t].columns[c].kind || l[t].columns[c].nullable != m[t].columns[c].nullable)
  }

  /** Its change adds no NOT NULL, and its type changes safely. */
  predicate Harmless(m: Model, l: Live, t: string, c: string)
    requires Unlike(m, l, t, c)
  {
    && (m[t].columns[c].nullable || !l[t].columns[c].nullable)
    && (l[t].columns[c].kind == m[t].columns[c].kind || Safe(l[t].columns[c].kind, m[t].columns[c].kind))
  }

  /** The analysis lists exactly the unlike columns, with both sides, and calls safe exactly the
      harmless ones. */
  lemma ColumnDiffsAre(m: Model, l: Live, t: string, c: string)
    ensures Unlike(m, l, t, c)
            <==> exists d | d in ColumnDiffs(m, l) :: d.table == t && d.name == c
    ensures forall d | d in ColumnDiffs(m, l) && d.table == t && d.name == c ::
              && Unlike(m, l, t, c) && d.db == l[t].columns[c]
              && d.model == Column(m[t].columns[c].kind, m[t].columns[c].nullable)
              && (d.IsSafe() <==> Harmless(m, l, t, c))
  {
    if Unlike(m, l, t, c) {
      assert DiffOf(m, l, t, c) in ColumnDiffs(m, l);
    }
    forall d | d in ColumnDiffs(m, l) && d.table == t && d.name == c
      ensures Differs(m, l, t, c) && d == DiffOf(m, l, t, c)
    {
    }
  }

  /** What a migration makes of a column that was there, whatever is accepted: the columns it
      chooses get the model's type if that statement is not refused, and then its nullability;
      every other one stays. */
  lemma MigratedColumnIs(m: Model, l: Live, force: bool, ok: Accepts, t: string, c: string)
    requires t in l && c in l[t].columns
    ensures var l' := Migrated(m, l, force, ok);
            && t in l' && c in l'[t].columns
            && l'[t].columns[c]
               == if !Unlike(m, l, t, c) || !(force || Harmless(m, l, t, c)) then l[t].columns[c]
                  else
                    var was, want := l[t].columns[c], m[t].columns[c];
                    if was.kind != want.kind && !ok(AlterType(t, c)) then was
                    else Column(want.kind, if ok(AlterNull(t, c)) then want.nullable else was.nullable)
  {
    SyncRemovesNothing(m, l, ok);
    ColumnDiffsAre(m, l, t, c);
    if Unlike(m, l, t, c) {
      var d := DiffOf(m, l, t, c);
      assert d in ColumnDiffs(m, l);
      assert d in Chosen(m, l, force) <==> force || Harmless(m, l, t, c);
    }
  }

  /** Columns that `run` added, and indexes, are as it left them. */
  lemma MigratedKeepsTheRest(m: Model, l: Live, force: bool, ok: Accepts, t: string, c: string)
    ensures var l', s := Migrated(m, l, force, ok), Synced(m, l, ok);
            && (t in l' <==> t in s)
            && (t in s ==> l'[t].indexes == s[t].indexes && (c in l'[t].columns <==> c in s[t].columns))
            && (t in s && c in s[t].columns && !(t in l && c in l[t].columns) ==> l'[t].columns[c] == s[t].columns[c])
  {
  }

  /** Without force an unsafe column is never touched, even when statements fail. */
  lemma UnsafeColumnsAreLeftAlone(m: Model, l: Live, ok: Accepts, d: ColumnDiff)
    requires d in ColumnDiffs(m, l) && !d.IsSafe()
    ensures d in ColumnDiffs(m, Migrated(m, l, false, ok))
  {
    var t, c :| t in m && c in m[t].columns && Differs(m, l, t, c) && d == DiffOf(m, l, t, c);
    SyncKeepsDiffs(m, l, ok, t, c);
    assert d !in Chosen(m, l, false);
    var l' := Migrated(m, l, false, ok);
    assert l'[t].columns[c] == l[t].columns[c];
    assert Differs(m, l', t, c) && DiffOf(m, l', t, c) == d;
  }

  // ----- Stored values -----

  /** What a column may hold: NULL only when it is nullable, else a value of its type. */
  predicate Holds(c: Column, v: Option<Value>) {
    if v.None? then c.nullable else Inhabits(v.value, c.kind)
  }

  /** Every stored value survives a safe column change as a value the new column may hold. */
  lemma SafeChangeKeepsValues(d: ColumnDiff, v: Option<Value>, zone: Zone)
    requires d.IsSafe() && Holds(d.db, v)
    ensures Holds(d.model, if v.None? then None else Some(Cast(v.value, d.model.kind, zone)))
  {
    if v.Some? {
      assert Safe(d.db.kind, d.model.kind);
      SafeCastFits(v.value, d.db.kind, d.model.kind, zone);
    }
  }
}
