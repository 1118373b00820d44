/** The schema synchroniser as it runs: the inspector it reads, the live schema it changes
    statement by statement (backend/migrations/auto_schema.py) and the migration sequence
    (backend/core/schema_manager.py). Nobody else changes the schema meanwhile. */
module SchemaMigration {
  import opened Common
  import opened SchemaSync

  datatype SchemaDiff = SchemaDiff(
    missingTables: set<string>, missingColumns: set<Pair>, columnDiffs: set<ColumnDiff>, missingIndexes: set<Pair>)

  datatype Stats = Stats(tablesCreated: nat, columnsAdded: nat, indexesCreated: nat)

  /** The columns changed, skipped and refused, in order. */
  datatype ApplyResult = ApplyResult(succeeded: seq<ColumnDiff>, skipped: seq<ColumnDiff>, failed: seq<ColumnDiff>)

  // ----- One table's part of the analysis -----

  function Only(m: Model, t: string): Model
    requires t in m
  {
    map[t := m[t]]
  }

  function Among(m: Model, names: set<string>): Model {
    map t | t in names && t in m :: m[t]
  }

  lemma AnalysisByTable(m: Model, l: Live, done: set<string>, t: string)
    requires t in m && done <= m.Keys
    ensures var next := Among(m, done + {t}); var now := Among(m, done);
            && MissingColumns(next, l) == MissingColumns(now, l) + MissingColumns(Only(m, t), l)
            && ColumnDiffs(next, l) == ColumnDiffs(now, l) + ColumnDiffs(Only(m, t), l)
            && MissingIndexes(next, l) == MissingIndexes(now, l) + MissingIndexes(Only(m, t), l)
  {
    var next, now, one := Among(m, done + {t}), Among(m, done), Only(m, t);
    forall p: Pair
      ensures p in MissingColumns(next, l) <==> p in MissingColumns(now, l) + MissingColumns(one, l)
      ensures p in MissingIndexes(next, l) <==> p in MissingIndexes(now, l) + MissingIndexes(one, l)
    {
    }
    forall u, c
      ensures Differs(next, l, u, c) <==> Differs(now, l, u, c) || Differs(one, l, u, c)
      ensures Differs(now, l, u, c) ==> DiffOf(now, l, u, c) == DiffOf(next, l, u, c)
      ensures Differs(one, l, u, c) ==> DiffOf(one, l, u, c) == DiffOf(next, l, u, c)
    {
    }
    DiffsByTable(next, now, one, l);
  }

  lemma DiffsByTable(next: Model, now: Model, one: Model, l: Live)
    requires now.Keys <= next.Keys && one.Keys <= next.Keys
    requires forall u | u in now :: now[u] == next[u]
    requires forall u | u in one :: one[u] == next[u]
    requires forall u, c :: Differs(next, l, u, c) <==> Differs(now, l, u, c) || Differs(one, l, u, c)
    ensures ColumnDiffs(next, l) == ColumnDiffs(now, l) + ColumnDiffs(one, l)
  {
    forall d | d in ColumnDiffs(next, l)
      ensures d in ColumnDiffs(now, l) + ColumnDiffs(one, l)
    {
      var u, c :| u in next && c in next[u].columns && Differs(next, l, u, c) && d == DiffOf(next, l, u, c);
      if Differs(now, l, u, c) {
        assert d == DiffOf(now, l, u, c);
      } else {
        assert d == DiffOf(one, l, u, c);
      }
    }
    forall d | d in ColumnDiffs(now, l)
      ensures d in ColumnDiffs(next, l)
    {
      var u, c :| u in now && c in now[u].columns && Differs(now, l, u, c) && d == DiffOf(now, l, u, c);
      assert d == DiffOf(next, l, u, c);
    }
    forall d | d in ColumnDiffs(one, l)
      ensures d in ColumnDiffs(next, l)
    {
      var u, c :| u in one && c in one[u].columns && Differs(one, l, u, c) && d == DiffOf(one, l, u, c);
      assert d == DiffOf(next, l, u, c);
    }
  }

  // ----- Adding one thing at a time -----

  lemma OneMoreTable(m: Model, l: Live, done: set<string>, t: string)
    requires done <= m.Keys && t in m
    ensures WithTables(m, l, done + {t}) == WithTables(m, l, done)[t := Fresh(m[t])]
  {
  }

  lemma OtherTableKeepsColumns(m: Model, l: Live, done: set<Pair>, p: Pair, u: string)
    requires u in l && u != p.0
    ensures WithColumns(m, l, done + {p})[u] == WithColumns(m, l, done)[u]
  {
    if u in m {
      assert (map x | x in m[u].columns && (u, x) in done + {p} :: Wanted(m[u].columns[x]))
          == (map x | x in m[u].columns && (u, x) in done :: Wanted(m[u].columns[x]));
    }
  }

  lemma OneMoreColumn(m: Model, l: Live, done: set<Pair>, t: string, c: string)
    requires t in m && t in l && c in m[t].columns
    ensures var now := WithColumns(m, l, done);
            && t in now
            && WithColumns(m, l, done + {(t, c)})
               == now[t := now[t].(columns := now[t].columns[c := Wanted(m[t].columns[c])])]
  {
    var now, next := WithColumns(m, l, done), WithColumns(m, l, done + {(t, c)});
    forall u | u in l && u != t
      ensures next[u] == now[u]
    {
      OtherTableKeepsColumns(m, l, done, (t, c), u);
    }
    OneMoreColumnHere(m, l, done, t, c);
  }

  lemma OneMoreColumnHere(m: Model, l: Live, done: set<Pair>, t: string, c: string)
    requires t in m && t in l && c in m[t].columns
    ensures WithColumns(m, l, done + {(t, c)})[t].columns
            == WithColumns(m, l, done)[t].columns[c := Wanted(m[t].columns[c])]
    ensures WithColumns(m, l, done + {(t, c)})[t].indexes == WithColumns(m, l, done)[t].indexes
  {
  }

  lemma OtherTableKeepsIndexes(m: Model, l: Live, done: set<Pair>, p: Pair, u: string)
    requires u in l && u != p.0
    ensures WithIndexes(m, l, done + {p})[u] == WithIndexes(m, l, done)[u]
  {
    if u in m {
      assert (map x | x in m[u].indexes && (u, x) in done + {p} :: m[u].indexes[x])
          == (map x | x in m[u].indexes && (u, x) in done :: m[u].indexes[x]);
    }
  }

  lemma OneMoreIndex(m: Model, l: Live, done: set<Pair>, t: string, i: string)
    requires t in m && t in l && i in m[t].indexes
    ensures var now := WithIndexes(m, l, done);
            && t in now
            && WithIndexes(m, l, done + {(t, i)})
               == now[t := now[t].(indexes := now[t].indexes[i := m[t].indexes[i]])]
  {
    var now, next := WithIndexes(m, l, done), WithIndexes(m, l, done + {(t, i)});
    forall u | u in l && u != t
      ensures next[u] == now[u]
    {
      OtherTableKeepsIndexes(m, l, done, (t, i), u);
    }
    OneMoreIndexHere(m, l, done, t, i);
  }

  lemma OneMoreIndexHere(m: Model, l: Live, done: set<Pair>, t: string, i: string)
    requires t in m && t in l && i in m[t].indexes
    ensures WithIndexes(m, l, done + {(t, i)})[t].indexes
            == WithIndexes(m, l, done)[t].indexes[i := m[t].indexes[i]]
    ensures WithIndexes(m, l, done + {(t, i)})[t].columns == WithIndexes(m, l, done)[t].columns
  {
  }

  class AutoSchemaMigration {
    const model: Model
    var live: Live
    var inspector: Live

    constructor (model: Model, live: Live)
      ensures this.model == model && this.live == live && inspector == live
    {
      this.model, this.live, inspector := model, live, live;
    }

    /** `analyze`: table by table, from the inspector; changes nothing. */
    method Analyze() returns (diff: SchemaDiff)
      ensures diff == SchemaDiff(MissingTables(model, inspector), MissingColumns(model, inspector),
                                 ColumnDiffs(model, inspector), MissingIndexes(model, inspector))
    {
      diff := SchemaDiff(MissingTables(model, inspector), {}, {}, {});
      var left := model.Keys;
      while left != {}
        invariant left <= model.Keys
        invariant diff.missingTables == MissingTables(model, inspector)
        invariant var part := Among(model, model.Keys - left);
                  && diff.missingColumns == MissingColumns(part, inspector)
                  && diff.columnDiffs == ColumnDiffs(part, inspector)
                  && diff.missingIndexes == MissingIndexes(part, inspector)
        decreases |left|
      {
        var t :| t in left;
        var one := Only(model, t);
        AnalysisByTable(model, inspector, model.Keys - left, t);
        assert model.Keys - (left - {t}) == (model.Keys - left) + {t};
        left := left - {t};
        diff := diff.(missingColumns := diff.missingColumns + MissingColumns(one, inspector),
                      columnDiffs := diff.columnDiffs + ColumnDiffs(one, inspector),
                      missingIndexes := diff.missingIndexes + MissingIndexes(one, inspector));
      }
      assert Among(model, model.Keys) == model;
    }

    /** `create_tables`. */
    method CreateTables(names: set<string>, ok: Accepts) returns (created: set<string>)
      requires names <= model.Keys
      modifies this`live
      ensures created == set t | t in names && ok(CreateTable(t))
      ensures live == WithTables(model, old(live), created)
    {
      created := {};
      var left := names;
      ghost var accepted := set t | t in names && ok(CreateTable(t));
      assert WithTables(model, live, {}) == live;
      while left != {}
        invariant left <= names && created <= accepted <= created + left
        invariant live == WithTables(model, old(live), created)
        decreases |left|
      {
        var t :| t in left;
        left := left - {t};
        if ok(CreateTable(t)) {
          OneMoreTable(model, old(live), created, t);
          live := live[t := Fresh(model[t])];
          created := created + {t};
        }
      }
    }

    /** `create_missing_tables`. */
    method CreateMissingTables(ok: Accepts) returns (created: set<string>)
      requires inspector == live
      modifies this`live
      ensures created == AcceptedTables(model, old(live), ok)
      ensures live == AfterTables(model, old(live), ok)
    {
      created := CreateTables(MissingTables(model, inspector), ok);
    }

    /** `add_columns`: key columns are skipped. */
    method AddColumns(pairs: set<Pair>, ok: Accepts) returns (added: set<Pair>)
      requires forall p | p in pairs :: p.0 in model && p.0 in live && p.1 in model[p.0].columns
      modifies this`live
      ensures added == set p | p in pairs && !model[p.0].columns[p.1].primaryKey && ok(AddColumn(p.0, p.1))
      ensures live == WithColumns(model, old(live), added)
    {
      added := {};
      var left := pairs;
      ghost var accepted := set p | p in pairs && !model[p.0].columns[p.1].primaryKey && ok(AddColumn(p.0, p.1));
      NothingToAdd(model, live);
      while left != {}
        invariant left <= pairs && added <= accepted <= added + left
        invariant live == WithColumns(model, old(live), added)
        decreases |left|
      {
        var p :| p in left;
        left := left - {p};
        var (t, c) := p;
        if model[t].columns[c].primaryKey {
          continue;
        }
        if ok(AddColumn(t, c)) {
          OneMoreColumn(model, old(live), added, t, c);
          live := live[t := live[t].(columns := live[t].columns[c := Wanted(model[t].columns[c])])];
          added := added + {p};
        }
      }
    }

    /** `add_missing_columns`: every absent column is listed, key columns too. */
    method AddMissingColumns(ok: Accepts) returns (added: set<Pair>)
      requires inspector == live
      modifies this`live
      ensures added == AcceptedColumns(model, old(live), ok)
      ensures live == WithColumns(model, old(live), added)
    {
      var pairs := set t, c | t in model && Managed(model, t) && t in inspector && c in model[t].columns
                              && c !in inspector[t].columns :: (t, c);
      added := AddColumns(pairs, ok);
      AbsentColumns(model, inspector, pairs, ok);
    }

    /** `create_indexes`. */
    method CreateIndexes(pairs: set<Pair>, ok: Accepts) returns (created: set<Pair>)
      requires forall p | p in pairs :: p.0 in model && p.0 in live && p.1 in model[p.0].indexes
      modifies this`live
      ensures created == set p | p in pairs && ok(CreateIndex(p.0, p.1))
      ensures live == WithIndexes(model, old(live), created)
    {
      created := {};
      var left := pairs;
      ghost var accepted := set p | p in pairs && ok(CreateIndex(p.0, p.1));
      NothingToAdd(model, live);
      while left != {}
        invariant left <= pairs && created <= accepted <= created + left
        invariant live == WithIndexes(model, old(live), created)
        decreases |left|
      {
        var p :| p in left;
        left := left - {p};
        var (t, i) := p;
        if ok(CreateIndex(t, i)) {
          OneMoreIndex(model, old(live), created, t, i);
          live := live[t := live[t].(indexes := live[t].indexes[i := model[t].indexes[i]])];
          created := created + {p};
        }
      }
    }

    /** `create_missing_indexes`: the inspector has seen the tables, and no index has been
        created since. */
    method CreateMissingIndexes(ok: Accepts) returns (created: set<Pair>)
      requires MissingIndexes(model, inspector) == MissingIndexes(model, live)
      modifies this`live
      ensures created == AcceptedIndexes(model, old(live), ok)
      ensures live == WithIndexes(model, old(live), created)
    {
      created := CreateIndexes(MissingIndexes(model, inspector), ok);
    }

    /** `run`: it returns normally exactly when every unique index of the models' tables
        exists, whatever statements failed; otherwise it names the ones that do not. */
    method Run(ok: Accepts) returns (r: Result<Stats, set<Pair>>)
      requires inspector == live
      modifies this
      ensures live == Synced(model, old(live), ok) && inspector == live
      ensures r.Ok? <==> UniqueIndexesExist(model, live)
      ensures r.Err? ==> forall t, i :: (t, i) in r.error
                                        <==> && Kept(model, t) && t in live && i in model[t].indexes
                                             && model[t].indexes[i] && i !in live[t].indexes
      ensures r.Ok? ==> r.value == Stats(|live.Keys - old(live).Keys|, |NewColumns(old(live), live)|,
                                         |NewIndexes(old(live), live)|)
    {
      var tables := CreateMissingTables(ok);
      inspector := live;
      var columns := AddMissingColumns(ok);
      ColumnsLeaveIndexes(model, inspector, columns);
      var indexes := CreateMissingIndexes(ok);
      inspector := live;
      var missing := MissingUnique(model, inspector);
      UniqueMissingIff(model, live);
      IssuedIsNew(model, old(live), ok);
      if missing != {} {
        return Err(missing);
      }
      return Ok(Stats(|tables|, |columns|, |indexes|));
    }

    /** The statements for one column; a refused one ends it. */
    method AlterColumn(d: ColumnDiff, ok: Accepts) returns (failed: bool)
      requires d.table in live && d.name in live[d.table].columns
      modifies this`live
      ensures live == AlterOne(old(live), d, ok)
      ensures failed <==> Refused(d, ok)
    {
      var column := live[d.table].columns[d.name];
      failed := false;
      if d.TypeChanged() {
        if ok(AlterType(d.table, d.name)) {
          column := column.(kind := d.model.kind);
        } else {
          failed := true;
        }
      }
      if !failed && d.NullableChanged() {
        if ok(AlterNull(d.table, d.name)) {
          column := column.(nullable := d.model.nullable);
        } else {
          failed := true;
        }
      }
      live := live[d.table := live[d.table].(columns := live[d.table].columns[d.name := column])];
    }

    /** `apply_column_diffs`: in list order; risky ones are skipped unless forced. */
    method ApplyColumnDiffs(diffs: seq<ColumnDiff>, force: bool, ok: Accepts) returns (r: ApplyResult)
      requires forall d | d in diffs :: d.table in live && d.name in live[d.table].columns
      modifies this`live
      ensures live == AlterAll(old(live), diffs, force, ok)
      ensures forall d :: d in r.skipped <==> d in diffs && !Applies(d, force)
      ensures forall d :: d in r.failed <==> d in diffs && Applies(d, force) && Refused(d, ok)
      ensures forall d :: d in r.succeeded <==> d in diffs && Applies(d, force) && !Refused(d, ok)
    {
      r := ApplyResult([], [], []);
      var i := 0;
      while i < |diffs|
        invariant i <= |diffs| && live == AlterAll(old(live), diffs[..i], force, ok)
        invariant forall d :: d in r.skipped <==> d in diffs[..i] && !Applies(d, force)
        invariant forall d :: d in r.failed <==> d in diffs[..i] && Applies(d, force) && Refused(d, ok)
        invariant forall d :: d in r.succeeded <==> d in diffs[..i] && Applies(d, force) && !Refused(d, ok)
      {
        var d := diffs[i];
        assert diffs[..i + 1] == diffs[..i] + [d];
        AlterAllStep(old(live), diffs[..i], d, force, ok);
        i := i + 1;
        if !d.IsSafe() && !force {
          r := r.(skipped := r.skipped + [d]);
          continue;
        }
        AlterAllKeepsShape(old(live), diffs[..i - 1], force, ok);
        var failed := AlterColumn(d, ok);
        r := if failed then r.(failed := r.failed + [d]) else r.(succeeded := r.succeeded + [d]);
      }
      assert diffs[..i] == diffs;
    }

    /** `perform_migration`: analyse, synchronise, then change columns by the first analysis;
        a structural failure stops before any column is changed. */
    method PerformMigration(force: bool, ok: Accepts) returns (success: bool)
      requires inspector == live
      modifies this
      ensures live == if MissingUnique(model, Synced(model, old(live), ok)) != {}
                      then Synced(model, old(live), ok) else Migrated(model, old(live), force, ok)
      ensures success <==> && UniqueIndexesExist(model, live)
                           && forall t, c | Unlike(model, old(live), t, c)
                                            && (force || Harmless(model, old(live), t, c)) ::
                                ChangeAccepted(model, old(live), t, c, ok)
    {
      ghost var base := live;
      var diff := Analyze();
      var r := Run(ok);
      StructuralOutcome(model, base, ok);
      if r.Err? {
        return false;
      }
      var list := Listed(diff.columnDiffs);
      ListOutcome(model, base, live, list, force, ok);
      ChosenAccepted(model, base, force, ok);
      MigratedHasTheIndexes(model, base, force, ok);
      var applied := ApplyColumnDiffs(list, force, ok);
      success := applied.failed == [];
      assert !success ==> applied.failed[0] in applied.failed;
    }
  }

  /** Neither statement of the column's change is refused. */
  predicate ChangeAccepted(m: Model, l: Live, t: string, c: string, ok: Accepts)
    requires Unlike(m, l, t, c)
  {
    && (l[t].columns[c].kind == m[t].columns[c].kind || ok(AlterType(t, c)))
    && (l[t].columns[c].nullable == m[t].columns[c].nullable || ok(AlterNull(t, c)))
  }

  lemma ChosenAccepted(m: Model, l: Live, force: bool, ok: Accepts)
    ensures (forall d | d in Chosen(m, l, force) :: !Refused(d, ok))
            <==> forall t, c | Unlike(m, l, t, c) && (force || Harmless(m, l, t, c)) :: ChangeAccepted(m, l, t, c, ok)
  {
    forall t, c | Unlike(m, l, t, c)
      ensures exists d | d in ColumnDiffs(m, l) :: d.table == t && d.name == c
    {
      ColumnDiffsAre(m, l, t, c);
    }
    forall d | d in ColumnDiffs(m, l)
      ensures Unlike(m, l, d.table, d.name)
      ensures d.IsSafe() <==> Harmless(m, l, d.table, d.name)
      ensures Refused(d, ok) <==> !ChangeAccepted(m, l, d.table, d.name, ok)
    {
      ColumnDiffsAre(m, l, d.table, d.name);
    }
  }

  lemma MigratedHasTheIndexes(m: Model, l: Live, force: bool, ok: Accepts)
    ensures UniqueIndexesExist(m, Migrated(m, l, force, ok)) <==> UniqueIndexesExist(m, Synced(m, l, ok))
  {
    forall t
      ensures t in Migrated(m, l, force, ok) <==> t in Synced(m, l, ok)
      ensures t in Synced(m, l, ok) ==> Migrated(m, l, force, ok)[t].indexes == Synced(m, l, ok)[t].indexes
    {
      MigratedKeepsTheRest(m, l, force, ok, t, "");
    }
  }

  predicate Applies(d: ColumnDiff, force: bool) {
    d.IsSafe() || force
  }

  /** Some statement of the diff is refused. */
  predicate Refused(d: ColumnDiff, ok: Accepts) {
    || (d.TypeChanged() && !ok(AlterType(d.table, d.name)))
    || (d.NullableChanged() && !ok(AlterNull(d.table, d.name)))
  }

  function AlterOne(l: Live, d: ColumnDiff, ok: Accepts): Live
    requires d.table in l && d.name in l[d.table].columns
  {
    l[d.table := l[d.table].(
      columns := l[d.table].columns[d.name := Altered(d, l[d.table].columns[d.name], ok)])]
  }

  /** The diffs applied one after the other. */
  function AlterAll(l: Live, diffs: seq<ColumnDiff>, force: bool, ok: Accepts): (r: Live)
    decreases |diffs|
  {
    if diffs == [] then l
    else
      var d := diffs[|diffs| - 1];
      var before := AlterAll(l, diffs[..|diffs| - 1], force, ok);
      if Applies(d, force) && d.table in before && d.name in before[d.table].columns
      then AlterOne(before, d, ok) else before
  }

  lemma AlterAllStep(l: Live, diffs: seq<ColumnDiff>, d: ColumnDiff, force: bool, ok: Accepts)
    ensures var before := AlterAll(l, diffs, force, ok);
            AlterAll(l, diffs + [d], force, ok)
            == if Applies(d, force) && d.table in before && d.name in before[d.table].columns
               then AlterOne(before, d, ok) else before
  {
    assert (diffs + [d])[..|diffs|] == diffs;
  }

  lemma {:induction false} AlterAllKeepsShape(l: Live, diffs: seq<ColumnDiff>, force: bool, ok: Accepts)
    ensures AlterAll(l, diffs, force, ok).Keys == l.Keys
    ensures forall t | t in l :: AlterAll(l, diffs, force, ok)[t].columns.Keys == l[t].columns.Keys
    decreases |diffs|
  {
    if diffs != [] {
      AlterAllKeepsShape(l, diffs[..|diffs| - 1], force, ok);
    }
  }

  /** In whatever order the diffs of one analysis are applied, each column ends as its own
      diff leaves it. */
  lemma {:induction false} OrderDoesNotMatter(
      m: Model, base: Live, l: Live, diffs: seq<ColumnDiff>, force: bool, ok: Accepts)
    requires Extends(base, l) && forall d | d in diffs :: d in ColumnDiffs(m, base)
    requires forall i, j | 0 <= i < j < |diffs| :: diffs[i] != diffs[j]
    ensures AlterAll(l, diffs, force, ok) == AfterDiffs(m, base, l, ChosenOf(diffs, force), ok)
    decreases |diffs|
  {
    if diffs == [] {
      NoDiffsNoChange(m, base, l, ok);
      assert ChosenOf(diffs, force) == {};
    } else {
      var n := |diffs| - 1;
      var d := diffs[n];
      OrderDoesNotMatter(m, base, l, diffs[..n], force, ok);
      var done := ChosenOf(diffs[..n], force);
      assert d !in done;
      assert diffs == diffs[..n] + [d];
      assert ChosenOf(diffs, force) == if Applies(d, force) then done + {d} else done;
      if Applies(d, force) {
        OneMoreDiff(m, base, l, done, d, ok);
      }
    }
  }

  function ChosenOf(diffs: seq<ColumnDiff>, force: bool): set<ColumnDiff> {
    set d | d in diffs && Applies(d, force)
  }

  /** A listing of a set, each element once. */
  method Listed(s: set<ColumnDiff>) returns (r: seq<ColumnDiff>)
    ensures forall d :: d in r <==> d in s
    ensures forall i, j | 0 <= i < j < |r| :: r[i] != r[j]
  {
    r := [];
    var left := s;
    while left != {}
      invariant left <= s
      invariant forall d :: d in r <==> d in s - left
      invariant forall i, j | 0 <= i < j < |r| :: r[i] != r[j]
      decreases |left|
    {
      var d :| d in left;
      assert d !in r;
      left := left - {d};
      r := r + [d];
    }
  }

  lemma DiffsAreLive(m: Model, base: Live, l: Live, diffs: seq<ColumnDiff>)
    requires Extends(base, l) && forall d | d in diffs :: d in ColumnDiffs(m, base)
    ensures forall d | d in diffs :: d.table in l && d.name in l[d.table].columns
  {
    forall d | d in diffs
      ensures d.table in l && d.name in l[d.table].columns
    {
      var t, c :| t in m && c in m[t].columns && Differs(m, base, t, c) && d == DiffOf(m, base, t, c);
    }
  }

  lemma StructuralOutcome(m: Model, l: Live, ok: Accepts)
    ensures Extends(l, Synced(m, l, ok))
    ensures MissingUnique(m, Synced(m, l, ok)) == {} <==> UniqueIndexesExist(m, Synced(m, l, ok))
  {
    SyncRemovesNothing(m, l, ok);
    UniqueMissingIff(m, Synced(m, l, ok));
  }

  /** When every statement is accepted, a migration succeeds. */
  lemma AcceptedMigrationSucceeds(m: Model, l: Live, force: bool, ok: Accepts)
    requires AcceptsAll(ok)
    ensures MissingUnique(m, Synced(m, l, ok)) == {} && UniqueIndexesExist(m, Migrated(m, l, force, ok))
    ensures forall d | d in Chosen(m, l, force) :: !Refused(d, ok)
  {
    SyncConverges(m, l, ok);
    StructuralOutcome(m, l, ok);
    MigratedHasTheIndexes(m, l, force, ok);
    assert MissingUnique(m, Synced(m, l, ok)) <= MissingIndexes(m, Synced(m, l, ok));
  }

  /** Applying the listed diffs of the first analysis is the column part of the migration. */
  lemma {:induction false} ListOutcome(m: Model, base: Live, l: Live, list: seq<ColumnDiff>, force: bool, ok: Accepts)
    requires Extends(base, l) && forall d :: d in list <==> d in ColumnDiffs(m, base)
    requires forall i, j | 0 <= i < j < |list| :: list[i] != list[j]
    ensures forall d | d in list :: d.table in l && d.name in l[d.table].columns
    ensures AlterAll(l, list, force, ok) == AfterDiffs(m, base, l, Chosen(m, base, force), ok)
    ensures forall d :: d in list && Applies(d, force) <==> d in Chosen(m, base, force)
  {
    DiffsAreLive(m, base, l, list);
    OrderDoesNotMatter(m, base, l, list, force, ok);
    assert ChosenOf(list, force) == Chosen(m, base, force);
  }

  /** Of the absent columns, those that are not keys are the missing ones. */
  lemma AbsentColumns(m: Model, l: Live, pairs: set<Pair>, ok: Accepts)
    requires pairs == set t, c | t in m && Managed(m, t) && t in l && c in m[t].columns && c !in l[t].columns :: (t, c)
    ensures (set p | p in pairs && !m[p.0].columns[p.1].primaryKey && ok(AddColumn(p.0, p.1)))
            == AcceptedColumns(m, l, ok)
  {
    forall p
      ensures p in MissingColumns(m, l) <==> p in pairs && !m[p.0].columns[p.1].primaryKey
    {
    }
  }

  lemma ColumnsLeaveIndexes(m: Model, l: Live, pairs: set<Pair>)
    ensures MissingIndexes(m, WithColumns(m, l, pairs)) == MissingIndexes(m, l)
  {
  }

  lemma UniqueMissingIff(m: Model, l: Live)
    ensures MissingUnique(m, l) == {} <==> UniqueIndexesExist(m, l)
    ensures forall t, i :: (t, i) in MissingUnique(m, l)
                           <==> && Kept(m, t) && t in l && i in m[t].indexes
                                && m[t].indexes[i] && i !in l[t].indexes
  {
    forall t, i
      ensures (t, i) in MissingUnique(m, l)
              <==> Kept(m, t) && t in l && i in m[t].indexes && m[t].indexes[i] && i !in l[t].indexes
    {
      AnalysisIs(m, l, t, i);
    }
    if UniqueIndexesExist(m, l) {
      forall p
        ensures p !in MissingUnique(m, l)
      {
        AnalysisIs(m, l, p.0, p.1);
        assert p == (p.0, p.1);
      }
    }
  }

  /** Every unique index of an existing model table exists. */
  ghost predicate UniqueIndexesExist(m: Model, l: Live) {
    forall t, i | Kept(m, t) && t in l && i in m[t].indexes && m[t].indexes[i] :: i in l[t].indexes
  }

  /** Columns of `l'` that tables of `l` did not have. */
  function NewColumns(l: Live, l': Live): set<Pair> {
    set t, c | t in l && t in l' && c in l'[t].columns && c !in l[t].columns :: (t, c)
  }

  function NewIndexes(l: Live, l': Live): set<Pair> {
    set t, i | t in l && t in l' && i in l'[t].indexes && i !in l[t].indexes :: (t, i)
  }

  /** What was accepted is what is new. */
  lemma IssuedIsNew(m: Model, l: Live, ok: Accepts)
    ensures var l' := Synced(m, l, ok);
            && AcceptedTables(m, l, ok) == l'.Keys - l.Keys
            && AcceptedColumns(m, AfterTables(m, l, ok), ok) == NewColumns(l, l')
            && AcceptedIndexes(m, AfterColumns(m, l, ok), ok) == NewIndexes(l, l')
  {
    var l' := Synced(m, l, ok);
    SyncRemovesNothing(m, l, ok);
    forall t
      ensures t in AcceptedTables(m, l, ok) <==> t in l'.Keys - l.Keys
    {
      SyncedColumns(m, l, ok, t);
    }
    forall t, c
      ensures (t, c) in AcceptedColumns(m, AfterTables(m, l, ok), ok) <==> (t, c) in NewColumns(l, l')
    {
      NewColumnIs(m, l, ok, t, c);
    }
    forall t, i
      ensures (t, i) in AcceptedIndexes(m, AfterColumns(m, l, ok), ok) <==> (t, i) in NewIndexes(l, l')
    {
      NewIndexIs(m, l, ok, t, i);
    }
    SamePairs(AcceptedColumns(m, AfterTables(m, l, ok), ok), NewColumns(l, l'));
    SamePairs(AcceptedIndexes(m, AfterColumns(m, l, ok), ok), NewIndexes(l, l'));
  }

  lemma SamePairs(a: set<Pair>, b: set<Pair>)
    requires forall t, c :: (t, c) in a <==> (t, c) in b
    ensures a == b
  {
    forall p
      ensures p in a <==> p in b
    {
      assert p == (p.0, p.1);
    }
  }

  lemma NewColumnIs(m: Model, l: Live, ok: Accepts, t: string, c: string)
    ensures (t, c) in AcceptedColumns(m, AfterTables(m, l, ok), ok) <==> (t, c) in NewColumns(l, Synced(m, l, ok))
  {
    SyncedColumns(m, l, ok, t);
    AnalysisIs(m, AfterTables(m, l, ok), t, c);
  }

  lemma NewIndexIs(m: Model, l: Live, ok: Accepts, t: string, i: string)
    ensures (t, i) in AcceptedIndexes(m, AfterColumns(m, l, ok), ok) <==> (t, i) in NewIndexes(l, Synced(m, l, ok))
  {
    if t in Synced(m, l, ok) {
      SyncedIndexes(m, l, ok, t);
    }
    AnalysisIs(m, AfterColumns(m, l, ok), t, i);
  }

  lemma NoDiffsNoChange(m: Model, base: Live, l: Live, ok: Accepts)
    ensures AfterDiffs(m, base, l, {}, ok) == l
  {
    forall t | t in l
      ensures AfterDiffs(m, base, l, {}, ok)[t] == l[t]
    {
      assert AfterDiffs(m, base, l, {}, ok)[t].columns == l[t].columns;
    }
  }

  /** Another column is not affected by the diff `d`. */
  lemma OtherColumnKept(
      m: Model, base: Live, l: Live, done: set<ColumnDiff>, d: ColumnDiff, ok: Accepts, u: string, x: string)
    requires u in l && x in l[u].columns && (u, x) != (d.table, d.name)
    ensures AlteredAt(m, base, l, done + {d}, ok, u, x) == AlteredAt(m, base, l, done, ok, u, x)
  {
  }

  lemma OtherTableKept(m: Model, base: Live, l: Live, done: set<ColumnDiff>, d: ColumnDiff, ok: Accepts, u: string)
    requires u in l && u != d.table
    ensures AfterDiffs(m, base, l, done + {d}, ok)[u] == AfterDiffs(m, base, l, done, ok)[u]
  {
    forall x | x in l[u].columns
      ensures AlteredAt(m, base, l, done + {d}, ok, u, x) == AlteredAt(m, base, l, done, ok, u, x)
    {
      OtherColumnKept(m, base, l, done, d, ok, u, x);
    }
    assert AfterDiffs(m, base, l, done + {d}, ok)[u].columns == AfterDiffs(m, base, l, done, ok)[u].columns;
  }

  /** In its own table, the diff `d` changes its own column only. */
  lemma OwnTableChanged(m: Model, base: Live, l: Live, done: set<ColumnDiff>, d: ColumnDiff, ok: Accepts)
    requires d in ColumnDiffs(m, base) && d !in done && Extends(base, l)
    ensures d.table in l && d.name in l[d.table].columns
    ensures var now, next := AfterDiffs(m, base, l, done, ok), AfterDiffs(m, base, l, done + {d}, ok);
            && now[d.table].columns[d.name] == d.db
            && next[d.table].columns == now[d.table].columns[d.name := Altered(d, d.db, ok)]
            && next[d.table].indexes == now[d.table].indexes
  {
    var t, c :| t in m && c in m[t].columns && Differs(m, base, t, c) && d == DiffOf(m, base, t, c);
    forall x | x in l[t].columns && x != c
      ensures AlteredAt(m, base, l, done + {d}, ok, t, x) == AlteredAt(m, base, l, done, ok, t, x)
    {
      OtherColumnKept(m, base, l, done, d, ok, t, x);
    }
    assert AlteredAt(m, base, l, done, ok, t, c) == d.db;
    assert AlteredAt(m, base, l, done + {d}, ok, t, c) == Altered(d, d.db, ok);
  }

  lemma OneMoreDiff(m: Model, base: Live, l: Live, done: set<ColumnDiff>, d: ColumnDiff, ok: Accepts)
    requires d in ColumnDiffs(m, base) && d !in done && Extends(base, l)
    ensures var now := AfterDiffs(m, base, l, done, ok);
            && d.table in now && d.name in now[d.table].columns
            && now[d.table].columns[d.name] == d.db
            && AfterDiffs(m, base, l, done + {d}, ok)
               == now[d.table := now[d.table].(columns := now[d.table].columns[d.name := Altered(d, d.db, ok)])]
  {
    OwnTableChanged(m, base, l, done, d, ok);
    forall u | u in l && u != d.table
      ensures AfterDiffs(m, base, l, done + {d}, ok)[u] == AfterDiffs(m, base, l, done, ok)[u]
    {
      OtherTableKept(m, base, l, done, d, ok, u);
    }
  }
}
