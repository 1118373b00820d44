/** The report table's repository as it runs: the retrying replacement and the batched purge
    (backend/repositories/report_data_records_repository.py). */
module ReportRepository {
  import opened ReportRecords
  import opened ReportWriters

  /** What a successful attempt leaves: what the others had committed by its insert, without
      what its DELETE saw and may replace, and with its own rows. */
  ghost predicate Replaced(j: Job, atDelete: Table, atInsert: Table, own: Table, after: Table) {
    forall r :: r in after <==> r in own || (r in atInsert && !(r in atDelete && Replaceable(j, r)))
  }

  /** A row of the key that the DELETE did not see, or may not replace, is there at the insert. */
  ghost predicate Overlapped(j: Job, atDelete: Table, atInsert: Table) {
    exists r | r in atInsert && !(r in atDelete && Replaceable(j, r)) :: SameKey(j, r)
  }

  /** And at a position that the call writes. */
  ghost predicate Clashes(j: Job, atDelete: Table, atInsert: Table) {
    exists r | r in atInsert && !(r in atDelete && Replaceable(j, r)) ::
      SameKey(j, r) && (r.position == 0 || r.position < |j.rows|)
  }

  ghost predicate ForeignIn(j: Job, t: Table) {
    exists r | r in t :: Foreign(j, r)
  }

  lemma AttemptIs(j: Job, atDelete: Table, atCheck: Table, atInsert: Table)
    ensures Refuses(j, atCheck - Deletion(j, atDelete)) <==> ForeignIn(j, atCheck)
    ensures Collides(j, atInsert - Deletion(j, atDelete)) <==> Clashes(j, atDelete, atInsert)
    ensures forall own :: Replaced(j, atDelete, atInsert, own, atInsert - Deletion(j, atDelete) + own)
  {
    forall r
      ensures r in Deletion(j, atDelete) <==> r in atDelete && Replaceable(j, r)
    {
      DeletionIs(j, atDelete, r);
    }
    RefusesIs(j, atCheck - Deletion(j, atDelete));
    CollidesIs(j, atInsert - Deletion(j, atDelete));
    if r :| r in atCheck && Foreign(j, r) {
      assert r in atCheck - Deletion(j, atDelete);
    }
    if r :| r in atInsert && !(r in atDelete && Replaceable(j, r)) && SameKey(j, r)
            && (r.position == 0 || r.position < |j.rows|) {
      assert r in atInsert - Deletion(j, atDelete);
    }
  }

  /** The table of the session. The other sessions are `seen`: whatever they have committed
      (and purged) by each statement of this one. */
  class ReportDataRecordRepository {
    var rows: Table

    constructor ()
      ensures rows == {}
    {
      rows := {};
    }

    /** `_replace_once`: delete what may be replaced, refuse, insert; every error rolls the
        deletion back. */
    method ReplaceOnce(j: Job, c: CollectionId, firstId: nat, now: Timestamp, seen: seq<Table>) returns (o: Outcome)
      requires |seen| == 3
      modifies this
      ensures o == if ForeignIn(j, seen[1]) then Conflict
                   else if Clashes(j, seen[0], seen[2]) then IntegrityError else Wrote
      ensures o == Wrote ==> exists own :: Stores(j, c, now, own) && Replaced(j, seen[0], seen[2], own, rows)
      ensures o != Wrote ==> rows == if o == Conflict then seen[1] else seen[2]
    {
      AttemptIs(j, seen[0], seen[1], seen[2]);
      rows := seen[0];
      var removed := Deletion(j, rows);
      rows := seen[1];
      if j.run.Some? && Refuses(j, rows - removed) {
        return Conflict;
      }
      rows := seen[2];
      if Collides(j, rows - removed) {
        return IntegrityError;
      }
      ghost var own := Records(j, c, firstId, now);
      RecordsAreWhole(j, c, firstId, now);
      rows := rows - removed + Records(j, c, firstId, now);
      assert Stores(j, c, now, own) && Replaced(j, seen[0], seen[2], own, rows);
      return Wrote;
    }

    /** `replace_rows`: an attempt that loses the race is made once more on what is then
        stored. Whatever the other sessions do, this one takes away only what its DELETE saw
        and may replace, and only when it succeeds; its rows are alone at the key exactly when
        nothing overlapped. */
    method ReplaceRows(j: Job, ids: seq<CollectionId>, firstIds: seq<nat>, begun: seq<Timestamp>, seen: seq<seq<Table>>)
      returns (o: Outcome, attempt: nat)
      requires |ids| == |firstIds| == |begun| == |seen| == 2
      requires forall i | 0 <= i < |seen| :: |seen[i]| == 3 && forall r | r in seen[i][2] :: r.collection != ids[i]
      modifies this
      ensures attempt < 2 && o in {Wrote, Conflict, IntegrityError}
      ensures attempt == 1 ==> !ForeignIn(j, seen[0][1]) && Clashes(j, seen[0][0], seen[0][2])
      ensures o == Wrote ==>
                exists own :: && Stores(j, ids[attempt], begun[attempt], own)
                              && Replaced(j, seen[attempt][0], seen[attempt][2], own, rows)
                              && (j.run.Some? ==>
                                    (Alone(j, own, rows) <==> !Overlapped(j, seen[attempt][0], seen[attempt][2])))
      ensures o == Conflict ==> rows == seen[attempt][1] && ForeignIn(j, rows)
      ensures o == IntegrityError ==>
                attempt == 1 && rows == seen[1][2] && Clashes(j, seen[1][0], rows) && !ForeignIn(j, seen[1][1])
    {
      o, attempt := IntegrityError, 0;
      while attempt < REPLACE_ATTEMPTS
        invariant attempt < REPLACE_ATTEMPTS
        invariant attempt == 1 ==> !ForeignIn(j, seen[0][1]) && Clashes(j, seen[0][0], seen[0][2])
        decreases REPLACE_ATTEMPTS - attempt
      {
        o := ReplaceOnce(j, ids[attempt], firstIds[attempt], begun[attempt], seen[attempt]);
        if o == Wrote {
          ghost var own :| Stores(j, ids[attempt], begun[attempt], own)
                           && Replaced(j, seen[attempt][0], seen[attempt][2], own, rows);
          AloneIff(j, seen[attempt], own, ids[attempt], begun[attempt], rows);
        }
        if o != IntegrityError {
          return;
        }
        if j.run.None? || attempt == REPLACE_ATTEMPTS - 1 {
          return;
        }
        attempt := attempt + 1;
      }
    }

    /** `purge_older_than`: batches until nothing is selected. A batch may split a
        collection; the finished purge does not, and its result does not depend on the
        batch size. A batch size of zero selects nothing and stops at once. */
    method PurgeOlderThan(cutoff: Timestamp, batchSize: nat) returns (total: nat)
      requires UniqueIds(rows)
      modifies this
      ensures UniqueIds(rows)
      ensures batchSize > 0 ==> rows == Retained(old(rows), cutoff)
      ensures batchSize > 0 && CollectionsApart(old(rows)) ==>
                forall r :: r in rows <==> r in old(rows) && (r.createdAt >= cutoff || InTopCollection(old(rows), r))
      ensures batchSize == 0 ==> rows == old(rows)
      ensures rows <= old(rows) && total == |old(rows) - rows|
      ensures forall dataset, includeEmpty ::
                Latest(rows, dataset, includeEmpty) == Latest(old(rows), dataset, includeEmpty)
    {
      total := 0;
      ghost var before := rows;
      while true
        invariant PurgedTo(before, rows, cutoff)
        invariant total == |before - rows|
        invariant batchSize == 0 ==> rows == before
        decreases |rows|
      {
        var batch := LowestIds(Purgeable(rows, cutoff), batchSize);
        if batch == {} {
          break;
        }
        BatchProgress(before, rows, batch, cutoff);
        rows := rows - batch;
        total := total + |batch|;
      }
      if batchSize > 0 {
        PurgeFinished(before, rows, cutoff);
        if CollectionsApart(before) {
          forall r | r in before
            ensures InTopCollection(before, r) <==> r.collection in NewestCollections(before)
          {
            TopCollectionIsNewest(before, r);
          }
        }
      }
      forall dataset, includeEmpty
        ensures Latest(rows, dataset, includeEmpty) == Latest(before, dataset, includeEmpty)
      {
        PurgeKeepsLatest(before, rows, cutoff, dataset, includeEmpty);
      }
    }
  }

  ghost predicate Alone(j: Job, own: Table, t: Table) {
    forall r | r in t && SameKey(j, r) :: r in own
  }

  /** A successful attempt is alone at its key unless another session's rows came to lie there
      meanwhile. */
  lemma AloneIff(j: Job, seen: seq<Table>, own: Table, c: CollectionId, at: Timestamp, after: Table)
    requires |seen| == 3 && (forall r | r in seen[2] :: r.collection != c)
    requires Stores(j, c, at, own) && Replaced(j, seen[0], seen[2], own, after)
    ensures Alone(j, own, after) <==> !Overlapped(j, seen[0], seen[2])
  {
    if r :| r in seen[2] && !(r in seen[0] && Replaceable(j, r)) && SameKey(j, r) {
      assert r in after && r !in own;
    }
  }

  /** A stored collection that is its device's newest in its dataset is what "latest" answers
      for that device: with markers all of it, without them nothing if nothing was given. */
  lemma NewestReplacementIsAnswered(j: Job, c: CollectionId, at: Timestamp, own: Table, t: Table, q: Row)
    requires UniqueIds(t) && CollectionsApart(t)
    requires Stores(j, c, at, own) && own <= t && (forall r | r in t && r.collection == c :: r in own)
    requires exists top :: IsTop(t, top) && top in own
    requires q.device == j.device
    ensures q in Latest(t, j.dataset, true) <==> q in own
    ensures q in Latest(t, j.dataset, false) <==> q in own && j.rows != []
  {
    var top :| IsTop(t, top) && top in own;
    LatestIs(t, j.dataset, true, q);
    LatestIs(t, j.dataset, false, q);
    if q in t && q.dataset == j.dataset && InTopCollection(t, q) {
      var other :| IsTop(t, other) && other.dataset == q.dataset && other.device == q.device
                   && other.collection == q.collection;
      assert other == top;
    }
  }
}
