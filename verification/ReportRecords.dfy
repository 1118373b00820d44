/** The report data table: rows, collections, the "newest collection per device" queries
    and the batched retention purge
    (backend/repositories/report_data_records_repository.py). */
module ReportRecords {
  import opened Common

  type Timestamp = int
  type CollectionId = nat

  /** One row of `report_data_records`; `data` is opaque to the repository. */
  datatype Row = Row(
    id: nat,
    device: string,
    dataset: string,
    data: string,
    collection: CollectionId,
    position: nat,
    isEmpty: bool,
    run: Option<nat>,
    node: Option<string>,
    createdAt: Timestamp)

  type Table = set<Row>

  /** The primary key. */
  ghost predicate UniqueIds(t: Table) {
    forall r, q | r in t && q in t && r.id == q.id :: r == q
  }

  /** `ORDER BY created_at DESC, id DESC`: `a` is listed before `b`. */
  predicate Newer(a: Row, b: Row) {
    a.createdAt > b.createdAt || (a.createdAt == b.createdAt && a.id > b.id)
  }

  predicate SamePartition(a: Row, b: Row) {
    a.dataset == b.dataset && a.device == b.device
  }

  /** `r` has row number 1 among the rows of its dataset and device. */
  predicate RankOne(t: Table, r: Row) {
    r in t && forall q | q in t && SamePartition(q, r) :: q == r || Newer(r, q)
  }

  /** The purge's sub-select: the collection ids of every partition's first row. */
  function NewestCollections(t: Table): set<CollectionId> {
    set r | r in t && RankOne(t, r) :: r.collection
  }

  function InDataset(t: Table, dataset: string): Table {
    set r | r in t && r.dataset == dataset
  }

  /** The readers' sub-select: one dataset, ranked per device. */
  function NewestCollectionsOf(t: Table, dataset: string): set<CollectionId> {
    NewestCollections(InDataset(t, dataset))
  }

  /** `latest_per_device`: every row of each device's newest collection. */
  function Latest(t: Table, dataset: string, includeEmpty: bool): Table {
    set r | r in t && r.dataset == dataset && r.collection in NewestCollectionsOf(t, dataset)
            && (includeEmpty || !r.isEmpty)
  }

  /** What a purge batch selects from. */
  function Purgeable(t: Table, cutoff: Timestamp): Table {
    set r | r in t && r.createdAt < cutoff && r.collection !in NewestCollections(t)
  }

  /** What must be left when a purge has finished. */
  function Retained(t: Table, cutoff: Timestamp): Table {
    set r | r in t && (r.createdAt >= cutoff || r.collection in NewestCollections(t))
  }

  // ----- Deleting rows outside the newest collections -----

  /** The first row of every partition survives, and stays first. */
  lemma RankOneSurvives(t: Table, gone: Table, r: Row)
    requires forall g | g in gone :: g.collection !in NewestCollections(t)
    ensures RankOne(t, r) ==> RankOne(t - gone, r)
  {
    if RankOne(t, r) {
      assert r.collection in NewestCollections(t);
    }
  }

  /** A row that is first after the deletion was first before it. */
  lemma RankOneWasRankOne(t: Table, gone: Table, r: Row)
    requires UniqueIds(t)
    requires forall g | g in gone :: g.collection !in NewestCollections(t)
    requires RankOne(t - gone, r)
    ensures RankOne(t, r)
  {
    var top := FirstRow(t, r);
    RankOneSurvives(t, gone, top);
    assert top == r || Newer(r, top);
    assert top == r || Newer(top, r);
  }

  /** Every row's partition has a first row. */
  lemma {:induction false} FirstRow(t: Table, r: Row) returns (top: Row)
    requires UniqueIds(t)
    requires r in t
    ensures RankOne(t, top) && SamePartition(top, r)
    decreases |t|
  {
    if RankOne(t, r) {
      top := r;
    } else {
      var q :| q in t && SamePartition(q, r) && q != r && !Newer(r, q);
      assert Newer(q, r);
      var rest := t - {r};
      top := FirstRow(rest, q);
      assert top == q || Newer(top, q);
    }
  }

  lemma DeletionKeepsNewest(t: Table, gone: Table)
    requires UniqueIds(t)
    requires forall g | g in gone :: g.collection !in NewestCollections(t)
    ensures NewestCollections(t - gone) == NewestCollections(t)
  {
    forall c
      ensures c in NewestCollections(t - gone) <==> c in NewestCollections(t)
    {
      if c in NewestCollections(t) {
        var r :| r in t && RankOne(t, r) && r.collection == c;
        RankOneSurvives(t, gone, r);
      }
      if c in NewestCollections(t - gone) {
        var r :| r in t - gone && RankOne(t - gone, r) && r.collection == c;
        RankOneWasRankOne(t, gone, r);
      }
    }
  }

  /** Ranking one dataset per device is ranking the whole table per dataset and device. */
  lemma RankWithinDataset(t: Table, dataset: string, r: Row)
    ensures RankOne(InDataset(t, dataset), r) <==> r.dataset == dataset && RankOne(t, r)
  {
    if RankOne(InDataset(t, dataset), r) {
      forall q | q in t && SamePartition(q, r)
        ensures q == r || Newer(r, q)
      {
        assert q in InDataset(t, dataset);
      }
    }
  }

  lemma ReadersSeeAPartOfTheNewest(t: Table, dataset: string)
    ensures NewestCollectionsOf(t, dataset) <= NewestCollections(t)
  {
    forall c | c in NewestCollectionsOf(t, dataset)
      ensures c in NewestCollections(t)
    {
      var r :| r in InDataset(t, dataset) && RankOne(InDataset(t, dataset), r) && r.collection == c;
      RankWithinDataset(t, dataset, r);
    }
  }

  lemma DeletionKeepsNewestOf(t: Table, gone: Table, dataset: string)
    requires UniqueIds(t)
    requires forall g | g in gone :: g.collection !in NewestCollections(t)
    ensures NewestCollectionsOf(t - gone, dataset) == NewestCollectionsOf(t, dataset)
  {
    ReadersSeeAPartOfTheNewest(t, dataset);
    assert InDataset(t - gone, dataset) == InDataset(t, dataset) - gone;
    DeletionKeepsNewest(InDataset(t, dataset), gone);
  }

  /** Main result for readers: whatever rows outside the newest collections are deleted,
      "latest" answers the same rows for every dataset, with and without empty markers. */
  lemma DeletionKeepsLatest(t: Table, gone: Table, dataset: string, includeEmpty: bool)
    requires UniqueIds(t)
    requires forall g | g in gone :: g.collection !in NewestCollections(t)
    ensures Latest(t - gone, dataset, includeEmpty) == Latest(t, dataset, includeEmpty)
  {
    DeletionKeepsNewestOf(t, gone, dataset);
    ReadersSeeAPartOfTheNewest(t, dataset);
  }

  /** Collection ids are never shared between datasets or devices. */
  ghost predicate CollectionsApart(t: Table) {
    forall r, q | r in t && q in t && r.collection == q.collection :: SamePartition(r, q)
  }

  /** And exactly so: deleting stored rows keeps every latest answer if and only if none of
      them belongs to a newest collection. */
  lemma {:induction false} DeletionKeepsLatestIff(t: Table, gone: Table)
    requires UniqueIds(t) && CollectionsApart(t) && gone <= t
    ensures (forall dataset, includeEmpty ::
               Latest(t - gone, dataset, includeEmpty) == Latest(t, dataset, includeEmpty))
            <==> forall g | g in gone :: g.collection !in NewestCollections(t)
  {
    if forall g | g in gone :: g.collection !in NewestCollections(t) {
      forall dataset, includeEmpty
        ensures Latest(t - gone, dataset, includeEmpty) == Latest(t, dataset, includeEmpty)
      {
        DeletionKeepsLatest(t, gone, dataset, includeEmpty);
      }
    } else {
      var g :| g in gone && g.collection in NewestCollections(t);
      var r :| r in t && RankOne(t, r) && r.collection == g.collection;
      assert SamePartition(r, g);
      RankWithinDataset(t, g.dataset, r);
      assert g in Latest(t, g.dataset, true) && g !in Latest(t - gone, g.dataset, true);
    }
  }

  /** What "latest" answers: of the rows of a dataset and device, exactly those of one
      collection, the one of the row with the latest time, highest id first on a tie. */
  lemma LatestIsOneCollection(t: Table, r: Row, includeEmpty: bool) returns (top: Row)
    requires UniqueIds(t) && CollectionsApart(t) && r in t
    ensures top in t && SamePartition(top, r)
    ensures forall q | q in t && SamePartition(q, r) ::
              && (q.createdAt < top.createdAt || (q.createdAt == top.createdAt && q.id <= top.id))
              && (q in Latest(t, r.dataset, includeEmpty)
                  <==> q.collection == top.collection && (includeEmpty || !q.isEmpty))
  {
    top := FirstRow(t, r);
    var dataset := r.dataset;
    RankWithinDataset(t, dataset, top);
    forall q | q in t && SamePartition(q, r)
      ensures q.collection in NewestCollectionsOf(t, dataset) <==> q.collection == top.collection
    {
      if q.collection in NewestCollectionsOf(t, dataset) {
        var p :| p in InDataset(t, dataset) && RankOne(InDataset(t, dataset), p) && p.collection == q.collection;
        RankWithinDataset(t, dataset, p);
        assert SamePartition(p, q);
      }
    }
  }

  /** `top` is the newest row stored for its dataset and device. */
  ghost predicate IsTop(t: Table, top: Row) {
    top in t && forall p | p in t && p.dataset == top.dataset && p.device == top.device ::
      p.createdAt < top.createdAt || (p.createdAt == top.createdAt && p.id <= top.id)
  }

  /** `r` is of the collection of its device's newest row in its dataset. */
  ghost predicate InTopCollection(t: Table, r: Row) {
    exists top :: IsTop(t, top) && top.dataset == r.dataset && top.device == r.device && top.collection == r.collection
  }

  lemma TopIsRankOne(t: Table, top: Row)
    requires UniqueIds(t)
    ensures IsTop(t, top) <==> RankOne(t, top)
  {
  }

  /** A stored row is of a newest collection exactly if it is of its own device's. */
  lemma TopCollectionIsNewest(t: Table, r: Row)
    requires UniqueIds(t) && CollectionsApart(t) && r in t
    ensures InTopCollection(t, r) <==> r.collection in NewestCollections(t)
  {
    if top :| IsTop(t, top) && top.dataset == r.dataset && top.device == r.device && top.collection == r.collection {
      TopIsRankOne(t, top);
    }
    if r.collection in NewestCollections(t) {
      var top :| top in t && RankOne(t, top) && top.collection == r.collection;
      TopIsRankOne(t, top);
      assert SamePartition(top, r);
    }
  }

  /** Main result for one answer: a row is answered for a dataset if and only if it is stored
      there, is of its device's newest collection in that dataset, and is not a marker unless
      markers are asked for. */
  lemma LatestIs(t: Table, dataset: string, includeEmpty: bool, q: Row)
    requires UniqueIds(t) && CollectionsApart(t)
    ensures q in Latest(t, dataset, includeEmpty)
            <==> q in t && q.dataset == dataset && (includeEmpty || !q.isEmpty) && InTopCollection(t, q)
  {
    if q in t && q.dataset == dataset {
      TopCollectionIsNewest(t, q);
      ReadersSeeAPartOfTheNewest(t, dataset);
      if q.collection in NewestCollections(t) {
        var top :| top in t && RankOne(t, top) && top.collection == q.collection;
        assert SamePartition(top, q);
        RankWithinDataset(t, dataset, top);
      }
    }
  }

  /** A device whose newest collection found nothing contributes no rows: it does not fall
      back to an older collection. */
  lemma EmptyCollectionSupersedes(t: Table, top: Row, q: Row)
    requires UniqueIds(t) && CollectionsApart(t) && RankOne(t, top)
    requires forall p | p in t && p.collection == top.collection :: p.isEmpty
    requires SamePartition(q, top)
    ensures q !in Latest(t, top.dataset, false)
  {
    var first := LatestIsOneCollection(t, top, false);
    assert first == top || Newer(top, first);
  }

  // ----- The purge -----

  /** `now` is `before` with some, and only, purgeable rows removed. */
  ghost predicate PurgedTo(before: Table, now: Table, cutoff: Timestamp) {
    && UniqueIds(before)
    && now <= before
    && before - now <= Purgeable(before, cutoff)
  }

  /** Part way through a purge, a batch still selects from exactly the rows that were
      purgeable at the start and are not gone yet. */
  lemma PurgeableSoFar(before: Table, now: Table, cutoff: Timestamp)
    requires PurgedTo(before, now, cutoff)
    ensures Purgeable(now, cutoff) == Purgeable(before, cutoff) - (before - now)
  {
    assert now == before - (before - now);
    DeletionKeepsNewest(before, before - now);
  }

  /** One batch keeps that relation and counts once in the rows removed. */
  lemma BatchProgress(before: Table, now: Table, batch: Table, cutoff: Timestamp)
    requires PurgedTo(before, now, cutoff)
    requires batch <= Purgeable(now, cutoff)
    ensures PurgedTo(before, now - batch, cutoff)
    ensures |before - (now - batch)| == |before - now| + |batch|
  {
    PurgeableSoFar(before, now, cutoff);
    assert before - (now - batch) == (before - now) + batch;
  }

  /** When nothing is left to select, what remains is exactly what must be retained. */
  lemma PurgeFinished(before: Table, now: Table, cutoff: Timestamp)
    requires PurgedTo(before, now, cutoff)
    requires Purgeable(now, cutoff) == {}
    ensures now == Retained(before, cutoff)
  {
    PurgeableSoFar(before, now, cutoff);
    forall r | r in Purgeable(before, cutoff)
      ensures r !in now
    {
      assert r !in Purgeable(before, cutoff) - (before - now);
    }
    forall r
      ensures r in now <==> r in Retained(before, cutoff)
    {
      if r in Retained(before, cutoff) {
        assert r !in before - now;
      }
    }
  }

  /** At every point of a purge, readers get the answers they got before it. */
  lemma PurgeKeepsLatest(before: Table, now: Table, cutoff: Timestamp, dataset: string, includeEmpty: bool)
    requires PurgedTo(before, now, cutoff)
    ensures Latest(now, dataset, includeEmpty) == Latest(before, dataset, includeEmpty)
  {
    assert now == before - (before - now);
    DeletionKeepsLatest(before, before - now, dataset, includeEmpty);
  }

  /** Whole collections go together: if the rows of a collection share `created_at`, the
      finished purge keeps or drops each collection as a whole. */
  lemma CollectionsGoTogether(t: Table, cutoff: Timestamp, a: Row, b: Row)
    requires forall r, q | r in t && q in t && r.collection == q.collection :: r.createdAt == q.createdAt
    requires a in t && b in t && a.collection == b.collection
    ensures a in Retained(t, cutoff) <==> b in Retained(t, cutoff)
  {
  }

  /** Every device that ever had rows in a dataset still has its newest collection, whole. */
  lemma NewestCollectionStaysWhole(t: Table, cutoff: Timestamp, r: Row) returns (top: Row)
    requires UniqueIds(t)
    requires r in t
    ensures SamePartition(top, r) && RankOne(Retained(t, cutoff), top)
    ensures forall q | q in t && q.collection == top.collection :: q in Retained(t, cutoff)
  {
    top := FirstRow(t, r);
    assert top.collection in NewestCollections(t);
  }

  /** `ORDER BY id LIMIT n`. */
  method LowestIds(candidates: Table, n: nat) returns (batch: Table)
    requires UniqueIds(candidates)
    ensures batch <= candidates
    ensures |batch| == if n <= |candidates| then n else |candidates|
    ensures forall b, r | b in batch && r in candidates - batch :: b.id < r.id
  {
    batch := {};
    var left := candidates;
    while |batch| < n && left != {}
      invariant batch <= candidates
      invariant left == candidates - batch
      invariant |batch| + |left| == |candidates|
      invariant |batch| <= n
      invariant forall b, r | b in batch && r in left :: b.id < r.id
      decreases |left|
    {
      var m := LowestId(left);
      batch, left := batch + {m}, left - {m};
    }
  }

  method LowestId(s: Table) returns (m: Row)
    requires UniqueIds(s) && s != {}
    ensures m in s && forall q | q in s && q != m :: m.id < q.id
  {
    m :| m in s;
    var left := s - {m};
    while left != {}
      invariant left <= s && m in s && m !in left
      invariant forall q | q in s - left && q != m :: m.id < q.id
      decreases |left|
    {
      var q :| q in left;
      left := left - {q};
      if q.id < m.id {
        m := q;
      }
    }
  }
}
