/** The published background-tier workflows, their count-and-timestamp fingerprint
    (backend/repositories/background_tier_repository.py) and the worker that restarts when
    the fingerprint changes (backend/hatchet/dynamic_worker.py). */
module BackgroundTier {
  import opened Common

  type Timestamp = int

  datatype Tier = Tier(limit: Option<nat>, publishedBy: Option<nat>, updatedAt: Timestamp)

  /** One row per workflow. */
  type Table = map<nat, Tier>

  /** `count(*), max(updated_at)`. */
  datatype Fingerprint = Fingerprint(count: nat, newest: Option<Timestamp>)

  ghost predicate IsNewest(t: Table, newest: Option<Timestamp>) {
    match newest
    case None => t == map[]
    case Some(m) => (exists w | w in t :: t[w].updatedAt == m) && forall w | w in t :: t[w].updatedAt <= m
  }

  ghost predicate IsFingerprint(t: Table, f: Fingerprint) {
    f.count == |t| && IsNewest(t, f.newest)
  }

  /** A committed change, stamped with the transaction's time. */
  datatype Change =
    | Publish(workflow: nat, limit: Option<nat>, publisher: Option<nat>, now: Timestamp)
    | Unpublish(workflow: nat)

  /** Publishing again edits the limit only; an edit that changes nothing writes nothing. */
  function Apply(t: Table, c: Change): Table {
    match c
    case Publish(w, limit, publisher, now) =>
      if w !in t then t[w := Tier(limit, publisher, now)]
      else if t[w].limit == limit then t
      else t[w := t[w].(limit := limit, updatedAt := now)]
    case Unpublish(w) => t - {w}
  }

  function TableAt(t: Table, changes: seq<Change>, i: nat): Table
    requires i <= |changes|
  {
    if i == 0 then t else Apply(TableAt(t, changes, i - 1), changes[i - 1])
  }

  /** The change carries a time later than everything stored in `t`. */
  ghost predicate LaterThan(c: Change, t: Table) {
    c.Publish? ==> forall w | w in t :: t[w].updatedAt < c.now
  }

  /** Update times strictly increase over the history. */
  ghost predicate Increasing(t: Table, changes: seq<Change>) {
    && (forall i | 0 <= i < |changes| :: LaterThan(changes[i], t))
    && (forall i, j | 0 <= i < j < |changes| && changes[i].Publish? && changes[j].Publish? ::
          changes[i].now < changes[j].now)
  }

  lemma {:induction false} StampsAreFromTheHistory(t: Table, changes: seq<Change>, i: nat, w: nat)
    requires i <= |changes| && w in TableAt(t, changes, i)
    ensures var u := TableAt(t, changes, i)[w].updatedAt;
            || (w in t && t[w].updatedAt == u)
            || (exists k | 0 <= k < i :: changes[k].Publish? && changes[k].now == u)
  {
    if i > 0 {
      var before := TableAt(t, changes, i - 1);
      if w in before && before[w].updatedAt == TableAt(t, changes, i)[w].updatedAt {
        StampsAreFromTheHistory(t, changes, i - 1, w);
      } else {
        assert changes[i - 1].Publish? && changes[i - 1].now == TableAt(t, changes, i)[w].updatedAt;
      }
    }
  }

  /** With increasing times, every later change is later than everything stored at `f`. */
  lemma IncreasingMeansLater(t: Table, changes: seq<Change>, f: nat, k: nat)
    requires Increasing(t, changes) && f <= k < |changes|
    ensures LaterThan(changes[k], TableAt(t, changes, f))
  {
    if changes[k].Publish? {
      forall w | w in TableAt(t, changes, f)
        ensures TableAt(t, changes, f)[w].updatedAt < changes[k].now
      {
        StampsAreFromTheHistory(t, changes, f, w);
        assert LaterThan(changes[k], t);
      }
    }
  }

  /** A publish that changes `t` and carries a time no later than the newest stored in `f`. */
  ghost predicate LateChange(t: Table, c: Change, f: Table) {
    c.Publish? && Apply(t, c) != t && !LaterThan(c, f)
  }

  /** Nothing late is committed from state `f` to state `p`. */
  ghost predicate NoneLate(t: Table, changes: seq<Change>, f: nat, p: nat)
    requires f <= p <= |changes|
  {
    forall k | f <= k < p :: !LateChange(TableAt(t, changes, k), changes[k], TableAt(t, changes, f))
  }

  /** Since state `f`, each row is either untouched or stamped later than all of them. */
  lemma {:induction false} UntouchedOrLater(t: Table, changes: seq<Change>, f: nat, p: nat, w: nat)
    requires f <= p <= |changes| && w in TableAt(t, changes, p)
    requires NoneLate(t, changes, f, p)
    ensures var then_, now := TableAt(t, changes, f), TableAt(t, changes, p);
            || (w in then_ && now[w] == then_[w])
            || (forall v | v in then_ :: then_[v].updatedAt < now[w].updatedAt)
    decreases p
  {
    if f < p {
      var before := TableAt(t, changes, p - 1);
      assert !LateChange(before, changes[p - 1], TableAt(t, changes, f));
      if w in before {
        UntouchedOrLater(t, changes, f, p - 1, w);
      }
    }
  }

  /** A part of a map that is as large as the map is the map. */
  lemma SameSizeSameMap(part: Table, whole: Table)
    requires forall w | w in part :: w in whole && part[w] == whole[w]
    requires |part| == |whole|
    ensures part == whole
  {
    SameSizeSameSet(part.Keys, whole.Keys);
  }

  lemma SameSizeSameSet(part: set<nat>, whole: set<nat>)
    requires part <= whole && |part| == |whole|
    ensures part == whole
  {
    assert |whole - part| == |whole| - |part|;
  }

  /** Main result: an equal fingerprint hides no change, unless some publish since then was
      stamped no later than what was stored when the fingerprint was taken. */
  lemma {:induction false} EqualFingerprintMeansEqualRows(
      t: Table, changes: seq<Change>, f: nat, p: nat, fp: Fingerprint)
    requires f <= p <= |changes|
    requires NoneLate(t, changes, f, p)
    requires IsFingerprint(TableAt(t, changes, f), fp) && IsFingerprint(TableAt(t, changes, p), fp)
    ensures TableAt(t, changes, p) == TableAt(t, changes, f)
  {
    var then_, now := TableAt(t, changes, f), TableAt(t, changes, p);
    forall w | w in now
      ensures w in then_ && now[w] == then_[w]
    {
      UntouchedOrLater(t, changes, f, p, w);
      if newest :| newest in then_ && then_[newest].updatedAt == fp.newest.value {
        assert now[w].updatedAt <= then_[newest].updatedAt;
      }
    }
    SameSizeSameMap(now, then_);
  }

  /** So it is whenever update times strictly increase. */
  lemma {:induction false} IncreasingTimesHideNothing(t: Table, changes: seq<Change>, f: nat, p: nat, fp: Fingerprint)
    requires f <= p <= |changes| && Increasing(t, changes)
    requires IsFingerprint(TableAt(t, changes, f), fp) && IsFingerprint(TableAt(t, changes, p), fp)
    ensures TableAt(t, changes, p) == TableAt(t, changes, f)
  {
    forall k | f <= k < p
      ensures LaterThan(changes[k], TableAt(t, changes, f))
    {
      IncreasingMeansLater(t, changes, f, k);
    }
    EqualFingerprintMeansEqualRows(t, changes, f, p, fp);
  }

  // ----- Exactly what hides -----

  /** Another row than `w` carries the newest time. */
  ghost predicate NewestElsewhere(t: Table, w: nat, newest: Timestamp) {
    exists v | v in t :: v != w && t[v].updatedAt == newest
  }

  /** A single change that does change the table leaves the fingerprint as it was if and only
      if it edits a limit and is stamped either exactly with the newest time, or earlier while
      another row carries the newest time. */
  lemma {:induction false} ChangeHidesIff(t: Table, c: Change, fp: Fingerprint)
    requires IsFingerprint(t, fp) && Apply(t, c) != t
    ensures IsFingerprint(Apply(t, c), fp)
            <==> && c.Publish? && c.workflow in t && c.now <= fp.newest.value
                 && (c.now == fp.newest.value || NewestElsewhere(t, c.workflow, fp.newest.value))
  {
    match c
    case Unpublish(w) =>
      UnpublishShrinks(t, w);
    case Publish(w, limit, publisher, now) =>
      if w !in t {
        PublishGrows(t, w, Tier(limit, publisher, now));
      } else {
        EditHidesIff(t, w, t[w].(limit := limit, updatedAt := now), fp);
      }
  }

  lemma UnpublishShrinks(t: Table, w: nat)
    requires t - {w} != t
    ensures |t - {w}| == |t| - 1
  {
    assert w in t && (t - {w}).Keys == t.Keys - {w};
    assert |(t - {w}).Keys| == |t.Keys| - 1;
  }

  lemma PublishGrows(t: Table, w: nat, row: Tier)
    requires w !in t
    ensures |t[w := row]| == |t| + 1
  {
    assert t[w := row].Keys == t.Keys + {w};
    assert |t[w := row].Keys| == |t.Keys| + 1;
  }

  lemma EditHidesIff(t: Table, w: nat, row: Tier, fp: Fingerprint)
    requires IsFingerprint(t, fp) && w in t
    ensures IsFingerprint(t[w := row], fp)
            <==> row.updatedAt <= fp.newest.value
                 && (row.updatedAt == fp.newest.value || NewestElsewhere(t, w, fp.newest.value))
  {
    var after, m := t[w := row], fp.newest.value;
    assert after.Keys == t.Keys;
    if row.updatedAt == m {
      assert after[w].updatedAt == m;
    } else if NewestElsewhere(t, w, m) {
      var v :| v in t && v != w && t[v].updatedAt == m;
      assert after[v].updatedAt == m;
    }
    if IsFingerprint(after, fp) {
      assert after[w].updatedAt <= m;
      var v :| v in after && after[v].updatedAt == m;
      assert v != w ==> t[v].updatedAt == m;
    }
  }

  ghost predicate AllAfter(changes: seq<Change>, bound: Timestamp) {
    forall k | 0 <= k < |changes| && changes[k].Publish? :: bound < changes[k].now
  }

  /** Over whole histories: an equal fingerprint means equal rows in every continuation whose
      publishes are stamped after `bound`, if and only if `bound` is not before the newest
      time of the fingerprint. */
  lemma {:induction false} NothingHidesIff(t: Table, fp: Fingerprint, bound: Timestamp)
    requires IsFingerprint(t, fp) && t != map[]
    ensures (forall changes | AllAfter(changes, bound) && IsFingerprint(TableAt(t, changes, |changes|), fp) ::
               TableAt(t, changes, |changes|) == t)
            <==> bound >= fp.newest.value
  {
    if bound >= fp.newest.value {
      forall changes | AllAfter(changes, bound) && IsFingerprint(TableAt(t, changes, |changes|), fp)
        ensures TableAt(t, changes, |changes|) == t
      {
        forall k | 0 <= k < |changes|
          ensures LaterThan(changes[k], TableAt(t, changes, 0))
        {
          assert TableAt(t, changes, 0) == t;
        }
        EqualFingerprintMeansEqualRows(t, changes, 0, |changes|, fp);
      }
    } else {
      var w :| w in t && t[w].updatedAt == fp.newest.value;
      var c := Publish(w, if t[w].limit.None? then Some(0) else None, None, fp.newest.value);
      assert Apply(t, c)[w].limit != t[w].limit;
      ChangeHidesIff(t, c, fp);
      var changes := [c];
      assert TableAt(t, changes, 0) == t;
      assert TableAt(t, changes, 1) == Apply(t, c);
    }
  }

  // ----- The load reads rows and fingerprint in two statements -----

  /** The worker reads the rows at `r` and the fingerprint at `f`. At a poll that sees the same
      fingerprint, the registered rows are the published ones if and only if the fingerprint
      is the one of the registered rows, which the worker can check itself. */
  lemma {:induction false} PollIsSoundIff(t: Table, changes: seq<Change>, r: nat, f: nat, p: nat, fp: Fingerprint)
    requires r <= f <= p <= |changes|
    requires NoneLate(t, changes, r, p)
    requires IsFingerprint(TableAt(t, changes, f), fp) && IsFingerprint(TableAt(t, changes, p), fp)
    ensures TableAt(t, changes, r) == TableAt(t, changes, p) <==> IsFingerprint(TableAt(t, changes, r), fp)
  {
    if IsFingerprint(TableAt(t, changes, r), fp) {
      EqualFingerprintMeansEqualRows(t, changes, r, p, fp);
    }
  }

  /** A publish that commits between the two statements is never picked up. */
  lemma PublishBetweenReadsIsHidden()
    ensures var changes := [Publish(1, None, None, 5)];
            && Increasing(map[], changes)
            && IsFingerprint(TableAt(map[], changes, 1), Fingerprint(1, Some(5)))
            && TableAt(map[], changes, 0) != TableAt(map[], changes, 1)
  {
    var changes := [Publish(1, None, None, 5)];
    assert TableAt(map[], changes, 0) == map[];
    var after := TableAt(map[], changes, 1);
    assert after == map[1 := Tier(None, None, 5)];
    assert after[1].updatedAt == 5;
  }

  /** An edit stamped before another row's update, but committed after the fingerprint was
      read, is hidden. */
  lemma LateCommitIsHidden()
    ensures var t: Table := map[1 := Tier(None, None, 1), 2 := Tier(None, None, 9)];
            var c := Publish(1, Some(3), None, 5);
            && IsFingerprint(t, Fingerprint(2, Some(9)))
            && IsFingerprint(Apply(t, c), Fingerprint(2, Some(9))) && Apply(t, c) != t
  {
    var t: Table := map[1 := Tier(None, None, 1), 2 := Tier(None, None, 9)];
    var c := Publish(1, Some(3), None, 5);
    assert t[2].updatedAt == 9 && t.Keys == {1, 2};
    assert Apply(t, c)[1].limit == Some(3);
    ChangeHidesIff(t, c, Fingerprint(2, Some(9)));
  }

  // ----- The repository and the worker -----

  class BackgroundTierRepository {
    var table: Table

    constructor ()
      ensures table == map[]
    {
      table := map[];
    }

    method PublishWorkflow(
        workflow: nat, limit: Option<nat>, publisher: Option<nat>, now: Timestamp) returns (row: Tier)
      modifies this
      ensures table == Apply(old(table), Publish(workflow, limit, publisher, now))
      ensures workflow in table && row == table[workflow] && row.limit == limit
      ensures workflow in old(table) ==>
                && row.publishedBy == old(table)[workflow].publishedBy
                && row.updatedAt == if old(table)[workflow].limit == limit then old(table)[workflow].updatedAt else now
      ensures workflow !in old(table) ==> row == Tier(limit, publisher, now)
      ensures forall w | w != workflow :: w in table <==> w in old(table)
      ensures forall w | w != workflow && w in table :: table[w] == old(table)[w]
    {
      if workflow in table {
        row := table[workflow];
        if row.limit != limit {
          row := row.(limit := limit, updatedAt := now);
          table := table[workflow := row];
        }
        return;
      }
      row := Tier(limit, publisher, now);
      table := table[workflow := row];
    }

    method UnpublishWorkflow(workflow: nat)
      modifies this
      ensures table == Apply(old(table), Unpublish(workflow))
      ensures workflow !in table && table.Keys == old(table).Keys - {workflow}
      ensures forall w | w in table :: table[w] == old(table)[w]
    {
      table := table - {workflow};
    }

    /** `fingerprint`. */
    method ReadFingerprint() returns (f: Fingerprint)
      ensures IsFingerprint(table, f)
    {
      var left := table.Keys;
      var newest: Option<Timestamp> := None;
      while left != {}
        invariant left <= table.Keys
        invariant newest.None? ==> left == table.Keys
        invariant newest.Some? ==> exists w | w in table :: table[w].updatedAt == newest.value
        invariant newest.Some? ==> forall w | w in table && w !in left :: table[w].updatedAt <= newest.value
        decreases |left|
      {
        var w :| w in left;
        left := left - {w};
        if newest.None? || newest.value < table[w].updatedAt {
          newest := Some(table[w].updatedAt);
        }
      }
      f := Fingerprint(|table|, newest);
    }
  }

  /** `_self_restart_on_change` over the fingerprints it polls: it restarts at the first
      one that differs and keeps polling otherwise. */
  method SelfRestartOnChange(initial: Fingerprint, polls: seq<Fingerprint>) returns (restart: Option<nat>)
    ensures restart.Some? ==> restart.value < |polls| && polls[restart.value] != initial
    ensures forall i | 0 <= i < (if restart.Some? then restart.value else |polls|) :: polls[i] == initial
  {
    var i := 0;
    while i < |polls|
      invariant i <= |polls|
      invariant forall k | 0 <= k < i :: polls[k] == initial
    {
      if polls[i] != initial {
        return Some(i);
      }
      i := i + 1;
    }
    return None;
  }
}
