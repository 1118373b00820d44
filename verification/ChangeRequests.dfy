/** Change requests: `transition` is the only way their status moves
    (backend/repositories/change_request_repository.py). */
module ChangeRequests {
  import opened Common
  import opened CompareAndSet

  datatype Status = Staged | Approved | Deploying | Deployed | Failed | Rejected | Expired

  const TERMINAL: set<Status> := {Deployed, Failed, Rejected, Expired}

  datatype Request = Request(status: Status, fields: map<string, string>)

  /** One `transition` call on request `id`. */
  datatype Transition = Transition(id: nat, expected: set<Status>, target: Status, fields: map<string, string>)

  type Table = map<nat, Request>

  function Apply(t: Table, c: Transition): Table {
    if c.id in t && t[c.id].status in c.expected
    then t[c.id := Request(c.target, t[c.id].fields + c.fields)]
    else t
  }

  function TableAt(t: Table, calls: seq<Transition>, i: nat): Table
    requires i <= |calls|
  {
    if i == 0 then t else Apply(TableAt(t, calls, i - 1), calls[i - 1])
  }

  /** What call `c` means for request `id`: nothing, when it is about another request. */
  function CallOn(c: Transition, id: nat): Call<Status> {
    Call(if c.id == id then c.expected else {}, c.target)
  }

  function CallsOn(calls: seq<Transition>, id: nat): seq<Call<Status>> {
    seq(|calls|, i requires 0 <= i < |calls| => CallOn(calls[i], id))
  }

  /** Request `id` moves as a single compare-and-set row, whatever happens to the others. */
  lemma {:induction false} RowHistory(t: Table, calls: seq<Transition>, id: nat, i: nat)
    requires id in t && i <= |calls|
    ensures id in TableAt(t, calls, i)
    ensures TableAt(t, calls, i)[id].status == StatusAt(t[id].status, CallsOn(calls, id), i)
  {
    if i > 0 {
      RowHistory(t, calls, id, i - 1);
    }
  }

  /** The call returned the request: its guard matched and the status is the target. */
  predicate Succeeds(t: Table, calls: seq<Transition>, i: nat)
    requires i < |calls|
  {
    var now := TableAt(t, calls, i);
    calls[i].id in now && now[calls[i].id].status in calls[i].expected
  }

  /** A finished request never changes again, fields included. */
  lemma {:induction false} FinishedStaysFinished(t: Table, calls: seq<Transition>, id: nat, i: nat, j: nat)
    requires id in t && i <= j <= |calls|
    requires forall k | 0 <= k < |calls| :: calls[k].expected !! TERMINAL
    requires id in TableAt(t, calls, i) && TableAt(t, calls, i)[id].status in TERMINAL
    ensures id in TableAt(t, calls, j) && TableAt(t, calls, j)[id] == TableAt(t, calls, i)[id]
    decreases j
  {
    if i < j {
      FinishedStaysFinished(t, calls, id, i, j - 1);
    }
  }

  /** Of several approvals (or rejections, or deploys) of one request only one succeeds,
      unless some successful call in between put the request back. */
  lemma OneWinnerUnlessReverted(t: Table, calls: seq<Transition>, i: nat, j: nat) returns (k: nat)
    requires i < j < |calls| && calls[i].id == calls[j].id
    requires calls[i].target !in calls[j].expected
    requires Succeeds(t, calls, i) && Succeeds(t, calls, j)
    requires calls[i].id in t
    ensures i < k < j && calls[k].id == calls[i].id
    ensures Succeeds(t, calls, k) && calls[k].target in calls[j].expected
  {
    var id := calls[i].id;
    RowHistory(t, calls, id, i);
    RowHistory(t, calls, id, j);
    k := SecondWinnerNeedsAWayBack(t[id].status, CallsOn(calls, id), i, j);
    RowHistory(t, calls, id, k);
  }

  /** The table as `transition` changes it. */
  class ChangeRequestRepository {
    var table: Table

    constructor ()
      ensures table == map[]
    {
      table := map[];
    }

    /** `create`: a new request starts as staged. */
    method Create(id: nat, fields: map<string, string>)
      requires id !in table
      modifies this
      ensures table == old(table)[id := Request(Staged, fields)]
    {
      table := table[id := Request(Staged, fields)];
    }

    method TransitionTo(c: Transition) returns (r: Option<Request>)
      modifies this
      ensures table == Apply(old(table), c)
      ensures r.Some? <==> c.id in old(table) && old(table)[c.id].status in c.expected
      ensures r.Some? ==>
                && c.id in table && r.value == table[c.id] && r.value.status == c.target
                && r.value.fields.Keys == old(table)[c.id].fields.Keys + c.fields.Keys
                && forall f | f in r.value.fields ::
                     r.value.fields[f] == if f in c.fields then c.fields[f] else old(table)[c.id].fields[f]
      ensures r.None? ==> table == old(table)
      ensures table.Keys == old(table).Keys && forall x | x in table && x != c.id :: table[x] == old(table)[x]
    {
      var rowcount := 0;
      if c.id in table && table[c.id].status in c.expected {
        table := table[c.id := Request(c.target, table[c.id].fields + c.fields)];
        rowcount := 1;
      }
      if rowcount != 1 {
        return None;
      }
      return Some(table[c.id]);
    }
  }
}
