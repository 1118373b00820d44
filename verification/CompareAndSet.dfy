/** One status column that many writers change only by guarded updates,
    `UPDATE ... SET status = target WHERE status IN (expected)`. Each update is atomic and
    the writer is told whether it changed the row. Run rows
    (backend/repositories/run_repository.py) and change requests
    (backend/repositories/change_request_repository.py) both work this way. */
module CompareAndSet {

  datatype Call<S> = Call(expected: set<S>, target: S)

  function After<S(==)>(status: S, c: Call<S>): S {
    if status in c.expected then c.target else status
  }

  /** The status after the first `i` calls. */
  function StatusAt<S(==)>(start: S, calls: seq<Call<S>>, i: nat): S
    requires i <= |calls|
  {
    if i == 0 then start else After(StatusAt(start, calls, i - 1), calls[i - 1])
  }

  /** Call `i` is told that it changed the row. */
  predicate Wins<S(==)>(start: S, calls: seq<Call<S>>, i: nat)
    requires i < |calls|
  {
    StatusAt(start, calls, i) in calls[i].expected
  }

  /** A guard leaves the terminal statuses alone: it names none, except as its own target. */
  predicate Respects<S(==)>(c: Call<S>, terminal: set<S>) {
    c.expected * terminal <= {c.target}
  }

  /** Exactly the guards that can never change a terminal status. */
  lemma RespectsIffTerminalKept<S>(c: Call<S>, terminal: set<S>)
    ensures Respects(c, terminal) <==> forall s | s in terminal :: After(s, c) == s
  {
    if forall s | s in terminal :: After(s, c) == s {
      forall s | s in c.expected * terminal
        ensures s == c.target
      {
        assert After(s, c) == s;
      }
    } else {
      var s :| s in terminal && After(s, c) != s;
      assert s in c.expected * terminal;
    }
  }

  /** Terminal statuses are absorbing under every interleaving of such calls. */
  lemma {:induction false} TerminalIsAbsorbing<S>(start: S, calls: seq<Call<S>>, terminal: set<S>, i: nat, j: nat)
    requires i <= j <= |calls|
    requires forall k | i <= k < j :: Respects(calls[k], terminal)
    requires StatusAt(start, calls, i) in terminal
    ensures StatusAt(start, calls, j) == StatusAt(start, calls, i)
    decreases j
  {
    if i < j {
      TerminalIsAbsorbing(start, calls, terminal, i, j - 1);
      assert Respects(calls[j - 1], terminal);
      var s := StatusAt(start, calls, j - 1);
      if s in calls[j - 1].expected {
        assert s in calls[j - 1].expected * terminal;
      }
    }
  }

  /** At most one caller is told that it made the terminal move: a later one that is told so
      too wrote the same terminal status again, and its own guard names that status. */
  lemma OneTerminalMove<S>(start: S, calls: seq<Call<S>>, terminal: set<S>, i: nat, j: nat)
    requires i <= j < |calls|
    requires forall k | 0 <= k < |calls| :: Respects(calls[k], terminal)
    requires Wins(start, calls, i) && calls[i].target in terminal
    requires Wins(start, calls, j) && calls[j].target in terminal
    ensures i == j || (calls[j].target == calls[i].target && calls[j].target in calls[j].expected)
  {
    if i < j {
      TerminalIsAbsorbing(start, calls, terminal, i + 1, j);
      assert Respects(calls[j], terminal);
      assert calls[i].target in calls[j].expected * terminal;
    }
  }

  /** Two winners in a row need somebody in between: if call `i` moved the row out of the
      statuses that call `j` expects and `j` still wins, another winner moved it back. */
  lemma {:induction false} SecondWinnerNeedsAWayBack<S>(start: S, calls: seq<Call<S>>, i: nat, j: nat) returns (k: nat)
    requires i < j < |calls|
    requires Wins(start, calls, i) && calls[i].target !in calls[j].expected
    requires Wins(start, calls, j)
    ensures i < k < j && Wins(start, calls, k) && calls[k].target in calls[j].expected
  {
    assert StatusAt(start, calls, i + 1) == calls[i].target;
    k := LastMoveInto(start, calls, i + 1, j, calls[j].expected);
  }

  /** A status that was outside `into` and is inside later was moved there by a winner. */
  lemma {:induction false} LastMoveInto<S>(start: S, calls: seq<Call<S>>, i: nat, j: nat, into: set<S>) returns (k: nat)
    requires i <= j <= |calls|
    requires StatusAt(start, calls, i) !in into && StatusAt(start, calls, j) in into
    ensures i <= k < j && Wins(start, calls, k) && calls[k].target in into
    decreases j
  {
    if StatusAt(start, calls, j - 1) in into {
      k := LastMoveInto(start, calls, i, j - 1, into);
    } else {
      k := j - 1;
    }
  }
}
