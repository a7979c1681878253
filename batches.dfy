/** The shape every insert loop of the job has: a for loop over the rows,
    one statement per row, with a single try around the whole loop. The
    first statement that fails ends the loop; the rows after it are never
    sent. The effect of one statement on its table is a step function
    (None when the statement fails on its own, a key conflict for one), and
    faults holds the positions where the database fails for a reason
    outside the model. */
module Batches {
  import opened Common

  /** The table after the loop, and the position of the failing row if the
      loop was cut short. */
  datatype Run<T> = Run(table: T, failedAt: Option<nat>)

  function RunAll<T, R>(t: T, rows: seq<R>, faults: set<nat>, step: (T, R) -> Option<T>): (r: Run<T>)
    ensures r.failedAt.Some? ==> r.failedAt.value < |rows|
    decreases |rows|
  {
    if rows == [] then Run(t, None)
    else
      var prev := RunAll(t, rows[..|rows| - 1], faults, step);
      var i := |rows| - 1;
      if prev.failedAt.Some? then prev
      else if i in faults then Run(prev.table, Some(i))
      else match step(prev.table, rows[i])
        case None => Run(prev.table, Some(i))
        case Some(t') => Run(t', None)
  }

  /** Once a row has failed, further rows change nothing: the first failing
      statement skips all the remaining ones. */
  lemma {:induction false} RunAllStopsAtFailure<T, R>(t: T, rows: seq<R>, more: seq<R>, faults: set<nat>,
                                                      step: (T, R) -> Option<T>)
    requires RunAll(t, rows, faults, step).failedAt.Some?
    ensures RunAll(t, rows + more, faults, step) == RunAll(t, rows, faults, step)
    decreases |more|
  {
    if more != [] {
      var all := rows + more;
      assert all[..|all| - 1] == rows + more[..|more| - 1];
      RunAllStopsAtFailure(t, rows, more[..|more| - 1], faults, step);
    } else {
      assert rows + more == rows;
    }
  }

  /** A run that fails, fails at its first failing row: the rows before it
      all went through and left the table the run ends with, and that row
      failed, by a fault or because its statement was refused. */
  lemma {:induction false} RunAllFirstFailure<T, R>(t: T, rows: seq<R>, faults: set<nat>, step: (T, R) -> Option<T>)
    requires RunAll(t, rows, faults, step).failedAt.Some?
    ensures var r := RunAll(t, rows, faults, step);
      var j := r.failedAt.value;
      && RunAll(t, rows[..j], faults, step) == Run(r.table, None)
      && (j in faults || step(r.table, rows[j]).None?)
    decreases |rows|
  {
    var n := |rows| - 1;
    var prev := RunAll(t, rows[..n], faults, step);
    if prev.failedAt.Some? {
      RunAllFirstFailure(t, rows[..n], faults, step);
      var j := prev.failedAt.value;
      assert rows[..n][..j] == rows[..j];
      assert rows[..n][j] == rows[j];
    }
  }

  /** A run without failure met no fault at any of its rows. */
  lemma {:induction false} RunAllNoFault<T, R>(t: T, rows: seq<R>, faults: set<nat>, step: (T, R) -> Option<T>, i: nat)
    requires RunAll(t, rows, faults, step).failedAt.None?
    requires i < |rows|
    ensures i !in faults
    decreases |rows|
  {
    var n := |rows| - 1;
    if i < n {
      RunAllNoFault(t, rows[..n], faults, step, i);
    }
  }

  /** A loop over a single row: it fails by a fault at position 0 or by the
      statement's refusal, and otherwise leaves the statement's table. */
  lemma RunAllSingle<T, R>(t: T, row: R, faults: set<nat>, step: (T, R) -> Option<T>)
    ensures RunAll(t, [row], faults, step) ==
      if 0 in faults || step(t, row).None? then Run(t, Some(0)) else Run(step(t, row).value, None)
  {
    assert [row][..0] == [];
  }
}
