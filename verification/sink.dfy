/**
 * The row sink: the loop that hands each row to printRecord. A failing
 * printRecord is logged and the loop goes on with the next row. Whether the
 * call for row i succeeds is given as ok[i].
 */
module Sink {
  import opened Logging

  /** Number of successful writes. */
  function Successes(ok: seq<bool>): (n: nat)
    ensures n <= |ok|
  {
    if ok == [] then 0 else (if ok[0] then 1 else 0) + Successes(ok[1..])
  }

  /** The rows whose write succeeded, in order. */
  function Kept<R>(rows: seq<R>, ok: seq<bool>): (kept: seq<R>)
    requires |ok| == |rows|
    ensures |kept| == Successes(ok)
  {
    if rows == [] then []
    else (if ok[0] then [rows[0]] else []) + Kept(rows[1..], ok[1..])
  }

  /** The rows whose write failed, in order. */
  function Dropped<R>(rows: seq<R>, ok: seq<bool>): (dropped: seq<R>)
    requires |ok| == |rows|
    ensures |dropped| == |rows| - Successes(ok)
  {
    if rows == [] then []
    else (if ok[0] then [] else [rows[0]]) + Dropped(rows[1..], ok[1..])
  }

  /** One SEVERE record per failed row, carrying its values, in order. */
  function FailureLog<V>(failed: seq<seq<V>>): (log: seq<Record<V>>)
    ensures |log| == |failed|
    ensures forall k :: 0 <= k < |failed| ==> log[k] == Record(Severe, PrintRecordFailed(failed[k]))
  {
    if failed == [] then [] else [Record(Severe, PrintRecordFailed(failed[0]))] + FailureLog(failed[1..])
  }

  /** The outcome of each of the first n printRecord calls, by row position. */
  function Outcomes(printOk: nat -> bool, n: nat): (ok: seq<bool>)
    ensures |ok| == n
    ensures forall i :: 0 <= i < n ==> ok[i] == printOk(i)
  {
    OutcomesFrom(printOk, 0, n)
  }

  /** The outcomes of the n calls starting at row position from. */
  function OutcomesFrom(printOk: nat -> bool, from: nat, n: nat): (ok: seq<bool>)
    ensures |ok| == n
    ensures forall i :: 0 <= i < n ==> ok[i] == printOk(from + i)
    decreases n
  {
    if n == 0 then [] else [printOk(from)] + OutcomesFrom(printOk, from + 1, n - 1)
  }

  /**
   * The forEach over rows: try each row in order, collect the written and
   * the failed ones. The call for row i succeeds iff printOk(i).
   */
  method PrintRecords<R>(rows: seq<R>, printOk: nat -> bool) returns (printed: seq<R>, lost: seq<R>)
    ensures printed == Kept(rows, Outcomes(printOk, |rows|))
    ensures lost == Dropped(rows, Outcomes(printOk, |rows|))
  {
    var ok := Outcomes(printOk, |rows|);
    printed, lost := [], [];
    var i := 0;
    while i < |rows|
      invariant 0 <= i <= |rows|
      invariant printed + Kept(rows[i..], ok[i..]) == Kept(rows, ok)
      invariant lost + Dropped(rows[i..], ok[i..]) == Dropped(rows, ok)
    {
      assert rows[i..][1..] == rows[i + 1..] && ok[i..][1..] == ok[i + 1..];
      if ok[i] {
        printed := printed + [rows[i]];
      } else {
        lost := lost + [rows[i]];
      }
      i := i + 1;
    }
  }

  /**
   * Failure isolation: row i, if its write succeeds, is the
   * (number of successes before it)-th row written, so every other row is
   * still written, in order, whatever fails around it.
   */
  lemma {:induction false} KeptPosition<R>(rows: seq<R>, ok: seq<bool>, i: nat)
    requires |ok| == |rows| && i < |rows| && ok[i]
    ensures Successes(ok[..i]) < |Kept(rows, ok)|
    ensures Kept(rows, ok)[Successes(ok[..i])] == rows[i]
  {
    if i == 0 {
      assert ok[..0] == [];
    } else {
      KeptPosition(rows[1..], ok[1..], i - 1);
      assert ok[..i][1..] == ok[1..][..i - 1];
      assert ok[..i][0] == ok[0];
    }
  }

  /** Every row is either written or logged as failed, none twice. */
  lemma {:induction false} KeptDroppedPartition<R>(rows: seq<R>, ok: seq<bool>)
    requires |ok| == |rows|
    ensures multiset(Kept(rows, ok)) + multiset(Dropped(rows, ok)) == multiset(rows)
  {
    if rows != [] {
      KeptDroppedPartition(rows[1..], ok[1..]);
      assert rows == [rows[0]] + rows[1..];
    }
  }

  /** When no write fails, every row is written, in order. */
  lemma {:induction false} AllWritten<R>(rows: seq<R>, ok: seq<bool>)
    requires |ok| == |rows|
    requires forall i :: 0 <= i < |ok| ==> ok[i]
    ensures Kept(rows, ok) == rows
    ensures Dropped(rows, ok) == []
  {
    if rows != [] {
      AllWritten(rows[1..], ok[1..]);
    }
  }
}
