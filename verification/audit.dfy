/** The audit file `processed_users.csv`: opened for appending, given the
    column header when it is empty, then one row per successful
    deactivation, in worklist order. Failures are not written. */
module Audit {
  import opened Calls
  import opened Reconcile

  const Deactivated: string := "Deactivated"

  /** One row of the audit file: the column header (Email, User ID, Status,
      Timestamp) or one deactivation. */
  datatype Row = Header | Record(email: string, id: int, status: string, stamp: string)

  /** The header row, written only into an empty file. */
  function HeaderIfEmpty(log: seq<Row>): seq<Row>
  {
    if |log| == 0 then [Header] else []
  }

  /** The number of successes. */
  function Count(outcomes: seq<bool>): nat
  {
    if |outcomes| == 0 then 0
    else Count(outcomes[..|outcomes| - 1]) + (if outcomes[|outcomes| - 1] then 1 else 0)
  }

  /** The row for worklist entry `k`, stamped with the time `clock(k)`. */
  function RecordFor(worklist: seq<Entry>, clock: nat -> string, k: nat): Row
    requires k < |worklist|
  {
    Record(worklist[k].email, worklist[k].id, Deactivated, clock(k))
  }

  /** The rows written for the first `|outcomes|` worklist entries, where
      `outcomes[k]` says whether entry `k` was deactivated. */
  function Logged(worklist: seq<Entry>, outcomes: seq<bool>, clock: nat -> string): (rows: seq<Row>)
    requires |outcomes| <= |worklist|
    ensures |rows| == Count(outcomes)
    ensures forall i :: 0 <= i < |rows| ==> rows[i].Record? && rows[i].status == Deactivated
  {
    if |outcomes| == 0 then []
    else
      var k := |outcomes| - 1;
      Logged(worklist, outcomes[..k], clock)
        + (if outcomes[k] then [RecordFor(worklist, clock, k)] else [])
  }

  /** `row` is the row of a worklist entry that was deactivated. */
  predicate FromSuccess(worklist: seq<Entry>, outcomes: seq<bool>, clock: nat -> string, row: Row)
    requires |outcomes| <= |worklist|
  {
    exists k :: 0 <= k < |outcomes| && outcomes[k] && row == RecordFor(worklist, clock, k)
  }

  /** Every row written is the row of an entry that was deactivated, and
      every deactivated entry has its row. */
  lemma {:induction false} LoggedExactlySuccesses(worklist: seq<Entry>, outcomes: seq<bool>, clock: nat -> string)
    requires |outcomes| <= |worklist|
    ensures forall i :: 0 <= i < |Logged(worklist, outcomes, clock)| ==>
              FromSuccess(worklist, outcomes, clock, Logged(worklist, outcomes, clock)[i])
    ensures forall k :: 0 <= k < |outcomes| && outcomes[k] ==>
              RecordFor(worklist, clock, k) in Logged(worklist, outcomes, clock)
  {
    if |outcomes| > 0 {
      var k := |outcomes| - 1;
      var front := outcomes[..k];
      LoggedExactlySuccesses(worklist, front, clock);
      var rows := Logged(worklist, outcomes, clock);
      var before := Logged(worklist, front, clock);
      var last := if outcomes[k] then [RecordFor(worklist, clock, k)] else [];
      assert rows == before + last;
      forall i | 0 <= i < |rows|
        ensures FromSuccess(worklist, outcomes, clock, rows[i])
      {
        if i < |before| {
          assert rows[i] == before[i];
          assert FromSuccess(worklist, front, clock, before[i]);
          var j :| 0 <= j < |front| && front[j] && before[i] == RecordFor(worklist, clock, j);
          assert outcomes[j] == front[j];
        } else {
          assert outcomes[k] && rows[i] == RecordFor(worklist, clock, k);
        }
      }
      forall j | 0 <= j < |outcomes| && outcomes[j]
        ensures RecordFor(worklist, clock, j) in rows
      {
        if j < k {
          assert front[j] == outcomes[j];
          assert RecordFor(worklist, clock, j) in before;
        } else {
          assert rows[|rows| - 1] == RecordFor(worklist, clock, k);
        }
      }
    }
  }

  /** The rows follow the worklist: the row of deactivated entry `k` comes
      right after the rows of the successes before it. */
  lemma {:induction false} LoggedInOrder(worklist: seq<Entry>, outcomes: seq<bool>, clock: nat -> string)
    requires |outcomes| <= |worklist|
    ensures forall k :: 0 <= k < |outcomes| && outcomes[k] ==>
              && Count(outcomes[..k]) < |Logged(worklist, outcomes, clock)|
              && Logged(worklist, outcomes, clock)[Count(outcomes[..k])] == RecordFor(worklist, clock, k)
  {
    if |outcomes| > 0 {
      var n := |outcomes| - 1;
      var front := outcomes[..n];
      LoggedInOrder(worklist, front, clock);
      var rows := Logged(worklist, outcomes, clock);
      var before := Logged(worklist, front, clock);
      assert rows == before + (if outcomes[n] then [RecordFor(worklist, clock, n)] else []);
      forall k | 0 <= k < |outcomes| && outcomes[k]
        ensures Count(outcomes[..k]) < |rows| && rows[Count(outcomes[..k])] == RecordFor(worklist, clock, k)
      {
        if k < n {
          assert outcomes[..k] == front[..k];
          assert front[k] == outcomes[k];
        } else {
          assert outcomes[..k] == front;
        }
      }
    }
  }

  /** When every deactivation fails, nothing is written. */
  lemma {:induction false} FailuresWriteNothing(worklist: seq<Entry>, outcomes: seq<bool>, clock: nat -> string)
    requires |outcomes| <= |worklist|
    requires forall k :: 0 <= k < |outcomes| ==> !outcomes[k]
    ensures Logged(worklist, outcomes, clock) == []
  {
    if |outcomes| > 0 {
      FailuresWriteNothing(worklist, outcomes[..|outcomes| - 1], clock);
    }
  }

  /** `deactivate_user` for worklist entry `k` sees `respond(k, 0)` and
      `respond(k, 1)` as the answers to its first and second POST. */
  function Outcome(respond: (nat, nat) -> Response, k: nat): bool
  {
    DeactivateUser(respond(k, 0), respond(k, 1)).ok
  }

  /** The audit file after appending `rows` of deactivations to `log`: the
      old rows kept, a header iff `log` was empty, and only Deactivated
      records after that. */
  lemma AppendedFile(log: seq<Row>, rows: seq<Row>)
    requires forall i :: 0 <= i < |rows| ==> rows[i].Record? && rows[i].status == Deactivated
    ensures var out := log + HeaderIfEmpty(log) + rows;
      && |out| == |log| + |HeaderIfEmpty(log)| + |rows|
      && out[..|log|] == log
      && (|log| == 0 ==> out[0] == Header)
      && forall i :: |log + HeaderIfEmpty(log)| <= i < |out| ==> out[i].Record? && out[i].status == Deactivated
  {
    var out := log + HeaderIfEmpty(log) + rows;
    var start := |log + HeaderIfEmpty(log)|;
    assert out[..|log|] == log;
    forall i | start <= i < |out|
      ensures out[i].Record? && out[i].status == Deactivated
    {
      assert out[i] == rows[i - start];
    }
  }

  /** The deactivation loop of `process_users` over an audit file holding
      `log`: the file afterwards, and the outcome for each entry. */
  method DeactivateAll(log: seq<Row>, worklist: seq<Entry>, respond: (nat, nat) -> Response, clock: nat -> string)
    returns (out: seq<Row>, outcomes: seq<bool>)
    ensures |outcomes| == |worklist|
    ensures forall k :: 0 <= k < |worklist| ==> outcomes[k] == Outcome(respond, k)
    ensures out == log + HeaderIfEmpty(log) + Logged(worklist, outcomes, clock)
    ensures |log| <= |out| && out[..|log|] == log
    ensures |log| == 0 ==> out[0] == Header
    ensures forall i :: |log + HeaderIfEmpty(log)| <= i < |out| ==> out[i].Record? && out[i].status == Deactivated
    ensures |out| == |log| + |HeaderIfEmpty(log)| + Count(outcomes)
  {
    var rows := [];
    outcomes := [];
    var k := 0;
    while k < |worklist|
      invariant 0 <= k <= |worklist|
      invariant |outcomes| == k
      invariant forall j :: 0 <= j < k ==> outcomes[j] == Outcome(respond, j)
      invariant rows == Logged(worklist, outcomes, clock)
    {
      var ok := DeactivateUser(respond(k, 0), respond(k, 1)).ok;
      if ok {
        rows := rows + [Record(worklist[k].email, worklist[k].id, Deactivated, clock(k))];
      }
      assert (outcomes + [ok])[..k] == outcomes;
      outcomes := outcomes + [ok];
      k := k + 1;
    }
    out := log;
    if |log| == 0 {
      out := out + [Header];
    }
    out := out + rows;
    AppendedFile(log, Logged(worklist, outcomes, clock));
  }
}
