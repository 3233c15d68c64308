/** The transactional write of the Bridge: the adapters' `writePowered` against a driver whose
    every call may fail. */
module WriteProtocol {
  import opened JsText
  import opened Movement

  datatype Dialect = SqlServer | Oracle | Postgres

  datatype WriteSpec = WriteSpec(table: string, replace: bool, allowIdentityInsert: bool, relaxConstraints: bool)

  /** A call to the open transaction. `Relax` and `Recheck` turn constraint checking off and
      on; in Postgres `Relax` lasts to the end of the transaction and there is no `Recheck`. */
  datatype Call = Relax | Recheck | Truncate | Send(text: string, values: seq<Value>) | Commit | Rollback

  datatype Event = Event(call: Call, ok: bool)

  datatype Status = Completed | Failed

  datatype Summary = Summary(
    status: Status, rowsRead: nat, rowsWritten: nat, errors: seq<(nat, string)>, failedAtRow: Option<nat>)

  // ----- the driver -----

  /** An open transaction whose n-th call works or throws as `works(n)` says. A driver that
      `reports` returns a failed summary for a failing insert instead of throwing. */
  class Transaction {
    const dialect: Dialect
    const works: nat -> bool
    const reports: bool
    var calls: seq<Event>
    var released: nat

    constructor (dialect: Dialect, works: nat -> bool, reports: bool)
      ensures calls == [] && released == 0 && this.dialect == dialect
    {
      this.dialect, this.works, this.reports := dialect, works, reports;
      calls, released := [], 0;
    }

    /** A successful COMMIT or ROLLBACK hands the Postgres client back to its pool. */
    method Do(call: Call) returns (ok: bool)
      modifies this
      ensures calls == old(calls) + [Event(call, ok)]
      ensures released == old(released) + (if dialect.Postgres? && (call.Commit? || call.Rollback?) && ok then 1 else 0)
    {
      ok := works(|calls|);
      calls := calls + [Event(call, ok)];
      if dialect.Postgres? && (call.Commit? || call.Rollback?) && ok {
        released := released + 1;
      }
    }
  }

  // ----- the planned calls -----

  /** How a batch becomes a statement, for one dialect, table and set of options. */
  type Statement = Batch -> Call

  /** One statement per batch that is not empty. */
  function InsertCalls(statement: Statement, batches: seq<Batch>): seq<Call>
  {
    if batches == [] then []
    else
      var n := |batches| - 1;
      InsertCalls(statement, batches[..n]) + (if batches[n] == [] then [] else [statement(batches[n])])
  }

  function Opening(spec: WriteSpec): seq<Call>
  {
    (if spec.relaxConstraints then [Relax] else []) + (if spec.replace then [Truncate] else [])
  }

  function Closing(dialect: Dialect, spec: WriteSpec): seq<Call>
  {
    (if spec.relaxConstraints && !dialect.Postgres? then [Recheck] else []) + [Commit]
  }

  function Plan(dialect: Dialect, spec: WriteSpec, statement: Statement, batches: seq<Batch>): seq<Call>
  {
    Opening(spec) + InsertCalls(statement, batches) + Closing(dialect, spec)
  }

  /** The first `k` planned calls were made first, in order, and worked. */
  ghost predicate Ran(plan: seq<Call>, calls: seq<Event>, k: nat)
  {
    k <= |plan| && k <= |calls| && forall i :: 0 <= i < k ==> calls[i] == Event(plan[i], true)
  }

  /** Those were all the calls. */
  ghost predicate DoneUpTo(plan: seq<Call>, calls: seq<Event>, k: nat)
  {
    |calls| == k && Ran(plan, calls, k)
  }

  /** The plan relaxes constraints first and checks them again. */
  ghost predicate Restores(plan: seq<Call>)
  {
    plan != [] && plan[0] == Relax && Recheck in plan
  }

  /** After those came at most the failing call number `k`, and then nothing but attempts to
      roll back and, if constraints had been relaxed, to restore them. */
  ghost predicate BrokenAt(plan: seq<Call>, calls: seq<Event>, k: nat)
  {
    && k < |plan| && Ran(plan, calls, k)
    && forall i :: k <= i < |calls| ==>
         || (i == k && calls[i] == Event(plan[k], false))
         || calls[i].call.Rollback?
         || (calls[i].call.Recheck? && k > 0 && Restores(plan))
  }

  lemma BrokenStaysBroken(plan: seq<Call>, calls: seq<Event>, k: nat, e: Event)
    requires BrokenAt(plan, calls, k) && (e.call.Rollback? || (e.call.Recheck? && k > 0 && Restores(plan)))
    ensures BrokenAt(plan, calls + [e], k)
  {
  }

  lemma NextCall(plan: seq<Call>, calls: seq<Event>, k: nat)
    requires DoneUpTo(plan, calls, k) && k < |plan|
    ensures DoneUpTo(plan, calls + [Event(plan[k], true)], k + 1)
    ensures BrokenAt(plan, calls, k)
    ensures BrokenAt(plan, calls + [Event(plan[k], false)], k)
  {
  }

  ghost predicate Rechecks(calls: seq<Event>)
  {
    exists e :: e in calls && e.call.Recheck?
  }

  ghost predicate EndsInRollback(calls: seq<Event>)
  {
    calls != [] && calls[|calls| - 1].call.Rollback?
  }

  /** Constraints that were relaxed have been checked again, or that was at least tried. */
  ghost predicate RecheckTried(dialect: Dialect, calls: seq<Event>)
  {
    Event(Relax, true) in calls && !dialect.Postgres? ==> Rechecks(calls)
  }

  ghost predicate NoCommit(calls: seq<Event>)
  {
    forall e :: e in calls ==> !e.call.Commit?
  }

  ghost predicate AllWorked(calls: seq<Event>)
  {
    forall e :: e in calls ==> e.ok
  }

  /** What a write that gave up can show for it: the stream failed, and then no COMMIT was
      sent, or one of its calls failed. */
  ghost predicate Excused(stream: Stream, calls: seq<Event>)
  {
    if stream.failure.Some? then NoCommit(calls) else !AllWorked(calls)
  }

  lemma ExcusedStaysExcused(stream: Stream, calls: seq<Event>, e: Event)
    requires Excused(stream, calls) && !e.call.Commit?
    ensures Excused(stream, calls + [e])
  {
    assert forall c :: c in calls ==> c in calls + [e];
  }

  lemma FailingCallExcuses(stream: Stream, calls: seq<Event>, call: Call)
    requires NoCommit(calls) && (call.Commit? ==> stream.failure.None?)
    ensures Excused(stream, calls + [Event(call, false)])
  {
    assert Event(call, false) in calls + [Event(call, false)];
  }

  /** Constraints are relaxed first if that is asked for, and next the table is emptied if that
      is: both before anything else, and at least tried. */
  ghost predicate Opened(spec: WriteSpec, calls: seq<Event>)
  {
    var t := if spec.relaxConstraints then 1 else 0;
    && (spec.relaxConstraints ==> |calls| > 0 && calls[0].call.Relax?)
    && (spec.replace ==> (|calls| > t && calls[t].call.Truncate?) || (t == 1 && !calls[0].ok))
  }

  /** Where a call may stand: everything up to the COMMIT only after calls that all worked, the
      rows only after the opening, and the COMMIT right after the recheck of what was relaxed. */
  ghost predicate InPlace(dialect: Dialect, spec: WriteSpec, calls: seq<Event>, i: nat)
    requires i < |calls|
  {
    var t := if spec.relaxConstraints then 1 else 0;
    match calls[i].call
    case Relax => spec.relaxConstraints && i == 0
    case Truncate => spec.replace && i == t && AllWorked(calls[..i])
    case Send(_, _) => i >= (if spec.replace then t + 1 else t) && AllWorked(calls[..i])
    case Recheck => spec.relaxConstraints && !dialect.Postgres? && i > 0 && calls[0] == Event(Relax, true)
    case Commit =>
      && i >= (if spec.replace then t + 1 else t) && AllWorked(calls[..i])
      && (spec.relaxConstraints && !dialect.Postgres? ==> i > 0 && calls[i - 1].call.Recheck?)
    case Rollback => true
  }

  ghost predicate AllInPlace(dialect: Dialect, spec: WriteSpec, calls: seq<Event>)
  {
    forall i :: 0 <= i < |calls| ==> InPlace(dialect, spec, calls, i)
  }

  /** The contract of a powered write whose transaction was opened: it completes iff the stream
      and every call worked, and a COMMIT is never sent for a stream that failed. */
  ghost predicate WriteContract(dialect: Dialect, spec: WriteSpec, statement: Statement, stream: Stream,
                                result: Summary, calls: seq<Event>, released: nat)
  {
    var plan := Plan(dialect, spec, statement, stream.batches);
    && calls != [] && Opened(spec, calls) && AllInPlace(dialect, spec, calls)
    && (result.status.Completed? <==> stream.failure.None? && AllWorked(calls))
    && (stream.failure.Some? ==> NoCommit(calls))
    && (result.status.Completed? ==>
         DoneUpTo(plan, calls, |plan|) && stream.failure.None? &&
         result == Summary(Completed, |Flatten(stream.batches)|, |Flatten(stream.batches)|, [], None))
    && (result.status.Failed? ==>
         (exists k: nat :: BrokenAt(plan, calls, k)) && EndsInRollback(calls) && RecheckTried(dialect, calls))
    && (dialect.Postgres? ==> released <= 1 && (released == 0 <==> !calls[|calls| - 1].ok))
  }

  /** Read off the contract: constraints are relaxed before anything else, and nothing else is
      done when that failed; the table is emptied before any row is sent and before the COMMIT;
      and neither is done, nor are constraints touched, unless it was asked for. */
  lemma AskedForFirst(dialect: Dialect, spec: WriteSpec, statement: Statement, stream: Stream,
                      result: Summary, calls: seq<Event>, released: nat)
    requires WriteContract(dialect, spec, statement, stream, result, calls, released)
    ensures spec.relaxConstraints ==> calls[0].call.Relax?
    ensures spec.relaxConstraints && !calls[0].ok ==> forall i :: 0 < i < |calls| ==> calls[i].call.Rollback?
    ensures !spec.relaxConstraints ==> forall e :: e in calls ==> !e.call.Relax? && !e.call.Recheck?
    ensures spec.replace ==> forall i :: 0 <= i < |calls| && (calls[i].call.Send? || calls[i].call.Commit?) ==>
      Event(Truncate, true) in calls[..i]
    ensures !spec.replace ==> forall e :: e in calls ==> !e.call.Truncate?
  {
    var t := if spec.relaxConstraints then 1 else 0;
    forall i | 0 <= i < |calls| && (calls[i].call.Send? || calls[i].call.Commit?) && spec.replace
      ensures Event(Truncate, true) in calls[..i]
    {
      assert InPlace(dialect, spec, calls, i);
      assert t > 0 ==> calls[..i][0] in calls[..i];
      assert calls[..i][t] in calls[..i];
    }
    if spec.relaxConstraints && !calls[0].ok {
      forall i | 0 < i < |calls| ensures calls[i].call.Rollback? {
        assert InPlace(dialect, spec, calls, i);
        assert calls[..i][0] in calls[..i];
      }
    }
    forall e | e in calls
      ensures (e.call.Relax? || e.call.Recheck? ==> spec.relaxConstraints) && (e.call.Truncate? ==> spec.replace)
    {
      var i :| 0 <= i < |calls| && calls[i] == e;
      assert InPlace(dialect, spec, calls, i);
    }
  }

  function FailedSummary(n: nat, message: string): Summary
  {
    Summary(Failed, n, n, [(n, message)], Some(n))
  }

  /** No call up to the last row failed. */
  ghost predicate RowsSent(calls: seq<Event>)
  {
    forall e :: e in calls && (e.call.Relax? || e.call.Truncate? || e.call.Send?) ==> e.ok
  }

  /** The statement for batch `b` was sent and failed; `opening` calls came before the rows. */
  ghost predicate BatchFailed(statement: Statement, batches: seq<Batch>, opening: nat, calls: seq<Event>, b: nat)
    requires b < |batches|
  {
    var i := opening + |InsertCalls(statement, batches[..b])|;
    batches[b] != [] && i < |calls| && calls[i] == Event(statement(batches[b]), false)
  }

  /** The number of rows that a write reports when it fails: all of them once the inserts have
      returned, the rows before the failing batch if the driver reports that, and else none. */
  ghost predicate RowsKnown(statement: Statement, spec: WriteSpec, stream: Stream, calls: seq<Event>,
                            reports: bool, n: nat)
  {
    var opening := (if spec.relaxConstraints then 1 else 0) + (if spec.replace then 1 else 0);
    if stream.failure.None? && RowsSent(calls) then n == |Flatten(stream.batches)|
    else n == 0 || (reports && RowsBeforeFailure(statement, stream.batches, opening, calls, n))
  }

  ghost predicate RowsBeforeFailure(statement: Statement, batches: seq<Batch>, opening: nat, calls: seq<Event>, n: nat)
  {
    exists b :: 0 <= b < |batches| && BatchFailed(statement, batches, opening, calls, b) && n == |Flatten(batches[..b])|
  }

  /** What comes after the rows: rechecks, the COMMIT and rollbacks. */
  ghost predicate Trails(before: seq<Event>, after: seq<Event>)
  {
    before <= after &&
    forall i :: |before| <= i < |after| ==>
      after[i].call.Recheck? || after[i].call.Commit? || after[i].call.Rollback?
  }

  lemma TrailingCallsKeepRows(statement: Statement, spec: WriteSpec, stream: Stream,
                              before: seq<Event>, after: seq<Event>, reports: bool, n: nat)
    requires Trails(before, after)
    ensures RowsSent(before) <==> RowsSent(after)
    ensures RowsKnown(statement, spec, stream, before, reports, n) ==>
            RowsKnown(statement, spec, stream, after, reports, n)
  {
    assert forall e :: e in before ==> e in after;
    if RowsSent(before) {
      forall e | e in after && (e.call.Relax? || e.call.Truncate? || e.call.Send?) ensures e.ok {
        var i :| 0 <= i < |after| && after[i] == e;
        assert after[i] == before[i] && before[i] in before;
      }
    }
    var opening := (if spec.relaxConstraints then 1 else 0) + (if spec.replace then 1 else 0);
    if RowsBeforeFailure(statement, stream.batches, opening, before, n) {
      var b :| 0 <= b < |stream.batches| && BatchFailed(statement, stream.batches, opening, before, b) &&
        n == |Flatten(stream.batches[..b])|;
      assert BatchFailed(statement, stream.batches, opening, after, b);
    }
  }

  /** What a failed write tells: its rows, one error at that row, and, if no call before the end
      of the rows failed, the stream's own message. */
  ghost predicate TellsFailure(statement: Statement, spec: WriteSpec, stream: Stream, result: Summary,
                               calls: seq<Event>, reports: bool)
  {
    && |result.errors| == 1
    && result == FailedSummary(result.rowsWritten, result.errors[0].1)
    && RowsKnown(statement, spec, stream, calls, reports, result.rowsWritten)
    && (stream.failure.Some? && RowsSent(calls) ==> result.errors[0].1 == stream.failure.value)
  }

  /** What turns batches into statements makes nothing else. */
  ghost predicate Sends(statement: Statement)
  {
    forall batch :: statement(batch).Send?
  }

  lemma {:induction false} InsertCallsSend(statement: Statement, batches: seq<Batch>)
    requires Sends(statement)
    ensures forall c :: c in InsertCalls(statement, batches) ==> c.Send?
  {
    if batches != [] {
      InsertCallsSend(statement, batches[..|batches| - 1]);
    }
  }

  lemma OpenedStays(spec: WriteSpec, before: seq<Event>, after: seq<Event>)
    requires Opened(spec, before) && before <= after
    ensures Opened(spec, after)
  {
  }

  /** Where a planned call stands. */
  ghost predicate PlannedInPlace(dialect: Dialect, spec: WriteSpec, plan: seq<Call>, i: nat)
    requires i < |plan|
  {
    var t := if spec.relaxConstraints then 1 else 0;
    match plan[i]
    case Relax => spec.relaxConstraints && i == 0
    case Truncate => spec.replace && i == t
    case Send(_, _) => i >= (if spec.replace then t + 1 else t)
    case Recheck => spec.relaxConstraints && !dialect.Postgres? && i > 0 && plan[0] == Relax
    case Commit =>
      && i >= (if spec.replace then t + 1 else t)
      && (spec.relaxConstraints && !dialect.Postgres? ==> i > 0 && plan[i - 1].Recheck?)
    case Rollback => false
  }

  lemma PlanInPlace(dialect: Dialect, spec: WriteSpec, statement: Statement, batches: seq<Batch>)
    requires Sends(statement)
    ensures var plan := Plan(dialect, spec, statement, batches);
      forall i :: 0 <= i < |plan| ==> PlannedInPlace(dialect, spec, plan, i)
  {
    var plan, a := Plan(dialect, spec, statement, batches), |Opening(spec)|;
    var inserts := InsertCalls(statement, batches);
    InsertCallsSend(statement, batches);
    PlanParts(dialect, spec, statement, batches);
    forall i | 0 <= i < |plan| ensures PlannedInPlace(dialect, spec, plan, i) {
      if i < a {
        assert plan[0 + i] == Opening(spec)[i];
      } else if i < a + |inserts| {
        assert plan[a + (i - a)] == inserts[i - a] && inserts[i - a] in inserts;
      } else {
        ClosingStands(dialect, spec, statement, batches);
        assert i == |plan| - 1 || i == |plan| - 2;
        assert spec.relaxConstraints ==> plan[0 + 0] == Opening(spec)[0] == Relax;
      }
    }
  }

  lemma RanWorked(plan: seq<Call>, calls: seq<Event>, k: nat)
    requires Ran(plan, calls, k)
    ensures AllWorked(calls[..k])
  {
  }

  lemma CallsInPlace(dialect: Dialect, spec: WriteSpec, statement: Statement, batches: seq<Batch>,
                     calls: seq<Event>, k: nat)
    requires Sends(statement)
    requires var plan := Plan(dialect, spec, statement, batches);
      BrokenAt(plan, calls, k) || (DoneUpTo(plan, calls, k) && k == |plan|)
    ensures AllInPlace(dialect, spec, calls)
  {
    var plan := Plan(dialect, spec, statement, batches);
    PlanInPlace(dialect, spec, statement, batches);
    forall i | 0 <= i < |calls| ensures InPlace(dialect, spec, calls, i) {
      if i <= k && i < |plan| && calls[i].call == plan[i] {
        RanWorked(plan, calls, i);
        assert PlannedInPlace(dialect, spec, plan, i);
      } else if calls[i].call.Recheck? {
        var j :| 0 <= j < |plan| && plan[j] == Recheck;
        assert PlannedInPlace(dialect, spec, plan, j);
        assert calls[0] == Event(plan[0], true);
      }
    }
  }

  /** Nothing was relaxed unless it was asked for. */
  lemma RelaxWasPlanned(dialect: Dialect, spec: WriteSpec, statement: Statement, batches: seq<Batch>,
                        calls: seq<Event>, k: nat)
    requires Sends(statement) && BrokenAt(Plan(dialect, spec, statement, batches), calls, k)
    ensures Event(Relax, true) in calls ==> spec.relaxConstraints
  {
    var plan := Plan(dialect, spec, statement, batches);
    InsertCallsSend(statement, batches);
    assert forall c :: c in plan ==>
      c in Opening(spec) || c in InsertCalls(statement, batches) || c in Closing(dialect, spec);
    if Event(Relax, true) in calls {
      var i :| 0 <= i < |calls| && calls[i] == Event(Relax, true);
      assert i < k && calls[i] == Event(plan[i], true);
      assert Relax in plan;
    }
  }

  // ----- inserting -----

  /** `mssqlInsertBatches`, `pgInsertBatches` and `oracleInsertBatches`: pull batches, skip the
      empty ones, send one statement each. In the plan the statements stand from `k0` on. */
  method InsertBatches(tx: Transaction, statement: Statement, stream: Stream, ghost plan: seq<Call>, ghost k0: nat)
    returns (r: Outcome<Summary>, ghost k: nat)
    requires DoneUpTo(plan, tx.calls, k0) && NoCommit(tx.calls) && RowsSent(tx.calls) && Sends(statement)
    requires StandsAt(plan, k0, InsertCalls(statement, stream.batches))
    requires k0 + |InsertCalls(statement, stream.batches)| < |plan|
    modifies tx
    ensures tx.released == old(tx.released)
    ensures if r.Returned? && r.value.status.Completed? then
        k == k0 + |InsertCalls(statement, stream.batches)| && DoneUpTo(plan, tx.calls, k) && stream.failure.None? &&
        r.value == Summary(Completed, |Flatten(stream.batches)|, |Flatten(stream.batches)|, [], None)
      else
        BrokenAt(plan, tx.calls, k) && Excused(stream, tx.calls)
    ensures NoCommit(tx.calls) && old(tx.calls) <= tx.calls && k >= k0
    ensures r.Returned? && r.value.status.Completed? ==> RowsSent(tx.calls)
    ensures r.Returned? && r.value.status.Failed? ==>
      tx.reports && !RowsSent(tx.calls) && r.value == FailedSummary(r.value.rowsWritten, "insert failed") &&
      RowsBeforeFailure(statement, stream.batches, k0, tx.calls, r.value.rowsWritten)
    ensures r.Threw? ==> RowsSent(tx.calls) ==> stream.failure == Some(r.message)
  {
    var rowsWritten := 0;
    k := k0;
    for b := 0 to |stream.batches|
      invariant k == k0 + |InsertCalls(statement, stream.batches[..b])|
      invariant DoneUpTo(plan, tx.calls, k) && NoCommit(tx.calls) && tx.released == old(tx.released)
      invariant RowsSent(tx.calls) && old(tx.calls) <= tx.calls
      invariant rowsWritten == |Flatten(stream.batches[..b])|
    {
      var batch := stream.batches[b];
      RowsUpTo(stream.batches, b);
      PlannedAt(statement, stream.batches, b, plan, k0);
      if |batch| == 0 {
        continue;
      }
      NextCall(plan, tx.calls, k);
      FailingCallExcuses(stream, tx.calls, statement(batch));
      ghost var before := tx.calls;
      var ok := tx.Do(statement(batch));
      if !ok {
        assert tx.calls[|before|] == Event(statement(batch), false) && tx.calls[|before|] in tx.calls;
        if tx.reports {
          assert BatchFailed(statement, stream.batches, k0, tx.calls, b);
          return Returned(FailedSummary(rowsWritten, "insert failed")), k;
        }
        return Threw("insert failed"), k;
      }
      k := k + 1;
      rowsWritten := rowsWritten + |batch|;
    }
    assert stream.batches[..|stream.batches|] == stream.batches;
    if stream.failure.Some? {
      NextCall(plan, tx.calls, k);
      return Threw(stream.failure.value), k;
    }
    r := Returned(Summary(Completed, rowsWritten, rowsWritten, [], None));
  }

  lemma {:induction false} InsertCallsPrefix(statement: Statement, batches: seq<Batch>, n: nat)
    requires n <= |batches|
    ensures InsertCalls(statement, batches[..n]) <= InsertCalls(statement, batches)
    decreases |batches| - n
  {
    if n == |batches| {
      assert batches[..n] == batches;
    } else {
      InsertCallsPrefix(statement, batches, n + 1);
      assert batches[..n + 1][..n] == batches[..n];
    }
  }

  lemma RowsUpTo(batches: seq<Batch>, b: nat)
    requires b < |batches|
    ensures |Flatten(batches[..b + 1])| == |Flatten(batches[..b])| + |batches[b]|
  {
    TakeSnoc(batches, b);
    FlattenSnoc(batches[..b], batches[b]);
  }

  /** The planned call for batch `b`. */
  lemma PlannedAt(statement: Statement, batches: seq<Batch>, b: nat, plan: seq<Call>, k0: nat)
    requires b < |batches|
    requires StandsAt(plan, k0, InsertCalls(statement, batches)) && k0 + |InsertCalls(statement, batches)| < |plan|
    ensures var k, next := k0 + |InsertCalls(statement, batches[..b])|, k0 + |InsertCalls(statement, batches[..b + 1])|;
      k < |plan| && if batches[b] == [] then next == k else next == k + 1 && plan[k] == statement(batches[b])
  {
    var inserts, i := InsertCalls(statement, batches), |InsertCalls(statement, batches[..b])|;
    InsertCallsPrefix(statement, batches, b);
    InsertCallsPrefix(statement, batches, b + 1);
    assert batches[..b + 1][..b] == batches[..b];
    if batches[b] != [] {
      assert plan[k0 + i] == inserts[i] == InsertCalls(statement, batches[..b + 1])[i];
    }
  }

  // ----- the write protocol -----

  /** `part` stands in the plan from position `k` on. */
  ghost predicate StandsAt(plan: seq<Call>, k: nat, part: seq<Call>)
  {
    k + |part| <= |plan| && forall i :: 0 <= i < |part| ==> plan[k + i] == part[i]
  }

  /** Where the three parts of a plan stand. */
  lemma PlanParts(dialect: Dialect, spec: WriteSpec, statement: Statement, batches: seq<Batch>)
    ensures var plan, a := Plan(dialect, spec, statement, batches), |Opening(spec)|;
      var n := |InsertCalls(statement, batches)|;
      |plan| == a + n + |Closing(dialect, spec)| &&
      StandsAt(plan, 0, Opening(spec)) && StandsAt(plan, a, InsertCalls(statement, batches)) &&
      StandsAt(plan, a + n, Closing(dialect, spec))
  {
  }

  /** The closing calls stand last in the plan. */
  lemma ClosingStands(dialect: Dialect, spec: WriteSpec, statement: Statement, batches: seq<Batch>)
    ensures var plan, closing := Plan(dialect, spec, statement, batches), Closing(dialect, spec);
      |plan| >= |closing| && plan[|plan| - 1] == Commit &&
      (|closing| == if spec.relaxConstraints && !dialect.Postgres? then 2 else 1) &&
      (|closing| == 2 ==> plan[|plan| - 2] == Recheck)
  {
  }

  lemma PlanRestores(dialect: Dialect, spec: WriteSpec, statement: Statement, batches: seq<Batch>)
    ensures spec.relaxConstraints && !dialect.Postgres? ==> Restores(Plan(dialect, spec, statement, batches))
  {
    var plan := Plan(dialect, spec, statement, batches);
    if spec.relaxConstraints && !dialect.Postgres? {
      PlanParts(dialect, spec, statement, batches);
      assert plan[0 + 0] == Opening(spec)[0];
      assert plan[|Opening(spec)| + |InsertCalls(statement, batches)| + 0] == Closing(dialect, spec)[0];
    }
  }

  /** The first calls of a powered write, shared by all three adapters. */
  method Open(tx: Transaction, spec: WriteSpec, ghost plan: seq<Call>, ghost stream: Stream)
    returns (ok: bool, nocheck: bool, ghost k: nat)
    requires tx.calls == [] && StandsAt(plan, 0, Opening(spec)) && |Opening(spec)| < |plan|
    modifies tx
    ensures tx.released == old(tx.released)
    ensures if ok then k == |Opening(spec)| && DoneUpTo(plan, tx.calls, k)
      else BrokenAt(plan, tx.calls, k) && Excused(stream, tx.calls)
    ensures NoCommit(tx.calls) && Opened(spec, tx.calls)
    ensures ok <==> RowsSent(tx.calls)
    ensures nocheck ==> k > 0
    ensures !nocheck && spec.relaxConstraints ==> Event(Relax, true) !in tx.calls && !ok
    ensures nocheck ==> spec.relaxConstraints
  {
    nocheck := false;
    k := 0;
    if spec.relaxConstraints {
      assert plan[k] == Opening(spec)[k] == Relax;
      NextCall(plan, tx.calls, k);
      FailingCallExcuses(stream, tx.calls, Relax);
      ok := tx.Do(Relax);
      if !ok {
        return;
      }
      nocheck := true;
      k := k + 1;
    }
    if spec.replace {
      assert plan[k] == Opening(spec)[k] == Truncate;
      NextCall(plan, tx.calls, k);
      FailingCallExcuses(stream, tx.calls, Truncate);
      ok := tx.Do(Truncate);
      if !ok {
        return;
      }
      k := k + 1;
    }
    ok := true;
  }

  /** The `try` up to the end of the inserts, shared likewise. */
  method OpenAndInsert(tx: Transaction, spec: WriteSpec, statement: Statement, stream: Stream, ghost plan: seq<Call>)
    returns (r: Outcome<Summary>, rowsWritten: nat, nocheck: bool, ghost k: nat)
    requires tx.calls == [] && Sends(statement) && plan == Plan(tx.dialect, spec, statement, stream.batches)
    modifies tx
    ensures tx.released == old(tx.released) && Opened(spec, tx.calls) && NoCommit(tx.calls)
    ensures if r.Returned? && r.value.status.Completed? then
        k == |plan| - |Closing(tx.dialect, spec)| && DoneUpTo(plan, tx.calls, k) && stream.failure.None? &&
        r.value == Summary(Completed, |Flatten(stream.batches)|, |Flatten(stream.batches)|, [], None)
      else BrokenAt(plan, tx.calls, k) && Excused(stream, tx.calls)
    ensures r.Returned? && r.value.status.Failed? ==>
      r.value == FailedSummary(rowsWritten, "insert failed") && !RowsSent(tx.calls)
    ensures r.Returned? ==> rowsWritten == r.value.rowsWritten && (spec.relaxConstraints ==> nocheck)
    ensures RowsKnown(statement, spec, stream, tx.calls, tx.reports, rowsWritten)
    ensures r.Threw? && stream.failure.Some? && RowsSent(tx.calls) ==> r.message == stream.failure.value
    ensures nocheck ==> k > 0 && spec.relaxConstraints
    ensures !nocheck && spec.relaxConstraints ==> Event(Relax, true) !in tx.calls
  {
    PlanParts(tx.dialect, spec, statement, stream.batches);
    rowsWritten := 0;
    var begun;
    begun, nocheck, k := Open(tx, spec, plan, stream);
    if !begun {
      return Threw("opening call failed"), 0, nocheck, k;
    }
    ghost var began := tx.calls;
    r, k := InsertBatches(tx, statement, stream, plan, k);
    OpenedStays(spec, began, tx.calls);
    if r.Returned? {
      rowsWritten := r.value.rowsWritten;
    }
  }

  /** The rest of the `try` in the SQL Server and Oracle adapters, after the inserts. */
  method FinishChecked(tx: Transaction, summary: Summary, nocheckBefore: bool, ghost plan: seq<Call>,
                       ghost stream: Stream, ghost k0: nat)
    returns (r: Outcome<Summary>, nocheck: bool, ghost k: nat)
    requires if summary.status.Completed? then
        DoneUpTo(plan, tx.calls, k0) && NoCommit(tx.calls) && stream.failure.None? &&
        |plan| == k0 + (if nocheckBefore then 2 else 1) &&
        plan[|plan| - 1] == Commit && (nocheckBefore ==> plan[k0] == Recheck)
      else BrokenAt(plan, tx.calls, k0) && Excused(stream, tx.calls)
    requires nocheckBefore ==> k0 > 0 && Restores(plan)
    modifies tx
    ensures k >= k0 && Trails(old(tx.calls), tx.calls)
    ensures r.Returned? && r.value.status.Failed? ==> r.value == summary
    ensures if r.Returned? && r.value.status.Completed? then
        r.value == Summary(Completed, summary.rowsRead, summary.rowsWritten, [], None) &&
        summary.status.Completed? && DoneUpTo(plan, tx.calls, |plan|)
      else BrokenAt(plan, tx.calls, k) && Excused(stream, tx.calls)
    ensures r.Returned? && r.value.status.Failed? ==> EndsInRollback(tx.calls)
    ensures r.Returned? ==> !nocheck
    ensures nocheckBefore && !nocheck ==> Rechecks(tx.calls)
    ensures nocheck ==> nocheckBefore
  {
    nocheck := nocheckBefore;
    k := k0;
    var ok;
    if nocheck {
      ghost var before := tx.calls;
      if summary.status.Completed? {
        NextCall(plan, before, k);
        FailingCallExcuses(stream, before, Recheck);
      } else {
        ExcusedStaysExcused(stream, before, Event(Recheck, true));
        ExcusedStaysExcused(stream, before, Event(Recheck, false));
        BrokenStaysBroken(plan, before, k, Event(Recheck, true));
        BrokenStaysBroken(plan, before, k, Event(Recheck, false));
      }
      ok := tx.Do(Recheck);
      if !ok {
        return Threw("recheck failed"), nocheck, k;
      }
      nocheck := false;
      k := if summary.status.Completed? then k + 1 else k;
    }
    ghost var before := tx.calls;
    assert nocheckBefore ==> before[|before| - 1] in before;
    if !summary.status.Completed? {
      ok := tx.Do(Rollback);
      BrokenStaysBroken(plan, before, k, Event(Rollback, ok));
      ExcusedStaysExcused(stream, before, Event(Rollback, ok));
      assert forall e :: e in before ==> e in tx.calls;
      if !ok {
        return Threw("rollback failed"), nocheck, k;
      }
      return Returned(summary), nocheck, k;
    }
    NextCall(plan, before, k);
    FailingCallExcuses(stream, before, Commit);
    ok := tx.Do(Commit);
    assert forall e :: e in before ==> e in tx.calls;
    if !ok {
      return Threw("commit failed"), nocheck, k;
    }
    r := Returned(Summary(Completed, summary.rowsRead, summary.rowsWritten, [], None));
  }

  /** The `catch` of the SQL Server and Oracle adapters. */
  method CatchChecked(tx: Transaction, nocheck: bool, rowsWritten: nat, message: string,
                      ghost plan: seq<Call>, ghost stream: Stream, ghost k: nat)
    returns (r: Summary)
    requires BrokenAt(plan, tx.calls, k) && Excused(stream, tx.calls)
    requires nocheck ==> k > 0 && Restores(plan)
    modifies tx
    ensures Trails(old(tx.calls), tx.calls)
    ensures r == FailedSummary(rowsWritten, message)
    ensures BrokenAt(plan, tx.calls, k) && Excused(stream, tx.calls) && EndsInRollback(tx.calls)
    ensures nocheck || Rechecks(old(tx.calls)) ==> Rechecks(tx.calls)
  {
    ghost var before := tx.calls;
    var ok;
    if nocheck {
      BrokenStaysBroken(plan, tx.calls, k, Event(Recheck, true));
      BrokenStaysBroken(plan, tx.calls, k, Event(Recheck, false));
      ok := tx.Do(Recheck);
      ExcusedStaysExcused(stream, before, Event(Recheck, ok));
      before := tx.calls;
      assert before[|before| - 1].call.Recheck?;
    }
    ok := tx.Do(Rollback);
    BrokenStaysBroken(plan, before, k, Event(Rollback, ok));
    ExcusedStaysExcused(stream, before, Event(Rollback, ok));
    assert forall e :: e in before ==> e in tx.calls;
    r := FailedSummary(rowsWritten, message);
  }

  /** The `try` of the SQL Server and Oracle adapters. */
  method TryChecked(tx: Transaction, spec: WriteSpec, statement: Statement, stream: Stream, ghost plan: seq<Call>)
    returns (r: Outcome<Summary>, rowsWritten: nat, nocheck: bool, ghost k: nat)
    requires tx.calls == [] && !tx.dialect.Postgres? && Sends(statement)
    requires plan == Plan(tx.dialect, spec, statement, stream.batches)
    modifies tx
    ensures if r.Returned? && r.value.status.Completed? then
        r.value == Summary(Completed, |Flatten(stream.batches)|, |Flatten(stream.batches)|, [], None) &&
        stream.failure.None? && DoneUpTo(plan, tx.calls, |plan|)
      else BrokenAt(plan, tx.calls, k) && Excused(stream, tx.calls)
    ensures r.Returned? && r.value.status.Failed? ==>
      EndsInRollback(tx.calls) && r.value == FailedSummary(rowsWritten, "insert failed") && !RowsSent(tx.calls)
    ensures Opened(spec, tx.calls)
    ensures !(r.Returned? && r.value.status.Completed?) ==>
      RowsKnown(statement, spec, stream, tx.calls, tx.reports, rowsWritten)
    ensures r.Threw? && stream.failure.Some? && RowsSent(tx.calls) ==> r.message == stream.failure.value
    ensures r.Returned? ==> !nocheck
    ensures nocheck ==> k > 0 && Restores(plan)
    ensures !nocheck && spec.relaxConstraints ==> Event(Relax, true) !in tx.calls || Rechecks(tx.calls)
  {
    PlanRestores(tx.dialect, spec, statement, stream.batches);
    r, rowsWritten, nocheck, k := OpenAndInsert(tx, spec, statement, stream, plan);
    ghost var inserted := tx.calls;
    if r.Returned? {
      ClosingStands(tx.dialect, spec, statement, stream.batches);
      r, nocheck, k := FinishChecked(tx, r.value, nocheck, plan, stream, k);
      OpenedStays(spec, inserted, tx.calls);
      TrailingCallsKeepRows(statement, spec, stream, inserted, tx.calls, tx.reports, rowsWritten);
    }
  }

  /** The SQL Server and Oracle `writePowered`, once its transaction is open: it never throws. */
  method WritePoweredChecked(tx: Transaction, spec: WriteSpec, statement: Statement, stream: Stream)
    returns (r: Outcome<Summary>)
    requires tx.calls == [] && !tx.dialect.Postgres? && Sends(statement)
    modifies tx
    ensures r.Returned?
    ensures WriteContract(tx.dialect, spec, statement, stream, r.value, tx.calls, tx.released)
    ensures r.value.status.Failed? ==> TellsFailure(statement, spec, stream, r.value, tx.calls, tx.reports)
  {
    ghost var plan := Plan(tx.dialect, spec, statement, stream.batches);
    var rowsWritten, nocheck;
    ghost var k;
    r, rowsWritten, nocheck, k := TryChecked(tx, spec, statement, stream, plan);
    ghost var tried := tx.calls;
    if r.Threw? {
      var summary := CatchChecked(tx, nocheck, rowsWritten, r.message, plan, stream, k);
      r := Returned(summary);
      OpenedStays(spec, tried, tx.calls);
      TrailingCallsKeepRows(statement, spec, stream, tried, tx.calls, tx.reports, rowsWritten);
    }
    if r.value.status.Failed? {
      FailedMeetsContract(tx.dialect, spec, statement, stream, r.value, tx.calls, tx.released, k);
    } else {
      CompletedMeetsContract(tx.dialect, spec, statement, stream, r.value, tx.calls, tx.released);
    }
  }

  lemma CompletedMeetsContract(dialect: Dialect, spec: WriteSpec, statement: Statement, stream: Stream,
                               result: Summary, calls: seq<Event>, released: nat)
    requires var plan := Plan(dialect, spec, statement, stream.batches); DoneUpTo(plan, calls, |plan|) && calls != []
    requires Sends(statement) && Opened(spec, calls)
    requires result == Summary(Completed, |Flatten(stream.batches)|, |Flatten(stream.batches)|, [], None)
    requires stream.failure.None? && (dialect.Postgres? ==> released == 1 && calls[|calls| - 1].ok)
    ensures WriteContract(dialect, spec, statement, stream, result, calls, released)
  {
    forall e | e in calls ensures e.ok {
      var i :| 0 <= i < |calls| && calls[i] == e;
    }
    CallsInPlace(dialect, spec, statement, stream.batches, calls, |calls|);
  }

  lemma FailedMeetsContract(dialect: Dialect, spec: WriteSpec, statement: Statement, stream: Stream,
                            result: Summary, calls: seq<Event>, released: nat, k: nat)
    requires result.status.Failed? && Sends(statement) && Opened(spec, calls)
    requires BrokenAt(Plan(dialect, spec, statement, stream.batches), calls, k)
    requires Excused(stream, calls) && EndsInRollback(calls)
    requires dialect.Postgres? || (spec.relaxConstraints && Event(Relax, true) in calls ==> Rechecks(calls))
    requires dialect.Postgres? ==> released <= 1 && (released == 0 <==> !calls[|calls| - 1].ok)
    ensures WriteContract(dialect, spec, statement, stream, result, calls, released)
  {
    RelaxWasPlanned(dialect, spec, statement, stream.batches, calls, k);
    CallsInPlace(dialect, spec, statement, stream.batches, calls, k);
  }

  /** The rest of the `try` in the Postgres adapter, after the inserts. */
  method FinishPostgres(tx: Transaction, summary: Summary, ghost plan: seq<Call>, ghost stream: Stream, ghost k: nat)
    returns (r: Outcome<Summary>)
    requires tx.dialect.Postgres? && tx.released == 0
    requires if summary.status.Completed? then
        DoneUpTo(plan, tx.calls, k) && NoCommit(tx.calls) && stream.failure.None? &&
        |plan| == k + 1 && plan[k] == Commit
      else BrokenAt(plan, tx.calls, k) && Excused(stream, tx.calls)
    modifies tx
    ensures Trails(old(tx.calls), tx.calls)
    ensures r.Returned? && r.value.status.Failed? ==> r.value == summary
    ensures if r.Returned? && r.value.status.Completed? then
        r.value == Summary(Completed, summary.rowsRead, summary.rowsWritten, [], None) &&
        summary.status.Completed? && DoneUpTo(plan, tx.calls, |plan|)
      else BrokenAt(plan, tx.calls, k) && Excused(stream, tx.calls)
    ensures r.Returned? ==> tx.released == 1 && tx.calls != [] && tx.calls[|tx.calls| - 1].ok
    ensures r.Returned? && r.value.status.Failed? ==> EndsInRollback(tx.calls)
    ensures r.Threw? ==> tx.released == 0
  {
    var ok;
    if !summary.status.Completed? {
      BrokenStaysBroken(plan, tx.calls, k, Event(Rollback, true));
      BrokenStaysBroken(plan, tx.calls, k, Event(Rollback, false));
      ExcusedStaysExcused(stream, tx.calls, Event(Rollback, true));
      ExcusedStaysExcused(stream, tx.calls, Event(Rollback, false));
      ok := tx.Do(Rollback);
      if !ok {
        return Threw("rollback failed");
      }
      return Returned(summary);
    }
    NextCall(plan, tx.calls, k);
    FailingCallExcuses(stream, tx.calls, Commit);
    ok := tx.Do(Commit);
    if !ok {
      return Threw("commit failed");
    }
    r := Returned(Summary(Completed, summary.rowsRead, summary.rowsWritten, [], None));
  }

  /** The `catch` of the Postgres adapter. */
  method CatchPostgres(tx: Transaction, rowsWritten: nat, message: string,
                       ghost plan: seq<Call>, ghost stream: Stream, ghost k: nat)
    returns (r: Summary)
    requires BrokenAt(plan, tx.calls, k) && Excused(stream, tx.calls) && tx.dialect.Postgres? && tx.released == 0
    modifies tx
    ensures Trails(old(tx.calls), tx.calls)
    ensures r == FailedSummary(rowsWritten, message)
    ensures BrokenAt(plan, tx.calls, k) && Excused(stream, tx.calls) && EndsInRollback(tx.calls)
    ensures tx.released == if tx.calls[|tx.calls| - 1].ok then 1 else 0
  {
    BrokenStaysBroken(plan, tx.calls, k, Event(Rollback, true));
    BrokenStaysBroken(plan, tx.calls, k, Event(Rollback, false));
    ExcusedStaysExcused(stream, tx.calls, Event(Rollback, true));
    ExcusedStaysExcused(stream, tx.calls, Event(Rollback, false));
    var ok := tx.Do(Rollback);
    r := FailedSummary(rowsWritten, message);
  }

  /** The `try` of the Postgres adapter. */
  method TryPostgres(tx: Transaction, spec: WriteSpec, statement: Statement, stream: Stream, ghost plan: seq<Call>)
    returns (r: Outcome<Summary>, rowsWritten: nat, ghost k: nat)
    requires tx.calls == [] && tx.released == 0 && tx.dialect.Postgres? && Sends(statement)
    requires plan == Plan(tx.dialect, spec, statement, stream.batches)
    modifies tx
    ensures if r.Returned? && r.value.status.Completed? then
        r.value == Summary(Completed, |Flatten(stream.batches)|, |Flatten(stream.batches)|, [], None) &&
        stream.failure.None? && DoneUpTo(plan, tx.calls, |plan|)
      else BrokenAt(plan, tx.calls, k) && Excused(stream, tx.calls)
    ensures r.Returned? ==> tx.released == 1 && tx.calls != [] && tx.calls[|tx.calls| - 1].ok
    ensures r.Returned? && r.value.status.Failed? ==>
      EndsInRollback(tx.calls) && r.value == FailedSummary(rowsWritten, "insert failed") && !RowsSent(tx.calls)
    ensures Opened(spec, tx.calls)
    ensures !(r.Returned? && r.value.status.Completed?) ==>
      RowsKnown(statement, spec, stream, tx.calls, tx.reports, rowsWritten)
    ensures r.Threw? && stream.failure.Some? && RowsSent(tx.calls) ==> r.message == stream.failure.value
    ensures r.Threw? ==> tx.released == 0
  {
    var replica;
    r, rowsWritten, replica, k := OpenAndInsert(tx, spec, statement, stream, plan);
    ghost var inserted := tx.calls;
    if r.Returned? {
      ClosingStands(tx.dialect, spec, statement, stream.batches);
      r := FinishPostgres(tx, r.value, plan, stream, k);
      OpenedStays(spec, inserted, tx.calls);
      TrailingCallsKeepRows(statement, spec, stream, inserted, tx.calls, tx.reports, rowsWritten);
    }
  }

  /** The Postgres `writePowered`, once its transaction is open: it never throws, and it hands
      the client back once, or never if its last ROLLBACK failed. */
  method WritePoweredPostgres(tx: Transaction, spec: WriteSpec, statement: Statement, stream: Stream)
    returns (r: Outcome<Summary>)
    requires tx.calls == [] && tx.released == 0 && tx.dialect.Postgres? && Sends(statement)
    modifies tx
    ensures r.Returned?
    ensures WriteContract(tx.dialect, spec, statement, stream, r.value, tx.calls, tx.released)
    ensures r.value.status.Failed? ==> TellsFailure(statement, spec, stream, r.value, tx.calls, tx.reports)
  {
    ghost var plan := Plan(tx.dialect, spec, statement, stream.batches);
    var rowsWritten;
    ghost var k;
    r, rowsWritten, k := TryPostgres(tx, spec, statement, stream, plan);
    ghost var tried := tx.calls;
    if r.Threw? {
      var summary := CatchPostgres(tx, rowsWritten, r.message, plan, stream, k);
      r := Returned(summary);
      OpenedStays(spec, tried, tx.calls);
      TrailingCallsKeepRows(statement, spec, stream, tried, tx.calls, tx.reports, rowsWritten);
    }
    if r.value.status.Failed? {
      FailedMeetsContract(tx.dialect, spec, statement, stream, r.value, tx.calls, tx.released, k);
    } else {
      CompletedMeetsContract(tx.dialect, spec, statement, stream, r.value, tx.calls, tx.released);
    }
  }
}
