/** What the calls of the write protocol do to the target table, on a server whose DDL is
    transactional: SQL Server and Postgres. How the server reads a statement is a parameter. */
module TableServer {
  import opened JsText
  import opened Movement
  import opened WriteProtocol

  /** The rows a call adds when it works; `None` if the server cannot read it as an INSERT. */
  type Adds = Call -> Option<Table>

  /** The target: what everyone sees, what the transaction sees, and whether the constraints
      are checked, likewise. */
  datatype Server = Server(committed: Table, working: Table, checked: bool, committedChecked: bool)

  ghost predicate SeenTheSame(s: Server, t: Server)
  {
    t.committed == s.committed && t.committedChecked == s.committedChecked
  }

  /** One call. A failing call may leave anything in the transaction; only a COMMIT shows
      anything outside, and one that fails may have worked. */
  ghost predicate Exec(dialect: Dialect, adds: Adds, s: Server, e: Event, t: Server)
  {
    match e.call
    case Commit =>
      e.ok || !SeenTheSame(s, t) ==>
        t.committed == s.working && t.committedChecked == (if dialect.Postgres? then s.committedChecked else s.checked)
    case Rollback => SeenTheSame(s, t)
    case Relax => SeenTheSame(s, t) && (e.ok ==> t == s.(checked := false))
    case Recheck => SeenTheSame(s, t) && (e.ok ==> t == s.(checked := true))
    case Truncate => SeenTheSame(s, t) && (e.ok ==> t == s.(working := []))
    case Send(_, _) =>
      SeenTheSame(s, t) && (e.ok && adds(e.call).Some? ==> t == s.(working := s.working + adds(e.call).value))
  }

  /** The server's states before, between and after the calls. */
  ghost predicate History(dialect: Dialect, adds: Adds, calls: seq<Event>, states: seq<Server>)
  {
    |states| == |calls| + 1 && states[0].working == states[0].committed &&
    forall i :: 0 <= i < |calls| ==> Exec(dialect, adds, states[i], calls[i], states[i + 1])
  }

  /** What working calls leave in the transaction. */
  function WorkingAfter(adds: Adds, calls: seq<Call>, start: Table): Table
  {
    if calls == [] then start
    else
      var before, c := WorkingAfter(adds, calls[..|calls| - 1], start), calls[|calls| - 1];
      if c.Truncate? then []
      else if c.Send? && adds(c).Some? then before + adds(c).value
      else before
  }

  lemma WorkingAfterOne(adds: Adds, calls: seq<Call>, c: Call, start: Table)
    ensures var before := WorkingAfter(adds, calls, start);
      WorkingAfter(adds, calls + [c], start) ==
        if c.Truncate? then [] else if c.Send? && adds(c).Some? then before + adds(c).value else before
  {
    assert (calls + [c])[..|calls|] == calls;
  }

  /** How a batch is kept. */
  type Keeps = Batch -> Table

  /** The statement for a batch adds the rows of the batch. */
  ghost predicate Faithful(statement: Statement, adds: Adds, keeps: Keeps)
  {
    Sends(statement) && forall batch :: batch != [] ==> adds(statement(batch)) == Some(keeps(batch))
  }

  function KeptBatches(keeps: Keeps, batches: seq<Batch>): Table
  {
    if batches == [] then []
    else
      var n := |batches| - 1;
      KeptBatches(keeps, batches[..n]) + (if batches[n] == [] then [] else keeps(batches[n]))
  }

  /** The table a completed write leaves. */
  function Target(keeps: Keeps, spec: WriteSpec, batches: seq<Batch>, start: Table): Table
  {
    (if spec.replace then [] else start) + KeptBatches(keeps, batches)
  }

  lemma InsertCallsSnoc(statement: Statement, before: seq<Call>, batches: seq<Batch>)
    requires batches != []
    ensures var n := |batches| - 1;
      before + InsertCalls(statement, batches) ==
        (before + InsertCalls(statement, batches[..n])) + (if batches[n] == [] then [] else [statement(batches[n])])
  {
    var n := |batches| - 1;
    Assoc(before, InsertCalls(statement, batches[..n]), if batches[n] == [] then [] else [statement(batches[n])]);
  }

  lemma {:induction false} InsertsAddBatches(statement: Statement, adds: Adds, keeps: Keeps,
                                             before: seq<Call>, batches: seq<Batch>, start: Table)
    requires Faithful(statement, adds, keeps)
    ensures WorkingAfter(adds, before + InsertCalls(statement, batches), start) ==
            WorkingAfter(adds, before, start) + KeptBatches(keeps, batches)
  {
    if batches == [] {
      assert before + InsertCalls(statement, batches) == before;
    } else {
      var n := |batches| - 1;
      var earlier := before + InsertCalls(statement, batches[..n]);
      var kept := KeptBatches(keeps, batches[..n]);
      InsertsAddBatches(statement, adds, keeps, before, batches[..n], start);
      InsertCallsSnoc(statement, before, batches);
      if batches[n] == [] {
        assert earlier + [] == earlier && kept + [] == kept;
      } else {
        AddOneBatch(adds, earlier, statement(batches[n]), WorkingAfter(adds, before, start), kept,
                    keeps(batches[n]), start);
      }
    }
  }

  lemma AddOneBatch(adds: Adds, earlier: seq<Call>, c: Call, was: Table, kept: Table, rows: Table, start: Table)
    requires WorkingAfter(adds, earlier, start) == was + kept
    requires c.Send? && adds(c) == Some(rows)
    ensures WorkingAfter(adds, earlier + [c], start) == was + (kept + rows)
  {
    WorkingAfterOne(adds, earlier, c, start);
    assert was + kept + rows == was + (kept + rows);
  }

  lemma OpeningLeaves(adds: Adds, spec: WriteSpec, start: Table)
    ensures WorkingAfter(adds, Opening(spec), start) == if spec.replace then [] else start
  {
    var relax := if spec.relaxConstraints then [Relax] else [];
    WorkingAfterOne(adds, [], Relax, start);
    assert [] + [Relax] == [Relax];
    WorkingAfterOne(adds, relax, Truncate, start);
  }

  /** The planned calls before the COMMIT. */
  function BeforeCommit(dialect: Dialect, spec: WriteSpec, statement: Statement, batches: seq<Batch>): seq<Call>
  {
    Opening(spec) + InsertCalls(statement, batches) +
    (if spec.relaxConstraints && !dialect.Postgres? then [Recheck] else [])
  }

  lemma AllButCommit(a: seq<Call>, b: seq<Call>)
    ensures (a + (b + [Commit]))[..|a + (b + [Commit])| - 1] == a + b
  {
  }

  lemma PlanEndsInCommit(dialect: Dialect, spec: WriteSpec, statement: Statement, batches: seq<Batch>)
    ensures var plan := Plan(dialect, spec, statement, batches);
      |plan| > 0 && plan[..|plan| - 1] == BeforeCommit(dialect, spec, statement, batches)
  {
    AllButCommit(Opening(spec) + InsertCalls(statement, batches),
                 if spec.relaxConstraints && !dialect.Postgres? then [Recheck] else []);
  }

  /** When the COMMIT is due, the transaction sees the target. */
  lemma WorkingAtCommit(dialect: Dialect, spec: WriteSpec, statement: Statement, adds: Adds, keeps: Keeps,
                        batches: seq<Batch>, start: Table)
    requires Faithful(statement, adds, keeps)
    ensures var plan := Plan(dialect, spec, statement, batches);
      |plan| > 0 && WorkingAfter(adds, plan[..|plan| - 1], start) == Target(keeps, spec, batches, start)
  {
    var body := Opening(spec) + InsertCalls(statement, batches);
    PlanEndsInCommit(dialect, spec, statement, batches);
    OpeningLeaves(adds, spec, start);
    InsertsAddBatches(statement, adds, keeps, Opening(spec), batches, start);
    WorkingAfterOne(adds, body, Recheck, start);
    assert body + [] == body;
  }

  /** A call that shows nothing outside and whose effect is known. */
  ghost predicate Inner(adds: Adds, c: Call)
  {
    !c.Commit? && !c.Rollback? && (c.Send? ==> adds(c).Some?)
  }

  lemma {:induction false} InsertCallsAreInner(statement: Statement, adds: Adds, keeps: Keeps, batches: seq<Batch>)
    requires Faithful(statement, adds, keeps)
    ensures forall c :: c in InsertCalls(statement, batches) ==> Inner(adds, c)
  {
    if batches != [] {
      InsertCallsAreInner(statement, adds, keeps, batches[..|batches| - 1]);
    }
  }

  /** The COMMIT stands last in the plan, and only there. */
  lemma CommitIsLast(dialect: Dialect, spec: WriteSpec, statement: Statement, adds: Adds, keeps: Keeps,
                     batches: seq<Batch>)
    requires Faithful(statement, adds, keeps)
    ensures var plan := Plan(dialect, spec, statement, batches);
      |plan| > 0 && plan[|plan| - 1] == Commit && forall i :: 0 <= i < |plan| - 1 ==> Inner(adds, plan[i])
  {
    var plan := Plan(dialect, spec, statement, batches);
    InsertCallsAreInner(statement, adds, keeps, batches);
    forall i | 0 <= i < |plan| - 1 ensures Inner(adds, plan[i]) {
      assert plan[i] in Opening(spec) || plan[i] in InsertCalls(statement, batches) || plan[i].Recheck?;
    }
  }

  /** While planned calls work and none is the COMMIT, nothing shows outside. */
  lemma {:induction false} RanStates(dialect: Dialect, adds: Adds, plan: seq<Call>,
                                     calls: seq<Event>, states: seq<Server>, k: nat)
    requires History(dialect, adds, calls, states) && Ran(plan, calls, k)
    requires forall i :: 0 <= i < k ==> Inner(adds, plan[i])
    ensures SeenTheSame(states[0], states[k])
    ensures states[k].working == WorkingAfter(adds, plan[..k], states[0].working)
    ensures k > 0 && plan[k - 1].Recheck? ==> states[k].checked
  {
    if k > 0 {
      RanStates(dialect, adds, plan, calls, states, k - 1);
      assert plan[..k] == plan[..k - 1] + [plan[k - 1]];
      WorkingAfterOne(adds, plan[..k - 1], plan[k - 1], states[0].working);
      assert Inner(adds, plan[k - 1]) && calls[k - 1] == Event(plan[k - 1], true);
      assert Exec(dialect, adds, states[k - 1], calls[k - 1], states[k]);
    }
  }

  /** After the break only restoring and rolling back are attempted: nothing shows outside. */
  lemma {:induction false} CleanupStates(dialect: Dialect, adds: Adds, calls: seq<Event>, states: seq<Server>, k: nat)
    requires History(dialect, adds, calls, states) && k <= |calls|
    requires forall i :: k <= i < |calls| ==> calls[i].call.Recheck? || calls[i].call.Rollback?
    ensures SeenTheSame(states[k], states[|calls|])
    decreases |calls| - k
  {
    if k < |calls| {
      assert Exec(dialect, adds, states[k], calls[k], states[k + 1]);
      CleanupStates(dialect, adds, calls, states, k + 1);
    }
  }

  lemma CompletedShowsTarget(dialect: Dialect, spec: WriteSpec, statement: Statement, adds: Adds, keeps: Keeps,
                             batches: seq<Batch>, calls: seq<Event>, states: seq<Server>)
    requires Faithful(statement, adds, keeps) && History(dialect, adds, calls, states)
    requires var plan := Plan(dialect, spec, statement, batches); DoneUpTo(plan, calls, |plan|)
    ensures states[|calls|].committed == Target(keeps, spec, batches, states[0].committed)
    ensures spec.relaxConstraints && !dialect.Postgres? ==> states[|calls|].committedChecked
  {
    var plan := Plan(dialect, spec, statement, batches);
    var n := |plan| - 1;
    CommitIsLast(dialect, spec, statement, adds, keeps, batches);
    WorkingAtCommit(dialect, spec, statement, adds, keeps, batches, states[0].working);
    RanStates(dialect, adds, plan, calls, states, n);
    assert calls[n] == Event(Commit, true);
    assert Exec(dialect, adds, states[n], calls[n], states[n + 1]);
    if spec.relaxConstraints && !dialect.Postgres? {
      assert plan[n - 1].Recheck?;
    }
  }

  lemma BrokenShowsNothing(dialect: Dialect, spec: WriteSpec, statement: Statement, adds: Adds, keeps: Keeps,
                           batches: seq<Batch>, calls: seq<Event>, states: seq<Server>, k: nat)
    requires Faithful(statement, adds, keeps) && History(dialect, adds, calls, states)
    requires BrokenAt(Plan(dialect, spec, statement, batches), calls, k)
    ensures var first, last := states[0].committed, states[|calls|].committed;
      last == first || (Event(Commit, false) in calls && last == Target(keeps, spec, batches, first))
  {
    var plan := Plan(dialect, spec, statement, batches);
    CommitIsLast(dialect, spec, statement, adds, keeps, batches);
    WorkingAtCommit(dialect, spec, statement, adds, keeps, batches, states[0].working);
    RanStates(dialect, adds, plan, calls, states, k);
    if k < |calls| {
      assert Exec(dialect, adds, states[k], calls[k], states[k + 1]);
      CleanupStates(dialect, adds, calls, states, k + 1);
      assert calls[k].call.Commit? ==> k == |plan| - 1 && calls[k] == Event(Commit, false) && calls[k] in calls;
      assert !calls[k].call.Commit? ==> SeenTheSame(states[k], states[k + 1]);
    }
  }

  lemma {:induction false} StaysChecked(dialect: Dialect, adds: Adds, plan: seq<Call>,
                                        calls: seq<Event>, states: seq<Server>, k: nat)
    requires History(dialect, adds, calls, states) && Ran(plan, calls, k) && states[0].checked
    requires forall i :: 0 <= i < k ==> Inner(adds, plan[i]) && !plan[i].Relax?
    ensures states[k].checked
  {
    if k > 0 {
      StaysChecked(dialect, adds, plan, calls, states, k - 1);
      assert Inner(adds, plan[k - 1]) && calls[k - 1] == Event(plan[k - 1], true);
      assert Exec(dialect, adds, states[k - 1], calls[k - 1], states[k]);
    }
  }

  /** In SQL Server the constraints are checked when the COMMIT is due. */
  lemma CheckedAtCommit(spec: WriteSpec, statement: Statement, adds: Adds, keeps: Keeps, batches: seq<Batch>,
                        calls: seq<Event>, states: seq<Server>)
    requires Faithful(statement, adds, keeps) && History(SqlServer, adds, calls, states) && states[0].checked
    requires var plan := Plan(SqlServer, spec, statement, batches); |plan| > 0 && Ran(plan, calls, |plan| - 1)
    ensures states[|Plan(SqlServer, spec, statement, batches)| - 1].checked
  {
    var plan := Plan(SqlServer, spec, statement, batches);
    var n := |plan| - 1;
    CommitIsLast(SqlServer, spec, statement, adds, keeps, batches);
    RanStates(SqlServer, adds, plan, calls, states, n);
    if spec.relaxConstraints {
      assert plan[n - 1].Recheck?;
    } else {
      InsertCallsSend(statement, batches);
      forall i | 0 <= i < n ensures !plan[i].Relax? {
        assert plan[i] in Opening(spec) || plan[i] in InsertCalls(statement, batches);
      }
      StaysChecked(SqlServer, adds, plan, calls, states, n);
    }
  }

  /** Constraints that were checked are checked again after the write, however it ended. */
  lemma ConstraintsAreRestored(spec: WriteSpec, statement: Statement, adds: Adds, keeps: Keeps, batches: seq<Batch>,
                               calls: seq<Event>, states: seq<Server>, k: nat)
    requires Faithful(statement, adds, keeps) && History(SqlServer, adds, calls, states)
    requires states[0].checked && states[0].committedChecked
    requires var plan := Plan(SqlServer, spec, statement, batches);
      DoneUpTo(plan, calls, |plan|) || BrokenAt(plan, calls, k)
    ensures states[|calls|].committedChecked
  {
    var plan := Plan(SqlServer, spec, statement, batches);
    var n := |plan| - 1;
    CommitIsLast(SqlServer, spec, statement, adds, keeps, batches);
    var m := if DoneUpTo(plan, calls, |plan|) then n else k;
    RanStates(SqlServer, adds, plan, calls, states, m);
    if m < |calls| {
      assert Exec(SqlServer, adds, states[m], calls[m], states[m + 1]);
      CleanupStates(SqlServer, adds, calls, states, m + 1);
      if calls[m].call.Commit? {
        CheckedAtCommit(spec, statement, adds, keeps, batches, calls, states);
      }
    }
  }

  /** All or nothing: a write reported completed leaves exactly its target; a write reported
      failed leaves the table as it was, unless its COMMIT failed after it had worked, and then
      the stream was whole and the target is there whole. In SQL Server constraints are checked
      after a completed write that relaxed them, and after every write if they were before. */
  lemma AllOrNothing(dialect: Dialect, spec: WriteSpec, statement: Statement, adds: Adds, keeps: Keeps, stream: Stream,
                     result: Summary, calls: seq<Event>, released: nat, states: seq<Server>)
    requires !dialect.Oracle? && Faithful(statement, adds, keeps)
    requires WriteContract(dialect, spec, statement, stream, result, calls, released)
    requires History(dialect, adds, calls, states)
    ensures var first, last := states[0], states[|calls|];
      var target := Target(keeps, spec, stream.batches, first.committed);
      (result.status.Completed? ==>
        stream.failure.None? && last.committed == target &&
        (spec.relaxConstraints && dialect.SqlServer? ==> last.committedChecked)) &&
      (result.status.Failed? ==>
        last.committed == first.committed ||
        (stream.failure.None? && Event(Commit, false) in calls && last.committed == target)) &&
      (dialect.SqlServer? && first.checked && first.committedChecked ==> last.committedChecked)
  {
    var plan := Plan(dialect, spec, statement, stream.batches);
    var k: nat := 0;
    if result.status.Completed? {
      CompletedShowsTarget(dialect, spec, statement, adds, keeps, stream.batches, calls, states);
    } else {
      k :| BrokenAt(plan, calls, k);
      BrokenShowsNothing(dialect, spec, statement, adds, keeps, stream.batches, calls, states, k);
    }
    if dialect.SqlServer? && states[0].checked && states[0].committedChecked {
      ConstraintsAreRestored(spec, statement, adds, keeps, stream.batches, calls, states, k);
    }
  }

  /** That exception is real: a replace of one row by none whose COMMIT fails after it has
      worked is reported failed, as it must be, and the row is gone. */
  lemma FailedCommitMayHaveWorked(statement: Statement, adds: Adds, row: StoredRow)
    ensures var spec := WriteSpec("t", true, false, false);
      var calls := [Event(Truncate, true), Event(Commit, false), Event(Rollback, true)];
      var result := Summary(Failed, 0, 0, [(0, "commit failed")], Some(0));
      var before, emptied := Server([row], [row], true, true), Server([row], [], true, true);
      var after := Server([], [], true, true);
      WriteContract(Postgres, spec, statement, Stream([], None), result, calls, 1) &&
      History(Postgres, adds, calls, [before, emptied, after, after]) && after.committed != before.committed
  {
    var spec := WriteSpec("t", true, false, false);
    var calls := [Event(Truncate, true), Event(Commit, false), Event(Rollback, true)];
    var plan := Plan(Postgres, spec, statement, []);
    assert plan == [Truncate, Commit];
    assert BrokenAt(plan, calls, 1);
    assert calls[1] in calls;
    var states := [Server([row], [row], true, true), Server([row], [], true, true),
                   Server([], [], true, true), Server([], [], true, true)];
    assert Exec(Postgres, adds, states[0], calls[0], states[1]);
    assert Exec(Postgres, adds, states[1], calls[1], states[2]);
    assert Exec(Postgres, adds, states[2], calls[2], states[3]);
  }
}
