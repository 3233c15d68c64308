/** A whole move: the statements that are sent, what the server makes of them, and the engine
    around the write protocol. */
module BridgeMove {
  import opened JsText
  import opened Movement
  import opened SqlText
  import opened WriteProtocol
  import opened TableServer
  import Transform

  /** A write that must hold one transaction. */
  predicate NeedsPoweredWrite(dialect: Dialect, spec: WriteSpec)
  {
    spec.replace || spec.relaxConstraints || (!dialect.Postgres? && spec.allowIdentityInsert)
  }

  /** The statement for one batch; its first row names the columns. */
  function InsertCall(dialect: Dialect, order: KeyOrder, spec: WriteSpec, batch: Batch): Call
  {
    var cols := if batch == [] then [] else order(batch[0]);
    match dialect
    case SqlServer => Send(MssqlStatement(spec.table, cols, batch, spec.allowIdentityInsert), [])
    case Oracle => Send(PlaceholderInsert(':', spec.table, cols, |batch|, spec.allowIdentityInsert),
                        BoundValues(cols, batch))
    case Postgres => Send(PlaceholderInsert('$', spec.table, cols, |batch|, spec.allowIdentityInsert),
                          BoundValues(cols, batch))
  }

  function StatementFor(dialect: Dialect, order: KeyOrder, spec: WriteSpec): Statement
  {
    batch => InsertCall(dialect, order, spec, batch)
  }

  /** Identity values are asked for exactly when the write allows them. */
  lemma IdentityIsAskedFor(order: KeyOrder, spec: WriteSpec, batch: Batch)
    requires batch != []
    ensures var cols, n := order(batch[0]), |batch|;
      && ("SET IDENTITY_INSERT " <= InsertCall(SqlServer, order, spec, batch).text <==> spec.allowIdentityInsert)
      && InsertCall(Postgres, order, spec, batch).text ==
           PlaceholderInsert('$', spec.table, cols, n, spec.allowIdentityInsert)
      && InsertCall(Oracle, order, spec, batch).text ==
           PlaceholderInsert(':', spec.table, cols, n, spec.allowIdentityInsert)
  {
    var text := InsertCall(SqlServer, order, spec, batch).text;
    assert spec.allowIdentityInsert ==> text[..20] == "SET IDENTITY_INSERT ";
    assert !spec.allowIdentityInsert ==> text[0] == 'I';
  }

  // ----- what the server makes of a statement -----

  /** How a cell is kept: a bound boolean stays one, a literal one becomes a bit. */
  function Keep(dialect: Dialect, v: Value): SqlValue
  {
    if v.Bool? && !dialect.SqlServer? then SqlBool(v.b) else Stored(v)
  }

  /** The statement that `call` holds, found by reading its text and, outside SQL Server, the
      values bound beside it. */
  function ReadCall(dialect: Dialect, spec: WriteSpec, call: Call): Option<Insert<SqlValue>>
    requires call.Send?
  {
    if dialect.SqlServer? then ReadMssqlStatement(call.text, spec.allowIdentityInsert)
    else
      match ReadPlaceholderStatement(if dialect.Oracle? then ':' else '$', spec.allowIdentityInsert, call.text,
                                     call.values)
      case None => None
      case Some(insert) =>
        Some(SqlText.Insert(insert.table, insert.columns, Map(row => Map(v => Keep(dialect, v), row), insert.rows)))
  }

  function IndexOf(cols: seq<string>, col: string): (i: nat)
    requires col in cols
    ensures i < |cols| && cols[i] == col
  {
    if cols[0] == col then 0 else 1 + IndexOf(cols[1..], col)
  }

  /** The row made of a tuple. */
  function RowOfCells(cols: seq<string>, cells: seq<SqlValue>): StoredRow
    requires |cols| == |cells|
  {
    map col | col in cols :: cells[IndexOf(cols, col)]
  }

  /** The rows added by a call that works; `None` if it is no well-formed INSERT into the target. */
  ghost function RowsAdded(dialect: Dialect, spec: WriteSpec, call: Call): Option<Table>
    requires call.Send?
  {
    match ReadCall(dialect, spec, call)
    case None => None
    case Some(insert) =>
      if insert.table == Split(spec.table, '.') && Distinct(insert.columns) &&
         forall i :: 0 <= i < |insert.rows| ==> |insert.rows[i]| == |insert.columns|
      then Some(seq(|insert.rows|, i requires 0 <= i < |insert.rows| => RowOfCells(insert.columns, insert.rows[i])))
      else None
  }

  /** The rows a batch stands for: the columns of its first row, a missing cell being null. */
  function StoredBatch(dialect: Dialect, order: KeyOrder, batch: Batch): (t: Table)
    ensures |t| == |batch|
  {
    if batch == [] then []
    else
      var cols := order(batch[0]);
      Map(row => map col | col in cols :: Keep(dialect, Get(row, col)), batch)
  }

  lemma CellsMakeTheRow(dialect: Dialect, cols: seq<string>, row: Row)
    ensures RowOfCells(cols, Map(v => Keep(dialect, v), Cells(cols, row))) ==
            map col | col in cols :: Keep(dialect, Get(row, col))
  {
  }

  /** The tuples a batch is sent as. */
  function Tuples(dialect: Dialect, cols: seq<string>, batch: Batch): (rows: seq<seq<SqlValue>>)
    ensures |rows| == |batch|
    ensures forall i :: 0 <= i < |batch| ==> rows[i] == Map(v => Keep(dialect, v), Cells(cols, batch[i]))
  {
    seq(|batch|, i requires 0 <= i < |batch| => Map(v => Keep(dialect, v), Cells(cols, batch[i])))
  }

  lemma ReadSqlServerCall(order: KeyOrder, spec: WriteSpec, batch: Batch)
    requires batch != []
    ensures ReadCall(SqlServer, spec, InsertCall(SqlServer, order, spec, batch)) ==
            Some(SqlText.Insert(Split(spec.table, '.'), order(batch[0]), Tuples(SqlServer, order(batch[0]), batch)))
  {
    var cols := order(batch[0]);
    MssqlStatementDenotes(spec.table, cols, batch, spec.allowIdentityInsert);
    var read := Map(row => Map(Stored, Cells(cols, row)), batch);
    forall i | 0 <= i < |batch| ensures read[i] == Tuples(SqlServer, cols, batch)[i] {
      assert read[i] == Map(Stored, Cells(cols, batch[i]));
    }
    assert read == Tuples(SqlServer, cols, batch);
  }

  lemma ReadPlaceholderCall(dialect: Dialect, order: KeyOrder, spec: WriteSpec, batch: Batch)
    requires batch != [] && !dialect.SqlServer?
    ensures ReadCall(dialect, spec, InsertCall(dialect, order, spec, batch)) ==
            Some(SqlText.Insert(Split(spec.table, '.'), order(batch[0]), Tuples(dialect, order(batch[0]), batch)))
  {
    var cols := order(batch[0]);
    PlaceholderStatementDenotes(if dialect.Oracle? then ':' else '$', spec.table, cols, batch,
                                spec.allowIdentityInsert);
    var read := Map(row => Map(v => Keep(dialect, v), row), Map(row => Cells(cols, row), batch));
    assert read == Tuples(dialect, cols, batch);
  }

  lemma TuplesMakeBatch(dialect: Dialect, order: KeyOrder, spec: WriteSpec, batch: Batch, call: Call)
    requires ListsKeys(order) && batch != [] && call.Send?
    requires ReadCall(dialect, spec, call) ==
             Some(SqlText.Insert(Split(spec.table, '.'), order(batch[0]), Tuples(dialect, order(batch[0]), batch)))
    ensures RowsAdded(dialect, spec, call) == Some(StoredBatch(dialect, order, batch))
  {
    var cols := order(batch[0]);
    var added := RowsAdded(dialect, spec, call).value;
    forall i | 0 <= i < |batch| ensures added[i] == StoredBatch(dialect, order, batch)[i] {
      CellsMakeTheRow(dialect, cols, batch[i]);
    }
    assert added == StoredBatch(dialect, order, batch);
  }

  /** The statement sent for a batch adds exactly the batch's rows. */
  lemma InsertAddsBatch(dialect: Dialect, order: KeyOrder, spec: WriteSpec, batch: Batch)
    requires ListsKeys(order) && batch != []
    ensures RowsAdded(dialect, spec, InsertCall(dialect, order, spec, batch)) ==
            Some(StoredBatch(dialect, order, batch))
  {
    if dialect.SqlServer? {
      ReadSqlServerCall(order, spec, batch);
    } else {
      ReadPlaceholderCall(dialect, order, spec, batch);
    }
    TuplesMakeBatch(dialect, order, spec, batch, InsertCall(dialect, order, spec, batch));
  }

  // ----- rows that share their columns -----

  ghost function AddsOf(dialect: Dialect, spec: WriteSpec): Adds
  {
    (call: Call) => if call.Send? then RowsAdded(dialect, spec, call) else None
  }

  function KeepsOf(dialect: Dialect, order: KeyOrder): Keeps
  {
    batch => StoredBatch(dialect, order, batch)
  }

  /** The server reads every statement back as the batch it was made from. */
  lemma StatementsAreFaithful(dialect: Dialect, order: KeyOrder, spec: WriteSpec)
    requires ListsKeys(order)
    ensures Faithful(StatementFor(dialect, order, spec), AddsOf(dialect, spec), KeepsOf(dialect, order))
  {
    forall batch: Batch | batch != []
      ensures AddsOf(dialect, spec)(StatementFor(dialect, order, spec)(batch)) == Some(KeepsOf(dialect, order)(batch))
    {
      InsertAddsBatch(dialect, order, spec, batch);
    }
  }

  ghost predicate SameColumns(rows: Batch, keys: set<string>)
  {
    forall row :: row in rows ==> row.Keys == keys
  }

  /** Within each batch the rows have the columns of its first row. */
  ghost predicate UniformBatches(batches: seq<Batch>)
  {
    forall batch: Batch :: batch in batches && batch != [] ==> SameColumns(batch, batch[0].Keys)
  }

  /** A row, every column kept. */
  function KeepRow(dialect: Dialect, row: Row): StoredRow
  {
    map col | col in row :: Keep(dialect, row[col])
  }

  function KeepRows(dialect: Dialect, rows: Batch): (t: Table)
    ensures |t| == |rows| && forall i :: 0 <= i < |rows| ==> t[i] == KeepRow(dialect, rows[i])
  {
    Map(row => KeepRow(dialect, row), rows)
  }

  lemma RowStoredWholeIff(dialect: Dialect, cols: seq<string>, row: Row, first: Row)
    requires forall col :: col in cols <==> col in first
    ensures (map col | col in cols :: Keep(dialect, Get(row, col))) == KeepRow(dialect, row) <==> row.Keys == first.Keys
  {
    var stored := map col | col in cols :: Keep(dialect, Get(row, col));
    assert stored.Keys == first.Keys;
    assert KeepRow(dialect, row).Keys == row.Keys;
  }

  /** A batch is stored as it is iff all its rows have the columns of its first one. */
  lemma BatchStoredWholeIff(dialect: Dialect, order: KeyOrder, batch: Batch)
    requires ListsKeys(order) && batch != []
    ensures StoredBatch(dialect, order, batch) == KeepRows(dialect, batch) <==> SameColumns(batch, batch[0].Keys)
  {
    var stored, whole := StoredBatch(dialect, order, batch), KeepRows(dialect, batch);
    forall i | 0 <= i < |batch| ensures stored[i] == whole[i] <==> batch[i].Keys == batch[0].Keys {
      RowStoredWholeIff(dialect, order(batch[0]), batch[i], batch[0]);
    }
    if stored != whole {
      var i :| 0 <= i < |batch| && stored[i] != whole[i];
      assert batch[i] in batch;
    }
  }

  /** The cell a table shows: null where the row has none. */
  function Shown(row: StoredRow, col: string): SqlValue
  {
    if col in row then row[col] else SqlNull
  }

  /** Counting an absent cell as null, a batch loses no cell iff every cell that is not null
      stands in a column that the batch's first row has. */
  lemma NoCellLostIff(dialect: Dialect, order: KeyOrder, batch: Batch)
    requires ListsKeys(order) && batch != []
    ensures (forall i, col :: 0 <= i < |batch| ==>
              Shown(StoredBatch(dialect, order, batch)[i], col) == Keep(dialect, Get(batch[i], col))) <==>
            (forall i, col :: 0 <= i < |batch| && Keep(dialect, Get(batch[i], col)) != SqlNull ==> col in batch[0])
  {
    forall i, col | 0 <= i < |batch|
      ensures Shown(StoredBatch(dialect, order, batch)[i], col) ==
              if col in batch[0] then Keep(dialect, Get(batch[i], col)) else SqlNull
    {
      assert col in order(batch[0]) <==> col in batch[0];
    }
  }

  lemma KeepRowsAppend(dialect: Dialect, a: Batch, b: Batch)
    ensures KeepRows(dialect, a + b) == KeepRows(dialect, a) + KeepRows(dialect, b)
  {
  }

  lemma FlattenLast(batches: seq<Batch>)
    requires batches != []
    ensures Flatten(batches) == Flatten(batches[..|batches| - 1]) + batches[|batches| - 1]
  {
    var n := |batches| - 1;
    FlattenSnoc(batches[..n], batches[n]);
    assert batches[..n] + [batches[n]] == batches;
  }

  lemma EqualParts<T>(a: seq<T>, b: seq<T>, c: seq<T>, d: seq<T>)
    requires |a| == |c|
    ensures a + b == c + d <==> a == c && b == d
  {
    assert (a + b)[..|a|] == a && (a + b)[|a|..] == b;
    assert (c + d)[..|c|] == c && (c + d)[|c|..] == d;
  }

  lemma {:induction false} KeptCount(dialect: Dialect, order: KeyOrder, batches: seq<Batch>)
    ensures |KeptBatches(KeepsOf(dialect, order), batches)| == |Flatten(batches)|
  {
    if batches != [] {
      KeptCount(dialect, order, batches[..|batches| - 1]);
      FlattenLast(batches);
    }
  }

  lemma UniformSnoc(batches: seq<Batch>)
    requires batches != []
    ensures var n := |batches| - 1;
      UniformBatches(batches) <==>
      UniformBatches(batches[..n]) && (batches[n] != [] ==> SameColumns(batches[n], batches[n][0].Keys))
  {
    var n := |batches| - 1;
    assert forall batch :: batch in batches <==> batch in batches[..n] || batch == batches[n];
  }

  /** Batches are stored without loss, as exactly the rows they hold, iff within each batch the
      rows have the columns of its first row; different batches may have different columns. */
  lemma {:induction false} KeepsAllIff(dialect: Dialect, order: KeyOrder, batches: seq<Batch>)
    requires ListsKeys(order)
    ensures KeptBatches(KeepsOf(dialect, order), batches) == KeepRows(dialect, Flatten(batches)) <==>
            UniformBatches(batches)
  {
    if batches != [] {
      var n := |batches| - 1;
      var kept := KeptBatches(KeepsOf(dialect, order), batches[..n]);
      KeepsAllIff(dialect, order, batches[..n]);
      KeptCount(dialect, order, batches[..n]);
      FlattenLast(batches);
      UniformSnoc(batches);
      KeepRowsAppend(dialect, Flatten(batches[..n]), batches[n]);
      EqualParts(kept, StoredBatch(dialect, order, batches[n]), KeepRows(dialect, Flatten(batches[..n])),
                 KeepRows(dialect, batches[n]));
      if batches[n] != [] {
        BatchStoredWholeIff(dialect, order, batches[n]);
      }
    }
  }

  lemma {:induction false} SameColumnsAreUniform(batches: seq<Batch>, keys: set<string>)
    requires SameColumns(Flatten(batches), keys)
    ensures UniformBatches(batches)
  {
    if batches != [] {
      var n := |batches| - 1;
      var before, last := Flatten(batches[..n]), batches[n];
      FlattenLast(batches);
      assert forall row :: row in before || row in last ==> row in before + last;
      SameColumnsAreUniform(batches[..n], keys);
      UniformSnoc(batches);
    }
  }

  /** In particular, when all the rows share one column set, however they are batched. */
  lemma SameColumnsKeepAll(dialect: Dialect, order: KeyOrder, batches: seq<Batch>, keys: set<string>)
    requires ListsKeys(order) && SameColumns(Flatten(batches), keys)
    ensures KeptBatches(KeepsOf(dialect, order), batches) == KeepRows(dialect, Flatten(batches))
  {
    SameColumnsAreUniform(batches, keys);
    KeepsAllIff(dialect, order, batches);
  }

  // ----- a whole move -----

  /** Which of the engine's own steps work. */
  datatype Steps = Steps(aborted: bool, sourceOpens: bool, targetOpens: bool, begins: bool, sourceCloses: bool,
                         targetCloses: bool)

  lemma StatementsSend(dialect: Dialect, order: KeyOrder, spec: WriteSpec)
    ensures Sends(StatementFor(dialect, order, spec))
  {
  }

  /** `moveData` into a powered write: the result is the writer's summary, unless a step of the
      engine throws: before any call to the transaction, or when an adapter fails to close. */
  method MoveData(steps: Steps, tx: Transaction, order: KeyOrder, spec: WriteSpec,
                  ops: Transform.Ops, transform: Option<Transform.Spec>, source: Stream, abortAt: Option<nat>)
    returns (r: Outcome<Summary>, ghost written: Option<Summary>)
    requires tx.calls == [] && tx.released == 0 && NeedsPoweredWrite(tx.dialect, spec)
    modifies tx
    ensures var stream := Transform.Transformed(ops, transform, source, abortAt);
      match written
      case None => tx.calls == [] && r.Threw?
      case Some(summary) =>
        WriteContract(tx.dialect, spec, StatementFor(tx.dialect, order, spec), stream, summary, tx.calls,
                      tx.released) &&
        (summary.status.Failed? ==>
          TellsFailure(StatementFor(tx.dialect, order, spec), spec, stream, summary, tx.calls, tx.reports)) &&
        if steps.sourceCloses && steps.targetCloses then r == Returned(summary) else r.Threw?
    ensures written.Some? <==> !steps.aborted && steps.sourceOpens && steps.targetOpens && steps.begins
  {
    written := None;
    if steps.aborted {
      return Threw(Transform.ABORTED), None;
    }
    if !steps.sourceOpens || !steps.targetOpens {
      return Threw("open failed"), None;
    }
    var stream := Transform.ApplyTransform(ops, transform, source, abortAt);
    var counted, reports := Transform.WithMoveProgress(stream.batches);
    if !steps.begins {
      r := Threw("begin failed");
    } else {
      var statement := StatementFor(tx.dialect, order, spec);
      StatementsSend(tx.dialect, order, spec);
      if tx.dialect.Postgres? {
        r := WritePoweredPostgres(tx, spec, statement, Stream(counted, stream.failure));
      } else {
        r := WritePoweredChecked(tx, spec, statement, Stream(counted, stream.failure));
      }
      written := Some(r.value);
    }
    if !steps.sourceCloses || !steps.targetCloses {
      r := Threw("close failed");
    }
  }

  /** Replace, end to end: a move reported completed leaves the table holding exactly the
      transformed source rows, in order, and counts them; a move reported failed, for any
      failing call, source read or abort, leaves it unchanged, unless the COMMIT itself was
      what failed, and then it may be just as after a completed one. "Exactly" needs, and
      needs no more than, that no batch has a row with other columns than its first one. */
  lemma ReplaceIsAllOrNothing(dialect: Dialect, order: KeyOrder, spec: WriteSpec, ops: Transform.Ops,
                              transform: Option<Transform.Spec>,
                              source: Stream, abortAt: Option<nat>, result: Summary,
                              calls: seq<Event>, released: nat, states: seq<Server>)
    requires !dialect.Oracle? && ListsKeys(order) && spec.replace
    requires WriteContract(dialect, spec, StatementFor(dialect, order, spec),
                           Transform.Transformed(ops, transform, source, abortAt), result, calls, released)
    requires History(dialect, AddsOf(dialect, spec), calls, states)
    ensures var rows := Transform.MovedRows(ops, transform, Flatten(source.batches));
      var stream := Transform.Transformed(ops, transform, source, abortAt);
      var first, last := states[0].committed, states[|calls|].committed;
      (result.status.Completed? ==>
        result.rowsWritten == |last| == |rows| &&
        (last == KeepRows(dialect, rows) <==> UniformBatches(stream.batches))) &&
      (result.status.Failed? ==>
        last == first ||
        (stream.failure.None? && Event(Commit, false) in calls &&
         |last| == |rows| && (last == KeepRows(dialect, rows) <==> UniformBatches(stream.batches))))
  {
    var stream := Transform.Transformed(ops, transform, source, abortAt);
    StatementsAreFaithful(dialect, order, spec);
    AllOrNothing(dialect, spec, StatementFor(dialect, order, spec), AddsOf(dialect, spec), KeepsOf(dialect, order),
                 stream, result, calls, released, states);
    KeepsAllIff(dialect, order, stream.batches);
    KeptCount(dialect, order, stream.batches);
    if stream.failure.None? {
      UnbrokenStream(ops, transform, source, abortAt);
    }
  }

  /** A stream that ends without a failure carries all the transformed rows. */
  lemma UnbrokenStream(ops: Transform.Ops, transform: Option<Transform.Spec>, source: Stream, abortAt: Option<nat>)
    requires Transform.Transformed(ops, transform, source, abortAt).failure.None?
    ensures Flatten(Transform.Transformed(ops, transform, source, abortAt).batches) ==
            Transform.MovedRows(ops, transform, Flatten(source.batches))
  {
    if transform.Some? {
      Transform.BatchesDoNotMatter(ops, transform.value, source.batches);
    }
  }

  /** With a projection the rows share one column set, whatever the source. */
  lemma ProjectionSharesColumns(ops: Transform.Ops, transform: Transform.Spec, rows: Batch)
    requires transform.columns != []
    ensures SameColumns(Transform.MovedRows(ops, Some(transform), rows), Transform.OutputColumns(transform))
  {
    Transform.ProjectionUnifiesColumns(ops, transform, rows);
  }

  /** So with a projection nothing is lost. */
  lemma ProjectionIsUniform(ops: Transform.Ops, transform: Transform.Spec, source: Stream, abortAt: Option<nat>)
    requires transform.columns != []
    ensures UniformBatches(Transform.Transformed(ops, Some(transform), source, abortAt).batches)
  {
    var batches := Transform.Aborting(source, abortAt).batches;
    Transform.BatchesDoNotMatter(ops, transform, batches);
    ProjectionSharesColumns(ops, transform, Flatten(batches));
    SameColumnsAreUniform(Transform.TransformBatches(ops, transform, batches), Transform.OutputColumns(transform));
  }

  /** Without it a cell can be lost: a column missing from a batch's first row is not written. */
  lemma LateColumnIsLost(dialect: Dialect, order: KeyOrder)
    requires ListsKeys(order)
    ensures var a: Row, b: Row := map["x" := Int(1)], map["x" := Int(2), "y" := Int(3)];
      StoredBatch(dialect, order, [a, b]) == [map["x" := SqlInt(1)], map["x" := SqlInt(2)]]
  {
    var a: Row, b: Row := map["x" := Int(1)], map["x" := Int(2), "y" := Int(3)];
    var batch := [a, b];
    var cols := order(batch[0]);
    assert "x" in a && forall col :: col in cols <==> col in a;
    var stored := StoredBatch(dialect, order, batch);
    forall i | 0 <= i < 2 ensures stored[i] == map["x" := Keep(dialect, batch[i]["x"])] {
      assert stored[i] == map col | col in cols :: Keep(dialect, Get(batch[i], col));
      assert stored[i].Keys == {"x"};
    }
  }
}
