/** The Bridge engine's lazy row transform, its progress counter, and the preview. */
module Transform {
  import opened JsText
  import opened Movement

  datatype CastKind = ToText | ToNumber | ToBoolean | ToDate | ToDatetime | ToJson

  /** An empty `from` is a constant column. `default` is `Undefined` when none is given. */
  datatype Column = Column(from: string, to: string, cast: Option<CastKind>, default: Value)

  datatype Derive = Derive(to: string, template: string)

  datatype Default = Default(column: string, value: Value)

  datatype FilterOp = Exists | Empty | Eq | Neq | Gt | Gte | Lt | Lte | In | Unknown

  datatype FilterValue = One(v: Value) | Many(vs: seq<Value>)

  datatype Filter = Filter(column: string, op: FilterOp, value: FilterValue)

  datatype Spec = Spec(columns: seq<Column>, derive: seq<Derive>, defaults: seq<Default>, filters: seq<Filter>)

  /** The parts that stay abstract: casting a value that is there, filling a template, and
      ordering two values that are both there. */
  datatype Ops = Ops(
    cast: (Value, CastKind) -> Value,
    interpolate: (string, Row) -> Value,
    compare: (Value, FilterValue, FilterOp) -> bool)

  predicate HasWork(spec: Spec)
  {
    spec.columns != [] || spec.derive != [] || spec.defaults != [] || spec.filters != []
  }

  function CastValue(ops: Ops, v: Value, kind: CastKind): Value
  {
    if v.Null? || v.Undefined? then Null else ops.cast(v, kind)
  }

  function ColumnValue(ops: Ops, row: Row, c: Column): Value
  {
    var raw :=
      if c.from == "" then (if c.default.Undefined? then Null else c.default)
      else if IsEmpty(Get(row, c.from)) && !c.default.Undefined? then c.default
      else Get(row, c.from);
    if c.cast.Some? then CastValue(ops, raw, c.cast.value) else raw
  }

  predicate Matches(ops: Ops, row: Row, f: Filter)
  {
    var left := Get(row, f.column);
    match f.op
    case Exists => !IsEmpty(left)
    case Empty => IsEmpty(left)
    case Eq => f.value == One(left)
    case Neq => f.value != One(left)
    case In => f.value.Many? && left in f.value.vs
    case Unknown => true
    case _ =>
      !left.Null? && !left.Undefined? && f.value != One(Null) && f.value != One(Undefined) &&
      ops.compare(left, f.value, f.op)
  }

  // ----- one row -----

  function WithColumns(ops: Ops, row: Row, columns: seq<Column>): Row
  {
    if columns == [] then map[]
    else
      var c := columns[|columns| - 1];
      WithColumns(ops, row, columns[..|columns| - 1])[c.to := ColumnValue(ops, row, c)]
  }

  function WithDerived(ops: Ops, row: Row, mapped: Row, derive: seq<Derive>): Row
  {
    if derive == [] then mapped
    else
      var d := derive[|derive| - 1];
      var before := WithDerived(ops, row, mapped, derive[..|derive| - 1]);
      before[d.to := ops.interpolate(d.template, row + before)]
  }

  function WithDefaults(mapped: Row, defaults: seq<Default>): Row
  {
    if defaults == [] then mapped
    else
      var d := defaults[|defaults| - 1];
      var before := WithDefaults(mapped, defaults[..|defaults| - 1]);
      if IsEmpty(Get(before, d.column)) then before[d.column := d.value] else before
  }

  function MappedRow(ops: Ops, spec: Spec, row: Row): Row
  {
    var projected := if spec.columns == [] then row else WithColumns(ops, row, spec.columns);
    WithDefaults(WithDerived(ops, row, projected, spec.derive), spec.defaults)
  }

  predicate Keeps(ops: Ops, spec: Spec, mapped: Row)
  {
    forall f :: f in spec.filters ==> Matches(ops, mapped, f)
  }

  /** What the transform makes of a list of rows: map each row, keep those that pass. */
  function TransformRows(ops: Ops, spec: Spec, rows: Batch): Batch
  {
    if rows == [] then []
    else
      var mapped := MappedRow(ops, spec, rows[0]);
      (if Keeps(ops, spec, mapped) then [mapped] else []) + TransformRows(ops, spec, rows[1..])
  }

  lemma {:induction false} TransformRowsAppend(ops: Ops, spec: Spec, a: Batch, b: Batch)
    ensures TransformRows(ops, spec, a + b) == TransformRows(ops, spec, a) + TransformRows(ops, spec, b)
  {
    if a == [] {
      assert a + b == b;
    } else {
      TransformRowsAppend(ops, spec, a[1..], b);
      assert (a + b)[0] == a[0] && (a + b)[1..] == a[1..] + b;
      var mapped := MappedRow(ops, spec, a[0]);
      Assoc(if Keeps(ops, spec, mapped) then [mapped] else [],
            TransformRows(ops, spec, a[1..]), TransformRows(ops, spec, b));
    }
  }

  lemma TransformRowsSnoc(ops: Ops, spec: Spec, rows: Batch, row: Row)
    ensures TransformRows(ops, spec, rows + [row]) ==
            TransformRows(ops, spec, rows) +
            (if Keeps(ops, spec, MappedRow(ops, spec, row)) then [MappedRow(ops, spec, row)] else [])
  {
    TransformRowsAppend(ops, spec, rows, [row]);
    assert TransformRows(ops, spec, [row][1..]) == [];
  }

  /** The loop over one row's columns, derived columns and defaults. */
  method MapRow(ops: Ops, spec: Spec, row: Row) returns (mapped: Row)
    ensures mapped == MappedRow(ops, spec, row)
  {
    mapped := if |spec.columns| == 0 then row else map[];
    for c := 0 to |spec.columns|
      invariant mapped == if spec.columns == [] then row else WithColumns(ops, row, spec.columns[..c])
    {
      var column := spec.columns[c];
      assert spec.columns[..c + 1][..c] == spec.columns[..c];
      mapped := mapped[column.to := ColumnValue(ops, row, column)];
    }
    assert spec.columns[..|spec.columns|] == spec.columns;
    ghost var projected := mapped;
    for d := 0 to |spec.derive|
      invariant mapped == WithDerived(ops, row, projected, spec.derive[..d])
    {
      assert spec.derive[..d + 1][..d] == spec.derive[..d];
      mapped := mapped[spec.derive[d].to := ops.interpolate(spec.derive[d].template, row + mapped)];
    }
    assert spec.derive[..|spec.derive|] == spec.derive;
    ghost var derived := mapped;
    for d := 0 to |spec.defaults|
      invariant mapped == WithDefaults(derived, spec.defaults[..d])
    {
      assert spec.defaults[..d + 1][..d] == spec.defaults[..d];
      if IsEmpty(Get(mapped, spec.defaults[d].column)) {
        mapped := mapped[spec.defaults[d].column := spec.defaults[d].value];
      }
    }
    assert spec.defaults[..|spec.defaults|] == spec.defaults;
  }

  /** The columns every transformed row has, once a projection is given. */
  function OutputColumns(spec: Spec): set<string>
  {
    (set c | c in spec.columns :: c.to) + (set d | d in spec.derive :: d.to) + (set d | d in spec.defaults :: d.column)
  }

  lemma {:induction false} ColumnsGiveKeys(ops: Ops, row: Row, columns: seq<Column>)
    ensures WithColumns(ops, row, columns).Keys == set c | c in columns :: c.to
  {
    if columns != [] {
      var n := |columns| - 1;
      ColumnsGiveKeys(ops, row, columns[..n]);
      assert forall c :: c in columns <==> c in columns[..n] || c == columns[n];
    }
  }

  lemma {:induction false} DerivedGiveKeys(ops: Ops, row: Row, mapped: Row, derive: seq<Derive>)
    ensures WithDerived(ops, row, mapped, derive).Keys == mapped.Keys + set d | d in derive :: d.to
  {
    if derive != [] {
      var n := |derive| - 1;
      DerivedGiveKeys(ops, row, mapped, derive[..n]);
      assert forall d :: d in derive <==> d in derive[..n] || d == derive[n];
    }
  }

  lemma {:induction false} DefaultsGiveKeys(mapped: Row, defaults: seq<Default>)
    ensures WithDefaults(mapped, defaults).Keys == mapped.Keys + set d | d in defaults :: d.column
  {
    if defaults != [] {
      var n := |defaults| - 1;
      DefaultsGiveKeys(mapped, defaults[..n]);
      assert forall d :: d in defaults <==> d in defaults[..n] || d == defaults[n];
    }
  }

  /** With a projection, all rows handed to the writer share one column set, whatever the
      source rows look like: the batch's first row names the columns of all of them. */
  lemma {:induction false} ProjectionUnifiesColumns(ops: Ops, spec: Spec, rows: Batch)
    requires spec.columns != []
    ensures forall row :: row in TransformRows(ops, spec, rows) ==> row.Keys == OutputColumns(spec)
  {
    if rows != [] {
      ProjectionUnifiesColumns(ops, spec, rows[1..]);
      var projected := WithColumns(ops, rows[0], spec.columns);
      ColumnsGiveKeys(ops, rows[0], spec.columns);
      DerivedGiveKeys(ops, rows[0], projected, spec.derive);
      DefaultsGiveKeys(WithDerived(ops, rows[0], projected, spec.derive), spec.defaults);
    }
  }

  // ----- batches -----

  const ABORTED := "Bridge move aborted"

  /** The source stream under a signal that is found aborted when batch `abortAt` arrives. */
  function Aborting(source: Stream, abortAt: Option<nat>): Stream
  {
    if abortAt.Some? && abortAt.value < |source.batches|
    then Stream(source.batches[..abortAt.value], Some(ABORTED))
    else source
  }

  /** Batch by batch, without the batches that end up empty. */
  function TransformBatches(ops: Ops, spec: Spec, batches: seq<Batch>): seq<Batch>
  {
    if batches == [] then []
    else
      var n := |batches| - 1;
      var out := TransformRows(ops, spec, batches[n]);
      TransformBatches(ops, spec, batches[..n]) + (if out == [] then [] else [out])
  }

  /** The stream handed to the writer. */
  function Transformed(ops: Ops, spec: Option<Spec>, source: Stream, abortAt: Option<nat>): Stream
  {
    var s := Aborting(source, abortAt);
    if spec.Some? && HasWork(spec.value) then Stream(TransformBatches(ops, spec.value, s.batches), s.failure) else s
  }

  lemma OneMoreBatch(ops: Ops, spec: Spec, batches: seq<Batch>, b: nat)
    requires b < |batches|
    ensures var out := TransformRows(ops, spec, batches[b]);
      TransformBatches(ops, spec, batches[..b + 1]) ==
      TransformBatches(ops, spec, batches[..b]) + (if out == [] then [] else [out])
  {
    assert batches[..b + 1][..b] == batches[..b];
  }

  /** The loop of `applyTransform` over the rows of one batch. */
  method TransformBatch(ops: Ops, spec: Spec, batch: Batch) returns (out: Batch)
    ensures out == TransformRows(ops, spec, batch)
  {
    out := [];
    for i := 0 to |batch|
      invariant out == TransformRows(ops, spec, batch[..i])
    {
      var mapped := MapRow(ops, spec, batch[i]);
      TransformRowsSnoc(ops, spec, batch[..i], batch[i]);
      TakeSnoc(batch, i);
      if Keeps(ops, spec, mapped) {
        out := out + [mapped];
      }
    }
    assert batch[..|batch|] == batch;
  }

  /** `applyTransform` */
  method ApplyTransform(ops: Ops, spec: Option<Spec>, source: Stream, abortAt: Option<nat>) returns (r: Stream)
    ensures r == Transformed(ops, spec, source, abortAt)
  {
    var work := spec.Some? && HasWork(spec.value);
    var batches: seq<Batch> := [];
    for b := 0 to |source.batches|
      invariant abortAt.None? || b <= abortAt.value
      invariant batches == if work then TransformBatches(ops, spec.value, source.batches[..b]) else source.batches[..b]
    {
      if abortAt.Some? && abortAt.value <= b {
        return Stream(batches, Some(ABORTED));
      }
      if !work {
        batches := batches + [source.batches[b]];
        continue;
      }
      OneMoreBatch(ops, spec.value, source.batches, b);
      var out := TransformBatch(ops, spec.value, source.batches[b]);
      if |out| > 0 {
        batches := batches + [out];
      }
    }
    assert source.batches[..|source.batches|] == source.batches;
    r := Stream(batches, source.failure);
  }

  /** However the source is batched, the rows that come out are the same; and no batch is empty. */
  lemma {:induction false} BatchesDoNotMatter(ops: Ops, spec: Spec, batches: seq<Batch>)
    ensures Flatten(TransformBatches(ops, spec, batches)) == TransformRows(ops, spec, Flatten(batches))
    ensures [] !in TransformBatches(ops, spec, batches)
  {
    if batches != [] {
      var n := |batches| - 1;
      BatchesDoNotMatter(ops, spec, batches[..n]);
      FlattenSnoc(batches[..n], batches[n]);
      assert batches[..n] + [batches[n]] == batches;
      TransformRowsAppend(ops, spec, Flatten(batches[..n]), batches[n]);
      FlattenUnlessEmpty(TransformBatches(ops, spec, batches[..n]), TransformRows(ops, spec, batches[n]));
    }
  }

  lemma FlattenUnlessEmpty(batches: seq<Batch>, out: Batch)
    ensures Flatten(batches + (if out == [] then [] else [out])) == Flatten(batches) + out
  {
    FlattenSnoc(batches, out);
    assert batches + [] == batches && Flatten(batches) + [] == Flatten(batches);
  }

  /** The rows a move makes of the source's rows. */
  function MovedRows(ops: Ops, spec: Option<Spec>, rows: Batch): Batch
  {
    if spec.Some? && HasWork(spec.value) then TransformRows(ops, spec.value, rows) else rows
  }

  /** Two sources with the same rows and the same end hand over the same rows. */
  lemma SameRowsSameOutput(ops: Ops, spec: Option<Spec>, a: Stream, b: Stream)
    requires Flatten(a.batches) == Flatten(b.batches) && a.failure == b.failure
    ensures var x, y := Transformed(ops, spec, a, None), Transformed(ops, spec, b, None);
      Flatten(x.batches) == Flatten(y.batches) == MovedRows(ops, spec, Flatten(a.batches)) && x.failure == y.failure
  {
    if spec.Some? {
      BatchesDoNotMatter(ops, spec.value, a.batches);
      BatchesDoNotMatter(ops, spec.value, b.batches);
    }
  }

  /** `withMoveProgress`: batches pass through; each report is the number of rows so far. */
  method WithMoveProgress(batches: seq<Batch>) returns (out: seq<Batch>, reports: seq<nat>)
    ensures out == batches && |reports| == |batches|
    ensures forall i :: 0 <= i < |reports| ==> reports[i] == |Flatten(batches[..i + 1])|
  {
    out, reports := [], [];
    var rowsRead := 0;
    for b := 0 to |batches|
      invariant out == batches[..b] && |reports| == b
      invariant rowsRead == |Flatten(batches[..b])|
      invariant forall i :: 0 <= i < b ==> reports[i] == |Flatten(batches[..i + 1])|
    {
      TakeSnoc(batches, b);
      FlattenSnoc(batches[..b], batches[b]);
      rowsRead := rowsRead + |batches[b]|;
      reports := reports + [rowsRead];
      out := out + [batches[b]];
    }
  }

  // ----- preview -----

  datatype Preview = Preview(rows: Batch, truncated: bool)

  /** The first `limit` rows of a stream, and whether there are more; the stream's failure
      shows only if the preview has to read that far. */
  function FirstRows(s: Stream, limit: int): Outcome<Preview>
  {
    var all := Flatten(s.batches);
    var n := if limit < 0 then 0 else limit;
    if |all| > n then Returned(Preview(all[..n], true))
    else if s.failure.Some? then Threw(s.failure.value)
    else Returned(Preview(all, false))
  }

  /** `rows` are the first rows of `all`, and `left` are the others. */
  ghost predicate SplitsInto(all: Batch, rows: Batch, left: Batch)
  {
    all == rows + left
  }

  lemma TakeOne(all: Batch, rows: Batch, row: Row, left: Batch)
    requires SplitsInto(all, rows, [row] + left)
    ensures SplitsInto(all, rows + [row], left)
    ensures |all| > |rows| && rows == all[..|rows|]
  {
  }

  /** The preview's loop over one batch, of which `left` follow: it stops when it is full. */
  method PreviewBatch(batch: Batch, limit: int, before: Batch, ghost all: Batch, ghost left: Batch)
    returns (rows: Batch, truncated: bool)
    requires SplitsInto(all, before, batch + left)
    requires |before| <= limit || before == []
    ensures |rows| <= limit || rows == []
    ensures truncated ==> |rows| >= limit && |all| > |rows| && rows == all[..|rows|]
    ensures !truncated ==> SplitsInto(all, rows, left)
  {
    rows := before;
    assert batch[0..] == batch;
    for i := 0 to |batch|
      invariant SplitsInto(all, rows, batch[i..] + left)
      invariant |rows| <= limit || rows == []
    {
      assert batch[i..] + left == [batch[i]] + (batch[i + 1..] + left);
      TakeOne(all, rows, batch[i], batch[i + 1..] + left);
      if |rows| >= limit {
        return rows, true;
      }
      rows := rows + [batch[i]];
    }
    assert batch[|batch|..] + left == left;
    truncated := false;
  }

  /** `previewMove`: its rows are the first ones the writer of a real move is handed. */
  method PreviewMove(ops: Ops, spec: Option<Spec>, source: Stream, abortAt: Option<nat>, limit: int)
    returns (r: Outcome<Preview>)
    ensures r == FirstRows(Transformed(ops, spec, source, abortAt), limit)
  {
    var s := ApplyTransform(ops, spec, source, abortAt);
    var rows: Batch := [];
    ghost var all := Flatten(s.batches);
    assert s.batches[0..] == s.batches;
    for b := 0 to |s.batches|
      invariant SplitsInto(all, rows, Flatten(s.batches[b..]))
      invariant |rows| <= limit || rows == []
    {
      assert s.batches[b..][1..] == s.batches[b + 1..];
      var truncated;
      rows, truncated := PreviewBatch(s.batches[b], limit, rows, all, Flatten(s.batches[b + 1..]));
      if truncated {
        return Returned(Preview(rows, true));
      }
    }
    assert rows + [] == rows;
    if s.failure.Some? {
      return Threw(s.failure.value);
    }
    r := Returned(Preview(rows, false));
  }
}
