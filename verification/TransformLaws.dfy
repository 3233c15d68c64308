/** What a declarative transform means: laws that build its output up, one filter, column, derived
    column or default at a time. */
module TransformLaws {
  import opened JsText
  import opened Movement
  import Transform

  /** A transform that does nothing, and one that only filters. */
  const NOTHING := Transform.Spec([], [], [], [])

  function Only(f: Transform.Filter): Transform.Spec
  {
    NOTHING.(filters := [f])
  }

  // ----- filters -----

  function EqualTo(column: string, value: Transform.FilterValue): Row -> bool
  {
    row => Transform.One(Get(row, column)) == value
  }

  function DifferentFrom(column: string, value: Transform.FilterValue): Row -> bool
  {
    row => Transform.One(Get(row, column)) != value
  }

  function Among(column: string, values: seq<Value>): Row -> bool
  {
    row => Get(row, column) in values
  }

  function Filled(column: string): Row -> bool
  {
    row => Get(row, column) != Undefined && Get(row, column) != Null && Get(row, column) != Text("")
  }

  function NotFilled(column: string): Row -> bool
  {
    row => Get(row, column) == Undefined || Get(row, column) == Null || Get(row, column) == Text("")
  }

  /** A missing or null operand compares with nothing. */
  function InOrder(ops: Transform.Ops, column: string, op: Transform.FilterOp, value: Transform.FilterValue)
    : Row -> bool
  {
    row =>
      && Get(row, column) != Undefined && Get(row, column) != Null
      && value != Transform.One(Undefined) && value != Transform.One(Null)
      && ops.compare(Get(row, column), value, op)
  }

  function All(): Row -> bool
  {
    row => true
  }

  function Nobody(): Row -> bool
  {
    row => false
  }

  lemma {:induction false} OnlyKeeps(ops: Transform.Ops, f: Transform.Filter, keep: Row -> bool, rows: Batch)
    requires forall row: Row :: keep(row) <==> Transform.Matches(ops, row, f)
    ensures Transform.TransformRows(ops, Only(f), rows) == Filter(rows, keep)
  {
    if rows != [] {
      OnlyKeeps(ops, f, keep, rows[1..]);
      assert Transform.MappedRow(ops, Only(f), rows[0]) == rows[0];
      assert Transform.Keeps(ops, Only(f), rows[0]) <==> keep(rows[0]) by {
        assert f in Only(f).filters;
      }
    }
  }

  /** The condition that a single filter stands for. */
  function Condition(ops: Transform.Ops, f: Transform.Filter): Row -> bool
  {
    match f.op
    case Eq => EqualTo(f.column, f.value)
    case Neq => DifferentFrom(f.column, f.value)
    case In => if f.value.Many? then Among(f.column, f.value.vs) else Nobody()
    case Exists => Filled(f.column)
    case Empty => NotFilled(f.column)
    case Unknown => All()
    case _ => InOrder(ops, f.column, f.op, f.value)
  }

  /** A transform of one filter hands on exactly the rows that meet its condition, in order, as
      they are. */
  lemma FilterMeaning(ops: Transform.Ops, f: Transform.Filter, rows: Batch)
    ensures Transform.TransformRows(ops, Only(f), rows) == Filter(rows, Condition(ops, f))
  {
    OnlyKeeps(ops, f, Condition(ops, f), rows);
  }

  lemma KeepsOneMore(ops: Transform.Ops, spec: Transform.Spec, f: Transform.Filter, mapped: Row)
    ensures Transform.Keeps(ops, spec.(filters := spec.filters + [f]), mapped) <==>
            Transform.Keeps(ops, spec, mapped) && Transform.Keeps(ops, Only(f), mapped)
  {
    var more := spec.filters + [f];
    assert forall g :: g in more <==> g in spec.filters || g == f;
    assert f in Only(f).filters;
  }

  /** One filter more keeps those of the rows so far that it keeps by itself: so it never adds a
      row, and several filters keep the rows that each of them keeps. */
  lemma {:induction false} FiltersCompose(ops: Transform.Ops, spec: Transform.Spec, f: Transform.Filter, rows: Batch)
    ensures Transform.TransformRows(ops, spec.(filters := spec.filters + [f]), rows) ==
            Transform.TransformRows(ops, Only(f), Transform.TransformRows(ops, spec, rows))
  {
    if rows != [] {
      var more := spec.(filters := spec.filters + [f]);
      var mapped := Transform.MappedRow(ops, spec, rows[0]);
      var kept := if Transform.Keeps(ops, spec, mapped) then [mapped] else [];
      assert Transform.MappedRow(ops, more, rows[0]) == mapped;
      FiltersCompose(ops, spec, f, rows[1..]);
      KeepsOneMore(ops, spec, f, mapped);
      Transform.TransformRowsAppend(ops, Only(f), kept, Transform.TransformRows(ops, spec, rows[1..]));
      OnlyOnOne(ops, f, mapped);
    }
  }

  lemma OnlyOnOne(ops: Transform.Ops, f: Transform.Filter, row: Row)
    ensures Transform.TransformRows(ops, Only(f), [row]) == if Transform.Keeps(ops, Only(f), row) then [row] else []
    ensures Transform.TransformRows(ops, Only(f), []) == []
  {
    assert Transform.MappedRow(ops, Only(f), row) == row;
    assert Transform.TransformRows(ops, Only(f), [row][1..]) == [];
  }

  // ----- the row that comes out -----

  /** What a transform without filters makes of one row. */
  function Out(ops: Transform.Ops, spec: Transform.Spec, row: Row): (out: Row)
    requires spec.filters == []
    ensures Transform.TransformRows(ops, spec, [row]) == [out]
  {
    assert Transform.TransformRows(ops, spec, [row][1..]) == [];
    Transform.TransformRows(ops, spec, [row])[0]
  }

  /** Without filters every row comes out, in its place, whatever the other rows are. */
  lemma {:induction false} RowByRow(ops: Transform.Ops, spec: Transform.Spec, rows: Batch)
    requires spec.filters == []
    ensures Transform.TransformRows(ops, spec, rows) == Map(row => Out(ops, spec, row), rows)
  {
    if rows != [] {
      RowByRow(ops, spec, rows[1..]);
      Transform.TransformRowsAppend(ops, spec, [rows[0]], rows[1..]);
      assert [rows[0]] + rows[1..] == rows;
    }
  }

  lemma OutIsMapped(ops: Transform.Ops, spec: Transform.Spec, row: Row)
    requires spec.filters == []
    ensures Out(ops, spec, row) == Transform.MappedRow(ops, spec, row)
  {
    assert Transform.TransformRows(ops, spec, [row][1..]) == [];
  }

  /** Nothing to do: the row as it is. */
  lemma NothingDone(ops: Transform.Ops, row: Row)
    ensures Out(ops, NOTHING, row) == row
  {
    OutIsMapped(ops, NOTHING, row);
  }

  /** A column before it is cast: constant if it has no source, else the source cell, or the
      default if there is one and the cell is not filled. */
  function RawCell(row: Row, c: Transform.Column): Value
  {
    if c.from == "" then (if c.default == Undefined then Null else c.default)
    else if c.default != Undefined && NotFilled(c.from)(row) then c.default
    else Get(row, c.from)
  }

  lemma {:induction false} LastWriter(ops: Transform.Ops, row: Row, columns: seq<Transform.Column>, i: nat)
    requires i < |columns| && forall j :: i < j < |columns| ==> columns[j].to != columns[i].to
    ensures var written := Transform.WithColumns(ops, row, columns);
      columns[i].to in written && written[columns[i].to] == Transform.ColumnValue(ops, row, columns[i])
  {
    var n := |columns| - 1;
    if i < n {
      LastWriter(ops, row, columns[..n], i);
    }
  }

  /** A projection: the row that comes out has the projected columns and no others, each with its
      raw cell, or with that cell cast, where null and undefined cast to null; the last of several
      columns with one name counts. */
  lemma ColumnsMeaning(ops: Transform.Ops, columns: seq<Transform.Column>, row: Row, i: nat)
    requires i < |columns| && forall j :: i < j < |columns| ==> columns[j].to != columns[i].to
    ensures var c, out := columns[i], Out(ops, NOTHING.(columns := columns), row);
      && out.Keys == (set d | d in columns :: d.to)
      && c.to in out
      && out[c.to] ==
           if c.cast.None? then RawCell(row, c)
           else if RawCell(row, c) == Null || RawCell(row, c) == Undefined then Null
           else ops.cast(RawCell(row, c), c.cast.value)
  {
    OutIsMapped(ops, NOTHING.(columns := columns), row);
    Transform.ColumnsGiveKeys(ops, row, columns);
    LastWriter(ops, row, columns, i);
    assert columns[i] in columns;
  }

  /** One derived column more: its template filled from the source row and what is mapped so far,
      the latter counting where both have a column. */
  lemma DeriveMeaning(ops: Transform.Ops, spec: Transform.Spec, d: Transform.Derive, row: Row)
    requires spec.filters == [] && spec.defaults == []
    ensures var before := Out(ops, spec, row);
      Out(ops, spec.(derive := spec.derive + [d]), row) ==
      before[d.to := ops.interpolate(d.template, row + before)]
  {
    var more := spec.(derive := spec.derive + [d]);
    OutIsMapped(ops, spec, row);
    OutIsMapped(ops, more, row);
    assert more.derive[..|more.derive| - 1] == spec.derive;
  }

  /** One default more: it fills its column where that is not filled, and changes nothing else. */
  lemma DefaultMeaning(ops: Transform.Ops, spec: Transform.Spec, d: Transform.Default, row: Row)
    requires spec.filters == []
    ensures var before := Out(ops, spec, row);
      Out(ops, spec.(defaults := spec.defaults + [d]), row) ==
      if NotFilled(d.column)(before) then before[d.column := d.value] else before
  {
    var more := spec.(defaults := spec.defaults + [d]);
    OutIsMapped(ops, spec, row);
    OutIsMapped(ops, more, row);
    assert more.defaults[..|more.defaults| - 1] == spec.defaults;
  }

  // ----- the stream -----

  lemma {:induction false} NothingDoneToRows(ops: Transform.Ops, rows: Batch)
    ensures Transform.TransformRows(ops, NOTHING, rows) == rows
  {
    if rows != [] {
      NothingDoneToRows(ops, rows[1..]);
      NothingDone(ops, rows[0]);
      OutIsMapped(ops, NOTHING, rows[0]);
      assert [rows[0]] + rows[1..] == rows;
    }
  }

  /** Whether or not a transform is found to have work, the writer is handed the transformed rows:
      passing batches through when there is none is no more than a short cut. */
  lemma ShortCutIsSound(ops: Transform.Ops, spec: Transform.Spec, source: Stream)
    ensures var stream := Transform.Transformed(ops, Some(spec), source, None);
      Flatten(stream.batches) == Transform.TransformRows(ops, spec, Flatten(source.batches)) &&
      stream.failure == source.failure
  {
    if Transform.HasWork(spec) {
      Transform.BatchesDoNotMatter(ops, spec, source.batches);
    } else {
      assert spec == NOTHING;
      NothingDoneToRows(ops, Flatten(source.batches));
    }
  }

  /** A signal found aborted when batch `n` arrives: the batches before it are handed on, and then
      the stream fails; one found aborted later changes nothing. */
  lemma AbortCutsOff(ops: Transform.Ops, spec: Transform.Spec, source: Stream, n: nat)
    ensures var stream := Transform.Transformed(ops, Some(spec), source, Some(n));
      if n < |source.batches| then
        Flatten(stream.batches) == Transform.TransformRows(ops, spec, Flatten(source.batches[..n])) &&
        stream.failure == Some("Bridge move aborted")
      else stream == Transform.Transformed(ops, Some(spec), source, None)
  {
    if n < |source.batches| {
      ShortCutIsSound(ops, spec, Stream(source.batches[..n], Some("Bridge move aborted")));
    }
  }

  /** A preview shows the first rows of the stream, as many as it may, and says rightly whether
      there are more; it fails only if the stream does and has no more rows than the limit. */
  lemma PreviewIsFaithful(stream: Stream, limit: int)
    ensures var all, r := Flatten(stream.batches), Transform.FirstRows(stream, limit);
      match r
      case Returned(preview) =>
        && preview.rows <= all
        && |preview.rows| == (if limit <= 0 then 0 else if limit < |all| then limit else |all|)
        && (preview.truncated <==> preview.rows != all)
      case Threw(message) => stream.failure == Some(message) && (|all| <= limit || all == [])
  {
  }
}
