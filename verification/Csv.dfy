/** The CSV printer and parser of the WebHDFS adapter (RFC 4180 section 2). */
module Csv {
  import opened JsText
  import opened Movement

  type Record = seq<string>

  // ----- printer -----

  predicate NeedsQuotes(s: string)
  {
    '"' in s || ',' in s || '\n' in s || '\r' in s
  }

  function FieldText(s: string): string
  {
    if NeedsQuotes(s) then ['"'] + Doubled(s, '"') + ['"'] else s
  }

  /** The text a cell stands for: nothing for null and undefined, else `String(value)`. */
  function CellText(v: Value): string
  {
    match v
    case Undefined => ""
    case Null => ""
    case Bool(b) => if b then "true" else "false"
    case Int(n) => IntText(n)
    case Text(s) => s
  }

  function Line(fields: Record): string
  {
    Join(Map(FieldText, fields), ',')
  }

  function RowRecord(header: Record, row: Row): (rec: Record)
    ensures |rec| == |header|
  {
    Map(h => CellText(Get(row, h)), header)
  }

  function Records(header: Record, rows: Batch): (recs: seq<Record>)
    ensures |recs| == |rows|
    ensures forall i :: 0 <= i < |rows| ==> recs[i] == RowRecord(header, rows[i])
  {
    Map(row => RowRecord(header, row), rows)
  }

  function LinesText(records: seq<Record>): string
  {
    if records == [] then "" else Line(records[0]) + "\n" + LinesText(records[1..])
  }

  lemma {:induction false} LinesTextAppend(a: seq<Record>, b: seq<Record>)
    ensures LinesText(a + b) == LinesText(a) + LinesText(b)
  {
    if a == [] {
      assert a + b == b;
    } else {
      LinesTextAppend(a[1..], b);
      assert (a + b)[1..] == a[1..] + b;
    }
  }

  /** The whole CSV file for a list of rows: the header comes from the first row. */
  function CsvText(order: KeyOrder, rows: Batch): string
  {
    if rows == [] then "" else LinesText([order(rows[0])] + Records(order(rows[0]), rows))
  }

  /** The whole JSON file: an array of the rows, or nothing when there is no row. */
  function JsonText(stringify: Row -> string, rows: Batch): string
  {
    if rows == [] then "" else "[" + Join(Map(stringify, rows), ',') + "]"
  }

  datatype Format = CsvFormat | JsonFormat

  /** One line per row of a batch. */
  method CsvChunks(header: Record, batch: Batch) returns (chunks: seq<string>)
    ensures Flatten(chunks) == LinesText(Records(header, batch))
  {
    chunks := [];
    for r := 0 to |batch|
      invariant Flatten(chunks) == LinesText(Records(header, batch[..r]))
    {
      var text := Line(RowRecord(header, batch[r])) + "\n";
      FlattenSnoc(chunks, text);
      chunks := chunks + [text];
      OneLine(RowRecord(header, batch[r]));
      LinesTextAppend(Records(header, batch[..r]), [RowRecord(header, batch[r])]);
      assert Records(header, batch[..r + 1]) == Records(header, batch[..r]) + [RowRecord(header, batch[r])];
    }
    assert batch[..|batch|] == batch;
  }

  /** One array element per row of a batch; `done` rows are already out. */
  method JsonChunks(stringify: Row -> string, ghost done: Batch, batch: Batch, first: bool)
    returns (chunks: seq<string>)
    requires first == (done == [])
    ensures OpenJson(stringify, done) + Flatten(chunks) == OpenJson(stringify, done + batch)
  {
    chunks := [];
    var first := first;
    ghost var out := done;
    for r := 0 to |batch|
      invariant out == done + batch[..r]
      invariant first == (out == [])
      invariant OpenJson(stringify, done) + Flatten(chunks) == OpenJson(stringify, out)
    {
      var element := (if first then "[" else ",") + stringify(batch[r]);
      first := false;
      FlattenSnoc(chunks, element);
      chunks := chunks + [element];
      ExtendJson(stringify, out, batch[r]);
      out := out + [batch[r]];
    }
    assert batch[..|batch|] == batch;
  }

  /** The chunks for one batch in CSV: the header first, if no row has been written yet. */
  method CsvBatch(order: KeyOrder, header: Option<Record>, ghost done: Batch, batch: Batch)
    returns (chunks: seq<string>, known: Option<Record>)
    requires batch != [] && header == if done == [] then None else Some(order(done[0]))
    ensures CsvText(order, done) + Flatten(chunks) == CsvText(order, done + batch)
    ensures known == Some(order((done + batch)[0]))
  {
    ExtendCsv(order, done, batch);
    known := header;
    if header.None? {
      known := Some(order(batch[0]));
      var first := Line(known.value) + "\n";
      var lines := CsvChunks(known.value, batch);
      chunks := [first] + lines;
      assert chunks[0] == first && chunks[1..] == lines;
    } else {
      chunks := CsvChunks(known.value, batch);
    }
  }

  /** What has been written once `done` rows are out. */
  ghost function Written(format: Format, order: KeyOrder, stringify: Row -> string, done: Batch): string
  {
    if format.CsvFormat? then CsvText(order, done) else OpenJson(stringify, done)
  }

  /** `serializeRows`: the chunks written for a stream of batches. Their concatenation
      depends on the flattened rows only, not on how they are batched. */
  method SerializeRows(batches: seq<Batch>, format: Format, order: KeyOrder, stringify: Row -> string)
    returns (chunks: seq<string>)
    ensures Flatten(chunks) ==
      if format.CsvFormat? then CsvText(order, Flatten(batches)) else JsonText(stringify, Flatten(batches))
  {
    chunks := [];
    var header: Option<Record> := None;
    var first := true;
    ghost var done: Batch := [];
    for b := 0 to |batches|
      invariant done == Flatten(batches[..b])
      invariant first == (format.CsvFormat? || done == [])
      invariant header == if format.CsvFormat? && done != [] then Some(order(done[0])) else None
      invariant Flatten(chunks) == Written(format, order, stringify, done)
    {
      var batch := batches[b];
      TakeSnoc(batches, b);
      FlattenSnoc(batches[..b], batch);
      if |batch| == 0 {
        assert done + batch == done;
        continue;
      }
      var more;
      if format.CsvFormat? {
        more, header := CsvBatch(order, header, done, batch);
      } else {
        more := JsonChunks(stringify, done, batch, first);
        first := false;
      }
      FlattenAppend(chunks, more);
      chunks := chunks + more;
      done := done + batch;
    }
    assert batches[..|batches|] == batches;
    if format.JsonFormat? && !first {
      FlattenSnoc(chunks, "]");
      chunks := chunks + ["]"];
    }
  }

  /** What a JSON file holds once `done` rows are out and the array is still open. */
  ghost function OpenJson(stringify: Row -> string, done: Batch): string
  {
    if done == [] then "" else "[" + Join(Map(stringify, done), ',')
  }

  lemma RecordsAppend(header: Record, a: Batch, b: Batch)
    ensures Records(header, a + b) == Records(header, a) + Records(header, b)
  {
  }

  lemma HeaderAndRows(header: Record, done: Batch, batch: Batch)
    ensures LinesText([header] + Records(header, done + batch)) ==
            LinesText([header] + Records(header, done)) + LinesText(Records(header, batch))
  {
    RecordsAppend(header, done, batch);
    Assoc([header], Records(header, done), Records(header, batch));
    LinesTextAppend([header] + Records(header, done), Records(header, batch));
  }

  lemma ExtendCsv(order: KeyOrder, done: Batch, batch: Batch)
    requires batch != []
    ensures var header := order((done + batch)[0]);
      CsvText(order, done + batch) ==
      (if done == [] then Line(header) + "\n" else CsvText(order, done)) + LinesText(Records(header, batch))
  {
    var header := order((done + batch)[0]);
    HeaderAndRows(header, done, batch);
    if done == [] {
      OneLine(header);
      assert [header] + Records(header, done) == [header];
    } else {
      assert (done + batch)[0] == done[0];
    }
  }

  lemma OneLine(record: Record)
    ensures LinesText([record]) == Line(record) + "\n"
  {
    assert LinesText([record][1..]) == "";
  }

  lemma {:induction false} JoinSnoc(parts: seq<string>, part: string, sep: char)
    requires parts != []
    ensures Join(parts + [part], sep) == Join(parts, sep) + [sep] + part
  {
    if |parts| > 1 {
      JoinSnoc(parts[1..], part, sep);
      assert (parts + [part])[1..] == parts[1..] + [part];
    }
  }

  lemma ExtendJson(stringify: Row -> string, rows: Batch, row: Row)
    ensures OpenJson(stringify, rows + [row]) ==
            OpenJson(stringify, rows) + ((if rows == [] then "[" else ",") + stringify(row))
  {
    var parts := Map(stringify, rows);
    assert Map(stringify, rows + [row]) == parts + [stringify(row)];
    if rows != [] {
      JoinSnoc(parts, stringify(row), ',');
    }
  }

  // ----- parser -----

  /** The records parsed from `text` when `field` and `record` are under construction. */
  function Parse(text: string, field: string, record: Record, inQuotes: bool): seq<Record>
    decreases |text|
  {
    if text == "" then
      if field != "" || record != [] then [record + [field]] else []
    else if inQuotes then
      if text[0] != '"' then Parse(text[1..], field + [text[0]], record, true)
      else if |text| > 1 && text[1] == '"' then Parse(text[2..], field + ['"'], record, true)
      else Parse(text[1..], field, record, false)
    else match text[0]
      case '"' => Parse(text[1..], field, record, true)
      case ',' => Parse(text[1..], "", record + [field], false)
      case '\r' =>
        var rest := if |text| > 1 && text[1] == '\n' then text[2..] else text[1..];
        [record + [field]] + Parse(rest, "", [], false)
      case '\n' => [record + [field]] + Parse(text[1..], "", [], false)
      case _ => Parse(text[1..], field + [text[0]], record, false)
  }

  /** The row a data record stands for: missing cells are empty, surplus cells are ignored. */
  function RowOf(header: Record, rec: Record): Row
  {
    RowFrom(header, rec, |header|)
  }

  function RowFrom(header: Record, rec: Record, n: nat): Row
    requires n <= |header|
  {
    if n == 0 then map[]
    else RowFrom(header, rec, n - 1)[header[n - 1] := Text(if n <= |rec| then rec[n - 1] else "")]
  }

  /** Data records to rows; a record of one empty cell is a blank line and is dropped. */
  function Rows(header: Record, records: seq<Record>): Batch
  {
    if records == [] then []
    else if records[0] == [""] then Rows(header, records[1..])
    else [RowOf(header, records[0])] + Rows(header, records[1..])
  }

  function Table(records: seq<Record>): Batch
  {
    if records == [] then [] else Rows(records[0], records[1..])
  }

  lemma {:induction false} RowsSnoc(header: Record, records: seq<Record>, rec: Record)
    ensures Rows(header, records + [rec]) ==
            Rows(header, records) + (if rec == [""] then [] else [RowOf(header, rec)])
  {
    if records == [] {
      assert ([rec])[1..] == [];
    } else {
      RowsSnoc(header, records[1..], rec);
      assert (records + [rec])[1..] == records[1..] + [rec];
    }
  }

  lemma RestFrom(text: string, i: nat)
    requires i < |text|
    ensures var rest := text[i..];
      rest[0] == text[i] && rest[1..] == text[i + 1..] && (|rest| > 1 <==> i + 1 < |text|) &&
      (i + 1 < |text| ==> rest[1] == text[i + 1] && rest[2..] == text[i + 2..])
  {
  }

  /** The character loop of `parseCsv`. */
  method ParseRecords(text: string) returns (records: seq<Record>)
    ensures records == Parse(text, "", [], false)
  {
    records := [];
    var field := "";
    var record: Record := [];
    var i := 0;
    var inQuotes := false;
    var n := |text|;
    while i < n
      invariant 0 <= i <= n
      invariant Parse(text, "", [], false) == records + Parse(text[i..], field, record, inQuotes)
    {
      var ch := text[i];
      RestFrom(text, i);
      if inQuotes {
        if ch == '"' {
          if i + 1 < n && text[i + 1] == '"' {
            field := field + ['"'];
            i := i + 2;
            continue;
          }
          inQuotes := false;
          i := i + 1;
          continue;
        }
        field := field + [ch];
        i := i + 1;
        continue;
      }
      if ch == '"' {
        inQuotes := true;
        i := i + 1;
        continue;
      }
      if ch == ',' {
        record := record + [field];
        field := "";
        i := i + 1;
        continue;
      }
      if ch == '\r' || ch == '\n' {
        if ch == '\r' && i + 1 < n && text[i + 1] == '\n' {
          i := i + 1;
        }
        Assoc(records, [record + [field]], Parse(text[i + 1..], "", [], false));
        records := records + [record + [field]];
        field := "";
        record := [];
        i := i + 1;
        continue;
      }
      field := field + [ch];
      i := i + 1;
    }
    assert text[n..] == "" && text[0..] == text;
    if field != "" || |record| > 0 {
      record := record + [field];
      records := records + [record];
    }
  }

  /** `parseCsv` */
  method ParseCsv(text: string) returns (rows: Batch)
    ensures rows == Table(Parse(text, "", [], false))
  {
    rows := [];
    var records := ParseRecords(text);
    if |records| == 0 {
      return;
    }
    var header := records[0];
    var r := 1;
    while r < |records|
      invariant 1 <= r <= |records|
      invariant rows == Rows(header, records[1..r])
    {
      var rec := records[r];
      RowsSnoc(header, records[1..r], rec);
      assert records[1..r + 1] == records[1..r] + [rec];
      r := r + 1;
      if |rec| == 1 && rec[0] == "" {
        assert rec == [""];
        continue;
      }
      var row: Row := map[];
      for c := 0 to |header|
        invariant row == RowFrom(header, rec, c)
      {
        row := row[header[c] := Text(if c < |rec| then rec[c] else "")];
      }
      rows := rows + [row];
    }
    assert records[1..|records|] == records[1..];
  }

  // ----- round trip -----

  lemma {:induction false} PlainRun(s: string, rest: string, field: string, record: Record)
    requires !NeedsQuotes(s)
    ensures Parse(s + rest, field, record, false) == Parse(rest, field + s, record, false)
    decreases |s|
  {
    if s == "" {
      assert s + rest == rest && field + s == field;
    } else {
      assert s[0] in s && forall c :: c in s[1..] ==> c in s;
      PlainRun(s[1..], rest, field + [s[0]], record);
      assert (s + rest)[1..] == s[1..] + rest;
      assert field + [s[0]] + s[1..] == field + s;
    }
  }

  lemma {:induction false} QuotedRun(s: string, rest: string, field: string, record: Record)
    requires rest == "" || rest[0] != '"'
    ensures Parse(Doubled(s, '"') + ['"'] + rest, field, record, true) == Parse(rest, field + s, record, false)
    decreases |s|
  {
    var text := Doubled(s, '"') + ['"'] + rest;
    if s == "" {
      assert text[1..] == rest && field + s == field;
    } else {
      QuotedRun(s[1..], rest, field + [s[0]], record);
      assert field + [s[0]] + s[1..] == field + s;
      var tail := Doubled(s[1..], '"') + ['"'] + rest;
      if s[0] == '"' {
        assert text[2..] == tail;
      } else {
        assert text[1..] == tail;
      }
    }
  }

  /** One printed field, in any surroundings, is read back as the cell it came from. */
  lemma FieldRun(s: string, rest: string, record: Record)
    requires rest == "" || rest[0] in ",\r\n"
    ensures Parse(FieldText(s) + rest, "", record, false) == Parse(rest, s, record, false)
  {
    assert "" + s == s;
    if NeedsQuotes(s) {
      OpeningQuote(Doubled(s, '"') + ['"'] + rest, record);
      assert FieldText(s) + rest == ['"'] + (Doubled(s, '"') + ['"'] + rest);
      QuotedRun(s, rest, "", record);
    } else {
      PlainRun(s, rest, "", record);
    }
  }

  lemma OpeningQuote(rest: string, record: Record)
    ensures Parse(['"'] + rest, "", record, false) == Parse(rest, "", record, true)
  {
    assert (['"'] + rest)[1..] == rest;
  }

  lemma LineSteps(fields: Record)
    requires |fields| > 1
    ensures Line(fields) == FieldText(fields[0]) + "," + Line(fields[1..])
  {
    assert Map(FieldText, fields)[1..] == Map(FieldText, fields[1..]);
  }

  /** A printed line is read back as one record, whether a line ending or the end of the text
      follows. */
  lemma {:induction false} LineRun(fields: Record, rest: string, record: Record)
    requires fields != []
    requires rest == "" || rest[0] in "\r\n"
    ensures Parse(Line(fields) + rest, "", record, false) ==
            Parse(rest, fields[|fields| - 1], record + fields[..|fields| - 1], false)
    decreases |fields|
  {
    if |fields| == 1 {
      FieldRun(fields[0], rest, record);
      assert record + fields[..0] == record;
    } else {
      var tail := fields[1..];
      var after := "," + (Line(tail) + rest);
      LineSteps(fields);
      assert Line(fields) + rest == FieldText(fields[0]) + after;
      FieldRun(fields[0], after, record);
      assert after[1..] == Line(tail) + rest;
      LineRun(tail, rest, record + [fields[0]]);
      assert record + [fields[0]] + tail[..|tail| - 1] == record + fields[..|fields| - 1];
    }
  }

  lemma TerminatedLine(fields: Record, rest: string)
    ensures Parse(Line(fields) + "\n" + rest, "", [], false) ==
            [if fields == [] then [""] else fields] + Parse(rest, "", [], false)
  {
    var after := "\n" + rest;
    Assoc(Line(fields), "\n", rest);
    NewlineEndsRecord(rest, if fields == [] then "" else fields[|fields| - 1],
                      if fields == [] then [] else fields[..|fields| - 1]);
    if fields == [] {
      assert Line(fields) + after == after;
      assert [] + [""] == [""];
    } else {
      var front, end := fields[..|fields| - 1], fields[|fields| - 1];
      LineRun(fields, after, []);
      assert [] + front == front && front + [end] == fields;
    }
  }

  lemma NewlineEndsRecord(rest: string, field: string, record: Record)
    ensures Parse("\n" + rest, field, record, false) == [record + [field]] + Parse(rest, "", [], false)
  {
    assert ("\n" + rest)[1..] == rest;
  }

  /** Parsing undoes printing on every list of records of at least one field. */
  lemma {:induction false} ParseUndoesLines(records: seq<Record>)
    requires forall rec :: rec in records ==> rec != []
    ensures Parse(LinesText(records), "", [], false) == records
    decreases |records|
  {
    if records != [] {
      assert records[0] in records && forall rec :: rec in records[1..] ==> rec in records;
      ParseUndoesLines(records[1..]);
      TerminatedLine(records[0], LinesText(records[1..]));
      assert [records[0]] + records[1..] == records;
    }
  }

  // ----- other line endings -----

  predicate LineEnding(end: string)
  {
    end == "\n" || end == "\r\n" || end == "\r"
  }

  /** The lines of records, each with the given ending. */
  function LinesEnding(end: string, records: seq<Record>): string
  {
    if records == [] then "" else Line(records[0]) + (end + LinesEnding(end, records[1..]))
  }

  /** Such a text does not turn a carriage return before it into half a line ending. */
  predicate NoLeadingNewline(text: string)
  {
    text == "" || text[0] != '\n'
  }

  lemma EndingEndsRecord(end: string, rest: string, field: string, record: Record)
    requires LineEnding(end) && (end == "\r" ==> NoLeadingNewline(rest))
    ensures Parse(end + rest, field, record, false) == [record + [field]] + Parse(rest, "", [], false)
  {
    var text := end + rest;
    assert text[|end|..] == rest;
  }

  lemma LineNeverStartsWithNewline(fields: Record, rest: string)
    requires NoLeadingNewline(rest)
    ensures NoLeadingNewline(Line(fields) + rest)
  {
    if |fields| > 1 {
      LineSteps(fields);
    }
    if fields != [] && fields[0] != "" && !NeedsQuotes(fields[0]) {
      assert fields[0][0] in fields[0];
    }
  }

  lemma LineThenEnding(end: string, rec: Record, more: string)
    requires LineEnding(end) && rec != [] && (end == "\r" ==> NoLeadingNewline(more))
    ensures Parse(Line(rec) + (end + more), "", [], false) == [rec] + Parse(more, "", [], false)
    ensures end == "\r" ==> NoLeadingNewline(Line(rec) + (end + more))
  {
    LineRun(rec, end + more, []);
    var front, last := rec[..|rec| - 1], rec[|rec| - 1];
    assert [] + front == front && front + [last] == rec;
    EndingEndsRecord(end, more, last, front);
    if end == "\r" {
      LineNeverStartsWithNewline(rec, end + more);
    }
  }

  lemma {:induction false} LinesThenTail(end: string, records: seq<Record>, tail: string)
    requires LineEnding(end) && NoLeadingNewline(tail)
    requires forall i :: 0 <= i < |records| ==> records[i] != []
    ensures Parse(LinesEnding(end, records) + tail, "", [], false) == records + Parse(tail, "", [], false)
    ensures end == "\r" ==> NoLeadingNewline(LinesEnding(end, records) + tail)
    decreases |records|
  {
    var parsed := Parse(tail, "", [], false);
    if records == [] {
      assert LinesEnding(end, records) + tail == tail && records + parsed == parsed;
    } else {
      var rec, later := records[0], records[1..];
      LinesThenTail(end, later, tail);
      LineThenEnding(end, rec, LinesEnding(end, later) + tail);
      EndingFirst(end, rec, LinesEnding(end, later), tail);
      Assoc([rec], later, parsed);
      assert [rec] + later == records;
    }
  }

  lemma EndingFirst(end: string, rec: Record, later: string, tail: string)
    ensures (Line(rec) + (end + later)) + tail == Line(rec) + (end + (later + tail))
  {
  }

  lemma LastLine(rec: Record)
    requires rec != []
    ensures Parse(Line(rec), "", [], false) == if rec == [""] then [] else [rec]
  {
    LineRun(rec, "", []);
    assert Line(rec) + "" == Line(rec);
    var front, end := rec[..|rec| - 1], rec[|rec| - 1];
    assert [] + front == front && front + [end] == rec;
    assert Parse("", end, front, false) == if end != "" || front != [] then [front + [end]] else [];
    assert end == "" && front == [] <==> rec == [""];
  }

  /** A file parses to its records whichever line ending it has (LF, CRLF or CR), and whether or
      not its last line is terminated: only an unterminated last record of one empty cell, which
      is no text at all, is not there. */
  lemma AnyLineEnding(end: string, records: seq<Record>, last: Record)
    requires LineEnding(end) && last != [] && forall i :: 0 <= i < |records| ==> records[i] != []
    ensures Parse(LinesEnding(end, records), "", [], false) == records
    ensures Parse(LinesEnding(end, records) + Line(last), "", [], false) ==
            records + (if last == [""] then [] else [last])
  {
    LinesThenTail(end, records, "");
    assert LinesEnding(end, records) + "" == LinesEnding(end, records) && records + [] == records;
    LineNeverStartsWithNewline(last, "");
    assert Line(last) + "" == Line(last);
    LinesThenTail(end, records, Line(last));
    LastLine(last);
  }

  lemma {:induction false} ParsedRecordsHaveFields(text: string, field: string, record: Record, inQuotes: bool)
    ensures forall rec :: rec in Parse(text, field, record, inQuotes) ==> rec != []
    decreases |text|
  {
    if text == "" {
    } else if inQuotes {
      if text[0] != '"' {
        ParsedRecordsHaveFields(text[1..], field + [text[0]], record, true);
      } else if |text| > 1 && text[1] == '"' {
        ParsedRecordsHaveFields(text[2..], field + ['"'], record, true);
      } else {
        ParsedRecordsHaveFields(text[1..], field, record, false);
      }
    } else {
      ParsedRecordsHaveFields(text[1..], field, record, true);
      ParsedRecordsHaveFields(text[1..], "", record + [field], false);
      ParsedRecordsHaveFields(text[1..], "", [], false);
      ParsedRecordsHaveFields(text[1..], field + [text[0]], record, false);
      if |text| > 1 {
        ParsedRecordsHaveFields(text[2..], "", [], false);
      }
    }
  }

  /** Any text at all (bare quotes, carriage returns, a missing last newline) is brought to
      a normal form by parsing and printing it: the normal form parses to the same records. */
  lemma PrintingNormalises(text: string)
    ensures var records := Parse(text, "", [], false);
      Parse(LinesText(records), "", [], false) == records
  {
    ParsedRecordsHaveFields(text, "", [], false);
    ParseUndoesLines(Parse(text, "", [], false));
  }

  /** The row that comes back for a row that was written: every column, as text. */
  function TextRow(header: Record, row: Row): Row
  {
    map h | h in header :: Text(CellText(Get(row, h)))
  }

  /** The rows that come back: a one-column table loses its rows with an empty cell. */
  function TextRows(header: Record, rows: Batch): Batch
  {
    if rows == [] then []
    else if |header| == 0 || RowRecord(header, rows[0]) == [""] then TextRows(header, rows[1..])
    else [TextRow(header, rows[0])] + TextRows(header, rows[1..])
  }

  lemma {:induction false} RowFromCells(header: Record, rec: Record, n: nat)
    requires Distinct(header) && n <= |header|
    ensures forall h :: h in RowFrom(header, rec, n) <==> h in header[..n]
    ensures forall i :: 0 <= i < n ==>
              header[i] in RowFrom(header, rec, n) &&
              RowFrom(header, rec, n)[header[i]] == Text(if i < |rec| then rec[i] else "")
  {
    if n > 0 {
      RowFromCells(header, rec, n - 1);
      TakeSnoc(header, n - 1);
    }
  }

  /** The row read from a record, short or long, has exactly the header's columns: each with its
      cell, or an empty one where the record has none. */
  lemma RowOfRecord(header: Record, rec: Record)
    requires Distinct(header)
    ensures forall h :: h in RowOf(header, rec) <==> h in header
    ensures forall c :: 0 <= c < |header| ==>
              header[c] in RowOf(header, rec) &&
              RowOf(header, rec)[header[c]] == if c >= |rec| then Text("") else Text(rec[c])
  {
    RowFromCells(header, rec, |header|);
    assert header[..|header|] == header;
  }

  /** A record of one empty cell is skipped whatever the header is. */
  lemma BlankLineIsSkipped(header: Record, before: seq<Record>, after: seq<Record>)
    ensures Rows(header, before + [[""]] + after) == Rows(header, before + after)
    decreases |before|
  {
    var blank: Record := [""];
    if before == [] {
      assert before + [blank] + after == [blank] + after && ([blank] + after)[1..] == after && before + after == after;
    } else {
      var more := before[1..];
      BlankLineIsSkipped(header, more, after);
      assert (before + [blank] + after)[1..] == more + [blank] + after;
      assert (before + after)[1..] == more + after;
    }
  }

  /** Which cells are printed as they are: those without quotes, commas and line ends. */
  lemma PlainCellsAreNotQuoted(s: string)
    ensures FieldText(s) == s <==> forall c :: c in s ==> c !in "\",\n\r"
  {
    if NeedsQuotes(s) {
      DoubledIsLonger(s, '"');
      assert |FieldText(s)| > |s|;
    }
  }

  lemma {:induction false} DoubledIsLonger(s: string, quote: char)
    ensures |Doubled(s, quote)| >= |s|
  {
    if s != "" {
      DoubledIsLonger(s[1..], quote);
    }
  }

  /** The text of a cell that is no text. */
  lemma OtherCells(n: nat)
    ensures CellText(Undefined) == CellText(Null) == ""
    ensures CellText(Bool(true)) == "true" && CellText(Bool(false)) == "false"
    ensures ReadDigits(CellText(Int(n)), 10, 0) == (n, "")
    ensures n > 0 ==> CellText(Int(0 - n)) == "-" + CellText(Int(n))
  {
    ReadPrinted(n, 10, "");
    assert Digits(n, 10) + "" == Digits(n, 10);
  }

  lemma RowOfIsTextRow(header: Record, row: Row)
    requires Distinct(header)
    ensures RowOf(header, RowRecord(header, row)) == TextRow(header, row)
  {
    var read := RowOf(header, RowRecord(header, row));
    RowFromCells(header, RowRecord(header, row), |header|);
    assert header[..|header|] == header;
    forall h | h in header ensures read[h] == TextRow(header, row)[h] {
      var i :| 0 <= i < |header| && header[i] == h;
      assert read[header[i]] == Text(CellText(Get(row, header[i])));
    }
  }

  lemma {:induction false} RowsAreTextRows(header: Record, rows: Batch)
    requires Distinct(header) && header != []
    ensures Rows(header, Records(header, rows)) == TextRows(header, rows)
  {
    if rows != [] {
      RowsAreTextRows(header, rows[1..]);
      assert Records(header, rows)[1..] == Records(header, rows[1..]);
      RowOfIsTextRow(header, rows[0]);
    }
  }

  lemma {:induction false} BlankLinesVanish(header: Record, n: nat)
    ensures Rows(header, seq(n, _ => [""])) == []
  {
    if n > 0 {
      BlankLinesVanish(header, n - 1);
      assert seq(n, _ => [""])[1..] == seq(n - 1, _ => [""]);
    }
  }

  lemma {:induction false} BlankText(n: nat)
    ensures LinesText(seq(n, _ => [])) == LinesText(seq(n, _ => [""]))
  {
    if n > 0 {
      BlankText(n - 1);
      assert seq(n, _ => [])[1..] == seq<Record>(n - 1, _ => []);
      assert seq(n, _ => [""])[1..] == seq<Record>(n - 1, _ => [""]);
      assert Line([]) == Line([""]);
    }
  }

  lemma NoColumnsNoRows(header: Record, rows: Batch)
    requires header == []
    ensures TextRows(header, rows) == []
  {
  }

  /** CSV round trip: whatever the rows, the cells and the batching, parsing the serialized
      text gives the rows back as text, except the blank lines of a one-column table. */
  lemma RoundTrip(order: KeyOrder, rows: Batch)
    requires ListsKeys(order)
    ensures Table(Parse(CsvText(order, rows), "", [], false)) ==
            if rows == [] then [] else TextRows(order(rows[0]), rows)
  {
    if rows != [] {
      var header := order(rows[0]);
      var records := [header] + Records(header, rows);
      if header == [] {
        var n := |rows| + 1;
        var blanks := seq<Record>(n, _ => [""]);
        assert records == seq<Record>(n, _ => []);
        BlankText(n);
        ParseUndoesLines(blanks);
        BlankLinesVanish([""], n - 1);
        assert blanks[1..] == seq<Record>(n - 1, _ => [""]);
        NoColumnsNoRows(header, rows);
      } else {
        ParseUndoesLines(records);
        RowsAreTextRows(header, rows);
        assert records[1..] == Records(header, rows);
      }
    }
  }

  /** Rows of text over one common, nonempty set of columns. */
  ghost predicate TextTable(rows: Batch)
  {
    forall row :: row in rows ==> row.Keys == rows[0].Keys && forall k :: k in row ==> row[k].Text?
  }

  lemma TextRowIsRow(header: Record, row: Row)
    requires forall k :: k in header <==> k in row
    requires forall k :: k in row ==> row[k].Text?
    ensures TextRow(header, row) == row
  {
  }

  lemma {:induction false} TextRowsKeep(header: Record, rows: Batch)
    requires forall row: Row :: row in rows ==>
               (forall k :: k in header <==> k in row) && forall k :: k in row ==> row[k].Text?
    ensures |TextRows(header, rows)| <= |rows|
    ensures TextRows(header, rows) == rows <==>
            forall row :: row in rows ==> !(|header| == 0 || RowRecord(header, row) == [""])
  {
    if rows != [] {
      assert rows[0] in rows && forall row :: row in rows <==> row == rows[0] || row in rows[1..];
      TextRowsKeep(header, rows[1..]);
      TextRowIsRow(header, rows[0]);
    }
  }

  lemma OneColumnRecord(header: Record, row: Row)
    requires |header| == 1 && forall k :: k in header <==> k in row
    requires forall k :: k in row ==> row[k].Text?
    ensures RowRecord(header, row) == [""] <==> exists k :: k in row && row[k] == Text("")
  {
    assert header[0] in row && RowRecord(header, row) == [CellText(row[header[0]])];
    assert forall k :: k in row ==> k == header[0];
  }

  /** Which rows of a text table are lost. */
  lemma LostRows(header: Record, rows: Batch)
    requires forall row: Row :: row in rows ==>
               (forall k :: k in header <==> k in row) && forall k :: k in row ==> row[k].Text?
    ensures |header| == 1 ==>
      ((forall row :: row in rows ==> RowRecord(header, row) != [""]) <==>
       (forall row, k :: row in rows && k in row ==> row[k] != Text("")))
  {
    if |header| == 1 {
      forall row | row in rows ensures RowRecord(header, row) == [""] <==> exists k :: k in row && row[k] == Text("") {
        OneColumnRecord(header, row);
      }
    }
  }

  /** The rows come back exactly iff there are two columns or more, or one and no empty cell. */
  lemma RoundTripExactly(order: KeyOrder, rows: Batch)
    requires ListsKeys(order) && rows != [] && TextTable(rows)
    ensures Table(Parse(CsvText(order, rows), "", [], false)) == rows <==>
            var keys := rows[0].Keys;
            |keys| >= 2 || (|keys| == 1 && forall row, k :: row in rows && k in row ==> row[k] != Text(""))
  {
    var header := order(rows[0]);
    RoundTrip(order, rows);
    TextRowsKeep(header, rows);
    KeyCount(header, rows[0].Keys);
    LostRows(header, rows);
    assert rows[0] in rows;
    assert |header| != 1 ==> forall row :: row in rows ==> RowRecord(header, row) != [""];
  }

  lemma {:induction false} KeyCount(header: Record, keys: set<string>)
    requires Distinct(header) && forall k :: k in header <==> k in keys
    ensures |header| == |keys|
  {
    if header != [] {
      assert forall k :: k in header <==> k == header[0] || k in header[1..];
      assert header[0] !in header[1..];
      KeyCount(header[1..], keys - {header[0]});
    } else {
      assert keys == {};
    }
  }
}
