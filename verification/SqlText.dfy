/** INSERT statements as text: how identifiers, literals and placeholders are printed, and a
    reference reader for them that follows the quote-doubling rules of ISO/IEC 9075-2
    (delimited identifiers, section 5.2; character string literals, section 5.3). */
module SqlText {
  import opened JsText
  import opened Movement

  // ----- printers -----

  datatype Quoting = Brackets | DoubleQuotes

  function Open(q: Quoting): char { if q.Brackets? then '[' else '"' }

  function Close(q: Quoting): char { if q.Brackets? then ']' else '"' }

  /** `quoteMssqlIdent` and `quotePgIdent` */
  function QuoteIdent(q: Quoting, part: string): string
  {
    [Open(q)] + Doubled(part, Close(q)) + [Close(q)]
  }

  /** `quoteMssqlTable` and `quotePgTable`: each dot-separated part is quoted by itself. */
  function QuoteTable(q: Quoting, name: string): string
  {
    Join(Map(part => QuoteIdent(q, part), Split(name, '.')), '.')
  }

  /** `quoteSqlLiteral`, without its date, float, buffer and duck-typed cases. */
  function QuoteLiteral(v: Value): string
  {
    match v
    case Undefined => "NULL"
    case Null => "NULL"
    case Bool(b) => if b then "1" else "0"
    case Int(n) => IntText(n)
    case Text(s) => "N'" + Doubled(s, '\'') + "'"
  }

  function Parens(items: seq<string>): string
  {
    "(" + Join(items, ',') + ")"
  }

  function ColumnList(q: Quoting, cols: seq<string>): string
  {
    Parens(Map(col => QuoteIdent(q, col), cols))
  }

  function Cells(cols: seq<string>, row: Row): (cells: seq<Value>)
    ensures |cells| == |cols|
  {
    Map(col => Get(row, col), cols)
  }

  function LiteralTuple(cols: seq<string>, row: Row): string
  {
    Parens(Map(QuoteLiteral, Cells(cols, row)))
  }

  /** `INSERT INTO <table> (<columns>)<overriding> VALUES <tuples>` */
  function InsertText(q: Quoting, table: string, cols: seq<string>, overriding: string, tuples: string): string
  {
    "INSERT INTO " + (QuoteTable(q, table) + (" " + (ColumnList(q, cols) + (overriding + " VALUES " + tuples))))
  }

  /** The INSERT that `mssqlInsertBatches` builds for one batch. */
  function MssqlInsert(table: string, cols: seq<string>, batch: Batch): string
  {
    InsertText(Brackets, table, cols, "", Join(Map(row => LiteralTuple(cols, row), batch), ','))
  }

  /** The same, wrapped so that explicit identity values are accepted. */
  function MssqlStatement(table: string, cols: seq<string>, batch: Batch, identityInsert: bool): string
  {
    var insert := MssqlInsert(table, cols, batch);
    if !identityInsert then insert
    else
      "SET IDENTITY_INSERT " + (QuoteTable(Brackets, table) + (" ON;\n" + (insert +
      (";\nSET IDENTITY_INSERT " + (QuoteTable(Brackets, table) + " OFF;")))))
  }

  /** The number of the placeholder for row `i`, column `c`, in an insert of `k` columns. */
  function PlaceholderNumber(i: nat, c: nat, k: nat): nat
  {
    i * k + c + 1
  }

  function Placeholder(mark: char, n: nat): string
  {
    [mark] + Digits(n, 10)
  }

  function PlaceholderRow(i: nat, k: nat): (ns: seq<nat>)
    ensures |ns| == k && forall c :: 0 <= c < k ==> ns[c] == PlaceholderNumber(i, c, k)
  {
    seq(k, c requires 0 <= c < k => PlaceholderNumber(i, c, k))
  }

  function PlaceholderRows(rows: nat, k: nat): (m: seq<seq<nat>>)
    ensures |m| == rows && forall i :: 0 <= i < rows ==> m[i] == PlaceholderRow(i, k)
  {
    seq(rows, i requires 0 <= i < rows => PlaceholderRow(i, k))
  }

  function PlaceholderTuple(mark: char, ns: seq<nat>): string
  {
    Parens(Map(n => Placeholder(mark, n), ns))
  }

  /** The INSERT that `pgInsertBatches` (mark `$`) and `oracleInsertBatches` (mark `:`) build. */
  function PlaceholderInsert(mark: char, table: string, cols: seq<string>, rows: nat, overriding: bool): string
  {
    InsertText(DoubleQuotes, table, cols, if overriding then " OVERRIDING SYSTEM VALUE" else "",
      Join(Map(ns => PlaceholderTuple(mark, ns), PlaceholderRows(rows, |cols|)), ','))
  }

  /** The values bound beside it: `batch.flatMap(r => cols.map(c => r[c]))`. */
  function BoundValues(cols: seq<string>, batch: Batch): seq<Value>
  {
    Flatten(Map(row => Cells(cols, row), batch))
  }

  // ----- reference reader -----

  type Reader<!A> = string -> Option<(A, string)>

  function Expect(literal: string, text: string): Option<string>
  {
    if literal <= text then Some(text[|literal|..]) else None
  }

  /** The text up to a closing quote, where a doubled quote stands for one. */
  function ReadQuoted(close: char, text: string): Option<(string, string)>
  {
    if text == "" then None
    else if text[0] != close then
      match ReadQuoted(close, text[1..])
      case None => None
      case Some((s, rest)) => Some(([text[0]] + s, rest))
    else if |text| > 1 && text[1] == close then
      match ReadQuoted(close, text[2..])
      case None => None
      case Some((s, rest)) => Some(([close] + s, rest))
    else Some(("", text[1..]))
  }

  function ReadIdent(q: Quoting, text: string): Option<(string, string)>
  {
    if text != "" && text[0] == Open(q) then ReadQuoted(Close(q), text[1..]) else None
  }

  /** Digits, which the reader requires at least one of. */
  function ReadNumber(text: string): Option<(nat, string)>
  {
    if text != "" && IsDigit(text[0], 10) then Some(ReadDigits(text, 10, 0)) else None
  }

  function ReadLiteral(text: string): Option<(SqlValue, string)>
  {
    if "NULL" <= text then Some((SqlNull, text[4..]))
    else if "N'" <= text then
      match ReadQuoted('\'', text[2..])
      case None => None
      case Some((s, rest)) => Some((SqlText(s), rest))
    else if "-" <= text then
      match ReadNumber(text[1..])
      case None => None
      case Some((n, rest)) => var m: int := n; Some((SqlInt(-m), rest))
    else
      match ReadNumber(text)
      case None => None
      case Some((n, rest)) => Some((SqlInt(n), rest))
  }

  function ReadPlaceholder(mark: char, text: string): Option<(nat, string)>
  {
    if text != "" && text[0] == mark then ReadNumber(text[1..]) else None
  }

  /** One item or more, with `sep` between them. */
  function ReadSeparated<A>(item: Reader<A>, sep: char, text: string): Option<(seq<A>, string)>
    decreases |text|
  {
    match item(text)
    case None => None
    case Some((a, rest)) =>
      if rest == "" || rest[0] != sep then Some(([a], rest))
      else if |rest| > |text| then None
      else
        match ReadSeparated(item, sep, rest[1..])
        case None => None
        case Some((more, end)) => Some(([a] + more, end))
  }

  /** A parenthesised list, possibly empty. */
  function ReadParens<A>(item: Reader<A>, text: string): Option<(seq<A>, string)>
  {
    if "()" <= text then Some(([], text[2..]))
    else if "(" <= text then
      match ReadSeparated(item, ',', text[1..])
      case None => None
      case Some((items, rest)) => if ")" <= rest then Some((items, rest[1..])) else None
    else None
  }

  datatype Insert<A> = Insert(table: seq<string>, columns: seq<string>, rows: seq<seq<A>>)

  function ReadTable(q: Quoting, text: string): Option<(seq<string>, string)>
  {
    ReadSeparated(t => ReadIdent(q, t), '.', text)
  }

  function ReadColumns(q: Quoting, text: string): Option<(seq<string>, string)>
  {
    ReadParens(t => ReadIdent(q, t), text)
  }

  function ReadInsert<A>(q: Quoting, overriding: string, cell: Reader<A>, text: string): Option<(Insert<A>, string)>
  {
    match Expect("INSERT INTO ", text)
    case None => None
    case Some(t0) =>
      match ReadTable(q, t0)
      case None => None
      case Some((table, t1)) =>
        match Expect(" ", t1)
        case None => None
        case Some(t2) =>
          match ReadColumns(q, t2)
          case None => None
          case Some((columns, t3)) =>
            match Expect(overriding + " VALUES ", t3)
            case None => None
            case Some(t4) =>
              match ReadSeparated(t => ReadParens(cell, t), ',', t4)
              case None => None
              case Some((rows, t5)) => Some((Insert(table, columns, rows), t5))
  }

  /** The statement a SQL Server batch holds: an INSERT, alone or between its identity switches. */
  function ReadMssqlStatement(text: string, identityInsert: bool): Option<Insert<SqlValue>>
  {
    if !identityInsert then
      match ReadInsert(Brackets, "", ReadLiteral, text)
      case Some((insert, "")) => Some(insert)
      case _ => None
    else
      match Expect("SET IDENTITY_INSERT ", text)
      case None => None
      case Some(t0) =>
        match ReadTable(Brackets, t0)
        case None => None
        case Some((table, t1)) =>
          match Expect(" ON;\n", t1)
          case None => None
          case Some(t2) =>
            match ReadInsert(Brackets, "", ReadLiteral, t2)
            case None => None
            case Some((insert, t3)) =>
              match Expect(";\nSET IDENTITY_INSERT ", t3)
              case None => None
              case Some(t4) =>
                match ReadTable(Brackets, t4)
                case None => None
                case Some((again, t5)) =>
                  if t5 == " OFF;" && table == again == insert.table then Some(insert) else None
  }

  /** The matrix of values an INSERT with placeholders stands for, given what is bound to them. */
  function Bind(rows: seq<seq<nat>>, values: seq<Value>): Option<seq<seq<Value>>>
  {
    if forall row, n :: row in rows && n in row ==> 1 <= n <= |values| then
      Some(seq(|rows|, i requires 0 <= i < |rows| =>
        seq(|rows[i]|, c requires 0 <= c < |rows[i]| =>
          assert rows[i] in rows && rows[i][c] in rows[i]; values[rows[i][c] - 1])))
    else None
  }

  function ReadPlaceholderStatement(mark: char, overriding: bool, text: string, values: seq<Value>)
    : Option<Insert<Value>>
  {
    match ReadInsert(DoubleQuotes, if overriding then " OVERRIDING SYSTEM VALUE" else "",
                     t => ReadPlaceholder(mark, t), text)
    case Some((insert, "")) =>
      (match Bind(insert.rows, values)
       case None => None
       case Some(rows) => Some(Insert(insert.table, insert.columns, rows)))
    case _ => None
  }

  // ----- reading undoes printing -----

  /** Where a printed item may stop: at the end, or before one of the marks that follow items. */
  predicate Stops(rest: string)
  {
    rest == "" || rest[0] in ",.); "
  }

  /** `item` reads `a` off any text that starts with `printed`. */
  ghost predicate Reads<A(!new)>(item: Reader<A>, printed: string, a: A)
  {
    forall rest :: Stops(rest) ==> item(printed + rest) == Some((a, rest))
  }

  lemma {:induction false} QuotedReads(close: char, s: string, rest: string)
    requires rest == "" || rest[0] != close
    ensures ReadQuoted(close, Doubled(s, close) + [close] + rest) == Some((s, rest))
    decreases |s|
  {
    var text := Doubled(s, close) + [close] + rest;
    if s == "" {
      assert text[1..] == rest;
    } else {
      var tail := Doubled(s[1..], close) + [close] + rest;
      QuotedReads(close, s[1..], rest);
      assert [s[0]] + s[1..] == s;
      if s[0] == close {
        assert text[2..] == tail;
      } else {
        assert text[1..] == tail;
      }
    }
  }

  lemma IdentReads(q: Quoting, part: string)
    ensures Reads(t => ReadIdent(q, t), QuoteIdent(q, part), part)
  {
    forall rest | Stops(rest)
      ensures ReadIdent(q, QuoteIdent(q, part) + rest) == Some((part, rest))
    {
      QuotedReads(Close(q), part, rest);
      assert (QuoteIdent(q, part) + rest)[1..] == Doubled(part, Close(q)) + [Close(q)] + rest;
    }
  }

  lemma NumberReads(n: nat, rest: string)
    requires Stops(rest)
    ensures ReadNumber(Digits(n, 10) + rest) == Some((n, rest))
  {
    ReadPrinted(n, 10, rest);
    assert rest == "" || !IsDigit(rest[0], 10);
  }

  lemma NatReads(n: nat, rest: string)
    requires Stops(rest)
    ensures ReadLiteral(Digits(n, 10) + rest) == Some((SqlInt(n), rest))
  {
    var text := Digits(n, 10) + rest;
    NumberReads(n, rest);
    assert IsDigit(text[0], 10) && text[0] != 'N' && text[0] != '-';
  }

  lemma NegativeReads(n: nat, rest: string)
    requires Stops(rest)
    ensures ReadLiteral("-" + Digits(n, 10) + rest) == Some((SqlInt(0 - n), rest))
  {
    var text := "-" + Digits(n, 10) + rest;
    NumberReads(n, rest);
    assert text[0] == '-' && text[1..] == Digits(n, 10) + rest;
  }

  lemma IntReads(n: int, rest: string)
    requires Stops(rest)
    ensures ReadLiteral(IntText(n) + rest) == Some((SqlInt(n), rest))
  {
    if n < 0 {
      NegativeReads(-n, rest);
    } else {
      NatReads(n, rest);
    }
  }

  lemma StringReads(s: string, rest: string)
    requires Stops(rest)
    ensures ReadLiteral("N'" + Doubled(s, '\'') + "'" + rest) == Some((SqlText(s), rest))
  {
    var text := "N'" + Doubled(s, '\'') + "'" + rest;
    QuotedReads('\'', s, rest);
    assert text[0] == 'N' && text[1] == '\'';
    assert text[2..] == Doubled(s, '\'') + ['\''] + rest;
  }

  lemma LiteralReads(v: Value)
    ensures Reads(ReadLiteral, QuoteLiteral(v), Stored(v))
  {
    forall rest | Stops(rest)
      ensures ReadLiteral(QuoteLiteral(v) + rest) == Some((Stored(v), rest))
    {
      if v.Text? {
        StringReads(v.s, rest);
      } else if v.Undefined? || v.Null? {
        assert ("NULL" + rest)[4..] == rest;
      } else {
        var n := if v.Int? then v.n else if v.b then 1 else 0;
        IntReads(n, rest);
        assert QuoteLiteral(v) == IntText(n);
      }
    }
  }

  lemma PlaceholderReads(mark: char, n: nat)
    ensures Reads(t => ReadPlaceholder(mark, t), Placeholder(mark, n), n)
  {
    forall rest | Stops(rest)
      ensures ReadPlaceholder(mark, Placeholder(mark, n) + rest) == Some((n, rest))
    {
      NumberReads(n, rest);
      assert (Placeholder(mark, n) + rest)[1..] == Digits(n, 10) + rest;
    }
  }

  lemma {:induction false} SeparatedReads<A(!new)>(item: Reader<A>, sep: char, printed: seq<string>,
                                                  xs: seq<A>, rest: string)
    requires |printed| == |xs| > 0 && sep in ",."
    requires forall i :: 0 <= i < |xs| ==> Reads(item, printed[i], xs[i])
    requires Stops(rest) && (rest == "" || rest[0] != sep)
    ensures ReadSeparated(item, sep, Join(printed, sep) + rest) == Some((xs, rest))
    decreases |xs|
  {
    assert Reads(item, printed[0], xs[0]);
    if |xs| == 1 {
      assert item(printed[0] + rest) == Some((xs[0], rest));
      assert xs == [xs[0]];
    } else {
      var after := [sep] + (Join(printed[1..], sep) + rest);
      assert Join(printed, sep) + rest == printed[0] + after;
      assert item(printed[0] + after) == Some((xs[0], after));
      assert after[1..] == Join(printed[1..], sep) + rest;
      SeparatedReads(item, sep, printed[1..], xs[1..], rest);
      assert [xs[0]] + xs[1..] == xs;
    }
  }

  lemma ParensReads<A(!new)>(item: Reader<A>, printed: seq<string>, xs: seq<A>)
    requires |printed| == |xs|
    requires forall i :: 0 <= i < |xs| ==> Reads(item, printed[i], xs[i])
    requires forall i :: 0 <= i < |xs| ==> printed[i] != "" && printed[i][0] != ')'
    ensures Reads(t => ReadParens(item, t), Parens(printed), xs)
  {
    forall rest | Stops(rest)
      ensures ReadParens(item, Parens(printed) + rest) == Some((xs, rest))
    {
      var text := Parens(printed) + rest;
      if xs == [] {
        assert "()" <= text && text[2..] == rest;
      } else {
        assert printed[0] <= Join(printed, ',') && text[1] == printed[0][0];
        assert "(" <= text && text[1..] == Join(printed, ',') + (")" + rest);
        SeparatedReads(item, ',', printed, xs, ")" + rest);
        assert (")" + rest)[1..] == rest;
      }
    }
  }

  lemma TableReads(q: Quoting, name: string, rest: string)
    requires Stops(rest) && (rest == "" || rest[0] != '.')
    ensures ReadTable(q, QuoteTable(q, name) + rest) == Some((Split(name, '.'), rest))
  {
    var parts := Split(name, '.');
    forall i | 0 <= i < |parts| ensures Reads(t => ReadIdent(q, t), QuoteIdent(q, parts[i]), parts[i]) {
      IdentReads(q, parts[i]);
    }
    SeparatedReads(t => ReadIdent(q, t), '.', Map(part => QuoteIdent(q, part), parts), parts, rest);
  }

  lemma ColumnsRead(q: Quoting, cols: seq<string>, rest: string)
    requires Stops(rest)
    ensures ReadColumns(q, ColumnList(q, cols) + rest) == Some((cols, rest))
  {
    forall i | 0 <= i < |cols| ensures Reads(t => ReadIdent(q, t), QuoteIdent(q, cols[i]), cols[i]) {
      IdentReads(q, cols[i]);
    }
    ParensReads(t => ReadIdent(q, t), Map(col => QuoteIdent(q, col), cols), cols);
    assert Reads(t => ReadParens(u => ReadIdent(q, u), t), ColumnList(q, cols), cols);
  }

  lemma LiteralTupleReads(cols: seq<string>, row: Row)
    ensures Reads(t => ReadParens(ReadLiteral, t), LiteralTuple(cols, row), Map(Stored, Cells(cols, row)))
  {
    var cells := Cells(cols, row);
    forall i | 0 <= i < |cells| ensures Reads(ReadLiteral, QuoteLiteral(cells[i]), Stored(cells[i])) {
      LiteralReads(cells[i]);
    }
    ParensReads(ReadLiteral, Map(QuoteLiteral, cells), Map(Stored, cells));
  }

  lemma PlaceholderTupleReads(mark: char, ns: seq<nat>)
    requires mark != ')'
    ensures Reads(t => ReadParens(u => ReadPlaceholder(mark, u), t), PlaceholderTuple(mark, ns), ns)
  {
    forall i | 0 <= i < |ns| ensures Reads(t => ReadPlaceholder(mark, t), Placeholder(mark, ns[i]), ns[i]) {
      PlaceholderReads(mark, ns[i]);
    }
    ParensReads(t => ReadPlaceholder(mark, t), Map(n => Placeholder(mark, n), ns), ns);
  }

  /** The frame common to every INSERT: what is read is the name, the columns and the tuples. */
  lemma InsertReads<A(!new)>(q: Quoting, overriding: string, cell: Reader<A>, table: string, cols: seq<string>,
                            tuples: seq<string>, rows: seq<seq<A>>, rest: string)
    requires |tuples| == |rows| > 0
    requires forall i :: 0 <= i < |rows| ==> Reads(t => ReadParens(cell, t), tuples[i], rows[i])
    requires rest == "" || rest[0] == ';'
    requires overriding == "" || overriding[0] == ' '
    ensures ReadInsert(q, overriding, cell, InsertText(q, table, cols, overriding, Join(tuples, ',') + rest))
            == Some((Insert(Split(table, '.'), cols, rows), rest))
  {
    var t4 := Join(tuples, ',') + rest;
    var t3 := overriding + " VALUES " + t4;
    var t2 := ColumnList(q, cols) + t3;
    var t1 := " " + t2;
    var t0 := QuoteTable(q, table) + t1;
    ExpectReads("INSERT INTO ", t0);
    TableReads(q, table, t1);
    ExpectReads(" ", t2);
    ColumnsRead(q, cols, t3);
    ExpectReads(overriding + " VALUES ", t4);
    SeparatedReads(t => ReadParens(cell, t), ',', tuples, rows, rest);
  }

  lemma InsertTextAppend(q: Quoting, table: string, cols: seq<string>, overriding: string, tuples: string, rest: string)
    ensures InsertText(q, table, cols, overriding, tuples) + rest ==
            InsertText(q, table, cols, overriding, tuples + rest)
  {
    var t3 := overriding + " VALUES " + tuples;
    assert t3 + rest == overriding + " VALUES " + (tuples + rest);
    var t2 := ColumnList(q, cols) + t3;
    assert t2 + rest == ColumnList(q, cols) + (t3 + rest);
    var t0 := QuoteTable(q, table) + (" " + t2);
    assert t0 + rest == QuoteTable(q, table) + (" " + (t2 + rest));
    assert ("INSERT INTO " + t0) + rest == "INSERT INTO " + (t0 + rest);
  }

  lemma ExpectReads(literal: string, rest: string)
    ensures Expect(literal, literal + rest) == Some(rest)
  {
  }

  lemma MssqlInsertReads(table: string, cols: seq<string>, batch: Batch, rest: string)
    requires batch != [] && (rest == "" || rest[0] == ';')
    ensures ReadInsert(Brackets, "", ReadLiteral, MssqlInsert(table, cols, batch) + rest) ==
            Some((Insert(Split(table, '.'), cols, Map(row => Map(Stored, Cells(cols, row)), batch)), rest))
  {
    var tuples := Map(row => LiteralTuple(cols, row), batch);
    var rows := Map(row => Map(Stored, Cells(cols, row)), batch);
    forall i | 0 <= i < |rows| ensures Reads(t => ReadParens(ReadLiteral, t), tuples[i], rows[i]) {
      LiteralTupleReads(cols, batch[i]);
    }
    InsertReads(Brackets, "", ReadLiteral, table, cols, tuples, rows, rest);
    InsertTextAppend(Brackets, table, cols, "", Join(tuples, ','), rest);
  }

  lemma IdentityStatementDenotes(table: string, cols: seq<string>, batch: Batch)
    requires batch != []
    ensures ReadMssqlStatement(MssqlStatement(table, cols, batch, true), true) ==
            Some(Insert(Split(table, '.'), cols, Map(row => Map(Stored, Cells(cols, row)), batch)))
  {
    var t5 := " OFF;";
    var t4 := QuoteTable(Brackets, table) + t5;
    var t3 := ";\nSET IDENTITY_INSERT " + t4;
    var t2 := MssqlInsert(table, cols, batch) + t3;
    var t1 := " ON;\n" + t2;
    var t0 := QuoteTable(Brackets, table) + t1;
    ExpectReads("SET IDENTITY_INSERT ", t0);
    TableReads(Brackets, table, t1);
    ExpectReads(" ON;\n", t2);
    MssqlInsertReads(table, cols, batch, t3);
    ExpectReads(";\nSET IDENTITY_INSERT ", t4);
    TableReads(Brackets, table, t5);
  }

  lemma PlainStatementDenotes(table: string, cols: seq<string>, batch: Batch)
    requires batch != []
    ensures ReadMssqlStatement(MssqlStatement(table, cols, batch, false), false) ==
            Some(Insert(Split(table, '.'), cols, Map(row => Map(Stored, Cells(cols, row)), batch)))
  {
    var insert := MssqlInsert(table, cols, batch);
    assert insert + "" == insert;
    MssqlInsertReads(table, cols, batch, "");
  }

  /** The SQL Server statement for a batch denotes exactly the batch: the name split at its
      dots, the columns, and the matrix of stored values, whatever characters they hold. */
  lemma MssqlStatementDenotes(table: string, cols: seq<string>, batch: Batch, identityInsert: bool)
    requires batch != []
    ensures ReadMssqlStatement(MssqlStatement(table, cols, batch, identityInsert), identityInsert) ==
            Some(Insert(Split(table, '.'), cols, Map(row => Map(Stored, Cells(cols, row)), batch)))
  {
    if identityInsert {
      IdentityStatementDenotes(table, cols, batch);
    } else {
      PlainStatementDenotes(table, cols, batch);
    }
  }

  lemma {:induction false} DoubledPlain(s: string, quote: char)
    requires quote !in s
    ensures Doubled(s, quote) == s
  {
    if s != "" {
      DoubledPlain(s[1..], quote);
      assert s == [s[0]] + s[1..];
    }
  }

  predicate PlainName(s: string)
  {
    ']' !in s && '"' !in s && '.' !in s && '\'' !in s
  }

  lemma PlainParts(s: string)
    requires PlainName(s)
    ensures QuoteIdent(Brackets, s) == "[" + s + "]" && QuoteIdent(DoubleQuotes, s) == "\"" + s + "\""
    ensures QuoteTable(Brackets, s) == "[" + s + "]" && QuoteTable(DoubleQuotes, s) == "\"" + s + "\""
    ensures QuoteLiteral(Text(s)) == "N'" + s + "'"
  {
    DoubledPlain(s, ']');
    DoubledPlain(s, '"');
    DoubledPlain(s, '\'');
    SplitFirstPart(s, "", '.');
    assert Map(part => QuoteIdent(Brackets, part), [s]) == [QuoteIdent(Brackets, s)];
    assert Map(part => QuoteIdent(DoubleQuotes, part), [s]) == [QuoteIdent(DoubleQuotes, s)];
  }

  /** The literals of the values that are no text, and what is stored of every value. */
  lemma LiteralTexts(n: int, s: string)
    ensures QuoteLiteral(Null) == QuoteLiteral(Undefined) == "NULL"
    ensures QuoteLiteral(Bool(true)) == "1" && QuoteLiteral(Bool(false)) == "0"
    ensures Stored(Bool(true)) == SqlInt(1) && Stored(Bool(false)) == SqlInt(0)
    ensures Stored(Null) == Stored(Undefined) == SqlNull
    ensures Stored(Int(n)) == SqlInt(n) && Stored(Text(s)) == SqlText(s)
  {
  }

  lemma JoinTwo(a: string, b: string)
    ensures Join([a, b], ',') == a + "," + b && Join([a], ',') == a
  {
    assert [a, b][1..] == [b];
  }

  lemma TwoNames(q: Quoting, a: string, b: string)
    ensures ColumnList(q, [a, b]) == "(" + (QuoteIdent(q, a) + "," + QuoteIdent(q, b)) + ")"
  {
    assert Map(col => QuoteIdent(q, col), [a, b]) == [QuoteIdent(q, a), QuoteIdent(q, b)];
    JoinTwo(QuoteIdent(q, a), QuoteIdent(q, b));
  }

  lemma TupleWords(a: string, b: string, x: string)
    requires PlainName(x) && a != b
    ensures LiteralTuple([a, b], map[a := Text(x)]) == "(N'" + x + "',NULL)"
  {
    var row: Row := map[a := Text(x)];
    PlainParts(x);
    assert Cells([a, b], row) == [Text(x), Undefined];
    assert Map(QuoteLiteral, Cells([a, b], row)) == ["N'" + x + "'", "NULL"];
    JoinTwo("N'" + x + "'", "NULL");
  }

  /** The words around a statement that gives identity values. */
  lemma IdentityWords(table: string, cols: seq<string>, batch: Batch)
    requires PlainName(table)
    ensures var t, insert := "[" + table + "]", MssqlStatement(table, cols, batch, false);
      MssqlStatement(table, cols, batch, true) ==
      "SET IDENTITY_INSERT " + (t + (" ON;\n" + (insert + (";\nSET IDENTITY_INSERT " + (t + " OFF;")))))
  {
    PlainParts(table);
  }

  /** A statement for SQL Server, word for word: two columns, and a row that has one of them. */
  lemma MssqlWords(table: string, a: string, b: string, x: string)
    requires PlainName(table) && PlainName(a) && PlainName(b) && PlainName(x) && a != b
    ensures var row: Row := map[a := Text(x)];
      var t, cols := "[" + table + "]", "(" + ("[" + a + "]" + "," + ("[" + b + "]")) + ")";
      var values := "(N'" + x + "',NULL)";
      MssqlStatement(table, [a, b], [row], false) == "INSERT INTO " + (t + (" " + (cols + (" VALUES " + values))))
  {
    var row: Row := map[a := Text(x)];
    PlainParts(table);
    PlainParts(a);
    PlainParts(b);
    PlainParts(x);
    TwoNames(Brackets, a, b);
    TupleWords(a, b, x);
    assert Map(r => LiteralTuple([a, b], r), [row]) == [LiteralTuple([a, b], row)];
    JoinTwo(LiteralTuple([a, b], row), "");
    assert "" + " VALUES " == " VALUES ";
  }

  // ----- placeholders -----

  lemma Below(i: nat, c: nat, rows: nat, k: nat)
    requires i < rows && c < k
    ensures i * k + c < rows * k
  {
    assert (i + 1) * k <= rows * k;
  }

  /** Placeholder numbers and cells correspond one to one: every number from 1 to `rows * k`
      is the placeholder of one cell and of no other. */
  lemma {:induction false} CellOf(n: nat, rows: nat, k: nat) returns (i: nat, c: nat)
    requires 1 <= n <= rows * k
    ensures i < rows && c < k && PlaceholderNumber(i, c, k) == n
    ensures forall j: nat, d: nat :: d < k && PlaceholderNumber(j, d, k) == n ==> j == i && d == c
    decreases rows
  {
    if n <= k {
      i, c := 0, n - 1;
    } else {
      assert (rows - 1) * k == rows * k - k;
      i, c := CellOf(n - k, rows - 1, k);
      assert (i + 1) * k == i * k + k;
      i := i + 1;
    }
    forall j: nat, d: nat | d < k && PlaceholderNumber(j, d, k) == n
      ensures j == i && d == c
    {
      if j < i { Below(j, d, i, k); }
      if i < j { Below(i, c, j, k); }
    }
  }

  /** The value bound to the placeholder of row `i`, column `c` is that row's cell. */
  lemma {:induction false} BoundCell(cols: seq<string>, batch: Batch, i: nat, c: nat)
    requires i < |batch| && c < |cols|
    ensures |BoundValues(cols, batch)| == |batch| * |cols|
    ensures PlaceholderNumber(i, c, |cols|) <= |batch| * |cols|
    ensures BoundValues(cols, batch)[PlaceholderNumber(i, c, |cols|) - 1] == Get(batch[i], cols[c])
    decreases |batch|
  {
    var k := |cols|;
    var cells := Map(row => Cells(cols, row), batch);
    assert cells[1..] == Map(row => Cells(cols, row), batch[1..]);
    assert BoundValues(cols, batch) == Cells(cols, batch[0]) + BoundValues(cols, batch[1..]);
    Below(i, c, |batch|, k);
    BoundCount(cols, batch);
    if i > 0 {
      BoundCell(cols, batch[1..], i - 1, c);
      assert (i - 1) * k == i * k - k;
    }
  }

  lemma {:induction false} BoundCount(cols: seq<string>, batch: Batch)
    ensures |BoundValues(cols, batch)| == |batch| * |cols|
  {
    if batch != [] {
      var cells := Map(row => Cells(cols, row), batch);
      assert cells[1..] == Map(row => Cells(cols, row), batch[1..]);
      BoundCount(cols, batch[1..]);
      assert (|batch| - 1) * |cols| == |batch| * |cols| - |cols|;
    }
  }

  lemma PlaceholdersInRange(cols: seq<string>, batch: Batch)
    ensures forall row, n :: row in PlaceholderRows(|batch|, |cols|) && n in row ==>
              1 <= n <= |BoundValues(cols, batch)|
  {
    var rows := PlaceholderRows(|batch|, |cols|);
    forall row, n | row in rows && n in row ensures 1 <= n <= |BoundValues(cols, batch)| {
      var i :| 0 <= i < |rows| && row == rows[i];
      var c :| 0 <= c < |row| && n == row[c];
      BoundCell(cols, batch, i, c);
    }
  }

  lemma BindRestores(cols: seq<string>, batch: Batch)
    ensures Bind(PlaceholderRows(|batch|, |cols|), BoundValues(cols, batch)) ==
            Some(Map(row => Cells(cols, row), batch))
  {
    PlaceholdersInRange(cols, batch);
    var bound := Bind(PlaceholderRows(|batch|, |cols|), BoundValues(cols, batch)).value;
    forall i | 0 <= i < |batch| ensures bound[i] == Cells(cols, batch[i]) {
      forall c | 0 <= c < |cols| ensures bound[i][c] == Cells(cols, batch[i])[c] {
        BoundCell(cols, batch, i, c);
      }
    }
    assert bound == Map(row => Cells(cols, row), batch);
  }

  /** The statement with placeholders, read together with the values bound to it, denotes
      exactly the batch it was built from. */
  lemma PlaceholderStatementDenotes(mark: char, table: string, cols: seq<string>, batch: Batch, overriding: bool)
    requires batch != [] && mark in "$:"
    ensures ReadPlaceholderStatement(mark, overriding,
              PlaceholderInsert(mark, table, cols, |batch|, overriding), BoundValues(cols, batch)) ==
            Some(Insert(Split(table, '.'), cols, Map(row => Cells(cols, row), batch)))
  {
    var clause := if overriding then " OVERRIDING SYSTEM VALUE" else "";
    var rows := PlaceholderRows(|batch|, |cols|);
    var tuples := Map(ns => PlaceholderTuple(mark, ns), rows);
    var cell := t => ReadPlaceholder(mark, t);
    forall i | 0 <= i < |rows| ensures Reads(t => ReadParens(cell, t), tuples[i], rows[i]) {
      PlaceholderTupleReads(mark, rows[i]);
    }
    InsertReads(DoubleQuotes, clause, cell, table, cols, tuples, rows, "");
    assert Join(tuples, ',') + "" == Join(tuples, ',');
    BindRestores(cols, batch);
  }

  /** The first placeholders of both dialects. */
  lemma FirstPlaceholders(mark: char)
    ensures Placeholder(mark, 1) == [mark] + "1" && Placeholder(mark, 9) == [mark] + "9"
  {
  }

  lemma PairTuple(mark: char, ns: seq<nat>)
    requires |ns| == 2
    ensures PlaceholderTuple(mark, ns) == "(" + (Placeholder(mark, ns[0]) + "," + Placeholder(mark, ns[1])) + ")"
  {
    assert Map(n => Placeholder(mark, n), ns) == [Placeholder(mark, ns[0]), Placeholder(mark, ns[1])];
    JoinTwo(Placeholder(mark, ns[0]), Placeholder(mark, ns[1]));
  }

  lemma TwoTuples(mark: char, rows: seq<seq<nat>>)
    requires |rows| == 2
    ensures Join(Map(ns => PlaceholderTuple(mark, ns), rows), ',') ==
            PlaceholderTuple(mark, rows[0]) + "," + PlaceholderTuple(mark, rows[1])
  {
    var tuples := Map(ns => PlaceholderTuple(mark, ns), rows);
    assert tuples == [PlaceholderTuple(mark, rows[0]), PlaceholderTuple(mark, rows[1])];
    JoinTwo(tuples[0], tuples[1]);
  }

  /** The tuples of an INSERT of two columns and two rows: its placeholders are numbered row by
      row, from one to four. */
  lemma PlaceholderWords(mark: char, rows: seq<seq<nat>>, n: nat)
    requires n == 2 && rows == PlaceholderRows(n, n)
    ensures |rows| == 2 && |rows[0]| == |rows[1]| == 2
    ensures rows[0][0] == 1 && rows[0][1] == 2 && rows[1][0] == 3 && rows[1][1] == 4
    ensures Join(Map(ns => PlaceholderTuple(mark, ns), rows), ',') ==
            "(" + (Placeholder(mark, rows[0][0]) + "," + Placeholder(mark, rows[0][1])) + ")" + "," +
            ("(" + (Placeholder(mark, rows[1][0]) + "," + Placeholder(mark, rows[1][1])) + ")")
  {
    assert rows[0] == PlaceholderRow(0, n) && rows[1] == PlaceholderRow(1, n);
    PairTuple(mark, rows[0]);
    PairTuple(mark, rows[1]);
    TwoTuples(mark, rows);
  }

  /** The words around them. */
  lemma PlaceholderInsertWords(mark: char, table: string, a: string, b: string, rows: nat, tuples: string)
    requires PlainName(table) && PlainName(a) && PlainName(b)
    requires tuples == Join(Map(ns => PlaceholderTuple(mark, ns), PlaceholderRows(rows, 2)), ',')
    ensures var t, cols := "\"" + table + "\"", "(" + ("\"" + a + "\"" + "," + ("\"" + b + "\"")) + ")";
      PlaceholderInsert(mark, table, [a, b], rows, false) ==
      "INSERT INTO " + (t + (" " + (cols + (" VALUES " + tuples)))) &&
      PlaceholderInsert(mark, table, [a, b], rows, true) ==
      "INSERT INTO " + (t + (" " + (cols + (" OVERRIDING SYSTEM VALUE" + " VALUES " + tuples))))
  {
    PlainParts(table);
    PlainParts(a);
    PlainParts(b);
    TwoNames(DoubleQuotes, a, b);
    assert "" + " VALUES " == " VALUES ";
  }
}
