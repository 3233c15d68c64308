/** Exporting the markdown tables of a chat answer: a line-driven extractor, the choice of
    tables, and the CSV form, which the Bridge's CSV parser reads back. */
module TableExport {
  import opened JsText
  import opened Movement
  import Csv

  datatype AnswerTable = AnswerTable(index: nat, title: string, headers: seq<string>, rows: seq<seq<string>>)

  // ----- lines -----

  /** `row.split(/(?<!\\)\|/)`: cut at the pipes that do not follow a backslash. */
  function SplitCells(text: string, afterBackslash: bool): (parts: seq<string>)
    ensures |parts| >= 1
  {
    if text == "" then [""]
    else if text[0] == '|' && !afterBackslash then [""] + SplitCells(text[1..], false)
    else
      var rest := SplitCells(text[1..], text[0] == '\\');
      [[text[0]] + rest[0]] + rest[1..]
  }

  /** `cell.replace(/\\\|/g, "|")` */
  function Unescape(cell: string): string
  {
    if cell == "" then ""
    else if "\\|" <= cell then "|" + Unescape(cell[2..])
    else [cell[0]] + Unescape(cell[1..])
  }

  /** `parseMarkdownTableRow` */
  function ParseRow(row: string): seq<string>
  {
    var parts := SplitCells(row, false);
    if |parts| < 2 then [] else Map(cell => Unescape(Trim(cell)), parts[1..|parts| - 1])
  }

  /** `isMarkdownTableSeparator` */
  predicate IsSeparator(row: string)
  {
    var t := Trim(row);
    |t| >= 3 && t[0] == '|' && t[|t| - 1] == '|' &&
    forall i :: 1 <= i < |t| - 1 ==> IsSpace(t[i]) || t[i] in "-|:"
  }

  function LeadingHashes(line: string, atMost: nat): (n: nat)
    ensures n <= |line| && n <= atMost
  {
    if atMost == 0 || line == "" || line[0] != '#' then 0 else 1 + LeadingHashes(line[1..], atMost - 1)
  }

  function UpToTerminator(text: string): (r: string)
    ensures r <= text
    ensures text != "" && text[0] !in "\n\r\U{2028}\U{2029}" ==> r != ""
  {
    if text == "" || text[0] in "\n\r\U{2028}\U{2029}" then "" else [text[0]] + UpToTerminator(text[1..])
  }

  /** `titleFromHeading`, for a title that is not empty. */
  function HeadingTitle(line: string): Option<string>
  {
    var n := LeadingHashes(line, 3);
    if n == 0 || n == |line| || !IsSpace(line[n]) || TrimStart(line[n..]) == "" then None
    else Some(Trim(UpToTerminator(TrimStart(line[n..]))))
  }

  predicate StartsWithPipe(line: string)
  {
    var t := TrimStart(line);
    t != "" && t[0] == '|'
  }

  function JoinList(parts: seq<string>): string
  {
    if parts == [] then "" else if |parts| == 1 then parts[0] else parts[0] + ", " + JoinList(parts[1..])
  }

  function HasName(): string -> bool
  {
    header => header != ""
  }

  /** `defaultTableTitle` */
  function DefaultTitle(index: nat, headers: seq<string>): string
  {
    var named := Filter(headers, HasName());
    var cols := JoinList(if |named| > 3 then named[..3] else named);
    "Table " + Digits(index + 1, 10) + (if cols == "" then "" else " (" + cols + ")")
  }

  /** What a line is, outside a table and outside a code fence. */
  datatype LineKind = Blank | Fence | Heading(title: string) | TableStart | Other

  function KindOf(line: string): LineKind
  {
    if Trim(line) == "" then Blank
    else if "```" <= line then Fence
    else if HeadingTitle(line).Some? then Heading(HeadingTitle(line).value)
    else if StartsWithPipe(line) && '|' in line[1..] then TableStart
    else Other
  }

  // ----- the extractor -----

  /** The tests that the extractor makes on a line, how it reads a row, and its default titles. */
  datatype Rules = Rules(
    kindOf: string -> LineKind, isRow: string -> bool, isSeparator: string -> bool, cells: string -> seq<string>,
    title: (nat, seq<string>) -> string)

  const MARKDOWN := Rules(KindOf, StartsWithPipe, IsSeparator, ParseRow, DefaultTitle)

  /** A line that starts a table is one of its rows. */
  ghost predicate Coherent(rules: Rules)
  {
    forall line :: rules.kindOf(line).TableStart? ==> rules.isRow(line)
  }

  /** The number of leading lines that are rows. */
  function RowCount(rules: Rules, lines: seq<string>): (n: nat)
    ensures n <= |lines|
  {
    if lines == [] || !rules.isRow(lines[0]) then 0 else 1 + RowCount(rules, lines[1..])
  }

  /** The number of lines of a fenced block, with its closing fence if it has one. */
  function FenceLength(lines: seq<string>): (n: nat)
    ensures n <= |lines|
  {
    if lines == [] then 0 else if "```" <= lines[0] then 1 else 1 + FenceLength(lines[1..])
  }

  function IsData(rules: Rules): string -> bool
  {
    line => !rules.isSeparator(line)
  }

  function OfWidth(width: nat): seq<string> -> bool
  {
    row => |row| == width
  }

  function DataLines(rules: Rules, lines: seq<string>): seq<string>
  {
    Filter(lines, IsData(rules))
  }

  /** The parsed rows that are as wide as the header. */
  function FullRows(rules: Rules, lines: seq<string>, width: nat): seq<seq<string>>
  {
    Filter(Map(rules.cells, lines), OfWidth(width))
  }

  /** The table in a block of rows, if it has a header and a line below it. */
  function TablesFrom(rules: Rules, block: seq<string>, heading: Option<string>, index: nat): (r: seq<AnswerTable>)
    ensures |r| <= 1
  {
    var data := DataLines(rules, block);
    if |data| < 2 then []
    else
      var headers := rules.cells(data[0]);
      [AnswerTable(index, if heading.Some? then heading.value else rules.title(index, headers),
                   headers, FullRows(rules, data[1..], |headers|))]
  }

  /** One turn of the extractor: the lines it passes, the last heading after it, and the table
      it finds, if it finds one. */
  function Turn(rules: Rules, lines: seq<string>, heading: Option<string>, index: nat)
    : (t: (nat, Option<string>, seq<AnswerTable>))
    requires lines != []
    ensures 1 <= t.0 <= |lines| && |t.2| <= 1
  {
    match rules.kindOf(lines[0])
    case Blank => (1, heading, [])
    case Fence => (1 + FenceLength(lines[1..]), None, [])
    case Heading(title) => (1, Some(title), [])
    case TableStart =>
      var n := 1 + RowCount(rules, lines[1..]);
      (n, None, TablesFrom(rules, lines[..n], heading, index))
    case Other => (1, None, [])
  }

  /** The tables so far and those still in `lines`, when `heading` is the last heading. */
  function Extract(rules: Rules, lines: seq<string>, heading: Option<string>, tables: seq<AnswerTable>)
    : seq<AnswerTable>
    decreases |lines|
  {
    if lines == [] then tables
    else
      var (n, next, found) := Turn(rules, lines, heading, |tables|);
      Extract(rules, lines[n..], next, tables + found)
  }

  /** All the tables of an answer. */
  function Tables(rules: Rules, answer: string): seq<AnswerTable>
  {
    Extract(rules, Split(answer, '\n'), None, [])
  }

  /** The inner loop over a table's lines, the filter of its separators, and the table if
      there is one: a header and at least one line below it. */
  method CollectTable(rules: Rules, lines: seq<string>, start: nat, heading: Option<string>, index: nat)
    returns (i: nat, found: seq<AnswerTable>)
    requires start < |lines| && rules.isRow(lines[start])
    ensures i == start + 1 + RowCount(rules, lines[start + 1..]) && start < i <= |lines|
    ensures found == TablesFrom(rules, lines[start..i], heading, index)
  {
    i := start;
    var data: seq<string> := [];
    while i < |lines| && rules.isRow(lines[i])
      invariant start <= i <= |lines|
      invariant i + RowCount(rules, lines[i..]) == start + 1 + RowCount(rules, lines[start + 1..])
      invariant data == DataLines(rules, lines[start..i])
    {
      assert lines[i..][1..] == lines[i + 1..];
      assert lines[start..i + 1] == lines[start..i] + [lines[i]];
      FilterSnoc(lines[start..i], lines[i], IsData(rules));
      if !rules.isSeparator(lines[i]) {
        data := data + [lines[i]];
      }
      i := i + 1;
    }
    found := [];
    if |data| >= 2 {
      var headers := rules.cells(data[0]);
      var rows := FullRows(rules, data[1..], |headers|);
      var title := if heading.Some? then heading.value else rules.title(index, headers);
      found := [AnswerTable(index, title, headers, rows)];
    }
  }

  /** The loop over a fenced block: the index of the line after its closing fence. */
  method SkipFence(lines: seq<string>, start: nat) returns (i: nat)
    requires start <= |lines|
    ensures i == start + FenceLength(lines[start..])
  {
    i := start;
    while i < |lines| && !("```" <= lines[i])
      invariant start <= i <= |lines| && i + FenceLength(lines[i..]) == start + FenceLength(lines[start..])
    {
      assert lines[i..][1..] == lines[i + 1..];
      i := i + 1;
    }
    if i < |lines| {
      i := i + 1;
    }
  }

  /** One turn at line `i`. */
  method TurnAt(rules: Rules, lines: seq<string>, i: nat, heading: Option<string>, index: nat)
    returns (after: nat, next: Option<string>, found: seq<AnswerTable>)
    requires Coherent(rules) && i < |lines|
    ensures i < after <= |lines| && (after - i, next, found) == Turn(rules, lines[i..], heading, index)
  {
    found := [];
    assert lines[i..][1..] == lines[i + 1..];
    match rules.kindOf(lines[i]) {
      case Blank =>
        after, next := i + 1, heading;
      case Fence =>
        after := SkipFence(lines, i + 1);
        next := None;
      case Heading(title) =>
        after, next := i + 1, Some(title);
      case TableStart =>
        after, found := CollectTable(rules, lines, i, heading, index);
        assert lines[i..][..after - i] == lines[i..after];
        next := None;
      case Other =>
        after, next := i + 1, None;
    }
  }

  lemma OneTurn(rules: Rules, lines: seq<string>, i: nat, heading: Option<string>, tables: seq<AnswerTable>,
                after: nat, next: Option<string>, found: seq<AnswerTable>)
    requires i < after <= |lines| && (after - i, next, found) == Turn(rules, lines[i..], heading, |tables|)
    ensures Extract(rules, lines[i..], heading, tables) == Extract(rules, lines[after..], next, tables + found)
  {
    assert lines[i..][after - i..] == lines[after..];
  }

  /** `extractAnswerTables`: every turn of the loop moves to a later line. */
  method ExtractAnswerTables(rules: Rules, answer: string) returns (tables: seq<AnswerTable>)
    requires Coherent(rules)
    ensures tables == Tables(rules, answer)
  {
    var lines := Split(answer, '\n');
    tables := [];
    var i := 0;
    var lastHeading: Option<string> := None;
    assert lines[0..] == lines;
    while i < |lines|
      invariant 0 <= i <= |lines|
      invariant Extract(rules, lines[i..], lastHeading, tables) == Extract(rules, lines, None, [])
      decreases |lines| - i
    {
      var after, next, found := TurnAt(rules, lines, i, lastHeading, |tables|);
      OneTurn(rules, lines, i, lastHeading, tables, after, next, found);
      tables := tables + found;
      i, lastHeading := after, next;
    }
  }

  /** The tests of the source are coherent. */
  lemma MarkdownIsCoherent()
    ensures Coherent(MARKDOWN)
  {
  }

  ghost predicate NumberedAndRectangular(tables: seq<AnswerTable>, index: nat)
  {
    forall j :: 0 <= j < |tables| ==>
      tables[j].index == index + j && forall row :: row in tables[j].rows ==> |row| == |tables[j].headers|
  }

  lemma TablesFromIsRectangular(rules: Rules, block: seq<string>, heading: Option<string>, index: nat)
    ensures NumberedAndRectangular(TablesFrom(rules, block, heading, index), index)
  {
    var data := DataLines(rules, block);
    if |data| >= 2 {
      var width := |rules.cells(data[0])|;
      FilterMembers(Map(rules.cells, data[1..]), OfWidth(width));
    }
  }

  lemma NumberedAppend(a: seq<AnswerTable>, b: seq<AnswerTable>, index: nat)
    requires NumberedAndRectangular(a, index) && NumberedAndRectangular(b, index + |a|)
    ensures NumberedAndRectangular(a + b, index)
  {
  }

  lemma TurnIsRectangular(rules: Rules, lines: seq<string>, heading: Option<string>, index: nat)
    requires lines != []
    ensures NumberedAndRectangular(Turn(rules, lines, heading, index).2, index)
  {
    if rules.kindOf(lines[0]).TableStart? {
      TablesFromIsRectangular(rules, lines[..1 + RowCount(rules, lines[1..])], heading, index);
    }
  }

  lemma {:induction false} ExtractKeepsOrder(rules: Rules, lines: seq<string>, heading: Option<string>,
                                             tables: seq<AnswerTable>)
    requires NumberedAndRectangular(tables, 0)
    ensures NumberedAndRectangular(Extract(rules, lines, heading, tables), 0)
    decreases |lines|
  {
    if lines != [] {
      var (n, next, found) := Turn(rules, lines, heading, |tables|);
      TurnIsRectangular(rules, lines, heading, |tables|);
      NumberedAppend(tables, found, 0);
      ExtractKeepsOrder(rules, lines[n..], next, tables + found);
    }
  }

  /** Tables are numbered in order from zero, and every row is as wide as its header. */
  lemma TablesAreNumberedAndRectangular(rules: Rules, answer: string)
    ensures var tables := Tables(rules, answer);
      forall j :: 0 <= j < |tables| ==>
        tables[j].index == j && forall row :: row in tables[j].rows ==> |row| == |tables[j].headers|
  {
    ExtractKeepsOrder(rules, Split(answer, '\n'), None, []);
  }

  // ----- choosing tables -----

  datatype ExportFormat = CsvFile | JsonFile

  datatype ExportError =
    | FormatNotKnown | NoIndexes | CsvNeedsExactlyOne | NoTables
    | InvalidIndex(i: int) | DuplicateIndex(i: int) | IndexNotFound(i: int)

  datatype Chosen = Chosen(tables: seq<AnswerTable>) | Refused(error: ExportError)

  /** The first index at fault is number `j`, and `error` says why. */
  ghost predicate FirstFault(count: nat, indexes: seq<int>, j: nat, error: ExportError)
  {
    && j < |indexes|
    && (forall i :: 0 <= i < j ==> 0 <= indexes[i] < count)
    && Distinct(indexes[..j])
    && match error
       case InvalidIndex(i) => i == indexes[j] < 0
       case DuplicateIndex(i) => i == indexes[j] >= 0 && i in indexes[..j]
       case IndexNotFound(i) => i == indexes[j] >= count && i !in indexes[..j]
       case _ => false
  }

  /** `all.find((t) => t.index === raw)` */
  method FindTable(all: seq<AnswerTable>, raw: nat) returns (r: Option<AnswerTable>)
    requires NumberedAndRectangular(all, 0)
    ensures r == if raw < |all| then Some(all[raw]) else None
  {
    var t := 0;
    while t < |all| && all[t].index != raw
      invariant 0 <= t <= |all| && t <= raw
    {
      t := t + 1;
    }
    r := if t < |all| then Some(all[t]) else None;
  }

  /** All the tables at the given places. */
  ghost predicate Picks(all: seq<AnswerTable>, indexes: seq<int>, tables: seq<AnswerTable>)
  {
    && Distinct(indexes) && |tables| == |indexes|
    && forall j :: 0 <= j < |indexes| ==> 0 <= indexes[j] < |all| && tables[j] == all[indexes[j]]
  }

  lemma PickOneMore(all: seq<AnswerTable>, indexes: seq<int>, tables: seq<AnswerTable>, raw: int)
    requires Picks(all, indexes, tables) && 0 <= raw < |all| && raw !in indexes
    ensures Picks(all, indexes + [raw], tables + [all[raw]])
  {
  }

  /** When the indexes before `j` are fine, whatever is wrong with `j` is the first fault. */
  lemma PicksFault(all: seq<AnswerTable>, indexes: seq<int>, j: nat, tables: seq<AnswerTable>)
    requires j < |indexes| && Picks(all, indexes[..j], tables)
    ensures indexes[j] < 0 ==> FirstFault(|all|, indexes, j, InvalidIndex(indexes[j]))
    ensures indexes[j] >= 0 && indexes[j] in indexes[..j] ==> FirstFault(|all|, indexes, j, DuplicateIndex(indexes[j]))
    ensures indexes[j] >= |all| && indexes[j] !in indexes[..j] ==>
      FirstFault(|all|, indexes, j, IndexNotFound(indexes[j]))
  {
    assert forall i :: 0 <= i < j ==> indexes[..j][i] == indexes[i];
  }

  /** The loop of `resolveTablesForExport` over the indexes. */
  method SelectTables(all: seq<AnswerTable>, indexes: seq<int>) returns (r: Chosen)
    requires NumberedAndRectangular(all, 0)
    ensures match r
      case Chosen(tables) => Picks(all, indexes, tables)
      case Refused(error) => exists j :: FirstFault(|all|, indexes, j, error)
  {
    var seen: set<int> := {};
    var selected: seq<AnswerTable> := [];
    for j := 0 to |indexes|
      invariant Picks(all, indexes[..j], selected)
      invariant forall i :: i in seen <==> i in indexes[..j]
    {
      var raw := indexes[j];
      PicksFault(all, indexes, j, selected);
      if raw < 0 {
        return Refused(InvalidIndex(raw));
      }
      if raw in seen {
        return Refused(DuplicateIndex(raw));
      }
      seen := seen + {raw};
      var table := FindTable(all, raw);
      if table.None? {
        return Refused(IndexNotFound(raw));
      }
      PickOneMore(all, indexes[..j], selected, raw);
      TakeSnoc(indexes, j);
      selected := selected + [table.value];
    }
    assert indexes[..|indexes|] == indexes;
    r := Chosen(selected);
  }

  /** `resolveTablesForExport`: all the tables asked for, in the order asked, or a named error;
      never some of them. */
  method ResolveTablesForExport(rules: Rules, answer: string, format: Option<ExportFormat>, indexes: seq<int>)
    returns (r: Chosen)
    requires Coherent(rules)
    ensures var all := Tables(rules, answer);
      match r
      case Chosen(tables) =>
        format.Some? && indexes != [] && (format.value.CsvFile? ==> |indexes| == 1) && Picks(all, indexes, tables)
      case Refused(error) =>
        if format.None? then error == FormatNotKnown
        else if indexes == [] then error == NoIndexes
        else if format.value.CsvFile? && |indexes| != 1 then error == CsvNeedsExactlyOne
        else if all == [] then error == NoTables
        else exists j :: FirstFault(|all|, indexes, j, error)
  {
    if format.None? { return Refused(FormatNotKnown); }
    if |indexes| == 0 { return Refused(NoIndexes); }
    if format.value.CsvFile? && |indexes| != 1 { return Refused(CsvNeedsExactlyOne); }
    var all := ExtractAnswerTables(rules, answer);
    if |all| == 0 { return Refused(NoTables); }
    TablesAreNumberedAndRectangular(rules, answer);
    r := SelectTables(all, indexes);
  }

  // ----- rows written as markdown are read back -----

  /** A cell with its pipes escaped. */
  function Escape(cell: string): string
  {
    if cell == "" then ""
    else if cell[0] == '|' then "\\|" + Escape(cell[1..])
    else [cell[0]] + Escape(cell[1..])
  }

  /** `cell | cell |`: the rest of a row, after its first pipe. */
  function RowBody(cells: seq<string>): string
  {
    if cells == [] then "" else " " + Escape(cells[0]) + " |" + RowBody(cells[1..])
  }

  function MarkdownRow(cells: seq<string>): string
  {
    "|" + RowBody(cells)
  }

  lemma {:induction false} UnescapeUndoesEscape(cell: string)
    ensures Unescape(Escape(cell)) == cell
  {
    if cell != "" {
      UnescapeUndoesEscape(cell[1..]);
      assert [cell[0]] + cell[1..] == cell;
      var e := Escape(cell);
      if cell[0] == '|' {
        assert e[2..] == Escape(cell[1..]);
      } else {
        assert e[1..] == Escape(cell[1..]);
        assert |e| >= 2 ==> e[1] != '|' by {
          assert cell[1..] != "" ==> Escape(cell[1..])[0] != '|';
        }
      }
    }
  }

  lemma SplitFirst(c: char, rest: string, afterBackslash: bool)
    ensures SplitCells([c] + rest, afterBackslash) ==
      if c == '|' && !afterBackslash then [""] + SplitCells(rest, false)
      else var parts := SplitCells(rest, c == '\\'); [[c] + parts[0]] + parts[1..]
  {
    assert ([c] + rest)[1..] == rest;
  }

  lemma PaddingRun(rest: string, afterBackslash: bool)
    ensures SplitCells(" |" + rest, afterBackslash) == [" "] + SplitCells(rest, false)
  {
    var tail := ['|'] + rest;
    assert " |" + rest == [' '] + tail && [' '] + "" == " ";
    SplitFirst('|', rest, false);
    assert SplitCells(tail, false) == [""] + SplitCells(rest, false);
    JoinsFirst(' ', tail, afterBackslash, "", SplitCells(rest, false));
  }

  /** A character that does not cut joins the first part. */
  lemma JoinsFirst(c: char, rest: string, afterBackslash: bool, first: string, parts: seq<string>)
    requires c != '|' || afterBackslash
    requires SplitCells(rest, c == '\\') == [first] + parts
    ensures SplitCells([c] + rest, afterBackslash) == [[c] + first] + parts
  {
    SplitFirst(c, rest, afterBackslash);
    assert ([first] + parts)[1..] == parts;
  }

  /** An escaped cell and the padding after it are never cut. */
  lemma {:induction false} CellRun(cell: string, rest: string, afterBackslash: bool)
    ensures SplitCells(Escape(cell) + (" |" + rest), afterBackslash) == [Escape(cell) + " "] + SplitCells(rest, false)
    decreases |cell|
  {
    if cell == "" {
      PaddingRun(rest, afterBackslash);
      assert Escape(cell) + (" |" + rest) == " |" + rest && Escape(cell) + " " == " ";
    } else {
      var c, escaped, parts := cell[0], Escape(cell[1..]), SplitCells(rest, false);
      var tail := escaped + (" |" + rest);
      CellRun(cell[1..], rest, c == '\\');
      JoinsFirst(c, tail, true, escaped + " ", parts);
      Assoc([c], escaped, " |" + rest);
      Assoc([c], escaped, " ");
      if c == '|' {
        JoinsFirst('\\', [c] + tail, afterBackslash, [c] + (escaped + " "), parts);
        EscapedPipe(escaped, " |" + rest);
        EscapedPipe(escaped, " ");
      } else {
        JoinsFirst(c, tail, afterBackslash, escaped + " ", parts);
      }
    }
  }

  lemma EscapedPipe(escaped: string, after: string)
    ensures ("\\|" + escaped) + after == ['\\'] + (['|'] + (escaped + after))
  {
  }

  lemma PaddedRun(cell: string, rest: string)
    ensures SplitCells(" " + Escape(cell) + " |" + rest, false) == [" " + Escape(cell) + " "] + SplitCells(rest, false)
  {
    CellRun(cell, rest, false);
    SplitFirst(' ', Escape(cell) + (" |" + rest), false);
    assert " " + Escape(cell) + " |" + rest == [' '] + (Escape(cell) + (" |" + rest));
    assert [' '] + (Escape(cell) + " ") == " " + Escape(cell) + " ";
  }

  function Padded(cells: seq<string>): seq<string>
  {
    Map(cell => " " + Escape(cell) + " ", cells)
  }

  lemma {:induction false} BodyRun(cells: seq<string>)
    ensures SplitCells(RowBody(cells), false) == Padded(cells) + [""]
  {
    if cells != [] {
      PaddedRun(cells[0], RowBody(cells[1..]));
      BodyRun(cells[1..]);
      assert Padded(cells) == [" " + Escape(cells[0]) + " "] + Padded(cells[1..]);
    }
  }

  lemma {:induction false} EscapeEnds(cell: string)
    requires cell != ""
    ensures var e := Escape(cell);
      e != "" && e[|e| - 1] == cell[|cell| - 1] && (e[0] == cell[0] || e[0] == '\\')
  {
    if |cell| > 1 {
      EscapeEnds(cell[1..]);
    } else {
      assert Escape(cell[1..]) == "";
    }
  }

  lemma TrimPadding(text: string)
    requires text == "" || (!IsSpace(text[0]) && !IsSpace(text[|text| - 1]))
    ensures Trim(" " + text + " ") == text
  {
    var padded := " " + text + " ";
    assert padded[1..] == text + " ";
    if text == "" {
      assert padded == "  " && padded[1..] == " " && padded[1..][1..] == "";
      assert TrimStart(padded[1..][1..]) == "" && TrimStart(padded[1..]) == "";
    } else {
      assert TrimStart(padded) == text + " ";
      assert (text + " ")[..|text|] == text && (text + " ")[|text|] == ' ';
      assert TrimEnd(text + " ") == TrimEnd(text) == text;
    }
  }

  lemma PaddedCell(cell: string)
    requires Trim(cell) == cell
    ensures Unescape(Trim(" " + Escape(cell) + " ")) == cell
  {
    if cell != "" {
      EscapeEnds(cell);
    }
    TrimPadding(Escape(cell));
    UnescapeUndoesEscape(cell);
  }

  lemma RowParts(cells: seq<string>)
    ensures SplitCells(MarkdownRow(cells), false) == [""] + (Padded(cells) + [""])
  {
    assert MarkdownRow(cells)[1..] == RowBody(cells);
    BodyRun(cells);
  }

  lemma PaddedCells(cells: seq<string>)
    requires forall cell :: cell in cells ==> Trim(cell) == cell
    ensures Map(cell => Unescape(Trim(cell)), Padded(cells)) == cells
  {
    var read := Map(cell => Unescape(Trim(cell)), Padded(cells));
    forall i | 0 <= i < |cells| ensures read[i] == cells[i] {
      assert cells[i] in cells;
      PaddedCell(cells[i]);
    }
  }

  lemma InnerParts(inner: seq<string>)
    ensures var parts := [""] + (inner + [""]); |parts| >= 2 && parts[1..|parts| - 1] == inner
  {
  }

  /** `parseMarkdownTableRow` reads back any row of trimmed cells written with escaped pipes. */
  lemma RowRoundTrip(cells: seq<string>)
    requires forall cell :: cell in cells ==> Trim(cell) == cell
    ensures ParseRow(MarkdownRow(cells)) == cells
  {
    RowParts(cells);
    InnerParts(Padded(cells));
    PaddedCells(cells);
  }

  // ----- CSV export -----

  /** `serializeAnswerTableCsv` */
  function ExportCsv(headers: seq<string>, rows: seq<seq<string>>): string
  {
    Join(Map(Csv.Line, [headers] + rows), '\n')
  }

  /** The last line has no newline, so a last record that is one empty cell is lost. */
  function WithoutLostRecord(records: seq<Csv.Record>): seq<Csv.Record>
  {
    if records != [] && records[|records| - 1] == [""] then records[..|records| - 1] else records
  }

  lemma {:induction false} ParseUnterminated(records: seq<Csv.Record>)
    requires records != [] && forall rec :: rec in records ==> rec != []
    ensures Csv.Parse(Join(Map(Csv.Line, records), '\n'), "", [], false) == WithoutLostRecord(records)
    decreases |records|
  {
    var lines := Map(Csv.Line, records);
    assert records[0] in records;
    if |records| == 1 {
      Csv.LastLine(records[0]);
      assert records == [records[0]];
    } else {
      var rest := records[1..];
      assert forall rec :: rec in rest ==> rec in records;
      ParseUnterminated(rest);
      assert lines[1..] == Map(Csv.Line, rest);
      Csv.TerminatedLine(records[0], Join(lines[1..], '\n'));
      LostRecordCons(records[0], rest);
      assert [records[0]] + rest == records;
    }
  }

  lemma LostRecordCons(rec: Csv.Record, rest: seq<Csv.Record>)
    requires rest != []
    ensures [rec] + WithoutLostRecord(rest) == WithoutLostRecord([rec] + rest)
  {
    assert [rec] + rest[..|rest| - 1] == ([rec] + rest)[..|rest|];
  }

  /** Parsing an exported table gives back its header record and its rows, whatever its cells
      hold, iff it has two columns or more, or one and the last record is not one empty cell. A
      header without cells, such as that of the line `|\|`, never comes back. */
  lemma ExportParsesBack(headers: seq<string>, rows: seq<seq<string>>)
    requires forall row :: row in rows ==> |row| == |headers|
    ensures Csv.Parse(ExportCsv(headers, rows), "", [], false) == [headers] + rows <==>
            headers != [] && (|headers| >= 2 || (if rows == [] then headers else rows[|rows| - 1]) != [""])
  {
    if headers == [] {
      Csv.ParsedRecordsHaveFields(ExportCsv(headers, rows), "", [], false);
      assert headers in [headers] + rows;
    } else {
      ParseUnterminated([headers] + rows);
    }
  }

  lemma {:induction false} AllRowsKept(headers: seq<string>, rows: seq<seq<string>>)
    requires |headers| >= 2 && forall row :: row in rows ==> |row| == |headers|
    ensures Csv.Rows(headers, rows) == Map(row => Csv.RowOf(headers, row), rows)
  {
    if rows != [] {
      assert rows[0] in rows && forall row :: row in rows[1..] ==> row in rows;
      AllRowsKept(headers, rows[1..]);
      assert Map(row => Csv.RowOf(headers, row), rows)[1..] == Map(row => Csv.RowOf(headers, row), rows[1..]);
    }
  }

  /** So `parseCsv` of the export, for two or more distinct headers, has one row for each row of
      the table, in order, and under each header the table's cell. */
  lemma ExportRoundTrip(headers: seq<string>, rows: seq<seq<string>>)
    requires |headers| >= 2 && Distinct(headers) && forall row :: row in rows ==> |row| == |headers|
    ensures var parsed := Csv.Table(Csv.Parse(ExportCsv(headers, rows), "", [], false));
      |parsed| == |rows| &&
      forall r, c :: 0 <= r < |rows| && 0 <= c < |headers| ==>
        headers[c] in parsed[r] && parsed[r][headers[c]] == Text(rows[r][c])
  {
    ExportParsesBack(headers, rows);
    AllRowsKept(headers, rows);
    assert ([headers] + rows)[1..] == rows;
    forall r, c | 0 <= r < |rows| && 0 <= c < |headers|
      ensures headers[c] in Csv.RowOf(headers, rows[r]) && Csv.RowOf(headers, rows[r])[headers[c]] == Text(rows[r][c])
    {
      assert rows[r] in rows;
      Csv.RowFromCells(headers, rows[r], |headers|);
    }
  }
}
