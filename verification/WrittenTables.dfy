/** Tables that an answer holds as markdown are extracted whole, and survive their CSV export. */
module WrittenTables {
  import opened JsText
  import opened Movement
  import opened TableExport
  import Csv

  /** A table as an answer writes it. */
  datatype Content = Content(headers: seq<string>, rows: seq<seq<string>>)

  predicate Writable(cells: seq<string>)
  {
    forall cell :: cell in cells ==> Trim(cell) == cell && '\n' !in cell
  }

  predicate WellFormed(c: Content)
  {
    c.headers != [] && Writable(c.headers) &&
    forall i :: 0 <= i < |c.rows| ==> |c.rows[i]| == |c.headers| && Writable(c.rows[i])
  }

  /** Which tables survive: those with a row below the header, and neither it nor any row like
      a rule. */
  predicate ReadBack(c: Content)
  {
    !RuleLike(c.headers) && c.rows != [] && NoneRuleLike(c.rows)
  }

  predicate RuleChar(c: char)
  {
    IsSpace(c) || c in "-:"
  }

  /** Such a row, once written, is taken for the rule below a header. */
  predicate RuleLike(cells: seq<string>)
  {
    forall cell :: cell in cells ==> forall c :: c in cell ==> RuleChar(c)
  }

  /** The lines of a table, `rule` being the one below its header. */
  function TableLines(rule: string, c: Content): seq<string>
  {
    [MarkdownRow(c.headers), rule] + Map(MarkdownRow, c.rows)
  }

  /** The lines of an answer with some tables, a blank line after each. */
  function AnswerLines(rule: string, cs: seq<Content>): seq<string>
  {
    if cs == [] then [""] else TableLines(rule, cs[0]) + ([""] + AnswerLines(rule, cs[1..]))
  }

  /** What a table is read as when `heading` is the last heading before it. */
  function Titled(rules: Rules, heading: Option<string>, index: nat, c: Content): AnswerTable
  {
    AnswerTable(index, if heading.Some? then heading.value else rules.title(index, c.headers), c.headers, c.rows)
  }

  function Extracted(rules: Rules, index: nat, c: Content): AnswerTable
  {
    Titled(rules, None, index, c)
  }

  /** Nothing but the characters of a rule. */
  predicate OnlyRule(text: string)
  {
    forall c :: c in text ==> RuleChar(c) || c == '|'
  }

  lemma OnlyRuleAppend(a: string, b: string)
    ensures OnlyRule(a + b) <==> OnlyRule(a) && OnlyRule(b)
  {
    assert forall c :: c in a + b <==> c in a || c in b;
  }

  lemma {:induction false} EscapeRuleLike(cell: string)
    ensures OnlyRule(Escape(cell)) <==> RuleLike([cell])
    ensures '\n' !in cell ==> '\n' !in Escape(cell)
  {
    assert cell in [cell];
    if cell != "" {
      var more := cell[1..];
      EscapeRuleLike(more);
      assert more in [more] && cell == [cell[0]] + more;
      OnlyRuleAppend(if cell[0] == '|' then "\\|" else [cell[0]], Escape(more));
      assert !RuleChar('\\') && !RuleChar('|') && '\\' in "\\|";
      assert RuleLike([cell]) <==> RuleChar(cell[0]) && RuleLike([more]);
    }
  }

  lemma {:induction false} BodyRuleLike(cells: seq<string>)
    ensures OnlyRule(RowBody(cells)) <==> RuleLike(cells)
    ensures Writable(cells) ==> '\n' !in RowBody(cells)
    ensures cells != [] ==> |RowBody(cells)| >= 2 && RowBody(cells)[|RowBody(cells)| - 1] == '|'
  {
    if cells != [] {
      var first, more := Escape(cells[0]), cells[1..];
      EscapeRuleLike(cells[0]);
      BodyRuleLike(more);
      OnlyRuleAppend(" " + first + " |", RowBody(more));
      OnlyRuleAppend(" " + first, " |");
      OnlyRuleAppend(" ", first);
      assert cells == [cells[0]] + more;
      assert cells[0] in cells && forall cell :: cell in more ==> cell in cells;
      assert RuleLike(cells) <==> RuleLike([cells[0]]) && RuleLike(more);
    }
  }

  lemma BetweenPipes(row: string)
    requires |row| >= 3 && row[0] == '|' && row[|row| - 1] == '|'
    ensures IsSeparator(row) <==> OnlyRule(row[1..])
  {
    var body := row[1..];
    assert Trim(row) == row;
    if IsSeparator(row) {
      forall c | c in body ensures RuleChar(c) || c == '|' {
        var i :| 0 <= i < |body| && body[i] == c;
        assert row[i + 1] == c;
      }
    }
    if OnlyRule(body) {
      forall i | 1 <= i < |row| - 1 ensures RuleChar(row[i]) || row[i] == '|' {
        assert row[i] == body[i - 1];
      }
    }
  }

  /** A written row is taken for a rule iff its cells hold nothing but white space, dashes and
      colons. */
  lemma RowIsRuleIff(cells: seq<string>)
    requires cells != []
    ensures IsSeparator(MarkdownRow(cells)) <==> RuleLike(cells)
  {
    BodyRuleLike(cells);
    assert MarkdownRow(cells)[1..] == RowBody(cells);
    BetweenPipes(MarkdownRow(cells));
  }

  lemma PipesAloneAreNoRule()
    ensures !IsSeparator("||") && IsSeparator("|-|")
  {
    assert Trim("||") == "||" && Trim("|-|") == "|-|";
  }

  lemma WrittenRowStartsTable(cells: seq<string>)
    requires cells != []
    ensures StartsWithPipe(MarkdownRow(cells)) && KindOf(MarkdownRow(cells)).TableStart?
  {
    var row := MarkdownRow(cells);
    BodyRuleLike(cells);
    assert row[0] == '|' && row[1..] == RowBody(cells);
    assert TrimStart(row) == row && row[|row| - 1] == '|';
  }

  lemma {:induction false} RowsThenRest(rules: Rules, lines: seq<string>, rest: seq<string>)
    requires forall i :: 0 <= i < |lines| ==> rules.isRow(lines[i])
    requires rest == [] || !rules.isRow(rest[0])
    ensures RowCount(rules, lines + rest) == |lines|
  {
    if lines == [] {
      assert lines + rest == rest;
    } else {
      RowsThenRest(rules, lines[1..], rest);
      assert (lines + rest)[1..] == lines[1..] + rest;
    }
  }

  lemma FilterFirst<T>(x: T, xs: seq<T>, keep: T -> bool)
    ensures Filter([x] + xs, keep) == (if keep(x) then [x] else []) + Filter(xs, keep)
  {
    assert ([x] + xs)[1..] == xs;
  }

  lemma DataBelowHead(rules: Rules, head: string, rule: string, lines: seq<string>)
    requires rules.isSeparator(rule)
    ensures DataLines(rules, [head, rule] + lines) ==
            (if rules.isSeparator(head) then [] else [head]) + DataLines(rules, lines)
  {
    FilterFirst(rule, lines, IsData(rules));
    FilterFirst(head, [rule] + lines, IsData(rules));
    assert [head, rule] + lines == [head] + ([rule] + lines);
    assert [] + DataLines(rules, lines) == DataLines(rules, lines);
  }

  /** The table made of data lines, the first one being the header. */
  function TableOf(rules: Rules, data: seq<string>, heading: Option<string>, index: nat): seq<AnswerTable>
  {
    if |data| < 2 then []
    else
      var headers := rules.cells(data[0]);
      var title := if heading.Some? then heading.value else rules.title(index, headers);
      [AnswerTable(index, title, headers, FullRows(rules, data[1..], |headers|))]
  }

  /** The turn that reads a table: all its lines are passed, and the rule lines dropped, the
      first line too if it is like a rule. */
  lemma TurnOnTable(rules: Rules, head: string, rule: string, lines: seq<string>, rest: seq<string>,
                    heading: Option<string>, index: nat)
    requires rules.kindOf(head).TableStart? && rules.isRow(rule) && rules.isSeparator(rule)
    requires forall i :: 0 <= i < |lines| ==> rules.isRow(lines[i])
    requires rest == [] || !rules.isRow(rest[0])
    ensures var data := (if rules.isSeparator(head) then [] else [head]) + DataLines(rules, lines);
      Turn(rules, [head, rule] + lines + rest, heading, index) ==
      (2 + |lines|, None, TableOf(rules, data, heading, index))
  {
    var all, block := [head, rule] + lines + rest, [head, rule] + lines;
    assert all[1..] == ([rule] + lines) + rest;
    RowsThenRest(rules, [rule] + lines, rest);
    assert all[..2 + |lines|] == block;
    DataBelowHead(rules, head, rule, lines);
  }

  predicate NoneRuleLike(rows: seq<seq<string>>)
  {
    forall i :: 0 <= i < |rows| ==> !RuleLike(rows[i])
  }

  /** The line is a row that reads back as `row`, and taken for a rule if that is like one. */
  ghost predicate KnowsLine(rules: Rules, line: string, row: seq<string>)
  {
    rules.isRow(line) && rules.cells(line) == row && (rules.isSeparator(line) <==> RuleLike(row))
  }

  ghost predicate KnowsLines(rules: Rules, lines: seq<string>, rows: seq<seq<string>>)
  {
    |lines| == |rows| && forall i :: 0 <= i < |rows| ==> KnowsLine(rules, lines[i], rows[i])
  }

  /** The rows that the extractor keeps are all iff none is like a rule. */
  lemma RowsKeptIff(rules: Rules, lines: seq<string>, rows: seq<seq<string>>, width: nat)
    requires KnowsLines(rules, lines, rows) && forall i :: 0 <= i < |rows| ==> |rows[i]| == width
    ensures var data := DataLines(rules, lines);
      (FullRows(rules, data, width) == rows <==> NoneRuleLike(rows)) && (NoneRuleLike(rows) ==> |data| == |rows|)
  {
    var data := DataLines(rules, lines);
    FilterKeepsAll(lines, IsData(rules));
    FilterKeepsAll(Map(rules.cells, data), OfWidth(width));
    if NoneRuleLike(rows) {
      assert data == lines;
      assert Map(rules.cells, data) == rows;
    } else {
      var i :| 0 <= i < |rows| && RuleLike(rows[i]);
      assert !IsData(rules)(lines[i]);
    }
  }

  ghost predicate KnowsHead(rules: Rules, c: Content)
  {
    var head := MarkdownRow(c.headers);
    rules.kindOf(head).TableStart? && KnowsLine(rules, head, c.headers)
  }

  /** The tests, made on the lines of a written table, tell what they are. */
  ghost predicate Understands(rules: Rules, rule: string, c: Content)
  {
    && KnowsHead(rules, c) && rules.isRow(rule) && rules.isSeparator(rule)
    && KnowsLines(rules, Map(MarkdownRow, c.rows), c.rows)
    && forall i :: 0 <= i < |c.rows| ==> |c.rows[i]| == |c.headers|
  }

  ghost predicate KnowsBlanks(rules: Rules)
  {
    rules.kindOf("").Blank? && !rules.isRow("")
  }

  lemma MarkdownKnowsBlanks()
    ensures KnowsBlanks(MARKDOWN)
  {
  }

  lemma LineIsKnown(line: string, row: seq<string>)
    requires StartsWithPipe(line) && ParseRow(line) == row && (IsSeparator(line) <==> RuleLike(row))
    ensures KnowsLine(MARKDOWN, line, row)
  {
  }

  lemma MarkdownKnowsLine(row: seq<string>)
    requires row != [] && Writable(row)
    ensures KnowsLine(MARKDOWN, MarkdownRow(row), row)
  {
    WrittenRowStartsTable(row);
    RowRoundTrip(row);
    RowIsRuleIff(row);
    LineIsKnown(MarkdownRow(row), row);
  }

  lemma MarkdownKnowsHead(c: Content)
    requires WellFormed(c)
    ensures KnowsHead(MARKDOWN, c)
  {
    WrittenRowStartsTable(c.headers);
    MarkdownKnowsLine(c.headers);
  }

  lemma MarkdownKnowsLines(c: Content)
    requires WellFormed(c)
    ensures KnowsLines(MARKDOWN, Map(MarkdownRow, c.rows), c.rows)
  {
    forall i | 0 <= i < |c.rows| ensures KnowsLine(MARKDOWN, MarkdownRow(c.rows[i]), c.rows[i]) {
      MarkdownKnowsLine(c.rows[i]);
    }
  }

  lemma RuleIsRow(rule: string)
    requires IsSeparator(rule)
    ensures StartsWithPipe(rule)
  {
  }

  lemma MarkdownUnderstands(rule: string, c: Content)
    requires IsSeparator(rule) && WellFormed(c)
    ensures Understands(MARKDOWN, rule, c)
  {
    MarkdownKnowsHead(c);
    MarkdownKnowsLines(c);
    RuleIsRow(rule);
  }

  /** A table below a header that is like a rule is not the one that was written: its header is
      one of the rows. */
  lemma OtherHeader(rules: Rules, c: Content, lines: seq<string>, heading: Option<string>, index: nat)
    requires KnowsLines(rules, lines, c.rows) && RuleLike(c.headers)
    ensures TableOf(rules, DataLines(rules, lines), heading, index) != [Titled(rules, heading, index, c)]
  {
    var data := DataLines(rules, lines);
    FilterMembers(lines, IsData(rules));
    if |data| >= 2 {
      assert data[0] in data;
      var i :| 0 <= i < |lines| && lines[i] == data[0];
      assert KnowsLine(rules, lines[i], c.rows[i]);
      assert rules.cells(data[0]) != c.headers;
    }
  }

  lemma OwnHeader(rules: Rules, c: Content, head: string, lines: seq<string>, heading: Option<string>, index: nat)
    requires KnowsLines(rules, lines, c.rows) && rules.cells(head) == c.headers
    requires forall i :: 0 <= i < |c.rows| ==> |c.rows[i]| == |c.headers|
    ensures TableOf(rules, [head] + DataLines(rules, lines), heading, index) == [Titled(rules, heading, index, c)] <==>
            c.rows != [] && NoneRuleLike(c.rows)
  {
    var data := DataLines(rules, lines);
    RowsKeptIff(rules, lines, c.rows, |c.headers|);
    assert ([head] + data)[1..] == data;
    if c.rows == [] {
      assert data == [];
    }
  }

  /** What the turn at a written table finds. */
  lemma TurnOnWritten(rules: Rules, rule: string, c: Content, rest: seq<string>, heading: Option<string>, index: nat)
    requires KnowsBlanks(rules) && Understands(rules, rule, c) && (rest == [] || rest[0] == "")
    ensures var turn := Turn(rules, TableLines(rule, c) + rest, heading, index);
      turn.0 == |TableLines(rule, c)| && turn.1 == None &&
      (turn.2 == [Titled(rules, heading, index, c)] <==> ReadBack(c))
  {
    var head, lines := MarkdownRow(c.headers), Map(MarkdownRow, c.rows);
    TurnOnTable(rules, head, rule, lines, rest, heading, index);
    if RuleLike(c.headers) {
      assert [] + DataLines(rules, lines) == DataLines(rules, lines);
      OtherHeader(rules, c, lines, heading, index);
    } else {
      OwnHeader(rules, c, head, lines, heading, index);
    }
  }

  lemma BlankTurn(rules: Rules, rest: seq<string>, heading: Option<string>, tables: seq<AnswerTable>)
    requires KnowsBlanks(rules)
    ensures Extract(rules, [""] + rest, heading, tables) == Extract(rules, rest, heading, tables)
  {
    assert ([""] + rest)[1..] == rest && tables + [] == tables;
  }

  lemma TableThenBlank(rules: Rules, rule: string, c: Content, later: seq<string>, tables: seq<AnswerTable>)
    requires KnowsBlanks(rules) && Understands(rules, rule, c) && ReadBack(c)
    ensures Extract(rules, TableLines(rule, c) + ([""] + later), None, tables) ==
            Extract(rules, later, None, tables + [Extracted(rules, |tables|, c)])
  {
    var lines, rest := TableLines(rule, c), [""] + later;
    TurnOnWritten(rules, rule, c, rest, None, |tables|);
    assert (lines + rest)[|lines|..] == rest;
    BlankTurn(rules, later, None, tables + [Extracted(rules, |tables|, c)]);
  }

  /** What an answer's tables are read as. */
  function ExtractedAll(rules: Rules, index: nat, cs: seq<Content>): (tables: seq<AnswerTable>)
    ensures |tables| == |cs| && forall i :: 0 <= i < |cs| ==> tables[i] == Extracted(rules, index + i, cs[i])
  {
    seq(|cs|, i requires 0 <= i < |cs| => Extracted(rules, index + i, cs[i]))
  }

  lemma ExtractedFirst(rules: Rules, index: nat, cs: seq<Content>)
    requires cs != []
    ensures ExtractedAll(rules, index, cs) == [Extracted(rules, index, cs[0])] + ExtractedAll(rules, index + 1, cs[1..])
  {
  }

  lemma {:induction false} WrittenTablesRun(rules: Rules, rule: string, cs: seq<Content>, tables: seq<AnswerTable>)
    requires KnowsBlanks(rules)
    requires forall i :: 0 <= i < |cs| ==> Understands(rules, rule, cs[i]) && ReadBack(cs[i])
    ensures Extract(rules, AnswerLines(rule, cs), None, tables) == tables + ExtractedAll(rules, |tables|, cs)
    decreases |cs|
  {
    if cs == [] {
      assert [""] == [""] + [];
      BlankTurn(rules, [], None, tables);
    } else {
      var found := [Extracted(rules, |tables|, cs[0])];
      TableThenBlank(rules, rule, cs[0], AnswerLines(rule, cs[1..]), tables);
      WrittenTablesRun(rules, rule, cs[1..], tables + found);
      ExtractedFirst(rules, |tables|, cs);
      Assoc(tables, found, ExtractedAll(rules, |tables| + 1, cs[1..]));
    }
  }

  predicate OneLine(line: string)
  {
    '\n' !in line
  }

  lemma TableHasNoNewline(rule: string, c: Content)
    requires OneLine(rule) && WellFormed(c)
    ensures forall i :: 0 <= i < |TableLines(rule, c)| ==> OneLine(TableLines(rule, c)[i])
  {
    BodyRuleLike(c.headers);
    forall i | 0 <= i < |c.rows| ensures OneLine(MarkdownRow(c.rows[i])) {
      BodyRuleLike(c.rows[i]);
    }
  }

  lemma {:induction false} AnswerHasNoNewline(rule: string, cs: seq<Content>)
    requires OneLine(rule) && forall i :: 0 <= i < |cs| ==> WellFormed(cs[i])
    ensures AnswerLines(rule, cs) != []
    ensures forall i :: 0 <= i < |AnswerLines(rule, cs)| ==> OneLine(AnswerLines(rule, cs)[i])
  {
    if cs != [] {
      TableHasNoNewline(rule, cs[0]);
      AnswerHasNoNewline(rule, cs[1..]);
      assert OneLine("");
    }
  }

  lemma TablesOfLines(rules: Rules, lines: seq<string>)
    requires lines != [] && forall i :: 0 <= i < |lines| ==> OneLine(lines[i])
    ensures Tables(rules, Join(lines, '\n')) == Extract(rules, lines, None, [])
  {
    SplitJoin(lines, '\n');
  }

  /** Extraction is complete: an answer in which tables were written, however many, yields
      exactly those tables, in order, with their headers and all cells. */
  lemma WrittenTablesAreExtracted(rule: string, cs: seq<Content>)
    requires IsSeparator(rule) && OneLine(rule)
    requires forall i :: 0 <= i < |cs| ==> WellFormed(cs[i]) && ReadBack(cs[i])
    ensures Tables(MARKDOWN, Join(AnswerLines(rule, cs), '\n')) == ExtractedAll(MARKDOWN, 0, cs)
  {
    AnswerHasNoNewline(rule, cs);
    TablesOfLines(MARKDOWN, AnswerLines(rule, cs));
    MarkdownKnowsBlanks();
    forall i | 0 <= i < |cs| ensures Understands(MARKDOWN, rule, cs[i]) {
      MarkdownUnderstands(rule, cs[i]);
    }
    WrittenTablesRun(MARKDOWN, rule, cs, []);
    assert [] + ExtractedAll(MARKDOWN, 0, cs) == ExtractedAll(MARKDOWN, 0, cs);
  }

  lemma SingleTable(rules: Rules, rule: string, c: Content, heading: Option<string>)
    requires KnowsBlanks(rules) && Understands(rules, rule, c)
    ensures Extract(rules, TableLines(rule, c), heading, []) == [Titled(rules, heading, 0, c)] <==> ReadBack(c)
  {
    var lines := TableLines(rule, c);
    TurnOnWritten(rules, rule, c, [], heading, 0);
    assert lines + [] == lines && lines[|lines|..] == [];
    var found := Turn(rules, lines, heading, 0).2;
    assert [] + found == found;
  }

  lemma TablesOfTable(rules: Rules, rule: string, c: Content)
    requires OneLine(rule) && WellFormed(c)
    ensures Tables(rules, Join(TableLines(rule, c), '\n')) == Extract(rules, TableLines(rule, c), None, [])
  {
    TableHasNoNewline(rule, c);
    TablesOfLines(rules, TableLines(rule, c));
  }

  lemma OneTableIff(rules: Rules, rule: string, c: Content)
    requires KnowsBlanks(rules) && Understands(rules, rule, c) && OneLine(rule) && WellFormed(c)
    ensures Tables(rules, Join(TableLines(rule, c), '\n')) == [Extracted(rules, 0, c)] <==> ReadBack(c)
  {
    TablesOfTable(rules, rule, c);
    SingleTable(rules, rule, c, None);
  }

  /** And a table is read back iff it has a row below its header and neither the header nor any
      row is like a rule. */
  lemma WrittenTableExtractedIff(rule: string, c: Content)
    requires IsSeparator(rule) && OneLine(rule) && WellFormed(c)
    ensures Tables(MARKDOWN, Join(TableLines(rule, c), '\n')) == [Extracted(MARKDOWN, 0, c)] <==>
            !RuleLike(c.headers) && c.rows != [] && NoneRuleLike(c.rows)
  {
    MarkdownKnowsBlanks();
    MarkdownUnderstands(rule, c);
    OneTableIff(MARKDOWN, rule, c);
  }

  lemma PromotedTurn(rules: Rules, rule: string, c: Content)
    requires Understands(rules, rule, c) && RuleLike(c.headers) && |c.rows| >= 2 && NoneRuleLike(c.rows)
    ensures Extract(rules, TableLines(rule, c), None, []) == [Extracted(rules, 0, Content(c.rows[0], c.rows[1..]))]
  {
    var lines := Map(MarkdownRow, c.rows);
    TurnOnTable(rules, MarkdownRow(c.headers), rule, lines, [], None, 0);
    assert TableLines(rule, c) + [] == TableLines(rule, c);
    FilterKeepsAll(lines, IsData(rules));
    assert [] + lines == lines && DataLines(rules, lines) == lines;
    RowsKeptIff(rules, lines[1..], c.rows[1..], |c.headers|);
    FilterKeepsAll(lines[1..], IsData(rules));
    assert TableLines(rule, c)[2 + |lines|..] == [];
    var found := TableOf(rules, lines, None, 0);
    assert [] + found == found;
  }

  /** A header that is like a rule, such as one of empty cells, is dropped with the rule, and the
      first row is promoted in its place. */
  lemma FirstRowIsPromoted(rule: string, c: Content)
    requires IsSeparator(rule) && OneLine(rule) && WellFormed(c)
    requires RuleLike(c.headers) && |c.rows| >= 2 && NoneRuleLike(c.rows)
    ensures Tables(MARKDOWN, Join(TableLines(rule, c), '\n')) ==
            [Extracted(MARKDOWN, 0, Content(c.rows[0], c.rows[1..]))]
  {
    TablesOfTable(MARKDOWN, rule, c);
    MarkdownUnderstands(rule, c);
    PromotedTurn(MARKDOWN, rule, c);
  }

  /** A letter or nothing, as a cell. */
  predicate Plain(cell: string)
  {
    cell == "" || (|cell| == 1 && 'a' <= cell[0] <= 'z')
  }

  lemma PlainIsTrimmed(cell: string)
    requires Plain(cell)
    ensures Trim(cell) == cell && '\n' !in cell
  {
  }

  lemma PlainPair(a: string, b: string)
    requires Plain(a) && Plain(b)
    ensures Writable([a, b])
    ensures RuleLike([a, b]) <==> a == "" && b == ""
  {
    PlainIsTrimmed(a);
    PlainIsTrimmed(b);
    assert a in [a, b] && b in [a, b];
    assert a != "" ==> a[0] in a;
    assert b != "" ==> b[0] in b;
  }

  const EMPTY_HEADERS := Content(["", ""], [["a", "b"], ["c", "d"]])

  lemma EmptyHeadersAreRuleLike()
    ensures WellFormed(EMPTY_HEADERS) && RuleLike(EMPTY_HEADERS.headers) && NoneRuleLike(EMPTY_HEADERS.rows)
  {
    PlainPair("", "");
    PlainPair("a", "b");
    PlainPair("c", "d");
  }

  /** For instance, this table comes back with its first row for a header. */
  lemma EmptyHeadersAreLost(rule: string)
    requires IsSeparator(rule) && OneLine(rule)
    ensures Tables(MARKDOWN, Join(TableLines(rule, EMPTY_HEADERS), '\n')) ==
            [Extracted(MARKDOWN, 0, Content(["a", "b"], [["c", "d"]]))]
  {
    EmptyHeadersAreRuleLike();
    assert EMPTY_HEADERS.rows[1..] == [["c", "d"]];
    FirstRowIsPromoted(rule, EMPTY_HEADERS);
  }

  // ----- headings, fences and other text -----

  /** A title as a heading can hold it. */
  predicate HeadingText(title: string)
  {
    title != "" && Trim(title) == title && forall c :: c in title ==> c !in "\n\r\U{2028}\U{2029}"
  }

  function HeadingLine(level: nat, title: string): string
  {
    seq(level, _ => '#') + " " + title
  }

  lemma {:induction false} CountHashes(level: nat, rest: string, atMost: nat)
    requires level <= atMost && (rest == "" || rest[0] != '#')
    ensures LeadingHashes(seq(level, _ => '#') + rest, atMost) == level
  {
    if level > 0 {
      CountHashes(level - 1, rest, atMost - 1);
      assert (seq(level, _ => '#') + rest)[1..] == seq(level - 1, _ => '#') + rest;
    } else {
      assert seq(0, _ => '#') + rest == rest;
    }
  }

  /** More than three hashes are no heading. */
  lemma DeepHeadingIsText(level: nat, title: string)
    requires level > 3
    ensures KindOf(HeadingLine(level, title)) == Other
  {
    var line := HeadingLine(level, title);
    var more := seq(level - 3, _ => '#') + " " + title;
    assert line == seq(3, _ => '#') + more;
    HashesUpTo(3, more);
    assert line[3] == '#' && line[0] == '#';
    SolidStart(line);
  }

  lemma {:induction false} HashesUpTo(atMost: nat, rest: string)
    ensures LeadingHashes(seq(atMost, _ => '#') + rest, atMost) == atMost
  {
    if atMost > 0 {
      HashesUpTo(atMost - 1, rest);
      assert (seq(atMost, _ => '#') + rest)[1..] == seq(atMost - 1, _ => '#') + rest;
    }
  }

  lemma {:induction false} NoTerminator(title: string)
    requires forall c :: c in title ==> c !in "\n\r\U{2028}\U{2029}"
    ensures UpToTerminator(title) == title
  {
    if title != "" {
      NoTerminator(title[1..]);
      assert title == [title[0]] + title[1..];
    }
  }

  lemma SolidStart(line: string)
    requires line != "" && !IsSpace(line[0])
    ensures TrimStart(line) == line && Trim(line) != ""
  {
    var after := TrimEndTakesSpaces(line);
    assert line[0] in line;
    assert TrimEnd(line) == "" ==> line == after;
  }

  lemma TitleIsRead(level: nat, title: string)
    requires 1 <= level <= 3 && HeadingText(title)
    ensures HeadingTitle(HeadingLine(level, title)) == Some(title)
  {
    var line, rest := HeadingLine(level, title), " " + title;
    assert line == seq(level, _ => '#') + rest && rest[1..] == title;
    CountHashes(level, rest, 3);
    assert line[level..] == rest && line[level] == ' ';
    assert !IsSpace(Trim(title)[0]);
    assert TrimStart(rest) == TrimStart(title) == title;
    NoTerminator(title);
  }

  lemma HeadingKind(line: string, title: string)
    requires line != "" && line[0] == '#' && HeadingTitle(line) == Some(title)
    ensures KindOf(line) == Heading(title)
  {
    SolidStart(line);
  }

  /** A heading of level one to three is known by its title. */
  lemma HeadingIsRead(level: nat, title: string)
    requires 1 <= level <= 3 && HeadingText(title)
    ensures KindOf(HeadingLine(level, title)) == Heading(title)
  {
    StartsWithHash(level, title);
    TitleIsRead(level, title);
    HeadingKind(HeadingLine(level, title), title);
  }

  lemma StartsWithHash(level: nat, title: string)
    requires level >= 1
    ensures HeadingLine(level, title) != "" && HeadingLine(level, title)[0] == '#'
  {
  }

  lemma {:induction false} BlankTurns(rules: Rules, blanks: nat, rest: seq<string>, heading: Option<string>,
                                      tables: seq<AnswerTable>)
    requires KnowsBlanks(rules)
    ensures Extract(rules, seq(blanks, _ => "") + rest, heading, tables) == Extract(rules, rest, heading, tables)
  {
    if blanks == 0 {
      assert seq(0, _ => "") + rest == rest;
    } else {
      BlankTurns(rules, blanks - 1, rest, heading, tables);
      BlankTurn(rules, seq(blanks - 1, _ => "") + rest, heading, tables);
      assert seq(blanks, _ => "") + rest == [""] + (seq(blanks - 1, _ => "") + rest);
    }
  }

  lemma HeadingTurn(rules: Rules, line: string, title: string, rest: seq<string>, heading: Option<string>,
                    tables: seq<AnswerTable>)
    requires rules.kindOf(line) == Heading(title)
    ensures Extract(rules, [line] + rest, heading, tables) == Extract(rules, rest, Some(title), tables)
  {
    assert ([line] + rest)[1..] == rest && tables + [] == tables;
  }

  /** A heading, with or without blank lines after it, is the title of the table below it. */
  lemma HeadingIsTheTitle(level: nat, title: string, blanks: nat, rule: string, c: Content)
    requires 1 <= level <= 3 && HeadingText(title) && IsSeparator(rule) && WellFormed(c)
    ensures var lines := [HeadingLine(level, title)] + (seq(blanks, _ => "") + TableLines(rule, c));
      Extract(MARKDOWN, lines, None, []) == [AnswerTable(0, title, c.headers, c.rows)] <==> ReadBack(c)
  {
    MarkdownKnowsBlanks();
    MarkdownUnderstands(rule, c);
    HeadingIsRead(level, title);
    HeadingTurn(MARKDOWN, HeadingLine(level, title), title, seq(blanks, _ => "") + TableLines(rule, c), None, []);
    BlankTurns(MARKDOWN, blanks, TableLines(rule, c), Some(title), []);
    SingleTable(MARKDOWN, rule, c, Some(title));
  }

  lemma OtherTurn(rules: Rules, line: string, rest: seq<string>, heading: Option<string>, tables: seq<AnswerTable>)
    requires rules.kindOf(line).Other?
    ensures Extract(rules, [line] + rest, heading, tables) == Extract(rules, rest, None, tables)
  {
    assert ([line] + rest)[1..] == rest && tables + [] == tables;
  }

  lemma OtherText(line: string)
    requires Trim(line) != "" && line[0] != '`' && line[0] != '#'
    requires TrimStart(line)[0] != '|' || '|' !in line[1..]
    ensures KindOf(line).Other?
  {
    assert LeadingHashes(line, 3) == 0;
  }

  /** Other text between, even a lone pipe, takes the heading away. */
  lemma TextDropsHeading(line: string, rest: seq<string>, heading: Option<string>, tables: seq<AnswerTable>)
    requires Trim(line) != "" && line[0] != '`' && line[0] != '#'
    requires TrimStart(line)[0] != '|' || '|' !in line[1..]
    ensures Extract(MARKDOWN, [line] + rest, heading, tables) == Extract(MARKDOWN, rest, None, tables)
  {
    OtherText(line);
    OtherTurn(MARKDOWN, line, rest, heading, tables);
  }

  lemma {:induction false} FenceRun(inner: seq<string>, end: seq<string>)
    requires forall i :: 0 <= i < |inner| ==> !("```" <= inner[i])
    requires end == [] || "```" <= end[0]
    ensures FenceLength(inner + end) == |inner| + (if end == [] then 0 else 1)
  {
    if inner == [] {
      assert inner + end == end;
    } else {
      FenceRun(inner[1..], end);
      assert (inner + end)[1..] == inner[1..] + end;
    }
  }

  lemma OpeningFence(line: string)
    requires "```" <= line
    ensures KindOf(line) == Fence
  {
    assert line[0] == '`';
    SolidStart(line);
  }

  /** A fenced block adds no table, whatever stands in it; one that is never closed takes the rest
      of the answer with it. */
  lemma FenceAddsNoTable(open: string, inner: seq<string>, end: seq<string>, heading: Option<string>,
                         tables: seq<AnswerTable>)
    requires "```" <= open && (forall i :: 0 <= i < |inner| ==> !("```" <= inner[i]))
    requires end == [] || "```" <= end[0]
    ensures Extract(MARKDOWN, [open] + (inner + end), heading, tables) ==
            if end == [] then tables else Extract(MARKDOWN, end[1..], None, tables)
  {
    var lines := [open] + (inner + end);
    OpeningFence(open);
    FenceRun(inner, end);
    assert lines[1..] == inner + end && tables + [] == tables;
    if end == [] {
      assert lines[1 + |inner|..] == [];
    } else {
      assert lines[1 + |inner| + 1..] == end[1..];
    }
  }

  lemma TitleOfNamed(index: nat, headers: seq<string>, named: seq<string>)
    requires Filter(headers, HasName()) == named
    ensures DefaultTitle(index, headers) ==
            var cols := JoinList(if |named| > 3 then named[..3] else named);
            "Table " + Digits(index + 1, 10) + (if cols == "" then "" else " (" + cols + ")")
  {
  }

  lemma JoinThree(a: string, b: string, c: string)
    ensures JoinList([a, b, c]) == a + ", " + b + ", " + c
    ensures JoinList([a]) == a && JoinList([]) == ""
  {
    assert [b, c][1..] == [c] && JoinList([b, c]) == b + ", " + c;
    assert [a, b, c][1..] == [b, c] && JoinList([a, b, c]) == a + ", " + (b + ", " + c);
    Assoc(a + ", ", b, ", " + c);
    assert a + ", " + b + ", " + c == a + ", " + b + (", " + c);
    assert b + ", " + c == b + (", " + c);
  }

  /** A title made up from the columns: the first three that have a name. */
  lemma TitleNamesColumns(index: nat, a: string, b: string, c: string, more: seq<string>)
    requires a != "" && b != "" && c != ""
    ensures DefaultTitle(index, [""]) == "Table " + Digits(index + 1, 10)
    ensures DefaultTitle(index, ["", a]) == "Table " + Digits(index + 1, 10) + (" (" + a + ")")
    ensures DefaultTitle(index, [a, "", b, c] + more) ==
            "Table " + Digits(index + 1, 10) + (" (" + (a + ", " + b + ", " + c) + ")")
  {
    JoinThree(a, b, c);
    OneNamed(a);
    TitleOfNamed(index, [""], []);
    TitleOfNamed(index, ["", a], [a]);
    assert "Table " + Digits(index + 1, 10) + "" == "Table " + Digits(index + 1, 10);
    var named := [a, b, c] + Filter(more, HasName());
    ThreeNamed(a, b, c, more);
    TitleOfNamed(index, [a, "", b, c] + more, named);
    assert (if |named| > 3 then named[..3] else named) == [a, b, c];
  }

  lemma OneNamed(a: string)
    requires a != ""
    ensures Filter([""], HasName()) == [] && Filter(["", a], HasName()) == [a]
  {
    FilterFirst("", [], HasName());
    FilterFirst("", [a], HasName());
    FilterFirst(a, [], HasName());
    assert [""] == [""] + [] && ["", a] == [""] + [a] && [a] == [a] + [];
  }

  lemma ThreeNamed(a: string, b: string, c: string, more: seq<string>)
    requires a != "" && b != "" && c != ""
    ensures Filter([a, "", b, c] + more, HasName()) == [a, b, c] + Filter(more, HasName())
  {
    FilterFirst(c, more, HasName());
    FilterFirst(b, [c] + more, HasName());
    FilterFirst("", [b] + ([c] + more), HasName());
    FilterFirst(a, [""] + ([b] + ([c] + more)), HasName());
    assert [a, "", b, c] + more == [a] + ([""] + ([b] + ([c] + more)));
  }

  /** Parsing the export of a table gives every cell under its header. */
  ghost predicate ExportsWhole(headers: seq<string>, rows: seq<seq<string>>)
  {
    var parsed := Csv.Table(Csv.Parse(ExportCsv(headers, rows), "", [], false));
    |parsed| == |rows| &&
    forall r, k :: 0 <= r < |rows| && 0 <= k < |headers| && k < |rows[r]| ==>
      headers[k] in parsed[r] && parsed[r][headers[k]] == Text(rows[r][k])
  }

  lemma ContentExportsWhole(c: Content)
    requires WellFormed(c) && |c.headers| >= 2 && Distinct(c.headers)
    ensures ExportsWhole(c.headers, c.rows)
  {
    forall row | row in c.rows ensures |row| == |c.headers| {
      var i :| 0 <= i < |c.rows| && c.rows[i] == row;
    }
    ExportRoundTrip(c.headers, c.rows);
  }

  /** From the answer to the file and back: the table that was written is the one extracted,
      and parsing its CSV export gives every cell under its header. */
  lemma AnswerToCsvRoundTrip(rule: string, c: Content)
    requires IsSeparator(rule) && OneLine(rule) && WellFormed(c) && ReadBack(c)
    requires |c.headers| >= 2 && Distinct(c.headers)
    ensures var tables := Tables(MARKDOWN, Join(TableLines(rule, c), '\n'));
      tables == [Extracted(MARKDOWN, 0, c)] && ExportsWhole(tables[0].headers, tables[0].rows)
  {
    WrittenTableExtractedIff(rule, c);
    ContentExportsWhole(c);
  }
}
