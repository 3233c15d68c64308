/** The JSON files of the WebHDFS adapter, for any way of printing rows that can be read back. */
module JsonFile {
  import opened JsText
  import opened Movement
  import Csv

  /** Reads a row off the front of a text. */
  type RowReader = string -> Option<(Row, string)>

  /** What is printed for a row is read back before a comma or a closing bracket, as JSON is. */
  ghost predicate ReadsRows(stringify: Row -> string, parse: RowReader)
  {
    forall row, rest :: rest != "" && rest[0] in ",]" ==>
      stringify(row) != "" && parse(stringify(row) + rest) == Some((row, rest))
  }

  /** The rows of an array, after its opening bracket. */
  function ReadItems(parse: RowReader, text: string): Option<Batch>
    decreases |text|
  {
    match parse(text)
    case None => None
    case Some((row, rest)) =>
      if rest == "]" then Some([row])
      else if rest == "" || rest[0] != ',' || |rest| >= |text| then None
      else
        match ReadItems(parse, rest[1..])
        case None => None
        case Some(rows) => Some([row] + rows)
  }

  /** The rows of a file: none in an empty one. */
  function ReadFile(parse: RowReader, text: string): Option<Batch>
  {
    if text == "" then Some([])
    else if text[0] == '[' then ReadItems(parse, text[1..])
    else None
  }

  lemma {:induction false} ItemsRead(stringify: Row -> string, parse: RowReader, rows: Batch)
    requires ReadsRows(stringify, parse) && rows != []
    ensures ReadItems(parse, Join(Map(stringify, rows), ',') + "]") == Some(rows)
    decreases |rows|
  {
    var printed := Map(stringify, rows);
    var text := Join(printed, ',') + "]";
    if |rows| == 1 {
      assert text == stringify(rows[0]) + "]";
      assert parse(stringify(rows[0]) + "]") == Some((rows[0], "]"));
      assert rows == [rows[0]];
    } else {
      var later := Join(Map(stringify, rows[1..]), ',') + "]";
      assert printed[1..] == Map(stringify, rows[1..]);
      assert text == stringify(rows[0]) + ([','] + later);
      ItemsRead(stringify, parse, rows[1..]);
      assert parse(stringify(rows[0]) + ([','] + later)) == Some((rows[0], [','] + later));
      assert ([','] + later)[1..] == later;
      assert rows == [rows[0]] + rows[1..];
    }
  }

  /** JSON round trip: the file written for any rows, however batched, is read back as the rows. */
  lemma RoundTrip(stringify: Row -> string, parse: RowReader, rows: Batch)
    requires ReadsRows(stringify, parse)
    ensures ReadFile(parse, Csv.JsonText(stringify, rows)) == Some(rows)
  {
    if rows != [] {
      var items := Join(Map(stringify, rows), ',') + "]";
      ItemsRead(stringify, parse, rows);
      assert Csv.JsonText(stringify, rows) == "[" + items;
      assert ("[" + items)[1..] == items;
    }
  }
}
