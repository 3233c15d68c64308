/** The data that the Bridge moves: cell values, rows, batches and lazy batch streams. */
module Movement {
  import opened JsText

  /** A cell. `Undefined` is a key that is absent, or present with no value. */
  datatype Value = Undefined | Null | Bool(b: bool) | Int(n: int) | Text(s: string)

  type Row = map<string, Value>
  type Batch = seq<Row>

  /** `row[key]` */
  function Get(row: Row, key: string): Value
  {
    if key in row then row[key] else Undefined
  }

  /** `Object.keys`: some listing of the row's keys, each once. */
  type KeyOrder = Row -> seq<string>

  ghost predicate ListsKeys(order: KeyOrder)
  {
    forall row: Row :: Distinct(order(row)) && (forall key :: key in order(row) <==> key in row)
  }

  /** A generator of batches, as its consumer sees it: what it delivers, then how it ends. */
  datatype Stream = Stream(batches: seq<Batch>, failure: Option<string>)

  predicate IsEmpty(v: Value)
  {
    v.Undefined? || v.Null? || v == Text("")
  }

  /** A value as a database keeps it. */
  datatype SqlValue = SqlNull | SqlBool(b: bool) | SqlInt(n: int) | SqlText(s: string)

  /** What a literal stands for: SQL Server keeps a boolean as a bit. */
  function Stored(v: Value): SqlValue
  {
    match v
    case Undefined => SqlNull
    case Null => SqlNull
    case Bool(b) => SqlInt(if b then 1 else 0)
    case Int(n) => SqlInt(n)
    case Text(s) => SqlText(s)
  }

  type StoredRow = map<string, SqlValue>
  type Table = seq<StoredRow>
}
