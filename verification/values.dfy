/**
 * The dynamically typed values that flow through the pipeline: database
 * cells, JSON configuration values and resolved field values.
 */
module Values {
  import opened Text

  /** A Python value as the pipeline sees it: `None`, a string or an integer. */
  datatype Value = Null | Str(text: string) | Int(num: int)

  /** A database row, a JSON object or a resolved field map, keyed by name. */
  type Row = map<string, Value>

  /** Python truthiness. */
  predicate Truthy(v: Value) {
    match v
    case Null => false
    case Str(s) => s != ""
    case Int(n) => n != 0
  }

  /** Python's `str(value)`. */
  function ToStr(v: Value): string {
    match v
    case Null => "None"
    case Str(s) => s
    case Int(n) => IntToString(n)
  }

  /** `row.get(key)`: a missing key reads as `None`. */
  function Get(row: Row, key: string): (v: Value)
    ensures key !in row ==> v == Null
    ensures key in row ==> v == row[key]
  {
    if key in row then row[key] else Null
  }
}
