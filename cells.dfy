/** The loosely typed values the scripts handle: the cells of a pandas row in
    createTAOFiles.py and the columns of a pyodbc row in the two pull scripts. */
module Cells {
  import opened Wrappers

  /** One value as Python sees it. `Str` is a `str`, `Int` an `int` (a `bool`
      included), `Null` is `None`, and `Other` any other value (a float, a
      Decimal, a date) with its Python truthiness. */
  datatype Cell = Str(s: string) | Int(n: int) | Null | Other(truthy: bool)

  type Row = seq<Cell>

  /** Python's `bool(value)`. */
  predicate Truthy(c: Cell) {
    match c
    case Str(s) => s != ""
    case Int(n) => n != 0
    case Null => false
    case Other(t) => t
  }

  /** The exceptions the modelled code can raise. */
  datatype PyError =
    | NameError(name: string)
    | KeyError(key: string)
    | TypeError(message: string)
    | AttributeError(message: string)
    | IndexError
    | ValueError(message: string)

  /** A CSV file as the scripts write it: a name, a header row and data rows. */
  datatype CsvFile = CsvFile(name: string, header: seq<string>, rows: seq<Row>)

  /** `[f(row) for row in rows]`: the image of every row, in order, or the
      exception raised by the first row on which `f` raises. */
  function MapRows(f: Row -> Result<Row, PyError>, rows: seq<Row>): (r: Result<seq<Row>, PyError>)
    ensures r.Ok? <==> forall k :: 0 <= k < |rows| ==> f(rows[k]).Ok?
    ensures r.Ok? ==> |r.value| == |rows|
    ensures r.Ok? ==> forall k :: 0 <= k < |rows| ==> r.value[k] == f(rows[k]).value
    ensures r.Err? ==>
      exists k :: 0 <= k < |rows| && f(rows[k]) == Err(r.error) &&
        forall j :: 0 <= j < k ==> f(rows[j]).Ok?
  {
    if rows == [] then Ok([])
    else
      match f(rows[0])
      case Err(e) => Err(e)
      case Ok(first) =>
        match MapRows(f, rows[1..])
        case Err(e) => Err(e)
        case Ok(rest) => Ok([first] + rest)
  }
}
