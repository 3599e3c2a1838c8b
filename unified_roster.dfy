/** pullUnifiedRosterLocal.py: `pull_roster_data`, which runs one query,
    optionally transforms every row, picks the header and writes one CSV
    file, and the two calls the script makes (charter rows from ATS with the
    row transform, district rows from STARS as fetched). Its `transform_row`
    (lines 74-111) is the same text as the one of pullRegistrations.py
    (lines 101-138), so the model uses the one definition
    `PullRegistrations.TransformRow` for both. */
module UnifiedRoster {
  import opened Wrappers
  import opened Cells
  import PullRegistrations

  /** What the database gave back: the cursor's column names and rows, or a
      `pyodbc.Error` with its SQLSTATE. */
  datatype DbAnswer = Answered(columnNames: seq<string>, rows: seq<Row>) | DbFailure(sqlstate: string)

  /** How a call ends. Every exception is caught (lines 59-66) and printed,
      so a failed call writes no file. */
  datatype Outcome =
    | Written(file: CsvFile)
    | AuthenticationFailed
    | DatabaseFailed(sqlstate: string)
    | Failed(error: PyError)

  /** Lines 44-49: an explicit header is used as given; without one, the
      cursor's column names when there is no transform, and a ValueError when
      there is. */
  function SelectHeader(outputHeader: Option<seq<string>>, hasTransform: bool, columnNames: seq<string>): (r: Result<seq<string>, PyError>)
    ensures outputHeader.Some? ==> r == Ok(outputHeader.value)
    ensures outputHeader.None? && !hasTransform ==> r == Ok(columnNames)
    ensures r.Err? <==> outputHeader.None? && hasTransform
    ensures r.Err? ==> r.error.ValueError?
  {
    match outputHeader
    case Some(header) => Ok(header)
    case None =>
      if !hasTransform then Ok(columnNames)
      else Err(ValueError("When applying a transformation, please provide an output_header parameter."))
  }

  /** Lines 37-40: the rows as fetched, or each row transformed in order. */
  function TransformRows(transform: Option<Row -> Result<Row, PyError>>, rows: seq<Row>): Result<seq<Row>, PyError> {
    match transform
    case None => Ok(rows)
    case Some(f) => MapRows(f, rows)
  }

  /** `pull_roster_data` on the answer of the database; the connection
      string, the query text and the cursor clean-up are left out. */
  function PullRosterData(outputFile: string, answer: DbAnswer, transform: Option<Row -> Result<Row, PyError>>,
                          outputHeader: Option<seq<string>>): (o: Outcome)
    ensures answer.DbFailure? ==>
      o == (if answer.sqlstate == "28000" then AuthenticationFailed else DatabaseFailed(answer.sqlstate))
    ensures answer.Answered? && TransformRows(transform, answer.rows).Err? ==>
      o == Failed(TransformRows(transform, answer.rows).error)
    ensures o.Written? <==>
      answer.Answered? && TransformRows(transform, answer.rows).Ok? &&
      SelectHeader(outputHeader, transform.Some?, answer.columnNames).Ok?
    ensures o.Written? ==>
      o.file == CsvFile(outputFile, SelectHeader(outputHeader, transform.Some?, answer.columnNames).value,
                        TransformRows(transform, answer.rows).value)
  {
    match answer
    case DbFailure(sqlstate) =>
      if sqlstate == "28000" then AuthenticationFailed else DatabaseFailed(sqlstate)
    case Answered(columnNames, rows) =>
      match TransformRows(transform, rows)
      case Err(e) => Failed(e)
      case Ok(transformedRows) =>
        match SelectHeader(outputHeader, transform.Some?, columnNames)
        case Err(e) => Failed(e)
        case Ok(header) => Written(CsvFile(outputFile, header, transformedRows))
  }

  /** With a transform, the written rows are a one-for-one image of the
      fetched rows, in the same order. */
  lemma TransformKeepsRows(outputFile: string, answer: DbAnswer, f: Row -> Result<Row, PyError>,
                           outputHeader: Option<seq<string>>)
    requires PullRosterData(outputFile, answer, Some(f), outputHeader).Written?
    ensures var rows := PullRosterData(outputFile, answer, Some(f), outputHeader).file.rows;
      && |rows| == |answer.rows|
      && forall k :: 0 <= k < |rows| ==> f(answer.rows[k]) == Ok(rows[k])
  {
  }

  /** A transform without a header never writes: the call ends with the
      transform's exception or with the ValueError of line 49. */
  lemma TransformNeedsHeader(outputFile: string, columnNames: seq<string>, rows: seq<Row>,
                             f: Row -> Result<Row, PyError>)
    ensures var o := PullRosterData(outputFile, Answered(columnNames, rows), Some(f), None);
      o.Failed? && (MapRows(f, rows).Ok? ==> o.error.ValueError?)
  {
  }

  /** The charter call of line 143: `transform_row` and the 14-column
      header. Either some row raises, or every fetched row becomes one row of
      the header's width under that header. */
  lemma CharterCall(outputFile: string, columnNames: seq<string>, rows: seq<Row>)
    ensures var o := PullRosterData(outputFile, Answered(columnNames, rows),
                                    Some(PullRegistrations.TransformRow), Some(PullRegistrations.Header));
      && (o.Written? <==> forall k :: 0 <= k < |rows| ==> PullRegistrations.TransformRow(rows[k]).Ok?)
      && (o.Written? ==>
            && o.file.header == PullRegistrations.Header
            && |o.file.rows| == |rows|
            && forall k :: 0 <= k < |rows| ==> |o.file.rows[k]| == |PullRegistrations.Header|)
      && (!o.Written? ==> o.Failed?)
  {
    var o := PullRosterData(outputFile, Answered(columnNames, rows),
                            Some(PullRegistrations.TransformRow), Some(PullRegistrations.Header));
    if o.Written? {
      PullRegistrations.CharterRowsFitHeader(rows);
    }
  }

  /** The district call of line 172: no transform and no header, so the file
      is the fetched table itself. */
  lemma DistrictCall(outputFile: string, answer: DbAnswer)
    requires answer.Answered?
    ensures PullRosterData(outputFile, answer, None, None) == Written(CsvFile(outputFile, answer.columnNames, answer.rows))
  {
  }
}
