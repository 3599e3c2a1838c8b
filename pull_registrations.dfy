/** pullRegistrations.py: the row transform applied to the charter-school
    rows, the options derived from the command line, the SQL placeholders and
    parameter lists, and the merged output file. The databases, the files and
    the clock are parameters of the model. */
module PullRegistrations {
  import opened Wrappers
  import opened PyText
  import opened Cells

  /** The header of the merged file (lines 255-258), in the column order the
      transform produces. */
  const Header: seq<string> := [
    "CourseCode", "SchoolDBN", "FirstName", "LastName", "StudentID",
    "AssignedSectionId", "LEPFlag", "GradeLevel", "CreatedDate",
    "UpdatedDate", "SchoolYear", "TermId", "GUID", "StudentDOEEmail"
  ]

  // ---------------------------------------------------------------------
  // transform_row (lines 101-138)

  /** `full_name = row[1] if row[1] else ""` followed by `.split`: a falsy
      name is the empty text, a text name is kept, and any other truthy value
      has no `split` method. */
  function FullName(name: Cell): Result<string, PyError> {
    if !Truthy(name) then Ok("")
    else if name.Str? then Ok(name.s)
    else Err(AttributeError("object has no attribute 'split'"))
  }

  /** Lines 109-115: `(first_name, last_name)` from "LastName, FirstName". */
  function SplitName(fullName: string): (string, string) {
    var parts := Split(fullName, ',');
    if |parts| == 2 then (Strip(parts[1]), Strip(parts[0]))
    else (Strip(fullName), "")
  }

  /** With exactly one comma, the last name is the stripped text before it
      and the first name the stripped text after it; with any other number of
      commas the whole stripped name is the first name and the last name is
      empty. Neither name carries surrounding whitespace. */
  lemma SplitNameIff(fullName: string)
    ensures Count(fullName, ',') == 1 ==> ',' in fullName
    ensures Count(fullName, ',') == 1 ==>
      var i := FirstIndex(fullName, ',');
      SplitName(fullName) == (Strip(fullName[i + 1..]), Strip(fullName[..i]))
    ensures Count(fullName, ',') != 1 ==> SplitName(fullName) == (Strip(fullName), "")
    ensures Stripped(SplitName(fullName).0) && Stripped(SplitName(fullName).1)
    ensures ',' !in SplitName(fullName).1
  {
    SplitCount(fullName, ',');
    CountZero(fullName, ',');
    if Count(fullName, ',') == 1 {
      SplitAtOnlySeparator(fullName, ',');
    }
  }

  /** Line 118: a section that is `None` or "" becomes "99". */
  function SectionField(section: Cell): Cell {
    if section == Null || section == Str("") then Str("99") else section
  }

  /** Line 120: `row[7][:4] if row[7] else ""`. A falsy year is the empty
      text; a truthy value that is not text cannot be sliced. */
  function YearField(year: Cell): Result<Cell, PyError> {
    if !Truthy(year) then Ok(Str(""))
    else if year.Str? then Ok(Str(Take(year.s, 4)))
    else Err(TypeError("object is not subscriptable"))
  }

  /** `transform_row`: a 10-column row of the charter query (email, name,
      student id, DBN, course, grade, record type, school year, term,
      section) becomes a 14-column registration row in `Header` order. The
      row is read in the order of the source: the name, then the section,
      then the year, so the first of these that fails decides the error. */
  function TransformRow(row: Row): (r: Result<Row, PyError>)
    ensures |row| < 2 ==> r == Err(IndexError)
    ensures |row| >= 2 && FullName(row[1]).Err? ==> r == Err(FullName(row[1]).error)
    ensures |row| >= 2 && FullName(row[1]).Ok? && |row| < 10 ==> r == Err(IndexError)
    ensures |row| >= 10 && FullName(row[1]).Ok? && YearField(row[7]).Err? ==> r == Err(YearField(row[7]).error)
    ensures r.Ok? <==> |row| >= 10 && FullName(row[1]).Ok? && YearField(row[7]).Ok?
    ensures r.Ok? ==>
      && |r.value| == |Header|
      && r.value[6] == Str("") && r.value[8] == Str("") && r.value[9] == Str("") && r.value[12] == Str("")
      && r.value[0] == row[4] && r.value[1] == row[3] && r.value[4] == row[2]
      && r.value[7] == row[5] && r.value[11] == row[8] && r.value[13] == row[0]
      && r.value[2] == Str(SplitName(FullName(row[1]).value).0)
      && r.value[3] == Str(SplitName(FullName(row[1]).value).1)
      && r.value[5] == SectionField(row[9]) && r.value[10] == YearField(row[7]).value
  {
    if |row| < 2 then Err(IndexError)
    else
      var fullName :- FullName(row[1]);
      var names := SplitName(fullName);
      if |row| < 10 then Err(IndexError)
      else
        var section := SectionField(row[9]);
        var schoolYear :- YearField(row[7]);
        Ok([row[4], row[3], Str(names.0), Str(names.1), row[2], section, Str(""),
            row[5], Str(""), Str(""), schoolYear, row[8], Str(""), row[0]])
  }

  /** The name text a transformable row carries: "" when `row[1]` is falsy. */
  function NameText(name: Cell): string {
    if Truthy(name) && name.Str? then name.s else ""
  }

  /** Names of a transformed row: split at the only comma, or all in the
      first name; a `None` or empty name gives two empty names. */
  lemma TransformNames(row: Row)
    requires |row| >= 10 && FullName(row[1]).Ok? && YearField(row[7]).Ok?
    ensures Count(NameText(row[1]), ',') == 1 ==> ',' in NameText(row[1])
    ensures var out, name := TransformRow(row).value, NameText(row[1]);
      && (Count(name, ',') == 1 ==>
            var i := FirstIndex(name, ',');
            out[2] == Str(Strip(name[i + 1..])) && out[3] == Str(Strip(name[..i])))
      && (Count(name, ',') != 1 ==> out[2] == Str(Strip(name)) && out[3] == Str(""))
      && (!Truthy(row[1]) ==> out[2] == Str("") && out[3] == Str(""))
  {
    SplitNameIff(NameText(row[1]));
    CountZero(NameText(row[1]), ',');
  }

  /** The year of a transformed row is text of at most four characters: the
      start of the source text, or "" for a falsy source. */
  lemma YearTruncated(year: Cell)
    ensures YearField(year).Ok? ==> var y := YearField(year).value;
      && y.Str? && |y.s| <= 4
      && (Truthy(year) ==> year.Str? && y.s == year.s[..|y.s|] &&
                           |y.s| == (if |year.s| < 4 then |year.s| else 4))
      && (!Truthy(year) ==> y == Str(""))
    ensures YearField(year).Ok? <==> !Truthy(year) || year.Str?
  {
  }

  // ---------------------------------------------------------------------
  // The test list and the school types (lines 74-90)

  /** The non-empty stripped items of a list of pieces. */
  function CodeSet(parts: seq<string>): (codes: set<string>)
    ensures forall c :: c in codes ==> c != "" && Stripped(c)
    ensures (forall k :: 0 <= k < |parts| ==> ',' !in parts[k]) ==> forall c :: c in codes ==> ',' !in c
    ensures forall k :: 0 <= k < |parts| && Strip(parts[k]) != "" ==> Strip(parts[k]) in codes
    ensures forall c :: c in codes ==> exists k :: 0 <= k < |parts| && Strip(parts[k]) == c
  {
    set part | part in parts && Strip(part) != "" :: Strip(part)
  }

  /** Pieces that strip to the same texts give the same codes. */
  lemma CodeSetSameStrips(x: seq<string>, y: seq<string>)
    requires |x| == |y|
    requires forall k :: 0 <= k < |x| ==> Strip(x[k]) == Strip(y[k])
    ensures CodeSet(x) == CodeSet(y)
  {
    forall c | c in CodeSet(x) ensures c in CodeSet(y) {
      var k :| 0 <= k < |x| && Strip(x[k]) == c;
    }
    forall c | c in CodeSet(y) ensures c in CodeSet(x) {
      var k :| 0 <= k < |y| && Strip(y[k]) == c;
    }
  }

  /** Pieces that are already stripped and non-empty are their own codes. */
  lemma CodeSetOfCodes(parts: seq<string>)
    requires forall k :: 0 <= k < |parts| ==> parts[k] != "" && Stripped(parts[k])
    ensures CodeSet(parts) == set k | 0 <= k < |parts| :: parts[k]
  {
    forall c | c in CodeSet(parts) ensures c in set k | 0 <= k < |parts| :: parts[k] {
      var part :| part in parts && Strip(part) != "" && c == Strip(part);
    }
    forall k | 0 <= k < |parts| ensures parts[k] in CodeSet(parts) {
      assert Strip(parts[k]) == parts[k];
    }
  }

  /** Line 76: the stripped comma-separated items of the stripped content,
      without the empty ones. */
  function ParseTestCodes(content: string): (codes: set<string>)
    ensures forall c :: c in codes ==> c != "" && Stripped(c) && ',' !in c
  {
    CodeSet(Split(Strip(content), ','))
  }

  /** Stripping the whole content first changes no code: the whitespace it
      removes lies at the ends of the first and the last item. */
  lemma ParseTestCodesUnstripped(content: string)
    ensures ParseTestCodes(content) == CodeSet(Split(content, ','))
  {
    SplitStripped(content, ',');
    CodeSetSameStrips(Split(content, ','), Split(Strip(content), ','));
  }

  /** Items written with commas between them, with or without whitespace
      around each, read back as their non-empty stripped texts. */
  lemma ParsePaddedCodes(items: seq<string>)
    requires |items| >= 1
    requires forall k :: 0 <= k < |items| ==> ',' !in items[k]
    ensures ParseTestCodes(Join(items, ",")) == set k | 0 <= k < |items| && Strip(items[k]) != "" :: Strip(items[k])
  {
    ParseTestCodesUnstripped(Join(items, [',']));
    SplitJoin(items, ',');
  }

  /** A list of codes written with commas between them reads back as the set
      of those codes. */
  lemma ParseJoinedCodes(codes: seq<string>)
    requires |codes| >= 1
    requires forall k :: 0 <= k < |codes| ==> codes[k] != "" && Stripped(codes[k]) && ',' !in codes[k]
    ensures ParseTestCodes(Join(codes, ",")) == set k | 0 <= k < |codes| :: codes[k]
  {
    var content := Join(codes, [',']);
    JoinEnds(codes, [',']);
    assert Stripped(content);
    SplitJoin(codes, ',');
    CodeSetOfCodes(codes);
  }

  /** A test list of nothing but whitespace (or nothing) has no codes. */
  lemma BlankTestList(content: string)
    requires forall i :: 0 <= i < |content| ==> IsSpace(content[i])
    ensures ParseTestCodes(content) == {}
  {
    assert Strip(content) == "";
    assert Split("", ',') == [""];
  }

  /** Lines 79-90: `(charter, public)` from the `-C` and `-P` switches. */
  function SelectSchoolTypes(charterSpecified: bool, publicSpecified: bool): (r: (bool, bool))
    ensures r == (true, true) <==> charterSpecified == publicSpecified
    ensures charterSpecified && !publicSpecified ==> r == (true, false)
    ensures publicSpecified && !charterSpecified ==> r == (false, true)
    ensures r.0 || r.1
  {
    if charterSpecified && publicSpecified then (true, true)
    else if charterSpecified then (true, false)
    else if publicSpecified then (false, true)
    else (true, true)
  }

  // ---------------------------------------------------------------------
  // parse_arguments (lines 13-98)

  /** What the command line gave after argparse: the two switches, the year
      and output name if given, and the state of the test list. */
  datatype TestList = NotGiven | Missing(path: string) | Content(text: string)

  datatype Args = Args(charter: bool, public: bool, year: Option<int>, output: Option<string>, testList: TestList)

  datatype Options = Options(charter: bool, public: bool, year: int, output: string, testCodes: set<string>)

  /** The run stops: argparse refuses a command line without `--testlist`,
      and line 72 exits when the named file does not exist. */
  datatype ArgError = TestListRequired | TestListNotFound(path: string)

  const DefaultOutput := "registrations.csv"

  /** `parse_arguments`, with the clock's year as `currentYear`. */
  function ParseArguments(args: Args, currentYear: int): (r: Result<Options, ArgError>)
    ensures args.testList.NotGiven? ==> r == Err(TestListRequired)
    ensures args.testList.Missing? ==> r == Err(TestListNotFound(args.testList.path))
    ensures r.Ok? <==> args.testList.Content?
    ensures r.Ok? ==>
      && (r.value.charter, r.value.public) == SelectSchoolTypes(args.charter, args.public)
      && r.value.year == (if args.year.Some? then args.year.value else currentYear)
      && r.value.output == (if args.output.Some? then args.output.value else DefaultOutput)
      && r.value.testCodes == ParseTestCodes(args.testList.text)
  {
    match args.testList
    case NotGiven => Err(TestListRequired)
    case Missing(path) => Err(TestListNotFound(path))
    case Content(text) =>
      var year := if args.year.Some? then args.year.value else currentYear;
      var output := if args.output.Some? then args.output.value else DefaultOutput;
      var (charter, public) := SelectSchoolTypes(args.charter, args.public);
      Ok(Options(charter, public, year, output, ParseTestCodes(text)))
  }

  // ---------------------------------------------------------------------
  // Placeholders and parameters (lines 163-164, 189, 208-209, 236)

  /** `[x] * n`. */
  function Repeat<T>(x: T, n: nat): (r: seq<T>)
    ensures |r| == n
    ensures forall i :: 0 <= i < n ==> r[i] == x
  {
    if n == 0 then [] else [x] + Repeat(x, n - 1)
  }

  /** `','.join(['?'] * n)`. */
  function Placeholders(n: nat): string {
    Join(Repeat("?", n), ",")
  }

  /** The placeholder text alternates '?' and ',' and starts and ends with
      '?': n markers and one comma fewer; nothing at all for no codes. */
  lemma {:induction false} PlaceholdersShape(n: nat)
    ensures |Placeholders(n)| == (if n == 0 then 0 else 2 * n - 1)
    ensures forall i :: 0 <= i < |Placeholders(n)| ==> Placeholders(n)[i] == (if i % 2 == 0 then '?' else ',')
    ensures Count(Placeholders(n), '?') == n
    ensures Count(Placeholders(n), ',') == (if n == 0 then 0 else n - 1)
  {
    if n == 1 {
      assert Placeholders(1) == "?";
    } else if n > 1 {
      var rest := Placeholders(n - 1);
      PlaceholdersShape(n - 1);
      assert Repeat("?", n)[1..] == Repeat("?", n - 1);
      assert Placeholders(n) == "?," + rest;
      CountConcat("?,", rest, '?');
      CountConcat("?,", rest, ',');
    }
  }

  /** Splitting the placeholder text at its commas gives one marker per code. */
  lemma PlaceholdersSplit(n: nat)
    requires n >= 1
    ensures Split(Placeholders(n), ',') == Repeat("?", n)
  {
    SplitJoin(Repeat("?", n), ',');
  }

  /** Line 189: the ATS school year "YYYYZZZZ" (this year and the next),
      then the codes. */
  function AtsParams(year: int, testCodes: seq<string>): seq<string> {
    [DecimalText(year) + DecimalText(year + 1)] + testCodes
  }

  /** Line 236: the year twice (grade and request), then the codes. */
  function StarsParams(year: int, testCodes: seq<string>): seq<string> {
    [DecimalText(year), DecimalText(year)] + testCodes
  }

  /** The markers of the ATS query: the school year (line 180) and the
      course list (line 181). */
  function AtsMarkers(testCodes: seq<string>): string {
    "?" + Placeholders(|testCodes|)
  }

  /** The markers of the STARS query: the grade year (line 219), the request
      year (line 229) and the course list (line 230). */
  function StarsMarkers(testCodes: seq<string>): string {
    "??" + Placeholders(|testCodes|)
  }

  /** `list(test_codes)` (line 163): each code of the set once, in the
      set's iteration order. */
  predicate ListsOnce(order: seq<string>, codes: set<string>) {
    && (forall i, j :: 0 <= i < j < |order| ==> order[i] != order[j])
    && (set c | c in order) == codes
  }

  /** A listing of a set has one element per member. */
  lemma {:induction false} ListsOnceSize(order: seq<string>, codes: set<string>)
    requires ListsOnce(order, codes)
    ensures |order| == |codes|
    decreases |order|
  {
    if order != [] {
      var x, rest := order[0], order[1..];
      forall i, j | 0 <= i < j < |rest| ensures rest[i] != rest[j] {
        assert rest[i] == order[i + 1] && rest[j] == order[j + 1];
      }
      forall i | 0 <= i < |rest| ensures rest[i] != x {
        assert rest[i] == order[i + 1];
      }
      assert order == [x] + rest;
      assert (set c | c in rest) == codes - {x};
      ListsOnceSize(rest, codes - {x});
    }
  }

  /** Each query gets exactly one parameter per marker: the year parameters,
      then every code of the set once, in list order. */
  lemma ParamsMatchMarkers(year: int, testCodes: set<string>, codeOrder: seq<string>)
    requires ListsOnce(codeOrder, testCodes)
    ensures |AtsParams(year, codeOrder)| == Count(AtsMarkers(codeOrder), '?') == 1 + |testCodes|
    ensures |StarsParams(year, codeOrder)| == Count(StarsMarkers(codeOrder), '?') == 2 + |testCodes|
    ensures AtsParams(year, codeOrder)[1..] == codeOrder
    ensures StarsParams(year, codeOrder)[2..] == codeOrder
    ensures forall c :: c in AtsParams(year, codeOrder)[1..] <==> c in testCodes
  {
    ListsOnceSize(codeOrder, testCodes);
    PlaceholdersShape(|codeOrder|);
    CountConcat("?", Placeholders(|codeOrder|), '?');
    CountConcat("??", Placeholders(|codeOrder|), '?');
    assert AtsParams(year, codeOrder)[1..] == codeOrder;
  }

  /** For a four-digit year the ATS year parameter is eight digits, and its
      first four are the year itself (so line 120 recovers it). */
  lemma AtsYearText(year: int)
    requires 1000 <= year <= 9998
    ensures |DecimalText(year) + DecimalText(year + 1)| == 8
    ensures IsDigits(DecimalText(year) + DecimalText(year + 1))
    ensures Take(DecimalText(year) + DecimalText(year + 1), 4) == DecimalText(year)
  {
    assert Pow10(3) == 1000 && Pow10(4) == 10000;
    NatTextLength(year, 3);
    NatTextLength(year + 1, 3);
  }

  // ---------------------------------------------------------------------
  // query_student_data (lines 141-247)

  /** How connecting to a database and running its query ended: the fetched
      rows, or a `pyodbc.Error` with its SQLSTATE. */
  datatype Fetch = Rows(rows: seq<Row>) | DbError(sqlstate: string)

  /** A query sent to a database with its parameter list. */
  datatype Query = Query(database: string, params: seq<string>)

  datatype Pulled = Pulled(publicStudents: seq<Row>, charterStudents: seq<Row>, queries: seq<Query>)

  const AtsDatabase := "ATS_DEMO"
  const StarsDatabase := "STARS"

  /** `query_student_data`, with the outcome of each database as a parameter
      and `list(test_codes)` given in its iteration order. A database error
      leaves that school type empty; an exception from the transform is not
      caught and ends the run. The public rows are kept as fetched. */
  method QueryStudentData(includePublic: bool, includeCharter: bool, year: int,
                          testCodes: set<string>, codeOrder: seq<string>,
                          charterFetch: Fetch, publicFetch: Fetch)
    returns (r: Result<Pulled, PyError>)
    requires ListsOnce(codeOrder, testCodes)
    ensures var charterRows := if includeCharter && charterFetch.Rows? then charterFetch.rows else [];
      && (r.Err? <==> MapRows(TransformRow, charterRows).Err?)
      && (r.Err? ==> r.error == MapRows(TransformRow, charterRows).error)
      && (r.Ok? ==> r.value.charterStudents == MapRows(TransformRow, charterRows).value)
    ensures r.Ok? ==> r.value.publicStudents == (if includePublic && publicFetch.Rows? then publicFetch.rows else [])
    ensures r.Ok? ==> (r.value.queries ==
      (if includeCharter then [Query(AtsDatabase, AtsParams(year, codeOrder))] else []) +
      (if includePublic then [Query(StarsDatabase, StarsParams(year, codeOrder))] else []))
  {
    var charterStudents: seq<Row> := [];
    var publicStudents: seq<Row> := [];
    var queries: seq<Query> := [];
    if includeCharter {
      queries := queries + [Query(AtsDatabase, AtsParams(year, codeOrder))];
      if charterFetch.Rows? {
        var transformed := MapRows(TransformRow, charterFetch.rows);
        if transformed.Err? {
          r := Err(transformed.error);
          return;
        }
        charterStudents := transformed.value;
      }
    }
    if includePublic {
      queries := queries + [Query(StarsDatabase, StarsParams(year, codeOrder))];
      if publicFetch.Rows? {
        publicStudents := publicFetch.rows;
      }
    }
    r := Ok(Pulled(publicStudents, charterStudents, queries));
  }

  /** Every transformed charter row has the 14 columns of the header. */
  lemma CharterRowsFitHeader(rows: seq<Row>)
    requires MapRows(TransformRow, rows).Ok?
    ensures |MapRows(TransformRow, rows).value| == |rows|
    ensures forall k :: 0 <= k < |rows| ==> |MapRows(TransformRow, rows).value[k]| == |Header|
  {
    forall k | 0 <= k < |rows| ensures |MapRows(TransformRow, rows).value[k]| == |Header| {
      assert TransformRow(rows[k]).Ok?;
    }
  }

  // ---------------------------------------------------------------------
  // write_merged_output (lines 250-274)

  /** The index of the last character of `s` in `chars`, or -1 (`rfind`). */
  function LastIndexIn(s: string, chars: set<char>): (i: int)
    ensures -1 <= i < |s|
    ensures i >= 0 ==> s[i] in chars
    ensures forall j :: i < j < |s| ==> s[j] !in chars
  {
    if s == [] then -1
    else if s[|s| - 1] in chars then |s| - 1
    else LastIndexIn(s[..|s| - 1], chars)
  }

  const PathSeparators: set<char> := {'\\', '/'}

  /** `os.path.splitext` with Windows path rules (`ntpath`): the extension
      starts at the last dot after the last separator, unless that dot only
      continues the dots that begin the file name. */
  function SplitExt(path: string): (string, string) {
    var sepIndex := LastIndexIn(path, PathSeparators);
    var dotIndex := LastIndexIn(path, {'.'});
    if dotIndex > sepIndex && exists k :: sepIndex + 1 <= k < dotIndex && path[k] != '.' then
      (path[..dotIndex], path[dotIndex..])
    else (path, "")
  }

  /** The two parts put back together give the path; an extension is a dot
      followed by neither dots nor separators, it starts at the last dot of
      the path, and its stem names a file that does not consist of dots
      only. */
  lemma SplitExtParts(path: string)
    ensures SplitExt(path).0 + SplitExt(path).1 == path
    ensures var ext := SplitExt(path).1;
      ext == "" || (ext[0] == '.' && forall i :: 1 <= i < |ext| ==> ext[i] != '.' && ext[i] !in PathSeparators)
    ensures var (base, ext) := SplitExt(path);
      ext != "" ==> exists k :: 0 <= k < |base| && base[k] !in PathSeparators && base[k] != '.' &&
                              forall j :: k < j < |base| ==> base[j] !in PathSeparators
    ensures SplitExt(path).1 != "" ==> SplitExt(path).1 == path[LastIndexIn(path, {'.'})..]
  {
    var sepIndex := LastIndexIn(path, PathSeparators);
    var dotIndex := LastIndexIn(path, {'.'});
    if dotIndex > sepIndex && exists k :: sepIndex + 1 <= k < dotIndex && path[k] != '.' {
      var k :| sepIndex + 1 <= k < dotIndex && path[k] != '.';
      ExtensionShape(path, sepIndex, dotIndex, k);
    }
  }

  /** The parts cut at a dot after the last separator, with a character
      that is not a dot between them. */
  lemma ExtensionShape(path: string, sepIndex: int, dotIndex: int, k: int)
    requires -1 <= sepIndex < k < dotIndex < |path|
    requires path[k] != '.' && path[dotIndex] == '.'
    requires forall j :: sepIndex < j < |path| ==> path[j] !in PathSeparators
    requires forall j :: dotIndex < j < |path| ==> path[j] !in {'.'}
    ensures path[..dotIndex] + path[dotIndex..] == path
    ensures var ext := path[dotIndex..];
      ext[0] == '.' && forall i :: 1 <= i < |ext| ==> ext[i] != '.' && ext[i] !in PathSeparators
    ensures var base := path[..dotIndex];
      exists k :: 0 <= k < |base| && base[k] !in PathSeparators && base[k] != '.' &&
                forall j :: k < j < |base| ==> base[j] !in PathSeparators
  {
    var base, ext := path[..dotIndex], path[dotIndex..];
    forall i | 1 <= i < |ext| ensures ext[i] != '.' && ext[i] !in PathSeparators {
      assert ext[i] == path[dotIndex + i];
    }
    assert base[k] == path[k];
    forall j | k < j < |base| ensures base[j] !in PathSeparators {
      assert base[j] == path[j];
    }
  }

  lemma {:induction false} LastIndexNone(s: string, chars: set<char>)
    requires forall i :: 0 <= i < |s| ==> s[i] !in chars
    ensures LastIndexIn(s, chars) == -1
  {
    if s != [] {
      LastIndexNone(s[..|s| - 1], chars);
    }
  }

  lemma {:induction false} LastIndexAt(s: string, chars: set<char>, i: nat)
    requires i < |s| && s[i] in chars
    requires forall j :: i < j < |s| ==> s[j] !in chars
    ensures LastIndexIn(s, chars) == i
  {
    if i < |s| - 1 {
      LastIndexAt(s[..|s| - 1], chars, i);
    }
  }

  /** A plain file name "stem.ext" splits at its dot, as the default name
      "registrations.csv" does. */
  lemma SplitExtPlainName(stem: string, ext: string)
    requires stem != "" && stem[0] != '.'
    requires forall i :: 0 <= i < |stem| ==> stem[i] != '.' && stem[i] !in PathSeparators
    requires forall i :: 0 <= i < |ext| ==> ext[i] != '.' && ext[i] !in PathSeparators
    ensures SplitExt(stem + "." + ext) == (stem, "." + ext)
  {
    var path := stem + "." + ext;
    LastIndexNone(path, PathSeparators);
    LastIndexAt(path, {'.'}, |stem|);
    assert path[0] == stem[0];
    assert path[..|stem|] == stem && path[|stem|..] == "." + ext;
  }

  /** A name made of one leading dot and no other dot has no extension. */
  lemma SplitExtDotFile(name: string)
    requires forall i :: 0 <= i < |name| ==> name[i] != '.' && name[i] !in PathSeparators
    ensures SplitExt("." + name) == ("." + name, "")
  {
    var path := "." + name;
    LastIndexNone(path, PathSeparators);
    LastIndexAt(path, {'.'}, 0);
  }

  /** Whenever the file name after the last separator has a dot with a
      character that is not a dot before it, the extension is the text from
      the last dot on: "out\\a.b.csv" splits into "out\\a.b" and ".csv". */
  lemma SplitExtFound(dir: string, stem: string, ext: string)
    requires dir == "" || dir[|dir| - 1] in PathSeparators
    requires forall i :: 0 <= i < |stem| ==> stem[i] !in PathSeparators
    requires exists i :: 0 <= i < |stem| && stem[i] != '.'
    requires forall i :: 0 <= i < |ext| ==> ext[i] != '.' && ext[i] !in PathSeparators
    ensures SplitExt(dir + stem + "." + ext) == (dir + stem, "." + ext)
  {
    var path := dir + stem + "." + ext;
    var n := |dir| + |stem|;
    assert path[n] == '.';
    forall j | n < j < |path| ensures path[j] != '.' && path[j] !in PathSeparators {
      assert path[j] == ext[j - n - 1];
    }
    forall j | |dir| <= j < n ensures path[j] !in PathSeparators {
      assert path[j] == stem[j - |dir|];
    }
    if dir == "" {
      LastIndexNone(path, PathSeparators);
    } else {
      assert path[|dir| - 1] == dir[|dir| - 1];
      LastIndexAt(path, PathSeparators, |dir| - 1);
    }
    LastIndexAt(path, {'.'}, n);
    var i :| 0 <= i < |stem| && stem[i] != '.';
    assert path[|dir| + i] == stem[i];
    assert path[..n] == dir + stem;
    assert path[n..] == "." + ext;
  }

  /** `f"{base}_{timestamp}{ext}"` (line 261). */
  function MergedFileName(outputFilename: string, timestamp: string): string {
    var (base, ext) := SplitExt(outputFilename);
    base + "_" + timestamp + ext
  }

  /** The timestamp goes between the stem and the extension: the given name
      is recovered by removing "_" and the timestamp, and the extension stays
      at the end. */
  lemma MergedFileNameParts(outputFilename: string, timestamp: string)
    ensures var (base, ext) := SplitExt(outputFilename);
      && MergedFileName(outputFilename, timestamp) == base + "_" + timestamp + ext
      && base + ext == outputFilename
      && |MergedFileName(outputFilename, timestamp)| == |outputFilename| + 1 + |timestamp|
    ensures SplitExt(outputFilename).1 == "" ==>
      MergedFileName(outputFilename, timestamp) == outputFilename + "_" + timestamp
  {
    SplitExtParts(outputFilename);
  }

  /** `write_merged_output` with the clock reading as `timestamp`: the
      public rows, then the charter rows, under `Header`. */
  method WriteMergedOutput(publicStudents: seq<Row>, charterStudents: seq<Row>, outputFilename: string, timestamp: string)
    returns (file: CsvFile)
    ensures file.name == MergedFileName(outputFilename, timestamp)
    ensures file.header == Header
    ensures file.rows == publicStudents + charterStudents
    ensures |file.rows| == |publicStudents| + |charterStudents|
  {
    var mergedFilename := MergedFileName(outputFilename, timestamp);
    var mergedData: seq<Row> := [];
    if |publicStudents| > 0 {
      mergedData := mergedData + publicStudents;
    }
    if |charterStudents| > 0 {
      mergedData := mergedData + charterStudents;
    }
    file := CsvFile(mergedFilename, Header, mergedData);
  }
}
