# Registration pipeline of assessmentFactory, modelled in Dafny

This project models the registration tooling of the assessmentFactory
scripts. It covers three Python scripts under `Test-Registration/`:

- `createTAOFiles.py` loads a CSV roster of test registrations. It checks
  that the fourteen required columns are present, then runs six field
  checks on every row (course code, school DBN, student id, section, school
  year, term). It splits the rows into valid and rejected records, writes
  the rejects to `rejects_<timestamp>.csv`, and runs the account-creation
  steps selected by the `-s`/`-p`/`-a`/`-t` flags (all of them when no flag
  is given).
- `pullRegistrations.py` reads a list of exam codes, decides which school
  types to include (`-C`/`-P`), and queries the charter (ATS) and district
  (STARS) databases with one `?` placeholder per code. It reshapes each
  charter row into the fourteen-column layout with `transform_row` and
  writes the public rows, then the charter rows, to a timestamped merged
  CSV file.
- `pullUnifiedRosterLocal.py` runs one query per call through
  `pull_roster_data`, optionally transforms every row, picks the header,
  writes one CSV file and reports database errors by SQLSTATE.

Python values in a row are modelled by `Cells.Cell`: text, integers, `None`,
or any other value, which is truthy or not. An exception is a `Cells.PyError`
in a `Result`.

The files:

- `wrappers.dfy`: `Option` and `Result`.
- `cells.dfy`: cells, rows, exceptions, CSV files, and the list
  comprehension `[f(row) for row in rows]`.
- `pytext.dfy`: the `str` operations the scripts use (`strip`, `split`,
  `join`, slicing, `isdigit`, `str(int)`, `int(str)`), restricted to ASCII.
- `validators.dfy`: the six field checks, with a model of `re.match` for
  anchored patterns.
- `tao_registration.dfy`: `process_registrations` and the flag handling of
  `main`.
- `pull_registrations.dfy`: the argument handling, `transform_row`, the
  query parameters and `write_merged_output`, with `os.path.splitext`.
- `unified_roster.dfy`: `pull_roster_data` and its two calls. The
  `transform_row` of `pullUnifiedRosterLocal.py` (lines 74-111) is the same
  function as the one of `pullRegistrations.py` (lines 101-138), so both are
  modelled by `PullRegistrations.TransformRow`.
- `handoff.dfy`: how a merged file produced by the pull script meets the
  checks of `createTAOFiles.py`. It judges the cells as the transform builds
  them, not as `pd.read_csv` reads them back. pandas reads an all-digit
  `TermId` column back as integers, and `is_valid_term_id` rejects every
  integer, so even the intended checks reject such a row
  (`Handoff.ReadBackIntegerTermRejected`). This follows from the code, not
  from the model.

Where the code and the documented intent differ, the model follows the code:

- `is_valid_term_id` accepts only the texts "1", "2" and "3". The integers
  1, 2 and 3 are rejected (`Validators.TermIdIff`), although the docstring
  speaks of an integer.
- `is_valid_schoolyear` looks only at the length, the first two characters
  and the last two characters. It does not require the whole text to be
  digits (`Validators.SchoolYearStrIff`).
- `re.match` with `$` also accepts one trailing newline. The course-code
  and DBN checks therefore admit, for example, "ABC12\n"
  (`Validators.CourseCodeIff`).

Several lines of `createTAOFiles.py` raise an exception on the inputs listed
under "## Findings". With line 27 as written, no row is ever valid: a text
DBN raises NameError and any other DBN fails the check
(`TaoRegistration.AsWrittenNeverValid`). So `valid_records` is always empty,
and the faults of lines 188, 190 and 192 show up only once line 27 is
corrected. Each faulty line is modelled twice: once as written, with a lemma that
exhibits the failure, and once as evidently intended. The rest of the model
uses the intended version (see "## Findings"). In the intended version the
row loop reads the term from `TermId`, the spelling of the required list, both
in the check of line 151 and in the report of line 152.

## Model

| member | source | states |
|---|---|---|
| Cells.MapRows | Test-Registration/pullUnifiedRosterLocal.py:37-38 | the comprehension succeeds iff every row's transform succeeds; it then has one result per row, in order, each the transform of that row; otherwise it raises the first row's exception |
| PyText.Strip | Test-Registration/pullRegistrations.py:75-76 | the result has no surrounding whitespace, leaves already-stripped text unchanged, is empty iff the text is all whitespace, and has only characters of the input |
| PyText.StripSlice | Test-Registration/pullRegistrations.py:75-76 | `strip` returns a contiguous slice of its input with only whitespace before and after it |
| PyText.StripUnique | Test-Registration/pullRegistrations.py:75-76 | a text that is whitespace, then a stripped middle, then whitespace, strips to that middle |
| PyText.StripPadding | Test-Registration/pullRegistrations.py:75-76 | whitespace added at either end does not change the result of `strip` |
| PyText.SplitStripped | Test-Registration/pullRegistrations.py:76 | splitting a text or its stripped form at a non-space separator gives the same number of pieces, and the pieces strip to the same texts |
| PyText.Split | Test-Registration/pullRegistrations.py:109 | `split` gives at least one part, and no part contains the separator |
| PyText.SplitCount | Test-Registration/pullRegistrations.py:109-110 | `split` gives one more part than there are separators, so two parts means exactly one comma |
| PyText.SplitAtOnlySeparator | Test-Registration/pullRegistrations.py:109-112 | with exactly one separator, the two parts are the text before it and the text after it |
| PyText.JoinSplit | Test-Registration/pullRegistrations.py:164 | joining the parts of a split with the same separator gives back the text |
| PyText.SplitJoin | Test-Registration/pullRegistrations.py:164 | splitting a join of separator-free parts gives back the parts |
| PyText.Take | Test-Registration/pullRegistrations.py:120 | `s[:n]` has length min(len(s), n) and is a prefix of `s` |
| PyText.NatTextValue | Test-Registration/createTAOFiles.py:37 | the decimal digits of a number denote that number |
| PyText.ParseIntDecimalText | Test-Registration/createTAOFiles.py:47 | `int(str(n)) == n` (`ParseInt` of `DecimalText`) for every integer, negatives included |
| PyText.ParseIntDigits | Test-Registration/createTAOFiles.py:47 | `int(s)` (`ParseInt`) reads a run of digits as its value, also with a `+` in front, and with a `-` in front as its negation |
| PyText.ParseIntPadded | Test-Registration/createTAOFiles.py:47 | `int` (`ParseInt`) ignores the whitespace it skips, tab through carriage return and the space, around its argument |
| PyText.ParseIntSeparatorSpace | Test-Registration/createTAOFiles.py:47 | "\x1c5" strips to "5", yet `int` (`ParseInt`) fails on it, while it reads " 5" as 5 |
| PyText.ParseIntForeignChar | Test-Registration/createTAOFiles.py:47-50 | a character that is not a digit, a sign or whitespace that `int` skips makes `int` (`ParseInt`) fail; this includes the information separators 0x1C-0x1F, which `strip` removes but `int` does not |
| PyText.NatTextLength | Test-Registration/createTAOFiles.py:37-38 | for k ≥ 1, a number has k+1 digits iff it lies in 10^k .. 10^(k+1)-1 |
| Validators.AnchoredMatchIff | Test-Registration/createTAOFiles.py:17 | an anchored match of single-character classes holds iff the text has the pattern's length (or one more, ending in a newline) and each character is in its class |
| Validators.CourseCodeIff | Test-Registration/createTAOFiles.py:10-17 | a course code is valid iff it is text of five ASCII letters or digits, optionally followed by one newline; non-text is rejected |
| Validators.SchoolDbnAsWrittenRaises | Test-Registration/createTAOFiles.py:19-27 | as written, every text DBN, "10M999" included, raises NameError 'value', because `value` is undefined; non-text gives False (`IsValidSchoolDbnAsWritten`) |
| Validators.SchoolDbnIff | Test-Registration/createTAOFiles.py:19-27 | as intended, a DBN is valid iff it is text of two digits, one of M X Q K R, and three digits, optionally followed by a newline |
| Validators.StudentIdIntIff | Test-Registration/createTAOFiles.py:30-38 | an integer student id is valid iff it is 100000000..999999999 |
| Validators.StudentIdLeadingZero | Test-Registration/createTAOFiles.py:34-38 | nine digits starting with 0 pass as text, but the integer they denote fails |
| Validators.SectionTextAgrees | Test-Registration/createTAOFiles.py:40-50 | a number and its decimal text get the same section verdict |
| Validators.SectionDigitsIff | Test-Registration/createTAOFiles.py:40-50 | a text of digits is a valid section iff its value is at most 99; with a `+` in front likewise; with a `-` in front only if its value is 0 |
| Validators.SectionPadded | Test-Registration/createTAOFiles.py:47-50 | whitespace that `int` skips (tab through carriage return, and the space) around a text section never changes the verdict |
| Validators.SectionRejectsForeignChar | Test-Registration/createTAOFiles.py:46-50 | a text with a character that is not a digit, a sign or whitespace that `int` skips is rejected, because `int` raises ValueError, which the check catches; so "\x1c5" is rejected although " 5" passes |
| Validators.SchoolYearAsWrittenRaises | Test-Registration/createTAOFiles.py:52-58 | as written, `len` raises TypeError "object of type 'int' has no len()" for every integer year (2025 included); on other values the written and intended checks agree (`IsValidSchoolYearAsWritten`) |
| Validators.SchoolYearStrIff | Test-Registration/createTAOFiles.py:58 | a text year is valid iff it has at least four characters, starts with "20" and ends in two digits |
| Validators.SchoolYearIntRange | Test-Registration/createTAOFiles.py:52-58 | as intended, every integer year 2000..2099 is valid, judged by its four-character decimal text |
| Validators.TermIdIff | Test-Registration/createTAOFiles.py:60-66 | a term is valid iff it is the text "1", "2" or "3"; no integer is valid |
| TaoRegistration.MissingFrom | Test-Registration/createTAOFiles.py:126 | a column is in the missing list iff it is required and not present |
| TaoRegistration.MissingInRequiredOrder | Test-Registration/createTAOFiles.py:126 | the missing list keeps exactly the absent required names, in the order of the required list |
| TaoRegistration.AbortIffMissing | Test-Registration/createTAOFiles.py:122-128 | the run aborts iff the reported list of missing columns is non-empty, and the list names exactly the absent required columns |
| TaoRegistration.IndexOf | Test-Registration/createTAOFiles.py:136 | `row[name]` reads the position of a column with that name |
| TaoRegistration.IndexOfAt | Test-Registration/createTAOFiles.py:136 | a column name is read at the position of its first occurrence |
| TaoRegistration.RowCheckAsWrittenRaises | Test-Registration/createTAOFiles.py:134-153 | as written, a row raises NameError when its DBN is text; a non-text DBN with an integer year raises TypeError; any other row raises KeyError 'termID' when that column is absent (`CheckRowAsWritten`) |
| TaoRegistration.AsWrittenNeverValid | Test-Registration/createTAOFiles.py:134-153 | as written, no row of a file with the required columns is ever found valid: because of line 27 it raises or fails a check (`CheckRowAsWritten`) |
| TaoRegistration.TermReportRaises | Test-Registration/createTAOFiles.py:151-152 | as written, in a file with a `termID` column and no `TermID` column, a row that reaches the term check with an invalid term raises KeyError 'TermID' at the report (`CheckRowAsWritten`) |
| TaoRegistration.TermColumnSpelling | Test-Registration/createTAOFiles.py:123 | the required list names `TermId` and not the `termID` that line 151 reads |
| TaoRegistration.RequiredOnlyFileRaises | Test-Registration/createTAOFiles.py:122-153 | as written, every row of a file whose columns are exactly the required ones raises (`CheckRowAsWritten`) |
| TaoRegistration.PartitionIsPermutation | Test-Registration/createTAOFiles.py:130-159 | the valid and the rejected records together are the input rows as a multiset; every valid record passes all six checks and every rejected record fails one |
| TaoRegistration.PartitionMembership | Test-Registration/createTAOFiles.py:154-158 | an input row is among the valid records iff it passes the checks, and among the rejected records iff it fails them |
| TaoRegistration.PartitionAppend | Test-Registration/createTAOFiles.py:134-158 | the verdict on a row does not depend on the other rows: the partition of a concatenation is the concatenation of the partitions, in order |
| TaoRegistration.PartitionStep | Test-Registration/createTAOFiles.py:154-158 | one more row is appended to the valid records iff it passes, and to the rejected records iff it fails |
| TaoRegistration.CheckRow | Test-Registration/createTAOFiles.py:135-153 | the six sequential checks leave the flag true iff the row passes all six (the intended checks, with the term read from `TermId`) |
| TaoRegistration.Partition | Test-Registration/createTAOFiles.py:130-159 | the loop yields the valid records and the rejected records, each in input order, and a count equal to the number of rejects; valid plus rejected is the total |
| TaoRegistration.Dispatch | Test-Registration/createTAOFiles.py:183-194 | as intended, nothing runs without valid records; otherwise groups run first, and each account kind runs iff its flag is set |
| TaoRegistration.DispatchInSourceOrder | Test-Registration/createTAOFiles.py:184-192 | the steps are distinct and in the order of the calls: groups, students, proctors, admins, tickets |
| TaoRegistration.ProctorCallRaises | Test-Registration/createTAOFiles.py:187-188 | as written (`DispatchAsWritten`), any run with valid records that asks for proctors raises TypeError "create_proctor_accounts() takes 0 positional arguments but 1 was given" after the group and student steps; valid records exist only once line 27 is corrected |
| TaoRegistration.TicketCallRaises | Test-Registration/createTAOFiles.py:191-192 | as written, a run with valid records that asks for tickets without proctors or admins raises TypeError, because `create_tickets` is the boolean parameter; valid records exist only once line 27 is corrected (`DispatchAsWritten`) |
| TaoRegistration.DispatchAsWrittenAgrees | Test-Registration/createTAOFiles.py:183-194 | as written, a run finishes iff it has no valid records or asks for none of proctors, admins and tickets; it then runs the intended steps (`DispatchAsWritten`) |
| TaoRegistration.ResolveFlags | Test-Registration/createTAOFiles.py:212-217 | no flag means all four outputs; otherwise exactly the flags given; at least one output is always selected |
| TaoRegistration.DefaultRunAsWrittenRaises | Test-Registration/createTAOFiles.py:183-192 | as written, a default run with valid records does groups and students, then raises at the proctor call; valid records exist only once line 27 is corrected (`DispatchAsWritten`) |
| TaoRegistration.ProcessRegistrations | Test-Registration/createTAOFiles.py:104-194 | each load failure and a missing column abort with their reason; otherwise the counts are those of the partition, a rejects file with the table's columns and the rejected rows exists iff a row was rejected, and the steps are the dispatch for the valid count |
| PullRegistrations.SplitNameIff | Test-Registration/pullRegistrations.py:107-115 | with exactly one comma, the last name is the stripped text before it and the first name the stripped text after it; otherwise the whole stripped name is the first name and the last name is empty (`SplitName`) |
| PullRegistrations.TransformRow | Test-Registration/pullRegistrations.py:101-138 | the errors come in reading order (short row, unsplittable name, row shorter than 10, unsliceable year); a result has 14 fields in header order: the source fields copied, four blanks, the split names, the defaulted section and the truncated year |
| PullRegistrations.TransformNames | Test-Registration/pullRegistrations.py:108-115 | the names of a transformed row follow the comma rule, and a falsy name gives two empty names |
| PullRegistrations.YearTruncated | Test-Registration/pullRegistrations.py:120 | the year is the first min(4, len) characters of the source text, or "" for a falsy value; only a truthy non-text value fails |
| PullRegistrations.CodeSet | Test-Registration/pullRegistrations.py:76 | the codes are exactly the stripped pieces that are not empty: every non-empty stripped piece is a code, every code is some piece stripped, and no code is empty, unstripped, or has a comma when no piece has one |
| PullRegistrations.CodeSetSameStrips | Test-Registration/pullRegistrations.py:76 | pieces that strip to the same texts give the same codes |
| PullRegistrations.ParseTestCodesUnstripped | Test-Registration/pullRegistrations.py:75-76 | stripping the whole content before the split changes no code |
| PullRegistrations.ParsePaddedCodes | Test-Registration/pullRegistrations.py:74-76 | comma-free items joined with commas read back as their stripped texts, the blank ones dropped, whatever whitespace surrounds them |
| PullRegistrations.CodeSetOfCodes | Test-Registration/pullRegistrations.py:76 | pieces that are already non-empty and stripped are exactly the codes |
| PullRegistrations.ParseTestCodes | Test-Registration/pullRegistrations.py:74-76 | every code read from the test list is non-empty, stripped and comma-free |
| PullRegistrations.ParseJoinedCodes | Test-Registration/pullRegistrations.py:74-76 | a list of codes joined with commas reads back as the set of those codes |
| PullRegistrations.BlankTestList | Test-Registration/pullRegistrations.py:75-76 | a blank test list gives no codes |
| PullRegistrations.SelectSchoolTypes | Test-Registration/pullRegistrations.py:79-90 | both switches or neither include both types; one switch alone includes only its type; at least one type is always included |
| PullRegistrations.ParseArguments | Test-Registration/pullRegistrations.py:13-98 | a missing `--testlist` or a missing file ends the run; otherwise the options hold the selected types, the given year (default this year), the given output (default registrations.csv) and the parsed test codes |
| PullRegistrations.Repeat | Test-Registration/pullRegistrations.py:164 | `[x] * n` has n elements, all equal to x |
| PullRegistrations.PlaceholdersShape | Test-Registration/pullRegistrations.py:164 | the placeholder text alternates '?' and ',', has n markers and n-1 commas, and is empty for no codes |
| PullRegistrations.PlaceholdersSplit | Test-Registration/pullRegistrations.py:164 | for one or more codes, splitting the placeholder text at commas gives one "?" per code |
| PullRegistrations.ListsOnceSize | Test-Registration/pullRegistrations.py:163 | `list(test_codes)` has one element per code of the set |
| PullRegistrations.ParamsMatchMarkers | Test-Registration/pullRegistrations.py:163-189 | for a listing of the code set, each query gets exactly one parameter per '?' marker, one more (ATS) or two more (STARS) than there are codes, with every code once, in list order, after the year parameters (`AtsParams`, `StarsParams`) |
| PullRegistrations.AtsYearText | Test-Registration/pullRegistrations.py:189 | for a four-digit year, the ATS year parameter is eight digits whose first four are the year (`AtsParams`) |
| PullRegistrations.QueryStudentData | Test-Registration/pullRegistrations.py:141-247 | the run raises iff a fetched charter row cannot be transformed; otherwise the charter rows are the transforms of the fetched rows, the public rows are as fetched, a database error leaves its type empty, and each selected type records one query with its parameters, whether or not its connection succeeds |
| PullRegistrations.CharterRowsFitHeader | Test-Registration/pullRegistrations.py:194 | every transformed charter row has the 14 columns of the header |
| PullRegistrations.LastIndexIn | Test-Registration/pullRegistrations.py:260 | the index found is the last character in the set, or -1 when there is none |
| PullRegistrations.SplitExtParts | Test-Registration/pullRegistrations.py:260 | `splitext` parts concatenate to the path; an extension is a dot followed by neither dots nor separators, after a stem that is not only dots, and it starts at the last dot of the path (`SplitExt`) |
| PullRegistrations.SplitExtPlainName | Test-Registration/pullRegistrations.py:260 | "stem.ext" splits into "stem" and ".ext" (`SplitExt`) |
| PullRegistrations.SplitExtFound | Test-Registration/pullRegistrations.py:260 | when the file name after the last separator has a dot with a character other than a dot before it, the extension is the text from the last dot on, and the stem is everything before it (`SplitExt`) |
| PullRegistrations.SplitExtDotFile | Test-Registration/pullRegistrations.py:260 | a name with one leading dot and no other dot has no extension (`SplitExt`) |
| PullRegistrations.MergedFileNameParts | Test-Registration/pullRegistrations.py:259-261 | the timestamp goes between the stem and the extension; without an extension it is appended (`MergedFileName`) |
| PullRegistrations.WriteMergedOutput | Test-Registration/pullRegistrations.py:250-272 | the merged file has the timestamped name and the 14-column header, and holds the public rows followed by the charter rows |
| UnifiedRoster.SelectHeader | Test-Registration/pullUnifiedRosterLocal.py:44-49 | a given header is used; without one, the cursor's column names when there is no transform, and ValueError when there is |
| UnifiedRoster.PullRosterData | Test-Registration/pullUnifiedRosterLocal.py:25-66 | SQLSTATE 28000 is an authentication failure and other database errors are reported as such; a transform exception ends the call; a file is written iff the rows transform and a header is found, and it holds that header and the transformed rows |
| UnifiedRoster.TransformKeepsRows | Test-Registration/pullUnifiedRosterLocal.py:37-38 | with a transform, the written rows are the transforms of the fetched rows, one for one, in order |
| UnifiedRoster.TransformNeedsHeader | Test-Registration/pullUnifiedRosterLocal.py:44-49 | a transform without a header never writes, and fails with ValueError when every row transforms |
| UnifiedRoster.CharterCall | Test-Registration/pullUnifiedRosterLocal.py:143 | the charter call writes iff every fetched row transforms, and then writes one 14-field row per fetched row under the 14-column header |
| UnifiedRoster.DistrictCall | Test-Registration/pullUnifiedRosterLocal.py:172 | the district call writes the fetched table under the cursor's column names |
| Handoff.MergedHeaderIsRequired | Test-Registration/pullRegistrations.py:255-258 | the merged file's header is exactly the required column list, so it never aborts for missing columns |
| Handoff.SectionColumnOfMergedRow | Test-Registration/pullRegistrations.py:129 | in a merged file, the `AssignedSectionId` column of a transformed row is the transform's section field |
| Handoff.TransformedSectionPasses | Test-Registration/pullRegistrations.py:118 | a transformed row passes the section check iff its source section was blank or already valid; a blank section passes as "99" |
| Handoff.TransformedAtsYearPasses | Test-Registration/pullRegistrations.py:120 | a charter row carrying the ATS year parameter of a year 2000..2099 is truncated to that year, which passes the school-year check |
| Handoff.ReadBackIntegerTermRejected | Test-Registration/createTAOFiles.py:60-66 | a merged row whose `TermId` is read back as an integer fails the intended row check |
| Handoff.MergedFileRaisesAsWritten | Test-Registration/createTAOFiles.py:151 | as written, the row loop raises on every row of a merged file |

## Left out

- Database access (pyodbc connections, cursors, the SQL text and its
  filters) is left out. The outcome of each query is a parameter: the
  fetched rows, or an error with its SQLSTATE.
- Reading and writing files is left out. A written CSV file is a value
  holding its name, header and rows. So are `os.path.exists`, the pandas
  `read_csv` errors (given as the load outcome) and the exception handler
  around `to_csv` (lines 173-177).
- argparse itself is left out. The model starts from the values it would
  give: the switches, the optional year and output name, and whether the
  test list was given and found.
- The clock is left out. `datetime.now()` becomes a `timestamp` (or
  `currentYear`) parameter, and the format of `strftime` is not modelled.
- The roster script's file names (folder path, prefix and timestamp) are
  not modelled. Each call takes its output name as a parameter.
- Output from `print` is left out. This includes the diagnostic of line 245,
  which names the ATS server for a STARS failure, and the row numbers of
  lines 137-159.
- The `create_*` functions of lines 72-100 only print. A step is recorded
  by name, and the files they are meant to produce are not modelled.
- The order of `list(test_codes)` depends on set iteration order. It is a
  parameter: a sequence that lists each code of the set once.
- Strings are ASCII only: `strip`, `isdigit` (line 38) and the regex class
  `\d` (line 26) follow their ASCII behaviour. `int()` accepts an optional sign and surrounding
  whitespace, but not Unicode digits or the `_` digit separator. Its
  whitespace is narrower than that of `strip`: `int()` skips only tab
  through carriage return and the space, not the information separators
  0x1C-0x1F (`PyText.IsIntSpace` against `PyText.IsSpace`).
- pandas type inference is left out. A cell arrives already typed as text,
  integer, `None` or another value. A float cell (such as a section read as
  5.0) falls under "another value".
- Other values: a truthy value that is neither text nor an integer is
  treated as having no `split` and no slicing, so it raises in the row
  transform.
- `os.path.splitext` follows the Windows rules of `ntpath`: both `\` and
  `/` separate path components, and a drive colon is not treated specially.
- PullRegistrations.QueryStudentData: a query counts as sent when its school
  type is selected, even if the connection then fails; the model does not
  distinguish a query that reached the database from one that did not.
- PullRegistrations.QueryStudentData: it does not model that a row of a
  successful charter query is a pyodbc `Row` object. It is a sequence of
  cells.
- The `main` functions only wire the parts together. How they pass the
  options along is not modelled beyond the members above.

## Findings

| source | as written | input that shows it | evidently intended | confidence | as-written member | corrected member |
|---|---|---|---|---|---|---|
| Test-Registration/createTAOFiles.py:27 | `re.match(pattern, value)` names an undefined variable | any text DBN, such as "10M999" | match the parameter `dbn` | not executed | Validators.SchoolDbnAsWrittenRaises | Validators.SchoolDbnIff |
| Test-Registration/createTAOFiles.py:58 | `len(schoolyear)` is applied to an `int` that passed the isinstance test | the integer year 2025 | judge the decimal text of an integer year | not executed | Validators.SchoolYearAsWrittenRaises | Validators.SchoolYearIntRange |
| Test-Registration/createTAOFiles.py:151 | `row['termID']` reads a column the required list spells `TermId` | a row of a file with exactly the required columns whose DBN is not text and whose year is not an integer (a text DBN raises at line 139 first) | read `row['TermId']` | not executed | TaoRegistration.RowCheckAsWrittenRaises | TaoRegistration.CheckRow |
| Test-Registration/createTAOFiles.py:152 | the report of an invalid term reads `row['TermID']`, a third spelling | a file with a `termID` column and no `TermID` column, and a row whose DBN is not text, whose year is not an integer and whose term is invalid | read `row['TermId']` | not executed | TaoRegistration.TermReportRaises | TaoRegistration.CheckRow |
| Test-Registration/createTAOFiles.py:188 | `create_proctor_accounts(valid_records)` passes an argument to a function that takes none | once line 27 is corrected: one valid record with the proctor flag (the default flags included) | call it with no argument | not executed | TaoRegistration.ProctorCallRaises | TaoRegistration.Dispatch |
| Test-Registration/createTAOFiles.py:190 | `create_admin_accounts(valid_records)` passes an argument to a function that takes none | once line 27 is corrected: one valid record with only the admin flag | call it with no argument | not executed | TaoRegistration.DispatchAsWrittenAgrees | TaoRegistration.Dispatch |
| Test-Registration/createTAOFiles.py:192 | `create_tickets()` calls the boolean parameter, which hides the function of line 96 | once line 27 is corrected: one valid record with only the ticket flag | call the ticket function | not executed | TaoRegistration.TicketCallRaises | TaoRegistration.Dispatch |
