/** `process_registrations` and the flag handling of `main` in
    createTAOFiles.py: the required-column check, the partition of the rows
    into valid and rejected records, the rejects file, and which account
    steps run. The `create_*` functions are print-only stubs, so a step is
    recorded by name. */
module TaoRegistration {
  import opened Wrappers
  import opened Cells
  import opened Validators

  // ---------------------------------------------------------------------
  // The loaded table and the required columns (lines 113-128)

  /** A table as pandas loads it: column names and rows of cells. */
  datatype Table = Table(columns: seq<string>, rows: seq<Row>)

  /** How reading the input file ended (lines 109-120). */
  datatype Load = FileMissing | EmptyData | ParserError | Loaded(table: Table)

  const RequiredColumns: seq<string> := [
    "CourseCode", "SchoolDBN", "FirstName", "LastName", "StudentID", "AssignedSectionId",
    "LEPFlag", "GradeLevel", "CreatedDate", "UpdatedDate", "SchoolYear", "TermId", "GUID",
    "StudentDOEEmail"
  ]

  /** `all(col in df.columns for col in required_cols)`. */
  predicate HasRequiredColumns(columns: seq<string>) {
    forall c :: c in RequiredColumns ==> c in columns
  }

  /** `[col for col in required if col not in columns]`. */
  function MissingFrom(required: seq<string>, columns: seq<string>): (missing: seq<string>)
    ensures |missing| <= |required|
    ensures forall c :: c in missing <==> c in required && c !in columns
  {
    if required == [] then []
    else
      (if required[0] in columns then [] else [required[0]]) + MissingFrom(required[1..], columns)
  }

  /** The missing required columns, in the order of the required list. */
  function MissingColumns(columns: seq<string>): seq<string> {
    MissingFrom(RequiredColumns, columns)
  }

  /** The run aborts (line 125) exactly when the list it reports is non-empty,
      and the list names precisely the required columns that are absent. */
  lemma AbortIffMissing(columns: seq<string>)
    ensures !HasRequiredColumns(columns) <==> MissingColumns(columns) != []
    ensures forall c :: c in MissingColumns(columns) <==> c in RequiredColumns && c !in columns
  {
    if !HasRequiredColumns(columns) {
      var c :| c in RequiredColumns && c !in columns;
      assert c in MissingColumns(columns);
    }
    if MissingColumns(columns) != [] {
      var c := MissingColumns(columns)[0];
      assert c in RequiredColumns && c !in columns;
    }
  }

  // ---------------------------------------------------------------------
  // Row lookup and the row verdict (lines 135-153)

  function IndexOf(columns: seq<string>, name: string): (i: nat)
    requires name in columns
    ensures i < |columns| && columns[i] == name
  {
    if columns[0] == name then 0 else 1 + IndexOf(columns[1..], name)
  }

  /** A name is found at the position of its first occurrence. */
  lemma {:induction false} IndexOfAt(columns: seq<string>, i: nat)
    requires i < |columns| && columns[i] !in columns[..i]
    ensures IndexOf(columns, columns[i]) == i
  {
    if i > 0 {
      assert columns[0] != columns[i] by {
        assert columns[0] == columns[..i][0];
      }
      assert columns[1..][i - 1] == columns[i];
      assert columns[1..][..i - 1] == columns[..i][1..];
      IndexOfAt(columns[1..], i - 1);
    }
  }

  /** `row[name]` for a column of the table; the model gives `Null` for a name
      that is not a column (callers check the columns first). */
  function Lookup(columns: seq<string>, row: Row, name: string): Cell {
    if name in columns && IndexOf(columns, name) < |row| then row[IndexOf(columns, name)] else Null
  }

  /** A row is valid iff all six field checks pass (lines 136-153, with the
      term read from the `TermId` column that line 123 requires). */
  predicate RowIsValid(columns: seq<string>, row: Row) {
    IsValidCourseCode(Lookup(columns, row, "CourseCode")) &&
    IsValidSchoolDbn(Lookup(columns, row, "SchoolDBN")) &&
    IsValidStudentId(Lookup(columns, row, "StudentID")) &&
    IsValidAssignedSectionId(Lookup(columns, row, "AssignedSectionId")) &&
    IsValidSchoolYear(Lookup(columns, row, "SchoolYear")) &&
    IsValidTermId(Lookup(columns, row, "TermId"))
  }

  /** The row loop as written evaluates all six checks in order, without
      short-circuit: line 139 raises NameError for a text DBN, line 148 raises
      TypeError for an integer year, line 151 reads the column `termID`, and
      line 152 reads `TermID` to report an invalid term. */
  function CheckRowAsWritten(columns: seq<string>, row: Row): Result<bool, PyError>
    requires HasRequiredColumns(columns) && |row| == |columns|
  {
    var course := IsValidCourseCode(Lookup(columns, row, "CourseCode"));
    var dbn :- IsValidSchoolDbnAsWritten(Lookup(columns, row, "SchoolDBN"));
    var id := IsValidStudentId(Lookup(columns, row, "StudentID"));
    var section := IsValidAssignedSectionId(Lookup(columns, row, "AssignedSectionId"));
    var year :- IsValidSchoolYearAsWritten(Lookup(columns, row, "SchoolYear"));
    if "termID" !in columns then Err(KeyError("termID"))
    else
      var term := IsValidTermId(Lookup(columns, row, "termID"));
      if !term && "TermID" !in columns then Err(KeyError("TermID"))
      else Ok(course && dbn && id && section && year && term)
  }

  /** As written, a row of a file with the required columns raises NameError
      whenever its DBN is text, even if an earlier check already failed; a row
      whose DBN is not text and whose year is not an integer raises KeyError
      at line 151, unless the file also has a `termID` column. */
  lemma RowCheckAsWrittenRaises(columns: seq<string>, row: Row)
    requires HasRequiredColumns(columns) && |row| == |columns|
    ensures Lookup(columns, row, "SchoolDBN").Str? ==>
      CheckRowAsWritten(columns, row) == Err(NameError("value"))
    ensures (!Lookup(columns, row, "SchoolDBN").Str? && !Lookup(columns, row, "SchoolYear").Int? &&
             "termID" !in columns) ==> CheckRowAsWritten(columns, row) == Err(KeyError("termID"))
    ensures (!Lookup(columns, row, "SchoolDBN").Str? && Lookup(columns, row, "SchoolYear").Int?) ==>
      CheckRowAsWritten(columns, row) == Err(TypeError("object of type 'int' has no len()"))
  {
  }

  /** As written, no row is ever found valid: a text DBN raises at line 139
      and any other DBN fails its check, so `valid_records` stays empty and
      lines 184-192 are never reached until line 27 is corrected. */
  lemma AsWrittenNeverValid(columns: seq<string>, row: Row)
    requires HasRequiredColumns(columns) && |row| == |columns|
    ensures CheckRowAsWritten(columns, row) != Ok(true)
  {
    var dbn := Lookup(columns, row, "SchoolDBN");
    assert dbn.Str? ==> IsValidSchoolDbnAsWritten(dbn).Err?;
    assert !dbn.Str? ==> IsValidSchoolDbnAsWritten(dbn) == Ok(false);
  }

  /** Line 152 reads yet another spelling, `TermID`, to report an invalid
      term: in a file that has a `termID` column but no `TermID` column, a row
      that gets that far with an invalid term raises KeyError. */
  lemma TermReportRaises(columns: seq<string>, row: Row)
    requires HasRequiredColumns(columns) && |row| == |columns|
    requires "termID" in columns && "TermID" !in columns
    requires !Lookup(columns, row, "SchoolDBN").Str? && !Lookup(columns, row, "SchoolYear").Int?
    requires !IsValidTermId(Lookup(columns, row, "termID"))
    ensures CheckRowAsWritten(columns, row) == Err(KeyError("TermID"))
  {
  }

  /** Line 151 spells the term column differently from the required list. */
  lemma TermColumnSpelling()
    ensures "TermId" in RequiredColumns && "termID" !in RequiredColumns
  {
    assert RequiredColumns[11] == "TermId";
    forall k | 0 <= k < |RequiredColumns| ensures RequiredColumns[k] != "termID" {
      assert RequiredColumns[k][0] != 't';
    }
  }

  /** A file whose columns are exactly the required ones makes the loop as
      written raise on every row. */
  lemma RequiredOnlyFileRaises(row: Row)
    requires |row| == |RequiredColumns|
    ensures HasRequiredColumns(RequiredColumns)
    ensures CheckRowAsWritten(RequiredColumns, row).Err?
  {
    TermColumnSpelling();
    RowCheckAsWrittenRaises(RequiredColumns, row);
  }

  // ---------------------------------------------------------------------
  // The partition (lines 130-159)

  /** The elements of `xs` that `keep` accepts, in their original order. */
  function Keep<T>(keep: T -> bool, xs: seq<T>): (r: seq<T>)
    ensures |r| <= |xs|
  {
    if xs == [] then []
    else
      var last := xs[|xs| - 1];
      Keep(keep, xs[..|xs| - 1]) + (if keep(last) then [last] else [])
  }

  /** The elements of `xs` that `keep` refuses, in their original order. */
  function Drop<T>(keep: T -> bool, xs: seq<T>): (r: seq<T>)
    ensures |r| <= |xs|
  {
    if xs == [] then []
    else
      var last := xs[|xs| - 1];
      Drop(keep, xs[..|xs| - 1]) + (if keep(last) then [] else [last])
  }

  lemma {:induction false} KeepDropPermutation<T>(keep: T -> bool, xs: seq<T>)
    ensures multiset(Keep(keep, xs)) + multiset(Drop(keep, xs)) == multiset(xs)
  {
    if xs != [] {
      var init, last := xs[..|xs| - 1], xs[|xs| - 1];
      KeepDropPermutation(keep, init);
      assert xs == init + [last];
    }
  }

  /** Every kept element is one of `xs` that `keep` accepts, and every
      dropped one is one of `xs` that `keep` refuses. */
  lemma {:induction false} KeepDropMembers<T>(keep: T -> bool, xs: seq<T>)
    ensures forall x :: x in Keep(keep, xs) ==> x in xs && keep(x)
    ensures forall x :: x in Drop(keep, xs) ==> x in xs && !keep(x)
  {
    if xs != [] {
      var init := xs[..|xs| - 1];
      KeepDropMembers(keep, init);
      assert xs == init + [xs[|xs| - 1]];
    }
  }

  /** The test of line 124: a name that is not a column. */
  function AbsentFrom(columns: seq<string>): string -> bool {
    (c: string) => c !in columns
  }

  /** The reported list keeps the required names that are absent, in the
      order of the required list: the list comprehension of line 124. */
  lemma {:induction false} MissingInRequiredOrder(required: seq<string>, columns: seq<string>)
    ensures MissingFrom(required, columns) == Keep(AbsentFrom(columns), required)
    decreases |required|
  {
    if required != [] {
      var head, rest := required[0], required[1..];
      MissingInRequiredOrder(rest, columns);
      assert required == [head] + rest;
      KeepAppend(AbsentFrom(columns), [head], rest);
      assert [head][..0] == [];
      assert Keep(AbsentFrom(columns), [head]) == (if head in columns then [] else [head]);
    }
  }

  /** One more element extends the kept list by it iff it is accepted. */
  lemma KeepDropSnoc<T>(keep: T -> bool, xs: seq<T>, x: T)
    ensures Keep(keep, xs + [x]) == Keep(keep, xs) + (if keep(x) then [x] else [])
    ensures Drop(keep, xs + [x]) == Drop(keep, xs) + (if keep(x) then [] else [x])
  {
    assert (xs + [x])[..|xs|] == xs;
  }

  lemma {:induction false} KeepAppend<T>(keep: T -> bool, a: seq<T>, b: seq<T>)
    ensures Keep(keep, a + b) == Keep(keep, a) + Keep(keep, b)
    decreases |b|
  {
    if b == [] {
      assert a + b == a;
    } else {
      var init, last := b[..|b| - 1], b[|b| - 1];
      var ab := a + b;
      assert ab[..|ab| - 1] == a + init;
      assert ab[|ab| - 1] == last;
      KeepAppend(keep, a, init);
      var tail := if keep(last) then [last] else [];
      calc {
        Keep(keep, ab);
        Keep(keep, a + init) + tail;
        Keep(keep, a) + Keep(keep, init) + tail;
        Keep(keep, a) + (Keep(keep, init) + tail);
      }
    }
  }

  lemma {:induction false} DropAppend<T>(keep: T -> bool, a: seq<T>, b: seq<T>)
    ensures Drop(keep, a + b) == Drop(keep, a) + Drop(keep, b)
    decreases |b|
  {
    if b == [] {
      assert a + b == a;
    } else {
      var init, last := b[..|b| - 1], b[|b| - 1];
      var ab := a + b;
      assert ab[..|ab| - 1] == a + init;
      assert ab[|ab| - 1] == last;
      DropAppend(keep, a, init);
      var tail := if keep(last) then [] else [last];
      calc {
        Drop(keep, ab);
        Drop(keep, a + init) + tail;
        Drop(keep, a) + Drop(keep, init) + tail;
        Drop(keep, a) + (Drop(keep, init) + tail);
      }
    }
  }

  /** The row verdict as a function value, shared by both lists. */
  function ValidIn(columns: seq<string>): Row -> bool {
    (row: Row) => RowIsValid(columns, row)
  }

  /** `valid_records` after the loop: the valid rows, in their original order. */
  function ValidRows(columns: seq<string>, rows: seq<Row>): seq<Row> {
    Keep(ValidIn(columns), rows)
  }

  /** `rejected_records` after the loop: the rejected rows, in their original order. */
  function RejectedRows(columns: seq<string>, rows: seq<Row>): seq<Row> {
    Drop(ValidIn(columns), rows)
  }

  /** Every row lands in exactly one of the two lists: together they hold
      each row as often as the input does, every valid record passes all six
      checks and every rejected record fails one. */
  lemma PartitionIsPermutation(columns: seq<string>, rows: seq<Row>)
    ensures multiset(ValidRows(columns, rows)) + multiset(RejectedRows(columns, rows)) == multiset(rows)
    ensures |ValidRows(columns, rows)| + |RejectedRows(columns, rows)| == |rows|
    ensures forall r :: r in ValidRows(columns, rows) ==> RowIsValid(columns, r)
    ensures forall r :: r in RejectedRows(columns, rows) ==> !RowIsValid(columns, r)
  {
    KeepDropPermutation(ValidIn(columns), rows);
    KeepDropMembers(ValidIn(columns), rows);
    assert |multiset(rows)| == |rows|;
  }

  /** A row of the input is among the valid rows iff it passes the checks, and
      among the rejected rows iff it fails them. */
  lemma PartitionMembership(columns: seq<string>, rows: seq<Row>, r: Row)
    requires r in rows
    ensures r in ValidRows(columns, rows) <==> RowIsValid(columns, r)
    ensures r in RejectedRows(columns, rows) <==> !RowIsValid(columns, r)
  {
    PartitionIsPermutation(columns, rows);
    assert r in multiset(rows);
  }

  /** The verdict on one row does not depend on the other rows: partitioning
      a concatenation concatenates the partitions, keeping the order. */
  lemma PartitionAppend(columns: seq<string>, a: seq<Row>, b: seq<Row>)
    ensures ValidRows(columns, a + b) == ValidRows(columns, a) + ValidRows(columns, b)
    ensures RejectedRows(columns, a + b) == RejectedRows(columns, a) + RejectedRows(columns, b)
  {
    KeepAppend(ValidIn(columns), a, b);
    DropAppend(ValidIn(columns), a, b);
  }

  /** The row at `i` extends the valid list of the rows before it iff it
      passes, and the rejected list iff it fails. */
  lemma PartitionStep(columns: seq<string>, rows: seq<Row>, i: nat)
    requires i < |rows|
    ensures ValidRows(columns, rows[..i + 1]) ==
      ValidRows(columns, rows[..i]) + (if RowIsValid(columns, rows[i]) then [rows[i]] else [])
    ensures RejectedRows(columns, rows[..i + 1]) ==
      RejectedRows(columns, rows[..i]) + (if RowIsValid(columns, rows[i]) then [] else [rows[i]])
  {
    assert rows[..i + 1] == rows[..i] + [rows[i]];
    KeepDropSnoc(ValidIn(columns), rows[..i], rows[i]);
  }

  /** The body of the loop for one row (lines 135-153): all six checks are
      made, one after the other, and any failure clears the verdict. */
  method CheckRow(columns: seq<string>, row: Row) returns (isValid: bool)
    ensures isValid == RowIsValid(columns, row)
  {
    isValid := true;
    if !IsValidCourseCode(Lookup(columns, row, "CourseCode")) {
      isValid := false;
    }
    if !IsValidSchoolDbn(Lookup(columns, row, "SchoolDBN")) {
      isValid := false;
    }
    if !IsValidStudentId(Lookup(columns, row, "StudentID")) {
      isValid := false;
    }
    if !IsValidAssignedSectionId(Lookup(columns, row, "AssignedSectionId")) {
      isValid := false;
    }
    if !IsValidSchoolYear(Lookup(columns, row, "SchoolYear")) {
      isValid := false;
    }
    if !IsValidTermId(Lookup(columns, row, "TermId")) {
      isValid := false;
    }
  }

  /** The loop of lines 134-159: every row is checked by all six predicates
      and appended to `valid` or to `rejected`; `invalidCount` counts the
      rejects. */
  method Partition(t: Table) returns (valid: seq<Row>, rejected: seq<Row>, invalidCount: nat)
    ensures valid == ValidRows(t.columns, t.rows)
    ensures rejected == RejectedRows(t.columns, t.rows)
    ensures invalidCount == |rejected|
    ensures |valid| + invalidCount == |t.rows|
  {
    var columns, rows := t.columns, t.rows;
    valid, rejected, invalidCount := [], [], 0;
    var i := 0;
    while i < |rows|
      invariant 0 <= i <= |rows|
      invariant valid == ValidRows(columns, rows[..i])
      invariant rejected == RejectedRows(columns, rows[..i])
      invariant invalidCount == |rejected|
    {
      var row := rows[i];
      var isValid := CheckRow(columns, row);
      if isValid {
        valid := valid + [row];
      } else {
        invalidCount := invalidCount + 1;
        rejected := rejected + [row];
      }
      PartitionStep(columns, rows, i);
      i := i + 1;
    }
    assert rows[..i] == rows;
    PartitionIsPermutation(columns, rows);
  }

  // ---------------------------------------------------------------------
  // Which account steps run (lines 183-194)

  datatype Flags = Flags(students: bool, proctors: bool, admins: bool, tickets: bool)

  datatype Step =
    | CreateGroups
    | CreateStudentAccounts
    | CreateProctorAccounts
    | CreateAdminAccounts
    | CreateTickets

  /** The position of a step in the source's order of calls. */
  function Rank(step: Step): nat {
    match step
    case CreateGroups => 0
    case CreateStudentAccounts => 1
    case CreateProctorAccounts => 2
    case CreateAdminAccounts => 3
    case CreateTickets => 4
  }

  /** The steps of lines 183-192 as intended: nothing without valid records;
      otherwise groups, then each selected account kind in a fixed order. */
  function Dispatch(hasValid: bool, flags: Flags): (steps: seq<Step>)
    ensures steps == [] <==> !hasValid
    ensures hasValid ==> steps[0] == CreateGroups
    ensures CreateStudentAccounts in steps <==> hasValid && flags.students
    ensures CreateProctorAccounts in steps <==> hasValid && flags.proctors
    ensures CreateAdminAccounts in steps <==> hasValid && flags.admins
    ensures CreateTickets in steps <==> hasValid && flags.tickets
  {
    if !hasValid then []
    else
      [CreateGroups]
      + (if flags.students then [CreateStudentAccounts] else [])
      + (if flags.proctors then [CreateProctorAccounts] else [])
      + (if flags.admins then [CreateAdminAccounts] else [])
      + (if flags.tickets then [CreateTickets] else [])
  }

  /** The steps are distinct and come in the order of lines 183-192. */
  predicate InSourceOrder(steps: seq<Step>) {
    forall i :: 0 <= i < |steps| - 1 ==> Rank(steps[i]) < Rank(steps[i + 1])
  }

  /** Appending a step of a higher rank, or nothing, keeps the order. */
  lemma AppendStep(xs: seq<Step>, b: bool, s: Step)
    requires xs != [] && InSourceOrder(xs) && Rank(xs[|xs| - 1]) < Rank(s)
    ensures var ys := xs + (if b then [s] else []);
      ys != [] && InSourceOrder(ys) && Rank(ys[|ys| - 1]) <= Rank(s)
  {
    var ys := xs + (if b then [s] else []);
    forall i | 0 <= i < |ys| - 1 ensures Rank(ys[i]) < Rank(ys[i + 1]) {
      assert ys[i] == xs[i];
    }
  }

  lemma DispatchInSourceOrder(hasValid: bool, flags: Flags)
    ensures InSourceOrder(Dispatch(hasValid, flags))
  {
    if hasValid {
      var s0 := [CreateGroups];
      AppendStep(s0, flags.students, CreateStudentAccounts);
      var s1 := s0 + (if flags.students then [CreateStudentAccounts] else []);
      AppendStep(s1, flags.proctors, CreateProctorAccounts);
      var s2 := s1 + (if flags.proctors then [CreateProctorAccounts] else []);
      AppendStep(s2, flags.admins, CreateAdminAccounts);
      var s3 := s2 + (if flags.admins then [CreateAdminAccounts] else []);
      AppendStep(s3, flags.tickets, CreateTickets);
    }
  }

  /** How the dispatch as written ends: all steps done, or an exception after
      the steps already done. */
  datatype Dispatched = Finished(steps: seq<Step>) | Raised(done: seq<Step>, error: PyError)

  /** Lines 183-192 as written: lines 188 and 190 pass `valid_records` to
      functions that take no argument, and line 192 calls the boolean
      parameter `create_tickets`, which hides the function of line 96. */
  function DispatchAsWritten(hasValid: bool, flags: Flags): Dispatched {
    if !hasValid then Finished([])
    else
      var done := [CreateGroups] + (if flags.students then [CreateStudentAccounts] else []);
      if flags.proctors then
        Raised(done, TypeError("create_proctor_accounts() takes 0 positional arguments but 1 was given"))
      else if flags.admins then
        Raised(done, TypeError("create_admin_accounts() takes 0 positional arguments but 1 was given"))
      else if flags.tickets then
        Raised(done, TypeError("'bool' object is not callable"))
      else Finished(done)
  }

  /** As written, any run with valid records that asks for proctor accounts
      raises at line 188, after the groups and student steps. */
  lemma ProctorCallRaises(flags: Flags)
    requires flags.proctors
    ensures DispatchAsWritten(true, flags).Raised?
    ensures DispatchAsWritten(true, flags).error ==
      TypeError("create_proctor_accounts() takes 0 positional arguments but 1 was given")
    ensures DispatchAsWritten(true, flags).done == Dispatch(true, flags.(proctors := false, admins := false, tickets := false))
  {
  }

  /** As written, asking for tickets (without proctors or admins) raises at
      line 192, because the name `create_tickets` is the boolean itself. */
  lemma TicketCallRaises(flags: Flags)
    requires flags.tickets && !flags.proctors && !flags.admins
    ensures DispatchAsWritten(true, flags) == Raised(Dispatch(true, flags.(tickets := false)), TypeError("'bool' object is not callable"))
  {
  }

  /** As written, a run ends normally only when it needs none of the three
      faulty calls, and then it does what the intended dispatch does. */
  lemma DispatchAsWrittenAgrees(hasValid: bool, flags: Flags)
    ensures DispatchAsWritten(hasValid, flags).Finished? <==>
      !hasValid || (!flags.proctors && !flags.admins && !flags.tickets)
    ensures DispatchAsWritten(hasValid, flags).Finished? ==>
      DispatchAsWritten(hasValid, flags).steps == Dispatch(hasValid, flags)
  {
  }

  // ---------------------------------------------------------------------
  // Flag defaulting in main (lines 212-217)

  /** No flag at all means every output; otherwise exactly the flags given. */
  function ResolveFlags(students: bool, proctors: bool, admins: bool, tickets: bool): (r: Flags)
    ensures !(students || proctors || admins || tickets) ==> r == Flags(true, true, true, true)
    ensures (students || proctors || admins || tickets) ==> r == Flags(students, proctors, admins, tickets)
    ensures r.students || r.proctors || r.admins || r.tickets
  {
    var noFlagsSet := !(students || proctors || admins || tickets);
    Flags(students || noFlagsSet, proctors || noFlagsSet, admins || noFlagsSet, tickets || noFlagsSet)
  }

  /** With the default flags, a run as written that has valid records raises
      before it reaches the admin and ticket steps. */
  lemma DefaultRunAsWrittenRaises()
    ensures DispatchAsWritten(true, ResolveFlags(false, false, false, false)) ==
      Raised([CreateGroups, CreateStudentAccounts],
             TypeError("create_proctor_accounts() takes 0 positional arguments but 1 was given"))
  {
  }

  // ---------------------------------------------------------------------
  // process_registrations (lines 104-194)

  datatype Abort = NotFound | Empty | Unparsable | MissingRequired(missing: seq<string>)

  datatype Run =
    | Aborted(reason: Abort)
    | Completed(total: nat, validCount: nat, invalidCount: nat, rejects: Option<CsvFile>, steps: seq<Step>)

  /** `rejects_<timestamp>.csv` (line 167). */
  function RejectsFileName(timestamp: string): string {
    "rejects_" + timestamp + ".csv"
  }

  /** One run on an already-read input. The clock reading is the parameter
      `timestamp`; the prints are left out. */
  method ProcessRegistrations(input: Load, flags: Flags, timestamp: string) returns (run: Run)
    ensures input.FileMissing? ==> run == Aborted(NotFound)
    ensures input.EmptyData? ==> run == Aborted(Empty)
    ensures input.ParserError? ==> run == Aborted(Unparsable)
    ensures input.Loaded? && !HasRequiredColumns(input.table.columns) ==>
      run == Aborted(MissingRequired(MissingColumns(input.table.columns)))
    ensures input.Loaded? && HasRequiredColumns(input.table.columns) ==>
      var t := input.table;
      && run.Completed?
      && run.total == |t.rows|
      && run.validCount == |ValidRows(t.columns, t.rows)|
      && run.invalidCount == |RejectedRows(t.columns, t.rows)|
      && run.validCount + run.invalidCount == run.total
      && (run.rejects.Some? <==> run.invalidCount > 0)
      && (run.rejects.Some? ==>
            run.rejects.value == CsvFile(RejectsFileName(timestamp), t.columns, RejectedRows(t.columns, t.rows)))
      && run.steps == Dispatch(run.validCount > 0, flags)
  {
    match input
    case FileMissing => return Aborted(NotFound);
    case EmptyData => return Aborted(Empty);
    case ParserError => return Aborted(Unparsable);
    case Loaded(t) =>
      if !HasRequiredColumns(t.columns) {
        return Aborted(MissingRequired(MissingColumns(t.columns)));
      }
      var valid, rejected, invalidCount := Partition(t);
      var rejects: Option<CsvFile> := None;
      if |rejected| > 0 {
        rejects := Some(CsvFile(RejectsFileName(timestamp), t.columns, rejected));
      }
      var steps := Dispatch(|valid| > 0, flags);
      run := Completed(|t.rows|, |valid|, invalidCount, rejects, steps);
  }
}
