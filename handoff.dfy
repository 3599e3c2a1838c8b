/** How the pull scripts' output meets createTAOFiles.py: the merged file's
    header is the list of required columns, and the fields the transform
    fills in pass the corresponding checks. */
module Handoff {
  import opened PyText
  import opened Cells
  import opened Validators
  import opened TaoRegistration
  import opened PullRegistrations

  /** The header written by pullRegistrations.py (lines 255-258) is exactly
      the required list of createTAOFiles.py (lines 122-124), so a merged
      file never aborts for missing columns. */
  lemma MergedHeaderIsRequired()
    ensures PullRegistrations.Header == RequiredColumns
    ensures HasRequiredColumns(PullRegistrations.Header)
    ensures MissingColumns(PullRegistrations.Header) == []
  {
    AbortIffMissing(PullRegistrations.Header);
  }

  /** In a merged file, the column `AssignedSectionId` of a transformed row
      is the section field the transform produced. */
  lemma SectionColumnOfMergedRow(out: Row)
    requires |out| == |PullRegistrations.Header|
    ensures Lookup(PullRegistrations.Header, out, "AssignedSectionId") == out[5]
  {
    var header := PullRegistrations.Header;
    assert header[5] == "AssignedSectionId";
    forall k | 0 <= k < 5 ensures header[k] != header[5] {
      assert |header[k]| != |header[5]|;
    }
    IndexOfAt(header, 5);
  }

  /** A transformed row passes the section check iff its source section was
      blank or already valid; in particular a blank section always passes,
      as "99". */
  lemma TransformedSectionPasses(row: Row)
    requires TransformRow(row).Ok?
    ensures IsValidAssignedSectionId(TransformRow(row).value[5]) <==>
      (row[9] == Null || row[9] == Str("") || IsValidAssignedSectionId(row[9]))
    ensures (row[9] == Null || row[9] == Str("")) ==>
      IsValidAssignedSectionId(Lookup(PullRegistrations.Header, TransformRow(row).value, "AssignedSectionId"))
  {
    assert DecimalText(99) == "99";
    SectionTextAgrees(99);
    SectionColumnOfMergedRow(TransformRow(row).value);
  }

  /** A charter row whose school year is the ATS parameter built for a year
      of this century (line 189) is truncated (line 120) to a year that passes
      the school-year check. */
  lemma TransformedAtsYearPasses(row: Row, year: int)
    requires 2000 <= year <= 2099
    requires TransformRow(row).Ok?
    requires row[7] == Str(AtsParams(year, [])[0])
    ensures TransformRow(row).value[10] == Str(DecimalText(year))
    ensures IsValidSchoolYear(TransformRow(row).value[10])
  {
    AtsYearText(year);
    SchoolYearIntRange(year);
  }

  /** pandas reads an all-digit `TermId` column of a merged file back as
      integers, and `is_valid_term_id` (createTAOFiles.py:66) rejects every
      integer: even the intended checks then reject such a row. */
  lemma ReadBackIntegerTermRejected(row: Row, n: int)
    requires |row| == |PullRegistrations.Header|
    requires Lookup(PullRegistrations.Header, row, "TermId") == Int(n)
    ensures !RowIsValid(PullRegistrations.Header, row)
  {
    TermIdIff(Int(n));
  }

  /** As written, the row loop of createTAOFiles.py raises on the first row of
      every merged file: the file has no `termID` column. */
  lemma MergedFileRaisesAsWritten(row: Row)
    requires |row| == |PullRegistrations.Header|
    ensures CheckRowAsWritten(PullRegistrations.Header, row).Err?
  {
    MergedHeaderIsRequired();
    RequiredOnlyFileRaises(row);
  }
}
