/** The six field predicates of createTAOFiles.py (lines 10-66). Each takes
    one loosely typed cell. The two that call `re.match` are stated through
    a small model of anchored regular-expression matching. */
module Validators {
  import opened Wrappers
  import opened PyText
  import opened Cells

  // ---------------------------------------------------------------------
  // re.match(r'^...$', s) for a pattern made of single character classes

  datatype CharClass = AsciiAlnum | AsciiDigit | OneOf(chars: set<char>)

  predicate InClass(k: CharClass, c: char) {
    match k
    case AsciiAlnum => IsAsciiAlnum(c)
    case AsciiDigit => IsDigit(c)
    case OneOf(chars) => c in chars
  }

  /** Whether `re.match('^' + p + '$', s)` succeeds, where `p` is a sequence of
      one-character classes. Without MULTILINE, Python's `$` matches at the end
      of the string and also just before a newline that ends the string. */
  predicate AnchoredMatch(p: seq<CharClass>, s: string)
    decreases |p|
  {
    if p == [] then s == "" || s == "\n"
    else s != "" && InClass(p[0], s[0]) && AnchoredMatch(p[1..], s[1..])
  }

  /** The length a string must have to match `p`: exactly `|p|`, or one more
      when the extra character is a final newline. */
  predicate MatchLength(p: seq<CharClass>, s: string) {
    |s| == |p| || (|s| == |p| + 1 && s[|p|] == '\n')
  }

  /** An anchored match is a string of the right length whose characters
      fall, position by position, in the pattern's classes. */
  lemma {:induction false} AnchoredMatchIff(p: seq<CharClass>, s: string)
    ensures AnchoredMatch(p, s) <==>
      MatchLength(p, s) && forall i :: 0 <= i < |p| ==> InClass(p[i], s[i])
    decreases |p|
  {
    if p != [] && s != [] {
      AnchoredMatchIff(p[1..], s[1..]);
      assert MatchLength(p, s) <==> MatchLength(p[1..], s[1..]) by {
        if |s| == |p| + 1 {
          assert s[1..][|p| - 1] == s[|p|];
        }
      }
      if MatchLength(p, s) {
        if InClass(p[0], s[0]) && forall i :: 0 <= i < |p| - 1 ==> InClass(p[1..][i], s[1..][i]) {
          forall i | 0 <= i < |p| ensures InClass(p[i], s[i]) {
            if i > 0 {
              assert InClass(p[1..][i - 1], s[1..][i - 1]);
            }
          }
        }
      }
    }
  }

  // ---------------------------------------------------------------------
  // CourseCode, createTAOFiles.py:10-17

  const CoursePattern: seq<CharClass> := [AsciiAlnum, AsciiAlnum, AsciiAlnum, AsciiAlnum, AsciiAlnum]

  /** `is_valid_course_code`: a `str` matching `^[a-zA-Z0-9]{5}$`. */
  predicate IsValidCourseCode(code: Cell) {
    code.Str? && AnchoredMatch(CoursePattern, code.s)
  }

  /** A course code is valid iff it is text of five ASCII letters or digits,
      optionally followed by one newline (which `$` admits). */
  lemma CourseCodeIff(code: Cell)
    ensures IsValidCourseCode(code) <==>
      code.Str? && (|code.s| == 5 || (|code.s| == 6 && code.s[5] == '\n')) &&
      forall i :: 0 <= i < 5 ==> IsAsciiAlnum(code.s[i])
  {
    if code.Str? {
      AnchoredMatchIff(CoursePattern, code.s);
      assert forall i :: 0 <= i < 5 ==> CoursePattern[i] == AsciiAlnum;
    }
  }

  // ---------------------------------------------------------------------
  // SchoolDBN, createTAOFiles.py:19-27

  const Boroughs: set<char> := {'M', 'X', 'Q', 'K', 'R'}

  const DbnPattern: seq<CharClass> := [AsciiDigit, AsciiDigit, OneOf(Boroughs), AsciiDigit, AsciiDigit, AsciiDigit]

  /** `is_valid_school_dbn` as written: a non-`str` gives False, and a `str`
      reaches `re.match(pattern, value)`, where `value` is not defined, so
      it raises NameError. */
  function IsValidSchoolDbnAsWritten(dbn: Cell): Result<bool, PyError> {
    if !dbn.Str? then Ok(false) else Err(NameError("value"))
  }

  /** `is_valid_school_dbn` as intended: the argument `dbn` matched against
      `^\d{2}[MXQKR]\d{3}$`. */
  predicate IsValidSchoolDbn(dbn: Cell) {
    dbn.Str? && AnchoredMatch(DbnPattern, dbn.s)
  }

  /** As written, the check raises on every text value (a well-formed DBN
      included) and agrees with the intended check elsewhere. */
  lemma SchoolDbnAsWrittenRaises(dbn: Cell)
    ensures IsValidSchoolDbnAsWritten(dbn).Err? <==> dbn.Str?
    ensures dbn.Str? ==> IsValidSchoolDbnAsWritten(dbn) == Err(NameError("value"))
    ensures !dbn.Str? ==> IsValidSchoolDbnAsWritten(dbn) == Ok(IsValidSchoolDbn(dbn))
    ensures IsValidSchoolDbn(Str("10M999")) && IsValidSchoolDbnAsWritten(Str("10M999")) == Err(NameError("value"))
  {
    assert AnchoredMatch(DbnPattern, "10M999") by {
      AnchoredMatchIff(DbnPattern, "10M999");
    }
  }

  /** A DBN is valid iff it is text of two digits, a borough letter and three
      digits, optionally followed by one newline. */
  lemma SchoolDbnIff(dbn: Cell)
    ensures IsValidSchoolDbn(dbn) <==>
      dbn.Str? && (|dbn.s| == 6 || (|dbn.s| == 7 && dbn.s[6] == '\n')) &&
      IsDigit(dbn.s[0]) && IsDigit(dbn.s[1]) && dbn.s[2] in Boroughs &&
      IsDigit(dbn.s[3]) && IsDigit(dbn.s[4]) && IsDigit(dbn.s[5])
  {
    if dbn.Str? {
      AnchoredMatchIff(DbnPattern, dbn.s);
      if MatchLength(DbnPattern, dbn.s) {
        assert InClass(DbnPattern[2], dbn.s[2]) <==> dbn.s[2] in Boroughs;
      }
    }
  }

  // ---------------------------------------------------------------------
  // StudentID, createTAOFiles.py:30-38

  /** `is_valid_student_id`: an `int` or `str` whose `str()` form has nine
      characters, all digits. */
  predicate IsValidStudentId(studentId: Cell) {
    (studentId.Int? || studentId.Str?) &&
    var text := if studentId.Int? then DecimalText(studentId.n) else studentId.s;
    |text| == 9 && IsDigits(text)
  }

  /** An integer student id is valid iff it has exactly nine digits, so a
      negative number or one that lost its leading zeros is rejected. */
  lemma StudentIdIntIff(n: int)
    ensures IsValidStudentId(Int(n)) <==> 100000000 <= n <= 999999999
  {
    if n >= 0 {
      NatTextLength(n, 8);
      assert Pow10(8) == 100000000;
      assert Pow10(9) == 1000000000;
    } else {
      assert DecimalText(n)[0] == '-';
    }
  }

  /** Nine digits that start with 0 pass as text, but the number they denote
      fails as an integer: the leading-zero edge case the source keeps. */
  lemma StudentIdLeadingZero(s: string)
    requires |s| == 9 && IsDigits(s) && s[0] == '0'
    ensures IsValidStudentId(Str(s))
    ensures !IsValidStudentId(Int(DigitsValue(s)))
  {
    LeadingZeroValue(s);
    DigitsValueBound(s[1..]);
    assert Pow10(8) == 100000000;
    StudentIdIntIff(DigitsValue(s));
  }

  // ---------------------------------------------------------------------
  // AssignedSectionId, createTAOFiles.py:40-50

  /** `is_valid_assigned_section_id`: `int(value)` succeeds and lies in
      0..99; a `str` that `int` refuses gives False. */
  predicate IsValidAssignedSectionId(sectionId: Cell) {
    match sectionId
    case Int(n) => 0 <= n <= 99
    case Str(s) =>
      (match ParseInt(s)
       case Some(v) => 0 <= v <= 99
       case None => false)
    case _ => false
  }

  /** A number and its decimal text get the same verdict. */
  lemma SectionTextAgrees(n: int)
    ensures IsValidAssignedSectionId(Str(DecimalText(n))) == IsValidAssignedSectionId(Int(n))
  {
    ParseIntDecimalText(n);
  }

  /** Bare digits pass iff their value is at most 99; `int` also takes a
      sign in front, so "+" keeps the verdict and "-" passes only zero. */
  lemma SectionDigitsIff(s: string)
    requires IsDigits(s)
    ensures IsValidAssignedSectionId(Str(s)) <==> DigitsValue(s) <= 99
    ensures IsValidAssignedSectionId(Str("+" + s)) <==> DigitsValue(s) <= 99
    ensures IsValidAssignedSectionId(Str("-" + s)) <==> DigitsValue(s) == 0
  {
    ParseIntDigits(s);
  }

  /** `int` skips C whitespace around its argument, so such padding never
      changes the verdict. */
  lemma SectionPadded(w: string, s: string, v: string)
    requires forall k :: 0 <= k < |w| ==> IsIntSpace(w[k])
    requires forall k :: 0 <= k < |v| ==> IsIntSpace(v[k])
    ensures IsValidAssignedSectionId(Str(w + s + v)) == IsValidAssignedSectionId(Str(s))
  {
    ParseIntPadded(w, s, v);
  }

  /** A character that is neither a digit, whitespace `int` skips nor a sign
      makes `int` raise, so the section is rejected: "\U{1C}5" is, though
      " 5" passes. */
  lemma SectionRejectsForeignChar(s: string, i: int)
    requires 0 <= i < |s|
    requires !IsDigit(s[i]) && !IsIntSpace(s[i]) && s[i] != '+' && s[i] != '-'
    ensures !IsValidAssignedSectionId(Str(s))
  {
    ParseIntForeignChar(s, i);
  }

  // ---------------------------------------------------------------------
  // SchoolYear, createTAOFiles.py:52-58

  /** The test of line 58 on a text: at least four characters, starting with
      "20", the last two digits; the middle is not looked at. */
  predicate YearTextValid(t: string) {
    |t| >= 4 && t[..2] == "20" && IsDigits(t[|t| - 2..])
  }

  /** `is_valid_schoolyear` as written: an `int` passes the isinstance test and
      then `len(schoolyear)` raises TypeError. */
  function IsValidSchoolYearAsWritten(year: Cell): Result<bool, PyError> {
    match year
    case Str(s) => Ok(YearTextValid(s))
    case Int(_) => Err(TypeError("object of type 'int' has no len()"))
    case _ => Ok(false)
  }

  /** `is_valid_schoolyear` as intended: an `int` is judged by its decimal text. */
  predicate IsValidSchoolYear(year: Cell) {
    match year
    case Str(s) => YearTextValid(s)
    case Int(n) => YearTextValid(DecimalText(n))
    case _ => false
  }

  /** As written, every integer year raises; on other values the intended and
      the written checks agree. */
  lemma SchoolYearAsWrittenRaises(year: Cell)
    ensures IsValidSchoolYearAsWritten(year).Err? <==> year.Int?
    ensures year.Int? ==> IsValidSchoolYearAsWritten(year) == Err(TypeError("object of type 'int' has no len()"))
    ensures !year.Int? ==> IsValidSchoolYearAsWritten(year) == Ok(IsValidSchoolYear(year))
    ensures IsValidSchoolYear(Int(2025)) && IsValidSchoolYearAsWritten(Int(2025)).error.TypeError?
  {
    SchoolYearIntRange(2025);
  }

  /** A text year is valid iff it has at least four characters, starts with
      "20" and ends with two digits. */
  lemma SchoolYearStrIff(s: string)
    ensures IsValidSchoolYear(Str(s)) <==>
      |s| >= 4 && s[0] == '2' && s[1] == '0' && IsDigit(s[|s| - 2]) && IsDigit(s[|s| - 1])
  {
    if |s| >= 4 {
      assert s[..2] == [s[0], s[1]];
      var tail := s[|s| - 2..];
      assert tail == [s[|s| - 2], s[|s| - 1]];
    }
  }

  /** Every year 2000..2099, given as an integer, passes the intended check. */
  lemma SchoolYearIntRange(n: int)
    requires 2000 <= n <= 2099
    ensures IsValidSchoolYear(Int(n))
    ensures DecimalText(n)[..2] == "20" && |DecimalText(n)| == 4
  {
    FourDigitText(n);
    assert n / 1000 == 2 && n / 100 % 10 == 0;
    SchoolYearStrIff(DecimalText(n));
  }

  // ---------------------------------------------------------------------
  // TermId, createTAOFiles.py:60-66

  /** `is_valid_term_id`: membership in the list of strings '1', '2', '3'. */
  predicate IsValidTermId(termId: Cell) {
    termId.Str? && termId.s in ["1", "2", "3"]
  }

  /** Only the three texts pass; the integers 1, 2 and 3 do not. */
  lemma TermIdIff(termId: Cell)
    ensures IsValidTermId(termId) <==> termId == Str("1") || termId == Str("2") || termId == Str("3")
    ensures termId.Int? ==> !IsValidTermId(termId)
  {
  }
}
