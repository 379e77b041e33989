/** The public result lookup: the search guard on the register number, the
    page's own fallback summary (a loop over the fetched marks), the rules of
    the marksheet rows, the grade colours and the choice between a stored and a
    computed summary. */
module ResultPage {
  import opened Wrappers
  import opened Grading
  import RegisterNumber

  /** One fetched mark, with the maximum of its subject. */
  datatype Mark = Mark(marksObtained: int, maxMarks: int)

  datatype SearchError = EmptyRegisterNumber | NoMarksFound

  /** The colour categories of a grade badge. */
  datatype GradeColor = Success | Warning | Danger

  /** Every subject has a positive maximum, so per-subject divisions are defined. */
  predicate PositiveMaxima(marks: seq<Mark>)
  {
    forall i :: 0 <= i < |marks| ==> marks[i].maxMarks > 0
  }

  function Obtained(marks: seq<Mark>): (r: seq<int>)
    ensures |r| == |marks| && forall i :: 0 <= i < |marks| ==> r[i] == marks[i].marksObtained
  {
    seq(|marks|, i requires 0 <= i < |marks| => marks[i].marksObtained)
  }

  function Maxima(marks: seq<Mark>): (r: seq<int>)
    ensures |r| == |marks| && forall i :: 0 <= i < |marks| ==> r[i] == marks[i].maxMarks
  {
    seq(|marks|, i requires 0 <= i < |marks| => marks[i].maxMarks)
  }

  /** The unguarded per-subject percentage `marks_obtained / max_marks * 100`;
      a mark within its maximum gives a percentage from 0 to 100. */
  function SubjectPercent(m: Mark): (p: real)
    requires m.maxMarks > 0
    ensures p == Percentage(m.marksObtained, m.maxMarks)
    ensures 0 <= m.marksObtained ==> p >= 0.0
    ensures m.marksObtained <= m.maxMarks ==> p <= 100.0
  {
    PercentageAtLeast(m.marksObtained, m.maxMarks, 0);
    PercentageAtLeast(m.marksObtained, m.maxMarks, 100);
    (m.marksObtained as real / m.maxMarks as real) * 100.0
  }

  /** A subject passes at 60 percent of its maximum: exactly when
      `marks_obtained * 100 >= 60 * max_marks`, with no division. */
  predicate SubjectPasses(m: Mark): (b: bool)
    requires m.maxMarks > 0
    ensures b <==> m.marksObtained * 100 >= 60 * m.maxMarks
  {
    PercentageAtLeast(m.marksObtained, m.maxMarks, 60);
    SubjectPercent(m) >= 60.0
  }

  /** Number of passing subjects, counted in list order. */
  function PassedCount(marks: seq<Mark>): (n: nat)
    requires PositiveMaxima(marks)
    ensures n <= |marks|
  {
    if |marks| == 0 then 0
    else PassedCount(marks[..|marks| - 1]) + (if SubjectPasses(marks[|marks| - 1]) then 1 else 0)
  }

  /** The summary the page computes when no stored row exists: sums of the
      marks and maxima, the zero-guarded unrounded percentage, the grade bands
      of the shared helpers, and Pass only when every subject passed. */
  function PageSummary(marks: seq<Mark>): (s: Summary)
    requires PositiveMaxima(marks)
    ensures s.grade == CalculateGrade(s.percentage)
    ensures s.total == Sum(Obtained(marks)) && s.maxTotal == Sum(Maxima(marks))
    ensures s.percentage == Percentage(s.total, s.maxTotal)
    ensures s.status == Pass <==> forall i :: 0 <= i < |marks| ==> SubjectPasses(marks[i])
  {
    PassedCountAll(marks);
    var total := Sum(Obtained(marks));
    var maxTotal := Sum(Maxima(marks));
    var p := Percentage(total, maxTotal);
    Summary(total, maxTotal, p, CalculateGrade(p), if PassedCount(marks) == |marks| then Pass else Fail)
  }

  /** The page's `calculateSummary`: one pass over the marks accumulating the
      totals and the number of passed subjects, then the grade chain. */
  method ComputeSummary(marks: seq<Mark>) returns (s: Summary)
    requires PositiveMaxima(marks)
    ensures s == PageSummary(marks)
    ensures s.total == Sum(Obtained(marks)) && s.maxTotal == Sum(Maxima(marks))
    ensures s.grade == CalculateGrade(s.percentage)
    ensures s.status == Pass <==> forall i :: 0 <= i < |marks| ==> SubjectPasses(marks[i])
  {
    var totalMarks := 0;
    var maxTotalMarks := 0;
    var passedSubjects := 0;
    var totalSubjects := |marks|;
    for i := 0 to |marks|
      invariant totalMarks == Sum(Obtained(marks[..i]))
      invariant maxTotalMarks == Sum(Maxima(marks[..i]))
      invariant passedSubjects == PassedCount(marks[..i])
      invariant passedSubjects <= i
    {
      var mark := marks[i];
      PrefixStep(marks, i);
      totalMarks := totalMarks + mark.marksObtained;
      maxTotalMarks := maxTotalMarks + mark.maxMarks;
      var percentage := (mark.marksObtained as real / mark.maxMarks as real) * 100.0;
      assert percentage == SubjectPercent(mark);
      if percentage >= 60.0 {
        passedSubjects := passedSubjects + 1;
      }
    }
    assert marks[..|marks|] == marks;
    var overallPercentage := if maxTotalMarks > 0 then (totalMarks as real / maxTotalMarks as real) * 100.0 else 0.0;
    var grade := F;
    if overallPercentage >= 90.0 {
      grade := APlus;
    } else if overallPercentage >= 80.0 {
      grade := A;
    } else if overallPercentage >= 70.0 {
      grade := B;
    } else if overallPercentage >= 60.0 {
      grade := C;
    }
    var status := if passedSubjects == totalSubjects then Pass else Fail;
    assert grade == CalculateGrade(overallPercentage);
    s := Summary(totalMarks, maxTotalMarks, overallPercentage, grade, status);
    SummaryOfTotals(marks, totalMarks, maxTotalMarks, passedSubjects);
  }

  /** Extending a prefix of the marks by one mark extends both sums and the
      pass count by that mark's share. */
  lemma PrefixStep(marks: seq<Mark>, i: nat)
    requires PositiveMaxima(marks) && i < |marks|
    ensures Sum(Obtained(marks[..i + 1])) == Sum(Obtained(marks[..i])) + marks[i].marksObtained
    ensures Sum(Maxima(marks[..i + 1])) == Sum(Maxima(marks[..i])) + marks[i].maxMarks
    ensures PassedCount(marks[..i + 1]) == PassedCount(marks[..i]) + if SubjectPercent(marks[i]) >= 60.0 then 1 else 0
  {
    assert marks[..i + 1][..i] == marks[..i];
    assert Obtained(marks[..i + 1])[..i] == Obtained(marks[..i]);
    assert Maxima(marks[..i + 1])[..i] == Maxima(marks[..i]);
  }

  /** The totals of the whole list determine the fallback summary. */
  lemma SummaryOfTotals(marks: seq<Mark>, total: int, maxTotal: int, passed: nat)
    requires PositiveMaxima(marks)
    requires total == Sum(Obtained(marks)) && maxTotal == Sum(Maxima(marks)) && passed == PassedCount(marks)
    ensures var p := if maxTotal > 0 then (total as real / maxTotal as real) * 100.0 else 0.0;
      PageSummary(marks) == Summary(total, maxTotal, p, CalculateGrade(p), if passed == |marks| then Pass else Fail)
  {
  }

  // ---------------------------------------------------------------------------
  // Marksheet rows and colours

  /** The grade shown in a marksheet row: the shared bands applied to that
      subject's own percentage. */
  function RowGrade(m: Mark): (g: Grade)
    requires m.maxMarks > 0
    ensures g == CalculateGrade(SubjectPercent(m))
  {
    var pct := SubjectPercent(m);
    if pct >= 90.0 then APlus else if pct >= 80.0 then A else if pct >= 70.0 then B else if pct >= 60.0 then C else F
  }

  /** The status shown in a marksheet row. */
  function RowStatus(m: Mark): (s: Status)
    requires m.maxMarks > 0
    ensures s == Pass <==> SubjectPasses(m)
    ensures s == Pass <==> RowGrade(m) != F
  {
    if SubjectPercent(m) >= 60.0 then Pass else Fail
  }

  /** `getGradeColor`: the badge colour of a grade text, red exactly for a
      text that is not the label of a passing grade. */
  function GetGradeColor(grade: string): (c: GradeColor)
    ensures c == Danger <==> forall h: Grade :: h == F || GradeLabel(h) != grade
  {
    assert GradeLabel(APlus) == "A+" && GradeLabel(A) == "A";
    assert GradeLabel(B) == "B" && GradeLabel(C) == "C";
    if grade == "A+" || grade == "A" then Success
    else if grade == "B" || grade == "C" then Warning
    else Danger
  }

  function ColorRank(c: GradeColor): nat
  {
    match c
    case Danger => 0
    case Warning => 1
    case Success => 2
  }

  /** A+ and A are shown as success, B and C as warning, F as danger. */
  lemma GradeColorSpec(g: Grade)
    ensures GetGradeColor(GradeLabel(g)) == if Rank(g) >= 3 then Success else if Rank(g) >= 1 then Warning else Danger
  {
  }

  /** A better grade never gets a worse colour. */
  lemma GradeColorMonotone(g: Grade, h: Grade)
    requires Rank(g) <= Rank(h)
    ensures ColorRank(GetGradeColor(GradeLabel(g))) <= ColorRank(GetGradeColor(GradeLabel(h)))
  {
  }

  /** In a marksheet row, the grade badge is red exactly when the row fails. */
  lemma RowDangerIffRowFails(m: Mark)
    requires m.maxMarks > 0
    ensures GetGradeColor(GradeLabel(RowGrade(m))) == Danger <==> RowStatus(m) == Fail
  {
    GradeColorSpec(RowGrade(m));
  }

  // ---------------------------------------------------------------------------
  // Properties of the fallback summary

  /** All subjects counted as passed exactly when every subject passes. */
  lemma {:induction false} PassedCountAll(marks: seq<Mark>)
    requires PositiveMaxima(marks)
    ensures PassedCount(marks) == |marks| <==> forall i :: 0 <= i < |marks| ==> SubjectPasses(marks[i])
  {
    if |marks| > 0 {
      var init := marks[..|marks| - 1];
      PassedCountAll(init);
      assert forall i :: 0 <= i < |init| ==> init[i] == marks[i];
    }
  }

  /** The overall status is Pass exactly when every marksheet row shows Pass. */
  lemma PageStatusIffEveryRowPasses(marks: seq<Mark>)
    requires PositiveMaxima(marks)
    ensures PageSummary(marks).status == Pass <==> forall i :: 0 <= i < |marks| ==> RowStatus(marks[i]) == Pass
  {
  }

  /** If every entry reaches 60 percent of its partner, so do the sums. */
  lemma {:induction false} SumsKeepSixtyPercent(xs: seq<int>, ys: seq<int>)
    requires |xs| == |ys|
    requires forall i :: 0 <= i < |xs| ==> xs[i] * 100 >= 60 * ys[i]
    ensures Sum(xs) * 100 >= 60 * Sum(ys)
  {
    if |xs| > 0 {
      SumsKeepSixtyPercent(xs[..|xs| - 1], ys[..|ys| - 1]);
    }
  }

  /** A non-empty list of positive entries has a positive sum. */
  lemma SumPositive(xs: seq<int>)
    requires |xs| > 0 && forall i :: 0 <= i < |xs| ==> xs[i] > 0
    ensures Sum(xs) > 0
  {
    SumNonNegative(xs[..|xs| - 1]);
  }

  /** When every subject passes and there is at least one, the overall
      percentage is at least 60, so a Pass never comes with grade F. */
  lemma PagePassImpliesNotF(marks: seq<Mark>)
    requires PositiveMaxima(marks) && |marks| > 0
    requires PageSummary(marks).status == Pass
    ensures PageSummary(marks).percentage >= 60.0
    ensures PageSummary(marks).grade != F
  {
    var xs, ys := Obtained(marks), Maxima(marks);
    assert forall i :: 0 <= i < |xs| ==> SubjectPasses(marks[i]) && xs[i] * 100 >= 60 * ys[i];
    SumsKeepSixtyPercent(xs, ys);
    SumPositive(ys);
    PercentageAtLeast(Sum(xs), Sum(ys), 60);
  }

  /** The empty list: the fallback reports Pass with grade F. */
  lemma EmptyPageSummary()
    ensures PageSummary([]) == Summary(0, 0, 0.0, F, Pass)
  {
  }

  // ---------------------------------------------------------------------------
  // The two policies side by side

  /** Both calculators agree on the sums and the grade; the shared helper's
      percentage is the page's one rounded to two decimals. */
  lemma PoliciesAgreeOnSumsAndGrade(marks: seq<Mark>)
    requires PositiveMaxima(marks)
    ensures var lib, page := CalculateSummary(Obtained(marks), Maxima(marks)), PageSummary(marks);
      && lib.total == page.total && lib.maxTotal == page.maxTotal && lib.grade == page.grade
      && page.percentage - 0.005 < lib.percentage <= page.percentage + 0.005
  {
  }

  /** On a non-empty list, a Pass of the page's all-subjects rule is also a
      Pass of the overall-percentage rule. */
  lemma PagePassImpliesLibPass(marks: seq<Mark>)
    requires PositiveMaxima(marks) && |marks| > 0
    requires PageSummary(marks).status == Pass
    ensures CalculateSummary(Obtained(marks), Maxima(marks)).status == Pass
  {
    PagePassImpliesNotF(marks);
  }

  /** The converse fails: 100 of 100 and 50 of 100 is 75 percent overall
      (B, Pass for the shared helper) while the page fails the second subject. */
  lemma PoliciesDisagreeOnFailedSubject()
    ensures CalculateSummary(Obtained([Mark(100, 100), Mark(50, 100)]), Maxima([Mark(100, 100), Mark(50, 100)])).status == Pass
    ensures CalculateSummary(Obtained([Mark(100, 100), Mark(50, 100)]), Maxima([Mark(100, 100), Mark(50, 100)])).grade == B
    ensures PageSummary([Mark(100, 100), Mark(50, 100)]).status == Fail
    ensures PageSummary([Mark(100, 100), Mark(50, 100)]).grade == B
  {
    var ms := [Mark(100, 100), Mark(50, 100)];
    assert Obtained(ms) == [100, 50];
    assert Maxima(ms) == [100, 100];
    assert [100, 50][..1] == [100] && [100][..0] == [];
    assert [100, 100][..1] == [100];
    assert !SubjectPasses(ms[1]);
    assert Percentage(150, 200) * 200.0 == 15000.0;
  }

  /** And on the empty list the page says Pass where the shared helper says Fail. */
  lemma PoliciesDisagreeOnEmpty()
    ensures PageSummary([]).status == Pass
    ensures CalculateSummary(Obtained([]), Maxima([])).status == Fail
  {
  }

  // ---------------------------------------------------------------------------
  // Search flow

  /** The guard of the search: an input that is empty after trimming is
      refused before any lookup; otherwise it is trimmed and upper-cased. */
  function ValidateRegisterNumber(input: string): (r: Result<string, SearchError>)
    ensures r.Err? <==> forall k :: 0 <= k < |input| ==> RegisterNumber.IsWhitespace(input[k])
    ensures r.Err? ==> r.error == EmptyRegisterNumber
    ensures r.Ok? ==> r.value == RegisterNumber.ToUpper(RegisterNumber.Trim(input)) && r.value != []
  {
    RegisterNumber.TrimEmptyIffAllWhitespace(input);
    if RegisterNumber.Trim(input) == [] then Err(EmptyRegisterNumber) else Ok(RegisterNumber.Normalize(input))
  }

  /** The guard refuses exactly the all-whitespace inputs (the empty one among
      them); an accepted key is non-empty, trimmed, has no lower-case ASCII
      letter and normalises to itself. */
  lemma ValidateRegisterNumberSpec(input: string)
    ensures ValidateRegisterNumber(input).Err? <==> forall k :: 0 <= k < |input| ==> RegisterNumber.IsWhitespace(input[k])
    ensures ValidateRegisterNumber(input).Ok? ==>
      ValidateRegisterNumber(input).value == RegisterNumber.ToUpper(RegisterNumber.Trim(input))
    ensures ValidateRegisterNumber(input).Ok? ==>
      var key := ValidateRegisterNumber(input).value;
      && key != []
      && RegisterNumber.IsTrimmed(key)
      && (forall k :: 0 <= k < |key| ==> !RegisterNumber.IsLowerAscii(key[k]))
      && RegisterNumber.Normalize(key) == key
  {
    RegisterNumber.TrimEmptyIffAllWhitespace(input);
    RegisterNumber.TrimIsTrimmed(input);
    RegisterNumber.ToUpperIdempotent(RegisterNumber.Trim(input));
    RegisterNumber.NormalizeIdempotent(input);
  }

  /** The choice of the summary to show: the stored row when there is one,
      else the page's own summary of the marks when there are any, else an
      error. The computed summary is therefore never one of an empty list. */
  method SelectSummary(stored: Option<Summary>, marks: seq<Mark>) returns (r: Result<Summary, SearchError>)
    requires stored.None? && |marks| > 0 ==> PositiveMaxima(marks)
    ensures stored.Some? ==> r == Ok(stored.value)
    ensures stored.None? && |marks| > 0 ==> r == Ok(PageSummary(marks))
    ensures stored.None? && |marks| == 0 ==> r == Err(NoMarksFound)
    ensures r.Ok? && stored.None? ==> |marks| > 0 && (r.value.status == Pass ==> r.value.grade != F)
  {
    var finalSummary: Option<Summary> := None;
    if stored.None? {
      if |marks| > 0 {
        var computed := ComputeSummary(marks);
        finalSummary := Some(computed);
        if computed.status == Pass {
          PagePassImpliesNotF(marks);
        }
      } else {
        return Err(NoMarksFound);
      }
    } else {
      finalSummary := stored;
    }
    // The final "could not determine" guard of the page never fires.
    assert finalSummary.Some?;
    r := Ok(finalSummary.value);
  }
}
