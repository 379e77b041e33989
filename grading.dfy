/** The shared grading helpers of the results portal: letter-grade bands,
    the pass/fail rule and the summary of one student's marks.
    Percentages are exact reals; marks are unbounded integers. */
module Grading {

  /** The letter grades, from best to worst. */
  datatype Grade = APlus | A | B | C | F

  datatype Status = Pass | Fail

  /** The summary row of one student: sums, percentage, grade and status. */
  datatype Summary = Summary(total: int, maxTotal: int, percentage: real, grade: Grade, status: Status)

  // GRADE_THRESHOLDS: the lowest percentage of each passing band.
  const A_PLUS: real := 90.0
  const A_CUT: real := 80.0
  const B_CUT: real := 70.0
  const C_CUT: real := 60.0

  /** The text shown for a grade: a letter, with "+" for the top band; only
      the failing grade is shown as "F". */
  function GradeLabel(g: Grade): (s: string)
    ensures 1 <= |s| <= 2 && 'A' <= s[0] <= 'F'
    ensures |s| == 2 <==> g == APlus
    ensures s == "F" <==> g == F
  {
    match g
    case APlus => "A+"
    case A => "A"
    case B => "B"
    case C => "C"
    case F => "F"
  }

  /** Position of a grade in the order F < C < B < A < A+. */
  function Rank(g: Grade): (n: nat)
    ensures n <= 4
    ensures n == 0 <==> g == F
  {
    match g
    case F => 0
    case C => 1
    case B => 2
    case A => 3
    case APlus => 4
  }

  /** The cut-off a percentage must reach to earn a passing grade. */
  function Cutoff(g: Grade): real
    requires g != F
  {
    match g
    case APlus => A_PLUS
    case A => A_CUT
    case B => B_CUT
    case C => C_CUT
  }

  /** calculateGrade: the best grade whose cut-off the percentage reaches,
      F when it reaches none. */
  function CalculateGrade(percentage: real): (g: Grade)
    ensures g != F ==> percentage >= Cutoff(g)
    ensures forall h: Grade :: Rank(h) > Rank(g) ==> percentage < Cutoff(h)
  {
    if percentage >= A_PLUS then APlus
    else if percentage >= A_CUT then A
    else if percentage >= B_CUT then B
    else if percentage >= C_CUT then C
    else F
  }

  /** calculatePassFail: Pass exactly from the lowest passing cut-off on. */
  function CalculatePassFail(percentage: real): (s: Status)
    ensures s == Pass <==> percentage >= 60.0
  {
    if percentage >= C_CUT then Pass else Fail
  }

  /** Sum of a list, folded from the left as `reduce((acc, m) => acc + m, 0)` does. */
  function Sum(xs: seq<int>): int
  {
    if |xs| == 0 then 0 else Sum(xs[..|xs| - 1]) + xs[|xs| - 1]
  }

  /** The zero-guarded percentage `total / maxTotal * 100`, 0 unless maxTotal > 0. */
  function Percentage(total: int, maxTotal: int): (p: real)
    ensures maxTotal <= 0 ==> p == 0.0
    ensures maxTotal > 0 ==> p * (maxTotal as real) == (total as real) * 100.0
  {
    if maxTotal > 0 then (total as real / maxTotal as real) * 100.0 else 0.0
  }

  /** `Math.round(p * 100) / 100`; Math.round rounds halves upwards. The
      result is a whole number of hundredths within 0.005 of p, and only one
      such number exists (`Round2Unique`). */
  function Round2(p: real): (r: real)
    ensures (r * 100.0).Floor as real == r * 100.0
    ensures p - 0.005 < r <= p + 0.005
  {
    var n := (p * 100.0 + 0.5).Floor;
    assert (n as real / 100.0) * 100.0 == n as real;
    n as real / 100.0
  }

  /** A whole number of hundredths within 0.005 of p is Round2(p). */
  lemma Round2Unique(p: real, r: real)
    requires (r * 100.0).Floor as real == r * 100.0
    requires p - 0.005 < r <= p + 0.005
    ensures r == Round2(p)
  {
  }

  /** calculateSummary(marks, maxMarks): the two lists are summed independently;
      grade and status come from the unrounded percentage, the percentage
      returned is rounded to two decimals. */
  function CalculateSummary(marks: seq<int>, maxMarks: seq<int>): (s: Summary)
    ensures s.total == Sum(marks) && s.maxTotal == Sum(maxMarks)
    ensures s.grade == CalculateGrade(Percentage(s.total, s.maxTotal))
    ensures s.status == CalculatePassFail(Percentage(s.total, s.maxTotal))
    ensures (s.percentage * 100.0).Floor as real == s.percentage * 100.0
    ensures Percentage(s.total, s.maxTotal) - 0.005 < s.percentage <= Percentage(s.total, s.maxTotal) + 0.005
    ensures s.maxTotal <= 0 ==> s.percentage == 0.0 && s.grade == F && s.status == Fail
  {
    var total := Sum(marks);
    var maxTotal := Sum(maxMarks);
    var percentage := Percentage(total, maxTotal);
    Summary(total, maxTotal, Round2(percentage), CalculateGrade(percentage), CalculatePassFail(percentage))
  }

  // ---------------------------------------------------------------------------
  // Properties of the grade bands

  /** A percentage exactly at a cut-off gets that (higher) band. */
  lemma CutoffGetsHigherBand(g: Grade)
    requires g != F
    ensures CalculateGrade(Cutoff(g)) == g
  {
  }

  /** A larger percentage never earns a lower grade. */
  lemma GradeMonotone(p: real, q: real)
    requires p <= q
    ensures Rank(CalculateGrade(p)) <= Rank(CalculateGrade(q))
  {
  }

  /** The status is Pass exactly when the grade is not F. */
  lemma PassIffNotF(p: real)
    ensures CalculatePassFail(p) == Pass <==> CalculateGrade(p) != F
  {
  }

  /** Labels of different grades differ, so the text round-trips to the grade. */
  lemma GradeLabelInjective(g: Grade, h: Grade)
    requires GradeLabel(g) == GradeLabel(h)
    ensures g == h
  {
  }

  // ---------------------------------------------------------------------------
  // Properties of sums and percentages

  /** A list of non-negative entries has a non-negative sum. */
  lemma {:induction false} SumNonNegative(xs: seq<int>)
    requires forall i :: 0 <= i < |xs| ==> xs[i] >= 0
    ensures Sum(xs) >= 0
  {
    if |xs| > 0 {
      SumNonNegative(xs[..|xs| - 1]);
    }
  }

  /** Sum distributes over concatenation. */
  lemma {:induction false} SumAppend(xs: seq<int>, ys: seq<int>)
    ensures Sum(xs + ys) == Sum(xs) + Sum(ys)
    decreases |ys|
  {
    if |ys| == 0 {
      assert xs + ys == xs;
    } else {
      var ys' := ys[..|ys| - 1];
      assert (xs + ys)[..|xs + ys| - 1] == xs + ys';
      SumAppend(xs, ys');
    }
  }

  /** Raising one entry raises the sum by exactly that amount. */
  lemma {:induction false} SumUpdate(xs: seq<int>, i: nat, v: int)
    requires i < |xs|
    ensures Sum(xs[i := v]) == Sum(xs) + v - xs[i]
  {
    var ys := xs[i := v];
    assert xs == xs[..i] + [xs[i]] + xs[i + 1..];
    assert ys == xs[..i] + [v] + xs[i + 1..];
    SumAppend(xs[..i] + [xs[i]], xs[i + 1..]);
    SumAppend(xs[..i], [xs[i]]);
    SumAppend(xs[..i] + [v], xs[i + 1..]);
    SumAppend(xs[..i], [v]);
  }

  /** The percentage only grows with the total. */
  lemma PercentageMonotone(t: int, u: int, maxTotal: int)
    requires t <= u
    ensures Percentage(t, maxTotal) <= Percentage(u, maxTotal)
  {
    if maxTotal > 0 {
      var m := maxTotal as real;
      assert Percentage(t, maxTotal) * m <= Percentage(u, maxTotal) * m;
    }
  }

  /** Against a positive maximum, comparing the percentage with a cut-off is
      the integer cross-multiplication `total * 100` against `cut * maxTotal`. */
  lemma PercentageAtLeast(total: int, maxTotal: int, cut: int)
    requires maxTotal > 0
    ensures Percentage(total, maxTotal) >= cut as real <==> total * 100 >= cut * maxTotal
    ensures Percentage(total, maxTotal) <= cut as real <==> total * 100 <= cut * maxTotal
  {
    var p := Percentage(total, maxTotal);
    var m := maxTotal as real;
    assert p * m == (total as real) * 100.0;
    if p >= cut as real {
      assert p * m >= (cut as real) * m;
    } else {
      assert p * m < (cut as real) * m;
    }
    if p <= cut as real {
      assert p * m <= (cut as real) * m;
    } else {
      assert p * m > (cut as real) * m;
    }
  }

  /** Non-negative marks whose sum stays within a positive maximum give a
      percentage in [0, 100], before and after rounding. */
  lemma PercentageInRange(marks: seq<int>, maxMarks: seq<int>)
    requires forall i :: 0 <= i < |marks| ==> marks[i] >= 0
    requires 0 < Sum(maxMarks) && Sum(marks) <= Sum(maxMarks)
    ensures 0.0 <= Percentage(Sum(marks), Sum(maxMarks)) <= 100.0
    ensures 0.0 <= CalculateSummary(marks, maxMarks).percentage <= 100.0
  {
    var total, maxTotal := Sum(marks), Sum(maxMarks);
    SumNonNegative(marks);
    PercentageAtLeast(total, maxTotal, 0);
    PercentageAtLeast(total, maxTotal, 100);
    var p := Percentage(total, maxTotal);
    Round2InRange(p);
    assert CalculateSummary(marks, maxMarks).percentage == Round2(p);
  }

  lemma Round2InRange(p: real)
    requires 0.0 <= p <= 100.0
    ensures 0.0 <= Round2(p) <= 100.0
  {
    assert 0.0 <= p * 100.0 + 0.5 < 10001.0;
  }

  /** Math.round keeps order. */
  lemma Round2Monotone(p: real, q: real)
    requires p <= q
    ensures Round2(p) <= Round2(q)
  {
    assert (p * 100.0 + 0.5).Floor <= (q * 100.0 + 0.5).Floor;
  }

  /** Raising one mark never lowers the total, the percentage (unrounded or
      rounded), the grade or the status. */
  lemma SummaryMonotone(marks: seq<int>, maxMarks: seq<int>, i: nat, v: int)
    requires i < |marks| && marks[i] <= v
    ensures CalculateSummary(marks[i := v], maxMarks).total == CalculateSummary(marks, maxMarks).total + v - marks[i]
    ensures CalculateSummary(marks, maxMarks).percentage <= CalculateSummary(marks[i := v], maxMarks).percentage
    ensures Rank(CalculateSummary(marks, maxMarks).grade) <= Rank(CalculateSummary(marks[i := v], maxMarks).grade)
    ensures CalculateSummary(marks, maxMarks).status == Pass ==> CalculateSummary(marks[i := v], maxMarks).status == Pass
  {
    SumUpdate(marks, i, v);
    var p := Percentage(Sum(marks), Sum(maxMarks));
    var q := Percentage(Sum(marks[i := v]), Sum(maxMarks));
    PercentageMonotone(Sum(marks), Sum(marks[i := v]), Sum(maxMarks));
    Round2Monotone(p, q);
    GradeMonotone(p, q);
  }

  /** Empty lists: total 0, maximum 0, percentage 0, grade F, Fail. */
  lemma EmptySummary()
    ensures CalculateSummary([], []) == Summary(0, 0, 0.0, F, Fail)
  {
  }

  /** Marks 45, 38, 42 out of 50 each: 125 of 150, 83.33 %, grade A, Pass. */
  lemma ExampleSummary()
    ensures CalculateSummary([45, 38, 42], [50, 50, 50]) == Summary(125, 150, 83.33, A, Pass)
  {
    assert Sum([45, 38, 42]) == 125 by {
      assert [45, 38, 42][..2] == [45, 38];
      assert [45, 38][..1] == [45];
      assert [45][..0] == [];
    }
    assert Sum([50, 50, 50]) == 150 by {
      assert [50, 50, 50][..2] == [50, 50];
      assert [50, 50][..1] == [50];
      assert [50][..0] == [];
    }
    var p := Percentage(125, 150);
    assert p * 150.0 == 12500.0;
    assert (p * 100.0 + 0.5).Floor == 8333;
  }

  /** 22499 of 25000 is 89.996 %: reported as 90 after rounding, yet graded A,
      because the grade is taken before rounding. */
  lemma RoundedNinetyGradedA()
    ensures CalculateSummary([22499], [25000]).percentage == 90.0
    ensures CalculateSummary([22499], [25000]).grade == A
  {
    assert [22499][..0] == [];
    assert [25000][..0] == [];
    var p := Percentage(22499, 25000);
    assert p * 25000.0 == 2249900.0;
    assert p == 89.996;
    assert (p * 100.0 + 0.5).Floor == 9000;
  }
}
