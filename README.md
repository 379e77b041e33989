# Result grading of the results portal

The portal stores each student's per-subject marks and shows one student's
marksheet when the public looks up a register number. Its only real
business logic is grading, and it exists in two versions:

- **The shared helpers** (`lib/constants.ts`, module `Grading`). `calculateGrade`
  gives A+/A/B/C/F with cut-offs 90/80/70/60. `calculatePassFail` gives Pass from
  60 on. `calculateSummary(marks, maxMarks)` sums the two lists independently and
  takes the percentage `total / maxTotal * 100`, or 0 unless `maxTotal > 0`. Grade
  and status come from the unrounded percentage. The percentage it returns is
  rounded to two decimals with `Math.round(p * 100) / 100`.
- **The result page's own fallback** (`app/result/page.tsx`, module `ResultPage`).
  It is used when no stored summary row exists. One loop sums the marks and the
  subject maxima and counts the subjects that reach 60 % of their maximum. The
  grade uses the same bands on the overall percentage, which it returns
  unrounded. The status is Pass only when *every* subject passed.

The two policies are kept apart on purpose. The model proves where they
agree: sums and grade are the same, and on a non-empty list a page Pass is
also a helper Pass. It also exhibits where they differ. One failing subject
with a passing average is Pass for the helper and Fail for the page. An empty
list is Pass (with grade F) for the page and Fail for the helper. The page
never shows that empty case: the summary selection computes the fallback only
from a non-empty mark list.

The page also normalises the register number before the lookup (module
`RegisterNumber`: ECMAScript `trim()` and `toUpperCase()`). It maps a grade
text to a badge colour and draws each marksheet row with its own grade and
pass rule.

Modelling choices:
- Marks and maxima are unbounded integers. Percentages are exact `real`s, not
  IEEE doubles. `Math.round(x)` is `Floor(x + 0.5)`.
- The page's loop is a `method` with loop invariants. It is proved equal to the
  specification function `PageSummary`, and the properties are lemmas about
  that function. The summary selection is a `method` too, in the shape of the
  page's if-chain, and it calls `ComputeSummary`. Everything else is pure
  functions and lemmas.
- Grades and statuses are datatypes. `GradeLabel` gives their texts.
  `GetGradeColor` takes a text because the source's `getGradeColor` takes a
  `grade: string` (app/result/page.tsx:161). The page calls it only on a
  marksheet row's grade (app/result/page.tsx:325). The stored summary's grade is
  shown as plain text.
- The page divides each subject's mark by its `max_marks` without a guard
  (app/result/page.tsx:38 and 312). The model requires `max_marks > 0` wherever
  that division happens.
- The tables and the network are not modelled. The summary selection takes the
  stored row (or its absence) and the fetched marks as parameters.
- Every function is deterministic by construction. Recomputing a summary from
  the same marks gives the same result, with no state read or written.

The two calculators differ in two respects. For the shared helpers the status
is Pass exactly when the grade is not F (`PassIffNotF`), and the percentage is
rounded to hundredths (`CalculateSummary`). The page's fallback uses the
all-subjects rule instead and returns the percentage unrounded.

## Model

| member | source | states |
|---|---|---|
| `Grading.GradeLabel` | lib/constants.ts:11-15 | a grade's text is one letter from A to F, with a second character only for A+; the text is "F" exactly for the failing grade |
| `Grading.CalculateGrade` | lib/constants.ts:3-16 | the grade is the best band whose cut-off (90/80/70/60) the percentage reaches: a non-F grade's cut-off is met and every better band's cut-off is missed |
| `Grading.CutoffGetsHigherBand` | lib/constants.ts:10-16 | a percentage exactly at a cut-off gets the higher band (90 gives A+, 60 gives C) |
| `Grading.GradeMonotone` | lib/constants.ts:10-16 | a larger percentage never gives a lower grade |
| `Grading.CalculatePassFail` | lib/constants.ts:18-20 | Pass exactly when the percentage is at least 60 |
| `Grading.PassIffNotF` | lib/constants.ts:10-20 | the status is Pass exactly when the grade is not F |
| `Grading.GradeLabelInjective` | lib/constants.ts:11-15 | different grades have different texts |
| `Grading.Sum` | lib/constants.ts:23-24 | the `reduce((acc, m) => acc + m, 0)` fold from the left; it has no contract of its own, and `SumAppend`, `SumUpdate` and `SumNonNegative` state its properties |
| `Grading.SumAppend` | lib/constants.ts:23-24 | the left-fold sum of a concatenation is the sum of the parts |
| `Grading.SumUpdate` | lib/constants.ts:23 | replacing one mark changes the sum by exactly the difference |
| `Grading.SumNonNegative` | lib/constants.ts:23 | non-negative marks have a non-negative sum |
| `Grading.Percentage` | lib/constants.ts:25 | the percentage is 0 unless the maximum is positive; otherwise percentage times maximum equals total times 100 |
| `Grading.PercentageAtLeast` | lib/constants.ts:25 | against a positive maximum, percentage at least / at most a cut-off is the integer test `total*100` at least / at most `cut*maxTotal` |
| `Grading.PercentageMonotone` | lib/constants.ts:25 | a larger total never gives a smaller percentage |
| `Grading.Round2` | lib/constants.ts:28 | the rounded percentage is a whole number of hundredths and lies within 0.005 of the unrounded one, rounding halves up |
| `Grading.Round2Unique` | lib/constants.ts:28 | any whole number of hundredths within that half-open band around the percentage is the rounded percentage, so the two properties above pin `Math.round(p * 100) / 100` down |
| `Grading.Round2InRange` | lib/constants.ts:28 | rounding keeps a percentage in [0, 100] |
| `Grading.Round2Monotone` | lib/constants.ts:28 | rounding keeps order |
| `Grading.CalculateSummary` | lib/constants.ts:22-29 | total and maximum are the independent sums of the two lists; grade and status come from the unrounded percentage; the reported percentage is a whole number of hundredths within 0.005 of it; a maximum of 0 or less gives 0, F and Fail |
| `Grading.PercentageInRange` | lib/constants.ts:23-28 | non-negative marks summing to at most a positive maximum give a percentage in [0, 100], before and after rounding |
| `Grading.SummaryMonotone` | lib/constants.ts:22-29 | raising one mark raises the total by the difference and never lowers the rounded percentage, the grade or a Pass |
| `Grading.EmptySummary` | lib/constants.ts:22-29 | empty lists give total 0, maximum 0, percentage 0, F and Fail |
| `Grading.ExampleSummary` | lib/constants.ts:22-29 | marks 45, 38, 42 out of 50 each give 125 of 150, 83.33, A and Pass |
| `Grading.RoundedNinetyGradedA` | lib/constants.ts:25-28 | 22499 of 25000 (89.996 %) is reported as 90 but graded A, because grading precedes rounding |
| `RegisterNumber.IsWhitespace` | app/result/page.tsx:64 | the characters `trim()` removes (ECMAScript white space and line terminators) include no digit and no ASCII letter |
| `RegisterNumber.Trim` | app/result/page.tsx:64 | `trim()` never lengthens a string and leaves a string without whitespace unchanged |
| `RegisterNumber.Normalize` | app/result/page.tsx:73 | the lookup key is no longer than the input, has no whitespace at either end and no lower-case ASCII letter |
| `RegisterNumber.UpperChar` | app/result/page.tsx:73 | a lower-case ASCII letter becomes the upper-case letter at the same place in the alphabet, every other character stays the same, no lower-case ASCII letter is left, and whether a character is whitespace never changes |
| `RegisterNumber.FirstNonBlank` | app/result/page.tsx:73 | the scan stops at the first non-whitespace character and skips only whitespace |
| `RegisterNumber.EndNonBlank` | app/result/page.tsx:73 | the scan stops after the last non-whitespace character and drops only whitespace |
| `RegisterNumber.ToUpper` | app/result/page.tsx:73 | upper-casing keeps the length and maps each position on its own |
| `RegisterNumber.TrimIsInfix` | app/result/page.tsx:73 | `trim()` returns a contiguous stretch of the input and removes only whitespace around it |
| `RegisterNumber.TrimIsTrimmed` | app/result/page.tsx:73 | the result of `trim()` neither starts nor ends with whitespace |
| `RegisterNumber.TrimOfTrimmed` | app/result/page.tsx:73 | `trim()` leaves a string without surrounding whitespace unchanged |
| `RegisterNumber.TrimEmptyIffAllWhitespace` | app/result/page.tsx:64 | an input trims to the empty string exactly when every character is whitespace |
| `RegisterNumber.ToUpperIdempotent` | app/result/page.tsx:73 | upper-casing twice equals upper-casing once and keeps a trimmed string trimmed |
| `RegisterNumber.NormalizeIdempotent` | app/result/page.tsx:73 | normalising an already normalised register number changes nothing |
| `RegisterNumber.ExampleTrim` | app/result/page.tsx:73 | `" r1\n"` trims to `"r1"` |
| `RegisterNumber.ExampleUpper` | app/result/page.tsx:73 | `"r1"` upper-cases to `"R1"` |
| `RegisterNumber.ExampleNormalize` | app/result/page.tsx:73 | `" r1\n"` normalises to `"R1"` |
| `RegisterNumber.ExampleBlank` | app/result/page.tsx:64 | `" \t"` trims to the empty string |
| `ResultPage.ValidateRegisterNumber` | app/result/page.tsx:64-73 | the search stops with the empty-register-number error exactly when the input is only whitespace (the empty input included); otherwise the key is the non-empty `trim().toUpperCase()` of the input |
| `ResultPage.ValidateRegisterNumberSpec` | app/result/page.tsx:64-73 | as above, and an accepted key is trimmed, free of lower-case ASCII letters and normalises to itself |
| `ResultPage.SubjectPercent` | app/result/page.tsx:38 | the per-subject percentage is the shared helpers' `marks_obtained / max_marks * 100` (so percentage times maximum equals marks times 100), and for a mark from 0 to its maximum it lies in [0, 100] |
| `ResultPage.SubjectPasses` | app/result/page.tsx:38-39 | with a positive maximum, a subject passes exactly when `marks_obtained*100 >= 60*max_marks` |
| `ResultPage.PassedCount` | app/result/page.tsx:32-41 | the number of passed subjects never exceeds the number of subjects |
| `ResultPage.ComputeSummary` | app/result/page.tsx:29-60 | the loop returns `PageSummary`: total and maximum are the sums of the marks and of the subject maxima, the grade is the shared bands on the unrounded overall percentage, and the status is Pass exactly when every subject passes |
| `ResultPage.PassedCountAll` | app/result/page.tsx:35-51 | all subjects are counted as passed exactly when each one passes |
| `ResultPage.PageSummary` | app/result/page.tsx:29-60 | the fallback's total and maximum are the sums of the marks and maxima, its percentage is the zero-guarded `total / maxTotal * 100` of the shared helpers, its grade is the shared bands on that percentage, and its status is Pass exactly when every subject passes, so an empty list is Pass |
| `ResultPage.EmptyPageSummary` | app/result/page.tsx:29-60 | the empty list gives total 0, maximum 0, percentage 0, grade F and status Pass |
| `ResultPage.SumsKeepSixtyPercent` | app/result/page.tsx:35-44 | if every mark reaches 60 % of its maximum, the totals do too |
| `ResultPage.SumPositive` | app/result/page.tsx:37 | at least one subject, each with a positive maximum, gives a positive maximum total |
| `ResultPage.PagePassImpliesNotF` | app/result/page.tsx:38-51 | on a non-empty list with positive maxima, a fallback Pass means an overall percentage of at least 60 and a grade other than F |
| `ResultPage.RowGrade` | app/result/page.tsx:312-313 | a marksheet row's grade is the shared bands applied to that subject's own percentage |
| `ResultPage.RowStatus` | app/result/page.tsx:312-314 | a row shows Pass exactly when its subject reaches 60 %, which is exactly when its grade is not F |
| `ResultPage.PageStatusIffEveryRowPasses` | app/result/page.tsx:312-314 | the overall fallback status is Pass exactly when every marksheet row shows Pass |
| `ResultPage.GetGradeColor` | app/result/page.tsx:161-165 | a text gets the danger colour exactly when it is not the label of a passing grade |
| `ResultPage.GradeColorSpec` | app/result/page.tsx:161-165 | A+ and A are shown as success, B and C as warning, F as danger |
| `ResultPage.GradeColorMonotone` | app/result/page.tsx:161-165 | a better grade never gets a worse colour |
| `ResultPage.RowDangerIffRowFails` | app/result/page.tsx:312-325 | a row's grade badge is danger-coloured exactly when the row shows Fail |
| `ResultPage.PoliciesAgreeOnSumsAndGrade` | app/result/page.tsx:29-60 | the fallback and the shared `calculateSummary` agree on total, maximum and grade; the shared percentage is within 0.005 of the fallback's |
| `ResultPage.PagePassImpliesLibPass` | app/result/page.tsx:51 | on a non-empty list, a fallback Pass is also a Pass of the shared overall-percentage rule |
| `ResultPage.PoliciesDisagreeOnFailedSubject` | app/result/page.tsx:51 | 100 of 100 and 50 of 100 is 75 %: grade B and Pass for the shared `calculateSummary`, grade B but Fail for the fallback |
| `ResultPage.PoliciesDisagreeOnEmpty` | app/result/page.tsx:51 | the empty list is Pass for the fallback and Fail for the shared rule |
| `ResultPage.SelectSummary` | app/result/page.tsx:115-139 | a stored summary is used when present; otherwise the fallback is computed when marks exist; otherwise the result is the no-marks error; the final "could not determine" guard never fires; and a computed summary is never from an empty list, so its Pass never comes with F |

## Left out

- All database traffic of the search. The student, marks and summary queries and their error messages (app/result/page.tsx:75-113) are not modelled. The summary selection takes the fetched values as parameters.
- A query error on the summary row is logged and otherwise treated like a missing row (app/result/page.tsx:116-119). The model gets the same effect from its `None` parameter.
- React state, loading flags, rendering, `toFixed(1)` display formatting and printing. These are user-interface concerns.
- IEEE floating point: division by a zero `max_marks` (app/result/page.tsx:38, 312) gives Infinity or NaN in the source. The model requires positive maxima wherever a per-subject percentage is taken.
- ResultPage.ComputeSummary: requires every `max_marks` to be positive. This excludes a zero maximum, for the reason above. It also excludes a negative maximum, which the source divides by without producing Infinity or NaN (app/result/page.tsx:38). The model does not cover such rows.
- ResultPage.SelectSummary: requires positive maxima on the path that computes a summary. This excludes zero and negative maxima, as for ComputeSummary.
- RegisterNumber.UpperChar: maps only the ASCII letters `a` to `z` to upper case. Every other character, including non-ASCII letters, is kept as it is.
- RegisterNumber.ToUpper: upper-cases ASCII letters only. JavaScript's full Unicode case mapping (which can change the length, e.g. `ß` to `SS`) is not modelled.
- Mark range validation. Neither calculator does it; it belongs to the admin form inputs.
- The admin pages, authentication and the database client are outside the grading core and are not part of this model.
