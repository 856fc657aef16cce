# CGPA calculator page — Dafny model

The CGPA page (`src/app/cgpa/page.tsx`) lets a student type a number of
semesters, fill in credit hours and a GPA for each, remove rows, and press
"Calculate CGPA" to see the credit-weighted average. This project models the
page's state and its four handlers as pure transitions, and proves what they
do to that state and what the computed average means.

- `wrappers.dfy` — `Option`, used for NaN (a failed parse) and for the absent
  result (`null`).
- `average.dfy` (module `WeightedAverage`) — the `Semester` row, the
  `forEach` accumulation of `calculateCGPA` as a left fold (`Accumulate`), the
  quotient step (`Average`), and an independent reference definition: the
  list of included grades (`IncludedGrades`) with its two sums and
  `WeightedMean`. The lemmas connect the fold to the reference and prove the
  skipping, ordering, empty-result, single-row and bound properties.
- `form.dfy` (module `Form`) — the page state `FormState(numSemesters,
  semesters, cgpa)` and the transitions `SetCount`
  (`handleSemesterChange`), `Edit` (`handleSemesterDetailChange`), `Remove`
  (`removeSemester`) and `Calculate` (`calculateCGPA`).

Numbers are exact `real`s. The browser functions the handlers call are
parameters of the transitions: `parseInt(…, 10)` is an `IntParser`
(`string -> Option<int>`), `parseFloat` a `FloatParser`
(`string -> Option<real>`), and `toFixed(2)` a `Formatter` (`real -> string`).
`None` from a parser stands for NaN.

Three behaviours of the code that a reader might not expect:
- One might expect the semester count to stay non-negative and equal to the
  number of rows. The code stores whatever `parseInt` returned, so after NaN
  or a negative number the count disagrees with the (empty) row list.
  `Form.SetCount` states exactly when the two agree.
- An edit at an index that names no row throws in the code, so `Form.Edit`
  requires an existing index. A removal at such an index leaves the rows
  alone, but still sets the count to the row count.
- The stored result is the formatted string, not a number. Only a new
  calculation replaces it, so an edit leaves a stale result in place
  (`Form.StaleResultAfterEdit`).

## Model

| member | source | states |
|---|---|---|
| WeightedAverage.Average | src/app/cgpa/page.tsx:47-52 | the result is present exactly when the accumulated credit sum is strictly positive, and then it is the number that times the credit sum gives the weighted sum |
| WeightedAverage.AccumulateIsSumOverIncluded | src/app/cgpa/page.tsx:34-45 | the `forEach` fold yields Σ gpa·credit and Σ credit taken over exactly the rows whose two fields parse |
| WeightedAverage.AverageIsWeightedMean | src/app/cgpa/page.tsx:33-52 | the handler's value equals the weighted mean of the included rows' grades, absent when their credit sum is not positive |
| WeightedAverage.AccumulateAppend | src/app/cgpa/page.tsx:37-45 | the fold over two row lists joined is the sum of the folds of each |
| WeightedAverage.SkippedEntryIsIrrelevant | src/app/cgpa/page.tsx:41-45 | inserting or removing a row with an unparseable field anywhere does not change the result |
| WeightedAverage.AverageIgnoresOrder | src/app/cgpa/page.tsx:37-45 | any rearrangement of the rows (same multiset) gives the same result |
| WeightedAverage.NoPositiveCreditGivesNone | src/app/cgpa/page.tsx:47-52 | with no included row, only zero credits, or only non-positive credits, the result is absent |
| WeightedAverage.SingleEntryGivesItsGpa | src/app/cgpa/page.tsx:42-48 | a single included row with positive credit yields its own gpa |
| WeightedAverage.AverageWithinGpaRange | src/app/cgpa/page.tsx:37-48 | when every included credit is non-negative and every included gpa lies in [lo, hi], the result lies in [lo, hi] |
| WeightedAverage.EqualCreditsExample | src/app/cgpa/page.tsx:37-48 | rows (3, 4.0) and (3, 3.0) give 3.5 |
| WeightedAverage.BlankCreditExample | src/app/cgpa/page.tsx:37-48 | rows (3, 3.5) and ("", 4.0) give 3.5: the blank row is skipped |
| WeightedAverage.ZeroCreditExample | src/app/cgpa/page.tsx:41-51 | a lone row with zero credit and gpa 4.0 is included but gives no result |
| Form.SetCount | src/app/cgpa/page.tsx:21-25 | the count is stored as parsed; a non-negative count gives that many rows, NaN or a negative one gives none; every row is blank; the count agrees with the rows iff it parsed to a non-negative number; the result is kept |
| Form.Edit | src/app/cgpa/page.tsx:27-31 | the length is kept, the chosen field of the chosen row takes the new text, its other field, every other row, the count and the result are unchanged |
| Form.KeepOthers | src/app/cgpa/page.tsx:56 | filtering out position `index` is splicing that element out when it exists, and the identity otherwise |
| Form.Remove | src/app/cgpa/page.tsx:55-59 | an existing row is spliced out so the length drops by one and the order is kept; any other index leaves the rows alone; the count becomes the new length; the result is kept |
| Form.Calculate | src/app/cgpa/page.tsx:33-53 | rows and count are untouched; the result is the formatted Σ gpa·credit / Σ credit over the included rows when that credit sum is positive, and absent otherwise |
| Form.InitialConsistent | src/app/cgpa/page.tsx:17-19 | the page opens with count 0, no rows and no result, so count and rows agree |
| Form.EditUndo | src/app/cgpa/page.tsx:27-31 | writing back a field's former text restores the whole state |
| Form.EditsCommute | src/app/cgpa/page.tsx:27-31 | edits of different rows, or of the two fields of one row, commute |
| Form.StaleResultAfterEdit | src/app/cgpa/page.tsx:27-53 | after a calculation, blanking the only row's gpa keeps the old result although a new calculation would give none |

## Left out

- Rendering (`src/app/cgpa/page.tsx:61-140`): layout, animations and the
  `Button`/`Input`/`Label`/`Card` components only display state and forward
  input events.
- React's `useState` and re-render scheduling: each handler is a function
  from the old state to the new state.
- The grammars of `parseInt` and `parseFloat` (prefix parsing, exponents,
  `"Infinity"`): they belong to the JavaScript runtime and are parameters.
- IEEE-754 arithmetic: `parseFloat` can return ±Infinity, which passes the
  NaN test and then poisons the sums; the model has exact reals only and no
  infinities or rounding.
- What `toFixed(2)` produces: it is the `Formatter` parameter, and the
  result is stored as its output for the exact quotient.
- The shallow copy in the edit handler (`src/app/cgpa/page.tsx:28-29`)
  mutates the old row object in place; the model updates the sequence
  functionally, which is what every later read of the state sees.
- Form.SetCount: requires the parsed count to be at most 2^32 − 1; above
  that `Array.from` throws a RangeError and the model has no error path for
  it. In the code `setNumSemesters(value)` has already run when the throw
  happens, so the stored count takes the huge value while the rows stay as
  they were.
- Form.Edit: requires an existing index; in the code an out-of-range index
  throws a TypeError, and the page only passes indices of rendered rows.
