/** The state of the CGPA page and its four handlers, each a pure transition
    from the old state to the new one: set the number of semesters, edit one
    field of one semester, remove a semester, and calculate the result.

    The browser functions the handlers call are parameters: `parseInt` (base
    10) as an `IntParser`, `parseFloat` as a `FloatParser`, and
    `Number.prototype.toFixed(2)` as a `Formatter`. */
module Form {
  import opened Wrappers
  import opened WeightedAverage

  /** `parseInt(text, 10)`, left abstract: `None` is NaN. */
  type IntParser = string -> Option<int>

  /** `toFixed(2)`, left abstract. */
  type Formatter = real -> string

  /** The two editable fields of a semester row. */
  datatype Field = CreditHours | Gpa

  /** The page's three pieces of state. `numSemesters` holds whatever
      `parseInt` returned (`None` for NaN), `cgpa` the formatted result or
      nothing. */
  datatype FormState = FormState(numSemesters: Option<int>, semesters: seq<Semester>, cgpa: Option<string>)

  /** The state when the page is first shown. */
  const Initial := FormState(Some(0), [], None)

  /** The largest length an array may have; `Array.from` throws a RangeError
      for a larger one. */
  const MaxArrayLength: int := 0xFFFF_FFFF

  /** The semester with both fields blank. */
  const Blank := Semester("", "")

  /** The count shown agrees with the number of rows. */
  predicate Consistent(s: FormState) {
    s.numSemesters == Some(|s.semesters|)
  }

  function FieldOf(s: Semester, f: Field): string {
    match f
    case CreditHours => s.creditHours
    case Gpa => s.gpa
  }

  function Other(f: Field): Field {
    match f
    case CreditHours => Gpa
    case Gpa => CreditHours
  }

  /** A parsed count the page can turn into an array without throwing. */
  predicate CountFits(count: Option<int>) {
    count.None? || count.value <= MaxArrayLength
  }

  /** The length `Array.from` gives to `{length: count}`: NaN and negative
      values become 0. */
  function ArrayLength(count: Option<int>): nat {
    match count
    case None => 0
    case Some(n) => if n < 0 then 0 else n
  }

  /** `handleSemesterChange`: the count is stored exactly as parsed, and the
      rows are replaced by that many blank rows, whatever they held before. */
  function SetCount(s: FormState, text: string, parseInt: IntParser): (r: FormState)
    requires CountFits(parseInt(text))
    ensures r.numSemesters == parseInt(text)
    ensures parseInt(text).Some? && parseInt(text).value >= 0 ==> |r.semesters| == parseInt(text).value
    ensures parseInt(text).None? || parseInt(text).value < 0 ==> r.semesters == []
    ensures forall i :: 0 <= i < |r.semesters| ==> r.semesters[i] == Blank
    ensures Consistent(r) <==> parseInt(text).Some? && parseInt(text).value >= 0
    ensures r.cgpa == s.cgpa
  {
    var count := parseInt(text);
    FormState(count, seq(ArrayLength(count), _ => Blank), s.cgpa)
  }

  /** `handleSemesterDetailChange`: one field of one row takes the new text;
      the index must name an existing row, as the page's rows only pass their
      own. */
  function Edit(s: FormState, index: int, f: Field, value: string): (r: FormState)
    requires 0 <= index < |s.semesters|
    ensures |r.semesters| == |s.semesters|
    ensures FieldOf(r.semesters[index], f) == value
    ensures FieldOf(r.semesters[index], Other(f)) == FieldOf(s.semesters[index], Other(f))
    ensures forall j :: 0 <= j < |s.semesters| && j != index ==> r.semesters[j] == s.semesters[j]
    ensures r.numSemesters == s.numSemesters && r.cgpa == s.cgpa
    ensures Consistent(r) <==> Consistent(s)
  {
    var row := s.semesters[index];
    var updated := match f
      case CreditHours => row.(creditHours := value)
      case Gpa => row.(gpa := value);
    s.(semesters := s.semesters[index := updated])
  }

  /** `filter((_, i) => i !== index)`: every element whose position is not
      `index`, in order. */
  function KeepOthers<T>(s: seq<T>, index: int): (r: seq<T>)
    ensures 0 <= index < |s| ==> r == s[..index] + s[index + 1..]
    ensures !(0 <= index < |s|) ==> r == s
    decreases |s|
  {
    if |s| == 0 then []
    else
      var rest := KeepOthers(s[1..], index - 1);
      assert 0 < index < |s| ==> s[1..][..index - 1] == s[1..index];
      assert 0 < index < |s| ==> s[1..][index..] == s[index + 1..];
      assert s == [s[0]] + s[1..];
      if index == 0 then rest else [s[0]] + rest
  }

  /** `removeSemester`: the row at `index` goes, the rest keep their order, and
      the count follows the new length. An index that names no row changes
      no row. */
  function Remove(s: FormState, index: int): (r: FormState)
    ensures 0 <= index < |s.semesters| ==> r.semesters == s.semesters[..index] + s.semesters[index + 1..]
    ensures 0 <= index < |s.semesters| ==> |r.semesters| == |s.semesters| - 1
    ensures !(0 <= index < |s.semesters|) ==> r.semesters == s.semesters
    ensures Consistent(r)
    ensures r.cgpa == s.cgpa
  {
    var kept := KeepOthers(s.semesters, index);
    FormState(Some(|kept|), kept, s.cgpa)
  }

  /** `calculateCGPA`: the result becomes the formatted credit-weighted mean of
      the rows whose two fields parse, or nothing when their credit sum is not
      strictly positive; the rows and the count are untouched. */
  function Calculate(s: FormState, parse: FloatParser, toFixed: Formatter): (r: FormState)
    ensures r.semesters == s.semesters && r.numSemesters == s.numSemesters
    ensures Consistent(r) <==> Consistent(s)
    ensures var gs := IncludedGrades(s.semesters, parse);
      if TotalCredits(gs) > 0.0 then r.cgpa == Some(toFixed(TotalWeighted(gs) / TotalCredits(gs)))
      else r.cgpa == None
  {
    AverageIsWeightedMean(s.semesters, parse);
    var cgpa := match Average(s.semesters, parse)
      case None => None
      case Some(a) => Some(toFixed(a));
    s.(cgpa := cgpa)
  }

  // ---------------------------------------------------------------------------
  // Properties relating several transitions.
  // ---------------------------------------------------------------------------

  /** The page opens with a count of zero, no rows and no result, so the
      count agrees with the rows. */
  lemma InitialConsistent()
    ensures Consistent(Initial) && Initial.semesters == [] && Initial.cgpa == None
  {
  }

  /** Writing back a field's former text undoes an edit. */
  lemma EditUndo(s: FormState, index: int, f: Field, value: string)
    requires 0 <= index < |s.semesters|
    ensures Edit(Edit(s, index, f, value), index, f, FieldOf(s.semesters[index], f)) == s
  {
  }

  /** Edits of different fields of a row, or of different rows, commute. */
  lemma EditsCommute(s: FormState, i: int, f: Field, v: string, j: int, g: Field, w: string)
    requires 0 <= i < |s.semesters| && 0 <= j < |s.semesters|
    requires i != j || f != g
    ensures Edit(Edit(s, i, f, v), j, g, w) == Edit(Edit(s, j, g, w), i, f, v)
  {
  }

  /** Editing does not clear an earlier result: after calculating and then
      blanking the only row's gpa, the page still shows the old result
      although calculating again would show none. */
  lemma StaleResultAfterEdit(parse: FloatParser, toFixed: Formatter)
    requires parse("3") == Some(3.0) && parse("4") == Some(4.0) && parse("") == None
    ensures var calculated := Calculate(FormState(Some(1), [Semester("3", "4")], None), parse, toFixed);
      var edited := Edit(calculated, 0, Gpa, "");
      edited.cgpa == Some(toFixed(4.0)) && Calculate(edited, parse, toFixed).cgpa == None
  {
    var s := FormState(Some(1), [Semester("3", "4")], None);
    SingleEntryGivesItsGpa(Semester("3", "4"), parse);
    var edited := Edit(Calculate(s, parse, toFixed), 0, Gpa, "");
    assert edited.semesters == [Semester("3", "")];
    assert !Included(Semester("3", ""), parse);
    SkippedEntryIsIrrelevant([], Semester("3", ""), [], parse);
  }
}
