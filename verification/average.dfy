/** The credit-weighted average that the "Calculate CGPA" handler of the CGPA
    page computes: every semester whose two fields parse contributes
    gpa * creditHours and creditHours to two running sums, and the result is
    their quotient when the credit sum is strictly positive.

    Numbers are exact `real`s; the browser's `parseFloat` is a parameter of
    type `FloatParser` whose `None` stands for NaN. */
module WeightedAverage {
  import opened Wrappers

  /** One semester row as the form stores it: both fields are the raw text the
      user typed, parsed only when the average is computed. */
  datatype Semester = Semester(creditHours: string, gpa: string)

  /** `parseFloat`, left abstract: `None` is NaN, `Some(x)` a number. */
  type FloatParser = string -> Option<real>

  /** The parsed form of a semester that takes part in the average. */
  datatype Grade = Grade(credit: real, gpa: real)

  /** The two running sums of the calculation: Σ gpa·credit and Σ credit. */
  datatype Totals = Totals(gpaCredits: real, creditHours: real)

  const Zero := Totals(0.0, 0.0)

  function Plus(a: Totals, b: Totals): Totals {
    Totals(a.gpaCredits + b.gpaCredits, a.creditHours + b.creditHours)
  }

  /** Both fields parsed, or `None` when either of them is NaN. */
  function ParseEntry(s: Semester, parse: FloatParser): Option<Grade> {
    var credit := parse(s.creditHours);
    var gpa := parse(s.gpa);
    if credit.Some? && gpa.Some? then Some(Grade(credit.value, gpa.value)) else None
  }

  /** A semester counts toward the sums only when both of its fields parse. */
  predicate Included(s: Semester, parse: FloatParser) {
    ParseEntry(s, parse).Some?
  }

  /** What one semester adds to the running sums; a skipped one adds nothing. */
  function Contribution(s: Semester, parse: FloatParser): Totals {
    match ParseEntry(s, parse)
    case None => Zero
    case Some(g) => Totals(g.gpa * g.credit, g.credit)
  }

  /** The `forEach` loop: the semesters are folded into the sums from the first
      to the last, starting from zero. */
  function Accumulate(entries: seq<Semester>, parse: FloatParser): Totals
    decreases |entries|
  {
    if |entries| == 0 then Zero
    else Plus(Accumulate(entries[..|entries| - 1], parse), Contribution(entries[|entries| - 1], parse))
  }

  /** The value the handler stores after the loop: the quotient of the sums when
      the credit sum is strictly positive, and nothing otherwise. */
  function Average(entries: seq<Semester>, parse: FloatParser): (r: Option<real>)
    ensures r.Some? <==> Accumulate(entries, parse).creditHours > 0.0
    ensures r.Some? ==> r.value * Accumulate(entries, parse).creditHours == Accumulate(entries, parse).gpaCredits
  {
    var t := Accumulate(entries, parse);
    if t.creditHours > 0.0 then Some(t.gpaCredits / t.creditHours) else None
  }

  // ---------------------------------------------------------------------------
  // Reference definition: the sums over the included semesters only.
  // ---------------------------------------------------------------------------

  /** The parsed grades of the included semesters, in their order. */
  function IncludedGrades(entries: seq<Semester>, parse: FloatParser): seq<Grade>
    decreases |entries|
  {
    if |entries| == 0 then []
    else
      var head := match ParseEntry(entries[0], parse)
        case None => []
        case Some(g) => [g];
      head + IncludedGrades(entries[1..], parse)
  }

  function TotalCredits(gs: seq<Grade>): real
    decreases |gs|
  {
    if |gs| == 0 then 0.0 else gs[0].credit + TotalCredits(gs[1..])
  }

  function TotalWeighted(gs: seq<Grade>): real
    decreases |gs|
  {
    if |gs| == 0 then 0.0 else gs[0].gpa * gs[0].credit + TotalWeighted(gs[1..])
  }

  /** The weighted mean Σ(gpa·credit) / Σ(credit) of a list of grades, absent
      when the credit sum is not strictly positive. */
  function WeightedMean(gs: seq<Grade>): Option<real> {
    if TotalCredits(gs) > 0.0 then Some(TotalWeighted(gs) / TotalCredits(gs)) else None
  }

  lemma {:induction false} IncludedGradesAppend(a: seq<Semester>, b: seq<Semester>, parse: FloatParser)
    ensures IncludedGrades(a + b, parse) == IncludedGrades(a, parse) + IncludedGrades(b, parse)
    decreases |a|
  {
    if |a| == 0 {
      assert a + b == b;
    } else {
      assert (a + b)[1..] == a[1..] + b;
      IncludedGradesAppend(a[1..], b, parse);
    }
  }

  lemma {:induction false} TotalsAppend(a: seq<Grade>, b: seq<Grade>)
    ensures TotalCredits(a + b) == TotalCredits(a) + TotalCredits(b)
    ensures TotalWeighted(a + b) == TotalWeighted(a) + TotalWeighted(b)
    decreases |a|
  {
    if |a| == 0 {
      assert a + b == b;
    } else {
      assert (a + b)[1..] == a[1..] + b;
      TotalsAppend(a[1..], b);
    }
  }

  /** A single semester adds exactly its own contribution to both sums. */
  lemma SingletonGrades(s: Semester, parse: FloatParser)
    ensures Contribution(s, parse)
         == Totals(TotalWeighted(IncludedGrades([s], parse)), TotalCredits(IncludedGrades([s], parse)))
  {
  }

  /** The left fold of the handler computes exactly the two sums over the
      included semesters: skipped semesters contribute to neither. */
  lemma {:induction false} AccumulateIsSumOverIncluded(entries: seq<Semester>, parse: FloatParser)
    ensures Accumulate(entries, parse)
         == Totals(TotalWeighted(IncludedGrades(entries, parse)), TotalCredits(IncludedGrades(entries, parse)))
    decreases |entries|
  {
    if |entries| > 0 {
      var n := |entries| - 1;
      var prefix, last := entries[..n], entries[n];
      assert entries == prefix + [last];
      var before, after := IncludedGrades(prefix, parse), IncludedGrades([last], parse);
      AccumulateIsSumOverIncluded(prefix, parse);
      IncludedGradesAppend(prefix, [last], parse);
      assert IncludedGrades(entries, parse) == before + after;
      TotalsAppend(before, after);
      SingletonGrades(last, parse);
      assert Accumulate(entries, parse) == Plus(Accumulate(prefix, parse), Contribution(last, parse));
    }
  }

  /** The handler's result is the credit-weighted mean of the included
      semesters, and absent exactly when their credit sum is not positive. */
  lemma AverageIsWeightedMean(entries: seq<Semester>, parse: FloatParser)
    ensures Average(entries, parse) == WeightedMean(IncludedGrades(entries, parse))
  {
    AccumulateIsSumOverIncluded(entries, parse);
  }

  // ---------------------------------------------------------------------------
  // Properties of the average.
  // ---------------------------------------------------------------------------

  /** Folding a concatenation is adding the folds of the parts. */
  lemma {:induction false} AccumulateAppend(a: seq<Semester>, b: seq<Semester>, parse: FloatParser)
    ensures Accumulate(a + b, parse) == Plus(Accumulate(a, parse), Accumulate(b, parse))
    decreases |b|
  {
    if |b| == 0 {
      assert a + b == a;
    } else {
      var n := |b| - 1;
      assert (a + b)[..|a + b| - 1] == a + b[..n];
      assert (a + b)[|a + b| - 1] == b[n];
      AccumulateAppend(a, b[..n], parse);
    }
  }

  /** A semester with a field that does not parse can be added anywhere, or
      removed, without changing the result. */
  lemma SkippedEntryIsIrrelevant(before: seq<Semester>, s: Semester, after: seq<Semester>, parse: FloatParser)
    requires !Included(s, parse)
    ensures Average(before + [s] + after, parse) == Average(before + after, parse)
  {
    AccumulateAppend(before + [s], after, parse);
    AccumulateAppend(before, [s], parse);
    AccumulateAppend(before, after, parse);
    assert [s][..0] == [];
  }

  /** Taking the same element out of two equal multisets leaves equal ones. */
  lemma MultisetCancel<T>(p: multiset<T>, q: multiset<T>, x: T)
    requires p + multiset{x} == q + multiset{x}
    ensures p == q
  {
    forall y
      ensures p[y] == q[y]
    {
      assert (p + multiset{x})[y] == (q + multiset{x})[y];
    }
  }

  /** Taking a row out of the list takes its contribution out of the sums. */
  lemma AccumulateWithout(front: seq<Semester>, x: Semester, back: seq<Semester>, parse: FloatParser)
    ensures Accumulate(front + [x] + back, parse) == Plus(Accumulate(front + back, parse), Contribution(x, parse))
  {
    var c := Contribution(x, parse);
    var f, t := Accumulate(front, parse), Accumulate(back, parse);
    assert [x][..0] == [];
    assert Accumulate([x], parse) == Plus(Zero, c);
    AccumulateAppend(front, [x], parse);
    assert Accumulate(front + [x], parse) == Plus(f, Plus(Zero, c));
    AccumulateAppend(front + [x], back, parse);
    assert Accumulate(front + [x] + back, parse) == Plus(Plus(f, Plus(Zero, c)), t);
    AccumulateAppend(front, back, parse);
    assert Accumulate(front + back, parse) == Plus(f, t);
  }

  lemma MultisetRemoveAt<T>(b: seq<T>, k: int)
    requires 0 <= k < |b|
    ensures multiset(b) == multiset(b[..k] + b[k + 1..]) + multiset{b[k]}
  {
    assert b == b[..k] + [b[k]] + b[k + 1..];
  }

  /** Any rearrangement of the semesters leaves both sums unchanged. */
  lemma {:induction false} AccumulatePermutation(a: seq<Semester>, b: seq<Semester>, parse: FloatParser)
    requires multiset(a) == multiset(b)
    ensures Accumulate(a, parse) == Accumulate(b, parse)
    decreases |a|
  {
    if |a| == 0 {
      assert |b| == |multiset(b)| == 0;
    } else {
      var n := |a| - 1;
      var x := a[n];
      assert x in multiset(b);
      var k :| 0 <= k < |b| && b[k] == x;
      var front, back := b[..k], b[k + 1..];
      MultisetRemoveAt(a, n);
      assert a[..n] + a[n + 1..] == a[..n];
      MultisetRemoveAt(b, k);
      MultisetCancel(multiset(a[..n]), multiset(front + back), x);
      AccumulatePermutation(a[..n], front + back, parse);
      assert Accumulate(a, parse) == Plus(Accumulate(a[..n], parse), Contribution(x, parse));
      assert b == front + [x] + back;
      AccumulateWithout(front, x, back, parse);
    }
  }

  /** The order of the semesters carries no weight in the result: any
      rearrangement of the rows gives the same average. */
  lemma AverageIgnoresOrder(a: seq<Semester>, b: seq<Semester>, parse: FloatParser)
    requires multiset(a) == multiset(b)
    ensures Average(a, parse) == Average(b, parse)
  {
    AccumulatePermutation(a, b, parse);
  }

  /** Every included semester has a credit of at most zero. */
  ghost predicate NoPositiveCredit(entries: seq<Semester>, parse: FloatParser) {
    forall i :: 0 <= i < |entries| && Included(entries[i], parse) ==> ParseEntry(entries[i], parse).value.credit <= 0.0
  }

  lemma {:induction false} CreditSumNotPositive(entries: seq<Semester>, parse: FloatParser)
    requires NoPositiveCredit(entries, parse)
    ensures Accumulate(entries, parse).creditHours <= 0.0
    decreases |entries|
  {
    if |entries| > 0 {
      var n := |entries| - 1;
      assert NoPositiveCredit(entries[..n], parse) by {
        forall i | 0 <= i < n && Included(entries[..n][i], parse)
          ensures ParseEntry(entries[..n][i], parse).value.credit <= 0.0
        {
          assert entries[..n][i] == entries[i];
        }
      }
      CreditSumNotPositive(entries[..n], parse);
    }
  }

  /** No included semester, only zero credits, or only non-positive credits:
      the result is absent rather than zero. */
  lemma NoPositiveCreditGivesNone(entries: seq<Semester>, parse: FloatParser)
    requires NoPositiveCredit(entries, parse)
    ensures Average(entries, parse) == None
  {
    CreditSumNotPositive(entries, parse);
  }

  /** A single included semester with positive credit yields its own gpa. */
  lemma SingleEntryGivesItsGpa(s: Semester, parse: FloatParser)
    requires Included(s, parse) && ParseEntry(s, parse).value.credit > 0.0
    ensures Average([s], parse) == Some(ParseEntry(s, parse).value.gpa)
  {
    assert [s][..0] == [];
    var g := ParseEntry(s, parse).value;
    assert Accumulate([s], parse) == Totals(g.gpa * g.credit, g.credit);
    assert (g.gpa * g.credit) / g.credit == g.gpa;
  }

  /** Every included semester has non-negative credit and a gpa in [lo, hi]. */
  ghost predicate GradesWithin(entries: seq<Semester>, parse: FloatParser, lo: real, hi: real) {
    forall i :: 0 <= i < |entries| && Included(entries[i], parse) ==>
      var g := ParseEntry(entries[i], parse).value;
      0.0 <= g.credit && lo <= g.gpa <= hi
  }

  /** Sums whose credit total is non-negative and whose weighted total lies
      between lo and hi times the credit total. */
  predicate Bounded(t: Totals, lo: real, hi: real) {
    0.0 <= t.creditHours && lo * t.creditHours <= t.gpaCredits <= hi * t.creditHours
  }

  /** One step of the bound: adding a semester whose grade lies within [lo, hi]
      with non-negative credit keeps the sums bounded. */
  lemma StepWithin(t: Totals, s: Semester, parse: FloatParser, lo: real, hi: real)
    requires Bounded(t, lo, hi)
    requires Included(s, parse) ==> 0.0 <= ParseEntry(s, parse).value.credit
    requires Included(s, parse) ==> lo <= ParseEntry(s, parse).value.gpa <= hi
    ensures Bounded(Plus(t, Contribution(s, parse)), lo, hi)
  {
  }

  lemma GradesWithinPrefix(entries: seq<Semester>, parse: FloatParser, lo: real, hi: real, n: nat)
    requires GradesWithin(entries, parse, lo, hi) && n <= |entries|
    ensures GradesWithin(entries[..n], parse, lo, hi)
  {
  }

  lemma {:induction false} SumsWithin(entries: seq<Semester>, parse: FloatParser, lo: real, hi: real)
    requires GradesWithin(entries, parse, lo, hi)
    ensures Bounded(Accumulate(entries, parse), lo, hi)
    decreases |entries|
  {
    if |entries| > 0 {
      var n := |entries| - 1;
      GradesWithinPrefix(entries, parse, lo, hi, n);
      SumsWithin(entries[..n], parse, lo, hi);
      StepWithin(Accumulate(entries[..n], parse), entries[n], parse, lo, hi);
    }
  }

  /** A quotient bounded as its numerator is. */
  lemma QuotientWithin(weighted: real, credits: real, lo: real, hi: real)
    requires 0.0 < credits && lo * credits <= weighted <= hi * credits
    ensures lo <= weighted / credits <= hi
  {
  }

  /** With non-negative credits the result is a true mean: it lies between the
      smallest and the largest included gpa. */
  lemma AverageWithinGpaRange(entries: seq<Semester>, parse: FloatParser, lo: real, hi: real)
    requires GradesWithin(entries, parse, lo, hi)
    requires Average(entries, parse).Some?
    ensures lo <= Average(entries, parse).value <= hi
  {
    SumsWithin(entries, parse, lo, hi);
    var t := Accumulate(entries, parse);
    assert Bounded(t, lo, hi);
    QuotientWithin(t.gpaCredits, t.creditHours, lo, hi);
  }

  /** Two semesters of three credits with gpas 4.0 and 3.0 average to 3.5. */
  lemma EqualCreditsExample(parse: FloatParser)
    requires parse("3") == Some(3.0) && parse("4.0") == Some(4.0) && parse("3.0") == Some(3.0)
    ensures Average([Semester("3", "4.0"), Semester("3", "3.0")], parse) == Some(3.5)
  {
    var entries := [Semester("3", "4.0"), Semester("3", "3.0")];
    assert entries[..1] == [Semester("3", "4.0")];
    assert entries[..1][..0] == [];
    assert Accumulate(entries[..1], parse) == Totals(12.0, 3.0);
    assert Accumulate(entries, parse) == Totals(21.0, 6.0);
  }

  /** A semester with a blank credit field is skipped: (3, 3.5) next to
      ("", 4.0) averages to 3.5. */
  lemma BlankCreditExample(parse: FloatParser)
    requires parse("3") == Some(3.0) && parse("3.5") == Some(3.5) && parse("4.0") == Some(4.0)
    requires parse("") == None
    ensures Average([Semester("3", "3.5"), Semester("", "4.0")], parse) == Some(3.5)
  {
    var entries := [Semester("3", "3.5"), Semester("", "4.0")];
    assert entries[..1] == [Semester("3", "3.5")];
    assert entries[..1][..0] == [];
    assert Accumulate(entries[..1], parse) == Totals(10.5, 3.0);
    assert Accumulate(entries, parse) == Totals(10.5, 3.0);
  }

  /** A single semester with zero credit is included but leaves the credit sum
      at zero, so the result is absent. */
  lemma ZeroCreditExample(parse: FloatParser)
    requires parse("0") == Some(0.0) && parse("4.0") == Some(4.0)
    ensures Average([Semester("0", "4.0")], parse) == None
  {
  }
}
