/** The shared performance arithmetic: marks normalised to percentages, the
    fixed pass and distinction thresholds, and the summary every report
    builds (mean, pass rate, distinction count, teacher score). Averages and
    rates are exact reals where the source computes Java doubles. */
module Metrics {
  import opened Common
  import opened Seqs

  /** An exam result as the aggregation sees it: its marks (None when not
      graded) and the maximum marks of its exam. */
  datatype Mark = Mark(marks: Option<int>, maxMarks: int)

  /** Fixed policy constants. */
  const PassThreshold: real := 40.0
  const DistinctionThreshold: real := 75.0
  const AverageWeight: real := 0.6
  const PassWeight: real := 0.3
  const DistinctionWeight: real := 0.1

  predicate PositiveMaxMarks(ms: seq<Mark>) {
    forall i :: 0 <= i < |ms| ==> ms[i].maxMarks >= 1
  }

  /** `marksObtained * 100.0 / maxMarks`. */
  function Percent(m: int, max: int): real
    requires max >= 1
  {
    (m as real) * 100.0 / (max as real)
  }

  predicate IsPass(p: real) { p >= PassThreshold }

  predicate IsDistinction(p: real) { p >= DistinctionThreshold }

  predicate IsGraded(mk: Mark) { mk.marks.Some? }

  /** Passing, stated on integers: `5 * m >= 2 * max`. */
  predicate PassingMark(mk: Mark) {
    mk.marks.Some? && 5 * mk.marks.value >= 2 * mk.maxMarks
  }

  /** Distinction, stated on integers: `4 * m >= 3 * max`. */
  predicate DistinctionMark(mk: Mark) {
    mk.marks.Some? && 4 * mk.marks.value >= 3 * mk.maxMarks
  }

  /** Marks within `0 .. maxMarks`, which the upsert alone does not ensure. */
  predicate InRange(mk: Mark) {
    mk.marks.Some? ==> 0 <= mk.marks.value <= mk.maxMarks
  }

  lemma {:induction false} PercentScales(m: int, max: int)
    requires max >= 1
    ensures Percent(m, max) * (max as real) == (m as real) * 100.0
  {
  }

  /** A percentage is a pass exactly when `5 * m >= 2 * max`; exactly 40 passes. */
  lemma {:induction false} PassIsIntegerThreshold(m: int, max: int)
    requires max >= 1
    ensures IsPass(Percent(m, max)) <==> 5 * m >= 2 * max
  {
    var p := Percent(m, max);
    PercentScales(m, max);
    if p >= 40.0 {
      assert p * (max as real) >= 40.0 * (max as real);
    } else {
      assert p * (max as real) < 40.0 * (max as real);
    }
  }

  /** A percentage is a distinction exactly when `4 * m >= 3 * max`; exactly 75 is one. */
  lemma {:induction false} DistinctionIsIntegerThreshold(m: int, max: int)
    requires max >= 1
    ensures IsDistinction(Percent(m, max)) <==> 4 * m >= 3 * max
  {
    var p := Percent(m, max);
    PercentScales(m, max);
    if p >= 75.0 {
      assert p * (max as real) >= 75.0 * (max as real);
    } else {
      assert p * (max as real) < 75.0 * (max as real);
    }
  }

  /** Marks between 0 and the maximum give a percentage between 0 and 100. */
  lemma {:induction false} PercentInRange(m: int, max: int)
    requires max >= 1 && 0 <= m <= max
    ensures 0.0 <= Percent(m, max) <= 100.0
  {
    QuotientBounds((m as real) * 100.0, max as real, 100.0);
  }

  /** `0 <= x <= hi * n` with `n > 0` bounds the quotient `x / n` by `0 .. hi`. */
  lemma {:induction false} QuotientBounds(x: real, n: real, hi: real)
    requires n > 0.0 && 0.0 <= x <= hi * n
    ensures 0.0 <= x / n <= hi
  {
    assert x / n * n == x;
  }

  /** `filter(r -> r.getMarksObtained() != null).map(percent)`: the graded
      results as percentages, in order. */
  function Percentages(ms: seq<Mark>): (ps: seq<real>)
    requires PositiveMaxMarks(ms)
    ensures |ps| == Count(ms, IsGraded)
  {
    if ms == [] then []
    else
      (if ms[0].marks.Some? then [Percent(ms[0].marks.value, ms[0].maxMarks)] else [])
      + Percentages(ms[1..])
  }

  function Sum(ps: seq<real>): real {
    if ps == [] then 0.0 else ps[0] + Sum(ps[1..])
  }

  lemma {:induction false} SumBounds(ps: seq<real>, lo: real, hi: real)
    requires forall i :: 0 <= i < |ps| ==> lo <= ps[i] <= hi
    ensures lo * (|ps| as real) <= Sum(ps) <= hi * (|ps| as real)
  {
    if ps != [] {
      SumBounds(ps[1..], lo, hi);
    }
  }

  /** Percentages of marks within range lie between 0 and 100. */
  lemma {:induction false} PercentagesInRange(ms: seq<Mark>)
    requires PositiveMaxMarks(ms)
    requires forall i :: 0 <= i < |ms| ==> InRange(ms[i])
    ensures forall i :: 0 <= i < |Percentages(ms)| ==> 0.0 <= Percentages(ms)[i] <= 100.0
  {
    if ms != [] {
      PercentagesInRange(ms[1..]);
      if ms[0].marks.Some? {
        PercentInRange(ms[0].marks.value, ms[0].maxMarks);
      }
    }
  }

  /** The counts of passing and distinguished percentages are the counts of
      marks meeting the integer thresholds. */
  lemma {:induction false} ThresholdCounts(ms: seq<Mark>)
    requires PositiveMaxMarks(ms)
    ensures Count(Percentages(ms), IsPass) == Count(ms, PassingMark)
    ensures Count(Percentages(ms), IsDistinction) == Count(ms, DistinctionMark)
  {
    if ms != [] {
      ThresholdCounts(ms[1..]);
      var head := if ms[0].marks.Some? then [Percent(ms[0].marks.value, ms[0].maxMarks)] else [];
      assert Percentages(ms) == head + Percentages(ms[1..]);
      CountAppend(head, Percentages(ms[1..]), IsPass);
      CountAppend(head, Percentages(ms[1..]), IsDistinction);
      if ms[0].marks.Some? {
        PassIsIntegerThreshold(ms[0].marks.value, ms[0].maxMarks);
        DistinctionIsIntegerThreshold(ms[0].marks.value, ms[0].maxMarks);
      }
    }
  }

  lemma {:induction false} CountAppend<T>(xs: seq<T>, ys: seq<T>, p: T -> bool)
    ensures Count(xs + ys, p) == Count(xs, p) + Count(ys, p)
  {
    if xs == [] {
      assert xs + ys == ys;
    } else {
      assert (xs + ys)[0] == xs[0] && (xs + ys)[1..] == xs[1..] + ys;
      CountAppend(xs[1..], ys, p);
    }
  }

  /** The metrics of one report entry. `graded` is the number n of graded
      results they were computed from. */
  datatype Summary = Summary(average: real, passPercentage: real, distinctionCount: nat, graded: nat)

  const NoGrades: Summary := Summary(0.0, 0.0, 0, 0)

  /** The report metrics over a list of percentages: mean, `100 * #pass / n`
      and `#distinction`, or all zero when the list is empty. */
  function Summarize(ps: seq<real>): (s: Summary)
    ensures s.graded == |ps|
    ensures ps == [] ==> s == NoGrades
    ensures s.distinctionCount == Count(ps, IsDistinction)
  {
    if ps == [] then NoGrades
    else
      var n := |ps| as real;
      Summary(Sum(ps) / n, (Count(ps, IsPass) as real) * 100.0 / n, Count(ps, IsDistinction), |ps|)
  }

  /** A non-empty summary's mean times n is the sum of the percentages, and
      its pass percentage times n is 100 times the number of passes. */
  lemma {:induction false} SummarizeMeans(ps: seq<real>)
    requires ps != []
    ensures Summarize(ps).average * (|ps| as real) == Sum(ps)
    ensures Summarize(ps).passPercentage * (|ps| as real) == (Count(ps, IsPass) as real) * 100.0
  {
    var n, s := |ps| as real, Summarize(ps);
    QuotientTimes(Sum(ps), n, s.average);
    QuotientTimes((Count(ps, IsPass) as real) * 100.0, n, s.passPercentage);
  }

  lemma {:induction false} QuotientTimes(x: real, n: real, q: real)
    requires n > 0.0 && q == x / n
    ensures q * n == x
  {
  }

  /** Every distinction is a pass, so distinctions never exceed passes, and
      the pass percentage lies between 0 and 100. */
  lemma {:induction false} SummaryBounds(ps: seq<real>)
    ensures Summarize(ps).distinctionCount <= Count(ps, IsPass) <= Summarize(ps).graded
    ensures 0.0 <= Summarize(ps).passPercentage <= 100.0
  {
    CountMonotone(ps, IsDistinction, IsPass);
    var s := Summarize(ps);
    if ps != [] {
      var c := Count(ps, IsPass) as real;
      QuotientBounds(c * 100.0, |ps| as real, 100.0);
    }
  }

  /** When every percentage lies between 0 and 100, so does their mean. */
  lemma {:induction false} AverageInRange(ps: seq<real>)
    requires forall i :: 0 <= i < |ps| ==> 0.0 <= ps[i] <= 100.0
    ensures 0.0 <= Summarize(ps).average <= 100.0
  {
    var s := Summarize(ps);
    if ps != [] {
      SumBounds(ps, 0.0, 100.0);
      QuotientBounds(Sum(ps), |ps| as real, 100.0);
    }
  }

  /** The summary of a list of results: only graded results take part. */
  function SummaryOf(ms: seq<Mark>): (s: Summary)
    requires PositiveMaxMarks(ms)
    ensures s.graded == Count(ms, IsGraded)
  {
    Summarize(Percentages(ms))
  }

  /** The teacher composite `0.6 * avg + 0.3 * passPct + 0.1 * (100 * distinctions / n)`,
      0 when nothing is graded. */
  function PerformanceScore(s: Summary): real {
    if s.graded == 0 then 0.0
    else
      s.average * AverageWeight + s.passPercentage * PassWeight
      + ((s.distinctionCount as real) * 100.0 / (s.graded as real)) * DistinctionWeight
  }

  /** The worked example: average 80, pass rate 90 and 5 distinctions out of 10 score 80. */
  lemma {:induction false} ScoreExample()
    ensures PerformanceScore(Summary(80.0, 90.0, 5, 10)) == 80.0
  {
  }

  /** With percentages between 0 and 100 the composite score is between 0 and 100. */
  lemma {:induction false} ScoreInRange(ps: seq<real>)
    requires forall i :: 0 <= i < |ps| ==> 0.0 <= ps[i] <= 100.0
    ensures 0.0 <= PerformanceScore(Summarize(ps)) <= 100.0
  {
    var s := Summarize(ps);
    if ps != [] {
      AverageInRange(ps);
      SummaryBounds(ps);
      QuotientBounds((s.distinctionCount as real) * 100.0, |ps| as real, 100.0);
    }
  }
}
