/** The grade rules of the browser client: the letter grade and colour of a
    percentage, the summary line over a student's results, and the
    completion progress of an exam. */
module Grades {
  import opened Seqs
  import opened Entities
  import opened Metrics
  import opened ExamResults

  datatype Grade = O | APlus | A | BPlus | B | C | F

  /** The lowest percentage of each grade. */
  function Floor(g: Grade): real {
    match g
    case O => 90.0
    case APlus => 80.0
    case A => 70.0
    case BPlus => 60.0
    case B => 50.0
    case C => 40.0
    case F => 0.0
  }

  /** The position of a grade, F lowest. */
  function Rank(g: Grade): nat {
    match g
    case O => 6
    case APlus => 5
    case A => 4
    case BPlus => 3
    case B => 2
    case C => 1
    case F => 0
  }

  /** getGrade: the first band whose floor the percentage reaches. */
  function GetGrade(pct: real): Grade {
    if pct >= 90.0 then O
    else if pct >= 80.0 then APlus
    else if pct >= 70.0 then A
    else if pct >= 60.0 then BPlus
    else if pct >= 50.0 then B
    else if pct >= 40.0 then C
    else F
  }

  /** Every grade above F is given exactly from its floor up to the floor of
      the next grade; F is given exactly below 40. */
  lemma {:induction false} GradeBands(pct: real, g: Grade)
    ensures g != F ==>
      (GetGrade(pct) == g <==> pct >= Floor(g) && (g == O || pct < Floor(g) + 10.0))
    ensures GetGrade(pct) == F <==> pct < 40.0
  {
  }

  /** A higher percentage never yields a lower grade. */
  lemma {:induction false} GradeMonotone(p: real, q: real)
    requires p <= q
    ensures Rank(GetGrade(p)) <= Rank(GetGrade(q))
  {
  }

  datatype Colour = Green | Yellow | Red

  /** getGradeColor: green from 75, yellow from 40, red below. */
  function GetGradeColour(pct: real): Colour {
    if pct >= 75.0 then Green
    else if pct >= 40.0 then Yellow
    else Red
  }

  /** The three colour bands: green from 75, yellow on [40, 75), red below
      40. The colour agrees with the grade: red exactly for F, and green
      only for A or better. */
  lemma {:induction false} ColourMatchesGrade(pct: real)
    ensures GetGradeColour(pct) == Green <==> pct >= 75.0
    ensures GetGradeColour(pct) == Yellow <==> 40.0 <= pct < 75.0
    ensures GetGradeColour(pct) == Red <==> pct < 40.0
    ensures GetGrade(pct) == F <==> GetGradeColour(pct) == Red
    ensures GetGradeColour(pct) == Green ==> Rank(GetGrade(pct)) >= Rank(A)
  {
  }

  // -------------------------------------------------------------------------
  // The results summary

  /** `marksObtained / maxMarks * 100`. */
  function ClientPercent(m: int, max: int): real
    requires max >= 1
  {
    (m as real) / (max as real) * 100.0
  }

  /** The client's percentage is the server's. */
  lemma {:induction false} ClientPercentIsPercent(m: int, max: int)
    requires max >= 1
    ensures ClientPercent(m, max) == Percent(m, max)
  {
  }

  /** A shown result the client counts as passed (the maximum of a stored exam
      is at least 1). */
  predicate ClientPassed(mk: Mark) {
    mk.marks.Some? && mk.maxMarks >= 1 && ClientPercent(mk.marks.value, mk.maxMarks) >= 40.0
  }

  /** The `reduce` of the graded results' percentages. */
  function PercentTotal(vs: seq<Mark>): real
    requires PositiveMaxMarks(vs)
    requires forall i :: 0 <= i < |vs| ==> IsGraded(vs[i])
  {
    if vs == [] then 0.0
    else
      var last := vs[|vs| - 1];
      assert IsGraded(last);
      PercentTotal(vs[..|vs| - 1]) + ClientPercent(last.marks.value, last.maxMarks)
  }

  datatype ResultsSummary = ResultsSummary(average: real, passed: nat, failed: int)

  /** renderStudentResultsTable's summary: the results with marks, the mean
      of their percentages (0 when there are none), the number passed and
      the number failed as the rest. */
  function ClientSummary(ms: seq<Mark>): ResultsSummary
    requires PositiveMaxMarks(ms)
  {
    var valid := Filter(ms, IsGraded);
    var avg := if |valid| > 0 then PercentTotal(valid) / (|valid| as real) else 0.0;
    var passed := |Filter(valid, ClientPassed)|;
    ResultsSummary(avg, passed, |valid| - passed)
  }

  /** The summary agrees with the server's metrics: passed counts the graded
      results with `5 * marks >= 2 * max`, failed is the rest of the graded
      results and never negative, and the average is the server's average
      (0 when nothing is graded). */
  lemma {:induction false} ClientSummaryFacts(ms: seq<Mark>)
    requires PositiveMaxMarks(ms)
    ensures ClientSummary(ms).passed == Count(ms, PassingMark)
    ensures ClientSummary(ms).failed == Count(ms, IsGraded) - Count(ms, PassingMark) >= 0
    ensures Count(ms, IsGraded) == 0 ==> ClientSummary(ms).average == 0.0
    ensures ClientSummary(ms).average == SummaryOf(ms).average
  {
    var valid := Filter(ms, IsGraded);
    CountIsFilterLength(ms, IsGraded);
    FilterNarrow(ms, IsGraded, ClientPassed);
    PassedCount(ms);
    CountIsFilterLength(ms, ClientPassed);
    CountMonotone(ms, PassingMark, IsGraded);
    TotalIsSum(ms);
  }

  /** A result passes on the client exactly when it passes on the server. */
  lemma {:induction false} PassedCount(ms: seq<Mark>)
    requires PositiveMaxMarks(ms)
    ensures Count(ms, ClientPassed) == Count(ms, PassingMark)
  {
    if ms != [] {
      PassedCount(ms[1..]);
      if ms[0].marks.Some? {
        ClientPercentIsPercent(ms[0].marks.value, ms[0].maxMarks);
        PassIsIntegerThreshold(ms[0].marks.value, ms[0].maxMarks);
      }
    }
  }

  /** The client's total is the sum of the server's percentages. */
  lemma {:induction false} TotalIsSum(ms: seq<Mark>)
    requires PositiveMaxMarks(ms)
    ensures PercentTotal(Filter(ms, IsGraded)) == Sum(Percentages(ms))
    decreases |ms|
  {
    if ms != [] {
      var init, last := ms[..|ms| - 1], ms[|ms| - 1];
      assert ms == init + [last];
      assert PositiveMaxMarks(init) by {
        forall i | 0 <= i < |init| ensures init[i].maxMarks >= 1 { assert init[i] == ms[i]; }
      }
      var vi := Filter(init, IsGraded);
      TotalIsSum(init);
      FilterSnoc(init, last, IsGraded);
      SumPercentagesSnoc(init, last);
      if last.marks.Some? {
        assert Filter(ms, IsGraded) == vi + [last];
        TotalSnoc(vi, last);
      } else {
        assert Filter(ms, IsGraded) == vi;
      }
    }
  }

  lemma {:induction false} SumPercentagesSnoc(ms: seq<Mark>, m: Mark)
    requires PositiveMaxMarks(ms) && m.maxMarks >= 1
    ensures PositiveMaxMarks(ms + [m])
    ensures Sum(Percentages(ms + [m])) ==
      Sum(Percentages(ms)) + (if m.marks.Some? then Percent(m.marks.value, m.maxMarks) else 0.0)
  {
    var pl := Percentages([m]);
    assert [m][1..] == [];
    PercentagesAppend(ms, [m]);
    SumAppend(Percentages(ms), pl);
    if m.marks.Some? {
      assert pl[1..] == [];
    } else {
      assert pl == [];
    }
  }

  lemma {:induction false} TotalSnoc(vs: seq<Mark>, m: Mark)
    requires PositiveMaxMarks(vs) && forall i :: 0 <= i < |vs| ==> IsGraded(vs[i])
    requires m.maxMarks >= 1 && m.marks.Some?
    ensures PositiveMaxMarks(vs + [m]) && forall i :: 0 <= i < |vs + [m]| ==> IsGraded((vs + [m])[i])
    ensures PercentTotal(vs + [m]) == PercentTotal(vs) + Percent(m.marks.value, m.maxMarks)
  {
    var w := vs + [m];
    assert w[..|vs|] == vs;
    ClientPercentIsPercent(m.marks.value, m.maxMarks);
  }

  lemma {:induction false} PercentagesAppend(xs: seq<Mark>, ys: seq<Mark>)
    requires PositiveMaxMarks(xs) && PositiveMaxMarks(ys)
    ensures PositiveMaxMarks(xs + ys)
    ensures Percentages(xs + ys) == Percentages(xs) + Percentages(ys)
  {
    var zs := xs + ys;
    assert PositiveMaxMarks(zs) by {
      forall i | 0 <= i < |zs| ensures zs[i].maxMarks >= 1 {
        if i < |xs| { assert zs[i] == xs[i]; } else { assert zs[i] == ys[i - |xs|]; }
      }
    }
    if xs == [] {
      assert zs == ys;
    } else {
      var tail := xs[1..];
      assert zs[0] == xs[0] && zs[1..] == tail + ys;
      assert PositiveMaxMarks(tail) by {
        forall i | 0 <= i < |tail| ensures tail[i].maxMarks >= 1 { assert tail[i] == xs[i + 1]; }
      }
      var h := if xs[0].marks.Some? then [Percent(xs[0].marks.value, xs[0].maxMarks)] else [];
      calc {
        Percentages(zs);
        h + Percentages(tail + ys);
        { PercentagesAppend(tail, ys); }
        h + (Percentages(tail) + Percentages(ys));
        (h + Percentages(tail)) + Percentages(ys);
        Percentages(xs) + Percentages(ys);
      }
    }
  }

  lemma {:induction false} SumAppend(xs: seq<real>, ys: seq<real>)
    ensures Sum(xs + ys) == Sum(xs) + Sum(ys)
  {
    if xs == [] {
      assert xs + ys == ys;
    } else {
      assert (xs + ys)[0] == xs[0] && (xs + ys)[1..] == xs[1..] + ys;
      SumAppend(xs[1..], ys);
    }
  }

  // -------------------------------------------------------------------------
  // Exam progress

  /** `totalStudents > 0 ? Math.round(resultsEntered / totalStudents * 100) : 0`,
      with `Math.round(x)` the floor of `x + 0.5`. */
  function Progress(entered: int, total: int): int {
    if total > 0 then ((entered as real) / (total as real) * 100.0 + 0.5).Floor else 0
  }

  /** The progress of an exam is 0 with nobody enrolled, and, because only
      enrolled students' results are counted, it never exceeds 100. */
  lemma {:induction false} ProgressInRange(enrollments: seq<Enrollment>, results: seq<ExamResult>, exam: Exam)
    requires UniqueResultKeys(results)
    ensures TotalStudents(enrollments, exam.subjectId) == 0 ==>
      Progress(ResultsEntered(enrollments, results, exam), TotalStudents(enrollments, exam.subjectId)) == 0
    ensures 0 <= Progress(ResultsEntered(enrollments, results, exam), TotalStudents(enrollments, exam.subjectId)) <= 100
  {
    var e, t := ResultsEntered(enrollments, results, exam), TotalStudents(enrollments, exam.subjectId);
    EnteredAtMostTotal(enrollments, results, exam);
    if t > 0 {
      QuotientBounds(e as real, t as real, 1.0);
      var x := (e as real) / (t as real) * 100.0 + 0.5;
      assert 0.5 <= x <= 100.5;
    }
  }
}
