/** The read-only performance reports: per subject, per teacher and the
    top-student rankings. Each report reads repository snapshots (the
    `findAll` lists) and never writes. */
module Analytics {
  import opened Common
  import opened Seqs
  import opened Entities
  import opened Metrics

  // -------------------------------------------------------------------------
  // Joining results to their exams

  /** The results whose (result, exam) pair lies in the pool, in repository
      order, each joined with its exam's maximum marks. */
  function PoolMarks(exams: seq<Exam>, results: seq<ExamResult>,
                     inPool: (ExamResult, Exam) -> bool): (ms: seq<Mark>)
    requires PositiveMaxima(exams)
    ensures PositiveMaxMarks(ms)
    ensures |ms| <= |results|
  {
    if results == [] then []
    else
      (match ExamIndex(exams, results[0].examId)
        case Some(k) =>
          if inPool(results[0], exams[k]) then [Mark(results[0].marks, exams[k].maxMarks)] else []
        case None => [])
      + PoolMarks(exams, results[1..], inPool)
  }

  /** `findBySubject(subject)` then `findByExamIn(exams)`. */
  function SubjectMarks(subjectId: nat, exams: seq<Exam>, results: seq<ExamResult>): seq<Mark>
    requires PositiveMaxima(exams)
  {
    PoolMarks(exams, results, (r: ExamResult, e: Exam) => e.subjectId == subjectId)
  }

  /** True when the subject with this id is assigned to the teacher
      (`teacher.getSubjects()` is the inverse of `Subject.assignedTeacher`). */
  predicate Teaches(subjects: seq<Subject>, teacherId: nat, subjectId: nat) {
    match SubjectIndex(subjects, subjectId)
    case Some(k) => subjects[k].teacher == Some(teacherId)
    case None => false
  }

  /** `findBySubjectIn(teacher.getSubjects())` then `findByExamIn(exams)`. */
  function TeacherMarks(teacherId: nat, subjects: seq<Subject>, exams: seq<Exam>,
                        results: seq<ExamResult>): seq<Mark>
    requires PositiveMaxima(exams)
  {
    PoolMarks(exams, results, (r: ExamResult, e: Exam) => Teaches(subjects, teacherId, e.subjectId))
  }

  /** `findByStudent(student)`. */
  function StudentMarks(studentId: nat, exams: seq<Exam>, results: seq<ExamResult>): seq<Mark>
    requires PositiveMaxima(exams)
  {
    PoolMarks(exams, results, (r: ExamResult, e: Exam) => r.studentId == studentId)
  }

  // -------------------------------------------------------------------------
  // Report entries

  datatype SubjectPerformance = SubjectPerformance(
    subjectId: nat, subjectName: string,
    averageMarks: real, passPercentage: real, distinctionCount: nat)

  datatype TeacherPerformance = TeacherPerformance(
    teacherId: nat, teacherName: string,
    averageMarks: real, passPercentage: real, distinctionCount: nat, performanceScore: real)

  /** `year` is None where the service leaves it unset. */
  datatype StudentPerformance = StudentPerformance(
    studentId: nat, rollNo: string, name: string, year: Option<int>,
    averageMarks: real, passPercentage: real)

  function SubjectEntry(s: Subject, exams: seq<Exam>, results: seq<ExamResult>): SubjectPerformance
    requires PositiveMaxima(exams)
  {
    var m := SummaryOf(SubjectMarks(s.id, exams, results));
    SubjectPerformance(s.id, s.name, m.average, m.passPercentage, m.distinctionCount)
  }

  function TeacherEntry(t: Teacher, subjects: seq<Subject>, exams: seq<Exam>,
                        results: seq<ExamResult>): TeacherPerformance
    requires PositiveMaxima(exams)
  {
    var m := SummaryOf(TeacherMarks(t.id, subjects, exams, results));
    TeacherPerformance(t.id, t.name, m.average, m.passPercentage, m.distinctionCount, PerformanceScore(m))
  }

  function StudentEntry(st: Student, year: Option<int>, exams: seq<Exam>,
                        results: seq<ExamResult>): StudentPerformance
    requires PositiveMaxima(exams)
  {
    var m := SummaryOf(StudentMarks(st.id, exams, results));
    StudentPerformance(st.id, st.rollNo, st.name, year, m.average, m.passPercentage)
  }

  /** The subject report: one entry per subject, in repository order. */
  function SubjectReport(subjects: seq<Subject>, exams: seq<Exam>,
                         results: seq<ExamResult>): seq<SubjectPerformance>
    requires PositiveMaxima(exams)
  {
    seq(|subjects|, i requires 0 <= i < |subjects| => SubjectEntry(subjects[i], exams, results))
  }

  /** The teacher report: one entry per teacher, in repository order. */
  function TeacherReport(teachers: seq<Teacher>, subjects: seq<Subject>, exams: seq<Exam>,
                         results: seq<ExamResult>): seq<TeacherPerformance>
    requires PositiveMaxima(exams)
  {
    seq(|teachers|, i requires 0 <= i < |teachers| => TeacherEntry(teachers[i], subjects, exams, results))
  }

  // -------------------------------------------------------------------------
  // Properties of the entries

  /** What a summary promises about the marks it was computed from: only
      graded marks count, the pass and distinction counts are those of the
      integer thresholds, distinctions never exceed passes, and with no
      graded mark everything is 0. */
  lemma {:induction false} SummaryOfCounts(ms: seq<Mark>)
    requires PositiveMaxMarks(ms)
    ensures SummaryOf(ms).graded == Count(ms, IsGraded)
    ensures Count(ms, IsGraded) == 0 ==> SummaryOf(ms) == NoGrades
    ensures SummaryOf(ms).distinctionCount == Count(ms, DistinctionMark)
    ensures SummaryOf(ms).distinctionCount <= Count(ms, PassingMark) <= SummaryOf(ms).graded
    ensures Count(ms, IsGraded) > 0 ==>
      SummaryOf(ms).passPercentage == (Count(ms, PassingMark) as real) * 100.0 / (Count(ms, IsGraded) as real)
  {
    var ps := Percentages(ms);
    ThresholdCounts(ms);
    CountMonotone(ps, IsDistinction, IsPass);
  }

  /** The pass percentage lies in [0, 100]; so do the mean and the teacher
      score when every mark is within its exam's range. */
  lemma {:induction false} SummaryOfRanges(ms: seq<Mark>)
    requires PositiveMaxMarks(ms)
    ensures 0.0 <= SummaryOf(ms).passPercentage <= 100.0
    ensures (forall i :: 0 <= i < |ms| ==> InRange(ms[i])) ==>
      0.0 <= SummaryOf(ms).average <= 100.0 && 0.0 <= PerformanceScore(SummaryOf(ms)) <= 100.0
  {
    var ps := Percentages(ms);
    SummaryBounds(ps);
    if forall i :: 0 <= i < |ms| ==> InRange(ms[i]) {
      PercentagesInRange(ms);
      AverageInRange(ps);
      ScoreInRange(ps);
    }
  }

  /** A student's entry carries the student's id, roll number and name and
      the given year, and its two metrics are those of the summary of the
      student's results: with none graded both are 0, the pass percentage is
      100 times the share of graded results at the integer pass threshold
      and lies in [0, 100], and the average lies in [0, 100] when every mark
      is within range. */
  lemma {:induction false} StudentEntryMetrics(st: Student, year: Option<int>, exams: seq<Exam>,
                                               results: seq<ExamResult>)
    requires PositiveMaxima(exams)
    ensures var p := StudentEntry(st, year, exams, results);
            var ms := StudentMarks(st.id, exams, results);
            && p.studentId == st.id && p.rollNo == st.rollNo && p.name == st.name && p.year == year
            && p.averageMarks == SummaryOf(ms).average
            && (Count(ms, IsGraded) == 0 ==> p.averageMarks == 0.0 && p.passPercentage == 0.0)
            && (Count(ms, IsGraded) > 0 ==>
                  p.passPercentage == (Count(ms, PassingMark) as real) * 100.0 / (Count(ms, IsGraded) as real))
            && 0.0 <= p.passPercentage <= 100.0
            && ((forall i :: 0 <= i < |ms| ==> InRange(ms[i])) ==> 0.0 <= p.averageMarks <= 100.0)
  {
    var ms := StudentMarks(st.id, exams, results);
    SummaryOfCounts(ms);
    SummaryOfRanges(ms);
  }

  /** Each subject-report entry carries its subject's id and name and the
      summary of the results of that subject's exams: the mean of the
      graded percentages, 100 times the share at the pass threshold, and
      the count at the distinction threshold, all 0 with nothing graded. */
  lemma {:induction false} SubjectReportFacts(subjects: seq<Subject>, exams: seq<Exam>, results: seq<ExamResult>, i: nat)
    requires PositiveMaxima(exams) && i < |subjects|
    ensures |SubjectReport(subjects, exams, results)| == |subjects|
    ensures var e := SubjectReport(subjects, exams, results)[i];
            var ms := SubjectMarks(subjects[i].id, exams, results);
            && e.subjectId == subjects[i].id && e.subjectName == subjects[i].name
            && e.averageMarks == SummaryOf(ms).average
            && (Count(ms, IsGraded) == 0 ==>
                  e.averageMarks == 0.0 && e.passPercentage == 0.0 && e.distinctionCount == 0)
            && (Count(ms, IsGraded) > 0 ==>
                  e.passPercentage == (Count(ms, PassingMark) as real) * 100.0 / (Count(ms, IsGraded) as real))
            && e.distinctionCount == Count(ms, DistinctionMark)
            && e.distinctionCount <= Count(ms, PassingMark) <= Count(ms, IsGraded)
            && 0.0 <= e.passPercentage <= 100.0
            && ((forall k :: 0 <= k < |ms| ==> InRange(ms[k])) ==> 0.0 <= e.averageMarks <= 100.0)
  {
    SummaryOfCounts(SubjectMarks(subjects[i].id, exams, results));
    SummaryOfRanges(SubjectMarks(subjects[i].id, exams, results));
  }

  /** Each teacher-report entry pools the results of all the teacher's
      subjects and carries the same figures as a subject entry over that
      pool; all four metrics are 0 when none of them is graded. */
  lemma {:induction false} TeacherReportFacts(teachers: seq<Teacher>, subjects: seq<Subject>, exams: seq<Exam>,
                           results: seq<ExamResult>, i: nat)
    requires PositiveMaxima(exams) && i < |teachers|
    ensures |TeacherReport(teachers, subjects, exams, results)| == |teachers|
    ensures var e := TeacherReport(teachers, subjects, exams, results)[i];
            var ms := TeacherMarks(teachers[i].id, subjects, exams, results);
            && e.teacherId == teachers[i].id && e.teacherName == teachers[i].name
            && e.averageMarks == SummaryOf(ms).average
            && (Count(ms, IsGraded) == 0 ==>
                  e.averageMarks == 0.0 && e.passPercentage == 0.0
                  && e.distinctionCount == 0 && e.performanceScore == 0.0)
            && (Count(ms, IsGraded) > 0 ==>
                  e.passPercentage == (Count(ms, PassingMark) as real) * 100.0 / (Count(ms, IsGraded) as real))
            && e.distinctionCount == Count(ms, DistinctionMark)
            && e.distinctionCount <= Count(ms, PassingMark) <= Count(ms, IsGraded)
            && 0.0 <= e.passPercentage <= 100.0
            && ((forall k :: 0 <= k < |ms| ==> InRange(ms[k])) ==> 0.0 <= e.averageMarks <= 100.0)
  {
    SummaryOfCounts(TeacherMarks(teachers[i].id, subjects, exams, results));
    SummaryOfRanges(TeacherMarks(teachers[i].id, subjects, exams, results));
  }

  /** A teacher's score weighs the average by 0.6, the pass percentage by
      0.3 and the distinction percentage by 0.1, and lies in [0, 100] when
      every pooled mark is within range. */
  lemma {:induction false} TeacherScoreFacts(teachers: seq<Teacher>, subjects: seq<Subject>, exams: seq<Exam>,
                           results: seq<ExamResult>, i: nat)
    requires PositiveMaxima(exams) && i < |teachers|
    ensures |TeacherReport(teachers, subjects, exams, results)| == |teachers|
    ensures var e := TeacherReport(teachers, subjects, exams, results)[i];
            var ms := TeacherMarks(teachers[i].id, subjects, exams, results);
            && (Count(ms, IsGraded) > 0 ==>
                  e.performanceScore == e.averageMarks * 0.6 + e.passPercentage * 0.3
                    + ((e.distinctionCount as real) * 100.0 / (Count(ms, IsGraded) as real)) * 0.1)
            && ((forall k :: 0 <= k < |ms| ==> InRange(ms[k])) ==> 0.0 <= e.performanceScore <= 100.0)
  {
    SummaryOfCounts(TeacherMarks(teachers[i].id, subjects, exams, results));
    SummaryOfRanges(TeacherMarks(teachers[i].id, subjects, exams, results));
  }

  /** A result is in a pool exactly when its exam exists and the pair is selected. */
  lemma {:induction false} PoolMarksCount(exams: seq<Exam>, results: seq<ExamResult>,
                                          inPool: (ExamResult, Exam) -> bool)
    requires PositiveMaxima(exams)
    ensures Count(PoolMarks(exams, results, inPool), IsGraded)
         == Count(results, (r: ExamResult) => r.marks.Some? && InPool(exams, r, inPool))
  {
    if results != [] {
      PoolMarksCount(exams, results[1..], inPool);
      var head := match ExamIndex(exams, results[0].examId)
        case Some(k) => if inPool(results[0], exams[k]) then [Mark(results[0].marks, exams[k].maxMarks)] else []
        case None => [];
      assert PoolMarks(exams, results, inPool) == head + PoolMarks(exams, results[1..], inPool);
      CountAppend(head, PoolMarks(exams, results[1..], inPool), IsGraded);
    }
  }

  /** The result's exam exists and the pool selects the pair. */
  predicate InPool(exams: seq<Exam>, r: ExamResult, inPool: (ExamResult, Exam) -> bool) {
    match ExamIndex(exams, r.examId)
    case Some(k) => inPool(r, exams[k])
    case None => false
  }

  // -------------------------------------------------------------------------
  // The report loops

  /** getSubjectWiseAverages: the loop over all subjects. */
  method SubjectWiseAverages(subjects: seq<Subject>, exams: seq<Exam>, results: seq<ExamResult>)
    returns (report: seq<SubjectPerformance>)
    requires PositiveMaxima(exams)
    ensures report == SubjectReport(subjects, exams, results)
  {
    report := [];
    var i := 0;
    while i < |subjects|
      invariant 0 <= i <= |subjects|
      invariant |report| == i
      invariant forall k :: 0 <= k < i ==> report[k] == SubjectEntry(subjects[k], exams, results)
    {
      var subject := subjects[i];
      var percentages := Percentages(SubjectMarks(subject.id, exams, results));
      var dto;
      if percentages != [] {
        var n := |percentages| as real;
        var pass := Count(percentages, IsPass);
        var distinction := Count(percentages, IsDistinction);
        dto := SubjectPerformance(subject.id, subject.name, Sum(percentages) / n,
                                  (pass as real) * 100.0 / n, distinction);
      } else {
        dto := SubjectPerformance(subject.id, subject.name, 0.0, 0.0, 0);
      }
      report := report + [dto];
      i := i + 1;
    }
  }

  /** getTeacherWisePerformance: the loop over all teachers. */
  method TeacherWisePerformance(teachers: seq<Teacher>, subjects: seq<Subject>, exams: seq<Exam>,
                                results: seq<ExamResult>)
    returns (report: seq<TeacherPerformance>)
    requires PositiveMaxima(exams)
    ensures report == TeacherReport(teachers, subjects, exams, results)
  {
    report := [];
    var i := 0;
    while i < |teachers|
      invariant 0 <= i <= |teachers|
      invariant |report| == i
      invariant forall k :: 0 <= k < i ==> report[k] == TeacherEntry(teachers[k], subjects, exams, results)
    {
      var teacher := teachers[i];
      var percentages := Percentages(TeacherMarks(teacher.id, subjects, exams, results));
      var dto;
      if percentages != [] {
        var n := |percentages| as real;
        var avgPct := Sum(percentages) / n;
        var pass := Count(percentages, IsPass);
        var distinction := Count(percentages, IsDistinction);
        var passPct := (pass as real) * 100.0 / n;
        dto := TeacherPerformance(teacher.id, teacher.name, avgPct, passPct, distinction,
                                  avgPct * 0.6 + passPct * 0.3 + ((distinction as real) * 100.0 / n) * 0.1);
      } else {
        dto := TeacherPerformance(teacher.id, teacher.name, 0.0, 0.0, 0, 0.0);
      }
      report := report + [dto];
      i := i + 1;
    }
  }

  // -------------------------------------------------------------------------
  // Ranking

  /** Non-increasing by average marks. */
  predicate Descending(ps: seq<StudentPerformance>) {
    forall i, j :: 0 <= i < j < |ps| ==> ps[i].averageMarks >= ps[j].averageMarks
  }

  /** Places `x` before the first element whose average does not exceed its own. */
  function Insert(x: StudentPerformance, ps: seq<StudentPerformance>): seq<StudentPerformance> {
    if ps == [] || x.averageMarks >= ps[0].averageMarks then [x] + ps
    else [ps[0]] + Insert(x, ps[1..])
  }

  /** `sorted(comparingDouble(getAverageMarks).reversed())`: a stable sort,
      highest average first. */
  function Ranked(ps: seq<StudentPerformance>): seq<StudentPerformance> {
    if ps == [] then [] else Insert(ps[0], Ranked(ps[1..]))
  }

  /** The entries with one given average. */
  function WithAverage(v: real): StudentPerformance -> bool {
    (p: StudentPerformance) => p.averageMarks == v
  }

  lemma {:induction false} InsertPermutes(x: StudentPerformance, ps: seq<StudentPerformance>)
    ensures multiset(Insert(x, ps)) == multiset(ps) + multiset{x}
  {
    if ps != [] && x.averageMarks < ps[0].averageMarks {
      InsertPermutes(x, ps[1..]);
      assert ps == [ps[0]] + ps[1..];
    }
  }

  /** An entry whose average is at least the head's may go in front. */
  lemma {:induction false} DescendingCons(a: StudentPerformance, ps: seq<StudentPerformance>)
    requires Descending(ps) && (ps != [] ==> a.averageMarks >= ps[0].averageMarks)
    ensures Descending([a] + ps)
  {
    var r := [a] + ps;
    forall i, j | 0 <= i < j < |r| ensures r[i].averageMarks >= r[j].averageMarks {
      assert r[j] == ps[j - 1];
      if i > 0 {
        assert r[i] == ps[i - 1];
      } else if j > 1 {
        assert ps[0].averageMarks >= ps[j - 1].averageMarks;
      }
    }
  }

  lemma {:induction false} InsertDescending(x: StudentPerformance, ps: seq<StudentPerformance>)
    requires Descending(ps)
    ensures Descending(Insert(x, ps))
  {
    if ps != [] && x.averageMarks < ps[0].averageMarks {
      var tail := ps[1..];
      assert Descending(tail) by {
        forall i, j | 0 <= i < j < |tail| ensures tail[i].averageMarks >= tail[j].averageMarks {
          assert tail[i] == ps[i + 1] && tail[j] == ps[j + 1];
        }
      }
      InsertDescending(x, tail);
      var rest := Insert(x, tail);
      if tail != [] {
        assert tail[0] == ps[1];
        assert rest[0] == x || rest[0] == tail[0];
      }
      DescendingCons(ps[0], rest);
    } else {
      DescendingCons(x, ps);
    }
  }

  lemma {:induction false} InsertStable(x: StudentPerformance, ps: seq<StudentPerformance>, v: real)
    ensures Filter(Insert(x, ps), WithAverage(v)) == Filter([x] + ps, WithAverage(v))
  {
    if ps != [] && x.averageMarks < ps[0].averageMarks {
      var q := WithAverage(v);
      var tail := ps[1..];
      var hx: seq<StudentPerformance> := if q(x) then [x] else [];
      var h0: seq<StudentPerformance> := if q(ps[0]) then [ps[0]] else [];
      var ft := Filter(tail, q);
      assert ps == [ps[0]] + tail;
      // x and the head have different averages, so at most one of them has average v
      assert hx == [] || h0 == [];
      calc {
        Filter(Insert(x, ps), q);
        Filter([ps[0]] + Insert(x, tail), q);
        { FilterCons(ps[0], Insert(x, tail), q); }
        h0 + Filter(Insert(x, tail), q);
        { InsertStable(x, tail, v); FilterCons(x, tail, q); }
        h0 + (hx + ft);
        { if hx == [] { assert hx + ft == ft; } else { assert h0 + ft == ft; } }
        hx + (h0 + ft);
        { FilterCons(ps[0], tail, q); }
        hx + Filter(ps, q);
        { FilterCons(x, ps, q); }
        Filter([x] + ps, q);
      }
    }
  }

  /** The ranking is sorted highest first, is a permutation of its input,
      and is stable: the entries sharing an average keep their input order. */
  lemma {:induction false} RankedFacts(ps: seq<StudentPerformance>)
    ensures Descending(Ranked(ps))
    ensures multiset(Ranked(ps)) == multiset(ps)
    ensures forall v :: Filter(Ranked(ps), WithAverage(v)) == Filter(ps, WithAverage(v))
  {
    if ps != [] {
      RankedFacts(ps[1..]);
      InsertDescending(ps[0], Ranked(ps[1..]));
      InsertPermutes(ps[0], Ranked(ps[1..]));
      assert ps == [ps[0]] + ps[1..];
      forall v ensures Filter(Ranked(ps), WithAverage(v)) == Filter(ps, WithAverage(v)) {
        var q := WithAverage(v);
        InsertStable(ps[0], Ranked(ps[1..]), v);
        FilterAppend([ps[0]], Ranked(ps[1..]), q);
        FilterAppend([ps[0]], ps[1..], q);
      }
    }
  }

  /** `.limit(n)`. */
  function Take<T>(xs: seq<T>, n: nat): seq<T> {
    if n <= |xs| then xs[..n] else xs
  }

  /** Every student's entry, tagged with the student's year. */
  function StudentEntries(students: seq<Student>, exams: seq<Exam>, results: seq<ExamResult>)
    : seq<StudentPerformance>
    requires PositiveMaxima(exams)
  {
    seq(|students|, i requires 0 <= i < |students| =>
      StudentEntry(students[i], Some(students[i].year), exams, results))
  }

  /** getTopPerformingStudents: rank every student, keep the first `limit`;
      a negative limit is rejected by `Stream.limit`. */
  function TopPerformingStudents(students: seq<Student>, exams: seq<Exam>, results: seq<ExamResult>,
                                 limit: int): Result<seq<StudentPerformance>>
    requires PositiveMaxima(exams)
  {
    if limit < 0 then Failure(InvalidInput)
    else Success(Take(Ranked(StudentEntries(students, exams, results)), limit))
  }

  function InYear(year: int): Student -> bool {
    (s: Student) => s.year == year
  }

  /** getTopStudentsByYear: the same ranking over the students of one year. */
  function TopStudentsByYear(students: seq<Student>, exams: seq<Exam>, results: seq<ExamResult>,
                             year: int, limit: int): Result<seq<StudentPerformance>>
    requires PositiveMaxima(exams)
  {
    TopPerformingStudents(Filter(students, InYear(year)), exams, results, limit)
  }

  /** The top list has min(limit, #students) entries, highest average first,
      and is a prefix of a stable sort of all entries; a negative limit fails. */
  lemma {:induction false} TopPerformingFacts(students: seq<Student>, exams: seq<Exam>, results: seq<ExamResult>, limit: int)
    requires PositiveMaxima(exams)
    ensures TopPerformingStudents(students, exams, results, limit).Failure? <==> limit < 0
    ensures limit >= 0 ==>
      var all := StudentEntries(students, exams, results);
      var top := TopPerformingStudents(students, exams, results, limit).value;
      && |top| == (if limit < |students| then limit else |students|)
      && Descending(top)
      && top == Ranked(all)[..|top|]
      && multiset(Ranked(all)) == multiset(all)
      && (forall v :: Filter(Ranked(all), WithAverage(v)) == Filter(all, WithAverage(v)))
  {
    if limit >= 0 {
      var all := StudentEntries(students, exams, results);
      RankedFacts(all);
      assert |Ranked(all)| == |all| by {
        assert |multiset(Ranked(all))| == |multiset(all)|;
      }
    }
  }

  /** The by-year list fails exactly on a negative limit. Otherwise it holds
      only students of that year, at most `limit` of them and all of them
      when there are fewer, and it is the head of the stable descending
      ranking of that year's students: the best of them. */
  lemma {:induction false} TopStudentsByYearFacts(students: seq<Student>, exams: seq<Exam>, results: seq<ExamResult>,
                               year: int, limit: int)
    requires PositiveMaxima(exams)
    ensures TopStudentsByYear(students, exams, results, year, limit).Failure? <==> limit < 0
    ensures limit >= 0 ==>
            var top := TopStudentsByYear(students, exams, results, year, limit).value;
            var n := Count(students, InYear(year));
            && |top| == (if limit < n then limit else n)
            && (forall i :: 0 <= i < |top| ==> top[i].year == Some(year))
            && Descending(top)
            && top == Ranked(StudentEntries(Filter(students, InYear(year)), exams, results))[..|top|]
  {
    if limit >= 0 {
      var inYear := Filter(students, InYear(year));
      CountIsFilterLength(students, InYear(year));
      TopPerformingFacts(inYear, exams, results, limit);
      var all := StudentEntries(inYear, exams, results);
      var top := TopStudentsByYear(students, exams, results, year, limit).value;
      RankedFacts(all);
      forall i | 0 <= i < |top| ensures top[i].year == Some(year) {
        assert top[i] in multiset(Ranked(all));
        assert top[i] in all;
      }
    }
  }
}
