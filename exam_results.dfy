/** The exam-result store: results keyed by (exam, student), the validated
    upsert of one result request, the bulk upsert as a left-to-right fold,
    the completion counters of an exam, and the per-exam roster. */
module ExamResults {
  import opened Common
  import opened Seqs
  import opened Entities

  function HasKey(examId: nat, studentId: nat): ExamResult -> bool {
    (r: ExamResult) => r.examId == examId && r.studentId == studentId
  }

  /** `findByExamAndStudent`: the position of the result for the pair. */
  function ResultIndex(rows: seq<ExamResult>, examId: nat, studentId: nat): Option<nat> {
    IndexOf(rows, HasKey(examId, studentId))
  }

  /** The stored marks of the pair's result, None when there is no result. */
  function Lookup(rows: seq<ExamResult>, examId: nat, studentId: nat): Option<Option<int>> {
    match ResultIndex(rows, examId, studentId)
    case Some(k) => Some(rows[k].marks)
    case None => None
  }

  /** Find the pair's result or create one, then set its marks and save it. */
  function Upsert(rows: seq<ExamResult>, examId: nat, studentId: nat, marks: Option<int>): seq<ExamResult> {
    match ResultIndex(rows, examId, studentId)
    case Some(k) => rows[k := ExamResult(examId, studentId, marks)]
    case None => rows + [ExamResult(examId, studentId, marks)]
  }

  // -------------------------------------------------------------------------
  // The upsert

  /** After an upsert the pair holds the given marks. */
  lemma {:induction false} UpsertLookup(rows: seq<ExamResult>, examId: nat, studentId: nat, marks: Option<int>)
    ensures Lookup(Upsert(rows, examId, studentId, marks), examId, studentId) == Some(marks)
  {
    var u := Upsert(rows, examId, studentId, marks);
    match ResultIndex(rows, examId, studentId)
    case Some(k) =>
      assert forall i :: 0 <= i < k ==> u[i] == rows[i];
      IndexOfIs(u, HasKey(examId, studentId), k);
    case None =>
      assert forall i :: 0 <= i < |rows| ==> u[i] == rows[i];
      IndexOfIs(u, HasKey(examId, studentId), |rows|);
  }

  /** Every other pair keeps its result, or keeps having none. */
  lemma {:induction false} UpsertOthers(rows: seq<ExamResult>, examId: nat, studentId: nat, marks: Option<int>,
                     e: nat, s: nat)
    requires e != examId || s != studentId
    ensures Lookup(Upsert(rows, examId, studentId, marks), e, s) == Lookup(rows, e, s)
  {
    var u := Upsert(rows, examId, studentId, marks);
    assert forall i :: 0 <= i < |rows| ==> (HasKey(e, s)(u[i]) <==> HasKey(e, s)(rows[i]));
    assert forall i :: 0 <= i < |rows| && HasKey(e, s)(rows[i]) ==> u[i] == rows[i];
    match ResultIndex(rows, e, s)
    case Some(k) =>
      assert u[k] == rows[k];
    case None =>
      if |u| > |rows| {
        assert !HasKey(e, s)(u[|rows|]);
      }
  }

  /** An upsert never creates a second result for a pair. */
  lemma {:induction false} UpsertUnique(rows: seq<ExamResult>, examId: nat, studentId: nat, marks: Option<int>)
    requires UniqueResultKeys(rows)
    ensures UniqueResultKeys(Upsert(rows, examId, studentId, marks))
  {
    var u := Upsert(rows, examId, studentId, marks);
    match ResultIndex(rows, examId, studentId)
    case Some(k) =>
      forall i, j | 0 <= i < j < |u|
        ensures u[i].examId != u[j].examId || u[i].studentId != u[j].studentId
      {
        if i == k {
          assert rows[k].examId == u[k].examId && rows[k].studentId == u[k].studentId;
        } else if j == k {
          assert rows[k].examId == u[k].examId && rows[k].studentId == u[k].studentId;
        }
      }
    case None =>
      forall i, j | 0 <= i < j < |u|
        ensures u[i].examId != u[j].examId || u[i].studentId != u[j].studentId
      {
        if j == |rows| {
          assert !HasKey(examId, studentId)(rows[i]);
        }
      }
  }

  /** With unique keys the pair has exactly one result after an upsert. */
  lemma {:induction false} UpsertSingle(rows: seq<ExamResult>, examId: nat, studentId: nat, marks: Option<int>)
    requires UniqueResultKeys(rows)
    ensures Filter(Upsert(rows, examId, studentId, marks), HasKey(examId, studentId))
         == [ExamResult(examId, studentId, marks)]
  {
    var u := Upsert(rows, examId, studentId, marks);
    UpsertUnique(rows, examId, studentId, marks);
    UpsertLookup(rows, examId, studentId, marks);
    var k := ResultIndex(u, examId, studentId).value;
    assert forall i :: 0 <= i < |u| && i != k ==> !HasKey(examId, studentId)(u[i]);
    FilterSingle(u, HasKey(examId, studentId), k);
  }

  /** A sequence with exactly one element satisfying `p` filters to that element. */
  lemma {:induction false} FilterSingle<T>(xs: seq<T>, p: T -> bool, k: nat)
    requires k < |xs| && p(xs[k])
    requires forall i :: 0 <= i < |xs| && i != k ==> !p(xs[i])
    ensures Filter(xs, p) == [xs[k]]
  {
    if k == 0 {
      assert forall i :: 0 <= i < |xs[1..]| ==> !p(xs[1..][i]) by {
        forall i | 0 <= i < |xs[1..]| ensures !p(xs[1..][i]) {
          assert xs[1..][i] == xs[i + 1];
        }
      }
      FilterNone(xs[1..], p);
    } else {
      assert forall i :: 0 <= i < |xs[1..]| && i != k - 1 ==> !p(xs[1..][i]) by {
        forall i | 0 <= i < |xs[1..]| && i != k - 1 ensures !p(xs[1..][i]) {
          assert xs[1..][i] == xs[i + 1];
        }
      }
      FilterSingle(xs[1..], p, k - 1);
    }
  }

  lemma {:induction false} FilterNone<T>(xs: seq<T>, p: T -> bool)
    requires forall i :: 0 <= i < |xs| ==> !p(xs[i])
    ensures Filter(xs, p) == []
  {
    if xs != [] {
      FilterNone(xs[1..], p);
    }
  }

  /** Upserting the same marks again changes nothing. */
  lemma {:induction false} UpsertIdempotent(rows: seq<ExamResult>, examId: nat, studentId: nat, marks: Option<int>)
    ensures Upsert(Upsert(rows, examId, studentId, marks), examId, studentId, marks)
         == Upsert(rows, examId, studentId, marks)
  {
    UpsertOverwrite(rows, examId, studentId, marks, marks);
  }

  /** A second upsert of the pair replaces the first: the later marks win. */
  lemma {:induction false} UpsertOverwrite(rows: seq<ExamResult>, examId: nat, studentId: nat, first: Option<int>,
                        second: Option<int>)
    ensures Upsert(Upsert(rows, examId, studentId, first), examId, studentId, second)
         == Upsert(rows, examId, studentId, second)
  {
    var u := Upsert(rows, examId, studentId, first);
    match ResultIndex(rows, examId, studentId)
    case Some(k) =>
      assert forall i :: 0 <= i < |u| ==> (HasKey(examId, studentId)(u[i]) <==> HasKey(examId, studentId)(rows[i]));
      assert ResultIndex(u, examId, studentId) == Some(k);
    case None =>
      assert forall i :: 0 <= i < |rows| ==> u[i] == rows[i];
      IndexOfIs(u, HasKey(examId, studentId), |rows|);
  }

  // -------------------------------------------------------------------------
  // A result request

  /** One row of the result form: the student by roll number or by id. */
  datatype ResultRequest = ResultRequest(examId: nat, studentId: Option<nat>, rollNo: Option<string>,
                                         marks: Option<int>)

  /** The student a request names: by roll number when that is present and not
      blank, otherwise by id; a missing id is rejected by `findById`. */
  function ResolveStudent(students: seq<Student>, req: ResultRequest): Result<nat> {
    if IsPresent(req.rollNo) then
      match RollNoIndex(students, req.rollNo.value)
      case Some(k) => Success(students[k].id)
      case None => Failure(NotFound)
    else if req.studentId.None? then Failure(InvalidInput)
    else
      match StudentIndex(students, req.studentId.value)
      case Some(k) => Success(students[k].id)
      case None => Failure(NotFound)
  }

  /** A roll number that is absent or blank, such as one made only of the
      unit separator U+001F, is passed over: the student is looked up by id. */
  lemma {:induction false} BlankRollNoUsesId(students: seq<Student>, req: ResultRequest)
    requires !IsPresent(req.rollNo)
    ensures ResolveStudent(students, req) == ResolveStudent(students, req.(rollNo := None))
    ensures req.studentId.Some? ==>
      ResolveStudent(students, req) ==
        match StudentIndex(students, req.studentId.value)
        case Some(k) => Success(students[k].id)
        case None => Failure(NotFound)
  {
  }

  /** The checks of addOrUpdateResult, in order: the exam, the student, then
      the marks (unboxing null marks fails; marks above the maximum are
      rejected). The result is the row to write. */
  function CheckResult(exams: seq<Exam>, students: seq<Student>, req: ResultRequest): Result<ExamResult> {
    match ExamIndex(exams, req.examId)
    case None => Failure(NotFound)
    case Some(k) =>
      match ResolveStudent(students, req)
      case Failure(e) => Failure(e)
      case Success(sid) =>
        if req.marks.None? then Failure(NullMarks)
        else if req.marks.value > exams[k].maxMarks then Failure(InvalidInput)
        else Success(ExamResult(exams[k].id, sid, req.marks))
  }

  /** addOrUpdateResult on the result rows. */
  function ApplyResult(exams: seq<Exam>, students: seq<Student>, rows: seq<ExamResult>,
                       req: ResultRequest): Result<seq<ExamResult>>
  {
    match CheckResult(exams, students, req)
    case Failure(e) => Failure(e)
    case Success(r) => Success(Upsert(rows, r.examId, r.studentId, r.marks))
  }

  /** addOrUpdateBulkResults: the requests applied left to right; the first
      failing one aborts the whole call. */
  function ApplyBulk(exams: seq<Exam>, students: seq<Student>, rows: seq<ExamResult>,
                     reqs: seq<ResultRequest>): Result<seq<ExamResult>>
    decreases |reqs|
  {
    if reqs == [] then Success(rows)
    else match ApplyBulk(exams, students, rows, reqs[..|reqs| - 1])
      case Failure(e) => Failure(e)
      case Success(r) => ApplyResult(exams, students, r, reqs[|reqs| - 1])
  }

  /** A request is accepted exactly when its exam exists, its student
      resolves, its marks are present and at most the exam's maximum (equal
      to the maximum is accepted); the stored row is keyed by that exam and
      student and holds the given marks. The checks fail in order: an unknown
      exam is NotFound; then the student's error, NotFound for an unknown roll
      number or id and InvalidInput when neither is given; then NullMarks;
      then InvalidInput for marks above the maximum. */
  lemma {:induction false} CheckResultFacts(exams: seq<Exam>, students: seq<Student>, req: ResultRequest)
    ensures CheckResult(exams, students, req).Success? <==>
      && ExamIndex(exams, req.examId).Some?
      && ResolveStudent(students, req).Success?
      && req.marks.Some?
      && req.marks.value <= exams[ExamIndex(exams, req.examId).value].maxMarks
    ensures ExamIndex(exams, req.examId).None? ==> CheckResult(exams, students, req) == Failure(NotFound)
    ensures ExamIndex(exams, req.examId).Some? && ResolveStudent(students, req).Failure?
            ==> CheckResult(exams, students, req) == Failure(ResolveStudent(students, req).error)
    ensures ExamIndex(exams, req.examId).Some? && IsPresent(req.rollNo)
            && RollNoIndex(students, req.rollNo.value).None?
            ==> CheckResult(exams, students, req) == Failure(NotFound)
    ensures ExamIndex(exams, req.examId).Some? && !IsPresent(req.rollNo) && req.studentId.None?
            ==> CheckResult(exams, students, req) == Failure(InvalidInput)
    ensures ExamIndex(exams, req.examId).Some? && !IsPresent(req.rollNo) && req.studentId.Some?
            && StudentIndex(students, req.studentId.value).None?
            ==> CheckResult(exams, students, req) == Failure(NotFound)
    ensures ExamIndex(exams, req.examId).Some? && ResolveStudent(students, req).Success? && req.marks.None?
            ==> CheckResult(exams, students, req) == Failure(NullMarks)
    ensures ExamIndex(exams, req.examId).Some? && ResolveStudent(students, req).Success? && req.marks.Some?
            && req.marks.value > exams[ExamIndex(exams, req.examId).value].maxMarks
            ==> CheckResult(exams, students, req) == Failure(InvalidInput)
    ensures CheckResult(exams, students, req).Success? ==>
      var r := CheckResult(exams, students, req).value;
      r.examId == req.examId && r.marks == req.marks
      && r.studentId in StudentIds(students)
  {
    match ExamIndex(exams, req.examId)
    case None =>
    case Some(k) =>
      match ResolveStudent(students, req)
      case Failure(_) =>
      case Success(sid) =>
        if IsPresent(req.rollNo) {
          assert students[RollNoIndex(students, req.rollNo.value).value] in students;
        } else {
          assert students[StudentIndex(students, req.studentId.value).value] in students;
        }
  }

  /** A successful request leaves its pair holding the given marks, leaves
      every other pair as it was, and keeps the keys unique; a failing one
      writes nothing. */
  lemma {:induction false} ApplyResultFacts(exams: seq<Exam>, students: seq<Student>, rows: seq<ExamResult>,
                         req: ResultRequest, e: nat, s: nat)
    ensures ApplyResult(exams, students, rows, req).Success? <==> CheckResult(exams, students, req).Success?
    ensures ApplyResult(exams, students, rows, req).Success? ==>
      var r := CheckResult(exams, students, req).value;
      var u := ApplyResult(exams, students, rows, req).value;
      && Lookup(u, r.examId, r.studentId) == Some(req.marks)
      && ((e != r.examId || s != r.studentId) ==> Lookup(u, e, s) == Lookup(rows, e, s))
      && (UniqueResultKeys(rows) ==> UniqueResultKeys(u))
  {
    if CheckResult(exams, students, req).Success? {
      var r := CheckResult(exams, students, req).value;
      CheckResultFacts(exams, students, req);
      UpsertLookup(rows, r.examId, r.studentId, r.marks);
      if e != r.examId || s != r.studentId {
        UpsertOthers(rows, r.examId, r.studentId, r.marks, e, s);
      }
      if UniqueResultKeys(rows) {
        UpsertUnique(rows, r.examId, r.studentId, r.marks);
      }
    }
  }

  /** Submitting the same request twice leaves the same rows as submitting it once. */
  lemma {:induction false} ApplyResultIdempotent(exams: seq<Exam>, students: seq<Student>, rows: seq<ExamResult>,
                              req: ResultRequest)
    requires ApplyResult(exams, students, rows, req).Success?
    ensures ApplyResult(exams, students, ApplyResult(exams, students, rows, req).value, req)
         == ApplyResult(exams, students, rows, req)
  {
    var r := CheckResult(exams, students, req).value;
    UpsertIdempotent(rows, r.examId, r.studentId, r.marks);
  }

  /** One more request extends the fold by one step. */
  lemma {:induction false} ApplyBulkStep(exams: seq<Exam>, students: seq<Student>, rows: seq<ExamResult>,
                                         reqs: seq<ResultRequest>, i: nat)
    requires i < |reqs|
    ensures ApplyBulk(exams, students, rows, reqs[..i + 1]) ==
      match ApplyBulk(exams, students, rows, reqs[..i])
      case Failure(e) => Failure(e)
      case Success(r) => ApplyResult(exams, students, r, reqs[i])
  {
    var p := reqs[..i + 1];
    assert p[..|p| - 1] == reqs[..i] && p[|p| - 1] == reqs[i];
  }

  /** Once a prefix of the requests fails, the whole bulk call fails the same way. */
  lemma {:induction false} ApplyBulkFailureExtends(exams: seq<Exam>, students: seq<Student>,
                                                   rows: seq<ExamResult>, reqs: seq<ResultRequest>, n: nat)
    requires n <= |reqs| && ApplyBulk(exams, students, rows, reqs[..n]).Failure?
    ensures ApplyBulk(exams, students, rows, reqs) == ApplyBulk(exams, students, rows, reqs[..n])
    decreases |reqs| - n
  {
    if n < |reqs| {
      var init := reqs[..|reqs| - 1];
      assert init[..n] == reqs[..n];
      ApplyBulkFailureExtends(exams, students, rows, init, n);
    } else {
      assert reqs[..n] == reqs;
    }
  }

  /** Every request of the list passes its checks, stated the way the fold
      runs: from the last request back. */
  predicate AllAccepted(exams: seq<Exam>, students: seq<Student>, reqs: seq<ResultRequest>)
    decreases |reqs|
  {
    reqs == [] || (AllAccepted(exams, students, reqs[..|reqs| - 1])
                   && CheckResult(exams, students, reqs[|reqs| - 1]).Success?)
  }

  lemma {:induction false} ApplyBulkAccepted(exams: seq<Exam>, students: seq<Student>, rows: seq<ExamResult>,
                                             reqs: seq<ResultRequest>)
    ensures ApplyBulk(exams, students, rows, reqs).Success? <==> AllAccepted(exams, students, reqs)
    decreases |reqs|
  {
    if reqs != [] {
      ApplyBulkAccepted(exams, students, rows, reqs[..|reqs| - 1]);
    }
  }

  lemma {:induction false} AllAcceptedEach(exams: seq<Exam>, students: seq<Student>, reqs: seq<ResultRequest>)
    ensures AllAccepted(exams, students, reqs) <==>
      forall i :: 0 <= i < |reqs| ==> CheckResult(exams, students, reqs[i]).Success?
    decreases |reqs|
  {
    if reqs != [] {
      var init := reqs[..|reqs| - 1];
      AllAcceptedEach(exams, students, init);
      assert forall i :: 0 <= i < |init| ==> init[i] == reqs[i];
      if AllAccepted(exams, students, reqs) {
        forall i | 0 <= i < |reqs| ensures CheckResult(exams, students, reqs[i]).Success? {
          if i == |init| {
            assert reqs[i] == reqs[|reqs| - 1];
          }
        }
      } else if CheckResult(exams, students, reqs[|reqs| - 1]).Success? {
        var i :| 0 <= i < |init| && !CheckResult(exams, students, init[i]).Success?;
        assert reqs[i] == init[i];
      }
    }
  }

  /** The bulk call fails exactly when one of its requests fails its checks. */
  lemma {:induction false} ApplyBulkFails(exams: seq<Exam>, students: seq<Student>, rows: seq<ExamResult>,
                       reqs: seq<ResultRequest>)
    ensures ApplyBulk(exams, students, rows, reqs).Failure? <==>
      exists i :: 0 <= i < |reqs| && CheckResult(exams, students, reqs[i]).Failure?
  {
    ApplyBulkAccepted(exams, students, rows, reqs);
    AllAcceptedEach(exams, students, reqs);
  }

  /** In a successful bulk call a later request for the same pair wins: each
      pair ends up with the marks of the last request naming it. */
  lemma {:induction false} ApplyBulkLastWins(exams: seq<Exam>, students: seq<Student>, rows: seq<ExamResult>,
                                             reqs: seq<ResultRequest>, i: nat)
    requires ApplyBulk(exams, students, rows, reqs).Success?
    requires i < |reqs| && CheckResult(exams, students, reqs[i]).Success?
    requires var r := CheckResult(exams, students, reqs[i]).value;
             forall j :: i < j < |reqs| ==>
               CheckResult(exams, students, reqs[j]).Success? ==>
               (CheckResult(exams, students, reqs[j]).value.examId != r.examId
                || CheckResult(exams, students, reqs[j]).value.studentId != r.studentId)
    ensures var r := CheckResult(exams, students, reqs[i]).value;
            Lookup(ApplyBulk(exams, students, rows, reqs).value, r.examId, r.studentId) == Some(reqs[i].marks)
    decreases |reqs|
  {
    var init, last := reqs[..|reqs| - 1], reqs[|reqs| - 1];
    var r := CheckResult(exams, students, reqs[i]).value;
    var prev := ApplyBulk(exams, students, rows, init).value;
    if i == |reqs| - 1 {
      ApplyResultFacts(exams, students, prev, last, r.examId, r.studentId);
    } else {
      assert init[i] == reqs[i];
      forall j | i < j < |init| ensures
        CheckResult(exams, students, init[j]).Success? ==>
        (CheckResult(exams, students, init[j]).value.examId != r.examId
         || CheckResult(exams, students, init[j]).value.studentId != r.studentId)
      {
        assert init[j] == reqs[j];
      }
      ApplyBulkLastWins(exams, students, rows, init, i);
      ApplyResultFacts(exams, students, prev, last, r.examId, r.studentId);
    }
  }

  /** In a successful bulk call a pair that no accepted request names keeps
      the marks it had, or keeps having no result. */
  lemma {:induction false} ApplyBulkOthers(exams: seq<Exam>, students: seq<Student>, rows: seq<ExamResult>,
                                           reqs: seq<ResultRequest>, e: nat, s: nat)
    requires ApplyBulk(exams, students, rows, reqs).Success?
    requires forall j :: 0 <= j < |reqs| ==>
               CheckResult(exams, students, reqs[j]).Success? ==>
               (CheckResult(exams, students, reqs[j]).value.examId != e
                || CheckResult(exams, students, reqs[j]).value.studentId != s)
    ensures Lookup(ApplyBulk(exams, students, rows, reqs).value, e, s) == Lookup(rows, e, s)
    decreases |reqs|
  {
    if reqs != [] {
      var init, last := reqs[..|reqs| - 1], reqs[|reqs| - 1];
      forall j | 0 <= j < |init| ensures
        CheckResult(exams, students, init[j]).Success? ==>
        (CheckResult(exams, students, init[j]).value.examId != e
         || CheckResult(exams, students, init[j]).value.studentId != s)
      {
        assert init[j] == reqs[j];
      }
      ApplyBulkOthers(exams, students, rows, init, e, s);
      var prev := ApplyBulk(exams, students, rows, init).value;
      ApplyResultFacts(exams, students, prev, last, e, s);
    }
  }

  /** A successful bulk call keeps the (exam, student) keys unique. */
  lemma {:induction false} ApplyBulkUnique(exams: seq<Exam>, students: seq<Student>, rows: seq<ExamResult>,
                                           reqs: seq<ResultRequest>)
    requires UniqueResultKeys(rows) && ApplyBulk(exams, students, rows, reqs).Success?
    ensures UniqueResultKeys(ApplyBulk(exams, students, rows, reqs).value)
    decreases |reqs|
  {
    if reqs != [] {
      ApplyBulkUnique(exams, students, rows, reqs[..|reqs| - 1]);
      var prev := ApplyBulk(exams, students, rows, reqs[..|reqs| - 1]).value;
      ApplyResultFacts(exams, students, prev, reqs[|reqs| - 1], 0, 0);
    }
  }

  // -------------------------------------------------------------------------
  // Completion counters

  function OfSubject(subjectId: nat): Enrollment -> bool {
    (en: Enrollment) => en.subjectId == subjectId
  }

  /** The ids of the students enrolled in a subject. */
  function EnrolledStudents(enrollments: seq<Enrollment>, subjectId: nat): set<nat> {
    set en | en in enrollments && en.subjectId == subjectId :: en.studentId
  }

  /** `totalStudents`: the number of enrollments of the exam's subject. */
  function TotalStudents(enrollments: seq<Enrollment>, subjectId: nat): nat {
    Count(enrollments, OfSubject(subjectId))
  }

  function EnteredFor(examId: nat, enrolled: set<nat>): ExamResult -> bool {
    (r: ExamResult) => r.examId == examId && r.studentId in enrolled
  }

  /** `resultsEntered`: the results of the exam whose student is enrolled in
      its subject, graded or not. */
  function ResultsEntered(enrollments: seq<Enrollment>, results: seq<ExamResult>, exam: Exam): nat {
    Count(results, EnteredFor(exam.id, EnrolledStudents(enrollments, exam.subjectId)))
  }

  /** The enrolled students are no more than the enrollment rows. */
  lemma {:induction false} EnrolledStudentsBound(enrollments: seq<Enrollment>, subjectId: nat)
    ensures |EnrolledStudents(enrollments, subjectId)| <= TotalStudents(enrollments, subjectId)
  {
    if enrollments != [] {
      var tail := enrollments[1..];
      EnrolledStudentsBound(tail, subjectId);
      assert enrollments == [enrollments[0]] + tail;
      var head := if enrollments[0].subjectId == subjectId then {enrollments[0].studentId} else {};
      assert EnrolledStudents(enrollments, subjectId) == EnrolledStudents(tail, subjectId) + head;
    }
  }

  /** The student ids of the entered results. */
  function EnteredIds(results: seq<ExamResult>, examId: nat, enrolled: set<nat>): set<nat> {
    set r | r in results && r.examId == examId && r.studentId in enrolled :: r.studentId
  }

  /** With unique keys, the entered results have distinct students, all enrolled. */
  lemma {:induction false} EnteredIdsCount(results: seq<ExamResult>, examId: nat, enrolled: set<nat>)
    requires UniqueResultKeys(results)
    ensures |EnteredIds(results, examId, enrolled)| == Count(results, EnteredFor(examId, enrolled))
    ensures EnteredIds(results, examId, enrolled) <= enrolled
  {
    if results != [] {
      var tail := results[1..];
      assert UniqueResultKeys(tail) by {
        forall i, j | 0 <= i < j < |tail|
          ensures tail[i].examId != tail[j].examId || tail[i].studentId != tail[j].studentId
        {
          assert tail[i] == results[i + 1] && tail[j] == results[j + 1];
        }
      }
      EnteredIdsCount(tail, examId, enrolled);
      assert results == [results[0]] + tail;
      var r := results[0];
      if EnteredFor(examId, enrolled)(r) {
        assert r.studentId !in EnteredIds(tail, examId, enrolled);
        assert EnteredIds(results, examId, enrolled) == EnteredIds(tail, examId, enrolled) + {r.studentId};
      } else {
        assert EnteredIds(results, examId, enrolled) == EnteredIds(tail, examId, enrolled);
      }
    }
  }

  /** With unique (exam, student) keys an exam never shows more results
      entered than students enrolled. */
  lemma {:induction false} EnteredAtMostTotal(enrollments: seq<Enrollment>, results: seq<ExamResult>, exam: Exam)
    requires UniqueResultKeys(results)
    ensures ResultsEntered(enrollments, results, exam) <= TotalStudents(enrollments, exam.subjectId)
  {
    var enrolled := EnrolledStudents(enrollments, exam.subjectId);
    EnteredIdsCount(results, exam.id, enrolled);
    EnrolledStudentsBound(enrollments, exam.subjectId);
    SubsetCardinality(EnteredIds(results, exam.id, enrolled), enrolled);
  }

  lemma {:induction false} SubsetCardinality(a: set<nat>, b: set<nat>)
    requires a <= b
    ensures |a| <= |b|
  {
    assert b == a + (b - a);
  }

  /** Three enrolled students and four results of the exam, one of them for a
      student who is not enrolled: three of three entered. */
  lemma {:induction false} CompletionExample()
    ensures var ens := [Enrollment(1, 7), Enrollment(2, 7), Enrollment(3, 7), Enrollment(4, 8)];
            var rs := [ExamResult(5, 1, Some(10)), ExamResult(5, 2, None), ExamResult(5, 3, Some(4)),
                       ExamResult(5, 4, Some(9))];
            var ex := Exam(5, "Cycle Test 1", "CYCLE_TEST", 7, 3, 20, None, "");
            TotalStudents(ens, 7) == 3 && ResultsEntered(ens, rs, ex) == 3
  {
    var ens := [Enrollment(1, 7), Enrollment(2, 7), Enrollment(3, 7), Enrollment(4, 8)];
    assert EnrolledStudents(ens, 7) == {1, 2, 3} by {
      assert ens[0] in ens && ens[1] in ens && ens[2] in ens;
    }
  }

  // -------------------------------------------------------------------------
  // The roster of an exam

  datatype RosterRow = RosterRow(examId: nat, studentId: nat, rollNo: string, name: string,
                                 maxMarks: int, marks: Option<int>)

  /** The marks of the pair's result if there is one, otherwise none. */
  function RosterMarks(results: seq<ExamResult>, examId: nat, studentId: nat): Option<int> {
    match Lookup(results, examId, studentId)
    case Some(m) => m
    case None => None
  }

  /** The row of one enrollment: the enrolled student's id, roll number and
      name, the exam's id and maximum, and the stored marks. Every enrollment
      of a valid store names a stored student; were it not so, the row would
      carry the enrollment's student id and an empty roll number and name. */
  function RowFor(exam: Exam, students: seq<Student>, en: Enrollment, results: seq<ExamResult>): (row: RosterRow)
    ensures row.studentId == en.studentId && row.examId == exam.id && row.maxMarks == exam.maxMarks
    ensures row.marks == RosterMarks(results, exam.id, en.studentId)
    ensures StudentIndex(students, en.studentId).Some? ==>
      var st := students[StudentIndex(students, en.studentId).value];
      row.rollNo == st.rollNo && row.name == st.name
  {
    match StudentIndex(students, en.studentId)
    case Some(k) =>
      var st := students[k];
      RosterRow(exam.id, st.id, st.rollNo, st.name, exam.maxMarks, RosterMarks(results, exam.id, st.id))
    case None =>
      RosterRow(exam.id, en.studentId, "", "", exam.maxMarks, RosterMarks(results, exam.id, en.studentId))
  }

  function RosterRows(exam: Exam, students: seq<Student>, ens: seq<Enrollment>, results: seq<ExamResult>)
    : seq<RosterRow>
  {
    if ens == [] then []
    else
      (if ens[0].subjectId == exam.subjectId then [RowFor(exam, students, ens[0], results)] else [])
      + RosterRows(exam, students, ens[1..], results)
  }

  /** getExamStudents: one row per enrollment of the exam's subject. */
  function ExamStudents(exams: seq<Exam>, students: seq<Student>, enrollments: seq<Enrollment>,
                        results: seq<ExamResult>, examId: nat): Result<seq<RosterRow>>
  {
    match ExamIndex(exams, examId)
    case None => Failure(NotFound)
    case Some(k) => Success(RosterRows(exams[k], students, enrollments, results))
  }

  /** The roster has one row per enrollment of the subject, in enrollment
      order, for that enrollment's student, with the stored marks of the
      student's result for this exam or none. */
  lemma {:induction false} RosterRowsFacts(exam: Exam, students: seq<Student>, ens: seq<Enrollment>,
                                           results: seq<ExamResult>)
    ensures var rows := RosterRows(exam, students, ens, results);
            var mine := Filter(ens, OfSubject(exam.subjectId));
            && |rows| == |mine| == TotalStudents(ens, exam.subjectId)
            && forall i :: 0 <= i < |rows| ==>
                 && rows[i].studentId == mine[i].studentId
                 && rows[i].examId == exam.id && rows[i].maxMarks == exam.maxMarks
                 && rows[i].marks == RosterMarks(results, exam.id, mine[i].studentId)
  {
    var rows, mine := RosterRows(exam, students, ens, results), Filter(ens, OfSubject(exam.subjectId));
    CountIsFilterLength(ens, OfSubject(exam.subjectId));
    RosterRowsLength(exam, students, ens, results);
    forall i | 0 <= i < |rows|
      ensures rows[i].studentId == mine[i].studentId
      ensures rows[i].examId == exam.id && rows[i].maxMarks == exam.maxMarks
      ensures rows[i].marks == RosterMarks(results, exam.id, mine[i].studentId)
    {
      RosterRowAt(exam, students, ens, results, i);
    }
  }

  lemma {:induction false} RosterRowsLength(exam: Exam, students: seq<Student>, ens: seq<Enrollment>,
                                            results: seq<ExamResult>)
    ensures |RosterRows(exam, students, ens, results)| == Count(ens, OfSubject(exam.subjectId))
  {
    if ens != [] {
      RosterRowsLength(exam, students, ens[1..], results);
    }
  }

  lemma {:induction false} RosterRowAt(exam: Exam, students: seq<Student>, ens: seq<Enrollment>,
                                       results: seq<ExamResult>, i: nat)
    requires i < Count(ens, OfSubject(exam.subjectId))
    ensures |RosterRows(exam, students, ens, results)| == Count(ens, OfSubject(exam.subjectId))
                                                       == |Filter(ens, OfSubject(exam.subjectId))|
    ensures RosterRows(exam, students, ens, results)[i].studentId == Filter(ens, OfSubject(exam.subjectId))[i].studentId
    ensures RosterRows(exam, students, ens, results)[i].examId == exam.id
    ensures RosterRows(exam, students, ens, results)[i].maxMarks == exam.maxMarks
    ensures RosterRows(exam, students, ens, results)[i].marks
         == RosterMarks(results, exam.id, Filter(ens, OfSubject(exam.subjectId))[i].studentId)
  {
    var q := OfSubject(exam.subjectId);
    var tail := ens[1..];
    RosterRowsLength(exam, students, ens, results);
    RosterRowsLength(exam, students, tail, results);
    CountIsFilterLength(ens, q);
    CountIsFilterLength(tail, q);
    var rows, rest := RosterRows(exam, students, ens, results), RosterRows(exam, students, tail, results);
    var mine, others := Filter(ens, q), Filter(tail, q);
    assert ens == [ens[0]] + tail;
    FilterCons(ens[0], tail, q);
    if q(ens[0]) {
      var row := RowFor(exam, students, ens[0], results);
      assert rows == [row] + rest;
      assert mine == [ens[0]] + others;
      if i == 0 {
        assert rows[i] == row && mine[i] == ens[0];
      } else {
        RosterRowAt(exam, students, tail, results, i - 1);
        ConsAt(row, rest, i);
        ConsAt(ens[0], others, i);
      }
    } else {
      assert rows == rest && mine == others;
      RosterRowAt(exam, students, tail, results, i);
    }
  }

  /** The roster of an unknown exam fails with NotFound; otherwise it is
      the roster of the exam's subject. */
  lemma {:induction false} ExamStudentsFacts(exams: seq<Exam>, students: seq<Student>, enrollments: seq<Enrollment>,
                          results: seq<ExamResult>, examId: nat)
    ensures ExamStudents(exams, students, enrollments, results, examId).Failure? <==> examId !in ExamIds(exams)
    ensures ExamStudents(exams, students, enrollments, results, examId).Success? ==>
      |ExamStudents(exams, students, enrollments, results, examId).value|
        == TotalStudents(enrollments, exams[ExamIndex(exams, examId).value].subjectId)
  {
    match ExamIndex(exams, examId)
    case None =>
      assert examId !in ExamIds(exams);
    case Some(k) =>
      assert exams[k] in exams;
      RosterRowsFacts(exams[k], students, enrollments, results);
  }

  /** The roster does not consult the exam's target year. */
  lemma {:induction false} RosterIgnoresTargetYear(exam: Exam, students: seq<Student>, ens: seq<Enrollment>,
                                results: seq<ExamResult>, targetYear: int)
    ensures RosterRows(exam.(targetYear := targetYear), students, ens, results)
         == RosterRows(exam, students, ens, results)
  {
    if ens != [] {
      RosterIgnoresTargetYear(exam, students, ens[1..], results, targetYear);
    }
  }
}
