/** StudentServiceImpl: creating, updating and deleting students with the
    enrollment reconciliation performed row by row, and the performance of
    one student. Each mutating call runs in one transaction: when it fails,
    every table it touched is restored. */
module StudentService {
  import opened Common
  import opened Seqs
  import opened Entities
  import opened Metrics
  import opened Analytics
  import opened Reconcile
  import opened Repository

  /** The fields of the student form the service reads; `password` and
      `subjectIds` are None when the form carries none. */
  datatype StudentForm = StudentForm(rollNo: string, name: string, year: int, password: Option<string>,
                                     subjectIds: Option<seq<nat>>)

  /** The student as returned to the client. */
  datatype StudentView = StudentView(id: nat, rollNo: string, name: string, year: int, subjectIds: seq<nat>)

  /** mapToDto: the subject ids come from the student's enrollments. */
  function ToView(st: Student, rows: seq<Enrollment>): (v: StudentView)
    ensures v.id == st.id && v.rollNo == st.rollNo && v.name == st.name && v.year == st.year
    ensures forall id :: id in v.subjectIds <==> id in Enrolled(rows, st.id)
  {
    StudentView(st.id, st.rollNo, st.name, st.year, SubjectIdsOf(rows, st.id))
  }

  // -------------------------------------------------------------------------
  // The reconciliation steps

  /** syncYearBasedEnrollments: delete the student's enrollments in subjects
      of other years, then enrol the student in every missing subject of the year. */
  method SyncYearBasedEnrollments(db: Store, sid: nat, year: int)
    modifies db`enrollments
    ensures db.enrollments == Sync(old(db.enrollments), db.subjects, sid, year)
  {
    var rows, subjects := db.enrollments, db.subjects;
    var kept: seq<Enrollment> := [];
    var i := 0;
    while i < |rows|
      invariant 0 <= i <= |rows|
      invariant kept == DropOtherYears(rows[..i], subjects, sid, year)
    {
      var e := rows[i];
      if e.studentId != sid || SubjectYear(subjects, e.subjectId) == Some(year) {
        kept := kept + [e];
      }
      DropOtherYearsStep(rows, subjects, sid, year, i);
      i := i + 1;
    }
    assert rows[..i] == rows;
    var admitted := kept;
    var j := 0;
    while j < |subjects|
      invariant 0 <= j <= |subjects|
      invariant admitted == AdmitAll(kept, sid, year, subjects[..j])
    {
      var subject := subjects[j];
      if subject.year == year && Enrollment(sid, subject.id) !in admitted {
        admitted := admitted + [Enrollment(sid, subject.id)];
      }
      AdmitAllStep(kept, sid, year, subjects, j);
      j := j + 1;
    }
    assert subjects[..j] == subjects;
    db.enrollments := admitted;
  }

  /** The explicit enrollment pass over the requested ids: ids in `skip` are
      passed over, an unknown id stops the pass with NotFound, and a subject
      of the student's year is enrolled unless the pair already has a row. */
  method EnrollRequested(db: Store, sid: nat, year: int, skip: set<nat>, ids: seq<nat>) returns (o: Outcome)
    modifies db`enrollments
    ensures var r := RequestAll(old(db.enrollments), db.subjects, sid, year, skip, ids);
            && (r.Success? ==> o == Done && db.enrollments == r.value)
            && (r.Failure? ==> o == Failed(r.error))
  {
    var base := db.enrollments;
    var i := 0;
    while i < |ids|
      invariant 0 <= i <= |ids|
      invariant RequestAll(base, db.subjects, sid, year, skip, ids[..i]) == Success(db.enrollments)
    {
      var id := ids[i];
      assert ids[..i + 1][..i] == ids[..i];
      if id !in skip {
        var k := SubjectIndex(db.subjects, id);
        if k.None? {
          RequestAllFailureExtends(base, db.subjects, sid, year, skip, ids, i + 1);
          return Failed(NotFound);
        }
        var subject := db.subjects[k.value];
        if subject.year == year && Enrollment(sid, subject.id) !in db.enrollments {
          db.enrollments := db.enrollments + [Enrollment(sid, subject.id)];
        }
      }
      i := i + 1;
    }
    assert ids[..i] == ids;
    return Done;
  }

  /** The delete half of the update delta: the student's enrollments whose
      subject is not requested are deleted. */
  method DeleteUnrequested(db: Store, sid: nat, ids: seq<nat>)
    modifies db`enrollments
    ensures db.enrollments == DropUnrequested(old(db.enrollments), sid, ids)
  {
    var rows := db.enrollments;
    var kept: seq<Enrollment> := [];
    var i := 0;
    while i < |rows|
      invariant 0 <= i <= |rows|
      invariant kept == DropUnrequested(rows[..i], sid, ids)
    {
      var e := rows[i];
      if e.studentId != sid || e.subjectId in ids {
        kept := kept + [e];
      }
      FilterAppend(rows[..i], [e], Requested(sid, ids));
      assert rows[..i + 1] == rows[..i] + [e];
      i := i + 1;
    }
    assert rows[..i] == rows;
    db.enrollments := kept;
  }

  /** The enrollment part of createStudent: the explicit pass (nothing
      skipped) when ids are given, then the sync; on failure the rows are
      left as they were. */
  method CreateEnrollments(db: Store, sid: nat, year: int, ids: Option<seq<nat>>) returns (o: Outcome)
    modifies db`enrollments
    ensures var r := CreateRows(old(db.enrollments), db.subjects, sid, year, ids);
            && (r.Success? ==> o == Done && db.enrollments == r.value)
            && (r.Failure? ==> o == Failed(r.error) && db.enrollments == old(db.enrollments))
  {
    var rows0 := db.enrollments;
    if ids.Some? {
      o := EnrollRequested(db, sid, year, {}, ids.value);
      if o.Failed? {
        db.enrollments := rows0;
        return;
      }
    }
    SyncYearBasedEnrollments(db, sid, year);
    o := Done;
  }

  /** The enrollment part of updateStudent: the delta against the current
      enrollments when ids are given, then the sync for the new year. */
  method UpdateEnrollments(db: Store, sid: nat, year: int, ids: Option<seq<nat>>) returns (o: Outcome)
    modifies db`enrollments
    ensures var r := UpdateRows(old(db.enrollments), db.subjects, sid, year, ids);
            && (r.Success? ==> o == Done && db.enrollments == r.value)
            && (r.Failure? ==> o == Failed(r.error) && db.enrollments == old(db.enrollments))
  {
    var rows0 := db.enrollments;
    if ids.Some? {
      var current := Enrolled(db.enrollments, sid);
      DeleteUnrequested(db, sid, ids.value);
      o := EnrollRequested(db, sid, year, current, ids.value);
      if o.Failed? {
        db.enrollments := rows0;
        return;
      }
    }
    SyncYearBasedEnrollments(db, sid, year);
    o := Done;
  }

  // -------------------------------------------------------------------------
  // The operations

  /** createStudent. A form without a non-blank password leaves the new
      entity's password null, which its not-blank constraint rejects when the
      entity is saved. A roll number already in use is rejected by the unique
      column. Otherwise the student is saved under a fresh id, the requested
      subjects are enrolled (an unknown id fails the call with NotFound and
      nothing persists), and the year-based sync runs. On success the
      student is enrolled in exactly the subjects of the student's year,
      while the returned view, built from the new entity's own (empty)
      enrollment collection, lists no subject. */
  method CreateStudent(db: Store, form: StudentForm) returns (r: Result<StudentView>)
    requires db.Valid()
    modifies db`students, db`enrollments
    ensures db.Valid()
    ensures r.Failure? <==>
      !IsPresent(form.password)
      || RollNoIndex(old(db.students), form.rollNo).Some?
      || (form.subjectIds.Some? && Unresolved(db.subjects, {}, form.subjectIds.value))
    ensures !IsPresent(form.password) ==> r == Failure(InvalidInput)
    ensures IsPresent(form.password) && RollNoIndex(old(db.students), form.rollNo).Some? ==> r == Failure(Conflict)
    ensures IsPresent(form.password) && RollNoIndex(old(db.students), form.rollNo).None?
            && form.subjectIds.Some? && Unresolved(db.subjects, {}, form.subjectIds.value)
            ==> r == Failure(NotFound)
    ensures r.Failure? ==> db.students == old(db.students) && db.enrollments == old(db.enrollments)
    ensures r.Success? ==>
      var st := Student(r.value.id, form.rollNo, form.name, form.year);
      && r.value.id !in StudentIds(old(db.students))
      && db.students == old(db.students) + [st]
      && CreateRows(old(db.enrollments), db.subjects, st.id, form.year, form.subjectIds) == Success(db.enrollments)
      && Enrolled(db.enrollments, st.id) == YearSubjects(db.subjects, form.year)
      && r.value == ToView(st, []) && r.value.subjectIds == []
  {
    if !IsPresent(form.password) {
      return Failure(InvalidInput);
    }
    if RollNoIndex(db.students, form.rollNo).Some? {
      return Failure(Conflict);
    }
    var students0, rows0 := db.students, db.enrollments;
    var sid := FreshKey(db.students, (s: Student) => s.id);
    var saved := Student(sid, form.rollNo, form.name, form.year);
    assert sid !in StudentIds(students0);
    AppendStudent(students0, saved);
    db.students := db.students + [saved];
    CreateFacts(rows0, db.subjects, sid, form.year, form.subjectIds);
    var o := CreateEnrollments(db, sid, form.year, form.subjectIds);
    if o.Failed? {
      db.students := students0;
      return Failure(o.error);
    }
    // The re-fetch finds the entity saved above, whose own enrollment
    // collection no enrollment row was added to.
    r := Success(ToView(saved, []));
    ResultFrom(rows0, db.subjects, sid, form.year, form.subjectIds, false);
    MoreStudents(rows0, db.results, db.exams, db.subjects, students0, db.students);
    RowsFromLinked(db.enrollments, rows0, db.students, db.subjects, sid);
  }

  /** updateStudent. The student is looked up by the roll number of the
      path; the form's name and year are written; when the form carries
      subject ids, the student's unrequested enrollments are deleted and the
      requested ids not enrolled before are looked up (an unknown one fails
      with NotFound) and enrolled when of the year; then the sync runs for the
      new year. The final re-fetch is by the path's roll number, so a form
      that renames the student fails. On success the student is enrolled in
      exactly the subjects of the new year, whatever the form requested. */
  method UpdateStudent(db: Store, rollNo: string, form: StudentForm) returns (r: Result<StudentView>)
    requires db.Valid()
    modifies db`students, db`enrollments
    ensures db.Valid()
    ensures RollNoIndex(old(db.students), rollNo).None? ==> r == Failure(NotFound)
    ensures r.Failure? ==> db.students == old(db.students) && db.enrollments == old(db.enrollments)
    ensures RollNoIndex(old(db.students), rollNo).Some? ==>
      var k := RollNoIndex(old(db.students), rollNo).value;
      var sid := old(db.students)[k].id;
      var unresolved := form.subjectIds.Some? && Unresolved(db.subjects, Enrolled(old(db.enrollments), sid), form.subjectIds.value);
      && (r.Success? <==> form.rollNo == rollNo && !unresolved)
      && (unresolved ==> r == Failure(NotFound))
      && (!unresolved && form.rollNo != rollNo ==>
            r == Failure(if RollNoIndex(old(db.students), form.rollNo).Some? then Conflict else NotFound))
      && (r.Success? ==>
            && db.students == old(db.students)[k := Student(sid, rollNo, form.name, form.year)]
            && UpdateRows(old(db.enrollments), db.subjects, sid, form.year, form.subjectIds) == Success(db.enrollments)
            && r.value == ToView(db.students[k], db.enrollments)
            && (forall id :: id in r.value.subjectIds <==> id in YearSubjects(db.subjects, form.year)))
  {
    var found := RollNoIndex(db.students, rollNo);
    if found.None? {
      return Failure(NotFound);
    }
    var k := found.value;
    var students0, rows0 := db.students, db.enrollments;
    var sid := db.students[k].id;
    var student := Student(sid, form.rollNo, form.name, form.year);
    db.students := db.students[k := student];
    UpdateFacts(rows0, db.subjects, sid, form.year, form.subjectIds);
    var o := UpdateEnrollments(db, sid, form.year, form.subjectIds);
    if o.Failed? {
      db.students := students0;
      return Failure(o.error);
    }
    if form.rollNo != rollNo {
      // The re-fetch by the path's roll number finds nobody, unless the
      // flush of the renamed row first violates the unique roll number.
      var taken := RollNoIndex(students0, form.rollNo).Some?;
      db.students, db.enrollments := students0, rows0;
      return Failure(if taken then Conflict else NotFound);
    }
    r := Success(ToView(student, db.enrollments));
    ReplaceStudent(students0, k, student);
    ResultFrom(rows0, db.subjects, sid, form.year, form.subjectIds, true);
    assert students0[k] in students0;
    MoreStudents(rows0, db.results, db.exams, db.subjects, students0, db.students);
    RowsFromLinked(db.enrollments, rows0, db.students, db.subjects, sid);
  }

  function NotStudent(sid: nat): Student -> bool {
    (s: Student) => s.id != sid
  }

  function NotResultOf(sid: nat): ExamResult -> bool {
    (r: ExamResult) => r.studentId != sid
  }

  /** deleteStudent: an unknown roll number fails with NotFound; otherwise the
      student's results are deleted, then the student, whose enrollments
      go with it. */
  method DeleteStudent(db: Store, rollNo: string) returns (o: Outcome)
    requires db.Valid()
    modifies db`students, db`enrollments, db`results
    ensures db.Valid()
    ensures o.Failed? <==> RollNoIndex(old(db.students), rollNo).None?
    ensures o.Failed? ==>
      && o == Failed(NotFound) && db.students == old(db.students)
      && db.enrollments == old(db.enrollments) && db.results == old(db.results)
    ensures o.Done? ==>
      var sid := old(db.students)[RollNoIndex(old(db.students), rollNo).value].id;
      && db.students == Filter(old(db.students), NotStudent(sid))
      && db.enrollments == OthersRows(old(db.enrollments), sid)
      && db.results == Filter(old(db.results), NotResultOf(sid))
      && sid !in StudentIds(db.students)
  {
    var found := RollNoIndex(db.students, rollNo);
    if found.None? {
      return Failed(NotFound);
    }
    var sid := db.students[found.value].id;
    var students0 := db.students;
    db.results := Filter(db.results, NotResultOf(sid));
    db.students := Filter(db.students, NotStudent(sid));
    db.enrollments := OthersRows(db.enrollments, sid);
    o := Done;
    FilterNoDuplicates(old(db.enrollments), NotOf(sid));
    KeptStudents(students0, sid);
    UniqueKeysFilter(old(db.results), NotResultOf(sid));
  }

  /** Removing one student keeps the keys unique and every other student's id. */
  lemma {:induction false} KeptStudents(students: seq<Student>, sid: nat)
    requires UniqueStudents(students)
    ensures UniqueStudents(Filter(students, NotStudent(sid)))
    ensures StudentIds(Filter(students, NotStudent(sid))) == StudentIds(students) - {sid}
  {
    var f := Filter(students, NotStudent(sid));
    FilterDistinctKeys(students, (s: Student) => s.id, NotStudent(sid));
    FilterDistinctKeys(students, (s: Student) => s.rollNo, NotStudent(sid));
    forall x | x in StudentIds(students) - {sid} ensures x in StudentIds(f) {
      var s :| s in students && s.id == x;
      var i :| 0 <= i < |students| && students[i] == s;
    }
  }

  // -------------------------------------------------------------------------
  // Performance of one student

  /** getStudentPerformanceByRollNo: NotFound for an unknown roll number;
      otherwise the student's entry over all of the student's results, with
      the year left unset. */
  function StudentPerformanceByRollNo(students: seq<Student>, exams: seq<Exam>, results: seq<ExamResult>,
                                      rollNo: string): Result<StudentPerformance>
    requires PositiveMaxima(exams)
  {
    match RollNoIndex(students, rollNo)
    case None => Failure(NotFound)
    case Some(k) => Success(StudentEntry(students[k], None, exams, results))
  }

  /** The student's performance ignores ungraded results; with none graded
      both metrics are 0; otherwise the average is the summary's mean of the
      graded percentages and the pass percentage is 100 times the share of
      graded results with `5 * marks >= 2 * max` (exactly 40 per cent
      passes). The pass percentage lies in [0, 100], and so does the average
      when no marks lie outside [0, max]. */
  lemma {:induction false} StudentPerformanceFacts(students: seq<Student>, exams: seq<Exam>, results: seq<ExamResult>,
                                rollNo: string)
    requires PositiveMaxima(exams)
    ensures StudentPerformanceByRollNo(students, exams, results, rollNo).Failure? <==>
      RollNoIndex(students, rollNo).None?
    ensures StudentPerformanceByRollNo(students, exams, results, rollNo).Success? ==>
      var st := students[RollNoIndex(students, rollNo).value];
      var p := StudentPerformanceByRollNo(students, exams, results, rollNo).value;
      var ms := StudentMarks(st.id, exams, results);
      && p.studentId == st.id && p.rollNo == rollNo && p.year.None?
      && p.averageMarks == SummaryOf(ms).average
      && (Count(ms, IsGraded) == 0 ==> p.averageMarks == 0.0 && p.passPercentage == 0.0)
      && (Count(ms, IsGraded) > 0 ==>
            p.passPercentage == (Count(ms, PassingMark) as real) * 100.0 / (Count(ms, IsGraded) as real))
      && 0.0 <= p.passPercentage <= 100.0
      && ((forall i :: 0 <= i < |ms| ==> InRange(ms[i])) ==> 0.0 <= p.averageMarks <= 100.0)
  {
    match RollNoIndex(students, rollNo)
    case None =>
    case Some(k) =>
      StudentEntryMetrics(students[k], None, exams, results);
  }
}
