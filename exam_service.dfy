/** ExamServiceImpl: the exam table, and the result upserts written one
    row at a time. Each mutating call runs in one transaction: when it
    fails, the tables it touched are restored. */
module ExamService {
  import opened Common
  import opened Seqs
  import opened Entities
  import opened ExamResults
  import opened Repository

  /** The fields of the exam form the service reads; `date` is the text of
      the date field, None when absent. */
  datatype ExamForm = ExamForm(name: string, examType: string, subjectId: nat, targetYear: int,
                               maxMarks: int, date: Option<string>, description: string)

  /** The date an exam keeps: a present, non-empty date field replaces the
      stored date, an absent or empty one keeps it. */
  function KeepDate(date: Option<string>, stored: Option<string>): (d: Option<string>)
    ensures date.Some? && date.value != [] ==> d == date
    ensures (date.None? || date.value == []) ==> d == stored
  {
    if date.Some? && date.value != [] then date else stored
  }

  /** The exam a form describes, under the given id and with the given date. */
  function FromForm(id: nat, form: ExamForm, date: Option<string>): (e: Exam)
    ensures e.id == id && e.subjectId == form.subjectId && e.maxMarks == form.maxMarks && e.date == date
  {
    Exam(id, form.name, form.examType, form.subjectId, form.targetYear, form.maxMarks, date, form.description)
  }

  // -------------------------------------------------------------------------
  // The exam table

  /** createExam: an unknown subject fails with NotFound; otherwise the exam is
      saved under a fresh id, with the date only when one is given. The form
      has passed validation, so its maximum is at least 1. */
  method CreateExam(db: Store, form: ExamForm) returns (r: Result<Exam>)
    requires db.Valid() && form.maxMarks >= 1
    modifies db`exams
    ensures db.Valid()
    ensures r.Failure? <==> form.subjectId !in SubjectIds(db.subjects)
    ensures r.Failure? ==> r.error == NotFound && db.exams == old(db.exams)
    ensures r.Success? ==>
      && r.value.id !in ExamIds(old(db.exams))
      && r.value == FromForm(r.value.id, form, KeepDate(form.date, None))
      && db.exams == old(db.exams) + [r.value]
  {
    if SubjectIndex(db.subjects, form.subjectId).None? {
      if form.subjectId in SubjectIds(db.subjects) {
        SubjectFound(db.subjects, form.subjectId);
      }
      return Failure(NotFound);
    }
    SubjectIndexIn(db.subjects, form.subjectId);
    var id := FreshKey(db.exams, (e: Exam) => e.id);
    var exam := FromForm(id, form, KeepDate(form.date, None));
    assert id !in ExamIds(db.exams);
    AppendExam(db.exams, exam);
    db.exams := db.exams + [exam];
    r := Success(exam);
  }

  /** updateExam: an unknown exam, then an unknown subject, fail with
      NotFound; otherwise every field of the form is written and the stored
      date is kept unless the form carries a non-empty one. The new maximum
      may lie below marks already entered. */
  method UpdateExam(db: Store, id: nat, form: ExamForm) returns (r: Result<Exam>)
    requires db.Valid() && form.maxMarks >= 1
    modifies db`exams
    ensures db.Valid()
    ensures r.Failure? <==> id !in ExamIds(old(db.exams)) || form.subjectId !in SubjectIds(db.subjects)
    ensures r.Failure? ==> r.error == NotFound && db.exams == old(db.exams)
    ensures r.Success? ==>
      var k := ExamIndex(old(db.exams), id).value;
      && r.value == FromForm(id, form, KeepDate(form.date, old(db.exams)[k].date))
      && db.exams == old(db.exams)[k := r.value]
  {
    var found := ExamIndex(db.exams, id);
    if found.None? {
      if id in ExamIds(db.exams) {
        ExamFound(db.exams, id);
      }
      return Failure(NotFound);
    }
    var k := found.value;
    assert db.exams[k] in db.exams;
    if SubjectIndex(db.subjects, form.subjectId).None? {
      if form.subjectId in SubjectIds(db.subjects) {
        SubjectFound(db.subjects, form.subjectId);
      }
      return Failure(NotFound);
    }
    SubjectIndexIn(db.subjects, form.subjectId);
    var exam := FromForm(id, form, KeepDate(form.date, db.exams[k].date));
    ReplaceExam(db.exams, k, exam);
    db.exams := db.exams[k := exam];
    r := Success(exam);
  }

  function NotExam(id: nat): Exam -> bool {
    (e: Exam) => e.id != id
  }

  function NotResultFor(id: nat): ExamResult -> bool {
    (r: ExamResult) => r.examId != id
  }

  /** deleteExam: an unknown id fails with NotFound; otherwise the exam goes,
      and with it (by the cascade of the exam's results) every result of it. */
  method DeleteExam(db: Store, id: nat) returns (o: Outcome)
    requires db.Valid()
    modifies db`exams, db`results
    ensures db.Valid()
    ensures o.Failed? <==> id !in ExamIds(old(db.exams))
    ensures o.Failed? ==> o == Failed(NotFound) && db.exams == old(db.exams) && db.results == old(db.results)
    ensures o.Done? ==>
      && db.exams == Filter(old(db.exams), NotExam(id))
      && db.results == Filter(old(db.results), NotResultFor(id))
      && id !in ExamIds(db.exams)
      && (forall i :: 0 <= i < |db.results| ==> db.results[i].examId != id)
  {
    if ExamIndex(db.exams, id).None? {
      if id in ExamIds(db.exams) {
        ExamFound(db.exams, id);
      }
      return Failed(NotFound);
    }
    var exams0, results0 := db.exams, db.results;
    db.exams := Filter(db.exams, NotExam(id));
    db.results := Filter(db.results, NotResultFor(id));
    o := Done;
    KeptExams(exams0, id);
    UniqueKeysFilter(results0, NotResultFor(id));
  }

  // -------------------------------------------------------------------------
  // Results

  /** addOrUpdateResult: the checks in order (exam, student, marks), then the
      pair's row is looked up, created when missing, and given the marks. */
  method AddOrUpdateResult(db: Store, req: ResultRequest) returns (o: Outcome)
    requires db.Valid()
    modifies db`results
    ensures db.Valid()
    ensures var r := ApplyResult(db.exams, db.students, old(db.results), req);
            && (r.Success? ==> o == Done && db.results == r.value)
            && (r.Failure? ==> o == Failed(r.error) && db.results == old(db.results))
  {
    var checked := CheckResult(db.exams, db.students, req);
    if checked.Failure? {
      return Failed(checked.error);
    }
    var row := checked.value;
    CheckResultFacts(db.exams, db.students, req);
    ExamFoundIn(db.exams, req.examId);
    var rows := db.results;
    // findByExamAndStudent
    var i := 0;
    while i < |rows| && !(rows[i].examId == row.examId && rows[i].studentId == row.studentId)
      invariant 0 <= i <= |rows|
      invariant forall j :: 0 <= j < i ==> !HasKey(row.examId, row.studentId)(rows[j])
    {
      i := i + 1;
    }
    if i < |rows| {
      IndexOfIs(rows, HasKey(row.examId, row.studentId), i);
      db.results := rows[i := row];
    } else {
      assert IndexOf(rows, HasKey(row.examId, row.studentId)).None?;
      db.results := rows + [row];
    }
    o := Done;
    UpsertUnique(rows, row.examId, row.studentId, row.marks);
    UpsertLinked(rows, row, db.exams, db.students);
  }

  /** addOrUpdateBulkResults: the requests one after the other; a failing
      request aborts the call and the rows written before it roll back. */
  method AddOrUpdateBulkResults(db: Store, reqs: seq<ResultRequest>) returns (o: Outcome)
    requires db.Valid()
    modifies db`results
    ensures db.Valid()
    ensures var r := ApplyBulk(db.exams, db.students, old(db.results), reqs);
            && (r.Success? ==> o == Done && db.results == r.value)
            && (r.Failure? ==> o == Failed(r.error) && db.results == old(db.results))
  {
    var base := db.results;
    var i := 0;
    while i < |reqs|
      invariant 0 <= i <= |reqs|
      invariant db.Valid()
      invariant ApplyBulk(db.exams, db.students, base, reqs[..i]) == Success(db.results)
    {
      ApplyBulkStep(db.exams, db.students, base, reqs, i);
      var step := AddOrUpdateResult(db, reqs[i]);
      if step.Failed? {
        ApplyBulkFailureExtends(db.exams, db.students, base, reqs, i + 1);
        db.results := base;
        return step;
      }
      i := i + 1;
    }
    assert reqs[..i] == reqs;
    o := Done;
  }

  // -------------------------------------------------------------------------
  // Keeping the store valid

  /** Saving an exam under an unused id keeps the ids unique and adds it. */
  lemma {:induction false} AppendExam(exams: seq<Exam>, exam: Exam)
    requires UniqueExams(exams) && exam.id !in ExamIds(exams)
    ensures UniqueExams(exams + [exam])
    ensures ExamIds(exams + [exam]) == ExamIds(exams) + {exam.id}
  {
    var s := exams + [exam];
    forall i, j | 0 <= i < j < |s| ensures s[i].id != s[j].id {
      if j == |exams| {
        assert s[i] in exams;
      }
    }
  }

  /** Rewriting an exam under its own id keeps the ids unique and the id set. */
  lemma {:induction false} ReplaceExam(exams: seq<Exam>, k: nat, exam: Exam)
    requires UniqueExams(exams) && k < |exams| && exam.id == exams[k].id
    ensures UniqueExams(exams[k := exam])
    ensures ExamIds(exams[k := exam]) == ExamIds(exams)
  {
    var s := exams[k := exam];
    assert forall i :: 0 <= i < |exams| ==> s[i].id == exams[i].id;
    forall x | x in ExamIds(exams) ensures x in ExamIds(s) {
      var t :| t in exams && t.id == x;
      var i :| 0 <= i < |exams| && exams[i] == t;
      assert s[i] in s;
    }
  }

  /** Removing one exam keeps the ids unique and every other exam's id. */
  lemma {:induction false} KeptExams(exams: seq<Exam>, id: nat)
    requires UniqueExams(exams)
    ensures UniqueExams(Filter(exams, NotExam(id)))
    ensures ExamIds(Filter(exams, NotExam(id))) == ExamIds(exams) - {id}
  {
    var f := Filter(exams, NotExam(id));
    FilterDistinctKeys(exams, (e: Exam) => e.id, NotExam(id));
    forall x | x in ExamIds(exams) - {id} ensures x in ExamIds(f) {
      var e :| e in exams && e.id == x;
      var i :| 0 <= i < |exams| && exams[i] == e;
    }
  }

  /** An upserted row that names an existing exam and student keeps the
      results linked. */
  lemma {:induction false} UpsertLinked(rows: seq<ExamResult>, row: ExamResult, exams: seq<Exam>, students: seq<Student>)
    requires ResultsLinked(rows, exams, students)
    requires row.examId in ExamIds(exams) && row.studentId in StudentIds(students)
    ensures ResultsLinked(Upsert(rows, row.examId, row.studentId, row.marks), exams, students)
  {
    var u := Upsert(rows, row.examId, row.studentId, row.marks);
    assert forall i :: 0 <= i < |u| ==> u[i] == row || (i < |rows| && u[i] == rows[i]);
  }
}
