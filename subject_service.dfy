/** SubjectServiceImpl: the subject catalogue, teacher assignment, and the
    subject performance report that unboxes every result's marks. */
module SubjectService {
  import opened Common
  import opened Seqs
  import opened Entities
  import opened Metrics
  import opened Analytics
  import opened Repository

  /** The fields of the subject form the service reads; `teacherId` is None
      when the form names no teacher. */
  datatype SubjectForm = SubjectForm(name: string, code: string, year: int, teacherId: Option<nat>)

  /** The teacher a form assigns: an absent id assigns none, a known id that
      teacher, an unknown id fails with NotFound. */
  function FormTeacher(teachers: seq<Teacher>, teacherId: Option<nat>): (r: Result<Option<nat>>)
    ensures teacherId.None? ==> r == Success(None)
    ensures teacherId.Some? ==> (r.Success? <==> teacherId.value in TeacherIds(teachers))
    ensures r.Failure? ==> r.error == NotFound
    ensures r.Success? ==> r.value == teacherId
  {
    if teacherId.None? then Success(None)
    else if TeacherIndex(teachers, teacherId.value).Some? then
      assert teachers[TeacherIndex(teachers, teacherId.value).value] in teachers;
      Success(teacherId)
    else
      if teacherId.value in TeacherIds(teachers) then
        TeacherFound(teachers, teacherId.value);
        Failure(NotFound)
      else
        Failure(NotFound)
  }

  /** createSubject: an unknown teacher id fails with NotFound; otherwise the
      subject is saved under a fresh id, unassigned when no teacher is named.
      Existing students are not enrolled in it. */
  method CreateSubject(db: Store, form: SubjectForm) returns (r: Result<Subject>)
    requires db.Valid()
    modifies db`subjects
    ensures db.Valid()
    ensures r.Failure? <==> form.teacherId.Some? && form.teacherId.value !in TeacherIds(db.teachers)
    ensures r.Failure? ==> r.error == NotFound && db.subjects == old(db.subjects)
    ensures r.Success? ==>
      && r.value.id !in SubjectIds(old(db.subjects))
      && r.value == Subject(r.value.id, form.name, form.code, form.year, form.teacherId)
      && db.subjects == old(db.subjects) + [r.value]
  {
    var teacher := FormTeacher(db.teachers, form.teacherId);
    if teacher.Failure? {
      return Failure(teacher.error);
    }
    var id := FreshKey(db.subjects, (s: Subject) => s.id);
    var subject := Subject(id, form.name, form.code, form.year, teacher.value);
    assert id !in SubjectIds(db.subjects);
    AppendSubject(db.subjects, subject);
    db.subjects := db.subjects + [subject];
    r := Success(subject);
  }

  /** updateSubject: an unknown subject, then an unknown teacher id, fail with
      NotFound; otherwise name, code and year are written and the assignment
      becomes the form's teacher, cleared when the form names none. The
      enrollments are not reconciled with a changed year. */
  method UpdateSubject(db: Store, id: nat, form: SubjectForm) returns (r: Result<Subject>)
    requires db.Valid()
    modifies db`subjects
    ensures db.Valid()
    ensures r.Failure? <==>
      id !in SubjectIds(old(db.subjects))
      || (form.teacherId.Some? && form.teacherId.value !in TeacherIds(db.teachers))
    ensures r.Failure? ==> r.error == NotFound && db.subjects == old(db.subjects)
    ensures r.Success? ==>
      var k := SubjectIndex(old(db.subjects), id).value;
      && r.value == Subject(id, form.name, form.code, form.year, form.teacherId)
      && db.subjects == old(db.subjects)[k := r.value]
  {
    var found := SubjectIndex(db.subjects, id);
    if found.None? {
      if id in SubjectIds(db.subjects) {
        SubjectFound(db.subjects, id);
      }
      return Failure(NotFound);
    }
    var k := found.value;
    assert db.subjects[k] in db.subjects;
    var teacher := FormTeacher(db.teachers, form.teacherId);
    if teacher.Failure? {
      return Failure(teacher.error);
    }
    var subject := Subject(id, form.name, form.code, form.year, teacher.value);
    ReplaceSubject(db, k, subject);
    db.subjects := db.subjects[k := subject];
    r := Success(subject);
  }

  /** assignTeacherToSubject: an unknown subject, then an unknown teacher,
      fail with NotFound; otherwise only that subject's assignment changes. */
  method AssignTeacher(db: Store, subjectId: nat, teacherId: nat) returns (r: Result<Subject>)
    requires db.Valid()
    modifies db`subjects
    ensures db.Valid()
    ensures r.Failure? <==> subjectId !in SubjectIds(old(db.subjects)) || teacherId !in TeacherIds(db.teachers)
    ensures r.Failure? ==> r.error == NotFound && db.subjects == old(db.subjects)
    ensures r.Success? ==>
      var k := SubjectIndex(old(db.subjects), subjectId).value;
      && r.value == old(db.subjects)[k].(teacher := Some(teacherId))
      && db.subjects == old(db.subjects)[k := r.value]
  {
    var found := SubjectIndex(db.subjects, subjectId);
    if found.None? {
      if subjectId in SubjectIds(db.subjects) {
        SubjectFound(db.subjects, subjectId);
      }
      return Failure(NotFound);
    }
    var k := found.value;
    assert db.subjects[k] in db.subjects;
    var teacher := FormTeacher(db.teachers, Some(teacherId));
    if teacher.Failure? {
      return Failure(teacher.error);
    }
    var subject := db.subjects[k].(teacher := Some(teacherId));
    ReplaceSubject(db, k, subject);
    db.subjects := db.subjects[k := subject];
    r := Success(subject);
  }

  function NotSubject(id: nat): Subject -> bool {
    (s: Subject) => s.id != id
  }

  function NotInSubject(id: nat): Enrollment -> bool {
    (e: Enrollment) => e.subjectId != id
  }

  function ExamNotOf(id: nat): Exam -> bool {
    (e: Exam) => e.subjectId != id
  }

  function OfExams(ids: set<nat>): ExamResult -> bool {
    (r: ExamResult) => r.examId in ids
  }

  /** deleteSubject: an unknown id fails with NotFound; otherwise the subject
      goes, and by the cascades its enrollments, its exams and their results. */
  method DeleteSubject(db: Store, id: nat) returns (o: Outcome)
    requires db.Valid()
    modifies db`subjects, db`enrollments, db`exams, db`results
    ensures db.Valid()
    ensures o.Failed? <==> id !in SubjectIds(old(db.subjects))
    ensures o.Failed? ==>
      && o == Failed(NotFound) && db.subjects == old(db.subjects) && db.enrollments == old(db.enrollments)
      && db.exams == old(db.exams) && db.results == old(db.results)
    ensures o.Done? ==>
      && db.subjects == Filter(old(db.subjects), NotSubject(id))
      && db.enrollments == Filter(old(db.enrollments), NotInSubject(id))
      && db.exams == Filter(old(db.exams), ExamNotOf(id))
      && db.results == Filter(old(db.results), OfExams(ExamIds(db.exams)))
      && id !in SubjectIds(db.subjects)
  {
    if SubjectIndex(db.subjects, id).None? {
      if id in SubjectIds(db.subjects) {
        SubjectFound(db.subjects, id);
      }
      return Failed(NotFound);
    }
    var subjects' := Filter(db.subjects, NotSubject(id));
    var rows' := Filter(db.enrollments, NotInSubject(id));
    var exams' := Filter(db.exams, ExamNotOf(id));
    var results' := Filter(db.results, OfExams(ExamIds(exams')));
    KeptSubjects(db.subjects, id);
    KeptExams(db.exams, db.subjects, id);
    FilterNoDuplicates(db.enrollments, NotInSubject(id));
    UniqueKeysFilter(db.results, OfExams(ExamIds(exams')));
    KeptLinks(db.teachers, db.students, db.subjects, db.enrollments, db.exams, db.results, id);
    db.subjects, db.enrollments, db.exams, db.results := subjects', rows', exams', results';
    o := Done;
  }

  /** A result survives the deletion exactly when its exam is not one of the
      deleted subject's exams. */
  lemma {:induction false} DeletedResults(exams: seq<Exam>, results: seq<ExamResult>, id: nat, i: nat)
    requires UniqueExams(exams) && i < |results| && results[i].examId in ExamIds(exams)
    ensures var kept := Filter(results, OfExams(ExamIds(Filter(exams, ExamNotOf(id)))));
      results[i] in kept <==> exams[ExamIndex(exams, results[i].examId).value].subjectId != id
  {
    var r := results[i];
    var kept := Filter(results, OfExams(ExamIds(Filter(exams, ExamNotOf(id)))));
    var e :| e in exams && e.id == r.examId;
    var k :| 0 <= k < |exams| && exams[k] == e;
    ExamIndexOfMember(exams, k);
    if e.subjectId != id {
      assert e in Filter(exams, ExamNotOf(id));
    }
    if r in kept {
      var f :| f in Filter(exams, ExamNotOf(id)) && f.id == r.examId;
      var m :| 0 <= m < |exams| && exams[m] == f;
      ExamIndexOfMember(exams, m);
    }
  }

  // -------------------------------------------------------------------------
  // Subject performance without the graded-only filter

  predicate HasUngraded(ms: seq<Mark>) {
    exists i :: 0 <= i < |ms| && !IsGraded(ms[i])
  }

  /** `map(r -> r.getMarksObtained() * 100.0 / max)` over every result: a null
      mark fails the unboxing; with every mark present the list is the list of
      graded percentages. */
  function Unboxed(ms: seq<Mark>): (r: Result<seq<real>>)
    requires PositiveMaxMarks(ms)
    ensures r.Failure? <==> HasUngraded(ms)
    ensures r.Failure? ==> r.error == NullMarks
    ensures r.Success? ==> r.value == Percentages(ms)
  {
    if ms == [] then Success([])
    else if ms[0].marks.None? then Failure(NullMarks)
    else
      match Unboxed(ms[1..])
      case Failure(e) =>
        assert !IsGraded(ms[1..][0]) || HasUngraded(ms[1..]);
        var j :| 0 <= j < |ms[1..]| && !IsGraded(ms[1..][j]);
        assert ms[1..][j] == ms[j + 1];
        Failure(e)
      case Success(ps) =>
        assert !HasUngraded(ms) by {
          forall i | 0 <= i < |ms| ensures IsGraded(ms[i]) {
            if i > 0 {
              assert ms[i] == ms[1..][i - 1];
            }
          }
        }
        Success([Percent(ms[0].marks.value, ms[0].maxMarks)] + ps)
  }

  /** The source's entry for one subject. */
  function UnfilteredEntry(s: Subject, exams: seq<Exam>, results: seq<ExamResult>): Result<SubjectPerformance>
    requires PositiveMaxima(exams)
  {
    match Unboxed(SubjectMarks(s.id, exams, results))
    case Failure(e) => Failure(e)
    case Success(ps) =>
      var m := Summarize(ps);
      Success(SubjectPerformance(s.id, s.name, m.average, m.passPercentage, m.distinctionCount))
  }

  /** A subject whose results are all graded gets the same entry as in the
      subject-wise analytics; a null mark fails the entry. */
  lemma {:induction false} UnfilteredEntryFacts(s: Subject, exams: seq<Exam>, results: seq<ExamResult>)
    requires PositiveMaxima(exams)
    ensures UnfilteredEntry(s, exams, results).Failure? <==> HasUngraded(SubjectMarks(s.id, exams, results))
    ensures UnfilteredEntry(s, exams, results).Success? ==>
      UnfilteredEntry(s, exams, results).value == SubjectEntry(s, exams, results)
  {
  }

  /** getAllSubjectPerformance: one entry per subject in catalogue order,
      failing with NullMarks as soon as a subject's exams have a result
      without marks. Otherwise the report is the subject-wise analytics. */
  method AllSubjectPerformance(db: Store) returns (r: Result<seq<SubjectPerformance>>)
    requires db.Valid()
    ensures r.Failure? <==>
      exists i :: 0 <= i < |db.subjects| && HasUngraded(SubjectMarks(db.subjects[i].id, db.exams, db.results))
    ensures r.Failure? ==> r.error == NullMarks
    ensures r.Success? ==> r.value == SubjectReport(db.subjects, db.exams, db.results)
  {
    var report: seq<SubjectPerformance> := [];
    var i := 0;
    while i < |db.subjects|
      invariant 0 <= i <= |db.subjects| && |report| == i
      invariant forall k :: 0 <= k < i ==> !HasUngraded(SubjectMarks(db.subjects[k].id, db.exams, db.results))
      invariant forall k :: 0 <= k < i ==> report[k] == SubjectEntry(db.subjects[k], db.exams, db.results)
    {
      var subject := db.subjects[i];
      var entry := UnfilteredEntry(subject, db.exams, db.results);
      UnfilteredEntryFacts(subject, db.exams, db.results);
      if entry.Failure? {
        return Failure(entry.error);
      }
      report := report + [entry.value];
      i := i + 1;
    }
    r := Success(report);
  }

  // -------------------------------------------------------------------------
  // Keeping the store valid

  lemma {:induction false} AppendSubject(subjects: seq<Subject>, s: Subject)
    requires UniqueSubjects(subjects) && s.id !in SubjectIds(subjects)
    ensures UniqueSubjects(subjects + [s])
    ensures SubjectIds(subjects + [s]) == SubjectIds(subjects) + {s.id}
  {
    var xs := subjects + [s];
    forall i, j | 0 <= i < j < |xs| ensures xs[i].id != xs[j].id {
      if j == |subjects| {
        assert xs[i] in subjects;
      }
    }
  }

  /** Rewriting a subject under its own id with a known (or no) teacher
      keeps the catalogue valid. */
  lemma {:induction false} ReplaceSubject(db: Store, k: nat, s: Subject)
    requires db.Valid() && k < |db.subjects| && s.id == db.subjects[k].id
    requires s.teacher.Some? ==> s.teacher.value in TeacherIds(db.teachers)
    ensures UniqueSubjects(db.subjects[k := s])
    ensures SubjectIds(db.subjects[k := s]) == SubjectIds(db.subjects)
    ensures TeachersLinked(db.subjects[k := s], db.teachers)
  {
    SameSubjectIds(db.subjects, db.subjects[k := s]);
  }

  lemma {:induction false} KeptSubjects(subjects: seq<Subject>, id: nat)
    requires UniqueSubjects(subjects)
    ensures UniqueSubjects(Filter(subjects, NotSubject(id)))
    ensures SubjectIds(Filter(subjects, NotSubject(id))) == SubjectIds(subjects) - {id}
  {
    var f := Filter(subjects, NotSubject(id));
    FilterDistinctKeys(subjects, (s: Subject) => s.id, NotSubject(id));
    forall x | x in SubjectIds(subjects) - {id} ensures x in SubjectIds(f) {
      var s :| s in subjects && s.id == x;
      var i :| 0 <= i < |subjects| && subjects[i] == s;
    }
  }

  /** After the cascade every remaining row still names existing rows. */
  lemma {:induction false} KeptLinks(teachers: seq<Teacher>, students: seq<Student>, subjects: seq<Subject>,
                  rows: seq<Enrollment>, exams: seq<Exam>, results: seq<ExamResult>, id: nat)
    requires UniqueSubjects(subjects)
    requires TeachersLinked(subjects, teachers) && EnrollmentsLinked(rows, students, subjects)
    requires ResultsLinked(results, exams, students)
    ensures var subjects' := Filter(subjects, NotSubject(id));
            var exams' := Filter(exams, ExamNotOf(id));
            && TeachersLinked(subjects', teachers)
            && EnrollmentsLinked(Filter(rows, NotInSubject(id)), students, subjects')
            && ResultsLinked(Filter(results, OfExams(ExamIds(exams'))), exams', students)
  {
    var subjects' := Filter(subjects, NotSubject(id));
    KeptSubjects(subjects, id);
    forall i | 0 <= i < |subjects'| && subjects'[i].teacher.Some?
      ensures subjects'[i].teacher.value in TeacherIds(teachers)
    {
      var j :| 0 <= j < |subjects| && subjects[j] == subjects'[i];
    }
    var rows' := Filter(rows, NotInSubject(id));
    forall i | 0 <= i < |rows'|
      ensures rows'[i].studentId in StudentIds(students) && rows'[i].subjectId in SubjectIds(subjects')
    {
      var j :| 0 <= j < |rows| && rows[j] == rows'[i];
    }
    var exams' := Filter(exams, ExamNotOf(id));
    var results' := Filter(results, OfExams(ExamIds(exams')));
    forall i | 0 <= i < |results'|
      ensures results'[i].examId in ExamIds(exams') && results'[i].studentId in StudentIds(students)
    {
      var j :| 0 <= j < |results| && results[j] == results'[i];
    }
  }

  /** The exams of the other subjects keep unique ids and their links. */
  lemma {:induction false} KeptExams(exams: seq<Exam>, subjects: seq<Subject>, id: nat)
    requires UniqueExams(exams) && PositiveMaxima(exams) && ExamsLinked(exams, subjects)
    ensures UniqueExams(Filter(exams, ExamNotOf(id)))
    ensures PositiveMaxima(Filter(exams, ExamNotOf(id)))
    ensures ExamsLinked(Filter(exams, ExamNotOf(id)), Filter(subjects, NotSubject(id)))
  {
    var f := Filter(exams, ExamNotOf(id));
    FilterDistinctKeys(exams, (e: Exam) => e.id, ExamNotOf(id));
    forall i | 0 <= i < |f| ensures f[i].maxMarks >= 1 && f[i].subjectId in SubjectIds(Filter(subjects, NotSubject(id))) {
      var j :| 0 <= j < |exams| && exams[j] == f[i];
      var s :| s in subjects && s.id == f[i].subjectId;
      var m :| 0 <= m < |subjects| && subjects[m] == s;
    }
  }
}
