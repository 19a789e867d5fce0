/** The persistent state the services share: one table per entity, as the
    JPA repositories hold them, and the invariants every service keeps. The
    schema supplies unique ids, unique roll numbers and one result per (exam,
    student) pair; one enrollment row per (student, subject) pair is kept by
    the enrollment reconciler, not by the storage layer; exam maxima of at
    least 1 come from the exam form's validation. */
module Repository {
  import opened Common
  import opened Seqs
  import opened Entities

  class Store {
    var students: seq<Student>
    var teachers: seq<Teacher>
    var subjects: seq<Subject>
    var exams: seq<Exam>
    var enrollments: seq<Enrollment>
    var results: seq<ExamResult>

    /** Primary keys, unique columns and validated maxima. */
    predicate Keyed()
      reads this
    {
      && UniqueStudents(students)
      && UniqueTeachers(teachers)
      && UniqueSubjects(subjects)
      && UniqueExams(exams)
      && PositiveMaxima(exams)
      && NoDuplicates(enrollments)
      && UniqueResultKeys(results)
    }

    /** Every foreign key names an existing row. */
    predicate Linked()
      reads this
    {
      && TeachersLinked(subjects, teachers)
      && ExamsLinked(exams, subjects)
      && EnrollmentsLinked(enrollments, students, subjects)
      && ResultsLinked(results, exams, students)
    }

    predicate Valid()
      reads this
    {
      Keyed() && Linked()
    }

    /** An empty database. */
    constructor()
      ensures Valid()
      ensures students == [] && teachers == [] && subjects == [] && exams == []
      ensures enrollments == [] && results == []
    {
      students, teachers, subjects, exams := [], [], [], [];
      enrollments, results := [], [];
    }
  }

  // The foreign keys of each table

  predicate TeachersLinked(subjects: seq<Subject>, teachers: seq<Teacher>) {
    forall i :: 0 <= i < |subjects| && subjects[i].teacher.Some? ==>
      subjects[i].teacher.value in TeacherIds(teachers)
  }

  predicate ExamsLinked(exams: seq<Exam>, subjects: seq<Subject>) {
    forall i :: 0 <= i < |exams| ==> exams[i].subjectId in SubjectIds(subjects)
  }

  predicate EnrollmentsLinked(rows: seq<Enrollment>, students: seq<Student>, subjects: seq<Subject>) {
    forall i :: 0 <= i < |rows| ==>
      rows[i].studentId in StudentIds(students) && rows[i].subjectId in SubjectIds(subjects)
  }

  predicate ResultsLinked(results: seq<ExamResult>, exams: seq<Exam>, students: seq<Student>) {
    forall i :: 0 <= i < |results| ==>
      results[i].examId in ExamIds(exams) && results[i].studentId in StudentIds(students)
  }

  /** An id that is in a table's id set is found by `findById`. */
  lemma {:induction false} StudentFound(students: seq<Student>, id: nat)
    requires id in StudentIds(students)
    ensures StudentIndex(students, id).Some?
  {
    var s :| s in students && s.id == id;
    var i :| 0 <= i < |students| && students[i] == s;
  }

  lemma {:induction false} SubjectFound(subjects: seq<Subject>, id: nat)
    requires id in SubjectIds(subjects)
    ensures SubjectIndex(subjects, id).Some?
  {
    var s :| s in subjects && s.id == id;
    var i :| 0 <= i < |subjects| && subjects[i] == s;
  }

  lemma {:induction false} TeacherFound(teachers: seq<Teacher>, id: nat)
    requires id in TeacherIds(teachers)
    ensures TeacherIndex(teachers, id).Some?
  {
    var t :| t in teachers && t.id == id;
    var i :| 0 <= i < |teachers| && teachers[i] == t;
  }

  lemma {:induction false} ExamFound(exams: seq<Exam>, id: nat)
    requires id in ExamIds(exams)
    ensures ExamIndex(exams, id).Some?
  {
    var e :| e in exams && e.id == id;
    var i :| 0 <= i < |exams| && exams[i] == e;
  }

  lemma {:induction false} SubjectIndexIn(subjects: seq<Subject>, id: nat)
    requires SubjectIndex(subjects, id).Some?
    ensures id in SubjectIds(subjects)
  {
    assert subjects[SubjectIndex(subjects, id).value] in subjects;
  }

  lemma {:induction false} ExamFoundIn(exams: seq<Exam>, id: nat)
    requires ExamIndex(exams, id).Some?
    ensures id in ExamIds(exams)
  {
    assert exams[ExamIndex(exams, id).value] in exams;
  }

  /** Saving a student under an unused id and roll number keeps both columns
      unique and adds exactly the new id. */
  lemma {:induction false} AppendStudent(students: seq<Student>, st: Student)
    requires UniqueStudents(students)
    requires st.id !in StudentIds(students) && RollNoIndex(students, st.rollNo).None?
    ensures UniqueStudents(students + [st])
    ensures StudentIds(students + [st]) == StudentIds(students) + {st.id}
  {
    var s := students + [st];
    forall i, j | 0 <= i < j < |s| ensures s[i].id != s[j].id && s[i].rollNo != s[j].rollNo {
      if j == |students| {
        assert s[i] in students;
      }
    }
  }

  /** Rewriting a student's other columns keeps the keys and the id set. */
  lemma {:induction false} ReplaceStudent(students: seq<Student>, k: nat, st: Student)
    requires UniqueStudents(students) && k < |students|
    requires st.id == students[k].id && st.rollNo == students[k].rollNo
    ensures UniqueStudents(students[k := st])
    ensures StudentIds(students[k := st]) == StudentIds(students)
  {
    var s := students[k := st];
    assert forall i :: 0 <= i < |students| ==> s[i].id == students[i].id;
    forall x | x in StudentIds(students) ensures x in StudentIds(s) {
      var t :| t in students && t.id == x;
      var i :| 0 <= i < |students| && students[i] == t;
      assert s[i] in s;
    }
  }

  /** Rewriting columns other than the id keeps the subject ids. */
  lemma {:induction false} SameSubjectIds(subjects: seq<Subject>, subjects': seq<Subject>)
    requires |subjects| == |subjects'|
    requires forall i :: 0 <= i < |subjects| ==> subjects'[i].id == subjects[i].id
    ensures SubjectIds(subjects') == SubjectIds(subjects)
    ensures UniqueSubjects(subjects) ==> UniqueSubjects(subjects')
  {
    forall x | x in SubjectIds(subjects) ensures x in SubjectIds(subjects') {
      var s :| s in subjects && s.id == x;
      var i :| 0 <= i < |subjects| && subjects[i] == s;
      assert subjects'[i] in subjects';
    }
    forall x | x in SubjectIds(subjects') ensures x in SubjectIds(subjects) {
      var s :| s in subjects' && s.id == x;
      var i :| 0 <= i < |subjects'| && subjects'[i] == s;
      assert subjects[i] in subjects;
    }
  }

  /** Deleting results keeps the result keys unique. */
  lemma {:induction false} UniqueKeysFilter(results: seq<ExamResult>, p: ExamResult -> bool)
    requires UniqueResultKeys(results)
    ensures UniqueResultKeys(Filter(results, p))
  {
    FilterDistinctKeys(results, (r: ExamResult) => (r.examId, r.studentId), p);
  }

  /** Enrollment rows that come from linked rows, or are rows of an existing
      student for catalogue subjects, are linked. */
  lemma {:induction false} RowsFromLinked(after: seq<Enrollment>, before: seq<Enrollment>, students: seq<Student>,
                       subjects: seq<Subject>, sid: nat)
    requires EnrollmentsLinked(before, students, subjects) && sid in StudentIds(students)
    requires forall i :: 0 <= i < |after| ==>
      after[i] in before || (after[i].studentId == sid && after[i].subjectId in SubjectIds(subjects))
    ensures EnrollmentsLinked(after, students, subjects)
  {
    forall i | 0 <= i < |after|
      ensures after[i].studentId in StudentIds(students) && after[i].subjectId in SubjectIds(subjects)
    {
      if after[i] in before {
        var j :| 0 <= j < |before| && before[j] == after[i];
      }
    }
  }

  /** Links into a table stay valid when the table only gains ids. */
  lemma {:induction false} MoreStudents(rows: seq<Enrollment>, results: seq<ExamResult>, exams: seq<Exam>,
                     subjects: seq<Subject>, students: seq<Student>, students': seq<Student>)
    requires StudentIds(students) <= StudentIds(students')
    requires EnrollmentsLinked(rows, students, subjects) && ResultsLinked(results, exams, students)
    ensures EnrollmentsLinked(rows, students', subjects) && ResultsLinked(results, exams, students')
  {
  }
}
