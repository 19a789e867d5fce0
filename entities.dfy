/** The persisted records (the JPA entities), reduced to the fields the
    services read or write, and the repository lookups over them. */
module Entities {
  import opened Common
  import opened Seqs

  datatype Student = Student(id: nat, rollNo: string, name: string, year: int)

  /** `password` holds the encoded password; None until one is set. */
  datatype Teacher = Teacher(id: nat, name: string, email: string, password: Option<string>)

  /** `teacher` is the id of the assigned teacher, None when unassigned. */
  datatype Subject = Subject(id: nat, name: string, code: string, year: int, teacher: Option<nat>)

  /** `date` is the exam date as the text it was parsed from, None when not set. */
  datatype Exam = Exam(id: nat, name: string, examType: string, subjectId: nat, targetYear: int,
                       maxMarks: int, date: Option<string>, description: string)

  /** One row of the student-subject join table. */
  datatype Enrollment = Enrollment(studentId: nat, subjectId: nat)

  /** `marks` is None until a teacher enters the marks. */
  datatype ExamResult = ExamResult(examId: nat, studentId: nat, marks: Option<int>)

  // findById / findByRollNo: the position of the matching record

  function StudentIndex(students: seq<Student>, id: nat): Option<nat> {
    IndexOf(students, (s: Student) => s.id == id)
  }

  function RollNoIndex(students: seq<Student>, rollNo: string): Option<nat> {
    IndexOf(students, (s: Student) => s.rollNo == rollNo)
  }

  function TeacherIndex(teachers: seq<Teacher>, id: nat): Option<nat> {
    IndexOf(teachers, (t: Teacher) => t.id == id)
  }

  function SubjectIndex(subjects: seq<Subject>, id: nat): Option<nat> {
    IndexOf(subjects, (s: Subject) => s.id == id)
  }

  function ExamIndex(exams: seq<Exam>, id: nat): Option<nat> {
    IndexOf(exams, (e: Exam) => e.id == id)
  }

  // The id sets of each table

  function StudentIds(students: seq<Student>): set<nat> {
    set s | s in students :: s.id
  }

  function TeacherIds(teachers: seq<Teacher>): set<nat> {
    set t | t in teachers :: t.id
  }

  function SubjectIds(subjects: seq<Subject>): set<nat> {
    set s | s in subjects :: s.id
  }

  function ExamIds(exams: seq<Exam>): set<nat> {
    set e | e in exams :: e.id
  }

  // Primary keys and unique columns

  predicate UniqueStudents(students: seq<Student>) {
    forall i, j :: 0 <= i < j < |students| ==>
      students[i].id != students[j].id && students[i].rollNo != students[j].rollNo
  }

  predicate UniqueTeachers(teachers: seq<Teacher>) {
    forall i, j :: 0 <= i < j < |teachers| ==> teachers[i].id != teachers[j].id
  }

  predicate UniqueSubjects(subjects: seq<Subject>) {
    forall i, j :: 0 <= i < j < |subjects| ==> subjects[i].id != subjects[j].id
  }

  predicate UniqueExams(exams: seq<Exam>) {
    forall i, j :: 0 <= i < j < |exams| ==> exams[i].id != exams[j].id
  }

  /** The unique constraint on (exam_id, student_id) of the exam_results table. */
  predicate UniqueResultKeys(results: seq<ExamResult>) {
    forall i, j :: 0 <= i < j < |results| ==>
      results[i].examId != results[j].examId || results[i].studentId != results[j].studentId
  }

  /** Every exam's maximum is at least 1 (the @Min(1) validation of the exam form). */
  predicate PositiveMaxima(exams: seq<Exam>) {
    forall i :: 0 <= i < |exams| ==> exams[i].maxMarks >= 1
  }

  /** Where the ids of a table are unique, looking an id up finds the record with that id. */
  lemma {:induction false} SubjectIndexOfMember(subjects: seq<Subject>, k: nat)
    requires UniqueSubjects(subjects) && k < |subjects|
    ensures SubjectIndex(subjects, subjects[k].id) == Some(k)
  {
  }

  lemma {:induction false} ExamIndexOfMember(exams: seq<Exam>, k: nat)
    requires UniqueExams(exams) && k < |exams|
    ensures ExamIndex(exams, exams[k].id) == Some(k)
  {
  }

  lemma {:induction false} StudentIndexOfMember(students: seq<Student>, k: nat)
    requires UniqueStudents(students) && k < |students|
    ensures StudentIndex(students, students[k].id) == Some(k)
    ensures RollNoIndex(students, students[k].rollNo) == Some(k)
  {
  }
}
