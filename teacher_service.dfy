/** TeacherServiceImpl: the teacher table, the unassignment of a deleted
    teacher's subjects, and the teacher performance report. */
module TeacherService {
  import opened Common
  import opened Seqs
  import opened Entities
  import opened Analytics
  import opened Repository

  /** The fields of the teacher form the service reads; `password` is the
      plain text typed in, None when absent. */
  datatype TeacherForm = TeacherForm(name: string, email: string, password: Option<string>)

  /** The password a teacher keeps: a present, non-blank password field is
      encoded and replaces the stored one; an absent or blank one leaves the
      stored password as it was. The encoder is a parameter. */
  function KeepPassword(password: Option<string>, stored: Option<string>, encode: string -> string): (p: Option<string>)
    ensures IsPresent(password) ==> p == Some(encode(password.value))
    ensures !IsPresent(password) ==> p == stored
  {
    if IsPresent(password) then Some(encode(password.value)) else stored
  }

  /** createTeacher: saved under a fresh id, with a password only when a
      non-blank one is given. */
  method CreateTeacher(db: Store, form: TeacherForm, encode: string -> string) returns (t: Teacher)
    requires db.Valid()
    modifies db`teachers
    ensures db.Valid()
    ensures t.id !in TeacherIds(old(db.teachers))
    ensures t == Teacher(t.id, form.name, form.email, KeepPassword(form.password, None, encode))
    ensures db.teachers == old(db.teachers) + [t]
  {
    var id := FreshKey(db.teachers, (x: Teacher) => x.id);
    t := Teacher(id, form.name, form.email, KeepPassword(form.password, None, encode));
    assert id !in TeacherIds(db.teachers);
    AppendTeacher(db.teachers, t);
    db.teachers := db.teachers + [t];
  }

  /** updateTeacher: an unknown id fails with NotFound; otherwise name and
      email are written and the password follows the keep rule. */
  method UpdateTeacher(db: Store, id: nat, form: TeacherForm, encode: string -> string) returns (r: Result<Teacher>)
    requires db.Valid()
    modifies db`teachers
    ensures db.Valid()
    ensures r.Failure? <==> id !in TeacherIds(old(db.teachers))
    ensures r.Failure? ==> r.error == NotFound && db.teachers == old(db.teachers)
    ensures r.Success? ==>
      var k := TeacherIndex(old(db.teachers), id).value;
      && r.value == Teacher(id, form.name, form.email, KeepPassword(form.password, old(db.teachers)[k].password, encode))
      && db.teachers == old(db.teachers)[k := r.value]
  {
    var found := TeacherIndex(db.teachers, id);
    if found.None? {
      if id in TeacherIds(db.teachers) {
        TeacherFound(db.teachers, id);
      }
      return Failure(NotFound);
    }
    var k := found.value;
    assert db.teachers[k] in db.teachers;
    var t := Teacher(id, form.name, form.email, KeepPassword(form.password, db.teachers[k].password, encode));
    ReplaceTeacher(db.teachers, k, t);
    db.teachers := db.teachers[k := t];
    r := Success(t);
  }

  /** The subject as it is after its teacher `id` is unassigned. */
  function Unassigned(s: Subject, id: nat): (u: Subject)
    ensures u.teacher != Some(id)
    ensures s.teacher != Some(id) ==> u == s
    ensures u.(teacher := s.teacher) == s
  {
    if s.teacher == Some(id) then s.(teacher := None) else s
  }

  function NotTeacher(id: nat): Teacher -> bool {
    (t: Teacher) => t.id != id
  }

  /** deleteTeacher: an unknown id fails with NotFound and changes nothing;
      otherwise every subject the teacher held is unassigned, one at a time,
      and the teacher is deleted. No subject then names the teacher, and
      every other assignment and every other column is as it was. */
  method DeleteTeacher(db: Store, id: nat) returns (o: Outcome)
    requires db.Valid()
    modifies db`teachers, db`subjects
    ensures db.Valid()
    ensures o.Failed? <==> id !in TeacherIds(old(db.teachers))
    ensures o.Failed? ==> o == Failed(NotFound) && db.teachers == old(db.teachers) && db.subjects == old(db.subjects)
    ensures o.Done? ==>
      && db.teachers == Filter(old(db.teachers), NotTeacher(id))
      && id !in TeacherIds(db.teachers)
      && |db.subjects| == |old(db.subjects)|
      && (forall i :: 0 <= i < |db.subjects| ==> db.subjects[i] == Unassigned(old(db.subjects)[i], id))
  {
    if TeacherIndex(db.teachers, id).None? {
      if id in TeacherIds(db.teachers) {
        TeacherFound(db.teachers, id);
      }
      return Failed(NotFound);
    }
    var subjects0, teachers0 := db.subjects, db.teachers;
    var i := 0;
    while i < |db.subjects|
      invariant 0 <= i <= |db.subjects| == |subjects0|
      invariant db.teachers == teachers0
      invariant forall j :: 0 <= j < i ==> db.subjects[j] == Unassigned(subjects0[j], id)
      invariant forall j :: i <= j < |db.subjects| ==> db.subjects[j] == subjects0[j]
    {
      if db.subjects[i].teacher == Some(id) {
        db.subjects := db.subjects[i := db.subjects[i].(teacher := None)];
      }
      i := i + 1;
    }
    db.teachers := Filter(db.teachers, NotTeacher(id));
    o := Done;
    SameSubjectIds(subjects0, db.subjects);
    KeptTeachers(teachers0, id);
  }

  /** getAllTeacherPerformance: the same report, entry for entry, as the
      teacher-wise analytics. */
  method AllTeacherPerformance(db: Store) returns (report: seq<TeacherPerformance>)
    requires db.Valid()
    ensures report == TeacherReport(db.teachers, db.subjects, db.exams, db.results)
  {
    report := TeacherWisePerformance(db.teachers, db.subjects, db.exams, db.results);
  }

  // -------------------------------------------------------------------------
  // Keeping the store valid

  lemma {:induction false} AppendTeacher(teachers: seq<Teacher>, t: Teacher)
    requires UniqueTeachers(teachers) && t.id !in TeacherIds(teachers)
    ensures UniqueTeachers(teachers + [t])
    ensures TeacherIds(teachers + [t]) == TeacherIds(teachers) + {t.id}
  {
    var s := teachers + [t];
    forall i, j | 0 <= i < j < |s| ensures s[i].id != s[j].id {
      if j == |teachers| {
        assert s[i] in teachers;
      }
    }
  }

  lemma {:induction false} ReplaceTeacher(teachers: seq<Teacher>, k: nat, t: Teacher)
    requires UniqueTeachers(teachers) && k < |teachers| && t.id == teachers[k].id
    ensures UniqueTeachers(teachers[k := t])
    ensures TeacherIds(teachers[k := t]) == TeacherIds(teachers)
  {
    var s := teachers[k := t];
    assert forall i :: 0 <= i < |teachers| ==> s[i].id == teachers[i].id;
    forall x | x in TeacherIds(teachers) ensures x in TeacherIds(s) {
      var u :| u in teachers && u.id == x;
      var i :| 0 <= i < |teachers| && teachers[i] == u;
      assert s[i] in s;
    }
  }

  lemma {:induction false} KeptTeachers(teachers: seq<Teacher>, id: nat)
    requires UniqueTeachers(teachers)
    ensures UniqueTeachers(Filter(teachers, NotTeacher(id)))
    ensures TeacherIds(Filter(teachers, NotTeacher(id))) == TeacherIds(teachers) - {id}
  {
    var f := Filter(teachers, NotTeacher(id));
    FilterDistinctKeys(teachers, (t: Teacher) => t.id, NotTeacher(id));
    forall x | x in TeacherIds(teachers) - {id} ensures x in TeacherIds(f) {
      var t :| t in teachers && t.id == x;
      var i :| 0 <= i < |teachers| && teachers[i] == t;
    }
  }
}
