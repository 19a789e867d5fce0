/** Enrollment reconciliation as functions over the rows of the
    student-subject join table: the year-based sync, the explicit
    enrollment pass of a create, the delete/add delta of an update, and
    what each of them leaves enrolled. The service methods that perform
    these steps one row at a time are proved against these functions. */
module Reconcile {
  import opened Common
  import opened Seqs
  import opened Entities

  /** The ids of the subjects the student is enrolled in. */
  function Enrolled(rows: seq<Enrollment>, sid: nat): set<nat> {
    set e | e in rows && e.studentId == sid :: e.subjectId
  }

  /** `findByYear(year)`, as ids. */
  function YearSubjects(subjects: seq<Subject>, year: int): set<nat> {
    set s | s in subjects && s.year == year :: s.id
  }

  function NotOf(sid: nat): Enrollment -> bool {
    (e: Enrollment) => e.studentId != sid
  }

  /** The rows of every other student. */
  function OthersRows(rows: seq<Enrollment>, sid: nat): seq<Enrollment> {
    Filter(rows, NotOf(sid))
  }

  /** The year of the subject with this id, None when there is none. */
  function SubjectYear(subjects: seq<Subject>, id: nat): Option<int> {
    match SubjectIndex(subjects, id)
    case Some(k) => Some(subjects[k].year)
    case None => None
  }

  /** The rows the first sync step keeps: other students' rows, and the
      student's rows whose subject is of the student's year. */
  function KeepsYear(subjects: seq<Subject>, sid: nat, year: int): Enrollment -> bool {
    (e: Enrollment) => e.studentId != sid || SubjectYear(subjects, e.subjectId) == Some(year)
  }

  /** Sync step 1: delete the student's enrollments in subjects of another year. */
  function DropOtherYears(rows: seq<Enrollment>, subjects: seq<Subject>, sid: nat, year: int)
    : seq<Enrollment>
  {
    Filter(rows, KeepsYear(subjects, sid, year))
  }

  /** One more row extends the deletion pass by one step. */
  lemma {:induction false} DropOtherYearsStep(rows: seq<Enrollment>, subjects: seq<Subject>, sid: nat, year: int, i: nat)
    requires i < |rows|
    ensures DropOtherYears(rows[..i + 1], subjects, sid, year) ==
      DropOtherYears(rows[..i], subjects, sid, year) + (if KeepsYear(subjects, sid, year)(rows[i]) then [rows[i]] else [])
  {
    assert rows[..i + 1] == rows[..i] + [rows[i]];
    FilterSnoc(rows[..i], rows[i], KeepsYear(subjects, sid, year));
  }

  /** Enrol the student in `s` when `s` is of the student's year and the pair
      has no row yet (the `findByStudentAndSubject(...).isEmpty()` guard). */
  function Admit(rows: seq<Enrollment>, sid: nat, year: int, s: Subject): seq<Enrollment> {
    if s.year == year && Enrollment(sid, s.id) !in rows then rows + [Enrollment(sid, s.id)] else rows
  }

  /** Sync step 2: admit the subjects one after another, in catalogue order. */
  function AdmitAll(rows: seq<Enrollment>, sid: nat, year: int, ss: seq<Subject>): seq<Enrollment>
    decreases |ss|
  {
    if ss == [] then rows
    else Admit(AdmitAll(rows, sid, year, ss[..|ss| - 1]), sid, year, ss[|ss| - 1])
  }

  /** One more subject extends the admission pass by one step. */
  lemma {:induction false} AdmitAllStep(rows: seq<Enrollment>, sid: nat, year: int, ss: seq<Subject>, j: nat)
    requires j < |ss|
    ensures AdmitAll(rows, sid, year, ss[..j + 1]) == Admit(AdmitAll(rows, sid, year, ss[..j]), sid, year, ss[j])
  {
    var p := ss[..j + 1];
    assert p[..|p| - 1] == ss[..j] && p[|p| - 1] == ss[j];
  }

  /** syncYearBasedEnrollments. */
  function Sync(rows: seq<Enrollment>, subjects: seq<Subject>, sid: nat, year: int): seq<Enrollment> {
    AdmitAll(DropOtherYears(rows, subjects, sid, year), sid, year, subjects)
  }

  /** One id of the explicit pass: an id in `skip` is neither looked up nor
      added; an id that names no subject fails; a subject of another year is
      passed over without error. */
  function Request(rows: seq<Enrollment>, subjects: seq<Subject>, sid: nat, year: int,
                   skip: set<nat>, id: nat): Result<seq<Enrollment>>
  {
    if id in skip then Success(rows)
    else match SubjectIndex(subjects, id)
      case None => Failure(NotFound)
      case Some(k) => Success(Admit(rows, sid, year, subjects[k]))
  }

  /** The explicit pass over the requested ids, in order; the first unknown id
      aborts it. */
  function RequestAll(rows: seq<Enrollment>, subjects: seq<Subject>, sid: nat, year: int,
                      skip: set<nat>, ids: seq<nat>): Result<seq<Enrollment>>
    decreases |ids|
  {
    if ids == [] then Success(rows)
    else match RequestAll(rows, subjects, sid, year, skip, ids[..|ids| - 1])
      case Failure(e) => Failure(e)
      case Success(r) => Request(r, subjects, sid, year, skip, ids[|ids| - 1])
  }

  function Requested(sid: nat, ids: seq<nat>): Enrollment -> bool {
    (e: Enrollment) => e.studentId != sid || e.subjectId in ids
  }

  /** The delete half of the update delta: the student's enrollments in
      subjects that are no longer requested go. */
  function DropUnrequested(rows: seq<Enrollment>, sid: nat, ids: seq<nat>): seq<Enrollment> {
    Filter(rows, Requested(sid, ids))
  }

  /** The enrollment rows a createStudent leaves for the new student `sid`:
      the explicit pass (when ids are given, nothing skipped), then the sync. */
  function CreateRows(rows: seq<Enrollment>, subjects: seq<Subject>, sid: nat, year: int,
                      ids: Option<seq<nat>>): Result<seq<Enrollment>>
  {
    var explicit := if ids.None? then Success(rows) else RequestAll(rows, subjects, sid, year, {}, ids.value);
    match explicit
    case Failure(e) => Failure(e)
    case Success(r) => Success(Sync(r, subjects, sid, year))
  }

  /** The enrollment rows an updateStudent leaves: when ids are given, the
      unrequested rows go and the requested ids not enrolled before are
      looked up and admitted; then the sync for the (new) year. */
  function UpdateRows(rows: seq<Enrollment>, subjects: seq<Subject>, sid: nat, year: int,
                      ids: Option<seq<nat>>): Result<seq<Enrollment>>
  {
    var explicit :=
      if ids.None? then Success(rows)
      else RequestAll(DropUnrequested(rows, sid, ids.value), subjects, sid, year, Enrolled(rows, sid), ids.value);
    match explicit
    case Failure(e) => Failure(e)
    case Success(r) => Success(Sync(r, subjects, sid, year))
  }

  /** Some requested id outside `skip` names no subject. */
  predicate Unresolved(subjects: seq<Subject>, skip: set<nat>, ids: seq<nat>) {
    exists i :: 0 <= i < |ids| && ids[i] !in skip && SubjectIndex(subjects, ids[i]).None?
  }

  /** The requested ids outside `skip` that name a subject of the year. */
  function Admissible(subjects: seq<Subject>, year: int, skip: set<nat>, ids: seq<nat>): set<nat> {
    set i | 0 <= i < |ids| && ids[i] !in skip && SubjectYear(subjects, ids[i]) == Some(year) :: ids[i]
  }

  /** `student.getEnrollments().map(e -> e.getSubject().getId())`. */
  function SubjectIdsOf(rows: seq<Enrollment>, sid: nat): (ids: seq<nat>)
    ensures forall id :: id in ids <==> id in Enrolled(rows, sid)
  {
    if rows == [] then []
    else
      assert forall e :: e in rows <==> e == rows[0] || e in rows[1..];
      (if rows[0].studentId == sid then [rows[0].subjectId] else []) + SubjectIdsOf(rows[1..], sid)
  }

  // -------------------------------------------------------------------------
  // What each step does to the student's subjects

  lemma {:induction false} AdmitEnrolled(rows: seq<Enrollment>, sid: nat, year: int, s: Subject)
    ensures Enrolled(Admit(rows, sid, year, s), sid)
         == Enrolled(rows, sid) + (if s.year == year then {s.id} else {})
  {
    if s.year == year {
      if Enrollment(sid, s.id) in rows {
        assert s.id in Enrolled(rows, sid);
      } else {
        var r := rows + [Enrollment(sid, s.id)];
        assert forall e :: e in r <==> e in rows || e == Enrollment(sid, s.id);
      }
    }
  }

  lemma {:induction false} LastSplit<T>(xs: seq<T>)
    requires xs != []
    ensures forall x :: x in xs <==> x in xs[..|xs| - 1] || x == xs[|xs| - 1]
  {
    assert xs == xs[..|xs| - 1] + [xs[|xs| - 1]];
  }

  /** Admitting a list of subjects enrols the student in exactly the ones of the year. */
  lemma {:induction false} AdmitAllEnrolled(rows: seq<Enrollment>, sid: nat, year: int, ss: seq<Subject>)
    ensures Enrolled(AdmitAll(rows, sid, year, ss), sid) == Enrolled(rows, sid) + YearSubjects(ss, year)
    decreases |ss|
  {
    if ss != [] {
      var init, last := ss[..|ss| - 1], ss[|ss| - 1];
      AdmitAllEnrolled(rows, sid, year, init);
      AdmitEnrolled(AdmitAll(rows, sid, year, init), sid, year, last);
      LastSplit(ss);
      assert YearSubjects(ss, year) == YearSubjects(init, year) + (if last.year == year then {last.id} else {});
    }
  }

  /** After the first sync step every subject of the student is of the year. */
  lemma {:induction false} DropEnrolled(rows: seq<Enrollment>, subjects: seq<Subject>, sid: nat, year: int)
    ensures Enrolled(DropOtherYears(rows, subjects, sid, year), sid) <= YearSubjects(subjects, year)
  {
    var d := DropOtherYears(rows, subjects, sid, year);
    forall id | id in Enrolled(d, sid) ensures id in YearSubjects(subjects, year) {
      var e :| e in d && e.studentId == sid && e.subjectId == id;
      var i :| 0 <= i < |d| && d[i] == e;
      assert KeepsYear(subjects, sid, year)(e);
      var k := SubjectIndex(subjects, id).value;
      assert subjects[k] in subjects;
    }
  }

  /** The central fact: after a sync the student is enrolled in exactly the
      subjects of the student's year, whatever the rows held before. */
  lemma {:induction false} SyncExact(rows: seq<Enrollment>, subjects: seq<Subject>, sid: nat, year: int)
    ensures Enrolled(Sync(rows, subjects, sid, year), sid) == YearSubjects(subjects, year)
  {
    DropEnrolled(rows, subjects, sid, year);
    AdmitAllEnrolled(DropOtherYears(rows, subjects, sid, year), sid, year, subjects);
  }

  // -------------------------------------------------------------------------
  // Other students' rows are never touched

  lemma {:induction false} AdmitAllOthers(rows: seq<Enrollment>, sid: nat, year: int, ss: seq<Subject>)
    ensures OthersRows(AdmitAll(rows, sid, year, ss), sid) == OthersRows(rows, sid)
    decreases |ss|
  {
    if ss != [] {
      var init, last := ss[..|ss| - 1], ss[|ss| - 1];
      AdmitAllOthers(rows, sid, year, init);
      var r := AdmitAll(rows, sid, year, init);
      FilterAppend(r, [Enrollment(sid, last.id)], NotOf(sid));
    }
  }

  lemma {:induction false} SyncOthers(rows: seq<Enrollment>, subjects: seq<Subject>, sid: nat, year: int)
    ensures OthersRows(Sync(rows, subjects, sid, year), sid) == OthersRows(rows, sid)
  {
    FilterNarrow(rows, KeepsYear(subjects, sid, year), NotOf(sid));
    AdmitAllOthers(DropOtherYears(rows, subjects, sid, year), sid, year, subjects);
  }

  // -------------------------------------------------------------------------
  // No pair is ever enrolled twice

  lemma {:induction false} AdmitNoDuplicates(rows: seq<Enrollment>, sid: nat, year: int, s: Subject)
    requires NoDuplicates(rows)
    ensures NoDuplicates(Admit(rows, sid, year, s))
  {
    if s.year == year && Enrollment(sid, s.id) !in rows {
      var r := rows + [Enrollment(sid, s.id)];
      forall i, j | 0 <= i < j < |r| ensures r[i] != r[j] {
        if j == |rows| {
          assert r[i] == rows[i];
        } else {
          assert r[i] == rows[i] && r[j] == rows[j];
        }
      }
    }
  }

  lemma {:induction false} AdmitAllNoDuplicates(rows: seq<Enrollment>, sid: nat, year: int, ss: seq<Subject>)
    requires NoDuplicates(rows)
    ensures NoDuplicates(AdmitAll(rows, sid, year, ss))
    decreases |ss|
  {
    if ss != [] {
      AdmitAllNoDuplicates(rows, sid, year, ss[..|ss| - 1]);
      AdmitNoDuplicates(AdmitAll(rows, sid, year, ss[..|ss| - 1]), sid, year, ss[|ss| - 1]);
    }
  }

  lemma {:induction false} SyncNoDuplicates(rows: seq<Enrollment>, subjects: seq<Subject>, sid: nat, year: int)
    requires NoDuplicates(rows)
    ensures NoDuplicates(Sync(rows, subjects, sid, year))
  {
    FilterNoDuplicates(rows, KeepsYear(subjects, sid, year));
    AdmitAllNoDuplicates(DropOtherYears(rows, subjects, sid, year), sid, year, subjects);
  }

  // -------------------------------------------------------------------------
  // A second sync changes nothing

  predicate AllKeepYear(rows: seq<Enrollment>, subjects: seq<Subject>, sid: nat, year: int) {
    forall i :: 0 <= i < |rows| ==> KeepsYear(subjects, sid, year)(rows[i])
  }

  /** Every row a sync leaves passes the first sync step's test. */
  lemma {:induction false} AdmitAllKeepsYear(rows: seq<Enrollment>, subjects: seq<Subject>, sid: nat,
                                             year: int, ss: seq<Subject>)
    requires UniqueSubjects(subjects)
    requires forall s :: s in ss ==> s in subjects
    requires AllKeepYear(rows, subjects, sid, year)
    ensures AllKeepYear(AdmitAll(rows, sid, year, ss), subjects, sid, year)
    decreases |ss|
  {
    if ss != [] {
      var init, last := ss[..|ss| - 1], ss[|ss| - 1];
      LastSplit(ss);
      AdmitAllKeepsYear(rows, subjects, sid, year, init);
      assert last in subjects;
      var k :| 0 <= k < |subjects| && subjects[k] == last;
      SubjectIndexOfMember(subjects, k);
      var r0 := AdmitAll(rows, sid, year, init);
      var r := Admit(r0, sid, year, last);
      forall i | 0 <= i < |r| ensures KeepsYear(subjects, sid, year)(r[i]) {
        if i < |r0| {
          assert r[i] == r0[i];
        } else {
          assert r[i] == Enrollment(sid, last.id) && last.year == year;
          assert SubjectYear(subjects, last.id) == Some(year);
        }
      }
    }
  }

  /** Admitting subjects the student already has changes nothing. */
  lemma {:induction false} AdmitAllPresent(rows: seq<Enrollment>, sid: nat, year: int, ss: seq<Subject>)
    requires forall s :: s in ss && s.year == year ==> s.id in Enrolled(rows, sid)
    ensures AdmitAll(rows, sid, year, ss) == rows
    decreases |ss|
  {
    if ss != [] {
      var init, last := ss[..|ss| - 1], ss[|ss| - 1];
      LastSplit(ss);
      AdmitAllPresent(rows, sid, year, init);
      if last.year == year {
        var e :| e in rows && e.studentId == sid && e.subjectId == last.id;
        assert e == Enrollment(sid, last.id);
      }
    }
  }

  /** syncYearBasedEnrollments is idempotent: run twice, the second run
      deletes and adds nothing. */
  lemma {:induction false} SyncIdempotent(rows: seq<Enrollment>, subjects: seq<Subject>, sid: nat, year: int)
    requires UniqueSubjects(subjects)
    ensures Sync(Sync(rows, subjects, sid, year), subjects, sid, year) == Sync(rows, subjects, sid, year)
  {
    var r := Sync(rows, subjects, sid, year);
    var d := DropOtherYears(rows, subjects, sid, year);
    AdmitAllKeepsYear(d, subjects, sid, year, subjects);
    FilterAll(r, KeepsYear(subjects, sid, year));
    SyncExact(rows, subjects, sid, year);
    AdmitAllPresent(r, sid, year, subjects);
  }

  // -------------------------------------------------------------------------
  // The explicit pass

  /** The explicit pass fails exactly when a requested id outside `skip`
      names no subject, and then with NotFound. */
  lemma {:induction false} RequestAllFails(rows: seq<Enrollment>, subjects: seq<Subject>, sid: nat,
                                           year: int, skip: set<nat>, ids: seq<nat>)
    ensures RequestAll(rows, subjects, sid, year, skip, ids).Failure? <==> Unresolved(subjects, skip, ids)
    ensures RequestAll(rows, subjects, sid, year, skip, ids).Failure? ==>
      RequestAll(rows, subjects, sid, year, skip, ids).error == NotFound
    decreases |ids|
  {
    if ids != [] {
      var init := ids[..|ids| - 1];
      RequestAllFails(rows, subjects, sid, year, skip, init);
      assert forall i :: 0 <= i < |init| ==> init[i] == ids[i];
      if Unresolved(subjects, skip, init) {
        var i :| 0 <= i < |init| && init[i] !in skip && SubjectIndex(subjects, init[i]).None?;
        assert ids[i] == init[i];
      }
    }
  }

  /** A successful explicit pass adds exactly the requested subjects (outside
      `skip`) of the student's year; a subject of another year is skipped. */
  lemma {:induction false} RequestAllEnrolled(rows: seq<Enrollment>, subjects: seq<Subject>, sid: nat,
                                              year: int, skip: set<nat>, ids: seq<nat>)
    requires RequestAll(rows, subjects, sid, year, skip, ids).Success?
    ensures Enrolled(RequestAll(rows, subjects, sid, year, skip, ids).value, sid)
         == Enrolled(rows, sid) + Admissible(subjects, year, skip, ids)
    decreases |ids|
  {
    if ids != [] {
      var init, last := ids[..|ids| - 1], ids[|ids| - 1];
      RequestAllEnrolled(rows, subjects, sid, year, skip, init);
      var r := RequestAll(rows, subjects, sid, year, skip, init).value;
      var added := if last !in skip && SubjectYear(subjects, last) == Some(year) then {last} else {};
      assert Admissible(subjects, year, skip, ids) == Admissible(subjects, year, skip, init) + added by {
        forall i | 0 <= i < |init| ensures init[i] == ids[i] {}
        forall x | x in Admissible(subjects, year, skip, ids)
          ensures x in Admissible(subjects, year, skip, init) + added
        {
          var i :| 0 <= i < |ids| && ids[i] !in skip && SubjectYear(subjects, ids[i]) == Some(year) && x == ids[i];
          if i < |init| {
            assert init[i] == ids[i];
          }
        }
        if added != {} {
          assert ids[|ids| - 1] == last;
        }
      }
      if last !in skip {
        var k := SubjectIndex(subjects, last).value;
        AdmitEnrolled(r, sid, year, subjects[k]);
      }
    }
  }

  lemma {:induction false} RequestAllOthers(rows: seq<Enrollment>, subjects: seq<Subject>, sid: nat,
                                            year: int, skip: set<nat>, ids: seq<nat>)
    requires RequestAll(rows, subjects, sid, year, skip, ids).Success?
    ensures OthersRows(RequestAll(rows, subjects, sid, year, skip, ids).value, sid) == OthersRows(rows, sid)
    ensures NoDuplicates(rows) ==> NoDuplicates(RequestAll(rows, subjects, sid, year, skip, ids).value)
    decreases |ids|
  {
    if ids != [] {
      var init, last := ids[..|ids| - 1], ids[|ids| - 1];
      RequestAllOthers(rows, subjects, sid, year, skip, init);
      var r := RequestAll(rows, subjects, sid, year, skip, init).value;
      if last !in skip {
        var k := SubjectIndex(subjects, last).value;
        var single := Admit(r, sid, year, subjects[k]);
        AdmitAllOthers(r, sid, year, [subjects[k]]);
        assert AdmitAll(r, sid, year, [subjects[k]]) == single by {
          assert [subjects[k]][..0] == [];
        }
        if NoDuplicates(rows) {
          AdmitNoDuplicates(r, sid, year, subjects[k]);
        }
      }
    }
  }

  /** The delete half of the update keeps exactly the requested subjects of
      the student and every row of the others. */
  lemma {:induction false} DropUnrequestedFacts(rows: seq<Enrollment>, sid: nat, ids: seq<nat>)
    ensures Enrolled(DropUnrequested(rows, sid, ids), sid) == Enrolled(rows, sid) * (set i | i in ids)
    ensures OthersRows(DropUnrequested(rows, sid, ids), sid) == OthersRows(rows, sid)
    ensures NoDuplicates(rows) ==> NoDuplicates(DropUnrequested(rows, sid, ids))
  {
    var d := DropUnrequested(rows, sid, ids);
    forall x | x in Enrolled(rows, sid) * (set i | i in ids) ensures x in Enrolled(d, sid) {
      var e :| e in rows && e.studentId == sid && e.subjectId == x;
      var j :| 0 <= j < |rows| && rows[j] == e;
      assert Requested(sid, ids)(rows[j]);
    }
    forall x | x in Enrolled(d, sid) ensures x in Enrolled(rows, sid) * (set i | i in ids) {
      var e :| e in d && e.studentId == sid && e.subjectId == x;
      var j :| 0 <= j < |d| && d[j] == e;
      assert Requested(sid, ids)(d[j]);
    }
    FilterNarrow(rows, Requested(sid, ids), NotOf(sid));
    if NoDuplicates(rows) {
      FilterNoDuplicates(rows, Requested(sid, ids));
    }
  }

  // -------------------------------------------------------------------------
  // Create and update

  /** createStudent: the call fails (with NotFound) exactly when a requested
      id names no subject; on success the new student's subjects are exactly
      the subjects of the student's year, other students' rows are as they
      were, and no pair is enrolled twice. */
  lemma {:induction false} CreateFacts(rows: seq<Enrollment>, subjects: seq<Subject>, sid: nat, year: int,
                    ids: Option<seq<nat>>)
    ensures var r := CreateRows(rows, subjects, sid, year, ids);
      && (r.Failure? <==> ids.Some? && Unresolved(subjects, {}, ids.value))
      && (r.Failure? ==> r.error == NotFound)
      && (r.Success? ==>
            && Enrolled(r.value, sid) == YearSubjects(subjects, year)
            && OthersRows(r.value, sid) == OthersRows(rows, sid)
            && (NoDuplicates(rows) ==> NoDuplicates(r.value)))
  {
    var explicit := if ids.None? then Success(rows) else RequestAll(rows, subjects, sid, year, {}, ids.value);
    if ids.Some? {
      RequestAllFails(rows, subjects, sid, year, {}, ids.value);
    }
    if explicit.Success? {
      if ids.Some? {
        RequestAllOthers(rows, subjects, sid, year, {}, ids.value);
      }
      SyncExact(explicit.value, subjects, sid, year);
      SyncOthers(explicit.value, subjects, sid, year);
      if NoDuplicates(rows) {
        SyncNoDuplicates(explicit.value, subjects, sid, year);
      }
    }
  }

  /** updateStudent: the call fails (with NotFound) exactly when a requested
      id that was not enrolled before names no subject; on success the
      student's subjects are exactly the subjects of the new year, whatever
      was requested, and other students' rows are as they were. */
  lemma {:induction false} UpdateFacts(rows: seq<Enrollment>, subjects: seq<Subject>, sid: nat, year: int,
                    ids: Option<seq<nat>>)
    ensures var r := UpdateRows(rows, subjects, sid, year, ids);
      && (r.Failure? <==> ids.Some? && Unresolved(subjects, Enrolled(rows, sid), ids.value))
      && (r.Failure? ==> r.error == NotFound)
      && (r.Success? ==>
            && Enrolled(r.value, sid) == YearSubjects(subjects, year)
            && OthersRows(r.value, sid) == OthersRows(rows, sid)
            && (NoDuplicates(rows) ==> NoDuplicates(r.value)))
  {
    var base := if ids.None? then rows else DropUnrequested(rows, sid, ids.value);
    var explicit :=
      if ids.None? then Success(rows)
      else RequestAll(base, subjects, sid, year, Enrolled(rows, sid), ids.value);
    if ids.Some? {
      DropUnrequestedFacts(rows, sid, ids.value);
      RequestAllFails(base, subjects, sid, year, Enrolled(rows, sid), ids.value);
    }
    if explicit.Success? {
      if ids.Some? {
        RequestAllOthers(base, subjects, sid, year, Enrolled(rows, sid), ids.value);
      }
      SyncExact(explicit.value, subjects, sid, year);
      SyncOthers(explicit.value, subjects, sid, year);
      if NoDuplicates(rows) {
        SyncNoDuplicates(explicit.value, subjects, sid, year);
      }
    }
  }

  /** A requested subject of another year is passed over without error. */
  lemma {:induction false} OtherYearSkipped(rows: seq<Enrollment>, subjects: seq<Subject>, sid: nat, year: int, k: nat)
    requires k < |subjects| && UniqueSubjects(subjects) && subjects[k].year != year
    ensures RequestAll(rows, subjects, sid, year, {}, [subjects[k].id]) == Success(rows)
  {
    SubjectIndexOfMember(subjects, k);
    assert [subjects[k].id][..0] == [];
  }

  // -------------------------------------------------------------------------
  // Where the rows come from, and aborting early

  /** Every row of `after` was in `before` or is a row of the student for one
      of the subject ids `ids`. */
  predicate RowsFrom(after: seq<Enrollment>, before: seq<Enrollment>, sid: nat, ids: set<nat>) {
    forall i :: 0 <= i < |after| ==>
      after[i] in before || (after[i].studentId == sid && after[i].subjectId in ids)
  }

  lemma {:induction false} AdmitAllFrom(rows: seq<Enrollment>, sid: nat, year: int, ss: seq<Subject>,
                                        ids: set<nat>)
    requires SubjectIds(ss) <= ids
    ensures RowsFrom(AdmitAll(rows, sid, year, ss), rows, sid, ids)
    decreases |ss|
  {
    if ss != [] {
      var init, last := ss[..|ss| - 1], ss[|ss| - 1];
      LastSplit(ss);
      assert SubjectIds(init) <= SubjectIds(ss);
      AdmitAllFrom(rows, sid, year, init, ids);
      var r0 := AdmitAll(rows, sid, year, init);
      var r := Admit(r0, sid, year, last);
      assert last.id in ids;
      forall i | 0 <= i < |r| ensures r[i] in rows || (r[i].studentId == sid && r[i].subjectId in ids) {
        if i < |r0| {
          assert r[i] == r0[i];
        }
      }
    }
  }

  /** A sync writes rows only for the student and only for catalogue subjects. */
  lemma {:induction false} SyncFrom(rows: seq<Enrollment>, subjects: seq<Subject>, sid: nat, year: int)
    ensures RowsFrom(Sync(rows, subjects, sid, year), rows, sid, SubjectIds(subjects))
  {
    var d := DropOtherYears(rows, subjects, sid, year);
    AdmitAllFrom(d, sid, year, subjects, SubjectIds(subjects));
  }

  lemma {:induction false} RequestAllFrom(rows: seq<Enrollment>, subjects: seq<Subject>, sid: nat,
                                          year: int, skip: set<nat>, ids: seq<nat>)
    requires RequestAll(rows, subjects, sid, year, skip, ids).Success?
    ensures RowsFrom(RequestAll(rows, subjects, sid, year, skip, ids).value, rows, sid, SubjectIds(subjects))
    decreases |ids|
  {
    if ids != [] {
      var init, last := ids[..|ids| - 1], ids[|ids| - 1];
      RequestAllFrom(rows, subjects, sid, year, skip, init);
      var r0 := RequestAll(rows, subjects, sid, year, skip, init).value;
      var r := RequestAll(rows, subjects, sid, year, skip, ids).value;
      if last !in skip {
        var k := SubjectIndex(subjects, last).value;
        assert subjects[k] in subjects;
        forall i | 0 <= i < |r|
          ensures r[i] in rows || (r[i].studentId == sid && r[i].subjectId in SubjectIds(subjects))
        {
          if i < |r0| {
            assert r[i] == r0[i];
          }
        }
      }
    }
  }

  /** Once a prefix of the requested ids fails, the whole pass fails the same way. */
  lemma {:induction false} RequestAllFailureExtends(rows: seq<Enrollment>, subjects: seq<Subject>, sid: nat,
                                                    year: int, skip: set<nat>, ids: seq<nat>, n: nat)
    requires n <= |ids| && RequestAll(rows, subjects, sid, year, skip, ids[..n]).Failure?
    ensures RequestAll(rows, subjects, sid, year, skip, ids) == RequestAll(rows, subjects, sid, year, skip, ids[..n])
    decreases |ids| - n
  {
    if n < |ids| {
      var init := ids[..|ids| - 1];
      assert init[..n] == ids[..n];
      RequestAllFailureExtends(rows, subjects, sid, year, skip, init, n);
    } else {
      assert ids[..n] == ids;
    }
  }

  /** Rows of a successful create or update: the old rows, plus rows of the
      student for catalogue subjects. */
  lemma {:induction false} ResultFrom(rows: seq<Enrollment>, subjects: seq<Subject>, sid: nat, year: int,
                   ids: Option<seq<nat>>, update: bool)
    ensures var r := if update then UpdateRows(rows, subjects, sid, year, ids)
                     else CreateRows(rows, subjects, sid, year, ids);
            r.Success? ==> RowsFrom(r.value, rows, sid, SubjectIds(subjects))
  {
    var base := if update && ids.Some? then DropUnrequested(rows, sid, ids.value) else rows;
    var skip := if update then Enrolled(rows, sid) else {};
    var explicit := if ids.None? then Success(rows) else RequestAll(base, subjects, sid, year, skip, ids.value);
    if explicit.Success? {
      var e := explicit.value;
      if ids.Some? {
        RequestAllFrom(base, subjects, sid, year, skip, ids.value);
      }
      SyncFrom(e, subjects, sid, year);
      var s := Sync(e, subjects, sid, year);
      forall i | 0 <= i < |s| ensures s[i] in rows || (s[i].studentId == sid && s[i].subjectId in SubjectIds(subjects)) {
        if s[i] in e && ids.Some? {
          var j :| 0 <= j < |e| && e[j] == s[i];
        }
      }
    }
  }
}
