# Student Management System: a verified model of the service core

This project models the service layer of a Spring Boot student management
system in Dafny. Admins manage students, teachers, subjects and exams.
Teachers enter exam marks. The services derive per-subject, per-teacher and
per-student performance figures from those marks. The browser client turns
percentages into letter grades and summary counts.

The model covers:

- **Enrollment reconciliation** (`Reconcile`, `StudentService`). Creating or
  updating a student first runs an explicit pass over the requested subject
  ids, then a year-based sync. The sync drops enrollments in subjects of
  other years and adds every missing subject of the student's year. The
  proved consequence: after any successful create or update, the student is
  enrolled in exactly the subjects of the student's year, whatever ids were
  requested.
- **Performance aggregation** (`Metrics`, `Analytics`, and the copies in the
  teacher, subject and student services).
  - A graded mark becomes the percentage `m * 100 / max`.
  - Reports carry the mean, the pass rate (pass at 40 or above), the
    distinction count (75 or above) and the teacher composite score.
  - The top-N rankings are a stable sort by average, highest first.
  - Thresholds are also stated on integers: pass is `5m >= 2max`,
    distinction is `4m >= 3max`.
- **The exam-result store** (`ExamResults`, `ExamService`).
  - An upsert keyed by (exam, student) that rejects marks above the maximum.
  - The bulk upsert as a left-to-right fold that aborts on the first failure.
  - The completion counters, and the per-exam roster.
- **The tables and their keys** (`Repository.Store`). A class holds the six
  tables as sequences, with an invariant `Valid()`:
  - primary keys are unique, and so are roll numbers and (exam, student)
    pairs;
  - exam maxima are at least 1;
  - every foreign key resolves.

  Every mutating service method keeps `Valid()`. A failing call restores
  what it touched, as the class-level transaction rolls back.
- **Small store rules** (`TeacherService`, `SubjectService`, `ExamService`):
  - a deleted teacher's subjects are unassigned;
  - a subject's teacher is assigned or cleared;
  - a blank password keeps the stored one;
  - an empty exam date keeps the stored one;
  - deleting a subject cascades to its enrollments, exams and their results.
- **The client grade rules** (`Grades`): `getGrade`, `getGradeColor`, the
  results summary and the exam progress figure.

Module layout:

| file | module |
|---|---|
| common.dfy | `Common` (Option, Result, errors, blank text), `Seqs` (search, filter, count) |
| entities.dfy | `Entities`: the records, find-by-id, unique keys |
| repository.dfy | `Repository`: the `Store` class and the lemmas that keep it valid |
| metrics.dfy | `Metrics`: percentages, thresholds, the report summary |
| analytics.dfy | `Analytics`: subject, teacher and student reports, ranking |
| reconcile.dfy | `Reconcile`: enrollment reconciliation as functions |
| exam_results.dfy | `ExamResults`: upsert, bulk fold, counters, roster |
| student_service.dfy, teacher_service.dfy, subject_service.dfy, exam_service.dfy | the four services as methods on a `Store` |
| grades.dfy | `Grades`: the client rules |

Where the code does something other than a reader of its comments might
expect, the model follows the code:

- Creating or updating a subject does not reconcile any student's
  enrollments. Only student create and update do.
- `updateExam` may lower an exam's maximum below marks already entered. The
  upsert checks only the upper bound, so negative marks are accepted. Marks
  within `[0, max]` are therefore not an invariant of the store. The range
  lemmas assume them instead.
- `updateStudent` writes the form's roll number and then re-fetches the
  student by the roll number of the request path. A call that changes the
  roll number therefore always fails and rolls back:
  - with NotFound;
  - or, when the new number belongs to another student, with the unique
    constraint's violation at the first flush.
  The client never sends a changed roll number, so the model records this
  as the behaviour and not as a defect.
- `createStudent` re-fetches the student it has just saved, meant to show
  its new enrollments. The re-fetch yields the same in-memory instance,
  whose enrollment collection nothing has filled. The returned subject list
  is therefore modelled as empty, while the stored enrollments are exactly
  the subjects of the year.
- `getAllSubjectPerformance` unboxes every result's marks without a null
  check. It fails on any ungraded result and otherwise equals the
  subject-wise analytics.

## Model

| member | source | states |
|---|---|---|
| Repository.Store.Keyed | src/main/java/com/example/Student_Management_System/entity/ExamResult.java:6-8 | The invariant every mutating service keeps. The schema supplies unique ids in every table, unique roll numbers (Student.java line 23) and one result per (exam, student) pair. One enrollment row per (student, subject) pair is kept by the reconciler (`Reconcile.SyncNoDuplicates`, `Reconcile.RequestAllOthers`), not by the storage layer. Exam maxima of at least 1 come from the exam form's `@Min(1)` validation (ExamDto.java lines 27-29). |
| Repository.Store.Linked | src/main/java/com/example/Student_Management_System/entity/ExamResult.java:15-21 | Every required foreign key names an existing row: a result's exam and student, an exam's subject (Exam.java line 27), an enrollment's student and subject, and a subject's teacher when one is assigned. |
| Repository.Store.constructor | src/main/java/com/example/Student_Management_System/entity/ExamResult.java:5-21 | The empty database meets every key and foreign-key constraint, so `Valid()` holds from the start; every mutating service method keeps it. |
| Common.WhitespaceCases | src/main/java/com/example/Student_Management_System/service/impl/ExamServiceImpl.java:170 | Blank text follows `Character.isWhitespace`: the separators U+001C to U+001F and the Unicode spaces count as white space, the non-breaking spaces do not. |
| Metrics.Percent | src/main/java/com/example/Student_Management_System/service/impl/AnalyticsServiceImpl.java:55 | `marksObtained * 100.0 / maxMarks`. Its range is stated by `Metrics.PercentInRange` and its thresholds by `Metrics.PassIsIntegerThreshold` and `Metrics.DistinctionIsIntegerThreshold`. |
| Metrics.PassIsIntegerThreshold | src/main/java/com/example/Student_Management_System/service/impl/AnalyticsServiceImpl.java:64 | For a maximum of at least 1, the percentage of `m` reaches 40 exactly when `5m >= 2max`, so exactly 40 per cent passes. |
| Metrics.DistinctionIsIntegerThreshold | src/main/java/com/example/Student_Management_System/service/impl/AnalyticsServiceImpl.java:65 | The percentage reaches 75 exactly when `4m >= 3max`, so exactly 75 per cent is a distinction. |
| Metrics.PercentInRange | src/main/java/com/example/Student_Management_System/service/impl/AnalyticsServiceImpl.java:55 | A mark within `[0, max]` gives a percentage within `[0, 100]`. |
| Metrics.Percentages | src/main/java/com/example/Student_Management_System/service/impl/AnalyticsServiceImpl.java:53-56 | There is one percentage per graded mark; ungraded results are dropped. |
| Metrics.ThresholdCounts | src/main/java/com/example/Student_Management_System/service/impl/AnalyticsServiceImpl.java:64-65 | The pass and distinction counts over the percentages equal the counts of marks meeting the integer thresholds. |
| Metrics.Summarize | src/main/java/com/example/Student_Management_System/service/impl/AnalyticsServiceImpl.java:62-74 | An empty list gives all zeros. Otherwise n is the list's length and the distinction count counts the percentages of at least 75. |
| Metrics.SummarizeMeans | src/main/java/com/example/Student_Management_System/service/impl/AnalyticsServiceImpl.java:63-68 | For a non-empty list, `average * n` is the sum of the percentages and `passPercentage * n` is 100 times the number of passes. |
| Metrics.SummaryBounds | src/main/java/com/example/Student_Management_System/service/impl/AnalyticsServiceImpl.java:64-69 | Distinctions never exceed passes, passes never exceed n, and the pass percentage lies in `[0, 100]`. |
| Metrics.AverageInRange | src/main/java/com/example/Student_Management_System/service/impl/AnalyticsServiceImpl.java:63 | The mean of percentages in `[0, 100]` lies in `[0, 100]`. |
| Metrics.ScoreExample | src/main/java/com/example/Student_Management_System/service/impl/AnalyticsServiceImpl.java:108-109 | An average of 80, a pass rate of 90 and 5 distinctions out of 10 give a performance score of 80. |
| Metrics.ScoreInRange | src/main/java/com/example/Student_Management_System/service/impl/AnalyticsServiceImpl.java:99-114 | The composite score of percentages in `[0, 100]` lies in `[0, 100]`. |
| Analytics.PoolMarks | src/main/java/com/example/Student_Management_System/service/impl/AnalyticsServiceImpl.java:49-56 | The results of a pool's exams, in repository order, each joined with its exam's maximum; every maximum is at least 1 and the pool is no longer than the results. What it selects is stated by `Analytics.PoolMarksCount`. |
| Analytics.SubjectMarks | src/main/java/com/example/Student_Management_System/service/impl/AnalyticsServiceImpl.java:49-51 | `findBySubject` then `findByExamIn`: the pool of the results of the subject's exams. |
| Analytics.TeacherMarks | src/main/java/com/example/Student_Management_System/service/impl/AnalyticsServiceImpl.java:86-88 | `teacher.getSubjects()`, `findBySubjectIn` then `findByExamIn`: the pool of the results of the exams of every subject the teacher holds. |
| Analytics.StudentMarks | src/main/java/com/example/Student_Management_System/service/impl/AnalyticsServiceImpl.java:126-127 | `findByStudent`: the pool of the student's results. |
| Analytics.SubjectReport | src/main/java/com/example/Student_Management_System/service/impl/AnalyticsServiceImpl.java:44-78 | getSubjectWiseAverages: one entry per subject, in repository order, summarising the graded results of that subject's exams. Its properties are stated by `Analytics.SubjectReportFacts`. |
| Analytics.TeacherReport | src/main/java/com/example/Student_Management_System/service/impl/AnalyticsServiceImpl.java:81-120 | getTeacherWisePerformance: one entry per teacher, in repository order, pooling the graded results of all of that teacher's subjects. Its properties are stated by `Analytics.TeacherReportFacts` and `Analytics.TeacherScoreFacts`. |
| Analytics.Ranked | src/main/java/com/example/Student_Management_System/service/impl/AnalyticsServiceImpl.java:152-153 | The stable sort by average, highest first. Its properties are stated by `Analytics.RankedFacts`. |
| Analytics.Take | src/main/java/com/example/Student_Management_System/service/impl/AnalyticsServiceImpl.java:154 | `.limit(n)`: the first n entries, or all of them when there are fewer. Its use is stated by `Analytics.TopPerformingFacts`. |
| Analytics.TopPerformingStudents | src/main/java/com/example/Student_Management_System/service/impl/AnalyticsServiceImpl.java:123-156 | getTopPerformingStudents: every student's entry, ranked, cut to `limit`; a negative limit fails. Its properties are stated by `Analytics.TopPerformingFacts`. |
| Analytics.TopStudentsByYear | src/main/java/com/example/Student_Management_System/service/impl/AnalyticsServiceImpl.java:159-196 | getTopStudentsByYear: the same ranking over the students of one year. Its properties are stated by `Analytics.TopStudentsByYearFacts`. |
| Analytics.SummaryOfCounts | src/main/java/com/example/Student_Management_System/service/impl/AnalyticsServiceImpl.java:53-74 | Only graded results count towards n. With none graded, every figure is 0. Otherwise: distinctions are the `4m >= 3max` marks; distinctions are at most passes, which are at most n; the pass percentage is `100 * passes / n`. |
| Analytics.SummaryOfRanges | src/main/java/com/example/Student_Management_System/service/impl/AnalyticsServiceImpl.java:62-69 | The pass percentage lies in `[0, 100]`. When every mark lies in `[0, max]`, so do the average and the performance score. |
| Analytics.PoolMarksCount | src/main/java/com/example/Student_Management_System/service/impl/AnalyticsServiceImpl.java:49-56 | The graded marks pooled for a report are exactly the graded results whose exam exists and belongs to the pool. |
| Analytics.SubjectReportFacts | src/main/java/com/example/Student_Management_System/service/impl/AnalyticsServiceImpl.java:45-77 | There is one entry per subject, in repository order, carrying that subject's id and name and computed from its exams' graded results only. The average is the summary mean, the pass percentage is `100 * passes / n` and the distinction count counts the marks at the integer threshold. With none graded, average, pass rate and distinctions are 0. Distinctions never exceed passes, the pass percentage lies in `[0, 100]`, and the average does when every mark is within range. |
| Analytics.TeacherReportFacts | src/main/java/com/example/Student_Management_System/service/impl/AnalyticsServiceImpl.java:82-119 | There is one entry per teacher, carrying the teacher's id and name and pooling the results of all of that teacher's subjects. The average is the summary mean, the pass percentage is `100 * passes / n` and the distinction count counts the marks at the integer threshold. All four figures are 0 when nothing is graded. Distinctions never exceed passes, which never exceed graded results. The pass percentage lies in `[0, 100]`, and the average does when every mark is within range. |
| Analytics.TeacherScoreFacts | src/main/java/com/example/Student_Management_System/service/impl/AnalyticsServiceImpl.java:99-109 | The score is `0.6 * avg + 0.3 * pass + 0.1 * (100 * distinctions / n)`. It lies in `[0, 100]` when every pooled mark does. |
| Analytics.SubjectWiseAverages | src/main/java/com/example/Student_Management_System/service/impl/AnalyticsServiceImpl.java:44-78 | The loop over subjects builds exactly the subject report. |
| Analytics.TeacherWisePerformance | src/main/java/com/example/Student_Management_System/service/impl/AnalyticsServiceImpl.java:81-120 | The loop over teachers builds exactly the teacher report. |
| Analytics.RankedFacts | src/main/java/com/example/Student_Management_System/service/impl/AnalyticsServiceImpl.java:152-153 | The ranking is non-increasing by average, a permutation of its input, and stable: entries with equal averages keep their input order. |
| Analytics.StudentEntryMetrics | src/main/java/com/example/Student_Management_System/service/impl/AnalyticsServiceImpl.java:125-149 | A student's entry carries the student's id, roll number and name and the given year. Its average is the summary mean of the student's graded percentages, and both figures are 0 with none graded. The pass percentage is `100 * passes / n` at the integer threshold and lies in `[0, 100]`. The average lies in `[0, 100]` when every mark is within range. |
| Analytics.TopPerformingFacts | src/main/java/com/example/Student_Management_System/service/impl/AnalyticsServiceImpl.java:123-156 | A negative limit is rejected. Otherwise the result has `min(limit, #students)` entries, highest average first, and is a prefix of the stable ranking of every student. |
| Analytics.TopStudentsByYearFacts | src/main/java/com/example/Student_Management_System/service/impl/AnalyticsServiceImpl.java:159-196 | A negative limit fails, and only a negative limit. Otherwise the result has `min(limit, #students of the year)` entries, every one of the requested year, highest average first. It is the head of the stable ranking of that year's students, so it holds the best of them. |
| ExamResults.Upsert | src/main/java/com/example/Student_Management_System/service/impl/ExamServiceImpl.java:187-194 | Find the pair's result or create one, set its marks and save it. Its properties are stated by the `ExamResults.Upsert…` lemmas. |
| ExamResults.ResolveStudent | src/main/java/com/example/Student_Management_System/service/impl/ExamServiceImpl.java:169-178 | The student a request names: by a non-blank roll number, otherwise by id; an unknown roll number or id is NotFound and a missing id InvalidInput. `ExamResults.CheckResultFacts` states that these errors are the call's errors once the exam is found. |
| ExamResults.BlankRollNoUsesId | src/main/java/com/example/Student_Management_System/service/impl/ExamServiceImpl.java:169-178 | An absent or blank roll number, such as one made only of U+001F, is passed over, and the student is resolved by id. |
| ExamResults.CheckResult | src/main/java/com/example/Student_Management_System/service/impl/ExamServiceImpl.java:165-185 | The checks of addOrUpdateResult in the source's order, giving the row to write: the exam, then the student, then null marks, then the maximum. `ExamResults.CheckResultFacts` states each error in that order. |
| ExamResults.ApplyResult | src/main/java/com/example/Student_Management_System/service/impl/ExamServiceImpl.java:164-195 | addOrUpdateResult on the result rows: the checks, then the upsert. Its properties are stated by `ExamResults.ApplyResultFacts` and `ExamResults.ApplyResultIdempotent`. |
| ExamResults.ApplyBulk | src/main/java/com/example/Student_Management_System/service/impl/ExamServiceImpl.java:197-202 | addOrUpdateBulkResults as a left-to-right fold that stops at the first failure. Its properties are stated by the `ExamResults.ApplyBulk…` lemmas. |
| ExamResults.TotalStudents | src/main/java/com/example/Student_Management_System/service/impl/ExamServiceImpl.java:248-252 | `totalStudents`: the number of enrollments of the exam's subject. Its properties are stated by `ExamResults.EnteredAtMostTotal`. |
| ExamResults.ResultsEntered | src/main/java/com/example/Student_Management_System/service/impl/ExamServiceImpl.java:254-262 | `resultsEntered`: the exam's results whose student is enrolled in its subject, graded or not. Its properties are stated by `ExamResults.EnteredAtMostTotal`. |
| ExamResults.ExamStudents | src/main/java/com/example/Student_Management_System/service/impl/ExamServiceImpl.java:128-162 | getExamStudents: NotFound for an unknown exam, otherwise one roster row per enrollment of its subject. Its properties are stated by `ExamResults.ExamStudentsFacts` and `ExamResults.RosterRowsFacts`. |
| ExamResults.UpsertLookup | src/main/java/com/example/Student_Management_System/service/impl/ExamServiceImpl.java:187-194 | After an upsert, the (exam, student) pair holds the given marks. |
| ExamResults.UpsertOthers | src/main/java/com/example/Student_Management_System/service/impl/ExamServiceImpl.java:187-194 | An upsert changes no other pair's marks. |
| ExamResults.UpsertUnique | src/main/java/com/example/Student_Management_System/service/impl/ExamServiceImpl.java:187-194 | An upsert keeps (exam, student) pairs unique, as the table's unique constraint demands. |
| ExamResults.UpsertSingle | src/main/java/com/example/Student_Management_System/service/impl/ExamServiceImpl.java:187-194 | After an upsert there is exactly one row for the pair: an existing row is overwritten, not duplicated. |
| ExamResults.UpsertIdempotent | src/main/java/com/example/Student_Management_System/service/impl/ExamServiceImpl.java:187-194 | Upserting the same marks twice leaves the same rows as once. |
| ExamResults.UpsertOverwrite | src/main/java/com/example/Student_Management_System/service/impl/ExamServiceImpl.java:187-194 | A second upsert of the pair replaces the first one's marks. |
| ExamResults.CheckResultFacts | src/main/java/com/example/Student_Management_System/service/impl/ExamServiceImpl.java:165-185 | A request passes the checks exactly when the exam exists, the student resolves (by a non-blank roll number, else by id), the marks are present and they do not exceed the maximum. An unknown exam fails first, with NotFound. Once the exam is found, a failed student lookup's error is the call's error: NotFound for an unknown roll number or id, InvalidInput when no roll number and no id is given. With the student resolved, null marks fail with NullMarks, and marks above the maximum fail with InvalidInput. The row names the exam, an existing student and the marks. |
| ExamResults.ApplyResultFacts | src/main/java/com/example/Student_Management_System/service/impl/ExamServiceImpl.java:164-195 | A single upsert request succeeds exactly when its checks pass. It then sets that pair's marks, leaves every other pair alone and keeps the pairs unique. |
| ExamResults.ApplyResultIdempotent | src/main/java/com/example/Student_Management_System/service/impl/ExamServiceImpl.java:187-194 | Applying the same successful request twice leaves the same rows as applying it once. |
| ExamResults.ApplyBulkFails | src/main/java/com/example/Student_Management_System/service/impl/ExamServiceImpl.java:197-202 | The bulk call fails exactly when some request in it fails its checks. |
| ExamResults.ApplyBulkLastWins | src/main/java/com/example/Student_Management_System/service/impl/ExamServiceImpl.java:197-202 | Requests apply in list order: the last successful request for a pair decides its marks. |
| ExamResults.ApplyBulkOthers | src/main/java/com/example/Student_Management_System/service/impl/ExamServiceImpl.java:197-202 | A successful bulk call leaves every pair that no accepted request names as it was: the same marks, or still no result. |
| ExamResults.ApplyBulkUnique | src/main/java/com/example/Student_Management_System/service/impl/ExamServiceImpl.java:197-202 | A successful bulk call keeps (exam, student) pairs unique. |
| ExamResults.EnteredAtMostTotal | src/main/java/com/example/Student_Management_System/service/impl/ExamServiceImpl.java:248-262 | Only results of enrolled students are counted, so with unique pairs `resultsEntered <= totalStudents`. |
| ExamResults.CompletionExample | src/main/java/com/example/Student_Management_System/service/impl/ExamServiceImpl.java:248-262 | In a worked case, an ungraded row counts as entered and the result of a student enrolled elsewhere does not. |
| ExamResults.RowFor | src/main/java/com/example/Student_Management_System/service/impl/ExamServiceImpl.java:141-159 | A row carries the enrollment's student id, the exam's id and maximum, and the marks of the stored result for that exam and student (none without one). When the student is stored, it carries the student's roll number and name. |
| ExamResults.RosterRowsFacts | src/main/java/com/example/Student_Management_System/service/impl/ExamServiceImpl.java:134-161 | The roster has one row per enrollment of the exam's subject, in order. Each row carries the exam's id and maximum, and the stored marks or none. |
| ExamResults.ExamStudentsFacts | src/main/java/com/example/Student_Management_System/service/impl/ExamServiceImpl.java:128-162 | An unknown exam fails with NotFound. Otherwise the roster has `totalStudents` rows. |
| ExamResults.RosterIgnoresTargetYear | src/main/java/com/example/Student_Management_System/service/impl/ExamServiceImpl.java:134-161 | The roster does not depend on the exam's target year. |
| Reconcile.Sync | src/main/java/com/example/Student_Management_System/service/impl/StudentServiceImpl.java:221-248 | syncYearBasedEnrollments on the enrollment rows: drop the student's rows in other years, then add every missing subject of the year. Its properties are stated by `Reconcile.SyncExact`, `Reconcile.SyncOthers`, `Reconcile.SyncNoDuplicates` and `Reconcile.SyncIdempotent`. |
| Reconcile.CreateRows | src/main/java/com/example/Student_Management_System/service/impl/StudentServiceImpl.java:49-68 | The rows createStudent leaves: the explicit pass over the requested ids, then the sync. Its properties are stated by `Reconcile.CreateFacts`. |
| Reconcile.UpdateRows | src/main/java/com/example/Student_Management_System/service/impl/StudentServiceImpl.java:85-124 | The rows updateStudent leaves: the delete and add delta when ids are given, then the sync for the new year. Its properties are stated by `Reconcile.UpdateFacts`. |
| Reconcile.SubjectIdsOf | src/main/java/com/example/Student_Management_System/service/impl/StudentServiceImpl.java:215-217 | The view lists exactly the ids of the subjects the student is enrolled in. |
| Reconcile.DropEnrolled | src/main/java/com/example/Student_Management_System/service/impl/StudentServiceImpl.java:225-230 | After the sync's removal step, every remaining subject of the student is of the student's year. |
| Reconcile.SyncExact | src/main/java/com/example/Student_Management_System/service/impl/StudentServiceImpl.java:221-248 | After the sync, the student is enrolled in exactly the subjects of the student's year. |
| Reconcile.SyncOthers | src/main/java/com/example/Student_Management_System/service/impl/StudentServiceImpl.java:221-248 | The sync leaves every other student's enrollment rows as they were. |
| Reconcile.SyncNoDuplicates | src/main/java/com/example/Student_Management_System/service/impl/StudentServiceImpl.java:238-247 | The sync adds no second row for a (student, subject) pair. |
| Reconcile.SyncIdempotent | src/main/java/com/example/Student_Management_System/service/impl/StudentServiceImpl.java:221-248 | A second sync straight after the first changes nothing. |
| Reconcile.RequestAllFails | src/main/java/com/example/Student_Management_System/service/impl/StudentServiceImpl.java:49-65 | The explicit pass fails exactly when a requested id outside the skipped set does not resolve, and the error is NotFound. |
| Reconcile.RequestAllEnrolled | src/main/java/com/example/Student_Management_System/service/impl/StudentServiceImpl.java:49-65 | A successful explicit pass adds exactly the requested, non-skipped subjects of the student's year. |
| Reconcile.RequestAllOthers | src/main/java/com/example/Student_Management_System/service/impl/StudentServiceImpl.java:49-65 | The explicit pass leaves other students' rows alone and adds no duplicate row. |
| Reconcile.DropUnrequestedFacts | src/main/java/com/example/Student_Management_System/service/impl/StudentServiceImpl.java:90-95 | The delete step keeps exactly the student's enrollments whose subject is requested. It leaves other students' rows alone and keeps rows distinct. |
| Reconcile.CreateFacts | src/main/java/com/example/Student_Management_System/service/impl/StudentServiceImpl.java:43-74 | Create's enrollment steps fail, with NotFound, exactly when a requested id does not resolve. Otherwise the student is enrolled in exactly the subjects of the student's year; other rows are unchanged and no row is duplicated. |
| Reconcile.UpdateFacts | src/main/java/com/example/Student_Management_System/service/impl/StudentServiceImpl.java:76-130 | The same as for create, except that update looks up only requested ids not already enrolled. A success enrolls exactly the subjects of the new year, whatever was requested. |
| Reconcile.OtherYearSkipped | src/main/java/com/example/Student_Management_System/service/impl/StudentServiceImpl.java:55 | Requesting a subject of another year succeeds silently and adds nothing. |
| StudentService.ToView | src/main/java/com/example/Student_Management_System/service/impl/StudentServiceImpl.java:206-219 | The returned student carries its id, roll number, name and year, and its subject ids are exactly the subjects it is enrolled in. |
| StudentService.SyncYearBasedEnrollments | src/main/java/com/example/Student_Management_System/service/impl/StudentServiceImpl.java:221-248 | The delete loop and the add loop together compute the sync of the old rows. |
| StudentService.EnrollRequested | src/main/java/com/example/Student_Management_System/service/impl/StudentServiceImpl.java:49-65 | The loop over requested ids computes the explicit pass, or stops with its error. |
| StudentService.DeleteUnrequested | src/main/java/com/example/Student_Management_System/service/impl/StudentServiceImpl.java:90-95 | The loop deletes exactly the student's rows whose subject is not requested. |
| StudentService.CreateEnrollments | src/main/java/com/example/Student_Management_System/service/impl/StudentServiceImpl.java:49-68 | The explicit pass and the sync produce create's rows, or fail and leave the rows unchanged. |
| StudentService.UpdateEnrollments | src/main/java/com/example/Student_Management_System/service/impl/StudentServiceImpl.java:85-124 | The delta and the sync produce update's rows, or fail and leave the rows unchanged. |
| StudentService.CreateStudent | src/main/java/com/example/Student_Management_System/service/impl/StudentServiceImpl.java:43-74 | A form without a non-blank password fails with InvalidInput: `mapToEntity` (lines 201-203) leaves the password null, and the `@NotBlank` column of Student.java lines 43-45 rejects the save. Otherwise a taken roll number fails with Conflict, and then an unresolved requested id fails with NotFound. The call fails exactly in these three cases, and then changes nothing. On success the student is saved under a fresh id, and the stored enrollments of the student are exactly the subjects of the student's year. The returned view lists no subject: it reads the new entity's own enrollment collection, which no enrollment row was added to. The store stays valid. |
| StudentService.UpdateStudent | src/main/java/com/example/Student_Management_System/service/impl/StudentServiceImpl.java:76-130 | An unknown roll number fails with NotFound. An unresolved id fails with NotFound. A changed roll number fails with Conflict when it is taken, else NotFound. Any failure changes nothing. On success the record is rewritten in place, and the subjects are exactly those of the new year. |
| StudentService.DeleteStudent | src/main/java/com/example/Student_Management_System/service/impl/StudentServiceImpl.java:132-139 | An unknown roll number fails with NotFound. Otherwise the student's results, the student and the student's enrollments are deleted, and every other row stays. |
| StudentService.StudentPerformanceByRollNo | src/main/java/com/example/Student_Management_System/service/impl/StudentServiceImpl.java:158-193 | getStudentPerformanceByRollNo: NotFound for an unknown roll number, otherwise the student's entry with no year. Its properties are stated by `StudentService.StudentPerformanceFacts`. |
| StudentService.StudentPerformanceFacts | src/main/java/com/example/Student_Management_System/service/impl/StudentServiceImpl.java:158-193 | An unknown roll number fails with NotFound. Otherwise the entry is that student's, with no year. Ungraded results are ignored, and with none graded both figures are 0. The average is the summary mean of the graded percentages. The pass percentage is `100 * passes / n`, with exactly 40 passing, and lies in `[0, 100]`. The average lies in `[0, 100]` when every mark is within range. |
| ExamService.FromForm | src/main/java/com/example/Student_Management_System/service/impl/ExamServiceImpl.java:47-53 | The exam a form describes keeps the given id, the form's subject and maximum, and the given date. |
| ExamService.KeepDate | src/main/java/com/example/Student_Management_System/service/impl/ExamServiceImpl.java:78-80 | A present, non-empty date replaces the stored date; an absent or empty one keeps it. |
| ExamService.CreateExam | src/main/java/com/example/Student_Management_System/service/impl/ExamServiceImpl.java:42-61 | An unknown subject fails with NotFound and changes nothing. Otherwise the exam is appended under a fresh id with the form's fields, dated only when a date is given. |
| ExamService.UpdateExam | src/main/java/com/example/Student_Management_System/service/impl/ExamServiceImpl.java:63-84 | An unknown exam or subject fails with NotFound and changes nothing. Otherwise the exam is rewritten in place and keeps its date unless a non-empty one is given. |
| ExamService.DeleteExam | src/main/java/com/example/Student_Management_System/service/impl/ExamServiceImpl.java:86-92 | An unknown id fails with NotFound. Otherwise the exam and, by cascade, all of its results are removed, and nothing else is. |
| ExamService.AddOrUpdateResult | src/main/java/com/example/Student_Management_System/service/impl/ExamServiceImpl.java:164-195 | After the search loop the result rows are exactly the single upsert's rows. A failure carries the check's error and writes nothing. |
| ExamService.AddOrUpdateBulkResults | src/main/java/com/example/Student_Management_System/service/impl/ExamServiceImpl.java:197-202 | The loop's rows are exactly the bulk fold's rows. On any failure every row written by the call is rolled back. |
| TeacherService.KeepPassword | src/main/java/com/example/Student_Management_System/service/impl/TeacherServiceImpl.java:64-66 | A present, non-blank password is encoded and replaces the stored one; an absent or blank one keeps it. |
| TeacherService.CreateTeacher | src/main/java/com/example/Student_Management_System/service/impl/TeacherServiceImpl.java:46-56 | The teacher is appended under a fresh id, with a password only when a non-blank one is given. |
| TeacherService.UpdateTeacher | src/main/java/com/example/Student_Management_System/service/impl/TeacherServiceImpl.java:58-69 | An unknown id fails with NotFound and changes nothing. Otherwise name and email are rewritten in place and the password follows the keep rule. |
| TeacherService.Unassigned | src/main/java/com/example/Student_Management_System/service/impl/TeacherServiceImpl.java:78-81 | A subject loses the teacher only when it held that teacher, and nothing else about it changes. |
| TeacherService.DeleteTeacher | src/main/java/com/example/Student_Management_System/service/impl/TeacherServiceImpl.java:71-86 | An unknown id fails with NotFound and changes nothing. Otherwise every subject held by the teacher is unassigned, every other assignment stays, and the teacher is removed. |
| TeacherService.AllTeacherPerformance | src/main/java/com/example/Student_Management_System/service/impl/TeacherServiceImpl.java:105-145 | The result is entry for entry the teacher-wise analytics report. |
| SubjectService.FormTeacher | src/main/java/com/example/Student_Management_System/service/impl/SubjectServiceImpl.java:65-72 | No id assigns no teacher, a known id assigns that teacher, and an unknown id fails with NotFound. |
| SubjectService.CreateSubject | src/main/java/com/example/Student_Management_System/service/impl/SubjectServiceImpl.java:39-55 | An unknown teacher id fails with NotFound. Otherwise the subject is appended under a fresh id, unassigned when no teacher is given. |
| SubjectService.UpdateSubject | src/main/java/com/example/Student_Management_System/service/impl/SubjectServiceImpl.java:57-76 | An unknown subject or teacher fails with NotFound. Otherwise the subject is rewritten in place, and no teacher id clears the assignment. |
| SubjectService.AssignTeacher | src/main/java/com/example/Student_Management_System/service/impl/SubjectServiceImpl.java:103-112 | An unknown subject or teacher fails with NotFound. Otherwise only that subject's teacher changes. |
| SubjectService.DeleteSubject | src/main/java/com/example/Student_Management_System/service/impl/SubjectServiceImpl.java:78-84 | An unknown id fails with NotFound. Otherwise the subject, its enrollments, its exams and their results are removed, and every other row stays. |
| SubjectService.DeletedResults | src/main/java/com/example/Student_Management_System/entity/Subject.java:35-39 | A result survives a subject's deletion exactly when its exam belongs to another subject. |
| SubjectService.Unboxed | src/main/java/com/example/Student_Management_System/service/impl/SubjectServiceImpl.java:125-127 | Unboxing fails, with NullMarks, exactly when some result is ungraded; otherwise it gives the percentages. |
| SubjectService.UnfilteredEntry | src/main/java/com/example/Student_Management_System/service/impl/SubjectServiceImpl.java:120-145 | getAllSubjectPerformance's entry for one subject, which unboxes every result's marks. Its properties are stated by `SubjectService.UnfilteredEntryFacts`. |
| SubjectService.UnfilteredEntryFacts | src/main/java/com/example/Student_Management_System/service/impl/SubjectServiceImpl.java:120-146 | A subject's entry fails exactly when one of its results is ungraded, and otherwise equals the analytics entry. |
| SubjectService.AllSubjectPerformance | src/main/java/com/example/Student_Management_System/service/impl/SubjectServiceImpl.java:114-148 | The report fails, with NullMarks, exactly when some subject has an ungraded result. Otherwise it equals the subject-wise analytics report. |
| Grades.GetGrade | src/main/resources/static/js/app.js:917-925 | getGrade: the first band whose floor the percentage reaches. Its properties are stated by `Grades.GradeBands` and `Grades.GradeMonotone`. |
| Grades.GetGradeColour | src/main/resources/static/js/app.js:927-931 | getGradeColor: green, yellow or red by percentage. Its properties are stated by `Grades.ColourMatchesGrade`. |
| Grades.ClientSummary | src/main/resources/static/js/app.js:954-957 | The summary line of renderStudentResultsTable: the graded results, their mean, passed and failed. Its properties are stated by `Grades.ClientSummaryFacts`, `Grades.PassedCount` and `Grades.TotalIsSum`. |
| Grades.Progress | src/main/resources/static/js/app.js:660 | The completion progress of an exam. Its properties are stated by `Grades.ProgressInRange`. |
| Grades.GradeBands | src/main/resources/static/js/app.js:917-925 | Each grade above F is given exactly from its floor (90, 80, 70, 60, 50, 40) up to the next grade's floor. F is given exactly below 40. |
| Grades.GradeMonotone | src/main/resources/static/js/app.js:917-925 | A higher percentage never gets a lower grade. |
| Grades.ColourMatchesGrade | src/main/resources/static/js/app.js:927-931 | Green exactly from 75, yellow exactly on `[40, 75)`, red exactly below 40. Red is given exactly when the grade is F, and green only for A or better. |
| Grades.ClientSummaryFacts | src/main/resources/static/js/app.js:954-957 | Passed counts the graded results with at least 40 per cent, and failed is the graded rest, never negative. The average is 0 when nothing is graded and otherwise equals the server's average. |
| Grades.PassedCount | src/main/resources/static/js/app.js:957 | The client's pass test agrees with the server's on every result. |
| Grades.TotalIsSum | src/main/resources/static/js/app.js:955-956 | The client's percentage total is the sum of the server's percentages. |
| Grades.ProgressInRange | src/main/resources/static/js/app.js:660 | Progress is 0 when nobody is enrolled and always lies in `[0, 100]`. |

## Left out

- Persistence mechanics are not modelled: JPA sessions, `flush` timing, lazy collections, cascade and orphan-removal machinery, derived queries. The tables are in-memory sequences, and rows keep their insertion order. The model applies the cascades the mapping declares directly: subject to enrollments and exams, exam to results, student to enrollments.
- StudentService.ToView: the view is computed from the enrollment rows it is given. StudentService.UpdateStudent passes the stored rows. The source reads the student's in-memory enrollment collection, which the same persistence context may not refresh with rows saved during the call.
- StudentService.CreateStudent: the returned view is modelled with no subject ids. `createStudent` re-fetches the student it has just saved. Within the same persistence context the re-fetch yields that instance again, and its enrollment collection is the empty list it was created with. This assumes `Enrollment.setStudent` does not add the enrollment to the student's collection. Enrollment.java is not part of this model.
- StudentService.UpdateStudent: a changed roll number fails with Conflict when the new number is taken, else with NotFound. The unique violation is placed where the first flush would raise it, after the enrollment steps. The exact flush point is not modelled.
- Unique columns other than the roll number are not modelled: student email, teacher email, subject code. A save that would break one of them succeeds in the model.
- The student fields email and department are not modelled. The student password is modelled only as present or absent in the form, which decides whether `createStudent` can save the student. Its encoding in `mapToEntity` and the stored value are not modelled; `updateStudent` never clears a stored password, so its outcome does not depend on the field.
- TeacherService.CreateTeacher and TeacherService.UpdateTeacher take the password encoder as a function parameter `encode`; BCrypt itself is not modelled.
- ExamService.CreateExam and ExamService.UpdateExam keep the exam date as the text it was given. `LocalDate.parse` and its exception on malformed text are not modelled.
- ExamService.CreateExam and ExamService.UpdateExam require `maxMarks >= 1`. That is what bean validation (`@Min(1)` on the exam form) guarantees before either is called. The validation failure itself belongs to the controllers.
- Student.year is not null: it is `@NotNull` on the entity, so the year is an `int`. The null-year guard in `getTopStudentsByYear` can never fire.
- Teacher.java is not part of this model. `teacher.getSubjects()` is taken to be the subjects whose assigned teacher is that teacher, in subject table order.
- `findBySubjectIn` on an empty subject list returns nothing in the model. Database-specific behaviour of an empty `IN` list is not modelled.
- Java `double` and JavaScript numbers are exact reals here: rounding error, `toFixed` and display formatting are not modelled. `Math.round(x)` is `floor(x + 0.5)`.
- Null ids are not modelled. Ids are `nat`, so a form cannot carry a null subject id, whether as an entry of a student form's `subjectIds` or as an exam form's `subjectId`. In the source, `findById(null)` throws (StudentServiceImpl.java lines 51 and 104, ExamServiceImpl.java lines 44 and 68). Only a result request's student id is optional, because the roll number can stand in for it; a missing one is InvalidInput.
- ExamResults.RowFor: a roster row carries only the student's id, roll number and name, the exam's id and maximum, and the marks. The copied display fields are not modelled: the result's surrogate id, the student's email, the exam's name and type, and the subject's name. Results have no surrogate id here, and student email is not modelled.
- Read-only lookups and DTO copying outside the modelled operations are not modelled. These are the by-id, by-teacher and list-all queries of each service, and `getStudentExamResults`.
- Controllers, authentication and Spring Security, the data initializer, and everything in the client other than the grade rules, summary counts and progress figure are HTTP, I/O and UI.
- ExamResults.RowFor: `Enrollment::getStudent` follows the association, so the student is always there. The model looks the student up by id instead. For an enrollment whose student is missing, which no valid store holds, it gives an empty roll number and name.
- Concurrent requests and transaction isolation are not modelled. A failing transactional call is modelled only as "the store is unchanged".
