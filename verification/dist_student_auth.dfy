/**
 * The registered student's side of dist/controllers/student.auth.controller.js:
 * submitting an exam (scoring loop, ledger upsert, submitted flag, lock-aware
 * reply) and the statistics over the older `results` table.
 */
module DistStudentAuth {
  import opened Wrappers
  import opened Schema
  import opened Scoring
  import opened Collections

  /** The body of `POST` submit: `{ studentId, examId, answers }`. */
  datatype Submission = Submission(studentId: Option<StudentId>, examId: Option<ExamId>, answers: Option<Answers>)

  predicate Complete(req: Submission) {
    Truthy(req.studentId) && Truthy(req.examId) && req.answers.Some?
  }

  datatype Reply =
    | MissingFields
    | InternalError
      /** `{ result_locked }` alone. */
    | LockedOnly
      /** `{ result_locked, score: "<score>/<total>", status }`; `resultLocked` is None when the exam row is missing. */
    | Revealed(resultLocked: Option<bool>, score: int, totalMarks: int, status: Status)

  /**
   * The scoring loop: adds `q.marks` (NULL adding nothing) for every question
   * whose truthy answer matches its correct answer; None when `.trim()` is
   * called on a NULL correct answer, which throws.
   */
  method ScoreAnswers(qs: seq<Question>, answers: Answers) returns (score: Option<int>)
    ensures score.None? <==> AnyFault(qs, answers)
    ensures score.Some? ==> score.value == StrictScore(qs, answers, NullAsZero)
  {
    var sum := 0;
    for i := 0 to |qs|
      invariant !AnyFault(qs[..i], answers)
      invariant sum == StrictScore(qs[..i], answers, NullAsZero)
    {
      assert qs[..i + 1][..i] == qs[..i];
      var q := qs[i];
      if Given(answers, q.id) {
        if q.correctAnswer.None? {
          AnyFaultIffSomeQuestionFaults(qs, answers);
          assert Faults(qs[i], answers);
          return None;
        }
        if Matches(answers[q.id], q.correctAnswer.value) {
          sum := sum + Weight(NullAsZero, q.marks);
        }
      }
    }
    assert qs[..|qs|] == qs;
    return Some(sum);
  }

  /** `UPDATE exam_student_assignments SET has_submitted = true` for one pair: never inserts a row. */
  function MarkSubmitted(rows: map<(ExamId, StudentId), Assignment>, exam: ExamId, student: StudentId)
    : (r: map<(ExamId, StudentId), Assignment>)
    ensures r.Keys == rows.Keys
    ensures (exam, student) in rows ==> r[(exam, student)] == rows[(exam, student)].(hasSubmitted := Some(true))
    ensures forall k :: k in rows && k != (exam, student) ==> r[k] == rows[k]
  {
    if (exam, student) in rows then rows[(exam, student) := rows[(exam, student)].(hasSubmitted := Some(true))] else rows
  }

  /** `pass_percentage` of the exam row, NULL when the row is missing. */
  function StoredPassPercentage(db: Db, exam: ExamId): Option<int> {
    if exam in db.exams then db.exams[exam].passPercentage else None
  }

  /** `examMeta.rows[0]?.result_locked`. */
  function StoredLock(db: Db, exam: ExamId): Option<bool> {
    if exam in db.exams then Some(db.exams[exam].resultLocked) else None
  }

  /** The grade of a submission that did not fault: score, total and status. */
  function GradeOf(db: Db, exam: ExamId, answers: Answers): (g: (int, int, Status))
    ensures g.1 == TotalMarks(QuestionsOf(db, exam), NullAsZero)
    ensures g.2 == Pass <==>
      (if g.1 > 0 then 100 * g.0 >= PassMark(StoredPassPercentage(db, exam)) * g.1
       else 0 >= PassMark(StoredPassPercentage(db, exam)))
  {
    var qs := QuestionsOf(db, exam);
    var score := StrictScore(qs, answers, NullAsZero);
    var total := TotalMarks(qs, NullAsZero);
    (score, total, Grade(score, total, PassMark(StoredPassPercentage(db, exam))))
  }

  /** The whole transaction of `submitStudentExam`. */
  function Submit(db: Db, req: Submission, now: Time): (r: (Db, Reply))
    ensures !Complete(req) ==> r == (db, MissingFields)
    ensures Complete(req) && AnyFault(QuestionsOf(db, req.examId.value), req.answers.value) ==> r == (db, InternalError)
    ensures Complete(req) && !AnyFault(QuestionsOf(db, req.examId.value), req.answers.value) ==>
      var (s, e) := (req.studentId.value, req.examId.value);
      var g := GradeOf(db, e, req.answers.value);
      && g.0 == StrictScore(QuestionsOf(db, e), req.answers.value, NullAsZero)
      && r.0 == db.(results := Upsert(db.results, (s, e), ResultRow(g.0, g.2, now)),
                    examStudent := MarkSubmitted(db.examStudent, e, s))
      && (r.1 == LockedOnly <==> StoredLock(db, e) == Some(true))
      && (r.1 != LockedOnly ==> r.1 == Revealed(StoredLock(db, e), g.0, g.1, g.2))
  {
    if !Complete(req) then (db, MissingFields)
    else
      var (s, e, answers) := (req.studentId.value, req.examId.value, req.answers.value);
      if AnyFault(QuestionsOf(db, e), answers) then (db, InternalError)
      else
        var (score, total, status) := GradeOf(db, e, answers);
        var db' := db.(results := Upsert(db.results, (s, e), ResultRow(score, status, now)),
                       examStudent := MarkSubmitted(db.examStudent, e, s));
        if StoredLock(db, e) == Some(true) then (db', LockedOnly)
        else (db', Revealed(StoredLock(db, e), score, total, status))
  }

  /** `submitStudentExam`: validation, the scoring loop, then the two writes. */
  method SubmitStudentExam(db: Db, req: Submission, now: Time) returns (db': Db, reply: Reply)
    ensures (db', reply) == Submit(db, req, now)
  {
    if !Complete(req) {
      return db, MissingFields;
    }
    var s, e, answers := req.studentId.value, req.examId.value, req.answers.value;
    var qs := QuestionsOf(db, e);
    var score := ScoreAnswers(qs, answers);
    if score.None? {
      return db, InternalError;
    }
    var total := TotalMarks(qs, NullAsZero);
    var status := Grade(score.value, total, PassMark(StoredPassPercentage(db, e)));
    db' := db.(results := Upsert(db.results, (s, e), ResultRow(score.value, status, now)));
    db' := db'.(examStudent := MarkSubmitted(db'.examStudent, e, s));
    var locked := StoredLock(db, e);
    if locked == Some(true) {
      reply := LockedOnly;
    } else {
      reply := Revealed(locked, score.value, total, status);
    }
  }

  // ---------------------------------------------------------------------------
  // Properties of the submission

  /**
   * Resubmission overwrites: after two successful submissions of the same pair
   * the ledger holds one row for it, graded from the second answers and stamped
   * with the second time, and no other row of the ledger differs from before the first.
   */
  lemma ResubmissionOverwrites(db: Db, req1: Submission, req2: Submission, t1: Time, t2: Time)
    requires Complete(req1) && Complete(req2)
    requires req1.studentId == req2.studentId && req1.examId == req2.examId
    requires !AnyFault(QuestionsOf(db, req1.examId.value), req1.answers.value)
    requires !AnyFault(QuestionsOf(db, req2.examId.value), req2.answers.value)
    ensures var db2 := Submit(Submit(db, req1, t1).0, req2, t2).0;
      var k := (req1.studentId.value, req1.examId.value);
      var g := GradeOf(db, req2.examId.value, req2.answers.value);
      && db2.results.Keys == db.results.Keys + {k}
      && db2.results[k] == ResultRow(g.0, g.2, t2)
      && (forall k' :: k' in db.results && k' != k ==> db2.results[k'] == db.results[k'])
  {
    var db1 := Submit(db, req1, t1).0;
    assert db1.exams == db.exams && db1.questions == db.questions;
    assert GradeOf(db1, req2.examId.value, req2.answers.value) == GradeOf(db, req2.examId.value, req2.answers.value);
  }

  /**
   * A locked exam hides the grade from the reply, yet the ledger already holds
   * the real score and status, which a later unlock reveals.
   */
  lemma LockedSubmissionStoresRealGrade(db: Db, req: Submission, now: Time)
    requires Complete(req) && !AnyFault(QuestionsOf(db, req.examId.value), req.answers.value)
    requires req.examId.value in db.exams && db.exams[req.examId.value].resultLocked
    ensures var r := Submit(db, req, now);
      var k := (req.studentId.value, req.examId.value);
      && r.1 == LockedOnly
      && r.0.results[k].score == StrictScore(QuestionsOf(db, req.examId.value), req.answers.value, NullAsZero)
      && r.0.results[k].status == GradeOf(db, req.examId.value, req.answers.value).2
  {
  }

  /** A submission for a pair without an assignment row records a result but creates no assignment. */
  lemma SubmissionNeverAssigns(db: Db, req: Submission, now: Time)
    requires Complete(req)
    ensures Submit(db, req, now).0.examStudent.Keys == db.examStudent.Keys
  {
  }

  // ---------------------------------------------------------------------------
  // studentResultById

  /** The `stats` object: `COUNT(*)`, and the rows whose status is set or NULL. */
  datatype ResultStats = ResultStats(totalExams: nat, submitted: nat, pending: nat)

  /** The student's `results` rows that join an exam, in table order. */
  function LegacyRowsOf(rows: seq<LegacyResult>, exams: map<ExamId, Exam>, student: StudentId): (r: seq<LegacyResult>)
    ensures |r| <= |rows|
    ensures forall x :: x in r <==> x in rows && x.student == student && x.exam in exams
    ensures forall x :: multiset(r)[x] == if x.student == student && x.exam in exams then multiset(rows)[x] else 0
  {
    if rows == [] then []
    else
      var rest := LegacyRowsOf(rows[1..], exams, student);
      assert forall x :: x in rows <==> x == rows[0] || x in rows[1..];
      assert rows == [rows[0]] + rows[1..];
      if rows[0].student == student && rows[0].exam in exams then [rows[0]] + rest else rest
  }

  /** The positions of the rows `COUNT(*) FILTER (WHERE status IS NOT NULL)` counts. */
  function SubmittedAt(rows: seq<LegacyResult>): set<nat> {
    set i: nat | i < |rows| && rows[i].status.Some?
  }

  /** The positions of the rows `COUNT(*) FILTER (WHERE status IS NULL)` counts. */
  function PendingAt(rows: seq<LegacyResult>): set<nat> {
    set i: nat | i < |rows| && rows[i].status.None?
  }

  /** The three counters over the joined rows, counted from the last row back. */
  function StatsOf(rows: seq<LegacyResult>): (s: ResultStats)
    ensures s.totalExams == |rows|
    ensures s.submitted == |SubmittedAt(rows)| && s.pending == |PendingAt(rows)|
    ensures s.submitted + s.pending == s.totalExams
  {
    if rows == [] then
      assert SubmittedAt(rows) == {} && PendingAt(rows) == {};
      ResultStats(0, 0, 0)
    else
      var init := rows[..|rows| - 1];
      var s := StatsOf(init);
      StatusPositionsSnoc(rows);
      if rows[|init|].status.Some? then
        s.(totalExams := s.totalExams + 1, submitted := s.submitted + 1)
      else
        s.(totalExams := s.totalExams + 1, pending := s.pending + 1)
  }

  /** The last row joins exactly one of the two position sets. */
  lemma StatusPositionsSnoc(rows: seq<LegacyResult>)
    requires rows != []
    ensures var (init, n) := (rows[..|rows| - 1], |rows| - 1);
      && |SubmittedAt(rows)| == |SubmittedAt(init)| + (if rows[n].status.Some? then 1 else 0)
      && |PendingAt(rows)| == |PendingAt(init)| + (if rows[n].status.Some? then 0 else 1)
  {
    var (init, n) := (rows[..|rows| - 1], |rows| - 1);
    assert forall i :: 0 <= i < n ==> rows[i] == init[i];
    if rows[n].status.Some? {
      assert SubmittedAt(rows) == SubmittedAt(init) + {n} && n !in SubmittedAt(init);
      assert PendingAt(rows) == PendingAt(init);
    } else {
      assert SubmittedAt(rows) == SubmittedAt(init);
      assert PendingAt(rows) == PendingAt(init) + {n} && n !in PendingAt(init);
    }
  }

  /**
   * `studentResultById`; `studentId` is the query parameter, None when it is
   * absent or empty (`!studentId`), which is the 400.
   */
  function StudentResultById(db: Db, studentId: Option<StudentId>): (r: Option<(seq<LegacyResult>, ResultStats)>)
    ensures r.None? <==> studentId.None?
    ensures r.Some? ==> forall x :: x in r.value.0 <==>
      x in db.legacyResults && x.student == studentId.value && x.exam in db.exams
    ensures r.Some? ==> forall x :: multiset(r.value.0)[x] == (if x.student == studentId.value && x.exam in db.exams then multiset(db.legacyResults)[x] else 0)
    ensures r.Some? ==>
      var (rows, stats) := r.value;
      && stats.totalExams == |rows|
      && stats.submitted == |SubmittedAt(rows)| && stats.pending == |PendingAt(rows)|
  {
    if studentId.None? then None
    else
      var rows := LegacyRowsOf(db.legacyResults, db.exams, studentId.value);
      Some((rows, StatsOf(rows)))
  }

  /** `submitted` is 0 exactly when no joined row has a status, and `pending` is 0 exactly when every row has one. */
  lemma NothingSubmittedIffNoStatus(rows: seq<LegacyResult>)
    ensures StatsOf(rows).submitted == 0 <==> forall i :: 0 <= i < |rows| ==> rows[i].status.None?
    ensures StatsOf(rows).pending == 0 <==> forall i :: 0 <= i < |rows| ==> rows[i].status.Some?
  {
    forall i | 0 <= i < |rows|
      ensures rows[i].status.Some? ==> i in SubmittedAt(rows)
      ensures rows[i].status.None? ==> i in PendingAt(rows)
    {
    }
  }
}
