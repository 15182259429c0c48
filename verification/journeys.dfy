/**
 * Properties that span several handlers: what a student sees after an exam
 * is locked, submitted and unlocked, and how an exam edit relates the stored
 * `total_marks` to the total a later submission is graded against.
 */
module Journeys {
  import opened Wrappers
  import opened Schema
  import Scoring
  import DistStudentAuth
  import DistAuth
  import ApiAuth

  /**
   * Lock, submit, unlock: while the exam is locked the results page shows no
   * score; once `toggleResultLock` clears the flag the same page shows the
   * score the ledger stored at submission time.
   */
  lemma UnlockRevealsLockedSubmission(db: Db, req: DistStudentAuth.Submission, now: Time)
    requires DistStudentAuth.Complete(req)
    requires !Scoring.AnyFault(QuestionsOf(db, req.examId.value), req.answers.value)
    requires req.examId.value in db.exams && db.exams[req.examId.value].resultLocked
    requires (req.examId.value, req.studentId.value) in db.examStudent && req.studentId.value in db.students
    ensures var (s, e) := (req.studentId.value, req.examId.value);
      var submitted := DistStudentAuth.Submit(db, req, now).0;
      var unlocked := ApiAuth.ToggleResultLock(submitted, Some(e), Some(false)).0;
      var before := DistAuth.StudentResults(submitted, Some(s));
      var after := DistAuth.StudentResults(unlocked, Some(s));
      && before.Listing? && e in before.exams && before.exams[e].score.None?
      && after.Listing? && e in after.exams
      && after.exams[e].score == Some(Scoring.StrictScore(QuestionsOf(db, e), req.answers.value, Scoring.NullAsZero))
  {
    var (s, e) := (req.studentId.value, req.examId.value);
    var submitted := DistStudentAuth.Submit(db, req, now).0;
    assert DistAuth.SubmittedEnrollment(submitted, s, e);
    var unlocked := ApiAuth.ToggleResultLock(submitted, Some(e), Some(false)).0;
    assert DistAuth.SubmittedEnrollment(unlocked, s, e);
    assert DistAuth.LedgerRow(unlocked, s, e) == Some(submitted.results[(s, e)]);
  }

  /**
   * With the repaired edit, the total a later submission is graded against is
   * the exam's stored `total_marks`, for every exam.
   */
  lemma RepairedEditKeepsGradingTotal(db: Db, u: ApiAuth.ExamUpdate, ids: seq<QuestionId>, e: ExamId, answers: Scoring.Answers)
    requires u.questions.Some? ==> |ids| == |u.questions.value|
    requires ApiAuth.TotalsConsistent(db)
    ensures var edited := ApiAuth.UpdateRepaired(db, u, ids).0;
      e in edited.exams ==> DistStudentAuth.GradeOf(edited, e, answers).1 == edited.exams[e].totalMarks
  {
    ApiAuth.RepairedUpdateKeepsTotalsConsistent(db, u, ids);
  }
}
