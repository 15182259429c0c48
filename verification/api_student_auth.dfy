/**
 * The differences of api/controllers/student.auth.controller.ts, an older
 * revision: the submission reply has no lock check, and the student search
 * builds its SQL placeholders step by step.
 */
module ApiStudentAuth {
  import opened Wrappers
  import opened Schema
  import opened Scoring
  import Text
  import Collections
  import D = DistStudentAuth

  datatype Reply =
    | MissingFields
    | InternalError
      /** `{ score: "<score>/<total>", status }`, whatever the exam's lock. */
    | Graded(score: int, totalMarks: int, status: Status)

  /** The whole transaction of this revision's `submitStudentExam`. */
  function Submit(db: Db, req: D.Submission, now: Time): (r: (Db, Reply))
    ensures !D.Complete(req) ==> r == (db, MissingFields)
    ensures D.Complete(req) && AnyFault(QuestionsOf(db, req.examId.value), req.answers.value) ==> r == (db, InternalError)
    ensures D.Complete(req) && !AnyFault(QuestionsOf(db, req.examId.value), req.answers.value) ==>
      var (s, e) := (req.studentId.value, req.examId.value);
      var g := D.GradeOf(db, e, req.answers.value);
      && r.0 == db.(results := Collections.Upsert(db.results, (s, e), ResultRow(g.0, g.2, now)),
                    examStudent := D.MarkSubmitted(db.examStudent, e, s))
      && r.1 == Graded(g.0, g.1, g.2)
  {
    if !D.Complete(req) then (db, MissingFields)
    else
      var (s, e, answers) := (req.studentId.value, req.examId.value, req.answers.value);
      if AnyFault(QuestionsOf(db, e), answers) then (db, InternalError)
      else
        var (score, total, status) := D.GradeOf(db, e, answers);
        (db.(results := Collections.Upsert(db.results, (s, e), ResultRow(score, status, now)),
             examStudent := D.MarkSubmitted(db.examStudent, e, s)),
         Graded(score, total, status))
  }

  /** `submitStudentExam`: the same scoring loop and writes, and a reply that always carries the grade. */
  method SubmitStudentExam(db: Db, req: D.Submission, now: Time) returns (db': Db, reply: Reply)
    ensures (db', reply) == Submit(db, req, now)
  {
    if !D.Complete(req) {
      return db, MissingFields;
    }
    var s, e, answers := req.studentId.value, req.examId.value, req.answers.value;
    var qs := QuestionsOf(db, e);
    var score := D.ScoreAnswers(qs, answers);
    if score.None? {
      return db, InternalError;
    }
    var total := TotalMarks(qs, NullAsZero);
    var status := Grade(score.value, total, PassMark(D.StoredPassPercentage(db, e)));
    db' := db.(results := Collections.Upsert(db.results, (s, e), ResultRow(score.value, status, now)));
    db' := db'.(examStudent := D.MarkSubmitted(db'.examStudent, e, s));
    reply := Graded(score.value, total, status);
  }

  /**
   * The two revisions write the same rows and grade alike; they differ only in
   * that the newer one withholds the grade from the reply of a locked exam.
   */
  lemma SameTransactionAsDist(db: Db, req: D.Submission, now: Time)
    ensures Submit(db, req, now).0 == D.Submit(db, req, now).0
    ensures Submit(db, req, now).1 == MissingFields <==> D.Submit(db, req, now).1 == D.MissingFields
    ensures Submit(db, req, now).1 == InternalError <==> D.Submit(db, req, now).1 == D.InternalError
    ensures D.Submit(db, req, now).1.Revealed? ==>
      var (a, b) := (Submit(db, req, now).1, D.Submit(db, req, now).1);
      a == Graded(b.score, b.totalMarks, b.status)
  {
  }

  /** An empty or missing answer earns nothing: with no truthy answer the score is 0 and the submission is graded. */
  lemma UnansweredGradesZero(db: Db, req: D.Submission, now: Time)
    requires D.Complete(req)
    requires forall q :: q in QuestionsOf(db, req.examId.value) ==> !Given(req.answers.value, q.id)
    ensures Submit(db, req, now).1.Graded? && Submit(db, req, now).1.score == 0
  {
    var qs := QuestionsOf(db, req.examId.value);
    assert forall i :: 0 <= i < |qs| ==> qs[i] in qs;
    UnansweredScoresNothing(qs, req.answers.value, NullAsZero);
  }

  // ---------------------------------------------------------------------------
  // getStudentWithSearch

  /** A filter appended to the base query, naming the placeholder `$param` it reads. */
  datatype StudentFilter = NameOrEmailLike(param: nat) | BranchNameIs(param: nat)

  /** The filters and the positional `values`; `$1` is the institute. */
  datatype StudentQuery = StudentQuery(filters: seq<StudentFilter>, values: seq<string>)

  /** The value a placeholder `$n` binds to, `values[n - 1]`. */
  function Bound(q: StudentQuery, n: nat): string
    requires 1 <= n <= |q.values|
  {
    q.values[n - 1]
  }

  /** The filters use `$2`, `$3`, ... in order, one value each after the institute. */
  predicate WellNumbered(q: StudentQuery) {
    && |q.values| == |q.filters| + 1
    && forall i :: 0 <= i < |q.filters| ==> q.filters[i].param == i + 2
  }

  /** `getStudentWithSearch` builds its query; None is the 400 for a missing institute. */
  method StudentSearchQuery(instituteId: string, query: string, branch: string) returns (r: Option<StudentQuery>)
    ensures r.None? <==> instituteId == ""
    ensures r.Some? ==>
      var q := r.value;
      && WellNumbered(q)
      && Bound(q, 1) == instituteId
      && (query != "" <==> exists i :: 0 <= i < |q.filters| && q.filters[i].NameOrEmailLike?)
      && (branch != "" <==> exists i :: 0 <= i < |q.filters| && q.filters[i].BranchNameIs?)
      && (forall i :: 0 <= i < |q.filters| && q.filters[i].NameOrEmailLike? ==>
            q.filters[i].param == 2 && Bound(q, 2) == "%" + Text.Lower(query) + "%")
      && (forall i :: 0 <= i < |q.filters| && q.filters[i].BranchNameIs? ==>
            q.filters[i].param == (if query == "" then 2 else 3)
            && Bound(q, q.filters[i].param) == Text.Lower(branch))
  {
    if instituteId == "" {
      return None;
    }
    var filters: seq<StudentFilter> := [];
    var values := [instituteId];
    var paramIndex := 2;
    if query != "" {
      filters := filters + [NameOrEmailLike(paramIndex)];
      values := values + ["%" + Text.Lower(query) + "%"];
      paramIndex := paramIndex + 1;
    }
    if branch != "" {
      filters := filters + [BranchNameIs(paramIndex)];
      values := values + [Text.Lower(branch)];
      assert filters[|filters| - 1].BranchNameIs?;
    }
    if query != "" {
      assert filters[0].NameOrEmailLike?;
    }
    return Some(StudentQuery(filters, values));
  }
}
