/**
 * The differences of api/controllers/guest.controller.ts, an older revision of
 * the guest universe: a stricter creation guard, strict scoring, an exam view
 * that hides the answers, and the listing of a guest's attempts.
 */
module ApiGuest {
  import opened Wrappers
  import opened Schema
  import opened Scoring
  import G = DistGuest

  /** This revision's guard: every field must be truthy, so a duration or pass mark of 0 is rejected. */
  predicate HasRequiredFields(d: G.GuestExamDraft) {
    && d.title != "" && d.scheduledDate != ""
    && Truthy(d.durationMin) && Truthy(d.passPercentage)
    && d.createdBy != "" && d.questions.Some? && d.questions.value != []
  }

  datatype CreateReply = MissingFields | Created(examId: GuestExamId)

  /**
   * The exam row this revision writes: the guest id and duration as sent; the
   * time-limit, access and download columns keep their defaults.
   */
  function StoredExam(d: G.GuestExamDraft, link: string): GuestExam {
    GuestExam(d.guestId, d.title, d.description, d.scheduledDate, d.durationMin,
              d.passPercentage.GetOr(0), false, false, None, Some(link))
  }

  /** The whole transaction of this revision's `createGuestExam`. */
  function Create(db: GuestDb, d: G.GuestExamDraft, examId: GuestExamId, ids: seq<QuestionId>, frontendUrl: string)
    : (r: (GuestDb, CreateReply))
    requires examId !in db.exams && examId !in db.questions
    requires d.questions.Some? ==> |ids| == |d.questions.value|
    ensures !HasRequiredFields(d) ==> r == (db, MissingFields)
    ensures HasRequiredFields(d) ==>
      && r.1 == Created(examId)
      && r.0.exams.Keys == db.exams.Keys + {examId}
      && (forall e :: e in db.exams ==> r.0.exams[e] == db.exams[e])
      && r.0.exams[examId].owner == d.guestId
      && r.0.exams[examId].title == d.title && r.0.exams[examId].description == d.description
      && r.0.exams[examId].scheduledDate == d.scheduledDate
      && r.0.exams[examId].durationMin == d.durationMin
      && r.0.exams[examId].passPercentage == d.passPercentage.value
      && !r.0.exams[examId].enableTimeLimit && !r.0.exams[examId].restrictAccess
      && r.0.exams[examId].downloadable.None?
      && r.0.exams[examId].link == Some(G.ExamLink(frontendUrl, examId))
      && r.0.questions == db.questions[examId := G.StoredQuestions(d.questions.value, ids)]
      && r.0.users == db.users && r.0.attempts == db.attempts
  {
    if !HasRequiredFields(d) then (db, MissingFields)
    else
      var exams := db.exams[examId := StoredExam(d, G.ExamLink(frontendUrl, examId))];
      (db.(exams := exams, questions := db.questions[examId := G.StoredQuestions(d.questions.value, ids)]), Created(examId))
  }

  /** `createGuestExam`: the guard, the exam insert, the link update, then one insert per question. */
  method CreateGuestExam(db: GuestDb, d: G.GuestExamDraft, examId: GuestExamId, ids: seq<QuestionId>, frontendUrl: string)
    returns (db': GuestDb, reply: CreateReply)
    requires examId !in db.exams && examId !in db.questions
    requires d.questions.Some? ==> |ids| == |d.questions.value|
    ensures (db', reply) == Create(db, d, examId, ids, frontendUrl)
  {
    if !HasRequiredFields(d) {
      return db, MissingFields;
    }
    var exam := GuestExam(d.guestId, d.title, d.description, d.scheduledDate, d.durationMin,
                          d.passPercentage.value, false, false, None, None);
    db' := db.(exams := db.exams[examId := exam]);
    db' := db'.(exams := db'.exams[examId := exam.(link := Some(G.ExamLink(frontendUrl, examId)))]);
    var rows := G.InsertQuestions(d.questions.value, ids);
    db' := db'.(questions := db'.questions[examId := rows]);
    assert db'.exams == db.exams[examId := StoredExam(d, G.ExamLink(frontendUrl, examId))];
    reply := Created(examId);
  }

  /**
   * A pass mark of 0 separates the revisions: the newer guard (`== null`)
   * accepts it where this one (`!pass_percentage`) answers 400.
   */
  lemma ZeroPassMarkSeparatesRevisions(db: GuestDb, d: G.GuestExamDraft, examId: GuestExamId, ids: seq<QuestionId>, frontendUrl: string)
    requires examId !in db.exams && examId !in db.questions
    requires d.questions.Some? ==> |ids| == |d.questions.value|
    requires d.passPercentage == Some(0)
    requires G.HasRequiredFields(d) && G.DurationAcceptable(d)
    ensures Create(db, d, examId, ids, frontendUrl).1 == MissingFields
    ensures G.Create(db, d, examId, ids, frontendUrl).1 == G.Created(examId)
  {
  }

  /** A duration of 0 is rejected, whatever else the request says. */
  lemma ZeroDurationRejected(db: GuestDb, d: G.GuestExamDraft, examId: GuestExamId, ids: seq<QuestionId>, frontendUrl: string)
    requires examId !in db.exams && examId !in db.questions
    requires d.questions.Some? ==> |ids| == |d.questions.value|
    requires d.durationMin == Some(0) || d.durationMin.None?
    ensures Create(db, d, examId, ids, frontendUrl) == (db, MissingFields)
  {
  }

  // ---------------------------------------------------------------------------
  // getGuestExamById

  /** A question as this revision shows it to the taker: no correct answer, no marks. */
  datatype QuestionView = QuestionView(id: QuestionId, kind: Option<string>, text: Option<string>, options: Option<Options>)

  datatype ExamView = ExamView(
    title: string,
    description: Option<string>,
    scheduledDate: string,
    durationMin: Option<int>,
    passPercentage: int,
    questions: seq<QuestionView>)

  datatype ViewError = MissingExamId | ExamNotFound

  function ViewOf(q: Question): QuestionView {
    QuestionView(q.id, q.kind, q.text, q.options)
  }

  /** `getGuestExamById`: the exam row and its questions, one view per question in table order. */
  function GetGuestExamById(db: GuestDb, examId: GuestExamId): (r: Result<ExamView, ViewError>)
    ensures r == Failure(MissingExamId) <==> examId == ""
    ensures r == Failure(ExamNotFound) <==> examId != "" && examId !in db.exams
    ensures r.Success? ==>
      && |r.value.questions| == |GuestQuestionsOf(db, examId)|
      && forall i :: 0 <= i < |r.value.questions| ==> r.value.questions[i] == ViewOf(GuestQuestionsOf(db, examId)[i])
  {
    if examId == "" then Failure(MissingExamId)
    else if examId !in db.exams then Failure(ExamNotFound)
    else
      var e := db.exams[examId];
      var qs := GuestQuestionsOf(db, examId);
      Success(ExamView(e.title, e.description, e.scheduledDate, e.durationMin, e.passPercentage,
                       seq(|qs|, i requires 0 <= i < |qs| => ViewOf(qs[i]))))
  }

  /** Two question lists that agree on everything but correct answers and marks. */
  ghost predicate SameButAnswers(a: seq<Question>, b: seq<Question>) {
    |a| == |b| && forall i :: 0 <= i < |a| ==> a[i].(correctAnswer := b[i].correctAnswer, marks := b[i].marks) == b[i]
  }

  /** The view reveals nothing of the correct answers or marks: changing them leaves the view as it was. */
  lemma ViewHidesAnswers(db1: GuestDb, db2: GuestDb, examId: GuestExamId)
    requires db1.exams == db2.exams
    requires SameButAnswers(GuestQuestionsOf(db1, examId), GuestQuestionsOf(db2, examId))
    ensures GetGuestExamById(db1, examId) == GetGuestExamById(db2, examId)
  {
    if examId != "" && examId in db1.exams {
      var q1, q2 := GuestQuestionsOf(db1, examId), GuestQuestionsOf(db2, examId);
      assert forall i :: 0 <= i < |q1| ==> ViewOf(q1[i]) == ViewOf(q2[i]);
      assert seq(|q1|, i requires 0 <= i < |q1| => ViewOf(q1[i])) == seq(|q2|, i requires 0 <= i < |q2| => ViewOf(q2[i]));
    }
  }

  /** A created exam shows its questions' texts and choices back, and nothing of their answers. */
  lemma CreateThenView(db: GuestDb, d: G.GuestExamDraft, examId: GuestExamId, ids: seq<QuestionId>, frontendUrl: string)
    requires examId !in db.exams && examId !in db.questions && examId != ""
    requires d.questions.Some? ==> |ids| == |d.questions.value|
    requires HasRequiredFields(d)
    ensures var r := GetGuestExamById(Create(db, d, examId, ids, frontendUrl).0, examId);
      var drafts := d.questions.value;
      && r.Success? && |r.value.questions| == |drafts|
      && r.value.durationMin == d.durationMin
      && forall i :: 0 <= i < |drafts| ==>
        && r.value.questions[i].id == ids[i]
        && r.value.questions[i].text == drafts[i].question
        && (drafts[i].choices.Some? ==> r.value.questions[i].options == Some(Listed(drafts[i].choices.value)))
  {
    var db' := Create(db, d, examId, ids, frontendUrl).0;
    assert GuestQuestionsOf(db', examId) == G.StoredQuestions(d.questions.value, ids);
    G.StoredQuestionsKeepDrafts(d.questions.value, ids);
  }

  // ---------------------------------------------------------------------------
  // submitGuestExam

  datatype SubmitReply =
    | MissingExamOrAnswers
    | NoQuestions
      /** `.trim()` on a NULL correct answer, or a non-finite percentage the store rejects. */
    | InternalError
    | Scored(totalScore: int, totalMarks: int, percentage: int)

  /** The whole transaction of this revision's `submitGuestExam`. */
  function Submit(db: GuestDb, req: G.GuestSubmission, attemptId: string, now: Time): (r: (GuestDb, SubmitReply))
    ensures !G.WellFormed(req) ==> r == (db, MissingExamOrAnswers)
    ensures G.WellFormed(req) && GuestQuestionsOf(db, req.examId) == [] ==> r == (db, NoQuestions)
    ensures G.WellFormed(req) && GuestQuestionsOf(db, req.examId) != [] && AnyFault(GuestQuestionsOf(db, req.examId), req.answers.value) ==>
      r == (db, InternalError)
    ensures G.WellFormed(req) && GuestQuestionsOf(db, req.examId) != [] && TotalMarks(GuestQuestionsOf(db, req.examId), FalsyAsOne) == 0 ==>
      r == (db, InternalError)
    ensures r.1.Scored? <==>
      G.WellFormed(req) && GuestQuestionsOf(db, req.examId) != [] && !AnyFault(GuestQuestionsOf(db, req.examId), req.answers.value)
      && TotalMarks(GuestQuestionsOf(db, req.examId), FalsyAsOne) != 0
    ensures r.1.Scored? ==>
      var (qs, answers) := (GuestQuestionsOf(db, req.examId), req.answers.value);
      && G.WellFormed(req) && qs != [] && !AnyFault(qs, answers)
      && r.1.totalScore == StrictScore(qs, answers, FalsyAsOne)
      && r.1.totalMarks == TotalMarks(qs, FalsyAsOne) != 0
      && Some(r.1.percentage) == RoundedPercentage(r.1.totalScore, r.1.totalMarks)
      && r.0 == db.(attempts := db.attempts + [Attempt(attemptId, req.examId, G.DisplayName(req.studentName), r.1.percentage, now)])
    ensures !r.1.Scored? ==> r.0 == db
  {
    if !G.WellFormed(req) then (db, MissingExamOrAnswers)
    else
      var (qs, answers) := (GuestQuestionsOf(db, req.examId), req.answers.value);
      if qs == [] then (db, NoQuestions)
      else if AnyFault(qs, answers) then (db, InternalError)
      else
        var (score, total) := (StrictScore(qs, answers, FalsyAsOne), TotalMarks(qs, FalsyAsOne));
        if total == 0 then (db, InternalError)
        else
          var pct := RoundedPercentage(score, total).value;
          (db.(attempts := db.attempts + [Attempt(attemptId, req.examId, G.DisplayName(req.studentName), pct, now)]),
           Scored(score, total, pct))
  }

  /**
   * The `for ... in correctAnswersMap` loop: every question's marks (`|| 1`)
   * join the total; an empty or missing answer is skipped; None when the
   * comparison calls `.trim()` on a NULL correct answer.
   */
  method ScoreStrictly(qs: seq<Question>, answers: Answers) returns (r: Option<(int, int)>)
    ensures r.None? <==> AnyFault(qs, answers)
    ensures r.Some? ==> r.value == (StrictScore(qs, answers, FalsyAsOne), TotalMarks(qs, FalsyAsOne))
  {
    var totalScore, totalMarks := 0, 0;
    for i := 0 to |qs|
      invariant !AnyFault(qs[..i], answers)
      invariant totalScore == StrictScore(qs[..i], answers, FalsyAsOne)
      invariant totalMarks == TotalMarks(qs[..i], FalsyAsOne)
    {
      assert qs[..i + 1][..i] == qs[..i];
      var q := qs[i];
      var marks := Weight(FalsyAsOne, q.marks);
      totalMarks := totalMarks + marks;
      if !Given(answers, q.id) {
        continue;
      }
      if q.correctAnswer.None? {
        AnyFaultIffSomeQuestionFaults(qs, answers);
        assert Faults(qs[i], answers);
        return None;
      }
      if Matches(answers[q.id], q.correctAnswer.value) {
        totalScore := totalScore + marks;
      }
    }
    assert qs[..|qs|] == qs;
    return Some((totalScore, totalMarks));
  }

  /** `submitGuestExam`: the checks, the scoring loop, then the attempt insert. */
  method SubmitGuestExam(db: GuestDb, req: G.GuestSubmission, attemptId: string, now: Time) returns (db': GuestDb, reply: SubmitReply)
    ensures (db', reply) == Submit(db, req, attemptId, now)
  {
    if !G.WellFormed(req) {
      return db, MissingExamOrAnswers;
    }
    var qs, answers := GuestQuestionsOf(db, req.examId), req.answers.value;
    if qs == [] {
      return db, NoQuestions;
    }
    var totals := ScoreStrictly(qs, answers);
    if totals.None? || totals.value.1 == 0 {
      return db, InternalError;
    }
    var (totalScore, totalMarks) := totals.value;
    var pct := RoundDiv(100 * totalScore, totalMarks);
    db' := db.(attempts := db.attempts + [Attempt(attemptId, req.examId, G.DisplayName(req.studentName), pct, now)]);
    reply := Scored(totalScore, totalMarks, pct);
  }

  /** With no truthy answer at all, nothing faults and the score is 0. */
  lemma UnansweredNeverScore(db: GuestDb, req: G.GuestSubmission, attemptId: string, now: Time)
    requires G.WellFormed(req) && GuestQuestionsOf(db, req.examId) != []
    requires forall q :: q in GuestQuestionsOf(db, req.examId) ==> !Given(req.answers.value, q.id)
    requires forall q :: q in GuestQuestionsOf(db, req.examId) ==> q.marks.None? || q.marks.value >= 0
    ensures Submit(db, req, attemptId, now).1 == Scored(0, TotalMarks(GuestQuestionsOf(db, req.examId), FalsyAsOne), 0)
  {
    var qs := GuestQuestionsOf(db, req.examId);
    assert forall i :: 0 <= i < |qs| ==> qs[i] in qs;
    UnansweredScoresNothing(qs, req.answers.value, FalsyAsOne);
    FalsyAsOneTotalPositive(qs);
    ZeroScoreIsZeroPercent(TotalMarks(qs, FalsyAsOne));
  }

  /** With non-negative marks and nothing faulting, the total is at least 1 and the percentage lies in 0..100. */
  lemma ScoredPercentageBounds(db: GuestDb, req: G.GuestSubmission, attemptId: string, now: Time)
    requires G.WellFormed(req) && GuestQuestionsOf(db, req.examId) != []
    requires !AnyFault(GuestQuestionsOf(db, req.examId), req.answers.value)
    requires forall q :: q in GuestQuestionsOf(db, req.examId) ==> q.marks.None? || q.marks.value >= 0
    ensures var r := Submit(db, req, attemptId, now).1;
      r.Scored? && r.totalMarks >= 1 && 0 <= r.percentage <= 100
  {
    var qs := GuestQuestionsOf(db, req.examId);
    assert forall i :: 0 <= i < |qs| ==> qs[i] in qs;
    FalsyAsOneTotalPositive(qs);
    StrictScoreBounds(qs, req.answers.value, FalsyAsOne);
    RoundedPercentageBounds(StrictScore(qs, req.answers.value, FalsyAsOne), TotalMarks(qs, FalsyAsOne));
  }

  /**
   * The revisions grade a blank key differently: a question with no correct
   * answer left unanswered scores in the newer one and not in this one.
   */
  lemma BlankKeySeparatesRevisions()
    ensures var q := Question("q1", None, None, None, None, None);
      var answers: Answers := map[];
      && LenientScore([q], answers) == 1
      && StrictScore([q], answers, FalsyAsOne) == 0
      && !AnyFault([q], answers)
  {
    var q := Question("q1", None, None, None, None, None);
    var answers: Answers := map[];
    G.BlankKeyScoresUnanswered(q, answers);
    assert [q][..0] == [];
  }

  // ---------------------------------------------------------------------------
  // getGuestExamResults

  /** A row of the listing: the attempt and its exam's title. */
  datatype AttemptView = AttemptView(id: string, examTitle: string, studentName: string, score: int, submittedAt: Time)

  datatype ResultsError = MissingGuestCode | GuestNotFound

  /** The guest's exams: `SELECT id FROM guest_exams WHERE guest_user_id = $1`. */
  function ExamsOf(db: GuestDb, guest: GuestId): (r: set<GuestExamId>)
    ensures forall e :: e in r <==> e in db.exams && db.exams[e].owner == Some(guest)
  {
    set e | e in db.exams && db.exams[e].owner == Some(guest)
  }

  /** A created exam joins its guest's exams, and no other guest's. */
  lemma CreatedExamIsOwned(db: GuestDb, d: G.GuestExamDraft, examId: GuestExamId, ids: seq<QuestionId>, frontendUrl: string, g: GuestId)
    requires examId !in db.exams && examId !in db.questions
    requires d.questions.Some? ==> |ids| == |d.questions.value|
    requires HasRequiredFields(d)
    ensures var db' := Create(db, d, examId, ids, frontendUrl).0;
      ExamsOf(db', g) == ExamsOf(db, g) + (if d.guestId == Some(g) then {examId} else {})
  {
  }

  /** The attempts on the given exams, in table order: exactly those, none lost. */
  function AttemptsOn(attempts: seq<Attempt>, examIds: set<GuestExamId>): (r: seq<Attempt>)
    ensures |r| <= |attempts|
    ensures forall a :: a in r <==> a in attempts && a.exam in examIds
    ensures examIds == {} ==> r == []
    ensures forall a :: multiset(r)[a] == if a.exam in examIds then multiset(attempts)[a] else 0
  {
    if attempts == [] then []
    else
      var (init, last) := (attempts[..|attempts| - 1], attempts[|attempts| - 1]);
      var rest := AttemptsOn(init, examIds);
      assert attempts == init + [last];
      assert forall a :: a in attempts <==> a == last || a in init;
      if last.exam in examIds then rest + [last] else rest
  }

  /** The row of the listing for an attempt on one of the guest's exams. */
  function AttemptViewOf(db: GuestDb, a: Attempt): AttemptView
    requires a.exam in db.exams
  {
    AttemptView(a.id, db.exams[a.exam].title, a.studentName, a.score, a.submittedAt)
  }

  /** The listing rows of some attempts, in their order. */
  function Views(db: GuestDb, on: seq<Attempt>): (r: seq<AttemptView>)
    requires forall a :: a in on ==> a.exam in db.exams
    ensures |r| == |on| && forall i :: 0 <= i < |on| ==> r[i] == AttemptViewOf(db, on[i])
  {
    seq(|on|, i requires 0 <= i < |on| => AttemptViewOf(db, on[i]))
  }

  /** One more attempt is one more row at the end. */
  lemma ViewsSnoc(db: GuestDb, on: seq<Attempt>, a: Attempt)
    requires forall x :: x in on ==> x.exam in db.exams
    requires a.exam in db.exams
    ensures Views(db, on + [a]) == Views(db, on) + [AttemptViewOf(db, a)]
  {
    assert forall i :: 0 <= i < |on| ==> (on + [a])[i] == on[i];
  }

  /** `getGuestExamResults`. */
  function GetGuestExamResults(db: GuestDb, guestCode: GuestId): (r: Result<seq<AttemptView>, ResultsError>)
    ensures r == Failure(MissingGuestCode) <==> guestCode == ""
    ensures r == Failure(GuestNotFound) <==> guestCode != "" && guestCode !in db.users
    ensures r.Success? && ExamsOf(db, guestCode) == {} ==> r.value == []
    ensures r.Success? ==>
      var on := AttemptsOn(db.attempts, ExamsOf(db, guestCode));
      |r.value| == |on| && forall i :: 0 <= i < |on| ==> on[i].exam in db.exams && r.value[i] == AttemptViewOf(db, on[i])
    ensures r.Success? ==> r.value == Views(db, AttemptsOn(db.attempts, ExamsOf(db, guestCode)))
  {
    if guestCode == "" then Failure(MissingGuestCode)
    else if guestCode !in db.users then Failure(GuestNotFound)
    else
      var examIds := ExamsOf(db, guestCode);
      if examIds == {} then
        Success([])
      else
        var on := AttemptsOn(db.attempts, examIds);
        assert forall i :: 0 <= i < |on| ==> on[i] in on;
        Success(Views(db, on))
  }

  /** Filtering a list with one more attempt filters the list, then keeps the attempt if it is on one of the exams. */
  lemma {:induction false} AttemptsOnSnoc(attempts: seq<Attempt>, examIds: set<GuestExamId>, a: Attempt)
    ensures AttemptsOn(attempts + [a], examIds) == AttemptsOn(attempts, examIds) + (if a.exam in examIds then [a] else [])
  {
    assert (attempts + [a])[..|attempts|] == attempts;
  }

  /** One more attempt on an existing exam is one more row at the end of its owner's results, and no row elsewhere. */
  lemma AppendedAttemptIsListed(db: GuestDb, a: Attempt, g: GuestId)
    requires g != "" && g in db.users && a.exam in db.exams
    ensures GetGuestExamResults(db, g).Success?
    ensures GetGuestExamResults(db.(attempts := db.attempts + [a]), g).Success?
    ensures GetGuestExamResults(db.(attempts := db.attempts + [a]), g).value
      == GetGuestExamResults(db, g).value + (if db.exams[a.exam].owner == Some(g) then [AttemptViewOf(db, a)] else [])
  {
    var db' := db.(attempts := db.attempts + [a]);
    ExamsOfIgnoresAttempts(db, db'.attempts, g);
    var ids := ExamsOf(db, g);
    AttemptsOnSnoc(db.attempts, ids, a);
    var on := AttemptsOn(db.attempts, ids);
    var on' := AttemptsOn(db'.attempts, ids);
    ResultsAreViews(db, g);
    ResultsAreViews(db', g);
    ViewsIgnoreAttempts(db, db'.attempts, on');
    if a.exam in ids {
      ViewsSnoc(db, on, a);
    }
  }

  /** A known guest's results are the rows of the attempts on their exams. */
  lemma ResultsAreViews(db: GuestDb, g: GuestId)
    requires g != "" && g in db.users
    ensures var on := AttemptsOn(db.attempts, ExamsOf(db, g));
      (forall x :: x in on ==> x.exam in db.exams) && GetGuestExamResults(db, g) == Success(Views(db, on))
  {
  }

  /** Which exams a guest owns does not depend on the attempts table. */
  lemma ExamsOfIgnoresAttempts(db: GuestDb, attempts: seq<Attempt>, g: GuestId)
    ensures ExamsOf(db.(attempts := attempts), g) == ExamsOf(db, g)
  {
  }

  /** The listing rows do not depend on the attempts table either. */
  lemma ViewsIgnoreAttempts(db: GuestDb, attempts: seq<Attempt>, on: seq<Attempt>)
    requires forall x :: x in on ==> x.exam in db.exams
    ensures Views(db.(attempts := attempts), on) == Views(db, on)
  {
  }

  /**
   * A scored submission shows up in its exam owner's results, as the last row,
   * and leaves every other guest's results as they were.
   */
  lemma SubmittedAttemptIsListed(db: GuestDb, req: G.GuestSubmission, attemptId: string, now: Time, g: GuestId)
    requires g != "" && g in db.users && req.examId in db.exams
    requires Submit(db, req, attemptId, now).1.Scored?
    ensures var (db', reply) := Submit(db, req, attemptId, now);
      var (before, after) := (GetGuestExamResults(db, g), GetGuestExamResults(db', g));
      && before.Success? && after.Success?
      && after.value == before.value +
        (if db.exams[req.examId].owner == Some(g)
         then [AttemptView(attemptId, db.exams[req.examId].title, G.DisplayName(req.studentName), reply.percentage, now)]
         else [])
  {
    var reply := Submit(db, req, attemptId, now).1;
    var a := Attempt(attemptId, req.examId, G.DisplayName(req.studentName), reply.percentage, now);
    AppendedAttemptIsListed(db, a, g);
  }
}
