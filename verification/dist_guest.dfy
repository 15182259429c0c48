/**
 * The guest universe of dist/controllers/guest.controller.js: creating a guest
 * exam, submitting an attempt (lenient scoring, append-only attempts) and the
 * normalisation of question options for the downloadable paper.
 */
module DistGuest {
  import opened Wrappers
  import opened Schema
  import opened Scoring
  import Text

  /** A question of the request body: `{ type, question, choices, correctAnswer, marks }`. */
  datatype DraftQuestion = DraftQuestion(
    kind: Option<string>,
    question: Option<string>,
    choices: Option<seq<string>>,
    correctAnswer: Option<string>,
    marks: Option<int>)

  /** The body of `createGuestExam`; a string field that is absent is "". */
  datatype GuestExamDraft = GuestExamDraft(
    guestId: Option<GuestId>,
    title: string,
    description: Option<string>,
    scheduledDate: string,
    durationMin: Option<int>,
    passPercentage: Option<int>,
    createdBy: string,
    questions: Option<seq<DraftQuestion>>,
    enableTimeLimit: bool,
    restrictAccess: bool,
    downloadable: Option<bool>)

  /** The first guard: `pass_percentage == null` rejects only NULL, so a pass mark of 0 is accepted. */
  predicate HasRequiredFields(d: GuestExamDraft) {
    && TruthyText(d.guestId) && d.title != "" && d.scheduledDate != ""
    && d.passPercentage.Some? && d.createdBy != ""
    && d.questions.Some? && d.questions.value != []
  }

  /** The second guard: with a time limit the duration must be a positive number. */
  predicate DurationAcceptable(d: GuestExamDraft) {
    !d.enableTimeLimit || (Truthy(d.durationMin) && d.durationMin.value > 0)
  }

  datatype CreateReply = MissingFields | MissingDuration | Created(examId: GuestExamId)

  const GuestExamPath: string := "/guest-exam/"

  /** `${FRONTEND_URL}/guest-exam/${examId}`. */
  function ExamLink(frontendUrl: string, examId: GuestExamId): string {
    frontendUrl + GuestExamPath + examId
  }

  /** Under one front-end URL, the link names its exam: distinct exams never share a link. */
  lemma ExamLinkIdentifiesExam(frontendUrl: string, a: GuestExamId, b: GuestExamId)
    ensures ExamLink(frontendUrl, a) == ExamLink(frontendUrl, b) ==> a == b
  {
    var n := |frontendUrl + GuestExamPath|;
    assert ExamLink(frontendUrl, a)[n..] == a;
    assert ExamLink(frontendUrl, b)[n..] == b;
  }

  /** The `guest_questions` row written for a draft question under a fresh id. */
  function StoredQuestion(q: DraftQuestion, id: QuestionId): Question {
    Question(id, q.kind, q.question, if q.choices.Some? then Some(Listed(q.choices.value)) else None, q.correctAnswer, q.marks)
  }

  /** The rows written for the drafts, in order. */
  function StoredQuestions(drafts: seq<DraftQuestion>, ids: seq<QuestionId>): (r: seq<Question>)
    requires |ids| == |drafts|
    ensures |r| == |drafts|
  {
    if drafts == [] then []
    else StoredQuestions(drafts[..|drafts| - 1], ids[..|ids| - 1]) + [StoredQuestion(drafts[|drafts| - 1], ids[|ids| - 1])]
  }

  /** One row per draft, in order, each keeping what its draft said under its fresh id. */
  lemma {:induction false} StoredQuestionsKeepDrafts(drafts: seq<DraftQuestion>, ids: seq<QuestionId>)
    requires |ids| == |drafts|
    ensures forall i :: 0 <= i < |drafts| ==>
      var r := StoredQuestions(drafts, ids)[i];
      && r.id == ids[i] && r.text == drafts[i].question && r.kind == drafts[i].kind
      && r.correctAnswer == drafts[i].correctAnswer && r.marks == drafts[i].marks
      && (r.options.Some? <==> drafts[i].choices.Some?)
      && (drafts[i].choices.Some? ==> r.options.value == Listed(drafts[i].choices.value))
  {
    if drafts != [] {
      StoredQuestionsKeepDrafts(drafts[..|drafts| - 1], ids[..|ids| - 1]);
    }
  }

  /** The exam row written by a draft that passed both guards. */
  function StoredExam(d: GuestExamDraft, link: string): GuestExam {
    GuestExam(d.guestId, d.title, d.description, d.scheduledDate,
              if d.enableTimeLimit then d.durationMin else None,
              d.passPercentage.GetOr(0), d.enableTimeLimit, d.restrictAccess, d.downloadable, Some(link))
  }

  /** The whole transaction of `createGuestExam`; `examId` is the id the insert returns. */
  function Create(db: GuestDb, d: GuestExamDraft, examId: GuestExamId, ids: seq<QuestionId>, frontendUrl: string)
    : (r: (GuestDb, CreateReply))
    requires examId !in db.exams && examId !in db.questions
    requires d.questions.Some? ==> |ids| == |d.questions.value|
    ensures !HasRequiredFields(d) ==> r == (db, MissingFields)
    ensures HasRequiredFields(d) && !DurationAcceptable(d) ==> r == (db, MissingDuration)
    ensures HasRequiredFields(d) && DurationAcceptable(d) ==>
      && r.1 == Created(examId)
      && r.0.exams.Keys == db.exams.Keys + {examId}
      && (forall e :: e in db.exams ==> r.0.exams[e] == db.exams[e])
      && r.0.exams[examId].owner == d.guestId
      && r.0.exams[examId].title == d.title && r.0.exams[examId].description == d.description
      && r.0.exams[examId].scheduledDate == d.scheduledDate
      && r.0.exams[examId].durationMin == (if d.enableTimeLimit then d.durationMin else None)
      && r.0.exams[examId].passPercentage == d.passPercentage.value
      && r.0.exams[examId].enableTimeLimit == d.enableTimeLimit
      && r.0.exams[examId].restrictAccess == d.restrictAccess
      && r.0.exams[examId].downloadable == d.downloadable
      && r.0.exams[examId].link == Some(ExamLink(frontendUrl, examId))
      && r.0.questions == db.questions[examId := StoredQuestions(d.questions.value, ids)]
      && r.0.users == db.users && r.0.attempts == db.attempts
  {
    if !HasRequiredFields(d) then (db, MissingFields)
    else if !DurationAcceptable(d) then (db, MissingDuration)
    else
      var exams := db.exams[examId := StoredExam(d, ExamLink(frontendUrl, examId))];
      (db.(exams := exams, questions := db.questions[examId := StoredQuestions(d.questions.value, ids)]), Created(examId))
  }

  /** `createGuestExam`: the guards, the exam insert, the link update, then one insert per question. */
  method CreateGuestExam(db: GuestDb, d: GuestExamDraft, examId: GuestExamId, ids: seq<QuestionId>, frontendUrl: string)
    returns (db': GuestDb, reply: CreateReply)
    requires examId !in db.exams && examId !in db.questions
    requires d.questions.Some? ==> |ids| == |d.questions.value|
    ensures (db', reply) == Create(db, d, examId, ids, frontendUrl)
  {
    if !HasRequiredFields(d) {
      return db, MissingFields;
    }
    if !DurationAcceptable(d) {
      return db, MissingDuration;
    }
    var duration := if d.enableTimeLimit then d.durationMin else None;
    var exam := GuestExam(d.guestId, d.title, d.description, d.scheduledDate, duration,
                          d.passPercentage.value, d.enableTimeLimit, d.restrictAccess, d.downloadable, None);
    db' := db.(exams := db.exams[examId := exam]);
    db' := db'.(exams := db'.exams[examId := exam.(link := Some(ExamLink(frontendUrl, examId)))]);
    var drafts := d.questions.value;
    var rows := InsertQuestions(drafts, ids);
    db' := db'.(questions := db'.questions[examId := rows]);
    assert db'.exams == db.exams[examId := StoredExam(d, ExamLink(frontendUrl, examId))];
    reply := Created(examId);
  }

  /** The insert loop of `createGuestExam`: one row per draft question, under its fresh id. */
  method InsertQuestions(drafts: seq<DraftQuestion>, ids: seq<QuestionId>) returns (rows: seq<Question>)
    requires |ids| == |drafts|
    ensures rows == StoredQuestions(drafts, ids)
  {
    rows := [];
    for i := 0 to |drafts|
      invariant rows == StoredQuestions(drafts[..i], ids[..i])
    {
      assert drafts[..i + 1][..i] == drafts[..i] && ids[..i + 1][..i] == ids[..i];
      rows := rows + [StoredQuestion(drafts[i], ids[i])];
    }
    assert drafts[..|drafts|] == drafts && ids[..|ids|] == ids;
  }

  /** Without a time limit the stored duration is NULL, whatever duration was sent. */
  lemma NoTimeLimitStoresNoDuration(db: GuestDb, d: GuestExamDraft, examId: GuestExamId, ids: seq<QuestionId>, frontendUrl: string)
    requires examId !in db.exams && examId !in db.questions
    requires d.questions.Some? ==> |ids| == |d.questions.value|
    requires HasRequiredFields(d) && !d.enableTimeLimit
    ensures Create(db, d, examId, ids, frontendUrl).0.exams[examId].durationMin.None?
  {
  }

  // ---------------------------------------------------------------------------
  // submitGuestExam

  /** The body of `submitGuestExam`; absent strings are "". */
  datatype GuestSubmission = GuestSubmission(examId: GuestExamId, studentName: string, answers: Option<Answers>)

  /** An entry of `evaluatedAnswers`. */
  datatype Evaluation = Evaluation(correctAnswer: string, studentAnswer: string, marks: int)

  datatype SubmitReply =
    | MissingExamOrAnswers
    | NoQuestions
    | ExamNotFound
      /** The store rejects a non-finite percentage, and the transaction rolls back. */
    | InternalError
    | Scored(totalScore: int, totalMarks: int, percentage: int, evaluated: map<QuestionId, Evaluation>, downloadable: Option<bool>)

  const AnonymousName: string := "Anonymous"

  /** `studentName || 'Anonymous'`. */
  function DisplayName(name: string): (r: string)
    ensures r != ""
    ensures name != "" ==> r == name
  {
    if name == "" then AnonymousName else name
  }

  /** What `evaluatedAnswers` records for one question. */
  function EvaluationOf(q: Question, answers: Answers): Evaluation {
    Evaluation(Text.Trim(CorrectOr(q)), Text.Trim(AnswerOr(answers, q.id)), Weight(FalsyAsOne, q.marks))
  }

  /** `evaluatedAnswers` after the `forEach`; a later question with the same id overwrites. */
  function Evaluated(qs: seq<Question>, answers: Answers): map<QuestionId, Evaluation> {
    if qs == [] then map[]
    else Evaluated(qs[..|qs| - 1], answers)[qs[|qs| - 1].id := EvaluationOf(qs[|qs| - 1], answers)]
  }

  /** Question ids of a guest exam are distinct (they are `uuidv4()` keys). */
  ghost predicate DistinctIds(qs: seq<Question>) {
    forall i, j :: 0 <= i < j < |qs| ==> qs[i].id != qs[j].id
  }

  /** `evaluatedAnswers` has an entry for every question and no other. */
  lemma {:induction false} EvaluatedCoversQuestions(qs: seq<Question>, answers: Answers)
    ensures forall i :: 0 <= i < |qs| ==> qs[i].id in Evaluated(qs, answers)
    ensures forall k :: k in Evaluated(qs, answers) ==> exists i :: 0 <= i < |qs| && qs[i].id == k
  {
    if qs != [] {
      var init := qs[..|qs| - 1];
      EvaluatedCoversQuestions(init, answers);
      var last := qs[|qs| - 1];
      assert Evaluated(qs, answers) == Evaluated(init, answers)[last.id := EvaluationOf(last, answers)];
      forall i | 0 <= i < |qs| - 1
        ensures qs[i].id in Evaluated(qs, answers)
      {
        assert init[i] == qs[i];
      }
      forall k | k in Evaluated(qs, answers)
        ensures exists i :: 0 <= i < |qs| && qs[i].id == k
      {
        if k != qs[|qs| - 1].id {
          var i :| 0 <= i < |init| && init[i].id == k;
          assert qs[i].id == k;
        }
      }
    }
  }

  /** With distinct question ids, each entry of `evaluatedAnswers` is its own question's evaluation. */
  lemma {:induction false} EvaluatedEntries(qs: seq<Question>, answers: Answers)
    requires DistinctIds(qs)
    ensures forall i :: 0 <= i < |qs| ==>
      qs[i].id in Evaluated(qs, answers) && Evaluated(qs, answers)[qs[i].id] == EvaluationOf(qs[i], answers)
  {
    if qs != [] {
      var init := qs[..|qs| - 1];
      EvaluatedCoversQuestions(init, answers);
      EvaluatedEntries(init, answers);
      EvaluatedCoversQuestions(qs, answers);
      var last := qs[|qs| - 1];
      var m := Evaluated(init, answers);
      assert Evaluated(qs, answers) == m[last.id := EvaluationOf(last, answers)];
      forall i | 0 <= i < |qs| - 1
        ensures Evaluated(qs, answers)[qs[i].id] == EvaluationOf(qs[i], answers)
      {
        assert init[i] == qs[i];
        assert qs[i].id != last.id;
        assert m[qs[i].id] == EvaluationOf(qs[i], answers);
      }
    }
  }

  /** The question earns its marks exactly when its recorded answers agree ignoring case. */
  lemma EarnsIffEvaluationAgrees(q: Question, answers: Answers)
    ensures EarnsLenient(q, answers) <==>
      Text.Lower(EvaluationOf(q, answers).studentAnswer) == Text.Lower(EvaluationOf(q, answers).correctAnswer)
  {
  }

  predicate WellFormed(req: GuestSubmission) {
    req.examId != "" && req.answers.Some?
  }

  /** The whole transaction of `submitGuestExam`; `attemptId` and `now` are the fresh uuid and `NOW()`. */
  function Submit(db: GuestDb, req: GuestSubmission, attemptId: string, now: Time): (r: (GuestDb, SubmitReply))
    ensures !WellFormed(req) ==> r == (db, MissingExamOrAnswers)
    ensures WellFormed(req) && GuestQuestionsOf(db, req.examId) == [] ==> r == (db, NoQuestions)
    ensures WellFormed(req) && GuestQuestionsOf(db, req.examId) != [] && req.examId !in db.exams ==> r == (db, ExamNotFound)
    ensures WellFormed(req) && GuestQuestionsOf(db, req.examId) != [] && req.examId in db.exams ==>
      (r.1 == InternalError <==> TotalMarks(GuestQuestionsOf(db, req.examId), FalsyAsOne) == 0)
    ensures r.1.Scored? <==>
      WellFormed(req) && GuestQuestionsOf(db, req.examId) != [] && req.examId in db.exams
      && TotalMarks(GuestQuestionsOf(db, req.examId), FalsyAsOne) != 0
    ensures r.1.Scored? ==>
      var (qs, answers) := (GuestQuestionsOf(db, req.examId), req.answers.value);
      && WellFormed(req) && qs != [] && req.examId in db.exams
      && r.1.totalScore == LenientScore(qs, answers)
      && r.1.totalMarks == TotalMarks(qs, FalsyAsOne) != 0
      && Some(r.1.percentage) == RoundedPercentage(r.1.totalScore, r.1.totalMarks)
      && r.1.evaluated == Evaluated(qs, answers)
      && r.1.downloadable == db.exams[req.examId].downloadable
      && r.0 == db.(attempts := db.attempts + [Attempt(attemptId, req.examId, DisplayName(req.studentName), r.1.percentage, now)])
    ensures !r.1.Scored? ==> r.0 == db
  {
    if !WellFormed(req) then (db, MissingExamOrAnswers)
    else
      var (qs, answers) := (GuestQuestionsOf(db, req.examId), req.answers.value);
      if qs == [] then (db, NoQuestions)
      else if req.examId !in db.exams then (db, ExamNotFound)
      else
        var (score, total) := (LenientScore(qs, answers), TotalMarks(qs, FalsyAsOne));
        if total == 0 then (db, InternalError)
        else
          var pct := RoundedPercentage(score, total).value;
          (db.(attempts := db.attempts + [Attempt(attemptId, req.examId, DisplayName(req.studentName), pct, now)]),
           Scored(score, total, pct, Evaluated(qs, answers), db.exams[req.examId].downloadable))
  }

  /** `submitGuestExam`: the checks, the `forEach` over the questions, then the attempt insert. */
  method SubmitGuestExam(db: GuestDb, req: GuestSubmission, attemptId: string, now: Time) returns (db': GuestDb, reply: SubmitReply)
    ensures (db', reply) == Submit(db, req, attemptId, now)
  {
    if !WellFormed(req) {
      return db, MissingExamOrAnswers;
    }
    var qs, answers := GuestQuestionsOf(db, req.examId), req.answers.value;
    if qs == [] {
      return db, NoQuestions;
    }
    if req.examId !in db.exams {
      return db, ExamNotFound;
    }
    var totalScore, totalMarks, evaluated := EvaluateLeniently(qs, answers);
    if totalMarks == 0 {
      return db, InternalError;
    }
    var pct := RoundDiv(100 * totalScore, totalMarks);
    db' := db.(attempts := db.attempts + [Attempt(attemptId, req.examId, DisplayName(req.studentName), pct, now)]);
    reply := Scored(totalScore, totalMarks, pct, evaluated, db.exams[req.examId].downloadable);
  }

  /** The `forEach` of `submitGuestExam`: accumulates the score, the total and `evaluatedAnswers`. */
  method EvaluateLeniently(qs: seq<Question>, answers: Answers)
    returns (totalScore: int, totalMarks: int, evaluated: map<QuestionId, Evaluation>)
    ensures totalScore == LenientScore(qs, answers)
    ensures totalMarks == TotalMarks(qs, FalsyAsOne)
    ensures evaluated == Evaluated(qs, answers)
  {
    evaluated := map[];
    totalScore, totalMarks := 0, 0;
    for i := 0 to |qs|
      invariant totalScore == LenientScore(qs[..i], answers)
      invariant totalMarks == TotalMarks(qs[..i], FalsyAsOne)
      invariant evaluated == Evaluated(qs[..i], answers)
    {
      assert qs[..i + 1][..i] == qs[..i];
      var q := qs[i];
      assert qs[..i + 1][i] == q;
      var correct := Text.Trim(CorrectOr(q));
      var marks := Weight(FalsyAsOne, q.marks);
      totalMarks := totalMarks + marks;
      var submitted := Text.Trim(AnswerOr(answers, q.id));
      evaluated := evaluated[q.id := Evaluation(correct, submitted, marks)];
      if Text.Lower(submitted) == Text.Lower(correct) {
        assert EarnsLenient(q, answers);
        totalScore := totalScore + marks;
      }
    }
    assert qs[..|qs|] == qs;
  }

  /** Attempts are append-only: every earlier attempt stays where it was, and at most one is added. */
  lemma AttemptsAppendOnly(db: GuestDb, req: GuestSubmission, attemptId: string, now: Time)
    ensures var a := Submit(db, req, attemptId, now).0.attempts;
      && |db.attempts| <= |a| <= |db.attempts| + 1
      && a[..|db.attempts|] == db.attempts
      && (|a| > |db.attempts| ==> a[|db.attempts|].id == attemptId && a[|db.attempts|].studentName != "")
  {
    var r := Submit(db, req, attemptId, now);
    if r.1.Scored? {
      assert r.0.attempts[..|db.attempts|] == db.attempts;
    }
  }

  /**
   * With non-negative marks, a submission of an existing exam is always scored:
   * the total is at least one mark per question and the percentage lies in 0..100.
   */
  lemma NonNegativeMarksAlwaysScore(db: GuestDb, req: GuestSubmission, attemptId: string, now: Time)
    requires WellFormed(req) && req.examId in db.exams && GuestQuestionsOf(db, req.examId) != []
    requires forall q :: q in GuestQuestionsOf(db, req.examId) ==> q.marks.None? || q.marks.value >= 0
    ensures var r := Submit(db, req, attemptId, now).1;
      r.Scored? && r.totalMarks >= |GuestQuestionsOf(db, req.examId)| && 0 <= r.percentage <= 100
  {
    var qs := GuestQuestionsOf(db, req.examId);
    assert forall i :: 0 <= i < |qs| ==> qs[i] in qs;
    FalsyAsOneTotalPositive(qs);
    LenientScoreBounds(qs, req.answers.value);
    RoundedPercentageBounds(LenientScore(qs, req.answers.value), TotalMarks(qs, FalsyAsOne));
  }

  /** A missing answer and a NULL or blank correct answer both become '', so the question scores. */
  lemma BlankKeyScoresUnanswered(q: Question, answers: Answers)
    requires q.id !in answers
    requires q.correctAnswer.None? || Text.Trim(q.correctAnswer.value) == ""
    ensures EarnsLenient(q, answers)
  {
    assert Text.Trim("") == "";
  }

  // ---------------------------------------------------------------------------
  // downloadExam

  /** `q.marks != null ? q.marks : '-'`. */
  datatype MarksCell = MarksValue(value: int) | Dash

  /** A question as the paper prints it. */
  datatype Sheet = Sheet(id: QuestionId, text: string, kind: Option<string>, options: seq<string>, correctAnswer: string, marks: MarksCell)

  /** An array of options is kept, an object yields its `choices`, anything else yields `[]`. */
  function NormaliseOptions(o: Option<Options>): (r: seq<string>)
    ensures o.Some? && o.value.Listed? ==> r == o.value.items
    ensures o.Some? && o.value.Shaped? && o.value.choices.Some? ==> r == o.value.choices.value
    ensures o.None? || o.value.Scalar? || (o.value.Shaped? && o.value.choices.None?) ==> r == []
  {
    match o
    case None => []
    case Some(Listed(items)) => items
    case Some(Shaped(_, choices)) => choices.GetOr([])
    case Some(Scalar) => []
  }

  /** A question's stored choices read back as the choices it was created with, or `[]` when it had none. */
  lemma StoredOptionsReadBack(q: DraftQuestion, id: QuestionId)
    ensures NormaliseOptions(StoredQuestion(q, id).options) == q.choices.GetOr([])
  {
  }

  function SheetOf(q: Question): Sheet {
    Sheet(q.id, q.text.GetOr(""), q.kind, NormaliseOptions(q.options), q.correctAnswer.GetOr(""),
          if q.marks.Some? then MarksValue(q.marks.value) else Dash)
  }

  datatype DownloadError = MissingExamId | ExamNotFoundForDownload

  /** The questions of the downloadable paper, in table order. */
  function DownloadExam(db: GuestDb, examId: GuestExamId): (r: Result<seq<Sheet>, DownloadError>)
    ensures r == Failure(MissingExamId) <==> examId == ""
    ensures r == Failure(ExamNotFoundForDownload) <==> examId != "" && examId !in db.exams
    ensures r.Success? ==>
      && |r.value| == |GuestQuestionsOf(db, examId)|
      && forall i :: 0 <= i < |r.value| ==> r.value[i] == SheetOf(GuestQuestionsOf(db, examId)[i])
  {
    if examId == "" then Failure(MissingExamId)
    else if examId !in db.exams then Failure(ExamNotFoundForDownload)
    else Success(seq(|GuestQuestionsOf(db, examId)|, i requires 0 <= i < |GuestQuestionsOf(db, examId)| => SheetOf(GuestQuestionsOf(db, examId)[i])))
  }

  /** `String.fromCharCode(65 + i)`, as a UTF-16 code unit. */
  function OptionLabel(i: nat): (code: int)
    ensures 0 <= code < 0x1_0000
    ensures i < 26 ==> code == 'A' as int + i
  {
    (65 + i) % 0x1_0000
  }

  /** Options before the code-unit wrap get distinct labels. */
  lemma OptionLabelsDistinct(i: nat, j: nat)
    requires i < j < 0x1_0000 - 65
    ensures OptionLabel(i) != OptionLabel(j)
  {
  }

  /**
   * Creating a guest exam and downloading its paper round-trips: every question
   * comes back with the text, choices, correct answer and marks it was created
   * with, '' or '-' standing in for what was not given.
   */
  lemma CreateThenDownload(db: GuestDb, d: GuestExamDraft, examId: GuestExamId, ids: seq<QuestionId>, frontendUrl: string)
    requires examId !in db.exams && examId !in db.questions && examId != ""
    requires d.questions.Some? ==> |ids| == |d.questions.value|
    requires HasRequiredFields(d) && DurationAcceptable(d)
    ensures var r := DownloadExam(Create(db, d, examId, ids, frontendUrl).0, examId);
      var drafts := d.questions.value;
      && r.Success? && |r.value| == |drafts|
      && forall i :: 0 <= i < |drafts| ==>
        && r.value[i].text == drafts[i].question.GetOr("")
        && r.value[i].options == drafts[i].choices.GetOr([])
        && r.value[i].correctAnswer == drafts[i].correctAnswer.GetOr("")
        && r.value[i].marks == (if drafts[i].marks.Some? then MarksValue(drafts[i].marks.value) else Dash)
  {
    var db' := Create(db, d, examId, ids, frontendUrl).0;
    assert GuestQuestionsOf(db', examId) == StoredQuestions(d.questions.value, ids);
    StoredQuestionsKeepDrafts(d.questions.value, ids);
  }
}
