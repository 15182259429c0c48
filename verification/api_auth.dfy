/**
 * The handlers of api/controllers/auth.controller.ts that the model covers:
 * exam authoring (`createExam`, `updateExamById`), the two exam flags, the
 * per-exam summary counts, and the query builders of `searchExams` and
 * `getAllResults` (their sort whitelist, pagination and placeholder numbering).
 */
module ApiAuth {
  import opened Wrappers
  import opened Schema
  import Text
  import Scoring
  import Collections

  // ---------------------------------------------------------------------------
  // createExam and updateExamById

  /** One element of `questions` in the request body. */
  datatype QuestionDraft = QuestionDraft(
    text: Option<string>,
    kind: Option<string>,
    choices: Option<seq<string>>,
    correctAnswer: Option<string>,
    marks: Option<int>)

  /** The `questions` row written for a draft: `options` holds the JSON `{ type, choices }`. */
  function StoredQuestion(id: QuestionId, d: QuestionDraft): Question {
    Question(id, None, d.text, Some(Shaped(d.kind, d.choices)), d.correctAnswer, d.marks)
  }

  /** The rows the insert loop writes, in order; the draft at position `i` gets the fresh id `ids[i]`. */
  function Stored(drafts: seq<QuestionDraft>, ids: seq<QuestionId>): (r: seq<Question>)
    requires |ids| == |drafts|
    ensures |r| == |drafts|
  {
    if drafts == [] then []
    else
      var n := |drafts| - 1;
      Stored(drafts[..n], ids[..n]) + [StoredQuestion(ids[n], drafts[n])]
  }

  /** Each stored row carries its draft's text, choices, correct answer and marks. */
  lemma {:induction false} StoredRows(drafts: seq<QuestionDraft>, ids: seq<QuestionId>)
    requires |ids| == |drafts|
    ensures forall i :: 0 <= i < |drafts| ==> Stored(drafts, ids)[i] == StoredQuestion(ids[i], drafts[i])
  {
    if drafts != [] {
      var n := |drafts| - 1;
      StoredRows(drafts[..n], ids[..n]);
      assert forall i :: 0 <= i < n ==> drafts[..n][i] == drafts[i] && ids[..n][i] == ids[i];
    }
  }

  /** `questions.reduce((sum, q) => sum + Number(q.marks || 0), 0)`. */
  function DraftTotal(drafts: seq<QuestionDraft>): int {
    if drafts == [] then 0
    else DraftTotal(drafts[..|drafts| - 1]) + Scoring.Weight(Scoring.NullAsZero, drafts[|drafts| - 1].marks)
  }

  /** The total computed from the request is the total of the rows written. */
  lemma {:induction false} DraftTotalIsStoredTotal(drafts: seq<QuestionDraft>, ids: seq<QuestionId>)
    requires |ids| == |drafts|
    ensures DraftTotal(drafts) == Scoring.TotalMarks(Stored(drafts, ids), Scoring.NullAsZero)
  {
    if drafts != [] {
      var n := |drafts| - 1;
      DraftTotalIsStoredTotal(drafts[..n], ids[..n]);
      var s := Stored(drafts, ids);
      assert s[..|s| - 1] == Stored(drafts[..n], ids[..n]);
    }
  }

  /** The insert loop of both handlers: the drafts' rows are appended to the exam's questions, one at a time. */
  method InsertQuestions(rows0: map<ExamId, seq<Question>>, e: ExamId, drafts: seq<QuestionDraft>, ids: seq<QuestionId>)
    returns (rows: map<ExamId, seq<Question>>)
    requires e in rows0 && |ids| == |drafts|
    ensures rows == rows0[e := rows0[e] + Stored(drafts, ids)]
  {
    rows := rows0;
    assert drafts[..0] == [] && ids[..0] == [];
    assert rows0[e] + [] == rows0[e];
    assert rows0[e := rows0[e]] == rows0;
    for i := 0 to |drafts|
      invariant rows == rows0[e := rows0[e] + Stored(drafts[..i], ids[..i])]
    {
      assert drafts[..i + 1][..i] == drafts[..i] && ids[..i + 1][..i] == ids[..i];
      var q := StoredQuestion(ids[i], drafts[i]);
      assert rows0[e] + Stored(drafts[..i + 1], ids[..i + 1]) == (rows0[e] + Stored(drafts[..i], ids[..i])) + [q];
      rows := rows[e := rows[e] + [q]];
    }
    assert drafts[..|drafts|] == drafts && ids[..|ids|] == ids;
  }

  /** Every exam's `total_marks` is the total of its stored questions, as `createExam` sets it. */
  predicate TotalsConsistent(db: Db) {
    forall e :: e in db.exams ==> db.exams[e].totalMarks == Scoring.TotalMarks(QuestionsOf(db, e), Scoring.NullAsZero)
  }

  /** The `createExam` body; `questions` is None when absent, which makes `reduce` throw. */
  datatype ExamDraft = ExamDraft(
    title: string,
    description: Option<string>,
    expiryDate: Option<Time>,
    durationMin: Option<int>,
    passPercentage: Option<int>,
    createdBy: Option<InstituteId>,
    questions: Option<seq<QuestionDraft>>)

  /** The column default of `expires_at` this model assumes when the insert leaves it out. */
  const ExpiresAtDefault: Option<Time> := None

  datatype CreateReply = Created | CreateFailed

  /** The `exams` row `createExam` inserts; `expires_at` is written only for a truthy `expiry_date`. */
  function NewExam(d: ExamDraft, total: int): Exam {
    Exam(d.title, d.description, d.createdBy, None,
         if d.expiryDate.Some? then d.expiryDate else ExpiresAtDefault,
         d.durationMin, d.passPercentage, total, ExamEnabledDefault, ResultLockedDefault, None)
  }

  /** The id the exam insert returns is new to both tables. */
  predicate FreshExam(db: Db, e: ExamId) {
    e !in db.exams && e !in db.questions
  }

  /** The whole transaction of `createExam`, with the fresh exam id `e` and question ids `ids`. */
  function Create(db: Db, d: ExamDraft, e: ExamId, ids: seq<QuestionId>): (r: (Db, CreateReply))
    requires FreshExam(db, e)
    requires d.questions.Some? ==> |ids| == |d.questions.value|
    ensures r.1 == CreateFailed <==> d.questions.None?
    ensures r.1 == CreateFailed ==> r.0 == db
    ensures r.1 == Created ==>
      && r.0 == db.(exams := r.0.exams, questions := r.0.questions)
      && r.0.exams.Keys == db.exams.Keys + {e}
      && QuestionsOf(r.0, e) == Stored(d.questions.value, ids)
      && r.0.exams[e].totalMarks == Scoring.TotalMarks(QuestionsOf(r.0, e), Scoring.NullAsZero)
      && r.0.exams[e].expiresAt == d.expiryDate
      && r.0.exams[e].title == d.title && r.0.exams[e].passPercentage == d.passPercentage
      && r.0.exams[e].description == d.description && r.0.exams[e].createdBy == d.createdBy
      && r.0.exams[e].durationMin == d.durationMin
      && r.0.exams[e].scheduledDate.None? && r.0.exams[e].downloadable.None?
      && r.0.exams[e].isEnabled == ExamEnabledDefault && r.0.exams[e].resultLocked == ResultLockedDefault
      && (forall x :: x in db.exams ==> r.0.exams[x] == db.exams[x])
      && (forall x :: x != e ==> QuestionsOf(r.0, x) == QuestionsOf(db, x))
  {
    match d.questions
    case None => (db, CreateFailed)
    case Some(drafts) =>
      DraftTotalIsStoredTotal(drafts, ids);
      (db.(exams := db.exams[e := NewExam(d, DraftTotal(drafts))], questions := db.questions[e := Stored(drafts, ids)]), Created)
  }

  /** `createExam`: the total first, then the exam row, then one question row per draft. */
  method CreateExam(db: Db, d: ExamDraft, e: ExamId, ids: seq<QuestionId>) returns (db': Db, reply: CreateReply)
    requires FreshExam(db, e)
    requires d.questions.Some? ==> |ids| == |d.questions.value|
    ensures (db', reply) == Create(db, d, e, ids)
  {
    if d.questions.None? {
      return db, CreateFailed;
    }
    var drafts := d.questions.value;
    var total := DraftTotal(drafts);
    var work := db.(exams := db.exams[e := NewExam(d, total)]);
    var rows := InsertQuestions(work.questions[e := []], e, drafts, ids);
    assert [] + Stored(drafts, ids) == Stored(drafts, ids);
    assert rows == db.questions[e := Stored(drafts, ids)];
    return work.(questions := rows), Created;
  }

  /** Creating an exam keeps every total consistent with its questions. */
  lemma CreateKeepsTotalsConsistent(db: Db, d: ExamDraft, e: ExamId, ids: seq<QuestionId>)
    requires FreshExam(db, e)
    requires d.questions.Some? ==> |ids| == |d.questions.value|
    requires TotalsConsistent(db)
    ensures TotalsConsistent(Create(db, d, e, ids).0)
  {
    var r := Create(db, d, e, ids).0;
    forall x | x in r.exams
      ensures r.exams[x].totalMarks == Scoring.TotalMarks(QuestionsOf(r, x), Scoring.NullAsZero)
    {
      if x != e {
        assert QuestionsOf(r, x) == QuestionsOf(db, x);
      }
    }
  }

  /** The `updateExamById` body; `id` is None when absent, `questions` None when absent. */
  datatype ExamUpdate = ExamUpdate(
    id: Option<ExamId>,
    title: string,
    description: Option<string>,
    scheduledDate: Option<Time>,
    durationMin: Option<int>,
    passPercentage: Option<int>,
    createdBy: Option<InstituteId>,
    questions: Option<seq<QuestionDraft>>)

  datatype UpdateReply = ExamNotFound | UpdateFailed | ExamUpdated

  /** The `UPDATE exams SET ...` of `updateExamById`: six columns, `total_marks` not among them. */
  function Edited(exam: Exam, u: ExamUpdate): Exam {
    exam.(title := u.title, description := u.description, scheduledDate := u.scheduledDate,
          durationMin := u.durationMin, passPercentage := u.passPercentage, createdBy := u.createdBy)
  }

  /**
   * The whole transaction of `updateExamById` as written. A missing exam is a
   * 404 after ROLLBACK; absent `questions` make the insert loop throw after the
   * update and the delete, and the ROLLBACK undoes both.
   */
  function Update(db: Db, u: ExamUpdate, ids: seq<QuestionId>): (r: (Db, UpdateReply))
    requires u.questions.Some? ==> |ids| == |u.questions.value|
    ensures r.1 == ExamNotFound <==> u.id.None? || u.id.value !in db.exams
    ensures r.1 == UpdateFailed <==> u.id.Some? && u.id.value in db.exams && u.questions.None?
    ensures !r.1.ExamUpdated? ==> r.0 == db
    ensures r.1 == ExamUpdated ==>
      var e := u.id.value;
      && r.0 == db.(exams := r.0.exams, questions := r.0.questions)
      && r.0.exams.Keys == db.exams.Keys
      && QuestionsOf(r.0, e) == Stored(u.questions.value, ids)
      && r.0.exams[e] == Edited(db.exams[e], u)
      && r.0.exams[e].totalMarks == db.exams[e].totalMarks
      && (forall x :: x in db.exams && x != e ==> r.0.exams[x] == db.exams[x])
      && (forall x :: x != e ==> QuestionsOf(r.0, x) == QuestionsOf(db, x))
  {
    if u.id.None? || u.id.value !in db.exams then (db, ExamNotFound)
    else if u.questions.None? then (db, UpdateFailed)
    else
      var e := u.id.value;
      (db.(exams := db.exams[e := Edited(db.exams[e], u)], questions := db.questions[e := Stored(u.questions.value, ids)]), ExamUpdated)
  }

  /** `updateExamById`: check, update, delete the old questions, re-insert the new ones. */
  method UpdateExamById(db: Db, u: ExamUpdate, ids: seq<QuestionId>) returns (db': Db, reply: UpdateReply)
    requires u.questions.Some? ==> |ids| == |u.questions.value|
    ensures (db', reply) == Update(db, u, ids)
  {
    if u.id.None? || u.id.value !in db.exams {
      return db, ExamNotFound;
    }
    var e := u.id.value;
    var work := db.(exams := db.exams[e := Edited(db.exams[e], u)]);
    work := work.(questions := work.questions[e := []]);
    if u.questions.None? {
      // the loop over `undefined` throws: ROLLBACK
      return db, UpdateFailed;
    }
    var rows := InsertQuestions(work.questions, e, u.questions.value, ids);
    assert [] + Stored(u.questions.value, ids) == Stored(u.questions.value, ids);
    assert rows == db.questions[e := Stored(u.questions.value, ids)];
    return work.(questions := rows), ExamUpdated;
  }

  /** An exam with no questions and a zero total, for the counterexample below. */
  const Untouched: Exam := Exam("Algebra", None, None, None, None, None, None, 0, true, false, None)

  /**
   * The stored total goes stale: an exam whose total matched its (empty)
   * question list is updated with one question worth 5 marks, and its
   * `total_marks` stays 0.
   */
  lemma UpdateLeavesTotalStale()
    ensures var db := Db(map[], [], map[1 := Untouched], map[], map[], map[], map[], [], map[]);
      var u := ExamUpdate(Some(1), "Algebra", None, None, None, None, None, Some([QuestionDraft(None, None, None, Some("4"), Some(5))]));
      && TotalsConsistent(db)
      && Update(db, u, ["q1"]).1 == ExamUpdated
      && !TotalsConsistent(Update(db, u, ["q1"]).0)
  {
    var db := Db(map[], [], map[1 := Untouched], map[], map[], map[], map[], [], map[]);
    var draft := QuestionDraft(None, None, None, Some("4"), Some(5));
    var u := ExamUpdate(Some(1), "Algebra", None, None, None, None, None, Some([draft]));
    assert QuestionsOf(db, 1) == [];
    var r := Update(db, u, ["q1"]).0;
    var stored := Stored([draft], ["q1"]);
    assert [draft][..0] == [] && ["q1"][..0] == [];
    assert stored == [StoredQuestion("q1", draft)];
    assert stored[..0] == [];
    assert Scoring.TotalMarks(stored, Scoring.NullAsZero) == 5;
    assert r.exams[1].totalMarks == 0;
  }

  /** `updateExamById` as evidently intended: the same transaction, with `total_marks` recomputed from the new questions. */
  function UpdateRepaired(db: Db, u: ExamUpdate, ids: seq<QuestionId>): (r: (Db, UpdateReply))
    requires u.questions.Some? ==> |ids| == |u.questions.value|
    ensures r.1 == Update(db, u, ids).1
    ensures !r.1.ExamUpdated? ==> r.0 == db
    ensures r.1 == ExamUpdated ==> u.id.Some? && u.id.value in r.0.exams && u.questions.Some?
    ensures r.1 == ExamUpdated ==>
      && r.0.questions == Update(db, u, ids).0.questions
      && r.0.exams[u.id.value].totalMarks == DraftTotal(u.questions.value)
  {
    var (next, reply) := Update(db, u, ids);
    if reply == ExamUpdated then
      var e := u.id.value;
      (next.(exams := next.exams[e := next.exams[e].(totalMarks := DraftTotal(u.questions.value))]), reply)
    else (next, reply)
  }

  /** The repaired update keeps every total consistent with its questions. */
  lemma RepairedUpdateKeepsTotalsConsistent(db: Db, u: ExamUpdate, ids: seq<QuestionId>)
    requires u.questions.Some? ==> |ids| == |u.questions.value|
    requires TotalsConsistent(db)
    ensures TotalsConsistent(UpdateRepaired(db, u, ids).0)
  {
    var (r, reply) := UpdateRepaired(db, u, ids);
    if reply == ExamUpdated {
      var e := u.id.value;
      DraftTotalIsStoredTotal(u.questions.value, ids);
      forall x | x in r.exams
        ensures r.exams[x].totalMarks == Scoring.TotalMarks(QuestionsOf(r, x), Scoring.NullAsZero)
      {
        if x != e {
          assert QuestionsOf(r, x) == QuestionsOf(db, x);
        }
      }
    }
  }

  // ---------------------------------------------------------------------------
  // toggleExamStatus and toggleResultLock

  datatype ToggleReply = InvalidFlag | ToggleNotFound | Toggled

  /** `toggleExamStatus`: `isEnabled` is None when the body's value is not a boolean. */
  function ToggleExamStatus(db: Db, e: ExamId, isEnabled: Option<bool>): (r: (Db, ToggleReply))
    ensures r.1 == InvalidFlag <==> isEnabled.None?
    ensures r.1 == ToggleNotFound <==> isEnabled.Some? && e !in db.exams
    ensures !r.1.Toggled? ==> r.0 == db
    ensures r.1 == Toggled ==>
      && r.0 == db.(exams := r.0.exams)
      && r.0.exams.Keys == db.exams.Keys
      && r.0.exams[e].isEnabled == isEnabled.value
      && r.0.exams[e].(isEnabled := db.exams[e].isEnabled) == db.exams[e]
      && (forall x :: x in db.exams && x != e ==> r.0.exams[x] == db.exams[x])
  {
    if isEnabled.None? then (db, InvalidFlag)
    else if e !in db.exams then (db, ToggleNotFound)
    else (db.(exams := db.exams[e := db.exams[e].(isEnabled := isEnabled.value)]), Toggled)
  }

  /** `toggleResultLock`: `examId` is None when falsy, `locked` None when not a boolean. */
  function ToggleResultLock(db: Db, examId: Option<ExamId>, locked: Option<bool>): (r: (Db, ToggleReply))
    ensures r.1 == InvalidFlag <==> examId.None? || locked.None?
    ensures r.1 == ToggleNotFound <==> examId.Some? && locked.Some? && examId.value !in db.exams
    ensures !r.1.Toggled? ==> r.0 == db
    ensures r.1 == Toggled ==>
      var e := examId.value;
      && r.0 == db.(exams := r.0.exams)
      && r.0.exams.Keys == db.exams.Keys
      && r.0.exams[e].resultLocked == locked.value
      && r.0.exams[e].(resultLocked := db.exams[e].resultLocked) == db.exams[e]
      && (forall x :: x in db.exams && x != e ==> r.0.exams[x] == db.exams[x])
  {
    if examId.None? || locked.None? then (db, InvalidFlag)
    else if examId.value !in db.exams then (db, ToggleNotFound)
    else
      var e := examId.value;
      (db.(exams := db.exams[e := db.exams[e].(resultLocked := locked.value)]), Toggled)
  }

  /** Locking and then restoring the previous flag leaves the store as it was; so does re-sending the current flag. */
  lemma ResultLockRoundTrip(db: Db, e: ExamId, locked: bool)
    requires e in db.exams
    ensures ToggleResultLock(ToggleResultLock(db, Some(e), Some(locked)).0, Some(e), Some(db.exams[e].resultLocked)).0 == db
    ensures ToggleResultLock(db, Some(e), Some(db.exams[e].resultLocked)).0 == db
  {
    var once := ToggleResultLock(db, Some(e), Some(locked)).0;
    var back := ToggleResultLock(once, Some(e), Some(db.exams[e].resultLocked)).0;
    assert back.exams == db.exams;
    assert db.exams[e := db.exams[e]] == db.exams;
  }

  /** Re-enabling an exam with its current flag changes nothing; two toggles compose to the last one. */
  lemma ExamStatusLastWriteWins(db: Db, e: ExamId, first: bool, second: bool)
    requires e in db.exams
    ensures ToggleExamStatus(ToggleExamStatus(db, e, Some(first)).0, e, Some(second)) == ToggleExamStatus(db, e, Some(second))
    ensures ToggleExamStatus(db, e, Some(db.exams[e].isEnabled)).0 == db
  {
    var once := ToggleExamStatus(db, e, Some(first)).0;
    assert once.exams[e].(isEnabled := second) == db.exams[e].(isEnabled := second);
    assert once.exams[e := once.exams[e].(isEnabled := second)] == db.exams[e := db.exams[e].(isEnabled := second)];
    assert db.exams[e := db.exams[e]] == db.exams;
  }

  // ---------------------------------------------------------------------------
  // getExamSummary

  /** The name of the branch with that id, the first in table order; None when the JOIN finds no branch. */
  function BranchNameOf(branches: seq<Branch>, id: BranchId): (r: Option<string>)
    ensures r.None? <==> forall i :: 0 <= i < |branches| ==> branches[i].id != id
  {
    if branches == [] then None
    else if branches[0].id == id then Some(branches[0].name)
    else
      var r := BranchNameOf(branches[1..], id);
      assert r.None? <==> forall i :: 1 <= i < |branches| ==> branches[i].id != id by {
        assert forall i :: 1 <= i < |branches| ==> branches[i] == branches[1..][i - 1];
      }
      r
  }

  /** `req.query.branch === 'null' || undefined ? null : branch`. */
  function BranchFilter(raw: Option<string>): (f: Option<string>)
    ensures f.None? <==> raw.None? || raw.value == "null"
    ensures f.Some? ==> f == raw
  {
    if raw.None? || raw.value == "null" then None else raw
  }

  /** The joined student passes `s.institute_id = $2 AND ($3::text IS NULL OR b.name = $3)`. */
  predicate InScope(db: Db, s: StudentId, institute: InstituteId, branch: Option<string>)
    requires s in db.students
  {
    var name := BranchNameOf(db.branches, db.students[s].branch);
    && db.students[s].institute == institute
    && name.Some?
    && (branch.None? || name.value == branch.value)
  }

  /** The students of the enabled-students query: every assignment row of the exam, enabled or not. */
  function EnabledStudents(db: Db, e: ExamId, institute: InstituteId, branch: Option<string>): set<StudentId> {
    set s | s in db.students && (e, s) in db.examStudent && InScope(db, s, institute, branch)
  }

  /** The students of the attended query: a ledger row for the exam. */
  function AttendedStudents(db: Db, e: ExamId, institute: InstituteId, branch: Option<string>): set<StudentId> {
    set s | s in db.students && (s, e) in db.results && InScope(db, s, institute, branch)
  }

  /** `r.status.toLowerCase() === 'pass'`. */
  predicate PassText(status: string) {
    Text.Lower(status) == "pass"
  }

  function PassedAmong(db: Db, e: ExamId, attended: set<StudentId>): set<StudentId> {
    set s | s in attended && (s, e) in db.results && PassText(StatusText(db.results[(s, e)].status))
  }

  datatype Summary = Summary(
    totalEnabled: int,
    attendedCount: int,
    notAttendedCount: int,
    passCount: int,
    failCount: int,
    attended: set<StudentId>,
    notAttended: set<StudentId>)

  datatype SummaryReply = SummaryBadRequest | SummaryNotFound | Counts(summary: Summary)

  /**
   * `SELECT id FROM exams WHERE title = $1 LIMIT 1` has no ORDER BY: `found`
   * is whichever exam with the title the store returns, None when there is none.
   */
  predicate LimitOne(db: Db, title: string, found: Option<ExamId>) {
    if found.Some? then found.value in db.exams && db.exams[found.value].title == title
    else forall e :: e in db.exams ==> db.exams[e].title != title
  }

  /** `getExamSummary`; `institute` is the `parseInt` result, None for NaN. */
  function ExamSummary(db: Db, institute: Option<int>, title: string, rawBranch: Option<string>, found: Option<ExamId>): (r: SummaryReply)
    requires LimitOne(db, title, found)
    ensures r == SummaryBadRequest <==> !Truthy(institute) || title == ""
    ensures r == SummaryNotFound <==> Truthy(institute) && title != "" && forall e :: e in db.exams ==> db.exams[e].title != title
    ensures r.Counts? ==>
      var (s, e, i, b) := (r.summary, found.value, institute.value, BranchFilter(rawBranch));
      && db.exams[e].title == title
      && s.attended == AttendedStudents(db, e, i, b)
      && s.notAttended == EnabledStudents(db, e, i, b) - AttendedStudents(db, e, i, b)
      && s.totalEnabled == |EnabledStudents(db, e, i, b)|
      && s.attendedCount == |s.attended|
      && s.notAttendedCount == |s.notAttended|
      && s.passCount == |PassedAmong(db, e, s.attended)|
  {
    if !Truthy(institute) || title == "" then SummaryBadRequest
    else if found.None? then SummaryNotFound
    else
      var (e, i, b) := (found.value, institute.value, BranchFilter(rawBranch));
      var enabled := EnabledStudents(db, e, i, b);
      var attended := AttendedStudents(db, e, i, b);
      var notAttended := set s | s in enabled && s !in attended;
      assert notAttended == enabled - attended;
      var passCount := |PassedAmong(db, e, attended)|;
      Counts(Summary(|enabled|, |attended|, |notAttended|, passCount, |attended| - passCount, attended, notAttended))
  }

  /** `branch=null` in the query string is the same request as no branch at all. */
  lemma NullBranchIsNoFilter(db: Db, institute: Option<int>, title: string, found: Option<ExamId>)
    requires LimitOne(db, title, found)
    ensures ExamSummary(db, institute, title, Some("null"), found) == ExamSummary(db, institute, title, None, found)
  {
  }

  /** A branch filter only narrows the summary: the same outcome, with fewer or as many students counted. */
  lemma BranchFilterNarrows(db: Db, institute: Option<int>, title: string, branch: string, found: Option<ExamId>)
    requires LimitOne(db, title, found)
    ensures var (r, all) := (ExamSummary(db, institute, title, Some(branch), found), ExamSummary(db, institute, title, None, found));
      && r.Counts? == all.Counts?
      && (r.Counts? ==>
        && r.summary.attended <= all.summary.attended
        && r.summary.attendedCount <= all.summary.attendedCount
        && r.summary.totalEnabled <= all.summary.totalEnabled)
  {
    var r := ExamSummary(db, institute, title, Some(branch), found);
    var all := ExamSummary(db, institute, title, None, found);
    if r.Counts? {
      var (e, i) := (found.value, institute.value);
      var b := BranchFilter(Some(branch));
      assert AttendedStudents(db, e, i, b) <= AttendedStudents(db, e, i, None);
      assert EnabledStudents(db, e, i, b) <= EnabledStudents(db, e, i, None);
      Collections.SubsetCard(AttendedStudents(db, e, i, b), AttendedStudents(db, e, i, None));
      Collections.SubsetCard(EnabledStudents(db, e, i, b), EnabledStudents(db, e, i, None));
    }
  }

  /** The ledger's `Pass` is the only status text that lower-cases to 'pass'. */
  lemma PassTextOfStatus(st: Status)
    ensures PassText(StatusText(st)) <==> st == Pass
  {
    if st == Fail {
      assert Text.Lower(StatusText(st))[0] == 'f';
    } else {
      assert Text.Lower("Pass") == "pass";
    }
  }

  /**
   * The counts add up: pass and fail partition the attended students, the
   * failures being exactly those whose status is Fail; the not-attended and the
   * attended enabled students partition the enabled ones.
   */
  lemma SummaryCountsAddUp(db: Db, institute: Option<int>, title: string, rawBranch: Option<string>, found: Option<ExamId>)
    requires LimitOne(db, title, found)
    ensures var r := ExamSummary(db, institute, title, rawBranch, found);
      r.Counts? ==>
      var (s, e, i, b) := (r.summary, found.value, institute.value, BranchFilter(rawBranch));
      && s.passCount + s.failCount == s.attendedCount
      && 0 <= s.failCount
      && s.failCount == |set x | x in s.attended && db.results[(x, e)].status == Fail|
      && s.notAttendedCount <= s.totalEnabled
      && s.notAttendedCount + |EnabledStudents(db, e, i, b) * s.attended| == s.totalEnabled
  {
    var r := ExamSummary(db, institute, title, rawBranch, found);
    if r.Counts? {
      var (s, e, i, b) := (r.summary, found.value, institute.value, BranchFilter(rawBranch));
      FailedAreTheRest(db, e, s.attended);
      Collections.SplitCard(EnabledStudents(db, e, i, b), s.attended);
    }
  }

  /** Among students with a ledger row, those whose status is Fail are exactly those not counted as passed. */
  lemma FailedAreTheRest(db: Db, e: ExamId, attended: set<StudentId>)
    requires forall x :: x in attended ==> (x, e) in db.results
    ensures |set x | x in attended && db.results[(x, e)].status == Fail| == |attended| - |PassedAmong(db, e, attended)|
  {
    var passed := PassedAmong(db, e, attended);
    var failed := set x | x in attended && db.results[(x, e)].status == Fail;
    forall x | x in attended
      ensures x in passed <==> x !in failed
    {
      PassTextOfStatus(db.results[(x, e)].status);
    }
    assert failed == attended - passed;
    assert passed == attended * passed;
    Collections.SplitCard(attended, passed);
  }

  // ---------------------------------------------------------------------------
  // searchExams

  /** `validSortFields.includes(sortField) ? sortField : 'created_at'`, the query default being 'created_at'. */
  function SortField(requested: Option<string>): (f: string)
    ensures f == "title" || f == "created_at"
    ensures f == "title" <==> requested == Some("title")
  {
    if requested.Some? && requested.value in ["title", "created_at"] then requested.value else "created_at"
  }

  /** The sort direction is checked case-insensitively but kept as written; the default is 'asc'. */
  function SortOrder(requested: Option<string>): (o: string)
    ensures Text.Lower(o) == "asc" || Text.Lower(o) == "desc"
    ensures requested.Some? && Text.Lower(requested.value) in ["asc", "desc"] ==> o == requested.value
    ensures requested.None? || Text.Lower(requested.value) !in ["asc", "desc"] ==> o == "asc"
  {
    var o := requested.GetOr("asc");
    Text.LowerWithoutCapitals("asc");
    if Text.Lower(o) in ["asc", "desc"] then o else "asc"
  }

  /**
   * What `ORDER BY e.<field> <order>` interpolates is always ASC or DESC, and
   * DESC exactly when the request asked for it in any case.
   */
  lemma SortDirectionIsKeyword(requested: Option<string>)
    ensures Text.Upper(SortOrder(requested)) in ["ASC", "DESC"]
    ensures Text.Upper(SortOrder(requested)) == "DESC" <==> requested.Some? && Text.Lower(requested.value) == "desc"
  {
    var o := SortOrder(requested);
    Text.LowerWithoutCapitals("asc");
    Text.LowerWithoutCapitals("desc");
    assert Text.Upper("asc") == "ASC" && Text.Upper("desc") == "DESC";
    if Text.Lower(o) == "asc" {
      Text.UpperOfLowerEqual(o, "asc");
    } else {
      Text.UpperOfLowerEqual(o, "desc");
    }
  }

  /** A condition appended to the search query, naming the placeholder `$param` it reads. */
  datatype ExamFilter = TitleLike(param: nat) | BranchIs(param: nat) | CreatedOn(param: nat)

  /** The position of a filter kind in the order the handler appends them. */
  function Rank(f: ExamFilter): nat {
    match f
    case TitleLike(_) => 0
    case BranchIs(_) => 1
    case CreatedOn(_) => 2
  }

  datatype ExamQuery = ExamQuery(filters: seq<ExamFilter>, values: seq<string>, sortField: string, sortOrder: string)

  /** `$n` binds `values[n - 1]`; the filters use `$2`, `$3`, ... in the order search, branch, date. */
  predicate ExamQueryNumbered(q: ExamQuery) {
    && |q.values| == |q.filters| + 1
    && (forall i :: 0 <= i < |q.filters| ==> q.filters[i].param == i + 2)
    && (forall i, j :: 0 <= i < j < |q.filters| ==> Rank(q.filters[i]) < Rank(q.filters[j]))
  }

  /** What the built query binds: the institute at `$1`, then one value per filter present. */
  predicate ExamQueryBinds(q: ExamQuery, instituteId: string, search: string, branch: string, date: string) {
    && ExamQueryNumbered(q)
    && q.values[0] == instituteId
    && (search != "" <==> exists i :: 0 <= i < |q.filters| && q.filters[i].TitleLike?)
    && (branch != "" <==> exists i :: 0 <= i < |q.filters| && q.filters[i].BranchIs?)
    && (Text.Trim(date) != "" <==> exists i :: 0 <= i < |q.filters| && q.filters[i].CreatedOn?)
    && (forall i :: 0 <= i < |q.filters| && q.filters[i].TitleLike? ==> q.values[i + 1] == "%" + Text.Lower(search) + "%")
    && (forall i :: 0 <= i < |q.filters| && q.filters[i].BranchIs? ==> q.values[i + 1] == Text.Lower(branch))
    && (forall i :: 0 <= i < |q.filters| && q.filters[i].CreatedOn? ==> q.values[i + 1] == Text.Trim(date))
  }

  /** Before any filter only the institute is bound. */
  lemma NoExamFilterYet(instituteId: string)
    ensures ExamQueryBinds(ExamQuery([], [instituteId], "", ""), instituteId, "", "", "")
  {
    assert Text.Trim("") == "";
  }

  /** `if (search)`: the search filter pushes its pattern and reads `$2`, there being no filter before it. */
  method AddTitleFilter(instituteId: string, search: string) returns (filters: seq<ExamFilter>, values: seq<string>)
    requires search != ""
    ensures ExamQueryBinds(ExamQuery(filters, values, "", ""), instituteId, search, "", "")
  {
    values := [instituteId] + ["%" + Text.Lower(search) + "%"];
    filters := [TitleLike(|values|)];
    assert Text.Trim("") == "";
    assert filters[0].TitleLike?;
  }

  /** `if (branch)`: the branch filter comes after the search filter, if any, and reads the next placeholder. */
  method AddBranchFilter(filters: seq<ExamFilter>, values: seq<string>, instituteId: string, search: string, branch: string)
    returns (filters': seq<ExamFilter>, values': seq<string>)
    requires branch != "" && ExamQueryBinds(ExamQuery(filters, values, "", ""), instituteId, search, "", "")
    ensures ExamQueryBinds(ExamQuery(filters', values', "", ""), instituteId, search, branch, "")
  {
    values' := values + [Text.Lower(branch)];
    filters' := filters + [BranchIs(|values'|)];
    assert Text.Trim("") == "";
    assert forall i :: 0 <= i < |filters| ==> filters'[i] == filters[i] && values'[i + 1] == values[i + 1];
    assert filters'[|filters|].BranchIs?;
  }

  /** `if (date?.trim())`: the date filter comes last and reads the next placeholder. */
  method AddDateFilter(filters: seq<ExamFilter>, values: seq<string>, instituteId: string, search: string, branch: string, date: string)
    returns (filters': seq<ExamFilter>, values': seq<string>)
    requires Text.Trim(date) != "" && ExamQueryBinds(ExamQuery(filters, values, "", ""), instituteId, search, branch, "")
    ensures ExamQueryBinds(ExamQuery(filters', values', "", ""), instituteId, search, branch, date)
  {
    values' := values + [Text.Trim(date)];
    filters' := filters + [CreatedOn(|values'|)];
    assert Text.Trim("") == "";
    assert forall i :: 0 <= i < |filters| ==> filters'[i] == filters[i] && values'[i + 1] == values[i + 1];
    assert filters'[|filters|].CreatedOn?;
  }

  /** The filter-building steps of `searchExams`: each present filter pushes its value and reads `$values.length`. */
  method ExamFilters(instituteId: string, search: string, branch: string, date: string) returns (filters: seq<ExamFilter>, values: seq<string>)
    ensures ExamQueryBinds(ExamQuery(filters, values, "", ""), instituteId, search, branch, date)
  {
    filters := [];
    values := [instituteId];
    NoExamFilterYet(instituteId);
    if search != "" {
      filters, values := AddTitleFilter(instituteId, search);
    }
    if branch != "" {
      filters, values := AddBranchFilter(filters, values, instituteId, search, branch);
    }
    if Text.Trim(date) != "" {
      filters, values := AddDateFilter(filters, values, instituteId, search, branch, date);
    }
  }

  /** `searchExams` builds its query; None is the 400 for a missing institute. */
  method SearchExamsQuery(instituteId: string, search: string, branch: string, date: string, sortField: Option<string>, sortOrder: Option<string>)
    returns (r: Option<ExamQuery>)
    ensures r.None? <==> instituteId == ""
    ensures r.Some? ==> ExamQueryBinds(r.value, instituteId, search, branch, date)
    ensures r.Some? ==> r.value.sortField == SortField(sortField) && r.value.sortOrder == Text.Upper(SortOrder(sortOrder))
  {
    if instituteId == "" {
      return None;
    }
    var filters, values := ExamFilters(instituteId, search, branch, date);
    return Some(ExamQuery(filters, values, SortField(sortField), Text.Upper(SortOrder(sortOrder))));
  }

  // ---------------------------------------------------------------------------
  // getAllResults

  /** `parseInt(x) || d`: NaN (None) and 0 fall back to the default. */
  function OrDefault(parsed: Option<int>, d: int): (v: int)
    ensures Truthy(parsed) ==> v == parsed.value
    ensures !Truthy(parsed) ==> v == d
    ensures d != 0 ==> v != 0
  {
    if Truthy(parsed) then parsed.value else d
  }

  function PageOf(page: Option<int>): int {
    OrDefault(page, 1)
  }

  function LimitOf(limit: Option<int>): int {
    OrDefault(limit, 10)
  }

  /** `(page - 1) * limit`. */
  function Offset(page: Option<int>, limit: Option<int>): int {
    (PageOf(page) - 1) * LimitOf(limit)
  }

  /**
   * Pagination: with no parameters the first ten rows are asked for, and for
   * positive pages and limits consecutive pages tile the rows without gap or
   * overlap.
   */
  lemma PagesTile(page: int, limit: Option<int>)
    requires page >= 1
    ensures Offset(None, None) == 0 && LimitOf(None) == 10
    ensures Offset(Some(1), limit) == 0
    ensures Offset(Some(page + 1), limit) == Offset(Some(page), limit) + LimitOf(limit)
    ensures LimitOf(limit) > 0 ==> Offset(Some(page), limit) >= 0
  {
    var l := LimitOf(limit);
    assert (page + 1 - 1) * l == (page - 1) * l + l;
  }

  /** A value bound to a placeholder of the results query. */
  datatype SqlValue = Number(n: int) | NotANumber | Chars(s: string)

  /** A condition appended to the results query, naming the placeholder `$param` it reads. */
  datatype ResultFilter = SearchLike(param: nat) | BranchNameEquals(param: nat) | ExamTitleEquals(param: nat)

  function ResultRank(f: ResultFilter): nat {
    match f
    case SearchLike(_) => 0
    case BranchNameEquals(_) => 1
    case ExamTitleEquals(_) => 2
  }

  /** The filters, every value of the page query, its LIMIT and OFFSET placeholders, and the values of the count query. */
  datatype ResultsQuery = ResultsQuery(filters: seq<ResultFilter>, values: seq<SqlValue>, limitParam: nat, offsetParam: nat, countValues: seq<SqlValue>)

  /** The filters use `$2`, `$3`, ... in the order search, branch, exam title, each binding its value. */
  predicate ResultFiltersBind(filters: seq<ResultFilter>, values: seq<SqlValue>, search: string, branch: string, examTitle: string) {
    && |values| == |filters| + 1
    && (forall i :: 0 <= i < |filters| ==> filters[i].param == i + 2)
    && (forall i, j :: 0 <= i < j < |filters| ==> ResultRank(filters[i]) < ResultRank(filters[j]))
    && (search != "" <==> exists i :: 0 <= i < |filters| && filters[i].SearchLike?)
    && (branch != "" <==> exists i :: 0 <= i < |filters| && filters[i].BranchNameEquals?)
    && (examTitle != "" <==> exists i :: 0 <= i < |filters| && filters[i].ExamTitleEquals?)
    && (forall i :: 0 <= i < |filters| && filters[i].SearchLike? ==> values[i + 1] == Chars("%" + Text.Lower(search) + "%"))
    && (forall i :: 0 <= i < |filters| && filters[i].BranchNameEquals? ==> values[i + 1] == Chars(branch))
    && (forall i :: 0 <= i < |filters| && filters[i].ExamTitleEquals? ==> values[i + 1] == Chars(examTitle))
  }

  /** `if (search)`: the search filter pushes its pattern and reads `$2`, there being no filter before it. */
  method AddSearchFilter(first: SqlValue, search: string) returns (filters: seq<ResultFilter>, values: seq<SqlValue>, paramIndex: nat)
    requires search != ""
    ensures ResultFiltersBind(filters, values, search, "", "")
    ensures values[0] == first && paramIndex == |values| + 1
  {
    filters := [SearchLike(2)];
    values := [first, Chars("%" + Text.Lower(search) + "%")];
    paramIndex := 3;
    assert filters[0].SearchLike?;
  }

  /** `if (branch)`: the branch filter comes after the search filter, if any, and reads `$paramIndex`. */
  method AddBranchNameFilter(filters: seq<ResultFilter>, values: seq<SqlValue>, paramIndex: nat, search: string, branch: string)
    returns (filters': seq<ResultFilter>, values': seq<SqlValue>, paramIndex': nat)
    requires branch != "" && ResultFiltersBind(filters, values, search, "", "") && paramIndex == |values| + 1
    ensures ResultFiltersBind(filters', values', search, branch, "")
    ensures values'[0] == values[0] && paramIndex' == |values'| + 1
  {
    filters' := filters + [BranchNameEquals(paramIndex)];
    values' := values + [Chars(branch)];
    paramIndex' := paramIndex + 1;
    assert forall i :: 0 <= i < |filters| ==> filters'[i] == filters[i] && values'[i + 1] == values[i + 1];
    assert filters'[|filters|].BranchNameEquals?;
  }

  /** `if (examTitle)`: the exam-title filter comes last and reads `$paramIndex`. */
  method AddExamTitleFilter(filters: seq<ResultFilter>, values: seq<SqlValue>, paramIndex: nat, search: string, branch: string, examTitle: string)
    returns (filters': seq<ResultFilter>, values': seq<SqlValue>, paramIndex': nat)
    requires examTitle != "" && ResultFiltersBind(filters, values, search, branch, "") && paramIndex == |values| + 1
    ensures ResultFiltersBind(filters', values', search, branch, examTitle)
    ensures values'[0] == values[0] && paramIndex' == |values'| + 1
  {
    filters' := filters + [ExamTitleEquals(paramIndex)];
    values' := values + [Chars(examTitle)];
    paramIndex' := paramIndex + 1;
    assert forall i :: 0 <= i < |filters| ==> filters'[i] == filters[i] && values'[i + 1] == values[i + 1];
    assert filters'[|filters|].ExamTitleEquals?;
  }

  /** The filter-building steps of `getAllResults`, with the running `paramIndex`. */
  method ResultFilters(first: SqlValue, search: string, branch: string, examTitle: string)
    returns (filters: seq<ResultFilter>, values: seq<SqlValue>, paramIndex: nat)
    ensures ResultFiltersBind(filters, values, search, branch, examTitle)
    ensures values[0] == first && paramIndex == |values| + 1
  {
    var lowered := Text.Lower(search);
    assert |lowered| == |search|;
    filters := [];
    values := [first];
    paramIndex := 2;
    assert ResultFiltersBind(filters, values, "", "", "");
    if lowered != "" {
      filters, values, paramIndex := AddSearchFilter(first, search);
    }
    if branch != "" {
      filters, values, paramIndex := AddBranchNameFilter(filters, values, paramIndex, search, branch);
    }
    if examTitle != "" {
      filters, values, paramIndex := AddExamTitleFilter(filters, values, paramIndex, search, branch, examTitle);
    }
  }

  /**
   * `getAllResults` builds its two queries; `instituteId`, `page` and `limit`
   * are `parseInt` results. LIMIT and OFFSET take the two placeholders after
   * the filters, and the count query gets exactly the filter values.
   */
  method AllResultsQuery(instituteId: Option<int>, page: Option<int>, limit: Option<int>, search: string, branch: string, examTitle: string)
    returns (q: ResultsQuery)
    ensures ResultFiltersBind(q.filters, q.countValues, search, branch, examTitle)
    ensures q.values == q.countValues + [Number(LimitOf(limit)), Number(Offset(page, limit))]
    ensures q.values[0] == (if instituteId.Some? then Number(instituteId.value) else NotANumber)
    ensures q.limitParam == |q.filters| + 2 && q.offsetParam == q.limitParam + 1
    ensures q.values[q.limitParam - 1] == Number(LimitOf(limit)) && q.values[q.offsetParam - 1] == Number(Offset(page, limit))
  {
    var filters, values, paramIndex := ResultFilters(if instituteId.Some? then Number(instituteId.value) else NotANumber, search, branch, examTitle);
    var filterValues := values;
    values := values + [Number(LimitOf(limit)), Number(Offset(page, limit))];
    assert values[..paramIndex - 1] == filterValues;
    return ResultsQuery(filters, values, paramIndex, paramIndex + 1, values[..paramIndex - 1]);
  }
}
