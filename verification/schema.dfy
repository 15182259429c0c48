/**
 * The relational store the handlers read and write, as Dafny values.
 *
 * Every table is a map keyed by its primary or unique key, so a row can never be
 * duplicated: `exam_student_assignments` is keyed by (exam, student),
 * `exam_branch_assignments` by (exam, branch), `student_exam_results` by
 * (student, exam) and `refresh_tokens` by (user, user type). A handler's
 * transaction is one transition from a `Db` to a new `Db`.
 */
module Schema {
  import opened Wrappers

  type StudentId = int
  type ExamId = int
  type BranchId = int
  type InstituteId = int
  type UserId = int
  /** Question ids are the keys of the submitted `answers` object. */
  type QuestionId = string
  /** A timestamp, as produced by the store's `now()`. */
  type Time = int

  /** `assigned_from`: 'branch' for rows written by branch reconciliation, the column default otherwise. */
  datatype Origin = FromBranch | Direct

  datatype Status = Pass | Fail

  datatype Student = Student(name: string, email: string, institute: InstituteId, branch: BranchId)

  datatype Branch = Branch(id: BranchId, name: string, institute: InstituteId)

  /**
   * The `options` column of a question: a bare array of choices, an object that
   * may carry `choices` (the authoring side writes `{type, choices}`), or some
   * other JSON value.
   */
  datatype Options = Listed(items: seq<string>) | Shaped(kind: Option<string>, choices: Option<seq<string>>) | Scalar

  /** A row of `questions` or of `guest_questions`. */
  datatype Question = Question(
    id: QuestionId,
    kind: Option<string>,
    text: Option<string>,
    options: Option<Options>,
    correctAnswer: Option<string>,
    marks: Option<int>)

  datatype Exam = Exam(
    title: string,
    description: Option<string>,
    createdBy: Option<InstituteId>,
    scheduledDate: Option<Time>,
    expiresAt: Option<Time>,
    durationMin: Option<int>,
    passPercentage: Option<int>,
    totalMarks: int,
    isEnabled: bool,
    resultLocked: bool,
    downloadable: Option<bool>)

  /** A row of `exam_student_assignments`. */
  datatype Assignment = Assignment(isEnabled: bool, hasSubmitted: Option<bool>, origin: Origin, disabledAt: Option<Time>)

  /** A row of the ledger `student_exam_results`. */
  datatype ResultRow = ResultRow(score: int, status: Status, submittedAt: Time)

  /** The text the ledger's `status` column holds. */
  function StatusText(s: Status): string {
    match s
    case Pass => "Pass"
    case Fail => "Fail"
  }

  /** A row of the older `results` table, still read by two listings; nothing here writes it. */
  datatype LegacyResult = LegacyResult(student: StudentId, exam: ExamId, score: Option<int>, status: Option<string>, createdAt: Option<Time>)

  datatype Db = Db(
    students: map<StudentId, Student>,
    branches: seq<Branch>,
    exams: map<ExamId, Exam>,
    questions: map<ExamId, seq<Question>>,
    examBranch: map<(ExamId, BranchId), bool>,
    examStudent: map<(ExamId, StudentId), Assignment>,
    results: map<(StudentId, ExamId), ResultRow>,
    legacyResults: seq<LegacyResult>,
    refreshTokens: map<(UserId, string), string>)

  // ---------------------------------------------------------------------------
  // The guest tables: `guest_users`, `guest_exams`, `guest_questions`, `guest_exam_attempts`

  /** Guest codes, guest exam ids and attempt ids are opaque keys. */
  type GuestId = string
  type GuestExamId = string

  datatype GuestExam = GuestExam(
    owner: Option<GuestId>,
    title: string,
    description: Option<string>,
    scheduledDate: string,
    durationMin: Option<int>,
    passPercentage: int,
    enableTimeLimit: bool,
    restrictAccess: bool,
    downloadable: Option<bool>,
    link: Option<string>)

  /** A row of `guest_exam_attempts`; `score` is the rounded percentage. */
  datatype Attempt = Attempt(id: string, exam: GuestExamId, studentName: string, score: int, submittedAt: Time)

  datatype GuestDb = GuestDb(
    users: map<GuestId, string>,
    exams: map<GuestExamId, GuestExam>,
    questions: map<GuestExamId, seq<Question>>,
    attempts: seq<Attempt>)

  function GuestQuestionsOf(db: GuestDb, exam: GuestExamId): seq<Question> {
    if exam in db.questions then db.questions[exam] else []
  }

  /** A number of the request body passes `if (!x)`: present, and not the falsy 0. */
  predicate Truthy(o: Option<int>) {
    o.Some? && o.value != 0
  }

  /** A text of the request body passes `if (!x)`: present, and not the falsy ''. */
  predicate TruthyText(o: Option<string>) {
    o.Some? && o.value != ""
  }

  /** The column defaults this model assumes for a freshly inserted row. */
  const HasSubmittedDefault: Option<bool> := Some(false)
  const ExamEnabledDefault: bool := true
  const ResultLockedDefault: bool := false

  /** The questions of an exam: `SELECT ... FROM questions WHERE exam_paper_id = $1`. */
  function QuestionsOf(db: Db, exam: ExamId): seq<Question> {
    if exam in db.questions then db.questions[exam] else []
  }

  /** The set of student ids whose branch is in `branches`. */
  function StudentsIn(students: map<StudentId, Student>, branches: set<BranchId>): (r: set<StudentId>)
    ensures forall s :: s in r <==> s in students && students[s].branch in branches
  {
    set s | s in students && students[s].branch in branches
  }

  /** Selecting by several branches at once selects the students of each, and no one else. */
  lemma StudentsInUnion(students: map<StudentId, Student>, a: set<BranchId>, b: set<BranchId>)
    ensures StudentsIn(students, a + b) == StudentsIn(students, a) + StudentsIn(students, b)
    ensures StudentsIn(students, {}) == {}
  {
  }

  /** More branches never select fewer students. */
  lemma StudentsInMonotone(students: map<StudentId, Student>, a: set<BranchId>, b: set<BranchId>)
    requires a <= b
    ensures StudentsIn(students, a) <= StudentsIn(students, b)
  {
  }
}
