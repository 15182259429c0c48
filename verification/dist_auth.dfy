/**
 * The rest of dist/controllers/auth.controller.js that the model covers: the
 * collect-all-errors bulk registration, the refresh-token store, and the
 * result-lock projections of `getStudentResults` and `getAllStudentExams`.
 */
module DistAuth {
  import opened Wrappers
  import opened Schema
  import opened Collections

  // ---------------------------------------------------------------------------
  // bulkRegisterStudents

  /** One element of `students`; a missing or non-string field is ''. */
  datatype BulkRow = BulkRow(name: string, email: string, password: string, branch: string)

  /** The body `{ students, instituteId }`; `students` is None when it is not an array. */
  datatype BulkRequest = BulkRequest(students: Option<seq<BulkRow>>, instituteId: Option<InstituteId>)

  datatype Reason = MissingRequiredFields | EmailAlreadyExists | InvalidBranch(branch: string)

  /** An element of `errors`: `{ email, reason }`. */
  datatype RowError = RowError(email: string, reason: Reason)

  datatype BulkReply =
    | BadRequest
      /** 409 `{ errors }`, nothing written. */
    | ValidationFailed(errors: seq<RowError>)
      /** 201, every row written. */
    | AllRegistered

  /** The `reason` text of a failure. */
  function ReasonText(r: Reason): string {
    match r
    case MissingRequiredFields => "Missing required fields"
    case EmailAlreadyExists => "Email already exists"
    case InvalidBranch(b) => "Invalid branch: " + b
  }

  /** `SELECT id FROM students WHERE email = $1` finds a row. */
  predicate EmailTaken(db: Db, email: string) {
    exists s :: s in db.students && db.students[s].email == email
  }

  /** The branch of the institute with that name: `branchRes.rows[0].id`, taken in table order. */
  function BranchNamed(branches: seq<Branch>, name: string, institute: InstituteId): (r: Option<BranchId>)
    ensures r.None? <==> forall i :: 0 <= i < |branches| ==> !(branches[i].name == name && branches[i].institute == institute)
    ensures r.Some? ==> exists i :: 0 <= i < |branches| && branches[i].name == name && branches[i].institute == institute && branches[i].id == r.value
  {
    if branches == [] then None
    else if branches[0].name == name && branches[0].institute == institute then Some(branches[0].id)
    else
      var r := BranchNamed(branches[1..], name, institute);
      assert r.Some? ==> exists i :: 1 <= i < |branches| && branches[i].name == name && branches[i].institute == institute && branches[i].id == r.value by {
        if r.Some? {
          var j :| 0 <= j < |branches[1..]| && branches[1..][j].name == name && branches[1..][j].institute == institute && branches[1..][j].id == r.value;
          assert branches[j + 1] == branches[1..][j];
        }
      }
      r
  }

  /**
   * The checks of one row, the first failing one deciding: missing fields, then
   * an email already registered, then an unknown branch name.
   */
  function CheckRow(db: Db, row: BulkRow, institute: InstituteId): (r: Result<BranchId, Reason>)
    ensures r == Failure(MissingRequiredFields) <==> row.name == "" || row.email == "" || row.password == "" || row.branch == ""
    ensures r == Failure(EmailAlreadyExists) <==>
      row.name != "" && row.email != "" && row.password != "" && row.branch != "" && EmailTaken(db, row.email)
    ensures r == Failure(InvalidBranch(row.branch)) <==>
      && row.name != "" && row.email != "" && row.password != "" && row.branch != "" && !EmailTaken(db, row.email)
      && BranchNamed(db.branches, row.branch, institute).None?
    ensures r.Success? ==> BranchNamed(db.branches, row.branch, institute) == Some(r.value)
  {
    if row.name == "" || row.email == "" || row.password == "" || row.branch == "" then Failure(MissingRequiredFields)
    else if EmailTaken(db, row.email) then Failure(EmailAlreadyExists)
    else match BranchNamed(db.branches, row.branch, institute)
      case None => Failure(InvalidBranch(row.branch))
      case Some(b) => Success(b)
  }

  /** The `failed` array after the validation loop: one entry per failing row, in input order. */
  function FailuresOf(db: Db, rows: seq<BulkRow>, institute: InstituteId): seq<RowError> {
    if rows == [] then []
    else
      var (init, row) := (rows[..|rows| - 1], rows[|rows| - 1]);
      var c := CheckRow(db, row, institute);
      FailuresOf(db, init, institute) + (if c.Failure? then [RowError(row.email, c.error)] else [])
  }

  /** The `valid` array after the validation loop: each passing row with its resolved branch id. */
  function ValidOf(db: Db, rows: seq<BulkRow>, institute: InstituteId): seq<(BulkRow, BranchId)> {
    if rows == [] then []
    else
      var (init, row) := (rows[..|rows| - 1], rows[|rows| - 1]);
      var c := CheckRow(db, row, institute);
      ValidOf(db, init, institute) + (if c.Success? then [(row, c.value)] else [])
  }

  /** The insert loop: the row `valid[i]` gets the fresh id `ids[i]`. */
  function Inserted(students: map<StudentId, Student>, valid: seq<(BulkRow, BranchId)>, ids: seq<StudentId>, institute: InstituteId)
    : map<StudentId, Student>
    requires |ids| == |valid|
  {
    if valid == [] then students
    else
      var n := |valid| - 1;
      Inserted(students, valid[..n], ids[..n], institute)[ids[n] := Student(valid[n].0.name, valid[n].0.email, institute, valid[n].1)]
  }

  /** `ids` are fresh student ids, one per row of the request. */
  predicate FreshIds(db: Db, req: BulkRequest, ids: seq<StudentId>) {
    && (req.students.Some? ==> |ids| == |req.students.value|)
    && Distinct(ids)
    && forall i :: 0 <= i < |ids| ==> ids[i] !in db.students
  }

  /** The whole transaction of `bulkRegisterStudents`. */
  function BulkRegister(db: Db, req: BulkRequest, ids: seq<StudentId>): (r: (Db, BulkReply))
    requires FreshIds(db, req, ids)
    ensures r.1 == BadRequest <==> req.students.None? || req.students.value == [] || !Truthy(req.instituteId)
    ensures !r.1.AllRegistered? ==> r.0 == db
    ensures r.0 == db.(students := r.0.students)
  {
    if req.students.None? || req.students.value == [] || !Truthy(req.instituteId) then (db, BadRequest)
    else
      var (rows, institute) := (req.students.value, req.instituteId.value);
      var failed := FailuresOf(db, rows, institute);
      if failed != [] then (db, ValidationFailed(failed))
      else
        ValidCoversRows(db, rows, institute);
        (db.(students := Inserted(db.students, ValidOf(db, rows, institute), ids, institute)), AllRegistered)
  }

  /** Every row ends in exactly one of the two arrays. */
  lemma {:induction false} ValidCoversRows(db: Db, rows: seq<BulkRow>, institute: InstituteId)
    ensures |FailuresOf(db, rows, institute)| + |ValidOf(db, rows, institute)| == |rows|
    ensures FailuresOf(db, rows, institute) == [] <==> forall i :: 0 <= i < |rows| ==> CheckRow(db, rows[i], institute).Success?
    ensures FailuresOf(db, rows, institute) == [] ==> forall i :: 0 <= i < |rows| ==>
      ValidOf(db, rows, institute)[i] == (rows[i], CheckRow(db, rows[i], institute).value)
  {
    if rows != [] {
      var n := |rows| - 1;
      ValidCoversRows(db, rows[..n], institute);
      assert forall i :: 0 <= i < n ==> rows[..n][i] == rows[i];
    }
  }

  /** The insert loop adds exactly the new rows and touches no existing student. */
  lemma InsertedRows(students: map<StudentId, Student>, valid: seq<(BulkRow, BranchId)>, ids: seq<StudentId>, institute: InstituteId)
    requires |ids| == |valid| && Distinct(ids)
    requires forall i :: 0 <= i < |ids| ==> ids[i] !in students
    ensures Inserted(students, valid, ids, institute).Keys == students.Keys + Elems(ids)
    ensures forall i :: 0 <= i < |ids| ==>
      Inserted(students, valid, ids, institute)[ids[i]] == Student(valid[i].0.name, valid[i].0.email, institute, valid[i].1)
    ensures forall s :: s in students ==> Inserted(students, valid, ids, institute)[s] == students[s]
  {
    InsertedKeys(students, valid, ids, institute);
    InsertedNew(students, valid, ids, institute);
    InsertedKeeps(students, valid, ids, institute);
  }

  lemma {:induction false} InsertedKeys(students: map<StudentId, Student>, valid: seq<(BulkRow, BranchId)>, ids: seq<StudentId>, institute: InstituteId)
    requires |ids| == |valid|
    ensures Inserted(students, valid, ids, institute).Keys == students.Keys + Elems(ids)
  {
    if valid != [] {
      var n := |valid| - 1;
      InsertedKeys(students, valid[..n], ids[..n], institute);
      ElemsSnoc(ids, n);
      assert ids[..n + 1] == ids;
    }
  }

  lemma {:induction false} InsertedNew(students: map<StudentId, Student>, valid: seq<(BulkRow, BranchId)>, ids: seq<StudentId>, institute: InstituteId)
    requires |ids| == |valid| && Distinct(ids)
    ensures forall i :: 0 <= i < |ids| ==> ids[i] in Inserted(students, valid, ids, institute)
    ensures forall i :: 0 <= i < |ids| ==>
      Inserted(students, valid, ids, institute)[ids[i]] == Student(valid[i].0.name, valid[i].0.email, institute, valid[i].1)
  {
    if valid != [] {
      var n := |valid| - 1;
      var (vs, ids0) := (valid[..n], ids[..n]);
      assert forall i :: 0 <= i < n ==> ids0[i] == ids[i] && vs[i] == valid[i];
      InsertedNew(students, vs, ids0, institute);
      forall i | 0 <= i < n
        ensures ids[i] != ids[n]
      {
      }
    }
  }

  lemma {:induction false} InsertedKeeps(students: map<StudentId, Student>, valid: seq<(BulkRow, BranchId)>, ids: seq<StudentId>, institute: InstituteId)
    requires |ids| == |valid|
    requires forall i :: 0 <= i < |ids| ==> ids[i] !in students
    ensures forall s :: s in students ==> s in Inserted(students, valid, ids, institute)
    ensures forall s :: s in students ==> Inserted(students, valid, ids, institute)[s] == students[s]
  {
    if valid != [] {
      var n := |valid| - 1;
      assert forall i :: 0 <= i < n ==> ids[..n][i] == ids[i];
      InsertedKeeps(students, valid[..n], ids[..n], institute);
    }
  }

  /** The validation loop of `bulkRegisterStudents`: each row either fails with its first reason or joins `valid`. */
  method ValidateRows(db: Db, rows: seq<BulkRow>, institute: InstituteId) returns (failed: seq<RowError>, valid: seq<(BulkRow, BranchId)>)
    ensures failed == FailuresOf(db, rows, institute)
    ensures valid == ValidOf(db, rows, institute)
  {
    failed, valid := [], [];
    for i := 0 to |rows|
      invariant failed == FailuresOf(db, rows[..i], institute)
      invariant valid == ValidOf(db, rows[..i], institute)
    {
      assert rows[..i + 1][..i] == rows[..i];
      var row := rows[i];
      if row.name == "" || row.email == "" || row.password == "" || row.branch == "" {
        failed := failed + [RowError(row.email, MissingRequiredFields)];
        continue;
      }
      if EmailTaken(db, row.email) {
        failed := failed + [RowError(row.email, EmailAlreadyExists)];
        continue;
      }
      var branchId := BranchNamed(db.branches, row.branch, institute);
      if branchId.None? {
        failed := failed + [RowError(row.email, InvalidBranch(row.branch))];
        continue;
      }
      valid := valid + [(row, branchId.value)];
    }
    assert rows[..|rows|] == rows;
  }

  /** The insert loop of `bulkRegisterStudents`, run only when nothing failed. */
  method InsertValid(students0: map<StudentId, Student>, valid: seq<(BulkRow, BranchId)>, ids: seq<StudentId>, institute: InstituteId)
    returns (students: map<StudentId, Student>)
    requires |ids| == |valid|
    ensures students == Inserted(students0, valid, ids, institute)
  {
    students := students0;
    for i := 0 to |valid|
      invariant students == Inserted(students0, valid[..i], ids[..i], institute)
    {
      assert valid[..i + 1][..i] == valid[..i] && ids[..i + 1][..i] == ids[..i];
      students := students[ids[i] := Student(valid[i].0.name, valid[i].0.email, institute, valid[i].1)];
    }
    assert valid[..|valid|] == valid && ids[..|ids|] == ids;
  }

  /** `bulkRegisterStudents`: validate every row, then insert all of them or none. */
  method BulkRegisterStudents(db: Db, req: BulkRequest, ids: seq<StudentId>) returns (db': Db, reply: BulkReply)
    requires FreshIds(db, req, ids)
    ensures (db', reply) == BulkRegister(db, req, ids)
  {
    if req.students.None? || req.students.value == [] || !Truthy(req.instituteId) {
      return db, BadRequest;
    }
    var rows, institute := req.students.value, req.instituteId.value;
    var failed, valid := ValidateRows(db, rows, institute);
    if failed != [] {
      return db, ValidationFailed(failed);
    }
    ValidCoversRows(db, rows, institute);
    var students := InsertValid(db.students, valid, ids, institute);
    return db.(students := students), AllRegistered;
  }

  /**
   * All or nothing: a 409 lists one failure per failing row and writes
   * nothing; a 201 happens only when every row passes, and then every row is
   * inserted with its resolved branch and no existing student changes.
   */
  lemma BulkAllOrNothing(db: Db, req: BulkRequest, ids: seq<StudentId>)
    requires FreshIds(db, req, ids)
    requires req.students.Some? && req.students.value != [] && Truthy(req.instituteId)
    ensures var (r, rows, institute) := (BulkRegister(db, req, ids), req.students.value, req.instituteId.value);
      && (r.1.ValidationFailed? ==>
            && r.0 == db
            && r.1.errors == FailuresOf(db, rows, institute)
            && (exists i :: 0 <= i < |rows| && CheckRow(db, rows[i], institute).Failure?))
      && (r.1 == AllRegistered <==> forall i :: 0 <= i < |rows| ==> CheckRow(db, rows[i], institute).Success?)
      && (r.1 == AllRegistered ==>
            && r.0.students.Keys == db.students.Keys + Elems(ids)
            && (forall i :: 0 <= i < |rows| ==>
                  r.0.students[ids[i]] == Student(rows[i].name, rows[i].email, institute, CheckRow(db, rows[i], institute).value))
            && (forall s :: s in db.students ==> r.0.students[s] == db.students[s]))
  {
    var (rows, institute) := (req.students.value, req.instituteId.value);
    var r := BulkRegister(db, req, ids);
    ValidCoversRows(db, rows, institute);
    var failed := FailuresOf(db, rows, institute);
    if failed != [] {
      assert r == (db, ValidationFailed(failed));
    } else {
      var valid := ValidOf(db, rows, institute);
      assert r == (db.(students := Inserted(db.students, valid, ids, institute)), AllRegistered);
      InsertedRows(db.students, valid, ids, institute);
      forall i | 0 <= i < |rows|
        ensures r.0.students[ids[i]] == Student(rows[i].name, rows[i].email, institute, CheckRow(db, rows[i], institute).value)
      {
        assert valid[i] == (rows[i], CheckRow(db, rows[i], institute).value);
      }
    }
  }

  // ---------------------------------------------------------------------------
  // The refresh-token store: generateRefreshToken, refreshAccessToken, logoutUser

  type Tokens = map<(UserId, string), string>

  /** `INSERT ... ON CONFLICT (user_id, user_type) DO UPDATE SET token = EXCLUDED.token`. */
  function StoreRefreshToken(tokens: Tokens, user: UserId, userType: string, token: string): (r: Tokens)
    ensures r.Keys == tokens.Keys + {(user, userType)}
    ensures r[(user, userType)] == token
    ensures forall k :: k in tokens && k != (user, userType) ==> r[k] == tokens[k]
  {
    Upsert(tokens, (user, userType), token)
  }

  datatype RefreshReply =
    | MissingToken
      /** 403 from the catch: the signature or expiry check threw. */
    | InvalidOrExpired
      /** 403: no stored row for (payload user, token, type). */
    | InvalidToken
    | Refreshed(user: UserId)

  /**
   * `refreshAccessToken`. The JWT check is not modelled: `verified` is the id
   * in the token's payload when the signature and expiry check out, None when
   * `jwt.verify` throws.
   */
  function RefreshAccessToken(tokens: Tokens, refreshToken: string, userType: string, verified: Option<UserId>): (r: RefreshReply)
    ensures r == MissingToken <==> refreshToken == "" || userType == ""
    ensures r == InvalidOrExpired <==> refreshToken != "" && userType != "" && verified.None?
    ensures r.Refreshed? <==>
      && refreshToken != "" && userType != "" && verified.Some?
      && (verified.value, userType) in tokens && tokens[(verified.value, userType)] == refreshToken
    ensures r.Refreshed? ==> r.user == verified.value
  {
    if refreshToken == "" || userType == "" then MissingToken
    else if verified.None? then InvalidOrExpired
    else if (verified.value, userType) in tokens && tokens[(verified.value, userType)] == refreshToken then Refreshed(verified.value)
    else InvalidToken
  }

  datatype LogoutReply = LogoutMissingToken | LoggedOut

  /** `logoutUser`: `DELETE FROM refresh_tokens WHERE token = $1 AND user_type = $2`, whoever holds it. */
  function Logout(tokens: Tokens, refreshToken: string, userType: string): (r: (Tokens, LogoutReply))
    ensures r.1 == LogoutMissingToken <==> refreshToken == "" || userType == ""
    ensures r.1 == LogoutMissingToken ==> r.0 == tokens
    ensures r.1 == LoggedOut ==>
      && (forall k :: k in r.0 <==> k in tokens && !(k.1 == userType && tokens[k] == refreshToken))
      && (forall k :: k in r.0 ==> r.0[k] == tokens[k])
  {
    if refreshToken == "" || userType == "" then (tokens, LogoutMissingToken)
    else (map k | k in tokens && !(k.1 == userType && tokens[k] == refreshToken) :: tokens[k], LoggedOut)
  }

  /** Issuing a new token for a (user, type) pair invalidates the one it replaces. */
  lemma RotationInvalidatesOld(tokens: Tokens, user: UserId, userType: string, previous: string, next: string)
    requires previous != next && previous != "" && userType != ""
    ensures RefreshAccessToken(StoreRefreshToken(tokens, user, userType, next), previous, userType, Some(user)) == InvalidToken
    ensures next != "" ==> RefreshAccessToken(StoreRefreshToken(tokens, user, userType, next), next, userType, Some(user)) == Refreshed(user)
  {
  }

  /** After a logout no refresh with that token and type succeeds, for any user the token names. */
  lemma RefreshAfterLogoutFails(tokens: Tokens, refreshToken: string, userType: string, verified: Option<UserId>)
    requires refreshToken != "" && userType != ""
    ensures !RefreshAccessToken(Logout(tokens, refreshToken, userType).0, refreshToken, userType, verified).Refreshed?
  {
  }

  // ---------------------------------------------------------------------------
  // getStudentResults

  /** An element of `exams` in `getStudentResults`. */
  datatype ResultView = ResultView(
    title: string,
    scheduledDate: Option<Time>,
    durationMin: Option<int>,
    passPercentage: Option<int>,
    isEnabled: Option<bool>,
    score: Option<int>,
    totalMarks: Option<int>,
    status: Option<string>,
    submittedAt: Option<Time>,
    resultLocked: bool)

  /** The `CASE WHEN e.result_locked` projection of one submitted row and its LEFT JOINed ledger row. */
  function ResultViewOf(exam: Exam, row: Assignment, result: Option<ResultRow>): (v: ResultView)
    ensures v.title == exam.title && v.scheduledDate == exam.scheduledDate && v.resultLocked == exam.resultLocked
    ensures v.submittedAt == (if result.Some? then Some(result.value.submittedAt) else None)
    ensures exam.resultLocked ==>
      && v.durationMin.None? && v.passPercentage.None? && v.isEnabled.None?
      && v.score.None? && v.totalMarks.None? && v.status == Some("Pending")
    ensures !exam.resultLocked ==>
      && v.durationMin == exam.durationMin && v.passPercentage == exam.passPercentage
      && v.isEnabled == Some(row.isEnabled) && v.totalMarks == Some(exam.totalMarks)
      && v.score == (if result.Some? then Some(result.value.score) else None)
      && v.status == (if result.Some? then Some(StatusText(result.value.status)) else None)
  {
    var locked := exam.resultLocked;
    var (score, status, at) :=
      if result.Some? then (Some(result.value.score), Some(StatusText(result.value.status)), Some(result.value.submittedAt))
      else (None, None, None);
    ResultView(
      exam.title, exam.scheduledDate,
      if locked then None else exam.durationMin,
      if locked then None else exam.passPercentage,
      if locked then None else Some(row.isEnabled),
      if locked then None else score,
      if locked then None else Some(exam.totalMarks),
      if locked then Some("Pending") else status,
      at, locked)
  }

  datatype ResultsReply =
    | ResultsMissingStudentId
      /** No student row or no submitted enrollment: the grouped query yields no row and the body is empty. */
    | NoBody
    | Listing(exams: map<ExamId, ResultView>)

  /** The student's submitted enrollments that join an exam. */
  predicate SubmittedEnrollment(db: Db, s: StudentId, e: ExamId) {
    e in db.exams && (e, s) in db.examStudent && db.examStudent[(e, s)].hasSubmitted == Some(true)
  }

  function LedgerRow(db: Db, s: StudentId, e: ExamId): Option<ResultRow> {
    if (s, e) in db.results then Some(db.results[(s, e)]) else None
  }

  /** `getStudentResults`: only submitted enrollments are listed, each through the lock projection. */
  function StudentResults(db: Db, studentId: Option<StudentId>): (r: ResultsReply)
    ensures r == ResultsMissingStudentId <==> studentId.None?
    ensures r.Listing? ==>
      && studentId.value in db.students
      && (forall e :: e in r.exams <==> SubmittedEnrollment(db, studentId.value, e))
      && (forall e :: e in r.exams ==>
            r.exams[e] == ResultViewOf(db.exams[e], db.examStudent[(e, studentId.value)], LedgerRow(db, studentId.value, e)))
    ensures r == NoBody <==> studentId.Some? && (studentId.value !in db.students || forall e :: !SubmittedEnrollment(db, studentId.value, e))
  {
    if studentId.None? then ResultsMissingStudentId
    else
      var s := studentId.value;
      var listed := map e | e in db.exams && SubmittedEnrollment(db, s, e) :: ResultViewOf(db.exams[e], db.examStudent[(e, s)], LedgerRow(db, s, e));
      if s !in db.students || forall e | e in db.exams :: !SubmittedEnrollment(db, s, e) then NoBody
      else Listing(listed)
  }

  /**
   * The lock hides the grade: while an exam is locked, two ledgers that agree
   * on the submission time give the same view, whatever score and status they
   * hold.
   */
  lemma LockedViewHidesGrade(exam: Exam, row: Assignment, r1: ResultRow, r2: ResultRow)
    requires exam.resultLocked && r1.submittedAt == r2.submittedAt
    ensures ResultViewOf(exam, row, Some(r1)) == ResultViewOf(exam, row, Some(r2))
  {
  }

  // ---------------------------------------------------------------------------
  // getAllStudentExams

  /** The masked fields of an element of `exams` in `getAllStudentExams`. */
  datatype EnrollmentView = EnrollmentView(hasSubmitted: Option<bool>, score: Option<int>, status: Option<string>, submittedAt: Option<Time>, resultLocked: Option<bool>)

  /**
   * The projection of one enrollment row, its LEFT JOINed exam (None when the
   * exam row is missing, so `result_locked` is NULL) and a LEFT JOINed row of
   * the older `results` table. `NOT NULL` is NULL in SQL, so a NULL submitted
   * flag does not mask the status.
   */
  function EnrollmentViewOf(row: Assignment, exam: Option<Exam>, legacy: Option<LegacyResult>): (v: EnrollmentView)
    ensures var locked := if exam.Some? then Some(exam.value.resultLocked) else None;
      && v.resultLocked == locked && v.hasSubmitted == row.hasSubmitted
      && (row.hasSubmitted == Some(false) || locked == Some(true) ==> v.status == Some("Pending"))
      && (row.hasSubmitted != Some(false) && locked != Some(true) ==> v.status == (if legacy.Some? then legacy.value.status else None))
      && (locked == Some(true) ==> v.score.None?)
      && (locked != Some(true) ==> v.score == (if legacy.Some? then legacy.value.score else None))
      && v.submittedAt == (if legacy.Some? then legacy.value.createdAt else None)
  {
    var locked := if exam.Some? then Some(exam.value.resultLocked) else None;
    var (score, status, at) := if legacy.Some? then (legacy.value.score, legacy.value.status, legacy.value.createdAt) else (None, None, None);
    var shown :=
      if row.hasSubmitted == Some(false) then Some("Pending")
      else if locked == Some(true) then Some("Pending")
      else status;
    EnrollmentView(row.hasSubmitted, if locked == Some(true) then None else score, shown, at, locked)
  }

  /**
   * The ledger behind a locked exam does not show through: whatever score and
   * status the older `results` row holds, the view is the same once the row's
   * timestamp agrees.
   */
  lemma LockedEnrollmentHidesGrade(row: Assignment, exam: Exam, l1: LegacyResult, l2: LegacyResult)
    requires exam.resultLocked && l1.createdAt == l2.createdAt
    ensures EnrollmentViewOf(row, Some(exam), Some(l1)) == EnrollmentViewOf(row, Some(exam), Some(l2))
    ensures EnrollmentViewOf(row, Some(exam), Some(l1)).status == Some("Pending")
  {
  }
}
