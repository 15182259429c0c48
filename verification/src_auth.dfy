/**
 * The older revision in src/controllers/auth.controller.ts, where its text
 * differs from the newer one: the fail-fast bulk registration, the add-only
 * `enableExamToBranches`, and the `submitted` filter of `getAllStudentExams`.
 *
 * This revision runs against an older schema: a student row carries a branch
 * NAME in the text column `branch` next to the nullable `branch_id`, and the
 * enrollments live in `student_exam_enrollments`, keyed by (student, exam).
 */
module SrcAuth {
  import opened Wrappers
  import opened Schema
  import opened Collections

  /** A row of `students` in the older schema. */
  datatype SrcStudent = SrcStudent(name: string, email: string, institute: InstituteId, branch: string, branchId: Option<BranchId>)

  /** A row of `student_exam_enrollments`. */
  datatype Enrollment = Enrollment(isEnabled: bool, hasSubmitted: Option<bool>)

  datatype SrcDb = SrcDb(
    students: map<StudentId, SrcStudent>,
    examBranch: map<(ExamId, BranchId), bool>,
    enrollments: map<(StudentId, ExamId), Enrollment>)

  /** The column default of `exam_branch_assignments.is_enabled` this model assumes. */
  const BranchRowEnabledDefault: bool := true

  /** The branch name written when a row has none. */
  const DefaultBranch: string := "General"

  // ---------------------------------------------------------------------------
  // bulkRegisterStudents, fail-fast

  /** One element of `students`; a missing or non-string field is ''. */
  datatype SrcRow = SrcRow(name: string, email: string, password: string, branch: string)

  datatype SrcBulkRequest = SrcBulkRequest(students: Option<seq<SrcRow>>, instituteId: Option<InstituteId>)

  datatype SrcBulkReply =
    | SrcBadRequest
      /** 500 `{ reason }` after ROLLBACK. */
    | Aborted(reason: string)
      /** 201 after COMMIT. */
    | AllInserted

  function DuplicateReason(email: string): string {
    "Duplicate email found: " + email
  }

  /** The template interpolates a missing email, modelled as '', as the text 'undefined'. */
  function MissingReason(email: string): string {
    "Missing required fields for " + (if email == "" then "undefined" else email)
  }

  predicate EmailTaken(db: SrcDb, email: string) {
    exists s :: s in db.students && db.students[s].email == email
  }

  /** `!name || !email || !password`; the branch may be missing. */
  predicate Incomplete(row: SrcRow) {
    row.name == "" || row.email == "" || row.password == ""
  }

  /** The first row from `k` on whose email is already registered. */
  function FirstDuplicateFrom(db: SrcDb, rows: seq<SrcRow>, k: nat): (r: Option<nat>)
    requires k <= |rows|
    decreases |rows| - k
    ensures r.Some? ==> k <= r.value < |rows| && EmailTaken(db, rows[r.value].email)
    ensures r.Some? ==> forall j :: k <= j < r.value ==> !EmailTaken(db, rows[j].email)
    ensures r.None? ==> forall j :: k <= j < |rows| ==> !EmailTaken(db, rows[j].email)
  {
    if k == |rows| then None
    else if EmailTaken(db, rows[k].email) then Some(k)
    else FirstDuplicateFrom(db, rows, k + 1)
  }

  /** The first row from `k` on that lacks a name, an email or a password. */
  function FirstIncompleteFrom(rows: seq<SrcRow>, k: nat): (r: Option<nat>)
    requires k <= |rows|
    decreases |rows| - k
    ensures r.Some? ==> k <= r.value < |rows| && Incomplete(rows[r.value])
    ensures r.Some? ==> forall j :: k <= j < r.value ==> !Incomplete(rows[j])
    ensures r.None? ==> forall j :: k <= j < |rows| ==> !Incomplete(rows[j])
  {
    if k == |rows| then None
    else if Incomplete(rows[k]) then Some(k)
    else FirstIncompleteFrom(rows, k + 1)
  }

  /** The row inserted for a complete request row: `branch || 'General'`, no `branch_id`. */
  function NewStudent(row: SrcRow, institute: InstituteId): SrcStudent {
    SrcStudent(row.name, row.email, institute, if row.branch == "" then DefaultBranch else row.branch, None)
  }

  /** The insert loop: the row `rows[i]` gets the fresh id `ids[i]`. */
  function SrcInserted(students: map<StudentId, SrcStudent>, rows: seq<SrcRow>, ids: seq<StudentId>, institute: InstituteId)
    : map<StudentId, SrcStudent>
    requires |ids| == |rows|
  {
    if rows == [] then students
    else
      var n := |rows| - 1;
      SrcInserted(students, rows[..n], ids[..n], institute)[ids[n] := NewStudent(rows[n], institute)]
  }

  predicate SrcFreshIds(db: SrcDb, req: SrcBulkRequest, ids: seq<StudentId>) {
    && (req.students.Some? ==> |ids| == |req.students.value|)
    && Distinct(ids)
    && forall i :: 0 <= i < |ids| ==> ids[i] !in db.students
  }

  /**
   * The whole transaction: the duplicate check runs over every row first and
   * the first duplicate aborts; then the first incomplete row aborts; any
   * abort rolls back every insert of the batch.
   */
  function SrcBulkRegister(db: SrcDb, req: SrcBulkRequest, ids: seq<StudentId>): (r: (SrcDb, SrcBulkReply))
    requires SrcFreshIds(db, req, ids)
    ensures r.1 == SrcBadRequest <==> req.students.None? || req.students.value == [] || !Truthy(req.instituteId)
    ensures !r.1.AllInserted? ==> r.0 == db
    ensures r.0 == db.(students := r.0.students)
  {
    if req.students.None? || req.students.value == [] || !Truthy(req.instituteId) then (db, SrcBadRequest)
    else
      var (rows, institute) := (req.students.value, req.instituteId.value);
      match FirstDuplicateFrom(db, rows, 0)
      case Some(i) => (db, Aborted(DuplicateReason(rows[i].email)))
      case None =>
        match FirstIncompleteFrom(rows, 0)
        case Some(i) => (db, Aborted(MissingReason(rows[i].email)))
        case None => (db.(students := SrcInserted(db.students, rows, ids, institute)), AllInserted)
  }

  /** The pre-check loop: the first row whose email is taken, or None. */
  method FindDuplicate(db: SrcDb, rows: seq<SrcRow>) returns (r: Option<nat>)
    ensures r == FirstDuplicateFrom(db, rows, 0)
  {
    var i := 0;
    while i < |rows|
      invariant 0 <= i <= |rows|
      invariant FirstDuplicateFrom(db, rows, i) == FirstDuplicateFrom(db, rows, 0)
    {
      if EmailTaken(db, rows[i].email) {
        return Some(i);
      }
      i := i + 1;
    }
    return None;
  }

  /** The insert loop, which throws at the first incomplete row; `failedAt` is that row. */
  method InsertRows(students0: map<StudentId, SrcStudent>, rows: seq<SrcRow>, ids: seq<StudentId>, institute: InstituteId)
    returns (students: map<StudentId, SrcStudent>, failedAt: Option<nat>)
    requires |ids| == |rows|
    ensures failedAt == FirstIncompleteFrom(rows, 0)
    ensures failedAt.None? ==> students == SrcInserted(students0, rows, ids, institute)
  {
    students := students0;
    assert rows[..0] == [] && ids[..0] == [];
    var i := 0;
    while i < |rows|
      invariant 0 <= i <= |rows|
      invariant FirstIncompleteFrom(rows, i) == FirstIncompleteFrom(rows, 0)
      invariant students == SrcInserted(students0, rows[..i], ids[..i], institute)
    {
      var row := rows[i];
      if row.name == "" || row.email == "" || row.password == "" {
        return students, Some(i);
      }
      assert rows[..i + 1][..i] == rows[..i] && ids[..i + 1][..i] == ids[..i];
      students := students[ids[i] := NewStudent(row, institute)];
      i := i + 1;
    }
    assert rows[..|rows|] == rows && ids[..|ids|] == ids;
    return students, None;
  }

  /** `bulkRegisterStudents` of the older revision. */
  method BulkRegisterStudents(db: SrcDb, req: SrcBulkRequest, ids: seq<StudentId>) returns (db': SrcDb, reply: SrcBulkReply)
    requires SrcFreshIds(db, req, ids)
    ensures (db', reply) == SrcBulkRegister(db, req, ids)
  {
    if req.students.None? || req.students.value == [] || !Truthy(req.instituteId) {
      return db, SrcBadRequest;
    }
    var rows, institute := req.students.value, req.instituteId.value;
    var duplicate := FindDuplicate(db, rows);
    if duplicate.Some? {
      return db, Aborted(DuplicateReason(rows[duplicate.value].email));
    }
    var students, failedAt := InsertRows(db.students, rows, ids, institute);
    if failedAt.Some? {
      // ROLLBACK discards the rows inserted so far
      return db, Aborted(MissingReason(rows[failedAt.value].email));
    }
    return db.(students := students), AllInserted;
  }

  /** The insert loop adds exactly the batch and keeps every existing student. */
  lemma SrcInsertedRows(students: map<StudentId, SrcStudent>, rows: seq<SrcRow>, ids: seq<StudentId>, institute: InstituteId)
    requires |ids| == |rows| && Distinct(ids)
    requires forall i :: 0 <= i < |ids| ==> ids[i] !in students
    ensures SrcInserted(students, rows, ids, institute).Keys == students.Keys + Elems(ids)
    ensures forall i :: 0 <= i < |ids| ==> SrcInserted(students, rows, ids, institute)[ids[i]] == NewStudent(rows[i], institute)
    ensures forall s :: s in students ==> SrcInserted(students, rows, ids, institute)[s] == students[s]
  {
    SrcInsertedKeys(students, rows, ids, institute);
    SrcInsertedNew(students, rows, ids, institute);
    SrcInsertedKeeps(students, rows, ids, institute);
  }

  lemma {:induction false} SrcInsertedKeys(students: map<StudentId, SrcStudent>, rows: seq<SrcRow>, ids: seq<StudentId>, institute: InstituteId)
    requires |ids| == |rows|
    ensures SrcInserted(students, rows, ids, institute).Keys == students.Keys + Elems(ids)
  {
    if rows != [] {
      var n := |rows| - 1;
      SrcInsertedKeys(students, rows[..n], ids[..n], institute);
      ElemsSnoc(ids, n);
      assert ids[..n + 1] == ids;
    }
  }

  lemma {:induction false} SrcInsertedNew(students: map<StudentId, SrcStudent>, rows: seq<SrcRow>, ids: seq<StudentId>, institute: InstituteId)
    requires |ids| == |rows| && Distinct(ids)
    ensures forall i :: 0 <= i < |ids| ==> ids[i] in SrcInserted(students, rows, ids, institute)
    ensures forall i :: 0 <= i < |ids| ==> SrcInserted(students, rows, ids, institute)[ids[i]] == NewStudent(rows[i], institute)
  {
    if rows != [] {
      var n := |rows| - 1;
      var (rs, ids0) := (rows[..n], ids[..n]);
      assert forall i :: 0 <= i < n ==> ids0[i] == ids[i] && rs[i] == rows[i];
      SrcInsertedNew(students, rs, ids0, institute);
      forall i | 0 <= i < n
        ensures ids[i] != ids[n]
      {
      }
    }
  }

  lemma {:induction false} SrcInsertedKeeps(students: map<StudentId, SrcStudent>, rows: seq<SrcRow>, ids: seq<StudentId>, institute: InstituteId)
    requires |ids| == |rows|
    requires forall i :: 0 <= i < |ids| ==> ids[i] !in students
    ensures forall s :: s in students ==> s in SrcInserted(students, rows, ids, institute)
    ensures forall s :: s in students ==> SrcInserted(students, rows, ids, institute)[s] == students[s]
  {
    if rows != [] {
      var n := |rows| - 1;
      assert forall i :: 0 <= i < n ==> ids[..n][i] == ids[i];
      SrcInsertedKeeps(students, rows[..n], ids[..n], institute);
    }
  }

  /**
   * Fail-fast, all or nothing: a duplicate anywhere in the batch is reported
   * before any missing field, even one on an earlier row; every abort leaves
   * the store as it was; a commit inserts every row, with 'General' for a
   * missing branch.
   */
  lemma FailFastAllOrNothing(db: SrcDb, req: SrcBulkRequest, ids: seq<StudentId>)
    requires SrcFreshIds(db, req, ids)
    requires req.students.Some? && req.students.value != [] && Truthy(req.instituteId)
    ensures var (r, rows, institute) := (SrcBulkRegister(db, req, ids), req.students.value, req.instituteId.value);
      && ((exists i :: 0 <= i < |rows| && EmailTaken(db, rows[i].email)) ==>
            r.1.Aborted? && r.1.reason == DuplicateReason(rows[FirstDuplicateFrom(db, rows, 0).value].email))
      && (r.1 == AllInserted <==> forall i :: 0 <= i < |rows| ==> !EmailTaken(db, rows[i].email) && !Incomplete(rows[i]))
      && (r.1.Aborted? ==> r.0 == db)
      && (r.1 == AllInserted ==>
            && r.0.students.Keys == db.students.Keys + Elems(ids)
            && (forall i :: 0 <= i < |rows| ==> r.0.students[ids[i]].branch == (if rows[i].branch == "" then DefaultBranch else rows[i].branch))
            && (forall i :: 0 <= i < |rows| ==> r.0.students[ids[i]] == NewStudent(rows[i], institute))
            && (forall s :: s in db.students ==> r.0.students[s] == db.students[s]))
  {
    var (rows, institute) := (req.students.value, req.instituteId.value);
    if FirstDuplicateFrom(db, rows, 0).None? && FirstIncompleteFrom(rows, 0).None? {
      SrcInsertedRows(db.students, rows, ids, institute);
    }
  }

  // ---------------------------------------------------------------------------
  // enableExamToBranches

  datatype EnableRequest = EnableRequest(examId: Option<ExamId>, branchIds: Option<seq<BranchId>>)

  datatype EnableReply = EnableBadRequest | Enabled

  /** `INSERT INTO exam_branch_assignments ... ON CONFLICT DO NOTHING` for the branches `bs`. */
  function AddBranchRows(rows: map<(ExamId, BranchId), bool>, e: ExamId, bs: set<BranchId>): map<(ExamId, BranchId), bool> {
    map k | k in rows.Keys + (set b | b in bs :: (e, b)) :: if k in rows then rows[k] else BranchRowEnabledDefault
  }

  /** `SELECT id FROM students WHERE branch_id = ANY($1)`. */
  function StudentsOfBranches(db: SrcDb, bs: set<BranchId>): set<StudentId> {
    set s | s in db.students && db.students[s].branchId.Some? && db.students[s].branchId.value in bs
  }

  /** `INSERT ... VALUES (s, e, true) ON CONFLICT DO UPDATE SET is_enabled = true` for the students `ss`. */
  function EnableEnrollments(rows: map<(StudentId, ExamId), Enrollment>, e: ExamId, ss: set<StudentId>): map<(StudentId, ExamId), Enrollment> {
    map k | k in rows.Keys + (set s | s in ss :: (s, e)) ::
      if k in rows then (if k.1 == e && k.0 in ss then rows[k].(isEnabled := true) else rows[k])
      else Enrollment(true, HasSubmittedDefault)
  }

  /** The whole transaction of `enableExamToBranches`. */
  function EnableBranches(db: SrcDb, req: EnableRequest): (r: (SrcDb, EnableReply))
    ensures r.1 == EnableBadRequest <==> !Truthy(req.examId) || req.branchIds.None? || req.branchIds.value == []
    ensures r.1 == EnableBadRequest ==> r.0 == db
    ensures r.0.students == db.students
  {
    if !Truthy(req.examId) || req.branchIds.None? || req.branchIds.value == [] then (db, EnableBadRequest)
    else
      var (e, bs) := (req.examId.value, Elems(req.branchIds.value));
      (db.(examBranch := AddBranchRows(db.examBranch, e, bs), enrollments := EnableEnrollments(db.enrollments, e, StudentsOfBranches(db, bs))), Enabled)
  }

  lemma {:induction false} AddBranchRowsStep(rows: map<(ExamId, BranchId), bool>, e: ExamId, bs: set<BranchId>, b: BranchId)
    ensures AddBranchRows(AddBranchRows(rows, e, bs), e, {b}) == AddBranchRows(rows, e, bs + {b})
  {
    var lhs, rhs := AddBranchRows(AddBranchRows(rows, e, bs), e, {b}), AddBranchRows(rows, e, bs + {b});
    assert forall k :: k in lhs <==> k in rhs;
  }

  lemma {:induction false} EnableEnrollmentsStep(rows: map<(StudentId, ExamId), Enrollment>, e: ExamId, ss: set<StudentId>, s: StudentId)
    ensures EnableEnrollments(EnableEnrollments(rows, e, ss), e, {s}) == EnableEnrollments(rows, e, ss + {s})
  {
    var mid := EnableEnrollments(rows, e, ss);
    var lhs, rhs := EnableEnrollments(mid, e, {s}), EnableEnrollments(rows, e, ss + {s});
    assert forall k :: k in lhs <==> k in rhs;
    forall k | k in lhs
      ensures lhs[k] == rhs[k]
    {
      if k !in rows && k in mid {
        assert mid[k] == Enrollment(true, HasSubmittedDefault);
      }
    }
  }

  /** The branch loop, one `DO NOTHING` insert per listed id. */
  method AddBranches(rows0: map<(ExamId, BranchId), bool>, e: ExamId, branchIds: seq<BranchId>) returns (rows: map<(ExamId, BranchId), bool>)
    ensures rows == AddBranchRows(rows0, e, Elems(branchIds))
  {
    rows := rows0;
    assert Elems(branchIds[..0]) == {};
    assert rows == AddBranchRows(rows0, e, {});
    for i := 0 to |branchIds|
      invariant rows == AddBranchRows(rows0, e, Elems(branchIds[..i]))
    {
      AddBranchRowsStep(rows0, e, Elems(branchIds[..i]), branchIds[i]);
      ElemsSnoc(branchIds, i);
      rows := AddBranchRows(rows, e, {branchIds[i]});
    }
    assert branchIds[..|branchIds|] == branchIds;
  }

  /** The enrollment loop over the selected students, in whatever order the store returns them. */
  method EnableStudents(rows0: map<(StudentId, ExamId), Enrollment>, e: ExamId, studentIds: set<StudentId>) returns (rows: map<(StudentId, ExamId), Enrollment>)
    ensures rows == EnableEnrollments(rows0, e, studentIds)
  {
    rows := rows0;
    var left, done := studentIds, {};
    assert rows == EnableEnrollments(rows0, e, {});
    while left != {}
      invariant left + done == studentIds
      invariant rows == EnableEnrollments(rows0, e, done)
      decreases |left|
    {
      var s := Pick(left);
      EnableEnrollmentsStep(rows0, e, done, s);
      rows := EnableEnrollments(rows, e, {s});
      left, done := left - {s}, done + {s};
    }
  }

  /** `enableExamToBranches`: the branch loop, the student query, then the enrollment loop. */
  method EnableExamToBranches(db: SrcDb, req: EnableRequest) returns (db': SrcDb, reply: EnableReply)
    ensures (db', reply) == EnableBranches(db, req)
  {
    if !Truthy(req.examId) || req.branchIds.None? || req.branchIds.value == [] {
      return db, EnableBadRequest;
    }
    var e, branchIds := req.examId.value, req.branchIds.value;
    var branchRows := AddBranches(db.examBranch, e, branchIds);
    var studentIds := StudentsOfBranches(db, Elems(branchIds));
    var enrollments := EnableStudents(db.enrollments, e, studentIds);
    return db.(examBranch := branchRows, enrollments := enrollments), Enabled;
  }

  /**
   * Add-only: every listed branch has a row, existing branch rows keep their
   * flag, every student of a listed branch ends enabled for the exam, no row
   * disappears, no enabled row is disabled, and rows of other students and
   * other exams are unchanged.
   */
  lemma EnableOnlyAdds(db: SrcDb, req: EnableRequest)
    ensures var r := EnableBranches(db, req);
      r.1 == Enabled ==>
      var (e, bs) := (req.examId.value, Elems(req.branchIds.value));
      && (forall b :: b in bs ==> (e, b) in r.0.examBranch)
      && (forall k :: k in db.examBranch ==> k in r.0.examBranch && r.0.examBranch[k] == db.examBranch[k])
      && (forall s :: s in StudentsOfBranches(db, bs) ==> (s, e) in r.0.enrollments && r.0.enrollments[(s, e)].isEnabled)
      && (forall k :: k in db.enrollments ==> k in r.0.enrollments)
      && (forall k :: k in db.enrollments && db.enrollments[k].isEnabled ==> r.0.enrollments[k].isEnabled)
      && (forall k :: k in db.enrollments ==> r.0.enrollments[k].hasSubmitted == db.enrollments[k].hasSubmitted)
      && (forall k :: k in db.enrollments && (k.1 != e || k.0 !in StudentsOfBranches(db, bs)) ==> r.0.enrollments[k] == db.enrollments[k])
  {
    var r := EnableBranches(db, req);
    if r.1 == Enabled {
      var (e, bs) := (req.examId.value, Elems(req.branchIds.value));
      forall b | b in bs
        ensures (e, b) in r.0.examBranch
      {
        assert (e, b) in (set b' | b' in bs :: (e, b'));
      }
      forall s | s in StudentsOfBranches(db, bs)
        ensures (s, e) in r.0.enrollments
      {
        assert (s, e) in (set s' | s' in StudentsOfBranches(db, bs) :: (s', e));
      }
    }
  }

  // ---------------------------------------------------------------------------
  // getAllStudentExams

  /**
   * The enrollments the listing joins: the student's rows of
   * `student_exam_enrollments`, restricted to `has_submitted = true` when the
   * query parameter `submitted` is the text 'true'.
   */
  function ListedEnrollments(db: SrcDb, s: StudentId, submitted: Option<string>): (r: set<ExamId>)
    ensures forall e :: e in r <==> (s, e) in db.enrollments && (submitted == Some("true") ==> db.enrollments[(s, e)].hasSubmitted == Some(true))
  {
    set k | k in db.enrollments && k.0 == s && (submitted == Some("true") ==> db.enrollments[k].hasSubmitted == Some(true)) :: k.1
  }

  /**
   * The filter only narrows: with `submitted=true` the listing is the submitted
   * part of the unfiltered one; any other value (or none) lists every enrollment.
   */
  lemma SubmittedFilterNarrows(db: SrcDb, s: StudentId, submitted: Option<string>)
    ensures ListedEnrollments(db, s, submitted) <= ListedEnrollments(db, s, None)
    ensures submitted != Some("true") ==> ListedEnrollments(db, s, submitted) == ListedEnrollments(db, s, None)
    ensures ListedEnrollments(db, s, Some("true")) ==
      set e | e in ListedEnrollments(db, s, None) && db.enrollments[(s, e)].hasSubmitted == Some(true)
  {
  }
}
