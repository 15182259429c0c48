/**
 * The assignment state machine of dist/controllers/auth.controller.js: the two
 * reconciliations an institute runs (`assignExamToBranches`,
 * `assignExamToStudents`), and the read side a student sees (the status CASE,
 * the visibility rule of `getStudentExams` and the counters of
 * `getStudentProfileById`).
 *
 * Each reconciliation is a set difference between the ids already assigned and
 * the ids sent, applied in one transaction. It is written as a method that
 * issues one statement per id, as the handler does, and proved equal to a
 * closed-form transition whose consequences are the lemmas below.
 */
module DistAssignments {
  import opened Wrappers
  import opened Schema
  import opened Collections
  import Text

  datatype Reply = BadRequest | Updated

  // ---------------------------------------------------------------------------
  // assignExamToBranches

  /** The body `{ examId, branchIds }`. */
  datatype BranchAssignment = BranchAssignment(examId: Option<ExamId>, branchIds: Option<seq<BranchId>>)

  /** The student exists and belongs to one of the branches. */
  predicate InBranches(students: map<StudentId, Student>, s: StudentId, bs: set<BranchId>) {
    s in students && students[s].branch in bs
  }

  /** `SELECT branch_id FROM exam_branch_assignments WHERE exam_id = $1`, enabled or not. */
  function AssignedBranches(db: Db, e: ExamId): set<BranchId> {
    set k | k in db.examBranch && k.0 == e :: k.1
  }

  /**
   * The row a student of an incoming branch ends with: an existing row is
   * re-enabled and its stamp cleared whatever its origin; a new row is enabled
   * and tagged 'branch'.
   */
  function Reenabled(row: Option<Assignment>): (a: Assignment)
    ensures a.isEnabled && a.disabledAt.None?
    ensures row.Some? ==> a.origin == row.value.origin && a.hasSubmitted == row.value.hasSubmitted
    ensures row.None? ==> a.origin == FromBranch && a.hasSubmitted == HasSubmittedDefault
  {
    match row
    case Some(r) => r.(isEnabled := true, disabledAt := None)
    case None => Assignment(true, HasSubmittedDefault, FromBranch, None)
  }

  /** The branch upserts `ON CONFLICT (exam_id, branch_id) DO UPDATE SET is_enabled = true` for the branches `bs`. */
  function EnableBranchRows(rows: map<(ExamId, BranchId), bool>, e: ExamId, bs: set<BranchId>): map<(ExamId, BranchId), bool> {
    map k | k in rows.Keys + (set b | b in bs :: (e, b)) :: if k.0 == e && k.1 in bs then true else rows[k]
  }

  /** `UPDATE exam_branch_assignments SET is_enabled = false` for the branches `bs`. */
  function DisableBranchRows(rows: map<(ExamId, BranchId), bool>, e: ExamId, bs: set<BranchId>): map<(ExamId, BranchId), bool> {
    map k | k in rows :: if k.0 == e && k.1 in bs then false else rows[k]
  }

  /** The student upserts `INSERT ... SELECT ... FROM students WHERE branch_id = $2 ON CONFLICT DO UPDATE` for the branches `bs`. */
  function EnableStudentRows(rows: map<(ExamId, StudentId), Assignment>, students: map<StudentId, Student>, e: ExamId, bs: set<BranchId>)
    : map<(ExamId, StudentId), Assignment>
  {
    map k | k in rows.Keys + (set s | s in students && students[s].branch in bs :: (e, s)) ::
      if k.0 == e && InBranches(students, k.1, bs) then Reenabled(if k in rows then Some(rows[k]) else None) else rows[k]
  }

  /** `UPDATE exam_student_assignments SET is_enabled = false, disabled_at = now() ... AND assigned_from = 'branch'` for the branches `bs`. */
  function DisableStudentRows(rows: map<(ExamId, StudentId), Assignment>, students: map<StudentId, Student>, e: ExamId, bs: set<BranchId>, now: Time)
    : map<(ExamId, StudentId), Assignment>
  {
    map k | k in rows ::
      if k.0 == e && InBranches(students, k.1, bs) && rows[k].origin == FromBranch
      then rows[k].(isEnabled := false, disabledAt := Some(now))
      else rows[k]
  }

  /** The whole transaction of `assignExamToBranches`: enable every incoming branch, then disable every other assigned one. */
  function ReconcileBranches(db: Db, req: BranchAssignment, now: Time): (r: (Db, Reply))
    ensures r.1 == BadRequest <==> !Truthy(req.examId) || req.branchIds.None?
    ensures r.1 == BadRequest ==> r.0 == db
    ensures r.0.students == db.students && r.0.exams == db.exams && r.0.results == db.results
    ensures r.0 == db.(examBranch := r.0.examBranch, examStudent := r.0.examStudent)
  {
    if !Truthy(req.examId) || req.branchIds.None? then (db, BadRequest)
    else
      var (e, incoming) := (req.examId.value, Elems(req.branchIds.value));
      var gone := AssignedBranches(db, e) - incoming;
      (db.(examBranch := DisableBranchRows(EnableBranchRows(db.examBranch, e, incoming), e, gone),
           examStudent := DisableStudentRows(EnableStudentRows(db.examStudent, db.students, e, incoming), db.students, e, gone, now)),
       Updated)
  }

  lemma {:induction false} EnableBranchRowsStep(rows: map<(ExamId, BranchId), bool>, e: ExamId, bs: set<BranchId>, b: BranchId)
    ensures EnableBranchRows(EnableBranchRows(rows, e, bs), e, {b}) == EnableBranchRows(rows, e, bs + {b})
  {
    var lhs, rhs := EnableBranchRows(EnableBranchRows(rows, e, bs), e, {b}), EnableBranchRows(rows, e, bs + {b});
    assert forall k :: k in lhs <==> k in rhs;
  }

  lemma {:induction false} EnableStudentRowsStep(rows: map<(ExamId, StudentId), Assignment>, students: map<StudentId, Student>, e: ExamId, bs: set<BranchId>, b: BranchId)
    ensures EnableStudentRows(EnableStudentRows(rows, students, e, bs), students, e, {b}) == EnableStudentRows(rows, students, e, bs + {b})
  {
    var mid := EnableStudentRows(rows, students, e, bs);
    var lhs, rhs := EnableStudentRows(mid, students, e, {b}), EnableStudentRows(rows, students, e, bs + {b});
    assert forall k :: k in lhs <==> k in rhs;
    forall k | k in lhs
      ensures lhs[k] == rhs[k]
    {
      if k.0 == e && InBranches(students, k.1, {b}) && InBranches(students, k.1, bs) {
        assert mid[k] == Reenabled(if k in rows then Some(rows[k]) else None);
      }
    }
  }

  lemma {:induction false} DisableBranchRowsStep(rows: map<(ExamId, BranchId), bool>, e: ExamId, bs: set<BranchId>, b: BranchId)
    ensures DisableBranchRows(DisableBranchRows(rows, e, bs), e, {b}) == DisableBranchRows(rows, e, bs + {b})
  {
    var lhs, rhs := DisableBranchRows(DisableBranchRows(rows, e, bs), e, {b}), DisableBranchRows(rows, e, bs + {b});
    assert forall k :: k in lhs <==> k in rhs;
  }

  lemma {:induction false} DisableStudentRowsStep(rows: map<(ExamId, StudentId), Assignment>, students: map<StudentId, Student>, e: ExamId, bs: set<BranchId>, b: BranchId, now: Time)
    ensures DisableStudentRows(DisableStudentRows(rows, students, e, bs, now), students, e, {b}, now) == DisableStudentRows(rows, students, e, bs + {b}, now)
  {
    var lhs, rhs := DisableStudentRows(DisableStudentRows(rows, students, e, bs, now), students, e, {b}, now), DisableStudentRows(rows, students, e, bs + {b}, now);
    assert forall k :: k in lhs <==> k in rhs;
  }

  /** Step 4 of `assignExamToBranches`: the two upserts for every incoming id, in order. */
  method EnableIncoming(db: Db, e: ExamId, incoming: seq<BranchId>)
    returns (branchRows: map<(ExamId, BranchId), bool>, studentRows: map<(ExamId, StudentId), Assignment>)
    ensures branchRows == EnableBranchRows(db.examBranch, e, Elems(incoming))
    ensures studentRows == EnableStudentRows(db.examStudent, db.students, e, Elems(incoming))
  {
    branchRows, studentRows := db.examBranch, db.examStudent;
    assert Elems(incoming[..0]) == {};
    assert branchRows == EnableBranchRows(db.examBranch, e, {});
    assert studentRows == EnableStudentRows(db.examStudent, db.students, e, {});
    for i := 0 to |incoming|
      invariant branchRows == EnableBranchRows(db.examBranch, e, Elems(incoming[..i]))
      invariant studentRows == EnableStudentRows(db.examStudent, db.students, e, Elems(incoming[..i]))
    {
      var b := incoming[i];
      EnableBranchRowsStep(db.examBranch, e, Elems(incoming[..i]), b);
      EnableStudentRowsStep(db.examStudent, db.students, e, Elems(incoming[..i]), b);
      ElemsSnoc(incoming, i);
      branchRows := EnableBranchRows(branchRows, e, {b});
      studentRows := EnableStudentRows(studentRows, db.students, e, {b});
    }
    assert incoming[..|incoming|] == incoming;
  }

  /** Step 5 of `assignExamToBranches`: the two updates for every removed id, in any order. */
  method DisableRemoved(
    branchRows0: map<(ExamId, BranchId), bool>, studentRows0: map<(ExamId, StudentId), Assignment>,
    students: map<StudentId, Student>, e: ExamId, toDisable: set<BranchId>, now: Time)
    returns (branchRows: map<(ExamId, BranchId), bool>, studentRows: map<(ExamId, StudentId), Assignment>)
    ensures branchRows == DisableBranchRows(branchRows0, e, toDisable)
    ensures studentRows == DisableStudentRows(studentRows0, students, e, toDisable, now)
  {
    branchRows, studentRows := branchRows0, studentRows0;
    var left, done := toDisable, {};
    assert branchRows == DisableBranchRows(branchRows0, e, {});
    assert studentRows == DisableStudentRows(studentRows0, students, e, {}, now);
    while left != {}
      invariant left + done == toDisable
      invariant branchRows == DisableBranchRows(branchRows0, e, done)
      invariant studentRows == DisableStudentRows(studentRows0, students, e, done, now)
      decreases |left|
    {
      var b := Pick(left);
      DisableBranchRowsStep(branchRows0, e, done, b);
      DisableStudentRowsStep(studentRows0, students, e, done, b, now);
      branchRows := DisableBranchRows(branchRows, e, {b});
      studentRows := DisableStudentRows(studentRows, students, e, {b}, now);
      left, done := left - {b}, done + {b};
    }
  }

  /** `assignExamToBranches`: the upsert loop over the incoming ids, then the disable loop over the removed ones. */
  method AssignExamToBranches(db: Db, req: BranchAssignment, now: Time) returns (db': Db, reply: Reply)
    ensures (db', reply) == ReconcileBranches(db, req, now)
  {
    if !Truthy(req.examId) || req.branchIds.None? {
      return db, BadRequest;
    }
    var e, incoming := req.examId.value, req.branchIds.value;
    var toDisable := AssignedBranches(db, e) - Elems(incoming);
    var branchRows, studentRows := EnableIncoming(db, e, incoming);
    branchRows, studentRows := DisableRemoved(branchRows, studentRows, db.students, e, toDisable, now);
    return db.(examBranch := branchRows, examStudent := studentRows), Updated;
  }

  // ---------------------------------------------------------------------------
  // Properties of the branch reconciliation

  /**
   * Every incoming branch row ends enabled; every student of an incoming branch
   * has an enabled row with no stamp; a new row is tagged 'branch', an existing
   * one keeps its origin and its submitted flag.
   */
  lemma IncomingBranchesEnabled(db: Db, req: BranchAssignment, now: Time)
    requires Truthy(req.examId) && req.branchIds.Some?
    ensures var (r, e, incoming) := (ReconcileBranches(db, req, now).0, req.examId.value, req.branchIds.value);
      && (forall b :: b in incoming ==> (e, b) in r.examBranch && r.examBranch[(e, b)])
      && (forall s :: s in db.students && db.students[s].branch in incoming ==>
            && (e, s) in r.examStudent
            && r.examStudent[(e, s)].isEnabled
            && r.examStudent[(e, s)].disabledAt.None?
            && ((e, s) in db.examStudent ==>
                  r.examStudent[(e, s)].origin == db.examStudent[(e, s)].origin
                  && r.examStudent[(e, s)].hasSubmitted == db.examStudent[(e, s)].hasSubmitted)
            && ((e, s) !in db.examStudent ==> r.examStudent[(e, s)] == Assignment(true, HasSubmittedDefault, FromBranch, None)))
  {
    var (e, incoming) := (req.examId.value, Elems(req.branchIds.value));
    var gone := AssignedBranches(db, e) - incoming;
    var r := ReconcileBranches(db, req, now).0;
    var enabled := EnableStudentRows(db.examStudent, db.students, e, incoming);
    assert r.examBranch == DisableBranchRows(EnableBranchRows(db.examBranch, e, incoming), e, gone);
    assert r.examStudent == DisableStudentRows(enabled, db.students, e, gone, now);
    forall s | s in db.students && db.students[s].branch in req.branchIds.value
      ensures (e, s) in enabled && r.examStudent[(e, s)] == enabled[(e, s)]
      ensures enabled[(e, s)] == Reenabled(if (e, s) in db.examStudent then Some(db.examStudent[(e, s)]) else None)
    {
      assert InBranches(db.students, s, incoming);
      assert !InBranches(db.students, s, gone);
    }
  }

  /**
   * A branch assigned before and absent from the list ends disabled; among its
   * students' rows only those tagged 'branch' are disabled and stamped with the
   * transaction time, a direct row is left as it was.
   */
  lemma RemovedBranchesDisabled(db: Db, req: BranchAssignment, now: Time)
    requires Truthy(req.examId) && req.branchIds.Some?
    ensures var (r, e, incoming) := (ReconcileBranches(db, req, now).0, req.examId.value, req.branchIds.value);
      var gone := AssignedBranches(db, e) - Elems(incoming);
      && (forall b :: (e, b) in db.examBranch && b !in incoming ==> (e, b) in r.examBranch && !r.examBranch[(e, b)])
      && (forall s :: (e, s) in db.examStudent && InBranches(db.students, s, gone) ==>
            && (e, s) in r.examStudent
            && r.examStudent[(e, s)] ==
                 if db.examStudent[(e, s)].origin == FromBranch
                 then db.examStudent[(e, s)].(isEnabled := false, disabledAt := Some(now))
                 else db.examStudent[(e, s)])
  {
    var e := req.examId.value;
    forall b | (e, b) in db.examBranch && b !in req.branchIds.value
      ensures b in AssignedBranches(db, e)
    {
    }
  }

  /**
   * Nothing outside the exam and the students of the branches involved moves:
   * other exams' rows, and rows of students in no incoming and no removed
   * branch, are unchanged, and the only new rows belong to this exam.
   */
  lemma ReconcileBranchesFrame(db: Db, req: BranchAssignment, now: Time)
    requires Truthy(req.examId) && req.branchIds.Some?
    ensures var (r, e, incoming) := (ReconcileBranches(db, req, now).0, req.examId.value, Elems(req.branchIds.value));
      var touched := incoming + (AssignedBranches(db, e) - incoming);
      && r.examStudent.Keys == db.examStudent.Keys + (set s | s in db.students && db.students[s].branch in incoming :: (e, s))
      && (forall k :: k in db.examStudent && (k.0 != e || !InBranches(db.students, k.1, touched)) ==> r.examStudent[k] == db.examStudent[k])
      && (forall k :: k in db.examBranch && k.0 != e ==> k in r.examBranch && r.examBranch[k] == db.examBranch[k])
      && (forall k :: k in r.examBranch && k !in db.examBranch ==> k.0 == e && k.1 in incoming)
  {
  }

  /**
   * Resending a branch re-enables every row of its students, a direct row
   * disabled by `assignExamToStudents` included: the upsert does not look at
   * `assigned_from`.
   */
  lemma ResendReenablesDirectRow(db: Db, req: BranchAssignment, now: Time, s: StudentId)
    requires Truthy(req.examId) && req.branchIds.Some?
    requires s in db.students && db.students[s].branch in req.branchIds.value
    requires (req.examId.value, s) in db.examStudent && db.examStudent[(req.examId.value, s)].origin == Direct
    ensures var r := ReconcileBranches(db, req, now).0.examStudent[(req.examId.value, s)];
      r.isEnabled && r.origin == Direct
  {
    IncomingBranchesEnabled(db, req, now);
  }

  // ---------------------------------------------------------------------------
  // assignExamToStudents

  /** The body `{ examId, studentIds }`. */
  datatype StudentAssignment = StudentAssignment(examId: Option<ExamId>, studentIds: Option<seq<StudentId>>)

  /** `SELECT student_id FROM exam_student_assignments WHERE exam_id = $1`, enabled or not. */
  function AssignedStudents(db: Db, e: ExamId): set<StudentId> {
    set k | k in db.examStudent && k.0 == e :: k.1
  }

  /** A row inserted by `assignExamToStudents`: enabled, with the column defaults. */
  const DirectRow: Assignment := Assignment(true, HasSubmittedDefault, Direct, None)

  /** The inserts of the students `ids`, none of which has a row yet. */
  function AddStudentRows(rows: map<(ExamId, StudentId), Assignment>, e: ExamId, ids: set<StudentId>): map<(ExamId, StudentId), Assignment> {
    map k | k in rows.Keys + (set s | s in ids :: (e, s)) :: if k in rows then rows[k] else DirectRow
  }

  /** `UPDATE exam_student_assignments SET is_enabled = false` for the students `ids`; `disabled_at` is not touched. */
  function DisableAssignedRows(rows: map<(ExamId, StudentId), Assignment>, e: ExamId, ids: set<StudentId>): map<(ExamId, StudentId), Assignment> {
    map k | k in rows :: if k.0 == e && k.1 in ids then rows[k].(isEnabled := false) else rows[k]
  }

  /** The whole transaction of `assignExamToStudents`. */
  function ReconcileStudents(db: Db, req: StudentAssignment): (r: (Db, Reply))
    ensures r.1 == BadRequest <==> !Truthy(req.examId) || req.studentIds.None?
    ensures r.1 == BadRequest ==> r.0 == db
    ensures r.0 == db.(examStudent := r.0.examStudent)
  {
    if !Truthy(req.examId) || req.studentIds.None? then (db, BadRequest)
    else
      var (e, listed) := (req.examId.value, Elems(req.studentIds.value));
      var existing := AssignedStudents(db, e);
      (db.(examStudent := DisableAssignedRows(AddStudentRows(db.examStudent, e, listed - existing), e, existing - listed)), Updated)
  }

  /** `INSERT ... VALUES ($1, $2, true) ON CONFLICT (student_id, exam_id) DO UPDATE SET is_enabled = true` for one id. */
  function UpsertDirect(rows: map<(ExamId, StudentId), Assignment>, e: ExamId, s: StudentId): map<(ExamId, StudentId), Assignment> {
    if (e, s) in rows then rows[(e, s) := rows[(e, s)].(isEnabled := true)] else rows[(e, s) := DirectRow]
  }

  /** Inserting the next id: a repeated id meets the row it inserted itself, which is already enabled. */
  lemma {:induction false} AddStudentRowsStep(rows: map<(ExamId, StudentId), Assignment>, e: ExamId, ids: set<StudentId>, s: StudentId)
    requires (e, s) !in rows
    ensures UpsertDirect(AddStudentRows(rows, e, ids), e, s) == AddStudentRows(rows, e, ids + {s})
  {
    var lhs, rhs := UpsertDirect(AddStudentRows(rows, e, ids), e, s), AddStudentRows(rows, e, ids + {s});
    assert forall k :: k in lhs <==> k in rhs;
  }

  lemma {:induction false} DisableAssignedRowsStep(rows: map<(ExamId, StudentId), Assignment>, e: ExamId, ids: set<StudentId>, s: StudentId)
    ensures DisableAssignedRows(DisableAssignedRows(rows, e, ids), e, {s}) == DisableAssignedRows(rows, e, ids + {s})
  {
    var lhs, rhs := DisableAssignedRows(DisableAssignedRows(rows, e, ids), e, {s}), DisableAssignedRows(rows, e, ids + {s});
    assert forall k :: k in lhs <==> k in rhs;
  }

  /** The first loop of `assignExamToStudents`: one upsert per listed id that had no row. */
  method InsertListed(rows0: map<(ExamId, StudentId), Assignment>, e: ExamId, ids: seq<StudentId>, existing: set<StudentId>)
    returns (rows: map<(ExamId, StudentId), Assignment>)
    requires forall s :: (e, s) in rows0 ==> s in existing
    ensures rows == AddStudentRows(rows0, e, Elems(ids) - existing)
  {
    rows := rows0;
    assert Elems(ids[..0]) - existing == {};
    assert rows == AddStudentRows(rows0, e, {});
    for i := 0 to |ids|
      invariant rows == AddStudentRows(rows0, e, Elems(ids[..i]) - existing)
    {
      ElemsSnoc(ids, i);
      var s := ids[i];
      if s !in existing {
        AddStudentRowsStep(rows0, e, Elems(ids[..i]) - existing, s);
        assert (Elems(ids[..i]) - existing) + {s} == Elems(ids[..i + 1]) - existing;
        rows := UpsertDirect(rows, e, s);
      } else {
        assert Elems(ids[..i + 1]) - existing == Elems(ids[..i]) - existing;
      }
    }
    assert ids[..|ids|] == ids;
  }

  /** The second loop of `assignExamToStudents`: one update per assigned id left out. */
  method DisableUnlisted(rows0: map<(ExamId, StudentId), Assignment>, e: ExamId, toDisable: set<StudentId>)
    returns (rows: map<(ExamId, StudentId), Assignment>)
    ensures rows == DisableAssignedRows(rows0, e, toDisable)
  {
    rows := rows0;
    var left, done := toDisable, {};
    assert rows == DisableAssignedRows(rows0, e, {});
    while left != {}
      invariant left + done == toDisable
      invariant rows == DisableAssignedRows(rows0, e, done)
      decreases |left|
    {
      var s := Pick(left);
      DisableAssignedRowsStep(rows0, e, done, s);
      rows := DisableAssignedRows(rows, e, {s});
      left, done := left - {s}, done + {s};
    }
  }

  /** `assignExamToStudents`: one upsert per listed id without a row, then one update per unlisted assigned id. */
  method AssignExamToStudents(db: Db, req: StudentAssignment) returns (db': Db, reply: Reply)
    ensures (db', reply) == ReconcileStudents(db, req)
  {
    if !Truthy(req.examId) || req.studentIds.None? {
      return db, BadRequest;
    }
    var e, ids := req.examId.value, req.studentIds.value;
    var existing := AssignedStudents(db, e);
    assert forall s :: (e, s) in db.examStudent ==> s in existing;
    var rows := InsertListed(db.examStudent, e, ids, existing);
    rows := DisableUnlisted(rows, e, existing - Elems(ids));
    return db.(examStudent := rows), Updated;
  }

  /**
   * A listed student without a row gets an enabled direct row; a listed
   * student with a row keeps it as it was, so a disabled row stays disabled; an
   * assigned student left out is disabled with its stamp untouched; other rows
   * do not move.
   */
  lemma ReconcileStudentsOutcome(db: Db, req: StudentAssignment)
    requires Truthy(req.examId) && req.studentIds.Some?
    ensures var (r, e, ids) := (ReconcileStudents(db, req).0.examStudent, req.examId.value, req.studentIds.value);
      && r.Keys == db.examStudent.Keys + (set s | s in ids :: (e, s))
      && (forall s :: s in ids && (e, s) !in db.examStudent ==> r[(e, s)] == DirectRow)
      && (forall s :: s in ids && (e, s) in db.examStudent ==> r[(e, s)] == db.examStudent[(e, s)])
      && (forall s :: s !in ids && (e, s) in db.examStudent ==> r[(e, s)] == db.examStudent[(e, s)].(isEnabled := false))
      && (forall k :: k in db.examStudent && k.0 != e ==> r[k] == db.examStudent[k])
  {
    var (e, ids) := (req.examId.value, req.studentIds.value);
    var listed, existing := Elems(ids), AssignedStudents(db, e);
    forall s | (e, s) in db.examStudent
      ensures s in existing
    {
    }
    var added := AddStudentRows(db.examStudent, e, listed - existing);
    assert added.Keys == db.examStudent.Keys + (set s | s in ids :: (e, s));
  }

  // ---------------------------------------------------------------------------
  // getStudentExams

  datatype ExamStatus = Submitted | Pending | Closed | Unknown

  /**
   * The status CASE over the LEFT JOINed assignment row, in SQL's three-valued
   * logic: with no row `esa.is_enabled` is NULL, so neither `= true` nor
   * `= false` holds.
   */
  function Classify(row: Option<Assignment>): (st: ExamStatus)
    ensures st == Submitted <==> row.Some? && row.value.hasSubmitted == Some(true)
    ensures st == Pending <==> row.Some? && row.value.hasSubmitted != Some(true) && row.value.isEnabled
    ensures st == Closed <==> row.Some? && row.value.hasSubmitted != Some(true) && !row.value.isEnabled && row.value.disabledAt.Some?
    ensures row.None? ==> st == Unknown
  {
    var submitted := if row.Some? then row.value.hasSubmitted.GetOr(false) else false;
    var enabled := if row.Some? then Some(row.value.isEnabled) else None;
    if submitted then Submitted
    else if enabled == Some(true) then Pending
    else if enabled == Some(false) && row.value.disabledAt.Some? then Closed
    else Unknown
  }

  /** The student's own assignment row for an exam, if any. */
  function RowOf(db: Db, s: StudentId, e: ExamId): Option<Assignment> {
    if (e, s) in db.examStudent then Some(db.examStudent[(e, s)]) else None
  }

  /** An exam is listed when it is enabled and reaches the student through an enabled branch row or any own row. */
  predicate Visible(db: Db, s: StudentId, e: ExamId) {
    && s in db.students
    && e in db.exams && db.exams[e].isEnabled
    && (((e, db.students[s].branch) in db.examBranch && db.examBranch[(e, db.students[s].branch)]) || (e, s) in db.examStudent)
  }

  /** `examStatus`, lower-cased: one of the three filters, or None for any other value (no filtering). */
  function StatusFilter(examStatus: string): (f: Option<ExamStatus>)
    ensures f.Some? ==> f.value != Unknown
    ensures f == Some(Pending) <==> Text.Lower(examStatus) == "pending"
    ensures f == Some(Submitted) <==> Text.Lower(examStatus) == "submitted"
    ensures f == Some(Closed) <==> Text.Lower(examStatus) == "closed"
    ensures f.None? <==> Text.Lower(examStatus) !in ["pending", "submitted", "closed"]
  {
    var status := Text.Lower(examStatus);
    if status == "pending" then Some(Pending)
    else if status == "submitted" then Some(Submitted)
    else if status == "closed" then Some(Closed)
    else None
  }

  /** `getStudentExams`: the visible exams with their status, filtered; None is the 400 for a missing id. */
  function StudentExams(db: Db, studentId: Option<StudentId>, examStatus: string): (r: Option<map<ExamId, ExamStatus>>)
    ensures r.None? <==> studentId.None?
    ensures r.Some? ==> forall e :: e in r.value <==>
      && Visible(db, studentId.value, e)
      && (StatusFilter(examStatus).None? || StatusFilter(examStatus) == Some(Classify(RowOf(db, studentId.value, e))))
    ensures r.Some? ==> forall e :: e in r.value ==> r.value[e] == Classify(RowOf(db, studentId.value, e))
  {
    if studentId.None? then None
    else
      var (s, f) := (studentId.value, StatusFilter(examStatus));
      Some(map e | e in db.exams && Visible(db, s, e) && (f.None? || f == Some(Classify(RowOf(db, s, e)))) :: Classify(RowOf(db, s, e)))
  }

  /** A filter other than pending, submitted or closed lists every visible exam. */
  lemma UnknownFilterListsAll(db: Db, s: StudentId, examStatus: string)
    requires StatusFilter(examStatus).None?
    ensures StudentExams(db, Some(s), examStatus).value == StudentExams(db, Some(s), "").value
  {
  }

  /**
   * The three filters split the unfiltered list: every visible exam classified
   * other than 'unknown' is listed by exactly the filter of its status.
   */
  lemma FiltersPartition(db: Db, s: StudentId, e: ExamId)
    ensures var all := StudentExams(db, Some(s), "").value;
      var (p, u, c) := (StudentExams(db, Some(s), "pending").value, StudentExams(db, Some(s), "submitted").value, StudentExams(db, Some(s), "closed").value);
      && (e in p || e in u || e in c <==> e in all && all[e] != Unknown)
      && !(e in p && e in u) && !(e in p && e in c) && !(e in u && e in c)
  {
    FilterWords();
    var k := Classify(RowOf(db, s, e));
    var all := StudentExams(db, Some(s), "").value;
    assert e in all <==> Visible(db, s, e);
    assert e in all ==> all[e] == k;
    assert e in StudentExams(db, Some(s), "pending").value <==> Visible(db, s, e) && k == Pending;
    assert e in StudentExams(db, Some(s), "submitted").value <==> Visible(db, s, e) && k == Submitted;
    assert e in StudentExams(db, Some(s), "closed").value <==> Visible(db, s, e) && k == Closed;
  }

  /** The three words of the query string that select a filter, and the empty one that selects none. */
  lemma FilterWords()
    ensures StatusFilter("") == None
    ensures StatusFilter("pending") == Some(Pending)
    ensures StatusFilter("submitted") == Some(Submitted)
    ensures StatusFilter("closed") == Some(Closed)
    ensures StatusFilter("Closed") == Some(Closed)
  {
    PendingWord();
    SubmittedWord();
    ClosedWord();
    CapitalClosedWord();
  }

  lemma PendingWord()
    ensures StatusFilter("pending") == Some(Pending)
  {
    Text.LowerWithoutCapitals("pending");
  }

  lemma SubmittedWord()
    ensures StatusFilter("submitted") == Some(Submitted)
  {
    Text.LowerWithoutCapitals("submitted");
  }

  lemma ClosedWord()
    ensures StatusFilter("closed") == Some(Closed)
  {
    Text.LowerWithoutCapitals("closed");
  }

  lemma CapitalClosedWord()
    ensures StatusFilter("Closed") == Some(Closed)
  {
    assert Text.Lower("Closed") == "closed";
  }

  // ---------------------------------------------------------------------------
  // getStudentProfileById

  datatype Profile = Profile(totalExams: nat, submitted: nat, pending: nat, closed: nat)

  datatype ProfileReply = MissingStudentId | StudentNotFound | Counters(profile: Profile)

  /** The `FILTER (WHERE ...)` conditions of the counters. */
  datatype Counter = EnabledRow | SubmittedRow | PendingRow | ClosedRow | AnyRow

  /** A NULL `has_submitted` satisfies neither `= true` nor `= false`. */
  predicate Counts(c: Counter, a: Assignment) {
    match c
    case EnabledRow => a.isEnabled
    case SubmittedRow => a.hasSubmitted == Some(true) && a.isEnabled
    case PendingRow => a.hasSubmitted == Some(false) && a.isEnabled
    case ClosedRow => a.hasSubmitted == Some(false) && !a.isEnabled && a.disabledAt.Some?
    case AnyRow => true
  }

  /** The student's assignment rows a counter counts, by key. */
  function RowsWhere(db: Db, s: StudentId, c: Counter): set<(ExamId, StudentId)> {
    set k | k in db.examStudent && k.1 == s && Counts(c, db.examStudent[k])
  }

  /** The four `COUNT(*) FILTER (...)` of the profile. */
  function ProfileOf(db: Db, s: StudentId): Profile {
    Profile(|RowsWhere(db, s, EnabledRow)|, |RowsWhere(db, s, SubmittedRow)|, |RowsWhere(db, s, PendingRow)|, |RowsWhere(db, s, ClosedRow)|)
  }

  /** `getStudentProfileById`: 400 for a missing id, 404 for an unknown student. */
  function StudentProfile(db: Db, studentId: Option<StudentId>): (r: ProfileReply)
    ensures r == MissingStudentId <==> studentId.None?
    ensures r == StudentNotFound <==> studentId.Some? && studentId.value !in db.students
    ensures r.Counters? ==> r.profile == ProfileOf(db, studentId.value)
  {
    if studentId.None? then MissingStudentId
    else if studentId.value !in db.students then StudentNotFound
    else Counters(ProfileOf(db, studentId.value))
  }

  /** No enabled row of the student has a NULL `has_submitted`. */
  predicate FlagsRecorded(db: Db, s: StudentId) {
    forall k :: k in db.examStudent && k.1 == s && db.examStudent[k].isEnabled ==> db.examStudent[k].hasSubmitted.Some?
  }

  /**
   * Submitted and pending rows never outnumber the enabled ones, and they add
   * up to them exactly when no enabled row has a NULL submitted flag; closed
   * rows are disabled, so closed and total never exceed the student's rows.
   */
  lemma ProfileCountersAddUp(db: Db, s: StudentId)
    ensures var p := ProfileOf(db, s);
      && p.submitted + p.pending <= p.totalExams
      && (FlagsRecorded(db, s) ==> p.submitted + p.pending == p.totalExams)
      && p.closed + p.totalExams <= |RowsWhere(db, s, AnyRow)|
  {
    var total := RowsWhere(db, s, EnabledRow);
    var sub := RowsWhere(db, s, SubmittedRow);
    var pen := RowsWhere(db, s, PendingRow);
    var closed := RowsWhere(db, s, ClosedRow);
    var all := RowsWhere(db, s, AnyRow);
    assert sub * pen == {};
    SubsetCard(sub + pen, total);
    if FlagsRecorded(db, s) {
      forall k | k in total
        ensures k in sub + pen
      {
        assert db.examStudent[k].hasSubmitted.Some?;
        if db.examStudent[k].hasSubmitted == Some(true) {
          assert k in sub;
        } else {
          assert !db.examStudent[k].hasSubmitted.value;
          assert k in pen;
        }
      }
      assert sub + pen == total;
    }
    assert closed * total == {};
    SubsetCard(closed + total, all);
  }
}
