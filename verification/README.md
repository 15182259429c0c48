# Exam backend: a verified model of its handlers

The system is an Express/PostgreSQL backend for institutes that run exams.
Institutes register students and branches and author exams. They assign an
exam to branches or to single students, lock or unlock its results, and read
summaries. Students submit answers and read their results. Guests author
throw-away exams behind a link and collect attempts from anonymous takers.

Every handler is a short sequence of SQL statements. This model keeps the
tables as one value, `Schema.Db`, with maps keyed by `(exam, student)`,
`(exam, branch)` and `(student, exam)`. The guest tables are `Schema.GuestDb`,
and the older schema of `src/` is `SrcAuth.SrcDb`. Each transaction is one
closed-form function from the old tables and the request to the new tables
and the reply. Where the handler loops over ids or rows, a method with the
same loops builds the new tables step by step. Its postcondition is equality
with the function, and the lemmas then state what the function promises.

Things the handlers cannot decide themselves become parameters:

- the fresh ids (SERIAL keys, `uuidv4()`);
- the clock `now()`;
- the outcome of `jwt.verify`;
- the row a `LIMIT 1` without `ORDER BY` happens to return.

`dist/` is the newest revision, `api/` an older one, `src/` the oldest. The
`dist` handlers listed below are modelled. For `api` and `src`, a module models
only the handlers whose text differs:

- `DistAuth` and `DistAssignments` model dist/controllers/auth.controller.js.
- `ApiAuth` models api/controllers/auth.controller.ts.
- `SrcAuth` models src/controllers/auth.controller.ts.
- `DistStudentAuth` and `ApiStudentAuth` model the two student controllers.
- `DistGuest` and `ApiGuest` model the two guest controllers.
- `Font` models dist/utils/font.js.
- `Scoring` holds the scoring rules that every submission handler uses.
- `Text` holds an ASCII model of `trim`, `toLowerCase` and `toUpperCase`.
- `Journeys` states properties that span several handlers.

Some `api` handlers are identical in `dist`: `getAllResults`,
`getExamSummary`, `searchExams`, both toggles and `updateExamById`. Their
model is in `ApiAuth` and cites the `api` lines. The branch reconciliation is
also the same in both revisions and is modelled once, in `DistAssignments`.
The `createExam` total of src/controllers/auth.controller.ts:375 is the same
reduce as api/controllers/auth.controller.ts:484, so `ApiAuth.DraftTotal`
covers both.

## Model

| member | source | states |
|---|---|---|
| Text.TrimStartStrips | dist/controllers/student.auth.controller.js:60 | `trim` removes exactly the leading white space: what is left is a suffix that does not start with a space |
| Text.TrimEndStrips | dist/controllers/student.auth.controller.js:60 | `trim` removes exactly the trailing white space: what is left is a prefix that does not end with a space |
| Text.TrimIdempotent | dist/controllers/guest.controller.js:224-228 | trimming an already trimmed answer changes nothing, so the answers recorded in `evaluatedAnswers` are in trimmed form |
| Text.Lower | dist/controllers/student.auth.controller.js:60 | `toLowerCase` keeps the length and maps each character to its lower case |
| Text.Upper | api/controllers/auth.controller.ts:1657 | `toUpperCase` keeps the length and maps each character to its upper case |
| Text.LowerWithoutCapitals | dist/controllers/auth.controller.js:260 | lower-casing a string without capital letters leaves it as it is |
| Text.UpperOfLowerEqual | api/controllers/auth.controller.ts:1629-1657 | two strings whose lower-case forms are equal have equal upper-case forms, so a sort order accepted by its lower-case form prints as ASC or DESC |
| Schema.StudentsInUnion | dist/controllers/auth.controller.js:929-931 | selecting by a union of branches selects the students of each branch and no one else; no branch selects no student |
| Schema.StudentsInMonotone | dist/controllers/auth.controller.js:929-931 | more branches never select fewer students |
| Scoring.Weight | api/controllers/guest.controller.ts:224 | `marks` counts as itself when non-zero; NULL counts as 0 when summed directly; where a falsy mark defaults to 1 the worth is never 0 |
| Scoring.StoredZeroIsKept | dist/controllers/student.auth.controller.js:85-88 | `?? 35` keeps a stored 0: under it every non-negative score passes, while under the default a score of 0 fails whatever the total |
| Scoring.Grade | dist/controllers/student.auth.controller.js:87-88 | Pass exactly when `100*score >= pass*total` for a positive total, and when `0 >= pass` for a zero total, in exact integers |
| Scoring.RoundDiv | dist/controllers/guest.controller.js:241 | `Math.round(num/den)`: the nearest integer, halves rounded up, for either sign of the denominator |
| Scoring.RoundedPercentage | api/controllers/guest.controller.ts:250-258 | no value for a zero total (a non-finite percentage); otherwise the integer nearest to `100*score/total` |
| Scoring.StrictScoreBounds | dist/controllers/student.auth.controller.js:57-62 | with non-negative marks, the score lies between 0 and the total marks |
| Scoring.StrictScoreMonotone | dist/controllers/student.auth.controller.js:57-62 | with non-negative marks, answering more questions correctly never lowers the score |
| Scoring.UnansweredScoresNothing | api/controllers/student.auth.controller.ts:64-71 | an empty or missing answer is skipped: with no answer the score is 0 and nothing throws |
| Scoring.AnyFaultIffSomeQuestionFaults | dist/controllers/student.auth.controller.js:59-60 | the loop throws exactly when some answered question has a NULL correct answer |
| Scoring.FalsyAsOneTotalPositive | dist/controllers/guest.controller.js:225-227 | when a falsy mark counts as 1 and no mark is negative, the total is at least the number of questions |
| Scoring.LenientScoreBounds | dist/controllers/guest.controller.js:222-237 | with non-negative marks, the guest score lies between 0 and the total marks |
| Scoring.PassThreshold | dist/controllers/student.auth.controller.js:87-88 | for a positive total, the smallest passing score is `ceil(pass*total/100)`; one mark less fails |
| Scoring.RoundedPercentageBounds | api/controllers/guest.controller.ts:250 | a rounded percentage of a score between 0 and a positive total lies between 0 and 100 |
| DistStudentAuth.ScoreAnswers | dist/controllers/student.auth.controller.js:57-62 | the scoring loop fails exactly when some question faults; otherwise it returns the strict score with NULL marks adding nothing |
| Collections.Upsert | dist/controllers/student.auth.controller.js:90-93 | an `ON CONFLICT ... DO UPDATE` write keeps one entry per key: that entry becomes the new value and every other entry is unchanged; the ledger of submissions and the refresh-token table both use it |
| DistStudentAuth.MarkSubmitted | dist/controllers/student.auth.controller.js:95-97 | `has_submitted` becomes true on that pair's existing row only; no row is created and no other row changes |
| DistStudentAuth.GradeOf | dist/controllers/student.auth.controller.js:85-88 | the total is the plain sum of marks; the status is Pass exactly when the percentage reaches the stored pass mark, 35 by default |
| DistStudentAuth.Submit | dist/controllers/student.auth.controller.js:46-107 | a missing field is a 400 and a fault is a 500, both with nothing written; otherwise the ledger gets the graded row and the pair its submitted flag, and the reply is the lock alone when the exam is locked, else the grade |
| DistStudentAuth.SubmitStudentExam | dist/controllers/student.auth.controller.js:46-107 | the handler's loop and writes produce exactly the transaction `Submit` describes |
| DistStudentAuth.ResubmissionOverwrites | dist/controllers/student.auth.controller.js:90-93 | after two submissions of one pair the ledger has one row for it, graded from the second answers and stamped with the second time; no other row differs |
| DistStudentAuth.LockedSubmissionStoresRealGrade | dist/controllers/student.auth.controller.js:90-101 | on a locked exam the reply withholds the grade, yet the ledger already holds the real score and status |
| DistStudentAuth.SubmissionNeverAssigns | dist/controllers/student.auth.controller.js:95-97 | a submission never adds or removes an assignment row |
| DistStudentAuth.LegacyRowsOf | dist/controllers/student.auth.controller.js:24-26 | a `results` row is listed exactly when it belongs to the student and joins an existing exam, as often as it occurs in the table, and the list is no longer than the table |
| DistStudentAuth.StatsOf | dist/controllers/student.auth.controller.js:30-34 | `totalExams` counts the rows, `submitted` counts exactly the rows whose status is not NULL and `pending` exactly those whose status is NULL |
| DistStudentAuth.NothingSubmittedIffNoStatus | dist/controllers/student.auth.controller.js:32-33 | `submitted` is 0 exactly when no row has a status, and `pending` is 0 exactly when every row has one |
| DistStudentAuth.StudentResultById | dist/controllers/student.auth.controller.js:6-44 | an absent or empty id is a 400, any other id (0 included) is answered; the listing holds exactly the student's rows that join an exam, each as often as in the table, and the stats count them, the submitted and the pending ones by status |
| ApiStudentAuth.Submit | api/controllers/student.auth.controller.ts:46-124 | the same validation, scoring and writes as the newer revision, with a reply that always carries score, total and status |
| ApiStudentAuth.SubmitStudentExam | api/controllers/student.auth.controller.ts:46-124 | the handler's loop and writes produce exactly the transaction `Submit` describes |
| ApiStudentAuth.SameTransactionAsDist | api/controllers/student.auth.controller.ts:95-119 | both revisions write the same tables and reject the same requests; where the newer one reveals a grade, this one reveals the same grade |
| ApiStudentAuth.UnansweredGradesZero | api/controllers/student.auth.controller.ts:64-71 | with no truthy answer the submission is graded with score 0 |
| ApiStudentAuth.StudentSearchQuery | api/controllers/student.auth.controller.ts:153-179 | a missing institute is a 400; otherwise `$1` is the institute, the name filter uses `$2`, the branch filter uses `$2` with no name query and `$3` with one, and each binds its lower-cased value |
| DistAuth.BranchNamed | dist/controllers/auth.controller.js:168-172 | returns the id of a branch with that name in that institute, and none exactly when no such branch exists |
| DistAuth.CheckRow | dist/controllers/auth.controller.js:155-176 | the first failing check in the order missing field, taken email, unknown branch; a row that passes gets its branch's id |
| DistAuth.ValidCoversRows | dist/controllers/auth.controller.js:155-177 | every row is either a failure or valid; there are no failures exactly when every row passes, and then the valid rows are the input rows in order |
| DistAuth.InsertedRows | dist/controllers/auth.controller.js:186-191 | the inserts add exactly the fresh ids, each holding its row with its resolved `branch_id`, and keep every existing student |
| DistAuth.ValidateRows | dist/controllers/auth.controller.js:155-177 | the validation loop with `continue` yields exactly the failures and the valid rows of the closed-form definition |
| DistAuth.InsertValid | dist/controllers/auth.controller.js:186-191 | the insert loop yields exactly the closed-form insertion |
| DistAuth.BulkRegister | dist/controllers/auth.controller.js:144-203 | a missing or empty list or institute is a 400; any reply other than success leaves the tables unchanged; only the students table ever changes |
| DistAuth.BulkRegisterStudents | dist/controllers/auth.controller.js:144-203 | the handler's two loops produce exactly the transaction `BulkRegister` describes |
| DistAuth.BulkAllOrNothing | dist/controllers/auth.controller.js:178-191 | with any failure, the reply lists one error per failing row in input order and nothing is inserted; otherwise every row is inserted |
| DistAuth.StoreRefreshToken | dist/controllers/auth.controller.js:13-19 | the table keeps one token per (user, type): the new one replaces the old one and no other entry changes |
| DistAuth.RefreshAccessToken | dist/controllers/auth.controller.js:867-885 | a missing field is a 401 and a failed verification a 403; a refresh succeeds exactly when the stored token for the payload's user and type equals the one presented |
| DistAuth.Logout | dist/controllers/auth.controller.js:887-903 | a missing field is a 400 that changes nothing; otherwise exactly the rows with that token and type are deleted |
| DistAuth.RotationInvalidatesOld | dist/controllers/auth.controller.js:13-19 | once a new token is stored for a (user, type), the previous one no longer refreshes and the new one does |
| DistAuth.RefreshAfterLogoutFails | dist/controllers/auth.controller.js:893-896 | after a logout, no refresh with that token and type succeeds |
| DistAuth.ResultViewOf | dist/controllers/auth.controller.js:538-548 | a locked exam shows NULL duration, pass percentage, enabled flag, score and total, and the status 'Pending'; the submission time and the lock pass through; an unlocked exam shows the stored values |
| DistAuth.StudentResults | dist/controllers/auth.controller.js:487-573 | a missing id is a 400; the listing has exactly the student's submitted enrollments, each through the lock projection; the body is empty exactly when the student or every such enrollment is missing |
| DistAuth.LockedViewHidesGrade | dist/controllers/auth.controller.js:541-546 | while an exam is locked, two ledgers that agree on the submission time give the same view |
| DistAuth.EnrollmentViewOf | dist/controllers/auth.controller.js:620-631 | the status is 'Pending' when the flag is false or the exam is locked, and the stored status otherwise; the score is hidden exactly when locked; a NULL flag does not mask |
| DistAuth.LockedEnrollmentHidesGrade | dist/controllers/auth.controller.js:622-629 | behind a locked exam the view shows 'Pending' and the same thing whatever score and status the results row holds |
| DistAssignments.Reenabled | dist/controllers/auth.controller.js:928-933 | the upserted student row ends enabled with no stamp; an existing row keeps its origin and submitted flag; a new one is tagged 'branch' |
| DistAssignments.ReconcileBranches | dist/controllers/auth.controller.js:905-960 | a missing exam id or list is a 400 that changes nothing; only the two assignment tables ever change, so students, exams, the ledger and every other table are left as they were |
| DistAssignments.EnableBranchRowsStep | dist/controllers/auth.controller.js:924-926 | upserting one more branch row equals enabling the grown set at once |
| DistAssignments.EnableStudentRowsStep | dist/controllers/auth.controller.js:928-933 | upserting one more branch's students equals enabling the grown set of branches at once |
| DistAssignments.DisableBranchRowsStep | dist/controllers/auth.controller.js:937-939 | disabling one more branch row equals disabling the grown set at once |
| DistAssignments.DisableStudentRowsStep | dist/controllers/auth.controller.js:940-946 | disabling one more branch's 'branch' rows equals disabling the grown set of branches at once |
| DistAssignments.EnableIncoming | dist/controllers/auth.controller.js:922-934 | the first loop yields exactly the branch rows and student rows enabled for the set of incoming branches |
| DistAssignments.DisableRemoved | dist/controllers/auth.controller.js:936-948 | the second loop yields exactly the rows disabled for the set of removed branches |
| DistAssignments.AssignExamToBranches | dist/controllers/auth.controller.js:905-960 | the handler's loops produce exactly the transaction `ReconcileBranches` describes |
| DistAssignments.IncomingBranchesEnabled | dist/controllers/auth.controller.js:922-934 | every incoming branch row ends enabled; every student of an incoming branch has an enabled row with no stamp; existing rows keep origin and flag; new rows are tagged 'branch' |
| DistAssignments.RemovedBranchesDisabled | dist/controllers/auth.controller.js:914-920 | a branch that had a row and is not listed ends disabled; among its students' rows only 'branch' rows are disabled and stamped, and direct rows stay as they were |
| DistAssignments.ReconcileBranchesFrame | dist/controllers/auth.controller.js:936-948 | other exams' rows and rows of students outside the branches involved are unchanged; new rows belong to this exam and an incoming branch |
| DistAssignments.ResendReenablesDirectRow | api/controllers/auth.controller.ts:1100-1127 | re-sending a branch re-enables a direct row of one of its students, because the upsert ignores `assigned_from` |
| DistAssignments.ReconcileStudents | dist/controllers/auth.controller.js:962-996 | a missing exam id or list is a 400 that changes nothing; only the assignment table changes |
| DistAssignments.AddStudentRowsStep | dist/controllers/auth.controller.js:975-979 | upserting one more id without a row equals inserting the grown set at once, a repeated id meeting its own enabled row |
| DistAssignments.DisableAssignedRowsStep | dist/controllers/auth.controller.js:980-984 | disabling one more student's row equals disabling the grown set at once |
| DistAssignments.InsertListed | dist/controllers/auth.controller.js:973-979 | the first loop inserts exactly one enabled direct row per listed id that had none |
| DistAssignments.DisableUnlisted | dist/controllers/auth.controller.js:974-984 | the second loop disables exactly the rows of assigned ids that are not listed |
| DistAssignments.AssignExamToStudents | dist/controllers/auth.controller.js:962-996 | the handler's loops produce exactly the transaction `ReconcileStudents` describes |
| DistAssignments.ReconcileStudentsOutcome | dist/controllers/auth.controller.js:971-984 | a listed id without a row gets an enabled direct row; a listed id with a row keeps it, disabled or not; an unlisted assigned id is disabled with its stamp untouched; other exams' rows do not move |
| DistAssignments.Classify | dist/controllers/auth.controller.js:298-303 | submitted if the flag is true (NULL is false); otherwise pending if enabled; otherwise closed if disabled and stamped; otherwise unknown, as with no row |
| DistAssignments.StatusFilter | dist/controllers/auth.controller.js:260 | the lower-cased status selects the pending, submitted or closed filter exactly when it is that word, so in any case; every other status selects none, and no filter selects 'unknown' |
| DistAssignments.StudentExams | dist/controllers/auth.controller.js:255-347 | a missing id is a 400; an exam is listed exactly when it is enabled, reaches the student through an enabled branch row or any own row, and passes the filter; each carries its classified status |
| DistAssignments.UnknownFilterListsAll | dist/controllers/auth.controller.js:315-321 | a filter other than the three statuses lists the same exams as no filter |
| DistAssignments.FiltersPartition | dist/controllers/auth.controller.js:298-321 | the three filters list disjoint sets whose union is the unfiltered exams not classified 'unknown' |
| DistAssignments.FilterWords | dist/controllers/auth.controller.js:260 | 'pending', 'submitted' and 'closed' select their own filter, so does 'Closed', and the missing status selects none |
| DistAssignments.StudentProfile | dist/controllers/auth.controller.js:205-253 | a missing id is a 400 and an unknown student a 404; otherwise the four counters of the student's rows |
| DistAssignments.ProfileCountersAddUp | dist/controllers/auth.controller.js:235-238 | `submitted + pending <= totalExams`, with equality when no enabled row has a NULL flag; `closed + totalExams` never exceeds the student's rows |
| ApiAuth.Stored | api/controllers/auth.controller.ts:510-517 | one stored question per draft |
| ApiAuth.StoredRows | api/controllers/auth.controller.ts:510-517 | the i-th stored question is the i-th draft under the i-th fresh id, its options being `{type, choices}` |
| ApiAuth.DraftTotalIsStoredTotal | api/controllers/auth.controller.ts:484 | the sum over the drafts of their marks, a missing mark counting 0, equals the total of the stored questions with NULL marks as 0 |
| ApiAuth.InsertQuestions | api/controllers/auth.controller.ts:859-877 | the insert loop appends exactly the stored drafts to that exam's questions and leaves every other exam's list alone |
| ApiAuth.Create | api/controllers/auth.controller.ts:470-528 | with no question list the reduce throws and nothing is written; otherwise a new exam with the sent title, description, creator, duration and pass mark, a `total_marks` that is the drafts' total, `expires_at` set only for a truthy expiry date, no scheduled date or download flag, the default flags, and the drafts as its questions |
| ApiAuth.CreateExam | api/controllers/auth.controller.ts:470-528 | the handler's insert loop produces exactly the transaction `Create` describes |
| ApiAuth.CreateKeepsTotalsConsistent | api/controllers/auth.controller.ts:484 | creating an exam keeps every exam's `total_marks` equal to the sum of its questions' marks |
| ApiAuth.Update | api/controllers/auth.controller.ts:807-889 | an unknown exam is a 404 and a missing list a rollback, both changing nothing; otherwise six columns are set, that exam's questions become exactly the new list, other exams' questions are unchanged, and `total_marks` is not touched |
| ApiAuth.UpdateExamById | api/controllers/auth.controller.ts:856-877 | the update, delete and insert loop produce exactly the transaction `Update` describes |
| ApiAuth.UpdateLeavesTotalStale | api/controllers/auth.controller.ts:834-843 | an exam whose total matched its questions is edited to one question worth 5, and its `total_marks` stays 0 |
| ApiAuth.UpdateRepaired | api/controllers/auth.controller.ts:807-889 | the same replies and questions as the handler, with `total_marks` recomputed as the new drafts' total |
| ApiAuth.RepairedUpdateKeepsTotalsConsistent | api/controllers/auth.controller.ts:484 | the repaired edit keeps every exam's `total_marks` equal to the sum of its questions' marks |
| ApiAuth.ToggleExamStatus | api/controllers/auth.controller.ts:1006-1029 | a non-boolean flag is a 400 and an unknown exam a 404, both changing nothing; otherwise only that exam's `is_enabled` changes |
| ApiAuth.ToggleResultLock | api/controllers/auth.controller.ts:1744-1768 | a missing id or non-boolean flag is a 400 and an unknown exam a 404, both changing nothing; otherwise only that exam's `result_locked` changes |
| ApiAuth.ResultLockRoundTrip | api/controllers/auth.controller.ts:1748-1760 | setting the lock and then setting it back restores the tables; setting it to its current value changes nothing |
| ApiAuth.ExamStatusLastWriteWins | api/controllers/auth.controller.ts:1010-1022 | two toggles in a row equal the last one alone; toggling to the current value changes nothing |
| ApiAuth.BranchNameOf | api/controllers/auth.controller.ts:1557 | a branch name comes back exactly when some branch row has the id |
| ApiAuth.NullBranchIsNoFilter | api/controllers/auth.controller.ts:1534 | a summary asked for with `branch=null` is the same reply as one asked for without a branch |
| ApiAuth.BranchFilterNarrows | api/controllers/auth.controller.ts:1534-1583 | a branch filter keeps the outcome of the request and only narrows it: the attended students are a subset of the unfiltered ones, and both the attended and the enabled counts are at most the unfiltered counts |
| ApiAuth.ExamSummary | api/controllers/auth.controller.ts:1530-1603 | a 400 exactly for a NaN or zero institute or empty title; a 404 exactly when no exam has the title; otherwise `notAttendedList` is the enabled students minus the attended ones, the counts are their sizes, and `passCount` counts statuses lowering to 'pass' |
| ApiAuth.PassTextOfStatus | api/controllers/auth.controller.ts:1582 | of the stored statuses, only 'Pass' lower-cases to 'pass' |
| ApiAuth.SummaryCountsAddUp | api/controllers/auth.controller.ts:1574-1583 | `failCount` is `attendedCount - passCount` by construction; the property is that it counts exactly the Fail statuses; `notAttendedCount <= totalEnabled`, and with the attended enabled students it makes up `totalEnabled` |
| ApiAuth.SortField | api/controllers/auth.controller.ts:1622-1627 | the sort column is 'title' or 'created_at', and 'title' exactly when that was requested |
| ApiAuth.SortOrder | api/controllers/auth.controller.ts:1623-1631 | a requested order whose lower-case form is 'asc' or 'desc' is kept as sent; anything else, or none, gives 'asc' |
| ApiAuth.SortDirectionIsKeyword | api/controllers/auth.controller.ts:1657 | the upper-cased order is ASC or DESC, and DESC exactly when 'desc' was requested in some case |
| ApiAuth.ExamFilters | api/controllers/auth.controller.ts:1640-1655 | each non-empty filter appends one value and reads the placeholder of that value's position, in the order title, branch, date, each binding its lower-cased or trimmed value |
| ApiAuth.NoExamFilterYet | api/controllers/auth.controller.ts:1640 | before any filter only the institute is bound, at `$1` |
| ApiAuth.AddTitleFilter | api/controllers/auth.controller.ts:1642-1645 | the title filter, present exactly when the search is non-empty, binds the lower-cased pattern at `$2` |
| ApiAuth.AddBranchFilter | api/controllers/auth.controller.ts:1647-1650 | the branch filter follows the title filter, reads the next placeholder and binds the lower-cased branch, leaving earlier bindings as they were |
| ApiAuth.AddDateFilter | api/controllers/auth.controller.ts:1652-1655 | the date filter comes last, reads the next placeholder and binds the trimmed date, leaving earlier bindings as they were |
| ApiAuth.SearchExamsQuery | api/controllers/auth.controller.ts:1606-1657 | a missing institute is a 400; otherwise `$1` is the institute, the filters are numbered as above, and the sort clause is the whitelisted column and keyword |
| ApiAuth.OrDefault | api/controllers/auth.controller.ts:1372-1373 | the parsed value when truthy, the default for NaN or 0, and never 0 when the default is not |
| ApiAuth.PagesTile | api/controllers/auth.controller.ts:1372-1374 | with the defaults the offset is 0 and the limit 10; page 1 starts at 0; each next page starts one limit further on |
| ApiAuth.ResultFilters | api/controllers/auth.controller.ts:1384-1404 | the filters are numbered consecutively from `$2` in the order search, branch, exam title, each binding its own value, and the next index is one past the values |
| ApiAuth.AddSearchFilter | api/controllers/auth.controller.ts:1384-1392 | the search filter reads `$2` and binds the pattern, and the running index moves one past the values |
| ApiAuth.AddBranchNameFilter | api/controllers/auth.controller.ts:1394-1398 | the branch filter follows the search filter, reads the running index and binds the branch, leaving earlier bindings as they were |
| ApiAuth.AddExamTitleFilter | api/controllers/auth.controller.ts:1400-1404 | the exam-title filter comes last, reads the running index and binds the title, leaving earlier bindings as they were |
| ApiAuth.AllResultsQuery | api/controllers/auth.controller.ts:1369-1437 | `$1` is the institute; the filters are numbered as above; LIMIT and OFFSET read the two placeholders after them, bound to the defaulted limit and the offset; the count query gets exactly the filter values |
| ApiGuest.Create | api/controllers/guest.controller.ts:46-105 | a falsy title, date, duration, pass mark or creator, or an empty question list, is a 400 that changes nothing; otherwise the exam row with the sent owner, title, description, date, duration and pass mark, the time-limit, access and download columns at their defaults, its link, and one question row per draft |
| ApiGuest.CreateGuestExam | api/controllers/guest.controller.ts:46-105 | the handler's insert loop produces exactly the transaction `Create` describes |
| ApiGuest.ZeroPassMarkSeparatesRevisions | api/controllers/guest.controller.ts:49-51 | a pass mark of 0 is rejected here and accepted by the newer revision |
| ApiGuest.ZeroDurationRejected | api/controllers/guest.controller.ts:49-51 | a duration of 0 or none is a 400 that changes nothing |
| ApiGuest.GetGuestExamById | api/controllers/guest.controller.ts:145-196 | a missing id is a 400 and an unknown exam a 404; otherwise the exam and one view per question, holding id, type, text and options only |
| ApiGuest.ViewHidesAnswers | api/controllers/guest.controller.ts:170-181 | changing the correct answers or marks of an exam's questions leaves its view unchanged |
| ApiGuest.CreateThenView | api/controllers/guest.controller.ts:170-181 | a created exam's view shows each draft's text and choices back, in order |
| ApiGuest.Submit | api/controllers/guest.controller.ts:198-277 | a malformed body is a 400 and no questions a 404, both changing nothing; a fault changes nothing; a zero total is a 500 that changes nothing; the reply is a score exactly when the body is well formed, the exam has questions, none faults and the total is not zero, and then one attempt is appended holding the rounded percentage, and the reply is score, total and that percentage |
| ApiGuest.ScoreStrictly | api/controllers/guest.controller.ts:221-247 | the loop fails exactly when some question faults; otherwise the strict score and the total with a falsy mark counting 1 |
| ApiGuest.SubmitGuestExam | api/controllers/guest.controller.ts:198-277 | the handler's loop and insert produce exactly the transaction `Submit` describes |
| ApiGuest.UnansweredNeverScore | api/controllers/guest.controller.ts:239-241 | with no truthy answer the attempt scores 0 of the total, at 0 percent |
| ApiGuest.ScoredPercentageBounds | api/controllers/guest.controller.ts:215-258 | with non-negative marks the total is at least 1 and the stored percentage lies between 0 and 100 |
| ApiGuest.BlankKeySeparatesRevisions | api/controllers/guest.controller.ts:239-246 | an unanswered question with no correct answer scores under the newer revision and not under this one |
| ApiGuest.CreatedExamIsOwned | api/controllers/guest.controller.ts:301-306 | after a successful create, the creator's exams are their old exams plus the new one, and every other guest's exams are unchanged |
| ApiGuest.AttemptsOn | api/controllers/guest.controller.ts:313-322 | exactly the attempts on the given exams: each such attempt occurs as often as in the table, and no other attempt occurs |
| ApiGuest.GetGuestExamResults | api/controllers/guest.controller.ts:279-333 | a missing code is a 400 and an unknown guest a 404; a guest with no exams gets an empty list; otherwise one row per attempt on their exams, with its exam's title |
| ApiGuest.AppendedAttemptIsListed | api/controllers/guest.controller.ts:279-333 | one more attempt on an existing exam adds one row, at the end of its owner's listing, and leaves every other guest's listing as it was |
| ApiGuest.SubmittedAttemptIsListed | api/controllers/guest.controller.ts:198-333 | after a scored submission, the exam owner's listing gains one row with the attempt id, the exam title, the display name, the reply's percentage and the time; other guests' listings are unchanged |
| DistGuest.ExamLinkIdentifiesExam | dist/controllers/guest.controller.js:78 | under one front-end URL, distinct exams get distinct links |
| DistGuest.StoredQuestions | dist/controllers/guest.controller.js:82-103 | one stored question per draft |
| DistGuest.StoredQuestionsKeepDrafts | dist/controllers/guest.controller.js:94-102 | the i-th stored question keeps the i-th draft's type, text, choices, correct answer and marks under the i-th fresh id |
| DistGuest.InsertQuestions | dist/controllers/guest.controller.js:82-103 | the insert loop produces exactly those stored questions |
| DistGuest.Create | dist/controllers/guest.controller.js:38-115 | missing fields, a NULL pass mark or no questions is a 400, and a time limit without a positive duration is a 400, both changing nothing; otherwise the exam row with the sent owner, title, description, date, pass mark and time-limit, access and download flags, a duration only under a time limit, the link, and its questions |
| DistGuest.CreateGuestExam | dist/controllers/guest.controller.js:38-115 | the handler's insert loop produces exactly the transaction `Create` describes |
| DistGuest.NoTimeLimitStoresNoDuration | dist/controllers/guest.controller.js:71 | without a time limit the stored duration is NULL, whatever was sent |
| DistGuest.DisplayName | dist/controllers/guest.controller.js:241 | the stored name, 'Anonymous' for an empty one, is never empty and is the sent name when there is one |
| DistGuest.EvaluatedCoversQuestions | dist/controllers/guest.controller.js:229-233 | `evaluatedAnswers` has an entry for every question and for no other id |
| DistGuest.EvaluatedEntries | dist/controllers/guest.controller.js:224-233 | with distinct ids, each entry holds its question's trimmed correct answer, trimmed submitted answer and marks |
| DistGuest.EarnsIffEvaluationAgrees | dist/controllers/guest.controller.js:234-236 | a question earns its marks exactly when its two recorded answers agree ignoring case |
| DistGuest.Submit | dist/controllers/guest.controller.js:199-259 | a malformed body is a 400, and no questions or no exam is a 404, all changing nothing; a zero total is a 500 exactly when the exam exists; the reply is a score exactly when the body is well formed, the exam exists with questions and the total is not zero; then one attempt is appended with the rounded percentage, and the reply holds score, total, percentage, evaluations and the download flag |
| DistGuest.SubmitGuestExam | dist/controllers/guest.controller.js:199-259 | the handler's `forEach` and insert produce exactly the transaction `Submit` describes |
| DistGuest.EvaluateLeniently | dist/controllers/guest.controller.js:222-237 | the `forEach` yields the lenient score, the total with a falsy mark counting 1 and the evaluations of the closed-form definitions |
| DistGuest.AttemptsAppendOnly | dist/controllers/guest.controller.js:239-241 | earlier attempts stay as they were and at most one is added, with the fresh id, the display name and the time |
| DistGuest.NonNegativeMarksAlwaysScore | dist/controllers/guest.controller.js:225-241 | with questions and non-negative marks the total is at least 1, so a percentage between 0 and 100 is always stored |
| DistGuest.BlankKeyScoresUnanswered | dist/controllers/guest.controller.js:224-236 | a missing answer against a NULL or blank correct answer scores the question |
| DistGuest.StoredOptionsReadBack | dist/controllers/guest.controller.js:329-334 | a question's stored choices read back for the download as the choices it was created with, and as `[]` when it had none |
| DistGuest.DownloadExam | dist/controllers/guest.controller.js:308-338 | a missing id is a 400 and an unknown exam a 404; otherwise one sheet per question, text and correct answer defaulting to '' and marks to '-' |
| DistGuest.OptionLabel | dist/controllers/guest.controller.js:395 | `String.fromCharCode(65 + i)` is a UTF-16 code unit, 'A' + i for the first 26 options |
| DistGuest.OptionLabelsDistinct | dist/controllers/guest.controller.js:391-395 | options before the code-unit wrap get distinct labels |
| DistGuest.CreateThenDownload | dist/controllers/guest.controller.js:328-338 | a created exam downloads one sheet per draft, with the draft's text, choices and correct answer |
| Font.FirstHitFrom | dist/utils/font.js:5-34 | the first block from a position on that the text hits, or the end of the table; every block before it is missed |
| Font.FirstHit | dist/utils/font.js:5-34 | the first block in precedence order that the text hits, or the end of the table |
| Font.DetectFontIsFirstHit | dist/utils/font.js:4-36 | the chain of range tests returns the font of the first block hit, or 'default' |
| Font.ChainFromIsFirstHit | dist/utils/font.js:5-35 | reading the table as a chain of tests from any block on picks the font of the first block hit from there, or 'default' |
| Font.DetectFontIsChain | dist/utils/font.js:4-36 | the written chain of fifteen tests is the table read as a chain, block by block in the same order |
| Font.DefaultIffNoBlockHit | dist/utils/font.js:35 | the result is 'default' exactly when no character falls in any listed range |
| Font.NoCharIn | dist/utils/font.js:5-34 | a range test fails if and only if every character lies outside the range |
| Font.AsciiIsDefault | dist/utils/font.js:35 | pure ASCII text gets 'default' |
| Font.KanaIsJapanese | dist/utils/font.js:23-26 | Hiragana or Katakana with nothing from an earlier block gives 'japanese' |
| Font.HasCharInIffMember | dist/utils/font.js:5-34 | a range test depends only on the set of characters |
| Font.SameCharactersSameFont | dist/utils/font.js:4-36 | texts with the same set of characters get the same font, whatever their order or count |
| Font.FirstHitDeterminedByHits | dist/utils/font.js:5-34 | two texts that hit the same blocks have the same first hit |
| Font.AppendNeverLater | dist/utils/font.js:5-35 | appending characters never moves the result later in the precedence order |
| Font.FirstHitAtMost | dist/utils/font.js:5-34 | a block the text hits bounds its first hit |
| SrcAuth.FirstDuplicateFrom | src/controllers/auth.controller.ts:191-197 | the first row from a position on whose email is registered; every row before it is free |
| SrcAuth.FirstIncompleteFrom | src/controllers/auth.controller.ts:200-205 | the first row from a position on that lacks a name, email or password; every row before it is complete |
| SrcAuth.SrcBulkRegister | src/controllers/auth.controller.ts:177-227 | a missing or empty list or institute is a 400; the first taken email aborts with its reason; then the first incomplete row aborts with its reason; any abort writes nothing; otherwise every row is inserted |
| SrcAuth.FindDuplicate | src/controllers/auth.controller.ts:191-197 | the pre-check loop finds exactly the first row whose email is taken |
| SrcAuth.InsertRows | src/controllers/auth.controller.ts:200-214 | the insert loop stops at the first incomplete row; without one it yields exactly the closed-form insertion |
| SrcAuth.BulkRegisterStudents | src/controllers/auth.controller.ts:177-227 | the handler's two loops produce exactly the transaction `SrcBulkRegister` describes |
| SrcAuth.SrcInsertedRows | src/controllers/auth.controller.ts:209-213 | the inserts add exactly the fresh ids, each row with its branch, or 'General' when it has none, and keep every existing student |
| SrcAuth.FailFastAllOrNothing | src/controllers/auth.controller.ts:219-223 | an aborted batch leaves the tables unchanged and names the first offending row; a successful one inserts every row |
| SrcAuth.EnableBranches | src/controllers/auth.controller.ts:830-877 | a missing exam id or an empty or missing list is a 400 that changes nothing; only the branch and enrollment tables change |
| SrcAuth.AddBranchRowsStep | src/controllers/auth.controller.ts:842-849 | one more `DO NOTHING` insert equals inserting the grown set at once |
| SrcAuth.EnableEnrollmentsStep | src/controllers/auth.controller.ts:859-866 | one more enrollment upsert equals enabling the grown set at once |
| SrcAuth.AddBranches | src/controllers/auth.controller.ts:842-849 | the branch loop yields exactly the rows for the listed branches, existing rows untouched |
| SrcAuth.EnableStudents | src/controllers/auth.controller.ts:852-866 | the enrollment loop enables exactly the selected students' rows |
| SrcAuth.EnableExamToBranches | src/controllers/auth.controller.ts:830-877 | the handler's loops produce exactly the transaction `EnableBranches` describes |
| SrcAuth.EnableOnlyAdds | src/controllers/auth.controller.ts:842-866 | existing branch rows keep their value; every student of a listed branch ends with an enabled enrollment; nothing is removed or disabled |
| SrcAuth.ListedEnrollments | src/controllers/auth.controller.ts:476-497 | exactly the student's enrollments, restricted to submitted ones when `submitted` is the text 'true' |
| SrcAuth.SubmittedFilterNarrows | src/controllers/auth.controller.ts:476-497 | the filter only narrows: with 'true' it keeps the submitted part of the unfiltered listing, and any other value lists everything |
| Journeys.UnlockRevealsLockedSubmission | dist/controllers/auth.controller.js:541-546 | lock, submit, unlock: the results page hides the score while locked and shows the ledger's score after the lock is cleared |
| Journeys.RepairedEditKeepsGradingTotal | dist/controllers/student.auth.controller.js:86 | after the repaired edit, the total a submission is graded against is the exam's stored `total_marks` |

## Left out

- HTTP and Express plumbing, route tables, server bootstraps and CORS are not modelled. A handler's status codes become reply constructors, and a reply other than success leaves the tables as they were.
- The connection pool, `client.release` and concurrency are not modelled. Each transaction is one atomic step, so the read-then-write race in `submitStudentExam` is not captured.
- bcrypt is not modelled: the password hash is not a column of the model.
- JWT signing and verification are not modelled. `jwt.verify` is the parameter `verified` of `DistAuth.RefreshAccessToken`, and `generateAccessToken` is not modelled.
- Floating point is replaced by exact integers: `toFixed(2)` and float rounding at the Pass/Fail boundary.
- `averageScore` of `getExamSummary` is not modelled: `ApiAuth.ExamSummary` has no such field.
- Scores are stored as the integer score, not as the `toFixed(2)` text.
- `trim`, `toLowerCase` and `toUpperCase` act on ASCII letters and a fixed set of white-space characters, not on full Unicode.
- JavaScript coercion is not modelled. `Number(id)`, `parseInt` and `includes` become typed values, and a NaN from `parseInt` is None.
- A string field of a request that is absent is modelled as ''. A missing array or object is None.
- SQL constraints are not modelled: foreign keys, and the uniqueness of emails within one bulk batch. An insert that would violate one (for example `enableExamToBranches` on an unknown exam) is not modelled as a 500.
- Result order is not modelled. `ORDER BY` and the order of `json_agg` become maps and sets keyed by exam, and `getGuestExamResults` keeps table order instead of `submitted_at DESC`.
- The JOIN with `institutes` is assumed to find the institute. Branch ids are assumed unique, so a JOIN yields one row per student.
- Column defaults are assumed: `has_submitted` false, `is_enabled` of an exam true, `result_locked` false, `assigned_from` not 'branch', the branch row of `enableExamToBranches` enabled, and `expires_at` NULL when `createExam` gets no expiry date (`ApiAuth.ExpiresAtDefault`).
- The `submitted_at` of a first submission is assumed to default to the time of the request: the INSERT of dist/controllers/student.auth.controller.js:90-93 leaves the column out, and the model stores `now` there.
- The guest exam of `api` is assumed to get `enable_time_limit` and `restrict_access` false and `downloadable` NULL, the columns the INSERT of api/controllers/guest.controller.ts:58-62 leaves out.
- A zero total gives `Math.round(NaN)` or `Math.round(Infinity)` as the score of a guest attempt (api/controllers/guest.controller.ts:250-258, and the same division in dist/controllers/guest.controller.js). The model assumes the store rejects that value, so the handler answers 500 and writes nothing.
- The PDF and docx rendering of `downloadExam` is not modelled; only the question normalisation and option labels are.
- `ApiAuth.Create`: models the `api` revision. The `dist` text (dist/controllers/auth.controller.js:401-443) reads the expiry from the body field `expires_at` instead of `expiry_date`, and also writes `downloadable`; that difference is not modelled.
- `DistAuth.EnrollmentViewOf`: models the projection of one row of `getAllStudentExams`. The assembly of the listing and the student object are not modelled.
- `DistStudentAuth.StudentResultById`: the listing and stats are modelled, not the other columns of the joined rows. The id is an integer: a query value that is not a number, which the database refuses with a 500, is not modelled.
- An aggregate over no rows is shown as an empty listing: `json_agg` of no rows is SQL NULL, so `studentResultById` (dist/controllers/student.auth.controller.js:30-37) and the `src` enrollment listing (src/controllers/auth.controller.ts:519-520) reply with `null` where the model has `[]`.
- Date-based counts (`CURRENT_DATE` on the dashboard, `DATE(created_at)` in `searchExams`) are not modelled. The date filter is modelled only as a placeholder binding.
- SQL text beyond the placeholder numbering is not modelled: the LIKE patterns are bound values, not matched.
- The other handlers of these controllers are not part of this model: `loginUser`, `instituteReg`, `studentReg`, `getExams`, `getResults`, `getExamById`, `ViewExamById`, `getDashBoard`, `getBranches`, `createBranch`, `updateStudent`, the announcements, `getTopPerformers`, `getStudentReport`, `getAssignedBranchesForExam`, `searchStudents`, `downloadSubmittedExam`, `getAllExams`, `registerGuestUser`, `getGuestExamsByGuestCode`, dist `getGuestExamById` and dist `getGuestExamResults`.
- `getAssignedStudentsForExam` is not modelled: it reads a `branch_id` column the assignment table does not have.

## Findings

| source | as written | input that shows it | evidently intended | confidence | as-written member | corrected member |
|---|---|---|---|---|---|---|
| api/controllers/auth.controller.ts:834-877 | `updateExamById` replaces the exam's questions but leaves `total_marks` as it was; dist/controllers/auth.controller.js:700-764 does the same | exam 1 with no questions and `total_marks` 0, edited to one question worth 5 marks: the stored total stays 0, while a submission is graded against 5 | `total_marks` is recomputed from the new questions, as `createExam` does at api/controllers/auth.controller.ts:484 | not executed | ApiAuth.UpdateLeavesTotalStale | ApiAuth.UpdateRepaired |
