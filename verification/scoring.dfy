/**
 * The submission evaluator shared by the three submit handlers: which
 * questions earn their marks, what a question is worth, the total, the
 * Pass/Fail decision and the rounded percentage. Everything is exact integer
 * arithmetic: a percentage `100 * score / total` is never formed as a float.
 *
 * The three handlers differ on edge cases, captured by two scoring rules:
 *  - strict (registered students, and guests in the older revision): an empty
 *    or missing answer earns nothing; an answered question whose correct answer
 *    is NULL makes `.trim()` throw;
 *  - lenient (guests in the newer revision): a missing answer and a NULL
 *    correct answer both become '' before comparing, so they match each other;
 * and two marks rules (`score += q.marks`, where NULL adds nothing, versus
 * `q.marks || 1`).
 */
module Scoring {
  import opened Wrappers
  import opened Schema
  import Text

  /** The submitted `answers` object: question id to answer text; an absent key is `undefined`. */
  type Answers = map<QuestionId, string>

  datatype MarksRule = NullAsZero | FalsyAsOne

  /** What a question is worth under a marks rule. */
  function Weight(rule: MarksRule, marks: Option<int>): (w: int)
    ensures rule == FalsyAsOne ==> w != 0
    ensures rule == FalsyAsOne && (marks.None? || marks.value >= 0) ==> w >= 1
    ensures marks.Some? && marks.value != 0 ==> w == marks.value
    ensures marks.None? ==> w == (if rule == NullAsZero then 0 else 1)
  {
    match rule
    case NullAsZero => marks.GetOr(0)
    case FalsyAsOne => if marks.None? || marks.value == 0 then 1 else marks.value
  }

  /** The JavaScript test `if (givenAnswer)`: present and not the empty string. */
  predicate Given(answers: Answers, id: QuestionId) {
    id in answers && answers[id] != ""
  }

  /** Equal after `trim()` and `toLowerCase()`. */
  predicate Matches(given: string, correct: string) {
    Text.Norm(given) == Text.Norm(correct)
  }

  /** Strict rule: the question was answered and the answer matches its correct answer. */
  predicate EarnsStrict(q: Question, answers: Answers) {
    Given(answers, q.id) && q.correctAnswer.Some? && Matches(answers[q.id], q.correctAnswer.value)
  }

  /** Strict rule: the comparison would call `.trim()` on a NULL correct answer. */
  predicate Faults(q: Question, answers: Answers) {
    Given(answers, q.id) && q.correctAnswer.None?
  }

  /** Some question of the list faults (see `AnyFaultIffSomeQuestionFaults`). */
  predicate AnyFault(qs: seq<Question>, answers: Answers) {
    qs != [] && (AnyFault(qs[..|qs| - 1], answers) || Faults(qs[|qs| - 1], answers))
  }

  /** `answers[id] || ''`. */
  function AnswerOr(answers: Answers, id: QuestionId): string {
    if id in answers then answers[id] else ""
  }

  /** `q.correct_answer || ''`. */
  function CorrectOr(q: Question): string {
    q.correctAnswer.GetOr("")
  }

  /** Lenient rule: the defaulted answer matches the defaulted correct answer. */
  predicate EarnsLenient(q: Question, answers: Answers) {
    Matches(AnswerOr(answers, q.id), CorrectOr(q))
  }

  /** The sum of the questions' worth: `questions.reduce((sum, q) => sum + q.marks, 0)`. */
  function TotalMarks(qs: seq<Question>, rule: MarksRule): int {
    if qs == [] then 0 else TotalMarks(qs[..|qs| - 1], rule) + Weight(rule, qs[|qs| - 1].marks)
  }

  /** The marks earned under the strict rule. */
  function StrictScore(qs: seq<Question>, answers: Answers, rule: MarksRule): int {
    if qs == [] then 0
    else StrictScore(qs[..|qs| - 1], answers, rule)
         + (if EarnsStrict(qs[|qs| - 1], answers) then Weight(rule, qs[|qs| - 1].marks) else 0)
  }

  /** The marks earned under the lenient rule (always with `marks || 1`). */
  function LenientScore(qs: seq<Question>, answers: Answers): int {
    if qs == [] then 0
    else LenientScore(qs[..|qs| - 1], answers)
         + (if EarnsLenient(qs[|qs| - 1], answers) then Weight(FalsyAsOne, qs[|qs| - 1].marks) else 0)
  }

  /** Every question is worth at least nothing. */
  ghost predicate NonNegativeWeights(qs: seq<Question>, rule: MarksRule) {
    forall i :: 0 <= i < |qs| ==> Weight(rule, qs[i].marks) >= 0
  }

  const DefaultPassPercentage: int := 35

  /**
   * `examMeta.rows[0]?.pass_percentage ?? 35`: the default applies only when the
   * stored value is NULL or the exam row is missing; an explicit 0 is kept.
   */
  function PassMark(stored: Option<int>): (p: int)
    ensures stored.None? ==> p == 35
    ensures stored.Some? ==> p == stored.value
  {
    stored.GetOr(DefaultPassPercentage)
  }

  /**
   * A stored pass percentage of 0 is kept, not replaced by the default: every
   * non-negative score passes under it, while a score of 0 fails under the
   * default whatever the total.
   */
  lemma StoredZeroIsKept(score: int, total: int)
    requires score >= 0
    ensures Grade(score, total, PassMark(Some(0))) == Pass
    ensures Grade(0, total, PassMark(None)) == Fail
  {
  }

  /**
   * `percentage = totalMarks > 0 ? (score / totalMarks) * 100 : 0` and
   * `status = percentage >= passPercentage ? 'Pass' : 'Fail'`, compared exactly.
   */
  function Grade(score: int, total: int, passMark: int): (s: Status)
    ensures s == Pass <==> (if total > 0 then 100 * score >= passMark * total else 0 >= passMark)
  {
    // The percentage as the fraction num / den, den > 0.
    var (num, den) := if total > 0 then (100 * score, total) else (0, 1);
    if num >= passMark * den then Pass else Fail
  }

  /** Mathematical floor of a / b. */
  function FloorDiv(a: int, b: int): (q: int)
    requires b != 0
    ensures b > 0 ==> b * q <= a < b * q + b
    ensures b < 0 ==> b * q >= a > b * q + b
  {
    if b > 0 then a / b else (-a) / (-b)
  }

  /** `Math.round(num / den)`: the nearest integer, halves rounded up. */
  function RoundDiv(num: int, den: int): (r: int)
    requires den != 0
    ensures den > 0 ==> 2 * den * r - den <= 2 * num < 2 * den * r + den
    ensures den < 0 ==> 2 * den * r - den >= 2 * num > 2 * den * r + den
  {
    FloorDiv(2 * num + den, 2 * den)
  }

  /**
   * `Math.round((totalScore / totalMarks) * 100)`; None when `totalMarks` is 0,
   * where JavaScript produces a non-finite value.
   */
  function RoundedPercentage(score: int, total: int): (p: Option<int>)
    ensures p.None? <==> total == 0
    ensures total > 0 ==> 2 * total * p.value - total <= 200 * score < 2 * total * p.value + total
  {
    if total == 0 then None else Some(RoundDiv(100 * score, total))
  }

  // ---------------------------------------------------------------------------
  // Properties of the evaluator

  /** With non-negative worths, the strict score lies between 0 and the total. */
  lemma {:induction false} StrictScoreBounds(qs: seq<Question>, answers: Answers, rule: MarksRule)
    requires NonNegativeWeights(qs, rule)
    ensures 0 <= StrictScore(qs, answers, rule) <= TotalMarks(qs, rule)
  {
    if qs != [] {
      StrictScoreBounds(qs[..|qs| - 1], answers, rule);
    }
  }

  /** With non-negative worths, answering more questions correctly never lowers the strict score. */
  lemma {:induction false} StrictScoreMonotone(qs: seq<Question>, before: Answers, after: Answers, rule: MarksRule)
    requires NonNegativeWeights(qs, rule)
    requires forall i :: 0 <= i < |qs| && EarnsStrict(qs[i], before) ==> EarnsStrict(qs[i], after)
    ensures StrictScore(qs, before, rule) <= StrictScore(qs, after, rule)
  {
    if qs != [] {
      StrictScoreMonotone(qs[..|qs| - 1], before, after, rule);
    }
  }

  /** The strict score only counts answered questions: with nothing answered it is 0 and nothing faults. */
  lemma {:induction false} UnansweredScoresNothing(qs: seq<Question>, answers: Answers, rule: MarksRule)
    requires forall i :: 0 <= i < |qs| ==> !Given(answers, qs[i].id)
    ensures StrictScore(qs, answers, rule) == 0
    ensures !AnyFault(qs, answers)
  {
    if qs != [] {
      UnansweredScoresNothing(qs[..|qs| - 1], answers, rule);
    }
  }

  /** The evaluation throws exactly when some question of the list faults. */
  lemma {:induction false} AnyFaultIffSomeQuestionFaults(qs: seq<Question>, answers: Answers)
    ensures AnyFault(qs, answers) <==> exists i :: 0 <= i < |qs| && Faults(qs[i], answers)
  {
    if qs != [] {
      var init := qs[..|qs| - 1];
      AnyFaultIffSomeQuestionFaults(init, answers);
      if AnyFault(init, answers) {
        var i :| 0 <= i < |init| && Faults(init[i], answers);
        assert qs[i] == init[i];
      }
      if exists i :: 0 <= i < |qs| && Faults(qs[i], answers) {
        var i :| 0 <= i < |qs| && Faults(qs[i], answers);
        if i < |init| {
          assert init[i] == qs[i];
        }
      }
    }
  }

  /** Under `marks || 1`, with no negative marks, a non-empty exam has a total of at least one per question. */
  lemma {:induction false} FalsyAsOneTotalPositive(qs: seq<Question>)
    requires forall i :: 0 <= i < |qs| ==> qs[i].marks.None? || qs[i].marks.value >= 0
    ensures TotalMarks(qs, FalsyAsOne) >= |qs|
  {
    if qs != [] {
      FalsyAsOneTotalPositive(qs[..|qs| - 1]);
    }
  }

  /** With non-negative worths, the lenient score lies between 0 and the total. */
  lemma {:induction false} LenientScoreBounds(qs: seq<Question>, answers: Answers)
    requires NonNegativeWeights(qs, FalsyAsOne)
    ensures 0 <= LenientScore(qs, answers) <= TotalMarks(qs, FalsyAsOne)
  {
    if qs != [] {
      LenientScoreBounds(qs[..|qs| - 1], answers);
    }
  }

  /**
   * The pass threshold: with total T > 0 and pass mark P >= 0, a score of
   * exactly ceil(P * T / 100) passes and one mark less fails.
   */
  lemma PassThreshold(total: int, passMark: int)
    requires total > 0 && passMark >= 0
    ensures Grade((passMark * total + 99) / 100, total, passMark) == Pass
    ensures Grade((passMark * total + 99) / 100 - 1, total, passMark) == Fail
  {
    var n := passMark * total;
    var c := (n + 99) / 100;
    var r := (n + 99) % 100;
    assert n + 99 == 100 * c + r && 0 <= r < 100;
    assert 100 * c >= n;
    assert 100 * (c - 1) < n;
  }

  /** A positive factor keeps the sign of a product. */
  lemma PositiveFactor(a: int, b: int)
    requires a > 0
    ensures a * b > 0 ==> b > 0
    ensures a * b <= 0 ==> b <= 0
  {
  }

  /** A rounded percentage of a score between 0 and a positive total lies between 0 and 100. */
  lemma RoundedPercentageBounds(score: int, total: int)
    requires 0 <= score <= total && total > 0
    ensures 0 <= RoundedPercentage(score, total).value <= 100
  {
    var p := RoundedPercentage(score, total).value;
    assert total * (2 * p + 1) == 2 * total * p + total > 200 * score >= 0;
    PositiveFactor(total, 2 * p + 1);
    assert total * (2 * p - 201) == 2 * total * p - total - 200 * total <= 200 * score - 200 * total <= 0;
    PositiveFactor(total, 2 * p - 201);
  }

  /** A score of 0 over a positive total rounds to 0 percent. */
  lemma ZeroScoreIsZeroPercent(total: int)
    requires total > 0
    ensures RoundedPercentage(0, total) == Some(0)
  {
    var p := RoundedPercentage(0, total).value;
    RoundedPercentageBounds(0, total);
    assert total * (2 * p - 1) == 2 * total * p - total <= 0;
    PositiveFactor(total, 2 * p - 1);
  }
}
