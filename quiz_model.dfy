/** The data classes of the quiz app: quizzes, their questions, the result
    of one attempt and the user's profile, and the percentage a result
    scores. Timestamps (milliseconds since the epoch) are plain integers
    supplied by the caller. */
module QuizModel {
  import opened Collections

  datatype Quiz = Quiz(
    id: string,
    title: string,
    description: string,
    category: string,
    // A display hint: nothing ties it to |questions|.
    questionCount: int,
    duration: string,
    questions: seq<Question>,
    isPopular: bool,
    createdAt: int)

  datatype Question = Question(
    id: string,
    text: string,
    options: seq<string>,
    correctAnswerIndex: int,
    explanation: Option<string>)

  datatype QuizResult = QuizResult(
    quizId: string,
    score: int,
    totalQuestions: int,
    timeSpent: int,
    completedAt: int)

  datatype UserProfile = UserProfile(
    id: string,
    name: string,
    email: string,
    completedQuizzes: int,
    bestScore: int,
    totalScore: int,
    createdAt: int)

  /** The correct answer names one of the options. The constructor does not
      check this; the seed catalog satisfies it. */
  predicate HasValidAnswer(q: Question)
  {
    0 <= q.correctAnswerIndex < |q.options|
  }

  /** A profile with the constructor's defaults: the test user, nothing
      completed yet. */
  function DefaultProfile(createdAt: int): UserProfile
  {
    UserProfile("test_user", "Test User", "test@ltquiz.com", 0, 0, 0, createdAt)
  }

  /** Kotlin's `Int` division by a positive divisor, which rounds toward
      zero: the quotient has the sign of `a` and leaves a remainder of the
      same sign, smaller than `b` in magnitude. */
  function TruncatingDiv(a: int, b: int): (q: int)
    requires b > 0
    ensures a >= 0 ==> 0 <= q && q * b <= a < q * b + b
    ensures a < 0 ==> q <= 0 && a <= q * b < a + b
  {
    if a >= 0 then
      EuclideanDivBounds(a, b);
      a / b
    else
      EuclideanDivBounds(-a, b);
      NegatedProduct((-a) / b, b);
      -((-a) / b)
  }

  /** For a non-negative dividend, Dafny's division rounds down: the
      remainder lies in `[0, b)`. */
  lemma EuclideanDivBounds(n: int, b: int)
    requires n >= 0 && b > 0
    ensures 0 <= n / b && (n / b) * b <= n < (n / b) * b + b
  {
    assert n == (n / b) * b + n % b;
  }

  lemma NegatedProduct(m: int, b: int)
    ensures (-m) * b == -(m * b)
  {
  }

  /** `QuizResult.percentage`: the share of correct answers in whole
      percent, rounded toward zero; 0 when the result has no questions. */
  function Percentage(r: QuizResult): (p: int)
    ensures r.totalQuestions <= 0 ==> p == 0
    ensures r.totalQuestions > 0 && r.score >= 0 ==>
              0 <= p && p * r.totalQuestions <= r.score * 100 < (p + 1) * r.totalQuestions
    ensures r.totalQuestions > 0 && r.score < 0 ==>
              p <= 0 && r.score * 100 <= p * r.totalQuestions < r.score * 100 + r.totalQuestions
  {
    if r.totalQuestions > 0 then TruncatingDiv(r.score * 100, r.totalQuestions) else 0
  }

  lemma MulMonotone(x: int, y: int, b: int)
    requires x <= y && b > 0
    ensures x * b <= y * b
  {
    assert y * b - x * b == (y - x) * b;
  }

  /** A result with no questions scores 0 whatever its raw score: there is
      no division by zero. */
  lemma PercentageWithoutQuestions(r: QuizResult)
    requires r.totalQuestions <= 0
    ensures Percentage(r) == 0
  {
  }

  /** A raw score between 0 and the number of questions gives a
      percentage between 0 and 100. */
  lemma PercentageInRange(r: QuizResult)
    requires 0 < r.totalQuestions && 0 <= r.score <= r.totalQuestions
    ensures 0 <= Percentage(r) <= 100
  {
    var p, t := Percentage(r), r.totalQuestions;
    if p > 100 {
      MulMonotone(101, p, t);
      MulMonotone(r.score, t, 100);
    }
  }

  /** All answers right is exactly 100 percent. */
  lemma PercentageOfFullScore(r: QuizResult)
    requires 0 < r.totalQuestions && r.score == r.totalQuestions
    ensures Percentage(r) == 100
  {
    var p, t := Percentage(r), r.totalQuestions;
    if p > 100 {
      MulMonotone(101, p, t);
    } else if p < 100 {
      MulMonotone(p + 1, 100, t);
    }
  }

  /** No answer right is 0 percent. */
  lemma PercentageOfZeroScore(r: QuizResult)
    requires 0 < r.totalQuestions && r.score == 0
    ensures Percentage(r) == 0
  {
    var p, t := Percentage(r), r.totalQuestions;
    if p > 0 {
      MulMonotone(1, p, t);
    }
  }

  /** For a fixed number of questions, a higher raw score never gives a
      lower percentage, for negative scores too. */
  lemma PercentageMonotone(r1: QuizResult, r2: QuizResult)
    requires 0 < r1.totalQuestions == r2.totalQuestions
    requires r1.score <= r2.score
    ensures Percentage(r1) <= Percentage(r2)
  {
    var p1, p2, t := Percentage(r1), Percentage(r2), r1.totalQuestions;
    if p1 > p2 {
      MulMonotone(p2 + 1, p1, t);
      MulMonotone(r1.score, r2.score, 100);
    }
  }
}
