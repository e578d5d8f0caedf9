/** The final test page: a fixed question bank, the answer map the radio
    groups fill in, the submit gate, and the score shown on submission. */
module FinalTest {
  import Rounding

  datatype Question = Question(id: int, prompt: string, options: seq<string>, correctAnswer: int)

  /** Question id to the index of the chosen option. */
  type Answers = map<int, int>

  /** The page's hard-coded two-question bank. */
  const MockTest: seq<Question> := [
    Question(1, "What is React?",
      ["A JavaScript library for building user interfaces", "A programming language",
       "A database management system", "An operating system"], 0),
    Question(2, "What hook is used for side effects in React?",
      ["useState", "useEffect", "useContext", "useReducer"], 1)
  ]

  /** No two questions share an id. */
  predicate DistinctIds(bank: seq<Question>) {
    forall i, j :: 0 <= i < j < |bank| ==> bank[i].id != bank[j].id
  }

  /** Distinct ids, at least two options each, and a correct answer that
      indexes one of them. */
  predicate WellFormed(bank: seq<Question>) {
    && DistinctIds(bank)
    && (forall i :: 0 <= i < |bank| ==> |bank[i].options| >= 2)
    && (forall i :: 0 <= i < |bank| ==> 0 <= bank[i].correctAnswer < |bank[i].options|)
  }

  lemma MockTestWellFormed()
    ensures WellFormed(MockTest)
    ensures |MockTest| == 2
  {
  }

  /** The stored answer for the question is its correct answer; a question
      with no stored answer is never correct. */
  predicate IsCorrect(q: Question, answers: Answers) {
    q.id in answers && answers[q.id] == q.correctAnswer
  }

  /** The number of questions of the bank that have any stored answer. */
  function AnsweredCount(bank: seq<Question>, answers: Answers): (n: nat)
    ensures n <= |bank|
  {
    if |bank| == 0 then 0
    else (if bank[0].id in answers then 1 else 0) + AnsweredCount(bank[1..], answers)
  }

  /** The `reduce` over the bank that counts correct answers. */
  function CountCorrect(bank: seq<Question>, answers: Answers): (n: nat)
    ensures n <= AnsweredCount(bank, answers) <= |bank|
    ensures n == |bank| <==> forall i :: 0 <= i < |bank| ==> IsCorrect(bank[i], answers)
    ensures n == 0 <==> forall i :: 0 <= i < |bank| ==> !IsCorrect(bank[i], answers)
  {
    if |bank| == 0 then 0
    else
      var rest := CountCorrect(bank[1..], answers);
      assert forall i :: 1 <= i < |bank| ==> bank[i] == bank[1..][i - 1];
      (if IsCorrect(bank[0], answers) then 1 else 0) + rest
  }

  /** A single question counts exactly when its stored answer is the correct one. */
  lemma CountCorrectSingle(q: Question, answers: Answers)
    ensures CountCorrect([q], answers) == if IsCorrect(q, answers) then 1 else 0
  {
    assert [q][1..] == [];
  }

  /** The count of a concatenation is the sum of the parts' counts. Together
      with the single-question case this fixes the count on every bank: one
      per question whose stored answer equals its correct answer. */
  lemma {:induction false} CountCorrectAppend(a: seq<Question>, b: seq<Question>, answers: Answers)
    ensures CountCorrect(a + b, answers) == CountCorrect(a, answers) + CountCorrect(b, answers)
    decreases |a|
  {
    if |a| == 0 {
      assert a + b == b;
    } else {
      assert (a + b)[1..] == a[1..] + b;
      CountCorrectAppend(a[1..], b, answers);
    }
  }

  /** `Math.round(correct / total * 100)`; with no questions it is `NaN`. */
  datatype TestScore = Percent(value: int) | NaN

  function ScoreOf(correct: nat, total: nat): TestScore
  {
    if total == 0 then NaN
    else Percent(Rounding.Round(correct as real / total as real * 100.0))
  }

  const RefundText := "Congratulations! You'll get a refund!"
  const StudyText := "Keep studying to improve your score!"

  /** What `handleSubmit` shows: the score and the verdict line of the toast. */
  datatype Submission = Submission(score: TestScore, verdict: string)

  function HandleSubmit(bank: seq<Question>, answers: Answers): (s: Submission)
    // the refund line is chosen exactly when the score is at least 90
    ensures s.verdict == RefundText <==> s.score.Percent? && s.score.value >= 90
    ensures s.verdict == RefundText || s.verdict == StudyText
    // a non-empty bank always yields a percentage in [0, 100]
    ensures |bank| > 0 ==> s.score.Percent? && 0 <= s.score.value <= 100
    ensures |bank| == 0 ==> s.score == NaN
    // otherwise the score is the rounded percentage of correct answers
    ensures |bank| > 0 ==>
              s.score == Percent((200 * CountCorrect(bank, answers) + |bank|) / (2 * |bank|))
    // all correct scores 100, none correct scores 0
    ensures (|bank| > 0 && forall i :: 0 <= i < |bank| ==> IsCorrect(bank[i], answers))
            ==> s.score == Percent(100)
    ensures (|bank| > 0 && forall i :: 0 <= i < |bank| ==> !IsCorrect(bank[i], answers))
            ==> s.score == Percent(0)
  {
    var total := |bank|;
    var correct := CountCorrect(bank, answers);
    var score := ScoreOf(correct, total);
    ScoreFacts(correct, total);
    ScoreForm(correct, total);
    Submission(score, if score.Percent? && score.value >= 90 then RefundText else StudyText)
  }

  lemma ScoreFacts(correct: nat, total: nat)
    requires correct <= total
    ensures total > 0 ==> ScoreOf(correct, total).Percent? && 0 <= ScoreOf(correct, total).value <= 100
    ensures total > 0 && correct == total ==> ScoreOf(correct, total) == Percent(100)
    ensures total > 0 && correct == 0 ==> ScoreOf(correct, total) == Percent(0)
  {
    if total > 0 {
      PercentBounds(correct, total);
      if correct == total {
        assert correct as real / total as real == 1.0;
        Rounding.RoundInt(100);
      }
      if correct == 0 {
        Rounding.RoundInt(0);
      }
    }
  }

  lemma ScoreForm(correct: nat, total: nat)
    ensures total > 0 ==> ScoreOf(correct, total) == Percent((200 * correct + total) / (2 * total))
  {
    if total > 0 {
      ScoreIntegerForm(correct, total);
    }
  }

  /** A score lies in [0, 100] whenever the correct count does not exceed the total. */
  lemma PercentBounds(correct: nat, total: nat)
    requires 0 < total && correct <= total
    ensures ScoreOf(correct, total).Percent?
    ensures 0 <= ScoreOf(correct, total).value <= 100
  {
    var x := correct as real / total as real;
    assert x * total as real == correct as real;
    if x > 1.0 {
      Rounding.ScaleStrict(1.0, x, total as real);
    }
    Rounding.RoundMonotone(0.0, x * 100.0);
    Rounding.RoundMonotone(x * 100.0, 100.0);
    Rounding.RoundInt(0);
    Rounding.RoundInt(100);
  }

  /** The score is round-half-up of 100·correct/total, computed in integers. */
  lemma ScoreIntegerForm(correct: nat, total: nat)
    requires 0 < total
    ensures ScoreOf(correct, total) == Percent((200 * correct + total) / (2 * total))
  {
    var x := correct as real / total as real;
    assert x * 100.0 == (100 * correct) as real / total as real by {
      assert x * total as real == correct as real;
    }
    Rounding.RoundRatio(100 * correct, total);
  }

  /** More correct answers never lower the score. */
  lemma ScoreMonotone(c1: nat, c2: nat, total: nat)
    requires 0 < total && c1 <= c2
    ensures ScoreOf(c1, total).value <= ScoreOf(c2, total).value
  {
    var x1 := c1 as real / total as real;
    var x2 := c2 as real / total as real;
    assert x1 * total as real == c1 as real;
    assert x2 * total as real == c2 as real;
    if x2 < x1 {
      Rounding.ScaleStrict(x2, x1, total as real);
    }
    Rounding.RoundMonotone(x1 * 100.0, x2 * 100.0);
  }

  /** On the page's two-question bank the only possible scores are 0, 50 and 100,
      and the refund line appears exactly when both answers are correct. */
  lemma MockTestScores(answers: Answers)
    ensures HandleSubmit(MockTest, answers).score in {Percent(0), Percent(50), Percent(100)}
    ensures HandleSubmit(MockTest, answers).verdict == RefundText
            <==> IsCorrect(MockTest[0], answers) && IsCorrect(MockTest[1], answers)
  {
    var c := CountCorrect(MockTest, answers);
    ScoreIntegerForm(c, 2);
    assert c == 0 || c == 1 || c == 2;
  }

  /** Choosing an option: the question's entry is set, every other entry stays. */
  function SelectAnswer(answers: Answers, questionId: int, option: int): (r: Answers)
    ensures r.Keys == answers.Keys + {questionId}
    ensures r[questionId] == option
    ensures forall k :: k in answers && k != questionId ==> r[k] == answers[k]
  {
    answers[questionId := option]
  }

  /** The submit button's enabling condition. */
  predicate SubmitEnabled(bank: seq<Question>, answers: Answers) {
    |answers.Keys| == |bank|
  }

  /** Every key of the answer map is the id of a question of the bank: the
      only keys the radio groups ever write. */
  predicate KeysFromBank(bank: seq<Question>, answers: Answers) {
    forall k :: k in answers ==> k in IdSet(bank)
  }

  function IdSet(bank: seq<Question>): set<int>
  {
    if |bank| == 0 then {} else {bank[0].id} + IdSet(bank[1..])
  }

  lemma {:induction false} IdSetMembers(bank: seq<Question>)
    ensures forall k :: k in IdSet(bank) <==> exists i :: 0 <= i < |bank| && bank[i].id == k
  {
    if |bank| > 0 {
      IdSetMembers(bank[1..]);
      assert forall i :: 1 <= i < |bank| ==> bank[i] == bank[1..][i - 1];
      forall k | exists i :: 0 <= i < |bank| && bank[i].id == k
        ensures k in IdSet(bank)
      {
        var i :| 0 <= i < |bank| && bank[i].id == k;
        if i > 0 {
          assert bank[1..][i - 1].id == k;
        }
      }
    }
  }

  lemma {:induction false} IdSetSize(bank: seq<Question>)
    requires DistinctIds(bank)
    ensures |IdSet(bank)| == |bank|
  {
    if |bank| > 0 {
      assert DistinctIds(bank[1..]) by {
        assert forall i :: 1 <= i < |bank| ==> bank[i] == bank[1..][i - 1];
      }
      IdSetSize(bank[1..]);
      IdSetMembers(bank[1..]);
      assert bank[0].id !in IdSet(bank[1..]);
    }
  }

  /** Selecting an option of a bank question keeps the keys inside the bank. */
  lemma SelectKeepsKeysFromBank(bank: seq<Question>, answers: Answers, i: int, option: int)
    requires KeysFromBank(bank, answers) && 0 <= i < |bank|
    ensures KeysFromBank(bank, SelectAnswer(answers, bank[i].id, option))
  {
    IdSetMembers(bank);
  }

  /** With keys drawn only from the bank's distinct ids, the button is enabled
      exactly when every question has an answer. */
  lemma SubmitEnabledIffComplete(bank: seq<Question>, answers: Answers)
    requires DistinctIds(bank) && KeysFromBank(bank, answers)
    ensures SubmitEnabled(bank, answers) <==> forall i :: 0 <= i < |bank| ==> bank[i].id in answers
  {
    IdSetSize(bank);
    IdSetMembers(bank);
    assert answers.Keys <= IdSet(bank) by {
      forall k | k in answers.Keys
        ensures k in IdSet(bank)
      {
        assert k in answers;
      }
    }
    if SubmitEnabled(bank, answers) {
      SameSizeSubset(answers.Keys, IdSet(bank));
    }
    if forall i :: 0 <= i < |bank| ==> bank[i].id in answers {
      forall k | k in IdSet(bank)
        ensures k in answers.Keys
      {
        var i :| 0 <= i < |bank| && bank[i].id == k;
      }
      assert IdSet(bank) == answers.Keys;
    }
  }

  /** A subset as large as its superset is the superset. */
  lemma SameSizeSubset<T>(a: set<T>, b: set<T>)
    requires a <= b && |a| == |b|
    ensures a == b
  {
    var rest := b - a;
    assert b == a + rest;
    assert a * rest == {};
  }
}
