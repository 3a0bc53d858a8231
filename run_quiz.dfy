/** The scoring loop of the quiz runner (run_quiz.py, `run_quiz`): each
    question is asked in order, the typed line is graded against the stored
    answer, wrong answers are recorded, and the verdict is computed from the
    count of right ones. The lines the user types are given as a sequence. */
module RunQuiz {
  import opened Text
  import opened Normalizer
  import opened QuizData

  /** How `run_quiz` ends: with a result, by the process exiting because the
      input ran out after `answered` answers, or by dividing by a question
      count of zero. */
  datatype RunOutcome = Finished(result: QuizResult) | Interrupted(answered: nat) | DivisionByZero

  /** What a failure records as the user's answer when nothing was typed. */
  const NoAnswer: string := "(no answer)"

  /** The answer `get_user_answer` returns for one typed line gets credit for
      question `q`. */
  predicate Correct(q: Question, line: string) {
    AnswersMatch(Strip(line), q.originalAnswer)
  }

  /** The failure recorded for question `q` answered with `line`. */
  function FailureFor(q: Question, line: string): FailureRecord {
    var answer := Strip(line);
    FailureRecord(IntToString(q.id), q.question,
                  if answer == [] then NoAnswer else FormatAnswerDisplay(answer),
                  q.originalAnswer)
  }

  /** A failure names the question by the decimal form of its id, keeps its
      text and its stored answer, and records the no-answer marker for an
      empty answer and otherwise the display form of the answer, which
      grades exactly like the answer itself. */
  lemma FailureForSpec(q: Question, line: string)
    ensures FailureFor(q, line).questionId == IntToString(q.id)
    ensures FailureFor(q, line).question == q.question
    ensures FailureFor(q, line).correctAnswer == q.originalAnswer
    ensures Strip(line) == [] ==> FailureFor(q, line).userAnswer == NoAnswer
    ensures Strip(line) != [] ==>
              NormalizeAnswer(FailureFor(q, line).userAnswer) == NormalizeAnswer(Strip(line))
  {
    NormalizeOfFormat(Strip(line));
  }

  /** The number of right answers among the first `n` grades. */
  function CorrectCount(g: seq<bool>, n: nat): nat
    requires n <= |g|
  {
    if n == 0 then 0 else CorrectCount(g, n - 1) + (if g[n - 1] then 1 else 0)
  }

  /** The entries among the first `n` of `xs` whose grade is a miss, in order. */
  function Missed<T>(xs: seq<T>, g: seq<bool>, n: nat): seq<T>
    requires n <= |xs| && n <= |g|
  {
    if n == 0 then []
    else if g[n - 1] then Missed(xs, g, n - 1)
    else Missed(xs, g, n - 1) + [xs[n - 1]]
  }

  /** `f` of each of the first `n` questions and the line typed for it. */
  function PerAnswer<T>(f: (Question, string) -> T, qs: seq<Question>, lines: seq<string>, n: nat): (r: seq<T>)
    requires n <= |qs| && n <= |lines|
    ensures |r| == n
  {
    if n == 0 then [] else PerAnswer(f, qs, lines, n - 1) + [f(qs[n - 1], lines[n - 1])]
  }

  /** Entry `i` is `f` of question `i` and line `i`. */
  lemma {:induction false} PerAnswerAt<T>(f: (Question, string) -> T, qs: seq<Question>, lines: seq<string>,
                                          n: nat, i: nat)
    requires n <= |qs| && n <= |lines| && i < n
    ensures PerAnswer(f, qs, lines, n)[i] == f(qs[i], lines[i])
  {
    if i < n - 1 {
      PerAnswerAt(f, qs, lines, n - 1, i);
    }
  }

  /** Whether each of the first `n` answers gets credit. */
  function Grades(qs: seq<Question>, lines: seq<string>, n: nat): (g: seq<bool>)
    requires n <= |qs| && n <= |lines|
    ensures |g| == n
  {
    PerAnswer(Correct, qs, lines, n)
  }

  /** The failure each of the first `n` answers would record. */
  function Candidates(qs: seq<Question>, lines: seq<string>, n: nat): (c: seq<FailureRecord>)
    requires n <= |qs| && n <= |lines|
    ensures |c| == n
  {
    PerAnswer(FailureFor, qs, lines, n)
  }

  /** `run_quiz` with the lines the user types given as `lines` and the
      completion time as `completedAt`. The score is exact: the division and
      the comparison with the threshold are done on rationals. */
  method RunQuiz(quiz: Quiz, passThreshold: real, lines: seq<string>, completedAt: string)
    returns (outcome: RunOutcome)
    ensures outcome.Interrupted? <==> |lines| < |quiz.questions|
    ensures outcome.Interrupted? ==> outcome.answered == |lines|
    ensures outcome.DivisionByZero? <==> quiz.questions == []
    ensures outcome.Finished? ==>
              var r, qs, n := outcome.result, quiz.questions, |quiz.questions|;
              && n <= |lines|
              && r.quizId == quiz.quizId && r.completedAt == completedAt
              && r.totalQuestions == n
              && r.correctAnswers == CorrectCount(Grades(qs, lines, n), n)
              && r.failures == Missed(Candidates(qs, lines, n), Grades(qs, lines, n), n)
              && r.correctAnswers == |MatchedQuestions(qs, lines, n)|
              && FailuresOfMisses(qs, lines, n, r.failures)
              && r.correctAnswers + |r.failures| == n
              && ScoreAgrees(r, passThreshold)
              && r.timeSpent == 0.0
  {
    var answered, correctCount, failures := AskAll(quiz.questions, lines);
    if answered < |quiz.questions| {
      return Interrupted(answered);
    }
    if |quiz.questions| == 0 {
      return DivisionByZero;
    }
    CountPlusMissed(Candidates(quiz.questions, lines, answered), Grades(quiz.questions, lines, answered), answered);
    RunCountIsMatches(quiz.questions, lines, answered);
    RunFailuresAreMisses(quiz.questions, lines, answered);
    var result := MakeResult(quiz.quizId, completedAt, |quiz.questions|, correctCount, failures, passThreshold);
    outcome := Finished(result);
  }

  /** After `i` questions, `correctCount` and `failures` are the count of
      right answers and the failures recorded so far. */
  predicate Progress(questions: seq<Question>, lines: seq<string>, i: nat,
                     correctCount: nat, failures: seq<FailureRecord>)
  {
    && i <= |questions| && i <= |lines|
    && correctCount == CorrectCount(Grades(questions, lines, i), i)
    && failures == Missed(Candidates(questions, lines, i), Grades(questions, lines, i), i)
  }

  /** The question loop of `run_quiz`: each question in turn takes the next
      line and either counts as right or records a failure. It stops early,
      after `answered` questions, when the lines run out. */
  method AskAll(questions: seq<Question>, lines: seq<string>)
    returns (answered: nat, correctCount: nat, failures: seq<FailureRecord>)
    ensures answered == if |questions| <= |lines| then |questions| else |lines|
    ensures Progress(questions, lines, answered, correctCount, failures)
  {
    correctCount, failures := 0, [];
    var i := 0;
    while i < |questions|
      invariant i <= |questions|
      invariant Progress(questions, lines, i, correctCount, failures)
    {
      if i == |lines| {
        // `get_user_answer` meets the end of input and exits.
        return i, correctCount, failures;
      }
      correctCount, failures := AskQuestion(questions, lines, i, correctCount, failures);
      i := i + 1;
    }
    answered := i;
  }

  /** One pass of the loop: question `i` takes line `i`, stripped as
      `get_user_answer` does, and either adds one right answer or appends its
      failure. */
  method AskQuestion(questions: seq<Question>, lines: seq<string>, i: nat,
                     correctCount: nat, failures: seq<FailureRecord>)
    returns (correctCount': nat, failures': seq<FailureRecord>)
    requires i < |questions| && i < |lines|
    requires Progress(questions, lines, i, correctCount, failures)
    ensures Progress(questions, lines, i + 1, correctCount', failures')
  {
    var userAnswer := Strip(lines[i]);
    var isCorrect := AnswersMatch(userAnswer, questions[i].originalAnswer);
    var failure := FailureFor(questions[i], lines[i]);
    ghost var grades, candidates := Grades(questions, lines, i), Candidates(questions, lines, i);
    CountStep(grades, isCorrect);
    MissedStep(candidates, grades, failure, isCorrect);
    if isCorrect {
      correctCount', failures' := correctCount + 1, failures;
    } else {
      correctCount', failures' := correctCount, failures + [failure];
    }
  }

  /** The percentage in a result is its right answers out of its questions,
      and the result passes exactly when that reaches the threshold, the
      threshold itself included. */
  predicate ScoreAgrees(r: QuizResult, passThreshold: real) {
    && r.scorePercentage * r.totalQuestions as real == r.correctAnswers as real * 100.0
    && (r.passed <==> r.correctAnswers as real * 100.0 >= passThreshold * r.totalQuestions as real)
  }

  /** The end of `run_quiz`: the score as a percentage of the questions, the
      verdict against the threshold, and the result record. */
  method MakeResult(quizId: string, completedAt: string, totalQuestions: int, correctCount: int,
                    failures: seq<FailureRecord>, passThreshold: real)
    returns (result: QuizResult)
    requires totalQuestions > 0
    ensures result.quizId == quizId && result.completedAt == completedAt
    ensures result.totalQuestions == totalQuestions && result.correctAnswers == correctCount
    ensures result.failures == failures && result.timeSpent == 0.0
    ensures ScoreAgrees(result, passThreshold)
  {
    var scorePercentage := (correctCount as real / totalQuestions as real) * 100.0;
    var passed := scorePercentage >= passThreshold;
    ScoreMeaning(correctCount, totalQuestions, passThreshold);
    result := QuizResult(quizId, completedAt, totalQuestions, correctCount,
                         scorePercentage, passed, failures, 0.0);
  }

  /** The percentage times the question count is a hundred times the right
      answers, and it reaches the threshold exactly when a hundred times the
      right answers reaches the threshold times the question count. */
  lemma ScoreMeaning(correct: int, total: int, threshold: real)
    requires total > 0
    ensures (correct as real / total as real) * 100.0 * total as real == correct as real * 100.0
    ensures (correct as real / total as real) * 100.0 >= threshold
            <==> correct as real * 100.0 >= threshold * total as real
  {
    var s := (correct as real / total as real) * 100.0;
    assert s * total as real == correct as real * 100.0;
    ScaleMonotone(s, threshold, total as real);
  }

  /** Multiplying by a positive number keeps the order. */
  lemma ScaleMonotone(x: real, y: real, t: real)
    requires t > 0.0
    ensures x >= y <==> x * t >= y * t
  {
    assert x * t - y * t == (x - y) * t;
  }

  /** One more grade adds one to the count exactly when it is right. */
  lemma CountStep(g: seq<bool>, b: bool)
    ensures CorrectCount(g + [b], |g| + 1) == CorrectCount(g, |g|) + (if b then 1 else 0)
  {
    PrefixCount(g, [b], |g|);
  }

  /** The count over the first `n` grades ignores grades after them. */
  lemma {:induction false} PrefixCount(g: seq<bool>, h: seq<bool>, n: nat)
    requires n <= |g|
    ensures CorrectCount(g + h, n) == CorrectCount(g, n)
  {
    if n > 0 {
      PrefixCount(g, h, n - 1);
    }
  }

  /** One more grade keeps the missed entries, adding its own when it is a miss. */
  lemma MissedStep<T>(xs: seq<T>, g: seq<bool>, x: T, b: bool)
    requires |xs| == |g|
    ensures Missed(xs + [x], g + [b], |g| + 1) == Missed(xs, g, |g|) + (if b then [] else [x])
  {
    PrefixMissed(xs, g, [x], [b], |g|);
  }

  /** The missed entries among the first `n` ignore entries after them. */
  lemma {:induction false} PrefixMissed<T>(xs: seq<T>, g: seq<bool>, ys: seq<T>, h: seq<bool>, n: nat)
    requires n <= |xs| && n <= |g|
    ensures Missed(xs + ys, g + h, n) == Missed(xs, g, n)
  {
    if n > 0 {
      PrefixMissed(xs, g, ys, h, n - 1);
    }
  }

  // ---------------------------------------------------------------------------
  // What the scoring promises

  /** Every question is either counted right or has a failure: the right
      answers and the failures add up to the questions asked, so there are no
      failures exactly when every answer was right. */
  lemma {:induction false} CountPlusMissed<T>(xs: seq<T>, g: seq<bool>, n: nat)
    requires n <= |xs| && n <= |g|
    ensures CorrectCount(g, n) + |Missed(xs, g, n)| == n
    ensures Missed(xs, g, n) == [] <==> CorrectCount(g, n) == n
  {
    if n > 0 {
      CountPlusMissed(xs, g, n - 1);
    }
  }

  /** The indices among the first `n` whose answer gets credit. */
  function MatchedIndices(g: seq<bool>, n: nat): set<nat>
    requires n <= |g|
  {
    set i: nat | i < n && g[i]
  }

  /** The right-answer count is the number of answers that get credit. */
  lemma {:induction false} CorrectCountIsMatches(g: seq<bool>, n: nat)
    requires n <= |g|
    ensures CorrectCount(g, n) == |MatchedIndices(g, n)|
  {
    if n > 0 {
      CorrectCountIsMatches(g, n - 1);
      var before := MatchedIndices(g, n - 1);
      if g[n - 1] {
        assert MatchedIndices(g, n) == before + {n - 1};
      } else {
        assert MatchedIndices(g, n) == before;
      }
    }
  }

  /** The indices among the first `n` whose answer gets no credit, in order. */
  function MissedIndices(g: seq<bool>, n: nat): seq<nat>
    requires n <= |g|
  {
    if n == 0 then []
    else if g[n - 1] then MissedIndices(g, n - 1)
    else MissedIndices(g, n - 1) + [n - 1]
  }

  /** The missed indices are increasing and are exactly the answers below
      `n` that get no credit. */
  lemma {:induction false} MissedIndicesExact(g: seq<bool>, n: nat)
    requires n <= |g|
    ensures forall j, k :: 0 <= j < k < |MissedIndices(g, n)| ==>
              MissedIndices(g, n)[j] < MissedIndices(g, n)[k]
    ensures forall i: nat :: i in MissedIndices(g, n) <==> i < n && !g[i]
  {
    if n > 0 {
      MissedIndicesExact(g, n - 1);
      var m := MissedIndices(g, n - 1);
      forall j | 0 <= j < |m|
        ensures m[j] < n - 1
      {
        assert m[j] in m;
      }
    }
  }

  /** Failure `k` is the one for the `k`-th missed question: the failures
      are the missed questions, each recorded once, in question order. */
  lemma {:induction false} MissedFollowsIndices<T>(xs: seq<T>, g: seq<bool>, n: nat)
    requires n <= |xs| && n <= |g|
    ensures |Missed(xs, g, n)| == |MissedIndices(g, n)|
    ensures forall k :: 0 <= k < |Missed(xs, g, n)| ==>
              MissedIndices(g, n)[k] < n && Missed(xs, g, n)[k] == xs[MissedIndices(g, n)[k]]
  {
    if n > 0 {
      MissedFollowsIndices(xs, g, n - 1);
      MissedIndicesExact(g, n - 1);
    }
  }

  /** The questions among the first `n` whose typed line gets credit. */
  function MatchedQuestions(qs: seq<Question>, lines: seq<string>, n: nat): set<nat>
    requires n <= |qs| && n <= |lines|
  {
    set i: nat | i < n && Correct(qs[i], lines[i])
  }

  /** `failures` holds one record per question among the first `n` whose
      typed line gets no credit, in question order, each the failure that
      question records. */
  predicate FailuresOfMisses(qs: seq<Question>, lines: seq<string>, n: nat, failures: seq<FailureRecord>)
    requires n <= |qs| && n <= |lines|
  {
    var m := MissedIndices(Grades(qs, lines, n), n);
    && |failures| == |m|
    && (forall j, k :: 0 <= j < k < |m| ==> m[j] < m[k])
    && (forall k :: 0 <= k < |m| ==> m[k] < n && failures[k] == FailureFor(qs[m[k]], lines[m[k]]))
    && (forall i: nat :: i < n ==> (i in m <==> !Correct(qs[i], lines[i])))
  }

  /** The right-answer count of a run is the number of questions whose typed
      line gets credit. */
  lemma RunCountIsMatches(qs: seq<Question>, lines: seq<string>, n: nat)
    requires n <= |qs| && n <= |lines|
    ensures CorrectCount(Grades(qs, lines, n), n) == |MatchedQuestions(qs, lines, n)|
  {
    var g := Grades(qs, lines, n);
    CorrectCountIsMatches(g, n);
    forall i: nat | i < n
      ensures g[i] == Correct(qs[i], lines[i])
    {
      PerAnswerAt(Correct, qs, lines, n, i);
    }
    assert MatchedIndices(g, n) == MatchedQuestions(qs, lines, n);
  }

  /** The failures of a run are the records of exactly the questions whose
      typed line gets no credit, one each, in question order. */
  lemma RunFailuresAreMisses(qs: seq<Question>, lines: seq<string>, n: nat)
    requires n <= |qs| && n <= |lines|
    ensures FailuresOfMisses(qs, lines, n, Missed(Candidates(qs, lines, n), Grades(qs, lines, n), n))
  {
    var g, c := Grades(qs, lines, n), Candidates(qs, lines, n);
    MissedIndicesExact(g, n);
    MissedFollowsIndices(c, g, n);
    forall i: nat | i < n
      ensures g[i] == Correct(qs[i], lines[i]) && c[i] == FailureFor(qs[i], lines[i])
    {
      PerAnswerAt(Correct, qs, lines, n, i);
      PerAnswerAt(FailureFor, qs, lines, n, i);
    }
  }

  /** The pass mark is inclusive: eight right out of ten scores exactly 80
      and passes at a threshold of 80. */
  lemma EightOfTenPassesAtEighty(r: QuizResult)
    requires r.totalQuestions == 10 && r.correctAnswers == 8
    requires ScoreAgrees(r, 80.0)
    ensures r.scorePercentage == 80.0 && r.passed
  {
  }

  /** An unanswered question is always a failure unless its stored answer is
      blank too, and is recorded with the no-answer marker. */
  lemma BlankLineFails(q: Question, line: string)
    requires Strip(line) == []
    ensures Correct(q, line) <==> Blank(q.originalAnswer)
    ensures FailureFor(q, line).userAnswer == NoAnswer
  {
    EmptyMatchesOnlyBlank(q.originalAnswer);
  }
}
