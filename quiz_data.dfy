/** The quiz file format and the result report (quizzer/quiz_data.py): the
    `Question` and `Quiz` records, their conversion to and from the JSON
    objects a quiz file holds, and the text report of a finished attempt. */
module QuizData {
  import opened Text
  import opened Outcomes

  // ---------------------------------------------------------------------------
  // JSON documents

  /** A JSON value as `json.load` returns it (numbers other than integers are
      not needed by the quiz format). */
  datatype Json =
    | JNull
    | JBool(b: bool)
    | JInt(i: int)
    | JStr(s: string)
    | JArr(items: seq<Json>)
    | JObj(fields: map<string, Json>)

  /** Why a JSON document is not a question or a quiz. */
  datatype DictError =
    | NotAnObject                        // the document is not a JSON object
    | MissingKeys(keys: set<string>)     // required fields that are absent
    | UnexpectedKeys(keys: set<string>)  // fields `Question` does not declare
    | WrongType(key: string)             // a field of the wrong JSON type

  // ---------------------------------------------------------------------------
  // Question

  /** One quiz question: `answer` is the canonical form used for grading,
      `originalAnswer` the display form. */
  datatype Question = Question(id: int, question: string, answer: seq<string>, originalAnswer: string)

  const QuestionKeys: set<string> := {"id", "question", "answer", "original_answer"}

  function StrArray(xs: seq<string>): (r: seq<Json>)
    ensures |r| == |xs|
  {
    seq(|xs|, i requires 0 <= i < |xs| => JStr(xs[i]))
  }

  /** The strings of a JSON array, when every item is a string. */
  function ArrayStrings(items: seq<Json>): (r: Option<seq<string>>)
    ensures r.Some? <==> forall i :: 0 <= i < |items| ==> items[i].JStr?
    ensures r.Some? ==> StrArray(r.value) == items
  {
    if items == [] then Some([])
    else if !items[0].JStr? then None
    else
      match ArrayStrings(items[1..])
      case None => None
      case Some(rest) =>
        assert items == [items[0]] + items[1..];
        assert StrArray([items[0].s] + rest) == [items[0]] + StrArray(rest);
        Some([items[0].s] + rest)
  }

  /** Reading back an array of strings gives the same strings. */
  lemma ArrayStringsOfStrArray(xs: seq<string>)
    ensures ArrayStrings(StrArray(xs)) == Some(xs)
  {
    var ys := StrArray(xs);
    assert forall i :: 0 <= i < |ys| ==> ys[i] == JStr(xs[i]);
    var r := ArrayStrings(ys);
    assert r.Some?;
    assert |r.value| == |xs|;
    forall i | 0 <= i < |xs| ensures r.value[i] == xs[i] {
      assert StrArray(r.value)[i] == JStr(r.value[i]);
      assert StrArray(xs)[i] == JStr(xs[i]);
    }
    assert r.value == xs;
  }

  /** `Question.to_dict` (`dataclasses.asdict`). */
  function QuestionToDict(q: Question): (r: Json)
    ensures r.JObj? && r.fields.Keys == QuestionKeys
  {
    JObj(map["id" := JInt(q.id), "question" := JStr(q.question),
             "answer" := JArr(StrArray(q.answer)), "original_answer" := JStr(q.originalAnswer)])
  }

  /** A JSON object with exactly the four fields of a question, each of the
      declared type. */
  predicate IsQuestionDict(data: Json) {
    && data.JObj?
    && data.fields.Keys == QuestionKeys
    && data.fields["id"].JInt?
    && data.fields["question"].JStr?
    && data.fields["answer"].JArr?
    && (forall i :: 0 <= i < |data.fields["answer"].items| ==> data.fields["answer"].items[i].JStr?)
    && data.fields["original_answer"].JStr?
  }

  /** `Question.from_dict` (`cls(**data)`): an unknown field or a missing one
      is an error. */
  function QuestionFromDict(data: Json): (r: Result<Question, DictError>)
    ensures r.Success? <==> IsQuestionDict(data)
    ensures r.Success? ==> QuestionToDict(r.value) == data
    ensures data.JObj? && !(data.fields.Keys <= QuestionKeys) ==>
              r == Failure(UnexpectedKeys(data.fields.Keys - QuestionKeys))
    ensures data.JObj? && data.fields.Keys < QuestionKeys ==>
              r == Failure(MissingKeys(QuestionKeys - data.fields.Keys))
  {
    if !data.JObj? then Failure(NotAnObject)
    else
      var f := data.fields;
      if f.Keys - QuestionKeys != {} then Failure(UnexpectedKeys(f.Keys - QuestionKeys))
      else if QuestionKeys - f.Keys != {} then Failure(MissingKeys(QuestionKeys - f.Keys))
      else if !f["id"].JInt? then Failure(WrongType("id"))
      else if !f["question"].JStr? then Failure(WrongType("question"))
      else if !f["answer"].JArr? || ArrayStrings(f["answer"].items).None? then Failure(WrongType("answer"))
      else if !f["original_answer"].JStr? then Failure(WrongType("original_answer"))
      else
        var q := Question(f["id"].i, f["question"].s, ArrayStrings(f["answer"].items).value, f["original_answer"].s);
        assert QuestionToDict(q).fields == f;
        Success(q)
  }

  /** `Question.from_dict(q.to_dict()) == q`. */
  lemma QuestionRoundTrip(q: Question)
    ensures QuestionFromDict(QuestionToDict(q)) == Success(q)
  {
    ArrayStringsOfStrArray(q.answer);
  }

  // ---------------------------------------------------------------------------
  // Quiz

  /** A quiz: an identifier, a creation time stamp, its questions in order,
      and the CSV file it came from ("" when unknown). */
  datatype Quiz = Quiz(quizId: string, createdAt: string, questions: seq<Question>, sourceFile: string)

  const QuizKeys: set<string> := {"quiz_id", "created_at", "source_file", "questions"}

  function QuestionsToJson(qs: seq<Question>): (r: seq<Json>)
    ensures |r| == |qs|
  {
    seq(|qs|, i requires 0 <= i < |qs| => QuestionToDict(qs[i]))
  }

  /** `Quiz.to_dict`. */
  function QuizToDict(quiz: Quiz): (r: Json)
    ensures r.JObj? && r.fields.Keys == QuizKeys
  {
    JObj(map["quiz_id" := JStr(quiz.quizId), "created_at" := JStr(quiz.createdAt),
             "source_file" := JStr(quiz.sourceFile), "questions" := JArr(QuestionsToJson(quiz.questions))])
  }

  /** `[Question.from_dict(q) for q in items]`: the first item that is not a
      question is the error. */
  function QuestionsFromJson(items: seq<Json>): (r: Result<seq<Question>, DictError>)
    ensures r.Success? <==> forall i :: 0 <= i < |items| ==> IsQuestionDict(items[i])
    ensures r.Success? ==> QuestionsToJson(r.value) == items
  {
    if items == [] then Success([])
    else
      match QuestionFromDict(items[0])
      case Failure(e) => Failure(e)
      case Success(q) =>
        match QuestionsFromJson(items[1..])
        case Failure(e) =>
          assert !IsQuestionDict(items[1 + FailedAt(items[1..])]);
          Failure(e)
        case Success(rest) =>
          assert items == [items[0]] + items[1..];
          assert QuestionsToJson([q] + rest) == [QuestionToDict(q)] + QuestionsToJson(rest);
          Success([q] + rest)
  }

  /** The first item that is not a question, in a list that has one. */
  function FailedAt(items: seq<Json>): (k: nat)
    requires exists i :: 0 <= i < |items| && !IsQuestionDict(items[i])
    ensures k < |items| && !IsQuestionDict(items[k])
    ensures forall i :: 0 <= i < k ==> IsQuestionDict(items[i])
  {
    if !IsQuestionDict(items[0]) then 0
    else
      assert exists i :: 0 <= i < |items[1..]| && !IsQuestionDict(items[1..][i]) by {
        var i :| 0 <= i < |items| && !IsQuestionDict(items[i]);
        assert items[1..][i - 1] == items[i];
      }
      var k := FailedAt(items[1..]);
      assert forall i :: 1 <= i < 1 + k ==> items[i] == items[1..][i - 1];
      1 + k
  }

  /** The list comprehension stops at the first item that is not a question
      and raises its error. */
  lemma {:induction false} QuestionsFromJsonFirstError(items: seq<Json>)
    requires exists i :: 0 <= i < |items| && !IsQuestionDict(items[i])
    ensures QuestionsFromJson(items) == Failure(QuestionFromDict(items[FailedAt(items)]).error)
  {
    if IsQuestionDict(items[0]) {
      var k := FailedAt(items[1..]);
      QuestionsFromJsonFirstError(items[1..]);
      assert items[1..][k] == items[FailedAt(items)];
    }
  }

  /** The `source_file` a document names, "" when it names none. */
  function SourceFileOf(f: map<string, Json>): string {
    if "source_file" in f && f["source_file"].JStr? then f["source_file"].s else ""
  }

  /** A document `Quiz.from_dict` loads: an object whose `questions` is a
      list of question documents, whose `quiz_id` and `created_at` are
      strings, and whose `source_file`, when present, is a string. */
  predicate IsQuizDict(data: Json) {
    && data.JObj?
    && "questions" in data.fields && "quiz_id" in data.fields && "created_at" in data.fields
    && data.fields["questions"].JArr?
    && (forall i :: 0 <= i < |data.fields["questions"].items| ==>
          IsQuestionDict(data.fields["questions"].items[i]))
    && data.fields["quiz_id"].JStr? && data.fields["created_at"].JStr?
    && ("source_file" in data.fields ==> data.fields["source_file"].JStr?)
  }

  /** `Quiz.from_dict`: `questions`, `quiz_id` and `created_at` are required
      (read in that order), `source_file` is optional, other fields are
      ignored. */
  function QuizFromDict(data: Json): (r: Result<Quiz, DictError>)
    ensures r.Success? <==> IsQuizDict(data)
    ensures r.Success? ==> data.JObj? && r.value.sourceFile == SourceFileOf(data.fields)
    ensures r.Success? ==>
              forall k :: k in QuizKeys && k in data.fields ==> QuizToDict(r.value).fields[k] == data.fields[k]
    ensures data.JObj? && !({"questions", "quiz_id", "created_at"} <= data.fields.Keys) ==> r.Failure?
  {
    if !data.JObj? then Failure(NotAnObject)
    else
      var f := data.fields;
      if "questions" !in f then Failure(MissingKeys({"questions"}))
      else if !f["questions"].JArr? then Failure(WrongType("questions"))
      else
        match QuestionsFromJson(f["questions"].items)
        case Failure(e) => Failure(e)
        case Success(qs) =>
          if "quiz_id" !in f then Failure(MissingKeys({"quiz_id"}))
          else if !f["quiz_id"].JStr? then Failure(WrongType("quiz_id"))
          else if "created_at" !in f then Failure(MissingKeys({"created_at"}))
          else if !f["created_at"].JStr? then Failure(WrongType("created_at"))
          else if "source_file" in f && !f["source_file"].JStr? then Failure(WrongType("source_file"))
          else Success(Quiz(f["quiz_id"].s, f["created_at"].s, qs, SourceFileOf(f)))
  }

  /** `Quiz.from_dict(q.to_dict()) == q`, questions and their order included. */
  lemma {:induction false} QuestionsRoundTrip(qs: seq<Question>)
    ensures QuestionsFromJson(QuestionsToJson(qs)) == Success(qs)
  {
    if qs != [] {
      var items := QuestionsToJson(qs);
      QuestionRoundTrip(qs[0]);
      assert items[1..] == QuestionsToJson(qs[1..]);
      QuestionsRoundTrip(qs[1..]);
      assert qs == [qs[0]] + qs[1..];
    }
  }

  lemma QuizRoundTrip(quiz: Quiz)
    ensures QuizFromDict(QuizToDict(quiz)) == Success(quiz)
  {
    QuestionsRoundTrip(quiz.questions);
  }

  /** A document without `source_file` still loads, and gives a quiz whose
      source file is "". */
  lemma QuizSourceFileDefault(data: Json)
    requires IsQuizDict(data) && "source_file" !in data.fields
    ensures QuizFromDict(data).Success? && QuizFromDict(data).value.sourceFile == ""
  {
  }

  /** Fields other than the four of a quiz never change what is read. */
  lemma QuizFromDictIgnoresOtherFields(f: map<string, Json>, g: map<string, Json>)
    requires forall k :: k in QuizKeys ==> (k in f <==> k in g)
    requires forall k :: k in QuizKeys && k in f ==> f[k] == g[k]
    ensures QuizFromDict(JObj(f)) == QuizFromDict(JObj(g))
  {
    assert "questions" in QuizKeys && "quiz_id" in QuizKeys;
    assert "created_at" in QuizKeys && "source_file" in QuizKeys;
  }

  /** The questions of `to_dict` are the questions' own `to_dict`, one to one
      and in order. */
  lemma QuizToDictQuestions(quiz: Quiz)
    ensures QuizToDict(quiz).fields["questions"].JArr?
    ensures |QuizToDict(quiz).fields["questions"].items| == |quiz.questions|
    ensures forall i :: 0 <= i < |quiz.questions| ==>
              QuestionFromDict(QuizToDict(quiz).fields["questions"].items[i]) == Success(quiz.questions[i])
  {
    forall i | 0 <= i < |quiz.questions|
      ensures QuestionFromDict(QuizToDict(quiz).fields["questions"].items[i]) == Success(quiz.questions[i])
    {
      QuestionRoundTrip(quiz.questions[i]);
    }
  }

  // ---------------------------------------------------------------------------
  // Quiz results and the text report

  /** One wrong answer, as recorded for the report. */
  datatype FailureRecord = FailureRecord(questionId: string, question: string, userAnswer: string, correctAnswer: string)

  /** A finished attempt. `scorePercentage` and `timeSpent` are Python floats,
      modelled as exact rationals. */
  datatype QuizResult = QuizResult(
    quizId: string,
    completedAt: string,
    totalQuestions: int,
    correctAnswers: int,
    scorePercentage: real,
    passed: bool,
    failures: seq<FailureRecord>,
    timeSpent: real)

  /** `int(x)` on a float: truncation toward zero. */
  function TruncateToInt(x: real): (n: int)
    ensures 0.0 <= x ==> n as real <= x < n as real + 1.0
    ensures x < 0.0 ==> n as real - 1.0 < x <= n as real
  {
    if x >= 0.0 then x.Floor else -((-x).Floor)
  }

  /** `divmod(int(t), 60)`: whole minutes and the seconds left over. */
  function MinutesSeconds(t: real): (r: (int, int))
    ensures 0 <= r.1 < 60
    ensures 60 * r.0 + r.1 == TruncateToInt(t)
  {
    var n := TruncateToInt(t);
    (n / 60, n % 60)
  }

  /** The "Time Spent" text: "{m}m {s}s" from one minute on, "{s}s" below. */
  function TimeText(t: real): string {
    var (m, s) := MinutesSeconds(t);
    if m > 0 then IntToString(m) + "m " + IntToString(s) + "s" else IntToString(s) + "s"
  }

  /** The time text names minutes exactly when at least a whole minute was
      spent; below a minute it is the seconds alone. */
  lemma TimeTextMinutes(t: real)
    ensures 'm' in TimeText(t) <==> TruncateToInt(t) >= 60
    ensures 0 <= TruncateToInt(t) < 60 ==> TimeText(t) == IntToString(TruncateToInt(t)) + "s"
  {
    var (m, s) := MinutesSeconds(t);
    var ss := IntToString(s);
    if m > 0 {
      var mm := IntToString(m);
      assert TimeText(t)[|mm|] == 'm';
    } else {
      assert forall i :: 0 <= i < |ss| ==> ss[i] != 'm';
      assert TimeText(t) == ss + "s";
      assert forall i :: 0 <= i < |ss + "s"| ==> (ss + "s")[i] != 'm' by {
        forall i | 0 <= i < |ss + "s"| ensures (ss + "s")[i] != 'm' {
          if i < |ss| { assert (ss + "s")[i] == ss[i]; }
        }
      }
    }
  }

  /** The eight lines every report starts with. `scoreText` is the score as
      formatted with one decimal. */
  function HeaderLines(result: QuizResult, scoreText: string): (r: seq<string>)
    ensures |r| == 8
  {
    [ "Quiz Report - " + result.quizId,
      "Date: " + result.completedAt,
      "Questions: " + IntToString(result.totalQuestions),
      "Correct: " + IntToString(result.correctAnswers),
      "Score: " + scoreText + "%",
      "Time Spent: " + TimeText(result.timeSpent),
      "Result: " + (if result.passed then "PASS" else "FAIL"),
      "" ]
  }

  const PerfectLine: string := "Perfect score! All answers correct."

  /** The four lines of one failure. */
  function FailureLines(f: FailureRecord): (r: seq<string>)
    ensures |r| == 4
  {
    [ "Q" + f.questionId + ": " + f.question,
      "  Your answer: " + f.userAnswer,
      "  Correct answer: " + f.correctAnswer,
      Repeat('-', 60) ]
  }

  /** The failure blocks, one after another in order. */
  function FailureSection(fs: seq<FailureRecord>): (r: seq<string>)
    ensures |r| == 4 * |fs|
  {
    if fs == [] then [] else FailureSection(fs[..|fs| - 1]) + FailureLines(fs[|fs| - 1])
  }

  /** The two lines in front of the failure blocks. */
  function FailuresHeading(count: int): (r: seq<string>)
    ensures |r| == 2
  {
    ["Failures (" + IntToString(count) + "):", Repeat('=', 60)]
  }

  /** What follows the header: the perfect-score line, or the failures. */
  function ClosingLines(fs: seq<FailureRecord>): (r: seq<string>)
    ensures |r| == if fs == [] then 1 else 2 + 4 * |fs|
  {
    if fs == [] then [PerfectLine] else FailuresHeading(|fs|) + FailureSection(fs)
  }

  /** The lines of `generate_report`, before they are joined. */
  function ReportLines(result: QuizResult, scoreText: string): (r: seq<string>)
    ensures |r| == if result.failures == [] then 9 else 10 + 4 * |result.failures|
  {
    HeaderLines(result, scoreText) + ClosingLines(result.failures)
  }

  /** `QuizResult.generate_report`. */
  method GenerateReport(result: QuizResult, scoreText: string) returns (report: string)
    ensures report == Join(ReportLines(result, scoreText), "\n")
  {
    var fs := result.failures;
    var closing: seq<string>;
    if fs != [] {
      closing := FailuresHeading(|fs|);
      var i := 0;
      while i < |fs|
        invariant 0 <= i <= |fs|
        invariant closing == FailuresHeading(|fs|) + FailureSection(fs[..i])
      {
        ghost var done := fs[..i + 1];
        assert done[..i] == fs[..i] && done[i] == fs[i];
        assert FailureSection(done) == FailureSection(fs[..i]) + FailureLines(fs[i]);
        closing := closing + FailureLines(fs[i]);
        i := i + 1;
      }
      assert fs[..i] == fs;
    } else {
      closing := [PerfectLine];
    }
    var lines := HeaderLines(result, scoreText) + closing;
    report := Join(lines, "\n");
  }

  /** The Result line says PASS exactly when the attempt passed. */
  lemma ReportSaysPassIffPassed(result: QuizResult, scoreText: string)
    ensures ReportLines(result, scoreText)[6] == "Result: PASS" <==> result.passed
  {
    if !result.passed {
      assert ReportLines(result, scoreText)[6][8] == 'F';
    }
  }

  /** The block of failure `i` sits at lines `4i .. 4i + 4` of the failure
      section. */
  lemma {:induction false} FailureSectionBlock(fs: seq<FailureRecord>, i: nat)
    requires i < |fs|
    ensures FailureSection(fs)[4 * i .. 4 * i + 4] == FailureLines(fs[i])
  {
    var n := |fs| - 1;
    var front := FailureSection(fs[..n]);
    if i < n {
      FailureSectionBlock(fs[..n], i);
      assert FailureSection(fs)[4 * i .. 4 * i + 4] == front[4 * i .. 4 * i + 4];
    } else {
      assert FailureSection(fs)[4 * i ..] == FailureLines(fs[n]);
    }
  }

  /** A report ends with the perfect-score line exactly when there are no
      failures; otherwise it lists every failure, in order, after a header
      naming their number and a rule of 60 `=`. */
  lemma ReportStructure(result: QuizResult, scoreText: string)
    ensures var lines := ReportLines(result, scoreText);
            lines[|lines| - 1] == PerfectLine <==> result.failures == []
    ensures var lines := ReportLines(result, scoreText);
            result.failures != [] ==>
              && lines[8] == "Failures (" + IntToString(|result.failures|) + "):"
              && lines[9] == Repeat('=', 60)
              && forall i :: 0 <= i < |result.failures| ==>
                   lines[10 + 4 * i .. 14 + 4 * i] == FailureLines(result.failures[i])
  {
    var lines := ReportLines(result, scoreText);
    var fs := result.failures;
    if fs != [] {
      var n := |fs| - 1;
      FailureSectionBlock(fs, n);
      assert lines[|lines| - 1] == FailureLines(fs[n])[3];
      assert FailureLines(fs[n])[3] != PerfectLine by {
        assert FailureLines(fs[n])[3][0] == '-';
      }
      forall i | 0 <= i < |fs|
        ensures lines[10 + 4 * i .. 14 + 4 * i] == FailureLines(fs[i])
      {
        FailureSectionBlock(fs, i);
        assert lines[10..] == FailureSection(fs);
        assert lines[10 + 4 * i .. 14 + 4 * i] == FailureSection(fs)[4 * i .. 4 * i + 4];
      }
    }
  }
}
