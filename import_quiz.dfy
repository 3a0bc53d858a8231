/** The CSV import (import_quiz.py): the row filter of `read_csv_questions`,
    `create_quiz`, `generate_quiz_id`, and the planning and slicing that
    `main` does to spread the questions of one file over several quizzes. */
module ImportQuiz {
  import opened Text
  import opened Outcomes
  import opened Normalizer
  import opened QuizData

  /** A question and its answer as read from one CSV row. */
  datatype Pair = Pair(question: string, answer: string)

  /** The `ValueError` for a row with too few columns: its 1-based number and
      its column count. */
  datatype RowError = MalformedRow(row: nat, columns: nat)

  // ---------------------------------------------------------------------------
  // read_csv_questions: the row loop

  /** Row `index` (1-based) is taken as a header: only the first row can be,
      and it is when its question mentions "question" or its answer mentions
      "answer", ignoring case. */
  predicate IsHeader(index: nat, question: string, answer: string) {
    index == 1 && (Contains(Lower(question), "question") || Contains(Lower(answer), "answer"))
  }

  /** What row number `index` contributes: its first two columns, stripped,
      unless it is the header or one of them is empty. */
  function RowPair(row: seq<string>, index: nat): (r: seq<Pair>)
    requires |row| >= 2
    ensures |r| <= 1
  {
    var q := Strip(row[0]);
    var a := Strip(row[1]);
    if IsHeader(index, q, a) then []
    else if q == [] || a == [] then []
    else [Pair(q, a)]
  }

  predicate WellFormed(rows: seq<seq<string>>) {
    forall i :: 0 <= i < |rows| ==> |rows[i]| >= 2
  }

  /** The pairs read from well-formed rows, in row order. */
  function Kept(rows: seq<seq<string>>): (r: seq<Pair>)
    requires WellFormed(rows)
    ensures |r| <= |rows|
  {
    if rows == [] then []
    else Kept(rows[..|rows| - 1]) + RowPair(rows[|rows| - 1], |rows|)
  }

  /** The row loop of `read_csv_questions`: the first row with fewer than two
      columns aborts the import, even the first row; otherwise the kept pairs
      are returned. */
  method ReadRows(rows: seq<seq<string>>) returns (r: Result<seq<Pair>, RowError>)
    ensures r.Success? <==> WellFormed(rows)
    ensures r.Success? ==> r.value == Kept(rows)
    ensures r.Failure? ==>
              && 1 <= r.error.row <= |rows|
              && r.error.columns == |rows[r.error.row - 1]| < 2
              && WellFormed(rows[..r.error.row - 1])
  {
    var questions: seq<Pair> := [];
    var i := 0;
    while i < |rows|
      invariant 0 <= i <= |rows|
      invariant WellFormed(rows[..i])
      invariant questions == Kept(rows[..i])
    {
      var row := rows[i];
      if |row| < 2 {
        return Failure(MalformedRow(i + 1, |row|));
      }
      assert rows[..i + 1][..i] == rows[..i];
      questions := questions + RowPair(row, i + 1);
      i := i + 1;
    }
    assert rows[..i] == rows;
    return Success(questions);
  }

  /** Every pair read has a non-empty question and answer, both stripped. */
  lemma {:induction false} KeptFieldsNonEmpty(rows: seq<seq<string>>)
    requires WellFormed(rows)
    ensures forall k :: 0 <= k < |Kept(rows)| ==>
              IsDisplayPart(Kept(rows)[k].question) && IsDisplayPart(Kept(rows)[k].answer)
  {
    if rows != [] {
      var front := rows[..|rows| - 1];
      var last := rows[|rows| - 1];
      assert WellFormed(front);
      KeptFieldsNonEmpty(front);
      StripSpec(last[0]);
      StripSpec(last[1]);
    }
  }

  /** Columns after the second never change what is read. */
  lemma {:induction false} KeptIgnoresExtraColumns(rows: seq<seq<string>>, wide: seq<seq<string>>)
    requires WellFormed(rows) && WellFormed(wide) && |rows| == |wide|
    requires forall i :: 0 <= i < |rows| ==> rows[i][..2] == wide[i][..2]
    ensures Kept(rows) == Kept(wide)
  {
    if rows != [] {
      var n := |rows| - 1;
      assert rows[n][0] == rows[n][..2][0] == wide[n][0];
      assert rows[n][1] == rows[n][..2][1] == wide[n][1];
      assert WellFormed(rows[..n]) && WellFormed(wide[..n]);
      KeptIgnoresExtraColumns(rows[..n], wide[..n]);
    }
  }

  /** Both columns of a row, stripped. */
  function Stripped(row: seq<string>): Pair
    requires |row| >= 2
  {
    Pair(Strip(row[0]), Strip(row[1]))
  }

  /** Rows without an empty field after stripping. */
  predicate NoBlankField(rows: seq<seq<string>>)
    requires WellFormed(rows)
  {
    forall i :: 0 <= i < |rows| ==> Strip(rows[i][0]) != [] && Strip(rows[i][1]) != []
  }

  /** Every row, both columns stripped, in order. */
  function AllStripped(rows: seq<seq<string>>): (r: seq<Pair>)
    requires WellFormed(rows)
    ensures |r| == |rows|
  {
    if rows == [] then [] else AllStripped(rows[..|rows| - 1]) + [Stripped(rows[|rows| - 1])]
  }

  /** Rows after the first are never taken as headers: when no field is
      blank, every row but the first is read, in order, and the first is
      dropped exactly when it looks like a header. */
  lemma OnlyFirstRowIsHeader(rows: seq<seq<string>>)
    requires WellFormed(rows) && NoBlankField(rows) && rows != []
    ensures Kept(rows) ==
              (if IsHeader(1, Strip(rows[0][0]), Strip(rows[0][1])) then [] else [Stripped(rows[0])])
              + AllStripped(rows[1..])
  {
    KeptAfterFirst(rows);
  }

  lemma {:induction false} KeptAfterFirst(rows: seq<seq<string>>)
    requires WellFormed(rows) && NoBlankField(rows) && rows != []
    ensures Kept(rows) == RowPair(rows[0], 1) + AllStripped(rows[1..])
  {
    var n := |rows| - 1;
    if n > 0 {
      var front := rows[..n];
      assert WellFormed(front) && NoBlankField(front);
      KeptAfterFirst(front);
      LaterRowKept(rows, n);
      AllStrippedSnoc(rows);
      assert front[0] == rows[0];
      AppendAssoc(RowPair(rows[0], 1), AllStripped(front[1..]), [Stripped(rows[n])]);
      calc {
        Kept(rows);
        Kept(front) + RowPair(rows[n], n + 1);
        (RowPair(rows[0], 1) + AllStripped(front[1..])) + [Stripped(rows[n])];
        RowPair(rows[0], 1) + (AllStripped(front[1..]) + [Stripped(rows[n])]);
        RowPair(rows[0], 1) + AllStripped(rows[1..]);
      }
    }
  }

  lemma AppendAssoc<T>(a: seq<T>, b: seq<T>, c: seq<T>)
    ensures (a + b) + c == a + (b + c)
  {
  }

  /** A row after the first with no blank field is always read. */
  lemma LaterRowKept(rows: seq<seq<string>>, n: nat)
    requires WellFormed(rows) && 0 < n < |rows|
    requires Strip(rows[n][0]) != [] && Strip(rows[n][1]) != []
    ensures RowPair(rows[n], n + 1) == [Stripped(rows[n])]
  {
  }

  /** The rows with no blank field, both columns stripped, in order. */
  function NonBlankStripped(rows: seq<seq<string>>): (r: seq<Pair>)
    requires WellFormed(rows)
    ensures |r| <= |rows|
  {
    if rows == [] then []
    else
      var n := |rows| - 1;
      NonBlankStripped(rows[..n])
      + (if Strip(rows[n][0]) == [] || Strip(rows[n][1]) == [] then [] else [Stripped(rows[n])])
  }

  /** After the first row, blank rows are skipped wherever they are: the
      rows read are the first one unless it is a header or blank, then
      every later row with no blank field, in order. */
  lemma {:induction false} KeptSkipsBlankRows(rows: seq<seq<string>>)
    requires WellFormed(rows) && rows != []
    ensures Kept(rows) == RowPair(rows[0], 1) + NonBlankStripped(rows[1..])
  {
    var n := |rows| - 1;
    if n > 0 {
      var front := rows[..n];
      assert WellFormed(front);
      KeptSkipsBlankRows(front);
      assert front[0] == rows[0];
      assert rows[1..][..n - 1] == front[1..];
      var last := RowPair(rows[n], n + 1);
      assert last == if Strip(rows[n][0]) == [] || Strip(rows[n][1]) == [] then [] else [Stripped(rows[n])];
      AppendAssoc(RowPair(rows[0], 1), NonBlankStripped(front[1..]), last);
    }
  }

  lemma AllStrippedSnoc(rows: seq<seq<string>>)
    requires WellFormed(rows) && |rows| >= 2
    ensures AllStripped(rows[1..])
            == AllStripped(rows[..|rows| - 1][1..]) + [Stripped(rows[|rows| - 1])]
  {
    var n := |rows| - 1;
    assert rows[1..][..n - 1] == rows[..n][1..];
  }

  // ---------------------------------------------------------------------------
  // create_quiz

  /** The question built from pair number `id`. */
  function MakeQuestion(id: int, p: Pair): Question {
    Question(id, p.question, NormalizeAnswer(p.answer), FormatAnswerDisplay(p.answer))
  }

  /** The questions built from `pairs`, numbered from 1 in order. */
  function MakeQuestions(pairs: seq<Pair>): (r: seq<Question>)
    ensures |r| == |pairs|
  {
    seq(|pairs|, i requires 0 <= i < |pairs| => MakeQuestion(i + 1, pairs[i]))
  }

  /** `create_quiz`: one question per pair, numbered from 1 in the given
      order, each answer stored in canonical and in display form. */
  method CreateQuiz(pairs: seq<Pair>, quizId: string, createdAt: string, sourceFile: string)
    returns (quiz: Quiz)
    ensures quiz == Quiz(quizId, createdAt, MakeQuestions(pairs), sourceFile)
  {
    var questions: seq<Question> := [];
    var idx := 0;
    while idx < |pairs|
      invariant 0 <= idx <= |pairs|
      invariant |questions| == idx
      invariant forall k :: 0 <= k < idx ==> questions[k] == MakeQuestion(k + 1, pairs[k])
    {
      questions := questions + [MakeQuestion(idx + 1, pairs[idx])];
      idx := idx + 1;
    }
    assert questions == MakeQuestions(pairs);
    quiz := Quiz(quizId, createdAt, questions, sourceFile);
  }

  /** Question `i` of `create_quiz` has id `i + 1` (so ids are distinct),
      the question text unchanged, and the answer in canonical and display
      form; the canonical answer is also the canonical form of the display
      answer, so grading against the display answer (as the quiz runner does)
      grades against the original answer. */
  lemma CreatedQuestionsConsistent(pairs: seq<Pair>, i: nat, j: nat)
    requires i < |pairs| && j < |pairs|
    ensures MakeQuestions(pairs)[i].id == i + 1
    ensures MakeQuestions(pairs)[i].question == pairs[i].question
    ensures MakeQuestions(pairs)[i].answer == NormalizeAnswer(pairs[i].answer)
    ensures MakeQuestions(pairs)[i].originalAnswer == FormatAnswerDisplay(pairs[i].answer)
    ensures NormalizeAnswer(MakeQuestions(pairs)[i].originalAnswer) == MakeQuestions(pairs)[i].answer
    ensures i != j ==> MakeQuestions(pairs)[i].id != MakeQuestions(pairs)[j].id
  {
    var q := MakeQuestions(pairs)[i];
    assert q == MakeQuestion(i + 1, pairs[i]);
    assert MakeQuestions(pairs)[j].id == j + 1;
    NormalizeOfFormat(pairs[i].answer);
  }

  // ---------------------------------------------------------------------------
  // generate_quiz_id

  /** `generate_quiz_id`, with the formatted time stamp as a parameter. */
  function GenerateQuizId(prefix: string, timestamp: string, sequence: Option<int>): (r: string)
    ensures prefix + "_" + timestamp <= r
  {
    match sequence
    case None => prefix + "_" + timestamp
    case Some(k) => prefix + "_" + timestamp + "_" + IntToString(k)
  }

  /** Without a sequence number the id is prefix and time stamp alone; with one
      the decimal number follows after another "_", so the id is strictly
      longer and the two never coincide. */
  lemma QuizIdSuffix(prefix: string, timestamp: string, k: int)
    ensures GenerateQuizId(prefix, timestamp, None) == prefix + "_" + timestamp
    ensures GenerateQuizId(prefix, timestamp, Some(k)) == prefix + "_" + timestamp + "_" + IntToString(k)
    ensures |GenerateQuizId(prefix, timestamp, None)| < |GenerateQuizId(prefix, timestamp, Some(k))|
  {
  }

  /** Different sequence numbers give different ids, whatever the time
      stamps: the text after the last "_" of a numbered id is its number. */
  lemma QuizIdsDistinct(prefix: string, t1: string, t2: string, j: int, k: int)
    requires j != k
    ensures GenerateQuizId(prefix, t1, Some(j)) != GenerateQuizId(prefix, t2, Some(k))
  {
    var a, b := GenerateQuizId(prefix, t1, Some(j)), GenerateQuizId(prefix, t2, Some(k));
    if a == b {
      LastPartEqual(prefix + "_" + t1, prefix + "_" + t2, IntToString(j), IntToString(k));
      IntToStringInjective(j, k);
    }
  }

  predicate NoUnderscore(s: string) {
    forall i :: 0 <= i < |s| ==> s[i] != '_'
  }

  /** Two texts that end in "_" and a part without "_" end in the same part. */
  lemma LastPartEqual(x: string, y: string, s: string, t: string)
    requires NoUnderscore(s) && NoUnderscore(t)
    requires x + "_" + s == y + "_" + t
    ensures s == t
  {
    LastUnderscoreNotLater(x, y, s, t);
    LastUnderscoreNotLater(y, x, t, s);
    assert s == (x + "_" + s)[|x| + 1..];
  }

  /** The "_" before a part without "_" cannot come later in one text than
      in an equal one. */
  lemma LastUnderscoreNotLater(x: string, y: string, s: string, t: string)
    requires NoUnderscore(t)
    requires x + "_" + s == y + "_" + t
    ensures |x| <= |y|
  {
    var a := x + "_" + s;
    assert a[|x|] == '_';
    if |x| > |y| {
      assert false;
    }
  }

  /** The id of quiz `k` (0-based) out of `count`: numbered only when there
      is more than one. */
  function QuizIdFor(prefix: string, timestamp: string, k: nat, count: int): string {
    GenerateQuizId(prefix, timestamp, if count > 1 then Some(k + 1) else None)
  }

  /** Two quizzes of one import get different ids, even when the clock
      reads differently for each of them. */
  lemma QuizIdsOfOneImportDistinct(prefix: string, t1: string, t2: string, j: nat, k: nat, count: int)
    requires j != k && j < count && k < count
    ensures QuizIdFor(prefix, t1, j, count) != QuizIdFor(prefix, t2, k, count)
  {
    QuizIdsDistinct(prefix, t1, t2, j + 1, k + 1);
  }

  // ---------------------------------------------------------------------------
  // Planning: how many quizzes, of which sizes

  /** Python's `//` and `%`: the quotient rounds toward negative infinity. */
  function FloorDiv(a: int, b: int): (q: int)
    requires b != 0
    ensures b > 0 ==> b * q <= a < b * q + b
    ensures b < 0 ==> b * q + b < a <= b * q
  {
    if b > 0 then DivResidue(a, b); a / b
    else DivResidue(-a, -b); NegateResidue(a, b, (-a) / (-b)); (-a) / (-b)
  }

  function FloorMod(a: int, b: int): (r: int)
    requires b != 0
    ensures a == b * FloorDiv(a, b) + r
    ensures b > 0 ==> 0 <= r < b
    ensures b < 0 ==> b < r <= 0
  {
    a - b * FloorDiv(a, b)
  }

  lemma DivResidue(a: int, b: int)
    requires b > 0
    ensures a - b * (a / b) == a % b
    ensures a - b * (a / b + 1) == a % b - b
  {
  }

  lemma NegateResidue(a: int, b: int, r: int)
    ensures a - b * r == -((-a) - (-b) * r)
  {
  }

  function Abs(x: int): nat {
    if x < 0 then -x else x
  }

  /** `round(a / b)`: the nearest integer, ties to the even one. */
  function RoundDiv(a: int, b: int): (r: int)
    requires b != 0
    ensures 2 * Abs(a - b * r) <= Abs(b)
    ensures 2 * Abs(a - b * r) == Abs(b) ==> r % 2 == 0
    decreases if b < 0 then 1 else 0
  {
    if b < 0 then
      var r := RoundDiv(-a, -b);
      NegateResidue(a, b, r);
      r
    else
      var q := a / b;
      DivResidue(a, b);
      if 2 * (a % b) < b then q
      else if 2 * (a % b) > b then q + 1
      else if q % 2 == 0 then q
      else q + 1
  }

  /** The rounded quotient is the only integer that is nearest to `a / b`
      with ties to even. */
  lemma RoundDivUnique(a: int, b: int, r: int)
    requires b != 0
    requires 2 * Abs(a - b * r) <= Abs(b)
    requires 2 * Abs(a - b * r) == Abs(b) ==> r % 2 == 0
    ensures r == RoundDiv(a, b)
  {
    var s := RoundDiv(a, b);
    // |b| * |r - s| is the gap between the residues, at most |b|
    Gap(a, b, r, s);
    AtMostOnce(Abs(b), Abs(r - s));
    // a gap of exactly one would make both ties, hence both even
    EvenGap(r, s);
  }

  /** The two residues differ by `b` times the gap between the quotients. */
  lemma Gap(a: int, b: int, r: int, s: int)
    ensures Abs((a - b * s) - (a - b * r)) == Abs(b) * Abs(r - s)
  {
    assert (a - b * s) - (a - b * r) == b * (r - s);
    AbsMul(b, r - s);
  }

  lemma AbsMul(b: int, k: int)
    ensures Abs(b * k) == Abs(b) * Abs(k)
  {
    if b < 0 && k >= 0 { assert b * k == -((-b) * k); }
    else if b >= 0 && k < 0 { assert b * k == -(b * (-k)); }
    else if b < 0 && k < 0 { assert b * k == (-b) * (-k); }
  }

  lemma AtMostOnce(x: int, k: nat)
    requires x > 0
    ensures x * k <= x ==> k <= 1
  {
    if k >= 2 {
      MulMonotone(x, k - 1);
      assert x * k == x * (k - 1) + x;
    }
  }

  lemma MulMonotone(x: int, n: int)
    requires x > 0 && n >= 1
    ensures x * n >= x
  {
  }

  lemma EvenGap(r: int, s: int)
    ensures r % 2 == 0 && s % 2 == 0 ==> Abs(r - s) != 1
  {
  }

  /** The ways planning fails in `main`. */
  datatype PlanError = ZeroDivision  // `ZeroDivisionError`, which ends the import

  /** `max(1, round(total / max_questions))`. */
  function CalculatedQuizCount(total: int, maxQuestions: int): (r: Result<int, PlanError>)
    ensures r.Failure? <==> maxQuestions == 0
    ensures r.Success? ==> r.value >= 1
  {
    if maxQuestions == 0 then Failure(ZeroDivision)
    else
      var n := RoundDiv(total, maxQuestions);
      Success(if n < 1 then 1 else n)
  }

  /** The quiz count is the number of quizzes of at most about
      `maxQuestions`: never more than half a quiz's worth of questions is left
      over or missing. */
  lemma CalculatedQuizCountNearest(total: int, maxQuestions: int)
    requires total >= 0 && maxQuestions > 0
    ensures var n := CalculatedQuizCount(total, maxQuestions).value;
            2 * total <= (2 * n + 1) * maxQuestions
    ensures var n := CalculatedQuizCount(total, maxQuestions).value;
            n > 1 ==> (2 * n - 1) * maxQuestions <= 2 * total
  {
    var r := RoundDiv(total, maxQuestions);
    NearestBounds(total, maxQuestions, r, CalculatedQuizCount(total, maxQuestions).value);
  }

  lemma NearestBounds(total: int, m: int, r: int, n: int)
    requires total >= 0 && m > 0
    requires 2 * Abs(total - m * r) <= m
    requires n == if r < 1 then 1 else r
    ensures 2 * total <= (2 * n + 1) * m
    ensures n > 1 ==> (2 * n - 1) * m <= 2 * total
  {
    assert (2 * n + 1) * m == 2 * (m * n) + m;
    assert (2 * n - 1) * m == 2 * (m * n) - m;
    if r < 1 {
      assert m * r <= 0;
    }
  }

  /** A negative question cap gives a non-positive quotient, so one quiz. */
  lemma NegativeCapGivesOneQuiz(total: int, maxQuestions: int)
    requires total >= 0 && maxQuestions < 0
    ensures CalculatedQuizCount(total, maxQuestions) == Success(1)
  {
    var n := RoundDiv(total, maxQuestions);
    assert n <= 0 by {
      if n >= 1 {
        MulMonotone(-maxQuestions, n);
        assert false;
      }
    }
  }

  function Sum(xs: seq<int>): int {
    if xs == [] then 0 else Sum(xs[..|xs| - 1]) + xs[|xs| - 1]
  }

  /** `[base + 1] * remainder + [base] * (n - remainder)`. */
  function EvenSizes(total: int, n: int): (r: seq<int>)
    requires n != 0
  {
    var base := FloorDiv(total, n);
    var remainder := FloorMod(total, n);
    Repeat(base + 1, remainder) + Repeat(base, n - remainder)
  }

  lemma {:induction false} SumAppend(a: seq<int>, b: seq<int>)
    ensures Sum(a + b) == Sum(a) + Sum(b)
  {
    if b == [] {
      assert a + b == a;
    } else {
      var n := |b| - 1;
      assert (a + b)[..|a + b| - 1] == a + b[..n];
      SumAppend(a, b[..n]);
    }
  }

  lemma {:induction false} SumRepeat(x: int, k: nat)
    ensures Sum(Repeat(x, k)) == x * k
  {
    if k > 0 {
      assert Repeat(x, k)[..k - 1] == Repeat(x, k - 1);
      SumRepeat(x, k - 1);
      assert x * k == x * (k - 1) + x;
    }
  }

  /** The even split uses every question: `n` sizes that add up to `total`,
      the first `total % n` one larger than the rest, so no two differ by
      more than one. */
  lemma EvenSizesPartition(total: int, n: int)
    requires total >= 0 && n > 0
    ensures |EvenSizes(total, n)| == n
    ensures Sum(EvenSizes(total, n)) == total
    ensures forall i :: 0 <= i < n ==>
              EvenSizes(total, n)[i] == total / n + (if i < total % n then 1 else 0)
    ensures forall i, j :: 0 <= i < n && 0 <= j < n ==>
              0 <= EvenSizes(total, n)[i] && EvenSizes(total, n)[i] - EvenSizes(total, n)[j] <= 1
  {
    var base, remainder := total / n, total % n;
    DivResidue(total, n);
    QuotientNonNegative(total, n);
    var big, small := Repeat(base + 1, remainder), Repeat(base, n - remainder);
    assert EvenSizes(total, n) == big + small;
    SumAppend(big, small);
    SumRepeat(base + 1, remainder);
    SumRepeat(base, n - remainder);
    SplitSum(base, remainder, n);
    forall i | 0 <= i < n
      ensures (big + small)[i] == base + (if i < remainder then 1 else 0)
    {
      if i < remainder { assert (big + small)[i] == big[i]; }
      else { assert (big + small)[i] == small[i - remainder]; }
    }
  }

  lemma SplitSum(base: int, remainder: int, n: int)
    ensures (base + 1) * remainder + base * (n - remainder) == n * base + remainder
  {
  }

  lemma QuotientNonNegative(total: int, n: int)
    requires total >= 0 && n > 0
    ensures total / n >= 0
  {
  }

  /** A negative quiz count plans no quiz at all. */
  lemma EvenSizesNegative(total: int, n: int)
    requires n < 0
    ensures EvenSizes(total, n) == []
  {
  }

  /** `args.number if args.number else 1`. */
  function DuplicateCount(number: Option<int>): int {
    if number.Some? && number.value != 0 then number.value else 1
  }

  /** The quiz sizes `main` plans, in duplicate mode and in partition mode. */
  function QuizSizes(total: int, maxQuestions: int, number: Option<int>, allowDuplicates: bool)
    : (r: Result<seq<int>, PlanError>)
    ensures allowDuplicates ==> r.Success?
    ensures !allowDuplicates ==> (r.Failure? <==> maxQuestions == 0 || number == Some(0))
  {
    if allowDuplicates then
      var n := DuplicateCount(number);
      Success(if total < maxQuestions then Repeat(total, n) else Repeat(maxQuestions, n))
    else
      match CalculatedQuizCount(total, maxQuestions)
      case Failure(e) => Failure(e)
      case Success(calculated) =>
        var n := if number.Some? then number.value else calculated;
        if n == 0 then Failure(ZeroDivision) else Success(EvenSizes(total, n))
  }

  /** Duplicate mode: `number or 1` quizzes (none when that is negative),
      each of `maxQuestions` questions, or of all of them when there are
      fewer. */
  lemma DuplicatePlan(total: int, maxQuestions: int, number: Option<int>)
    ensures var sizes := QuizSizes(total, maxQuestions, number, true).value;
            && |sizes| == (if DuplicateCount(number) < 0 then 0 else DuplicateCount(number))
            && (forall i :: 0 <= i < |sizes| ==> sizes[i] == if total < maxQuestions then total else maxQuestions)
  {
  }

  /** Partition mode: the default count is the calculated one, an explicit
      count is used as given (even below the calculated one), and the sizes
      always add up to all the questions. */
  lemma PartitionPlan(total: int, maxQuestions: int, number: Option<int>)
    requires total >= 0 && maxQuestions != 0
    requires number.None? || number.value > 0
    ensures var n := if number.Some? then number.value else CalculatedQuizCount(total, maxQuestions).value;
            && QuizSizes(total, maxQuestions, number, false) == Success(EvenSizes(total, n))
            && |EvenSizes(total, n)| == n
            && Sum(EvenSizes(total, n)) == total
  {
    var n := if number.Some? then number.value else CalculatedQuizCount(total, maxQuestions).value;
    EvenSizesPartition(total, n);
  }

  // ---------------------------------------------------------------------------
  // Slicing the shuffled questions into quizzes

  function Min(a: int, b: int): int {
    if a < b then a else b
  }

  function Concat<T>(xss: seq<seq<T>>): seq<T> {
    if xss == [] then [] else Concat(xss[..|xss| - 1]) + xss[|xss| - 1]
  }

  /** `s[:k]`: a negative `k` counts from the end. */
  function PyPrefix<T>(s: seq<T>, k: int): (r: seq<T>)
    ensures r <= s
    ensures |r| == if k >= 0 then Min(k, |s|) else if |s| + k > 0 then |s| + k else 0
  {
    if k >= 0 then s[..Min(k, |s|)] else if |s| + k > 0 then s[..|s| + k] else []
  }

  /** `s[lo:hi]` for `0 <= lo <= hi`: clipped to the end of `s`. */
  function Slice<T>(s: seq<T>, lo: int, hi: int): (r: seq<T>)
    requires 0 <= lo <= hi
    ensures |r| == Min(hi, |s|) - Min(lo, |s|)
  {
    s[Min(lo, |s|)..Min(hi, |s|)]
  }

  predicate NonNegative(sizes: seq<int>) {
    forall i :: 0 <= i < |sizes| ==> sizes[i] >= 0
  }

  /** The running index before quiz `k` in partition mode: the sum of the
      sizes before it. */
  function Offset(sizes: seq<int>, k: nat): int
    requires k <= |sizes|
  {
    if k == 0 then 0 else Offset(sizes, k - 1) + sizes[k - 1]
  }

  /** Partition mode, first `n` quizzes: each takes the next `sizes[k]`
      questions of the shuffled list, from where the quizzes before it
      stopped. */
  function PartitionChunks(shuffled: seq<Pair>, sizes: seq<int>, n: nat): (r: seq<seq<Pair>>)
    requires NonNegative(sizes) && n <= |sizes|
    ensures |r| == n
  {
    if n == 0 then []
    else
      OffsetBounds(sizes, n - 1, n - 1);
      var start := Offset(sizes, n - 1);
      PartitionChunks(shuffled, sizes, n - 1) + [Slice(shuffled, start, start + sizes[n - 1])]
  }

  /** Duplicate mode, first `n` quizzes: each takes the first `sizes[k]`
      questions of its own reshuffle of the list. */
  function DuplicateChunks(reshuffles: seq<seq<Pair>>, sizes: seq<int>, n: nat): (r: seq<seq<Pair>>)
    requires n <= |sizes| <= |reshuffles|
    ensures |r| == n
  {
    if n == 0 then []
    else DuplicateChunks(reshuffles, sizes, n - 1) + [PyPrefix(reshuffles[n - 1], sizes[n - 1])]
  }

  /** The quizzes made from the chunks: quiz `k` gets the id for number `k`
      out of `count` from the clock reading `timestamps[k]`, the creation
      time `createdAts[k]` and the questions of chunk `k`. */
  function QuizzesOf(chunks: seq<seq<Pair>>, count: int, prefix: string, timestamps: seq<string>,
                     createdAts: seq<string>, sourceFile: string): (r: seq<Quiz>)
    requires |chunks| <= |timestamps| && |chunks| <= |createdAts|
    ensures |r| == |chunks|
  {
    if chunks == [] then []
    else
      var n := |chunks| - 1;
      QuizzesOf(chunks[..n], count, prefix, timestamps, createdAts, sourceFile)
      + [Quiz(QuizIdFor(prefix, timestamps[n], n, count), createdAts[n], MakeQuestions(chunks[n]), sourceFile)]
  }

  /** The quiz loop of `main`: quiz `k` is numbered `k + 1` when there are
      several; in partition mode it takes the next `sizes[k]` questions of
      the shuffled list, from a running index; in duplicate mode the first
      `sizes[k]` of its own reshuffle of the list. The clock is read for each
      quiz: `timestamps[k]` for its id and `createdAts[k]` for its creation
      time. Duplicate-mode quizzes hold only questions of the list; in
      partition mode, when the sizes add up to the number of questions, the
      quizzes together are the shuffled list. */
  method BuildQuizzes(shuffled: seq<Pair>, reshuffles: seq<seq<Pair>>, sizes: seq<int>,
                      allowDuplicates: bool, prefix: string, timestamps: seq<string>,
                      createdAts: seq<string>, sourceFile: string)
    returns (quizzes: seq<Quiz>, chunks: seq<seq<Pair>>)
    requires |timestamps| == |sizes| && |createdAts| == |sizes|
    requires !allowDuplicates ==> NonNegative(sizes)
    requires allowDuplicates ==> |reshuffles| >= |sizes|
    requires allowDuplicates ==>
               forall k :: 0 <= k < |sizes| ==> multiset(reshuffles[k]) == multiset(shuffled)
    ensures |chunks| == |sizes|
    ensures allowDuplicates ==> chunks == DuplicateChunks(reshuffles, sizes, |sizes|)
    ensures !allowDuplicates ==> chunks == PartitionChunks(shuffled, sizes, |sizes|)
    ensures quizzes == QuizzesOf(chunks, |sizes|, prefix, timestamps, createdAts, sourceFile)
    ensures allowDuplicates ==>
              forall k :: 0 <= k < |sizes| ==> multiset(chunks[k]) <= multiset(shuffled)
    ensures !allowDuplicates && Sum(sizes) == |shuffled| ==> Concat(chunks) == shuffled
  {
    quizzes, chunks := [], [];
    var questionIndex := 0;
    var i := 0;
    while i < |sizes|
      invariant 0 <= i <= |sizes| && |chunks| == i
      invariant allowDuplicates ==> chunks == DuplicateChunks(reshuffles, sizes, i)
      invariant !allowDuplicates ==>
                  chunks == PartitionChunks(shuffled, sizes, i) && questionIndex == Offset(sizes, i)
      invariant quizzes == QuizzesOf(chunks, |sizes|, prefix, timestamps, createdAts, sourceFile)
    {
      var quizId := QuizIdFor(prefix, timestamps[i], i, |sizes|);
      var quizQuestions;
      quizQuestions, questionIndex := NextChunk(shuffled, reshuffles, sizes, allowDuplicates, i, questionIndex);
      var quiz := CreateQuiz(quizQuestions, quizId, createdAts[i], sourceFile);
      QuizzesStep(chunks, quizQuestions, |sizes|, prefix, timestamps, createdAts, sourceFile);
      quizzes := quizzes + [quiz];
      chunks := chunks + [quizQuestions];
      i := i + 1;
    }
    ChunksFromPool(shuffled, reshuffles, sizes, allowDuplicates);
  }

  /** What the chunks of either mode hold, in terms of the shuffled list. */
  lemma ChunksFromPool(shuffled: seq<Pair>, reshuffles: seq<seq<Pair>>, sizes: seq<int>, allowDuplicates: bool)
    requires !allowDuplicates ==> NonNegative(sizes)
    requires allowDuplicates ==> |reshuffles| >= |sizes|
    requires allowDuplicates ==>
               forall k :: 0 <= k < |sizes| ==> multiset(reshuffles[k]) == multiset(shuffled)
    ensures allowDuplicates ==>
              forall k :: 0 <= k < |sizes| ==>
                multiset(DuplicateChunks(reshuffles, sizes, |sizes|)[k]) <= multiset(shuffled)
    ensures !allowDuplicates && Sum(sizes) == |shuffled| ==>
              Concat(PartitionChunks(shuffled, sizes, |sizes|)) == shuffled
  {
    if allowDuplicates {
      forall k | 0 <= k < |sizes|
        ensures multiset(DuplicateChunks(reshuffles, sizes, |sizes|)[k]) <= multiset(shuffled)
      {
        DuplicateChunkFromPool(shuffled, reshuffles, sizes, |sizes|, k);
      }
    } else if Sum(sizes) == |shuffled| {
      PartitionExact(shuffled, sizes);
    }
  }

  /** The questions of quiz `i`: in duplicate mode the first `sizes[i]` of
      reshuffle `i`; in partition mode the next `sizes[i]` of the shuffled
      list from the running index, which then moves past them. */
  method NextChunk(shuffled: seq<Pair>, reshuffles: seq<seq<Pair>>, sizes: seq<int>,
                   allowDuplicates: bool, i: nat, questionIndex: int)
    returns (chunk: seq<Pair>, nextIndex: int)
    requires i < |sizes|
    requires !allowDuplicates ==> NonNegative(sizes) && questionIndex == Offset(sizes, i)
    requires allowDuplicates ==> |reshuffles| >= |sizes|
    ensures allowDuplicates ==>
              DuplicateChunks(reshuffles, sizes, i + 1) == DuplicateChunks(reshuffles, sizes, i) + [chunk]
    ensures !allowDuplicates ==>
              PartitionChunks(shuffled, sizes, i + 1) == PartitionChunks(shuffled, sizes, i) + [chunk]
              && nextIndex == Offset(sizes, i + 1)
  {
    nextIndex := questionIndex;
    if allowDuplicates {
      chunk := PyPrefix(reshuffles[i], sizes[i]);
      DuplicateStep(reshuffles, sizes, i);
    } else {
      var quizSize := sizes[i];
      PartitionStep(shuffled, sizes, i);
      chunk := Slice(shuffled, questionIndex, questionIndex + quizSize);
      nextIndex := questionIndex + quizSize;
    }
  }

  /** One more quiz in partition mode: the next slice, from the running index. */
  lemma PartitionStep(shuffled: seq<Pair>, sizes: seq<int>, i: nat)
    requires NonNegative(sizes) && i < |sizes|
    ensures 0 <= Offset(sizes, i) && Offset(sizes, i + 1) == Offset(sizes, i) + sizes[i]
    ensures PartitionChunks(shuffled, sizes, i + 1)
            == PartitionChunks(shuffled, sizes, i)
               + [Slice(shuffled, Offset(sizes, i), Offset(sizes, i) + sizes[i])]
  {
    OffsetBounds(sizes, i, i);
  }

  /** One more quiz in duplicate mode: a prefix of the next reshuffle. */
  lemma DuplicateStep(reshuffles: seq<seq<Pair>>, sizes: seq<int>, i: nat)
    requires i < |sizes| <= |reshuffles|
    ensures DuplicateChunks(reshuffles, sizes, i + 1)
            == DuplicateChunks(reshuffles, sizes, i) + [PyPrefix(reshuffles[i], sizes[i])]
  {
  }

  lemma QuizzesStep(chunks: seq<seq<Pair>>, chunk: seq<Pair>, count: int, prefix: string,
                    timestamps: seq<string>, createdAts: seq<string>, sourceFile: string)
    requires |chunks| < |timestamps| && |chunks| < |createdAts|
    ensures QuizzesOf(chunks + [chunk], count, prefix, timestamps, createdAts, sourceFile)
            == QuizzesOf(chunks, count, prefix, timestamps, createdAts, sourceFile)
               + [Quiz(QuizIdFor(prefix, timestamps[|chunks|], |chunks|, count), createdAts[|chunks|],
                       MakeQuestions(chunk), sourceFile)]
  {
    assert (chunks + [chunk])[..|chunks|] == chunks;
  }

  /** Quiz `k` has the id for number `k` made from its own clock reading,
      its own creation time, the questions of chunk `k`, and the source file
      shared by all of them. */
  lemma {:induction false} QuizzesOfAt(chunks: seq<seq<Pair>>, count: int, prefix: string,
                                       timestamps: seq<string>, createdAts: seq<string>,
                                       sourceFile: string, k: nat)
    requires k < |chunks| <= |timestamps| && |chunks| <= |createdAts|
    ensures QuizzesOf(chunks, count, prefix, timestamps, createdAts, sourceFile)[k]
            == Quiz(QuizIdFor(prefix, timestamps[k], k, count), createdAts[k], MakeQuestions(chunks[k]), sourceFile)
  {
    var n := |chunks| - 1;
    if k < n {
      QuizzesOfAt(chunks[..n], count, prefix, timestamps, createdAts, sourceFile, k);
    }
  }

  /** The quizzes of one import all have different ids, however the clock
      readings of the quizzes differ. */
  lemma QuizIdsUnique(chunks: seq<seq<Pair>>, prefix: string, timestamps: seq<string>,
                      createdAts: seq<string>, sourceFile: string, j: nat, k: nat)
    requires |chunks| <= |timestamps| && |chunks| <= |createdAts|
    requires j < |chunks| && k < |chunks| && j != k
    ensures QuizzesOf(chunks, |chunks|, prefix, timestamps, createdAts, sourceFile)[j].quizId
            != QuizzesOf(chunks, |chunks|, prefix, timestamps, createdAts, sourceFile)[k].quizId
  {
    QuizzesOfAt(chunks, |chunks|, prefix, timestamps, createdAts, sourceFile, j);
    QuizzesOfAt(chunks, |chunks|, prefix, timestamps, createdAts, sourceFile, k);
    QuizIdsOfOneImportDistinct(prefix, timestamps[j], timestamps[k], j, k, |chunks|);
  }

  /** In duplicate mode quiz `k` takes `reshuffles[k][:sizes[k]]`. */
  lemma {:induction false} DuplicateChunkAt(reshuffles: seq<seq<Pair>>, sizes: seq<int>, n: nat, k: nat)
    requires n <= |sizes| <= |reshuffles| && k < n
    ensures DuplicateChunks(reshuffles, sizes, n)[k] == PyPrefix(reshuffles[k], sizes[k])
  {
    if k < n - 1 {
      DuplicateChunkAt(reshuffles, sizes, n - 1, k);
    }
  }

  /** In duplicate mode each quiz draws from the whole pool: when its
      reshuffle is a permutation of the shuffled list, quiz `k` holds only
      questions of the list, none more often than it occurs there, and
      `sizes[k]` of them when that many exist (all of them when fewer). */
  lemma DuplicateChunkFromPool(shuffled: seq<Pair>, reshuffles: seq<seq<Pair>>, sizes: seq<int>, n: nat, k: nat)
    requires n <= |sizes| <= |reshuffles| && k < n
    requires multiset(reshuffles[k]) == multiset(shuffled)
    ensures multiset(DuplicateChunks(reshuffles, sizes, n)[k]) <= multiset(shuffled)
    ensures |DuplicateChunks(reshuffles, sizes, n)[k]|
            == if sizes[k] >= 0 then Min(sizes[k], |shuffled|)
               else if |shuffled| + sizes[k] > 0 then |shuffled| + sizes[k] else 0
  {
    DuplicateChunkAt(reshuffles, sizes, n, k);
    var r := reshuffles[k];
    var c := PyPrefix(r, sizes[k]);
    assert r == c + r[|c|..];
    assert |r| == |shuffled| by {
      assert |multiset(r)| == |multiset(shuffled)|;
    }
  }

  /** Duplicate mode with a non-negative cap: every quiz holds
      `min(maxQuestions, total)` questions of the pool. */
  lemma DuplicateQuizSizes(shuffled: seq<Pair>, reshuffles: seq<seq<Pair>>, maxQuestions: int,
                           number: Option<int>, k: nat)
    requires maxQuestions >= 0
    requires k < |QuizSizes(|shuffled|, maxQuestions, number, true).value| <= |reshuffles|
    requires multiset(reshuffles[k]) == multiset(shuffled)
    ensures var sizes := QuizSizes(|shuffled|, maxQuestions, number, true).value;
            |DuplicateChunks(reshuffles, sizes, |sizes|)[k]| == Min(maxQuestions, |shuffled|)
  {
    var sizes := QuizSizes(|shuffled|, maxQuestions, number, true).value;
    DuplicatePlan(|shuffled|, maxQuestions, number);
    DuplicateChunkFromPool(shuffled, reshuffles, sizes, |sizes|, k);
  }

  /** In partition mode quiz `k` takes the questions from the sum of the
      sizes before it, `sizes[k]` of them or as many as are left. */
  lemma {:induction false} PartitionChunkAt(shuffled: seq<Pair>, sizes: seq<int>, n: nat, k: nat)
    requires NonNegative(sizes) && n <= |sizes| && k < n
    ensures 0 <= Offset(sizes, k)
    ensures PartitionChunks(shuffled, sizes, n)[k]
            == Slice(shuffled, Offset(sizes, k), Offset(sizes, k) + sizes[k])
  {
    OffsetBounds(sizes, k, k);
    if k < n - 1 {
      PartitionChunkAt(shuffled, sizes, n - 1, k);
    }
  }

  /** Taken together the chunks are the first `Offset(sizes, n)` questions of
      the shuffled list (all of it when the sizes add up to more): no question
      is used twice and none is skipped. */
  lemma {:induction false} PartitionChunksCover(shuffled: seq<Pair>, sizes: seq<int>, n: nat)
    requires NonNegative(sizes) && n <= |sizes|
    ensures 0 <= Offset(sizes, n)
    ensures Concat(PartitionChunks(shuffled, sizes, n)) == shuffled[..Min(Offset(sizes, n), |shuffled|)]
  {
    OffsetBounds(sizes, n, n);
    if n > 0 {
      PartitionChunksCover(shuffled, sizes, n - 1);
      SliceStep(shuffled, PartitionChunks(shuffled, sizes, n - 1), Offset(sizes, n - 1), sizes[n - 1]);
    }
  }

  /** When the sizes add up to the number of questions, as the even split
      guarantees, every quiz gets exactly its planned size and every question
      lands in exactly one quiz. */
  lemma PartitionExact(shuffled: seq<Pair>, sizes: seq<int>)
    requires NonNegative(sizes) && Sum(sizes) == |shuffled|
    ensures Concat(PartitionChunks(shuffled, sizes, |sizes|)) == shuffled
    ensures forall k :: 0 <= k < |sizes| ==> |PartitionChunks(shuffled, sizes, |sizes|)[k]| == sizes[k]
  {
    OffsetIsSum(sizes, |sizes|);
    assert sizes[..|sizes|] == sizes;
    PartitionChunksCover(shuffled, sizes, |sizes|);
    forall k | 0 <= k < |sizes|
      ensures |PartitionChunks(shuffled, sizes, |sizes|)[k]| == sizes[k]
    {
      PartitionChunkAt(shuffled, sizes, |sizes|, k);
      OffsetBounds(sizes, k + 1, |sizes|);
    }
  }

  /** One step of the running index: the next slice continues the ones
      before it. */
  lemma SliceStep<T>(s: seq<T>, chunks: seq<seq<T>>, idx: int, size: int)
    requires idx >= 0 && size >= 0
    requires Concat(chunks) == s[..Min(idx, |s|)]
    ensures Concat(chunks + [Slice(s, idx, idx + size)]) == s[..Min(idx + size, |s|)]
  {
    assert (chunks + [Slice(s, idx, idx + size)])[..|chunks|] == chunks;
  }

  /** With no negative size the running index never decreases. */
  lemma {:induction false} OffsetBounds(sizes: seq<int>, k: nat, n: nat)
    requires NonNegative(sizes) && k <= n <= |sizes|
    ensures 0 <= Offset(sizes, k) <= Offset(sizes, n)
  {
    if n > k {
      OffsetBounds(sizes, k, n - 1);
    } else if k > 0 {
      OffsetBounds(sizes, k - 1, k - 1);
    }
  }

  /** The running index is the sum of the sizes so far. */
  lemma {:induction false} OffsetIsSum(sizes: seq<int>, k: nat)
    requires k <= |sizes|
    ensures Offset(sizes, k) == Sum(sizes[..k])
  {
    if k > 0 {
      OffsetIsSum(sizes, k - 1);
      assert sizes[..k][..k - 1] == sizes[..k - 1];
    }
  }
}
