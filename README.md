# Quizzer core in Dafny

Quizzer turns a CSV file of question/answer rows into quiz files and then runs
a quiz on the console, grading each typed answer. This project models the
parts of Quizzer that decide what a quiz holds and how an attempt is graded,
and proves what they promise:

- **Answer canonicalisation** (`quizzer/normalizer.py`). `normalize_answer`
  splits an answer at commas, strips and lower-cases each part, drops the
  empty parts and sorts the rest. `answers_match` compares two canonical
  forms. `format_answer_display` rejoins the stripped parts with `", "` and
  keeps their case. Module `Normalizer` holds these; module `Text` holds the
  string operations they are built from: Python's whitespace set, `strip`,
  ASCII `lower`, `split(',')`, `join`, code-point order with `sorted`, and
  `str(int)`.
- **Quiz records** (`quizzer/quiz_data.py`). `Question` and `Quiz` convert to
  and from the JSON objects a quiz file holds. `QuizResult.generate_report`
  writes the text report of an attempt. All of this is in module `QuizData`.
- **CSV import** (`import_quiz.py`), module `ImportQuiz`:
  - the row loop of `read_csv_questions`: a row with too few columns is an
    error, the header row and rows with an empty field are skipped;
  - `create_quiz`;
  - `generate_quiz_id`;
  - the planning in `main`: how many quizzes, and of which sizes, in
    partition mode and in duplicate mode;
  - the loop that slices the shuffled questions into quizzes.
- **Quiz runner** (`run_quiz.py`, `run_quiz`), module `RunQuiz`. The loop
  asks each question, grades the stripped line against the stored display
  answer, counts the right answers and records a failure for each wrong one.
  It then computes the percentage and the verdict against the pass threshold.

Module `Outcomes` holds the `Option` and `Result` types that carry the error
paths.

Behaviour the model keeps from the code, where a reader might expect
otherwise:

- Header detection looks for "question" only in the first column and for
  "answer" only in the second column, not for either word in either column.
- The runner has no answer-count check. When the input runs out it exits,
  which is modelled as `Interrupted`. Lines after the last question are never
  read.
- `time_spent` is never set by `run_quiz`, so it stays at its default `0.0`.
- A quiz with no questions is not rejected up front. The division by zero
  raises, which is modelled as `DivisionByZero`.

## Model

| member | source | states |
|---|---|---|
| Text.StripSpec | quizzer/normalizer.py:49 | `strip()` leaves no whitespace at either end, and gives "" exactly when the text is all whitespace |
| Text.LowerFacts | quizzer/normalizer.py:49 | `lower()` keeps length, whitespace ends and commas, leaves no upper-case letter, and maps only "" to "" |
| Text.SplitParts | quizzer/normalizer.py:49 | the parts of `split(',')` hold no comma, and joining them with "," gives the text back |
| Text.SplitJoin | quizzer/normalizer.py:107-108 | splitting comma-free parts joined by "," gives the parts back |
| Text.SortStringsSorted | quizzer/normalizer.py:52 | `sorted()` returns a sorted permutation of its argument |
| Text.SortedUnique | quizzer/normalizer.py:52 | two sorted lists with the same multiset are equal, so the result of `sorted()` depends only on the multiset |
| Text.IntToStringInjective | import_quiz.py:226 | distinct integers have distinct `str()` texts |
| Normalizer.NormalizeAnswerSpec | quizzer/normalizer.py:14-54 | the canonical form is sorted; each part is non-empty, stripped, lower-case and comma-free; and it is exactly the multiset of the stripped, lower-cased, non-empty comma parts |
| Normalizer.NormalizeEmptyIffBlank | quizzer/normalizer.py:45-54 | the canonical form is empty exactly when the answer is only whitespace and commas |
| Normalizer.CleanPartsClean | quizzer/normalizer.py:49-52 | every kept part is non-empty, stripped and lower-case |
| Normalizer.CleanPartsPermutation | quizzer/normalizer.py:49-52 | permuting the comma parts permutes the kept parts |
| Normalizer.NormalizeEqualIffSameParts | quizzer/normalizer.py:57-81 | two answers match exactly when their kept parts are equal as multisets: order never matters, and how often a part occurs always does |
| Normalizer.MatchReflexiveSymmetric | quizzer/normalizer.py:81 | every answer matches itself, and `answers_match(a, b)` holds exactly when `answers_match(b, a)` does |
| Normalizer.MatchPermutationInvariant | quizzer/normalizer.py:57-81 | reordering the comma parts of an answer, spacing included, never changes whether it matches |
| Normalizer.MatchRejectsDifferentPartCount | tests/test_normalizer.py:96-99 | answers with different numbers of non-empty parts never match, so a partial answer fails |
| Normalizer.EmptyMatchesOnlyBlank | tests/test_normalizer.py:101-105 | "" matches exactly the answers that are only whitespace and commas |
| Normalizer.DisplayPartsOfFormat | quizzer/normalizer.py:84-108 | re-splitting the display form gives the same stripped parts, case kept |
| Normalizer.FormatIdempotent | quizzer/normalizer.py:84-108 | formatting twice equals formatting once |
| Normalizer.NormalizeOfFormat | quizzer/normalizer.py:84-108 | the display form has the same canonical form as the raw answer |
| Normalizer.FormatEmptyIffBlank | quizzer/normalizer.py:103-108 | the display form is "" exactly when the answer is only whitespace and commas |
| Normalizer.FormatKeepsCase | quizzer/normalizer.py:84-108 | lower-casing the display parts gives the canonical parts in their original order: display differs from canonical only by case and order |
| QuizData.QuestionToDict | quizzer/quiz_data.py:33-35 | `to_dict` gives an object with exactly the four declared fields |
| QuizData.QuestionFromDict | quizzer/quiz_data.py:37-40 | `from_dict` into the typed record succeeds exactly on objects with exactly the four fields, each holding a value of the record's type (Python also stores other value types; see Left out); each result converts back to the same document; an undeclared field or a missing field is that error |
| QuizData.QuestionRoundTrip | quizzer/quiz_data.py:33-40 | `Question.from_dict(q.to_dict()) == q` |
| QuizData.QuizToDict | quizzer/quiz_data.py:60-67 | `Quiz.to_dict` gives an object with exactly the keys quiz_id, created_at, source_file and questions |
| QuizData.QuestionsFromJson | quizzer/quiz_data.py:72 | reading the question list succeeds exactly when every item is a question document whose values have the record's types (see Left out), and the result converts back to the same items |
| QuizData.QuestionsFromJsonFirstError | quizzer/quiz_data.py:72 | a failing list raises the error of its first item that is not a question |
| QuizData.QuizFromDict | quizzer/quiz_data.py:69-78 | `Quiz.from_dict` into the typed record succeeds exactly on an object whose questions is a list of question documents, whose quiz_id and created_at are strings, and whose source_file is a string or absent; so it fails without questions, quiz_id or created_at, and on values not of the record's types (see Left out); on success `source_file` is the document's own or ""; every known field read equals what `to_dict` writes |
| QuizData.QuestionsRoundTrip | quizzer/quiz_data.py:60-78 | the question list round-trips, order included |
| QuizData.QuizRoundTrip | quizzer/quiz_data.py:60-78 | `Quiz.from_dict(quiz.to_dict()) == quiz` |
| QuizData.QuizSourceFileDefault | quizzer/quiz_data.py:77 | a document without source_file still loads, and gives a quiz whose source file is "" |
| QuizData.QuizFromDictIgnoresOtherFields | quizzer/quiz_data.py:69-78 | fields other than the four of a quiz never change what is read |
| QuizData.QuizToDictQuestions | quizzer/quiz_data.py:66 | the questions of a quiz document are the questions' own documents, one to one and in order |
| QuizData.TruncateToInt | quizzer/quiz_data.py:142 | `int()` truncates toward zero |
| QuizData.MinutesSeconds | quizzer/quiz_data.py:142 | `divmod(int(t), 60)`: seconds in 0..59, and 60 × minutes + seconds = int(t) |
| QuizData.TimeTextMinutes | quizzer/quiz_data.py:142-143 | the time text names minutes exactly from 60 seconds on; below that it is the seconds followed by "s" |
| QuizData.ReportLines | quizzer/quiz_data.py:145-169 | the report has 9 lines with no failures, else 10 + 4 per failure |
| QuizData.GenerateReport | quizzer/quiz_data.py:135-171 | the loop's report is the header lines and then the perfect-score line or the failure blocks, joined by newlines |
| QuizData.ReportSaysPassIffPassed | quizzer/quiz_data.py:152 | the Result line says PASS exactly when the attempt passed |
| QuizData.FailureSectionBlock | quizzer/quiz_data.py:159-167 | failure i occupies lines 4i to 4i+3 of the failure section |
| QuizData.ReportStructure | quizzer/quiz_data.py:145-171 | the report ends with the perfect-score line exactly when there are no failures; otherwise it shows their count, a rule of 60 "=", and every failure's block in order |
| ImportQuiz.ReadRows | import_quiz.py:122-147 | the row loop succeeds exactly when every row has two columns, and then returns the kept pairs in row order; otherwise it reports the first short row, with its 1-based number and column count |
| ImportQuiz.KeptFieldsNonEmpty | import_quiz.py:132-147 | every pair read has a non-empty stripped question and answer |
| ImportQuiz.KeptIgnoresExtraColumns | import_quiz.py:130-131 | columns after the second never change what is read |
| ImportQuiz.KeptSkipsBlankRows | import_quiz.py:122-147 | after the first row, rows with a blank field are skipped wherever they are, and every other row is read, stripped, in order |
| ImportQuiz.LaterRowKept | import_quiz.py:135-147 | a row after the first with neither field blank is always read, stripped |
| ImportQuiz.OnlyFirstRowIsHeader | import_quiz.py:135-140 | when no field is blank, every row but the first is read in order, and the first is dropped exactly when it looks like a header |
| ImportQuiz.CreateQuiz | import_quiz.py:170-210 | the quiz has the given id, time and source file, and one question per pair, in order, numbered from 1 |
| ImportQuiz.CreatedQuestionsConsistent | import_quiz.py:192-200 | question i has id i+1 (so ids are distinct), the pair's text, the canonical answer and the display answer, and the display answer canonicalises to the stored canonical answer |
| ImportQuiz.GenerateQuizId | import_quiz.py:213-227 | every id starts with prefix + "_" + timestamp |
| ImportQuiz.QuizIdSuffix | import_quiz.py:224-227 | the first two clauses spell out the two id shapes of the f-strings (prefix + "_" + timestamp, and that + "_" + `str(k)`); the property is the third: the unnumbered id is strictly shorter than any numbered one |
| ImportQuiz.QuizIdsDistinct | import_quiz.py:224-226 | different sequence numbers give different ids, whatever time stamps the two ids hold: the text after the last "_" is `str(k)`, which has no "_" |
| ImportQuiz.QuizIdsOfOneImportDistinct | import_quiz.py:383 | two different quizzes of one import get different ids, even when the clock reads differently for each |
| ImportQuiz.FloorDiv | import_quiz.py:352 | Python `//`: rounds toward negative infinity, for either sign of the divisor |
| ImportQuiz.FloorMod | import_quiz.py:353 | Python `%`: a = b × (a // b) + r, with r having the divisor's sign |
| ImportQuiz.RoundDiv | import_quiz.py:338 | `round(a / b)`: within half of a unit of a / b, and even on a tie |
| ImportQuiz.RoundDivUnique | import_quiz.py:338 | that rounding has exactly one result |
| ImportQuiz.CalculatedQuizCount | import_quiz.py:338 | a cap of 0 is a division by zero; any other cap gives at least one quiz |
| ImportQuiz.CalculatedQuizCountNearest | import_quiz.py:337-338 | the count is nearest to total / cap: at most half a quiz's worth of questions over or under |
| ImportQuiz.NegativeCapGivesOneQuiz | import_quiz.py:338 | a negative cap gives one quiz |
| ImportQuiz.EvenSizesPartition | import_quiz.py:351-356 | n sizes that add up to the total, the first total % n of them one larger, no two differing by more than one |
| ImportQuiz.EvenSizesNegative | import_quiz.py:356 | a negative quiz count plans no quiz |
| ImportQuiz.QuizSizes | import_quiz.py:325-356 | duplicate mode always plans; partition mode fails exactly on a cap of 0 or an explicit count of 0 |
| ImportQuiz.DuplicatePlan | import_quiz.py:325-334 | duplicate mode makes `number or 1` quizzes, none when that is negative, each of the cap, or of the total when there are fewer questions |
| ImportQuiz.PartitionPlan | import_quiz.py:338-356 | partition mode uses an explicit count as given, else the calculated one, and its sizes add up to the total |
| ImportQuiz.PyPrefix | import_quiz.py:390 | `s[:k]` is a prefix of s, of length min(k, \|s\|), counting from the end when k is negative |
| ImportQuiz.Slice | import_quiz.py:394 | `s[lo:hi]` has min(hi, \|s\|) − min(lo, \|s\|) items |
| ImportQuiz.BuildQuizzes | import_quiz.py:379-401 | the loop's quizzes: quiz k gets the id for k from its own clock reading and its own creation time; in partition mode, the next sizes[k] questions from a running index; in duplicate mode, the first sizes[k] of reshuffle k, a permutation of the shuffled list, so each quiz holds only questions of the list and none more often than there; in partition mode with sizes adding up to the total, the quizzes together are the shuffled list |
| ImportQuiz.NextChunk | import_quiz.py:386-395 | one pass extends the chunks by the next one and moves the running index past it |
| ImportQuiz.QuizzesOfAt | import_quiz.py:381-401 | quiz k has the id for k made from its own time stamp, its own creation time, the questions of chunk k, and the shared source file |
| ImportQuiz.QuizIdsUnique | import_quiz.py:381-383 | the quizzes of one import have pairwise different ids, whatever time stamp each quiz reads |
| ImportQuiz.DuplicateChunkAt | import_quiz.py:386-390 | in duplicate mode quiz k takes `reshuffles[k][:sizes[k]]` |
| ImportQuiz.DuplicateChunkFromPool | import_quiz.py:386-390 | when reshuffle k is a permutation of the shuffled list, quiz k holds only questions of the list, none more often than there, and min(sizes[k], total) of them for a non-negative size (total + size, at least 0, for a negative one) |
| ImportQuiz.DuplicateQuizSizes | import_quiz.py:325-390 | duplicate mode with a non-negative cap: every quiz holds min(cap, total) questions |
| ImportQuiz.PartitionChunkAt | import_quiz.py:391-395 | in partition mode quiz k takes the slice that starts at the sum of the sizes before it |
| ImportQuiz.PartitionChunksCover | import_quiz.py:391-395 | the chunks together are a prefix of the shuffled list: no question used twice or skipped |
| ImportQuiz.PartitionExact | import_quiz.py:351-395 | when the sizes add up to the total, every quiz gets exactly its size and every question lands in exactly one quiz |
| ImportQuiz.OffsetIsSum | import_quiz.py:379-395 | the running index before quiz k is the sum of the first k sizes |
| RunQuiz.RunQuiz | run_quiz.py:436-497 | the run is interrupted exactly when the lines run out before the questions, and divides by zero exactly on an empty quiz. Otherwise the result has: the quiz's id; the total; the number of questions whose line matched; the failures of exactly the unmatched ones, one each, in question order; right answers + failures = total; a score and verdict as `ScoreAgrees` defines them; and a time spent of 0 |
| RunQuiz.AskAll | run_quiz.py:462-479 | the loop answers min(questions, lines) questions, and its count and failures are those of the questions answered |
| RunQuiz.AskQuestion | run_quiz.py:464-479 | one question adds one right answer or appends its failure, keeping the count and failures in step with the answers so far |
| RunQuiz.FailureForSpec | run_quiz.py:474-479 | a failure records the id as decimal text, the question and its stored answer; an empty answer is recorded as "(no answer)", and any other answer in a display form that grades like the answer itself |
| RunQuiz.BlankLineFails | run_quiz.py:467-477 | an empty answer is right only for a blank stored answer, and is recorded as "(no answer)" |
| RunQuiz.MakeResult | run_quiz.py:481-495 | score × total = 100 × right answers, and the result passes exactly when 100 × right ≥ threshold × total |
| RunQuiz.ScoreMeaning | run_quiz.py:483-484 | the percentage reaches the threshold exactly when 100 × right reaches threshold × total |
| RunQuiz.CountPlusMissed | run_quiz.py:469-479 | right answers + failures = questions asked, and there are no failures exactly when every answer was right |
| RunQuiz.RunCountIsMatches | run_quiz.py:467-470 | the right-answer count of a run is the number of questions whose typed line matches the stored answer |
| RunQuiz.RunFailuresAreMisses | run_quiz.py:472-479 | the failures of a run are the records of exactly the questions whose typed line does not match, one each, in question order |
| RunQuiz.EightOfTenPassesAtEighty | tests/test_run_quiz.py:64-75 | 8 right out of 10 scores exactly 80 and passes at a threshold of 80: the pass mark is inclusive |

## Left out

- Console I/O is not modelled: the prints, the banner, the "Press Enter to start" prompt, the yes/no prompt about deleting old quizzes, and deleting files. The lines a user types are a sequence parameter of `RunQuiz.RunQuiz`.
- Files and JSON text are not modelled: opening the CSV, trying several encodings, CSV tokenising, `json.dump` and `json.load`, `Quiz.save` and `Quiz.load`, and `save_report`. `ImportQuiz.ReadRows` takes the rows already split into fields. Quiz documents are modelled as a JSON value, not as text.
- `datetime.now()` and the formatted time stamps are parameters. `main` reads the clock anew for each quiz, so `ImportQuiz.BuildQuizzes` takes one id time stamp and one creation time per quiz.
- `random.shuffle` is not modelled: the shuffled list and each quiz's reshuffle (duplicate mode) are parameters of `ImportQuiz.BuildQuizzes`.
- Argument parsing, the metadata file `last_import.json` and the order of steps in `main` are not modelled. The planning and slicing that `main` performs are modelled.
- An empty question list makes `main` exit before planning. The planner is modelled for every total, but the lemmas assume a non-negative total.
- RunQuiz.MakeResult: the percentage and the comparison with the threshold are exact rationals, not IEEE doubles. Near the threshold, floating-point rounding can give a different verdict.
- Ctrl+C during the quiz is not modelled. Running out of input is, as `Interrupted`.
- QuizData.GenerateReport: the score text (`:.1f` formatting of a float) is a parameter, because float formatting is not modelled.
- `QuizResult.to_dict`, `display_results` and the HTML reports are not modelled.
- Text.Lower: only ASCII letters are lower-cased. Python's `lower()` also maps non-ASCII letters. Whitespace is Python's full `isspace()` set.
- Unicode code points stand for Python characters. Dafny's `char` cannot hold surrogate code points, so those are not modelled.
- QuizData.QuestionFromDict: the record's fields are typed (an integer id, strings for question and original_answer, a list of strings for answer), so a document whose value for one of them has another JSON type fails with `WrongType`. Python's `cls(**data)` checks only the key names and stores any value unchanged.
- QuizData.QuestionsFromJson: an item that is an object with the four keys but a value of another type fails, for the reason above.
- QuizData.QuizFromDict: a questions value that is not a list fails with `WrongType`, although Python iterates it (an empty string or object gives a quiz with no questions; other values raise). A quiz_id, created_at or source_file that is not a string (a number, or null for source_file) fails too, where Python stores it unchanged.
- Only integer numbers are modelled in JSON documents. A quiz document has no other kind.
- A typed answer "(no answer)" is recorded exactly like an empty answer. The model keeps that ambiguity.
