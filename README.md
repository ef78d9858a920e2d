# Exam-practice app: grading, sampling and the exam session

A Dafny model of the sequential logic of a single-user practice tool for the
ITPEC FE evening exam. The tool keeps a bank of multiple-choice questions,
lets the user upload a new bank (CSV, Excel or JSON), draws a timed mock exam
of up to 20 random questions, collects one answer per question, scores the
attempt and shows a review.

Two modules follow the two source files:

- `Utils` (`utils.dfy`, for `utils.py`): the `Question` and `GradedResult`
  records, `grade_exam` as the loop `GradeExam`, the library sampler
  `random.sample` as `Sample`, and `generate_exam` as `GenerateExam`. The
  score is tied to a left-to-right count `CountCorrect`. A lemma shows that
  count equals the size of the set of correctly answered positions. Another
  shows that sampling without replacement draws a sub-multiset of the
  population, and a draw of every element a permutation of it.
- `App` (`app.dfy`, for `app.py`): the Streamlit session state as the class
  `Session` with the fields `questions`, `examStarted`, `examQuestions`,
  `userAnswers` and `startTime`. Its methods are the button presses and one
  render of the exam page. The pure rules inside the script are functions:
  the timer arithmetic, `int()` truncation, `divmod`, the pre-selected
  radio index and the upload dispatch. The session invariant `Valid()` says
  three things. An idle session holds no exam, no answers and no start time.
  A running one has a start time. Every stored answer belongs to an exam
  question and is one of its options.

Randomness (`random.sample`, `DataFrame.sample`) is a nondeterministic
choice (`:|`) of any draw at distinct positions. For the start button this
is a superset of the real outcomes, since its draw is seeded (see
"Left out"). The user's
clicks on the answer widgets are a parameter `selections` of the render. The wall clock is a parameter `now: real`. The
elapsed time is exact, and `int(elapsed)` is modelled as truncation toward
zero. The file parsers are function-valued fields of `Parsers`: `read_csv`,
`read_excel`, `json.load` and the `DataFrame` constructor.

Behaviour of the script that the model keeps as written:

- No error is raised for a press in the wrong state or an answer to a
  question outside the exam. The start button is drawn only when a bank is
  loaded and no exam runs. The submit button and the answer widgets are
  drawn only while an exam runs. These rendering conditions are the
  `requires` of `Start`, `Render` and `Submit`.
- A submit press runs the whole page first: the answer widgets are drawn
  and their values stored (app.py:97-123) before the submit branch scores
  (app.py:125-146). `Session.Submit` is therefore a render followed by the
  scoring and the reset.
- The radio widget is given an integer pre-selection, so an untouched
  question with options stores the option at that index (the first shown,
  when there is no earlier answer). Such a question can score by luck and
  is never reviewed as "Not Answered". This is recorded under "Findings".
- The timer is `max(0, 6000 - int(elapsed))`, not a stored deadline.
  For a negative elapsed time (a clock set back) it can exceed 6000.
- An uploaded bank is not validated (no check that `correct_answer` is among
  the options). It replaces the stored bank wholesale.
- The review prints `None`, not "Not Answered", for a question whose widget
  had no options. In that case `st.radio` returns `None` and the script stores it.
- The start button draws with `DataFrame.sample`, not `generate_exam`. Both
  draw `min(20, len)` rows without replacement, and both are modelled by
  `Sample`.

## Model

| member | source | states |
|---|---|---|
| `Utils.GradeExam` | utils.py:13-30 | one result per question, in question order. Each result copies id, text, correct answer and explanation. Its user answer is the looked-up answer (`None` when the id is missing) and its flag is true iff that answer equals the correct one. The score equals the number of correctly answered questions and the number of set flags. The score is at most the number of questions. |
| `Utils.CountCorrectAtMostLength` | utils.py:14-21 | the number of correct answers never exceeds the number of questions |
| `Utils.CountCorrectIsCardinality` | utils.py:17-21 | the running count of correct answers equals the number of positions whose question is answered correctly |
| `Utils.GradingIsDeterministic` | utils.py:22-29 | two result lists of the right length that both grade every question are equal, so grading twice gives the same list |
| `Utils.DrawIsSubMultiset` | utils.py:11 | picking distinct positions never yields an element more often than the population holds it |
| `Utils.Sample` | utils.py:11 | `random.sample`: `k` elements at distinct positions of the population, in draw order. They form a sub-multiset of it and each is a member of it. |
| `Utils.FullDrawIsPermutation` | app.py:110 | a draw of as many elements as the population holds is a permutation of it |
| `Utils.GenerateExam` | utils.py:10-11 | `n` defaults to 20. The result is `min(n, len(questions))` questions at distinct positions and a sub-multiset of the bank. A negative `n` is the error case. |
| `App.TruncateTowardZero` | app.py:93 | `int()` truncates toward zero: the result lies within one of the argument, on the side of zero |
| `App.RemainingSeconds` | app.py:92-93 | for non-negative elapsed time the remaining time lies in `0..6000`. It is 0 once 6000 seconds have passed. Before that it is the exact time left rounded up to whole seconds. |
| `App.RemainingNonIncreasing` | app.py:93 | the remaining time never increases as the elapsed time grows |
| `App.MinutesAndSeconds` | app.py:94 | minutes times 60 plus seconds is the remaining time, with seconds below 60 |
| `App.ShuffleOptions` | app.py:110 | the displayed options are a permutation of the question's options (same length, same multiset) |
| `App.IndexOf` | app.py:114 | `list.index` gives the first position holding the value |
| `App.DefaultIndex` | app.py:112-116 | the index is valid for non-empty options. A truthy previous answer that is among the options sits at the index, and the index is its first occurrence. Otherwise the index is 0, which also covers `None` and an empty-string answer. |
| `App.PreselectSurvivesShuffle` | app.py:109-116 | after any reshuffle, a previous answer that is still an option is pre-selected by value |
| `App.Radio` | app.py:118-123 | the widget's value is always one of its options, or `None` when it has none. A click on an option wins. Otherwise the value is the option at the given index, or `None` when no index is given. |
| `App.AskQuestion` | app.py:97-123 | the value stored for a question is one of its own options (`None` only when it has none). A clicked option is stored. Without a click, an earlier truthy answer that is still an option is kept. A question with options always yields a value. |
| `App.AskQuestionIntended` | app.py:112-123 | with no integer pre-selection for a question without an earlier answer, the value is a clicked option, the earlier answer, or nothing |
| `App.RenderAnswers` | app.py:97-123 | after the widgets are drawn, every exam id holds an answer. Each question's entry follows `AskQuestion`'s rules relative to the answers before the render. Entries of other ids are unchanged, and the answers stay well formed. |
| `App.RenderAnswersIntended` | app.py:97-123 | with the corrected widgets, exactly the clicked questions gain or change an entry. Every other entry is unchanged, and an unclicked question without an entry stays without one. |
| `App.ScoreAnswers` | app.py:126-129 | the submit score is the number of exam questions whose stored answer equals the correct answer, and at most the number of questions |
| `App.ShownAnswer` | app.py:137 | the review shows "Not Answered" exactly when the id has no stored answer, or when the stored answer is literally that text |
| `App.Import` | app.py:49-61 | no data exactly when the name ends in none of `.csv`, `.xlsx` and `.json`. Each of these extensions alone decides the parser, whatever the order of the tests: `.csv` reads CSV, `.xlsx` reads Excel, and `.json` builds the table from the document's `"questions"` value or from the document itself. |
| `App.SuffixesExclusive` | app.py:49-54 | no file name ends in two of `.csv`, `.xlsx` and `.json` |
| `App.WrappedAndBareJsonAgree` | app.py:53-58 | a JSON upload `{"questions": [...]}` gives the same rows as the bare list `[...]` |
| `App.Session.constructor` | app.py:28-37 | the session starts idle: not started, no exam questions, no answers, no start time. The bank is whatever the saved file held. |
| `App.Session.Start` | app.py:76-82 | draws `min(20, len(bank))` rows at distinct positions of the bank (the whole bank, permuted, when it has at most 20 rows). Distinct ids in the bank stay distinct in the exam. Sets the started flag and records the start time. Answers and bank are unchanged. |
| `App.Session.Render` | app.py:88-123 | the timer display satisfies the `divmod` law for the remaining time. Afterwards every exam id holds an answer following `AskQuestion`'s rules, no other entry changes, and the exam itself is unchanged. |
| `App.Session.RenderIntended` | app.py:88-123 | the same render with the corrected widgets: only clicked questions gain or change an entry |
| `App.Session.ScoreAndReset` | app.py:125-146 | the score counts the correctly answered exam questions and the total is the exam size. The review follows exam order. The session is reset to idle and the bank is kept. |
| `App.Session.Submit` | app.py:97-146 | the submit press: the answers scored are those the render stored. The score counts the correct ones, and the review follows exam order. A question with options is never reviewed as "Not Answered" unless that text is one of its options. The session ends idle with the bank kept. |
| `App.Session.SubmitIntended` | app.py:97-146 | the submit press with the corrected widgets: a question never answered and not clicked is reviewed as "Not Answered" and is not counted as correct |
| `App.Session.Upload` | app.py:48-66 | a supported file replaces the bank with the parsed rows. An unsupported name stores nothing and leaves the bank unchanged. The exam state is never touched. |
| `App.ThreeQuestionExam` | app.py:76-146 | a bank of three questions with distinct ids, started and submitted with only the first clicked on its correct answer: the score is between 1 and 3 and no question is reviewed as "Not Answered" |
| `App.ThreeQuestionExamIntended` | app.py:76-146 | the same attempt with the corrected widgets: the score is exactly 1. The first question shows its correct answer and the other two show "Not Answered". |

## Findings

| source | as written | input that shows it | evidently intended | confidence | as-written member | corrected member |
|---|---|---|---|---|---|---|
| app.py:112-123 (with 137) | `st.radio(..., index=default_index)` with `default_index = 0` stores the first shown option for every question the user never touched | a three-question exam where only the first question is clicked: the other two store their first shown option, so either may score by luck and neither is reviewed as "Not Answered" | an untouched question stays without an answer, scores as incorrect and is reviewed as "Not Answered". This needs two changes: no pre-selected index for a question without an earlier answer, and no store of the widget's `None` (storing it would make the review print `None`) | not executed; medium | `App.ThreeQuestionExam` | `App.ThreeQuestionExamIntended` |

## Left out

- Streamlit rendering (titles, messages, `st.rerun`, the review's layout and the `mins:secs` text format): UI only. Button presses are method calls.
- `load_saved_questions`, `save_questions` and `load_questions`: file I/O. The saved bank is the constructor's argument, and persisting an upload is not modelled.
- `export_to_csv` and `export_to_pdf`: thin wrappers over pandas and fpdf.
- Parsing an options string with `json.loads` / `ast.literal_eval` (listed options are already parsed): foreign parsers.
- CSV/Excel/JSON parsing and the `DataFrame` constructor are opaque total functions. The model does not capture their exceptions (malformed files, a bare JSON scalar). Nothing is stored then, since the script stops.
- A question missing its `explanation`, `id` or `correct_answer` field is out of scope: every `Question` has all fields. Without the field, `grade_exam` raises `KeyError`. The review prints "No explanation" only when no uploaded row has that field. Otherwise pandas fills the gaps with NaN, which prints as `nan`, and so does an empty CSV cell.
- Floating-point rounding of `time.time()`: elapsed time is an exact real.
- The distribution of the random choices: only which draws are possible is modelled (distinct positions, permutations), not how likely each is.
- The seed of the start button's draw: `DataFrame.sample` gets `random_state=random.randint(0, 9999)`, so one bank yields at most 10,000 distinct exams. `Sample` allows every draw at distinct positions, which is a superset of these seeded outcomes. Every contract proved holds for all of them.
- Streamlit's widget state across reruns is simplified. The user's click is a map from question id to the clicked text. It is honoured when it is among the options, and otherwise the widget falls back to its index. Streamlit's own rules for a keyed widget whose options change are not modelled.
- Two exam questions with the same id make the script fail: two widgets get the key `q_{id}`. `Render` and `Submit` therefore require distinct exam ids, and the model does not capture the failure.
