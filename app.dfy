/**
 * The exam session of the Streamlit script (app.py), lifted out of the UI:
 * the session record and its transitions (start, one render of the exam
 * page, submit), the timer arithmetic, the option shuffle with its
 * pre-selection, and the upload dispatch by file extension.
 */
module App {
  import opened Utils

  /** Length of one exam in seconds (100 minutes). */
  const EXAM_DURATION: nat := 6000

  /** Number of questions the start button draws. */
  const EXAM_SIZE: nat := 20

  /** What the review shows for a question with no stored answer. */
  const NOT_ANSWERED: string := "Not Answered"

  // ---------------------------------------------------------------------
  // Timer
  // ---------------------------------------------------------------------

  /** Python's `int(x)` on a number: truncation toward zero. */
  function TruncateTowardZero(x: real): (r: int)
    ensures 0.0 <= x ==> r as real <= x < r as real + 1.0
    ensures x < 0.0 ==> r as real - 1.0 < x <= r as real
  {
    if x >= 0.0 then x.Floor else -((-x).Floor)
  }

  /**
   * `max(0, EXAM_DURATION - int(elapsed))`: for a non-negative elapsed time
   * this is the time left, rounded up to whole seconds, and never negative.
   */
  function RemainingSeconds(elapsed: real): (r: nat)
    ensures 0.0 <= elapsed ==> r <= EXAM_DURATION
    ensures EXAM_DURATION as real <= elapsed ==> r == 0
    ensures 0.0 <= elapsed < EXAM_DURATION as real ==>
              EXAM_DURATION as real - elapsed <= r as real < EXAM_DURATION as real - elapsed + 1.0
  {
    var left := EXAM_DURATION - TruncateTowardZero(elapsed);
    if left < 0 then 0 else left
  }

  /** The remaining time never goes up as time passes. */
  lemma RemainingNonIncreasing(earlier: real, later: real)
    requires earlier <= later
    ensures RemainingSeconds(later) <= RemainingSeconds(earlier)
  {
  }

  /** `divmod(remaining, 60)`: whole minutes and the seconds left over. */
  function MinutesAndSeconds(remaining: nat): (r: (nat, nat))
    ensures r.0 * 60 + r.1 == remaining
    ensures r.1 < 60
  {
    (remaining / 60, remaining % 60)
  }

  // ---------------------------------------------------------------------
  // Options: shuffle, pre-selection, the answer widget
  // ---------------------------------------------------------------------

  /** `random.sample(options, len(options))`: a fresh random order of the options. */
  method ShuffleOptions(options: seq<string>) returns (shown: seq<string>)
    ensures |shown| == |options|
    ensures multiset(shown) == multiset(options)
  {
    ghost var picks;
    shown, picks := Sample(options, |options|);
    FullDrawIsPermutation(options, picks, shown);
  }

  /** Python truthiness of a stored answer: `None` and `""` are false. */
  predicate Truthy(answer: Option<string>)
  {
    answer.Some? && answer.value != ""
  }

  /** `list.index`: the first position of `x`. */
  function IndexOf(s: seq<string>, x: string): (i: nat)
    requires x in s
    ensures i < |s| && s[i] == x
    ensures forall j :: 0 <= j < i ==> s[j] != x
  {
    if s[0] == x then 0 else 1 + IndexOf(s[1..], x)
  }

  /**
   * The radio button's starting index: the first position of the previous
   * answer when it is truthy and among the options, and 0 otherwise.
   */
  function DefaultIndex(options: seq<string>, prev: Option<string>): (i: nat)
    ensures options != [] ==> i < |options|
    ensures Truthy(prev) && prev.value in options ==>
              options[i] == prev.value && forall j :: 0 <= j < i ==> options[j] != prev.value
    ensures !(Truthy(prev) && prev.value in options) ==> i == 0
  {
    if Truthy(prev) && prev.value in options then IndexOf(options, prev.value) else 0
  }

  /**
   * A previous answer that is still an option is pre-selected after any
   * reshuffle: the index is found by value, not by position.
   */
  lemma PreselectSurvivesShuffle(options: seq<string>, shown: seq<string>, prev: Option<string>)
    requires multiset(shown) == multiset(options)
    requires Truthy(prev) && prev.value in options
    ensures DefaultIndex(shown, prev) < |shown|
    ensures shown[DefaultIndex(shown, prev)] == prev.value
  {
    assert prev.value in multiset(options);
  }

  /**
   * The value of `st.radio(options, index=...)`: the user's current
   * selection when it is one of the options, otherwise the option at the
   * given index; `None` when there are no options, or no index and no
   * selection.
   */
  function Radio(options: seq<string>, index: Option<nat>, selection: Option<string>): (r: Option<string>)
    requires index.Some? && options != [] ==> index.value < |options|
    ensures r.Some? ==> r.value in options
    ensures options == [] ==> r == None
    ensures selection.Some? && selection.value in options ==> r == selection
    ensures options != [] && !(selection.Some? && selection.value in options) ==>
              r == if index.Some? then Some(options[index.value]) else None
  {
    if options == [] then None
    else if selection.Some? && selection.value in options then selection
    else if index.Some? then Some(options[index.value])
    else None
  }

  /** The stored answer is one the question offers (`None` only with no options). */
  predicate Fits(answer: Option<string>, q: Question)
  {
    match answer
    case Some(v) => v in q.options
    case None => q.options == []
  }

  /** The user has clicked one of the question's options. */
  predicate Selected(q: Question, selections: map<string, string>)
  {
    q.id in selections && selections[q.id] in q.options
  }

  /** What the user has clicked for a question, if anything. */
  function SelectionFor(q: Question, selections: map<string, string>): Option<string>
  {
    if q.id in selections then Some(selections[q.id]) else None
  }

  /**
   * One question of the exam page as the script runs it: the options are
   * shuffled, the previous answer is pre-selected, and the widget's value
   * comes back. Because the widget is given an integer index, a question
   * with options always yields a value, clicked or not.
   */
  method AskQuestion(q: Question, answers: Answers, selections: map<string, string>)
    returns (picked: Option<string>)
    ensures Fits(picked, q)
    ensures Selected(q, selections) ==> picked == Some(selections[q.id])
    ensures !Selected(q, selections) && Truthy(Lookup(answers, q.id)) && Lookup(answers, q.id).value in q.options ==>
              picked == Lookup(answers, q.id)
    ensures q.options != [] ==> picked.Some?
  {
    var shown := ShuffleOptions(q.options);
    var prev := Lookup(answers, q.id);
    var defaultIndex := DefaultIndex(shown, prev);
    picked := Radio(shown, Some(defaultIndex), SelectionFor(q, selections));
    if picked.Some? {
      assert picked.value in multiset(shown);
    }
    if q.id in selections {
      assert selections[q.id] in q.options <==> selections[q.id] in multiset(shown);
    }
    if Truthy(prev) && prev.value in q.options {
      PreselectSurvivesShuffle(q.options, shown, prev);
    }
    if q.options != [] {
      assert shown != [] by { assert q.options[0] in multiset(shown); }
    }
  }

  /**
   * The same question with the widget left without a pre-selection when
   * there is no previous answer among the options, so that an untouched
   * question yields nothing. The correction has a second half, in
   * `RenderAnswersIntended`: nothing is stored for such a question, since
   * storing the widget's `None` would make the review print `None`
   * instead of "Not Answered".
   */
  method AskQuestionIntended(q: Question, answers: Answers, selections: map<string, string>)
    returns (picked: Option<string>)
    ensures picked.Some? ==> picked.value in q.options
    ensures Selected(q, selections) ==> picked == Some(selections[q.id])
    ensures !Selected(q, selections) ==> picked == None || picked == Lookup(answers, q.id)
  {
    var shown := ShuffleOptions(q.options);
    var prev := Lookup(answers, q.id);
    var index := if Truthy(prev) && prev.value in shown then Some(IndexOf(shown, prev.value)) else None;
    picked := Radio(shown, index, SelectionFor(q, selections));
    if picked.Some? {
      assert picked.value in multiset(shown);
    }
    if q.id in selections {
      assert selections[q.id] in q.options <==> selections[q.id] in multiset(shown);
    }
  }

  // ---------------------------------------------------------------------
  // Submit: score and review
  // ---------------------------------------------------------------------

  /** The submit loop's score: the count of questions whose answer is correct. */
  method ScoreAnswers(questions: seq<Question>, answers: Answers) returns (score: nat)
    ensures score == CountCorrect(questions, answers)
    ensures score == |CorrectPositions(questions, answers)|
    ensures score <= |questions|
  {
    score := 0;
    for k := 0 to |questions|
      invariant score == CountCorrect(questions[..k], answers)
    {
      var q := questions[k];
      if Lookup(answers, q.id) == Some(q.correctAnswer) {
        score := score + 1;
      }
      assert questions[..k + 1][..k] == questions[..k];
    }
    assert questions[..|questions|] == questions;
    CountCorrectIsCardinality(questions, answers);
    CountCorrectAtMostLength(questions, answers);
  }

  /** One block of the review shown after submitting. */
  datatype ReviewLine = ReviewLine(
    id: string,
    questionText: string,
    yourAnswer: string,
    correctAnswer: string,
    explanation: string)

  /**
   * `user_answers.get(id, "Not Answered")` as text: a missing answer shows
   * as "Not Answered", a stored option as itself, a stored `None` as `None`.
   */
  function ShownAnswer(answers: Answers, id: string): (r: string)
    ensures r == NOT_ANSWERED <==> id !in answers || answers[id] == Some(NOT_ANSWERED)
    ensures id !in answers ==> r == NOT_ANSWERED
    ensures id in answers && answers[id].Some? ==> r == answers[id].value
    ensures id in answers && answers[id].None? ==> r == "None"
  {
    if id !in answers then NOT_ANSWERED
    else match answers[id]
      case Some(v) => v
      case None => "None"
  }

  /** The review block of a question: its id, text, the shown answer, the correct answer and the explanation. */
  function ReviewOf(q: Question, answers: Answers): ReviewLine
  {
    ReviewLine(q.id, q.questionText, ShownAnswer(answers, q.id), q.correctAnswer, q.explanation)
  }

  // ---------------------------------------------------------------------
  // Upload
  // ---------------------------------------------------------------------

  /** `str.endswith`. */
  predicate EndsWith(s: string, suffix: string)
  {
    |suffix| <= |s| && s[|s| - |suffix|..] == suffix
  }

  /** A parsed JSON document. */
  datatype Json =
    | JNull
    | JBool(b: bool)
    | JNumber(n: int)
    | JString(s: string)
    | JArray(items: seq<Json>)
    | JObject(fields: map<string, Json>)

  /** The bytes of an uploaded file. */
  type Bytes = seq<bv8>

  /**
   * The parsers the upload calls into: `pd.read_csv`, `pd.read_excel`,
   * `json.load` and the `pd.DataFrame` constructor.
   */
  datatype Parsers = Parsers(
    readCsv: Bytes -> seq<Question>,
    readExcel: Bytes -> seq<Question>,
    loadJson: Bytes -> Json,
    frame: Json -> seq<Question>)

  /** The JSON value the table is built from: the `"questions"` value of an object, or the value itself. */
  function TablePayload(data: Json): Json
  {
    if data.JObject? && "questions" in data.fields then data.fields["questions"] else data
  }

  /** A name that ends in `suffix` ends in the suffix's last character. */
  lemma EndsWithLast(name: string, suffix: string)
    requires suffix != [] && EndsWith(name, suffix)
    ensures name[|name| - 1] == suffix[|suffix| - 1]
  {
    assert name[|name| - |suffix|..][|suffix| - 1] == name[|name| - 1];
  }

  /** No name ends in two of `.csv`, `.xlsx` and `.json`, so the order of the tests does not matter. */
  lemma SuffixesExclusive(name: string)
    ensures !(EndsWith(name, ".csv") && EndsWith(name, ".xlsx"))
    ensures !(EndsWith(name, ".csv") && EndsWith(name, ".json"))
    ensures !(EndsWith(name, ".xlsx") && EndsWith(name, ".json"))
  {
    if EndsWith(name, ".csv") { EndsWithLast(name, ".csv"); }
    if EndsWith(name, ".xlsx") { EndsWithLast(name, ".xlsx"); }
    if EndsWith(name, ".json") { EndsWithLast(name, ".json"); }
  }

  /**
   * The upload dispatch: the first matching extension among `.csv`, `.xlsx`
   * and `.json` picks the parser; any other name yields no data. Since no
   * name has two of these extensions, each one alone decides the parser.
   */
  function Import(name: string, content: Bytes, p: Parsers): (r: Option<seq<Question>>)
    ensures r.None? <==> !EndsWith(name, ".csv") && !EndsWith(name, ".xlsx") && !EndsWith(name, ".json")
    ensures EndsWith(name, ".csv") ==> r == Some(p.readCsv(content))
    ensures EndsWith(name, ".xlsx") ==> r == Some(p.readExcel(content))
    ensures EndsWith(name, ".json") ==> r == Some(p.frame(TablePayload(p.loadJson(content))))
  {
    SuffixesExclusive(name);
    if EndsWith(name, ".csv") then Some(p.readCsv(content))
    else if EndsWith(name, ".xlsx") then Some(p.readExcel(content))
    else if EndsWith(name, ".json") then Some(p.frame(TablePayload(p.loadJson(content))))
    else None
  }

  /**
   * A JSON upload shaped `{"questions": [...]}` gives the same rows as the
   * bare list `[...]`.
   */
  lemma WrappedAndBareJsonAgree(name: string, wrapped: Bytes, bare: Bytes, p: Parsers, items: seq<Json>)
    requires EndsWith(name, ".json")
    requires p.loadJson(bare) == JArray(items)
    requires p.loadJson(wrapped).JObject? && "questions" in p.loadJson(wrapped).fields
    requires p.loadJson(wrapped).fields["questions"] == JArray(items)
    ensures Import(name, wrapped, p) == Import(name, bare, p)
    ensures Import(name, bare, p) == Some(p.frame(JArray(items)))
  {
    assert !EndsWith(name, ".csv") by {
      assert name[|name| - 5..][1] == 'j';
      assert name[|name| - 4..] == name[|name| - 5..][1..];
    }
    assert !EndsWith(name, ".xlsx") by {
      assert name[|name| - 5..][1] == 'j';
    }
  }

  // ---------------------------------------------------------------------
  // The session
  // ---------------------------------------------------------------------

  /** The ids of a sequence of questions. */
  function IdsOf(qs: seq<Question>): set<string>
  {
    set i | 0 <= i < |qs| :: qs[i].id
  }

  /** Some question of `qs` has this id and offers this answer. */
  ghost predicate AnswerFor(qs: seq<Question>, id: string, answer: Option<string>)
  {
    exists j :: 0 <= j < |qs| && qs[j].id == id && Fits(answer, qs[j])
  }

  /** Every stored answer belongs to an exam question and is one of its options. */
  ghost predicate AnswersWellFormed(qs: seq<Question>, answers: Answers)
  {
    forall id :: id in answers ==> AnswerFor(qs, id, answers[id])
  }

  /** Storing one of a question's own options under its id keeps the answers well formed. */
  lemma StoringAnOptionKeepsWellFormed(qs: seq<Question>, answers: Answers, k: nat, picked: Option<string>)
    requires AnswersWellFormed(qs, answers) && k < |qs| && Fits(picked, qs[k])
    ensures AnswersWellFormed(qs, answers[qs[k].id := picked])
  {
    assert AnswerFor(qs, qs[k].id, picked);
  }

  /** No two questions share an id. */
  ghost predicate DistinctIds(qs: seq<Question>)
  {
    forall i, j :: 0 <= i < j < |qs| ==> qs[i].id != qs[j].id
  }

  /** With distinct ids, a later question's id is not among the earlier ones. */
  lemma NotYetRendered(qs: seq<Question>, k: nat)
    requires DistinctIds(qs) && k < |qs|
    ensures qs[k].id !in IdsOf(qs[..k])
  {
    forall i | 0 <= i < k
      ensures qs[..k][i].id != qs[k].id
    {
      assert qs[..k][i] == qs[i];
    }
  }

  /** The ids of the questions whose option the user has clicked. */
  function SelectedIds(qs: seq<Question>, selections: map<string, string>): set<string>
  {
    set i | 0 <= i < |qs| && Selected(qs[i], selections) :: qs[i].id
  }

  lemma IdsOfSnoc(qs: seq<Question>, q: Question)
    ensures IdsOf(qs + [q]) == IdsOf(qs) + {q.id}
  {
    var qs' := qs + [q];
    assert qs'[|qs|] == q;
    forall id | id in IdsOf(qs')
      ensures id in IdsOf(qs) + {q.id}
    {
      var i :| 0 <= i < |qs'| && qs'[i].id == id;
      if i < |qs| {
        assert qs'[i] == qs[i];
      }
    }
    forall id | id in IdsOf(qs)
      ensures id in IdsOf(qs')
    {
      var i :| 0 <= i < |qs| && qs[i].id == id;
      assert qs'[i] == qs[i];
    }
  }

  /**
   * After the script's render, `q` holds the widget's value: the clicked
   * option if there is one, else the previous answer if it is still an
   * option, and always some option when the question has any.
   */
  ghost predicate RenderedAsWritten(q: Question, before: Answers, selections: map<string, string>, after: Answers)
  {
    && q.id in after
    && Fits(after[q.id], q)
    && (Selected(q, selections) ==> after[q.id] == Some(selections[q.id]))
    && (!Selected(q, selections) && Truthy(Lookup(before, q.id)) && Lookup(before, q.id).value in q.options ==>
          after[q.id] == Lookup(before, q.id))
    && (q.options != [] ==> after[q.id].Some?)
  }

  /**
   * After the corrected render, `q` holds the clicked option if there is
   * one; otherwise its entry is exactly what it was, or still absent.
   */
  ghost predicate RenderedIntended(q: Question, before: Answers, selections: map<string, string>, after: Answers)
  {
    && (Selected(q, selections) ==> q.id in after && after[q.id] == Some(selections[q.id]))
    && (!Selected(q, selections) ==> (q.id in after <==> q.id in before))
    && (!Selected(q, selections) && q.id in before ==> after[q.id] == before[q.id])
  }

  /**
   * The first `k` questions have been rendered as the script does it, and
   * every other entry is as it was.
   */
  ghost predicate RenderedPrefix(qs: seq<Question>, k: nat, before: Answers, selections: map<string, string>, after: Answers)
  {
    && k <= |qs|
    && after.Keys == before.Keys + IdsOf(qs[..k])
    && (forall id :: id in before && id !in IdsOf(qs[..k]) ==> after[id] == before[id])
    && (forall i :: 0 <= i < k ==> RenderedAsWritten(qs[i], before, selections, after))
  }

  /**
   * The first `k` questions have been rendered with the corrected widgets,
   * and every other entry is as it was (present or absent).
   */
  ghost predicate RenderedPrefixIntended(qs: seq<Question>, k: nat, before: Answers, selections: map<string, string>, after: Answers)
  {
    && k <= |qs|
    && (forall id :: id !in IdsOf(qs[..k]) ==> (id in after <==> id in before))
    && (forall id :: id in before && id !in IdsOf(qs[..k]) ==> after[id] == before[id])
    && (forall i :: 0 <= i < k ==> RenderedIntended(qs[i], before, selections, after))
  }

  /** A completed corrected render adds exactly the clicked questions' entries. */
  lemma RenderedIntendedKeys(qs: seq<Question>, before: Answers, selections: map<string, string>, after: Answers)
    requires RenderedPrefixIntended(qs, |qs|, before, selections, after)
    ensures after.Keys == before.Keys + SelectedIds(qs, selections)
    ensures forall id :: id in before && id !in SelectedIds(qs, selections) ==> after[id] == before[id]
  {
    assert qs[..|qs|] == qs;
    forall id | id in IdsOf(qs)
      ensures id in after <==> id in before || id in SelectedIds(qs, selections)
      ensures id in before && id !in SelectedIds(qs, selections) ==> after[id] == before[id]
    {
      var i :| 0 <= i < |qs| && qs[i].id == id;
      assert RenderedIntended(qs[i], before, selections, after);
      if id in SelectedIds(qs, selections) {
        var j :| 0 <= j < |qs| && Selected(qs[j], selections) && qs[j].id == id;
        assert RenderedIntended(qs[j], before, selections, after);
      }
    }
    forall id | id !in IdsOf(qs)
      ensures id !in SelectedIds(qs, selections)
    {
    }
  }

  /** The next question to render still sees its entry from before the render. */
  lemma NextStillUnrendered(qs: seq<Question>, k: nat, before: Answers, selections: map<string, string>, after: Answers)
    requires DistinctIds(qs) && k < |qs|
    requires RenderedPrefix(qs, k, before, selections, after)
    ensures Lookup(after, qs[k].id) == Lookup(before, qs[k].id)
  {
    NotYetRendered(qs, k);
  }

  lemma RenderStep(qs: seq<Question>, k: nat, before: Answers, selections: map<string, string>, after: Answers, picked: Option<string>)
    requires DistinctIds(qs) && k < |qs|
    requires RenderedPrefix(qs, k, before, selections, after)
    requires RenderedAsWritten(qs[k], before, selections, after[qs[k].id := picked])
    ensures RenderedPrefix(qs, k + 1, before, selections, after[qs[k].id := picked])
  {
    var q := qs[k];
    var after' := after[q.id := picked];
    NotYetRendered(qs, k);
    assert qs[..k + 1] == qs[..k] + [q];
    IdsOfSnoc(qs[..k], q);
    forall i | 0 <= i < k
      ensures RenderedAsWritten(qs[i], before, selections, after')
    {
      assert qs[i].id != q.id;
    }
  }

  lemma RenderStepIntended(qs: seq<Question>, k: nat, before: Answers, selections: map<string, string>, after: Answers, after': Answers)
    requires DistinctIds(qs) && k < |qs|
    requires RenderedPrefixIntended(qs, k, before, selections, after)
    requires Selected(qs[k], selections) ==> after' == after[qs[k].id := Some(selections[qs[k].id])]
    requires !Selected(qs[k], selections) ==> after' == after
    ensures RenderedPrefixIntended(qs, k + 1, before, selections, after')
  {
    var q := qs[k];
    NotYetRendered(qs, k);
    assert qs[..k + 1] == qs[..k] + [q];
    IdsOfSnoc(qs[..k], q);
    forall i | 0 <= i < k
      ensures RenderedIntended(qs[i], before, selections, after')
    {
      assert qs[i].id != q.id;
    }
  }

  /**
   * The answer widgets of one render, in exam order: for each question the
   * shuffled options, the pre-selection and the widget's value, stored
   * under the question's id. `selections` holds what the user clicked.
   */
  method RenderAnswers(qs: seq<Question>, before: Answers, selections: map<string, string>)
    returns (after: Answers)
    requires AnswersWellFormed(qs, before) && DistinctIds(qs)
    ensures AnswersWellFormed(qs, after)
    ensures after.Keys == before.Keys + IdsOf(qs)
    ensures forall i :: 0 <= i < |qs| ==> RenderedAsWritten(qs[i], before, selections, after)
    ensures forall id :: id in before && id !in IdsOf(qs) ==> after[id] == before[id]
  {
    after := before;
    assert qs[..0] == [];
    for k := 0 to |qs|
      invariant RenderedPrefix(qs, k, before, selections, after)
      invariant AnswersWellFormed(qs, after)
    {
      var q := qs[k];
      NextStillUnrendered(qs, k, before, selections, after);
      var picked := AskQuestion(q, after, selections);
      StoringAnOptionKeepsWellFormed(qs, after, k, picked);
      RenderStep(qs, k, before, selections, after, picked);
      after := after[q.id := picked];
    }
    assert qs[..|qs|] == qs;
  }

  /**
   * The corrected answer widgets: a question the user has not clicked
   * keeps its entry, or stays without one.
   */
  method RenderAnswersIntended(qs: seq<Question>, before: Answers, selections: map<string, string>)
    returns (after: Answers)
    requires AnswersWellFormed(qs, before) && DistinctIds(qs)
    ensures AnswersWellFormed(qs, after)
    ensures after.Keys == before.Keys + SelectedIds(qs, selections)
    ensures forall i :: 0 <= i < |qs| ==> RenderedIntended(qs[i], before, selections, after)
    ensures forall id :: id in before && id !in SelectedIds(qs, selections) ==> after[id] == before[id]
  {
    after := before;
    assert qs[..0] == [];
    for k := 0 to |qs|
      invariant RenderedPrefixIntended(qs, k, before, selections, after)
      invariant AnswersWellFormed(qs, after)
    {
      var q := qs[k];
      var picked := AskQuestionIntended(q, after, selections);
      var after' := after;
      if picked.Some? {
        StoringAnOptionKeepsWellFormed(qs, after, k, picked);
        after' := after[q.id := picked];
        if !Selected(q, selections) {
          assert after' == after;
        }
      }
      RenderStepIntended(qs, k, before, selections, after, after');
      after := after';
    }
    RenderedIntendedKeys(qs, before, selections, after);
  }

  /**
   * The session record `{questions, exam_started, exam_questions,
   * user_answers, start_time}` held in Streamlit's session state.
   */
  class Session {
    var questions: Option<seq<Question>>
    var examStarted: bool
    var examQuestions: seq<Question>
    var userAnswers: Answers
    var startTime: Option<real>

    /** No exam is running: the state the script starts in and submit returns to. */
    predicate Idle()
      reads this
    {
      !examStarted && examQuestions == [] && userAnswers == map[] && startTime == None
    }

    ghost predicate Valid()
      reads this
    {
      && (examStarted ==> startTime.Some?)
      && (!examStarted ==> Idle())
      && AnswersWellFormed(examQuestions, userAnswers)
    }

    /** The session initialisation, given what the saved question file held. */
    constructor (saved: Option<seq<Question>>)
      ensures Valid() && Idle()
      ensures questions == saved
    {
      questions := saved;
      examStarted := false;
      examQuestions := [];
      userAnswers := map[];
      startTime := None;
    }

    /**
     * The start button, shown when questions are loaded and no exam runs:
     * draws `min(20, len(store))` distinct rows and starts the clock.
     */
    method Start(now: real)
      requires Valid() && questions.Some? && !examStarted
      modifies this
      ensures Valid()
      ensures examStarted && startTime == Some(now)
      ensures |examQuestions| == Min(EXAM_SIZE, |old(questions).value|)
      ensures exists picks :: IsDraw(old(questions).value, picks, examQuestions)
      ensures multiset(examQuestions) <= multiset(old(questions).value)
      ensures |old(questions).value| <= EXAM_SIZE ==> multiset(examQuestions) == multiset(old(questions).value)
      ensures DistinctIds(old(questions).value) ==> DistinctIds(examQuestions)
      ensures userAnswers == old(userAnswers) == map[]
      ensures questions == old(questions)
    {
      var store := questions.value;
      var drawn, picks := Sample(store, Min(EXAM_SIZE, |store|));
      if |store| <= EXAM_SIZE {
        FullDrawIsPermutation(store, picks, drawn);
      }
      examQuestions := drawn;
      examStarted := true;
      startTime := Some(now);
    }

    /**
     * One render of the running exam as the script does it: the timer
     * display, then the answer widgets (see `RenderAnswers`). Two exam
     * questions with the same id make the script fail (two widgets with one
     * key), so the ids are distinct here.
     */
    method Render(now: real, selections: map<string, string>) returns (mins: nat, secs: nat)
      requires Valid() && examStarted && DistinctIds(examQuestions)
      modifies this
      ensures Valid()
      ensures mins * 60 + secs == RemainingSeconds(now - old(startTime).value) && secs < 60
      ensures examStarted && examQuestions == old(examQuestions)
      ensures startTime == old(startTime) && questions == old(questions)
      ensures userAnswers.Keys == old(userAnswers).Keys + IdsOf(examQuestions)
      ensures forall i :: 0 <= i < |examQuestions| ==>
                RenderedAsWritten(examQuestions[i], old(userAnswers), selections, userAnswers)
      ensures forall id :: id in old(userAnswers) && id !in IdsOf(examQuestions) ==>
                userAnswers[id] == old(userAnswers)[id]
    {
      var elapsed := now - startTime.value;
      var remaining := RemainingSeconds(elapsed);
      var clock := MinutesAndSeconds(remaining);
      mins, secs := clock.0, clock.1;
      userAnswers := RenderAnswers(examQuestions, userAnswers, selections);
    }

    /**
     * The same render with the corrected answer widgets (see
     * `RenderAnswersIntended`): only what the user clicked is stored.
     */
    method RenderIntended(now: real, selections: map<string, string>) returns (mins: nat, secs: nat)
      requires Valid() && examStarted && DistinctIds(examQuestions)
      modifies this
      ensures Valid()
      ensures mins * 60 + secs == RemainingSeconds(now - old(startTime).value) && secs < 60
      ensures examStarted && examQuestions == old(examQuestions)
      ensures startTime == old(startTime) && questions == old(questions)
      ensures userAnswers.Keys == old(userAnswers).Keys + SelectedIds(examQuestions, selections)
      ensures forall i :: 0 <= i < |examQuestions| ==>
                RenderedIntended(examQuestions[i], old(userAnswers), selections, userAnswers)
      ensures forall id :: id in old(userAnswers) && id !in SelectedIds(examQuestions, selections) ==>
                userAnswers[id] == old(userAnswers)[id]
    {
      var elapsed := now - startTime.value;
      var remaining := RemainingSeconds(elapsed);
      var clock := MinutesAndSeconds(remaining);
      mins, secs := clock.0, clock.1;
      userAnswers := RenderAnswersIntended(examQuestions, userAnswers, selections);
    }

    /**
     * The end of the submit press: the score, the review in exam order,
     * and the reset of the session for the next attempt.
     */
    method ScoreAndReset() returns (score: nat, total: nat, review: seq<ReviewLine>)
      requires Valid() && examStarted
      modifies this
      ensures Valid() && Idle()
      ensures questions == old(questions)
      ensures total == |old(examQuestions)|
      ensures score == CountCorrect(old(examQuestions), old(userAnswers))
      ensures score == |CorrectPositions(old(examQuestions), old(userAnswers))|
      ensures score <= total
      ensures |review| == total
      ensures forall i :: 0 <= i < total ==> review[i] == ReviewOf(old(examQuestions)[i], old(userAnswers))
    {
      var qs, answers := examQuestions, userAnswers;
      score := ScoreAnswers(qs, answers);
      total := |qs|;
      review := seq(|qs|, i requires 0 <= i < |qs| => ReviewOf(qs[i], answers));

      examStarted := false;
      examQuestions := [];
      userAnswers := map[];
      startTime := None;
    }

    /**
     * The submit press as the script runs it: the page is rendered first
     * (storing every widget's value), then scored, reviewed and reset.
     * `scored` is the answers the score is computed from. A question with
     * options is never reviewed as "Not Answered", unless that is literally
     * one of its options.
     */
    method Submit(now: real, selections: map<string, string>)
      returns (score: nat, total: nat, review: seq<ReviewLine>, ghost scored: Answers)
      requires Valid() && examStarted && DistinctIds(examQuestions)
      modifies this
      ensures Valid() && Idle()
      ensures questions == old(questions)
      ensures scored.Keys == old(userAnswers).Keys + IdsOf(old(examQuestions))
      ensures forall i :: 0 <= i < |old(examQuestions)| ==>
                RenderedAsWritten(old(examQuestions)[i], old(userAnswers), selections, scored)
      ensures total == |old(examQuestions)| && |review| == total
      ensures score == CountCorrect(old(examQuestions), scored)
      ensures score == |CorrectPositions(old(examQuestions), scored)|
      ensures score <= total
      ensures forall i :: 0 <= i < total ==> review[i] == ReviewOf(old(examQuestions)[i], scored)
      ensures forall i :: 0 <= i < total ==>
                (old(examQuestions)[i].options != [] && NOT_ANSWERED !in old(examQuestions)[i].options ==>
                   review[i].yourAnswer != NOT_ANSWERED)
    {
      var _, _ := Render(now, selections);
      scored := userAnswers;
      score, total, review := ScoreAndReset();
    }

    /**
     * The submit press with the corrected render: a question the user never
     * answered is scored as incorrect and reviewed as "Not Answered".
     */
    method SubmitIntended(now: real, selections: map<string, string>)
      returns (score: nat, total: nat, review: seq<ReviewLine>, ghost scored: Answers)
      requires Valid() && examStarted && DistinctIds(examQuestions)
      modifies this
      ensures Valid() && Idle()
      ensures questions == old(questions)
      ensures scored.Keys == old(userAnswers).Keys + SelectedIds(old(examQuestions), selections)
      ensures forall i :: 0 <= i < |old(examQuestions)| ==>
                RenderedIntended(old(examQuestions)[i], old(userAnswers), selections, scored)
      ensures total == |old(examQuestions)| && |review| == total
      ensures score == CountCorrect(old(examQuestions), scored)
      ensures score == |CorrectPositions(old(examQuestions), scored)|
      ensures score <= total
      ensures forall i :: 0 <= i < total ==> review[i] == ReviewOf(old(examQuestions)[i], scored)
      ensures forall i :: 0 <= i < total ==>
                (old(examQuestions)[i].id !in old(userAnswers) && !Selected(old(examQuestions)[i], selections) ==>
                   review[i].yourAnswer == NOT_ANSWERED && !AnsweredCorrectly(old(examQuestions)[i], scored))
    {
      var _, _ := RenderIntended(now, selections);
      scored := userAnswers;
      score, total, review := ScoreAndReset();
    }

    /**
     * Handling of an uploaded file: a supported file replaces the stored
     * questions wholesale; an unsupported one leaves them as they were.
     * The running exam, if any, is not touched.
     */
    method Upload(name: string, content: Bytes, p: Parsers) returns (stored: bool)
      requires Valid()
      modifies this
      ensures Valid()
      ensures stored <==> Import(name, content, p).Some?
      ensures stored ==> questions == Import(name, content, p)
      ensures !stored ==> questions == old(questions)
      ensures examStarted == old(examStarted) && examQuestions == old(examQuestions)
      ensures userAnswers == old(userAnswers) && startTime == old(startTime)
    {
      var df := Import(name, content, p);
      stored := df.Some?;
      if stored {
        questions := df;
      }
    }
  }

  // ---------------------------------------------------------------------
  // One attempt, end to end
  // ---------------------------------------------------------------------

  /** Exactly one position is answered correctly: the score is 1. */
  lemma OnlyCorrectPosition(qs: seq<Question>, answers: Answers, i0: nat)
    requires i0 < |qs| && AnsweredCorrectly(qs[i0], answers)
    requires forall j :: 0 <= j < |qs| && j != i0 ==> !AnsweredCorrectly(qs[j], answers)
    ensures CorrectPositions(qs, answers) == {i0}
  {
  }

  /** A question whose clicked option is its correct answer is scored as correct. */
  lemma ClickedCorrectCounts(qs: seq<Question>, i0: nat, before: Answers, selections: map<string, string>, after: Answers)
    requires i0 < |qs| && RenderedAsWritten(qs[i0], before, selections, after)
    requires Selected(qs[i0], selections) && selections[qs[i0].id] == qs[i0].correctAnswer
    ensures i0 in CorrectPositions(qs, after) && |CorrectPositions(qs, after)| >= 1
  {
    assert {i0} <= CorrectPositions(qs, after);
  }

  /** With the corrected widgets, a question without an entry and without a click is not correct. */
  lemma UntouchedNotCorrect(q: Question, selections: map<string, string>, after: Answers)
    requires RenderedIntended(q, map[], selections, after) && !Selected(q, selections)
    ensures !AnsweredCorrectly(q, after)
  {
  }

  /**
   * With the corrected widgets and a single click, on the correct answer of
   * the question at `i0`, that question is the only one scored as correct.
   */
  lemma OnlyClickedIsCorrect(exam: seq<Question>, i0: nat, selections: map<string, string>, scored: Answers)
    requires DistinctIds(exam) && i0 < |exam|
    requires selections == map[exam[i0].id := exam[i0].correctAnswer] && Selected(exam[i0], selections)
    requires forall i :: 0 <= i < |exam| ==> RenderedIntended(exam[i], map[], selections, scored)
    ensures CorrectPositions(exam, scored) == {i0}
  {
    forall j | 0 <= j < |exam| && j != i0
      ensures !AnsweredCorrectly(exam[j], scored)
    {
      assert exam[j].id != exam[i0].id;
      assert !Selected(exam[j], selections);
      UntouchedNotCorrect(exam[j], selections, scored);
    }
    OnlyCorrectPosition(exam, scored, i0);
  }

  /**
   * With the corrected widgets and a single click, every other question of
   * the review shows "Not Answered" and the clicked one shows its answer.
   */
  lemma OnlyClickedIsReviewed(exam: seq<Question>, i0: nat, selections: map<string, string>, scored: Answers,
                              review: seq<ReviewLine>)
    requires DistinctIds(exam) && i0 < |exam|
    requires selections == map[exam[i0].id := exam[i0].correctAnswer] && Selected(exam[i0], selections)
    requires forall i :: 0 <= i < |exam| ==> RenderedIntended(exam[i], map[], selections, scored)
    requires |review| == |exam| && forall i :: 0 <= i < |exam| ==> review[i] == ReviewOf(exam[i], scored)
    ensures forall i :: 0 <= i < |exam| && review[i].id != exam[i0].id ==> review[i].yourAnswer == NOT_ANSWERED
    ensures review[i0].id == exam[i0].id && review[i0].yourAnswer == exam[i0].correctAnswer
  {
    forall i | 0 <= i < |exam| && review[i].id != exam[i0].id
      ensures review[i].yourAnswer == NOT_ANSWERED
    {
      assert !Selected(exam[i], selections);
    }
  }

  /** An exam drawn from a bank of three is those three in some order; `i0` is where the first one went. */
  lemma ExamOfThree(q1: Question, q2: Question, q3: Question, exam: seq<Question>) returns (i0: nat)
    requires multiset(exam) == multiset([q1, q2, q3])
    ensures |exam| == 3 && i0 < 3 && exam[i0] == q1
    ensures forall i :: 0 <= i < 3 ==> exam[i] == q1 || exam[i] == q2 || exam[i] == q3
  {
    assert |exam| == |multiset(exam)| == 3;
    assert q1 in multiset(exam);
    i0 :| 0 <= i0 < |exam| && exam[i0] == q1;
    forall i | 0 <= i < 3
      ensures exam[i] == q1 || exam[i] == q2 || exam[i] == q3
    {
      assert exam[i] in multiset([q1, q2, q3]);
    }
  }

  /**
   * As the script scores it, a question clicked on its correct answer counts,
   * and no question with options is reviewed as "Not Answered".
   */
  lemma AsWrittenOutcome(q1: Question, q2: Question, q3: Question, exam: seq<Question>, i0: nat,
                         selections: map<string, string>, scored: Answers, score: nat, review: seq<ReviewLine>)
    requires |exam| == 3 && i0 < 3 && exam[i0] == q1
    requires forall i :: 0 <= i < 3 ==> exam[i] == q1 || exam[i] == q2 || exam[i] == q3
    requires q1.correctAnswer in q1.options && q2.options != [] && q3.options != []
    requires NOT_ANSWERED !in q1.options && NOT_ANSWERED !in q2.options && NOT_ANSWERED !in q3.options
    requires selections == map[q1.id := q1.correctAnswer]
    requires forall i :: 0 <= i < |exam| ==> RenderedAsWritten(exam[i], map[], selections, scored)
    requires score == |CorrectPositions(exam, scored)| && score <= |exam| && |review| == |exam|
    requires forall i :: 0 <= i < |exam| ==>
               (exam[i].options != [] && NOT_ANSWERED !in exam[i].options ==> review[i].yourAnswer != NOT_ANSWERED)
    ensures 1 <= score <= 3
    ensures forall i :: 0 <= i < 3 ==> review[i].yourAnswer != NOT_ANSWERED
  {
    assert Selected(exam[i0], selections);
    ClickedCorrectCounts(exam, i0, map[], selections, scored);
    forall i | 0 <= i < 3
      ensures review[i].yourAnswer != NOT_ANSWERED
    {
      assert exam[i].options != [] && NOT_ANSWERED !in exam[i].options;
    }
  }

  /**
   * A bank of three questions with distinct ids; the exam is started and
   * submitted with only the first question clicked, on its correct answer.
   * As the script runs, the two untouched questions carry the option their
   * widget pre-selected, so none is reviewed as "Not Answered" and the
   * score is anywhere from 1 to 3.
   */
  method ThreeQuestionExam(q1: Question, q2: Question, q3: Question, now: real)
    returns (score: nat, review: seq<ReviewLine>)
    requires DistinctIds([q1, q2, q3])
    requires q1.correctAnswer in q1.options && q2.options != [] && q3.options != []
    requires NOT_ANSWERED !in q1.options && NOT_ANSWERED !in q2.options && NOT_ANSWERED !in q3.options
    ensures 1 <= score <= 3 && |review| == 3
    ensures forall i :: 0 <= i < 3 ==> review[i].yourAnswer != NOT_ANSWERED
  {
    var bank := [q1, q2, q3];
    var session := new Session(Some(bank));
    session.Start(now);
    var exam := session.examQuestions;
    var i0 := ExamOfThree(q1, q2, q3, exam);
    var selections := map[q1.id := q1.correctAnswer];
    var total;
    ghost var scored;
    score, total, review, scored := session.Submit(now, selections);
    AsWrittenOutcome(q1, q2, q3, exam, i0, selections, scored, score, review);
  }

  /**
   * The same attempt with the corrected widgets: the score is exactly 1,
   * the first question shows its correct answer and the other two are
   * reviewed as "Not Answered".
   */
  method ThreeQuestionExamIntended(q1: Question, q2: Question, q3: Question, now: real)
    returns (score: nat, review: seq<ReviewLine>)
    requires DistinctIds([q1, q2, q3])
    requires q1.correctAnswer in q1.options
    ensures score == 1 && |review| == 3
    ensures forall i :: 0 <= i < 3 && review[i].id != q1.id ==> review[i].yourAnswer == NOT_ANSWERED
    ensures exists i :: 0 <= i < 3 && review[i].id == q1.id && review[i].yourAnswer == q1.correctAnswer
  {
    var bank := [q1, q2, q3];
    var session := new Session(Some(bank));
    session.Start(now);
    var exam := session.examQuestions;
    var i0 := ExamOfThree(q1, q2, q3, exam);
    var selections := map[q1.id := q1.correctAnswer];
    var total;
    ghost var scored;
    score, total, review, scored := session.SubmitIntended(now, selections);
    OnlyClickedIsCorrect(exam, i0, selections, scored);
    OnlyClickedIsReviewed(exam, i0, selections, scored, review);
  }
}
