/**
 * The grading and sampling helpers of the exam-practice app (utils.py):
 * question and graded-result records, `grade_exam`, `generate_exam`, and the
 * library sampler `random.sample` that both of the app's random draws use.
 */
module Utils {

  datatype Option<T> = None | Some(value: T)

  /** One multiple-choice question, as a row of the question store. */
  datatype Question = Question(
    id: string,
    questionText: string,
    options: seq<string>,
    correctAnswer: string,
    explanation: string)

  /**
   * The user's answers, keyed by question id. A value is `None` when the
   * answer widget had no options to offer and stored Python's `None`.
   */
  type Answers = map<string, Option<string>>

  /** One row of the graded result list built by `grade_exam`. */
  datatype GradedResult = GradedResult(
    id: string,
    question: string,
    userAnswer: Option<string>,
    correctAnswer: string,
    isCorrect: bool,
    explanation: string)

  function Min(a: int, b: int): int
  {
    if a <= b then a else b
  }

  /** `user_answers.get(id)`: a missing id reads as `None`. */
  function Lookup(answers: Answers, id: string): Option<string>
  {
    if id in answers then answers[id] else None
  }

  /** The comparison `user_answers.get(q["id"]) == q["correct_answer"]`. */
  predicate AnsweredCorrectly(q: Question, answers: Answers)
  {
    Lookup(answers, q.id) == Some(q.correctAnswer)
  }

  /** Number of questions answered correctly, counted left to right. */
  function CountCorrect(qs: seq<Question>, answers: Answers): nat
  {
    if qs == [] then 0
    else CountCorrect(qs[..|qs| - 1], answers)
         + (if AnsweredCorrectly(qs[|qs| - 1], answers) then 1 else 0)
  }

  /** The positions of the correctly answered questions. */
  ghost function CorrectPositions(qs: seq<Question>, answers: Answers): set<nat>
  {
    set i: nat | i < |qs| && AnsweredCorrectly(qs[i], answers)
  }

  /** Number of graded results whose `is_correct` flag is set. */
  function CountFlagged(rs: seq<GradedResult>): nat
  {
    if rs == [] then 0
    else CountFlagged(rs[..|rs| - 1]) + (if rs[|rs| - 1].isCorrect then 1 else 0)
  }

  /**
   * `r` is the result record `grade_exam` builds for `q`: every field of the
   * question is copied, the user's answer is looked up by id, and the flag
   * says whether that answer equals the correct one.
   */
  ghost predicate Grades(q: Question, answers: Answers, r: GradedResult)
  {
    && r.id == q.id
    && r.question == q.questionText
    && r.correctAnswer == q.correctAnswer
    && r.explanation == q.explanation
    && r.userAnswer == Lookup(answers, q.id)
    && (r.isCorrect <==> r.userAnswer == Some(q.correctAnswer))
  }

  lemma {:induction false} CountCorrectAtMostLength(qs: seq<Question>, answers: Answers)
    ensures CountCorrect(qs, answers) <= |qs|
  {
    if qs != [] {
      CountCorrectAtMostLength(qs[..|qs| - 1], answers);
    }
  }

  /** The left-to-right count agrees with the size of the set of correct positions. */
  lemma {:induction false} CountCorrectIsCardinality(qs: seq<Question>, answers: Answers)
    ensures CountCorrect(qs, answers) == |CorrectPositions(qs, answers)|
  {
    if qs == [] {
      assert CorrectPositions(qs, answers) == {};
    } else {
      var n := |qs| - 1;
      var front := qs[..n];
      CountCorrectIsCardinality(front, answers);
      forall i: nat | i < n
        ensures i in CorrectPositions(front, answers) <==> i in CorrectPositions(qs, answers)
      {
        assert front[i] == qs[i];
      }
      if AnsweredCorrectly(qs[n], answers) {
        assert CorrectPositions(qs, answers) == CorrectPositions(front, answers) + {n};
      } else {
        assert CorrectPositions(qs, answers) == CorrectPositions(front, answers);
      }
    }
  }

  /** The graded list is fully determined by the questions and the answers, so grading is repeatable. */
  lemma GradingIsDeterministic(qs: seq<Question>, answers: Answers, r1: seq<GradedResult>, r2: seq<GradedResult>)
    requires |r1| == |qs| && |r2| == |qs|
    requires forall i :: 0 <= i < |qs| ==> Grades(qs[i], answers, r1[i])
    requires forall i :: 0 <= i < |qs| ==> Grades(qs[i], answers, r2[i])
    ensures r1 == r2
  {
  }

  /**
   * `grade_exam`: one result per question in the same order, the score the
   * number of correctly answered questions (equally, of set `is_correct` flags).
   */
  method GradeExam(questions: seq<Question>, userAnswers: Answers)
    returns (score: nat, results: seq<GradedResult>)
    ensures |results| == |questions|
    ensures forall i :: 0 <= i < |questions| ==> Grades(questions[i], userAnswers, results[i])
    ensures forall i :: 0 <= i < |questions| && questions[i].id !in userAnswers ==>
              results[i].userAnswer == None && !results[i].isCorrect
    ensures score == CountCorrect(questions, userAnswers)
    ensures score == CountFlagged(results)
    ensures score <= |questions|
  {
    score := 0;
    results := [];
    for k := 0 to |questions|
      invariant |results| == k
      invariant forall i :: 0 <= i < k ==> Grades(questions[i], userAnswers, results[i])
      invariant score == CountCorrect(questions[..k], userAnswers)
      invariant score == CountFlagged(results)
    {
      var q := questions[k];
      var correct := q.correctAnswer;
      var userAns := Lookup(userAnswers, q.id);
      var isCorrect := userAns == Some(correct);
      if isCorrect {
        score := score + 1;
      }
      var r := GradedResult(q.id, q.questionText, userAns, correct, isCorrect, q.explanation);
      assert questions[..k + 1][..k] == questions[..k];
      assert (results + [r])[..k] == results;
      assert CountFlagged(results + [r]) == CountFlagged(results) + (if isCorrect then 1 else 0);
      results := results + [r];
    }
    assert questions[..|questions|] == questions;
    CountCorrectAtMostLength(questions, userAnswers);
  }

  /**
   * `drawn` consists of the population's elements at the positions `picks`,
   * in that order, and no position is picked twice.
   */
  ghost predicate IsDraw<T>(population: seq<T>, picks: seq<nat>, drawn: seq<T>)
  {
    && |picks| == |drawn|
    && (forall i :: 0 <= i < |picks| ==> picks[i] < |population| && drawn[i] == population[picks[i]])
    && (forall i, j :: 0 <= i < j < |picks| ==> picks[i] != picks[j])
  }

  /**
   * Taking out of a draw the pick of the population's last position leaves
   * a draw from the rest of the population.
   */
  lemma DropLastPick<T>(population: seq<T>, picks: seq<nat>, drawn: seq<T>, j: nat)
    requires IsDraw(population, picks, drawn)
    requires j < |picks| && picks[j] == |population| - 1
    ensures IsDraw(population[..|population| - 1], picks[..j] + picks[j + 1..], drawn[..j] + drawn[j + 1..])
    ensures multiset(drawn) == multiset(drawn[..j] + drawn[j + 1..]) + multiset{population[|population| - 1]}
  {
    var n := |population| - 1;
    var front := population[..n];
    var picks' := picks[..j] + picks[j + 1..];
    var drawn' := drawn[..j] + drawn[j + 1..];
    forall i | 0 <= i < |picks'|
      ensures picks'[i] < |front| && drawn'[i] == front[picks'[i]]
    {
      var i0 := if i < j then i else i + 1;
      assert picks'[i] == picks[i0] && drawn'[i] == drawn[i0];
      assert picks[i0] != picks[j];
    }
    forall i, i' | 0 <= i < i' < |picks'|
      ensures picks'[i] != picks'[i']
    {
      var i0 := if i < j then i else i + 1;
      var i1 := if i' < j then i' else i' + 1;
      assert picks'[i] == picks[i0] && picks'[i'] == picks[i1];
    }
    assert drawn == drawn[..j] + [drawn[j]] + drawn[j + 1..];
  }

  /** A draw that never picks the population's last position is a draw from the rest. */
  lemma KeepPicks<T>(population: seq<T>, picks: seq<nat>, drawn: seq<T>)
    requires IsDraw(population, picks, drawn) && |population| > 0
    requires forall i :: 0 <= i < |picks| ==> picks[i] != |population| - 1
    ensures IsDraw(population[..|population| - 1], picks, drawn)
  {
  }

  /** Drawing without replacement never takes an element more often than it occurs. */
  lemma {:induction false} DrawIsSubMultiset<T>(population: seq<T>, picks: seq<nat>, drawn: seq<T>)
    requires IsDraw(population, picks, drawn)
    ensures multiset(drawn) <= multiset(population)
    decreases |population|
  {
    if picks == [] {
      assert drawn == [];
    } else {
      assert picks[0] < |population|;
      var n := |population| - 1;
      var front := population[..n];
      assert population == front + [population[n]];
      if j :| 0 <= j < |picks| && picks[j] == n {
        DropLastPick(population, picks, drawn, j);
        DrawIsSubMultiset(front, picks[..j] + picks[j + 1..], drawn[..j] + drawn[j + 1..]);
      } else {
        KeepPicks(population, picks, drawn);
        DrawIsSubMultiset(front, picks, drawn);
      }
    }
  }

  /** A sub-multiset as large as the whole is the whole. */
  lemma FullSubMultisetIsEqual<T>(a: multiset<T>, b: multiset<T>)
    requires a <= b && |a| == |b|
    ensures a == b
  {
    var rest := b - a;
    assert a + rest == b;
    assert |rest| == 0;
  }

  /**
   * `random.sample(population, k)`: `k` elements drawn at positions chosen
   * without replacement, in the order drawn. The random choice is left open.
   */
  method Sample<T>(population: seq<T>, k: nat) returns (drawn: seq<T>, ghost picks: seq<nat>)
    requires k <= |population|
    ensures |drawn| == k
    ensures IsDraw(population, picks, drawn)
    ensures forall x :: x in drawn ==> x in population
    ensures multiset(drawn) <= multiset(population)
  {
    var first := seq(k, i requires 0 <= i < k => i);
    assert && |first| == k
           && (forall i :: 0 <= i < k ==> first[i] < |population|)
           && (forall i, j :: 0 <= i < j < k ==> first[i] != first[j]);
    var positions: seq<nat> :| && |positions| == k
                               && (forall i :: 0 <= i < k ==> positions[i] < |population|)
                               && (forall i, j :: 0 <= i < j < k ==> positions[i] != positions[j]);
    drawn := seq(k, i requires 0 <= i < k => population[positions[i]]);
    picks := positions;
    DrawIsSubMultiset(population, picks, drawn);
    forall x | x in drawn
      ensures x in population
    {
      assert x in multiset(drawn);
    }
  }

  /** Drawing every element of the population yields a permutation of it. */
  lemma FullDrawIsPermutation<T>(population: seq<T>, picks: seq<nat>, drawn: seq<T>)
    requires IsDraw(population, picks, drawn) && |drawn| == |population|
    ensures multiset(drawn) == multiset(population)
  {
    DrawIsSubMultiset(population, picks, drawn);
    FullSubMultisetIsEqual(multiset(drawn), multiset(population));
  }

  /**
   * `generate_exam(questions, n)`: `min(n, len(questions))` questions drawn
   * without replacement. A negative `n` makes `random.sample` raise, modelled
   * as `None`.
   */
  method GenerateExam(questions: seq<Question>, n: int := 20)
    returns (exam: Option<seq<Question>>, ghost picks: seq<nat>)
    ensures exam.None? <==> n < 0
    ensures exam.Some? ==> |exam.value| == Min(n, |questions|)
    ensures exam.Some? ==> IsDraw(questions, picks, exam.value)
    ensures exam.Some? ==> multiset(exam.value) <= multiset(questions)
  {
    var k := Min(n, |questions|);
    if k < 0 {
      exam, picks := None, [];
    } else {
      var drawn;
      drawn, picks := Sample(questions, k);
      exam := Some(drawn);
    }
  }
}
