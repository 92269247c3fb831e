/** Scoring a finished attempt and the result written back to the candidate. */
module Scoring {
  import opened Wrappers
  import opened Records
  import Seqs
  import Answers

  /** `answers[q.id] === q.correctAnswer`. Both sides may be `undefined`, and two
      `undefined`s are strictly equal. */
  predicate IsCorrect(q: Question, answers: Answers.AnswerMap) {
    Answers.Lookup(answers, q.id) == q.correctAnswer
  }

  /** `questions.filter(q => answers[q.id] === q.correctAnswer).length` */
  function CorrectCount(questions: seq<Question>, answers: Answers.AnswerMap): (r: nat)
    ensures r <= |questions|
    ensures r == |questions| <==> forall i :: 0 <= i < |questions| ==> IsCorrect(questions[i], answers)
    ensures r == 0 <==> forall i :: 0 <= i < |questions| ==> !IsCorrect(questions[i], answers)
  {
    var kept := Seqs.Filter(questions, q => IsCorrect(q, answers));
    Seqs.FilterKeepsAll(questions, q => IsCorrect(q, answers));
    Seqs.FilterDropsAll(questions, q => IsCorrect(q, answers));
    |kept|
  }

  /** Multiplying by a non-negative factor keeps the order. */
  lemma MulMono(a: nat, b: int, c: int)
    requires b <= c
    ensures a * b <= a * c
  {
    assert a * c - a * b == a * (c - b);
  }

  /** A positive factor can be cancelled from a strict inequality. */
  lemma MulCancel(a: int, b: int, c: int)
    requires a > 0 && a * b < a * c
    ensures b < c
  {
    if c <= b {
      MulMono(a, c, b);
    }
  }

  /** Euclidean division brackets the dividend. */
  lemma DivBounds(n: nat, w: nat)
    requires w > 0
    ensures w * (n / w) <= n < w * (n / w) + w
  {
  }

  /** `Math.round(part / whole * 100)` in exact integer arithmetic: the integer
      nearest to the percentage, halves rounded up. */
  function RoundPercent(part: nat, whole: nat): (r: nat)
    requires 0 < whole
    requires part <= whole
    ensures r <= 100
    ensures 2 * whole * r <= 200 * part + whole < 2 * whole * r + 2 * whole
    ensures part == whole ==> r == 100
    ensures part == 0 ==> r == 0
  {
    RoundingBounds(part, whole);
    (200 * part + whole) / (2 * whole)
  }

  lemma RoundingBounds(part: nat, whole: nat)
    requires 0 < whole && part <= whole
    ensures var r := (200 * part + whole) / (2 * whole);
            && 0 <= r <= 100
            && 2 * whole * r <= 200 * part + whole < 2 * whole * r + 2 * whole
            && (part == whole ==> r == 100)
            && (part == 0 ==> r == 0)
  {
    var w := 2 * whole;
    var n := 200 * part + whole;
    var r := n / w;
    DivBounds(n, w);
    assert n < w * 101;
    MulCancel(w, r, 101);
    if part == whole {
      assert w * 99 < w * r;
      MulCancel(w, 99, r);
    }
    if part == 0 {
      assert w * r < w * 1;
      MulCancel(w, r, 1);
    }
  }

  /** A larger part never gets a smaller rounded percentage. */
  lemma RoundPercentMonotone(p1: nat, p2: nat, whole: nat)
    requires 0 < whole && p1 <= p2 <= whole
    ensures RoundPercent(p1, whole) <= RoundPercent(p2, whole)
  {
    var r1 := RoundPercent(p1, whole);
    var r2 := RoundPercent(p2, whole);
    assert 2 * whole * r1 <= 200 * p1 + whole <= 200 * p2 + whole < 2 * whole * (r2 + 1);
    MulCancel(2 * whole, r1, r2 + 1);
  }

  /** Below 200 items the rounded percentage is 100 exactly when every item counts. */
  lemma RoundPercentFullIff(part: nat, whole: nat)
    requires 0 < whole < 200 && part <= whole
    ensures RoundPercent(part, whole) == 100 <==> part == whole
  {
    var r := RoundPercent(part, whole);
    if part < whole {
      assert 2 * whole * r < 2 * whole * 100 by {
        assert 200 * part <= 200 * whole - 200;
      }
      MulCancel(2 * whole, r, 100);
    }
  }

  /** From 200 items on, rounding reaches 100 with one item missing: 199 of 200 is
      99.5, which `Math.round` turns into 100. */
  lemma RoundPercentFullWithoutAll()
    ensures RoundPercent(199, 200) == 100
  {
  }

  /** The percentage score of an attempt: `Math.round(correct / total * 100)`. With
      no questions that is `Math.round(0 / 0 * 100)`, which is `NaN`. */
  function Score(questions: seq<Question>, answers: Answers.AnswerMap): (r: Number)
    ensures r.NaN? <==> |questions| == 0
    ensures r.Finite? ==> 0 <= r.value <= 100
    ensures |questions| > 0 && (forall i :: 0 <= i < |questions| ==> IsCorrect(questions[i], answers)) ==> r == Finite(100)
    ensures |questions| > 0 && (forall i :: 0 <= i < |questions| ==> !IsCorrect(questions[i], answers)) ==> r == Finite(0)
    ensures r.Finite? ==>
              2 * |questions| * r.value <= 200 * CorrectCount(questions, answers) + |questions| < 2 * |questions| * r.value + 2 * |questions|
  {
    if |questions| == 0 then NaN
    else Finite(RoundPercent(CorrectCount(questions, answers), |questions|))
  }

  /** A question without a `correctAnswer` that is left unanswered counts as correct:
      both sides of the comparison are `undefined`. */
  lemma UnansweredWithoutKeyIsCorrect(q: Question, answers: Answers.AnswerMap)
    requires q.correctAnswer.None? && q.id !in answers
    ensures IsCorrect(q, answers)
  {
  }

  /** Counting correct answers question by question. */
  lemma {:induction false} CorrectCountCons(q: Question, rest: seq<Question>, answers: Answers.AnswerMap)
    ensures CorrectCount([q] + rest, answers) == (if IsCorrect(q, answers) then 1 else 0) + CorrectCount(rest, answers)
  {
    var s := [q] + rest;
    assert s[0] == q && s[1..] == rest;
  }

  /** A worked example: four questions keyed A to D, answered A, B, X, D. */
  const ExampleQuestions := [Question("1", "", "", "", "", 1, None, Some("A")),
                             Question("2", "", "", "", "", 1, None, Some("B")),
                             Question("3", "", "", "", "", 1, None, Some("C")),
                             Question("4", "", "", "", "", 1, None, Some("D"))]
  const ExampleAnswers := map["1" := "A", "2" := "B", "3" := "X", "4" := "D"]

  /** Three of four answers right scores 75. */
  lemma ThreeOfFourScores75()
    ensures Score(ExampleQuestions, ExampleAnswers) == Finite(75)
  {
    ThreeOfFourCorrect();
    assert RoundPercent(3, 4) == 75 by {
      assert (200 * 3 + 4) / (2 * 4) == 75;
    }
  }

  /** The example's count: questions 1, 2 and 4 are answered correctly. */
  lemma ThreeOfFourCorrect()
    ensures CorrectCount(ExampleQuestions, ExampleAnswers) == 3
  {
    var qs := ExampleQuestions;
    var m := ExampleAnswers;
    ExampleMatches();
    assert CorrectCount(qs[4..], m) == 0 by {
      assert qs[4..] == [];
    }
    CountFrom(qs, m, 3);
    CountFrom(qs, m, 2);
    CountFrom(qs, m, 1);
    CountFrom(qs, m, 0);
    assert qs[0..] == qs;
  }

  /** Which of the example's answers match their keys. */
  lemma ExampleMatches()
    ensures IsCorrect(ExampleQuestions[0], ExampleAnswers) && IsCorrect(ExampleQuestions[1], ExampleAnswers)
    ensures !IsCorrect(ExampleQuestions[2], ExampleAnswers) && IsCorrect(ExampleQuestions[3], ExampleAnswers)
  {
  }

  /** Counting from position `i`: that question's match plus the count after it. */
  lemma CountFrom(qs: seq<Question>, m: Answers.AnswerMap, i: nat)
    requires i < |qs|
    ensures CorrectCount(qs[i..], m) == (if IsCorrect(qs[i], m) then 1 else 0) + CorrectCount(qs[i + 1..], m)
  {
    assert qs[i..] == [qs[i]] + qs[i + 1..];
    CorrectCountCons(qs[i], qs[i + 1..], m);
  }

  /** The candidate linked to the assessment: the first one whose `assessments`
      list references its id (`candidates.find(...)`). */
  function LinkedCandidate(candidates: seq<Candidate>, assessmentId: string): (r: Option<nat>)
    ensures r.Some? ==> r.value < |candidates| && Links(candidates[r.value], assessmentId)
    ensures r.Some? ==> forall j :: 0 <= j < r.value ==> !Links(candidates[j], assessmentId)
    ensures r.None? <==> forall j :: 0 <= j < |candidates| ==> !Links(candidates[j], assessmentId)
  {
    Seqs.FindIndex(candidates, c => Links(c, assessmentId))
  }

  /** `{ ...candidate, score, status: 'completed' }` */
  function Completed(c: Candidate, score: Number): (r: Candidate)
    ensures r.score == Some(score) && r.status == "completed"
    ensures r.id == c.id && r.name == c.name && r.email == c.email && r.assessments == c.assessments
  {
    c.(score := Some(score), status := "completed")
  }
}
