/** Scoring of a finished session (the `totalCorrect` / `totalWrong`
    computation of sat-quiz-frontend/src/App.js). */
module Scoring {
  import opened Questions

  /** The chosen options, keyed by the question's position in the session;
      an unanswered question has no entry. */
  type Answers = map<nat, Letter>

  /** `answers[i] === q.correct`: the question at position `i` was answered,
      and with the key the record names as correct. An absent answer is
      `undefined`, which never equals the record's string. */
  predicate IsCorrect(q: Question, answers: Answers, i: nat) {
    i in answers && LetterName(answers[i]) == q.correct
  }

  /** How one answer is judged: an unanswered question is never correct, a
      chosen key is correct exactly when it is the record's key, and a record
      whose key is none of the four letters can never be answered
      correctly. */
  lemma AnswerJudgement(q: Question, answers: Answers, i: nat, choice: Letter)
    ensures i !in answers ==> !IsCorrect(q, answers, i)
    ensures IsCorrect(q, answers[i := choice], i) <==> LetterName(choice) == q.correct
    ensures q.correct !in {"A", "B", "C", "D"} ==> !IsCorrect(q, answers, i)
  {
    if i in answers {
      match answers[i]
      case A =>
      case B =>
      case C =>
      case D =>
    }
  }

  /** The `reduce` over the questions in order: one point per correct
      answer. */
  function TotalCorrect(questions: seq<Question>, answers: Answers): (n: nat)
    ensures n <= |questions|
    decreases |questions|
  {
    if |questions| == 0 then 0
    else
      var last := |questions| - 1;
      TotalCorrect(questions[..last], answers) + (if IsCorrect(questions[last], answers, last) then 1 else 0)
  }

  /** Every question not answered correctly, unanswered ones included,
      counts as wrong: the complement of the correct count is the number of
      positions not answered correctly. */
  function TotalWrong(questions: seq<Question>, answers: Answers): (n: nat)
    ensures TotalCorrect(questions, answers) + n == |questions|
    ensures n == |WrongPositions(questions, answers)|
  {
    TotalCorrectCountsCorrectPositions(questions, answers);
    CorrectAndWrongPartition(questions, answers);
    |questions| - TotalCorrect(questions, answers)
  }

  /** The positions answered correctly. */
  function CorrectPositions(questions: seq<Question>, answers: Answers): set<nat> {
    set i: nat | i < |questions| && IsCorrect(questions[i], answers, i)
  }

  /** The positions answered wrongly or not at all. */
  function WrongPositions(questions: seq<Question>, answers: Answers): set<nat> {
    set i: nat | i < |questions| && !IsCorrect(questions[i], answers, i)
  }

  /** The positions with no answer. */
  function UnansweredPositions(questions: seq<Question>, answers: Answers): set<nat> {
    set i: nat | i < |questions| && i !in answers
  }

  /** The positions `0 .. n - 1`. */
  function Positions(n: nat): (r: set<nat>)
    ensures |r| == n
    ensures forall i: nat :: i in r <==> i < n
  {
    if n == 0 then {}
    else
      var r := Positions(n - 1) + {n - 1};
      assert n - 1 !in Positions(n - 1);
      r
  }

  /** Adding a question at the end adds its position to the correct ones
      exactly when it was answered correctly. */
  lemma CorrectPositionsExtend(questions: seq<Question>, answers: Answers)
    requires |questions| > 0
    ensures var last := |questions| - 1;
      var before := CorrectPositions(questions[..last], answers);
      && last !in before
      && CorrectPositions(questions, answers)
         == if IsCorrect(questions[last], answers, last) then before + {last} else before
  {
    var last := |questions| - 1;
    var prefix := questions[..last];
    var before := CorrectPositions(prefix, answers);
    var now := CorrectPositions(questions, answers);
    forall i: nat | i < last
      ensures prefix[i] == questions[i]
    {
    }
    if IsCorrect(questions[last], answers, last) {
      assert forall i: nat :: i in now <==> i in before + {last};
    } else {
      assert forall i: nat :: i in now <==> i in before;
    }
  }

  /** The running total is the number of correctly answered positions. */
  lemma {:induction false} TotalCorrectCountsCorrectPositions(questions: seq<Question>, answers: Answers)
    ensures TotalCorrect(questions, answers) == |CorrectPositions(questions, answers)|
    decreases |questions|
  {
    if |questions| > 0 {
      var last := |questions| - 1;
      TotalCorrectCountsCorrectPositions(questions[..last], answers);
      CorrectPositionsExtend(questions, answers);
    } else {
      assert CorrectPositions(questions, answers) == {};
    }
  }

  /** Every position is either correct or wrong, never both. */
  lemma CorrectAndWrongPartition(questions: seq<Question>, answers: Answers)
    ensures |CorrectPositions(questions, answers)| + |WrongPositions(questions, answers)| == |questions|
  {
    var correct := CorrectPositions(questions, answers);
    var wrong := WrongPositions(questions, answers);
    assert correct !! wrong;
    assert correct + wrong == Positions(|questions|);
  }

  /** An unanswered question is never scored correct, so there are at least
      as many wrong answers as unanswered questions. */
  lemma UnansweredAreWrong(questions: seq<Question>, answers: Answers)
    ensures UnansweredPositions(questions, answers) <= WrongPositions(questions, answers)
    ensures TotalWrong(questions, answers) >= |UnansweredPositions(questions, answers)|
  {
    SubsetCardinality(UnansweredPositions(questions, answers), WrongPositions(questions, answers));
  }

  /** With no answers at all, nothing is correct. */
  lemma NoAnswersScoreNothing(questions: seq<Question>)
    ensures TotalCorrect(questions, map[]) == 0
    ensures TotalWrong(questions, map[]) == |questions|
  {
    TotalCorrectCountsCorrectPositions(questions, map[]);
    assert CorrectPositions(questions, map[]) == {};
  }

  /** Answering every question with its correct key scores full marks. */
  lemma AllCorrectScoresFull(questions: seq<Question>, answers: Answers)
    requires forall i :: 0 <= i < |questions| ==> IsCorrect(questions[i], answers, i)
    ensures TotalCorrect(questions, answers) == |questions|
    ensures TotalWrong(questions, answers) == 0
  {
    TotalCorrectCountsCorrectPositions(questions, answers);
    assert CorrectPositions(questions, answers) == Positions(|questions|);
  }

  lemma SubsetCardinality(a: set<nat>, b: set<nat>)
    requires a <= b
    ensures |a| <= |b|
  {
    assert b == a + (b - a);
  }
}
