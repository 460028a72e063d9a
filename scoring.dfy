/**
  The scorer: `questions.filter(q => answers[q.id] === q.correcta).length`,
  the per-question message shown once results are out, and the line under
  the form (the submit button, or "Has acertado X de N preguntas.").
 */
module Scoring {
  import opened Wrappers
  import opened QuizData

  /** `questions.filter(q => answers[q.id] === q.correcta)`. */
  function Graded(qs: seq<Question>, answers: Answers): (r: seq<Question>)
    ensures |r| <= |qs|
    ensures forall q :: q in r ==> q in qs && AnsweredCorrectly(answers, q)
    ensures forall q :: q in qs && AnsweredCorrectly(answers, q) ==> q in r
  {
    if qs == [] then []
    else
      assert forall q :: q in qs ==> q == qs[0] || q in qs[1..];
      (if AnsweredCorrectly(answers, qs[0]) then [qs[0]] else []) + Graded(qs[1..], answers)
  }

  /** The number of correctly answered questions. */
  function Score(qs: seq<Question>, answers: Answers): (n: nat)
    ensures n <= |qs|
  {
    |Graded(qs, answers)|
  }

  /** The indices of the correctly answered questions: an independent
      definition of what the score counts. */
  function CorrectIndices(qs: seq<Question>, answers: Answers): set<nat> {
    set i: nat | i < |qs| && AnsweredCorrectly(answers, qs[i])
  }

  /** The message under a question once results are shown. */
  datatype Verdict = Correcto | Incorrecto(correcta: Choice)

  /** "¡Correcto!" or "Incorrecto. Respuesta correcta: <correcta>)". */
  function VerdictOf(answers: Answers, q: Question): (v: Verdict)
    ensures v == Correcto <==> IsSelected(answers, q, q.correcta)
    ensures v != Correcto ==> v == Incorrecto(q.correcta)
  {
    if AnsweredCorrectly(answers, q) then Correcto else Incorrecto(q.correcta)
  }

  /** The message is rendered only once results are shown. */
  function Message(showResults: bool, answers: Answers, q: Question): (m: Option<Verdict>)
    ensures m.Some? <==> showResults
  {
    if showResults then Some(VerdictOf(answers, q)) else None
  }

  /** The line under the form. */
  datatype Footer = SubmitButton | Tally(correct: nat, total: nat)

  function FooterOf(showResults: bool, qs: seq<Question>, answers: Answers): (f: Footer)
    ensures f.SubmitButton? <==> !showResults
    ensures f.Tally? ==> f.correct <= f.total == |qs|
  {
    if showResults then Tally(Score(qs, answers), |qs|) else SubmitButton
  }

  // ---------------------------------------------------------------------------
  // Properties of the score

  /** The filter distributes over appending one question. */
  lemma {:induction false} GradedAppend(qs: seq<Question>, q: Question, answers: Answers)
    ensures Graded(qs + [q], answers)
         == Graded(qs, answers) + (if AnsweredCorrectly(answers, q) then [q] else [])
  {
    if qs != [] {
      assert (qs + [q])[1..] == qs[1..] + [q];
      GradedAppend(qs[1..], q, answers);
    }
  }

  /** Adding a question adds one to the score exactly when it is answered correctly. */
  lemma ScoreAppend(qs: seq<Question>, q: Question, answers: Answers)
    ensures Score(qs + [q], answers) == Score(qs, answers) + (if AnsweredCorrectly(answers, q) then 1 else 0)
  {
    GradedAppend(qs, q, answers);
  }

  lemma CorrectIndicesAppend(qs: seq<Question>, q: Question, answers: Answers)
    ensures CorrectIndices(qs + [q], answers)
         == CorrectIndices(qs, answers) + (if AnsweredCorrectly(answers, q) then {|qs|} else {})
  {
    var extra: set<nat> := if AnsweredCorrectly(answers, q) then {|qs|} else {};
    forall i: nat
      ensures i in CorrectIndices(qs + [q], answers) <==> i in CorrectIndices(qs, answers) + extra
    {
      if i < |qs| {
        assert (qs + [q])[i] == qs[i];
      }
    }
  }

  /** The score is the number of questions whose recorded answer equals `correcta`. */
  lemma {:induction false} ScoreCountsCorrect(qs: seq<Question>, answers: Answers)
    ensures Score(qs, answers) == |CorrectIndices(qs, answers)|
  {
    if qs != [] {
      var init, last := qs[..|qs| - 1], qs[|qs| - 1];
      assert qs == init + [last];
      ScoreCountsCorrect(init, answers);
      ScoreAppend(init, last, answers);
      CorrectIndicesAppend(init, last, answers);
      assert |init| !in CorrectIndices(init, answers);
    }
  }

  /** Full marks exactly when every question is answered correctly. */
  lemma {:induction false} ScorePerfectIff(qs: seq<Question>, answers: Answers)
    ensures Score(qs, answers) == |qs| <==> forall q :: q in qs ==> AnsweredCorrectly(answers, q)
  {
    if qs != [] {
      assert qs == [qs[0]] + qs[1..];
      ScorePerfectIff(qs[1..], answers);
      assert forall q :: q in qs <==> q == qs[0] || q in qs[1..];
    }
  }

  /** A score of zero exactly when no question is answered correctly. */
  lemma ScoreZeroIff(qs: seq<Question>, answers: Answers)
    ensures Score(qs, answers) == 0 <==> forall q :: q in qs ==> !AnsweredCorrectly(answers, q)
  {
    if Score(qs, answers) != 0 {
      var g := Graded(qs, answers);
      assert g[0] in g;
    }
  }

  /** A question without a recorded answer contributes nothing: submitting
      without answering scores 0 of N. */
  lemma ScoreNoAnswers(qs: seq<Question>)
    ensures Score(qs, map[]) == 0
  {
    ScoreZeroIff(qs, map[]);
  }

  /** Recording an answer for an id that no question has leaves the score alone. */
  lemma {:induction false} ScoreIgnoresOtherIds(qs: seq<Question>, answers: Answers, qid: QuestionId, v: Choice)
    requires qid !in Ids(qs)
    ensures Score(qs, Record(answers, qid, v)) == Score(qs, answers)
  {
    if qs != [] {
      assert qs[0].id in Ids(qs);
      assert Ids(qs[1..]) <= Ids(qs) by {
        forall id | id in Ids(qs[1..])
          ensures id in Ids(qs)
        {
          var i :| 0 <= i < |qs[1..]| && qs[1..][i].id == id;
          assert qs[i + 1].id == id;
        }
      }
      ScoreIgnoresOtherIds(qs[1..], answers, qid, v);
    }
  }

  /** An unanswered question gets the "Incorrecto" message naming the correct option. */
  lemma UnansweredIsIncorrecto(answers: Answers, q: Question)
    requires q.id !in answers
    ensures VerdictOf(answers, q) == Incorrecto(q.correcta)
    ensures Message(true, answers, q) == Some(Incorrecto(q.correcta))
  {
  }
}
