/**
  The quiz session held by the `Quiz` component: the sampled questions, the
  answer map and the one-way `showResults` flag, with the handlers that
  update them. React's `useState` setters become assignments to fields.
 */
module Session {
  import opened Wrappers
  import opened QuizData
  import opened Sampler
  import opened Scoring
  import opened Feedback

  /** Loading until the questions arrive, then in progress until submitted. */
  datatype Phase = Loading | InProgress | Completed

  class QuizSession {
    var questions: seq<Question>
    var answers: Answers
    var showResults: bool

    /** The sample fits the session size, answers are only kept for the
        session's questions, and results cannot be out before questions are. */
    ghost predicate Valid()
      reads this
    {
      && |questions| <= MAX_QUESTIONS
      && answers.Keys <= Ids(questions)
      && (questions == [] ==> !showResults)
    }

    /** The screen the component renders: "Cargando..." while the question
        list is empty, whatever else the state holds. */
    function CurrentPhase(): (p: Phase)
      reads this
      ensures p == Loading <==> |questions| == 0
      ensures p == Completed <==> |questions| > 0 && showResults
    {
      if |questions| == 0 then Loading
      else if showResults then Completed
      else InProgress
    }

    /** The line under the form for the current state. While the question list
        is empty only "Cargando..." is rendered, so there is no footer at all. */
    function CurrentFooter(): (f: Option<Footer>)
      reads this
      requires Valid()
      ensures f.None? <==> questions == []
      ensures f.Some? ==> (f.value.SubmitButton? <==> !showResults)
      ensures f.Some? && f.value.Tally? ==>
        f.value.correct == |CorrectIndices(questions, answers)| && f.value.total == |questions| <= MAX_QUESTIONS
    {
      if questions == [] then None
      else
        ScoreCountsCorrect(questions, answers);
        Some(FooterOf(showResults, questions, answers))
    }

    /** The initial state: no questions, no answers, results hidden. */
    constructor ()
      ensures Valid()
      ensures questions == [] && answers == map[] && !showResults
      ensures CurrentPhase() == Loading
      ensures CurrentFooter() == None
    {
      questions := [];
      answers := map[];
      showResults := false;
    }

    /** The mount effect: the loaded bank is shuffled with the given sort keys
        and its first 25 questions become the session. It runs once, while the
        question list is still empty. */
    method Load(data: seq<Question>, keys: seq<real>)
      requires Valid() && questions == []
      requires |keys| == |data|
      modifies this
      ensures Valid()
      ensures questions == Sample(data, keys)
      ensures answers == old(answers) && showResults == old(showResults)
      ensures |questions| == Min(|data|, MAX_QUESTIONS)
      ensures multiset(questions) <= multiset(data)
      ensures CurrentPhase() == (if data == [] then Loading else InProgress)
    {
      questions := Sample(data, keys);
    }

    /** `handleChange(qid, value)`: overwrite the answer for `qid`, keep every other. */
    method HandleChange(qid: QuestionId, value: Choice)
      requires Valid() && qid in Ids(questions)
      modifies this
      ensures Valid()
      ensures answers == Record(old(answers), qid, value)
      ensures questions == old(questions) && showResults == old(showResults)
    {
      answers := Record(answers, qid, value);
    }

    /** A click on option `opt` of the `i`-th rendered question. The button is
        disabled once results are shown, and then nothing changes. */
    method ClickOption(i: nat, opt: Choice) returns (accepted: bool)
      requires Valid() && i < |questions|
      modifies this
      ensures Valid()
      ensures questions == old(questions) && showResults == old(showResults)
      ensures accepted <==> !old(showResults)
      ensures answers == if accepted then Record(old(answers), questions[i].id, opt) else old(answers)
      ensures accepted ==> IsSelected(answers, questions[i], opt)
    {
      accepted := !OptionButton(showResults, answers, questions[i], opt).disabled;
      if accepted {
        HandleChange(questions[i].id, opt);
      }
    }

    /** `handleSubmit`: show the results. The flag only moves from false to
        true, so submitting again changes nothing. */
    method HandleSubmit()
      requires Valid() && questions != []
      modifies this
      ensures Valid()
      ensures showResults
      ensures questions == old(questions) && answers == old(answers)
      ensures old(showResults) ==> unchanged(this)
      ensures CurrentPhase() == Completed
    {
      showResults := true;
    }
  }

  // ---------------------------------------------------------------------------
  // Scenarios a caller can establish from the contracts above

  /** One question (id 1, correct option "b"); the user picks "b" and submits:
      the score reads "1 de 1" and option b is green with a check. */
  method OneCorrectAnswer(q: Question, key: real)
    requires q.id == 1 && q.correcta == B
  {
    var session := new QuizSession();
    ShuffleOrderedKeysIsIdentity([q], [key]);
    session.Load([q], [key]);
    assert session.questions == [q];
    var accepted := session.ClickOption(0, B);
    session.HandleSubmit();
    assert AnsweredCorrectly(session.answers, q);
    ScoreAppend([], q, session.answers);
    assert [] + [q] == [q];
    assert session.CurrentFooter() == Some(Tally(1, 1));
    assert OptionButton(true, session.answers, q, B).style == Correct;
    assert OptionButton(true, session.answers, q, B).mark == Check;
  }

  /** After submitting, a click is ignored and the score stays as it was;
      submitting without answering scores 0. */
  method NoAnswersThenLateClick(data: seq<Question>, keys: seq<real>)
    requires |keys| == |data| && data != []
  {
    var session := new QuizSession();
    session.Load(data, keys);
    session.HandleSubmit();
    ScoreNoAnswers(session.questions);
    assert session.CurrentFooter() == Some(Tally(0, |session.questions|));
    var accepted := session.ClickOption(0, A);
    assert !accepted;
    assert session.answers == map[];
    session.HandleSubmit();
    assert session.CurrentPhase() == Completed;
  }
}
