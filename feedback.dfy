/**
  The per-option feedback: for every option button of every question, the
  visual class chosen from `(showResults, selected, isCorrect)` and the
  check or cross mark shown beside a selected option once results are out.
  The Tailwind class strings are abstracted to an enumeration.
 */
module Feedback {
  import opened QuizData
  import opened Scoring

  /** The five button classes the view chooses from. */
  datatype Style =
    | Unselected  // before results, not picked: neutral border, hover highlight
    | Selected    // before results, picked: blue
    | Correct     // results shown, the correct option: green
    | Incorrect   // results shown, picked but wrong: red
    | Neutral     // results shown, neither picked nor correct: muted

  /** The mark after the option text. */
  datatype Mark = NoMark | Check | Cross

  /** The class selected by the nested conditional on the three flags. */
  function StyleOf(showResults: bool, selected: bool, isCorrect: bool): (s: Style)
    ensures s == Selected <==> !showResults && selected
    ensures s == Unselected <==> !showResults && !selected
    ensures s == Correct <==> showResults && isCorrect
    ensures s == Incorrect <==> showResults && selected && !isCorrect
    ensures s == Neutral <==> showResults && !selected && !isCorrect
  {
    if !showResults then (if selected then Selected else Unselected)
    else if isCorrect then Correct
    else if selected then Incorrect
    else Neutral
  }

  /** `showFeedback && (isCorrect ? "✔️" : "❌")` with `showFeedback = showResults && selected`. */
  function MarkOf(showResults: bool, selected: bool, isCorrect: bool): (m: Mark)
    ensures m != NoMark <==> showResults && selected
    ensures m == Check <==> showResults && selected && isCorrect
  {
    if showResults && selected then (if isCorrect then Check else Cross) else NoMark
  }

  /** What one option button shows. */
  datatype Button = Button(text: string, style: Style, mark: Mark, disabled: bool)

  /** The button of option `opt` of question `q`. */
  function OptionButton(showResults: bool, answers: Answers, q: Question, opt: Choice): (b: Button)
    ensures b.text == OptionText(q, opt)
    ensures b.disabled <==> showResults
  {
    var selected := IsSelected(answers, q, opt);
    var isCorrect := q.correcta == opt;
    Button(OptionText(q, opt), StyleOf(showResults, selected, isCorrect),
           MarkOf(showResults, selected, isCorrect), showResults)
  }

  /** 1 when the button of `opt` has style `st`, else 0. */
  function Hit(showResults: bool, answers: Answers, q: Question, opt: Choice, st: Style): nat {
    if OptionButton(showResults, answers, q, opt).style == st then 1 else 0
  }

  /** How many of the options `opts` get style `st`. */
  function CountStyle(showResults: bool, answers: Answers, q: Question, opts: seq<Choice>, st: Style): (n: nat)
    ensures n <= |opts|
  {
    if opts == [] then 0
    else Hit(showResults, answers, q, opts[0], st) + CountStyle(showResults, answers, q, opts[1..], st)
  }

  // ---------------------------------------------------------------------------
  // Properties of the classification

  /** Once results are shown the correct option is green, whatever was picked,
      and no other option is. */
  lemma CorrectOptionIsGreen(answers: Answers, q: Question, opt: Choice)
    ensures OptionButton(true, answers, q, q.correcta).style == Correct
    ensures OptionButton(true, answers, q, opt).style == Correct <==> opt == q.correcta
  {
  }

  /** Once results are shown an option is red exactly when it was picked and is wrong,
      and neutral exactly when it was neither picked nor correct. */
  lemma WrongPickIsRed(answers: Answers, q: Question, opt: Choice)
    ensures OptionButton(true, answers, q, opt).style == Incorrect
        <==> IsSelected(answers, q, opt) && opt != q.correcta
    ensures OptionButton(true, answers, q, opt).style == Neutral
        <==> !IsSelected(answers, q, opt) && opt != q.correcta
  {
  }

  /** Before results the only distinction is picked (blue) or not. */
  lemma BeforeResultsOnlySelection(answers: Answers, q: Question, opt: Choice)
    ensures OptionButton(false, answers, q, opt).style == (if IsSelected(answers, q, opt) then Selected else Unselected)
    ensures OptionButton(false, answers, q, opt).mark == NoMark
  {
  }

  /** A mark appears only after results and only on the picked option; it is a
      check exactly when that option is correct. */
  lemma MarkOnlyOnPickAfterResults(showResults: bool, answers: Answers, q: Question, opt: Choice)
    ensures OptionButton(showResults, answers, q, opt).mark != NoMark
        <==> showResults && IsSelected(answers, q, opt)
    ensures OptionButton(showResults, answers, q, opt).mark == Check
        <==> showResults && IsSelected(answers, q, opt) && opt == q.correcta
  {
  }

  /** The marks agree with the message under the question: some option shows a
      check exactly when the message is "¡Correcto!", and some option shows a
      cross exactly when the question was answered, but wrongly. */
  lemma MarksAgreeWithVerdict(answers: Answers, q: Question)
    ensures (exists opt :: OptionButton(true, answers, q, opt).mark == Check)
        <==> VerdictOf(answers, q) == Correcto
    ensures (exists opt :: OptionButton(true, answers, q, opt).mark == Cross)
        <==> q.id in answers && VerdictOf(answers, q) != Correcto
  {
    if VerdictOf(answers, q) == Correcto {
      assert OptionButton(true, answers, q, q.correcta).mark == Check;
    }
    if q.id in answers && VerdictOf(answers, q) != Correcto {
      assert OptionButton(true, answers, q, answers[q.id]).mark == Cross;
    }
  }

  /** Submitting without answering a question: its message is "Incorrecto", no
      option carries a mark, and the correct option is the only one highlighted. */
  lemma UnansweredAfterResults(answers: Answers, q: Question, opt: Choice)
    requires q.id !in answers
    ensures VerdictOf(answers, q) == Incorrecto(q.correcta)
    ensures OptionButton(true, answers, q, opt).mark == NoMark
    ensures OptionButton(true, answers, q, opt).style == (if opt == q.correcta then Correct else Neutral)
  {
  }

  /** One step of the count: the first option, then the rest. */
  lemma CountStyleCons(showResults: bool, answers: Answers, q: Question, opt: Choice, rest: seq<Choice>, st: Style)
    ensures CountStyle(showResults, answers, q, [opt] + rest, st)
         == Hit(showResults, answers, q, opt, st) + CountStyle(showResults, answers, q, rest, st)
  {
    assert ([opt] + rest)[0] == opt && ([opt] + rest)[1..] == rest;
  }

  /** Counting along the four rendered options, one option at a time. */
  lemma CountStyleOfChoices(showResults: bool, answers: Answers, q: Question, st: Style)
    ensures CountStyle(showResults, answers, q, CHOICES, st)
         == Hit(showResults, answers, q, A, st) + Hit(showResults, answers, q, B, st)
          + Hit(showResults, answers, q, C, st) + Hit(showResults, answers, q, D, st)
  {
    CountStyleCons(showResults, answers, q, D, [], st);
    CountStyleCons(showResults, answers, q, C, [D], st);
    CountStyleCons(showResults, answers, q, B, [C, D], st);
    CountStyleCons(showResults, answers, q, A, [B, C, D], st);
    assert [D] + [] == [D] && [C] + [D] == [C, D];
    assert [B] + [C, D] == [B, C, D] && [A] + [B, C, D] == CHOICES;
  }

  /** Among the four buttons of a question after results, exactly one is green,
      and one is red exactly when the question was answered wrongly. */
  lemma ResultsHighlightCounts(answers: Answers, q: Question)
    ensures CountStyle(true, answers, q, CHOICES, Correct) == 1
    ensures CountStyle(true, answers, q, CHOICES, Incorrect)
         == (if q.id in answers && !AnsweredCorrectly(answers, q) then 1 else 0)
  {
    CountStyleOfChoices(true, answers, q, Correct);
    CountStyleOfChoices(true, answers, q, Incorrect);
  }

  /** Before results at most one button of a question is blue: exactly one
      when the question has been answered. */
  lemma SelectionHighlightCount(answers: Answers, q: Question)
    ensures CountStyle(false, answers, q, CHOICES, Selected) == (if q.id in answers then 1 else 0)
  {
    CountStyleOfChoices(false, answers, q, Selected);
  }
}
