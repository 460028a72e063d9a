/** Optional values: `None` stands for JavaScript's `undefined`. */
module Wrappers {
  datatype Option<+T> = None | Some(value: T)
}

/**
  The data the quiz works on: the question records of the question bank and
  the answer map the user fills in, keyed by question id.
 */
module QuizData {
  import opened Wrappers

  /** The four option keys "a", "b", "c" and "d" of a question. */
  datatype Choice = A | B | C | D

  /** The options in the order the quiz renders them. */
  const CHOICES: seq<Choice> := [A, B, C, D]

  type QuestionId = int

  /** One record of the question bank. */
  datatype Question = Question(
    id: QuestionId,
    pregunta: string,
    respuestaA: string,
    respuestaB: string,
    respuestaC: string,
    respuestaD: string,
    correcta: Choice)

  /** The answer record: question id to the option the user picked last. */
  type Answers = map<QuestionId, Choice>

  /** The text shown on the button of option `opt` (`q["respuesta_" + opt]`). */
  function OptionText(q: Question, opt: Choice): (t: string)
    ensures opt == A ==> t == q.respuestaA
    ensures opt == B ==> t == q.respuestaB
    ensures opt == C ==> t == q.respuestaC
    ensures opt == D ==> t == q.respuestaD
  {
    match opt
    case A => q.respuestaA
    case B => q.respuestaB
    case C => q.respuestaC
    case D => q.respuestaD
  }

  /** `answers[id]`: the recorded option, or `None` (undefined) when there is none. */
  function Lookup(answers: Answers, id: QuestionId): (r: Option<Choice>)
    ensures r.Some? <==> id in answers
    ensures r.Some? ==> r.value == answers[id]
  {
    if id in answers then Some(answers[id]) else None
  }

  /** `answers[q.id] === opt`: option `opt` of `q` is the one currently picked. */
  predicate IsSelected(answers: Answers, q: Question, opt: Choice): (b: bool)
    ensures b <==> q.id in answers && answers[q.id] == opt
  {
    Lookup(answers, q.id) == Some(opt)
  }

  /** `answers[q.id] === q.correcta`: the question is answered correctly. */
  predicate AnsweredCorrectly(answers: Answers, q: Question): (b: bool)
    ensures b <==> q.id in answers && answers[q.id] == q.correcta
  {
    Lookup(answers, q.id) == Some(q.correcta)
  }

  /** `{ ...answers, [qid]: value }`: the answer map after picking `value` for `qid`. */
  function Record(answers: Answers, qid: QuestionId, value: Choice): (r: Answers)
    ensures r.Keys == answers.Keys + {qid}
    ensures Lookup(r, qid) == Some(value)
    ensures forall id :: id != qid ==> Lookup(r, id) == Lookup(answers, id)
  {
    answers[qid := value]
  }

  /** The ids of the questions of a list. */
  function Ids(qs: seq<Question>): (ids: set<QuestionId>)
    ensures forall i :: 0 <= i < |qs| ==> qs[i].id in ids
    ensures forall id :: id in ids ==> exists i :: 0 <= i < |qs| && qs[i].id == id
  {
    set i | 0 <= i < |qs| :: qs[i].id
  }

  /** No two questions of the list share an id. */
  predicate UniqueIds(qs: seq<Question>) {
    forall i, j :: 0 <= i < j < |qs| ==> qs[i].id != qs[j].id
  }

  // ---------------------------------------------------------------------------
  // Properties of the answer record

  /** An unanswered question (its id maps to undefined) is never answered correctly. */
  lemma UnansweredNeverCorrect(answers: Answers, q: Question)
    requires q.id !in answers
    ensures !AnsweredCorrectly(answers, q)
    ensures forall opt :: !IsSelected(answers, q, opt)
  {
  }

  /** A question has at most one selected option, and it is answered correctly
      exactly when its correct option is the selected one. */
  lemma SelectionIsUnique(answers: Answers, q: Question, o1: Choice, o2: Choice)
    ensures IsSelected(answers, q, o1) && IsSelected(answers, q, o2) ==> o1 == o2
    ensures AnsweredCorrectly(answers, q) <==> IsSelected(answers, q, q.correcta)
  {
  }

  /** Picking again for the same question overwrites the earlier pick. */
  lemma RecordOverwrites(answers: Answers, qid: QuestionId, v1: Choice, v2: Choice)
    ensures Record(Record(answers, qid, v1), qid, v2) == Record(answers, qid, v2)
  {
  }

  /** Picks for different questions do not interfere: their order does not matter. */
  lemma RecordCommutes(answers: Answers, q1: QuestionId, v1: Choice, q2: QuestionId, v2: Choice)
    requires q1 != q2
    ensures Record(Record(answers, q1, v1), q2, v2) == Record(Record(answers, q2, v2), q1, v1)
  {
  }
}
