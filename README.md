# Quiz session model

A Dafny model of the session that the `Quiz` React component
(`src/components/Quiz.jsx`) keeps beneath its rendering: a rules exam
("EXAMEN REGLAS DE JUEGO") that loads a question bank, shuffles it, keeps
at most 25 questions, shows them all on one page, records the option the
user picks for each question, and, after one submit, shows per-option
feedback, a message under every question and the score "Has acertado X de
N preguntas.".

The model has six modules:

- `Wrappers` (`quiz_data.dfy`): the `Option` type.
- `QuizData` (`quiz_data.dfy`): the question record (`id`, `pregunta`,
  `respuesta_a`..`respuesta_d`, `correcta`), the option keys `a`..`d` as the
  enumeration `Choice`, and the answer map from question id to option.
  `answers[q.id]` is `Lookup`, which returns `None` where JavaScript gives
  `undefined`. The spread update `{ ...answers, [qid]: value }` is `Record`.
- `Sampler` (`sampler.dfy`): `shuffle` as decorate / sort-by-key / strip,
  with the sort keys passed in by the caller, and `slice(0, 25)` as `Sample`.
- `Scoring` (`scoring.dfy`): the filter-and-count score, the per-question
  message and the line under the form.
- `Feedback` (`feedback.dfy`): the class and the check/cross mark of every
  option button, as enumerations.
- `Session` (`session.dfy`): the component state (`questions`, `answers`,
  `showResults`) as the class `QuizSession`. Its methods are the mount
  effect, `handleChange`, an option click and `handleSubmit`. Two client
  methods at the end replay small scenarios using only the contracts.

The source renders a single page that is submitted once. It has no
per-question timer, no auto-advance and no stepped variant, so none is
modelled. Before submission a button only distinguishes picked (blue) from
not picked; correctness is shown only after submission.

## Model

| member | source | states |
|---|---|---|
| `QuizData.Lookup` | src/components/Quiz.jsx:53 | `answers[id]` exists exactly when the id has a recorded answer, and then it is that answer; otherwise it is undefined (`None`) |
| `QuizData.IsSelected` | src/components/Quiz.jsx:53 | an option is selected exactly when the question's id has a recorded answer and that answer is the option |
| `QuizData.AnsweredCorrectly` | src/components/Quiz.jsx:92 | a question is answered correctly exactly when its id has a recorded answer equal to `correcta` |
| `QuizData.OptionText` | src/components/Quiz.jsx:78 | the button of option a, b, c or d shows `respuesta_a`, `respuesta_b`, `respuesta_c` or `respuesta_d` respectively |
| `QuizData.Record` | src/components/Quiz.jsx:26-28 | after `{ ...answers, [qid]: value }`, `qid` maps to `value`, every other id maps to what it did before, and the key set gains only `qid` |
| `QuizData.UnansweredNeverCorrect` | src/components/Quiz.jsx:92-99 | a question with no recorded answer is never answered correctly, and none of its options counts as selected |
| `QuizData.SelectionIsUnique` | src/components/Quiz.jsx:53-54 | at most one option of a question is selected; the question is answered correctly exactly when its `correcta` option is the selected one |
| `QuizData.RecordOverwrites` | src/components/Quiz.jsx:26-28 | picking again for the same question replaces the earlier pick |
| `QuizData.RecordCommutes` | src/components/Quiz.jsx:26-28 | picks for two different questions give the same answer map in either order |
| `Sampler.Decorate` | src/components/Quiz.jsx:8 | every element is paired with its own sort key, position by position, and the length is kept |
| `Sampler.Strip` | src/components/Quiz.jsx:10 | the keys are dropped, position by position, and the length is kept |
| `Sampler.Insert` | src/components/Quiz.jsx:9 | inserting a keyed element into a key-sorted list keeps it sorted, adds exactly that element, and adds nothing else |
| `Sampler.SortByKey` | src/components/Quiz.jsx:9 | the sort by `a.sort - b.sort` yields a key-sorted permutation of the decorated pairs |
| `Sampler.StripSort` | src/components/Quiz.jsx:8-10 | after sorting, the stripped values are a permutation of the values before sorting |
| `Sampler.Shuffle` | src/components/Quiz.jsx:6-11 | `shuffle` returns a list of the same length and the same multiset of elements as its input |
| `Sampler.SortSortedIsIdentity` | src/components/Quiz.jsx:9 | sorting pairs that are already in key order leaves them as they are, ties included |
| `Sampler.ShuffleOrderedKeysIsIdentity` | src/components/Quiz.jsx:6-11 | with non-decreasing sort keys the shuffle returns its input unchanged |
| `Sampler.SortedPermutationUnique` | src/components/Quiz.jsx:9 | two key-sorted orderings of the same pairs with distinct keys are identical |
| `Sampler.ShuffleIndependentOfSortAlgorithm` | src/components/Quiz.jsx:6-11 | with distinct keys, stripping any key-sorted permutation of the decorated input gives the modelled shuffle, whatever sort algorithm produced it |
| `Sampler.Sample` | src/components/Quiz.jsx:22 | `shuffle(data).slice(0, 25)` holds min(L, 25) questions for a bank of L, each from the bank and none more often than in the bank; it is empty exactly when the bank is |
| `Sampler.SampleSmallBankIsPermutation` | src/components/Quiz.jsx:22 | a bank of at most 25 questions is kept whole, only reordered |
| `Sampler.SampleUniqueIds` | src/components/Quiz.jsx:22 | if the bank's question ids are unique, so are the sampled ones |
| `Scoring.Graded` | src/components/Quiz.jsx:118 | the filter keeps exactly the questions whose recorded answer equals `correcta`, and is no longer than the list |
| `Scoring.Score` | src/components/Quiz.jsx:118-120 | the score lies between 0 and `questions.length` |
| `Scoring.ScoreAppend` | src/components/Quiz.jsx:118 | one more question raises the score by one exactly when it is answered correctly |
| `Scoring.ScoreCountsCorrect` | src/components/Quiz.jsx:118 | the score equals the number of positions whose question is answered correctly |
| `Scoring.ScorePerfectIff` | src/components/Quiz.jsx:118-120 | the score equals `questions.length` exactly when every question is answered correctly |
| `Scoring.ScoreZeroIff` | src/components/Quiz.jsx:118 | the score is 0 exactly when no question is answered correctly |
| `Scoring.ScoreNoAnswers` | src/components/Quiz.jsx:118 | with no answers recorded the score is 0 |
| `Scoring.ScoreIgnoresOtherIds` | src/components/Quiz.jsx:118 | recording an answer under an id that no question has does not change the score |
| `Scoring.VerdictOf` | src/components/Quiz.jsx:92-99 | the message is "¡Correcto!" exactly when the `correcta` option is selected; otherwise it is "Incorrecto" naming `correcta` |
| `Scoring.Message` | src/components/Quiz.jsx:88-101 | a question's message is rendered exactly when results are shown |
| `Scoring.FooterOf` | src/components/Quiz.jsx:106-122 | the submit button shows exactly while results are hidden; after that the tally's total is `questions.length` and its count is no larger |
| `Scoring.UnansweredIsIncorrecto` | src/components/Quiz.jsx:92-99 | an unanswered question gets the "Incorrecto" message naming its correct option |
| `Feedback.StyleOf` | src/components/Quiz.jsx:60-68 | before results a button is blue exactly when picked and unselected otherwise; after results it is green exactly when correct, red exactly when picked and wrong, muted exactly when neither |
| `Feedback.MarkOf` | src/components/Quiz.jsx:79-83 | a mark is shown exactly when results are out and the option is picked (`showFeedback`); it is ✔️ exactly when the option is also correct |
| `Feedback.OptionButton` | src/components/Quiz.jsx:70-84 | a button shows the `respuesta_<opt>` text and is disabled exactly when results are shown |
| `Feedback.CorrectOptionIsGreen` | src/components/Quiz.jsx:60-65 | once results are shown the correct option is green whatever was picked, and it is the only green option |
| `Feedback.WrongPickIsRed` | src/components/Quiz.jsx:64-68 | once results are shown an option is red exactly when it was picked and is wrong, and muted exactly when it was neither picked nor correct |
| `Feedback.BeforeResultsOnlySelection` | src/components/Quiz.jsx:60-63 | before results an option is blue when picked and unselected otherwise, and carries no mark |
| `Feedback.MarkOnlyOnPickAfterResults` | src/components/Quiz.jsx:55 | a mark appears exactly when results are shown and the option is picked; it is ✔️ exactly when that option is also correct |
| `Feedback.MarksAgreeWithVerdict` | src/components/Quiz.jsx:79-99 | after results, some option of a question shows ✔️ exactly when the question's message is "¡Correcto!", and some shows ❌ exactly when it was answered wrongly |
| `Feedback.UnansweredAfterResults` | src/components/Quiz.jsx:60-99 | an unanswered question after submit reads "Incorrecto", has no marks, and shows its correct option green and the other options muted |
| `Feedback.ResultsHighlightCounts` | src/components/Quiz.jsx:52-68 | after results exactly one of the four buttons is green, and exactly one is red when the question was answered wrongly (none otherwise) |
| `Feedback.SelectionHighlightCount` | src/components/Quiz.jsx:52-63 | before results exactly one button is blue if the question is answered, none otherwise |
| `Session.QuizSession.CurrentPhase` | src/components/Quiz.jsx:35-36 | the view is "Cargando..." exactly while the question list is empty; it is completed exactly when questions exist and results are shown |
| `Session.QuizSession.CurrentFooter` | src/components/Quiz.jsx:35-122 | there is no footer exactly while the question list is empty ("Cargando..." is rendered instead); otherwise the footer holds the submit button while results are hidden; after that it holds the number of correctly answered questions out of `questions.length` (at most 25) |
| `Session.QuizSession.constructor` | src/components/Quiz.jsx:14-16 | a new session has no questions, no answers and results hidden, so it is loading and renders no footer |
| `Session.QuizSession.Load` | src/components/Quiz.jsx:18-24 | the mount effect sets the questions to the sample of the bank, min(L, 25) of them, drawn from the bank; an empty bank leaves the session loading |
| `Session.QuizSession.HandleChange` | src/components/Quiz.jsx:26-28 | the answer map becomes the old map with `qid` set to the value; questions and flag are untouched |
| `Session.QuizSession.ClickOption` | src/components/Quiz.jsx:71-75 | a click records the option exactly when results are hidden (the button is otherwise disabled); nothing else changes |
| `Session.QuizSession.HandleSubmit` | src/components/Quiz.jsx:30-33 | results become shown and stay shown; questions and answers are untouched; a second submit changes nothing |

## Left out

- Loading the bank with `fetch("/Questions.json")` and parsing the JSON is I/O. The loaded records are the `data` parameter of `Load`.
- The fetch can fail. Then the view stays on "Cargando..." forever. The model has no failing `Load`; not calling it leaves the session in `Loading`.
- `Math.random()` is replaced by caller-supplied sort keys, one real per element. Floating-point behaviour of the keys and of `a.sort - b.sort` is not modelled.
- Sampler.SortByKey: like the engine's stable sort, this insertion sort keeps equal-key elements in input order. Stability is proved only for input that is already sorted (`SortSortedIsIdentity`). With distinct keys the order is fully determined whatever the algorithm (`ShuffleIndependentOfSortAlgorithm`).
- JSX, Tailwind class strings and the `Card`, `Button` and `cn` helpers are not modelled. The styles are the enumeration `Feedback.Style`. The marks are `Feedback.Mark`. The heading, the `idx + 1` numbering and the `key` props are not modelled.
- React's `useState`/`useEffect` scheduling (batching, re-render timing, stale closures) is not modelled. Each handler updates the fields at once.
- QuizSession.HandleChange: requires `qid` to be the id of a session question. The view only calls it from a rendered option button, so this always holds. The handler itself checks nothing.
- QuizSession.HandleSubmit: requires a non-empty question list. The form and its submit button are only rendered then.
- QuizSession.ClickOption: requires the index of a session question. Buttons exist only for rendered questions.
- QuizSession.Load: requires an empty question list, because the effect runs once on mount, before any question exists.
- Question records are assumed well formed: `correcta` is one of `a`..`d`. Records with missing fields or another `correcta` are not validated by the source and are not modelled.
- Question ids are integers. JavaScript turns object keys into strings, so a numeric id `1` and a string id `"1"` would share an answer. That coercion is not modelled.
- `e.preventDefault()` in `handleSubmit` is browser plumbing and is left out.
- There is no timer, auto-advance or stepped mode, because the source has none.
