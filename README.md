# Battle reducer — a Dafny model

This project models the battle reducer of a quiz mini-application. A battle
is one quiz round: an id and an ordered sequence of questions. The reducer is
a pure state machine over the record `{battle, activeQuestion,
hasNextQuestion}` with three actions:

- `setBattle(payload)` stores the battle, makes its first question active and
  sets `hasNextQuestion` when more questions follow;
- `updateQuestion(payload)` replaces, by id, the question in the sequence, and
  the active question too when it carries that id;
- `goToNextQuestion` moves the active question one step forward and
  recomputes `hasNextQuestion`, or fails with the error "Вы уже на последнем
  вопросе" (already on the last question).

The reducer's own source file is not part of this model. Its behaviour is
taken from its test suite, `src/components/panels/battle-reducer.test.ts`.
Everything is in one module, `BattleReducer` (`battle_reducer.dfy`). The model
is functional, like the source: `Reduce(state, action)` returns a fresh
`Result<State>`, and a thrown error becomes `Err(AlreadyOnLastQuestion)`.
JavaScript `null` becomes `None`.

The invariant `Valid` describes the reachable states. The first kind is the
empty state: no battle, no active question, `hasNextQuestion` false. The
second kind is a battle whose question ids are distinct. Its active question
is the entry of the sequence that carries its id, at position
`ActiveIndex`. `hasNextQuestion` holds exactly when that position is not the
last. Every action keeps `Valid` (the `ensures` of `Reduce`).

## Model

| member | source | states |
|---|---|---|
| `BattleReducer.Reduce` | src/components/panels/battle-reducer.test.ts:4-240 | Every action keeps the state invariant. The result is an error exactly when goToNextQuestion is dispatched with no next question. |
| `BattleReducer.EmptyValid` | src/components/panels/battle-reducer.test.ts:6-10 | The initial state (no battle, no active question, no next question) satisfies the invariant. |
| `BattleReducer.ActiveIndex` | src/components/panels/battle-reducer.test.ts:123-127 | In a populated state, the active question is the entry at this index, and hasNextQuestion holds iff the index is not the last. |
| `BattleReducer.IndexOfId` | src/components/panels/battle-reducer.test.ts:107-210 | Finding the active question by id returns the first index whose question has that id, or nothing iff no question has it. |
| `BattleReducer.IndexOfIdAt` | src/components/panels/battle-reducer.test.ts:107-210 | With distinct ids, looking up the id of the question at k finds k. |
| `BattleReducer.SetBattleStep` | src/components/panels/battle-reducer.test.ts:5-42 | The setBattle action; it needs a non-empty question list. The result satisfies the state invariant exactly when the payload's question ids are distinct, and then the active position is 0. Its other properties are stated by `SetBattleValid`. |
| `BattleReducer.SetBattleValid` | src/components/panels/battle-reducer.test.ts:5-42 | setBattle stores the payload battle unchanged (same id, same question order). It makes the first question active at index 0 and sets hasNextQuestion iff there is more than one question. The result satisfies the invariant. |
| `BattleReducer.SetBattleIgnoresState` | src/components/panels/battle-reducer.test.ts:5-42 | Applied to any two valid states, setBattle with the same payload gives the same result: it does not depend on the prior state. |
| `BattleReducer.SetBattleScenario` | src/components/panels/battle-reducer.test.ts:5-42 | The test case: battle 1 with questions 1 and 2 gives active question 1 and hasNextQuestion true. |
| `BattleReducer.ReplaceById` | src/components/panels/battle-reducer.test.ts:78-103 | The replacement updateQuestion performs on the sequence; its contract keeps the length. Its contents are given by `ReplaceByIdAt` (each position) and `ReplaceByIdExactlyOne` (with distinct ids, exactly one entry replaced). |
| `BattleReducer.ReplaceByIdAt` | src/components/panels/battle-reducer.test.ts:78-103 | At each position, the payload appears where the id matches and the old question elsewhere. The id at each position is kept. |
| `BattleReducer.ReplaceByIdKeepsIds` | src/components/panels/battle-reducer.test.ts:78-103 | Replacing by id keeps the sequence of ids, hence their distinctness. |
| `BattleReducer.IndexOfIdSameIds` | src/components/panels/battle-reducer.test.ts:97-100 | Two sequences with the same ids in the same order give the same lookup result. |
| `BattleReducer.ReplaceByIdExactlyOne` | src/components/panels/battle-reducer.test.ts:78-96 | With distinct ids, replacing by the id found at index k is exactly the sequence update at k. |
| `BattleReducer.ReplaceByIdNoMatch` | src/components/panels/battle-reducer.test.ts:71-77 | A payload whose id matches no question leaves the sequence unchanged. |
| `BattleReducer.ReplaceByIdIdempotent` | src/components/panels/battle-reducer.test.ts:71-96 | Replacing twice with the same payload equals replacing once. |
| `BattleReducer.UpdateQuestionStep` | src/components/panels/battle-reducer.test.ts:78-103 | updateQuestion keeps the battle id and hasNextQuestion. |
| `BattleReducer.UpdateQuestionValid` | src/components/panels/battle-reducer.test.ts:46-104 | updateQuestion keeps the invariant, so the active question still equals its entry in the sequence. It also keeps the active position. |
| `BattleReducer.UpdateQuestionReplacesExactlyOne` | src/components/panels/battle-reducer.test.ts:46-104 | Only the matched entry is replaced: the new sequence is the old one with that entry set to the payload. The active question becomes the payload iff it was that entry; otherwise it is unchanged. hasNextQuestion is kept. |
| `BattleReducer.UpdateQuestionNoMatch` | src/components/panels/battle-reducer.test.ts:71-77 | An update whose id matches no question leaves the whole state unchanged. |
| `BattleReducer.UpdateQuestionIdempotent` | src/components/panels/battle-reducer.test.ts:71-103 | Applying the same update twice yields the state that applying it once yields. |
| `BattleReducer.UpdateQuestionScenario` | src/components/panels/battle-reducer.test.ts:46-104 | The test case: updating question 2 from 'cat' to 'dog' changes that entry and the active question, and nothing else. |
| `BattleReducer.GoToNextQuestionStep` | src/components/panels/battle-reducer.test.ts:107-239 | The step fails with AlreadyOnLastQuestion iff hasNextQuestion is false. Otherwise it keeps the battle and the invariant, and moves the active index up by exactly one. |
| `BattleReducer.GoToNextQuestionAdvances` | src/components/panels/battle-reducer.test.ts:107-239 | With a next question, the result is a valid state with the same battle whose active position is one more than before, whose active question is the entry right after the old one, and whose hasNextQuestion holds iff that new position is not the last. Without one, the result is the error. |
| `BattleReducer.GoToNextQuestionOnLastFails` | src/components/panels/battle-reducer.test.ts:212-239 | On the last question, advancing yields the error and no successor state. |
| `BattleReducer.AdvanceN` | src/components/panels/battle-reducer.test.ts:107-210 | Repeated advances keep the invariant. |
| `BattleReducer.AdvanceCount` | src/components/panels/battle-reducer.test.ts:107-210 | While questions remain, `steps` advances all succeed, keep the battle, and move the active index by exactly `steps`. |
| `BattleReducer.RoundEndsOnLastQuestion` | src/components/panels/battle-reducer.test.ts:107-239 | After setBattle with n questions, n - 1 advances land on the last question with hasNextQuestion false. The next advance fails with the error. |
| `BattleReducer.GoToNextQuestionScenarios` | src/components/panels/battle-reducer.test.ts:107-239 | The three test cases: advancing to the last of two, advancing to the middle of three, and the error on the last of two. |

## Left out

- The reducer's implementation file is not part of this model. The model follows its test suite. Behaviour the tests leave open is an assumption of this model: goToNextQuestion locates the active question by id (first match), and updateQuestion replaces every entry carrying the payload's id.
- `BattleReducer.SetBattleStep` requires a non-empty question list. A battle with no questions has no first question, and the behaviour is left undefined (the payload must be non-empty).
- `BattleReducer.Reduce` requires that a setBattle payload have distinct question ids, and that updateQuestion is only dispatched once a battle is set. This is an assumption: all test battles have distinct ids, and with no battle the update has no sequence to work on.
- `BattleReducer.UpdateQuestionNoMatch`: an update whose id matches no question is untested. The model treats it as a no-op on the sequence, which is an assumption.
- The state "battle present, active question absent" is not modelled. setBattle always sets both together, so no action reaches it.
- Questions carry only `id` and the optional `question` text. Other answer metadata is not modelled.
- The error is a datatype variant. The body of `Message` gives its text; no property of the text is stated.
- `src/components/App.tsx` is not modelled: screen and panel navigation, React state hooks, Sentry, analytics trackers, the VK Pixel, network fetches of user and battle data, and rendering are UI glue and I/O.
- `src/components/AppWrapper.tsx` is not modelled: VK bridge initialisation, the theme DOM attribute, Sentry setup and context providers are platform side effects.
- `src/index.tsx` is not modelled: bridge initialisation, theming, React rendering, hot reload and debug tooling are bootstrapping.
