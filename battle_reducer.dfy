/**
 * The battle reducer: a pure state machine for one quiz round ("battle").
 *
 * The state is the record {battle, activeQuestion, hasNextQuestion}.  Three
 * actions move it: SetBattle seeds it, UpdateQuestion replaces a question by
 * id, and GoToNextQuestion advances the active question, failing with the
 * "already on the last question" error when there is nothing to advance to.
 * The reducer never mutates its input; every step returns a fresh state.
 */
module BattleReducer {

  /** The reducer's one domain error. */
  datatype Error = AlreadyOnLastQuestion

  /** The error message the reducer throws with. */
  function Message(e: Error): string
  {
    match e
    case AlreadyOnLastQuestion => "Вы уже на последнем вопросе"
  }

  /** A step either yields the successor state or signals the error. */
  datatype Result<T> = Ok(value: T) | Err(error: Error)

  datatype Option<T> = None | Some(value: T)

  /** A question: an integer id and optional content (the prompt text). */
  datatype Question = Question(id: int, question: Option<string>)

  /** A battle: an id and the ordered sequence of its questions. */
  datatype Battle = Battle(id: int, questions: seq<Question>)

  /** The reducer state; `None` stands for the source's `null`. */
  datatype State = State(battle: Option<Battle>, activeQuestion: Option<Question>, hasNextQuestion: bool)

  datatype Action =
    | SetBattle(battlePayload: Battle)
    | UpdateQuestion(questionPayload: Question)
    | GoToNextQuestion

  /** The state the screen starts from, before any battle is set. */
  const Empty: State := State(None, None, false)

  // ---------------------------------------------------------------------
  // Questions: lookup and replacement by id
  // ---------------------------------------------------------------------

  /** No two questions of a battle share an id. */
  ghost predicate DistinctIds(qs: seq<Question>) {
    forall i, j :: 0 <= i < j < |qs| ==> qs[i].id != qs[j].id
  }

  /** Lookup by id: the index of the first question carrying `id`, if any (an assumption of this model). */
  function IndexOfId(qs: seq<Question>, id: int): (r: Option<nat>)
    ensures r.Some? ==> r.value < |qs| && qs[r.value].id == id
    ensures r.Some? ==> forall j :: 0 <= j < r.value ==> qs[j].id != id
    ensures r.None? <==> forall j :: 0 <= j < |qs| ==> qs[j].id != id
  {
    if |qs| == 0 then None
    else if qs[0].id == id then Some(0)
    else match IndexOfId(qs[1..], id)
      case None => None
      case Some(k) => Some(k + 1)
  }

  /** Replacement by id: every question carrying `p.id` replaced by `p` (an assumption of this model). */
  function ReplaceById(qs: seq<Question>, p: Question): (r: seq<Question>)
    ensures |r| == |qs|
  {
    if |qs| == 0 then []
    else [if qs[0].id == p.id then p else qs[0]] + ReplaceById(qs[1..], p)
  }

  /** With distinct ids, the lookup of the id at position k finds exactly k. */
  lemma IndexOfIdAt(qs: seq<Question>, k: nat)
    requires DistinctIds(qs) && k < |qs|
    ensures IndexOfId(qs, qs[k].id) == Some(k)
  {
  }

  /** Position by position, ReplaceById substitutes `p` exactly where the id matches. */
  lemma {:induction false} ReplaceByIdAt(qs: seq<Question>, p: Question, i: nat)
    requires i < |qs|
    ensures ReplaceById(qs, p)[i] == if qs[i].id == p.id then p else qs[i]
    ensures ReplaceById(qs, p)[i].id == qs[i].id
  {
    if i > 0 {
      ReplaceByIdAt(qs[1..], p, i - 1);
    }
  }

  /** ReplaceById keeps the ids and their order, hence their distinctness. */
  lemma ReplaceByIdKeepsIds(qs: seq<Question>, p: Question)
    ensures forall i :: 0 <= i < |qs| ==> ReplaceById(qs, p)[i].id == qs[i].id
    ensures DistinctIds(qs) ==> DistinctIds(ReplaceById(qs, p))
  {
    forall i | 0 <= i < |qs| ensures ReplaceById(qs, p)[i].id == qs[i].id {
      ReplaceByIdAt(qs, p, i);
    }
  }

  /** Two sequences with the same ids in the same order give the same lookup. */
  lemma {:induction false} IndexOfIdSameIds(qs: seq<Question>, rs: seq<Question>, id: int)
    requires |qs| == |rs|
    requires forall i :: 0 <= i < |qs| ==> qs[i].id == rs[i].id
    ensures IndexOfId(qs, id) == IndexOfId(rs, id)
  {
    if |qs| > 0 {
      IndexOfIdSameIds(qs[1..], rs[1..], id);
    }
  }

  /** With distinct ids, updating the question at index k replaces that entry and nothing else. */
  lemma ReplaceByIdExactlyOne(qs: seq<Question>, p: Question, k: nat)
    requires DistinctIds(qs) && k < |qs| && qs[k].id == p.id
    ensures ReplaceById(qs, p) == qs[k := p]
  {
    forall i | 0 <= i < |qs| ensures ReplaceById(qs, p)[i] == qs[k := p][i] {
      ReplaceByIdAt(qs, p, i);
    }
  }

  /** An id that matches no question leaves the sequence unchanged. */
  lemma {:induction false} ReplaceByIdNoMatch(qs: seq<Question>, p: Question)
    requires forall i :: 0 <= i < |qs| ==> qs[i].id != p.id
    ensures ReplaceById(qs, p) == qs
  {
    if |qs| > 0 {
      ReplaceByIdNoMatch(qs[1..], p);
    }
  }

  /** Replacing twice with the same question is the same as replacing once. */
  lemma {:induction false} ReplaceByIdIdempotent(qs: seq<Question>, p: Question)
    ensures ReplaceById(ReplaceById(qs, p), p) == ReplaceById(qs, p)
  {
    if |qs| > 0 {
      ReplaceByIdIdempotent(qs[1..], p);
      var r := ReplaceById(qs, p);
      assert r[1..] == ReplaceById(qs[1..], p);
    }
  }

  // ---------------------------------------------------------------------
  // The state invariant
  // ---------------------------------------------------------------------

  /**
   * The reachable states: either no battle at all (nothing active, no next
   * question), or a battle with distinct question ids whose active question
   * is the entry of the sequence carrying its id, and hasNextQuestion says
   * exactly whether that entry is not the last.
   */
  ghost predicate Valid(s: State) {
    match s.battle
    case None => s.activeQuestion.None? && !s.hasNextQuestion
    case Some(b) =>
      DistinctIds(b.questions) && s.activeQuestion.Some? &&
      var idx := IndexOfId(b.questions, s.activeQuestion.value.id);
      idx.Some? && b.questions[idx.value] == s.activeQuestion.value &&
      s.hasNextQuestion == (idx.value < |b.questions| - 1)
  }

  /** The position of the active question in a valid, populated state. */
  function ActiveIndex(s: State): (i: nat)
    requires Valid(s) && s.battle.Some?
    ensures i < |s.battle.value.questions|
    ensures s.activeQuestion == Some(s.battle.value.questions[i])
    ensures s.hasNextQuestion <==> i < |s.battle.value.questions| - 1
  {
    IndexOfId(s.battle.value.questions, s.activeQuestion.value.id).value
  }

  /** What a caller must guarantee before dispatching an action. */
  ghost predicate Admissible(s: State, a: Action) {
    match a
    case SetBattle(b) => |b.questions| > 0 && DistinctIds(b.questions)
    case UpdateQuestion(_) => s.battle.Some?
    case GoToNextQuestion => true
  }

  lemma EmptyValid()
    ensures Valid(Empty) && !Empty.hasNextQuestion
  {
  }

  // ---------------------------------------------------------------------
  // The three actions
  // ---------------------------------------------------------------------

  /** setBattle: store the battle and make its first question active. */
  function SetBattleStep(b: Battle): (r: State)
    requires |b.questions| > 0
    ensures Valid(r) <==> DistinctIds(b.questions)
    ensures Valid(r) ==> r.battle == Some(b) && ActiveIndex(r) == 0
  {
    State(Some(b), Some(b.questions[0]), |b.questions| > 1)
  }

  /** updateQuestion: replace the question by id, in the sequence and, when it is active, as the active question. */
  function UpdateQuestionStep(s: State, p: Question): (r: State)
    requires s.battle.Some?
    ensures r.battle.Some? && r.battle.value.id == s.battle.value.id
    ensures r.hasNextQuestion == s.hasNextQuestion
  {
    var b := s.battle.value;
    var active := if s.activeQuestion.Some? && s.activeQuestion.value.id == p.id then Some(p) else s.activeQuestion;
    State(Some(Battle(b.id, ReplaceById(b.questions, p))), active, s.hasNextQuestion)
  }

  /** goToNextQuestion: advance to the question after the active one, or fail on the last. */
  function GoToNextQuestionStep(s: State): (r: Result<State>)
    requires Valid(s)
    ensures r.Err? <==> !s.hasNextQuestion
    ensures r.Err? ==> r.error == AlreadyOnLastQuestion
    ensures r.Ok? ==> Valid(r.value) && r.value.battle == s.battle
    ensures r.Ok? ==> ActiveIndex(r.value) == ActiveIndex(s) + 1
  {
    if !s.hasNextQuestion then Err(AlreadyOnLastQuestion)
    else
      var qs := s.battle.value.questions;
      var i := ActiveIndex(s);
      var next := State(s.battle, Some(qs[i + 1]), i + 1 < |qs| - 1);
      IndexOfIdAt(qs, i + 1);
      Ok(next)
  }

  /** The reducer: one action applied to one state. */
  function Reduce(s: State, a: Action): (r: Result<State>)
    requires Valid(s) && Admissible(s, a)
    ensures r.Err? <==> a.GoToNextQuestion? && !s.hasNextQuestion
    ensures r.Ok? ==> Valid(r.value)
  {
    match a
    case SetBattle(b) =>
      SetBattleValid(b);
      Ok(SetBattleStep(b))
    case UpdateQuestion(p) =>
      UpdateQuestionValid(s, p);
      Ok(UpdateQuestionStep(s, p))
    case GoToNextQuestion => GoToNextQuestionStep(s)
  }

  // ---------------------------------------------------------------------
  // Properties of setBattle
  // ---------------------------------------------------------------------

  /**
   * setBattle stores the payload unchanged, activates its first question and
   * sets hasNextQuestion exactly when more than one question follows.
   */
  lemma SetBattleValid(b: Battle)
    requires |b.questions| > 0 && DistinctIds(b.questions)
    ensures Valid(SetBattleStep(b))
    ensures SetBattleStep(b).battle == Some(b)
    ensures ActiveIndex(SetBattleStep(b)) == 0
    ensures SetBattleStep(b).activeQuestion == Some(b.questions[0])
    ensures SetBattleStep(b).hasNextQuestion <==> |b.questions| > 1
  {
    IndexOfIdAt(b.questions, 0);
  }

  /** setBattle ignores the previous state: any reachable state is reseeded the same way. */
  lemma SetBattleIgnoresState(s: State, t: State, b: Battle)
    requires Valid(s) && Valid(t) && Admissible(s, SetBattle(b))
    ensures Reduce(s, SetBattle(b)) == Reduce(t, SetBattle(b))
  {
  }

  // ---------------------------------------------------------------------
  // Properties of updateQuestion
  // ---------------------------------------------------------------------

  /** updateQuestion keeps the invariant and leaves the active position where it was. */
  lemma UpdateQuestionValid(s: State, p: Question)
    requires Valid(s) && s.battle.Some?
    ensures Valid(UpdateQuestionStep(s, p))
    ensures ActiveIndex(UpdateQuestionStep(s, p)) == ActiveIndex(s)
  {
    var qs := s.battle.value.questions;
    var rs := ReplaceById(qs, p);
    var i := ActiveIndex(s);
    ReplaceByIdKeepsIds(qs, p);
    IndexOfIdSameIds(qs, rs, s.activeQuestion.value.id);
    ReplaceByIdAt(qs, p, i);
    var r := UpdateQuestionStep(s, p);
    IndexOfIdSameIds(qs, rs, r.activeQuestion.value.id);
  }

  /**
   * When the payload's id is that of the question at index k, the new
   * sequence is the old one with exactly entry k replaced; the active
   * question becomes the payload iff it carried that id, and so still equals
   * its entry in the sequence.
   */
  lemma UpdateQuestionReplacesExactlyOne(s: State, p: Question, k: nat)
    requires Valid(s) && s.battle.Some?
    requires k < |s.battle.value.questions| && s.battle.value.questions[k].id == p.id
    ensures UpdateQuestionStep(s, p).battle == Some(Battle(s.battle.value.id, s.battle.value.questions[k := p]))
    ensures UpdateQuestionStep(s, p).activeQuestion == if ActiveIndex(s) == k then Some(p) else s.activeQuestion
    ensures UpdateQuestionStep(s, p).hasNextQuestion == s.hasNextQuestion
  {
    ReplaceByIdExactlyOne(s.battle.value.questions, p, k);
  }

  /** An update whose id matches no question leaves the whole state unchanged. */
  lemma UpdateQuestionNoMatch(s: State, p: Question)
    requires Valid(s) && s.battle.Some?
    requires forall i :: 0 <= i < |s.battle.value.questions| ==> s.battle.value.questions[i].id != p.id
    ensures UpdateQuestionStep(s, p) == s
  {
    ReplaceByIdNoMatch(s.battle.value.questions, p);
  }

  /** Applying the same update twice yields the same state as applying it once. */
  lemma UpdateQuestionIdempotent(s: State, p: Question)
    requires s.battle.Some?
    ensures UpdateQuestionStep(UpdateQuestionStep(s, p), p) == UpdateQuestionStep(s, p)
  {
    ReplaceByIdIdempotent(s.battle.value.questions, p);
  }

  // ---------------------------------------------------------------------
  // Properties of goToNextQuestion
  // ---------------------------------------------------------------------

  /**
   * With a next question, goToNextQuestion activates the entry right after
   * the current one, keeps the battle, and sets hasNextQuestion to whether
   * that new entry is not the last; without one it fails with the error.
   */
  lemma GoToNextQuestionAdvances(s: State)
    requires Valid(s)
    ensures !s.hasNextQuestion ==> Reduce(s, GoToNextQuestion) == Err(AlreadyOnLastQuestion)
    ensures s.hasNextQuestion ==>
      s.battle.Some? && ActiveIndex(s) + 1 < |s.battle.value.questions| &&
      var r := Reduce(s, GoToNextQuestion);
      r.Ok? && Valid(r.value) && r.value.battle == s.battle &&
      ActiveIndex(r.value) == ActiveIndex(s) + 1 &&
      r.value.activeQuestion == Some(s.battle.value.questions[ActiveIndex(s) + 1]) &&
      (r.value.hasNextQuestion <==> ActiveIndex(r.value) < |s.battle.value.questions| - 1)
  {
  }

  /** On the last question of a battle, advancing always fails. */
  lemma GoToNextQuestionOnLastFails(s: State)
    requires Valid(s) && s.battle.Some?
    requires ActiveIndex(s) == |s.battle.value.questions| - 1
    ensures Reduce(s, GoToNextQuestion) == Err(AlreadyOnLastQuestion)
  {
  }

  /** As long as questions remain, each advance moves the active position by exactly one. */
  lemma {:induction false} AdvanceCount(s: State, steps: nat)
    requires Valid(s) && s.battle.Some?
    requires ActiveIndex(s) + steps < |s.battle.value.questions|
    ensures AdvanceN(s, steps).Ok?
    ensures Valid(AdvanceN(s, steps).value) && AdvanceN(s, steps).value.battle == s.battle
    ensures ActiveIndex(AdvanceN(s, steps).value) == ActiveIndex(s) + steps
    decreases steps
  {
    if steps > 0 {
      var r := Reduce(s, GoToNextQuestion);
      assert r.Ok?;
      AdvanceCount(r.value, steps - 1);
    }
  }

  /**
   * A whole round: after setBattle with n questions, n - 1 advances succeed
   * and land on the last question with no next one, and the advance after
   * that fails with the error.
   */
  lemma RoundEndsOnLastQuestion(b: Battle)
    requires |b.questions| > 0 && DistinctIds(b.questions)
    ensures
      var r := AdvanceN(SetBattleStep(b), |b.questions| - 1);
      r.Ok? && r.value.activeQuestion == Some(b.questions[|b.questions| - 1]) &&
      !r.value.hasNextQuestion && Reduce(r.value, GoToNextQuestion) == Err(AlreadyOnLastQuestion)
  {
    SetBattleValid(b);
    AdvanceCount(SetBattleStep(b), |b.questions| - 1);
  }

  /** Dispatch goToNextQuestion `steps` times, stopping at the first error. */
  function AdvanceN(s: State, steps: nat): (r: Result<State>)
    requires Valid(s)
    ensures r.Ok? ==> Valid(r.value)
    decreases steps
  {
    if steps == 0 then Ok(s)
    else match Reduce(s, GoToNextQuestion)
      case Err(e) => Err(e)
      case Ok(t) => AdvanceN(t, steps - 1)
  }

  // ---------------------------------------------------------------------
  // The concrete before/after cases of the reducer's test suite
  // ---------------------------------------------------------------------

  function Q(id: int, text: string): Question {
    Question(id, Some(text))
  }

  lemma SetBattleScenario()
    ensures
      var b := Battle(1, [Question(1, None), Question(2, None)]);
      Reduce(Empty, SetBattle(b)) == Ok(State(Some(b), Some(Question(1, None)), true))
  {
  }

  lemma UpdateQuestionScenario()
    ensures
      var s := State(Some(Battle(1, [Q(1, "test"), Q(2, "cat"), Q(3, "car")])), Some(Q(2, "cat")), true);
      Valid(s) &&
      Reduce(s, UpdateQuestion(Q(2, "dog")))
        == Ok(State(Some(Battle(1, [Q(1, "test"), Q(2, "dog"), Q(3, "car")])), Some(Q(2, "dog")), true))
  {
    var qs := [Q(1, "test"), Q(2, "cat"), Q(3, "car")];
    assert DistinctIds(qs);
    IndexOfIdAt(qs, 1);
    ReplaceByIdExactlyOne(qs, Q(2, "dog"), 1);
    assert qs[1 := Q(2, "dog")] == [Q(1, "test"), Q(2, "dog"), Q(3, "car")];
  }

  lemma GoToNextQuestionScenarios()
    ensures
      var two := Battle(1, [Q(1, "cat"), Q(2, "dog")]);
      Valid(State(Some(two), Some(Q(1, "cat")), true)) &&
      Reduce(State(Some(two), Some(Q(1, "cat")), true), GoToNextQuestion)
        == Ok(State(Some(two), Some(Q(2, "dog")), false))
    ensures
      var three := Battle(1, [Q(1, "cat"), Q(2, "dog"), Q(3, "car")]);
      Valid(State(Some(three), Some(Q(1, "cat")), true)) &&
      Reduce(State(Some(three), Some(Q(1, "cat")), true), GoToNextQuestion)
        == Ok(State(Some(three), Some(Q(2, "dog")), true))
    ensures
      var two := Battle(1, [Q(1, "cat"), Q(2, "dog")]);
      Valid(State(Some(two), Some(Q(2, "dog")), false)) &&
      Reduce(State(Some(two), Some(Q(2, "dog")), false), GoToNextQuestion)
        == Err(AlreadyOnLastQuestion)
  {
    var two := [Q(1, "cat"), Q(2, "dog")];
    var three := [Q(1, "cat"), Q(2, "dog"), Q(3, "car")];
    assert DistinctIds(two);
    assert DistinctIds(three);
    IndexOfIdAt(two, 0);
    IndexOfIdAt(two, 1);
    IndexOfIdAt(three, 0);
    IndexOfIdAt(three, 1);
  }
}
