/** The quiz's value records: a question, and the four-field UI state the game
    screen renders. Every update of the UI state replaces the whole record with a
    copy in which only the named fields differ. */
module GameUiState {

  /** A prompt and its answers. By the bank's convention the answer at position
      0 is the correct one; the bank's questions carry four answers each. */
  datatype Question = Question(text: string, answers: seq<string>)

  /** The UI state: the question on screen, its answers in display order, the
      question's position in the bank (-1 before a session starts) and the
      selected answer ("" when nothing is selected). */
  datatype UiState = UiState(
    currentQuestion: Question,
    answers: seq<string>,
    questionIndex: int,
    selectedAnswer: string)

  /** The correct answer of a question: by the bank's convention the one at
      position 0 of its own answer list. A question without answers has none,
      read here as the "nothing selected" marker. */
  function CorrectAnswer(q: Question): string
  {
    if |q.answers| > 0 then q.answers[0] else NoSelection
  }

  /** The selection marker that means "nothing selected". */
  const NoSelection: string := ""

  /** The index of a session that has not started yet. */
  const NotStartedIndex: int := -1

  /** The placeholder question shown before a session starts. */
  const PlaceholderQuestion: Question := Question("", [""])

  /** The state a freshly constructed record holds. */
  const DefaultUiState: UiState :=
    UiState(PlaceholderQuestion, [""], NotStartedIndex, NoSelection)

  /** True of the state before any question has been loaded: the placeholder
      question with its one empty answer, and the not-started index. The
      selection is free, since it may be set before a session starts. */
  predicate IsNotStarted(ui: UiState)
  {
    && ui.currentQuestion == PlaceholderQuestion
    && ui.answers == [""]
    && ui.questionIndex == NotStartedIndex
  }

  /** The default record is the not-started state with nothing selected, and
      the correct answer of its placeholder question is the empty string, so no
      non-empty selection can match it. */
  lemma DefaultIsNotStarted()
    ensures IsNotStarted(DefaultUiState)
    ensures DefaultUiState.selectedAnswer == NoSelection
    ensures |DefaultUiState.currentQuestion.answers| == 1
    ensures DefaultUiState.currentQuestion.answers[0] == NoSelection
    ensures DefaultUiState.questionIndex < 0
  {
  }
}
