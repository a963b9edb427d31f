/** The quiz progression state machine. The view model owns the question bank
    (a shared list that is reshuffled in place), the session length fixed when
    the view model is built, and the UI state record. Each operation is a pure
    function from the old view model to the new one; the randomness of the two
    shuffles is passed in as draws, and the exceptions an operation can raise are
    `Err` results. */
module GameViewModel {
  import opened Wrappers
  import opened Shuffling
  import opened GameUiState

  /** The session length for a bank of `bankSize` questions: half the bank,
      rounded up, but never more than three questions. */
  function NumQuestions(bankSize: nat): (k: nat)
    ensures k <= 3 && k <= bankSize
    ensures bankSize > 0 <==> k >= 1
    ensures k == 3 <==> bankSize >= 5
    ensures k < 3 ==> bankSize <= 2 * k <= bankSize + 1
  {
    var half := (bankSize + 1) / 2;
    if half < 3 then half else 3
  }

  datatype ViewModel = ViewModel(bank: seq<Question>, numQuestions: int, ui: UiState)

  /** What one grading step yields: the new view model, and the value the result
      listener was called with, if it was called (true: won, false: lost). */
  datatype Step = Step(vm: ViewModel, reported: Option<bool>)

  /** A view model as constructed over `bank`: the session length is computed
      once from the bank's size, and the UI state holds its defaults. */
  function NewViewModel(bank: seq<Question>): (vm: ViewModel)
    ensures vm.bank == bank
    ensures vm.numQuestions == NumQuestions(|bank|)
    ensures IsNotStarted(vm.ui) && vm.ui.selectedAnswer == NoSelection
    ensures |bank| > 0 ==> 1 <= vm.numQuestions <= |bank|
    ensures vm.numQuestions <= 3
  {
    ViewModel(bank, NumQuestions(|bank|), DefaultUiState)
  }

  /** Show question `i`: the current question becomes the bank's entry `i`,
      with its own answer order untouched, while the displayed answers are a
      shuffled copy. The selection is cleared. An index outside the bank raises. */
  function SetQuestion(vm: ViewModel, i: int, draws: seq<nat>): (r: Result<ViewModel>)
    ensures r.Ok? <==> 0 <= i < |vm.bank|
    ensures r.Err? ==> r.fault == IndexOutOfBounds(i, |vm.bank|)
    ensures r.Ok? ==>
      && r.value.bank == vm.bank
      && r.value.numQuestions == vm.numQuestions
      && r.value.ui.currentQuestion == vm.bank[i]
      && multiset(r.value.ui.answers) == multiset(vm.bank[i].answers)
      && r.value.ui.questionIndex == i
      && r.value.ui.selectedAnswer == NoSelection
  {
    if 0 <= i < |vm.bank| then
      var q := vm.bank[i];
      Ok(vm.(ui := vm.ui.(
        currentQuestion := q,
        answers := Shuffle(q.answers, draws),
        questionIndex := i,
        selectedAnswer := NoSelection)))
    else
      Err(IndexOutOfBounds(i, |vm.bank|))
  }

  /** Record a new question index and change nothing else. */
  function SetQuestionIndex(vm: ViewModel, i: int): (r: ViewModel)
    ensures r.ui.questionIndex == i
    ensures r.bank == vm.bank && r.numQuestions == vm.numQuestions
    ensures r.ui.currentQuestion == vm.ui.currentQuestion
    ensures r.ui.answers == vm.ui.answers
    ensures r.ui.selectedAnswer == vm.ui.selectedAnswer
  {
    vm.(ui := vm.ui.(questionIndex := i))
  }

  /** Record the user's choice, whether or not it is one of the displayed
      answers, and change nothing else. */
  function SetSelectedAnswer(vm: ViewModel, answer: string): (r: ViewModel)
    ensures r.ui.selectedAnswer == answer
    ensures r.bank == vm.bank && r.numQuestions == vm.numQuestions
    ensures r.ui.currentQuestion == vm.ui.currentQuestion
    ensures r.ui.answers == vm.ui.answers
    ensures r.ui.questionIndex == vm.ui.questionIndex
  {
    vm.(ui := vm.ui.(selectedAnswer := answer))
  }

  /** Start or restart a session: shuffle the bank in place, reset the UI
      state to its defaults and show the first question. An empty bank raises
      when its first question is read. */
  function RandomizeQuestions(vm: ViewModel, bankDraws: seq<nat>, answerDraws: seq<nat>)
    : (r: Result<ViewModel>)
    ensures r.Ok? <==> |vm.bank| > 0
    ensures r.Err? ==> r.fault == IndexOutOfBounds(0, 0)
    ensures r.Ok? ==>
      && multiset(r.value.bank) == multiset(vm.bank)
      && |r.value.bank| == |vm.bank|
      && r.value.numQuestions == vm.numQuestions
      && r.value.ui.questionIndex == 0
      && r.value.ui.currentQuestion == r.value.bank[0]
      && multiset(r.value.ui.answers) == multiset(r.value.bank[0].answers)
      && r.value.ui.selectedAnswer == NoSelection
  {
    var reset := ViewModel(Shuffle(vm.bank, bankDraws), vm.numQuestions, DefaultUiState);
    SetQuestion(reset, 0, answerDraws)
  }

  /** The selection equals the correct answer, the one at position 0 of the
      current question's own answer list (not of the shuffled display order). */
  predicate IsCorrect(ui: UiState)
  {
    |ui.currentQuestion.answers| > 0 && ui.selectedAnswer == CorrectAnswer(ui.currentQuestion)
  }

  /** Grade the selection. Nothing happens while nothing is selected. A correct
      answer moves on to the next question, or, on the last question, records
      an index one past it and reports a win. Any other answer reports a loss and
      changes nothing. Reading the correct answer of a question without answers
      raises, and so does moving to an index outside the bank. */
  function MatchAnswer(vm: ViewModel, answerDraws: seq<nat>): (r: Result<Step>)
    // nothing selected: no change, no report
    ensures vm.ui.selectedAnswer == NoSelection ==> r.Ok? && r.value.vm == vm && r.value.reported == None
    // the only exception sources
    ensures r.Err? <==>
      && vm.ui.selectedAnswer != NoSelection
      && (|| |vm.ui.currentQuestion.answers| == 0
          || (&& IsCorrect(vm.ui)
              && vm.ui.questionIndex + 1 < vm.numQuestions
              && !(0 <= vm.ui.questionIndex + 1 < |vm.bank|)))
    // a loss is reported exactly for a non-empty, wrong selection, and changes nothing
    ensures r.Err? && |vm.ui.currentQuestion.answers| == 0 ==> r.fault == IndexOutOfBounds(0, 0)
    ensures r.Err? && |vm.ui.currentQuestion.answers| > 0 ==>
      r.fault == IndexOutOfBounds(vm.ui.questionIndex + 1, |vm.bank|)
    ensures r.Ok? && r.value.reported == Some(false) <==>
      vm.ui.selectedAnswer != NoSelection && |vm.ui.currentQuestion.answers| > 0 && !IsCorrect(vm.ui)
    ensures r.Ok? && r.value.reported == Some(false) ==> r.value.vm == vm
    // a win is reported exactly for a correct answer to the last question
    ensures r.Ok? && r.value.reported == Some(true) <==>
      IsCorrect(vm.ui) && vm.ui.selectedAnswer != NoSelection
      && vm.ui.questionIndex + 1 >= vm.numQuestions
    ensures r.Ok? && r.value.reported == Some(true) ==>
      && r.value.vm.ui.questionIndex == vm.ui.questionIndex + 1
      && r.value.vm.ui.currentQuestion == vm.ui.currentQuestion
      && r.value.vm.ui.answers == vm.ui.answers
      && r.value.vm.ui.selectedAnswer == vm.ui.selectedAnswer
    // a correct answer to an earlier question shows the next bank entry
    ensures r.Ok? && r.value.reported == None && vm.ui.selectedAnswer != NoSelection ==>
      && IsCorrect(vm.ui)
      && r.value.vm.ui.questionIndex == vm.ui.questionIndex + 1 < vm.numQuestions
      && r.value.vm.ui.currentQuestion == vm.bank[vm.ui.questionIndex + 1]
      && multiset(r.value.vm.ui.answers) == multiset(vm.bank[vm.ui.questionIndex + 1].answers)
      && r.value.vm.ui.selectedAnswer == NoSelection
    // the bank and the session length are never touched
    ensures r.Ok? ==> r.value.vm.bank == vm.bank && r.value.vm.numQuestions == vm.numQuestions
  {
    var ui := vm.ui;
    if ui.selectedAnswer == NoSelection then
      Ok(Step(vm, None))
    else if |ui.currentQuestion.answers| == 0 then
      Err(IndexOutOfBounds(0, 0))
    else if ui.selectedAnswer == ui.currentQuestion.answers[0] then
      var nextIndex := ui.questionIndex + 1;
      if nextIndex < vm.numQuestions then
        match SetQuestion(vm, nextIndex, answerDraws)
        case Ok(next) => Ok(Step(next, None))
        case Err(e) => Err(e)
      else
        Ok(Step(SetQuestionIndex(vm, nextIndex), Some(true)))
    else
      Ok(Step(vm, Some(false)))
  }
}
