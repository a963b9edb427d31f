/** The game played end to end: the ten-question bank the app ships with, a
    two-question session won, and a session lost on its first question. */
module TriviaExamples {
  import opened Wrappers
  import opened GameUiState
  import opened GameViewModel
  import opened Session

  /** The ten questions of the app's bank, correct answer first. */
  const TriviaBank: seq<Question> := [
    Question("What is Android Jetpack?", ["all of these", "tools", "documentation", "libraries"]),
    Question("Base class for Layout?", ["ViewGroup", "ViewSet", "ViewCollection", "ViewRoot"]),
    Question("Layout for complex Screens?", ["ConstraintLayout", "GridLayout", "LinearLayout", "FrameLayout"]),
    Question("Pushing structured data into a Layout?", ["Data Binding", "Data Pushing", "Set Text", "OnClick"]),
    Question("Inflate layout in fragments?", ["onCreateView", "onViewCreated", "onCreateLayout", "onInflateLayout"]),
    Question("Build system for Android?", ["Gradle", "Graddle", "Grodle", "Groyle"]),
    Question("Android vector format?", ["VectorDrawable", "AndroidVectorDrawable", "DrawableVector", "AndroidVector"]),
    Question("Android Navigation Component?", ["NavController", "NavCentral", "NavMaster", "NavSwitcher"]),
    Question("Registers app with launcher?", ["intent-filter", "app-registry", "launcher-registry", "app-launcher"]),
    Question("Mark a layout for Data Binding?", ["<layout>", "<binding>", "<data-binding>", "<dbinding>"])
  ]

  /** The shipped bank is playable, every question has four answers, and a
      session over it asks three questions. */
  lemma TriviaBankSession()
    ensures ValidBank(TriviaBank) && Winnable(TriviaBank)
    ensures forall q :: q in TriviaBank ==> |q.answers| == 4
    ensures NewViewModel(TriviaBank).numQuestions == 3
  {
    forall i | 0 <= i < |TriviaBank|
      ensures |TriviaBank[i].answers| == 4 && |TriviaBank[i].answers[0]| > 0
    {
    }
  }

  /** A new view model over a valid bank after the Play button. */
  function Started(bank: seq<Question>, bankDraws: seq<nat>, answerDraws: seq<nat>): (vm: ViewModel)
    requires ValidBank(bank)
    ensures Inv(vm) && InProgress(vm)
    ensures vm.ui.questionIndex == 0 && vm.numQuestions == NumQuestions(|bank|)
    ensures multiset(vm.bank) == multiset(bank)
  {
    var vm0 := NewViewModel(bank);
    NewViewModelInv(bank);
    ExecInv(vm0, Play(bankDraws, answerDraws));
    RandomizeQuestions(vm0, bankDraws, answerDraws).value
  }

  /** A bank every question of which can be answered correctly: its correct
      answer is not the "nothing selected" marker. */
  predicate Winnable(bank: seq<Question>)
  {
    forall q :: q in bank ==> CorrectAnswer(q) != NoSelection
  }

  /** A bank of four questions gives a two-question session: answering the
      first correctly moves on to index 1 without a report, and answering the
      second correctly reports a win with the index at 2. */
  lemma {:induction false} FourQuestionBankWin(
    bank: seq<Question>, bankDraws: seq<nat>, d0: seq<nat>, d1: seq<nat>, d2: seq<nat>)
    requires ValidBank(bank) && Winnable(bank) && |bank| == 4
    ensures var vm := Started(bank, bankDraws, d0);
      && vm.numQuestions == 2
      && MatchAnswer(SetSelectedAnswer(vm, CorrectAnswer(vm.ui.currentQuestion)), d1).Ok?
      && var first := MatchAnswer(SetSelectedAnswer(vm, CorrectAnswer(vm.ui.currentQuestion)), d1).value;
      && first.reported == None
      && first.vm.ui.questionIndex == 1
      && MatchAnswer(SetSelectedAnswer(first.vm, CorrectAnswer(first.vm.ui.currentQuestion)), d2).Ok?
      && var second := MatchAnswer(SetSelectedAnswer(first.vm, CorrectAnswer(first.vm.ui.currentQuestion)), d2).value;
      && second.reported == Some(true)
      && second.vm.ui.questionIndex == 2
  {
    var vm := Started(bank, bankDraws, d0);
    assert vm.numQuestions == 2 by {
      assert NumQuestions(4) == 2;
    }
    var vm1 := SetSelectedAnswer(vm, CorrectAnswer(vm.ui.currentQuestion));
    assert vm.ui.currentQuestion in vm.bank;
    assert vm.ui.currentQuestion in multiset(bank) by {
      assert vm.ui.currentQuestion in multiset(vm.bank);
    }
    assert IsCorrect(vm1.ui) && vm1.ui.selectedAnswer != NoSelection;
    SubmitInProgress(vm1, d1);
    var first := MatchAnswer(vm1, d1).value;
    assert first.reported == None;
    assert first.vm.ui.questionIndex == 1;
    var vm2 := SetSelectedAnswer(first.vm, CorrectAnswer(first.vm.ui.currentQuestion));
    assert first.vm.ui.currentQuestion in first.vm.bank;
    assert first.vm.ui.currentQuestion in multiset(bank) by {
      assert first.vm.ui.currentQuestion in multiset(first.vm.bank);
    }
    assert IsCorrect(vm2.ui) && vm2.ui.selectedAnswer != NoSelection;
    SubmitInProgress(vm2, d2);
    var second := MatchAnswer(vm2, d2).value;
    assert second.reported == Some(true);
  }

  /** Any non-empty wrong answer to the first question loses at once, whatever
      the rest of the session holds, and leaves the session where it was. */
  lemma WrongFirstAnswerLoses(
    bank: seq<Question>, bankDraws: seq<nat>, d0: seq<nat>, d1: seq<nat>, answer: string)
    requires ValidBank(bank)
    requires answer != NoSelection
    ensures var vm := SetSelectedAnswer(Started(bank, bankDraws, d0), answer);
      answer != CorrectAnswer(vm.ui.currentQuestion) ==> MatchAnswer(vm, d1) == Ok(Step(vm, Some(false)))
  {
    var started := Started(bank, bankDraws, d0);
    assert started.ui.currentQuestion in started.bank;
  }
}
