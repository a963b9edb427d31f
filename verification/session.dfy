/** What the quiz state machine guarantees over whole runs. A session moves
    NotStarted -> InProgress(0 .. numQuestions - 1) -> Won, and a loss is a report
    that leaves the state where it was. A report navigates away from the game
    screen, so one visit to that screen lasts until its first report; the
    system Back button can bring the player back to it in the same state, which
    `Run` covers as further commands. */
module Session {
  import opened Wrappers
  import opened Shuffling
  import opened GameUiState
  import opened GameViewModel

  /** A question whose correct answer can be read: it has at least one
      answer. Grading a question without answers raises. */
  predicate Answerable(q: Question)
  {
    |q.answers| > 0
  }

  /** A bank the game can be played on without raising: non-empty, every
      question answerable. A question whose correct answer is the empty string
      is allowed; it can never be answered correctly, since selecting the empty
      string means selecting nothing. */
  predicate ValidBank(bank: seq<Question>)
  {
    |bank| > 0 && forall q :: q in bank ==> Answerable(q)
  }

  /** The screen shows bank entry `i` with a shuffled copy of its answers. */
  predicate Showing(vm: ViewModel, i: int)
  {
    && 0 <= i < |vm.bank|
    && vm.ui.currentQuestion == vm.bank[i]
    && multiset(vm.ui.answers) == multiset(vm.bank[i].answers)
  }

  /** In progress: the index is a question of the session, and it is shown. */
  predicate InProgress(vm: ViewModel)
  {
    0 <= vm.ui.questionIndex < vm.numQuestions && Showing(vm, vm.ui.questionIndex)
  }

  /** Won: the index has reached the session length, and the last question of
      the session is still on screen. */
  predicate HasWon(vm: ViewModel)
  {
    vm.ui.questionIndex >= vm.numQuestions && Showing(vm, vm.numQuestions - 1)
  }

  /** The invariant every reachable view model keeps. */
  predicate Inv(vm: ViewModel)
  {
    && ValidBank(vm.bank)
    && vm.numQuestions == NumQuestions(|vm.bank|)
    && (IsNotStarted(vm.ui) || InProgress(vm) || HasWon(vm))
  }

  /** A freshly built view model over a valid bank satisfies the invariant. */
  lemma NewViewModelInv(bank: seq<Question>)
    requires ValidBank(bank)
    ensures Inv(NewViewModel(bank))
  {
  }

  /** The bank stays valid when it is reshuffled. */
  lemma {:induction false} ValidBankPermutation(bank: seq<Question>, bank': seq<Question>)
    requires ValidBank(bank)
    requires multiset(bank') == multiset(bank)
    ensures ValidBank(bank')
  {
    PermutationLength(bank, bank');
    forall q | q in bank'
      ensures Answerable(q)
    {
      assert q in multiset(bank');
      assert q in bank;
    }
  }

  /** The events that reach the view model: the Play button, choosing an
      answer, and the Submit button. Each carries the draws its shuffles use. */
  datatype Command =
    | Play(bankDraws: seq<nat>, answerDraws: seq<nat>)
    | Select(answer: string)
    | Submit(answerDraws: seq<nat>)

  /** Apply one command. */
  function Exec(vm: ViewModel, c: Command): Result<Step>
  {
    match c
    case Play(bankDraws, answerDraws) =>
      (match RandomizeQuestions(vm, bankDraws, answerDraws)
       case Ok(vm') => Ok(Step(vm', None))
       case Err(e) => Err(e))
    case Select(answer) => Ok(Step(SetSelectedAnswer(vm, answer), None))
    case Submit(answerDraws) => MatchAnswer(vm, answerDraws)
  }

  /** Every command, from a state that keeps the invariant, succeeds, keeps the
      invariant, keeps the bank a permutation of itself, and does not change the
      session length. */
  lemma ExecInv(vm: ViewModel, c: Command)
    requires Inv(vm)
    ensures Exec(vm, c).Ok?
    ensures Inv(Exec(vm, c).value.vm)
    ensures multiset(Exec(vm, c).value.vm.bank) == multiset(vm.bank)
    ensures Exec(vm, c).value.vm.numQuestions == vm.numQuestions
  {
    match c
    case Play(bankDraws, answerDraws) =>
      var vm' := RandomizeQuestions(vm, bankDraws, answerDraws).value;
      ValidBankPermutation(vm.bank, vm'.bank);
    case Select(answer) =>
    case Submit(answerDraws) =>
      if !IsNotStarted(vm.ui) {
        assert vm.ui.currentQuestion in vm.bank;
      }
  }

  /** Apply commands in order, stopping at the first exception. */
  function Run(vm: ViewModel, cmds: seq<Command>): Result<ViewModel>
    decreases |cmds|
  {
    if |cmds| == 0 then Ok(vm)
    else
      match Exec(vm, cmds[0])
      case Ok(step) => Run(step.vm, cmds[1..])
      case Err(e) => Err(e)
  }

  /** Over any sequence of commands, from a state that keeps the invariant,
      nothing raises, the invariant holds at the end, and the bank is a
      permutation of the bank at the start. In particular the session length
      fixed at construction still matches the bank's size. */
  lemma {:induction false} RunInv(vm: ViewModel, cmds: seq<Command>)
    requires Inv(vm)
    ensures Run(vm, cmds).Ok?
    ensures Inv(Run(vm, cmds).value)
    ensures multiset(Run(vm, cmds).value.bank) == multiset(vm.bank)
    ensures Run(vm, cmds).value.numQuestions == NumQuestions(|vm.bank|)
    decreases |cmds|
  {
    if |cmds| > 0 {
      ExecInv(vm, cmds[0]);
      var step := Exec(vm, cmds[0]).value;
      RunInv(step.vm, cmds[1..]);
      PermutationLength(step.vm.bank, vm.bank);
    }
  }

  /** The events the game screen delivers: choosing an answer and submitting. */
  datatype ScreenCommand = Choose(answer: string) | Grade(answerDraws: seq<nat>)

  /** One visit to the game screen: deliver commands until the first
      reported result, which navigates away; the remaining commands are not
      delivered on this visit. */
  function PlayScreen(vm: ViewModel, cmds: seq<ScreenCommand>): Result<Step>
    decreases |cmds|
  {
    if |cmds| == 0 then Ok(Step(vm, None))
    else
      var r := match cmds[0]
        case Choose(answer) => Ok(Step(SetSelectedAnswer(vm, answer), None))
        case Grade(answerDraws) => MatchAnswer(vm, answerDraws);
      match r
      case Err(e) => Err(e)
      case Ok(step) =>
        if step.reported.Some? then Ok(step) else PlayScreen(step.vm, cmds[1..])
  }

  /** One grading step in progress: it succeeds; a win leaves the index equal
      to the session length, with the last question on screen; a loss changes
      nothing; otherwise the session is still in progress. */
  lemma SubmitInProgress(vm: ViewModel, answerDraws: seq<nat>)
    requires Inv(vm) && InProgress(vm)
    ensures MatchAnswer(vm, answerDraws).Ok?
    ensures var step := MatchAnswer(vm, answerDraws).value;
      && Inv(step.vm)
      && step.vm.bank == vm.bank
      && (step.reported == Some(true) <==> step.vm.ui.questionIndex == vm.numQuestions)
      && (step.reported == Some(true) ==> HasWon(step.vm))
      && (step.reported == Some(false) ==> step.vm == vm)
      && (step.reported != Some(true) ==> InProgress(step.vm))
  {
    assert vm.ui.currentQuestion in vm.bank;
  }

  /** One visit to the game screen: from a question in progress, the index
      stays below the session length until a win is reported, and equals it
      exactly when one is; a loss leaves the session in progress. The bank is
      not touched. */
  lemma {:induction false} PlayScreenBounds(vm: ViewModel, cmds: seq<ScreenCommand>)
    requires Inv(vm) && InProgress(vm)
    ensures PlayScreen(vm, cmds).Ok?
    ensures var step := PlayScreen(vm, cmds).value;
      && Inv(step.vm)
      && step.vm.bank == vm.bank
      && 0 <= step.vm.ui.questionIndex <= step.vm.numQuestions
      && (step.reported == Some(true) <==> step.vm.ui.questionIndex == step.vm.numQuestions)
      && (step.reported != Some(true) ==> InProgress(step.vm))
    decreases |cmds|
  {
    if |cmds| > 0 {
      match cmds[0]
      case Choose(answer) =>
        PlayScreenBounds(SetSelectedAnswer(vm, answer), cmds[1..]);
      case Grade(answerDraws) =>
        SubmitInProgress(vm, answerDraws);
        var step := MatchAnswer(vm, answerDraws).value;
        if step.reported.None? {
          PlayScreenBounds(step.vm, cmds[1..]);
        }
    }
  }

  /** The view model does not stop a second grading after a win, which the
      app reaches when the system Back button returns to the game screen: the
      still-selected correct answer reports another win and moves the index
      past the session length. */
  lemma ResubmitAfterWin(vm: ViewModel, answerDraws: seq<nat>)
    requires Inv(vm) && HasWon(vm) && IsCorrect(vm.ui)
    ensures MatchAnswer(vm, answerDraws).Ok?
    ensures vm.ui.selectedAnswer != NoSelection ==>
      && MatchAnswer(vm, answerDraws).value.reported == Some(true)
      && MatchAnswer(vm, answerDraws).value.vm.ui.questionIndex > vm.numQuestions
    ensures vm.ui.selectedAnswer == NoSelection ==>
      MatchAnswer(vm, answerDraws).value == Step(vm, None)
  {
    assert vm.ui.currentQuestion in vm.bank;
  }
}
