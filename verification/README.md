# Trivia quiz progression, modelled in Dafny

This project models the quiz engine of an Android trivia game: the
`GameViewModel` state machine and the `GameUiState` record it publishes. A
player presses Play, which reshuffles the question bank and shows the first
question with its answers in shuffled order. The player picks an answer and
submits it. A correct answer moves on to the next question, or, on the last
question of the session, reports a win. A wrong answer reports a loss. A
session asks `min((bankSize + 1) / 2, 3)` questions.

Modules:

- `Wrappers` (`wrappers.dfy`): `Option`, and `Result` with the one exception the
  code can raise (an index out of bounds).
- `Shuffling` (`shuffle.dfy`): the in-place list shuffle as a Fisher–Yates pass
  driven by caller-supplied draws. It is proved to produce a permutation, and
  every permutation is produced by some draws.
- `GameUiState` (`game_ui_state.dfy`): `Question`, the four-field `UiState` and
  its defaults.
- `GameViewModel` (`game_view_model.dfy`): the view model (bank, session length,
  UI state) and its operations as pure functions. The result listener becomes
  the `reported` field of a `Step`: `None` means the listener was not called,
  `Some(true)` means a win and `Some(false)` means a loss.
- `Session` (`session.dfy`): the invariant every reachable view model keeps, runs
  of commands, and one visit to the game screen up to its first reported result.
- `TriviaExamples` (`examples_bank.dfy`): the ten-question bank the app ships,
  and end-to-end sessions over a four-question bank.

Behaviour of the code that is easy to misread:

- The whole bank is shuffled in place. A session then visits only the first
  `numQuestions` entries of the shuffled bank.
- On an empty bank, `randomizeQuestions` shuffles it, resets the UI state and
  then fails reading question 0. The model returns `Err(IndexOutOfBounds(0, 0))`.
- The listener is the only report. It is not called when nothing is selected,
  and not called after a correct answer with questions left. Otherwise it is
  called once, with `true` for a win and `false` for a loss.
- The record's doc comment gives the default question index as 0. The code
  gives -1, the not-started marker, and the model uses -1.
- A report does not end anything in the view model. A loss changes nothing, so
  the same question can be answered again. After a win the correct answer stays
  selected. Submitting it again reports another win and moves the index past
  the session length (`Session.ResubmitAfterWin`), and the share button, shown
  only while the index equals the session length, disappears. The app can
  reach both cases. A report navigates to the won or game-over screen without
  removing the game screen from the back stack (MainActivity.kt lines 122-127),
  so the system Back button returns to the game screen in the same state. The
  top bar's Up button (MainActivity.kt line 88) and the next-match and
  try-again listeners of the won and game-over screens (lines 146 and 153)
  call `randomizeQuestions` on the way back to the title screen; the system
  Back button calls nothing. `Session.PlayScreen` models one visit to the game screen, up to
  its first report, and `Session.PlayScreenBounds` proves the index bounds over
  such a visit.

## Model

| member | source | states |
|---|---|---|
| GameViewModel.NumQuestions | app/src/main/java/com/example/android/navigation/viewmodels/GameViewModel.kt:14 | the session length is half the bank rounded up, capped at 3: it is at most 3 and at most the bank size, at least 1 exactly when the bank is non-empty, 3 exactly when the bank has 5 or more questions, and otherwise satisfies `n <= 2k <= n + 1` |
| GameViewModel.NewViewModel | app/src/main/java/com/example/android/navigation/viewmodels/GameViewModel.kt:11-14 | a new view model holds the given bank and the default, not-started UI state, and its session length is `NumQuestions` of the bank size, so between 1 and the bank size for a non-empty bank |
| GameViewModel.SetQuestion | app/src/main/java/com/example/android/navigation/viewmodels/GameViewModel.kt:26-37 | succeeds exactly for an index inside the bank and raises otherwise; it shows bank entry `i` with its original answer order, displays a permutation of its answers, records index `i` and clears the selection, without touching the bank |
| GameViewModel.SetQuestionIndex | app/src/main/java/com/example/android/navigation/viewmodels/GameViewModel.kt:40-46 | only the question index changes; the question, displayed answers, selection, bank and session length are kept |
| GameViewModel.SetSelectedAnswer | app/src/main/java/com/example/android/navigation/viewmodels/GameViewModel.kt:49-55 | any string becomes the selection, with no check against the displayed answers; every other field and the bank are kept |
| GameViewModel.RandomizeQuestions | app/src/main/java/com/example/android/navigation/viewmodels/GameViewModel.kt:18-23 | succeeds exactly when the bank is non-empty; the new bank is a permutation of the old one, the session length is kept, the index is 0, the first bank entry is shown with a permutation of its answers, and nothing is selected |
| GameViewModel.MatchAnswer | app/src/main/java/com/example/android/navigation/viewmodels/GameViewModel.kt:57-76 | with nothing selected it changes nothing and reports nothing. A loss is reported exactly for a non-empty answer other than the question's original first answer, and leaves the state unchanged. A win is reported exactly for a correct answer to the last question: the index goes up by one and the other fields stay. A correct earlier answer shows the next bank entry, clears the selection and reports nothing. It raises only for a question with no answers (fault at index 0 of an empty list), or for a next index outside the bank (fault at that index). The bank is never touched |
| Shuffling.Shuffle | app/src/main/java/com/example/android/navigation/viewmodels/GameViewModel.kt:19 | a shuffle returns a permutation of its input: same length, same multiset |
| Shuffling.ShuffleReachesEvery | app/src/main/java/com/example/android/navigation/viewmodels/GameViewModel.kt:30-32 | every permutation of a list is the shuffle produced by some draws, so the shuffles of a list are exactly its permutations |
| GameUiState.DefaultIsNotStarted | app/src/main/java/com/example/android/navigation/data/GameUiState.kt:9-14 | the default record shows the placeholder question `("", [""])` with answers `[""]`, has index -1 and nothing selected, and its placeholder's correct answer is the empty string |
| Session.NewViewModelInv | app/src/main/java/com/example/android/navigation/viewmodels/GameViewModel.kt:12-14 | a view model built over a valid bank starts in the invariant's not-started phase |
| Session.ValidBankPermutation | app/src/main/java/com/example/android/navigation/viewmodels/GameViewModel.kt:19 | reshuffling keeps a bank valid: non-empty, every question with at least one answer |
| Session.ExecInv | app/src/main/java/com/example/android/navigation/viewmodels/GameViewModel.kt:18-76 | from a state in the invariant (not started, in progress on a shown bank entry, or won), Play, select and submit never raise; each keeps the invariant, keeps the bank a permutation of itself and keeps the session length |
| Session.RunInv | app/src/main/java/com/example/android/navigation/viewmodels/GameViewModel.kt:18-76 | over any sequence of commands nothing raises, the invariant holds at the end, the bank is a permutation of the starting bank, and the session length still matches the bank size |
| Session.SubmitInProgress | app/src/main/java/com/example/android/navigation/viewmodels/GameViewModel.kt:57-76 | grading a question in progress never raises. A win is reported exactly when the index becomes the session length, and then the last session question is still shown. A loss changes nothing. Without a win the session stays in progress |
| Session.PlayScreenBounds | app/src/main/java/com/example/android/navigation/viewmodels/GameViewModel.kt:49-76 | over one visit to the game screen, from a question in progress until the first report: nothing raises, `0 <= index <= numQuestions`, the index equals the session length exactly when a win was reported, and otherwise the session is still in progress. This is the share button's condition at MainActivity.kt line 217 |
| Session.ResubmitAfterWin | app/src/main/java/com/example/android/navigation/viewmodels/GameViewModel.kt:61-70 | after a win the view model does not stop a second submission of the still-selected correct answer: it reports a win again and moves the index past the session length; if that correct answer is the empty string, the submission changes nothing and reports nothing |
| TriviaExamples.TriviaBankSession | app/src/main/java/com/example/android/navigation/GameFragment.kt:62-100 | the shipped ten-question bank is valid, every question has four answers and a non-empty correct answer, and a session over it asks 3 questions |
| TriviaExamples.Started | app/src/main/java/com/example/android/navigation/MainActivity.kt:113-116 | pressing Play on a new view model over a valid bank gives a session in progress at index 0 over a permutation of the bank |
| TriviaExamples.FourQuestionBankWin | app/src/main/java/com/example/android/navigation/viewmodels/GameViewModel.kt:57-70 | over any valid four-question bank whose correct answers are non-empty, and any draws, the session has 2 questions; a correct first answer moves to index 1 without a report, and a correct second answer reports a win at index 2 |
| TriviaExamples.WrongFirstAnswerLoses | app/src/main/java/com/example/android/navigation/viewmodels/GameViewModel.kt:71-74 | any non-empty wrong answer to the first question reports a loss and leaves the state unchanged, whatever the rest of the bank holds |

## Left out

- Kotlin coroutine flows (`MutableStateFlow`, `StateFlow`, `update`): the state is a plain value that each operation replaces as a whole.
- The Compose UI, theming, top bar, menus and previews, and the navigation host, the `Toast` and the share `Intent`: they only display the state or route on the reported result.
- `GameFragment.kt`, the older Fragment-based copy of the same logic. Only its question bank is used, as `TriviaExamples.TriviaBank`.
- `DataSource` is not part of this model. The process-wide question list it holds is the `bank` field of the view model.
- The random generator: draws are arbitrary naturals, so the model says which orders are possible, not how likely each one is.
- GameViewModel.NumQuestions: computed on unbounded integers. The Kotlin `size + 1` would overflow only for a bank of 2^31 - 1 questions, which is not modelled.
- GameViewModel.MatchAnswer: computes `questionIndex + 1` on unbounded integers. In the source it is a 32-bit `Int` that wraps from 2^31 - 1 to -2^31, after which `setQuestion` raises; the model instead reports yet another win. Reaching that index takes about 2^31 repeated submissions after a win.
- Session.RunInv: "nothing raises" holds for the unbounded-integer model. For the 32-bit program it fails after about 2^31 repeated correct submissions following a win, when the index wraps (see the line above).
- Exceptions raised inside the listener or the UI are not modelled. An exception from the view model is an `Err` result, and the state it leaves behind is not modelled.
