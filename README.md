# QuizApp quiz session — a Dafny model

This project models the quiz-session state machine of the QuizApp Android client, the
`QuizViewModel` class. The view model holds the fetched trivia questions, the current
question index, the score, the selected answer and the answer lock. It also holds three
pending settings: the number of questions, the difficulty and the category.

- `Trivia.dfy` (module `Trivia`) holds the question records (`TriviaQuestion`,
  `TriviaResponse`). It also holds the mapping a successful fetch applies to the results:
  every question text, correct answer and incorrect answer goes through the HTML-entity
  decoder. The decoder is a parameter `decode: string -> string` about which nothing is
  assumed, so only the structure of the mapping is proved: same length, same order, field by
  field.
- `QuizSession.dfy` (module `QuizSession`) holds the session as a value and one pure
  transition per operation. These are the amount clamp of `fetchQuestions`,
  `getCurrentQuestion`, `selectAnswer`, `moveToNextQuestion` and applying a fetch result.
  It also holds the invariant: the index is not negative, a selected answer is present exactly
  while the lock is held, and `0 <= score <= index + (1 if locked else 0)`. Lemmas prove the
  invariant over any sequence of actions between resets, and that the score never decreases
  there. They prove that a locked selection is idempotent and that advancing on the last
  question is a no-op. They also prove the whole-quiz scenario: answering every fetched
  question correctly gives a summary of `score == total`.
- `ViewModel.dfy` (module `ViewModel`) holds the class `QuizViewModel`. Its fields are the
  view model's state cells. Its methods update them in place under `modifies this`, and each
  method's `ensures` ties the new state to the matching transition of `QuizSession`.

The network request of `fetchQuestions` is asynchronous. It is split in three.
`FetchQuestions` computes the request that would be sent: the amount clamped into [1, 50],
the category and difficulty unchanged. `FetchSucceeded` is the success branch that runs
when a response with a body arrives. `FetchFailed` is the else branch as written, which only
logs and changes nothing; no response of the HTTP client reaches it (see "Left out"). `StartNewQuiz` resets the session and returns the request.

Two behaviours of the code are modelled as they are:
- `updateSettings` stores the number of questions as given, with no clamping. Only the
  outgoing request is clamped.
- Nothing discards a late response to an earlier request. A response arriving after a newer
  `startNewQuiz` overwrites the question list. If the current index is not 0 and the new
  list has no more elements than the index, the index leaves the list's range. `QuizSession.StepKeepsIndexInRange` states
  exactly when this happens, and `getCurrentQuestion` then returns None. The score can then exceed the number of questions
  (`QuizSession.StaleResponseScoreExceedsTotal`); with a non-empty list and the index in range,
  that is in every state no late response has reached, it cannot (`QuizSession.SummaryWithinTotal`).

## Model

| member | source | states |
|---|---|---|
| `Trivia.DecodeEach` | app/src/main/java/com/example/quizapp/QuizViewModel.kt:96 | the decoded incorrect answers have the same length, and each one is the decoder applied to the answer at the same position |
| `Trivia.DecodeQuestion` | app/src/main/java/com/example/quizapp/QuizViewModel.kt:93-97 | the copy has the decoded question text and correct answer, and the incorrect answers decoded pointwise with the same count |
| `Trivia.DecodeResults` | app/src/main/java/com/example/quizapp/QuizViewModel.kt:92-98 | the decoded list has the length of the results, and element i is the decoded copy of result i |
| `Trivia.DecodeResultsAppend` | app/src/main/java/com/example/quizapp/QuizViewModel.kt:92-98 | decoding a concatenation is the concatenation of the decodings (the mapping is element by element) |
| `Trivia.DecodeResultsIdentity` | app/src/main/java/com/example/quizapp/QuizViewModel.kt:92-98 | with a decoder that changes no string, the decoded list equals the fetched one |
| `Trivia.DecodeEachIdentity` | app/src/main/java/com/example/quizapp/QuizViewModel.kt:96 | with a decoder that changes no string, the incorrect answers come back unchanged |
| `QuizSession.CoerceIn` | app/src/main/java/com/example/quizapp/QuizViewModel.kt:86 | the result lies in [lo, hi]; it equals x inside the range, lo below it, hi above it |
| `QuizSession.FetchRequest` | app/src/main/java/com/example/quizapp/QuizViewModel.kt:85-88 | the requested amount lies in [1, 50]: below 1 gives 1, above 50 gives 50, in range is unchanged; category and difficulty are passed on verbatim |
| `QuizSession.CurrentQuestion` | app/src/main/java/com/example/quizapp/QuizViewModel.kt:134-137 | a question is returned exactly when 0 <= index < number of questions, and it is the one at the index; otherwise None |
| `QuizSession.SelectAnswer` | app/src/main/java/com/example/quizapp/QuizViewModel.kt:110-118 | questions and index are kept and the lock is set; a locked session is returned unchanged; otherwise the answer becomes the selection, and the score rises by exactly 1 iff a current question exists and the answer is its correct answer |
| `QuizSession.MoveToNext` | app/src/main/java/com/example/quizapp/QuizViewModel.kt:123-129 | on the last question (or an empty list) nothing changes; otherwise the index rises by 1, the selection and the lock are cleared, and questions and score are kept |
| `QuizSession.ApplyFetchResults` | app/src/main/java/com/example/quizapp/QuizViewModel.kt:90-98 | the questions become a list of the same length as the results with element i the decoded result i; index, score, selection and lock are unchanged |
| `QuizSession.InitialSessionValid` | app/src/main/java/com/example/quizapp/QuizViewModel.kt:155-161 | the reset state satisfies the invariant, its index is in range, and it has no current question |
| `QuizSession.StepPreservesValid` | app/src/main/java/com/example/quizapp/QuizViewModel.kt:110-129 | selecting, advancing, a successful fetch and a failed fetch each keep the invariant and never lower the score |
| `QuizSession.RunPreservesValid` | app/src/main/java/com/example/quizapp/QuizViewModel.kt:110-129 | after any sequence of those actions the invariant still holds, the score has not decreased, and the score is at most the index plus one |
| `QuizSession.StepKeepsIndexInRange` | app/src/main/java/com/example/quizapp/QuizViewModel.kt:90-129 | selecting, advancing and a failed fetch keep the index in range; a successful fetch keeps it in range iff the index is 0 or below the new list's length |
| `QuizSession.SelectAnswerIdempotent` | app/src/main/java/com/example/quizapp/QuizViewModel.kt:110-111 | a second selection after the first changes nothing, so a question scores at most once |
| `QuizSession.SelectWithoutQuestionNeverScores` | app/src/main/java/com/example/quizapp/QuizViewModel.kt:111-116 | with no current question (empty list or index out of range) a selection locks but leaves the score unchanged |
| `QuizSession.LoadedSessionHasQuestion` | app/src/main/java/com/example/quizapp/QuizViewModel.kt:134-137 | a valid session with a non-empty list and its index in range has a current question |
| `QuizSession.FailureAfterResetStaysEmpty` | app/src/main/java/com/example/quizapp/QuizViewModel.kt:99-101 | a failed fetch after a reset leaves the empty session: no questions and no score |
| `QuizSession.AnswerAllCorrectlyScoresAll` | app/src/main/java/com/example/quizapp/QuizViewModel.kt:110-129 | answering each remaining question correctly and advancing after all but the last ends on the last question, locked, with one point per question |
| `QuizSession.PerfectQuizSummary` | app/src/main/java/com/example/quizapp/QuizViewModel.kt:90-129 | reset, a successful fetch of n questions and all answers correct give the summary n out of n |
| `QuizSession.PerfectQuizRun` | app/src/main/java/com/example/quizapp/QuizViewModel.kt:90-129 | reset, a successful fetch of n > 0 questions and all answers correct end on the last question, locked, with the selection its correct answer and score n |
| `QuizSession.SummaryWithinTotal` | app/src/main/java/com/example/quizapp/Screens.kt:155-160 | for a valid session with a non-empty list and its index in range, 0 <= score <= number of questions; this holds in every state no late response has reached, and `QuizSession.StaleResponseScoreExceedsTotal` gives the reachable case beyond it |
| `QuizSession.StaleResponseScoreExceedsTotal` | app/src/main/java/com/example/quizapp/QuizViewModel.kt:92 | a response with fewer questions arriving after a fully answered quiz overwrites the list unguarded: the invariant still holds but the summary is n out of m with n > m; with m > 0 the session is on its last question with the index out of range, so the results screen shows that summary |
| `QuizSession.RunAppend` | app/src/main/java/com/example/quizapp/QuizViewModel.kt:110-129 | running two event lists in turn is running their concatenation |
| `ViewModel.QuizViewModel.constructor` | app/src/main/java/com/example/quizapp/QuizViewModel.kt:23-65 | a new view model holds the empty session and the default settings (10 questions, "easy", no category) |
| `ViewModel.QuizViewModel.FetchQuestions` | app/src/main/java/com/example/quizapp/QuizViewModel.kt:85-88 | the request is `QuizSession.FetchRequest` of the arguments (amount clamped into [1, 50], category and difficulty as given); no state changes |
| `ViewModel.QuizViewModel.FetchSucceeded` | app/src/main/java/com/example/quizapp/QuizViewModel.kt:90-98 | the new session is the old one with the decoded results as its questions; settings unchanged; the invariant is kept |
| `ViewModel.QuizViewModel.FetchFailed` | app/src/main/java/com/example/quizapp/QuizViewModel.kt:99-101 | session and settings are unchanged (the else branch as written; see "Left out" on its reachability) |
| `ViewModel.QuizViewModel.SelectAnswer` | app/src/main/java/com/example/quizapp/QuizViewModel.kt:110-118 | the new session is `QuizSession.SelectAnswer` of the old one; settings unchanged; the invariant is kept and the score does not decrease |
| `ViewModel.QuizViewModel.MoveToNextQuestion` | app/src/main/java/com/example/quizapp/QuizViewModel.kt:123-129 | the new session is `QuizSession.MoveToNext` of the old one; settings unchanged; the invariant is kept |
| `ViewModel.QuizViewModel.GetCurrentQuestion` | app/src/main/java/com/example/quizapp/QuizViewModel.kt:134-137 | the result is the bounds-checked read `QuizSession.CurrentQuestion` of the fields |
| `ViewModel.QuizViewModel.UpdateSettings` | app/src/main/java/com/example/quizapp/QuizViewModel.kt:146-150 | the settings become exactly the three arguments, unclamped; the session is unchanged |
| `ViewModel.QuizViewModel.ResetQuizState` | app/src/main/java/com/example/quizapp/QuizViewModel.kt:155-161 | index 0, score 0, no questions, no selection, unlocked; settings unchanged |
| `ViewModel.QuizViewModel.StartNewQuiz` | app/src/main/java/com/example/quizapp/QuizViewModel.kt:172-175 | the session is reset, the settings are unchanged, and the returned request is the clamped `FetchRequest` of the arguments |

## Left out

- The HTML-entity decoding (`decodeHtmlEntities`, QuizViewModel.kt:74-76) calls the Apache Commons Text library, which is not part of this model. It is the uninterpreted parameter `decode`.
- The coroutine launch and the network call (QuizViewModel.kt:87-88) are I/O and asynchrony. The request is returned by `FetchQuestions`, and a successful response arrives through `FetchSucceeded`. The Retrofit setup and the endpoint interface are not part of this model.
- Failed fetches: line 89 dereferences the response body before the success test at line 90. The HTTP client gives every unsuccessful response a null body, and a transport error throws out of line 88. So every failure ends in an uncaught exception inside the coroutine, not in an unchanged session. `ViewModel.QuizViewModel.FetchFailed` and `QuizSession.FailureAfterResetStaysEmpty` model the else branch at lines 99-101 as written, which no response reaches. The exception is not modelled. The debugging and error messages (`println`) are left out.
- The order in which responses arrive is not modelled. Any interleaving of `FetchSucceeded` with the other operations is allowed, as in the code, which has no guard against late responses.
- The Compose screens (Screens.kt) are left out: the shuffling of the answers, the colours, the slider, and the category fetch. Only the last-question test and the results summary they compute are mirrored, as `QuizSession.IsLast` and `QuizSession.Summary`.
- Navigation, the activity and the category records hold no session behaviour.
- Kotlin's 32-bit `Int`: the index and the score are unbounded integers, so wrap-around at 2^31 is not modelled. Both are bounded by the length of a question list, so it cannot occur in practice.
- `ViewModel.QuizViewModel.SelectAnswer`, `MoveToNextQuestion` and `FetchSucceeded` require the session invariant, which the constructor establishes and every method keeps. The source states no such precondition, and no sequence of method calls can break it. Kotlin keeps these cells private or with private setters; Dafny cannot hide the fields of a class here, so a client that assigns a field directly can break it.
