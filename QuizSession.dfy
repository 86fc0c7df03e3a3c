/** The quiz session of `QuizViewModel` as a value, with one pure transition per operation.
    The class in module ViewModel changes its fields exactly as these functions say; the
    lemmas here state what the transitions guarantee over any sequence of user actions. */
module QuizSession {
  import opened Trivia

  /** The session part of the view model's state. */
  datatype Session = Session(
    questions: seq<TriviaQuestion>,
    index: int,
    score: int,
    selectedAnswer: Option<string>,
    isAnswerSelected: bool)

  /** The pending settings edited on the settings screen. */
  datatype Settings = Settings(numOfQuestions: int, difficulty: string, category: Option<int>)

  /** The parameters of one question request to the trivia service. */
  datatype QuestionRequest = QuestionRequest(amount: int, category: Option<int>, difficulty: Option<string>)

  const MinAmount := 1
  const MaxAmount := 50

  /** The state right after a reset: no questions, first index, no score, nothing selected. */
  const InitialSession := Session([], 0, 0, None, false)

  /** The settings a fresh view model starts with. */
  const DefaultSettings := Settings(10, "easy", None)

  /** Kotlin's `coerceIn`: the value if it lies in [lo, hi], otherwise the nearer bound. */
  function CoerceIn(x: int, lo: int, hi: int): (r: int)
    requires lo <= hi
    ensures lo <= r <= hi
    ensures lo <= x <= hi ==> r == x
    ensures x < lo ==> r == lo
    ensures x > hi ==> r == hi
  {
    if x < lo then lo else if x > hi then hi else x
  }

  /** The request `fetchQuestions` issues: the amount clamped into [1, 50], category and
      difficulty passed on verbatim. */
  function FetchRequest(amount: int, category: Option<int>, difficulty: Option<string>): (r: QuestionRequest)
    ensures MinAmount <= r.amount <= MaxAmount
    ensures MinAmount <= amount <= MaxAmount ==> r.amount == amount
    ensures amount < MinAmount ==> r.amount == MinAmount
    ensures amount > MaxAmount ==> r.amount == MaxAmount
    ensures r.category == category && r.difficulty == difficulty
  {
    QuestionRequest(CoerceIn(amount, MinAmount, MaxAmount), category, difficulty)
  }

  /** `getCurrentQuestion`: the question at the current index, or None when the index is
      outside the list (including a negative index and the empty list). */
  function CurrentQuestion(s: Session): (r: Option<TriviaQuestion>)
    ensures r.Some? <==> 0 <= s.index < |s.questions|
    ensures r.Some? ==> r.value == s.questions[s.index]
  {
    if 0 <= s.index < |s.questions| then Some(s.questions[s.index]) else None
  }

  /** True when `answer` is the correct answer of an existing current question. */
  predicate IsCorrect(s: Session, answer: string)
  {
    CurrentQuestion(s).Some? && answer == CurrentQuestion(s).value.correctAnswer
  }

  /** `selectAnswer`: a locked session is left alone; otherwise the answer is recorded and
      locked, and the score goes up by one exactly when the answer is correct. */
  function SelectAnswer(s: Session, answer: string): (r: Session)
    ensures r.questions == s.questions && r.index == s.index
    ensures r.isAnswerSelected
    ensures s.isAnswerSelected ==> r == s
    ensures !s.isAnswerSelected ==> r.selectedAnswer == Some(answer)
    ensures r.score == if !s.isAnswerSelected && IsCorrect(s, answer) then s.score + 1 else s.score
  {
    if s.isAnswerSelected then s
    else
      var scored := IsCorrect(s, answer);
      s.(selectedAnswer := Some(answer),
         isAnswerSelected := true,
         score := if scored then s.score + 1 else s.score)
  }

  /** The caller-side test for the last question (`Finish Quiz` instead of `Next Question`). */
  predicate IsLast(s: Session)
  {
    !(s.index < |s.questions| - 1)
  }

  /** `moveToNextQuestion`: advances and unlocks only while not on the last question. */
  function MoveToNext(s: Session): (r: Session)
    ensures IsLast(s) ==> r == s
    ensures !IsLast(s) ==> r.index == s.index + 1 && r.questions == s.questions && r.score == s.score
    ensures !IsLast(s) ==> r.selectedAnswer == None && !r.isAnswerSelected
  {
    if s.index < |s.questions| - 1 then
      s.(index := s.index + 1, selectedAnswer := None, isAnswerSelected := false)
    else s
  }

  /** A successful fetch replaces the questions by their decoded copies and nothing else. */
  function ApplyFetchResults(s: Session, decode: string -> string, results: seq<TriviaQuestion>): (r: Session)
    ensures |r.questions| == |results|
    ensures forall i :: 0 <= i < |results| ==> r.questions[i] == DecodeQuestion(decode, results[i])
    ensures r.index == s.index && r.score == s.score
    ensures r.selectedAnswer == s.selectedAnswer && r.isAnswerSelected == s.isAnswerSelected
  {
    s.(questions := DecodeResults(decode, results))
  }

  /** The session invariant: the index is not negative, a selected answer is present exactly
      while the lock is held, and the score is at most the index plus the lock. */
  ghost predicate Valid(s: Session)
  {
    && 0 <= s.index
    && (s.selectedAnswer.Some? <==> s.isAnswerSelected)
    && 0 <= s.score <= s.index + (if s.isAnswerSelected then 1 else 0)
  }

  /** The index points into the list, or is 0 while the list is empty. */
  ghost predicate IndexInRange(s: Session)
  {
    0 <= s.index && (s.index == 0 || s.index < |s.questions|)
  }

  /** The summary the results screen shows: the score out of the number of questions. */
  datatype ResultsSummary = ResultsSummary(score: int, total: int)

  function Summary(s: Session): ResultsSummary
  {
    ResultsSummary(s.score, |s.questions|)
  }

  /** The actions that reach a session between two resets. */
  datatype Event =
    | Select(answer: string)
    | Next
    | Fetched(body: TriviaResponse)
    | FetchFailedWith(message: string)

  function Step(s: Session, decode: string -> string, e: Event): Session
  {
    match e
    case Select(a) => SelectAnswer(s, a)
    case Next => MoveToNext(s)
    case Fetched(body) => ApplyFetchResults(s, decode, body.results)
    case FetchFailedWith(_) => s
  }

  /** The session after the events, applied first to last. */
  function Run(s: Session, decode: string -> string, events: seq<Event>): Session
    decreases |events|
  {
    if events == [] then s else Run(Step(s, decode, events[0]), decode, events[1..])
  }

  /** The reset establishes both invariants. */
  lemma InitialSessionValid()
    ensures Valid(InitialSession) && IndexInRange(InitialSession)
    ensures CurrentQuestion(InitialSession) == None
  {
  }

  /** Every single step keeps the invariant and never lowers the score. */
  lemma StepPreservesValid(s: Session, decode: string -> string, e: Event)
    requires Valid(s)
    ensures Valid(Step(s, decode, e))
    ensures Step(s, decode, e).score >= s.score
  {
  }

  /** Over any sequence of actions between resets the invariant holds and the score does not
      decrease; in particular the score never exceeds the index plus one. */
  lemma {:induction false} RunPreservesValid(s: Session, decode: string -> string, events: seq<Event>)
    requires Valid(s)
    ensures Valid(Run(s, decode, events))
    ensures Run(s, decode, events).score >= s.score
    ensures Run(s, decode, events).score <= Run(s, decode, events).index + 1
    decreases |events|
  {
    if events != [] {
      StepPreservesValid(s, decode, events[0]);
      RunPreservesValid(Step(s, decode, events[0]), decode, events[1..]);
    }
  }

  /** Selecting and advancing keep the index in range; a fetch keeps it in range exactly when
      the new list still reaches the current index (a late response for an earlier request can
      be shorter, and then the current question reads as None). */
  lemma StepKeepsIndexInRange(s: Session, decode: string -> string, e: Event)
    requires IndexInRange(s)
    ensures !e.Fetched? ==> IndexInRange(Step(s, decode, e))
    ensures e.Fetched? ==>
              (IndexInRange(Step(s, decode, e)) <==> s.index == 0 || s.index < |e.body.results|)
  {
  }

  /** A second selection on the same question changes nothing: no answer scores twice. */
  lemma SelectAnswerIdempotent(s: Session, first: string, second: string)
    ensures SelectAnswer(SelectAnswer(s, first), second) == SelectAnswer(s, first)
    ensures SelectAnswer(s, first).score <= s.score + 1
  {
  }

  /** With no current question a selection locks but never scores. */
  lemma SelectWithoutQuestionNeverScores(s: Session, answer: string)
    requires CurrentQuestion(s) == None
    ensures SelectAnswer(s, answer).score == s.score
    ensures SelectAnswer(s, answer).isAnswerSelected
  {
  }

  /** A loaded session whose index is in range has a current question. */
  lemma LoadedSessionHasQuestion(s: Session)
    requires Valid(s) && IndexInRange(s) && |s.questions| > 0
    ensures CurrentQuestion(s).Some?
  {
  }

  /** A failed fetch on a freshly reset session leaves it empty: no question, no score. */
  lemma FailureAfterResetStaysEmpty(decode: string -> string, message: string)
    ensures Run(InitialSession, decode, [FetchFailedWith(message)]) == InitialSession
  {
  }

  /** The events of a user who answers every question from index `i` on correctly, pressing
      `Next Question` after every question but the last. */
  function AnswerAllCorrectly(qs: seq<TriviaQuestion>, i: nat): seq<Event>
    decreases |qs| - i
  {
    if i >= |qs| then []
    else if i == |qs| - 1 then [Select(qs[i].correctAnswer)]
    else [Select(qs[i].correctAnswer), Next] + AnswerAllCorrectly(qs, i + 1)
  }

  /** Answering every remaining question correctly ends on the last question, locked, with
      one point per question. */
  lemma {:induction false} AnswerAllCorrectlyScoresAll(qs: seq<TriviaQuestion>, i: nat, decode: string -> string)
    requires i < |qs|
    ensures Run(Session(qs, i, i, None, false), decode, AnswerAllCorrectly(qs, i))
            == Session(qs, |qs| - 1, |qs|, Some(qs[|qs| - 1].correctAnswer), true)
    decreases |qs| - i
  {
    var s := Session(qs, i, i, None, false);
    var selected := SelectAnswer(s, qs[i].correctAnswer);
    if i == |qs| - 1 {
      assert Run(s, decode, [Select(qs[i].correctAnswer)]) == Run(selected, decode, []);
    } else {
      var events := [Select(qs[i].correctAnswer), Next] + AnswerAllCorrectly(qs, i + 1);
      assert events[0] == Select(qs[i].correctAnswer);
      assert events[1..][0] == Next;
      assert events[1..][1..] == AnswerAllCorrectly(qs, i + 1);
      assert MoveToNext(selected) == Session(qs, i + 1, i + 1, None, false);
      AnswerAllCorrectlyScoresAll(qs, i + 1, decode);
    }
  }

  /** The events of a whole quiz after a reset: the fetch, then every answer correct. */
  function PerfectQuiz(decode: string -> string, body: TriviaResponse): seq<Event>
  {
    [Fetched(body)] + AnswerAllCorrectly(DecodeResults(decode, body.results), 0)
  }

  /** A whole quiz of n > 0 questions answered correctly ends on the last question, locked,
      with n points. */
  lemma {:induction false} PerfectQuizRun(decode: string -> string, body: TriviaResponse)
    requires |body.results| > 0
    ensures var qs := DecodeResults(decode, body.results);
            Run(InitialSession, decode, PerfectQuiz(decode, body))
            == Session(qs, |qs| - 1, |qs|, Some(qs[|qs| - 1].correctAnswer), true)
  {
    var qs := DecodeResults(decode, body.results);
    var events := PerfectQuiz(decode, body);
    assert events[0] == Fetched(body) && events[1..] == AnswerAllCorrectly(qs, 0);
    assert Step(InitialSession, decode, Fetched(body)) == Session(qs, 0, 0, None, false);
    AnswerAllCorrectlyScoresAll(qs, 0, decode);
  }

  /** The scenario of a whole quiz: reset, a successful fetch, and every answer correct gives
      a summary of all questions right (0 out of 0 for an empty list, which the results
      screen never shows). */
  lemma {:induction false} PerfectQuizSummary(decode: string -> string, body: TriviaResponse)
    ensures Summary(Run(InitialSession, decode, PerfectQuiz(decode, body)))
            == ResultsSummary(|body.results|, |body.results|)
  {
    if |body.results| > 0 {
      PerfectQuizRun(decode, body);
    } else {
      var events := PerfectQuiz(decode, body);
      assert events == [Fetched(body)];
      assert events[1..] == [];
    }
  }

  /** Running two lists of events one after the other is running their concatenation. */
  lemma {:induction false} RunAppend(s: Session, decode: string -> string, a: seq<Event>, b: seq<Event>)
    ensures Run(s, decode, a + b) == Run(Run(s, decode, a), decode, b)
    decreases |a|
  {
    if a == [] {
      assert a + b == b;
    } else {
      assert (a + b)[0] == a[0];
      assert (a + b)[1..] == a[1..] + b;
      RunAppend(Step(s, decode, a[0]), decode, a[1..], b);
    }
  }

  /** While the index is in range on a non-empty list, the summary shows at most as many
      points as questions. This covers every state no late response has reached; after one,
      StaleResponseScoreExceedsTotal shows the summary can exceed the total. */
  lemma SummaryWithinTotal(s: Session)
    requires Valid(s) && IndexInRange(s) && |s.questions| > 0
    ensures 0 <= Summary(s).score <= Summary(s).total
  {
  }

  /** Nothing discards a response to an earlier request: when it arrives after a quiz was
      answered in full and carries fewer questions, it overwrites the list, and the summary
      shows more points than questions although the invariant still holds. With a non-empty
      late list the session is on its last question (so `Finish Quiz` leads to the results
      screen with that summary) and its index is out of range. */
  lemma {:induction false} StaleResponseScoreExceedsTotal(decode: string -> string, body: TriviaResponse, late: TriviaResponse)
    requires |late.results| < |body.results|
    ensures var s := Run(InitialSession, decode, PerfectQuiz(decode, body) + [Fetched(late)]);
            Valid(s) && Summary(s) == ResultsSummary(|body.results|, |late.results|)
            && Summary(s).score > Summary(s).total
            && (|late.results| > 0 ==> |s.questions| > 0 && IsLast(s) && !IndexInRange(s))
  {
    var pre := PerfectQuiz(decode, body);
    PerfectQuizRun(decode, body);
    RunAppend(InitialSession, decode, pre, [Fetched(late)]);
    var mid := Run(InitialSession, decode, pre);
    assert [Fetched(late)][1..] == [];
    assert Run(mid, decode, [Fetched(late)]) == ApplyFetchResults(mid, decode, late.results);
  }
}
