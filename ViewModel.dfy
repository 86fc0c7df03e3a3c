/** `QuizViewModel`: the mutable quiz state behind the screens. Each state cell of the view
    model is a field here; every operation updates the fields in place and is specified by the
    matching transition of module QuizSession. */
module ViewModel {
  import opened Trivia
  import opened QuizSession

  class QuizViewModel {
    // the quiz session
    var questions: seq<TriviaQuestion>
    var currentQuestionIndex: int
    var score: int
    var selectedAnswer: Option<string>
    var isAnswerSelected: bool

    // the pending settings of the settings screen
    var numOfQuestions: int
    var difficulty: string
    var category: Option<int>

    /** The session the fields hold. */
    ghost function State(): Session
      reads this
    {
      Session(questions, currentQuestionIndex, score, selectedAnswer, isAnswerSelected)
    }

    /** The pending settings the fields hold. */
    ghost function PendingSettings(): Settings
      reads this
    {
      Settings(numOfQuestions, difficulty, category)
    }

    ghost predicate Valid()
      reads this
    {
      QuizSession.Valid(State())
    }

    constructor ()
      ensures State() == InitialSession && PendingSettings() == DefaultSettings
      ensures Valid()
    {
      questions := [];
      currentQuestionIndex := 0;
      score := 0;
      selectedAnswer := None;
      isAnswerSelected := false;
      numOfQuestions := 10;
      difficulty := "easy";
      category := None;
    }

    /** The synchronous part of `fetchQuestions`: the request it sends. Sending it and
        awaiting the response are outside the model; the response arrives through
        FetchSucceeded or FetchFailed. */
    method FetchQuestions(amount: int, category: Option<int>, difficulty: Option<string>)
      returns (request: QuestionRequest)
      ensures request == FetchRequest(amount, category, difficulty)
    {
      request := FetchRequest(amount, category, difficulty);
    }

    /** A successful response with a body: the results, each text field decoded, become the
        question list; index, score, selection and settings are untouched. */
    method FetchSucceeded(decode: string -> string, body: TriviaResponse)
      requires Valid()
      modifies this
      ensures State() == ApplyFetchResults(old(State()), decode, body.results)
      ensures PendingSettings() == old(PendingSettings())
      ensures Valid()
    {
      questions := DecodeResults(decode, body.results);
    }

    /** The else branch of `fetchQuestions` as written: the failure is only logged, so nothing
        changes. No response of the HTTP client reaches it, since an unsuccessful response has
        no body and the body is dereferenced before the test. */
    method FetchFailed(message: string)
      ensures State() == old(State()) && PendingSettings() == old(PendingSettings())
    {
    }

    /** `selectAnswer`: records and locks the first answer to the current question, scoring
        it when it is the correct one; later calls before advancing change nothing. */
    method SelectAnswer(answer: string)
      requires Valid()
      modifies this
      ensures State() == QuizSession.SelectAnswer(old(State()), answer)
      ensures PendingSettings() == old(PendingSettings())
      ensures Valid() && score >= old(score)
    {
      if !isAnswerSelected {
        selectedAnswer := Some(answer);
        isAnswerSelected := true;
        var current := GetCurrentQuestion();
        if current.Some? && answer == current.value.correctAnswer {
          score := score + 1;
        }
      }
    }

    /** `moveToNextQuestion`: moves to the next question and clears the selection, unless the
        current question is the last one. */
    method MoveToNextQuestion()
      requires Valid()
      modifies this
      ensures State() == MoveToNext(old(State()))
      ensures PendingSettings() == old(PendingSettings())
      ensures Valid()
    {
      if currentQuestionIndex < |questions| - 1 {
        currentQuestionIndex := currentQuestionIndex + 1;
        selectedAnswer := None;
        isAnswerSelected := false;
      }
    }

    /** `getCurrentQuestion`: the bounds-checked read of the current question. */
    function GetCurrentQuestion(): (r: Option<TriviaQuestion>)
      reads this
      ensures r == CurrentQuestion(State())
    {
      CurrentQuestion(Session(questions, currentQuestionIndex, score, selectedAnswer, isAnswerSelected))
    }

    /** `updateSettings`: stores the three settings as given, without any clamping. */
    method UpdateSettings(number: int, diff: string, cat: Option<int>)
      modifies this
      ensures PendingSettings() == Settings(number, diff, cat)
      ensures State() == old(State())
    {
      numOfQuestions := number;
      difficulty := diff;
      category := cat;
    }

    /** `resetQuizState`: back to the initial session; the settings stay. */
    method ResetQuizState()
      modifies this
      ensures State() == InitialSession
      ensures PendingSettings() == old(PendingSettings())
      ensures Valid() && IndexInRange(State())
    {
      currentQuestionIndex := 0;
      score := 0;
      questions := [];
      selectedAnswer := None;
      isAnswerSelected := false;
    }

    /** `startNewQuiz`: resets the session and issues the request for the new questions. */
    method StartNewQuiz(amount: int, category: Option<int>, difficulty: Option<string>)
      returns (request: QuestionRequest)
      modifies this
      ensures State() == InitialSession
      ensures PendingSettings() == old(PendingSettings())
      ensures Valid()
      ensures request == FetchRequest(amount, category, difficulty)
    {
      ResetQuizState();
      request := FetchQuestions(amount, category, difficulty);
    }
  }
}
