/** Records returned by the Open Trivia DB question endpoint, and the decoding of every
    text field of a fetched question list.

    The HTML-entity decoder itself is an external library call; it enters the model as a
    parameter `decode: string -> string` about which nothing is assumed. */
module Trivia {

  datatype Option<T> = None | Some(value: T)

  /** One multiple-choice question (`TriviaQuestion`). */
  datatype TriviaQuestion = TriviaQuestion(
    question: string,
    correctAnswer: string,
    incorrectAnswers: seq<string>)

  /** The body of a question response (`TriviaResponse`). */
  datatype TriviaResponse = TriviaResponse(responseCode: int, results: seq<TriviaQuestion>)

  /** Decodes every string of a list, keeping its order and its length. */
  function DecodeEach(decode: string -> string, s: seq<string>): (r: seq<string>)
    ensures |r| == |s|
    ensures forall i :: 0 <= i < |s| ==> r[i] == decode(s[i])
  {
    if s == [] then [] else [decode(s[0])] + DecodeEach(decode, s[1..])
  }

  /** A copy of `q` with the question text, the correct answer and each incorrect answer decoded. */
  function DecodeQuestion(decode: string -> string, q: TriviaQuestion): (r: TriviaQuestion)
    ensures r.question == decode(q.question)
    ensures r.correctAnswer == decode(q.correctAnswer)
    ensures |r.incorrectAnswers| == |q.incorrectAnswers|
    ensures forall i :: 0 <= i < |q.incorrectAnswers| ==>
              r.incorrectAnswers[i] == decode(q.incorrectAnswers[i])
  {
    q.(question := decode(q.question),
       correctAnswer := decode(q.correctAnswer),
       incorrectAnswers := DecodeEach(decode, q.incorrectAnswers))
  }

  /** The decoded question list: one decoded question per fetched one, in the same order. */
  function DecodeResults(decode: string -> string, qs: seq<TriviaQuestion>): (r: seq<TriviaQuestion>)
    ensures |r| == |qs|
    ensures forall i :: 0 <= i < |qs| ==> r[i] == DecodeQuestion(decode, qs[i])
  {
    if qs == [] then [] else [DecodeQuestion(decode, qs[0])] + DecodeResults(decode, qs[1..])
  }

  /** Decoding a list is decoding its parts: the mapping works element by element. */
  lemma {:induction false} DecodeResultsAppend(decode: string -> string, a: seq<TriviaQuestion>, b: seq<TriviaQuestion>)
    ensures DecodeResults(decode, a + b) == DecodeResults(decode, a) + DecodeResults(decode, b)
  {
    if a == [] {
      assert a + b == b;
    } else {
      assert (a + b)[1..] == a[1..] + b;
      DecodeResultsAppend(decode, a[1..], b);
    }
  }

  /** When the decoder leaves every string alone, so does the mapping over the results. */
  lemma {:induction false} DecodeResultsIdentity(decode: string -> string, qs: seq<TriviaQuestion>)
    requires forall s :: decode(s) == s
    ensures DecodeResults(decode, qs) == qs
  {
    if qs != [] {
      var q := qs[0];
      DecodeEachIdentity(decode, q.incorrectAnswers);
      assert DecodeQuestion(decode, q) == q;
      DecodeResultsIdentity(decode, qs[1..]);
      assert [q] + qs[1..] == qs;
    }
  }

  lemma {:induction false} DecodeEachIdentity(decode: string -> string, s: seq<string>)
    requires forall x :: decode(x) == x
    ensures DecodeEach(decode, s) == s
  {
    if s != [] {
      DecodeEachIdentity(decode, s[1..]);
      assert [s[0]] + s[1..] == s;
    }
  }
}
