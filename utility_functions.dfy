/**
 * The per-client session and the helpers the request handlers use to
 * change it, plus the construction of the answer list shown with a
 * question.
 */
module UtilityFunctions {
  import opened Wrappers
  import opened ObjectTypes
  import opened DbCrud

  /**
   * The session dictionary of one client. Each field is one key of the
   * dictionary (`quiz`, `last_question`, `answers`, `total`); None means the
   * key is absent.
   */
  class Session {
    var quiz: Option<int>
    var lastQuestion: Option<int>
    var answers: Option<int>
    var total: Option<int>

    /**
     * Only StartQuiz adds keys and only EndQuiz removes them, both all four
     * at once, so either every key is present, with a score within the
     * number of answers, or none is.
     */
    ghost predicate Valid()
      reads this
    {
      || (&& quiz.Some? && lastQuestion.Some? && answers.Some? && total.Some?
          && 0 <= answers.value <= total.value)
      || IsEmpty()
    }

    /** The dictionary has no keys. */
    predicate IsEmpty()
      reads this
    {
      quiz.None? && lastQuestion.None? && answers.None? && total.None?
    }

    /** A new client's session: no keys. */
    constructor ()
      ensures Valid() && IsEmpty()
    {
      quiz, lastQuestion, answers, total := None, None, None, None;
    }

    /** start_quiz: selects quiz `quizId` (quiz 1 when none is given) and zeroes cursor and counters. */
    method StartQuiz(quizId: Option<int>)
      modifies this
      ensures Valid()
      ensures quiz == Some(if quizId.Some? then quizId.value else 1)
      ensures lastQuestion == Some(0) && answers == Some(0) && total == Some(0)
    {
      if quizId.Some? {
        quiz := Some(quizId.value);
      } else {
        quiz := Some(1);
      }
      lastQuestion := Some(0);
      answers := Some(0);
      total := Some(0);
    }

    /** end_quiz: clears the session. */
    method EndQuiz()
      modifies this
      ensures Valid() && IsEmpty()
    {
      quiz, lastQuestion, answers, total := None, None, None, None;
    }

    /**
     * save_answers: records the answer `ansText` to membership `qId`. The
     * cursor moves to `qId`, one more answer is counted, and the score goes
     * up by one exactly when the answer grades as correct. The quiz does not
     * change, and nothing stops the same membership from being counted twice.
     */
    method SaveAnswers(s: Store, qId: int, ansText: string)
      requires Valid() && total.Some?
      modifies this
      ensures Valid()
      ensures quiz == old(quiz)
      ensures lastQuestion == Some(qId)
      ensures total == Some(old(total).value + 1)
      ensures CheckAnswer(s, qId, ansText).Truthy() ==> answers == Some(old(answers).value + 1)
      ensures !CheckAnswer(s, qId, ansText).Truthy() ==> answers == old(answers)
    {
      lastQuestion := Some(qId);
      total := Some(total.value + 1);
      var correct := CheckAnswer(s, qId, ansText).Truthy();
      if correct {
        answers := Some(answers.value + 1);
      }
    }
  }

  /** What question.html is rendered with: the prompt, the membership id for the form, and the choices. */
  datatype QuestionView = QuestionView(prompt: string, questId: int, choices: seq<string>)

  /**
   * `view` shows question `q`: its prompt, its id as the key the answer form
   * sends back, and its four answers in some order.
   */
  predicate Presents(view: QuestionView, q: Question) {
    && view.prompt == q.question
    && view.questId == q.id
    && |view.choices| == 4
    && multiset(view.choices) == multiset([q.answer, q.wrong1, q.wrong2, q.wrong3])
  }

  /**
   * random.shuffle, with each random index an arbitrary choice: walks the
   * array from the end, swapping each slot with one at or before it.
   */
  method Shuffle(a: array<string>)
    modifies a
    ensures multiset(a[..]) == old(multiset(a[..]))
  {
    var i := a.Length - 1;
    while i > 0
      invariant -1 <= i < a.Length
      invariant multiset(a[..]) == old(multiset(a[..]))
    {
      var j :| 0 <= j <= i;
      a[i], a[j] := a[j], a[i];
      i := i - 1;
    }
  }

  /**
   * question_form: the view of `question`, whose answer list is the correct
   * answer and the three wrong ones, shuffled.
   */
  method QuestionForm(question: Question) returns (view: QuestionView)
    ensures Presents(view, question)
    ensures question.answer in view.choices
  {
    var answersList := new string[4][question.answer, question.wrong1, question.wrong2, question.wrong3];
    assert answersList[..] == [question.answer, question.wrong1, question.wrong2, question.wrong3];
    Shuffle(answersList);
    view := QuestionView(question.question, question.id, answersList[..]);
  }
}
