/**
 * The three request handlers of the web application, each a transition of
 * the client's session that ends in a redirect or a rendered page.
 */
module App {
  import opened Wrappers
  import opened ObjectTypes
  import opened DbCrud
  import opened UtilityFunctions

  /** What a handler answers with: a redirect to one of the three pages, or a rendered template. */
  datatype Outcome =
    | RedirectIndex
    | RedirectTest
    | RedirectResult
    | RenderQuizList(quizzes: seq<Quiz>)
    | RenderQuestion(view: QuestionView)
    | RenderResult(right: int, total: int)

  /** A request to `/`: GET, or POST with the already-parsed form field `quiz`. */
  datatype IndexRequest = IndexGet | IndexPost(quiz: int)

  /** A request to `/test`: GET, or POST with the form fields `q_id` (parsed) and `ans_text`. */
  datatype TestRequest = TestGet | TestPost(qId: int, ansText: string)

  /** The `/test` guard lets the request through: a quiz is selected and its id is not negative. */
  predicate QuizInProgress(quiz: Option<int>) {
    quiz.Some? && quiz.value >= 0
  }

  /**
   * `o` is what `/test` answers from cursor `last` in quiz `idQuiz`: a
   * redirect to the result page when the quiz is exhausted, otherwise the
   * next question's page.
   */
  predicate ShowsNext(o: Outcome, s: Store, last: int, idQuiz: int) {
    match GetQuestionAfter(s, last, idQuiz)
    case None => o == RedirectResult
    case Some(q) => o.RenderQuestion? && Presents(o.view, q)
  }

  /** What an honest client reads from the `/test` answer: whether there is a question, its id, and some choice. */
  predicate ShowsNextId(o: Outcome, s: Store, last: int, idQuiz: int) {
    match GetQuestionAfter(s, last, idQuiz)
    case None => o == RedirectResult
    case Some(q) => o.RenderQuestion? && o.view.questId == q.id && |o.view.choices| > 0
  }

  /** A page that shows a question carries that question's id and a non-empty list of choices. */
  lemma ShowsNextHasId(o: Outcome, s: Store, last: int, idQuiz: int)
    requires ShowsNext(o, s, last, idQuiz)
    ensures ShowsNextId(o, s, last, idQuiz)
  {
  }

  /**
   * `/`: a GET selects the sentinel quiz -1 with zeroed counters and lists
   * the quizzes; a POST starts the chosen quiz and redirects to `/test`.
   */
  method Index(session: Session, s: Store, req: IndexRequest) returns (o: Outcome)
    modifies session
    ensures session.Valid()
    ensures session.lastQuestion == Some(0) && session.answers == Some(0) && session.total == Some(0)
    ensures req.IndexGet? ==> session.quiz == Some(-1) && o == RenderQuizList(GetAllQuiz(s))
    ensures req.IndexPost? ==> session.quiz == Some(req.quiz) && o == RedirectTest
  {
    match req
    case IndexGet =>
      session.StartQuiz(Some(-1));
      o := RenderQuizList(GetAllQuiz(s));
    case IndexPost(quiz) =>
      session.StartQuiz(Some(quiz));
      o := RedirectTest;
  }

  /**
   * `/test`: without a quiz in progress, redirects to `/` and changes
   * nothing. Otherwise a POST first records the submitted answer, a GET
   * changes nothing, and then the next question after the cursor is shown,
   * or the client is sent to `/result` when there is none.
   */
  method Test(session: Session, s: Store, req: TestRequest) returns (o: Outcome)
    requires session.Valid()
    modifies session
    ensures session.Valid()
    ensures !QuizInProgress(old(session.quiz)) ==> o == RedirectIndex && unchanged(session)
    ensures QuizInProgress(old(session.quiz)) && req.TestGet? ==> unchanged(session)
    ensures QuizInProgress(old(session.quiz)) && req.TestPost? ==>
              && session.quiz == old(session.quiz)
              && session.lastQuestion == Some(req.qId)
              && session.total == Some(old(session.total).value + 1)
              && (CheckAnswer(s, req.qId, req.ansText).Truthy() ==> session.answers == Some(old(session.answers).value + 1))
              && (!CheckAnswer(s, req.qId, req.ansText).Truthy() ==> session.answers == old(session.answers))
    ensures QuizInProgress(old(session.quiz)) ==>
              session.quiz.Some? && session.lastQuestion.Some? &&
              ShowsNext(o, s, session.lastQuestion.value, session.quiz.value)
  {
    if !QuizInProgress(session.quiz) {
      return RedirectIndex;
    }
    if req.TestPost? {
      session.SaveAnswers(s, req.qId, req.ansText);
    }
    var nextQuestion := GetQuestionAfter(s, session.lastQuestion.value, session.quiz.value);
    if nextQuestion.None? {
      o := RedirectResult;
    } else {
      var view := QuestionForm(nextQuestion.value);
      o := RenderQuestion(view);
    }
  }

  /**
   * `/result`: when the session holds a score, renders the score and the
   * number of answers read before the session is cleared; otherwise
   * redirects to `/` and changes nothing.
   */
  method Result(session: Session) returns (o: Outcome)
    requires session.Valid()
    modifies session
    ensures session.Valid()
    ensures old(session.answers).Some? ==>
              && o == RenderResult(old(session.answers).value, old(session.total).value)
              && session.IsEmpty()
    ensures old(session.answers).None? ==> o == RedirectIndex && unchanged(session)
    ensures o.RenderResult? ==> 0 <= o.right <= o.total
  {
    if session.answers.Some? {
      o := RenderResult(session.answers.value, session.total.value);
      session.EndQuiz();
    } else {
      o := RedirectIndex;
    }
  }

  // ---------------------------------------------------------------------
  // Clients
  // ---------------------------------------------------------------------

  /**
   * An honest client plays quiz `idQuiz` to the end: it selects the quiz,
   * opens `/test`, answers every rendered question with one of its choices
   * and the membership id the page carried (AnswerShown), and finally opens
   * `/result`. The cursor moves along the walk of the quiz, and the result
   * counts one answer per membership of the walk, never more than the
   * quiz's length.
   */
  method HonestSession(session: Session, s: Store, idQuiz: int) returns (right: int, total: int)
    requires idQuiz >= 0
    modifies session
    ensures total == |Walk(s, idQuiz, 0)| <= GetQuizLength(s, idQuiz)
    ensures 0 <= right <= total
    ensures session.Valid() && session.IsEmpty()
  {
    var o := BeginQuiz(session, s, idQuiz);
    ghost var last := 0;
    ghost var answered := 0;
    while o.RenderQuestion?
      invariant session.Valid()
      invariant session.quiz == Some(idQuiz) && session.lastQuestion == Some(last)
      invariant session.total == Some(answered)
      invariant answered + |Walk(s, idQuiz, last)| == |Walk(s, idQuiz, 0)|
      invariant ShowsNextId(o, s, last, idQuiz)
      decreases CandidateCount(s, s.quizContent, last, idQuiz)
    {
      ghost var next := GetQuestionAfter(s, last, idQuiz).value;
      o := AnswerShown(session, s, o);
      GetQuestionAfterShrinks(s, last, idQuiz);
      WalkUnfold(s, idQuiz, last);
      answered := answered + 1;
      last := next.id;
    }
    WalkUnfold(s, idQuiz, last);
    WalkWithinQuizLength(s, idQuiz);
    o := Result(session);
    right, total := o.right, o.total;
  }

  /** `POST /` selecting quiz `idQuiz`, then `GET /test`, which shows the quiz's first question or redirects to `/result`. */
  method BeginQuiz(session: Session, s: Store, idQuiz: int) returns (o: Outcome)
    requires idQuiz >= 0
    modifies session
    ensures session.Valid()
    ensures session.quiz == Some(idQuiz) && session.lastQuestion == Some(0) && session.total == Some(0)
    ensures ShowsNextId(o, s, 0, idQuiz)
  {
    var page := Index(session, s, IndexPost(idQuiz));
    o := Test(session, s, TestGet);
    ShowsNextHasId(o, s, 0, idQuiz);
  }

  /**
   * One step of an honest client: it answers the question page `o` with
   * the membership id on the page and one of the page's choices. The
   * cursor moves forward, to that membership, and one more answer is counted.
   */
  method AnswerShown(session: Session, s: Store, o: Outcome) returns (o': Outcome)
    requires session.Valid() && QuizInProgress(session.quiz) && session.lastQuestion.Some?
    requires o.RenderQuestion? && ShowsNextId(o, s, session.lastQuestion.value, session.quiz.value)
    modifies session
    ensures session.Valid() && session.quiz == old(session.quiz)
    ensures GetQuestionAfter(s, old(session.lastQuestion).value, session.quiz.value).Some?
    ensures session.lastQuestion == Some(GetQuestionAfter(s, old(session.lastQuestion).value, session.quiz.value).value.id)
    ensures session.lastQuestion.value > old(session.lastQuestion).value
    ensures session.total == Some(old(session.total).value + 1)
    ensures ShowsNextId(o', s, session.lastQuestion.value, session.quiz.value)
  {
    assert o.view.choices[0] in o.view.choices;
    var ans :| ans in o.view.choices;
    o' := Test(session, s, TestPost(o.view.questId, ans));
    ShowsNextHasId(o', s, session.lastQuestion.value, session.quiz.value);
  }

  /** Right after `GET /` the session holds a score, so `/result` shows 0 out of 0 instead of redirecting. */
  method ResultAfterIndexGet(s: Store) returns (o: Outcome)
    ensures o == RenderResult(0, 0)
  {
    var session := new Session();
    var page := Index(session, s, IndexGet);
    o := Result(session);
  }

  /** Right after `GET /` the quiz is the sentinel -1, so `/test` redirects back to `/`. */
  method TestAfterIndexGet(s: Store, req: TestRequest) returns (o: Outcome)
    ensures o == RedirectIndex
  {
    var session := new Session();
    var page := Index(session, s, IndexGet);
    o := Test(session, s, req);
  }

  /** Starting a quiz with a negative id makes `/test` redirect to `/`. */
  method TestAfterNegativeQuiz(s: Store, idQuiz: int, req: TestRequest) returns (o: Outcome)
    requires idQuiz < 0
    ensures o == RedirectIndex
  {
    var session := new Session();
    var page := Index(session, s, IndexPost(idQuiz));
    o := Test(session, s, req);
  }

  /** A new client that opens `/result` first is redirected to `/`, and so is one that opens it twice. */
  method ResultWithoutQuiz(s: Store, idQuiz: int) returns (first: Outcome, again: Outcome)
    ensures first == RedirectIndex
    ensures again == RedirectIndex
  {
    var session := new Session();
    first := Result(session);
    var page := Index(session, s, IndexPost(idQuiz));
    var shown := Result(session);
    again := Result(session);
  }

  /**
   * Submitting the same membership twice is counted twice: nothing in
   * `/test` remembers which memberships were already answered.
   */
  method DoubleSubmission(s: Store, idQuiz: int, qId: int, ansText: string) returns (cursor: int, total: int)
    requires idQuiz >= 0
    ensures cursor == qId && total == 2
  {
    var session := new Session();
    var page := Index(session, s, IndexPost(idQuiz));
    var first := Test(session, s, TestPost(qId, ansText));
    var second := Test(session, s, TestPost(qId, ansText));
    cursor, total := session.lastQuestion.value, session.total.value;
  }

  /** A quiz without memberships goes straight from `/test` to a result of 0 out of 0. */
  method EmptyQuizScenario(s: Store, idQuiz: int) returns (test: Outcome, result: Outcome)
    requires idQuiz >= 0
    requires forall c :: c in s.quizContent ==> c.quizId != idQuiz
    ensures test == RedirectResult
    ensures result == RenderResult(0, 0)
  {
    var session := new Session();
    var page := Index(session, s, IndexPost(idQuiz));
    EmptyQuizIsExhausted(s, 0, idQuiz);
    test := Test(session, s, TestGet);
    result := Result(session);
  }

  /** A quiz with two memberships, ids 1 and 2, linking two questions. */
  function TwoQuestionStore(): Store {
    Store(
      [Quiz(1, "Arithmetic")],
      [Question(7, "2 + 2", "4", "3", "5", "22"), Question(9, "3 * 3", "9", "6", "33", "12")],
      [QuizContent(1, 1, 7), QuizContent(2, 1, 9)])
  }

  /** The sequencer on TwoQuestionStore: membership 1, then membership 2, then the end. */
  lemma TwoQuestionSequence()
    ensures GetQuestionAfter(TwoQuestionStore(), 0, 1) == Some(Question(1, "2 + 2", "4", "3", "5", "22"))
    ensures GetQuestionAfter(TwoQuestionStore(), 1, 1) == Some(Question(2, "3 * 3", "9", "6", "33", "12"))
    ensures GetQuestionAfter(TwoQuestionStore(), 2, 1) == None
  {
    var s := TwoQuestionStore();
    var q7, q9 := s.question[0], s.question[1];
    var c1, c2 := s.quizContent[0], s.quizContent[1];
    assert FindQuestion(s.question, 7) == Some(q7);
    assert s.question[1..] == [q9];
    assert FindQuestion(s.question, 9) == Some(q9);
    assert Joined(s, c1) == Some(q7.(id := 1));
    assert Joined(s, c2) == Some(q9.(id := 2));
    assert s.quizContent[1..] == [c2];
    assert MinCandidate(s, [], 0, 1) == None;
    assert MinCandidate(s, [], 1, 1) == None;
    assert MinCandidate(s, [], 2, 1) == None;
    assert MinCandidate(s, [c2], 0, 1) == Some(c2);
    assert MinCandidate(s, s.quizContent, 0, 1) == Some(c1);
    assert MinCandidate(s, [c2], 1, 1) == Some(c2);
    assert MinCandidate(s, s.quizContent, 1, 1) == Some(c2);
    assert MinCandidate(s, [c2], 2, 1) == None;
    assert MinCandidate(s, s.quizContent, 2, 1) == None;
  }

  /**
   * check_answer on TwoQuestionStore: "4" is right for membership 1, "6" is
   * wrong for membership 2, and membership 3 does not exist.
   */
  lemma TwoQuestionGrades()
    ensures CheckAnswer(TwoQuestionStore(), 1, "4") == Correct
    ensures CheckAnswer(TwoQuestionStore(), 2, "6") == Mismatch
    ensures CheckAnswer(TwoQuestionStore(), 3, "4") == Missing
  {
    var s := TwoQuestionStore();
    var q7, q9 := s.question[0], s.question[1];
    var c1, c2 := s.quizContent[0], s.quizContent[1];
    assert FindQuestion(s.question, 7) == Some(q7);
    assert s.question[1..] == [q9];
    assert FindQuestion(s.question, 9) == Some(q9);
    assert Joined(s, c1) == Some(q7.(id := 1));
    assert Joined(s, c2) == Some(q9.(id := 2));
    assert MembershipAnswer(s, s.quizContent, 1) == Some("4");
    assert s.quizContent[1..] == [c2];
    assert MembershipAnswer(s, [c2], 2) == Some("9");
    assert MembershipAnswer(s, s.quizContent, 2) == Some("9");
    assert "9" != "6";
    assert MembershipAnswer(s, [], 3) == None;
    assert MembershipAnswer(s, [c2], 3) == None;
  }

  /**
   * Quiz 1 of TwoQuestionStore, answered right then wrong: the first page
   * shows membership 1, the second membership 2, the third submission
   * leads to `/result`, which shows 1 out of 2.
   */
  method TwoQuestionScenario() returns (first: Outcome, second: Outcome, third: Outcome, result: Outcome)
    ensures first.RenderQuestion? && first.view.questId == 1 && first.view.prompt == "2 + 2"
    ensures second.RenderQuestion? && second.view.questId == 2 && second.view.prompt == "3 * 3"
    ensures third == RedirectResult
    ensures result == RenderResult(1, 2)
  {
    var s := TwoQuestionStore();
    TwoQuestionSequence();
    TwoQuestionGrades();
    var session := new Session();
    var page := Index(session, s, IndexPost(1));
    first := Test(session, s, TestGet);
    second := Test(session, s, TestPost(1, "4"));
    assert session.answers == Some(1) && session.total == Some(1);
    third := Test(session, s, TestPost(2, "6"));
    assert session.answers == Some(1) && session.total == Some(2);
    result := Result(session);
  }
}
