/**
 * The quiz database as a value, and the queries the web application runs
 * against it. Each SQL query becomes a function over the rows of the
 * tables; the seeding loop that links questions to quizzes is a method.
 */
module DbCrud {
  import opened Wrappers
  import opened ObjectTypes

  /** The three tables `quiz`, `question` and `quiz_content`, as row sequences. */
  datatype Store = Store(quiz: seq<Quiz>, question: seq<Question>, quizContent: seq<QuizContent>)

  /** `quiz_content.id` is the INTEGER PRIMARY KEY of its table: no two rows share it. */
  predicate ContentIdsUnique(rows: seq<QuizContent>) {
    forall i, j :: 0 <= i < j < |rows| ==> rows[i].id != rows[j].id
  }

  // ---------------------------------------------------------------------
  // The inner join of quiz_content with question
  // ---------------------------------------------------------------------

  /** The `question` row with the given id (its primary key), if there is one. */
  function FindQuestion(rows: seq<Question>, id: int): (r: Option<Question>)
    ensures r.Some? ==> r.value in rows && r.value.id == id
    ensures r.None? <==> forall q :: q in rows ==> q.id != id
  {
    if rows == [] then None
    else if rows[0].id == id then Some(rows[0])
    else FindQuestion(rows[1..], id)
  }

  /**
   * The joined row `quiz_content.id, question.question, question.answer,
   * question.wrong1..3` for membership `c`: the question's columns, but
   * carrying the membership id instead of the question's own id. None when
   * no question row matches `c.questionId`, so the join drops `c`.
   */
  function Joined(s: Store, c: QuizContent): (r: Option<Question>)
    ensures r.Some? ==> r.value.id == c.id
  {
    match FindQuestion(s.question, c.questionId)
    case None => None
    case Some(q) => Some(q.(id := c.id))
  }

  /** The join keeps `c` exactly when its question row exists, and then carries that row's columns. */
  lemma JoinedSpec(s: Store, c: QuizContent)
    ensures Joined(s, c).Some? <==> exists q :: q in s.question && q.id == c.questionId
    ensures Joined(s, c).Some? ==>
              exists q :: q in s.question && q.id == c.questionId && Joined(s, c).value == q.(id := c.id)
  {
    var f := FindQuestion(s.question, c.questionId);
    if f.Some? {
      assert f.value in s.question && f.value.id == c.questionId;
    }
  }

  // ---------------------------------------------------------------------
  // get_question_after
  // ---------------------------------------------------------------------

  /** Membership `c` is a row the next-question query can return after `last` in quiz `idQuiz`. */
  predicate Candidate(s: Store, c: QuizContent, last: int, idQuiz: int) {
    c.quizId == idQuiz && c.id > last && Joined(s, c).Some?
  }

  /** The first row, in ascending `id` order, of the next-question query over `rows`. */
  function MinCandidate(s: Store, rows: seq<QuizContent>, last: int, idQuiz: int): Option<QuizContent> {
    if rows == [] then None
    else
      var rest := MinCandidate(s, rows[1..], last, idQuiz);
      if Candidate(s, rows[0], last, idQuiz) && (rest.None? || rows[0].id <= rest.value.id)
      then Some(rows[0])
      else rest
  }

  /** The scan returns a candidate row of `rows` with the smallest id, and None only when there is none. */
  lemma {:induction false} MinCandidateSpec(s: Store, rows: seq<QuizContent>, last: int, idQuiz: int)
    ensures MinCandidate(s, rows, last, idQuiz).Some? ==>
              MinCandidate(s, rows, last, idQuiz).value in rows && Candidate(s, MinCandidate(s, rows, last, idQuiz).value, last, idQuiz)
    ensures MinCandidate(s, rows, last, idQuiz).Some? ==>
              forall c :: c in rows && Candidate(s, c, last, idQuiz) ==> MinCandidate(s, rows, last, idQuiz).value.id <= c.id
    ensures MinCandidate(s, rows, last, idQuiz).None? <==> forall c :: c in rows ==> !Candidate(s, c, last, idQuiz)
  {
    if rows != [] {
      MinCandidateSpec(s, rows[1..], last, idQuiz);
      assert forall c :: c in rows ==> c == rows[0] || c in rows[1..];
    }
  }

  /**
   * The next question of quiz `idQuiz` after membership `last`: the joined
   * row with the smallest membership id above `last`, or None when the quiz
   * has no such row left.
   */
  function GetQuestionAfter(s: Store, last: int, idQuiz: int): (r: Option<Question>)
    ensures r.Some? ==> r.value.id > last
  {
    MinCandidateSpec(s, s.quizContent, last, idQuiz);
    match MinCandidate(s, s.quizContent, last, idQuiz)
    case None => None
    case Some(c) => Joined(s, c)
  }

  /**
   * The query returns None exactly when quiz `idQuiz` has no joined row
   * above `last`; otherwise it returns the joined row of such a membership,
   * and no such membership has a smaller id.
   */
  lemma GetQuestionAfterSpec(s: Store, last: int, idQuiz: int)
    ensures GetQuestionAfter(s, last, idQuiz).None? <==> forall c :: c in s.quizContent ==> !Candidate(s, c, last, idQuiz)
    ensures GetQuestionAfter(s, last, idQuiz).Some? ==>
              exists c :: c in s.quizContent && Candidate(s, c, last, idQuiz) && Joined(s, c) == GetQuestionAfter(s, last, idQuiz)
    ensures GetQuestionAfter(s, last, idQuiz).Some? ==>
              forall c :: c in s.quizContent && Candidate(s, c, last, idQuiz) ==> GetQuestionAfter(s, last, idQuiz).value.id <= c.id
  {
    MinCandidateSpec(s, s.quizContent, last, idQuiz);
    var m := MinCandidate(s, s.quizContent, last, idQuiz);
    if m.Some? {
      assert Joined(s, m.value) == GetQuestionAfter(s, last, idQuiz);
    }
  }

  /** The number of rows the next-question query over `rows` yields after `last`. */
  function CandidateCount(s: Store, rows: seq<QuizContent>, last: int, idQuiz: int): nat {
    if rows == [] then 0
    else (if Candidate(s, rows[0], last, idQuiz) then 1 else 0) + CandidateCount(s, rows[1..], last, idQuiz)
  }

  /** Raising the cursor never adds rows to the query's result. */
  lemma {:induction false} CandidateCountAntitone(s: Store, rows: seq<QuizContent>, last: int, next: int, idQuiz: int)
    requires last <= next
    ensures CandidateCount(s, rows, next, idQuiz) <= CandidateCount(s, rows, last, idQuiz)
  {
    if rows != [] {
      CandidateCountAntitone(s, rows[1..], last, next, idQuiz);
    }
  }

  /** Raising the cursor past a row of the result removes at least that row. */
  lemma {:induction false} CandidateCountShrinks(s: Store, rows: seq<QuizContent>, last: int, next: int, idQuiz: int, c: QuizContent)
    requires last <= next
    requires c in rows && Candidate(s, c, last, idQuiz) && c.id <= next
    ensures CandidateCount(s, rows, next, idQuiz) < CandidateCount(s, rows, last, idQuiz)
  {
    if rows[0] == c {
      CandidateCountAntitone(s, rows[1..], last, next, idQuiz);
    } else {
      CandidateCountShrinks(s, rows[1..], last, next, idQuiz, c);
    }
  }

  /** Moving the cursor to the returned membership strictly shrinks what is left of the quiz. */
  lemma GetQuestionAfterShrinks(s: Store, last: int, idQuiz: int)
    requires GetQuestionAfter(s, last, idQuiz).Some?
    ensures CandidateCount(s, s.quizContent, GetQuestionAfter(s, last, idQuiz).value.id, idQuiz)
          < CandidateCount(s, s.quizContent, last, idQuiz)
  {
    GetQuestionAfterSpec(s, last, idQuiz);
    var r := GetQuestionAfter(s, last, idQuiz).value;
    var c :| c in s.quizContent && Candidate(s, c, last, idQuiz) && Joined(s, c) == Some(r);
    CandidateCountShrinks(s, s.quizContent, last, r.id, idQuiz, c);
  }

  /**
   * Monotonicity: a later cursor never yields an earlier membership, and
   * once the quiz is exhausted at some cursor it stays exhausted above it.
   */
  lemma GetQuestionAfterMonotone(s: Store, last1: int, last2: int, idQuiz: int)
    requires last1 <= last2
    ensures GetQuestionAfter(s, last2, idQuiz).Some? ==>
              GetQuestionAfter(s, last1, idQuiz).Some? &&
              GetQuestionAfter(s, last1, idQuiz).value.id <= GetQuestionAfter(s, last2, idQuiz).value.id
  {
    GetQuestionAfterSpec(s, last1, idQuiz);
    GetQuestionAfterSpec(s, last2, idQuiz);
    var r2 := GetQuestionAfter(s, last2, idQuiz);
    if r2.Some? {
      var c :| c in s.quizContent && Candidate(s, c, last2, idQuiz) && Joined(s, c) == r2;
      assert Candidate(s, c, last1, idQuiz);
    }
  }

  /**
   * A cursor that stays below the next membership does not change the
   * answer: with unique membership ids the same row is returned.
   */
  lemma GetQuestionAfterStable(s: Store, last1: int, last2: int, idQuiz: int)
    requires ContentIdsUnique(s.quizContent)
    requires last1 <= last2
    requires GetQuestionAfter(s, last1, idQuiz).Some? && last2 < GetQuestionAfter(s, last1, idQuiz).value.id
    ensures GetQuestionAfter(s, last2, idQuiz) == GetQuestionAfter(s, last1, idQuiz)
  {
    GetQuestionAfterSpec(s, last1, idQuiz);
    GetQuestionAfterSpec(s, last2, idQuiz);
    var r1 := GetQuestionAfter(s, last1, idQuiz);
    var c1 :| c1 in s.quizContent && Candidate(s, c1, last1, idQuiz) && Joined(s, c1) == r1;
    assert Candidate(s, c1, last2, idQuiz);
    var r2 := GetQuestionAfter(s, last2, idQuiz);
    var c2 :| c2 in s.quizContent && Candidate(s, c2, last2, idQuiz) && Joined(s, c2) == r2;
    assert Candidate(s, c2, last1, idQuiz);
    SameIdSameRow(s.quizContent, c1, c2);
  }

  /** Two rows of a table with a unique id column that share the id are the same row. */
  lemma SameIdSameRow(rows: seq<QuizContent>, c1: QuizContent, c2: QuizContent)
    requires ContentIdsUnique(rows)
    requires c1 in rows && c2 in rows && c1.id == c2.id
    ensures c1 == c2
  {
    var i :| 0 <= i < |rows| && rows[i] == c1;
    var j :| 0 <= j < |rows| && rows[j] == c2;
  }

  /** A membership whose question row is missing is never returned: the inner join drops it. */
  lemma OrphanMembershipSkipped(s: Store, c: QuizContent, last: int, idQuiz: int)
    requires ContentIdsUnique(s.quizContent)
    requires c in s.quizContent
    requires forall q :: q in s.question ==> q.id != c.questionId
    ensures GetQuestionAfter(s, last, idQuiz).Some? ==> GetQuestionAfter(s, last, idQuiz).value.id != c.id
  {
    GetQuestionAfterSpec(s, last, idQuiz);
    var r := GetQuestionAfter(s, last, idQuiz);
    if r.Some? {
      var c' :| c' in s.quizContent && Candidate(s, c', last, idQuiz) && Joined(s, c') == r;
      if c'.id == c.id {
        SameIdSameRow(s.quizContent, c, c');
        assert false;
      }
    }
  }

  /** A quiz without membership rows is exhausted from every cursor, in particular from 0. */
  lemma EmptyQuizIsExhausted(s: Store, last: int, idQuiz: int)
    requires forall c :: c in s.quizContent ==> c.quizId != idQuiz
    ensures GetQuestionAfter(s, last, idQuiz) == None
  {
    GetQuestionAfterSpec(s, last, idQuiz);
  }

  // ---------------------------------------------------------------------
  // Walking a quiz one question at a time
  // ---------------------------------------------------------------------

  /**
   * The membership ids an honest client visits in quiz `idQuiz` from cursor
   * `last`: each step asks for the next question after the previous one,
   * until the query returns None.
   */
  function Walk(s: Store, idQuiz: int, last: int): (w: seq<int>)
    ensures forall i :: 0 <= i < |w| ==> w[i] > last
    ensures forall i, j :: 0 <= i < j < |w| ==> w[i] < w[j]
    ensures |w| <= CandidateCount(s, s.quizContent, last, idQuiz)
    decreases CandidateCount(s, s.quizContent, last, idQuiz)
  {
    match GetQuestionAfter(s, last, idQuiz)
    case None => []
    case Some(q) =>
      GetQuestionAfterShrinks(s, last, idQuiz);
      Prepend(q.id, last, Walk(s, idQuiz, q.id))
  }

  /** `[x] + rest`, which stays strictly increasing and above `last` when `rest` is above `x`. */
  function Prepend(x: int, last: int, rest: seq<int>): (w: seq<int>)
    requires last < x
    requires forall i :: 0 <= i < |rest| ==> x < rest[i]
    requires forall i, j :: 0 <= i < j < |rest| ==> rest[i] < rest[j]
    ensures |w| == |rest| + 1 && w[0] == x && w[1..] == rest
    ensures forall i :: 0 <= i < |w| ==> last < w[i]
    ensures forall i, j :: 0 <= i < j < |w| ==> w[i] < w[j]
  {
    [x] + rest
  }

  /** The walk from `last` is empty when the quiz is exhausted there, and one step longer than the walk from the next membership otherwise. */
  lemma WalkUnfold(s: Store, idQuiz: int, last: int)
    ensures GetQuestionAfter(s, last, idQuiz).None? ==> Walk(s, idQuiz, last) == []
    ensures GetQuestionAfter(s, last, idQuiz).Some? ==>
              Walk(s, idQuiz, last) == [GetQuestionAfter(s, last, idQuiz).value.id] + Walk(s, idQuiz, GetQuestionAfter(s, last, idQuiz).value.id)
  {
  }

  /** The walk skips nothing: every membership the query could return after `last` is visited. */
  lemma {:induction false} WalkVisitsEveryCandidate(s: Store, idQuiz: int, last: int, c: QuizContent)
    requires c in s.quizContent && Candidate(s, c, last, idQuiz)
    ensures c.id in Walk(s, idQuiz, last)
    decreases CandidateCount(s, s.quizContent, last, idQuiz)
  {
    GetQuestionAfterSpec(s, last, idQuiz);
    var r := GetQuestionAfter(s, last, idQuiz);
    assert r.Some?;
    if c.id != r.value.id {
      assert Candidate(s, c, r.value.id, idQuiz);
      GetQuestionAfterShrinks(s, last, idQuiz);
      WalkVisitsEveryCandidate(s, idQuiz, r.value.id, c);
    }
  }

  // ---------------------------------------------------------------------
  // get_quiz_lenght
  // ---------------------------------------------------------------------

  /** The rows of `SELECT ... FROM quiz_content WHERE quiz_id == idQuiz`, no join. */
  function QuizRows(rows: seq<QuizContent>, idQuiz: int): (r: seq<QuizContent>)
    ensures forall c :: c in r <==> c in rows && c.quizId == idQuiz
    ensures |r| <= |rows|
  {
    if rows == [] then []
    else if rows[0].quizId == idQuiz then [rows[0]] + QuizRows(rows[1..], idQuiz)
    else QuizRows(rows[1..], idQuiz)
  }

  /** The number of membership rows of quiz `idQuiz`, whether or not their question exists. */
  function GetQuizLength(s: Store, idQuiz: int): (n: nat)
    ensures n <= |s.quizContent|
    ensures n == 0 <==> forall c :: c in s.quizContent ==> c.quizId != idQuiz
  {
    var r := QuizRows(s.quizContent, idQuiz);
    assert r != [] ==> r[0] in r;
    |r|
  }

  /** The number of rows of `rows` in quiz `idQuiz`, counted one row at a time. */
  function CountQuiz(rows: seq<QuizContent>, idQuiz: int): nat {
    if rows == [] then 0
    else (if rows[0].quizId == idQuiz then 1 else 0) + CountQuiz(rows[1..], idQuiz)
  }

  /** The filter keeps exactly as many rows as the quiz has. */
  lemma {:induction false} QuizRowsCount(rows: seq<QuizContent>, idQuiz: int)
    ensures |QuizRows(rows, idQuiz)| == CountQuiz(rows, idQuiz)
  {
    if rows != [] {
      QuizRowsCount(rows[1..], idQuiz);
    }
  }

  /** get_quiz_lenght is the number of membership rows of the quiz. */
  lemma GetQuizLengthCounts(s: Store, idQuiz: int)
    ensures GetQuizLength(s, idQuiz) == CountQuiz(s.quizContent, idQuiz)
  {
    QuizRowsCount(s.quizContent, idQuiz);
  }

  /** The joined query never yields more rows than the quiz has memberships. */
  lemma {:induction false} CandidatesWithinQuiz(s: Store, rows: seq<QuizContent>, last: int, idQuiz: int)
    ensures CandidateCount(s, rows, last, idQuiz) <= |QuizRows(rows, idQuiz)|
  {
    if rows != [] {
      CandidatesWithinQuiz(s, rows[1..], last, idQuiz);
    }
  }

  /** An honest client starting from cursor 0 sees at most as many questions as the quiz length. */
  lemma WalkWithinQuizLength(s: Store, idQuiz: int)
    ensures |Walk(s, idQuiz, 0)| <= GetQuizLength(s, idQuiz)
  {
    CandidatesWithinQuiz(s, s.quizContent, 0, idQuiz);
  }

  // ---------------------------------------------------------------------
  // check_answer
  // ---------------------------------------------------------------------

  /**
   * What check_answer returns: `True` when the answer matches, `None` when
   * the row exists but the text differs (the function falls off its end),
   * `False` when no joined row has that membership id.
   */
  datatype Verdict = Correct | Mismatch | Missing {
    /** Python's truth value of the result. */
    predicate Truthy() { Correct? }
  }

  /** The correct answer of the first joined row whose membership id is `m`. */
  function MembershipAnswer(s: Store, rows: seq<QuizContent>, m: int): Option<string> {
    if rows == [] then None
    else if rows[0].id == m && Joined(s, rows[0]).Some? then Some(Joined(s, rows[0]).value.answer)
    else MembershipAnswer(s, rows[1..], m)
  }

  /** The lookup finds an answer exactly when some row with membership id `m` joins a question, and it is that row's answer. */
  lemma {:induction false} MembershipAnswerSpec(s: Store, rows: seq<QuizContent>, m: int)
    ensures MembershipAnswer(s, rows, m).None? <==> forall c :: c in rows && c.id == m ==> Joined(s, c).None?
    ensures MembershipAnswer(s, rows, m).Some? ==>
              exists c :: c in rows && c.id == m && Joined(s, c) != None && Joined(s, c).value.answer == MembershipAnswer(s, rows, m).value
  {
    if rows != [] {
      MembershipAnswerSpec(s, rows[1..], m);
      if !(rows[0].id == m && Joined(s, rows[0]).Some?) {
        assert forall c :: c in rows ==> c == rows[0] || c in rows[1..];
      }
    }
  }

  /** Grades `ansText` against the correct answer of membership `m`, by exact string equality. */
  function CheckAnswer(s: Store, m: int, ansText: string): Verdict {
    match MembershipAnswer(s, s.quizContent, m)
    case None => Missing
    case Some(answer) => if answer == ansText then Correct else Mismatch
  }

  /**
   * The three outcomes of grading: Missing exactly when no joined row has
   * membership id `m`, Correct only when such a row's answer is `ansText`,
   * Mismatch only when such a row's answer differs from it.
   */
  lemma CheckAnswerSpec(s: Store, m: int, ansText: string)
    ensures CheckAnswer(s, m, ansText).Missing? <==> forall c :: c in s.quizContent && c.id == m ==> Joined(s, c).None?
    ensures CheckAnswer(s, m, ansText).Correct? ==>
              exists c :: c in s.quizContent && c.id == m && Joined(s, c) != None && Joined(s, c).value.answer == ansText
    ensures CheckAnswer(s, m, ansText).Mismatch? ==>
              exists c :: c in s.quizContent && c.id == m && Joined(s, c) != None && Joined(s, c).value.answer != ansText
  {
    MembershipAnswerSpec(s, s.quizContent, m);
  }

  /** With unique membership ids, grading is correct exactly when the stored answer equals the text. */
  lemma CheckAnswerExact(s: Store, m: int, ansText: string)
    requires ContentIdsUnique(s.quizContent)
    ensures CheckAnswer(s, m, ansText).Correct? <==>
              exists c :: c in s.quizContent && c.id == m && Joined(s, c) != None && Joined(s, c).value.answer == ansText
  {
    CheckAnswerSpec(s, m, ansText);
    var r := CheckAnswer(s, m, ansText);
    if r.Mismatch? {
      var c1 :| c1 in s.quizContent && c1.id == m && Joined(s, c1) != None && Joined(s, c1).value.answer != ansText;
      forall c | c in s.quizContent && c.id == m && Joined(s, c) != None
        ensures Joined(s, c).value.answer != ansText
      {
        SameIdSameRow(s.quizContent, c, c1);
      }
    }
  }

  /**
   * Grading agrees with the sequencer: the membership id the sequencer
   * returns grades as correct exactly for that question's stored answer.
   */
  lemma GradesReturnedQuestion(s: Store, last: int, idQuiz: int, ansText: string)
    requires ContentIdsUnique(s.quizContent)
    requires GetQuestionAfter(s, last, idQuiz).Some?
    ensures CheckAnswer(s, GetQuestionAfter(s, last, idQuiz).value.id, ansText).Correct? <==>
              ansText == GetQuestionAfter(s, last, idQuiz).value.answer
    ensures !CheckAnswer(s, GetQuestionAfter(s, last, idQuiz).value.id, ansText).Missing?
  {
    GetQuestionAfterSpec(s, last, idQuiz);
    var q := GetQuestionAfter(s, last, idQuiz).value;
    var c :| c in s.quizContent && Candidate(s, c, last, idQuiz) && Joined(s, c) == Some(q);
    CheckAnswerSpec(s, q.id, ansText);
    CheckAnswerExact(s, q.id, ansText);
    forall c' | c' in s.quizContent && c'.id == q.id
      ensures c' == c
    {
      SameIdSameRow(s.quizContent, c, c');
    }
  }

  /** The number of characters of `str(m)`: the decimal digits, plus one for a minus sign. */
  function DecimalLength(m: int): (n: nat)
    ensures n >= 1
    decreases if m < 0 then -m + 1 else m
  {
    if m < 0 then 1 + DecimalLength(-m)
    else if m < 10 then 1
    else 1 + DecimalLength(m / 10)
  }

  /**
   * check_answer as written: it hands `str(id_question)` to the driver as
   * the parameter sequence, so each character becomes one bound value. The
   * query has one placeholder, so the call only binds when the decimal form
   * is a single character; otherwise the driver raises (None here). A single
   * digit binds as text, which the integer id column compares numerically.
   */
  function CheckAnswerAsWritten(s: Store, m: int, ansText: string): (r: Option<Verdict>)
    ensures r.Some? ==> r.value == CheckAnswer(s, m, ansText)
  {
    if DecimalLength(m) == 1 then Some(CheckAnswer(s, m, ansText)) else None
  }

  /** As written, only the membership ids 0 to 9 can be graded at all. */
  lemma CheckAnswerAsWrittenBindsOnlyDigits(s: Store, m: int, ansText: string)
    ensures CheckAnswerAsWritten(s, m, ansText).Some? <==> 0 <= m <= 9
  {
    if m < 0 {
      assert DecimalLength(m) == 1 + DecimalLength(-m);
    } else if m >= 10 {
      assert DecimalLength(m) == 1 + DecimalLength(m / 10);
    }
  }

  /** The tenth membership of the store, even with the correct answer, cannot be graded as written. */
  lemma TenthMembershipNotGraded(s: Store, ansText: string)
    ensures CheckAnswerAsWritten(s, 10, ansText) == None
  {
    CheckAnswerAsWrittenBindsOnlyDigits(s, 10, ansText);
  }

  // ---------------------------------------------------------------------
  // get_all_quiz
  // ---------------------------------------------------------------------

  predicate SortedById(qs: seq<Quiz>) {
    forall i, j :: 0 <= i < j < |qs| ==> qs[i].id <= qs[j].id
  }

  /** Inserts `x` into a list of quizzes sorted by id, keeping it sorted. */
  function InsertById(x: Quiz, sorted: seq<Quiz>): (r: seq<Quiz>)
    requires SortedById(sorted)
    ensures SortedById(r)
    ensures multiset(r) == multiset(sorted) + multiset{x}
    ensures |r| == |sorted| + 1 && (r[0] == x || (sorted != [] && r[0] == sorted[0]))
  {
    if sorted == [] then [x]
    else if x.id <= sorted[0].id then
      SortedCons(x, sorted);
      [x] + sorted
    else
      SortedTail(sorted);
      var rest := InsertById(x, sorted[1..]);
      SortedCons(sorted[0], rest);
      assert sorted == [sorted[0]] + sorted[1..];
      [sorted[0]] + rest
  }

  /** A sorted list stays sorted without its head. */
  lemma SortedTail(qs: seq<Quiz>)
    requires qs != [] && SortedById(qs)
    ensures SortedById(qs[1..])
  {
    forall i, j | 0 <= i < j < |qs| - 1
      ensures qs[1..][i].id <= qs[1..][j].id
    {
      assert qs[1..][i] == qs[i + 1] && qs[1..][j] == qs[j + 1];
    }
  }

  /** A quiz whose id is at most the head of a sorted list can go in front of it. */
  lemma SortedCons(a: Quiz, qs: seq<Quiz>)
    requires SortedById(qs)
    requires qs != [] ==> a.id <= qs[0].id
    ensures SortedById([a] + qs)
  {
    var r := [a] + qs;
    forall i, j | 0 <= i < j < |r|
      ensures r[i].id <= r[j].id
    {
      if i == 0 {
        assert r[j] == qs[j - 1];
        assert qs[0].id <= qs[j - 1].id;
      } else {
        assert r[i] == qs[i - 1] && r[j] == qs[j - 1];
      }
    }
  }

  /** `SELECT * FROM quiz ORDER BY id`: every quiz row, in ascending id order. */
  function GetAllQuiz(s: Store): (r: seq<Quiz>)
    ensures SortedById(r)
    ensures multiset(r) == multiset(s.quiz)
  {
    SortById(s.quiz)
  }

  function SortById(qs: seq<Quiz>): (r: seq<Quiz>)
    ensures SortedById(r)
    ensures multiset(r) == multiset(qs)
  {
    if qs == [] then []
    else
      assert qs == [qs[0]] + qs[1..];
      InsertById(qs[0], SortById(qs[1..]))
  }

  // ---------------------------------------------------------------------
  // randomly_distribute_questions and add_link
  // ---------------------------------------------------------------------

  /** The rowid SQLite gives a row inserted without one: one above the largest, 1 in an empty table. */
  function NextRowId(rows: seq<QuizContent>): (r: int)
    ensures forall c :: c in rows ==> c.id < r
    ensures rows == [] ==> r == 1
  {
    if rows == [] then 1
    else if |rows| == 1 then rows[0].id + 1
    else
      var rest := NextRowId(rows[1..]);
      if rows[0].id + 1 > rest then rows[0].id + 1 else rest
  }

  /** The assigned id is one above the largest existing id: SQLite's max + 1 rule. */
  lemma {:induction false} NextRowIdIsMaxPlusOne(rows: seq<QuizContent>)
    ensures rows != [] ==> exists c :: c in rows && NextRowId(rows) == c.id + 1
  {
    if |rows| == 1 {
      assert rows[0] in rows;
    } else if |rows| > 1 {
      NextRowIdIsMaxPlusOne(rows[1..]);
      assert rows[0] in rows;
      var c :| c in rows[1..] && NextRowId(rows[1..]) == c.id + 1;
      assert c in rows;
    }
  }

  /** add_link: appends the membership of question `idQuestion` in quiz `idQuiz` to quiz_content. */
  function AddLink(rows: seq<QuizContent>, idQuestion: int, idQuiz: int): (r: seq<QuizContent>)
    ensures |r| == |rows| + 1 && r == rows + [r[|rows|]]
    ensures r[|rows|].quizId == idQuiz && r[|rows|].questionId == idQuestion
    ensures forall c :: c in rows ==> c.id < r[|rows|].id
    ensures ContentIdsUnique(rows) ==> ContentIdsUnique(r)
  {
    rows + [QuizContent(NextRowId(rows), idQuiz, idQuestion)]
  }

  /** The ids of a list of question rows, in order. */
  function QuestionIds(qs: seq<Question>): seq<int> {
    seq(|qs|, i requires 0 <= i < |qs| => qs[i].id)
  }

  /** The question ids that a list of membership rows links, in order. */
  function LinkedQuestionIds(rows: seq<QuizContent>): seq<int> {
    seq(|rows|, i requires 0 <= i < |rows| => rows[i].questionId)
  }

  /** Python's `list.remove(x)`: drops the first element equal to `x`. */
  function RemoveFirst(xs: seq<Question>, x: Question): (r: seq<Question>)
    requires x in xs
    ensures |r| == |xs| - 1
    ensures multiset(QuestionIds(r)) + multiset{x.id} == multiset(QuestionIds(xs))
  {
    QuestionIdsCons(xs[0], xs[1..]);
    assert xs == [xs[0]] + xs[1..];
    if xs[0] == x then xs[1..]
    else
      var rest := RemoveFirst(xs[1..], x);
      QuestionIdsCons(xs[0], rest);
      [xs[0]] + rest
  }

  /** `list.remove(x)` drops exactly one row equal to `x` and keeps all the others. */
  lemma {:induction false} RemoveFirstRows(xs: seq<Question>, x: Question)
    requires x in xs
    ensures multiset(RemoveFirst(xs, x)) + multiset{x} == multiset(xs)
  {
    assert xs == [xs[0]] + xs[1..];
    if xs[0] != x {
      RemoveFirstRows(xs[1..], x);
    }
  }

  /** The ids of `[x] + xs` are `x`'s id followed by the ids of `xs`. */
  lemma QuestionIdsCons(x: Question, xs: seq<Question>)
    ensures multiset(QuestionIds([x] + xs)) == multiset{x.id} + multiset(QuestionIds(xs))
  {
    assert QuestionIds([x] + xs) == [x.id] + QuestionIds(xs);
  }

  /** Moving one question from the working list to a new link keeps the multiset of question ids. */
  lemma LinkKeepsQuestionIds(list: seq<Question>, added: seq<QuizContent>, current: Question, link: QuizContent)
    requires current in list && link.questionId == current.id
    ensures multiset(QuestionIds(RemoveFirst(list, current))) + multiset(LinkedQuestionIds(added + [link]))
         == multiset(QuestionIds(list)) + multiset(LinkedQuestionIds(added))
  {
    var linked := LinkedQuestionIds(added + [link]);
    assert linked == LinkedQuestionIds(added) + [current.id];
    assert multiset(linked) == multiset(LinkedQuestionIds(added)) + multiset{current.id};
  }

  /**
   * Links every question to a quiz picked arbitrarily, one question at a
   * time in an arbitrary order. None stands for the IndexError `choice`
   * raises on an empty quiz table when there is a question to link.
   */
  method RandomlyDistributeQuestions(s: Store) returns (r: Option<Store>)
    ensures r.None? <==> |s.question| > 0 && |s.quiz| == 0
    ensures r.Some? ==> r.value.quiz == s.quiz && r.value.question == s.question
    ensures r.Some? ==> |r.value.quizContent| == |s.quizContent| + |s.question|
    ensures r.Some? ==> r.value.quizContent[..|s.quizContent|] == s.quizContent
    ensures r.Some? ==> multiset(LinkedQuestionIds(r.value.quizContent[|s.quizContent|..])) == multiset(QuestionIds(s.question))
    ensures r.Some? ==> forall k :: |s.quizContent| <= k < |r.value.quizContent| ==>
                          exists z :: z in s.quiz && z.id == r.value.quizContent[k].quizId
    ensures r.Some? && ContentIdsUnique(s.quizContent) ==> ContentIdsUnique(r.value.quizContent)
  {
    var questionsIdList := s.question;
    var quizIdList := s.quiz;
    var content := s.quizContent;
    var n := |questionsIdList|;
    ghost var added: seq<QuizContent> := [];
    for k := 0 to n
      invariant |questionsIdList| == n - k
      invariant k > 0 ==> |quizIdList| > 0
      invariant content == s.quizContent + added && |added| == k
      invariant multiset(QuestionIds(questionsIdList)) + multiset(LinkedQuestionIds(added))
                == multiset(QuestionIds(s.question))
      invariant forall i :: 0 <= i < |added| ==> exists z :: z in s.quiz && z.id == added[i].quizId
      invariant ContentIdsUnique(s.quizContent) ==> ContentIdsUnique(content)
    {
      var i :| 0 <= i < |questionsIdList|;
      var currentQuestion := questionsIdList[i];
      if |quizIdList| == 0 {
        return None;
      }
      var j :| 0 <= j < |quizIdList|;
      content := AddLink(content, currentQuestion.id, quizIdList[j].id);
      ghost var link := content[|content| - 1];
      LinkKeepsQuestionIds(questionsIdList, added, currentQuestion, link);
      added := added + [link];
      questionsIdList := RemoveFirst(questionsIdList, currentQuestion);
    }
    assert QuestionIds(questionsIdList) == [];
    assert content[|s.quizContent|..] == added;
    r := Some(Store(s.quiz, s.question, content));
  }
}
