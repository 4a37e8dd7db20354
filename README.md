# Quiz web application: a Dafny model

The application runs quizzes in a browser. A SQLite database holds three
tables:

- `quiz`, the quizzes;
- `question`, a question with its correct answer and three wrong ones;
- `quiz_content`, membership rows linking a question to a quiz under the
  membership's own id.

A Flask front end walks one client through a quiz. The position of that
client (its quiz, the last membership answered, its score and its answer
count) lives in the session.

This project models the runtime core of the application in Dafny and
proves properties of the model:

- **`DbCrud`** (`db_crud.dfy`). The database is a value, `Store`, with one
  sequence of rows per table. Each query is a pure function over these rows:
  - `GetQuestionAfter` is the next-question query, an inner join that picks
    the smallest membership id above a cursor;
  - `CheckAnswer` is the answer check, returning one of three verdicts that stand
    for Python's `True`, `None` and `False`;
  - `GetQuizLength` is the question count;
  - `GetAllQuiz` is the ordered quiz list.
  
  `RandomlyDistributeQuestions` is the seeding loop. It is a method whose
  random picks are arbitrary choices. `add_link` is the row append it
  performs, with the id SQLite gives an `INTEGER PRIMARY KEY` row inserted
  without one.
- **`UtilityFunctions`** (`utility_functions.dfy`). The session dictionary
  is the class `Session`, with one `Option` field per key. `StartQuiz`,
  `EndQuiz` and `SaveAnswers` are methods that update those fields. Its
  invariant `Valid` says two things: either all four keys are present or
  none is, and `0 <= answers <= total`. `QuestionForm` builds the answer list
  in an array and shuffles it in place.
- **`App`** (`app.dfy`). The handlers of `/`, `/test` and `/result` are
  methods of the `App` module that take the client's `Session` and update
  it through its methods. Each returns an `Outcome`, which is either a redirect
  or the template it renders. Several methods drive the handlers as a client
  would:
  - `HonestSession` plays a whole quiz;
  - `DoubleSubmission` sends the same answer twice;
  - the remaining methods exercise the edge cases: the `-1` sentinel, an
    empty quiz, `/result` before or after a quiz, and a concrete two-question
    quiz.

Form fields reach the model already parsed to integers. The request method,
the form contents and the store are parameters. The random choices are `:|`
choices.

## Model

| member | source | states |
|---|---|---|
| DbCrud.FindQuestion | db_crud.py:166-167 | the question row found has the requested id and is in the table; None exactly when no row has that id |
| DbCrud.Joined | db_crud.py:165-167 | the joined row carries the membership id, not the question's own id (its full meaning is in JoinedSpec) |
| DbCrud.JoinedSpec | db_crud.py:165-167 | a membership survives the inner join exactly when a question row with its `question_id` exists, and the joined row is that question's columns under the membership id |
| DbCrud.MinCandidate | db_crud.py:169-172 | the scan `ORDER BY quiz_content.id` with `fetchone`; what it returns is stated by MinCandidateSpec |
| DbCrud.MinCandidateSpec | db_crud.py:164-172 | the first row of the ordered query is a membership of the quiz above the cursor that joins a question, none has a smaller id, and there is no row only when no membership qualifies |
| DbCrud.GetQuestionAfter | db_crud.py:157-177 | the returned question carries a membership id strictly greater than the cursor |
| DbCrud.GetQuestionAfterSpec | db_crud.py:157-177 | None exactly when the quiz has no joined membership above the cursor; otherwise the joined row of such a membership whose id is minimal among all of them |
| DbCrud.GetQuestionAfterShrinks | db_crud.py:168 | moving the cursor to the returned membership strictly reduces the number of rows the query can still return |
| DbCrud.GetQuestionAfterMonotone | db_crud.py:168-169 | for cursors last1 <= last2, a result at last2 implies a result at last1 with an id no larger |
| DbCrud.GetQuestionAfterStable | db_crud.py:168-172 | a cursor moved anywhere below the next membership returns the same question |
| DbCrud.SameIdSameRow | db_crud.py:64 | in a table whose id column is unique, two rows with the same id are the same row |
| DbCrud.OrphanMembershipSkipped | db_crud.py:166-167 | a membership whose question row is missing is never returned |
| DbCrud.EmptyQuizIsExhausted | db_crud.py:174-177 | a quiz without membership rows yields None from every cursor, 0 included |
| DbCrud.CandidateCountAntitone | db_crud.py:168 | raising the cursor never adds rows to the query's result |
| DbCrud.CandidateCountShrinks | db_crud.py:168 | raising the cursor past a row of the result removes at least that row |
| DbCrud.Walk | db_crud.py:157-177 | the membership ids successive queries return from a cursor are all above it, strictly increasing, and no more than the rows available |
| DbCrud.Prepend | db_crud.py:168-169 | putting a smaller id in front of a strictly increasing list above it keeps the list strictly increasing and above the cursor |
| DbCrud.WalkVisitsEveryCandidate | db_crud.py:164-172 | every membership the query could return after the cursor is eventually visited by the walk |
| DbCrud.QuizRows | db_crud.py:146-152 | the rows selected are exactly the membership rows of the quiz, with no join |
| DbCrud.GetQuizLength | db_crud.py:138-154 | the count is at most the table size, and zero exactly when the quiz has no membership rows |
| DbCrud.QuizRowsCount | db_crud.py:146-152 | the filter keeps exactly as many rows as the quiz has, counted row by row |
| DbCrud.GetQuizLengthCounts | db_crud.py:138-154 | get_quiz_lenght equals the number of membership rows of the quiz, with no join |
| DbCrud.CandidatesWithinQuiz | db_crud.py:146-152 | the joined query never yields more rows than the quiz has memberships |
| DbCrud.WalkWithinQuizLength | db_crud.py:138-177 | the number of questions returned in turn from cursor 0 never exceeds the quiz length |
| DbCrud.MembershipAnswer | db_crud.py:198-206 | check_answer's SELECT with `fetchone`; what it finds is stated by MembershipAnswerSpec |
| DbCrud.MembershipAnswerSpec | db_crud.py:198-206 | the answer lookup finds nothing exactly when no membership with that id joins a question, and what it finds is such a row's answer |
| DbCrud.CheckAnswer | db_crud.py:191-212 | check_answer with the membership looked up by id; its three outcomes are stated by CheckAnswerSpec, CheckAnswerExact and GradesReturnedQuestion |
| DbCrud.CheckAnswerSpec | db_crud.py:191-212 | Missing (False) exactly when no joined row has the membership id; Correct (True) only when such a row's answer equals the text; Mismatch (None) only when it differs |
| DbCrud.CheckAnswerExact | db_crud.py:208-212 | with unique membership ids, Correct exactly when the joined row's answer equals the text (exact, case-sensitive string equality) |
| DbCrud.GradesReturnedQuestion | db_crud.py:165-175 | the membership id the sequencer returns is always found by check_answer, and grades as correct exactly for that question's stored answer |
| DbCrud.DecimalLength | db_crud.py:205 | the number of characters of `str(id_question)`, at least one |
| DbCrud.CheckAnswerAsWritten | db_crud.py:205 | when the call binds, it grades like the intended lookup |
| DbCrud.CheckAnswerAsWrittenBindsOnlyDigits | db_crud.py:205 | as written, the call binds exactly for membership ids 0 to 9 |
| DbCrud.TenthMembershipNotGraded | db_crud.py:205 | as written, membership id 10 cannot be graded, whatever the answer |
| DbCrud.InsertById | db_crud.py:183 | inserting into an id-sorted list keeps it sorted and adds exactly that quiz |
| DbCrud.SortedTail | db_crud.py:183 | an id-sorted list stays sorted without its head |
| DbCrud.SortedCons | db_crud.py:183 | a quiz whose id is at most the head of a sorted list can be put in front of it |
| DbCrud.SortById | db_crud.py:183 | the result is sorted by id and a permutation of the input |
| DbCrud.GetAllQuiz | db_crud.py:180-188 | every quiz row exactly once (as a multiset), in ascending id order |
| DbCrud.NextRowId | db_crud.py:63-64 | the id SQLite assigns is above every existing id, and 1 in an empty table |
| DbCrud.NextRowIdIsMaxPlusOne | db_crud.py:63-64 | in a non-empty table the id assigned is one above some existing id, so it is exactly the largest id plus one |
| DbCrud.AddLink | db_crud.py:125-135 | one row is appended with the given quiz and question, every old row is kept, and the new id is fresh, so unique ids stay unique |
| DbCrud.RemoveFirst | db_crud.py:243 | `list.remove` leaves the list one row shorter, and the multiset of ids loses exactly the removed row's id |
| DbCrud.RemoveFirstRows | db_crud.py:243 | `list.remove` drops exactly one row equal to the argument and keeps every other row (as a multiset) |
| DbCrud.QuestionIdsCons | db_crud.py:243 | the ids of a list with a row in front are that row's id plus the ids of the rest |
| DbCrud.LinkKeepsQuestionIds | db_crud.py:240-243 | moving one question from the working list to a new link keeps the multiset of question ids across the two |
| DbCrud.RandomlyDistributeQuestions | db_crud.py:236-243 | fails (IndexError) exactly when there are questions but no quiz; otherwise the old rows are kept, one link per question is appended, the linked question ids are exactly the question ids, each link names an existing quiz, and membership ids stay unique |
| UtilityFunctions.Session.constructor | utility_functions.py:24 | a new client's session has no keys, the same empty state `session.clear()` leaves, and satisfies the invariant |
| UtilityFunctions.Session.StartQuiz | utility_functions.py:8-18 | `quiz` is the given id, or 1 when none is given; the cursor, score and count are 0 |
| UtilityFunctions.Session.EndQuiz | utility_functions.py:21-24 | the session has no keys left |
| UtilityFunctions.Session.SaveAnswers | utility_functions.py:34-41 | the cursor becomes the submitted id, the count goes up by exactly 1, the score goes up by 1 exactly when check_answer is truthy and stays put otherwise, the quiz is unchanged, and 0 <= answers <= total is kept |
| UtilityFunctions.Shuffle | utility_functions.py:57 | the array's contents after shuffling are a permutation of what they were |
| UtilityFunctions.QuestionForm | utility_functions.py:44-58 | the page shows the question's prompt and its membership id, with four choices that are a permutation of the correct answer and the three wrong ones |
| App.Index | app.py:17-30 | GET selects the sentinel quiz -1 with zeroed counters and renders every quiz in id order; POST selects the submitted quiz with zeroed counters and redirects to `/test` |
| App.Test | app.py:33-45 | the guard `QuizInProgress` is app.py:36: without a quiz, or with a negative one, redirects to `/` and leaves the session unchanged; otherwise POST records exactly one answer (as SaveAnswers) and GET changes nothing, and then the page is the next question after the cursor, or a redirect to `/result` exactly when there is none |
| App.Result | app.py:48-56 | when `answers` is present, renders the score and the count read before clearing and leaves the session empty; otherwise redirects to `/` and changes nothing; a rendered score never exceeds the count |
| App.BeginQuiz | app.py:25-28 | choosing a quiz and opening `/test` leaves the cursor and count at 0 and shows the quiz's first question, or the result redirect |
| App.AnswerShown | app.py:39-45 | answering the page shown, with its membership id, moves the cursor strictly forward to that membership and counts one more answer |
| App.HonestSession | app.py:17-56 | a client that always answers the question shown reaches the result page with a count equal to the number of memberships walked from 0, never more than the quiz length, and a score within the count; the session is then empty |
| App.ResultAfterIndexGet | app.py:22-24 | right after `GET /`, `/result` renders 0 out of 0 instead of redirecting |
| App.TestAfterIndexGet | app.py:36-37 | right after `GET /`, the quiz is -1, so `/test` redirects to `/` |
| App.TestAfterNegativeQuiz | app.py:36-37 | a quiz started with a negative id makes `/test` redirect to `/` |
| App.ResultWithoutQuiz | app.py:51-56 | on a new session, and again after it, `/result` redirects to `/` |
| App.DoubleSubmission | utility_functions.py:36-41 | submitting the same membership twice moves the cursor to it and counts two answers: nothing deduplicates |
| App.EmptyQuizScenario | app.py:41-43 | a quiz without memberships goes straight from `/test` to the result redirect, and the result is 0 out of 0 |
| App.TwoQuestionSequence | db_crud.py:164-177 | on a two-membership quiz the query returns membership 1, then membership 2, each under its membership id, then None |
| App.TwoQuestionGrades | db_crud.py:198-212 | on that quiz the correct text grades Correct, a wrong one Mismatch, and an unknown membership Missing |
| App.TwoQuestionScenario | app.py:33-56 | a client answering the first question right and the second wrong sees both questions in order, is then redirected to the result, and gets 1 out of 2 |

## Left out

- SQLite plumbing is not modelled: the connection and cursor globals, opening and closing, `do_query`, dropping and creating the tables, and the printing helpers `get_table` and `show_tables`. The tables are sequences of rows instead.
- The seeding and admin helpers are not modelled: `add_test_questions`, `add_test_quiz` and `add_links_interactively` read configuration data or console input. `get_quiz_count`, `get_random_quiz_id` and `main` are not part of the runtime.
- Flask, dotenv and the templates are represented only by the `Outcome` values. This covers app construction, `render_template`, `redirect`/`url_for` and `app.run`. `quiz_form` is the `RenderQuizList` outcome of `Index`.
- `random.shuffle` and `random.choice` are arbitrary choices. Nothing is stated about their distribution.
- `int()` on a malformed form field raises, and the request ends in a server error. This is not modelled: form fields are integers already.
- `last_question` is stored as the raw form string and compared through SQLite's type affinity. The model keeps it as an integer.
- The `BAD_REQUEST` branch of `index` is not modelled. It is reached by a HEAD request, which the routing layer accepts on any GET route; returning an `HTTPStatus` there is not a valid response and ends in a server error. `IndexRequest` has only GET and POST.
- The `len(next_question) == 0` test in `/test` is not modelled. A `Question` always has six fields, so that test is never true.
- Concurrent requests on one session are not modelled.
- `Valid`, the session invariant, is a precondition of `Test` and `Result`. No reachable session breaks it: only `start_quiz` adds keys and only `end_quiz` removes them, all four at once, and `save_answers` keeps `0 <= answers <= total`. A forged session missing some keys would make some paths raise `KeyError` (utility_functions.py:39, app.py:41, app.py:52), and one with `answers > total` would be rendered as is. Neither case is modelled.
- `RandomlyDistributeQuestions` does not model the foreign-key check on insertion. Every link it adds names an existing quiz and a question from the table, so the check cannot fail.
- CheckAnswer: the rest of the model uses the answer check that looks the membership up by id. The driver's per-character binding of `str(id_question)` is modelled only by `CheckAnswerAsWritten`; see Findings.
- The default arguments of `get_question_after` (`last_question_id=0`, `id_quiz=1`) are not modelled: every caller passes both, so `GetQuestionAfter` always takes them.
- NextRowId: uses unbounded integers, so SQLite's 64-bit rowid limit, and what it does once the largest rowid is taken, is not modelled.
- The handlers are methods of the `App` module that take the `Session` they act on, not methods of the `Session` class; the session state and its updates are the same either way.
- HonestSession: the strictly increasing cursor is stated both per step (`AnswerShown`) and as a sequence (`Walk`). It is not stated as a recorded trace of the session's states.

## Findings

When the failing binding raises inside `save_answers`, `last_question` and `total` have already been updated (utility_functions.py:38-40), so the failed request still counts one answer. The model follows the corrected lookup and does not capture that partial update.

| source | as written | input that shows it | evidently intended | confidence | as-written member | corrected member |
|---|---|---|---|---|---|---|
| db_crud.py:205 | `cursor.execute(query, str(id_question))` binds each character of the decimal id as a separate parameter of a one-placeholder query | membership id 10 (the string "10" gives two bindings, so the driver raises); any id outside 0..9 fails the same way | bind the id as the single parameter, `[id_question]` | not executed; high | DbCrud.CheckAnswerAsWritten, DbCrud.TenthMembershipNotGraded | DbCrud.CheckAnswer with DbCrud.CheckAnswerSpec |
