/** The SQL statements of the handlers, as filters, joins and sorts over the
    in-memory tables. A query without ORDER BY returns its rows in table
    order; the handlers never depend on that order. */
module Query {
  import opened Tables
  import opened Grading
  import opened Grouping
  import opened Seqs

  // ------------------------------------------------- answer-key query (grading)

  /** The key rows of one question: one per answer of that question. */
  function KeyRowsOf(q: Question, answers: seq<Answer>): (rows: seq<KeyRow>)
    ensures forall r :: r in rows <==>
              exists a :: a in answers && a.questionId == q.id && r == KeyRow(q.id, a.id, a.isCorrect)
  {
    if answers == [] then []
    else
      assert answers == [answers[0]] + answers[1..];
      (if answers[0].questionId == q.id then [KeyRow(q.id, answers[0].id, answers[0].isCorrect)] else [])
        + KeyRowsOf(q, answers[1..])
  }

  /** `questions q JOIN answers a ON a.question_id = q.id WHERE q.quiz_id = quizId`,
      projected on `(q.id, a.id, a.is_correct)`. */
  function QuizKeyRows(questions: seq<Question>, answers: seq<Answer>, quizId: int): (rows: seq<KeyRow>)
    ensures forall r :: r in rows <==>
              exists q, a :: && q in questions && a in answers && q.quizId == quizId
                             && a.questionId == q.id && r == KeyRow(q.id, a.id, a.isCorrect)
  {
    if questions == [] then []
    else
      assert questions == [questions[0]] + questions[1..];
      (if questions[0].quizId == quizId then KeyRowsOf(questions[0], answers) else [])
        + QuizKeyRows(questions[1..], answers, quizId)
  }

  /** The submit handler's answer-key query: the join, further restricted by
      `AND q.id IN (questionIds)`. */
  function SubmitKeyRows(questions: seq<Question>, answers: seq<Answer>, quizId: int, questionIds: seq<int>): seq<KeyRow>
  {
    Where(QuizKeyRows(questions, answers, quizId), (r: KeyRow) => r.questionId in questionIds)
  }

  /** Every key row of the submit query belongs to a question of the quiz. */
  lemma SubmitKeyRowsInQuiz(questions: seq<Question>, answers: seq<Answer>, quizId: int, questionIds: seq<int>)
    ensures forall r :: r in SubmitKeyRows(questions, answers, quizId, questionIds) ==>
              && r.questionId in questionIds
              && exists q :: q in questions && q.quizId == quizId && q.id == r.questionId
  {
  }

  /** Two key tables that agree on the valid questions and correct answers of
      every submitted question grade a submission alike. */
  lemma {:induction false} GradeAllCongruent(answers: seq<Submitted>, rows1: seq<KeyRow>, rows2: seq<KeyRow>)
    requires forall a :: a in answers ==>
               && (a.questionId in ValidIds(rows1) <==> a.questionId in ValidIds(rows2))
               && CorrectIds(rows1, a.questionId) == CorrectIds(rows2, a.questionId)
    ensures GradeAll(answers, rows1) == GradeAll(answers, rows2)
    decreases |answers|
  {
    if answers != [] {
      var init := answers[..|answers| - 1];
      assert forall a :: a in init ==> a in answers;
      assert answers[|answers| - 1] in answers;
      GradeAllCongruent(init, rows1, rows2);
    }
  }

  /** The `IN (questionIds)` restriction never changes a grade: every
      submitted question is in the list, so grading against the restricted
      rows equals grading against the quiz's whole answer key. */
  lemma InFilterIrrelevant(answers: seq<Submitted>, rows: seq<KeyRow>)
    ensures GradeAll(answers, Where(rows, (r: KeyRow) => r.questionId in QuestionIds(answers))) == GradeAll(answers, rows)
  {
    var ids := QuestionIds(answers);
    var kept := Where(rows, (r: KeyRow) => r.questionId in ids);
    forall a | a in answers
      ensures a.questionId in ValidIds(kept) <==> a.questionId in ValidIds(rows)
      ensures CorrectIds(kept, a.questionId) == CorrectIds(rows, a.questionId)
    {
      var i :| 0 <= i < |answers| && answers[i] == a;
      assert ids[i] == a.questionId;
      if a.questionId in ValidIds(rows) {
        var r :| r in rows && r.questionId == a.questionId;
        assert r in kept;
      }
    }
    GradeAllCongruent(answers, kept, rows);
  }

  /** `answers.map(a => a.questionId)`: one id per submitted pair, in order. */
  function QuestionIds(answers: seq<Submitted>): (ids: seq<int>)
    ensures |ids| == |answers|
    ensures forall i :: 0 <= i < |answers| ==> ids[i] == answers[i].questionId
  {
    seq(|answers|, i requires 0 <= i < |answers| => answers[i].questionId)
  }

  // ------------------------------------------ question listing (LEFT JOIN)

  /** The answers of question `qid`, in table order. */
  function OwnAnswers(answers: seq<Answer>, qid: int): seq<Answer>
  {
    Where(answers, (a: Answer) => a.questionId == qid)
  }

  /** The LEFT JOIN rows of one question: one per answer of the question, in
      table order, or one row with NULL answer columns when it has none. */
  function QuestionRows(q: Question, answers: seq<Answer>): (rows: seq<JoinedRow>)
    ensures forall r :: r in rows ==> r.questionId == q.id && r.questionText == q.text && r.questionType == q.questionType
    ensures forall r :: r in rows && r.answer.Some? ==> r.answer.value in answers && r.answer.value.questionId == q.id
    ensures forall a :: a in answers && a.questionId == q.id ==> JoinedRow(q.id, q.text, q.questionType, Some(a)) in rows
    ensures AnswerColumn(rows) == OwnAnswers(answers, q.id)
    ensures OwnAnswers(answers, q.id) == [] <==> rows == [JoinedRow(q.id, q.text, q.questionType, None)]
    ensures rows != []
  {
    var own := OwnAnswers(answers, q.id);
    if own == [] then
      var rows := [JoinedRow(q.id, q.text, q.questionType, None)];
      assert rows[..0] == [];
      rows
    else
      JoinedFacts(q, own);
      Joined(q, own)
  }

  /** One joined row of question `q` per answer in `own`, in order. */
  function Joined(q: Question, own: seq<Answer>): seq<JoinedRow>
  {
    seq(|own|, i requires 0 <= i < |own| => JoinedRow(q.id, q.text, q.questionType, Some(own[i])))
  }

  lemma JoinedFacts(q: Question, own: seq<Answer>)
    requires own != []
    ensures var rows := Joined(q, own);
            && (forall r :: r in rows ==> && r.questionId == q.id && r.questionText == q.text
                                          && r.questionType == q.questionType && r.answer.Some? && r.answer.value in own)
            && (forall a :: a in own ==> JoinedRow(q.id, q.text, q.questionType, Some(a)) in rows)
            && AnswerColumn(rows) == own
            && rows[0].answer.Some?
  {
    var rows := Joined(q, own);
    assert forall a :: a in own ==> exists i :: 0 <= i < |own| && own[i] == a && rows[i].answer == Some(a);
    assert forall i :: 0 <= i < |own| ==> own[i] in own;
    assert forall r :: r in rows ==> exists i :: 0 <= i < |own| && rows[i] == r;
    ColumnOfSome(rows, own);
  }


  /** Rows whose answer columns are, one by one, the answers `s` have `s` as their answer column. */
  lemma {:induction false} ColumnOfSome(rows: seq<JoinedRow>, s: seq<Answer>)
    requires |rows| == |s| && forall i :: 0 <= i < |s| ==> rows[i].answer == Some(s[i])
    ensures AnswerColumn(rows) == s
    decreases |s|
  {
    if s != [] {
      var n := |s| - 1;
      ColumnOfSome(rows[..n], s[..n]);
      assert s == s[..n] + [s[n]];
    }
  }

  /** `questions q LEFT JOIN answers a ON q.id = a.question_id WHERE q.quiz_id = quizId`. */
  function QuizRows(questions: seq<Question>, answers: seq<Answer>, quizId: int): (rows: seq<JoinedRow>)
    ensures RowIds(rows) == set q | q in questions && q.quizId == quizId :: q.id
    ensures forall r :: r in rows ==>
              exists q :: && q in questions && q.quizId == quizId && q.id == r.questionId
                          && r.questionText == q.text && r.questionType == q.questionType
    ensures forall r :: r in rows && r.answer.Some? ==> r.answer.value in answers && r.answer.value.questionId == r.questionId
    ensures forall q, a :: q in questions && q.quizId == quizId && a in answers && a.questionId == q.id ==>
              JoinedRow(q.id, q.text, q.questionType, Some(a)) in rows
  {
    if questions == [] then []
    else
      assert questions == [questions[0]] + questions[1..];
      var head := if questions[0].quizId == quizId then QuestionRows(questions[0], answers) else [];
      var tail := QuizRows(questions[1..], answers, quizId);
      assert questions[0].quizId == quizId ==> head[0] in head && head[0].questionId == questions[0].id;
      RowIdsConcat(head, tail);
      assert RowIds(head) == if questions[0].quizId == quizId then {questions[0].id} else {};
      head + tail
  }

  lemma RowIdsConcat(a: seq<JoinedRow>, b: seq<JoinedRow>)
    ensures RowIds(a + b) == RowIds(a) + RowIds(b)
  {
    assert forall r :: r in a + b <==> r in a || r in b;
  }

  /** With question ids unique, the quiz rows give each question of the quiz
      the listed views of exactly its own answers, in table order. */
  lemma {:induction false} QuizAnswers(questions: seq<Question>, answers: seq<Answer>, quizId: int, q: Question)
    requires QuestionKeys(questions)
    requires q in questions && q.quizId == quizId
    ensures AnswersOf(QuizRows(questions, answers, quizId), q.id) == ListedViews(OwnAnswers(answers, q.id))
    decreases |questions|
  {
    KeysOfTail(questions);
    if questions[0] == q {
      FirstQuestionAnswers(questions, answers, quizId);
    } else {
      assert questions == [questions[0]] + questions[1..];
      assert q in questions[1..];
      SkipQuestion(questions, answers, quizId, q.id);
      QuizAnswers(questions[1..], answers, quizId, q);
    }
  }

  /** The first question of the quiz collects its answers from its own rows,
      since no later question shares its id. */
  lemma FirstQuestionAnswers(questions: seq<Question>, answers: seq<Answer>, quizId: int)
    requires QuestionKeys(questions) && questions != [] && questions[0].quizId == quizId
    ensures AnswersOf(QuizRows(questions, answers, quizId), questions[0].id) == ListedViews(OwnAnswers(answers, questions[0].id))
  {
    var q, rest := questions[0], questions[1..];
    var head, tail := QuestionRows(q, answers), QuizRows(rest, answers, quizId);
    KeysOfTail(questions);
    QuizRowsCons(questions, answers, quizId);
    AnswersOfAppend(head, tail, q.id);
    AnswersOfColumn(head, q.id);
    NotInRows(rest, answers, quizId, q.id);
    AnswersOfAbsent(tail, q.id);
    assert AnswersOf(head, q.id) + [] == AnswersOf(head, q.id);
  }

  /** A question that is not the first collects nothing from the first's rows. */
  lemma SkipQuestion(questions: seq<Question>, answers: seq<Answer>, quizId: int, id: int)
    requires questions != [] && questions[0].id != id
    ensures AnswersOf(QuizRows(questions, answers, quizId), id) == AnswersOf(QuizRows(questions[1..], answers, quizId), id)
  {
    var head, tail := QuizRows([questions[0]], answers, quizId), QuizRows(questions[1..], answers, quizId);
    QuizRowsCons(questions, answers, quizId);
    AnswersOfAppend(head, tail, id);
    NotInRows([questions[0]], answers, quizId, id);
    AnswersOfAbsent(head, id);
    assert [] + AnswersOf(tail, id) == AnswersOf(tail, id);
  }



  /** The quiz's rows are the first question's rows followed by the rest's. */
  lemma QuizRowsCons(questions: seq<Question>, answers: seq<Answer>, quizId: int)
    requires questions != []
    ensures QuizRows(questions, answers, quizId) == QuizRows([questions[0]], answers, quizId) + QuizRows(questions[1..], answers, quizId)
    ensures QuizRows([questions[0]], answers, quizId) == if questions[0].quizId == quizId then QuestionRows(questions[0], answers) else []
  {
    assert [questions[0]][1..] == [];
  }

  /** A question id no question of the catalog has never shows up in the quiz's rows. */
  lemma NotInRows(questions: seq<Question>, answers: seq<Answer>, quizId: int, id: int)
    requires forall q :: q in questions ==> q.id != id
    ensures id !in RowIds(QuizRows(questions, answers, quizId))
  {
  }

  /** The catalog's tail keeps the key, and none of its rows shares the head's id. */
  lemma KeysOfTail(questions: seq<Question>)
    requires QuestionKeys(questions) && questions != []
    ensures QuestionKeys(questions[1..])
    ensures forall q :: q in questions[1..] ==> q.id != questions[0].id
  {
    var rest := questions[1..];
    forall i, j | 0 <= i < j < |rest|
      ensures rest[i].id != rest[j].id
    {
      assert rest[i] == questions[i + 1] && rest[j] == questions[j + 1];
    }
    forall q | q in rest
      ensures q.id != questions[0].id
    {
      var k :| 0 <= k < |rest| && rest[k] == q;
      assert q == questions[k + 1];
    }
  }


  /** The sort columns of the question listing: question id, then a per-row
      value (`answer_order`, or the value `RAND()` drew for the row). */
  function ListingKey(r: JoinedRow, second: JoinedRow -> int): (int, int)
  {
    (r.questionId, second(r))
  }

  /** `answer_order` of a row; the single NULL row of a question without answers sorts as 0. */
  function OrderOf(r: JoinedRow): int
  {
    if r.answer.Some? then r.answer.value.answerOrder else 0
  }

  lemma SortedListingByQuestion(rows: seq<JoinedRow>, second: JoinedRow -> int)
    requires SortedBy(rows, (r: JoinedRow) => ListingKey(r, second))
    ensures ByQuestionId(rows)
  {
    forall i, j | 0 <= i < j < |rows|
      ensures rows[i].questionId <= rows[j].questionId
    {
      assert KeyLe(ListingKey(rows[i], second), ListingKey(rows[j], second));
    }
  }

  predicate InAnswerOrder(vs: seq<AnswerView>)
  {
    forall i, j :: 0 <= i < j < |vs| ==> vs[i].answerOrder <= vs[j].answerOrder
  }

  /** On rows sorted by `(q.id, a.answer_order)`, every question's answers come out by `answer_order`. */
  lemma {:induction false} AnswersByOrder(rows: seq<JoinedRow>, q: int)
    requires SortedBy(rows, (r: JoinedRow) => ListingKey(r, OrderOf))
    ensures InAnswerOrder(AnswersOf(rows, q))
    decreases |rows|
  {
    if rows != [] {
      var init, last := rows[..|rows| - 1], rows[|rows| - 1];
      assert SortedBy(init, (r: JoinedRow) => ListingKey(r, OrderOf));
      AnswersByOrder(init, q);
      AnswersOfMembers(init, q);
      var before := AnswersOf(init, q);
      if last.questionId == q && HasAnswer(last) {
        forall i | 0 <= i < |before|
          ensures before[i].answerOrder <= last.answer.value.answerOrder
        {
          assert before[i] in before;
          var r :| r in init && r.questionId == q && HasAnswer(r) && before[i] == View(r.answer.value);
          var m :| 0 <= m < |init| && init[m] == r;
          assert KeyLe(ListingKey(rows[m], OrderOf), ListingKey(rows[|rows| - 1], OrderOf));
        }
        var vs := AnswersOf(rows, q);
        assert vs == before + [View(last.answer.value)];
        forall i, j | 0 <= i < j < |vs|
          ensures vs[i].answerOrder <= vs[j].answerOrder
        {
          if j < |before| {
            assert vs[i] == before[i] && vs[j] == before[j];
            assert before[i].answerOrder <= before[j].answerOrder;
          } else {
            assert vs[i] == before[i];
          }
        }
      } else {
        assert AnswersOf(rows, q) == before + [];
        assert before + [] == before;
      }
    }
  }

  // ---------------------------------------------------------- attempts query

  /** One row of the attempts listing. */
  datatype AttemptView = AttemptView(attemptId: int, userId: int, quizId: int, quizTitle: string, moduleType: string,
                                     score: int, totalQuestions: int, completedAt: int)

  function AttemptViewOf(a: Attempt, q: Quiz): AttemptView
  {
    AttemptView(a.id, a.userId, a.quizId, q.title, q.moduleType, a.score, a.totalQuestions, a.completedAt)
  }

  function AttemptJoin(a: Attempt, quizzes: seq<Quiz>): (rows: seq<AttemptView>)
    ensures forall v :: v in rows <==> exists q :: q in quizzes && q.id == a.quizId && v == AttemptViewOf(a, q)
  {
    if quizzes == [] then []
    else
      assert quizzes == [quizzes[0]] + quizzes[1..];
      (if quizzes[0].id == a.quizId then [AttemptViewOf(a, quizzes[0])] else []) + AttemptJoin(a, quizzes[1..])
  }

  /** `user_attempts ua JOIN quizzes q ON q.id = ua.quiz_id WHERE ua.user_id = userId`. */
  function UserAttemptRows(attempts: seq<Attempt>, quizzes: seq<Quiz>, userId: int): (rows: seq<AttemptView>)
    ensures forall v :: v in rows <==>
              exists a, q :: && a in attempts && q in quizzes && a.userId == userId && q.id == a.quizId
                             && v == AttemptViewOf(a, q)
  {
    if attempts == [] then []
    else
      assert attempts == [attempts[0]] + attempts[1..];
      (if attempts[0].userId == userId then AttemptJoin(attempts[0], quizzes) else [])
        + UserAttemptRows(attempts[1..], quizzes, userId)
  }

  /** `ORDER BY ua.completed_at DESC, ua.id DESC`, as an ascending order on the negated columns. */
  function Recency(v: AttemptView): (int, int)
  {
    (-v.completedAt, -v.attemptId)
  }

  predicate NewestFirst(rows: seq<AttemptView>)
  {
    forall i, j :: 0 <= i < j < |rows| ==>
      rows[i].completedAt > rows[j].completedAt
      || (rows[i].completedAt == rows[j].completedAt && rows[i].attemptId >= rows[j].attemptId)
  }

  /** The attempts listing: the user's attempts joined with their quiz, newest first. */
  function AttemptsListing(attempts: seq<Attempt>, quizzes: seq<Quiz>, userId: int): (rows: seq<AttemptView>)
    ensures multiset(rows) == multiset(UserAttemptRows(attempts, quizzes, userId))
    ensures forall v :: v in rows ==> v.userId == userId
    ensures NewestFirst(rows)
  {
    var rows := SortBy(UserAttemptRows(attempts, quizzes, userId), Recency);
    SameMembers(rows, UserAttemptRows(attempts, quizzes, userId));
    RecencyIsNewestFirst(rows);
    rows
  }

  lemma RecencyIsNewestFirst(rows: seq<AttemptView>)
    requires SortedBy(rows, Recency)
    ensures NewestFirst(rows)
  {
    forall i, j | 0 <= i < j < |rows|
      ensures rows[i].completedAt > rows[j].completedAt
              || (rows[i].completedAt == rows[j].completedAt && rows[i].attemptId >= rows[j].attemptId)
    {
      assert KeyLe(Recency(rows[i]), Recency(rows[j]));
    }
  }
}
