/** The request handlers of the quiz server, each one sequential step over
    the in-memory store and the client's session.

    `App` holds the tables and the session of one client. The catalog
    (quizzes, questions, answers) is never written; users, attempts and
    responses only grow. Every handler answers with a status and a payload;
    `fault` names the store call that fails, if any. */
module Server {
  import opened Tables
  import opened Grading
  import opened Grouping
  import opened Query
  import opened Seqs

  datatype Payload =
    | Failure(message: string)
    | Welcome(message: string, user: PublicUser)
    | CurrentUser(user: PublicUser)
    | Goodbye(message: string)
    | QuizInfo(quiz: Quiz)
    | QuestionList(questions: seq<QuestionRecord>)
    | Results(attemptId: int, score: int, totalQuestions: int, correctCount: int)
    | AttemptList(attempts: seq<AttemptView>)

  datatype Reply = Reply(status: int, payload: Payload)

  function Fail(status: int, message: string): Reply
  {
    Reply(status, Failure(message))
  }

  const NotLoggedIn := "Not logged in"
  const DatabaseError := "Database error"
  const FieldsRequired := "Username, email, and password are required"
  const AlreadyExists := "Username or email already exists"
  const CreateFailed := "Failed to create user"
  const Registered := "User registered successfully"
  const CredentialsRequired := "Email and password are required"
  const InvalidLogin := "Invalid email or password"
  const LoginOk := "Login successful"
  const LogoutFailed := "Failed to logout"
  const LogoutOk := "Logout successful"
  const UserNotFound := "User not found"
  const QuizNotFound := "Quiz not found"
  const AnswersRequired := "Answers are required"
  const NoQuestionAnswers := "No question answers provided"
  const AttemptFailed := "Failed to save attempt"
  const ResponsesFailed := "Failed to save responses"
  const InvalidUserId := "Invalid user id"
  const Forbidden := "Forbidden"

  // ------------------------------------------------------------ the store's invariants

  /** Users have positive, increasing ids below the counter, and no two share
      a username or an email. */
  ghost predicate UsersValid(users: seq<User>, nextUserId: int)
  {
    && nextUserId >= 1
    && (forall i :: 0 <= i < |users| ==> 1 <= users[i].id < nextUserId)
    && (forall i, j :: 0 <= i < j < |users| ==> users[i].id < users[j].id)
    && (forall i, j :: 0 <= i < j < |users| ==> users[i].username != users[j].username && users[i].email != users[j].email)
  }

  /** Attempts have positive, increasing ids below the counter and a score no
      larger than their total. */
  ghost predicate AttemptsValid(attempts: seq<Attempt>, nextAttemptId: int)
  {
    && nextAttemptId >= 1
    && (forall i :: 0 <= i < |attempts| ==> 1 <= attempts[i].id < nextAttemptId)
    && (forall i, j :: 0 <= i < j < |attempts| ==> attempts[i].id < attempts[j].id)
    && (forall i :: 0 <= i < |attempts| ==> 0 <= attempts[i].score <= attempts[i].totalQuestions)
  }

  /** Every response belongs to a recorded attempt and answers a question of that attempt's quiz. */
  ghost predicate ResponsesBelong(responses: seq<Response>, attempts: seq<Attempt>, questions: seq<Question>)
  {
    forall r :: r in responses ==> Belongs(r, attempts, questions)
  }

  ghost predicate Belongs(r: Response, attempts: seq<Attempt>, questions: seq<Question>)
  {
    exists a :: a in attempts && a.id == r.attemptId && InQuiz(questions, r.questionId, a.quizId)
  }

  /** Question `questionId` is one of quiz `quizId`'s. */
  ghost predicate InQuiz(questions: seq<Question>, questionId: int, quizId: int)
  {
    exists q :: q in questions && q.id == questionId && q.quizId == quizId
  }

  /** The responses stored for one attempt. */
  function ResponsesOf(responses: seq<Response>, attemptId: int): seq<Response>
  {
    Where(responses, (r: Response) => r.attemptId == attemptId)
  }

  function CountCorrectResponses(rs: seq<Response>): nat
  {
    if rs == [] then 0
    else CountCorrectResponses(rs[..|rs| - 1]) + (if rs[|rs| - 1].isCorrect then 1 else 0)
  }

  /** An attempt's stored responses are either none at all (nothing was
      graded, or saving them failed) or exactly its graded answers: as many
      as its total, with as many correct as its score. */
  ghost predicate ScoresRecorded(attempts: seq<Attempt>, responses: seq<Response>)
  {
    forall a :: a in attempts ==> ScoreAgrees(a, ResponsesOf(responses, a.id))
  }

  predicate ScoreAgrees(a: Attempt, rs: seq<Response>)
  {
    rs == [] || (|rs| == a.totalQuestions && CountCorrectResponses(rs) == a.score)
  }

  /** The rows inserted for a graded list: `graded.map(g => [attemptId, ...])`. */
  function ResponsesFor(attemptId: int, graded: seq<Graded>): seq<Response>
  {
    seq(|graded|, i requires 0 <= i < |graded| =>
      Response(attemptId, graded[i].questionId, graded[i].selectedAnswerId, graded[i].isCorrect))
  }

  /** The response rows of a graded list count its correct entries. */
  lemma {:induction false} ResponsesForCount(attemptId: int, graded: seq<Graded>)
    ensures |ResponsesFor(attemptId, graded)| == |graded|
    ensures CountCorrectResponses(ResponsesFor(attemptId, graded)) == CountCorrect(graded)
    decreases |graded|
  {
    if graded != [] {
      var init, rs := graded[..|graded| - 1], ResponsesFor(attemptId, graded);
      assert rs[..|graded| - 1] == ResponsesFor(attemptId, init);
      assert rs[|graded| - 1].isCorrect == graded[|graded| - 1].isCorrect;
      ResponsesForCount(attemptId, init);
    }
  }

  /** Inserting an attempt with a fresh id and a score within its total keeps
      the invariants; the new attempt has no responses yet. */
  lemma AttemptKeepsInvariants(attempts: seq<Attempt>, responses: seq<Response>, questions: seq<Question>,
                               nextAttemptId: int, a: Attempt)
    requires AttemptsValid(attempts, nextAttemptId)
    requires ResponsesBelong(responses, attempts, questions) && ScoresRecorded(attempts, responses)
    requires a.id == nextAttemptId && 0 <= a.score <= a.totalQuestions
    ensures AttemptsValid(attempts + [a], nextAttemptId + 1)
    ensures ResponsesBelong(responses, attempts + [a], questions)
    ensures ScoresRecorded(attempts + [a], responses)
    ensures ResponsesOf(responses, a.id) == []
  {
    var attempts' := attempts + [a];
    ResponsesPrecede(attempts, responses, questions, nextAttemptId);
    forall r | r in responses
      ensures Belongs(r, attempts', questions)
    {
      var c :| c in attempts && c.id == r.attemptId && InQuiz(questions, r.questionId, c.quizId);
      assert c in attempts';
    }
    ResponsesOfNone(responses, a.id);
    forall b | b in attempts'
      ensures ScoreAgrees(b, ResponsesOf(responses, b.id))
    {
      if b != a {
        assert b in attempts;
      }
    }
  }

  /** Every stored response belongs to an attempt id below the counter. */
  lemma ResponsesPrecede(attempts: seq<Attempt>, responses: seq<Response>, questions: seq<Question>, nextAttemptId: int)
    requires AttemptsValid(attempts, nextAttemptId) && ResponsesBelong(responses, attempts, questions)
    ensures forall r :: r in responses ==> r.attemptId < nextAttemptId
  {
    forall r | r in responses
      ensures r.attemptId < nextAttemptId
    {
      var c :| c in attempts && c.id == r.attemptId && InQuiz(questions, r.questionId, c.quizId);
      var i :| 0 <= i < |attempts| && attempts[i] == c;
    }
  }

  /** Inserting, for a recorded attempt that has none yet, responses that
      belong to it and agree with its score and total keeps the invariants. */
  lemma ResponsesKeepInvariants(attempts: seq<Attempt>, responses: seq<Response>, questions: seq<Question>,
                                nextAttemptId: int, a: Attempt, added: seq<Response>)
    requires AttemptsValid(attempts, nextAttemptId)
    requires ResponsesBelong(responses, attempts, questions) && ScoresRecorded(attempts, responses)
    requires a in attempts && ResponsesOf(responses, a.id) == []
    requires forall r :: r in added ==> r.attemptId == a.id && InQuiz(questions, r.questionId, a.quizId)
    requires |added| == a.totalQuestions && CountCorrectResponses(added) == a.score
    ensures ResponsesBelong(responses + added, attempts, questions)
    ensures ScoresRecorded(attempts, responses + added)
  {
    forall r | r in responses + added
      ensures Belongs(r, attempts, questions)
    {
      if r !in responses {
        assert r in added;
      }
    }
    forall b | b in attempts
      ensures ScoreAgrees(b, ResponsesOf(responses + added, b.id))
    {
      ScoreAfterResponses(attempts, responses, nextAttemptId, a, added, b);
    }
  }

  lemma ScoreAfterResponses(attempts: seq<Attempt>, responses: seq<Response>,
                            nextAttemptId: int, a: Attempt, added: seq<Response>, b: Attempt)
    requires AttemptsValid(attempts, nextAttemptId)
    requires a in attempts && b in attempts && ScoreAgrees(b, ResponsesOf(responses, b.id))
    requires ResponsesOf(responses, a.id) == []
    requires forall r :: r in added ==> r.attemptId == a.id
    requires |added| == a.totalQuestions && CountCorrectResponses(added) == a.score
    ensures ScoreAgrees(b, ResponsesOf(responses + added, b.id))
  {
    if b.id == a.id {
      SameIdSameAttempt(attempts, nextAttemptId, a, b);
      OwnResponsesAdded(responses, added, a.id);
    } else {
      OtherResponsesAdded(responses, added, a.id, b.id);
    }
  }

  lemma OwnResponsesAdded(responses: seq<Response>, added: seq<Response>, id: int)
    requires ResponsesOf(responses, id) == []
    requires forall r :: r in added ==> r.attemptId == id
    ensures ResponsesOf(responses + added, id) == added
  {
    ResponsesOfAppend(responses, added, id);
    ResponsesOfAll(added, id);
    assert [] + added == added;
  }

  lemma OtherResponsesAdded(responses: seq<Response>, added: seq<Response>, id: int, other: int)
    requires forall r :: r in added ==> r.attemptId == id
    requires other != id
    ensures ResponsesOf(responses + added, other) == ResponsesOf(responses, other)
  {
    ResponsesOfAppend(responses, added, other);
    ResponsesOfNone(added, other);
    assert ResponsesOf(responses, other) + [] == ResponsesOf(responses, other);
  }

  lemma SameIdSameAttempt(attempts: seq<Attempt>, nextAttemptId: int, a: Attempt, b: Attempt)
    requires AttemptsValid(attempts, nextAttemptId)
    requires a in attempts && b in attempts && a.id == b.id
    ensures a == b
  {
    var i :| 0 <= i < |attempts| && attempts[i] == a;
    var j :| 0 <= j < |attempts| && attempts[j] == b;
    assert i == j;
  }

  lemma ResponsesOfAppend(rs: seq<Response>, more: seq<Response>, id: int)
    ensures ResponsesOf(rs + more, id) == ResponsesOf(rs, id) + ResponsesOf(more, id)
  {
    WhereAppend(rs, more, (r: Response) => r.attemptId == id);
  }

  lemma ResponsesOfAll(rs: seq<Response>, id: int)
    requires forall r :: r in rs ==> r.attemptId == id
    ensures ResponsesOf(rs, id) == rs
  {
    WhereAll(rs, (r: Response) => r.attemptId == id);
  }

  lemma ResponsesOfNone(rs: seq<Response>, id: int)
    requires forall r :: r in rs ==> r.attemptId != id
    ensures ResponsesOf(rs, id) == []
  {
    WhereEmpty(rs, (r: Response) => r.attemptId == id);
  }

  /** Inserting a user with the counter's id whose username and email are
      both unused keeps the user invariant. */
  lemma UserKeepsInvariant(users: seq<User>, nextUserId: int, u: User)
    requires UsersValid(users, nextUserId) && u.id == nextUserId
    requires forall v :: v in users ==> v.username != u.username && v.email != u.email
    ensures UsersValid(users + [u], nextUserId + 1)
  {
    var users' := users + [u];
    forall i, j | 0 <= i < j < |users'|
      ensures users'[i].username != users'[j].username && users'[i].email != users'[j].email
    {
      if j == |users| {
        assert users'[i] == users[i] && users[i] in users;
      }
    }
  }

  /** The response rows of a graded submission belong to its attempt, answer
      questions of its quiz, and agree with its score and total. */
  lemma GradedResponses(questions: seq<Question>, answers: seq<Answer>, quizId: int,
                        submitted: seq<Submitted>, attemptId: int)
    ensures var graded := GradeAll(submitted, SubmitKeyRows(questions, answers, quizId, QuestionIds(submitted)));
            var added := ResponsesFor(attemptId, graded);
            && |added| == |graded| && CountCorrectResponses(added) == CountCorrect(graded)
            && forall r :: r in added ==> r.attemptId == attemptId && InQuiz(questions, r.questionId, quizId)
  {
    var rows := SubmitKeyRows(questions, answers, quizId, QuestionIds(submitted));
    var graded := GradeAll(submitted, rows);
    var added := ResponsesFor(attemptId, graded);
    ResponsesForCount(attemptId, graded);
    GradedEntries(submitted, rows);
    SubmitKeyRowsInQuiz(questions, answers, quizId, QuestionIds(submitted));
    forall r | r in added
      ensures r.attemptId == attemptId && InQuiz(questions, r.questionId, quizId)
    {
      var i :| 0 <= i < |added| && added[i] == r;
      assert graded[i] in graded;
      var row :| row in rows && row.questionId == graded[i].questionId;
    }
  }

  // ------------------------------------------------------------ question listing

  /** What a question listing of quiz `quizId` promises: one record per
      question of the quiz, ids in `KeyBefore` order (ascending when every id
      is an array index), each carrying that question's text and type and
      listing each of its answers with a non-zero id exactly once. */
  ghost predicate ListsQuiz(questions: seq<Question>, answers: seq<Answer>, records: seq<QuestionRecord>, quizId: int)
  {
    && RecordIds(records) == (set q | q in questions && q.quizId == quizId :: q.id)
    && (forall i, j :: 0 <= i < j < |records| ==> KeyBefore(records[i].id, records[j].id))
    && (forall i :: 0 <= i < |records| ==> Describes(questions, quizId, records[i]))
    && (forall i :: 0 <= i < |records| ==>
          multiset(records[i].answers) == multiset(ListedViews(OwnAnswers(answers, records[i].id))))
  }

  /** The record carries the text and type of a question of the quiz with its id. */
  ghost predicate Describes(questions: seq<Question>, quizId: int, record: QuestionRecord)
  {
    exists q :: && q in questions && q.quizId == quizId && q.id == record.id
                && record.text == q.text && record.questionType == q.questionType
  }

  /** Grouping the quiz's joined rows, in any order sorted by question id, yields a listing of the quiz. */
  lemma ListingFacts(questions: seq<Question>, answers: seq<Answer>, quizId: int,
                     rows: seq<JoinedRow>, records: seq<QuestionRecord>)
    requires QuestionKeys(questions)
    requires multiset(rows) == multiset(QuizRows(questions, answers, quizId))
    requires ByQuestionId(rows)
    requires records == Records(rows)
    ensures ListsQuiz(questions, answers, records, quizId)
  {
    var all := QuizRows(questions, answers, quizId);
    SameMembers(rows, all);
    RecordsShape(rows);
    RecordsContent(rows);
    RecordsSorted(rows);
    assert RowIds(rows) == RowIds(all);
    forall i | 0 <= i < |records|
      ensures Describes(questions, quizId, records[i])
    {
      var r := rows[FirstIndex(rows, records[i].id)];
      assert r in all;
    }
    forall i | 0 <= i < |records|
      ensures multiset(records[i].answers) == multiset(ListedViews(OwnAnswers(answers, records[i].id)))
    {
      ListingAnswers(questions, answers, quizId, rows, records[i].id);
    }
  }

  /** A question of the quiz collects, from the quiz's rows in any order, each of its listed answers once. */
  lemma ListingAnswers(questions: seq<Question>, answers: seq<Answer>, quizId: int, rows: seq<JoinedRow>, id: int)
    requires QuestionKeys(questions)
    requires multiset(rows) == multiset(QuizRows(questions, answers, quizId))
    requires id in RowIds(QuizRows(questions, answers, quizId))
    ensures multiset(AnswersOf(rows, id)) == multiset(ListedViews(OwnAnswers(answers, id)))
  {
    var q :| q in questions && q.quizId == quizId && q.id == id;
    AnswersOfPermutation(rows, QuizRows(questions, answers, quizId), id);
    QuizAnswers(questions, answers, quizId, q);
  }

  /** When every question id of the quiz is an array index, a listing is in ascending id order. */
  lemma ListingAscending(questions: seq<Question>, answers: seq<Answer>, records: seq<QuestionRecord>, quizId: int)
    requires ListsQuiz(questions, answers, records, quizId)
    requires forall q :: q in questions && q.quizId == quizId ==> IsIndex(q.id)
    ensures forall i, j :: 0 <= i < j < |records| ==> records[i].id < records[j].id
  {
    forall i, j | 0 <= i < j < |records|
      ensures records[i].id < records[j].id
    {
      assert records[i] in records && records[j] in records;
      assert records[i].id in RecordIds(records) && records[j].id in RecordIds(records);
    }
  }

  // ------------------------------------------------------------------ the server

  function Filled(field: string): bool
  {
    field != ""
  }

  /** A non-empty `answers` array (None stands for a missing or non-array body field). */
  predicate HasAnswers(body: Option<seq<Submitted>>)
  {
    body.Some? && |body.value| > 0
  }

  predicate QuizExists(quizzes: seq<Quiz>, quizId: int)
  {
    exists q :: q in quizzes && q.id == quizId
  }

  class App {
    const quizzes: seq<Quiz>
    const questions: seq<Question>
    const answers: seq<Answer>
    var users: seq<User>
    var attempts: seq<Attempt>
    var responses: seq<Response>
    var nextUserId: int
    var nextAttemptId: int
    var session: Option<Identity>

    ghost predicate Valid()
      reads this
    {
      && UsersValid(users, nextUserId)
      && (session.Some? ==> session.value.userId >= 1)
      && AttemptsValid(attempts, nextAttemptId)
      && ResponsesBelong(responses, attempts, questions)
      && ScoresRecorded(attempts, responses)
      && QuestionKeys(questions)
    }

    /** A store holding the given catalog and no users, attempts or
        responses, and a client without a session. */
    constructor (quizzes: seq<Quiz>, questions: seq<Question>, answers: seq<Answer>)
      requires QuestionKeys(questions)
      ensures Valid()
      ensures this.quizzes == quizzes && this.questions == questions && this.answers == answers
      ensures users == [] && attempts == [] && responses == [] && session == None
    {
      this.quizzes, this.questions, this.answers := quizzes, questions, answers;
      users, attempts, responses := [], [], [];
      nextUserId, nextAttemptId := 1, 1;
      session := None;
    }

    // ------------------------------------------------------------ register / login

    /** POST /register: every field is required; a username or email already
        in use is refused; otherwise the user is inserted with the next id and
        the session is bound to it. */
    method Register(username: string, email: string, password: string, fault: Fault) returns (reply: Reply)
      requires Valid()
      modifies this`users, this`nextUserId, this`session
      ensures Valid()
      ensures !(Filled(username) && Filled(email) && Filled(password)) ==>
                reply == Fail(400, FieldsRequired) && unchanged(this)
      ensures Filled(username) && Filled(email) && Filled(password) ==>
                if Fails(fault, 0) then reply == Fail(500, DatabaseError) && unchanged(this)
                else if exists u :: u in old(users) && (u.username == username || u.email == email) then
                  reply == Fail(400, AlreadyExists) && unchanged(this)
                else if Fails(fault, 1) then reply == Fail(500, CreateFailed) && unchanged(this)
                else
                  var id := old(nextUserId);
                  && users == old(users) + [User(id, username, email, password)]
                  && nextUserId == id + 1
                  && session == Some(Identity(id, username))
                  && reply == Reply(200, Welcome(Registered, PublicUser(id, username, email)))
    {
      if !(Filled(username) && Filled(email) && Filled(password)) {
        reply := Fail(400, FieldsRequired);
        return;
      }
      if Fails(fault, 0) {
        reply := Fail(500, DatabaseError);
        return;
      }
      var results := Where(users, (u: User) => u.username == username || u.email == email);
      WhereEmpty(users, (u: User) => u.username == username || u.email == email);
      if |results| > 0 {
        reply := Fail(400, AlreadyExists);
        return;
      }
      if Fails(fault, 1) {
        reply := Fail(500, CreateFailed);
        return;
      }
      var id := nextUserId;
      UserKeepsInvariant(users, nextUserId, User(id, username, email, password));
      users := users + [User(id, username, email, password)];
      nextUserId := nextUserId + 1;
      session := Some(Identity(id, username));
      reply := Reply(200, Welcome(Registered, PublicUser(id, username, email)));
    }

    /** POST /login: both fields are required; the user whose email and
        password both match binds the session and is returned without its
        password; any other case, an unknown email as much as a wrong
        password, gets the same 401 reply. */
    method Login(email: string, password: string, fault: Fault) returns (reply: Reply)
      requires Valid()
      modifies this`session
      ensures Valid()
      ensures !(Filled(email) && Filled(password)) ==> reply == Fail(400, CredentialsRequired) && unchanged(this)
      ensures Filled(email) && Filled(password) ==>
                if Fails(fault, 0) then reply == Fail(500, DatabaseError) && unchanged(this)
                else if forall u :: u in users ==> !(u.email == email && u.password == password) then
                  reply == Fail(401, InvalidLogin) && unchanged(this)
                else
                  exists u :: && u in users && u.email == email && u.password == password
                              && session == Some(Identity(u.id, u.username))
                              && reply == Reply(200, Welcome(LoginOk, Public(u)))
    {
      if !(Filled(email) && Filled(password)) {
        reply := Fail(400, CredentialsRequired);
        return;
      }
      if Fails(fault, 0) {
        reply := Fail(500, DatabaseError);
        return;
      }
      var results := Where(users, (u: User) => u.email == email && u.password == password);
      WhereEmpty(users, (u: User) => u.email == email && u.password == password);
      if |results| == 0 {
        reply := Fail(401, InvalidLogin);
        return;
      }
      var user := results[0];
      assert user in results;
      session := Some(Identity(user.id, user.username));
      reply := Reply(200, Welcome(LoginOk, Public(user)));
    }

    /** POST /logout: the session is destroyed unless the session store fails. */
    method Logout(fault: Fault) returns (reply: Reply)
      requires Valid()
      modifies this`session
      ensures Valid()
      ensures Fails(fault, 0) ==> reply == Fail(500, LogoutFailed) && session == old(session)
      ensures !Fails(fault, 0) ==> reply == Reply(200, Goodbye(LogoutOk)) && session == None
    {
      if Fails(fault, 0) {
        reply := Fail(500, LogoutFailed);
        return;
      }
      session := None;
      reply := Reply(200, Goodbye(LogoutOk));
    }

    /** GET /me: 401 without a session, 404 when no user has the session's
        id, otherwise that user without the password. */
    function Me(fault: Fault): (reply: Reply)
      reads this
      ensures session.None? ==> reply == Fail(401, NotLoggedIn)
      ensures session.Some? && Fails(fault, 0) ==> reply == Fail(500, DatabaseError)
      ensures session.Some? && !Fails(fault, 0) ==>
                ((forall u :: u in users ==> u.id != session.value.userId) <==> reply == Fail(404, UserNotFound))
      ensures session.Some? && !Fails(fault, 0) && (exists u :: u in users && u.id == session.value.userId) ==>
                reply.status == 200
      ensures reply.status == 200 ==>
                && session.Some? && reply.payload.CurrentUser?
                && exists u :: u in users && u.id == session.value.userId && reply.payload.user == Public(u)
    {
      if session.None? then Fail(401, NotLoggedIn)
      else if Fails(fault, 0) then Fail(500, DatabaseError)
      else
        var id := session.value.userId;
        var results := Where(users, (u: User) => u.id == id);
        WhereEmpty(users, (u: User) => u.id == id);
        if |results| == 0 then Fail(404, UserNotFound)
        else
          assert results[0] in results;
          Reply(200, CurrentUser(Public(results[0])))
    }

    // ----------------------------------------------------------------- quizzes

    /** GET /quizzes/:id: 404 exactly when no quiz has that id. */
    function QuizDetail(quizId: int, fault: Fault): (reply: Reply)
      ensures Fails(fault, 0) ==> reply == Fail(500, DatabaseError)
      ensures !Fails(fault, 0) ==> (!QuizExists(quizzes, quizId) <==> reply == Fail(404, QuizNotFound))
      ensures !Fails(fault, 0) && QuizExists(quizzes, quizId) ==> reply.status == 200
      ensures reply.status == 200 ==> reply.payload.QuizInfo? && reply.payload.quiz in quizzes && reply.payload.quiz.id == quizId
    {
      if Fails(fault, 0) then Fail(500, DatabaseError)
      else
        var results := Where(quizzes, (q: Quiz) => q.id == quizId);
        WhereEmpty(quizzes, (q: Quiz) => q.id == quizId);
        if |results| == 0 then Fail(404, QuizNotFound)
        else
          assert results[0] in results;
          Reply(200, QuizInfo(results[0]))
    }

    /** The listing step shared by both question endpoints: join, sort by
        question id and the given second column, group. */
    method ListQuestions(quizId: int, second: JoinedRow -> int) returns (records: seq<QuestionRecord>, sorted: seq<JoinedRow>)
      requires QuestionKeys(questions)
      ensures ListsQuiz(questions, answers, records, quizId)
      ensures SortedBy(sorted, (r: JoinedRow) => ListingKey(r, second))
      ensures forall i :: 0 <= i < |records| ==> records[i].answers == AnswersOf(sorted, records[i].id)
    {
      var rows := QuizRows(questions, answers, quizId);
      sorted := SortBy(rows, (r: JoinedRow) => ListingKey(r, second));
      SortedListingByQuestion(sorted, second);
      records := GroupRows(sorted);
      ListingFacts(questions, answers, quizId, sorted, records);
    }

    /** GET /quizzes/:id/questions: 404 for an unknown quiz, otherwise the
        quiz's questions with their answers. Answers within a question come in
        the order `RAND()` drew, which the model takes as the parameter `rand`;
        nothing is promised about it. */
    method QuizQuestions(quizId: int, rand: JoinedRow -> int, fault: Fault) returns (reply: Reply)
      requires Valid()
      ensures Fails(fault, 0) ==> reply == Fail(500, DatabaseError)
      ensures !Fails(fault, 0) && !QuizExists(quizzes, quizId) ==> reply == Fail(404, QuizNotFound)
      ensures !Fails(fault, 0) && QuizExists(quizzes, quizId) && Fails(fault, 1) ==> reply == Fail(500, DatabaseError)
      ensures !Fails(fault, 0) && QuizExists(quizzes, quizId) && !Fails(fault, 1) ==>
                reply.status == 200 && reply.payload.QuestionList? && ListsQuiz(questions, answers, reply.payload.questions, quizId)
    {
      if Fails(fault, 0) {
        reply := Fail(500, DatabaseError);
        return;
      }
      var quizResults := Where(quizzes, (q: Quiz) => q.id == quizId);
      WhereEmpty(quizzes, (q: Quiz) => q.id == quizId);
      if |quizResults| == 0 {
        reply := Fail(404, QuizNotFound);
        return;
      }
      if Fails(fault, 1) {
        reply := Fail(500, DatabaseError);
        return;
      }
      var records, sorted := ListQuestions(quizId, rand);
      reply := Reply(200, QuestionList(records));
    }

    /** GET /api/quizzes/:id/questions: as `QuizQuestions`, with the answers of
        every question in `answer_order`. */
    method QuizQuestionsApi(quizId: int, fault: Fault) returns (reply: Reply)
      requires Valid()
      ensures Fails(fault, 0) ==> reply == Fail(500, DatabaseError)
      ensures !Fails(fault, 0) && !QuizExists(quizzes, quizId) ==> reply == Fail(404, QuizNotFound)
      ensures !Fails(fault, 0) && QuizExists(quizzes, quizId) && Fails(fault, 1) ==> reply == Fail(500, DatabaseError)
      ensures !Fails(fault, 0) && QuizExists(quizzes, quizId) && !Fails(fault, 1) ==>
                && reply.status == 200 && reply.payload.QuestionList?
                && ListsQuiz(questions, answers, reply.payload.questions, quizId)
                && forall i :: 0 <= i < |reply.payload.questions| ==> InAnswerOrder(reply.payload.questions[i].answers)
    {
      if Fails(fault, 0) {
        reply := Fail(500, DatabaseError);
        return;
      }
      var quizResults := Where(quizzes, (q: Quiz) => q.id == quizId);
      WhereEmpty(quizzes, (q: Quiz) => q.id == quizId);
      if |quizResults| == 0 {
        reply := Fail(404, QuizNotFound);
        return;
      }
      if Fails(fault, 1) {
        reply := Fail(500, DatabaseError);
        return;
      }
      var records, sorted := ListQuestions(quizId, OrderOf);
      forall i | 0 <= i < |records|
        ensures InAnswerOrder(records[i].answers)
      {
        AnswersByOrder(sorted, records[i].id);
      }
      reply := Reply(200, QuestionList(records));
    }

    // ----------------------------------------------------------------- submit

    /** The effect of grading and recording a submission whose guards passed:
        store call 1 reads the answer key, call 2 inserts the attempt, call 3
        inserts the responses. Exactly one attempt is recorded once call 2
        succeeds; its responses are saved unless nothing was graded or call 3
        fails, in which case the attempt stays without responses. */
    twostate predicate Recorded(userId: int, quizId: int, submitted: seq<Submitted>, now: int, fault: Fault, reply: Reply)
      reads this
    {
      var graded := GradeAll(submitted, SubmitKeyRows(questions, answers, quizId, QuestionIds(submitted)));
      var score, total, id := CountCorrect(graded), |graded|, old(nextAttemptId);
      if Fails(fault, 1) then reply == Fail(500, DatabaseError) && unchanged(this)
      else if Fails(fault, 2) then reply == Fail(500, AttemptFailed) && unchanged(this)
      else
        && attempts == old(attempts) + [Attempt(id, userId, quizId, score, total, now)]
        && nextAttemptId == id + 1
        && users == old(users) && nextUserId == old(nextUserId) && session == old(session)
        && if graded == [] then
             responses == old(responses) && reply == Reply(200, Results(id, score, total, score))
           else if Fails(fault, 3) then
             responses == old(responses) && reply == Fail(500, ResponsesFailed)
           else
             responses == old(responses) + ResponsesFor(id, graded) && reply == Reply(200, Results(id, score, total, score))
    }

    /** Grading and recording, shared by both submit endpoints. */
    method GradeAndRecord(userId: int, quizId: int, submitted: seq<Submitted>, now: int, fault: Fault) returns (reply: Reply)
      requires Valid()
      modifies this`attempts, this`responses, this`nextAttemptId
      ensures Valid()
      ensures Recorded(userId, quizId, submitted, now, fault, reply)
    {
      var questionIds := QuestionIds(submitted);
      if Fails(fault, 1) {
        reply := Fail(500, DatabaseError);
        return;
      }
      var rows := SubmitKeyRows(questions, answers, quizId, questionIds);
      var graded, correctCount, totalQuestions := Grade(submitted, rows);
      if Fails(fault, 2) {
        reply := Fail(500, AttemptFailed);
        return;
      }
      var attempt := InsertAttempt(userId, quizId, correctCount, totalQuestions, now);
      if |graded| == 0 {
        reply := Reply(200, Results(attempt.id, correctCount, totalQuestions, correctCount));
        return;
      }
      if Fails(fault, 3) {
        reply := Fail(500, ResponsesFailed);
        return;
      }
      GradedResponses(questions, answers, quizId, submitted, attempt.id);
      InsertResponses(attempt, ResponsesFor(attempt.id, graded));
      reply := Reply(200, Results(attempt.id, correctCount, totalQuestions, correctCount));
    }

    /** `INSERT INTO user_attempts`: the attempt takes the next id. */
    method InsertAttempt(userId: int, quizId: int, score: int, totalQuestions: int, now: int) returns (attempt: Attempt)
      requires Valid() && 0 <= score <= totalQuestions
      modifies this`attempts, this`nextAttemptId
      ensures Valid()
      ensures attempt == Attempt(old(nextAttemptId), userId, quizId, score, totalQuestions, now)
      ensures attempts == old(attempts) + [attempt] && nextAttemptId == old(nextAttemptId) + 1
      ensures ResponsesOf(responses, attempt.id) == []
    {
      attempt := Attempt(nextAttemptId, userId, quizId, score, totalQuestions, now);
      AttemptKeepsInvariants(attempts, responses, questions, nextAttemptId, attempt);
      attempts := attempts + [attempt];
      nextAttemptId := nextAttemptId + 1;
    }

    /** `INSERT INTO user_responses` of the graded answers of a recorded attempt. */
    method InsertResponses(attempt: Attempt, added: seq<Response>)
      requires Valid() && attempt in attempts && ResponsesOf(responses, attempt.id) == []
      requires forall r :: r in added ==> r.attemptId == attempt.id && InQuiz(questions, r.questionId, attempt.quizId)
      requires |added| == attempt.totalQuestions && CountCorrectResponses(added) == attempt.score
      modifies this`responses
      ensures Valid()
      ensures responses == old(responses) + added
    {
      ResponsesKeepInvariants(attempts, responses, questions, nextAttemptId, attempt, added);
      responses := responses + added;
    }

    /** POST /quizzes/:id/submit: 401 without a session, then 400 for a
        missing or empty answers array, then 404 for an unknown quiz, each
        before anything is written; otherwise the submission is graded and
        recorded. */
    method Submit(quizId: int, body: Option<seq<Submitted>>, now: int, fault: Fault) returns (reply: Reply)
      requires Valid()
      modifies this`attempts, this`responses, this`nextAttemptId
      ensures Valid()
      ensures old(session).None? ==> reply == Fail(401, NotLoggedIn) && unchanged(this)
      ensures old(session).Some? && !HasAnswers(body) ==> reply == Fail(400, AnswersRequired) && unchanged(this)
      ensures old(session).Some? && HasAnswers(body) && Fails(fault, 0) ==> reply == Fail(500, DatabaseError) && unchanged(this)
      ensures old(session).Some? && HasAnswers(body) && !Fails(fault, 0) && !QuizExists(quizzes, quizId) ==>
                reply == Fail(404, QuizNotFound) && unchanged(this)
      ensures old(session).Some? && HasAnswers(body) && !Fails(fault, 0) && QuizExists(quizzes, quizId) ==>
                Recorded(old(session).value.userId, quizId, body.value, now, fault, reply)
    {
      if session.None? {
        reply := Fail(401, NotLoggedIn);
        return;
      }
      if !HasAnswers(body) {
        reply := Fail(400, AnswersRequired);
        return;
      }
      if Fails(fault, 0) {
        reply := Fail(500, DatabaseError);
        return;
      }
      var quizResults := Where(quizzes, (q: Quiz) => q.id == quizId);
      WhereEmpty(quizzes, (q: Quiz) => q.id == quizId);
      if |quizResults| == 0 {
        reply := Fail(404, QuizNotFound);
        return;
      }
      reply := GradeAndRecord(session.value.userId, quizId, body.value, now, fault);
    }

    /** POST /api/quizzes/:id/submit: the same guards plus a check that the
        list of question ids is not empty, which can never fail once the
        answers array is known to be non-empty; so it has the same effect as
        `Submit`. */
    method SubmitApi(quizId: int, body: Option<seq<Submitted>>, now: int, fault: Fault) returns (reply: Reply)
      requires Valid()
      modifies this`attempts, this`responses, this`nextAttemptId
      ensures Valid()
      ensures old(session).None? ==> reply == Fail(401, NotLoggedIn) && unchanged(this)
      ensures old(session).Some? && !HasAnswers(body) ==> reply == Fail(400, AnswersRequired) && unchanged(this)
      ensures old(session).Some? && HasAnswers(body) && Fails(fault, 0) ==> reply == Fail(500, DatabaseError) && unchanged(this)
      ensures old(session).Some? && HasAnswers(body) && !Fails(fault, 0) && !QuizExists(quizzes, quizId) ==>
                reply == Fail(404, QuizNotFound) && unchanged(this)
      ensures old(session).Some? && HasAnswers(body) && !Fails(fault, 0) && QuizExists(quizzes, quizId) ==>
                Recorded(old(session).value.userId, quizId, body.value, now, fault, reply)
    {
      if session.None? {
        reply := Fail(401, NotLoggedIn);
        return;
      }
      if !HasAnswers(body) {
        reply := Fail(400, AnswersRequired);
        return;
      }
      if Fails(fault, 0) {
        reply := Fail(500, DatabaseError);
        return;
      }
      var quizResults := Where(quizzes, (q: Quiz) => q.id == quizId);
      WhereEmpty(quizzes, (q: Quiz) => q.id == quizId);
      if |quizResults| == 0 {
        reply := Fail(404, QuizNotFound);
        return;
      }
      var questionIds := QuestionIds(body.value);
      if |questionIds| == 0 {
        reply := Fail(400, NoQuestionAnswers);
        return;
      }
      reply := GradeAndRecord(session.value.userId, quizId, body.value, now, fault);
    }

    // ----------------------------------------------------------------- attempts

    /** GET /users/:id/attempts: 401 without a session (before the id is
        parsed), then 400 for an id that is not an integer, then 403 for any
        id other than the session's, whether or not such a user exists;
        otherwise the session user's attempts with their quiz, newest first. */
    function UserAttempts(pathId: Option<int>, fault: Fault): (reply: Reply)
      reads this
      ensures session.None? ==> reply == Fail(401, NotLoggedIn)
      ensures session.Some? && pathId.None? ==> reply == Fail(400, InvalidUserId)
      ensures session.Some? && pathId.Some? && pathId.value != session.value.userId ==> reply == Fail(403, Forbidden)
      ensures session.Some? && pathId == Some(session.value.userId) && Fails(fault, 0) ==> reply == Fail(500, DatabaseError)
      ensures session.Some? && pathId == Some(session.value.userId) && !Fails(fault, 0) ==>
                && reply.status == 200 && reply.payload.AttemptList?
                && NewestFirst(reply.payload.attempts)
                && (forall v :: v in reply.payload.attempts ==> v.userId == session.value.userId)
                && multiset(reply.payload.attempts) == multiset(UserAttemptRows(attempts, quizzes, session.value.userId))
    {
      if session.None? then Fail(401, NotLoggedIn)
      else if pathId.None? then Fail(400, InvalidUserId)
      else if pathId.value != session.value.userId then Fail(403, Forbidden)
      else if Fails(fault, 0) then Fail(500, DatabaseError)
      else Reply(200, AttemptList(AttemptsListing(attempts, quizzes, pathId.value)))
    }
  }
}
