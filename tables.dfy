/** Rows of the quiz server's relational store, kept in memory.

    Each datatype is one row of one table; a table is a `seq` of rows in
    insertion order. User and attempt ids come from the server's
    auto-increment counters; catalog ids are whatever the catalog holds,
    and `id` is the primary key of each table. Strings compare by plain
    equality. */
module Tables {

  datatype Option<T> = None | Some(value: T)

  /** `users`: the password column holds the plaintext, as the server stores it. */
  datatype User = User(id: int, username: string, email: string, password: string)

  /** The columns of a user that replies carry: never the password. */
  datatype PublicUser = PublicUser(id: int, username: string, email: string)

  function Public(u: User): PublicUser
  {
    PublicUser(u.id, u.username, u.email)
  }

  /** `quizzes` (reference data, never written by the server). */
  datatype Quiz = Quiz(id: int, moduleType: string, title: string, description: string, totalQuestions: int)

  /** `questions`: each belongs to one quiz. */
  datatype Question = Question(id: int, quizId: int, text: string, questionType: string)

  /** `id` is the primary key of `questions`: no two rows share it. */
  predicate QuestionKeys(questions: seq<Question>)
  {
    forall i, j :: 0 <= i < j < |questions| ==> questions[i].id != questions[j].id
  }

  /** `answers`: each belongs to one question; several may be correct. */
  datatype Answer = Answer(id: int, questionId: int, text: string, isCorrect: bool, answerOrder: int)

  /** `user_attempts`: one row per submission; `completedAt` is the store's clock at insertion. */
  datatype Attempt = Attempt(id: int, userId: int, quizId: int, score: int, totalQuestions: int, completedAt: int)

  /** `user_responses`: one row per graded answer of an attempt. */
  datatype Response = Response(attemptId: int, questionId: int, selectedAnswerId: int, isCorrect: bool)

  /** What the session holds once a user registered or logged in. */
  datatype Identity = Identity(userId: int, username: string)

  /** Which store call of a handler fails, if any: the calls of one handler
      are numbered from 0 in the order the handler issues them. A failing call
      makes the handler answer 500 and change nothing further. */
  datatype Fault = Healthy | FailsAt(call: nat)

  predicate Fails(f: Fault, call: nat)
  {
    f == FailsAt(call)
  }
}
