# Quiz server: submission, grading and lookups

This project models the core of the quiz server, an Express application over a MySQL store. Users register and log in. They browse quizzes and a quiz's questions with their answers. They submit a list of `(questionId, selectedAnswerId)` pairs, and the server grades it against the quiz's answer key. The server records one attempt with its score and one response row per graded answer. A user can list their own attempts, newest first.

How the model is built:

- **Tables** (`tables.dfy`). The store's tables are sequences of rows. User and attempt ids come from the server's auto-increment counters. Catalog ids (quizzes, questions, answers) are whatever the catalog holds; `id` is each table's primary key, and the invariant states this for questions.
- **Seqs** (`seqs.dfy`). Filters and sorts over sequences, shared by the queries and by the JavaScript engine's property order.
- **Query** (`query.dfy`). Each SQL statement becomes a filter, join or sort over those sequences. `ORDER BY` is a sort proved to return a permutation in key order.
- **Grading** (`grading.dfy`). Scoring a submission is a method with the handler's two loops: it builds the map of correct answers, then grades the pairs. It is proved equal to a recursive definition (`GradeAll`), and the scoring rules are lemmas about that definition.
- **Grouping** (`grouping.dfy`). Joined rows are folded into `questionsMap`. This is a loop proved equal to a recursive reference (`GroupMap`, `GroupKeys`). `Object.values` then reads the map out in the JavaScript engine's property order (`PropertyOrder`), and the listing's properties are proved about that reference.
- **Server** (`server.dfy`). The handlers are methods and functions of a class `App`:
  - the class holds the tables, the auto-increment counters and one client's session;
  - its invariant `Valid` states the store's integrity rules: unique usernames and emails, unique question ids, increasing ids, every response tied to an attempt and to a question of that attempt's quiz, and an attempt's responses agreeing with its score;
  - every handler replies with a status and a payload, in the source's guard order.

Effects the model takes as parameters:

- **A failing database call** is the parameter `fault: Fault`. `FailsAt(k)` makes the handler's k-th store call (numbered from 0 in issue order) fail, so the handler replies 500 and writes nothing more.
- **The store's clock** (`completed_at`) is the parameter `now`.
- **`RAND()`** in the question listing is the parameter `rand: JoinedRow -> int`, used as the second sort column. Nothing is promised about the order it produces.

Where a handler exists in several files, one member models all copies:

- `server/routes.js` and `server/controller.js` register, log in and log out alike.
- `server/routes.js` and `server/index.js` implement `/me`, the quiz detail and the attempts listing alike.
- The two submit handlers differ by one extra check in `server/controller.js`, so they are `Submit` and `SubmitApi`. They share `GradeAndRecord` and have identical contracts, because that check can never fail.
- The two question listings differ in their `ORDER BY`, so they are `QuizQuestions` and `QuizQuestionsApi`.

## Model

| member | source | states |
|---|---|---|
| Grading.Grade | server/routes.js:183-202 | The graded list is the reference grading `GradeAll` of the submission. `correctCount` counts its correct entries and `totalQuestions` is its length, so correctCount ≤ totalQuestions ≤ number of submitted pairs. The copy at server/controller.js:151-173 behaves the same. |
| Grading.CorrectByQuestion | server/routes.js:183-189 | The `correctByQuestion` loop yields a map whose keys are exactly the questions with at least one correct key row, each mapped to the set of its correct answer ids. The same loop is at server/controller.js:151-157. |
| Grading.GradeAllIsKept | server/routes.js:194-200 | Entry k of the graded list grades the k-th submitted pair whose question has key rows. Submission order and repeated questions are kept, and each occurrence is graded. |
| Grading.GradedEntries | server/routes.js:183-197 | Every graded entry's question has key rows. An entry is correct exactly when its selection is among that question's correct answer ids. A question with no correct answer therefore always grades incorrect. |
| Grading.ForeignPairsIgnored | server/controller.js:161-166 | Inserting pairs whose question has no key rows anywhere in a submission leaves the graded list, its score and its total unchanged. |
| Grading.ForeignGradesNothing | server/routes.js:195 | A submission made only of such pairs grades to the empty list. |
| Grading.GradeAllAppend | server/routes.js:194-200 | Grading a concatenation concatenates the gradings: each pair is graded on its own. |
| Grading.Kept | server/routes.js:194-195 | Reference for the skip rule: the kept pairs come from the submission, all have key rows, and there are no more of them than submitted pairs. |
| Grading.CountCorrect | server/routes.js:198 | The correct count never exceeds the number of graded entries. |
| Grading.GradeAll | server/routes.js:193-200 | The graded list is never longer than the submission. |
| Seqs.Where | server/routes.js:40-41 | A `WHERE` filter keeps exactly the rows that satisfy it and is no longer than the table. |
| Seqs.WhereEmpty | server/routes.js:43-44 | A query result is empty (`results.length === 0`) exactly when no row satisfies the condition. |
| Seqs.WhereAppend | server/routes.js:216 | Filtering a table after an insert is filtering the old rows followed by filtering the inserted rows. |
| Seqs.SortBy | server/routes.js:249 | `ORDER BY` over two columns returns a permutation of its rows in key order. |
| Seqs.InsertSorted | server/routes.js:249 | Inserting a row into a sorted result keeps it sorted. |
| Query.QuizKeyRows | server/routes.js:173-177 | The set of `(question_id, answer_id, is_correct)` triples of the answer-key join is exactly the set of triples of the answers of the quiz's questions. Grading reads only this set, so repeats do not matter. |
| Query.KeyRowsOf | server/routes.js:176 | The set of key triples of one question is exactly the set of triples of its answers. |
| Query.SubmitKeyRowsInQuiz | server/routes.js:173-179 | Every row of the submit handler's key query is from a question of the quiz and one of the submitted question ids. |
| Query.InFilterIrrelevant | server/routes.js:171-180 | The `IN (questionIds)` restriction never changes a grade: grading against the restricted rows equals grading against the whole answer key. |
| Query.GradeAllCongruent | server/controller.js:151-171 | Grading depends only on which submitted questions have key rows and on their correct-answer sets. |
| Query.QuestionIds | server/controller.js:131-134 | `questionIds` has one entry per submitted pair, so it is empty only for an empty submission, and the 400 "No question answers provided" branch is unreachable after the check at line 115. |
| Query.QuestionRows | server/routes.js:121-122 | The LEFT JOIN rows of one question all carry its text and type. Their answer column is exactly the question's answers, one row each, in table order. A question without answers gets the single row with a NULL answer, and only such a question does. |
| Query.QuizRows | server/routes.js:113-123 | The question listing's rows cover exactly the quiz's question ids. Each row carries its question's text and type. Each answer column is an answer of that question. Every question/answer pair of the quiz appears. |
| Query.SortedListingByQuestion | server/routes.js:125 | Rows sorted by `(q.id, second column)` are in non-decreasing question id order. |
| Query.AnswersByOrder | server/index.js:137 | With `ORDER BY q.id, a.answer_order`, every question's answers come out in `answer_order`. |
| Query.UserAttemptRows | server/routes.js:237-248 | The attempts join holds exactly the user's attempts, each joined with its quiz's title and module. |
| Query.AttemptJoin | server/routes.js:247 | An attempt's join rows are exactly its quiz's rows. |
| Query.AttemptsListing | server/routes.js:237-250 | The attempts listing is a permutation of the user's joined attempts. Every row has the requested user id. Rows are ordered by `completed_at` descending, then attempt id descending. |
| Query.RecencyIsNewestFirst | server/index.js:210 | Ascending order on `(-completed_at, -id)` is `completed_at DESC, id DESC`. |
| Query.QuizAnswers | server/routes.js:113-123 | Since question ids are keys, the rows of a question of the quiz collect exactly the listed answers of that question: those with a non-zero id, each once, in table order. |
| Seqs.WhereAll | server/routes.js:214-215 | Filtering rows that all satisfy the condition returns them unchanged. |
| Seqs.WhereKeepsOrder | server/routes.js:150 | A filter keeps the relative order of what it keeps. |
| Seqs.WhereSplit | server/routes.js:150 | A filter and the filter by its negation split the elements between them, with multiplicity. |
| Seqs.PermutationDistinct | server/routes.js:150 | A permutation of a list without repeats has no repeats. |
| Grouping.GroupRows | server/routes.js:130-150 | The loop over `questionsMap` followed by `Object.values` yields `Records(rows)`: one record per distinct question id, without repetition. Each record takes its text and type from its question's first row. Its answers are exactly the question's rows that have a non-null, non-zero answer id, in row order. Ids that are array indices come first, in ascending order; any other ids follow in first-appearance order. On rows sorted by question id, consecutive records are in `KeyBefore` order. The copy at server/index.js:149-170 behaves the same. |
| Grouping.PropertyOrderPermutes | server/routes.js:150 | The property order of an object's keys (section 10.1.11.1 of ECMAScript 2023, OrdinaryOwnPropertyKeys) is a permutation of the keys in creation order. |
| Grouping.PropertyOrderIndices | server/routes.js:150 | In that order, array-index keys come before every other key and ascend. |
| Grouping.PropertyOrderOthers | server/routes.js:150 | In that order, keys that are not array indices come last, in creation order. |
| Grouping.RecordsShape | server/routes.js:130-150 | The records' ids are exactly the rows' question ids, each once. |
| Grouping.RecordsContent | server/routes.js:130-150 | Each record carries its question's answers from the rows and the text and type of the question's first row. |
| Grouping.RecordsOrder | server/routes.js:150 | Records are ordered as `Object.values` orders its keys: indices ascending first, then the rest by first appearance. |
| Grouping.RecordsSorted | server/routes.js:125-150 | When the rows are sorted by question id, consecutive records are in `KeyBefore` order. |
| Grouping.GroupDomain | server/routes.js:132-139 | After the loop has seen some rows, the map and its key list hold exactly those rows' question ids, each key once. |
| Grouping.GroupAnswers | server/routes.js:140-147 | A question's record carries its own id and exactly the answers its rows push, in row order. A null answer id adds nothing. |
| Grouping.GroupTexts | server/routes.js:132-139 | A record's text and type are those of its question's first row. |
| Grouping.GroupKeysOrder | server/routes.js:132-139 | Keys are added in the order of their questions' first rows. |
| Grouping.AnswersOfMembers | server/routes.js:140-147 | Every answer listed for a question comes from a row of that question with an answer, and every such row contributes its answer. |
| Grouping.AnswersOfAbsent | server/routes.js:140 | A question with no rows has no answers. |
| Grouping.FirstIndex | server/routes.js:132 | The first row of a question is the row at which its record is created. |
| Grouping.AnswersOfColumn | server/routes.js:140-147 | For rows of one question, the answers pushed are the views of the answer column's entries with a non-zero id, in order. |
| Grouping.AnswersOfPermutation | server/routes.js:125-147 | Reordering the rows reorders the answers a question collects, and changes nothing else about them. |
| Server.ResponsesForCount | server/routes.js:214 | The response rows built from a graded list are one per entry, with as many correct as the graded list. |
| Server.GradedResponses | server/routes.js:214-216 | The response rows of a graded submission carry the new attempt id. Each answers a question of the submitted quiz. They agree with the attempt's score and total. |
| Server.AttemptKeepsInvariants | server/routes.js:203-207 | Inserting an attempt with the counter's id and a score within its total keeps the store invariants. The new attempt has no responses yet. |
| Server.ResponsesKeepInvariants | server/routes.js:214-217 | Inserting, for an attempt without responses, rows that belong to it and agree with its score keeps the store invariants. |
| Server.ResponsesPrecede | server/routes.js:207 | Every stored response refers to an attempt id below the counter, so a new attempt id has no responses. |
| Server.UserKeepsInvariant | server/routes.js:13-20 | Inserting a user whose username and email are both unused keeps usernames and emails unique. |
| Server.ListingFacts | server/index.js:126-170 | Grouping the quiz's joined rows, in any order sorted by question id, lists the quiz. There is one record per question of the quiz, in `KeyBefore` order, with the question's text and type. Its answers are, as a multiset, exactly the question's answers with a non-zero id. |
| Server.ListingAnswers | server/routes.js:125-147 | In any order of the quiz's rows, a question of the quiz collects each of its answers with a non-zero id exactly once. |
| Server.ListingAscending | server/routes.js:150 | When every question id of the quiz is an array index (as any id in [0, 2^32 − 2] is), the listing is in strictly ascending id order. |
| Server.App.Register | server/routes.js:8-32 | A missing field gives 400. A username or email already in use gives 400 and inserts nothing. Otherwise the user is inserted with the next id, the session is bound to it, and the reply carries id, username and email. Store failures give 500 "Database error" or "Failed to create user", each with no change. The copy at server/controller.js:2-47 behaves the same. |
| Server.App.Login | server/controller.js:50-86 | Missing credentials give 400. When no user matches both email and password (unknown email or wrong password alike), the reply is the single 401 "Invalid email or password" and nothing changes. Otherwise the session is bound to the matching user, and the reply carries only id, username and email. The copy at server/routes.js:35-51 behaves the same. |
| Server.App.Logout | server/controller.js:89-103 | The session is cleared. If the session store fails, the reply is 500 "Failed to logout" and the session is kept. |
| Server.App.Me | server/index.js:8-37 | No session gives 401, and a failing store call gives 500. Otherwise 404 comes exactly when no user has the session's id, and 200 when one does. A 200 reply carries that user without the password. The copy at server/routes.js:62-73 behaves the same. |
| Server.App.QuizDetail | server/index.js:78-102 | A failing store call gives 500. Otherwise 404 comes exactly when no quiz has the id, and otherwise the reply is 200 with that quiz. The copy at server/routes.js:93-102 behaves the same. |
| Server.App.ListQuestions | server/routes.js:113-150 | Join, sort by question id and a second column, then group. The result is a listing of the quiz as in `ListingFacts`, and each record's answers come in the order of the sorted rows. |
| Server.App.QuizQuestions | server/routes.js:105-153 | Unknown quiz gives 404, store failures give 500, and otherwise the reply is 200 with a listing of the quiz: every question once, in `KeyBefore` order, each with exactly its answers as a multiset. The order of answers within a question is not constrained. |
| Server.App.QuizQuestionsApi | server/index.js:105-178 | As `QuizQuestions`, and every question's answers are in `answer_order`. |
| Server.App.GradeAndRecord | server/routes.js:171-221 | Grades the submission against the quiz's key rows. A failing key read or attempt insert changes nothing. Otherwise exactly one attempt is inserted with score = correct count and total = graded count. If the graded list is empty, no response rows are inserted. Otherwise one response per graded entry is inserted, unless that insert fails. The reply reports score == correctCount. |
| Server.App.InsertAttempt | server/routes.js:203-207 | `INSERT INTO user_attempts` takes the next attempt id and appends exactly that row. |
| Server.App.InsertResponses | server/routes.js:214-217 | `INSERT INTO user_responses` appends exactly the given rows. |
| Server.App.Submit | server/routes.js:156-223 | Checked in order: no session gives 401, a missing or empty answers array gives 400, an unknown quiz gives 404. Each rejection changes nothing. Otherwise the submission is graded and recorded as in `GradeAndRecord` under the session's user id. |
| Server.App.SubmitApi | server/controller.js:106-213 | The same guard order and the same effect as `Submit`. The extra empty-ids check never fires. |
| Server.App.UserAttempts | server/routes.js:226-255 | Checked in order: no session gives 401 before the id is looked at, a non-integer id gives 400, any id other than the session's gives 403 whether or not such a user exists. Otherwise the reply lists exactly the session user's attempts, newest first. The copy at server/index.js:182-220 behaves the same. |

## Left out

- Progress tracking (theory and quiz completion flags, reset): no route for it exists in the server files, so there is nothing to model.
- `GET /users` and `GET /quizzes` (server/routes.js:76-91, server/index.js:39-75): unconditional selects with no logic beyond `ORDER BY`, outside the submission and lookup core.
- Password hashing: the server stores and compares the password in plaintext, so credentials are plain string equality.
- Case-insensitive collation and type coercion in MySQL comparisons, and JavaScript's string/number id coercion: ids are integers and strings compare exactly.
- `parseInt` details: the path id of the attempts endpoint is an optional integer, `None` when it does not parse.
- Missing and falsy request fields are both the empty string. A missing or non-array `answers` field is `None`.
- `is_correct` and `isCorrect` are booleans rather than the integers 0/1.
- Connection setup, CORS, body parsing and session cookie configuration (server/config.js): plumbing with no logic of the core.
- The SQL engine itself: each query is a filter, join or sort over the in-memory tables. `created_at` timestamps are not modelled.
- Callbacks, asynchrony and concurrent requests: each handler is one sequential step. A database failure is the `fault` parameter, and other clients' sessions are not modelled.
- Server.App.QuizQuestions: the order `RAND()` gives to answers is a parameter, and the contract promises nothing about it.
- JavaScript property names: a question id is the integer it converts to, and an array index is an integer in [0, 2^32 − 2]. Ids that are not canonical numeric strings do not arise, since ids are integers.
- Server.App.Login: the reply names some user matching both email and password rather than the first in table order; the store invariant makes emails unique, so that user is unique.
