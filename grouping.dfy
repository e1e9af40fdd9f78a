/** Folding the joined question/answer rows of a quiz into one record per
    question, as the questions endpoints do with `questionsMap`. */
module Grouping {
  import opened Tables
  import opened Seqs

  /** One row of `questions LEFT JOIN answers`: `answer` is None when the
      question has no answers and the answer columns are NULL. */
  datatype JoinedRow = JoinedRow(questionId: int, questionText: string, questionType: string, answer: Option<Answer>)

  /** The answer object pushed into a question record. */
  datatype AnswerView = AnswerView(id: int, text: string, isCorrect: bool, answerOrder: int)

  /** One element of the `questions` reply. */
  datatype QuestionRecord = QuestionRecord(id: int, text: string, questionType: string, answers: seq<AnswerView>)

  /** The handler's `if (row.answer_id)`: a NULL answer id (and the falsy id 0) adds no answer. */
  predicate HasAnswer(row: JoinedRow)
  {
    row.answer.Some? && row.answer.value.id != 0
  }

  function View(a: Answer): AnswerView
  {
    AnswerView(a.id, a.text, a.isCorrect, a.answerOrder)
  }

  /** The question ids that occur in the rows. */
  function RowIds(rows: seq<JoinedRow>): set<int>
  {
    set r | r in rows :: r.questionId
  }

  /** The question ids of the records. */
  function RecordIds(records: seq<QuestionRecord>): set<int>
  {
    set rec | rec in records :: rec.id
  }

  /** The answers the rows give question `q`, in row order. */
  function AnswersOf(rows: seq<JoinedRow>, q: int): seq<AnswerView>
  {
    if rows == [] then []
    else
      var last := rows[|rows| - 1];
      AnswersOf(rows[..|rows| - 1], q) + (if last.questionId == q && HasAnswer(last) then [View(last.answer.value)] else [])
  }

  /** The position of the first row of question `q`. */
  function FirstIndex(rows: seq<JoinedRow>, q: int): (k: nat)
    requires q in RowIds(rows)
    ensures k < |rows| && rows[k].questionId == q
    ensures forall j :: 0 <= j < k ==> rows[j].questionId != q
    decreases |rows|
  {
    if rows[0].questionId == q then 0
    else
      TailHasId(rows, q);
      1 + FirstIndex(rows[1..], q)
  }

  lemma TailHasId(rows: seq<JoinedRow>, q: int)
    requires q in RowIds(rows) && rows[0].questionId != q
    ensures q in RowIds(rows[1..])
  {
    var r :| r in rows && r.questionId == q;
    var i :| 0 <= i < |rows| && rows[i] == r;
    assert rows[1..][i - 1] == r;
  }

  /** Every answer the rows give question `q` comes from a row of `q` that has an answer, and every such row gives one. */
  lemma {:induction false} AnswersOfMembers(rows: seq<JoinedRow>, q: int)
    ensures forall v :: v in AnswersOf(rows, q) ==>
              exists r :: r in rows && r.questionId == q && HasAnswer(r) && v == View(r.answer.value)
    ensures forall r :: r in rows && r.questionId == q && HasAnswer(r) ==> View(r.answer.value) in AnswersOf(rows, q)
    decreases |rows|
  {
    if rows != [] {
      var init := rows[..|rows| - 1];
      AnswersOfMembers(init, q);
      assert rows == init + [rows[|rows| - 1]];
      assert forall r :: r in init ==> r in rows;
    }
  }

  /** Rows in non-decreasing order of question id, as `ORDER BY q.id` delivers them. */
  predicate ByQuestionId(rows: seq<JoinedRow>)
  {
    forall i, j :: 0 <= i < j < |rows| ==> rows[i].questionId <= rows[j].questionId
  }

  // ------------------------------------------------------- the grouping loop

  /** The loop's second step on `row`, whose question has a record: append the row's answer, if any. */
  function Push(m: map<int, QuestionRecord>, row: JoinedRow): map<int, QuestionRecord>
    requires row.questionId in m
  {
    if HasAnswer(row)
    then m[row.questionId := m[row.questionId].(answers := m[row.questionId].answers + [View(row.answer.value)])]
    else m
  }

  /** One turn of the loop: a question seen for the first time gets a record
      with its text and type and no answers, then the row's answer is pushed. */
  function Step(m: map<int, QuestionRecord>, row: JoinedRow): map<int, QuestionRecord>
  {
    Push(if row.questionId in m then m
         else m[row.questionId := QuestionRecord(row.questionId, row.questionText, row.questionType, [])], row)
  }

  /** `questionsMap` once the loop has seen `rows`. */
  function GroupMap(rows: seq<JoinedRow>): map<int, QuestionRecord>
  {
    if rows == [] then map[] else Step(GroupMap(rows[..|rows| - 1]), rows[|rows| - 1])
  }

  /** The keys of `questionsMap` in the order they were added, once the loop has seen `rows`. */
  function GroupKeys(rows: seq<JoinedRow>): seq<int>
  {
    if rows == [] then []
    else
      var init, q := rows[..|rows| - 1], rows[|rows| - 1].questionId;
      GroupKeys(init) + (if q in GroupMap(init) then [] else [q])
  }

  // ------------------------------------------------ the order of Object.values

  /** `questionsMap` is a JavaScript object keyed by `question_id`. A key is an
      array index when it is an integer in [0, 2^32 - 2]; any other key, a
      negative id say, is an ordinary property name. */
  predicate IsIndex(k: int)
  {
    0 <= k < 0xFFFF_FFFF
  }

  predicate NotIndex(k: int)
  {
    !IsIndex(k)
  }

  function IndexKey(k: int): (int, int)
  {
    (k, 0)
  }

  /** The order in which an object lists its own keys, when they were created
      in the order `keys`: the array indices in ascending numeric order, then
      the other keys in creation order (OrdinaryOwnPropertyKeys, section
      10.1.11.1 of ECMAScript 2023, which `Object.values` follows). */
  function PropertyOrder(keys: seq<int>): seq<int>
  {
    SortBy(Where(keys, IsIndex), IndexKey) + Where(keys, NotIndex)
  }

  /** How two distinct keys are ordered by `PropertyOrder` when the later-created
      one never precedes the other among non-index keys: indices first,
      ascending, then the rest ascending. */
  predicate KeyBefore(a: int, b: int)
  {
    if IsIndex(a) == IsIndex(b) then a < b else IsIndex(a)
  }

  /** The property order lists every key exactly as often as it was created. */
  lemma PropertyOrderPermutes(keys: seq<int>)
    ensures multiset(PropertyOrder(keys)) == multiset(keys)
  {
    var indices, others := Where(keys, IsIndex), Where(keys, NotIndex);
    var sorted := SortBy(indices, IndexKey);
    assert PropertyOrder(keys) == sorted + others;
    WhereSplit(keys, IsIndex, NotIndex);
  }

  /** All array indices come first, in ascending order. */
  lemma PropertyOrderIndices(keys: seq<int>)
    ensures var order := PropertyOrder(keys);
            forall i, j :: 0 <= i < j < |order| && IsIndex(order[j]) ==> IsIndex(order[i]) && order[i] <= order[j]
  {
    var indices, others := Where(keys, IsIndex), Where(keys, NotIndex);
    var sorted := SortBy(indices, IndexKey);
    var order := PropertyOrder(keys);
    assert order == sorted + others;
    SameMembers(sorted, indices);
    forall i, j | 0 <= i < j < |order| && IsIndex(order[j])
      ensures IsIndex(order[i]) && order[i] <= order[j]
    {
      assert order[i] == sorted[i] && order[j] == sorted[j];
      assert sorted[i] in sorted;
      assert KeyLe(IndexKey(sorted[i]), IndexKey(sorted[j]));
    }
  }

  /** The other keys follow, in the order they were created. */
  lemma PropertyOrderOthers(keys: seq<int>)
    ensures var order := PropertyOrder(keys);
            forall i, j :: 0 <= i < j < |order| && !IsIndex(order[i]) ==>
              !IsIndex(order[j]) && Before(keys, order[i], order[j])
  {
    var indices, others := Where(keys, IsIndex), Where(keys, NotIndex);
    var sorted := SortBy(indices, IndexKey);
    var order := PropertyOrder(keys);
    assert order == sorted + others;
    WhereKeepsOrder(keys, NotIndex);
    SameMembers(sorted, indices);
    forall i, j | 0 <= i < j < |order| && !IsIndex(order[i])
      ensures !IsIndex(order[j]) && Before(keys, order[i], order[j])
    {
      var i', j' := i - |sorted|, j - |sorted|;
      assert order[i] == others[i'] && order[j] == others[j'];
      assert others[j'] in others;
      assert Before(keys, others[i'], others[j']);
    }
  }

  /** Every element of the property order is one of the keys. */
  lemma PropertyOrderMembers(keys: seq<int>)
    ensures forall i :: 0 <= i < |PropertyOrder(keys)| ==> PropertyOrder(keys)[i] in keys
  {
    var order := PropertyOrder(keys);
    PropertyOrderPermutes(keys);
    SameMembers(order, keys);
    assert forall i :: 0 <= i < |order| ==> order[i] in order;
  }

  /** `Object.values` of an object with entries `m` whose keys were created in the order `keys`. */
  function ObjectValues(m: map<int, QuestionRecord>, keys: seq<int>): seq<QuestionRecord>
    requires forall k :: k in keys ==> k in m
  {
    var order := PropertyOrder(keys);
    PropertyOrderMembers(keys);
    seq(|order|, i requires 0 <= i < |order| => m[order[i]])
  }

  /** The grouping's result: `Object.values(questionsMap)` once the loop has seen every row. */
  function Records(rows: seq<JoinedRow>): seq<QuestionRecord>
  {
    GroupDomain(rows);
    ObjectValues(GroupMap(rows), GroupKeys(rows))
  }

  lemma RowIdsLast(rows: seq<JoinedRow>)
    requires rows != []
    ensures RowIds(rows) == RowIds(rows[..|rows| - 1]) + {rows[|rows| - 1].questionId}
  {
    assert rows == rows[..|rows| - 1] + [rows[|rows| - 1]];
    assert forall r :: r in rows <==> r in rows[..|rows| - 1] || r == rows[|rows| - 1];
  }

  /** The map holds, and the keys list without repetition, exactly the questions of the rows. */
  lemma {:induction false} GroupDomain(rows: seq<JoinedRow>)
    ensures forall x :: x in GroupMap(rows) <==> x in RowIds(rows)
    ensures forall x :: x in GroupKeys(rows) <==> x in RowIds(rows)
    ensures forall i, j :: 0 <= i < j < |GroupKeys(rows)| ==> GroupKeys(rows)[i] != GroupKeys(rows)[j]
    ensures forall i :: 0 <= i < |GroupKeys(rows)| ==> GroupKeys(rows)[i] in GroupMap(rows)
    decreases |rows|
  {
    if rows != [] {
      GroupDomain(rows[..|rows| - 1]);
      RowIdsLast(rows);
    }
  }

  /** The record of each question carries its id and exactly its answers, in row order. */
  lemma {:induction false} GroupAnswers(rows: seq<JoinedRow>)
    ensures forall x :: x in GroupMap(rows) ==>
              GroupMap(rows)[x].id == x && GroupMap(rows)[x].answers == AnswersOf(rows, x)
    decreases |rows|
  {
    if rows != [] {
      var init, last := rows[..|rows| - 1], rows[|rows| - 1];
      GroupAnswers(init);
      GroupDomain(init);
      if last.questionId !in RowIds(init) {
        AnswersOfAbsent(init, last.questionId);
      }
      forall x | x in GroupMap(rows)
        ensures GroupMap(rows)[x].id == x && GroupMap(rows)[x].answers == AnswersOf(rows, x)
      {
        if x != last.questionId {
          assert GroupMap(rows)[x] == GroupMap(init)[x];
        }
      }
    }
  }

  /** The record of each question carries the text and type of that question's first row. */
  lemma {:induction false} GroupTexts(rows: seq<JoinedRow>)
    ensures forall x :: x in GroupMap(rows) ==>
              && x in RowIds(rows)
              && GroupMap(rows)[x].text == rows[FirstIndex(rows, x)].questionText
              && GroupMap(rows)[x].questionType == rows[FirstIndex(rows, x)].questionType
    decreases |rows|
  {
    if rows != [] {
      var init, last := rows[..|rows| - 1], rows[|rows| - 1];
      GroupTexts(init);
      GroupDomain(init);
      GroupDomain(rows);
      forall x | x in GroupMap(rows)
        ensures && GroupMap(rows)[x].text == rows[FirstIndex(rows, x)].questionText
                && GroupMap(rows)[x].questionType == rows[FirstIndex(rows, x)].questionType
      {
        if x in GroupMap(init) {
          KeptHeader(rows, x);
        } else {
          FirstIndexAt(rows, |rows| - 1);
        }
      }
    }
  }

  /** A record that exists before the last row keeps its text and type, and so does its first row. */
  lemma KeptHeader(rows: seq<JoinedRow>, x: int)
    requires rows != [] && x in GroupMap(rows[..|rows| - 1]) && x in RowIds(rows[..|rows| - 1])
    ensures x in GroupMap(rows) && x in RowIds(rows)
    ensures GroupMap(rows)[x].text == GroupMap(rows[..|rows| - 1])[x].text
    ensures GroupMap(rows)[x].questionType == GroupMap(rows[..|rows| - 1])[x].questionType
    ensures FirstIndex(rows, x) == FirstIndex(rows[..|rows| - 1], x)
  {
    FirstIndexInit(rows, x);
  }

  /** Keys are listed in order of their questions' first rows. */
  lemma {:induction false} GroupKeysOrder(rows: seq<JoinedRow>)
    ensures forall i :: 0 <= i < |GroupKeys(rows)| ==> GroupKeys(rows)[i] in RowIds(rows)
    ensures forall i, j :: 0 <= i < j < |GroupKeys(rows)| ==>
              FirstIndex(rows, GroupKeys(rows)[i]) < FirstIndex(rows, GroupKeys(rows)[j])
    decreases |rows|
  {
    if rows != [] {
      var init, last := rows[..|rows| - 1], rows[|rows| - 1];
      GroupKeysOrder(init);
      GroupDomain(init);
      GroupDomain(rows);
      var keys0, keys := GroupKeys(init), GroupKeys(rows);
      forall i | 0 <= i < |keys0|
        ensures keys[i] == keys0[i] && FirstIndex(rows, keys[i]) == FirstIndex(init, keys0[i]) < |init|
      {
        FirstIndexInit(rows, keys0[i]);
      }
      if last.questionId !in GroupMap(init) {
        FirstIndexAt(rows, |rows| - 1);
      }
    }
  }

  /** A question of the first rows has its first row among them. */
  lemma FirstIndexInit(rows: seq<JoinedRow>, x: int)
    requires rows != [] && x in RowIds(rows[..|rows| - 1])
    ensures x in RowIds(rows) && FirstIndex(rows, x) == FirstIndex(rows[..|rows| - 1], x)
  {
    var init := rows[..|rows| - 1];
    var f := FirstIndex(init, x);
    assert rows[f] == init[f];
    assert rows[f] in rows;
  }

  /** The grouping loop. One record per distinct question id, made from the
      first row of that question; every row with an answer appends that
      answer to its question's record, so answers keep row order; rows
      without an answer add none. `Object.values` then lists the records with
      array-index ids first, ascending, and the others in order of first
      appearance; for rows sorted by question id that is `KeyBefore` order. */
  method GroupRows(rows: seq<JoinedRow>) returns (records: seq<QuestionRecord>)
    ensures records == Records(rows)
    ensures RecordIds(records) == RowIds(rows)
    ensures forall i, j :: 0 <= i < j < |records| ==> records[i].id != records[j].id
    ensures forall i :: 0 <= i < |records| ==> records[i].id in RowIds(rows)
    ensures forall i :: 0 <= i < |records| ==> records[i].answers == AnswersOf(rows, records[i].id)
    ensures forall i :: 0 <= i < |records| ==>
              && records[i].text == rows[FirstIndex(rows, records[i].id)].questionText
              && records[i].questionType == rows[FirstIndex(rows, records[i].id)].questionType
    ensures forall i, j :: 0 <= i < j < |records| && IsIndex(records[j].id) ==>
              IsIndex(records[i].id) && records[i].id < records[j].id
    ensures forall i, j :: 0 <= i < j < |records| && !IsIndex(records[i].id) ==>
              !IsIndex(records[j].id) && FirstIndex(rows, records[i].id) < FirstIndex(rows, records[j].id)
    ensures ByQuestionId(rows) ==> forall i, j :: 0 <= i < j < |records| ==> KeyBefore(records[i].id, records[j].id)
  {
    var questionsMap: map<int, QuestionRecord> := map[];
    var keys: seq<int> := [];
    var k := 0;
    while k < |rows|
      invariant 0 <= k <= |rows|
      invariant questionsMap == GroupMap(rows[..k]) && keys == GroupKeys(rows[..k])
    {
      var row := rows[k];
      assert rows[..k + 1][..k] == rows[..k];
      if row.questionId !in questionsMap {
        questionsMap := questionsMap[row.questionId := QuestionRecord(row.questionId, row.questionText, row.questionType, [])];
        keys := keys + [row.questionId];
      } else {
        assert keys + [] == keys;
      }
      questionsMap := Push(questionsMap, row);
      k := k + 1;
    }
    assert rows[..|rows|] == rows;
    GroupDomain(rows);
    records := ObjectValues(questionsMap, keys);
    RecordsShape(rows);
    RecordsContent(rows);
    RecordsOrder(rows);
    RecordsSorted(rows);
  }

  /** Record i is the map's entry for the i-th key in property order; that
      order lists each question of the rows exactly once. */
  lemma RecordsAt(rows: seq<JoinedRow>)
    ensures var records, order := Records(rows), PropertyOrder(GroupKeys(rows));
            && |records| == |order| && Distinct(order)
            && (forall x :: x in order <==> x in RowIds(rows))
            && forall i :: 0 <= i < |order| ==> order[i] in GroupMap(rows) && records[i] == GroupMap(rows)[order[i]]
  {
    GroupDomain(rows);
    var keys := GroupKeys(rows);
    var order := PropertyOrder(keys);
    PropertyOrderPermutes(keys);
    SameMembers(order, keys);
    PermutationDistinct(order, keys);
    forall i | 0 <= i < |order|
      ensures order[i] in GroupMap(rows)
    {
      assert order[i] in order;
    }
  }

  /** One record per question of the rows, each with its own id, none repeated. */
  lemma RecordsShape(rows: seq<JoinedRow>)
    ensures var records := Records(rows);
            && RecordIds(records) == RowIds(rows)
            && (forall i, j :: 0 <= i < j < |records| ==> records[i].id != records[j].id)
            && (forall i :: 0 <= i < |records| ==> records[i].id in RowIds(rows))
  {
    var records, order := Records(rows), PropertyOrder(GroupKeys(rows));
    RecordsAt(rows);
    GroupAnswers(rows);
    assert forall i :: 0 <= i < |records| ==> records[i].id == order[i];
    forall x | x in RowIds(rows)
      ensures x in RecordIds(records)
    {
      var i :| 0 <= i < |order| && order[i] == x;
      assert records[i] in records;
    }
  }


  /** Each record carries its question's answers in row order and the text and type of its first row. */
  lemma RecordsContent(rows: seq<JoinedRow>)
    ensures var records := Records(rows);
            && (forall i :: 0 <= i < |records| ==> records[i].id in RowIds(rows))
            && (forall i :: 0 <= i < |records| ==> records[i].answers == AnswersOf(rows, records[i].id))
            && (forall i :: 0 <= i < |records| ==>
                  && records[i].text == rows[FirstIndex(rows, records[i].id)].questionText
                  && records[i].questionType == rows[FirstIndex(rows, records[i].id)].questionType)
  {
    var records, order := Records(rows), PropertyOrder(GroupKeys(rows));
    RecordsAt(rows);
    GroupAnswers(rows);
    GroupTexts(rows);
    assert forall i :: 0 <= i < |records| ==> records[i].id == order[i];
  }

  /** Records with array-index ids come first, ascending; the others follow in order of first appearance. */
  lemma RecordsOrder(rows: seq<JoinedRow>)
    ensures var records := Records(rows);
            && (forall i :: 0 <= i < |records| ==> records[i].id in RowIds(rows))
            && (forall i, j :: 0 <= i < j < |records| && IsIndex(records[j].id) ==>
                  IsIndex(records[i].id) && records[i].id < records[j].id)
            && (forall i, j :: 0 <= i < j < |records| && !IsIndex(records[i].id) ==>
                  !IsIndex(records[j].id) && FirstIndex(rows, records[i].id) < FirstIndex(rows, records[j].id))
  {
    var records, keys := Records(rows), GroupKeys(rows);
    var order := PropertyOrder(keys);
    RecordsAt(rows);
    GroupAnswers(rows);
    PropertyOrderIndices(keys);
    PropertyOrderOthers(keys);
    GroupKeysOrder(rows);
    assert forall i :: 0 <= i < |records| ==> records[i].id == order[i];
    forall i, j | 0 <= i < j < |records| && !IsIndex(records[i].id)
      ensures FirstIndex(rows, records[i].id) < FirstIndex(rows, records[j].id)
    {
      assert Before(keys, order[i], order[j]);
      var a, b :| 0 <= a < b < |keys| && keys[a] == order[i] && keys[b] == order[j];
    }
  }

  /** On rows sorted by question id, records come in `KeyBefore` order. */
  lemma RecordsSorted(rows: seq<JoinedRow>)
    ensures var records := Records(rows);
            ByQuestionId(rows) ==> forall i, j :: 0 <= i < j < |records| ==> KeyBefore(records[i].id, records[j].id)
  {
    var records := Records(rows);
    RecordsShape(rows);
    RecordsOrder(rows);
    if ByQuestionId(rows) {
      forall i, j | 0 <= i < j < |records|
        ensures KeyBefore(records[i].id, records[j].id)
      {
        if !IsIndex(records[i].id) {
          var fi, fj := FirstIndex(rows, records[i].id), FirstIndex(rows, records[j].id);
          assert rows[fi].questionId <= rows[fj].questionId;
        }
      }
    }
  }

  // ------------------------------------------------ the answers of one question

  /** The answer columns of the rows that have them, in row order; NULL columns give none. */
  function AnswerColumn(rows: seq<JoinedRow>): seq<Answer>
  {
    if rows == [] then []
    else
      var last := rows[|rows| - 1];
      AnswerColumn(rows[..|rows| - 1]) + (if last.answer.Some? then [last.answer.value] else [])
  }

  /** The views a record lists for answers `s`: those with a non-zero id, in order. */
  function ListedViews(s: seq<Answer>): seq<AnswerView>
  {
    if s == [] then []
    else ListedViews(s[..|s| - 1]) + (if s[|s| - 1].id != 0 then [View(s[|s| - 1])] else [])
  }

  lemma {:induction false} AnswersOfAppend(a: seq<JoinedRow>, b: seq<JoinedRow>, q: int)
    ensures AnswersOf(a + b, q) == AnswersOf(a, q) + AnswersOf(b, q)
    decreases |b|
  {
    if b == [] {
      assert a + b == a;
    } else {
      var b' := b[..|b| - 1];
      assert (a + b)[..|a + b| - 1] == a + b';
      assert (a + b)[|a + b| - 1] == b[|b| - 1];
      AnswersOfAppend(a, b', q);
    }
  }

  lemma {:induction false} ListedViewsAppend(a: seq<Answer>, b: seq<Answer>)
    ensures ListedViews(a + b) == ListedViews(a) + ListedViews(b)
    decreases |b|
  {
    if b == [] {
      assert a + b == a;
    } else {
      var b' := b[..|b| - 1];
      assert (a + b)[..|a + b| - 1] == a + b';
      assert (a + b)[|a + b| - 1] == b[|b| - 1];
      ListedViewsAppend(a, b');
    }
  }

  /** On the rows of one question, the grouping collects the listed views of their answer column. */
  lemma {:induction false} AnswersOfColumn(rows: seq<JoinedRow>, q: int)
    requires forall r :: r in rows ==> r.questionId == q
    ensures AnswersOf(rows, q) == ListedViews(AnswerColumn(rows))
    decreases |rows|
  {
    if rows != [] {
      var init, last := rows[..|rows| - 1], rows[|rows| - 1];
      assert forall r :: r in init ==> r in rows;
      assert last in rows;
      AnswersOfColumn(init, q);
      var col := if last.answer.Some? then [last.answer.value] else [];
      ListedViewsAppend(AnswerColumn(init), col);
      if last.answer.Some? {
        assert col[..0] == [];
      }
    }
  }

  /** Taking row `k` out of `t` takes its answer, if any, out of every question's answers. */
  lemma TakeOut(t: seq<JoinedRow>, k: nat, q: int)
    requires k < |t|
    ensures multiset(t[..k] + t[k + 1..]) == multiset(t) - multiset{t[k]}
    ensures multiset(AnswersOf(t, q)) == multiset(AnswersOf(t[..k] + t[k + 1..], q)) + multiset(AnswersOf([t[k]], q))
  {
    var t1, t2 := t[..k], t[k + 1..];
    assert t == t1 + [t[k]] + t2;
    AnswersOfAppend(t1 + [t[k]], t2, q);
    AnswersOfAppend(t1, [t[k]], q);
    AnswersOfAppend(t1, t2, q);
  }

  /** Reordering the rows reorders each question's answers and changes nothing else about them. */
  lemma {:induction false} AnswersOfPermutation(s: seq<JoinedRow>, t: seq<JoinedRow>, q: int)
    requires multiset(s) == multiset(t)
    ensures multiset(AnswersOf(s, q)) == multiset(AnswersOf(t, q))
    decreases |s|
  {
    if s != [] {
      var init, y := s[..|s| - 1], s[|s| - 1];
      assert s == init + [y];
      assert y in multiset(t);
      var k :| 0 <= k < |t| && t[k] == y;
      TakeOut(t, k, q);
      assert multiset(init) == multiset(s) - multiset{y};
      AnswersOfPermutation(init, t[..k] + t[k + 1..], q);
      AnswersOfAppend(init, [y], q);
    }
  }


  lemma {:induction false} AnswersOfAbsent(rows: seq<JoinedRow>, q: int)
    requires q !in RowIds(rows)
    ensures AnswersOf(rows, q) == []
    decreases |rows|
  {
    if rows != [] {
      var init := rows[..|rows| - 1];
      assert rows[|rows| - 1] in rows;
      assert forall r :: r in init ==> r in rows;
      AnswersOfAbsent(init, q);
    }
  }

  /** The row at `k` is the first of its question when no earlier row has that question. */
  lemma FirstIndexAt(rows: seq<JoinedRow>, k: nat)
    requires k < |rows| && rows[k].questionId !in RowIds(rows[..k])
    ensures rows[k].questionId in RowIds(rows) && FirstIndex(rows, rows[k].questionId) == k
  {
    var q := rows[k].questionId;
    assert rows[k] in rows;
    var f := FirstIndex(rows, q);
  }
}
