/** The grading engine of quiz submission.

    Input: the submitted `(questionId, selectedAnswerId)` pairs in the order
    they were sent, and the rows of the answer-key query
    `(question_id, answer_id, is_correct)`. A pair is graded only when its
    question has at least one key row; it is correct exactly when its selected
    answer is one of the answers marked correct for that question. Nothing is
    deduplicated: each occurrence of a question is graded and counted. */
module Grading {

  /** One element of the submitted `answers` array. */
  datatype Submitted = Submitted(questionId: int, selectedAnswerId: int)

  /** One row of the answer-key query. */
  datatype KeyRow = KeyRow(questionId: int, answerId: int, isCorrect: bool)

  /** One entry of the `graded` list. */
  datatype Graded = Graded(questionId: int, selectedAnswerId: int, isCorrect: bool)

  /** The answers marked correct for question `q`: the set that
      `correctByQuestion` holds for `q`, or the empty set when it has none. */
  function CorrectIds(rows: seq<KeyRow>, q: int): set<int>
  {
    set r | r in rows && r.isCorrect && r.questionId == q :: r.answerId
  }

  /** The questions that have at least one key row (`validIds`). */
  function ValidIds(rows: seq<KeyRow>): set<int>
  {
    set r | r in rows :: r.questionId
  }

  /** The graded entry of one pair, or no entry when its question is not valid. */
  function GradeOne(a: Submitted, rows: seq<KeyRow>): seq<Graded>
  {
    if a.questionId in ValidIds(rows)
    then [Graded(a.questionId, a.selectedAnswerId, a.selectedAnswerId in CorrectIds(rows, a.questionId))]
    else []
  }

  /** The graded list the grading loop builds, one pair at a time. */
  function GradeAll(answers: seq<Submitted>, rows: seq<KeyRow>): (graded: seq<Graded>)
    ensures |graded| <= |answers|
  {
    if answers == [] then []
    else GradeAll(answers[..|answers| - 1], rows) + GradeOne(answers[|answers| - 1], rows)
  }

  /** The number of entries graded correct. */
  function CountCorrect(graded: seq<Graded>): (n: nat)
    ensures n <= |graded|
  {
    if graded == [] then 0
    else CountCorrect(graded[..|graded| - 1]) + (if graded[|graded| - 1].isCorrect then 1 else 0)
  }

  /** Reference definition of which pairs are graded: the submitted pairs
      whose question is valid, in submission order, repeats included. */
  function Kept(answers: seq<Submitted>, rows: seq<KeyRow>): (kept: seq<Submitted>)
    ensures |kept| <= |answers|
    ensures forall a :: a in kept ==> a in answers && a.questionId in ValidIds(rows)
  {
    if answers == [] then []
    else (if answers[0].questionId in ValidIds(rows) then [answers[0]] else []) + Kept(answers[1..], rows)
  }

  /** `g` is the grading of the pair `a`: same question, same selection, and
      correct exactly when the selection is one of the question's correct answers. */
  predicate GradesPair(g: Graded, a: Submitted, rows: seq<KeyRow>)
  {
    && g.questionId == a.questionId
    && g.selectedAnswerId == a.selectedAnswerId
    && (g.isCorrect <==> a.selectedAnswerId in CorrectIds(rows, a.questionId))
  }

  lemma {:induction false} KeptAppend(a: seq<Submitted>, b: seq<Submitted>, rows: seq<KeyRow>)
    ensures Kept(a + b, rows) == Kept(a, rows) + Kept(b, rows)
    decreases |a|
  {
    if a == [] {
      assert a + b == b;
    } else {
      assert (a + b)[1..] == a[1..] + b;
      KeptAppend(a[1..], b, rows);
    }
  }

  /** Appending to the submission appends to the graded list. */
  lemma {:induction false} GradeAllAppend(a: seq<Submitted>, b: seq<Submitted>, rows: seq<KeyRow>)
    ensures GradeAll(a + b, rows) == GradeAll(a, rows) + GradeAll(b, rows)
    decreases |b|
  {
    if b == [] {
      assert a + b == a;
    } else {
      var b' := b[..|b| - 1];
      assert (a + b)[..|a + b| - 1] == a + b';
      assert (a + b)[|a + b| - 1] == b[|b| - 1];
      GradeAllAppend(a, b', rows);
    }
  }

  /** The graded list is, entry for entry, the grading of the kept pairs:
      submission order and repeated questions are preserved, and only pairs
      of valid questions appear. */
  lemma {:induction false} GradeAllIsKept(answers: seq<Submitted>, rows: seq<KeyRow>)
    ensures |GradeAll(answers, rows)| == |Kept(answers, rows)|
    ensures forall k :: 0 <= k < |Kept(answers, rows)| ==>
              GradesPair(GradeAll(answers, rows)[k], Kept(answers, rows)[k], rows)
    decreases |answers|
  {
    if answers != [] {
      var init, last := answers[..|answers| - 1], answers[|answers| - 1];
      assert answers == init + [last];
      GradeAllIsKept(init, rows);
      KeptAppend(init, [last], rows);
      assert [last][1..] == [];
      var g, kept := GradeAll(answers, rows), Kept(answers, rows);
      assert g == GradeAll(init, rows) + GradeOne(last, rows);
      forall k | 0 <= k < |kept|
        ensures GradesPair(g[k], kept[k], rows)
      {
        if k < |Kept(init, rows)| {
          assert g[k] == GradeAll(init, rows)[k];
          assert kept[k] == Kept(init, rows)[k];
        }
      }
    }
  }

  /** Every graded entry is of a valid question and is correct exactly when
      its selection is among that question's correct answers; so a question
      without key rows is never graded and one without correct answers always
      grades incorrect. */
  lemma GradedEntries(answers: seq<Submitted>, rows: seq<KeyRow>)
    ensures forall g :: g in GradeAll(answers, rows) ==>
              && g.questionId in ValidIds(rows)
              && (g.isCorrect <==> g.selectedAnswerId in CorrectIds(rows, g.questionId))
  {
    GradeAllIsKept(answers, rows);
    var graded, kept := GradeAll(answers, rows), Kept(answers, rows);
    forall g | g in graded
      ensures g.questionId in ValidIds(rows)
      ensures g.isCorrect <==> g.selectedAnswerId in CorrectIds(rows, g.questionId)
    {
      var k :| 0 <= k < |graded| && graded[k] == g;
      assert GradesPair(g, kept[k], rows);
      assert kept[k] in kept;
    }
  }

  /** Pairs whose question is not in the quiz change neither the graded list
      nor, therefore, the score or the total. */
  lemma ForeignPairsIgnored(pre: seq<Submitted>, foreign: seq<Submitted>, post: seq<Submitted>, rows: seq<KeyRow>)
    requires forall a :: a in foreign ==> a.questionId !in ValidIds(rows)
    ensures GradeAll(pre + foreign + post, rows) == GradeAll(pre + post, rows)
  {
    GradeAllAppend(pre + foreign, post, rows);
    GradeAllAppend(pre, foreign, rows);
    GradeAllAppend(pre, post, rows);
    ForeignGradesNothing(foreign, rows);
    assert GradeAll(pre, rows) + [] == GradeAll(pre, rows);
  }

  lemma {:induction false} ForeignGradesNothing(foreign: seq<Submitted>, rows: seq<KeyRow>)
    requires forall a :: a in foreign ==> a.questionId !in ValidIds(rows)
    ensures GradeAll(foreign, rows) == []
    decreases |foreign|
  {
    if foreign != [] {
      var init := foreign[..|foreign| - 1];
      assert forall a :: a in init ==> a in foreign;
      assert foreign[|foreign| - 1] in foreign;
      ForeignGradesNothing(init, rows);
    }
  }

  /** The `correctByQuestion` map: a question is a key exactly when it has a
      correct answer among the key rows, and maps to the set of those answers. */
  method CorrectByQuestion(rows: seq<KeyRow>) returns (correctByQuestion: map<int, set<int>>)
    ensures CorrectMap(correctByQuestion, rows)
  {
    correctByQuestion := map[];
    var i := 0;
    while i < |rows|
      invariant 0 <= i <= |rows|
      invariant forall q :: q in correctByQuestion <==> CorrectIds(rows[..i], q) != {}
      invariant forall q :: q in correctByQuestion ==> correctByQuestion[q] == CorrectIds(rows[..i], q)
    {
      var r := rows[i];
      if r.isCorrect {
        if r.questionId !in correctByQuestion {
          correctByQuestion := correctByQuestion[r.questionId := {}];
        }
        correctByQuestion := correctByQuestion[r.questionId := correctByQuestion[r.questionId] + {r.answerId}];
      }
      CorrectIdsStep(rows, i);
      i := i + 1;
    }
    assert rows[..|rows|] == rows;
  }

  /** `m` maps each question with a correct answer to its set of correct answers. */
  ghost predicate CorrectMap(m: map<int, set<int>>, rows: seq<KeyRow>)
  {
    && (forall q :: q in m <==> CorrectIds(rows, q) != {})
    && (forall q :: q in m ==> m[q] == CorrectIds(rows, q))
  }

  lemma CorrectLookup(m: map<int, set<int>>, rows: seq<KeyRow>, q: int)
    requires CorrectMap(m, rows)
    ensures (if q in m then m[q] else {}) == CorrectIds(rows, q)
  {
  }

  /** The grading step of the submit handler: `correctByQuestion` and
      `validIds` are built from the key rows, then every pair is graded in
      order, skipping pairs of questions that are not valid. */
  method Grade(answers: seq<Submitted>, rows: seq<KeyRow>)
    returns (graded: seq<Graded>, correctCount: nat, totalQuestions: nat)
    ensures graded == GradeAll(answers, rows)
    ensures correctCount == CountCorrect(graded) && totalQuestions == |graded|
    ensures correctCount <= totalQuestions <= |answers|
  {
    var correctByQuestion := CorrectByQuestion(rows);
    var validIds := ValidIds(rows);

    graded, correctCount := [], 0;
    var j := 0;
    while j < |answers|
      invariant 0 <= j <= |answers|
      invariant graded == GradeAll(answers[..j], rows)
      invariant correctCount == CountCorrect(graded)
    {
      var a := answers[j];
      GradeAllStep(answers, j, rows);
      if a.questionId !in validIds {
        assert GradeOne(a, rows) == [];
        j := j + 1;
        continue;
      }
      var correctSet := if a.questionId in correctByQuestion then correctByQuestion[a.questionId] else {};
      var isCorrect := a.selectedAnswerId in correctSet;
      CorrectLookup(correctByQuestion, rows, a.questionId);
      GradeOneValid(a, rows, correctSet);
      if isCorrect {
        correctCount := correctCount + 1;
      }
      CountCorrectStep(graded, Graded(a.questionId, a.selectedAnswerId, isCorrect));
      graded := graded + [Graded(a.questionId, a.selectedAnswerId, isCorrect)];
      j := j + 1;
    }
    assert answers[..|answers|] == answers;
    totalQuestions := |graded|;
  }

  lemma GradeAllStep(answers: seq<Submitted>, j: nat, rows: seq<KeyRow>)
    requires j < |answers|
    ensures GradeAll(answers[..j + 1], rows) == GradeAll(answers[..j], rows) + GradeOne(answers[j], rows)
  {
    assert answers[..j + 1][..j] == answers[..j];
  }

  lemma GradeOneValid(a: Submitted, rows: seq<KeyRow>, correctSet: set<int>)
    requires a.questionId in ValidIds(rows)
    requires correctSet == CorrectIds(rows, a.questionId)
    ensures GradeOne(a, rows) == [Graded(a.questionId, a.selectedAnswerId, a.selectedAnswerId in correctSet)]
  {
  }

  lemma CountCorrectStep(graded: seq<Graded>, g: Graded)
    ensures CountCorrect(graded + [g]) == CountCorrect(graded) + (if g.isCorrect then 1 else 0)
  {
    assert (graded + [g])[..|graded|] == graded;
  }

  lemma CorrectIdsStep(rows: seq<KeyRow>, i: nat)
    requires i < |rows|
    ensures forall q :: CorrectIds(rows[..i + 1], q) ==
              CorrectIds(rows[..i], q) + (if rows[i].isCorrect && rows[i].questionId == q then {rows[i].answerId} else {})
  {
    assert rows[..i + 1] == rows[..i] + [rows[i]];
  }
}
