/** The accuracy part of the analytics summary (db.py `analytics_summary`): the
    responses recorded since a cutoff, joined with their questions, are counted
    per category (the question's item type), and each category's accuracy is
    correct / max(total, 1). */
module Analytics {
  import opened Base
  import opened Records

  /** The category a question with no item type is counted under. */
  const UnknownCategory: string := "unknown"

  /** One row of the join: the answered question's category and the verdict. */
  datatype Answered = Answered(category: Value, correct: bool)

  datatype Tally = Tally(correct: int, total: int)

  /** `payload.get("item_type", "unknown")`: a present key, even a null one, is used as is. */
  function CategoryOf(d: Draft): (c: Value)
    ensures d.itemType.None? ==> c == Str(UnknownCategory)
    ensures d.itemType.Some? ==> c == d.itemType.value
  {
    match d.itemType
    case None => Str(UnknownCategory)
    case Some(v) => v
  }

  /** The earliest creation time a counted response may have. */
  function Cutoff(now: Time, days: int): Time {
    now - days * SecondsPerDay
  }

  /** `a` is a row the join pairs with response `r`: the verdict of `r` under the
      category of a question whose id `r` names. */
  ghost predicate Joins(questions: seq<QuestionRow>, r: ResponseRow, a: Answered) {
    exists q :: q in questions && q.id == r.questionId && a == Answered(CategoryOf(q.payload), r.correct)
  }

  /** One join row per question, each with the question's category and the given verdict. */
  function Verdicts(qs: seq<QuestionRow>, correct: bool): (rows: seq<Answered>)
    ensures |rows| == |qs|
    ensures forall i :: 0 <= i < |qs| ==> rows[i] == Answered(CategoryOf(qs[i].payload), correct)
  {
    if qs == [] then [] else [Answered(CategoryOf(qs[0].payload), correct)] + Verdicts(qs[1..], correct)
  }

  /** The join condition: the question bears the id the response answers. */
  function AsksAbout(r: ResponseRow): QuestionRow -> bool {
    (q: QuestionRow) => q.id == r.questionId
  }

  /** The rows the join of one response yields: one per question with its id,
      in table order. */
  function MatchesOf(questions: seq<QuestionRow>, r: ResponseRow): (rows: seq<Answered>)
    ensures rows == Verdicts(Filter(questions, AsksAbout(r)), r.correct)
    ensures |rows| == |Filter(questions, AsksAbout(r))|
    ensures forall a :: a in rows <==> Joins(questions, r, a)
    ensures (forall q :: q in questions ==> q.id != r.questionId) ==> rows == []
  {
    if questions == [] then []
    else
      var q := questions[0];
      var head := if q.id == r.questionId then [Answered(CategoryOf(q.payload), r.correct)] else [];
      var rest := MatchesOf(questions[1..], r);
      assert forall a :: a in head + rest <==> Joins(questions, r, a) by {
        forall a
          ensures a in head + rest <==> Joins(questions, r, a)
        {
          if a in rest {
            var q' :| q' in questions[1..] && q'.id == r.questionId && a == Answered(CategoryOf(q'.payload), r.correct);
            assert q' in questions;
          }
          if Joins(questions, r, a) && a !in head {
            var q' :| q' in questions && q'.id == r.questionId && a == Answered(CategoryOf(q'.payload), r.correct);
            assert q' != q;
            assert q' in questions[1..];
          }
        }
      }
      MatchStep(questions, r, rest);
      head + rest
  }

  /** One step of `MatchesOf`: the first question's row, if it matches, before the rest's. */
  lemma MatchStep(questions: seq<QuestionRow>, r: ResponseRow, rest: seq<Answered>)
    requires questions != []
    requires rest == Verdicts(Filter(questions[1..], AsksAbout(r)), r.correct)
    ensures (if questions[0].id == r.questionId then [Answered(CategoryOf(questions[0].payload), r.correct)] else []) + rest
         == Verdicts(Filter(questions, AsksAbout(r)), r.correct)
  {
    var q := questions[0];
    var kept := Filter(questions[1..], AsksAbout(r));
    if q.id == r.questionId {
      assert Filter(questions, AsksAbout(r)) == [q] + kept;
      assert ([q] + kept)[1..] == kept;
      assert Verdicts([q] + kept, r.correct) == [Answered(CategoryOf(q.payload), r.correct)] + rest;
    } else {
      assert Filter(questions, AsksAbout(r)) == kept;
      assert [] + rest == rest;
    }
  }

  /** The rows one response contributes: its matches when it is recent enough, none otherwise. */
  function Recent(questions: seq<QuestionRow>, r: ResponseRow, cutoff: Time): seq<Answered> {
    if r.createdAt >= cutoff then MatchesOf(questions, r) else []
  }

  /** The question-response join restricted to responses created at or after `cutoff`:
      exactly the rows some recent response joins with. */
  function JoinAnswered(questions: seq<QuestionRow>, responses: seq<ResponseRow>, cutoff: Time): (rows: seq<Answered>)
    ensures forall a :: a in rows <==> exists r :: r in responses && r.createdAt >= cutoff && Joins(questions, r, a)
    ensures (forall r :: r in responses ==> r.createdAt < cutoff) ==> rows == []
  {
    if responses == [] then []
    else
      var rest := JoinAnswered(questions, responses[1..], cutoff);
      assert forall a :: a in rest <==> exists r :: r in responses[1..] && r.createdAt >= cutoff && Joins(questions, r, a);
      JoinStep(questions, responses, cutoff, rest);
      Recent(questions, responses[0], cutoff) + rest
  }

  /** One step of the join's membership: the head response's rows, then the rest's. */
  lemma JoinStep(questions: seq<QuestionRow>, responses: seq<ResponseRow>, cutoff: Time, rest: seq<Answered>)
    requires responses != []
    requires forall a :: a in rest <==> exists r :: r in responses[1..] && r.createdAt >= cutoff && Joins(questions, r, a)
    ensures forall a :: a in Recent(questions, responses[0], cutoff) + rest <==>
      exists r :: r in responses && r.createdAt >= cutoff && Joins(questions, r, a)
  {
    forall a
      ensures a in Recent(questions, responses[0], cutoff) + rest <==>
        exists r :: r in responses && r.createdAt >= cutoff && Joins(questions, r, a)
    {
      if a in rest {
        var r :| r in responses[1..] && r.createdAt >= cutoff && Joins(questions, r, a);
        assert r in responses;
      }
      if a in Recent(questions, responses[0], cutoff) {
        assert responses[0] in responses;
      }
      if exists r :: r in responses && r.createdAt >= cutoff && Joins(questions, r, a) {
        var r :| r in responses && r.createdAt >= cutoff && Joins(questions, r, a);
        if r != responses[0] {
          assert r in responses[1..];
        }
      }
    }
  }

  /** The join over a concatenation of response lists is the concatenation of the joins. */
  lemma {:induction false} JoinConcat(questions: seq<QuestionRow>, a: seq<ResponseRow>, b: seq<ResponseRow>, cutoff: Time)
    ensures JoinAnswered(questions, a + b, cutoff) == JoinAnswered(questions, a, cutoff) + JoinAnswered(questions, b, cutoff)
    decreases |a|
  {
    if a == [] {
      assert a + b == b;
    } else {
      var head := Recent(questions, a[0], cutoff);
      var c := a + b;
      assert c != [] && c[0] == a[0] && c[1..] == a[1..] + b;
      var x := JoinAnswered(questions, a[1..], cutoff);
      var y := JoinAnswered(questions, b, cutoff);
      assert JoinAnswered(questions, c, cutoff) == head + JoinAnswered(questions, a[1..] + b, cutoff);
      JoinConcat(questions, a[1..], b, cutoff);
      assert head + (x + y) == (head + x) + y;
    }
  }

  /** The join of a single response is its matches when it is recent enough and
      nothing otherwise; with `JoinConcat` this fixes every row of the join, one
      per response and question pair. */
  lemma JoinOfOne(questions: seq<QuestionRow>, r: ResponseRow, cutoff: Time)
    ensures JoinAnswered(questions, [r], cutoff)
         == if r.createdAt >= cutoff then MatchesOf(questions, r) else []
  {
    assert [r][1..] == [];
    assert JoinAnswered(questions, [r], cutoff) == Recent(questions, r, cutoff) + [];
    assert Recent(questions, r, cutoff) + [] == Recent(questions, r, cutoff);
  }

  /** Recording one more response extends the join by exactly that response's rows. */
  lemma JoinSnoc(questions: seq<QuestionRow>, responses: seq<ResponseRow>, r: ResponseRow, cutoff: Time)
    ensures JoinAnswered(questions, responses + [r], cutoff)
         == JoinAnswered(questions, responses, cutoff)
            + (if r.createdAt >= cutoff then MatchesOf(questions, r) else [])
  {
    JoinConcat(questions, responses, [r], cutoff);
    JoinOfOne(questions, r, cutoff);
  }

  // ----- counting -----

  function Categories(rows: seq<Answered>): set<Value> {
    set a | a in rows :: a.category
  }

  /** How many rows fall in category `c`. */
  function Count(rows: seq<Answered>, c: Value): nat {
    if rows == [] then 0 else (if rows[0].category == c then 1 else 0) + Count(rows[1..], c)
  }

  /** How many rows of category `c` are correct. */
  function CountCorrect(rows: seq<Answered>, c: Value): nat {
    if rows == [] then 0
    else (if rows[0].category == c && rows[0].correct then 1 else 0) + CountCorrect(rows[1..], c)
  }

  lemma {:induction false} CountSnoc(rows: seq<Answered>, a: Answered, c: Value)
    ensures Count(rows + [a], c) == Count(rows, c) + (if a.category == c then 1 else 0)
    ensures CountCorrect(rows + [a], c) == CountCorrect(rows, c) + (if a.category == c && a.correct then 1 else 0)
    decreases |rows|
  {
    if rows == [] {
      assert [a][1..] == [];
    } else {
      assert (rows + [a])[1..] == rows[1..] + [a];
      CountSnoc(rows[1..], a, c);
    }
  }

  /** A category occurs exactly when it is counted at least once, and the correct
      rows are among the counted ones. */
  lemma {:induction false} CountBounds(rows: seq<Answered>, c: Value)
    ensures CountCorrect(rows, c) <= Count(rows, c)
    ensures c in Categories(rows) <==> Count(rows, c) >= 1
    decreases |rows|
  {
    if rows != [] {
      CountBounds(rows[1..], c);
      assert Categories(rows) == {rows[0].category} + Categories(rows[1..]) by {
        assert forall a :: a in rows <==> a == rows[0] || a in rows[1..];
      }
    }
  }

  /** The `stats` dictionary: the rows folded in order, one tally per category. */
  function Tallies(rows: seq<Answered>): (t: map<Value, Tally>)
    ensures t.Keys == Categories(rows)
    ensures forall c :: c in t ==> t[c] == Tally(CountCorrect(rows, c), Count(rows, c))
  {
    if rows == [] then map[]
    else
      var init := rows[..|rows| - 1];
      var a := rows[|rows| - 1];
      assert rows == init + [a];
      var t := Tallies(init);
      var before := if a.category in t then t[a.category] else Tally(0, 0);
      var r := t[a.category := Tally(before.correct + (if a.correct then 1 else 0), before.total + 1)];
      assert Categories(rows) == Categories(init) + {a.category} by {
        assert forall x :: x in rows <==> x in init || x == a;
      }
      assert forall c :: c in r ==> r[c] == Tally(CountCorrect(rows, c), Count(rows, c)) by {
        forall c | c in r
          ensures r[c] == Tally(CountCorrect(rows, c), Count(rows, c))
        {
          CountSnoc(init, a, c);
          if c !in t {
            CountBounds(init, c);
          }
        }
      }
      r
  }

  /** `accuracy_by_category` for a list of joined rows. */
  function Accuracy(rows: seq<Answered>): (acc: map<Value, real>)
    ensures acc.Keys == Categories(rows)
    ensures forall c :: c in acc ==> Count(rows, c) >= 1
    ensures forall c :: c in acc ==> acc[c] == Ratio(CountCorrect(rows, c), Count(rows, c))
    ensures forall c :: c in acc ==> 0.0 <= acc[c] <= 1.0
  {
    var t := Tallies(rows);
    assert forall c :: c in t ==> Count(rows, c) >= 1 && 0.0 <= Ratio(t[c].correct, t[c].total) <= 1.0 by {
      forall c | c in t
        ensures Count(rows, c) >= 1 && 0.0 <= Ratio(t[c].correct, t[c].total) <= 1.0
      {
        CountBounds(rows, c);
        RatioBounds(t[c].correct, t[c].total);
      }
    }
    map c | c in t :: Ratio(t[c].correct, t[c].total)
  }

  /** The accuracy the summary of `patientId` reports, as the source computes it:
      the join is never restricted to the patient's sessions, so every patient's
      recent answers are counted. */
  function AccuracyByCategory(store: Store, patientId: string, now: Time, days: int): (acc: map<Value, real>)
    ensures var rows := JoinAnswered(store.questions, store.responses, Cutoff(now, days));
      acc.Keys == Categories(rows)
      && forall c :: c in acc ==> acc[c] == Ratio(CountCorrect(rows, c), Count(rows, c))
  {
    Accuracy(JoinAnswered(store.questions, store.responses, Cutoff(now, days)))
  }

  /** A concrete case of the source's behaviour: a patient with no sessions at all
      is shown the accuracy of another patient's answer. */
  lemma OtherPatientsAnswersCounted()
    ensures var q := QuestionRow("q1", "s2", "recall",
                                 Draft("recall", "?", None, Str("blue"), Some(Str(KnowledgeType)), Some(Str("k")), 1, None));
      var store := Store([Patient("p", "Alice"), Patient("o", "Bob")], [], [], [],
                         [SessionRow("s2", "o", Completed, 1, Some(0.0), Some(1000.0))],
                         [q], [ResponseRow("s2", "q1", "red", false, 1000, 100)]);
      AccuracyByCategory(store, "p", 100, 30) == map[Str(KnowledgeType) := 0.0]
  {
    var q := QuestionRow("q1", "s2", "recall",
                         Draft("recall", "?", None, Str("blue"), Some(Str(KnowledgeType)), Some(Str("k")), 1, None));
    var r := ResponseRow("s2", "q1", "red", false, 1000, 100);
    var rows := JoinAnswered([q], [r], Cutoff(100, 30));
    assert MatchesOf([q], r) == [Answered(Str(KnowledgeType), false)];
    assert rows == [Answered(Str(KnowledgeType), false)];
    assert Categories(rows) == {Str(KnowledgeType)};
    assert Count(rows, Str(KnowledgeType)) == 1;
    assert CountCorrect(rows, Str(KnowledgeType)) == 0;
  }

  /** The question and the two answers of `TwoAnswersHalfAccuracy`. */
  const HalfQuestion: QuestionRow := QuestionRow("q1", "s", "recall",
    Draft("recall", "?", None, Str("blue"), Some(Str(KnowledgeType)), Some(Str("k")), 1, None))
  const RightAnswer: ResponseRow := ResponseRow("s", "q1", "blue", true, 1000, 100)
  const WrongAnswer: ResponseRow := ResponseRow("s", "q1", "red", false, 1000, 100)

  /** Each of the two answers joins its question once. */
  lemma TwoAnswersRows()
    ensures JoinAnswered([HalfQuestion], [RightAnswer, WrongAnswer], Cutoff(100, 30))
         == [Answered(Str(KnowledgeType), true), Answered(Str(KnowledgeType), false)]
  {
    var k := Str(KnowledgeType);
    assert MatchesOf([HalfQuestion], RightAnswer) == [Answered(k, true)];
    assert MatchesOf([HalfQuestion], WrongAnswer) == [Answered(k, false)];
    JoinOfOne([HalfQuestion], RightAnswer, Cutoff(100, 30));
    JoinSnoc([HalfQuestion], [RightAnswer], WrongAnswer, Cutoff(100, 30));
    assert [RightAnswer] + [WrongAnswer] == [RightAnswer, WrongAnswer];
  }

  /** A right and a wrong row of one category: two rows, one correct. */
  lemma OneOfTwoCounts(k: Value)
    ensures var rows := [Answered(k, true), Answered(k, false)];
      Count(rows, k) == 2 && CountCorrect(rows, k) == 1 && Categories(rows) == {k}
  {
    var rows := [Answered(k, true), Answered(k, false)];
    var tail := [Answered(k, false)];
    assert rows[1..] == tail && tail[1..] == [];
    assert Count(tail, k) == 1 && CountCorrect(tail, k) == 0;
    assert Categories(rows) == {k} by {
      assert forall a :: a in rows ==> a.category == k;
      assert rows[0] in rows;
    }
  }

  /** Two recent answers to one question, one right and one wrong, count as two
      rows of its category: an accuracy of one half. */
  lemma TwoAnswersHalfAccuracy()
    ensures Accuracy(JoinAnswered([HalfQuestion], [RightAnswer, WrongAnswer], Cutoff(100, 30)))
         == map[Str(KnowledgeType) := 0.5]
  {
    TwoAnswersRows();
    OneOfTwoAccuracy(Str(KnowledgeType));
  }

  /** A right and a wrong row of one category give it accuracy one half. */
  lemma OneOfTwoAccuracy(k: Value)
    ensures Accuracy([Answered(k, true), Answered(k, false)]) == map[k := 0.5]
  {
    OneOfTwoCounts(k);
    var acc := Accuracy([Answered(k, true), Answered(k, false)]);
    assert Ratio(1, 2) == 0.5;
    assert acc.Keys == {k} && acc[k] == 0.5;
  }

  /** The session `sessionId` belongs to `patientId`. */
  predicate OwnedBy(sessions: seq<SessionRow>, sessionId: string, patientId: string) {
    exists s :: s in sessions && s.id == sessionId && s.patientId == patientId
  }

  /** The questions of the patient's own sessions. */
  function PatientQuestions(store: Store, patientId: string): (qs: seq<QuestionRow>)
    ensures forall q :: q in qs <==> q in store.questions && OwnedBy(store.sessions, q.sessionId, patientId)
  {
    Filter(store.questions, (q: QuestionRow) => OwnedBy(store.sessions, q.sessionId, patientId))
  }

  /** The accuracy as intended: only answers to questions of the patient's own
      sessions are joined. */
  function AccuracyByCategoryForPatient(store: Store, patientId: string, now: Time, days: int): (acc: map<Value, real>)
    ensures var rows := JoinAnswered(PatientQuestions(store, patientId), store.responses, Cutoff(now, days));
      acc.Keys == Categories(rows)
      && (forall c :: c in acc ==> acc[c] == Ratio(CountCorrect(rows, c), Count(rows, c)))
      && (forall c :: c in acc ==> 0.0 <= acc[c] <= 1.0)
  {
    Accuracy(JoinAnswered(PatientQuestions(store, patientId), store.responses, Cutoff(now, days)))
  }

  /** Answers to other patients' questions never change a patient's accuracy. */
  lemma PatientAccuracyIgnoresOtherPatients(store: Store, patientId: string, now: Time, days: int,
                                            extra: seq<ResponseRow>)
    requires forall r, q :: r in extra && q in store.questions && q.id == r.questionId
               ==> !OwnedBy(store.sessions, q.sessionId, patientId)
    ensures AccuracyByCategoryForPatient(store.(responses := store.responses + extra), patientId, now, days)
         == AccuracyByCategoryForPatient(store, patientId, now, days)
  {
    var store' := store.(responses := store.responses + extra);
    var pq := PatientQuestions(store, patientId);
    assert PatientQuestions(store', patientId) == pq;
    JoinConcat(pq, store.responses, extra, Cutoff(now, days));
    NoMatchesNoRows(pq, extra, Cutoff(now, days));
    assert store'.responses == store.responses + extra;
    assert JoinAnswered(pq, store.responses, Cutoff(now, days)) + [] == JoinAnswered(pq, store.responses, Cutoff(now, days));
  }

  lemma {:induction false} NoMatchesNoRows(questions: seq<QuestionRow>, responses: seq<ResponseRow>, cutoff: Time)
    requires forall r, q :: r in responses && q in questions ==> q.id != r.questionId
    ensures JoinAnswered(questions, responses, cutoff) == []
    decreases |responses|
  {
    if responses != [] {
      var r := responses[0];
      assert r in responses;
      assert forall q :: q in questions ==> q.id != r.questionId;
      assert Recent(questions, r, cutoff) == [];
      assert forall x :: x in responses[1..] ==> x in responses;
      NoMatchesNoRows(questions, responses[1..], cutoff);
    }
  }

  /** The in-session figures: when every session belongs to the patient the
      corrected accuracy and the source's agree. */
  lemma SinglePatientAgrees(store: Store, patientId: string, now: Time, days: int)
    requires forall q :: q in store.questions ==> OwnedBy(store.sessions, q.sessionId, patientId)
    ensures AccuracyByCategoryForPatient(store, patientId, now, days) == AccuracyByCategory(store, patientId, now, days)
  {
    FilterAll(store.questions, (q: QuestionRow) => OwnedBy(store.sessions, q.sessionId, patientId));
  }

  lemma {:induction false} FilterAll<T(!new)>(s: seq<T>, keep: T -> bool)
    requires forall x :: x in s ==> keep(x)
    ensures Filter(s, keep) == s
    decreases |s|
  {
    if s != [] {
      FilterAll(s[1..], keep);
    }
  }
}
