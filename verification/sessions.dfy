/** The two quiz endpoints (main.py `generate_quiz`, `submit_quiz`) as functions
    over the stored tables: generation opens a session and stores its questions;
    submission grades a batch of answers, records each response, updates mastery,
    and completes the session with its score. */
module Sessions {
  import opened Base
  import opened Records
  import opened Evaluation
  import opened MasteryStore
  import opened Scheduler
  import opened DueSet
  import opened Selection

  /** An HTTP error the endpoints answer with: 404 or 400 with its detail text,
      or a 500 for an exception the handler does not catch. */
  datatype Failure = NotFound(detail: string) | BadRequest(detail: string) | ServerError(detail: string)

  const PatientNotFound: string := "Patient not found"
  const SessionNotFound: string := "Session not found"
  const InvalidQuestionId: string := "Invalid question id"
  /** The plain-text body of the framework's 500 response. */
  const InternalServerError: string := "Internal Server Error"

  // ----- generation -----

  /** A question as returned to the client. */
  datatype QuestionView = QuestionView(
    questionId: string, questionType: string, prompt: string, options: Option<seq<Value>>,
    itemType: Option<Value>, itemId: Option<Value>, difficulty: int,
    acceptableAnswers: Option<seq<string>>)

  /** The new session and its questions as returned to the client. */
  datatype Quiz = Quiz(sessionId: string, questions: seq<QuestionView>)

  /** The store after a generation request, and what the client receives. */
  datatype Generated = Generated(store: Store, result: Result<Quiz, Failure>)

  predicate PatientExists(store: Store, patientId: string) {
    exists p :: p in store.patients && p.id == patientId
  }

  /** The client's view of a stored question; the alternates are withheld unless
      answers are revealed. */
  function ViewOf(q: QuestionRow, revealAnswers: bool): (v: QuestionView)
    ensures v.questionId == q.id && v.questionType == q.payload.questionType
    ensures v.itemType == q.payload.itemType && v.itemId == q.payload.itemId
    ensures revealAnswers ==> v.acceptableAnswers == q.payload.acceptableAnswers
    ensures !revealAnswers ==> v.acceptableAnswers.None?
  {
    var d := q.payload;
    QuestionView(q.id, d.questionType, d.prompt, d.options, d.itemType, d.itemId, d.difficulty,
                 if revealAnswers then d.acceptableAnswers else None)
  }

  /** A draft the response model accepts: its options, when present, are all
      strings, and its item type and item id are present strings. */
  predicate Presentable(d: Draft) {
    && (d.options.Some? ==> forall i :: 0 <= i < |d.options.value| ==> d.options.value[i].Str?)
    && d.itemType.Some? && d.itemType.value.Str?
    && d.itemId.Some? && d.itemId.value.Str?
  }

  /** The index of the first draft the response model rejects, or the number of
      drafts when it accepts them all. */
  function FirstUnpresentable(drafts: seq<Draft>): (k: nat)
    ensures k <= |drafts|
    ensures forall i :: 0 <= i < k ==> Presentable(drafts[i])
    ensures k < |drafts| ==> !Presentable(drafts[k])
  {
    if drafts == [] || !Presentable(drafts[0]) then 0 else 1 + FirstUnpresentable(drafts[1..])
  }

  /** The question rows of the drafts, the i-th under id `questionIds(i)`. */
  function QuestionRows(drafts: seq<Draft>, sessionId: string, questionIds: nat -> string): (rows: seq<QuestionRow>)
    ensures |rows| == |drafts|
    ensures forall i :: 0 <= i < |drafts| ==>
      rows[i] == QuestionRow(questionIds(i), sessionId, drafts[i].questionType, drafts[i])
  {
    seq(|drafts|, i requires 0 <= i < |drafts| =>
          QuestionRow(questionIds(i), sessionId, drafts[i].questionType, drafts[i]))
  }

  /** `g` is the outcome of storing `drafts` as the questions of a new active
      session `sessionId` of `patientId`, the i-th under id `questionIds(i)`,
      presenting each right after storing it. The session row counts every
      draft. When every draft is presentable the client receives them all;
      otherwise the request fails with a 500 once the first rejected draft is
      stored, and the rows written so far stay. Nothing else in the store changes. */
  predicate Opens(store: Store, patientId: string, drafts: seq<Draft>, revealAnswers: bool,
                  sessionId: string, questionIds: nat -> string, g: Generated) {
    var k := FirstUnpresentable(drafts);
    var written := if k < |drafts| then k + 1 else |drafts|;
    && g.store == store.(sessions := g.store.sessions, questions := g.store.questions)
    && g.store.sessions == store.sessions + [SessionRow(sessionId, patientId, Active, |drafts|, None, None)]
    && |g.store.questions| == |store.questions| + written
    && g.store.questions[..|store.questions|] == store.questions
    && (forall i :: 0 <= i < written ==>
          g.store.questions[|store.questions| + i] == QuestionRow(questionIds(i), sessionId, drafts[i].questionType, drafts[i]))
    && (g.result.Ok? <==> forall i :: 0 <= i < |drafts| ==> Presentable(drafts[i]))
    && (g.result.Err? ==> g.result.error == ServerError(InternalServerError))
    && (g.result.Ok? ==>
          var quiz := g.result.value;
          && quiz.sessionId == sessionId
          && |quiz.questions| == |drafts|
          && (forall i :: 0 <= i < |drafts| ==>
                quiz.questions[i] == ViewOf(g.store.questions[|store.questions| + i], revealAnswers))
          && (!revealAnswers ==> forall i :: 0 <= i < |quiz.questions| ==> quiz.questions[i].acceptableAnswers.None?))
  }

  /** Store the drafts as questions of a new active session and present them. */
  function OpenSession(store: Store, patientId: string, drafts: seq<Draft>, revealAnswers: bool,
                       sessionId: string, questionIds: nat -> string): (g: Generated)
    ensures Opens(store, patientId, drafts, revealAnswers, sessionId, questionIds, g)
  {
    var k := FirstUnpresentable(drafts);
    var rows := QuestionRows(drafts, sessionId, questionIds);
    var session := SessionRow(sessionId, patientId, Active, |drafts|, None, None);
    if k < |drafts| then
      var store' := store.(sessions := store.sessions + [session], questions := store.questions + rows[..k + 1]);
      assert store'.questions[..|store.questions|] == store.questions;
      Generated(store', Err(ServerError(InternalServerError)))
    else
      var views := seq(|rows|, i requires 0 <= i < |rows| => ViewOf(rows[i], revealAnswers));
      var store' := store.(sessions := store.sessions + [session], questions := store.questions + rows);
      assert store'.questions[..|store.questions|] == store.questions;
      Generated(store', Ok(Quiz(sessionId, views)))
  }

  /** The drafts for `patientId` from the given due list. */
  function DraftsFor(store: Store, patientId: string, due: seq<DueEntry>, n: int,
                     includeSensitive: bool, reply: GeneratorReply): seq<Draft> {
    GenerateQuizQuestions(OfPatient(store.knowledge, patientId), OfPatient(store.family, patientId),
                          due, n, includeSensitive, reply)
  }

  /** Generate a quiz for `patientId` from the due list the source computes. The
      generator's reply, the clock and the fresh ids of the session and of the
      i-th question are parameters. */
  function GenerateQuiz(store: Store, patientId: string, n: int, includeSensitive: bool,
                        revealAnswers: bool, reply: GeneratorReply, now: Time,
                        sessionId: string, questionIds: nat -> string): (r: Generated)
    ensures !PatientExists(store, patientId) ==> r == Generated(store, Err(NotFound(PatientNotFound)))
    ensures PatientExists(store, patientId) ==>
      var due := DueItems(patientId, now, store.mastery, store.family, store.knowledge);
      Opens(store, patientId, DraftsFor(store, patientId, due, n, includeSensitive, reply),
            revealAnswers, sessionId, questionIds, r)
  {
    if !PatientExists(store, patientId) then Generated(store, Err(NotFound(PatientNotFound)))
    else
      var due := DueItems(patientId, now, store.mastery, store.family, store.knowledge);
      var drafts := DraftsFor(store, patientId, due, n, includeSensitive, reply);
      OpenSession(store, patientId, drafts, revealAnswers, sessionId, questionIds)
  }

  /** Quiz generation as intended, from the corrected due list in which an item
      scheduled for later is not offered again as never seen. */
  function GenerateQuizIntended(store: Store, patientId: string, n: int, includeSensitive: bool,
                                revealAnswers: bool, reply: GeneratorReply, now: Time,
                                sessionId: string, questionIds: nat -> string): (r: Generated)
    ensures !PatientExists(store, patientId) ==> r == Generated(store, Err(NotFound(PatientNotFound)))
    ensures PatientExists(store, patientId) ==>
      var due := DueItemsIntended(patientId, now, store.mastery, store.family, store.knowledge);
      Opens(store, patientId, DraftsFor(store, patientId, due, n, includeSensitive, reply),
            revealAnswers, sessionId, questionIds, r)
  {
    if !PatientExists(store, patientId) then Generated(store, Err(NotFound(PatientNotFound)))
    else
      var due := DueItemsIntended(patientId, now, store.mastery, store.family, store.knowledge);
      var drafts := DraftsFor(store, patientId, due, n, includeSensitive, reply);
      OpenSession(store, patientId, drafts, revealAnswers, sessionId, questionIds)
  }

  /** When none of the patient's mastery rows is scheduled for later, the source's
      generation and the intended one agree. */
  lemma GenerationAgreesWhenAllDue(store: Store, patientId: string, n: int, includeSensitive: bool,
                                   revealAnswers: bool, reply: GeneratorReply, now: Time,
                                   sessionId: string, questionIds: nat -> string)
    requires forall r :: r in store.mastery && r.patientId == patientId ==> IsDue(r, patientId, now)
    ensures GenerateQuiz(store, patientId, n, includeSensitive, revealAnswers, reply, now, sessionId, questionIds)
         == GenerateQuizIntended(store, patientId, n, includeSensitive, revealAnswers, reply, now, sessionId, questionIds)
  {
    DueListsAgreeWhenAllDue(patientId, now, store.mastery, store.family, store.knowledge);
  }

  /** A fallback draft is presentable exactly when its item's answer is a string,
      that is, unless the item is a knowledge item with an empty value. */
  lemma FallbackDraftPresentable(x: Item)
    ensures Presentable(FallbackDraft(x)) <==> !(x.Knowledge? && x.value == "")
  {
    var d := FallbackDraft(x);
    assert d.options.value[0] == AnswerOf(x);
  }

  /** Without a generator reply and with `n >= 0`, generation for an existing
      patient succeeds exactly when no pooled item is a knowledge item with an
      empty value; otherwise it answers 500 after storing the session. */
  lemma FallbackQuizFailsOnEmptyValue(store: Store, patientId: string, n: int, includeSensitive: bool,
                                      revealAnswers: bool, reply: GeneratorReply, now: Time,
                                      sessionId: string, questionIds: nat -> string)
    requires PatientExists(store, patientId) && !reply.Replied? && 0 <= n
    ensures var r := GenerateQuiz(store, patientId, n, includeSensitive, revealAnswers, reply, now, sessionId, questionIds);
      var due := DueItems(patientId, now, store.mastery, store.family, store.knowledge);
      var pool := ItemsPool(OfPatient(store.knowledge, patientId), OfPatient(store.family, patientId), due, n, includeSensitive);
      && (r.result.Ok? <==> forall x :: x in pool ==> !(x.Knowledge? && x.value == ""))
      && (r.result.Err? ==> r.result.error == ServerError(InternalServerError))
      && |r.store.sessions| == |store.sessions| + 1
  {
    var due := DueItems(patientId, now, store.mastery, store.family, store.knowledge);
    var pool := ItemsPool(OfPatient(store.knowledge, patientId), OfPatient(store.family, patientId), due, n, includeSensitive);
    FallbackDraftsPresentable(pool, DraftsFor(store, patientId, due, n, includeSensitive, reply));
  }

  /** The fallback drafts of a pool are all presentable exactly when no pooled
      item is a knowledge item with an empty value. */
  lemma FallbackDraftsPresentable(pool: seq<Item>, drafts: seq<Draft>)
    requires |drafts| == |pool|
    requires forall i :: 0 <= i < |drafts| ==> drafts[i] == FallbackDraft(pool[i])
    ensures (forall i :: 0 <= i < |drafts| ==> Presentable(drafts[i]))
        <==> forall x :: x in pool ==> !(x.Knowledge? && x.value == "")
  {
    forall i | 0 <= i < |pool|
      ensures Presentable(drafts[i]) <==> !(pool[i].Knowledge? && pool[i].value == "")
    {
      FallbackDraftPresentable(pool[i]);
    }
    if exists x :: x in pool && x.Knowledge? && x.value == "" {
      var x :| x in pool && x.Knowledge? && x.value == "";
      var i :| 0 <= i < |pool| && pool[i] == x;
      assert !Presentable(drafts[i]);
    }
  }

  /** With the fallback drafts and `n >= 0`, a generated session never has more
      than `n` questions. */
  lemma FallbackSessionIsCapped(store: Store, patientId: string, n: int, includeSensitive: bool,
                                revealAnswers: bool, reply: GeneratorReply, now: Time,
                                sessionId: string, questionIds: nat -> string)
    requires 0 <= n && !reply.Replied?
    ensures var r := GenerateQuiz(store, patientId, n, includeSensitive, revealAnswers, reply, now, sessionId, questionIds);
      PatientExists(store, patientId) ==> r.store.sessions[|store.sessions|].totalQuestions <= n
  {
  }

  // ----- submission -----

  /** One answer of a submitted batch; `userAnswer` is the answer's `str()` rendering. */
  datatype Submission = Submission(questionId: string, userAnswer: string, responseTimeMs: int)

  /** The verdict on one submission, with the question it was judged against. */
  datatype Graded = Graded(questionId: string, question: QuestionRow, correct: bool, responseTimeMs: int)

  /** What grading a batch produced: the verdicts and response rows of the graded
      prefix, and whether every submission named a question of the session. */
  datatype Run = Run(graded: seq<Graded>, responses: seq<ResponseRow>, complete: bool)

  datatype Summary = Summary(
    sessionId: string, score: real, totalQuestions: int, correct: int,
    avgResponseTimeMs: real, weakItems: seq<string>)

  /** What a submission leaves behind: the tables as written, and the reply or error. */
  datatype Outcome = Outcome(store: Store, result: Result<Summary, Failure>)

  /** The session's questions. */
  function SessionQuestions(store: Store, sessionId: string): (qs: seq<QuestionRow>)
    ensures forall q :: q in qs <==> q in store.questions && q.sessionId == sessionId
  {
    Filter(store.questions, (q: QuestionRow) => q.sessionId == sessionId)
  }

  /** `qmap.get(id)` for the dict built over the session's questions: the last
      question with the id wins. */
  function QuestionById(qs: seq<QuestionRow>, id: string): (r: Option<QuestionRow>)
    ensures r.None? <==> forall q :: q in qs ==> q.id != id
    ensures r.Some? ==> r.value in qs && r.value.id == id
  {
    if qs == [] then None
    else if qs[|qs| - 1].id == id then Some(qs[|qs| - 1])
    else
      assert forall q :: q in qs <==> q in qs[..|qs| - 1] || q == qs[|qs| - 1] by {
        assert qs == qs[..|qs| - 1] + [qs[|qs| - 1]];
      }
      QuestionById(qs[..|qs| - 1], id)
  }

  predicate Known(qs: seq<QuestionRow>, id: string) {
    exists q :: q in qs && q.id == id
  }

  /** The verdict on answer `s` to question `q`. */
  function Judge(q: QuestionRow, s: Submission): bool {
    EvaluateAnswer(q.payload.questionType, q.payload.correctAnswer, s.userAnswer, q.payload.acceptableAnswers)
  }

  /** The i-th submission was judged against the session's question with its id,
      and its response row records that verdict. */
  predicate GradedAs(run: Run, subs: seq<Submission>, qs: seq<QuestionRow>, judge: (QuestionRow, Submission) -> bool,
                     sessionId: string, now: Time, i: int)
    requires 0 <= i < |run.graded| && i < |run.responses| && i < |subs|
  {
    var s := subs[i];
    && QuestionById(qs, s.questionId).Some?
    && run.graded[i] == Graded(s.questionId, QuestionById(qs, s.questionId).value,
                               judge(QuestionById(qs, s.questionId).value, s), s.responseTimeMs)
    && run.responses[i] == ResponseRow(sessionId, s.questionId, s.userAnswer,
                                       run.graded[i].correct, s.responseTimeMs, now)
  }

  /** Grade the batch in order with `judge`, stopping at the first submission whose
      question is not in the session; what was graded before it stays graded. */
  function Grade(subs: seq<Submission>, qs: seq<QuestionRow>, judge: (QuestionRow, Submission) -> bool,
                 sessionId: string, now: Time): (run: Run)
    ensures |run.graded| == |run.responses| <= |subs|
    ensures run.complete <==> forall i :: 0 <= i < |subs| ==> Known(qs, subs[i].questionId)
    ensures run.complete ==> |run.graded| == |subs|
    ensures !run.complete ==> |run.graded| < |subs| && !Known(qs, subs[|run.graded|].questionId)
    ensures forall i :: 0 <= i < |run.graded| ==> GradedAs(run, subs, qs, judge, sessionId, now, i)
  {
    if subs == [] then Run([], [], true)
    else
      var s := subs[0];
      match QuestionById(qs, s.questionId)
      case None => Run([], [], false)
      case Some(q) =>
        var ok := judge(q, s);
        var rest := Grade(subs[1..], qs, judge, sessionId, now);
        var run := Run([Graded(s.questionId, q, ok, s.responseTimeMs)] + rest.graded,
                       [ResponseRow(sessionId, s.questionId, s.userAnswer, ok, s.responseTimeMs, now)] + rest.responses,
                       rest.complete);
        assert forall i :: 0 <= i < |run.graded| ==> GradedAs(run, subs, qs, judge, sessionId, now, i) by {
          forall i | 0 <= i < |run.graded|
            ensures GradedAs(run, subs, qs, judge, sessionId, now, i)
          {
            if 0 < i {
              assert subs[i] == subs[1..][i - 1];
              assert run.graded[i] == rest.graded[i - 1] && run.responses[i] == rest.responses[i - 1];
              assert GradedAs(rest, subs[1..], qs, judge, sessionId, now, i - 1);
            }
          }
        }
        assert !run.complete ==> !Known(qs, subs[|run.graded|].questionId) by {
          if !run.complete {
            assert subs[|run.graded|] == subs[1..][|rest.graded|];
          }
        }
        assert run.complete <==> forall i :: 0 <= i < |subs| ==> Known(qs, subs[i].questionId) by {
          assert Known(qs, s.questionId);
          assert forall i :: 1 <= i < |subs| ==> subs[i] == subs[1..][i - 1];
        }
        run
  }

  /** The mastery table after the update one graded answer causes, if any. */
  function Remember(mastery: seq<MasteryRow>, patientId: string, g: Graded, now: Time): (m: seq<MasteryRow>)
    ensures !HasItemRef(g.question.payload) ==> m == mastery
    ensures HasItemRef(g.question.payload) ==>
      var u := ComputeMasteryUpdate(mastery, patientId, g.question.payload, g.correct, g.responseTimeMs, now);
      m == UpdateMastery(mastery, u.value, now)
    ensures AtMostOnePerKey(mastery) ==> AtMostOnePerKey(m)
    ensures (forall r :: r in mastery ==> RowInvariant(r)) ==> forall r :: r in m ==> RowInvariant(r)
  {
    var q := g.question;
    var u := ComputeMasteryUpdate(mastery, patientId, q.payload, g.correct, g.responseTimeMs, now);
    if u.Some? then
      var m := UpdateMastery(mastery, u.value, now);
      assert AtMostOnePerKey(mastery) ==> AtMostOnePerKey(m) by {
        if AtMostOnePerKey(mastery) {
          UpdateMasteryKeepsUnique(mastery, u.value, now);
        }
      }
      assert (forall r :: r in mastery ==> RowInvariant(r)) ==> forall r :: r in m ==> RowInvariant(r) by {
        if forall r :: r in mastery ==> RowInvariant(r) {
          UpdateKeepsRowInvariant(mastery, patientId, q.payload, g.correct, g.responseTimeMs, now, now);
        }
      }
      m
    else mastery
  }

  /** The mastery updates of the graded answers, applied in order, each one read
      against the table the earlier ones left. */
  function RememberAll(mastery: seq<MasteryRow>, patientId: string, graded: seq<Graded>, now: Time): (m: seq<MasteryRow>)
    ensures AtMostOnePerKey(mastery) ==> AtMostOnePerKey(m)
    ensures (forall r :: r in mastery ==> RowInvariant(r)) ==> forall r :: r in m ==> RowInvariant(r)
    ensures (forall g :: g in graded ==> !HasItemRef(g.question.payload)) ==> m == mastery
    decreases |graded|
  {
    if graded == [] then mastery
    else RememberAll(Remember(mastery, patientId, graded[0], now), patientId, graded[1..], now)
  }

  /** The mastery key a question's payload names, for the answering patient. */
  function RefKey(patientId: string, d: Draft): Key
    requires HasItemRef(d)
  {
    Key(patientId, d.itemType.value.s, d.itemId.value.s)
  }

  /** The keys of the items the graded questions name. */
  function ReferencedKeys(patientId: string, graded: seq<Graded>): set<Key> {
    set g | g in graded && HasItemRef(g.question.payload) :: RefKey(patientId, g.question.payload)
  }

  /** One graded answer with an item reference upserts exactly its item's row. */
  lemma RememberKeys(mastery: seq<MasteryRow>, patientId: string, g: Graded, now: Time)
    ensures Keys(Remember(mastery, patientId, g, now))
         == Keys(mastery) + (if HasItemRef(g.question.payload) then {RefKey(patientId, g.question.payload)} else {})
  {
    if HasItemRef(g.question.payload) {
      var u := ComputeMasteryUpdate(mastery, patientId, g.question.payload, g.correct, g.responseTimeMs, now);
      UpdateMasteryIsMapUpdate(mastery, u.value, now);
      assert PayloadKey(u.value) == RefKey(patientId, g.question.payload);
    }
  }

  /** After a batch, the table has a row for exactly the keys it had before and the
      items the graded questions name: one upsert per referencing answer, nothing else. */
  lemma {:induction false} RememberAllKeys(mastery: seq<MasteryRow>, patientId: string, graded: seq<Graded>, now: Time)
    ensures Keys(RememberAll(mastery, patientId, graded, now)) == Keys(mastery) + ReferencedKeys(patientId, graded)
    decreases |graded|
  {
    if graded != [] {
      var m := Remember(mastery, patientId, graded[0], now);
      RememberKeys(mastery, patientId, graded[0], now);
      RememberAllKeys(m, patientId, graded[1..], now);
      ReferencedKeysCons(patientId, graded);
    }
  }

  lemma ReferencedKeysCons(patientId: string, graded: seq<Graded>)
    requires graded != []
    ensures ReferencedKeys(patientId, graded)
         == (if HasItemRef(graded[0].question.payload) then {RefKey(patientId, graded[0].question.payload)} else {})
            + ReferencedKeys(patientId, graded[1..])
  {
    assert forall g :: g in graded <==> g == graded[0] || g in graded[1..];
  }

  function CountCorrect(graded: seq<Graded>): (k: nat)
    ensures k <= |graded|
  {
    if graded == [] then 0 else (if graded[0].correct then 1 else 0) + CountCorrect(graded[1..])
  }

  /** The question ids of graded answers, one per answer, in order. */
  function QuestionIdsOf(graded: seq<Graded>): (ids: seq<string>)
    ensures |ids| == |graded|
    ensures forall i :: 0 <= i < |ids| ==> ids[i] == graded[i].questionId
  {
    if graded == [] then [] else [graded[0].questionId] + QuestionIdsOf(graded[1..])
  }

  predicate Wrong(g: Graded) { !g.correct }

  /** The ids of the incorrectly answered questions, in submission order, one per
      wrong answer (a question answered wrongly twice is listed twice). */
  function WeakItems(graded: seq<Graded>): (ids: seq<string>)
    ensures ids == QuestionIdsOf(Filter(graded, Wrong))
    ensures |ids| + CountCorrect(graded) == |graded|
    ensures forall id :: id in ids <==> exists g :: g in graded && !g.correct && g.questionId == id
  {
    if graded == [] then []
    else
      var rest := WeakItems(graded[1..]);
      var head := if graded[0].correct then [] else [graded[0]];
      WeakStep(graded, head, rest);
      QuestionIdsOf(head) + rest
  }

  /** One step of `WeakItems`: the head's id, if wrong, before the rest's. */
  lemma WeakStep(graded: seq<Graded>, head: seq<Graded>, rest: seq<string>)
    requires graded != [] && head == (if graded[0].correct then [] else [graded[0]])
    requires rest == QuestionIdsOf(Filter(graded[1..], Wrong))
    ensures QuestionIdsOf(head) + rest == QuestionIdsOf(Filter(graded, Wrong))
  {
    var kept := Filter(graded[1..], Wrong);
    assert Filter(graded, Wrong) == head + kept;
    if graded[0].correct {
      assert head + kept == kept;
      assert QuestionIdsOf(head) + rest == rest;
    } else {
      var g := graded[0];
      assert ([g] + kept)[1..] == kept;
      assert QuestionIdsOf([g] + kept) == [g.questionId] + rest;
      assert QuestionIdsOf([g]) == [g.questionId];
    }
  }

  function TotalTime(subs: seq<Submission>): int {
    if subs == [] then 0 else subs[0].responseTimeMs + TotalTime(subs[1..])
  }

  /** Mark every row of session `sessionId` completed with its score and average. */
  function CompleteSession(sessions: seq<SessionRow>, sessionId: string, score: real, avg: real): (r: seq<SessionRow>)
    ensures |r| == |sessions|
    ensures forall i :: 0 <= i < |r| && sessions[i].id != sessionId ==> r[i] == sessions[i]
    ensures forall i :: 0 <= i < |r| && sessions[i].id == sessionId ==>
      r[i] == sessions[i].(status := Completed, score := Some(score), avgResponseTimeMs := Some(avg))
  {
    seq(|sessions|, i requires 0 <= i < |sessions| =>
      if sessions[i].id == sessionId
      then sessions[i].(status := Completed, score := Some(score), avgResponseTimeMs := Some(avg))
      else sessions[i])
  }

  /** The session stored under `sessionId`, the one `.first()` returns. */
  function FindSession(sessions: seq<SessionRow>, sessionId: string): (r: Option<SessionRow>)
    ensures r.None? <==> forall s :: s in sessions ==> s.id != sessionId
    ensures r.Some? ==> r.value in sessions && r.value.id == sessionId
  {
    if sessions == [] then None
    else if sessions[0].id == sessionId then Some(sessions[0])
    else FindSession(sessions[1..], sessionId)
  }

  /** The summary of a fully graded batch, with session `sessionId` marked completed. */
  function Close(written: Store, sessions: seq<SessionRow>, sessionId: string, subs: seq<Submission>,
                 graded: seq<Graded>): (o: Outcome)
    requires |graded| == |subs|
    ensures o.result.Ok?
    ensures o.store == written.(sessions := o.store.sessions)
    ensures var sm := o.result.value;
      && sm.sessionId == sessionId
      && sm.totalQuestions == |subs|
      && sm.correct + |sm.weakItems| == |subs|
      && 0.0 <= sm.score <= 1.0
      && sm.score == Ratio(sm.correct, |subs|)
      && (subs == [] ==> sm.score == 0.0)
      && sm.avgResponseTimeMs == Ratio(TotalTime(subs), |subs|)
      && sm.weakItems == WeakItems(graded)
      && o.store.sessions == CompleteSession(sessions, sessionId, sm.score, sm.avgResponseTimeMs)
  {
    var correct := CountCorrect(graded);
    var score := Ratio(correct, |subs|);
    var avg := Ratio(TotalTime(subs), |subs|);
    RatioBounds(correct, |subs|);
    Outcome(written.(sessions := CompleteSession(sessions, sessionId, score, avg)),
            Ok(Summary(sessionId, score, |subs|, correct, avg, WeakItems(graded))))
  }

  /** Submit a batch of answers to session `sessionId` at time `now`. */
  function SubmitQuiz(store: Store, sessionId: string, subs: seq<Submission>, now: Time): (o: Outcome)
    ensures FindSession(store.sessions, sessionId).None? ==> o == Outcome(store, Err(NotFound(SessionNotFound)))
    ensures FindSession(store.sessions, sessionId).Some? ==>
      var session := FindSession(store.sessions, sessionId).value;
      var qs := SessionQuestions(store, sessionId);
      var run := Grade(subs, qs, Judge, sessionId, now);
      && o.store.patients == store.patients && o.store.family == store.family
      && o.store.knowledge == store.knowledge && o.store.questions == store.questions
      && o.store.mastery == RememberAll(store.mastery, session.patientId, run.graded, now)
      && o.store.responses == store.responses + run.responses
      && (o.result.Err? <==> exists i :: 0 <= i < |subs| && !Known(qs, subs[i].questionId))
      && (o.result.Err? ==> o.result.error == BadRequest(InvalidQuestionId) && o.store.sessions == store.sessions)
      && (o.result.Ok? ==>
            var sm := o.result.value;
            && sm.sessionId == sessionId
            && sm.totalQuestions == |subs|
            && sm.correct + |sm.weakItems| == |subs|
            && 0.0 <= sm.score <= 1.0
            && sm.score == Ratio(sm.correct, |subs|)
            && (subs == [] ==> sm.score == 0.0)
            && sm.avgResponseTimeMs == Ratio(TotalTime(subs), |subs|)
            && sm.weakItems == WeakItems(run.graded)
            && o.store.sessions == CompleteSession(store.sessions, sessionId, sm.score, sm.avgResponseTimeMs))
  {
    match FindSession(store.sessions, sessionId)
    case None => Outcome(store, Err(NotFound(SessionNotFound)))
    case Some(session) =>
      var qs := SessionQuestions(store, sessionId);
      var run := Grade(subs, qs, Judge, sessionId, now);
      var written := store.(mastery := RememberAll(store.mastery, session.patientId, run.graded, now),
                            responses := store.responses + run.responses);
      if !run.complete then Outcome(written, Err(BadRequest(InvalidQuestionId)))
      else Close(written, store.sessions, sessionId, subs, run.graded)
  }

  // ----- the quiz flow of the application's test -----

  const TestItem: Item := Knowledge("k", "p", "personal", "favorite color", "blue", 0, true)
  const TestDraft: Draft := Draft(Recall, "What is favorite color?", None, Str("blue"), Some(Str(KnowledgeType)),
                                  Some(Str("k")), 1, Some(["blue"]))
  const TestQuestion: QuestionRow := QuestionRow("q", "s", Recall, TestDraft)

  /** Generating a quiz for a patient with one knowledge item, the generator
      replying with one recall question, opens session "s" holding that question. */
  lemma RecallQuizGenerated(now: Time)
    ensures var store := Store([Patient("p", "Bob")], [], [TestItem], [], [], [], []);
      var g := GenerateQuiz(store, "p", 1, false, true, Replied([TestDraft]), now, "s", (i: nat) => "q");
      && g.result.Ok?
      && g.result.value.questions[0].questionId == "q"
      && g.result.value.questions[0].acceptableAnswers == Some(["blue"])
      && g.store == store.(sessions := [SessionRow("s", "p", Active, 1, None, None)], questions := [TestQuestion])
  {
    var store := Store([Patient("p", "Bob")], [], [TestItem], [], [], [], []);
    assert PatientExists(store, "p") by {
      assert store.patients[0] == Patient("p", "Bob");
    }
    var g := GenerateQuiz(store, "p", 1, false, true, Replied([TestDraft]), now, "s", (i: nat) => "q");
    assert Presentable(TestDraft);
    assert g.store.questions == [TestQuestion];
  }

  /** Submitting "blue" to that session scores 1.0 with no weak items. */
  lemma RecallQuizScoresFull(now: Time)
    ensures var store := Store([Patient("p", "Bob")], [], [TestItem], [],
                               [SessionRow("s", "p", Active, 1, None, None)], [TestQuestion], []);
      var o := SubmitQuiz(store, "s", [Submission("q", "blue", 1000)], now);
      o.result.Ok? && o.result.value.score == 1.0 && o.result.value.weakItems == []
  {
    var store := Store([Patient("p", "Bob")], [], [TestItem], [],
                       [SessionRow("s", "p", Active, 1, None, None)], [TestQuestion], []);
    assert FindSession(store.sessions, "s") == Some(SessionRow("s", "p", Active, 1, None, None));
    assert SessionQuestions(store, "s") == [TestQuestion];
    assert QuestionById([TestQuestion], "q") == Some(TestQuestion);
    var sub := Submission("q", "blue", 1000);
    assert Known([TestQuestion], "q");
    NormaliseOfPlainWord("blue");
    assert Judge(TestQuestion, sub);
    var run := Grade([sub], [TestQuestion], Judge, "s", now);
    assert GradedAs(run, [sub], [TestQuestion], Judge, "s", now, 0);
    assert run.graded == [Graded("q", TestQuestion, true, 1000)];
    assert CountCorrect(run.graded) == 1;
    assert WeakItems(run.graded) == [];
    RatioOfWhole(1);
  }
}
