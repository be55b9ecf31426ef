/** The spaced-repetition scheduler (quiz.py `_interval_days`,
    `compute_mastery_update`): an answer moves the mastery score and the two
    streak counters, and the post-update score picks the next review interval. */
module Scheduler {
  import opened Base
  import opened Records
  import opened MasteryStore

  const CorrectGain: real := 0.1
  const FastBonus: real := 0.05
  const WrongPenalty: real := 0.05
  /** Answers faster than this (in milliseconds) earn the bonus. */
  const FastAnswerMs: int := 3000

  /** Review interval in days as a step function of the score. */
  function IntervalDays(score: real): (days: int)
    ensures days in {1, 2, 4, 7, 14}
    ensures score >= 0.8 ==> days == 14
    ensures 0.6 <= score < 0.8 ==> days == 7
    ensures 0.4 <= score < 0.6 ==> days == 4
    ensures 0.2 <= score < 0.4 ==> days == 2
    ensures score < 0.2 ==> days == 1
  {
    if score >= 0.8 then 14
    else if score >= 0.6 then 7
    else if score >= 0.4 then 4
    else if score >= 0.2 then 2
    else 1
  }

  /** A higher score never gets a shorter interval. */
  lemma IntervalDaysMonotone(a: real, b: real)
    requires a <= b
    ensures IntervalDays(a) <= IntervalDays(b)
  {
  }

  /** The learning state of one item: score and streak counters. */
  datatype Progress = Progress(score: real, consecutiveCorrect: int, consecutiveIncorrect: int)

  /** The streak invariant: the two counters are never both positive. */
  predicate StreakExclusive(p: Progress) {
    p.consecutiveCorrect == 0 || p.consecutiveIncorrect == 0
  }

  predicate WellFormed(p: Progress) {
    && 0.0 <= p.score <= 1.0
    && p.consecutiveCorrect >= 0 && p.consecutiveIncorrect >= 0
    && StreakExclusive(p)
  }

  /** The state an update starts from: the stored row, or score 0 and zero counters. */
  function Baseline(existing: Option<MasteryRow>): (p: Progress)
    ensures existing.None? ==> p == Progress(0.0, 0, 0)
    ensures existing.Some? ==>
      && p.score == existing.value.score
      && p.consecutiveCorrect == existing.value.consecutiveCorrect
      && p.consecutiveIncorrect == existing.value.consecutiveIncorrect
  {
    match existing
    case None => Progress(0.0, 0, 0)
    case Some(r) => Progress(r.score, r.consecutiveCorrect, r.consecutiveIncorrect)
  }

  /** One answer's effect on the learning state. */
  function Advance(p: Progress, correct: bool, responseTimeMs: int): (q: Progress)
    ensures correct ==> q.consecutiveCorrect == p.consecutiveCorrect + 1 && q.consecutiveIncorrect == 0
    ensures !correct ==> q.consecutiveIncorrect == p.consecutiveIncorrect + 1 && q.consecutiveCorrect == 0
    ensures correct && responseTimeMs >= FastAnswerMs ==> q.score == MinReal(1.0, p.score + 0.1)
    ensures correct && responseTimeMs < FastAnswerMs ==> q.score == MinReal(1.0, p.score + 0.15)
    ensures !correct ==> q.score == MaxReal(0.0, p.score - 0.05)
    ensures p.consecutiveCorrect >= 0 && p.consecutiveIncorrect >= 0 ==> StreakExclusive(q)
    ensures WellFormed(p) ==> WellFormed(q)
  {
    if correct then
      var s := MinReal(1.0, p.score + CorrectGain);
      var s' := if responseTimeMs < FastAnswerMs then MinReal(1.0, s + FastBonus) else s;
      Progress(s', p.consecutiveCorrect + 1, 0)
    else
      Progress(MaxReal(0.0, p.score - WrongPenalty), 0, p.consecutiveIncorrect + 1)
  }

  /** Python truthiness of a payload field: present, a string, and not empty. */
  predicate Truthy(v: Option<Value>) {
    v.Some? && v.value.Str? && v.value.s != ""
  }

  /** The payload names the item it is about. */
  predicate HasItemRef(d: Draft) {
    Truthy(d.itemType) && Truthy(d.itemId)
  }

  /** The mastery update for one answered question of `patientId`, read against
      the current table; `None` when the question names no item. */
  function ComputeMasteryUpdate(table: seq<MasteryRow>, patientId: string, payload: Draft,
                                correct: bool, responseTimeMs: int, now: Time): (u: Option<MasteryPayload>)
    ensures u.None? <==> !HasItemRef(payload)
    ensures u.Some? ==>
      var k := PayloadKey(u.value);
      var after := Advance(Baseline(GetMasteryRow(table, k)), correct, responseTimeMs);
      && k.patientId == patientId
      && payload.itemType == Some(Str(k.itemType)) && payload.itemId == Some(Str(k.itemId))
      && u.value.score == Some(after.score)
      && u.value.consecutiveCorrect == Some(after.consecutiveCorrect)
      && u.value.consecutiveIncorrect == Some(after.consecutiveIncorrect)
      && u.value.lastSeenAt == Some(Some(now))
      && u.value.nextDueAt == Some(Some(now + IntervalDays(after.score) * SecondsPerDay))
  {
    if !HasItemRef(payload) then None
    else
      var itemType := payload.itemType.value.s;
      var itemId := payload.itemId.value.s;
      var existing := GetMasteryRow(table, Key(patientId, itemType, itemId));
      var after := Advance(Baseline(existing), correct, responseTimeMs);
      var days := IntervalDays(after.score);
      Some(MasteryPayload(
        patientId, itemType, itemId,
        Some(after.score), Some(after.consecutiveCorrect), Some(after.consecutiveIncorrect),
        Some(Some(now)), Some(Some(now + days * SecondsPerDay))))
  }

  /** The invariant every stored row keeps: score in [0, 1], counters not negative
      and never both positive. */
  predicate RowInvariant(r: MasteryRow) {
    WellFormed(Progress(r.score, r.consecutiveCorrect, r.consecutiveIncorrect))
  }

  /** Writing a computed update keeps every row of the table within the invariant. */
  lemma UpdateKeepsRowInvariant(table: seq<MasteryRow>, patientId: string, payload: Draft,
                                correct: bool, responseTimeMs: int, now: Time, writeTime: Time)
    requires forall r :: r in table ==> RowInvariant(r)
    ensures var u := ComputeMasteryUpdate(table, patientId, payload, correct, responseTimeMs, now);
      u.Some? ==> forall r :: r in UpdateMastery(table, u.value, writeTime) ==> RowInvariant(r)
  {
    var u := ComputeMasteryUpdate(table, patientId, payload, correct, responseTimeMs, now);
    if u.Some? {
      var k := PayloadKey(u.value);
      var before := Baseline(GetMasteryRow(table, k));
      assert WellFormed(before);
      var t := UpdateMastery(table, u.value, writeTime);
      var written := RowFor(u.value, writeTime);
      assert RowInvariant(written);
      forall r | r in t
        ensures RowInvariant(r)
      {
        var j :| 0 <= j < |t| && t[j] == r;
        assert r == written || r == table[j];
      }
    }
  }
}
