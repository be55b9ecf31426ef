/** The mastery table (db.py `_get_mastery_row`, `update_mastery`): rows are
    keyed by (patient, item type, item id); a write overwrites the row found
    for its key or inserts one new row. */
module MasteryStore {
  import opened Base
  import opened Records

  datatype Key = Key(patientId: string, itemType: string, itemId: string)

  function KeyOf(r: MasteryRow): Key {
    Key(r.patientId, r.itemType, r.itemId)
  }

  /** The uniqueness invariant of the mastery table: at most one row per key. */
  predicate AtMostOnePerKey(table: seq<MasteryRow>) {
    forall i, j :: 0 <= i < j < |table| ==> KeyOf(table[i]) != KeyOf(table[j])
  }

  /** Index of the first row stored under `k`, the row a `.first()` query returns. */
  function FindRow(table: seq<MasteryRow>, k: Key): (i: Option<nat>)
    ensures i.Some? ==> i.value < |table| && KeyOf(table[i.value]) == k
    ensures i.Some? ==> forall j :: 0 <= j < i.value ==> KeyOf(table[j]) != k
    ensures i.None? ==> forall j :: 0 <= j < |table| ==> KeyOf(table[j]) != k
  {
    if table == [] then None
    else if KeyOf(table[0]) == k then Some(0)
    else match FindRow(table[1..], k)
      case None => None
      case Some(j) => Some(j + 1)
  }

  /** The stored row for `k`, if any. */
  function GetMasteryRow(table: seq<MasteryRow>, k: Key): (r: Option<MasteryRow>)
    ensures r.Some? ==> r.value in table && KeyOf(r.value) == k
    ensures r.None? <==> forall j :: 0 <= j < |table| ==> KeyOf(table[j]) != k
  {
    match FindRow(table, k)
    case None => None
    case Some(i) => Some(table[i])
  }

  /** The dictionary `update_mastery` receives; `None` marks an absent key. The
      two timestamps distinguish an absent key (`None`) from a null one (`Some(None)`). */
  datatype MasteryPayload = MasteryPayload(
    patientId: string, itemType: string, itemId: string,
    score: Option<real>, consecutiveCorrect: Option<int>, consecutiveIncorrect: Option<int>,
    lastSeenAt: Option<Option<Time>>, nextDueAt: Option<Option<Time>>)

  function PayloadKey(p: MasteryPayload): Key {
    Key(p.patientId, p.itemType, p.itemId)
  }

  /** The row written for `p`: absent fields default to score 0, zero counters,
      last seen `now` and no next-due time. */
  function RowFor(p: MasteryPayload, now: Time): (r: MasteryRow)
    ensures KeyOf(r) == PayloadKey(p)
    ensures p.score.None? ==> r.score == 0.0
    ensures p.score.Some? ==> r.score == p.score.value
    ensures p.consecutiveCorrect.None? ==> r.consecutiveCorrect == 0
    ensures p.consecutiveCorrect.Some? ==> r.consecutiveCorrect == p.consecutiveCorrect.value
    ensures p.consecutiveIncorrect.None? ==> r.consecutiveIncorrect == 0
    ensures p.consecutiveIncorrect.Some? ==> r.consecutiveIncorrect == p.consecutiveIncorrect.value
    ensures p.lastSeenAt.None? ==> r.lastSeenAt == Some(now)
    ensures p.lastSeenAt.Some? ==> r.lastSeenAt == p.lastSeenAt.value
    ensures p.nextDueAt.None? ==> r.nextDueAt.None?
    ensures p.nextDueAt.Some? ==> r.nextDueAt == p.nextDueAt.value
  {
    MasteryRow(
      p.patientId, p.itemType, p.itemId,
      match p.score case None => 0.0 case Some(s) => s,
      match p.consecutiveCorrect case None => 0 case Some(c) => c,
      match p.consecutiveIncorrect case None => 0 case Some(c) => c,
      match p.lastSeenAt case None => Some(now) case Some(t) => t,
      match p.nextDueAt case None => None case Some(t) => t)
  }

  /** Replacing the row at `i` by one with the same key leaves every lookup where it was. */
  lemma FindRowAfterReplace(table: seq<MasteryRow>, i: nat, row: MasteryRow, k: Key)
    requires i < |table| && KeyOf(row) == KeyOf(table[i])
    ensures FindRow(table[i := row], k) == FindRow(table, k)
  {
    var t := table[i := row];
    assert forall j :: 0 <= j < |t| ==> (KeyOf(t[j]) == k <==> KeyOf(table[j]) == k);
  }

  /** Appending a row under another key leaves that key's lookup where it was. */
  lemma FindRowAfterAppend(table: seq<MasteryRow>, row: MasteryRow, k: Key)
    requires KeyOf(row) != k
    ensures FindRow(table + [row], k) == FindRow(table, k)
  {
    var t := table + [row];
    assert forall j :: 0 <= j < |table| ==> t[j] == table[j];
  }

  /** Upsert: overwrite the row found for the payload's key, or append one row. */
  function UpdateMastery(table: seq<MasteryRow>, p: MasteryPayload, now: Time): (t: seq<MasteryRow>)
    ensures GetMasteryRow(t, PayloadKey(p)) == Some(RowFor(p, now))
    ensures |t| == if FindRow(table, PayloadKey(p)).Some? then |table| else |table| + 1
    ensures forall j :: 0 <= j < |table| && KeyOf(table[j]) != PayloadKey(p) ==> t[j] == table[j]
    ensures forall j :: 0 <= j < |t| ==> t[j] == RowFor(p, now) || (j < |table| && t[j] == table[j])
    ensures forall k :: k != PayloadKey(p) ==> FindRow(t, k) == FindRow(table, k)
  {
    var row := RowFor(p, now);
    match FindRow(table, PayloadKey(p))
    case Some(i) =>
      var t := table[i := row];
      FindRowAfterReplace(table, i, row, PayloadKey(p));
      assert forall k :: k != PayloadKey(p) ==> FindRow(t, k) == FindRow(table, k) by {
        forall k | k != PayloadKey(p)
          ensures FindRow(t, k) == FindRow(table, k)
        {
          FindRowAfterReplace(table, i, row, k);
        }
      }
      t
    case None =>
      var t := table + [row];
      assert forall k :: k != PayloadKey(p) ==> FindRow(t, k) == FindRow(table, k) by {
        forall k | k != PayloadKey(p)
          ensures FindRow(t, k) == FindRow(table, k)
        {
          FindRowAfterAppend(table, row, k);
        }
      }
      assert t[|table|] == row;
      t
  }

  /** An upsert keeps the table free of duplicate keys. */
  lemma UpdateMasteryKeepsUnique(table: seq<MasteryRow>, p: MasteryPayload, now: Time)
    requires AtMostOnePerKey(table)
    ensures AtMostOnePerKey(UpdateMastery(table, p, now))
  {
    var t := UpdateMastery(table, p, now);
    var k := PayloadKey(p);
    match FindRow(table, k)
    case Some(i) =>
      assert t == table[i := RowFor(p, now)];
    case None =>
      assert t == table + [RowFor(p, now)];
  }

  /** The keys with a stored row. */
  function Keys(table: seq<MasteryRow>): set<Key> {
    set r | r in table :: KeyOf(r)
  }

  /** The table read as the map `GetMasteryRow` presents: each key to its row. */
  function View(table: seq<MasteryRow>): (m: map<Key, MasteryRow>)
    ensures m.Keys == Keys(table)
    ensures forall k :: k in m ==> GetMasteryRow(table, k) == Some(m[k])
  {
    map k | k in Keys(table) :: GetMasteryRow(table, k).value
  }

  /** A key has a stored row exactly when the lookup finds one. */
  lemma KeysByLookup(table: seq<MasteryRow>, k: Key)
    ensures k in Keys(table) <==> GetMasteryRow(table, k).Some?
  {
    if k in Keys(table) {
      var r :| r in table && KeyOf(r) == k;
      var j :| 0 <= j < |table| && table[j] == r;
      assert KeyOf(table[j]) == k;
    }
  }

  /** An upsert leaves the lookup of every other key unchanged. */
  lemma LookupOfOtherKey(table: seq<MasteryRow>, p: MasteryPayload, now: Time, k: Key)
    requires k != PayloadKey(p)
    ensures GetMasteryRow(UpdateMastery(table, p, now), k) == GetMasteryRow(table, k)
  {
    var t := UpdateMastery(table, p, now);
    assert FindRow(t, k) == FindRow(table, k);
    if FindRow(t, k).Some? {
      var i := FindRow(t, k).value;
      assert KeyOf(table[i]) == k;
      assert t[i] == table[i];
    }
  }

  /** Read as a map, the upsert is a single-key map update. */
  lemma UpdateMasteryIsMapUpdate(table: seq<MasteryRow>, p: MasteryPayload, now: Time)
    ensures View(UpdateMastery(table, p, now)) == View(table)[PayloadKey(p) := RowFor(p, now)]
  {
    var t := UpdateMastery(table, p, now);
    var k0 := PayloadKey(p);
    var expected := View(table)[k0 := RowFor(p, now)];
    forall k
      ensures k in View(t) <==> k in expected
      ensures k in View(t) ==> View(t)[k] == expected[k]
    {
      KeysByLookup(t, k);
      KeysByLookup(table, k);
      if k != k0 {
        LookupOfOtherKey(table, p, now, k);
      }
    }
    assert View(t).Keys == expected.Keys;
  }
}
