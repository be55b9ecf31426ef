/** The entities of the quiz and mastery core: catalogue items, mastery rows,
    due entries, question drafts and the stored quiz tables. */
module Records {
  import opened Base

  /** A UTC instant, in whole seconds. */
  type Time = int

  const SecondsPerDay: int := 86400

  /** The item-type tags the core writes into due entries and drafts. */
  const KnowledgeType: string := "knowledge"
  const FamilyType: string := "family"

  /** A scalar travelling through the JSON payloads: a string or JSON null. */
  datatype Value = Null | Str(s: string) {
    /** What Python's `str()` makes of the value. */
    function Repr(): string { if Null? then "None" else s }
  }

  datatype Patient = Patient(id: string, fullName: string)

  /** A reviewable item: a knowledge fact or a family member of a patient. */
  datatype Item =
    | Knowledge(id: string, patientId: string, category: string, labelText: string,
                value: string, sensitivityLevel: int, isActive: bool)
    | Family(id: string, patientId: string, fullName: string, relationship: string,
             photoBlobPath: Option<string>)

  /** One row of the mastery table, without its surrogate key. */
  datatype MasteryRow = MasteryRow(
    patientId: string, itemType: string, itemId: string,
    score: real, consecutiveCorrect: int, consecutiveIncorrect: int,
    lastSeenAt: Option<Time>, nextDueAt: Option<Time>)

  /** An entry of the due list: a stored mastery row that is due, or a catalogue
      item listed as never seen (both timestamps null). */
  datatype DueEntry =
    | Stored(row: MasteryRow)
    | Unseen(entryType: string, entryId: string, sensitivityLevel: Option<int>)
  {
    function ItemType(): string { if Stored? then row.itemType else entryType }
    function ItemId(): string { if Stored? then row.itemId else entryId }
  }

  /** A question as the drafting step produces it and as its JSON payload stores it.
      `None` in an optional field means the key is absent; `Null` means JSON null. */
  datatype Draft = Draft(
    questionType: string, prompt: string, options: Option<seq<Value>>,
    correctAnswer: Value, itemType: Option<Value>, itemId: Option<Value>,
    difficulty: int, acceptableAnswers: Option<seq<string>>)

  datatype SessionStatus = Active | Completed

  datatype SessionRow = SessionRow(
    id: string, patientId: string, status: SessionStatus, totalQuestions: int,
    score: Option<real>, avgResponseTimeMs: Option<real>)

  datatype QuestionRow = QuestionRow(id: string, sessionId: string, questionType: string, payload: Draft)

  /** A recorded answer; `userAnswer` is the `str()` rendering of the submitted value. */
  datatype ResponseRow = ResponseRow(
    sessionId: string, questionId: string, userAnswer: string, correct: bool,
    responseTimeMs: int, createdAt: Time)

  /** The tables the core reads and writes. */
  datatype Store = Store(
    patients: seq<Patient>, family: seq<Item>, knowledge: seq<Item>,
    mastery: seq<MasteryRow>, sessions: seq<SessionRow>,
    questions: seq<QuestionRow>, responses: seq<ResponseRow>)

  function Ids(items: seq<Item>): set<string> {
    set x | x in items :: x.id
  }

  predicate DistinctIds(items: seq<Item>) {
    forall i, j :: 0 <= i < j < |items| ==> items[i].id != items[j].id
  }

  /** The items of one patient, in table order (the `patient_id ==` filter of the listing queries). */
  function OfPatient(items: seq<Item>, patientId: string): (r: seq<Item>)
    ensures forall x :: x in r <==> x in items && x.patientId == patientId
  {
    Filter(items, (x: Item) => x.patientId == patientId)
  }

  /** Concatenating two id-distinct lists with disjoint ids keeps ids distinct. */
  lemma DistinctIdsConcat(a: seq<Item>, b: seq<Item>)
    requires DistinctIds(a) && DistinctIds(b) && Ids(a) !! Ids(b)
    ensures DistinctIds(a + b)
  {
    forall i, j | 0 <= i < j < |a + b|
      ensures (a + b)[i].id != (a + b)[j].id
    {
      if j < |a| {
      } else if i >= |a| {
        assert (a + b)[i] == b[i - |a|] && (a + b)[j] == b[j - |a|];
      } else {
        assert (a + b)[i] == a[i] && (a + b)[j] == b[j - |a|];
        assert a[i].id in Ids(a) && b[j - |a|].id in Ids(b);
      }
    }
  }
}
