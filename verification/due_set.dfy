/** The due-set resolver (db.py `due_items`): the patient's mastery rows that
    are due now, followed by catalogue items listed as never seen. */
module DueSet {
  import opened Base
  import opened Records

  /** A row of `patientId` whose next review is unset or not after `now`. */
  predicate IsDue(r: MasteryRow, patientId: string, now: Time) {
    r.patientId == patientId && (r.nextDueAt.None? || r.nextDueAt.value <= now)
  }

  /** The due rows of the patient, in table order. */
  function DueRows(table: seq<MasteryRow>, patientId: string, now: Time): (rows: seq<MasteryRow>)
    ensures forall r :: r in rows <==> r in table && IsDue(r, patientId, now)
  {
    Filter(table, (r: MasteryRow) => IsDue(r, patientId, now))
  }

  function RowItemIds(rows: seq<MasteryRow>): set<string> {
    set r | r in rows :: r.itemId
  }

  function StoredEntries(rows: seq<MasteryRow>): (es: seq<DueEntry>)
    ensures |es| == |rows|
    ensures forall i :: 0 <= i < |rows| ==> es[i] == Stored(rows[i])
  {
    if rows == [] then [] else [Stored(rows[0])] + StoredEntries(rows[1..])
  }

  function EntryIds(entries: seq<DueEntry>): set<string> {
    set e | e in entries :: e.ItemId()
  }

  predicate DistinctEntryIds(entries: seq<DueEntry>) {
    forall i, j :: 0 <= i < j < |entries| ==> entries[i].ItemId() != entries[j].ItemId()
  }

  /** A never-seen entry for a catalogue item; knowledge rows carry their sensitivity. */
  function UnseenEntry(item: Item, entryType: string): DueEntry {
    Unseen(entryType, item.id, if item.Knowledge? then Some(item.sensitivityLevel) else None)
  }

  /** `e` is the never-seen entry of some item of `items`, with that item's id and,
      for a knowledge item, its sensitivity. */
  ghost predicate ListedFrom(e: DueEntry, items: seq<Item>, entryType: string) {
    exists x :: x in items && e == UnseenEntry(x, entryType)
  }

  /** `e` comes from the family pass, or from the knowledge pass for an id no
      family member has. */
  ghost predicate FromCatalogue(e: DueEntry, family: seq<Item>, knowledge: seq<Item>) {
    || ListedFrom(e, family, FamilyType)
    || (ListedFrom(e, knowledge, KnowledgeType) && e.entryId !in Ids(family))
  }

  /** The position of the first item with id `id`, or the number of items when none has it. */
  function FirstIndex(items: seq<Item>, id: string): (k: nat)
    ensures k <= |items|
    ensures k < |items| ==> items[k].id == id
    ensures forall i :: 0 <= i < k ==> items[i].id != id
  {
    if items == [] || items[0].id == id then 0 else 1 + FirstIndex(items[1..], id)
  }

  /** The entries are listed in the order their ids first occur in `items`. */
  predicate InItemOrder(entries: seq<DueEntry>, items: seq<Item>) {
    forall i, j :: 0 <= i < j < |entries| ==>
      FirstIndex(items, entries[i].ItemId()) < FirstIndex(items, entries[j].ItemId())
  }

  datatype Appended = Appended(entries: seq<DueEntry>, known: set<string>)

  /** One catalogue pass: list each item whose id is not yet known, adding its
      id to the known set as it is listed. */
  function AppendUnseen(items: seq<Item>, entryType: string, known: set<string>): (a: Appended)
    ensures a.known == known + Ids(items)
    ensures EntryIds(a.entries) == Ids(items) - known
    ensures DistinctEntryIds(a.entries)
    ensures forall e :: e in a.entries ==> e.Unseen? && e.entryType == entryType
    ensures forall e :: e in a.entries ==> ListedFrom(e, items, entryType)
    ensures InItemOrder(a.entries, items)
  {
    if items == [] then Appended([], known)
    else
      var x := items[0];
      assert Ids(items) == {x.id} + Ids(items[1..]) by {
        assert forall y :: y in items <==> y == x || y in items[1..];
      }
      if x.id in known then
        var rest := AppendUnseen(items[1..], entryType, known);
        ListedFromTail(items, entryType, rest.entries);
        OrderTail(items, rest.entries);
        rest
      else
        var rest := AppendUnseen(items[1..], entryType, known + {x.id});
        ListedFromTail(items, entryType, rest.entries);
        OrderTail(items, rest.entries);
        var es := [UnseenEntry(x, entryType)] + rest.entries;
        OrderCons(items, UnseenEntry(x, entryType), rest.entries);
        assert forall e :: e in es <==> e == UnseenEntry(x, entryType) || e in rest.entries;
        assert EntryIds(es) == {x.id} + EntryIds(rest.entries);
        Appended(es, rest.known)
  }

  /** Entries ordered by the items after the first, none with the first item's id,
      are ordered by all the items, each after position 0. */
  lemma OrderTail(items: seq<Item>, entries: seq<DueEntry>)
    requires items != []
    requires forall e :: e in entries ==> e.ItemId() != items[0].id
    requires InItemOrder(entries, items[1..])
    ensures InItemOrder(entries, items)
    ensures forall e :: e in entries ==> FirstIndex(items, e.ItemId()) >= 1
  {
    forall e | e in entries
      ensures FirstIndex(items, e.ItemId()) == 1 + FirstIndex(items[1..], e.ItemId())
    {
    }
    forall i, j | 0 <= i < j < |entries|
      ensures FirstIndex(items, entries[i].ItemId()) < FirstIndex(items, entries[j].ItemId())
    {
      assert entries[i] in entries && entries[j] in entries;
    }
  }

  /** The first item's entry, put before entries ordered after position 0, keeps the order. */
  lemma OrderCons(items: seq<Item>, head: DueEntry, entries: seq<DueEntry>)
    requires items != [] && head.ItemId() == items[0].id
    requires InItemOrder(entries, items)
    requires forall e :: e in entries ==> FirstIndex(items, e.ItemId()) >= 1
    ensures InItemOrder([head] + entries, items)
  {
    var es := [head] + entries;
    forall i, j | 0 <= i < j < |es|
      ensures FirstIndex(items, es[i].ItemId()) < FirstIndex(items, es[j].ItemId())
    {
      assert es[j] == entries[j - 1];
      if i == 0 {
        assert es[j] in entries;
      } else {
        assert es[i] == entries[i - 1];
      }
    }
  }

  /** An entry listed from the items after the first is listed from all of them. */
  lemma ListedFromTail(items: seq<Item>, entryType: string, entries: seq<DueEntry>)
    requires items != []
    requires forall e :: e in entries ==> ListedFrom(e, items[1..], entryType)
    ensures forall e :: e in entries ==> ListedFrom(e, items, entryType)
  {
    forall e | e in entries
      ensures ListedFrom(e, items, entryType)
    {
      var y :| y in items[1..] && e == UnseenEntry(y, entryType);
      assert y in items;
    }
  }

  /** Within each catalogue pass, the entries follow the order in which their ids
      first occur among that pass's items. */
  predicate PassesInItemOrder(cat: seq<DueEntry>, family: seq<Item>, knowledge: seq<Item>) {
    && (forall i, j :: 0 <= i < j < |cat| && cat[i].ItemType() == FamilyType && cat[j].ItemType() == FamilyType
          ==> FirstIndex(family, cat[i].ItemId()) < FirstIndex(family, cat[j].ItemId()))
    && (forall i, j :: 0 <= i < j < |cat| && cat[i].ItemType() == KnowledgeType && cat[j].ItemType() == KnowledgeType
          ==> FirstIndex(knowledge, cat[i].ItemId()) < FirstIndex(knowledge, cat[j].ItemId()))
  }

  /** The never-seen entries: one per catalogue id not in `suppressed`,
      family members first, then knowledge items. */
  function Catalogue(suppressed: set<string>, family: seq<Item>, knowledge: seq<Item>): (cat: seq<DueEntry>)
    ensures forall e :: e in cat ==> e.Unseen?
    ensures DistinctEntryIds(cat)
    ensures EntryIds(cat) == (Ids(family) + Ids(knowledge)) - suppressed
    ensures forall i, j :: 0 <= i < j < |cat| && cat[i].entryType == KnowledgeType
              ==> cat[j].entryType == KnowledgeType
    ensures forall e :: e in cat ==> FromCatalogue(e, family, knowledge)
    ensures PassesInItemOrder(cat, family, knowledge)
  {
    var fam := AppendUnseen(family, FamilyType, suppressed);
    var kno := AppendUnseen(knowledge, KnowledgeType, fam.known);
    CatalogueEntries(fam.entries, kno.entries, FamilyType, KnowledgeType);
    CatalogueOrder(fam.entries, kno.entries, family, knowledge);
    assert forall e :: e in kno.entries ==> e.entryId !in Ids(family) by {
      forall e | e in kno.entries
        ensures e.entryId !in Ids(family)
      {
        assert e.ItemId() in EntryIds(kno.entries);
      }
    }
    fam.entries + kno.entries
  }

  /** The due rows first, then the catalogue entries. */
  function Assemble(rows: seq<MasteryRow>, suppressed: set<string>,
                    family: seq<Item>, knowledge: seq<Item>): (due: seq<DueEntry>)
    ensures |rows| <= |due|
    ensures due[..|rows|] == StoredEntries(rows)
    ensures due[|rows|..] == Catalogue(suppressed, family, knowledge)
  {
    var stored := StoredEntries(rows);
    var catalogue := Catalogue(suppressed, family, knowledge);
    assert (stored + catalogue)[..|rows|] == stored;
    assert (stored + catalogue)[|rows|..] == catalogue;
    stored + catalogue
  }

  /** An element past the cut is the element of the tail at the shifted index. */
  lemma TailIndices(due: seq<DueEntry>, k: nat)
    requires k <= |due|
    ensures forall i :: k <= i < |due| ==> due[i] == due[k..][i - k]
  {
  }

  /** The due list of `patientId` at `now`, as the source computes it. The ids
      that suppress a catalogue entry are only those of the due rows, so an
      item whose row is not yet due is listed again as never seen. */
  function DueItems(patientId: string, now: Time, table: seq<MasteryRow>,
                    family: seq<Item>, knowledge: seq<Item>): (due: seq<DueEntry>)
    ensures var rows := DueRows(table, patientId, now);
      && |rows| <= |due|
      && (forall r :: Stored(r) in due <==> r in table && IsDue(r, patientId, now))
      && due[..|rows|] == StoredEntries(rows)
      && (forall i :: |rows| <= i < |due| ==> due[i].Unseen?)
      && DistinctEntryIds(due[|rows|..])
      && EntryIds(due[|rows|..])
         == (Ids(OfPatient(family, patientId)) + Ids(OfPatient(knowledge, patientId))) - RowItemIds(rows)
      && (forall i, j :: |rows| <= i < j < |due| && due[i].entryType == KnowledgeType
            ==> due[j].entryType == KnowledgeType)
      && (forall e :: e in due[|rows|..] ==>
            FromCatalogue(e, OfPatient(family, patientId), OfPatient(knowledge, patientId)))
      && PassesInItemOrder(due[|rows|..], OfPatient(family, patientId), OfPatient(knowledge, patientId))
  {
    var rows := DueRows(table, patientId, now);
    var due := Assemble(rows, RowItemIds(rows), OfPatient(family, patientId), OfPatient(knowledge, patientId));
    TailIndices(due, |rows|);
    StoredPrefix(rows, due);
    due
  }

  /** With the stored rows as a prefix and only never-seen entries after it, the
      stored entries are exactly the rows. */
  lemma StoredPrefix(rows: seq<MasteryRow>, due: seq<DueEntry>)
    requires |rows| <= |due| && due[..|rows|] == StoredEntries(rows)
    requires forall i :: |rows| <= i < |due| ==> due[i].Unseen?
    ensures forall r :: Stored(r) in due <==> r in rows
  {
    forall r
      ensures Stored(r) in due <==> r in rows
    {
      if Stored(r) in due {
        var i :| 0 <= i < |due| && due[i] == Stored(r);
        assert i < |rows|;
        assert due[..|rows|][i] == Stored(rows[i]);
      }
      if r in rows {
        var i :| 0 <= i < |rows| && rows[i] == r;
        assert due[..|rows|][i] == due[i];
      }
    }
  }

  /** An item of the patient with no mastery row at all is always in the due list. */
  lemma NeverReviewedItemIsDue(patientId: string, now: Time, table: seq<MasteryRow>,
                               family: seq<Item>, knowledge: seq<Item>, x: Item)
    requires x in OfPatient(family, patientId) || x in OfPatient(knowledge, patientId)
    requires forall r :: r in table ==> r.itemId != x.id
    ensures x.id in EntryIds(DueItems(patientId, now, table, family, knowledge))
  {
    var due := DueItems(patientId, now, table, family, knowledge);
    var rows := DueRows(table, patientId, now);
    assert x.id in Ids(OfPatient(family, patientId)) + Ids(OfPatient(knowledge, patientId));
    assert x.id !in RowItemIds(rows);
    assert x.id in EntryIds(due[|rows|..]);
    var e :| e in due[|rows|..] && e.ItemId() == x.id;
    assert e in due;
  }

  /** A concrete case of the source's behaviour: item "k" was reviewed and its
      next review is at time 100, yet at time 50 it is listed as never seen. */
  lemma NotYetDueItemListedAsUnseen()
    ensures var row := MasteryRow("p", KnowledgeType, "k", 0.5, 1, 0, Some(0), Some(100));
      var item := Knowledge("k", "p", "personal", "favorite color", "blue", 0, true);
      DueItems("p", 50, [row], [], [item]) == [Unseen(KnowledgeType, "k", Some(0))]
  {
    var row := MasteryRow("p", KnowledgeType, "k", 0.5, 1, 0, Some(0), Some(100));
    var item := Knowledge("k", "p", "personal", "favorite color", "blue", 0, true);
    assert DueRows([row], "p", 50) == [];
    assert OfPatient([item], "p") == [item];
    assert OfPatient([], "p") == [];
    assert RowItemIds([]) == {};
    assert StoredEntries([]) == [];
    var fam := AppendUnseen([], FamilyType, {});
    assert fam == Appended([], {});
    var kno := AppendUnseen([item], KnowledgeType, {});
    assert [item][1..] == [];
    assert AppendUnseen([], KnowledgeType, {"k"}) == Appended([], {"k"});
    assert item.id !in {};
    assert kno.entries == [UnseenEntry(item, KnowledgeType)] + AppendUnseen([], KnowledgeType, {} + {"k"}).entries;
    assert kno.entries == [UnseenEntry(item, KnowledgeType)];
  }

  /** The ids of the items the patient has any mastery row for, due or not. */
  function ReviewedIds(table: seq<MasteryRow>, patientId: string): (ids: set<string>)
    ensures forall id :: id in ids <==> exists r :: r in table && r.patientId == patientId && r.itemId == id
  {
    set r | r in table && r.patientId == patientId :: r.itemId
  }

  /** The ids of the patient's family members and knowledge items. */
  function CatalogueIds(patientId: string, family: seq<Item>, knowledge: seq<Item>): set<string> {
    Ids(OfPatient(family, patientId)) + Ids(OfPatient(knowledge, patientId))
  }

  /** The due list as intended: catalogue entries only for items the patient has
      no mastery row for, so an item scheduled for later never appears. */
  function DueItemsIntended(patientId: string, now: Time, table: seq<MasteryRow>,
                            family: seq<Item>, knowledge: seq<Item>): (due: seq<DueEntry>)
    ensures forall r :: Stored(r) in due <==> r in table && IsDue(r, patientId, now)
    ensures forall e :: e in due && e.Unseen? ==>
      e.entryId in CatalogueIds(patientId, family, knowledge) - ReviewedIds(table, patientId)
    ensures CatalogueIds(patientId, family, knowledge) - ReviewedIds(table, patientId) <= EntryIds(due)
    ensures |DueRows(table, patientId, now)| <= |due|
    ensures DistinctEntryIds(due[|DueRows(table, patientId, now)|..])
    ensures due[..|DueRows(table, patientId, now)|] == StoredEntries(DueRows(table, patientId, now))
    ensures forall i :: |DueRows(table, patientId, now)| <= i < |due| ==> due[i].Unseen?
    ensures forall e :: e in due && e.Unseen? ==>
      FromCatalogue(e, OfPatient(family, patientId), OfPatient(knowledge, patientId))
    ensures PassesInItemOrder(due[|DueRows(table, patientId, now)|..],
                              OfPatient(family, patientId), OfPatient(knowledge, patientId))
  {
    var rows := DueRows(table, patientId, now);
    var reviewed := ReviewedIds(table, patientId);
    var due := Assemble(rows, reviewed, OfPatient(family, patientId), OfPatient(knowledge, patientId));
    AssembleEntries(rows, reviewed, OfPatient(family, patientId), OfPatient(knowledge, patientId));
    TailIndices(due, |rows|);
    due
  }

  /** When every row of the patient is due, the due rows cover all reviewed ids,
      so the source's due list is the intended one. */
  lemma DueListsAgreeWhenAllDue(patientId: string, now: Time, table: seq<MasteryRow>,
                                family: seq<Item>, knowledge: seq<Item>)
    requires forall r :: r in table && r.patientId == patientId ==> IsDue(r, patientId, now)
    ensures DueItems(patientId, now, table, family, knowledge) == DueItemsIntended(patientId, now, table, family, knowledge)
  {
    var rows := DueRows(table, patientId, now);
    assert RowItemIds(rows) == ReviewedIds(table, patientId) by {
      forall id | id in ReviewedIds(table, patientId)
        ensures id in RowItemIds(rows)
      {
        var r :| r in table && r.patientId == patientId && r.itemId == id;
        assert r in rows;
      }
    }
  }

  /** The entries `Assemble` lists, read as sets: the stored ones are the rows and
      the never-seen ones are the catalogue ids not suppressed. */
  lemma AssembleEntries(rows: seq<MasteryRow>, suppressed: set<string>,
                        family: seq<Item>, knowledge: seq<Item>)
    ensures var due := Assemble(rows, suppressed, family, knowledge);
      && (forall r :: Stored(r) in due <==> r in rows)
      && (forall e :: e in due && e.Unseen? ==> e.entryId in (Ids(family) + Ids(knowledge)) - suppressed)
      && (Ids(family) + Ids(knowledge)) - suppressed <= EntryIds(due)
      && (forall e :: e in due && e.Unseen? ==> FromCatalogue(e, family, knowledge))
  {
    var due := Assemble(rows, suppressed, family, knowledge);
    var listed := (Ids(family) + Ids(knowledge)) - suppressed;
    var tail := due[|rows|..];
    TailIndices(due, |rows|);
    StoredPrefix(rows, due);
    UnseenTail(rows, due);
    forall e | e in due && e.Unseen?
      ensures e.entryId in listed && FromCatalogue(e, family, knowledge)
    {
      assert e in tail;
      assert e.ItemId() in EntryIds(tail);
    }
    forall id | id in listed
      ensures id in EntryIds(due)
    {
      var e :| e in tail && e.ItemId() == id;
      assert e in due;
    }
  }

  /** After a prefix of stored entries, the never-seen entries are those of the tail. */
  lemma UnseenTail(rows: seq<MasteryRow>, due: seq<DueEntry>)
    requires |rows| <= |due| && due[..|rows|] == StoredEntries(rows)
    ensures forall e :: e in due && e.Unseen? ==> e in due[|rows|..]
    ensures forall e :: e in due[|rows|..] ==> e in due
    ensures EntryIds(due[|rows|..]) <= EntryIds(due)
  {
    PrefixStored(rows, due);
    forall e | e in due && e.Unseen?
      ensures e in due[|rows|..]
    {
      var i :| 0 <= i < |due| && due[i] == e;
      assert due[|rows|..][i - |rows|] == e;
    }
    TailMembers(due, |rows|);
  }

  /** The entries before the cut are the stored ones. */
  lemma PrefixStored(rows: seq<MasteryRow>, due: seq<DueEntry>)
    requires |rows| <= |due| && due[..|rows|] == StoredEntries(rows)
    ensures forall k :: 0 <= k < |rows| ==> due[k].Stored?
  {
    forall k | 0 <= k < |rows|
      ensures due[k].Stored?
    {
      assert due[k] == due[..|rows|][k];
    }
  }

  /** Every entry past a cut, and so every id there, is one of the whole list. */
  lemma TailMembers(due: seq<DueEntry>, k: nat)
    requires k <= |due|
    ensures forall e :: e in due[k..] ==> e in due
    ensures EntryIds(due[k..]) <= EntryIds(due)
  {
    forall e | e in due[k..]
      ensures e in due
    {
      var i :| 0 <= i < |due[k..]| && due[k..][i] == e;
      assert due[k + i] == e;
    }
    forall id | id in EntryIds(due[k..])
      ensures id in EntryIds(due)
    {
      var e :| e in due[k..] && e.ItemId() == id;
      assert e in due;
    }
  }

  /** Two passes, each in its items' order, keep that order once put together. */
  lemma CatalogueOrder(fam: seq<DueEntry>, kno: seq<DueEntry>, family: seq<Item>, knowledge: seq<Item>)
    requires forall e :: e in fam ==> e.ItemType() == FamilyType
    requires forall e :: e in kno ==> e.ItemType() == KnowledgeType
    requires InItemOrder(fam, family) && InItemOrder(kno, knowledge)
    ensures PassesInItemOrder(fam + kno, family, knowledge)
  {
    var c := fam + kno;
    forall i, j | 0 <= i < j < |c| && c[i].ItemType() == FamilyType && c[j].ItemType() == FamilyType
      ensures FirstIndex(family, c[i].ItemId()) < FirstIndex(family, c[j].ItemId())
    {
      assert j < |fam|;
      assert c[i] == fam[i] && c[j] == fam[j];
    }
    forall i, j | 0 <= i < j < |c| && c[i].ItemType() == KnowledgeType && c[j].ItemType() == KnowledgeType
      ensures FirstIndex(knowledge, c[i].ItemId()) < FirstIndex(knowledge, c[j].ItemId())
    {
      assert i >= |fam|;
      assert c[i] == kno[i - |fam|] && c[j] == kno[j - |fam|];
    }
  }

  /** The two catalogue passes together list distinct ids, family first. */
  lemma CatalogueEntries(fam: seq<DueEntry>, kno: seq<DueEntry>, famType: string, knoType: string)
    requires DistinctEntryIds(fam) && DistinctEntryIds(kno)
    requires EntryIds(fam) !! EntryIds(kno)
    requires forall e :: e in fam ==> e.Unseen? && e.entryType == famType
    requires forall e :: e in kno ==> e.Unseen? && e.entryType == knoType
    requires famType != knoType
    ensures DistinctEntryIds(fam + kno)
    ensures EntryIds(fam + kno) == EntryIds(fam) + EntryIds(kno)
    ensures forall i, j :: 0 <= i < j < |fam + kno| && (fam + kno)[i].entryType == knoType
              ==> (fam + kno)[j].entryType == knoType
  {
    var c := fam + kno;
    forall i, j | 0 <= i < j < |c|
      ensures c[i].ItemId() != c[j].ItemId()
    {
      if j < |fam| {
        assert c[i] == fam[i] && c[j] == fam[j];
      } else if i < |fam| {
        assert c[i] == fam[i] && c[j] == kno[j - |fam|];
        assert c[i].ItemId() in EntryIds(fam) && c[j].ItemId() in EntryIds(kno);
      } else {
        assert c[i] == kno[i - |fam|] && c[j] == kno[j - |fam|];
      }
    }
    forall i, j | 0 <= i < j < |c| && c[i].entryType == knoType
      ensures c[j].entryType == knoType
    {
      if i >= |fam| {
        assert c[j] in kno;
      }
    }
    assert forall e :: e in c <==> e in fam || e in kno;
  }
}
