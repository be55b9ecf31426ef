/** Quiz item selection and fallback drafting (quiz.py `generate_quiz_questions`,
    `_fallback_questions`): knowledge items are filtered by sensitivity, the due
    entries that resolve to a catalogue item come first, the remaining catalogue
    fills the slots, and the pool of at most `n` items becomes one multiple-choice
    draft each when the question generator is not used. */
module Selection {
  import opened Base
  import opened Records
  import opened Evaluation

  /** Knowledge items at this sensitivity level or above are withheld unless asked for. */
  const SensitiveLevel: int := 2

  const MultipleChoice: string := "mcq"
  const NotSure: string := "Not sure"

  /** The sensitivity the filter reads; an item without the field counts as 0. */
  function SensitivityOf(x: Item): int {
    if x.Knowledge? then x.sensitivityLevel else 0
  }

  predicate Admitted(x: Item, includeSensitive: bool) {
    includeSensitive || SensitivityOf(x) < SensitiveLevel
  }

  /** The knowledge items the selection may use, in their original order. */
  function SensitiveFiltered(knowledge: seq<Item>, includeSensitive: bool): (r: seq<Item>)
    ensures forall x :: x in r <==> x in knowledge && Admitted(x, includeSensitive)
  {
    Filter(knowledge, (x: Item) => Admitted(x, includeSensitive))
  }

  /** The id-keyed lookup built by a dict comprehension: the last item with the id wins. */
  function LookupById(items: seq<Item>, id: string): (r: Option<Item>)
    ensures r.None? <==> id !in Ids(items)
    ensures r.Some? ==> r.value.id == id
    ensures r.Some? ==> exists i :: 0 <= i < |items| && items[i] == r.value
                          && forall j :: i < j < |items| ==> items[j].id != id
  {
    if items == [] then None
    else
      var last := items[|items| - 1];
      var init := items[..|items| - 1];
      assert items == init + [last];
      assert Ids(items) == Ids(init) + {last.id} by {
        assert forall x :: x in items <==> x in init || x == last;
      }
      if last.id == id then Some(last)
      else
        var r := LookupById(init, id);
        assert r.Some? ==> exists i :: 0 <= i < |items| && items[i] == r.value
                             && forall j :: i < j < |items| ==> items[j].id != id by {
          if r.Some? {
            var i :| 0 <= i < |init| && init[i] == r.value
                     && forall j :: i < j < |init| ==> init[j].id != id;
            assert items[i] == r.value;
          }
        }
        r
  }

  /** The catalogue item a due entry names, looked up in the list its type selects. */
  function Resolve(e: DueEntry, filtered: seq<Item>, family: seq<Item>): (r: Option<Item>)
    ensures r.Some? ==> r.value.id == e.ItemId()
    ensures r.Some? && e.ItemType() == KnowledgeType ==> r.value in filtered
    ensures r.Some? && e.ItemType() != KnowledgeType ==> e.ItemType() == FamilyType && r.value in family
    ensures e.ItemType() == KnowledgeType ==> (r.None? <==> e.ItemId() !in Ids(filtered))
    ensures e.ItemType() == FamilyType ==> (r.None? <==> e.ItemId() !in Ids(family))
  {
    if e.ItemType() == KnowledgeType then
      LookupById(filtered, e.ItemId())
    else if e.ItemType() == FamilyType then
      LookupById(family, e.ItemId())
    else None
  }

  /** The due-first pass: each due entry that resolves to an item whose id is not
      yet `seen` is selected, and its id becomes seen. */
  function PrioritiseDue(due: seq<DueEntry>, filtered: seq<Item>, family: seq<Item>,
                         seen: set<string>): (r: seq<Item>)
    ensures DistinctIds(r)
    ensures Ids(r) !! seen
    ensures forall x :: x in r ==> x in filtered || x in family
  {
    if due == [] then []
    else
      var rest := due[1..];
      match Resolve(due[0], filtered, family)
      case Some(x) =>
        if x.id in seen then PrioritiseDue(rest, filtered, family, seen)
        else
          var tail := PrioritiseDue(rest, filtered, family, seen + {x.id});
          assert forall y :: y in [x] + tail <==> y == x || y in tail;
          assert Ids([x] + tail) == {x.id} + Ids(tail);
          DistinctIdsConcat([x], tail);
          [x] + tail
      case None => PrioritiseDue(rest, filtered, family, seen)
  }

  /** The fill-in pass over `candidates`: skip seen ids, take the others, and stop
      right after the item that brings the selection (`count` so far) to `n`. */
  function FillIn(candidates: seq<Item>, count: int, seen: set<string>, n: int): (r: seq<Item>)
    ensures DistinctIds(r)
    ensures Ids(r) !! seen
    ensures forall x :: x in r ==> x in candidates
    ensures |r| <= Max(n - count, 1)
  {
    if candidates == [] then []
    else
      var c := candidates[0];
      var rest := candidates[1..];
      if c.id in seen then FillIn(rest, count, seen, n)
      else if count + 1 >= n then [c]
      else
        var tail := FillIn(rest, count + 1, seen + {c.id}, n);
        assert forall y :: y in [c] + tail <==> y == c || y in tail;
        assert Ids([c] + tail) == {c.id} + Ids(tail);
        DistinctIdsConcat([c], tail);
        [c] + tail
  }

  /** The due-first items, with nothing seen before them. */
  function DueFirst(due: seq<DueEntry>, filtered: seq<Item>, family: seq<Item>): seq<Item> {
    PrioritiseDue(due, filtered, family, {})
  }

  /** `selected_items` once both passes have run. */
  function SelectedItems(due: seq<DueEntry>, filtered: seq<Item>, family: seq<Item>, n: int): (r: seq<Item>)
    ensures DistinctIds(r)
    ensures forall x :: x in r ==> x in filtered || x in family
  {
    var d := DueFirst(due, filtered, family);
    var f := FillIn(filtered + family, |d|, Ids(d), n);
    DistinctIdsConcat(d, f);
    d + f
  }

  /** The pool the questions are drafted from: the selection cut to `n` by `[:n]`. */
  function ItemsPool(knowledge: seq<Item>, family: seq<Item>, due: seq<DueEntry>,
                     n: int, includeSensitive: bool): (pool: seq<Item>)
    ensures 0 <= n ==> |pool| <= n
    ensures DistinctIds(pool)
    ensures forall x :: x in pool ==> x in family || (x in knowledge && Admitted(x, includeSensitive))
  {
    var filtered := SensitiveFiltered(knowledge, includeSensitive);
    var d := DueFirst(due, filtered, family);
    var sel := SelectedItems(due, filtered, family, n);
    var pool := Take(sel, n);
    assert forall i :: 0 <= i < |pool| ==> pool[i] == sel[i];
    pool
  }

  // ----- a reference definition of the selection -----

  /** The items of `s` whose id is not in `ids`, in order. */
  function WithoutIds(s: seq<Item>, ids: set<string>): (r: seq<Item>)
    ensures |r| <= |s|
    ensures forall x :: x in r <==> x in s && x.id !in ids
  {
    if s == [] then []
    else (if s[0].id in ids then [] else [s[0]]) + WithoutIds(s[1..], ids)
  }

  lemma {:induction false} WithoutIdsTwice(s: seq<Item>, a: set<string>, b: set<string>)
    ensures WithoutIds(WithoutIds(s, a), b) == WithoutIds(s, a + b)
    decreases |s|
  {
    if s != [] {
      WithoutIdsTwice(s[1..], a, b);
      var x := s[0];
      var w := WithoutIds(s, a);
      if x.id !in a {
        assert w == [x] + WithoutIds(s[1..], a);
        assert w[0] == x && w[1..] == WithoutIds(s[1..], a);
        assert WithoutIds(w, b) == (if x.id in b then [] else [x]) + WithoutIds(w[1..], b);
      } else {
        assert w == [] + WithoutIds(s[1..], a) == WithoutIds(s[1..], a);
        assert WithoutIds(s, a + b) == [] + WithoutIds(s[1..], a + b) == WithoutIds(s[1..], a + b);
      }
    }
  }

  lemma {:induction false} WithoutNoIds(s: seq<Item>)
    ensures WithoutIds(s, {}) == s
    decreases |s|
  {
    if s != [] {
      WithoutNoIds(s[1..]);
    }
  }

  /** The first item of each id, in order of first appearance. */
  function FirstById(s: seq<Item>): (r: seq<Item>)
    ensures DistinctIds(r)
    ensures Ids(r) == Ids(s)
    ensures forall x :: x in r ==> x in s
    decreases |s|
  {
    if s == [] then []
    else
      var tail := FirstById(WithoutIds(s[1..], {s[0].id}));
      assert forall y :: y in [s[0]] + tail <==> y == s[0] || y in tail;
      assert forall y :: y in s <==> y == s[0] || y in s[1..];
      assert Ids([s[0]] + tail) == {s[0].id} + Ids(tail);
      DistinctIdsConcat([s[0]], tail);
      [s[0]] + tail
  }

  /** Every item the due entries resolve to, in due-list order, repeats included. */
  function ResolvedAll(due: seq<DueEntry>, filtered: seq<Item>, family: seq<Item>): seq<Item> {
    if due == [] then []
    else
      (match Resolve(due[0], filtered, family) case Some(x) => [x] case None => [])
      + ResolvedAll(due[1..], filtered, family)
  }

  /** The due-first pass keeps the first occurrence of each id among the resolved
      due items that are not already seen. */
  lemma {:induction false} PrioritiseDueIsFirstById(due: seq<DueEntry>, filtered: seq<Item>,
                                                   family: seq<Item>, seen: set<string>)
    ensures PrioritiseDue(due, filtered, family, seen)
         == FirstById(WithoutIds(ResolvedAll(due, filtered, family), seen))
    decreases |due|
  {
    if due != [] {
      var rest := ResolvedAll(due[1..], filtered, family);
      var r := Resolve(due[0], filtered, family);
      if r.Some? && r.value.id !in seen {
        PrioritiseDueIsFirstById(due[1..], filtered, family, seen + {r.value.id});
        FreshDueStep(due, filtered, family, seen);
      } else {
        PrioritiseDueIsFirstById(due[1..], filtered, family, seen);
        SkippedDueStep(due, filtered, family, seen);
      }
    }
  }

  /** One step of the due-first pass over an entry that resolves to an unseen item. */
  lemma FreshDueStep(due: seq<DueEntry>, filtered: seq<Item>, family: seq<Item>, seen: set<string>)
    requires due != []
    requires Resolve(due[0], filtered, family).Some?
    requires Resolve(due[0], filtered, family).value.id !in seen
    ensures var x := Resolve(due[0], filtered, family).value;
      && PrioritiseDue(due, filtered, family, seen)
         == [x] + PrioritiseDue(due[1..], filtered, family, seen + {x.id})
      && FirstById(WithoutIds(ResolvedAll(due, filtered, family), seen))
         == [x] + FirstById(WithoutIds(ResolvedAll(due[1..], filtered, family), seen + {x.id}))
  {
    var x := Resolve(due[0], filtered, family).value;
    var rest := ResolvedAll(due[1..], filtered, family);
    assert ResolvedAll(due, filtered, family) == [x] + rest;
    assert ([x] + rest)[1..] == rest;
    var w := WithoutIds([x] + rest, seen);
    assert w == [x] + WithoutIds(rest, seen);
    assert w[0] == x && w[1..] == WithoutIds(rest, seen);
    WithoutIdsTwice(rest, seen, {x.id});
  }

  /** One step of the due-first pass over an entry that selects nothing. */
  lemma SkippedDueStep(due: seq<DueEntry>, filtered: seq<Item>, family: seq<Item>, seen: set<string>)
    requires due != []
    requires Resolve(due[0], filtered, family).None? || Resolve(due[0], filtered, family).value.id in seen
    ensures PrioritiseDue(due, filtered, family, seen) == PrioritiseDue(due[1..], filtered, family, seen)
    ensures WithoutIds(ResolvedAll(due, filtered, family), seen)
         == WithoutIds(ResolvedAll(due[1..], filtered, family), seen)
  {
    var rest := ResolvedAll(due[1..], filtered, family);
    var r := Resolve(due[0], filtered, family);
    if r.Some? {
      assert ResolvedAll(due, filtered, family) == [r.value] + rest;
      assert ([r.value] + rest)[1..] == rest;
    } else {
      assert ResolvedAll(due, filtered, family) == [] + rest == rest;
    }
  }

  /** The fill-in pass is a prefix of the first-by-id unseen candidates; it has
      room for `n - count` of them, but always for at least one. */
  lemma {:induction false} FillInIsTake(candidates: seq<Item>, count: int, seen: set<string>, n: int)
    ensures FillIn(candidates, count, seen, n)
         == Take(FirstById(WithoutIds(candidates, seen)), Max(n - count, 1))
    decreases |candidates|
  {
    if candidates != [] {
      var c := candidates[0];
      var rest := candidates[1..];
      if c.id in seen {
        assert WithoutIds(candidates, seen) == WithoutIds(rest, seen);
        FillInIsTake(rest, count, seen, n);
      } else {
        var w := WithoutIds(candidates, seen);
        assert w == [c] + WithoutIds(rest, seen);
        assert w[1..] == WithoutIds(rest, seen);
        WithoutIdsTwice(rest, seen, {c.id});
        var tail := FirstById(WithoutIds(rest, seen + {c.id}));
        assert FirstById(w) == [c] + tail;
        TakeCons(c, tail, Max(n - count, 1));
        if count + 1 < n {
          FillInIsTake(rest, count + 1, seen + {c.id}, n);
        } else {
          assert Take(tail, 0) == [];
        }
      }
    }
  }

  /** The pool as a reference definition: the first `n` of the distinct resolved due
      items followed by the distinct remaining candidates (sensitivity-filtered
      knowledge, then family). A negative `n` cuts after at most one fill-in item. */
  lemma ItemsPoolSpec(knowledge: seq<Item>, family: seq<Item>, due: seq<DueEntry>,
                      n: int, includeSensitive: bool)
    ensures var filtered := SensitiveFiltered(knowledge, includeSensitive);
      var d := FirstById(ResolvedAll(due, filtered, family));
      var rest := FirstById(WithoutIds(filtered + family, Ids(d)));
      && (0 <= n ==> ItemsPool(knowledge, family, due, n, includeSensitive) == Take(d + rest, n))
      && (n < 0 ==> ItemsPool(knowledge, family, due, n, includeSensitive) == Take(d + Take(rest, 1), n))
  {
    var filtered := SensitiveFiltered(knowledge, includeSensitive);
    var r := ResolvedAll(due, filtered, family);
    PrioritiseDueIsFirstById(due, filtered, family, {});
    WithoutNoIds(r);
    var d := FirstById(r);
    assert DueFirst(due, filtered, family) == d;
    var rest := FirstById(WithoutIds(filtered + family, Ids(d)));
    FillInIsTake(filtered + family, |d|, Ids(d), n);
    if |d| < n {
      TakeAfterPrefix(d, rest, n);
    } else if 0 <= n {
      TakeOfLongPrefix(d, FillIn(filtered + family, |d|, Ids(d), n), n);
      TakeOfLongPrefix(d, rest, n);
    }
  }

  /** With sensitive items excluded and a family list of family members only, no
      pooled item has sensitivity 2 or more. */
  lemma SensitiveItemsWithheld(knowledge: seq<Item>, family: seq<Item>, due: seq<DueEntry>, n: int)
    requires forall x :: x in family ==> x.Family?
    ensures forall x :: x in ItemsPool(knowledge, family, due, n, false) ==> SensitivityOf(x) < SensitiveLevel
  {
  }

  // ----- fallback drafting -----

  /** What the prompt names: the label of a knowledge item (Python's `None` when
      it is empty), the full name of a family member. */
  function PromptSubject(x: Item): (s: string)
    ensures x.Knowledge? && x.labelText != "" ==> s == x.labelText
    ensures x.Knowledge? && x.labelText == "" ==> s == Null.Repr()
    ensures x.Family? ==> s == x.fullName
  {
    if x.Knowledge? then (if x.labelText != "" then x.labelText else Null.Repr()) else x.fullName
  }

  /** The expected answer: the value of a knowledge item (null when empty), the full
      name of a family member. */
  function AnswerOf(x: Item): (v: Value)
    ensures x.Knowledge? ==> (v.Null? <==> x.value == "")
    ensures x.Knowledge? && v.Str? ==> v.s == x.value
    ensures x.Family? ==> v == Str(x.fullName)
  {
    if x.Knowledge? then (if x.value != "" then Str(x.value) else Null) else Str(x.fullName)
  }

  /** The one multiple-choice draft made for a pooled item. */
  function FallbackDraft(x: Item): (d: Draft)
    ensures d.questionType == MultipleChoice && d.difficulty == 1
    ensures d.acceptableAnswers == Some([])
    ensures d.options == Some([d.correctAnswer, Str(NotSure)])
    ensures d.correctAnswer == AnswerOf(x)
    ensures d.prompt == "Who/What is " + PromptSubject(x) + "?"
    ensures d.itemType == Some(Str(KnowledgeType)) <==> x.Knowledge?
    ensures d.itemType == Some(Str(FamilyType)) <==> x.Family?
    ensures d.itemId == Some(Str(x.id))
  {
    var answer := AnswerOf(x);
    Draft(MultipleChoice, "Who/What is " + PromptSubject(x) + "?", Some([answer, Str(NotSure)]),
          answer, Some(Str(if x.Knowledge? then KnowledgeType else FamilyType)), Some(Str(x.id)),
          1, Some([]))
  }

  /** The drafts of `_fallback_questions(knowledge, family, n)`: one per item of
      `(knowledge + family)[:n]`, in order. */
  function FallbackQuestions(knowledge: seq<Item>, family: seq<Item>, n: int): (qs: seq<Draft>)
    ensures |qs| <= |knowledge| + |family|
    ensures 0 <= n ==> |qs| == Min(n, |knowledge| + |family|)
    ensures forall i :: 0 <= i < |qs| ==> qs[i] == FallbackDraft((knowledge + family)[i])
  {
    var items := Take(knowledge + family, n);
    seq(|items|, i requires 0 <= i < |items| => FallbackDraft(items[i]))
  }

  /** Choosing the first option of a fallback draft is judged correct; choosing
      "Not sure" is judged correct only when the answer has the same key. */
  lemma FirstOptionIsCorrect(x: Item)
    ensures var d := FallbackDraft(x);
      && EvaluateAnswer(d.questionType, d.correctAnswer, d.options.value[0].Repr(), d.acceptableAnswers)
      && (EvaluateAnswer(d.questionType, d.correctAnswer, d.options.value[1].Repr(), d.acceptableAnswers)
          <==> Normalise(d.correctAnswer.Repr()) == Normalise(NotSure))
  {
  }

  /** Every fallback draft names its item, so answering it updates that item's mastery. */
  lemma FallbackDraftNamesItem(x: Item)
    requires x.id != ""
    ensures var d := FallbackDraft(x);
      d.itemType.Some? && d.itemType.value.Str? && d.itemType.value.s != ""
      && d.itemId == Some(Str(x.id))
  {
  }

  // ----- the generator -----

  /** What the external question generator did: not configured, failed (a client
      error or unparsable JSON), or replied with a list of questions. */
  datatype GeneratorReply = NotConfigured | Failed | Replied(questions: seq<Draft>)

  /** The questions for a quiz: the generator's reply when it produced one, else the
      fallback drafts of the pool. */
  function GenerateQuizQuestions(knowledge: seq<Item>, family: seq<Item>, due: seq<DueEntry>,
                                 n: int, includeSensitive: bool, reply: GeneratorReply): (qs: seq<Draft>)
    ensures reply.Replied? ==> qs == reply.questions
    ensures !reply.Replied? ==>
      var pool := ItemsPool(knowledge, family, due, n, includeSensitive);
      && |qs| <= |pool|
      && (0 <= n ==> |qs| == |pool| && |qs| <= n)
      && (forall i :: 0 <= i < |qs| ==> qs[i] == FallbackDraft(pool[i]))
      && (forall i, j :: 0 <= i < j < |qs| ==> qs[i].itemId != qs[j].itemId)
  {
    match reply
    case Replied(questions) => questions
    case _ =>
      var pool := ItemsPool(knowledge, family, due, n, includeSensitive);
      var qs := FallbackQuestions(pool, [], n);
      assert pool + [] == pool;
      qs
  }
}
