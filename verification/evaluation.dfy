/** Answer evaluation (quiz.py `evaluate_answer`): both sides are rendered with
    `str()`, stripped of surrounding whitespace and lower-cased before comparing;
    recall questions also accept a listed alternate. */
module Evaluation {
  import opened Base
  import opened Records

  const Recall: string := "recall"

  /** The characters Python's `str.isspace` accepts among those this model covers:
      tab through carriage return, the separators U+001C..U+001F, space, NEL and NBSP. */
  predicate IsSpace(c: char) {
    var k := c as int;
    (9 <= k <= 13) || (28 <= k <= 32) || k == 0x85 || k == 0xA0
  }

  predicate IsUpper(c: char) { 'A' <= c <= 'Z' }

  /** ASCII lower-casing of one character. */
  function LowerChar(c: char): (d: char)
    ensures !IsUpper(d)
    ensures !IsUpper(c) ==> d == c
    ensures IsSpace(d) <==> IsSpace(c)
  {
    if IsUpper(c) then (c as int + 32) as char else c
  }

  function Lower(s: string): (r: string)
    ensures |r| == |s|
    ensures forall i :: 0 <= i < |s| ==> r[i] == LowerChar(s[i])
  {
    if s == [] then [] else [LowerChar(s[0])] + Lower(s[1..])
  }

  /** `lstrip()`: the suffix of `s` left after dropping its leading whitespace. */
  function StripLeft(s: string): (r: string)
    ensures |r| <= |s| && r == s[|s| - |r|..]
    ensures forall k :: 0 <= k < |s| - |r| ==> IsSpace(s[k])
    ensures r == [] || !IsSpace(r[0])
  {
    if s != [] && IsSpace(s[0]) then StripLeft(s[1..]) else s
  }

  /** `rstrip()`: the prefix of `s` left after dropping its trailing whitespace. */
  function StripRight(s: string): (r: string)
    ensures |r| <= |s| && r == s[..|r|]
    ensures forall k :: |r| <= k < |s| ==> IsSpace(s[k])
    ensures r == [] || !IsSpace(r[|r| - 1])
  {
    if s != [] && IsSpace(s[|s| - 1]) then StripRight(s[..|s| - 1]) else s
  }

  /** `strip()`: neither end of the result is whitespace. */
  function Strip(s: string): (r: string)
    ensures |r| <= |s|
    ensures r == [] || (!IsSpace(r[0]) && !IsSpace(r[|r| - 1]))
  {
    StripRight(StripLeft(s))
  }

  /** The comparison key of an answer: `str(x).strip().lower()`. */
  function Normalise(s: string): (r: string)
    ensures r == [] || (!IsSpace(r[0]) && !IsSpace(r[|r| - 1]))
    ensures forall i :: 0 <= i < |r| ==> !IsUpper(r[i])
  {
    Lower(Strip(s))
  }

  /** The alternates list as the evaluator sees it: a missing list is empty. */
  function Alternates(acceptable: Option<seq<string>>): seq<string> {
    if acceptable.Some? then acceptable.value else []
  }

  /** The alternates as compared: lower-cased but, unlike the answers, not stripped. */
  function LowerAll(alts: seq<string>): (r: seq<string>)
    ensures |r| == |alts|
    ensures forall i :: 0 <= i < |alts| ==> r[i] == Lower(alts[i])
  {
    if alts == [] then [] else [Lower(alts[0])] + LowerAll(alts[1..])
  }

  function EvaluateAnswer(questionType: string, correctAnswer: Value, userAnswer: string,
                          acceptableAnswers: Option<seq<string>>): (ok: bool)
    ensures questionType != Recall ==>
      (ok <==> Normalise(userAnswer) == Normalise(correctAnswer.Repr()))
    ensures questionType == Recall ==>
      (ok <==> Normalise(userAnswer) == Normalise(correctAnswer.Repr())
               || exists i :: 0 <= i < |Alternates(acceptableAnswers)|
                    && Lower(Alternates(acceptableAnswers)[i]) == Normalise(userAnswer))
  {
    var ua := Normalise(userAnswer);
    if questionType == Recall then
      Normalise(correctAnswer.Repr()) == ua || ua in LowerAll(Alternates(acceptableAnswers))
    else
      ua == Normalise(correctAnswer.Repr())
  }

  // ----- properties of the normalisation -----

  /** Lower-casing twice is lower-casing once. */
  lemma LowerIdempotent(s: string)
    ensures Lower(Lower(s)) == Lower(s)
  {
    assert forall i :: 0 <= i < |s| ==> Lower(Lower(s))[i] == Lower(s)[i];
  }

  lemma {:induction false} LowerStripLeft(s: string)
    ensures StripLeft(Lower(s)) == Lower(StripLeft(s))
    decreases |s|
  {
    if s != [] {
      assert Lower(s)[0] == LowerChar(s[0]);
      if IsSpace(s[0]) {
        assert Lower(s)[1..] == Lower(s[1..]);
        LowerStripLeft(s[1..]);
      }
    }
  }

  lemma {:induction false} LowerStripRight(s: string)
    ensures StripRight(Lower(s)) == Lower(StripRight(s))
    decreases |s|
  {
    if s != [] {
      assert Lower(s)[|s| - 1] == LowerChar(s[|s| - 1]);
      if IsSpace(s[|s| - 1]) {
        assert Lower(s)[..|s| - 1] == Lower(s[..|s| - 1]);
        LowerStripRight(s[..|s| - 1]);
      }
    }
  }

  /** Lower-casing and stripping commute, because lower-casing never turns a
      character into whitespace or whitespace into something else. */
  lemma LowerStripCommute(s: string)
    ensures Strip(Lower(s)) == Lower(Strip(s))
  {
    LowerStripLeft(s);
    LowerStripRight(StripLeft(s));
  }

  lemma StripOfStripped(s: string)
    requires s == [] || (!IsSpace(s[0]) && !IsSpace(s[|s| - 1]))
    ensures Strip(s) == s
  {
  }

  /** Normalising twice is normalising once. */
  lemma NormaliseIdempotent(s: string)
    ensures Normalise(Normalise(s)) == Normalise(s)
  {
    var t := Strip(s);
    LowerStripCommute(t);
    StripOfStripped(t);
    LowerIdempotent(t);
  }

  /** The comparison key does not see letter case. */
  lemma NormaliseIgnoresCase(s: string)
    ensures Normalise(Lower(s)) == Normalise(s)
  {
    LowerStripCommute(s);
    LowerIdempotent(Strip(s));
  }

  lemma {:induction false} StripLeftOfSnoc(s: string, c: char)
    requires IsSpace(c)
    ensures StripRight(StripLeft(s + [c])) == StripRight(StripLeft(s))
    decreases |s|
  {
    if s == [] {
      assert StripLeft([c]) == StripLeft([c][1..]);
      assert [c][1..] == [];
    } else if IsSpace(s[0]) {
      assert (s + [c])[1..] == s[1..] + [c];
      StripLeftOfSnoc(s[1..], c);
    } else {
      assert StripLeft(s + [c]) == s + [c];
      assert StripRight(s + [c]) == StripRight((s + [c])[..|s|]);
      assert (s + [c])[..|s|] == s;
    }
  }

  /** The comparison key does not see surrounding whitespace. */
  lemma NormaliseIgnoresPadding(c: char, s: string)
    requires IsSpace(c)
    ensures Normalise([c] + s) == Normalise(s)
    ensures Normalise(s + [c]) == Normalise(s)
  {
    assert ([c] + s)[1..] == s;
    StripLeftOfSnoc(s, c);
  }

  /** A word of lower-case letters is its own comparison key. */
  lemma NormaliseOfPlainWord(s: string)
    requires forall i :: 0 <= i < |s| ==> 'a' <= s[i] <= 'z'
    ensures Normalise(s) == s
  {
    if s != [] {
      StripOfStripped(s);
    }
    assert forall i :: 0 <= i < |s| ==> Lower(s)[i] == s[i];
  }

  // ----- properties of the evaluator -----

  /** Two answers with the same comparison key get the same verdict, for every
      question type and alternates list. */
  lemma EvaluateDependsOnlyOnKey(questionType: string, correctAnswer: Value, u1: string, u2: string,
                                 acceptable: Option<seq<string>>)
    requires Normalise(u1) == Normalise(u2)
    ensures EvaluateAnswer(questionType, correctAnswer, u1, acceptable)
         == EvaluateAnswer(questionType, correctAnswer, u2, acceptable)
  {
  }

  /** Whitespace before an answer does not change its comparison key. */
  lemma {:induction false} NormaliseIgnoresLeading(p: string, s: string)
    requires forall i :: 0 <= i < |p| ==> IsSpace(p[i])
    ensures Normalise(p + s) == Normalise(s)
  {
    if p != [] {
      var t := p[1..] + s;
      assert p + s == [p[0]] + t;
      NormaliseIgnoresPadding(p[0], t);
      assert forall i :: 0 <= i < |p[1..]| ==> IsSpace(p[1..][i]) by {
        forall i | 0 <= i < |p[1..]|
          ensures IsSpace(p[1..][i])
        {
          assert p[1..][i] == p[i + 1];
        }
      }
      NormaliseIgnoresLeading(p[1..], s);
    } else {
      assert p + s == s;
    }
  }

  /** Whitespace after an answer does not change its comparison key. */
  lemma {:induction false} NormaliseIgnoresTrailing(s: string, q: string)
    requires forall i :: 0 <= i < |q| ==> IsSpace(q[i])
    ensures Normalise(s + q) == Normalise(s)
  {
    if q != [] {
      var init := q[..|q| - 1];
      var t := s + init;
      assert s + q == t + [q[|q| - 1]];
      NormaliseIgnoresPadding(q[|q| - 1], t);
      assert forall i :: 0 <= i < |init| ==> IsSpace(init[i]) by {
        forall i | 0 <= i < |init|
          ensures IsSpace(init[i])
        {
          assert init[i] == q[i];
        }
      }
      NormaliseIgnoresTrailing(s, init);
    } else {
      assert s + q == s;
    }
  }

  /** Whitespace around a string does not change its comparison key. */
  lemma PaddedKey(p: string, x: string, q: string)
    requires forall i :: 0 <= i < |p| ==> IsSpace(p[i])
    requires forall i :: 0 <= i < |q| ==> IsSpace(q[i])
    ensures Normalise(p + x + q) == Normalise(x)
  {
    assert p + x + q == p + (x + q);
    NormaliseIgnoresLeading(p, x + q);
    NormaliseIgnoresTrailing(x, q);
  }

  /** Two strings equal up to letter case have the same comparison key. */
  lemma CaseVariantKey(x: string, c: string)
    requires Lower(x) == Lower(c)
    ensures Normalise(x) == Normalise(c)
  {
    NormaliseIgnoresCase(x);
    NormaliseIgnoresCase(c);
  }

  /** A padded case variant of a string has that string's comparison key. */
  lemma PaddedVariantKey(c: string, p: string, x: string, q: string)
    requires forall i :: 0 <= i < |p| ==> IsSpace(p[i])
    requires forall i :: 0 <= i < |q| ==> IsSpace(q[i])
    requires Lower(x) == Lower(c)
    ensures Normalise(p + x + q) == Normalise(c)
  {
    PaddedKey(p, x, q);
    CaseVariantKey(x, c);
  }

  /** An answer that spells the correct answer with any letter case and any
      surrounding whitespace is accepted, whatever the question type. */
  lemma CanonicalAnswerAccepted(questionType: string, correctAnswer: Value, p: string, x: string, q: string,
                                acceptable: Option<seq<string>>)
    requires forall i :: 0 <= i < |p| ==> IsSpace(p[i])
    requires forall i :: 0 <= i < |q| ==> IsSpace(q[i])
    requires Lower(x) == Lower(correctAnswer.Repr())
    ensures EvaluateAnswer(questionType, correctAnswer, p + x + q, acceptable)
  {
    PaddedVariantKey(correctAnswer.Repr(), p, x, q);
  }

  /** Questions other than recall ignore the alternates list entirely. */
  lemma NonRecallIgnoresAlternates(questionType: string, correctAnswer: Value, userAnswer: string,
                                   a1: Option<seq<string>>, a2: Option<seq<string>>)
    requires questionType != Recall
    ensures EvaluateAnswer(questionType, correctAnswer, userAnswer, a1)
         == EvaluateAnswer(questionType, correctAnswer, userAnswer, a2)
  {
  }

  /** A recall question accepts, in any letter case and with any surrounding
      whitespace, each listed alternate that has no whitespace at its ends. */
  lemma RecallAcceptsAlternate(correctAnswer: Value, userAnswer: string, alts: seq<string>, i: int)
    requires 0 <= i < |alts|
    requires Strip(alts[i]) == alts[i]
    requires Normalise(userAnswer) == Normalise(alts[i])
    ensures EvaluateAnswer(Recall, correctAnswer, userAnswer, Some(alts))
  {
    assert Lower(alts[i]) == Normalise(userAnswer);
  }

  /** Because alternates are lower-cased but not stripped, one that starts with
      whitespace can never equal a normalised answer, so it never matches. */
  lemma PaddedAlternateNeverMatches(alt: string, userAnswer: string)
    requires alt != [] && IsSpace(alt[0])
    ensures Lower(alt) != Normalise(userAnswer)
  {
    assert IsSpace(Lower(alt)[0]);
  }
}
