/** Option and Result, and the few sequence helpers the rest of the model shares. */
module Base {

  datatype Option<+T> = None | Some(value: T)

  datatype Result<+T, +E> = Ok(value: T) | Err(error: E)

  function Min(a: int, b: int): int { if a <= b then a else b }

  function Max(a: int, b: int): int { if a <= b then b else a }

  function MinReal(a: real, b: real): real { if a <= b then a else b }

  function MaxReal(a: real, b: real): real { if a <= b then b else a }

  /** Python's slice `s[:n]`: a non-negative `n` keeps at most `n` leading
      elements, a negative `n` drops `-n` trailing ones. */
  function Take<T>(s: seq<T>, n: int): (r: seq<T>)
    ensures r <= s
    ensures 0 <= n ==> |r| == Min(n, |s|)
    ensures n < 0 ==> |r| == Max(|s| + n, 0)
  {
    if 0 <= n then (if n < |s| then s[..n] else s)
    else if |s| + n > 0 then s[..|s| + n]
    else []
  }

  /** Taking `n` from a sequence that already has a prefix of length `n` or more
      sees only that prefix. */
  lemma TakeOfLongPrefix<T>(a: seq<T>, b: seq<T>, n: int)
    requires 0 <= n <= |a|
    ensures Take(a + b, n) == Take(a, n)
  {
    assert (a + b)[..n] == a[..n];
  }

  /** Cutting the tail before or after prepending `a` gives the same prefix of length `n`. */
  lemma TakeAfterPrefix<T>(a: seq<T>, b: seq<T>, n: int)
    requires |a| <= n
    ensures Take(a + Take(b, n - |a|), n) == Take(a + b, n)
  {
    if n - |a| < |b| {
      assert a + b[..n - |a|] == (a + b)[..n];
    }
  }

  /** Taking a positive count from a sequence with a known head keeps that head. */
  lemma TakeCons<T>(c: T, s: seq<T>, m: int)
    requires 1 <= m
    ensures Take([c] + s, m) == [c] + Take(s, m - 1)
  {
    if m - 1 < |s| {
      assert ([c] + s)[..m] == [c] + s[..m - 1];
    }
  }

  /** The elements of `s` that satisfy `keep`, in their original order. */
  function Filter<T(!new)>(s: seq<T>, keep: T -> bool): (r: seq<T>)
    ensures |r| <= |s|
    ensures forall x :: x in r <==> x in s && keep(x)
  {
    if s == [] then []
    else (if keep(s[0]) then [s[0]] else []) + Filter(s[1..], keep)
  }

  /** Filtering distributes over concatenation, so the order of the kept elements is the input order. */
  lemma {:induction false} FilterConcat<T(!new)>(s: seq<T>, t: seq<T>, keep: T -> bool)
    ensures Filter(s + t, keep) == Filter(s, keep) + Filter(t, keep)
  {
    if s == [] {
      assert s + t == t;
    } else {
      assert (s + t)[1..] == s[1..] + t;
      FilterConcat(s[1..], t, keep);
    }
  }

  /** Python's `part / max(whole, 1)`, the guarded average the core uses for
      accuracies, scores and mean response times. */
  function Ratio(part: int, whole: int): real {
    part as real / Max(whole, 1) as real
  }

  /** A part over its whole lies in [0, 1]. */
  lemma RatioBounds(part: int, whole: int)
    requires 0 <= part <= whole
    ensures 0.0 <= Ratio(part, whole) <= 1.0
  {
    var d := Max(whole, 1) as real;
    var q := part as real / d;
    assert q * d == part as real;
    assert part as real <= d;
    if q > 1.0 {
      assert q * d > 1.0 * d;
    }
  }

  /** The whole over itself is 1. */
  lemma RatioOfWhole(whole: int)
    requires 1 <= whole
    ensures Ratio(whole, whole) == 1.0
  {
    var d := whole as real;
    assert Max(whole, 1) == whole;
    assert d / d == 1.0;
  }
}
