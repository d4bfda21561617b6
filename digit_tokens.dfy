/**
 * `re.findall(r'\b(\d+)\b', line)` with ASCII classes: `\d` is `0-9`,
 * a word character is `[A-Za-z0-9_]`, and `\b` holds between two
 * positions exactly one of which is a word character (outside the line
 * counts as non-word).  The scanner follows the regex engine: at each
 * position it tries `\b`, a greedy `\d+` and a final `\b` with
 * backtracking, and after a match it resumes at the match's end.
 */
module DigitTokens {
  import opened Wrappers


  predicate IsDigit(c: char)
  {
    '0' <= c <= '9'
  }

  predicate IsWordChar(c: char)
  {
    IsDigit(c) || ('a' <= c <= 'z') || ('A' <= c <= 'Z') || c == '_'
  }

  predicate AllDigits(s: string)
  {
    forall k :: 0 <= k < |s| ==> IsDigit(s[k])
  }

  /** Position k of `s` holds a word character (false outside `s`). */
  predicate WordAt(s: string, k: int)
  {
    0 <= k < |s| && IsWordChar(s[k])
  }

  /** The regex assertion `\b` at position k (between s[k-1] and s[k]). */
  predicate Boundary(s: string, k: int)
  {
    WordAt(s, k - 1) != WordAt(s, k)
  }

  /** The end of the greedy `\d+` that starts at i. */
  function DigitRunEnd(s: string, i: nat): (j: nat)
    requires i <= |s|
    ensures i <= j <= |s|
    ensures forall k :: i <= k < j ==> IsDigit(s[k])
    ensures j == |s| || !IsDigit(s[j])
    decreases |s| - i
  {
    if i < |s| && IsDigit(s[i]) then DigitRunEnd(s, i + 1) else i
  }

  /**
   * The final `\b` after `\d+` spanning [i, j): tried at j, then at each
   * shorter end down to i + 1.
   */
  function BacktrackEnd(s: string, i: nat, j: nat): (e: Option<nat>)
    requires i < j <= |s|
    ensures e.Some? ==> i < e.value <= j
    decreases j
  {
    if Boundary(s, j) then Some(j)
    else if j - 1 > i then BacktrackEnd(s, i, j - 1)
    else None
  }

  /** The end of the match of `\b(\d+)\b` that starts at i, if any. */
  function MatchAt(s: string, i: nat): (m: Option<nat>)
    requires i <= |s|
    ensures m.Some? ==> i < m.value <= |s|
  {
    if Boundary(s, i) && i < |s| && IsDigit(s[i]) then BacktrackEnd(s, i, DigitRunEnd(s, i))
    else None
  }

  datatype Span = Span(start: nat, end: nat)

  /** The spans `findall` reports when scanning from position i. */
  function SpansFrom(s: string, i: nat): (sp: seq<Span>)
    requires i <= |s|
    ensures forall k :: 0 <= k < |sp| ==> i <= sp[k].start < sp[k].end <= |s|
    decreases |s| - i
  {
    if i == |s| then []
    else
      match MatchAt(s, i)
      case Some(j) => [Span(i, j)] + SpansFrom(s, j)
      case None => SpansFrom(s, i + 1)
  }

  /** `re.findall(r'\b(\d+)\b', s)`: every token is a non-empty string of digits. */
  function Tokens(s: string): (ts: seq<string>)
    ensures forall k :: 0 <= k < |ts| ==> |ts[k]| > 0 && AllDigits(ts[k])
  {
    var sp := SpansFrom(s, 0);
    SpansFromExact(s, 0);
    seq(|sp|, k requires 0 <= k < |sp| => s[sp[k].start..sp[k].end])
  }

  /**
   * The reference notion: [a, b) is a maximal run of word characters and
   * every character in it is a digit.
   */
  ghost predicate IsDigitRun(s: string, a: int, b: int)
  {
    0 <= a < b <= |s| &&
    (forall k :: a <= k < b ==> IsDigit(s[k])) &&
    !WordAt(s, a - 1) && !WordAt(s, b)
  }

  ghost predicate StrictlyOrdered(sp: seq<Span>)
  {
    forall p, q :: 0 <= p < q < |sp| ==> sp[p].end < sp[q].start
  }

  /** Inside a digit run there is no `\b`, so backtracking only succeeds at the run's end. */
  lemma {:induction false} BacktrackOnlyAtEnd(s: string, i: nat, j: nat)
    requires i < j <= |s|
    requires forall k :: i <= k < j ==> IsDigit(s[k])
    ensures BacktrackEnd(s, i, j) == if Boundary(s, j) then Some(j) else None
  {
    if !Boundary(s, j) && j - 1 > i {
      assert WordAt(s, j - 2) && WordAt(s, j - 1);
      BacktrackOnlyAtEnd(s, i, j - 1);
    }
  }

  /** A match found by the scanner is a maximal digit run. */
  lemma MatchIsDigitRun(s: string, i: nat)
    requires i <= |s|
    ensures MatchAt(s, i).Some? ==> IsDigitRun(s, i, MatchAt(s, i).value)
  {
    if Boundary(s, i) && i < |s| && IsDigit(s[i]) {
      var j := DigitRunEnd(s, i);
      BacktrackOnlyAtEnd(s, i, j);
      if Boundary(s, j) {
        assert WordAt(s, j - 1);
      }
    }
  }

  /** The scanner finds every maximal digit run that begins where it looks. */
  lemma DigitRunMatches(s: string, a: nat, b: nat)
    requires IsDigitRun(s, a, b)
    ensures MatchAt(s, a) == Some(b)
  {
    assert WordAt(s, a);
    var j := DigitRunEnd(s, a);
    assert j == b;
    BacktrackOnlyAtEnd(s, a, j);
    assert WordAt(s, b - 1);
  }

  /**
   * From position i the scanner reports exactly the maximal digit runs
   * that start at or after i, left to right.
   */
  lemma {:induction false} SpansFromExact(s: string, i: nat)
    requires i <= |s|
    ensures forall k :: 0 <= k < |SpansFrom(s, i)| ==>
      i <= SpansFrom(s, i)[k].start && IsDigitRun(s, SpansFrom(s, i)[k].start, SpansFrom(s, i)[k].end)
    ensures StrictlyOrdered(SpansFrom(s, i))
    ensures forall a, b :: i <= a && IsDigitRun(s, a, b) ==> Span(a, b) in SpansFrom(s, i)
    decreases |s| - i
  {
    if i < |s| {
      MatchIsDigitRun(s, i);
      forall a, b | a == i && IsDigitRun(s, a, b)
        ensures MatchAt(s, i) == Some(b)
      {
        DigitRunMatches(s, a, b);
      }
      match MatchAt(s, i)
      case Some(j) =>
        SpansFromExact(s, j);
        var rest := SpansFrom(s, j);
        assert SpansFrom(s, i) == [Span(i, j)] + rest;
        forall a, b | i < a && IsDigitRun(s, a, b)
          ensures j <= a
        {
          assert !WordAt(s, a - 1);
        }
        forall k | 0 <= k < |rest|
          ensures j < rest[k].start
        {
          assert !WordAt(s, rest[k].start - 1);
          assert WordAt(s, j - 1);
        }
      case None =>
        SpansFromExact(s, i + 1);
    }
  }

  /**
   * `Tokens` lists, left to right, the text of every maximal run of word
   * characters that is made only of digits, and nothing else.
   */
  lemma TokensExact(s: string)
    ensures |Tokens(s)| == |SpansFrom(s, 0)|
    ensures forall k :: 0 <= k < |Tokens(s)| ==>
      IsDigitRun(s, SpansFrom(s, 0)[k].start, SpansFrom(s, 0)[k].end) &&
      Tokens(s)[k] == s[SpansFrom(s, 0)[k].start..SpansFrom(s, 0)[k].end]
    ensures StrictlyOrdered(SpansFrom(s, 0))
    ensures forall a, b :: IsDigitRun(s, a, b) ==> Span(a, b) in SpansFrom(s, 0)
  {
    SpansFromExact(s, 0);
  }

  /** A position where no match can start is skipped. */
  lemma SpansSkip(s: string, i: nat)
    requires i < |s| && !(Boundary(s, i) && IsDigit(s[i]))
    ensures SpansFrom(s, i) == SpansFrom(s, i + 1)
  {
  }

  /** A maximal digit run is reported and scanning resumes at its end. */
  lemma SpansTake(s: string, a: nat, b: nat)
    requires IsDigitRun(s, a, b)
    ensures SpansFrom(s, a) == [Span(a, b)] + SpansFrom(s, b)
  {
    DigitRunMatches(s, a, b);
  }

  /** The "24" inside the month code "Z24" is not a token. */
  lemma MonthCodeHasNoToken()
    ensures Tokens("Z24") == []
  {
    var s := "Z24";
    SpansSkip(s, 0);
    SpansSkip(s, 1);
    SpansSkip(s, 2);
  }

  /** Each digit group of "1,234" is a separate token. */
  lemma ThousandsSeparatorSplits()
    ensures Tokens("1,234") == ["1", "234"]
  {
    var s := "1,234";
    assert IsDigitRun(s, 0, 1);
    SpansTake(s, 0, 1);
    SpansSkip(s, 1);
    assert IsDigitRun(s, 2, 5);
    SpansTake(s, 2, 5);
    assert SpansFrom(s, 0) == [Span(0, 1), Span(2, 5)];
    assert s[0..1] == "1";
    assert s[2..5] == "234";
  }
}
