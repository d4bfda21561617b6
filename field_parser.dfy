/**
 * `parse_total_volume_and_at_close` (learn.py): find the first line that
 * contains the month code and has at least two digit tokens, and read
 * total volume at token 4 and at-close at token len-2.  The guard asks
 * for two tokens but the read of token 4 needs five, so a qualifying line
 * with two to four tokens raises `IndexError`; the model returns that as
 * an explicit outcome.
 */
module FieldParser {
  import opened PyStrings
  import opened DigitTokens

  datatype ParseResult =
    | Found(totalVolume: string, atClose: string)  // the pair returned from the matched line
    | NotFound                                     // `(None, None)`
    | IndexError                                   // `match[4]` on a line with 2 to 4 tokens

  /** The line both contains the code and has at least two digit tokens. */
  predicate Qualifies(line: string, code: string)
  {
    Contains(line, code) && |Tokens(line)| >= 2
  }

  /** Line k qualifies and no earlier line does. */
  ghost predicate FirstQualifying(lines: seq<string>, code: string, k: int)
  {
    0 <= k < |lines| && Qualifies(lines[k], code) &&
    forall j :: 0 <= j < k ==> !Qualifies(lines[j], code)
  }

  /** Reading `match[4]` and `match[-2]` from the tokens of the matched line. */
  function Pick(tokens: seq<string>): (r: ParseResult)
    requires |tokens| >= 2
    ensures r != NotFound
  {
    if |tokens| > 4 then Found(tokens[4], tokens[|tokens| - 2]) else IndexError
  }

  /** The `for line in lines` search with its early return. */
  function ParseLines(lines: seq<string>, code: string): (r: ParseResult)
    ensures r == NotFound <==> forall k :: 0 <= k < |lines| ==> !Qualifies(lines[k], code)
  {
    if |lines| == 0 then NotFound
    else if Qualifies(lines[0], code) then Pick(Tokens(lines[0]))
    else
      assert forall k :: 1 <= k < |lines| ==> lines[k] == lines[1..][k - 1];
      ParseLines(lines[1..], code)
  }

  /** A result other than `(None, None)` is read from the first qualifying line. */
  lemma {:induction false} ParseLinesFirst(lines: seq<string>, code: string) returns (k: nat)
    requires ParseLines(lines, code) != NotFound
    ensures FirstQualifying(lines, code, k)
    ensures ParseLines(lines, code) == Pick(Tokens(lines[k]))
  {
    if Qualifies(lines[0], code) {
      k := 0;
    } else {
      var k' := ParseLinesFirst(lines[1..], code);
      k := k' + 1;
      assert forall j :: 1 <= j < |lines| ==> lines[j] == lines[1..][j - 1];
    }
  }

  /**
   * `parse_total_volume_and_at_close(text, month_code)`: `(None, None)`
   * exactly when no line both contains the code and has two or more tokens.
   */
  function ParseTotalVolumeAndAtClose(text: string, code: string): (r: ParseResult)
    ensures r == NotFound <==> forall k :: 0 <= k < |SplitLines(text)| ==> !Qualifies(SplitLines(text)[k], code)
  {
    var lines := SplitLines(text);
    assert forall k :: 0 <= k < |lines| ==> lines[k] == SplitLines(text)[k];
    ParseLines(lines, code)
  }

  /**
   * Every outcome of the parser, stated against the first qualifying line:
   * five or more tokens give tokens 4 and len-2, two to four give the
   * `IndexError`, and no qualifying line gives `(None, None)`.
   */
  lemma ParseOutcomes(text: string, code: string, k: nat)
    requires FirstQualifying(SplitLines(text), code, k)
    ensures var t := Tokens(SplitLines(text)[k]);
      ParseTotalVolumeAndAtClose(text, code) ==
        if |t| >= 5 then Found(t[4], t[|t| - 2]) else IndexError
  {
    var lines := SplitLines(text);
    var k' := ParseLinesFirst(lines, code);
    FirstQualifyingUnique(lines, code, k, k');
  }

  /** There is at most one first qualifying line. */
  lemma FirstQualifyingUnique(lines: seq<string>, code: string, k: int, k': int)
    requires FirstQualifying(lines, code, k) && FirstQualifying(lines, code, k')
    ensures k == k'
  {
  }

  /** With exactly six tokens, index 4 and index -2 are the same token. */
  lemma SixTokensCoincide(tokens: seq<string>)
    requires |tokens| == 6
    ensures Pick(tokens) == Found(tokens[4], tokens[4])
  {
  }

  /** A parsed field is a non-empty string of ASCII digits. */
  lemma ParsedFieldsAreDigits(text: string, code: string)
    ensures ParseTotalVolumeAndAtClose(text, code).Found? ==>
      var r := ParseTotalVolumeAndAtClose(text, code);
      |r.totalVolume| > 0 && AllDigits(r.totalVolume) && |r.atClose| > 0 && AllDigits(r.atClose)
  {
    var lines := SplitLines(text);
    var r := ParseLines(lines, code);
    if r.Found? {
      var k := ParseLinesFirst(lines, code);
    }
  }
}
