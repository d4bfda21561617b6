/**
 * The parts of Python's `str` that the scraper relies on: `split('\n')`,
 * the substring test `code in line`, and `strip()`.  Characters are
 * compared as code points; `strip()` removes the ASCII whitespace that
 * Python's `str.isspace` accepts (non-ASCII whitespace is not modelled).
 */
module PyStrings {

  /** `s.split('\n')`: the pieces between the separators, in order. */
  function SplitLines(s: string): (pieces: seq<string>)
    ensures |pieces| >= 1
    ensures forall k :: 0 <= k < |pieces| ==> '\n' !in pieces[k]
  {
    if |s| == 0 then [""]
    else
      var rest := SplitLines(s[1..]);
      if s[0] == '\n' then [""] + rest
      else [[s[0]] + rest[0]] + rest[1..]
  }

  /** `'\n'.join(pieces)`, the inverse of `SplitLines`. */
  function JoinLines(pieces: seq<string>): (s: string)
    requires |pieces| >= 1
  {
    if |pieces| == 1 then pieces[0]
    else pieces[0] + "\n" + JoinLines(pieces[1..])
  }

  /** Joining the pieces of a split gives back the text. */
  lemma {:induction false} JoinSplitLines(s: string)
    ensures JoinLines(SplitLines(s)) == s
  {
    if |s| > 0 {
      var rest := SplitLines(s[1..]);
      JoinSplitLines(s[1..]);
      if s[0] == '\n' {
        assert SplitLines(s)[1..] == rest;
        assert s == [s[0]] + s[1..];
      } else {
        if |rest| == 1 {
          assert SplitLines(s) == [[s[0]] + rest[0]];
        } else {
          assert SplitLines(s)[1..] == rest[1..];
          assert JoinLines(rest) == rest[0] + "\n" + JoinLines(rest[1..]);
        }
        assert s == [s[0]] + s[1..];
      }
    }
  }

  /** Splitting a join of newline-free pieces gives back the pieces. */
  lemma {:induction false} SplitJoinLines(pieces: seq<string>)
    requires |pieces| >= 1
    requires forall k :: 0 <= k < |pieces| ==> '\n' !in pieces[k]
    ensures SplitLines(JoinLines(pieces)) == pieces
  {
    if |pieces| == 1 {
      SplitNoNewline(pieces[0]);
    } else {
      SplitJoinLines(pieces[1..]);
      SplitPrefixThenNewline(pieces[0], JoinLines(pieces[1..]));
    }
  }

  /** A text without a newline is a single piece. */
  lemma {:induction false} SplitNoNewline(s: string)
    requires '\n' !in s
    ensures SplitLines(s) == [s]
  {
    if |s| > 0 {
      assert s[0] in s;
      assert forall c :: c in s[1..] ==> c in s;
      SplitNoNewline(s[1..]);
      assert s == [s[0]] + s[1..];
    }
  }

  /** Splitting `p + "\n" + t` for a newline-free `p` puts `p` first. */
  lemma {:induction false} SplitPrefixThenNewline(p: string, t: string)
    requires '\n' !in p
    ensures SplitLines(p + "\n" + t) == [p] + SplitLines(t)
  {
    if |p| == 0 {
      assert p + "\n" + t == "\n" + t;
      assert ("\n" + t)[1..] == t;
    } else {
      assert p[0] in p;
      assert forall c :: c in p[1..] ==> c in p;
      SplitPrefixThenNewline(p[1..], t);
      assert (p + "\n" + t)[1..] == p[1..] + "\n" + t;
      assert p == [p[0]] + p[1..];
    }
  }

  /** `code` occurs in `line` starting at position k. */
  predicate OccursAt(line: string, code: string, k: nat)
  {
    k + |code| <= |line| && line[k..k + |code|] == code
  }

  /** Python's `code in line`; the empty code occurs in every line. */
  predicate Contains(line: string, code: string)
  {
    exists k: nat :: k <= |line| && OccursAt(line, code, k)
  }

  /**
   * `code in line` holds exactly when the line is some text, then the code,
   * then some text; in particular the empty code is in every line, and a
   * contained code is no longer than the line.
   */
  lemma ContainsIffInfix(line: string, code: string)
    ensures Contains(line, code) <==> exists p: string, q: string :: |p| + |code| + |q| == |line| && line == p + code + q
    ensures Contains(line, "")
    ensures Contains(line, code) ==> |code| <= |line|
  {
    assert OccursAt(line, "", 0);
    if Contains(line, code) {
      var k: nat :| k <= |line| && OccursAt(line, code, k);
      var p, q := line[..k], line[k + |code|..];
      assert line == p + code + q;
    }
    if exists p: string, q: string :: |p| + |code| + |q| == |line| && line == p + code + q {
      var p: string, q: string :| |p| + |code| + |q| == |line| && line == p + code + q;
      assert line[|p|..|p| + |code|] == code;
      assert OccursAt(line, code, |p|);
    }
  }

  /**
   * The characters `str.isspace` accepts within ASCII: space, tab, line
   * feed, vertical tab, form feed, carriage return (0x09-0x0d) and the
   * separators 0x1c-0x1f.
   */
  predicate IsSpace(c: char)
  {
    c == ' ' || '\t' <= c <= '\r' || '\U{1C}' <= c <= '\U{1F}'
  }

  /** `s.lstrip()`: `s` without its leading whitespace. */
  function TrimStart(s: string): (r: string)
    ensures |r| <= |s| && r == s[|s| - |r|..]
    ensures forall k :: 0 <= k < |s| - |r| ==> IsSpace(s[k])
    ensures r == "" || !IsSpace(r[0])
  {
    if |s| > 0 && IsSpace(s[0]) then TrimStart(s[1..]) else s
  }

  /** `s.rstrip()`: `s` without its trailing whitespace. */
  function TrimEnd(s: string): (r: string)
    ensures |r| <= |s| && r == s[..|r|]
    ensures forall k :: |r| <= k < |s| ==> IsSpace(s[k])
    ensures r == "" || !IsSpace(r[|r| - 1])
  {
    if |s| > 0 && IsSpace(s[|s| - 1]) then TrimEnd(s[..|s| - 1]) else s
  }

  /** `s.strip()`: neither end of the result is whitespace. */
  function Strip(s: string): (r: string)
    ensures |r| <= |s|
    ensures r == "" || (!IsSpace(r[0]) && !IsSpace(r[|r| - 1]))
  {
    var t := TrimStart(s);
    var r := TrimEnd(t);
    assert r == "" || r[0] == t[0];
    r
  }

  /**
   * `Strip` keeps a contiguous slice of `s`, removes only whitespace, and
   * leaves no whitespace at either end of the result.
   */
  lemma StripSlice(s: string) returns (a: nat, b: nat)
    ensures a <= b <= |s| && Strip(s) == s[a..b]
    ensures forall k :: 0 <= k < a ==> IsSpace(s[k])
    ensures forall k :: b <= k < |s| ==> IsSpace(s[k])
    ensures Strip(s) == "" || (!IsSpace(Strip(s)[0]) && !IsSpace(Strip(s)[|Strip(s)| - 1]))
  {
    var t := TrimStart(s);
    var r := TrimEnd(t);
    a := |s| - |t|;
    b := a + |r|;
    assert r == s[a..][..|r|] == s[a..b];
    forall k | b <= k < |s|
      ensures IsSpace(s[k])
    {
      assert s[k] == t[k - a];
    }
  }

  /** Stripping twice is stripping once. */
  lemma StripIdempotent(s: string)
    ensures Strip(Strip(s)) == Strip(s)
  {
    var r := Strip(s);
    var _, _ := StripSlice(s);
    if r != "" {
      assert TrimStart(r) == r;
      assert TrimEnd(r) == r;
    }
  }
}
