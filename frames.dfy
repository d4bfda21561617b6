/**
 * The pandas operations c.py uses to build its table: an empty
 * `pd.DataFrame()`, a one-column frame `pd.DataFrame({header: body})`
 * appended with `pd.concat([df, current], axis=1)`, and
 * `df.fillna("")`.  Every frame here has the default index 0..height-1,
 * so `concat` aligns rows by position and pads the shorter side with NaN.
 */
module Frames {

  datatype Cell = NaN | Str(s: string)

  /** Columns side by side, each with a header and `height` cells. */
  datatype Frame = Frame(headers: seq<string>, cols: seq<seq<Cell>>, height: nat)

  ghost predicate WellFormed(f: Frame)
  {
    |f.headers| == |f.cols| && forall c :: 0 <= c < |f.cols| ==> |f.cols[c]| == f.height
  }

  /** `pd.DataFrame()`. */
  const EmptyFrame: Frame := Frame([], [], 0)

  /** A column padded with NaN to n cells. */
  function Pad(col: seq<Cell>, n: nat): (r: seq<Cell>)
    requires |col| <= n
    ensures |r| == n
    ensures forall k :: 0 <= k < n ==> r[k] == if k < |col| then col[k] else NaN
  {
    col + seq(n - |col|, _ => NaN)
  }

  function StrCells(body: seq<string>): (r: seq<Cell>)
    ensures |r| == |body| && forall k :: 0 <= k < |body| ==> r[k] == Str(body[k])
  {
    seq(|body|, k requires 0 <= k < |body| => Str(body[k]))
  }

  function Max(a: nat, b: nat): nat
  {
    if a >= b then a else b
  }

  /** `pd.concat([f, pd.DataFrame({header: body})], axis=1)`. */
  function Concat(f: Frame, header: string, body: seq<string>): (r: Frame)
    requires WellFormed(f)
    ensures WellFormed(r)
  {
    var h := Max(f.height, |body|);
    Frame(f.headers + [header],
      seq(|f.cols|, c requires 0 <= c < |f.cols| => Pad(f.cols[c], h)) + [Pad(StrCells(body), h)],
      h)
  }

  /** `f.fillna(v)`: every NaN cell becomes `v`. */
  function FillNa(f: Frame, v: string): (r: Frame)
    requires WellFormed(f)
    ensures WellFormed(r)
    ensures r.headers == f.headers && r.height == f.height
  {
    Frame(f.headers,
      seq(|f.cols|, c requires 0 <= c < |f.cols| =>
        seq(f.height, k requires 0 <= k < f.height => if f.cols[c][k].NaN? then Str(v) else f.cols[c][k])),
      f.height)
  }

  /** The length of the longest body (0 when there is none). */
  function MaxLen(bodies: seq<seq<string>>): (m: nat)
    ensures forall c :: 0 <= c < |bodies| ==> |bodies[c]| <= m
    ensures |bodies| == 0 ==> m == 0
    ensures |bodies| > 0 ==> exists c :: 0 <= c < |bodies| && |bodies[c]| == m
  {
    if |bodies| == 0 then 0
    else
      var init := bodies[..|bodies| - 1];
      assert forall c :: 0 <= c < |init| ==> init[c] == bodies[c];
      Max(MaxLen(init), |bodies[|bodies| - 1]|)
  }

  /** The reference table: the bodies side by side, each padded with NaN to the longest. */
  function Assemble(headers: seq<string>, bodies: seq<seq<string>>): (f: Frame)
    requires |headers| == |bodies|
    ensures WellFormed(f)
    ensures f.headers == headers && |f.cols| == |bodies| && f.height == MaxLen(bodies)
  {
    var h := MaxLen(bodies);
    Frame(headers, seq(|bodies|, c requires 0 <= c < |bodies| => Pad(StrCells(bodies[c]), h)), h)
  }

  /** Starting from `pd.DataFrame()` is starting from the table of no columns. */
  lemma AssembleNone()
    ensures Assemble([], []) == EmptyFrame
  {
  }

  /** Appending one column with `concat` gives the reference table of one more column. */
  lemma ConcatAssemble(headers: seq<string>, bodies: seq<seq<string>>, header: string, body: seq<string>)
    requires |headers| == |bodies|
    ensures Concat(Assemble(headers, bodies), header, body) == Assemble(headers + [header], bodies + [body])
  {
    var bodies' := bodies + [body];
    assert bodies'[..|bodies'| - 1] == bodies;
    var f := Assemble(headers, bodies);
    var r := Concat(f, header, body);
    var e := Assemble(headers + [header], bodies');
    assert r.height == e.height;
    assert |r.cols| == |e.cols|;
    forall c | 0 <= c < |r.cols|
      ensures r.cols[c] == e.cols[c]
    {
      if c < |bodies| {
        assert r.cols[c] == Pad(f.cols[c], r.height);
        assert e.cols[c] == Pad(StrCells(bodies'[c]), e.height);
        assert bodies'[c] == bodies[c];
      } else {
        assert bodies'[c] == body;
      }
    }
  }

  /**
   * After `fillna("")` the table has as many rows as the longest body, and
   * a cell beyond its column's body is the empty string.
   */
  lemma FilledCells(headers: seq<string>, bodies: seq<seq<string>>)
    requires |headers| == |bodies|
    ensures var f := FillNa(Assemble(headers, bodies), "");
      f.headers == headers && |f.cols| == |bodies| && f.height == MaxLen(bodies) &&
      forall c, k :: 0 <= c < |bodies| && 0 <= k < f.height ==>
        f.cols[c][k] == Str(if k < |bodies[c]| then bodies[c][k] else "")
  {
  }
}
