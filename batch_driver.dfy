/**
 * The per-row branch of the driver loop in learn.py.  Each row of the
 * report holds an instrument, its page link and month code, and the two
 * result cells the loop writes with `df.at[index, ...]`.  Whether the
 * screenshot was captured and what OCR text came back are inputs.
 */
module BatchDriver {
  import opened Wrappers
  import opened PyStrings
  import opened DigitTokens
  import opened FieldParser
  import opened Screenshot

  /** A report cell; `Missing` is pandas' empty value (NaN or `None`). */
  datatype Cell = Missing | Text(s: string)

  datatype ReportRow = ReportRow(
    instrument: string, link: string, monthCode: string,
    totalVolume: Cell, atClose: Cell)

  /** What the loop body does for one row. */
  datatype RowOutcome =
    | Write(totalVolume: Cell, atClose: Cell)  // the two cells it stores
    | Raised                                   // the parser's `IndexError` escapes the loop

  const NoLink: string := "NONE"
  const ScreenshotFailed: string := "Screenshot Failed"
  const NoText: string := "N/A"

  /** The driver calls `capture_screenshot` with its default of three attempts. */
  const DefaultRetries: int := 3

  /** `if extracted_text:` is false for `None` and for the empty string. */
  predicate HasText(extracted: Option<string>)
  {
    extracted.Some? && extracted.value != ""
  }

  /** The decision of the loop body for one row. */
  function Decide(link: string, monthCode: string, captured: bool, extracted: Option<string>): (o: RowOutcome)
    ensures o.Raised? ==> link != NoLink && captured && HasText(extracted)
  {
    if link == NoLink then Write(Text(NoLink), Text(NoLink))
    else if !captured then Write(Text(ScreenshotFailed), Text(ScreenshotFailed))
    else if !HasText(extracted) then Write(Text(NoText), Text(NoText))
    else
      match ParseTotalVolumeAndAtClose(extracted.value, monthCode)
      case Found(tv, ac) => Write(Text(tv), Text(ac))
      case NotFound => Write(Missing, Missing)
      case IndexError => Raised
  }

  /**
   * The cells written tell which branch ran: a parsed value is a string of
   * digits, so it never looks like one of the three sentinels.
   */
  lemma SentinelsIdentifyBranch(link: string, monthCode: string, captured: bool, extracted: Option<string>)
    ensures var o := Decide(link, monthCode, captured, extracted);
      (o.Write? && o.totalVolume == Text(NoLink) <==> link == NoLink) &&
      (o.Write? && o.totalVolume == Text(ScreenshotFailed) <==> link != NoLink && !captured) &&
      (o.Write? && o.totalVolume == Text(NoText) <==> link != NoLink && captured && !HasText(extracted)) &&
      (o.Write? && o.totalVolume in {Text(NoLink), Text(ScreenshotFailed), Text(NoText)} ==> o.atClose == o.totalVolume)
  {
    if link != NoLink && captured && HasText(extracted) {
      ParsedFieldsAreDigits(extracted.value, monthCode);
      assert !AllDigits(NoLink) by { assert !IsDigit(NoLink[0]); }
      assert !AllDigits(ScreenshotFailed) by { assert !IsDigit(ScreenshotFailed[0]); }
      assert !AllDigits(NoText) by { assert !IsDigit(NoText[0]); }
    }
  }

  /**
   * With a real link, a capture, and text whose first qualifying line is
   * line k, the row receives tokens 4 and len-2 of that line when it has
   * five or more tokens, and the `IndexError` escapes otherwise.
   */
  lemma ParsedRow(link: string, monthCode: string, text: string, k: nat)
    requires link != NoLink && text != ""
    requires FirstQualifying(SplitLines(text), monthCode, k)
    ensures var t := Tokens(SplitLines(text)[k]);
      Decide(link, monthCode, true, Some(text)) ==
        if |t| >= 5 then Write(Text(t[4]), Text(t[|t| - 2])) else Raised
  {
    ParseOutcomes(text, monthCode, k);
  }

  /**
   * With a real link, a capture, and text, both cells are left empty
   * exactly when no line both contains the month code and has two or more
   * digit tokens.
   */
  lemma UnparsedRow(link: string, monthCode: string, text: string)
    requires link != NoLink && text != ""
    ensures Decide(link, monthCode, true, Some(text)) == Write(Missing, Missing) <==>
      forall k :: 0 <= k < |SplitLines(text)| ==> !Qualifies(SplitLines(text)[k], monthCode)
  {
    var lines, p := SplitLines(text), ParseTotalVolumeAndAtClose(text, monthCode);
    assert HasText(Some(text));
    if forall k :: 0 <= k < |lines| ==> !Qualifies(lines[k], monthCode) {
      assert p == NotFound;
    } else {
      var k :| 0 <= k < |lines| && Qualifies(lines[k], monthCode);
      assert p.Found? || p.IndexError?;
      assert Decide(link, monthCode, true, Some(text)) != Write(Missing, Missing);
      assert Qualifies(SplitLines(text)[k], monthCode);
      assert !(forall j :: 0 <= j < |SplitLines(text)| ==> !Qualifies(SplitLines(text)[j], monthCode));
    }
  }

  /** The row after its outcome is stored; when the parser raises nothing is stored. */
  function Applied(row: ReportRow, o: RowOutcome): (r: ReportRow)
    ensures r.instrument == row.instrument && r.link == row.link && r.monthCode == row.monthCode
  {
    match o
    case Write(tv, ac) => row.(totalVolume := tv, atClose := ac)
    case Raised => row
  }

  /** The DataFrame the loop fills in. */
  class Report {
    var rows: seq<ReportRow>

    /** The frame as built: the result columns are still empty. */
    constructor (instruments: seq<string>, links: seq<string>, codes: seq<string>)
      requires |instruments| == |links| == |codes|
      ensures |rows| == |instruments|
      ensures forall i :: 0 <= i < |rows| ==>
        rows[i] == ReportRow(instruments[i], links[i], codes[i], Missing, Missing)
    {
      rows := seq(|instruments|, i requires 0 <= i < |instruments| =>
        ReportRow(instruments[i], links[i], codes[i], Missing, Missing));
    }

    /** The outcome the loop body reaches for row `index`. */
    function OutcomeAt(index: nat, outcome: nat -> AttemptOutcome, extracted: Option<string>): RowOutcome
      requires index < |rows|
      reads this
    {
      Decide(rows[index].link, rows[index].monthCode, CaptureSucceeds(DefaultRetries, outcome), extracted)
    }

    /**
     * One iteration of the loop: no capture for a `'NONE'` link, otherwise
     * capture, then store the decided cells in row `index` only.
     */
    method ProcessRow(index: nat, outcome: nat -> AttemptOutcome, extracted: Option<string>)
      returns (raised: bool, attempts: nat)
      requires index < |rows|
      modifies this
      ensures old(rows[index].link) == NoLink ==> attempts == 0
      ensures raised == old(OutcomeAt(index, outcome, extracted)).Raised?
      ensures rows == old(rows)[index := Applied(old(rows[index]), old(OutcomeAt(index, outcome, extracted)))]
    {
      var row := rows[index];
      var captured := false;
      attempts := 0;
      if row.link != NoLink {
        var sleeps, openCalled;
        captured, attempts, sleeps, openCalled := CaptureScreenshot(DefaultRetries, outcome);
      }
      var o := Decide(row.link, row.monthCode, captured, extracted);
      raised := o.Raised?;
      rows := rows[index := Applied(row, o)];
    }

    /**
     * The whole loop.  Rows are processed in order; an `IndexError` from
     * the parser ends the run at that row, leaving it and the rows after
     * it as they were.
     */
    method Run(outcomes: seq<nat -> AttemptOutcome>, texts: seq<Option<string>>)
      returns (raisedAt: Option<nat>)
      requires |outcomes| == |rows| && |texts| == |rows|
      modifies this
      ensures |rows| == |old(rows)|
      ensures raisedAt.Some? ==>
        raisedAt.value < |rows| &&
        old(OutcomeAt(raisedAt.value, outcomes[raisedAt.value], texts[raisedAt.value])).Raised?
      ensures forall i :: 0 <= i < |rows| && (raisedAt.None? || i < raisedAt.value) ==>
        !old(OutcomeAt(i, outcomes[i], texts[i])).Raised? &&
        rows[i] == Applied(old(rows[i]), old(OutcomeAt(i, outcomes[i], texts[i])))
      ensures forall i :: raisedAt.Some? && raisedAt.value <= i < |rows| ==> rows[i] == old(rows[i])
    {
      var i := 0;
      while i < |rows|
        invariant 0 <= i <= |rows| == |old(rows)|
        invariant forall j :: 0 <= j < |rows| ==>
          rows[j].link == old(rows[j]).link && rows[j].monthCode == old(rows[j]).monthCode
        invariant forall j :: 0 <= j < i ==>
          !old(OutcomeAt(j, outcomes[j], texts[j])).Raised? &&
          rows[j] == Applied(old(rows[j]), old(OutcomeAt(j, outcomes[j], texts[j])))
        invariant forall j :: i <= j < |rows| ==> rows[j] == old(rows[j])
      {
        var raised, attempts := ProcessRow(i, outcomes[i], texts[i]);
        if raised {
          return Some(i);
        }
        i := i + 1;
      }
      raisedAt := None;
    }
  }
}
