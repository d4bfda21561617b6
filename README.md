# A verified model of the CME volume scraper's text logic

The repository scrapes trading volumes from CME Group web pages. It
screenshots a page, crops the table, runs Tesseract OCR and reads numbers
out of the text. This project models the three pieces of that pipeline
whose behaviour the code itself states, and proves their properties in
Dafny.

**The field parser** is `parse_total_volume_and_at_close` in `learn.py`
(modules `PyStrings`, `DigitTokens`, `FieldParser`).
- The OCR text is split on `'\n'`, modelled exactly by `SplitLines`.
- The parser takes the first line that contains the month code and has at
  least two digit tokens.
- A digit token is a match of `\b(\d+)\b`. `SpansFrom` models the regex scan
  itself: a greedy digit run, backtracking to a word boundary, and the
  resume point after each match. `TokensExact` proves that the tokens are
  exactly the maximal, all-digit runs of word characters, read left to
  right.
- The parser returns token 4 and token len-2. It guards with `len >= 2` but
  reads index 4, so a qualifying line with two to four tokens raises
  `IndexError`. The model makes that error an explicit outcome,
  `ParseResult.IndexError`, next to `Found` and `NotFound` (`(None, None)`).

**The scraper's retry and row policies** (modules `Screenshot`, `BatchDriver`):
- `capture_screenshot` is a `while` loop over attempts. What each attempt
  observes is an input: a status code and whether the streamed write
  completed, or an exception from the request.
- The driver loop writes two cells of one report row per iteration, in
  place. The report is a class whose `rows` field the loop updates. The
  parser's `IndexError` is not caught in `learn.py`, so `Run` stops at the
  row that raises.

**Column reconstruction** in `c.py` (modules `Indices`, `Frames`, `Columns`):
1. The OCR records are filtered by confidence into the index-aligned
   `coords` and `ocrText` lists.
2. Tokens are grouped by cluster label, visiting labels in `np.unique`
   order, and clusters of at most `min_size` tokens are dropped.
3. The surviving clusters are stably sorted by mean x.
4. Each cluster becomes a column ordered top to bottom by y. The first
   stripped text is the header and the rest is the body.
5. The columns are appended with `pd.concat(axis=1)`, which pads with NaN,
   and `fillna("")` turns the padding into empty strings.

The clustering result is a parameter: one label per token, computed from
the x-coordinates only, as `c.py` clusters the points `(x, 0)`.

Mean x-coordinates are compared exactly, by cross-multiplying integer sums
and counts. Because the cluster list is built in ascending label order and
`list.sort` is stable, the sorted order is by mean, then by label
(`Precedes`).

`np.argsort` is not stable by default. `ArgsortBy` is therefore specified
only as a permutation whose y-coordinates do not decrease, and ties are
left open.

Several steps are proved against a reference function:
- the in-place sort `SortByMean` against the insertion-sort function
  `SortedByMean`;
- the cluster loop `KeepLargeClusters` against `LargeStats`;
- the table built by repeated `concat` against `Assemble`, the columns
  side by side and padded to the longest.

The properties of each reference function are proved as separate lemmas.

## Model

| member | source | states |
|---|---|---|
| PyStrings.SplitLines | learn.py:60 | `text.split('\n')` yields at least one piece, and no piece contains a newline |
| PyStrings.JoinSplitLines | learn.py:60 | joining the pieces of a split with `'\n'` gives back the original text |
| PyStrings.SplitJoinLines | learn.py:60 | splitting a `'\n'`-join of newline-free pieces gives back exactly those pieces |
| PyStrings.SplitNoNewline | learn.py:60 | a text without a newline splits into itself alone |
| PyStrings.SplitPrefixThenNewline | learn.py:60 | splitting `p + "\n" + t` for newline-free `p` gives `p` followed by the pieces of `t` |
| PyStrings.ContainsIffInfix | learn.py:63 | `month_code in line` holds exactly when the line is some text, the code, then some text; the empty code is in every line, and a contained code is no longer than the line |
| PyStrings.TrimStart | c.py:196 | `lstrip` keeps a suffix, removes only whitespace, and leaves no leading whitespace |
| PyStrings.TrimEnd | c.py:196 | `rstrip` keeps a prefix, removes only whitespace, and leaves no trailing whitespace |
| PyStrings.Strip | c.py:196 | `strip()` never lengthens its input, and the result neither starts nor ends with whitespace |
| PyStrings.StripSlice | c.py:196 | `strip()` yields a slice `s[a..b]`; everything cut off is whitespace, and the result neither starts nor ends with whitespace |
| PyStrings.StripIdempotent | c.py:196 | stripping twice equals stripping once |
| DigitTokens.BacktrackEnd | learn.py:65 | a boundary found by backtracking inside a digit run lies within that run |
| DigitTokens.MatchAt | learn.py:65 | a match that starts at `i` ends after `i` and within the line |
| DigitTokens.SpansFrom | learn.py:65 | every reported match lies in the line at or after the scan position, and is non-empty |
| DigitTokens.BacktrackOnlyAtEnd | learn.py:65 | backtracking `\d+` to a `\b` succeeds only at the end of the maximal digit run |
| DigitTokens.MatchIsDigitRun | learn.py:65 | every match the scanner finds is a maximal all-digit run of word characters |
| DigitTokens.DigitRunMatches | learn.py:65 | every maximal all-digit run is matched from its first position, up to its end |
| DigitTokens.Tokens | learn.py:65 | every token `re.findall(r'\b(\d+)\b', line)` returns is a non-empty string of digits |
| DigitTokens.SpansFromExact | learn.py:65 | from position i, `findall` reports exactly the maximal digit runs starting at or after i, strictly left to right |
| DigitTokens.TokensExact | learn.py:65 | the tokens are the texts of all maximal digit runs of the line, in order, and nothing else |
| DigitTokens.SpansTake | learn.py:65 | a maximal digit run is reported, and scanning resumes at its end |
| DigitTokens.MonthCodeHasNoToken | learn.py:65 | the "24" in "Z24" is not a token |
| DigitTokens.ThousandsSeparatorSplits | learn.py:65 | "1,234" gives the two tokens "1" and "234" |
| FieldParser.Pick | learn.py:66-69 | reading `match[4]` and `match[-2]` from a line with two or more tokens never gives `(None, None)` |
| FieldParser.ParseLines | learn.py:61-70 | the result is `(None, None)` if and only if no line both contains the code and has two or more tokens |
| FieldParser.ParseLinesFirst | learn.py:61-69 | any other result is read from the first qualifying line; earlier lines that contain the code but have fewer tokens are skipped |
| FieldParser.ParseTotalVolumeAndAtClose | learn.py:58-70 | the parser returns `(None, None)` if and only if no line of `text.split('\n')` both contains the month code and has two or more digit tokens |
| FieldParser.ParseOutcomes | learn.py:58-70 | with first qualifying line k: five or more tokens give `(t[4], t[len-2])`, and two to four tokens give `IndexError` |
| FieldParser.SixTokensCoincide | learn.py:67-68 | with exactly six tokens, total volume and at-close are the same token |
| FieldParser.ParsedFieldsAreDigits | learn.py:65-69 | a parsed total volume and at-close are non-empty strings of digits |
| Screenshot.CaptureScreenshot | learn.py:16-34 | returns True if and only if one of the first `retries` attempts gets HTTP 200 and completes the write; stops at the first success; fails after exactly max(retries, 0) attempts; sleeps once after every failed attempt; reaches the `open` of the output file if and only if some attempt got a 200 |
| Screenshot.AllAttemptsNotFound | learn.py:16-34 | with three attempts that all get HTTP 404, the capture fails after three attempts without opening the file |
| BatchDriver.Decide | learn.py:114-143 | the row can raise only when it has a link, a capture and non-empty text, that is, only inside the parser |
| BatchDriver.SentinelsIdentifyBranch | learn.py:114-143 | "NONE" is written if and only if the link is 'NONE'; "Screenshot Failed" if and only if the capture failed; "N/A" if and only if the OCR text is None or empty; whichever sentinel is written goes into both Total Volume and At Close |
| BatchDriver.ParsedRow | learn.py:128-134 | with a link, a capture and text whose first qualifying line has tokens `t`, the row gets `t[4]` and `t[len-2]` when there are five or more tokens, and the `IndexError` escapes otherwise |
| BatchDriver.UnparsedRow | learn.py:128-134 | with a link, a capture and text, both cells are left empty if and only if no line both contains the month code and has two or more digit tokens |
| BatchDriver.Applied | learn.py:133-143 | storing a row's outcome leaves its instrument, link and month code unchanged |
| BatchDriver.Report.constructor | learn.py:106 | the report holds one row per instrument, with both result cells empty |
| BatchDriver.Report.ProcessRow | learn.py:110-143 | a 'NONE' link makes no capture attempt; only row `index` changes, and it receives the decided cells |
| BatchDriver.Report.Run | learn.py:109-143 | rows are processed in order; every row before the first `IndexError` receives its cells; the raising row and all later rows stay unwritten |
| Indices.Where | c.py:156 | `np.where(cond)[0]` lists, in strictly ascending order, only positions whose element satisfies the condition |
| Indices.WhereComplete | c.py:156 | every position whose element satisfies the condition is listed by `np.where` |
| Indices.Insert | c.py:153 | inserting into a strictly ascending list keeps it strictly ascending and adds exactly the new value |
| Indices.Unique | c.py:153 | `np.unique` is strictly ascending and holds exactly the values of its input |
| Indices.ArgsortBy | c.py:179-180 | `idxs[np.argsort(yCoords)]` is a permutation of `idxs` whose keys do not decrease |
| Indices.SiftDown | c.py:180 | one insertion step keeps the array a permutation and extends the sorted prefix by one |
| Frames.Pad | c.py:202 | padding keeps the column's cells and fills the remaining rows with NaN |
| Frames.Concat | c.py:202 | `pd.concat([df, current], axis=1)` gives a frame whose columns all have one common height |
| Frames.FillNa | c.py:206 | `fillna` keeps the frame's shape |
| Frames.MaxLen | c.py:202 | the concatenated height is the length of the longest body, and 0 when there are no columns |
| Frames.Assemble | c.py:169-202 | the reference table has one column of uniform height per body |
| Frames.AssembleNone | c.py:169 | `pd.DataFrame()` is the table of no columns |
| Frames.ConcatAssemble | c.py:197-202 | appending one column with `concat` gives the reference table with that column added |
| Frames.FilledCells | c.py:202-206 | after `fillna("")` the table has as many rows as the longest body; each cell is the body's text, or "" beyond the body's end |
| Columns.KeptIndices | c.py:125-132 | every kept position is a record whose confidence is above `min_conf` |
| Columns.FilterByConfidence | c.py:114-136 | `coords` and `ocrText` have equal length and hold, in original order, the box and text of exactly the records with `conf > min_conf` |
| Columns.IndicesOf | c.py:156 | `np.where(labels == l)[0]` lists only positions of tokens labelled `l` |
| Columns.IndicesOfNonEmpty | c.py:153-156 | every label from `np.unique` has at least one token |
| Columns.StatOf | c.py:156-163 | a cluster summary carries its label and counts exactly the tokens with that label |
| Columns.LargeStatsSound | c.py:153-164 | each kept summary is the summary of its own label, that label is one of those visited, and its cluster has more than `min_size` tokens |
| Columns.LargeStatsAscending | c.py:153-164 | visiting labels in ascending order keeps the summaries in ascending label order |
| Columns.LargeStatsComplete | c.py:153-164 | every visited label whose cluster has more than `min_size` tokens gets a summary |
| Columns.KeepLargeClusters | c.py:150-164 | the first loop over `np.unique(labels)` builds exactly the list given by `LargeStats` |
| Columns.Inserted | c.py:168 | one stable insertion step adds one element, which goes last unless it moves in front of the previous last |
| Columns.SortedByMean | c.py:168 | the stable sort keeps the length |
| Columns.InsertedPermutes | c.py:168 | an insertion step adds exactly the inserted element |
| Columns.InsertedInOrder | c.py:168 | inserting a cluster labelled above all others into an ordered list keeps it ordered by (mean, label) |
| Columns.SortedByMeanExact | c.py:153-168 | on clusters in ascending label order, the stable sort is a permutation, and neighbours are ordered by mean, ties by label |
| Columns.SortByMean | c.py:168 | `sortedClusters.sort(key=mean)` in place leaves the array equal to `SortedByMean` of its old contents |
| Columns.InsertByMean | c.py:168 | moving one element left past the strictly larger means performs exactly one `Inserted` step on the prefix, and leaves the rest unchanged |
| Columns.MeanOrder | c.py:163-168 | comparing by cross-multiplied sums and counts is comparing the means `sum / count`, so `Precedes` is the order by mean x, ties by label |
| Columns.PrecedesTransitive | c.py:163-168 | the (mean, label) order is transitive on non-empty clusters |
| Columns.PrecedesChain | c.py:168 | if neighbours are in order, every pair is in order |
| Columns.Cells | c.py:196 | the stripped texts of a column: one per token of its order |
| Columns.Headers | c.py:196-197 | one header per column |
| Columns.Bodies | c.py:196-197 | one body per column, one cell shorter than that column's order |
| Columns.TableSnoc | c.py:196-202 | one `concat` of the next cluster's header and body gives the reference table with one more column |
| Columns.Built | c.py:169-202 | the frame grown by one `concat` per column is well formed: one header and one column of common height per column |
| Columns.BuiltIsAssembled | c.py:169-202 | growing the frame by `concat`, starting from `pd.DataFrame()`, gives the reference table of the columns side by side |
| Columns.ColumnOf | c.py:175-197 | for a label that occurs, the column order is a non-empty, y-sorted permutation of that label's tokens; the header is the stripped text of the first token and the body the stripped texts of the rest |
| Columns.BuildTable | c.py:172-206 | each column order is a permutation of its cluster's tokens with y non-decreasing; the table equals `fillna("")` of the columns side by side, each headed by its top token's stripped text |
| Columns.ClusterOrderExact | c.py:150-168 | the layout has one summary per cluster with more than `min_size` tokens and none for the others; summaries are ordered left to right by mean x, ties by label, with no label twice |
| Columns.OrderClusters | c.py:150-168 | the first loop followed by the in-place sort yields exactly `ClusterOrder` |
| Columns.ReconstructTable | c.py:150-206 | the columns are `ClusterOrder`, each a y-sorted permutation of its cluster, and the table is their filled assembly |
| Columns.PermutedClusters | c.py:168 | reordering the kept clusters preserves each summary's meaning and completeness; sorted neighbours give sorted pairs and distinct labels |
| Columns.OccursOnce | c.py:156 | a position occurs exactly once in the strictly ascending output of `np.where` |
| Columns.InColumnIff | c.py:175-180 | a column holds a token if and only if the token carries that column's label |
| Columns.KeptTokenOnce | c.py:153-202 | a token of a kept cluster appears in exactly one column, exactly once |
| Columns.DroppedTokenAbsent | c.py:159 | a token of a cluster of at most `min_size` tokens appears in no column |
| Columns.ColumnSizes | c.py:159-197 | every column has more than `min_size` tokens, so with `min_size` 2 a header and at least two body cells |
| Columns.ExtractTable | c.py:114-206 | from OCR records to the filled table: the confidence filter, then the clustering as a parameter, then the layout above |

## Left out

- HTTP requests and streamed file writes are left out because they are I/O. Each attempt's status code and whether its write completed are inputs instead.
- `time.sleep` is not modelled, because it is a clock. The model only counts the sleeps.
- `urllib.parse.quote_plus` and the URL built from it are left out because they are a library call that affects no decision.
- Image handling is left out because it is all library code working on images:
  - opening, cropping and saving images with PIL;
  - the OpenCV table locator;
  - Tesseract OCR, whose output is the model's input.
- The whole of `c.py`'s own single-shot `capture_screenshot` and crop step is left out, because it is I/O.
- The float conversion `int(float(conf))` is left out; confidences are integers, because this is float parsing.
- Agglomerative clustering is left out because it is scikit-learn code. The labels are a parameter of `ExtractTable`.
- Columns.ExtractTable: scikit-learn's `AgglomerativeClustering.fit` (c.py:146) refuses fewer than two samples, so with zero or one confident token `c.py` raises. The model's clustering parameter accepts any number of points, and `ExtractTable` then returns a table (empty, or with at most one column).
- Columns.ClusterOrderExact: `np.average` is a float mean. The model compares the exact rational means by cross-multiplying, so it does not reproduce float rounding when two different means round to the same float, or the reverse.
- Random colours and drawing rectangles on the image are left out, because they are image side effects driven by randomness.
- Printing, `tabulate` and the CSV export are left out, because they are output formatting and I/O. The debug messages of `learn.py` are left out for the same reason.
- The hard-coded instrument table in `learn.py` is left out. It has 14 instruments but 13 links and 13 month codes, so `pd.DataFrame(data)` raises before the loop runs. `Report.constructor` and `Decide` model the table and the per-row decision for aligned inputs.
- `\d`, `\b` and `str.strip` are modelled on ASCII only, because there is no Unicode character database:
  - digits are `0`-`9`;
  - word characters are ASCII letters, digits and `_`;
  - whitespace is the ASCII set that `str.isspace` accepts.
- Indices.ArgsortBy: the order numpy gives to tokens with equal y-coordinates is not stated, because `argsort`'s default sort is not stable. The model fixes one order (an insertion sort) and promises only a permutation with non-decreasing y.
- Frames.Concat: column labels are kept as a list, so duplicate headers are kept side by side, as pandas does. pandas' column index object and dtypes are not modelled.
