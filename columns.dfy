/**
 * Column reconstruction (c.py, lines 114-206): keep the OCR tokens above
 * the confidence threshold, group them by cluster label, drop small
 * clusters, order the clusters left to right by mean x and each cluster
 * top to bottom by y, and lay the columns out as a table whose first cell
 * is the header.  The cluster labels are an input, standing for the
 * result of the clustering step.  Mean x-coordinates are compared exactly,
 * by cross-multiplying sums and counts.
 */
module Columns {
  import opened Indices
  import opened Frames
  import opened PyStrings

  /** The i-th entry of Tesseract's `image_to_data` dictionary, with the confidence as an integer. */
  datatype OcrRecord = OcrRecord(text: string, left: int, top: int, width: int, height: int, conf: int)

  /** A text bounding box `(x, y, w, h)`. */
  datatype Box = Box(x: int, y: int, w: int, h: int)

  function BoxOf(r: OcrRecord): Box
  {
    Box(r.left, r.top, r.width, r.height)
  }

  /** The positions of the records that pass `conf > min_conf`, ascending. */
  function KeptIndices(results: seq<OcrRecord>, minConf: int): (r: seq<nat>)
    ensures forall k :: 0 <= k < |r| ==> r[k] < |results| && results[r[k]].conf > minConf
  {
    Where(results, (r: OcrRecord) => r.conf > minConf)
  }

  lemma KeptIndicesSnoc(results: seq<OcrRecord>, n: nat, minConf: int)
    requires n < |results|
    ensures KeptIndices(results[..n + 1], minConf) ==
      KeptIndices(results[..n], minConf) + (if results[n].conf > minConf then [n] else [])
  {
    assert results[..n + 1][..n] == results[..n];
  }

  /**
   * The loop that fills `coords` and `ocrText`: the two lists stay
   * index-aligned and hold, in order, the records with `conf > min_conf`.
   */
  method FilterByConfidence(results: seq<OcrRecord>, minConf: int)
    returns (coords: seq<Box>, ocrText: seq<string>)
    ensures |coords| == |ocrText| == |KeptIndices(results, minConf)|
    ensures forall k :: 0 <= k < |coords| ==>
      coords[k] == BoxOf(results[KeptIndices(results, minConf)[k]]) &&
      ocrText[k] == results[KeptIndices(results, minConf)[k]].text
  {
    coords, ocrText := [], [];
    for i := 0 to |results|
      invariant |coords| == |ocrText| == |KeptIndices(results[..i], minConf)|
      invariant forall k :: 0 <= k < |coords| ==>
        KeptIndices(results[..i], minConf)[k] < |results| &&
        coords[k] == BoxOf(results[KeptIndices(results[..i], minConf)[k]]) &&
        ocrText[k] == results[KeptIndices(results[..i], minConf)[k]].text
    {
      KeptIndicesSnoc(results, i, minConf);
      var r := results[i];
      if r.conf > minConf {
        coords := coords + [BoxOf(r)];
        ocrText := ocrText + [r.text];
      }
    }
    assert results[..|results|] == results;
  }

  /** `np.where(clustering.labels_ == l)[0]`. */
  function IndicesOf(labels: seq<int>, l: int): (r: seq<nat>)
    ensures forall k :: 0 <= k < |r| ==> r[k] < |labels| && labels[r[k]] == l
  {
    Where(labels, (x: int) => x == l)
  }

  /** A label that occurs has at least one member. */
  lemma IndicesOfNonEmpty(labels: seq<int>, l: int)
    requires l in labels
    ensures |IndicesOf(labels, l)| >= 1
  {
    var i :| 0 <= i < |labels| && labels[i] == l;
    WhereComplete(labels, (x: int) => x == l, i);
  }

  /** The sum of the x-coordinates of the given tokens. */
  function SumX(coords: seq<Box>, idxs: seq<nat>): (sum: int)
    requires forall k :: 0 <= k < |idxs| ==> idxs[k] < |coords|
  {
    if |idxs| == 0 then 0 else SumX(coords, idxs[..|idxs| - 1]) + coords[idxs[|idxs| - 1]].x
  }

  /** A cluster summary: its label (`cluster`), the sum of its members' x and their number. */
  datatype ClusterStat = ClusterStat(cluster: int, sumX: int, count: nat)

  /** The summary fits the tokens carrying its label. */
  ghost predicate Describes(coords: seq<Box>, labels: seq<int>, c: ClusterStat)
    requires |labels| == |coords|
  {
    c.count == |IndicesOf(labels, c.cluster)| && c.sumX == SumX(coords, IndicesOf(labels, c.cluster))
  }

  /** The summary of the tokens labelled l. */
  function StatOf(coords: seq<Box>, labels: seq<int>, l: int): (c: ClusterStat)
    requires |labels| == |coords|
    ensures c.cluster == l && c.count == |IndicesOf(labels, l)|
  {
    var idxs := IndicesOf(labels, l);
    ClusterStat(l, SumX(coords, idxs), |idxs|)
  }

  /** The summaries of the labels in ls, in order, keeping only clusters of more than minSize tokens. */
  function LargeStats(coords: seq<Box>, labels: seq<int>, ls: seq<int>, minSize: int): (r: seq<ClusterStat>)
    requires |labels| == |coords|
  {
    if |ls| == 0 then []
    else
      var c := StatOf(coords, labels, ls[|ls| - 1]);
      LargeStats(coords, labels, ls[..|ls| - 1], minSize) + (if c.count > minSize then [c] else [])
  }

  /** Summary c is the one of a label of ls whose cluster has more than minSize tokens. */
  ghost predicate LargeStatOf(coords: seq<Box>, labels: seq<int>, ls: seq<int>, minSize: int, c: ClusterStat)
    requires |labels| == |coords|
  {
    c == StatOf(coords, labels, c.cluster) && c.cluster in ls && c.count > minSize
  }

  /** Each kept summary describes its cluster, is labelled from ls and counts more than minSize tokens. */
  lemma {:induction false} LargeStatsSound(coords: seq<Box>, labels: seq<int>, ls: seq<int>, minSize: int)
    requires |labels| == |coords|
    ensures forall k :: 0 <= k < |LargeStats(coords, labels, ls, minSize)| ==>
      LargeStatOf(coords, labels, ls, minSize, LargeStats(coords, labels, ls, minSize)[k])
  {
    if |ls| > 0 {
      var init := ls[..|ls| - 1];
      LargeStatsSound(coords, labels, init, minSize);
      var prev := LargeStats(coords, labels, init, minSize);
      var r := LargeStats(coords, labels, ls, minSize);
      forall k | 0 <= k < |r|
        ensures LargeStatOf(coords, labels, ls, minSize, r[k])
      {
        if k < |prev| {
          assert r[k] == prev[k];
          assert LargeStatOf(coords, labels, init, minSize, prev[k]);
          var j :| 0 <= j < |init| && init[j] == prev[k].cluster;
          assert ls[j] == init[j];
        } else {
          assert r[k].cluster == ls[|ls| - 1];
        }
      }
    }
  }

  /** For ascending ls the kept labels ascend. */
  lemma {:induction false} LargeStatsAscending(coords: seq<Box>, labels: seq<int>, ls: seq<int>, minSize: int)
    requires |labels| == |coords| && StrictlyIncreasing(ls)
    ensures forall p, q :: 0 <= p < q < |LargeStats(coords, labels, ls, minSize)| ==>
      LargeStats(coords, labels, ls, minSize)[p].cluster < LargeStats(coords, labels, ls, minSize)[q].cluster
  {
    if |ls| > 0 {
      var init := ls[..|ls| - 1];
      assert StrictlyIncreasing(init);
      LargeStatsAscending(coords, labels, init, minSize);
      LargeStatsSound(coords, labels, init, minSize);
      var prev := LargeStats(coords, labels, init, minSize);
      forall k | 0 <= k < |prev|
        ensures prev[k].cluster < ls[|ls| - 1]
      {
        assert LargeStatOf(coords, labels, init, minSize, prev[k]);
        var j :| 0 <= j < |init| && init[j] == prev[k].cluster;
        assert ls[j] == init[j];
      }
    }
  }

  /** Every label of ls with a cluster of more than minSize tokens gets a summary. */
  lemma {:induction false} LargeStatsComplete(coords: seq<Box>, labels: seq<int>, ls: seq<int>, minSize: int, l: int)
    requires |labels| == |coords|
    requires l in ls && |IndicesOf(labels, l)| > minSize
    ensures exists k :: 0 <= k < |LargeStats(coords, labels, ls, minSize)| && LargeStats(coords, labels, ls, minSize)[k].cluster == l
  {
    var init, last := ls[..|ls| - 1], ls[|ls| - 1];
    var prev := LargeStats(coords, labels, init, minSize);
    var r := LargeStats(coords, labels, ls, minSize);
    if l == last {
      assert r[|r| - 1].cluster == l;
    } else {
      var j :| 0 <= j < |ls| && ls[j] == l;
      assert init[j] == l;
      LargeStatsComplete(coords, labels, init, minSize, l);
      var k :| 0 <= k < |prev| && prev[k].cluster == l;
      assert r[k] == prev[k];
    }
  }

  /**
   * The first loop over `np.unique(clustering.labels_)`: one summary per
   * label whose cluster has more than `min_size` members, in ascending
   * label order, and none for the others.
   */
  method KeepLargeClusters(coords: seq<Box>, labels: seq<int>, minSize: int)
    returns (clusters: seq<ClusterStat>)
    requires |labels| == |coords|
    ensures clusters == LargeStats(coords, labels, Unique(labels), minSize)
  {
    var u := Unique(labels);
    clusters := [];
    for n := 0 to |u|
      invariant clusters == LargeStats(coords, labels, u[..n], minSize)
    {
      assert u[..n + 1][..n] == u[..n];
      var c := StatOf(coords, labels, u[n]);
      if c.count > minSize {
        clusters := clusters + [c];
      }
    }
    assert u[..|u|] == u;
  }

  /** The mean x of a is below the mean x of b (counts are positive). */
  predicate MeanLess(a: ClusterStat, b: ClusterStat)
  {
    a.sumX * b.count < b.sumX * a.count
  }

  predicate SameMean(a: ClusterStat, b: ClusterStat)
  {
    a.sumX * b.count == b.sumX * a.count
  }

  /** The order a stable sort by mean x gives to clusters listed in ascending label order. */
  predicate Precedes(a: ClusterStat, b: ClusterStat)
  {
    MeanLess(a, b) || (SameMean(a, b) && a.cluster < b.cluster)
  }

  /** `np.average` of the cluster's x-coordinates, as an exact rational. */
  function Mean(c: ClusterStat): real
    requires c.count > 0
  {
    c.sumX as real / c.count as real
  }

  /**
   * Cross-multiplying compares the means themselves, so Precedes orders
   * clusters by mean x, ties by label.
   */
  lemma MeanOrder(a: ClusterStat, b: ClusterStat)
    requires a.count > 0 && b.count > 0
    ensures MeanLess(a, b) <==> Mean(a) < Mean(b)
    ensures SameMean(a, b) <==> Mean(a) == Mean(b)
    ensures Precedes(a, b) <==> Mean(a) < Mean(b) || (Mean(a) == Mean(b) && a.cluster < b.cluster)
  {
    var na, nb := a.count as real, b.count as real;
    var ma, mb := Mean(a), Mean(b);
    assert ma * na == a.sumX as real;
    assert mb * nb == b.sumX as real;
    assert (a.sumX * b.count) as real == ma * (na * nb);
    assert (b.sumX * a.count) as real == mb * (na * nb);
    RealScale(ma, mb, na * nb);
  }

  /** Multiplying by a positive real keeps `<` and `==`. */
  lemma RealScale(x: real, y: real, z: real)
    requires z > 0.0
    ensures x < y <==> x * z < y * z
    ensures x == y <==> x * z == y * z
  {
    assert x * z - y * z == (x - y) * z;
  }

  /**
   * One step of a stable insertion sort by mean: x goes after the last
   * element of s whose mean is not larger than its own.
   */
  function Inserted(s: seq<ClusterStat>, x: ClusterStat): (r: seq<ClusterStat>)
    ensures |r| == |s| + 1
    ensures r[|r| - 1] == x || (|s| > 0 && r[|r| - 1] == s[|s| - 1])
  {
    if |s| == 0 || !MeanLess(x, s[|s| - 1]) then s + [x]
    else Inserted(s[..|s| - 1], x) + [s[|s| - 1]]
  }

  /** The stable sort by mean, as the insertion sort that inserts the elements of s one by one. */
  function SortedByMean(s: seq<ClusterStat>): (r: seq<ClusterStat>)
    ensures |r| == |s|
  {
    if |s| == 0 then [] else Inserted(SortedByMean(s[..|s| - 1]), s[|s| - 1])
  }

  lemma {:induction false} InsertedPermutes(s: seq<ClusterStat>, x: ClusterStat)
    ensures multiset(Inserted(s, x)) == multiset(s) + multiset{x}
  {
    if |s| > 0 && MeanLess(x, s[|s| - 1]) {
      var init := s[..|s| - 1];
      InsertedPermutes(init, x);
      assert s == init + [s[|s| - 1]];
    }
  }

  /** Neighbours with the smaller label first and no smaller mean after are in order. */
  lemma NotLessPrecedes(x: ClusterStat, y: ClusterStat)
    requires !MeanLess(y, x) && x.cluster < y.cluster
    ensures Precedes(x, y)
  {
  }

  /** Inserting a cluster labelled above all of s into s in order keeps it in order. */
  lemma {:induction false} InsertedInOrder(s: seq<ClusterStat>, x: ClusterStat)
    requires forall k :: 0 < k < |s| ==> Precedes(s[k - 1], s[k])
    requires forall k :: 0 <= k < |s| ==> s[k].cluster < x.cluster
    ensures forall k :: 0 < k < |s| + 1 ==> Precedes(Inserted(s, x)[k - 1], Inserted(s, x)[k])
  {
    if |s| > 0 {
      var init, last := s[..|s| - 1], s[|s| - 1];
      if !MeanLess(x, last) {
        NotLessPrecedes(last, x);
      } else {
        InsertedInOrder(init, x);
        var t := Inserted(init, x);
        assert Inserted(s, x) == t + [last];
        assert Precedes(t[|t| - 1], last);
      }
    }
  }

  /**
   * On clusters listed in ascending label order, the stable sort is a
   * permutation whose neighbours are ordered by mean, ties by label.
   */
  lemma {:induction false} SortedByMeanExact(s: seq<ClusterStat>)
    requires forall p, q :: 0 <= p < q < |s| ==> s[p].cluster < s[q].cluster
    ensures multiset(SortedByMean(s)) == multiset(s)
    ensures forall k :: 0 < k < |s| ==> Precedes(SortedByMean(s)[k - 1], SortedByMean(s)[k])
  {
    if |s| > 0 {
      var init, last := s[..|s| - 1], s[|s| - 1];
      SortedByMeanExact(init);
      var t := SortedByMean(init);
      InsertedPermutes(t, last);
      assert s == init + [last];
      forall k | 0 <= k < |t|
        ensures t[k].cluster < last.cluster
      {
        assert t[k] in multiset(init);
      }
      InsertedInOrder(t, last);
    }
  }

  /** `sortedClusters.sort(key=lambda x: x[1])`, as an insertion sort in place. */
  method SortByMean(a: array<ClusterStat>)
    modifies a
    ensures a[..] == SortedByMean(old(a[..]))
  {
    var i := 0;
    while i < a.Length
      invariant 0 <= i <= a.Length
      invariant a[..i] == SortedByMean(old(a[..i]))
      invariant a[i..] == old(a[i..])
    {
      ghost var before := a[..];
      assert before[..i] == SortedByMean(old(a[..i])) && before[i] == old(a[i]);
      assert old(a[..i + 1])[..i] == old(a[..i]);
      InsertByMean(a, i);
      assert a[i + 1..] == before[i + 1..];
      i := i + 1;
    }
    assert a[..] == a[..a.Length];
    assert old(a[..]) == old(a[..a.Length]);
  }

  /** Moves a[i] left past every neighbour with a strictly larger mean. */
  method InsertByMean(a: array<ClusterStat>, i: nat)
    requires i < a.Length
    modifies a
    ensures a[..i + 1] == Inserted(old(a[..i]), old(a[i]))
    ensures a[i + 1..] == old(a[i + 1..])
  {
    ghost var s, x := a[..], a[i];
    assert a[..] == Shifted(s, x, i, i);
    var j := i;
    while j > 0 && MeanLess(a[j], a[j - 1])
      invariant 0 <= j <= i
      invariant a[..] == Shifted(s, x, j, i)
      invariant Inserted(s[..i], x) == Inserted(s[..j], x) + s[j..i]
    {
      ShiftedShape(s, x, j, i);
      InsertStep(s, x, j, i);
      a[j - 1], a[j] := a[j], a[j - 1];
      j := j - 1;
    }
    ShiftedShape(s, x, j, i);
    if j > 0 {
      assert !MeanLess(x, s[j - 1]);
    }
    assert Inserted(s[..j], x) == s[..j] + [x];
  }

  /** The array during the loop of InsertByMean: s with x moved from position i to position j. */
  function Shifted<T>(s: seq<T>, x: T, j: nat, i: nat): (t: seq<T>)
    requires j <= i < |s|
    ensures |t| == |s|
  {
    s[..j] + [x] + s[j..i] + s[i + 1..]
  }

  /** What the loop reads and writes in Shifted. */
  lemma ShiftedShape<T>(s: seq<T>, x: T, j: nat, i: nat)
    requires j <= i < |s|
    ensures Shifted(s, x, j, i)[j] == x
    ensures j > 0 ==> Shifted(s, x, j, i)[j - 1] == s[j - 1]
    ensures j > 0 ==> Shifted(s, x, j, i)[j - 1 := x][j := s[j - 1]] == Shifted(s, x, j - 1, i)
    ensures Shifted(s, x, j, i)[..i + 1] == s[..j] + [x] + s[j..i]
    ensures Shifted(s, x, j, i)[i + 1..] == s[i + 1..]
  {
    var t := Shifted(s, x, j, i);
    if j > 0 {
      var u := Shifted(s, x, j - 1, i);
      assert forall k :: 0 <= k < |t| ==> t[j - 1 := x][j := s[j - 1]][k] == u[k];
    }
    assert t[..i + 1] == s[..j] + [x] + s[j..i];
  }

  /** Moving x past a neighbour of larger mean is one unfolding of Inserted. */
  lemma InsertStep(s: seq<ClusterStat>, x: ClusterStat, j: nat, i: nat)
    requires 0 < j <= i < |s| && MeanLess(x, s[j - 1])
    requires Inserted(s[..i], x) == Inserted(s[..j], x) + s[j..i]
    ensures Inserted(s[..i], x) == Inserted(s[..j - 1], x) + s[j - 1..i]
  {
    assert s[..j][..j - 1] == s[..j - 1];
    assert Inserted(s[..j], x) == Inserted(s[..j - 1], x) + [s[j - 1]];
    assert s[j - 1..i] == [s[j - 1]] + s[j..i];
  }

  /** Cross-multiplying by a positive factor keeps comparisons. */
  lemma ScaleCompare(x: int, y: int, z: int)
    requires z > 0
    ensures x < y <==> x * z < y * z
    ensures x == y <==> x * z == y * z
  {
    assert x * z - y * z == (x - y) * z;
  }

  /** Precedes is transitive on clusters with members. */
  lemma PrecedesTransitive(a: ClusterStat, b: ClusterStat, c: ClusterStat)
    requires a.count > 0 && b.count > 0 && c.count > 0
    requires Precedes(a, b) && Precedes(b, c)
    ensures Precedes(a, c)
  {
    var na, nb, nc := a.count as int, b.count as int, c.count as int;
    ScaleCompare(a.sumX * nb, b.sumX * na, nc);
    ScaleCompare(b.sumX * nc, c.sumX * nb, na);
    ScaleCompare(a.sumX * nc, c.sumX * na, nb);
    assert b.sumX * na * nc == b.sumX * nc * na;
    assert a.sumX * nb * nc == a.sumX * nc * nb;
    assert c.sumX * nb * na == c.sumX * na * nb;
  }

  /** Neighbours in order make every pair in order. */
  lemma {:induction false} PrecedesChain(s: seq<ClusterStat>, p: nat, q: nat)
    requires forall k :: 0 <= k < |s| ==> s[k].count > 0
    requires forall k :: 0 < k < |s| ==> Precedes(s[k - 1], s[k])
    requires p < q < |s|
    ensures Precedes(s[p], s[q])
    decreases q - p
  {
    if p + 1 < q {
      PrecedesChain(s, p, q - 1);
      PrecedesTransitive(s[p], s[q - 1], s[q]);
    }
  }

  /** The y-coordinate of every token, the keys `np.argsort(yCoords)` sorts by. */
  function Ys(coords: seq<Box>): (ys: seq<int>)
    ensures |ys| == |coords| && forall i :: 0 <= i < |coords| ==> ys[i] == coords[i].y
  {
    seq(|coords|, i requires 0 <= i < |coords| => coords[i].y)
  }

  /** `[ocrText[i].strip() for i in sortedIdxs]`. */
  function Cells(ocrText: seq<string>, order: seq<nat>): (cells: seq<string>)
    requires forall k :: 0 <= k < |order| ==> order[k] < |ocrText|
    ensures |cells| == |order|
  {
    seq(|order|, k requires 0 <= k < |order| => Strip(ocrText[order[k]]))
  }

  /** Every column order is non-empty and indexes the token lists. */
  ghost predicate Indexes(orders: seq<seq<nat>>, n: nat)
  {
    forall c :: 0 <= c < |orders| ==> |orders[c]| >= 1 && forall k :: 0 <= k < |orders[c]| ==> orders[c][k] < n
  }

  /** The header of each column: the stripped text of its top token. */
  function Headers(ocrText: seq<string>, orders: seq<seq<nat>>): (hs: seq<string>)
    requires Indexes(orders, |ocrText|)
    ensures |hs| == |orders|
  {
    seq(|orders|, c requires 0 <= c < |orders| => Cells(ocrText, orders[c])[0])
  }

  /** The body of each column: the stripped texts of the tokens below the header, top to bottom. */
  function Bodies(ocrText: seq<string>, orders: seq<seq<nat>>): (bs: seq<seq<string>>)
    requires Indexes(orders, |ocrText|)
    ensures |bs| == |orders| && forall c :: 0 <= c < |orders| ==> |bs[c]| == |orders[c]| - 1
  {
    seq(|orders|, c requires 0 <= c < |orders| => Cells(ocrText, orders[c])[1..])
  }

  /** Appending the column of the last order with `concat` gives the reference table of one more column. */
  lemma TableSnoc(ocrText: seq<string>, orders: seq<seq<nat>>)
    requires Indexes(orders, |ocrText|) && |orders| > 0
    ensures Indexes(orders[..|orders| - 1], |ocrText|)
    ensures var cells := Cells(ocrText, orders[|orders| - 1]);
      Concat(Assemble(Headers(ocrText, orders[..|orders| - 1]), Bodies(ocrText, orders[..|orders| - 1])), cells[0], cells[1..])
      == Assemble(Headers(ocrText, orders), Bodies(ocrText, orders))
  {
    var init := orders[..|orders| - 1];
    var cells := Cells(ocrText, orders[|orders| - 1]);
    HeadersSnoc(ocrText, orders);
    BodiesSnoc(ocrText, orders);
    ConcatAssemble(Headers(ocrText, init), Bodies(ocrText, init), cells[0], cells[1..]);
  }

  lemma HeadersSnoc(ocrText: seq<string>, orders: seq<seq<nat>>)
    requires Indexes(orders, |ocrText|) && |orders| > 0
    ensures Indexes(orders[..|orders| - 1], |ocrText|)
    ensures Headers(ocrText, orders) ==
      Headers(ocrText, orders[..|orders| - 1]) + [Cells(ocrText, orders[|orders| - 1])[0]]
  {
    var init := orders[..|orders| - 1];
    assert forall c :: 0 <= c < |init| ==> init[c] == orders[c];
  }

  lemma BodiesSnoc(ocrText: seq<string>, orders: seq<seq<nat>>)
    requires Indexes(orders, |ocrText|) && |orders| > 0
    ensures Indexes(orders[..|orders| - 1], |ocrText|)
    ensures Bodies(ocrText, orders) ==
      Bodies(ocrText, orders[..|orders| - 1]) + [Cells(ocrText, orders[|orders| - 1])[1..]]
  {
    var init := orders[..|orders| - 1];
    assert forall c :: 0 <= c < |init| ==> init[c] == orders[c];
  }

  /** The tokens of one column, top to bottom. */
  ghost predicate TopToBottom(coords: seq<Box>, o: seq<nat>)
  {
    (forall k :: 0 <= k < |o| ==> o[k] < |coords|) &&
    forall p, q :: 0 <= p < q < |o| ==> coords[o[p]].y <= coords[o[q]].y
  }

  /** Order o lists, top to bottom, exactly the tokens labelled l. */
  ghost predicate ColumnOrder(coords: seq<Box>, labels: seq<int>, l: int, o: seq<nat>)
  {
    |o| >= 1 && multiset(o) == multiset(IndicesOf(labels, l)) && TopToBottom(coords, o)
  }

  /** Column c lists, top to bottom, exactly the tokens labelled columns[c].cluster. */
  ghost predicate ColumnOrders(coords: seq<Box>, labels: seq<int>, columns: seq<ClusterStat>, orders: seq<seq<nat>>)
  {
    |orders| == |columns| && Indexes(orders, |coords|) &&
    forall c :: 0 <= c < |columns| ==> ColumnOrder(coords, labels, columns[c].cluster, orders[c])
  }

  /**
   * The second loop over the sorted clusters: each cluster's tokens sorted
   * top to bottom become one column, headed by its top token, appended with
   * `concat`; `fillna("")` then blanks the padding.
   */
  method BuildTable(coords: seq<Box>, ocrText: seq<string>, labels: seq<int>, columns: seq<ClusterStat>)
    returns (df: Frame, orders: seq<seq<nat>>)
    requires |labels| == |coords| == |ocrText|
    requires forall c :: 0 <= c < |columns| ==> columns[c].cluster in labels
    ensures ColumnOrders(coords, labels, columns, orders)
    ensures df == FillNa(Assemble(Headers(ocrText, orders), Bodies(ocrText, orders)), "")
  {
    df := EmptyFrame;
    orders := [];
    for c := 0 to |columns|
      invariant ColumnOrders(coords, labels, columns[..c], orders)
      invariant df == Built(ocrText, orders)
    {
      var sortedIdxs, header, body := ColumnOf(coords, ocrText, labels, columns[c].cluster);
      ColumnOrdersSnoc(coords, labels, columns, c, orders, sortedIdxs);
      BuiltSnoc(ocrText, orders, sortedIdxs);
      df := Concat(df, header, body);
      orders := orders + [sortedIdxs];
    }
    assert columns[..|columns|] == columns;
    BuiltIsAssembled(ocrText, orders);
    df := FillNa(df, "");
  }

  /** The frame the second loop has built after the columns for orders: one `concat` per column. */
  function Built(ocrText: seq<string>, orders: seq<seq<nat>>): (f: Frame)
    requires Indexes(orders, |ocrText|)
    ensures WellFormed(f)
  {
    if |orders| == 0 then EmptyFrame
    else
      var init := orders[..|orders| - 1];
      assert forall c :: 0 <= c < |init| ==> init[c] == orders[c];
      var cells := Cells(ocrText, orders[|orders| - 1]);
      Concat(Built(ocrText, init), cells[0], cells[1..])
  }

  /** The order of the next column extends the orders of the columns before it. */
  lemma ColumnOrdersSnoc(coords: seq<Box>, labels: seq<int>, columns: seq<ClusterStat>, c: nat, orders: seq<seq<nat>>, o: seq<nat>)
    requires c < |columns|
    requires ColumnOrders(coords, labels, columns[..c], orders)
    requires ColumnOrder(coords, labels, columns[c].cluster, o)
    ensures ColumnOrders(coords, labels, columns[..c + 1], orders + [o])
  {
    var os := orders + [o];
    assert forall d :: 0 <= d < c ==> os[d] == orders[d] && columns[..c + 1][d] == columns[..c][d];
    assert os[c] == o && columns[..c + 1][c] == columns[c];
  }

  /** One more column is one more `concat`. */
  lemma BuiltSnoc(ocrText: seq<string>, orders: seq<seq<nat>>, o: seq<nat>)
    requires Indexes(orders + [o], |ocrText|)
    ensures Indexes(orders, |ocrText|)
    ensures Built(ocrText, orders + [o]) == Concat(Built(ocrText, orders), Cells(ocrText, o)[0], Cells(ocrText, o)[1..])
  {
    var os := orders + [o];
    assert os[..|orders|] == orders && os[|orders|] == o;
  }

  /** Growing the frame by `concat` gives the reference table of the columns side by side. */
  lemma {:induction false} BuiltIsAssembled(ocrText: seq<string>, orders: seq<seq<nat>>)
    requires Indexes(orders, |ocrText|)
    ensures Built(ocrText, orders) == Assemble(Headers(ocrText, orders), Bodies(ocrText, orders))
  {
    if |orders| == 0 {
      AssembleNone();
    } else {
      TableSnoc(ocrText, orders);
      BuiltIsAssembled(ocrText, orders[..|orders| - 1]);
    }
  }

  /**
   * The body of the second loop for label l: its tokens sorted top to
   * bottom, the stripped text of the first as header and the rest as body.
   */
  method ColumnOf(coords: seq<Box>, ocrText: seq<string>, labels: seq<int>, l: int)
    returns (order: seq<nat>, header: string, body: seq<string>)
    requires |labels| == |coords| == |ocrText|
    requires l in labels
    ensures ColumnOrder(coords, labels, l, order)
    ensures header == Cells(ocrText, order)[0] && body == Cells(ocrText, order)[1..]
  {
    var idxs := IndicesOf(labels, l);
    IndicesOfNonEmpty(labels, l);
    order := ArgsortBy(Ys(coords), idxs);
    assert |order| == |multiset(order)| == |multiset(idxs)| == |idxs|;
    var cols := Cells(ocrText, order);
    header, body := cols[0], cols[1..];
  }

  /** The clusters as c.py lays them out: the large ones, stably sorted by mean x. */
  function ClusterOrder(coords: seq<Box>, labels: seq<int>, minSize: int): (columns: seq<ClusterStat>)
    requires |labels| == |coords|
  {
    SortedByMean(LargeStats(coords, labels, Unique(labels), minSize))
  }

  /**
   * The layout holds one summary per large cluster and none for the
   * others, each describing its tokens, ordered left to right by mean x
   * (ties by label), with no label twice.
   */
  lemma ClusterOrderExact(coords: seq<Box>, labels: seq<int>, minSize: int, columns: seq<ClusterStat>)
    requires |labels| == |coords| && columns == ClusterOrder(coords, labels, minSize)
    ensures forall c :: 0 <= c < |columns| ==>
      columns[c].cluster in labels && Describes(coords, labels, columns[c]) && columns[c].count > minSize
    ensures forall l :: l in labels && |IndicesOf(labels, l)| > minSize ==>
      exists c :: 0 <= c < |columns| && columns[c].cluster == l
    ensures forall p, q :: 0 <= p < q < |columns| ==> Precedes(columns[p], columns[q])
    ensures forall p, q :: 0 <= p < q < |columns| ==> columns[p].cluster != columns[q].cluster
  {
    var u := Unique(labels);
    var clusters := LargeStats(coords, labels, u, minSize);
    LargeStatsSound(coords, labels, u, minSize);
    LargeStatsAscending(coords, labels, u, minSize);
    forall l | l in labels && |IndicesOf(labels, l)| > minSize
      ensures exists k :: 0 <= k < |clusters| && clusters[k].cluster == l
    {
      LargeStatsComplete(coords, labels, u, minSize, l);
    }
    SortedByMeanExact(clusters);
    forall k | 0 <= k < |clusters|
      ensures clusters[k].cluster in labels && Describes(coords, labels, clusters[k])
    {
      assert LargeStatOf(coords, labels, u, minSize, clusters[k]);
      assert clusters[k] == StatOf(coords, labels, clusters[k].cluster);
    }
    PermutedClusters(coords, labels, minSize, clusters, columns);
  }

  /** The first loop and `sortedClusters.sort`, with the list sorted in place as an array. */
  method OrderClusters(coords: seq<Box>, labels: seq<int>, minSize: int) returns (columns: seq<ClusterStat>)
    requires |labels| == |coords|
    ensures columns == ClusterOrder(coords, labels, minSize)
  {
    var clusters := KeepLargeClusters(coords, labels, minSize);
    var a := new ClusterStat[|clusters|](k requires 0 <= k < |clusters| => clusters[k]);
    assert a[..] == clusters;
    SortByMean(a);
    columns := a[..];
  }

  /**
   * The table step of c.py from the filtered tokens and their cluster
   * labels: the large clusters in left-to-right order, each laid out top to
   * bottom as one column of the table.
   */
  method ReconstructTable(coords: seq<Box>, ocrText: seq<string>, labels: seq<int>, minSize: int)
    returns (df: Frame, columns: seq<ClusterStat>, orders: seq<seq<nat>>)
    requires |labels| == |coords| == |ocrText|
    ensures columns == ClusterOrder(coords, labels, minSize)
    ensures ColumnOrders(coords, labels, columns, orders)
    ensures df == FillNa(Assemble(Headers(ocrText, orders), Bodies(ocrText, orders)), "")
  {
    columns := OrderClusters(coords, labels, minSize);
    ClusterOrderExact(coords, labels, minSize, columns);
    df, orders := BuildTable(coords, ocrText, labels, columns);
  }

  /** Reordering the kept clusters keeps what each says and that every large one is there. */
  lemma PermutedClusters(coords: seq<Box>, labels: seq<int>, minSize: int, clusters: seq<ClusterStat>, columns: seq<ClusterStat>)
    requires |labels| == |coords|
    requires multiset(columns) == multiset(clusters)
    requires forall k :: 0 <= k < |clusters| ==>
      clusters[k].cluster in labels && Describes(coords, labels, clusters[k]) && clusters[k].count > minSize
    requires forall l :: l in labels && |IndicesOf(labels, l)| > minSize ==>
      exists k :: 0 <= k < |clusters| && clusters[k].cluster == l
    requires forall k :: 0 < k < |columns| ==> Precedes(columns[k - 1], columns[k])
    ensures forall c :: 0 <= c < |columns| ==>
      columns[c].cluster in labels && Describes(coords, labels, columns[c]) && columns[c].count > minSize
    ensures forall l :: l in labels && |IndicesOf(labels, l)| > minSize ==>
      exists c :: 0 <= c < |columns| && columns[c].cluster == l
    ensures forall p, q :: 0 <= p < q < |columns| ==> Precedes(columns[p], columns[q])
    ensures forall p, q :: 0 <= p < q < |columns| ==> columns[p].cluster != columns[q].cluster
  {
    forall c | 0 <= c < |columns|
      ensures columns[c].cluster in labels && Describes(coords, labels, columns[c]) && columns[c].count > minSize
    {
      assert columns[c] in multiset(clusters);
    }
    forall c | 0 <= c < |columns|
      ensures columns[c].count > 0
    {
      IndicesOfNonEmpty(labels, columns[c].cluster);
    }
    forall l | l in labels && |IndicesOf(labels, l)| > minSize
      ensures exists c :: 0 <= c < |columns| && columns[c].cluster == l
    {
      var k :| 0 <= k < |clusters| && clusters[k].cluster == l;
      assert clusters[k] in multiset(columns);
      var c :| 0 <= c < |columns| && columns[c] == clusters[k];
    }
    forall p, q | 0 <= p < q < |columns|
      ensures Precedes(columns[p], columns[q])
    {
      PrecedesChain(columns, p, q);
    }
  }

  /** A value occurs once in a strictly increasing list that holds it. */
  lemma {:induction false} OccursOnce(s: seq<nat>, x: nat)
    requires forall p, q :: 0 <= p < q < |s| ==> s[p] < s[q]
    requires x in s
    ensures multiset(s)[x] == 1
  {
    var init, last := s[..|s| - 1], s[|s| - 1];
    assert s == init + [last];
    if x == last {
      assert forall k :: 0 <= k < |init| ==> init[k] < last;
      assert x !in init;
    } else {
      OccursOnce(init, x);
    }
  }

  /**
   * In the reconstructed table a token of a large cluster appears in
   * exactly one column, exactly once.
   */
  lemma KeptTokenOnce(labels: seq<int>, columns: seq<ClusterStat>, orders: seq<seq<nat>>, i: nat)
    requires i < |labels| && |orders| == |columns|
    requires forall c :: 0 <= c < |columns| ==> multiset(orders[c]) == multiset(IndicesOf(labels, columns[c].cluster))
    requires forall p, q :: 0 <= p < q < |columns| ==> columns[p].cluster != columns[q].cluster
    requires exists c :: 0 <= c < |columns| && columns[c].cluster == labels[i]
    ensures exists c :: 0 <= c < |columns| && multiset(orders[c])[i] == 1 &&
                        forall d :: 0 <= d < |columns| && d != c ==> i !in orders[d]
  {
    var c :| 0 <= c < |columns| && columns[c].cluster == labels[i];
    WhereComplete(labels, (x: int) => x == labels[i], i);
    OccursOnce(IndicesOf(labels, labels[i]), i);
    forall d | 0 <= d < |columns| && d != c
      ensures i !in orders[d]
    {
      InColumnIff(labels, orders[d], columns[d].cluster, i);
    }
  }

  /** No token of a cluster of at most min_size members appears in any column. */
  lemma DroppedTokenAbsent(labels: seq<int>, minSize: int, columns: seq<ClusterStat>, orders: seq<seq<nat>>, i: nat)
    requires i < |labels| && |orders| == |columns|
    requires forall c :: 0 <= c < |columns| ==>
      columns[c].count == |IndicesOf(labels, columns[c].cluster)| && columns[c].count > minSize
    requires forall c :: 0 <= c < |columns| ==> multiset(orders[c]) == multiset(IndicesOf(labels, columns[c].cluster))
    requires |IndicesOf(labels, labels[i])| <= minSize
    ensures forall c :: 0 <= c < |columns| ==> i !in orders[c]
  {
    forall c | 0 <= c < |columns|
      ensures i !in orders[c]
    {
      InColumnIff(labels, orders[c], columns[c].cluster, i);
    }
  }

  /** A permutation of `where(labels == l)` holds exactly the tokens labelled l. */
  lemma InColumnIff(labels: seq<int>, o: seq<nat>, l: int, i: nat)
    requires multiset(o) == multiset(IndicesOf(labels, l)) && i < |labels|
    ensures i in o <==> labels[i] == l
  {
    assert i in o <==> i in multiset(o);
    if labels[i] == l {
      WhereComplete(labels, (x: int) => x == l, i);
    }
  }

  /**
   * Every column holds more than min_size tokens: a header and at least
   * min_size body cells.
   */
  lemma ColumnSizes(coords: seq<Box>, labels: seq<int>, minSize: int, orders: seq<seq<nat>>)
    requires |labels| == |coords|
    requires ColumnOrders(coords, labels, ClusterOrder(coords, labels, minSize), orders)
    ensures forall c :: 0 <= c < |orders| ==> |orders[c]| > minSize
  {
    var columns := ClusterOrder(coords, labels, minSize);
    ClusterOrderExact(coords, labels, minSize, columns);
    forall c | 0 <= c < |orders|
      ensures |orders[c]| > minSize
    {
      assert |orders[c]| == |multiset(orders[c])| == |multiset(IndicesOf(labels, columns[c].cluster))|;
    }
  }

  /** The x-coordinates the clustering sees: c.py clusters `(x, 0)` points. */
  function Xs(coords: seq<Box>): (xs: seq<int>)
    ensures |xs| == |coords| && forall i :: 0 <= i < |coords| ==> xs[i] == coords[i].x
  {
    seq(|coords|, i requires 0 <= i < |coords| => coords[i].x)
  }

  /**
   * c.py from the OCR records to the filled table.  The clustering is a
   * parameter that gives one label per x-coordinate.
   */
  method ExtractTable(results: seq<OcrRecord>, minConf: int, minSize: int, cluster: seq<int> -> seq<int>)
    returns (df: Frame, coords: seq<Box>, ocrText: seq<string>, columns: seq<ClusterStat>, orders: seq<seq<nat>>)
    requires forall xs :: |cluster(xs)| == |xs|
    ensures |coords| == |ocrText| == |KeptIndices(results, minConf)|
    ensures forall k :: 0 <= k < |coords| ==>
      coords[k] == BoxOf(results[KeptIndices(results, minConf)[k]]) &&
      ocrText[k] == results[KeptIndices(results, minConf)[k]].text
    ensures columns == ClusterOrder(coords, cluster(Xs(coords)), minSize)
    ensures ColumnOrders(coords, cluster(Xs(coords)), columns, orders)
    ensures df == FillNa(Assemble(Headers(ocrText, orders), Bodies(ocrText, orders)), "")
  {
    coords, ocrText := FilterByConfidence(results, minConf);
    var labels := cluster(Xs(coords));
    df, columns, orders := ReconstructTable(coords, ocrText, labels, minSize);
  }
}
