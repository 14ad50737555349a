/** Where a position in one of several texts splits the segment list of them all. */
module PathSplits {
  import opened PathSegments

  /** The segments of all the texts, in order. */
  function AllSegments(texts: seq<string>): seq<string> {
    if texts == [] then [] else Segments(texts[0]) + AllSegments(texts[1..])
  }

  lemma {:induction false} AllSegmentsAppend(a: seq<string>, b: seq<string>)
    ensures AllSegments(a + b) == AllSegments(a) + AllSegments(b)
    decreases |a|
  {
    if a == [] {
      assert a + b == b;
    } else {
      assert (a + b)[1..] == a[1..] + b;
      AllSegmentsAppend(a[1..], b);
    }
  }

  lemma AllSegmentsOne(t: string)
    ensures AllSegments([t]) == Segments(t)
  {
    assert AllSegments([t][1..]) == [];
  }

  /** The segments of the texts from index `i` on. */
  function AllFrom(texts: seq<string>, i: nat): seq<string>
    requires i <= |texts|
  {
    AllSegments(texts[i..])
  }

  /** The segments of the texts before index `i`. */
  function AllUpTo(texts: seq<string>, i: nat): seq<string>
    requires i <= |texts|
  {
    AllSegments(texts[..i])
  }

  lemma AllEnds(texts: seq<string>)
    ensures AllFrom(texts, 0) == AllSegments(texts) && AllFrom(texts, |texts|) == []
    ensures AllUpTo(texts, 0) == []
  {
    assert texts[0..] == texts;
  }

  lemma AllFromStep(texts: seq<string>, i: nat)
    requires i < |texts|
    ensures AllFrom(texts, i) == Segments(texts[i]) + AllFrom(texts, i + 1)
  {
    hide SegmentsFrom;
    assert texts[i..][1..] == texts[i + 1..];
  }

  lemma AllUpToStep(texts: seq<string>, i: nat)
    requires i < |texts|
    ensures AllUpTo(texts, i + 1) == AllUpTo(texts, i) + Segments(texts[i])
  {
    hide AllSegments, SegmentsFrom;
    assert texts[..i + 1] == texts[..i] + [texts[i]];
    AllSegmentsAppend(texts[..i], [texts[i]]);
    AllSegmentsOne(texts[i]);
  }

  lemma AllSplits(texts: seq<string>, i: nat)
    requires i <= |texts|
    ensures AllSegments(texts) == AllUpTo(texts, i) + AllFrom(texts, i)
  {
    hide AllSegments, SegmentsFrom;
    assert texts == texts[..i] + texts[i..];
    AllSegmentsAppend(texts[..i], texts[i..]);
  }

  /** The segments before position `b` of the text at index `i`. */
  function BeforeAt(texts: seq<string>, i: nat, b: nat): seq<string>
    requires i < |texts| && b <= |texts[i]|
  {
    AllUpTo(texts, i) + SegmentsUpTo(texts[i], b)
  }

  /** The segments after position `e` of the text at index `i`. */
  function AfterAt(texts: seq<string>, i: nat, e: nat): seq<string>
    requires i < |texts| && e <= |texts[i]|
  {
    SegmentsFrom(texts[i], e) + AllFrom(texts, i + 1)
  }

  lemma OneText(t: string, b: nat, e: nat)
    requires b <= |t| && e <= |t|
    ensures BeforeAt([t], 0, b) == SegmentsUpTo(t, b) && AfterAt([t], 0, e) == SegmentsFrom(t, e)
  {
    AllEnds([t]);
  }

  /** Every whole segment splits the list of all segments. */
  lemma Total(texts: seq<string>, i: nat, b: nat, e: nat)
    requires i < |texts| && IsSegmentAt(texts[i], b, e)
    ensures BeforeAt(texts, i, b) + [texts[i][b..e]] + AfterAt(texts, i, e) == AllSegments(texts)
  {
    var t := texts[i];
    SegmentSplits(t, b, e);
    AllSplits(texts, i);
    AllFromStep(texts, i);
    Regroup(AllUpTo(texts, i), SegmentsUpTo(t, b), t[b..e], SegmentsFrom(t, e), AllFrom(texts, i + 1));
  }

  lemma Regroup(a: seq<string>, u: seq<string>, x: string, f: seq<string>, r: seq<string>)
    ensures (a + u) + [x] + (f + r) == a + ((u + [x] + f) + r)
  {
  }

  /** Two splits of one list at neighbouring places. */
  lemma StepSplit(a: seq<string>, x: string, b: seq<string>, y: string, tail: seq<string>)
    requires a + [x] + ([y] + tail) == b + [y] + tail
    ensures b == a + [x]
  {
    var rest := [y] + tail;
    assert |a| + 1 == |b|;
    assert (a + [x] + rest)[..|b|] == a + [x];
    assert (b + [y] + tail)[..|b|] == b;
  }

  lemma StepJoins(all: seq<string>, b: seq<string>, c: string, d: string, after: seq<string>)
    requires all == b + [c] + ([d] + after)
    ensures all == (b + [c]) + [d] + after
  {
  }

  lemma SplitAt(all: seq<string>, before: seq<string>, cur: string, after: seq<string>)
    requires all == before + [cur] + after
    ensures var k := |before|; all[..k] == before && all[k] == cur && all[k + 1..] == after
  {
  }

  /** What stands before a segment grows by the segment stepped over. */
  lemma BeforeGrows(texts: seq<string>, i: nat, b: nat, e: nat, j: nat, c: nat, f: nat)
    requires i < |texts| && IsSegmentAt(texts[i], b, e)
    requires j < |texts| && IsSegmentAt(texts[j], c, f)
    requires AfterAt(texts, i, e) == [texts[j][c..f]] + AfterAt(texts, j, f)
    ensures BeforeAt(texts, j, c) == BeforeAt(texts, i, b) + [texts[i][b..e]]
  {
    Total(texts, i, b, e);
    Total(texts, j, c, f);
    StepSplit(BeforeAt(texts, i, b), texts[i][b..e],
              BeforeAt(texts, j, c), texts[j][c..f], AfterAt(texts, j, f));
  }

  // ----- what one step within a text, or off its end, does to the split -----

  lemma NextInText(texts: seq<string>, i: nat, e: nat)
    requires i < |texts| && e <= |texts[i]| && (e == |texts[i]| || SepAt(texts[i], e))
    ensures var n := NextSegment(texts[i], e);
            if n.NoSegment? then AfterAt(texts, i, e) == AllFrom(texts, i + 1)
            else IsSegmentAt(texts[i], n.begin, n.end) &&
                 AfterAt(texts, i, e) == [texts[i][n.begin..n.end]] + AfterAt(texts, i, n.end)
  {
    var t, n := texts[i], NextSegment(texts[i], e);
    if n.NoSegment? {
      assert SegmentsFrom(t, e) == [];
    } else {
      assert SegmentsFrom(t, e) == [t[n.begin..n.end]] + SegmentsFrom(t, n.end);
      NextSegmentMeans(t, e);
      assert SepAt(t, n.begin - 1);
    }
  }

  lemma FirstInText(texts: seq<string>, i: nat, first: nat)
    requires i < |texts| && (first == 0 || (first == 1 && SepAt(texts[i], 0)))
    ensures var n := NextSegment(texts[i], first);
            if n.NoSegment? then AllFrom(texts, i) == AllFrom(texts, i + 1)
            else IsSegmentAt(texts[i], n.begin, n.end) &&
                 AllFrom(texts, i) == [texts[i][n.begin..n.end]] + AfterAt(texts, i, n.end)
  {
    hide SkipSeps, NextStop, AllSegments;
    var t, n := texts[i], NextSegment(texts[i], first);
    SkipLeading(t, 0, first);
    AllFromStep(texts, i);
    if n.Segment? {
      assert SegmentsFrom(t, first) == [t[n.begin..n.end]] + SegmentsFrom(t, n.end);
      FirstIsWhole(t, first);
    }
  }

  lemma PreviousInText(texts: seq<string>, i: nat, b: nat)
    requires i < |texts| && b <= |texts[i]| && IsCut(texts[i], b)
    ensures var p := PreviousSegment(texts[i], b);
            if p.NoSegment? then BeforeAt(texts, i, b) == AllUpTo(texts, i)
            else IsSegmentAt(texts[i], p.begin, p.end) &&
                 BeforeAt(texts, i, b) == BeforeAt(texts, i, p.begin) + [texts[i][p.begin..p.end]]
  {
    var t, p := texts[i], PreviousSegment(texts[i], b);
    if p.NoSegment? {
      assert SegmentsUpTo(t, b) == [];
    } else {
      assert SegmentsUpTo(t, b) == SegmentsUpTo(t, p.begin) + [t[p.begin..p.end]];
      PreviousIsWhole(t, b);
    }
  }

  lemma LastInText(texts: seq<string>, i: nat)
    requires i < |texts|
    ensures var p := PreviousSegment(texts[i], |texts[i]|);
            if p.NoSegment? then AllUpTo(texts, i + 1) == AllUpTo(texts, i)
            else IsSegmentAt(texts[i], p.begin, p.end) &&
                 AllUpTo(texts, i + 1) == BeforeAt(texts, i, p.begin) + [texts[i][p.begin..p.end]]
  {
    var t := texts[i];
    CutSplits(t, |t|);
    AllUpToStep(texts, i);
    assert SegmentsFrom(t, |t|) == [];
    PreviousInText(texts, i, |t|);
  }

  /** Nothing stands before the first segment of all. */
  lemma NothingBefore(texts: seq<string>, i: nat, b: nat, e: nat)
    requires i < |texts| && IsSegmentAt(texts[i], b, e)
    requires AllSegments(texts) == [texts[i][b..e]] + AfterAt(texts, i, e)
    ensures BeforeAt(texts, i, b) == []
  {
    Total(texts, i, b, e);
    assert |BeforeAt(texts, i, b)| == 0;
  }
}
