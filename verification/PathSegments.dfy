/** Unix path text as src/cwalk.c sees it: separators, stops and segments, by index. */
module PathSegments {

  /** A NUL-terminated C string: the characters before the first NUL of a memory block. */
  const NUL: char := '\0'

  predicate IsSeparator(c: char) {
    c == '/'
  }

  datatype Range = NoSegment | Segment(begin: nat, end: nat)

  /** The number of characters before the first NUL. */
  function StrLen(mem: seq<char>): (n: nat)
    ensures n <= |mem|
  {
    if mem == [] || mem[0] == NUL then 0 else 1 + StrLen(mem[1..])
  }

  predicate Terminated(mem: seq<char>) {
    StrLen(mem) < |mem|
  }

  function Text(mem: seq<char>): (t: string)
    ensures |t| == StrLen(mem)
  {
    mem[..StrLen(mem)]
  }

  lemma StrLenMeans(mem: seq<char>)
    ensures var n := StrLen(mem);
            (forall i :: 0 <= i < n ==> mem[i] != NUL) && (n < |mem| ==> mem[n] == NUL)
  {
  }

  lemma StrLenIs(mem: seq<char>, n: nat)
    requires n < |mem| && mem[n] == NUL
    requires forall i :: 0 <= i < n ==> mem[i] != NUL
    ensures StrLen(mem) == n
  {
    if n > 0 { StrLenIs(mem[1..], n - 1); }
  }

  lemma NoNulInText(mem: seq<char>)
    ensures NUL !in Text(mem)
  {
    StrLenMeans(mem);
  }

  predicate SepAt(t: string, i: int) {
    0 <= i < |t| && IsSeparator(t[i])
  }

  predicate NoSepIn(t: string, lo: nat, hi: nat) {
    forall j :: lo <= j < hi ==> !SepAt(t, j)
  }

  predicate AllSepIn(t: string, lo: nat, hi: nat) {
    forall j :: lo <= j < hi ==> SepAt(t, j)
  }

  /** The first index from `i` on that holds no separator. */
  function SkipSeps(t: string, i: nat): (r: nat)
    requires i <= |t|
    ensures i <= r <= |t|
    decreases |t| - i
  {
    if SepAt(t, i) then SkipSeps(t, i + 1) else i
  }

  /** The first index from `i` on that holds a separator or ends the text. */
  function NextStop(t: string, i: nat): (r: nat)
    requires i <= |t|
    ensures i <= r <= |t| && (i < |t| && !SepAt(t, i) ==> i < r)
    decreases |t| - i
  {
    if i == |t| || SepAt(t, i) then i else NextStop(t, i + 1)
  }

  /** The last index up to `i` that follows no separator. */
  function SkipSepsBack(t: string, i: nat): (r: nat)
    requires i <= |t|
    ensures r <= i
  {
    if SepAt(t, i - 1) then SkipSepsBack(t, i - 1) else i
  }

  /** The last index up to `i` that starts the text or follows a separator. */
  function PreviousStop(t: string, i: nat): (r: nat)
    requires i <= |t|
    ensures r <= i && (0 < i && !SepAt(t, i - 1) ==> r < i)
  {
    if i == 0 || SepAt(t, i - 1) then i else PreviousStop(t, i - 1)
  }

  lemma ScanMeans(t: string, i: nat)
    requires i <= |t|
    ensures AllSepIn(t, i, SkipSeps(t, i)) && !SepAt(t, SkipSeps(t, i))
    ensures NoSepIn(t, i, NextStop(t, i)) && (NextStop(t, i) == |t| || SepAt(t, NextStop(t, i)))
    decreases |t| - i
  {
  }

  lemma ScanBackMeans(t: string, i: nat)
    requires i <= |t|
    ensures AllSepIn(t, SkipSepsBack(t, i), i) && !SepAt(t, SkipSepsBack(t, i) - 1)
    ensures NoSepIn(t, PreviousStop(t, i), i) && (PreviousStop(t, i) == 0 || SepAt(t, PreviousStop(t, i) - 1))
  {
  }

  /** The segment that starts at or after index `i`. */
  function NextSegment(t: string, i: nat): (r: Range)
    requires i <= |t|
    ensures r.Segment? ==> i <= r.begin < r.end <= |t|
  {
    var b := SkipSeps(t, i);
    if b == |t| then NoSegment
    else
      ScanMeans(t, i);
      Segment(b, NextStop(t, b))
  }

  /** The segment that ends at or before index `i`. */
  function PreviousSegment(t: string, i: nat): (r: Range)
    requires i <= |t|
    ensures r.Segment? ==> r.begin < r.end <= i
  {
    var e := SkipSepsBack(t, i);
    if e == 0 then NoSegment
    else
      ScanBackMeans(t, i);
      Segment(PreviousStop(t, e), e)
  }

  lemma NextSegmentMeans(t: string, i: nat)
    requires i <= |t|
    ensures var r := NextSegment(t, i);
            if r.NoSegment? then AllSepIn(t, i, |t|)
            else AllSepIn(t, i, r.begin) && NoSepIn(t, r.begin, r.end) && (r.end == |t| || SepAt(t, r.end))
  {
    ScanMeans(t, i);
    ScanMeans(t, SkipSeps(t, i));
  }

  lemma PreviousSegmentMeans(t: string, i: nat)
    requires i <= |t|
    ensures var r := PreviousSegment(t, i);
            if r.NoSegment? then AllSepIn(t, 0, i)
            else AllSepIn(t, r.end, i) && NoSepIn(t, r.begin, r.end) && (r.begin == 0 || SepAt(t, r.begin - 1))
  {
    ScanBackMeans(t, i);
    ScanBackMeans(t, SkipSepsBack(t, i));
  }

  /** A maximal run of non-separators. */
  predicate IsSegmentAt(t: string, b: nat, e: nat) {
    && b < e <= |t|
    && NoSepIn(t, b, e)
    && (b == 0 || SepAt(t, b - 1))
    && (e == |t| || SepAt(t, e))
  }

  /** Index `i` does not lie inside a segment. */
  predicate IsCut(t: string, i: nat) {
    i <= |t| && (i == 0 || i == |t| || SepAt(t, i - 1) || SepAt(t, i))
  }

  /** The segments that start at or after `i`, in order. */
  function SegmentsFrom(t: string, i: nat): (r: seq<string>)
    requires i <= |t|
    decreases |t| - i
  {
    match NextSegment(t, i)
    case NoSegment => []
    case Segment(b, e) => [t[b..e]] + SegmentsFrom(t, e)
  }

  function Segments(t: string): (r: seq<string>) {
    SegmentsFrom(t, 0)
  }

  /** The segments that end at or before `i`, in order. */
  function SegmentsUpTo(t: string, i: nat): (r: seq<string>)
    requires i <= |t|
  {
    match PreviousSegment(t, i)
    case NoSegment => []
    case Segment(b, e) => SegmentsUpTo(t, b) + [t[b..e]]
  }

  // ----- the scans find exactly the neighbouring segments -----

  lemma NextSegmentIs(t: string, i: nat, b: nat, e: nat)
    requires i <= b && IsSegmentAt(t, b, e) && AllSepIn(t, i, b)
    ensures NextSegment(t, i) == Segment(b, e)
    decreases b - i
  {
    if i < b {
      assert SepAt(t, i);
      NextSegmentIs(t, i + 1, b, e);
    } else {
      assert !SepAt(t, i);
      NextStopIs(t, b, e);
    }
  }

  lemma NextStopIs(t: string, i: nat, e: nat)
    requires i <= e <= |t| && NoSepIn(t, i, e) && (e == |t| || SepAt(t, e))
    ensures NextStop(t, i) == e
    decreases e - i
  {
    if i < e {
      assert !SepAt(t, i);
      NextStopIs(t, i + 1, e);
    }
  }

  lemma PreviousSegmentIs(t: string, i: nat, b: nat, e: nat)
    requires e <= i <= |t| && IsSegmentAt(t, b, e) && AllSepIn(t, e, i)
    ensures PreviousSegment(t, i) == Segment(b, e)
    decreases i
  {
    if e < i {
      assert SepAt(t, i - 1);
      PreviousSegmentIs(t, i - 1, b, e);
    } else {
      assert !SepAt(t, i - 1);
      PreviousStopIs(t, e, b);
    }
  }

  lemma PreviousStopIs(t: string, i: nat, b: nat)
    requires b <= i <= |t| && NoSepIn(t, b, i) && (b == 0 || SepAt(t, b - 1))
    ensures PreviousStop(t, i) == b
    decreases i
  {
    if b < i {
      assert !SepAt(t, i - 1);
      PreviousStopIs(t, i - 1, b);
    }
  }

  /** Stepping back undoes stepping forward. */
  lemma PreviousUndoesNext(t: string, b: nat, e: nat)
    requires IsSegmentAt(t, b, e) && NextSegment(t, e).Segment?
    ensures var n := NextSegment(t, e);
            IsSegmentAt(t, n.begin, n.end) && PreviousSegment(t, n.begin) == Segment(b, e)
  {
    NextSegmentMeans(t, e);
    var n := NextSegment(t, e);
    assert SepAt(t, e);
    assert n.begin > e;
    assert SepAt(t, n.begin - 1);
    PreviousSegmentIs(t, n.begin, b, e);
  }

  /** Stepping forward undoes stepping back. */
  lemma NextUndoesPrevious(t: string, b: nat, e: nat)
    requires IsSegmentAt(t, b, e) && PreviousSegment(t, b).Segment?
    ensures var p := PreviousSegment(t, b);
            IsSegmentAt(t, p.begin, p.end) && NextSegment(t, p.end) == Segment(b, e)
  {
    PreviousSegmentMeans(t, b);
    var p := PreviousSegment(t, b);
    assert SepAt(t, b - 1);
    assert p.end < b;
    assert SepAt(t, p.end);
    NextSegmentIs(t, p.end, b, e);
  }

  /** Seen from a cut position, the previous segment is a whole segment. */
  lemma PreviousIsWhole(t: string, i: nat)
    requires IsCut(t, i) && PreviousSegment(t, i).Segment?
    ensures var p := PreviousSegment(t, i); IsSegmentAt(t, p.begin, p.end)
  {
    PreviousSegmentMeans(t, i);
    var p := PreviousSegment(t, i);
    if p.end < i { assert SepAt(t, p.end); } else { assert !SepAt(t, i - 1); }
  }

  /** A cut position splits the segment list. */
  lemma {:induction false} CutSplits(t: string, i: nat)
    requires IsCut(t, i)
    ensures SegmentsUpTo(t, i) + SegmentsFrom(t, i) == Segments(t)
    decreases i
  {
    hide SkipSeps, SkipSepsBack, NextStop, PreviousStop, NextSegment, PreviousSegment;
    var p := PreviousSegment(t, i);
    PreviousSegmentMeans(t, i);
    if p.NoSegment? {
      SkipLeading(t, 0, i);
    } else {
      PreviousIsWhole(t, i);
      var s := t[p.begin..p.end];
      assert SegmentsFrom(t, p.begin) == [s] + SegmentsFrom(t, i) by {
        NextSegmentIs(t, p.begin, p.begin, p.end);
        SkipLeading(t, p.end, i);
      }
      assert SegmentsUpTo(t, i) == SegmentsUpTo(t, p.begin) + [s];
      CutSplits(t, p.begin);
    }
  }

  lemma {:induction false} SkipLeading(t: string, i: nat, j: nat)
    requires i <= j <= |t| && AllSepIn(t, i, j)
    ensures SegmentsFrom(t, i) == SegmentsFrom(t, j)
    decreases j - i
  {
    if i < j {
      assert SepAt(t, i);
      SkipLeading(t, i + 1, j);
    }
  }

  /** The list around one segment. */
  lemma SegmentSplits(t: string, b: nat, e: nat)
    requires IsSegmentAt(t, b, e)
    ensures Segments(t) == SegmentsUpTo(t, b) + [t[b..e]] + SegmentsFrom(t, e)
  {
    CutSplits(t, b);
    NextSegmentIs(t, b, b, e);
  }

  // ----- the lists depend only on the part of the text they scan -----

  lemma {:induction false} ScansOfSuffix(t: string, u: string, i: nat)
    requires i <= |t| == |u| && t[i..] == u[i..]
    ensures SkipSeps(t, i) == SkipSeps(u, i) && NextStop(t, i) == NextStop(u, i)
    decreases |t| - i
  {
    if i < |t| {
      assert t[i] == t[i..][0] == u[i..][0] == u[i];
      assert t[i + 1..] == t[i..][1..] == u[i + 1..];
      ScansOfSuffix(t, u, i + 1);
    }
  }

  lemma NextSegmentOfSuffix(t: string, u: string, i: nat)
    requires i <= |t| == |u| && t[i..] == u[i..]
    ensures NextSegment(t, i) == NextSegment(u, i)
  {
    hide SkipSeps, NextStop;
    ScansOfSuffix(t, u, i);
    var b := SkipSeps(t, i);
    ShorterSuffix(t, u, i, b);
    ScansOfSuffix(t, u, b);
  }

  lemma SuffixSlice(t: string, u: string, i: nat, b: nat, e: nat)
    requires i <= b <= e <= |t| == |u| && t[i..] == u[i..]
    ensures t[b..e] == u[b..e]
  {
    assert t[b..e] == t[i..][b - i..e - i] == u[b..e];
  }

  lemma ShorterSuffix(t: string, u: string, i: nat, j: nat)
    requires i <= j <= |t| == |u| && t[i..] == u[i..]
    ensures t[j..] == u[j..]
  {
    assert t[j..] == t[i..][j - i..] == u[j..];
  }

  lemma {:induction false} SegmentsFromSuffix(t: string, u: string, i: nat)
    requires i <= |t| == |u| && t[i..] == u[i..]
    ensures NextSegment(t, i) == NextSegment(u, i)
    ensures SegmentsFrom(t, i) == SegmentsFrom(u, i)
    decreases |t| - i
  {
    hide NextSegment;
    NextSegmentOfSuffix(t, u, i);
    var n := NextSegment(t, i);
    if n.Segment? {
      var b, e := n.begin, n.end;
      SuffixSlice(t, u, i, b, e);
      ShorterSuffix(t, u, i, e);
      SegmentsFromSuffix(t, u, e);
    }
  }

  lemma {:induction false} ScansOfPrefix(t: string, i: nat, j: nat)
    requires j <= i <= |t|
    ensures SkipSepsBack(t[..i], j) == SkipSepsBack(t, j) && PreviousStop(t[..i], j) == PreviousStop(t, j)
    decreases j
  {
    if j > 0 {
      assert t[..i][j - 1] == t[j - 1];
      ScansOfPrefix(t, i, j - 1);
    }
  }

  lemma {:induction false} SegmentsUpToPrefix(t: string, i: nat, j: nat)
    requires j <= i <= |t|
    ensures SegmentsUpTo(t[..i], j) == SegmentsUpTo(t, j)
    decreases j
  {
    ScansOfPrefix(t, i, j);
    var e := SkipSepsBack(t, j);
    ScansOfPrefix(t, i, e);
    if e > 0 {
      var b := PreviousStop(t, e);
      assert t[..i][b..e] == t[b..e];
      SegmentsUpToPrefix(t, i, b);
    }
  }

  /** The segments of a prefix are the segments up to its end. */
  lemma SegmentsOfPrefix(t: string, i: nat)
    requires i <= |t|
    ensures Segments(t[..i]) == SegmentsUpTo(t, i)
  {
    CutSplits(t[..i], i);
    SegmentsUpToPrefix(t, i, i);
  }

  lemma {:induction false} ScansOfShift(t: string, i: nat, k: nat)
    requires i + k <= |t|
    ensures i + SkipSeps(t[i..], k) == SkipSeps(t, i + k)
    ensures i + NextStop(t[i..], k) == NextStop(t, i + k)
    decreases |t| - k
  {
    if i + k < |t| {
      assert t[i..][k] == t[i + k];
      ScansOfShift(t, i, k + 1);
    }
  }

  lemma {:induction false} SegmentsShift(t: string, i: nat, k: nat)
    requires i + k <= |t|
    ensures SegmentsFrom(t[i..], k) == SegmentsFrom(t, i + k)
    decreases |t| - k
  {
    ScansOfShift(t, i, k);
    var b := SkipSeps(t[i..], k);
    ScansOfShift(t, i, b);
    if i + b < |t| {
      var e := NextStop(t[i..], b);
      assert t[i..][b..e] == t[i + b..i + e];
      SegmentsShift(t, i, e);
    }
  }

  /** Joining two texts at a cut joins their segment lists. */
  lemma SegmentsOfJoin(a: string, b: string)
    requires IsCut(a + b, |a|)
    ensures Segments(a + b) == Segments(a) + Segments(b)
  {
    var t := a + b;
    CutSplits(t, |a|);
    SegmentsOfPrefix(t, |a|);
    SegmentsShift(t, |a|, 0);
    assert t[..|a|] == a && t[|a|..] == b;
  }

  // ----- what a segment looks like -----

  predicate IsSegmentText(s: string) {
    s != [] && NoSepIn(s, 0, |s|)
  }

  predicate AllSegmentTexts(segs: seq<string>) {
    forall i :: 0 <= i < |segs| ==> IsSegmentText(segs[i])
  }

  lemma {:induction false} SegmentsAreSegmentTexts(t: string, i: nat)
    requires i <= |t|
    ensures AllSegmentTexts(SegmentsFrom(t, i))
    decreases |t| - i
  {
    NextSegmentMeans(t, i);
    var n := NextSegment(t, i);
    if n.Segment? {
      assert IsSegmentText(t[n.begin..n.end]) by {
        assert forall j :: 0 <= j < n.end - n.begin ==> SepAt(t[n.begin..n.end], j) == SepAt(t, n.begin + j);
      }
      SegmentsAreSegmentTexts(t, n.end);
    }
  }

  lemma SegmentsOfSegmentText(s: string)
    requires IsSegmentText(s)
    ensures Segments(s) == [s]
  {
    NextSegmentIs(s, 0, 0, |s|);
    assert s[0..|s|] == s;
    assert SegmentsFrom(s, |s|) == [];
  }

  // ----- whole segments stay whole under stepping -----

  lemma FirstIsWhole(t: string, first: nat)
    requires first <= |t| && (first == 0 || SepAt(t, first - 1)) && NextSegment(t, first).Segment?
    ensures var n := NextSegment(t, first); IsSegmentAt(t, n.begin, n.end)
  {
    NextSegmentMeans(t, first);
    var n := NextSegment(t, first);
    if first < n.begin { assert SepAt(t, n.begin - 1); }
  }

  lemma NextIsWhole(t: string, b: nat, e: nat)
    requires IsSegmentAt(t, b, e)
    ensures var n := NextSegment(t, e); n.Segment? ==> IsSegmentAt(t, n.begin, n.end) && n.begin > e
  {
    if NextSegment(t, e).Segment? { PreviousUndoesNext(t, b, e); }
  }

  lemma NoSegmentAnywhere(t: string, first: nat)
    requires first <= |t| && (first == 0 || (first == 1 && SepAt(t, 0)))
    requires NextSegment(t, first).NoSegment?
    ensures PreviousSegment(t, |t|).NoSegment?
  {
    NextSegmentMeans(t, first);
    SkipBackAll(t, |t|);
  }

  lemma {:induction false} SkipBackAll(t: string, i: nat)
    requires i <= |t| && AllSepIn(t, 0, i)
    ensures SkipSepsBack(t, i) == 0
  {
    if i > 0 {
      assert SepAt(t, i - 1);
      SkipBackAll(t, i - 1);
    }
  }

  lemma LastIsPrevious(t: string, b: nat, e: nat)
    requires IsSegmentAt(t, b, e) && NextSegment(t, e).NoSegment?
    ensures PreviousSegment(t, |t|) == Segment(b, e)
  {
    NextSegmentMeans(t, e);
    PreviousSegmentIs(t, |t|, b, e);
  }
}
