/** Normalising a path inside its own buffer: later scans read what earlier steps wrote. */
module PathInPlace {
  import opened PathSegments
  import opened PathReduction
  import opened PathSplits
  import opened PathText
  import opened PathOutput

  /** The output after one more segment. */
  function Extend(root: string, out: string, s: string): string {
    if out == root then out + s else out + "/" + s
  }

  /** The output ends before position `b`, with room for a separator once a segment was written. */
  predicate Fits(root: string, out: string, b: nat) {
    |out| + (if out == root then 0 else 1) <= b
  }

  /** The segment at `b..e` after `out` was written over the beginning of the text: its own characters and
      what follows are intact, what precedes it is what the text now shows. */
  predicate RemovedInPlace(t: string, size: nat, b: nat, e: nat, out: string)
    requires IsSegmentAt(t, b, e) && |out| <= b
  {
    WillBeRemoved(SegmentsUpTo(Written(t, size, out), b), t[b..e], SegmentsFrom(t, e), IsAbsolute(t))
  }

  /** The output from the segment at `b..e` on. */
  function InPlaceFrom(t: string, size: nat, b: nat, e: nat, out: string): string
    requires IsSegmentAt(t, b, e) && Fits(Root(IsAbsolute(t)), out, b)
    decreases |t| - b
  {
    var next := if RemovedInPlace(t, size, b, e, out) then out
                else Extend(Root(IsAbsolute(t)), out, t[b..e]);
    match NextSegment(t, e)
    case NoSegment => next
    case Segment(c, f) =>
      NextIsWhole(t, b, e);
      InPlaceFrom(t, size, c, f, next)
  }

  function InPlaceText(t: string, size: nat): string {
    var root := Root(IsAbsolute(t));
    match NextSegment(t, |root|)
    case NoSegment => root
    case Segment(b, e) =>
      FirstIsWhole(t, |root|);
      var out := InPlaceFrom(t, size, b, e, root);
      if out == "" then "." else out
  }

  lemma ExtendJoined(root: string, kept: seq<string>, s: string)
    requires AllSegmentTexts(kept)
    ensures Extend(root, root + Joined(kept), s) == root + Joined(kept + [s])
    ensures root + Joined(kept) == root <==> kept == []
  {
    if kept == [] {
      assert root + "" == root;
    } else {
      JoinedStartsPlain(kept);
      assert (kept + [s])[..|kept|] == kept;
      assert |root + Joined(kept)| > |root|;
      assert root + Joined(kept) + "/" + s == root + (Joined(kept) + "/" + s);
    }
  }

  lemma {:induction false} KeptAreSegmentTexts(all: seq<string>, k: nat, absolute: bool)
    requires k <= |all| && AllSegmentTexts(all)
    ensures AllSegmentTexts(VisibleUpTo(all, k, absolute))
    decreases k
  {
    if k > 0 { KeptAreSegmentTexts(all, k - 1, absolute); }
  }

  /** One segment on, the output still renders what survives. */
  lemma ExtendVisible(all: seq<string>, before: seq<string>, s: string, after: seq<string>, absolute: bool,
                      out: string, next: string)
    requires all == before + [s] + after && AllSegmentTexts(all)
    requires out == Root(absolute) + Joined(VisibleUpTo(all, |before|, absolute))
    requires next == if WillBeRemoved(before, s, after, absolute) then out else Extend(Root(absolute), out, s)
    ensures next == Root(absolute) + Joined(VisibleUpTo(all, |before| + 1, absolute))
  {
    var kept := VisibleUpTo(all, |before|, absolute);
    VisibleStep(all, before, s, after, absolute);
    KeptAreSegmentTexts(all, |before|, absolute);
    ExtendJoined(Root(absolute), kept, s);
    assert kept + [] == kept;
  }

  lemma WrittenSuffix(t: string, size: nat, out: string, i: nat)
    requires |out| <= i <= |t|
    ensures Written(t, size, out)[i..] == t[i..]
    ensures SegmentsFrom(Written(t, size, out), i) == SegmentsFrom(t, i)
    ensures NextSegment(Written(t, size, out), i) == NextSegment(t, i)
  {
    SegmentsFromSuffix(Written(t, size, out), t, i);
  }

  lemma TextOfWritten(mem: seq<char>, size: nat, out: string)
    requires Terminated(mem) && NUL !in out && |out| <= StrLen(mem)
    ensures var w := Written(mem, size, out);
            Terminated(w) && Text(w) == Written(Text(mem), size, out)
  {
    var w, n := Written(mem, size, out), StrLen(mem);
    StrLenMeans(mem);
    assert forall i :: 0 <= i < Min(|out|, size) ==> w[i] == out[i] && out[i] in out;
    StrLenIs(w, n);
  }

  /** For an absolute path the scans never look back, so working in place changes nothing. */
  lemma {:induction false} InPlaceFromAbsolute(t: string, size: nat, b: nat, e: nat, out: string)
    requires IsAbsolute(t) && IsSegmentAt(t, b, e) && Fits("/", out, b)
    requires |SegmentsUpTo(t, b)| <= |Segments(t)|
    requires out == "/" + Joined(VisibleUpTo(Segments(t), |SegmentsUpTo(t, b)|, true))
    ensures InPlaceFrom(t, size, b, e, out) == "/" + Joined(Reduce(Segments(t), true))
    decreases |t| - b
  {
    hide SegmentsFrom, SegmentsUpTo, NextSegment, Joined, Reduce, VisibleUpTo, KindOf, NormalScan, BackScan;
    var all, before, s, after := Segments(t), SegmentsUpTo(t, b), t[b..e], SegmentsFrom(t, e);
    SegmentSplits(t, b, e);
    assert RemovedInPlace(t, size, b, e, out) == WillBeRemoved(before, s, after, true);
    var kept := VisibleUpTo(all, |before|, true);
    var removed := RemovedInPlace(t, size, b, e, out);
    var next := if removed then out else Extend("/", out, s);
    SegmentsAreSegmentTexts(t, 0);
    ExtendVisible(all, before, s, after, true, out, next);
    NextInOne(t, b, e);
    match NextSegment(t, e)
    case NoSegment =>
      VisibleIsReduction(all, true);
    case Segment(c, f) =>
      SegmentSplits(t, c, f);
      InPlaceFromAbsolute(t, size, c, f, next);
  }

  lemma ExtendFits(root: string, out: string, s: string, b: nat)
    requires Fits(root, out, b)
    ensures var next := Extend(root, out, s); |next| <= b + |s| && out <= next
  {
  }

  /** What is left to do after the segment at `b..e`. */
  lemma InPlaceStep(t: string, size: nat, b: nat, e: nat, out: string, next: string)
    requires IsSegmentAt(t, b, e) && Fits(Root(IsAbsolute(t)), out, b)
    requires next == if RemovedInPlace(t, size, b, e, out) then out else Extend(Root(IsAbsolute(t)), out, t[b..e])
    ensures |next| <= e <= |t| && out <= next
    ensures SegmentsFrom(t, e) == [] <==> NextSegment(t, e).NoSegment?
    ensures NextSegment(Written(t, size, next), e) == NextSegment(t, e)
    ensures Written(t, size, out)[e..] == Written(t, size, next)[e..]
    ensures Root(IsAbsolute(t)) <= next ==> (IsAbsolute(t) ==> SepAt(Written(t, size, next), 0))
    ensures var n := NextSegment(t, e);
            if n.NoSegment? then InPlaceFrom(t, size, b, e, out) == next
            else && IsSegmentAt(t, n.begin, n.end) && e < n.begin
                 && Written(t, size, next)[n.begin..n.end] == t[n.begin..n.end]
                 && Fits(Root(IsAbsolute(t)), next, n.begin)
                 && InPlaceFrom(t, size, b, e, out) == InPlaceFrom(t, size, n.begin, n.end, next)
  {
    hide RemovedInPlace;
    NextIsWhole(t, b, e);
    ExtendFits(Root(IsAbsolute(t)), out, t[b..e], b);
    WrittenSuffix(t, size, next, e);
    WrittenSuffix(t, size, out, e);
    var n := NextSegment(t, e);
    if n.Segment? {
      WrittenSlice(t, size, next, n.begin, n.end);
    }
    WrittenStart(t, size, next);
  }

  lemma WrittenSlice(t: string, size: nat, out: string, i: nat, j: nat)
    requires |out| <= i <= j <= |t|
    ensures Written(t, size, out)[i..j] == t[i..j]
  {
  }

  lemma WrittenStart(t: string, size: nat, out: string)
    requires |out| <= |t|
    ensures IsAbsolute(t) && "/" <= out ==> SepAt(Written(t, size, out), 0)
  {
  }

  /** Stepping to the next segment of one text moves one place on in its list. */
  lemma NextInOne(t: string, b: nat, e: nat)
    requires IsSegmentAt(t, b, e)
    ensures var n := NextSegment(t, e);
            if n.NoSegment? then |Segments(t)| == |SegmentsUpTo(t, b)| + 1
            else e < n.begin && IsSegmentAt(t, n.begin, n.end)
                 && SegmentsUpTo(t, n.begin) == SegmentsUpTo(t, b) + [t[b..e]]
  {
    SegmentSplits(t, b, e);
    var n := NextSegment(t, e);
    if n.NoSegment? {
      assert SegmentsFrom(t, e) == [];
    } else {
      NextIsWhole(t, b, e);
      PreviousUndoesNext(t, b, e);
    }
  }

  /** Normalising an absolute path in its own buffer gives what a separate buffer would. */
  lemma InPlaceAbsolute(t: string, size: nat)
    requires IsAbsolute(t)
    ensures InPlaceText(t, size) == NormalizedText([t])
  {
    hide SegmentsUpTo, Joined, Reduce;
    AllSegmentsOne(t);
    SkipLeading(t, 0, 1);
    match NextSegment(t, 1)
    case NoSegment =>
      assert Segments(t) == [];
      assert Reduce([], true) == [] && Joined([]) == "" by { EmptyParts(); }
    case Segment(b, e) =>
      FirstIsWhole(t, 1);
      assert SegmentsFrom(t, 1) == [t[b..e]] + SegmentsFrom(t, e);
      SegmentSplits(t, b, e);
      assert |SegmentsUpTo(t, b)| == 0;
      EmptyParts();
      assert "/" + Joined([]) == "/";
      InPlaceFromAbsolute(t, size, b, e, "/");
  }
}
