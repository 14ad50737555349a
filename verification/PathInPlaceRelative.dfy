/** When normalising a relative path in its own buffer goes wrong. */
module PathInPlaceRelative {
  import opened PathSegments
  import opened PathReduction
  import opened PathSplits
  import opened PathText
  import opened PathOutput
  import opened PathInPlace

  // ----- scans over parts -----

  lemma {:induction false} BackScanSuffix(x: seq<string>, y: seq<string>, c: int)
    requires BackScan(y, c)
    ensures BackScan(x + y, c)
    decreases |y|
  {
    var rest, s := y[..|y| - 1], y[|y| - 1];
    assert (x + y)[..|x + y| - 1] == x + rest && (x + y)[|x + y| - 1] == s;
    match KindOf(s)
    case Normal => if c + 1 <= 0 { BackScanSuffix(x, rest, c + 1); }
    case Back => BackScanSuffix(x, rest, c - 1);
    case Current => BackScanSuffix(x, rest, c);
  }

  lemma TopAfterPush(p: seq<string>, s: string)
    ensures var n := TopNormals(Reduce(p, false));
            TopNormals(Reduce(p + [s], false)) ==
              match KindOf(s)
              case Normal => n + 1
              case Back => if n > 0 then n - 1 else 0
              case Current => n
  {
    ReduceLast(p, s, false);
    var stack := Reduce(p, false);
    assert (stack + [s])[..|stack|] == stack;
  }

  lemma {:induction false} TopNormalsSplit(x: seq<string>, y: seq<string>)
    ensures TopNormals(Reduce(x + y, false)) <= TopNormals(Reduce(x, false)) + TopNormals(Reduce(y, false))
    decreases |y|
  {
    if y == [] {
      assert x + y == x;
    } else {
      hide Reduce, TopNormals, KindOf;
      var rest, s := y[..|y| - 1], y[|y| - 1];
      assert x + y == (x + rest) + [s] && y == rest + [s];
      TopNormalsSplit(x, rest);
      TopAfterPush(x + rest, s);
      TopAfterPush(rest, s);
    }
  }

  /** Segments that come from a list with a ".." to pop them are gone up to that "..". */
  lemma {:induction false} Matching(all: seq<string>, k: nat, c: int) returns (j: nat)
    requires k <= |all| && c <= 0 && BackScan(all[..k], c) && Pops(all[k..]) >= 1 - c
    ensures j < k && BackScan(all[j..k], c)
    ensures VisibleUpTo(all, j, false) == VisibleUpTo(all, k, false)
    decreases k
  {
    hide Reduce, TopNormals;
    var before, s, after := all[..k - 1], all[k - 1], all[k..];
    assert all[..k][..k - 1] == before && all[k - 1..][0] == s && all[k - 1..][1..] == after;
    NormalScanCountsPops(after, 0);
    match KindOf(s)
    case Current =>
      j := Matching(all, k - 1, c);
      ScanLast(all, j, k, c);
    case Normal =>
      if c == 0 {
        j := k - 1;
        assert all[j..k] == [s];
      } else {
        j := Matching(all, k - 1, c + 1);
        ScanLast(all, j, k, c);
      }
    case Back =>
      BackScanCountsTop(before, c - 1);
      BackScanCountsTop(before, 0);
      j := Matching(all, k - 1, c - 1);
      ScanLast(all, j, k, c);
  }

  lemma ScanLast(all: seq<string>, j: nat, k: nat, c: int)
    requires j < k - 1 < |all|
    ensures var s := all[k - 1];
            BackScan(all[j..k], c) == match KindOf(s)
              case Normal => c + 1 > 0 || BackScan(all[j..k - 1], c + 1)
              case Back => BackScan(all[j..k - 1], c - 1)
              case Current => BackScan(all[j..k - 1], c)
  {
    var x := all[j..k];
    assert x[..|x| - 1] == all[j..k - 1] && x[|x| - 1] == all[k - 1];
  }

  // ----- stacks of ".." -----

  lemma {:induction false} OnTopOf(stack: seq<string>, x: seq<string>)
    requires forall i :: 0 <= i < |Reduce(x, false)| ==> KindOf(Reduce(x, false)[i]) == Normal
    ensures ReduceFrom(stack, x, false) == stack + Reduce(x, false)
    decreases |x|
  {
    if x == [] {
      assert stack + [] == stack;
    } else {
      hide Reduce, KindOf;
      var rest, s := x[..|x| - 1], x[|x| - 1];
      assert x == rest + [s];
      ReduceLast(rest, s, false);
      ReduceFromAppend(stack, rest, [s], false);
      var r := Reduce(rest, false);
      OnlyNormals(r, s);
      ReduceIsCanonical(rest, false);
      OnTopOf(stack, rest);
      PushOne(stack + r, s);
      if KindOf(s) == Back {
        assert (stack + r)[..|stack + r| - 1] == stack + r[..|r| - 1];
      }
    }
  }

  lemma PushOne(stack: seq<string>, s: string)
    ensures ReduceFrom(stack, [s], false) == Push(stack, s, false)
  {
    assert [s][1..] == [];
  }

  lemma OnlyNormals(r: seq<string>, s: string)
    requires forall i :: 0 <= i < |Push(r, s, false)| ==> KindOf(Push(r, s, false)[i]) == Normal
    ensures forall i :: 0 <= i < |r| ==> KindOf(r[i]) == Normal
    ensures KindOf(s) == Back ==> TopIsNormal(r)
  {
    var p := Push(r, s, false);
    match KindOf(s)
    case Current =>
    case Normal =>
      assert forall i :: 0 <= i < |r| ==> p[i] == r[i];
    case Back =>
      assert p != [] ==> KindOf(p[|p| - 1]) == Normal;
      if TopIsNormal(r) {
        assert forall i :: 0 <= i < |r| - 1 ==> p[i] == r[i];
      }
  }

  lemma UpsPush(n: nat)
    ensures Ups(n + 1) == Ups(n) + [".."]
    ensures !TopIsNormal(Ups(n))
  {
  }

  /** The last ".." that lies under the normal segments of a stack, and what comes after it. */
  lemma {:induction false} LastUp(x: seq<string>, r: nat, n: seq<string>) returns (j: nat)
    requires r > 0 && Reduce(x, false) == Ups(r) + n
    requires forall i :: 0 <= i < |n| ==> KindOf(n[i]) == Normal
    ensures j < |x| && x[j] == ".." && Reduce(x[..j], false) == Ups(r - 1)
    ensures Reduce(x[j + 1..], false) == n
    decreases |x|
  {
    if x == [] {
      EmptyParts();
    } else {
      var rest, s := x[..|x| - 1], x[|x| - 1];
      assert x == rest + [s];
      ReduceLast(rest, s, false);
      var stack := Reduce(rest, false);
      StackBefore(stack, s, r, n);
      hide *;
      if KindOf(s) == Back && stack == Ups(r - 1) {
        BackIs(s);
        j := |rest|;
        NothingAfter(x);
      } else {
        var m := stack[r..];
        assert stack == Ups(r) + m;
        j := LastUp(rest, r, m);
        LaterLast(x, j);
      }
    }
  }

  /** The stack before the last segment: it is the ".." itself, or the normal segments differ by one at most. */
  lemma StackBefore(stack: seq<string>, s: string, r: nat, n: seq<string>)
    requires r > 0 && Push(stack, s, false) == Ups(r) + n
    requires forall i :: 0 <= i < |n| ==> KindOf(n[i]) == Normal
    ensures if KindOf(s) == Back && stack == Ups(r - 1) then n == []
            else && r <= |stack| && stack == Ups(r) + stack[r..]
                 && (forall i :: 0 <= i < |stack[r..]| ==> KindOf(stack[r..][i]) == Normal)
                 && Push(stack[r..], s, false) == n
  {
    var all := Ups(r) + n;
    UpsAreBack(r);
    UpsPush(r - 1);
    match KindOf(s)
    case Current =>
    case Normal =>
      assert all[|all| - 1] == s && n != [];
      assert stack == all[..|all| - 1] == Ups(r) + n[..|n| - 1];
      assert n == n[..|n| - 1] + [s];
    case Back =>
      if TopIsNormal(stack) {
        PoppedBefore(stack, r, n);
      } else {
        assert all[|all| - 1] == s;
        assert n == [];
        assert all[..r - 1] == stack && all[..r - 1] == Ups(r - 1);
      }
  }

  lemma PoppedBefore(stack: seq<string>, r: nat, n: seq<string>)
    requires TopIsNormal(stack) && stack[..|stack| - 1] == Ups(r) + n
    requires forall i :: 0 <= i < |n| ==> KindOf(n[i]) == Normal
    ensures stack == Ups(r) + stack[r..] && r < |stack|
    ensures forall i :: 0 <= i < |stack[r..]| ==> KindOf(stack[r..][i]) == Normal
    ensures TopIsNormal(stack[r..]) && stack[r..][..|stack| - r - 1] == n
  {
    hide KindOf;
    var z := stack[|stack| - 1];
    assert stack == Ups(r) + (n + [z]);
    assert stack[r..] == n + [z];
  }

  lemma NothingAfter(x: seq<string>)
    requires x != []
    ensures x[|x| - 1 + 1..] == [] && Reduce(x[|x|..], false) == []
  {
  }

  lemma BackIs(s: string)
    ensures KindOf(s) == Back <==> s == ".."
  {
  }

  lemma UpsAreBack(r: nat)
    ensures forall i :: 0 <= i < r ==> KindOf(Ups(r)[i]) == Back
  {
  }

  lemma LaterLast(x: seq<string>, j: nat)
    requires j < |x| - 1
    ensures var rest, s := x[..|x| - 1], x[|x| - 1];
            && x[..j] == rest[..j] && x[j] == rest[j]
            && Reduce(x[j + 1..], false) == Push(Reduce(rest[j + 1..], false), s, false)
  {
    var rest, s := x[..|x| - 1], x[|x| - 1];
    assert x[j + 1..] == rest[j + 1..] + [s];
    ReduceLast(rest[j + 1..], s, false);
  }

  // ----- positions in the text -----

  /** The text after `out` was written over its beginning. */
  function Over(t: string, out: string): (r: string)
    requires |out| <= |t|
    ensures |r| == |t|
  {
    out + t[|out|..]
  }

  lemma OverIs(t: string, size: nat, out: string)
    requires |out| <= |t|
    ensures Written(t, size, out) == Over(t, out[..Min(|out|, size)])
  {
  }

  /** Segments up to `b` are those up to an earlier start of a segment and those between. */
  lemma UpToSplits(t: string, p: nat, b: nat)
    requires p <= b <= |t| && (p == 0 || SepAt(t, p - 1))
    ensures SegmentsUpTo(t, b) == SegmentsUpTo(t, p) + Segments(t[p..b])
  {
    SegmentsOfPrefix(t, b);
    SegmentsOfPrefix(t, p);
    assert t[..b] == t[..p] + t[p..b];
    assert p > 0 ==> SepAt(t[..b], p - 1);
    SegmentsOfJoin(t[..p], t[p..b]);
  }

  /** What lies behind the output is intact. */
  lemma IntactTail(t: string, out: string, p: nat, b: nat)
    requires |out| < p <= b <= |t| && SepAt(t, p - 1)
    ensures SegmentsUpTo(Over(t, out), b) == Segments(Over(t, out)[..p]) + Segments(t[p..b])
  {
    var w := Over(t, out);
    assert SepAt(w, p - 1) && w[p..b] == t[p..b];
    UpToSplits(w, p, b);
    SegmentsOfPrefix(w, p);
  }

  lemma LaterSegment(t: string, b1: nat, e1: nat, b2: nat, e2: nat)
    requires IsSegmentAt(t, b1, e1) && IsSegmentAt(t, b2, e2) && b1 < b2
    ensures e1 < b2 && |SegmentsUpTo(t, b1)| < |SegmentsUpTo(t, b2)|
  {
    assert SepAt(t, b2 - 1);
    UpToSplits(t, b1, b2);
    var u := t[b1..b2];
    assert forall i :: 0 <= i < |u| ==> SepAt(u, i) == SepAt(t, b1 + i);
    NextSegmentIs(u, 0, 0, e1 - b1);
  }

  lemma BySize(t: string, b1: nat, e1: nat, b2: nat, e2: nat)
    requires IsSegmentAt(t, b1, e1) && IsSegmentAt(t, b2, e2)
    requires |SegmentsUpTo(t, b1)| < |SegmentsUpTo(t, b2)|
    ensures e1 < b2
  {
    if b1 < b2 {
      LaterSegment(t, b1, e1, b2, e2);
    } else if b2 < b1 {
      LaterSegment(t, b2, e2, b1, e1);
    }
  }

  lemma JoinedStep(segs: seq<string>, s: string)
    requires AllSegmentTexts(segs)
    ensures |Joined(segs + [s])| == |Joined(segs)| + (if segs == [] then 0 else 1) + |s|
    ensures Joined(segs) == "" <==> segs == []
  {
    if segs != [] {
      JoinedStartsPlain(segs);
      assert (segs + [s])[..|segs|] == segs;
    }
  }

  /** Where a segment of the list stands; the output of what survives before it ends in front of it. */
  lemma {:induction false} PositionOf(t: string, j: nat) returns (b: nat, e: nat)
    requires j < |Segments(t)|
    ensures IsSegmentAt(t, b, e) && SegmentsUpTo(t, b) == Segments(t)[..j] && t[b..e] == Segments(t)[j]
    ensures Fits("", Joined(VisibleUpTo(Segments(t), j, false)), b)
    decreases j
  {
    hide SegmentsUpTo, WillBeRemoved, Joined;
    var all := Segments(t);
    if j == 0 {
      FirstIsWhole(t, 0);
      var n := NextSegment(t, 0);
      b, e := n.begin, n.end;
      SegmentSplits(t, b, e);
      assert all == [t[b..e]] + SegmentsFrom(t, e);
      assert |SegmentsUpTo(t, b)| == 0;
      EmptyParts();
      assert Joined(VisibleUpTo(all, 0, false)) == "";
    } else {
      hide SegmentsFrom;
      var b0, e0 := PositionOf(t, j - 1);
      NextInOne(t, b0, e0);
      SegmentSplits(t, b0, e0);
      var n := NextSegment(t, e0);
      b, e := n.begin, n.end;
      SegmentSplits(t, b, e);
      assert all[..j - 1] + [all[j - 1]] == all[..j];
      SegmentsAreSegmentTexts(t, 0);
      KeptAreSegmentTexts(all, j - 1, false);
      var kept := VisibleUpTo(all, j - 1, false);
      JoinedStep(kept, all[j - 1]);
      assert kept + [] == kept && |all[j - 1]| == e0 - b0;
      assert VisibleUpTo(all, j, false) == kept || VisibleUpTo(all, j, false) == kept + [all[j - 1]];
    }
  }

  // ----- a ".." that disappears, disappears in place too -----

  /** The segments that survive before the segment at `b`. */
  function Kept(t: string, b: nat): seq<string>
    requires b <= |t| && |SegmentsUpTo(t, b)| <= |Segments(t)|
  {
    VisibleUpTo(Segments(t), |SegmentsUpTo(t, b)|, false)
  }

  lemma Around(t: string, b: nat, e: nat)
    requires IsSegmentAt(t, b, e)
    ensures var all, k := Segments(t), |SegmentsUpTo(t, b)|;
            k < |all| && all[..k] == SegmentsUpTo(t, b) && all[k] == t[b..e] && all[k + 1..] == SegmentsFrom(t, e)
  {
    SegmentSplits(t, b, e);
  }

  lemma RemovedStays(t: string, b: nat, e: nat, out: string)
    requires IsSegmentAt(t, b, e) && t[b..e] == ".." && BackScan(SegmentsUpTo(t, b), 0)
    requires |SegmentsUpTo(t, b)| <= |Segments(t)| && |out| <= |t| && |out| <= |Joined(Kept(t, b))|
    ensures BackScan(SegmentsUpTo(Over(t, out), b), 0)
  {
    hide SegmentsUpTo, SegmentsFrom, BackScan, VisibleUpTo, Joined;
    Around(t, b, e);
    var all, k := Segments(t), |SegmentsUpTo(t, b)|;
    assert all[k..][0] == "..";
    var j := Matching(all, k, 0);
    var bj, ej := PositionOf(t, j);
    if out == "" {
      assert Over(t, out) == t;
    } else {
      BySize(t, bj, ej, b, e);
      IntactTail(t, out, bj, b);
      UpToSplits(t, bj, b);
      assert all[..k] == all[..j] + all[j..k];
      BackScanSuffix(Segments(Over(t, out)[..bj]), all[j..k], 0);
    }
  }

  // ----- a ".." that survives -----

  /** The segment at `b..e` is a ".." that survives. */
  predicate KeptBack(t: string, b: nat, e: nat) {
    && IsSegmentAt(t, b, e) && t[b..e] == ".."
    && |SegmentsUpTo(t, b)| <= |Segments(t)|
    && !BackScan(SegmentsUpTo(t, b), 0)
  }

  lemma UpsOrNormals(stack: seq<string>)
    requires Canonical(stack, false) && TopNormals(stack) == 0
    ensures stack == Ups(|stack|)
  {
    if stack != [] {
      assert KindOf(stack[|stack| - 1]) == Back;
      assert forall i :: 0 <= i < |stack| ==> stack[i] == "..";
    }
  }

  /** Before a ".." that survives, only ".." survives. */
  lemma KeptIsUps(t: string, b: nat, e: nat)
    requires KeptBack(t, b, e)
    ensures var r := |Kept(t, b)|; Kept(t, b) == Ups(r) && Reduce(SegmentsUpTo(t, b), false) == Ups(r)
  {
    Around(t, b, e);
    var all, k := Segments(t), |SegmentsUpTo(t, b)|;
    BackScanCountsTop(all[..k], 0);
    ReduceIsCanonical(all[..k], false);
    UpsOrNormals(Reduce(all[..k], false));
    VisibleIsStackLessPops(all, k, false);
    UpsPush(|Reduce(all[..k], false)|);
  }

  lemma EndSplits(t: string, b1: nat, e1: nat, b: nat)
    requires IsSegmentAt(t, b1, e1) && e1 < b <= |t|
    ensures SegmentsUpTo(t, b) == SegmentsUpTo(t, b1) + [t[b1..e1]] + Segments(t[e1..b])
  {
    SegmentsOfPrefix(t, b);
    SegmentsOfPrefix(t, e1);
    assert t[..b] == t[..e1] + t[e1..b];
    assert SepAt(t[..b], e1);
    SegmentsOfJoin(t[..e1], t[e1..b]);
    PreviousSegmentIs(t, e1, b1, e1);
  }

  /** The ".." that survives next before, and nothing that survives between. */
  lemma LastBefore(t: string, b: nat, e: nat) returns (b1: nat, e1: nat)
    requires KeptBack(t, b, e) && Kept(t, b) != []
    ensures var r := |Kept(t, b)|;
            && KeptBack(t, b1, e1) && |Kept(t, b1)| == r - 1
            && e1 < b && b1 >= 3 * (r - 1)
            && Reduce(SegmentsUpTo(t, b1), false) == Ups(r - 1)
            && Reduce(Segments(t[e1..b]), false) == []
  {
    hide SegmentsUpTo, SegmentsFrom, BackScan, VisibleUpTo, Reduce, Joined;
    var r := |Kept(t, b)|;
    var all, k := Segments(t), |SegmentsUpTo(t, b)|;
    KeptIsUps(t, b, e);
    Around(t, b, e);
    assert Ups(r) + [] == Ups(r);
    var j := LastUp(all[..k], r, []);
    assert all[..k][..j] == all[..j] && all[..k][j] == all[j];
    b1, e1 := PositionOf(t, j);
    BackScanCountsTop(all[..j], 0);
    UpsPush(r - 1);
    assert KeptBack(t, b1, e1);
    KeptIsUps(t, b1, e1);
    assert |Kept(t, b1)| == r - 1;
    JoinedUps(r - 1);
    BySize(t, b1, e1, b, e);
    EndSplits(t, b1, e1, b);
    assert all[..k][j + 1..] == Segments(t[e1..b]);
  }

  lemma UpsAreTexts(r: nat)
    ensures AllSegmentTexts(Ups(r))
  {
    assert forall i :: 0 <= i < r ==> Ups(r)[i] == "..";
  }

  lemma {:induction false} JoinedUps(r: nat)
    ensures |Joined(Ups(r))| == if r == 0 then 0 else 3 * r - 1
    ensures Joined(Ups(r)) == "" <==> r == 0
    decreases r
  {
    if r > 0 {
      JoinedUps(r - 1);
      UpsPush(r - 1);
      UpsAreTexts(r - 1);
      JoinedStep(Ups(r - 1), "..");
    }
  }

  /** Text that follows a joined list without a separator lengthens its last segment. */
  lemma JoinedTail(segs: seq<string>, s: string, u: string)
    ensures Joined(segs + [s]) + u == Joined(segs + [s + u])
  {
    assert (segs + [s])[..|segs|] == segs && (segs + [s + u])[..|segs|] == segs;
    if segs != [] {
      assert Joined(segs) + "/" + s + u == Joined(segs) + "/" + (s + u);
    }
  }

  /** The output read back together with the text that follows it. */
  lemma ReadBack(r: nat, u: string, v: string)
    requires r > 0 && NoSepIn(u, 0, |u|) && (v == "" || SepAt(v, 0))
    ensures Segments(Joined(Ups(r)) + u + v) == Ups(r - 1) + [".." + u] + Segments(v)
  {
    var segs := Ups(r - 1) + [".." + u];
    UpsPush(r - 1);
    UpsAreTexts(r - 1);
    JoinedTail(Ups(r - 1), "..", u);
    var z := ".." + u;
    assert IsSegmentText(z) by {
      assert forall i :: 2 <= i < |z| ==> SepAt(z, i) == SepAt(u, i - 2);
    }
    SegmentsOfJoined("", segs);
    assert "" + Joined(segs) == Joined(segs);
    var a := Joined(Ups(r)) + u;
    assert v != "" ==> SepAt(a + v, |a|);
    SegmentsOfJoin(a, v);
  }

  /** The ".." moved by less than its length: what is left of it follows its new place directly. */
  lemma NearSegments(t: string, b1: nat, e1: nat, b: nat, r: nat)
    requires IsSegmentAt(t, b1, e1) && t[b1..e1] == ".." && e1 < b <= |t| && r > 0
    requires 3 * (r - 1) <= b1 <= 3 * (r - 1) + 2
    ensures |Joined(Ups(r))| == 3 * r - 1 <= e1
    ensures var u := t[3 * r - 1..e1];
            && u == ".."[2 - |u|..]
            && SegmentsUpTo(Over(t, Joined(Ups(r))), b) == Ups(r - 1) + [".." + u] + Segments(t[e1..b])
  {
    hide SegmentsUpTo, Joined;
    JoinedUps(r);
    var out := Joined(Ups(r));
    var u, v := t[|out|..e1], t[e1..b];
    assert u == t[b1..e1][2 - |u|..];
    assert SepAt(t, e1);
    assert SepAt(v, 0);
    NearText(u);
    SegmentsOfPrefix(Over(t, out), b);
    OverParts(t, out, e1, b);
    hide *;
    ReadBack(r, u, v);
  }

  lemma NearText(u: string)
    requires |u| <= 2 && u == ".."[2 - |u|..]
    ensures NoSepIn(u, 0, |u|)
  {
  }

  lemma OverParts(t: string, out: string, e: nat, b: nat)
    requires |out| <= e <= b <= |t|
    ensures Over(t, out)[..b] == out + t[|out|..e] + t[e..b]
  {
  }

  /** Moved by nothing, the ".." survives on; moved by one or two, the next ".." takes the rest for its pair. */
  lemma NearDecides(r: nat, u: string, between: seq<string>)
    requires r > 0 && |u| <= 2 && u == ".."[2 - |u|..] && Reduce(between, false) == []
    ensures BackScan(Ups(r - 1) + [".." + u] + between, 0) <==> u != ""
  {
    hide Reduce, BackScan, TopNormals;
    var front := Ups(r - 1);
    var x := front + [".." + u];
    BackScanCountsTop(x + between, 0);
    UpsReduce(r - 1);
    ReduceLast(front, ".." + u, false);
    UpsPush(r - 1);
    var stack := Push(front, ".." + u, false);
    NearKind(u);
    ReduceFromAppend([], x, between, false);
    assert Reduce(x + between, false) == ReduceFrom(stack, between, false) by { ReduceIs(x, between); }
    OnTopOf(stack, between);
    assert stack + [] == stack;
    TopOf(stack);
  }

  lemma ReduceIs(x: seq<string>, y: seq<string>)
    ensures Reduce(x + y, false) == ReduceFrom(Reduce(x, false), y, false)
  {
    ReduceFromAppend([], x, y, false);
  }

  lemma NearKind(u: string)
    requires |u| <= 2 && u == ".."[2 - |u|..]
    ensures KindOf(".." + u) == if u == "" then Back else Normal
  {
    assert |".." + u| == 2 + |u|;
    if u == "" { assert ".." + u == ".."; }
  }

  lemma UpsReduce(n: nat)
    ensures Reduce(Ups(n), false) == Ups(n)
  {
    ReduceFixesCanonical(Ups(n), false);
  }

  lemma TopOf(stack: seq<string>)
    ensures TopNormals(stack) > 0 <==> TopIsNormal(stack)
  {
  }

  /** The dots and separators of the output. */
  lemma {:induction false} CharOfUps(r: nat, i: nat)
    requires i < |Joined(Ups(r))|
    ensures |Joined(Ups(r))| == (if r == 0 then 0 else 3 * r - 1)
    ensures Joined(Ups(r))[i] == if i % 3 == 2 then '/' else '.'
    decreases r
  {
    JoinedUps(r);
    UpsPush(r - 1);
    JoinedUps(r - 1);
    assert Ups(r)[..r - 1] == Ups(r - 1);
    if r == 1 {
      assert Joined(Ups(1)) == "..";
    } else {
      assert Joined(Ups(r)) == Joined(Ups(r - 1)) + "/" + "..";
      if i < 3 * r - 4 { CharOfUps(r - 1, i); }
    }
  }

  /** The first `n` characters of the output read back together with the text that follows them. */
  lemma ReadCut(r: nat, n: nat, u: string, v: string) returns (x: string)
    requires n <= |Joined(Ups(r))| && NoSepIn(u, 0, |u|) && (v == "" || SepAt(v, 0))
    ensures Segments(Joined(Ups(r))[..n] + u + v) == Ups(n / 3) + (if x == "" then [] else [x]) + Segments(v)
  {
    hide Joined, Segments;
    var q := n / 3;
    x := ".."[..n % 3] + u;
    var out := Joined(Ups(r))[..n];
    var a := out + u;
    CutOfUps(r, n);
    UpsAreTexts(q);
    JoinedUps(q);
    if x == "" {
      SegmentsOfFront(q);
      assert a == Front(q);
      assert Ups(q) + [] == Ups(q);
    } else {
      var segs := Ups(q) + [x];
      assert IsSegmentText(x) by {
        assert forall i :: n % 3 <= i < |x| ==> SepAt(x, i) == SepAt(u, i - n % 3);
      }
      SegmentsOfJoined("", segs);
      assert "" + Joined(segs) == Joined(segs);
      JoinedMore(Ups(q), x);
      assert a == Joined(segs);
    }
    assert v != "" ==> SepAt(a + v, |a|);
    SegmentsOfJoin(a, v);
  }

  /** Whole "..", each with its separator. */
  function Front(q: nat): string {
    if q == 0 then "" else Joined(Ups(q)) + "/"
  }

  lemma CutOfUps(r: nat, n: nat)
    requires n <= |Joined(Ups(r))|
    ensures Joined(Ups(r))[..n] == Front(n / 3) + ".."[..n % 3]
  {
    hide Joined;
    var q := n / 3;
    JoinedUps(q);
    forall i | 0 <= i < n
      ensures Joined(Ups(r))[i] == (Front(q) + ".."[..n % 3])[i]
    {
      CharOfUps(r, i);
      if i < |Joined(Ups(q))| { CharOfUps(q, i); }
    }
  }

  lemma JoinedMore(segs: seq<string>, x: string)
    ensures Joined(segs + [x]) == if segs == [] then x else Joined(segs) + "/" + x
  {
    assert (segs + [x])[..|segs|] == segs;
  }

  lemma SegmentsOfFront(q: nat)
    ensures Segments(Front(q)) == Ups(q)
  {
    hide Joined, Segments;
    UpsAreTexts(q);
    if q == 0 {
      assert Segments("") == [] by { NoSegments(); }
    } else {
      SegmentsOfJoined("", Ups(q));
      assert "" + Joined(Ups(q)) == Joined(Ups(q));
      assert Segments("/") == [] by { NoSegments(); }
      SegmentsOfJoin(Joined(Ups(q)), "/");
    }
  }

  lemma NoSegments()
    ensures Segments("") == [] && Segments("/") == []
  {
  }

  /** Nothing was written over the "..": at most one normal segment before it is left to pair with it. */
  lemma FarDecides(t: string, b1: nat, e1: nat, b: nat, r: nat, n: nat)
    requires KeptBack(t, b1, e1) && e1 < b <= |t| && n <= |Joined(Ups(r))| && n < b1
    requires Reduce(Segments(t[e1..b]), false) == []
    ensures !BackScan(SegmentsUpTo(Over(t, Joined(Ups(r))[..n]), b), 0)
  {
    hide SegmentsUpTo, Joined, BackScan, Reduce, TopNormals;
    var out := Joined(Ups(r))[..n];
    var w := Over(t, out);
    assert SepAt(t, b1 - 1);
    IntactTail(t, out, b1, b);
    UpToSplits(t, b1, b);
    EndSplits(t, b1, e1, b);
    var between := Segments(t[e1..b]);
    Cancel(SegmentsUpTo(t, b1), Segments(t[b1..b]), [".."], between);
    var x := Segments(w[..b1]);
    FarTop(t, b1, e1, r, n);
    TopAfterPush(x, "..");
    TopNormalsSplit(x + [".."], between);
    NoneOnTop();
    assert x + [".."] + between == x + ([".."] + between);
    BackScanCountsTop(SegmentsUpTo(w, b), 0);
  }

  lemma Cancel<T>(a: seq<T>, s: seq<T>, x: seq<T>, y: seq<T>)
    requires a + s == a + x + y
    ensures s == x + y
  {
    assert (a + s)[|a|..] == s;
    assert (a + x + y)[|a|..] == x + y;
  }

  lemma NoneOnTop()
    ensures TopNormals([]) == 0
  {
  }

  /** What stands before the intact "..": the output, and segments that the ".." survived before. */
  lemma FarTop(t: string, b1: nat, e1: nat, r: nat, n: nat)
    requires KeptBack(t, b1, e1) && n <= |Joined(Ups(r))| && n < b1
    ensures TopNormals(Reduce(Segments(Over(t, Joined(Ups(r))[..n])[..b1]), false)) <= 1
  {
    hide SegmentsUpTo, Joined, BackScan, Reduce, TopNormals;
    var out := Joined(Ups(r))[..n];
    var f := NextStop(t, n);
    ScanMeans(t, n);
    assert SepAt(t, b1 - 1);
    assert f < b1;
    var u, v := t[n..f], t[f..b1];
    assert forall i :: 0 <= i < |u| ==> SepAt(u, i) == SepAt(t, n + i);
    assert SepAt(v, 0);
    OverParts(t, out, f, b1);
    var x := ReadCut(r, n, u, v);
    var y := Segments(v);
    // the rest of the text before the ".." has no normal segment to spare
    SegmentsOfPrefix(t, b1);
    assert t[..b1] == t[..f] + v;
    assert SepAt(t[..b1], f);
    SegmentsOfJoin(t[..f], v);
    if BackScan(y, 0) { BackScanSuffix(Segments(t[..f]), y, 0); }
    BackScanCountsTop(y, 0);
    UpsReduce(n / 3);
    UpsPush(n / 3);
    TopOf(Ups(n / 3));
    TopAfterPush(Ups(n / 3), x);
    assert Ups(n / 3) + [] == Ups(n / 3);
    TopNormalsSplit(Ups(n / 3) + (if x == "" then [] else [x]), y);
  }

  /** What is decided in place about a ".." that survives: it is lost exactly when the ".." before it moved by
      one or two characters and starts within the buffer size. */
  lemma DecidedInPlace(t: string, size: nat, b: nat, e: nat) returns (b1: nat, e1: nat)
    requires KeptBack(t, b, e)
    ensures var r := |Kept(t, b)|; var out := Joined(Kept(t, b));
            && |out| <= |t|
            && (r == 0 ==> !BackScan(SegmentsUpTo(Written(t, size, out), b), 0))
            && (r > 0 ==>
                  && KeptBack(t, b1, e1) && |Kept(t, b1)| == r - 1 && b1 >= 3 * (r - 1)
                  && (BackScan(SegmentsUpTo(Written(t, size, out), b), 0) <==>
                        1 <= b1 - 3 * (r - 1) <= 2 && b1 <= size))
  {
    hide SegmentsUpTo, Joined, BackScan, Reduce, VisibleUpTo;
    var r := |Kept(t, b)|;
    KeptIsUps(t, b, e);
    JoinedUps(r);
    b1, e1 := 0, 0;
    if r == 0 {
      WrittenNothing(t, size);
    } else {
      var out := Joined(Ups(r));
      b1, e1 := LastBefore(t, b, e);
      var n := Min(|out|, size);
      if n < b1 {
        OverIs(t, size, out);
        FarDecides(t, b1, e1, b, r, n);
      } else {
        NearSegments(t, b1, e1, b, r);
        NearDecides(r, t[3 * r - 1..e1], Segments(t[e1..b]));
        CutAnyway(t, size, b1, e1, r);
      }
    }
  }

  /** Where the output reaches the "..", cutting it changes nothing: dots stand where dots would be written. */
  lemma CutAnyway(t: string, size: nat, b1: nat, e1: nat, r: nat)
    requires IsSegmentAt(t, b1, e1) && t[b1..e1] == ".." && r > 0
    requires |Joined(Ups(r))| == 3 * r - 1 <= e1 && 3 * (r - 1) <= b1 <= size
    ensures Written(t, size, Joined(Ups(r))) == Over(t, Joined(Ups(r)))
  {
    hide Joined, Ups;
    var out := Joined(Ups(r));
    forall i | size <= i < |out|
      ensures t[i] == out[i]
    {
      CharOfUps(r, i);
      assert t[i] == t[b1..e1][i - b1];
    }
    CutSame(t, size, out);
  }

  lemma CutSame(t: string, size: nat, out: string)
    requires |out| <= |t| && forall i :: size <= i < |out| ==> t[i] == out[i]
    ensures Written(t, size, out) == Over(t, out)
  {
  }

  // ----- the whole run -----

  /** A ".." that survives is lost when it is reached with all that went before in order. */
  predicate Lost(t: string, size: nat, b: nat, e: nat) {
    && KeptBack(t, b, e)
    && |Joined(Kept(t, b))| <= |t|
    && BackScan(SegmentsUpTo(Written(t, size, Joined(Kept(t, b))), b), 0)
  }

  function Backs(segs: seq<string>): nat {
    if segs == [] then 0
    else Backs(segs[..|segs| - 1]) + if KindOf(segs[|segs| - 1]) == Back then 1 else 0
  }

  lemma BacksLast(segs: seq<string>, s: string)
    ensures Backs(segs + [s]) == Backs(segs) + if KindOf(s) == Back then 1 else 0
  {
    assert (segs + [s])[..|segs|] == segs;
  }

  /** What is decided in place, in terms of what is decided in a separate buffer. */
  lemma Decides(t: string, size: nat, b: nat, e: nat, out: string)
    requires !IsAbsolute(t) && IsSegmentAt(t, b, e) && |out| <= b
    requires |SegmentsUpTo(t, b)| <= |Segments(t)| && |out| <= |Joined(Kept(t, b))|
    ensures var truly := WillBeRemoved(SegmentsUpTo(t, b), t[b..e], SegmentsFrom(t, e), false);
            && (truly ==> RemovedInPlace(t, size, b, e, out))
            && (!truly && !KeptBack(t, b, e) ==> !RemovedInPlace(t, size, b, e, out))
            && (!truly && KeptBack(t, b, e) && out == Joined(Kept(t, b)) ==>
                  (RemovedInPlace(t, size, b, e, out) <==> Lost(t, size, b, e)))
  {
    hide SegmentsUpTo, SegmentsFrom, BackScan, Joined, VisibleUpTo;
    OverIs(t, size, out);
    BackIs(t[b..e]);
    if KindOf(t[b..e]) == Back && BackScan(SegmentsUpTo(t, b), 0) {
      RemovedStays(t, b, e, out[..Min(|out|, size)]);
    }
  }

  /** The output lags behind: it renders a list with fewer "..", in no more room. */
  ghost predicate Lags(list: seq<string>, kept: seq<string>, out: string) {
    && AllSegmentTexts(list) && out == Joined(list)
    && Backs(list) < Backs(kept) && |Joined(list)| <= |Joined(kept)|
  }

  lemma LagsOn(list: seq<string>, kept: seq<string>, out: string, s: string, lost: bool)
    requires Lags(list, kept, out) && AllSegmentTexts(kept) && IsSegmentText(s)
    requires lost ==> KindOf(s) == Back
    ensures if lost then Lags(list, kept + [s], out) else Lags(list + [s], kept + [s], Extend("", out, s))
  {
    hide Backs, Joined, KindOf;
    BacksLast(list, s);
    BacksLast(kept, s);
    JoinedStep(list, s);
    JoinedStep(kept, s);
    NoBacks();
    assert kept != [];
    if !lost {
      ExtendJoined("", list, s);
      assert "" + Joined(list) == Joined(list) && "" + Joined(list + [s]) == Joined(list + [s]);
    }
  }

  lemma NoBacks()
    ensures Backs([]) == 0
  {
  }

  /** From a segment on, the output that renders all that survives goes on to do so, or starts to lag. */
  lemma InStepOn(t: string, size: nat, b: nat, e: nat, out: string)
    requires !IsAbsolute(t) && IsSegmentAt(t, b, e) && Fits("", out, b)
    requires |SegmentsUpTo(t, b)| < |Segments(t)| && out == Joined(Kept(t, b))
    ensures var all, k := Segments(t), |SegmentsUpTo(t, b)|;
            var next := if RemovedInPlace(t, size, b, e, out) then out else Extend("", out, t[b..e]);
            if Lost(t, size, b, e) then Lags(Kept(t, b), VisibleUpTo(all, k + 1, false), next)
            else next == Joined(VisibleUpTo(all, k + 1, false))
  {
    hide SegmentsUpTo, SegmentsFrom, BackScan, Joined, Backs;
    var all, k := Segments(t), |SegmentsUpTo(t, b)|;
    var s := t[b..e];
    Around(t, b, e);
    Decides(t, size, b, e, out);
    VisibleStep(all, all[..k], s, all[k + 1..], false);
    assert all == all[..k] + [s] + all[k + 1..];
    SegmentsAreSegmentTexts(t, 0);
    KeptAreSegmentTexts(all, k, false);
    var kept := Kept(t, b);
    ExtendJoined("", kept, s);
    assert "" + Joined(kept) == Joined(kept) && "" + Joined(kept + [s]) == Joined(kept + [s]);
    assert kept + [] == kept;
    BacksLast(kept, s);
    JoinedStep(kept, s);
  }

  /** The same for an output that lags: it goes on to lag. */
  lemma LagOn(t: string, size: nat, b: nat, e: nat, out: string, list: seq<string>) returns (after: seq<string>)
    requires !IsAbsolute(t) && IsSegmentAt(t, b, e) && Fits("", out, b)
    requires |SegmentsUpTo(t, b)| < |Segments(t)| && Lags(list, Kept(t, b), out)
    ensures var all, k := Segments(t), |SegmentsUpTo(t, b)|;
            var next := if RemovedInPlace(t, size, b, e, out) then out else Extend("", out, t[b..e]);
            Lags(after, VisibleUpTo(all, k + 1, false), next)
  {
    hide SegmentsUpTo, SegmentsFrom, BackScan, Joined, Backs, Lags;
    var all, k := Segments(t), |SegmentsUpTo(t, b)|;
    var s := t[b..e];
    Around(t, b, e);
    LagsShort(list, Kept(t, b), out);
    Decides(t, size, b, e, out);
    VisibleStep(all, all[..k], s, all[k + 1..], false);
    assert all == all[..k] + [s] + all[k + 1..];
    SegmentsAreSegmentTexts(t, 0);
    KeptAreSegmentTexts(all, k, false);
    var kept := Kept(t, b);
    assert kept + [] == kept;
    var truly := WillBeRemoved(all[..k], s, all[k + 1..], false);
    var inPlace := RemovedInPlace(t, size, b, e, out);
    after := if inPlace then list else list + [s];
    if !truly {
      LagsOn(list, kept, out, s, inPlace);
    }
  }

  lemma LagsShort(list: seq<string>, kept: seq<string>, out: string)
    requires Lags(list, kept, out)
    ensures |out| <= |Joined(kept)|
  {
  }

  lemma {:induction false} RunLags(t: string, size: nat, b: nat, e: nat, out: string, list: seq<string>)
    returns (after: seq<string>)
    requires !IsAbsolute(t) && IsSegmentAt(t, b, e) && Fits("", out, b)
    requires |SegmentsUpTo(t, b)| < |Segments(t)| && Lags(list, Kept(t, b), out)
    ensures Lags(after, Reduce(Segments(t), false), InPlaceFrom(t, size, b, e, out))
    decreases |t| - b
  {
    hide SegmentsUpTo, SegmentsFrom, Joined, Backs, Lags, Reduce, VisibleUpTo, RemovedInPlace, NextSegment;
    var all := Segments(t);
    after := LagOn(t, size, b, e, out, list);
    var next := if RemovedInPlace(t, size, b, e, out) then out else Extend("", out, t[b..e]);
    InPlaceStep(t, size, b, e, out, next);
    NextInOne(t, b, e);
    var n := NextSegment(t, e);
    if n.NoSegment? {
      VisibleIsReduction(all, false);
    } else {
      Around(t, n.begin, n.end);
      after := RunLags(t, size, n.begin, n.end, next, after);
    }
  }

  /** A later segment starts no earlier than the next one. */
  lemma NoneBetween(t: string, b: nat, e: nat, b2: nat, e2: nat)
    requires IsSegmentAt(t, b, e) && IsSegmentAt(t, b2, e2) && b < b2
    ensures NextSegment(t, e).Segment? && NextSegment(t, e).begin <= b2
  {
    LaterSegment(t, b, e, b2, e2);
    NextSegmentMeans(t, e);
    assert !SepAt(t, b2);
  }

  lemma OneEnd(t: string, b: nat, e: nat, e2: nat)
    requires IsSegmentAt(t, b, e) && IsSegmentAt(t, b, e2)
    ensures e == e2
  {
    NextSegmentIs(t, b, b, e);
    NextSegmentIs(t, b, b, e2);
  }

  ghost predicate LostFrom(t: string, size: nat, b: nat) {
    exists b2, e2 :: b <= b2 && Lost(t, size, b2, e2)
  }

  lemma LostHereOrLater(t: string, size: nat, b: nat, e: nat)
    requires IsSegmentAt(t, b, e)
    ensures var n := NextSegment(t, e);
            LostFrom(t, size, b) <==> Lost(t, size, b, e) || (n.Segment? && LostFrom(t, size, n.begin))
  {
    hide Lost;
    var n := NextSegment(t, e);
    if LostFrom(t, size, b) {
      var b2, e2 :| b <= b2 && Lost(t, size, b2, e2);
      LostIsSegment(t, size, b2, e2);
      if b2 == b { OneEnd(t, b, e, e2); } else { NoneBetween(t, b, e, b2, e2); }
    }
  }

  lemma LostIsSegment(t: string, size: nat, b: nat, e: nat)
    requires Lost(t, size, b, e)
    ensures IsSegmentAt(t, b, e)
  {
  }

  /** The output renders all that survives, or lags behind from the first ".." that is lost. */
  lemma {:induction false} RunsInPlace(t: string, size: nat, b: nat, e: nat, out: string) returns (list: seq<string>)
    requires !IsAbsolute(t) && IsSegmentAt(t, b, e) && Fits("", out, b)
    requires |SegmentsUpTo(t, b)| < |Segments(t)| && out == Joined(Kept(t, b))
    ensures if LostFrom(t, size, b) then Lags(list, Reduce(Segments(t), false), InPlaceFrom(t, size, b, e, out))
            else InPlaceFrom(t, size, b, e, out) == Joined(Reduce(Segments(t), false))
    decreases |t| - b
  {
    hide SegmentsUpTo, SegmentsFrom, NextSegment, Joined, Backs, Lags, Reduce, VisibleUpTo, RemovedInPlace,
         Lost, LostFrom;
    var all := Segments(t);
    InStepOn(t, size, b, e, out);
    LostHereOrLater(t, size, b, e);
    var next := if RemovedInPlace(t, size, b, e, out) then out else Extend("", out, t[b..e]);
    InPlaceStep(t, size, b, e, out, next);
    NextInOne(t, b, e);
    list := Kept(t, b);
    var n := NextSegment(t, e);
    if n.NoSegment? {
      VisibleIsReduction(all, false);
    } else {
      Around(t, n.begin, n.end);
      if Lost(t, size, b, e) {
        list := RunLags(t, size, n.begin, n.end, next, list);
      } else {
        list := RunsInPlace(t, size, n.begin, n.end, next);
      }
    }
  }

  /** An output that lags is another text. */
  lemma LagShows(list: seq<string>, kept: seq<string>, out: string)
    requires Lags(list, kept, out) && AllSegmentTexts(kept)
    ensures kept != [] && (if out == "" then "." else out) != Joined(kept)
  {
    NoBacks();
    SegmentsOfJoined("", kept);
    SegmentsOfJoined("", list);
    assert "" + Joined(kept) == Joined(kept) && "" + Joined(list) == Joined(list);
    SegmentsOfSegmentText(".");
    BacksLast([], ".");
    assert [] + ["."] == ["."];
  }

  lemma InPlaceUnlessLost(t: string, size: nat)
    requires !IsAbsolute(t)
    ensures InPlaceText(t, size) == NormalizedText([t]) <==> !LostFrom(t, size, 0)
  {
    hide SegmentsUpTo, Joined, Lags, Reduce, Lost;
    AllSegmentsOne(t);
    EmptyParts();
    var all := Segments(t);
    var n := NextSegment(t, 0);
    if n.NoSegment? {
      NothingLost(t, size);
      assert all == [];
    } else {
      var b, e := n.begin, n.end;
      FirstIsWhole(t, 0);
      SegmentSplits(t, b, e);
      assert all == [t[b..e]] + SegmentsFrom(t, e);
      assert |SegmentsUpTo(t, b)| == 0;
      NoneBefore(t, size, b, e);
      var list := RunsInPlace(t, size, b, e, "");
      var kept := Reduce(all, false);
      SegmentsAreSegmentTexts(t, 0);
      ReducedTexts(all);
      assert "" + Joined(kept) == Joined(kept);
      JoinedEmpty(kept);
      if LostFrom(t, size, 0) {
        LagShows(list, kept, InPlaceFrom(t, size, b, e, ""));
      }
    }
  }

  lemma NothingLost(t: string, size: nat)
    requires NextSegment(t, 0).NoSegment?
    ensures !LostFrom(t, size, 0)
  {
    NextSegmentMeans(t, 0);
    forall b: nat, e: nat
      ensures !Lost(t, size, b, e)
    {
      assert 0 <= b < |t| ==> SepAt(t, b);
    }
  }

  lemma JoinedEmpty(segs: seq<string>)
    requires AllSegmentTexts(segs)
    ensures Joined(segs) == "" <==> segs == []
  {
    if segs != [] { JoinedStartsPlain(segs); }
  }

  lemma ReducedTexts(all: seq<string>)
    requires AllSegmentTexts(all)
    ensures AllSegmentTexts(Reduce(all, false))
  {
    ReduceIsCanonical(all, false);
  }

  lemma NoneBefore(t: string, size: nat, b: nat, e: nat)
    requires NextSegment(t, 0) == Segment(b, e)
    ensures LostFrom(t, size, 0) <==> LostFrom(t, size, b)
  {
    hide Lost;
    if LostFrom(t, size, 0) {
      var b2, e2 :| 0 <= b2 && Lost(t, size, b2, e2);
      LostIsSegment(t, size, b2, e2);
      NextSegmentMeans(t, 0);
      assert !SepAt(t, b2);
    }
  }

  // ----- the condition a caller can check -----

  /** A ".." that survives, but not as the last one, starts within the buffer size, and moves towards the front by
      one or two characters. */
  predicate Collides(t: string, size: nat, b: nat, e: nat) {
    && KeptBack(t, b, e)
    && var rank := |Kept(t, b)|;
       1 <= b - 3 * rank <= 2 && b <= size && rank + 1 < Lead(Reduce(Segments(t), false))
  }

  lemma {:induction false} AtRank(all: seq<string>, r: nat, n: nat) returns (k: nat)
    requires n <= |all| && r < |VisibleUpTo(all, n, false)|
    ensures k < n && |VisibleUpTo(all, k, false)| == r && !WillBeRemoved(all[..k], all[k], all[k + 1..], false)
    decreases n
  {
    hide WillBeRemoved;
    if r < |VisibleUpTo(all, n - 1, false)| {
      k := AtRank(all, r, n - 1);
    } else {
      k := n - 1;
    }
  }

  lemma RankIsUnique(t: string, b1: nat, e1: nat, b2: nat, e2: nat)
    requires KeptBack(t, b1, e1) && KeptBack(t, b2, e2) && |Kept(t, b1)| == |Kept(t, b2)|
    ensures b1 == b2
  {
    hide SegmentsUpTo, SegmentsFrom, BackScan;
    if b1 < b2 {
      RankRises(t, b1, e1, b2, e2);
    } else if b2 < b1 {
      RankRises(t, b2, e2, b1, e1);
    }
  }

  lemma RankRises(t: string, b1: nat, e1: nat, b2: nat, e2: nat)
    requires KeptBack(t, b1, e1) && KeptBack(t, b2, e2) && b1 < b2
    ensures |Kept(t, b1)| < |Kept(t, b2)|
  {
    hide SegmentsUpTo, SegmentsFrom, BackScan;
    var all := Segments(t);
    LaterSegment(t, b1, e1, b2, e2);
    Around(t, b1, e1);
    Around(t, b2, e2);
    var k1, k2 := |SegmentsUpTo(t, b1)|, |SegmentsUpTo(t, b2)|;
    VisibleStep(all, all[..k1], all[k1], all[k1 + 1..], false);
    assert all == all[..k1] + [all[k1]] + all[k1 + 1..];
    VisibleIsPrefix(all, k1 + 1, k2, false);
  }

  /** The ".." that is lost and the one before it that collides with it. */
  lemma LostCollides(t: string, size: nat, b: nat, e: nat) returns (b1: nat, e1: nat)
    requires Lost(t, size, b, e)
    ensures Collides(t, size, b1, e1)
  {
    hide SegmentsUpTo, SegmentsFrom, BackScan, Joined, Reduce, VisibleUpTo;
    b1, e1 := DecidedInPlace(t, size, b, e);
    KeptIsUps(t, b, e);
    Around(t, b, e);
    var all, k, r := Segments(t), |SegmentsUpTo(t, b)|, |Kept(t, b)|;
    VisibleAt(all, k, false);
    var kept := Reduce(all, false);
    assert kept[..r] == Ups(r) && kept[r] == "..";
    assert forall i :: 0 <= i < r ==> kept[i] == kept[..r][i];
    LeadIsBeyond(kept, r);
  }

  lemma LeadIsBeyond(segs: seq<string>, r: nat)
    requires r < |segs| && forall i :: 0 <= i <= r ==> segs[i] == ".."
    ensures r < Lead(segs)
  {
  }

  lemma CollidesLoses(t: string, size: nat, b1: nat, e1: nat) returns (b: nat, e: nat)
    requires Collides(t, size, b1, e1)
    ensures Lost(t, size, b, e)
  {
    hide SegmentsUpTo, SegmentsFrom, BackScan, Joined, Reduce, VisibleUpTo;
    var all, r := Segments(t), |Kept(t, b1)| + 1;
    VisibleIsReduction(all, false);
    var k := AtRank(all, r, |all|);
    VisibleAt(all, k, false);
    assert all[k] == "..";
    b, e := PositionOf(t, k);
    assert KeptBack(t, b, e);
    var b2, e2 := DecidedInPlace(t, size, b, e);
    RankIsUnique(t, b1, e1, b2, e2);
  }

  /** Normalising a relative path in its own buffer gives what a separate buffer would, exactly when no ".." that
      survives before another one, and starts within the buffer size, moves by one or two characters. */
  lemma InPlaceRelative(t: string, size: nat)
    requires !IsAbsolute(t)
    ensures InPlaceText(t, size) == NormalizedText([t]) <==> forall b: nat, e: nat :: !Collides(t, size, b, e)
  {
    hide InPlaceText, NormalizedText, Lost, Collides;
    InPlaceUnlessLost(t, size);
    if LostFrom(t, size, 0) {
      var b, e :| 0 <= b && Lost(t, size, b, e);
      var b1, e1 := LostCollides(t, size, b, e);
    }
    if b1, e1 :| Collides(t, size, b1, e1) {
      var b, e := CollidesLoses(t, size, b1, e1);
    }
  }

  const SAMPLE := "./../.."
  const SAMPLE_SEGMENTS := [".", "..", ".."]
  const SAMPLE_KEPT := ["..", ".."]

  lemma SampleSegments()
    ensures Segments(SAMPLE) == SAMPLE_SEGMENTS
    ensures IsSegmentAt(SAMPLE, 2, 4) && SAMPLE[2..4] == ".." && SegmentsUpTo(SAMPLE, 2) == ["."]
  {
    var t := SAMPLE;
    NextSegmentIs(t, 0, 0, 1);
    NextSegmentIs(t, 1, 2, 4);
    NextSegmentIs(t, 4, 5, 7);
    assert t[0..1] == "." && t[2..4] == ".." && t[5..7] == "..";
    hide NextSegment;
    assert SegmentsFrom(t, 7) == [] by { SampleEnd(); }
    assert SegmentsFrom(t, 4) == [".."];
    assert SegmentsFrom(t, 1) == SAMPLE_KEPT;
    PreviousSegmentIs(t, 2, 0, 1);
    hide PreviousSegment;
    assert SegmentsUpTo(t, 0) == [] by { SampleStart(); }
  }

  lemma SampleEnd()
    ensures SegmentsFrom(SAMPLE, 7) == []
  {
    assert |SAMPLE| == 7;
  }

  lemma SampleStart()
    ensures SegmentsUpTo(SAMPLE, 0) == []
  {
  }

  lemma SampleReduces()
    ensures Reduce(SAMPLE_SEGMENTS, false) == SAMPLE_KEPT
    ensures VisibleUpTo(SAMPLE_SEGMENTS, 1, false) == [] && !BackScan(["."], 0)
  {
    var all, kept := SAMPLE_SEGMENTS, SAMPLE_KEPT;
    assert all[1..] == kept && kept[1..] == [".."] && [".."][1..] == [];
    assert Push([], ".", false) == [] && Push([], "..", false) == [".."] && Push([".."], "..", false) == kept;
    assert ReduceFrom([".."], [".."], false) == kept;
    assert ReduceFrom([], kept, false) == kept;
    assert all[..0] == [] && ["."][..0] == [];
  }

  lemma SampleJoined()
    ensures Joined(SAMPLE_KEPT) == "../.." && "" + "../.." == "../.."
  {
    assert SAMPLE_KEPT[..1] == [".."];
  }

  /** A path that its own buffer does not hold normalised: of "../.." one ".." is lost. */
  lemma DotDotIsLost()
    ensures !IsAbsolute(SAMPLE) && NormalizedText([SAMPLE]) == "../.." && InPlaceText(SAMPLE, 8) != "../.."
  {
    hide Segments, SegmentsUpTo, BackScan, Reduce, VisibleUpTo, Joined, InPlaceText;
    SampleSegments();
    SampleReduces();
    SampleJoined();
    AllSegmentsOne(SAMPLE);
    assert Kept(SAMPLE, 2) == [];
    LeadIsBeyond(SAMPLE_KEPT, 1);
    assert Collides(SAMPLE, 8, 2, 4);
    InPlaceRelative(SAMPLE, 8);
  }
}
