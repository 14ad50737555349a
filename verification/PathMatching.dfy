/** Normalisation in terms of the text alone: which segments cancel each other, and what is written. */
module PathMatching {
  import opened PathSegments
  import opened PathReduction
  import opened PathSplits
  import opened PathText

  // ----- names and "..", matched like brackets -----

  predicate IsName(s: string) {
    s != "." && s != ".."
  }

  function Weight(s: string): int {
    if s == "." then 0 else if s == ".." then -1 else 1
  }

  /** How many more names than ".." there are. */
  function Depth(segs: seq<string>): int {
    if segs == [] then 0 else Weight(segs[0]) + Depth(segs[1..])
  }

  /** As many ".." as names, and from the left never more. */
  predicate Balanced(segs: seq<string>) {
    Depth(segs) == 0 && forall i :: 0 <= i <= |segs| ==> Depth(segs[..i]) >= 0
  }

  /** The name at `k` is cancelled by the ".." at `j`: what stands between cancels itself. */
  predicate Cancels(segs: seq<string>, k: nat, j: nat) {
    k < j < |segs| && IsName(segs[k]) && segs[j] == ".." && Balanced(segs[k + 1..j])
  }

  /** A "." never stays, a name does unless a later ".." cancels it, and a ".." does in a relative path unless it
      cancels a name. */
  ghost predicate Stays(segs: seq<string>, k: nat, absolute: bool)
    requires k < |segs|
  {
    && segs[k] != "."
    && (segs[k] == ".." ==> !absolute && forall i: nat :: !Cancels(segs, i, k))
    && (IsName(segs[k]) ==> forall j: nat :: !Cancels(segs, k, j))
  }

  ghost function Staying(segs: seq<string>, n: nat, absolute: bool): seq<string>
    requires n <= |segs|
  {
    if n == 0 then []
    else Staying(segs, n - 1, absolute) + if Stays(segs, n - 1, absolute) then [segs[n - 1]] else []
  }

  lemma {:induction false} DepthBoth(a: seq<string>, b: seq<string>)
    ensures Depth(a + b) == Depth(a) + Depth(b)
    decreases |a|
  {
    if a == [] {
      assert a + b == b;
    } else {
      assert (a + b)[1..] == a[1..] + b;
      DepthBoth(a[1..], b);
    }
  }

  lemma DepthOne(s: string)
    ensures Depth([s]) == Weight(s) && Depth([]) == 0
  {
    assert [s][1..] == [];
  }

  lemma KindIs(s: string)
    requires s != ""
    ensures KindOf(s) == if s == "." then Current else if s == ".." then Back else Normal
  {
  }

  /** The ".." at `m` is the first that more than makes up for the names before it and `c` more. */
  predicate FirstExcess(after: seq<string>, c: int, m: nat) {
    && m < |after| && after[m] == ".." && Depth(after[..m]) + c == 0
    && forall i :: 0 <= i <= m ==> Depth(after[..i]) + c >= 0
  }

  lemma FirstExcessShift(after: seq<string>, c: int, m: nat)
    requires after != []
    ensures FirstExcess(after, c, m + 1) <==> c >= 0 && FirstExcess(after[1..], c + Weight(after[0]), m)
  {
    var rest, w := after[1..], Weight(after[0]);
    forall i | 0 <= i <= |rest|
      ensures Depth(after[..i + 1]) == w + Depth(rest[..i])
    {
      assert after[..i + 1][1..] == rest[..i];
    }
    assert after[..0] == [];
    if FirstExcess(after, c, m + 1) {
      assert forall i :: 0 <= i <= m ==> Depth(rest[..i]) == Depth(after[..i + 1]) - w;
    }
    if c >= 0 && FirstExcess(rest, c + w, m) {
      forall i | 0 <= i <= m + 1
        ensures Depth(after[..i]) + c >= 0
      {
        if i > 0 { assert Depth(after[..i - 1 + 1]) == w + Depth(rest[..i - 1]); }
      }
    }
  }

  lemma {:induction false} ForwardMatch(after: seq<string>, c: int)
    requires c >= 0 && "" !in after
    ensures NormalScan(after, c) <==> exists m: nat :: FirstExcess(after, c, m)
    decreases |after|
  {
    if after != [] {
      var s := after[0];
      KindIs(s);
      assert after[..0] == [];
      if s == ".." && c == 0 {
        assert FirstExcess(after, c, 0);
      } else {
        var rest, d := after[1..], c + Weight(s);
        ForwardMatch(rest, d);
        if m: nat :| FirstExcess(after, c, m) {
          assert m > 0;
          FirstExcessShift(after, c, m - 1);
        }
        if m: nat :| FirstExcess(rest, d, m) {
          FirstExcessShift(after, c, m);
        }
      }
    }
  }

  /** The name at `k` is the last that more than makes up for the ".." behind it and `-c` more. */
  predicate LastExcess(before: seq<string>, c: int, k: nat) {
    && k < |before| && IsName(before[k]) && Depth(before[k + 1..]) + c == 0
    && forall i :: k < i <= |before| ==> Depth(before[i..]) + c <= 0
  }

  lemma LastExcessShift(rest: seq<string>, s: string, c: int, k: nat)
    requires k < |rest|
    ensures LastExcess(rest + [s], c, k) <==> c <= 0 && LastExcess(rest, c + Weight(s), k)
  {
    var before := rest + [s];
    DepthOne(s);
    forall i | 0 <= i <= |rest|
      ensures Depth(before[i..]) == Depth(rest[i..]) + Weight(s)
    {
      assert before[i..] == rest[i..] + [s];
      DepthBoth(rest[i..], [s]);
    }
    assert before[|before|..] == [];
    if LastExcess(before, c, k) {
      assert forall i :: k < i <= |rest| ==> Depth(rest[i..]) == Depth(before[i..]) - Weight(s);
    }
  }

  lemma LastOfAll(rest: seq<string>, s: string, c: int)
    ensures LastExcess(rest + [s], c, |rest|) <==> IsName(s) && c == 0
    ensures forall k: nat :: LastExcess(rest + [s], c, k) ==> k <= |rest|
  {
    var before := rest + [s];
    assert before[|rest| + 1..] == [];
  }

  lemma ScanUnfold(rest: seq<string>, s: string, c: int)
    requires c <= 0 && s != ""
    ensures BackScan(rest + [s], c) == ((IsName(s) && c == 0) || BackScan(rest, c + Weight(s)))
  {
    KindIs(s);
    var before := rest + [s];
    assert before[..|rest|] == rest && before[|rest|] == s;
  }

  lemma {:induction false} BackwardMatch(before: seq<string>, c: int)
    requires c <= 0 && "" !in before
    ensures BackScan(before, c) <==> exists k: nat :: LastExcess(before, c, k)
    decreases |before|
  {
    if before != [] {
      hide LastExcess, BackScan;
      var n := |before| - 1;
      var rest, s := before[..n], before[n];
      assert before == rest + [s] && s in before;
      ScanUnfold(rest, s, c);
      LastOfAll(rest, s, c);
      if !(IsName(s) && c == 0) {
        var d := c + Weight(s);
        BackwardMatch(rest, d);
        if k: nat :| LastExcess(before, c, k) {
          LastExcessShift(rest, s, c, k);
        }
        if k: nat :| LastExcess(rest, d, k) {
          LastInside(rest, d, k);
          LastExcessShift(rest, s, c, k);
        }
      }
    } else {
      NoneInNothing(c);
    }
  }

  lemma NoneInNothing(c: int)
    ensures !BackScan([], c) && forall k: nat :: !LastExcess([], c, k)
  {
  }

  lemma CancelsAhead(segs: seq<string>, k: nat, j: nat)
    requires k < j < |segs| && IsName(segs[k])
    ensures Cancels(segs, k, j) <==> FirstExcess(segs[k + 1..], 0, j - k - 1)
  {
    var after, mid := segs[k + 1..], segs[k + 1..j];
    assert after[..j - k - 1] == mid;
    assert forall i :: 0 <= i <= |mid| ==> after[..i] == mid[..i];
  }

  lemma CancelsBehind(segs: seq<string>, k: nat, j: nat)
    requires k < j < |segs| && segs[j] == ".."
    ensures Cancels(segs, k, j) <==> LastExcess(segs[..j], 0, k)
  {
    var before, mid := segs[..j], segs[k + 1..j];
    assert before[k + 1..] == mid;
    forall i | 0 <= i <= |mid|
      ensures Depth(mid[..i]) == Depth(mid) - Depth(before[k + 1 + i..])
    {
      assert mid == mid[..i] + mid[i..] && mid[i..] == before[k + 1 + i..];
      DepthBoth(mid[..i], mid[i..]);
    }
    assert mid[..|mid|] == mid;
    if LastExcess(before, 0, k) {
      forall i | 0 <= i <= |mid|
        ensures Depth(mid[..i]) >= 0
      {
        assert Depth(before[k + 1 + i..]) + 0 <= 0;
      }
    }
    if Cancels(segs, k, j) {
      forall i | k < i <= |before|
        ensures Depth(before[i..]) <= 0
      {
        assert Depth(mid[..i - k - 1]) >= 0;
      }
    }
  }

  /** What the scans decide is what the matching says. */
  lemma ScansMatch(segs: seq<string>, k: nat, absolute: bool)
    requires k < |segs| && "" !in segs
    ensures WillBeRemoved(segs[..k], segs[k], segs[k + 1..], absolute) <==> !Stays(segs, k, absolute)
  {
    hide NormalScan, BackScan, Cancels, FirstExcess, LastExcess;
    var s := segs[k];
    KindIs(s);
    if IsName(s) {
      var after := segs[k + 1..];
      ForwardMatch(after, 0);
      if m: nat :| FirstExcess(after, 0, m) {
        ExcessInside(after, 0, m);
        CancelsAhead(segs, k, k + 1 + m);
      }
      if j: nat :| Cancels(segs, k, j) {
        CancelsInside(segs, k, j);
        CancelsAhead(segs, k, j);
      }
    } else if s == ".." {
      var before := segs[..k];
      BackwardMatch(before, 0);
      if i: nat :| LastExcess(before, 0, i) {
        LastInside(before, 0, i);
        CancelsBehind(segs, i, k);
      }
      if i: nat :| Cancels(segs, i, k) {
        CancelsInside(segs, i, k);
        CancelsBehind(segs, i, k);
      }
    }
  }

  lemma ExcessInside(after: seq<string>, c: int, m: nat)
    requires FirstExcess(after, c, m)
    ensures m < |after|
  {
  }

  lemma LastInside(before: seq<string>, c: int, k: nat)
    requires LastExcess(before, c, k)
    ensures k < |before|
  {
  }

  lemma CancelsInside(segs: seq<string>, k: nat, j: nat)
    requires Cancels(segs, k, j)
    ensures k < j < |segs| && IsName(segs[k]) && segs[j] == ".."
  {
  }

  lemma {:induction false} VisibleIsStaying(segs: seq<string>, n: nat, absolute: bool)
    requires n <= |segs| && "" !in segs
    ensures VisibleUpTo(segs, n, absolute) == Staying(segs, n, absolute)
    decreases n
  {
    hide Stays, WillBeRemoved;
    if n > 0 {
      VisibleIsStaying(segs, n - 1, absolute);
      ScansMatch(segs, n - 1, absolute);
    }
  }

  lemma NoEmptySegment(texts: seq<string>)
    ensures "" !in AllSegments(texts)
  {
    AllSegmentsAreSegmentTexts(texts);
  }

  /** The normalised text is the root followed by exactly the segments that stay, or "." where none is left of a
      relative path that had some. */
  lemma NormalizedIsMatching(texts: seq<string>)
    requires texts != []
    ensures var absolute := texts[0] != "" && texts[0][0] == '/';
            var segs := AllSegments(texts);
            var kept := Staying(segs, |segs|, absolute);
            NormalizedText(texts) ==
              if kept == [] && segs != [] && !absolute then "." else (if absolute then "/" else "") + Joined(kept)
  {
    hide Reduce, VisibleUpTo;
    var absolute, segs := IsAbsolute(texts[0]), AllSegments(texts);
    NoEmptySegment(texts);
    VisibleIsReduction(segs, absolute);
    VisibleIsStaying(segs, |segs|, absolute);
  }

  // ----- what stays as it is -----

  lemma {:induction false} AllStaying(segs: seq<string>, n: nat, absolute: bool)
    requires n <= |segs|
    ensures |Staying(segs, n, absolute)| <= n
    ensures |Staying(segs, n, absolute)| == n <==> forall k :: 0 <= k < n ==> Stays(segs, k, absolute)
    ensures (forall k :: 0 <= k < n ==> Stays(segs, k, absolute)) ==> Staying(segs, n, absolute) == segs[..n]
    decreases n
  {
    hide Stays;
    if n > 0 { AllStaying(segs, n - 1, absolute); }
  }

  lemma NameStays(segs: seq<string>, k: nat, absolute: bool)
    requires k < |segs| && "." !in segs && ".." !in segs
    ensures Stays(segs, k, absolute)
  {
    hide Cancels;
    assert segs[k] in segs;
    forall j: nat
      ensures !Cancels(segs, k, j)
    {
      if j < |segs| { assert segs[j] in segs; }
      if Cancels(segs, k, j) { CancelsInside(segs, k, j); }
    }
  }

  /** Without "." and ".." every segment is written, whatever its characters. */
  lemma NamesAreKept(texts: seq<string>)
    requires texts != [] && "." !in AllSegments(texts) && ".." !in AllSegments(texts)
    ensures NormalizedText(texts) ==
            (if texts[0] != "" && texts[0][0] == '/' then "/" else "") + Joined(AllSegments(texts))
  {
    hide NormalizedText, Staying, Stays;
    var segs, absolute := AllSegments(texts), IsAbsolute(texts[0]);
    NormalizedIsMatching(texts);
    forall k | 0 <= k < |segs|
      ensures Stays(segs, k, absolute)
    {
      NameStays(segs, k, absolute);
    }
    assert segs[..|segs|] == segs;
    AllStaying(segs, |segs|, absolute);
  }

  // ----- texts and their segments -----

  /** Two texts with a "/" between have the segments of both. */
  lemma SegmentsAtSlash(a: string, b: string)
    ensures Segments(a + "/" + b) == Segments(a) + Segments(b)
  {
    assert a + "/" + b == a + ("/" + b);
    var u := "/" + b;
    assert SepAt(a + u, |a|) && SepAt(u, 0);
    SegmentsOfJoin(a, u);
    assert IsCut(u, 1);
    SegmentsOfJoin("/", b);
    assert Segments("/") == [];
    assert [] + Segments(b) == Segments(b);
  }

  /** A text without "/" is one segment, unless it is empty. */
  lemma SegmentsWithoutSlash(t: string)
    requires '/' !in t
    ensures Segments(t) == if t == "" then [] else [t]
  {
    if t != "" {
      assert forall i :: 0 <= i < |t| ==> t[i] in t;
      SegmentsOfSegmentText(t);
    }
  }

  /** A single name, a "." and a ".." are written as they are. */
  lemma OneSegment(t: string)
    requires '/' !in t
    ensures NormalizedText([t]) == t
  {
    hide Reduce;
    SegmentsWithoutSlash(t);
    AllSegmentsOne(t);
    assert t != "" ==> !SepAt(t, 0) by { if t != "" { assert t[0] in t; } }
    assert "" + t == t;
    if t == "" {
      assert Reduce([], false) == [] by { EmptyParts(); }
    } else if t == "." {
      ReduceLast([], ".", false);
      EmptyParts();
      assert [] + ["."] == ["."];
    } else {
      KindIs(t);
      ReduceFixesCanonical([t], false);
    }
  }

  /** No "//", and no "/" at the end but for the root. */
  predicate Tight(t: string) {
    && (forall i :: 0 <= i < |t| - 1 ==> !(t[i] == '/' && t[i + 1] == '/'))
    && (|t| > 1 ==> t[|t| - 1] != '/')
  }

  lemma NoSlashInside(t: string, p: nat)
    requires p <= |t| && NoSepIn(t, p, |t|)
    ensures forall i :: p <= i < |t| ==> t[i] != '/'
  {
    forall i | p <= i < |t|
      ensures t[i] != '/'
    {
      assert !SepAt(t, i);
    }
  }

  lemma TightRoot(root: string, s: string)
    requires (root == "" || root == "/") && s != "" && forall i :: 0 <= i < |s| ==> s[i] != '/'
    ensures Tight(root + s) && (root + s)[|root + s| - 1] != '/'
  {
    var t := root + s;
    assert forall i :: 0 <= i < |s| ==> t[|root| + i] == s[i];
    assert forall i :: 0 < i < |t| ==> t[i] == s[i - |root|];
  }

  lemma TightAdd(a: string, s: string)
    requires Tight(a) && a != "" && a[|a| - 1] != '/' && s != "" && forall i :: 0 <= i < |s| ==> s[i] != '/'
    ensures var t := a + "/" + s; Tight(t) && t[|t| - 1] != '/'
  {
    var t, n := a + "/" + s, |a|;
    assert forall i :: 0 <= i < n ==> t[i] == a[i];
    assert forall i :: n < i < |t| ==> t[i] == s[i - n - 1];
  }

  lemma TightFront(a: string, s: string)
    requires Tight(a + "/" + s) && a != ""
    ensures Tight(a) && a[|a| - 1] != '/'
  {
    var t, n := a + "/" + s, |a|;
    assert forall i :: 0 <= i < n ==> t[i] == a[i];
    assert t[n - 1] == a[n - 1] && t[n - 1 + 1] == '/';
    forall i | 0 <= i < n - 1
      ensures !(a[i] == '/' && a[i + 1] == '/')
    {
      assert t[i] == a[i] && t[i + 1] == a[i + 1];
    }
  }

  lemma {:induction false} JoinedIsTight(root: string, segs: seq<string>)
    requires AllSegmentTexts(segs) && (root == "" || root == "/")
    ensures var t := root + Joined(segs); Tight(t) && (segs != [] ==> t != "" && t[|t| - 1] != '/')
    decreases |segs|
  {
    if segs == [] {
      assert root + "" == root;
    } else {
      hide Tight;
      var init, s := segs[..|segs| - 1], segs[|segs| - 1];
      NoSlashInside(s, 0);
      assert segs == init + [s];
      if init == [] {
        TightRoot(root, s);
      } else {
        JoinedIsTight(root, init);
        JoinedAdds(root, init, s);
        TightAdd(root + Joined(init), s);
      }
    }
  }

  /** Where the last segment of a tight text starts. */
  lemma LastPart(t: string) returns (a: string, s: string)
    requires Tight(t) && t != "" && t != "/"
    ensures IsSegmentText(s) && '/' !in s
    ensures t == s || t == "/" + s || (t == a + "/" + s && a != "")
  {
    var p := PreviousStop(t, |t|);
    ScanBackMeans(t, |t|);
    s, a := t[p..], if p == 0 then "" else t[..p - 1];
    NoSlashInside(t, p);
    assert p > 0 ==> t == a + "/" + s;
    assert |t| > 1 ==> t[|t| - 1] != '/';
    assert p < |t|;
    forall i | 0 <= i < |s|
      ensures s[i] != '/' && !SepAt(s, i)
    {
      assert s[i] == t[p + i];
    }
  }

  /** A tight text is told by its root and its segments. */
  lemma {:induction false} TightIsJoined(t: string)
    requires Tight(t)
    ensures t == (if IsAbsolute(t) then "/" else "") + Joined(Segments(t))
    decreases |t|
  {
    if t == "" || t == "/" {
      assert Segments(t) == [];
    } else {
      var a, s := LastPart(t);
      SegmentsOfSegmentText(s);
      hide Tight;
      if t == s {
        assert !IsAbsolute(t);
        assert "" + t == t;
      } else if t == "/" + s {
        SegmentsOfSlash(s);
      } else {
        TightFront(a, s);
        TightIsJoined(a);
        SegmentsAtSlash(a, s);
        assert IsAbsolute(t) == IsAbsolute(a);
        assert Segments(a) != [];
        JoinedAdds(if IsAbsolute(t) then "/" else "", Segments(a), s);
      }
    }
  }

  lemma JoinedAdds(root: string, segs: seq<string>, s: string)
    requires segs != []
    ensures root + Joined(segs + [s]) == root + Joined(segs) + "/" + s
  {
    assert (segs + [s])[..|segs|] == segs;
  }

  /** What normalising leaves alone: "." and the tight texts in which every segment stays. */
  lemma NormalisedAlready(t: string)
    ensures NormalizedText([t]) == t <==>
              || t == "."
              || (Tight(t) && forall k :: 0 <= k < |Segments(t)| ==> Stays(Segments(t), k, IsAbsolute(t)))
  {
    hide Stays, Tight, Staying;
    var absolute, segs := IsAbsolute(t), Segments(t);
    AllSegmentsOne(t);
    NormalizedIsMatching([t]);
    SegmentsAreSegmentTexts(t, 0);
    AllStaying(segs, |segs|, absolute);
    var root, kept := (if absolute then "/" else ""), Staying(segs, |segs|, absolute);
    StayingIsIn(segs, |segs|, absolute);
    SegmentsOfJoined(root, kept);
    JoinedIsTight(root, kept);
    if Tight(t) { TightIsJoined(t); }
    if t == "." { OneSegment("."); }
    assert segs[..|segs|] == segs;
    if kept == [] { NothingKept(segs, absolute); }
  }

  lemma NothingKept(segs: seq<string>, absolute: bool)
    requires Staying(segs, |segs|, absolute) == []
    ensures segs != [] ==> !(forall k :: 0 <= k < |segs| ==> Stays(segs, k, absolute))
  {
    AllStaying(segs, |segs|, absolute);
  }

  lemma {:induction false} StayingIsIn(segs: seq<string>, n: nat, absolute: bool)
    requires n <= |segs| && AllSegmentTexts(segs)
    ensures AllSegmentTexts(Staying(segs, n, absolute))
    decreases n
  {
    if n > 0 { StayingIsIn(segs, n - 1, absolute); }
  }

  /** Every normalised text is tight. */
  lemma NormalizedIsTight(texts: seq<string>)
    requires texts != []
    ensures Tight(NormalizedText(texts))
  {
    hide Tight;
    var absolute, segs := IsAbsolute(texts[0]), AllSegments(texts);
    NormalizedIsMatching(texts);
    AllSegmentsAreSegmentTexts(texts);
    StayingIsIn(segs, |segs|, absolute);
    JoinedIsTight(if absolute then "/" else "", Staying(segs, |segs|, absolute));
    DotIsTight();
  }

  lemma DotIsTight()
    ensures Tight(".")
  {
  }
}
