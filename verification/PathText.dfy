/** The text each path operation produces, and the laws between them. */
module PathText {
  import opened PathSegments
  import opened PathReduction
  import opened PathSplits

  lemma {:induction false} AllSegmentsAreSegmentTexts(texts: seq<string>)
    ensures AllSegmentTexts(AllSegments(texts))
    decreases |texts|
  {
    if texts != [] {
      SegmentsAreSegmentTexts(texts[0], 0);
      AllSegmentsAreSegmentTexts(texts[1..]);
    }
  }

  predicate IsAbsolute(t: string) {
    SepAt(t, 0)
  }

  function Root(absolute: bool): string {
    if absolute then "/" else ""
  }

  function Joined(segs: seq<string>): string {
    if segs == [] then ""
    else if |segs| == 1 then segs[0]
    else Joined(segs[..|segs| - 1]) + "/" + segs[|segs| - 1]
  }

  /** The output of joining and normalising. A text without any segment stays its root. */
  function NormalizedText(texts: seq<string>): string
    requires texts != []
  {
    var absolute := IsAbsolute(texts[0]);
    var segs := AllSegments(texts);
    var kept := Reduce(segs, absolute);
    if kept == [] && segs != [] && !absolute then "." else Root(absolute) + Joined(kept)
  }

  function AbsolutePaths(base: string, path: string): (r: seq<string>)
    ensures r != []
  {
    (if IsAbsolute(base) then [] else ["/"]) + (if IsAbsolute(path) then [path] else [base, path])
  }

  function AbsoluteText(base: string, path: string): string {
    NormalizedText(AbsolutePaths(base, path))
  }

  function CommonPrefix(a: seq<string>, b: seq<string>): (r: seq<string>)
    ensures r <= a && r <= b
    ensures |r| < |a| && |r| < |b| ==> a[|r|] != b[|r|]
  {
    if a != [] && b != [] && a[0] == b[0] then [a[0]] + CommonPrefix(a[1..], b[1..]) else []
  }

  function Ups(k: nat): (r: seq<string>)
    ensures |r| == k && forall i :: 0 <= i < k ==> r[i] == ".."
  {
    if k == 0 then [] else [".."] + Ups(k - 1)
  }

  /** The steps from one reduced list to another: climb to the common part, then descend. */
  function Steps(base: seq<string>, path: seq<string>): seq<string> {
    var c := |CommonPrefix(base, path)|;
    Ups(|base| - c) + path[c..]
  }

  /** The output of the relative path. Texts under different roots give nothing. */
  function RelativeText(base: string, path: string): string {
    var absolute := IsAbsolute(base);
    if absolute != IsAbsolute(path) then ""
    else
      var steps := Steps(Reduce(Segments(base), absolute), Reduce(Segments(path), absolute));
      if steps == [] then "." else Joined(steps)
  }

  lemma StartVisible(all: seq<string>, absolute: bool)
    ensures VisibleUpTo(all, 0, absolute) == []
    ensures Root(absolute) == Root(absolute) + Joined([])
  {
    assert Root(absolute) + "" == Root(absolute);
  }

  lemma EmptyParts()
    ensures Reduce([], true) == [] && Reduce([], false) == [] && Joined([]) == ""
  {
  }

  // ----- reading back what was written -----

  lemma {:induction false} JoinedStartsPlain(segs: seq<string>)
    requires segs != [] && IsSegmentText(segs[0])
    ensures Joined(segs) != "" && !SepAt(Joined(segs), 0)
    decreases |segs|
  {
    if |segs| == 1 {
      assert !SepAt(segs[0], 0);
    } else {
      JoinedStartsPlain(segs[..|segs| - 1]);
    }
  }

  lemma {:induction false} SegmentsOfJoined(root: string, segs: seq<string>)
    requires root == "" || root == "/"
    requires AllSegmentTexts(segs)
    ensures Segments(root + Joined(segs)) == segs
    decreases |segs|
  {
    if segs == [] {
      assert root + Joined(segs) == root;
    } else {
      var init, s := segs[..|segs| - 1], segs[|segs| - 1];
      assert segs == init + [s];
      if init == [] {
        if root == "/" { SegmentsOfSlash(s); } else { SegmentsOfSegmentText(s); assert root + s == s; }
      } else {
        SegmentsOfJoined(root, init);
        assert root + Joined(segs) == root + Joined(init) + ("/" + s);
        SegmentsAddOne(root + Joined(init), s);
      }
    }
  }

  lemma SegmentsAddOne(a: string, s: string)
    requires IsSegmentText(s)
    ensures Segments(a + ("/" + s)) == Segments(a) + [s]
  {
    SegmentsOfJoin(a, "/" + s);
    SegmentsOfSlash(s);
  }

  lemma SegmentsOfSlash(s: string)
    requires IsSegmentText(s)
    ensures Segments("/" + s) == [s]
  {
    SegmentsOfSegmentText(s);
    assert SepAt("/" + s, 0);
    SegmentsOfJoin("/", s);
    assert Segments("/") == [];
  }

  /** A normalised text reads back to the same reduced list, under the same root. */
  lemma NormalizedReadsBack(texts: seq<string>)
    requires texts != []
    ensures var n := NormalizedText(texts);
            var absolute := IsAbsolute(texts[0]);
            && IsAbsolute(n) == absolute
            && Reduce(Segments(n), absolute) == Reduce(AllSegments(texts), absolute)
            && (Segments(n) == Reduce(AllSegments(texts), absolute) || n == ".")
            && (n == "" <==> AllSegments(texts) == [] && !absolute)
            && (!absolute ==> (Segments(n) == [] <==> AllSegments(texts) == []))
  {
    var absolute := IsAbsolute(texts[0]);
    var segs := AllSegments(texts);
    var kept := Reduce(segs, absolute);
    AllSegmentsAreSegmentTexts(texts);
    ReduceIsCanonical(segs, absolute);
    ReduceFixesCanonical(kept, absolute);
    if kept == [] && segs != [] && !absolute {
      SegmentsOfSegmentText(".");
    } else {
      SegmentsOfJoined(Root(absolute), kept);
      if kept != [] { JoinedStartsPlain(kept); }
    }
  }

  lemma AllSegmentsTwo(t: string, u: string)
    ensures AllSegments([t, u]) == Segments(t) + Segments(u)
  {
    assert [t, u] == [t] + [u];
    AllSegmentsAppend([t], [u]);
    AllSegmentsOne(t);
    AllSegmentsOne(u);
  }

  // ----- laws -----

  /** Normalising a normalised path changes nothing. */
  lemma NormalizeIdempotent(texts: seq<string>)
    requires texts != []
    ensures NormalizedText([NormalizedText(texts)]) == NormalizedText(texts)
  {
    NormalizedReadsBack(texts);
    AllSegmentsOne(NormalizedText(texts));
  }

  /** The normal form: one canonical list under the root, or "." for an emptied relative path. */
  lemma NormalizedIsCanonical(texts: seq<string>)
    requires texts != []
    ensures var n := NormalizedText(texts);
            n == "." || (Canonical(Segments(n), IsAbsolute(n)) && n == Root(IsAbsolute(n)) + Joined(Segments(n)))
  {
    NormalizedReadsBack(texts);
    ReduceIsCanonical(AllSegments(texts), IsAbsolute(texts[0]));
  }

  /** Joining in two steps is joining at once. */
  lemma JoinAssociative(a: seq<string>, c: seq<string>)
    requires a != []
    ensures NormalizedText([NormalizedText(a)] + c) == NormalizedText(a + c)
  {
    var n := NormalizedText(a);
    var absolute := IsAbsolute(a[0]);
    NormalizedReadsBack(a);
    AllSegmentsAppend(a, c);
    AllSegmentsAppend([n], c);
    AllSegmentsOne(n);
    ReduceOfReduced(AllSegments(a), AllSegments(c), absolute);
    ReduceOfReduced(Segments(n), AllSegments(c), absolute);
  }

  /** An absolute path overrides its base; a relative one is joined to it. The result is absolute. */
  lemma AbsoluteIsAbsolute(base: string, path: string)
    ensures IsAbsolute(AbsoluteText(base, path))
    ensures IsAbsolute(path) ==> AbsoluteText(base, path) == NormalizedText([path])
    ensures IsAbsolute(base) && !IsAbsolute(path) ==> AbsoluteText(base, path) == NormalizedText([base, path])
    ensures !IsAbsolute(base) && !IsAbsolute(path) ==>
              AbsoluteText(base, path) == NormalizedText(["/" + base, path])
  {
    var paths := AbsolutePaths(base, path);
    NormalizedReadsBack(paths);
    assert Segments("/") == [];
    if IsAbsolute(base) {
      assert paths == if IsAbsolute(path) then [path] else [base, path];
    } else if IsAbsolute(path) {
      assert paths == ["/", path];
      AllSegmentsTwo("/", path);
      AllSegmentsOne(path);
      assert [] + Segments(path) == Segments(path);
      EqualNormalizedText(paths, [path]);
    } else {
      assert paths == ["/"] + [base, path];
      AllSegmentsAppend(["/"], [base, path]);
      AllSegmentsOne("/");
      AllSegmentsTwo(base, path);
      assert SepAt("/" + base, 0);
      SegmentsOfJoin("/", base);
      AllSegmentsTwo("/" + base, path);
      assert [] + Segments(base) == Segments(base);
      assert [] + AllSegments([base, path]) == AllSegments([base, path]);
      EqualNormalizedText(paths, ["/" + base, path]);
    }
  }

  // ----- the relative path leads back -----

  /** How many ".." the list starts with. */
  function Lead(segs: seq<string>): (n: nat)
    ensures n <= |segs|
    ensures forall i :: 0 <= i < n ==> segs[i] == ".."
    ensures n < |segs| ==> segs[n] != ".."
  {
    if segs != [] && segs[0] == ".." then 1 + Lead(segs[1..]) else 0
  }

  lemma {:induction false} TopNormalsOfCanonical(segs: seq<string>, absolute: bool)
    requires Canonical(segs, absolute)
    ensures TopNormals(segs) == |segs| - Lead(segs)
    ensures absolute ==> Lead(segs) == 0
    decreases |segs|
  {
    if segs != [] {
      var init, s := segs[..|segs| - 1], segs[|segs| - 1];
      assert Canonical(init, absolute) by { assert forall i :: 0 <= i < |init| ==> init[i] == segs[i]; }
      TopNormalsOfCanonical(init, absolute);
      var n := Lead(segs);
      if KindOf(s) == Back {
        assert forall i :: 0 <= i < |segs| ==> KindOf(segs[i]) == Back;
      } else {
        assert n < |segs|;
        assert n < |init| ==> init[n] == segs[n];
        var m := Lead(init);
        assert m < |init| ==> init[m] == segs[m];
        assert m == n;
      }
    }
  }

  /** Climbing within the normal segments pops them. */
  lemma {:induction false} ClimbDown(stack: seq<string>, k: nat, absolute: bool)
    requires k <= TopNormals(stack)
    ensures ReduceFrom(stack, Ups(k), absolute) == stack[..|stack| - k]
    decreases k
  {
    if k > 0 {
      assert Ups(k)[1..] == Ups(k - 1);
      var next := stack[..|stack| - 1];
      ClimbDown(next, k - 1, absolute);
      assert next[..|next| - (k - 1)] == stack[..|stack| - k];
    } else {
      assert Ups(0) == [];
    }
  }

  /** Above the top of a relative stack, climbing collects "..". */
  lemma {:induction false} ClimbOut(n: nat, k: nat)
    ensures ReduceFrom(Ups(n), Ups(k), false) == Ups(n + k)
    decreases k
  {
    if k > 0 {
      assert Ups(k)[1..] == Ups(k - 1);
      assert Push(Ups(n), "..", false) == Ups(n + 1);
      ClimbOut(n + 1, k - 1);
    } else {
      assert Ups(0) == [];
    }
  }

  /** The base climbs no higher than the path: the steps lead there. */
  lemma StepsArrive(base: seq<string>, path: seq<string>, absolute: bool)
    requires TopNormals(base) == |base| - Lead(base)
    requires Canonical(path, absolute)
    requires Lead(base) <= |CommonPrefix(base, path)|
    ensures ReduceFrom(base, Steps(base, path), absolute) == path
  {
    hide ReduceFrom, Lead, TopNormals, Canonical, Ups;
    var c := |CommonPrefix(base, path)|;
    var k := |base| - c;
    calc {
      ReduceFrom(base, Steps(base, path), absolute);
      { ReduceFromAppend(base, Ups(k), path[c..], absolute); }
      ReduceFrom(ReduceFrom(base, Ups(k), absolute), path[c..], absolute);
      { ClimbDown(base, k, absolute); assert base[..c] == path[..c]; }
      ReduceFrom(path[..c], path[c..], absolute);
      { ReduceRest(path, c, absolute); }
      path;
    }
  }

  /** Continuing a canonical list from any of its prefixes gives the list. */
  lemma ReduceRest(segs: seq<string>, c: nat, absolute: bool)
    requires Canonical(segs, absolute) && c <= |segs|
    ensures ReduceFrom(segs[..c], segs[c..], absolute) == segs
  {
    var front := segs[..c];
    assert Canonical(front, absolute) by { assert forall i :: 0 <= i < c ==> front[i] == segs[i]; }
    ReduceFixesCanonical(front, absolute);
    ReduceFixesCanonical(segs, absolute);
    assert segs == front + segs[c..];
    ReduceFromAppend([], front, segs[c..], absolute);
  }

  /** Climbing out of the leading run collects "..". */
  lemma ClimbPast(base: seq<string>, c: nat)
    requires TopNormals(base) == |base| - Lead(base) && c < Lead(base)
    ensures ReduceFrom(base, Ups(|base| - c), false) == Ups(2 * Lead(base) - c)
  {
    hide ReduceFrom, TopNormals, Lead, Ups;
    var n := Lead(base);
    var first, second := Ups(|base| - n), Ups(n - c);
    calc {
      ReduceFrom(base, Ups(|base| - c), false);
      { assert Ups(|base| - c) == first + second; }
      ReduceFrom(base, first + second, false);
      { ReduceFromAppend(base, first, second, false); }
      ReduceFrom(ReduceFrom(base, first, false), second, false);
      { ClimbDown(base, |base| - n, false); assert base[..n] == Ups(n); }
      ReduceFrom(Ups(n), second, false);
      { ClimbOut(n, n - c); }
      Ups(n + (n - c));
    }
  }

  /** The base climbs higher: the path shares no more than its own leading run. */
  lemma LeadIsShort(base: seq<string>, path: seq<string>)
    requires Lead(base) > |CommonPrefix(base, path)|
    ensures Lead(path) == |CommonPrefix(base, path)|
  {
    var c := |CommonPrefix(base, path)|;
    assert base[c] == "..";
  }

  /** The base climbs higher: the steps end further up than the path. */
  lemma StepsOvershoot(base: seq<string>, path: seq<string>)
    requires Canonical(base, false) && Canonical(path, false)
    requires Lead(base) > |CommonPrefix(base, path)|
    ensures Lead(path) == |CommonPrefix(base, path)|
    ensures ReduceFrom(base, Steps(base, path), false) != path
  {
    LeadIsShort(base, path);
    TopNormalsOfCanonical(base, false);
    NormalAfterLead(path);
    StepsEndAbove(base, path, Lead(path));
  }

  lemma StepsEndAbove(base: seq<string>, path: seq<string>, c: nat)
    requires c == |CommonPrefix(base, path)| == Lead(path) < Lead(base)
    requires TopNormals(base) == |base| - Lead(base)
    requires forall i :: 0 <= i < |path| - c ==> KindOf(path[c..][i]) == Normal
    ensures ReduceFrom(base, Steps(base, path), false) != path
  {
    hide ReduceFrom, TopNormals, Lead, Ups, CommonPrefix;
    var climbed, rest := Ups(2 * Lead(base) - c), path[c..];
    calc {
      ReduceFrom(base, Steps(base, path), false);
      { ReduceFromAppend(base, Ups(|base| - c), rest, false); }
      ReduceFrom(ReduceFrom(base, Ups(|base| - c), false), rest, false);
      { ClimbPast(base, c); }
      ReduceFrom(climbed, rest, false);
      { PushNormals(climbed, rest); }
      climbed + rest;
    }
    assert (climbed + rest)[c] == "..";
  }

  lemma NormalAfterLead(segs: seq<string>)
    requires Canonical(segs, false)
    ensures forall i :: 0 <= i < |segs| - Lead(segs) ==> KindOf(segs[Lead(segs)..][i]) == Normal
  {
    var n := Lead(segs);
    assert n < |segs| ==> KindOf(segs[n]) != Back;
  }

  lemma LeadIsCommon(base: seq<string>, path: seq<string>)
    requires Lead(base) <= |CommonPrefix(base, path)|
    ensures Lead(base) <= Lead(path)
  {
    var c, p := |CommonPrefix(base, path)|, Lead(path);
    assert p < c ==> base[..c][p] == path[..c][p];
  }

  /** Where the steps lead when taken from the base. */
  lemma StepsLead(base: seq<string>, path: seq<string>, absolute: bool)
    requires Canonical(base, absolute) && Canonical(path, absolute)
    ensures Reduce(base + Steps(base, path), absolute) == path <==> Lead(base) <= Lead(path)
    ensures absolute ==> Lead(base) <= Lead(path)
  {
    TopNormalsOfCanonical(base, absolute);
    ReduceFixesCanonical(base, absolute);
    ReduceFromAppend([], base, Steps(base, path), absolute);
    if Lead(base) <= |CommonPrefix(base, path)| {
      LeadIsCommon(base, path);
      StepsArrive(base, path, absolute);
    } else {
      StepsOvershoot(base, path);
    }
  }

  lemma {:induction false} PushNormals(stack: seq<string>, segs: seq<string>)
    requires forall i :: 0 <= i < |segs| ==> KindOf(segs[i]) == Normal
    ensures ReduceFrom(stack, segs, false) == stack + segs
    decreases |segs|
  {
    if segs != [] {
      PushNormals(stack + [segs[0]], segs[1..]);
      assert stack + [segs[0]] + segs[1..] == stack + segs;
    }
  }

  lemma StepsAreSegmentTexts(base: seq<string>, path: seq<string>)
    requires AllSegmentTexts(path)
    ensures AllSegmentTexts(Steps(base, path))
  {
    assert IsSegmentText("..");
  }

  function StepSegments(base: seq<string>, path: seq<string>): seq<string> {
    if Steps(base, path) == [] then ["."] else Steps(base, path)
  }

  lemma RelativeReadsBack(base: string, path: string)
    requires IsAbsolute(base) == IsAbsolute(path)
    ensures var absolute := IsAbsolute(base);
            var r := RelativeText(base, path);
            && !IsAbsolute(r)
            && Segments(r) == StepSegments(Reduce(Segments(base), absolute), Reduce(Segments(path), absolute))
  {
    var absolute := IsAbsolute(base);
    var kept := Reduce(Segments(path), absolute);
    SegmentsAreSegmentTexts(path, 0);
    ReduceIsCanonical(Segments(path), absolute);
    var steps := Steps(Reduce(Segments(base), absolute), kept);
    StepsAreSegmentTexts(Reduce(Segments(base), absolute), kept);
    SegmentsOfSegmentText(".");
    if steps != [] {
      SegmentsOfJoined("", steps);
      assert "" + Joined(steps) == Joined(steps);
      JoinedStartsPlain(steps);
    }
  }

  lemma EqualNormalizedText(a: seq<string>, b: seq<string>)
    requires a != [] && b != []
    ensures NormalizedText(a) == NormalizedText(b) <==>
              && IsAbsolute(a[0]) == IsAbsolute(b[0])
              && Reduce(AllSegments(a), IsAbsolute(a[0])) == Reduce(AllSegments(b), IsAbsolute(b[0]))
              && (IsAbsolute(a[0]) || (AllSegments(a) == [] <==> AllSegments(b) == []))
  {
    NormalizedReadsBack(a);
    NormalizedReadsBack(b);
  }

  lemma ReducedStepsLead(base: seq<string>, path: seq<string>, absolute: bool)
    ensures var b, p := Reduce(base, absolute), Reduce(path, absolute);
            && (Reduce(base + StepSegments(b, p), absolute) == p <==> Lead(b) <= Lead(p))
            && (absolute ==> Lead(b) <= Lead(p))
  {
    var b, p := Reduce(base, absolute), Reduce(path, absolute);
    ReduceIsCanonical(base, absolute);
    ReduceIsCanonical(path, absolute);
    StepsLead(b, p, absolute);
    ReduceOfReduced(base, Steps(b, p), absolute);
    if Steps(b, p) == [] {
      assert b + [] == b;
      assert base + [] == base;
      ReduceLast(base, ".", absolute);
    }
  }

  /** Joining a base with the relative path to a target gives the target back: exactly when the two have
      one root and, without a root, the target is not empty and the base climbs no higher than it. */
  lemma RelativeLeadsBack(base: string, path: string)
    ensures NormalizedText([base, RelativeText(base, path)]) == NormalizedText([path]) <==>
              && IsAbsolute(base) == IsAbsolute(path)
              && (IsAbsolute(path) ||
                  (path != "" && Lead(Reduce(Segments(base), false)) <= Lead(Reduce(Segments(path), false))))
  {
    var rel := RelativeText(base, path);
    EqualNormalizedText([base, rel], [path]);
    if IsAbsolute(base) == IsAbsolute(path) {
      AllSegmentsTwo(base, rel);
      AllSegmentsOne(path);
      RelativeReadsBack(base, path);
      ReducedStepsLead(Segments(base), Segments(path), IsAbsolute(base));
      assert !IsAbsolute(path) ==> (Segments(path) == [] <==> path == "");
    }
  }

  /** From a base that climbs higher no relative path leads to the target: from ".." to "a", for one. */
  lemma RelativeCannotLead()
    ensures NormalizedText(["..", RelativeText("..", "a")]) != NormalizedText(["a"])
  {
    hide RelativeText, NormalizedText;
    RelativeLeadsBack("..", "a");
    SegmentsOfSegmentText("..");
    SegmentsOfSegmentText("a");
    ReduceFixesCanonical([".."], false);
    ReduceFixesCanonical(["a"], false);
  }

  /** The absolute form undoes the relative form, for every absolute base and path. */
  lemma AbsoluteUndoesRelative(base: string, path: string)
    requires IsAbsolute(base) && IsAbsolute(path)
    ensures AbsoluteText(base, RelativeText(base, path)) == NormalizedText([path])
  {
    RelativeReadsBack(base, path);
    AbsoluteIsAbsolute(base, RelativeText(base, path));
    RelativeLeadsBack(base, path);
  }

  // ----- the relative path itself -----

  lemma StepsAreCanonical(base: seq<string>, path: seq<string>, absolute: bool)
    requires Canonical(path, absolute)
    ensures Canonical(Steps(base, path), false)
  {
    var c := |CommonPrefix(base, path)|;
    var steps, k := Steps(base, path), |base| - c;
    assert forall i :: 0 <= i < k ==> steps[i] == "..";
    assert forall i :: k <= i < |steps| ==> steps[i] == path[c + i - k];
  }

  /** The relative path is empty exactly under different roots; otherwise it is in normal form. */
  lemma RelativeIsNormal(base: string, path: string)
    ensures RelativeText(base, path) == "" <==> IsAbsolute(base) != IsAbsolute(path)
    ensures NormalizedText([RelativeText(base, path)]) == RelativeText(base, path)
  {
    var r, absolute := RelativeText(base, path), IsAbsolute(base);
    AllSegmentsOne(r);
    if absolute != IsAbsolute(path) {
      assert Segments("") == [];
      assert Reduce([], false) == [] && Joined([]) == "" by { EmptyParts(); }
      assert "" + "" == "";
    } else {
      hide Reduce, Steps;
      RelativeReadsBack(base, path);
      var b, p := Reduce(Segments(base), absolute), Reduce(Segments(path), absolute);
      ReduceIsCanonical(Segments(path), absolute);
      StepsAreCanonical(b, p, absolute);
      ReduceFixesCanonical(Steps(b, p), false);
      assert "" + r == r;
      if Steps(b, p) == [] {
        ReduceLast([], ".", false);
        EmptyParts();
        assert [] + ["."] == ["."];
      }
    }
  }

  /** How many steps two lists are apart: up from one to the common part, and down to the other. */
  function Apart(a: seq<string>, b: seq<string>): nat {
    |a| + |b| - 2 * |CommonPrefix(a, b)|
  }

  lemma {:induction false} CommonIsLongest(a: seq<string>, b: seq<string>, k: nat)
    requires k <= |a| && k <= |b| && a[..k] == b[..k]
    ensures k <= |CommonPrefix(a, b)|
    decreases k
  {
    if k > 0 {
      assert a[0] == a[..k][0] == b[..k][0] == b[0];
      assert a[1..][..k - 1] == a[..k][1..] && b[1..][..k - 1] == b[..k][1..];
      CommonIsLongest(a[1..], b[1..], k - 1);
    }
  }

  lemma CommonGrows(a: seq<string>, s: string, b: seq<string>)
    ensures |CommonPrefix(a, b)| <= |CommonPrefix(a + [s], b)| <= |CommonPrefix(a, b)| + 1
  {
    hide CommonPrefix;
    var c, d := |CommonPrefix(a, b)|, |CommonPrefix(a + [s], b)|;
    assert (a + [s])[..c] == a[..c] == b[..c];
    CommonIsLongest(a + [s], b, c);
    var k := if d <= |a| then d else |a|;
    assert a[..k] == (a + [s])[..d][..k] == b[..d][..k] == b[..k];
    CommonIsLongest(a, b, k);
  }

  lemma PushMovesOne(stack: seq<string>, s: string, path: seq<string>, absolute: bool)
    ensures Apart(Push(stack, s, absolute), path) + 1 >= Apart(stack, path)
  {
    hide CommonPrefix;
    CommonGrows(stack, s, path);
    if stack != [] {
      var front, last := stack[..|stack| - 1], stack[|stack| - 1];
      assert stack == front + [last];
      CommonGrows(front, last, path);
    }
  }

  lemma {:induction false} NoFewerSteps(stack: seq<string>, steps: seq<string>, path: seq<string>, absolute: bool)
    ensures |steps| + Apart(ReduceFrom(stack, steps, absolute), path) >= Apart(stack, path)
    decreases |steps|
  {
    hide CommonPrefix;
    if steps != [] {
      PushMovesOne(stack, steps[0], path, absolute);
      NoFewerSteps(Push(stack, steps[0], absolute), steps[1..], path, absolute);
    }
  }

  lemma CommonWithItself(a: seq<string>)
    ensures CommonPrefix(a, a) == a
  {
    var r := CommonPrefix(a, a);
    assert r == a[..|r|];
  }

  /** Nothing with fewer segments leads from the base to the path. */
  lemma RelativeIsShortest(base: string, path: string, other: string)
    requires IsAbsolute(base) == IsAbsolute(path) && NormalizedText([base, other]) == NormalizedText([path])
    ensures RelativeText(base, path) == "." || |Segments(RelativeText(base, path))| <= |Segments(other)|
  {
    hide Reduce, CommonPrefix, NormalizedText, Push;
    var absolute := IsAbsolute(base);
    EqualNormalizedText([base, other], [path]);
    AllSegmentsTwo(base, other);
    AllSegmentsOne(path);
    RelativeReadsBack(base, path);
    var b, p := Reduce(Segments(base), absolute), Reduce(Segments(path), absolute);
    ReduceFromAppend([], Segments(base), Segments(other), absolute);
    assert ReduceFrom(b, Segments(other), absolute) == p by { ReduceIsFrom(Segments(base), Segments(other), absolute); }
    NoFewerSteps(b, Segments(other), p, absolute);
    CommonWithItself(p);
  }

  lemma ReduceIsFrom(a: seq<string>, b: seq<string>, absolute: bool)
    ensures Reduce(a + b, absolute) == ReduceFrom(Reduce(a, absolute), b, absolute)
  {
    ReduceFromAppend([], a, b, absolute);
  }
}
