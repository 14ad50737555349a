/** Two paths side by side: the way from one to the other, and the part they share. */
module PathRelative {
  import opened PathSegments
  import opened PathReduction
  import opened PathSplits
  import opened PathText
  import opened PathOutput
  import opened PathCursor
  import opened PathJoined

  /** How two counted stretches of characters compare: by size, then character by character. */
  method IsStringEqual(a: array<char>, i: nat, n: nat, b: array<char>, j: nat, m: nat) returns (equal: bool)
    requires i + n <= a.Length && j + m <= b.Length
    requires NUL !in a[i..i + n]
    ensures equal == (a[i..i + n] == b[j..j + m])
  {
    if n != m {
      return false;
    }
    var k := 0;
    while k < n
      invariant k <= n
      invariant a[i..i + k] == b[j..j + k]
    {
      if a[i + k] != b[j + k] {
        assert a[i..i + n][k] != b[j..j + m][k];
        return false;
      }
      assert a[i..i + n][k] != NUL;
      k := k + 1;
    }
    return true;
  }

  // ----- where two reduced lists part -----

  lemma {:induction false} CommonIs(a: seq<string>, b: seq<string>, k: nat)
    requires k <= |a| && k <= |b| && a[..k] == b[..k]
    requires k == |a| || k == |b| || a[k] != b[k]
    ensures |CommonPrefix(a, b)| == k
    decreases k
  {
    if k > 0 {
      assert a[0] == a[..k][0] == b[..k][0] == b[0];
      assert a[1..][..k - 1] == a[..k][1..] == b[..k][1..] == b[1..][..k - 1];
      CommonIs(a[1..], b[1..], k - 1);
    }
  }

  /** Both cursors have seen the same surviving segments. */
  ghost predicate Abreast(b: JoinedCursor, o: JoinedCursor, baseAll: seq<string>, otherAll: seq<string>, absolute: bool)
    reads b, b.segment, b.paths, o, o.segment, o.paths
  {
    && b.In(baseAll) && o.In(otherAll)
    && VisibleUpTo(baseAll, b.Place(), absolute) == VisibleUpTo(otherAll, o.Place(), absolute)
  }

  /** What is known of one side once the two have parted after `common`. */
  ghost predicate Parted(c: JoinedCursor, all: seq<string>, absolute: bool, available: bool, common: seq<string>)
    reads c, c.segment, c.paths
  {
    if available then c.index < |c.paths| && c.In(all) && VisibleUpTo(all, c.Place(), absolute) == common
    else Reduce(all, absolute) == common
  }

  /** The lists part where one of them ends. */
  lemma PartAtEnd(baseAll: seq<string>, k: nat, otherAll: seq<string>, j: nat, absolute: bool)
    requires k <= |baseAll| && j <= |otherAll|
    requires var common := VisibleUpTo(baseAll, k, absolute);
             && common == VisibleUpTo(otherAll, j, absolute)
             && (common == Reduce(baseAll, absolute) || common == Reduce(otherAll, absolute))
    ensures CommonPrefix(Reduce(baseAll, absolute), Reduce(otherAll, absolute)) == VisibleUpTo(baseAll, k, absolute)
  {
    hide VisibleUpTo, Reduce, CommonPrefix;
    VisibleInFront(baseAll, k, absolute);
    VisibleInFront(otherAll, j, absolute);
    CommonIs(Reduce(baseAll, absolute), Reduce(otherAll, absolute), |VisibleUpTo(baseAll, k, absolute)|);
  }

  /** A cursor rests on a segment that survives. */
  ghost predicate OnVisible(c: JoinedCursor, all: seq<string>, absolute: bool)
    reads c, c.segment, c.paths
  {
    c.index < |c.paths| && c.In(all) && !WillBeRemoved(c.before, c.cur, c.after, absolute)
  }

  /** The lists part where two surviving segments differ. */
  lemma PartAtDifference(b: JoinedCursor, baseAll: seq<string>, o: JoinedCursor, otherAll: seq<string>, absolute: bool)
    requires OnVisible(b, baseAll, absolute) && OnVisible(o, otherAll, absolute) && b.cur != o.cur
    requires VisibleUpTo(baseAll, b.Place(), absolute) == VisibleUpTo(otherAll, o.Place(), absolute)
    ensures CommonPrefix(Reduce(baseAll, absolute), Reduce(otherAll, absolute)) ==
            VisibleUpTo(baseAll, b.Place(), absolute)
  {
    hide VisibleUpTo, Reduce, CommonPrefix, WillBeRemoved, Hold, BeforeAt, AfterAt, IsSegmentAt;
    var k, j := b.Place(), o.Place();
    SplitAt(baseAll, b.before, b.cur, b.after);
    SplitAt(otherAll, o.before, o.cur, o.after);
    VisibleAt(baseAll, k, absolute);
    VisibleAt(otherAll, j, absolute);
    CommonIs(Reduce(baseAll, absolute), Reduce(otherAll, absolute), |VisibleUpTo(baseAll, k, absolute)|);
  }

  /** Compares the segments under two cursors. */
  method SameSegment(b: JoinedCursor, o: JoinedCursor) returns (equal: bool)
    requires b.OnSegment() && o.OnSegment()
    ensures equal == (b.cur == o.cur)
  {
    b.ReadsCur();
    o.ReadsCur();
    equal := IsStringEqual(b.segment.path, b.segment.begin, b.segment.size,
                           o.segment.path, o.segment.begin, o.segment.size);
  }

  /** Moves both cursors to their next surviving segments. */
  method SkipBoth(b: JoinedCursor, o: JoinedCursor, absolute: bool,
                  ghost baseAll: seq<string>, ghost otherAll: seq<string>, ghost common: seq<string>)
    returns (baseAvailable: bool, otherAvailable: bool)
    requires b != o && b.segment != o.segment
    requires Abreast(b, o, baseAll, otherAll, absolute) && common == VisibleUpTo(baseAll, b.Place(), absolute)
    modifies b`index, b`before, b`cur, b`after, b.segment, o`index, o`before, o`cur, o`after, o.segment
    ensures Parted(b, baseAll, absolute, baseAvailable, common)
    ensures Parted(o, otherAll, absolute, otherAvailable, common)
    ensures baseAvailable ==> OnVisible(b, baseAll, absolute) && |b.after| <= old(|b.after|)
    ensures baseAvailable ==> old(b.index < |b.paths|)
    ensures otherAvailable ==> OnVisible(o, otherAll, absolute)
    ensures !(baseAvailable && otherAvailable) ==>
              common == CommonPrefix(Reduce(baseAll, absolute), Reduce(otherAll, absolute))
  {
    hide VisibleUpTo, Reduce, WillBeRemoved, CommonPrefix, Hold, BeforeAt, AfterAt, IsSegmentAt;
    VisibleIsReduction(baseAll, absolute);
    VisibleIsReduction(otherAll, absolute);
    ghost var k, j := b.Place(), o.Place();
    baseAvailable := b.SkipInvisible(absolute, baseAll);
    otherAvailable := o.SkipInvisible(absolute, otherAll);
    if !(baseAvailable && otherAvailable) {
      PartAtEnd(baseAll, k, otherAll, j, absolute);
    }
  }

  /** Moves both cursors off segments they share. */
  method MoveBoth(b: JoinedCursor, o: JoinedCursor, absolute: bool,
                  ghost baseAll: seq<string>, ghost otherAll: seq<string>, ghost common: seq<string>)
    returns (baseAvailable: bool, otherAvailable: bool)
    requires b != o && b.segment != o.segment
    requires OnVisible(b, baseAll, absolute) && OnVisible(o, otherAll, absolute)
    requires VisibleUpTo(baseAll, b.Place() + 1, absolute) == common == VisibleUpTo(otherAll, o.Place() + 1, absolute)
    modifies b`index, b`before, b`cur, b`after, b.segment, o`index, o`before, o`cur, o`after, o.segment
    ensures Parted(b, baseAll, absolute, baseAvailable, common)
    ensures Parted(o, otherAll, absolute, otherAvailable, common)
    ensures baseAvailable ==> |b.after| < old(|b.after|)
    ensures !(baseAvailable && otherAvailable) ==>
              common == CommonPrefix(Reduce(baseAll, absolute), Reduce(otherAll, absolute))
  {
    hide VisibleUpTo, Reduce, WillBeRemoved, CommonPrefix, Hold, BeforeAt, AfterAt, IsSegmentAt;
    VisibleIsReduction(baseAll, absolute);
    VisibleIsReduction(otherAll, absolute);
    ghost var k, j := b.Place(), o.Place();
    baseAvailable := b.MoveNext(baseAll);
    otherAvailable := o.MoveNext(otherAll);
    if !(baseAvailable && otherAvailable) {
      PartAtEnd(baseAll, k + 1, otherAll, j + 1, absolute);
    }
  }

  /** A surviving segment adds itself to what survives. */
  lemma VisibleGrows(c: JoinedCursor, all: seq<string>, absolute: bool)
    requires OnVisible(c, all, absolute)
    ensures c.Place() < |all|
    ensures VisibleUpTo(all, c.Place() + 1, absolute) == VisibleUpTo(all, c.Place(), absolute) + [c.cur]
  {
    hide WillBeRemoved, Hold, BeforeAt, AfterAt, IsSegmentAt;
    VisibleStep(all, c.before, c.cur, c.after, absolute);
  }

  /** How far a cursor still has to go. */
  ghost function Ahead(c: JoinedCursor): (n: nat)
    reads c
  {
    if c.index < |c.paths| then |c.after| + 1 else 0
  }

  /** Moves both cursors past one surviving segment that they share, or finds out where they part. */
  method SkipShared(b: JoinedCursor, o: JoinedCursor, absolute: bool,
                    ghost baseAll: seq<string>, ghost otherAll: seq<string>)
    returns (baseAvailable: bool, otherAvailable: bool, again: bool, ghost common: seq<string>)
    requires b != o && b.segment != o.segment
    requires Abreast(b, o, baseAll, otherAll, absolute)
    modifies b`index, b`before, b`cur, b`after, b.segment, o`index, o`before, o`cur, o`after, o.segment
    ensures again ==> Abreast(b, o, baseAll, otherAll, absolute) && Ahead(b) < old(Ahead(b))
    ensures !again ==>
              && common == CommonPrefix(Reduce(baseAll, absolute), Reduce(otherAll, absolute))
              && Parted(b, baseAll, absolute, baseAvailable, common)
              && Parted(o, otherAll, absolute, otherAvailable, common)
  {
    hide VisibleUpTo, Reduce, WillBeRemoved, CommonPrefix, Hold, BeforeAt, AfterAt, IsSegmentAt;
    hide JoinedCursor.OnText, JoinedCursor.OnSegment;
    common := VisibleUpTo(baseAll, b.Place(), absolute);
    baseAvailable, otherAvailable := SkipBoth(b, o, absolute, baseAll, otherAll, common);
    again := false;
    if baseAvailable && otherAvailable {
      var equal := SameSegment(b, o);
      if !equal {
        PartAtDifference(b, baseAll, o, otherAll, absolute);
      } else {
        VisibleGrows(b, baseAll, absolute);
        VisibleGrows(o, otherAll, absolute);
        common := common + [b.cur];
        baseAvailable, otherAvailable := MoveBoth(b, o, absolute, baseAll, otherAll, common);
        again := baseAvailable && otherAvailable;
      }
    }
  }

  /** Moves both cursors past the surviving segments they share. */
  method SkipUntilDiverge(b: JoinedCursor, o: JoinedCursor, absolute: bool,
                          ghost baseAll: seq<string>, ghost otherAll: seq<string>)
    returns (baseAvailable: bool, otherAvailable: bool, ghost common: seq<string>)
    requires b != o && b.segment != o.segment
    requires Abreast(b, o, baseAll, otherAll, absolute)
    modifies b`index, b`before, b`cur, b`after, b.segment, o`index, o`before, o`cur, o`after, o.segment
    ensures b.paths == old(b.paths) && o.paths == old(o.paths)
    ensures common == CommonPrefix(Reduce(baseAll, absolute), Reduce(otherAll, absolute))
    ensures Parted(b, baseAll, absolute, baseAvailable, common)
    ensures Parted(o, otherAll, absolute, otherAvailable, common)
  {
    hide *;
    var again := true;
    baseAvailable, otherAvailable, common := true, true, [];
    while again
      invariant if again then Abreast(b, o, baseAll, otherAll, absolute)
                else && common == CommonPrefix(Reduce(baseAll, absolute), Reduce(otherAll, absolute))
                     && Parted(b, baseAll, absolute, baseAvailable, common)
                     && Parted(o, otherAll, absolute, otherAvailable, common)
      decreases again, Ahead(b)
    {
      baseAvailable, otherAvailable, again, common := SkipShared(b, o, absolute, baseAll, otherAll);
    }
  }

  // ----- writing the way from the base to the path -----

  /** Every segment followed by a separator. */
  function Slashed(segs: seq<string>): string {
    if segs == [] then "" else Slashed(segs[..|segs| - 1]) + segs[|segs| - 1] + "/"
  }

  lemma SlashedNone()
    ensures Slashed([]) == ""
  {
  }

  lemma SlashedAdd(segs: seq<string>, s: string)
    ensures Slashed(segs + [s]) == Slashed(segs) + s + "/"
  {
    assert (segs + [s])[..|segs|] == segs;
  }

  lemma {:induction false} SlashedIsJoined(segs: seq<string>)
    requires segs != []
    ensures Slashed(segs) == Joined(segs) + "/"
    decreases |segs|
  {
    var init := segs[..|segs| - 1];
    if init != [] { SlashedIsJoined(init); }
  }

  method WriteSlashed(str: string, buffer: array<char>, size: nat, start: nat, ghost mem: seq<char>, ghost out: string)
    returns (pos: nat)
    requires size <= buffer.Length == |mem| && buffer[..] == Written(mem, size, out) && start == |out|
    modifies buffer
    ensures buffer[..] == Written(mem, size, out + str + "/") && pos == |out + str + "/"|
  {
    var n := Append(buffer, size, start, str, mem, out);
    var m := Append(buffer, size, start + n, "/", mem, out + str);
    pos := start + n + m;
  }

  /** One ".." for every surviving segment the base has left. */
  method Climb(b: JoinedCursor, absolute: bool, available: bool, buffer: array<char>, size: nat,
               ghost mem: seq<char>, ghost all: seq<string>, ghost common: seq<string>)
    returns (pos: nat, hasOutput: bool)
    requires Parted(b, all, absolute, available, common) && buffer !in b.paths
    requires size <= buffer.Length && mem == buffer[..]
    modifies b`index, b`before, b`cur, b`after, b.segment, buffer
    ensures var kept := Reduce(all, absolute);
            && |common| <= |kept|
            && var ups := Ups(|kept| - |common|);
               buffer[..] == Written(mem, size, Slashed(ups)) && pos == |Slashed(ups)| && hasOutput == (ups != [])
  {
    hide VisibleUpTo, Reduce, WillBeRemoved, Hold, BeforeAt, AfterAt, IsSegmentAt, Written, Slashed, StrLen, Text;
    hide JoinedCursor.Valid;
    pos, hasOutput := 0, false;
    ghost var ups: seq<string> := [];
    assert Slashed(ups) == "" by { SlashedNone(); }
    VisibleIsReduction(all, absolute);
    assert buffer[..] == Written(mem, size, "") by { WrittenNothing(mem, size); }
    var going := available;
    while going
      invariant going ==> b.index < |b.paths| && b.In(all)
      invariant going ==> |VisibleUpTo(all, b.Place(), absolute)| == |common| + |ups|
      invariant !going ==> |Reduce(all, absolute)| == |common| + |ups|
      invariant ups == Ups(|ups|) && hasOutput == (ups != [])
      invariant buffer[..] == Written(mem, size, Slashed(ups)) && pos == |Slashed(ups)|
      invariant b.paths == old(b.paths)
      decreases going, |b.after|
    {
      going := b.SkipInvisible(absolute, all);
      if going {
        VisibleStep(all, b.before, b.cur, b.after, absolute);
        hasOutput := true;
        pos := WriteSlashed("..", buffer, size, pos, mem, Slashed(ups));
        SlashedAdd(ups, "..");
        assert Ups(|ups| + 1) == ups + [".."];
        ups := ups + [".."];
        going := b.MoveNext(all);
      }
    }
  }

  /** The surviving segments the path has left. */
  method Descend(o: JoinedCursor, absolute: bool, available: bool, buffer: array<char>, size: nat,
                 start: nat, had: bool, ghost mem: seq<char>, ghost all: seq<string>,
                 ghost common: seq<string>, ghost ups: seq<string>)
    returns (pos: nat, hasOutput: bool)
    requires Parted(o, all, absolute, available, common) && buffer !in o.paths
    requires common <= Reduce(all, absolute)
    requires size <= buffer.Length == |mem| && buffer[..] == Written(mem, size, Slashed(ups))
    requires start == |Slashed(ups)| && had == (ups != [])
    modifies o`index, o`before, o`cur, o`after, o.segment, buffer
    ensures var steps := ups + Reduce(all, absolute)[|common|..];
            buffer[..] == Written(mem, size, Slashed(steps)) && pos == |Slashed(steps)| && hasOutput == (steps != [])
  {
    hide VisibleUpTo, Reduce, WillBeRemoved, Hold, BeforeAt, AfterAt, IsSegmentAt, Written, Slashed, StrLen, Text;
    hide JoinedCursor.OnText, JoinedCursor.KnowsAfter, JoinedCursor.KnowsBefore;
    pos, hasOutput := start, had;
    ghost var rest: seq<string> := [];
    ghost var steps := ups;
    VisibleIsReduction(all, absolute);
    assert common + rest == common;
    var going := available;
    while going
      invariant going ==> o.index < |o.paths| && o.In(all)
      invariant going ==> VisibleUpTo(all, o.Place(), absolute) == common + rest
      invariant !going ==> Reduce(all, absolute) == common + rest
      invariant steps == ups + rest && hasOutput == (steps != [])
      invariant buffer[..] == Written(mem, size, Slashed(steps)) && pos == |Slashed(steps)|
      invariant o.paths == old(o.paths)
      decreases going, |o.after|
    {
      going := o.SkipInvisible(absolute, all);
      if going {
        VisibleStep(all, o.before, o.cur, o.after, absolute);
        hasOutput := true;
        o.ReadsCur();
        var segment := o.segment;
        ghost var s := o.cur;
        pos := WriteSlashed(segment.path[segment.begin..segment.begin + segment.size], buffer, size, pos,
                            mem, Slashed(steps));
        SlashedAdd(steps, s);
        AddLast(ups, rest, s);
        AddLast(common, rest, s);
        rest, steps := rest + [s], steps + [s];
        going := o.MoveNext(all);
      }
    }
    AfterFront(common, rest);
  }

  lemma AddLast(a: seq<string>, b: seq<string>, s: string)
    ensures (a + b) + [s] == a + (b + [s])
  {
  }

  lemma AfterFront(a: seq<string>, b: seq<string>)
    ensures (a + b)[|a|..] == b
  {
  }

  /** A cursor on the first segment of one path, or one without segments. */
  method Open(path: array<char>, ghost t: string) returns (c: JoinedCursor, found: bool)
    requires Terminated(path[..]) && Text(path[..]) == t
    ensures fresh(c) && fresh(c.segment) && c.paths == [path]
    ensures c.In(Segments(t)) && c.Place() == 0
    ensures c.texts == [t] && found == (Segments(t) != [])
    ensures found ==> c.index < |c.paths|
  {
    hide AllSegments, SegmentsFrom, BeforeAt, AfterAt, IsSegmentAt;
    c := new JoinedCursor([path], [t]);
    AllSegmentsOne(t);
    found := c.GetFirst();
  }

  /** Compares the roots; equal lengths hold equal characters. */
  method SameRoot(base: array<char>, path: array<char>, ghost b: string, ghost p: string)
    returns (same: bool, baseRoot: nat)
    requires Terminated(base[..]) && Text(base[..]) == b && Terminated(path[..]) && Text(path[..]) == p
    ensures same == (IsAbsolute(b) == IsAbsolute(p)) && baseRoot == |Root(IsAbsolute(b))|
  {
    hide StrLen;
    baseRoot := GetRoot(base);
    var pathRoot := GetRoot(path);
    NoNulInText(base[..]);
    assert base[0..baseRoot] == b[..baseRoot];
    assert path[0..pathRoot] == p[..pathRoot];
    var equal := IsStringEqual(base, 0, baseRoot, path, 0, pathRoot);
    same := baseRoot == pathRoot && equal;
    if baseRoot == pathRoot == 1 {
      assert b[..1] == "/" && p[..1] == "/";
    }
  }

  /** Writes every step from one cursor's list to the other's, each followed by a separator. */
  method WriteSteps(bsj: JoinedCursor, osj: JoinedCursor, absolute: bool, buffer: array<char>, size: nat,
                    ghost mem: seq<char>, ghost baseAll: seq<string>, ghost pathAll: seq<string>)
    returns (pos: nat, hasOutput: bool)
    requires bsj != osj && bsj.segment != osj.segment && buffer !in bsj.paths && buffer !in osj.paths
    requires Abreast(bsj, osj, baseAll, pathAll, absolute)
    requires size <= buffer.Length && mem == buffer[..]
    modifies bsj, bsj.segment, osj, osj.segment, buffer
    ensures var steps := Steps(Reduce(baseAll, absolute), Reduce(pathAll, absolute));
            buffer[..] == Written(mem, size, Slashed(steps)) && pos == |Slashed(steps)| && hasOutput == (steps != [])
  {
    hide VisibleUpTo, Reduce, Written, CommonPrefix, Slashed, Hold, BeforeAt, AfterAt, IsSegmentAt;
    var baseAvailable, otherAvailable;
    ghost var common;
    baseAvailable, otherAvailable, common := SkipUntilDiverge(bsj, osj, absolute, baseAll, pathAll);
    pos, hasOutput := Climb(bsj, absolute, baseAvailable, buffer, size, mem, baseAll, common);
    ghost var ups := Ups(|Reduce(baseAll, absolute)| - |common|);
    pos, hasOutput := Descend(osj, absolute, otherAvailable, buffer, size, pos, hasOutput, mem, pathAll, common, ups);
  }

  /** Takes back the last separator, or writes "." for no step at all. */
  method FinishSteps(buffer: array<char>, size: nat, start: nat, hasOutput: bool,
                     ghost mem: seq<char>, ghost steps: seq<string>)
    returns (pos: nat)
    requires size <= buffer.Length == |mem|
    requires buffer[..] == Written(mem, size, Slashed(steps)) && start == |Slashed(steps)|
    requires hasOutput == (steps != [])
    modifies buffer
    ensures var out := if steps == [] then "." else Joined(steps);
            pos == |out| && buffer[..] == Emitted(mem, size, out)
  {
    hide Emitted, Written, Slashed, Joined;
    pos := start;
    if hasOutput {
      SlashedIsJoined(steps);
      pos := pos - 1;
      TerminateOutput(buffer, size, pos, mem, Joined(steps), "/");
    } else {
      SlashedNone();
      var n := Append(buffer, size, pos, ".", mem, "");
      pos := pos + n;
      assert "" + "." == "." && "." + "" == ".";
      TerminateOutput(buffer, size, pos, mem, ".", "");
    }
  }

  /** Writes the way from the base to the path; `b` and `p` are what the two C strings hold. */
  method GetRelative(base: array<char>, path: array<char>, buffer: array<char>, size: nat,
                     ghost b: string, ghost p: string)
    returns (pos: nat)
    requires Terminated(base[..]) && Text(base[..]) == b && Terminated(path[..]) && Text(path[..]) == p
    requires buffer != base && buffer != path && size <= buffer.Length
    modifies buffer
    ensures pos == |RelativeText(b, p)|
    ensures buffer[..] == Emitted(old(buffer[..]), size, RelativeText(b, p))
  {
    hide VisibleUpTo, Reduce, Emitted, Written, Steps, SegmentsFrom, BeforeAt, AfterAt, Slashed, Joined, Text, StrLen;
    ghost var mem := buffer[..];
    pos := 0;
    var same, rootLength := SameRoot(base, path, b, p);
    if !same {
      WrittenNothing(mem, size);
      assert "" + "" == "";
      TerminateOutput(buffer, size, pos, mem, "", "");
      return;
    }
    var absolute := rootLength == 1;
    ghost var baseAll, pathAll := Segments(b), Segments(p);
    var bsj, _ := Open(base, b);
    var osj, _ := Open(path, p);
    StartVisible(baseAll, absolute);
    StartVisible(pathAll, absolute);
    var hasOutput;
    pos, hasOutput := WriteSteps(bsj, osj, absolute, buffer, size, mem, baseAll, pathAll);
    pos := FinishSteps(buffer, size, pos, hasOutput, mem, Steps(Reduce(baseAll, absolute), Reduce(pathAll, absolute)));
  }

  // ----- the part two paths share -----

  /** The length of the part of `base` that both paths share; `b` and `o` are what the C strings hold. */
  method GetIntersection(base: array<char>, other: array<char>, ghost b: string, ghost o: string)
    returns (n: nat)
    requires Terminated(base[..]) && Text(base[..]) == b && Terminated(other[..]) && Text(other[..]) == o
    ensures n <= |b|
    ensures IsAbsolute(b) != IsAbsolute(o) ==> n == 0
    ensures IsAbsolute(b) == IsAbsolute(o) ==>
              var absolute := IsAbsolute(b);
              && Reduce(Segments(b[..n]), absolute) ==
                 CommonPrefix(Reduce(Segments(b), absolute), Reduce(Segments(o), absolute))
              && |Root(absolute)| <= n && (n == |Root(absolute)| || EndsSegment(b, n))
              && EndsWith(b, n, CommonPrefix(Reduce(Segments(b), absolute), Reduce(Segments(o), absolute)))
  {
    hide VisibleUpTo, Reduce, CommonPrefix, SegmentsFrom, BeforeAt, AfterAt, Text, StrLen, Hold, IsSegmentAt, EndsWith;
    var same, rootLength := SameRoot(base, other, b, o);
    if !same {
      return 0;
    }
    var absolute := rootLength == 1;
    ghost var baseAll, otherAll := Segments(b), Segments(o);
    n := rootLength;
    RootIsBare(b);
    var bsj, baseFound := Open(base, b);
    if !baseFound {
      NothingShared(b, o);
      return;
    }
    var osj, otherFound := Open(other, o);
    if !otherFound {
      NothingShared(b, o);
      return;
    }
    StartVisible(baseAll, absolute);
    StartVisible(otherAll, absolute);
    n := SharedLength(bsj, osj, absolute, b, baseAll, otherAll);
  }

  /** The end of the last surviving segment that both cursors share, or the root length. */
  method SharedLength(bsj: JoinedCursor, osj: JoinedCursor, absolute: bool, ghost t: string,
                      ghost baseAll: seq<string>, ghost otherAll: seq<string>)
    returns (n: nat)
    requires bsj != osj && bsj.segment != osj.segment
    requires Abreast(bsj, osj, baseAll, otherAll, absolute)
    requires bsj.index < |bsj.paths| && osj.index < |osj.paths| && bsj.texts == [t] && baseAll == Segments(t)
    requires bsj.Place() == 0 && absolute == IsAbsolute(t)
    modifies bsj, bsj.segment, osj, osj.segment
    ensures Cut(t, n, CommonPrefix(Reduce(baseAll, absolute), Reduce(otherAll, absolute)))
  {
    hide VisibleUpTo, Reduce, CommonPrefix, BeforeAt, AfterAt, Hold, IsSegmentAt, Cut, WillBeRemoved;
    n := if absolute then 1 else 0;
    RootIsBare(t);
    StartVisible(baseAll, absolute);
    var going := true;
    while going
      invariant going ==> Abreast(bsj, osj, baseAll, otherAll, absolute)
      invariant going ==> bsj.index < |bsj.paths| && osj.index < |osj.paths|
      invariant going ==> Cut(t, n, VisibleUpTo(baseAll, bsj.Place(), absolute))
      invariant bsj.texts == [t]
      invariant !going ==> Cut(t, n, CommonPrefix(Reduce(baseAll, absolute), Reduce(otherAll, absolute)))
      decreases going, |bsj.after|
    {
      going := Match(bsj, osj, absolute, baseAll, otherAll);
      if going {
        n, going := StepOn(bsj, osj, absolute, t, baseAll, otherAll);
      }
    }
  }

  /** Cuts behind a shared segment and moves both cursors on; tells whether both found a next segment. */
  method StepOn(b: JoinedCursor, o: JoinedCursor, absolute: bool, ghost t: string,
                ghost baseAll: seq<string>, ghost otherAll: seq<string>)
    returns (n: nat, going: bool)
    requires b != o && b.segment != o.segment && b.texts == [t] && baseAll == Segments(t) && absolute == IsAbsolute(t)
    requires OnVisible(b, baseAll, absolute) && OnVisible(o, otherAll, absolute)
    requires VisibleUpTo(baseAll, b.Place() + 1, absolute) == VisibleUpTo(otherAll, o.Place() + 1, absolute)
    modifies b`index, b`before, b`cur, b`after, b.segment, o`index, o`before, o`cur, o`after, o.segment
    ensures going ==> Abreast(b, o, baseAll, otherAll, absolute)
    ensures going ==> b.index < |b.paths| && o.index < |o.paths|
    ensures going ==> Cut(t, n, VisibleUpTo(baseAll, b.Place(), absolute)) && |b.after| < old(|b.after|)
    ensures !going ==> Cut(t, n, CommonPrefix(Reduce(baseAll, absolute), Reduce(otherAll, absolute)))
  {
    hide VisibleUpTo, Reduce, CommonPrefix, BeforeAt, AfterAt, Hold, IsSegmentAt, Cut, WillBeRemoved;
    n := b.segment.end;
    CutAtCursor(b, t, absolute);
    ghost var k, j := b.Place(), o.Place();
    going := b.MoveNext(baseAll);
    if going {
      going := o.MoveNext(otherAll);
    }
    if !going {
      VisibleIsReduction(baseAll, absolute);
      VisibleIsReduction(otherAll, absolute);
      PartAtEnd(baseAll, k + 1, otherAll, j + 1, absolute);
    }
  }

  /** Moves both cursors to their next surviving segments; tells whether both exist and are equal. */
  method Match(b: JoinedCursor, o: JoinedCursor, absolute: bool,
               ghost baseAll: seq<string>, ghost otherAll: seq<string>)
    returns (matched: bool)
    requires b != o && b.segment != o.segment
    requires Abreast(b, o, baseAll, otherAll, absolute)
    requires b.index < |b.paths| && o.index < |o.paths|
    modifies b`index, b`before, b`cur, b`after, b.segment, o`index, o`before, o`cur, o`after, o.segment
    ensures !matched ==> VisibleUpTo(baseAll, old(b.Place()), absolute) ==
                         CommonPrefix(Reduce(baseAll, absolute), Reduce(otherAll, absolute))
    ensures matched ==>
              && OnVisible(b, baseAll, absolute) && OnVisible(o, otherAll, absolute)
              && VisibleUpTo(baseAll, b.Place() + 1, absolute) == VisibleUpTo(otherAll, o.Place() + 1, absolute)
              && |b.after| <= old(|b.after|)
  {
    hide VisibleUpTo, Reduce, CommonPrefix, WillBeRemoved, BeforeAt, AfterAt, Hold, IsSegmentAt;
    ghost var k, j := b.Place(), o.Place();
    matched := b.SkipInvisible(absolute, baseAll);
    if matched {
      matched := o.SkipInvisible(absolute, otherAll);
    }
    if !matched {
      VisibleIsReduction(baseAll, absolute);
      VisibleIsReduction(otherAll, absolute);
      PartAtEnd(baseAll, k, otherAll, j, absolute);
      return;
    }
    matched := SameSegment(b, o);
    if matched {
      VisibleGrows(b, baseAll, absolute);
      VisibleGrows(o, otherAll, absolute);
    } else {
      PartAtDifference(b, baseAll, o, otherAll, absolute);
    }
  }

  ghost predicate EndsSegment(t: string, n: nat) {
    exists b: nat :: b < n && IsSegmentAt(t, b, n)
  }

  /** A segment that survives in the whole text ends at `n`, as the last of those in `kept`. */
  ghost predicate EndsKept(t: string, b: nat, n: nat, kept: seq<string>) {
    var all, k, absolute := Segments(t), |SegmentsUpTo(t, if b <= |t| then b else 0)|, IsAbsolute(t);
    && IsSegmentAt(t, b, n) && k < |all| && !WillBeRemoved(all[..k], all[k], all[k + 1..], absolute)
    && VisibleUpTo(all, k + 1, absolute) == kept
  }

  ghost predicate EndsWith(t: string, n: nat, kept: seq<string>) {
    if kept == [] then n == |Root(IsAbsolute(t))| else exists b: nat :: EndsKept(t, b, n, kept)
  }

  /** The first `n` characters reduce to `kept`, and end at the root or with the last surviving segment in it. */
  ghost predicate Cut(t: string, n: nat, kept: seq<string>) {
    && |Root(IsAbsolute(t))| <= n <= |t|
    && Reduce(Segments(t[..n]), IsAbsolute(t)) == kept
    && (n == |Root(IsAbsolute(t))| || EndsSegment(t, n))
    && EndsWith(t, n, kept)
  }

  lemma RootIsBare(t: string)
    ensures Cut(t, |Root(IsAbsolute(t))|, [])
  {
    var root := Root(IsAbsolute(t));
    assert t[..|root|] == root;
    assert Segments(root) == [];
    EmptyParts();
  }

  lemma NothingShared(b: string, o: string)
    ensures Segments(b) == [] || Segments(o) == [] ==>
              CommonPrefix(Reduce(Segments(b), IsAbsolute(b)), Reduce(Segments(o), IsAbsolute(b))) == []
  {
    EmptyParts();
  }

  /** A cut after the surviving segment under the cursor keeps what survives up to there. */
  lemma CutAtCursor(c: JoinedCursor, t: string, absolute: bool)
    requires c.Valid() && c.texts == [t] && Segments(t) == c.before + [c.cur] + c.after
    requires absolute == IsAbsolute(t) && !WillBeRemoved(c.before, c.cur, c.after, absolute)
    ensures Cut(t, c.segment.end, VisibleUpTo(Segments(t), |c.before| + 1, absolute))
  {
    hide VisibleUpTo, Reduce, WillBeRemoved, SegmentsFrom, AllSegments;
    var all, k, b, e := Segments(t), |c.before|, c.segment.begin, c.segment.end;
    SplitAt(all, c.before, c.cur, c.after);
    CutAfterVisible(all, k, absolute);
    OneText(t, b, e);
    SegmentsOfPrefix(t, e);
    PreviousSegmentIs(t, e, b, e);
    assert SegmentsUpTo(t, e) == SegmentsUpTo(t, b) + [t[b..e]];
    assert all[..k + 1] == c.before + [c.cur];
    assert IsSegmentAt(t, b, e);
    VisibleStep(all, c.before, c.cur, c.after, absolute);
    assert SegmentsUpTo(t, b) == c.before;
    assert all[..k] == c.before && all[k] == c.cur && all[k + 1..] == c.after;
    assert EndsKept(t, b, e, VisibleUpTo(all, k + 1, absolute));
  }
}
