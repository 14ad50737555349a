/** The cursor over several texts as if they were one path, and the removal scans that drive it. */
module PathJoined {
  import opened PathSegments
  import opened PathReduction
  import opened PathCursor
  import opened PathSplits

  /** The C strings `paths` hold `texts`. */
  ghost predicate Hold(paths: seq<array<char>>, texts: seq<string>)
    reads paths
  {
    && |paths| == |texts|
    && forall i :: 0 <= i < |paths| ==> Terminated(paths[i][..]) && Text(paths[i][..]) == texts[i]
  }

  class JoinedCursor {
    const segment: SegmentCursor
    var paths: seq<array<char>>
    var index: nat

    // For specification: the texts, and their segments around the cursor.
    ghost var texts: seq<string>
    ghost var before: seq<string>
    ghost var cur: string
    ghost var after: seq<string>

    constructor (paths: seq<array<char>>, ghost texts: seq<string>)
      requires paths != []
      ensures this.paths == paths && this.texts == texts && fresh(segment)
    {
      this.paths, this.texts, index := paths, texts, 0;
      segment := new SegmentCursor(paths[0]);
    }

    /** A copy to scan with, so that the scan leaves the original in place. */
    constructor Copy(other: JoinedCursor)
      ensures paths == other.paths && index == other.index && fresh(segment)
      ensures segment.path == other.segment.path && segment.segments == other.segment.segments
      ensures segment.begin == other.segment.begin && segment.end == other.segment.end
      ensures segment.size == other.segment.size && texts == other.texts
      ensures before == other.before && cur == other.cur && after == other.after
    {
      paths, index, texts := other.paths, other.index, other.texts;
      before, cur, after := other.before, other.cur, other.after;
      segment := new SegmentCursor(other.segment.path);
      new;
      segment.CopyFrom(other.segment);
    }

    ghost predicate OnText()
      reads this, segment, paths
    {
      Hold(paths, texts) && index < |paths| && segment.path == paths[index]
    }

    /** The cursor rests on the segment `cur`. */
    ghost predicate OnSegment()
      reads this, segment, paths
    {
      && OnText()
      && segment.OnSegment()
      && cur == texts[index][segment.begin..segment.end]
    }

    /** The segments ahead are `after`. */
    ghost predicate KnowsAfter()
      reads this, segment, paths
    {
      && OnText()
      && segment.CanAdvance()
      && after == AfterAt(texts, index, segment.end)
    }

    /** The segments behind are `before`. */
    ghost predicate KnowsBefore()
      reads this, segment, paths
    {
      && OnText()
      && segment.begin <= |texts[index]|
      && before == BeforeAt(texts, index, segment.begin)
    }

    ghost predicate Valid()
      reads this, segment, paths
    {
      OnSegment() && KnowsAfter() && KnowsBefore()
    }

    /** The one text under the cursor was rewritten behind the segment's end. */
    ghost method Rewritten(text: string)
      requires paths == [segment.path] && index == 0 && |texts| == 1 && segment.end <= |texts[0]| == |text|
      requires Terminated(segment.path[..]) && Text(segment.path[..]) == text
      requires segment.begin + segment.size == segment.end && segment.segments <= segment.begin
      requires texts[0][segment.end..] == text[segment.end..]
      requires segment.end == |text| || SepAt(texts[0], segment.end)
      requires segment.segments == 0 || (segment.segments == 1 && SepAt(text, 0))
      requires after == AfterAt(texts, 0, segment.end)
      modifies this`texts
      ensures texts == [text] && KnowsAfter()
    {
      hide SegmentsFrom, AllSegments;
      SegmentsFromSuffix(texts[0], text, segment.end);
      assert texts[0][segment.end..][0..] == text[segment.end..][0..];
      assert texts[1..] == [text][1..];
      texts := [text];
    }

    method GetFirst() returns (found: bool)
      requires paths != [] && Hold(paths, texts)
      modifies this`index, this`before, this`cur, this`after, segment
      ensures found == (AllSegments(texts) != [])
      ensures found ==> Valid() && before == [] && AllSegments(texts) == [cur] + after
      ensures found && index == 0 ==>
                && segment.segments == (if SepAt(texts[0], 0) then 1 else 0)
                && NextSegment(texts[0], segment.segments) == Segment(segment.begin, segment.end)
      ensures !found ==> index == |paths| && segment.size == 0 && segment.begin <= segment.path.Length
    {
      hide SegmentsFrom, SegmentsUpTo, AllFrom, AllUpTo, AllSegments, NextSegment, PreviousSegment, BeforeAt, AfterAt;
      hide StrLen, Text;
      index := 0;
      var ps := paths;
      ghost var ts := texts;
      AllEnds(ts);
      while index < |ps|
        invariant index <= |ps|
        invariant AllSegments(ts) == AllFrom(ts, index)
        invariant index > 0 ==> segment.size == 0 && segment.begin <= segment.path.Length
        decreases |ps| - index
      {
        found := segment.GetFirst(ps[index]);
        ghost var first := segment.segments;
        FirstInText(ts, index, first);
        if found {
          Begin();
          return;
        }
        index := index + 1;
      }
      AllEnds(ts);
      found := false;
    }

    /** Records the first segment of all, now under the cursor. */
    ghost method Begin()
      requires OnText() && segment.OnSegment()
      requires AllSegments(texts) == [texts[index][segment.begin..segment.end]] + AfterAt(texts, index, segment.end)
      modifies this`before, this`cur, this`after
      ensures Valid() && before == [] && AllSegments(texts) == [cur] + after
    {
      hide SegmentsFrom, SegmentsUpTo, AllFrom, AllUpTo, AllSegments, BeforeAt, AfterAt, StrLen, Text;
      NothingBefore(texts, index, segment.begin, segment.end);
      before, cur, after := [], texts[index][segment.begin..segment.end], AfterAt(texts, index, segment.end);
    }

    method GetNext() returns (found: bool)
      requires index == |paths| || KnowsAfter()
      modifies this`index, this`before, this`cur, this`after, segment
      ensures old(index) == |paths| ==> !found
      ensures old(index) < |paths| ==> found == (old(after) != [])
      ensures found ==> OnSegment() && KnowsAfter() && old(after) == [cur] + after && old(index) <= index
      ensures found && index == old(index) ==>
                && segment.segments == old(segment.segments)
                && NextSegment(texts[index], old(segment.end)) == Segment(segment.begin, segment.end)
      ensures found && old(Valid()) ==> Valid() && before == old(before) + [old(cur)]
      ensures !found ==> index == |paths|
    {
      hide SegmentsFrom, SegmentsUpTo, AllFrom, AllUpTo, AllSegments, NextSegment, PreviousSegment;
      hide StrLen, Text;
      var ps := paths;
      if index == |ps| {
        return false;
      }
      ghost var ts := texts;
      ghost var i, b, e := index, segment.begin, segment.end;
      found := segment.GetNext();
      NextInText(ts, i, e);
      if found {
        Advance(i, b, e);
        return true;
      }
      found := false;
      while true
        invariant old(index) <= index < |ps| && !found
        invariant after == old(after) == AllFrom(ts, index + 1)
        invariant before == old(before) && cur == old(cur)
        decreases |ps| - index
      {
        index := index + 1;
        if index == |ps| {
          AllEnds(ts);
          return false;
        }
        found := segment.GetFirstWithoutRoot(ps[index], 0);
        FirstInText(ts, index, 0);
        if found {
          Advance(i, b, e);
          return true;
        }
      }
    }

    /** Records the step from the segment at `b..e` of text `i` to the one now under the cursor. */
    ghost method Advance(i: nat, b: nat, e: nat)
      requires OnText() && segment.OnSegment()
      requires i < |texts| && e <= |texts[i]| && after == AfterAt(texts, i, e)
      requires after == [texts[index][segment.begin..segment.end]] + AfterAt(texts, index, segment.end)
      modifies this`before, this`cur, this`after
      ensures OnSegment() && KnowsAfter() && old(after) == [cur] + after
      ensures before == old(before) + [old(cur)]
      ensures (IsSegmentAt(texts[i], b, e) && old(cur) == texts[i][b..e] && old(before) == BeforeAt(texts, i, b))
                ==> Valid()
    {
      hide SegmentsFrom, SegmentsUpTo, AllFrom, AllUpTo, AllSegments;
      if IsSegmentAt(texts[i], b, e) {
        BeforeGrows(texts, i, b, e, index, segment.begin, segment.end);
      }
      before := before + [cur];
      cur := texts[index][segment.begin..segment.end];
      after := AfterAt(texts, index, segment.end);
    }

    /** Looks up what now stands before the cursor. */
    ghost method LookBack()
      requires OnSegment()
      modifies this`before
      ensures KnowsBefore()
    {
      before := BeforeAt(texts, index, segment.begin);
    }

    method GetPrevious() returns (found: bool)
      requires OnSegment() && KnowsBefore()
      modifies this`index, this`before, this`cur, segment
      ensures found == (old(before) != [])
      ensures found ==> OnSegment() && KnowsBefore() && old(before) == before + [cur]
    {
      hide SegmentsFrom, SegmentsUpTo, AllFrom, AllUpTo, AllSegments, NextSegment, PreviousSegment;
      hide StrLen, Text;
      var ps := paths;
      ghost var ts := texts;
      ghost var b := segment.begin;
      found := segment.GetPrevious();
      PreviousInText(ts, index, b);
      if found {
        Retreat();
        return true;
      }
      found := false;
      while true
        invariant index < |ps| && !found
        invariant before == old(before) == AllUpTo(ts, index)
        decreases index
      {
        if index == 0 {
          AllEnds(ts);
          return false;
        }
        index := index - 1;
        if index == 0 {
          found := segment.GetLast(ps[index]);
        } else {
          found := segment.GetLastWithoutRoot(ps[index]);
        }
        LastInText(ts, index);
        if found {
          Retreat();
          return true;
        }
      }
    }

    /** Records the step back to the segment now under the cursor. */
    ghost method Retreat()
      requires OnText() && segment.OnSegment()
      requires before == BeforeAt(texts, index, segment.begin) + [texts[index][segment.begin..segment.end]]
      modifies this`before, this`cur
      ensures OnSegment() && KnowsBefore() && old(before) == before + [cur]
    {
      cur := texts[index][segment.begin..segment.end];
      before := BeforeAt(texts, index, segment.begin);
    }

    lemma ReadsCur()
      requires OnSegment()
      ensures cur != [] && segment.begin + segment.size == segment.end <= segment.path.Length
      ensures segment.path[segment.begin..segment.begin + segment.size] == cur
      ensures |texts| == |paths| && index < |texts| && segment.end <= |texts[index]|
      ensures segment.end == |texts[index]| || SepAt(texts[index], segment.end)
      ensures NUL !in cur
    {
      NoNulInText(paths[index][..]);
    }

    method KindUnderCursor() returns (kind: Kind)
      requires OnSegment()
      ensures kind == KindOf(cur)
    {
      kind := segment.GetType();
      assert segment.path[segment.begin..segment.begin + segment.size] == cur;
    }

    method BackWillBeRemoved() returns (removed: bool)
      requires OnSegment() && KnowsBefore()
      modifies this`index, this`before, this`cur, segment
      ensures removed == BackScan(old(before), 0)
    {
      hide BeforeAt, IsSegmentAt, SegmentsUpTo, AllUpTo;
      var counter := 0;
      ghost var rest := before;
      var found := GetPrevious();
      while found
        invariant found ==> OnSegment() && KnowsBefore() && rest == before + [cur]
        invariant !found ==> rest == []
        invariant BackScan(rest, counter) == BackScan(old(before), 0)
        decreases |rest|
      {
        var kind := KindUnderCursor();
        assert rest[..|rest| - 1] == before;
        if kind == Normal {
          counter := counter + 1;
          if counter > 0 {
            return true;
          }
        } else if kind == Back {
          counter := counter - 1;
        }
        rest := before;
        found := GetPrevious();
      }
      return false;
    }

    method NormalWillBeRemoved() returns (removed: bool)
      requires OnSegment() && KnowsAfter()
      modifies this`index, this`before, this`cur, this`after, segment
      ensures removed == NormalScan(old(after), 0)
    {
      hide AfterAt, BeforeAt, IsSegmentAt, SegmentsFrom, AllFrom;
      var counter := 0;
      ghost var rest := after;
      var found := GetNext();
      while found
        invariant found ==> OnSegment() && KnowsAfter() && rest == [cur] + after
        invariant !found ==> rest == []
        invariant NormalScan(rest, counter) == NormalScan(old(after), 0)
        decreases |rest|
      {
        var kind := KindUnderCursor();
        assert rest[1..] == after;
        if kind == Normal {
          counter := counter + 1;
        } else if kind == Back {
          counter := counter - 1;
          if counter < 0 {
            return true;
          }
        }
        rest := after;
        found := GetNext();
      }
      return false;
    }

    /** There never was a segment: the cursor holds an empty one, beyond all texts. */
    ghost predicate Exhausted()
      reads this, segment
    {
      index == |paths| && segment.size == 0 && segment.begin <= segment.path.Length
    }

    /** Whether the segment under the cursor disappears; the cursor itself does not move. An empty segment
        counts as current. */
    method SegmentWillBeRemoved(absolute: bool) returns (removed: bool)
      requires Exhausted() || (OnSegment() && KnowsAfter() && (absolute || KnowsBefore()))
      ensures removed == (Exhausted() || WillBeRemoved(before, cur, after, absolute))
    {
      hide BackScan, NormalScan, BeforeAt, AfterAt, IsSegmentAt, StrLen, Text;
      if Exhausted() {
        assert segment.path[segment.begin..segment.begin + segment.size] == "";
      } else {
        ReadsCur();
      }
      var kind := segment.GetType();
      if kind == Current || (kind == Back && absolute) {
        return true;
      }
      var copy := new JoinedCursor.Copy(this);
      if kind == Back {
        removed := copy.BackWillBeRemoved();
      } else {
        removed := copy.NormalWillBeRemoved();
      }
    }

    /** The cursor stands somewhere in `all`, which came from `all == before + [cur] + after`. */
    ghost predicate In(all: seq<string>)
      reads this, segment, paths
    {
      if index < |paths| then Valid() && all == before + [cur] + after else Exhausted() && all == []
    }

    /** How many segments lie behind. */
    ghost function Place(): nat
      reads this
    {
      if index < |paths| then |before| else 0
    }

    /** Moves on to the next segment that survives, if there is one. */
    method SkipInvisible(absolute: bool, ghost all: seq<string>) returns (found: bool)
      requires In(all)
      modifies this`index, this`before, this`cur, this`after, segment
      ensures found ==>
                && index < |paths| && In(all)
                && old(Place()) <= Place()
                && !WillBeRemoved(before, cur, after, absolute)
                && VisibleUpTo(all, Place(), absolute) == VisibleUpTo(all, old(Place()), absolute)
      ensures !found ==> VisibleUpTo(all, |all|, absolute) == VisibleUpTo(all, old(Place()), absolute)
      ensures found ==> |after| <= old(|after|)
    {
      hide BeforeAt, AfterAt, WillBeRemoved, VisibleUpTo, IsSegmentAt, Hold;
      var removed := SegmentWillBeRemoved(absolute);
      while removed
        invariant In(all) && old(Place()) <= Place()
        invariant removed == (index == |paths| || WillBeRemoved(before, cur, after, absolute))
        invariant VisibleUpTo(all, Place(), absolute) == VisibleUpTo(all, old(Place()), absolute)
        invariant index < |paths| ==> |after| <= old(|after|)
        invariant index == |paths| ==> old(index) == |paths|
        decreases if index < |paths| then |after| + 1 else 0
      {
        ghost var b, c := before, cur;
        if index < |paths| {
          VisibleStep(all, before, cur, after, absolute);
        }
        found := GetNext();
        if !found {
          return;
        }
        StepJoins(all, b, c, cur, after);
        removed := SegmentWillBeRemoved(absolute);
      }
      return true;
    }

    /** Moves on to the next segment of `all`. */
    method MoveNext(ghost all: seq<string>) returns (found: bool)
      requires index < |paths| && In(all)
      modifies this`index, this`before, this`cur, this`after, segment
      ensures found ==> index < |paths| && In(all) && Place() == old(Place()) + 1 && |after| < old(|after|)
      ensures !found ==> |all| == old(Place()) + 1
    {
      hide BeforeAt, AfterAt, IsSegmentAt, Hold;
      ghost var b, c := before, cur;
      found := GetNext();
      if found {
        StepJoins(all, b, c, cur, after);
      }
    }
  }
}
