/** Joining texts into one normalised path, in a separate buffer or in the buffer that holds the text. */
module PathNormalize {
  import opened PathSegments
  import opened PathReduction
  import opened PathSplits
  import opened PathText
  import opened PathOutput
  import opened PathInPlace
  import opened PathCursor
  import opened PathJoined

  /** The texts stand apart from the buffer, or the only text stands in it. */
  ghost predicate MayWrite(buffer: array<char>, paths: seq<array<char>>) {
    buffer in paths ==> paths == [buffer]
  }

  /** What joining writes: in place, later scans read what earlier steps wrote. */
  ghost function OutputText(texts: seq<string>, inPlace: bool, size: nat): string
    requires texts != []
  {
    if inPlace then InPlaceText(texts[0], size) else NormalizedText(texts)
  }

  /** The cursor, the output so far and the output still to come, for a separate buffer. */
  ghost predicate Apart(c: JoinedCursor, texts: seq<string>, absolute: bool, out: string)
    reads c, c.segment, c.paths
  {
    var all := AllSegments(texts);
    && c.Valid()
    && c.texts == texts
    && all == c.before + [c.cur] + c.after
    && out == Root(absolute) + Joined(VisibleUpTo(all, |c.before|, absolute))
  }

  /** The same for the buffer that holds the text. */
  ghost predicate Within(c: JoinedCursor, t: string, size: nat, out: string, target: string)
    reads c, c.segment, c.paths
  {
    && c.Valid()
    && c.index == 0 && c.paths == [c.segment.path]
    && c.segment.segments == |Root(IsAbsolute(t))|
    && IsSegmentAt(t, c.segment.begin, c.segment.end)
    && c.cur == t[c.segment.begin..c.segment.end]
    && NUL !in out && Root(IsAbsolute(t)) <= out
    && Fits(Root(IsAbsolute(t)), out, c.segment.begin)
    && c.texts == [Written(t, size, out)]
    && InPlaceFrom(t, size, c.segment.begin, c.segment.end, out) == target
  }

  lemma WithinDecides(c: JoinedCursor, t: string, size: nat, out: string, target: string)
    requires Within(c, t, size, out, target)
    ensures WillBeRemoved(c.before, c.cur, c.after, IsAbsolute(t)) ==
            RemovedInPlace(t, size, c.segment.begin, c.segment.end, out)
    ensures c.after == SegmentsFrom(t, c.segment.end)
  {
    hide WillBeRemoved, SegmentsFrom, SegmentsUpTo;
    OneText(Written(t, size, out), c.segment.begin, c.segment.end);
    WrittenSuffix(t, size, out, c.segment.end);
  }

  /** Writes the root; in place it is already there. */
  method WriteRoot(path: array<char>, buffer: array<char>, size: nat, length: nat, ghost t: string)
    requires Terminated(path[..]) && Text(path[..]) == t && size <= buffer.Length
    requires length == |Root(IsAbsolute(t))|
    modifies buffer
    ensures buffer[..] == Written(old(buffer[..]), size, Root(IsAbsolute(t)))
    ensures path == buffer ==> buffer[..] == old(buffer[..])
  {
    hide Text, StrLen, Written;
    ghost var mem := buffer[..];
    RootAsWritten(path[..], t, length);
    WrittenNothing(mem, size);
    ghost var root := path[..length];
    assert "" + root == root;
    var n := Append(buffer, size, 0, path[..length], mem, "");
    RootInPlace(mem, t, size);
  }

  lemma RootAsWritten(mem: seq<char>, t: string, length: nat)
    requires Terminated(mem) && Text(mem) == t && length == |Root(IsAbsolute(t))|
    ensures length <= |mem| && mem[..length] == Root(IsAbsolute(t))
  {
  }

  lemma RootInPlace(mem: seq<char>, t: string, size: nat)
    ensures Terminated(mem) && Text(mem) == t ==> Written(mem, size, Root(IsAbsolute(t))) == mem
  {
  }

  /** Writes the segment under the cursor, after a separator unless it is the first. */
  method WriteSegment(path: array<char>, begin: nat, length: nat, hasOutput: bool, buffer: array<char>, size: nat,
                      start: nat, ghost mem: seq<char>, ghost out: string, ghost s: string)
    returns (pos: nat)
    requires size <= buffer.Length == |mem|
    requires buffer[..] == Written(mem, size, out) && start == |out|
    requires begin + length <= path.Length && path[begin..begin + length] == s
    requires path == buffer ==> |out| + (if hasOutput then 1 else 0) <= begin
    modifies buffer
    ensures var next := if hasOutput then out + "/" + s else out + s;
            pos == |next| && buffer[..] == Written(mem, size, next)
  {
    pos := start;
    ghost var now := out;
    if hasOutput {
      var n := Append(buffer, size, pos, "/", mem, now);
      pos := pos + n;
      now := now + "/";
      if path == buffer {
        assert buffer[..][begin..begin + length] == mem[begin..begin + length];
        assert Written(mem, size, out)[begin..begin + length] == mem[begin..begin + length];
      }
    }
    assert path[begin..begin + length] == s;
    var n := Append(buffer, size, pos, path[begin..begin + length], mem, now);
    pos := pos + n;
  }

  /** In place, the output starts at the first segment and an empty one becomes ".". */
  lemma StartInPlace(t: string, size: nat, b: nat, e: nat)
    requires NextSegment(t, |Root(IsAbsolute(t))|) == Segment(b, e) && IsSegmentAt(t, b, e)
    ensures Fits(Root(IsAbsolute(t)), Root(IsAbsolute(t)), b)
    ensures var out := InPlaceFrom(t, size, b, e, Root(IsAbsolute(t)));
            InPlaceText(t, size) == if out == "" then "." else out
    ensures Written(t, size, Root(IsAbsolute(t))) == t
  {
    hide InPlaceFrom, NextSegment;
    var root := Root(IsAbsolute(t));
    assert t[..|root|] == root;
    PrefixOverItself(t, size, |root|);
  }

  lemma PrefixOverItself(t: string, size: nat, n: nat)
    requires n <= |t|
    ensures Written(t, size, t[..n]) == t
  {
  }

  lemma NothingToJoin(texts: seq<string>, inPlace: bool, size: nat)
    requires texts != [] && AllSegments(texts) == [] && (inPlace ==> |texts| == 1)
    ensures OutputText(texts, inPlace, size) == Root(IsAbsolute(texts[0]))
  {
    EmptyParts();
    var root := Root(IsAbsolute(texts[0]));
    assert root + "" == root;
    if inPlace {
      AllSegmentsOne(texts[0]);
      assert texts == [texts[0]];
      SkipLeading(texts[0], 0, |root|);
    }
  }

  /** The output once all segments are written; an empty one becomes ".". */
  lemma Finished(texts: seq<string>, size: nat, out: string)
    requires texts != [] && AllSegments(texts) != []
    requires out == Root(IsAbsolute(texts[0])) + Joined(Reduce(AllSegments(texts), IsAbsolute(texts[0])))
    ensures NormalizedText(texts) == if out == "" then "." else out
  {
    var all, absolute := AllSegments(texts), IsAbsolute(texts[0]);
    AllSegmentsAreSegmentTexts(texts);
    ReduceIsCanonical(all, absolute);
    var kept := Reduce(all, absolute);
    if kept != [] { JoinedStartsPlain(kept); } else { EmptyParts(); }
  }

  /** The output under way: what is still to come depends on where the buffer stands. */
  ghost predicate UnderWay(c: JoinedCursor, inPlace: bool, texts: seq<string>, size: nat, out: string, target: string)
    requires texts != []
    reads c, c.segment, c.paths
  {
    && c.index < |c.paths|
    && if inPlace then |texts| == 1 && Within(c, texts[0], size, out, target)
       else Apart(c, texts, IsAbsolute(texts[0]), out) && target == FullOutput(texts)
  }

  function FullOutput(texts: seq<string>): string
    requires texts != []
  {
    var absolute := IsAbsolute(texts[0]);
    Root(absolute) + Joined(Reduce(AllSegments(texts), absolute))
  }

  /** The segment under the cursor is handled; the cursor has yet to move on. */
  ghost predicate Handled(c: JoinedCursor, inPlace: bool, texts: seq<string>, size: nat, next: string, target: string)
    requires texts != []
    reads c, c.segment, c.paths
  {
    && c.index < |c.paths|
    && c.KnowsAfter()
    && if inPlace then |texts| == 1 && HandledWithin(c, texts[0], size, next, target)
       else HandledApart(c, texts, IsAbsolute(texts[0]), next) && target == FullOutput(texts)
  }

  ghost predicate HandledApart(c: JoinedCursor, texts: seq<string>, absolute: bool, next: string)
    reads c, c.segment, c.paths
  {
    var all := AllSegments(texts);
    && c.Valid()
    && c.texts == texts
    && all == c.before + [c.cur] + c.after
    && next == Root(absolute) + Joined(VisibleUpTo(all, |c.before| + 1, absolute))
  }

  ghost predicate HandledWithin(c: JoinedCursor, t: string, size: nat, next: string, target: string)
    reads c, c.segment, c.paths
  {
    && c.index == 0 && c.paths == [c.segment.path]
    && c.segment.segments == |Root(IsAbsolute(t))|
    && NUL !in next && Root(IsAbsolute(t)) <= next && |next| <= c.segment.end <= |t|
    && c.texts == [Written(t, size, next)]
    && (SegmentsFrom(t, c.segment.end) == [] <==> NextSegment(t, c.segment.end).NoSegment?)
    && c.after == SegmentsFrom(t, c.segment.end)
    && NextSegment(Written(t, size, next), c.segment.end) == NextSegment(t, c.segment.end)
    && var n := NextSegment(t, c.segment.end);
       if n.NoSegment? then next == target
       else && IsSegmentAt(t, n.begin, n.end)
            && Written(t, size, next)[n.begin..n.end] == t[n.begin..n.end]
            && Fits(Root(IsAbsolute(t)), next, n.begin)
            && InPlaceFrom(t, size, n.begin, n.end, next) == target
  }

  /** Records, for the buffer that holds the text, that the output became `next`. */
  ghost method RecordWithin(c: JoinedCursor, buffer: array<char>, size: nat, mem: seq<char>, t: string,
                            out: string, next: string, target: string)
    requires c.index == 0 && c.paths == [buffer] && c.segment.path == buffer
    requires c.segment.segments == |Root(IsAbsolute(t))| <= c.segment.begin
    requires c.segment.begin + c.segment.size == c.segment.end
    requires IsSegmentAt(t, c.segment.begin, c.segment.end)
    requires NUL !in out && Root(IsAbsolute(t)) <= out && Fits(Root(IsAbsolute(t)), out, c.segment.begin)
    requires c.texts == [Written(t, size, out)] && c.after == AfterAt(c.texts, 0, c.segment.end)
    requires next == if RemovedInPlace(t, size, c.segment.begin, c.segment.end, out) then out
                     else Extend(Root(IsAbsolute(t)), out, t[c.segment.begin..c.segment.end])
    requires InPlaceFrom(t, size, c.segment.begin, c.segment.end, out) == target
    requires Terminated(mem) && Text(mem) == t && |mem| == buffer.Length && buffer[..] == Written(mem, size, next)
    modifies c`texts
    ensures c.index < |c.paths| && c.KnowsAfter() && HandledWithin(c, t, size, next, target)
  {
    hide AfterAt, SegmentsFrom, NextSegment, InPlaceFrom, AllSegments, RemovedInPlace, Hold, Written;
    var b, e := c.segment.begin, c.segment.end;
    InPlaceStep(t, size, b, e, out, next);
    NoNulInText(mem);
    TextOfWritten(mem, size, next);
    OneText(Written(t, size, out), b, e);
    WrittenSuffix(t, size, out, e);
    assert SepAt(t, e) ==> SepAt(Written(t, size, out), e) by { SuffixKeepsSep(Written(t, size, out), t, e); }
    c.Rewritten(Written(t, size, next));
  }

  lemma SuffixKeepsSep(t: string, u: string, i: nat)
    requires i <= |t| == |u| && t[i..] == u[i..]
    ensures SepAt(t, i) <==> SepAt(u, i)
  {
    if i < |t| { assert t[i] == t[i..][0] == u[i..][0] == u[i]; }
  }

  /** Writes the segment under the cursor unless it disappears. */
  method WriteIfVisible(c: JoinedCursor, absolute: bool, buffer: array<char>, size: nat, start: nat, had: bool,
                        ghost mem: seq<char>, ghost out: string)
    returns (pos: nat, has: bool, ghost next: string)
    requires c.Valid()
    requires buffer in c.paths ==> Fits(Root(absolute), out, c.segment.begin)
    requires start == |out| && Root(absolute) <= out && had == (out != Root(absolute))
    requires size <= buffer.Length == |mem| && buffer[..] == Written(mem, size, out)
    modifies buffer
    ensures next == if WillBeRemoved(c.before, c.cur, c.after, absolute) then out
                    else Extend(Root(absolute), out, c.cur)
    ensures pos == |next| && Root(absolute) <= next && has == (next != Root(absolute))
    ensures buffer[..] == Written(mem, size, next)
  {
    hide AfterAt, BeforeAt, WillBeRemoved, IsSegmentAt, Hold, Written;
    var removed := c.SegmentWillBeRemoved(absolute);
    c.ReadsCur();
    var segment := c.segment;
    next := if removed then out else Extend(Root(absolute), out, c.cur);
    pos, has := start, had;
    if !removed {
      pos := WriteSegment(segment.path, segment.begin, segment.size, had, buffer, size, pos, mem, out, c.cur);
      has := true;
    }
  }

  method HandleSegment(c: JoinedCursor, absolute: bool, buffer: array<char>, size: nat, start: nat, had: bool,
                       ghost mem: seq<char>, ghost texts: seq<string>, ghost out: string, ghost target: string)
    returns (pos: nat, has: bool, ghost next: string)
    requires texts != [] && absolute == IsAbsolute(texts[0])
    requires MayWrite(buffer, c.paths)
    requires start == |out| && Root(absolute) <= out && had == (out != Root(absolute))
    requires size <= buffer.Length == |mem| && buffer[..] == Written(mem, size, out)
    requires buffer in c.paths ==> Terminated(mem) && Text(mem) == texts[0]
    requires UnderWay(c, buffer in c.paths, texts, size, out, target)
    modifies c`texts, buffer
    ensures pos == |next| && Root(absolute) <= next && has == (next != Root(absolute))
    ensures buffer[..] == Written(mem, size, next)
    ensures Handled(c, buffer in c.paths, texts, size, next, target)
  {
    hide AfterAt, BeforeAt, SegmentsFrom, NextSegment, InPlaceFrom, VisibleUpTo, WillBeRemoved, Joined, Reduce,
         AllSegments, IsSegmentAt, RemovedInPlace, Hold, Written, Extend;
    ghost var inPlace := buffer in c.paths;
    c.ReadsCur();
    if inPlace {
      WithinDecides(c, texts[0], size, out, target);
    }
    pos, has, next := WriteIfVisible(c, absolute, buffer, size, start, had, mem, out);
    if inPlace {
      RecordWithin(c, buffer, size, mem, texts[0], out, next, target);
    } else {
      AllSegmentsAreSegmentTexts(texts);
      ExtendVisible(AllSegments(texts), c.before, c.cur, c.after, absolute, out, next);
    }
  }

  method MoveOn(c: JoinedCursor, ghost inPlace: bool, size: nat,
                ghost texts: seq<string>, ghost next: string, ghost target: string)
    returns (found: bool)
    requires texts != [] && Handled(c, inPlace, texts, size, next, target)
    modifies c`index, c`before, c`cur, c`after, c.segment
    ensures found ==> UnderWay(c, inPlace, texts, size, next, target) && |c.after| < old(|c.after|)
    ensures !found ==> next == target
  {
    hide AfterAt, BeforeAt, SegmentsFrom, NextSegment, InPlaceFrom, VisibleUpTo, Joined, Reduce,
         AllSegments, IsSegmentAt, Hold, Written;
    ghost var b, s := c.before, c.cur;
    found := c.GetNext();
    if inPlace {
      if found { c.LookBack(); }
    } else if found {
      StepJoins(AllSegments(texts), b, s, c.cur, c.after);
    } else {
      assert |AllSegments(texts)| == |b| + 1;
      VisibleIsReduction(AllSegments(texts), IsAbsolute(texts[0]));
    }
  }

  /** At the first segment the output is the root; what is still to come makes up the whole output. */
  lemma Start(c: JoinedCursor, inPlace: bool, texts: seq<string>, size: nat) returns (target: string)
    requires c.Valid() && texts != [] && c.texts == texts && |texts| == |c.paths|
    requires c.before == [] && AllSegments(texts) == [c.cur] + c.after
    requires inPlace ==> |texts| == 1 && c.index == 0 && NUL !in texts[0]
    requires c.index == 0 ==> c.segment.segments == if SepAt(texts[0], 0) then 1 else 0
    requires c.index == 0 ==> NextSegment(texts[0], c.segment.segments) == Segment(c.segment.begin, c.segment.end)
    ensures UnderWay(c, inPlace, texts, size, Root(IsAbsolute(texts[0])), target)
    ensures OutputText(texts, inPlace, size) == if target == "" then "." else target
  {
    hide AfterAt, BeforeAt, SegmentsFrom, InPlaceFrom, VisibleUpTo, Joined, Reduce, AllSegments, Written,
         NormalizedText;
    var t := texts[0];
    StartVisible(AllSegments(texts), IsAbsolute(t));
    if inPlace {
      target := InPlaceFrom(t, size, c.segment.begin, c.segment.end, Root(IsAbsolute(t)));
      StartInPlace(t, size, c.segment.begin, c.segment.end);
      assert texts == [t];
    } else {
      target := FullOutput(texts);
      Finished(texts, size, target);
    }
  }

  /** Joins the paths, drops what disappears, and writes the result; `texts` are what the paths hold. */
  method JoinAndNormalize(paths: seq<array<char>>, buffer: array<char>, size: nat, ghost texts: seq<string>)
    returns (pos: nat)
    requires paths != [] && Hold(paths, texts) && MayWrite(buffer, paths)
    requires size <= buffer.Length
    modifies buffer
    ensures pos == |OutputText(texts, buffer in paths, size)|
    ensures buffer[..] == Emitted(old(buffer[..]), size, OutputText(texts, buffer in paths, size))
  {
    hide AfterAt, BeforeAt, SegmentsFrom, NextSegment, AllSegments, IsSegmentAt, OutputText, Emitted, Written,
         UnderWay, Handled, StrLen, Text;
    ghost var mem := buffer[..];
    ghost var inPlace := buffer in paths;
    ghost var t := texts[0];

    var rootLength := GetRoot(paths[0]);
    var absolute := rootLength == 1;
    pos := rootLength;
    WriteRoot(paths[0], buffer, size, rootLength, t);
    ghost var out := Root(absolute);

    var cursor := new JoinedCursor(paths, texts);
    var found := cursor.GetFirst();
    if !found {
      NothingToJoin(texts, inPlace, size);
      assert out + "" == out;
      TerminateOutput(buffer, size, pos, mem, out, "");
      return;
    }
    var hasOutput := false;
    NoNulInText(paths[0][..]);
    ghost var target := Start(cursor, inPlace, texts, size);
    while found
      invariant cursor.paths == paths
      invariant pos == |out| && Root(absolute) <= out && hasOutput == (out != Root(absolute))
      invariant buffer[..] == Written(mem, size, out)
      invariant found ==> UnderWay(cursor, inPlace, texts, size, out, target)
      invariant !found ==> out == target
      decreases if found then |cursor.after| + 1 else 0
    {
      pos, hasOutput, out := HandleSegment(cursor, absolute, buffer, size, pos, hasOutput, mem, texts, out, target);
      found := MoveOn(cursor, inPlace, size, texts, out, target);
    }
    pos := FinishJoined(buffer, size, pos, hasOutput, mem, out, absolute);
  }

  /** An output that stayed empty becomes "."; then the final NUL is placed. */
  method FinishJoined(buffer: array<char>, size: nat, start: nat, hasOutput: bool,
                      ghost mem: seq<char>, ghost out: string, ghost absolute: bool) returns (pos: nat)
    requires size <= buffer.Length == |mem| && buffer[..] == Written(mem, size, out)
    requires start == |out| && Root(absolute) <= out && hasOutput == (out != Root(absolute))
    modifies buffer
    ensures var full := if out == "" then "." else out;
            pos == |full| && buffer[..] == Emitted(mem, size, full)
  {
    hide Written, Emitted;
    pos := start;
    ghost var full := out;
    if !hasOutput && pos == 0 {
      var n := Append(buffer, size, pos, ".", mem, out);
      pos := pos + n;
      assert out == "" && "" + "." == ".";
      full := out + ".";
    }
    assert full + "" == full;
    TerminateOutput(buffer, size, pos, mem, full, "");
  }
}
