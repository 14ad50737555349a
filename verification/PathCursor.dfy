/** The segment cursor of src/cwalk.c: a record that the stepping operations update in place. */
module PathCursor {
  import opened PathSegments
  import opened PathReduction

  /** What a read at index `i` of a C string says about its text. */
  lemma ReadChar(mem: seq<char>, i: nat)
    requires Terminated(mem) && i <= StrLen(mem)
    ensures mem[i] == NUL <==> i == StrLen(mem)
    ensures IsSeparator(mem[i]) <==> SepAt(Text(mem), i)
  {
    StrLenMeans(mem);
  }

  method FindNextStop(path: array<char>, start: nat) returns (c: nat)
    requires Terminated(path[..]) && start <= StrLen(path[..])
    ensures c == NextStop(Text(path[..]), start)
  {
    ghost var t := Text(path[..]);
    c := start;
    ReadChar(path[..], c);
    while path[c] != NUL && !IsSeparator(path[c])
      invariant start <= c <= |t| && NextStop(t, c) == NextStop(t, start)
      invariant path[c] == NUL <==> c == |t|
      invariant IsSeparator(path[c]) <==> SepAt(t, c)
      decreases |t| - c
    {
      c := c + 1;
      ReadChar(path[..], c);
    }
  }

  method FindPreviousStop(path: array<char>, first: nat, start: nat) returns (c: nat)
    requires Terminated(path[..]) && first <= start < StrLen(path[..])
    requires first == 0 || SepAt(Text(path[..]), first - 1)
    requires !SepAt(Text(path[..]), start)
    ensures c == PreviousStop(Text(path[..]), start + 1)
  {
    ghost var t := Text(path[..]);
    c := start;
    ReadChar(path[..], c);
    while c > first && !IsSeparator(path[c])
      invariant first <= c <= start
      invariant IsSeparator(path[c]) <==> SepAt(t, c)
      invariant PreviousStop(t, start + 1) == PreviousStop(t, c + 1)
    {
      c := c - 1;
      ReadChar(path[..], c);
    }
    if IsSeparator(path[c]) {
      c := c + 1;
    }
  }

  class SegmentCursor {
    var path: array<char>
    var segments: nat
    var begin: nat
    var end: nat
    var size: nat

    constructor (path: array<char>)
      ensures this.path == path && segments == begin == end == size == 0
    {
      this.path := path;
      segments, begin, end, size := 0, 0, 0, 0;
    }

    ghost function Txt(): string
      reads this, path
    {
      Text(path[..])
    }

    /** The cursor rests on one whole segment of its text. */
    ghost predicate OnSegment()
      reads this, path
    {
      && Terminated(path[..])
      && IsSegmentAt(Txt(), begin, end)
      && size == end - begin
      && segments <= begin
      && (segments == 0 || (segments == 1 && SepAt(Txt(), 0)))
    }

    /** Enough to step forward: the cursor ends where its text ends or at a separator. */
    ghost predicate CanAdvance()
      reads this, path
    {
      && Terminated(path[..])
      && begin + size == end <= |Txt()|
      && (end == |Txt()| || SepAt(Txt(), end))
      && segments <= begin
      && (segments == 0 || (segments == 1 && SepAt(Txt(), 0)))
    }

    method CopyFrom(other: SegmentCursor)
      modifies this
      ensures path == other.path && segments == other.segments
      ensures begin == other.begin && end == other.end && size == other.size
    {
      path, segments, begin, end, size := other.path, other.segments, other.begin, other.end, other.size;
    }

    method GetFirstWithoutRoot(p: array<char>, first: nat) returns (found: bool)
      requires Terminated(p[..]) && first <= StrLen(p[..])
      modifies this
      ensures path == p && segments == first
      ensures var n := NextSegment(Text(p[..]), first);
              && found == n.Segment?
              && (if found then begin == n.begin && end == n.end && size == end - begin
                  else begin == end == first && size == 0)
    {
      ghost var t := Text(p[..]);
      path, segments, begin, end, size := p, first, first, first, 0;
      var c := first;
      ReadChar(p[..], c);
      if p[c] == NUL {
        return false;
      }
      while IsSeparator(p[c])
        invariant first <= c < |t| && SkipSeps(t, c) == SkipSeps(t, first)
        invariant IsSeparator(p[c]) <==> SepAt(t, c)
        modifies {}
        decreases |t| - c
      {
        c := c + 1;
        ReadChar(p[..], c);
        if p[c] == NUL {
          return false;
        }
      }
      begin := c;
      c := FindNextStop(p, c);
      size := c - begin;
      end := c;
      return true;
    }

    method GetFirst(p: array<char>) returns (found: bool)
      requires Terminated(p[..])
      modifies this
      ensures path == p && segments == if SepAt(Text(p[..]), 0) then 1 else 0
      ensures var n := NextSegment(Text(p[..]), segments);
              && found == n.Segment?
              && (if found then begin == n.begin && end == n.end && size == end - begin
                  else begin == end == segments && size == 0)
    {
      var length := GetRoot(p);
      found := GetFirstWithoutRoot(p, length);
    }

    method GetNext() returns (found: bool)
      requires CanAdvance()
      modifies this
      ensures path == old(path) && segments == old(segments)
      ensures var n := NextSegment(Txt(), old(end));
              && found == n.Segment?
              && (if found then begin == n.begin && end == n.end && size == end - begin
                  else begin == old(begin) && end == old(end) && size == old(size))
    {
      ghost var t := Txt();
      var c := begin + size;
      ReadChar(path[..], c);
      if path[c] == NUL {
        return false;
      }
      assert IsSeparator(path[c]);
      c := c + 1;
      ReadChar(path[..], c);
      while IsSeparator(path[c])
        invariant end < c <= |t| && SkipSeps(t, c) == SkipSeps(t, end)
        invariant IsSeparator(path[c]) <==> SepAt(t, c)
        invariant path[c] == NUL <==> c == |t|
        modifies {}
        decreases |t| - c
      {
        c := c + 1;
        ReadChar(path[..], c);
      }
      if path[c] == NUL {
        return false;
      }
      begin := c;
      c := FindNextStop(path, c);
      end := c;
      size := c - begin;
      return true;
    }

    method GetPrevious() returns (found: bool)
      requires Terminated(path[..]) && segments <= begin <= |Txt()|
      requires segments == 0 || (segments == 1 && SepAt(Txt(), 0))
      modifies this
      ensures path == old(path) && segments == old(segments)
      ensures var n := PreviousSegment(Txt(), old(begin));
              && found == n.Segment?
              && (if found then begin == n.begin && end == n.end && size == end - begin && segments <= begin
                  else begin == old(begin) && end == old(end) && size == old(size))
    {
      ghost var t := Txt();
      var c: int := begin;
      if c <= segments {
        assert segments == 1 ==> SkipSepsBack(t, 1) == SkipSepsBack(t, 0);
        return false;
      }
      c := c - 1;
      ReadChar(path[..], c);
      while IsSeparator(path[c])
        invariant segments <= c < begin
        invariant SkipSepsBack(t, c + 1) == SkipSepsBack(t, begin)
        invariant IsSeparator(path[c]) <==> SepAt(t, c)
        modifies {}
        decreases c
      {
        c := c - 1;
        if c < segments {
          assert segments == 1 ==> SkipSepsBack(t, 1) == SkipSepsBack(t, 0);
          return false;
        }
        ReadChar(path[..], c);
      }
      end := c + 1;
      ghost var e := end;
      begin := FindPreviousStop(path, segments, c);
      size := end - begin;
      PreviousSegmentMeans(t, old(begin));
      return true;
    }

    /** Stepping on from the first segment of `p` at or after `first` until none is left. */
    method GetLastFrom(p: array<char>, first: nat) returns (found: bool)
      requires Terminated(p[..])
      requires first == 0 || (first == 1 && SepAt(Text(p[..]), 0))
      modifies this
      ensures path == p && segments == first
      ensures var n := PreviousSegment(Text(p[..]), |Text(p[..])|);
              && found == n.Segment?
              && (if found then begin == n.begin && end == n.end && size == end - begin && first <= begin
                  else begin == end == first && size == 0)
    {
      hide StrLen, Text, NextSegment, PreviousSegment, SkipSeps, SkipSepsBack, NextStop, PreviousStop, NoSepIn;
      ghost var t := Text(p[..]);
      found := GetFirstWithoutRoot(p, first);
      NextSegmentMeans(t, first);
      if !found {
        NoSegmentAnywhere(t, first);
        return;
      }
      FirstIsWhole(t, first);
      NextIsWhole(t, begin, end);
      var more := GetNext();
      while more
        invariant path == p && segments == first
        invariant OnSegment()
        invariant !more ==> NextSegment(t, end).NoSegment?
        decreases if more then |t| - begin + 1 else 0
      {
        NextIsWhole(t, begin, end);
        more := GetNext();
      }
      LastIsPrevious(t, begin, end);
    }

    method GetLastWithoutRoot(p: array<char>) returns (found: bool)
      requires Terminated(p[..])
      modifies this
      ensures path == p && segments == 0
      ensures var n := PreviousSegment(Text(p[..]), |Text(p[..])|);
              && found == n.Segment?
              && (found ==> begin == n.begin && end == n.end && size == end - begin)
    {
      found := GetLastFrom(p, 0);
    }

    method GetLast(p: array<char>) returns (found: bool)
      requires Terminated(p[..])
      modifies this
      ensures path == p && segments == if SepAt(Text(p[..]), 0) then 1 else 0
      ensures var n := PreviousSegment(Text(p[..]), |Text(p[..])|);
              && found == n.Segment?
              && (found ==> begin == n.begin && end == n.end && size == end - begin && segments <= begin)
    {
      var length := GetRoot(p);
      found := GetLastFrom(p, length);
    }

    /** Compares the characters of the segment, as strncmp does over `size` characters. */
    method GetType() returns (kind: Kind)
      requires begin + size <= path.Length
      ensures kind == KindOf(path[begin..begin + size])
    {
      if size == 0 || (size == 1 && path[begin] == '.') {
        kind := Current;
        assert size == 1 ==> path[begin..begin + size] == ".";
      } else if size == 2 && path[begin] == '.' && path[begin + 1] == '.' {
        kind := Back;
        assert path[begin..begin + size] == "..";
      } else {
        kind := Normal;
        assert path[begin..begin + size] != "." && path[begin..begin + size] != ".." by {
          assert size == 1 ==> path[begin..begin + size][0] != '.';
          assert size == 2 ==> path[begin..begin + size][0] != '.' || path[begin..begin + size][1] != '.';
        }
      }
    }
  }

  method GetRoot(path: array<char>) returns (length: nat)
    requires Terminated(path[..])
    ensures length == if SepAt(Text(path[..]), 0) then 1 else 0
  {
    ReadChar(path[..], 0);
    if IsSeparator(path[0]) {
      length := 1;
    } else {
      length := 0;
    }
  }
}
