/** Replacing one segment of a path, possibly in the buffer that holds it. */
module PathChange {
  import opened PathSegments
  import opened PathOutput
  import opened PathCursor

  /** A value without the separators around it. */
  function Trimmed(v: string): string {
    var i, j := SkipSeps(v, 0), SkipSepsBack(v, |v|);
    if i < j then v[i..j] else ""
  }

  function ChangedText(t: string, b: nat, e: nat, v: string): string
    requires b <= e <= |t|
  {
    t[..b] + Trimmed(v) + t[e..]
  }

  /** The segments of the changed path: only the one segment gives way, to the segments of the value. */
  lemma ChangedSegments(t: string, b: nat, e: nat, v: string)
    requires IsSegmentAt(t, b, e)
    ensures Segments(t) == SegmentsUpTo(t, b) + [t[b..e]] + SegmentsFrom(t, e)
    ensures Segments(ChangedText(t, b, e, v)) == SegmentsUpTo(t, b) + Segments(v) + SegmentsFrom(t, e)
    ensures IsSegmentText(Trimmed(v)) ==> Segments(v) == [Trimmed(v)]
  {
    hide SegmentsFrom, SegmentsUpTo, NextSegment;
    SegmentSplits(t, b, e);
    var w, head, tail := Trimmed(v), t[..b], t[e..];
    TrimKeepsSegments(v);
    assert IsCut(head + (w + tail), b) by {
      if b > 0 { assert (head + (w + tail))[b - 1] == t[b - 1]; }
    }
    SegmentsOfJoin(head, w + tail);
    assert IsCut(w + tail, |w|) by {
      if e < |t| { assert (w + tail)[|w|] == t[e]; }
    }
    SegmentsOfJoin(w, tail);
    SegmentsOfPrefix(t, b);
    SegmentsShift(t, e, 0);
    assert head + w + tail == head + (w + tail);
    assert SegmentsUpTo(t, b) + (Segments(v) + SegmentsFrom(t, e)) ==
           SegmentsUpTo(t, b) + Segments(v) + SegmentsFrom(t, e);
    if IsSegmentText(w) { SegmentsOfSegmentText(w); }
  }

  lemma TrimKeepsSegments(v: string)
    ensures Segments(Trimmed(v)) == Segments(v)
  {
    hide SegmentsFrom;
    var i, j := SkipSeps(v, 0), SkipSepsBack(v, |v|);
    ScanMeans(v, 0);
    ScanBackMeans(v, |v|);
    SkipLeading(v, 0, i);
    if i < j {
      SegmentsShift(v, i, 0);
      var u := v[i..];
      assert u == v[i..j] + v[j..];
      assert IsCut(u, j - i) by { if j < |v| { assert SepAt(v, j); assert u[j - i] == v[j]; } }
      SegmentsOfJoin(v[i..j], v[j..]);
      SegmentsShift(v, j, 0);
      SkipLeading(v, j, |v|);
      NoSegmentsAtEnd(v);
    } else {
      assert i == |v|;
      NoSegmentsAtEnd(v);
      NoSegmentsAtEnd("");
    }
  }

  lemma NoSegmentsAtEnd(v: string)
    ensures SegmentsFrom(v, |v|) == []
  {
  }

  /** A trimmed value is the value without separators at its ends: what is cut off is separators, and what is left
      neither starts nor ends with one. */
  lemma TrimmedHasNoEnds(v: string) returns (x: string, y: string)
    ensures v == x + Trimmed(v) + y
    ensures (forall c :: c in x ==> c == '/') && (forall c :: c in y ==> c == '/')
    ensures Trimmed(v) != "" ==> Trimmed(v)[0] != '/' && Trimmed(v)[|Trimmed(v)| - 1] != '/'
  {
    hide *;
    var i, j := SkipSeps(v, 0), SkipSepsBack(v, |v|);
    ScanMeans(v, 0);
    ScanBackMeans(v, |v|);
    TrimmedIs(v, i, if i < j then j - i else 0);
    if i < j {
      x, y := v[..i], v[j..];
      OnlySlashes(v, 0, i);
      OnlySlashes(v, j, |v|);
      CutInThree(v, i, j);
      EndsAreNames(v, i, j);
    } else {
      x, y := v, "";
      AllSeparators(v, i, j);
      OnlySlashes(v, 0, |v|);
      assert v[0..|v|] == v && v + "" + "" == v;
    }
  }

  lemma CutInThree(v: string, i: nat, j: nat)
    requires i <= j <= |v|
    ensures v == v[..i] + v[i..j] + v[j..] && v[0..i] == v[..i] && v[j..|v|] == v[j..]
  {
  }

  lemma EndsAreNames(v: string, i: nat, j: nat)
    requires i < j <= |v| && !SepAt(v, i) && !SepAt(v, j - 1)
    ensures v[i..j][0] != '/' && v[i..j][j - i - 1] != '/'
  {
  }

  lemma AllSeparators(v: string, i: nat, j: nat)
    requires j <= i <= |v| && AllSepIn(v, 0, i) && AllSepIn(v, j, |v|)
    ensures AllSepIn(v, 0, |v|)
  {
  }

  lemma OnlySlashes(v: string, i: nat, j: nat)
    requires i <= j <= |v| && AllSepIn(v, i, j)
    ensures forall c :: c in v[i..j] ==> c == '/'
  {
    forall c | c in v[i..j]
      ensures c == '/'
    {
      var k :| 0 <= k < j - i && v[i..j][k] == c;
      assert SepAt(v, i + k);
    }
  }

  lemma SameCut(v: string, a: nat, b: nat, i: nat, j: nat)
    requires a <= b <= |v| && i <= |v| && j <= |v|
    requires AllSepIn(v, 0, a) && AllSepIn(v, b, |v|) && (a < b ==> !SepAt(v, a) && !SepAt(v, b - 1))
    requires AllSepIn(v, 0, i) && AllSepIn(v, j, |v|) && !SepAt(v, i) && !SepAt(v, j - 1)
    ensures if a < b then i == a && j == b else i >= j
  {
  }

  lemma SlashesAround(x: string, w: string, y: string)
    requires (forall c :: c in x ==> c == '/') && (forall c :: c in y ==> c == '/')
    ensures var v := x + w + y;
            && AllSepIn(v, 0, |x|) && AllSepIn(v, |x| + |w|, |v|) && v[|x|..|x| + |w|] == w
            && (w != "" ==> v[|x|] == w[0] && v[|x| + |w| - 1] == w[|w| - 1])
  {
    var v := x + w + y;
    forall k | 0 <= k < |x|
      ensures SepAt(v, k)
    {
      assert v[k] == x[k] && x[k] in x;
    }
    forall k | |x| + |w| <= k < |v|
      ensures SepAt(v, k)
    {
      assert v[k] == y[k - |x| - |w|] && y[k - |x| - |w|] in y;
    }
  }

  /** Such a cut is unique. */
  lemma TrimIsUnique(x: string, w: string, y: string)
    requires (forall c :: c in x ==> c == '/') && (forall c :: c in y ==> c == '/')
    requires w == "" || (w[0] != '/' && w[|w| - 1] != '/')
    ensures Trimmed(x + w + y) == w
  {
    hide SkipSeps, SkipSepsBack, AllSepIn;
    var v := x + w + y;
    ScanMeans(v, 0);
    ScanBackMeans(v, |v|);
    SlashesAround(x, w, y);
    SameCut(v, |x|, |x| + |w|, SkipSeps(v, 0), SkipSepsBack(v, |v|));
  }

  /** Separators around a value do not change the written text. */
  lemma SlashesDoNotMatter(t: string, b: nat, e: nat, x: string, v: string, y: string)
    requires b <= e <= |t| && (forall c :: c in x ==> c == '/') && (forall c :: c in y ==> c == '/')
    ensures ChangedText(t, b, e, x + v + y) == ChangedText(t, b, e, v)
  {
    hide Trimmed;
    var p, q := TrimmedHasNoEnds(v);
    assert x + v + y == (x + p) + Trimmed(v) + (q + y);
    TrimIsUnique(x + p, Trimmed(v), q + y);
  }

  /** Skips the separators in front of the value. */
  method SkipInFront(value: array<char>, ghost v: string) returns (first: nat)
    requires Terminated(value[..]) && Text(value[..]) == v
    ensures first == SkipSeps(v, 0)
  {
    hide StrLen, Text;
    first := 0;
    ReadChar(value[..], first);
    while IsSeparator(value[first])
      invariant first <= |v| && SkipSeps(v, first) == SkipSeps(v, 0)
      invariant IsSeparator(value[first]) <==> SepAt(v, first)
      decreases |v| - first
    {
      first := first + 1;
      ReadChar(value[..], first);
    }
  }

  /** Counts the characters from one on. */
  method CountFrom(value: array<char>, first: nat, ghost v: string) returns (size: nat)
    requires Terminated(value[..]) && Text(value[..]) == v && first <= |v|
    ensures first + size == |v|
  {
    hide StrLen, Text;
    size := 0;
    ReadChar(value[..], first);
    while value[first + size] != NUL
      invariant first + size <= |v|
      invariant value[first + size] == NUL <==> first + size == |v|
      decreases |v| - size
    {
      size := size + 1;
      ReadChar(value[..], first + size);
    }
  }

  /** Takes the separators behind the value off its size. */
  method DropBehind(value: array<char>, first: nat, whole: nat, ghost v: string) returns (size: nat)
    requires Terminated(value[..]) && Text(value[..]) == v && first + whole == |v|
    ensures size <= whole
    ensures if first < SkipSepsBack(v, |v|) then first + size == SkipSepsBack(v, |v|) else size == 0
  {
    hide StrLen, Text;
    size := whole;
    while size > 0
      invariant size <= whole && SkipSepsBack(v, first + size) == SkipSepsBack(v, |v|)
    {
      ReadChar(value[..], first + size - 1);
      if !IsSeparator(value[first + size - 1]) { break; }
      size := size - 1;
    }
  }

  /** Where the value starts and how long it is, without the separators around it. */
  method TrimValue(value: array<char>, ghost v: string) returns (first: nat, size: nat)
    requires Terminated(value[..]) && Text(value[..]) == v
    ensures first + size <= |v| <= value.Length && value[first..first + size] == Trimmed(v)
  {
    hide StrLen, Text, SkipSeps, SkipSepsBack, Trimmed;
    first := SkipInFront(value, v);
    var whole := CountFrom(value, first, v);
    size := DropBehind(value, first, whole, v);
    PrefixOfText(value[..], v, |v|);
    assert v == value[..][..|v|];
    SliceInside(value[..], |v|, first, first + size);
    assert value[..][first..first + size] == value[first..first + size];
    TrimmedIs(v, first, size);
  }

  lemma TrimmedIs(v: string, first: nat, size: nat)
    requires first == SkipSeps(v, 0) && first + size <= |v|
    requires if first < SkipSepsBack(v, |v|) then first + size == SkipSepsBack(v, |v|) else size == 0
    ensures v[first..first + size] == Trimmed(v)
  {
    hide SkipSeps, SkipSepsBack;
  }

  lemma SliceInside(mem: seq<char>, n: nat, i: nat, j: nat)
    requires i <= j <= n <= |mem|
    ensures mem[..n][i..j] == mem[i..j]
  {
  }

  /** Head, tail and value written in this order make up the whole text. */
  lemma WrittenInThree(mem: seq<char>, size: nat, head: string, w: string, tail: string)
    requires size <= |mem|
    ensures var m1 := Overlay(mem, size, 0, head);
            && |m1| == |mem|
            && var m2 := Overlay(m1, size, |head| + |w|, tail);
               |m2| == |mem| && Overlay(m2, size, |head|, w) == Written(mem, size, head + w + tail)
  {
    hide Overlay;
    OverlayAt(mem, size, 0, head);
    var m1 := Overlay(mem, size, 0, head);
    OverlayAt(m1, size, |head| + |w|, tail);
    var m2 := Overlay(m1, size, |head| + |w|, tail);
    OverlayAt(m2, size, |head|, w);
    WrittenAt(mem, size, head + w + tail);
    assert Overlay(m2, size, |head|, w) == Written(mem, size, head + w + tail);
  }

  lemma OverlayAt(mem: seq<char>, size: nat, position: nat, str: string)
    requires size <= |mem|
    ensures var r := Overlay(mem, size, position, str);
            && |r| == |mem|
            && forall i :: 0 <= i < |r| ==>
                 r[i] == if position <= i < position + |str| && i < size then str[i - position] else mem[i]
  {
  }

  lemma WrittenAt(mem: seq<char>, size: nat, out: string)
    requires size <= |mem|
    ensures forall i :: 0 <= i < |mem| ==>
              Written(mem, size, out)[i] == if i < size && i < |out| then out[i] else mem[i]
  {
  }

  lemma OverlaySelf(mem: seq<char>, size: nat, n: nat)
    requires size <= |mem| && n <= |mem|
    ensures Overlay(mem, size, 0, mem[..n]) == mem
  {
  }

  /** Writes the path with the segment under the cursor replaced: head, then tail, then value, so that a
      buffer holding the path keeps what is still to be read. */
  method ChangeSegment(segment: SegmentCursor, value: array<char>, buffer: array<char>, size: nat,
                       ghost t: string, ghost v: string)
    returns (pos: nat)
    requires segment.OnSegment() && segment.Txt() == t
    requires Terminated(value[..]) && Text(value[..]) == v && buffer != value
    requires size <= buffer.Length
    modifies buffer
    ensures var out := ChangedText(t, segment.begin, segment.end, v);
            pos == |out| && buffer[..] == Emitted(old(buffer[..]), size, out)
  {
    hide Written, Emitted, Overlay, StrLen, Text;
    ghost var mem := buffer[..];
    var path := segment.path;
    var b, e := segment.begin, segment.end;
    PrefixOfText(path[..], t, b);
    OverlaySelf(path[..], Min(size, path.Length), b);
    WrittenInThree(mem, size, t[..b], Trimmed(v), t[e..]);
    var head := OutputSized(buffer, size, 0, path[..b]);
    var first, valueSize := TrimValue(value, v);
    var length := StringLength(path, e, t);
    pos := head;
    var tail := OutputSized(buffer, size, pos + valueSize, path[e..e + length]);
    var n := OutputSized(buffer, size, pos, value[first..first + valueSize]);
    pos := pos + n + length;
    ghost var out := ChangedText(t, b, e, v);
    assert out + "" == out;
    TerminateOutput(buffer, size, pos, mem, out, "");
  }

  lemma PrefixOfText(mem: seq<char>, t: string, b: nat)
    requires Terminated(mem) && Text(mem) == t && b <= |t|
    ensures |t| <= |mem| && mem[..b] == t[..b]
  {
  }

  method StringLength(path: array<char>, start: nat, ghost t: string) returns (n: nat)
    requires Terminated(path[..]) && Text(path[..]) == t && start <= |t|
    ensures start + n == |t| && path[start..start + n] == t[start..]
  {
    n := 0;
    ReadChar(path[..], start);
    while path[start + n] != NUL
      invariant start + n <= |t|
      invariant path[start + n] == NUL <==> start + n == |t|
      decreases |t| - n
    {
      n := n + 1;
      ReadChar(path[..], start + n);
    }
  }
}
