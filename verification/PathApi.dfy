/** The operations a caller sees: normalising one path, joining paths, and making a path absolute. */
module PathApi {
  import opened PathSegments
  import opened PathText
  import opened PathReduction
  import opened PathSplits
  import opened PathMatching
  import opened PathOutput
  import opened PathInPlace
  import opened PathInPlaceRelative
  import opened PathJoined
  import opened PathNormalize

  /** Normalises a path into a separate buffer, or in the buffer that holds it. */
  method Normalize(path: array<char>, buffer: array<char>, size: nat) returns (length: nat)
    requires Terminated(path[..]) && size <= buffer.Length
    modifies buffer
    ensures var t := old(Text(path[..]));
            var out := if buffer == path && !IsAbsolute(t) then InPlaceText(t, size) else NormalizedText([t]);
            length == |out| && buffer[..] == Emitted(old(buffer[..]), size, out)
    ensures var t := old(Text(path[..]));
            buffer == path && (forall b: nat, e: nat :: !Collides(t, size, b, e)) ==>
              length == |NormalizedText([t])| && buffer[..] == Emitted(old(buffer[..]), size, NormalizedText([t]))
    ensures var t := old(Text(path[..]));
            var out := (if IsAbsolute(t) then "/" else "") + Joined(Segments(t));
            "." !in Segments(t) && ".." !in Segments(t) ==>
              length == |out| && buffer[..] == Emitted(old(buffer[..]), size, out)
  {
    hide NormalizedText, InPlaceText, Emitted, Collides, SegmentsFrom, Joined;
    ghost var t := Text(path[..]);
    AllSegmentsOne(t);
    if "." !in Segments(t) && ".." !in Segments(t) {
      NamesAreKept([t]);
      NamesDoNotCollide(t, size);
    }
    if IsAbsolute(t) {
      InPlaceAbsolute(t, size);
    } else {
      InPlaceRelative(t, size);
    }
    length := JoinAndNormalize([path], buffer, size, [t]);
  }

  lemma NamesDoNotCollide(t: string, size: nat)
    requires ".." !in Segments(t)
    ensures forall b: nat, e: nat :: !Collides(t, size, b, e)
  {
    hide SegmentsFrom, SegmentsUpTo, BackScan, Reduce;
    forall b: nat, e: nat
      ensures !Collides(t, size, b, e)
    {
      if IsSegmentAt(t, b, e) && t[b..e] == ".." { SegmentSplits(t, b, e); }
    }
  }

  /** Joins any number of paths. */
  method JoinMultiple(paths: seq<array<char>>, buffer: array<char>, size: nat, ghost texts: seq<string>)
    returns (length: nat)
    requires paths != [] && Hold(paths, texts) && buffer !in paths && size <= buffer.Length
    modifies buffer
    ensures length == |NormalizedText(texts)|
    ensures buffer[..] == Emitted(old(buffer[..]), size, NormalizedText(texts))
  {
    length := JoinAndNormalize(paths, buffer, size, texts);
  }

  method Join(a: array<char>, b: array<char>, buffer: array<char>, size: nat) returns (length: nat)
    requires Terminated(a[..]) && Terminated(b[..])
    requires buffer != a && buffer != b && size <= buffer.Length
    modifies buffer
    ensures var out := NormalizedText([old(Text(a[..])), old(Text(b[..]))]);
            length == |out| && buffer[..] == Emitted(old(buffer[..]), size, out)
  {
    length := JoinAndNormalize([a, b], buffer, size, [Text(a[..]), Text(b[..])]);
  }

  /** The path as seen from the base; a relative base is put under a made-up root. */
  method GetAbsolute(base: array<char>, path: array<char>, buffer: array<char>, size: nat) returns (length: nat)
    requires Terminated(base[..]) && Terminated(path[..])
    requires buffer != base && buffer != path && size <= buffer.Length
    modifies buffer
    ensures var out := AbsoluteText(old(Text(base[..])), old(Text(path[..])));
            length == |out| && buffer[..] == Emitted(old(buffer[..]), size, out)
  {
    hide NormalizedText, Emitted;
    ghost var b, p := Text(base[..]), Text(path[..]);
    var paths: seq<array<char>> := [];
    ghost var texts: seq<string> := [];
    var baseAbsolute := StartsWithRoot(base);
    if !baseAbsolute {
      var root := new char[2];
      root[0], root[1] := '/', NUL;
      OneSlash(root[..]);
      paths := [root];
      texts := ["/"];
    }
    var pathAbsolute := StartsWithRoot(path);
    if !pathAbsolute {
      paths := paths + [base];
      texts := texts + [b];
    }
    paths := paths + [path];
    texts := texts + [p];
    assert texts == AbsolutePaths(b, p);
    length := JoinAndNormalize(paths, buffer, size, texts);
  }

  method StartsWithRoot(path: array<char>) returns (absolute: bool)
    requires Terminated(path[..])
    ensures absolute == IsAbsolute(Text(path[..]))
  {
    var length := PathCursor.GetRoot(path);
    absolute := length > 0;
  }

  lemma OneSlash(mem: seq<char>)
    requires mem == ['/', NUL]
    ensures Terminated(mem) && Text(mem) == "/"
  {
    StrLenIs(mem, 1);
  }
}
