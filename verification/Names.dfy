/** Turning names in hungarian notation into capitals with underbars. */
module Names {
  import opened PathSegments

  /** The bit that tells lower-case letters from capitals, and digits from neither. */
  predicate Bit5(c: char) {
    (c as int / 32) % 2 == 1
  }

  predicate IsLower(c: char) {
    'a' <= c <= 'z'
  }

  predicate IsLetter(c: char) {
    IsLower(c) || 'A' <= c <= 'Z'
  }

  function Upper(c: char): char {
    if IsLower(c) then (c as int - 32) as char else c
  }

  /** What one character becomes, and whether it counts as a capital for the next: a capital that starts a word
      gets an underbar in front, unless the character before was one too. */
  function Piece(c: char, first: bool, consecutive: bool): (string, bool) {
    if c == '\\' then ("_", consecutive)
    else if !Bit5(c) && c != '_' && !first then ((if consecutive then "" else "_") + [Upper(c)], true)
    else ([Upper(c)], !Bit5(c))
  }

  /** What becomes of the name from character `i` on. */
  function CapsFrom(s: string, i: nat, consecutive: bool): string
    requires i <= |s|
    decreases |s| - i
  {
    if i == |s| then ""
    else
      var (x, next) := Piece(s[i], i == 0, consecutive);
      x + CapsFrom(s, i + 1, next)
  }

  function Caps(s: string): string {
    CapsFrom(s, 0, false)
  }

  // ----- the two versions -----

  /** The size the first pass computes: the characters, one more for each that may need an underbar, and the NUL. */
  function Room(s: string, i: nat): nat
    requires i <= |s|
    decreases |s| - i
  {
    if i == |s| then 1 else (if Bit5(s[i]) then 1 else 2) + Room(s, i + 1)
  }

  /** The text never needs more than the first pass allowed for. */
  lemma {:induction false} CapsFits(s: string, i: nat, consecutive: bool)
    requires i <= |s|
    ensures |CapsFrom(s, i, consecutive)| < Room(s, i)
    decreases |s| - i
  {
    if i < |s| {
      CapsFits(s, i + 1, Piece(s[i], i == 0, consecutive).1);
    }
  }

  lemma {:induction false} CapsHasNoNul(s: string, i: nat, consecutive: bool)
    requires i <= |s| && NUL !in s
    ensures NUL !in CapsFrom(s, i, consecutive)
    decreases |s| - i
  {
    if i < |s| {
      assert s[i] in s;
      CapsHasNoNul(s, i + 1, Piece(s[i], i == 0, consecutive).1);
    }
  }

  /** The first pass. */
  method RoomFor(str: array<char>, ghost s: string) returns (room: nat)
    requires Terminated(str[..]) && s == Text(str[..])
    ensures room == Room(s, 0)
  {
    StrLenMeans(str[..]);
    var i := 0;
    while str[i] != NUL
      invariant i <= |s|
      decreases |s| - i
    {
      i := i + 1;
    }
    room := i + 1;
    i := 0;
    ghost var extra := 0;
    while str[i] != NUL
      invariant i <= |s| && room == |s| + 1 + extra && extra + Room(s, i) == Room(s, 0) - i
      decreases |s| - i
    {
      if !Bit5(str[i]) {
        room := room + 1;
        extra := extra + 1;
      }
      i := i + 1;
    }
  }

  /** Writes what one character becomes. */
  method PutPiece(c: char, first: bool, was: bool, buf: array<char>, start: nat) returns (p: nat, consecutive: bool)
    requires start + |Piece(c, first, was).0| <= buf.Length
    modifies buf
    ensures p == start + |Piece(c, first, was).0| && consecutive == Piece(c, first, was).1
    ensures buf[..p] == old(buf[..start]) + Piece(c, first, was).0
  {
    p, consecutive := start, was;
    if c == '\\' {
      buf[p] := '_';
      p := p + 1;
      return;
    }
    if !Bit5(c) && c != '_' && !first {
      if !consecutive {
        buf[p] := '_';
        p := p + 1;
        consecutive := true;
      }
    } else {
      consecutive := !Bit5(c);
    }
    buf[p] := if IsLetter(c) then Upper(c) else c;
    p := p + 1;
  }

  /** The version that allocates: it writes no further than its first pass allowed. */
  method HungarianToUnderbarCaps(str: array<char>) returns (buf: array<char>)
    requires Terminated(str[..])
    ensures fresh(buf) && Terminated(buf[..]) && Text(buf[..]) == Caps(Text(str[..]))
  {
    hide CapsFrom, Room, Upper, Piece;
    ghost var s := Text(str[..]);
    StrLenMeans(str[..]);
    NoNulInText(str[..]);
    var room := RoomFor(str, s);
    CapsFits(s, 0, false);
    buf := new char[room];
    var consecutive := false;
    var i: nat, p: nat := 0, 0;
    while str[i] != NUL
      invariant i <= |s| && p <= buf.Length && fresh(buf)
      invariant buf[..p] + CapsFrom(s, i, consecutive) == Caps(s)
      decreases |s| - i
    {
      CapsStep(s, i, consecutive);
      p, consecutive := PutPiece(str[i], i == 0, consecutive, buf, p);
      i := i + 1;
    }
    CapsEnd(s, consecutive);
    buf[p] := NUL;
    Finish(buf[..], Caps(s), s);
  }

  lemma CapsStep(s: string, i: nat, consecutive: bool)
    requires i < |s|
    ensures var (x, next) := Piece(s[i], i == 0, consecutive);
            CapsFrom(s, i, consecutive) == x + CapsFrom(s, i + 1, next) && x != ""
  {
  }

  lemma CapsEnd(s: string, consecutive: bool)
    ensures CapsFrom(s, |s|, consecutive) == ""
  {
  }

  lemma Finish(mem: seq<char>, t: string, s: string)
    requires |t| < |mem| && mem[..|t|] == t && mem[|t|] == NUL
    requires NUL !in s && t == Caps(s)
    ensures Terminated(mem) && Text(mem) == t
  {
    CapsHasNoNul(s, 0, false);
    assert forall i :: 0 <= i < |t| ==> mem[i] == t[i] && t[i] in t;
    StrLenIs(mem, |t|);
  }

  /** Streams what one character becomes. */
  method StreamPiece(c: char, first: bool, was: bool) returns (out: string, consecutive: bool)
    ensures (out, consecutive) == Piece(c, first, was)
  {
    out, consecutive := "", was;
    if c == '\\' {
      out := out + ['_'];
      assert out == "_";
      return;
    }
    if !Bit5(c) && c != '_' && !first {
      if !consecutive {
        out := out + ['_'];
        consecutive := true;
      }
    } else {
      consecutive := !Bit5(c);
    }
    assert out == if !Bit5(c) && c != '_' && !first && !was then "_" else "";
    out := out + [if IsLetter(c) then Upper(c) else c];
    assert "" + [Upper(c)] == [Upper(c)];
  }

  /** The version that streams: it writes the same text. */
  method StreamHungarianToUnderbarCaps(str: array<char>) returns (out: string)
    requires Terminated(str[..])
    ensures out == Caps(Text(str[..]))
  {
    hide CapsFrom, Upper, Piece;
    ghost var s := Text(str[..]);
    StrLenMeans(str[..]);
    var consecutive := false;
    var i := 0;
    out := "";
    while str[i] != NUL
      invariant i <= |s|
      invariant out + CapsFrom(s, i, consecutive) == Caps(s)
      decreases |s| - i
    {
      CapsStep(s, i, consecutive);
      var more, next := StreamPiece(str[i], i == 0, consecutive);
      out, consecutive := out + more, next;
      i := i + 1;
    }
    CapsEnd(s, consecutive);
  }

  // ----- converting twice -----

  /** A digit or another character with the bit that is not a letter. */
  predicate IsMark(c: char) {
    Bit5(c) && !IsLetter(c)
  }

  /** No lower-case letter directly behind a digit or the like. */
  predicate Smooth(s: string, i: nat)
    requires i <= |s|
  {
    forall j :: i <= j < |s| && j > 0 ==> !(IsMark(s[j - 1]) && IsLower(s[j]))
  }

  /** Neither lower-case letters nor escapes. */
  predicate Plain(t: string) {
    forall i :: 0 <= i < |t| ==> !IsLower(t[i]) && t[i] != '\\'
  }

  /** Behind a character with the bit, one with the bit or an underbar. */
  predicate Seamless(behind: bool, t: string)
    decreases t
  {
    t == "" || ((behind ==> Bit5(t[0]) || t[0] == '_') && Seamless(Bit5(t[0]), t[1..]))
  }

  lemma UpperIs(c: char)
    ensures !IsLower(Upper(c)) && (c != '\\' ==> Upper(c) != '\\')
    ensures Bit5(Upper(c)) == IsMark(c)
    ensures !IsLower(c) ==> Upper(c) == c
  {
  }

  lemma {:induction false} CapsIsPlain(s: string, i: nat, consecutive: bool)
    requires i <= |s|
    ensures Plain(CapsFrom(s, i, consecutive))
    decreases |s| - i
  {
    if i < |s| {
      UpperIs(s[i]);
      CapsIsPlain(s, i + 1, Piece(s[i], i == 0, consecutive).1);
    }
  }

  /** A plain text is left alone exactly when it is seamless. */
  lemma {:induction false} PlainStays(t: string, i: nat, consecutive: bool)
    requires Plain(t) && i <= |t| && (i > 0 ==> consecutive == !Bit5(t[i - 1]))
    ensures |CapsFrom(t, i, consecutive)| >= |t| - i
    ensures CapsFrom(t, i, consecutive) == t[i..] <==> Seamless(i > 0 && Bit5(t[i - 1]), t[i..])
    decreases |t| - i
  {
    if i < |t| {
      var (x, next) := Piece(t[i], i == 0, consecutive);
      UpperIs(t[i]);
      PlainPiece(t[i], i == 0, consecutive);
      CapsStep(t, i, consecutive);
      PlainStays(t, i + 1, next);
      assert t[i..] == [t[i]] + t[i + 1..];
      var rest := CapsFrom(t, i + 1, next);
      if |x| == 1 {
        assert ([t[i]] + rest)[1..] == rest && ([t[i]] + t[i + 1..])[1..] == t[i + 1..];
      }
    }
  }

  lemma PlainPiece(c: char, first: bool, consecutive: bool)
    requires !IsLower(c) && c != '\\'
    ensures var (x, next) := Piece(c, first, consecutive);
            && next == !Bit5(c)
            && (if !Bit5(c) && c != '_' && !first && !consecutive then |x| == 2 else x == [c])
  {
    UpperIs(c);
  }

  /** What one character becomes, seen from the character before it. */
  lemma PieceSeams(c: char, first: bool, consecutive: bool, behind: bool, rest: string)
    requires behind ==> !consecutive && !first
    ensures var (x, next) := Piece(c, first, consecutive);
            && (Seamless(behind, x + rest) <==> !(behind && IsLower(c)) && Seamless(IsMark(c), rest))
            && (IsMark(c) ==> !next)
  {
    UpperIs(c);
    var (x, next) := Piece(c, first, consecutive);
    if |x| == 2 {
      assert (x + rest)[1..] == [x[1]] + rest && ([x[1]] + rest)[1..] == rest;
    } else {
      assert (x + rest)[1..] == rest;
    }
  }

  /** Conversion leaves a seam exactly behind a digit or the like with a lower-case letter. */
  lemma {:induction false} SeamsOfCaps(s: string, i: nat, consecutive: bool)
    requires i <= |s| && (i > 0 && IsMark(s[i - 1]) ==> !consecutive)
    ensures Seamless(i > 0 && IsMark(s[i - 1]), CapsFrom(s, i, consecutive)) <==> Smooth(s, i)
    decreases |s| - i
  {
    if i < |s| {
      hide CapsFrom, Piece, Seamless, IsMark, IsLower;
      var behind := i > 0 && IsMark(s[i - 1]);
      var (x, next) := Piece(s[i], i == 0, consecutive);
      CapsStep(s, i, consecutive);
      PieceSeams(s[i], i == 0, consecutive, behind, CapsFrom(s, i + 1, next));
      SeamsOfCaps(s, i + 1, next);
    } else {
      assert CapsFrom(s, i, consecutive) == "";
    }
  }

  /** Converting twice is converting once, exactly when no lower-case letter directly follows a digit or the like. */
  lemma CapsTwice(s: string)
    ensures Caps(Caps(s)) == Caps(s) <==> Smooth(s, 0)
  {
    hide CapsFrom, Seamless;
    var t := Caps(s);
    CapsIsPlain(s, 0, false);
    PlainStays(t, 0, false);
    SeamsOfCaps(s, 0, false);
    assert t[0..] == t;
  }

  /** A name for which a second conversion does more: "1a" becomes "1A", and then "1_A". */
  lemma CapsTwiceMore()
    ensures Caps("1a") == "1A" && Caps(Caps("1a")) == "1_A"
  {
    assert CapsFrom("1a", 2, false) == "" && CapsFrom("1A", 2, true) == "";
    assert CapsFrom("1a", 1, false) == "A" && CapsFrom("1A", 1, false) == "_A";
  }

  // ----- the text, character by character -----

  const CAPITALS := "ABCDEFGHIJKLMNOPQRSTUVWXYZ"

  /** A letter's own capital; any other character itself. */
  function Capital(c: char): char {
    if 'a' <= c <= 'z' then CAPITALS[c as int - 'a' as int] else c
  }

  /** The last character that is no escape lacks the 0x20 bit: it is a capital, an underbar or the like. */
  predicate AfterCapital(s: string) {
    s != "" && var c := s[|s| - 1]; if c == '\\' then AfterCapital(s[..|s| - 1]) else c as int % 64 < 32
  }

  lemma UpperIsCapital(c: char)
    ensures Upper(c) == Capital(c) && (Bit5(c) <==> c as int % 64 >= 32)
  {
    if IsLower(c) {
      var i := c as int - 'a' as int;
      assert CAPITALS[i] as int == 'A' as int + i;
    }
  }

  lemma PieceBehind(s: string, i: nat)
    requires i < |s|
    ensures Piece(s[i], i == 0, AfterCapital(s[..i])).1 == AfterCapital(s[..i + 1])
  {
    assert s[..i + 1][..i] == s[..i];
    UpperIsCapital(s[i]);
    assert i == 0 ==> !AfterCapital(s[..0]);
  }

  lemma {:induction false} LastPiece(s: string, c: char, i: nat)
    requires i <= |s|
    ensures CapsFrom(s + [c], i, AfterCapital(s[..i])) ==
            CapsFrom(s, i, AfterCapital(s[..i])) + Piece(c, s == "", AfterCapital(s)).0
    decreases |s| - i
  {
    hide CapsFrom, Piece, AfterCapital;
    var t := s + [c];
    if i == |s| {
      assert s[..i] == s;
      CapsStep(t, i, AfterCapital(s));
      var (x, next) := Piece(c, s == "", AfterCapital(s));
      CapsEnd(t, next);
      CapsEnd(s, AfterCapital(s));
      assert x + "" == x && "" + x == x;
    } else {
      CapsStep(t, i, AfterCapital(s[..i]));
      CapsStep(s, i, AfterCapital(s[..i]));
      PieceBehind(s, i);
      LastPiece(s, c, i + 1);
    }
  }

  /** What one more character adds to the text: an escape an underbar; any other character its capital, with an
      underbar in front when it lacks the 0x20 bit, is no underbar, and neither starts the name nor follows another
      such character. */
  lemma CapsGrows(s: string, c: char)
    ensures Caps("") == ""
    ensures Caps(s + [c]) ==
            Caps(s) +
            if c == '\\' then "_"
            else (if c as int % 64 < 32 && c != '_' && s != "" && !AfterCapital(s) then "_" else "") + [Capital(c)]
  {
    hide CapsFrom, AfterCapital;
    CapsEnd("", false);
    UpperIsCapital(c);
    assert s[..0] == "" && !AfterCapital("") by { NotAfterCapital(); }
    LastPiece(s, c, 0);
    assert "" + [Upper(c)] == [Upper(c)];
  }

  lemma NotAfterCapital()
    ensures !AfterCapital("")
  {
  }

  /** A text without its underbars and escapes. */
  function Bare(t: string): string {
    if t == "" then ""
    else
      var c := t[|t| - 1];
      Bare(t[..|t| - 1]) + if c == '_' || c == '\\' then "" else [c]
  }

  lemma BareLast(t: string, c: char)
    ensures Bare(t + [c]) == Bare(t) + if c == '_' || c == '\\' then "" else [c]
  {
    assert (t + [c])[..|t|] == t;
  }

  lemma CapitalIsBare(c: char)
    ensures Capital(c) == '_' <==> c == '_'
    ensures Capital(c) == '\\' <==> c == '\\'
  {
    UpperIsCapital(c);
    UpperIs(c);
    assert IsLower(c) ==> 'A' <= Upper(c) <= 'Z';
  }

  /** Apart from underbars and escapes, every character appears in the text, in order: a letter as its own capital,
      any other as it is. */
  lemma {:induction false} CapsKeepsLetters(s: string, k: nat)
    requires k < |Bare(s)|
    ensures |Bare(Caps(s))| == |Bare(s)| && Bare(Caps(s))[k] == Capital(Bare(s)[k])
    decreases |s|
  {
    CapsKeepsLength(s);
    if s != "" {
      var front, c := s[..|s| - 1], s[|s| - 1];
      assert s == front + [c];
      CapsKeepsLength(front);
      BareGrows(front, c);
      if k < |Bare(front)| { CapsKeepsLetters(front, k); }
    }
  }

  lemma BareGrows(s: string, c: char)
    ensures Bare(s + [c]) == Bare(s) + if c == '_' || c == '\\' then "" else [c]
    ensures Bare(Caps(s + [c])) == Bare(Caps(s)) + if c == '_' || c == '\\' then "" else [Capital(c)]
  {
    hide Bare, CapsFrom, AfterCapital;
    BareLast(s, c);
    CapsGrows(s, c);
    CapitalIsBare(c);
    var t := Caps(s);
    BareLast(t, '_');
    BareLast(t, Capital(c));
    BareLast(t + "_", Capital(c));
    assert t + ("_" + [Capital(c)]) == t + "_" + [Capital(c)];
    assert t + ("" + [Capital(c)]) == t + [Capital(c)];
    assert Bare(t) + "" == Bare(t);
  }

  lemma {:induction false} CapsKeepsLength(s: string)
    ensures |Bare(Caps(s))| == |Bare(s)|
    decreases |s|
  {
    if s == "" {
      CapsGrows("", 'a');
    } else {
      var front, c := s[..|s| - 1], s[|s| - 1];
      assert s == front + [c];
      CapsKeepsLength(front);
      BareGrows(front, c);
    }
  }

  /** A name of lower-case letters becomes the same name in capitals. */
  lemma {:induction false} LowerCaseName(s: string, k: nat)
    requires k < |s| && forall i :: 0 <= i < |s| ==> 'a' <= s[i] <= 'z'
    ensures |Caps(s)| == |s| && Caps(s)[k] as int - 'A' as int == s[k] as int - 'a' as int
    decreases |s|
  {
    hide CapsFrom, AfterCapital;
    var front, c := s[..|s| - 1], s[|s| - 1];
    assert s == front + [c];
    CapsGrows(front, c);
    UpperIsCapital(c);
    if front != "" { LowerCaseName(front, if k < |front| then k else 0); }
  }
}
