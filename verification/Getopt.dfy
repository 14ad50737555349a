/** The option parser: a cursor over the argument words that is resumed by every call. */
module Getopt {
  import opened Wrappers

  /** What one step of parsing finds. */
  datatype Answer =
    | Flag(letter: char)
    | WithArgument(letter: char, argument: string)
    | Unknown(letter: char)
    | NoArgument(letter: char)

  // ----- the reference: a recursive parser over words -----

  predicate IsOptionWord(w: string) {
    |w| > 1 && w[0] == '-'
  }

  /** The first place of a letter among the options, or their length. */
  function Search(opts: string, c: char): (k: nat)
    ensures k <= |opts|
    ensures forall i :: 0 <= i < k ==> opts[i] != c
    ensures k < |opts| ==> opts[k] == c
  {
    if opts == "" || opts[0] == c then 0 else 1 + Search(opts[1..], c)
  }

  predicate IsOption(opts: string, c: char) {
    c != ':' && c in opts
  }

  predicate TakesArgument(opts: string, c: char) {
    var k := Search(opts, c);
    k + 1 < |opts| && opts[k + 1] == ':'
  }

  /** The answers that words give, and the words left over. */
  function ParseWords(words: seq<string>, opts: string): (r: (seq<Answer>, seq<string>))
    decreases words, 0
  {
    if words == [] || !IsOptionWord(words[0]) then ([], words)
    else if words[0] == "--" then ([], words[1..])
    else ParseLetters(words[0][1..], words[1..], opts)
  }

  /** The same in the middle of a word: its letters to come, and the words after it. */
  function ParseLetters(letters: string, words: seq<string>, opts: string): (r: (seq<Answer>, seq<string>))
    decreases words, 1 + |letters|
  {
    if letters == "" then ParseWords(words, opts)
    else
      var c := letters[0];
      if !IsOption(opts, c) then Cons(Unknown(c), ParseLetters(letters[1..], words, opts))
      else if !TakesArgument(opts, c) then Cons(Flag(c), ParseLetters(letters[1..], words, opts))
      else if |letters| > 1 then Cons(WithArgument(c, letters[1..]), ParseWords(words, opts))
      else if words == [] then Cons(NoArgument(c), ([], []))
      else Cons(WithArgument(c, words[0]), ParseWords(words[1..], opts))
  }

  function Cons(a: Answer, rest: (seq<Answer>, seq<string>)): (seq<Answer>, seq<string>) {
    ([a] + rest.0, rest.1)
  }

  lemma ParseStarts(words: seq<string>, opts: string)
    requires words != []
    ensures ParseWords(words, opts) ==
            if !IsOptionWord(words[0]) then ([], words)
            else if words[0] == "--" then ([], words[1..])
            else ParseLetters(words[0][1..], words[1..], opts)
  {
  }

  lemma ParseGoesOn(letters: string, words: seq<string>, opts: string)
    requires letters != ""
    ensures var c, more := letters[0], ParseLetters(letters[1..], words, opts);
            && (!IsOption(opts, c) ==> ParseLetters(letters, words, opts) == Cons(Unknown(c), more))
            && (IsOption(opts, c) && !TakesArgument(opts, c) ==>
                  ParseLetters(letters, words, opts) == Cons(Flag(c), more))
    ensures IsOption(opts, letters[0]) && TakesArgument(opts, letters[0]) ==>
              ParseLetters(letters, words, opts) ==
                if |letters| > 1 then Cons(WithArgument(letters[0], letters[1..]), ParseWords(words, opts))
                else if words == [] then Cons(NoArgument(letters[0]), ([], []))
                else Cons(WithArgument(letters[0], words[0]), ParseWords(words[1..], opts))
  {
  }

  // ----- the cursor -----

  class Cursor {
    var optind: nat
    var sp: nat
    var optarg: Option<string>
    var optopt: char

    constructor ()
      ensures optind == 1 && sp == 1 && optarg == None
    {
      optind, sp, optarg, optopt := 1, 1, None, ' ';
    }

    /** In the middle of a word the cursor rests on one of its letters. */
    predicate Valid(argv: seq<string>)
      reads this
    {
      sp == 1 || (sp > 1 && optind < |argv| && IsOptionWord(argv[optind]) && sp < |argv[optind]|)
    }

    /** What is still to be parsed gives these answers. */
    function ToCome(argv: seq<string>, opts: string): (seq<Answer>, seq<string>)
      requires Valid(argv)
      reads this
    {
      if optind >= |argv| then ([], [])
      else if sp == 1 then ParseWords(argv[optind..], opts)
      else ParseLetters(argv[optind][sp..], argv[optind + 1..], opts)
    }

    /** Parses the next letter. `None` is the end of the options; '?' stands for a letter that is unknown or
        lacks its argument. */
    method Next(argv: seq<string>, opts: string) returns (r: Option<char>)
      requires Valid(argv)
      modifies this
      ensures Valid(argv)
      ensures var (answers, operands) := old(ToCome(argv, opts));
              if answers == [] then
                && r == None && sp == 1 && optarg == old(optarg) && optopt == old(optopt)
                && (if optind < |argv| then argv[optind..] else []) == operands
              else
                && r == Some(match answers[0] case Flag(c) => c case WithArgument(c, _) => c case _ => '?')
                && optopt == answers[0].letter
                && optarg == (match answers[0]
                              case Flag(_) => None
                              case WithArgument(_, a) => Some(a)
                              case _ => old(optarg))
                && ToCome(argv, opts) == (answers[1..], operands)
                && (old(optind) < optind || (old(optind) == optind && old(sp) < sp))
    {
      hide Search, ParseLetters, ParseWords;
      if optind < |argv| {
        ParseStarts(argv[optind..], opts);
        assert argv[optind..][1..] == argv[optind + 1..];
      }
      if sp == 1 {
        if optind >= |argv| || |argv[optind]| == 0 || argv[optind][0] != '-' || |argv[optind]| == 1 {
          return None;
        } else if argv[optind] == "--" {
          optind := optind + 1;
          return None;
        }
      }
      ghost var before := ToCome(argv, opts);
      assert before == ParseLetters(argv[optind][sp..], argv[optind + 1..], opts);
      var w := argv[optind];
      assert w[sp..][0] == w[sp] && w[sp..][1..] == w[sp + 1..];
      ParseGoesOn(w[sp..], argv[optind + 1..], opts);
      var c := w[sp];
      optopt := c;
      var k := Search(opts, c);
      NotFound(opts, c);
      if c == ':' || k == |opts| {
        Advance(argv, opts);
        return Some('?');
      }
      if k + 1 < |opts| && opts[k + 1] == ':' {
        var found := TakeArgument(argv, opts);
        return Some(if found then c else '?');
      }
      Advance(argv, opts);
      optarg := None;
      return Some(c);
    }

    /** Takes the rest of the word as the argument, or the next word, or finds none. */
    method TakeArgument(argv: seq<string>, ghost opts: string) returns (found: bool)
      requires optind < |argv| && IsOptionWord(argv[optind]) && 1 <= sp < |argv[optind]|
      modifies this`sp, this`optind, this`optarg
      ensures Valid(argv) && old(optind) < optind
      ensures var letters, words := old(argv[optind][sp + 1..]), argv[old(optind) + 1..];
              && found == (letters != "" || words != [])
              && optarg == (if !found then old(optarg) else if letters != "" then Some(letters) else Some(words[0]))
              && ToCome(argv, opts) == (if !found then ([], [])
                                        else ParseWords(if letters != "" then words else words[1..], opts))
    {
      assert ParseWords([], opts) == ([], []);
      found := true;
      if sp + 1 < |argv[optind]| {
        optarg := Some(argv[optind][sp + 1..]);
        optind := optind + 1;
      } else {
        optind := optind + 1;
        if optind >= |argv| {
          sp := 1;
          return false;
        } else {
          optarg := Some(argv[optind]);
          optind := optind + 1;
        }
      }
      sp := 1;
    }

    /** Steps to the next letter, or to the next word behind the last letter. */
    method Advance(argv: seq<string>, ghost opts: string)
      requires optind < |argv| && IsOptionWord(argv[optind]) && 1 <= sp < |argv[optind]|
      modifies this`sp, this`optind
      ensures Valid(argv)
      ensures ToCome(argv, opts) == ParseLetters(old(argv[optind][sp + 1..]), argv[old(optind) + 1..], opts)
      ensures old(optind) < optind || (old(optind) == optind && old(sp) < sp)
    {
      sp := sp + 1;
      if sp == |argv[optind]| {
        sp := 1;
        optind := optind + 1;
      }
    }
  }

  lemma NotFound(opts: string, c: char)
    ensures Search(opts, c) == |opts| <==> c !in opts
  {
    assert Search(opts, c) < |opts| ==> opts[Search(opts, c)] in opts;
  }

  // ----- a whole command line -----

  /** What a caller observes of one call: the code, the argument and the letter. */
  datatype Seen = Seen(code: char, argument: Option<string>, letter: char)

  function Observe(answers: seq<Answer>, argument: Option<string>): seq<Seen> {
    if answers == [] then []
    else
      var a := answers[0];
      var next := match a
        case Flag(_) => None
        case WithArgument(_, x) => Some(x)
        case _ => argument;
      var code := if a.Unknown? || a.NoArgument? then '?' else a.letter;
      [Seen(code, next, a.letter)] + Observe(answers[1..], next)
  }

  lemma ObserveStep(answers: seq<Answer>, argument: Option<string>)
    ensures answers == [] ==> Observe(answers, argument) == []
    ensures answers != [] ==>
              var next := match answers[0]
                case Flag(_) => None
                case WithArgument(_, x) => Some(x)
                case _ => argument;
              var code := if answers[0].Unknown? || answers[0].NoArgument? then '?' else answers[0].letter;
              Observe(answers, argument) == [Seen(code, next, answers[0].letter)] + Observe(answers[1..], next)
  {
  }

  lemma NoWords(opts: string)
    ensures ParseWords([], opts) == ([], [])
  {
  }

  /** Calling until the end of the options gives exactly what the recursive parser finds, and leaves the operands. */
  method ParseAll(argv: seq<string>, opts: string) returns (seen: seq<Seen>, operands: nat)
    ensures var words := if |argv| > 0 then argv[1..] else [];
            var (answers, rest) := ParseWords(words, opts);
            && seen == Observe(answers, None)
            && (if operands < |argv| then argv[operands..] else []) == rest
  {
    hide Search, ParseLetters, ParseWords, Observe;
    var cursor := new Cursor();
    seen := [];
    NoWords(opts);
    ghost var start := cursor.ToCome(argv, opts);
    assert |argv| == 1 ==> argv[1..] == [];
    assert start == ParseWords(if |argv| > 0 then argv[1..] else [], opts);
    while true
      invariant cursor.Valid(argv)
      invariant cursor.ToCome(argv, opts).1 == start.1
      invariant seen + Observe(cursor.ToCome(argv, opts).0, cursor.optarg) == Observe(start.0, None)
      decreases |cursor.ToCome(argv, opts).0|
    {
      ghost var answers := cursor.ToCome(argv, opts).0;
      ObserveStep(answers, cursor.optarg);
      var r := cursor.Next(argv, opts);
      if r == None {
        assert answers == [];
        return seen, cursor.optind;
      }
      seen := seen + [Seen(r.value, cursor.optarg, cursor.optopt)];
    }
  }

  // ----- options as they are spelled -----

  /** What a letter does, read off the option string: a letter followed by ':' takes the rest of its word or the next
      word, and any other letter of the string takes nothing. */
  lemma LetterByOptions(a: string, c: char, b: string, letters: string, words: seq<string>)
    requires c != ':' && c !in a
    ensures var opts := a + [c] + b;
            ParseLetters([c] + letters, words, opts) ==
              if b != "" && b[0] == ':' then
                if letters != "" then Cons(WithArgument(c, letters), ParseWords(words, opts))
                else if words == [] then ([NoArgument(c)], [])
                else Cons(WithArgument(c, words[0]), ParseWords(words[1..], opts))
              else Cons(Flag(c), ParseLetters(letters, words, opts))
  {
    hide ParseWords, ParseLetters, Search;
    var opts := a + [c] + b;
    SearchFinds(a, c, b);
    assert opts[|a|] == c;
    assert b != "" ==> opts[|a| + 1] == b[0];
    var w := [c] + letters;
    assert w[0] == c && w[1..] == letters;
    ParseGoesOn(w, words, opts);
    assert [NoArgument(c)] + [] == [NoArgument(c)];
  }

  /** A ':' and a letter that the option string lacks are unknown, and take nothing. */
  lemma UnknownLetter(opts: string, c: char, letters: string, words: seq<string>)
    requires c == ':' || c !in opts
    ensures ParseLetters([c] + letters, words, opts) == Cons(Unknown(c), ParseLetters(letters, words, opts))
  {
    var w := [c] + letters;
    assert w[0] == c && w[1..] == letters;
    ParseGoesOn(w, words, opts);
  }

  lemma SearchFinds(a: string, c: char, b: string)
    requires c !in a
    ensures Search(a + [c] + b, c) == |a|
  {
    var opts := a + [c] + b;
    NotFound(opts, c);
    assert opts[|a|] == c;
    forall i | 0 <= i < |a|
      ensures opts[i] != c
    {
      assert opts[i] == a[i] && a[i] in a;
    }
  }

  /** How the option string has a letter: with an argument or without. */
  ghost predicate Option(opts: string, c: char, argument: bool) {
    exists a, b ::
      opts == a + [c] + b && c !in a && c != ':' && (argument <==> b != "" && b[0] == ':')
  }

  /** One word of options as a user spells it: letters without arguments, and at the end perhaps one with an
      argument, in the same word or in the next. */
  datatype Spelled =
    | Flags(flags: string)
    | InWord(flags: string, letter: char, argument: string)
    | NextWord(flags: string, letter: char, argument: string)

  function WordsOf(x: Spelled): seq<string> {
    match x
    case Flags(flags) => ["-" + flags]
    case InWord(flags, c, argument) => ["-" + (flags + ([c] + argument))]
    case NextWord(flags, c, argument) => ["-" + (flags + [c]), argument]
  }

  function AnswersOf(x: Spelled): seq<Answer> {
    match x
    case Flags(flags) => FlagAnswers(flags)
    case _ => FlagAnswers(x.flags) + [WithArgument(x.letter, x.argument)]
  }

  function FlagAnswers(flags: string): (r: seq<Answer>)
    ensures |r| == |flags| && forall i :: 0 <= i < |r| ==> r[i] == Flag(flags[i])
  {
    if flags == "" then [] else [Flag(flags[0])] + FlagAnswers(flags[1..])
  }

  /** The spelling fits the option string, and no word is "-" or "--". */
  ghost predicate Fits(x: Spelled, opts: string) {
    && (forall i :: 0 <= i < |x.flags| ==> Option(opts, x.flags[i], false))
    && (x.Flags? ==> x.flags != "")
    && (x.InWord? ==> x.argument != "")
    && (!x.Flags? ==> Option(opts, x.letter, true))
    && WordsOf(x)[0] != "--"
  }

  lemma OptionParses(opts: string, c: char, argument: bool, letters: string, words: seq<string>)
    requires Option(opts, c, argument)
    ensures ParseLetters([c] + letters, words, opts) ==
            if !argument then Cons(Flag(c), ParseLetters(letters, words, opts))
            else if letters != "" then Cons(WithArgument(c, letters), ParseWords(words, opts))
            else if words == [] then ([NoArgument(c)], [])
            else Cons(WithArgument(c, words[0]), ParseWords(words[1..], opts))
  {
    hide ParseLetters, ParseWords;
    var a, b :| opts == a + [c] + b && c !in a && c != ':' && (argument <==> b != "" && b[0] == ':');
    LetterByOptions(a, c, b, letters, words);
  }

  lemma {:induction false} FlagsParse(flags: string, letters: string, words: seq<string>, opts: string)
    requires forall i :: 0 <= i < |flags| ==> Option(opts, flags[i], false)
    ensures var r := ParseLetters(letters, words, opts);
            ParseLetters(flags + letters, words, opts) == (FlagAnswers(flags) + r.0, r.1)
    decreases |flags|
  {
    hide ParseLetters, ParseWords, Option;
    var r := ParseLetters(letters, words, opts);
    if flags == "" {
      assert flags + letters == letters && [] + r.0 == r.0;
    } else {
      var c, rest := flags[0], flags[1..];
      OptionParses(opts, c, false, rest + letters, words);
      assert flags + letters == [c] + (rest + letters);
      FlagsParse(rest, letters, words, opts);
      assert FlagAnswers(flags) + r.0 == [Flag(c)] + (FlagAnswers(rest) + r.0);
    }
  }

  /** One spelled option in front of other words. */
  lemma SpelledParses(x: Spelled, words: seq<string>, opts: string)
    requires Fits(x, opts)
    ensures var r := ParseWords(words, opts);
            ParseWords(WordsOf(x) + words, opts) == (AnswersOf(x) + r.0, r.1)
  {
    hide ParseLetters, ParseWords, Option, FlagAnswers;
    var all, r := WordsOf(x) + words, ParseWords(words, opts);
    var w := all[0];
    assert w == WordsOf(x)[0] && IsOptionWord(w);
    ParseStarts(all, opts);
    match x
    case Flags(flags) =>
      assert w[1..] == flags && all[1..] == words;
      FlagsParse(flags, "", words, opts);
      assert flags + "" == flags;
      NoLetters(words, opts);
    case InWord(flags, c, argument) =>
      assert w[1..] == flags + ([c] + argument) && all[1..] == words;
      FlagsParse(flags, [c] + argument, words, opts);
      OptionParses(opts, c, true, argument, words);
      assert FlagAnswers(flags) + ([WithArgument(c, argument)] + r.0) == AnswersOf(x) + r.0;
    case NextWord(flags, c, argument) =>
      assert w[1..] == flags + [c] && all[1..] == [argument] + words;
      FlagsParse(flags, [c], [argument] + words, opts);
      OptionParses(opts, c, true, "", [argument] + words);
      assert [c] + "" == [c] && ([argument] + words)[1..] == words;
      assert FlagAnswers(flags) + ([WithArgument(c, argument)] + r.0) == AnswersOf(x) + r.0;
  }

  lemma NoLetters(words: seq<string>, opts: string)
    ensures ParseLetters("", words, opts) == ParseWords(words, opts)
  {
  }

  function AllWords(xs: seq<Spelled>): seq<string> {
    if xs == [] then [] else WordsOf(xs[0]) + AllWords(xs[1..])
  }

  function AllAnswers(xs: seq<Spelled>): seq<Answer> {
    if xs == [] then [] else AnswersOf(xs[0]) + AllAnswers(xs[1..])
  }

  /** What is spelled is what is parsed: any options that fit the option string, before operands that start with no
      option, or behind "--". */
  lemma {:induction false} SpellingIsParsed(xs: seq<Spelled>, operands: seq<string>, opts: string)
    requires forall i :: 0 <= i < |xs| ==> Fits(xs[i], opts)
    ensures ParseWords(AllWords(xs) + ["--"] + operands, opts) == (AllAnswers(xs), operands)
    ensures operands == [] || |operands[0]| < 2 || operands[0][0] != '-' ==>
              ParseWords(AllWords(xs) + operands, opts) == (AllAnswers(xs), operands)
    decreases |xs|
  {
    hide ParseLetters, ParseWords, Fits, WordsOf, AnswersOf;
    if xs == [] {
      assert [] + ["--"] + operands == ["--"] + operands && [] + operands == operands;
      ParseStarts(["--"] + operands, opts);
      assert (["--"] + operands)[1..] == operands;
      if operands == [] { NoWords(opts); } else { ParseStarts(operands, opts); }
    } else {
      var first, rest := WordsOf(xs[0]), AllWords(xs[1..]);
      SpellingIsParsed(xs[1..], operands, opts);
      SpelledParses(xs[0], rest + ["--"] + operands, opts);
      SpelledParses(xs[0], rest + operands, opts);
      assert first + rest + ["--"] + operands == first + (rest + ["--"] + operands);
      assert first + rest + operands == first + (rest + operands);
    }
  }
}
