/** parse_args of psplink/parse_args.c: a command line becomes an argument list, with
    quotes and backslash escapes.  The arguments land one behind the other in the output
    buffer and argv points at them. */
module Tokenizer {
  import opened Options
  import opened Chars
  import opened CStrings

  const BACKSLASH := '\\'
  const QUOTE := '"'
  const APOSTROPHE := '\''

  // ---- one turn of the loop ----

  /** A character for the output, a quote opened or closed, a space between arguments, or
      a backslash at the very end. */
  datatype Token<T> =
    | Bad
    | Put(c: char, rest: T)
    | Mark(quote: char, rest: T)
    | Gap(rest: T)
    | End

  /** decode_oct and decode_hex: how many digits and the value in one byte. */
  function Decode(s: string, base: nat, most: nat, acc: nat): (r: (nat, nat))
    requires acc < 256
    ensures r.0 <= |s| && r.1 < 256
  {
    if most == 0 || s == "" || !IsDigit(s[0], base) then (0, acc)
    else
      var (n, v) := Decode(s[1..], base, most - 1, (acc * base + DigitValue(s[0])) % 256);
      (n + 1, v)
  }

  /** An escape with digits is refused without digits and for a NUL. */
  function Escaped(s: string, base: nat, most: nat): (t: Token<string>)
    ensures t.Bad? || (t.Put? && |t.rest| < |s| && t.c != NUL)
  {
    var (n, v) := Decode(s, base, most, 0);
    if n == 0 || v == 0 then Bad else Put(v as char, s[n..])
  }

  function SkipSpaces(s: string): (t: string)
    ensures |t| <= |s|
    ensures t != "" ==> !IsSpace(t[0])
  {
    if s == "" || !IsSpace(s[0]) then s else SkipSpaces(s[1..])
  }

  function Next(s: string, quote: char): (t: Token<string>)
    requires s != ""
    ensures !t.Bad? && !t.End? ==> |t.rest| < |s|
  {
    var rest := s[1..];
    if s[0] == BACKSLASH then
      if rest == "" then End
      else if rest[0] == 'n' then Put('\n', rest[1..])
      else if rest[0] == 'r' then Put('\r', rest[1..])
      else if rest[0] == '0' then Escaped(rest[1..], 8, 4)
      else if rest[0] == 'x' then Escaped(rest[1..], 16, 2)
      else Put(rest[0], rest[1..])
    else if IsSpace(s[0]) && quote == NUL then Gap(SkipSpaces(s))
    else if s[0] == QUOTE || s[0] == APOSTROPHE then
      if quote == NUL then Mark(s[0], rest)
      else if s[0] == quote then Mark(NUL, rest)
      else Put(s[0], rest)
    else Put(s[0], rest)
  }

  // ---- the whole line ----

  function Extend(args: seq<string>, c: char): (r: seq<string>)
    requires args != []
    ensures |r| == |args|
  {
    args[|args| - 1 := args[|args| - 1] + [c]]
  }

  /** The arguments and the open quote after the loop, or failure. */
  function Loop(s: string, args: seq<string>, quote: char, maxArgs: nat): Option<(seq<string>, char)>
    requires args != []
    decreases |s|
  {
    if s == "" || |args| >= maxArgs then Some((args, quote))
    else
      match Next(s, quote)
      case Bad => None
      case End => Some((args, quote))
      case Put(c, rest) => Loop(rest, Extend(args, c), quote, maxArgs)
      case Mark(q, rest) => Loop(rest, args, q, maxArgs)
      case Gap(rest) => Loop(rest, if rest == "" then args else args + [""], quote, maxArgs)
  }

  /** An empty last argument goes, and an open quote is an error. */
  function Finish(r: Option<(seq<string>, char)>): Option<seq<string>> {
    match r
    case None => None
    case Some((args, quote)) =>
      if quote != NUL then None
      else if args != [] && args[|args| - 1] == "" then Some(args[..|args| - 1])
      else Some(args)
  }

  function ParseArgs(line: string, maxArgs: int): Option<seq<string>> {
    if maxArgs <= 0 then None
    else
      var s := SkipSpaces(line);
      if s == "" then Some([]) else Finish(Loop(s, [""], NUL, maxArgs))
  }

  // ---- quoting ----

  /** The argument with '"' and '\' escaped, in front of `more`. */
  function Escape(arg: string, more: string): string {
    if arg == "" then more
    else
      var rest := [arg[0]] + Escape(arg[1..], more);
      if arg[0] == QUOTE || arg[0] == BACKSLASH then [BACKSLASH] + rest else rest
  }

  function Quoted(arg: string, more: string): string {
    [QUOTE] + Escape(arg, [QUOTE] + more)
  }

  /** The quoted arguments with a space between them. */
  function Line(args: seq<string>): string {
    if args == [] then ""
    else Quoted(args[0], if |args| == 1 then "" else " " + Line(args[1..]))
  }

  /** Quotes and backslashes stay apart from the letters that mean something after one. */
  lemma {:induction false} ReadsEscaped(arg: string, more: string, args: seq<string>, maxArgs: nat)
    requires args != [] && |args| < maxArgs
    ensures var n := |args| - 1;
            Loop(Escape(arg, more), args, QUOTE, maxArgs) == Loop(more, args[n := args[n] + arg], QUOTE, maxArgs)
    decreases |arg|
  {
    var n := |args| - 1;
    if arg == "" {
      assert args[n] + "" == args[n] && args[n := args[n]] == args;
    } else {
      var s, rest := Escape(arg, more), Escape(arg[1..], more);
      var c := [arg[0]] + rest;
      assert c[1..] == rest && ([BACKSLASH] + c)[1..] == c;
      assert Next(s, QUOTE) == Put(arg[0], rest);
      ReadsEscaped(arg[1..], more, Extend(args, arg[0]), maxArgs);
      assert args[n] + [arg[0]] + arg[1..] == args[n] + arg;
      assert Extend(args, arg[0])[n := args[n] + arg] == args[n := args[n] + arg];
    }
  }

  lemma ReadsQuoted(arg: string, more: string, args: seq<string>, maxArgs: nat)
    requires args != [] && |args| < maxArgs && args[|args| - 1] == ""
    ensures Loop(Quoted(arg, more), args, NUL, maxArgs) == Loop(more, args[|args| - 1 := arg], NUL, maxArgs)
  {
    var n, close := |args| - 1, [QUOTE] + more;
    var s := Quoted(arg, more);
    assert s[1..] == Escape(arg, close) && close[1..] == more;
    assert Next(s, NUL) == Mark(QUOTE, Escape(arg, close));
    ReadsEscaped(arg, close, args, maxArgs);
    assert args[n] + arg == arg;
    assert Next(close, QUOTE) == Mark(NUL, more);
  }

  lemma ReadsGap(more: string, args: seq<string>, maxArgs: nat)
    requires args != [] && |args| < maxArgs && more != "" && !IsSpace(more[0])
    ensures Loop(" " + more, args, NUL, maxArgs) == Loop(more, args + [""], NUL, maxArgs)
  {
    var s := " " + more;
    assert s[1..] == more;
    assert SkipSpaces(more) == more && SkipSpaces(s) == SkipSpaces(more);
    assert Next(s, NUL) == Gap(more);
  }

  /** What the loop makes of a list: all of it, or as much as fits in front of one last
      empty argument. */
  function Read(args: seq<string>, maxArgs: nat): seq<string>
    requires maxArgs > 0
  {
    if |args| < maxArgs then args else args[..maxArgs - 1] + [""]
  }

  lemma {:induction false} ReadsLine(done: seq<string>, args: seq<string>, maxArgs: nat)
    requires args != [] && |done| < maxArgs
    ensures Loop(Line(args), done + [""], NUL, maxArgs) == Some((Read(done + args, maxArgs), NUL))
    decreases |args|
  {
    if |done| + 1 >= maxArgs {
      assert (done + args)[..maxArgs - 1] == done;
    } else {
      var more := if |args| == 1 then "" else " " + Line(args[1..]);
      ReadsQuoted(args[0], more, done + [""], maxArgs);
      var now := done + [args[0]];
      assert (done + [""])[|done| := args[0]] == now;
      if |args| == 1 {
        assert now == done + args;
      } else {
        ReadsGap(Line(args[1..]), now, maxArgs);
        ReadsLine(now, args[1..], maxArgs);
        assert now + args[1..] == done + args;
      }
    }
  }

  lemma ParsesLine(args: seq<string>, maxArgs: nat)
    requires args != [] && maxArgs > 0
    ensures ParseArgs(Line(args), maxArgs) == Finish(Some((Read(args, maxArgs), NUL)))
  {
    ReadsLine([], args, maxArgs);
    assert [] + args == args && [] + [""] == [""];
    assert Line(args)[0] == QUOTE;
  }

  /** Quoting a list and parsing the line gives the list back exactly when it is shorter
      than max_args and does not end in an empty argument. */
  lemma RoundTripExactly(args: seq<string>, maxArgs: nat)
    requires maxArgs > 0
    ensures ParseArgs(Line(args), maxArgs) == Some(args)
            <==> |args| < maxArgs && (args != [] ==> args[|args| - 1] != "")
  {
    if |args| >= maxArgs {
      KeepsWhatFits(args, maxArgs);
    } else if args != [] {
      ParsesLine(args, maxArgs);
    }
  }

  /** In any case the first max_args - 1 arguments come back. */
  lemma KeepsWhatFits(args: seq<string>, maxArgs: nat)
    requires |args| >= maxArgs > 0
    ensures ParseArgs(Line(args), maxArgs) == Some(args[..maxArgs - 1])
  {
    var fits := args[..maxArgs - 1];
    ParsesLine(args, maxArgs);
    assert (fits + [""])[|fits|] == "" && (fits + [""])[..|fits|] == fits;
  }

  /** Any character but NUL can be written as \x with its two digits. */
  lemma HexEscapeReadsBack(c: nat, more: string, quote: char)
    requires 0 < c < 256
    ensures Next("\\x" + ([DigitFor(c / 16), DigitFor(c % 16)] + more), quote) == Put(c as char, more)
  {
    var ds := [DigitFor(c / 16), DigitFor(c % 16)] + more;
    assert ("\\x" + ds)[1..] == "x" + ds && ("x" + ds)[1..] == ds;
    TwoDigits(DigitFor(c / 16), DigitFor(c % 16), more);
  }

  lemma TwoDigits(high: char, low: char, more: string)
    requires IsHex(high) && IsHex(low)
    ensures var ds := [high, low] + more;
            Decode(ds, 16, 2, 0) == (2, DigitValue(high) * 16 + DigitValue(low)) && ds[2..] == more
  {
    var ds := [high, low] + more;
    assert ds[1..] == [low] + more && ds[1..][1..] == more;
    assert Decode(ds[1..], 16, 1, DigitValue(high)) == (1, DigitValue(high) * 16 + DigitValue(low));
  }

  /** So can it as \0 with four octal digits. */
  lemma OctalEscapeReadsBack(c: nat, more: string, quote: char)
    requires 0 < c < 256
    ensures Next("\\0" + (['0', DigitFor(c / 64), DigitFor(c / 8 % 8), DigitFor(c % 8)] + more), quote) == Put(c as char, more)
  {
    var ds := ['0', DigitFor(c / 64), DigitFor(c / 8 % 8), DigitFor(c % 8)] + more;
    assert ("\\0" + ds)[1..] == "0" + ds && ("0" + ds)[1..] == ds;
    FourDigits(DigitFor(c / 64), DigitFor(c / 8 % 8), DigitFor(c % 8), more);
    OctalDigits(c);
  }

  lemma OctalDigits(c: nat)
    ensures c / 64 * 64 + c / 8 % 8 * 8 + c % 8 == c
  {
    assert c / 64 == c / 8 / 8;
  }

  lemma FourDigits(d2: char, d1: char, d0: char, more: string)
    requires IsDigit(d2, 8) && IsDigit(d1, 8) && IsDigit(d0, 8) && DigitValue(d2) < 4
    ensures var ds := ['0', d2, d1, d0] + more;
            Decode(ds, 8, 4, 0) == (4, DigitValue(d2) * 64 + DigitValue(d1) * 8 + DigitValue(d0)) && ds[4..] == more
  {
    var s1, s2, s3 := [d2, d1, d0] + more, [d1, d0] + more, [d0] + more;
    var ds := ['0', d2, d1, d0] + more;
    assert s3[1..] == more && s2[1..] == s3 && s1[1..] == s2 && ds[1..] == s1;
    var v2, v1, v0 := DigitValue(d2), DigitValue(d1), DigitValue(d0);
    assert Decode(s3, 8, 1, v2 * 8 + v1) == (1, v2 * 64 + v1 * 8 + v0);
    assert Decode(s2, 8, 2, v2) == (2, v2 * 64 + v1 * 8 + v0);
    assert Decode(s1, 8, 3, 0) == (3, v2 * 64 + v1 * 8 + v0);
  }

  /** A backslash makes a line feed of 'n', a carriage return of 'r', and any character
      that does not begin a number itself. */
  lemma LetterEscapes(c: char, more: string, quote: char)
    requires c != '0' && c != 'x'
    ensures Next([BACKSLASH] + ([c] + more), quote)
         == Put(if c == 'n' then '\n' else if c == 'r' then '\r' else c, more)
  {
    var s := [BACKSLASH] + ([c] + more);
    assert s[1..] == [c] + more && s[1..][1..] == more;
  }

  // ---- words ----

  predicate WordChar(c: char) {
    !IsSpace(c) && c != BACKSLASH && c != QUOTE && c != APOSTROPHE
  }

  predicate AllWord(w: string) {
    w == "" || (WordChar(w[0]) && AllWord(w[1..]))
  }

  /** Words with a space between them. */
  function Spaced(words: seq<string>): string {
    if words == [] then ""
    else words[0] + if |words| == 1 then "" else " " + Spaced(words[1..])
  }

  predicate Words(words: seq<string>) {
    words == [] || (words[0] != "" && AllWord(words[0]) && Words(words[1..]))
  }

  lemma {:induction false} ReadsWord(w: string, more: string, args: seq<string>, maxArgs: nat)
    requires args != [] && |args| < maxArgs && AllWord(w)
    ensures var n := |args| - 1;
            Loop(w + more, args, NUL, maxArgs) == Loop(more, args[n := args[n] + w], NUL, maxArgs)
    decreases |w|
  {
    var n := |args| - 1;
    if w == "" {
      assert w + more == more;
      assert args[n] + "" == args[n] && args[n := args[n]] == args;
    } else {
      assert (w + more)[1..] == w[1..] + more;
      ReadsWord(w[1..], more, Extend(args, w[0]), maxArgs);
      assert args[n] + [w[0]] + w[1..] == args[n] + w;
      assert Extend(args, w[0])[n := args[n] + w] == args[n := args[n] + w];
    }
  }

  lemma {:induction false} ReadsWords(done: seq<string>, words: seq<string>, maxArgs: nat)
    requires words != [] && Words(words) && |done| < maxArgs
    ensures Loop(Spaced(words), done + [""], NUL, maxArgs) == Some((Read(done + words, maxArgs), NUL))
    decreases |words|
  {
    if |done| + 1 >= maxArgs {
      assert (done + words)[..maxArgs - 1] == done;
    } else {
      var more := if |words| == 1 then "" else " " + Spaced(words[1..]);
      ReadsWord(words[0], more, done + [""], maxArgs);
      var now := done + [words[0]];
      assert "" + words[0] == words[0] && (done + [""])[|done| := words[0]] == now;
      if |words| == 1 {
        assert now == done + words;
      } else {
        ReadsGap(Spaced(words[1..]), now, maxArgs);
        ReadsWords(now, words[1..], maxArgs);
        assert now + words[1..] == done + words;
      }
    }
  }

  /** A line of plain words is read as its words, exactly while there are fewer than
      max_args of them. */
  lemma WordsReadBackExactly(words: seq<string>, maxArgs: nat)
    requires Words(words) && maxArgs > 0
    ensures ParseArgs(Spaced(words), maxArgs) == Some(words) <==> |words| < maxArgs
  {
    if words != [] {
      ParsesWords(words, maxArgs);
      FinishesWords(words, maxArgs);
    }
  }

  lemma ParsesWords(words: seq<string>, maxArgs: nat)
    requires words != [] && Words(words) && maxArgs > 0
    ensures ParseArgs(Spaced(words), maxArgs) == Finish(Some((Read(words, maxArgs), NUL)))
  {
    ReadsWords([], words, maxArgs);
    assert [] + words == words && [] + [""] == [""];
    assert Spaced(words)[0] == words[0][0];
  }

  lemma FinishesWords(words: seq<string>, maxArgs: nat)
    requires words != [] && Words(words) && maxArgs > 0
    ensures Finish(Some((Read(words, maxArgs), NUL))) == Some(words) <==> |words| < maxArgs
  {
    LastWord(words);
    if |words| >= maxArgs {
      assert |Finish(Some((Read(words, maxArgs), NUL))).value| == maxArgs - 1;
    }
  }

  lemma {:induction false} LastWord(words: seq<string>)
    requires Words(words) && words != []
    ensures words[|words| - 1] != ""
  {
    if |words| > 1 {
      LastWord(words[1..]);
    }
  }

  // ---- the code ----

  /** The token `u` of positions in the input is the token `t` of texts. */
  ghost predicate SameToken(input: array<char>, end: nat, t: Token<string>, u: Token<nat>)
    reads input
  {
    match (t, u)
    case (Bad, Bad) => true
    case (End, End) => true
    case (Put(c, rest), Put(d, at)) => c == d != NUL && at + |rest| == end && TextAt(input, at, rest)
    case (Mark(q, rest), Mark(p, at)) => q == p && at + |rest| == end && TextAt(input, at, rest)
    case (Gap(rest), Gap(at)) => at + |rest| == end && TextAt(input, at, rest)
    case _ => false
  }

  /** The digits of an escape, each checked before it is shifted in. */
  method ReadEscaped(input: array<char>, at: nat, base: nat, most: nat, ghost s: string) returns (t: Token<nat>)
    requires TextAt(input, at, s)
    ensures SameToken(input, at + |s|, Escaped(s, base, most), t)
  {
    var n, v := 0, 0;
    ghost var rest := s;
    while n < most && IsDigit(input[at + n], base)
      invariant n <= most && n <= |s| && 0 <= v < 256 && rest == s[n..]
      invariant Decode(s, base, most, 0) == (n + Decode(rest, base, most - n, v).0, Decode(rest, base, most - n, v).1)
    {
      assert n < |s| && input[at + n] == s[n] == rest[0];
      v := (v * base + DigitValue(input[at + n])) % 256;
      n := n + 1;
      rest := rest[1..];
    }
    assert n < |s| ==> input[at + n] == s[n] == rest[0];
    Advance(input, at, s, n);
    t := if n == 0 || v == 0 then Bad else Put(v as char, at + n);
  }

  method PassSpaces(input: array<char>, at: nat, ghost s: string) returns (next: nat)
    requires TextAt(input, at, s)
    ensures next + |SkipSpaces(s)| == at + |s| && TextAt(input, next, SkipSpaces(s))
  {
    next := at;
    ghost var rest := s;
    while IsSpace(input[next])
      invariant at <= next && next + |rest| == at + |s| && TextAt(input, next, rest)
      invariant SkipSpaces(rest) == SkipSpaces(s)
      decreases |rest|
    {
      assert rest != "" && input[next] == rest[0];
      Advance(input, next, rest, 1);
      next, rest := next + 1, rest[1..];
    }
    assert rest != "" ==> input[next] == rest[0];
  }

  /** The character at the front decides. */
  method ReadToken(input: array<char>, at: nat, quote: char, ghost s: string) returns (t: Token<nat>)
    requires TextAt(input, at, s) && s != ""
    ensures SameToken(input, at + |s|, Next(s, quote), t)
  {
    ghost var rest := s[1..];
    assert input[at] == s[0];
    Advance(input, at, s, 1);
    if input[at] == BACKSLASH {
      t := ReadBackslash(input, at + 1, rest);
    } else if IsSpace(input[at]) && quote == NUL {
      var next := PassSpaces(input, at, s);
      t := Gap(next);
    } else if input[at] == QUOTE || input[at] == APOSTROPHE {
      t := if quote == NUL then Mark(input[at], at + 1)
           else if input[at] == quote then Mark(NUL, at + 1)
           else Put(input[at], at + 1);
    } else {
      t := Put(input[at], at + 1);
    }
  }

  method ReadBackslash(input: array<char>, at: nat, ghost rest: string) returns (t: Token<nat>)
    requires TextAt(input, at, rest)
    ensures SameToken(input, at + |rest|, Next([BACKSLASH] + rest, NUL), t)
    ensures forall q :: Next([BACKSLASH] + rest, q) == Next([BACKSLASH] + rest, NUL)
  {
    assert ([BACKSLASH] + rest)[1..] == rest;
    assert input[at] == if rest == "" then NUL else rest[0];
    if input[at] == NUL {
      return End;
    }
    Advance(input, at, rest, 1);
    if input[at] == 'n' {
      t := Put('\n', at + 1);
    } else if input[at] == 'r' {
      t := Put('\r', at + 1);
    } else if input[at] == '0' {
      t := ReadEscaped(input, at + 1, 8, 4, rest[1..]);
    } else if input[at] == 'x' {
      t := ReadEscaped(input, at + 1, 16, 2, rest[1..]);
    } else {
      t := Put(input[at], at + 1);
    }
  }

  /** The arguments stand in the output below `limit`, each with its NUL, and argv points
      at them. */
  ghost predicate Laid(out: array<char>, argv: array<Option<nat>>, args: seq<string>, limit: nat)
    reads out, argv
  {
    && |args| <= argv.Length
    && forall k :: 0 <= k < |args| ==>
         argv[k].Some? && argv[k].value + |args[k]| < limit && TextAt(out, argv[k].value, args[k])
  }

  /** The argument being written: not terminated yet. */
  ghost predicate Open(out: array<char>, start: nat, cur: string, pos: nat)
    reads out
  {
    start + |cur| == pos <= out.Length && forall k :: 0 <= k < |cur| ==> out[start + k] == cur[k] && cur[k] != NUL
  }

  lemma Grow(out: array<char>, argv: array<Option<nat>>, done: seq<string>, cur: string, start: nat, limit: nat)
    requires Laid(out, argv, done, start) && TextAt(out, start, cur) && start + |cur| < limit
    requires |done| < argv.Length && argv[|done|] == Some(start)
    ensures Laid(out, argv, done + [cur], limit)
  {
  }

  lemma ExtendLast(done: seq<string>, cur: string, c: char)
    ensures Extend(done + [cur], c) == done + [cur + [c]]
  {
  }

  /** What the loop keeps: `done` arguments finished, `cur` being written, or finished as
      well when the input ended behind it. */
  ghost predicate Writing(out: array<char>, argv: array<Option<nat>>, argc: nat, pos: nat, done: seq<string>, cur: string, start: nat, ended: bool)
    reads out, argv
  {
    && argc == |done| + 1 <= argv.Length && argv[argc - 1] == Some(start)
    && Laid(out, argv, done, start)
    && if ended then TextAt(out, start, cur) && pos == start + |cur| + 1 else Open(out, start, cur, pos)
  }

  /** A space between arguments: the one in front is finished, and unless the input ends
      here the next one begins. */
  method CloseArg(out: array<char>, argv: array<Option<nat>>, argc: nat, pos: nat, more: bool, ghost done: seq<string>, ghost cur: string, ghost start: nat)
    returns (argc': nat, ghost done': seq<string>, ghost cur': string, ghost start': nat)
    requires Writing(out, argv, argc, pos, done, cur, start, false) && pos < out.Length && (more ==> argc < argv.Length)
    modifies out, argv
    ensures Writing(out, argv, argc', pos + 1, done', cur', start', !more)
    ensures argc' == (if more then argc + 1 else argc) && (more ==> cur' == "")
    ensures done' + [cur'] == if more then done + [cur] + [""] else done + [cur]
    ensures forall k :: 0 <= k < out.Length && k != pos ==> out[k] == old(out[k])
  {
    out[pos] := NUL;
    argc', done', cur', start' := argc, done, cur, start;
    if more {
      argv[argc] := Some(pos + 1);
      Grow(out, argv, done, cur, start, pos + 1);
      argc', done', cur', start' := argc + 1, done + [cur], "", pos + 1;
    }
  }

  /** *out++ = c, behind the argument being written. */
  method Emit(out: array<char>, argv: array<Option<nat>>, argc: nat, pos: nat, c: char, ghost done: seq<string>, ghost cur: string, ghost start: nat)
    requires Writing(out, argv, argc, pos, done, cur, start, false) && pos < out.Length && c != NUL
    modifies out
    ensures Writing(out, argv, argc, pos + 1, done, cur + [c], start, false)
    ensures forall k :: 0 <= k < out.Length && k != pos ==> out[k] == old(out[k])
  {
    out[pos] := c;
  }

  /** The loop. */
  method Fill(input: array<char>, out: array<char>, argv: array<Option<nat>>, maxArgs: nat, from: nat, ghost line: string)
    returns (ok: bool, argc: nat, pos: nat, quote: char, ghost done: seq<string>, ghost cur: string, ghost start: nat, ghost ended: bool)
    requires TextAt(input, from, line) && line != "" && input != out && |line| < out.Length && 0 < maxArgs <= argv.Length
    modifies out, argv
    ensures !ok ==> Loop(line, [""], NUL, maxArgs).None?
    ensures ok ==> Loop(line, [""], NUL, maxArgs) == Some((done + [cur], quote))
    ensures ok ==> Writing(out, argv, argc, pos, done, cur, start, ended) && pos <= |line| && argc <= maxArgs
    ensures ok ==> (argc == maxArgs ==> cur == "")
    ensures forall k :: |line| < k < out.Length ==> out[k] == old(out[k])
  {
    argv[0] := Some(0);
    ok, argc, pos, quote := true, 1, 0, NUL;
    done, cur, start, ended := [], "", 0, false;
    var at := from;
    ghost var rest := line;
    assert done + [cur] == [""];
    while input[at] != NUL && argc < maxArgs
      invariant ok && Writing(out, argv, argc, pos, done, cur, start, ended) && argc <= maxArgs
      invariant (argc == maxArgs ==> cur == "") && (ended ==> rest == "")
      invariant at + |rest| == from + |line| && pos + |rest| <= |line| && TextAt(input, at, rest)
      invariant Loop(line, [""], NUL, maxArgs) == Loop(rest, done + [cur], quote, maxArgs)
      invariant forall k :: |line| < k < out.Length ==> out[k] == old(out[k])
      decreases |rest|
    {
      var going;
      going, ok, at, argc, pos, quote, rest, done, cur, start, ended :=
        OneToken(input, out, argv, maxArgs, at, argc, pos, quote, rest, done, cur, start);
      if !going {
        return;
      }
    }
  }

  /** One turn of the loop; it ends at a bad escape or a backslash at the very end. */
  method OneToken(input: array<char>, out: array<char>, argv: array<Option<nat>>, maxArgs: nat, at: nat, argc: nat, pos: nat, quote: char,
                  ghost rest: string, ghost done: seq<string>, ghost cur: string, ghost start: nat)
    returns (going: bool, ok: bool, at': nat, argc': nat, pos': nat, quote': char,
             ghost rest': string, ghost done': seq<string>, ghost cur': string, ghost start': nat, ghost ended: bool)
    requires TextAt(input, at, rest) && rest != "" && input != out && argc < maxArgs <= argv.Length && pos < out.Length
    requires Writing(out, argv, argc, pos, done, cur, start, false)
    modifies out, argv
    ensures going <==> !Next(rest, quote).Bad? && !Next(rest, quote).End?
    ensures ok <==> !Next(rest, quote).Bad?
    ensures !going ==> done' == done && cur' == cur && quote' == quote
    ensures !going ==> (at', argc', pos', rest', start', ended) == (at, argc, pos, rest, start, false)
    ensures going ==> |rest'| < |rest| && Loop(rest', done' + [cur'], quote', maxArgs) == Loop(rest, done + [cur], quote, maxArgs)
    ensures at' + |rest'| == at + |rest| && TextAt(input, at', rest') && pos' + |rest'| <= pos + |rest|
    ensures Writing(out, argv, argc', pos', done', cur', start', ended) && (ended ==> rest' == "")
    ensures argc' <= maxArgs && (argc' == maxArgs ==> cur' == "")
    ensures forall k :: 0 <= k < out.Length && k != pos ==> out[k] == old(out[k])
  {
    going, ok, at', argc', pos', quote', ended := true, true, at, argc, pos, quote, false;
    rest', done', cur', start' := rest, done, cur, start;
    ghost var next := Next(rest, quote);
    var t := ReadToken(input, at, quote, rest);
    match t
    case Bad => going, ok := false, false;
    case End => going := false;
    case Put(c, to) =>
      Emit(out, argv, argc, pos, c, done, cur, start);
      ExtendLast(done, cur, c);
      at', pos', cur', rest' := to, pos + 1, cur + [c], next.rest;
    case Mark(q, to) =>
      at', quote', rest' := to, q, next.rest;
    case Gap(to) =>
      at', rest' := to, next.rest;
      var more := input[to] != NUL;
      argc', done', cur', start' := CloseArg(out, argv, argc, pos, more, done, cur, start);
      pos', ended := pos + 1, !more;
  }

  /** parse_args: the arguments of the line stand in the output, at most one character
      longer than the line; argv points at them and a null pointer ends it, below
      max_args.  A blank line leaves argv alone. */
  method ParseArgsInto(input: array<char>, out: array<char>, argv: array<Option<nat>>, maxArgs: int, ghost line: string)
    returns (ret: bool, argc: nat)
    requires TextAt(input, 0, line) && input != out && |line| < out.Length && maxArgs <= argv.Length
    modifies out, argv
    ensures ret <==> ParseArgs(line, maxArgs).Some?
    ensures ret ==> Laid(out, argv, ParseArgs(line, maxArgs).value, |line| + 1)
    ensures ret ==> argc == |ParseArgs(line, maxArgs).value| < maxArgs
    ensures ret && SkipSpaces(line) != "" ==> argv[argc] == None
    ensures forall k :: |line| < k < out.Length ==> out[k] == old(out[k])
  {
    argc := 0;
    if maxArgs <= 0 {
      return false, 0;
    }
    var at := PassSpaces(input, 0, line);
    ghost var s := SkipSpaces(line);
    assert s != "" ==> input[at] == s[0];
    if input[at] == NUL {
      return true, 0;
    }
    var pos, quote;
    ghost var done, cur, start, ended;
    ret, argc, pos, quote, done, cur, start, ended := Fill(input, out, argv, maxArgs, at, s);
    if !ret || quote != NUL {
      return false, argc;
    }
    LastArg(done, cur);
    argc := Terminate(out, argv, argc, pos, done, cur, start, ended, |line| + 1);
  }

  /** The end of the last argument and of argv. */
  method Terminate(out: array<char>, argv: array<Option<nat>>, argc: nat, pos: nat, ghost done: seq<string>, ghost cur: string, ghost start: nat, ghost ended: bool, ghost limit: nat)
    returns (argc': nat)
    requires Writing(out, argv, argc, pos, done, cur, start, ended)
    requires pos < limit <= out.Length && (cur != "" ==> argc < argv.Length)
    modifies out, argv
    ensures var args := if cur == "" then done else done + [cur];
            Laid(out, argv, args, limit) && argc' == |args| && argc' < argv.Length && argv[argc'] == None
    ensures forall k :: 0 <= k < out.Length && k != pos ==> out[k] == old(out[k])
  {
    out[pos] := NUL;
    Grow(out, argv, done, cur, start, limit);
    assert Laid(out, argv, done, limit);
    argc' := argc;
    var last := argv[argc - 1].value;
    assert cur != "" ==> out[last + 0] == cur[0];
    if out[last] == NUL {
      argc' := argc - 1;
    }
    ghost var args := if cur == "" then done else done + [cur];
    assert Laid(out, argv, args, limit) && argc' == |args|;
    argv[argc'] := None;
  }

  lemma LastArg(done: seq<string>, cur: string)
    ensures Finish(Some((done + [cur], NUL))) == Some(if cur == "" then done else done + [cur])
  {
    assert (done + [cur])[..|done|] == done;
  }
}
