/**
 Quoting, splitting and unquoting of command lines: backslash_quote, strqsep and dequote_filename
 of src/libmhe/strq.c, the argument lists of src/libmhe/args.c, and the way src/cmd.c takes a
 line apart.
 */
module CommandLine {
  import opened CString
  import opened Sequences

  // ----- quoting

  /** What backslash_quote puts a backslash before. */
  predicate IsSpecial(c: char) {
    || c == ' ' || c == '\t' || c == '\n' || c == '\'' || c == '"' || c == '\\' || c == '|' || c == '&' || c == ';'
    || c == '(' || c == ')' || c == '<' || c == '>' || c == '!' || c == '{' || c == '}' || c == '*' || c == '['
    || c == ']' || c == '?' || c == '^' || c == '$' || c == '`' || c == '#'
  }

  function QuotedChar(c: char): (q: string)
    ensures q != []
  {
    if IsSpecial(c) then ['\\', c] else [c]
  }

  function Quoted(s: string): (q: string)
    ensures |q| >= |s|
  {
    if s == [] then [] else QuotedChar(s[0]) + Quoted(s[1..])
  }

  /** The quote that is open behind a character; NUL for none. */
  function QuoteAfter(open: char, c: char): char {
    if c != '"' && c != '\'' then open
    else if open == NUL then c
    else if open == c then NUL
    else open
  }

  /** dequote_filename: backslashes and the quotes that open and close go. */
  function Dequoted(text: string, open: char): string {
    if text == [] then []
    else if text[0] == '\\' then (if |text| == 1 then [] else [text[1]] + Dequoted(text[2..], open))
    else if QuoteAfter(open, text[0]) != open then Dequoted(text[1..], QuoteAfter(open, text[0]))
    else [text[0]] + Dequoted(text[1..], open)
  }

  /** Every string comes back from its quoted form. */
  lemma {:induction false} DequoteQuoted(s: string)
    ensures Dequoted(Quoted(s), NUL) == s
  {
    if s != [] {
      DequoteQuoted(s[1..]);
      var q, rest := QuotedChar(s[0]), Quoted(s[1..]);
      assert (q + rest)[|q|..] == rest;
    }
  }

  // ----- splitting

  /** How far a token goes: up to a delimiter that is neither escaped nor inside quotes. */
  function TokenEnd(s: string, open: char, delim: char): (n: nat)
    ensures n <= |s|
  {
    if s == [] then 0
    else if s[0] == '\\' then (if |s| == 1 then 1 else 2 + TokenEnd(s[2..], open, delim))
    else
      var after := QuoteAfter(open, s[0]);
      if s[0] != '\'' && s[0] == delim && after == NUL then 0 else 1 + TokenEnd(s[1..], after, delim)
  }

  function Leading(s: string, delim: char): (n: nat)
    ensures n <= |s| && (n < |s| ==> s[n] != delim)
  {
    if s == [] || s[0] != delim then 0 else 1 + Leading(s[1..], delim)
  }

  /** strqsep: the first token and the text behind it. */
  function Separated(s: string, delim: char): (r: Option<(string, string)>)
    ensures r.Some? ==> |r.value.1| < |s|
  {
    var b := Leading(s, delim);
    if b == |s| then None
    else
      var e := b + TokenEnd(s[b..], NUL, delim);
      Some((s[b..e], if e < |s| then s[e + 1..] else []))
  }

  function Split(s: string, delim: char): seq<string>
    decreases |s|
  {
    match Separated(s, delim)
    case None => []
    case Some((token, rest)) => [token] + Split(rest, delim)
  }

  /** args_cat. */
  function Joined(argv: seq<string>): string {
    if argv == [] then []
    else if |argv| == 1 then argv[0]
    else argv[0] + " " + Joined(argv[1..])
  }

  function AllQuoted(argv: seq<string>): (q: seq<string>)
    ensures |q| == |argv|
  {
    if argv == [] then [] else [Quoted(argv[0])] + AllQuoted(argv[1..])
  }

  function AllDequoted(argv: seq<string>): (q: seq<string>)
    ensures |q| == |argv|
  {
    if argv == [] then [] else [Dequoted(argv[0], NUL)] + AllDequoted(argv[1..])
  }

  function NonEmpty(argv: seq<string>): seq<string> {
    if argv == [] then []
    else if argv[0] == [] then NonEmpty(argv[1..])
    else [argv[0]] + NonEmpty(argv[1..])
  }

  /** Quoted text never ends a token. */
  lemma {:induction false} QuotedPasses(s: string, rest: string, delim: char)
    requires IsSpecial(delim) && delim != '\\'
    ensures TokenEnd(Quoted(s) + rest, NUL, delim) == |Quoted(s)| + TokenEnd(rest, NUL, delim)
  {
    if s == [] {
      assert Quoted(s) + rest == rest;
    } else {
      QuotedPasses(s[1..], rest, delim);
      CharPasses(s[0], Quoted(s[1..]) + rest, delim);
      hide IsSpecial, TokenEnd, QuotedChar;
      Associate(QuotedChar(s[0]), Quoted(s[1..]), rest);
    }
  }

  lemma CharPasses(c: char, tail: string, delim: char)
    requires IsSpecial(delim) && delim != '\\'
    ensures TokenEnd(QuotedChar(c) + tail, NUL, delim) == |QuotedChar(c)| + TokenEnd(tail, NUL, delim)
  {
    var q := QuotedChar(c);
    assert (q + tail)[|q|..] == tail;
    assert !IsSpecial(c) ==> c != '\\' && c != '"' && c != '\'' && c != delim;
    hide IsSpecial;
  }

  lemma QuotedFront(s: string, rest: string, delim: char)
    requires s != [] && IsSpecial(delim) && delim != '\\'
    ensures Quoted(s) != [] && (Quoted(s) + rest)[0] != delim && Leading(Quoted(s) + rest, delim) == 0
  {
  }

  lemma Found(text: string, b: nat, e: nat, delim: char)
    requires b <= e <= |text| && b < |text| && Leading(text, delim) == b
    requires e - b == TokenEnd(text[b..], NUL, delim)
    ensures Separated(text, delim) == Some((text[b..e], if e < |text| then text[e + 1..] else []))
  {
    hide Leading, TokenEnd;
  }

  /** A quoted argument in front of the rest is one token. */
  lemma FirstToken(s: string, rest: string)
    requires s != []
    ensures Separated(Quoted(s) + " " + rest, ' ') == Some((Quoted(s), rest))
  {
    var q, behind := Quoted(s), " " + rest;
    QuotedPasses(s, behind, ' ');
    QuotedFront(s, behind, ' ');
    assert q + " " + rest == q + behind;
    hide Quoted, Leading;
    Found(q + behind, 0, |q|, ' ');
    assert behind[1..] == rest && (q + behind)[0..] == q + behind;
    assert (q + behind)[|q| + 1..] == rest && (q + behind)[0..|q|] == q;
  }

  lemma OnlyToken(s: string)
    requires s != []
    ensures Separated(Quoted(s), ' ') == Some((Quoted(s), []))
  {
    var q := Quoted(s);
    QuotedPasses(s, [], ' ');
    QuotedFront(s, [], ' ');
    assert q + [] == q;
    hide Quoted, Leading;
    assert q[0..] == q && q[0..|q|] == q;
    Found(q, 0, |q|, ' ');
  }

  lemma SkipDelimiter(text: string, delim: char)
    ensures Split([delim] + text, delim) == Split(text, delim)
  {
    var all := [delim] + text;
    assert all[1..] == text;
    var n := Leading(text, delim);
    assert Leading(all, delim) == n + 1 && all[n + 1..] == text[n..];
    if n < |text| {
      LaterSlice(delim, text, n, n + TokenEnd(text[n..], NUL, delim));
    }
    hide TokenEnd, Leading;
    assert Separated(all, delim) == Separated(text, delim);
    hide Separated;
  }

  lemma LaterSlice(c: char, text: string, i: nat, j: nat)
    requires i <= j <= |text|
    ensures ([c] + text)[i + 1..j + 1] == text[i..j]
    ensures j < |text| ==> ([c] + text)[j + 2..] == text[j + 1..]
  {
  }

  /** Splitting what was quoted and joined gives the arguments that are not empty, quoted. */
  lemma {:induction false} SplitQuoted(argv: seq<string>)
    ensures Split(Joined(AllQuoted(argv)), ' ') == AllQuoted(NonEmpty(argv))
    decreases |argv|
  {
    if argv != [] {
      SplitQuoted(argv[1..]);
      var q := AllQuoted(argv);
      assert q[0] == Quoted(argv[0]) && q[1..] == AllQuoted(argv[1..]);
      var rest := Joined(q[1..]);
      if argv[0] == [] {
        SkipDelimiter(rest, ' ');
        assert [' '] + rest == " " + rest;
        assert [] + " " + rest == " " + rest;
      } else {
        FirstToken(argv[0], rest);
        OnlyToken(argv[0]);
        var n := NonEmpty(argv);
        assert n[0] == argv[0] && n[1..] == NonEmpty(argv[1..]);
        hide Separated, Quoted;
      }
    }
  }

  lemma {:induction false} DequoteAll(argv: seq<string>)
    ensures AllDequoted(AllQuoted(argv)) == argv
  {
    if argv != [] {
      DequoteAll(argv[1..]);
      DequoteQuoted(argv[0]);
      hide Dequoted, Quoted;
      assert AllQuoted(argv)[1..] == AllQuoted(argv[1..]);
    }
  }

  /** Any arguments survive being quoted, joined, split and unquoted, as far as they are not empty. */
  lemma RoundTrip(argv: seq<string>)
    ensures AllDequoted(Split(Joined(AllQuoted(argv)), ' ')) == NonEmpty(argv)
    ensures NonEmpty(argv) == argv <==> forall k :: 0 <= k < |argv| ==> argv[k] != []
  {
    SplitQuoted(argv);
    DequoteAll(NonEmpty(argv));
    NonEmptyAll(argv);
  }

  lemma {:induction false} NonEmptyAll(argv: seq<string>)
    ensures |NonEmpty(argv)| <= |argv|
    ensures NonEmpty(argv) == argv <==> forall k :: 0 <= k < |argv| ==> argv[k] != []
  {
    if argv != [] {
      NonEmptyAll(argv[1..]);
      assert argv == [argv[0]] + argv[1..];
      if argv[0] == [] {
        assert |NonEmpty(argv)| < |argv|;
      } else {
        assert NonEmpty(argv)[1..] == NonEmpty(argv[1..]);
        assert (forall k :: 0 <= k < |argv| ==> argv[k] != []) <==>
               (forall k :: 0 <= k < |argv[1..]| ==> argv[1..][k] != []) by {
          assert forall k :: 1 <= k < |argv| ==> argv[k] == argv[1..][k - 1];
        }
      }
    }
  }

  /** No quoted argument cuts the line into two commands. */
  lemma {:induction false} NoSemicolon(argv: seq<string>)
    ensures TokenEnd(Joined(AllQuoted(argv)), NUL, ';') == |Joined(AllQuoted(argv))|
    ensures Joined(AllQuoted(argv)) != [] ==> Joined(AllQuoted(argv))[0] != ';'
    decreases |argv|
  {
    hide Quoted, TokenEnd, Joined;
    var q := AllQuoted(argv);
    if |argv| == 1 {
      OneQuoted(argv[0]);
      assert q == [Quoted(argv[0])];
      JoinedOne(q);
    } else if argv != [] {
      NoSemicolon(argv[1..]);
      assert q[0] == Quoted(argv[0]) && q[1..] == AllQuoted(argv[1..]);
      JoinedMore(q);
      QuotedBefore(argv[0], Joined(q[1..]));
    } else {
      JoinedNone();
    }
  }

  lemma JoinedNone()
    ensures Joined([]) == [] && TokenEnd([], NUL, ';') == 0
  {
  }

  lemma JoinedOne(q: seq<string>)
    requires |q| == 1
    ensures Joined(q) == q[0]
  {
  }

  lemma JoinedMore(q: seq<string>)
    requires |q| > 1
    ensures Joined(q) == q[0] + ([' '] + Joined(q[1..]))
  {
  }

  lemma OneQuoted(a: string)
    ensures TokenEnd(Quoted(a), NUL, ';') == |Quoted(a)| && (Quoted(a) != [] ==> Quoted(a)[0] != ';')
  {
    QuotedPasses(a, [], ';');
    assert Quoted(a) + [] == Quoted(a);
    if a != [] {
      QuotedFront(a, [], ';');
    }
  }

  lemma QuotedBefore(a: string, rest: string)
    requires TokenEnd(rest, NUL, ';') == |rest|
    ensures var text := Quoted(a) + ([' '] + rest); TokenEnd(text, NUL, ';') == |text| && text[0] != ';'
  {
    QuotedPasses(a, [' '] + rest, ';');
    assert ([' '] + rest)[1..] == rest;
    hide Quoted;
    OneQuoted(a);
  }

  lemma OneCommand(argv: seq<string>)
    ensures var text := Joined(AllQuoted(argv)); Split(text, ';') == if text == [] then [] else [text]
  {
    NoSemicolon(argv);
    var text := Joined(AllQuoted(argv));
    hide Joined, AllQuoted, TokenEnd;
    if text != [] {
      assert Leading(text, ';') == 0 && text[0..] == text && text[0..|text|] == text;
      assert Separated(text, ';') == Some((text, []));
      assert Split([], ';') == [];
    }
  }

  /** A quoted argument does not start a redirection or a pipe. */
  lemma NoRedirection(s: string)
    requires s != []
    ensures Quoted(s)[0] != '|' && Quoted(s)[0] != '>' && Quoted(s)[0] != '<' && Quoted(s)[0] != '!'
  {
  }

  lemma {:induction false} CleanQuoted(s: string)
    requires NoNul(s)
    ensures NoNul(Quoted(s))
  {
    if s != [] {
      CleanQuoted(s[1..]);
    }
  }

  lemma {:induction false} CleanLine(argv: seq<string>)
    requires forall k :: 0 <= k < |argv| ==> NoNul(argv[k])
    ensures NoNul(Joined(AllQuoted(argv)))
    decreases |argv|
  {
    if argv != [] {
      CleanLine(argv[1..]);
      CleanQuoted(argv[0]);
      assert AllQuoted(argv)[1..] == AllQuoted(argv[1..]);
    }
  }

  lemma {:induction false} NonEmptyTwice(argv: seq<string>)
    ensures NonEmpty(NonEmpty(argv)) == NonEmpty(argv)
    ensures NonEmpty(AllQuoted(NonEmpty(argv))) == AllQuoted(NonEmpty(argv))
  {
    if argv != [] {
      NonEmptyTwice(argv[1..]);
      if argv[0] != [] {
        assert NonEmpty(argv)[1..] == NonEmpty(argv[1..]);
        assert AllQuoted(NonEmpty(argv))[1..] == AllQuoted(NonEmpty(argv[1..]));
      }
    }
  }

  // ----- splitting what was split and joined

  /** The quote that is open behind a text; None behind a backslash that escapes nothing. */
  function OpenAfter(s: string, open: char): Option<char> {
    if s == [] then Some(open)
    else if s[0] == '\\' then (if |s| == 1 then None else OpenAfter(s[2..], open))
    else OpenAfter(s[1..], QuoteAfter(open, s[0]))
  }

  /** A scan that passes a whole text goes on behind it. */
  lemma {:induction false} PassesInto(s: string, rest: string, open: char, delim: char)
    requires TokenEnd(s, open, delim) == |s| && OpenAfter(s, open).Some?
    ensures TokenEnd(s + rest, open, delim) == |s| + TokenEnd(rest, OpenAfter(s, open).value, delim)
    decreases |s|
  {
    var all := s + rest;
    if s == [] {
      assert all == rest;
    } else if s[0] == '\\' {
      PassesInto(s[2..], rest, open, delim);
      assert all[2..] == s[2..] + rest;
    } else {
      PassesInto(s[1..], rest, QuoteAfter(open, s[0]), delim);
      assert all[1..] == s[1..] + rest;
    }
  }

  /** And a scan that passes both has passed each. */
  lemma {:induction false} PassedBoth(s: string, rest: string, open: char, delim: char)
    requires TokenEnd(s + rest, open, delim) == |s + rest| && OpenAfter(s, open).Some?
    ensures TokenEnd(s, open, delim) == |s| && TokenEnd(rest, OpenAfter(s, open).value, delim) == |rest|
    decreases |s|
  {
    var all := s + rest;
    if s == [] {
      assert all == rest;
    } else if s[0] == '\\' {
      assert all[2..] == s[2..] + rest;
      PassedBoth(s[2..], rest, open, delim);
    } else {
      assert all[1..] == s[1..] + rest;
      PassedBoth(s[1..], rest, QuoteAfter(open, s[0]), delim);
    }
  }

  /** Where a token ends: all of it is passed, and in front of a delimiter no quote is open. */
  lemma {:induction false} TokenPassed(s: string, open: char, delim: char)
    requires delim != '\\' && delim != '"'
    ensures var n := TokenEnd(s, open, delim);
            && TokenEnd(s[..n], open, delim) == n
            && (n < |s| ==> s[n] == delim && OpenAfter(s[..n], open) == Some(NUL))
    decreases |s|
  {
    var n := TokenEnd(s, open, delim);
    if s == [] || n == 0 {
      assert s[..0] == [];
    } else if s[0] == '\\' {
      if |s| > 1 {
        TokenPassed(s[2..], open, delim);
        assert s[..n][2..] == s[2..][..n - 2];
      } else {
        assert s[..1] == s;
      }
    } else {
      TokenPassed(s[1..], QuoteAfter(open, s[0]), delim);
      assert s[..n][1..] == s[1..][..n - 1];
    }
  }

  /** A text of spaces and arguments that no semicolon cuts. */
  predicate OneLine(s: string) {
    TokenEnd(s, NUL, ';') == |s|
  }

  lemma {:induction false} TrimmedLine(s: string)
    requires OneLine(s)
    ensures OneLine(s[Leading(s, ' ')..])
    decreases |s|
  {
    var b := Leading(s, ' ');
    if b == 0 {
      assert s[0..] == s;
    } else {
      TrimmedLine(s[1..]);
      assert s[1..][b - 1..] == s[b..];
    }
  }

  /** The first argument of such a text, and the rest. */
  lemma LineParts(s: string)
    requires OneLine(s) && Separated(s, ' ').Some?
    ensures var (token, rest) := Separated(s, ' ').value;
            && IsToken(token) && OneLine(rest) && (rest != [] ==> OpenAfter(token, NUL) == Some(NUL))
  {
    hide TokenEnd, OpenAfter, Leading;
    var b := Leading(s, ' ');
    var u := s[b..];
    var n := TokenEnd(u, NUL, ' ');
    TrimmedLine(s);
    TokenPassed(u, NUL, ' ');
    Tails(s, b, n);
    if n < |u| {
      PassedBoth(u[..n], u[n..], NUL, ';');
      SpaceFirst(u[n..]);
    }
    TokenStarts(u, n);
  }

  lemma Tails(s: string, b: nat, n: nat)
    requires b + n <= |s|
    ensures var u := s[b..];
            && s[b..b + n] == u[..n] && u == u[..n] + u[n..]
            && if n < |u| then u[n..][0] == u[n] && u[n..][1..] == s[b + n + 1..] else u[..n] == u
  {
  }

  lemma TokenStarts(u: string, n: nat)
    requires u != [] && u[0] != ' ' && n == TokenEnd(u, NUL, ' ') && OneLine(u)
    ensures n > 0 && u[..n][0] != ' ' && u[..n][0] != ';'
  {
  }

  lemma SpaceFirst(s: string)
    requires s != [] && s[0] == ' '
    ensures OneLine(s) <==> OneLine(s[1..])
    ensures TokenEnd(s, NUL, ' ') == 0
  {
  }

  /** An argument as split_args finds it. */
  predicate IsToken(t: string) {
    t != [] && t[0] != ' ' && t[0] != ';' && TokenEnd(t, NUL, ' ') == |t| && OneLine(t)
  }

  lemma OnlyOne(t: string, delim: char)
    requires t != [] && t[0] != delim && TokenEnd(t, NUL, delim) == |t|
    ensures Split(t, delim) == [t]
  {
    assert Leading(t, delim) == 0 && t[0..] == t && t[0..|t|] == t;
    hide TokenEnd, Leading;
    Found(t, 0, |t|, delim);
    assert Split([], delim) == [];
  }

  lemma TokenInFront(t: string, rest: string)
    requires IsToken(t) && OpenAfter(t, NUL) == Some(NUL) && OneLine(rest)
    ensures var text := t + ([' '] + rest);
            OneLine(text) && text[0] == t[0] && Separated(text, ' ') == Some((t, rest))
  {
    var behind := [' '] + rest;
    var text := t + behind;
    assert behind[1..] == rest;
    SpaceFirst(behind);
    hide TokenEnd, OpenAfter;
    PassesInto(t, behind, NUL, ' ');
    PassesInto(t, behind, NUL, ';');
    assert Leading(text, ' ') == 0;
    hide Leading;
    assert text[0..] == text && text[0..|t|] == t && text[|t| + 1..] == rest;
    Found(text, 0, |t|, ' ');
  }

  /** Splitting, joining and splitting again changes nothing, and no semicolon appears. */
  lemma {:induction false} SplitAgain(s: string)
    requires OneLine(s)
    ensures var args := Split(s, ' ');
            && Split(Joined(args), ' ') == args == NonEmpty(args) && OneLine(Joined(args))
            && (args != [] ==> Joined(args) != [] && Joined(args)[0] != ';' && Joined(args)[0] != ' ')
    decreases |s|
  {
    hide TokenEnd, OpenAfter, Leading, Separated;
    if Separated(s, ' ').Some? {
      var (token, rest) := Separated(s, ' ').value;
      var args, more := Split(s, ' '), Split(rest, ' ');
      LineParts(s);
      SplitAgain(rest);
      assert args == [token] + more && args[1..] == more;
      if more == [] {
        JoinedOne(args);
        OnlyOne(token, ' ');
      } else {
        assert rest != [] by {
          SplitNothing();
        }
        JoinedMore(args);
        TokenInFront(token, Joined(more));
      }
    } else {
      EmptyLine();
    }
  }

  lemma EmptyLine()
    ensures OneLine([]) && Joined([]) == [] && Split([], ' ') == [] && NonEmpty([]) == []
  {
  }

  /** The second pass over a command sees the arguments that the first one found. */
  lemma SecondPass(e: string)
    requires OneLine(e)
    ensures var args := NonEmpty(Split(e, ' '));
            Commands(Split(Joined(args), ';')) == if args == [] then [] else [NonEmpty(AllDequoted(args))]
  {
    hide TokenEnd, NonEmpty, AllDequoted;
    SplitAgain(e);
    var args := Split(e, ' ');
    var line := Joined(args);
    if args == [] {
      NoCommand();
    } else {
      OnlyOne(line, ';');
      hide Split, Joined;
      OneCommandLine(line, args);
    }
  }

  lemma NoCommand()
    ensures Joined([]) == [] && Commands(Split([], ';')) == []
  {
  }

  lemma OneCommandLine(line: string, args: seq<string>)
    requires NonEmpty(Split(line, ' ')) == args != []
    ensures Commands([line]) == [NonEmpty(AllDequoted(args))]
  {
    hide Split, NonEmpty, AllDequoted;
    assert [line][1..] == [] && Commands([]) == [];
  }

  /** What strqsep cuts off at a semicolon holds no other. */
  lemma CommandIsOneLine(text: string)
    requires Separated(text, ';').Some?
    ensures OneLine(Separated(text, ';').value.0)
  {
    var b := Leading(text, ';');
    var n := TokenEnd(text[b..], NUL, ';');
    TokenPassed(text[b..], NUL, ';');
    assert text[b..][..n] == text[b..b + n];
    hide TokenEnd, Leading;
  }

  // ----- the code

  /** backslash_quote: the string with its special characters escaped; cnt of them. */
  method BackslashQuote(s: string) returns (result: string)
    ensures result == Quoted(s)
  {
    result := [];
    hide IsSpecial;
    for i := 0 to |s|
      invariant result + Quoted(s[i..]) == Quoted(s)
    {
      assert s[i..][1..] == s[i + 1..];
      ghost var rest := Quoted(s[i + 1..]);
      Associate(result, QuotedChar(s[i]), rest);
      ghost var before := result;
      if IsSpecial(s[i]) {
        result := result + ['\\'];
      }
      result := result + [s[i]];
      assert result == before + QuotedChar(s[i]);
    }
    assert s[|s|..] == [];
  }

  /** dequote_filename. */
  method DequoteFilename(text: string) returns (result: string)
    ensures result == Dequoted(text, NUL)
  {
    result := [];
    var next, at := NUL, 0;
    while at < |text|
      invariant next == NUL || next == '"' || next == '\''
      invariant at <= |text| && result + Dequoted(text[at..], next) == Dequoted(text, NUL)
    {
      ghost var before, rest, open := result, text[at..], next;
      if text[at] == '\\' {
        at := at + 1;
        if at == |text| {
          assert rest == ['\\'] && Dequoted(rest, next) == [];
          break;
        }
        assert rest[1] == text[at] && rest[2..] == text[at + 1..];
        result := result + [text[at]];
        assert before + ([text[at]] + Dequoted(rest[2..], next)) == result + Dequoted(rest[2..], next);
      } else {
        assert rest[1..] == text[at + 1..];
        if next != NUL && text[at] == next {
          next := NUL;
        } else if next == NUL && (text[at] == '\'' || text[at] == '"') {
          next := text[at];
        } else {
          result := result + [text[at]];
          assert before + ([text[at]] + Dequoted(rest[1..], next)) == result + Dequoted(rest[1..], next);
        }
      }
      at := at + 1;
    }
  }

  function Cut(s: string, i: nat, j: nat): (t: string)
    requires i <= j <= |s|
    ensures |t| == j - i
  {
    s[i..j]
  }

  /** A text being taken apart in its own buffer: `s` is the pointer strqsep moves. */
  class Splitter {
    const buf: array<char>
    var s: nat

    ghost predicate Valid()
      reads this, buf
    {
      s < buf.Length && buf[buf.Length - 1] == NUL && forall k :: s <= k < buf.Length - 1 ==> buf[k] != NUL
    }

    /** The text that is left. */
    ghost function Text(): string
      requires Valid()
      reads this, buf
    {
      Cut(buf[..], s, buf.Length - 1)
    }

    constructor (text: string)
      requires NoNul(text)
      ensures Valid() && fresh(buf) && Text() == text
    {
      buf := new char[|text| + 1](i => if 0 <= i < |text| then text[i] else NUL);
      s := 0;
      new;
      assert buf[..][..|text|] == text;
    }

    /** The string at a place in the buffer, as strdup copies it. */
    method StrDup(at: nat) returns (t: string)
      requires at < buf.Length && buf[buf.Length - 1] == NUL
      ensures t == Visible(buf[at..])
    {
      var n := at;
      while buf[n] != NUL
        invariant at <= n < buf.Length && forall k :: at <= k < n ==> buf[k] != NUL
        decreases buf.Length - n
      {
        n := n + 1;
      }
      VisibleIs(buf[at..], n - at);
      assert buf[at..][..n - at] == buf[at..n];
      t := buf[at..n];
    }

    /** strqsep: where the next token starts; it is ended by a NUL written over its delimiter. */
    method StrQSep(delim: char) returns (b: Option<nat>)
      requires Valid() && delim != NUL
      modifies this`s, buf
      ensures Valid()
      ensures match Separated(old(Text()), delim)
              case None => b == None && Text() == old(Text())
              case Some((token, rest)) =>
                && b.Some? && old(s) <= b.value < buf.Length
                && Visible(buf[b.value..]) == token && Text() == rest
    {
      hide TokenEnd, Leading, Separated, Visible, Cut;
      var first := SkipDelimiters(delim);
      if buf[first] == NUL {
        NotFound(Text(), delim);
        return None;
      }
      var e := Scan(first, delim);
      TokenFound(first, e, delim);
      EndToken(first, e);
      b := Some(first);
    }

    lemma TokenFound(first: nat, e: nat, delim: char)
      requires Valid() && s <= first <= e < buf.Length && first < buf.Length - 1
      requires first - s == Leading(Text(), delim)
      requires e - first == TokenEnd(Cut(buf[..], first, buf.Length - 1), NUL, delim)
      ensures var end := buf.Length - 1;
              Separated(Text(), delim)
                  == Some((Cut(buf[..], first, e), Cut(buf[..], if e < end then e + 1 else e, end)))
    {
      hide TokenEnd, Leading, Cut, Separated;
      var end := buf.Length - 1;
      CutOfCut(buf[..], s, end, first - s, end - s);
      CutOfCut(buf[..], s, end, first - s, e - s);
      if e < end {
        CutOfCut(buf[..], s, end, e + 1 - s, end - s);
      } else {
        NothingCut(buf[..], end);
      }
      FoundCut(Text(), first - s, e - s, delim);
    }

    /** The token gets its NUL, the pointer moves behind it. */
    method EndToken(first: nat, e: nat)
      requires Valid() && s <= first <= e < buf.Length
      modifies this`s, buf
      ensures Valid() && old(s) <= s && Visible(buf[first..]) == Cut(old(buf[..]), first, e)
      ensures Text() == Cut(old(buf[..]), if e < buf.Length - 1 then e + 1 else e, buf.Length - 1)
    {
      ghost var was, end := buf[..], buf.Length - 1;
      s := if buf[e] != NUL then e + 1 else e;
      buf[e] := NUL;
      assert buf[..][first..e] == was[first..e];
      IsString(buf[..], first, e);
      assert buf[..][first..] == buf[first..];
      assert buf[..][s..end] == was[s..end];
    }

    /** The delimiters in front of the token. */
    method SkipDelimiters(delim: char) returns (e: nat)
      requires Valid() && delim != NUL
      ensures s <= e < buf.Length && e - s == Leading(Text(), delim)
    {
      ghost var end := buf.Length - 1;
      hide Leading, Cut;
      e := s;
      while buf[e] != NUL && buf[e] == delim
        invariant s <= e <= end && Leading(Text(), delim) == e - s + Leading(Cut(buf[..], e, end), delim)
        decreases end - e
      {
        LeadingAt(buf[..], e, end, delim);
        e := e + 1;
      }
      LeadingAt(buf[..], e, end, delim);
    }

    /** The quotes of strqsep. */
    method Toggle(inside: bool, open: char, c: char) returns (inQuote: bool, quote: char)
      requires inside ==> open == '"' || open == '\''
      ensures inQuote ==> quote == '"' || quote == '\''
      ensures (if inQuote then quote else NUL) == QuoteAfter(if inside then open else NUL, c)
    {
      inQuote, quote := inside, open;
      if c == '"' {
        if inQuote {
          if quote == '"' {
            inQuote := false;
          }
        } else {
          inQuote, quote := true, '"';
        }
      }
      if c == '\'' {
        if inQuote {
          if quote == '\'' {
            inQuote := false;
          }
        } else {
          inQuote, quote := true, '\'';
        }
      }
    }

    /** The loop of strqsep: to the end of the token. */
    method Scan(from: nat, delim: char) returns (e: nat)
      requires Valid() && s <= from < buf.Length && delim != NUL
      ensures from <= e < buf.Length && e - from == TokenEnd(Cut(buf[..], from, buf.Length - 1), NUL, delim)
    {
      ghost var text, end := buf[..], buf.Length - 1;
      hide TokenEnd, Cut, QuoteAfter, ScanAt;
      e := from;
      var inQuote, quote := false, '?';
      ghost var open := NUL;
      ScanStarts(text, from, end, delim);
      while buf[e] != NUL
        invariant from <= e <= end && (inQuote ==> quote == '"' || quote == '\'')
        invariant open == if inQuote then quote else NUL
        invariant ScanAt(text, from, e, end, open, delim)
        decreases end - e
      {
        ScanTurn(text, from, e, end, open, delim);
        if buf[e] == '\\' {
          e := e + 1;
          if buf[e] == NUL {
            return;
          }
          e := e + 1;
          continue;
        }
        open := QuoteAfter(open, buf[e]);
        inQuote, quote := Toggle(inQuote, quote, buf[e]);
        if buf[e] != '\'' && buf[e] == delim && !inQuote {
          return;
        }
        e := e + 1;
      }
      ScanEnds(text, from, end, open, delim);
    }
  }

  lemma LeadingAt(buf: string, e: nat, end: nat, delim: char)
    requires e <= end <= |buf|
    ensures Leading(Cut(buf, e, end), delim)
              == if e < end && buf[e] == delim then 1 + Leading(Cut(buf, e + 1, end), delim) else 0
  {
    assert e < end ==> buf[e..end][1..] == buf[e + 1..end];
  }

  /** The token goes at least to e, and ends where a scan from there ends. */
  predicate ScanAt(buf: string, from: nat, e: nat, end: nat, open: char, delim: char)
    requires from <= e <= end <= |buf|
  {
    TokenEnd(Cut(buf, from, end), NUL, delim) == e - from + TokenEnd(Cut(buf, e, end), open, delim)
  }

  lemma ScanStarts(buf: string, from: nat, end: nat, delim: char)
    requires from <= end <= |buf|
    ensures ScanAt(buf, from, from, end, NUL, delim)
  {
  }

  lemma ScanEnds(buf: string, from: nat, end: nat, open: char, delim: char)
    requires from <= end <= |buf| && ScanAt(buf, from, end, end, open, delim)
    ensures TokenEnd(Cut(buf, from, end), NUL, delim) == end - from
  {
  }

  /** One turn of the loop, at e. */
  lemma ScanTurn(buf: string, from: nat, e: nat, end: nat, open: char, delim: char)
    requires from <= e < end <= |buf| && ScanAt(buf, from, e, end, open, delim)
    ensures var n, after := TokenEnd(Cut(buf, from, end), NUL, delim), QuoteAfter(open, buf[e]);
            if buf[e] == '\\' && e + 1 == end then n == end - from
            else if buf[e] == '\\' then ScanAt(buf, from, e + 2, end, open, delim)
            else if buf[e] != '\'' && buf[e] == delim && after == NUL then n == e - from
            else ScanAt(buf, from, e + 1, end, after, delim)
  {
    var s := buf[e..end];
    assert s[1..] == buf[e + 1..end] && (|s| > 1 ==> s[2..] == buf[e + 2..end]);
  }

  lemma NotFound(text: string, delim: char)
    requires Leading(text, delim) == |text|
    ensures Separated(text, delim) == None
  {
  }

  lemma CutOfCut(s: string, i: nat, j: nat, a: nat, b: nat)
    requires i <= j <= |s| && a <= b <= j - i
    ensures Cut(Cut(s, i, j), a, b) == Cut(s, i + a, i + b)
  {
    var t := s[i..j];
    assert forall k :: 0 <= k < b - a ==> t[a..b][k] == t[a + k] == s[i + a + k] == s[i + a..i + b][k];
  }

  lemma NothingCut(s: string, i: nat)
    requires i <= |s|
    ensures Cut(s, i, i) == []
  {
  }

  lemma FoundCut(text: string, b: nat, e: nat, delim: char)
    requires b <= e <= |text| && b < |text| && Leading(text, delim) == b
    requires e - b == TokenEnd(Cut(text, b, |text|), NUL, delim)
    ensures Separated(text, delim) == Some((Cut(text, b, e), if e < |text| then Cut(text, e + 1, |text|) else []))
  {
    hide Leading, TokenEnd;
    assert text[b..|text|] == text[b..] && (e < |text| ==> text[e + 1..|text|] == text[e + 1..]);
  }

  lemma IsString(buf: string, first: nat, e: nat)
    requires first <= e < |buf| && buf[e] == NUL && NoNul(buf[first..e])
    ensures Visible(buf[first..]) == buf[first..e]
  {
    var t := buf[first..];
    assert forall k :: 0 <= k < e - first ==> t[k] == buf[first..e][k];
    VisibleIs(t, e - first);
    assert t[..e - first] == buf[first..e];
  }

  /** split_args. */
  method SplitArgs(str: string) returns (argv: seq<string>)
    requires NoNul(str)
    ensures argv == Split(str, ' ')
  {
    hide Separated, Visible, Cut;
    var c := new Splitter(str);
    argv := [];
    while true
      invariant c.Valid() && fresh(c.buf) && argv + Split(c.Text(), ' ') == Split(str, ' ')
      decreases |c.Text()|
    {
      ghost var before := argv;
      var b := c.StrQSep(' ');
      if b == None {
        assert argv + [] == argv;
        return;
      }
      var token := c.StrDup(b.value);
      argv := argv + [token];
      Associate(before, [token], Split(c.Text(), ' '));
    }
  }

  /** args_cat. */
  method ArgsCat(argv: seq<string>) returns (e: string)
    ensures e == Joined(argv)
  {
    e := [];
    for i := 0 to |argv|
      invariant e + Joined(argv[i..]) == Joined(argv)
    {
      ghost var before, rest := e, argv[i..];
      e := e + argv[i];
      assert rest[1..] == argv[i + 1..];
      if i + 1 < |argv| {
        e := e + " ";
        assert before + (argv[i] + " " + Joined(argv[i + 1..])) == e + Joined(argv[i + 1..]);
      } else {
        assert argv[i + 1..] == [];
        assert before + argv[i] == e + [];
      }
    }
    assert argv[|argv|..] == [];
  }

  lemma SplitNothing()
    ensures Split([], ' ') == [] && AllQuoted([]) == [] && NonEmpty([]) == []
  {
  }

  lemma Removed(was: seq<string>, now: seq<string>, first: nat, n: nat)
    requires first <= |was| && |now| == if first + n < |was| then |was| - n else first
    requires forall k :: 0 <= k < |now| ==> now[k] == was[if k < first then k else k + n]
    ensures now == if first + n >= |was| then was[..first] else was[..first] + was[first + n..]
  {
  }

  class Args {
    var argv: seq<string>

    constructor ()
      ensures argv == []
    {
      argv := [];
    }

    /** args_push_back. */
    method PushBack(str: string)
      requires NoNul(str)
      modifies this
      ensures argv == old(argv) + Split(str, ' ')
    {
      var more := SplitArgs(str);
      argv := argv + more;
    }

    /** args_unquote. */
    method Unquote()
      modifies this
      ensures argv == AllDequoted(old(argv))
    {
      for i := 0 to |argv|
        invariant |argv| == |old(argv)| && argv[i..] == old(argv)[i..]
        invariant argv[..i] + AllDequoted(old(argv)[i..]) == AllDequoted(old(argv))
      {
        ghost var was, rest := argv[..i], old(argv)[i..];
        hide Dequoted;
        assert rest[0] == argv[i] && rest[1..] == old(argv)[i + 1..];
        var dq := DequoteFilename(argv[i]);
        argv := argv[i := dq];
        assert argv[..i + 1] == was + [dq];
        Associate(was, [dq], AllDequoted(rest[1..]));
      }
      assert argv[..|argv|] == argv;
    }

    /** args_del. */
    method Del(first: nat, n: nat)
      modifies this
      ensures argv == if first >= |old(argv)| then old(argv)
                      else if first + n >= |old(argv)| then old(argv)[..first]
                      else old(argv)[..first] + old(argv)[first + n..]
    {
      ghost var was := argv;
      if first >= |argv| {
        return;
      }
      var deleted := if first + n <= |argv| then n else |argv| - first;
      var i := first + n;
      while i < |argv|
        invariant |argv| == |was| && (first + n <= |was| ==> i <= |was|) && first + n <= i
        invariant forall k :: 0 <= k < first ==> argv[k] == was[k]
        invariant forall k :: first <= k < i - n && k < |was| ==> k + n < |was| && argv[k] == was[k + n]
        invariant forall k :: i <= k < |was| ==> argv[k] == was[k]
      {
        argv := argv[i - n := argv[i]];
        i := i + 1;
      }
      argv := argv[..|argv| - deleted];
      Removed(was, argv, first, n);
    }

    /** args_remove_empty. */
    method RemoveEmpty()
      modifies this
      ensures argv == NonEmpty(old(argv))
    {
      var i := 0;
      assert argv[..0] == [] && argv[0..] == argv;
      while i < |argv|
        invariant i <= |argv| && argv[..i] + NonEmpty(argv[i..]) == NonEmpty(old(argv))
        decreases |argv| - i
      {
        ghost var front, rest := argv[..i], argv[i..];
        assert rest[0] == argv[i];
        if argv[i] == [] {
          Del(i, 1);
          assert argv[..i] == front && argv[i..] == rest[1..];
        } else {
          i := i + 1;
          assert argv[..i] == front + [rest[0]] && argv[i..] == rest[1..];
          Associate(front, [rest[0]], NonEmpty(rest[1..]));
        }
      }
      assert argv[..i] == argv && argv[i..] == [];
    }
  }

  /** The argument lists that the commands of a line come to; what is empty is dropped. */
  function Commands(lines: seq<string>): seq<seq<string>> {
    if lines == [] then []
    else
      var args := NonEmpty(Split(lines[0], ' '));
      if args == [] then Commands(lines[1..]) else [NonEmpty(AllDequoted(args))] + Commands(lines[1..])
  }

  /** Arguments that were quoted and joined are one command again, with all that are not empty. */
  lemma QuotedLine(arguments: seq<string>)
    ensures Commands(Split(Joined(AllQuoted(arguments)), ';'))
              == if NonEmpty(arguments) == [] then [] else [NonEmpty(arguments)]
  {
    var line, rest := Joined(AllQuoted(arguments)), NonEmpty(arguments);
    OneCommand(arguments);
    SplitQuoted(arguments);
    NonEmptyTwice(arguments);
    DequoteAll(rest);
    assert Commands([]) == [];
    assert [line][1..] == [];
    assert rest != [] ==> AllQuoted(rest) != [];
    assert rest == [] ==> AllQuoted(rest) == [];
    assert line == [] ==> rest == [] by {
      SplitNothing();
    }
    hide NonEmpty, Split, Joined, AllQuoted, AllDequoted;
    assert Commands([line]) == (if rest == [] then [] else [rest] + []);
  }

  /** backslash_quote on every argument, then args_cat. */
  method WriteLine(arguments: seq<string>) returns (line: string)
    ensures line == Joined(AllQuoted(arguments))
  {
    var quoted := [];
    for i := 0 to |arguments|
      invariant quoted + AllQuoted(arguments[i..]) == AllQuoted(arguments)
    {
      ghost var before, rest := quoted, arguments[i..];
      assert rest[1..] == arguments[i + 1..];
      var q := BackslashQuote(arguments[i]);
      quoted := quoted + [q];
      assert before + ([q] + AllQuoted(rest[1..])) == quoted + AllQuoted(rest[1..]);
    }
    assert arguments[|arguments|..] == [] && quoted + [] == quoted;
    line := ArgsCat(quoted);
  }

  lemma {:induction false} CleanAgain(s: string)
    requires NoNul(s)
    ensures NoNul(Joined(NonEmpty(Split(s, ' '))))
    decreases |s|
  {
    hide TokenEnd, Leading, Separated;
    if Separated(s, ' ').Some? {
      var (token, rest) := Separated(s, ' ').value;
      CleanParts(s);
      CleanAgain(rest);
    }
  }

  lemma CleanParts(s: string)
    requires NoNul(s) && Separated(s, ' ').Some?
    ensures NoNul(Separated(s, ' ').value.0) && NoNul(Separated(s, ' ').value.1)
  {
  }

  lemma OneMoreCommand(done: seq<seq<string>>, args: seq<string>, later: seq<seq<string>>)
    ensures done + ([args] + later) == (done + [args]) + later
  {
  }

  /** exe_cmdline and exe_cmd, up to the call of the command.  The first pass, in which aliases are
      expanded, splits every command, joins its arguments and hands them to the second. */
  method ExecuteLine(str: string, aliasesAreExpanded: bool) returns (commands: seq<seq<string>>)
    requires NoNul(str)
    ensures commands == Commands(Split(str, ';'))
    decreases !aliasesAreExpanded
  {
    hide Separated, Visible, AllDequoted, NonEmpty, OneLine, Joined;
    commands := [];
    var c := new Splitter(str);
    while true
      invariant c.Valid() && fresh(c.buf)
      invariant commands + Commands(Split(c.Text(), ';')) == Commands(Split(str, ';'))
      decreases |c.Text()|
    {
      ghost var text, lines := c.Text(), Split(c.Text(), ';');
      var b := c.StrQSep(';');
      if b == None {
        assert commands + [] == commands;
        return;
      }
      var e := c.StrDup(b.value);
      assert lines[0] == e && lines[1..] == Split(c.Text(), ';');
      CommandIsOneLine(text);
      var args := new Args();
      args.PushBack(e);
      args.RemoveEmpty();
      assert args.argv == NonEmpty(Split(e, ' ')) by {
        assert [] + Split(e, ' ') == Split(e, ' ');
      }
      if args.argv != [] {
        ghost var later := Commands(lines[1..]);
        if aliasesAreExpanded {
          args.Unquote();
          args.RemoveEmpty();
          OneMoreCommand(commands, args.argv, later);
          commands := commands + [args.argv];
        } else {
          SecondPass(e);
          CleanAgain(e);
          var xstr := ArgsCat(args.argv);
          var once := ExecuteLine(xstr, true);
          OneMoreCommand(commands, once[0], later);
          commands := commands + once;
        }
      }
    }
  }

  /** Arguments written on a line by one who quotes them, and taken off it by one who executes it. */
  method ThereAndBack(arguments: seq<string>) returns (commands: seq<seq<string>>)
    requires forall k :: 0 <= k < |arguments| ==> NoNul(arguments[k])
    ensures commands == if NonEmpty(arguments) == [] then [] else [NonEmpty(arguments)]
  {
    var line := WriteLine(arguments);
    CleanLine(arguments);
    QuotedLine(arguments);
    hide Commands, Split, Joined, AllQuoted, NonEmpty;
    commands := ExecuteLine(line, false);
  }
}
