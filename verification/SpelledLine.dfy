/**
 Command lines as they are written: words of plain characters, escaped characters and quoted
 stretches, with blanks between them, in commands with semicolons between them.  Said without the
 scanners of CommandLine, what such a line comes to.
 */
module SpelledLine {
  import opened CString
  import opened Sequences
  import opened CommandLine

  /** Inside quotes: a character as it stands, or behind a backslash. */
  datatype Inner = Lit(c: char) | Esc(c: char)

  datatype Part = Bare(c: char) | Backslash(c: char) | Quotes(mark: char, inside: seq<Inner>)

  /** A word and the number of blanks behind it. */
  datatype Spaced = Spaced(word: seq<Part>, behind: nat)

  /** The blanks in front, and the words. */
  datatype Command = Command(lead: nat, words: seq<Spaced>)

  function InnerText(i: Inner): string {
    if i.Lit? then [i.c] else ['\\', i.c]
  }

  function InsideText(inside: seq<Inner>): string {
    if inside == [] then [] else InnerText(inside[0]) + InsideText(inside[1..])
  }

  function InsideValue(inside: seq<Inner>): string {
    if inside == [] then [] else [inside[0].c] + InsideValue(inside[1..])
  }

  function PartText(p: Part): (t: string)
    ensures t != []
  {
    match p
    case Bare(c) => [c]
    case Backslash(c) => ['\\', c]
    case Quotes(mark, inside) => [mark] + (InsideText(inside) + [mark])
  }

  function PartValue(p: Part): string {
    match p
    case Bare(c) => [c]
    case Backslash(c) => [c]
    case Quotes(_, inside) => InsideValue(inside)
  }

  function WordText(word: seq<Part>): (t: string)
    ensures word != [] ==> t != []
  {
    if word == [] then [] else PartText(word[0]) + WordText(word[1..])
  }

  /** What a word stands for. */
  function WordValue(word: seq<Part>): string {
    if word == [] then [] else PartValue(word[0]) + WordValue(word[1..])
  }

  predicate InsideOk(inside: seq<Inner>, mark: char) {
    forall k :: 0 <= k < |inside| ==> inside[k].Lit? ==> inside[k].c != mark && inside[k].c != '\\'
  }

  predicate PartOk(p: Part) {
    match p
    case Bare(c) => c != ' ' && c != ';' && c != '"' && c != '\'' && c != '\\'
    case Backslash(c) => true
    case Quotes(mark, inside) => (mark == '"' || mark == '\'') && InsideOk(inside, mark)
  }

  predicate WordOk(word: seq<Part>) {
    forall k :: 0 <= k < |word| ==> PartOk(word[k])
  }

  /** Words hold something, and blanks stand between them. */
  predicate WordsOk(words: seq<Spaced>) {
    && (forall k :: 0 <= k < |words| ==> words[k].word != [] && WordOk(words[k].word))
    && forall k :: 0 <= k < |words| - 1 ==> words[k].behind > 0
  }

  function Spaces(n: nat): (s: string)
    ensures |s| == n
  {
    if n == 0 then [] else [' '] + Spaces(n - 1)
  }

  function WordsText(words: seq<Spaced>): string {
    if words == [] then [] else WordText(words[0].word) + (Spaces(words[0].behind) + WordsText(words[1..]))
  }

  function CommandText(c: Command): string {
    Spaces(c.lead) + WordsText(c.words)
  }

  function LineText(cs: seq<Command>): string {
    if cs == [] then [] else CommandText(cs[0]) + ([';'] + LineText(cs[1..]))
  }

  function Texts(words: seq<Spaced>): (ts: seq<string>)
    ensures |ts| == |words|
  {
    if words == [] then [] else [WordText(words[0].word)] + Texts(words[1..])
  }

  function Values(words: seq<Spaced>): (vs: seq<string>)
    ensures |vs| == |words|
  {
    if words == [] then [] else [WordValue(words[0].word)] + Values(words[1..])
  }

  /** What a line comes to: the values of the words, command by command; a command without words is none. */
  function LineValue(cs: seq<Command>): seq<seq<string>> {
    if cs == [] then []
    else (if cs[0].words == [] then [] else [NonEmpty(Values(cs[0].words))]) + LineValue(cs[1..])
  }

  predicate LineOk(cs: seq<Command>) {
    forall k :: 0 <= k < |cs| ==> WordsOk(cs[k].words)
  }

  // ----- one character

  lemma TokenStep(c: char, tail: string, open: char, delim: char)
    requires c != '\\'
    ensures TokenEnd([c] + tail, open, delim) ==
              if c != '\'' && c == delim && QuoteAfter(open, c) == NUL then 0
              else 1 + TokenEnd(tail, QuoteAfter(open, c), delim)
  {
    assert ([c] + tail)[1..] == tail;
  }

  lemma TokenEscape(c: char, tail: string, open: char, delim: char)
    ensures TokenEnd(['\\', c] + tail, open, delim) == 2 + TokenEnd(tail, open, delim)
  {
    assert (['\\', c] + tail)[2..] == tail;
  }

  lemma DequoteStep(c: char, tail: string, open: char)
    requires c != '\\'
    ensures Dequoted([c] + tail, open) ==
              if QuoteAfter(open, c) != open then Dequoted(tail, QuoteAfter(open, c)) else [c] + Dequoted(tail, open)
  {
    assert ([c] + tail)[1..] == tail;
  }

  lemma DequoteEscape(c: char, tail: string, open: char)
    ensures Dequoted(['\\', c] + tail, open) == [c] + Dequoted(tail, open)
  {
    assert (['\\', c] + tail)[2..] == tail;
  }

  /** Inside a quote only its own mark ends it. */
  lemma QuoteKept(mark: char, c: char)
    requires mark == '"' || mark == '\''
    ensures c != mark ==> QuoteAfter(mark, c) == mark
    ensures QuoteAfter(mark, mark) == NUL && QuoteAfter(NUL, mark) == mark
  {
  }

  // ----- words are passed

  lemma {:induction false} InsidePasses(inside: seq<Inner>, mark: char, rest: string, delim: char)
    requires (mark == '"' || mark == '\'') && InsideOk(inside, mark)
    ensures TokenEnd(InsideText(inside) + rest, mark, delim)
              == |InsideText(inside)| + TokenEnd(rest, mark, delim)
    ensures Dequoted(InsideText(inside) + rest, mark) == InsideValue(inside) + Dequoted(rest, mark)
  {
    if inside == [] {
      assert InsideText(inside) + rest == rest;
    } else {
      var i, tail := inside[0], InsideText(inside[1..]) + rest;
      InsidePasses(inside[1..], mark, rest, delim);
      hide TokenEnd, Dequoted, QuoteAfter;
      Associate(InnerText(i), InsideText(inside[1..]), rest);
      Associate([i.c], InsideValue(inside[1..]), Dequoted(rest, mark));
      QuoteKept(mark, i.c);
      if i.Lit? {
        TokenStep(i.c, tail, mark, delim);
        DequoteStep(i.c, tail, mark);
      } else {
        TokenEscape(i.c, tail, mark, delim);
        DequoteEscape(i.c, tail, mark);
      }
    }
  }

  predicate Delimits(delim: char) {
    delim == ' ' || delim == ';'
  }

  lemma PartPasses(p: Part, rest: string, delim: char)
    requires PartOk(p) && Delimits(delim)
    ensures TokenEnd(PartText(p) + rest, NUL, delim) == |PartText(p)| + TokenEnd(rest, NUL, delim)
    ensures Dequoted(PartText(p) + rest, NUL) == PartValue(p) + Dequoted(rest, NUL)
  {
    hide TokenEnd, Dequoted;
    match p {
      case Bare(c) =>
        TokenStep(c, rest, NUL, delim);
        DequoteStep(c, rest, NUL);
      case Backslash(c) =>
        TokenEscape(c, rest, NUL, delim);
        DequoteEscape(c, rest, NUL);
      case Quotes(mark, inside) =>
        QuotesPass(mark, inside, rest, delim);
    }
  }

  lemma QuotesPass(mark: char, inside: seq<Inner>, rest: string, delim: char)
    requires (mark == '"' || mark == '\'') && InsideOk(inside, mark) && Delimits(delim)
    ensures var t := [mark] + (InsideText(inside) + [mark]);
            && TokenEnd(t + rest, NUL, delim) == |t| + TokenEnd(rest, NUL, delim)
            && Dequoted(t + rest, NUL) == InsideValue(inside) + Dequoted(rest, NUL)
  {
    hide TokenEnd, Dequoted, QuoteAfter, InsideText;
    var text := InsideText(inside);
    QuoteKept(mark, mark);
    QuotesTogether(mark, text, rest);
    TokenStep(mark, text + ([mark] + rest), NUL, delim);
    DequoteStep(mark, text + ([mark] + rest), NUL);
    InsidePasses(inside, mark, [mark] + rest, delim);
    TokenStep(mark, rest, mark, delim);
    DequoteStep(mark, rest, mark);
  }

  lemma QuotesTogether(mark: char, text: string, rest: string)
    ensures [mark] + (text + [mark]) + rest == [mark] + (text + ([mark] + rest))
  {
  }

  /** A word is passed whole, and unquoting gives what it stands for. */
  lemma {:induction false} WordPasses(word: seq<Part>, rest: string, delim: char)
    requires WordOk(word) && Delimits(delim)
    ensures TokenEnd(WordText(word) + rest, NUL, delim) == |WordText(word)| + TokenEnd(rest, NUL, delim)
    ensures Dequoted(WordText(word) + rest, NUL) == WordValue(word) + Dequoted(rest, NUL)
  {
    if word == [] {
      assert WordText(word) + rest == rest;
    } else {
      hide TokenEnd, Dequoted, PartText, PartValue, PartOk;
      var behind := WordText(word[1..]);
      WordPasses(word[1..], rest, delim);
      PartPasses(word[0], behind + rest, delim);
      Associate(PartText(word[0]), behind, rest);
      Associate(PartValue(word[0]), WordValue(word[1..]), Dequoted(rest, NUL));
    }
  }

  lemma WordMeans(word: seq<Part>)
    requires WordOk(word)
    ensures Dequoted(WordText(word), NUL) == WordValue(word)
  {
    WordPasses(word, [], ' ');
    assert WordText(word) + [] == WordText(word) && WordValue(word) + [] == WordValue(word);
    assert Dequoted([], NUL) == [];
    hide Dequoted, WordText, WordValue;
  }

  /** A word starts with no blank and no semicolon. */
  lemma WordStarts(word: seq<Part>, rest: string)
    requires WordOk(word) && word != []
    ensures WordText(word) != [] && (WordText(word) + rest)[0] != ' ' && (WordText(word) + rest)[0] != ';'
  {
    assert PartOk(word[0]);
    assert (WordText(word) + rest)[0] == PartText(word[0])[0];
    hide WordText;
  }

  // ----- a command is split into its words

  lemma {:induction false} SkipSpaces(n: nat, text: string)
    ensures Split(Spaces(n) + text, ' ') == Split(text, ' ')
  {
    if n == 0 {
      assert Spaces(n) + text == text;
    } else {
      SkipSpaces(n - 1, text);
      SkipDelimiter(Spaces(n - 1) + text, ' ');
      hide Split;
      Associate([' '], Spaces(n - 1), text);
    }
  }

  /** The first word is the first token. */
  lemma WordFirst(word: seq<Part>, behind: nat, rest: string)
    requires WordOk(word) && word != [] && (behind == 0 ==> rest == [])
    ensures Split(WordText(word) + (Spaces(behind) + rest), ' ') == [WordText(word)] + Split(rest, ' ')
  {
    hide TokenEnd, Leading, WordText, Spaces, WordOk, Split, Separated, Dequoted, WordValue;
    var w, tail := WordText(word), Spaces(behind) + rest;
    WordPasses(word, tail, ' ');
    WordStarts(word, tail);
    LeadingNone(w + tail, ' ');
    AtSpaces(behind, rest);
    WordCut(w, tail);
    Found(w + tail, 0, |w|, ' ');
    SplitFirst(w + tail);
    if behind > 0 {
      SkipSpaces(behind - 1, rest);
    }
  }

  lemma WordCut(w: string, tail: string)
    ensures var text := w + tail;
            && text[0..] == text && text[0..|w|] == w
            && (tail != [] ==> |w| < |text| && text[|w| + 1..] == tail[1..]) && (tail == [] ==> |w| == |text|)
  {
  }

  lemma LeadingNone(text: string, delim: char)
    requires text != [] && text[0] != delim
    ensures Leading(text, delim) == 0
  {
  }

  lemma AtSpaces(n: nat, rest: string)
    requires n == 0 ==> rest == []
    ensures var tail := Spaces(n) + rest;
            TokenEnd(tail, NUL, ' ') == 0 && (n == 0 ==> tail == []) && (n > 0 ==> tail[1..] == Spaces(n - 1) + rest)
  {
  }

  lemma SplitFirst(text: string)
    requires Separated(text, ' ').Some?
    ensures Split(text, ' ') == [Separated(text, ' ').value.0] + Split(Separated(text, ' ').value.1, ' ')
  {
    hide Separated;
  }

  lemma {:induction false} SplitWords(words: seq<Spaced>)
    requires WordsOk(words)
    ensures Split(WordsText(words), ' ') == Texts(words)
  {
    if words == [] {
      SplitNothing();
    } else {
      var rest := WordsText(words[1..]);
      WordsBehind(words);
      SplitWords(words[1..]);
      hide Split, WordText, Spaces, WordsOk;
      WordFirst(words[0].word, words[0].behind, rest);
    }
  }

  lemma WordsBehind(words: seq<Spaced>)
    requires words != [] && WordsOk(words)
    ensures WordsOk(words[1..]) && WordOk(words[0].word) && words[0].word != []
    ensures words[0].behind == 0 ==> WordsText(words[1..]) == []
  {
    hide WordOk;
    assert |words| == 1 ==> words[1..] == [];
  }

  lemma {:induction false} WordsMean(words: seq<Spaced>)
    requires WordsOk(words)
    ensures AllDequoted(Texts(words)) == Values(words) && NonEmpty(Texts(words)) == Texts(words)
  {
    if words != [] {
      WordsBehind(words);
      WordsMean(words[1..]);
      WordMeans(words[0].word);
      hide WordText, WordValue, Dequoted, WordsOk, WordOk;
      assert Texts(words)[1..] == Texts(words[1..]);
      WordTextIs(words[0].word);
    }
  }

  lemma WordTextIs(word: seq<Part>)
    requires word != []
    ensures WordText(word) != []
  {
  }

  // ----- a line is cut at its semicolons

  lemma {:induction false} SpacesPass(n: nat, rest: string)
    ensures TokenEnd(Spaces(n) + rest, NUL, ';') == n + TokenEnd(rest, NUL, ';')
  {
    if n == 0 {
      assert Spaces(n) + rest == rest;
    } else {
      SpacesPass(n - 1, rest);
      TokenStep(' ', Spaces(n - 1) + rest, NUL, ';');
      hide TokenEnd;
      Associate([' '], Spaces(n - 1), rest);
    }
  }

  lemma {:induction false} WordsPass(words: seq<Spaced>, rest: string)
    requires WordsOk(words)
    ensures TokenEnd(WordsText(words) + rest, NUL, ';') == |WordsText(words)| + TokenEnd(rest, NUL, ';')
  {
    if words == [] {
      assert WordsText(words) + rest == rest;
    } else {
      hide TokenEnd, WordText, Spaces, WordsOk;
      var w, s, behind := WordText(words[0].word), Spaces(words[0].behind), WordsText(words[1..]);
      WordsBehind(words);
      WordsPass(words[1..], rest);
      SpacesPass(words[0].behind, behind + rest);
      WordPasses(words[0].word, s + (behind + rest), ';');
      FourParts(w, s, behind, rest);
    }
  }

  lemma FourParts(a: string, b: string, c: string, d: string)
    ensures a + (b + c) + d == a + (b + (c + d))
  {
  }

  lemma CommandPasses(c: Command, rest: string)
    requires WordsOk(c.words)
    ensures TokenEnd(CommandText(c) + rest, NUL, ';') == |CommandText(c)| + TokenEnd(rest, NUL, ';')
  {
    hide TokenEnd, WordsText, Spaces, WordsOk;
    Associate(Spaces(c.lead), WordsText(c.words), rest);
    WordsPass(c.words, rest);
    SpacesPass(c.lead, WordsText(c.words) + rest);
  }

  /** The first command of a line. */
  lemma CommandFirst(c: Command, rest: string)
    requires WordsOk(c.words)
    ensures Split(CommandText(c) + ([';'] + rest), ';')
              == (if CommandText(c) == [] then [] else [CommandText(c)]) + Split(rest, ';')
  {
    var t, behind := CommandText(c), [';'] + rest;
    var text := t + behind;
    CommandPasses(c, behind);
    assert TokenEnd(behind, NUL, ';') == 0;
    if t == [] {
      hide TokenEnd, CommandText, Split;
      assert text == [';'] + rest;
      SkipDelimiter(rest, ';');
    } else {
      CommandStarts(c, behind);
      LeadingNone(text, ';');
      hide TokenEnd, CommandText, Leading, Separated;
      assert text[0..] == text && text[0..|t|] == t && text[|t| + 1..] == rest;
      Found(text, 0, |t|, ';');
    }
  }

  lemma CommandStarts(c: Command, rest: string)
    requires WordsOk(c.words) && CommandText(c) != []
    ensures (CommandText(c) + rest)[0] != ';'
  {
    if c.lead > 0 {
      assert Spaces(c.lead)[0] == ' ';
    } else {
      hide WordText;
      WordsBehind(c.words);
      WordStarts(c.words[0].word, []);
      assert CommandText(c) == WordsText(c.words);
    }
  }

  /** A line of any words, quoted and escaped in any way, comes to the values of its words. */
  lemma {:induction false} LineMeans(cs: seq<Command>)
    requires LineOk(cs)
    ensures Commands(Split(LineText(cs), ';')) == LineValue(cs)
  {
    if cs == [] {
      assert Split([], ';') == [];
    } else {
      hide CommandText, Split, WordsOk, Values, NonEmpty;
      LineMeans(cs[1..]);
      CommandFirst(cs[0], LineText(cs[1..]));
      CommandMeans(cs[0], Split(LineText(cs[1..]), ';'));
    }
  }

  lemma CommandMeans(c: Command, lines: seq<string>)
    requires WordsOk(c.words)
    ensures Commands((if CommandText(c) == [] then [] else [CommandText(c)]) + lines)
              == (if c.words == [] then [] else [NonEmpty(Values(c.words))]) + Commands(lines)
  {
    SkipSpaces(c.lead, WordsText(c.words));
    SplitWords(c.words);
    WordsMean(c.words);
    hide Split, WordsText, Spaces, WordsOk, AllDequoted, NonEmpty, Values, Texts;
    var t := CommandText(c);
    assert Split(t, ' ') == Texts(c.words);
    if t == [] {
      SplitNothing();
      assert [] + lines == lines;
      assert [] + Commands(lines) == Commands(lines);
    } else {
      assert ([t] + lines)[0] == t && ([t] + lines)[1..] == lines;
      assert c.words == [] ==> [] + Commands(lines) == Commands(lines);
    }
  }

  /** Any line as it is written, through both passes of the executor. */
  method Execute(cs: seq<Command>) returns (commands: seq<seq<string>>)
    requires LineOk(cs) && NoNul(LineText(cs))
    ensures commands == LineValue(cs)
  {
    LineMeans(cs);
    hide Commands, Split, LineText, LineValue;
    commands := ExecuteLine(LineText(cs), false);
  }
}
