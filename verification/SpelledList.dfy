/**
 Bracket lists for fnmatch as they are written: single characters, escaped characters and ranges,
 behind no mark or one of the two.  Said without the readers of Bracket, what a written list holds,
 and the verdict of the source on it.
 */
module SpelledList {
  import opened CString
  import opened Sequences
  import opened Bracket

  /** A character of a list, as it stands or behind a backslash. */
  datatype Ch = Ch(c: char, escaped: bool)

  datatype Entry = Single(ch: Ch) | Range(lo: Ch, hi: Ch)

  datatype Mark = NoMark | Bang | Caret

  // ----- texts

  function ChText(ch: Ch): string {
    if ch.escaped then ['\\', ch.c] else [ch.c]
  }

  function EntryText(e: Entry): (t: string)
    ensures t != []
  {
    if e.Single? then ChText(e.ch) else ChText(e.lo) + (['-'] + ChText(e.hi))
  }

  function EntriesText(es: seq<Entry>): string {
    if es == [] then [] else EntryText(es[0]) + EntriesText(es[1..])
  }

  /** The entries with the bracket that closes the list. */
  function ListTail(es: seq<Entry>): (t: string)
    ensures t != []
  {
    EntriesText(es) + [']']
  }

  function MarkText(mark: Mark): string {
    match mark
    case NoMark => []
    case Bang => ['!']
    case Caret => ['^']
  }

  // ----- meanings

  function First(e: Entry): Ch {
    if e.Single? then e.ch else e.lo
  }

  function Final(e: Entry): Ch {
    if e.Single? then e.ch else e.hi
  }

  /** A list holds what one of its entries holds. */
  predicate In(es: seq<Entry>, c: char) {
    exists k :: 0 <= k < |es| && First(es[k]).c <= c <= Final(es[k]).c
  }

  // ----- what may be written

  /** No `[` of a list stands in front of a colon, an equals sign or a dot. */
  predicate NoNames(t: string) {
    forall j :: 0 <= j && j + 1 < |t| && t[j] == '[' ==> t[j + 1] != ':' && t[j + 1] != '=' && t[j + 1] != '.'
  }

  predicate ChOk(ch: Ch, first: bool) {
    && ch.c != NUL && ch.c as int < 128
    && (!ch.escaped ==> ch.c != '\\' && (ch.c == ']' ==> first))
  }

  predicate EntryOk(e: Entry, first: bool) {
    ChOk(First(e), first) && (e.Range? ==> ChOk(e.hi, false))
  }

  /** A dash here would make a range with what stands in front of it. */
  predicate MakesRange(es: seq<Entry>) {
    es != [] && First(es[0]) == Ch('-', false) && es != [Single(Ch('-', false))]
  }

  /** A `]` stands for itself only where it comes first, a dash only where it makes no range. */
  predicate EntriesOk(es: seq<Entry>, first: bool) {
    es != [] ==> EntryOk(es[0], first) && (es[0].Single? ==> !MakesRange(es[1..])) && EntriesOk(es[1..], false)
  }

  predicate ListOk(mark: Mark, es: seq<Entry>) {
    && es != [] && EntriesOk(es, true) && NoNames(ListTail(es))
    && (mark.NoMark? && !First(es[0]).escaped ==> First(es[0]).c != '!' && First(es[0]).c != '^')
  }

  /** From here on stand backslashes and then a `]`: escaped backslashes, and an escaped bracket or the end. */
  predicate RunToBracket(es: seq<Entry>, some: bool) {
    if es == [] then some
    else if !First(es[0]).escaped then false
    else First(es[0]).c == ']' || (es[0] == Single(Ch('\\', true)) && RunToBracket(es[1..], true))
  }

  /** Behind no entry stands such a run. */
  predicate Clear(es: seq<Entry>) {
    es != [] ==> !RunToBracket(es[1..], false) && Clear(es[1..])
  }

  // ----- a text inside a pattern

  predicate StandsAt(pat: string, p: nat, t: string) {
    p + |t| <= |pat| && pat[p..p + |t|] == t
  }

  lemma StandsParts(pat: string, p: nat, a: string, b: string)
    ensures StandsAt(pat, p, a + b) <==> StandsAt(pat, p, a) && StandsAt(pat, p + |a|, b)
  {
    if StandsAt(pat, p, a + b) {
      assert (a + b)[..|a|] == a && (a + b)[|a|..] == b;
      assert pat[p..p + |a + b|][..|a|] == pat[p..p + |a|];
      assert pat[p..p + |a + b|][|a|..] == pat[p + |a|..p + |a| + |b|];
    }
    if StandsAt(pat, p, a) && StandsAt(pat, p + |a|, b) {
      assert pat[p..p + |a| + |b|] == pat[p..p + |a|] + pat[p + |a|..p + |a| + |b|];
    }
  }

  lemma StandsChar(pat: string, p: nat, c: char, t: string)
    requires StandsAt(pat, p, [c] + t)
    ensures p < |pat| && pat[p] == c && At(pat, p) == c && StandsAt(pat, p + 1, t)
  {
    StandsParts(pat, p, [c], t);
    assert pat[p..p + 1][0] == c;
  }

  lemma StandsIndex(pat: string, p: nat, t: string, k: nat)
    requires StandsAt(pat, p, t) && k < |t|
    ensures At(pat, p + k) == t[k]
  {
    assert pat[p..p + |t|][k] == pat[p + k];
  }

  // ----- one entry is read

  /** A character of a list, and what stands behind it. */
  lemma ChAt(pat: string, i: nat, ch: Ch, t: string)
    requires StandsAt(pat, i, ChText(ch) + t)
    ensures var j := i + |ChText(ch)|;
            && StandsAt(pat, j, t) && At(pat, j - 1) == ch.c
            && At(pat, i) == (if ch.escaped then '\\' else ch.c) && j == if ch.escaped then i + 2 else i + 1
  {
    StandsParts(pat, i, ChText(ch), t);
    if ch.escaped {
      StandsIndex(pat, i, ChText(ch), 0);
      StandsIndex(pat, i, ChText(ch), 1);
    } else {
      StandsIndex(pat, i, ChText(ch), 0);
    }
  }

  /** In a list whose text has no name marks, none stand behind a `[`. */
  lemma NoNameAt(pat: string, i: nat, t: string, k: nat)
    requires StandsAt(pat, i, t) && NoNames(t) && k + 1 < |t| && At(pat, i + k) == '['
    ensures !IsNameMark(At(pat, i + k + 1))
  {
    StandsIndex(pat, i, t, k);
    StandsIndex(pat, i, t, k + 1);
  }

  lemma NoNamesBehind(a: string, t: string)
    requires NoNames(a + t)
    ensures NoNames(t)
  {
    assert forall j :: 0 <= j < |t| ==> t[j] == (a + t)[|a| + j];
  }

  function EntryItem(e: Entry, next: nat): Item {
    Item(First(e).c, Final(e).c, next)
  }

  lemma TailParts(es: seq<Entry>)
    requires es != []
    ensures ListTail(es) == EntryText(es[0]) + ListTail(es[1..])
    ensures ListTail([]) == [']']
  {
    Associate(EntryText(es[0]), EntriesText(es[1..]), [']']);
  }

  /** The character that starts the rest of a list. */
  lemma TailStarts(pat: string, i: nat, es: seq<Entry>)
    requires StandsAt(pat, i, ListTail(es)) && EntriesOk(es, false)
    ensures At(pat, i) != NUL
    ensures es == [] ==> At(pat, i) == ']'
    ensures es != [] ==> At(pat, i) == if First(es[0]).escaped then '\\' else First(es[0]).c
    ensures es != [] ==> At(pat, i) != ']' && At(pat, i + 1) != NUL
  {
    if es == [] {
      StandsIndex(pat, i, ListTail(es), 0);
    } else {
      TailParts(es);
      StandsParts(pat, i, EntryText(es[0]), ListTail(es[1..]));
      EntryStarts(pat, i, es[0], ListTail(es[1..]));
    }
  }

  /** The first two characters of an entry and what is behind it. */
  lemma EntryStarts(pat: string, i: nat, e: Entry, t: string)
    requires StandsAt(pat, i, EntryText(e) + t) && t != [] && ChOk(First(e), true) && t[0] != NUL
    ensures At(pat, i) == if First(e).escaped then '\\' else First(e).c
    ensures At(pat, i + 1) != NUL
  {
    if e.Single? {
      ChAt(pat, i, e.ch, t);
      StandsIndex(pat, i + |ChText(e.ch)|, t, 0);
    } else {
      Associate(ChText(e.lo), ['-'] + ChText(e.hi), t);
      ChAt(pat, i, e.lo, ['-'] + ChText(e.hi) + t);
      StandsIndex(pat, i + |ChText(e.lo)|, ['-'] + ChText(e.hi) + t, 0);
    }
  }

  lemma TailNotNul(es: seq<Entry>)
    requires EntriesOk(es, false)
    ensures ListTail(es)[0] != NUL
  {
    if es != [] {
      TailParts(es);
      assert ListTail(es)[0] == EntryText(es[0])[0];
    }
  }

  /** What NextItem makes of the characters of a single one. */
  lemma NextSingle(pat: string, i: nat, first: bool, ch: Ch)
    requires ChOk(ch, first) && At(pat, i) == if ch.escaped then '\\' else ch.c
    requires At(pat, i) == '[' ==> !IsNameMark(At(pat, i + 1))
    requires var j := if ch.escaped then i + 2 else i + 1;
             At(pat, j - 1) == ch.c && (At(pat, j) == '-' ==> At(pat, j + 1) == ']')
    ensures NextItem(pat, i, first) == One(Item(ch.c, ch.c, if ch.escaped then i + 2 else i + 1))
  {
  }

  /** And of those of a range, whose dash stands at j. */
  lemma NextRange(pat: string, i: nat, first: bool, lo: Ch, hi: Ch, j: nat)
    requires ChOk(lo, first) && At(pat, i) == if lo.escaped then '\\' else lo.c
    requires At(pat, i) == '[' ==> !IsNameMark(At(pat, i + 1))
    requires j == (if lo.escaped then i + 2 else i + 1) && At(pat, j - 1) == lo.c && At(pat, j) == '-'
    requires ChOk(hi, false) && At(pat, j + 1) == if hi.escaped then '\\' else hi.c
    requires var e := if hi.escaped then j + 2 else j + 1; At(pat, e) == hi.c && (hi.c == '[' ==> At(pat, e + 1) != '.')
    ensures NextItem(pat, i, first) == One(Item(lo.c, hi.c, if hi.escaped then j + 3 else j + 2))
  {
  }

  /** A single character is read as such. */
  lemma SingleRead(pat: string, i: nat, ch: Ch, first: bool, es: seq<Entry>)
    requires StandsAt(pat, i, ChText(ch) + ListTail(es)) && ChOk(ch, first) && EntriesOk(es, false)
    requires !MakesRange(es) && NoNames(ChText(ch) + ListTail(es))
    ensures NextItem(pat, i, first) == One(Item(ch.c, ch.c, i + |ChText(ch)|))
  {
    hide NextItem, ListTail, EntriesOk, MakesRange, NoNames, StandsAt, ChText;
    var j := i + |ChText(ch)|;
    ChAt(pat, i, ch, ListTail(es));
    if At(pat, i) == '[' {
      NoNameAt(pat, i, ChText(ch) + ListTail(es), 0);
    }
    if At(pat, j) == '-' {
      DashLast(pat, j, es);
    }
    NextSingle(pat, i, first, ch);
  }

  /** A dash that makes no range stands in front of the closing bracket. */
  lemma DashLast(pat: string, j: nat, es: seq<Entry>)
    requires StandsAt(pat, j, ListTail(es)) && EntriesOk(es, false) && !MakesRange(es) && At(pat, j) == '-'
    ensures At(pat, j + 1) == ']'
  {
    TailStarts(pat, j, es);
    assert es == [Single(Ch('-', false))];
    assert ListTail(es) == ['-', ']'] by {
      TailParts(es);
      assert es[1..] == [];
    }
    StandsIndex(pat, j, ListTail(es), 1);
  }

  /** A range is read as such. */
  lemma RangeRead(pat: string, i: nat, lo: Ch, hi: Ch, first: bool, t: string)
    requires StandsAt(pat, i, ChText(lo) + (['-'] + (ChText(hi) + t))) && ChOk(lo, first) && ChOk(hi, false)
    requires NoNames(ChText(lo) + (['-'] + (ChText(hi) + t))) && t != []
    ensures NextItem(pat, i, first) == One(Item(lo.c, hi.c, i + |ChText(lo)| + 1 + |ChText(hi)|))
  {
    hide NextItem, NoNames, StandsAt, ChText;
    var j := i + |ChText(lo)|;
    var e := j + |ChText(hi)|;
    ChAt(pat, i, lo, ['-'] + (ChText(hi) + t));
    StandsChar(pat, j, '-', ChText(hi) + t);
    ChAt(pat, j + 1, hi, t);
    var all := ChText(lo) + (['-'] + (ChText(hi) + t));
    if At(pat, i) == '[' {
      NoNameAt(pat, i, all, 0);
    }
    if At(pat, e) == '[' {
      NoNameAt(pat, i, all, e - i);
    }
    NextRange(pat, i, first, lo, hi, j);
  }

  /** The first entry of a list is its first item. */
  lemma EntryRead(pat: string, i: nat, es: seq<Entry>, first: bool)
    requires es != [] && StandsAt(pat, i, ListTail(es)) && EntriesOk(es, first) && NoNames(ListTail(es))
    ensures var n := i + |EntryText(es[0])|;
            && NextItem(pat, i, first) == One(EntryItem(es[0], n)) && EntryOk(es[0], first)
            && StandsAt(pat, n, ListTail(es[1..])) && EntriesOk(es[1..], false) && NoNames(ListTail(es[1..]))
  {
    hide NextItem, ListTail, NoNames, StandsAt, ChText, MakesRange;
    var e, t := es[0], ListTail(es[1..]);
    TailParts(es);
    StandsParts(pat, i, EntryText(e), t);
    NoNamesBehind(EntryText(e), t);
    if e.Single? {
      SingleRead(pat, i, e.ch, first, es[1..]);
    } else {
      RangeParts(e, t);
      RangeRead(pat, i, e.lo, e.hi, first, t);
    }
  }

  lemma RangeParts(e: Entry, t: string)
    requires e.Range?
    ensures EntryText(e) + t == ChText(e.lo) + (['-'] + (ChText(e.hi) + t))
    ensures |EntryText(e)| == |ChText(e.lo)| + 1 + |ChText(e.hi)|
  {
    Associate(ChText(e.lo), ['-'] + ChText(e.hi), t);
    Associate(['-'], ChText(e.hi), t);
  }

  // ----- the rest of a list is skipped

  /** Skipping passes a character of a list. */
  lemma SkipCh(pat: string, i: nat, ch: Ch, t: string)
    requires StandsAt(pat, i, ChText(ch) + t) && t != [] && ChOk(ch, false) && NoNames(ChText(ch) + t)
    ensures SkipRest(pat, i) == SkipRest(pat, i + |ChText(ch)|)
  {
    ChAt(pat, i, ch, t);
    if At(pat, i) == '[' {
      NoNameAt(pat, i, ChText(ch) + t, 0);
    }
  }

  lemma SkipDash(pat: string, i: nat, t: string)
    requires StandsAt(pat, i, ['-'] + t)
    ensures SkipRest(pat, i) == SkipRest(pat, i + 1)
  {
    StandsChar(pat, i, '-', t);
  }

  lemma SkipEntry(pat: string, i: nat, e: Entry, t: string)
    requires StandsAt(pat, i, EntryText(e) + t) && t != [] && EntryOk(e, false) && NoNames(EntryText(e) + t)
    ensures SkipRest(pat, i) == SkipRest(pat, i + |EntryText(e)|)
  {
    hide SkipRest, NoNames, StandsAt;
    if e.Single? {
      SkipCh(pat, i, e.ch, t);
    } else {
      RangeParts(e, t);
      var a, b := ['-'] + (ChText(e.hi) + t), ChText(e.hi) + t;
      SkipCh(pat, i, e.lo, a);
      ChAt(pat, i, e.lo, a);
      SkipDash(pat, i + |ChText(e.lo)|, b);
      StandsParts(pat, i + |ChText(e.lo)|, ['-'], b);
      NoNamesBehind(ChText(e.lo), a);
      NoNamesBehind(['-'], b);
      SkipCh(pat, i + |ChText(e.lo)| + 1, e.hi, t);
    }
  }

  /** Skipping from an entry on ends at the closing bracket. */
  lemma {:induction false} SkipEntries(pat: string, i: nat, es: seq<Entry>)
    requires StandsAt(pat, i, ListTail(es)) && EntriesOk(es, false) && NoNames(ListTail(es))
    ensures SkipRest(pat, i) == Closed(i + |ListTail(es)|)
    decreases |es|
  {
    hide SkipRest, NextItem, ListTail, NoNames, StandsAt, EntriesOk, EntryOk, EntryText;
    if es == [] {
      TailStarts(pat, i, es);
      AtBracket(pat, i, es);
    } else {
      EntryRead(pat, i, es, false);
      TailParts(es);
      SkipEntries(pat, i + |EntryText(es[0])|, es[1..]);
      SkipEntry(pat, i, es[0], ListTail(es[1..]));
    }
  }

  lemma AtBracket(pat: string, i: nat, es: seq<Entry>)
    requires es == [] && At(pat, i) == ']'
    ensures SkipRest(pat, i) == Closed(i + |ListTail(es)|) && NextItem(pat, i, false) == End(Closed(i + |ListTail(es)|))
  {
  }

  /** Behind a hit: unless a run of backslashes leads to a bracket there, the skip ends as it should. */
  lemma AfterEntries(pat: string, q: nat, es: seq<Entry>)
    requires StandsAt(pat, q, ListTail(es)) && EntriesOk(es, false) && NoNames(ListTail(es))
    requires !RunToBracket(es, false)
    ensures AfterHit(pat, q) == Closed(q + |ListTail(es)|)
  {
    TailStarts(pat, q, es);
    SkipEntries(pat, q, es);
    if es != [] {
      if First(es[0]).escaped {
        OutOfStep(pat, q, es);
        hide SkipRest;
      } else {
        if At(pat, q) == '[' {
          TailLong(es);
          NoNameAt(pat, q, ListTail(es), 0);
        }
        InStep(pat, q);
        hide SkipRest;
      }
    }
  }

  lemma TailLong(es: seq<Entry>)
    requires es != []
    ensures |ListTail(es)| > 1
  {
    TailParts(es);
  }

  /** A character that is no backslash is passed over alike. */
  lemma InStep(pat: string, q: nat)
    requires At(pat, q) != NUL && At(pat, q) != ']' && At(pat, q) != '\\'
    requires At(pat, q) == '[' ==> !IsNameMark(At(pat, q + 1))
    ensures SkipRest(pat, q) == SkipRest(pat, q + 1)
  {
  }

  lemma SkipEscaped(pat: string, q: nat)
    requires At(pat, q) == '\\' && At(pat, q + 1) != NUL
    ensures SkipRest(pat, q) == SkipRest(pat, q + 2)
  {
  }

  /** Behind the backslash of an escape the skip is out of step, and gets into it again at the first
      character that is no escaped backslash. */
  lemma {:induction false} OutOfStep(pat: string, q: nat, es: seq<Entry>)
    requires StandsAt(pat, q, ListTail(es)) && EntriesOk(es, false) && NoNames(ListTail(es))
    requires es != [] && First(es[0]).escaped && !RunToBracket(es, false)
    ensures SkipRest(pat, q + 1) == Closed(q + |ListTail(es)|)
    decreases |es|
  {
    var x, n := First(es[0]).c, q + |EntryText(es[0])|;
    SkipEntries(pat, q, es);
    EscapeAt(pat, q, es);
    EntryRead(pat, q, es, false);
    TailParts(es);
    SkipEscaped(pat, q);
    hide SkipRest, NoNames, StandsAt, ListTail, NextItem;
    if x != '\\' {
      InStep(pat, q + 1);
    } else {
      SkipEscaped(pat, q + 1);
      if es[0].Range? {
        InStep(pat, q + 2);
      } else {
        SlashBehind(es);
        TailStarts(pat, n, es[1..]);
        if First(es[1]).escaped {
          OutOfStep(pat, n, es[1..]);
        } else {
          SkipEntries(pat, n, es[1..]);
          PlainBehind(pat, n, es[1..]);
          InStep(pat, n);
        }
      }
    }
  }

  /** An escape at the front of the rest of a list. */
  lemma EscapeAt(pat: string, q: nat, es: seq<Entry>)
    requires StandsAt(pat, q, ListTail(es)) && EntriesOk(es, false) && NoNames(ListTail(es))
    requires es != [] && First(es[0]).escaped
    ensures At(pat, q) == '\\' && At(pat, q + 1) == First(es[0]).c && At(pat, q + 2) != NUL
    ensures At(pat, q + 1) == '[' ==> !IsNameMark(At(pat, q + 2))
    ensures es[0].Range? ==> At(pat, q + 2) == '-'
    ensures es[0].Single? ==> |EntryText(es[0])| == 2
  {
    var e, t := es[0], ListTail(es[1..]);
    TailParts(es);
    TailNotNul(es[1..]);
    if e.Single? {
      ChAt(pat, q, e.ch, t);
      StandsIndex(pat, q + 2, t, 0);
    } else {
      RangeParts(e, t);
      ChAt(pat, q, e.lo, ['-'] + (ChText(e.hi) + t));
      StandsIndex(pat, q + 2, ['-'] + (ChText(e.hi) + t), 0);
    }
    if At(pat, q + 1) == '[' {
      assert |ListTail(es)| > 2;
      NoNameAt(pat, q, ListTail(es), 1);
    }
  }

  lemma SlashBehind(es: seq<Entry>)
    requires es != [] && es[0] == Single(Ch('\\', true)) && !RunToBracket(es, false)
    ensures es[1..] != [] && !RunToBracket(es[1..], false)
  {
  }

  lemma PlainBehind(pat: string, n: nat, es: seq<Entry>)
    requires StandsAt(pat, n, ListTail(es)) && EntriesOk(es, false) && NoNames(ListTail(es))
    requires es != [] && !First(es[0]).escaped
    ensures At(pat, n) != NUL && At(pat, n) != ']' && At(pat, n) != '\\'
    ensures At(pat, n) == '[' ==> !IsNameMark(At(pat, n + 1))
  {
    TailStarts(pat, n, es);
    if At(pat, n) == '[' {
      TailLong(es);
      NoNameAt(pat, n, ListTail(es), 0);
    }
  }

  // ----- the verdict on a written list

  lemma InFirst(es: seq<Entry>, c: char)
    requires es != []
    ensures In(es, c) <==> First(es[0]).c <= c <= Final(es[0]).c || In(es[1..], c)
  {
    assert forall k :: 1 <= k < |es| ==> es[k] == es[1..][k - 1];
    if In(es[1..], c) {
      var k :| 0 <= k < |es[1..]| && First(es[1..][k]).c <= c <= Final(es[1..][k]).c;
      assert es[k + 1] == es[1..][k];
    }
  }

  lemma InNone(c: char)
    ensures !In([], c)
  {
  }

  lemma HitsEntry(e: Entry, next: nat, c: char)
    requires EntryOk(e, true)
    ensures Hits(EntryItem(e, next), c) <==> First(e).c <= c <= Final(e).c
  {
    HitsExact(EntryItem(e, next), c);
  }

  lemma EntryOkFirst(e: Entry, first: bool)
    requires EntryOk(e, first)
    ensures EntryOk(e, true)
  {
  }

  /** Reading a written list on from any entry. */
  lemma {:induction false} EntriesVerdict(pat: string, i: nat, es: seq<Entry>, first: bool, p: nat, test: char)
    requires StandsAt(pat, i, ListTail(es)) && EntriesOk(es, first) && NoNames(ListTail(es)) && Clear(es)
    requires first ==> es != []
    ensures VerdictAt(pat, i, first, p, test) == Judge(Closed(i + |ListTail(es)|), In(es, test), pat, p, test)
    decreases |es|
  {
    hide ReadList, AfterHit, Judge, SkipRest, VerdictAt, NextItem, ListTail, NoNames, StandsAt, In, Hits, EntriesOk,
         EntryText, EntryOk;
    TakeItem(pat, i, first, p, test);
    if es == [] {
      TailStarts(pat, i, es);
      AtBracket(pat, i, es);
      InNone(test);
    } else {
      var n := i + |EntryText(es[0])|;
      EntryRead(pat, i, es, first);
      TailParts(es);
      InFirst(es, test);
      EntryOkFirst(es[0], first);
      HitsEntry(es[0], n, test);
      EntriesVerdict(pat, n, es[1..], false, p, test);
      AfterEntries(pat, n, es[1..]);
    }
  }

  /** The source's verdict on a written list, both marks reversing it. */
  lemma SpelledVerdict(pat: string, p: nat, mark: Mark, es: seq<Entry>, test: char)
    requires StandsAt(pat, p, MarkText(mark) + ListTail(es)) && ListOk(mark, es) && Clear(es)
    ensures BrackVerdict(pat, p, test)
              == if In(es, test) == mark.NoMark? then Match(p + |MarkText(mark)| + |ListTail(es)|) else NoMatch
  {
    var i := p + |MarkText(mark)|;
    StandsParts(pat, p, MarkText(mark), ListTail(es));
    MarkAt(pat, p, mark, es);
    EntriesVerdict(pat, i, es, true, p, test);
    hide ReadList, AfterHit, ListTail, In, Negated, StandsAt, NoNames;
  }

  lemma MarkAt(pat: string, p: nat, mark: Mark, es: seq<Entry>)
    requires StandsAt(pat, p, MarkText(mark) + ListTail(es)) && ListOk(mark, es)
    ensures Negated(pat, p) <==> !mark.NoMark?
    ensures |MarkText(mark)| == if mark.NoMark? then 0 else 1
  {
    if mark.NoMark? {
      assert MarkText(mark) + ListTail(es) == ListTail(es);
      TailParts(es);
      TailNotNul(es[1..]);
      EntryStarts(pat, p, es[0], ListTail(es[1..]));
    } else {
      StandsIndex(pat, p, MarkText(mark) + ListTail(es), 0);
    }
  }

  /** The verdict of the specification is the same, with backslashes and brackets behind an entry, too. */
  lemma {:induction false} EntriesList(pat: string, i: nat, es: seq<Entry>, first: bool, test: char)
    requires StandsAt(pat, i, ListTail(es)) && EntriesOk(es, first) && NoNames(ListTail(es))
    requires first ==> es != []
    ensures var l := ReadList(pat, i, first);
            l.tail == Closed(i + |ListTail(es)|) && (Member(l.items, test) <==> In(es, test))
    decreases |es|
  {
    if es == [] {
      TailStarts(pat, i, es);
    } else {
      hide ReadList, NextItem, ListTail, NoNames, StandsAt, In, Member, EntriesOk, EntryText, EntryOk;
      var n := i + |EntryText(es[0])|;
      EntryRead(pat, i, es, first);
      TailParts(es);
      InFirst(es, test);
      EntriesList(pat, n, es[1..], false, test);
      var item, rest := EntryItem(es[0], n), ReadList(pat, n, false);
      ReadOne(pat, i, first, item, rest);
      MemberFirst(item, rest.items, test);
    }
  }

  lemma MemberFirst(item: Item, items: seq<Item>, test: char)
    ensures Member([item] + items, test) <==> Holds(item, test) || Member(items, test)
  {
    var all := [item] + items;
    assert all[0] == item && forall k :: 0 <= k < |items| ==> all[k + 1] == items[k];
  }

  lemma SpelledList(pat: string, p: nat, mark: Mark, es: seq<Entry>, test: char)
    requires StandsAt(pat, p, MarkText(mark) + ListTail(es)) && ListOk(mark, es)
    ensures ListVerdict(pat, p, test)
              == if In(es, test) == mark.NoMark? then Match(p + |MarkText(mark)| + |ListTail(es)|) else NoMatch
  {
    var i := p + |MarkText(mark)|;
    StandsParts(pat, p, MarkText(mark), ListTail(es));
    MarkAt(pat, p, mark, es);
    EntriesList(pat, i, es, true, test);
    hide ReadList, ListTail, In, Negated, StandsAt, NoNames, Member;
  }

  // ----- lists that are not closed

  /** Bytes without a meaning in a list. */
  predicate Ordinary(c: char) {
    IsByte(c) && c != NUL && c != ']' && c != '\\' && c != '-' && c != '['
  }

  /** From i on stand ordinary characters up to n, and then the end, or a last backslash or dash. */
  predicate OpenFrom(pat: string, i: nat, n: nat) {
    && i <= n <= |pat| && (forall k :: i <= k < n ==> Ordinary(pat[k]))
    && (n == |pat| || (n + 1 == |pat| && (pat[n] == '\\' || pat[n] == '-')))
  }

  lemma {:induction false} OpenSkip(pat: string, i: nat, n: nat)
    requires OpenFrom(pat, i, n)
    ensures SkipRest(pat, i) == if n < |pat| && pat[n] == '\\' then Broken else Unclosed
    ensures AfterHit(pat, i).Unclosed? || AfterHit(pat, i).Broken?
    decreases n - i
  {
    if i < n {
      OpenSkip(pat, i + 1, n);
      assert Ordinary(pat[i]);
    } else {
      assert n < |pat| ==> At(pat, n + 1) == NUL;
    }
  }

  /** How reading goes on: nothing closes the list, and a last backslash or a range without end spoils it. */
  lemma {:induction false} OpenVerdict(pat: string, i: nat, n: nat, first: bool, p: nat, test: char)
    requires OpenFrom(pat, i, n) && (n < |pat| && pat[n] == '-' ==> i < n)
    ensures VerdictAt(pat, i, first, p, test) == Judge(if n == |pat| then Unclosed else Broken, false, pat, p, test)
            || (test != '[' && VerdictAt(pat, i, first, p, test) == NoMatch)
    decreases n - i
  {
    hide ReadList, VerdictAt, SkipRest, AfterHit;
    TakeItem(pat, i, first, p, test);
    if i < n {
      assert Ordinary(pat[i]);
      if i + 1 < n {
        assert Ordinary(pat[i + 1]);
      }
      OpenSkip(pat, i + 1, n);
      if i + 1 == n && n < |pat| && pat[n] == '-' {
        assert NextItem(pat, i, first) == End(Broken);
      } else {
        assert NextItem(pat, i, first) == One(Item(pat[i], pat[i], i + 1));
        assert Hits(Item(pat[i], pat[i], i + 1), test) ==> test != '[';
        OpenVerdict(pat, i + 1, n, false, p, test);
      }
    }
  }

  /** A list that nothing closes is a literal `[`; with a last backslash or an unfinished range it matches nothing. */
  lemma OpenList(pat: string, p: nat, n: nat, test: char)
    requires p < n && OpenFrom(pat, p, n)
    requires n < |pat| && pat[n] == '-' ==> n > p + 1
    ensures BrackVerdict(pat, p, test) == if n == |pat| && test == '[' then Match(p) else NoMatch
  {
    OpenVerdict(pat, if Negated(pat, p) then p + 1 else p, n, true, p, test);
    hide ReadList, SkipRest;
  }
}
