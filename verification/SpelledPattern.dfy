/**
 Patterns for fnmatch as they are written: characters, escaped characters, wildcards, bracket lists
 and, with FNM_EXTMATCH, groups of alternatives.  Said without the scans of PatternScan, what a
 written pattern denotes, and when the source decides it.
 */
module SpelledPattern {
  import opened CString
  import opened Sequences
  import opened Bracket
  import opened PatternScan
  import opened GlobLanguage
  import opened GlobMatch
  import opened GlobTheorems
  import opened SpelledList

  datatype Part =
    | Literal(c: char)
    | Escape(c: char)
    | AnyOne
    | AnySome
    | OneIn(mark: Mark, entries: seq<Entry>)
    | Group(op: char, alts: Choice)

  datatype Pattern = Empty | Then(part: Part, rest: Pattern)

  datatype Choice = Last(pattern: Pattern) | Or(pattern: Pattern, more: Choice)

  // ----- texts

  function PartText(part: Part): (t: string)
    ensures t != []
  {
    match part
    case Literal(c) => [c]
    case Escape(c) => ['\\', c]
    case AnyOne => ['?']
    case AnySome => ['*']
    case OneIn(mark, es) => ['['] + (MarkText(mark) + ListTail(es))
    case Group(op, alts) => [op, '('] + (ChoiceText(alts) + [')'])
  }

  function Text(pt: Pattern): string {
    if pt.Empty? then [] else PartText(pt.part) + Text(pt.rest)
  }

  function ChoiceText(alts: Choice): string {
    if alts.Last? then Text(alts.pattern) else Text(alts.pattern) + (['|'] + ChoiceText(alts.more))
  }

  // ----- meanings

  /** How often an operator lets its list be matched. */
  predicate Often(op: char, n: nat) {
    (op == '*') || (op == '+' && n > 0) || (op == '?' && n < 2) || (op == '@' && n == 1)
  }

  /** The strings that a pattern denotes; both marks reverse a list. */
  ghost predicate Fits(pt: Pattern, s: string)
    decreases pt
  {
    if pt.Empty? then s == ""
    else match pt.part
      case Literal(c) => s != "" && s[0] == c && Fits(pt.rest, s[1..])
      case Escape(c) => s != "" && s[0] == c && Fits(pt.rest, s[1..])
      case AnyOne => s != "" && Fits(pt.rest, s[1..])
      case AnySome => exists k :: 0 <= k <= |s| && Fits(pt.rest, s[k..])
      case OneIn(mark, es) => s != "" && In(es, s[0]) == mark.NoMark? && Fits(pt.rest, s[1..])
      case Group(op, alts) => exists k :: 0 <= k <= |s| && Fits(pt.rest, s[k..]) && FitsGroup(op, alts, s[..k])
  }

  /** A string is as many matches of the alternatives, one behind the other, as the operator allows; for `!`
      it is none. */
  ghost predicate FitsGroup(op: char, alts: Choice, x: string)
    decreases alts, 1
  {
    if op == '!' then !FitsAny(alts, x)
    else exists parts: seq<string> :: Flatten(parts) == x && Often(op, |parts|)
                                      && forall i :: 0 <= i < |parts| ==> FitsAny(alts, parts[i])
  }

  ghost predicate FitsAny(alts: Choice, x: string)
    decreases alts, 0
  {
    Fits(alts.pattern, x) || (alts.Or? && FitsAny(alts.more, x))
  }

  // ----- what may be written

  predicate Nests(c: char) {
    c == '(' || c == ')' || c == '|' || c == '[' || c == ']'
  }

  predicate EntryInside(e: Entry) {
    !(First(e).c in {'[', ']'}) && !(Final(e).c in {'[', ']'})
  }

  predicate PartOk(part: Part, ext: bool, inside: bool)
    decreases part
  {
    match part
    case Literal(c) =>
      && c != NUL && c != '?' && c != '*' && c != '\\' && c != '[' && (ext ==> c != '(')
      && (inside ==> !Nests(c))
    case Escape(c) => c != NUL && (inside ==> !Nests(c))
    case AnyOne => true
    case AnySome => true
    case OneIn(mark, es) =>
      ListOk(mark, es) && Clear(es) && (inside ==> forall k :: 0 <= k < |es| ==> EntryInside(es[k]))
    case Group(op, alts) =>
      ext && (op == '?' || op == '*' || op == '+' || op == '@' || op == '!') && ChoiceOk(alts)
  }

  /** inside: in a group, where the scan for its end sees parentheses, bars and brackets only. */
  predicate PatternOk(pt: Pattern, ext: bool, inside: bool)
    decreases pt
  {
    pt.Then? ==> PartOk(pt.part, ext, inside) && PatternOk(pt.rest, ext, inside)
  }

  predicate ChoiceOk(alts: Choice)
    decreases alts
  {
    PatternOk(alts.pattern, true, true) && (alts.Or? ==> ChoiceOk(alts.more))
  }

  /** No group stands in a run behind a star. */
  predicate RunsClear(pt: Pattern, behindStar: bool)
    decreases pt
  {
    pt.Then? ==>
      match pt.part
      case AnySome => RunsClear(pt.rest, true)
      case AnyOne => RunsClear(pt.rest, behindStar)
      case Group(_, alts) => !behindStar && ChoiceClear(alts) && RunsClear(pt.rest, false)
      case _ => RunsClear(pt.rest, false)
  }

  predicate ChoiceClear(alts: Choice)
    decreases alts
  {
    RunsClear(alts.pattern, false) && (alts.Or? ==> ChoiceClear(alts.more))
  }

  /** pt is written at pat[p..pe]; no parenthesis follows. */
  predicate Placed(pat: string, p: nat, pe: nat, pt: Pattern, ext: bool, inside: bool) {
    StandsAt(pat, p, Text(pt)) && p + |Text(pt)| == pe && PatternOk(pt, ext, inside) && At(pat, pe) != '('
  }

  lemma PlacedParts(pat: string, p: nat, pe: nat, pt: Pattern, ext: bool, inside: bool)
    requires Placed(pat, p, pe, pt, ext, inside) && pt.Then?
    ensures var n := p + |PartText(pt.part)|;
            && p < n <= pe <= |pat| && StandsAt(pat, p, PartText(pt.part)) && PartOk(pt.part, ext, inside)
            && Placed(pat, n, pe, pt.rest, ext, inside)
  {
    hide StandsAt, PartText, PartOk;
    StandsParts(pat, p, PartText(pt.part), Text(pt.rest));
    StandsInside(pat, p, Text(pt));
  }

  lemma StandsInside(pat: string, p: nat, t: string)
    requires StandsAt(pat, p, t)
    ensures p + |t| <= |pat|
  {
  }

  /** With FNM_EXTMATCH no text starts with a parenthesis. */
  lemma NoParenthesis(pat: string, p: nat, pe: nat, pt: Pattern, inside: bool)
    requires Placed(pat, p, pe, pt, true, inside)
    ensures At(pat, p) != '('
  {
    if pt.Then? {
      PlacedParts(pat, p, pe, pt, true, inside);
      StandsIndex(pat, p, PartText(pt.part), 0);
      hide StandsAt, Text;
    }
  }

  // ----- the scan passes a text inside a group

  /** Characters that the scan passes over, in a list or outside. */
  predicate Passes(t: string, inList: bool) {
    forall k :: 0 <= k < |t| ==> t[k] != NUL && t[k] != '[' && t[k] != ']' && (inList || !Nests(t[k]))
  }

  lemma ScanStep(pat: string, i: nat, end: nat, bar: bool, pnest: nat, bnest: nat)
    requires i < end && i < |pat| && pat[i] != NUL && !Stops(pat[i], bar, pnest, bnest)
    ensures var nest := Nest(pat[i], pnest, bnest);
            ScanFrom(pat, i, end, bar, pnest, bnest) == ScanFrom(pat, i + 1, end, bar, nest.0, nest.1)
  {
  }

  lemma {:induction false} ScanPasses(pat: string, i: nat, t: string, end: nat, bar: bool, pnest: nat, bnest: nat)
    requires StandsAt(pat, i, t) && i + |t| <= end && Passes(t, bnest > 0)
    ensures ScanFrom(pat, i, end, bar, pnest, bnest) == ScanFrom(pat, i + |t|, end, bar, pnest, bnest)
    decreases |t|
  {
    if t != "" {
      hide ScanFrom, StandsAt;
      assert t == [t[0]] + t[1..];
      StandsChar(pat, i, t[0], t[1..]);
      ScanStep(pat, i, end, bar, pnest, bnest);
      ScanPasses(pat, i + 1, t[1..], end, bar, pnest, bnest);
    }
  }

  lemma {:induction false} EntriesPass(es: seq<Entry>, first: bool)
    requires EntriesOk(es, first) && forall k :: 0 <= k < |es| ==> EntryInside(es[k])
    ensures Passes(EntriesText(es), true)
  {
    if es != [] {
      assert forall k :: 0 <= k < |es| - 1 ==> es[1..][k] == es[k + 1];
      EntriesPass(es[1..], false);
      assert EntryInside(es[0]);
      EntryPasses(es[0], first);
      hide EntryText, EntryOk, EntryInside;
    }
  }

  lemma EntryPasses(e: Entry, first: bool)
    requires EntryOk(e, first) && EntryInside(e)
    ensures Passes(EntryText(e), true)
  {
  }

  lemma ListPasses(mark: Mark, es: seq<Entry>)
    requires ListOk(mark, es) && forall k :: 0 <= k < |es| ==> EntryInside(es[k])
    ensures Passes(MarkText(mark) + EntriesText(es), true)
  {
    EntriesPass(es, true);
    hide EntriesText;
  }

  lemma ScanList(pat: string, i: nat, mark: Mark, es: seq<Entry>, end: nat, bar: bool, pnest: nat)
    requires PartOk(OneIn(mark, es), true, true) && StandsAt(pat, i, PartText(OneIn(mark, es)))
    requires i + |PartText(OneIn(mark, es))| <= end
    ensures ScanFrom(pat, i, end, bar, pnest, 0)
              == ScanFrom(pat, i + |PartText(OneIn(mark, es))|, end, bar, pnest, 0)
  {
    hide ScanFrom, StandsAt, EntriesText;
    var body := MarkText(mark) + EntriesText(es);
    Associate(MarkText(mark), EntriesText(es), [']']);
    StandsChar(pat, i, '[', body + [']']);
    ScanStep(pat, i, end, bar, pnest, 0);
    StandsParts(pat, i + 1, body, [']']);
    ListPasses(mark, es);
    ScanPasses(pat, i + 1, body, end, bar, pnest, 1);
    var j := i + 1 + |body|;
    assert [']'] == [']'] + [];
    StandsChar(pat, j, ']', []);
    ScanStep(pat, j, end, bar, pnest, 1);
  }

  lemma {:induction false} ScanPart(pat: string, i: nat, part: Part, end: nat, bar: bool, pnest: nat)
    requires PartOk(part, true, true) && StandsAt(pat, i, PartText(part)) && i + |PartText(part)| <= end
    ensures ScanFrom(pat, i, end, bar, pnest, 0) == ScanFrom(pat, i + |PartText(part)|, end, bar, pnest, 0)
    decreases part
  {
    hide ScanFrom, StandsAt;
    match part {
      case Literal(c) => ScanPasses(pat, i, [c], end, bar, pnest, 0);
      case Escape(c) => ScanPasses(pat, i, ['\\', c], end, bar, pnest, 0);
      case AnyOne => ScanPasses(pat, i, ['?'], end, bar, pnest, 0);
      case AnySome => ScanPasses(pat, i, ['*'], end, bar, pnest, 0);
      case OneIn(mark, es) => ScanList(pat, i, mark, es, end, bar, pnest);
      case Group(op, alts) =>
        GroupStands(pat, i, op, alts);
        ScanChoice(pat, i + 2, alts, end, bar, pnest + 1);
        ScanGroup(pat, i, i + 2 + |ChoiceText(alts)|, end, bar, pnest);
    }
  }

  /** The operator and the parentheses around a list that is passed. */
  lemma ScanGroup(pat: string, i: nat, j: nat, end: nat, bar: bool, pnest: nat)
    requires i + 2 <= j < |pat| && j < end && pat[i] in {'?', '*', '+', '@', '!'} && pat[i + 1] == '(' && pat[j] == ')'
    requires ScanFrom(pat, i + 2, end, bar, pnest + 1, 0) == ScanFrom(pat, j, end, bar, pnest + 1, 0)
    ensures ScanFrom(pat, i, end, bar, pnest, 0) == ScanFrom(pat, j + 1, end, bar, pnest, 0)
  {
    hide ScanFrom;
    ScanStep(pat, i, end, bar, pnest, 0);
    ScanStep(pat, i + 1, end, bar, pnest, 0);
    ScanStep(pat, j, end, bar, pnest + 1, 0);
  }

  /** Where the pieces of a group stand. */
  lemma GroupStands(pat: string, i: nat, op: char, alts: Choice)
    requires StandsAt(pat, i, PartText(Group(op, alts)))
    ensures var j := i + 2 + |ChoiceText(alts)|;
            && j + 1 == i + |PartText(Group(op, alts))| && j < |pat|
            && pat[i] == op && pat[i + 1] == '(' && pat[j] == ')'
            && At(pat, i) == op && At(pat, i + 1) == '(' && At(pat, j) == ')'
            && StandsAt(pat, i + 2, ChoiceText(alts) + [')']) && StandsAt(pat, i + 2, ChoiceText(alts))
  {
    hide StandsAt, ChoiceText;
    var t := ChoiceText(alts);
    assert [op, '('] + (t + [')']) == [op] + (['('] + (t + [')']));
    StandsChar(pat, i, op, ['('] + (t + [')']));
    StandsChar(pat, i + 1, '(', t + [')']);
    StandsParts(pat, i + 2, t, [')']);
    assert [')'] == [')'] + [];
    StandsChar(pat, i + 2 + |t|, ')', []);
  }

  lemma {:induction false} ScanPattern(pat: string, i: nat, pt: Pattern, end: nat, bar: bool, pnest: nat)
    requires PatternOk(pt, true, true) && StandsAt(pat, i, Text(pt)) && i + |Text(pt)| <= end
    ensures ScanFrom(pat, i, end, bar, pnest, 0) == ScanFrom(pat, i + |Text(pt)|, end, bar, pnest, 0)
    decreases pt
  {
    hide ScanFrom, StandsAt, PartText, PartOk, Text, PatternOk;
    if pt.Empty? {
      EmptyText(pt);
    } else {
      PatternParts(pat, i, pt, true, true);
      ScanPart(pat, i, pt.part, end, bar, pnest);
      ScanPattern(pat, i + |PartText(pt.part)|, pt.rest, end, bar, pnest);
    }
  }

  lemma EmptyText(pt: Pattern)
    requires pt.Empty?
    ensures Text(pt) == []
  {
  }

  lemma PatternParts(pat: string, i: nat, pt: Pattern, ext: bool, inside: bool)
    requires pt.Then? && PatternOk(pt, ext, inside) && StandsAt(pat, i, Text(pt))
    ensures PartOk(pt.part, ext, inside) && PatternOk(pt.rest, ext, inside)
    ensures StandsAt(pat, i, PartText(pt.part)) && StandsAt(pat, i + |PartText(pt.part)|, Text(pt.rest))
    ensures |Text(pt)| == |PartText(pt.part)| + |Text(pt.rest)|
  {
    hide StandsAt, PartText, PartOk;
    StandsParts(pat, i, PartText(pt.part), Text(pt.rest));
  }

  /** The bars of a list are passed inside a further parenthesis, or where bars do not stop the scan. */
  lemma {:induction false} ScanChoice(pat: string, i: nat, alts: Choice, end: nat, bar: bool, pnest: nat)
    requires ChoiceOk(alts) && StandsAt(pat, i, ChoiceText(alts)) && i + |ChoiceText(alts)| <= end
    requires pnest > 0 || !bar
    ensures ScanFrom(pat, i, end, bar, pnest, 0) == ScanFrom(pat, i + |ChoiceText(alts)|, end, bar, pnest, 0)
    decreases alts
  {
    hide ScanFrom, StandsAt, PatternOk, Text, ChoiceText, ChoiceOk;
    ChoiceParts(alts);
    if alts.Last? {
      ScanPattern(pat, i, alts.pattern, end, bar, pnest);
    } else {
      var j := i + |Text(alts.pattern)|;
      BarStands(pat, i, alts);
      ScanPattern(pat, i, alts.pattern, end, bar, pnest);
      ScanStep(pat, j, end, bar, pnest, 0);
      ScanChoice(pat, j + 1, alts.more, end, bar, pnest);
    }
  }

  lemma ChoiceParts(alts: Choice)
    ensures ChoiceOk(alts) ==> PatternOk(alts.pattern, true, true) && (alts.Or? ==> ChoiceOk(alts.more))
    ensures alts.Last? ==> ChoiceText(alts) == Text(alts.pattern)
  {
    hide PatternOk, Text;
  }

  lemma BarStands(pat: string, i: nat, alts: Choice)
    requires alts.Or? && StandsAt(pat, i, ChoiceText(alts))
    ensures var j := i + |Text(alts.pattern)|;
            && j < |pat| && pat[j] == '|' && StandsAt(pat, i, Text(alts.pattern))
            && StandsAt(pat, j + 1, ChoiceText(alts.more))
            && |ChoiceText(alts)| == |Text(alts.pattern)| + 1 + |ChoiceText(alts.more)|
  {
    hide StandsAt, Text;
    var t := Text(alts.pattern);
    StandsParts(pat, i, t, ['|'] + ChoiceText(alts.more));
    StandsChar(pat, i + |t|, '|', ChoiceText(alts.more));
  }

  lemma ScanStops(pat: string, i: nat, end: nat, bar: bool)
    requires i < end && i < |pat| && pat[i] != NUL && Stops(pat[i], bar, 0, 0)
    ensures ScanFrom(pat, i, end, bar, 0, 0) == Some(i + 1)
  {
  }

  /** The list of a written group ends at its parenthesis. */
  lemma GroupEnds(pat: string, g: nat, op: char, alts: Choice, pe: nat)
    requires StandsAt(pat, g, PartText(Group(op, alts))) && ChoiceOk(alts)
    requires g + |PartText(Group(op, alts))| <= pe
    ensures ListEnd(pat, g + 2, pe) == Some(g + |PartText(Group(op, alts))|)
  {
    hide ScanFrom, StandsAt, ChoiceText, ChoiceOk;
    GroupStands(pat, g, op, alts);
    ScanChoice(pat, g + 2, alts, pe, false, 0);
    ScanStops(pat, g + 2 + |ChoiceText(alts)|, pe, false);
  }

  // ----- the alternatives of a group

  /** Where the alternatives stand that are written from i on. */
  function Intervals(alts: Choice, i: nat): (r: seq<(nat, nat)>)
    ensures r != []
  {
    var j := i + |Text(alts.pattern)|;
    [(i, j)] + if alts.Last? then [] else Intervals(alts.more, j + 1)
  }

  lemma {:induction false} AltsAre(pat: string, i: nat, alts: Choice, prest: nat, pe: nat)
    requires ChoiceOk(alts) && StandsAt(pat, i, ChoiceText(alts) + [')']) && i > 0
    requires prest == i + |ChoiceText(alts)| + 1 && prest <= pe
    ensures Alts(pat, i, prest, pe) == Intervals(alts, i)
    decreases alts
  {
    hide ScanFrom, StandsAt, PatternOk, Text, Alts;
    AltCut(pat, i, alts, pe);
    AltsStep(pat, i, prest, pe);
    var j := i + |Text(alts.pattern)|;
    if alts.Or? {
      AltsAre(pat, j + 1, alts.more, prest, pe);
    }
  }

  lemma AltsStep(pat: string, i: nat, prest: nat, pe: nat)
    requires i > 0 && AltEnd(pat, i, pe).Some?
    ensures var n := AltEnd(pat, i, pe).value;
            Alts(pat, i, prest, pe) == [(i, n - 1)] + if i < n < prest && n < pe then Alts(pat, n, prest, pe) else []
  {
    hide ScanFrom;
  }

  /** The scan for a bar ends behind the first alternative. */
  lemma AltCut(pat: string, i: nat, alts: Choice, pe: nat)
    requires ChoiceOk(alts) && StandsAt(pat, i, ChoiceText(alts) + [')']) && i + |ChoiceText(alts)| + 1 <= pe
    ensures var j := i + |Text(alts.pattern)|;
            && AltEnd(pat, i, pe) == Some(j + 1) && StandsAt(pat, i, Text(alts.pattern))
            && (At(pat, j) == '|' || At(pat, j) == ')')
            && (alts.Last? ==> |ChoiceText(alts)| == |Text(alts.pattern)|)
            && (alts.Or? ==> StandsAt(pat, j + 1, ChoiceText(alts.more) + [')'])
                             && |ChoiceText(alts)| == |Text(alts.pattern)| + 1 + |ChoiceText(alts.more)|)
  {
    hide ScanFrom, StandsAt, PatternOk, Text;
    var t := Text(alts.pattern);
    var j := i + |t|;
    if alts.Last? {
      assert [')'] == [')'] + [];
      StandsParts(pat, i, t, [')']);
      StandsChar(pat, j, ')', []);
    } else {
      Associate(t, ['|'] + ChoiceText(alts.more), [')']);
      Associate(['|'], ChoiceText(alts.more), [')']);
      StandsParts(pat, i, t, ['|'] + (ChoiceText(alts.more) + [')']));
      StandsChar(pat, j, '|', ChoiceText(alts.more) + [')']);
    }
    ScanPattern(pat, i, alts.pattern, pe, true, 0);
    ScanStops(pat, j, pe, true);
  }

  // ----- a text denotes what its pattern does

  /** The language at a character that starts no group. */
  lemma Unfolds(pat: string, p: nat, pe: nat, ext: bool, s: string)
    requires p < pe && !(ext && IsGroup(pat, p))
    ensures var m := Spec(ext);
            Lang(pat, p, pe, m, s) <==>
              match At(pat, p)
              case '?' => s != "" && Lang(pat, p + 1, pe, m, s[1..])
              case '*' => exists k :: 0 <= k <= |s| && Lang(pat, p + 1, pe, m, s[k..])
              case '\\' => p + 1 < pe && s != "" && s[0] == At(pat, p + 1) && Lang(pat, p + 2, pe, m, s[1..])
              case '[' =>
                && s != ""
                && var v := BrackVerdict(pat, p + 1, s[0]);
                   v.Match? && p < v.next && Lang(pat, v.next, pe, m, s[1..])
              case c => s != "" && s[0] == c && Lang(pat, p + 1, pe, m, s[1..])
  {
    hide BrackVerdict;
  }

  lemma NoGroupAt(pat: string, p: nat, pe: nat, pt: Pattern, ext: bool, inside: bool)
    requires Placed(pat, p, pe, pt, ext, inside) && pt.Then? && !pt.part.Group?
    ensures !(ext && IsGroup(pat, p))
    ensures At(pat, p) == PartText(pt.part)[0]
    ensures pt.part.Escape? ==> p + 1 < pe && At(pat, p + 1) == pt.part.c
  {
    hide Placed, StandsAt, Text, PatternOk, ListTail, ChoiceText;
    var n := p + |PartText(pt.part)|;
    PlacedParts(pat, p, pe, pt, ext, inside);
    StandsIndex(pat, p, PartText(pt.part), 0);
    if pt.part.Escape? {
      StandsIndex(pat, p, PartText(pt.part), 1);
    }
    if ext {
      NoParenthesis(pat, n, pe, pt.rest, inside);
    }
  }

  /** The verdict on the list at the front of a pattern. */
  lemma ListFront(pat: string, p: nat, pe: nat, pt: Pattern, ext: bool, inside: bool, c: char)
    requires Placed(pat, p, pe, pt, ext, inside) && pt.Then? && pt.part.OneIn?
    ensures BrackVerdict(pat, p + 1, c)
              == if In(pt.part.entries, c) == pt.part.mark.NoMark? then Match(p + |PartText(pt.part)|) else NoMatch
  {
    hide BrackVerdict, StandsAt, In, ListTail, ListOk, Clear;
    PlacedParts(pat, p, pe, pt, ext, inside);
    var mark, es := pt.part.mark, pt.part.entries;
    StandsChar(pat, p, '[', MarkText(mark) + ListTail(es));
    SpelledVerdict(pat, p + 1, mark, es, c);
  }

  /** The language of a written pattern is what the pattern denotes. */
  lemma {:induction false} PatternMeans(pat: string, p: nat, pe: nat, pt: Pattern, ext: bool, inside: bool, s: string)
    requires Placed(pat, p, pe, pt, ext, inside)
    ensures Lang(pat, p, pe, Spec(ext), s) <==> Fits(pt, s)
    decreases pt
  {
    hide Lang, BrackVerdict, In, Placed, IsGroup, PartText;
    if pt.Empty? {
      EmptyMeans(pat, p, pe, pt, ext, inside, s);
    } else if pt.part.Group? {
      GroupMeans(pat, p, pe, pt, ext, inside, s);
    } else if pt.part.AnySome? {
      SomeMeans(pat, p, pe, pt, ext, inside, s);
    } else if s != "" {
      PlacedParts(pat, p, pe, pt, ext, inside);
      PatternMeans(pat, p + |PartText(pt.part)|, pe, pt.rest, ext, inside, s[1..]);
      OneMeans(pat, p, pe, pt, ext, inside, s);
    } else {
      OneMeans(pat, p, pe, pt, ext, inside, s);
    }
  }

  lemma EmptyMeans(pat: string, p: nat, pe: nat, pt: Pattern, ext: bool, inside: bool, s: string)
    requires Placed(pat, p, pe, pt, ext, inside) && pt.Empty?
    ensures Lang(pat, p, pe, Spec(ext), s) <==> Fits(pt, s)
  {
    EmptyText(pt);
    hide StandsAt;
  }

  /** A part that takes one character. */
  lemma OneMeans(pat: string, p: nat, pe: nat, pt: Pattern, ext: bool, inside: bool, s: string)
    requires Placed(pat, p, pe, pt, ext, inside) && pt.Then? && !pt.part.Group? && !pt.part.AnySome?
    requires s != "" ==> (Lang(pat, p + |PartText(pt.part)|, pe, Spec(ext), s[1..]) <==> Fits(pt.rest, s[1..]))
    ensures Lang(pat, p, pe, Spec(ext), s) <==> Fits(pt, s)
  {
    hide Lang, BrackVerdict, In, Placed, IsGroup;
    PlacedParts(pat, p, pe, pt, ext, inside);
    NoGroupAt(pat, p, pe, pt, ext, inside);
    Unfolds(pat, p, pe, ext, s);
    if pt.part.OneIn? && s != "" {
      ListFront(pat, p, pe, pt, ext, inside, s[0]);
    }
  }

  lemma {:induction false} SomeMeans(pat: string, p: nat, pe: nat, pt: Pattern, ext: bool, inside: bool, s: string)
    requires Placed(pat, p, pe, pt, ext, inside) && pt.Then? && pt.part.AnySome?
    ensures Lang(pat, p, pe, Spec(ext), s) <==> Fits(pt, s)
    decreases pt, 0
  {
    hide Lang, Placed, IsGroup;
    PlacedParts(pat, p, pe, pt, ext, inside);
    NoGroupAt(pat, p, pe, pt, ext, inside);
    Unfolds(pat, p, pe, ext, s);
    forall k | 0 <= k <= |s|
      ensures Lang(pat, p + 1, pe, Spec(ext), s[k..]) <==> Fits(pt.rest, s[k..])
    {
      PatternMeans(pat, p + 1, pe, pt.rest, ext, inside, s[k..]);
    }
  }

  ghost predicate InOne(pat: string, ivs: seq<(nat, nat)>, x: string) {
    exists i :: 0 <= i < |ivs| && Lang(pat, ivs[i].0, ivs[i].1, Spec(true), x)
  }

  lemma InOneFirst(pat: string, iv: (nat, nat), ivs: seq<(nat, nat)>, x: string)
    ensures InOne(pat, [iv] + ivs, x) <==> Lang(pat, iv.0, iv.1, Spec(true), x) || InOne(pat, ivs, x)
  {
    hide Lang;
    var all := [iv] + ivs;
    assert all[0] == iv && forall i :: 0 <= i < |ivs| ==> all[i + 1] == ivs[i];
  }

  lemma {:induction false} ChoiceMeans(pat: string, i: nat, alts: Choice, pe: nat, x: string)
    requires ChoiceOk(alts) && StandsAt(pat, i, ChoiceText(alts) + [')']) && i + |ChoiceText(alts)| + 1 <= pe
    ensures InOne(pat, Intervals(alts, i), x) <==> FitsAny(alts, x)
    decreases alts, 0
  {
    hide Lang, StandsAt, Text, PatternOk, Fits, InOne;
    var j := i + |Text(alts.pattern)|;
    AltCut(pat, i, alts, pe);
    PatternMeans(pat, i, j, alts.pattern, true, true, x);
    if alts.Or? {
      ChoiceMeans(pat, j + 1, alts.more, pe, x);
      InOneFirst(pat, (i, j), Intervals(alts.more, j + 1), x);
    } else {
      InOneFirst(pat, (i, j), [], x);
      InNoInterval(pat, x);
    }
  }

  lemma InNoInterval(pat: string, x: string)
    ensures !InOne(pat, [], x)
  {
  }

  /** A group at the front of a pattern. */
  ghost predicate GroupAt(pat: string, g: nat, pe: nat, op: char, alts: Choice) {
    && StandsAt(pat, g, PartText(Group(op, alts))) && PartOk(Group(op, alts), true, true)
    && g + |PartText(Group(op, alts))| <= pe
  }

  lemma {:induction false} ListMeans(pat: string, g: nat, pe: nat, op: char, alts: Choice, x: string)
    requires GroupAt(pat, g, pe, op, alts) && g < pe
    ensures InList(pat, g, pe, Spec(true), x) <==> FitsAny(alts, x)
    decreases alts, 1
  {
    hide Lang, StandsAt, ChoiceText, ChoiceOk, ScanFrom, Alts, FitsAny;
    var prest := g + |PartText(Group(op, alts))|;
    GroupStands(pat, g, op, alts);
    GroupEnds(pat, g, op, alts, pe);
    AltsAre(pat, g + 2, alts, prest, pe);
    ChoiceMeans(pat, g + 2, alts, pe, x);
  }

  /** Repeated matches of the list are repeated matches of the alternatives. */
  lemma {:induction false} RepeatsMean(pat: string, g: nat, pe: nat, op: char, alts: Choice, x: string)
    requires GroupAt(pat, g, pe, op, alts) && g < pe && At(pat, g) == op
    ensures (if op == '!' then !InList(pat, g, pe, Spec(true), x) else Repeats(pat, g, pe, Spec(true), x))
            <==> FitsGroup(op, alts, x)
    decreases alts, 2
  {
    hide Lang, StandsAt, InList, FitsAny, ChoiceOk;
    forall y: string
      ensures InList(pat, g, pe, Spec(true), y) <==> FitsAny(alts, y)
    {
      ListMeans(pat, g, pe, op, alts, y);
    }
    forall n: nat
      ensures op != '!' ==> (CountOk(op, n) <==> Often(op, n))
    {
    }
    if op != '!' {
      if Repeats(pat, g, pe, Spec(true), x) {
        var parts :| Flatten(parts) == x && CountOk(At(pat, g), |parts|)
                     && forall i :: 0 <= i < |parts| ==> InList(pat, g, pe, Spec(true), parts[i]);
        assert Often(op, |parts|) && forall i :: 0 <= i < |parts| ==> FitsAny(alts, parts[i]);
      }
      if FitsGroup(op, alts, x) {
        var parts: seq<string> :| Flatten(parts) == x && Often(op, |parts|)
                                  && forall i :: 0 <= i < |parts| ==> FitsAny(alts, parts[i]);
        assert CountOk(op, |parts|) && forall i :: 0 <= i < |parts| ==> InList(pat, g, pe, Spec(true), parts[i]);
      }
    }
  }

  lemma GroupUnfolded(pat: string, g: nat, pe: nat, n: nat, s: string)
    requires g < pe && IsGroup(pat, g) && ListEnd(pat, g + 2, pe) == Some(n)
    ensures var m := Spec(true);
            Lang(pat, g, pe, m, s) <==>
              exists k :: 0 <= k <= |s| && Lang(pat, n, pe, m, s[k..])
                          && if At(pat, g) == '!' then !InList(pat, g, pe, m, s[..k])
                             else Repeats(pat, g, pe, m, s[..k])
  {
    hide ScanFrom, InList, Repeats;
  }

  lemma {:induction false} GroupMeans(
      pat: string, p: nat, pe: nat, pt: Pattern, ext: bool, inside: bool, s: string)
    requires Placed(pat, p, pe, pt, ext, inside) && pt.Then? && pt.part.Group?
    ensures Lang(pat, p, pe, Spec(ext), s) <==> Fits(pt, s)
    decreases pt, 0
  {
    hide Lang, InList, Repeats, FitsGroup, StandsAt, ChoiceText, ChoiceOk, Placed, ScanFrom;
    var op, alts, n := pt.part.op, pt.part.alts, p + |PartText(pt.part)|;
    PlacedParts(pat, p, pe, pt, ext, inside);
    assert ext;
    GroupStands(pat, p, op, alts);
    GroupEnds(pat, p, op, alts, pe);
    GroupUnfolded(pat, p, pe, n, s);
    forall k | 0 <= k <= |s|
      ensures Lang(pat, n, pe, Spec(true), s[k..]) <==> Fits(pt.rest, s[k..])
      ensures (if op == '!' then !InList(pat, p, pe, Spec(true), s[..k]) else Repeats(pat, p, pe, Spec(true), s[..k]))
              <==> FitsGroup(op, alts, s[..k])
    {
      PatternMeans(pat, n, pe, pt.rest, true, inside, s[k..]);
      RepeatsMean(pat, p, pe, op, alts, s[..k]);
    }
  }

  // ----- the source decides what a pattern denotes

  /** What the matcher needs of pat[p..pe], and of a run behind a star. */
  ghost predicate Decided(pat: string, p: nat, pe: nat, ext: bool, star: bool) {
    && Defined(pat, p, pe, ext) && Safe(pat, p, pe, ext)
    && (star ==> StarDefined(pat, p, pe, ext) && StarSafe(pat, p, pe, ext))
  }

  lemma DecidedEnd(pat: string, pe: nat, ext: bool)
    ensures Decided(pat, pe, pe, ext, true)
  {
  }

  /** At a character that is no wildcard and starts no group or list. */
  lemma DecidedPlain(pat: string, p: nat, pe: nat, ext: bool, n: nat)
    requires p < pe && !(ext && IsGroup(pat, p)) && At(pat, p) !in {'*', '?', '['}
    requires n == (if At(pat, p) == '\\' then p + 2 else p + 1) && Decided(pat, n, pe, ext, false)
    ensures Decided(pat, p, pe, ext, true)
  {
    DefinedPlain(pat, p, pe, ext, n);
    SafePlain(pat, p, pe, ext, n);
    hide Defined, Safe, StarDefined, StarSafe;
    StarSafeRest(pat, p, pe, ext);
  }

  lemma DefinedPlain(pat: string, p: nat, pe: nat, ext: bool, n: nat)
    requires p < pe && !(ext && IsGroup(pat, p)) && At(pat, p) !in {'*', '?', '['}
    requires n == (if At(pat, p) == '\\' then p + 2 else p + 1) && Defined(pat, n, pe, ext)
    ensures Defined(pat, p, pe, ext) && StarDefined(pat, p, pe, ext)
  {
    assert Defined(pat, p, pe, ext);
  }

  lemma SafePlain(pat: string, p: nat, pe: nat, ext: bool, n: nat)
    requires p < pe && !(ext && IsGroup(pat, p)) && At(pat, p) !in {'*', '?', '['}
    requires n == (if At(pat, p) == '\\' then p + 2 else p + 1) && Safe(pat, n, pe, ext)
    ensures Safe(pat, p, pe, ext)
  {
  }

  /** At a wildcard. */
  lemma DecidedWild(pat: string, p: nat, pe: nat, ext: bool, star: bool)
    requires p < pe && !(ext && IsGroup(pat, p)) && At(pat, p) in {'*', '?'}
    requires Decided(pat, p + 1, pe, ext, At(pat, p) == '*' || star)
    ensures Decided(pat, p, pe, ext, star)
  {
    hide StarSafe;
    if star {
      StarSafeStep(pat, p, pe, ext);
    }
  }

  lemma DecidedList(pat: string, p: nat, pe: nat, ext: bool, n: nat)
    requires p < n <= pe && At(pat, p) == '[' && Decided(pat, n, pe, ext, false)
    requires AllTakeOne(pat, p + 1, n)
    ensures Decided(pat, p, pe, ext, true)
  {
    assert !IsGroup(pat, p);
    DefinedList(pat, p, pe, ext, n);
    SafeList(pat, p, pe, ext, n);
    hide Defined, Safe, StarDefined, StarSafe;
    StarSafeRest(pat, p, pe, ext);
  }

  /** The list takes the character, or does not. */
  predicate TakesOne(pat: string, p: nat, n: nat, c: char) {
    BrackVerdict(pat, p, c) == Match(n) || BrackVerdict(pat, p, c) == NoMatch
  }

  ghost predicate AllTakeOne(pat: string, p: nat, n: nat) {
    forall c :: TakesOne(pat, p, n, c)
  }

  lemma DefinedList(pat: string, p: nat, pe: nat, ext: bool, n: nat)
    requires p < n <= pe && At(pat, p) == '[' && Defined(pat, n, pe, ext)
    requires AllTakeOne(pat, p + 1, n)
    ensures Defined(pat, p, pe, ext) && StarDefined(pat, p, pe, ext)
  {
    hide BrackVerdict;
    forall c
      ensures BracketDefined(pat, p, pe, ext, c)
    {
      assert TakesOne(pat, p + 1, n, c);
    }
    assert Defined(pat, p, pe, ext);
  }

  lemma SafeList(pat: string, p: nat, pe: nat, ext: bool, n: nat)
    requires p < n <= pe && At(pat, p) == '[' && Safe(pat, n, pe, ext)
    requires AllTakeOne(pat, p + 1, n)
    ensures Safe(pat, p, pe, ext)
  {
    hide BrackVerdict;
    forall c
      ensures BracketSafe(pat, p, pe, ext, c)
    {
      assert TakesOne(pat, p + 1, n, c);
    }
  }

  ghost predicate AllDecided(pat: string, ivs: seq<(nat, nat)>) {
    forall i :: 0 <= i < |ivs| ==> Decided(pat, ivs[i].0, ivs[i].1, true, false)
  }

  lemma DecidedGroup(pat: string, p: nat, pe: nat, n: nat)
    requires p + 2 < n <= pe && IsGroup(pat, p) && ListEnd(pat, p + 2, pe) == Some(n) && At(pat, n - 1) == ')'
    requires Decided(pat, n, pe, true, false)
    requires AllDecided(pat, Alts(pat, p + 2, n, pe))
    ensures Decided(pat, p, pe, true, false)
  {
    hide ScanFrom, Alts, StarSafe, StarDefined;
    var alts := Alts(pat, p + 2, n, pe);
    assert forall i :: 0 <= i < |alts| ==> Defined(pat, alts[i].0, alts[i].1, true);
    assert ListDefined(pat, p, pe, true);
    GroupIsSafe(pat, p, pe, true);
  }

  lemma {:induction false} PatternDecided(
      pat: string, p: nat, pe: nat, pt: Pattern, ext: bool, inside: bool, star: bool)
    requires Placed(pat, p, pe, pt, ext, inside) && RunsClear(pt, star)
    ensures Decided(pat, p, pe, ext, star)
    decreases pt
  {
    hide Decided, Placed, IsGroup, PartText, BrackVerdict, ChoiceClear;
    if pt.Empty? {
      EmptyDecided(pat, p, pe, pt, ext, inside, star);
    } else {
      var n := p + |PartText(pt.part)|;
      PlacedParts(pat, p, pe, pt, ext, inside);
      if pt.part.Group? {
        PatternDecided(pat, n, pe, pt.rest, ext, inside, false);
        GroupDecided(pat, p, pe, pt, ext, inside);
      } else {
        PatternDecided(pat, n, pe, pt.rest, ext, inside, pt.part.AnySome? || (pt.part.AnyOne? && star));
        OneDecided(pat, p, pe, pt, ext, inside, star);
      }
    }
  }

  lemma EmptyDecided(pat: string, p: nat, pe: nat, pt: Pattern, ext: bool, inside: bool, star: bool)
    requires Placed(pat, p, pe, pt, ext, inside) && pt.Empty?
    ensures Decided(pat, p, pe, ext, star)
  {
    hide StandsAt;
    EmptyText(pt);
    DecidedEnd(pat, pe, ext);
    DecidedLess(pat, p, pe, ext, star);
  }

  lemma DecidedLess(pat: string, p: nat, pe: nat, ext: bool, star: bool)
    requires Decided(pat, p, pe, ext, true)
    ensures Decided(pat, p, pe, ext, star)
  {
    hide Defined, Safe, StarDefined, StarSafe;
  }

  lemma OneDecided(pat: string, p: nat, pe: nat, pt: Pattern, ext: bool, inside: bool, star: bool)
    requires Placed(pat, p, pe, pt, ext, inside) && pt.Then? && !pt.part.Group?
    requires Decided(pat, p + |PartText(pt.part)|, pe, ext, pt.part.AnySome? || (pt.part.AnyOne? && star))
    ensures Decided(pat, p, pe, ext, star)
  {
    hide Decided, Placed, IsGroup, BrackVerdict, In;
    var n := p + |PartText(pt.part)|;
    PlacedParts(pat, p, pe, pt, ext, inside);
    NoGroupAt(pat, p, pe, pt, ext, inside);
    match pt.part {
      case Literal(c) => DecidedPlain(pat, p, pe, ext, n);
      case Escape(c) => DecidedPlain(pat, p, pe, ext, n);
      case AnyOne => DecidedWild(pat, p, pe, ext, star);
      case AnySome => DecidedWild(pat, p, pe, ext, star);
      case OneIn(mark, es) =>
        ListTakesOne(pat, p, pe, pt, ext, inside);
        DecidedList(pat, p, pe, ext, n);
    }
    if !pt.part.AnyOne? && !pt.part.AnySome? {
      DecidedLess(pat, p, pe, ext, star);
    }
  }

  lemma ListTakesOne(pat: string, p: nat, pe: nat, pt: Pattern, ext: bool, inside: bool)
    requires Placed(pat, p, pe, pt, ext, inside) && pt.Then? && pt.part.OneIn?
    ensures AllTakeOne(pat, p + 1, p + |PartText(pt.part)|)
  {
    hide BrackVerdict, Placed, In;
    var q, n := p + 1, p + |PartText(pt.part)|;
    forall c
      ensures TakesOne(pat, q, n, c)
    {
      ListFront(pat, p, pe, pt, ext, inside, c);
    }
  }

  lemma AllDecidedFirst(pat: string, iv: (nat, nat), ivs: seq<(nat, nat)>)
    requires Decided(pat, iv.0, iv.1, true, false) && AllDecided(pat, ivs)
    ensures AllDecided(pat, [iv] + ivs)
  {
    hide Decided;
  }

  lemma {:induction false} ChoiceDecided(pat: string, i: nat, alts: Choice, pe: nat)
    requires ChoiceOk(alts) && ChoiceClear(alts)
    requires StandsAt(pat, i, ChoiceText(alts) + [')']) && i + |ChoiceText(alts)| + 1 <= pe
    ensures AllDecided(pat, Intervals(alts, i))
    decreases alts
  {
    hide StandsAt, Text, PatternOk, AllDecided, Decided, RunsClear;
    var j := i + |Text(alts.pattern)|;
    AltCut(pat, i, alts, pe);
    PatternDecided(pat, i, j, alts.pattern, true, true, false);
    if alts.Or? {
      ChoiceDecided(pat, j + 1, alts.more, pe);
      AllDecidedFirst(pat, (i, j), Intervals(alts.more, j + 1));
    } else {
      NoneDecided(pat);
      AllDecidedFirst(pat, (i, j), []);
    }
  }

  lemma NoneDecided(pat: string)
    ensures AllDecided(pat, [])
  {
  }

  lemma {:induction false} GroupDecided(pat: string, p: nat, pe: nat, pt: Pattern, ext: bool, inside: bool)
    requires Placed(pat, p, pe, pt, ext, inside) && pt.Then? && pt.part.Group? && ChoiceClear(pt.part.alts)
    requires Decided(pat, p + |PartText(pt.part)|, pe, ext, false)
    ensures Decided(pat, p, pe, ext, false)
    decreases pt, 0
  {
    hide Decided, StandsAt, ChoiceText, ChoiceOk, Placed, ScanFrom, Alts, ChoiceClear;
    var op, alts, n := pt.part.op, pt.part.alts, p + |PartText(pt.part)|;
    PlacedParts(pat, p, pe, pt, ext, inside);
    assert ext;
    GroupStands(pat, p, op, alts);
    GroupEnds(pat, p, op, alts, pe);
    AltsAre(pat, p + 2, alts, n, pe);
    ChoiceDecided(pat, p + 2, alts, pe);
    DecidedGroup(pat, p, pe, n);
  }

  // ----- whole patterns

  /** Without groups every run is clear. */
  lemma {:induction false} PlainRunsClear(pt: Pattern, inside: bool, star: bool)
    requires PatternOk(pt, false, inside)
    ensures RunsClear(pt, star)
    decreases pt
  {
    if pt.Then? {
      PlainRunsClear(pt.rest, inside, pt.part.AnySome? || (pt.part.AnyOne? && star));
    }
  }

  /** A pattern is written at the front of its text. */
  lemma WholeText(pt: Pattern, ext: bool)
    requires PatternOk(pt, ext, false)
    ensures Placed(Text(pt), 0, |Text(pt)|, pt, ext, false)
  {
    assert Text(pt)[0..|Text(pt)|] == Text(pt);
    hide Text, PatternOk;
  }

  lemma {:induction false} EntriesClean(es: seq<Entry>, first: bool)
    requires EntriesOk(es, first)
    ensures NoNul(ListTail(es))
    decreases |es|
  {
    if es != [] {
      EntriesClean(es[1..], false);
      TailParts(es);
      assert NoNul(EntryText(es[0]));
      hide ListTail, EntryText;
    }
  }

  lemma {:induction false} PartClean(part: Part, ext: bool, inside: bool)
    requires PartOk(part, ext, inside)
    ensures NoNul(PartText(part))
    decreases part
  {
    if part.OneIn? {
      EntriesClean(part.entries, true);
      hide ListTail;
    } else if part.Group? {
      ChoiceClean(part.alts);
      hide ChoiceText;
    }
  }

  lemma {:induction false} TextClean(pt: Pattern, ext: bool, inside: bool)
    requires PatternOk(pt, ext, inside)
    ensures NoNul(Text(pt))
    decreases pt
  {
    if pt.Then? {
      PartClean(pt.part, ext, inside);
      TextClean(pt.rest, ext, inside);
      hide PartText;
    }
  }

  lemma {:induction false} ChoiceClean(alts: Choice)
    requires ChoiceOk(alts)
    ensures NoNul(ChoiceText(alts))
    decreases alts
  {
    TextClean(alts.pattern, true, true);
    if alts.Or? {
      ChoiceClean(alts.more);
    }
    hide Text;
  }

  /** The text of any pattern means what the pattern denotes, groups behind stars included. */
  lemma TextMeans(pt: Pattern, ext: bool, s: string)
    requires PatternOk(pt, ext, false)
    ensures Lang(Text(pt), 0, |Text(pt)|, Spec(ext), s) <==> Fits(pt, s)
  {
    WholeText(pt, ext);
    hide Lang, Fits, Text, Placed;
    PatternMeans(Text(pt), 0, |Text(pt)|, pt, ext, false, s);
  }

  /** And the source decides it: always without groups, and with them where none stands in a run behind a star. */
  lemma SourceDecides(pt: Pattern, ext: bool, s: string)
    requires PatternOk(pt, ext, false) && (ext ==> RunsClear(pt, false))
    ensures var t := Text(pt);
            NoNul(t) && Defined(t, 0, |t|, ext) && (Lang(t, 0, |t|, AsCoded(ext), s) <==> Fits(pt, s))
  {
    hide Lang, Fits, Text, Placed, PatternOk, RunsClear, Defined, Safe, StarDefined, StarSafe;
    if !ext {
      PlainRunsClear(pt, false, false);
    }
    TextClean(pt, ext, false);
    WholeText(pt, ext);
    TextMeans(pt, ext, s);
    PatternDecided(Text(pt), 0, |Text(pt)|, pt, ext, false, false);
    CodeIsLanguage(Text(pt), 0, |Text(pt)|, ext, s);
  }

  /** fnmatch with flags 0 or FNM_EXTMATCH on a written pattern. */
  method FnMatchSpelled(ghost pt: Pattern, pattern: string, str: string, ext: bool) returns (r: bool)
    requires pattern == Text(pt) && NoNul(str) && PatternOk(pt, ext, false) && (ext ==> RunsClear(pt, false))
    ensures r <==> Fits(pt, str)
  {
    SourceDecides(pt, ext, str);
    hide Fits, Text, PatternOk, RunsClear, Lang, Defined;
    r := FnMatch(pattern, str, ext);
  }

  /** A list alone matches one character: one that it holds, or with either mark one that it does not. */
  lemma ListAlone(mark: Mark, es: seq<Entry>, c: char)
    requires ListOk(mark, es) && Clear(es)
    ensures var t := ['['] + (MarkText(mark) + ListTail(es));
            Lang(t, 0, |t|, AsCoded(false), [c]) <==> (In(es, c) <==> mark == NoMark)
  {
    var pt := Then(OneIn(mark, es), Empty);
    var t := ['['] + (MarkText(mark) + ListTail(es));
    assert Text(pt) == t + Text(Empty) == t + [] == t;
    assert Fits(pt, [c]) <==> In(es, c) == mark.NoMark? by {
      assert [c][1..] == "";
    }
    hide Lang, Fits, In, ListTail, ListOk, Clear;
    SourceDecides(pt, false, [c]);
  }
}
