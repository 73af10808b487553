/**
 When the matcher of lib/fnmatch.c decides the language of its pattern.

 CodeIsLanguage holds for every pattern whose star runs are safe; every pattern without
 groups is (PlainIsSafe), and every pattern without brackets whose groups are closed and
 stand behind no star run (SyntaxIsSafe).  StarExact and OptionalGroupExact say that the
 condition on a star run is the weakest one, groups inside the run included.
 TokensAreLanguage reads a plain pattern as a
 list of tokens.
 */
module GlobTheorems {
  import opened CString
  import opened Sequences
  import opened Bracket
  import opened PatternScan
  import opened GlobLanguage
  import opened GlobMatch

  /** Every star run in pat[p..pe] is safe. */
  ghost predicate Safe(pat: string, p: nat, pe: nat, ext: bool)
    decreases Size(p, pe), 2
  {
    if p >= pe then true
    else if ext && IsGroup(pat, p) then
      match ListEnd(pat, p + 2, pe)
      case None => true
      case Some(prest) => ListSafe(pat, p, pe, ext) && Safe(pat, prest, pe, ext)
    else match At(pat, p)
      case '*' => StarSafe(pat, p + 1, pe, ext)
      case '\\' => p + 1 < pe ==> Safe(pat, p + 2, pe, ext)
      case '[' => forall c :: BracketSafe(pat, p, pe, ext, c)
      case _ => Safe(pat, p + 1, pe, ext)
  }

  ghost predicate BracketSafe(pat: string, p: nat, pe: nat, ext: bool, c: char)
    requires p < pe
    decreases Size(p, pe), 1
  {
    var v := BrackVerdict(pat, p + 1, c);
    v.Match? && p < v.next ==> Safe(pat, v.next, pe, ext)
  }

  ghost predicate ListSafe(pat: string, p: nat, pe: nat, ext: bool)
    requires p < pe
    decreases Size(p, pe), 1
  {
    match ListEnd(pat, p + 2, pe)
    case None => true
    case Some(prest) =>
      var alts := Alts(pat, p + 2, prest, pe);
      forall i :: 0 <= i < |alts| ==> Safe(pat, alts[i].0, alts[i].1, ext)
  }

  /** Behind a star the run is decided, and what has to match behind it is safe. */
  ghost predicate StarSafe(pat: string, p: nat, pe: nat, ext: bool)
    decreases Size(p, pe), 3
  {
    var e := RunEnd(pat, p, pe, ext);
    if e >= pe then true
    else if At(pat, e) !in {'*', '?'} then Safe(pat, e, pe, ext) && RunDecided(pat, p, pe, ext, e)
    else
      match ListEnd(pat, e + 2, pe)
      case None => false
      case Some(prest) =>
        Optional(pat, e, prest, pe, ext) && Safe(pat, prest, pe, ext) && RunDecided(pat, p, pe, ext, prest)
  }

  /** On safe patterns the source decides the language. */
  lemma {:induction false} CodeIsLanguage(pat: string, p: nat, pe: nat, ext: bool, s: string)
    requires Safe(pat, p, pe, ext)
    ensures Lang(pat, p, pe, AsCoded(ext), s) <==> Lang(pat, p, pe, Spec(ext), s)
    decreases Size(p, pe), 2
  {
    if p >= pe {
    } else if ext && IsGroup(pat, p) {
      if ListEnd(pat, p + 2, pe).Some? {
        GroupIsLanguage(pat, p, pe, ext, s);
      }
    } else if At(pat, p) == '*' {
      StarIsLanguage(pat, p + 1, pe, ext, s);
    } else if s != "" {
      match At(pat, p)
      case '\\' =>
        if p + 1 < pe {
          CodeIsLanguage(pat, p + 2, pe, ext, s[1..]);
        }
      case '[' =>
        assert BracketSafe(pat, p, pe, ext, s[0]);
        var v := BrackVerdict(pat, p + 1, s[0]);
        if v.Match? && p < v.next {
          CodeIsLanguage(pat, v.next, pe, ext, s[1..]);
        }
      case _ => CodeIsLanguage(pat, p + 1, pe, ext, s[1..]);
    }
  }

  lemma {:induction false} ListIsLanguage(pat: string, g: nat, pe: nat, ext: bool, x: string)
    requires g < pe && ListSafe(pat, g, pe, ext)
    ensures InList(pat, g, pe, AsCoded(ext), x) <==> InList(pat, g, pe, Spec(ext), x)
    decreases Size(g, pe), 0
  {
    if ListEnd(pat, g + 2, pe).Some? {
      var alts := Alts(pat, g + 2, ListEnd(pat, g + 2, pe).value, pe);
      forall i | 0 <= i < |alts|
        ensures Lang(pat, alts[i].0, alts[i].1, AsCoded(ext), x) <==> Lang(pat, alts[i].0, alts[i].1, Spec(ext), x)
      {
        CodeIsLanguage(pat, alts[i].0, alts[i].1, ext, x);
      }
    }
  }

  /** The same list under two readings allows the same repetitions. */
  lemma SameRepeats(pat: string, g: nat, pe: nat, m: Mode, m': Mode, x: string)
    requires g < pe && forall y :: InList(pat, g, pe, m, y) <==> InList(pat, g, pe, m', y)
    ensures Repeats(pat, g, pe, m, x) ==> Repeats(pat, g, pe, m', x)
  {
    hide InList;
    if Repeats(pat, g, pe, m, x) {
      var parts :| Flatten(parts) == x && CountOk(At(pat, g), |parts|)
                   && forall i :: 0 <= i < |parts| ==> InList(pat, g, pe, m, parts[i]);
      assert forall i :: 0 <= i < |parts| ==> InList(pat, g, pe, m', parts[i]);
    }
  }

  /** What a group does with k characters, whatever its operator. */
  ghost predicate TakesFront(pat: string, g: nat, pe: nat, m: Mode, s: string, k: nat)
    requires g < pe && k <= |s| && ListEnd(pat, g + 2, pe).Some?
  {
    && Lang(pat, ListEnd(pat, g + 2, pe).value, pe, m, s[k..])
    && if At(pat, g) == '!' then !InList(pat, g, pe, m, s[..k]) else Repeats(pat, g, pe, m, s[..k])
  }

  lemma GroupTakesFront(pat: string, g: nat, pe: nat, m: Mode, s: string)
    requires g < pe && m.ext && IsGroup(pat, g) && ListEnd(pat, g + 2, pe).Some?
    ensures Lang(pat, g, pe, m, s) <==> exists k :: 0 <= k <= |s| && TakesFront(pat, g, pe, m, s, k)
  {
    hide InList, Repeats, ScanFrom;
    if Lang(pat, g, pe, m, s) {
      var k :| 0 <= k <= |s| && Lang(pat, ListEnd(pat, g + 2, pe).value, pe, m, s[k..])
               && if At(pat, g) == '!' then !InList(pat, g, pe, m, s[..k]) else Repeats(pat, g, pe, m, s[..k]);
      assert TakesFront(pat, g, pe, m, s, k);
    }
  }

  lemma {:induction false} GroupIsLanguage(pat: string, g: nat, pe: nat, ext: bool, s: string)
    requires g < pe && ext && IsGroup(pat, g) && ListEnd(pat, g + 2, pe).Some?
    requires Safe(pat, g, pe, ext)
    ensures Lang(pat, g, pe, AsCoded(ext), s) <==> Lang(pat, g, pe, Spec(ext), s)
    decreases Size(g, pe), 1
  {
    hide Lang, InList, Repeats, ScanFrom;
    var code, spec := AsCoded(ext), Spec(ext);
    var prest := ListEnd(pat, g + 2, pe).value;
    forall x
      ensures InList(pat, g, pe, code, x) <==> InList(pat, g, pe, spec, x)
    {
      ListIsLanguage(pat, g, pe, ext, x);
    }
    forall k | 0 <= k <= |s|
      ensures TakesFront(pat, g, pe, code, s, k) <==> TakesFront(pat, g, pe, spec, s, k)
    {
      CodeIsLanguage(pat, prest, pe, ext, s[k..]);
      SameRepeats(pat, g, pe, code, spec, s[..k]);
      SameRepeats(pat, g, pe, spec, code, s[..k]);
    }
    GroupTakesFront(pat, g, pe, code, s);
    GroupTakesFront(pat, g, pe, spec, s);
  }

  /** s, or some tail of it, matches. */
  ghost predicate TailIn(pat: string, p: nat, pe: nat, m: Mode, s: string) {
    exists k :: 0 <= k <= |s| && Lang(pat, p, pe, m, s[k..])
  }

  lemma TailInIntro(pat: string, p: nat, pe: nat, m: Mode, s: string, k: nat, t: string)
    requires k <= |s| && s[k..] == t && Lang(pat, p, pe, m, t)
    ensures TailIn(pat, p, pe, m, s)
  {
  }

  lemma {:induction false} StarIsLanguage(pat: string, p: nat, pe: nat, ext: bool, s: string)
    requires StarSafe(pat, p, pe, ext)
    ensures StarRun(pat, p, pe, AsCoded(ext), s) <==> TailIn(pat, p, pe, Spec(ext), s)
    decreases Size(p, pe), 3
  {
    hide Lang, StarRun, TailIn, RunDecided, ClosedGroup;
    var e := RunEnd(pat, p, pe, ext);
    var q := if e < pe && At(pat, e) in {'*', '?'} then ListEnd(pat, e + 2, pe).value else e;
    if e >= pe {
      EndIsDecided(pat, p, pe, ext);
      EndAgrees(pat, e, pe, ext);
    } else {
      if q != e {
        OptionalIs(pat, e, q, pe, ext);
      }
      forall v
        ensures Lang(pat, q, pe, AsCoded(ext), v) <==> Lang(pat, q, pe, Spec(ext), v)
      {
        CodeIsLanguage(pat, q, pe, ext, v);
      }
    }
    DecidedRun(pat, p, pe, ext, q, s);
  }

  lemma EndIsDecided(pat: string, p: nat, pe: nat, ext: bool)
    requires RunEnd(pat, p, pe, ext) >= pe
    ensures RunDecided(pat, p, pe, ext, RunEnd(pat, p, pe, ext))
  {
  }

  lemma EndAgrees(pat: string, e: nat, pe: nat, ext: bool)
    requires e >= pe
    ensures Agree(pat, e, pe, ext) && Safe(pat, e, pe, ext)
  {
  }

  /** A second star behind a star. */
  lemma TailOfStar(pat: string, p: nat, pe: nat, ext: bool, s: string)
    requires p < pe && At(pat, p) == '*' && !(ext && At(pat, p + 1) == '(')
    ensures TailIn(pat, p, pe, Spec(ext), s) <==> TailIn(pat, p + 1, pe, Spec(ext), s)
  {
    var spec := Spec(ext);
    if TailIn(pat, p, pe, spec, s) {
      var k :| 0 <= k <= |s| && Lang(pat, p, pe, spec, s[k..]);
      var t := s[k..];
      var j :| 0 <= j <= |t| && Lang(pat, p + 1, pe, spec, t[j..]);
      TailInIntro(pat, p + 1, pe, spec, s, k + j, t[j..]);
    }
    if TailIn(pat, p + 1, pe, spec, s) {
      assert s[0..] == s;
      assert Lang(pat, p, pe, spec, s[0..]);
    }
  }

  /** A `?` behind a star takes one character. */
  lemma TailOfAny(pat: string, p: nat, pe: nat, ext: bool, s: string)
    requires p < pe && At(pat, p) == '?' && !(ext && IsGroup(pat, p))
    ensures TailIn(pat, p, pe, Spec(ext), s) <==> s != "" && TailIn(pat, p + 1, pe, Spec(ext), s[1..])
  {
    var spec := Spec(ext);
    if TailIn(pat, p, pe, spec, s) {
      var k :| 0 <= k <= |s| && Lang(pat, p, pe, spec, s[k..]);
      TailInIntro(pat, p + 1, pe, spec, s[1..], k, s[k..][1..]);
    }
    if s != "" && TailIn(pat, p + 1, pe, spec, s[1..]) {
      var k :| 0 <= k <= |s[1..]| && Lang(pat, p + 1, pe, spec, s[1..][k..]);
      assert s[k..][1..] == s[1..][k..];
      TailInIntro(pat, p, pe, spec, s, k, s[k..]);
    }
  }

  /** Without extended groups every pattern is safe. */
  lemma {:induction false} PlainIsSafe(pat: string, p: nat, pe: nat)
    ensures Safe(pat, p, pe, false) && StarSafe(pat, p, pe, false)
    decreases Size(p, pe)
  {
    if p < pe {
      PlainIsSafe(pat, p + 1, pe);
      PlainIsSafe(pat, p + 2, pe);
      forall c
        ensures BracketSafe(pat, p, pe, false, c)
      {
        var v := BrackVerdict(pat, p + 1, c);
        if v.Match? && p < v.next {
          PlainIsSafe(pat, v.next, pe);
        }
      }
    }
  }

  /** With flags 0 the source decides the language of every pattern. */
  lemma PlainDecidesLanguage(pat: string, s: string)
    ensures Lang(pat, 0, |pat|, AsCoded(false), s) <==> Lang(pat, 0, |pat|, Spec(false), s)
  {
    PlainIsSafe(pat, 0, |pat|);
    CodeIsLanguage(pat, 0, |pat|, false, s);
  }

  // ----- runs behind a star

  predicate PlainAt(pat: string, p: nat, pe: nat, ext: bool) {
    p < pe && At(pat, p) in {'*', '?'} && !(ext && IsGroup(pat, p))
  }

  predicate StarGroupAt(pat: string, p: nat, pe: nat, ext: bool) {
    p < pe && ext && At(pat, p) == '*' && At(pat, p + 1) == '(' && ListEnd(pat, p + 2, pe).Some?
  }

  /** A run is made of `*`, `?` and closed `*(...)`. */
  predicate InRun(pat: string, p: nat, pe: nat, ext: bool) {
    PlainAt(pat, p, pe, ext) || StarGroupAt(pat, p, pe, ext)
  }

  function Next(pat: string, p: nat, pe: nat, ext: bool): (n: nat)
    requires InRun(pat, p, pe, ext)
    ensures n > p
  {
    if PlainAt(pat, p, pe, ext) then p + 1 else ListEnd(pat, p + 2, pe).value
  }

  function RunEnd(pat: string, p: nat, pe: nat, ext: bool): (e: nat)
    ensures p <= e && !InRun(pat, e, pe, ext)
    decreases Size(p, pe)
  {
    if InRun(pat, p, pe, ext) then RunEnd(pat, Next(pat, p, pe, ext), pe, ext) else p
  }

  /** The plain `?` of a run. */
  function Marks(pat: string, p: nat, pe: nat, ext: bool): nat
    decreases Size(p, pe)
  {
    if !InRun(pat, p, pe, ext) then 0
    else (if PlainAt(pat, p, pe, ext) && At(pat, p) == '?' then 1 else 0) + Marks(pat, Next(pat, p, pe, ext), pe, ext)
  }

  /** No plain `*` stands in the run. */
  predicate NoPlainStar(pat: string, p: nat, pe: nat, ext: bool)
    decreases Size(p, pe)
  {
    InRun(pat, p, pe, ext) ==>
      !(PlainAt(pat, p, pe, ext) && At(pat, p) == '*') && NoPlainStar(pat, Next(pat, p, pe, ext), pe, ext)
  }

  /** Behind the last plain `*` of the run stands a group; `seen` says whether one stands in front of it. */
  predicate GroupLast(pat: string, p: nat, pe: nat, ext: bool, seen: bool)
    decreases Size(p, pe)
  {
    if !InRun(pat, p, pe, ext) then seen
    else if !PlainAt(pat, p, pe, ext) then GroupLast(pat, Next(pat, p, pe, ext), pe, ext, true)
    else GroupLast(pat, Next(pat, p, pe, ext), pe, ext, seen && At(pat, p) == '?')
  }

  /** Behind the last plain `*` of the run stands a group and then, not necessarily at once, a plain `?`. */
  predicate MarkBehindGroup(pat: string, p: nat, pe: nat, ext: bool, seen: bool, marked: bool)
    decreases Size(p, pe)
  {
    if !InRun(pat, p, pe, ext) then marked
    else
      var n := Next(pat, p, pe, ext);
      if !PlainAt(pat, p, pe, ext) then MarkBehindGroup(pat, n, pe, ext, true, marked)
      else if At(pat, p) == '?' then MarkBehindGroup(pat, n, pe, ext, seen, marked || seen)
      else MarkBehindGroup(pat, n, pe, ext, false, false)
  }

  lemma {:induction false} RunFacts(pat: string, p: nat, pe: nat, ext: bool)
    ensures GroupLast(pat, p, pe, ext, false) ==> GroupLast(pat, p, pe, ext, true)
    ensures MarkBehindGroup(pat, p, pe, ext, false, false) ==> MarkBehindGroup(pat, p, pe, ext, true, false)
    ensures MarkBehindGroup(pat, p, pe, ext, true, false) ==> MarkBehindGroup(pat, p, pe, ext, true, true)
    ensures MarkBehindGroup(pat, p, pe, ext, false, false) ==> GroupLast(pat, p, pe, ext, false)
    ensures MarkBehindGroup(pat, p, pe, ext, true, true) ==> GroupLast(pat, p, pe, ext, true)
    ensures NoPlainStar(pat, p, pe, ext) ==>
              (MarkBehindGroup(pat, p, pe, ext, true, false) <==> Marks(pat, p, pe, ext) > 0)
    ensures NoPlainStar(pat, p, pe, ext) ==>
              MarkBehindGroup(pat, p, pe, ext, true, true) && GroupLast(pat, p, pe, ext, true)
    decreases Size(p, pe)
  {
    if InRun(pat, p, pe, ext) {
      RunFacts(pat, Next(pat, p, pe, ext), pe, ext);
    }
  }

  /** In front of a plain `*` it does not matter what was seen. */
  lemma {:induction false} Forgotten(pat: string, p: nat, pe: nat, ext: bool)
    requires !NoPlainStar(pat, p, pe, ext)
    ensures GroupLast(pat, p, pe, ext, true) == GroupLast(pat, p, pe, ext, false)
    ensures MarkBehindGroup(pat, p, pe, ext, true, true) == MarkBehindGroup(pat, p, pe, ext, true, false)
                == MarkBehindGroup(pat, p, pe, ext, false, false)
    decreases Size(p, pe)
  {
    if !(PlainAt(pat, p, pe, ext) && At(pat, p) == '*') {
      Forgotten(pat, Next(pat, p, pe, ext), pe, ext);
    }
  }

  /** A closed list behind q, in a pattern without brackets. */
  ghost predicate ClosedGroup(pat: string, q: nat, prest: nat, pe: nat) {
    && q < pe <= |pat| && NoNul(pat) && '[' !in pat && IsGroup(pat, q)
    && ListEnd(pat, q + 2, pe) == Some(prest) && q + 2 < prest <= pe && Cuts(pat, q + 2, prest, false, 0)
  }

  /** The run ends at e; what then has to match starts at q: at e itself, or behind a closed `?(L)`. */
  ghost predicate Rest(pat: string, e: nat, q: nat, pe: nat, ext: bool) {
    || (q == e && (e < pe ==> At(pat, e) !in {'*', '?'}))
    || Optional(pat, e, q, pe, ext)
  }

  ghost predicate Optional(pat: string, e: nat, q: nat, pe: nat, ext: bool) {
    ext && ClosedGroup(pat, e, q, pe) && At(pat, e) == '?'
  }

  lemma RestIs(pat: string, e: nat, q: nat, pe: nat, ext: bool)
    requires Rest(pat, e, q, pe, ext)
    ensures if q == e then e < pe ==> At(pat, e) !in {'*', '?'} else q > e && e < pe && Optional(pat, e, q, pe, ext)
  {
  }

  lemma StarAtPlain(pat: string, p: nat, pe: nat, m: Mode, s: string)
    requires PlainAt(pat, p, pe, m.ext)
    ensures StarRun(pat, p, pe, m, s) <==>
              if At(pat, p) == '*' then StarRun(pat, p + 1, pe, m, s) else s != "" && StarRun(pat, p + 1, pe, m, s[1..])
  {
    hide Lang;
  }

  lemma StarAtGroup(pat: string, p: nat, pe: nat, m: Mode, s: string)
    requires StarGroupAt(pat, p, pe, m.ext)
    ensures StarRun(pat, p, pe, m, s) <==>
              || (exists k :: 0 <= k < |s| && Lang(pat, p, pe, m, s[k..]))
              || StarRun(pat, ListEnd(pat, p + 2, pe).value, pe, m, s)
  {
    hide Lang;
  }

  lemma StarAtRest(pat: string, e: nat, pe: nat, m: Mode, s: string)
    requires e < pe ==> At(pat, e) !in {'*', '?'}
    ensures StarRun(pat, e, pe, m, s) <==> e >= pe || exists k :: 0 <= k < |s| && Lang(pat, e, pe, m, s[k..])
  {
    hide Lang;
  }

  lemma StarAtOptional(pat: string, q: nat, pe: nat, m: Mode, u: string)
    requires q < pe && At(pat, q) == '?' && StarRun(pat, q, pe, m, u)
    ensures u != "" && StarRun(pat, q + 1, pe, m, u[1..])
  {
    hide Lang;
  }

  lemma LangAtPlain(pat: string, p: nat, pe: nat, ext: bool, s: string)
    requires PlainAt(pat, p, pe, ext)
    ensures Lang(pat, p, pe, AsCoded(ext), s) <==>
              if At(pat, p) == '*' then StarRun(pat, p + 1, pe, AsCoded(ext), s)
              else s != "" && Lang(pat, p + 1, pe, AsCoded(ext), s[1..])
  {
    hide StarRun;
  }

  lemma RunAtStar(pat: string, p: nat, pe: nat, ext: bool, s: string)
    requires p < pe && At(pat, p) == '*' && !(ext && IsGroup(pat, p))
    ensures Lang(pat, p, pe, AsCoded(ext), s) <==> StarRun(pat, p + 1, pe, AsCoded(ext), s)
    ensures Lang(pat, p, pe, Spec(ext), s) <==> TailIn(pat, p + 1, pe, Spec(ext), s)
  {
    hide StarRun;
  }

  lemma SliceTwice(s: string, a: nat, b: nat)
    requires a + b <= |s|
    ensures s[a..][b..] == s[a + b..] == s[b..][a..]
  {
  }

  /** A group that may match nothing. */
  lemma GroupSkipped(pat: string, g: nat, pe: nat, m: Mode, s: string)
    requires g < pe && m.ext && IsGroup(pat, g) && At(pat, g) in {'*', '?'} && ListEnd(pat, g + 2, pe).Some?
    requires Lang(pat, ListEnd(pat, g + 2, pe).value, pe, m, s)
    ensures Lang(pat, g, pe, m, s)
  {
    hide Lang, Splits, ScanFrom;
    NoRepeat(pat, g, pe, m, s);
    GroupSplits(pat, g, pe, m, s);
  }

  /** Behind `*`, a `*(...)` or a `?(...)` adds nothing to the rest of the pattern. */
  lemma GroupTail(pat: string, g: nat, pe: nat, m: Mode, s: string)
    requires g < pe && m.ext && IsGroup(pat, g) && At(pat, g) in {'*', '?'} && ListEnd(pat, g + 2, pe).Some?
    ensures TailIn(pat, ListEnd(pat, g + 2, pe).value, pe, m, s) <==> TailIn(pat, g, pe, m, s)
  {
    hide Lang, InList, Repeats, ScanFrom;
    var prest := ListEnd(pat, g + 2, pe).value;
    if TailIn(pat, prest, pe, m, s) {
      var k :| 0 <= k <= |s| && Lang(pat, prest, pe, m, s[k..]);
      GroupSkipped(pat, g, pe, m, s[k..]);
    }
    if TailIn(pat, g, pe, m, s) {
      var k :| 0 <= k <= |s| && Lang(pat, g, pe, m, s[k..]);
      var t := s[k..];
      GroupSplits(pat, g, pe, m, t);
      var j :| 0 <= j <= |t| && Splits(pat, g, pe, m, t, j);
      TailInIntro(pat, prest, pe, m, s, k + j, t[j..]);
    }
  }

  /** In front of its end a list is not closed. */
  lemma NotYetClosed(pat: string, s: nat, prest: nat, i: nat)
    requires s <= i < prest <= |pat| && forall j :: s < j < prest ==> !Cuts(pat, s, j, false, 0)
    ensures Depth(pat, s, i) >= 0
  {
    if Depth(pat, s, i) < 0 {
      FallIsClosed(pat, s, i);
    }
  }

  /** A group inside a list ends inside it. */
  lemma InnerGroup(pat: string, q: nat, prest: nat, pe: nat, i: nat)
    requires ClosedGroup(pat, q, prest, pe) && q < i < prest && IsGroup(pat, i)
    ensures var r := ListEnd(pat, i + 2, pe); r.Some? && i < r.value < prest
  {
    hide ScanFrom, Depth;
    ScanFindsFirstCut(pat, q + 2, pe, false, 0);
    InnerListIsClosed(pat, q, q + 2, prest, i);
    ClosedListEnds(pat, i + 2, pe);
    ScanFindsFirstCut(pat, i + 2, pe, false, 0);
    var j :| i + 2 < j <= prest - 1 && Cuts(pat, i + 2, j, false, 0);
  }

  lemma InnerListIsClosed(pat: string, q: nat, s: nat, prest: nat, i: nat)
    requires s == q + 2 < prest <= |pat| && q < i < prest && At(pat, q + 1) == '(' && IsGroup(pat, i)
    requires Cuts(pat, s, prest, false, 0) && forall j :: s < j < prest ==> !Cuts(pat, s, j, false, 0)
    ensures i + 2 <= prest - 1 && ClosedBefore(pat, i + 2, prest - 1)
  {
    assert pat[q + 1] == '(' && pat[prest - 1] == ')';
    assert Depth(pat, i + 2, i + 2) == 0 && Depth(pat, prest, prest) == 0;
    NotYetClosed(pat, s, prest, i + 1);
    DepthSplits(pat, s, i + 1, prest);
    DepthSplits(pat, i + 1, i + 2, prest);
    DepthSplits(pat, i + 2, prest - 1, prest);
    FallIsClosed(pat, i + 2, prest - 1);
  }

  lemma TailOfTail(pat: string, p: nat, pe: nat, m: Mode, s: string, k: nat)
    requires k <= |s| && TailIn(pat, p, pe, m, s[k..])
    ensures TailIn(pat, p, pe, m, s)
  {
    var j :| 0 <= j <= |s[k..]| && Lang(pat, p, pe, m, s[k..][j..]);
    TailInIntro(pat, p, pe, m, s, k + j, s[k..][j..]);
  }

  /** Whatever matches from inside a list on has a tail that matches from behind the list on. */
  lemma {:induction false} PassesList(pat: string, q: nat, prest: nat, pe: nat, i: nat, s: string)
    requires ClosedGroup(pat, q, prest, pe) && q < i <= prest && Lang(pat, i, pe, AsCoded(true), s)
    ensures TailIn(pat, prest, pe, AsCoded(true), s)
    decreases Size(i, pe), 0
  {
    var m := AsCoded(true);
    if i == prest {
      TailInIntro(pat, prest, pe, m, s, 0, s);
    } else if IsGroup(pat, i) {
      InnerGroup(pat, q, prest, pe, i);
      GroupTakesFront(pat, i, pe, m, s);
      var k :| 0 <= k <= |s| && TakesFront(pat, i, pe, m, s, k);
      PassesList(pat, q, prest, pe, ListEnd(pat, i + 2, pe).value, s[k..]);
      TailOfTail(pat, prest, pe, m, s, k);
    } else if pat[i] == '*' {
      assert pat[prest - 1] == ')';
      PassesListInRun(pat, q, prest, pe, i + 1, s);
    } else {
      assert pat[prest - 1] == ')' && pat[i] != '[';
      PassesList(pat, q, prest, pe, if pat[i] == '\\' then i + 2 else i + 1, s[1..]);
      TailOfTail(pat, prest, pe, m, s, 1);
    }
  }

  lemma {:induction false} PassesListInRun(pat: string, q: nat, prest: nat, pe: nat, i: nat, s: string)
    requires ClosedGroup(pat, q, prest, pe) && q < i < prest && StarRun(pat, i, pe, AsCoded(true), s)
    ensures TailIn(pat, prest, pe, AsCoded(true), s)
    decreases Size(i, pe), 1
  {
    var m := AsCoded(true);
    assert pat[prest - 1] == ')';
    if pat[i] == '*' && At(pat, i + 1) == '(' {
      InnerGroup(pat, q, prest, pe, i);
      if k :| 0 <= k < |s| && Lang(pat, i, pe, m, s[k..]) {
        PassesList(pat, q, prest, pe, i, s[k..]);
        TailOfTail(pat, prest, pe, m, s, k);
      } else {
        PassesListInRun(pat, q, prest, pe, ListEnd(pat, i + 2, pe).value, s);
      }
    } else if pat[i] == '*' {
      PassesListInRun(pat, q, prest, pe, i + 1, s);
    } else if pat[i] == '?' {
      PassesListInRun(pat, q, prest, pe, i + 1, s[1..]);
      TailOfTail(pat, prest, pe, m, s, 1);
    } else {
      var k :| 0 <= k < |s| && Lang(pat, i, pe, m, s[k..]);
      PassesList(pat, q, prest, pe, i, s[k..]);
      TailOfTail(pat, prest, pe, m, s, k);
    }
  }

  /** n characters, and then a tail that matches. */
  ghost predicate TailBehind(pat: string, q: nat, pe: nat, m: Mode, s: string, n: nat) {
    n <= |s| && TailIn(pat, q, pe, m, s[n..])
  }

  lemma BehindLater(pat: string, q: nat, pe: nat, m: Mode, s: string, k: nat, n: nat)
    requires k <= |s| && TailBehind(pat, q, pe, m, s[k..], n)
    ensures TailBehind(pat, q, pe, m, s, n)
  {
    hide TailIn;
    SliceTwice(s, k, n);
    TailOfTail(pat, q, pe, m, s[n..], k);
  }

  lemma BehindOne(pat: string, q: nat, pe: nat, m: Mode, s: string, n: nat)
    requires s != ""
    ensures TailBehind(pat, q, pe, m, s[1..], n) <==> TailBehind(pat, q, pe, m, s, n + 1)
  {
    hide TailIn;
    if n + 1 <= |s| {
      SliceTwice(s, 1, n);
    }
  }

  lemma BehindNone(pat: string, q: nat, pe: nat, m: Mode, s: string)
    ensures TailBehind(pat, q, pe, m, s, 0) <==> TailIn(pat, q, pe, m, s)
  {
    hide TailIn;
    assert s[0..] == s;
  }

  /** By the specification a run behind a star takes one character for each plain `?`, and any others. */
  lemma {:induction false} RunMeans(pat: string, p: nat, pe: nat, ext: bool, q: nat, s: string)
    requires Rest(pat, RunEnd(pat, p, pe, ext), q, pe, ext)
    ensures TailIn(pat, p, pe, Spec(ext), s) <==> TailBehind(pat, q, pe, Spec(ext), s, Marks(pat, p, pe, ext))
    decreases Size(p, pe)
  {
    hide Lang, TailIn, TailBehind, ClosedGroup, ScanFrom;
    var m := Spec(ext);
    if PlainAt(pat, p, pe, ext) {
      if At(pat, p) == '*' {
        RunMeans(pat, p + 1, pe, ext, q, s);
        TailOfStar(pat, p, pe, ext, s);
      } else {
        TailOfAny(pat, p, pe, ext, s);
        NoneBehind(pat, q, pe, m, s, Marks(pat, p, pe, ext));
        if s != "" {
          RunMeans(pat, p + 1, pe, ext, q, s[1..]);
          BehindOne(pat, q, pe, m, s, Marks(pat, p + 1, pe, ext));
        }
      }
    } else if StarGroupAt(pat, p, pe, ext) {
      GroupTail(pat, p, pe, m, s);
      RunMeans(pat, ListEnd(pat, p + 2, pe).value, pe, ext, q, s);
    } else {
      BehindNone(pat, q, pe, m, s);
      if q != p {
        OptionalIs(pat, p, q, pe, ext);
        GroupTail(pat, p, pe, m, s);
      }
    }
  }

  lemma NoneBehind(pat: string, q: nat, pe: nat, m: Mode, s: string, n: nat)
    ensures s == "" && n > 0 ==> !TailBehind(pat, q, pe, m, s, n)
  {
  }

  lemma OptionalIs(pat: string, e: nat, q: nat, pe: nat, ext: bool)
    requires Optional(pat, e, q, pe, ext)
    ensures e < pe && ext && IsGroup(pat, e) && At(pat, e) == '?' && ListEnd(pat, e + 2, pe) == Some(q) && q > e
  {
  }

  /** What the source matches behind a star takes as many characters, and one more for a `?(` that it
      reads as a `?`, which it does unless a group stands behind the last plain star. */
  lemma {:induction false} RunTakes(pat: string, p: nat, pe: nat, ext: bool, q: nat, x: nat, s: string)
    requires Rest(pat, RunEnd(pat, p, pe, ext), q, pe, ext) && StarRun(pat, p, pe, AsCoded(ext), s)
    requires x <= 1
    requires x == 1 ==> Optional(pat, RunEnd(pat, p, pe, ext), q, pe, ext) && !GroupLast(pat, p, pe, ext, false)
    ensures TailBehind(pat, q, pe, AsCoded(ext), s, Marks(pat, p, pe, ext) + x)
    decreases Size(p, pe), 1
  {
    hide Lang, StarRun, TailIn, TailBehind, ClosedGroup, ScanFrom;
    var m, n := AsCoded(ext), Marks(pat, p, pe, ext) + x;
    if PlainAt(pat, p, pe, ext) {
      StarAtPlain(pat, p, pe, m, s);
      if At(pat, p) == '*' {
        RunTakes(pat, p + 1, pe, ext, q, x, s);
      } else {
        RunTakes(pat, p + 1, pe, ext, q, x, s[1..]);
        BehindOne(pat, q, pe, m, s, n - 1);
      }
    } else if StarGroupAt(pat, p, pe, ext) {
      StarAtGroup(pat, p, pe, m, s);
      RunFacts(pat, Next(pat, p, pe, ext), pe, ext);
      if k :| 0 <= k < |s| && Lang(pat, p, pe, m, s[k..]) {
        RestTakes(pat, p, pe, ext, q, x, s[k..]);
        BehindLater(pat, q, pe, m, s, k, n);
      } else {
        RunTakes(pat, Next(pat, p, pe, ext), pe, ext, q, x, s);
      }
    } else {
      RunTakesRest(pat, p, pe, ext, q, x, s);
    }
  }

  lemma RunTakesRest(pat: string, e: nat, pe: nat, ext: bool, q: nat, x: nat, s: string)
    requires Rest(pat, e, q, pe, ext) && StarRun(pat, e, pe, AsCoded(ext), s)
    requires x <= 1 && (x == 1 ==> Optional(pat, e, q, pe, ext))
    ensures TailBehind(pat, q, pe, AsCoded(ext), s, x)
  {
    hide StarRun, ScanFrom;
    var m := AsCoded(ext);
    if q == e {
      StarAtRest(pat, e, pe, m, s);
      BehindNone(pat, q, pe, m, s);
      if e >= pe {
        assert s[|s|..] == "";
      }
    } else {
      OptionalIs(pat, e, q, pe, ext);
      StarAtOptional(pat, e, pe, m, s);
      PassesListInRun(pat, e, q, pe, e + 1, s[1..]);
      hide Lang, TailIn;
      if x == 0 {
        TailOfTail(pat, q, pe, m, s, 1);
        BehindNone(pat, q, pe, m, s);
      }
    }
  }

  /** The same for a run that does not stand behind a star. */
  lemma {:induction false} RestTakes(pat: string, p: nat, pe: nat, ext: bool, q: nat, x: nat, s: string)
    requires Rest(pat, RunEnd(pat, p, pe, ext), q, pe, ext) && Lang(pat, p, pe, AsCoded(ext), s)
    requires x <= 1
    requires x == 1 ==> Optional(pat, RunEnd(pat, p, pe, ext), q, pe, ext) && !GroupLast(pat, p, pe, ext, true)
    ensures TailBehind(pat, q, pe, AsCoded(ext), s, Marks(pat, p, pe, ext) + x)
    decreases Size(p, pe), 0
  {
    hide Lang, StarRun, TailIn, TailBehind, TakesFront, ClosedGroup, ScanFrom;
    var m, n := AsCoded(ext), Marks(pat, p, pe, ext) + x;
    if PlainAt(pat, p, pe, ext) {
      LangAtPlain(pat, p, pe, ext, s);
      if At(pat, p) == '*' {
        RunTakes(pat, p + 1, pe, ext, q, x, s);
      } else {
        RestTakes(pat, p + 1, pe, ext, q, x, s[1..]);
        BehindOne(pat, q, pe, m, s, n - 1);
      }
    } else if StarGroupAt(pat, p, pe, ext) {
      var k := GroupFront(pat, p, pe, m, s);
      RestTakes(pat, Next(pat, p, pe, ext), pe, ext, q, x, s[k..]);
      BehindLater(pat, q, pe, m, s, k, n);
    } else {
      BehindNone(pat, q, pe, m, s);
      if q == p {
        TailInIntro(pat, q, pe, m, s, 0, s);
      } else {
        OptionalIs(pat, p, q, pe, ext);
        var k := GroupFront(pat, p, pe, m, s);
        TailInIntro(pat, q, pe, m, s, k, s[k..]);
      }
    }
  }

  lemma GroupFront(pat: string, g: nat, pe: nat, m: Mode, s: string) returns (k: nat)
    requires g < pe && m.ext && IsGroup(pat, g) && ListEnd(pat, g + 2, pe).Some? && Lang(pat, g, pe, m, s)
    ensures k <= |s| && Lang(pat, ListEnd(pat, g + 2, pe).value, pe, m, s[k..])
  {
    hide Lang, ScanFrom;
    GroupTakesFront(pat, g, pe, m, s);
    k :| 0 <= k <= |s| && TakesFront(pat, g, pe, m, s, k);
  }

  /** A run without plain stars, not behind a star, may take just one character for each `?`. */
  lemma {:induction false} StarlessMatches(pat: string, p: nat, pe: nat, ext: bool, q: nat, s: string)
    requires Rest(pat, RunEnd(pat, p, pe, ext), q, pe, ext) && NoPlainStar(pat, p, pe, ext)
    requires Marks(pat, p, pe, ext) <= |s| && Lang(pat, q, pe, AsCoded(ext), s[Marks(pat, p, pe, ext)..])
    ensures Lang(pat, p, pe, AsCoded(ext), s)
    decreases Size(p, pe)
  {
    hide Lang, StarRun, ClosedGroup, ScanFrom;
    var m, n := AsCoded(ext), Marks(pat, p, pe, ext);
    if PlainAt(pat, p, pe, ext) {
      LangAtPlain(pat, p, pe, ext, s);
      SliceTwice(s, 1, n - 1);
      StarlessMatches(pat, p + 1, pe, ext, q, s[1..]);
    } else if StarGroupAt(pat, p, pe, ext) {
      StarlessMatches(pat, Next(pat, p, pe, ext), pe, ext, q, s);
      GroupSkipped(pat, p, pe, m, s);
    } else {
      assert s[0..] == s;
      if q != p {
        OptionalIs(pat, p, q, pe, ext);
        GroupSkipped(pat, p, pe, m, s);
      }
    }
  }

  /** When the source finds a rest that matches from k on. */
  predicate Found(pat: string, p: nat, pe: nat, ext: bool, q: nat, k: nat, s: string) {
    var e := RunEnd(pat, p, pe, ext);
    || (q == e && (e >= pe || k < |s|))
    || (GroupLast(pat, p, pe, ext, false) && (k < |s| || MarkBehindGroup(pat, p, pe, ext, false, false)))
  }

  lemma {:induction false} RunFinds(pat: string, p: nat, pe: nat, ext: bool, q: nat, k: nat, s: string)
    requires Rest(pat, RunEnd(pat, p, pe, ext), q, pe, ext)
    requires Marks(pat, p, pe, ext) <= k <= |s| && Lang(pat, q, pe, AsCoded(ext), s[k..])
    requires Found(pat, p, pe, ext, q, k, s)
    ensures StarRun(pat, p, pe, AsCoded(ext), s)
    decreases Size(p, pe)
  {
    hide Lang, StarRun, ClosedGroup, ScanFrom;
    var m := AsCoded(ext);
    if PlainAt(pat, p, pe, ext) {
      StarAtPlain(pat, p, pe, m, s);
      if At(pat, p) == '*' {
        RunFinds(pat, p + 1, pe, ext, q, k, s);
      } else {
        SliceTwice(s, 1, k - 1);
        RunFinds(pat, p + 1, pe, ext, q, k - 1, s[1..]);
      }
    } else if StarGroupAt(pat, p, pe, ext) {
      var n := Next(pat, p, pe, ext);
      StarAtGroup(pat, p, pe, m, s);
      RunFacts(pat, n, pe, ext);
      if Found(pat, n, pe, ext, q, k, s) {
        RunFinds(pat, n, pe, ext, q, k, s);
      } else if NoPlainStar(pat, n, pe, ext) {
        var j := k - Marks(pat, n, pe, ext);
        SliceTwice(s, j, k - j);
        StarlessMatches(pat, n, pe, ext, q, s[j..]);
        GroupSkipped(pat, p, pe, m, s[j..]);
        assert j < |s|;
      } else {
        Forgotten(pat, n, pe, ext);
      }
    } else {
      RestIs(pat, p, q, pe, ext);
      StarAtRest(pat, p, pe, m, s);
    }
  }

  /** Without a `?` behind a group the source does not match just one character for each `?`. */
  lemma {:induction false} RunMisses(pat: string, p: nat, pe: nat, ext: bool, q: nat, s: string)
    requires RunEnd(pat, p, pe, ext) < pe && Rest(pat, RunEnd(pat, p, pe, ext), q, pe, ext)
    requires |s| == Marks(pat, p, pe, ext) && !MarkBehindGroup(pat, p, pe, ext, false, false)
    ensures !StarRun(pat, p, pe, AsCoded(ext), s)
    decreases Size(p, pe), 1
  {
    hide Lang, StarRun, ClosedGroup, ScanFrom, TailIn;
    var m := AsCoded(ext);
    if PlainAt(pat, p, pe, ext) {
      StarAtPlain(pat, p, pe, m, s);
      RunMisses(pat, p + 1, pe, ext, q, if At(pat, p) == '*' then s else s[1..]);
    } else if StarGroupAt(pat, p, pe, ext) {
      var n := Next(pat, p, pe, ext);
      StarAtGroup(pat, p, pe, m, s);
      RunFacts(pat, n, pe, ext);
      RunMisses(pat, n, pe, ext, q, s);
      forall k | 0 <= k < |s|
        ensures !Lang(pat, p, pe, m, s[k..])
      {
        RestMisses(pat, p, pe, ext, q, s, k);
      }
    } else if q == p {
      RestIs(pat, p, q, pe, ext);
      StarAtRest(pat, p, pe, m, s);
    } else if StarRun(pat, p, pe, m, s) {
      OptionalIs(pat, p, q, pe, ext);
      StarAtOptional(pat, p, pe, m, s);
    }
  }

  lemma {:induction false} RestMisses(pat: string, p: nat, pe: nat, ext: bool, q: nat, s: string, k: nat)
    requires RunEnd(pat, p, pe, ext) < pe && Rest(pat, RunEnd(pat, p, pe, ext), q, pe, ext)
    requires |s| == Marks(pat, p, pe, ext) && k <= |s| && !MarkBehindGroup(pat, p, pe, ext, true, false)
    requires NoPlainStar(pat, p, pe, ext) ==> Marks(pat, p, pe, ext) > 0
    ensures !Lang(pat, p, pe, AsCoded(ext), s[k..])
    decreases Size(p, pe), 0
  {
    hide Lang, StarRun, ClosedGroup, ScanFrom, TailIn;
    var m := AsCoded(ext);
    RunFacts(pat, p, pe, ext);
    if Lang(pat, p, pe, m, s[k..]) {
      RestTakes(pat, p, pe, ext, q, 0, s[k..]);
      assert k == 0 && s[0..] == s;
      if PlainAt(pat, p, pe, ext) {
        LangAtPlain(pat, p, pe, ext, s);
        if At(pat, p) == '*' {
          RunMisses(pat, p + 1, pe, ext, q, s);
        } else {
          Forgotten(pat, p + 1, pe, ext);
          assert s[1..][0..] == s[1..];
          RestMisses(pat, p + 1, pe, ext, q, s[1..], 0);
        }
      } else {
        var j := GroupFront(pat, p, pe, m, s);
        RestMisses(pat, Next(pat, p, pe, ext), pe, ext, q, s, j);
      }
    }
  }

  /** The two readings of what has to match behind the run agree. */
  ghost predicate Agree(pat: string, q: nat, pe: nat, ext: bool) {
    forall s :: Lang(pat, q, pe, AsCoded(ext), s) <==> Lang(pat, q, pe, Spec(ext), s)
  }

  lemma SameTail(pat: string, q: nat, pe: nat, ext: bool, s: string, n: nat)
    requires Agree(pat, q, pe, ext)
    ensures TailBehind(pat, q, pe, AsCoded(ext), s, n) <==> TailBehind(pat, q, pe, Spec(ext), s, n)
  {
    hide Lang;
    if n <= |s| {
      assert forall k :: 0 <= k <= |s[n..]| ==>
                           (Lang(pat, q, pe, AsCoded(ext), s[n..][k..]) <==> Lang(pat, q, pe, Spec(ext), s[n..][k..]));
    }
  }

  /** When the source decides a run behind a star: the run ends the pattern; or behind its last plain star a
      `?` stands behind a group; or the rest does not match the empty string, where a `?(L)` in front of the
      rest asks for a group behind the last plain star, or for a rest that matches nothing at all. */
  ghost predicate RunDecided(pat: string, p: nat, pe: nat, ext: bool, q: nat) {
    var e := RunEnd(pat, p, pe, ext);
    || e >= pe
    || MarkBehindGroup(pat, p, pe, ext, false, false)
    || (if q == e || GroupLast(pat, p, pe, ext, false) then !Lang(pat, q, pe, Spec(ext), "")
        else MatchesNothing(pat, q, pe, Spec(ext)))
  }

  ghost predicate MatchesNothing(pat: string, p: nat, pe: nat, m: Mode) {
    forall s :: !Lang(pat, p, pe, m, s)
  }

  lemma DecidedRun(pat: string, p: nat, pe: nat, ext: bool, q: nat, s: string)
    requires Rest(pat, RunEnd(pat, p, pe, ext), q, pe, ext) && Agree(pat, q, pe, ext) && RunDecided(pat, p, pe, ext, q)
    ensures StarRun(pat, p, pe, AsCoded(ext), s) <==> TailIn(pat, p, pe, Spec(ext), s)
  {
    hide Lang, StarRun, ClosedGroup, GroupLast, MarkBehindGroup, Marks;
    var n := Marks(pat, p, pe, ext);
    RestIs(pat, RunEnd(pat, p, pe, ext), q, pe, ext);
    RunMeans(pat, p, pe, ext, q, s);
    SameTail(pat, q, pe, ext, s, n);
    if StarRun(pat, p, pe, AsCoded(ext), s) {
      RunTakes(pat, p, pe, ext, q, 0, s);
    }
    if TailBehind(pat, q, pe, Spec(ext), s, n) {
      var j :| 0 <= j <= |s[n..]| && Lang(pat, q, pe, Spec(ext), s[n..][j..]);
      SliceTwice(s, n, j);
      RunFacts(pat, p, pe, ext);
      assert n + j == |s| ==> s[n + j..] == "";
      RunFinds(pat, p, pe, ext, q, n + j, s);
    }
  }

  /** A string of n characters in front of another one. */
  function Filled(n: nat, u: string): (s: string)
    ensures |s| == n + |u| && s[n..] == u
  {
    seq(n, _ => 'x') + u
  }

  /** A shortest string that matches. */
  lemma Shortest(pat: string, p: nat, pe: nat, m: Mode, u: string) returns (v: string)
    requires Lang(pat, p, pe, m, u)
    ensures Lang(pat, p, pe, m, v) && forall w :: Lang(pat, p, pe, m, w) ==> |w| >= |v|
    decreases |u|
  {
    if w :| Lang(pat, p, pe, m, w) && |w| < |u| {
      v := Shortest(pat, p, pe, m, w);
    } else {
      v := u;
    }
  }

  lemma ShorterMatch(pat: string, q: nat, pe: nat, m: Mode, s: string, n: nat)
    requires TailBehind(pat, q, pe, m, s, n)
    ensures exists v :: |v| <= |s| - n && Lang(pat, q, pe, m, v)
  {
    hide Lang;
    var j :| 0 <= j <= |s[n..]| && Lang(pat, q, pe, m, s[n..][j..]);
    assert |s[n..][j..]| <= |s| - n;
  }

  lemma UndecidedRun(pat: string, p: nat, pe: nat, ext: bool, q: nat) returns (s: string)
    requires Rest(pat, RunEnd(pat, p, pe, ext), q, pe, ext) && Agree(pat, q, pe, ext) && !RunDecided(pat, p, pe, ext, q)
    ensures !StarRun(pat, p, pe, AsCoded(ext), s) && TailIn(pat, p, pe, Spec(ext), s)
  {
    hide Lang, StarRun, ClosedGroup, GroupLast, MarkBehindGroup, Marks, Filled, TailIn;
    var n := Marks(pat, p, pe, ext);
    if Lang(pat, q, pe, Spec(ext), "") {
      s := Filled(n, "");
      RunMisses(pat, p, pe, ext, q, s);
      TailInIntro(pat, q, pe, Spec(ext), s[n..], 0, "");
    } else {
      var u0 :| Lang(pat, q, pe, Spec(ext), u0);
      var u := Shortest(pat, q, pe, Spec(ext), u0);
      s := Filled(n, u);
      TailInIntro(pat, q, pe, Spec(ext), u, 0, u);
      if StarRun(pat, p, pe, AsCoded(ext), s) {
        RunTakes(pat, p, pe, ext, q, 1, s);
        SameTail(pat, q, pe, ext, s, n + 1);
        ShorterMatch(pat, q, pe, Spec(ext), s, n + 1);
      }
    }
    RunMeans(pat, p, pe, ext, q, s);
  }

  lemma RunExact(pat: string, p: nat, pe: nat, ext: bool, q: nat)
    requires p < pe && At(pat, p) == '*' && !(ext && IsGroup(pat, p))
    requires Rest(pat, RunEnd(pat, p + 1, pe, ext), q, pe, ext) && Safe(pat, q, pe, ext)
    ensures (forall s :: Lang(pat, p, pe, AsCoded(ext), s) <==> Lang(pat, p, pe, Spec(ext), s))
            <==> RunDecided(pat, p + 1, pe, ext, q)
  {
    hide Lang, StarRun, TailIn, Safe, Rest, RunDecided;
    forall s
      ensures Lang(pat, q, pe, AsCoded(ext), s) <==> Lang(pat, q, pe, Spec(ext), s)
    {
      CodeIsLanguage(pat, q, pe, ext, s);
    }
    if RunDecided(pat, p + 1, pe, ext, q) {
      forall s
        ensures Lang(pat, p, pe, AsCoded(ext), s) <==> Lang(pat, p, pe, Spec(ext), s)
      {
        DecidedRun(pat, p + 1, pe, ext, q, s);
        RunAtStar(pat, p, pe, ext, s);
      }
    } else {
      var s := UndecidedRun(pat, p + 1, pe, ext, q);
      RunAtStar(pat, p, pe, ext, s);
    }
  }

  /** A star and a run of `*`, `?` and closed `*(...)`, and then the end of the pattern or something that
      starts no run: the source decides the language exactly when the run ends the pattern, or what follows
      does not match the empty string, or behind the last plain star a `?` stands behind a group. */
  lemma StarExact(pat: string, p: nat, pe: nat, ext: bool, e: nat)
    requires p < pe && At(pat, p) == '*' && !(ext && IsGroup(pat, p))
    requires e == RunEnd(pat, p + 1, pe, ext) && (e < pe ==> At(pat, e) !in {'*', '?'}) && Safe(pat, e, pe, ext)
    ensures (forall s :: Lang(pat, p, pe, AsCoded(ext), s) <==> Lang(pat, p, pe, Spec(ext), s))
            <==> e >= pe || !Lang(pat, e, pe, Spec(ext), "") || MarkBehindGroup(pat, p + 1, pe, ext, false, false)
  {
    hide Lang, Safe, MarkBehindGroup, GroupLast;
    RunExact(pat, p, pe, ext, e);
  }

  /** The same in front of a closed `?(L)`, in a pattern without brackets.  Without a group behind the last
      plain star the source reads `?(` as a plain `?`, and decides the language exactly when the rest of the
      pattern matches nothing at all; with one, when the rest does not match the empty string, or a plain `?`
      stands behind the group. */
  lemma OptionalGroupExact(pat: string, p: nat, pe: nat, e: nat, prest: nat)
    requires p < pe && At(pat, p) == '*' && !IsGroup(pat, p)
    requires e == RunEnd(pat, p + 1, pe, true) && ClosedGroup(pat, e, prest, pe) && At(pat, e) == '?'
    requires Safe(pat, prest, pe, true)
    ensures (forall s :: Lang(pat, p, pe, AsCoded(true), s) <==> Lang(pat, p, pe, Spec(true), s))
            <==> if GroupLast(pat, p + 1, pe, true, false) then
                   !Lang(pat, prest, pe, Spec(true), "") || MarkBehindGroup(pat, p + 1, pe, true, false, false)
                 else MatchesNothing(pat, prest, pe, Spec(true))
  {
    hide Lang, Safe, RunDecided;
    RunExact(pat, p, pe, true, prest);
    OptionalDecided(pat, p + 1, pe, true, prest);
  }

  lemma OptionalDecided(pat: string, p: nat, pe: nat, ext: bool, q: nat)
    requires Optional(pat, RunEnd(pat, p, pe, ext), q, pe, ext)
    ensures RunDecided(pat, p, pe, ext, q)
            <==> if GroupLast(pat, p, pe, ext, false) then
                   !Lang(pat, q, pe, Spec(ext), "") || MarkBehindGroup(pat, p, pe, ext, false, false)
                 else MatchesNothing(pat, q, pe, Spec(ext))
  {
    hide Lang, MarkBehindGroup, GroupLast, MatchesNothing;
    RunFacts(pat, p, pe, ext);
    OptionalIs(pat, RunEnd(pat, p, pe, ext), q, pe, ext);
  }

  // ----- a group that ends the pattern

  lemma AtEnd(pat: string, pe: nat, m: Mode, s: string, k: nat)
    requires k <= |s|
    ensures Lang(pat, pe, pe, m, s[k..]) <==> k == |s|
  {
  }

  /** A group that ends the pattern: what each operator makes of its list. */
  lemma GroupAtEnd(pat: string, g: nat, pe: nat, m: Mode, s: string)
    requires g < pe && m.ext && IsGroup(pat, g) && ListEnd(pat, g + 2, pe) == Some(pe)
    ensures Lang(pat, g, pe, m, s) <==>
              match At(pat, g)
              case '!' => !InList(pat, g, pe, m, s)
              case '@' => InList(pat, g, pe, m, s)
              case '?' => s == "" || InList(pat, g, pe, m, s)
              case '*' => s == "" || OneMore(pat, g, pe, m, s)
              case _ => InList(pat, g, pe, m, s) || OneMore(pat, g, pe, m, s)
  {
    hide Lang, InList, ScanFrom;
    assert s[..|s|] == s;
    assert s[0..] == s;
    AtEnd(pat, pe, m, s, |s|);
    AtEnd(pat, pe, m, s, 0);
    forall k | 0 <= k <= |s|
      ensures Lang(pat, pe, pe, m, s[k..]) <==> k == |s|
    {
      AtEnd(pat, pe, m, s, k);
    }
    if At(pat, g) == '!' {
      GroupExcept(pat, g, pe, m, s);
    } else if At(pat, g) in {'?', '@'} {
      GroupOnce(pat, g, pe, m, s);
    } else {
      MoreAtEnd(pat, g, pe, m, s);
    }
  }

  /** A non-empty member and then the group again. */
  ghost predicate OneMore(pat: string, g: nat, pe: nat, m: Mode, s: string)
    requires g < pe
  {
    exists k :: 0 < k <= |s| && InList(pat, g, pe, m, s[..k]) && Lang(pat, g, pe, m, s[k..])
  }

  lemma MoreAtEnd(pat: string, g: nat, pe: nat, m: Mode, s: string)
    requires g < pe && m.ext && IsGroup(pat, g) && ListEnd(pat, g + 2, pe) == Some(pe) && At(pat, g) in {'*', '+'}
    ensures Lang(pat, g, pe, m, s) <==>
              || (if At(pat, g) == '*' then s == "" else InList(pat, g, pe, m, s))
              || OneMore(pat, g, pe, m, s)
  {
    hide Lang, InList, ScanFrom;
    GroupUnfolds(pat, g, pe, m, s);
    AtEnd(pat, pe, m, s, 0);
    assert s[0..] == s && s[..|s|] == s;
    if k :| 0 <= k <= |s| && OneStep(pat, g, pe, m, s, k) {
      AtEnd(pat, pe, m, s, k);
      if Lang(pat, pe, pe, m, s[k..]) && At(pat, g) == '*' && s != "" {
        assert s[k..] == "";
        StarMatchesNothing(pat, g, pe, m);
      }
    }
    if InList(pat, g, pe, m, s) {
      AtEnd(pat, pe, m, s, |s|);
      assert OneStep(pat, g, pe, m, s, |s|);
    }
    if k :| 0 < k <= |s| && InList(pat, g, pe, m, s[..k]) && Lang(pat, g, pe, m, s[k..]) {
      assert OneStep(pat, g, pe, m, s, k);
    }
  }

  lemma StarMatchesNothing(pat: string, g: nat, pe: nat, m: Mode)
    requires g < pe && m.ext && IsGroup(pat, g) && ListEnd(pat, g + 2, pe) == Some(pe) && At(pat, g) == '*'
    ensures Lang(pat, g, pe, m, "")
  {
    hide InList, ScanFrom;
    GroupUnfolds(pat, g, pe, m, "");
  }

  // ----- patterns that are safe by their text

  /** No `*` and no `?` stands directly in front of a group. */
  predicate NoRunBeforeGroup(pat: string) {
    forall i :: 0 <= i && i + 1 < |pat| && pat[i] in {'*', '?'} && !IsGroup(pat, i) ==> !IsGroup(pat, i + 1)
  }

  lemma StarSafeStep(pat: string, p: nat, pe: nat, ext: bool)
    requires PlainAt(pat, p, pe, ext) && StarSafe(pat, p + 1, pe, ext)
    ensures StarSafe(pat, p, pe, ext)
  {
    hide Lang, Safe, Optional, ScanFrom, MatchesNothing;
  }

  lemma StarSafeRest(pat: string, p: nat, pe: nat, ext: bool)
    requires p < pe && At(pat, p) !in {'*', '?'} && !(ext && IsGroup(pat, p)) && Safe(pat, p, pe, ext)
    ensures StarSafe(pat, p, pe, ext)
  {
    hide Safe;
  }

  lemma {:induction false} SyntaxIsSafe(pat: string, p: nat, pe: nat)
    requires pe <= |pat| && NoNul(pat) && '[' !in pat && At(pat, pe) != '('
    requires GroupsClosed(pat, p, pe) && NoRunBeforeGroup(pat)
    ensures Safe(pat, p, pe, true) && (!IsGroup(pat, p) ==> StarSafe(pat, p, pe, true))
    decreases Size(p, pe), 1
  {
    if p < pe {
      hide Lang, StarSafe, Cuts, ScanFrom, Alts;
      SyntaxIsSafe(pat, p + 1, pe);
      SyntaxIsSafe(pat, p + 2, pe);
      assert At(pat, p) != '[';
      if IsGroup(pat, p) {
        assert p + 1 != pe;
        ClosedListEnds(pat, p + 2, pe);
        var prest := ListEnd(pat, p + 2, pe).value;
        SyntaxIsSafe(pat, prest, pe);
        AltsSafe(pat, p + 2, prest, pe, p);
        GroupIsSafe(pat, p, pe, true);
      } else if At(pat, p) == '*' || At(pat, p) == '?' {
        BehindRun(pat, p);
        StarSafeStep(pat, p, pe, true);
      } else {
        StarSafeRest(pat, p, pe, true);
      }
    }
  }

  lemma GroupIsSafe(pat: string, g: nat, pe: nat, ext: bool)
    requires g < pe && ext && IsGroup(pat, g) && ListEnd(pat, g + 2, pe).Some?
    requires Safe(pat, ListEnd(pat, g + 2, pe).value, pe, ext)
    requires var alts := Alts(pat, g + 2, ListEnd(pat, g + 2, pe).value, pe);
             forall i :: 0 <= i < |alts| ==> Safe(pat, alts[i].0, alts[i].1, ext)
    ensures Safe(pat, g, pe, ext)
  {
    assert ListSafe(pat, g, pe, ext);
  }

  lemma BehindRun(pat: string, p: nat)
    requires NoRunBeforeGroup(pat) && p < |pat| && pat[p] in {'*', '?'} && !IsGroup(pat, p)
    ensures !IsGroup(pat, p + 1)
  {
  }

  lemma {:induction false} AltsSafe(pat: string, psub: nat, prest: nat, pe: nat, g: nat)
    requires pe <= |pat| && NoNul(pat) && '[' !in pat && g + 2 <= psub < prest <= pe && NoRunBeforeGroup(pat)
    requires ListEnd(pat, psub, pe) == Some(prest) && Cuts(pat, psub, prest, false, 0)
    requires g < pe
    ensures var alts := Alts(pat, psub, prest, pe);
            forall i :: 0 <= i < |alts| ==> Safe(pat, alts[i].0, alts[i].1, true)
    decreases Size(g, pe), 0, prest - psub
  {
    hide ScanFrom, Alts, Cuts, Safe, GroupsClosed, NoRunBeforeGroup;
    AltStep(pat, psub, prest, pe);
    var pnext := AltEnd(pat, psub, pe).value;
    SyntaxIsSafe(pat, psub, pnext - 1);
    if pnext < prest {
      AltsSafe(pat, pnext, prest, pe, g);
    }
  }

  /** fnmatch with FNM_EXTMATCH, on patterns without brackets whose groups are closed and stand
      behind no star run: it decides the language. */
  method FnMatchExtended(pattern: string, str: string) returns (r: bool)
    requires NoNul(pattern) && NoNul(str) && '[' !in pattern
    requires GroupsClosed(pattern, 0, |pattern|) && NoRunBeforeGroup(pattern)
    ensures r <==> Lang(pattern, 0, |pattern|, Spec(true), str)
  {
    ClosedIsDefined(pattern, 0, |pattern|);
    SyntaxIsSafe(pattern, 0, |pattern|);
    CodeIsLanguage(pattern, 0, |pattern|, true, str);
    r := FnMatch(pattern, str, true);
  }

  // ----- plain patterns as lists of tokens

  /** Nothing: a backslash that ends the pattern, or a list that a dangling escape or range breaks off. */
  datatype Token = Char(c: char) | AnyChar | AnyString | OneOf(negated: bool, items: seq<Item>) | Nothing

  /** Every bracket list of the pattern is one that the source reads as specified. */
  ghost predicate Regular(pat: string, p: nat)
    decreases |pat| - p
  {
    if p >= |pat| then true
    else match pat[p]
      case '\\' => Regular(pat, p + 2)
      case '[' =>
        RegularList(pat, p + 1) &&
        (match ListAt(pat, p + 1).tail
         case Closed(end) => p < end && Regular(pat, end)
         case Unclosed => Regular(pat, p + 1)
         case Broken => true
         case Named => false)
      case _ => Regular(pat, p + 1)
  }

  function Tokens(pat: string, p: nat): seq<Token>
    requires Regular(pat, p)
    decreases |pat| - p
  {
    if p >= |pat| then []
    else match pat[p]
      case '?' => [AnyChar] + Tokens(pat, p + 1)
      case '*' => [AnyString] + Tokens(pat, p + 1)
      case '\\' => if p + 1 < |pat| then [Char(pat[p + 1])] + Tokens(pat, p + 2) else [Nothing]
      case '[' =>
        var l := ListAt(pat, p + 1);
        if l.tail.Closed? then [OneOf(Negated(pat, p + 1), l.items)] + Tokens(pat, l.tail.end)
        else if l.tail.Unclosed? then [Char('[')] + Tokens(pat, p + 1)
        else [Nothing]
      case c => [Char(c)] + Tokens(pat, p + 1)
  }

  predicate TokenHolds(t: Token, c: char) {
    match t
    case Char(d) => c == d
    case AnyChar => true
    case OneOf(negated, items) => Member(items, c) != negated
    case _ => false
  }

  /** The strings a list of tokens stands for. */
  ghost predicate Denotes(ts: seq<Token>, s: string) {
    if ts == [] then s == ""
    else if ts[0] == AnyString then exists k :: 0 <= k <= |s| && Denotes(ts[1..], s[k..])
    else s != "" && TokenHolds(ts[0], s[0]) && Denotes(ts[1..], s[1..])
  }

  lemma DenotesFirst(t: Token, ts: seq<Token>, s: string)
    requires t != AnyString
    ensures Denotes([t] + ts, s) <==> s != "" && TokenHolds(t, s[0]) && Denotes(ts, s[1..])
  {
    assert ([t] + ts)[1..] == ts;
  }

  /** The language of a regular plain pattern is the one its tokens denote. */
  lemma {:induction false} TokensAreLanguage(pat: string, p: nat, s: string)
    requires NoNul(pat) && p <= |pat| && Regular(pat, p)
    ensures Lang(pat, p, |pat|, Spec(false), s) <==> Denotes(Tokens(pat, p), s)
    decreases |pat| - p
  {
    if p < |pat| {
      match pat[p]
      case '*' =>
        var ts := Tokens(pat, p + 1);
        assert ([AnyString] + ts)[1..] == ts;
        forall k | 0 <= k <= |s|
          ensures Lang(pat, p + 1, |pat|, Spec(false), s[k..]) <==> Denotes(ts, s[k..])
        {
          TokensAreLanguage(pat, p + 1, s[k..]);
        }
      case '\\' =>
        if p + 1 < |pat| {
          DenotesFirst(Char(pat[p + 1]), Tokens(pat, p + 2), s);
          if s != "" {
            TokensAreLanguage(pat, p + 2, s[1..]);
          }
        } else {
          DenotesFirst(Nothing, [], s);
        }
      case '[' => BracketIsLanguage(pat, p, s);
      case '?' =>
        DenotesFirst(AnyChar, Tokens(pat, p + 1), s);
        if s != "" {
          TokensAreLanguage(pat, p + 1, s[1..]);
        }
      case c =>
        DenotesFirst(Char(c), Tokens(pat, p + 1), s);
        if s != "" {
          TokensAreLanguage(pat, p + 1, s[1..]);
        }
    }
  }

  lemma {:induction false} BracketIsLanguage(pat: string, p: nat, s: string)
    requires NoNul(pat) && p < |pat| && pat[p] == '[' && Regular(pat, p)
    ensures Lang(pat, p, |pat|, Spec(false), s) <==> Denotes(Tokens(pat, p), s)
    decreases |pat| - p, 0
  {
    var tail := ListAt(pat, p + 1).tail;
    if s != "" {
      RegularListExact(pat, p + 1);
      assert BrackVerdict(pat, p + 1, s[0]) == ListVerdict(pat, p + 1, s[0]);
    }
    hide RegularList, BrackVerdict, Member;
    if tail.Closed? {
      ListEnds(pat, if Negated(pat, p + 1) then p + 2 else p + 1, true);
      DenotesFirst(OneOf(Negated(pat, p + 1), ListAt(pat, p + 1).items), Tokens(pat, tail.end), s);
      if s != "" {
        TokensAreLanguage(pat, tail.end, s[1..]);
      }
    } else if tail.Unclosed? {
      DenotesFirst(Char('['), Tokens(pat, p + 1), s);
      if s != "" {
        TokensAreLanguage(pat, p + 1, s[1..]);
      }
    } else {
      DenotesFirst(Nothing, [], s);
    }
  }

  /** With flags 0 the source decides the tokens of every regular pattern. */
  lemma PlainDecidesTokens(pat: string, s: string)
    requires NoNul(pat) && Regular(pat, 0)
    ensures Lang(pat, 0, |pat|, AsCoded(false), s) <==> Denotes(Tokens(pat, 0), s)
  {
    PlainDecidesLanguage(pat, s);
    TokensAreLanguage(pat, 0, s);
  }

  /** A list that is read as specified goes on where the tokens do. */
  lemma {:induction false} RegularIsDefined(pat: string, p: nat)
    requires NoNul(pat) && p <= |pat| && Regular(pat, p)
    ensures Defined(pat, p, |pat|, false) && StarDefined(pat, p, |pat|, false)
    decreases |pat| - p
  {
    if p < |pat| {
      match pat[p]
      case '\\' =>
        if p + 1 < |pat| {
          RegularIsDefined(pat, p + 2);
        }
      case '[' =>
        RegularListExact(pat, p + 1);
        ListEnds(pat, if Negated(pat, p + 1) then p + 2 else p + 1, true);
        var tail := ListAt(pat, p + 1).tail;
        if tail.Closed? {
          RegularIsDefined(pat, tail.end);
        } else if tail.Unclosed? {
          RegularIsDefined(pat, p + 1);
        }
        forall c
          ensures BracketDefined(pat, p, |pat|, false, c)
        {
          assert BrackVerdict(pat, p + 1, c) == ListVerdict(pat, p + 1, c);
        }
      case _ => RegularIsDefined(pat, p + 1);
    }
  }

  /** A pattern is regular by its text: of characters below 128, without backslashes and POSIX
      forms, and without a `-` at its end. */
  lemma {:induction false} TameHasTokens(pat: string, p: nat)
    requires Tame(pat) && p <= |pat|
    ensures Regular(pat, p)
    decreases |pat| - p
  {
    if p < |pat| {
      TameHasTokens(pat, p + 1);
      if pat[p] == '[' {
        TameIsRegular(pat, p + 1);
        var start := if Negated(pat, p + 1) then p + 2 else p + 1;
        TameItems(pat, start, true);
        ListEnds(pat, start, true);
        hide ReadList, RegularList, Tame;
        if ListAt(pat, p + 1).tail.Closed? {
          TameHasTokens(pat, ListAt(pat, p + 1).tail.end);
        }
      }
    }
  }

  /** fnmatch with flags 0: a match exactly when the tokens of the pattern denote the string. */
  method FnMatchPlain(pattern: string, str: string) returns (r: bool)
    requires NoNul(pattern) && NoNul(str) && Regular(pattern, 0)
    ensures r <==> Denotes(Tokens(pattern, 0), str)
  {
    RegularIsDefined(pattern, 0);
    PlainDecidesTokens(pattern, str);
    r := FnMatch(pattern, str, false);
  }

  // ----- where a star run is not safe

  lemma ListOfExamples(pat: string)
    requires pat == "*!(a)" || pat == "*?(a)"
    ensures ListEnd(pat, 3, 5) == Some(5)
    ensures Alts(pat, 3, 5, 5) == [(3, 4)]
  {
    assert ScanFrom(pat, 4, 5, false, 0, 0) == Some(5) == ScanFrom(pat, 4, 5, true, 0, 0);
    assert AltEnd(pat, 3, 5) == Some(5);
  }

  /** `*!(a)` should match the empty string, with nothing for the star and the group. */
  lemma NegatedGroupBehindStar()
    ensures !Lang("*!(a)", 0, 5, AsCoded(true), "")
    ensures Lang("*!(a)", 0, 5, Spec(true), "")
  {
    hide ScanFrom, Repeats;
    var pat := "*!(a)";
    ListOfExamples(pat);
    assert ""[0..] == "" == ""[..0];
    assert !Lang(pat, 3, 4, Spec(true), "");
    assert !InList(pat, 1, 5, Spec(true), "");
    assert Lang(pat, 1, 5, Spec(true), "");
  }

  /** `*?(a)` should match "b"; behind a star the source reads `?(` as a plain `?`. */
  lemma OptionalGroupBehindStar()
    ensures !Lang("*?(a)", 0, 5, AsCoded(true), "b")
    ensures Lang("*?(a)", 0, 5, Spec(true), "b")
  {
    hide ScanFrom, Repeats, InList;
    var pat := "*?(a)";
    ListOfExamples(pat);
    assert "b"[1..] == "";
    assert !StarRun(pat, 2, 5, AsCoded(true), "");
    assert !StarRun(pat, 1, 5, AsCoded(true), "b");
    NoRepeat(pat, 1, 5, Spec(true), "");
    GroupSplits(pat, 1, 5, Spec(true), "");
    assert Lang(pat, 1, 5, Spec(true), "b"[1..]);
  }

  lemma ListOfMixed(pat: string)
    requires pat == "**(a)?(b)"
    ensures ListEnd(pat, 3, 9) == Some(5) && ListEnd(pat, 7, 9) == Some(9)
  {
    assert ScanFrom(pat, 4, 9, false, 0, 0) == Some(5);
    assert ScanFrom(pat, 8, 9, false, 0, 0) == Some(9);
  }

  /** `**(a)?(b)` should match the empty string, with nothing for the star and the groups. */
  lemma GroupsBehindStar()
    ensures !Lang("**(a)?(b)", 0, 9, AsCoded(true), "")
    ensures Lang("**(a)?(b)", 0, 9, Spec(true), "")
  {
    var pat := "**(a)?(b)";
    ListOfMixed(pat);
    assert At(pat, 0) == '*' && At(pat, 1) == '*' && At(pat, 2) == '(' && At(pat, 5) == '?' && At(pat, 6) == '(';
    hide ScanFrom, Lang, StarRun;
    GroupsOnNothing(pat, 5, 9);
  }

  lemma GroupsOnNothing(pat: string, e: nat, pe: nat)
    requires At(pat, 0) == At(pat, 1) == '*' && At(pat, 2) == '(' && At(pat, e) == '?' && At(pat, e + 1) == '('
    requires 1 < e < pe && ListEnd(pat, 3, pe) == Some(e) && ListEnd(pat, e + 2, pe) == Some(pe)
    ensures !Lang(pat, 0, pe, AsCoded(true), "") && Lang(pat, 0, pe, Spec(true), "")
  {
    hide ScanFrom, Lang, StarRun;
    RunAtStar(pat, 0, pe, true, "");
    StarAtGroup(pat, 1, pe, AsCoded(true), "");
    EmptyAtOptional(pat, e, pe, AsCoded(true));
    EndMatches(pat, pe, Spec(true));
    GroupSkipped(pat, e, pe, Spec(true), "");
    GroupSkipped(pat, 1, pe, Spec(true), "");
    TailInIntro(pat, 1, pe, Spec(true), "", 0, "");
  }

  lemma EmptyAtOptional(pat: string, q: nat, pe: nat, m: Mode)
    requires q < pe && At(pat, q) == '?'
    ensures !StarRun(pat, q, pe, m, "")
  {
  }

  lemma EndMatches(pat: string, pe: nat, m: Mode)
    ensures Lang(pat, pe, pe, m, "")
  {
  }
}
