/**
 The recursive matcher of lib/fnmatch.c: gmatch, extmatch and fnmatch.

 Pointers into the pattern and the string are indices into immutable buffers.  The
 methods are proved against GlobLanguage.Lang, with the star read as the source reads
 it, and to terminate on (rest of the string, rest of the pattern).
 */
module GlobMatch {
  import opened CString
  import opened Sequences
  import opened Bracket
  import opened PatternScan
  import opened GlobLanguage

  /** The source's behaviour is defined on pat[p..pe]: no POSIX named form in a bracket
      list, lists inside a list end inside it, and a `*(` behind a star is closed. */
  ghost predicate Defined(pat: string, p: nat, pe: nat, ext: bool)
    decreases Size(p, pe), 2
  {
    if p >= pe then true
    else if ext && IsGroup(pat, p) then
      match ListEnd(pat, p + 2, pe)
      case None => true
      case Some(prest) => ListDefined(pat, p, pe, ext) && Defined(pat, prest, pe, ext)
    else match At(pat, p)
      case '*' => StarDefined(pat, p + 1, pe, ext)
      case '\\' => p + 1 < pe ==> Defined(pat, p + 2, pe, ext)
      case '[' =>
        forall c :: BracketDefined(pat, p, pe, ext, c)
      case _ => Defined(pat, p + 1, pe, ext)
  }

  ghost predicate BracketDefined(pat: string, p: nat, pe: nat, ext: bool, c: char)
    requires p < pe
    decreases Size(p, pe), 1
  {
    var v := BrackVerdict(pat, p + 1, c);
    v != NotModelled && (v.Match? ==> p < v.next <= pe && Defined(pat, v.next, pe, ext))
  }

  ghost predicate ListDefined(pat: string, p: nat, pe: nat, ext: bool)
    requires p < pe
    decreases Size(p, pe), 1
  {
    match ListEnd(pat, p + 2, pe)
    case None => false
    case Some(prest) =>
      && p + 2 < prest <= pe && At(pat, prest - 1) == ')'
      && var alts := Alts(pat, p + 2, prest, pe);
         forall i :: 0 <= i < |alts| ==> Defined(pat, alts[i].0, alts[i].1, ext)
  }

  ghost predicate StarDefined(pat: string, p: nat, pe: nat, ext: bool)
    decreases Size(p, pe), 3
  {
    if p >= pe then true
    else if At(pat, p) == '*' && ext && At(pat, p + 1) == '(' then
      match ListEnd(pat, p + 2, pe)
      case None => false
      case Some(prest) => Defined(pat, p, pe, ext) && StarDefined(pat, prest, pe, ext)
    else if At(pat, p) == '*' || At(pat, p) == '?' then StarDefined(pat, p + 1, pe, ext)
    else Defined(pat, p, pe, ext)
  }

  /** The buffers and bounds gmatch is called with; behind the pattern stands its
      terminator, or the `|` or `)` that ends an alternative. */
  ghost predicate Call(pat: string, p: nat, pe: nat, str: string, n: nat, se: nat) {
    && p <= pe <= |pat| && n <= se <= |str|
    && NoNul(pat) && NoNul(str) && At(pat, pe) != '('
  }

  /** The strings an alternative may take, and what must then match behind it. */
  ghost predicate AltThen(pat: string, g: nat, pe: nat, alt: (nat, nat), t: string, k: nat)
    requires g < pe && k <= |t| && ListEnd(pat, g + 2, pe).Some?
  {
    && Lang(pat, alt.0, alt.1, AsCoded(true), t[..k])
    && (|| Lang(pat, ListEnd(pat, g + 2, pe).value, pe, AsCoded(true), t[k..])
        || (At(pat, g) in {'*', '+'} && k > 0 && Lang(pat, g, pe, AsCoded(true), t[k..])))
  }

  /** Position psub is the start of alternative i of the group at g, which the scan for `|` ends. */
  ghost predicate AltStart(pat: string, g: nat, pe: nat, psub: nat, i: nat) {
    && g < pe <= |pat| && g + 2 <= psub && ListEnd(pat, g + 2, pe).Some?
    && var prest := ListEnd(pat, g + 2, pe).value;
       var alts := Alts(pat, g + 2, prest, pe);
       && psub < prest <= pe && At(pat, prest - 1) == ')'
       && ListEnd(pat, psub, pe) == Some(prest)
       && i < |alts| && alts[i..] == Alts(pat, psub, prest, pe)
  }

  lemma GroupDefined(pat: string, g: nat, pe: nat)
    requires g < pe && IsGroup(pat, g) && Defined(pat, g, pe, true) && ListEnd(pat, g + 2, pe).Some?
    ensures var prest := ListEnd(pat, g + 2, pe).value;
            ListDefined(pat, g, pe, true) && g + 2 < prest <= pe && Defined(pat, prest, pe, true)
  {
  }

  lemma FirstAlt(pat: string, g: nat, pe: nat)
    requires g < pe <= |pat| && IsGroup(pat, g) && ListDefined(pat, g, pe, true)
    ensures AltStart(pat, g, pe, g + 2, 0)
    ensures Alts(pat, g + 2, ListEnd(pat, g + 2, pe).value, pe) != []
  {
    var prest := ListEnd(pat, g + 2, pe).value;
    AltInsideList(pat, g + 2, pe, 0, 0);
    var alts := Alts(pat, g + 2, prest, pe);
    assert alts[0..] == alts;
  }

  lemma AltBounds(pat: string, g: nat, pe: nat, psub: nat, i: nat)
    requires AltStart(pat, g, pe, psub, i) && ListDefined(pat, g, pe, true)
    ensures var prest := ListEnd(pat, g + 2, pe).value;
            var alts := Alts(pat, g + 2, prest, pe);
            && AltEnd(pat, psub, pe).Some? && i < |alts|
            && var pnext := AltEnd(pat, psub, pe).value;
               && psub < pnext <= prest && alts[i] == (psub, pnext - 1)
               && At(pat, pnext - 1) != '(' && Defined(pat, psub, pnext - 1, true)
               && (pnext == prest ==> i + 1 == |alts|)
               && (pnext != prest ==> i + 1 < |alts| && AltStart(pat, g, pe, pnext, i + 1))
  {
    hide Lang, Defined, ScanFrom, Alts;
    var prest := ListEnd(pat, g + 2, pe).value;
    var alts := Alts(pat, g + 2, prest, pe);
    AltsUnfold(pat, psub, prest, pe);
    var pnext := AltEnd(pat, psub, pe).value;
    TailOfAlts(alts, i, Alts(pat, psub, prest, pe));
  }

  lemma TailOfAlts(alts: seq<(nat, nat)>, i: nat, here: seq<(nat, nat)>)
    requires i < |alts| && alts[i..] == here
    ensures here != [] && alts[i] == here[0] && alts[i + 1..] == here[1..] && |alts| == i + |here|
  {
    assert alts[i] == alts[i..][0];
  }

  /** The first alternative of what is left of a list, and where the next one starts. */
  lemma AltsUnfold(pat: string, psub: nat, prest: nat, pe: nat)
    requires 0 < psub < prest <= pe <= |pat| && ListEnd(pat, psub, pe) == Some(prest)
    ensures var a, here := AltEnd(pat, psub, pe), Alts(pat, psub, prest, pe);
            && a.Some? && psub < a.value <= prest && here != [] && here[0] == (psub, a.value - 1)
            && (a.value == prest ==> |here| == 1)
            && (a.value != prest ==>
                  && At(pat, a.value - 1) == '|' && ListEnd(pat, a.value, pe) == Some(prest)
                  && here[1..] == Alts(pat, a.value, prest, pe) != [])
  {
    hide ScanFrom;
    AltInsideList(pat, psub, pe, 0, 0);
    var pnext := AltEnd(pat, psub, pe).value;
    if pnext != prest {
      AltInsideList(pat, pnext, pe, 0, 0);
    }
  }

  // ----- one step of the language, at the positions the source holds

  lemma LangSteps(pat: string, p: nat, pe: nat, str: string, n: nat, se: nat, ext: bool)
    requires Call(pat, p, pe, str, n, se) && Defined(pat, p, pe, ext)
    requires p < pe && !(ext && IsGroup(pat, p))
    ensures var m := AsCoded(ext);
            var here := Lang(pat, p, pe, m, str[n..se]);
            match pat[p]
            case '?' => (here <==> n < se && Lang(pat, p + 1, pe, m, str[n + 1..se])) && Defined(pat, p + 1, pe, ext)
            case '*' => (here <==> StarRun(pat, p + 1, pe, m, str[n..se])) && StarDefined(pat, p + 1, pe, ext)
            case '\\' =>
              && (here <==> p + 1 < pe && n < se && str[n] == pat[p + 1] && Lang(pat, p + 2, pe, m, str[n + 1..se]))
              && (p + 1 < pe ==> Defined(pat, p + 2, pe, ext))
            case '[' =>
              if n == se then !here
              else
                var v := BrackVerdict(pat, p + 1, str[n]);
                && v != NotModelled
                && (v == NoMatch ==> !here)
                && (v.Match? ==> p < v.next <= pe && Defined(pat, v.next, pe, ext)
                                 && (here <==> Lang(pat, v.next, pe, m, str[n + 1..se])))
            case c => (here <==> n < se && str[n] == c && Lang(pat, p + 1, pe, m, str[n + 1..se]))
                      && Defined(pat, p + 1, pe, ext)
  {
    if n < se {
      var t := str[n..se];
      assert t[0] == str[n] && t[1..] == str[n + 1..se];
      assert pat[p] == '[' ==> BracketDefined(pat, p, pe, ext, str[n]);
    }
  }

  lemma LangEnds(pat: string, p: nat, pe: nat, str: string, n: nat, se: nat, ext: bool)
    requires Call(pat, p, pe, str, n, se) && p == pe
    ensures Lang(pat, p, pe, AsCoded(ext), str[n..se]) <==> n == se
    ensures StarRun(pat, p, pe, AsCoded(ext), str[n..se])
    ensures Defined(pat, p, pe, ext)
  {
  }

  /** One character c = pat[q] of the run behind a star. */
  lemma StarSteps(pat: string, q: nat, pe: nat, str: string, n: nat, se: nat, ext: bool)
    requires Call(pat, q, pe, str, n, se) && StarDefined(pat, q, pe, ext) && q < pe
    ensures var m := AsCoded(ext);
            var here := StarRun(pat, q, pe, m, str[n..se]);
            if ext && pat[q] == '*' && At(pat, q + 1) == '(' then
              var prest := ListEnd(pat, q + 2, pe);
              && prest.Some? && q < prest.value <= pe && Defined(pat, q, pe, ext) && IsGroup(pat, q)
              && StarDefined(pat, prest.value, pe, ext)
              && (here <==> (exists k :: n <= k < se && Lang(pat, q, pe, m, str[k..se]))
                            || StarRun(pat, prest.value, pe, m, str[n..se]))
            else if pat[q] == '*' then
              (here <==> StarRun(pat, q + 1, pe, m, str[n..se])) && StarDefined(pat, q + 1, pe, ext)
            else if pat[q] == '?' then
              && (here <==> n < se && StarRun(pat, q + 1, pe, m, str[n + 1..se]))
              && StarDefined(pat, q + 1, pe, ext)
            else
              && (here <==> exists k :: n <= k < se && Lang(pat, q, pe, m, str[k..se]))
              && Defined(pat, q, pe, ext)
  {
    var m := AsCoded(ext);
    var t := str[n..se];
    assert n < se ==> t[1..] == str[n + 1..se];
    forall k | n <= k < se
      ensures t[k - n..] == str[k..se]
    {
    }
    if exists k :: 0 <= k < |t| && Lang(pat, q, pe, m, t[k..]) {
      var k :| 0 <= k < |t| && Lang(pat, q, pe, m, t[k..]);
      assert t[n + k - n..] == str[n + k..se];
      assert Lang(pat, q, pe, m, str[n + k..se]);
    }
    if exists k :: n <= k < se && Lang(pat, q, pe, m, str[k..se]) {
      var k :| n <= k < se && Lang(pat, q, pe, m, str[k..se]);
      assert Lang(pat, q, pe, m, t[k - n..]);
    }
  }

  /** A first character that cannot start the rest of the pattern. */
  lemma FirstCharPrunes(pat: string, p: nat, pe: nat, str: string, n: nat, se: nat, ext: bool)
    requires Call(pat, p, pe, str, n, se) && p < pe && n < se
    requires pat[p] !in {'?', '*', '['} && !(ext && IsGroup(pat, p))
    requires str[n] != if pat[p] == '\\' then At(pat, p + 1) else pat[p]
    ensures !Lang(pat, p, pe, AsCoded(ext), str[n..se])
  {
    assert str[n..se][0] == str[n];
  }

  /** The star case of gmatch; p0 is behind the star. */
  method StarMatch(pat: string, p0: nat, pe: nat, str: string, n0: nat, se: nat, ext: bool) returns (r: bool)
    requires Call(pat, p0, pe, str, n0, se) && StarDefined(pat, p0, pe, ext)
    ensures r <==> StarRun(pat, p0, pe, AsCoded(ext), str[n0..se])
    decreases se - n0, pe - p0, 2
  {
    hide Lang, StarRun, Defined, StarDefined, ScanFrom;
    var p, n := p0, n0;
    LangEnds(pat, pe, pe, str, n, se, ext);
    if p == pe {
      return true;
    }
    var c := pat[p];
    p := p + 1;
    while c == '?' || c == '*'
      invariant p0 < p <= pe && c == pat[p - 1] && n0 <= n <= se
      invariant StarDefined(pat, p - 1, pe, ext)
      invariant StarRun(pat, p0, pe, AsCoded(ext), str[n0..se])
                <==> StarRun(pat, p - 1, pe, AsCoded(ext), str[n..se])
      decreases pe - p
    {
      StarSteps(pat, p - 1, pe, str, n, se, ext);
      if c == '?' {
        if n == se {
          return false;
        }
        n := n + 1;
      }
      if ext && c == '*' && At(pat, p) == '(' {
        var newn := n;
        while newn < se
          invariant n <= newn <= se
          invariant forall k :: n <= k < newn ==> !Lang(pat, p - 1, pe, AsCoded(ext), str[k..se])
        {
          var m := ExtMatch(pat, p - 1, pe, str, newn, se);
          if m {
            return true;
          }
          newn := newn + 1;
        }
        var prest := PatScan(pat, p + 1, pe, false);
        p := prest.value;
      }
      LangEnds(pat, pe, pe, str, n, se, ext);
      if p == pe {
        break;
      }
      c := pat[p];
      p := p + 1;
    }
    if p == pe && (c == '?' || c == '*') {
      return true;
    }
    StarSteps(pat, p - 1, pe, str, n, se, ext);
    var c1 := if c == '\\' then At(pat, p) else c;
    p := p - 1;
    ghost var n1 := n;
    while n < se
      invariant n1 <= n <= se
      invariant forall k :: n1 <= k < n ==> !Lang(pat, p, pe, AsCoded(ext), str[k..se])
    {
      // Only recurse if the first character can match.
      if c != '[' && str[n] != c1 && (!ext || (At(pat, p + 1) != '(' && c !in {'?', '*', '+', '@', '!'})) {
        FirstCharPrunes(pat, p, pe, str, n, se, ext);
      } else {
        var m := GMatch(pat, p, pe, str, n, se, ext);
        if m {
          return true;
        }
      }
      n := n + 1;
    }
    return false;
  }

  method GMatch(pat: string, p0: nat, pe: nat, str: string, n0: nat, se: nat, ext: bool) returns (r: bool)
    requires Call(pat, p0, pe, str, n0, se) && Defined(pat, p0, pe, ext)
    ensures r <==> Lang(pat, p0, pe, AsCoded(ext), str[n0..se])
    decreases se - n0, pe - p0, 1
  {
    hide Lang, StarRun, Defined, StarDefined, BrackVerdict;
    var p, n := p0, n0;
    while p < pe
      invariant p0 <= p <= pe && n0 <= n <= se
      invariant Defined(pat, p, pe, ext)
      invariant Lang(pat, p0, pe, AsCoded(ext), str[n0..se]) <==> Lang(pat, p, pe, AsCoded(ext), str[n..se])
      decreases pe - p
    {
      var c := pat[p];
      p := p + 1;
      var sc := if n < se then str[n] else NUL;
      if ext && At(pat, p) == '(' && c in {'+', '*', '?', '@', '!'} {
        r := ExtMatch(pat, p - 1, pe, str, n, se);
        return;
      }
      LangSteps(pat, p - 1, pe, str, n, se, ext);
      match c {
        case '?' =>
          if sc == NUL {
            return false;
          }
        case '\\' =>
          if p == pe {
            return false;
          }
          c := pat[p];
          p := p + 1;
          if sc != c {
            return false;
          }
        case '*' =>
          r := StarMatch(pat, p, pe, str, n, se, ext);
          return;
        case '[' =>
          if n == se {
            return false;
          }
          var v := BrackMatch(pat, p, sc);
          if v == NoMatch {
            return false;
          }
          p := v.next;
        case _ =>
          if c != sc {
            return false;
          }
      }
      n := n + 1;
    }
    LangEnds(pat, p, pe, str, n, se, ext);
    return n == se;
  }

  /** `*(...)` and `+(...)`; g is the index of the operator. */
  method RepeatMatch(pat: string, g: nat, pe: nat, str: string, s: nat, se: nat, prest: nat) returns (r: bool)
    requires Call(pat, g, pe, str, s, se) && g < pe && IsGroup(pat, g) && Defined(pat, g, pe, true)
    requires At(pat, g) in {'*', '+'} && ListEnd(pat, g + 2, pe) == Some(prest)
    ensures r <==> Lang(pat, g, pe, AsCoded(true), str[s..se])
    decreases se - s, pe - g, 0, 0
  {
    hide Lang, Defined, ListDefined, Alts, ScanFrom, AltStart;
    ghost var t := str[s..se];
    GroupDefined(pat, g, pe);
    GroupUnfolds(pat, g, pe, AsCoded(true), t);
    if At(pat, g) == '*' {
      var m := GMatch(pat, prest, pe, str, s, se, true);
      if m {
        return true;
      }
    }
    ghost var alts := Alts(pat, g + 2, prest, pe);
    ghost var i := 0;
    var psub := g + 2;
    FirstAlt(pat, g, pe);
    while true
      invariant AltStart(pat, g, pe, psub, i) && i < |alts|
      invariant forall j, k :: 0 <= j < i && 0 <= k <= |t| ==> !AltThen(pat, g, pe, alts[j], t, k)
      decreases prest - psub
    {
      AltBounds(pat, g, pe, psub, i);
      var pnext := PatScan(pat, psub, pe, true);
      var srest := s;
      while srest <= se
        invariant s <= srest <= se + 1
        invariant forall k :: 0 <= k < srest - s ==> !AltThen(pat, g, pe, alts[i], t, k)
        decreases se + 1 - srest
      {
        assert t[..srest - s] == str[s..srest] && t[srest - s..] == str[srest..se];
        var m1 := GMatch(pat, psub, pnext.value - 1, str, s, srest, true);
        if m1 {
          var m2 := GMatch(pat, prest, pe, str, srest, se, true);
          if !m2 && s != srest {
            m2 := GMatch(pat, g, pe, str, srest, se, true);
          }
          if m2 {
            assert OneStep(pat, g, pe, AsCoded(true), t, srest - s);
            return true;
          }
        }
        srest := srest + 1;
      }
      if pnext.value == prest {
        break;
      }
      psub := pnext.value;
      i := i + 1;
    }
    forall k | 0 <= k <= |t|
      ensures !OneStep(pat, g, pe, AsCoded(true), t, k)
    {
      if InList(pat, g, pe, AsCoded(true), t[..k]) {
        var j :| 0 <= j < |alts| && Lang(pat, alts[j].0, alts[j].1, AsCoded(true), t[..k]);
        assert !AltThen(pat, g, pe, alts[j], t, k);
      }
    }
    return false;
  }

  /** Behind the last group of a pattern only the empty string matches. */
  lemma EmptyRest(pat: string, g: nat, pe: nat, alt: (nat, nat), t: string)
    requires g < pe && At(pat, g) in {'?', '@'} && ListEnd(pat, g + 2, pe) == Some(pe)
    ensures forall k :: 0 <= k < |t| ==> !AltThen(pat, g, pe, alt, t, k)
  {
    forall k | 0 <= k < |t|
      ensures !AltThen(pat, g, pe, alt, t, k)
    {
      assert t[k..] != "";
    }
  }

  /** `?(...)` and `@(...)`. */
  method OnceMatch(pat: string, g: nat, pe: nat, str: string, s: nat, se: nat, prest: nat) returns (r: bool)
    requires Call(pat, g, pe, str, s, se) && g < pe && IsGroup(pat, g) && Defined(pat, g, pe, true)
    requires At(pat, g) in {'?', '@'} && ListEnd(pat, g + 2, pe) == Some(prest)
    ensures r <==> Lang(pat, g, pe, AsCoded(true), str[s..se])
    decreases se - s, pe - g, 0, 0
  {
    hide Lang, Defined, ListDefined, Alts, ScanFrom, AltStart;
    ghost var t := str[s..se];
    GroupDefined(pat, g, pe);
    GroupOnce(pat, g, pe, AsCoded(true), t);
    if At(pat, g) == '?' {
      var m := GMatch(pat, prest, pe, str, s, se, true);
      if m {
        return true;
      }
    }
    ghost var alts := Alts(pat, g + 2, prest, pe);
    ghost var i := 0;
    var psub := g + 2;
    FirstAlt(pat, g, pe);
    while true
      invariant AltStart(pat, g, pe, psub, i) && i < |alts|
      invariant forall j, k :: 0 <= j < i && 0 <= k <= |t| ==> !AltThen(pat, g, pe, alts[j], t, k)
      decreases prest - psub
    {
      AltBounds(pat, g, pe, psub, i);
      var pnext := PatScan(pat, psub, pe, true);
      // An empty rest of the pattern can only match the end of the string.
      var srest := if prest == pe then se else s;
      if prest == pe {
        EmptyRest(pat, g, pe, alts[i], t);
      }
      while srest <= se
        invariant s <= srest <= se + 1
        invariant forall k :: 0 <= k < srest - s ==> !AltThen(pat, g, pe, alts[i], t, k)
        decreases se + 1 - srest
      {
        assert t[..srest - s] == str[s..srest] && t[srest - s..] == str[srest..se];
        var m1 := GMatch(pat, psub, pnext.value - 1, str, s, srest, true);
        if m1 {
          var m2 := GMatch(pat, prest, pe, str, srest, se, true);
          if m2 {
            assert InList(pat, g, pe, AsCoded(true), t[..srest - s]);
            return true;
          }
        }
        srest := srest + 1;
      }
      if pnext.value == prest {
        break;
      }
      psub := pnext.value;
      i := i + 1;
    }
    forall k | 0 <= k <= |t| && InList(pat, g, pe, AsCoded(true), t[..k])
      ensures !Lang(pat, prest, pe, AsCoded(true), t[k..])
    {
      var j :| 0 <= j < |alts| && Lang(pat, alts[j].0, alts[j].1, AsCoded(true), t[..k]);
      assert !AltThen(pat, g, pe, alts[j], t, k);
    }
    return false;
  }

  /** `!(...)`. */
  method NotMatch(pat: string, g: nat, pe: nat, str: string, s: nat, se: nat, prest: nat) returns (r: bool)
    requires Call(pat, g, pe, str, s, se) && g < pe && IsGroup(pat, g) && Defined(pat, g, pe, true)
    requires At(pat, g) == '!' && ListEnd(pat, g + 2, pe) == Some(prest)
    ensures r <==> Lang(pat, g, pe, AsCoded(true), str[s..se])
    decreases se - s, pe - g, 0, 0
  {
    hide Lang, Defined, ListDefined, Alts, ScanFrom, AltStart;
    ghost var t := str[s..se];
    ghost var alts := Alts(pat, g + 2, prest, pe);
    GroupDefined(pat, g, pe);
    GroupExcept(pat, g, pe, AsCoded(true), t);
    var srest := s;
    while srest <= se
      invariant s <= srest <= se + 1
      invariant forall k :: 0 <= k < srest - s ==>
                  !(Lang(pat, prest, pe, AsCoded(true), t[k..]) && !InList(pat, g, pe, AsCoded(true), t[..k]))
      decreases se + 1 - srest
    {
      ghost var x := t[..srest - s];
      assert x == str[s..srest] && t[srest - s..] == str[srest..se];
      var m1 := false;
      ghost var i := 0;
      var psub := g + 2;
      FirstAlt(pat, g, pe);
      while true
        invariant AltStart(pat, g, pe, psub, i) && i < |alts| && !m1
        invariant forall j :: 0 <= j < i ==> !Lang(pat, alts[j].0, alts[j].1, AsCoded(true), x)
        decreases prest - psub
      {
        AltBounds(pat, g, pe, psub, i);
        var pnext := PatScan(pat, psub, pe, true);
        m1 := GMatch(pat, psub, pnext.value - 1, str, s, srest, true);
        if m1 || pnext.value == prest {
          break;
        }
        psub := pnext.value;
        i := i + 1;
      }
      assert m1 <==> InList(pat, g, pe, AsCoded(true), x);
      if !m1 {
        var m2 := GMatch(pat, prest, pe, str, srest, se, true);
        if m2 {
          return true;
        }
      }
      srest := srest + 1;
    }
    return false;
  }

  method ExtMatch(pat: string, g: nat, pe: nat, str: string, s: nat, se: nat) returns (r: bool)
    requires Call(pat, g, pe, str, s, se) && g < pe && IsGroup(pat, g) && Defined(pat, g, pe, true)
    ensures r <==> Lang(pat, g, pe, AsCoded(true), str[s..se])
    decreases se - s, pe - g, 0, 1
  {
    var prest := PatScan(pat, g + 2, pe, false);
    if prest.None? {
      // No valid pattern: compare the two as strings.
      return pat[g..pe] == str[s..se];
    }
    match pat[g] {
      case '+' => r := RepeatMatch(pat, g, pe, str, s, se, prest.value);
      case '*' => r := RepeatMatch(pat, g, pe, str, s, se, prest.value);
      case '?' => r := OnceMatch(pat, g, pe, str, s, se, prest.value);
      case '@' => r := OnceMatch(pat, g, pe, str, s, se, prest.value);
      case '!' => r := NotMatch(pat, g, pe, str, s, se, prest.value);
    }
  }

  /** fnmatch with flags 0 or FNM_EXTMATCH. */
  method FnMatch(pattern: string, str: string, ext: bool) returns (r: bool)
    requires NoNul(pattern) && NoNul(str) && Defined(pattern, 0, |pattern|, ext)
    ensures r <==> Lang(pattern, 0, |pattern|, AsCoded(ext), str)
  {
    assert str[0..|str|] == str;
    r := GMatch(pattern, 0, |pattern|, str, 0, |str|, ext);
  }

  // ----- patterns on which the source is defined

  lemma PlainVerdictIsModelled(pat: string, p: nat, c: char)
    requires PlainFrom(pat, p) && p <= |pat|
    ensures BrackVerdict(pat, p, c) != NotModelled
  {
    hide ReadList, SkipRest, FirstHit;
    var start := if Negated(pat, p) then p + 1 else p;
    PlainListIsModelled(pat, start, true);
    var r := FirstHit(ListAt(pat, p).items, c);
    if r.Some? {
      HitEnds(pat, start, true, c);
      PlainListIsModelled(pat, r.value + 1, false);
    }
  }

  /** With flags 0 the source is defined on every pattern without POSIX named forms. */
  lemma {:induction false} PlainIsDefined(pat: string, p: nat)
    requires PlainFrom(pat, p)
    ensures Defined(pat, p, |pat|, false) && StarDefined(pat, p, |pat|, false)
    decreases |pat| - p
  {
    if p < |pat| {
      PlainIsDefined(pat, p + 1);
      PlainIsDefined(pat, p + 2);
      forall c
        ensures BracketDefined(pat, p, |pat|, false, c)
      {
        PlainVerdictIsModelled(pat, p + 1, c);
        VerdictBounds(pat, p + 1, c);
        var v := BrackVerdict(pat, p + 1, c);
        if v.Match? {
          PlainIsDefined(pat, v.next);
        }
      }
    }
  }

  /** Every group in pat[p..pe] is closed before pe. */
  ghost predicate GroupsClosed(pat: string, p: nat, pe: nat) {
    forall i :: p <= i && i + 1 < pe && IsGroup(pat, i) ==> ClosedBefore(pat, i + 2, pe)
  }

  ghost predicate ClosedBefore(pat: string, s: nat, pe: nat) {
    exists j :: s < j <= pe && Cuts(pat, s, j, false, 0)
  }

  lemma {:induction false} DepthSplits(pat: string, i: nat, j: nat, k: nat)
    requires i <= j <= k <= |pat|
    ensures Depth(pat, i, k) == Depth(pat, i, j) + Depth(pat, j, k)
    decreases j - i
  {
    if i < j {
      DepthSplits(pat, i + 1, j, k);
    }
  }

  /** The depth falls below zero at a closing parenthesis. */
  lemma {:induction false} FallIsClosed(pat: string, s: nat, e: nat)
    requires s <= e <= |pat| && Depth(pat, s, e) < 0
    ensures ClosedBefore(pat, s, e)
    decreases e - s
  {
    assert e > s;
    DepthSplits(pat, s, e - 1, e);
    assert Depth(pat, e, e) == 0;
    if Depth(pat, s, e - 1) < 0 {
      FallIsClosed(pat, s, e - 1);
      var j :| s < j <= e - 1 && Cuts(pat, s, j, false, 0);
      assert s < j <= e;
    } else {
      assert Cuts(pat, s, e, false, 0);
    }
  }

  lemma ClosedListEnds(pat: string, s: nat, pe: nat)
    requires s <= pe <= |pat| && NoNul(pat) && '[' !in pat && ClosedBefore(pat, s, pe)
    ensures var r := ListEnd(pat, s, pe); r.Some? && s < r.value <= pe && Cuts(pat, s, r.value, false, 0)
  {
    ScanFindsFirstCut(pat, s, pe, false, 0);
    var j :| s < j <= pe && Cuts(pat, s, j, false, 0);
  }

  /** An alternative closes the groups it opens. */
  lemma AltGroupsClosed(pat: string, a: nat, pe: nat)
    requires a <= pe <= |pat| && NoNul(pat) && '[' !in pat
    requires AltEnd(pat, a, pe).Some? && Cuts(pat, a, AltEnd(pat, a, pe).value, true, 0)
    ensures var b := AltEnd(pat, a, pe).value - 1; a <= b && GroupsClosed(pat, a, b) && At(pat, b) != '('
  {
    var q := AltEnd(pat, a, pe).value;
    var b := q - 1;
    ScanFindsFirstCut(pat, a, pe, true, 0);
    DepthSplits(pat, a, b, q);
    assert Depth(pat, q, q) == 0;
    assert Depth(pat, a, b) == 0;
    forall i | a <= i && i + 1 < b && IsGroup(pat, i)
      ensures ClosedBefore(pat, i + 2, b)
    {
      if Depth(pat, a, i + 1) < 0 {
        FallIsClosed(pat, a, i + 1);
        var j :| a < j <= i + 1 && Cuts(pat, a, j, false, 0);
        assert Cuts(pat, a, j, true, 0);
      }
      DepthSplits(pat, a, i + 1, b);
      DepthSplits(pat, i + 1, i + 2, b);
      assert Depth(pat, i + 2, i + 2) == 0;
      FallIsClosed(pat, i + 2, b);
    }
  }

  /** With FNM_EXTMATCH the source is defined on every pattern without brackets whose
      groups are closed. */
  lemma {:induction false} ClosedIsDefined(pat: string, p: nat, pe: nat)
    requires pe <= |pat| && NoNul(pat) && '[' !in pat && At(pat, pe) != '(' && GroupsClosed(pat, p, pe)
    ensures Defined(pat, p, pe, true) && StarDefined(pat, p, pe, true)
    decreases Size(p, pe), 1
  {
    if p < pe {
      ClosedIsDefined(pat, p + 1, pe);
      ClosedIsDefined(pat, p + 2, pe);
      assert At(pat, p) != '[';
      if IsGroup(pat, p) {
        assert p + 1 != pe;
        ClosedListEnds(pat, p + 2, pe);
        var prest := ListEnd(pat, p + 2, pe).value;
        ClosedIsDefined(pat, prest, pe);
        AltInsideList(pat, p + 2, pe, 0, 0);
        AltsDefined(pat, p + 2, prest, pe, p);
        assert ListDefined(pat, p, pe, true);
      }
    }
  }

  /** The first alternative of a list, and what is left of the list behind it. */
  lemma AltStep(pat: string, psub: nat, prest: nat, pe: nat)
    requires pe <= |pat| && NoNul(pat) && '[' !in pat && 0 < psub < prest <= pe
    requires ListEnd(pat, psub, pe) == Some(prest) && Cuts(pat, psub, prest, false, 0)
    ensures var a := AltEnd(pat, psub, pe);
            && a.Some? && psub < a.value <= prest
            && GroupsClosed(pat, psub, a.value - 1) && At(pat, a.value - 1) != '('
            && (a.value < prest ==>
                  ListEnd(pat, a.value, pe) == Some(prest) && Cuts(pat, a.value, prest, false, 0))
            && Alts(pat, psub, prest, pe) ==
               [(psub, a.value - 1)] + if a.value < prest then Alts(pat, a.value, prest, pe) else []
  {
    hide ScanFrom;
    AltInsideList(pat, psub, pe, 0, 0);
    ScanFindsFirstCut(pat, psub, pe, true, 0);
    ScanFindsFirstCut(pat, psub, pe, false, 0);
    var pnext := AltEnd(pat, psub, pe).value;
    assert Cuts(pat, psub, pnext, true, 0);
    AltGroupsClosed(pat, psub, pe);
    if pnext < prest {
      DepthSplits(pat, psub, pnext, prest);
    }
  }

  lemma {:induction false} AltsDefined(pat: string, psub: nat, prest: nat, pe: nat, g: nat)
    requires pe <= |pat| && NoNul(pat) && '[' !in pat && g + 2 <= psub < prest <= pe
    requires ListEnd(pat, psub, pe) == Some(prest) && Cuts(pat, psub, prest, false, 0)
    requires g < pe
    ensures var alts := Alts(pat, psub, prest, pe);
            forall i :: 0 <= i < |alts| ==> Defined(pat, alts[i].0, alts[i].1, true)
    decreases Size(g, pe), 0, prest - psub
  {
    hide ScanFrom, Alts, Cuts, Defined, GroupsClosed;
    AltStep(pat, psub, prest, pe);
    var pnext := AltEnd(pat, psub, pe).value;
    ClosedIsDefined(pat, psub, pnext - 1);
    if pnext < prest {
      AltsDefined(pat, pnext, prest, pe, g);
    }
  }
}
