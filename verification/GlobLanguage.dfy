/**
 The language of a glob pattern, with and without ksh groups (lib/fnmatch.c).

 Lang describes a pattern pat[p..pe] declaratively.  With `code` set, a `*` is read
 as the source reads it: its rest is tried only before the end of the string, and a
 `?(` behind a star is a plain `?`.
 */
module GlobLanguage {
  import opened CString
  import opened Sequences
  import opened Bracket
  import opened PatternScan

  /** ext: extended groups are recognised (FNM_EXTMATCH). */
  datatype Mode = Mode(ext: bool, code: bool)

  function Spec(ext: bool): Mode {
    Mode(ext, false)
  }

  function AsCoded(ext: bool): Mode {
    Mode(ext, true)
  }

  function Size(p: nat, pe: nat): nat {
    if p < pe then pe - p else 0
  }

  /** How often the list of an operator may be matched. */
  predicate CountOk(op: char, n: nat) {
    match op
    case '*' => true
    case '+' => n >= 1
    case '?' => n <= 1
    case _ => n == 1
  }

  ghost predicate Lang(pat: string, p: nat, pe: nat, m: Mode, s: string)
    decreases Size(p, pe), 2
  {
    if p >= pe then s == ""
    else if m.ext && IsGroup(pat, p) then
      match ListEnd(pat, p + 2, pe)
      case None => pe <= |pat| && s == pat[p..pe]
      case Some(prest) =>
        exists k :: 0 <= k <= |s| && Lang(pat, prest, pe, m, s[k..])
                    && if At(pat, p) == '!' then !InList(pat, p, pe, m, s[..k])
                       else Repeats(pat, p, pe, m, s[..k])
    else match At(pat, p)
      case '?' => s != "" && Lang(pat, p + 1, pe, m, s[1..])
      case '*' =>
        if m.code then StarRun(pat, p + 1, pe, m, s)
        else exists k :: 0 <= k <= |s| && Lang(pat, p + 1, pe, m, s[k..])
      case '\\' => p + 1 < pe && s != "" && s[0] == At(pat, p + 1) && Lang(pat, p + 2, pe, m, s[1..])
      case '[' =>
        && s != ""
        && var v := BrackVerdict(pat, p + 1, s[0]);
           v.Match? && p < v.next && Lang(pat, v.next, pe, m, s[1..])
      case c => s != "" && s[0] == c && Lang(pat, p + 1, pe, m, s[1..])
  }

  /** x matches one alternative of the list of the group at p. */
  ghost predicate InList(pat: string, p: nat, pe: nat, m: Mode, x: string)
    requires p < pe
    decreases Size(p, pe), 0
  {
    match ListEnd(pat, p + 2, pe)
    case None => false
    case Some(prest) =>
      var alts := Alts(pat, p + 2, prest, pe);
      exists i :: 0 <= i < |alts| && Lang(pat, alts[i].0, alts[i].1, m, x)
  }

  /** x is a concatenation of as many members of the list as the operator allows. */
  ghost predicate Repeats(pat: string, p: nat, pe: nat, m: Mode, x: string)
    requires p < pe
    decreases Size(p, pe), 1
  {
    exists parts :: Flatten(parts) == x && CountOk(At(pat, p), |parts|)
                    && forall i :: 0 <= i < |parts| ==> InList(pat, p, pe, m, parts[i])
  }

  /** What the source matches behind a `*`: a run of `*`, `?` and `*(`, and then the rest,
      tried at every position before the end of the string. */
  ghost predicate StarRun(pat: string, p: nat, pe: nat, m: Mode, s: string)
    decreases Size(p, pe), 3
  {
    if p >= pe then true
    else if At(pat, p) == '*' && m.ext && At(pat, p + 1) == '(' then
      match ListEnd(pat, p + 2, pe)
      case None => false
      case Some(prest) =>
        || (exists k :: 0 <= k < |s| && Lang(pat, p, pe, m, s[k..]))
        || StarRun(pat, prest, pe, m, s)
    else if At(pat, p) == '*' then StarRun(pat, p + 1, pe, m, s)
    else if At(pat, p) == '?' then s != "" && StarRun(pat, p + 1, pe, m, s[1..])
    else exists k :: 0 <= k < |s| && Lang(pat, p, pe, m, s[k..])
  }

  /** What a group leaves to its operator `*` or `+`: nothing, or one member of the list
      and then the rest of the pattern or, behind a non-empty member, the group again. */
  ghost predicate OneStep(pat: string, g: nat, pe: nat, m: Mode, s: string, k: nat)
    requires g < pe && k <= |s| && ListEnd(pat, g + 2, pe).Some?
  {
    && InList(pat, g, pe, m, s[..k])
    && (Lang(pat, ListEnd(pat, g + 2, pe).value, pe, m, s[k..]) || (k > 0 && Lang(pat, g, pe, m, s[k..])))
  }

  /** Put one more member in front. */
  lemma RepeatMore(pat: string, g: nat, pe: nat, m: Mode, x: string, y: string)
    requires g < pe && At(pat, g) in {'*', '+'}
    requires InList(pat, g, pe, m, x) && Repeats(pat, g, pe, m, y)
    ensures Repeats(pat, g, pe, m, x + y)
  {
    var parts :| Flatten(parts) == y && CountOk(At(pat, g), |parts|)
                 && forall i :: 0 <= i < |parts| ==> InList(pat, g, pe, m, parts[i]);
    var more := [x] + parts;
    assert more[1..] == parts;
    assert Flatten(more) == x + y;
  }

  /** A single member. */
  lemma RepeatOnce(pat: string, g: nat, pe: nat, m: Mode, x: string)
    requires g < pe && At(pat, g) in {'*', '+', '?', '@'}
    requires InList(pat, g, pe, m, x)
    ensures Repeats(pat, g, pe, m, x)
  {
    var parts := [x];
    assert Flatten(parts) == x + Flatten(parts[1..]) == x;
    assert forall i :: 0 <= i < |parts| ==> InList(pat, g, pe, m, parts[i]);
  }

  /** Split a repetition behind its first non-empty member. */
  lemma {:induction false} FirstMember(pat: string, g: nat, pe: nat, m: Mode, parts: seq<string>)
    returns (k: nat)
    requires g < pe && At(pat, g) in {'*', '+'}
    requires parts != [] && forall i :: 0 <= i < |parts| ==> InList(pat, g, pe, m, parts[i])
    ensures var x := Flatten(parts);
            && k <= |x| && InList(pat, g, pe, m, x[..k])
            && (x[k..] == "" || (k > 0 && Repeats(pat, g, pe, m, x[k..])))
    decreases |parts|
  {
    var x := Flatten(parts);
    var rest := parts[1..];
    assert forall i :: 0 <= i < |rest| ==> rest[i] == parts[i + 1];
    if rest == [] {
      k := |x|;
      assert x[..k] == parts[0];
    } else if parts[0] == "" {
      assert x == Flatten(rest);
      k := FirstMember(pat, g, pe, m, rest);
    } else {
      k := |parts[0]|;
      assert x[..k] == parts[0] && x[k..] == Flatten(rest);
      assert CountOk(At(pat, g), |rest|);
    }
  }

  /** s is k characters for the group and the rest for the rest of the pattern. */
  ghost predicate Splits(pat: string, g: nat, pe: nat, m: Mode, s: string, k: nat)
    requires g < pe && k <= |s| && ListEnd(pat, g + 2, pe).Some?
  {
    Lang(pat, ListEnd(pat, g + 2, pe).value, pe, m, s[k..]) && Repeats(pat, g, pe, m, s[..k])
  }

  lemma GroupSplits(pat: string, g: nat, pe: nat, m: Mode, s: string)
    requires g < pe && m.ext && IsGroup(pat, g) && At(pat, g) != '!'
    requires ListEnd(pat, g + 2, pe).Some?
    ensures Lang(pat, g, pe, m, s) <==> exists k :: 0 <= k <= |s| && Splits(pat, g, pe, m, s, k)
  {
    if Lang(pat, g, pe, m, s) {
      var k :| 0 <= k <= |s| && Lang(pat, ListEnd(pat, g + 2, pe).value, pe, m, s[k..])
               && Repeats(pat, g, pe, m, s[..k]);
      assert Splits(pat, g, pe, m, s, k);
    }
  }

  lemma NoRepeat(pat: string, g: nat, pe: nat, m: Mode, s: string)
    requires g < pe && At(pat, g) in {'*', '?'} && ListEnd(pat, g + 2, pe).Some?
    requires Lang(pat, ListEnd(pat, g + 2, pe).value, pe, m, s)
    ensures Splits(pat, g, pe, m, s, 0)
  {
    var none: seq<string> := [];
    assert s[0..] == s && s[..0] == Flatten(none);
    assert CountOk(At(pat, g), |none|);
  }

  lemma SplitToStep(pat: string, g: nat, pe: nat, m: Mode, s: string, j: nat)
    requires g < pe && m.ext && IsGroup(pat, g) && At(pat, g) in {'*', '+'}
    requires ListEnd(pat, g + 2, pe).Some? && j <= |s| && Splits(pat, g, pe, m, s, j)
    ensures || (At(pat, g) == '*' && Lang(pat, ListEnd(pat, g + 2, pe).value, pe, m, s))
            || exists k :: 0 <= k <= |s| && OneStep(pat, g, pe, m, s, k)
  {
    hide Lang, InList, ScanFrom;
    var parts :| Flatten(parts) == s[..j] && CountOk(At(pat, g), |parts|)
                 && forall i :: 0 <= i < |parts| ==> InList(pat, g, pe, m, parts[i]);
    if parts == [] {
      assert s[j..] == s;
    } else {
      var k := FirstMember(pat, g, pe, m, parts);
      assert s[..j][..k] == s[..k];
      if s[..j][k..] == "" {
        assert k == j;
      } else {
        var t := s[k..];
        assert t[..j - k] == s[..j][k..] && t[j - k..] == s[j..];
        assert Splits(pat, g, pe, m, t, j - k);
        GroupSplits(pat, g, pe, m, t);
      }
      assert OneStep(pat, g, pe, m, s, k);
    }
  }

  lemma SplitsMore(pat: string, g: nat, pe: nat, m: Mode, s: string, k: nat, j: nat)
    requires g < pe && At(pat, g) in {'*', '+'} && ListEnd(pat, g + 2, pe).Some?
    requires k <= |s| && InList(pat, g, pe, m, s[..k])
    requires j <= |s| - k && Splits(pat, g, pe, m, s[k..], j)
    ensures Splits(pat, g, pe, m, s, k + j)
  {
    hide Lang, InList, ScanFrom;
    var t := s[k..];
    RepeatMore(pat, g, pe, m, s[..k], t[..j]);
    assert s[..k] + t[..j] == s[..k + j] && t[j..] == s[k + j..];
  }

  lemma StepToSplit(pat: string, g: nat, pe: nat, m: Mode, s: string, k: nat)
    requires g < pe && m.ext && IsGroup(pat, g) && At(pat, g) in {'*', '+'}
    requires ListEnd(pat, g + 2, pe).Some? && k <= |s| && OneStep(pat, g, pe, m, s, k)
    ensures exists j :: 0 <= j <= |s| && Splits(pat, g, pe, m, s, j)
  {
    hide Lang, InList, ScanFrom, Repeats;
    RepeatOnce(pat, g, pe, m, s[..k]);
    if Lang(pat, ListEnd(pat, g + 2, pe).value, pe, m, s[k..]) {
      assert Splits(pat, g, pe, m, s, k);
    } else {
      var t := s[k..];
      GroupSplits(pat, g, pe, m, t);
      var j :| 0 <= j <= |t| && Splits(pat, g, pe, m, t, j);
      SplitsMore(pat, g, pe, m, s, k, j);
    }
  }

  /** The unfolding of `*(...)` and `+(...)` that the source follows. */
  lemma GroupUnfolds(pat: string, g: nat, pe: nat, m: Mode, s: string)
    requires g < pe && m.ext && IsGroup(pat, g) && At(pat, g) in {'*', '+'}
    requires ListEnd(pat, g + 2, pe).Some?
    ensures Lang(pat, g, pe, m, s) <==>
            || (At(pat, g) == '*' && Lang(pat, ListEnd(pat, g + 2, pe).value, pe, m, s))
            || exists k :: 0 <= k <= |s| && OneStep(pat, g, pe, m, s, k)
  {
    GroupSplits(pat, g, pe, m, s);
    if j :| 0 <= j <= |s| && Splits(pat, g, pe, m, s, j) {
      SplitToStep(pat, g, pe, m, s, j);
    }
    if At(pat, g) == '*' && Lang(pat, ListEnd(pat, g + 2, pe).value, pe, m, s) {
      NoRepeat(pat, g, pe, m, s);
    }
    if k :| 0 <= k <= |s| && OneStep(pat, g, pe, m, s, k) {
      StepToSplit(pat, g, pe, m, s, k);
    }
  }

  /** The unfolding of `?(...)` and `@(...)`. */
  lemma GroupOnce(pat: string, g: nat, pe: nat, m: Mode, s: string)
    requires g < pe && m.ext && IsGroup(pat, g) && At(pat, g) in {'?', '@'}
    requires ListEnd(pat, g + 2, pe).Some?
    ensures var prest := ListEnd(pat, g + 2, pe).value;
            Lang(pat, g, pe, m, s) <==>
            || (At(pat, g) == '?' && Lang(pat, prest, pe, m, s))
            || exists k :: 0 <= k <= |s| && InList(pat, g, pe, m, s[..k]) && Lang(pat, prest, pe, m, s[k..])
  {
    hide Lang, ScanFrom;
    var prest := ListEnd(pat, g + 2, pe).value;
    GroupSplits(pat, g, pe, m, s);
    if j :| 0 <= j <= |s| && Splits(pat, g, pe, m, s, j) {
      var parts :| Flatten(parts) == s[..j] && CountOk(At(pat, g), |parts|)
                   && forall i :: 0 <= i < |parts| ==> InList(pat, g, pe, m, parts[i]);
      if parts == [] {
        assert s[j..] == s;
      } else {
        assert parts[1..] == [] && parts[0] == s[..j];
      }
    }
    if At(pat, g) == '?' && Lang(pat, prest, pe, m, s) {
      NoRepeat(pat, g, pe, m, s);
    }
    if k :| 0 <= k <= |s| && InList(pat, g, pe, m, s[..k]) && Lang(pat, prest, pe, m, s[k..]) {
      RepeatOnce(pat, g, pe, m, s[..k]);
      assert Splits(pat, g, pe, m, s, k);
    }
  }

  /** The unfolding of `!(...)`. */
  lemma GroupExcept(pat: string, g: nat, pe: nat, m: Mode, s: string)
    requires g < pe && m.ext && IsGroup(pat, g) && At(pat, g) == '!'
    requires ListEnd(pat, g + 2, pe).Some?
    ensures Lang(pat, g, pe, m, s) <==>
            exists k :: 0 <= k <= |s| && Lang(pat, ListEnd(pat, g + 2, pe).value, pe, m, s[k..])
                        && !InList(pat, g, pe, m, s[..k])
  {
  }
}
