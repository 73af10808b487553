/**
 Finding the end of a ksh pattern list `(p|q|r)` (patscan in lib/fnmatch.c).
 */
module PatternScan {
  import opened CString

  /** An extended glob operator with its opening parenthesis stands at p. */
  predicate IsGroup(pat: string, p: nat) {
    At(pat, p) in {'?', '*', '+', '@', '!'} && At(pat, p + 1) == '('
  }

  /** A list or an alternative ends with the character c. */
  predicate Stops(c: char, bar: bool, pnest: nat, bnest: nat) {
    bnest == 0 && pnest == 0 && (c == ')' || (bar && c == '|'))
  }

  /** The open parentheses and brackets behind c. */
  function Nest(c: char, pnest: nat, bnest: nat): (nat, nat) {
    match c
    case '[' => (pnest, bnest + 1)
    case ']' => (pnest, if bnest > 0 then bnest - 1 else 0)
    case '(' => (if bnest == 0 then pnest + 1 else pnest, bnest)
    case ')' => (if bnest == 0 && pnest > 0 then pnest - 1 else pnest, bnest)
    case _ => (pnest, bnest)
  }

  /** Scan from s with `pnest` open parentheses and `bnest` open brackets. */
  function ScanFrom(pat: string, s: nat, end: nat, bar: bool, pnest: nat, bnest: nat): (r: Option<nat>)
    ensures r.Some? ==> s <= r.value && (s < end ==> s < r.value <= end)
    ensures r.Some? && s >= end ==> r.value == s
    decreases |pat| - s
  {
    if At(pat, s) == NUL then None
    else if s >= end then Some(s)
    else if Stops(pat[s], bar, pnest, bnest) then Some(s + 1)
    else
      var nest := Nest(pat[s], pnest, bnest);
      ScanFrom(pat, s + 1, end, bar, nest.0, nest.1)
  }

  /** Behind the list that opens with a `(` at s - 1. */
  function ListEnd(pat: string, s: nat, end: nat): Option<nat> {
    ScanFrom(pat, s, end, false, 0, 0)
  }

  /** Behind the alternative that starts at s. */
  function AltEnd(pat: string, s: nat, end: nat): Option<nat> {
    ScanFrom(pat, s, end, true, 0, 0)
  }

  method PatScan(pat: string, start: nat, end: nat, bar: bool) returns (r: Option<nat>)
    ensures r == ScanFrom(pat, start, end, bar, 0, 0)
  {
    var s := start;
    var pnest: int, bnest := 0, 0;
    while At(pat, s) != NUL
      invariant start <= s && pnest >= 0 && bnest >= 0
      invariant ScanFrom(pat, start, end, bar, 0, 0) == ScanFrom(pat, s, end, bar, pnest, bnest)
      decreases |pat| - s
    {
      if s >= end {
        return Some(s);
      }
      match pat[s] {
        case '[' =>
          bnest := bnest + 1;
        case ']' =>
          if bnest > 0 {
            bnest := bnest - 1;
          }
        case '(' =>
          if bnest == 0 {
            pnest := pnest + 1;
          }
        case ')' =>
          if bnest == 0 {
            pnest := pnest - 1;
            if pnest + 1 <= 0 {
              return Some(s + 1);
            }
          }
        case '|' =>
          if bnest == 0 && pnest == 0 && bar {
            return Some(s + 1);
          }
        case _ =>
      }
      s := s + 1;
    }
    return None;
  }

  /** Scanning for `|` stays inside the list: it stops at a bar, from which the list
      ends at the same place, or at the end of the list. */
  lemma {:induction false} AltInsideList(pat: string, s: nat, end: nat, pnest: nat, bnest: nat)
    ensures var l := ScanFrom(pat, s, end, false, pnest, bnest);
            var a := ScanFrom(pat, s, end, true, pnest, bnest);
            l.Some? ==> a.Some? && a.value <= l.value
                        && (a == l || (s < a.value && At(pat, a.value - 1) == '|' && ListEnd(pat, a.value, end) == l))
    decreases |pat| - s
  {
    if At(pat, s) != NUL && s < end && !Stops(pat[s], true, pnest, bnest) {
      var nest := Nest(pat[s], pnest, bnest);
      AltInsideList(pat, s + 1, end, nest.0, nest.1);
    }
  }

  /** The alternatives of a list that ends at prest, as half-open intervals. */
  function Alts(pat: string, psub: nat, prest: nat, end: nat): (alts: seq<(nat, nat)>)
    requires 0 < psub
    ensures forall i :: 0 <= i < |alts| ==> psub <= alts[i].0 && (psub < end ==> alts[i].1 < end)
    ensures forall i :: 0 <= i < |alts| ==> alts[i].0 <= alts[i].1 + 1
    decreases prest - psub
  {
    match AltEnd(pat, psub, end)
    case None => []
    case Some(pnext) =>
      [(psub, pnext - 1)] + if psub < pnext < prest && pnext < end then Alts(pat, pnext, prest, end) else []
  }

  // ----- what the scan finds in a text without brackets

  /** Parentheses opened minus parentheses closed in pat[i..j]. */
  function Depth(pat: string, i: nat, j: nat): int
    requires i <= j <= |pat|
    decreases j - i
  {
    if i == j then 0
    else (if pat[i] == '(' then 1 else if pat[i] == ')' then -1 else 0) + Depth(pat, i + 1, j)
  }

  /** q is behind the parenthesis that closes the list, or behind a bar of the list itself. */
  predicate Cuts(pat: string, s: nat, q: nat, bar: bool, pnest: nat) {
    && s < q <= |pat|
    && ((pat[q - 1] == ')' && pnest + Depth(pat, s, q) == -1)
        || (bar && pat[q - 1] == '|' && pnest + Depth(pat, s, q) == 0))
  }

  /** Without brackets the scan returns the first such place. */
  lemma {:induction false} ScanFindsFirstCut(pat: string, s: nat, end: nat, bar: bool, pnest: nat)
    requires s <= end <= |pat| && NoNul(pat) && '[' !in pat[s..end]
    ensures match ScanFrom(pat, s, end, bar, pnest, 0)
            case Some(q) =>
              && s <= q <= end
              && (Cuts(pat, s, q, bar, pnest) || q == end < |pat|)
              && forall j :: s < j < q ==> !Cuts(pat, s, j, bar, pnest)
            case None => end == |pat| && forall j :: s < j <= end ==> !Cuts(pat, s, j, bar, pnest)
    decreases end - s
  {
    if s < end {
      assert pat[s] == pat[s..end][0] && pat[s + 1..end] == pat[s..end][1..];
      assert pat[s] != NUL && pat[s] != '[';
      var step := if pat[s] == '(' then 1 else if pat[s] == ')' then -1 else 0;
      assert Depth(pat, s, s) == 0;
      assert Depth(pat, s + 1, s + 1) == 0;
      assert Depth(pat, s, s + 1) == step;
      if pnest + step >= 0 {
        ScanFindsFirstCut(pat, s + 1, end, bar, pnest + step);
        forall j | s + 1 < j <= end
          ensures Cuts(pat, s, j, bar, pnest) <==> Cuts(pat, s + 1, j, bar, pnest + step)
        {
          assert Depth(pat, s, j) == step + Depth(pat, s + 1, j);
        }
      }
    }
  }
}
