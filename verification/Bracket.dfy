/**
 Bracket lists such as `[a-z\]]` (brackmatch in lib/fnmatch.c).

 The source decides a bracket list in one pass: it stops at the first item that
 holds the tested character and only skips the rest of the list.  The
 specification reads the whole list first.  ListExact says, on the text of a
 list, for which characters the two differ.
 */
module Bracket {
  import opened CString

  /** One item of a list: the range lo..hi (lo == hi for a single character), and where the next item starts. */
  datatype Item = Item(lo: char, hi: char, next: nat)

  /** How a list ends: at its `]`, at the end of the pattern, in a dangling escape or
      range, or in one of the POSIX forms `[:`, `[=`, `[.` that are not modelled. */
  datatype Tail = Closed(end: nat) | Unclosed | Broken | Named

  datatype List = List(items: seq<Item>, tail: Tail)

  /** Continue with the pattern at `next`, or give up. */
  datatype Verdict = Match(next: nat) | NoMatch | NotModelled

  /** What an item stands for: the bytes from lo to hi. */
  predicate Holds(it: Item, test: char) {
    it.lo <= test <= it.hi
  }

  /** What the source compares: the tested character is an unsigned char, the ends of a range are signed. */
  predicate Hits(it: Item, test: char) {
    Ord(it.lo) <= test as int <= Ord(it.hi)
  }

  predicate IsNameMark(c: char) {
    c == ':' || c == '=' || c == '.'
  }

  /** What stands at i: one more item, or the end of the list. */
  datatype Next = One(item: Item) | End(tail: Tail)

  function NextItem(pat: string, i: nat, first: bool): (n: Next)
    ensures n.One? ==> i < n.item.next <= |pat|
  {
    var c := At(pat, i);
    if c == ']' && !first then End(Closed(i + 1))
    else if c == '[' && IsNameMark(At(pat, i + 1)) then End(Named)
    else if c == '\\' && At(pat, i + 1) == NUL then End(Broken)
    else if c == NUL then End(Unclosed)
    else
      var j := if c == '\\' then i + 2 else i + 1;
      var lo := At(pat, j - 1);
      if At(pat, j) == '-' && At(pat, j + 1) != ']' then
        var e := if At(pat, j + 1) == '\\' then j + 2 else j + 1;
        var hi := At(pat, e);
        if hi == NUL then End(Broken)
        else if hi == '[' && At(pat, e + 1) == '.' then End(Named)
        else One(Item(lo, hi, e + 1))
      else One(Item(lo, lo, j))
  }

  /** All items of the list whose next item starts at i. */
  function ReadList(pat: string, i: nat, first: bool): List
    decreases |pat| - i
  {
    match NextItem(pat, i, first)
    case End(tail) => List([], tail)
    case One(item) =>
      var rest := ReadList(pat, item.next, false);
      List([item] + rest.items, rest.tail)
  }

  predicate Negated(pat: string, p: nat) {
    At(pat, p) == '!' || At(pat, p) == '^'
  }

  function ListAt(pat: string, p: nat): List
  {
    ReadList(pat, if Negated(pat, p) then p + 1 else p, true)
  }

  predicate Member(items: seq<Item>, test: char) {
    exists k :: 0 <= k < |items| && Holds(items[k], test)
  }

  function Judge(tail: Tail, member: bool, pat: string, p: nat, test: char): Verdict {
    match tail
    case Closed(end) => if member != Negated(pat, p) then Match(end) else NoMatch
    case Unclosed => if test == '[' then Match(p) else NoMatch
    case Broken => NoMatch
    case Named => NotModelled
  }

  /** The specification: read the whole list, test membership, apply the negation.
      A `[` without a closing `]` stands for itself. */
  function ListVerdict(pat: string, p: nat, test: char): Verdict
  {
    var l := ListAt(pat, p);
    Judge(l.tail, Member(l.items, test), pat, p, test)
  }

  /** Where the item after the first item holding `test` starts. */
  function FirstHit(items: seq<Item>, test: char): Option<nat> {
    if items == [] then None
    else if Hits(items[0], test) then Some(items[0].next)
    else FirstHit(items[1..], test)
  }

  /** Skip to the closing bracket: every character but a backslash is just passed over. */
  function SkipRest(pat: string, i: nat): Tail
    decreases |pat| - i
  {
    var c := At(pat, i);
    if c == NUL then Unclosed
    else if c == '[' && IsNameMark(At(pat, i + 1)) then Named
    else if c == ']' then Closed(i + 1)
    else if c == '\\' then
      if At(pat, i + 1) == NUL then Broken else SkipRest(pat, i + 2)
    else SkipRest(pat, i + 1)
  }

  /** The source has already taken the character behind the item that hit, and so
      does not see it as a backslash. */
  function AfterHit(pat: string, q: nat): Tail {
    var c := At(pat, q);
    if c == NUL then Unclosed
    else if c == '[' && IsNameMark(At(pat, q + 1)) then Named
    else if c == ']' then Closed(q + 1)
    else SkipRest(pat, q + 1)
  }

  /** The verdict of the one-pass source on a list. */
  function VerdictFrom(l: List, pat: string, p: nat, test: char): Verdict {
    match FirstHit(l.items, test)
    case Some(q) => Judge(AfterHit(pat, q), true, pat, p, test)
    case None => Judge(l.tail, false, pat, p, test)
  }

  /** What the one-pass source answers. */
  function BrackVerdict(pat: string, p: nat, test: char): Verdict
  {
    VerdictFrom(ListAt(pat, p), pat, p, test)
  }

  /** The verdict when the list is read on from i. */
  ghost function VerdictAt(pat: string, i: nat, first: bool, p: nat, test: char): Verdict
  {
    VerdictFrom(ReadList(pat, i, first), pat, p, test)
  }

  /** One item decides, or it does not and the verdict is that of the rest. */
  lemma TakeItem(pat: string, i: nat, first: bool, p: nat, test: char)
    ensures match NextItem(pat, i, first)
            case End(tail) => VerdictAt(pat, i, first, p, test) == Judge(tail, false, pat, p, test)
            case One(item) =>
              VerdictAt(pat, i, first, p, test)
              == if Hits(item, test) then Judge(AfterHit(pat, item.next), true, pat, p, test)
                 else VerdictAt(pat, item.next, false, p, test)
  {
    match NextItem(pat, i, first)
    case End(_) =>
    case One(item) =>
      var l, rest := ReadList(pat, i, first), ReadList(pat, item.next, false);
      assert l == List([item] + rest.items, rest.tail);
      assert l.items[1..] == rest.items;
  }

  /** The part of the source behind its label `matched`: c is the character at i - 1. */
  method SkipMatched(pat: string, p: nat, test: char, q: nat) returns (v: Verdict)
    requires p < q <= |pat|
    ensures v == Judge(AfterHit(pat, q), true, pat, p, test)
  {
    var i := q + 1;
    var c := At(pat, q);
    if c == '[' && IsNameMark(At(pat, i)) {
      return NotModelled;
    }
    var open := c != ']';
    while open
      invariant q < i <= |pat| + 1 && (c != NUL ==> i <= |pat|)
      invariant open ==> AfterHit(pat, q) == (if c == NUL then Unclosed else SkipRest(pat, i))
      invariant !open ==> AfterHit(pat, q) == Closed(i)
      decreases open, |pat| + 1 - i
    {
      if c == NUL {
        return if test == '[' then Match(p) else NoMatch;
      }
      c := At(pat, i);
      i := i + 1;
      if c == '[' && IsNameMark(At(pat, i)) {
        return NotModelled;
      } else if c == ']' {
        open := false;
      } else if c == '\\' {
        if At(pat, i) == NUL {
          return NoMatch;
        }
        i := i + 1;
      }
    }
    return if Negated(pat, p) then NoMatch else Match(i);
  }

  /** The head of the source's loop: one item, with c the character at i - 1. */
  method TakeNext(pat: string, c: char, i: nat, ghost first: bool) returns (n: Next)
    requires 0 < i <= |pat| + 1 && c == At(pat, i - 1)
    requires first || c != ']'
    ensures n == NextItem(pat, i - 1, first)
    ensures n.End? ==> !n.tail.Closed?
  {
    var cstart, cend := c, c;
    var j := i;
    if c == '[' && IsNameMark(At(pat, j)) {
      return End(Named);
    }
    if c == '\\' {
      if At(pat, j) == NUL {
        return End(Broken);
      }
      cstart := At(pat, j);
      cend := cstart;
      j := j + 1;
    }
    if c == NUL {
      return End(Unclosed);
    }
    var next := At(pat, j);
    j := j + 1;
    if next == '-' && At(pat, j) != ']' {
      cend := At(pat, j);
      j := j + 1;
      if cend == '\\' {
        cend := At(pat, j);
        j := j + 1;
      }
      if cend == NUL {
        return End(Broken);
      }
      if cend == '[' && At(pat, j) == '.' {
        return End(Named);
      }
      j := j + 1;
    }
    return One(Item(cstart, cend, j - 1));
  }

  method BrackMatch(pat: string, p: nat, test: char) returns (v: Verdict)
    requires p <= |pat|
    ensures v == BrackVerdict(pat, p, test)
  {
    hide FirstHit, ReadList, SkipRest;
    var neg := Negated(pat, p);
    var i := if neg then p + 1 else p;
    var c := At(pat, i);
    ghost var first := true;
    i := i + 1;
    while true
      invariant p < i <= |pat| + 1 && c == At(pat, i - 1)
      invariant first || c != ']'
      invariant VerdictAt(pat, i - 1, first, p, test) == BrackVerdict(pat, p, test)
      decreases |pat| + 1 - i
    {
      TakeItem(pat, i - 1, first, p, test);
      var n := TakeNext(pat, c, i, first);
      match n {
        case End(tail) =>
          return Judge(tail, false, pat, p, test);
        case One(item) =>
          c := At(pat, item.next);
          i := item.next + 1;
          if Ord(item.lo) <= test as int <= Ord(item.hi) {
            v := SkipMatched(pat, p, test, i - 1);
            return;
          }
          first := false;
          if c == ']' {
            TakeItem(pat, i - 1, false, p, test);
            return if neg then Match(i) else NoMatch;
          }
      }
    }
  }

  // ----- where the one-pass source and the specification agree

  /** No POSIX named form starts at or after p. */
  predicate PlainFrom(pat: string, p: nat) {
    forall j :: p <= j && j + 1 < |pat| && pat[j] == '[' ==> !IsNameMark(pat[j + 1])
  }

  /** The first index from i on that holds no backslash. */
  function SlashesEnd(pat: string, i: nat): (r: nat)
    ensures i <= r && At(pat, r) != '\\'
    ensures forall j :: i <= j < r ==> At(pat, j) == '\\'
    decreases |pat| - i
  {
    if At(pat, i) == '\\' then SlashesEnd(pat, i + 1) else i
  }

  /** How many backslashes stand directly before k, from i on. */
  function SlashesBefore(pat: string, i: nat, k: nat): nat
    requires i <= k <= |pat|
    decreases k
  {
    if k == i || pat[k - 1] != '\\' then 0 else 1 + SlashesBefore(pat, i, k - 1)
  }

  predicate Escaped(pat: string, i: nat, k: nat)
    requires i <= k <= |pat|
  {
    SlashesBefore(pat, i, k) % 2 == 1
  }

  /** From i on every `]` is escaped, and the end is not. */
  predicate RunsOff(pat: string, i: nat) {
    i <= |pat| && AllEscaped(pat, i) && !Escaped(pat, i, |pat|)
  }

  predicate AllEscaped(pat: string, i: nat) {
    forall k :: i <= k < |pat| && pat[k] == ']' ==> Escaped(pat, i, k)
  }

  /** Some item hits. */
  predicate Taken(items: seq<Item>, test: char) {
    exists k :: 0 <= k < |items| && Hits(items[k], test)
  }

  lemma {:induction false} FirstHitIsTaken(items: seq<Item>, test: char)
    ensures FirstHit(items, test).Some? <==> Taken(items, test)
  {
    if items == [] {
    } else if Hits(items[0], test) {
    } else {
      FirstHitIsTaken(items[1..], test);
      assert forall k :: 0 < k < |items| ==> items[k] == items[1..][k - 1];
      assert forall k :: 0 <= k < |items| - 1 ==> items[1..][k] == items[k + 1];
    }
  }

  predicate IsAscii(c: char) {
    c as int < 128
  }

  predicate IsByte(c: char) {
    c as int < 256
  }

  /** For a character below 128 the comparison fails where just one end is above; any other
      character is never found, although a range may hold it. */
  predicate Missigned(it: Item, test: char) {
    if !IsAscii(test) then Holds(it, test)
    else if IsAscii(it.lo) then !IsAscii(it.hi) && it.lo <= test
    else IsAscii(it.hi) && test <= it.hi
  }

  lemma HitsExact(it: Item, test: char)
    requires IsByte(it.lo) && IsByte(it.hi)
    ensures Hits(it, test) == Holds(it, test) <==> !Missigned(it, test)
  {
    assert it.lo <= test <==> it.lo as int <= test as int;
    assert test <= it.hi <==> test as int <= it.hi as int;
  }

  predicate AsciiItems(items: seq<Item>) {
    forall k :: 0 <= k < |items| ==> IsAscii(items[k].lo) && IsAscii(items[k].hi)
  }

  /** Between ends below 128 the comparison is right for every character. */
  lemma AsciiIsTaken(items: seq<Item>, test: char)
    requires AsciiItems(items)
    ensures FirstHit(items, test).Some? <==> Member(items, test)
  {
    FirstHitIsTaken(items, test);
    forall k | 0 <= k < |items|
      ensures Hits(items[k], test) == Holds(items[k], test)
    {
      HitsExact(items[k], test);
    }
  }

  lemma {:induction false} SkipEnds(pat: string, i: nat)
    ensures SkipRest(pat, i).Closed? ==> i < SkipRest(pat, i).end <= |pat|
    decreases |pat| - i
  {
    if i < |pat| {
      SkipEnds(pat, i + 1);
      SkipEnds(pat, i + 2);
    }
  }

  lemma {:induction false} ListEnds(pat: string, i: nat, first: bool)
    ensures var l := ReadList(pat, i, first);
            && (l.tail.Closed? ==> i < l.tail.end <= |pat| && pat[l.tail.end - 1] == ']')
            && (forall k :: 0 <= k < |l.items| ==> i < l.items[k].next <= |pat|)
    decreases |pat| - i
  {
    match NextItem(pat, i, first)
    case End(_) =>
    case One(item) =>
      ListEnds(pat, item.next, false);
  }

  lemma {:induction false} HitEnds(pat: string, i: nat, first: bool, test: char)
    ensures var r := FirstHit(ReadList(pat, i, first).items, test);
            r.Some? ==> i < r.value <= |pat| && ReadList(pat, r.value, false).tail == ReadList(pat, i, first).tail
    decreases |pat| - i
  {
    match NextItem(pat, i, first)
    case End(_) =>
    case One(item) =>
      var l, rest := ReadList(pat, i, first), ReadList(pat, item.next, false);
      assert l.items[0] == item && l.items[1..] == rest.items;
      HitEnds(pat, item.next, false, test);
  }

  /** A match continues behind the opening bracket, inside the pattern. */
  lemma VerdictBounds(pat: string, p: nat, test: char)
    requires p <= |pat|
    ensures var v := BrackVerdict(pat, p, test); v.Match? ==> p <= v.next <= |pat|
  {
    hide ReadList, SkipRest;
    var start := if Negated(pat, p) then p + 1 else p;
    ListEnds(pat, start, true);
    HitEnds(pat, start, true, test);
    var r := FirstHit(ListAt(pat, p).items, test);
    if r.Some? {
      SkipEnds(pat, r.value + 1);
    }
  }

  /** At the start of an item, skipping and reading end at the same place. */
  lemma {:induction false} SkipFollowsReading(pat: string, i: nat)
    requires PlainFrom(pat, i)
    ensures match ReadList(pat, i, false).tail
            case Closed(end) => SkipRest(pat, i) == Closed(end)
            case Unclosed => SkipRest(pat, i) == Unclosed
            case Broken => SkipRest(pat, i).Broken? || SkipRest(pat, i).Unclosed?
            case Named => false
    decreases |pat| - i
  {
    match NextItem(pat, i, false)
    case End(tail) =>
      if At(pat, i) != ']' && At(pat, i) != NUL && tail.Broken? {
        SkipTwo(pat, i);
        var j := if At(pat, i) == '\\' then i + 2 else i + 1;
        if At(pat, j - 1) != NUL {
          assert At(pat, j) == '-';
        }
      }
    case One(item) =>
      SkipTwo(pat, i);
      var j := if At(pat, i) == '\\' then i + 2 else i + 1;
      if item.next != j {
        assert At(pat, j) == '-' && SkipRest(pat, j) == SkipRest(pat, j + 1);
        SkipTwo(pat, j + 1);
      }
      SkipFollowsReading(pat, item.next);
  }

  /** Skipping passes over a plain or an escaped character. */
  lemma SkipTwo(pat: string, i: nat)
    requires PlainFrom(pat, i)
    ensures At(pat, i) != NUL && At(pat, i) != ']' && At(pat, i) != '\\' ==> SkipRest(pat, i) == SkipRest(pat, i + 1)
    ensures At(pat, i) == '\\' && At(pat, i + 1) != NUL ==> SkipRest(pat, i) == SkipRest(pat, i + 2)
  {
  }

  /** Backslashes pair up; an odd one escapes the character behind the run. */
  lemma {:induction false} SkipSlashes(pat: string, i: nat)
    requires PlainFrom(pat, i)
    ensures var r := SlashesEnd(pat, i);
            if (r - i) % 2 == 0 then SkipRest(pat, i) == SkipRest(pat, r)
            else SkipRest(pat, i) == if At(pat, r) == NUL then Broken else SkipRest(pat, r + 1)
    decreases |pat| - i
  {
    var r := SlashesEnd(pat, i);
    SkipTwo(pat, i);
    if r >= i + 2 {
      assert SlashesEnd(pat, i + 2) == r;
      SkipSlashes(pat, i + 2);
      assert At(pat, i) == '\\' && At(pat, i + 1) == '\\';
      hide SkipRest, SlashesEnd, PlainFrom;
      assert (r - i) % 2 == (r - (i + 2)) % 2;
    } else if r == i + 1 {
      assert At(pat, i) == '\\';
      hide SlashesEnd, PlainFrom;
    } else {
      assert r == i;
      hide SlashesEnd, SkipRest, PlainFrom;
    }
  }

  // ----- skipping, on the text

  /** Parity does not see a character that is no backslash, or a backslash and what it escapes. */
  lemma {:induction false} EscapedFrom(pat: string, i: nat, d: nat, k: nat)
    requires i + d <= k <= |pat|
    requires (d == 1 && pat[i] != '\\') || (d == 2 && pat[i] == '\\')
    ensures Escaped(pat, i, k) <==> Escaped(pat, i + d, k)
    decreases k
  {
    if k == i + d {
      if d == 2 && pat[i + 1] == '\\' {
        assert SlashesBefore(pat, i, i + 1) == 1 + SlashesBefore(pat, i, i) == 1;
        assert SlashesBefore(pat, i, i + 2) == 2;
      }
    } else if pat[k - 1] == '\\' {
      EscapedFrom(pat, i, d, k - 1);
    }
  }

  /** Skipping runs off the end exactly if every `]` is escaped and the end is not. */
  lemma {:induction false} SkipRunsOff(pat: string, i: nat)
    requires PlainFrom(pat, i) && NoNul(pat) && i <= |pat|
    ensures SkipRest(pat, i).Unclosed? <==> RunsOff(pat, i)
    ensures SkipRest(pat, i).Closed? <==> !AllEscaped(pat, i)
    decreases |pat| - i
  {
    if i < |pat| && pat[i] != ']' {
      SkipTwo(pat, i);
      if pat[i] == '\\' && i + 1 == |pat| {
        assert SlashesBefore(pat, i, i + 1) == 1 + SlashesBefore(pat, i, i) == 1;
      } else {
        var d := if pat[i] == '\\' then 2 else 1;
        SkipRunsOff(pat, i + d);
        forall k | i + d <= k <= |pat|
          ensures Escaped(pat, i, k) <==> Escaped(pat, i + d, k)
        {
          EscapedFrom(pat, i, d, k);
        }
        assert d == 2 ==> SlashesBefore(pat, i, i + 1) == 1 + SlashesBefore(pat, i, i) == 1;
        hide SkipRest, SlashesBefore;
        assert AllEscaped(pat, i) <==> AllEscaped(pat, i + d);
        assert RunsOff(pat, i) <==> RunsOff(pat, i + d);
      }
    }
  }

  // ----- exactly when the two agree

  /** The one-pass source misreads a list for a character whose hit ends at q.

      Behind a hit it is one backslash out of step.  With a `]` behind the backslashes, a
      closed list is left at another place, and one that is not closed is left at that `]`;
      a negated list does not match anyway, unless `[` is taken for a literal because the
      skip runs off the end.  A dangling escape or range is not seen as such.  A hit of a
      character that the list does not hold is made good only by a skip that finds no `]`. */
  predicate Misread(pat: string, p: nat, test: char, q: nat)
    requires q <= |pat|
  {
    var negated, r := Negated(pat, p), SlashesEnd(pat, q);
    var slashes, behind, even := At(pat, q) == '\\', At(pat, r), (r - q) % 2 == 0;
    var l := ListAt(pat, p);
    match l.tail
    case Closed(_) =>
      if Member(l.items, test) then
        slashes && behind == ']' && (negated ==> test == '[' && even && RunsOff(pat, r + 1))
      else
        negated || !slashes || behind != ']' || !even || !AllEscaped(pat, r + 1)
        || (test == '[' && RunsOff(pat, r + 1))
    case Unclosed =>
      slashes && ((behind == ']' && (!negated || test == '[')) || (behind == NUL && test == '['))
    case Broken =>
      (slashes && behind == ']' && !negated) || (test == '[' && RunsOff(pat, q + 1))
    case Named => false
  }

  /** The source misjudges a list for a character: it misses one that a closed list holds, or
      misreads the list behind a hit. */
  predicate Misjudged(pat: string, p: nat, test: char) {
    var l := ListAt(pat, p);
    match FirstHit(l.items, test)
    case None => l.tail.Closed? && Member(l.items, test)
    case Some(q) => q <= |pat| && Misread(pat, p, test, q)
  }

  /** How the skip behind a hit ends, against how the list ends. */
  lemma AfterHitTail(pat: string, q: nat)
    requires PlainFrom(pat, q) && NoNul(pat) && q <= |pat|
    ensures var tail, after, r := ReadList(pat, q, false).tail, AfterHit(pat, q), SlashesEnd(pat, q);
            var slashes, even := At(pat, q) == '\\', (r - q) % 2 == 0;
            match tail
            case Closed(end) =>
              if slashes && At(pat, r) == ']' then
                && after != tail
                && (after.Unclosed? <==> even && RunsOff(pat, r + 1))
                && (after.Closed? <==> !even || !AllEscaped(pat, r + 1))
              else after == tail
            case Unclosed =>
              if slashes && At(pat, r) == ']' then after == Closed(r + 1)
              else if slashes && At(pat, r) == NUL then after == Broken
              else after == Unclosed
            case Broken =>
              if slashes && At(pat, r) == ']' then after == Closed(r + 1) && !RunsOff(pat, q + 1)
              else (after.Unclosed? <==> RunsOff(pat, q + 1)) && (after.Unclosed? || after.Broken?)
            case Named => false
  {
    SkipFollowsReading(pat, q);
    SlashesInside(pat, q);
    if At(pat, q) == '\\' {
      AfterSlashes(pat, q);
    } else {
      AfterOther(pat, q);
    }
    hide SkipRest, ReadList, RunsOff, AllEscaped, SlashesEnd, PlainFrom, AfterHit;
  }

  /** Behind a hit and no backslash the skip is in step. */
  lemma AfterOther(pat: string, q: nat)
    requires PlainFrom(pat, q) && NoNul(pat) && q <= |pat| && At(pat, q) != '\\'
    ensures AfterHit(pat, q) == SkipRest(pat, q) && !SkipRest(pat, q).Named?
    ensures q < |pat| && pat[q] != ']' ==> (SkipRest(pat, q).Unclosed? <==> RunsOff(pat, q + 1))
  {
    HitAtOther(pat, q);
    PlainListIsModelled(pat, q, false);
    hide SkipRest, ReadList, RunsOff, AllEscaped, AfterHit;
    if q < |pat| {
      PlainFurther(pat, q, q + 1);
      SkipRunsOff(pat, q + 1);
    }
  }

  lemma HitAtOther(pat: string, q: nat)
    requires PlainFrom(pat, q) && q <= |pat| && At(pat, q) != '\\'
    ensures AfterHit(pat, q) == SkipRest(pat, q)
    ensures q < |pat| && pat[q] != ']' && NoNul(pat) ==> SkipRest(pat, q) == SkipRest(pat, q + 1)
  {
  }

  /** Behind a hit and backslashes it depends on what stands behind those. */
  lemma AfterSlashes(pat: string, q: nat)
    requires PlainFrom(pat, q) && NoNul(pat) && q < |pat| && pat[q] == '\\'
    ensures var skip, after, r := SkipRest(pat, q), AfterHit(pat, q), SlashesEnd(pat, q);
            && r <= |pat| && !skip.Named? && !after.Named? && (after.Unclosed? <==> RunsOff(pat, q + 1))
            && if At(pat, r) == ']' then
                 if (r - q) % 2 == 0 then
                   && skip == Closed(r + 1) && after != skip && (after.Unclosed? <==> RunsOff(pat, r + 1))
                   && (after.Closed? <==> !AllEscaped(pat, r + 1))
                 else after == Closed(r + 1) && after != skip
               else if At(pat, r) == NUL then
                 if (r - q) % 2 == 0 then skip == Unclosed && after == Broken else skip == Broken && after == Unclosed
               else after == skip
  {
    hide SkipRest, RunsOff, AllEscaped, SlashesEnd, AfterHit, ReadList, PlainFrom;
    var r := SlashesEnd(pat, q);
    PlainFurther(pat, q, r);
    PlainFurther(pat, q, q + 1);
    SlashesInside(pat, q);
    SlashParity(pat, q);
    HitAtSlash(pat, q);
    SkipRunsOff(pat, q + 1);
    SkipAt(pat, r);
    PlainListIsModelled(pat, q, false);
    PlainListIsModelled(pat, q + 1, false);
  }

  lemma HitAtSlash(pat: string, q: nat)
    requires q < |pat| && pat[q] == '\\'
    ensures AfterHit(pat, q) == SkipRest(pat, q + 1)
  {
    hide SkipRest;
  }

  /** Skipping at a character that is no backslash. */
  lemma SkipAt(pat: string, r: nat)
    requires PlainFrom(pat, r) && NoNul(pat) && r <= |pat| && At(pat, r) != '\\'
    ensures At(pat, r) == ']' ==> SkipRest(pat, r) == Closed(r + 1) && SkipRest(pat, r + 1) != Closed(r + 1)
    ensures At(pat, r) == ']' ==> (SkipRest(pat, r + 1).Unclosed? <==> RunsOff(pat, r + 1))
    ensures At(pat, r) == ']' ==> (SkipRest(pat, r + 1).Closed? <==> !AllEscaped(pat, r + 1))
    ensures At(pat, r) == NUL ==> SkipRest(pat, r) == Unclosed
    ensures At(pat, r) != ']' && At(pat, r) != NUL ==> SkipRest(pat, r) == SkipRest(pat, r + 1)
  {
    if r < |pat| {
      SkipRunsOff(pat, r + 1);
      SkipEnds(pat, r + 1);
      hide RunsOff, AllEscaped;
    }
  }

  /** Reading or skipping a list meets no POSIX named form if there is none. */
  lemma {:induction false} PlainListIsModelled(pat: string, i: nat, first: bool)
    requires PlainFrom(pat, i)
    ensures !SkipRest(pat, i).Named? && !ReadList(pat, i, first).tail.Named?
    decreases |pat| - i
  {
    if i < |pat| {
      PlainListIsModelled(pat, i + 1, false);
      PlainListIsModelled(pat, i + 2, false);
      match NextItem(pat, i, first)
      case End(_) =>
      case One(item) => PlainListIsModelled(pat, item.next, false);
    }
  }

  lemma {:induction false} SlashesInside(pat: string, q: nat)
    requires q <= |pat|
    ensures SlashesEnd(pat, q) <= |pat|
    decreases |pat| - q
  {
    if q < |pat| {
      SlashesInside(pat, q + 1);
    }
  }

  /** Behind a hit the source is one backslash out of step. */
  lemma SlashParity(pat: string, q: nat)
    requires PlainFrom(pat, q) && At(pat, q) == '\\'
    ensures var r := SlashesEnd(pat, q);
            var paired := SkipRest(pat, r);
            var odd := if At(pat, r) == NUL then Broken else SkipRest(pat, r + 1);
            && SkipRest(pat, q) == (if (r - q) % 2 == 0 then paired else odd)
            && AfterHit(pat, q) == (if (r - q) % 2 == 0 then odd else paired)
  {
    var r := SlashesEnd(pat, q);
    assert AfterHit(pat, q) == SkipRest(pat, q + 1);
    assert SlashesEnd(pat, q + 1) == r;
    SkipSlashes(pat, q);
    SkipSlashes(pat, q + 1);
  }

  /** The verdicts agree for a character if and only if the list is not misjudged for it. */
  lemma ListExact(pat: string, p: nat, test: char)
    requires PlainFrom(pat, p) && NoNul(pat) && p <= |pat|
    ensures var hit := FirstHit(ListAt(pat, p).items, test);
            && (hit.Some? ==> p < hit.value <= |pat|)
            && (BrackVerdict(pat, p, test) == ListVerdict(pat, p, test) <==> !Misjudged(pat, p, test))
  {
    hide ReadList, ListAt, SkipRest, RunsOff, AllEscaped, SlashesEnd, FirstHit, Member, Judge, BrackVerdict,
         ListVerdict,
         AfterHit, PlainFrom;
    HitJudged(pat, p, test);
    var hit, l := FirstHit(ListAt(pat, p).items, test), ListAt(pat, p);
    if hit.Some? {
      var q := hit.value;
      PlainFurther(pat, p, q);
      AfterHitTail(pat, q);
      JudgeExact(AfterHit(pat, q), l.tail, Member(l.items, test), pat, p, test);
    } else {
      JudgeMember(l.tail, Member(l.items, test), pat, p, test);
    }
  }

  lemma PlainFurther(pat: string, p: nat, q: nat)
    requires PlainFrom(pat, p) && p <= q
    ensures PlainFrom(pat, q)
  {
  }

  /** The source judges the hit by the ending that it finds; the specification judges membership. */
  lemma HitJudged(pat: string, p: nat, test: char)
    requires PlainFrom(pat, p) && p <= |pat|
    ensures var l := ListAt(pat, p);
            var hit, tail := FirstHit(l.items, test), l.tail;
            && !tail.Named? && (tail.Closed? ==> tail.end > p)
            && ListVerdict(pat, p, test) == Judge(tail, Member(l.items, test), pat, p, test)
            && if hit.None? then BrackVerdict(pat, p, test) == Judge(tail, false, pat, p, test)
               else
                 var q := hit.value;
                 && p < q <= |pat| && ReadList(pat, q, false).tail == tail && !AfterHit(pat, q).Named?
                 && (AfterHit(pat, q).Closed? ==> AfterHit(pat, q).end > p)
                 && BrackVerdict(pat, p, test) == Judge(AfterHit(pat, q), true, pat, p, test)
  {
    var l := ListAt(pat, p);
    var start := if Negated(pat, p) then p + 1 else p;
    ListEnds(pat, start, true);
    PlainListIsModelled(pat, start, true);
    HitEnds(pat, start, true, test);
    var hit := FirstHit(l.items, test);
    hide ReadList, SkipRest, FirstHit, Judge, Member, AfterHit, PlainFrom;
    if hit.Some? {
      AfterHitBounds(pat, hit.value);
    }
  }

  lemma AfterHitBounds(pat: string, q: nat)
    requires PlainFrom(pat, q)
    ensures !AfterHit(pat, q).Named? && (AfterHit(pat, q).Closed? ==> AfterHit(pat, q).end > q)
  {
    SkipEnds(pat, q + 1);
    PlainListIsModelled(pat, q + 1, false);
    hide SkipRest, ReadList;
  }

  /** When two endings of a list give one verdict behind a hit, of a member or not. */
  lemma JudgeExact(after: Tail, tail: Tail, member: bool, pat: string, p: nat, test: char)
    requires !after.Named? && !tail.Named? && (after.Closed? ==> after.end > p) && (tail.Closed? ==> tail.end > p)
    ensures Judge(after, true, pat, p, test) == Judge(tail, member, pat, p, test) <==>
              match tail
              case Closed(_) =>
                if !member then !Negated(pat, p) && !after.Closed? && !(test == '[' && after.Unclosed?)
                else if Negated(pat, p) then !(test == '[' && after.Unclosed?)
                else after == tail
              case Unclosed =>
                if after.Closed? then Negated(pat, p) && test != '[' else after.Broken? ==> test != '['
              case Broken => if after.Closed? then Negated(pat, p) else after.Unclosed? ==> test != '['
              case Named => false
  {
  }

  lemma JudgeMember(tail: Tail, member: bool, pat: string, p: nat, test: char)
    ensures Judge(tail, false, pat, p, test) == Judge(tail, member, pat, p, test) <==> !(tail.Closed? && member)
  {
  }

  /** A list that the source reads as specified for every character. */
  ghost predicate RegularList(pat: string, p: nat) {
    && PlainFrom(pat, p) && p <= |pat|
    && forall test: char :: !Misjudged(pat, p, test)
  }

  /** Without POSIX forms, a list is regular if and only if the verdicts agree on all characters. */
  lemma RegularListExact(pat: string, p: nat)
    requires PlainFrom(pat, p) && NoNul(pat) && p <= |pat|
    ensures RegularList(pat, p) <==> forall test :: BrackVerdict(pat, p, test) == ListVerdict(pat, p, test)
  {
    forall test
      ensures BrackVerdict(pat, p, test) == ListVerdict(pat, p, test) <==> !Misjudged(pat, p, test)
    {
      ListExact(pat, p, test);
    }
    hide BrackVerdict, ListVerdict, Misjudged;
  }

  /** A list of characters below 128 is misjudged behind a hit only. */
  lemma AsciiListExact(pat: string, p: nat, test: char)
    requires AsciiItems(ListAt(pat, p).items)
    ensures Misjudged(pat, p, test) <==>
              var hit := FirstHit(ListAt(pat, p).items, test);
              hit.Some? && hit.value <= |pat| && Misread(pat, p, test, hit.value)
  {
    AsciiIsTaken(ListAt(pat, p).items, test);
    hide Member, FirstHit, Misread;
  }

  // ----- lists that are regular by their text

  /** Characters below 128, none of them a backslash or the first of a POSIX form, and no `-` at the end. */
  predicate Tame(pat: string) {
    && PlainFrom(pat, 0) && NoNul(pat)
    && (forall k :: 0 <= k < |pat| ==> IsAscii(pat[k]) && pat[k] != '\\')
    && (pat != [] ==> pat[|pat| - 1] != '-')
  }

  lemma {:induction false} TameItems(pat: string, i: nat, first: bool)
    requires Tame(pat) && i <= |pat|
    ensures var l := ReadList(pat, i, first); AsciiItems(l.items) && (l.tail.Closed? || l.tail.Unclosed?)
    decreases |pat| - i
  {
    match NextItem(pat, i, first)
    case End(_) =>
    case One(item) =>
      TameItems(pat, item.next, false);
      var rest := ReadList(pat, item.next, false);
      assert ReadList(pat, i, first).items == [item] + rest.items;
  }

  lemma TameIsRegular(pat: string, p: nat)
    requires Tame(pat) && p <= |pat|
    ensures RegularList(pat, p)
  {
    var start := if Negated(pat, p) then p + 1 else p;
    TameItems(pat, start, true);
    forall test: char
      ensures !Misjudged(pat, p, test)
    {
      AsciiListExact(pat, p, test);
      AsciiIsTaken(ListAt(pat, p).items, test);
    }
  }

  // ----- lists that are misread

  /** What items and tail the list has, given by its positions. */
  lemma ReadOne(pat: string, i: nat, first: bool, item: Item, rest: List)
    requires NextItem(pat, i, first) == One(item) && ReadList(pat, item.next, false) == rest
    ensures ReadList(pat, i, first) == List([item] + rest.items, rest.tail)
  {
  }

  /** `[!a\]b]` is read right for `a` although backslashes and a `]` follow the hit: it is negated. */
  lemma NegatedListStaysRight(pat: string)
    requires pat == "[!a\\]b]"
    ensures BrackVerdict(pat, 1, 'a') == ListVerdict(pat, 1, 'a') == NoMatch
  {
    var b, c := Item(']', ']', 5), Item('b', 'b', 6);
    assert ReadList(pat, 6, false) == List([], Closed(7));
    ReadOne(pat, 5, false, c, List([], Closed(7)));
    ReadOne(pat, 3, false, b, List([c] + [], Closed(7)));
    var a := Item('a', 'a', 3);
    ReadOne(pat, 2, true, a, List([b] + ([c] + []), Closed(7)));
    assert AfterHit(pat, 3) == SkipRest(pat, 4) == Closed(5);
    AsciiIsTaken(ListAt(pat, 1).items, 'a');
    assert FirstHit(ListAt(pat, 1).items, 'a') == Some(3);
  }

  /** In `[![\\]` the skip behind `[` runs off the end, and the negated list matches `[` as a literal. */
  lemma NegatedListTakenForLiteral(pat: string)
    requires pat == "[![\\\\]"
    ensures BrackVerdict(pat, 1, '[') == Match(1) && ListVerdict(pat, 1, '[') == NoMatch
  {
    var a, b := Item('[', '[', 3), Item('\\', '\\', 5);
    assert ReadList(pat, 5, false) == List([], Closed(6));
    ReadOne(pat, 3, false, b, List([], Closed(6)));
    ReadOne(pat, 2, true, a, List([b] + [], Closed(6)));
    AsciiIsTaken(ListAt(pat, 1).items, '[');
    assert FirstHit(ListAt(pat, 1).items, '[') == Some(3);
    assert SkipRest(pat, 6) == Unclosed;
    assert AfterHit(pat, 3) == SkipRest(pat, 4) == SkipRest(pat, 6);
  }

  /** `[a\]` is not closed, and the source leaves it at its escaped `]`. */
  lemma UnclosedListTakenForClosed(pat: string)
    requires pat == "[a\\]"
    ensures BrackVerdict(pat, 1, 'a') == Match(4) && ListVerdict(pat, 1, 'a') == NoMatch
  {
    var a, b := Item('a', 'a', 2), Item(']', ']', 4);
    assert ReadList(pat, 4, false) == List([], Unclosed);
    ReadOne(pat, 2, false, b, List([], Unclosed));
    ReadOne(pat, 1, true, a, List([b] + [], Unclosed));
    AsciiIsTaken(ListAt(pat, 1).items, 'a');
    assert FirstHit(ListAt(pat, 1).items, 'a') == Some(2);
    assert AfterHit(pat, 2) == SkipRest(pat, 3) == Closed(4);
  }

  /** `[\]a]` is read right for every character, escaped `]` or not. */
  lemma EscapedBracketFirst(pat: string)
    requires pat == "[\\]a]"
    ensures RegularList(pat, 1)
  {
    var a, b := Item(']', ']', 3), Item('a', 'a', 4);
    assert ReadList(pat, 4, false) == List([], Closed(5));
    ReadOne(pat, 3, false, b, List([], Closed(5)));
    ReadOne(pat, 1, true, a, List([b] + [], Closed(5)));
    var items := ListAt(pat, 1).items;
    assert items[0] == a && items[1..] == [b] && [b][1..] == [];
    forall test: char
      ensures !Misjudged(pat, 1, test)
    {
      assert FirstHit(items[1..], test).Some? ==> FirstHit(items[1..], test) == Some(4);
      AsciiIsTaken(items, test);
    }
  }

  /** The family is not empty: in `[a\]b]` the source ends the list for `a` at the first `]`. */
  lemma EscapedBracketStopsEarly()
    ensures BrackVerdict("[a\\]b]", 1, 'a') == Match(4)
    ensures ListVerdict("[a\\]b]", 1, 'a') == Match(6)
  {
    var pat := "[a\\]b]";
    assert NextItem(pat, 1, true) == One(Item('a', 'a', 2));
    assert NextItem(pat, 2, false) == One(Item(']', ']', 4));
    assert NextItem(pat, 4, false) == One(Item('b', 'b', 5));
    assert NextItem(pat, 5, false) == End(Closed(6));
    assert ReadList(pat, 5, false) == List([], Closed(6));
    assert ReadList(pat, 4, false) == List([Item('b', 'b', 5)], Closed(6));
    assert ReadList(pat, 2, false) == List([Item(']', ']', 4), Item('b', 'b', 5)], Closed(6));
    var items := [Item('a', 'a', 2), Item(']', ']', 4), Item('b', 'b', 5)];
    assert ListAt(pat, 1) == List(items, Closed(6));
    assert Hits(items[0], 'a');
    assert AfterHit(pat, 2) == SkipRest(pat, 3) == Closed(4);
  }

  // ----- bytes above 127

  /** A list of one item, closed. */
  lemma OneItemList(pat: string, it: Item)
    requires NextItem(pat, 1, true) == One(it) && At(pat, it.next) == ']' && !Negated(pat, 1) && it.next > 1
    ensures ListAt(pat, 1) == List([it], Closed(it.next + 1))
    ensures AfterHit(pat, it.next) == Closed(it.next + 1)
  {
    assert ReadList(pat, it.next, false) == List([], Closed(it.next + 1));
    ReadOne(pat, 1, true, it, List([], Closed(it.next + 1)));
    assert [it] + [] == [it];
  }

  /** The byte E9 (an e with an acute accent in Latin-1) is not found in the list that names it. */
  lemma HighByteNotFound(pat: string)
    requires |pat| == 3 && pat[0] == '[' && pat[1] as int == 0xE9 && pat[2] == ']'
    ensures BrackVerdict(pat, 1, pat[1]) == NoMatch && ListVerdict(pat, 1, pat[1]) == Match(3)
    ensures !RegularList(pat, 1)
  {
    var it := Item(pat[1], pat[1], 2);
    OneItemList(pat, it);
    assert Holds([it][0], pat[1]) && !Hits([it][0], pat[1]);
    assert FirstHit([it], pat[1]) == None by {
      assert [it][1..] == [];
    }
    assert Misjudged(pat, 1, pat[1]);
  }

  /** A range that begins with this byte is found to hold `a`, which stands in front of it. */
  lemma LowByteFound(pat: string)
    requires |pat| == 5 && pat[0] == '[' && pat[1] as int == 0xE9 && pat[2..] == "-z]"
    ensures BrackVerdict(pat, 1, 'a') == Match(5) && ListVerdict(pat, 1, 'a') == NoMatch
  {
    assert pat[2] == pat[2..][0] && pat[3] == pat[2..][1] && pat[4] == pat[2..][2];
    var it := Item(pat[1], 'z', 4);
    OneItemList(pat, it);
    assert Hits([it][0], 'a') && !Holds([it][0], 'a');
  }
}
