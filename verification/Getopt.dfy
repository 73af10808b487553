/**
 The option scanner of lib/getopt.c in PERMUTE mode with long options.

 The scanner is resumable: one call returns one option, and argv is permuted in place
 along the way.  Its specification, Parse, reads the arguments from left to right and
 keeps three lists: the options returned, the elements they take up, and the rest.
 */
module Getopt {
  import opened CString
  import opened Sequences

  datatype Arity = NoArgument | RequiredArgument | OptionalArgument

  /** struct option; a non-NULL `flag` makes the scanner return 0 instead of `val`. */
  datatype LongOption = LongOption(name: string, hasArg: Arity, flag: bool, val: int)

  datatype Config = Config(optstring: string, longopts: seq<LongOption>)

  /** The byte that a signed char reads as -1. */
  const EOF_CHAR: char := 255 as char

  /** What one call reports: its return value, optarg, *longind and optopt. */
  datatype Event = Event(code: int, arg: Option<string>, index: Option<nat>, bad: Option<char>)

  const EOF := -1

  // ----- specification

  predicate IsOption(a: string) {
    |a| >= 2 && a[0] == '-'
  }

  predicate IsLong(a: string) {
    |a| >= 2 && a[0] == '-' && a[1] == '-'
  }

  /** Where strchr finds c in s. */
  function IndexOf(s: string, c: char): Option<nat> {
    if s == "" then None
    else if s[0] == c then Some(0)
    else match IndexOf(s[1..], c)
      case None => None
      case Some(i) => Some(i + 1)
  }

  function MissingCode(cfg: Config): int {
    if At(cfg.optstring, 0) == ':' then ':' as int else '?' as int
  }

  /** A short option c with `rest` behind it in its element and `following` as the next element.
      Returns the event, what is left of the element, and whether `following` is taken. */
  function ShortStep(cfg: Config, c: char, rest: string, following: Option<string>): (Event, string, bool) {
    match IndexOf(cfg.optstring, c)
    case None => (Event('?' as int, None, None, Some(c)), rest, false)
    case Some(i) =>
      if c == ':' then (Event('?' as int, None, None, Some(c)), rest, false)
      else if At(cfg.optstring, i + 1) != ':' then (Event(Ord(c), None, None, None), rest, false)
      else if At(cfg.optstring, i + 2) == ':' then
        (Event(Ord(c), if rest != "" then Some(rest) else None, None, None), "", false)
      else if rest != "" then (Event(Ord(c), Some(rest), None, None), "", false)
      else if following.None? then (Event(MissingCode(cfg), None, None, Some(c)), "", false)
      else (Event(Ord(c), following, None, None), "", true)
  }

  /** All options of a cluster, and whether the last one takes `following`. */
  function Cluster(cfg: Config, text: string, following: Option<string>): (r: (seq<Event>, bool))
    ensures r.1 ==> following.Some?
    decreases |text|
  {
    if text == "" then ([], false)
    else
      var (ev, rest, took) := ShortStep(cfg, text[0], text[1..], following);
      if rest == "" then ([ev], took)
      else
        var more := Cluster(cfg, text[1..], following);
        ([ev] + more.0, more.1)
  }

  function FirstExact(opts: seq<LongOption>, name: string): (r: Option<nat>)
    ensures r.Some? ==> r.value < |opts|
  {
    if opts == [] then None
    else if opts[0].name == name then Some(0)
    else match FirstExact(opts[1..], name)
      case None => None
      case Some(i) => Some(i + 1)
  }

  /** The indices of the options that `name` abbreviates. */
  function Abbreviated(opts: seq<LongOption>, name: string): (r: seq<nat>)
    ensures forall k :: 0 <= k < |r| ==> r[k] < |opts|
  {
    if opts == [] then []
    else
      var r := Abbreviated(opts[..|opts| - 1], name);
      if name <= opts[|opts| - 1].name then r + [|opts| - 1] else r
  }

  datatype Lookup = Unknown | Ambiguous | Found(index: nat)

  /** An exact name wins; otherwise an abbreviation must be unique. */
  function Find(opts: seq<LongOption>, name: string): (r: Lookup)
    ensures r.Found? ==> r.index < |opts|
  {
    match FirstExact(opts, name)
    case Some(i) => Found(i)
    case None =>
      var all := Abbreviated(opts, name);
      if all == [] then Unknown else if |all| == 1 then Found(all[0]) else Ambiguous
  }

  function NameOf(text: string): (n: string)
    ensures n <= text && '=' !in n
    ensures |n| < |text| ==> text[|n|] == '='
  {
    if text == "" || text[0] == '=' then ""
    else
      var n := NameOf(text[1..]);
      [text[0]] + n
  }

  /** A long option, `text` being the element without its `--`. */
  function LongStep(cfg: Config, text: string, following: Option<string>): (r: (Event, bool))
    ensures r.1 ==> following.Some?
  {
    var name := NameOf(text);
    var bad := Event('?' as int, None, None, None);
    match Find(cfg.longopts, name)
    case Unknown => (bad, false)
    case Ambiguous => (bad, false)
    case Found(i) =>
      var o := cfg.longopts[i];
      var code := if o.flag then 0 else o.val;
      if |name| < |text| then
        if o.hasArg == NoArgument then (bad, false)
        else (Event(code, Some(text[|name| + 1..]), Some(i), None), false)
      else if o.hasArg == RequiredArgument then
        if following.None? then (Event(MissingCode(cfg), None, None, None), false)
        else (Event(code, following, Some(i), None), true)
      else (Event(code, None, Some(i), None), false)
  }

  /** The events, the elements taken by options, and the other elements. */
  datatype Out = Out(events: seq<Event>, opts: seq<string>, nonopts: seq<string>)

  function Following(args: seq<string>): Option<string> {
    if |args| > 1 then Some(args[1]) else None
  }

  function Taken(took: bool): nat {
    if took then 2 else 1
  }

  /** An option element with its events, in front of what the rest gives. */
  function Prepend(evs: seq<Event>, taken: seq<string>, out: Out): Out {
    Out(evs + out.events, taken + out.opts, out.nonopts)
  }

  function Parse(cfg: Config, args: seq<string>): Out
    decreases |args|
  {
    if args == [] then Out([], [], [])
    else if args[0] == "--" then Out([], ["--"], args[1..])
    else if !IsOption(args[0]) then
      var out := Parse(cfg, args[1..]);
      out.(nonopts := [args[0]] + out.nonopts)
    else if IsLong(args[0]) then
      var (ev, took) := LongStep(cfg, args[0][2..], Following(args));
      Prepend([ev], args[..Taken(took)], Parse(cfg, args[Taken(took)..]))
    else
      var (evs, took) := Cluster(cfg, args[0][1..], Following(args));
      Prepend(evs, args[..Taken(took)], Parse(cfg, args[Taken(took)..]))
  }

  /** What is still to come when `text` is left of the first of `args`. */
  function Pending(cfg: Config, text: string, args: seq<string>): Out
    requires text != "" ==> args != []
  {
    if text == "" then Parse(cfg, args)
    else
      var (evs, took) := Cluster(cfg, text, Following(args));
      Prepend(evs, args[..Taken(took)], Parse(cfg, args[Taken(took)..]))
  }

  /** a is x and y merged: every element of a is in one of them, in the order of a. */
  ghost predicate Merged(a: seq<string>, x: seq<string>, y: seq<string>) {
    if a == [] then x == [] && y == []
    else
      || (x != [] && x[0] == a[0] && Merged(a[1..], x[1..], y))
      || (y != [] && y[0] == a[0] && Merged(a[1..], x, y[1..]))
  }

  lemma {:induction false} MergedFront(f: seq<string>, a: seq<string>, x: seq<string>, y: seq<string>)
    requires Merged(a, x, y)
    ensures Merged(f + a, f + x, y)
    decreases |f|
  {
    if f == [] {
      assert f + a == a && f + x == x;
    } else {
      MergedFront(f[1..], a, x, y);
      assert (f + a)[1..] == f[1..] + a && (f + x)[1..] == f[1..] + x;
    }
  }

  lemma {:induction false} AllToSecond(a: seq<string>)
    ensures Merged(a, [], a)
  {
    if a != [] {
      AllToSecond(a[1..]);
    }
  }

  lemma {:induction false} MergedIsPermutation(a: seq<string>, x: seq<string>, y: seq<string>)
    requires Merged(a, x, y)
    ensures multiset(x + y) == multiset(a)
    decreases |a|
  {
    if a != [] {
      assert a == [a[0]] + a[1..];
      if x != [] && x[0] == a[0] && Merged(a[1..], x[1..], y) {
        MergedIsPermutation(a[1..], x[1..], y);
        assert x + y == [a[0]] + (x[1..] + y);
      } else {
        MergedIsPermutation(a[1..], x, y[1..]);
        assert y == [a[0]] + y[1..];
        assert multiset(x + y) == multiset(x) + multiset{a[0]} + multiset(y[1..]);
      }
    }
  }

  /** No element is lost, doubled or moved past another of its kind. */
  lemma {:induction false} ParseMerges(cfg: Config, args: seq<string>)
    ensures var out := Parse(cfg, args); Merged(args, out.opts, out.nonopts)
    decreases |args|
  {
    if args == [] {
    } else if args[0] == "--" {
      AllToSecond(args[1..]);
    } else if !IsOption(args[0]) {
      ParseMerges(cfg, args[1..]);
    } else {
      var took := if IsLong(args[0]) then LongStep(cfg, args[0][2..], Following(args)).1
                  else Cluster(cfg, args[0][1..], Following(args)).1;
      var k := Taken(took);
      assert args == args[..k] + args[k..];
      ParseMerges(cfg, args[k..]);
      var out := Parse(cfg, args[k..]);
      MergedFront(args[..k], args[k..], out.opts, out.nonopts);
    }
  }

  // ----- the scanner

  /** Two adjacent blocks of argv change places. */
  ghost function Exchanged(s: seq<string>, lo: nat, mid: nat, hi: nat): seq<string>
    requires lo <= mid <= hi <= |s|
  {
    s[..lo] + s[mid..hi] + s[lo..mid] + s[hi..]
  }

  /** Two blocks of equal length change places. */
  ghost function Swapped(s: seq<string>, i: nat, j: nat, len: nat): seq<string>
    requires i + len <= j && j + len <= |s|
  {
    s[..i] + s[j..j + len] + s[i + len..j] + s[i..i + len] + s[j + len..]
  }

  lemma SwappedAt(s: seq<string>, i: nat, j: nat, len: nat, x: nat)
    requires i + len <= j && j + len <= |s| && x < |s|
    requires |Swapped(s, i, j, len)| == |s|
    ensures Swapped(s, i, j, len)[x]
            == if i <= x < i + len then s[x - i + j] else if j <= x < j + len then s[x - j + i] else s[x]
  {
  }

  lemma SwappedLength(s: seq<string>, i: nat, j: nat, len: nat)
    requires i + len <= j && j + len <= |s|
    ensures |Swapped(s, i, j, len)| == |s|
  {
  }

  method SwapBlocks(argv: array<string>, i: nat, j: nat, len: nat)
    requires i + len <= j && j + len <= argv.Length
    modifies argv
    ensures argv[..] == Swapped(old(argv[..]), i, j, len)
  {
    hide Swapped;
    for k := 0 to len
      invariant forall x :: i <= x < i + k ==> argv[x] == old(argv[x - i + j])
      invariant forall x :: j <= x < j + k ==> argv[x] == old(argv[x - j + i])
      invariant forall x :: 0 <= x < argv.Length && !(i <= x < i + k) && !(j <= x < j + k) ==> argv[x] == old(argv[x])
    {
      var tem := argv[i + k];
      argv[i + k] := argv[j + k];
      argv[j + k] := tem;
    }
    ghost var t := Swapped(old(argv[..]), i, j, len);
    SwappedLength(old(argv[..]), i, j, len);
    forall x | 0 <= x < argv.Length
      ensures argv[x] == t[x]
    {
      SwappedAt(old(argv[..]), i, j, len, x);
    }
    assert argv[..] == t;
  }

  lemma ExchangeParts(a: seq<string>, x: seq<string>, y: seq<string>, e: seq<string>)
    ensures Exchanged(a + x + y + e, |a|, |a| + |x|, |a| + |x| + |y|) == a + y + x + e
  {
    var s := a + x + y + e;
    assert s[..|a|] == a && s[|a|..|a| + |x|] == x;
    assert s[|a| + |x|..|a| + |x| + |y|] == y && s[|a| + |x| + |y|..] == e;
  }

  lemma SwapParts(a: seq<string>, b: seq<string>, c: seq<string>, d: seq<string>, e: seq<string>)
    requires |b| == |d|
    ensures Swapped(a + b + c + d + e, |a|, |a| + |b| + |c|, |b|) == a + d + c + b + e
  {
    var s := a + b + c + d + e;
    var j := |a| + |b| + |c|;
    assert s[..|a|] == a && s[|a|..|a| + |b|] == b && s[|a| + |b|..j] == c;
    assert s[j..j + |b|] == d && s[j + |b|..] == e;
  }

  lemma FiveParts(s: seq<string>, i: nat, j: nat, k: nat, l: nat)
    requires i <= j <= k <= l <= |s|
    ensures s == s[..i] + s[i..j] + s[j..k] + s[k..l] + s[l..]
  {
    assert s[..i] + s[i..j] == s[..j] && s[..j] + s[j..k] == s[..k] && s[..k] + s[k..l] == s[..l];
  }

  /** Moving a short bottom block b to the top. */
  lemma BottomParts(a: seq<string>, b: seq<string>, c: seq<string>, d: seq<string>, e: seq<string>)
    requires |b| == |d|
    ensures var s, lo, mid := a + b + c + d + e, |a|, |a| + |b|;
            var hi := mid + |c| + |d|;
            Exchanged(Swapped(s, lo, hi - |b|, |b|), lo, mid, hi - |b|) == Exchanged(s, lo, mid, hi)
                == a + c + d + b + e
  {
    hide Exchanged, Swapped;
    SwapParts(a, b, c, d, e);
    Associate(a + d + c, b, e);
    ExchangeParts(a, d, c, b + e);
    Associate(a + b, c, d);
    ExchangeParts(a, b, c + d, e);
    Associate(a, c, d);
    Associate(a + c + d, b, e);
  }

  /** Moving a short top block d to the bottom. */
  lemma TopParts(a: seq<string>, b: seq<string>, c: seq<string>, d: seq<string>, e: seq<string>)
    requires |b| == |d|
    ensures var s, lo, mid := a + b + c + d + e, |a|, |a| + |b| + |c|;
            var hi := mid + |d|;
            Exchanged(Swapped(s, lo, mid, |d|), lo + |d|, mid, hi) == Exchanged(s, lo, mid, hi) == a + d + b + c + e
  {
    hide Exchanged, Swapped;
    SwapParts(a, b, c, d, e);
    ExchangeParts(a + d, c, b, e);
    Associate(a, b, c);
    ExchangeParts(a, b + c, d, e);
    Associate(a + d, b, c);
  }

  lemma BottomShort(s: seq<string>, lo: nat, mid: nat, hi: nat)
    requires lo <= mid <= hi <= |s| && hi - mid > mid - lo
    ensures var len := mid - lo;
            Exchanged(Swapped(s, lo, hi - len, len), lo, mid, hi - len) == Exchanged(s, lo, mid, hi)
  {
    hide Exchanged, Swapped;
    var len := mid - lo;
    FiveParts(s, lo, mid, hi - len, hi);
    BottomParts(s[..lo], s[lo..mid], s[mid..hi - len], s[hi - len..hi], s[hi..]);
  }

  lemma TopShort(s: seq<string>, lo: nat, mid: nat, hi: nat)
    requires lo <= mid <= hi <= |s| && hi - mid <= mid - lo
    ensures var len := hi - mid;
            Exchanged(Swapped(s, lo, mid, len), lo + len, mid, hi) == Exchanged(s, lo, mid, hi)
  {
    hide Exchanged, Swapped;
    var len := hi - mid;
    FiveParts(s, lo, lo + len, mid, hi);
    TopParts(s[..lo], s[lo..lo + len], s[lo + len..mid], s[mid..hi], s[hi..]);
  }

  lemma NothingLeft(s: seq<string>, lo: nat, mid: nat, hi: nat)
    requires lo <= mid <= hi <= |s| && (lo == mid || mid == hi)
    ensures Exchanged(s, lo, mid, hi) == s
  {
    assert s[..lo] + s[lo..hi] + s[hi..] == s;
    assert s[lo..mid] + s[mid..hi] == s[lo..hi];
  }

  // ----- how the scanner's state stands for the outcome

  /** The outcome when elements [first, last) are non-options passed over, the other elements
      up to optind belong to options, and `text` is left of the current element. */
  ghost function PlanOf(cfg: Config, args: seq<string>, first: nat, last: nat, optind: nat, text: string): Out
    requires 1 <= first <= last <= optind <= |args|
    requires text != "" ==> optind < |args|
  {
    var p := Pending(cfg, text, args[optind..]);
    Out(p.events, args[1..first] + args[last..optind] + p.opts, args[first..last] + p.nonopts)
  }

  lemma PlanExchange(cfg: Config, args: seq<string>, first: nat, last: nat, optind: nat)
    requires 1 <= first <= last <= optind <= |args|
    ensures var e := Exchanged(args, first, last, optind);
            && |e| == |args| && e[0] == args[0]
            && PlanOf(cfg, e, first + optind - last, optind, optind, "") == PlanOf(cfg, args, first, last, optind, "")
  {
    hide Pending, Parse;
    var e := Exchanged(args, first, last, optind);
    var mid := first + optind - last;
    assert e[optind..] == args[optind..];
    assert e[mid..optind] == args[first..last];
    assert e[1..mid] == args[1..first] + args[last..optind];
    assert e[optind..optind] == [];
    var p := Pending(cfg, "", args[optind..]);
    assert e[1..mid] + e[optind..optind] + p.opts == args[1..first] + args[last..optind] + p.opts;
  }

  lemma PlanReset(cfg: Config, args: seq<string>, first: nat, optind: nat)
    requires 1 <= first <= optind <= |args|
    ensures PlanOf(cfg, args, optind, optind, optind, "") == PlanOf(cfg, args, first, first, optind, "")
  {
    hide Pending, Parse;
    assert args[1..optind] + args[optind..optind] == args[1..first] + args[first..optind];
    assert args[optind..optind] == args[first..first];
  }

  lemma PlanSkip(cfg: Config, args: seq<string>, first: nat, optind: nat)
    requires 1 <= first <= optind < |args| && !IsOption(args[optind])
    ensures PlanOf(cfg, args, first, optind + 1, optind + 1, "") == PlanOf(cfg, args, first, optind, optind, "")
  {
    var rest := args[optind..];
    var p, p' := Parse(cfg, rest), Parse(cfg, args[optind + 1..]);
    assert rest[0] == args[optind] && rest[1..] == args[optind + 1..];
    assert p == p'.(nonopts := [args[optind]] + p'.nonopts);
    assert args[first..optind + 1] + p'.nonopts == args[first..optind] + p.nonopts;
    assert args[optind + 1..optind + 1] == args[optind..optind] == [];
  }

  lemma PlanDashes(cfg: Config, args: seq<string>, first: nat, optind: nat)
    requires 1 <= first <= optind < |args| && args[optind] == "--"
    ensures PlanOf(cfg, args, first, optind, optind, "")
            == Out([], args[1..first] + ["--"], args[first..optind] + args[optind + 1..])
  {
    assert args[optind..][0] == "--" && args[optind..][1..] == args[optind + 1..];
    assert args[1..first] + args[optind..optind] == args[1..first];
  }

  lemma PlanEnd(cfg: Config, args: seq<string>, first: nat)
    requires 1 <= first <= |args|
    ensures PlanOf(cfg, args, first, |args|, |args|, "") == Out([], args[1..first], args[first..])
    ensures args == [args[0]] + args[1..first] + args[first..]
  {
    assert args[|args|..] == [];
    assert args[1..first] + [] + [] == args[1..first] && args[first..|args|] + [] == args[first..];
  }

  /** Elements taken by an option move from what is to come to what is done. */
  lemma PlanTake(cfg: Config, args: seq<string>, first: nat, last: nat, optind: nat, text: string,
                 evs: seq<Event>, took: bool)
    requires 1 <= first <= last <= optind && optind + Taken(took) <= |args|
    requires Pending(cfg, text, args[optind..])
             == Prepend(evs, args[optind..][..Taken(took)], Parse(cfg, args[optind..][Taken(took)..]))
    ensures var after := PlanOf(cfg, args, first, last, optind + Taken(took), "");
            PlanOf(cfg, args, first, last, optind, text) == after.(events := evs + after.events)
  {
    hide Pending, Parse;
    var k := Taken(took);
    assert args[optind..][k..] == args[optind + k..];
    assert Pending(cfg, "", args[optind + k..]) == Parse(cfg, args[optind + k..]) by {
      PendingNothing(cfg, args[optind + k..]);
    }
    assert args[last..optind + k] == args[last..optind] + args[optind..][..k];
    var out := Parse(cfg, args[optind + k..]);
    assert args[1..first] + args[last..optind + k] + out.opts
           == args[1..first] + args[last..optind] + (args[optind..][..k] + out.opts);
  }

  lemma PendingNothing(cfg: Config, args: seq<string>)
    ensures Pending(cfg, "", args) == Parse(cfg, args)
  {
  }

  ghost function NextOf(args: seq<string>, optind: nat): Option<string> {
    if optind + 1 < |args| then Some(args[optind + 1]) else None
  }

  lemma PlanLong(cfg: Config, args: seq<string>, first: nat, last: nat, optind: nat)
    requires 1 <= first <= last <= optind < |args| && IsLong(args[optind]) && args[optind] != "--"
    ensures var (ev, took) := LongStep(cfg, args[optind][2..], NextOf(args, optind));
            && optind + Taken(took) <= |args|
            && var after := PlanOf(cfg, args, first, last, optind + Taken(took), "");
               PlanOf(cfg, args, first, last, optind, "") == after.(events := [ev] + after.events)
  {
    var (ev, took) := LongStep(cfg, args[optind][2..], NextOf(args, optind));
    assert Following(args[optind..]) == NextOf(args, optind);
    PlanTake(cfg, args, first, last, optind, "", [ev], took);
  }

  lemma PlanShortStart(cfg: Config, args: seq<string>, first: nat, last: nat, optind: nat)
    requires 1 <= first <= last <= optind < |args| && IsOption(args[optind]) && !IsLong(args[optind])
    ensures PlanOf(cfg, args, first, last, optind, "") == PlanOf(cfg, args, first, last, optind, args[optind][1..])
  {
    assert Following(args[optind..]) == NextOf(args, optind);
  }

  lemma PlanShort(cfg: Config, args: seq<string>, first: nat, last: nat, optind: nat, text: string)
    requires 1 <= first <= last <= optind < |args| && text != ""
    ensures var (ev, rest, took) := ShortStep(cfg, text[0], text[1..], NextOf(args, optind));
            if rest != "" then
              var after := PlanOf(cfg, args, first, last, optind, rest);
              PlanOf(cfg, args, first, last, optind, text) == after.(events := [ev] + after.events)
            else
              && optind + Taken(took) <= |args|
              && var after := PlanOf(cfg, args, first, last, optind + Taken(took), "");
                 PlanOf(cfg, args, first, last, optind, text) == after.(events := [ev] + after.events)
  {
    hide Parse;
    var (ev, rest, took) := ShortStep(cfg, text[0], text[1..], NextOf(args, optind));
    assert Following(args[optind..]) == NextOf(args, optind);
    if rest == "" {
      PlanTake(cfg, args, first, last, optind, text, [ev], took);
    } else {
      var (evs, t) := Cluster(cfg, rest, NextOf(args, optind));
      assert Cluster(cfg, text, NextOf(args, optind)) == ([ev] + evs, t);
      var out := Parse(cfg, args[optind..][Taken(t)..]);
      assert ([ev] + evs) + out.events == [ev] + (evs + out.events);
    }
  }

  // ----- finding a long option

  lemma {:induction false} FirstExactIs(opts: seq<LongOption>, name: string, i: nat)
    requires i <= |opts| && forall j :: 0 <= j < i ==> opts[j].name != name
    requires i < |opts| ==> opts[i].name == name
    ensures FirstExact(opts, name) == if i < |opts| then Some(i) else None
    decreases |opts|
  {
    if opts != [] && i > 0 {
      assert forall j :: 0 <= j < i - 1 ==> opts[1..][j] == opts[j + 1];
      FirstExactIs(opts[1..], name, i - 1);
    }
  }

  lemma {:induction false} NameOfIs(text: string, k: nat)
    requires k <= |text| && '=' !in text[..k] && (k < |text| ==> text[k] == '=')
    ensures NameOf(text) == text[..k]
    decreases k
  {
    if k > 0 {
      assert text[0] in text[..k];
      assert text[1..][..k - 1] == text[..k][1..];
      assert '=' !in text[..k][1..];
      NameOfIs(text[1..], k - 1);
      assert text[..k] == [text[0]] + text[1..][..k - 1];
    }
  }

  /** The loop over the table: stop at an exact name, else remember the first abbreviation. */
  method FindLong(opts: seq<LongOption>, name: string) returns (r: Lookup)
    ensures r == Find(opts, name)
  {
    var pfound: Option<nat> := None;
    var ambig := false;
    for i := 0 to |opts|
      invariant forall j :: 0 <= j < i ==> opts[j].name != name
      invariant var all := Abbreviated(opts[..i], name);
                (pfound == if all == [] then None else Some(all[0])) && (ambig <==> |all| > 1)
    {
      assert opts[..i + 1][..i] == opts[..i];
      if name <= opts[i].name {
        if |name| == |opts[i].name| {
          FirstExactIs(opts, name, i);
          return Found(i);
        } else if pfound.None? {
          pfound := Some(i);
        } else {
          ambig := true;
        }
      }
    }
    FirstExactIs(opts, name, |opts|);
    assert opts[..|opts|] == opts;
    return if ambig then Ambiguous else if pfound.Some? then Found(pfound.value) else Unknown;
  }

  class Scanner {
    var optind: nat
    var firstNonopt: nat
    var lastNonopt: nat
    /** What is left of the current element; empty for a NULL pointer, too. */
    var nextchar: string
    var optarg: Option<string>
    var longind: Option<nat>
    var optopt: Option<char>

    constructor ()
      ensures optind == 0 && nextchar == ""
    {
      optind, firstNonopt, lastNonopt, nextchar := 0, 0, 0, "";
      optarg, longind, optopt := None, None, None;
    }

    method Exchange(argv: array<string>)
      requires firstNonopt <= lastNonopt <= optind <= argv.Length
      modifies this`firstNonopt, this`lastNonopt, argv
      ensures argv[..] == Exchanged(old(argv[..]), old(firstNonopt), old(lastNonopt), optind)
      ensures firstNonopt == old(firstNonopt) + optind - old(lastNonopt) && lastNonopt == optind
    {
      hide Exchanged, Swapped;
      var bottom: nat, middle: nat, top: nat := firstNonopt, lastNonopt, optind;
      ghost var goal := Exchanged(argv[..], bottom, middle, top);
      while top > middle && middle > bottom
        invariant 0 <= bottom <= middle <= top <= argv.Length
        invariant firstNonopt == old(firstNonopt) && lastNonopt == old(lastNonopt)
        invariant goal == Exchanged(argv[..], bottom, middle, top)
        decreases top - bottom
      {
        ghost var before := argv[..];
        if top - middle > middle - bottom {
          var len := middle - bottom;
          SwapBlocks(argv, bottom, top - len, len);
          BottomShort(before, bottom, middle, top);
          top := top - len;
        } else {
          var len := top - middle;
          SwapBlocks(argv, bottom, middle, len);
          TopShort(before, bottom, middle, top);
          bottom := bottom + len;
        }
      }
      NothingLeft(argv[..], bottom, middle, top);
      firstNonopt := firstNonopt + (optind - lastNonopt);
      lastNonopt := optind;
    }

    /** Between two calls, before the end. */
    ghost predicate Ready(args: seq<string>)
      reads this
    {
      && 1 <= firstNonopt <= lastNonopt <= optind <= |args|
      && (nextchar != "" ==> optind < |args| && IsOption(args[optind]) && !IsLong(args[optind]))
    }

    /** The outcome of the whole run, as far as it is still to come. */
    ghost function Plan(cfg: Config, args: seq<string>): Out
      requires args != [] && (optind == 0 || Ready(args))
      reads this
    {
      if optind == 0 then Parse(cfg, args[1..])
      else PlanOf(cfg, args, firstNonopt, lastNonopt, optind, nextchar)
    }

    /** Bring the options in front of the non-options passed over, and pass over more. */
    method PassNonOptions(argv: array<string>, ghost cfg: Config)
      requires Ready(argv[..]) && nextchar == ""
      modifies this`optind, this`firstNonopt, this`lastNonopt, argv
      ensures Ready(argv[..]) && lastNonopt == optind
      ensures Plan(cfg, argv[..]) == old(Plan(cfg, argv[..])) && argv[0] == old(argv[0])
      ensures optind < argv.Length ==> IsOption(argv[optind])
    {
      hide PlanOf, Exchanged;
      ghost var plan := Plan(cfg, argv[..]);
      PlanExchange(cfg, argv[..], firstNonopt, lastNonopt, optind);
      PlanReset(cfg, argv[..], firstNonopt, optind);
      if firstNonopt != lastNonopt && lastNonopt != optind {
        Exchange(argv);
      } else if lastNonopt != optind {
        firstNonopt := optind;
      }
      ghost var args := argv[..];
      while optind < argv.Length && !IsOption(argv[optind])
        invariant 1 <= firstNonopt <= optind <= argv.Length && argv[..] == args
        invariant plan == PlanOf(cfg, args, firstNonopt, optind, optind, "")
        decreases argv.Length - optind
      {
        PlanSkip(cfg, args, firstNonopt, optind);
        optind := optind + 1;
      }
      lastNonopt := optind;
    }

    /** Go to the next option element; false at the end of the options. */
    method Advance(argv: array<string>, ghost cfg: Config) returns (more: bool)
      requires Ready(argv[..]) && nextchar == ""
      modifies this`optind, this`firstNonopt, this`lastNonopt, argv
      ensures argv[0] == old(argv[0])
      ensures more ==> Ready(argv[..]) && Plan(cfg, argv[..]) == old(Plan(cfg, argv[..]))
      ensures more ==> optind < argv.Length && IsOption(argv[optind]) && argv[optind] != "--"
      ensures !more ==> var plan := old(Plan(cfg, argv[..]));
                        && plan.events == [] && argv[..] == [argv[0]] + plan.opts + plan.nonopts
                        && optind == 1 + |plan.opts|
    {
      hide PlanOf, Exchanged;
      PassNonOptions(argv, cfg);
      ghost var args, f, o := argv[..], firstNonopt, optind;
      if optind != argv.Length && argv[optind] == "--" {
        PlanDashes(cfg, args, f, o);
        optind := optind + 1;
        if firstNonopt != lastNonopt && lastNonopt != optind {
          Exchange(argv);
        } else if firstNonopt == lastNonopt {
          firstNonopt := optind;
        }
        lastNonopt := argv.Length;
        optind := argv.Length;
        DashesMoved(args, f, o, argv[..]);
      } else {
        PlanEnd(cfg, args, f);
      }
      if optind == argv.Length {
        if firstNonopt != lastNonopt {
          optind := firstNonopt;
        }
        return false;
      }
      return true;
    }

    /** The outputs of a call are those of the event. */
    twostate predicate Reports(ev: Event, code: int)
      reads this
    {
      && code == ev.code && optarg == ev.arg
      && longind == (if ev.index.Some? then ev.index else old(longind))
      && optopt == (if ev.bad.Some? then ev.bad else old(optopt))
    }

    method DecodeLong(argv: array<string>, cfg: Config) returns (code: int)
      requires Ready(argv[..]) && nextchar == ""
      requires optind < argv.Length && IsLong(argv[optind]) && argv[optind] != "--"
      modifies this`optind, this`nextchar, this`optarg, this`longind, this`optopt
      ensures var plan := old(Plan(cfg, argv[..]));
              && plan.events != [] && Reports(plan.events[0], code)
              && Ready(argv[..]) && Plan(cfg, argv[..]) == plan.(events := plan.events[1..])
    {
      hide PlanOf, Find, NameOf;
      PlanLong(cfg, argv[..], firstNonopt, lastNonopt, optind);
      optarg := None;
      nextchar := argv[optind][2..];
      var nameend := 0;
      while nameend < |nextchar| && nextchar[nameend] != '='
        invariant 0 <= nameend <= |nextchar| && '=' !in nextchar[..nameend]
      {
        nameend := nameend + 1;
      }
      NameOfIs(nextchar, nameend);
      var found := FindLong(cfg.longopts, nextchar[..nameend]);
      var arg := if nameend < |nextchar| then Some(nextchar[nameend + 1..]) else None;
      nextchar := "";
      optind := optind + 1;
      if !found.Found? {
        return '?' as int;
      }
      var p := cfg.longopts[found.index];
      if arg.Some? {
        if p.hasArg == NoArgument {
          return '?' as int;
        }
        optarg := arg;
      } else if p.hasArg == RequiredArgument {
        if optind == argv.Length {
          return MissingCode(cfg);
        }
        optarg := Some(argv[optind]);
        optind := optind + 1;
      }
      longind := Some(found.index);
      return if p.flag then 0 else p.val;
    }

    method DecodeShort(argv: array<string>, cfg: Config) returns (code: int)
      requires Ready(argv[..]) && nextchar != ""
      modifies this`optind, this`nextchar, this`optarg, this`optopt
      ensures var plan := old(Plan(cfg, argv[..]));
              && plan.events != [] && Reports(plan.events[0], code)
              && Ready(argv[..]) && Plan(cfg, argv[..]) == plan.(events := plan.events[1..])
    {
      hide PlanOf;
      PlanShort(cfg, argv[..], firstNonopt, lastNonopt, optind, nextchar);
      optarg := None;
      var c := nextchar[0];
      nextchar := nextchar[1..];
      var temp := IndexOf(cfg.optstring, c);
      if nextchar == "" {
        optind := optind + 1;
      }
      if temp.None? || c == ':' {
        optopt := Some(c);
        return '?' as int;
      }
      if At(cfg.optstring, temp.value + 1) == ':' {
        if At(cfg.optstring, temp.value + 2) == ':' {
          if nextchar != "" {
            optarg := Some(nextchar);
            optind := optind + 1;
          } else {
            optarg := None;
          }
          nextchar := "";
        } else {
          if nextchar != "" {
            optarg := Some(nextchar);
            optind := optind + 1;
          } else if optind == argv.Length {
            optopt := Some(c);
            nextchar := "";
            return MissingCode(cfg);
          } else {
            optarg := Some(argv[optind]);
            optind := optind + 1;
          }
          nextchar := "";
        }
      }
      return Ord(c);
    }

    /** _getopt_internal. */
    method Next(argv: array<string>, cfg: Config) returns (code: int)
      requires argv.Length > 0 && (optind == 0 || Ready(argv[..]))
      requires At(cfg.optstring, 0) !in {'-', '+'}
      modifies this, argv
      ensures argv[0] == old(argv[0])
      ensures var plan := old(Plan(cfg, argv[..]));
              if plan.events == [] then
                && code == EOF && argv[..] == [argv[0]] + plan.opts + plan.nonopts
                && optind == 1 + |plan.opts|
              else
                && Reports(plan.events[0], code)
                && optind != 0 && Ready(argv[..]) && Plan(cfg, argv[..]) == plan.(events := plan.events[1..])
    {
      hide PlanOf, Parse;
      optarg := None;
      if optind == 0 {
        firstNonopt, lastNonopt, optind := 1, 1, 1;
        nextchar := "";
        PlanStart(cfg, argv[..]);
      }
      if nextchar == "" {
        var more := Advance(argv, cfg);
        if !more {
          return EOF;
        }
        if IsLong(argv[optind]) {
          code := DecodeLong(argv, cfg);
          return;
        }
        PlanShortStart(cfg, argv[..], firstNonopt, lastNonopt, optind);
        nextchar := argv[optind][1..];
      }
      code := DecodeShort(argv, cfg);
    }

    /** The loop every command runs over its arguments. */
    method Run(argv: array<string>, cfg: Config) returns (codes: seq<int>, args: seq<Option<string>>)
      requires argv.Length > 0 && At(cfg.optstring, 0) !in {'-', '+'}
      requires EOF_CHAR !in cfg.optstring && forall o :: o in cfg.longopts ==> o.val != EOF
      modifies this, argv
      ensures var out := Parse(cfg, old(argv[1..]));
              && |codes| == |args| == |out.events|
              && (forall k :: 0 <= k < |codes| ==> codes[k] == out.events[k].code && args[k] == out.events[k].arg)
              && argv[..] == [old(argv[0])] + out.opts + out.nonopts && optind == 1 + |out.opts|
      ensures multiset(argv[..]) == multiset(old(argv[..]))
    {
      hide PlanOf, Parse;
      ghost var out := Parse(cfg, argv[1..]);
      EventsAreNotEof(cfg, argv[1..]);
      RunPermutes(cfg, argv[..]);
      optind := 0;
      codes, args := [], [];
      var c := Next(argv, cfg);
      while c != EOF
        invariant argv[0] == old(argv[0]) && |codes| == |args| <= |out.events|
        invariant c == EOF ==> |codes| == |out.events|
                               && argv[..] == [argv[0]] + out.opts + out.nonopts && optind == 1 + |out.opts|
        invariant c != EOF ==> |codes| < |out.events| && optind != 0 && Ready(argv[..])
                               && c == out.events[|codes|].code && optarg == out.events[|codes|].arg
                               && Plan(cfg, argv[..]) == out.(events := out.events[|codes| + 1..])
        invariant forall k :: 0 <= k < |codes| ==> codes[k] == out.events[k].code && args[k] == out.events[k].arg
        decreases |out.events| - |codes|
      {
        hide Plan;
        codes, args := codes + [c], args + [optarg];
        c := Next(argv, cfg);
      }
    }
  }

  /** strchr finds what stands there. */
  lemma {:induction false} IndexIs(s: string, c: char)
    ensures IndexOf(s, c).Some? <==> c in s
    ensures IndexOf(s, c).Some? ==> IndexOf(s, c).value < |s| && s[IndexOf(s, c).value] == c
  {
    if s != "" && s[0] != c {
      IndexIs(s[1..], c);
    }
  }

  lemma ShortIsNotEof(cfg: Config, c: char, rest: string, following: Option<string>)
    requires EOF_CHAR !in cfg.optstring
    ensures ShortStep(cfg, c, rest, following).0.code != EOF
  {
    IndexIs(cfg.optstring, c);
    assert c != EOF_CHAR ==> Ord(c) != EOF;
    hide IndexOf, Ord;
  }

  lemma {:induction false} ClusterIsNotEof(cfg: Config, text: string, following: Option<string>)
    requires EOF_CHAR !in cfg.optstring
    ensures forall k :: 0 <= k < |Cluster(cfg, text, following).0| ==> Cluster(cfg, text, following).0[k].code != EOF
    decreases |text|
  {
    if text != "" {
      ShortIsNotEof(cfg, text[0], text[1..], following);
      ClusterIsNotEof(cfg, text[1..], following);
      hide ShortStep;
    }
  }

  lemma {:induction false} EventsAreNotEof(cfg: Config, args: seq<string>)
    requires EOF_CHAR !in cfg.optstring && forall o :: o in cfg.longopts ==> o.val != EOF
    ensures forall k :: 0 <= k < |Parse(cfg, args).events| ==> Parse(cfg, args).events[k].code != EOF
    decreases |args|
  {
    if args == [] || args[0] == "--" {
    } else if !IsOption(args[0]) {
      EventsAreNotEof(cfg, args[1..]);
    } else if IsLong(args[0]) {
      EventsAreNotEof(cfg, args[Taken(LongStep(cfg, args[0][2..], Following(args)).1)..]);
    } else {
      ClusterIsNotEof(cfg, args[0][1..], Following(args));
      EventsAreNotEof(cfg, args[Taken(Cluster(cfg, args[0][1..], Following(args)).1)..]);
    }
  }

  /** The final order is a permutation of argv. */
  lemma RunPermutes(cfg: Config, argv: seq<string>)
    requires argv != []
    ensures var out := Parse(cfg, argv[1..]);
            multiset([argv[0]] + out.opts + out.nonopts) == multiset(argv)
  {
    var out := Parse(cfg, argv[1..]);
    ParseMerges(cfg, argv[1..]);
    MergedIsPermutation(argv[1..], out.opts, out.nonopts);
    assert [argv[0]] + out.opts + out.nonopts == [argv[0]] + (out.opts + out.nonopts);
    assert argv == [argv[0]] + argv[1..];
  }

  lemma PlanStart(cfg: Config, args: seq<string>)
    requires args != []
    ensures PlanOf(cfg, args, 1, 1, 1, "") == Parse(cfg, args[1..])
  {
    var p := Parse(cfg, args[1..]);
    assert args[1..1] + args[1..1] + p.opts == p.opts && args[1..1] + p.nonopts == p.nonopts;
  }

  /** Where `--` at o ends up in front of the non-options [f, o). */
  lemma DashesMoved(args: seq<string>, f: nat, o: nat, after: seq<string>)
    requires 1 <= f <= o < |args| && args[o] == "--"
    requires after == if f == o then args else Exchanged(args, f, o, o + 1)
    ensures |after| == |args| && after[0] == args[0]
    ensures after == [args[0]] + (args[1..f] + ["--"]) + (args[f..o] + args[o + 1..])
  {
    assert args[o..o + 1] == ["--"];
    assert args == args[..f] + args[f..o] + args[o..o + 1] + args[o + 1..];
    assert args[..f] == [args[0]] + args[1..f];
  }
}
