/**
 Command lines for the scanner of lib/getopt.c as they are written: long options with and without
 a value, clusters of letters, operands, and how the line ends.  Said without the steps of Getopt,
 what the scanner reports for such a line; every argument list can be written in this way.
 */
module SpelledOptions {
  import opened CString
  import opened Sequences
  import opened Getopt

  /** One element, or an option and the element it takes. */
  datatype Item =
    | Long(name: string, index: nat)
    | LongEquals(name: string, index: nat, value: string)
    | LongNext(name: string, index: nat, value: string)
    | LongRefused(name: string, given: Option<string>)
    | Letters(letters: string)
    | LettersAttached(letters: string, c: char, value: string)
    | LettersNext(letters: string, c: char, value: string)
    | Operand(text: string)

  /** How the line ends: after the last item, with `--` and what is no option behind it, or without a
      required argument. */
  datatype Ending =
    | Stop
    | Dashes(rest: seq<string>)
    | LongMissing(name: string, index: nat)
    | LettersMissing(letters: string, c: char)

  // ----- what stands on the line

  function Elements(item: Item): (e: seq<string>)
    ensures e != []
  {
    match item
    case Long(name, _) => ["--" + name]
    case LongEquals(name, _, value) => ["--" + name + "=" + value]
    case LongNext(name, _, value) => ["--" + name, value]
    case LongRefused(name, given) => ["--" + name + if given.Some? then "=" + given.value else ""]
    case Letters(letters) => ["-" + letters]
    case LettersAttached(letters, c, value) => ["-" + letters + [c] + value]
    case LettersNext(letters, c, value) => ["-" + letters + [c], value]
    case Operand(text) => [text]
  }

  function EndElements(ending: Ending): seq<string> {
    match ending
    case Stop => []
    case Dashes(rest) => ["--"] + rest
    case LongMissing(name, _) => ["--" + name]
    case LettersMissing(letters, c) => ["-" + letters + [c]]
  }

  function Line(items: seq<Item>, ending: Ending): seq<string> {
    if items == [] then EndElements(ending) else Elements(items[0]) + Line(items[1..], ending)
  }

  // ----- which names and letters the options have

  /** The name of option i: the first that is called so, or the only one whose name starts like this. */
  predicate Names(opts: seq<LongOption>, name: string, i: nat) {
    && i < |opts|
    && (|| (opts[i].name == name && forall j :: 0 <= j < i ==> opts[j].name != name)
        || (name <= opts[i].name && forall j :: 0 <= j < |opts| && j != i ==> !(name <= opts[j].name)))
  }

  predicate NamesNone(opts: seq<LongOption>, name: string) {
    forall j :: 0 <= j < |opts| ==> !(name <= opts[j].name)
  }

  predicate NamesMany(opts: seq<LongOption>, name: string) {
    && (forall j :: 0 <= j < |opts| ==> opts[j].name != name)
    && exists i, j :: 0 <= i < j < |opts| && name <= opts[i].name && name <= opts[j].name
  }

  /** At its first place in the option string the letter has n colons behind it, two counting as all. */
  predicate DeclaredAt(s: string, c: char, k: nat, n: nat) {
    && k < |s| && c != ':' && s[k] == c && c !in s[..k]
    && n == if k + 1 == |s| || s[k + 1] != ':' then 0 else if k + 2 == |s| || s[k + 2] != ':' then 1 else 2
  }

  predicate Declared(s: string, c: char, n: nat) {
    exists k :: 0 <= k < |s| && DeclaredAt(s, c, k, n)
  }

  /** A letter that takes no argument, or none that is declared at all. */
  predicate Single(s: string, c: char) {
    c == ':' || c !in s || Declared(s, c, 0)
  }

  predicate AllSingle(s: string, letters: string) {
    forall k :: 0 <= k < |letters| ==> Single(s, letters[k])
  }

  predicate LongName(opts: seq<LongOption>, name: string, index: nat) {
    '=' !in name && Names(opts, name, index)
  }

  predicate Refused(opts: seq<LongOption>, name: string, given: Option<string>) {
    || NamesNone(opts, name) || NamesMany(opts, name)
    || (given.Some? && exists i :: 0 <= i < |opts| && Names(opts, name, i) && opts[i].hasArg == NoArgument)
  }

  predicate ItemOk(cfg: Config, item: Item) {
    match item
    case Long(name, i) =>
      name != "" && LongName(cfg.longopts, name, i) && cfg.longopts[i].hasArg != RequiredArgument
    case LongEquals(name, i, _) => LongName(cfg.longopts, name, i) && cfg.longopts[i].hasArg != NoArgument
    case LongNext(name, i, _) =>
      name != "" && LongName(cfg.longopts, name, i) && cfg.longopts[i].hasArg == RequiredArgument
    case LongRefused(name, given) =>
      '=' !in name && (name != "" || given.Some?) && Refused(cfg.longopts, name, given)
    case Letters(letters) => letters != "" && letters[0] != '-' && AllSingle(cfg.optstring, letters)
    case LettersAttached(letters, c, value) =>
      && (letters + [c])[0] != '-' && AllSingle(cfg.optstring, letters)
      && ((Declared(cfg.optstring, c, 1) && value != "") || Declared(cfg.optstring, c, 2))
    case LettersNext(letters, c, _) =>
      (letters + [c])[0] != '-' && AllSingle(cfg.optstring, letters) && Declared(cfg.optstring, c, 1)
    case Operand(text) => |text| < 2 || text[0] != '-'
  }

  predicate EndingOk(cfg: Config, ending: Ending) {
    match ending
    case Stop => true
    case Dashes(_) => true
    case LongMissing(name, i) =>
      name != "" && LongName(cfg.longopts, name, i) && cfg.longopts[i].hasArg == RequiredArgument
    case LettersMissing(letters, c) =>
      (letters + [c])[0] != '-' && AllSingle(cfg.optstring, letters) && Declared(cfg.optstring, c, 1)
  }

  predicate ItemsOk(cfg: Config, items: seq<Item>) {
    forall k :: 0 <= k < |items| ==> ItemOk(cfg, items[k])
  }

  // ----- what is reported

  /** A char as the int that is returned. */
  function Code(c: char): int {
    if c as int < 128 then c as int else c as int - 256
  }

  function OptionEvent(o: LongOption, index: nat, arg: Option<string>): Event {
    Event(if o.flag then 0 else o.val, arg, Some(index), None)
  }

  function LetterEvent(cfg: Config, c: char): Event {
    if c in cfg.optstring && c != ':' then Event(Code(c), None, None, None)
    else Event('?' as int, None, None, Some(c))
  }

  function LetterEvents(cfg: Config, letters: string): seq<Event> {
    if letters == "" then [] else [LetterEvent(cfg, letters[0])] + LetterEvents(cfg, letters[1..])
  }

  /** A colon in front of the option string asks for colons where an argument is missing. */
  function Missing(cfg: Config, bad: Option<char>): Event {
    Event(if cfg.optstring != "" && cfg.optstring[0] == ':' then ':' as int else '?' as int, None, None, bad)
  }

  function Reported(cfg: Config, item: Item): seq<Event>
    requires ItemOk(cfg, item)
  {
    match item
    case Long(_, i) => [OptionEvent(cfg.longopts[i], i, None)]
    case LongEquals(_, i, value) => [OptionEvent(cfg.longopts[i], i, Some(value))]
    case LongNext(_, i, value) => [OptionEvent(cfg.longopts[i], i, Some(value))]
    case LongRefused(_, _) => [Event('?' as int, None, None, None)]
    case Letters(letters) => LetterEvents(cfg, letters)
    case LettersAttached(letters, c, value) =>
      LetterEvents(cfg, letters) + [Event(Code(c), if value == "" then None else Some(value), None, None)]
    case LettersNext(letters, c, value) =>
      LetterEvents(cfg, letters) + [Event(Code(c), Some(value), None, None)]
    case Operand(_) => []
  }

  function EndReported(cfg: Config, ending: Ending): seq<Event> {
    match ending
    case Stop => []
    case Dashes(_) => []
    case LongMissing(_, _) => [Missing(cfg, None)]
    case LettersMissing(letters, c) => LetterEvents(cfg, letters) + [Missing(cfg, Some(c))]
  }

  function AllReported(cfg: Config, items: seq<Item>, ending: Ending): seq<Event>
    requires ItemsOk(cfg, items)
  {
    if items == [] then EndReported(cfg, ending)
    else Reported(cfg, items[0]) + AllReported(cfg, items[1..], ending)
  }

  /** The elements of the options, with the `--`. */
  function OptionElements(items: seq<Item>, ending: Ending): seq<string> {
    if items == [] then (if ending.Dashes? then ["--"] else EndElements(ending))
    else (if items[0].Operand? then [] else Elements(items[0])) + OptionElements(items[1..], ending)
  }

  /** The operands, with what stands behind the `--`. */
  function Operands(items: seq<Item>, ending: Ending): seq<string> {
    if items == [] then (if ending.Dashes? then ending.rest else [])
    else (if items[0].Operand? then [items[0].text] else []) + Operands(items[1..], ending)
  }

  // ----- names are found

  lemma {:induction false} AbbreviatedAre(opts: seq<LongOption>, name: string)
    ensures var all := Abbreviated(opts, name);
            && (forall k :: k in all <==> 0 <= k < |opts| && name <= opts[k].name)
            && forall a, b :: 0 <= a < b < |all| ==> all[a] < all[b]
    decreases |opts|
  {
    if opts != [] {
      var front := opts[..|opts| - 1];
      AbbreviatedAre(front, name);
      assert forall k :: 0 <= k < |front| ==> front[k] == opts[k];
      assert forall k :: k in Abbreviated(opts, name) ==>
                           k in Abbreviated(front, name) || (k == |opts| - 1 && name <= opts[k].name);
    }
  }

  lemma FirstExactAre(opts: seq<LongOption>, name: string)
    ensures match FirstExact(opts, name)
            case Some(i) => opts[i].name == name && forall j :: 0 <= j < i ==> opts[j].name != name
            case None => forall j :: 0 <= j < |opts| ==> opts[j].name != name
    decreases |opts|
  {
    if opts != [] && opts[0].name != name {
      FirstExactAre(opts[1..], name);
      assert forall j :: 1 <= j < |opts| ==> opts[j] == opts[1..][j - 1];
    }
  }

  /** The lookup finds what a name names: the first so called, else the only one that starts so. */
  lemma FindNames(opts: seq<LongOption>, name: string, i: nat)
    ensures Find(opts, name) == Found(i) <==> Names(opts, name, i)
    ensures Find(opts, name) == Unknown <==> NamesNone(opts, name)
    ensures Find(opts, name) == Ambiguous <==> NamesMany(opts, name)
  {
    FirstExactAre(opts, name);
    AbbreviatedAre(opts, name);
    hide FirstExact, Abbreviated;
    var all := Abbreviated(opts, name);
    if FirstExact(opts, name).Some? {
      ExactName(opts, name, FirstExact(opts, name).value, i);
    } else {
      NoExactName(opts, name, all, i);
    }
  }

  lemma ExactName(opts: seq<LongOption>, name: string, e: nat, i: nat)
    requires e < |opts| && opts[e].name == name && forall j :: 0 <= j < e ==> opts[j].name != name
    ensures Names(opts, name, i) <==> i == e
    ensures !NamesNone(opts, name) && !NamesMany(opts, name)
  {
    assert name <= opts[e].name;
  }

  lemma NoExactName(opts: seq<LongOption>, name: string, all: seq<nat>, i: nat)
    requires forall j :: 0 <= j < |opts| ==> opts[j].name != name
    requires forall k :: k in all <==> 0 <= k < |opts| && name <= opts[k].name
    requires forall a, b :: 0 <= a < b < |all| ==> all[a] < all[b]
    ensures Names(opts, name, i) <==> all == [i]
    ensures NamesNone(opts, name) <==> all == []
    ensures NamesMany(opts, name) <==> |all| > 1
  {
    if all == [] {
    } else if |all| == 1 {
      assert all == [all[0]] && all[0] in all;
    } else {
      assert all[0] in all && all[1] in all && all[0] < all[1];
    }
  }

  // ----- letters are found

  lemma {:induction false} FirstIndex(s: string, c: char, k: nat)
    requires k < |s| && s[k] == c && c !in s[..k]
    ensures IndexOf(s, c) == Some(k)
    decreases k
  {
    if k > 0 {
      assert s[..k][0] == s[0] && s[1..][..k - 1] == s[..k][1..];
      FirstIndex(s[1..], c, k - 1);
    }
  }

  /** What a step does with a letter. */
  lemma SingleStep(cfg: Config, c: char, rest: string, following: Option<string>)
    requires Single(cfg.optstring, c)
    ensures ShortStep(cfg, c, rest, following) == (LetterEvent(cfg, c), rest, false)
  {
    var s := cfg.optstring;
    IndexIs(s, c);
    if c != ':' && c in s {
      var k :| 0 <= k < |s| && DeclaredAt(s, c, k, 0);
      FirstIndex(s, c, k);
    }
    hide IndexOf;
  }

  lemma ArgumentStep(cfg: Config, c: char, rest: string, following: Option<string>, n: nat)
    requires Declared(cfg.optstring, c, n) && (n == 1 || n == 2)
    ensures ShortStep(cfg, c, rest, following) ==
              if rest != "" then (Event(Code(c), Some(rest), None, None), "", false)
              else if n == 2 then (Event(Code(c), None, None, None), "", false)
              else if following.Some? then (Event(Code(c), following, None, None), "", true)
              else (Missing(cfg, Some(c)), "", false)
  {
    var s := cfg.optstring;
    var k :| 0 <= k < |s| && DeclaredAt(s, c, k, n);
    FirstIndex(s, c, k);
    hide IndexOf;
  }

  lemma {:induction false} LettersFirst(cfg: Config, letters: string, rest: string, following: Option<string>)
    requires AllSingle(cfg.optstring, letters)
    ensures Cluster(cfg, letters + rest, following)
              == (LetterEvents(cfg, letters) + Cluster(cfg, rest, following).0, Cluster(cfg, rest, following).1)
    decreases |letters|
  {
    if letters == "" {
      assert letters + rest == rest;
      assert [] + Cluster(cfg, rest, following).0 == Cluster(cfg, rest, following).0;
    } else {
      var tail := letters[1..] + rest;
      assert Single(cfg.optstring, letters[0]);
      assert AllSingle(cfg.optstring, letters[1..]);
      LettersFirst(cfg, letters[1..], rest, following);
      SingleStep(cfg, letters[0], tail, following);
      hide ShortStep, Single, AllSingle, LetterEvent;
      var text := letters + rest;
      assert text[0] == letters[0] && text[1..] == tail;
      Associate([LetterEvent(cfg, letters[0])], LetterEvents(cfg, letters[1..]), Cluster(cfg, rest, following).0);
      ClusterOne(cfg, text, following, LetterEvent(cfg, letters[0]));
    }
  }

  lemma ClusterOne(cfg: Config, text: string, following: Option<string>, ev: Event)
    requires text != "" && ShortStep(cfg, text[0], text[1..], following) == (ev, text[1..], false)
    ensures Cluster(cfg, text, following)
              == ([ev] + Cluster(cfg, text[1..], following).0, Cluster(cfg, text[1..], following).1)
  {
    hide ShortStep;
    assert [ev] + [] == [ev];
  }

  /** The last letter of a cluster, with what is behind it. */
  lemma ArgumentLast(cfg: Config, letters: string, c: char, value: string, following: Option<string>, n: nat)
    requires AllSingle(cfg.optstring, letters) && Declared(cfg.optstring, c, n) && (n == 1 || n == 2)
    ensures var (ev, _, took) := ShortStep(cfg, c, value, following);
            Cluster(cfg, letters + ([c] + value), following) == (LetterEvents(cfg, letters) + [ev], took)
  {
    LettersFirst(cfg, letters, [c] + value, following);
    ArgumentStep(cfg, c, value, following, n);
    hide ShortStep, Declared, AllSingle;
    assert ([c] + value)[0] == c && ([c] + value)[1..] == value;
  }

  // ----- items are parsed

  function Behind(item: Item, rest: seq<string>): Option<string> {
    Following(Elements(item) + rest)
  }

  /** What an item adds to the outcome. */
  function Added(cfg: Config, item: Item, out: Out): Out
    requires ItemOk(cfg, item)
  {
    if item.Operand? then out.(nonopts := [item.text] + out.nonopts)
    else Getopt.Prepend(Reported(cfg, item), Elements(item), out)
  }

  lemma LongParts(a: string, name: string, tail: string)
    requires a == "--" + name + tail && (name + tail) != ""
    ensures IsLong(a) && IsOption(a) && a != "--" && a[2..] == name + tail
  {
  }

  lemma NameCut(name: string, tail: string)
    requires '=' !in name && (tail != "" ==> tail[0] == '=')
    ensures NameOf(name + tail) == name && (tail != "" ==> (name + tail)[|name| + 1..] == tail[1..])
  {
    var text := name + tail;
    assert text[..|name|] == name;
    NameOfIs(text, |name|);
  }

  /** What a step does with a long option. */
  lemma LongStepIs(cfg: Config, name: string, given: Option<string>, following: Option<string>)
    requires '=' !in name
    ensures var text := name + if given.Some? then "=" + given.value else "";
            var r := LongStep(cfg, text, following);
            && (NamesNone(cfg.longopts, name) || NamesMany(cfg.longopts, name) ==>
                  r == (Event('?' as int, None, None, None), false))
            && forall i :: 0 <= i < |cfg.longopts| && Names(cfg.longopts, name, i) ==>
                             r == NamedStep(cfg, i, given, following)
  {
    var tail := if given.Some? then "=" + given.value else "";
    NameCut(name, tail);
    assert given.Some? ==> tail[1..] == given.value;
    FindNames(cfg.longopts, name, 0);
    hide Find, NameOf, Names, NamesNone, NamesMany;
    forall i | 0 <= i < |cfg.longopts| && Names(cfg.longopts, name, i)
      ensures Find(cfg.longopts, name) == Found(i)
    {
      FindNames(cfg.longopts, name, i);
    }
  }

  /** The report of a named option, and whether it takes the next element. */
  function NamedStep(cfg: Config, i: nat, given: Option<string>, following: Option<string>): (Event, bool)
    requires i < |cfg.longopts|
  {
    var o := cfg.longopts[i];
    if given.Some? && o.hasArg == NoArgument then (Event('?' as int, None, None, None), false)
    else if given.Some? then (OptionEvent(o, i, given), false)
    else if o.hasArg != RequiredArgument then (OptionEvent(o, i, None), false)
    else if following.Some? then (OptionEvent(o, i, following), true)
    else (Missing(cfg, None), false)
  }

  lemma ParseLong(cfg: Config, name: string, given: Option<string>, args: seq<string>)
    requires '=' !in name && (name != "" || given.Some?)
    requires args != [] && args[0] == "--" + name + if given.Some? then "=" + given.value else ""
    ensures var (ev, took) := LongStep(cfg, name + if given.Some? then "=" + given.value else "", Following(args));
            Parse(cfg, args) == Getopt.Prepend([ev], args[..Taken(took)], Parse(cfg, args[Taken(took)..]))
  {
    var tail := if given.Some? then "=" + given.value else "";
    LongParts(args[0], name, tail);
    hide LongStep;
  }

  lemma ParseLetters(cfg: Config, text: string, args: seq<string>)
    requires text != "" && text[0] != '-' && args != [] && args[0] == "-" + text
    ensures var (evs, took) := Cluster(cfg, text, Following(args));
            Parse(cfg, args) == Getopt.Prepend(evs, args[..Taken(took)], Parse(cfg, args[Taken(took)..]))
  {
    var a := args[0];
    assert a[0] == '-' && a[1] == text[0] && a[1..] == text;
    hide Cluster;
  }

  lemma Front(e: seq<string>, rest: seq<string>)
    requires e != []
    ensures var args := e + rest;
            && args != [] && args[0] == e[0] && args[..|e|] == e && args[|e|..] == rest
            && (|e| > 1 ==> Following(args) == Some(e[1]))
  {
  }

  /** An item at the front of a line. */
  lemma ItemFirst(cfg: Config, item: Item, rest: seq<string>)
    requires ItemOk(cfg, item)
    ensures Parse(cfg, Elements(item) + rest) == Added(cfg, item, Parse(cfg, rest))
  {
    var args := Elements(item) + rest;
    Front(Elements(item), rest);
    match item {
      case Long(name, i) =>
        LongFirst(cfg, item, name, i, None, rest);
      case LongEquals(name, i, value) =>
        LongFirst(cfg, item, name, i, Some(value), rest);
      case LongNext(name, i, value) =>
        LongFirst(cfg, item, name, i, None, rest);
      case LongRefused(name, given) =>
        RefusedFirst(cfg, name, given, rest);
      case Letters(letters) =>
        LettersAlone(cfg, letters, rest);
      case LettersAttached(letters, c, value) =>
        LettersValue(cfg, letters, c, value, rest);
      case LettersNext(letters, c, value) =>
        LettersTake(cfg, letters, c, value, rest);
      case Operand(text) =>
        hide Parse;
        OperandFirst(cfg, text, rest);
    }
  }

  lemma OperandFirst(cfg: Config, text: string, rest: seq<string>)
    requires |text| < 2 || text[0] != '-'
    ensures var out := Parse(cfg, rest); Parse(cfg, [text] + rest) == out.(nonopts := [text] + out.nonopts)
  {
    var args := [text] + rest;
    assert args[0] == text && args[1..] == rest;
  }

  lemma LongFirst(cfg: Config, item: Item, name: string, i: nat, given: Option<string>, rest: seq<string>)
    requires ItemOk(cfg, item) && LongName(cfg.longopts, name, i)
    requires || (given == None && item == Long(name, i))
             || (given == None && item.LongNext? && item == LongNext(name, i, item.value))
             || (given.Some? && item == LongEquals(name, i, given.value))
    ensures Parse(cfg, Elements(item) + rest) == Added(cfg, item, Parse(cfg, rest))
  {
    var args := Elements(item) + rest;
    Front(Elements(item), rest);
    FirstElement(item, name, given);
    LongStepIs(cfg, name, given, Following(args));
    ParseLong(cfg, name, given, args);
    hide Parse, LongStep, Names, Elements, Following;
    assert |Elements(item)| == if item.LongNext? then 2 else 1;
  }

  lemma FirstElement(item: Item, name: string, given: Option<string>)
    requires item.Long? || item.LongEquals? || item.LongNext?
    requires item.name == name && given == if item.LongEquals? then Some(item.value) else None
    ensures Elements(item)[0] == "--" + name + (if given.Some? then "=" + given.value else "")
    ensures |Elements(item)| == if item.LongNext? then 2 else 1
    ensures item.LongNext? ==> Elements(item)[1] == item.value
  {
    assert "--" + name + "" == "--" + name;
    if given.Some? {
      Associate("--" + name, "=", given.value);
    }
  }

  lemma RefusedFirst(cfg: Config, name: string, given: Option<string>, rest: seq<string>)
    requires ItemOk(cfg, LongRefused(name, given))
    ensures var item := LongRefused(name, given);
            Parse(cfg, Elements(item) + rest) == Added(cfg, item, Parse(cfg, rest))
  {
    var item := LongRefused(name, given);
    var args := Elements(item) + rest;
    Front(Elements(item), rest);
    LongStepIs(cfg, name, given, Following(args));
    ParseLong(cfg, name, given, args);
    hide Parse, LongStep, Names, NamesNone, NamesMany, Following;
  }

  lemma LettersAlone(cfg: Config, letters: string, rest: seq<string>)
    requires ItemOk(cfg, Letters(letters))
    ensures Parse(cfg, ["-" + letters] + rest)
              == Getopt.Prepend(LetterEvents(cfg, letters), ["-" + letters], Parse(cfg, rest))
  {
    var args := ["-" + letters] + rest;
    Front(["-" + letters], rest);
    LettersFirst(cfg, letters, "", Following(args));
    assert letters + "" == letters && LetterEvents(cfg, letters) + [] == LetterEvents(cfg, letters);
    NoLetters(cfg, Following(args));
    ParseLetters(cfg, letters, args);
    hide Parse, Cluster, Following, AllSingle;
  }

  lemma NoLetters(cfg: Config, following: Option<string>)
    ensures Cluster(cfg, "", following) == ([], false)
  {
  }

  lemma ClusterText(letters: string, c: char, value: string)
    ensures "-" + letters + [c] + value == "-" + (letters + ([c] + value))
    ensures letters + ([c] + value) != "" && (letters + ([c] + value))[0] == (letters + [c])[0]
  {
  }

  lemma LettersValue(cfg: Config, letters: string, c: char, value: string, rest: seq<string>)
    requires ItemOk(cfg, LettersAttached(letters, c, value))
    ensures var item := LettersAttached(letters, c, value);
            Parse(cfg, Elements(item) + rest) == Added(cfg, item, Parse(cfg, rest))
  {
    var item := LettersAttached(letters, c, value);
    var args, n := Elements(item) + rest, if Declared(cfg.optstring, c, 2) then 2 else 1;
    Front(Elements(item), rest);
    ClusterText(letters, c, value);
    ArgumentStep(cfg, c, value, Following(args), n);
    ArgumentLast(cfg, letters, c, value, Following(args), n);
    ParseLetters(cfg, letters + ([c] + value), args);
    hide Parse, Cluster, ShortStep, Following, AllSingle, Declared;
  }

  lemma LettersTake(cfg: Config, letters: string, c: char, value: string, rest: seq<string>)
    requires ItemOk(cfg, LettersNext(letters, c, value))
    ensures var item := LettersNext(letters, c, value);
            Parse(cfg, Elements(item) + rest) == Added(cfg, item, Parse(cfg, rest))
  {
    var item := LettersNext(letters, c, value);
    var args := Elements(item) + rest;
    Front(Elements(item), rest);
    ClusterText(letters, c, "");
    LastLetter(letters, c);
    ArgumentStep(cfg, c, "", Following(args), 1);
    ArgumentLast(cfg, letters, c, "", Following(args), 1);
    ParseLetters(cfg, letters + ([c] + ""), args);
    hide Parse, Cluster, ShortStep, Following, AllSingle, Declared;
  }

  lemma LastLetter(letters: string, c: char)
    ensures "-" + letters + [c] + "" == "-" + letters + [c] && [c] + "" == [c]
  {
  }

  /** The end of a line. */
  lemma EndFirst(cfg: Config, ending: Ending)
    requires EndingOk(cfg, ending)
    ensures Parse(cfg, EndElements(ending))
              == Out(EndReported(cfg, ending), OptionElements([], ending), Operands([], ending))
  {
    match ending {
      case Stop =>
      case Dashes(rest) =>
        assert (["--"] + rest)[0] == "--" && (["--"] + rest)[1..] == rest;
      case LongMissing(name, i) =>
        NoLongArgument(cfg, name, i);
      case LettersMissing(letters, c) =>
        NoLetterArgument(cfg, letters, c);
    }
  }

  lemma NothingBehind(cfg: Config, e: string, evs: seq<Event>)
    ensures Getopt.Prepend(evs, [e], Parse(cfg, [])) == Out(evs, [e], [])
    ensures [e][1..] == [] && [e][..1] == [e] && Following([e]) == None
  {
    assert evs + [] == evs && [e] + [] == [e];
  }

  lemma NoLongArgument(cfg: Config, name: string, i: nat)
    requires EndingOk(cfg, LongMissing(name, i))
    ensures Parse(cfg, ["--" + name]) == Out([Missing(cfg, None)], ["--" + name], [])
  {
    var args := ["--" + name];
    NothingBehind(cfg, "--" + name, [Missing(cfg, None)]);
    assert "--" + name + "" == "--" + name && name + "" == name;
    LongStepIs(cfg, name, None, None);
    ParseLong(cfg, name, None, args);
    hide Parse, LongStep, Names, Following;
  }

  lemma NoLetterArgument(cfg: Config, letters: string, c: char)
    requires EndingOk(cfg, LettersMissing(letters, c))
    ensures var e := "-" + letters + [c];
            Parse(cfg, [e]) == Out(LetterEvents(cfg, letters) + [Missing(cfg, Some(c))], [e], [])
  {
    var e, evs := "-" + letters + [c], LetterEvents(cfg, letters) + [Missing(cfg, Some(c))];
    NothingBehind(cfg, e, evs);
    ClusterText(letters, c, "");
    LastLetter(letters, c);
    ArgumentStep(cfg, c, "", None, 1);
    ArgumentLast(cfg, letters, c, "", None, 1);
    ParseLetters(cfg, letters + ([c] + ""), [e]);
    hide Parse, Cluster, ShortStep, Following, AllSingle, Declared;
  }

  /** The outcome of any written line: the reports of its items in order, the options' elements, the operands. */
  lemma {:induction false} LineParses(cfg: Config, items: seq<Item>, ending: Ending)
    requires ItemsOk(cfg, items) && EndingOk(cfg, ending)
    ensures Parse(cfg, Line(items, ending))
              == Out(AllReported(cfg, items, ending), OptionElements(items, ending), Operands(items, ending))
    decreases |items|
  {
    if items == [] {
      EndFirst(cfg, ending);
    } else {
      LineParses(cfg, items[1..], ending);
      ItemFirst(cfg, items[0], Line(items[1..], ending));
      hide Parse, ItemOk, Reported, Elements;
      if items[0].Operand? {
        OperandElements(cfg, items[0]);
        assert [] + OptionElements(items[1..], ending) == OptionElements(items[1..], ending);
        assert [] + AllReported(cfg, items[1..], ending) == AllReported(cfg, items[1..], ending);
      } else {
        assert [] + Operands(items[1..], ending) == Operands(items[1..], ending);
      }
    }
  }

  lemma OperandElements(cfg: Config, item: Item)
    requires item.Operand? && ItemOk(cfg, item)
    ensures Reported(cfg, item) == []
  {
  }

  // ----- every line can be written so

  /** Where a letter stands first. */
  lemma {:induction false} FirstPlace(s: string, c: char) returns (k: nat)
    requires c in s
    ensures k < |s| && s[k] == c && c !in s[..k]
  {
    if s[0] == c {
      k := 0;
    } else {
      k := FirstPlace(s[1..], c);
      k := k + 1;
      assert s[..k] == [s[0]] + s[1..][..k - 1];
    }
  }

  lemma LetterKind(s: string, c: char)
    ensures Single(s, c) || Declared(s, c, 1) || Declared(s, c, 2)
  {
    if c != ':' && c in s {
      var k := FirstPlace(s, c);
      var n := if k + 1 == |s| || s[k + 1] != ':' then 0 else if k + 2 == |s| || s[k + 2] != ':' then 1 else 2;
      assert DeclaredAt(s, c, k, n);
    }
  }

  /** The letters in front of the first one that takes an argument. */
  lemma {:induction false} SingleFront(s: string, text: string) returns (n: nat)
    ensures n <= |text| && AllSingle(s, text[..n])
    ensures n < |text| ==> Declared(s, text[n], 1) || Declared(s, text[n], 2)
    decreases |text|
  {
    n := 0;
    if text != "" {
      LetterKind(s, text[0]);
      if Single(s, text[0]) {
        var m := SingleFront(s, text[1..]);
        n := m + 1;
        assert text[..n] == [text[0]] + text[1..][..m];
        hide Single, Declared;
        assert forall k :: 1 <= k < n ==> text[..n][k] == text[1..][..m][k - 1];
      }
    }
  }

  /** The first item of an argument list, or its end. */
  predicate Starts(cfg: Config, item: Option<Item>, ending: Ending, args: seq<string>) {
    match item
    case Some(i) => ItemOk(cfg, i) && |Elements(i)| <= |args| && args[..|Elements(i)|] == Elements(i)
    case None => EndingOk(cfg, ending) && EndElements(ending) == args
  }

  lemma SpellLetters(cfg: Config, args: seq<string>) returns (item: Option<Item>, ending: Ending)
    requires args != [] && |args[0]| > 1 && args[0][0] == '-' && args[0][1] != '-'
    ensures Starts(cfg, item, ending, args)
  {
    var text := args[0][1..];
    var n := SingleFront(cfg.optstring, text);
    var letters := text[..n];
    item, ending := None, Stop;
    hide AllSingle, Declared;
    assert args[..1] == [args[0]];
    if n == |text| {
      assert letters == text && "-" + letters == args[0];
      item := Some(Letters(letters));
    } else {
      var c, value := text[n], text[n + 1..];
      assert (letters + [c])[0] == text[0] && "-" + letters + [c] + value == args[0];
      if value != "" || Declared(cfg.optstring, c, 2) {
        item := Some(LettersAttached(letters, c, value));
      } else if |args| > 1 {
        assert args[..2] == [args[0], args[1]] && "-" + letters + [c] == args[0];
        item := Some(LettersNext(letters, c, args[1]));
      } else {
        assert args == [args[0]] && "-" + letters + [c] == args[0];
        ending := LettersMissing(letters, c);
      }
    }
  }

  lemma LongText(a: string) returns (name: string, given: Option<string>)
    requires IsLong(a) && a != "--"
    ensures '=' !in name && (name != "" || given.Some?)
    ensures a == "--" + name + if given.Some? then "=" + given.value else ""
  {
    var text := a[2..];
    name := NameOf(text);
    assert a == "--" + text && text != "";
    if |name| < |text| {
      given := Some(text[|name| + 1..]);
      assert text == name + ("=" + given.value);
    } else {
      given := None;
      assert text == name;
    }
    hide NameOf;
  }

  lemma SpellLong(cfg: Config, args: seq<string>) returns (item: Option<Item>, ending: Ending)
    requires args != [] && IsLong(args[0]) && args[0] != "--"
    ensures Starts(cfg, item, ending, args)
  {
    var name, given := LongText(args[0]);
    var opts := cfg.longopts;
    item, ending := Some(LongRefused(name, given)), Stop;
    FindNames(opts, name, 0);
    assert args[..1] == [args[0]];
    if Find(opts, name).Found? {
      var i := Find(opts, name).index;
      FindNames(opts, name, i);
      hide Find, Names;
      assert "--" + name + "" == "--" + name;
      if given.Some? {
        if opts[i].hasArg != NoArgument {
          Associate("--" + name, "=", given.value);
          item := Some(LongEquals(name, i, given.value));
        }
      } else if opts[i].hasArg != RequiredArgument {
        item := Some(Long(name, i));
      } else if |args| > 1 {
        assert args[..2] == [args[0], args[1]];
        item := Some(LongNext(name, i, args[1]));
      } else {
        assert args == [args[0]];
        item, ending := None, LongMissing(name, i);
      }
    }
  }

  lemma SpellFirst(cfg: Config, args: seq<string>) returns (item: Option<Item>, ending: Ending)
    ensures Starts(cfg, item, ending, args)
  {
    item, ending := None, Stop;
    if args != [] {
      if args[0] == "--" {
        assert args == ["--"] + args[1..];
        ending := Dashes(args[1..]);
      } else if |args[0]| < 2 || args[0][0] != '-' {
        assert args[..1] == [args[0]];
        item := Some(Operand(args[0]));
      } else if args[0][1] == '-' {
        item, ending := SpellLong(cfg, args);
      } else {
        item, ending := SpellLetters(cfg, args);
      }
    }
  }

  /** Every argument list is a line of items with an ending. */
  lemma {:induction false} Spell(cfg: Config, args: seq<string>) returns (items: seq<Item>, ending: Ending)
    ensures ItemsOk(cfg, items) && EndingOk(cfg, ending) && Line(items, ending) == args
    decreases |args|
  {
    var item;
    item, ending := SpellFirst(cfg, args);
    items := [];
    hide ItemOk, EndingOk;
    if item.Some? {
      var e := Elements(item.value);
      var more;
      more, ending := Spell(cfg, args[|e|..]);
      items := [item.value] + more;
      assert items[1..] == more && args == e + args[|e|..];
    }
  }

  /** The loop of a command over a written line: the reports in order, and options in front of operands. */
  method RunLine(argv: array<string>, cfg: Config, ghost items: seq<Item>, ghost ending: Ending)
    returns (codes: seq<int>, args: seq<Option<string>>, optind: nat)
    requires argv.Length > 0 && argv[1..] == Line(items, ending) && ItemsOk(cfg, items) && EndingOk(cfg, ending)
    requires At(cfg.optstring, 0) !in {'-', '+'}
    requires EOF_CHAR !in cfg.optstring && forall o :: o in cfg.longopts ==> o.val != EOF
    modifies argv
    ensures var events := AllReported(cfg, items, ending);
            && |codes| == |args| == |events|
            && forall k :: 0 <= k < |codes| ==> codes[k] == events[k].code && args[k] == events[k].arg
    ensures argv[..] == [old(argv[0])] + OptionElements(items, ending) + Operands(items, ending)
    ensures optind == 1 + |OptionElements(items, ending)|
  {
    LineParses(cfg, items, ending);
    hide Parse, AllReported, OptionElements, Operands, Line, ItemsOk, EndingOk;
    var scanner := new Scanner();
    codes, args := scanner.Run(argv, cfg);
    optind := scanner.optind;
  }
}
