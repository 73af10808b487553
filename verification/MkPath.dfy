/**
 Creating a path with all its levels: ftp_mkpath and ftp_path_part_of of src/ftp/ftp.c.

 The server is the set of its directories as names from the root; it makes a directory whose
 parent exists and which does not exist itself, unless it refuses to.
 */
module MkPath {
  import opened CString
  import opened Sequences
  import P = PathCollapse
  import L = CommandLine

  /** The names a path stands for. */
  function Names(path: string): seq<string> {
    if path == [] then [] else P.Resolve([], P.Split(path[1..]))
  }

  /** path_collapse of an absolute path. */
  function Collapsed(path: string): string
    requires P.IsAbsolute(path)
  {
    P.Text(P.Canon(P.Split(path[1..])))
  }

  predicate PlainNames(names: seq<string>) {
    forall k :: 0 <= k < |names| ==> P.IsName(names[k]) && '/' !in names[k]
  }

  predicate StraightNames(names: seq<string>) {
    forall k :: 0 <= k < |names| ==> Straight(names[k])
  }

  /** ftp_path_part_of. */
  predicate PartOf(a: string, b: string) {
    a <= b && (|a| == |b| || b[|a|] == '/')
  }

  // ----- names and texts

  /** The text of some names, and perhaps a slash at the end. */
  predicate Spells(text: string, names: seq<string>) {
    text == P.Text(names) + "/" || (names != [] && text == P.Text(names))
  }

  /** A collapsed path spells its names. */
  lemma CollapsedSpells(path: string)
    requires P.IsAbsolute(path)
    ensures Spells(Collapsed(path), Names(path)) && PlainNames(Names(path)) && P.IsAbsolute(Collapsed(path))
    ensures Names(Collapsed(path)) == Names(path) && Collapsed(Collapsed(path)) == Collapsed(path)
  {
    var ps := P.Split(path[1..]);
    var names := Names(path);
    P.ResolvedNames([], ps);
    P.CollapsedPath(path);
    CanonNames(ps);
    CanonSpells(ps);
    P.TextNonEmpty(P.Canon(ps));
    hide P.Canon, P.Resolve, P.Text, P.Split, Spells, PlainNames;
  }

  lemma CanonSpells(ps: seq<string>)
    requires ps != []
    ensures Spells(P.Text(P.Canon(ps)), P.Resolve([], ps))
  {
    var names := P.Resolve([], ps);
    P.TextAppend(names, [""]);
    P.TextCons("", []);
    assert [""] + [] == [""] && "/" + "" + "" == "/" && "" + "/" == "/";
    hide P.Resolve;
    if names == [] {
      assert P.Text(names) == "";
    } else {
      assert names + [] == names;
    }
  }

  /** Resolving the pieces of a collapsed path changes nothing. */
  lemma CanonNames(ps: seq<string>)
    requires ps != [] && forall k :: 0 <= k < |ps| ==> '/' !in ps[k]
    ensures P.Resolve([], P.Canon(ps)) == P.Resolve([], ps)
  {
    var names := P.Resolve([], ps);
    P.ResolvedNames([], ps);
    P.ResolveNames([], names);
    P.ResolveNothing();
    P.ResolveAppend([], names, [""]);
    AtNothing(names);
    hide P.Resolve;
    assert [] + names == names && names + [] == names;
  }

  lemma AtNothing(stack: seq<string>)
    ensures P.Resolve(stack, [""]) == stack
  {
    assert [""][1..] == [];
  }

  lemma {:induction false} PiecesOf(s: string)
    requires Straight(s)
    ensures StraightNames(P.Split(s))
  {
    if s != "" {
      PiecesOf(s[1..]);
    }
  }

  lemma {:induction false} ResolvedStraight(stack: seq<string>, ps: seq<string>)
    requires StraightNames(stack) && StraightNames(ps)
    ensures StraightNames(P.Resolve(stack, ps))
    decreases |ps|
  {
    if ps != [] {
      var next := if ps[0] == "" || ps[0] == "." then stack
                  else if ps[0] == ".." then (if stack == [] then [] else stack[..|stack| - 1])
                  else stack + [ps[0]];
      ResolvedStraight(next, ps[1..]);
    }
  }

  /** A prefix of the text that ends at a slash, or the whole of it, stands for the front of the names. */
  lemma PartOfSpelled(a: string, b: seq<string>, text: string)
    requires P.IsAbsolute(a) && PlainNames(b) && Spells(text, b) && PartOf(a, text)
    ensures Names(a) <= b
  {
    var t := text[|a|..];
    assert text == a + t;
    var ps := P.Split(a[1..]);
    SplitPart(a, t);
    SplitSpelled(text, b);
    P.ResolvedNames([], ps);
    FrontOfNames(ps, P.Split(text[1..]), b);
  }

  lemma SplitPart(a: string, t: string)
    requires P.IsAbsolute(a) && (t == "" || t[0] == '/')
    ensures P.Split(a[1..]) <= P.Split((a + t)[1..])
  {
    var ps := P.Split(a[1..]);
    P.SplitText(a[1..]);
    assert "/" + a[1..] == a;
    if t == "" {
      assert a + t == a;
    } else {
      var u := P.Split(t[1..]);
      P.SplitText(t[1..]);
      assert "/" + t[1..] == t;
      P.TextAppend(ps, u);
      P.SplitOfText(ps + u);
    }
  }

  lemma SplitSpelled(text: string, b: seq<string>)
    requires PlainNames(b) && Spells(text, b)
    ensures P.Split(text[1..]) == b || P.Split(text[1..]) == b + [""]
  {
    if text == P.Text(b) + "/" {
      P.TextAppend(b, [""]);
      P.TextCons("", []);
      assert [""] + [] == [""] && "/" + "" + "" == "/";
      P.SplitOfText(b + [""]);
    } else {
      P.SplitOfText(b);
    }
  }

  lemma FrontOfNames(ps: seq<string>, all: seq<string>, b: seq<string>)
    requires ps <= all && PlainNames(b) && (all == b || all == b + [""])
    ensures P.Resolve([], ps) <= b
  {
    if |ps| <= |b| {
      assert ps == b[..|ps|];
      P.ResolveNames([], ps);
      assert [] + ps == ps;
    } else {
      assert ps == b + [""];
      P.ResolveNames([], b);
      P.ResolveAppend([], b, [""]);
      assert [] + b == b;
      AtNothing(b);
    }
  }

  /** The text of a level is found in a path exactly if its names start the names of the path. */
  lemma LevelPartOf(a: seq<string>, b: seq<string>, text: string)
    requires a != [] && PlainNames(a) && PlainNames(b) && Spells(text, b)
    ensures PartOf(P.Text(a), text) <==> a <= b
  {
    if a <= b {
      var rest := b[|a|..];
      assert b == a + rest;
      P.TextAppend(a, rest);
      P.TextNonEmpty(rest);
      var t := if text == P.Text(b) + "/" then P.Text(rest) + "/" else P.Text(rest);
      Associate(P.Text(a), P.Text(rest), "/");
      assert text == P.Text(a) + t;
    }
    if PartOf(P.Text(a), text) {
      P.TextNonEmpty(a);
      LevelNames(a);
      PartOfSpelled(P.Text(a), b, text);
    }
  }

  lemma LevelNames(a: seq<string>)
    requires a != [] && PlainNames(a)
    ensures Names(P.Text(a)) == a && P.IsAbsolute(P.Text(a))
  {
    P.TextNonEmpty(a);
    P.SplitOfText(a);
    P.ResolveNames([], a);
    assert [] + a == a;
  }

  // ----- cutting a path at its slashes

  lemma {:induction false} StraightTokenEnd(n: string, rest: string)
    requires Straight(n) && '/' !in n && (rest == [] || rest[0] == '/')
    ensures L.TokenEnd(n + rest, NUL, '/') == |n|
  {
    if n == [] {
      assert n + rest == rest;
    } else {
      StraightTokenEnd(n[1..], rest);
      assert (n + rest)[1..] == n[1..] + rest;
    }
  }

  lemma FirstName(n: string, rest: string)
    requires Straight(n) && '/' !in n && n != [] && (rest == [] || rest[0] == '/')
    ensures L.Separated("/" + n + rest, '/') == Some((n, if rest == [] then [] else rest[1..]))
  {
    StraightTokenEnd(n, rest);
    var text := "/" + n + rest;
    assert text[1..] == n + rest;
    assert L.Leading(text[1..], '/') == 0 && L.Leading(text, '/') == 1;
    hide L.TokenEnd, L.Leading;
    L.Found(text, 1, 1 + |n|, '/');
    assert text[1..1 + |n|] == n && text[1 + |n|..] == rest;
  }

  /** The tokens of a collapsed path are its names. */
  lemma {:induction false} TokensAreNames(names: seq<string>, tail: string)
    requires PlainNames(names) && StraightNames(names) && (tail == "" || tail == "/")
    ensures L.Split(P.Text(names) + tail, '/') == names
    decreases |names|
  {
    SlashOnly();
    if names == [] {
      assert P.Text(names) + tail == tail;
    } else {
      var n, rest := names[0], P.Text(names[1..]) + tail;
      TokensAreNames(names[1..], tail);
      P.TextNonEmpty(names[1..]);
      TextFirst(names, tail);
      hide L.Split, P.Text;
      OneName(n, rest);
    }
  }

  lemma OneName(n: string, rest: string)
    requires Straight(n) && '/' !in n && n != [] && (rest == [] || rest[0] == '/')
    ensures L.Split("/" + n + rest, '/') == [n] + L.Split(rest, '/')
  {
    FirstName(n, rest);
    hide L.Separated;
    if rest != [] {
      L.SkipDelimiter(rest[1..], '/');
      assert ['/'] + rest[1..] == rest;
    }
  }

  lemma TextFirst(names: seq<string>, tail: string)
    requires names != []
    ensures P.Text(names) + tail == "/" + names[0] + (P.Text(names[1..]) + tail)
  {
    Associate("/" + names[0], P.Text(names[1..]), tail);
  }

  lemma SlashOnly()
    ensures L.Split("/", '/') == [] && L.Split("", '/') == []
  {
    assert L.Leading("/", '/') == 1;
  }

  lemma {:induction false} StraightUnquoted(s: string)
    requires Straight(s)
    ensures L.Dequoted(s, NUL) == s
  {
    if s != [] {
      StraightUnquoted(s[1..]);
      assert s == [s[0]] + s[1..];
    }
  }

  lemma {:induction false} StraightText(names: seq<string>)
    requires StraightNames(names)
    ensures Straight(P.Text(names))
  {
    if names != [] {
      StraightText(names[1..]);
      hide Straight;
      StraightJoin("/", names[0]);
      StraightJoin("/" + names[0], P.Text(names[1..]));
    }
  }

  lemma StraightJoin(a: string, b: string)
    requires (a == "/" || Straight(a)) && (b == "/" || Straight(b))
    ensures Straight(a + b)
  {
  }

  // ----- the server and the client

  /** Every level above a directory exists. */
  predicate Closed(dirs: set<seq<string>>) {
    [] in dirs && forall d, k | d in dirs && 0 <= k <= |d| :: d[..k] in dirs
  }

  function Levels(names: seq<string>): set<seq<string>> {
    set k | 0 <= k <= |names| :: names[..k]
  }

  /** The level exists, or the server would make it. */
  predicate Passable(level: seq<string>, dirs: set<seq<string>>, refused: set<seq<string>>) {
    level in dirs || level !in refused
  }

  /** How many of the first k levels exist when all have been asked for in turn. */
  function Depth(names: seq<string>, k: nat, dirs: set<seq<string>>, refused: set<seq<string>>): (d: nat)
    requires k <= |names|
    ensures d <= k && forall j :: 0 < j <= d ==> Passable(names[..j], dirs, refused)
    ensures d < k ==> !Passable(names[..d + 1], dirs, refused)
  {
    if k == 0 then 0
    else
      var d := Depth(names, k - 1, dirs, refused);
      if d == k - 1 && Passable(names[..k], dirs, refused) then k else d
  }

  /** The state when k levels have been asked for. */
  predicate Asked(names: seq<string>, k: nat, before: set<seq<string>>, refused: set<seq<string>>,
                  dirs: set<seq<string>>, created: bool)
  {
    && k <= |names| && dirs == before + Levels(names[..Depth(names, k, before, refused)])
    && (created <==> names[..k] !in before && Depth(names, k, before, refused) == k)
  }

  /** The levels that exist afterwards. */
  function Made(names: seq<string>, dirs: set<seq<string>>, refused: set<seq<string>>): set<seq<string>> {
    Levels(names[..Depth(names, |names|, dirs, refused)])
  }

  class Client {
    var dirs: set<seq<string>>
    const refused: set<seq<string>>
    var curdir: string
    var lastMkpath: Option<string>

    /** The current directory and the path made last exist and are collapsed paths. */
    ghost predicate Valid()
      reads this
    {
      && Closed(dirs)
      && Known(curdir, dirs)
      && (lastMkpath.Some? ==> Known(lastMkpath.value, dirs))
    }

    constructor (curdir: string, dirs: set<seq<string>>, refused: set<seq<string>>)
      requires Closed(dirs) && Known(curdir, dirs)
      ensures Valid() && this.curdir == curdir && this.dirs == dirs && this.refused == refused && lastMkpath == None
    {
      this.dirs, this.refused, this.curdir, lastMkpath := dirs, refused, curdir, None;
    }

    /** MKD; true when the server has made the directory. */
    method MkDir(path: string) returns (complete: bool)
      requires P.IsAbsolute(path)
      modifies this`dirs
      ensures var n := Names(path);
              && (complete <==> n != [] && n !in old(dirs) && n[..|n| - 1] in old(dirs) && n !in refused)
              && dirs == if complete then old(dirs) + {n} else old(dirs)
    {
      var n := Names(path);
      complete := n != [] && n !in dirs && n[..|n| - 1] in dirs && n !in refused;
      if complete {
        dirs := dirs + {n};
      }
    }

    /** Part of the path made last, or of the current directory. */
    predicate IsPart(path: string)
      reads this
    {
      (lastMkpath.Some? && PartOf(path, lastMkpath.value)) || PartOf(path, curdir)
    }

    /** ftp_mkpath for an absolute path; true when the path was missing and has been made.  That is not the
        same as "a directory was made" exactly when some level was made and a later one refused. */
    method MakePath(path: string) returns (created: bool)
      requires Valid() && P.IsAbsolute(path) && NoNul(path) && Straight(path)
      modifies this`dirs, this`lastMkpath
      ensures dirs == old(dirs) + Made(Names(path), old(dirs), refused) && Closed(dirs) && Known(curdir, dirs)
      ensures created <==> Names(path) !in old(dirs) && Names(path) in dirs
      ensures (created <==> dirs != old(dirs)) <==> dirs == old(dirs) || Names(path) in dirs
      ensures Names(path) in dirs <==> Depth(Names(path), |Names(path)|, old(dirs), refused) == |Names(path)|
      ensures lastMkpath ==
                if PartOf(path, curdir) || (old(lastMkpath).Some? && PartOf(path, old(lastMkpath).value)) then
                  old(lastMkpath)
                else Some(LastPath(path, curdir))
      ensures Valid() <==>
                || old(IsPart(path))
                || (if |path| < 3 then Names(curdir) + Names(path) in dirs else Names(path) in dirs)
    {
      created := false;
      ghost var names, before := Names(path), dirs;
      hide Names, Collapsed, Straight, PlainNames, Levels, Closed, Known, PartOf, L.Split, L.Dequoted, Depth, LastPath;
      if IsPart(path) {
        PartExists(path, lastMkpath, curdir, dirs);
        LevelsExist(names, dirs, refused);
        KnownKept(lastMkpath, curdir, before, dirs);
        return;
      }
      var p := Collapse(path);
      TokensOfPath(path);
      p := L.DequoteFilename(p);
      created := MakeLevels(path, p);
      KnownKept(lastMkpath, curdir, before, dirs);
      LastPathKnown(path, curdir, dirs);
      ShortPath(path, curdir, dirs);
      LastPathIs(path, curdir);
      MadeIs(names, before, refused);
      if |path| < 3 {
        lastMkpath := Some(Collapsed(curdir + "/" + path));
      } else {
        lastMkpath := Some(Collapsed(path));
      }
    }

    /** The loop of ftp_mkpath. */
    method MakeLevels(ghost path: string, p: string) returns (created: bool)
      requires Valid() && P.IsAbsolute(path) && Straight(path)
      requires NoNul(p) && L.Split(p, '/') == Names(path) && PlainNames(Names(path))
      modifies this`dirs
      ensures dirs == old(dirs) + Made(Names(path), old(dirs), refused) && Closed(dirs)
      ensures created <==>
                Names(path) !in old(dirs) && Depth(Names(path), |Names(path)|, old(dirs), refused) == |Names(path)|
    {
      ghost var names, before, k := Names(path), dirs, 0;
      created := false;
      var e := "";
      var c := new L.Splitter(p);
      hide Levels, Depth, Asked, Closed, Known, L.Separated, Visible, P.Text, Names, L.Cut, Straight, L.Split,
           PlainNames;
      NothingAsked(names, dirs, refused);
      while true
        invariant c.Valid() && fresh(c.buf) && k <= |names| && L.Split(c.Text(), '/') == names[k..]
        invariant e == P.Text(names[..k]) && lastMkpath == old(lastMkpath)
        invariant Asked(names, k, before, refused, dirs, created)
        decreases |names| - k
      {
        NextName(names, k, c.Text());
        var at := c.StrQSep('/');
        if at == None {
          break;
        }
        var tmp := c.StrDup(at.value);
        LevelText(names, k);
        e := e + "/" + tmp;
        created := MakeLevel(e, created, names, k, before);
        k := k + 1;
      }
      AllAsked(names, before, refused, dirs, created);
    }

    /** One level: nothing for what is known to exist, MKD for the rest. */
    method MakeLevel(e: string, was: bool, ghost names: seq<string>, ghost k: nat, ghost before: set<seq<string>>)
        returns (created: bool)
      requires k < |names| && PlainNames(names) && e == P.Text(names[..k + 1])
      requires Closed(before) && Asked(names, k, before, refused, dirs, was)
      requires Known(curdir, before) && (lastMkpath.Some? ==> Known(lastMkpath.value, before))
      modifies this`dirs
      ensures Asked(names, k + 1, before, refused, dirs, created)
    {
      hide Levels, Closed, Known, P.Text, Names;
      ghost var level := names[..k + 1];
      OneLevelMore(names, k, before, dirs, refused);
      LevelNames(level);
      created := was;
      if IsPart(e) {
        PartExists(e, lastMkpath, curdir, before);
      } else {
        created := MkDir(e);
      }
    }

    /** path_collapse. */
    method Collapse(path: string) returns (p: string)
      requires P.IsAbsolute(path) && NoNul(path) && Straight(path)
      ensures p == Collapsed(path) && NoNul(p)
    {
      var b := new P.PathBuffer(path, |path| + 1);
      b.Collapse();
      var n := b.StrLen(0);
      p := b.data[..n];
    }
  }

  ghost predicate Known(text: string, dirs: set<seq<string>>) {
    P.IsAbsolute(text) && Spells(text, Names(text)) && PlainNames(Names(text)) && Names(text) in dirs
  }

  /** The tokens mkpath goes through are the names of the path. */
  lemma TokensOfPath(path: string)
    requires P.IsAbsolute(path) && Straight(path)
    ensures L.Dequoted(Collapsed(path), NUL) == Collapsed(path)
    ensures L.Split(Collapsed(path), '/') == Names(path) && PlainNames(Names(path))
  {
    CollapsedSpells(path);
    assert Straight(path[1..]);
    PiecesOf(path[1..]);
    ResolvedStraight([], P.Split(path[1..]));
    hide L.Dequoted, L.Split, P.Text, Collapsed, Spells;
    SpelledTokens(Collapsed(path), Names(path));
  }

  lemma SpelledTokens(text: string, names: seq<string>)
    requires Spells(text, names) && PlainNames(names) && StraightNames(names)
    ensures L.Dequoted(text, NUL) == text && L.Split(text, '/') == names
  {
    TokensAreNames(names, "/");
    TokensAreNames(names, "");
    StraightText(names);
    StraightJoin(P.Text(names), "/");
    assert P.Text(names) + "" == P.Text(names);
    hide L.Dequoted, L.Split, P.Text, Straight;
    StraightUnquoted(text);
  }

  lemma PartExists(e: string, last: Option<string>, cur: string, dirs: set<seq<string>>)
    requires Closed(dirs) && Known(cur, dirs) && (last.Some? ==> Known(last.value, dirs)) && P.IsAbsolute(e)
    requires (last.Some? && PartOf(e, last.value)) || PartOf(e, cur)
    ensures Names(e) in dirs
  {
    var b := if last.Some? && PartOf(e, last.value) then last.value else cur;
    PartOfSpelled(e, Names(b), b);
    assert Names(e) == Names(b)[..|Names(e)|];
  }

  lemma {:induction false} DepthExists(names: seq<string>, k: nat, dirs: set<seq<string>>, refused: set<seq<string>>)
    requires k <= |names| && Closed(dirs) && names[..k] in dirs
    ensures Depth(names, k, dirs, refused) == k
    decreases k
  {
    if k > 0 {
      assert names[..k][..k - 1] == names[..k - 1];
      DepthExists(names, k - 1, dirs, refused);
    }
  }

  lemma LevelsExist(names: seq<string>, dirs: set<seq<string>>, refused: set<seq<string>>)
    requires Closed(dirs) && names in dirs
    ensures dirs + Made(names, dirs, refused) == dirs && Depth(names, |names|, dirs, refused) == |names|
  {
    assert names[..|names|] == names;
    DepthExists(names, |names|, dirs, refused);
    hide Depth;
  }

  /** The whole path exists afterwards exactly if no level of it was refused. */
  lemma MadeIs(names: seq<string>, dirs: set<seq<string>>, refused: set<seq<string>>)
    requires Closed(dirs)
    ensures names in dirs + Made(names, dirs, refused) <==> Depth(names, |names|, dirs, refused) == |names|
    ensures Depth(names, |names|, dirs, refused) < |names| ==> names !in dirs
    ensures names in dirs ==> dirs + Made(names, dirs, refused) == dirs
  {
    var d := Depth(names, |names|, dirs, refused);
    assert names[..|names|] == names;
    if names in dirs {
      LevelsExist(names, dirs, refused);
    }
    if d < |names| {
      LevelsShorter(names[..d], names);
    } else {
      LevelsClosed(names, dirs);
    }
    hide Depth, Levels, Closed;
  }

  lemma LevelsShorter(a: seq<string>, b: seq<string>)
    requires |a| < |b|
    ensures b !in Levels(a)
  {
  }

  lemma LevelsClosed(names: seq<string>, dirs: set<seq<string>>)
    requires Closed(dirs)
    ensures Closed(dirs + Levels(names)) && names in dirs + Levels(names)
  {
    var all := dirs + Levels(names);
    forall d, k | d in all && 0 <= k <= |d| ensures d[..k] in all {
      if d !in dirs {
        var j :| 0 <= j <= |names| && d == names[..j];
        assert d[..k] == names[..k];
      }
    }
    assert names[..|names|] == names;
  }

  lemma KnownKept(last: Option<string>, cur: string, before: set<seq<string>>, dirs: set<seq<string>>)
    requires before <= dirs && Known(cur, before) && (last.Some? ==> Known(last.value, before))
    ensures Known(cur, dirs) && (last.Some? ==> Known(last.value, dirs)) && P.IsAbsolute(cur)
  {
  }

  lemma LastPathKnown(path: string, curdir: string, dirs: set<seq<string>>)
    requires P.IsAbsolute(path) && P.IsAbsolute(curdir)
    ensures Known(LastPath(path, curdir), dirs) <==> Names(LastPath(path, curdir)) in dirs
    ensures |path| >= 3 ==> Names(LastPath(path, curdir)) == Names(path)
  {
    CollapsedSpells(if |path| < 3 then curdir + "/" + path else path);
  }

  lemma LastPathIs(path: string, curdir: string)
    requires P.IsAbsolute(path) && P.IsAbsolute(curdir)
    ensures LastPath(path, curdir) == if |path| < 3 then Collapsed(curdir + "/" + path) else Collapsed(path)
  {
  }

  lemma NoLevels(names: seq<string>, dirs: set<seq<string>>)
    requires Closed(dirs)
    ensures dirs + Levels(names[..0]) == dirs && names[..0] in dirs && P.Text(names[..0]) == "" && names[0..] == names
  {
    forall d | d in Levels(names[..0]) ensures d == [] {
      var j :| 0 <= j <= 0 && d == names[..0][..j];
    }
  }

  lemma NothingAsked(names: seq<string>, dirs: set<seq<string>>, refused: set<seq<string>>)
    requires Closed(dirs)
    ensures Asked(names, 0, dirs, refused, dirs, false) && P.Text(names[..0]) == "" && names[0..] == names
  {
    hide Levels, Closed;
    NoLevels(names, dirs);
  }

  lemma AllAsked(names: seq<string>, before: set<seq<string>>, refused: set<seq<string>>, dirs: set<seq<string>>,
      created: bool)
    requires Closed(before) && Asked(names, |names|, before, refused, dirs, created)
    ensures dirs == before + Made(names, before, refused) && Closed(dirs)
    ensures created <==> names !in before && Depth(names, |names|, before, refused) == |names|
  {
    hide Levels, Closed, Depth;
    assert names[..|names|] == names;
    LevelsClosed(names[..Depth(names, |names|, before, refused)], before);
  }

  lemma LevelText(names: seq<string>, k: nat)
    requires k < |names|
    ensures P.Text(names[..k + 1]) == P.Text(names[..k]) + "/" + names[k]
  {
    assert names[..k + 1] == names[..k] + [names[k]];
    P.TextAppend(names[..k], [names[k]]);
    P.TextCons(names[k], []);
    assert [names[k]] + [] == [names[k]] && "/" + names[k] + "" == "/" + names[k];
    Associate(P.Text(names[..k]), "/", names[k]);
  }

  lemma LevelsMore(names: seq<string>, k: nat)
    requires k < |names|
    ensures Levels(names[..k + 1]) == Levels(names[..k]) + {names[..k + 1]}
    ensures names[..k] in Levels(names[..k])
  {
    var a, b := names[..k], names[..k + 1];
    assert a[..k] == a && b[..k + 1] == b;
    forall d | d in Levels(b) ensures d in Levels(a) || d == b {
      var j :| 0 <= j <= k + 1 && d == b[..j];
      if j <= k {
        assert d == a[..j];
      }
    }
    forall d | d in Levels(a) ensures d in Levels(b) {
      var j :| 0 <= j <= k && d == a[..j];
      assert d == b[..j];
    }
  }

  /** The next level: whether it can be missing, and what the server has afterwards. */
  lemma OneLevelMore(names: seq<string>, k: nat, before: set<seq<string>>, dirs: set<seq<string>>,
      refused: set<seq<string>>)
    requires k < |names| && Closed(before) && dirs == before + Levels(names[..Depth(names, k, before, refused)])
    ensures var level, d, n := names[..k + 1], Depth(names, k, before, refused), Depth(names, k + 1, before, refused);
            && level[..k] == names[..k] && (level in dirs <==> level in before) && (names[..k] in dirs <==> d == k)
            && (level in before ==> d == k && names[..k] in before && n == k + 1)
            && n == (if d == k && Passable(level, before, refused) then k + 1 else d)
            && before + Levels(names[..n]) == if n == k + 1 then dirs + {level} else dirs
  {
    var level, d := names[..k + 1], Depth(names, k, before, refused);
    assert level[..k] == names[..k];
    LevelsMore(names, k);
    LevelsShorter(names[..d], level);
    if level in before || names[..k] in before {
      DepthExists(names, k, before, refused);
    }
    if d < k {
      LevelsShorter(names[..d], names[..k]);
    }
    hide Levels, Closed;
  }

  /** The next token of what is left is the next name. */
  lemma NextName(names: seq<string>, k: nat, text: string)
    requires k <= |names| && L.Split(text, '/') == names[k..]
    ensures match L.Separated(text, '/')
            case None => k == |names|
            case Some((token, rest)) => k < |names| && token == names[k] && L.Split(rest, '/') == names[k + 1..]
  {
    hide L.Separated;
    assert k < |names| ==> names[k..][0] == names[k] && names[k..][1..] == names[k + 1..];
  }

  /** What ftp_mkpath remembers: a path of fewer than three characters is taken for a relative one. */
  function LastPath(path: string, curdir: string): string
    requires P.IsAbsolute(path) && P.IsAbsolute(curdir)
  {
    Collapsed(if |path| < 3 then curdir + "/" + path else path)
  }

  /** A short path is remembered below the current directory. */
  lemma ShortPath(path: string, curdir: string, dirs: set<seq<string>>)
    requires P.IsAbsolute(path) && P.IsAbsolute(curdir)
    ensures |path| < 3 ==> Names(LastPath(path, curdir)) == Names(curdir) + Names(path)
    ensures |path| < 3 ==> (Known(LastPath(path, curdir), dirs) <==> Names(curdir) + Names(path) in dirs)
  {
    if |path| < 3 {
      var a, b := P.Split(curdir[1..]), P.Split(path[1..]);
      SplitBoth(curdir, path);
      P.ResolveAppend([], a, [""] + b);
      var names := Names(curdir);
      assert P.Resolve(names, [""] + b) == P.Resolve(names, b) by {
        assert ([""] + b)[1..] == b;
      }
      ShortPieces(path[1..], names);
      CollapsedSpells(curdir + "/" + path);
    }
  }

  lemma SplitBoth(curdir: string, path: string)
    requires P.IsAbsolute(path) && P.IsAbsolute(curdir)
    ensures P.Split((curdir + "/" + path)[1..]) == P.Split(curdir[1..]) + ([""] + P.Split(path[1..]))
  {
    var a, b := P.Split(curdir[1..]), P.Split(path[1..]);
    P.SplitText(curdir[1..]);
    P.SplitText(path[1..]);
    assert "/" + curdir[1..] == curdir && "/" + path[1..] == path;
    P.TextCons("", b);
    P.TextAppend(a, [""] + b);
    assert "/" + "" + path == "/" + path;
    Associate(curdir, "/", path);
    P.SplitOfText(a + ([""] + b));
  }

  lemma ShortPieces(s: string, names: seq<string>)
    requires |s| <= 1
    ensures P.Resolve(names, P.Split(s)) == names + P.Resolve([], P.Split(s))
  {
    var ps := P.Split(s);
    if s == "" {
      assert ps == [""] && ps[1..] == [];
    } else {
      assert s[1..] == "" && P.Split("") == [""];
      if s[0] == '/' {
        assert ps == ["", ""] && ps[1..] == [""] && [""][1..] == [];
      } else {
        assert ps == [[s[0]]] by {
          assert [s[0]] + "" == [s[0]] && [""][1..] == [];
        }
        assert ps[1..] == [] && [] + [[s[0]]] == [[s[0]]];
      }
    }
  }

  /** A server that makes /a and refuses /a/b: a directory was made, and the path is still missing. */
  lemma SecondLevelRefused()
    ensures var dirs: set<seq<string>> := {[]};
            var names, refused := ["a", "b"], {["a", "b"]};
            Closed(dirs) && Depth(names, 2, dirs, refused) == 1 && dirs + Made(names, dirs, refused) == {[], ["a"]}
  {
    var dirs: set<seq<string>> := {[]};
    var names, refused := ["a", "b"], {["a", "b"]};
    assert names[..1] == ["a"] && names[..2] == ["a", "b"] && |names[..1]| == 1;
    assert Passable(names[..1], dirs, refused) && !Passable(names[..2], dirs, refused);
    assert Depth(names, 0, dirs, refused) == 0 && Depth(names, 1, dirs, refused) == 1;
    LevelsMore(names, 0);
    NoLevels(names, dirs);
  }

  /** After making /a from /h the client takes /h/a for a directory that exists. */
  lemma ShortPathMistaken()
    ensures var dirs: set<seq<string>> := {[], ["h"], ["a"]};
            Closed(dirs) && Known("/h", dirs) && Names("/a") in dirs && !Known(LastPath("/a", "/h"), dirs)
  {
    var dirs: set<seq<string>> := {[], ["h"], ["a"]};
    LevelNames(["h"]);
    LevelNames(["a"]);
    P.TextCons("h", []);
    P.TextCons("a", []);
    assert ["h"] + [] == ["h"] && ["a"] + [] == ["a"];
    assert P.Text(["h"]) == "/h" && P.Text(["a"]) == "/a";
    forall d, k | d in dirs && 0 <= k <= |d| ensures d[..k] in dirs {
      assert d[..0] == [] && d[..|d|] == d;
    }
    ShortPath("/a", "/h", dirs);
    assert |["h"] + ["a"]| == 2;
  }
}
