/**
 The cache of remote directories and its deferred invalidation (src/ftp/cache.c, and the
 commands of src/ftp/ftp.c that read or change the server).

 Paths are canonical: lists of names below the root.  Server holds the listings the FTP
 server would send.  Commands mark directories, and the end of a command flushes them.
 */
module DirCache {
  import opened CString

  type Path = seq<string>

  datatype Entry = Entry(isDir: bool, info: int)

  type Listing = map<string, Entry>

  type Server = map<Path, Listing>

  /** A path as the user gives it: absolute, or relative to the current directory. */
  datatype Arg = Arg(absolute: bool, names: seq<string>)

  datatype RDirectory = RDirectory(path: Path, files: Listing)

  datatype State = State(server: Server, curdir: Path, cache: seq<RDirectory>, marked: seq<Path>)

  function Parent(p: Path): Path
    requires p != []
  {
    p[..|p| - 1]
  }

  function Last(p: Path): string
    requires p != []
  {
    p[|p| - 1]
  }

  function Absolute(curdir: Path, arg: Arg): Path {
    if arg.absolute then arg.names else curdir + arg.names
  }

  // ----- the server

  /** Directory p is the root, or a directory entry of its parent. */
  predicate Attached(s: Server, p: Path) {
    p in s && p != [] ==> IsDir(s, p)
  }

  ghost predicate IsTree(s: Server) {
    [] in s && forall p :: Attached(s, p)
  }

  predicate HasEntry(s: Server, p: Path)
    requires p != []
  {
    Parent(p) in s && Last(p) in s[Parent(p)]
  }

  function WithEntry(s: Server, p: Path, e: Entry): Server
    requires p != [] && Parent(p) in s
  {
    s[Parent(p) := s[Parent(p)][Last(p) := e]]
  }

  function WithoutEntry(s: Server, p: Path): Server
    requires p != [] && Parent(p) in s
  {
    s[Parent(p) := s[Parent(p)] - {Last(p)}]
  }

  datatype Kind = MakeDir | RemoveDir | Delete | ChMod | Store

  /** A command that changes the server. */
  datatype Command = One(kind: Kind, arg: Arg, info: int) | RenameFile(from: Arg, to: Arg)

  predicate IsDir(s: Server, p: Path)
    requires p != []
  {
    HasEntry(s, p) && s[Parent(p)][Last(p)].isDir
  }

  predicate Accepts(s: Server, curdir: Path, c: Command) {
    match c
    case One(kind, arg, _) =>
      var p := Absolute(curdir, arg);
      p != [] && Parent(p) in s &&
      (match kind
       case MakeDir => !HasEntry(s, p) && p !in s
       case RemoveDir => HasEntry(s, p) && p in s && s[p] == map[]
       case Delete => HasEntry(s, p) && !IsDir(s, p)
       case ChMod => HasEntry(s, p)
       case Store => !IsDir(s, p))
    case RenameFile(from, to) =>
      var p, q := Absolute(curdir, from), Absolute(curdir, to);
      p != [] && HasEntry(s, p) && !IsDir(s, p) && q != [] && Parent(q) in s && !IsDir(s, q)
  }

  function Apply(s: Server, curdir: Path, c: Command): Server
    requires Accepts(s, curdir, c)
  {
    match c
    case One(kind, arg, info) =>
      var p := Absolute(curdir, arg);
      (match kind
       case MakeDir => WithEntry(s, p, Entry(true, info))[p := map[]]
       case RemoveDir => WithoutEntry(s, p) - {p}
       case Delete => WithoutEntry(s, p)
       case ChMod => WithEntry(s, p, s[Parent(p)][Last(p)].(info := info))
       case Store => WithEntry(s, p, Entry(false, info)))
    case RenameFile(from, to) =>
      var p, q := Absolute(curdir, from), Absolute(curdir, to);
      WithEntry(WithoutEntry(s, p), q, s[Parent(p)][Last(p)])
  }

  // ----- marks and flushes

  function Mark(marked: seq<Path>, p: Path): seq<Path> {
    if p in marked then marked else marked + [p]
  }

  /** The directory part of an argument, as base_dir_xptr cuts it: none for a single relative name. */
  function BaseDir(arg: Arg): (r: (bool, Arg))
  {
    if arg.names == [] then (false, arg)
    else if !arg.absolute && |arg.names| == 1 then (false, arg)
    else (true, Arg(arg.absolute, arg.names[..|arg.names| - 1]))
  }

  function MarkFor(curdir: Path, marked: seq<Path>, arg: Arg): seq<Path> {
    var (cut, dir) := BaseDir(arg);
    Mark(marked, if cut then Absolute(curdir, dir) else curdir)
  }

  /** What ftp_mkdir, ftp_rmdir, ftp_unlink, ftp_chmod, ftp_rename and an upload mark. */
  function Marks(curdir: Path, marked: seq<Path>, c: Command): seq<Path> {
    match c
    case One(kind, arg, _) =>
      MarkFor(curdir, if kind == RemoveDir then Mark(marked, Absolute(curdir, arg)) else marked, arg)
    case RenameFile(from, to) => MarkFor(curdir, MarkFor(curdir, marked, from), to)
  }

  /** The first cached directory with this path. */
  function FindDir(cache: seq<RDirectory>, p: Path): (k: nat)
    ensures k <= |cache| && (k < |cache| ==> cache[k].path == p)
    ensures forall j :: 0 <= j < k ==> cache[j].path != p
  {
    if cache == [] || cache[0].path == p then 0 else 1 + FindDir(cache[1..], p)
  }

  function DropFirst(cache: seq<RDirectory>, p: Path): seq<RDirectory> {
    var k := FindDir(cache, p);
    if k < |cache| then cache[..k] + cache[k + 1..] else cache
  }

  function FlushAll(cache: seq<RDirectory>, marked: seq<Path>): seq<RDirectory> {
    if marked == [] then cache else FlushAll(DropFirst(cache, marked[0]), marked[1..])
  }

  function Flush(st: State): State {
    st.(cache := FlushAll(st.cache, st.marked), marked := [])
  }

  function Execute(st: State, c: Command): State {
    if Accepts(st.server, st.curdir, c) then
      st.(server := Apply(st.server, st.curdir, c), marked := Marks(st.curdir, st.marked, c))
    else st
  }

  /** ftp_get_directory: from the cache, or else from the server into the cache.  A cached
      listing that has timed out is still used, but marked. */
  function AfterGetDirectory(st: State, arg: Arg, timedOut: bool): State {
    var p := Absolute(st.curdir, arg);
    if FindDir(st.cache, p) < |st.cache| then
      if timedOut then st.(marked := Mark(st.marked, p)) else st
    else if p in st.server then st.(cache := st.cache + [RDirectory(p, st.server[p])])
    else st
  }

  // ----- invariants

  predicate UpToDate(st: State, r: RDirectory) {
    r.path in st.server && st.server[r.path] == r.files
  }

  predicate Unique(cache: seq<RDirectory>) {
    forall i, j :: 0 <= i < j < |cache| ==> cache[i].path != cache[j].path
  }

  /** Every cached directory is what the server would send, or is going to be flushed. */
  predicate Coherent(st: State) {
    && Unique(st.cache)
    && forall k :: 0 <= k < |st.cache| ==> st.cache[k].path in st.marked || UpToDate(st, st.cache[k])
  }

  predicate Fresh(st: State) {
    Coherent(st) && st.marked == []
  }

  lemma MarkHolds(marked: seq<Path>, p: Path)
    ensures p in Mark(marked, p) && forall q :: q in marked ==> q in Mark(marked, p)
  {
  }

  /** The directory that contains the argument is marked. */
  lemma MarkForHolds(curdir: Path, marked: seq<Path>, arg: Arg)
    ensures forall q :: q in marked ==> q in MarkFor(curdir, marked, arg)
    ensures var p := Absolute(curdir, arg); arg.names != [] ==> p != [] && Parent(p) in MarkFor(curdir, marked, arg)
  {
    if arg.names != [] {
      var p := Absolute(curdir, arg);
      if !arg.absolute {
        assert Parent(p) == curdir + arg.names[..|arg.names| - 1];
        assert |arg.names| == 1 ==> Parent(p) == curdir;
      }
    }
  }

  /** What an accepted command leaves at its path. */
  lemma AppliedIs(s: Server, curdir: Path, c: Command)
    requires Accepts(s, curdir, c)
    ensures var t := Apply(s, curdir, c);
            match c
            case One(kind, arg, info) =>
              var p := Absolute(curdir, arg);
              (match kind
               case MakeDir => p in t && t[p] == map[] && IsDir(t, p)
               case RemoveDir => p !in t && (Parent(p) in t ==> !HasEntry(t, p))
               case Delete => Parent(p) in t && !HasEntry(t, p)
               case ChMod => HasEntry(t, p) && t[Parent(p)][Last(p)].info == info && (IsDir(t, p) <==> IsDir(s, p))
               case Store => HasEntry(t, p) && !IsDir(t, p))
            case RenameFile(from, to) =>
              var p, q := Absolute(curdir, from), Absolute(curdir, to);
              && HasEntry(t, q) && t[Parent(q)][Last(q)] == s[Parent(p)][Last(p)]
              && (p != q ==> Parent(p) in t && !HasEntry(t, p))
  {
    if c.RenameFile? {
      ChildIs(Absolute(curdir, c.from), Absolute(curdir, c.to));
    } else {
      ChildIs(Absolute(curdir, c.arg), Absolute(curdir, c.arg));
    }
  }

  predicate NamesGiven(c: Command) {
    match c
    case One(_, arg, _) => arg.names != []
    case RenameFile(from, to) => from.names != [] && to.names != []
  }

  /** A command marks the directory that contains its argument, and a removed one itself; nothing else. */
  lemma MarksAre(curdir: Path, marked: seq<Path>, c: Command, q: Path)
    requires NamesGiven(c)
    ensures match c
            case One(kind, arg, _) =>
              var p := Absolute(curdir, arg);
              && p != []
              && (q in Marks(curdir, marked, c) <==> q in marked || q == Parent(p) || (kind == RemoveDir && q == p))
            case RenameFile(from, to) =>
              var p, r := Absolute(curdir, from), Absolute(curdir, to);
              && p != [] && r != []
              && (q in Marks(curdir, marked, c) <==> q in marked || q == Parent(p) || q == Parent(r))
  {
    match c
    case One(kind, arg, _) =>
      MarkForIs(curdir, if kind == RemoveDir then Mark(marked, Absolute(curdir, arg)) else marked, arg, q);
    case RenameFile(from, to) =>
      MarkForIs(curdir, marked, from, q);
      MarkForIs(curdir, MarkFor(curdir, marked, from), to, q);
  }

  lemma MarkForIs(curdir: Path, marked: seq<Path>, arg: Arg, q: Path)
    requires arg.names != []
    ensures var p := Absolute(curdir, arg);
            p != [] && (q in MarkFor(curdir, marked, arg) <==> q in marked || q == Parent(p))
  {
    var p := Absolute(curdir, arg);
    if !arg.absolute {
      assert Parent(p) == curdir + arg.names[..|arg.names| - 1];
      assert |arg.names| == 1 ==> Parent(p) == curdir;
    }
  }

  /** A command changes the listings only of directories that it marks. */
  lemma ChangesAreMarked(s: Server, curdir: Path, marked: seq<Path>, c: Command, q: Path)
    requires Accepts(s, curdir, c) && NamesGiven(c)
    requires q in s && q !in Marks(curdir, marked, c)
    ensures q in Apply(s, curdir, c) && Apply(s, curdir, c)[q] == s[q] && q !in marked
  {
    match c
    case One(kind, arg, _) =>
      MarkHolds(marked, Absolute(curdir, arg));
      MarkForHolds(curdir, if kind == RemoveDir then Mark(marked, Absolute(curdir, arg)) else marked, arg);
    case RenameFile(from, to) =>
      MarkForHolds(curdir, marked, from);
      MarkForHolds(curdir, MarkFor(curdir, marked, from), to);
  }

  lemma ExecuteKeepsCoherent(st: State, c: Command)
    requires Coherent(st) && NamesGiven(c)
    ensures Coherent(Execute(st, c))
  {
    var st' := Execute(st, c);
    if Accepts(st.server, st.curdir, c) {
      forall k | 0 <= k < |st'.cache|
        ensures st'.cache[k].path in st'.marked || UpToDate(st', st'.cache[k])
      {
        var q := st.cache[k].path;
        if q !in st'.marked {
          if q in st.server {
            ChangesAreMarked(st.server, st.curdir, st.marked, c, q);
          } else {
            MarksGrow(st.curdir, st.marked, c, q);
          }
        }
      }
    }
  }

  lemma MarksGrow(curdir: Path, marked: seq<Path>, c: Command, q: Path)
    ensures q in marked ==> q in Marks(curdir, marked, c)
  {
  }

  lemma GetDirectoryKeepsCoherent(st: State, arg: Arg, timedOut: bool)
    requires Coherent(st)
    ensures Coherent(AfterGetDirectory(st, arg, timedOut))
  {
  }

  // ----- the flush removes what is marked

  function Paths(cache: seq<RDirectory>): multiset<Path> {
    if cache == [] then multiset{} else multiset{cache[0].path} + Paths(cache[1..])
  }

  lemma {:induction false} PathsAt(cache: seq<RDirectory>, k: nat)
    requires k < |cache|
    ensures Paths(cache) == multiset{cache[k].path} + Paths(cache[..k] + cache[k + 1..])
    decreases k
  {
    if k == 0 {
      assert cache[..0] + cache[1..] == cache[1..];
    } else {
      PathsAt(cache[1..], k - 1);
      var rest := cache[..k] + cache[k + 1..];
      assert rest[0] == cache[0] && rest[1..] == cache[1..][..k - 1] + cache[1..][k..];
    }
  }

  lemma {:induction false} InPaths(cache: seq<RDirectory>, p: Path)
    ensures p in Paths(cache) <==> exists k :: 0 <= k < |cache| && cache[k].path == p
  {
    if cache != [] {
      InPaths(cache[1..], p);
      assert forall k :: 0 < k < |cache| ==> cache[k] == cache[1..][k - 1];
      assert forall k :: 0 <= k < |cache| - 1 ==> cache[1..][k] == cache[k + 1];
    }
  }

  lemma DropFirstPaths(cache: seq<RDirectory>, p: Path)
    ensures Paths(DropFirst(cache, p)) == Paths(cache) - multiset{p}
  {
    var k := FindDir(cache, p);
    if k < |cache| {
      PathsAt(cache, k);
    } else {
      InPaths(cache, p);
    }
  }

  lemma SubtractTwice(a: multiset<Path>, b: multiset<Path>, c: multiset<Path>)
    ensures (a - b) - c == a - (b + c)
  {
  }

  lemma FirstMark(marked: seq<Path>)
    requires marked != []
    ensures multiset(marked) == multiset{marked[0]} + multiset(marked[1..])
  {
    assert marked == [marked[0]] + marked[1..];
  }

  lemma {:induction false} FlushPaths(cache: seq<RDirectory>, marked: seq<Path>)
    ensures Paths(FlushAll(cache, marked)) == Paths(cache) - multiset(marked)
    decreases |marked|
  {
    if marked != [] {
      var d := DropFirst(cache, marked[0]);
      DropFirstPaths(cache, marked[0]);
      FlushPaths(d, marked[1..]);
      FirstMark(marked);
      assert FlushAll(cache, marked) == FlushAll(d, marked[1..]);
      hide Paths, DropFirst, FlushAll;
      SubtractTwice(Paths(cache), multiset{marked[0]}, multiset(marked[1..]));
    }
  }

  /** With distinct marks, a flush removes every marked directory exactly when none of
      them is cached twice. */
  lemma FlushExact(cache: seq<RDirectory>, marked: seq<Path>)
    requires forall i, j :: 0 <= i < j < |marked| ==> marked[i] != marked[j]
    ensures (forall k :: 0 <= k < |FlushAll(cache, marked)| ==> FlushAll(cache, marked)[k].path !in marked)
            <==> forall p :: p in marked ==> Paths(cache)[p] <= 1
  {
    var after := FlushAll(cache, marked);
    FlushPaths(cache, marked);
    forall p | p in marked
      ensures multiset(marked)[p] == 1
    {
      CountOnce(marked, p);
    }
    forall p
      ensures p in Paths(after) <==> exists k :: 0 <= k < |after| && after[k].path == p
    {
      InPaths(after, p);
    }
    if forall p :: p in marked ==> Paths(cache)[p] <= 1 {
      forall k | 0 <= k < |after|
        ensures after[k].path !in marked
      {
        assert after[k].path in Paths(after);
      }
    }
    if p :| p in marked && Paths(cache)[p] > 1 {
      assert p in Paths(after);
    }
  }

  lemma {:induction false} CountOnce(s: seq<Path>, p: Path)
    requires p in s && forall i, j :: 0 <= i < j < |s| ==> s[i] != s[j]
    ensures multiset(s)[p] == 1
    decreases |s|
  {
    var t := s[1..];
    assert s == [s[0]] + t;
    if p == s[0] {
      assert p !in t;
    } else {
      CountOnce(t, p);
    }
  }

  /** What a flush leaves was in the cache, in the same order. */
  lemma {:induction false} FlushKeeps(cache: seq<RDirectory>, marked: seq<Path>)
    ensures forall r :: r in FlushAll(cache, marked) ==> r in cache
    ensures Unique(cache) ==> Unique(FlushAll(cache, marked))
    ensures forall r :: r in cache && r.path !in marked ==> r in FlushAll(cache, marked)
    decreases |marked|
  {
    if marked != [] {
      var m, rest := marked[0], marked[1..];
      var d := DropFirst(cache, m);
      assert forall q :: q in marked <==> q == m || q in rest by {
        assert marked == [m] + rest;
      }
      DropFirstKeeps(cache, m);
      FlushKeeps(d, rest);
      assert FlushAll(cache, marked) == FlushAll(d, rest);
      hide FlushAll, DropFirst, Unique;
    }
  }

  lemma DropFirstKeeps(cache: seq<RDirectory>, p: Path)
    ensures forall r :: r in DropFirst(cache, p) ==> r in cache
    ensures Unique(cache) ==> Unique(DropFirst(cache, p))
    ensures forall r :: r in cache && r.path != p ==> r in DropFirst(cache, p)
  {
    var k := FindDir(cache, p);
    if k < |cache| {
      assert cache == cache[..k] + [cache[k]] + cache[k + 1..];
    }
  }

  lemma {:induction false} UniquePaths(cache: seq<RDirectory>, p: Path)
    requires Unique(cache)
    ensures Paths(cache)[p] <= 1
  {
    if cache != [] {
      UniquePaths(cache[1..], p);
      InPaths(cache[1..], p);
    }
  }

  predicate DistinctMarks(marked: seq<Path>) {
    forall i, j :: 0 <= i < j < |marked| ==> marked[i] != marked[j]
  }

  lemma MarksStayDistinct(curdir: Path, marked: seq<Path>, c: Command)
    requires DistinctMarks(marked)
    ensures DistinctMarks(Marks(curdir, marked, c))
  {
  }

  /** After a flush every cached listing is what the server would send. */
  lemma FlushIsFresh(st: State)
    requires Coherent(st) && DistinctMarks(st.marked)
    ensures Fresh(Flush(st))
  {
    var st' := Flush(st);
    FlushKeeps(st.cache, st.marked);
    forall p | p in st.marked
      ensures Paths(st.cache)[p] <= 1
    {
      UniquePaths(st.cache, p);
    }
    FlushExact(st.cache, st.marked);
    forall k | 0 <= k < |st'.cache|
      ensures UpToDate(st', st'.cache[k])
    {
      var r := FlushAll(st.cache, st.marked)[k];
      assert r in st.cache && r.path !in st.marked;
    }
  }

  predicate Cached(cache: seq<RDirectory>, p: Path) {
    exists k :: 0 <= k < |cache| && cache[k].path == p
  }

  lemma FlushedIs(cache: seq<RDirectory>, marked: seq<Path>, p: Path)
    requires Unique(cache)
    ensures Cached(FlushAll(cache, marked), p) <==> Cached(cache, p) && p !in marked
  {
    FlushPaths(cache, marked);
    InPaths(cache, p);
    InPaths(FlushAll(cache, marked), p);
    UniquePaths(cache, p);
    hide FlushAll, Paths, Unique;
    assert p in marked <==> p in multiset(marked);
  }

  /** What a reading leaves in the cache when its command is over: a listing that was there and has not timed
      out, or that the server sent, and that no command marked. */
  lemma ReadingStays(st: State, arg: Arg, timedOut: bool)
    requires Coherent(st)
    ensures var p := Absolute(st.curdir, arg);
            Cached(Flush(AfterGetDirectory(st, arg, timedOut)).cache, p) <==>
              && p !in st.marked
              && if Cached(st.cache, p) then !timedOut else p in st.server
  {
    var p, after := Absolute(st.curdir, arg), AfterGetDirectory(st, arg, timedOut);
    GetDirectoryKeepsCoherent(st, arg, timedOut);
    FlushedIs(after.cache, after.marked, p);
    hide FlushAll;
    assert FindDir(st.cache, p) < |st.cache| <==> Cached(st.cache, p);
    if !Cached(st.cache, p) && p in st.server {
      assert after.cache[|st.cache|].path == p;
    }
  }

  // ----- whole runs

  /** What a user command is made of. */
  datatype Op =
    | Change(command: Command)
    | Read(arg: Arg, timedOut: bool)
    | Touch(arg: Arg)
    | ChangeDir(dir: Path)
    | ClearCache

  function Step(st: State, op: Op): State {
    match op
    case Change(c) => if NamesGiven(c) then Execute(st, c) else st
    case Read(arg, timedOut) => AfterGetDirectory(st, arg, timedOut)
    case Touch(arg) => st.(marked := Mark(st.marked, Absolute(st.curdir, arg)))
    case ChangeDir(dir) => st.(curdir := dir)
    case ClearCache => st.(cache := [], marked := [])
  }

  function Run(st: State, ops: seq<Op>): State
    decreases |ops|
  {
    if ops == [] then st else Run(Step(st, ops[0]), ops[1..])
  }

  ghost predicate Invariant(st: State) {
    Coherent(st) && DistinctMarks(st.marked)
  }

  lemma StepKeepsInvariant(st: State, op: Op)
    requires Invariant(st)
    ensures Invariant(Step(st, op))
  {
    match op
    case Change(c) =>
      if NamesGiven(c) {
        ExecuteKeepsCoherent(st, c);
        MarksStayDistinct(st.curdir, st.marked, c);
      }
    case Read(arg, timedOut) => GetDirectoryKeepsCoherent(st, arg, timedOut);
    case _ =>
  }

  lemma {:induction false} RunKeepsInvariant(st: State, ops: seq<Op>)
    requires Invariant(st)
    ensures Invariant(Run(st, ops))
    decreases |ops|
  {
    if ops != [] {
      StepKeepsInvariant(st, ops[0]);
      RunKeepsInvariant(Step(st, ops[0]), ops[1..]);
    }
  }

  /** A session: every user command ends with a flush. */
  function Session(st: State, commands: seq<seq<Op>>): State
    decreases |commands|
  {
    if commands == [] then st else Session(Flush(Run(st, commands[0])), commands[1..])
  }

  /** Whatever the commands do, each one starts with a cache that agrees with the server. */
  lemma {:induction false} SessionIsFresh(st: State, commands: seq<seq<Op>>)
    requires Fresh(st)
    ensures Fresh(Session(st, commands))
    decreases |commands|
  {
    if commands != [] {
      RunKeepsInvariant(st, commands[0]);
      FlushIsFresh(Run(st, commands[0]));
      SessionIsFresh(Flush(Run(st, commands[0])), commands[1..]);
    }
  }

  /** A change to one listing that keeps its directory entries. */
  lemma SameDirsIsTree(s: Server, t: Server, d: Path)
    requires IsTree(s) && d in s && t.Keys == s.Keys && (forall r :: r in s && r != d ==> t[r] == s[r])
    requires forall n :: n in s[d] && s[d][n].isDir ==> n in t[d] && t[d][n].isDir
    ensures IsTree(t)
  {
    forall p
      ensures Attached(t, p)
    {
      assert Attached(s, p);
    }
  }

  lemma ChildIs(r: Path, p: Path)
    requires r != [] && p != []
    ensures Parent(r) == Parent(p) && Last(r) == Last(p) ==> r == p
    ensures Parent(p) != p
  {
    assert r == Parent(r) + [Last(r)] && p == Parent(p) + [Last(p)];
  }

  lemma MakeDirKeepsTree(s: Server, p: Path, info: int)
    requires IsTree(s) && p != [] && Parent(p) in s && !HasEntry(s, p) && p !in s
    ensures IsTree(WithEntry(s, p, Entry(true, info))[p := map[]])
  {
    hide Parent, Last;
    var t := WithEntry(s, p, Entry(true, info))[p := map[]];
    ChildIs(p, p);
    forall r
      ensures Attached(t, r)
    {
      assert Attached(s, r);
    }
  }

  lemma RemoveDirKeepsTree(s: Server, p: Path)
    requires IsTree(s) && p != [] && HasEntry(s, p) && p in s && s[p] == map[]
    ensures IsTree(WithoutEntry(s, p) - {p})
  {
    hide Parent, Last;
    var t := WithoutEntry(s, p) - {p};
    forall r
      ensures Attached(t, r)
    {
      assert Attached(s, r);
      if r in t && r != [] {
        ChildIs(r, p);
      }
    }
  }

  /** The commands keep the server a tree. */
  lemma ApplyKeepsTree(s: Server, curdir: Path, c: Command)
    requires IsTree(s) && Accepts(s, curdir, c)
    ensures IsTree(Apply(s, curdir, c))
  {
    hide IsTree;
    match c
    case One(kind, arg, info) =>
      var p := Absolute(curdir, arg);
      match kind {
        case MakeDir => MakeDirKeepsTree(s, p, info);
        case RemoveDir => RemoveDirKeepsTree(s, p);
        case Delete => DeleteKeepsTree(s, p);
        case ChMod => EntryKeepsTree(s, p, s[Parent(p)][Last(p)].(info := info));
        case Store => EntryKeepsTree(s, p, Entry(false, info));
      }
    case RenameFile(from, to) =>
      var p, q := Absolute(curdir, from), Absolute(curdir, to);
      DeleteKeepsTree(s, p);
      EntryKeepsTree(WithoutEntry(s, p), q, s[Parent(p)][Last(p)]);
  }

  lemma EntryKeepsTree(s: Server, p: Path, e: Entry)
    requires IsTree(s) && p != [] && Parent(p) in s && (IsDir(s, p) ==> e.isDir)
    ensures IsTree(WithEntry(s, p, e))
  {
    SameDirsIsTree(s, WithEntry(s, p, e), Parent(p));
  }

  lemma DeleteKeepsTree(s: Server, p: Path)
    requires IsTree(s) && p != [] && Parent(p) in s && !IsDir(s, p)
    ensures IsTree(WithoutEntry(s, p))
  {
    SameDirsIsTree(s, WithoutEntry(s, p), Parent(p));
  }

  // ----- renaming a directory

  predicate AcceptsRenameDir(s: Server, p: Path, q: Path) {
    && p != [] && IsDir(s, p) && p in s
    && q != [] && Parent(q) in s && !HasEntry(s, q) && q !in s
    && !(p <= q)
  }

  /** The whole subtree at p moves to q. */
  function RenamedDir(s: Server, p: Path, q: Path): Server
    requires AcceptsRenameDir(s, p, q)
  {
    var linked := WithEntry(WithoutEntry(s, p), q, s[Parent(p)][Last(p)]);
    var stays := set r | r in linked && !(p <= r);
    var moves := set r | r in linked && p <= r :: q + r[|p|..];
    (map r | r in stays :: linked[r]) + (map r | r in moves && p + r[|q|..] in linked :: linked[p + r[|q|..]])
  }

  /** ftp_rename of a directory: only the two parents are marked. */
  function ExecuteRenameDir(st: State, from: Arg, to: Arg): State
    requires AcceptsRenameDir(st.server, Absolute(st.curdir, from), Absolute(st.curdir, to))
  {
    st.(server := RenamedDir(st.server, Absolute(st.curdir, from), Absolute(st.curdir, to)),
        marked := MarkFor(st.curdir, MarkFor(st.curdir, st.marked, from), to))
  }

  /** A directory exists only if all directories above it do. */
  lemma {:induction false} AncestorsExist(s: Server, q: Path, r: Path)
    requires IsTree(s) && r in s && q <= r
    ensures q in s
    decreases |r|
  {
    if |q| < |r| {
      assert Attached(s, r);
      assert q <= Parent(r);
      AncestorsExist(s, q, Parent(r));
    } else {
      assert q == r;
    }
  }

  /** MarkFor adds the containing directory and nothing else. */
  lemma MarkForOnly(curdir: Path, marked: seq<Path>, arg: Arg, r: Path)
    requires arg.names != []
    ensures var p := Absolute(curdir, arg);
            p != [] && (r in MarkFor(curdir, marked, arg) <==> r in marked || r == Parent(p))
  {
    MarkForHolds(curdir, marked, arg);
    if !arg.absolute {
      assert Parent(Absolute(curdir, arg)) == curdir + arg.names[..|arg.names| - 1];
    }
  }

  /** Renaming a directory keeps the cache coherent exactly when everything cached at or below
      its old path was marked already: the rename itself marks the two parents only. */
  lemma RenameDirExact(st: State, from: Arg, to: Arg)
    requires Coherent(st) && IsTree(st.server) && from.names != [] && to.names != []
    requires AcceptsRenameDir(st.server, Absolute(st.curdir, from), Absolute(st.curdir, to))
    ensures var st' := ExecuteRenameDir(st, from, to);
            Coherent(st') <==>
            forall k :: 0 <= k < |st.cache| && Absolute(st.curdir, from) <= st.cache[k].path ==>
                          st.cache[k].path in st.marked
  {
    hide IsTree, RenamedDir, MarkFor, Unique;
    var p, q := Absolute(st.curdir, from), Absolute(st.curdir, to);
    var st' := ExecuteRenameDir(st, from, to);
    MarkForHolds(st.curdir, st.marked, from);
    MarkForHolds(st.curdir, MarkFor(st.curdir, st.marked, from), to);
    forall k | 0 <= k < |st.cache|
      ensures p <= st.cache[k].path ==> !UpToDate(st', st.cache[k])
                                        && (st.cache[k].path in st'.marked <==> st.cache[k].path in st.marked)
      ensures !(p <= st.cache[k].path) ==> st.cache[k].path in st'.marked || UpToDate(st', st.cache[k])
    {
      var r := st.cache[k].path;
      MarkForOnly(st.curdir, st.marked, from, r);
      MarkForOnly(st.curdir, MarkFor(st.curdir, st.marked, from), to, r);
      if p <= r {
        BelowIsNoParent(p, q, r);
        MovedAway(st.server, p, q, r);
      } else if r !in st'.marked {
        NotMoved(st.server, p, q, r);
      }
    }
  }

  lemma BelowIsNoParent(p: Path, q: Path, r: Path)
    requires p != [] && q != [] && p <= r && !(p <= q)
    ensures r != Parent(p) && r != Parent(q)
  {
    assert Parent(q) <= q;
  }

  /** With a read and cached, renaming a to b leaves the listing of a in the cache, unmarked. */
  lemma RenamedDirStaysCached()
    ensures var s: Server := map[[] := map["a" := Entry(true, 0)], ["a"] := map[]];
            var st := State(s, [], [RDirectory(["a"], map[])], []);
            var from, to := Arg(false, ["a"]), Arg(false, ["b"]);
            && IsTree(s) && Fresh(st) && AcceptsRenameDir(s, Absolute([], from), Absolute([], to))
            && !Coherent(ExecuteRenameDir(st, from, to))
  {
    var s: Server := map[[] := map["a" := Entry(true, 0)], ["a"] := map[]];
    var st := State(s, [], [RDirectory(["a"], map[])], []);
    var from, to := Arg(false, ["a"]), Arg(false, ["b"]);
    assert [] + ["a"] == ["a"] && [] + ["b"] == ["b"];
    assert Parent(["a"]) == [] && Parent(["b"]) == [];
    assert UpToDate(st, st.cache[0]);
    assert "a" != "b" by {
      assert "a"[0] != "b"[0];
    }
    assert IsTree(s) by {
      forall p
        ensures Attached(s, p)
      {
      }
    }
    hide RenamedDir, IsTree, UpToDate;
    RenameDirExact(st, from, to);
    assert st.cache[0].path !in st.marked;
  }

  lemma MovedAway(s: Server, p: Path, q: Path, r: Path)
    requires IsTree(s) && AcceptsRenameDir(s, p, q) && p <= r
    ensures r !in RenamedDir(s, p, q)
  {
    if r in RenamedDir(s, p, q) {
      assert q <= r;
      assert |q| < |p| && q <= p by {
        assert forall i :: 0 <= i < |p| ==> p[i] == r[i];
        assert forall i :: 0 <= i < |q| ==> q[i] == r[i];
      }
      AncestorsExist(s, q, p);
    }
  }

  lemma NotMoved(s: Server, p: Path, q: Path, r: Path)
    requires IsTree(s) && AcceptsRenameDir(s, p, q) && !(p <= r)
    requires r in s && r != Parent(p) && r != Parent(q)
    ensures r in RenamedDir(s, p, q) && RenamedDir(s, p, q)[r] == s[r]
  {
    var linked := WithEntry(WithoutEntry(s, p), q, s[Parent(p)][Last(p)]);
    assert r in linked && linked[r] == s[r];
    assert !(q <= r) by {
      if q <= r {
        AncestorsExist(s, q, r);
      }
    }
    assert r !in (set x | x in linked && p <= x :: q + x[|p|..]);
    hide IsTree;
  }

  // ----- files

  /** The file an argument names, in the listing of its directory. */
  function FileIn(files: Listing, arg: Arg): Option<Entry>
    requires arg.names != []
  {
    var n := arg.names[|arg.names| - 1];
    if n in files then Some(files[n]) else None
  }

  /** The directory of an argument that names a file; the current one without a directory part. */
  function DirArg(curdir: Path, arg: Arg): Arg {
    var (cut, dir) := BaseDir(arg);
    if cut then dir else Arg(true, curdir)
  }

  /** ftp_get_file: the cached directory, or else the one read from the server. */
  function AfterGetFile(st: State, arg: Arg, timedOut: bool): (State, Option<Entry>)
    requires arg.names != []
  {
    var dir := DirArg(st.curdir, arg);
    var st' := AfterGetDirectory(st, dir, timedOut);
    var k := FindDir(st'.cache, Absolute(st.curdir, dir));
    (st', if k < |st'.cache| then FileIn(st'.cache[k].files, arg) else None)
  }

  /** Unless its directory is marked, a file is reported exactly as the server has it. */
  lemma GetFileIsRight(st: State, arg: Arg, timedOut: bool)
    requires Coherent(st) && arg.names != []
    requires Parent(Absolute(st.curdir, arg)) !in st.marked
    ensures var p := Absolute(st.curdir, arg);
            AfterGetFile(st, arg, timedOut).1
            == if HasEntry(st.server, p) then Some(st.server[Parent(p)][Last(p)]) else None
  {
    var p := Absolute(st.curdir, arg);
    var dir := DirArg(st.curdir, arg);
    assert Absolute(st.curdir, dir) == Parent(p) by {
      if !arg.absolute {
        assert Parent(p) == st.curdir + arg.names[..|arg.names| - 1];
        assert |arg.names| == 1 ==> Parent(p) == st.curdir;
      }
    }
    assert Last(p) == arg.names[|arg.names| - 1];
    GetDirectoryKeepsCoherent(st, dir, false);
    var st' := AfterGetDirectory(st, dir, timedOut);
    var k := FindDir(st'.cache, Parent(p));
    if FindDir(st.cache, Parent(p)) < |st.cache| {
      assert st'.cache == st.cache;
      assert UpToDate(st, st.cache[k]);
    } else if Parent(p) in st.server {
      assert st'.cache[|st.cache|].path == Parent(p);
    }
  }

  // ----- the client

  class Client {
    var server: Server
    var curdir: Path
    var cache: seq<RDirectory>
    var dirsToFlush: seq<Path>

    function St(): State
      reads this
    {
      State(server, curdir, cache, dirsToFlush)
    }

    constructor (server: Server, curdir: Path)
      ensures St() == State(server, curdir, [], []) && Fresh(St())
    {
      this.server, this.curdir, cache, dirsToFlush := server, curdir, [], [];
    }

    /** list_search in the cache. */
    method SearchCache(p: Path) returns (k: nat)
      ensures k == FindDir(cache, p)
    {
      k := 0;
      while k < |cache| && cache[k].path != p
        invariant k <= FindDir(cache, p) && k <= |cache|
      {
        k := k + 1;
      }
    }

    /** ftp_cache_flush_mark. */
    method FlushMark(p: Path)
      modifies this`dirsToFlush
      ensures dirsToFlush == Mark(old(dirsToFlush), p)
    {
      var k := 0;
      while k < |dirsToFlush|
        invariant 0 <= k <= |dirsToFlush| && p !in dirsToFlush[..k]
      {
        if dirsToFlush[k] == p {
          return;
        }
        k := k + 1;
      }
      assert dirsToFlush[..k] == dirsToFlush;
      dirsToFlush := dirsToFlush + [p];
    }

    /** ftp_cache_flush_mark_for. */
    method FlushMarkFor(arg: Arg)
      modifies this`dirsToFlush
      ensures dirsToFlush == MarkFor(curdir, old(dirsToFlush), arg)
    {
      var (cut, dir) := BaseDir(arg);
      FlushMark(if cut then Absolute(curdir, dir) else curdir);
    }

    /** ftp_cache_flush. */
    method CacheFlush()
      modifies this`cache, this`dirsToFlush
      ensures St() == Flush(old(St()))
    {
      hide FindDir;
      var i := 0;
      assert dirsToFlush[0..] == dirsToFlush;
      while i < |dirsToFlush|
        invariant 0 <= i <= |dirsToFlush| && dirsToFlush == old(dirsToFlush)
        invariant FlushAll(cache, dirsToFlush[i..]) == FlushAll(old(cache), dirsToFlush)
      {
        var dir := dirsToFlush[i];
        assert dirsToFlush[i..][0] == dir && dirsToFlush[i..][1..] == dirsToFlush[i + 1..];
        var k := SearchCache(dir);
        if k < |cache| {
          cache := cache[..k] + cache[k + 1..];
        }
        i := i + 1;
      }
      dirsToFlush := [];
    }

    method CacheClear()
      modifies this`cache, this`dirsToFlush
      ensures St() == Step(old(St()), ClearCache)
    {
      dirsToFlush := [];
      cache := [];
    }

    /** ftp_cache_get_directory; timedOut tells whether the listing found is too old. */
    method CacheGetDirectory(arg: Arg, timedOut: bool) returns (r: Option<RDirectory>)
      modifies this`dirsToFlush
      ensures var p := Absolute(curdir, arg);
              var k := FindDir(cache, p);
              && r == (if k < |cache| then Some(cache[k]) else None)
              && dirsToFlush == if k < |cache| && timedOut then Mark(old(dirsToFlush), p) else old(dirsToFlush)
    {
      var dir := Absolute(curdir, arg);
      var k := SearchCache(dir);
      if k < |cache| && timedOut {
        FlushMark(dir);
      }
      if k == |cache| {
        return None;
      }
      return Some(cache[k]);
    }

    /** ftp_read_directory: change to the directory, list it, and add the listing to the cache. */
    method ReadDirectory(arg: Arg) returns (r: Option<RDirectory>)
      modifies this`cache
      ensures var p := Absolute(curdir, arg);
              if p in server then r == Some(RDirectory(p, server[p])) && cache == old(cache) + [r.value]
              else r == None && cache == old(cache)
    {
      var dir := Absolute(curdir, arg);
      if dir !in server {
        return None;
      }
      var rdir := RDirectory(dir, server[dir]);
      cache := cache + [rdir];
      return Some(rdir);
    }

    /** ftp_get_directory. */
    method GetDirectory(arg: Arg, timedOut: bool) returns (r: Option<RDirectory>)
      modifies this`cache, this`dirsToFlush
      ensures St() == AfterGetDirectory(old(St()), arg, timedOut)
      ensures var k := FindDir(cache, Absolute(curdir, arg)); r == if k < |cache| then Some(cache[k]) else None
    {
      r := CacheGetDirectory(arg, timedOut);
      if r.None? {
        ghost var n := |cache|;
        r := ReadDirectory(arg);
        assert r.Some? ==> cache[n].path == Absolute(curdir, arg);
      }
    }

    /** ftp_get_file. */
    method GetFile(arg: Arg, timedOut: bool) returns (f: Option<Entry>)
      requires arg.names != []
      modifies this`cache, this`dirsToFlush
      ensures (St(), f) == AfterGetFile(old(St()), arg, timedOut)
    {
      f := None;
      var dir := DirArg(curdir, arg);
      var rdir := CacheGetDirectory(dir, timedOut);
      if rdir.Some? {
        f := FileIn(rdir.value.files, arg);
      }
      if f.None? {
        rdir := GetDirectory(dir, timedOut);
        if rdir.Some? {
          f := FileIn(rdir.value.files, arg);
        }
      }
    }

    /** A command on the control connection; true for a positive completion reply. */
    method Send(c: Command) returns (ok: bool)
      modifies this`server
      ensures ok == Accepts(old(server), curdir, c)
      ensures server == if ok then Apply(old(server), curdir, c) else old(server)
    {
      ok := Accepts(server, curdir, c);
      if ok {
        server := Apply(server, curdir, c);
      }
    }

    /** ftp_unlink, ftp_chmod and ftp_mkdir_verb, and the end of an upload. */
    method ChangeEntry(kind: Kind, arg: Arg, info: int) returns (ok: bool)
      requires kind != RemoveDir
      modifies this`server, this`dirsToFlush
      ensures St() == Execute(old(St()), One(kind, arg, info))
    {
      ok := Send(One(kind, arg, info));
      if ok {
        FlushMarkFor(arg);
      }
    }

    method RmDir(arg: Arg) returns (ok: bool)
      modifies this`server, this`dirsToFlush
      ensures St() == Execute(old(St()), One(RemoveDir, arg, 0))
    {
      ok := Send(One(RemoveDir, arg, 0));
      if ok {
        FlushMark(Absolute(curdir, arg));
        FlushMarkFor(arg);
      }
    }

    /** RNFR and RNTO; a directory takes everything below it along. */
    method SendRename(from: Arg, to: Arg) returns (ok: bool)
      modifies this`server
      ensures var p, q, st := Absolute(curdir, from), Absolute(curdir, to), old(server);
              if AcceptsRenameDir(st, p, q) then ok && server == RenamedDir(st, p, q)
              else
                && ok == Accepts(st, curdir, RenameFile(from, to))
                && server == if ok then Apply(st, curdir, RenameFile(from, to)) else st
    {
      var p, q := Absolute(curdir, from), Absolute(curdir, to);
      if AcceptsRenameDir(server, p, q) {
        server, ok := RenamedDir(server, p, q), true;
      } else {
        ok := Send(RenameFile(from, to));
      }
    }

    /** ftp_rename, of a file or a directory. */
    method Rename(from: Arg, to: Arg) returns (ok: bool)
      modifies this`server, this`dirsToFlush
      ensures var st := old(St());
              St() == if AcceptsRenameDir(st.server, Absolute(st.curdir, from), Absolute(st.curdir, to))
                      then ExecuteRenameDir(st, from, to) else Execute(st, RenameFile(from, to))
    {
      hide RenamedDir, AcceptsRenameDir;
      ok := SendRename(from, to);
      if ok {
        FlushMarkFor(from);
        FlushMarkFor(to);
      }
    }
  }
}
