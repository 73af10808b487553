/**
 Path normalisation by repeated deletion inside one buffer (strpull, collapse_one and
 path_collapse in src/libmhe/strq.c), against resolution with a stack of names.

 An absolute path is resolved as the root says.  Of a relative path that climbs, the source
 keeps only whether the number of levels is odd, and so RelativeExact holds with a condition.
 */
module PathCollapse {
  import opened CString
  import opened Sequences

  // ----- specification: paths as pieces between slashes

  /** Every piece with a slash in front of it. */
  function Text(ps: seq<string>): string {
    if ps == [] then "" else "/" + ps[0] + Text(ps[1..])
  }

  /** The pieces of s, cut at every slash. */
  function Split(s: string): (ps: seq<string>)
    ensures ps != [] && forall k :: 0 <= k < |ps| ==> '/' !in ps[k]
  {
    if s == "" then [""]
    else
      var ps := Split(s[1..]);
      if s[0] == '/' then [""] + ps else [[s[0]] + ps[0]] + ps[1..]
  }

  predicate IsAbsolute(s: string) {
    s != "" && s[0] == '/'
  }

  /** Push names, pop on `..`; the root absorbs `..`. */
  function Resolve(stack: seq<string>, ps: seq<string>): seq<string>
    decreases |ps|
  {
    if ps == [] then stack
    else if ps[0] == "" || ps[0] == "." then Resolve(stack, ps[1..])
    else if ps[0] == ".." then Resolve(if stack == [] then [] else stack[..|stack| - 1], ps[1..])
    else Resolve(stack + [ps[0]], ps[1..])
  }

  /** The pieces of the resolved path; a path that ends in `/` or `/.` keeps a slash. */
  function Canon(ps: seq<string>): seq<string>
    requires ps != []
  {
    var names := Resolve([], ps);
    if names == [] then [""]
    else names + if ps[|ps| - 1] in {"", "."} then [""] else []
  }

  predicate IsDot(p: string) {
    p == "." || p == ".."
  }

  predicate IsName(p: string) {
    p != "" && !IsDot(p)
  }

  /** Pieces with no `//` between them. */
  predicate Single(ps: seq<string>) {
    && ps != []
    && (forall k :: 0 <= k < |ps| ==> '/' !in ps[k])
    && (forall k :: 0 <= k < |ps| - 1 ==> ps[k] != "")
  }

  /** No piece left to resolve. */
  predicate Clean(ps: seq<string>) {
    Single(ps) && forall k :: 0 <= k < |ps| ==> !IsDot(ps[k])
  }

  lemma {:induction false} SplitText(s: string)
    ensures Text(Split(s)) == "/" + s
  {
    if s == "" {
      TextCons("", []);
      assert Split(s) == [""] + [];
    } else {
      SplitText(s[1..]);
      var ps := Split(s[1..]);
      assert s == [s[0]] + s[1..];
      if s[0] == '/' {
        TextCons("", ps);
      } else {
        TextCons(ps[0], ps[1..]);
        assert ps == [ps[0]] + ps[1..];
        TextCons([s[0]] + ps[0], ps[1..]);
        Regroup(s[0], ps[0], Text(ps[1..]), s[1..]);
      }
    }
  }

  lemma Regroup(c: char, p: string, t: string, s: string)
    requires "/" + p + t == "/" + s
    ensures "/" + ([c] + p) + t == "/" + ([c] + s)
  {
    assert p + t == ("/" + p + t)[1..] == ("/" + s)[1..] == s;
    assert "/" + ([c] + p) + t == "/" + ([c] + (p + t));
  }

  lemma {:induction false} ResolveAppend(stack: seq<string>, a: seq<string>, b: seq<string>)
    ensures Resolve(stack, a + b) == Resolve(Resolve(stack, a), b)
    decreases |a|
  {
    if a == [] {
      assert a + b == b;
    } else {
      assert (a + b)[0] == a[0] && (a + b)[1..] == a[1..] + b;
      var next := if a[0] == "" || a[0] == "." then stack
                  else if a[0] == ".." then (if stack == [] then [] else stack[..|stack| - 1])
                  else stack + [a[0]];
      ResolveAppend(next, a[1..], b);
    }
  }

  lemma {:induction false} ResolveNames(stack: seq<string>, ps: seq<string>)
    requires forall k :: 0 <= k < |ps| ==> IsName(ps[k])
    ensures Resolve(stack, ps) == stack + ps
    decreases |ps|
  {
    if ps != [] {
      ResolveNames(stack + [ps[0]], ps[1..]);
      assert stack + [ps[0]] + ps[1..] == stack + ps;
    } else {
      assert stack + ps == stack;
    }
  }

  /** A clean path is its own resolution. */
  lemma CleanIsCanon(ps: seq<string>)
    requires Clean(ps)
    ensures Canon(ps) == ps
  {
    hide Resolve;
    var n := |ps| - 1;
    var front := ps[..n];
    assert ps == front + [ps[n]];
    assert [] + front == front;
    ResolveAppend([], front, [ps[n]]);
    ResolveNames([], front);
    ResolveOne(front, ps[n]);
  }

  lemma ResolveOne(stack: seq<string>, p: string)
    requires !IsDot(p)
    ensures Resolve(stack, [p]) == if p == "" then stack else stack + [p]
  {
    assert [p][1..] == [];
  }

  lemma {:induction false} ResolvedNames(stack: seq<string>, ps: seq<string>)
    requires forall k :: 0 <= k < |stack| ==> IsName(stack[k]) && '/' !in stack[k]
    requires forall k :: 0 <= k < |ps| ==> '/' !in ps[k]
    ensures forall k :: 0 <= k < |Resolve(stack, ps)| ==> IsName(Resolve(stack, ps)[k]) && '/' !in Resolve(stack, ps)[k]
    decreases |ps|
  {
    if ps != [] {
      var next := if ps[0] == "" || ps[0] == "." then stack
                  else if ps[0] == ".." then (if stack == [] then [] else stack[..|stack| - 1])
                  else stack + [ps[0]];
      ResolvedNames(next, ps[1..]);
    }
  }

  /** A resolved path is clean, and resolving it again changes nothing. */
  lemma CanonIsClean(ps: seq<string>)
    requires ps != [] && forall k :: 0 <= k < |ps| ==> '/' !in ps[k]
    ensures Clean(Canon(ps)) && Canon(Canon(ps)) == Canon(ps)
  {
    ResolvedNames([], ps);
    CleanIsCanon(Canon(ps));
  }

  lemma {:induction false} SplitPiece(p: string, t: string)
    requires '/' !in p && (t == "" || t[0] == '/')
    ensures Split(p + t) == if t == "" then [p] else [p] + Split(t[1..])
    decreases |p|
  {
    if p == "" {
      assert p + t == t;
    } else {
      var q := p[1..];
      assert p[0] in p && forall c :: c in q ==> c in p;
      SplitPiece(q, t);
      assert (p + t)[0] == p[0] && (p + t)[1..] == q + t;
      assert [p[0]] + q == p;
    }
  }

  /** The pieces of a text are those it was made of. */
  lemma {:induction false} SplitOfText(ps: seq<string>)
    requires ps != [] && forall k :: 0 <= k < |ps| ==> '/' !in ps[k]
    ensures Split(Text(ps)[1..]) == ps
    decreases |ps|
  {
    var p, t := ps[0], Text(ps[1..]);
    assert Text(ps)[1..] == p + t;
    SplitPiece(p, t);
    if |ps| > 1 {
      SplitOfText(ps[1..]);
      assert t != "";
    } else {
      assert ps == [p];
    }
  }

  /** The collapsed path is absolute, has the resolved pieces and no others, and is a fixed point. */
  lemma CollapsedPath(s: string)
    requires IsAbsolute(s)
    ensures var ps := Canon(Split(s[1..]));
            var t := Text(ps);
            IsAbsolute(t) && Split(t[1..]) == ps && Clean(ps) && Text(Canon(Split(t[1..]))) == t
  {
    var ps := Canon(Split(s[1..]));
    CanonIsClean(Split(s[1..]));
    SplitOfText(ps);
  }

  // ----- one deletion

  /** The first piece from `from` on that is `.` or `..`. */
  function FirstDot(ps: seq<string>, from: nat): (r: Option<nat>)
    ensures r.Some? ==> from <= r.value < |ps| && IsDot(ps[r.value])
    ensures r.Some? ==> forall k :: from <= k < r.value ==> !IsDot(ps[k])
    ensures r.None? ==> forall k :: from <= k < |ps| ==> !IsDot(ps[k])
    decreases |ps| - from
  {
    if from >= |ps| then None
    else if IsDot(ps[from]) then Some(from)
    else FirstDot(ps, from + 1)
  }

  /** What is left when the dot piece k is resolved against the piece in front of it. */
  function Deleted(ps: seq<string>, k: nat): seq<string>
    requires k < |ps| && IsDot(ps[k])
  {
    if ps[k] == "." then
      if k + 1 == |ps| then ps[..k] + [""] else ps[..k] + ps[k + 1..]
    else
      var rest := (if k == 0 then [] else ps[..k - 1]) + ps[k + 1..];
      if rest == [] then [""] else rest
  }

  /** A dot piece behind names. */
  lemma ResolveDot(front: seq<string>, dot: string, rest: seq<string>)
    requires forall j :: 0 <= j < |front| ==> IsName(front[j])
    requires IsDot(dot)
    ensures Resolve([], front + rest) == Resolve(front, rest)
    ensures Resolve([], front + ([dot] + rest))
            == Resolve(if dot == "." || front == [] then front else front[..|front| - 1], rest)
  {
    ResolveAppend([], front, [dot] + rest);
    ResolveAppend([], front, rest);
    ResolveNames([], front);
    assert [] + front == front;
    assert ([dot] + rest)[0] == dot && ([dot] + rest)[1..] == rest;
  }

  lemma DeletedResolves(ps: seq<string>, k: nat)
    requires Single(ps) && FirstDot(ps, 0) == Some(k)
    ensures Resolve([], Deleted(ps, k)) == Resolve([], ps)
  {
    var front, rest := ps[..k], ps[k + 1..];
    assert ps == front + ([ps[k]] + rest);
    assert forall j :: 0 <= j < k ==> IsName(front[j]);
    ResolveDot(front, ps[k], rest);
    assert forall st :: Resolve(st, [""]) == st by {
      assert [""][1..] == [];
    }
    hide Resolve;
    if ps[k] == "." {
      if rest == [] {
        assert Deleted(ps, k) == front + [""];
        ResolveDot(front, ".", [""]);
        ResolveDot(front, ".", []);
        assert front + [] == front;
        ResolveNames([], front);
      }
    } else {
      var q := if k == 0 then [] else front[..k - 1];
      ResolveDot(q, "..", rest);
      assert q == if k == 0 then [] else ps[..k - 1];
      if q + rest == [] {
        ResolveNames([], []);
      }
    }
  }

  lemma DeletedSingle(ps: seq<string>, k: nat)
    requires Single(ps) && FirstDot(ps, 0) == Some(k)
    ensures Single(Deleted(ps, k))
  {
  }

  /** Deleting the first dot piece does not change the meaning. */
  lemma DeletedKeepsCanon(ps: seq<string>, k: nat)
    requires Single(ps) && FirstDot(ps, 0) == Some(k)
    ensures Single(Deleted(ps, k)) && Canon(Deleted(ps, k)) == Canon(ps)
  {
    DeletedSingle(ps, k);
    DeletedResolves(ps, k);
    hide Resolve, Single, FirstDot;
    var d := Deleted(ps, k);
    if k + 1 < |ps| {
      assert d[|d| - 1] == ps[|ps| - 1];
    } else if ps[k] == ".." && k > 0 {
      if k > 1 {
        assert d == ps[..k - 1] + ps[k + 1..];
        assert d[|d| - 1] == ps[k - 2];
        LastIsName(ps, k);
      } else {
        ResolveNothing();
      }
    } else if ps[k] == ".." {
      ResolveNothing();
    }
  }

  lemma LastIsName(ps: seq<string>, k: nat)
    requires Single(ps) && FirstDot(ps, 0) == Some(k)
    ensures forall j :: 0 <= j < k ==> IsName(ps[j])
  {
  }

  lemma ResolveNothing()
    ensures Resolve([], [""]) == []
  {
    assert [""][1..] == [];
  }

  // ----- relative paths

  /** Where a relative path leads: some levels up, and then down the names. */
  datatype Place = Place(ups: nat, names: seq<string>)

  function Move(at: Place, p: string): Place {
    if p == "" || p == "." then at
    else if p != ".." then Place(at.ups, at.names + [p])
    else if at.names == [] then Place(at.ups + 1, [])
    else Place(at.ups, at.names[..|at.names| - 1])
  }

  function Climb(at: Place, ps: seq<string>): Place
    decreases |ps|
  {
    if ps == [] then at else Climb(Move(at, ps[0]), ps[1..])
  }

  const HERE := Place(0, [])

  /** The pieces of a relative path to a place; `ps` says what it looked like at its end. */
  function Pieces(at: Place, ps: seq<string>): (r: seq<string>)
    requires ps != [] && at.ups <= 1
    ensures r != []
  {
    var last := ps[|ps| - 1];
    if at == HERE then (if ps == [""] then [""] else if last == "." then ["."] else [".", ""])
    else (if at.ups == 1 then [".."] else []) + at.names + if last == "" || last == "." then [""] else []
  }

  /** What the source keeps of a place: the names, and of the levels up whether they are odd. */
  function Halved(at: Place): (r: Place)
    ensures r.ups <= 1
  {
    Place(at.ups % 2, at.names)
  }

  /** The pieces that the source leaves of a relative path. */
  function RelCanon(ps: seq<string>): (r: seq<string>)
    requires ps != []
    ensures r != []
  {
    Pieces(Halved(Climb(HERE, ps)), ps)
  }

  lemma {:induction false} ClimbAppend(at: Place, a: seq<string>, b: seq<string>)
    ensures Climb(at, a + b) == Climb(Climb(at, a), b)
    decreases |a|
  {
    if a == [] {
      assert a + b == b;
    } else {
      ClimbAppend(Move(at, a[0]), a[1..], b);
      assert (a + b)[1..] == a[1..] + b;
    }
  }

  /** Levels up at the start are levels up at the end. */
  lemma {:induction false} ClimbHigher(at: Place, d: nat, ps: seq<string>)
    ensures Climb(Place(at.ups + d, at.names), ps) == Place(Climb(at, ps).ups + d, Climb(at, ps).names)
    decreases |ps|
  {
    if ps != [] {
      ClimbHigher(Move(at, ps[0]), d, ps[1..]);
    }
  }

  lemma {:induction false} ClimbNames(at: Place, ps: seq<string>)
    requires forall k :: 0 <= k < |ps| ==> IsName(ps[k])
    ensures Climb(at, ps) == Place(at.ups, at.names + ps)
    decreases |ps|
  {
    if ps == [] {
      assert at.names + ps == at.names;
    } else {
      ClimbNames(Move(at, ps[0]), ps[1..]);
      assert at.names + [ps[0]] + ps[1..] == at.names + ps;
    }
  }

  lemma {:induction false} ClimbDropEmpty(at: Place, ps: seq<string>)
    requires ps != []
    ensures Climb(at, DropEmpty(ps)) == Climb(at, ps)
    decreases |ps|
  {
    if |ps| > 1 {
      ClimbDropEmpty(Move(at, ps[0]), ps[1..]);
      assert ([ps[0]] + DropEmpty(ps[1..]))[1..] == DropEmpty(ps[1..]);
    }
  }

  /** The pieces of a relative path: the first one is empty only if there is nothing else. */
  predicate Relative(ps: seq<string>) {
    Single(ps) && (ps[0] == "" ==> |ps| == 1)
  }

  /** The source deletes a `.` at the front, unless it is all there is. */
  predicate LeadingDot(ps: seq<string>) {
    |ps| > 1 && ps[0] == "." && ps != [".", ""]
  }

  /** What is left of a relative path when its dot piece k is deleted. */
  function RelDeleted(ps: seq<string>, k: nat): (r: seq<string>)
    requires 0 < k < |ps| && IsDot(ps[k])
    ensures r != []
  {
    if ps[k] == ".." && k == 1 && (ps[2..] == [] || ps[2..] == [""]) then [".", ""]
    else Deleted(ps, k)
  }

  /** The next deletion in a path. */
  function Step(abs: bool, ps: seq<string>): (r: Option<seq<string>>)
    requires ps != []
    ensures r.Some? ==> r.value != []
  {
    if abs then
      match FirstDot(ps, 0)
      case None => None
      case Some(k) => Some(Deleted(ps, k))
    else if LeadingDot(ps) then Some(ps[1..])
    else
      match FirstDot(ps, 1)
      case None => None
      case Some(k) => Some(RelDeleted(ps, k))
  }

  /** The front of a relative path that begins with no dot. */
  lemma ClimbFront(ps: seq<string>, k: nat)
    requires Relative(ps) && 0 < k < |ps| && ps[0] != "." && forall j :: 1 <= j < k ==> !IsDot(ps[j])
    ensures Climb(HERE, ps[..k]) == if ps[0] == ".." then Place(1, ps[1..k]) else Place(0, ps[..k])
  {
    var front := ps[..k];
    assert front[1..] == ps[1..k];
    ClimbNames(Move(HERE, ps[0]), front[1..]);
    assert [ps[0]] + front[1..] == front && [] + front[1..] == front[1..] && [] + [ps[0]] == [ps[0]];
    assert Climb(HERE, front) == Climb(Move(HERE, ps[0]), front[1..]);
  }

  lemma ClimbOne(at: Place, p: string, rest: seq<string>)
    ensures Climb(at, [p] + rest) == Climb(Move(at, p), rest)
  {
    hide Move;
    assert ([p] + rest)[1..] == rest;
  }

  lemma ClimbAt(ps: seq<string>, k: nat)
    requires k < |ps|
    ensures Climb(HERE, ps) == Climb(Move(Climb(HERE, ps[..k]), ps[k]), ps[k + 1..])
  {
    hide Climb, Move;
    assert ps == ps[..k] + ([ps[k]] + ps[k + 1..]);
    ClimbAppend(HERE, ps[..k], [ps[k]] + ps[k + 1..]);
    ClimbOne(Climb(HERE, ps[..k]), ps[k], ps[k + 1..]);
  }

  /** When two endings of a relative path to a place look alike. */
  lemma SamePieces(at: Place, ps: seq<string>, qs: seq<string>)
    requires ps != [] && qs != [] && ps != [""] && qs != [""] && at.ups <= 1
    requires var a, b := ps[|ps| - 1], qs[|qs| - 1];
             a == b || (at != HERE && a in {"", "."} && b in {"", "."})
                    || (at != HERE && a !in {"", "."} && b !in {"", "."})
    ensures Pieces(at, ps) == Pieces(at, qs)
  {
  }

  lemma DotClimbs(ps: seq<string>, k: nat)
    requires k < |ps| && ps[k] == "."
    ensures Climb(HERE, Deleted(ps, k)) == Climb(HERE, ps)
  {
    var front, rest := ps[..k], ps[k + 1..];
    ClimbAt(ps, k);
    if rest == [] {
      ClimbAppend(HERE, front, [""]);
      NothingMoves(Climb(HERE, front));
    } else {
      ClimbAppend(HERE, front, rest);
    }
  }

  lemma DotShape(ps: seq<string>, k: nat)
    requires Relative(ps) && ps[0] != "." && 0 < k < |ps| && ps[k] == "."
    ensures var d := Deleted(ps, k);
            && d != [] && Relative(d) && d != [""] && ps != [""]
            && if k + 1 == |ps| then d[|d| - 1] == "" else d[|d| - 1] == ps[|ps| - 1]
  {
    var d := Deleted(ps, k);
    assert d[0] == ps[0] != "";
    assert d != [""] && ps != [""] by {
      assert [""][0] == "";
    }
  }

  lemma RelDotKeeps(ps: seq<string>, k: nat)
    requires Relative(ps) && ps[0] != "." && FirstDot(ps, 1) == Some(k) && ps[k] == "."
    ensures Relative(Deleted(ps, k)) && RelCanon(Deleted(ps, k)) == RelCanon(ps)
  {
    hide FirstDot, Climb, Deleted, Pieces, Relative;
    DotShape(ps, k);
    DotClimbs(ps, k);
    if k + 1 == |ps| {
      RelNonEmpty(ps, k);
    }
    SamePieces(Halved(Climb(HERE, ps)), ps, Deleted(ps, k));
  }

  /** Where a dot piece at the end does not lead back. */
  lemma RelNonEmpty(ps: seq<string>, k: nat)
    requires Relative(ps) && ps[0] != "." && FirstDot(ps, 1) == Some(k) && k + 1 == |ps| && ps[k] == "."
    ensures Halved(Climb(HERE, ps)) != HERE
  {
    hide FirstDot;
    ClimbFront(ps, k);
    ClimbAt(ps, k);
    NothingMoves(Climb(HERE, ps[..k]));
  }

  lemma NothingMoves(at: Place)
    ensures Climb(at, []) == at == Climb(at, [""]) == Climb(at, ["."])
  {
    assert [""][1..] == [] && ["."][1..] == [];
  }

  lemma RelDotDotFront(ps: seq<string>, k: nat)
    requires Relative(ps) && ps[0] != "." && FirstDot(ps, 1) == Some(k) && ps[k] == ".."
    ensures Halved(Climb(HERE, ps)) == Halved(Climb(Climb(HERE, ps[..k - 1]), ps[k + 1..]))
  {
    hide FirstDot, Climb, Relative;
    ClimbFront(ps, k);
    ClimbAt(ps, k);
    NothingMoves(HERE);
    if k == 1 {
      assert ps[1..1] == [] && ps[..0] == [] && ps[..1][..0] == [];
      if ps[0] == ".." {
        ClimbHigher(HERE, 2, ps[2..]);
      }
    } else {
      ClimbFront(ps, k - 1);
      NamesBack(ps, k);
    }
  }

  lemma NamesBack(ps: seq<string>, k: nat)
    requires 1 < k <= |ps|
    ensures ps[1..k] != [] && ps[1..k][..|ps[1..k]| - 1] == ps[1..k - 1]
    ensures ps[..k][..|ps[..k]| - 1] == ps[..k - 1]
  {
  }

  lemma RelDotDotKeeps(ps: seq<string>, k: nat)
    requires Relative(ps) && ps[0] != "." && FirstDot(ps, 1) == Some(k) && ps[k] == ".."
    ensures Relative(RelDeleted(ps, k)) && RelCanon(RelDeleted(ps, k)) == RelCanon(ps)
  {
    hide FirstDot, Climb, RelDeleted, Pieces, Relative;
    var d, front, rest := RelDeleted(ps, k), ps[..k - 1], ps[k + 1..];
    RelDotDotFront(ps, k);
    DotDotShape(ps, k);
    if k > 1 && rest == [] {
      ClimbFront(ps, k - 1);
      NotHere(ps, k - 1);
    }
    if k == 1 && (rest == [] || rest == [""]) {
      NothingMoves(HERE);
      DotSlashIsHere();
      NothingToPieces(ps);
    } else {
      ClimbAppend(HERE, front, rest);
      if rest == [] {
        NothingMoves(Climb(HERE, front));
      }
      SamePieces(Halved(Climb(HERE, ps)), ps, d);
    }
  }

  lemma NotHere(ps: seq<string>, k: nat)
    requires 0 < k < |ps|
    ensures Halved(if ps[0] == ".." then Place(1, ps[1..k]) else Place(0, ps[..k])) != HERE
  {
  }

  lemma NothingToPieces(ps: seq<string>)
    requires |ps| > 1 && ps[|ps| - 1] != "."
    ensures Pieces(HERE, ps) == [".", ""] == Pieces(HERE, [".", ""])
  {
  }

  /** What is left when a name and a `..` behind it are deleted. */
  lemma DotDotShape(ps: seq<string>, k: nat)
    requires Relative(ps) && ps[0] != "." && FirstDot(ps, 1) == Some(k) && ps[k] == ".."
    ensures var d, front, rest := RelDeleted(ps, k), ps[..k - 1], ps[k + 1..];
            && Relative(d) && ps != [""] && |ps| > 1 && (k == 1 ==> front == [])
            && if k == 1 && (rest == [] || rest == [""]) then d == [".", ""]
               else
                 && d == front + rest && d != [""]
                 && if rest == [] then k > 1 && d[|d| - 1] !in {"", "."} && ps[|ps| - 1] !in {"", "."}
                    else d[|d| - 1] == ps[|ps| - 1]
  {
    hide FirstDot, RelDeleted, Relative;
    if k == 1 {
      FirstParentShape(ps);
    } else {
      LaterParentShape(ps, k);
    }
  }

  lemma FirstParentShape(ps: seq<string>)
    requires Relative(ps) && |ps| > 1 && ps[1] == ".."
    ensures var d, rest := RelDeleted(ps, 1), ps[2..];
            && Relative(d) && ps != [""] && ps[..0] == []
            && if rest == [] || rest == [""] then d == [".", ""]
               else d == [] + rest && d != [""] && d[|d| - 1] == ps[|ps| - 1]
  {
    var rest := ps[2..];
    assert [] + rest == rest;
    assert rest != [] && rest[0] == "" ==> rest == [rest[0]];
  }

  lemma LaterParentShape(ps: seq<string>, k: nat)
    requires Relative(ps) && 1 < k < |ps| && ps[k] == ".." && ps[0] != "." && forall j :: 1 <= j < k ==> !IsDot(ps[j])
    ensures var d, front, rest := RelDeleted(ps, k), ps[..k - 1], ps[k + 1..];
            && Relative(d) && ps != [""] && d == front + rest && d != [""]
            && if rest == [] then d[|d| - 1] !in {"", "."} && ps[|ps| - 1] !in {"", "."}
               else d[|d| - 1] == ps[|ps| - 1]
  {
    var front, rest := ps[..k - 1], ps[k + 1..];
    assert (front + rest)[0] == ps[0] != "";
    assert rest == [] ==> (front + rest)[|front| - 1] == ps[k - 2];
  }

  lemma DotSlashIsHere()
    ensures Climb(HERE, [".", ""]) == HERE && Relative([".", ""])
  {
    NothingMoves(HERE);
    assert [".", ""][1..] == [""];
  }

  /** A deletion keeps what the source makes of the path. */
  lemma StepKeepsRelative(ps: seq<string>)
    requires Relative(ps) && Step(false, ps).Some?
    ensures var qs := Step(false, ps).value; Relative(qs) && RelCanon(qs) == RelCanon(ps)
  {
    hide FirstDot, RelCanon, RelDeleted, Deleted;
    if LeadingDot(ps) {
      LeadingDotKeeps(ps);
    } else {
      var k := FirstDot(ps, 1).value;
      if ps[0] != "." {
        if ps[k] == "." {
          RelDotKeeps(ps, k);
          DotIsDeleted(ps, k);
        } else {
          RelDotDotKeeps(ps, k);
        }
      }
    }
  }

  lemma DotIsDeleted(ps: seq<string>, k: nat)
    requires 0 < k < |ps| && ps[k] == "."
    ensures RelDeleted(ps, k) == Deleted(ps, k)
  {
  }

  lemma LeadingDotKeeps(ps: seq<string>)
    requires Relative(ps) && LeadingDot(ps)
    ensures Relative(ps[1..]) && RelCanon(ps[1..]) == RelCanon(ps)
  {
    assert ps[1..][|ps| - 2] == ps[|ps| - 1];
    assert ps == [".", ""] || ps[1..] != [""] by {
      assert ps == [ps[0]] + ps[1..];
    }
  }

  /** Where nothing is deleted any more the source is through. */
  lemma NoStepIsCanon(ps: seq<string>)
    requires Relative(ps) && Step(false, ps) == None
    ensures RelCanon(ps) == ps
  {
    if |ps| == 1 {
      OneIsCanon(ps);
    } else if ps[0] == "." {
      DotSlashIsHere();
      NothingToPieces(ps);
      hide FirstDot, Climb, Pieces;
    } else {
      NoDotIsCanon(ps);
    }
  }

  lemma OneIsCanon(ps: seq<string>)
    requires |ps| == 1
    ensures RelCanon(ps) == ps
  {
    assert ps == [ps[0]] && ps[1..] == [];
    assert Climb(HERE, ps) == Move(HERE, ps[0]);
    assert [] + [ps[0]] == [ps[0]];
    assert [] + [ps[0]] + [] == [ps[0]] && [".."] + [] + [] == [".."];
  }

  lemma NoDotIsCanon(ps: seq<string>)
    requires Relative(ps) && |ps| > 1 && ps[0] != "." && FirstDot(ps, 1) == None
    ensures RelCanon(ps) == ps
  {
    hide FirstDot, Climb, Pieces, Move, Halved, Single;
    var n := |ps| - 1;
    ClimbFront(ps, n);
    ClimbAt(ps, n);
    assert ps[n + 1..] == [];
    NothingMoves(Move(Climb(HERE, ps[..n]), ps[n]));
    if ps[0] == ".." {
      PiecesOf(1, ps[..n], ps[1..n], ps);
    } else {
      PiecesOf(0, ps[..n], ps[..n], ps);
    }
  }

  lemma PiecesOf(ups: nat, front: seq<string>, names: seq<string>, ps: seq<string>)
    requires front != [] && ps != [] && ps == front + [ps[|ps| - 1]] && !IsDot(ps[|ps| - 1])
    requires if ups == 1 then front == [".."] + names else ups == 0 && front == names
    ensures Pieces(Halved(Move(Place(ups, names), ps[|ps| - 1])), ps) == ps
  {
    var p := ps[|ps| - 1];
    if p == "" {
      assert [] + names == names;
    } else {
      MorePieces(names, p);
      assert ps != [""];
    }
  }

  lemma MorePieces(names: seq<string>, p: string)
    ensures [] + (names + [p]) + [] == names + [p]
    ensures [".."] + (names + [p]) + [] == [".."] + names + [p]
  {
  }

  /** From a base directory a relative path leads up from it and down the names; the root absorbs `..`. */
  function Reached(base: seq<string>, at: Place): seq<string> {
    (if at.ups <= |base| then base[..|base| - at.ups] else []) + at.names
  }

  lemma {:induction false} ResolveReaches(base: seq<string>, at: Place, ps: seq<string>)
    ensures Resolve(Reached(base, at), ps) == Reached(base, Climb(at, ps))
    decreases |ps|
  {
    if ps != [] {
      ResolveReaches(base, Move(at, ps[0]), ps[1..]);
      MoveReaches(base, at, ps[0]);
      var stack := Reached(base, at);
      assert Resolve(stack, ps) == Resolve(Resolve(stack, [ps[0]]), ps[1..]) by {
        assert ps == [ps[0]] + ps[1..];
        ResolveAppend(stack, [ps[0]], ps[1..]);
      }
    }
  }

  lemma MoveReaches(base: seq<string>, at: Place, p: string)
    ensures Resolve(Reached(base, at), [p]) == Reached(base, Move(at, p))
  {
    var stack := Reached(base, at);
    var kept := if at.ups <= |base| then base[..|base| - at.ups] else [];
    assert [p][1..] == [];
    assert p != "" && p != "." && p != ".." ==> kept + at.names + [p] == kept + (at.names + [p]);
    if p == ".." {
      if at.names == [] {
        assert stack == kept;
      } else {
        assert stack[..|stack| - 1] == kept + at.names[..|at.names| - 1];
      }
    }
  }

  /** Climbing over the pieces of a place leads there. */
  lemma PiecesLead(at: Place, ps: seq<string>)
    requires ps != [] && at.ups <= 1 && AllNames(at.names)
    ensures Climb(HERE, Pieces(at, ps)) == at
  {
    var up := if at.ups == 1 then [".."] else [];
    var end := if ps[|ps| - 1] == "" || ps[|ps| - 1] == "." then [""] else [];
    NothingMoves(HERE);
    DotSlashIsHere();
    if at != HERE {
      ClimbAppend(HERE, up + at.names, end);
      ClimbAppend(HERE, up, at.names);
      assert [".."][1..] == [];
      assert Climb(HERE, up) == Place(at.ups, []);
      ClimbNames(Place(at.ups, []), at.names);
      assert [] + at.names == at.names;
      NothingMoves(at);
    }
  }

  predicate Unslashed(ps: seq<string>) {
    forall k :: 0 <= k < |ps| ==> '/' !in ps[k]
  }

  predicate AllNames(ps: seq<string>) {
    forall k :: 0 <= k < |ps| ==> IsName(ps[k]) && '/' !in ps[k]
  }

  lemma {:induction false} ClimbedNames(at: Place, ps: seq<string>)
    requires AllNames(at.names) && Unslashed(ps)
    ensures AllNames(Climb(at, ps).names)
    decreases |ps|
  {
    if ps != [] {
      ClimbedNames(Move(at, ps[0]), ps[1..]);
    }
  }

  /** The collapsed path leads where the path leads, from every directory, exactly when the path
      climbs at most one level above where it starts. */
  lemma RelativeExact(ps: seq<string>)
    requires ps != [] && Unslashed(ps)
    ensures (forall base :: Resolve(base, RelCanon(ps)) == Resolve(base, ps)) <==> Climb(HERE, ps).ups <= 1
  {
    hide Resolve, Climb, Pieces, Reached, Move, AllNames, Unslashed;
    var at := Climb(HERE, ps);
    NoNames();
    ClimbedNames(HERE, ps);
    PiecesLead(Halved(at), ps);
    forall base: seq<string>
      ensures Resolve(base, RelCanon(ps)) == Reached(base, Halved(at)) && Resolve(base, ps) == Reached(base, at)
    {
      HereReaches(base);
      ResolveReaches(base, HERE, RelCanon(ps));
      ResolveReaches(base, HERE, ps);
    }
    if at.ups > 1 {
      var base := seq(at.ups, _ => "d");
      ReachedLength(base, at);
      ReachedLength(base, Halved(at));
      assert Resolve(base, RelCanon(ps)) != Resolve(base, ps);
    }
  }

  lemma NoNames()
    ensures AllNames([])
  {
  }

  lemma HereReaches(base: seq<string>)
    ensures Reached(base, HERE) == base
  {
    assert base[..|base|] + [] == base;
  }

  lemma ReachedLength(base: seq<string>, at: Place)
    requires at.ups <= |base|
    ensures |Reached(base, at)| == |base| - at.ups + |at.names|
  {
  }

  /** The pieces of a place are what is made of them again. */
  lemma PiecesAgain(at: Place, ps: seq<string>)
    requires ps != [] && at.ups <= 1 && AllNames(at.names)
    ensures var qs := Pieces(at, ps); Pieces(at, qs) == qs && Unslashed(qs)
  {
    var last := ps[|ps| - 1];
    var up := if at.ups == 1 then [".."] else [];
    var end := if last == "" || last == "." then [""] else [];
    if at != HERE && end == [] {
      assert (up + at.names + [])[|up| + |at.names| - 1] !in {"", "."};
    }
  }

  /** The collapsed text has the pieces that were meant, is a fixed point, and leads where the path
      leads exactly when that climbs at most one level. */
  lemma CollapsedRelative(s: string)
    ensures var ps, qs := Split(s), RelCanon(Split(s));
            && Split(Text(qs)[1..]) == qs && RelCanon(qs) == qs
            && ((forall base :: Resolve(base, qs) == Resolve(base, ps)) <==> Climb(HERE, ps).ups <= 1)
  {
    hide Climb, Pieces, Resolve, Split, AllNames;
    var ps := Split(s);
    var at := Halved(Climb(HERE, ps));
    NoNames();
    ClimbedNames(HERE, ps);
    RelativeExact(ps);
    PiecesLead(at, ps);
    PiecesAgain(at, ps);
    SplitOfText(RelCanon(ps));
    assert Halved(at) == at;
  }

  /** `../../b` collapses to `b`. */
  lemma TwoLevelsCancel()
    ensures RelCanon(["..", "..", "b"]) == ["b"] && Climb(HERE, ["..", "..", "b"]).ups == 2
  {
    var ps := ["..", "..", "b"];
    assert ps[1..] == ["..", "b"] && ps[1..][1..] == ["b"] && ps[1..][1..][1..] == [];
    assert Climb(HERE, ps) == Climb(Place(1, []), ps[1..]) == Climb(Place(2, []), ["b"]) == Place(2, ["b"]) by {
      assert [] + ["b"] == ["b"];
    }
    assert [] + ["b"] + [] == ["b"];
  }

  // ----- the buffer

  /** Where piece k starts, with its slash. */
  function Offset(ps: seq<string>, k: nat): nat
    requires k <= |ps|
  {
    |Text(ps[..k])|
  }

  lemma {:induction false} TextAppend(a: seq<string>, b: seq<string>)
    ensures Text(a + b) == Text(a) + Text(b)
    decreases |a|
  {
    if a == [] {
      assert a + b == b;
    } else {
      TextAppend(a[1..], b);
      assert (a + b)[1..] == a[1..] + b && (a + b)[0] == a[0];
    }
  }

  /** The text in front of piece k, the piece, and the text behind it. */
  lemma PieceAt(ps: seq<string>, k: nat)
    requires k < |ps|
    ensures var o := Offset(ps, k);
            && o + 1 + |ps[k]| == Offset(ps, k + 1) <= |Text(ps)|
            && Text(ps)[..o] == Text(ps[..k])
            && Text(ps)[o] == '/'
            && Text(ps)[o + 1..o + 1 + |ps[k]|] == ps[k]
            && Text(ps)[o + 1 + |ps[k]|..] == Text(ps[k + 1..])
  {
    assert ps == ps[..k] + ps[k..];
    TextAppend(ps[..k], ps[k..]);
    assert ps[..k + 1] == ps[..k] + [ps[k]];
    TextAppend(ps[..k], [ps[k]]);
    TextCons(ps[k], ps[k + 1..]);
    TextCons(ps[k], []);
    assert ps[k..] == [ps[k]] + ps[k + 1..] && [ps[k]] + [] == [ps[k]];
    SlicesAround(Text(ps[..k]), ps[k], Text(ps[k + 1..]));
  }

  lemma SlicesAround(a: string, p: string, c: string)
    ensures var t := a + ("/" + p + c);
            && |a + ("/" + p)| == |a| + 1 + |p| <= |t|
            && t[..|a|] == a && t[|a|] == '/' && t[|a| + 1..|a| + 1 + |p|] == p && t[|a| + 1 + |p|..] == c
  {
    var u := "/" + p + c;
    var t := a + u;
    assert t[|a|..] == u && u[1..1 + |p|] == p && u[1 + |p|..] == c;
    assert t[|a| + 1..|a| + 1 + |p|] == u[1..1 + |p|];
    assert t[|a| + 1 + |p|..] == u[1 + |p|..];
  }

  lemma TextCons(p: string, ps: seq<string>)
    ensures Text([p] + ps) == "/" + p + Text(ps)
    ensures Text([]) == ""
  {
    assert ([p] + ps)[1..] == ps;
  }

  // ----- removing `//`

  function Squeeze(s: string): string {
    if |s| < 2 then s
    else if s[0] == '/' && s[1] == '/' then Squeeze(s[1..])
    else [s[0]] + Squeeze(s[1..])
  }

  /** All empty pieces but the last one dropped. */
  function DropEmpty(ps: seq<string>): (r: seq<string>)
    requires ps != []
    ensures r != [] && r[|r| - 1] == ps[|ps| - 1]
  {
    if |ps| == 1 then ps
    else if ps[0] == "" then DropEmpty(ps[1..])
    else [ps[0]] + DropEmpty(ps[1..])
  }

  lemma SqueezeChar(c: char, u: string)
    requires c != '/'
    ensures Squeeze([c] + u) == [c] + Squeeze(u)
  {
    assert ([c] + u)[1..] == u;
  }

  lemma {:induction false} SqueezePiece(p: string, t: string)
    requires '/' !in p && (t == "" || t[0] == '/')
    ensures Squeeze(p + t) == p + Squeeze(t)
    decreases |p|
  {
    if p == "" {
      assert p + t == t && p + Squeeze(t) == Squeeze(t);
    } else {
      var q := p[1..];
      assert p[0] in p && forall c :: c in q ==> c in p;
      SqueezePiece(q, t);
      Associate([p[0]], q, t);
      Associate([p[0]], q, Squeeze(t));
      assert p == [p[0]] + q;
      SqueezeChar(p[0], q + t);
    }
  }

  lemma SqueezeSlash(u: string)
    ensures Squeeze("/" + u) == if u != "" && u[0] == '/' then Squeeze(u) else "/" + Squeeze(u)
  {
    assert ("/" + u)[1..] == u;
  }

  lemma {:induction false} SqueezeText(ps: seq<string>)
    requires ps != [] && forall k :: 0 <= k < |ps| ==> '/' !in ps[k]
    ensures Squeeze(Text(ps)) == Text(DropEmpty(ps)) && Single(DropEmpty(ps))
    decreases |ps|
  {
    var p, rest := ps[0], ps[1..];
    assert ps == [p] + rest;
    TextCons(p, rest);
    TextNonEmpty(rest);
    hide Squeeze, Text, Single;
    SqueezeFront(p, Text(rest));
    if rest != [] {
      SqueezeText(rest);
      TextCons(p, DropEmpty(rest));
      SingleFirst(p, DropEmpty(rest));
    } else {
      SingleLast(ps);
    }
  }

  lemma SingleFirst(p: string, ps: seq<string>)
    requires Single(ps) && '/' !in p
    ensures p != "" ==> Single([p] + ps)
  {
  }

  lemma SingleLast(ps: seq<string>)
    requires |ps| == 1 && '/' !in ps[0]
    ensures Single(ps)
  {
  }

  lemma SqueezeFront(p: string, t: string)
    requires '/' !in p && (t == "" || t[0] == '/')
    ensures Squeeze("") == ""
    ensures Squeeze("/" + p + t) == if p == "" && t != "" then Squeeze(t) else "/" + p + Squeeze(t)
  {
    assert Squeeze("") == "";
    hide Squeeze;
    SqueezePiece(p, t);
    var u := p + t;
    SqueezeSlash(u);
    Associate("/", p, t);
    Associate("/", p, Squeeze(t));
    if p == "" {
      assert u == t;
    } else {
      assert u[0] == p[0] && p[0] in p;
    }
  }

  lemma {:induction false} DropEmptyResolves(stack: seq<string>, ps: seq<string>)
    requires ps != []
    ensures Resolve(stack, DropEmpty(ps)) == Resolve(stack, ps)
    decreases |ps|
  {
    if |ps| > 1 {
      var next := if ps[0] == "" || ps[0] == "." then stack
                  else if ps[0] == ".." then (if stack == [] then [] else stack[..|stack| - 1])
                  else stack + [ps[0]];
      DropEmptyResolves(next, ps[1..]);
      assert ([ps[0]] + DropEmpty(ps[1..]))[1..] == DropEmpty(ps[1..]);
    }
  }

  lemma OffsetEnd(ps: seq<string>)
    ensures Offset(ps, |ps|) == |Text(ps)|
  {
    assert ps[..|ps|] == ps;
  }

  lemma TextNonEmpty(ps: seq<string>)
    ensures ps != [] ==> IsAbsolute(Text(ps))
  {
  }

  // ----- the source

  /** A drive letter, a colon and a backslash. */
  predicate IsDos(s: string) {
    At(s, 0) != NUL && At(s, 1) == ':' && At(s, 2) == '\\'
  }

  /** The path made of pieces. */
  function Shown(abs: bool, ps: seq<string>): string
    requires ps != []
  {
    if abs then Text(ps) else Text(ps)[1..]
  }

  /** The first piece that the source may delete: the one at the front of a relative path stays. */
  function From(abs: bool): nat {
    if abs then 0 else 1
  }

  /** Where the scan stands in Text(ps): pieces before `next` are names, and i is in piece next - 1
      or at the slash of piece next. */
  ghost predicate Scanned(ps: seq<string>, from: nat, next: nat, i: nat, sp: nat) {
    && from <= next <= |ps| && i <= Offset(ps, next)
    && (forall k :: from <= k < next ==> !IsDot(ps[k]))
    && (if next == 0 then sp == 0 else sp == Offset(ps, next - 1) && sp < i)
  }

  /** The place in Text(ps) of the last slash that was seen at sp; a relative path has one before its front. */
  function SlashAt(abs: bool, sp: nat): nat {
    if abs || sp == 0 then sp else sp + 1
  }

  /** The buffer after the move, terminator included. */
  lemma PulledText(before: seq<char>, after: seq<char>, t: string, off: nat, m: nat)
    requires |after| == |before| && off + m <= |t| < |before| && before[..|t|] == t && before[|t|] == NUL
    requires after[..off] == before[..off]
    requires after[off..off + (|t| - off - m + 1)] == before[off + m..|t| + 1]
    ensures var u := t[..off] + t[off + m..]; after[..|u|] == u && after[|u|] == NUL
  {
    var n := |t| - off - m;
    var moved := after[off..off + n + 1];
    assert after[off + n] == moved[n] == before[|t|];
    assert after[off..off + n] == moved[..n] == before[off + m..|t|] == t[off + m..];
    assert after[..off] == before[..off] == t[..off];
    assert after[..off + n] == after[..off] + after[off..off + n];
  }

  /** What one call of the source does: nothing, or the next deletion. */
  ghost predicate Outcome(abs: bool, ps: seq<string>, before: string, after: string, r: bool)
    requires ps != []
  {
    && (if r then |after| < |before| else after == before)
    && match Step(abs, ps)
       case None => !r
       case Some(qs) => r && after == Shown(abs, qs)
  }

  ghost function SqueezedFrom(t: string, i: nat): string
    requires i <= |t|
  {
    t[..i] + Squeeze(t[i..])
  }

  lemma SqueezedEnds(t: string)
    ensures SqueezedFrom(t, 0) == Squeeze(t) && SqueezedFrom(t, |t|) == t
  {
    assert t[0..] == t && t[..|t|] == t;
  }

  lemma SqueezeStep(t: string, i: nat)
    requires i < |t|
    ensures if t[i] == '/' && At(t, i + 1) == '/' then SqueezedFrom(t[..i] + t[i + 1..], i) == SqueezedFrom(t, i)
            else SqueezedFrom(t, i + 1) == SqueezedFrom(t, i)
  {
    assert t[i..][1..] == t[i + 1..];
    if t[i] == '/' && At(t, i + 1) == '/' {
      var u := t[..i] + t[i + 1..];
      assert u[..i] == t[..i] && u[i..] == t[i + 1..];
    } else {
      assert Squeeze(t[i..]) == [t[i]] + Squeeze(t[i + 1..]);
      assert t[..i + 1] == t[..i] + [t[i]];
    }
  }

  class PathBuffer {
    const data: array<char>
    ghost var text: string

    ghost predicate Valid()
      reads this, data
    {
      |text| < data.Length && data[..|text|] == text && data[|text|] == NUL && NoNul(text)
    }

    constructor (path: string, size: nat)
      requires NoNul(path) && |path| < size
      ensures Valid() && text == path && fresh(data)
    {
      data := new char[size](k => At(path, k));
      text := path;
      new;
      assert data[..|path|] == path;
    }

    /** The characters as the source reads them. */
    lemma Reads(i: nat)
      requires Valid() && i <= |text|
      ensures data[i] == At(text, i) && (data[i] == NUL <==> i == |text|)
    {
      if i < |text| {
        assert data[i] == data[..|text|][i];
      }
    }

    method StrLen(off: nat) returns (l: nat)
      requires Valid() && off <= |text|
      ensures l == |text| - off
    {
      l := 0;
      Reads(off);
      while data[off + l] != NUL
        invariant off + l <= |text|
        invariant data[off + l] == NUL <==> off + l == |text|
        decreases |text| - l
      {
        l := l + 1;
        Reads(off + l);
      }
    }

    /** memmove of `count` characters from off + m down to off. */
    method MoveDown(off: nat, m: nat, count: nat)
      requires off + m + count <= data.Length
      modifies data
      ensures data[..off] == old(data[..off])
      ensures data[off..off + count] == old(data[off + m..off + m + count])
    {
      for j := 0 to count
        invariant data[..off] == old(data[..off])
        invariant data[off..off + j] == old(data[off + m..off + m + j])
        invariant forall k :: off + j <= k < data.Length ==> data[k] == old(data[k])
      {
        data[off + j] := data[off + m + j];
      }
    }

    /** Delete n characters at off, or all that are left. */
    method StrPull(off: nat, n: nat)
      requires Valid() && off <= |text|
      modifies this`text, data
      ensures Valid()
      ensures var t := old(text);
              text == t[..off] + if off + n <= |t| then t[off + n..] else ""
    {
      var l := StrLen(off);
      var m := if n > l then l else n;
      ghost var t := text;
      MoveDown(off, m, l - m + 1);
      text := t[..off] + t[off + m..];
      PulledText(old(data[..]), data[..], t, off, m);
    }

    method StrCpy(src: string)
      requires Valid() && |src| < data.Length && NoNul(src)
      modifies this`text, data
      ensures Valid() && text == src
    {
      for j := 0 to |src|
        invariant data[..j] == src[..j]
      {
        data[j] := src[j];
      }
      data[|src|] := NUL;
      text := src;
    }

    method HasSlash() returns (r: bool)
      requires Valid()
      ensures r <==> '/' in text
    {
      var i := 0;
      Reads(0);
      while data[i] != NUL
        invariant 0 <= i <= |text| && '/' !in text[..i]
        invariant data[i] == At(text, i) && (data[i] == NUL <==> i == |text|)
        decreases |text| - i
      {
        if data[i] == '/' {
          return true;
        }
        i := i + 1;
        Reads(i);
      }
      assert text[..i] == text;
      return false;
    }

    /** The first loop of path_collapse. */
    method RemoveDoubles()
      requires Valid()
      modifies this`text, data
      ensures Valid() && text == Squeeze(old(text))
    {
      hide SqueezedFrom;
      var i := 0;
      SqueezedEnds(text);
      Reads(0);
      while data[i] != NUL
        invariant Valid() && 0 <= i <= |text|
        invariant data[i] == At(text, i) && (data[i] == NUL <==> i == |text|)
        invariant SqueezedFrom(text, i) == Squeeze(old(text))
        decreases |text| - i
      {
        SqueezeStep(text, i);
        Reads(i + 1);
        if data[i] == '/' && data[i + 1] == '/' {
          StrPull(i, 1);
        } else {
          i := i + 1;
        }
        Reads(i);
      }
      SqueezedEnds(text);
    }

    /** Delete a name with the `..` behind it; an empty path becomes the root or `./`. */
    method DeleteParent(osp: nat, n: nat, abspath: bool)
      requires Valid() && osp + 3 <= |text| && 3 <= n
      modifies this`text, data
      ensures Valid() && |text| < |old(text)|
      ensures var rest := old(text)[..osp] + if osp + n <= |old(text)| then old(text)[osp + n..] else "";
              text == if rest == "" then (if abspath then "/" else "./") else rest
    {
      StrPull(osp, n);
      Reads(0);
      if data[0] == NUL {
        StrCpy(if abspath then "/" else "./");
      }
    }

    /** The body of collapse_one at a slash; false when the scan goes on. */
    method TrySlash(ghost ps: seq<string>, ghost next: nat, sp: nat, osp: nat, abspath: bool)
        returns (done: bool, r: bool)
      requires Valid() && osp <= sp < |text| && text[sp] == '/' && (abspath <==> text[0] == '/')
      requires ps != [] && Single(ps) && text == Shown(abspath, ps) && (abspath || (Relative(ps) && !LeadingDot(ps)))
      requires Scanned(ps, From(abspath), next, sp + From(abspath), SlashAt(abspath, osp))
      modifies this`text, data
      ensures Valid()
      ensures done ==> Outcome(abspath, ps, old(text), text, r)
      ensures !done ==> text == old(text) && sp + 1 < |text|
                        && Scanned(ps, From(abspath), next + 1, sp + 2 + From(abspath), sp + From(abspath))
    {
      hide Scanned, Single, Text, FirstDot, Deleted, RelDeleted, Offset, Relative, LeadingDot, Shown, Step;
      var i := sp + 1;
      if abspath {
        AtSlashAbsolute(text, ps, next, sp, osp);
      } else {
        AtSlashRelative(text, ps, next, sp, osp);
      }
      Reads(i);
      if data[i] == NUL {
        return true, false;
      }
      Reads(i + 1);
      if data[i] == '.' && (data[i + 1] == '/' || data[i + 1] == NUL) {
        StrPull(i, 2);
        return true, true;
      }
      if data[i] == '.' && data[i + 1] == '.' {
        Reads(i + 2);
        if data[i + 2] == '/' || data[i + 2] == NUL {
          if data[i + 2] == NUL && i == 1 {
            StrCpy("/");
            return true, true;
          }
          Reads(osp);
          var x := if osp == 0 && data[osp] != '/' then 1 else 0;
          DeleteParent(osp, sp + 3 + x - osp, abspath);
          return true, true;
        }
      }
      return false, false;
    }

    /** collapse_one: one deletion in a path whose pieces are ps. */
    method CollapseOne(ghost ps: seq<string>) returns (r: bool)
      requires Valid() && ps != [] && Single(ps) && text == Shown(IsAbsolute(text), ps)
      requires IsAbsolute(text) || Relative(ps)
      modifies this`text, data
      ensures Valid() && Outcome(IsAbsolute(old(text)), ps, old(text), text, r)
    {
      hide Scanned, Single, Text, FirstDot, Deleted, RelDeleted, Offset, NoNul, Relative, LeadingDot, Shown, Step,
           Outcome;
      var hasSlash := HasSlash();
      if !hasSlash {
        OnePiece(text, ps);
        return false;
      }
      Reads(0);
      var abspath := data[0] == '/';
      FrontDot(text, ps);
      if data[0] == '.' {
        Reads(1);
        if data[1] == '/' {
          Reads(2);
          if data[2] != NUL {
            StrPull(0, 2);
            assert text == old(text)[2..];
            return true;
          }
        }
      }
      var sp, i: nat := 0, 0;
      ghost var next := From(abspath);
      ScanStart(abspath, ps);
      while data[i] != NUL
        invariant Valid() && text == old(text) && 0 <= sp <= i <= |text|
        invariant data[i] == At(text, i) && (data[i] == NUL <==> i == |text|)
        invariant Scanned(ps, From(abspath), next, i + From(abspath), SlashAt(abspath, sp))
        decreases |text| - i
      {
        InText(abspath, text, ps, i);
        if data[i] == '/' {
          var osp := sp;
          sp := i;
          i := i + 1;
          var done;
          done, r := TrySlash(ps, next, sp, osp, abspath);
          if done {
            return;
          }
          next := next + 1;
        } else {
          InPiece(ps, From(abspath), next, i + From(abspath), SlashAt(abspath, sp));
        }
        i := i + 1;
        Reads(i);
      }
      InText(abspath, text, ps, i);
      AtEnd(ps, From(abspath), next, i + From(abspath), SlashAt(abspath, sp));
      NothingLeft(abspath, text, ps);
      return false;
    }

    /** path_collapse of a path without a drive letter. */
    method Collapse()
      requires Valid() && !IsDos(text)
      modifies this`text, data
      ensures Valid()
      ensures text == if IsAbsolute(old(text)) then Text(Canon(Split(old(text)[1..])))
                      else Shown(false, RelCanon(Split(old(text))))
    {
      hide Canon, RelCanon, Split, Text, Single, Relative, Step, Squeeze, DropEmpty;
      ghost var abs, start := IsAbsolute(text), Started(text);
      SqueezedPath(text);
      RemoveDoubles();
      ghost var ps := DropEmpty(start);
      while true
        invariant Valid() && ps != [] && Single(ps) && text == Shown(abs, ps) && IsAbsolute(text) == abs
        invariant abs || Relative(ps)
        invariant if abs then Canon(ps) == Canon(start) else RelCanon(ps) == RelCanon(start)
        decreases |text|
      {
        var changed := CollapseOne(ps);
        if !changed {
          break;
        }
        StepKeeps(abs, ps);
        ps := Step(abs, ps).value;
        ShownIs(abs, ps);
      }
      StepKeeps(abs, ps);
    }
  }

  // ----- the cases of the scan

  lemma ScanStart(abs: bool, ps: seq<string>)
    requires ps != []
    ensures Scanned(ps, From(abs), From(abs), From(abs), 0)
  {
    TextCons(ps[0], []);
    assert ps[..1] == [ps[0]] + [] && ps[..0] == [];
  }

  lemma SlicedAt(t: string, o: nat, p: string)
    requires o + |p| <= |t| && t[o..o + |p|] == p
    ensures forall j :: 0 <= j < |p| ==> t[o + j] == p[j]
  {
    forall j | 0 <= j < |p|
      ensures t[o + j] == p[j]
    {
      assert t[o + j] == t[o..o + |p|][j];
    }
  }

  /** The characters of piece k. */
  lemma PieceChars(ps: seq<string>, k: nat)
    requires Single(ps) && k < |ps|
    ensures forall j :: 0 <= j < |ps[k]| ==>
              Offset(ps, k) + 1 + j < |Text(ps)| && Text(ps)[Offset(ps, k) + 1 + j] == ps[k][j] != '/'
  {
    hide Text, Offset;
    PieceAt(ps, k);
    var p := ps[k];
    SlicedAt(Text(ps), Offset(ps, k) + 1, p);
    assert forall j :: 0 <= j < |p| ==> p[j] in p;
  }

  /** A character inside a piece is no slash. */
  lemma InsidePiece(ps: seq<string>, k: nat, i: nat)
    requires Single(ps) && k < |ps| && Offset(ps, k) < i < Offset(ps, k + 1)
    ensures i < |Text(ps)| && Text(ps)[i] != '/'
  {
    PieceAt(ps, k);
    PieceChars(ps, k);
    var j := i - Offset(ps, k) - 1;
    assert Text(ps)[Offset(ps, k) + 1 + j] == ps[k][j];
  }

  /** A slash is the start of the next piece. */
  lemma SlashStartsPiece(ps: seq<string>, from: nat, next: nat, s: nat, sp: nat)
    requires Single(ps) && Scanned(ps, from, next, s, sp) && s < |Text(ps)| && Text(ps)[s] == '/'
    ensures next < |ps| && s == Offset(ps, next)
    ensures if next == 0 then s == 0 else sp == Offset(ps, next - 1)
  {
    OffsetEnd(ps);
    if next > 0 {
      if s < Offset(ps, next) {
        InsidePiece(ps, next - 1, s);
      }
    }
  }

  /** Any other character lies inside the piece. */
  lemma InPiece(ps: seq<string>, from: nat, next: nat, i: nat, sp: nat)
    requires Single(ps) && Scanned(ps, from, next, i, sp) && i < |Text(ps)| && Text(ps)[i] != '/'
    ensures Scanned(ps, from, next, i + 1, sp)
  {
    OffsetEnd(ps);
    TextNonEmpty(ps);
    if i == Offset(ps, next) && next < |ps| {
      PieceAt(ps, next);
    }
  }

  lemma AtEnd(ps: seq<string>, from: nat, next: nat, i: nat, sp: nat)
    requires Single(ps) && Scanned(ps, from, next, i, sp) && i == |Text(ps)|
    ensures FirstDot(ps, from) == None
  {
    OffsetEnd(ps);
    if next < |ps| {
      PieceAt(ps, next);
    }
  }

  /** What the first characters behind a slash say about the piece. */
  lemma PieceStarts(ps: seq<string>, next: nat)
    requires Single(ps) && next < |ps| && NoNul(Text(ps))
    ensures var p, t, i := ps[next], Text(ps), Offset(ps, next) + 1;
            && i + |p| <= |t| && (next + 1 == |ps| <==> i + |p| == |t|)
            && (p == "" <==> i == |t|)
            && (p == "." <==> At(t, i) == '.' && At(t, i + 1) in {'/', NUL})
            && (p == ".." <==> At(t, i) == '.' && At(t, i + 1) == '.' && At(t, i + 2) in {'/', NUL})
  {
    hide Text, Offset;
    PieceAt(ps, next);
    PieceChars(ps, next);
    var p, t, i := ps[next], Text(ps), Offset(ps, next) + 1;
    if next + 1 < |ps| {
      PieceAt(ps, next + 1);
      assert p != "";
    } else {
      OffsetEnd(ps);
    }
    PieceLooks(t, i, p, next + 1 == |ps|);
  }

  lemma PieceLooks(t: string, i: nat, p: string, last: bool)
    requires i + |p| <= |t| && NoNul(t) && (last <==> i + |p| == |t|)
    requires forall j :: 0 <= j < |p| ==> t[i + j] == p[j] != '/'
    requires !last ==> t[i + |p|] == '/' && p != ""
    ensures && (p == "" <==> i == |t|)
            && (p == "." <==> At(t, i) == '.' && At(t, i + 1) in {'/', NUL})
            && (p == ".." <==> At(t, i) == '.' && At(t, i + 1) == '.' && At(t, i + 2) in {'/', NUL})
  {
    assert At(t, i + |p|) == if last then NUL else '/';
    assert |p| > 0 ==> At(t, i) == t[i + 0] == p[0];
    assert |p| > 1 ==> At(t, i + 1) == p[1];
    assert |p| > 2 ==> At(t, i + 2) == p[2] && p[2] in t;
  }

  lemma FirstDotIs(ps: seq<string>, from: nat, k: nat)
    requires from <= k <= |ps| && forall j :: from <= j < k ==> !IsDot(ps[j])
    ensures if k < |ps| && IsDot(ps[k]) then FirstDot(ps, from) == Some(k)
            else k == |ps| ==> FirstDot(ps, from) == None
  {
  }

  lemma EmptyIsLast(ps: seq<string>, k: nat)
    requires Single(ps) && k < |ps| && ps[k] == ""
    ensures k + 1 == |ps|
  {
  }

  /** All that the source decides at a slash s, by what stands behind it. */
  lemma AtSlash(ps: seq<string>, from: nat, next: nat, s: nat, osp: nat)
    requires Single(ps) && Scanned(ps, from, next, s, osp) && s < |Text(ps)| && Text(ps)[s] == '/' && NoNul(Text(ps))
    ensures var t, i := Text(ps), s + 1;
            if i == |t| then FirstDot(ps, from) == None
            else if t[i] == '.' && At(t, i + 1) in {'/', NUL} then
              && FirstDot(ps, from) == Some(next) && ps[next] == "." && s == Offset(ps, next)
              && t[..i] + (if i + 2 <= |t| then t[i + 2..] else "") == Text(Deleted(ps, FirstDot(ps, from).value))
            else if t[i] == '.' && At(t, i + 1) == '.' && At(t, i + 2) in {'/', NUL} then
              && FirstDot(ps, from) == Some(next) && ps[next] == ".." && s == Offset(ps, next)
              && (next > 0 ==> osp == Offset(ps, next - 1)) && i + 2 <= |t| && osp <= s && t[osp] == '/' && t[0] == '/'
              && Text(Deleted(ps, FirstDot(ps, from).value))
                 == if (i == 1 && i + 2 == |t|) || t[..osp] + t[i + 2..] == "" then "/" else t[..osp] + t[i + 2..]
            else Scanned(ps, from, next + 1, i + 1, s)
  {
    hide Text, Deleted, FirstDot, Offset, Single;
    SlashStartsPiece(ps, from, next, s, osp);
    PieceStarts(ps, next);
    PieceAt(ps, next);
    if ps[next] == "" {
      EmptyIsLast(ps, next);
      FirstDotIs(ps, from, |ps|);
    } else if IsDot(ps[next]) {
      FirstDotIs(ps, from, next);
      if ps[next] == "." {
        DotDeleted(ps, next);
      } else {
        DotDotDeleted(ps, next);
      }
    }
  }

  lemma DotDeleted(ps: seq<string>, k: nat)
    requires Single(ps) && k < |ps| && ps[k] == "."
    ensures var t, i := Text(ps), Offset(ps, k) + 1;
            i <= |t| && Text(Deleted(ps, k)) == t[..i] + if i + 2 <= |t| then t[i + 2..] else ""
  {
    PieceAt(ps, k);
    var t, i := Text(ps), Offset(ps, k) + 1;
    var front, rest := ps[..k], ps[k + 1..];
    assert t[..i] == Text(front) + "/";
    if rest == [] {
      OffsetEnd(ps);
      TextAppend(front, [""]);
      TextCons("", []);
      assert [""] == [""] + [];
    } else {
      TextAppend(front, rest);
      TextCons(rest[0], rest[1..]);
      assert rest == [rest[0]] + rest[1..];
      SlashMoves(t, i, Text(front), Text(rest));
    }
  }

  lemma SlashMoves(t: string, i: nat, a: string, c: string)
    requires i + 1 <= |t| && t[..i] == a + "/" && t[i + 1..] == c && c != "" && c[0] == '/'
    ensures i + 2 <= |t| && t[..i] + t[i + 2..] == a + c
  {
    assert t[i + 2..] == c[1..];
    assert c == "/" + c[1..];
  }

  lemma DotDotDeleted(ps: seq<string>, k: nat)
    requires Single(ps) && k < |ps| && ps[k] == ".."
    ensures var t, i := Text(ps), Offset(ps, k) + 1;
            var osp := if k == 0 then 0 else Offset(ps, k - 1);
            && i + 2 <= |t| && osp < i && t[osp] == '/' && t[0] == '/'
            && Text(Deleted(ps, k))
               == if (i == 1 && i + 2 == |t|) || t[..osp] + t[i + 2..] == "" then "/" else t[..osp] + t[i + 2..]
  {
    PieceAt(ps, k);
    TextNonEmpty(ps);
    var t, i := Text(ps), Offset(ps, k) + 1;
    var osp := if k == 0 then 0 else Offset(ps, k - 1);
    var front, rest := if k == 0 then [] else ps[..k - 1], ps[k + 1..];
    if k > 0 {
      PieceAt(ps, k - 1);
    }
    assert t[..osp] == Text(front) && t[i + 2..] == Text(rest);
    TextAppend(front, rest);
    TextNonEmpty(front + rest);
    TextCons("", []);
    assert [""] == [""] + [];
  }

  // ----- absolute and relative paths

  /** The pieces of a path. */
  function Started(t: string): (ps: seq<string>)
    ensures ps != []
  {
    if IsAbsolute(t) then Split(t[1..]) else Split(t)
  }

  lemma SqueezedPath(t: string)
    ensures var abs, ps := IsAbsolute(t), DropEmpty(Started(t));
            && Single(ps) && Squeeze(t) == Shown(abs, ps) && IsAbsolute(Squeeze(t)) == abs
            && (abs || Relative(ps))
            && if abs then Canon(ps) == Canon(Started(t)) else RelCanon(ps) == RelCanon(Started(t))
  {
    hide Split, Squeeze, DropEmpty, Canon, RelCanon, Single, Text, Relative;
    var pieces := Started(t);
    var u := if IsAbsolute(t) then t[1..] else t;
    SplitText(u);
    SqueezeText(pieces);
    SqueezedFirst(t);
    if IsAbsolute(t) {
      assert "/" + u == t;
      CanonDropEmpty(pieces);
    } else {
      SqueezeSlash(u);
      assert ("/" + Squeeze(u))[1..] == Squeeze(u);
      FrontStays(t);
      RelCanonDropEmpty(pieces);
    }
  }

  lemma CanonDropEmpty(ps: seq<string>)
    requires ps != []
    ensures Canon(DropEmpty(ps)) == Canon(ps)
  {
    hide Resolve;
    DropEmptyResolves([], ps);
  }

  lemma RelCanonDropEmpty(ps: seq<string>)
    requires ps != [] && (DropEmpty(ps) == [""] <==> ps == [""])
    ensures RelCanon(DropEmpty(ps)) == RelCanon(ps)
  {
    hide Climb, Halved;
    ClimbDropEmpty(HERE, ps);
  }

  lemma SqueezedFirst(t: string)
    ensures t != "" ==> Squeeze(t) != "" && Squeeze(t)[0] == t[0]
    ensures t == "" ==> Squeeze(t) == ""
    decreases |t|
  {
    if |t| >= 2 && t[0] == '/' && t[1] == '/' {
      SqueezedFirst(t[1..]);
    }
  }

  lemma FrontStays(t: string)
    requires !IsAbsolute(t)
    ensures var ps := Split(t); Relative(DropEmpty(ps)) && (DropEmpty(ps) == [""] <==> ps == [""])
  {
    var ps := Split(t);
    SqueezeText(ps);
    FrontOfText(t);
    hide Split, Squeeze, Text;
  }

  lemma FrontOfText(t: string)
    requires !IsAbsolute(t)
    ensures |Split(t)| > 1 ==> Split(t)[0] != ""
  {
  }

  lemma ShownIs(abs: bool, ps: seq<string>)
    requires ps != [] && Single(ps) && (abs || Relative(ps))
    ensures IsAbsolute(Shown(abs, ps)) == abs
  {
    TextCons(ps[0], ps[1..]);
    assert ps == [ps[0]] + ps[1..];
    if !abs && ps[0] != "" {
      assert Text(ps)[1] == ps[0][0];
      assert ps[0][0] in ps[0];
    } else if !abs {
      assert ps[1..] == [];
    }
  }

  lemma StepKeeps(abs: bool, ps: seq<string>)
    requires Single(ps) && (abs || Relative(ps))
    ensures match Step(abs, ps)
            case None => (if abs then Canon(ps) else RelCanon(ps)) == ps
            case Some(qs) =>
              && Single(qs) && (abs || Relative(qs))
              && if abs then Canon(qs) == Canon(ps) else RelCanon(qs) == RelCanon(ps)
  {
    hide Canon, RelCanon, FirstDot, Deleted, RelDeleted, LeadingDot;
    if abs {
      if FirstDot(ps, 0) == None {
        CleanIsCanon(ps);
      } else {
        DeletedKeepsCanon(ps, FirstDot(ps, 0).value);
      }
    } else if Step(abs, ps) == None {
      NoStepIsCanon(ps);
    } else {
      StepKeepsRelative(ps);
    }
  }

  /** The text seen from its front, and with the slash that a relative path has not. */
  lemma InText(abs: bool, t: string, ps: seq<string>, i: nat)
    requires ps != [] && t == Shown(abs, ps) && i <= |t|
    ensures |Text(ps)| == |t| + From(abs) && (i < |t| ==> Text(ps)[i + From(abs)] == t[i])
  {
    TextNonEmpty(ps);
  }

  lemma OnePiece(t: string, ps: seq<string>)
    requires ps != [] && t == Shown(IsAbsolute(t), ps) && '/' !in t
    ensures !IsAbsolute(t) && Step(false, ps) == None && Outcome(IsAbsolute(t), ps, t, t, false)
  {
    SlashBetween(ps);
    FrontIn(t);
    hide FirstDot, Text;
    assert FirstDot(ps, 1) == None;
  }

  lemma FrontIn(t: string)
    ensures IsAbsolute(t) ==> '/' in t
  {
  }

  lemma SlashBetween(ps: seq<string>)
    requires ps != []
    ensures |ps| > 1 ==> '/' in Text(ps)[1..]
  {
    RelativeText(ps);
    TextNonEmpty(ps[1..]);
    if |ps| > 1 {
      assert Text(ps)[1..][|ps[0]|] == '/';
    }
  }

  lemma NothingLeft(abs: bool, t: string, ps: seq<string>)
    requires ps != [] && FirstDot(ps, From(abs)) == None && (abs || !LeadingDot(ps))
    ensures Outcome(abs, ps, t, t, false)
  {
  }

  /** The text of a relative path: its first piece, and then the others with their slashes. */
  lemma RelativeText(ps: seq<string>)
    requires ps != []
    ensures Text(ps)[1..] == ps[0] + Text(ps[1..])
  {
  }

  /** What the first three characters say about a `.` at the front. */
  lemma FrontDot(t: string, ps: seq<string>)
    requires Single(ps) && NoNul(t) && t == Shown(IsAbsolute(t), ps) && (IsAbsolute(t) || Relative(ps))
    ensures var found := At(t, 0) == '.' && At(t, 1) == '/' && At(t, 2) != NUL;
            && (found <==> !IsAbsolute(t) && LeadingDot(ps))
            && (found ==> |t| > 2 && Outcome(false, ps, t, t[2..], true))
  {
    TextNonEmpty(ps);
    if !IsAbsolute(t) {
      RelativeText(ps);
      TextNonEmpty(ps[1..]);
      var u := Text(ps[1..]);
      FrontPiece(t, ps[0], u);
      if |ps| > 1 {
        RelativeText(ps[1..]);
        DotAlone(ps);
        hide Text;
        assert ps[0] == "." ==> t[2..] == u[1..];
      }
    }
  }

  lemma FrontPiece(t: string, p: string, u: string)
    requires t == p + u && '/' !in p && (u == "" || u[0] == '/')
    ensures At(t, 0) == '.' && At(t, 1) == '/' <==> p == "." && u != ""
    ensures p == "." && NoNul(t) ==> (At(t, 2) != NUL <==> |u| > 1)
  {
    if |p| > 1 {
      assert p[1] in p;
    }
    if |p| > 0 {
      assert p[0] in p;
    }
  }

  lemma DotAlone(ps: seq<string>)
    requires Single(ps) && |ps| > 1
    ensures ps == [ps[0], ""] <==> |Text(ps[1..])| == 1
  {
    var qs := ps[1..];
    TextCons(qs[0], qs[1..]);
    assert qs == [qs[0]] + qs[1..] && ps == [ps[0]] + qs;
    TextNonEmpty(qs[1..]);
    assert qs[1..] == [] ==> qs == [qs[0]];
    assert ps == [ps[0], ""] ==> qs == [""];
  }

  lemma AtSlashAbsolute(t: string, ps: seq<string>, next: nat, s: nat, osp: nat)
    requires Single(ps) && t == Shown(true, ps) && NoNul(t)
    requires s < |t| && t[s] == '/' && Scanned(ps, 0, next, s, osp)
    ensures var i := s + 1;
            if i == |t| then Outcome(true, ps, t, t, false)
            else if t[i] == '.' && At(t, i + 1) in {'/', NUL} then
              Outcome(true, ps, t, t[..i] + (if i + 2 <= |t| then t[i + 2..] else ""), true)
            else if t[i] == '.' && At(t, i + 1) == '.' && At(t, i + 2) in {'/', NUL} then
              && i + 2 <= |t| && osp <= s && t[osp] == '/'
              && Outcome(true, ps, t,
                         if (i == 1 && i + 2 == |t|) || t[..osp] + t[i + 2..] == "" then "/"
                         else t[..osp] + t[i + 2..], true)
            else Scanned(ps, 0, next + 1, i + 1, s)
  {
    hide Text, Deleted, FirstDot, Offset, Single, Scanned;
    AtSlash(ps, 0, next, s, osp);
  }

  lemma AtSlashRelative(t: string, ps: seq<string>, next: nat, s: nat, osp: nat)
    requires ps != [] && Relative(ps) && !LeadingDot(ps) && t == Shown(false, ps) && NoNul(t)
    requires osp <= s < |t| && t[s] == '/' && t[0] != '/' && Scanned(ps, 1, next, s + 1, SlashAt(false, osp))
    ensures var i := s + 1;
            && i > 1
            && if i == |t| then Outcome(false, ps, t, t, false)
            else if t[i] == '.' && At(t, i + 1) in {'/', NUL} then
              Outcome(false, ps, t, t[..i] + (if i + 2 <= |t| then t[i + 2..] else ""), true)
            else if t[i] == '.' && At(t, i + 1) == '.' && At(t, i + 2) in {'/', NUL} then
              i + 2 <= |t| && Outcome(false, ps, t, ParentGone(t, s, osp), true)
            else Scanned(ps, 1, next + 1, i + 2, s + 1)
  {
    hide Text, Deleted, RelDeleted, FirstDot, Offset, Single, Scanned;
    var u, i := Text(ps), s + 1;
    TextNonEmpty(ps);
    Shifted(t, u);
    AtSlash(ps, 1, next, s + 1, SlashAt(false, osp));
    assert u[s + 1] == t[s] && (i < |t| ==> u[i + 1] == t[i]);
    assert At(u, i + 2) == At(t, i + 1) && At(u, i + 3) == At(t, i + 2);
    if i < |t| && t[i] == '.' && At(t, i + 1) in {'/', NUL} {
      RelDot(t, ps, next, i);
    } else if i < |t| && t[i] == '.' && At(t, i + 1) == '.' && At(t, i + 2) in {'/', NUL} {
      RelDotDot(t, ps, next, s, osp);
    }
  }

  lemma RelDot(t: string, ps: seq<string>, k: nat, i: nat)
    requires 0 < k < |ps| && ps[k] == "." && t == Text(ps)[1..] && 0 < i == Offset(ps, k) <= |t|
    requires var u := Text(ps); u[..i + 1] + (if i + 3 <= |u| then u[i + 3..] else "") == Text(Deleted(ps, k))
    ensures t[..i] + (if i + 2 <= |t| then t[i + 2..] else "") == Shown(false, RelDeleted(ps, k))
  {
    hide Text, Deleted, Offset;
    var u := Text(ps);
    TextNonEmpty(ps);
    DotIsDeleted(ps, k);
    assert t[..i] == u[..i + 1][1..];
    assert i + 2 <= |t| ==> t[i + 2..] == u[i + 3..];
  }

  /** What deleting a parent leaves of a relative path. */
  function ParentGone(t: string, s: nat, osp: nat): (r: string)
    requires osp <= s < |t|
  {
    var x := if osp == 0 then 1 else 0;
    var rest := t[..osp] + if s + 3 + x <= |t| then t[s + 3 + x..] else "";
    if rest == "" then "./" else rest
  }

  lemma RelDotDot(t: string, ps: seq<string>, k: nat, s: nat, osp: nat)
    requires Relative(ps) && 0 < k < |ps| && ps[k] == ".." && t == Text(ps)[1..]
    requires s + 1 == Offset(ps, k) && SlashAt(false, osp) == Offset(ps, k - 1) && osp <= s < |t|
    ensures ParentGone(t, s, osp) == Shown(false, RelDeleted(ps, k)) && s + 3 <= |t| && |ParentGone(t, s, osp)| < |t|
  {
    hide Text, Offset, RelDeleted, Single, ParentGone, Shown;
    var u, front, rest := Text(ps), ps[..k - 1], ps[k + 1..];
    TextNonEmpty(ps);
    PieceAt(ps, k);
    PieceAt(ps, k - 1);
    FirstOffsets(ps, k);
    assert t[s + 3..] == u[s + 4..] == Text(rest);
    if k == 1 {
      BehindFirst(ps);
      GoneFirst(t, s, Text(rest));
    } else {
      BehindNames(ps, k);
      assert t[..osp] == u[..osp + 1][1..] == Text(front)[1..];
      GoneLater(t, s, osp, Text(rest));
    }
  }

  lemma GoneFirst(t: string, s: nat, text: string)
    requires 0 < s && s + 3 <= |t| && t[s + 3..] == text
    ensures |text| <= 1 ==> ParentGone(t, s, 0) == "./"
    ensures |text| > 1 ==> ParentGone(t, s, 0) == text[1..]
    ensures |ParentGone(t, s, 0)| < |t|
  {
    if text != "" {
      assert t[s + 4..] == text[1..];
    }
  }

  lemma GoneLater(t: string, s: nat, osp: nat, text: string)
    requires 0 < osp <= s && s + 3 <= |t| && t[s + 3..] == text
    ensures ParentGone(t, s, osp) == t[..osp] + text && |ParentGone(t, s, osp)| < |t|
  {
  }

  lemma BehindFirst(ps: seq<string>)
    requires |ps| > 1 && ps[1] == ".."
    ensures var text := Text(ps[2..]);
            && (ps[2..] == [] <==> text == "")
            && (text == "" || text == "/" ==> Shown(false, RelDeleted(ps, 1)) == "./")
            && (text != "" && text != "/" ==> |text| > 1 && Shown(false, RelDeleted(ps, 1)) == text[1..])
  {
    LongText(ps[2..]);
    DotSlashText();
    hide Text;
    assert [] + ps[2..] == ps[2..];
  }

  lemma BehindNames(ps: seq<string>, k: nat)
    requires Relative(ps) && 1 < k < |ps| && ps[k] == ".."
    ensures var front := Text(ps[..k - 1]);
            |front| > 1 && Shown(false, RelDeleted(ps, k)) == front[1..] + Text(ps[k + 1..])
  {
    var front, rest := ps[..k - 1], ps[k + 1..];
    TextAppend(front, rest);
    LongText(front);
    assert front[0] == ps[0];
    hide Text;
  }

  lemma DotSlashText()
    ensures Shown(false, [".", ""]) == "./"
  {
    TextCons(".", [""]);
    TextCons("", []);
    assert ["."] + [""] == [".", ""] && [""] + [] == [""];
  }

  lemma LongText(ps: seq<string>)
    ensures ps == [] <==> Text(ps) == ""
    ensures ps == [""] ==> Text(ps) == "/"
    ensures ps != [] && ps != [""] ==> |Text(ps)| > 1
  {
    if ps != [] {
      assert ps == [ps[0]] + ps[1..];
      TextNonEmpty(ps[1..]);
      assert ps != [""] ==> ps[0] != "" || ps[1..] != [];
    }
  }

  lemma FirstOffsets(ps: seq<string>, k: nat)
    requires 0 < k < |ps|
    ensures Offset(ps, k - 1) == 0 <==> k == 1
  {
    assert ps[..0] == [];
    TextNonEmpty(ps[..k - 1]);
  }

  lemma Shifted(t: string, u: string)
    requires u != "" && u[0] == '/' && t == u[1..] && NoNul(t)
    ensures NoNul(u) && |u| == |t| + 1
    ensures forall i: nat :: At(u, i + 1) == At(t, i)
  {
  }
}
