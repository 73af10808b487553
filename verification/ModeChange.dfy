/**
 The chmod compiler of src/utils/modechange.c: mode_parse and mode_compile turn a text into a
 list of bit operations, mode_adjust runs them.

 The meaning of a text is given on sets of permissions, without bit operations.
 */
module ModeChange {
  import opened CString

  /** A mode_t: the set of its one bits, bit 0 being the last. */
  type Mode = set<nat>

  const WIDTH: nat := 16
  const MAX_MODE: Mode := set k: nat | k < 12
  const USER: Mode := {6, 7, 8}
  const GROUP: Mode := {3, 4, 5}
  const OTHERS: Mode := {0, 1, 2}
  const EXECS: Mode := {0, 3, 6}
  const WHO: set<char> := {'u', 'g', 'o', 'a'}
  const OPERATIONS: set<char> := {'+', '-', '='}
  const GRANTS: set<char> := {'r', 'w', 'x', 'X', 's', 't'}
  const FIXED: set<char> := {'r', 'w', 'x', 's', 't'}
  const COPIES: set<char> := {'u', 'g', 'o'}
  const PERMISSIONS: set<char> := GRANTS + COPIES

  /** Which operations the umask applies to. */
  datatype Masking = Masking(equals: bool, plus: bool, minus: bool)

  datatype Operation = Assign | Plus | Minus

  /** One compiled clause. */
  datatype Change = Change(affected: Mode, value: Mode, op: Operation, xIfAny: bool, copy: bool)

  /** A clause as written: who, operation, permissions. */
  datatype Clause = Clause(who: string, op: char, perms: string)

  // ----- texts and clauses

  /** strspn(3). */
  function Span(s: string, allowed: set<char>): (n: nat)
    ensures n <= |s|
  {
    if s == [] || s[0] !in allowed then 0 else 1 + Span(s[1..], allowed)
  }

  lemma {:induction false} SpanIs(a: string, b: string, allowed: set<char>)
    requires Within(a, allowed) && (b == [] || b[0] !in allowed)
    ensures Span(a + b, allowed) == |a|
  {
    if a == [] {
      assert a + b == b;
    } else {
      assert Within(a[1..], allowed);
      SpanIs(a[1..], b, allowed);
      assert (a + b)[1..] == a[1..] + b;
    }
  }

  /** The clause at the front of a text, and the text behind it. */
  function ClauseAt(s: string): (r: Option<(Clause, string)>)
    ensures r.Some? ==> |r.value.1| < |s|
  {
    var w := Span(s, WHO);
    if Span(s[w..], OPERATIONS) != 1 then None
    else
      var p := Span(s[w + 1..], PERMISSIONS);
      if p == 0 then None else Some((Clause(s[..w], s[w], s[w + 1..w + 1 + p]), s[w + 1 + p..]))
  }

  function ClauseText(c: Clause): string {
    c.who + [c.op] + c.perms
  }

  predicate Within(s: string, allowed: set<char>) {
    forall k :: 0 <= k < |s| ==> s[k] in allowed
  }

  /** [ugoa]*[-+=][rwxXstugo]+ */
  predicate ClauseOk(c: Clause) {
    && Within(c.who, {'u', 'g', 'o', 'a'})
    && (c.op == '+' || c.op == '-' || c.op == '=')
    && c.perms != [] && Within(c.perms, {'r', 'w', 'x', 'X', 's', 't', 'u', 'g', 'o'})
  }

  lemma ClauseChars(c: Clause)
    requires ClauseOk(c)
    ensures Within(c.who, WHO) && c.op in OPERATIONS && Within(c.perms, PERMISSIONS)
  {
  }

  lemma ClauseAtText(c: Clause, rest: string)
    requires ClauseOk(c) && (rest == [] || rest[0] == ',')
    ensures ClauseAt(ClauseText(c) + rest) == Some((c, rest))
  {
    var s := ClauseText(c) + rest;
    var w, p := |c.who|, |c.perms|;
    var behind := c.perms + rest;
    Parts(c.who, c.op, c.perms, rest);
    Sets(c.op, c.perms[0]);
    SpanIs(c.who, [c.op] + behind, WHO);
    SpanIs([c.op], behind, OPERATIONS);
    SpanIs(c.perms, rest, PERMISSIONS);
    hide Span, Within;
  }

  lemma Sets(op: char, perm: char)
    requires op in OPERATIONS && perm in PERMISSIONS
    ensures op !in WHO && perm !in OPERATIONS && ',' !in PERMISSIONS
  {
  }

  lemma Parts(a: string, op: char, b: string, c: string)
    ensures var s := a + [op] + b + c;
            && s == a + ([op] + (b + c)) && s[..|a|] == a && s[|a|] == op && s[|a|..] == [op] + (b + c)
            && s[|a| + 1..] == b + c && s[|a| + 1..|a| + 1 + |b|] == b && s[|a| + 1 + |b|..] == c
  {
  }

  // ----- compiling a clause

  function WhoMask(c: char): Mode {
    match c
    case 'u' => USER + {11}
    case 'g' => GROUP + {10}
    case 'o' => OTHERS + {9}
    case 'a' => MAX_MODE
    case _ => {}
  }

  function WhoMasks(who: string): Mode {
    if who == [] then {} else WhoMasks(who[..|who| - 1]) + WhoMask(who[|who| - 1])
  }

  function OperationOf(op: char): Operation {
    match op
    case '+' => Plus
    case '-' => Minus
    case _ => Assign
  }

  lemma OperationIs(c: Clause)
    requires ClauseOk(c)
    ensures match OperationOf(c.op)
            case Plus => c.op == '+'
            case Minus => c.op == '-'
            case Assign => c.op == '='
  {
  }

  predicate Masked(op: Operation, flags: Masking) {
    match op
    case Assign => flags.equals
    case Plus => flags.plus
    case Minus => flags.minus
  }

  function Affected(c: Clause, umask: Mode, flags: Masking): Mode {
    var named := WhoMasks(c.who);
    if named != {} then named
    else if Masked(OperationOf(c.op), flags) then MAX_MODE - umask
    else MAX_MODE
  }

  /** The bits of a permission letter, for all three groups. */
  function LetterBits(letter: char): Mode {
    match letter
    case 'r' => {2, 5, 8}
    case 'w' => {1, 4, 7}
    case 'x' => EXECS
    case 'X' => EXECS
    case 's' => {10, 11}
    case 't' => {9}
    case _ => {}
  }

  /** The bits of a copied group. */
  function CopyBits(letter: char): Mode {
    match letter
    case 'u' => USER
    case 'g' => GROUP
    case 'o' => OTHERS
    case _ => {}
  }

  /** One permission letter more; a copy letter must find nothing there. */
  function Letter(change: Change, letter: char): Option<Change> {
    if letter in GRANTS then
      Some(change.(value := change.value + LetterBits(letter) * change.affected,
                   xIfAny := change.xIfAny || letter == 'X'))
    else if letter in COPIES && change.value == {} then Some(change.(value := CopyBits(letter), copy := true))
    else None
  }

  function Letters(change: Change, perms: string): Option<Change> {
    if perms == [] then Some(change)
    else
      var before := Letters(change, perms[..|perms| - 1]);
      if before == None then None else Letter(before.value, perms[|perms| - 1])
  }

  function Compiled(c: Clause, umask: Mode, flags: Masking): Option<Change> {
    Letters(Change(Affected(c, umask, flags), {}, OperationOf(c.op), false, false), c.perms)
  }

  // ----- running a clause

  function ShiftRight(m: Mode, n: nat): Mode {
    set k: nat | k in m && k >= n :: k - n
  }

  function ShiftLeft(m: Mode, n: nat): Mode {
    set k: nat | k in m && k + n < WIDTH :: k + n
  }

  lemma InShifts(m: Mode, n: nat, j: nat)
    ensures j in ShiftRight(m, n) <==> j + n in m
    ensures j in ShiftLeft(m, n) <==> n <= j < WIDTH && j - n in m
  {
    if j + n in m {
      var k := j + n;
      assert k - n == j;
    }
    if n <= j < WIDTH && j - n in m {
      var k := j - n;
      assert k + n == j;
    }
  }

  /** The permissions of one group in the places of all three. */
  function Spread(m: Mode, value: Mode): Mode {
    var v := m * value;
    if value * USER != {} then v + (ShiftRight(v, 3) + ShiftRight(v, 6))
    else if value * GROUP != {} then v + (ShiftLeft(v, 3) + ShiftRight(v, 3))
    else v + (ShiftLeft(v, 3) + ShiftLeft(v, 6))
  }

  /** The bits a change sets or clears. */
  function Bits(change: Change, m: Mode, dir: bool): Mode {
    if change.copy then Spread(m, change.value) * change.affected
    else if change.xIfAny && !dir && m * EXECS == {} then change.value - EXECS
    else change.value
  }

  function Step(change: Change, m: Mode, dir: bool): Mode {
    var v := Bits(change, m, dir);
    match change.op
    case Assign => (m - change.affected) + v
    case Plus => m + v
    case Minus => m - v
  }

  function Steps(changes: seq<Change>, m: Mode, dir: bool): Mode {
    if changes == [] then m else Steps(changes[1..], Step(changes[0], m, dir), dir)
  }

  /** A change that touches only what it affects. */
  predicate Sound(change: Change) {
    change.affected <= MAX_MODE && (!change.copy ==> change.value <= change.affected)
  }

  lemma StepStays(change: Change, m: Mode, dir: bool)
    requires Sound(change) && m <= MAX_MODE
    ensures Step(change, m, dir) <= MAX_MODE && Step(change, m, dir) - change.affected == m - change.affected
  {
    assert Bits(change, m, dir) <= change.affected;
    hide Bits;
  }

  lemma {:induction false} LettersAreSound(change: Change, perms: string)
    requires Sound(change) && Letters(change, perms).Some?
    ensures var after := Letters(change, perms).value;
            Sound(after) && after.affected == change.affected && after.op == change.op
    decreases |perms|
  {
    if perms != [] {
      LettersAreSound(change, perms[..|perms| - 1]);
      hide LetterBits, CopyBits;
    }
  }

  lemma ClauseSound(c: Clause, umask: Mode, flags: Masking)
    ensures var r := Compiled(c, umask, flags);
            r.Some? ==> Sound(r.value) && r.value.affected == Affected(c, umask, flags)
  {
    if Compiled(c, umask, flags).Some? {
      WhoStays(c.who);
      LettersAreSound(Change(Affected(c, umask, flags), {}, OperationOf(c.op), false, false), c.perms);
      hide Letters;
    }
  }

  /** Any clause that is accepted stays within the permission bits and leaves alone what it does not affect. */
  lemma ClauseStays(c: Clause, umask: Mode, flags: Masking, m: Mode, dir: bool)
    requires Compiled(c, umask, flags).Some? && m <= MAX_MODE
    ensures var after := Step(Compiled(c, umask, flags).value, m, dir);
            after <= MAX_MODE && after - Affected(c, umask, flags) == m - Affected(c, umask, flags)
  {
    ClauseSound(c, umask, flags);
    hide Step, Letters, Sound;
    StepStays(Compiled(c, umask, flags).value, m, dir);
  }

  lemma {:induction false} WhoStays(who: string)
    ensures WhoMasks(who) <= MAX_MODE
    decreases |who|
  {
    if who != [] {
      WhoStays(who[..|who| - 1]);
      hide WhoMasks;
      assert WhoMask(who[|who| - 1]) <= MAX_MODE;
    }
  }

  // ----- what a clause means

  datatype Group = User | Group | Others
  datatype Right = Read | Write | Exec
  datatype Bit = Perm(group: Group, right: Right) | SetUid | SetGid | Sticky

  /** The letter of whom a bit belongs to. */
  function Owner(b: Bit): char {
    match b
    case Perm(User, _) => 'u'
    case Perm(Group, _) => 'g'
    case Perm(Others, _) => 'o'
    case SetUid => 'u'
    case SetGid => 'g'
    case Sticky => 'o'
  }

  /** What a permission letter gives. */
  predicate Allows(letter: char, b: Bit) {
    match letter
    case 'r' => b.Perm? && b.right == Read
    case 'w' => b.Perm? && b.right == Write
    case 'x' => b.Perm? && b.right == Exec
    case 'X' => b.Perm? && b.right == Exec
    case 's' => b == SetUid || b == SetGid
    case 't' => b == Sticky
    case _ => false
  }

  function Source(letter: char): Group {
    match letter
    case 'u' => User
    case 'g' => Group
    case _ => Others
  }

  /** The operation of this letter spares the bits of the umask. */
  predicate Spares(op: char, flags: Masking) {
    (op == '+' && flags.plus) || (op == '-' && flags.minus) || (op == '=' && flags.equals)
  }

  /** Without a named group everything is affected but what the umask protects. */
  predicate Affects(c: Clause, umask: iset<Bit>, flags: Masking, b: Bit) {
    if c.who == [] then !(Spares(c.op, flags) && b in umask) else 'a' in c.who || Owner(b) in c.who
  }

  ghost predicate AnyExec(s: iset<Bit>) {
    exists g: Group :: Perm(g, Exec) in s
  }

  /** What a letter gives: its permissions, or those of the group it copies. */
  ghost predicate Gives(letter: char, s: iset<Bit>, dir: bool, b: Bit) {
    if letter == 'u' || letter == 'g' || letter == 'o' then b.Perm? && Perm(Source(letter), b.right) in s
    else Allows(letter, b) && (letter == 'X' ==> dir || AnyExec(s))
  }

  /** The clause gives or takes this bit; letters and a copied group count together. */
  ghost predicate Chosen(c: Clause, umask: iset<Bit>, flags: Masking, s: iset<Bit>, dir: bool, b: Bit) {
    Affects(c, umask, flags, b) && exists k :: 0 <= k < |c.perms| && Gives(c.perms[k], s, dir, b)
  }

  ghost function Meaning(c: Clause, umask: iset<Bit>, flags: Masking, s: iset<Bit>, dir: bool): iset<Bit> {
    iset b: Bit | Remains(c, umask, flags, s, dir, b)
  }

  /** The bit is set when the clause is through. */
  ghost predicate Remains(c: Clause, umask: iset<Bit>, flags: Masking, s: iset<Bit>, dir: bool, b: Bit) {
    if c.op == '+' then b in s || Chosen(c, umask, flags, s, dir, b)
    else if c.op == '-' then b in s && !Chosen(c, umask, flags, s, dir, b)
    else Chosen(c, umask, flags, s, dir, b) || (b in s && !Affects(c, umask, flags, b))
  }

  ghost function Meanings(cs: seq<Clause>, umask: iset<Bit>, flags: Masking, s: iset<Bit>, dir: bool): iset<Bit> {
    if cs == [] then s else Meanings(cs[1..], umask, flags, Meaning(cs[0], umask, flags, s, dir), dir)
  }

  // ----- bits of a mode

  function Place(b: Bit): nat {
    match b
    case Perm(User, Read) => 8
    case Perm(User, Write) => 7
    case Perm(User, Exec) => 6
    case Perm(Group, Read) => 5
    case Perm(Group, Write) => 4
    case Perm(Group, Exec) => 3
    case Perm(Others, Read) => 2
    case Perm(Others, Write) => 1
    case Perm(Others, Exec) => 0
    case SetUid => 11
    case SetGid => 10
    case Sticky => 9
  }

  ghost function BitsOf(m: Mode): iset<Bit> {
    iset b: Bit | Place(b) in m
  }

  /** A copy letter puts the permissions of its group in the places of all. */
  lemma SpreadCopies(letter: char, m: Mode, b: Bit)
    requires letter == 'u' || letter == 'g' || letter == 'o'
    ensures Place(b) in Spread(m, CopyBits(letter)) <==> b.Perm? && Place(Perm(Source(letter), b.right)) in m
  {
    SpreadParts(m, Place(b));
    SourceBits(letter, b);
    hide Spread, Place, Source;
  }

  lemma SourceBits(letter: char, b: Bit)
    ensures Place(b) < 12 && (b.Perm? <==> Place(b) < 9)
    ensures b.Perm? ==>
              Place(Perm(Source(letter), b.right)) ==
                Place(b) % 3 + (if letter == 'u' then 6 else if letter == 'g' then 3 else 0)
  {
  }

  /** Where a copied group lands. */
  lemma SpreadParts(m: Mode, p: nat)
    requires p < WIDTH
    ensures p in Spread(m, USER) <==> p < 9 && p % 3 + 6 in m
    ensures p in Spread(m, GROUP) <==> p < 9 && p % 3 + 3 in m
    ensures p in Spread(m, OTHERS) <==> p < 9 && p % 3 in m
  {
    CopyBitsApart();
    hide ShiftRight, ShiftLeft;
    InShifts(m * USER, 3, p);
    InShifts(m * USER, 6, p);
    InShifts(m * GROUP, 3, p);
    InShifts(m * OTHERS, 3, p);
    InShifts(m * OTHERS, 6, p);
  }

  lemma CopyBitsApart()
    ensures USER * USER != {} && GROUP * USER == {} && GROUP * GROUP != {}
    ensures OTHERS * USER == {} && OTHERS * GROUP == {}
  {
    assert 6 in USER * USER && 3 in GROUP * GROUP;
  }

  // ----- a compiled clause does what the clause means

  lemma {:induction false} WhoMeans(who: string, b: Bit)
    requires Within(who, WHO)
    ensures Place(b) in WhoMasks(who) <==> 'a' in who || Owner(b) in who
    decreases |who|
  {
    if who != [] {
      var front, last := who[..|who| - 1], who[|who| - 1];
      WhoMeans(front, b);
      assert who == front + [last];
      WhoLetterMeans(last, b);
      hide Owner, Place, WhoMask;
    }
  }

  lemma WhoLetterMeans(c: char, b: Bit)
    requires c in WHO
    ensures Place(b) in WhoMask(c) <==> c == 'a' || c == Owner(b)
    ensures WhoMask(c) != {}
  {
    assert 6 in WhoMask('u') && 3 in WhoMask('g') && 0 in WhoMask('o') && 0 in WhoMask('a');
  }

  lemma AffectedMeans(c: Clause, umask: Mode, flags: Masking, b: Bit)
    requires ClauseOk(c)
    ensures Place(b) in Affected(c, umask, flags) <==> Affects(c, BitsOf(umask), flags, b)
  {
    WhoMeans(c.who, b);
    if c.who != [] {
      WhoLetterMeans(c.who[|c.who| - 1], b);
    }
    assert Place(b) in MAX_MODE;
    hide Place, Owner, WhoMask;
  }

  lemma LetterBitsMean(letter: char, b: Bit)
    requires letter in PERMISSIONS
    ensures Place(b) in LetterBits(letter) <==> Allows(letter, b)
  {
  }

  /** The bits of all letters that give permissions. */
  function LettersBits(perms: string): Mode {
    if perms == [] then {} else LettersBits(perms[..|perms| - 1]) + LetterBits(perms[|perms| - 1])
  }

  predicate Given(perms: string, b: Bit) {
    exists k :: 0 <= k < |perms| && Allows(perms[k], b)
  }

  lemma GivenMore(front: string, last: char, b: Bit)
    ensures Given(front + [last], b) <==> Given(front, b) || Allows(last, b)
  {
    hide Allows;
    var all := front + [last];
    if Given(front, b) {
      var k :| 0 <= k < |front| && Allows(front[k], b);
      assert all[k] == front[k];
    }
    if Allows(last, b) {
      assert all[|front|] == last;
    }
  }

  lemma {:induction false} GivenBits(perms: string, b: Bit)
    requires Within(perms, PERMISSIONS)
    ensures Place(b) in LettersBits(perms) <==> Given(perms, b)
    decreases |perms|
  {
    if perms != [] {
      var front, last := perms[..|perms| - 1], perms[|perms| - 1];
      GivenBits(front, b);
      LetterBitsMean(last, b);
      assert perms == front + [last];
      GivenMore(front, last, b);
      hide Place, Allows, LetterBits, Given;
    }
  }

  /** The letter of the group that is copied. */
  function CopyLetter(perms: string): Option<char> {
    if perms == [] then None
    else if perms[|perms| - 1] in COPIES then Some(perms[|perms| - 1])
    else CopyLetter(perms[..|perms| - 1])
  }

  function Copied(letter: Option<char>): Mode {
    if letter == None then {} else CopyBits(letter.value)
  }

  lemma {:induction false} CopyLetterIs(perms: string)
    ensures CopyLetter(perms).Some? ==> CopyLetter(perms).value in COPIES && CopyLetter(perms).value in perms
                                        && Copied(CopyLetter(perms)) != {}
    decreases |perms|
  {
    if perms != [] {
      CopyLetterIs(perms[..|perms| - 1]);
    }
    CopyBitsApart();
  }

  /** What an accepted sequence of letters leaves: the copied group and what the letters give. */
  lemma {:induction false} LettersAre(change: Change, perms: string)
    requires Within(perms, PERMISSIONS) && change.value == {} && !change.copy && !change.xIfAny
    requires Letters(change, perms).Some?
    ensures var after, letter := Letters(change, perms).value, CopyLetter(perms);
            && after.affected == change.affected && after.op == change.op
            && after.value == Copied(letter) + LettersBits(perms) * change.affected
            && (after.copy <==> letter.Some?) && (after.xIfAny <==> 'X' in perms)
            && OneCopy(perms)
    decreases |perms|
  {
    if perms != [] {
      hide LetterBits, CopyBits, OneCopy, Within;
      var front, last := perms[..|perms| - 1], perms[|perms| - 1];
      WithinFront(perms);
      LettersAre(change, front);
      CopyLetterIs(front);
      LetterKind(last);
      OneCopyMore(front, last);
      assert perms == front + [last];
    } else {
      assert OneCopy(perms);
    }
  }

  lemma WithinFront(perms: string)
    requires perms != [] && Within(perms, PERMISSIONS)
    ensures Within(perms[..|perms| - 1], PERMISSIONS) && perms[|perms| - 1] in PERMISSIONS
  {
  }

  predicate OneCopy(perms: string) {
    forall k :: 0 <= k < |perms| && perms[k] in COPIES ==> CopyLetter(perms) == Some(perms[k])
  }

  lemma OneCopyMore(front: string, last: char)
    requires OneCopy(front) && (last in COPIES ==> CopyLetter(front) == None)
    ensures OneCopy(front + [last])
  {
    var all := front + [last];
    assert all[..|front|] == front && all[|front|] == last;
    assert forall k :: 0 <= k < |front| ==> all[k] == front[k];
  }

  lemma LetterKind(letter: char)
    requires letter in PERMISSIONS
    ensures letter in GRANTS <==> letter !in COPIES
    ensures letter in COPIES ==> LetterBits(letter) == {}
  {
  }

  /** No letter in front of a copied group gives anything, and no group is copied twice. */
  predicate CopyFirst(perms: string, affected: Mode) {
    forall k :: 0 <= k < |perms| && perms[k] in COPIES ==> Nothing(perms[..k], affected)
  }

  predicate Nothing(perms: string, affected: Mode) {
    CopyLetter(perms) == None && LettersBits(perms) * affected == {}
  }

  lemma {:induction false} LettersAccepted(change: Change, perms: string)
    requires Within(perms, PERMISSIONS) && change.value == {} && !change.copy && !change.xIfAny
    ensures Letters(change, perms).Some? <==> CopyFirst(perms, change.affected)
    decreases |perms|
  {
    if perms != [] {
      var front, last := perms[..|perms| - 1], perms[|perms| - 1];
      assert perms == front + [last];
      LettersAccepted(change, front);
      if Letters(change, front).Some? {
        LettersAre(change, front);
        CopyLetterIs(front);
      }
      LetterKind(last);
      hide LetterBits, CopyBits, Nothing;
      CopyFirstMore(front, last, change.affected);
      NothingIs(front, change.affected);
    }
  }

  lemma NothingIs(perms: string, affected: Mode)
    ensures Nothing(perms, affected) <==> Copied(CopyLetter(perms)) + LettersBits(perms) * affected == {}
  {
    CopyLetterIs(perms);
    hide CopyBits, LettersBits;
  }

  lemma CopyFirstMore(front: string, last: char, affected: Mode)
    ensures CopyFirst(front + [last], affected) <==>
              CopyFirst(front, affected) && (last in COPIES ==> Nothing(front, affected))
  {
    hide Nothing;
    var all := front + [last];
    assert all[..|front|] == front && all[|front|] == last;
    forall k | 0 <= k < |front|
      ensures all[..k] == front[..k] && all[k] == front[k]
    {
    }
    if CopyFirst(all, affected) {
      forall k | 0 <= k < |front| && front[k] in COPIES
        ensures Nothing(front[..k], affected)
      {
        assert all[k] in COPIES;
      }
    }
  }

  /** The clause is compiled. */
  predicate Accepted(c: Clause, umask: Mode, flags: Masking) {
    ClauseOk(c) && Compiled(c, umask, flags).Some?
  }

  /** The bits that letters give among those the clause affects. */
  function Extra(c: Clause, umask: Mode, flags: Masking): Mode {
    LettersBits(c.perms) * Affected(c, umask, flags)
  }

  /** A clause is accepted exactly when no letter that gives something, and no other copy, stands
      in front of a copied group. */
  lemma AcceptedExact(c: Clause, umask: Mode, flags: Masking)
    requires ClauseOk(c)
    ensures Accepted(c, umask, flags) <==> CopyFirst(c.perms, Affected(c, umask, flags))
  {
    hide Letters, CopyFirst, Affected;
    LettersAccepted(Change(Affected(c, umask, flags), {}, OperationOf(c.op), false, false), c.perms);
  }

  lemma CompiledIs(c: Clause, umask: Mode, flags: Masking)
    requires Accepted(c, umask, flags)
    ensures var change, letter := Compiled(c, umask, flags).value, CopyLetter(c.perms);
            && change == Change(Affected(c, umask, flags), Copied(letter) + Extra(c, umask, flags), OperationOf(c.op),
                                'X' in c.perms, letter.Some?)
            && change.affected <= MAX_MODE && change.value <= MAX_MODE
            && OneCopy(c.perms)
  {
    ClauseChars(c);
    hide Letters, Affected, LettersBits, Within;
    LettersAre(Change(Affected(c, umask, flags), {}, OperationOf(c.op), false, false), c.perms);
    ClauseSound(c, umask, flags);
  }

  /** The place that a copied group gives to a bit. */
  function SourcePlace(letter: char, b: Bit): nat
    requires b.Perm?
  {
    Place(Perm(Source(letter), b.right))
  }

  /** The bit is copied from a group that has it. */
  predicate CopiedFrom(letter: Option<char>, m: Mode, b: Bit) {
    letter.Some? && b.Perm? && SourcePlace(letter.value, b) in m
  }

  predicate IsExec(b: Bit) {
    b.Perm? && b.right == Exec
  }

  lemma AnyExecIs(m: Mode)
    ensures m * EXECS == {} <==> !AnyExec(BitsOf(m))
  {
    assert Place(Perm(User, Exec)) == 6 && Place(Perm(Group, Exec)) == 3 && Place(Perm(Others, Exec)) == 0;
    if AnyExec(BitsOf(m)) {
      var g: Group :| Perm(g, Exec) in BitsOf(m);
      assert Place(Perm(g, Exec)) in m * EXECS;
    }
    if m * EXECS != {} {
      var k :| k in m * EXECS;
      assert Perm(if k == 6 then User else if k == 3 then Group else Others, Exec) in BitsOf(m);
    }
  }

  lemma LetterAllows(letter: char, b: Bit)
    ensures Allows(letter, b) && letter != 'X' && IsExec(b) ==> letter == 'x'
    ensures Allows('X', b) <==> IsExec(b)
    ensures Allows('x', b) <==> IsExec(b)
    ensures letter in COPIES ==> !Allows(letter, b)
    ensures Place(b) in EXECS <==> IsExec(b)
  {
  }

  /** Which letters choose a bit: a copied group, or letters, among which X counts only if it applies. */
  lemma ChosenIs(c: Clause, umask: Mode, flags: Masking, m: Mode, dir: bool, b: Bit)
    requires OneCopy(c.perms)
    ensures Chosen(c, BitsOf(umask), flags, BitsOf(m), dir, b) <==>
              && Affects(c, BitsOf(umask), flags, b)
              && (CopiedFrom(CopyLetter(c.perms), m, b)
                  || (Given(c.perms, b) && (dir || AnyExec(BitsOf(m)) || !IsExec(b) || 'x' in c.perms)))
  {
    var s, perms := BitsOf(m), c.perms;
    CopyLetterIs(perms);
    hide CopyLetter, Affects, AnyExec;
    if k :| 0 <= k < |perms| && Gives(perms[k], s, dir, b) {
      LetterAllows(perms[k], b);
    }
    if CopiedFrom(CopyLetter(perms), m, b) {
      var k :| 0 <= k < |perms| && perms[k] == CopyLetter(perms).value;
      assert Gives(perms[k], s, dir, b);
    }
    if k :| 0 <= k < |perms| && Allows(perms[k], b) {
      LetterAllows(perms[k], b);
      if dir || AnyExec(s) || !IsExec(b) {
        assert Gives(perms[k], s, dir, b);
      } else if j :| 0 <= j < |perms| && perms[j] == 'x' {
        LetterAllows(perms[j], b);
        assert Gives(perms[j], s, dir, b);
      }
    }
  }

  // ----- letters alone, or beside a copied group without effect

  /** The code means what the clause says on this mode. */
  ghost predicate AgreesOn(c: Clause, umask: Mode, flags: Masking, m: Mode, dir: bool)
    requires Accepted(c, umask, flags)
  {
    BitsOf(Step(Compiled(c, umask, flags).value, m, dir)) == Meaning(c, BitsOf(umask), flags, BitsOf(m), dir)
  }

  /** No letter beside a copied group gives a bit the clause affects. */
  predicate Unmixed(c: Clause, umask: Mode, flags: Masking) {
    Accepted(c, umask, flags) && (CopyLetter(c.perms) == None || Extra(c, umask, flags) == {})
  }

  /** The x that the X beside it takes away: a file that nobody may execute, a clause with both. */
  ghost predicate LosesExec(c: Clause, umask: iset<Bit>, flags: Masking, s: iset<Bit>, dir: bool) {
    && OperationOf(c.op) != Minus && 'x' in c.perms && 'X' in c.perms
    && !dir && !AnyExec(s) && exists g: Group :: Affects(c, umask, flags, Perm(g, Exec))
  }

  /** The bit by which the code and the meaning differ, if they do. */
  ghost predicate Lost(c: Clause, s: iset<Bit>, dir: bool, b: Bit) {
    IsExec(b) && 'x' in c.perms && 'X' in c.perms && !dir && !AnyExec(s)
  }

  lemma BitsMean(c: Clause, umask: Mode, flags: Masking, m: Mode, dir: bool, b: Bit)
    requires Unmixed(c, umask, flags)
    ensures var change := Compiled(c, umask, flags).value;
            && change.affected == Affected(c, umask, flags) && change.op == OperationOf(c.op)
            && (Place(b) in Bits(change, m, dir) <==>
                  Chosen(c, BitsOf(umask), flags, BitsOf(m), dir, b) && !Lost(c, BitsOf(m), dir, b))
  {
    hide Chosen, Affected, Affects, Compiled, LettersBits, Given, AnyExec, Spread, CopyLetter;
    CompiledIs(c, umask, flags);
    AffectedMeans(c, umask, flags, b);
    GivenBits(c.perms, b);
    ChosenIs(c, umask, flags, m, dir, b);
    AnyExecIs(m);
    LetterAllows('X', b);
    XGiven(c.perms, b);
    CopyLetterIs(c.perms);
    var letter := CopyLetter(c.perms);
    if letter.Some? {
      SpreadCopies(letter.value, m, b);
      hide CopyBits, Place, BitsOf;
      assert Compiled(c, umask, flags).value.value == CopyBits(letter.value);
    } else {
      hide Place, BitsOf;
    }
  }

  lemma XGiven(perms: string, b: Bit)
    ensures IsExec(b) && ('x' in perms || 'X' in perms) ==> Given(perms, b)
    ensures IsExec(b) && Given(perms, b) ==> 'x' in perms || 'X' in perms
  {
    LetterAllows('x', b);
    if k :| 0 <= k < |perms| && (perms[k] == 'x' || perms[k] == 'X') {
      LetterAllows(perms[k], b);
      assert IsExec(b) ==> Allows(perms[k], b);
    }
    if k :| 0 <= k < |perms| && Allows(perms[k], b) {
      LetterAllows(perms[k], b);
    }
  }

  /** One compiled clause means what it says, except for an x beside an X that does not apply. */
  lemma ClauseExact(c: Clause, umask: Mode, flags: Masking, m: Mode, dir: bool)
    requires Unmixed(c, umask, flags)
    ensures AgreesOn(c, umask, flags, m, dir) <==> !LosesExec(c, BitsOf(umask), flags, BitsOf(m), dir)
  {
    var us, s := BitsOf(umask), BitsOf(m);
    var change := Compiled(c, umask, flags).value;
    var after := Step(change, m, dir);
    hide Place, Affects, Chosen, Affected, Compiled, Bits, Step, Remains, DiffersAt, Unmixed;
    forall b: Bit
      ensures Place(b) in after <==> Remains(c, us, flags, s, dir, b) && !DiffersAt(c, us, flags, s, dir, b)
    {
      BitsMean(c, umask, flags, m, dir, b);
      AffectedMeans(c, umask, flags, b);
      StepMeans(c, us, flags, s, m, dir, change, b);
    }
    Differences(c, us, flags, s, dir, BitsOf(after));
  }

  /** The clause should leave the bit set, and does not. */
  ghost predicate DiffersAt(c: Clause, umask: iset<Bit>, flags: Masking, s: iset<Bit>, dir: bool, b: Bit) {
    OperationOf(c.op) != Minus && Lost(c, s, dir, b) && Affects(c, umask, flags, b)
  }

  lemma Differences(c: Clause, umask: iset<Bit>, flags: Masking, s: iset<Bit>, dir: bool, after: iset<Bit>)
    requires forall b: Bit ::
               b in after <==> Remains(c, umask, flags, s, dir, b) && !DiffersAt(c, umask, flags, s, dir, b)
    ensures (after == Meaning(c, umask, flags, s, dir)) <==> !LosesExec(c, umask, flags, s, dir)
  {
    var meant := Meaning(c, umask, flags, s, dir);
    if LosesExec(c, umask, flags, s, dir) {
      var g: Group :| Affects(c, umask, flags, Perm(g, Exec));
      var b := Perm(g, Exec);
      assert DiffersAt(c, umask, flags, s, dir, b);
      LostChosen(c, umask, flags, s, dir, b);
      assert b in meant && b !in after;
    } else {
      forall b: Bit ensures b in after <==> b in meant {
        assert IsExec(b) ==> b == Perm(b.group, Exec);
      }
    }
  }

  lemma ExecOf(s: iset<Bit>, b: Bit)
    requires IsExec(b) && b in s
    ensures AnyExec(s)
  {
    assert Perm(b.group, Exec) in s;
  }

  lemma StepMeans(c: Clause, umask: iset<Bit>, flags: Masking, s: iset<Bit>, m: Mode, dir: bool, change: Change, b: Bit)
    requires change.op == OperationOf(c.op) && (b in s <==> Place(b) in m)
    requires Place(b) in change.affected <==> Affects(c, umask, flags, b)
    requires Place(b) in Bits(change, m, dir) <==> Chosen(c, umask, flags, s, dir, b) && !Lost(c, s, dir, b)
    ensures Place(b) in Step(change, m, dir) <==>
              Remains(c, umask, flags, s, dir, b) && !DiffersAt(c, umask, flags, s, dir, b)
  {
    if Lost(c, s, dir, b) {
      LostChosen(c, umask, flags, s, dir, b);
    }
    if b in s && Lost(c, s, dir, b) {
      ExecOf(s, b);
    }
    hide Place, Affects, Chosen, Bits, AnyExec;
  }

  lemma LostChosen(c: Clause, umask: iset<Bit>, flags: Masking, s: iset<Bit>, dir: bool, b: Bit)
    requires Lost(c, s, dir, b)
    ensures Chosen(c, umask, flags, s, dir, b) <==> Affects(c, umask, flags, b)
  {
    var k :| 0 <= k < |c.perms| && c.perms[k] == 'x';
    assert Gives(c.perms[k], s, dir, b);
  }

  // ----- letters that give something beside a copied group

  /** Spreading brings the bit j of the value to k. */
  predicate Shifted(value: Mode, j: nat, k: nat) {
    if value * USER != {} then j == k + 3 || j == k + 6
    else if value * GROUP != {} then j + 3 == k || j == k + 3
    else j + 3 == k || j + 6 == k
  }

  /** The bits of the value that spreading brings to k. */
  function Origins(value: Mode, k: nat): Mode {
    set j: nat | j in value && Shifted(value, j, k)
  }

  lemma InSpread(m: Mode, value: Mode, k: nat)
    requires k < 12
    ensures k in Spread(m, value) <==> k in m * value || Origins(value, k) * m != {}
  {
    var v := m * value;
    InShifts(v, 3, k);
    InShifts(v, 6, k);
    hide ShiftLeft, ShiftRight;
    if j :| j in Origins(value, k) * m {
      assert j in v && Shifted(value, j, k);
    }
    assert k + 3 in v && Shifted(value, k + 3, k) ==> k + 3 in Origins(value, k) * m;
    assert k + 6 in v && Shifted(value, k + 6, k) ==> k + 6 in Origins(value, k) * m;
    if k >= 3 {
      assert k - 3 in v && Shifted(value, k - 3, k) ==> k - 3 in Origins(value, k) * m;
    }
    if k >= 6 {
      assert k - 6 in v && Shifted(value, k - 6, k) ==> k - 6 in Origins(value, k) * m;
    }
  }

  /** Nothing is brought to the places of setuid, setgid and sticky. */
  lemma NoHighOrigins(value: Mode, b: Bit)
    requires value <= MAX_MODE && !b.Perm?
    ensures Origins(value, Place(b)) == {}
  {
    forall j: nat | j in value
      ensures !Shifted(value, j, Place(b))
    {
      assert j in USER ==> j in value * USER;
      assert j in GROUP ==> j in value * GROUP;
    }
  }

  /** Taking away: every affected bit outside the value is reached from the copied group only. */
  predicate ReachedRight(letter: char, value: Mode, affected: Mode) {
    forall g: Group, right: Right :: BitReachedRight(letter, value, affected, Perm(g, right))
  }

  predicate BitReachedRight(letter: char, value: Mode, affected: Mode, b: Bit)
    requires b.Perm?
  {
    Place(b) in affected - value ==> Origins(value, Place(b)) == {SourcePlace(letter, b)}
  }

  /** The clause means what it says on every mode. */
  predicate Faithful(c: Clause, umask: Mode, flags: Masking) {
    var letter, extra := CopyLetter(c.perms), Extra(c, umask, flags);
    match letter
    case None => OperationOf(c.op) == Minus || !('x' in c.perms && 'X' in c.perms) || extra * EXECS == {}
    case Some(source) =>
      if OperationOf(c.op) == Minus then ReachedRight(source, CopyBits(source) + extra, Affected(c, umask, flags))
      else extra == {}
  }

  /** A clause without a letter beside a copied group. */
  lemma UnmixedAlways(c: Clause, umask: Mode, flags: Masking)
    requires Unmixed(c, umask, flags) && (CopyLetter(c.perms) == None || OperationOf(c.op) != Minus)
    ensures (forall m: Mode, dir: bool :: AgreesOn(c, umask, flags, m, dir)) <==> Faithful(c, umask, flags)
  {
    hide Compiled, Step, Meaning, Affects, AnyExec, CopyLetter, OperationOf, Extra, AgreesOn, Affected, ClauseOk;
    var us := BitsOf(umask);
    ExecAffected(c, umask, flags);
    forall m: Mode, dir: bool
      ensures AgreesOn(c, umask, flags, m, dir) <==> !LosesExec(c, us, flags, BitsOf(m), dir)
    {
      ClauseExact(c, umask, flags, m, dir);
    }
    if !Faithful(c, umask, flags) {
      AnyExecIs({});
      assert LosesExec(c, us, flags, BitsOf({}), false);
    }
  }

  lemma ExecAffected(c: Clause, umask: Mode, flags: Masking)
    requires ClauseOk(c)
    ensures 'x' in c.perms ==> (Extra(c, umask, flags) * EXECS != {}
                                <==> exists g: Group :: Affects(c, BitsOf(umask), flags, Perm(g, Exec)))
  {
    ClauseChars(c);
    hide LettersBits, Affected, Affects, BitsOf, Within;
    var extra := Extra(c, umask, flags);
    if 'x' in c.perms {
      forall g: Group
        ensures Place(Perm(g, Exec)) in EXECS
                  && (Place(Perm(g, Exec)) in extra <==> Affects(c, BitsOf(umask), flags, Perm(g, Exec)))
      {
        var b := Perm(g, Exec);
        XGiven(c.perms, b);
        GivenBits(c.perms, b);
        AffectedMeans(c, umask, flags, b);
      }
      if k :| k in extra * EXECS {
        var g := if k == 6 then User else if k == 3 then Group else Others;
        assert Place(Perm(g, Exec)) == k;
      }
      if g: Group :| Affects(c, BitsOf(umask), flags, Perm(g, Exec)) {
        assert Place(Perm(g, Exec)) in extra * EXECS;
      }
    }
  }

  /** Giving: a letter beside a copied group is lost on the empty mode. */
  lemma ExtraLost(c: Clause, umask: Mode, flags: Masking, b: Bit)
    requires Accepted(c, umask, flags) && CopyLetter(c.perms).Some? && OperationOf(c.op) != Minus
    requires Place(b) in Extra(c, umask, flags)
    ensures !AgreesOn(c, umask, flags, {}, true)
  {
    ClauseChars(c);
    hide Compiled, Affects, Chosen, Affected, LettersBits, Given, Place, Within;
    var change := Compiled(c, umask, flags).value;
    CompiledIs(c, umask, flags);
    GivenBits(c.perms, b);
    AffectedMeans(c, umask, flags, b);
    ChosenIs(c, umask, flags, {}, true, b);
    NothingCopied(change, true);
    hide Bits;
    assert b in Meaning(c, BitsOf(umask), flags, BitsOf({}), true);
    assert b !in BitsOf(Step(change, {}, true));
  }

  /** Every bit of a mode below 010000 has a name. */
  lemma BitAt(k: nat) returns (b: Bit)
    requires k in MAX_MODE
    ensures Place(b) == k
  {
    b := if k == 11 then SetUid else if k == 10 then SetGid else if k == 9 then Sticky
         else Perm(if k >= 6 then User else if k >= 3 then Group else Others,
                   if k % 3 == 2 then Read else if k % 3 == 1 then Write else Exec);
  }

  /** Taking away: the bits by which the code and the meaning differ. */
  predicate WronglyKept(letter: char, value: Mode, affected: Mode, m: Mode, b: Bit) {
    && Place(b) in m && Place(b) in affected - value
    && ((Origins(value, Place(b)) * m != {}) != CopiedFrom(Some(letter), m, b))
  }

  lemma CopyBitsPlace(letter: char, b: Bit)
    requires letter in COPIES
    ensures Place(b) in CopyBits(letter) <==> b.Perm? && b.group == Source(letter)
  {
  }

  lemma TakenAt(c: Clause, umask: Mode, flags: Masking, m: Mode, dir: bool, b: Bit)
    requires Accepted(c, umask, flags) && CopyLetter(c.perms).Some? && OperationOf(c.op) == Minus
    ensures var letter := CopyLetter(c.perms).value;
            (Place(b) in Step(Compiled(c, umask, flags).value, m, dir)
             <==> Remains(c, BitsOf(umask), flags, BitsOf(m), dir, b))
            <==> !WronglyKept(letter, CopyBits(letter) + Extra(c, umask, flags), Affected(c, umask, flags), m, b)
  {
    ClauseChars(c);
    OperationIs(c);
    hide Compiled, Affects, Chosen, Affected, LettersBits, Given, Within, AnyExec, Spread, Origins, OperationOf,
         CopyLetter;
    CompiledIs(c, umask, flags);
    GivenBits(c.perms, b);
    AffectedMeans(c, umask, flags, b);
    ChosenIs(c, umask, flags, m, dir, b);
    CopyLetterIs(c.perms);
    var letter, change := CopyLetter(c.perms).value, Compiled(c, umask, flags).value;
    CopyBitsPlace(letter, b);
    assert Place(b) < 12;
    InSpread(m, change.value, Place(b));
    if IsExec(b) && Place(b) in m {
      ExecOf(BitsOf(m), b);
    }
    hide CopyBits, Place, CopiedFrom;
    CopiedSelf(letter, m, b);
  }

  lemma CopiedSelf(letter: char, m: Mode, b: Bit)
    ensures b.Perm? && b.group == Source(letter) && Place(b) in m ==> CopiedFrom(Some(letter), m, b)
  {
  }

  lemma TakesOn(c: Clause, umask: Mode, flags: Masking, m: Mode, dir: bool)
    requires Accepted(c, umask, flags) && CopyLetter(c.perms).Some? && OperationOf(c.op) == Minus
    ensures var letter := CopyLetter(c.perms).value;
            AgreesOn(c, umask, flags, m, dir) <==>
              forall b: Bit :: !WronglyKept(letter, CopyBits(letter) + Extra(c, umask, flags),
                  Affected(c, umask, flags), m, b)
  {
    hide ClauseOk, Compiled, Step, Remains, WronglyKept, Place, CopyLetter, OperationOf, Affected, Extra, CopyBits;
    var meant, after := Meaning(c, BitsOf(umask), flags, BitsOf(m), dir), Step(Compiled(c, umask, flags).value, m, dir);
    forall b: Bit
      ensures (b in BitsOf(after) <==> b in meant)
              <==> !WronglyKept(CopyLetter(c.perms).value, CopyBits(CopyLetter(c.perms).value) + Extra(c, umask, flags),
                                Affected(c, umask, flags), m, b)
    {
      TakenAt(c, umask, flags, m, dir, b);
    }
    assert AgreesOn(c, umask, flags, m, dir) <==> forall b: Bit :: b in BitsOf(after) <==> b in meant;
  }

  /** Where the bits are reached rightly nothing is wrongly kept. */
  lemma ReachedKept(letter: char, value: Mode, affected: Mode, m: Mode, b: Bit)
    requires ReachedRight(letter, value, affected) && value <= MAX_MODE
    ensures !WronglyKept(letter, value, affected, m, b)
  {
    hide Place, Origins;
    if b.Perm? {
      assert BitReachedRight(letter, value, affected, Perm(b.group, b.right));
      assert SourcePlace(letter, b) in m <==> SourcePlace(letter, b) in {SourcePlace(letter, b)} * m;
    } else {
      NoHighOrigins(value, b);
    }
  }

  /** A mode of two bits on which a bit is wrongly kept or taken. */
  lemma WrongMode(letter: char, value: Mode, affected: Mode, b: Bit) returns (m: Mode)
    requires letter in COPIES && CopyBits(letter) <= value && b.Perm? && Place(b) in affected - value
    requires Origins(value, Place(b)) != {SourcePlace(letter, b)}
    ensures WronglyKept(letter, value, affected, m, b)
  {
    var k, source := Place(b), SourcePlace(letter, b);
    CopyBitsPlace(letter, Perm(Source(letter), b.right));
    assert Origins(value, k) <= value;
    hide Place, CopyBits, Origins;
    if source !in Origins(value, k) {
      m := {k, source};
      assert Origins(value, k) * m == {};
    } else {
      var j :| j in Origins(value, k) && j != source;
      m := {k, j};
      assert j in Origins(value, k) * m;
    }
  }

  lemma TakesAlways(c: Clause, umask: Mode, flags: Masking)
    requires Accepted(c, umask, flags) && CopyLetter(c.perms).Some? && OperationOf(c.op) == Minus
    ensures (forall m: Mode, dir: bool :: AgreesOn(c, umask, flags, m, dir)) <==> Faithful(c, umask, flags)
  {
    hide Accepted, AgreesOn, WronglyKept, Place, CopyLetter, OperationOf, Affected, Extra, CopyBits, Origins;
    var letter, affected := CopyLetter(c.perms).value, Affected(c, umask, flags);
    var value := CopyBits(letter) + Extra(c, umask, flags);
    ValueInside(c, umask, flags);
    forall m: Mode, dir: bool
      ensures AgreesOn(c, umask, flags, m, dir) <==> forall b: Bit :: !WronglyKept(letter, value, affected, m, b)
    {
      TakesOn(c, umask, flags, m, dir);
    }
    if Faithful(c, umask, flags) {
      forall m: Mode, b: Bit
        ensures !WronglyKept(letter, value, affected, m, b)
      {
        ReachedKept(letter, value, affected, m, b);
      }
    } else {
      var g: Group, right: Right :| !BitReachedRight(letter, value, affected, Perm(g, right));
      var b := Perm(g, right);
      var m := WrongMode(letter, value, affected, b);
      assert !AgreesOn(c, umask, flags, m, false);
    }
  }

  lemma ValueInside(c: Clause, umask: Mode, flags: Masking)
    requires Accepted(c, umask, flags) && CopyLetter(c.perms).Some?
    ensures var letter := CopyLetter(c.perms).value;
            letter in COPIES && CopyBits(letter) + Extra(c, umask, flags) <= MAX_MODE
  {
    hide Accepted, CopyLetter, Affected, LettersBits, CopyBits;
    CompiledIs(c, umask, flags);
    CopyLetterIs(c.perms);
  }

  /** An accepted clause means what it says on every mode, for files and directories, exactly when:
      letters alone do not hold an x beside an X that both apply; letters beside a copied group give
      nothing, or, where bits are taken away, do not disturb the spreading of the group. */
  lemma ClauseAlways(c: Clause, umask: Mode, flags: Masking)
    requires Accepted(c, umask, flags)
    ensures (forall m: Mode, dir: bool :: AgreesOn(c, umask, flags, m, dir)) <==> Faithful(c, umask, flags)
  {
    hide Accepted, AgreesOn, Affected, LettersBits, CopyLetter, OperationOf, CopyBits, ReachedRight;
    if CopyLetter(c.perms).Some? && OperationOf(c.op) == Minus {
      TakesAlways(c, umask, flags);
    } else if Unmixed(c, umask, flags) {
      UnmixedAlways(c, umask, flags);
    } else {
      CompiledIs(c, umask, flags);
      var k :| k in Extra(c, umask, flags);
      var b := BitAt(k);
      ExtraLost(c, umask, flags, b);
    }
  }

  lemma NoShift()
    ensures ShiftLeft({}, 3) == {} && ShiftLeft({}, 6) == {} && ShiftRight({}, 3) == {} && ShiftRight({}, 6) == {}
  {
  }
  // ----- whole texts

  predicate IsOctal(c: char) {
    '0' <= c <= '7'
  }

  function Octal(s: string, value: nat): nat {
    if s == [] || !IsOctal(s[0]) then value else Octal(s[1..], value * 8 + (s[0] - '0') as nat)
  }

  /** strtol(3) to base 8: None when there is no number at the front of the text. */
  function StrtolOctal(s: string): Option<int> {
    if s == [] then None
    else if IsSpace(s[0]) then StrtolOctal(s[1..])
    else if s[0] == '-' then (if |s| > 1 && IsOctal(s[1]) then Some(-(Octal(s[1..], 0) as int)) else None)
    else if s[0] == '+' then (if |s| > 1 && IsOctal(s[1]) then Some(Octal(s[1..], 0)) else None)
    else if IsOctal(s[0]) then Some(Octal(s, 0))
    else None
  }

  /** The bits of a number below 010000. */
  function NumberBits(n: nat): Mode {
    set k: nat | k < 12 && n / Power(k) % 2 == 1
  }

  function Power(k: nat): (p: nat)
    ensures p > 0
  {
    if k == 0 then 1 else 2 * Power(k - 1)
  }

  /** The compiled clauses of a text of clauses with commas between them; a last comma may be there. */
  function CompileAll(text: string, umask: Mode, flags: Masking): Option<seq<Change>> {
    match ClauseAt(text)
    case None => None
    case Some((c, rest)) =>
      var change := Compiled(c, umask, flags);
      if change == None then None
      else if rest == [] || rest == "," then Some([change.value])
      else if rest[0] != ',' then None
      else
        var others := CompileAll(rest[1..], umask, flags);
        if others == None then None else Some([change.value] + others.value)
  }

  /** What the list holds when all clauses have been linked into it: the first and the last. */
  function Kept<T>(all: seq<T>): seq<T> {
    if |all| <= 2 then all else [all[0], all[|all| - 1]]
  }

  /** The list mode_compile makes of a text. */
  function CompileText(text: string, umask: Mode, flags: Masking): Option<seq<Change>> {
    if text == [] then None
    else match StrtolOctal(text)
      case Some(n) => if n < 0 || n > 0xFFF then None else Some([Change(MAX_MODE, NumberBits(n), Assign, false, false)])
      case None =>
        var all := CompileAll(text, umask, flags);
        if all == None then None else Some(Kept(all.value))
  }

  predicate IsDir(m: Mode) {
    m * {12, 13, 14, 15} == {14}
  }

  function Adjusted(m: Mode, changes: seq<Change>): Mode {
    Steps(changes, m * MAX_MODE, IsDir(m))
  }

  function Joined(cs: seq<Clause>): string
    requires cs != []
  {
    if |cs| == 1 then ClauseText(cs[0]) else ClauseText(cs[0]) + "," + Joined(cs[1..])
  }

  predicate AllOk(cs: seq<Clause>) {
    forall k :: 0 <= k < |cs| ==> ClauseOk(cs[k])
  }

  predicate AllAccepted(cs: seq<Clause>, umask: Mode, flags: Masking) {
    forall k :: 0 <= k < |cs| ==> Accepted(cs[k], umask, flags)
  }

  function Prepended(change: Option<Change>, others: Option<seq<Change>>): (r: Option<seq<Change>>)
    ensures r.Some? <==> change.Some? && others.Some?
  {
    if change == None || others == None then None else Some([change.value] + others.value)
  }

  /** The compiled clauses, when all are accepted. */
  function CompiledEach(cs: seq<Clause>, umask: Mode, flags: Masking): (r: Option<seq<Change>>)
    ensures r.Some? ==> |r.value| == |cs|
  {
    if cs == [] then Some([])
    else Prepended(Compiled(cs[0], umask, flags), CompiledEach(cs[1..], umask, flags))
  }

  /** A joined text is compiled clause by clause, or refused with one of its clauses; it is no number. */
  lemma {:induction false} JoinedCompiles(cs: seq<Clause>, umask: Mode, flags: Masking)
    requires cs != [] && AllOk(cs)
    ensures CompileAll(Joined(cs), umask, flags) == CompiledEach(cs, umask, flags)
    ensures Joined(cs) != [] && StrtolOctal(Joined(cs)) == None
    decreases |cs|
  {
    hide CompileAll, Compiled, StrtolOctal, ClauseText, ClauseOk, Prepended;
    var c := cs[0];
    if |cs| == 1 {
      NotANumber(c, []);
      CompileLast(c, umask, flags);
      assert cs[1..] == [];
    } else {
      JoinedCompiles(cs[1..], umask, flags);
      NotANumber(c, "," + Joined(cs[1..]));
      CompileFirst(c, Joined(cs[1..]), umask, flags);
      JoinedFirst(cs);
    }
  }

  lemma {:induction false} EachAccepted(cs: seq<Clause>, umask: Mode, flags: Masking)
    requires AllOk(cs)
    ensures CompiledEach(cs, umask, flags).Some? <==> AllAccepted(cs, umask, flags)
    decreases |cs|
  {
    hide Compiled, ClauseOk;
    if cs != [] {
      EachAccepted(cs[1..], umask, flags);
      assert forall k :: 0 <= k < |cs[1..]| ==> cs[1..][k] == cs[k + 1];
      if AllAccepted(cs[1..], umask, flags) && Accepted(cs[0], umask, flags) {
        forall k | 0 <= k < |cs|
          ensures Accepted(cs[k], umask, flags)
        {
          assert k > 0 ==> cs[k] == cs[1..][k - 1];
        }
      }
    }
  }

  /** A text of clauses is accepted exactly when each of its clauses is. */
  lemma TextAccepted(cs: seq<Clause>, umask: Mode, flags: Masking)
    requires cs != [] && AllOk(cs)
    ensures CompileText(Joined(cs), umask, flags).Some? <==> AllAccepted(cs, umask, flags)
  {
    hide CompileAll, StrtolOctal, Joined, AllAccepted, AllOk;
    JoinedCompiles(cs, umask, flags);
    EachAccepted(cs, umask, flags);
  }

  lemma JoinedFirst(cs: seq<Clause>)
    requires |cs| > 1
    ensures Joined(cs) == ClauseText(cs[0]) + ("," + Joined(cs[1..]))
  {
    hide ClauseText;
  }

  lemma CompileLast(c: Clause, umask: Mode, flags: Masking)
    requires ClauseOk(c)
    ensures CompileAll(ClauseText(c), umask, flags) == Prepended(Compiled(c, umask, flags), Some([]))
    ensures ClauseText(c) == ClauseText(c) + []
  {
    hide ClauseAt, Compiled;
    ClauseAtText(c, []);
    assert ClauseText(c) + [] == ClauseText(c);
    if Compiled(c, umask, flags).Some? {
      assert [Compiled(c, umask, flags).value] + [] == [Compiled(c, umask, flags).value];
    }
  }

  lemma CompileFirst(c: Clause, others: string, umask: Mode, flags: Masking)
    requires ClauseOk(c) && others != []
    ensures CompileAll(ClauseText(c) + ("," + others), umask, flags)
              == Prepended(Compiled(c, umask, flags), CompileAll(others, umask, flags))
  {
    hide ClauseAt, Compiled;
    var rest := "," + others;
    assert rest != "," && rest[1..] == others && rest[0] == ',';
    ClauseAtText(c, rest);
  }

  /** A comma behind the last clause changes nothing. */
  lemma TrailingComma(cs: seq<Clause>, umask: Mode, flags: Masking)
    requires cs != [] && AllOk(cs)
    ensures CompileText(Joined(cs) + ",", umask, flags) == CompileText(Joined(cs), umask, flags)
  {
    hide CompileAll, StrtolOctal, Joined, AllOk;
    JoinedCompiles(cs, umask, flags);
    CommaCompiles(cs, umask, flags);
  }

  lemma {:induction false} CommaCompiles(cs: seq<Clause>, umask: Mode, flags: Masking)
    requires cs != [] && AllOk(cs)
    ensures CompileAll(Joined(cs) + ",", umask, flags) == CompileAll(Joined(cs), umask, flags)
    ensures StrtolOctal(Joined(cs) + ",") == None
    decreases |cs|
  {
    hide CompileAll, Compiled, StrtolOctal, ClauseText, ClauseOk, Prepended;
    var c := cs[0];
    if |cs| == 1 {
      NotANumber(c, ",");
      CompileLast(c, umask, flags);
      CompileComma(c, umask, flags);
    } else {
      var others := Joined(cs[1..]);
      CommaCompiles(cs[1..], umask, flags);
      JoinedCompiles(cs[1..], umask, flags);
      CompileFirst(c, others, umask, flags);
      CompileFirst(c, others + ",", umask, flags);
      NotANumber(c, "," + (others + ","));
      JoinedFirst(cs);
      CommaBehind(ClauseText(c), others);
    }
  }

  lemma CommaBehind(a: string, b: string)
    ensures a + ("," + b) + "," == a + ("," + (b + ","))
  {
  }

  lemma CompileComma(c: Clause, umask: Mode, flags: Masking)
    requires ClauseOk(c)
    ensures CompileAll(ClauseText(c) + ",", umask, flags) == Prepended(Compiled(c, umask, flags), Some([]))
  {
    hide ClauseAt, Compiled;
    ClauseAtText(c, ",");
    if Compiled(c, umask, flags).Some? {
      assert [Compiled(c, umask, flags).value] + [] == [Compiled(c, umask, flags).value];
    }
  }

  lemma NotANumber(c: Clause, rest: string)
    requires ClauseOk(c)
    ensures var s := ClauseText(c) + rest; s != [] && StrtolOctal(s) == None
  {
    var s := ClauseText(c) + rest;
    if c.who == [] {
      assert s[0] == c.op && s[1] == c.perms[0];
    } else {
      assert s[0] == c.who[0];
    }
    hide Octal;
  }

  predicate AllFaithful(cs: seq<Clause>, umask: Mode, flags: Masking) {
    forall k :: 0 <= k < |cs| ==> Accepted(cs[k], umask, flags) && Faithful(cs[k], umask, flags)
  }

  lemma FaithfulStep(c: Clause, umask: Mode, flags: Masking, m: Mode, dir: bool)
    requires Accepted(c, umask, flags) && Faithful(c, umask, flags)
    ensures BitsOf(Step(Compiled(c, umask, flags).value, m, dir)) == Meaning(c, BitsOf(umask), flags, BitsOf(m), dir)
  {
    ClauseAlways(c, umask, flags);
    hide Step, Compiled, Meaning, Faithful;
    assert AgreesOn(c, umask, flags, m, dir);
  }

  lemma {:induction false} StepsMean(cs: seq<Clause>, umask: Mode, flags: Masking, m: Mode, dir: bool)
    requires AllFaithful(cs, umask, flags) && CompiledEach(cs, umask, flags).Some?
    ensures BitsOf(Steps(CompiledEach(cs, umask, flags).value, m, dir))
              == Meanings(cs, BitsOf(umask), flags, BitsOf(m), dir)
    decreases |cs|
  {
    hide Step, Compiled, Meaning, Faithful, ClauseOk;
    if cs != [] {
      FaithfulStep(cs[0], umask, flags, m, dir);
      var change := Compiled(cs[0], umask, flags).value;
      var all := CompiledEach(cs, umask, flags).value;
      assert all[0] == change && all[1..] == CompiledEach(cs[1..], umask, flags).value;
      FaithfulRest(cs, umask, flags);
      StepsMean(cs[1..], umask, flags, Step(change, m, dir), dir);
    }
  }

  lemma FaithfulRest(cs: seq<Clause>, umask: Mode, flags: Masking)
    requires cs != [] && AllFaithful(cs, umask, flags)
    ensures AllFaithful(cs[1..], umask, flags)
  {
    hide Accepted, Faithful;
  }

  /**
   The mode a text of clauses makes of a mode: the first and the last of its clauses, in order.
   With up to two clauses that is the meaning of the text.
   */
  lemma TextMeans(cs: seq<Clause>, umask: Mode, flags: Masking, m: Mode)
    requires cs != [] && AllOk(cs) && CompileText(Joined(cs), umask, flags).Some?
    requires AllFaithful(Kept(cs), umask, flags)
    ensures BitsOf(Adjusted(m, CompileText(Joined(cs), umask, flags).value))
              == Meanings(Kept(cs), BitsOf(umask), flags, BitsOf(m * MAX_MODE), IsDir(m))
    ensures |cs| <= 2 ==> Kept(cs) == cs
  {
    hide Joined, CompileAll, CompiledEach, Steps, Meanings, StrtolOctal, AllFaithful, AllOk, IsDir;
    JoinedCompiles(cs, umask, flags);
    KeptCompiled(cs, umask, flags);
    KeptFew(cs);
    hide Kept;
    StepsMean(Kept(cs), umask, flags, m * MAX_MODE, IsDir(m));
  }

  lemma KeptFew(cs: seq<Clause>)
    ensures |cs| <= 2 ==> Kept(cs) == cs
  {
  }

  lemma KeptCompiled(cs: seq<Clause>, umask: Mode, flags: Masking)
    requires cs != [] && CompiledEach(cs, umask, flags).Some?
    ensures CompiledEach(Kept(cs), umask, flags) == Some(Kept(CompiledEach(cs, umask, flags).value))
  {
    hide Compiled;
    if |cs| > 2 {
      var a, z := cs[0], cs[|cs| - 1];
      CompiledAt(cs, 0, umask, flags);
      CompiledAt(cs, |cs| - 1, umask, flags);
      CompiledTwo(a, z, umask, flags);
    }
  }

  lemma CompiledTwo(a: Clause, z: Clause, umask: Mode, flags: Masking)
    requires Compiled(a, umask, flags).Some? && Compiled(z, umask, flags).Some?
    ensures CompiledEach([a, z], umask, flags)
              == Some([Compiled(a, umask, flags).value, Compiled(z, umask, flags).value])
  {
    hide Compiled;
    assert [a, z][1..] == [z] && [z][1..] == [];
    var x, y := Compiled(a, umask, flags).value, Compiled(z, umask, flags).value;
    assert CompiledEach([z], umask, flags) == Prepended(Compiled(z, umask, flags), Some([]));
    assert [x] + ([y] + []) == [x, y];
  }

  lemma {:induction false} CompiledAt(cs: seq<Clause>, k: nat, umask: Mode, flags: Masking)
    requires CompiledEach(cs, umask, flags).Some? && k < |cs|
    ensures Some(CompiledEach(cs, umask, flags).value[k]) == Compiled(cs[k], umask, flags)
    decreases k
  {
    hide Compiled;
    if k > 0 {
      CompiledAt(cs[1..], k - 1, umask, flags);
    }
  }

  // ----- when a text of any length means all of its clauses

  /** The mode that is made is the meaning of the whole text. */
  ghost predicate TextAgrees(cs: seq<Clause>, umask: Mode, flags: Masking, m: Mode)
    requires cs != [] && CompileText(Joined(cs), umask, flags).Some?
  {
    BitsOf(Adjusted(m, CompileText(Joined(cs), umask, flags).value))
      == Meanings(cs, BitsOf(umask), flags, BitsOf(m * MAX_MODE), IsDir(m))
  }

  /** What a clause does to a bit, whatever the mode is. */
  datatype Decision = Set | Clear | Keep

  /** A clause of letters that do not look at the mode. */
  predicate Fixed(c: Clause) {
    ClauseOk(c) && Within(c.perms, FIXED)
  }

  predicate FixedText(cs: seq<Clause>) {
    forall k :: 0 <= k < |cs| ==> Fixed(cs[k])
  }

  function Decide(c: Clause, umask: iset<Bit>, flags: Masking, b: Bit): Decision {
    if !Affects(c, umask, flags, b) then Keep
    else if Given(c.perms, b) then (if OperationOf(c.op) == Minus then Clear else Set)
    else if OperationOf(c.op) == Assign then Clear
    else Keep
  }

  /** The last clause that decides a bit. */
  function Last(cs: seq<Clause>, umask: iset<Bit>, flags: Masking, b: Bit): Decision {
    if cs == [] then Keep
    else
      var later := Last(cs[1..], umask, flags, b);
      if later != Keep then later else Decide(cs[0], umask, flags, b)
  }

  predicate After(d: Decision, was: bool) {
    match d
    case Set => true
    case Clear => false
    case Keep => was
  }

  lemma DecideMeans(c: Clause, umask: iset<Bit>, flags: Masking, s: iset<Bit>, dir: bool, b: Bit)
    requires Fixed(c)
    ensures b in Meaning(c, umask, flags, s, dir) <==> After(Decide(c, umask, flags, b), b in s)
  {
    hide Affects;
    forall k | 0 <= k < |c.perms|
      ensures Gives(c.perms[k], s, dir, b) <==> Allows(c.perms[k], b)
    {
      FixedLetter(c.perms[k]);
      hide Allows;
    }
    assert Chosen(c, umask, flags, s, dir, b) <==> Affects(c, umask, flags, b) && Given(c.perms, b);
    hide Allows, Chosen;
  }

  lemma FixedLetter(letter: char)
    requires letter in FIXED
    ensures letter in GRANTS && letter !in COPIES && letter != 'X'
  {
  }

  lemma {:induction false} LastMeans(cs: seq<Clause>, umask: iset<Bit>, flags: Masking, s: iset<Bit>, dir: bool, b: Bit)
    requires FixedText(cs)
    ensures b in Meanings(cs, umask, flags, s, dir) <==> After(Last(cs, umask, flags, b), b in s)
    decreases |cs|
  {
    hide Fixed, Decide, Meaning;
    if cs != [] {
      DecideMeans(cs[0], umask, flags, s, dir, b);
      LastMeans(cs[1..], umask, flags, Meaning(cs[0], umask, flags, s, dir), dir, b);
    }
  }

  lemma FixedIsFaithful(c: Clause, umask: Mode, flags: Masking)
    requires Fixed(c)
    ensures Accepted(c, umask, flags) && Faithful(c, umask, flags)
  {
    hide Affected, LettersBits, Compiled;
    forall k | 0 <= k < |c.perms|
      ensures c.perms[k] !in COPIES && c.perms[k] != 'X'
    {
      FixedLetter(c.perms[k]);
    }
    AcceptedExact(c, umask, flags);
    CopyLetterIs(c.perms);
  }

  /** Two decisions that differ give different bits to the empty mode, or to the mode of this bit. */
  lemma DecisionsDiffer(d: Decision, e: Decision)
    requires d != e
    ensures After(d, false) != After(e, false) || After(d, true) != After(e, true)
  {
  }

  lemma AllFixed(cs: seq<Clause>, umask: Mode, flags: Masking)
    requires cs != [] && FixedText(cs)
    ensures AllOk(cs) && CompileText(Joined(cs), umask, flags).Some?
    ensures AllFaithful(Kept(cs), umask, flags) && FixedText(Kept(cs))
  {
    hide CompileText, Joined, AllOk, AllAccepted, AllFaithful, FixedText;
    EachFixed(cs, umask, flags);
    TextAccepted(cs, umask, flags);
    EachFixed(Kept(cs), umask, flags);
  }

  lemma EachFixed(cs: seq<Clause>, umask: Mode, flags: Masking)
    requires FixedText(cs)
    ensures AllOk(cs) && AllAccepted(cs, umask, flags) && AllFaithful(cs, umask, flags)
    ensures FixedText(Kept(cs)) && (cs != [] ==> Kept(cs) != [])
  {
    hide Faithful, Compiled, Within, ClauseOk;
    forall k | 0 <= k < |cs|
      ensures ClauseOk(cs[k]) && Accepted(cs[k], umask, flags) && Faithful(cs[k], umask, flags)
    {
      FixedIsFaithful(cs[k], umask, flags);
    }
  }

  /** The bits of a mode below 010000, and those of it. */
  lemma TextBit(cs: seq<Clause>, umask: Mode, flags: Masking, m: Mode, b: Bit)
    requires cs != [] && FixedText(cs)
    ensures AllOk(cs) && CompileText(Joined(cs), umask, flags).Some?
    ensures var us, was := BitsOf(umask), b in BitsOf(m * MAX_MODE);
            && (b in BitsOf(Adjusted(m, CompileText(Joined(cs), umask, flags).value))
                <==> After(Last(Kept(cs), us, flags, b), was))
            && (b in Meanings(cs, us, flags, BitsOf(m * MAX_MODE), IsDir(m)) <==> After(Last(cs, us, flags, b), was))
  {
    hide CompileText, Joined, FixedText, Adjusted, Last, Meanings, IsDir, AllFaithful;
    AllFixed(cs, umask, flags);
    TextMeans(cs, umask, flags, m);
    LastMeans(cs, BitsOf(umask), flags, BitsOf(m * MAX_MODE), IsDir(m), b);
    LastMeans(Kept(cs), BitsOf(umask), flags, BitsOf(m * MAX_MODE), IsDir(m), b);
  }

  /**
   A text of the letters r, w, x, s and t means all of its clauses on every mode exactly when for each
   bit the last clause that decides it decides as the first and the last clause alone would.
   */
  lemma TextExact(cs: seq<Clause>, umask: Mode, flags: Masking)
    requires cs != [] && FixedText(cs)
    ensures CompileText(Joined(cs), umask, flags).Some?
    ensures (forall m :: TextAgrees(cs, umask, flags, m))
            <==> forall b: Bit :: Last(cs, BitsOf(umask), flags, b) == Last(Kept(cs), BitsOf(umask), flags, b)
  {
    hide CompileText, Joined, FixedText, Adjusted, Last, Meanings, Kept, IsDir, BitsOf, AllOk;
    var us := BitsOf(umask);
    AllFixed(cs, umask, flags);
    if b: Bit :| Last(cs, us, flags, b) != Last(Kept(cs), us, flags, b) {
      DecisionsDiffer(Last(cs, us, flags, b), Last(Kept(cs), us, flags, b));
      OneBit(b);
      TextBit(cs, umask, flags, {}, b);
      TextBit(cs, umask, flags, {Place(b)}, b);
      assert !TextAgrees(cs, umask, flags, {}) || !TextAgrees(cs, umask, flags, {Place(b)});
    } else {
      forall m
        ensures TextAgrees(cs, umask, flags, m)
      {
        forall b: Bit
          ensures b in BitsOf(Adjusted(m, CompileText(Joined(cs), umask, flags).value))
                  <==> b in Meanings(cs, us, flags, BitsOf(m * MAX_MODE), IsDir(m))
        {
          TextBit(cs, umask, flags, m, b);
        }
      }
    }
  }

  lemma OneBit(b: Bit)
    ensures b !in BitsOf({} * MAX_MODE) && b in BitsOf({Place(b)} * MAX_MODE)
  {
    assert Place(b) in MAX_MODE;
  }

  // ----- the same for any clauses, one way

  /** What a letter may give to a bit on some mode. */
  predicate MayGive(letter: char, b: Bit) {
    if letter in COPIES then b.Perm? else Allows(letter, b)
  }

  /** The clause may change the bit on some mode. */
  predicate Touches(c: Clause, umask: iset<Bit>, flags: Masking, b: Bit) {
    && Affects(c, umask, flags, b)
    && (OperationOf(c.op) == Assign || exists k :: 0 <= k < |c.perms| && MayGive(c.perms[k], b))
  }

  /** The clause leaves the bit the same on every mode. */
  predicate Settles(c: Clause, umask: iset<Bit>, flags: Masking, b: Bit) {
    && Affects(c, umask, flags, b)
    && ((exists k :: 0 <= k < |c.perms| && c.perms[k] in FIXED && Allows(c.perms[k], b))
        || (OperationOf(c.op) == Assign && forall k :: 0 <= k < |c.perms| ==> !MayGive(c.perms[k], b)))
  }

  /** The clause looks at the bit: it copies it, or asks with X whether anybody may execute. */
  predicate LooksAt(c: Clause, b: Bit) {
    exists k :: 0 <= k < |c.perms| && LetterLooksAt(c.perms[k], b)
  }

  predicate LetterLooksAt(letter: char, b: Bit) {
    b.Perm? && ((letter in COPIES && b.group == Source(letter)) || (letter == 'X' && b.right == Exec))
  }

  predicate SomeTouches(cs: seq<Clause>, umask: iset<Bit>, flags: Masking, b: Bit) {
    exists k :: 0 <= k < |cs| && Touches(cs[k], umask, flags, b)
  }

  lemma UntouchedStays(c: Clause, umask: iset<Bit>, flags: Masking, s: iset<Bit>, dir: bool, b: Bit)
    requires !Touches(c, umask, flags, b)
    ensures b in Meaning(c, umask, flags, s, dir) <==> b in s
  {
    hide Affects, Gives, MayGive;
    GiversMay(c.perms, s, dir, b);
  }

  lemma GiversMay(perms: string, s: iset<Bit>, dir: bool, b: Bit)
    ensures forall k :: 0 <= k < |perms| && Gives(perms[k], s, dir, b) ==> MayGive(perms[k], b)
  {
    hide Allows;
  }

  lemma {:induction false} UntouchedByAll(cs: seq<Clause>, umask: iset<Bit>, flags: Masking, s: iset<Bit>, dir: bool,
      b: Bit)
    requires !SomeTouches(cs, umask, flags, b)
    ensures b in Meanings(cs, umask, flags, s, dir) <==> b in s
    decreases |cs|
  {
    hide Touches, Meaning;
    if cs != [] {
      UntouchedStays(cs[0], umask, flags, s, dir, b);
      assert forall k :: 0 <= k < |cs[1..]| ==> cs[1..][k] == cs[k + 1];
      UntouchedByAll(cs[1..], umask, flags, Meaning(cs[0], umask, flags, s, dir), dir, b);
    }
  }

  /** Two modes that differ only where the clause settles the bit and does not look. */
  ghost predicate Alike(c: Clause, umask: iset<Bit>, flags: Masking, s: iset<Bit>, t: iset<Bit>) {
    forall b: Bit :: (b in s <==> b in t) || (Settles(c, umask, flags, b) && !LooksAt(c, b))
  }

  lemma SameGiven(c: Clause, umask: iset<Bit>, flags: Masking, s: iset<Bit>, t: iset<Bit>, dir: bool, k: nat, b: Bit)
    requires Alike(c, umask, flags, s, t) && k < |c.perms|
    ensures Gives(c.perms[k], s, dir, b) <==> Gives(c.perms[k], t, dir, b)
  {
    hide Settles, Allows;
    var letter := c.perms[k];
    if letter in COPIES {
      if b.Perm? {
        assert LetterLooksAt(letter, Perm(Source(letter), b.right));
      }
    } else if letter == 'X' {
      forall g: Group
        ensures Perm(g, Exec) in s <==> Perm(g, Exec) in t
      {
        assert LetterLooksAt(letter, Perm(g, Exec));
      }
    }
  }

  lemma AlikeMeans(c: Clause, umask: iset<Bit>, flags: Masking, s: iset<Bit>, t: iset<Bit>, dir: bool)
    requires Alike(c, umask, flags, s, t)
    ensures Meaning(c, umask, flags, s, dir) == Meaning(c, umask, flags, t, dir)
  {
    hide Affects, Allows, LooksAt, Gives;
    forall b: Bit
      ensures Remains(c, umask, flags, s, dir, b) <==> Remains(c, umask, flags, t, dir, b)
    {
      forall k | 0 <= k < |c.perms|
        ensures Gives(c.perms[k], s, dir, b) <==> Gives(c.perms[k], t, dir, b)
      {
        SameGiven(c, umask, flags, s, t, dir, k, b);
      }
      if Settles(c, umask, flags, b) {
        SettledBit(c, umask, flags, s, dir, b);
        SettledBit(c, umask, flags, t, dir, b);
      }
    }
  }

  lemma SettledBit(c: Clause, umask: iset<Bit>, flags: Masking, s: iset<Bit>, dir: bool, b: Bit)
    requires Settles(c, umask, flags, b)
    ensures Remains(c, umask, flags, s, dir, b) <==>
              && OperationOf(c.op) != Minus
              && exists k :: 0 <= k < |c.perms| && c.perms[k] in FIXED && Allows(c.perms[k], b)
  {
    hide Affects, MayGive;
    if k :| 0 <= k < |c.perms| && c.perms[k] in FIXED && Allows(c.perms[k], b) {
      FixedLetter(c.perms[k]);
      assert Gives(c.perms[k], s, dir, b);
    }
    GiversMay(c.perms, s, dir, b);
    hide Gives, Allows;
  }

  /** The clauses between the first and the last change only bits that the last one settles and does not look at. */
  predicate MiddleIdle(cs: seq<Clause>, umask: iset<Bit>, flags: Masking, b: Bit) {
    |cs| > 2 && SomeTouches(cs[1..|cs| - 1], umask, flags, b) ==>
      Settles(cs[|cs| - 1], umask, flags, b) && !LooksAt(cs[|cs| - 1], b)
  }

  lemma {:induction false} MeaningsAppend(cs: seq<Clause>, z: Clause, umask: iset<Bit>, flags: Masking, s: iset<Bit>,
      dir: bool)
    ensures Meanings(cs + [z], umask, flags, s, dir)
              == Meaning(z, umask, flags, Meanings(cs, umask, flags, s, dir), dir)
    decreases |cs|
  {
    hide Meaning;
    if cs == [] {
      assert cs + [z] == [z] && [z][1..] == [];
    } else {
      MeaningsAppend(cs[1..], z, umask, flags, Meaning(cs[0], umask, flags, s, dir), dir);
      assert (cs + [z])[1..] == cs[1..] + [z];
    }
  }

  lemma IdleMeans(cs: seq<Clause>, umask: iset<Bit>, flags: Masking, s: iset<Bit>, dir: bool)
    requires cs != [] && forall b: Bit :: MiddleIdle(cs, umask, flags, b)
    ensures Meanings(Kept(cs), umask, flags, s, dir) == Meanings(cs, umask, flags, s, dir)
  {
    hide Meaning, Settles, LooksAt, SomeTouches, Meanings;
    if |cs| > 2 {
      var n := |cs| - 1;
      var first, middle, z := cs[0], cs[1..n], cs[n];
      var s1 := Meaning(first, umask, flags, s, dir);
      var s2 := Meanings(middle, umask, flags, s1, dir);
      forall b: Bit
        ensures (b in s1 <==> b in s2) || (Settles(z, umask, flags, b) && !LooksAt(z, b))
      {
        assert MiddleIdle(cs, umask, flags, b);
        if !SomeTouches(middle, umask, flags, b) {
          UntouchedByAll(middle, umask, flags, s1, dir, b);
        }
      }
      AlikeMeans(z, umask, flags, s1, s2, dir);
      MeaningsAppend(middle, z, umask, flags, s1, dir);
      MeaningsAppend([], z, umask, flags, s1, dir);
      FirstMeaning(first, middle + [z], umask, flags, s, dir);
      FirstMeaning(first, [z], umask, flags, s, dir);
      NoMeaning(umask, flags, s1, dir);
      assert cs == [first] + (middle + [z]) && Kept(cs) == [first] + [z] && [] + [z] == [z];
    }
  }

  lemma FirstMeaning(c: Clause, cs: seq<Clause>, umask: iset<Bit>, flags: Masking, s: iset<Bit>, dir: bool)
    ensures Meanings([c] + cs, umask, flags, s, dir)
              == Meanings(cs, umask, flags, Meaning(c, umask, flags, s, dir), dir)
  {
    hide Meaning;
    assert ([c] + cs)[1..] == cs;
  }

  lemma NoMeaning(umask: iset<Bit>, flags: Masking, s: iset<Bit>, dir: bool)
    ensures Meanings([], umask, flags, s, dir) == s
  {
  }

  /** An accepted text means all of its clauses on every mode if its first and last clause are faithful and
      the others are idle, X and copied groups included. */
  lemma TextIdle(cs: seq<Clause>, umask: Mode, flags: Masking, m: Mode)
    requires cs != [] && AllOk(cs) && CompileText(Joined(cs), umask, flags).Some?
    requires AllFaithful(Kept(cs), umask, flags) && forall b: Bit :: MiddleIdle(cs, BitsOf(umask), flags, b)
    ensures TextAgrees(cs, umask, flags, m)
  {
    hide CompileText, Joined, Adjusted, Meanings, Kept, IsDir, AllFaithful, AllOk, MiddleIdle;
    TextMeans(cs, umask, flags, m);
    IdleMeans(cs, BitsOf(umask), flags, BitsOf(m * MAX_MODE), IsDir(m));
  }

  function AllAffected(changes: seq<Change>): Mode {
    if changes == [] then {} else changes[0].affected + AllAffected(changes[1..])
  }

  predicate AllSound(changes: seq<Change>) {
    forall k :: 0 <= k < |changes| ==> Sound(changes[k])
  }

  lemma {:induction false} StepsStay(changes: seq<Change>, m: Mode, dir: bool)
    requires AllSound(changes) && m <= MAX_MODE
    ensures var after := Steps(changes, m, dir);
            after <= MAX_MODE && after - AllAffected(changes) == m - AllAffected(changes)
    decreases |changes|
  {
    if changes != [] {
      StepStays(changes[0], m, dir);
      hide Step, Sound;
      var one := Step(changes[0], m, dir);
      StepsStay(changes[1..], one, dir);
      var a, b, after := changes[0].affected, AllAffected(changes[1..]), Steps(changes, m, dir);
      assert after - (a + b) == (after - b) - a == (one - b) - a == (one - a) - b == (m - a) - b == m - (a + b);
    }
  }

  lemma {:induction false} CompiledSound(text: string, umask: Mode, flags: Masking)
    requires CompileAll(text, umask, flags).Some?
    ensures AllSound(CompileAll(text, umask, flags).value)
    decreases |text|
  {
    var (c, rest) := ClauseAt(text).value;
    ClauseSound(c, umask, flags);
    hide Sound, ClauseAt, Compiled;
    if rest != [] && rest != "," {
      CompiledSound(rest[1..], umask, flags);
    }
  }

  /** Any text that is accepted gives permission bits only, and changes none that it does not affect. */
  lemma TextStays(text: string, umask: Mode, flags: Masking, m: Mode)
    requires CompileText(text, umask, flags).Some?
    ensures var list := CompileText(text, umask, flags).value;
            && Adjusted(m, list) <= MAX_MODE
            && Adjusted(m, list) - AllAffected(list) == m * MAX_MODE - AllAffected(list)
  {
    TextSound(text, umask, flags);
    hide Steps, CompileText, AllSound, AllAffected, IsDir;
    StepsStay(CompileText(text, umask, flags).value, m * MAX_MODE, IsDir(m));
  }

  predicate Unnamed(cs: seq<Clause>) {
    forall k :: 0 <= k < |cs| ==> cs[k].who == []
  }

  /** Where all three operations spare the umask, a text whose clauses name nobody changes no bit of it. */
  lemma UmaskKept(cs: seq<Clause>, umask: Mode, m: Mode, b: Bit)
    requires cs != [] && AllOk(cs) && Unnamed(cs) && Place(b) in umask
    requires CompileText(Joined(cs), umask, Masking(true, true, true)).Some?
    ensures Place(b) in Adjusted(m, CompileText(Joined(cs), umask, Masking(true, true, true)).value) <==> Place(b) in m
  {
    hide *;
    var flags := Masking(true, true, true);
    Placed(b);
    TextStays(Joined(cs), umask, flags, m);
    TextSpares(cs, umask, flags, b);
    var list := CompileText(Joined(cs), umask, flags).value;
    Untouched(Adjusted(m, list), m, AllAffected(list), Place(b));
  }

  lemma Placed(b: Bit)
    ensures Place(b) in MAX_MODE
  {
  }

  lemma Untouched(after: Mode, m: Mode, affected: Mode, p: nat)
    requires after - affected == m * MAX_MODE - affected && p in MAX_MODE && p !in affected
    ensures p in after <==> p in m
  {
    assert p in after <==> p in after - affected;
    assert p in m <==> p in m * MAX_MODE - affected;
  }

  lemma TextSpares(cs: seq<Clause>, umask: Mode, flags: Masking, b: Bit)
    requires cs != [] && AllOk(cs) && Unnamed(cs) && Place(b) in umask && flags == Masking(true, true, true)
    requires CompileText(Joined(cs), umask, flags).Some?
    ensures Place(b) !in AllAffected(CompileText(Joined(cs), umask, flags).value)
  {
    hide Joined, CompileAll, CompiledEach, StrtolOctal, AllOk, AllAffected, Place, Unnamed, Kept;
    JoinedCompiles(cs, umask, flags);
    KeptCompiled(cs, umask, flags);
    KeptOk(cs);
    UmaskSpared(Kept(cs), umask, flags, b);
  }

  lemma KeptOk(cs: seq<Clause>)
    requires AllOk(cs) && Unnamed(cs)
    ensures AllOk(Kept(cs)) && Unnamed(Kept(cs))
  {
  }

  lemma {:induction false} UmaskSpared(cs: seq<Clause>, umask: Mode, flags: Masking, b: Bit)
    requires AllOk(cs) && Unnamed(cs) && Place(b) in umask && CompiledEach(cs, umask, flags).Some?
    requires flags == Masking(true, true, true)
    ensures Place(b) !in AllAffected(CompiledEach(cs, umask, flags).value)
    decreases |cs|
  {
    if cs != [] {
      hide Place, Affected, Compiled, ClauseOk;
      UmaskSpared(cs[1..], umask, flags, b);
      ClauseSound(cs[0], umask, flags);
      AffectedMeans(cs[0], umask, flags, b);
      AnyOperation(cs[0], flags);
    }
  }

  lemma AnyOperation(c: Clause, flags: Masking)
    requires ClauseOk(c) && flags == Masking(true, true, true)
    ensures Spares(c.op, flags)
  {
  }

  lemma TextSound(text: string, umask: Mode, flags: Masking)
    requires CompileText(text, umask, flags).Some?
    ensures AllSound(CompileText(text, umask, flags).value)
  {
    hide CompileAll, StrtolOctal, NumberBits, Sound;
    if StrtolOctal(text) == None {
      CompiledSound(text, umask, flags);
    } else {
      NumberSound(StrtolOctal(text).value);
    }
  }

  lemma NumberSound(n: int)
    requires 0 <= n
    ensures AllSound([Change(MAX_MODE, NumberBits(n), Assign, false, false)])
  {
    hide NumberBits;
    NumberBitsInside(n);
  }

  lemma NumberBitsInside(n: nat)
    ensures NumberBits(n) <= MAX_MODE
  {
  }

  /** A number replaces all twelve bits. */
  lemma OctalReplaces(text: string, umask: Mode, flags: Masking, m: Mode)
    requires text != [] && StrtolOctal(text).Some?
    ensures var n, r := StrtolOctal(text).value, CompileText(text, umask, flags);
            && (r.Some? <==> 0 <= n <= 0xFFF)
            && (r.Some? ==> Adjusted(m, r.value) == NumberBits(n))
  {
    var n := StrtolOctal(text).value;
    if 0 <= n <= 0xFFF {
      var change := Change(MAX_MODE, NumberBits(n), Assign, false, false);
      assert [change][1..] == [];
      assert Step(change, m * MAX_MODE, IsDir(m)) == NumberBits(n) by {
        assert (m * MAX_MODE) - MAX_MODE == {};
      }
      assert Steps([change], m * MAX_MODE, IsDir(m)) == Steps([], NumberBits(n), IsDir(m));
    }
  }

  // ----- numbers

  predicate AllOctal(s: string) {
    forall k :: 0 <= k < |s| ==> '0' <= s[k] <= '7'
  }

  /** The digit of four octal ones that holds a bit, and its weight there. */
  function DigitOf(text: string, b: Bit): char
    requires |text| == 4
  {
    match b
    case Perm(User, _) => text[1]
    case Perm(Group, _) => text[2]
    case Perm(Others, _) => text[3]
    case _ => text[0]
  }

  function Weight(b: Bit): (w: nat)
    ensures w > 0
  {
    match b
    case Perm(_, Read) => 4
    case Perm(_, Write) => 2
    case Perm(_, Exec) => 1
    case SetUid => 4
    case SetGid => 2
    case Sticky => 1
  }

  /** Four octal digits set the special bits and those of user, group and others, whatever the mode was. */
  lemma OctalDigits(text: string, umask: Mode, flags: Masking, m: Mode, b: Bit)
    requires |text| == 4 && AllOctal(text)
    ensures var r := CompileText(text, umask, flags);
            r.Some? && (Place(b) in Adjusted(m, r.value) <==> (DigitOf(text, b) - '0') as nat / Weight(b) % 2 == 1)
  {
    hide CompileText, Adjusted, NumberBits, StrtolOctal, Octal;
    FourDigits(text);
    OctalReplaces(text, umask, flags, m);
    var n := StrtolOctal(text).value;
    Placed(b);
    InNumber(n, Place(b));
    DigitBit(text, n, b);
  }

  lemma InNumber(n: nat, k: nat)
    requires k in MAX_MODE
    ensures k in NumberBits(n) <==> n / Power(k) % 2 == 1
  {
  }

  lemma FourDigits(text: string)
    requires |text| == 4 && AllOctal(text)
    ensures StrtolOctal(text) == Some(FourValue(text)) && FourValue(text) <= 0xFFF
  {
    var a, b, c, d := (text[0] - '0') as nat, (text[1] - '0') as nat, (text[2] - '0') as nat, (text[3] - '0') as nat;
    assert text[1..][0] == text[1] && text[1..][1..] == text[2..] && text[2..][0] == text[2];
    assert text[2..][1..] == text[3..] && text[3..][0] == text[3] && text[3..][1..] == [];
    OctalStep(text, 0, a);
    OctalStep(text[1..], a, b);
    OctalStep(text[2..], a * 8 + b, c);
    OctalStep(text[3..], (a * 8 + b) * 8 + c, d);
    hide Octal;
  }

  function FourValue(text: string): nat
    requires |text| == 4 && AllOctal(text)
  {
    512 * (text[0] - '0') as nat + 64 * (text[1] - '0') as nat + 8 * (text[2] - '0') as nat + (text[3] - '0') as nat
  }

  lemma OctalStep(s: string, value: nat, d: nat)
    requires s != [] && '0' <= s[0] <= '7' && d == (s[0] - '0') as nat
    ensures Octal(s, value) == Octal(s[1..], value * 8 + d) && Octal([], value) == value
  {
  }

  lemma DigitBit(text: string, n: nat, b: Bit)
    requires |text| == 4 && AllOctal(text) && n == FourValue(text)
    ensures n / Power(Place(b)) % 2 == (DigitOf(text, b) - '0') as nat / Weight(b) % 2
  {
    var s, u, g, o := (text[0] - '0') as nat, (text[1] - '0') as nat, (text[2] - '0') as nat, (text[3] - '0') as nat;
    Powers();
    hide Power;
    match b {
      case Perm(User, _) => WeightBit(n, 8 * s + u, u, 8 * g + o, 64);
      case Perm(Group, _) => WeightBit(n, 64 * s + 8 * u + g, g, o, 8);
      case Perm(Others, _) => WeightBit(n, n, o, 0, 1);
      case _ => WeightBit(n, s, s, 64 * u + 8 * g + o, 512);
    }
  }

  lemma Powers()
    ensures Power(0) == 1 && Power(1) == 2 && Power(2) == 4 && Power(3) == 8 && Power(4) == 16 && Power(5) == 32
    ensures Power(6) == 64 && Power(7) == 128 && Power(8) == 256 && Power(9) == 512 && Power(10) == 1024
    ensures Power(11) == 2048
  {
  }

  lemma WeightBit(n: nat, q: nat, d: nat, low: nat, unit: nat)
    requires unit == 1 || unit == 8 || unit == 64 || unit == 512
    requires q % 8 == d && low < unit && n == q * unit + low
    ensures n / unit % 2 == d / 1 % 2 && n / (2 * unit) % 2 == d / 2 % 2 && n / (4 * unit) % 2 == d / 4 % 2
  {
    Quotients(n, q, low, unit);
    LowBits(q, d);
  }

  lemma LowBits(q: nat, d: nat)
    requires q % 8 == d
    ensures q % 2 == d % 2 && q / 2 % 2 == d / 2 % 2 && q / 4 % 2 == d / 4 % 2
  {
    var h := q / 8;
    SecondBit(h, d / 2, d % 2);
    ThirdBit(h, d / 4, d % 4);
    EvenMore(4 * h, d);
  }

  lemma SecondBit(h: int, e: int, r: int)
    requires 0 <= r < 2
    ensures (8 * h + 2 * e + r) / 2 % 2 == e % 2
  {
    Quotient(8 * h + 2 * e + r, 2, 4 * h + e, r);
    EvenMore(2 * h, e);
  }

  lemma ThirdBit(h: int, e: int, r: int)
    requires 0 <= r < 4
    ensures (8 * h + 4 * e + r) / 4 % 2 == e % 2
  {
    Quotient(8 * h + 4 * e + r, 4, 2 * h + e, r);
    EvenMore(h, e);
  }

  lemma EvenMore(a: int, e: int)
    ensures (2 * a + e) % 2 == e % 2
  {
  }

  lemma Quotients(n: nat, q: nat, low: nat, unit: nat)
    requires unit > 0 && low < unit && n == q * unit + low
    ensures n / unit == q && n / (2 * unit) == q / 2 && n / (4 * unit) == q / 4
  {
    Quotient(n, unit, q, low);
    Rest(q, 2, low, unit);
    Quotient(n, 2 * unit, q / 2, q % 2 * unit + low);
    Rest(q, 4, low, unit);
    Quotient(n, 4 * unit, q / 4, q % 4 * unit + low);
  }

  lemma Rest(q: int, k: int, low: int, unit: int)
    requires 0 <= low < unit && k > 0
    ensures 0 <= q % k * unit + low < k * unit && q * unit + low == q / k * (k * unit) + (q % k * unit + low)
  {
    var a, r := q / k, q % k;
    assert q * unit == (a * k + r) * unit == a * (k * unit) + r * unit;
    assert 0 <= r * unit <= (k - 1) * unit == k * unit - unit;
  }

  lemma Quotient(n: int, d: int, q: int, r: int)
    requires 0 <= r < d && n == q * d + r
    ensures n / d == q
  {
    var k := n / d - q;
    assert k * d == r - n % d;
    assert k >= 1 ==> k * d >= d;
    assert k <= -1 ==> k * d <= -d;
  }

  /** The mode_t of a number. */
  function ModeOf(n: nat): Mode {
    set k: nat | k < WIDTH && n / Power(k) % 2 == 1
  }

  /** S_ISDIR on the number of a mode: its type is 0040000. */
  lemma DirectoryMode(n: nat)
    requires n < 0x10000
    ensures IsDir(ModeOf(n)) <==> n / 4096 == 4
  {
    TypeQuotients(n, n / 4096, n % 4096);
    TypePowers();
    DirectoryBits(ModeOf(n));
    hide Power, IsDir;
  }

  lemma TypeQuotients(n: nat, q: nat, low: nat)
    requires n == q * 4096 + low && low < 4096 && q < 16
    ensures n / 8192 == q / 2 && n / 16384 == q / 4 && n / 32768 == q / 8
    ensures q == 4 <==> q % 2 == 0 && q / 2 % 2 == 0 && q / 4 % 2 == 1 && q / 8 % 2 == 0
  {
    Quotients(n, q, low, 4096);
    Rest(q, 8, low, 4096);
    Quotient(n, 32768, q / 8, q % 8 * 4096 + low);
  }

  lemma DirectoryBits(m: Mode)
    ensures IsDir(m) <==> 12 !in m && 13 !in m && 14 in m && 15 !in m
  {
    var kind := m * {12, 13, 14, 15};
    if IsDir(m) {
      assert 14 in kind && 12 !in kind && 13 !in kind && 15 !in kind;
    }
  }

  lemma TypePowers()
    ensures Power(12) == 4096 && Power(13) == 8192 && Power(14) == 16384 && Power(15) == 32768
  {
  }

  /** Zeros in front of a number do not count. */
  lemma LeadingZero(text: string, umask: Mode, flags: Masking)
    requires text != [] && '0' <= text[0] <= '7'
    ensures CompileText("0" + text, umask, flags) == CompileText(text, umask, flags)
  {
    ZeroNumber("0" + text);
    assert ("0" + text)[1..] == text;
    hide StrtolOctal, NumberBits, CompileAll;
  }

  lemma ZeroNumber(text: string)
    requires |text| > 1 && text[0] == '0' && '0' <= text[1] <= '7'
    ensures StrtolOctal(text) == StrtolOctal(text[1..]) && StrtolOctal(text).Some?
  {
    OctalStep(text, 0, 0);
    hide Octal;
  }

  // ----- where the code departs from the meaning

  /** A clause that gives r to one group. */
  lemma ReadIsFaithful(c: Clause, umask: Mode, flags: Masking)
    requires ClauseOk(c) && c.perms == "r"
    ensures Accepted(c, umask, flags) && Faithful(c, umask, flags)
  {
    hide Affected, LettersBits;
    AcceptedExact(c, umask, flags);
    CopyLetterIs(c.perms);
    assert c.perms[0] == 'r';
  }

  /** u+r,g+r,o+r: the clause in the middle has no effect. */
  lemma MiddleClauseDropped(umask: Mode, flags: Masking)
    ensures var cs := [Clause("u", '+', "r"), Clause("g", '+', "r"), Clause("o", '+', "r")];
            && AllOk(cs) && AllFaithful(cs, umask, flags) && CompileText(Joined(cs), umask, flags).Some?
            && BitsOf(Adjusted({}, CompileText(Joined(cs), umask, flags).value))
                 != Meanings(cs, BitsOf(umask), flags, BitsOf({}), false)
  {
    var u, g, o := Clause("u", '+', "r"), Clause("g", '+', "r"), Clause("o", '+', "r");
    assert ClauseOk(u) && ClauseOk(g) && ClauseOk(o);
    hide ClauseOk, Faithful, Accepted, Joined, CompileText, Adjusted, Meanings;
    ReadIsFaithful(u, umask, flags);
    ReadIsFaithful(g, umask, flags);
    ReadIsFaithful(o, umask, flags);
    FirstAndLast(u, g, o, umask, flags);
    MiddleRead(BitsOf(umask), flags, BitsOf({}));
  }

  /** What three clauses make of the empty mode: the first and the last. */
  lemma FirstAndLast(u: Clause, g: Clause, o: Clause, umask: Mode, flags: Masking)
    requires AllOk([u, g, o]) && AllFaithful([u, g, o], umask, flags)
    ensures CompileText(Joined([u, g, o]), umask, flags).Some?
    ensures BitsOf(Adjusted({}, CompileText(Joined([u, g, o]), umask, flags).value))
              == Meanings([u, o], BitsOf(umask), flags, BitsOf({}), false)
  {
    hide ClauseOk, Faithful, Accepted, Joined, CompileText, Adjusted, Meanings;
    var cs := [u, g, o];
    TextAccepted(cs, umask, flags);
    assert Kept(cs) == [u, o];
    EmptyIsFile();
    TextMeans(cs, umask, flags, {});
  }

  lemma EmptyIsFile()
    ensures {} * MAX_MODE == {} && !IsDir({})
  {
  }

  /** What is left of the group's r. */
  lemma MiddleRead(us: iset<Bit>, flags: Masking, none: iset<Bit>)
    requires none == iset{}
    ensures var u, g, o := Clause("u", '+', "r"), Clause("g", '+', "r"), Clause("o", '+', "r");
            Meanings([u, o], us, flags, none, false) != Meanings([u, g, o], us, flags, none, false)
  {
    var u, g, o := Clause("u", '+', "r"), Clause("g", '+', "r"), Clause("o", '+', "r");
    var b, s1 := Perm(Group, Read), Meaning(u, us, flags, none, false);
    var s2 := Meaning(g, us, flags, s1, false);
    MeaningsOf([u, o], us, flags, none);
    MeaningsOf([u, g, o], us, flags, none);
    assert [u, g, o][1..] == [g, o] && [u, o][1..] == [o] && [g, o][1..] == [o];
    MeaningsOf([g, o], us, flags, s1);
    MeaningsOf([o], us, flags, s1);
    MeaningsOf([o], us, flags, s2);
    AddsRead(u, us, flags, none, b);
    AddsRead(g, us, flags, s1, b);
    AddsRead(o, us, flags, s1, b);
    AddsRead(o, us, flags, s2, b);
    hide Meaning, Meanings;
  }

  lemma MeaningsOf(cs: seq<Clause>, umask: iset<Bit>, flags: Masking, s: iset<Bit>)
    requires cs != []
    ensures Meanings(cs, umask, flags, s, false)
              == Meanings(cs[1..], umask, flags, Meaning(cs[0], umask, flags, s, false), false)
    ensures |cs| == 1 ==> Meanings(cs, umask, flags, s, false) == Meaning(cs[0], umask, flags, s, false)
  {
  }

  lemma AddsRead(c: Clause, umask: iset<Bit>, flags: Masking, s: iset<Bit>, b: Bit)
    requires (c.who == "u" || c.who == "g" || c.who == "o") && c.op == '+' && c.perms == "r"
    ensures b in Meaning(c, umask, flags, s, false) <==> b in s || (b.Perm? && b.right == Read && Owner(b) == c.who[0])
  {
    assert Owner(b) in c.who <==> Owner(b) == c.who[0];
    assert 'a' !in c.who;
    assert Gives(c.perms[0], s, false, b) <==> b.Perm? && b.right == Read;
  }

  /** a=xX on a file nobody may execute: x is lost. */
  lemma ExecLost(umask: Mode, flags: Masking)
    ensures var c := Clause("a", '=', "xX");
            && Accepted(c, umask, flags) && LosesExec(c, BitsOf(umask), flags, BitsOf({}), false)
            && !AgreesOn(c, umask, flags, {}, false)
  {
    var c := Clause("a", '=', "xX");
    assert c.perms[0] == 'x' && c.perms[1] == 'X';
    assert c.who[0] == 'a';
    assert ClauseOk(c);
    AcceptedExact(c, umask, flags);
    CopyLetterIs(c.perms);
    hide Compiled, Step, Meaning, CopyLetter, Affected;
    AnyExecIs({});
    assert Affects(c, BitsOf(umask), flags, Perm(User, Exec));
    ClauseExact(c, umask, flags, {}, false);
  }

  /** Two permission letters, the first of them a copy. */
  lemma CopyAndLetter(c: Clause, umask: Mode, flags: Masking)
    requires ClauseOk(c) && |c.perms| == 2 && c.perms[0] in COPIES && c.perms[1] in GRANTS
    ensures Accepted(c, umask, flags) && CopyLetter(c.perms) == Some(c.perms[0])
    ensures LettersBits(c.perms) == LetterBits(c.perms[1])
  {
    hide Affected, Compiled, LetterBits;
    var front := c.perms[..1];
    assert c.perms[..0] == [] && front[..0] == [] && front[0] == c.perms[0];
    LetterKind(c.perms[0]);
    LetterKind(c.perms[1]);
    assert LettersBits(front) == LettersBits([]) + LetterBits(c.perms[0]) == {};
    assert CopyLetter(front) == Some(c.perms[0]);
    AcceptedExact(c, umask, flags);
  }

  /** On the empty mode a copied group gives nothing, and neither do the letters beside it. */
  lemma NothingCopied(change: Change, dir: bool)
    requires change.copy
    ensures Bits(change, {}, dir) == {} && Step(change, {}, dir) == {}
  {
    assert {} * change.value == {};
    NoShift();
  }

  /** o=gr is accepted, and r is given to nobody. */
  lemma LetterBesideCopyLost(umask: Mode, flags: Masking)
    ensures var c := Clause("o", '=', "gr");
            && Accepted(c, umask, flags) && Step(Compiled(c, umask, flags).value, {}, false) == {}
            && !Faithful(c, umask, flags) && !AgreesOn(c, umask, flags, {}, true)
  {
    var c := Clause("o", '=', "gr");
    var b := Perm(Others, Read);
    assert c.who[0] == 'o';
    CopyAndLetter(c, umask, flags);
    hide CopyLetter, LettersBits, Affected, Compiled, Step, Meaning, AgreesOn;
    AffectedMeans(c, umask, flags, b);
    ExtraLost(c, umask, flags, b);
    CompiledIs(c, umask, flags);
    NothingCopied(Compiled(c, umask, flags).value, false);
  }

  /** u-ow is accepted; where all may read, r is not taken from the user. */
  lemma LetterBesideCopyKeeps(umask: Mode, flags: Masking)
    ensures var c := Clause("u", '-', "ow");
            && Accepted(c, umask, flags) && !Faithful(c, umask, flags)
            && !AgreesOn(c, umask, flags, {8, 5, 2}, false)
  {
    var c := Clause("u", '-', "ow");
    var b := Perm(User, Read);
    assert c.who[0] == 'u';
    CopyAndLetter(c, umask, flags);
    hide CopyLetter, LettersBits, Compiled;
    AffectedMeans(c, umask, flags, b);
    AffectedMeans(c, umask, flags, Perm(User, Write));
    hide Affected, AgreesOn, Affects;
    var value := CopyBits('o') + Extra(c, umask, flags);
    assert 7 in value * USER && 8 !in value && 11 !in value;
    assert Origins(value, 8) == {};
    assert !BitReachedRight('o', value, Affected(c, umask, flags), Perm(User, Read));
    TakesOn(c, umask, flags, {8, 5, 2}, false);
    assert WronglyKept('o', value, Affected(c, umask, flags), {8, 5, 2}, b);
  }

  /** u=to means what it says: t gives nothing to the user, and the clause is u=o. */
  lemma LetterBesideCopyIdle(umask: Mode, flags: Masking)
    ensures var c := Clause("u", '=', "to");
            && Accepted(c, umask, flags) && Faithful(c, umask, flags)
            && Compiled(c, umask, flags) == Compiled(Clause("u", '=', "o"), umask, flags)
  {
    var c, o := Clause("u", '=', "to"), Clause("u", '=', "o");
    assert c.who == o.who && c.who[0] == 'u' && c.who[..0] == [] && WhoMasks(c.who[..0]) == {};
    assert Affected(c, umask, flags) == Affected(o, umask, flags) == USER + {11};
    hide Affected;
    assert c.perms[..1] == ['t'] && ['t'][..0] == [] && o.perms[..0] == [];
    assert LettersBits([]) == {};
    assert LettersBits(['t']) == {9};
    assert LettersBits(c.perms) == {9};
    assert CopyLetter([]) == None && CopyLetter(['t']) == None && CopyLetter(c.perms) == Some('o');
    assert Extra(c, umask, flags) == {};
    assert forall k :: 0 <= k < 2 && c.perms[k] in COPIES ==> k == 1;
    assert CopyFirst(c.perms, Affected(c, umask, flags));
    AcceptedExact(c, umask, flags);
    assert CopyFirst(o.perms, Affected(o, umask, flags));
    AcceptedExact(o, umask, flags);
    assert LettersBits(o.perms) == {} && CopyLetter(o.perms) == Some('o');
    hide LettersBits, CopyLetter, CopyFirst, Compiled;
    CompiledIs(c, umask, flags);
    CompiledIs(o, umask, flags);
  }

  // ----- the compiler

  /** struct mode_change_s. */
  class Node {
    var next: Node?
    var affected: Mode
    var value: Mode
    var op: Operation
    var xIfAny: bool
    var copy: bool

    constructor ()
      ensures next == null && affected == {} && value == {} && op == Assign && !xIfAny && !copy
    {
      next, affected, value, op, xIfAny, copy := null, {}, {}, Assign, false, false;
    }

    function Contents(): Change
      reads this
    {
      Change(affected, value, op, xIfAny, copy)
    }
  }

  /** The nodes of a list, in order. */
  ghost predicate Linked(list: Node?, nodes: seq<Node>)
    reads nodes
  {
    if nodes == [] then list == null
    else list == nodes[0] && Linked(nodes[0].next, nodes[1..])
  }

  ghost function AllContents(nodes: seq<Node>): (r: seq<Change>)
    reads nodes
    ensures |r| == |nodes|
  {
    if nodes == [] then [] else [nodes[0].Contents()] + AllContents(nodes[1..])
  }

  method StrSpn(s: string, from: nat, allowed: set<char>) returns (n: nat)
    requires from <= |s|
    ensures n == Span(s[from..], allowed) && from + n <= |s|
  {
    n := 0;
    while from + n < |s| && s[from + n] in allowed
      invariant from + n <= |s| && Span(s[from..], allowed) == n + Span(s[from + n..], allowed)
    {
      assert s[from + n..][1..] == s[from + n + 1..];
      n := n + 1;
    }
  }

  /** mode_parse: the clause at the front of a text, compiled, and its length. */
  method ModeParse(mode: string, umask: Mode, flags: Masking) returns (ret: Node?, offset: nat)
    ensures ret != null ==> fresh(ret) && ret.next == null && offset <= |mode|
    ensures match ClauseAt(mode)
            case None => ret == null
            case Some((c, rest)) =>
              match Compiled(c, umask, flags)
              case None => ret == null
              case Some(change) => ret != null && ret.Contents() == change && offset <= |mode| && mode[offset..] == rest
  {
    ret, offset := null, 0;
    var valid, who, bits := CheckClause(mode);
    if !valid {
      return;
    }
    hide ClauseAt, Span, WhoMasks, Letters, OperationOf, Affected;
    var node := new Node();
    ParseAffected(node, mode, who, umask, flags);
    var ok := ParseValues(node, mode, who + 1, bits);
    if ok {
      ret, offset := node, who + 1 + bits;
    }
  }

  /** The lengths of the parts of a clause. */
  method CheckClause(mode: string) returns (valid: bool, who: nat, bits: nat)
    ensures valid <==> ClauseAt(mode).Some?
    ensures valid ==> who + 1 + bits <= |mode|
    ensures valid ==> ClauseAt(mode).value.0 == Clause(mode[..who], mode[who], mode[who + 1..who + 1 + bits])
    ensures valid ==> ClauseAt(mode).value.1 == mode[who + 1 + bits..]
  {
    valid, bits := false, 0;
    who := StrSpn(mode, 0, WHO);
    assert mode[0..] == mode;
    var operations := StrSpn(mode, who, OPERATIONS);
    if operations == 1 {
      bits := StrSpn(mode, who + 1, PERMISSIONS);
      valid := bits > 0;
    }
  }

  /** The affected bits and the operation. */
  method ParseAffected(node: Node, mode: string, who: nat, umask: Mode, flags: Masking)
    requires who < |mode| && node.Contents() == Change({}, {}, Assign, false, false)
    modifies node`affected, node`op
    ensures var c := Clause(mode[..who], mode[who], []);
            node.Contents() == Change(Affected(c, umask, flags), {}, OperationOf(c.op), false, false)
  {
    var applies := flags;
    for j := 0 to who
      invariant node.affected == WhoMasks(mode[..j])
      invariant node.value == {} && !node.xIfAny && !node.copy
    {
      assert mode[..j + 1][..j] == mode[..j];
      node.affected := node.affected + WhoMask(mode[j]);
    }
    if node.affected == {} {
      node.affected := MAX_MODE;
    } else {
      applies := Masking(false, false, false);
    }
    node.op := OperationOf(mode[who]);
    if Masked(node.op, applies) {
      node.affected := node.affected - umask;
    }
  }

  /** The permission letters. */
  method ParseValues(node: Node, mode: string, from: nat, bits: nat) returns (ok: bool)
    requires from + bits <= |mode|
    modifies node`value, node`xIfAny, node`copy
    ensures match Letters(old(node.Contents()), mode[from..from + bits])
            case None => !ok
            case Some(change) => ok && node.Contents() == change
  {
    ghost var start, all := node.Contents(), mode[from..from + bits];
    for j := 0 to bits
      invariant Letters(start, all[..j]) == Some(node.Contents())
    {
      var letter := mode[from + j];
      LettersMore(start, all, j);
      if letter == 'u' || letter == 'g' || letter == 'o' {
        if node.value != {} {
          LettersFail(start, all, j + 1);
          return false;
        }
        node.value := CopyBits(letter);
        node.copy := true;
      } else if letter in GRANTS {
        if letter == 'X' {
          node.xIfAny := true;
        }
        node.value := node.value + LetterBits(letter) * node.affected;
      } else {
        LettersFail(start, all, j + 1);
        return false;
      }
    }
    assert all[..bits] == all;
    ok := true;
  }

  lemma LettersMore(change: Change, perms: string, j: nat)
    requires j < |perms| && Letters(change, perms[..j]).Some?
    ensures Letters(change, perms[..j + 1]) == Letter(Letters(change, perms[..j]).value, perms[j])
  {
    assert perms[..j + 1][..j] == perms[..j];
  }

  lemma {:induction false} LettersFail(change: Change, perms: string, j: nat)
    requires j <= |perms| && Letters(change, perms[..j]) == None
    ensures Letters(change, perms) == None
    decreases |perms|
  {
    if j == |perms| {
      assert perms[..j] == perms;
    } else {
      assert perms[..|perms| - 1][..j] == perms[..j];
      LettersFail(change, perms[..|perms| - 1], j);
    }
  }

  /** mode_adjust: the list is run over the permission bits. */
  method ModeAdjust(oldMode: Mode, mc: Node?, ghost nodes: seq<Node>) returns (newMode: Mode)
    requires Linked(mc, nodes)
    ensures newMode == Adjusted(oldMode, AllContents(nodes))
  {
    newMode := oldMode * MAX_MODE;
    var node := mc;
    ghost var left := nodes;
    while node != null
      invariant Linked(node, left)
      invariant Adjusted(oldMode, AllContents(nodes)) == Steps(AllContents(left), newMode, IsDir(oldMode))
      decreases |left|
    {
      ghost var all := AllContents(left);
      assert all[0] == node.Contents() && all[1..] == AllContents(left[1..]);
      var value := {};
      if node.copy {
        value := Spread(newMode, node.value) * node.affected;
      } else {
        value := node.value;
        if node.xIfAny && !IsDir(oldMode) && newMode * EXECS == {} {
          value := value - EXECS;
        }
      }
      match node.op {
        case Assign => newMode := (newMode - node.affected) + value;
        case Plus => newMode := newMode + value;
        case Minus => newMode := newMode - value;
      }
      node := node.next;
      left := left[1..];
    }
  }

  /** mode_compile. */
  method ModeCompile(mode: string, umask: Mode, flags: Masking) returns (list: Node?, ghost nodes: seq<Node>)
    ensures list == null ==> CompileText(mode, umask, flags) == None
    ensures list != null ==> Linked(list, nodes) && CompileText(mode, umask, flags) == Some(AllContents(nodes))
  {
    list, nodes := null, [];
    if mode == [] {
      return;
    }
    var number := StrtolOctal(mode);
    if number.Some? {
      if 0 <= number.value <= 0xFFF {
        list := new Node();
        list.value, list.affected := NumberBits(number.value), MAX_MODE;
        nodes := [list];
        assert nodes[1..] == [];
        assert AllContents(nodes) == [list.Contents()];
      }
      return;
    }
    hide Compiled, ClauseAt;
    list, nodes := CompileClauses(mode, umask, flags);
  }

  /** The loop of mode_compile: every clause but the first becomes the successor of the first. */
  method CompileClauses(text: string, umask: Mode, flags: Masking) returns (list: Node?, ghost nodes: seq<Node>)
    requires text != []
    ensures list == null ==> CompileAll(text, umask, flags) == None
    ensures list != null ==> CompileAll(text, umask, flags).Some? && Linked(list, nodes)
                             && AllContents(nodes) == Kept(CompileAll(text, umask, flags).value)
  {
    hide ClauseAt, Compiled, Gathered, Kept;
    list, nodes := null, [];
    var mode := text;
    ghost var done: seq<Change> := [];
    GatheredNothing(CompileAll(mode, umask, flags));
    while mode != []
      invariant mode == [] ==> CompileAll(text, umask, flags) == Some(done) && done != []
      invariant mode != [] ==> Gathered(done, CompileAll(mode, umask, flags)) == CompileAll(text, umask, flags)
      invariant Shape(list, nodes, done) && fresh(set n | n in nodes)
      decreases |mode|
    {
      GatheredFailure(done);
      var next, offset := ModeParse(mode, umask, flags);
      if next == null {
        return null, [];
      }
      ghost var change, before := next.Contents(), done;
      list, nodes := Link(list, nodes, done, next);
      done := done + [change];
      var rest := mode[offset..];
      GatheredLast(before, change);
      if rest != [] && rest[0] == ',' {
        GatheredMore(before, change, CompileAll(rest[1..], umask, flags));
        mode := rest[1..];
      } else if rest != [] {
        return null, [];
      } else {
        mode := rest;
      }
    }
  }

  /** The first clause starts the list, another one takes the place behind it. */
  method Link(list: Node?, ghost nodes: seq<Node>, ghost done: seq<Change>, next: Node)
      returns (first: Node, ghost after: seq<Node>)
    requires Shape(list, nodes, done) && next.next == null && next !in nodes
    modifies set n | n in nodes
    ensures Shape(first, after, done + [old(next.Contents())]) && forall n :: n in after ==> n in nodes || n == next
  {
    if list == null {
      first, after := next, [next];
      ShapeOne(next);
    } else {
      FirstKept(list, nodes, done);
      list.next := next;
      first, after := list, [list, next];
      ShapeTwo(list, next);
    }
  }

  /** The list built so far: nothing, the first clause, or the first and the latest. */
  ghost predicate Shape(list: Node?, nodes: seq<Node>, done: seq<Change>)
    reads nodes
  {
    && (list == null <==> done == [])
    && (list == null ==> nodes == [])
    && (list != null ==> Linked(list, nodes) && AllContents(nodes) == Kept(done))
  }

  function Gathered(done: seq<Change>, others: Option<seq<Change>>): Option<seq<Change>> {
    if others == None then None else Some(done + others.value)
  }

  lemma ShapeOne(n: Node)
    requires n.next == null
    ensures Linked(n, [n]) && AllContents([n]) == [n.Contents()]
  {
    assert [n][1..] == [];
  }

  lemma ShapeTwo(n: Node, m: Node)
    requires n.next == m && m.next == null
    ensures Linked(n, [n, m]) && AllContents([n, m]) == [n.Contents(), m.Contents()]
  {
    ShapeOne(m);
    assert [n, m][1..] == [m];
  }

  /** The first node holds the first clause. */
  lemma FirstKept(list: Node, nodes: seq<Node>, done: seq<Change>)
    requires Shape(list, nodes, done)
    ensures done != [] && list.Contents() == done[0]
  {
    assert Kept(done)[0] == done[0];
  }

  lemma GatheredNothing(all: Option<seq<Change>>)
    ensures Gathered([], all) == all
  {
    if all.Some? {
      assert [] + all.value == all.value;
    }
  }

  lemma GatheredFailure(done: seq<Change>)
    ensures Gathered(done, None) == None
  {
  }

  lemma GatheredLast(done: seq<Change>, change: Change)
    ensures Gathered(done, Some([change])) == Some(done + [change])
  {
  }

  lemma GatheredMore(done: seq<Change>, change: Change, others: Option<seq<Change>>)
    ensures Gathered(done + [change], others)
              == Gathered(done, if others == None then None else Some([change] + others.value))
  {
    if others.Some? {
      assert done + [change] + others.value == done + ([change] + others.value);
    }
  }
}
