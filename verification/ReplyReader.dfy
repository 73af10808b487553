/**
 The reply reader of src/ftp/ftp.c (section 4.2 of RFC 959): ftp_gets takes one line off the
 control connection and answers telnet commands on the way, ftp_read_reply takes one reply.

 Bytes are characters below 256; the end of the input is the end of the connection.
 */
module ReplyReader {
  import opened CString
  import opened Sequences

  const CR: char := '\r'
  const LF: char := '\n'
  const IAC: char := 255 as char
  const DONT: char := 254 as char
  const DO: char := 253 as char
  const WONT: char := 252 as char
  const WILL: char := 251 as char

  const MAXREPLY: nat := 512

  // ----- one line

  /** A line off the connection and what was answered meanwhile, or the end of the connection. */
  datatype Reading = Line(text: string, answers: string, rest: string) | Closed(answers: string)

  function Prepend(text: string, answers: string, r: Reading): Reading {
    match r
    case Line(t, a, rest) => Line(text + t, answers + a, rest)
    case Closed(a) => Closed(answers + a)
  }

  predicate Asks(command: char) {
    command == WILL || command == WONT || command == DO || command == DONT
  }

  /** Every option is turned down. */
  function Refusal(command: char, option: char): string {
    [IAC, if command == WILL || command == WONT then DONT else WONT, option]
  }

  /** The line at the front of the input; its text keeps the CR of the line break. */
  function ReadLine(input: string): (r: Reading)
    ensures r.Line? ==> |r.rest| < |input|
  {
    if input == [] then Closed([])
    else
      var c := input[0];
      if c == LF then Line([], [], input[1..])
      else if c == CR && |input| == 1 then Closed([])
      else if c == CR && input[1] == LF then Line([CR], [], input[2..])
      else if c == CR && input[1] == NUL then Prepend([CR], [], ReadLine(input[2..]))
      else if c != IAC then Prepend([c], [], ReadLine(input[1..]))
      else if |input| == 1 then Closed([])
      else if !Asks(input[1]) then ReadLine(input[2..])
      else if |input| == 2 then Closed(Refusal(input[1], IAC))
      else Prepend([], Refusal(input[1], input[2]), ReadLine(input[3..]))
  }

  /** What one piece of a line is on the wire, in the numbers of RFC 854. */
  datatype Piece =
    | Plain(c: char)
    | ReturnNul
    | LoneReturn
    | Command(command: char, option: char)
    | Other(command: char)

  function Bytes(p: Piece): (b: string)
    ensures b != []
  {
    match p
    case Plain(c) => [c]
    case ReturnNul => [CR, NUL]
    case LoneReturn => [CR]
    case Command(command, option) => [255 as char, command, option]
    case Other(command) => [255 as char, command]
  }

  /** What a piece adds to the line. */
  function PieceText(p: Piece): string {
    match p
    case Plain(c) => [c]
    case ReturnNul => [CR]
    case LoneReturn => [CR]
    case Command(_, _) => []
    case Other(_) => []
  }

  /** An offer to do or not to do something (251, 252) is met by DON'T (254), a request (253, 254) by WON'T (252). */
  function PieceAnswer(p: Piece): string {
    if !p.Command? then []
    else if p.command as int < 253 then [255 as char, 254 as char, p.option]
    else [255 as char, 252 as char, p.option]
  }

  function Chars(ps: seq<Piece>): string {
    if ps == [] then [] else PieceText(ps[0]) + Chars(ps[1..])
  }

  function Answers(ps: seq<Piece>): string {
    if ps == [] then [] else PieceAnswer(ps[0]) + Answers(ps[1..])
  }

  /** The line on the wire, with its line break. */
  function LineBytes(ps: seq<Piece>): (b: string)
    ensures b != []
  {
    if ps == [] then [CR, LF] else Bytes(ps[0]) + LineBytes(ps[1..])
  }

  /** Ordinary characters are ordinary, and what follows a lone CR cannot be taken for its other half. */
  predicate LineOk(ps: seq<Piece>) {
    ps != [] ==>
      && LineOk(ps[1..])
      && PieceOk(ps[0], LineBytes(ps[1..])[0])
  }

  /** Every line arrives whole, with the telnet commands taken out of it and answered. */
  lemma {:induction false} LineArrives(ps: seq<Piece>, rest: string)
    requires LineOk(ps)
    ensures ReadLine(LineBytes(ps) + rest) == Line(Chars(ps) + [CR], Answers(ps), rest)
    decreases |ps|
  {
    if ps == [] {
      assert ([CR, LF] + rest)[2..] == rest;
    } else {
      hide *;
      LineUnfolds(ps, rest);
      LineArrives(ps[1..], rest);
      PieceArrives(ps[0], LineBytes(ps[1..]) + rest);
      PrependLine(PieceText(ps[0]), PieceAnswer(ps[0]), Chars(ps[1..]) + [CR], Answers(ps[1..]), rest);
    }
  }

  lemma LineUnfolds(ps: seq<Piece>, rest: string)
    requires ps != [] && LineOk(ps)
    ensures LineOk(ps[1..])
    ensures var tail := LineBytes(ps[1..]) + rest;
            Precedes(ps[0], tail) && LineBytes(ps) + rest == Bytes(ps[0]) + tail
    ensures Chars(ps) + [CR] == PieceText(ps[0]) + (Chars(ps[1..]) + [CR])
    ensures Answers(ps) == PieceAnswer(ps[0]) + Answers(ps[1..])
  {
    hide Bytes, PieceText, PieceAnswer, PieceOk;
    Associate(Bytes(ps[0]), LineBytes(ps[1..]), rest);
    Associate(PieceText(ps[0]), Chars(ps[1..]), [CR]);
  }

  lemma PrependLine(text: string, answers: string, t: string, a: string, rest: string)
    ensures Prepend(text, answers, Line(t, a, rest)) == Line(text + t, answers + a, rest)
  {
  }

  predicate PieceOk(p: Piece, next: char) {
    match p
    case Plain(c) => c != CR && c != LF && c as int != 255
    case ReturnNul => true
    case LoneReturn => next != NUL && next != LF
    case Command(command, _) => 251 <= command as int <= 254
    case Other(command) => !(251 <= command as int <= 254)
  }

  /** A piece may stand in front of this; a lone CR at the very end is another matter. */
  predicate Precedes(p: Piece, tail: string) {
    if tail == [] then PieceOk(p, NUL) && !p.LoneReturn? else PieceOk(p, tail[0])
  }

  lemma PieceArrives(p: Piece, tail: string)
    requires Precedes(p, tail)
    ensures ReadLine(Bytes(p) + tail) == Prepend(PieceText(p), PieceAnswer(p), ReadLine(tail))
  {
    if p.Command? || p.Other? {
      CommandArrives(p, tail);
    } else {
      var input := Bytes(p) + tail;
      assert input[|Bytes(p)|..] == tail;
      assert p.LoneReturn? ==> input[1] == tail[0];
    }
  }

  lemma CommandArrives(p: Piece, tail: string)
    requires Precedes(p, tail) && (p.Command? || p.Other?)
    ensures ReadLine(Bytes(p) + tail) == Prepend([], PieceAnswer(p), ReadLine(tail))
  {
    hide ReadLine, Prepend, Bytes, PieceAnswer, Refusal, Asks;
    CommandBytes(p, tail);
    Refuses(p);
    CommandRead(Bytes(p) + tail);
    PrependNothing(ReadLine(tail));
  }

  lemma CommandBytes(p: Piece, tail: string)
    requires p.Command? || p.Other?
    ensures var input := Bytes(p) + tail;
            && |input| > 1 && input[0] == IAC && input[1] == p.command && input[|Bytes(p)|..] == tail
            && (p.Command? ==> |input| > 2)
            && (p.Command? ==> input[2] == p.option && input[3..] == tail)
            && (p.Other? ==> input[2..] == tail)
  {
  }

  /** The numbers of the commands and of their refusals. */
  lemma Refuses(p: Piece)
    ensures p.Command? && 251 <= p.command as int <= 254 ==>
              Asks(p.command) && PieceAnswer(p) == Refusal(p.command, p.option)
    ensures p.Other? && !(251 <= p.command as int <= 254) ==> !Asks(p.command) && PieceAnswer(p) == []
  {
  }

  /** How a telnet command is read. */
  lemma CommandRead(input: string)
    requires |input| > 1 && input[0] == IAC && (Asks(input[1]) ==> |input| > 2)
    ensures ReadLine(input) ==
            if Asks(input[1]) then Prepend([], Refusal(input[1], input[2]), ReadLine(input[3..]))
            else ReadLine(input[2..])
  {
    hide Asks, Refusal, Prepend;
  }

  // ----- lines that end otherwise

  function Wire(ps: seq<Piece>): string {
    if ps == [] then [] else Bytes(ps[0]) + Wire(ps[1..])
  }

  predicate WireOk(ps: seq<Piece>, end: string) {
    ps != [] ==> Precedes(ps[0], Wire(ps[1..]) + end) && WireOk(ps[1..], end)
  }

  /** What is read of pieces in front of anything. */
  lemma {:induction false} PiecesArrive(ps: seq<Piece>, end: string)
    requires WireOk(ps, end)
    ensures ReadLine(Wire(ps) + end) == Prepend(Chars(ps), Answers(ps), ReadLine(end))
    decreases |ps|
  {
    hide ReadLine, Bytes, PieceText, PieceAnswer, Precedes, Prepend;
    if ps == [] {
      PrependNothing(ReadLine(end));
      assert Wire(ps) + end == end;
    } else {
      PiecesArrive(ps[1..], end);
      PieceArrives(ps[0], Wire(ps[1..]) + end);
      Associate(Bytes(ps[0]), Wire(ps[1..]), end);
      PrependTwice(PieceText(ps[0]), PieceAnswer(ps[0]), Chars(ps[1..]), Answers(ps[1..]), ReadLine(end));
    }
  }

  /** A line that a bare LF ends is read without a CR. */
  lemma BareLineArrives(ps: seq<Piece>, rest: string)
    requires WireOk(ps, [LF] + rest)
    ensures ReadLine(Wire(ps) + ([LF] + rest)) == Line(Chars(ps), Answers(ps), rest)
  {
    PiecesArrive(ps, [LF] + rest);
    assert ([LF] + rest)[1..] == rest;
    PrependLine(Chars(ps), Answers(ps), [], [], rest);
    hide WireOk, Wire, Chars, Answers;
    assert Chars(ps) + [] == Chars(ps) && Answers(ps) + [] == Answers(ps);
  }

  /** A connection that ends inside a line, also behind a CR or inside a command, gives no line; what was
      asked for is answered. */
  lemma LineLost(ps: seq<Piece>, end: string)
    requires WireOk(ps, end)
    requires end == [] || end == [CR] || end == [IAC] || (|end| == 2 && end[0] == IAC && 251 <= end[1] as int <= 254)
    ensures var answer := if |end| < 2 then [] else [IAC, if end[1] as int < 253 then DONT else WONT, IAC];
            ReadLine(Wire(ps) + end) == Closed(Answers(ps) + answer)
  {
    PiecesArrive(ps, end);
    LostEnd(end);
    hide WireOk, Wire, Chars, Answers, ReadLine;
  }

  lemma LostEnd(end: string)
    requires end == [] || end == [CR] || end == [IAC] || (|end| == 2 && end[0] == IAC && 251 <= end[1] as int <= 254)
    ensures ReadLine(end) == Closed(if |end| < 2 then [] else [IAC, if end[1] as int < 253 then DONT else WONT, IAC])
  {
    assert |end| == 2 ==> Asks(end[1]);
  }

  // ----- the reply buffer

  function Take(text: string, n: nat): (t: string)
    ensures |t| <= n && t <= text
  {
    if |text| <= n then text else text[..n]
  }

  /** The text without the line breaks it ends in. */
  function Strip(t: string): (s: string)
    ensures s <= t && (s != [] ==> s[|s| - 1] != CR && s[|s| - 1] != LF)
    ensures forall k :: |s| <= k < |t| ==> t[k] == CR || t[k] == LF
  {
    if t == [] || (t[|t| - 1] != CR && t[|t| - 1] != LF) then t else Strip(t[..|t| - 1])
  }

  lemma {:induction false} StripIs(t: string, n: nat)
    requires n <= |t| && (n > 0 ==> t[n - 1] != CR && t[n - 1] != LF)
    requires forall k :: n <= k < |t| ==> t[k] == CR || t[k] == LF
    ensures Strip(t) == t[..n]
    decreases |t|
  {
    if |t| == n {
      assert t[..n] == t;
    } else {
      var u := t[..|t| - 1];
      StripIs(u, n);
      assert u[..n] == t[..n];
    }
  }

  function Nuls(n: nat): (s: string)
    ensures |s| == n && forall k :: 0 <= k < n ==> s[k] == NUL
  {
    seq(n, _ => NUL)
  }

  /** The buffer once a line of this text is stored: cut off at MAXREPLY, ended, and stripped. */
  function Stored(buf: string, text: string): (b: string)
    requires |buf| == MAXREPLY + 1
    ensures |b| == MAXREPLY + 1
  {
    Stripped(Raw(buf, text))
  }

  /** strip_trailing_chars on a whole buffer. */
  function Stripped(raw: string): (b: string)
    ensures |b| == |raw|
  {
    var t := Visible(raw);
    var s := Strip(t);
    s + Nuls(|t| - |s|) + raw[|t|..]
  }

  function Raw(buf: string, text: string): (b: string)
    requires |buf| == MAXREPLY + 1
    ensures |b| == MAXREPLY + 1
  {
    var t := Take(text, MAXREPLY);
    t + [NUL] + buf[|t| + 1..]
  }

  predicate IsDigit(c: char) {
    '0' <= c <= '9'
  }

  function Digits(s: string, value: nat): nat {
    if s == [] || !IsDigit(s[0]) then value else Digits(s[1..], value * 10 + (s[0] - '0') as nat)
  }

  /** atoi(3). */
  function Atoi(s: string): int {
    if s == [] then 0
    else if IsSpace(s[0]) then Atoi(s[1..])
    else if s[0] == '-' then -(Digits(s[1..], 0) as int)
    else if s[0] == '+' then Digits(s[1..], 0)
    else Digits(s, 0)
  }

  /** The number a line starts with, as far as it is stored. */
  function Number(text: string): int {
    Atoi(Visible(Take(text, MAXREPLY)))
  }

  /** Division as C does it: towards zero. */
  function Truncated(n: int, d: nat): (q: int)
    requires d > 0
    ensures n >= 0 ==> q * d <= n < q * d + d
    ensures n <= 0 ==> q * d - d < n <= q * d
  {
    if n >= 0 then n / d else -(-n / d)
  }

  /** How many whole hundreds there are in n, with the sign of n. */
  predicate IsHundreds(q: int, n: int) {
    if n >= 0 then 100 * q <= n < 100 * q + 100 else 100 * q - 100 < n <= 100 * q
  }

  // ----- one reply

  /** A call of ftp_read_reply: its result, or the connection went away. */
  datatype Outcome =
    | Done(result: int, fullcode: int, buf: string, answers: string, rest: string)
    | Dropped(result: int, answers: string)

  /** The last line of a reply to a line with this front. */
  function LastFront(buf: string): (f: string)
    requires |buf| == MAXREPLY + 1
    ensures |f| == 4
  {
    var t := Visible(buf[..3]);
    t + Nuls(3 - |t|) + " "
  }

  /** strncmp(a, b, 4) == 0. */
  predicate SameFront(a: string, b: string)
    requires |a| >= 4 && |b| >= 4
  {
    Visible(a[..4]) == Visible(b[..4])
  }

  function Answered(answers: string, o: Outcome): Outcome {
    match o
    case Done(r, f, b, a, rest) => Done(r, f, b, answers + a, rest)
    case Dropped(r, a) => Dropped(r, answers + a)
  }

  function ReadRest(result: int, front: string, buf: string, input: string): Outcome
    requires |buf| == MAXREPLY + 1 && |front| == 4
    decreases |input|
  {
    match ReadLine(input)
    case Closed(a) => Dropped(result, a)
    case Line(t, a, rest) =>
      var b := Stored(buf, t);
      if Number(t) == -1 || SameFront(front, b) then Done(result, Number(t), b, a, rest)
      else Answered(a, ReadRest(result, front, b, rest))
  }

  function ReadReply(buf: string, input: string): Outcome
    requires |buf| == MAXREPLY + 1
  {
    match ReadLine(input)
    case Closed(a) => Dropped(-1, a)
    case Line(t, a, rest) =>
      var b := Stored(buf, t);
      if Number(t) == -1 || b[3] != '-' then Done(Number(t), Number(t), b, a, rest)
      else Answered(a, ReadRest(Number(t), LastFront(b), b, rest))
  }

  // ----- replies as a server sends them

  /** Text without NUL, CR and LF. */
  predicate Clean(p: string) {
    forall k :: 0 <= k < |p| ==> p[k] != NUL && p[k] != CR && p[k] != LF
  }

  lemma {:induction false} VisibleFront(p: string, t: string)
    requires Clean(p) && p <= t
    ensures p <= Visible(t)
  {
    if p != [] {
      VisibleFront(p[1..], t[1..]);
      assert Visible(t) == [t[0]] + Visible(t[1..]);
    }
  }

  lemma {:induction false} VisibleIsFront(t: string, behind: string)
    ensures Visible(t + [NUL] + behind) == Visible(t)
  {
    var whole := t + [NUL] + behind;
    if t != [] {
      VisibleIsFront(t[1..], behind);
      assert whole[1..] == t[1..] + [NUL] + behind;
    }
  }

  lemma StripKeeps(p: string, t: string)
    requires Clean(p) && p <= t
    ensures p <= Strip(t)
  {
    var s := Strip(t);
    assert forall k :: 0 <= k < |p| ==> t[k] == p[k];
    assert |s| < |t| ==> t[|s|] == CR || t[|s|] == LF;
  }

  /** The front of a line shows in the buffer, and nothing shows that is not the front of the line. */
  lemma StoredFront(buf: string, text: string, p: string)
    requires |buf| == MAXREPLY + 1 && Clean(p) && |p| <= 4
    ensures p <= Stored(buf, text) <==> p <= text
  {
    var t := Take(text, MAXREPLY);
    var raw := Raw(buf, text);
    VisibleIsFront(t, buf[|t| + 1..]);
    var v := Visible(raw);
    var s := Strip(v);
    var b := Stored(buf, text);
    if p <= text {
      VisibleFront(p, t);
      StripKeeps(p, v);
    }
    if p <= b {
      assert |s| < |b| && b[|s|] == NUL;
      assert forall k :: 0 <= k < |p| ==> p[k] == b[k];
      assert |p| <= |s|;
      assert s <= v && v <= t && t <= text;
      assert p == b[..|p|] == text[..|p|];
    }
  }

  /** A line shows in the buffer without its line break, up to 512 characters of it. */
  lemma LineShows(buf: string, line: seq<Piece>)
    requires |buf| == MAXREPLY + 1 && Clean(Chars(line))
    ensures var c := Chars(line); Visible(Stored(buf, Text(line))) == if |c| < 512 then c else c[..512]
  {
    hide Visible, Strip, Chars;
    var c, t := Chars(line), Take(Text(line), MAXREPLY);
    var raw, n := Raw(buf, Text(line)), if |c| < 512 then |c| else 512;
    assert forall k :: 0 <= k < n ==> t[k] == c[k];
    VisibleIs(raw, |t|);
    assert raw[..|t|] == t;
    StripIs(t, n);
    VisibleIs(Stripped(raw), n);
    assert Stripped(raw)[..n] == t[..n] == c[..n];
  }

  /** A digit of a reply code, by its number in ASCII. */
  predicate IsNumeral(c: char) {
    48 <= c as int <= 57
  }

  predicate IsCode(code: string) {
    |code| == 3 && IsNumeral(code[0]) && IsNumeral(code[1]) && IsNumeral(code[2])
  }

  function Value(code: string): nat
    requires IsCode(code)
  {
    100 * Digit(code[0]) + 10 * Digit(code[1]) + Digit(code[2])
  }

  function Digit(c: char): (d: nat)
    requires IsNumeral(c)
  {
    c as int - 48
  }

  lemma NumberIs(text: string, code: string)
    requires IsCode(code) && code <= text && (|text| > 3 ==> !IsNumeral(text[3]))
    ensures Number(text) == Value(code)
  {
    var t := Take(text, MAXREPLY);
    VisibleFront(code, t);
    var v := Visible(t);
    assert v[0] == code[0] && v[1] == code[1] && v[2] == code[2] && v <= text;
    var d0, d1, d2 := (code[0] - '0') as nat, (code[1] - '0') as nat, (code[2] - '0') as nat;
    assert v[1..][1..] == v[2..] && v[2..][1..] == v[3..];
    DigitStep(v, 0, d0);
    DigitStep(v[1..], d0, d1);
    DigitStep(v[2..], d0 * 10 + d1, d2);
    assert v[3..] == [] || v[3..][0] == text[3];
    assert Atoi(v) == Digits(v, 0);
  }

  lemma DigitStep(s: string, value: nat, d: nat)
    requires s != [] && IsDigit(s[0]) && d == (s[0] - '0') as nat
    ensures Digits(s, value) == Digits(s[1..], value * 10 + d)
  {
  }

  /** A reply: a code and its lines. */
  datatype Reply = Reply(code: string, lines: seq<seq<Piece>>)

  /** The text of a line as it is read, with the CR of its line break. */
  function Text(line: seq<Piece>): string {
    Chars(line) + [CR]
  }

  /** Lines behind the first one: only the last starts with the code and a space. */
  predicate Continues(code: string, lines: seq<seq<Piece>>)
    requires IsCode(code)
  {
    && lines != [] && (forall k :: 0 <= k < |lines| ==> LineOk(lines[k]))
    && code + " " <= Chars(lines[|lines| - 1])
    && forall k :: 0 <= k < |lines| - 1 ==> !(code + " " <= Chars(lines[k]))
  }

  /** Section 4.2 of RFC 959. */
  predicate ReplyOk(r: Reply) {
    && IsCode(r.code) && r.lines != [] && LineOk(r.lines[0]) && r.code <= Chars(r.lines[0])
    && (|Chars(r.lines[0])| > 3 ==> !IsNumeral(Chars(r.lines[0])[3]))
    && if r.code + "-" <= Chars(r.lines[0]) then Continues(r.code, r.lines[1..]) else |r.lines| == 1
  }

  function ReplyBytes(lines: seq<seq<Piece>>): string {
    if lines == [] then [] else LineBytes(lines[0]) + ReplyBytes(lines[1..])
  }

  function ReplyAnswers(lines: seq<seq<Piece>>): string {
    if lines == [] then [] else Answers(lines[0]) + ReplyAnswers(lines[1..])
  }

  /** No line but the last is taken for the failure of ftp_gets. */
  predicate NoFailure(lines: seq<seq<Piece>>) {
    forall k :: 0 <= k < |lines| - 1 ==> Number(Text(lines[k])) != -1
  }

  lemma FrontOfText(line: seq<Piece>, p: string)
    requires Clean(p)
    ensures p <= Text(line) <==> p <= Chars(line)
  {
    var c := Chars(line);
    assert Text(line)[|c|] == CR;
    if p <= Text(line) {
      assert forall k :: 0 <= k < |p| ==> p[k] == Text(line)[k] && p[k] != CR;
      assert p == c[..|p|];
    }
  }

  lemma SameFrontIs(front: string, b: string)
    requires |front| == 4 && Clean(front) && |b| >= 4
    ensures SameFront(front, b) <==> front <= b
  {
    VisibleFront(front, front);
    if front <= b {
      VisibleFront(front, b[..4]);
    }
    if SameFront(front, b[..4]) {
      assert Visible(b[..4]) == front;
      assert front == b[..4];
    }
    assert b[..4][..4] == b[..4];
  }

  lemma {:induction false} RestArrives(result: int, code: string, buf: string, lines: seq<seq<Piece>>, rest: string)
    requires |buf| == MAXREPLY + 1 && IsCode(code) && Continues(code, lines)
    ensures var o := ReadRest(result, code + " ", buf, ReplyBytes(lines) + rest);
            && o.Done? && o.result == result && |o.rest| >= |rest|
            && (o.rest == rest <==> NoFailure(lines))
            && (NoFailure(lines) ==> o.fullcode == Value(code) && o.answers == ReplyAnswers(lines))
    decreases |lines|
  {
    hide ReadLine, LineBytes, Stored, SameFront, Number, LineOk, Chars, Answers, Text, Value;
    var line, front, t := lines[0], code + " ", Text(lines[0]);
    var b, tail := Stored(buf, t), ReplyBytes(lines[1..]) + rest;
    OneLine(line, buf, code, ' ', tail);
    Associate(LineBytes(line), ReplyBytes(lines[1..]), rest);
    assert ReadLine(ReplyBytes(lines) + rest) == Line(t, Answers(line), tail);
    if |lines| == 1 {
      LastText(line, code);
      LastLine(lines, rest);
    } else {
      MoreLines(code, lines, rest);
      if Number(t) != -1 {
        RestArrives(result, code, b, lines[1..], rest);
      }
      FailureFirst(lines);
    }
  }

  lemma LastLine(lines: seq<seq<Piece>>, rest: string)
    requires |lines| == 1
    ensures ReplyBytes(lines[1..]) + rest == rest && ReplyAnswers(lines) == Answers(lines[0]) && NoFailure(lines)
  {
    assert lines[1..] == [];
    assert ReplyAnswers(lines) == Answers(lines[0]) + [] == Answers(lines[0]);
  }

  lemma MoreLines(code: string, lines: seq<seq<Piece>>, rest: string)
    requires |lines| > 1 && IsCode(code) && Continues(code, lines)
    ensures Continues(code, lines[1..]) && !(code + " " <= Chars(lines[0]))
    ensures |ReplyBytes(lines[1..]) + rest| > |rest|
  {
    hide LineOk, Chars;
    assert |LineBytes(lines[1])| > 0 && lines[1..] != [];
  }

  lemma FailureFirst(lines: seq<seq<Piece>>)
    requires |lines| > 1
    ensures NoFailure(lines) <==> Number(Text(lines[0])) != -1 && NoFailure(lines[1..])
  {
    hide Number, Text;
    if NoFailure(lines[1..]) && Number(Text(lines[0])) != -1 {
      forall k | 0 <= k < |lines| - 1 ensures Number(Text(lines[k])) != -1 {
        if k > 0 {
          assert lines[1..][k - 1] == lines[k];
        }
      }
    }
  }

  lemma LastText(line: seq<Piece>, code: string)
    requires IsCode(code) && code + " " <= Chars(line)
    ensures Number(Text(line)) == Value(code)
  {
    assert code <= code + " ";
    NumberIs(Text(line), code);
  }

  /** How a line arrives, and what its front looks like in the buffer. */
  lemma OneLine(line: seq<Piece>, buf: string, code: string, mark: char, tail: string)
    requires LineOk(line) && |buf| == MAXREPLY + 1 && IsCode(code) && (mark == ' ' || mark == '-')
    ensures ReadLine(LineBytes(line) + tail) == Line(Text(line), Answers(line), tail)
    ensures var b, front := Stored(buf, Text(line)), code + [mark];
            && (code <= b <==> code <= Chars(line)) && (front <= b <==> front <= Chars(line))
            && (SameFront(front, b) <==> front <= Chars(line))
  {
    var front := code + [mark];
    LineArrives(line, tail);
    FrontOfText(line, code);
    FrontOfText(line, front);
    StoredFront(buf, Text(line), code);
    StoredFront(buf, Text(line), front);
    SameFrontIs(front, Stored(buf, Text(line)));
  }

  /**
   A reply is consumed whole, and nothing behind it, exactly when none of the lines between its
   first and its last reads as the number -1; its code is the result either way.
   */
  lemma ReplyExact(r: Reply, buf: string, rest: string)
    requires ReplyOk(r) && |buf| == MAXREPLY + 1
    ensures var o := ReadReply(buf, ReplyBytes(r.lines) + rest);
            && o.Done? && o.result == Value(r.code) && |o.rest| >= |rest|
            && (o.rest == rest <==> NoFailure(r.lines[1..]))
            && (NoFailure(r.lines[1..]) ==> o.fullcode == Value(r.code) && o.answers == ReplyAnswers(r.lines))
  {
    hide ReadLine, LineBytes, Stored, Number, LineOk, Chars, Answers, Text, Continues, NoFailure, Value, SameFront;
    var line, code := r.lines[0], r.code;
    var t := Text(line);
    var b, tail := Stored(buf, t), ReplyBytes(r.lines[1..]) + rest;
    OneLine(line, buf, code, '-', tail);
    Associate(LineBytes(line), ReplyBytes(r.lines[1..]), rest);
    CodeOfText(line, code);
    assert ReadLine(ReplyBytes(r.lines) + rest) == Line(t, Answers(line), tail);
    FrontIsCode(b, code);
    if b[3] == '-' {
      RestArrives(Value(code), code, b, r.lines[1..], rest);
    } else {
      LastLine(r.lines, rest);
      NoLines(r.lines[1..]);
    }
  }

  lemma CodeOfText(line: seq<Piece>, code: string)
    requires IsCode(code) && code <= Chars(line) && (|Chars(line)| > 3 ==> !IsNumeral(Chars(line)[3]))
    ensures Number(Text(line)) == Value(code)
  {
    FrontOfText(line, code);
    NumberIs(Text(line), code);
  }

  lemma NoLines(lines: seq<seq<Piece>>)
    requires lines == []
    ensures NoFailure(lines)
  {
  }

  lemma FrontIsCode(b: string, code: string)
    requires |b| == MAXREPLY + 1 && IsCode(code) && code <= b
    ensures LastFront(b) == code + " " && (b[3] == '-' <==> code + "-" <= b)
  {
    assert b[..3] == code && b[..4] == code + [b[3]];
    VisibleFront(code, code);
    assert code + Nuls(0) + " " == code + " ";
  }

  // ----- the reader

  lemma PrependTwice(t: string, a: string, u: string, b: string, r: Reading)
    ensures Prepend(t, a, Prepend(u, b, r)) == Prepend(t + u, a + b, r)
  {
    match r {
      case Line(v, c, _) =>
        assert t + (u + v) == (t + u) + v && a + (b + c) == (a + b) + c;
      case Closed(c) =>
        assert a + (b + c) == (a + b) + c;
    }
  }

  lemma PrependParts(t: string, a: string, more: string, chars: string, r: Reading)
    ensures Prepend(t, a, Prepend([], more, r)) == Prepend(t, a + more, r)
    ensures Prepend(t, a, Prepend(chars, [], r)) == Prepend(t + chars, a, r)
  {
    PrependTwice(t, a, [], more, r);
    PrependTwice(t, a, chars, [], r);
    assert t + [] == t && a + [] == a;
  }

  lemma PrependNothing(r: Reading)
    ensures Prepend([], [], r) == r
  {
  }

  /** How one byte that starts no telnet command is read. */
  lemma ByteRead(unread: string)
    requires unread != [] && unread[0] != IAC
    ensures unread[0] == LF ==> ReadLine(unread) == Line([], [], unread[1..])
    ensures unread[0] == CR && |unread| == 1 ==> ReadLine(unread) == Prepend([IAC], [], ReadLine([]))
    ensures unread[0] == CR && |unread| > 1 && unread[1] == LF ==> ReadLine(unread) == Line([CR], [], unread[1..][1..])
    ensures unread[0] == CR && |unread| > 1 && unread[1] == NUL ==>
              ReadLine(unread) == Prepend([CR], [], ReadLine(unread[1..][1..]))
    ensures unread[0] != LF && (unread[0] != CR || (|unread| > 1 && unread[1] != LF && unread[1] != NUL)) ==>
              ReadLine(unread) == Prepend([unread[0]], [], ReadLine(unread[1..]))
  {
    assert |unread| > 1 ==> unread[1..][1..] == unread[2..];
  }

  datatype Event = Gone | Negotiated(answers: string) | End | ReturnEnd | Data(c: char)

  function Unread(pending: Option<char>, input: string): string {
    if pending.Some? then [pending.value] + input else input
  }

  /** The reading that starts with this event. */
  function Follows(e: Event, unread: string): Reading {
    match e
    case Gone => Closed([])
    case Negotiated(answers) => Prepend([], answers, ReadLine(unread))
    case End => Line([], [], unread)
    case ReturnEnd => Line([CR], [], unread)
    case Data(c) => Prepend([c], [], ReadLine(unread))
  }

  lemma EventRead(text: string, answers: string, e: Event, unread: string)
    ensures var r := Prepend(text, answers, Follows(e, unread));
            match e
            case Gone => r == Closed(answers)
            case Negotiated(more) => r == Prepend(text, answers + more, ReadLine(unread))
            case End => r == Line(text, answers, unread)
            case ReturnEnd => r == Line(text + [CR], answers, unread)
            case Data(c) => r == Prepend(text + [c], answers, ReadLine(unread))
  {
    assert answers + [] == answers && text + [] == text;
    match e {
      case Negotiated(more) => PrependParts(text, answers, more, [], ReadLine(unread));
      case Data(c) => PrependParts(text, answers, [], [c], ReadLine(unread));
      case Gone =>
      case End =>
      case ReturnEnd =>
    }
  }

  lemma TakeMore(text: string, c: char, n: nat)
    ensures Take(text + [c], n) == if |text| < n then Take(text, n) + [c] else Take(text, n)
  {
    if |text| >= n {
      assert (text + [c])[..n] == text[..n];
    }
  }

  class Control {
    const reply: array<char>
    var input: string
    var output: string
    var connected: bool
    var fullcode: int
    var code: int

    ghost predicate Valid()
      reads this
    {
      reply.Length == MAXREPLY + 1 && (!connected ==> input == [])
    }

    constructor (input: string)
      ensures Valid() && fresh(reply) && this.input == input && output == [] && connected
    {
      reply := new char[MAXREPLY + 1](_ => NUL);
      this.input, output, connected := input, [], true;
    }

    /** sock_get. */
    method SockGet() returns (c: Option<char>)
      modifies this`input
      ensures old(input) == [] ==> c == None && input == []
      ensures old(input) != [] ==> c == Some(old(input)[0]) && input == old(input)[1..]
    {
      if input == [] {
        return None;
      }
      c := Some(input[0]);
      input := input[1..];
    }

    /** A telnet command, behind its IAC. */
    method Telnet(ghost whole: string) returns (answers: string)
      requires whole == [IAC] + input
      modifies this`input, this`output
      ensures |input| < |whole|
      ensures output == old(output) + answers && ReadLine(whole) == Prepend([], answers, ReadLine(input))
    {
      ghost var behind := input;
      assert whole[1..] == behind;
      var c := SockGet();
      if c.Some? && Asks(c.value) {
        var option := SockGet();
        var answer := Refusal(c.value, if option.Some? then option.value else IAC);
        output := output + answer;
        answers := answer;
        assert |behind| > 1 ==> whole[3..] == behind[1..][1..] == input && whole[2] == behind[1];
        assert whole[1] == behind[0];
        assert ReadLine(whole) == Prepend([], answer, ReadLine(input));
      } else {
        answers := [];
        assert output == old(output) + [];
        PrependNothing(ReadLine(input));
        if |behind| > 0 {
          assert whole[1] == behind[0] && whole[2..] == behind[1..];
        }
        assert ReadLine(whole) == Prepend([], [], ReadLine(input));
      }
    }

    /** One character into the buffer, unless it is full. */
    method Put(n: nat, c: char, ghost text: string) returns (m: nat)
      requires Valid() && n == |Take(text, MAXREPLY)| && reply[..n] == Take(text, MAXREPLY)
      modifies reply
      ensures m == |Take(text + [c], MAXREPLY)| && reply[..m] == Take(text + [c], MAXREPLY)
      ensures forall k :: m < k <= MAXREPLY ==> reply[k] == old(reply[k])
    {
      TakeMore(text, c, MAXREPLY);
      m := n;
      if n < MAXREPLY {
        reply[n] := c;
        m := n + 1;
      }
    }

    /** What a turn of the loop in ftp_gets takes off the connection; `pending` is what followed a lone CR. */
    method Pull(pending: Option<char>) returns (e: Event, after: Option<char>)
      requires Valid() && connected
      modifies this`input, this`output, this`connected
      ensures Valid() && (connected <==> e != Gone)
      ensures output == old(output) + (if e.Negotiated? then e.answers else [])
      ensures |Unread(after, input)| < |Unread(pending, old(input))| || e == Gone
      ensures ReadLine(Unread(pending, old(input))) == Follows(e, Unread(after, input))
      ensures after.Some? ==> e.Data?
    {
      ghost var unread := Unread(pending, input);
      var c := pending;
      after := None;
      if c == None {
        c := SockGet();
      }
      assert unread != [] ==> c == Some(unread[0]) && input == unread[1..] && unread == [c.value] + input;
      if c == None {
        connected := false;
        return Gone, None;
      }
      if c.value == IAC {
        var answers := Telnet(unread);
        return Negotiated(answers), None;
      }
      ByteRead(unread);
      hide ReadLine;
      e := Data(c.value);
      if c.value == CR {
        var n := SockGet();
        if n == None {
          e := Data(IAC);
        } else if n.value == LF {
          e := ReturnEnd;
        } else if n.value != NUL {
          after := n;
          assert [n.value] + input == unread[1..];
        }
      } else if c.value == LF {
        e := End;
      }
    }

    /** The loop of ftp_gets: the bytes of a line into the buffer; n is one past the last one written. */
    method Collect() returns (got: bool, n: nat, ghost text: string, ghost answers: string)
      requires Valid()
      modifies this`input, this`output, this`connected, reply
      ensures Valid() && output == old(output) + answers
      ensures !got ==> !connected && ReadLine(old(input)) == Closed(answers)
      ensures got ==> connected && ReadLine(old(input)) == Line(text, answers, input)
      ensures got ==> (if |text| <= MAXREPLY then n == |text| else n >= MAXREPLY)
      ensures got ==> reply[..|Take(text, MAXREPLY)|] == Take(text, MAXREPLY)
      ensures forall k :: n < k <= MAXREPLY ==> reply[k] == old(reply[k])
    {
      ghost var whole := input;
      reply[0] := NUL;
      got, n, text, answers := false, 0, [], [];
      if !connected {
        return;
      }
      var pending := None;
      PrependNothing(ReadLine(whole));
      assert Unread(pending, input) == input;
      hide ReadLine, Prepend, Take, Follows, Unread;
      while true
        invariant Valid() && connected && n == |Take(text, MAXREPLY)| && (|text| <= MAXREPLY ==> n == |text|)
        invariant reply[..n] == Take(text, MAXREPLY)
        invariant forall k :: n < k <= MAXREPLY ==> reply[k] == old(reply[k])
        invariant output == old(output) + answers
        invariant ReadLine(whole) == Prepend(text, answers, ReadLine(Unread(pending, input)))
        decreases |Unread(pending, input)|
      {
        var e, after := Pull(pending);
        EventRead(text, answers, e, Unread(after, input));
        pending := after;
        match e {
          case Gone =>
            return;
          case Negotiated(more) =>
            Associate(old(output), answers, more);
            answers := answers + more;
          case End =>
            got := true;
            return;
          case ReturnEnd =>
            TakeMore(text, CR, MAXREPLY);
            reply[n] := CR;
            n := n + 1;
            got, text := true, text + [CR];
            return;
          case Data(c) =>
            n := Put(n, c, text);
            text := text + [c];
        }
      }
    }

    /** strchr(reply, 0). */
    method StrLen() returns (n: nat)
      requires Valid() && NUL in reply[..]
      ensures n < reply.Length && reply[n] == NUL && Visible(reply[..]) == reply[..n]
    {
      n := 0;
      while reply[n] != NUL
        invariant n < reply.Length && forall k :: 0 <= k < n ==> reply[k] != NUL
        invariant exists k :: n <= k < reply.Length && reply[k] == NUL
        decreases reply.Length - n
      {
        n := n + 1;
      }
      VisibleIs(reply[..], n);
    }

    /** strip_trailing_chars. */
    method StripTrailing()
      requires Valid() && NUL in reply[..]
      modifies reply
      ensures reply[..] == Stripped(old(reply[..]))
    {
      ghost var raw := reply[..];
      var n := StrLen();
      var end := n;
      hide Visible, Strip, Stripped;
      while end > 0 && (reply[end - 1] == CR || reply[end - 1] == LF)
        invariant 0 <= end <= n
        invariant forall k :: 0 <= k < end || n <= k < reply.Length ==> reply[k] == raw[k]
        invariant forall k :: end <= k < n ==> reply[k] == NUL && (raw[k] == CR || raw[k] == LF)
      {
        reply[end - 1] := NUL;
        end := end - 1;
      }
      IsStripped(raw, reply[..], n, end);
    }

    /** The NUL behind the line. */
    method EndLine(n: nat, ghost text: string, ghost buf: string)
      requires Valid() && |buf| == MAXREPLY + 1 && n == |Take(text, MAXREPLY)| && n <= MAXREPLY
      requires reply[..n] == Take(text, MAXREPLY) && forall k :: n < k <= MAXREPLY ==> reply[k] == buf[k]
      modifies reply
      ensures reply[..] == Raw(buf, text) && NUL in reply[..]
      ensures Visible(reply[..]) == Visible(Take(text, MAXREPLY))
    {
      hide Visible, Raw, Take;
      reply[n] := NUL;
      IsRaw(reply[..], buf, text, n);
    }

    /** ftp_gets: one line into the buffer; false when the connection is gone. */
    method Gets() returns (got: bool)
      requires Valid()
      modifies this, reply
      ensures Valid()
      ensures match ReadLine(old(input))
              case Line(t, answers, rest) =>
                && got && connected && input == rest && output == old(output) + answers
                && reply[..] == Stored(old(reply[..]), t)
                && fullcode == Number(t) && IsHundreds(code, fullcode)
              case Closed(answers) => !got && !connected && output == old(output) + answers
    {
      hide ReadLine, Visible, Atoi, Stripped, Raw;
      ghost var buf := reply[..];
      var n; ghost var text, answers;
      got, n, text, answers := Collect();
      if !got {
        return;
      }
      if n >= MAXREPLY {
        n := MAXREPLY;
      }
      EndLine(n, text, buf);
      fullcode := Atoi(Visible(reply[..]));
      StripTrailing();
      code := Truncated(fullcode, 100);
      assert IsHundreds(code, fullcode);
    }

    /** ftp_read_reply. */
    method Read() returns (result: int)
      requires Valid()
      modifies this, reply
      ensures Valid()
      ensures match ReadReply(old(reply[..]), old(input))
              case Done(r, f, b, answers, rest) =>
                && result == r && fullcode == f && reply[..] == b && connected
                && input == rest && output == old(output) + answers && IsHundreds(code, fullcode)
              case Dropped(r, answers) => result == r && !connected && output == old(output) + answers
    {
      hide ReadLine, Stored, Number, SameFront, LastFront, IsHundreds;
      var got := Gets();
      if !got {
        return -1;
      }
      result := fullcode;
      if result == -1 {
        return;
      }
      if reply[3] == '-' {
        result := ReadOn(result, LastFront(reply[..]));
      }
    }

    /** The lines up to the last one. */
    method ReadOn(first: int, front: string) returns (result: int)
      requires Valid() && connected && |front| == 4
      modifies this, reply
      ensures Valid()
      ensures match ReadRest(first, front, old(reply[..]), old(input))
              case Done(r, f, b, answers, rest) =>
                && result == r && fullcode == f && reply[..] == b && connected
                && input == rest && output == old(output) + answers && IsHundreds(code, fullcode)
              case Dropped(r, answers) => result == r && !connected && output == old(output) + answers
    {
      hide ReadLine, Stored, Number, SameFront, LastFront, IsHundreds;
      ghost var answers, expected := [], ReadRest(first, front, reply[..], input);
      result := first;
      AnsweredNothing(expected);
      var more := true;
      while more
        invariant Valid() && connected && output == old(output) + answers
        invariant more ==> expected == Answered(answers, ReadRest(first, front, reply[..], input))
        invariant !more ==> expected == Done(first, fullcode, reply[..], answers, input) && IsHundreds(code, fullcode)
        decreases more, |input|
      {
        ghost var before, was := input, reply[..];
        var got := Gets();
        ghost var line := ReadLine(before);
        AnsweredTwice(answers, line.answers, ReadRest(first, front, reply[..], input));
        Associate(old(output), answers, line.answers);
        answers := answers + line.answers;
        if !got {
          return;
        }
        if fullcode == -1 {
          return;
        }
        more := !SameFront(front, reply[..]);
      }
    }

    /** Any stream of replies is read reply by reply; `kinds` are the values of ftp->code behind each. */
    method ReadReplies(ghost replies: seq<Reply>, ghost rest: string, n: nat)
      returns (codes: seq<int>, kinds: seq<int>)
      requires Valid() && connected && |replies| == n && input == StreamBytes(replies) + rest
      requires forall k :: 0 <= k < n ==> ReplyOk(replies[k]) && NoFailure(replies[k].lines[1..])
      modifies this, reply
      ensures Valid() && connected && input == rest && |codes| == |kinds| == n
      ensures forall k :: 0 <= k < n ==>
                HasCode(replies[k]) && codes[k] == Value(replies[k].code) && kinds[k] == Digit(replies[k].code[0])
      ensures n > 0 ==> fullcode == codes[n - 1] && code == kinds[n - 1]
    {
      hide ReplyOk, LineOk, Chars, NoFailure, ReadReply, Digits, Value, Digit, IsHundreds;
      codes, kinds := [], [];
      assert replies[0..] == replies;
      for i := 0 to n
        invariant Valid() && connected && |codes| == |kinds| == i && input == StreamBytes(replies[i..]) + rest
        invariant forall k :: 0 <= k < i ==>
                    HasCode(replies[k]) && codes[k] == Value(replies[k].code) && kinds[k] == Digit(replies[k].code[0])
        invariant i > 0 ==> fullcode == codes[i - 1] && code == kinds[i - 1]
      {
        ghost var r := replies[i];
        assert replies[i..][0] == r && replies[i..][1..] == replies[i + 1..];
        Associate(ReplyBytes(r.lines), StreamBytes(replies[i + 1..]), rest);
        ReplyExact(r, reply[..], StreamBytes(replies[i + 1..]) + rest);
        var c := Read();
        FirstDigit(r, code);
        codes, kinds := codes + [c], kinds + [code];
      }
    }
  }

  predicate HasCode(r: Reply) {
    IsCode(r.code)
  }

  /** What ftp->code is behind a reply: the first digit of its code. */
  lemma FirstDigit(r: Reply, code: int)
    requires ReplyOk(r) && IsHundreds(code, Value(r.code))
    ensures HasCode(r) && code == Digit(r.code[0])
  {
    hide LineOk, Chars, Continues;
  }

  function StreamBytes(replies: seq<Reply>): string {
    if replies == [] then [] else ReplyBytes(replies[0].lines) + StreamBytes(replies[1..])
  }

  lemma IsStripped(raw: string, now: string, n: nat, end: nat)
    requires |now| == |raw| && end <= n <= |raw| && Visible(raw) == raw[..n]
    requires end > 0 ==> raw[end - 1] != CR && raw[end - 1] != LF
    requires forall k :: 0 <= k < end || n <= k < |raw| ==> now[k] == raw[k]
    requires forall k :: end <= k < n ==> now[k] == NUL && (raw[k] == CR || raw[k] == LF)
    ensures now == Stripped(raw)
  {
    hide Visible, Strip, Stripped;
    var t := raw[..n];
    StripIs(t, end);
    TakeTake(raw, n, end);
    StrippedParts(raw, n, end);
    Assembled(raw, now, n, end);
  }

  lemma StrippedParts(raw: string, n: nat, end: nat)
    requires end <= n <= |raw| && Visible(raw) == raw[..n] && Strip(raw[..n]) == raw[..end]
    ensures Stripped(raw) == raw[..end] + Nuls(n - end) + raw[n..]
  {
    hide Visible, Strip, Nuls;
  }

  lemma TakeTake(t: string, n: nat, k: nat)
    requires k <= n <= |t|
    ensures t[..n][..k] == t[..k]
  {
  }

  lemma Assembled(raw: string, now: string, n: nat, end: nat)
    requires |now| == |raw| && end <= n <= |raw|
    requires forall k :: 0 <= k < end || n <= k < |raw| ==> now[k] == raw[k]
    requires forall k :: end <= k < n ==> now[k] == NUL
    ensures now == raw[..end] + Nuls(n - end) + raw[n..]
  {
    assert now[..end] == raw[..end] && now[end..n] == Nuls(n - end) && now[n..] == raw[n..];
    assert now == now[..end] + now[end..n] + now[n..];
  }

  lemma IsRaw(now: string, buf: string, text: string, n: nat)
    requires |now| == |buf| == MAXREPLY + 1 && n == |Take(text, MAXREPLY)| && now[n] == NUL
    requires now[..n] == Take(text, MAXREPLY) && forall k :: n < k <= MAXREPLY ==> now[k] == buf[k]
    ensures now == Raw(buf, text) && NUL in now && Visible(now) == Visible(Take(text, MAXREPLY))
  {
    assert now == now[..n] + [NUL] + now[n + 1..];
    assert now[n + 1..] == buf[n + 1..];
    VisibleIsFront(Take(text, MAXREPLY), buf[n + 1..]);
  }

  lemma AnsweredNothing(o: Outcome)
    ensures Answered([], o) == o
  {
  }

  lemma AnsweredTwice(a: string, b: string, o: Outcome)
    ensures Answered(a, Answered(b, o)) == Answered(a + b, o)
  {
    Associate(a, b, o.answers);
  }

  // ----- a reply that is broken off

  function Spelled(s: string): (line: seq<Piece>)
    ensures |line| == |s|
  {
    if s == [] then [] else [Plain(s[0])] + Spelled(s[1..])
  }

  lemma {:induction false} SpelledIs(s: string)
    requires Clean(s) && IAC !in s
    ensures Chars(Spelled(s)) == s && LineOk(Spelled(s))
  {
    if s != [] {
      SpelledIs(s[1..]);
      assert Spelled(s)[0] == Plain(s[0]) && Spelled(s)[1..] == Spelled(s[1..]);
    }
  }

  lemma MinusOne()
    ensures Number(Text(Spelled("-1"))) == -1
  {
    SpelledIs("-1");
    hide Chars, Spelled;
    var t := ['-', '1', CR];
    assert Text(Spelled("-1")) == t;
    VisibleIs(t + [NUL], 3);
    VisibleIsFront(t, []);
    assert t + [NUL] + [] == t + [NUL];
    assert t[1..] == ['1', CR] && t[1..][1..] == [CR];
    DigitStep(t[1..], 0, 1);
  }

  function BrokenReply(): Reply {
    Reply("220", [Spelled("220" + "-"), Spelled("-1"), Spelled("220" + " ")])
  }

  /** A line of a code and a mark. */
  lemma MarkedLine(code: string, mark: char)
    requires IsCode(code) && (mark == '-' || mark == ' ')
    ensures Chars(Spelled(code + [mark])) == code + [mark] && LineOk(Spelled(code + [mark]))
  {
    SpelledIs(code + [mark]);
  }

  lemma BrokenReplyOk()
    ensures ReplyOk(BrokenReply()) && !NoFailure(BrokenReply().lines[1..])
  {
    MarkedLine("220", '-');
    MarkedLine("220", ' ');
    SpelledIs("-1");
    MinusOne();
    hide Chars, Spelled, LineOk, Number, Text, ReplyOk, NoFailure;
    ThreeLines("220", Spelled("220" + "-"), Spelled("-1"), Spelled("220" + " "));
  }

  lemma ThreeLines(code: string, a: seq<Piece>, b: seq<Piece>, c: seq<Piece>)
    requires IsCode(code) && LineOk(a) && LineOk(b) && LineOk(c)
    requires Chars(a) == code + "-" && Chars(c) == code + " " && |Chars(b)| < 4
    requires Number(Text(b)) == -1
    ensures ReplyOk(Reply(code, [a, b, c])) && !NoFailure([a, b, c][1..])
  {
    hide Chars, LineOk, Number, Text;
    var behind := [a, b, c][1..];
    assert behind == [b, c] && behind[0] == b && behind[1] == c;
    assert Continues(code, behind);
  }

  /** A well-formed reply whose second line is -1: the reader stops there. */
  lemma MinusOneBreaksOff(buf: string, rest: string)
    requires |buf| == MAXREPLY + 1
    ensures ReplyOk(BrokenReply())
    ensures var o := ReadReply(buf, ReplyBytes(BrokenReply().lines) + rest); o.Done? && o.rest != rest
  {
    BrokenReplyOk();
    ReplyExact(BrokenReply(), buf, rest);
    hide ReplyOk, NoFailure, BrokenReply, ReadReply, ReplyBytes;
  }
}
