/**
 ASCII transfers of src/ftp/ftpsend.c (section 3.1.1.1 of RFC 959): lines end in CR LF on the
 connection and in LF in the file. Interrupts and errors are not part of this model.
 */
module AsciiMode {
  import opened CString
  import opened Sequences

  const CR: char := '\r'
  const LF: char := '\n'

  /** What is sent for a file. */
  function Sent(file: string): string {
    if file == [] then []
    else (if file[0] == LF then [CR, LF] else [file[0]]) + Sent(file[1..])
  }

  /** The file made of what comes in: CR LF becomes LF, a CR at the end is lost. */
  function Received(data: string): string {
    if data == [] || data == [CR] then []
    else if data[0] == CR && data[1] == LF then [LF] + Received(data[2..])
    else [data[0]] + Received(data[1..])
  }

  /** The line feeds without a CR before them. */
  function BareLfs(data: string): nat {
    if data == [] || data == [CR] then 0
    else if data[0] == CR && data[1] == LF then BareLfs(data[2..])
    else (if data[0] == LF then 1 else 0) + BareLfs(data[1..])
  }

  function Lfs(file: string): nat {
    if file == [] then 0 else (if file[0] == LF then 1 else 0) + Lfs(file[1..])
  }

  predicate EndsInCr(s: string) {
    s != [] && s[|s| - 1] == CR
  }

  /** The last CR is what a transfer loses. */
  function WithoutLastCr(s: string): string {
    if EndsInCr(s) then s[..|s| - 1] else s
  }

  lemma {:induction false} SentLength(file: string)
    ensures |Sent(file)| == |file| + Lfs(file)
  {
    if file != [] {
      SentLength(file[1..]);
    }
  }

  lemma SentFirst(file: string)
    requires file != []
    ensures Sent(file) != [] && Sent(file)[0] == if file[0] == LF then CR else file[0]
  {
  }

  /** A file that was sent comes back, but for a CR at its very end, and shows no bare line feed. */
  lemma {:induction false} SentReceived(file: string)
    ensures Received(Sent(file)) == WithoutLastCr(file)
    ensures BareLfs(Sent(file)) == 0
  {
    if file != [] {
      var rest := file[1..];
      SentReceived(rest);
      var tail := Sent(rest);
      if file[0] == LF {
        assert ([CR, LF] + tail)[2..] == tail;
        assert WithoutLastCr(file) == [LF] + WithoutLastCr(rest);
      } else if rest == [] {
        assert Sent(file) == [file[0]] + [];
        assert ([file[0]] + [])[1..] == [];
        assert file == [file[0]];
      } else {
        SentFirst(rest);
        assert ([file[0]] + tail)[1..] == tail;
        assert WithoutLastCr(file) == [file[0]] + WithoutLastCr(rest);
      }
    }
  }

  /** A file of `a` and CR comes back as `a`. */
  lemma LastCrLost()
    ensures Received(Sent(['a', CR])) == ['a']
  {
    SentReceived(['a', CR]);
    assert ['a', CR][..1] == ['a'];
  }

  /** What was received is sent as it came exactly when no line feed was bare and no CR came last. */
  lemma {:induction false} ReceivedSent(data: string)
    ensures Sent(Received(data)) == data <==> BareLfs(data) == 0 && !EndsInCr(data)
    decreases |data|
  {
    if data == [CR] {
      assert Sent([]) == [];
    } else if data != [] {
      var k := if data[0] == CR && data[1] == LF then 2 else 1;
      var rest := data[k..];
      ReceivedSent(rest);
      Cut(data, k);
      if data[0] == LF {
        SentFirst(Received(data));
      } else {
        FrontSent(data[..k], rest);
        hide Sent, Received;
        Cancel(data[..k], Sent(Received(rest)), rest);
      }
    }
  }

  lemma FrontSent(front: string, rest: string)
    requires front == [CR, LF] || (|front| == 1 && front[0] != LF && (front[0] == CR ==> rest != [] && rest[0] != LF))
    ensures Sent(Received(front + rest)) == front + Sent(Received(rest))
  {
    var data := front + rest;
    assert data[|front|..] == rest;
    var file := Received(rest);
    if front == [CR, LF] {
      assert Received(data) == [LF] + file && ([LF] + file)[1..] == file;
    } else {
      assert Received(data) == [front[0]] + file && ([front[0]] + file)[1..] == file;
    }
  }

  lemma Cut(data: string, k: nat)
    requires 0 < k <= |data|
    ensures data == data[..k] + data[k..]
    ensures EndsInCr(data) <==> if k == |data| then data[k - 1] == CR else EndsInCr(data[k..])
  {
  }

  lemma Cancel(a: string, x: string, y: string)
    ensures a + x == a + y <==> x == y
  {
    if a + x == a + y {
      assert x == (a + x)[|a|..] == (a + y)[|a|..] == y;
    }
  }

  // ----- what comes in, piece by piece

  datatype Piece = LineBreak | BareLf | LoneCr | Other(c: char)

  function Bytes(p: Piece): (b: string)
    ensures b != []
  {
    match p
    case LineBreak => ['\r', '\n']
    case BareLf => ['\n']
    case LoneCr => ['\r']
    case Other(c) => [c]
  }

  /** What a piece becomes in the file. */
  function PieceText(p: Piece): string {
    match p
    case LineBreak => ['\n']
    case BareLf => ['\n']
    case LoneCr => ['\r']
    case Other(c) => [c]
  }

  function Data(ps: seq<Piece>): (d: string)
    ensures ps != [] ==> d != []
  {
    if ps == [] then [] else Bytes(ps[0]) + Data(ps[1..])
  }

  function Text(ps: seq<Piece>): string {
    if ps == [] then [] else PieceText(ps[0]) + Text(ps[1..])
  }

  function BarePieces(ps: seq<Piece>): nat {
    if ps == [] then 0 else (if ps[0].BareLf? then 1 else 0) + BarePieces(ps[1..])
  }

  /** Something other than a line feed follows a lone CR. */
  predicate PieceOk(p: Piece, rest: string) {
    match p
    case Other(c) => c != '\r' && c != '\n'
    case LoneCr => rest != [] && rest[0] != '\n'
    case _ => true
  }

  predicate PiecesOk(ps: seq<Piece>) {
    ps != [] ==> PieceOk(ps[0], Data(ps[1..])) && PiecesOk(ps[1..])
  }

  /** Line breaks lose their CR, everything else stays, and the bare line feeds are counted. */
  lemma {:induction false} PiecesReceived(ps: seq<Piece>)
    requires PiecesOk(ps)
    ensures Received(Data(ps)) == Text(ps) && BareLfs(Data(ps)) == BarePieces(ps)
  {
    if ps != [] {
      PiecesReceived(ps[1..]);
      PieceReceived(ps[0], Data(ps[1..]));
      hide Received, BareLfs, Bytes, PieceText;
    }
  }

  lemma PieceReceived(p: Piece, rest: string)
    requires PieceOk(p, rest)
    ensures Received(Bytes(p) + rest) == PieceText(p) + Received(rest)
    ensures BareLfs(Bytes(p) + rest) == (if p.BareLf? then 1 else 0) + BareLfs(rest)
  {
    var data := Bytes(p) + rest;
    assert data[|Bytes(p)|..] == rest;
    assert p.LoneCr? ==> data[1] == rest[0];
  }

  /** ftp->ti and the two ends of a transfer. */
  class Transfer {
    var input: string
    var output: string
    var size: nat
    var bareLfs: nat

    constructor (input: string)
      ensures this.input == input && output == [] && size == 0 && bareLfs == 0
    {
      this.input, output, size, bareLfs := input, [], 0, 0;
    }

    /** sock_get, fgetc. */
    method Get() returns (c: Option<char>)
      modifies this`input
      ensures old(input) == [] ==> c == None && input == []
      ensures old(input) != [] ==> c == Some(old(input)[0]) && input == old(input)[1..]
    {
      if input == [] {
        return None;
      }
      c := Some(input[0]);
      input := input[1..];
    }

    /** FILE_send_ascii. */
    method SendAscii()
      modifies this
      ensures output == old(output) + Sent(old(input)) && input == []
      ensures size == old(size) + |old(input)| + Lfs(old(input)) && bareLfs == old(bareLfs)
    {
      ghost var all, start := input, output;
      ghost var sent := [];
      assert output == start + sent;
      while true
        invariant output == start + sent && sent + Sent(input) == Sent(all)
        invariant size + |input| + Lfs(input) == old(size) + |all| + Lfs(all) && bareLfs == old(bareLfs)
        decreases |input|
      {
        ghost var rest := input;
        var c := Get();
        if c == None {
          assert sent + [] == sent;
          return;
        }
        ghost var piece := if c.value == LF then [CR, LF] else [c.value];
        Associate(sent, piece, Sent(input));
        Associate(start, sent, piece);
        if c.value == LF {
          output := output + [CR];
          size := size + 1;
        }
        output := output + [c.value];
        size := size + 1;
        sent := sent + piece;
        assert output == start + sent;
      }
    }

    /** FILE_recv_ascii. */
    method ReceiveAscii()
      modifies this
      ensures output == old(output) + Received(old(input)) && input == []
      ensures size == old(size) + |Received(old(input))| && bareLfs == old(bareLfs) + BareLfs(old(input))
    {
      ghost var all, start := input, output;
      ghost var received := [];
      var next, nc := true, NUL;
      assert output == start + received;
      while true
        invariant !next ==> nc != LF
        invariant output == start + received
        invariant received + Received(Unread(next, nc, input)) == Received(all)
        invariant size == old(size) + |received|
        invariant bareLfs + BareLfs(Unread(next, nc, input)) == old(bareLfs) + BareLfs(all)
        decreases |Unread(next, nc, input)|
      {
        ghost var unread := Unread(next, nc, input);
        var c := nc;
        if next {
          var got := Get();
          if got == None {
            assert received + [] == received;
            return;
          }
          c := got.value;
        } else {
          next := true;
        }
        assert unread == [c] + input && unread[1..] == input;
        if c == LF {
          bareLfs := bareLfs + 1;
        } else if c == CR {
          var got := Get();
          if got == None {
            assert received + [] == received;
            return;
          }
          nc := got.value;
          if nc != LF {
            next := false;
            assert [nc] + input == unread[1..];
          } else {
            c := nc;
            assert unread[2..] == input;
          }
        }
        Associate(received, [c], Received(Unread(next, nc, input)));
        Associate(start, received, [c]);
        output := output + [c];
        size := size + 1;
        received := received + [c];
      }
    }
  }

  function Unread(next: bool, pending: char, input: string): string {
    if next then input else [pending] + input
  }

  /** A file sent and received again. */
  method SendAndReceive(file: string) returns (copy: string, sender: Transfer, receiver: Transfer)
    ensures copy == WithoutLastCr(file)
    ensures receiver.bareLfs == 0 && sender.size == |file| + Lfs(file)
  {
    sender := new Transfer(file);
    sender.SendAscii();
    receiver := new Transfer(sender.output);
    receiver.ReceiveAscii();
    copy := receiver.output;
    SentReceived(file);
    assert [] + Sent(file) == Sent(file) && [] + Received(Sent(file)) == Received(Sent(file));
  }
}
