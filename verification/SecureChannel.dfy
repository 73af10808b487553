/**
 The protected data channel of lib/security.c (section 6 of RFC 2228): frames of a 32-bit
 length and an encoded payload, ended by a frame with an empty payload.

 The security mechanism is a pair of functions; the socket may take and give any part of
 what it is asked for.
 */
module SecureChannel {
  import opened Sequences

  type byte = b: int | 0 <= b < 256

  datatype Mechanism = Mechanism(encoder: seq<byte> -> seq<byte>, decoder: seq<byte> -> seq<byte>) {
    function Encode(x: seq<byte>): seq<byte> {
      encoder(x)
    }

    function Decode(x: seq<byte>): seq<byte> {
      decoder(x)
    }
  }

  /** Payloads up to `max` bytes survive, and their encodings fit the length field and are not empty. */
  ghost predicate Lossless(m: Mechanism, max: nat) {
    forall x: seq<byte> :: |x| <= max ==>
      m.Decode(m.Encode(x)) == x && 0 < |m.Encode(x)| < 0x8000_0000
  }

  // ----- frames

  /** The length field in network byte order. */
  function Header(n: nat): (h: seq<byte>)
    requires n < 0x1_0000_0000
    ensures |h| == 4
  {
    [n / 256 / 256 / 256, n / 256 / 256 % 256, n / 256 % 256, n % 256]
  }

  function HeaderValue(h: seq<byte>): nat
    requires |h| == 4
  {
    (((h[0] as int) * 256 + h[1] as int) * 256 + h[2] as int) * 256 + h[3] as int
  }

  /** The first byte weighs most. */
  lemma HeaderBytes(n: nat)
    requires n < 0x1_0000_0000
    ensures var h := Header(n);
            n == 0x100_0000 * h[0] as int + 0x1_0000 * h[1] as int + 0x100 * h[2] as int + h[3] as int
  {
    var a := n / 256;
    var b := a / 256;
    assert n == a * 256 + n % 256 && a == b * 256 + a % 256 && b == (b / 256) * 256 + b % 256;
  }

  lemma HeaderRoundTrip(n: nat)
    requires n < 0x1_0000_0000
    ensures HeaderValue(Header(n)) == n
  {
    var a := n / 256;
    var b := a / 256;
    assert n == a * 256 + n % 256 && a == b * 256 + a % 256 && b == (b / 256) * 256 + b % 256;
  }

  function Frame(m: Mechanism, payload: seq<byte>): seq<byte> {
    var e := m.Encode(payload);
    if |e| < 0x1_0000_0000 then Header(|e|) + e else []
  }

  function Wire(m: Mechanism, frames: seq<seq<byte>>): seq<byte> {
    if frames == [] then [] else Frame(m, frames[0]) + Wire(m, frames[1..])
  }

  lemma {:induction false} WireAppend(m: Mechanism, a: seq<seq<byte>>, b: seq<seq<byte>>)
    ensures Wire(m, a + b) == Wire(m, a) + Wire(m, b)
    decreases |a|
  {
    if a == [] {
      assert a + b == b;
    } else {
      hide Wire;
      WireAppend(m, a[1..], b);
      WireCons(m, a[0], a[1..]);
      WireCons(m, a[0], a[1..] + b);
      Associate([a[0]], a[1..], b);
      assert a == [a[0]] + a[1..];
      Associate(Frame(m, a[0]), Wire(m, a[1..]), Wire(m, b));
    }
  }

  lemma WireCons(m: Mechanism, f: seq<byte>, fs: seq<seq<byte>>)
    ensures Wire(m, [f] + fs) == Frame(m, f) + Wire(m, fs)
  {
    assert ([f] + fs)[1..] == fs;
  }

  /** The bytes of one more frame. */
  lemma WireMore(m: Mechanism, frames: seq<seq<byte>>, f: seq<byte>)
    requires |m.Encode(f)| < 0x8000_0000
    ensures var e := m.Encode(f); Wire(m, frames + [f]) == Wire(m, frames) + Header(|e|) + e
  {
    var e := m.Encode(f);
    assert Wire(m, [f]) == Frame(m, f) by {
      assert [f] == [f] + [];
      WireCons(m, f, []);
    }
    WireAppend(m, frames, [f]);
    hide Wire;
    Associate(Wire(m, frames), Header(|e|), e);
  }

  lemma {:induction false} FlattenAppend(a: seq<seq<byte>>, b: seq<seq<byte>>)
    ensures Flatten(a + b) == Flatten(a) + Flatten(b)
    decreases |a|
  {
    if a == [] {
      assert a + b == b;
    } else {
      FlattenAppend(a[1..], b);
      assert (a + b)[1..] == a[1..] + b && (a + b)[0] == a[0];
      Associate(a[0], Flatten(a[1..]), Flatten(b));
    }
  }

  /** Payloads a sender may put in frames: none is empty, none longer than max. */
  predicate Payloads(frames: seq<seq<byte>>, max: nat) {
    forall k :: 0 <= k < |frames| ==> 0 < |frames[k]| <= max
  }

  predicate Bounded(frames: seq<seq<byte>>, max: nat) {
    forall k :: 0 <= k < |frames| ==> |frames[k]| <= max
  }

  lemma NothingSent(max: nat)
    ensures Payloads([], max) && Flatten<byte>([]) == []
  {
  }

  /** One more frame, of the next len bytes. */
  lemma OneMore(sent: seq<seq<byte>>, data: seq<byte>, tx: nat, len: nat, max: nat)
    requires tx + len <= |data| && 0 < len <= max && Payloads(sent, max) && Flatten(sent) == data[..tx]
    ensures var more := sent + [data[tx..tx + len]]; Payloads(more, max) && Flatten(more) == data[..tx + len]
  {
    var chunk := data[tx..tx + len];
    FlattenAppend(sent, [chunk]);
    assert Flatten([chunk]) == chunk + Flatten([chunk][1..]) == chunk;
    assert data[..tx] + chunk == data[..tx + len];
  }

  // ----- the sender

  class Sender {
    const mech: Mechanism
    /** ftp->buffer_size less the overhead of the mechanism. */
    const max: nat
    var wire: seq<byte>
    var outBuffer: seq<byte>
    ghost var frames: seq<seq<byte>>

    ghost predicate Valid()
      reads this
    {
      Lossless(mech, max) && max > 0 && wire == Wire(mech, frames)
    }

    constructor (mech: Mechanism, bufferSize: nat, overhead: nat)
      requires overhead < bufferSize && Lossless(mech, bufferSize - overhead)
      ensures Valid() && this.mech == mech && max == bufferSize - overhead
      ensures wire == [] && outBuffer == [] && frames == []
    {
      this.mech, max := mech, bufferSize - overhead;
      wire, outBuffer, frames := [], [], [];
    }

    /** write(2): some leading part of the data. */
    method Write(data: seq<byte>) returns (n: nat)
      requires data != []
      modifies this`wire
      ensures 1 <= n <= |data| && wire == old(wire) + data[..n]
    {
      n :| 1 <= n <= |data|;
      wire := wire + data[..n];
    }

    method BlockWrite(data: seq<byte>)
      modifies this`wire
      ensures wire == old(wire) + data
    {
      var p := 0;
      while p < |data|
        invariant 0 <= p <= |data| && wire == old(wire) + data[..p]
      {
        ghost var before := wire;
        var b := Write(data[p..]);
        assert data[..p] + data[p..][..b] == data[..p + b];
        p := p + b;
      }
    }

    method SecSend(from: seq<byte>)
      requires Valid() && |from| <= max
      modifies this`wire, this`frames
      ensures Valid() && frames == old(frames) + [from]
    {
      hide Wire, Header;
      var buf := mech.Encode(from);
      assert 0 < |buf| < 0x8000_0000;
      BlockWrite(Header(|buf|));
      BlockWrite(buf);
      WireMore(mech, frames, from);
      frames := frames + [from];
    }

    /** sec_write: frames of at most `max` bytes that together hold the data. */
    method SecWrite(data: seq<byte>) returns (tx: nat, ghost sent: seq<seq<byte>>)
      requires Valid()
      modifies this`wire, this`frames
      ensures Valid() && tx == |data| && frames == old(frames) + sent
      ensures Payloads(sent, max) && Flatten(sent) == data
    {
      hide Payloads, Flatten, Wire, Lossless;
      var len := max;
      tx, sent := 0, [];
      NothingSent(max);
      assert frames == old(frames) + sent;
      while tx < |data|
        invariant Valid() && tx <= |data| && 0 < len <= max
        invariant frames == old(frames) + sent && Payloads(sent, max) && Flatten(sent) == data[..tx]
      {
        if |data| - tx < len {
          len := |data| - tx;
        }
        var chunk := data[tx..tx + len];
        SecSend(chunk);
        OneMore(sent, data, tx, len, max);
        Associate(old(frames), sent, [chunk]);
        sent := sent + [chunk];
        tx := tx + len;
      }
      assert data[..tx] == data;
    }

    /** Send what sec_putc has collected. */
    method SendBuffer() returns (ghost sent: seq<seq<byte>>)
      requires Valid()
      modifies this
      ensures Valid() && outBuffer == [] && frames == old(frames) + sent
      ensures Payloads(sent, max) && Flatten(sent) == old(outBuffer)
    {
      var tx;
      tx, sent := SecWrite(outBuffer);
      outBuffer := [];
    }

    /** sec_putc: collect until a newline or 1024 bytes. */
    method SecPutc(c: byte) returns (ghost sent: seq<seq<byte>>)
      requires Valid()
      modifies this
      ensures Valid() && frames == old(frames) + sent && Payloads(sent, max)
      ensures Flatten(sent) + outBuffer == old(outBuffer) + [c]
      ensures outBuffer != [] ==> sent == [] && c != 10 && |outBuffer| < 1024
    {
      outBuffer := outBuffer + [c];
      sent := [];
      if c == 10 || |outBuffer| >= 1024 {
        sent := SendBuffer();
      } else {
        assert frames == old(frames) + sent;
      }
    }

    /** sec_fflush: what is buffered, and the empty frame. */
    method SecFflush() returns (ghost sent: seq<seq<byte>>)
      requires Valid()
      modifies this
      ensures Valid() && outBuffer == [] && frames == old(frames) + sent + [[]]
      ensures Payloads(sent, max) && Flatten(sent) == old(outBuffer)
    {
      sent := [];
      if |outBuffer| > 0 {
        sent := SendBuffer();
      } else {
        assert frames == old(frames) + sent;
      }
      SecSend([]);
    }
  }

  // ----- the receiver

  /** The index of the first empty payload. */
  function EndFrame(frames: seq<seq<byte>>): (k: nat)
    ensures k <= |frames| && (k < |frames| ==> frames[k] == []) && forall j :: 0 <= j < k ==> frames[j] != []
  {
    if frames == [] || frames[0] == [] then 0 else 1 + EndFrame(frames[1..])
  }

  /** The data in front of the empty frame. */
  function Message(frames: seq<seq<byte>>): seq<byte> {
    Flatten(frames[..EndFrame(frames)])
  }

  /** The frames behind the empty one. */
  function Behind(frames: seq<seq<byte>>): seq<seq<byte>>
    requires EndFrame(frames) < |frames|
  {
    frames[EndFrame(frames) + 1..]
  }

  lemma MessageFirst(frames: seq<seq<byte>>)
    requires EndFrame(frames) < |frames|
    ensures if frames[0] == [] then Message(frames) == [] && Behind(frames) == frames[1..]
            else
              && EndFrame(frames[1..]) < |frames[1..]|
              && Message(frames) == frames[0] + Message(frames[1..]) && Behind(frames) == Behind(frames[1..])
  {
    if frames[0] != [] {
      var k := EndFrame(frames[1..]);
      assert frames[..k + 1][0] == frames[0] && frames[..k + 1][1..] == frames[1..][..k];
    }
  }

  lemma FrameFirst(m: Mechanism, frames: seq<seq<byte>>, rest: seq<byte>)
    requires frames != [] && |m.Encode(frames[0])| < 0x8000_0000
    ensures var e := m.Encode(frames[0]);
            Wire(m, frames) + rest == Header(|e|) + (e + (Wire(m, frames[1..]) + rest))
  {
    var e := m.Encode(frames[0]);
    hide Header;
    Associate(Header(|e|), e, Wire(m, frames[1..]));
    Associate(Header(|e|), e + Wire(m, frames[1..]), rest);
    Associate(e, Wire(m, frames[1..]), rest);
  }

  /** Handing over the front of the buffer keeps what was delivered and what is left together. */
  lemma Handed(had: seq<byte>, chunk: seq<byte>, left: seq<byte>, later: seq<byte>, all: seq<byte>)
    requires had + ((chunk + left) + later) == all
    ensures (had + chunk) + (left + later) == all
  {
    Associate(chunk, left, later);
    Associate(had, chunk, left + later);
  }

  lemma NoneLeft(none: seq<byte>, later: seq<byte>)
    ensures none == [] ==> none + later == later
    ensures later == [] ==> none + later == none
  {
  }

  lemma SameParts(a: seq<byte>, b: seq<byte>, c: seq<byte>, d: seq<byte>)
    requires a + b == c + d
    ensures |a| == |c| || b == d ==> a == c && b == d
    ensures |c| <= |a + b|
  {
    assert |a| == |c| || b == d ==> |a| == |c|;
    assert |a| == |c| ==> a == (a + b)[..|a|] && c == (c + d)[..|c|] && b == (a + b)[|a|..] && d == (c + d)[|c|..];
  }

  /** What a receiver sees of a message that was sent as these frames. */
  lemma {:induction false} MessageOfSent(sent: seq<seq<byte>>, later: seq<seq<byte>>, max: nat)
    requires Payloads(sent, max)
    ensures var all := sent + ([[]] + later);
            && EndFrame(all) < |all|
            && Message(all) == Flatten(sent) && Behind(all) == later
    decreases |sent|
  {
    var all := sent + ([[]] + later);
    if sent == [] {
      assert all == [[]] + later;
      MessageFirst(all);
    } else {
      var tail := sent[1..];
      assert Payloads(tail, max) by {
        forall k | 0 <= k < |tail| ensures 0 < |tail[k]| <= max {
          assert tail[k] == sent[k + 1];
        }
      }
      MessageOfSent(tail, later, max);
      assert all[0] == sent[0] && all[1..] == tail + ([[]] + later);
      assert EndFrame(all) == 1 + EndFrame(all[1..]);
      MessageFirst(all);
    }
  }

  /** The input starts with these frames. */
  predicate Carries(m: Mechanism, input: seq<byte>, frames: seq<seq<byte>>, rest: seq<byte>) {
    input == Wire(m, frames) + rest
  }

  class Receiver {
    const mech: Mechanism
    const max: nat
    /** What the socket has not delivered yet. */
    var input: seq<byte>
    var data: seq<byte>
    var index: nat
    var eofFlag: bool
    /** The frames in `input`, and what follows them. */
    ghost var frames: seq<seq<byte>>
    ghost var rest: seq<byte>

    ghost predicate Valid()
      reads this
    {
      && Lossless(mech, max) && index <= |data|
      && Bounded(frames, max) && Carries(mech, input, frames, rest)
    }

    /** The part of the last frame that was not handed out yet. */
    function Left(): (left: seq<byte>)
      requires index <= |data|
      reads this
      ensures |left| == |data| - index
    {
      data[index..]
    }

    /** The bytes still to be delivered before the end of the message. */
    ghost function Available(): seq<byte>
      requires index <= |data|
      reads this
    {
      Left() + Message(frames)
    }

    /** The end of the message is still to come. */
    ghost predicate EndAhead()
      reads this
    {
      EndFrame(frames) < |frames|
    }

    constructor (mech: Mechanism, max: nat, input: seq<byte>, ghost frames: seq<seq<byte>>, ghost rest: seq<byte>)
      requires Lossless(mech, max) && Bounded(frames, max)
      requires input == Wire(mech, frames) + rest
      ensures Valid() && this.mech == mech && this.max == max && this.frames == frames && this.rest == rest
      ensures data == [] && index == 0 && !eofFlag
    {
      this.mech, this.max, this.input, this.frames, this.rest := mech, max, input, frames, rest;
      data, index, eofFlag := [], 0, false;
    }

    /** read(2): some leading part of what is asked for, nothing at the end. */
    method Read(len: nat) returns (chunk: seq<byte>)
      requires len > 0
      modifies this`input
      ensures |chunk| <= len && (chunk == [] <==> old(input) == []) && old(input) == chunk + input
    {
      if input == [] {
        return [];
      }
      var n :| 1 <= n <= len && n <= |input| by {
        assert 1 <= 1 <= len && 1 <= |input|;
      }
      chunk := input[..n];
      input := input[n..];
    }

    /** block_read: all of len bytes, or the end of the connection. */
    method BlockRead(len: nat) returns (ok: bool, buf: seq<byte>)
      modifies this`input
      ensures ok <==> 0 < len <= |old(input)|
      ensures old(input) == buf + input && (ok ==> |buf| == len) && (!ok ==> len == 0 || input == [])
    {
      buf := [];
      while |buf| < len
        invariant |buf| <= len && old(input) == buf + input
      {
        ghost var before := input;
        var b := Read(len - |buf|);
        if b == [] {
          assert input == before;
          return false, buf;
        }
        Associate(buf, b, input);
        buf := buf + b;
      }
      ok := len > 0;
    }

    /** sec_get_data: the next frame replaces the buffer. */
    method SecGetData()
      requires Valid() && frames != []
      modifies this`input, this`data, this`index, this`frames
      ensures Valid() && frames == old(frames)[1..] && data == old(frames)[0] && index == 0
    {
      ghost var f, e := frames[0], mech.Encode(frames[0]);
      assert |f| <= max && 0 < |e| < 0x8000_0000;
      HeaderRoundTrip(|e|);
      ghost var tail := Wire(mech, frames[1..]) + rest;
      FrameFirst(mech, frames, rest);
      hide Wire, Header, HeaderValue;
      var ok, buf := BlockRead(4);
      SameParts(buf, input, Header(|e|), e + tail);
      var len := HeaderValue(buf);
      ok, buf := BlockRead(len);
      SameParts(buf, input, e, tail);
      data := mech.Decode(buf);
      index := 0;
      frames := frames[1..];
    }

    /** buffer_read. */
    method BufferRead(len: nat) returns (chunk: seq<byte>)
      requires index <= |data|
      modifies this`index
      ensures index <= |data| && index == old(index) + |chunk|
      ensures |chunk| == (if len < |data| - old(index) then len else |data| - old(index))
      ensures old(Left()) == chunk + Left()
    {
      var n := if len < |data| - index then len else |data| - index;
      chunk := data[index..index + n];
      index := index + n;
    }

    /** Together with what was handed out already, the buffer and the frames hold all of the message. */
    ghost predicate Delivering(out: seq<byte>, all: seq<byte>, behind: seq<seq<byte>>)
      reads this
    {
      Valid() && EndAhead() && out + Available() == all && Behind(frames) == behind
    }

    lemma Delivered(out: seq<byte>, all: seq<byte>, behind: seq<seq<byte>>)
      requires Delivering(out, all, behind)
      ensures Valid() && EndAhead() && out + Available() == all && Behind(frames) == behind
    {
    }

    /** With the buffer empty the message goes on, or ends, with the next frame. */
    lemma FrameNeeded(out: seq<byte>, all: seq<byte>)
      requires index == |data| && EndAhead() && out + Available() == all
      ensures frames[0] == [] ==> out == all && Behind(frames) == frames[1..]
      ensures frames[0] != [] ==>
                && EndFrame(frames[1..]) < |frames[1..]|
                && out + (frames[0] + Message(frames[1..])) == all && Behind(frames) == Behind(frames[1..])
    {
      MessageFirst(frames);
      hide EndFrame, Message, Behind, Left;
      NoneLeft(Left(), Message(frames));
      NoneLeft(out, Message(frames));
    }

    lemma WholeFrame()
      requires index == 0
      ensures Left() == data
    {
    }

    /** What is left of the last frame. */
    method Buffered(want: nat) returns (out: seq<byte>)
      requires Valid() && EndAhead()
      modifies this`index
      ensures Valid() && Delivering(out, old(Available()), old(Behind(frames)))
      ensures |out| <= want && (|out| < want ==> index == |data|)
    {
      hide EndFrame, Message, Behind, Lossless, Carries, Bounded, Left;
      out := BufferRead(want);
      Associate(out, Left(), Message(frames));
    }

    /** One round of sec_read: the next frame, and what is wanted of it. */
    method NextFrame(want: nat, ghost out: seq<byte>, ghost all: seq<byte>, ghost behind: seq<seq<byte>>)
        returns (more: seq<byte>)
      requires Delivering(out, all, behind) && index == |data| && want > 0
      modifies this`input, this`data, this`index, this`frames
      ensures Valid() && |frames| < |old(frames)|
      ensures |data| == 0 ==> out == all && frames == behind && index == |data|
      ensures |data| > 0 ==> 0 < |more| <= want && Delivering(out + more, all, behind)
      ensures |data| > 0 && |more| < want ==> index == |data|
    {
      hide EndFrame, Message, Behind, Lossless, Carries, Bounded, Left;
      FrameNeeded(out, all);
      SecGetData();
      more := [];
      if |data| > 0 {
        WholeFrame();
        ghost var message := Message(frames);
        more := BufferRead(want);
        Handed(out, more, Left(), message, all);
      }
    }

    /** sec_read. */
    method SecRead(length: nat) returns (out: seq<byte>)
      requires Valid() && length > 0 && (eofFlag || EndAhead())
      modifies this`input, this`data, this`index, this`eofFlag, this`frames
      ensures Valid()
      ensures old(eofFlag) ==>
                out == [] && !eofFlag && frames == old(frames) && data == old(data) && index == old(index)
      ensures !old(eofFlag) && length <= |old(Available())| ==>
                && |out| == length && out + Available() == old(Available()) && !eofFlag
                && EndAhead() && Behind(frames) == old(Behind(frames))
      ensures !old(eofFlag) && length > |old(Available())| ==>
                && out == old(Available()) && (eofFlag <==> out != [])
                && frames == old(Behind(frames)) && index == |data|
    {
      if eofFlag {
        eofFlag := false;
        return [];
      }
      hide Available, Delivering, EndFrame, Behind, Valid;
      ghost var all, behind := Available(), Behind(frames);
      out := Buffered(length);
      while |out| < length
        invariant Delivering(out, all, behind) && |out| <= length && !eofFlag
        invariant |out| < length ==> index == |data|
        decreases |frames|
      {
        var more := NextFrame(length - |out|, out, all, behind);
        if |data| == 0 {
          if out != [] {
            eofFlag := true;
          }
          return;
        }
        out := out + more;
      }
      Delivered(out, all, behind);
    }

    /** Read with whatever lengths until a read gives nothing. */
    method ReceiveMessage() returns (text: seq<byte>)
      requires Valid() && !eofFlag && index == |data| && EndAhead()
      modifies this`input, this`data, this`index, this`eofFlag, this`frames
      ensures Valid() && !eofFlag && index == |data|
      ensures text == Message(old(frames)) && frames == Behind(old(frames))
    {
      hide EndFrame, Message, Behind, Lossless, Carries, Bounded, Left;
      ghost var message, behind := Message(frames), Behind(frames);
      NoneLeft(Left(), message);
      text := [];
      while true
        invariant Valid()
        invariant !eofFlag ==> EndAhead() && text + Available() == message && Behind(frames) == behind
        invariant eofFlag ==> text == message && frames == behind && index == |data|
        decreases !eofFlag, |Available()|
      {
        var length :| length > 0 by {
          assert 1 > 0;
        }
        ghost var flag, avail := eofFlag, Available();
        var out := SecRead(length);
        if out == [] {
          assert !flag ==> avail == [];
          return;
        }
        if !flag {
          Associate(text, out, Available());
        }
        text := text + out;
      }
    }
  }

  // ----- whole sessions

  /** Every message followed by its empty frame. */
  function AllFrames(messages: seq<seq<seq<byte>>>): seq<seq<byte>> {
    if messages == [] then [] else messages[0] + ([[]] + AllFrames(messages[1..]))
  }

  lemma {:induction false} AllFramesMore(messages: seq<seq<seq<byte>>>, sent: seq<seq<byte>>)
    ensures AllFrames(messages + [sent]) == AllFrames(messages) + sent + [[]]
    decreases |messages|
  {
    if messages == [] {
      assert messages + [sent] == [sent];
      assert AllFrames([sent]) == sent + ([[]] + AllFrames([]));
      assert [[]] + AllFrames([]) == [[]];
      assert [] + sent == sent;
    } else {
      AllFramesMore(messages[1..], sent);
      assert (messages + [sent])[1..] == messages[1..] + [sent];
      var a, e, r := messages[0], [[]], AllFrames(messages[1..]);
      Associate(r, sent, e);
      Associate(e, r, sent + e);
      Associate(a, e + r, sent + e);
      Associate(a + (e + r), sent, e);
    }
  }

  /** The messages were framed as the data of the writes demands. */
  ghost predicate Framed(sents: seq<seq<seq<byte>>>, messages: seq<seq<seq<byte>>>, max: nat) {
    |sents| == |messages| &&
    forall k :: 0 <= k < |sents| ==> Payloads(sents[k], max) && Flatten(sents[k]) == Flatten(messages[k])
  }

  lemma {:induction false} PiecesBounded(frames: seq<seq<byte>>, more: seq<seq<byte>>, max: nat)
    requires Payloads(more, max) && Bounded(frames, max)
    ensures Bounded(frames + more + [[]], max)
  {
  }

  /** One message: any writes, and the end. */
  method SendMessage(s: Sender, writes: seq<seq<byte>>) returns (ghost sent: seq<seq<byte>>)
    requires s.Valid() && s.outBuffer == []
    modifies s
    ensures s.Valid() && s.outBuffer == [] && s.frames == old(s.frames) + sent + [[]]
    ensures Payloads(sent, s.max) && Flatten(sent) == Flatten(writes)
  {
    hide Lossless, Wire, Payloads, Flatten;
    sent := [];
    NothingSent(s.max);
    assert s.frames == old(s.frames) + sent && writes[..0] == [];
    for k := 0 to |writes|
      invariant s.Valid() && s.outBuffer == [] && s.frames == old(s.frames) + sent
      invariant Payloads(sent, s.max) && Flatten(sent) == Flatten(writes[..k])
    {
      var tx; ghost var more;
      tx, more := s.SecWrite(writes[k]);
      Associate(old(s.frames), sent, more);
      FlattenAppend(sent, more);
      FlattenMore(writes, k);
      PayloadsAppend(sent, more, s.max);
      sent := sent + more;
    }
    assert writes[..|writes|] == writes;
    ghost var none := s.SecFflush();
    NonePayloads(none, s.max);
    assert s.frames == old(s.frames) + sent + [[]];
  }

  lemma FlattenMore(writes: seq<seq<byte>>, k: nat)
    requires k < |writes|
    ensures Flatten(writes[..k + 1]) == Flatten(writes[..k]) + writes[k]
  {
    FlattenAppend(writes[..k], [writes[k]]);
    assert writes[..k] + [writes[k]] == writes[..k + 1];
    assert Flatten([writes[k]]) == writes[k] + Flatten([writes[k]][1..]) == writes[k];
  }

  lemma NonePayloads(frames: seq<seq<byte>>, max: nat)
    requires Payloads(frames, max)
    ensures frames != [] ==> Flatten(frames) != []
  {
    if frames != [] {
      assert Flatten(frames) == frames[0] + Flatten(frames[1..]);
    }
  }

  lemma PayloadsAppend(a: seq<seq<byte>>, b: seq<seq<byte>>, max: nat)
    requires Payloads(a, max) && Payloads(b, max)
    ensures Payloads(a + b, max)
  {
  }

  /**
   Every message, however it is cut into writes, arrives as its bytes in order, however it is
   cut into reads, and its end is seen exactly once.
   */
  method Session(mech: Mechanism, bufferSize: nat, overhead: nat, messages: seq<seq<seq<byte>>>)
      returns (received: seq<seq<byte>>)
    requires overhead < bufferSize && Lossless(mech, bufferSize - overhead)
    ensures |received| == |messages|
    ensures forall k :: 0 <= k < |messages| ==> received[k] == Flatten(messages[k])
  {
    hide Flatten, Lossless, Wire, Payloads, EndFrame, Message, Behind;
    var s := new Sender(mech, bufferSize, overhead);
    ghost var sents := [];
    for k := 0 to |messages|
      invariant s.Valid() && s.outBuffer == [] && s.frames == AllFrames(sents)
      invariant Framed(sents, messages[..k], s.max)
      invariant Bounded(s.frames, s.max)
    {
      ghost var sent := SendMessage(s, messages[k]);
      PiecesBounded(AllFrames(sents), sent, s.max);
      AllFramesMore(sents, sent);
      sents := sents + [sent];
    }
    assert s.wire == Wire(mech, s.frames) + [];
    var r := new Receiver(mech, bufferSize - overhead, s.wire, s.frames, []);
    assert messages[..|messages|] == messages && sents[0..] == sents;
    received := [];
    while |received| < |messages|
      invariant |received| <= |messages|
      invariant r.Valid() && !r.eofFlag && r.index == |r.data| && r.frames == AllFrames(sents[|received|..])
      invariant forall j :: 0 <= j < |received| ==> received[j] == Flatten(messages[j])
    {
      ghost var k := |received|;
      assert Payloads(sents[k], s.max) && sents[k..][0] == sents[k] && sents[k..][1..] == sents[k + 1..];
      MessageOfSent(sents[k], AllFrames(sents[k + 1..]), s.max);
      var text := r.ReceiveMessage();
      received := received + [text];
    }
  }
}
