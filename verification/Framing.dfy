/** Length-prefixed messages over a byte stream: `Utils::sendData` and `Utils::receiveData` of
    `secure_transfer.cpp`, with a socket that may split every transfer as it likes. */
module Framing {
  import opened Common

  const MAX_FRAME := 10485760
  const U32_MODULUS := 0x1_0000_0000

  /** A `uint32_t` in the byte order of the machine, least significant byte first. */
  function LengthBytes(n: nat): seq<byte>
    requires n < U32_MODULUS
  {
    [n % 256, n / 256 % 256, n / 65536 % 256, n / 16777216]
  }

  function ReadLength(b: seq<byte>): nat
    requires |b| == 4
  {
    (b[0] as int) + 256 * (b[1] as int) + 65536 * (b[2] as int) + 16777216 * (b[3] as int)
  }

  lemma LengthRoundTrip(n: nat)
    requires n < U32_MODULUS
    ensures ReadLength(LengthBytes(n)) == n
  {
    var n1 := n / 256;
    var n2 := n1 / 256;
    assert n2 == n / 65536 && n2 / 256 == n / 16777216;
  }

  /** The bytes of a length, the least significant first, and what four bytes announce. */
  lemma LengthDigits(n: nat, b: seq<byte>)
    requires n < U32_MODULUS && |b| == 4
    ensures LengthBytes(n)[0] == n % 256
    ensures LengthBytes(n)[1] == n / 256 % 256
    ensures LengthBytes(n)[2] == n / (256 * 256) % 256
    ensures LengthBytes(n)[3] == n / (256 * 256 * 256) % 256
    ensures ReadLength(b) == b[0] + 256 * (b[1] + 256 * (b[2] + 256 * (b[3] as int)))
  {
  }

  /** The length as a 32-bit number, truncated if need be. */
  function Announced(data: seq<byte>): (n: nat)
    ensures n <= |data| && n < U32_MODULUS
    ensures n == |data| <==> |data| < U32_MODULUS
  {
    |data| % U32_MODULUS
  }

  /** What `sendData` puts on the wire. */
  function Frame(data: seq<byte>): seq<byte> {
    LengthBytes(Announced(data)) + data
  }

  datatype Outcome =
    | Data(data: seq<byte>)
    | NoLength      // the stream ended inside the length
    | TooLarge      // the announced length is over the limit
    | Truncated     // the stream ended inside the data

  /** The message at the front of a stream, and the stream after it. */
  function Unframe(stream: seq<byte>): (Outcome, seq<byte>) {
    if |stream| < 4 then (NoLength, stream)
    else
      var n := ReadLength(stream[..4]);
      if n > MAX_FRAME then (TooLarge, stream[4..])
      else if |stream| < 4 + n then (Truncated, [])
      else (Data(stream[4..4 + n]), stream[4 + n..])
  }

  /** What a receiver makes of a framed message of any length: the announced length is the true one
      modulo 2^32, and that much is refused or taken. */
  lemma UnframeFrame(data: seq<byte>, rest: seq<byte>)
    ensures var n := Announced(data);
            Unframe(Frame(data) + rest) ==
            if n > MAX_FRAME then (TooLarge, data + rest) else (Data(data[..n]), data[n..] + rest)
  {
    hide LengthBytes, ReadLength;
    var n := Announced(data);
    var stream := Frame(data) + rest;
    LengthRoundTrip(n);
    assert |LengthBytes(n)| == 4 by { LengthSize(n); }
    assert stream[..4] == LengthBytes(n) && stream[4..] == data + rest;
    if n <= MAX_FRAME {
      assert stream[4..4 + n] == data[..n] && stream[4 + n..] == data[n..] + rest;
    }
  }

  lemma LengthSize(n: nat)
    requires n < U32_MODULUS
    ensures |LengthBytes(n)| == 4
  {
  }

  /** A message comes off the stream as it was framed exactly when it is not over 10 MiB. */
  lemma FrameRoundTrip(data: seq<byte>, rest: seq<byte>)
    ensures Unframe(Frame(data) + rest) == (Data(data), rest) <==> |data| <= 10 * 1024 * 1024
    ensures MAX_FRAME < |data| < U32_MODULUS ==> Unframe(Frame(data) + rest) == (TooLarge, data + rest)
  {
    hide Unframe, Frame, Announced;
    UnframeFrame(data, rest);
    if |data| <= MAX_FRAME {
      assert data[..|data|] == data && data[|data|..] + rest == rest;
    }
  }

  /** An oversized message is noticed exactly when its length modulo 2^32 is over the limit. If not,
      a shorter message is received, and what is left of the data is read as the next frames. */
  lemma OversizeWrapsAround(data: seq<byte>, rest: seq<byte>)
    requires |data| > MAX_FRAME
    ensures var n := Announced(data);
            && (Unframe(Frame(data) + rest).0 == TooLarge <==> n > MAX_FRAME)
            && (n <= MAX_FRAME ==> n < |data| && Unframe(Frame(data) + rest) == (Data(data[..n]), data[n..] + rest))
  {
    hide Unframe, Frame, Announced;
    UnframeFrame(data, rest);
  }

  /** How many bytes `receiveData` still asks for. */
  function Need(got: seq<byte>): nat {
    if |got| < 4 then 4 - |got|
    else
      var n := ReadLength(got[..4]);
      if n > MAX_FRAME || |got| >= 4 + n then 0 else 4 + n - |got|
  }

  /** What `receiveData` returns once it asks for no more: the data, or none for an oversized length. */
  function Complete(got: seq<byte>): Option<seq<byte>>
    requires Need(got) == 0
  {
    if ReadLength(got[..4]) > MAX_FRAME then None else Some(got[4..])
  }

  /** What `receiveData` makes of the bytes it has taken. */
  predicate TakenAs(got: seq<byte>, r: Outcome) {
    match r
    case Data(data) => Need(got) == 0 && Complete(got) == Some(data)
    case TooLarge => Need(got) == 0 && Complete(got) == None
    case _ => Need(got) != 0
  }

  function FrameAll(messages: seq<seq<byte>>): seq<byte> {
    if messages == [] then [] else Frame(messages[0]) + FrameAll(messages[1..])
  }

  /** One transfer of bytes over a socket. */
  datatype Io = Out(bytes: seq<byte>) | In(bytes: seq<byte>)

  /** What is left of `left` when a row of sends has put its front on the wire, piece by piece. */
  function Sends(left: seq<byte>, io: seq<Io>): Option<seq<byte>> {
    if io == [] then Some(left)
    else
      var last := io[|io| - 1];
      match Sends(left, io[..|io| - 1])
      case None => None
      case Some(l) =>
        if last.Out? && 0 < |last.bytes| <= |l| && last.bytes == l[..|last.bytes|]
        then Some(l[|last.bytes|..]) else None
  }

  /** What a row of receives adds to `got`, none of them asking for more than the message needs. */
  function Receives(got: seq<byte>, io: seq<Io>): Option<seq<byte>> {
    if io == [] then Some(got)
    else
      var last := io[|io| - 1];
      match Receives(got, io[..|io| - 1])
      case None => None
      case Some(g) => if last.In? && 0 < |last.bytes| <= Need(g) then Some(g + last.bytes) else None
  }

  lemma NothingSent(left: seq<byte>)
    ensures Sends(left, []) == Some(left)
  {
  }

  lemma NothingReceived()
    ensures Receives([], []) == Some([])
  {
  }

  lemma SendsSnoc(left: seq<byte>, io: seq<Io>, l: seq<byte>, b: seq<byte>)
    requires Sends(left, io) == Some(l) && 0 < |b| <= |l| && b == l[..|b|]
    ensures Sends(left, io + [Out(b)]) == Some(l[|b|..])
  {
    assert (io + [Out(b)])[..|io|] == io;
  }

  lemma ReceivesSnoc(got: seq<byte>, io: seq<Io>, g: seq<byte>, b: seq<byte>)
    requires Receives(got, io) == Some(g) && 0 < |b| <= Need(g)
    ensures Receives(got, io + [In(b)]) == Some(g + b)
  {
    hide Need;
    assert (io + [In(b)])[..|io|] == io;
  }

  /** A stream socket. `reliable` sockets never fail while there is something to transfer; every
      call may still move any positive number of bytes up to what was asked for. */
  class Socket {
    const reliable: bool
    var outgoing: seq<byte>   // bytes handed to the network
    var incoming: seq<byte>   // bytes still to arrive before the peer closes
    ghost var trace: seq<Io>  // every transfer, in order

    constructor (reliable: bool, incoming: seq<byte>)
      ensures this.reliable == reliable && this.incoming == incoming && outgoing == [] && trace == []
    {
      this.reliable, this.incoming, outgoing, trace := reliable, incoming, [], [];
    }

    method Send(data: seq<byte>) returns (n: int)
      modifies this`outgoing, this`trace
      ensures n <= |data|
      ensures outgoing == old(outgoing) + if n <= 0 then [] else data[..n]
      ensures trace == old(trace) + if n <= 0 then [] else [Out(data[..n])]
      ensures reliable && data != [] ==> n > 0
    {
      n := *;
      if n > |data| { n := |data|; }
      if reliable && data != [] && n <= 0 { n := 1; }
      if n > 0 { outgoing, trace := outgoing + data[..n], trace + [Out(data[..n])]; }
    }

    method Recv(want: nat) returns (n: int, chunk: seq<byte>)
      modifies this`incoming, this`trace
      ensures n <= want && n <= |old(incoming)|
      ensures n <= 0 ==> chunk == [] && incoming == old(incoming) && trace == old(trace)
      ensures n > 0 ==>
                chunk == old(incoming)[..n] && incoming == old(incoming)[n..] && trace == old(trace) + [In(chunk)]
      ensures reliable && want > 0 && old(incoming) != [] ==> n > 0
    {
      n := *;
      if n > want { n := want; }
      if n > |incoming| { n := |incoming|; }
      if reliable && want > 0 && incoming != [] && n <= 0 { n := 1; }
      chunk := [];
      if n > 0 { chunk, incoming, trace := incoming[..n], incoming[n..], trace + [In(incoming[..n])]; }
    }

    /** `recv` with `MSG_WAITALL`: all that was asked for, unless the stream ends or fails first. */
    method RecvAll(want: nat) returns (n: int, chunk: seq<byte>)
      modifies this`incoming, this`trace
      ensures n <= want && n <= |old(incoming)|
      ensures n <= 0 ==> incoming == old(incoming) && trace == old(trace)
      ensures n > 0 ==>
                chunk == old(incoming)[..n] && incoming == old(incoming)[n..] && trace == old(trace) + [In(chunk)]
      ensures reliable ==> n == if want <= |old(incoming)| then want else |old(incoming)|
    {
      n := *;
      if n > want || reliable { n := want; }
      if n > |incoming| { n := |incoming|; }
      chunk := [];
      if n > 0 { chunk, incoming, trace := incoming[..n], incoming[n..], trace + [In(incoming[..n])]; }
    }
  }

  /** However the socket splits the data, a successful call has put exactly one frame on the wire
      and a failed one a proper part of it. `first` is what the send of the length returned: on a
      reliable socket the call succeeds exactly when the length was not split, which the code does
      not allow for. */
  method SendData(socket: Socket, data: seq<byte>) returns (ok: bool, ghost first: int, ghost io: seq<Io>)
    modifies socket`outgoing, socket`trace
    ensures ok ==> socket.outgoing == old(socket.outgoing) + Frame(data)
    ensures !ok ==> exists k :: 0 <= k < |Frame(data)| && socket.outgoing == old(socket.outgoing) + Frame(data)[..k]
    ensures first != 4 ==>
              && first < 4 && !ok
              && socket.outgoing == old(socket.outgoing) + Frame(data)[..if first < 0 then 0 else first]
    ensures socket.reliable ==> 0 < first && (ok <==> first == 4)
    ensures socket.trace == old(socket.trace) + io
    ensures Sends(Frame(data), io).Some? && (ok <==> Sends(Frame(data), io) == Some([]))
  {
    hide Sends, LengthBytes;
    ghost var start := socket.outgoing;
    io := [];
    NothingSent(Frame(data));
    LengthSize(Announced(data));
    var header := LengthBytes(Announced(data));
    var n := socket.Send(header);
    first := n;
    if n > 0 {
      SendsSnoc(Frame(data), io, Frame(data), header[..n]);
      io := io + [Out(header[..n])];
    }
    if n != 4 {
      ghost var k := if n <= 0 then 0 else n;
      assert socket.outgoing == start + Frame(data)[..k];
      assert |Frame(data)[k..]| > 0;
      ok := false;
      return;
    }
    assert header[..4] == header && Frame(data)[4..] == data[0..];
    var sent := 0;
    while sent < |data|
      invariant 0 <= sent <= |data|
      invariant socket.outgoing == start + header + data[..sent]
      invariant socket.trace == old(socket.trace) + io && Sends(Frame(data), io) == Some(data[sent..])
      decreases |data| - sent
    {
      n := socket.Send(data[sent..]);
      if n <= 0 {
        assert socket.outgoing == start + Frame(data)[..4 + sent];
        ok := false;
        return;
      }
      assert data[..sent] + data[sent..][..n] == data[..sent + n];
      SendsSnoc(Frame(data), io, data[sent..], data[sent..][..n]);
      assert data[sent..][n..] == data[sent + n..];
      io := io + [Out(data[sent..][..n])];
      sent := sent + n;
    }
    assert data[..|data|] == data && data[|data|..] == [];
    ok := true;
  }

  lemma SliceGrows(stream: seq<byte>, received: nat, n: nat)
    requires 4 + received + n <= |stream|
    ensures stream[4..4 + received] + stream[4 + received..][..n] == stream[4..4 + received + n]
    ensures stream[4 + received..][n..] == stream[4 + received + n..]
    ensures stream[..4 + received] + stream[4 + received..][..n] == stream[..4 + received + n]
  {
  }

  /** However the socket splits the data, what is returned is the message at the front of the
      stream, and exactly its bytes have been taken. On a reliable socket the call computes
      `Unframe`, errors included. `got` is what was taken, never more than the message needs. */
  method ReceiveData(socket: Socket) returns (r: Outcome, ghost got: seq<byte>, ghost io: seq<Io>)
    modifies socket`incoming, socket`trace
    ensures r.Data? ==> (r, socket.incoming) == Unframe(old(socket.incoming))
    ensures r.Data? ==> |r.data| <= MAX_FRAME
    ensures socket.reliable ==> r == Unframe(old(socket.incoming)).0
    ensures socket.trace == old(socket.trace) + io && Receives([], io) == Some(got)
    ensures got + socket.incoming == old(socket.incoming)
    ensures TakenAs(got, r)
  {
    hide Receives, ReadLength, Need, Complete, Unframe, TakenAs;
    ghost var stream := socket.incoming;
    var n, header := socket.RecvAll(4);
    got, io := [], [];
    NothingReceived();
    ShortStream(stream);
    if n > 0 {
      ReceivesSnoc([], io, got, header);
      got, io := got + header, io + [In(header)];
      assert got == header;
    }
    if n != 4 {
      ShortStream(got);
      r := NoLength;
      return;
    }
    assert header == stream[..4] == got[..4];
    var len := ReadLength(header);
    AnnouncedBy(stream, len);
    AnnouncedBy(got, len);
    if len > MAX_FRAME {
      r := TooLarge;
      return;
    }
    var data := new byte[len](_ => 0);
    var received := 0;
    while received < len
      invariant 0 <= received <= len && 4 + received <= |stream|
      invariant socket.incoming == stream[4 + received..]
      invariant data[..received] == stream[4..4 + received]
      invariant socket.trace == old(socket.trace) + io && Receives([], io) == Some(got) && got == stream[..4 + received]
      decreases len - received
    {
      var chunk;
      assert got[..4] == header;
      AnnouncedBy(got, len);
      n, chunk := socket.Recv(len - received);
      if n <= 0 {
        assert socket.reliable ==> |stream| == 4 + received;
        r := Truncated;
        return;
      }
      ReceivesSnoc([], io, got, chunk);
      got, io := got + chunk, io + [In(chunk)];
      Store(data, received, chunk);
      SliceGrows(stream, received, n);
      received := received + n;
    }
    assert data[..len] == data[..] && got[..4] == header && got[4..] == data[..];
    AnnouncedBy(got, len);
    r := Data(data[..]);
  }

  /** The buffer from `at` on receives a chunk. */
  method Store(data: array<byte>, at: nat, chunk: seq<byte>)
    requires at + |chunk| <= data.Length
    modifies data
    ensures data[..at + |chunk|] == old(data[..at]) + chunk
  {
    ghost var before := data[..at];
    forall k | 0 <= k < |chunk| { data[at + k] := chunk[k]; }
    assert data[..at + |chunk|] == before + chunk;
  }

  /** A stream too short for a length. */
  lemma ShortStream(stream: seq<byte>)
    ensures |stream| < 4 ==> Need(stream) == 4 - |stream| && Unframe(stream) == (NoLength, stream)
    ensures |stream| < 4 ==> TakenAs(stream, NoLength)
    ensures Need([]) == 4
  {
  }

  /** What a stream, or a part of one, that starts with the length `len` is read as. */
  lemma AnnouncedBy(stream: seq<byte>, len: nat)
    requires |stream| >= 4 && len == ReadLength(stream[..4])
    ensures Need(stream) == if len > MAX_FRAME || |stream| >= 4 + len then 0 else 4 + len - |stream|
    ensures len > MAX_FRAME ==> TakenAs(stream, TooLarge)
    ensures len <= MAX_FRAME && |stream| < 4 + len ==> TakenAs(stream, Truncated)
    ensures len <= MAX_FRAME && |stream| == 4 + len ==> TakenAs(stream, Data(stream[4..]))
    ensures Unframe(stream) ==
            if len > MAX_FRAME then (TooLarge, stream[4..])
            else if |stream| < 4 + len then (Truncated, [])
            else (Data(stream[4..4 + len]), stream[4 + len..])
  {
  }

  /** Repeated receives return the messages that were framed, in order, and stop at the byte where
      the last of them ends. */
  method ReceiveAll(socket: Socket, ghost messages: seq<seq<byte>>, count: nat, ghost rest: seq<byte>)
    returns (received: seq<seq<byte>>)
    requires socket.reliable && count == |messages|
    requires forall i :: 0 <= i < |messages| ==> |messages[i]| <= MAX_FRAME
    requires socket.incoming == FrameAll(messages) + rest
    modifies socket`incoming, socket`trace
    ensures received == messages && socket.incoming == rest
  {
    received := [];
    for i := 0 to count
      invariant received == messages[..i]
      invariant socket.incoming == FrameAll(messages[i..]) + rest
    {
      assert FrameAll(messages[i..]) + rest == Frame(messages[i]) + (FrameAll(messages[i + 1..]) + rest) by {
        assert messages[i..][0] == messages[i] && messages[i..][1..] == messages[i + 1..];
      }
      FrameRoundTrip(messages[i], FrameAll(messages[i + 1..]) + rest);
      var r, got, io := ReceiveData(socket);
      received := received + [r.data];
    }
    assert FrameAll(messages[count..]) + rest == rest;
  }

  lemma {:induction false} FrameAllSplit(messages: seq<seq<byte>>, i: nat)
    requires i < |messages|
    ensures FrameAll(messages) == FrameAll(messages[..i]) + (Frame(messages[i]) + FrameAll(messages[i + 1..]))
    ensures FrameAll(messages[..i]) + Frame(messages[i]) == FrameAll(messages[..i + 1])
  {
    hide Frame;
    if i == 0 {
      assert messages[..1] == [messages[0]] && messages[..1][1..] == [];
      assert FrameAll(messages[..1]) == Frame(messages[0]) + [];
    } else {
      var tail := messages[1..];
      FrameAllSplit(tail, i - 1);
      assert messages[..i][1..] == tail[..i - 1] && messages[..i + 1][1..] == tail[..i];
      assert tail[i - 1] == messages[i] && tail[i..] == messages[i + 1..];
    }
  }

  /** Sending messages one after the other. Success puts their frames on the wire, failure a proper
      part of them; `firsts` are what the sends of the lengths returned, and a reliable socket
      succeeds exactly when none was split. */
  method SendAll(socket: Socket, messages: seq<seq<byte>>) returns (ok: bool, ghost firsts: seq<int>)
    modifies socket`outgoing, socket`trace
    ensures ok ==> socket.outgoing == old(socket.outgoing) + FrameAll(messages)
    ensures !ok ==> exists k :: 0 <= k < |FrameAll(messages)| &&
                                socket.outgoing == old(socket.outgoing) + FrameAll(messages)[..k]
    ensures |firsts| <= |messages| && (ok ==> |firsts| == |messages|)
    ensures socket.reliable ==> (ok <==> forall f :: f in firsts ==> f == 4)
  {
    hide Frame, FrameAll;
    ghost var start := socket.outgoing;
    firsts := [];
    FrameNone();
    assert messages[..0] == [] && start + [] == start;
    for i := 0 to |messages|
      invariant socket.outgoing == start + FrameAll(messages[..i])
      invariant |firsts| == i && forall f :: f in firsts ==> f == 4
    {
      ghost var before := socket.outgoing;
      var sent, first, io := SendData(socket, messages[i]);
      firsts := firsts + [first];
      if !sent {
        assert first in firsts;
        ghost var k :| 0 <= k < |Frame(messages[i])| && socket.outgoing == before + Frame(messages[i])[..k];
        PartSent(start, messages, i, k);
        ok := false;
        return;
      }
      FrameAllSplit(messages, i);
      assert start + FrameAll(messages[..i]) + Frame(messages[i]) ==
             start + (FrameAll(messages[..i]) + Frame(messages[i]));
    }
    assert messages[..|messages|] == messages;
    ok := true;
  }

  lemma FrameNone()
    ensures FrameAll([]) == []
  {
  }

  /** A part of one frame after the frames before it is a part of all the frames. */
  lemma PartSent(start: seq<byte>, messages: seq<seq<byte>>, i: nat, k: nat)
    requires i < |messages| && k < |Frame(messages[i])|
    ensures exists n :: 0 <= n < |FrameAll(messages)| &&
                        start + FrameAll(messages[..i]) + Frame(messages[i])[..k] == start + FrameAll(messages)[..n]
  {
    hide Frame, FrameAll;
    FrameAllSplit(messages, i);
    var front, frame, tail := FrameAll(messages[..i]), Frame(messages[i]), FrameAll(messages[i + 1..]);
    var n := |front| + k;
    assert (front + (frame + tail))[..n] == front + frame[..k];
    assert start + front + frame[..k] == start + FrameAll(messages)[..n];
  }

  /** End to end, over every splitting of the sends and of the receives: what was sent is what is
      received, in order and whole, exactly when no length was split on sending. */
  method SendThenReceive(messages: seq<seq<byte>>) returns (received: Option<seq<seq<byte>>>, ghost firsts: seq<int>)
    requires forall i :: 0 <= i < |messages| ==> |messages[i]| <= MAX_FRAME
    ensures received == None || received == Some(messages)
    ensures received.Some? <==> forall f :: f in firsts ==> f == 4
  {
    var sender := new Socket(true, []);
    var ok;
    ok, firsts := SendAll(sender, messages);
    if !ok { return None, firsts; }
    var receiver := new Socket(true, sender.outgoing);
    assert sender.outgoing == FrameAll(messages) + [];
    var all := ReceiveAll(receiver, messages, |messages|, []);
    received := Some(all);
  }
}
