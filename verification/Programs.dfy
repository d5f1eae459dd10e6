/** The two parties of the session as programs over a socket, and what joins them to the state machine
    of the session: the transfers either program makes, in the order it makes them, are those of its
    party in the state machine, and the other way round. */
module SessionPrograms {
  import opened Common
  import opened Framing
  import opened Session

  // ---------------------------------------------------------------- one party and its transfers

  /** One transfer of the receiver: a piece of what it has to send, or of what it needs. */
  function ReceiverIo(r: Receiver, io: Io): Option<Receiver> {
    match io
    case Out(b) =>
      if r.SendingKey? && 0 < |b| <= |r.left| && b == r.left[..|b|] then Some(SendingKey(r.left[|b|..])) else None
    case In(b) =>
      if r.AwaitingKey? && 0 < |b| <= Need(r.got) then Some(AwaitingKey(r.got + b))
      else if r.AwaitingData? && 0 < |b| <= Need(r.got) then Some(AwaitingData(r.key, r.got + b))
      else None
  }

  function ReceiverRank(r: Receiver): nat {
    if r.SendingKey? then 3 else if r.AwaitingKey? then 2 else if r.AwaitingData? then 1 else 0
  }

  /** The receiver goes on until it has to send or receive, or has ended. */
  function ReceiverRests(x: Suite, secret: seq<byte>, r: Receiver): Receiver
    decreases ReceiverRank(r)
  {
    match ReceiverNext(x, secret, r)
    case None => r
    case Some(r') => ReceiverRests(x, secret, r')
  }

  /** Where a row of transfers brings the receiver, if it is one that the receiver makes. */
  function ReceiverAfter(x: Suite, secret: seq<byte>, r: Receiver, io: seq<Io>): Option<Receiver> {
    if io == [] then Some(ReceiverRests(x, secret, r))
    else
      match ReceiverAfter(x, secret, r, io[..|io| - 1])
      case None => None
      case Some(mid) =>
        match ReceiverIo(mid, io[|io| - 1])
        case None => None
        case Some(r') => Some(ReceiverRests(x, secret, r'))
  }

  function SenderIo(s: Sender, io: Io): Option<Sender> {
    match io
    case In(b) => if s.WaitingKey? && 0 < |b| <= Need(s.got) then Some(WaitingKey(s.got + b)) else None
    case Out(b) =>
      if s.ReturningKey? && 0 < |b| <= |s.left| && b == s.left[..|b|] then Some(ReturningKey(s.peerPem, s.left[|b|..]))
      else if s.SendingData? && 0 < |b| <= |s.left| && b == s.left[..|b|] then Some(SendingData(s.key, s.left[|b|..]))
      else None
  }

  function SenderRank(s: Sender): nat {
    if s.WaitingKey? then 3 else if s.ReturningKey? then 2 else if s.SendingData? then 1 else 0
  }

  function SenderRests(x: Suite, secret: seq<byte>, iv: seq<byte>, message: seq<byte>, s: Sender): Sender
    decreases SenderRank(s)
  {
    match SenderNext(x, secret, iv, message, s)
    case None => s
    case Some(s') => SenderRests(x, secret, iv, message, s')
  }

  function SenderAfter(x: Suite, secret: seq<byte>, iv: seq<byte>, message: seq<byte>, s: Sender, io: seq<Io>)
    : Option<Sender>
  {
    if io == [] then Some(SenderRests(x, secret, iv, message, s))
    else
      match SenderAfter(x, secret, iv, message, s, io[..|io| - 1])
      case None => None
      case Some(mid) =>
        match SenderIo(mid, io[|io| - 1])
        case None => None
        case Some(s') => Some(SenderRests(x, secret, iv, message, s'))
  }

  // ---------------------------------------------------------------- transfers and moves

  /** A transfer that a party can make is a move of the session, given room or bytes in its stream. */
  lemma TransferIsMove(p: Setup, st: State, b: seq<byte>)
    ensures ReceiverIo(st.receiver, Out(b)).Some? && |st.toSender| + |b| <= p.capacity ==>
              Step(p, st, ReceiverSends(|b|)) ==
              Some(st.(receiver := ReceiverIo(st.receiver, Out(b)).value, toSender := st.toSender + b))
    ensures ReceiverIo(st.receiver, In(b)).Some? && b <= st.toReceiver ==>
              Step(p, st, ReceiverReads(|b|)) ==
              Some(st.(receiver := ReceiverIo(st.receiver, In(b)).value, toReceiver := st.toReceiver[|b|..]))
    ensures SenderIo(st.sender, Out(b)).Some? && |st.toReceiver| + |b| <= p.capacity ==>
              Step(p, st, SenderSends(|b|)) ==
              Some(st.(sender := SenderIo(st.sender, Out(b)).value, toReceiver := st.toReceiver + b))
    ensures SenderIo(st.sender, In(b)).Some? && b <= st.toSender ==>
              Step(p, st, SenderReads(|b|)) ==
              Some(st.(sender := SenderIo(st.sender, In(b)).value, toSender := st.toSender[|b|..]))
  {
    hide Need, ReceiverNext, SenderNext, LengthSplit;
    if b <= st.toReceiver {
      assert st.toReceiver[..|b|] == b;
    }
    if b <= st.toSender {
      assert st.toSender[..|b|] == b;
    }
  }

  /** The transfer a move makes, by the receiver or by the sender. */
  function ReceiverTransfer(st: State, move: Move): seq<Io> {
    match move
    case ReceiverSends(n) =>
      if st.receiver.SendingKey? && n <= |st.receiver.left| then [Out(st.receiver.left[..n])] else []
    case ReceiverReads(n) => if n <= |st.toReceiver| then [In(st.toReceiver[..n])] else []
    case _ => []
  }

  function SenderTransfer(st: State, move: Move): seq<Io> {
    match move
    case SenderSends(n) =>
      if (st.sender.ReturningKey? || st.sender.SendingData?) && n <= |st.sender.left|
      then [Out(st.sender.left[..n])] else []
    case SenderReads(n) => if n <= |st.toSender| then [In(st.toSender[..n])] else []
    case _ => []
  }

  /** The transfers of a run, in order. */
  function ReceiverTrace(p: Setup, moves: seq<Move>): seq<Io> {
    if moves == [] || Run(p, moves[..|moves| - 1]).None? then []
    else
      var n := |moves| - 1;
      ReceiverTrace(p, moves[..n]) + ReceiverTransfer(Run(p, moves[..n]).value, moves[n])
  }

  function SenderTrace(p: Setup, moves: seq<Move>): seq<Io> {
    if moves == [] || Run(p, moves[..|moves| - 1]).None? then []
    else
      var n := |moves| - 1;
      SenderTrace(p, moves[..n]) + SenderTransfer(Run(p, moves[..n]).value, moves[n])
  }

  predicate Stops(move: Move) {
    GivesUp(move) || move.ReceiverCutOff? || move.SenderCutOff?
  }

  lemma RestingStays(x: Suite, secret: seq<byte>, r: Receiver, io: Io)
    requires ReceiverIo(r, io).Some?
    ensures ReceiverRests(x, secret, r) == r
  {
    hide Need, Complete, Decrypt, DeriveKey;
  }

  lemma SenderRestingStays(x: Suite, secret: seq<byte>, iv: seq<byte>, message: seq<byte>, s: Sender, io: Io)
    requires SenderIo(s, io).Some?
    ensures SenderRests(x, secret, iv, message, s) == s
  {
    hide Need, Complete, Encrypt, DeriveKey, Frame;
  }

  lemma MoveIsTransfer(p: Setup, st: State, move: Move)
    requires Step(p, st, move).Some? && !Stops(move)
    ensures var st', io := Step(p, st, move).value, ReceiverTransfer(st, move);
            var x, secret := p.suite, p.receiverSecret;
            if io == [] then ReceiverRests(x, secret, st'.receiver) == ReceiverRests(x, secret, st.receiver)
            else |io| == 1 && ReceiverIo(st.receiver, io[0]) == Some(st'.receiver)
  {
    hide Need, Complete, Decrypt, DeriveKey, SenderNext, LengthSplit;
  }

  lemma MoveIsSenderTransfer(p: Setup, st: State, move: Move)
    requires Step(p, st, move).Some? && !Stops(move)
    ensures var st', io := Step(p, st, move).value, SenderTransfer(st, move);
            var x, secret := p.suite, p.senderSecret;
            if io == [] then
              SenderRests(x, secret, p.iv, p.message, st'.sender) == SenderRests(x, secret, p.iv, p.message, st.sender)
            else |io| == 1 && SenderIo(st.sender, io[0]) == Some(st'.sender)
  {
    hide Need, Complete, Encrypt, DeriveKey, Frame, ReceiverNext, LengthSplit;
  }

  /** Every run of the session in which no party was stopped is, seen from either party, a row of
      transfers that the party makes, and brings it where the session is. */
  lemma {:induction false} RunIsTransfers(p: Setup, moves: seq<Move>)
    requires Run(p, moves).Some? && forall k :: 0 <= k < |moves| ==> !Stops(moves[k])
    ensures var st, start := Run(p, moves).value, Initial(p);
            && ReceiverAfter(p.suite, p.receiverSecret, start.receiver, ReceiverTrace(p, moves)) ==
               Some(ReceiverRests(p.suite, p.receiverSecret, st.receiver))
            && SenderAfter(p.suite, p.senderSecret, p.iv, p.message, start.sender, SenderTrace(p, moves)) ==
               Some(SenderRests(p.suite, p.senderSecret, p.iv, p.message, st.sender))
  {
    hide Step, ReceiverRests, SenderRests, ReceiverTransfer, SenderTransfer, ReceiverIo, SenderIo, Initial;
    if moves != [] {
      var n := |moves| - 1;
      var st := Run(p, moves[..n]).value;
      RunIsTransfers(p, moves[..n]);
      MoveIsTransfer(p, st, moves[n]);
      MoveIsSenderTransfer(p, st, moves[n]);
      ReceiverMore(p, st.receiver, ReceiverTrace(p, moves[..n]), ReceiverTransfer(st, moves[n]));
      SenderMore(p, st.sender, SenderTrace(p, moves[..n]), SenderTransfer(st, moves[n]));
    }
  }

  lemma ReceiverMore(p: Setup, r: Receiver, io: seq<Io>, more: seq<Io>)
    requires |more| <= 1
    requires ReceiverAfter(p.suite, p.receiverSecret, Initial(p).receiver, io) ==
             Some(ReceiverRests(p.suite, p.receiverSecret, r))
    requires more != [] ==> ReceiverIo(r, more[0]).Some?
    ensures ReceiverAfter(p.suite, p.receiverSecret, Initial(p).receiver, io + more) ==
            Some(ReceiverRests(p.suite, p.receiverSecret, if more == [] then r else ReceiverIo(r, more[0]).value))
  {
    hide ReceiverIo, ReceiverRests, Initial;
    if more == [] {
      assert io + more == io;
    } else {
      RestingStays(p.suite, p.receiverSecret, r, more[0]);
      assert (io + more)[..|io|] == io && (io + more)[|io|] == more[0];
    }
  }

  lemma SenderMore(p: Setup, s: Sender, io: seq<Io>, more: seq<Io>)
    requires |more| <= 1
    requires SenderAfter(p.suite, p.senderSecret, p.iv, p.message, Initial(p).sender, io) ==
             Some(SenderRests(p.suite, p.senderSecret, p.iv, p.message, s))
    requires more != [] ==> SenderIo(s, more[0]).Some?
    ensures SenderAfter(p.suite, p.senderSecret, p.iv, p.message, Initial(p).sender, io + more) ==
            Some(SenderRests(p.suite, p.senderSecret, p.iv, p.message,
                             if more == [] then s else SenderIo(s, more[0]).value))
  {
    hide SenderIo, SenderRests, Initial;
    if more == [] {
      assert io + more == io;
    } else {
      SenderRestingStays(p.suite, p.senderSecret, p.iv, p.message, s, more[0]);
      assert (io + more)[..|io|] == io && (io + more)[|io|] == more[0];
    }
  }

  // ---------------------------------------------------------------- rows of sends and of receives

  lemma {:induction false} RestsTwice(x: Suite, secret: seq<byte>, r: Receiver)
    ensures ReceiverRests(x, secret, ReceiverRests(x, secret, r)) == ReceiverRests(x, secret, r)
    decreases ReceiverRank(r)
  {
    hide Need, Complete, Decrypt, DeriveKey;
    if ReceiverNext(x, secret, r).Some? {
      RestsTwice(x, secret, ReceiverNext(x, secret, r).value);
    }
  }

  lemma {:induction false} AfterJoin(x: Suite, secret: seq<byte>, r: Receiver, a: seq<Io>, b: seq<Io>)
    requires ReceiverAfter(x, secret, r, a).Some?
    ensures ReceiverAfter(x, secret, r, a + b) == ReceiverAfter(x, secret, ReceiverAfter(x, secret, r, a).value, b)
    decreases |b|
  {
    hide ReceiverIo, ReceiverRests;
    if b == [] {
      assert a + b == a;
      AfterRests(x, secret, r, a);
    } else {
      var n := |b| - 1;
      assert (a + b)[..|a + b| - 1] == a + b[..n];
      AfterJoin(x, secret, r, a, b[..n]);
    }
  }

  lemma AfterRests(x: Suite, secret: seq<byte>, r: Receiver, io: seq<Io>)
    requires ReceiverAfter(x, secret, r, io).Some?
    ensures var r' := ReceiverAfter(x, secret, r, io).value; ReceiverRests(x, secret, r') == r'
  {
    hide ReceiverIo, ReceiverRests;
    if io == [] {
      RestsTwice(x, secret, r);
    } else {
      var mid := ReceiverAfter(x, secret, r, io[..|io| - 1]).value;
      RestsTwice(x, secret, ReceiverIo(mid, io[|io| - 1]).value);
    }
  }

  lemma {:induction false} AfterSends(x: Suite, secret: seq<byte>, left: seq<byte>, io: seq<Io>)
    requires Sends(left, io).Some?
    ensures ReceiverAfter(x, secret, SendingKey(left), io) ==
            Some(ReceiverRests(x, secret, SendingKey(Sends(left, io).value)))
  {
    hide ReceiverRests, Need;
    if io != [] {
      var n := |io| - 1;
      AfterSends(x, secret, left, io[..n]);
      RestingStays(x, secret, SendingKey(Sends(left, io[..n]).value), io[n]);
    }
  }

  lemma {:induction false} AfterKeyReads(x: Suite, secret: seq<byte>, got: seq<byte>, io: seq<Io>)
    requires Receives(got, io).Some?
    ensures ReceiverAfter(x, secret, AwaitingKey(got), io) ==
            Some(ReceiverRests(x, secret, AwaitingKey(Receives(got, io).value)))
  {
    hide ReceiverRests, Need;
    if io != [] {
      var n := |io| - 1;
      AfterKeyReads(x, secret, got, io[..n]);
      RestingStays(x, secret, AwaitingKey(Receives(got, io[..n]).value), io[n]);
    }
  }

  lemma {:induction false} AfterDataReads(x: Suite, secret: seq<byte>, key: seq<byte>, got: seq<byte>, io: seq<Io>)
    requires Receives(got, io).Some?
    ensures ReceiverAfter(x, secret, AwaitingData(key, got), io) ==
            Some(ReceiverRests(x, secret, AwaitingData(key, Receives(got, io).value)))
  {
    hide ReceiverRests, Need;
    if io != [] {
      var n := |io| - 1;
      AfterDataReads(x, secret, key, got, io[..n]);
      RestingStays(x, secret, AwaitingData(key, Receives(got, io[..n]).value), io[n]);
    }
  }

  /** Whatever transfers the receiver makes, no byte is taken before its whole key is out. */
  lemma {:induction false} KeyGoesFirst(x: Suite, secret: seq<byte>, left: seq<byte>, io: seq<Io>) returns (k: nat)
    requires left != [] && ReceiverAfter(x, secret, SendingKey(left), io).Some?
    ensures k <= |io| && Sends(left, io[..k]).Some? && (forall i :: k <= i < |io| ==> io[i].In?)
    ensures k < |io| ==> Sends(left, io[..k]) == Some([])
    ensures var r := ReceiverAfter(x, secret, SendingKey(left), io).value;
            if r.SendingKey? then k == |io| && r.left != [] && Sends(left, io) == Some(r.left)
            else Sends(left, io[..k]) == Some([])
  {
    hide Need, Complete, Decrypt, DeriveKey;
    if io == [] {
      k := 0;
    } else {
      var n := |io| - 1;
      k := KeyGoesFirst(x, secret, left, io[..n]);
      if k == n && io[n].Out? {
        k := n + 1;
        assert io[..n + 1] == io && io[..n][..n] == io[..n];
        SendRests(x, secret, Sends(left, io).value);
      } else {
        assert io[..n][..k] == io[..k];
        InNeverSends(x, secret, ReceiverAfter(x, secret, SendingKey(left), io[..n]).value, io[n]);
      }
    }
  }

  lemma SendRests(x: Suite, secret: seq<byte>, left: seq<byte>)
    ensures var r := ReceiverRests(x, secret, SendingKey(left));
            if left != [] then r == SendingKey(left) else r == AwaitingKey([])
  {
    ShortStream([]);
    hide Need, Complete, Decrypt, DeriveKey;
  }

  lemma InNeverSends(x: Suite, secret: seq<byte>, r: Receiver, io: Io)
    requires ReceiverIo(r, io).Some?
    ensures io.In? ==> !r.SendingKey? && !ReceiverRests(x, secret, ReceiverIo(r, io).value).SendingKey?
    ensures io.Out? ==> r.SendingKey?
  {
    hide Need, Complete, Decrypt, DeriveKey, ReceiverRests;
    if io.In? {
      NeverBack(x, secret, ReceiverIo(r, io).value);
    }
  }

  lemma {:induction false} NeverBack(x: Suite, secret: seq<byte>, r: Receiver)
    requires !r.SendingKey?
    ensures !ReceiverRests(x, secret, r).SendingKey?
    decreases ReceiverRank(r)
  {
    hide Need, Complete, Decrypt, DeriveKey;
    if ReceiverNext(x, secret, r).Some? {
      NeverBack(x, secret, ReceiverNext(x, secret, r).value);
    }
  }

  /** What a receiver makes of the whole stream it will ever get: the key and the message. */
  function ReceiverOutcome(x: Suite, secret: seq<byte>, stream: seq<byte>): Option<(seq<byte>, seq<byte>)> {
    match Unframe(stream)
    case (Data(pem), rest) =>
      (match DeriveKey(x, secret, pem)
       case None => None
       case Some(key) =>
         match Unframe(rest).0
         case Data(blob) =>
           (match Decrypt(x, key, blob) case None => None case Some(m) => Some((key, m)))
         case _ => None)
    case _ => None
  }

  /** `handleClient`. Whatever the socket does, the call's transfers are those of the receiver in the
      session, and they bring it to its end exactly if the call returns a result. A completed call
      returns what the stream says. On a reliable socket its whole key has gone out unless its
      length was split, whatever comes in; and it returns exactly what the stream says then. */
  method HandleClient(socket: Socket, x: Suite, secret: seq<byte>)
    returns (r: Option<(seq<byte>, seq<byte>)>, ghost split: bool, ghost io: seq<Io>)
    modifies socket
    ensures r.Some? ==> r == ReceiverOutcome(x, secret, old(socket.incoming))
    ensures r.Some? ==> socket.outgoing == old(socket.outgoing) + Frame(x.exportKey(x.point(secret)))
    ensures split ==> |socket.outgoing| < |old(socket.outgoing)| + 4
    ensures socket.reliable && !split ==> socket.outgoing == old(socket.outgoing) + Frame(x.exportKey(x.point(secret)))
    ensures socket.reliable ==> r == if split then None else ReceiverOutcome(x, secret, old(socket.incoming))
    ensures socket.trace == old(socket.trace) + io
    ensures var end := ReceiverAfter(x, secret, SendingKey(Frame(x.exportKey(x.point(secret)))), io);
            && end.Some?
            && match r
               case Some((key, m)) => end.value == Finished(key, m)
               case None => !end.value.Finished?
  {
    hide Unframe, Decrypt, DeriveKey, Sends, Receives, ReceiverAfter, Need, Complete, ReceiverRests, TakenAs;
    r := None;
    ghost var start := SendingKey(Frame(x.exportKey(x.point(secret))));
    var sent, first, io1 := SendData(socket, x.exportKey(x.point(secret)));
    split := first != 4;
    io := io1;
    KeySent(x, secret, start.left, io1);
    if !sent { return; }
    var front, got, io2 := ReceiveData(socket);
    AfterJoin(x, secret, start, io, io2);
    io := io + io2;
    KeyReceived(x, secret, got, io2, front);
    if !front.Data? { return; }
    var key := DeriveKey(x, secret, front.data);
    if key.None? { return; }
    var second, got', io3 := ReceiveData(socket);
    AfterJoin(x, secret, start, io, io3);
    io := io + io3;
    DataReceived(x, secret, key.value, got', io3, second);
    if !second.Data? { return; }
    var m := Decrypt(x, key.value, second.data);
    if m.Some? { r := Some((key.value, m.value)); }
  }

  lemma KeySent(x: Suite, secret: seq<byte>, left: seq<byte>, io: seq<Io>)
    requires Sends(left, io).Some?
    ensures var end := ReceiverAfter(x, secret, SendingKey(left), io);
            && end.Some? && !end.value.Finished?
            && (Sends(left, io) == Some([]) ==> end == Some(AwaitingKey([])))
  {
    AfterSends(x, secret, left, io);
    SendRests(x, secret, Sends(left, io).value);
  }

  lemma KeyReceived(x: Suite, secret: seq<byte>, got: seq<byte>, io: seq<Io>, front: Outcome)
    requires Receives([], io) == Some(got) && TakenAs(got, front)
    ensures var end := ReceiverAfter(x, secret, AwaitingKey([]), io);
            && end.Some? && !end.value.Finished?
            && (front.Data? && DeriveKey(x, secret, front.data).Some? ==>
                  end == Some(AwaitingData(DeriveKey(x, secret, front.data).value, [])))
  {
    AfterKeyReads(x, secret, [], io);
    ShortStream([]);
    hide Need, Complete, Decrypt, DeriveKey;
  }

  lemma DataReceived(x: Suite, secret: seq<byte>, key: seq<byte>, got: seq<byte>, io: seq<Io>, second: Outcome)
    requires Receives([], io) == Some(got) && TakenAs(got, second)
    ensures var end := ReceiverAfter(x, secret, AwaitingData(key, []), io);
            && end.Some?
            && if second.Data? && Decrypt(x, key, second.data).Some?
               then end == Some(Finished(key, Decrypt(x, key, second.data).value)) else !end.value.Finished?
  {
    AfterDataReads(x, secret, key, [], io);
    hide Need, Complete, Decrypt, DeriveKey;
  }

  // ---------------------------------------------------------------- the sender

  lemma {:induction false} SenderRestsTwice(x: Suite, secret: seq<byte>, iv: seq<byte>, message: seq<byte>, s: Sender)
    ensures SenderRests(x, secret, iv, message, SenderRests(x, secret, iv, message, s)) ==
            SenderRests(x, secret, iv, message, s)
    decreases SenderRank(s)
  {
    hide Need, Complete, Encrypt, DeriveKey, Frame;
    if SenderNext(x, secret, iv, message, s).Some? {
      SenderRestsTwice(x, secret, iv, message, SenderNext(x, secret, iv, message, s).value);
    }
  }

  lemma SenderAfterRests(x: Suite, secret: seq<byte>, iv: seq<byte>, message: seq<byte>, s: Sender, io: seq<Io>)
    requires SenderAfter(x, secret, iv, message, s, io).Some?
    ensures var s' := SenderAfter(x, secret, iv, message, s, io).value; SenderRests(x, secret, iv, message, s') == s'
  {
    hide SenderIo, SenderRests;
    if io == [] {
      SenderRestsTwice(x, secret, iv, message, s);
    } else {
      var mid := SenderAfter(x, secret, iv, message, s, io[..|io| - 1]).value;
      SenderRestsTwice(x, secret, iv, message, SenderIo(mid, io[|io| - 1]).value);
    }
  }

  lemma {:induction false} SenderAfterJoin(x: Suite, secret: seq<byte>, iv: seq<byte>, message: seq<byte>, s: Sender,
                                           a: seq<Io>, b: seq<Io>)
    requires SenderAfter(x, secret, iv, message, s, a).Some?
    ensures SenderAfter(x, secret, iv, message, s, a + b) ==
            SenderAfter(x, secret, iv, message, SenderAfter(x, secret, iv, message, s, a).value, b)
    decreases |b|
  {
    hide SenderIo, SenderRests;
    if b == [] {
      assert a + b == a;
      SenderAfterRests(x, secret, iv, message, s, a);
    } else {
      var n := |b| - 1;
      assert (a + b)[..|a + b| - 1] == a + b[..n];
      SenderAfterJoin(x, secret, iv, message, s, a, b[..n]);
    }
  }

  lemma {:induction false} SenderAfterReads(x: Suite, secret: seq<byte>, iv: seq<byte>, message: seq<byte>,
                                            got: seq<byte>, io: seq<Io>)
    requires Receives(got, io).Some?
    ensures SenderAfter(x, secret, iv, message, WaitingKey(got), io) ==
            Some(SenderRests(x, secret, iv, message, WaitingKey(Receives(got, io).value)))
  {
    hide SenderRests, Need;
    if io != [] {
      var n := |io| - 1;
      SenderAfterReads(x, secret, iv, message, got, io[..n]);
      SenderRestingStays(x, secret, iv, message, WaitingKey(Receives(got, io[..n]).value), io[n]);
    }
  }

  lemma {:induction false} SenderAfterKey(x: Suite, secret: seq<byte>, iv: seq<byte>, message: seq<byte>,
                                          pem: seq<byte>, left: seq<byte>, io: seq<Io>)
    requires Sends(left, io).Some?
    ensures SenderAfter(x, secret, iv, message, ReturningKey(pem, left), io) ==
            Some(SenderRests(x, secret, iv, message, ReturningKey(pem, Sends(left, io).value)))
  {
    hide SenderRests, Need;
    if io != [] {
      var n := |io| - 1;
      SenderAfterKey(x, secret, iv, message, pem, left, io[..n]);
      SenderRestingStays(x, secret, iv, message, ReturningKey(pem, Sends(left, io[..n]).value), io[n]);
    }
  }

  lemma {:induction false} SenderAfterData(x: Suite, secret: seq<byte>, iv: seq<byte>, message: seq<byte>,
                                           key: seq<byte>, left: seq<byte>, io: seq<Io>)
    requires Sends(left, io).Some?
    ensures SenderAfter(x, secret, iv, message, SendingData(key, left), io) ==
            Some(SenderRests(x, secret, iv, message, SendingData(key, Sends(left, io).value)))
  {
    hide SenderRests, Need;
    if io != [] {
      var n := |io| - 1;
      SenderAfterData(x, secret, iv, message, key, left, io[..n]);
      SenderRestingStays(x, secret, iv, message, SendingData(key, Sends(left, io[..n]).value), io[n]);
    }
  }

  /** Whatever transfers the sender makes, nothing is sent before the peer's whole key is taken. */
  lemma {:induction false} KeyComesFirst(x: Suite, secret: seq<byte>, iv: seq<byte>, message: seq<byte>, io: seq<Io>)
    returns (k: nat)
    requires SenderAfter(x, secret, iv, message, WaitingKey([]), io).Some?
    ensures k <= |io| && Receives([], io[..k]).Some? && (forall i :: k <= i < |io| ==> io[i].Out?)
    ensures var s, got := SenderAfter(x, secret, iv, message, WaitingKey([]), io).value, Receives([], io[..k]).value;
            if s.WaitingKey? then k == |io| && s.got == got && Need(got) != 0
            else Need(got) == 0 && (k < |io| ==> Complete(got).Some?)
  {
    hide Need, Complete, Encrypt, DeriveKey, Frame, SenderRests;
    if io == [] {
      k := 0;
      SenderWaits(x, secret, iv, message, []);
      ShortStream([]);
    } else {
      var n := |io| - 1;
      k := KeyComesFirst(x, secret, iv, message, io[..n]);
      var mid := SenderAfter(x, secret, iv, message, WaitingKey([]), io[..n]).value;
      if io[n].In? {
        k := n + 1;
        assert io[..n + 1] == io && io[..n][..n] == io[..n];
        SenderWaits(x, secret, iv, message, Receives([], io).value);
      } else {
        assert io[..n][..k] == io[..k];
        SenderNeverBack(x, secret, iv, message, SenderIo(mid, io[n]).value);
        KeyWasGood(x, secret, iv, message, io[..n], k, mid);
      }
    }
  }

  /** A sender with something to send has taken a key that was not refused. */
  lemma {:induction false} KeyWasGood(x: Suite, secret: seq<byte>, iv: seq<byte>, message: seq<byte>,
                                      io: seq<Io>, k: nat, s: Sender)
    requires k <= |io| && Receives([], io[..k]).Some? && (forall i :: k <= i < |io| ==> io[i].Out?)
    requires SenderAfter(x, secret, iv, message, WaitingKey([]), io) == Some(s) && !s.Aborted?
    requires Need(Receives([], io[..k]).value) == 0
    ensures Complete(Receives([], io[..k]).value).Some?
    decreases |io|
  {
    hide Need, Complete, Encrypt, DeriveKey, Frame;
    if k == |io| {
      assert io[..k] == io;
      SenderAfterReads(x, secret, iv, message, [], io);
    } else {
      var n := |io| - 1;
      var mid := SenderAfter(x, secret, iv, message, WaitingKey([]), io[..n]).value;
      assert io[..n][..k] == io[..k];
      KeyWasGood(x, secret, iv, message, io[..n], k, mid);
    }
  }

  lemma SenderWaits(x: Suite, secret: seq<byte>, iv: seq<byte>, message: seq<byte>, got: seq<byte>)
    ensures var s := SenderRests(x, secret, iv, message, WaitingKey(got));
            if Need(got) != 0 then s == WaitingKey(got) else !s.WaitingKey?
  {
    hide Need, Complete, Encrypt, DeriveKey, Frame, SenderRests;
    if Need(got) != 0 {
      SenderStays(x, secret, iv, message, WaitingKey(got));
    } else {
      SenderGoesBy(x, secret, iv, message, WaitingKey(got));
      SenderNeverBack(x, secret, iv, message, SenderNext(x, secret, iv, message, WaitingKey(got)).value);
    }
  }

  lemma SenderStays(x: Suite, secret: seq<byte>, iv: seq<byte>, message: seq<byte>, s: Sender)
    requires SenderNext(x, secret, iv, message, s).None?
    ensures SenderRests(x, secret, iv, message, s) == s
  {
    hide SenderNext;
  }

  lemma SenderGoesBy(x: Suite, secret: seq<byte>, iv: seq<byte>, message: seq<byte>, s: Sender)
    requires SenderNext(x, secret, iv, message, s).Some?
    ensures SenderRests(x, secret, iv, message, s) ==
            SenderRests(x, secret, iv, message, SenderNext(x, secret, iv, message, s).value)
  {
    hide SenderNext;
  }

  lemma {:induction false} SenderNeverBack(x: Suite, secret: seq<byte>, iv: seq<byte>, message: seq<byte>, s: Sender)
    requires !s.WaitingKey?
    ensures !SenderRests(x, secret, iv, message, s).WaitingKey?
    decreases SenderRank(s)
  {
    hide Need, Complete, Encrypt, DeriveKey, Frame;
    if SenderNext(x, secret, iv, message, s).Some? {
      SenderNeverBack(x, secret, iv, message, SenderNext(x, secret, iv, message, s).value);
    }
  }

  /** `performSecureTransfer`. Whatever the socket does, the call's transfers are those of the sender
      in the session, and they bring it to its end exactly if the call completes. A completed call
      has taken exactly the peer's key off the stream and put exactly its own key and the encrypted
      message on it; on a reliable socket it completes exactly when there is a usable key on the
      stream and neither length was split. */
  method PerformSecureTransfer(socket: Socket, x: Suite, secret: seq<byte>, iv: seq<byte>, message: seq<byte>)
    returns (key: Option<seq<byte>>, ghost firsts: seq<int>, ghost io: seq<Io>)
    modifies socket
    ensures key.Some? ==>
              && Unframe(old(socket.incoming)).0.Data?
              && socket.incoming == Unframe(old(socket.incoming)).1
              && key == DeriveKey(x, secret, Unframe(old(socket.incoming)).0.data)
              && socket.outgoing == old(socket.outgoing) + Frame(x.exportKey(x.point(secret))) +
                                    Frame(Encrypt(x, key.value, iv, message))
    ensures |firsts| <= 2
    ensures socket.reliable ==>
              (key.Some? <==>
                && Unframe(old(socket.incoming)).0.Data?
                && DeriveKey(x, secret, Unframe(old(socket.incoming)).0.data).Some?
                && forall f :: f in firsts ==> f == 4)
    ensures socket.trace == old(socket.trace) + io
    ensures var end := SenderAfter(x, secret, iv, message, WaitingKey([]), io);
            && end.Some?
            && match key
               case Some(k) => end.value == Completed(k)
               case None => !end.value.Completed?
  {
    hide Unframe, Frame, Encrypt, DeriveKey, Sends, Receives, SenderAfter, SenderRests, Need, Complete, TakenAs;
    key, firsts := None, [];
    var front, got, io1 := ReceiveData(socket);
    io := io1;
    PeerKeyReceived(x, secret, iv, message, got, io1, front);
    if !front.Data? { return; }
    var sent, first, io2 := SendData(socket, x.exportKey(x.point(secret)));
    firsts := [first];
    assert first in firsts;
    SenderAfterJoin(x, secret, iv, message, WaitingKey([]), io, io2);
    io := io + io2;
    OwnKeySent(x, secret, iv, message, front.data, io2);
    if !sent { return; }
    var derived := DeriveKey(x, secret, front.data);
    if derived.None? { return; }
    var done, second, io3 := SendData(socket, Encrypt(x, derived.value, iv, message));
    firsts := [first, second];
    assert second in firsts;
    SenderAfterJoin(x, secret, iv, message, WaitingKey([]), io, io3);
    io := io + io3;
    DataSent(x, secret, iv, message, derived.value, io3);
    if done { key := derived; }
  }

  lemma FrameNotEmpty(data: seq<byte>)
    ensures Frame(data) != []
  {
  }

  lemma PeerKeyReceived(x: Suite, secret: seq<byte>, iv: seq<byte>, message: seq<byte>, got: seq<byte>, io: seq<Io>,
                        front: Outcome)
    requires Receives([], io) == Some(got) && TakenAs(got, front)
    ensures var end := SenderAfter(x, secret, iv, message, WaitingKey([]), io);
            && end.Some? && !end.value.Completed?
            && (front.Data? ==> end == Some(ReturningKey(front.data, Frame(x.exportKey(x.point(secret))))))
  {
    hide Need, Complete, Encrypt, DeriveKey, Frame;
    SenderAfterReads(x, secret, iv, message, [], io);
    FrameNotEmpty(x.exportKey(x.point(secret)));
  }

  lemma OwnKeySent(x: Suite, secret: seq<byte>, iv: seq<byte>, message: seq<byte>, pem: seq<byte>, io: seq<Io>)
    requires Sends(Frame(x.exportKey(x.point(secret))), io).Some?
    ensures var left := Frame(x.exportKey(x.point(secret)));
            var end := SenderAfter(x, secret, iv, message, ReturningKey(pem, left), io);
            && end.Some? && !end.value.Completed?
            && (Sends(left, io) == Some([]) && DeriveKey(x, secret, pem).Some? ==>
                  var key := DeriveKey(x, secret, pem).value;
                  end == Some(SendingData(key, Frame(Encrypt(x, key, iv, message)))))
  {
    hide Need, Complete, Encrypt, DeriveKey, Frame, Sends;
    var left := Frame(x.exportKey(x.point(secret)));
    SenderAfterKey(x, secret, iv, message, pem, left, io);
    if DeriveKey(x, secret, pem).Some? {
      FrameNotEmpty(Encrypt(x, DeriveKey(x, secret, pem).value, iv, message));
    }
  }

  lemma DataSent(x: Suite, secret: seq<byte>, iv: seq<byte>, message: seq<byte>, key: seq<byte>, io: seq<Io>)
    requires Sends(Frame(Encrypt(x, key, iv, message)), io).Some?
    ensures var left := Frame(Encrypt(x, key, iv, message));
            var end := SenderAfter(x, secret, iv, message, SendingData(key, left), io);
            && end.Some?
            && if Sends(left, io) == Some([]) then end == Some(Completed(key)) else !end.value.Completed?
  {
    hide Need, Complete, Encrypt, DeriveKey, Frame, Sends;
    SenderAfterData(x, secret, iv, message, key, Frame(Encrypt(x, key, iv, message)), io);
  }

  /** The two programs fit together, for messages of every length: fed with what the sender puts on
      the wire, the receiver's outcome is the sender's key and what the last frame gives, which is
      the message exactly when it fits, unless its frame announced too little. */
  lemma OutcomeOfTransfer(p: Setup, rest: seq<byte>)
    requires Valid(p)
    ensures var outcome := ReceiverOutcome(p.suite, p.receiverSecret, Frame(SenderPem(p)) + Frame(Blob(p)) + rest);
            && outcome == (match Received(p) case None => None case Some(m) => Some((SharedKey(p), m)))
            && (!CutShort(p) ==> outcome == if Fits(p) then Some((SharedKey(p), p.message)) else None)
  {
    hide Frame, Unframe, Decrypt, DeriveKey, Encrypt, Announced;
    SetupFacts(p);
    FrameRoundTrip(SenderPem(p), Frame(Blob(p)) + rest);
    UnframeFrame(Blob(p), rest);
    assert Frame(SenderPem(p)) + Frame(Blob(p)) + rest == Frame(SenderPem(p)) + (Frame(Blob(p)) + rest);
    if !CutShort(p) {
      ReceivedWhole(p);
    }
  }
}
