/** The secure session of `secure_transfer.cpp`: key exchange, key derivation and one encrypted
    message, between two parties joined by two bounded byte streams. Every interleaving of their
    partial sends and receives is a sequence of moves; a party may give up on a split length, and a
    party that ends closes its streams. */
module Session {
  import opened Common
  import opened Framing

  const KEY_SIZE := 32
  const IV_SIZE := 12
  const TAG_SIZE := 16

  /** P-256 key agreement, PEM and AES-256-GCM. */
  datatype Suite = Suite(
    point: seq<byte> -> seq<byte>,
    exportKey: seq<byte> -> seq<byte>,
    importKey: seq<byte> -> Option<seq<byte>>,
    ecdh: (seq<byte>, seq<byte>) -> seq<byte>,
    seal: (seq<byte>, seq<byte>, seq<byte>) -> (seq<byte>, seq<byte>),
    open: (seq<byte>, seq<byte>, seq<byte>, seq<byte>) -> Option<seq<byte>>)

  /** Import inverts export, the shared secret is symmetric and long enough, and opening inverts
      sealing, which keeps the length and adds a 16-byte tag. */
  ghost predicate Lawful(x: Suite) {
    && (forall k :: x.importKey(x.exportKey(x.point(k))) == Some(x.point(k)))
    && (forall k :: |x.exportKey(x.point(k))| <= MAX_FRAME)
    && (forall k, l :: x.ecdh(k, x.point(l)) == x.ecdh(l, x.point(k)) && |x.ecdh(k, x.point(l))| >= KEY_SIZE)
    && (forall key, iv, m :: |x.seal(key, iv, m).0| == |m| && |x.seal(key, iv, m).1| == TAG_SIZE)
    && (forall key, iv, m :: x.open(key, iv, x.seal(key, iv, m).0, x.seal(key, iv, m).1) == Some(m))
  }

  /** The laws are consistent: some primitives satisfy them. */
  lemma LawsAreSatisfiable() returns (x: Suite)
    ensures Lawful(x)
  {
    var secret, tag := seq(KEY_SIZE, _ => 0), seq(TAG_SIZE, _ => 0);
    x := Suite(k => [], k => k, k => Some(k), (k, l) => secret, (k, iv, m) => (m, tag), (k, iv, m, t) => Some(m));
  }

  // ---------------------------------------------------------------- the encrypted blob

  /** `AESCrypto::encrypt` with the random IV given: IV, ciphertext, tag. */
  function Encrypt(x: Suite, key: seq<byte>, iv: seq<byte>, m: seq<byte>): seq<byte> {
    var (ciphertext, tag) := x.seal(key, iv, m);
    iv + ciphertext + tag
  }

  function Decrypt(x: Suite, key: seq<byte>, blob: seq<byte>): Option<seq<byte>> {
    if |blob| < IV_SIZE + TAG_SIZE then None
    else
      var n := |blob| - TAG_SIZE;
      x.open(key, blob[..IV_SIZE], blob[IV_SIZE..n], blob[n..])
  }

  /** Decryption cuts the blob where encryption joined it, for messages of every length. */
  lemma DecryptEncrypt(x: Suite, key: seq<byte>, iv: seq<byte>, m: seq<byte>)
    requires Lawful(x) && |iv| == IV_SIZE
    ensures |Encrypt(x, key, iv, m)| == |m| + IV_SIZE + TAG_SIZE
    ensures Decrypt(x, key, Encrypt(x, key, iv, m)) == Some(m)
  {
    var (ciphertext, tag) := x.seal(key, iv, m);
    var blob := Encrypt(x, key, iv, m);
    var n := |blob| - TAG_SIZE;
    assert blob[..IV_SIZE] == iv && blob[IV_SIZE..n] == ciphertext && blob[n..] == tag;
  }

  /** The layout of the blob, byte by byte: 12 bytes of IV, the ciphertext, 16 bytes of tag. And
      decryption opens exactly these parts of any blob that is long enough for them. */
  lemma BlobLayout(x: Suite, key: seq<byte>, iv: seq<byte>, m: seq<byte>, blob: seq<byte>)
    requires Lawful(x) && |iv| == 12
    ensures var sealed := Encrypt(x, key, iv, m);
            && |sealed| == 12 + |m| + 16
            && sealed[..12] == iv && sealed[12..12 + |m|] == x.seal(key, iv, m).0
            && sealed[12 + |m|..] == x.seal(key, iv, m).1
    ensures Decrypt(x, key, blob) ==
            if |blob| < 28 then None else x.open(key, blob[..12], blob[12..|blob| - 16], blob[|blob| - 16..])
  {
    DecryptEncrypt(x, key, iv, m);
  }

  // ---------------------------------------------------------------- the two parties

  /** Where the receiver stands in `handleClient`. */
  datatype Receiver =
    | SendingKey(left: seq<byte>)
    | AwaitingKey(got: seq<byte>)
    | AwaitingData(key: seq<byte>, got: seq<byte>)
    | Finished(key: seq<byte>, message: seq<byte>)
    | Failed

  /** Where the sender stands in `performSecureTransfer`. */
  datatype Sender =
    | WaitingKey(got: seq<byte>)
    | ReturningKey(peerPem: seq<byte>, left: seq<byte>)
    | SendingData(key: seq<byte>, left: seq<byte>)
    | Completed(key: seq<byte>)
    | Aborted

  /** One session: the primitives, both secret keys, the IV and the message, and the capacity of
      each stream buffer. */
  datatype Setup = Setup(suite: Suite, receiverSecret: seq<byte>, senderSecret: seq<byte>,
                         iv: seq<byte>, message: seq<byte>, capacity: nat)

  /** Both parties and the bytes under way in each direction. `split` is a history variable: the
      send of some length came back short. */
  datatype State = State(receiver: Receiver, sender: Sender, toSender: seq<byte>, toReceiver: seq<byte>, split: bool)

  datatype Move =
    | ReceiverSends(n: nat)
    | ReceiverReads(n: nat)
    | ReceiverGoesOn
    | ReceiverGivesUp   // the send of a length came back short
    | ReceiverCutOff    // a send or receive failed because the sender has closed
    | SenderSends(m: nat)
    | SenderReads(m: nat)
    | SenderGoesOn
    | SenderGivesUp
    | SenderCutOff

  function ReceiverPem(p: Setup): seq<byte> {
    p.suite.exportKey(p.suite.point(p.receiverSecret))
  }

  function SenderPem(p: Setup): seq<byte> {
    p.suite.exportKey(p.suite.point(p.senderSecret))
  }

  function Initial(p: Setup): State {
    State(SendingKey(Frame(ReceiverPem(p))), WaitingKey([]), [], [], false)
  }

  /** Import the peer's key and keep the first 32 bytes of the shared secret. */
  function DeriveKey(x: Suite, secret: seq<byte>, peerPem: seq<byte>): Option<seq<byte>> {
    match x.importKey(peerPem)
    case None => None
    case Some(point) =>
      if |x.ecdh(secret, point)| < KEY_SIZE then None else Some(x.ecdh(secret, point)[..KEY_SIZE])
  }

  /** What the receiver does when it has sent or received what it was at. */
  function ReceiverNext(x: Suite, secret: seq<byte>, r: Receiver): Option<Receiver> {
    match r
    case SendingKey(left) => if left == [] then Some(AwaitingKey([])) else None
    case AwaitingKey(got) =>
      if Need(got) != 0 then None
      else
        (match Complete(got)
         case None => Some(Failed)
         case Some(pem) =>
           match DeriveKey(x, secret, pem)
           case None => Some(Failed)
           case Some(key) => Some(AwaitingData(key, [])))
    case AwaitingData(key, got) =>
      if Need(got) != 0 then None
      else
        (match Complete(got)
         case None => Some(Failed)
         case Some(blob) =>
           match Decrypt(x, key, blob)
           case None => Some(Failed)
           case Some(m) => Some(Finished(key, m)))
    case Finished(_, _) => None
    case Failed => None
  }

  function SenderNext(x: Suite, secret: seq<byte>, iv: seq<byte>, message: seq<byte>, s: Sender): Option<Sender> {
    match s
    case WaitingKey(got) =>
      if Need(got) != 0 then None
      else
        (match Complete(got)
         case None => Some(Aborted)
         case Some(pem) => Some(ReturningKey(pem, Frame(x.exportKey(x.point(secret))))))
    case ReturningKey(pem, left) =>
      if left != [] then None
      else
        (match DeriveKey(x, secret, pem)
         case None => Some(Aborted)
         case Some(key) => Some(SendingData(key, Frame(Encrypt(x, key, iv, message)))))
    case SendingData(key, left) => if left == [] then Some(Completed(key)) else None
    case Completed(_) => None
    case Aborted => None
  }

  /** Some but not all of the four length bytes of a frame are out. */
  predicate LengthSplit(data: seq<byte>, left: seq<byte>) {
    |data| < |left| < |data| + 4
  }

  predicate ReceiverEnded(r: Receiver) {
    r.Finished? || r.Failed?
  }

  predicate SenderEnded(s: Sender) {
    s.Completed? || s.Aborted?
  }

  predicate ReceiverMaySplit(p: Setup, r: Receiver) {
    r.SendingKey? && LengthSplit(ReceiverPem(p), r.left)
  }

  predicate SenderMaySplit(p: Setup, s: Sender) {
    || (s.ReturningKey? && LengthSplit(SenderPem(p), s.left))
    || (s.SendingData? && LengthSplit(Encrypt(p.suite, s.key, p.iv, p.message), s.left))
  }

  /** The receiver wants to send, or to receive from an empty stream. */
  predicate ReceiverStranded(st: State) {
    || (st.receiver.SendingKey? && st.receiver.left != [])
    || ((st.receiver.AwaitingKey? || st.receiver.AwaitingData?) && Need(st.receiver.got) != 0 && st.toReceiver == [])
  }

  predicate SenderStranded(st: State) {
    || ((st.sender.ReturningKey? || st.sender.SendingData?) && st.sender.left != [])
    || (st.sender.WaitingKey? && Need(st.sender.got) != 0 && st.toSender == [])
  }

  function ReceiverRead(st: State, n: nat): State
    requires (st.receiver.AwaitingKey? || st.receiver.AwaitingData?) && n <= |st.toReceiver|
  {
    var got := st.receiver.got + st.toReceiver[..n];
    st.(receiver := if st.receiver.AwaitingKey? then AwaitingKey(got) else AwaitingData(st.receiver.key, got),
        toReceiver := st.toReceiver[n..])
  }

  function SenderSend(st: State, n: nat): State
    requires (st.sender.ReturningKey? || st.sender.SendingData?) && n <= |st.sender.left|
  {
    var left := st.sender.left[n..];
    st.(sender := if st.sender.ReturningKey? then ReturningKey(st.sender.peerPem, left)
                  else SendingData(st.sender.key, left),
        toReceiver := st.toReceiver + st.sender.left[..n])
  }

  function Step(p: Setup, st: State, move: Move): Option<State> {
    match move
    case ReceiverSends(n) =>
      if st.receiver.SendingKey? && 0 < n <= |st.receiver.left| && |st.toSender| + n <= p.capacity then
        Some(st.(receiver := SendingKey(st.receiver.left[n..]), toSender := st.toSender + st.receiver.left[..n]))
      else None
    case ReceiverReads(n) =>
      if (st.receiver.AwaitingKey? || st.receiver.AwaitingData?) &&
         0 < n <= Need(st.receiver.got) && n <= |st.toReceiver|
      then Some(ReceiverRead(st, n)) else None
    case ReceiverGoesOn =>
      (match ReceiverNext(p.suite, p.receiverSecret, st.receiver)
       case None => None
       case Some(r) => Some(st.(receiver := r)))
    case ReceiverGivesUp =>
      if ReceiverMaySplit(p, st.receiver) then Some(st.(receiver := Failed, split := true)) else None
    case ReceiverCutOff =>
      if SenderEnded(st.sender) && ReceiverStranded(st) then Some(st.(receiver := Failed)) else None
    case SenderSends(n) =>
      if (st.sender.ReturningKey? || st.sender.SendingData?) &&
         0 < n <= |st.sender.left| && |st.toReceiver| + n <= p.capacity
      then Some(SenderSend(st, n)) else None
    case SenderReads(n) =>
      if st.sender.WaitingKey? && 0 < n <= Need(st.sender.got) && n <= |st.toSender| then
        Some(st.(sender := WaitingKey(st.sender.got + st.toSender[..n]), toSender := st.toSender[n..]))
      else None
    case SenderGoesOn =>
      (match SenderNext(p.suite, p.senderSecret, p.iv, p.message, st.sender)
       case None => None
       case Some(s) => Some(st.(sender := s)))
    case SenderGivesUp =>
      if SenderMaySplit(p, st.sender) then Some(st.(sender := Aborted, split := true)) else None
    case SenderCutOff =>
      if ReceiverEnded(st.receiver) && SenderStranded(st) then Some(st.(sender := Aborted)) else None
  }

  function Run(p: Setup, moves: seq<Move>): Option<State> {
    if moves == [] then Some(Initial(p))
    else
      match Run(p, moves[..|moves| - 1])
      case None => None
      case Some(st) => Step(p, st, moves[|moves| - 1])
  }

  // ---------------------------------------------------------------- what every run keeps

  /** The key both parties should arrive at. */
  function SharedKey(p: Setup): seq<byte> {
    var secret := p.suite.ecdh(p.receiverSecret, p.suite.point(p.senderSecret));
    if |secret| < KEY_SIZE then secret else secret[..KEY_SIZE]
  }

  function Blob(p: Setup): seq<byte> {
    Encrypt(p.suite, SharedKey(p), p.iv, p.message)
  }

  /** Lawful primitives, a 12-byte IV and room for a byte. */
  ghost predicate Valid(p: Setup) {
    Lawful(p.suite) && |p.iv| == IV_SIZE && p.capacity >= 1
  }

  /** The message fits the receiver's limit. */
  predicate Fits(p: Setup) {
    |p.message| <= MAX_FRAME - IV_SIZE - TAG_SIZE
  }

  /** The message is so long that its frame announces too little. */
  predicate CutShort(p: Setup) {
    U32_MODULUS <= |p.message| + IV_SIZE + TAG_SIZE
  }

  /** What the receiver makes of the sender's last frame: of a truncated one, what opening a part of
      the blob gives. */
  function Received(p: Setup): Option<seq<byte>> {
    var n := Announced(Blob(p));
    if n > MAX_FRAME then None else Decrypt(p.suite, SharedKey(p), Blob(p)[..n])
  }

  /** What the sender has taken off its stream. */
  function TakenBySender(p: Setup, s: Sender): seq<byte> {
    if s.WaitingKey? then s.got else Frame(ReceiverPem(p))
  }

  /** What of a whole stream has not gone out yet. */
  function Rest(whole: seq<byte>, out: seq<byte>): seq<byte> {
    if |out| <= |whole| then whole[|out|..] else []
  }

  /** What the receiver has yet to send, or never will. */
  function LeftAtReceiver(p: Setup, st: State): seq<byte> {
    match st.receiver
    case SendingKey(left) => left
    case Failed => Rest(Frame(ReceiverPem(p)), TakenBySender(p, st.sender) + st.toSender)
    case _ => []
  }

  /** Receiver to sender: taken, under way and unsent bytes make up the receiver's key. */
  ghost predicate BackStream(p: Setup, st: State) {
    !st.sender.Aborted? ==>
      && TakenBySender(p, st.sender) + st.toSender + LeftAtReceiver(p, st) == Frame(ReceiverPem(p))
      && (st.sender.WaitingKey? ==> |st.sender.got| >= 4 ==> |st.sender.got| <= 4 + |ReceiverPem(p)|)
  }

  /** The whole stream from sender to receiver. */
  function Forth(p: Setup): seq<byte> {
    Frame(SenderPem(p)) + Frame(Blob(p))
  }

  function TakenByReceiver(p: Setup, r: Receiver): seq<byte> {
    match r
    case SendingKey(_) => []
    case AwaitingKey(got) => got
    case AwaitingData(_, got) => Frame(SenderPem(p)) + got
    case Finished(_, _) => Frame(SenderPem(p)) + Frame(Blob(p))[..4 + Announced(Blob(p))]
    case Failed => []
  }

  /** What the sender has yet to send, or never will. */
  function LeftAtSender(p: Setup, st: State): seq<byte> {
    match st.sender
    case WaitingKey(_) => Forth(p)
    case ReturningKey(_, left) => left + Frame(Blob(p))
    case SendingData(_, left) => left
    case Completed(_) => []
    case Aborted => Rest(Forth(p), TakenByReceiver(p, st.receiver) + st.toReceiver)
  }

  /** Sender to receiver: taken, under way and unsent bytes make up the sender's key and message. */
  ghost predicate ForthStream(p: Setup, st: State) {
    !st.receiver.Failed? ==>
      TakenByReceiver(p, st.receiver) + st.toReceiver + LeftAtSender(p, st) == Forth(p)
  }

  /** Keys and results, and the only ways to fail. */
  ghost predicate PartiesOk(p: Setup, st: State) {
    && (match st.receiver
        case SendingKey(_) => true
        case AwaitingKey(got) => |got| >= 4 ==> |got| <= 4 + |SenderPem(p)|
        case AwaitingData(key, got) => key == SharedKey(p) && (|got| >= 4 ==> |got| <= 4 + Announced(Blob(p)))
        case Finished(key, m) => key == SharedKey(p) && Received(p) == Some(m)
        case Failed => Received(p).None? || st.split)
    && (match st.sender
        case WaitingKey(_) => true
        case ReturningKey(pem, _) => pem == ReceiverPem(p)
        case SendingData(key, _) => key == SharedKey(p)
        case Completed(key) => key == SharedKey(p)
        case Aborted => st.split || (ReceiverEnded(st.receiver) && (Received(p).None? || CutShort(p))))
  }

  /** After a split length the party that sent it has stopped, and the other has too little to go
      on: less than a length from the receiver, or less than the length of the blob from the sender. */
  ghost predicate SplitOk(p: Setup, st: State) {
    st.split ==>
      || (&& st.sender.Aborted?
          && (st.receiver.Failed? ||
              |TakenByReceiver(p, st.receiver)| + |st.toReceiver| < |Frame(SenderPem(p))| + 4))
      || (st.receiver.Failed? && st.sender.WaitingKey? && |st.sender.got| + |st.toSender| < 4)
  }

  ghost predicate Inv(p: Setup, st: State) {
    BackStream(p, st) && ForthStream(p, st) && PartiesOk(p, st) && SplitOk(p, st)
  }

  // ---------------------------------------------------------------- reading a frame piece by piece

  lemma EqualConcat(a: seq<byte>, b: seq<byte>, c: seq<byte>, d: seq<byte>)
    requires a + b == c + d && |c| <= |a|
    ensures a[..|c|] == c
    ensures |a| == |c| ==> a == c && b == d
  {
    assert a[..|c|] == (a + b)[..|c|] == (c + d)[..|c|] == c;
    if |a| == |c| {
      assert a == a[..|c|];
      assert b == (a + b)[|a|..] == (c + d)[|c|..] == d;
    }
  }

  /** Bytes taken off a stream by reads that never ask for more than is needed. */
  predicate TakenByNeed(got: seq<byte>) {
    |got| <= 4 || (ReadLength(got[..4]) <= MAX_FRAME && |got| <= 4 + ReadLength(got[..4]))
  }

  /** Reading piece by piece as needed is taking the front message off the stream: the pieces stay
      within the frame, the end of the stream is an error exactly while more is needed, and what is
      complete is what `Unframe` finds at the front of any stream that goes on from there. */
  lemma NeedIsUnframe(got: seq<byte>, chunk: seq<byte>, rest: seq<byte>)
    requires TakenByNeed(got)
    ensures TakenByNeed([])
    ensures |chunk| <= Need(got) ==> TakenByNeed(got + chunk)
    ensures Need(got) != 0 <==> Unframe(got).0 in {NoLength, Truncated}
    ensures Need(got) == 0 ==>
              Unframe(got + rest) ==
              match Complete(got) case None => (TooLarge, rest) case Some(data) => (Data(data), rest)
  {
    hide ReadLength;
    if |got| >= 4 {
      assert (got + chunk)[..4] == got[..4] && (got + rest)[..4] == got[..4];
    }
    if Need(got) == 0 {
      assert (got + rest)[4..] == got[4..] + rest;
      if ReadLength(got[..4]) <= MAX_FRAME {
        assert (got + rest)[4..|got|] == got[4..] && (got + rest)[|got|..] == rest;
      }
    }
  }

  /** A prefix of a framed stream knows the announced length as soon as it has four bytes. */
  lemma FramePrefix(got: seq<byte>, rest: seq<byte>, data: seq<byte>, more: seq<byte>)
    requires got + rest == Frame(data) + more
    ensures |Frame(data)| == 4 + |data|
    ensures |got| >= 4 ==> ReadLength(got[..4]) == Announced(data)
    ensures var n := Announced(data);
            |got| == 4 + n ==> got == Frame(data)[..4 + n] && got[4..] == data[..n] && rest == data[n..] + more
  {
    hide LengthBytes, ReadLength, Announced;
    var n := Announced(data);
    var header := LengthBytes(n);
    LengthSize(n);
    assert Frame(data) + more == header + (data + more);
    if |got| >= 4 {
      EqualConcat(got, rest, header, data + more);
      LengthRoundTrip(n);
    }
    if |got| == 4 + n {
      assert header + (data + more) == (header + data[..n]) + (data[n..] + more);
      EqualConcat(got, rest, header + data[..n], data[n..] + more);
      assert Frame(data)[..4 + n] == header + data[..n];
    }
  }

  /** A read keeps the stream equation and never reads past the announced end of the frame. */
  lemma ReadKeeps(got: seq<byte>, chan: seq<byte>, left: seq<byte>, n: nat, data: seq<byte>, more: seq<byte>)
    requires got + chan + left == Frame(data) + more
    requires n <= Need(got) && n <= |chan| && (|got| >= 4 ==> |got| <= 4 + Announced(data))
    ensures got + chan[..n] + chan[n..] + left == Frame(data) + more
    ensures |got + chan[..n]| <= 4 || |got + chan[..n]| <= 4 + Announced(data)
  {
    hide Announced;
    assert got + chan + left == got + (chan + left);
    FramePrefix(got, chan + left, data, more);
    assert chan == chan[..n] + chan[n..];
    assert got + chan[..n] + chan[n..] == got + chan;
  }

  /** When nothing more is asked for, what was announced is there, or its length was refused. */
  lemma CompleteFrame(got: seq<byte>, chan: seq<byte>, left: seq<byte>, data: seq<byte>, more: seq<byte>)
    requires got + chan + left == Frame(data) + more
    requires Need(got) == 0 && (|got| >= 4 ==> |got| <= 4 + Announced(data))
    ensures |Frame(data)| == 4 + |data|
    ensures var n := Announced(data);
            if n > MAX_FRAME then Complete(got) == None
            else Complete(got) == Some(data[..n]) && got == Frame(data)[..4 + n] && chan + left == data[n..] + more
    ensures |data| <= MAX_FRAME ==> Complete(got) == Some(data) && got == Frame(data) && chan + left == more
  {
    hide Announced, Frame;
    assert got + chan + left == got + (chan + left);
    FramePrefix(got, chan + left, data, more);
    if |data| <= MAX_FRAME {
      assert data[..|data|] == data && data[|data|..] + more == more;
      assert Frame(data)[..4 + |data|] == Frame(data);
    }
  }

  /** While more is asked for, more is still to come. */
  lemma IncompleteFrame(got: seq<byte>, chan: seq<byte>, left: seq<byte>, data: seq<byte>, more: seq<byte>)
    requires got + chan + left == Frame(data) + more
    requires Need(got) != 0 && (|got| >= 4 ==> |got| <= 4 + Announced(data))
    ensures chan + left != []
  {
    hide Announced;
    assert got + chan + left == got + (chan + left);
    FramePrefix(got, chan + left, data, more);
    assert |got + (chan + left)| == 4 + |data| + |more|;
  }

  lemma SendKeeps(taken: seq<byte>, chan: seq<byte>, left: seq<byte>, n: nat)
    requires n <= |left|
    ensures taken + (chan + left[..n]) + left[n..] == taken + chan + left
  {
    assert left == left[..n] + left[n..];
  }

  lemma CancelPrefix(prefix: seq<byte>, a: seq<byte>, chan: seq<byte>, left: seq<byte>, whole: seq<byte>)
    ensures (prefix + a) + chan + left == prefix + whole <==> a + chan + left == whole
  {
    assert (prefix + a) + chan + left == prefix + (a + chan + left);
    assert (prefix + (a + chan + left))[|prefix|..] == a + chan + left;
    assert (prefix + whole)[|prefix|..] == whole;
  }

  /** The facts about a valid session that the proofs need. */
  lemma SetupFacts(p: Setup)
    requires Valid(p)
    ensures |ReceiverPem(p)| <= MAX_FRAME && |SenderPem(p)| <= MAX_FRAME
    ensures DeriveKey(p.suite, p.receiverSecret, SenderPem(p)) == Some(SharedKey(p))
    ensures DeriveKey(p.suite, p.senderSecret, ReceiverPem(p)) == Some(SharedKey(p))
    ensures |Blob(p)| == |p.message| + IV_SIZE + TAG_SIZE && Decrypt(p.suite, SharedKey(p), Blob(p)) == Some(p.message)
  {
    DecryptEncrypt(p.suite, SharedKey(p), p.iv, p.message);
  }

  /** The session key is the first 32 bytes of the shared secret, as either party computes it. */
  lemma SharedKeyBytes(p: Setup, i: nat)
    requires Valid(p) && i < 32
    ensures |SharedKey(p)| == 32
    ensures SharedKey(p)[i] == p.suite.ecdh(p.receiverSecret, p.suite.point(p.senderSecret))[i]
    ensures SharedKey(p)[i] == p.suite.ecdh(p.senderSecret, p.suite.point(p.receiverSecret))[i]
  {
  }

  /** A message whose frame announces its length is received exactly when it fits, which is up to
      10 MiB less the 28 bytes of IV and tag. */
  lemma ReceivedWhole(p: Setup)
    requires Valid(p) && !CutShort(p)
    ensures Received(p) == if Fits(p) then Some(p.message) else None
    ensures Fits(p) <==> |p.message| <= 10 * 1024 * 1024 - 28
  {
    hide Decrypt, Encrypt;
    SetupFacts(p);
    assert Blob(p)[..|Blob(p)|] == Blob(p);
  }

  // ---------------------------------------------------------------- every move keeps the invariant

  lemma ReceiverSendsKeeps(p: Setup, st: State, n: nat)
    requires Inv(p, st) && Step(p, st, ReceiverSends(n)).Some?
    ensures Inv(p, Step(p, st, ReceiverSends(n)).value)
  {
    SendKeeps(TakenBySender(p, st.sender), st.toSender, st.receiver.left, n);
  }

  lemma SenderSendsKeeps(p: Setup, st: State, n: nat)
    requires Inv(p, st) && Step(p, st, SenderSends(n)).Some?
    ensures Inv(p, Step(p, st, SenderSends(n)).value)
  {
    hide Frame, Need;
    SendMovesOn(p, st, n);
  }

  /** A send moves bytes from the sender to the stream and changes nothing else. */
  lemma SendMovesOn(p: Setup, st: State, n: nat)
    requires Step(p, st, SenderSends(n)).Some?
    ensures var st' := Step(p, st, SenderSends(n)).value;
            var taken := TakenByReceiver(p, st.receiver);
            taken + st'.toReceiver + LeftAtSender(p, st') == taken + st.toReceiver + LeftAtSender(p, st)
  {
    hide Frame, TakenByReceiver, Blob, Forth;
    var taken, left := TakenByReceiver(p, st.receiver), st.sender.left;
    if st.sender.ReturningKey? {
      var whole := left + Frame(Blob(p));
      SendKeeps(taken, st.toReceiver, whole, n);
      assert whole[..n] == left[..n] && whole[n..] == left[n..] + Frame(Blob(p));
    } else {
      SendKeeps(taken, st.toReceiver, left, n);
    }
  }

  lemma SenderReadsKeeps(p: Setup, st: State, n: nat)
    requires Valid(p) && Inv(p, st) && Step(p, st, SenderReads(n)).Some?
    ensures Inv(p, Step(p, st, SenderReads(n)).value)
  {
    SetupFacts(p);
    assert Frame(ReceiverPem(p)) + [] == Frame(ReceiverPem(p));
    ReadKeeps(st.sender.got, st.toSender, LeftAtReceiver(p, st), n, ReceiverPem(p), []);
    assert st.sender.got + st.toSender == (st.sender.got + st.toSender[..n]) + st.toSender[n..];
  }

  lemma ReceiverReadsKeeps(p: Setup, st: State, n: nat)
    requires Valid(p) && Inv(p, st) && Step(p, st, ReceiverReads(n)).Some?
    ensures Inv(p, Step(p, st, ReceiverReads(n)).value)
  {
    SetupFacts(p);
    var got, left := st.receiver.got, LeftAtSender(p, st);
    ReadMovesOn(p, st, n);
    if st.receiver.AwaitingKey? {
      ReadKeeps(got, st.toReceiver, left, n, SenderPem(p), Frame(Blob(p)));
    } else {
      CancelPrefix(Frame(SenderPem(p)), got, st.toReceiver, left, Frame(Blob(p)));
      assert Frame(Blob(p)) + [] == Frame(Blob(p));
      ReadKeeps(got, st.toReceiver, left, n, Blob(p), []);
      CancelPrefix(Frame(SenderPem(p)), got + st.toReceiver[..n], st.toReceiver[n..], left, Frame(Blob(p)));
    }
  }

  /** A read moves bytes from the stream to the receiver and changes nothing else. */
  lemma ReadMovesOn(p: Setup, st: State, n: nat)
    requires Step(p, st, ReceiverReads(n)).Some?
    ensures var st' := Step(p, st, ReceiverReads(n)).value;
            && TakenByReceiver(p, st'.receiver) + st'.toReceiver == TakenByReceiver(p, st.receiver) + st.toReceiver
            && LeftAtSender(p, st') == LeftAtSender(p, st)
  {
    hide Frame, Need, ReceiverPem, SenderPem, Blob;
    assert st.toReceiver == st.toReceiver[..n] + st.toReceiver[n..];
  }

  lemma KeyArrives(p: Setup, st: State)
    requires Valid(p) && Inv(p, st) && Step(p, st, ReceiverGoesOn).Some? && st.receiver.AwaitingKey?
    ensures Inv(p, Step(p, st, ReceiverGoesOn).value)
  {
    hide Announced, Decrypt, Encrypt, Lawful, DeriveKey, Need, Complete, Frame, BackStream;
    SetupFacts(p);
    var left, blob := LeftAtSender(p, st), Frame(Blob(p));
    CompleteFrame(st.receiver.got, st.toReceiver, left, SenderPem(p), blob);
    assert Frame(SenderPem(p)) + [] == Frame(SenderPem(p));
    KeepsBack(p, st, Step(p, st, ReceiverGoesOn).value);
  }

  lemma BlobArrives(p: Setup, st: State)
    requires Valid(p) && Inv(p, st) && Step(p, st, ReceiverGoesOn).Some? && st.receiver.AwaitingData?
    ensures Inv(p, Step(p, st, ReceiverGoesOn).value)
  {
    hide Announced, Decrypt, Encrypt, Lawful, DeriveKey, Need, Complete, Frame, BackStream;
    SetupFacts(p);
    var got, left, blob := st.receiver.got, LeftAtSender(p, st), Frame(Blob(p));
    CancelPrefix(Frame(SenderPem(p)), got, st.toReceiver, left, blob);
    assert blob + [] == blob;
    CompleteFrame(got, st.toReceiver, left, Blob(p), []);
    KeepsBack(p, st, Step(p, st, ReceiverGoesOn).value);
  }

  /** A receiver that is done sending its key leaves the stream to the sender as it is. */
  lemma KeepsBack(p: Setup, st: State, st': State)
    requires BackStream(p, st) && !st.receiver.SendingKey? && !st.receiver.Failed? && !st'.receiver.SendingKey?
    requires st'.sender == st.sender && st'.toSender == st.toSender
    ensures BackStream(p, st')
  {
    hide Frame, ReceiverPem;
    if !st.sender.Aborted? {
      var out := TakenBySender(p, st.sender) + st.toSender;
      assert out + [] == out;
    }
  }

  lemma ReceiverGoesOnKeeps(p: Setup, st: State)
    requires Valid(p) && Inv(p, st) && Step(p, st, ReceiverGoesOn).Some?
    ensures Inv(p, Step(p, st, ReceiverGoesOn).value)
  {
    hide Need, Complete, Frame, Lawful, Decrypt, DeriveKey;
    if st.receiver.AwaitingKey? {
      KeyArrives(p, st);
    } else if st.receiver.AwaitingData? {
      BlobArrives(p, st);
    }
  }

  lemma SenderGoesOnKeeps(p: Setup, st: State)
    requires Valid(p) && Inv(p, st) && Step(p, st, SenderGoesOn).Some?
    ensures Inv(p, Step(p, st, SenderGoesOn).value)
  {
    SetupFacts(p);
    match st.sender
    case WaitingKey(got) =>
      assert Frame(ReceiverPem(p)) + [] == Frame(ReceiverPem(p));
      CompleteFrame(got, st.toSender, LeftAtReceiver(p, st), ReceiverPem(p), []);
    case ReturningKey(pem, left) =>
      assert [] + Frame(Blob(p)) == Frame(Blob(p));
    case _ =>
  }

  /** A party that stops leaves the rest of its stream unsent. */
  lemma StopLeavesRest(whole: seq<byte>, out: seq<byte>, left: seq<byte>)
    requires out + left == whole
    ensures Rest(whole, out) == left
  {
  }

  lemma ReceiverGivesUpKeeps(p: Setup, st: State)
    requires Inv(p, st) && Step(p, st, ReceiverGivesUp).Some?
    ensures Inv(p, Step(p, st, ReceiverGivesUp).value)
  {
    if !st.sender.Aborted? {
      StopLeavesRest(Frame(ReceiverPem(p)), TakenBySender(p, st.sender) + st.toSender, st.receiver.left);
    }
  }

  lemma SenderGivesUpKeeps(p: Setup, st: State)
    requires Inv(p, st) && Step(p, st, SenderGivesUp).Some?
    ensures Inv(p, Step(p, st, SenderGivesUp).value)
  {
    hide Need, Encrypt, Announced, LengthBytes;
    LengthSize(Announced(SenderPem(p)));
    LengthSize(Announced(Blob(p)));
    if !st.receiver.Failed? {
      StopLeavesRest(Forth(p), TakenByReceiver(p, st.receiver) + st.toReceiver, LeftAtSender(p, st));
    }
  }

  /** What a sender that completed has sent is all the receiver needs. */
  lemma NothingCutOff(p: Setup, st: State)
    requires Valid(p) && Inv(p, st) && st.sender.Completed?
    ensures !ReceiverStranded(st)
  {
    if st.receiver.SendingKey? {
      ReceiverStarts(p, st);
    } else if (st.receiver.AwaitingKey? || st.receiver.AwaitingData?) && Need(st.receiver.got) != 0 {
      ReceiverNotStarved(p, st);
    }
  }

  /** The receiver is cut off only by a sender that had its own reason to stop. */
  lemma ReceiverCutOffKeeps(p: Setup, st: State)
    requires Valid(p) && Inv(p, st) && Step(p, st, ReceiverCutOff).Some?
    ensures Inv(p, Step(p, st, ReceiverCutOff).value)
  {
    if !st.sender.Aborted? {
      NothingCutOff(p, st);
    }
  }

  /** A receiver that needs more bytes finds them under way or unsent. */
  lemma ReceiverNotStarved(p: Setup, st: State)
    requires Valid(p) && Inv(p, st) && (st.receiver.AwaitingKey? || st.receiver.AwaitingData?)
    requires Need(st.receiver.got) != 0
    ensures st.toReceiver + LeftAtSender(p, st) != []
  {
    SetupFacts(p);
    var got, left := st.receiver.got, LeftAtSender(p, st);
    if st.receiver.AwaitingKey? {
      IncompleteFrame(got, st.toReceiver, left, SenderPem(p), Frame(Blob(p)));
    } else {
      CancelPrefix(Frame(SenderPem(p)), got, st.toReceiver, left, Frame(Blob(p)));
      assert Frame(Blob(p)) + [] == Frame(Blob(p));
      IncompleteFrame(got, st.toReceiver, left, Blob(p), []);
    }
  }

  /** A receiver that finished has taken everything, unless too little was announced. */
  lemma NothingLeft(p: Setup, st: State)
    requires Valid(p) && Inv(p, st) && st.receiver.Finished? && !CutShort(p)
    ensures !SenderStranded(st)
  {
    SetupFacts(p);
    assert |Frame(Blob(p))| == 4 + |Blob(p)|;
    assert |Forth(p)| + |st.toReceiver| + |LeftAtSender(p, st)| == |Forth(p)|;
  }

  /** The sender is cut off only by a receiver that had its own reason to stop. */
  lemma SenderCutOffKeeps(p: Setup, st: State)
    requires Valid(p) && Inv(p, st) && Step(p, st, SenderCutOff).Some?
    ensures Inv(p, Step(p, st, SenderCutOff).value)
  {
    if st.receiver.Finished? {
      if !CutShort(p) {
        NothingLeft(p, st);
      }
      StopLeavesRest(Forth(p), TakenByReceiver(p, st.receiver) + st.toReceiver, LeftAtSender(p, st));
    }
  }

  lemma StepKeepsInv(p: Setup, st: State, move: Move)
    requires Valid(p) && Inv(p, st) && Step(p, st, move).Some?
    ensures Inv(p, Step(p, st, move).value)
  {
    hide Inv, Step;
    match move
    case ReceiverSends(n) => ReceiverSendsKeeps(p, st, n);
    case ReceiverReads(n) => ReceiverReadsKeeps(p, st, n);
    case ReceiverGoesOn => ReceiverGoesOnKeeps(p, st);
    case ReceiverGivesUp => ReceiverGivesUpKeeps(p, st);
    case ReceiverCutOff => ReceiverCutOffKeeps(p, st);
    case SenderSends(n) => SenderSendsKeeps(p, st, n);
    case SenderReads(n) => SenderReadsKeeps(p, st, n);
    case SenderGoesOn => SenderGoesOnKeeps(p, st);
    case SenderGivesUp => SenderGivesUpKeeps(p, st);
    case SenderCutOff => SenderCutOffKeeps(p, st);
  }

  lemma {:induction false} RunKeepsInv(p: Setup, moves: seq<Move>)
    requires Valid(p) && Run(p, moves).Some?
    ensures Inv(p, Run(p, moves).value)
  {
    if moves == [] {
      assert [] + [] + Forth(p) == Forth(p);
      assert [] + [] + Frame(ReceiverPem(p)) == Frame(ReceiverPem(p));
    } else {
      hide Inv, Step;
      RunKeepsInv(p, moves[..|moves| - 1]);
      StepKeepsInv(p, Run(p, moves[..|moves| - 1]).value, moves[|moves| - 1]);
    }
  }

  // ---------------------------------------------------------------- the session's promises

  predicate GivesUp(move: Move) {
    move.ReceiverGivesUp? || move.SenderGivesUp?
  }

  /** Some send of a length came back short. */
  predicate Split(moves: seq<Move>) {
    exists k :: 0 <= k < |moves| && GivesUp(moves[k])
  }

  lemma {:induction false} SplitRecorded(p: Setup, moves: seq<Move>)
    requires Run(p, moves).Some?
    ensures Run(p, moves).value.split <==> Split(moves)
  {
    hide Step;
    if moves != [] {
      var n := |moves| - 1;
      SplitRecorded(p, moves[..n]);
      StepSplit(p, Run(p, moves[..n]).value, moves[n]);
      if Split(moves[..n]) {
        var k :| 0 <= k < n && GivesUp(moves[..n][k]);
        assert GivesUp(moves[k]);
      }
    }
  }

  lemma StepSplit(p: Setup, st: State, move: Move)
    requires Step(p, st, move).Some?
    ensures Step(p, st, move).value.split <==> st.split || GivesUp(move)
  {
    hide Need, ReceiverNext, SenderNext, LengthSplit;
  }

  /** A split length is always possible: one byte of it goes out and the receiver gives up. */
  lemma SplitHappens(p: Setup)
    requires p.capacity >= 1
    ensures var moves := [ReceiverSends(1), ReceiverGivesUp];
            Run(p, moves).Some? && Run(p, moves).value.receiver.Failed? && Split(moves)
  {
    var moves := [ReceiverSends(1), ReceiverGivesUp];
    assert moves[..1] == [ReceiverSends(1)] && [ReceiverSends(1)][..0] == [];
    LengthSize(Announced(ReceiverPem(p)));
    assert Run(p, []) == Some(Initial(p));
    assert Run(p, [ReceiverSends(1)]) == Step(p, Initial(p), ReceiverSends(1));
    assert GivesUp(moves[1]);
  }

  /** In every run, for messages of every length: both parties that get as far derive the same key,
      and a receiver that finishes has what it makes of the sender's last frame, which is exactly
      the message unless its frame announced too little. A party fails only for a message that is
      refused or announced too short, or for a length that was split on sending; and after a split
      neither party finishes. */
  lemma Agreement(p: Setup, moves: seq<Move>)
    requires Valid(p) && Run(p, moves).Some?
    ensures var st := Run(p, moves).value;
            && (st.receiver.Finished? ==>
                  && st.receiver.key == SharedKey(p) && Some(st.receiver.message) == Received(p)
                  && (CutShort(p) || (st.receiver.message == p.message && Fits(p))))
            && (st.receiver.AwaitingData? ==> st.receiver.key == SharedKey(p))
            && (st.sender.SendingData? || st.sender.Completed? ==> st.sender.key == SharedKey(p))
            && (st.receiver.Failed? ==> Received(p).None? || Split(moves))
            && (st.sender.Aborted? ==> Received(p).None? || CutShort(p) || Split(moves))
            && (Split(moves) ==> !st.receiver.Finished? && !st.sender.Completed?)
  {
    hide Run, BackStream, ForthStream, Received, Split;
    RunKeepsInv(p, moves);
    SplitRecorded(p, moves);
    if !CutShort(p) {
      ReceivedWhole(p);
    }
  }

  /** Both parties have ended, well or not. */
  predicate Over(st: State) {
    ReceiverEnded(st.receiver) && SenderEnded(st.sender)
  }

  /** The receiver has the sender's message under the key both have. */
  predicate Delivered(p: Setup, st: State) {
    st.receiver == Finished(SharedKey(p), p.message) && st.sender == Completed(SharedKey(p))
  }

  /** The party can make a move other than giving up. */
  ghost predicate CanMove(p: Setup, st: State) {
    exists move :: !GivesUp(move) && Step(p, st, move).Some?
  }

  lemma Moves(p: Setup, st: State, move: Move)
    requires !GivesUp(move) && Step(p, st, move).Some?
    ensures CanMove(p, st)
  {
  }

  /** A receiver that has not ended can move, or the sender has not ended and is the one to move. */
  lemma ReceiverMoves(p: Setup, st: State)
    requires Valid(p) && Inv(p, st) && !ReceiverEnded(st.receiver) && !st.sender.WaitingKey?
    ensures CanMove(p, st)
  {
    hide Frame, ReadLength, DeriveKey, Decrypt, Encrypt, Inv, Lawful, Complete, CanMove;
    if st.receiver.SendingKey? {
      if st.receiver.left == [] {
        Moves(p, st, ReceiverGoesOn);
      } else if st.sender.Aborted? {
        Moves(p, st, ReceiverCutOff);
      } else {
        ReceiverStarts(p, st);
      }
    } else if Need(st.receiver.got) == 0 {
      Moves(p, st, ReceiverGoesOn);
    } else if st.toReceiver != [] {
      Moves(p, st, ReceiverReads(1));
    } else if SenderEnded(st.sender) {
      Moves(p, st, ReceiverCutOff);
    } else if st.sender.left == [] {
      Moves(p, st, SenderGoesOn);
    } else {
      Moves(p, st, SenderSends(1));
    }
  }

  /** Once the sender has the receiver's key, the receiver has sent all of it. */
  lemma ReceiverStarts(p: Setup, st: State)
    requires Inv(p, st) && !st.sender.WaitingKey? && !st.sender.Aborted? && st.receiver.SendingKey?
    ensures st.receiver.left == []
  {
    assert |Frame(ReceiverPem(p))| + |st.toSender| + |st.receiver.left| == |Frame(ReceiverPem(p))|;
  }

  /** The sender waits for the receiver's key. */
  lemma SenderMoves(p: Setup, st: State)
    requires Valid(p) && Inv(p, st) && st.sender.WaitingKey?
    ensures CanMove(p, st)
  {
    hide CanMove, Frame, ReadLength, DeriveKey, Decrypt, Encrypt, Inv, Lawful, Complete;
    if Need(st.sender.got) == 0 {
      Moves(p, st, SenderGoesOn);
    } else if st.toSender != [] {
      Moves(p, st, SenderReads(1));
    } else if ReceiverEnded(st.receiver) {
      Moves(p, st, SenderCutOff);
    } else {
      KeyToCome(p, st);
      Moves(p, st, ReceiverSends(1));
    }
  }

  /** While the sender needs more of the key and none is under way, the receiver has it. */
  lemma KeyToCome(p: Setup, st: State)
    requires Valid(p) && Inv(p, st) && st.sender.WaitingKey? && !ReceiverEnded(st.receiver)
    requires Need(st.sender.got) != 0 && st.toSender == []
    ensures st.receiver.SendingKey? && st.receiver.left != []
  {
    hide Need, Lawful, ForthStream, PartiesOk, SplitOk;
    SetupFacts(p);
    assert Frame(ReceiverPem(p)) + [] == Frame(ReceiverPem(p));
    IncompleteFrame(st.sender.got, st.toSender, LeftAtReceiver(p, st), ReceiverPem(p), []);
  }

  /** No reachable state is stuck before both parties have ended: some party can move without giving
      up on a length. This holds for messages of every length and even with one-byte buffers, and a
      party that stops early does not leave the other hanging. */
  lemma NoDeadlock(p: Setup, moves: seq<Move>)
    requires Valid(p) && Run(p, moves).Some? && !Over(Run(p, moves).value)
    ensures exists move :: !GivesUp(move) && Step(p, Run(p, moves).value, move).Some?
  {
    hide Run;
    RunKeepsInv(p, moves);
    var st := Run(p, moves).value;
    if st.sender.WaitingKey? {
      SenderMoves(p, st);
    } else if !ReceiverEnded(st.receiver) {
      ReceiverMoves(p, st);
    } else if st.sender.left == [] {
      Moves(p, st, SenderGoesOn);
    } else {
      Moves(p, st, SenderCutOff);
    }
  }

  // ---------------------------------------------------------------- termination

  function ReceiverWork(p: Setup, r: Receiver): nat {
    match r
    case SendingKey(left) => 2 * |left| + 3
    case AwaitingKey(_) => 2
    case AwaitingData(_, _) => 1
    case Finished(_, _) => 0
    case Failed => 0
  }

  function SenderWork(p: Setup, s: Sender): nat {
    var blob := 4 + |p.message| + IV_SIZE + TAG_SIZE;
    match s
    case WaitingKey(_) => 2 * (|Frame(SenderPem(p))| + blob) + 3
    case ReturningKey(_, left) => 2 * (|left| + blob) + 2
    case SendingData(_, left) => 2 * |left| + 1
    case Completed(_) => 0
    case Aborted => 0
  }

  /** Bytes still to send count twice, bytes under way once, and each protocol step once. */
  function Work(p: Setup, st: State): nat {
    ReceiverWork(p, st.receiver) + SenderWork(p, st.sender) + |st.toSender| + |st.toReceiver|
  }

  lemma BlobWork(p: Setup, key: seq<byte>)
    requires Valid(p)
    ensures |Frame(Encrypt(p.suite, key, p.iv, p.message))| == 4 + |p.message| + IV_SIZE + TAG_SIZE
  {
    DecryptEncrypt(p.suite, key, p.iv, p.message);
    LengthSize(Announced(Encrypt(p.suite, key, p.iv, p.message)));
  }

  lemma StepWorks(p: Setup, st: State, move: Move)
    requires Valid(p) && Step(p, st, move).Some?
    ensures Work(p, Step(p, st, move).value) < Work(p, st)
  {
    hide Encrypt, Lawful, Frame, Need, Complete, Decrypt;
    if st.sender.ReturningKey? && DeriveKey(p.suite, p.senderSecret, st.sender.peerPem).Some? {
      BlobWork(p, DeriveKey(p.suite, p.senderSecret, st.sender.peerPem).value);
    }
  }

  /** Every run is finite: it has no more moves than the work there was to do. */
  lemma {:induction false} RunsAreFinite(p: Setup, moves: seq<Move>)
    requires Valid(p) && Run(p, moves).Some?
    ensures |moves| + Work(p, Run(p, moves).value) <= Work(p, Initial(p))
  {
    if moves != [] {
      hide Work, Step;
      RunsAreFinite(p, moves[..|moves| - 1]);
      StepWorks(p, Run(p, moves[..|moves| - 1]).value, moves[|moves| - 1]);
    }
  }

  /** So every run continued until no party can move, except perhaps to give up on a length, has
      brought both parties to an end, and it has delivered the message exactly when that fits and
      no length was split. */
  lemma MaximalRunDelivers(p: Setup, moves: seq<Move>)
    requires Valid(p) && Run(p, moves).Some?
    requires forall move :: !GivesUp(move) ==> Step(p, Run(p, moves).value, move).None?
    ensures Over(Run(p, moves).value)
    ensures !CutShort(p) ==> (Delivered(p, Run(p, moves).value) <==> Fits(p) && !Split(moves))
  {
    hide Run, Step, Split, Received;
    Agreement(p, moves);
    if !Over(Run(p, moves).value) {
      NoDeadlock(p, moves);
    }
    if !CutShort(p) {
      ReceivedWhole(p);
    }
  }

  /** And delivery is always within reach: every run of a session whose message fits, as long as no
      length was split, can be continued to the delivery without splitting one. */
  lemma {:induction false} CanDeliver(p: Setup, moves: seq<Move>) returns (more: seq<Move>)
    requires Valid(p) && Fits(p) && Run(p, moves).Some? && !Split(moves)
    ensures Run(p, moves + more).Some? && !Split(moves + more) && Delivered(p, Run(p, moves + more).value)
    decreases Work(p, Run(p, moves).value)
  {
    hide Run, Step, Work;
    var st := Run(p, moves).value;
    if Over(st) {
      more := [];
      assert moves + more == moves;
      Agreement(p, moves);
      ReceivedWhole(p);
    } else {
      NoDeadlock(p, moves);
      var move :| !GivesUp(move) && Step(p, st, move).Some?;
      OneMore(p, moves, move);
      StepWorks(p, st, move);
      var rest := CanDeliver(p, moves + [move]);
      more := [move] + rest;
      assert moves + [move] + rest == moves + more;
    }
  }

  lemma OneMore(p: Setup, moves: seq<Move>, move: Move)
    requires Run(p, moves).Some?
    ensures Run(p, moves + [move]) == Step(p, Run(p, moves).value, move)
    ensures Split(moves + [move]) <==> Split(moves) || GivesUp(move)
  {
    hide Step;
    var longer := moves + [move];
    assert longer[..|moves|] == moves && longer[|moves|] == move;
    if Split(moves) {
      var k :| 0 <= k < |moves| && GivesUp(moves[k]);
      assert GivesUp(longer[k]);
    }
  }
}
