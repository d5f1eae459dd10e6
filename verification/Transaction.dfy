/** Signed transactions: `zyphra/src/transaction.rs`, with the primitives it calls taken as a
    record of functions and the laws they are relied on for. */
module Transaction {
  import opened Common
  import opened LedgerSpec
  import opened Rlp
  import Hex

  type Bytes32 = k: seq<byte> | |k| == 32 witness seq(32, _ => 0)
  type PublicKey = Bytes32
  type Signature = s: seq<byte> | |s| == 64 witness seq(64, _ => 0)

  /** The unsigned payload. */
  datatype Unsigned = Unsigned(from: Address, to: Address, amount: u64, nonce: u64, timestamp: u64)

  /** The payload with its signature envelope. */
  datatype SignedTransaction = SignedTransaction(body: Unsigned, pubkey: PublicKey, signature: Signature)

  // ---------------------------------------------------------------- wire format

  function NumberItems(amount: u64, nonce: u64, timestamp: u64): seq<byte> {
    EncodeUint(amount) + EncodeUint(nonce) + EncodeUint(timestamp)
  }

  function UnsignedItems(u: Unsigned): seq<byte> {
    EncodeString(u.from) + EncodeString(u.to) + NumberItems(u.amount, u.nonce, u.timestamp)
  }

  function Items(tx: SignedTransaction): seq<byte> {
    UnsignedItems(tx.body) + EncodeString(tx.pubkey) + EncodeString(tx.signature)
  }

  lemma UintLength(n: u64)
    ensures 1 <= |EncodeUint(n)| <= 9
  {
    U64Length(n);
  }

  /** The five-item payload crosses the 55-byte boundary between list forms; the seven-item
      payload is always above it. */
  lemma PayloadLengths(tx: SignedTransaction)
    ensures 45 <= |UnsignedItems(tx.body)| <= 69
    ensures |Items(tx)| == |UnsignedItems(tx.body)| + 99
  {
    UintLength(tx.body.amount);
    UintLength(tx.body.nonce);
    UintLength(tx.body.timestamp);
    assert BigEndian(64) == [64] by { BigEndianExact(64, [64]); }
  }

  function Preimage(u: Unsigned): seq<byte> {
    PayloadLengths(SignedTransaction(u, seq(32, _ => 0), seq(64, _ => 0)));
    EncodeList(UnsignedItems(u))
  }

  function Encode(tx: SignedTransaction): seq<byte> {
    PayloadLengths(tx);
    EncodeList(Items(tx))
  }

  /** A string item of exactly `n` bytes. */
  function ReadFixed(b: seq<byte>, n: nat): Option<(seq<byte>, seq<byte>)> {
    match ReadString(b)
    case None => None
    case Some((p, rest)) => if |p| == n then Some((p, rest)) else None
  }

  lemma FixedExact(b: seq<byte>, p: Bytes, rest: seq<byte>)
    ensures ReadFixed(b, |p|) == Some((p, rest)) <==> b == EncodeString(p) + rest
  {
    StringExact(b, p, rest);
  }

  /** Three `u64` items in a row. */
  function ReadNumbers(b: seq<byte>): Option<(u64, u64, u64, seq<byte>)> {
    match ReadUint(b)
    case None => None
    case Some((amount, b1)) =>
    match ReadUint(b1)
    case None => None
    case Some((nonce, b2)) =>
    match ReadUint(b2)
    case None => None
    case Some((timestamp, b3)) =>
      ReadUintBound(b);
      ReadUintBound(b1);
      ReadUintBound(b2);
      Some((amount, nonce, timestamp, b3))
  }

  lemma ReadNumbersOfItems(x: u64, y: u64, z: u64, rest: seq<byte>)
    ensures ReadNumbers(NumberItems(x, y, z) + rest) == Some((x, y, z, rest))
  {
    var t2 := EncodeUint(z) + rest;
    var t1 := EncodeUint(y) + t2;
    Concat(EncodeUint(x), EncodeUint(y), EncodeUint(z), rest);
    UintExact(EncodeUint(x) + t1, x, t1);
    UintExact(t1, y, t2);
    UintExact(t2, z, rest);
  }

  lemma ItemsOfReadNumbers(b: seq<byte>)
    requires ReadNumbers(b).Some?
    ensures var (x, y, z, rest) := ReadNumbers(b).value; b == NumberItems(x, y, z) + rest
  {
    var (x, y, z, rest) := ReadNumbers(b).value;
    var b1 := ReadUint(b).value.1;
    var b2 := ReadUint(b1).value.1;
    UintExact(b, x, b1);
    UintExact(b1, y, b2);
    UintExact(b2, z, rest);
    Concat(EncodeUint(x), EncodeUint(y), EncodeUint(z), rest);
  }

  function ReadUnsigned(b: seq<byte>): Option<(Unsigned, seq<byte>)> {
    match ReadFixed(b, ADDRESS_LEN)
    case None => None
    case Some((from, b1)) =>
    match ReadFixed(b1, ADDRESS_LEN)
    case None => None
    case Some((to, b2)) =>
    match ReadNumbers(b2)
    case None => None
    case Some((amount, nonce, timestamp, b5)) => Some((Unsigned(from, to, amount, nonce, timestamp), b5))
  }

  /** `SignedTransaction::from_rlp_bytes`: items are read by index, so nothing after the seventh
      item, and nothing after the list, is looked at. */
  function Decode(data: seq<byte>): Option<SignedTransaction> {
    match ReadList(data)
    case None => None
    case Some((payload, _)) =>
    match ReadUnsigned(payload)
    case None => None
    case Some((body, b5)) =>
    match ReadFixed(b5, 32)
    case None => None
    case Some((pubkey, b6)) =>
    match ReadFixed(b6, 64)
    case None => None
    case Some((signature, _)) => Some(SignedTransaction(body, pubkey, signature))
  }

  lemma ReadUnsignedOfItems(u: Unsigned, rest: seq<byte>)
    ensures ReadUnsigned(UnsignedItems(u) + rest) == Some((u, rest))
  {
    var t2 := NumberItems(u.amount, u.nonce, u.timestamp) + rest;
    var t1 := EncodeString(u.to) + t2;
    assert UnsignedItems(u) + rest == EncodeString(u.from) + t1;
    FixedExact(EncodeString(u.from) + t1, u.from, t1);
    FixedExact(t1, u.to, t2);
    ReadNumbersOfItems(u.amount, u.nonce, u.timestamp, rest);
  }

  lemma ItemsOfReadUnsigned(b: seq<byte>)
    requires ReadUnsigned(b).Some?
    ensures b == UnsignedItems(ReadUnsigned(b).value.0) + ReadUnsigned(b).value.1
  {
    var (u, b5) := ReadUnsigned(b).value;
    var b1 := ReadFixed(b, ADDRESS_LEN).value.1;
    var b2 := ReadFixed(b1, ADDRESS_LEN).value.1;
    FixedExact(b, u.from, b1);
    FixedExact(b1, u.to, b2);
    ItemsOfReadNumbers(b2);
    Concat(EncodeString(u.from), EncodeString(u.to), NumberItems(u.amount, u.nonce, u.timestamp), b5);
  }

  lemma Concat(x: seq<byte>, y: seq<byte>, z: seq<byte>, rest: seq<byte>)
    ensures x + (y + (z + rest)) == x + y + z + rest
  {
  }

  /** A wire string of a transaction: its seven items, further bytes in the list, and bytes after it. */
  ghost predicate IsWireOf(data: seq<byte>, tx: SignedTransaction, extra: seq<byte>, trailing: seq<byte>) {
    |Items(tx) + extra| < U64_MODULUS && data == EncodeList(Items(tx) + extra) + trailing
  }

  lemma DecodeOfWire(data: seq<byte>, tx: SignedTransaction, extra: seq<byte>, trailing: seq<byte>)
    requires IsWireOf(data, tx, extra, trailing)
    ensures Decode(data) == Some(tx)
  {
    var b6 := EncodeString(tx.signature) + extra;
    var b5 := EncodeString(tx.pubkey) + b6;
    Concat(UnsignedItems(tx.body), EncodeString(tx.pubkey), EncodeString(tx.signature), extra);
    ListExact(data, Items(tx) + extra, trailing);
    ReadUnsignedOfItems(tx.body, b5);
    FixedExact(b5, tx.pubkey, b6);
    FixedExact(b6, tx.signature, extra);
  }

  lemma WireOfDecode(data: seq<byte>) returns (extra: seq<byte>, trailing: seq<byte>)
    requires Decode(data).Some?
    ensures IsWireOf(data, Decode(data).value, extra, trailing)
  {
    var tx := Decode(data).value;
    var payload := ReadList(data).value.0;
    trailing := ReadList(data).value.1;
    ReadListBound(data);
    ListExact(data, payload, trailing);
    ItemsOfReadUnsigned(payload);
    var b5 := ReadUnsigned(payload).value.1;
    var b6 := ReadFixed(b5, 32).value.1;
    FixedExact(b5, tx.pubkey, b6);
    extra := ReadFixed(b6, 64).value.1;
    FixedExact(b6, tx.signature, extra);
    Concat(UnsignedItems(tx.body), EncodeString(tx.pubkey), EncodeString(tx.signature), extra);
  }

  /** Exactly which byte strings decode to a transaction: its canonical items at the front of a
      list, whatever follows them. There is no second spelling of any item. */
  lemma DecodeExact(data: seq<byte>, tx: SignedTransaction)
    ensures Decode(data) == Some(tx) <==> exists extra, trailing :: IsWireOf(data, tx, extra, trailing)
  {
    if Decode(data) == Some(tx) {
      var extra, trailing := WireOfDecode(data);
    }
    if extra, trailing :| IsWireOf(data, tx, extra, trailing) {
      DecodeOfWire(data, tx, extra, trailing);
    }
  }

  /** Decoding an encoding gives the transaction back. */
  lemma RoundTrip(tx: SignedTransaction)
    ensures Decode(Encode(tx)) == Some(tx)
  {
    PayloadLengths(tx);
    assert Items(tx) + [] == Items(tx) && Encode(tx) + [] == Encode(tx);
    DecodeOfWire(Encode(tx), tx, [], []);
  }

  // ---------------------------------------------------------------- the wire format item by item

  /** The first five items of a list are the unsigned fields: two addresses and three numbers in
      minimal big-endian form. */
  ghost predicate HasUnsignedItems(data: seq<byte>, u: Unsigned) {
    && ItemOf(data, 0) == Some(u.from)
    && ItemOf(data, 1) == Some(u.to)
    && ItemOf(data, 2) == Some(BigEndian(u.amount))
    && ItemOf(data, 3) == Some(BigEndian(u.nonce))
    && ItemOf(data, 4) == Some(BigEndian(u.timestamp))
  }

  /** And the next two are the public key and the signature. */
  ghost predicate HasItems(data: seq<byte>, tx: SignedTransaction) {
    && HasUnsignedItems(data, tx.body)
    && ItemOf(data, 5) == Some(tx.pubkey)
    && ItemOf(data, 6) == Some(tx.signature)
  }

  /** A row of string items, each followed by the rest of the row. */
  ghost predicate Row(tails: seq<seq<byte>>, items: seq<seq<byte>>) {
    && |tails| == |items| + 1
    && forall i :: 0 <= i < |items| ==> ReadString(tails[i]) == Some((items[i], tails[i + 1]))
  }

  lemma {:induction false} RowItems(tails: seq<seq<byte>>, items: seq<seq<byte>>, i: nat)
    requires Row(tails, items) && i < |items|
    ensures ItemAt(tails[0], i) == Some(items[i])
  {
    if i > 0 {
      RowItems(tails[1..], items[1..], i - 1);
    }
  }

  lemma {:induction false} RowOf(b: seq<byte>, n: nat) returns (tails: seq<seq<byte>>, items: seq<seq<byte>>)
    requires n == 0 || ItemAt(b, n - 1).Some?
    ensures Row(tails, items) && tails[0] == b && |items| == n
  {
    if n == 0 {
      tails, items := [b], [];
    } else {
      var (p, rest) := ReadString(b).value;
      var ts, ps := RowOf(rest, n - 1);
      tails, items := [b] + ts, [p] + ps;
    }
  }

  /** Reading the fields one after the other is reading the items of a row. */
  lemma UnsignedRow(b: seq<byte>) returns (tails: seq<seq<byte>>)
    requires ReadUnsigned(b).Some?
    ensures var (u, rest) := ReadUnsigned(b).value;
            && Row(tails, [u.from, u.to, BigEndian(u.amount), BigEndian(u.nonce), BigEndian(u.timestamp)])
            && tails[0] == b && tails[5] == rest
  {
    hide ReadString;
    var u := ReadUnsigned(b).value.0;
    var b1 := ReadFixed(b, ADDRESS_LEN).value.1;
    var b2 := ReadFixed(b1, ADDRESS_LEN).value.1;
    var b3 := ReadUint(b2).value.1;
    var b4 := ReadUint(b3).value.1;
    var b5 := ReadUint(b4).value.1;
    UintByItem(b2, u.amount, b3);
    UintByItem(b3, u.nonce, b4);
    UintByItem(b4, u.timestamp, b5);
    tails := [b, b1, b2, b3, b4, b5];
  }

  lemma UnsignedOfRow(tails: seq<seq<byte>>, items: seq<seq<byte>>, u: Unsigned)
    requires Row(tails, items) && |items| >= 5
    requires items[..5] == [u.from, u.to, BigEndian(u.amount), BigEndian(u.nonce), BigEndian(u.timestamp)]
    ensures ReadUnsigned(tails[0]) == Some((u, tails[5]))
  {
    hide ReadString, ReadUint;
    var first := items[..5];
    assert forall i :: 0 <= i < 5 ==> items[i] == first[i];
    UintByItem(tails[2], u.amount, tails[3]);
    UintByItem(tails[3], u.nonce, tails[4]);
    UintByItem(tails[4], u.timestamp, tails[5]);
    assert ReadFixed(tails[0], ADDRESS_LEN) == Some((u.from, tails[1]));
    assert ReadFixed(tails[1], ADDRESS_LEN) == Some((u.to, tails[2]));
  }

  lemma ItemsOfDecode(data: seq<byte>)
    requires Decode(data).Some?
    ensures HasItems(data, Decode(data).value)
  {
    hide ReadString, ReadUnsigned, ReadList, ItemAt;
    var tx := Decode(data).value;
    var payload := ReadList(data).value.0;
    var ts := UnsignedRow(payload);
    var b6 := ReadFixed(ts[5], 32).value.1;
    var b7 := ReadFixed(b6, 64).value.1;
    var u := tx.body;
    var items := [u.from, u.to, BigEndian(u.amount), BigEndian(u.nonce), BigEndian(u.timestamp)];
    SevenItems(ts, items, b6, b7, tx.pubkey, tx.signature);
  }

  lemma SevenItems(ts: seq<seq<byte>>, items: seq<seq<byte>>, b6: seq<byte>, b7: seq<byte>, p: seq<byte>, q: seq<byte>)
    requires Row(ts, items) && |items| == 5
    requires ReadString(ts[5]) == Some((p, b6)) && ReadString(b6) == Some((q, b7))
    ensures forall i :: 0 <= i < 5 ==> ItemAt(ts[0], i) == Some(items[i])
    ensures ItemAt(ts[0], 5) == Some(p) && ItemAt(ts[0], 6) == Some(q)
  {
    hide ReadString, ItemAt;
    var tails, all := ts + [b6, b7], items + [p, q];
    assert Row(tails, all);
    forall i: nat | i < 7 ensures ItemAt(ts[0], i) == Some(all[i]) {
      RowItems(tails, all, i);
    }
    assert all[5] == p && all[6] == q;
  }

  /** Which byte strings decode to a transaction, by the items alone: those whose items at 0 to 6 are
      its sender, recipient, amount, nonce, timestamp, public key and signature. */
  lemma DecodeByItems(data: seq<byte>, tx: SignedTransaction)
    ensures Decode(data) == Some(tx) <==> HasItems(data, tx)
  {
    hide ReadString, ReadUnsigned, ReadList, ItemAt;
    if Decode(data).Some? {
      ItemsOfDecode(data);
    }
    if HasItems(data, tx) {
      var payload := ReadList(data).value.0;
      var tails, items := RowOf(payload, 7);
      forall i: nat | i < 7 ensures ItemAt(payload, i) == Some(items[i]) {
        RowItems(tails, items, i);
      }
      var u := tx.body;
      assert items[..5] == [u.from, u.to, BigEndian(u.amount), BigEndian(u.nonce), BigEndian(u.timestamp)];
      UnsignedOfRow(tails, items, u);
      assert ReadFixed(tails[5], 32) == Some((tx.pubkey, tails[6]));
      assert ReadFixed(tails[6], 64) == Some((tx.signature, tails[7]));
    }
  }

  /** The items of an encoding, by index. */
  lemma EncodeItems(tx: SignedTransaction)
    ensures HasItems(Encode(tx), tx)
  {
    RoundTrip(tx);
    ItemsOfDecode(Encode(tx));
  }

  lemma ReadPreimage(u: Unsigned)
    ensures ReadList(Preimage(u)).Some? && ReadUnsigned(ReadList(Preimage(u)).value.0) == Some((u, []))
  {
    PayloadLengths(SignedTransaction(u, seq(32, _ => 0), seq(64, _ => 0)));
    assert Preimage(u) + [] == Preimage(u) && UnsignedItems(u) + [] == UnsignedItems(u);
    ListExact(Preimage(u), UnsignedItems(u), []);
    ReadUnsignedOfItems(u, []);
  }

  /** The items of the preimage, by index: the five unsigned fields and no more. */
  lemma PreimageItems(u: Unsigned)
    ensures HasUnsignedItems(Preimage(u), u) && ItemOf(Preimage(u), 5) == None
  {
    hide Preimage, ReadUnsigned, ReadList;
    ReadPreimage(u);
    var payload := ReadList(Preimage(u)).value.0;
    var tails := UnsignedRow(payload);
    var items := [u.from, u.to, BigEndian(u.amount), BigEndian(u.nonce), BigEndian(u.timestamp)];
    forall i: nat | i < 5 ensures ItemAt(payload, i) == Some(items[i]) {
      RowItems(tails, items, i);
    }
    RowEnds(tails, items);
  }

  lemma {:induction false} RowEnds(tails: seq<seq<byte>>, items: seq<seq<byte>>)
    requires Row(tails, items) && tails[|items|] == []
    ensures ItemAt(tails[0], |items|) == None
  {
    if items != [] {
      RowEnds(tails[1..], items[1..]);
    }
  }

  /** The signed preimage determines every field that is signed. */
  lemma PreimageInjective(u: Unsigned, v: Unsigned)
    requires Preimage(u) == Preimage(v)
    ensures u == v
  {
    ReadPreimage(u);
    ReadPreimage(v);
  }

  /** Domain separation: what is signed is never itself a transaction, so in particular no
      preimage is the encoding of one. */
  lemma PreimageIsNoTransaction(u: Unsigned)
    ensures Decode(Preimage(u)).None?
    ensures forall tx :: Preimage(u) != Encode(tx)
  {
    PayloadLengths(SignedTransaction(u, seq(32, _ => 0), seq(64, _ => 0)));
    if Decode(Preimage(u)).Some? {
      var tx := Decode(Preimage(u)).value;
      var extra, trailing := WireOfDecode(Preimage(u));
      PayloadLengths(tx);
    }
    forall tx ensures Preimage(u) != Encode(tx) {
      RoundTrip(tx);
    }
  }

  lemma StreamOfUnsigned(p: seq<byte>, u: Unsigned)
    ensures p + EncodeString(u.from) + EncodeString(u.to) + EncodeUint(u.amount) + EncodeUint(u.nonce) +
            EncodeUint(u.timestamp)
            == p + UnsignedItems(u)
  {
    Concat(p + EncodeString(u.from) + EncodeString(u.to), EncodeUint(u.amount), EncodeUint(u.nonce),
           EncodeUint(u.timestamp));
    Concat(p, EncodeString(u.from), EncodeString(u.to), NumberItems(u.amount, u.nonce, u.timestamp));
  }

  /** The five appends that `rlp_append` and `compute_unsigned_digest` share. */
  method AppendUnsigned(s: Stream, u: Unsigned)
    modifies s
    ensures s.payload == old(s.payload) + UnsignedItems(u) && s.appended == old(s.appended) + 5
  {
    s.AppendBytes(u.from);
    s.AppendBytes(u.to);
    s.AppendUint(u.amount);
    s.AppendUint(u.nonce);
    s.AppendUint(u.timestamp);
    StreamOfUnsigned(old(s.payload), u);
  }

  /** `rlp_append`: the stream builds exactly the encoding. */
  method RlpAppend(tx: SignedTransaction) returns (bytes: seq<byte>)
    ensures bytes == Encode(tx)
    ensures Decode(bytes) == Some(tx) && HasItems(bytes, tx)
  {
    var s := new Stream(7);
    AppendUnsigned(s, tx.body);
    assert s.payload == UnsignedItems(tx.body);
    s.AppendBytes(tx.pubkey);
    s.AppendBytes(tx.signature);
    PayloadLengths(tx);
    bytes := s.Out();
    RoundTrip(tx);
    EncodeItems(tx);
  }

  /** The stream part of `compute_unsigned_digest`. */
  method UnsignedStream(u: Unsigned) returns (bytes: seq<byte>)
    ensures bytes == Preimage(u)
    ensures ReadList(bytes).Some? && ReadUnsigned(ReadList(bytes).value.0) == Some((u, []))
    ensures HasUnsignedItems(bytes, u) && ItemOf(bytes, 5) == None
  {
    var s := new Stream(5);
    AppendUnsigned(s, u);
    assert s.payload == UnsignedItems(u);
    PayloadLengths(SignedTransaction(u, seq(32, _ => 0), seq(64, _ => 0)));
    bytes := s.Out();
    ReadPreimage(u);
    PreimageItems(u);
  }

  // ---------------------------------------------------------------- signing

  /** The primitives: Keccak-256, SHA-256 and Ed25519. Digests are byte strings of no fixed
      length, so that a collision-free Keccak is not a contradiction. */
  datatype Crypto = Crypto(
    keccak: seq<byte> -> seq<byte>,
    sha256: seq<byte> -> Bytes32,
    publicKey: seq<byte> -> PublicKey,
    sign: (seq<byte>, seq<byte>) -> Signature,
    validKey: PublicKey -> bool,
    checkSignature: (PublicKey, seq<byte>, Signature) -> bool)

  /** Keccak has no collisions, and a signature made with a key verifies under its public key. */
  ghost predicate Lawful(c: Crypto) {
    && (forall x, y :: c.keccak(x) == c.keccak(y) ==> x == y)
    && (forall secret :: c.validKey(c.publicKey(secret)))
    && (forall secret, m :: c.checkSignature(c.publicKey(secret), m, c.sign(secret, m)))
  }

  /** The laws are consistent: some primitives satisfy them. */
  lemma LawsAreSatisfiable() returns (c: Crypto)
    ensures Lawful(c)
  {
    var key: PublicKey := seq(32, _ => 0);
    var sig: Signature := seq(64, _ => 0);
    c := Crypto(x => x, _ => key, _ => key, (_, _) => sig, _ => true, (_, _, _) => true);
  }

  function DeriveAddress(c: Crypto, key: PublicKey): Address {
    c.sha256(key)[12..32]
  }

  function Digest(c: Crypto, u: Unsigned): seq<byte> {
    c.keccak(Preimage(u))
  }

  /** A wallet: its secret key and the address derived from it. */
  datatype Wallet = Wallet(secret: seq<byte>)

  function AddressOf(c: Crypto, w: Wallet): Address {
    DeriveAddress(c, c.publicKey(w.secret))
  }

  function Create(c: Crypto, w: Wallet, to: Address, amount: u64, nonce: u64, now: u64): SignedTransaction {
    var u := Unsigned(AddressOf(c, w), to, amount, nonce, now);
    SignedTransaction(u, c.publicKey(w.secret), c.sign(w.secret, Digest(c, u)))
  }

  /** The address is the last 20 of the 32 bytes of the key's hash. */
  lemma AddressBytes(c: Crypto, key: PublicKey, i: nat)
    requires i < 20
    ensures DeriveAddress(c, key)[i] == c.sha256(key)[12 + i]
  {
  }

  /** What is signed is the Keccak hash of a string whose five items are the signed fields. */
  lemma SignedString(c: Crypto, w: Wallet, to: Address, amount: u64, nonce: u64, now: u64) returns (bytes: seq<byte>)
    ensures var tx := Create(c, w, to, amount, nonce, now);
            && tx.body == Unsigned(AddressOf(c, w), to, amount, nonce, now) && tx.pubkey == c.publicKey(w.secret)
            && HasUnsignedItems(bytes, tx.body) && ItemOf(bytes, 5) == None
            && tx.signature == c.sign(w.secret, c.keccak(bytes))
  {
    var u := Unsigned(AddressOf(c, w), to, amount, nonce, now);
    PreimageItems(u);
    bytes := Preimage(u);
  }

  predicate Verified(c: Crypto, tx: SignedTransaction) {
    && c.validKey(tx.pubkey)
    && DeriveAddress(c, tx.pubkey) == tx.body.from
    && c.checkSignature(tx.pubkey, Digest(c, tx.body), tx.signature)
  }

  /** What verification asks for, in terms of the wire format and the hashes: a usable key, the
      sender's address in the last 20 bytes of the key's hash, and a signature of the hash of the
      string whose five items are the signed fields. */
  lemma VerifiedExact(c: Crypto, tx: SignedTransaction) returns (bytes: seq<byte>)
    ensures HasUnsignedItems(bytes, tx.body) && ItemOf(bytes, 5) == None
    ensures Verified(c, tx) <==>
              && c.validKey(tx.pubkey)
              && (forall i :: 0 <= i < 20 ==> tx.body.from[i] == c.sha256(tx.pubkey)[12 + i])
              && c.checkSignature(tx.pubkey, c.keccak(bytes), tx.signature)
  {
    PreimageItems(tx.body);
    bytes := Preimage(tx.body);
    hide Preimage, HasUnsignedItems;
    var derived := DeriveAddress(c, tx.pubkey);
    forall i: nat | i < 20 ensures derived[i] == c.sha256(tx.pubkey)[12 + i] {
      AddressBytes(c, tx.pubkey, i);
    }
    if forall i :: 0 <= i < 20 ==> tx.body.from[i] == c.sha256(tx.pubkey)[12 + i] {
      assert forall i :: 0 <= i < 20 ==> derived[i] == tx.body.from[i];
      assert derived == tx.body.from;
    }
  }

  lemma CreatedVerifies(c: Crypto, w: Wallet, to: Address, amount: u64, nonce: u64, now: u64)
    requires Lawful(c)
    ensures Verified(c, Create(c, w, to, amount, nonce, now))
  {
  }

  /** A transaction a wallet creates still verifies once it has crossed the wire, whatever was
      appended to it there. */
  lemma CreatedVerifiesOverWire(c: Crypto, w: Wallet, to: Address, amount: u64, nonce: u64, now: u64,
                                data: seq<byte>, extra: seq<byte>, trailing: seq<byte>)
    requires Lawful(c) && IsWireOf(data, Create(c, w, to, amount, nonce, now), extra, trailing)
    ensures Decode(data).Some? && Verified(c, Decode(data).value)
  {
    hide Decode, IsWireOf;
    CreatedVerifies(c, w, to, amount, nonce, now);
    DecodeOfWire(data, Create(c, w, to, amount, nonce, now), extra, trailing);
  }

  /** A signature made for one digest verifies for another under the same key. */
  predicate Forged(c: Crypto, secret: seq<byte>, made: seq<byte>, other: seq<byte>) {
    made != other && c.checkSignature(c.publicKey(secret), other, c.sign(secret, made))
  }

  /** Changing any signed field of a created transaction leaves one that verifies exactly if the
      sender is still the same and the signature is a forgery for the new digest. */
  lemma TamperNeedsForgery(c: Crypto, w: Wallet, to: Address, amount: u64, nonce: u64, now: u64, body: Unsigned)
    requires Lawful(c) && body != Create(c, w, to, amount, nonce, now).body
    ensures var tx := Create(c, w, to, amount, nonce, now);
            Verified(c, tx.(body := body)) <==>
            body.from == tx.body.from && Forged(c, w.secret, Digest(c, tx.body), Digest(c, body))
  {
    var tx := Create(c, w, to, amount, nonce, now);
    if Digest(c, body) == Digest(c, tx.body) {
      assert Preimage(body) == Preimage(tx.body);
      PreimageInjective(body, tx.body);
    }
  }

  /** The global transaction id. */
  function TxId(c: Crypto, tx: SignedTransaction): string {
    Hex.Render(c.keccak(Encode(tx)))
  }

  /** The id is `0x` and the hexadecimal of the hash of the encoding. */
  lemma TxIdIsHash(c: Crypto, tx: SignedTransaction)
    ensures TxId(c, tx)[..2] == "0x" && Hex.Decode(TxId(c, tx)[2..]) == Some(c.keccak(Encode(tx)))
  {
    hide Encode;
    var hash := c.keccak(Encode(tx));
    Hex.EncodeIsLower(hash);
    Hex.DecodeExact(Hex.Encode(hash), hash);
    assert TxId(c, tx)[2..] == Hex.Encode(hash);
  }

  lemma TxIdInjective(c: Crypto, x: SignedTransaction, y: SignedTransaction)
    requires Lawful(c) && TxId(c, x) == TxId(c, y)
    ensures x == y
  {
    Hex.RenderInjective(c.keccak(Encode(x)), c.keccak(Encode(y)));
    RoundTrip(x);
    RoundTrip(y);
  }

  /** The id is a function of the decoded fields alone: two wire strings have the same id exactly
      when they decode to the same transaction, however each of them was padded. */
  lemma SameIdIffSameTransaction(c: Crypto, data: seq<byte>, data': seq<byte>)
    requires Lawful(c) && Decode(data).Some? && Decode(data').Some?
    ensures TxId(c, Decode(data).value) == TxId(c, Decode(data').value) <==> Decode(data) == Decode(data')
  {
    if TxId(c, Decode(data).value) == TxId(c, Decode(data').value) {
      TxIdInjective(c, Decode(data).value, Decode(data').value);
    }
  }
}
