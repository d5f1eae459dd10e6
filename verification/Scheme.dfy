/** What the node needs of transactions, as a record of functions, and the instance the program
    uses. The node's laws are proved for every lawful scheme, so they rest on nothing else. */
module TxScheme {
  import opened Common
  import opened LedgerSpec
  import opened Transaction
  import Hex

  datatype Scheme = Scheme(
    parseAddress: string -> Option<Address>,
    encode: SignedTransaction -> seq<byte>,
    decode: seq<byte> -> Option<SignedTransaction>,
    id: SignedTransaction -> string,
    verified: SignedTransaction -> bool,
    address: Wallet -> Address,
    publicKey: Wallet -> PublicKey,
    signature: (Wallet, Unsigned) -> Signature)

  /** A new transaction of a wallet. */
  function Build(x: Scheme, w: Wallet, to: Address, amount: u64, nonce: u64, now: u64): SignedTransaction {
    var u := Unsigned(x.address(w), to, amount, nonce, now);
    SignedTransaction(u, x.publicKey(w), x.signature(w, u))
  }

  /** Ids tell transactions apart, decoding inverts encoding, and what a wallet builds verifies. */
  ghost predicate Laws(x: Scheme) {
    && (forall a, b :: x.id(a) == x.id(b) ==> a == b)
    && (forall tx :: x.decode(x.encode(tx)) == Some(tx))
    && (forall w, to, amount, nonce, now :: x.verified(Build(x, w, to, amount, nonce, now)))
  }

  lemma IdInjective(x: Scheme, a: SignedTransaction, b: SignedTransaction)
    requires Laws(x) && x.id(a) == x.id(b)
    ensures a == b
  {
  }

  /** The scheme of the program: RLP, Keccak ids and Ed25519 signatures. */
  function Zyphra(c: Crypto): Scheme {
    Scheme(
      s => Hex.AddressFromHex(s),
      tx => Encode(tx),
      data => Decode(data),
      tx => TxId(c, tx),
      tx => Verified(c, tx),
      w => AddressOf(c, w),
      (w: Wallet) => c.publicKey(w.secret),
      (w: Wallet, u: Unsigned) => c.sign(w.secret, Digest(c, u)))
  }

  lemma ZyphraBuilds(c: Crypto, w: Wallet, to: Address, amount: u64, nonce: u64, now: u64)
    ensures Build(Zyphra(c), w, to, amount, nonce, now) == Create(c, w, to, amount, nonce, now)
  {
    hide Digest, AddressOf;
  }

  /** The program's scheme is lawful as soon as its primitives are. */
  lemma ZyphraIsLawful(c: Crypto)
    requires Lawful(c)
    ensures Laws(Zyphra(c))
  {
    hide Encode, Decode, TxId, Verified, AddressOf, Digest, Create, Hex.AddressFromHex, Lawful;
    var x := Zyphra(c);
    forall a, b | x.id(a) == x.id(b) ensures a == b {
      TxIdInjective(c, a, b);
    }
    forall tx ensures x.decode(x.encode(tx)) == Some(tx) {
      RoundTrip(tx);
    }
    forall w, to, amount, nonce, now ensures x.verified(Build(x, w, to, amount, nonce, now)) {
      CreatedVerifies(c, w, to, amount, nonce, now);
      ZyphraBuilds(c, w, to, amount, nonce, now);
    }
  }
}
