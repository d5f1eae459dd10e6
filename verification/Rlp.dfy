/** Recursive Length Prefix, Appendix B of the Ethereum Yellow Paper: the encoder, and a reader
    that takes one item off the front of a byte string. Every reader is the exact inverse of its
    encoder: it succeeds on `b` exactly when `b` starts with a canonical encoding. */
module Rlp {
  import opened Common

  // ---------------------------------------------------------------- big-endian integers

  function BigEndian(n: nat): seq<byte> {
    if n == 0 then [] else BigEndian(n / 256) + [n % 256]
  }

  function FromBigEndian(s: seq<byte>): nat {
    if s == [] then 0 else 256 * FromBigEndian(s[..|s| - 1]) + s[|s| - 1]
  }

  predicate NoLeadingZero(s: seq<byte>) {
    s == [] || s[0] != 0
  }

  lemma {:induction false} FromBigEndianPositive(s: seq<byte>)
    requires s != [] && s[0] != 0
    ensures FromBigEndian(s) > 0
  {
    if |s| > 1 {
      FromBigEndianPositive(s[..|s| - 1]);
    }
  }

  /** The minimal big-endian form of `n` is the only zero-free spelling of it. */
  lemma {:induction false} BigEndianExact(n: nat, s: seq<byte>)
    ensures s == BigEndian(n) <==> FromBigEndian(s) == n && NoLeadingZero(s)
    decreases |s|
  {
    if s == [] {
      assert n != 0 ==> |BigEndian(n)| > 0;
    } else {
      var front, last := s[..|s| - 1], s[|s| - 1];
      assert s == front + [last];
      BigEndianExact(n / 256, front);
      if s[0] != 0 {
        FromBigEndianPositive(s);
      }
      if s == BigEndian(n) {
        assert BigEndian(n)[..|s| - 1] == BigEndian(n / 256);
        if front == [] { assert n / 256 == 0; }
      }
      if FromBigEndian(s) == n && NoLeadingZero(s) {
        assert n / 256 == FromBigEndian(front) && n % 256 == last;
        assert front != [] ==> front[0] == s[0];
      }
    }
  }

  function Pow256(k: nat): nat {
    if k == 0 then 1 else 256 * Pow256(k - 1)
  }

  lemma {:induction false} BigEndianLength(n: nat, k: nat)
    ensures |BigEndian(n)| <= k <==> n < Pow256(k)
  {
    if n != 0 && k != 0 {
      BigEndianLength(n / 256, k - 1);
    } else if n == 0 {
      PowPositive(k);
    }
  }

  lemma PowPositive(k: nat)
    ensures Pow256(k) >= 1
  {
  }

  lemma DivDiv(n: nat, k: nat)
    ensures Pow256(k) > 0 && n / 256 / Pow256(k) == n / Pow256(k + 1)
  {
    PowPositive(k);
    var m := Pow256(k);
    var q, r := n / 256 / m, n / 256 % m;
    var d := n % 256;
    assert n == 256 * (m * q + r) + d == (256 * m) * q + (256 * r + d);
    assert 0 <= 256 * r + d < 256 * m;
    QuotientUnique(n, 256 * m, q, 256 * r + d);
  }

  lemma QuotientUnique(n: nat, m: nat, q: nat, r: nat)
    requires n == m * q + r && r < m
    ensures n / m == q
  {
    var q', r' := n / m, n % m;
    assert n == m * q' + r';
    if q < q' {
      MultipleGrows(m, q, q');
    } else if q > q' {
      MultipleGrows(m, q', q);
    }
  }

  lemma MultipleGrows(m: nat, low: nat, high: nat)
    requires low < high
    ensures m * low + m <= m * high
  {
    var d := high - low - 1;
    assert m * high == m * low + m + m * d;
  }

  /** The most significant byte comes first: each byte is the digit of its weight, and the first is
      not zero. */
  lemma {:induction false} BigEndianDigits(n: nat, i: nat)
    requires i < |BigEndian(n)|
    ensures Pow256(|BigEndian(n)| - 1 - i) > 0
    ensures BigEndian(n)[i] == n / Pow256(|BigEndian(n)| - 1 - i) % 256
    ensures BigEndian(n)[0] != 0
  {
    var front := BigEndian(n / 256);
    BigEndianExact(n, BigEndian(n));
    if i == |front| {
      assert Pow256(0) == 1;
    } else {
      BigEndianDigits(n / 256, i);
      DivDiv(n, |front| - 1 - i);
    }
  }

  lemma U64Length(n: nat)
    ensures |BigEndian(n)| <= 8 <==> n < U64_MODULUS
  {
    BigEndianLength(n, 8);
    assert Pow256(2) == 0x10000;
    assert Pow256(4) == 0x100000000;
    assert Pow256(6) == 0x1000000000000;
    assert Pow256(8) == U64_MODULUS;
  }

  // ---------------------------------------------------------------- length prefixes

  const STRING: nat := 0x80
  const LIST: nat := 0xc0

  predicate Base(base: nat) {
    base == STRING || base == LIST
  }

  /** Short form up to 55 bytes, long form with a minimal big-endian length above. */
  function Prefix(base: nat, n: u64): seq<byte>
    requires Base(base)
  {
    if n <= 55 then [base + n]
    else
      U64Length(n);
      [base + 55 + |BigEndian(n)|] + BigEndian(n)
  }

  function ReadPrefix(base: nat, b: seq<byte>): Option<(nat, seq<byte>)>
    requires Base(base)
  {
    if b == [] || b[0] < base || base + 63 < b[0] then None
    else
      var d := b[0] - base;
      if d <= 55 then Some((d, b[1..]))
      else
        var k := d - 55;
        if |b| < 1 + k || b[1] == 0 then None
        else
          var n := FromBigEndian(b[1..1 + k]);
          if n <= 55 then None else Some((n, b[1 + k..]))
  }

  lemma ReadPrefixOfPrefix(base: nat, n: u64, rest: seq<byte>)
    requires Base(base)
    ensures ReadPrefix(base, Prefix(base, n) + rest) == Some((n, rest))
  {
    var b := Prefix(base, n) + rest;
    if n <= 55 {
      assert b[1..] == rest;
    } else {
      var be := BigEndian(n);
      U64Length(n);
      BigEndianExact(n, be);
      assert b[1..1 + |be|] == be && b[1 + |be|..] == rest;
    }
  }

  lemma PrefixOfReadPrefix(base: nat, b: seq<byte>)
    requires Base(base) && ReadPrefix(base, b).Some?
    ensures ReadPrefix(base, b).value.0 < U64_MODULUS
    ensures b == Prefix(base, ReadPrefix(base, b).value.0) + ReadPrefix(base, b).value.1
  {
    var (n, rest) := ReadPrefix(base, b).value;
    var d := b[0] - base;
    if d <= 55 {
      assert b == [b[0]] + b[1..];
    } else {
      var k := d - 55;
      BigEndianExact(n, b[1..1 + k]);
      U64Length(n);
      assert b == ([b[0]] + b[1..1 + k]) + b[1 + k..];
    }
  }

  lemma PrefixExact(base: nat, b: seq<byte>, n: u64, rest: seq<byte>)
    requires Base(base)
    ensures ReadPrefix(base, b) == Some((n, rest)) <==> b == Prefix(base, n) + rest
  {
    ReadPrefixOfPrefix(base, n, rest);
    if ReadPrefix(base, b).Some? {
      PrefixOfReadPrefix(base, b);
    }
  }

  /** The bytes of a length prefix: one byte up to 55, and above that the number of length bytes
      followed by the length in big-endian form. Strings count from 0x80 and 0xb7, lists from 0xc0
      and 0xf7. */
  lemma PrefixBytes(n: u64)
    ensures n <= 55 ==> Prefix(STRING, n) == [0x80 + n] && Prefix(LIST, n) == [0xc0 + n]
    ensures n > 55 ==>
              && |BigEndian(n)| <= 8
              && Prefix(STRING, n) == [0xb7 + |BigEndian(n)|] + BigEndian(n)
              && Prefix(LIST, n) == [0xf7 + |BigEndian(n)|] + BigEndian(n)
  {
    U64Length(n);
  }

  // ---------------------------------------------------------------- strings, integers, lists

  /** Byte strings whose length a prefix can express, as every Rust slice is. */
  type Bytes = s: seq<byte> | |s| < U64_MODULUS

  function EncodeString(p: Bytes): seq<byte> {
    if |p| == 1 && p[0] < 0x80 then p else Prefix(STRING, |p|) + p
  }

  function ReadString(b: seq<byte>): Option<(seq<byte>, seq<byte>)> {
    if b == [] then None
    else if b[0] < 0x80 then Some(([b[0]], b[1..]))
    else
      match ReadPrefix(STRING, b)
      case None => None
      case Some((n, rest)) =>
        if |rest| < n || (n == 1 && rest[0] < 0x80) then None
        else Some((rest[..n], rest[n..]))
  }

  /** Reading a string is the exact inverse of encoding one. */
  lemma StringExact(b: seq<byte>, p: Bytes, rest: seq<byte>)
    ensures ReadString(b) == Some((p, rest)) <==> b == EncodeString(p) + rest
  {
    PrefixExact(STRING, b, |p|, p + rest);
    assert EncodeString(p) + rest == if |p| == 1 && p[0] < 0x80 then p + rest else Prefix(STRING, |p|) + (p + rest);
    if b == EncodeString(p) + rest {
      if |p| == 1 && p[0] < 0x80 {
        assert b[0] == p[0] && [b[0]] == p && b[1..] == rest;
      } else {
        assert b[0] == Prefix(STRING, |p|)[0] >= 0x80;
        assert (p + rest)[..|p|] == p && (p + rest)[|p|..] == rest;
      }
    }
    if ReadString(b) == Some((p, rest)) {
      if b[0] < 0x80 {
        assert b == [b[0]] + b[1..];
      } else {
        var (n, tail) := ReadPrefix(STRING, b).value;
        assert n == |p| && tail == p + rest;
      }
    }
  }

  /** The bytes of an encoded string: a small byte stands for itself, and anything else follows its
      length. */
  lemma StringBytes(p: Bytes)
    ensures |p| == 1 && p[0] < 0x80 ==> EncodeString(p) == p
    ensures |p| <= 55 && !(|p| == 1 && p[0] < 0x80) ==> EncodeString(p) == [0x80 + |p|] + p
    ensures |p| > 55 ==>
              |BigEndian(|p|)| <= 8 && EncodeString(p) == [0xb7 + |BigEndian(|p|)|] + BigEndian(|p|) + p
  {
    PrefixBytes(|p|);
  }

  function EncodeUint(n: u64): seq<byte> {
    U64Length(n);
    EncodeString(BigEndian(n))
  }

  function ReadUint(b: seq<byte>): Option<(nat, seq<byte>)> {
    match ReadString(b)
    case None => None
    case Some((p, rest)) =>
      if |p| > 8 || !NoLeadingZero(p) then None else Some((FromBigEndian(p), rest))
  }

  /** Reading a `u64` is the exact inverse of encoding one, zero and one-byte values included. */
  lemma UintExact(b: seq<byte>, n: u64, rest: seq<byte>)
    ensures ReadUint(b) == Some((n, rest)) <==> b == EncodeUint(n) + rest
  {
    U64Length(n);
    StringExact(b, BigEndian(n), rest);
    BigEndianExact(n, BigEndian(n));
    if ReadUint(b) == Some((n, rest)) {
      BigEndianExact(n, ReadString(b).value.0);
    }
  }

  lemma ReadUintBound(b: seq<byte>)
    ensures ReadUint(b).Some? ==> ReadUint(b).value.0 < U64_MODULUS
  {
    if ReadUint(b).Some? {
      var p := ReadString(b).value.0;
      BigEndianExact(FromBigEndian(p), p);
      U64Length(FromBigEndian(p));
    }
  }

  function EncodeList(payload: Bytes): seq<byte> {
    Prefix(LIST, |payload|) + payload
  }

  /** The payload of the list at the front, and whatever follows it. */
  function ReadList(b: seq<byte>): Option<(seq<byte>, seq<byte>)> {
    match ReadPrefix(LIST, b)
    case None => None
    case Some((n, rest)) => if |rest| < n then None else Some((rest[..n], rest[n..]))
  }

  lemma ListExact(b: seq<byte>, payload: Bytes, rest: seq<byte>)
    ensures ReadList(b) == Some((payload, rest)) <==> b == EncodeList(payload) + rest
  {
    PrefixExact(LIST, b, |payload|, payload + rest);
    assert EncodeList(payload) + rest == Prefix(LIST, |payload|) + (payload + rest);
    assert (payload + rest)[..|payload|] == payload && (payload + rest)[|payload|..] == rest;
    if ReadList(b) == Some((payload, rest)) {
      var (n, tail) := ReadPrefix(LIST, b).value;
      assert n == |payload| && tail == payload + rest;
    }
  }

  lemma ReadListBound(b: seq<byte>)
    ensures ReadList(b).Some? ==> |ReadList(b).value.0| < U64_MODULUS
  {
    if ReadList(b).Some? {
      PrefixOfReadPrefix(LIST, b);
    }
  }

  // ---------------------------------------------------------------- items by index

  /** The `k`-th of a row of string items. */
  function ItemAt(payload: seq<byte>, k: nat): Option<seq<byte>> {
    match ReadString(payload)
    case None => None
    case Some((p, rest)) => if k == 0 then Some(p) else ItemAt(rest, k - 1)
  }

  /** The `k`-th item of the list at the front of a byte string. */
  function ItemOf(data: seq<byte>, k: nat): Option<seq<byte>> {
    match ReadList(data)
    case None => None
    case Some((payload, _)) => ItemAt(payload, k)
  }

  /** A `u64` is read exactly from a string item that holds its minimal big-endian form. */
  lemma UintByItem(b: seq<byte>, n: u64, rest: seq<byte>)
    ensures ReadUint(b) == Some((n, rest)) <==> ReadString(b) == Some((BigEndian(n), rest))
  {
    U64Length(n);
    BigEndianExact(n, BigEndian(n));
    if ReadString(b).Some? {
      BigEndianExact(n, ReadString(b).value.0);
    }
  }

  // ---------------------------------------------------------------- the appending stream

  /** `RlpStream`: opens a list of known size, appends its items, and prefixes the payload when
      the last of them has arrived. */
  class Stream {
    const size: nat
    var payload: seq<byte>
    var appended: nat

    constructor (size: nat)
      ensures this.size == size && payload == [] && appended == 0
    {
      this.size := size;
      payload, appended := [], 0;
    }

    method AppendBytes(p: Bytes)
      modifies this
      ensures payload == old(payload) + EncodeString(p) && appended == old(appended) + 1
    {
      payload := payload + EncodeString(p);
      appended := appended + 1;
    }

    method AppendUint(n: u64)
      modifies this
      ensures payload == old(payload) + EncodeUint(n) && appended == old(appended) + 1
    {
      payload := payload + EncodeUint(n);
      appended := appended + 1;
    }

    method Out() returns (bytes: seq<byte>)
      requires appended == size && |payload| < U64_MODULUS
      ensures bytes == EncodeList(payload)
    {
      bytes := Prefix(LIST, |payload|) + payload;
    }
  }
}
