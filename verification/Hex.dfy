/** Hexadecimal addresses: `Wallet::address_hex` and `Wallet::address_from_hex`. */
module Hex {
  import opened Common
  import opened LedgerSpec

  function Digit(n: nat): char
    requires n < 16
  {
    if n < 10 then '0' + n as char else 'a' + (n - 10) as char
  }

  /** The value of a hexadecimal digit of either case. */
  function DigitValue(c: char): Option<nat> {
    if '0' <= c <= '9' then Some(c as int - '0' as int)
    else if 'a' <= c <= 'f' then Some(c as int - 'a' as int + 10)
    else if 'A' <= c <= 'F' then Some(c as int - 'A' as int + 10)
    else None
  }

  function Encode(bytes: seq<byte>): string {
    if bytes == [] then []
    else [Digit(bytes[0] / 16), Digit(bytes[0] % 16)] + Encode(bytes[1..])
  }

  function Decode(s: string): Option<seq<byte>> {
    if s == [] then Some([])
    else if |s| == 1 then None
    else
      match (DigitValue(s[0]), DigitValue(s[1]), Decode(s[2..]))
      case (Some(hi), Some(lo), Some(rest)) =>
        assert hi < 16 && lo < 16;
        Some([16 * hi + lo] + rest)
      case _ => None
  }

  /** The text `0x...` that identifies an account in every listing. */
  function Render(bytes: seq<byte>): string {
    "0x" + Encode(bytes)
  }

  function StripPrefix(s: string): string {
    if "0x" <= s then s[2..] else s
  }

  function AddressFromHex(s: string): Option<Address> {
    match Decode(StripPrefix(s))
    case None => None
    case Some(bytes) => if |bytes| == ADDRESS_LEN then Some(bytes) else None
  }

  function LowerDigit(c: char): char {
    if 'A' <= c <= 'F' then c - 'A' + 'a' else c
  }

  function Lower(s: string): string {
    seq(|s|, i requires 0 <= i < |s| => LowerDigit(s[i]))
  }

  lemma DigitFacts(c: char, n: nat)
    requires n < 16
    ensures DigitValue(Digit(n)) == Some(n)
    ensures DigitValue(c) == Some(n) <==> LowerDigit(c) == Digit(n)
  {
  }

  lemma PairFacts(hi: char, lo: char, b: byte)
    ensures (DigitValue(hi).Some? && DigitValue(lo).Some? && 16 * DigitValue(hi).value + DigitValue(lo).value == b) <==>
            (LowerDigit(hi) == Digit(b / 16) && LowerDigit(lo) == Digit(b % 16))
  {
    DigitFacts(hi, b / 16);
    DigitFacts(lo, b % 16);
    assert b == 16 * (b / 16) + b % 16;
    if DigitValue(hi).Some? && DigitValue(lo).Some? {
      var h, l := DigitValue(hi).value, DigitValue(lo).value;
      assert h < 16 && l < 16;
      assert 16 * h + l == b ==> h == b / 16 && l == b % 16;
    }
  }

  lemma LowerCons(s: string)
    requires |s| >= 2
    ensures Lower(s) == [LowerDigit(s[0]), LowerDigit(s[1])] + Lower(s[2..])
  {
  }

  lemma PairConsEqual<T>(a: T, b: T, s: seq<T>, c: T, d: T, t: seq<T>)
    ensures [a, b] + s == [c, d] + t <==> a == c && b == d && s == t
  {
    if [a, b] + s == [c, d] + t {
      assert a == ([a, b] + s)[0] && b == ([a, b] + s)[1] && s == ([a, b] + s)[2..];
    }
  }

  /** Decoding accepts exactly the spellings of an encoding, in any mix of cases. */
  lemma {:induction false} DecodeExact(s: string, bytes: seq<byte>)
    ensures Decode(s) == Some(bytes) <==> Lower(s) == Encode(bytes)
  {
    if |s| < 2 {
      assert |Lower(s)| == |s| && (bytes != [] ==> |Encode(bytes)| >= 2);
    } else if bytes == [] {
      assert |Lower(s)| == |s|;
    } else {
      DecodeExact(s[2..], bytes[1..]);
      PairFacts(s[0], s[1], bytes[0]);
      LowerCons(s);
      PairConsEqual(LowerDigit(s[0]), LowerDigit(s[1]), Lower(s[2..]),
                    Digit(bytes[0] / 16), Digit(bytes[0] % 16), Encode(bytes[1..]));
      assert bytes == [bytes[0]] + bytes[1..];
      if Decode(s) == Some(bytes) {
        assert Decode(s).value[1..] == Decode(s[2..]).value;
      }
    }
  }

  lemma {:induction false} EncodeIsLower(bytes: seq<byte>)
    ensures Lower(Encode(bytes)) == Encode(bytes) && |Encode(bytes)| == 2 * |bytes|
    ensures !("0x" <= Encode(bytes))
  {
    if bytes != [] {
      EncodeIsLower(bytes[1..]);
      assert Lower(Encode(bytes)) == Lower([Digit(bytes[0] / 16), Digit(bytes[0] % 16)]) + Lower(Encode(bytes[1..]));
      assert Encode(bytes)[1] == Digit(bytes[0] % 16);
    }
  }

  /** The sixteen digits. */
  const DIGITS := "0123456789abcdef"

  /** Each byte is two digits, the high one first. */
  lemma {:induction false} EncodeDigits(bytes: seq<byte>, i: nat)
    requires i < |bytes|
    ensures |Encode(bytes)| == 2 * |bytes|
    ensures Encode(bytes)[2 * i] == DIGITS[bytes[i] / 16] && Encode(bytes)[2 * i + 1] == DIGITS[bytes[i] % 16]
  {
    EncodeIsLower(bytes);
    if i == 0 {
      DigitOf(bytes[0] / 16);
      DigitOf(bytes[0] % 16);
    } else {
      EncodeDigits(bytes[1..], i - 1);
    }
  }

  lemma DigitOf(n: nat)
    requires n < 16
    ensures Digit(n) == DIGITS[n]
  {
  }

  /** Different byte strings render differently. */
  lemma RenderInjective(x: seq<byte>, y: seq<byte>)
    requires Render(x) == Render(y)
    ensures x == y
  {
    assert Encode(x) == Render(x)[2..] == Render(y)[2..] == Encode(y);
    EncodeIsLower(x);
    EncodeIsLower(y);
    DecodeExact(Encode(x), x);
    DecodeExact(Encode(x), y);
  }

  /** A text parses to an address exactly when, without one optional `0x` and up to case, it is
      that address in hexadecimal. */
  lemma AddressFromHexExact(s: string, a: Address)
    ensures AddressFromHex(s) == Some(a) <==> Lower(StripPrefix(s)) == Encode(a)
  {
    DecodeExact(StripPrefix(s), a);
  }

  /** Parsing inverts rendering, with the prefix and without. */
  lemma AddressRoundTrip(a: Address)
    ensures AddressFromHex(Render(a)) == Some(a) && AddressFromHex(Encode(a)) == Some(a)
  {
    EncodeIsLower(a);
    assert StripPrefix(Render(a)) == Encode(a);
    AddressFromHexExact(Render(a), a);
    AddressFromHexExact(Encode(a), a);
  }
}
