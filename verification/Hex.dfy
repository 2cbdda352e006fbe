/** The hex encoding used for digests, keys and signatures: `hex::encode` writes lower
    case, `hex::decode` reads either case. */
module Hex {
  import opened Prelude

  function EncodeNibble(n: nat): byte
    requires n < 16
  {
    if n < 10 then '0' as int + n else 'a' as int + (n - 10)
  }

  function DecodeNibble(c: byte): (n: Option<nat>)
    ensures n.Some? ==> n.value < 16
  {
    if '0' as int <= c <= '9' as int then Some(c - '0' as int)
    else if 'a' as int <= c <= 'f' as int then Some(c - 'a' as int + 10)
    else if 'A' as int <= c <= 'F' as int then Some(c - 'A' as int + 10)
    else None
  }

  function Encode(b: seq<byte>): (text: Str)
    ensures |text| == 2 * |b|
  {
    if b == [] then [] else [EncodeNibble(b[0] / 16), EncodeNibble(b[0] % 16)] + Encode(b[1..])
  }

  function Decode(text: Str): (b: Option<seq<byte>>)
    ensures b.Some? ==> |text| == 2 * |b.value|
  {
    if text == [] then Some([])
    else if |text| == 1 then None
    else
      match (DecodeNibble(text[0]), DecodeNibble(text[1]), Decode(text[2..]))
      case (Some(high), Some(low), Some(rest)) => Some([16 * high + low] + rest)
      case _ => None
  }

  predicate IsLowerHexDigit(c: byte) {
    '0' as int <= c <= '9' as int || 'a' as int <= c <= 'f' as int
  }

  /** `is_lower_hex_n`. */
  predicate IsLowerHex(text: Str, len: nat) {
    |text| == len && forall c :: c in text ==> IsLowerHexDigit(c)
  }

  lemma {:induction false} DecodeEncode(b: seq<byte>)
    ensures Decode(Encode(b)) == Some(b)
    ensures IsLowerHex(Encode(b), 2 * |b|)
  {
    if b != [] {
      DecodeEncode(b[1..]);
      assert Encode(b)[2..] == Encode(b[1..]);
      assert b == [b[0]] + b[1..];
    }
  }

  lemma NibbleRoundTrip(c: byte)
    requires IsLowerHexDigit(c)
    ensures DecodeNibble(c).Some? && EncodeNibble(DecodeNibble(c).value) == c
  {
  }

  /** Lower-case text of even length always decodes, and it is the encoding of its decoding. */
  lemma {:induction false} EncodeDecode(text: Str, len: nat)
    requires IsLowerHex(text, 2 * len)
    ensures Decode(text).Some? && Encode(Decode(text).value) == text
  {
    if text != [] {
      EncodeDecode(text[2..], len - 1);
      NibbleRoundTrip(text[0]);
      NibbleRoundTrip(text[1]);
      hide EncodeNibble, DecodeNibble, IsLowerHexDigit;
      var (high, low, rest) := (DecodeNibble(text[0]).value, DecodeNibble(text[1]).value, Decode(text[2..]).value);
      var b := [16 * high + low] + rest;
      assert Decode(text) == Some(b);
      assert b[1..] == rest && b[0] / 16 == high && b[0] % 16 == low;
      assert Encode(b) == [EncodeNibble(high), EncodeNibble(low)] + Encode(rest);
      assert text == [text[0], text[1]] + text[2..];
    }
  }

  lemma DecodeInjective(a: Str, b: Str, len: nat)
    requires IsLowerHex(a, 2 * len) && IsLowerHex(b, 2 * len)
    requires Decode(a) == Decode(b)
    ensures a == b
  {
    EncodeDecode(a, len);
    EncodeDecode(b, len);
  }
}
