/**
 * The digest formatter of the ledger: a SHA-256 digest (32 bytes) is written
 * as 64 lowercase hexadecimal characters, two per byte, most significant
 * nibble first ("%02x"), followed by a NUL terminator. This is base16 as in
 * section 8 of RFC 4648, with the lowercase alphabet.
 */
module HexFormat {

  newtype byte = x: int | 0 <= x < 256

  /** SHA256_DIGEST_LENGTH: the number of bytes in a SHA-256 digest. */
  const DIGEST_LENGTH: nat := 32

  /** Size of the C output buffer: two characters per byte plus the terminator. */
  const HEX_BUFFER_LENGTH: nat := 2 * DIGEST_LENGTH + 1

  const HEX_DIGITS: string := "0123456789abcdef"

  /** A raw digest as the hash primitive returns it. */
  type Digest = d: seq<byte> | |d| == DIGEST_LENGTH witness seq(32, _ => 0)

  /** A character of HEX_DIGITS: a decimal digit or one of 'a'..'f'. */
  predicate IsHexDigit(c: char) {
    '0' <= c <= '9' || 'a' <= c <= 'f'
  }

  function HexDigit(v: int): (c: char)
    requires 0 <= v < 16
    ensures ('0' <= c <= '9' && c as int - '0' as int == v) || ('a' <= c <= 'f' && c as int - 'a' as int + 10 == v)
  {
    HEX_DIGITS[v]
  }

  /** The value of a lowercase hexadecimal digit. */
  function DigitValue(c: char): (v: int)
    requires IsHexDigit(c)
    ensures 0 <= v < 16
  {
    if '0' <= c <= '9' then c as int - '0' as int else c as int - 'a' as int + 10
  }

  /** "%02x" applied to one byte. */
  function HexByte(b: byte): (r: string)
    ensures |r| == 2 && IsHexDigit(r[0]) && IsHexDigit(r[1])
    ensures DigitValue(r[0]) * 16 + DigitValue(r[1]) == b as int
  {
    [HexDigit(b as int / 16), HexDigit(b as int % 16)]
  }

  /** The lowercase hexadecimal text of a byte sequence, in byte order. */
  function Hex(bytes: seq<byte>): (r: string)
    ensures |r| == 2 * |bytes|
  {
    if bytes == [] then [] else HexByte(bytes[0]) + Hex(bytes[1..])
  }

  /** The inverse of Hex: decode pairs of lowercase hexadecimal digits. */
  function Unhex(s: string): (r: seq<byte>)
    requires |s| % 2 == 0
    requires forall i :: 0 <= i < |s| ==> IsHexDigit(s[i])
    ensures 2 * |r| == |s|
  {
    if s == [] then []
    else [(DigitValue(s[0]) * 16 + DigitValue(s[1])) as byte] + Unhex(s[2..])
  }

  lemma {:induction false} HexAppend(a: seq<byte>, b: seq<byte>)
    ensures Hex(a + b) == Hex(a) + Hex(b)
  {
    if a == [] {
      assert a + b == b;
    } else {
      assert (a + b)[0] == a[0];
      assert (a + b)[1..] == a[1..] + b;
      HexAppend(a[1..], b);
      calc {
        Hex(a + b);
        HexByte(a[0]) + Hex(a[1..] + b);
        HexByte(a[0]) + (Hex(a[1..]) + Hex(b));
        (HexByte(a[0]) + Hex(a[1..])) + Hex(b);
      }
    }
  }

  /** Helper of FormatDigest: the text of the first i + 1 bytes extends that of the first i. */
  lemma HexSnoc(bytes: seq<byte>, i: int)
    requires 0 <= i < |bytes|
    ensures Hex(bytes[..i + 1]) == Hex(bytes[..i]) + HexByte(bytes[i])
  {
    assert bytes[..i + 1] == bytes[..i] + [bytes[i]];
    HexAppend(bytes[..i], [bytes[i]]);
  }

  /** Byte i of the input occupies characters 2i and 2i+1 of the output. */
  lemma {:induction false} HexAt(bytes: seq<byte>, i: int)
    requires 0 <= i < |bytes|
    ensures Hex(bytes)[2 * i] == HexDigit(bytes[i] as int / 16)
    ensures Hex(bytes)[2 * i + 1] == HexDigit(bytes[i] as int % 16)
  {
    if i > 0 {
      HexAt(bytes[1..], i - 1);
    }
  }

  /** Every character of the output is a lowercase hexadecimal digit. */
  lemma HexIsLowercase(bytes: seq<byte>)
    ensures forall k :: 0 <= k < |Hex(bytes)| ==> IsHexDigit(Hex(bytes)[k])
  {
    forall k | 0 <= k < |Hex(bytes)|
      ensures IsHexDigit(Hex(bytes)[k])
    {
      HexAt(bytes, k / 2);
    }
  }

  /** Formatting loses nothing: decoding the text gives the bytes back. */
  lemma {:induction false} UnhexHex(bytes: seq<byte>)
    ensures forall k :: 0 <= k < |Hex(bytes)| ==> IsHexDigit(Hex(bytes)[k])
    ensures Unhex(Hex(bytes)) == bytes
  {
    HexIsLowercase(bytes);
    if bytes != [] {
      UnhexHex(bytes[1..]);
      UnhexPair(bytes[0], Hex(bytes[1..]));
    }
  }

  /** Helper of UnhexHex: decoding the text of one byte followed by more text. */
  lemma UnhexPair(b: byte, t: string)
    requires |t| % 2 == 0
    requires forall k :: 0 <= k < |t| ==> IsHexDigit(t[k])
    ensures forall k :: 0 <= k < |HexByte(b) + t| ==> IsHexDigit((HexByte(b) + t)[k])
    ensures Unhex(HexByte(b) + t) == [b] + Unhex(t)
  {
    var h := HexByte(b) + t;
    assert h[2..] == t;
    DigitValueHexDigit(b as int / 16);
    DigitValueHexDigit(b as int % 16);
  }

  lemma DigitValueHexDigit(v: int)
    requires 0 <= v < 16
    ensures DigitValue(HexDigit(v)) == v
  {
  }

  /**
   * The formatting loop of sha256(): each iteration writes two digits and the
   * terminator sprintf appends after them, which the next iteration overwrites;
   * the last terminator is written explicitly at position 64.
   */
  method FormatDigest(digest: Digest, out: array<char>)
    requires out.Length == HEX_BUFFER_LENGTH
    modifies out
    ensures out[..2 * DIGEST_LENGTH] == Hex(digest)
    ensures out[2 * DIGEST_LENGTH] == '\0'
  {
    var i := 0;
    while i < DIGEST_LENGTH
      invariant 0 <= i <= DIGEST_LENGTH
      invariant out[..2 * i] == Hex(digest[..i])
    {
      var pair := HexByte(digest[i]);
      out[2 * i] := pair[0];
      out[2 * i + 1] := pair[1];
      out[2 * i + 2] := '\0';
      assert out[..2 * (i + 1)] == out[..2 * i] + pair;
      HexSnoc(digest, i);
      i := i + 1;
    }
    assert digest[..DIGEST_LENGTH] == digest;
    out[2 * DIGEST_LENGTH] := '\0';
  }
}
