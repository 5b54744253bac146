/** Lower-case hexadecimal text of a byte string, as `bint.toString(bytes, 'hex')`
    produces it, and its inverse. */
module Hex {
  import opened Base

  /** The lower-case hexadecimal digit of a value below 16. */
  function Digit(n: nat): (c: char)
    requires n < 16
    ensures '0' <= c <= '9' || 'a' <= c <= 'f'
  {
    if n < 10 then ('0' as int + n) as char else ('a' as int + n - 10) as char
  }

  /** The value of a lower-case hexadecimal digit, or `None` for any other character. */
  function DigitValue(c: char): (r: Option<nat>)
    ensures r.Some? ==> r.value < 16 && Digit(r.value) == c
    ensures r.None? <==> !('0' <= c <= '9' || 'a' <= c <= 'f')
  {
    if '0' <= c <= '9' then Some(c as int - '0' as int)
    else if 'a' <= c <= 'f' then Some(c as int - 'a' as int + 10)
    else None
  }

  lemma DigitValueOfDigit(n: nat)
    requires n < 16
    ensures DigitValue(Digit(n)) == Some(n)
  {
  }

  /** The two characters of one byte: high nibble first. */
  function ByteToHex(b: Byte): (s: string) {
    [Digit(b / 16), Digit(b % 16)]
  }

  /** Two characters per byte, in the order of the bytes. */
  function Encode(bytes: Bytes): (s: string)
    ensures |s| == 2 * |bytes|
    ensures forall i :: 0 <= i < |bytes| ==> s[2 * i] == Digit(bytes[i] / 16) && s[2 * i + 1] == Digit(bytes[i] % 16)
  {
    if bytes == [] then "" else ByteToHex(bytes[0]) + Encode(bytes[1..])
  }

  /** Reads text back into bytes; fails on an odd length or a character that
      is not a lower-case hexadecimal digit. */
  function Decode(s: string): (r: Option<Bytes>)
    ensures r.Some? ==> 2 * |r.value| == |s|
    decreases |s|
  {
    if |s| == 0 then Some([])
    else if |s| == 1 then None
    else
      var hi, lo, rest := DigitValue(s[0]), DigitValue(s[1]), Decode(s[2..]);
      if hi.Some? && lo.Some? && rest.Some? then Some([hi.value * 16 + lo.value] + rest.value)
      else None
  }

  /** Decoding the two characters of one byte in front of some text. */
  lemma DecodeByteToHex(b: Byte, t: string)
    ensures Decode(ByteToHex(b) + t) == if Decode(t).Some? then Some([b] + Decode(t).value) else None
  {
    var hi, lo := b / 16, b % 16;
    var s := ByteToHex(b) + t;
    assert s[0] == Digit(hi) && s[1] == Digit(lo) && s[2..] == t;
    DigitValueOfDigit(hi);
    DigitValueOfDigit(lo);
    assert hi * 16 + lo == b;
  }

  /** Decoding undoes encoding, for every byte string. */
  lemma {:induction false} DecodeEncode(bytes: Bytes)
    ensures Decode(Encode(bytes)) == Some(bytes)
  {
    if bytes != [] {
      DecodeByteToHex(bytes[0], Encode(bytes[1..]));
      DecodeEncode(bytes[1..]);
      assert [bytes[0]] + bytes[1..] == bytes;
    }
  }

  /** Only canonical text decodes: whatever decodes is the encoding of what it decodes to. */
  lemma {:induction false} EncodeDecode(s: string)
    requires Decode(s).Some?
    ensures Encode(Decode(s).value) == s
  {
    if |s| >= 2 {
      var hi := DigitValue(s[0]).value;
      var lo := DigitValue(s[1]).value;
      var rest := Decode(s[2..]).value;
      var b: Byte := hi * 16 + lo;
      assert Decode(s).value == [b] + rest;
      assert b / 16 == hi && b % 16 == lo;
      EncodeDecode(s[2..]);
      assert ([b] + rest)[1..] == rest;
      assert s == [s[0], s[1]] + s[2..];
    }
  }

  /** Distinct byte strings have distinct encodings. */
  lemma EncodeInjective(a: Bytes, b: Bytes)
    requires Encode(a) == Encode(b)
    ensures a == b
  {
    DecodeEncode(a);
    DecodeEncode(b);
  }
}
