/** Hexadecimal text as Go's `encoding/hex` reads it, and the upper-case form
    in which the kernel's socket table writes addresses. */
module Hex {

  newtype byte = x: int | 0 <= x < 256

  /** The digits `hex.DecodeString` and `strconv.ParseInt(_, 16, _)` accept. */
  predicate IsHexDigit(c: char) {
    ('0' <= c <= '9') || ('a' <= c <= 'f') || ('A' <= c <= 'F')
  }

  function DigitValue(c: char): (v: nat)
    requires IsHexDigit(c)
    ensures v < 16
  {
    if '0' <= c <= '9' then c as int - '0' as int
    else if 'a' <= c <= 'f' then c as int - 'a' as int + 10
    else c as int - 'A' as int + 10
  }

  /** The bytes `hex.DecodeString(s)` returns, its error discarded: the
      decoding stops at the first pair that is not two hex digits, and a
      trailing odd digit is dropped. */
  function Decode(s: string): (bytes: seq<byte>)
    ensures |bytes| <= |s| / 2
    decreases |s|
  {
    if |s| < 2 || !IsHexDigit(s[0]) || !IsHexDigit(s[1]) then []
    else [(DigitValue(s[0]) * 16 + DigitValue(s[1])) as byte] + Decode(s[2..])
  }

  function UpperDigit(d: nat): (c: char)
    requires d < 16
    ensures IsHexDigit(c) && DigitValue(c) == d
  {
    if d < 10 then ('0' as int + d) as char else ('A' as int + d - 10) as char
  }

  lemma UpperDigitOf(c: char)
    requires ('0' <= c <= '9') || ('A' <= c <= 'F')
    ensures UpperDigit(DigitValue(c)) == c
  {
  }

  lemma Nibbles(hi: nat, lo: nat)
    requires hi < 16 && lo < 16
    ensures (hi * 16 + lo) / 16 == hi && (hi * 16 + lo) % 16 == lo
  {
  }

  /** Two upper-case digits per byte, high nibble first. */
  function Encode(bytes: seq<byte>): (s: string)
    ensures |s| == 2 * |bytes|
  {
    if bytes == [] then []
    else [UpperDigit(bytes[0] as int / 16), UpperDigit(bytes[0] as int % 16)] + Encode(bytes[1..])
  }

  predicate IsUpperHex(s: string) {
    forall i :: 0 <= i < |s| ==> ('0' <= s[i] <= '9') || ('A' <= s[i] <= 'F')
  }

  lemma {:induction false} DecodeEncode(bytes: seq<byte>)
    ensures Decode(Encode(bytes)) == bytes
  {
    if bytes != [] {
      var s := Encode(bytes);
      assert s[2..] == Encode(bytes[1..]);
      DecodeEncode(bytes[1..]);
    }
  }

  /** On an even-length, upper-case hex string nothing is lost: every pair
      becomes one byte, and encoding the bytes gives the string back. */
  lemma {:induction false} EncodeDecode(s: string)
    requires |s| % 2 == 0 && IsUpperHex(s)
    ensures |Decode(s)| == |s| / 2
    ensures Encode(Decode(s)) == s
    decreases |s|
  {
    if s != [] {
      var hi, lo := DigitValue(s[0]), DigitValue(s[1]);
      var b := (hi * 16 + lo) as byte;
      assert IsUpperHex(s[2..]);
      EncodeDecode(s[2..]);
      assert Decode(s) == [b] + Decode(s[2..]);
      Nibbles(hi, lo);
      UpperDigitOf(s[0]);
      UpperDigitOf(s[1]);
      assert s == [s[0], s[1]] + s[2..];
    }
  }
}
