/** Hexadecimal text as Node's `Buffer` writes and reads it
    (`buf.toString("hex")` and `Buffer.from(s, "hex")`). The decoder looks
    only at the low eight bits of each character's code. */
module Hex {

  type byte = b: int | 0 <= b < 256

  predicate IsHexDigit(c: char) {
    ('0' <= c <= '9') || ('a' <= c <= 'f') || ('A' <= c <= 'F')
  }

  /** The character Node's hex decoder sees in place of `c`: the low eight
      bits of its code. */
  function LowByte(c: char): (d: char)
    ensures (c as int) < 256 ==> d == c
  {
    ((c as int) % 256) as char
  }

  function HexDigitValue(c: char): (v: int)
    requires IsHexDigit(c)
    ensures 0 <= v < 16
  {
    if '0' <= c <= '9' then c as int - '0' as int
    else if 'a' <= c <= 'f' then c as int - 'a' as int + 10
    else c as int - 'A' as int + 10
  }

  const LowerHexDigits: string := "0123456789abcdef"

  /** `buf.toString("hex")`: two lower-case hex digits per byte. */
  function HexEncode(bytes: seq<byte>): (s: string)
    ensures |s| == 2 * |bytes|
    ensures forall i :: 0 <= i < |s| ==> IsHexDigit(s[i])
  {
    if |bytes| == 0 then ""
    else [LowerHexDigits[bytes[0] / 16], LowerHexDigits[bytes[0] % 16]] + HexEncode(bytes[1..])
  }

  /** `Buffer.from(s, "hex")`: decodes digit pairs from the start and stops at
      the first pair whose low bytes are not two hex digits; an odd last
      digit is dropped. */
  function HexDecode(s: string): (bytes: seq<byte>)
    ensures 2 * |bytes| <= |s|
  {
    if |s| < 2 || !IsHexDigit(LowByte(s[0])) || !IsHexDigit(LowByte(s[1])) then []
    else [HexDigitValue(LowByte(s[0])) * 16 + HexDigitValue(LowByte(s[1]))] + HexDecode(s[2..])
  }

  /** A character above U+00FF whose low byte is a hex digit decodes as that
      digit: "\u0130" (capital I with dot above) followed by "0" reads as the
      pair "00". */
  lemma HighCharReadsAsLowByte()
    ensures HexDecode(['\U{0130}', '0']) == [0]
  {
    assert LowByte('\U{0130}') == '0';
    assert ['\U{0130}', '0'][2..] == [];
  }

  /** A digit written for a value below 16 reads back as that value. */
  lemma DigitRoundTrip(d: int)
    requires 0 <= d < 16
    ensures IsHexDigit(LowerHexDigits[d]) && HexDigitValue(LowerHexDigits[d]) == d
  {
  }

  /** The two digits written for a byte decode to that byte. */
  lemma ByteRoundTrip(b: byte)
    ensures IsHexDigit(LowerHexDigits[b / 16]) && IsHexDigit(LowerHexDigits[b % 16])
    ensures HexDigitValue(LowerHexDigits[b / 16]) * 16 + HexDigitValue(LowerHexDigits[b % 16]) == b
  {
    DigitRoundTrip(b / 16);
    DigitRoundTrip(b % 16);
  }

  /** Two hex digits in front decode to one byte in front. */
  lemma DecodePair(hi: char, lo: char, rest: string)
    requires IsHexDigit(hi) && IsHexDigit(lo)
    ensures HexDecode([hi, lo] + rest) == [HexDigitValue(hi) * 16 + HexDigitValue(lo)] + HexDecode(rest)
  {
    assert ([hi, lo] + rest)[2..] == rest;
  }

  /** The two digits written for a byte, in front, decode to that byte. */
  lemma DecodeEncodedByte(b: byte, rest: string)
    ensures HexDecode([LowerHexDigits[b / 16], LowerHexDigits[b % 16]] + rest) == [b] + HexDecode(rest)
  {
    ByteRoundTrip(b);
    DecodePair(LowerHexDigits[b / 16], LowerHexDigits[b % 16], rest);
  }

  lemma SplitFirst<T>(s: seq<T>)
    requires |s| > 0
    ensures s == [s[0]] + s[1..]
  {
  }

  /** Decoding what was encoded gives the bytes back. */
  lemma {:induction false} DecodeEncode(bytes: seq<byte>)
    ensures HexDecode(HexEncode(bytes)) == bytes
  {
    if |bytes| > 0 {
      var b := bytes[0];
      calc {
        HexDecode(HexEncode(bytes));
        HexDecode([LowerHexDigits[b / 16], LowerHexDigits[b % 16]] + HexEncode(bytes[1..]));
        == { DecodeEncodedByte(b, HexEncode(bytes[1..])); }
        [b] + HexDecode(HexEncode(bytes[1..]));
        == { DecodeEncode(bytes[1..]); }
        [b] + bytes[1..];
        == { SplitFirst(bytes); }
        bytes;
      }
    }
  }

  /** Hex text never holds a '.'. */
  lemma NoDotInHex(bytes: seq<byte>)
    ensures '.' !in HexEncode(bytes)
  {
  }

  /** Decoding stops before a character whose low byte is not a hex digit,
      or at the end of the text: at most `i / 2` bytes come out. */
  lemma {:induction false} DecodeStopsAt(s: string, i: nat)
    requires i >= |s| || !IsHexDigit(LowByte(s[i]))
    ensures |HexDecode(s)| <= i / 2
  {
    if |s| >= 2 && IsHexDigit(LowByte(s[0])) && IsHexDigit(LowByte(s[1])) {
      assert i >= 2;
      DecodeStopsAt(s[2..], i - 2);
    }
  }
}
