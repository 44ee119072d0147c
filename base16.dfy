/**
 * Hexadecimal text for byte strings, as the `hex` crate writes and reads it:
 * the Base16 alphabet of section 8 of RFC 4648 in lower case when encoding;
 * either case accepted when decoding.
 */
module Base16 {
  import opened Wrappers
  import opened Bytes
  import Text

  predicate IsLowerHexDigit(c: char) {
    '0' <= c <= '9' || 'a' <= c <= 'f'
  }

  /** The lower-case digit for a value below 16. */
  function Digit(n: nat): (c: char)
    requires n < 16
    ensures IsLowerHexDigit(c)
  {
    if n < 10 then ('0' as int + n) as char else ('a' as int + n - 10) as char
  }

  /** The value of one hexadecimal character of either case; `None` for any other character. */
  function DigitValue(c: char): (r: Option<nat>)
    ensures r.Some? ==> r.value < 16
    ensures r.Some? ==> Digit(r.value) == Text.LowerChar(c)
    ensures r.Some? <==> IsLowerHexDigit(Text.LowerChar(c))
  {
    if '0' <= c <= '9' then Some(c as int - '0' as int)
    else if 'a' <= c <= 'f' then Some(c as int - 'a' as int + 10)
    else if 'A' <= c <= 'F' then Some(c as int - 'A' as int + 10)
    else None
  }

  /** A digit reads back as the value it was written for, so distinct values get distinct digits. */
  lemma DigitRoundTrip(n: nat)
    requires n < 16
    ensures DigitValue(Digit(n)) == Some(n)
  {
  }

  predicate IsHexDigit(c: char) {
    DigitValue(c).Some?
  }

  /** `hex::encode`: two lower-case digits per byte, high nibble first. */
  function Encode(b: seq<byte>): (r: string)
    ensures |r| == 2 * |b|
    ensures forall i :: 0 <= i < |r| ==> IsLowerHexDigit(r[i])
  {
    if b == [] then "" else [Digit(b[0] / 16), Digit(b[0] % 16)] + Encode(b[1..])
  }

  /** `hex::decode`: fails on text of odd length or with a non-hexadecimal character. */
  function Decode(s: string): (r: Option<seq<byte>>)
    ensures r.Some? <==> |s| % 2 == 0 && forall i :: 0 <= i < |s| ==> IsHexDigit(s[i])
    ensures r.Some? ==> 2 * |r.value| == |s|
  {
    if |s| % 2 != 0 then None else DecodePairs(s)
  }

  /** Decodes text of even length two characters at a time. */
  function DecodePairs(s: string): (r: Option<seq<byte>>)
    requires |s| % 2 == 0
    ensures r.Some? <==> forall i :: 0 <= i < |s| ==> IsHexDigit(s[i])
    ensures r.Some? ==> 2 * |r.value| == |s|
  {
    if s == [] then Some([])
    else
      var hi, lo, rest := DigitValue(s[0]), DigitValue(s[1]), DecodePairs(s[2..]);
      if hi.None? || lo.None? || rest.None? then
        assert !IsHexDigit(s[0]) || !IsHexDigit(s[1]) || exists i :: 2 <= i < |s| && !IsHexDigit(s[i]);
        None
      else Some([hi.value * 16 + lo.value] + rest.value)
  }

  /** Decoding what was encoded gives back the bytes. */
  lemma {:induction false} DecodeEncode(b: seq<byte>)
    ensures Decode(Encode(b)) == Some(b)
  {
    if b != [] {
      DecodeEncode(b[1..]);
      var s := Encode(b);
      assert s[2..] == Encode(b[1..]);
      assert DigitValue(s[0]) == Some(b[0] / 16) && DigitValue(s[1]) == Some(b[0] % 16);
      assert b == [b[0] / 16 * 16 + b[0] % 16] + b[1..];
    }
  }

  /** Encoding what was decoded gives back the text, in lower case. */
  lemma {:induction false} EncodeDecode(s: string)
    requires Decode(s).Some?
    ensures Encode(Decode(s).value) == Text.AsciiLowercase(s)
    decreases |s|
  {
    if s != [] {
      assert Decode(s[2..]).Some?;
      EncodeDecode(s[2..]);
      var b := Decode(s).value;
      var hi, lo := DigitValue(s[0]).value, DigitValue(s[1]).value;
      assert b == [hi * 16 + lo] + Decode(s[2..]).value;
      assert b[0] / 16 == hi && b[0] % 16 == lo;
      assert b[1..] == Decode(s[2..]).value;
      var lower := Text.AsciiLowercase(s);
      assert lower == [lower[0], lower[1]] + lower[2..];
      assert lower[2..] == Text.AsciiLowercase(s[2..]);
    }
  }

  /** Digit `i` of the text is the high (even `i`) or low (odd `i`) nibble of byte `i / 2`. */
  lemma {:induction false} EncodeAt(b: seq<byte>, i: nat)
    requires i < 2 * |b|
    ensures Encode(b)[i] == Digit(if i % 2 == 0 then b[i / 2] / 16 else b[i / 2] % 16)
  {
    if i >= 2 {
      EncodeAt(b[1..], i - 2);
      assert Encode(b)[i] == Encode(b[1..])[i - 2];
    }
  }
}
