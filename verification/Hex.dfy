/** Serial numbers as text: the `{b:02x}` rendering stored in `serial_hex` and the
    decoder that turns a stored serial back into bytes for the revocation list. */
module Hex {
  import opened Prelude

  function Digit(n: int): (c: char)
    requires 0 <= n < 16
  {
    if n < 10 then ('0' as int + n) as char else ('a' as int + (n - 10)) as char
  }

  /** `char::to_digit(16)`: accepts both cases. */
  function DigitValue(c: char): Option<int> {
    if '0' <= c <= '9' then Some(c as int - '0' as int)
    else if 'a' <= c <= 'f' then Some(c as int - 'a' as int + 10)
    else if 'A' <= c <= 'F' then Some(c as int - 'A' as int + 10)
    else None
  }

  /** Two lowercase digits per byte. */
  function Encode(bytes: seq<Byte>): (s: string)
    ensures |s| == 2 * |bytes|
  {
    if bytes == [] then "" else [Digit(bytes[0] / 16), Digit(bytes[0] % 16)] + Encode(bytes[1..])
  }

  /** The pairs of an even-length text, each of which has to be two hex digits. */
  function DecodePairs(s: string): Option<seq<Byte>>
    requires |s| % 2 == 0
  {
    if s == "" then Some([])
    else
      match (DigitValue(s[0]), DigitValue(s[1]), DecodePairs(s[2..]))
      case (Some(hi), Some(lo), Some(rest)) => Some([AsByte(hi * 16 + lo)] + rest)
      case _ => None
  }

  /** Empty and odd-length texts are refused before any digit is looked at. */
  function Decode(s: string): Option<seq<Byte>> {
    if s == "" || |s| % 2 != 0 then None else DecodePairs(s)
  }

  function AsByte(n: int): Byte {
    if 0 <= n < 256 then n else 0
  }

  function LowerChar(c: char): char {
    if 'A' <= c <= 'Z' then (c as int - 'A' as int + 'a' as int) as char else c
  }

  /** ASCII lowercasing. */
  function Lower(s: string): (r: string)
    ensures |r| == |s|
    ensures forall i :: 0 <= i < |s| ==> r[i] == LowerChar(s[i])
  {
    if s == "" then "" else [LowerChar(s[0])] + Lower(s[1..])
  }

  lemma DigitRoundTrip(n: int)
    requires 0 <= n < 16
    ensures DigitValue(Digit(n)) == Some(n)
  {
  }

  lemma {:induction false} DecodePairsOfEncode(bytes: seq<Byte>)
    ensures DecodePairs(Encode(bytes)) == Some(bytes)
  {
    if bytes == [] {
    } else {
      DecodePairsOfEncode(bytes[1..]);
      var b, text := bytes[0], Encode(bytes);
      assert text[0] == Digit(b / 16) && text[1] == Digit(b % 16) && text[2..] == Encode(bytes[1..]);
      DigitRoundTrip(b / 16);
      DigitRoundTrip(b % 16);
      assert bytes == [b] + bytes[1..];
    }
  }

  /** Rendering and decoding round-trip on every non-empty serial. */
  lemma DecodeOfEncode(bytes: seq<Byte>)
    ensures Decode(Encode(bytes)) == if bytes == [] then None else Some(bytes)
  {
    DecodePairsOfEncode(bytes);
  }

  lemma DigitOfValue(c: char)
    requires DigitValue(c).Some?
    ensures 0 <= DigitValue(c).value < 16 && Digit(DigitValue(c).value) == LowerChar(c)
  {
  }

  lemma {:induction false} EncodeOfDecodePairs(s: string)
    requires |s| % 2 == 0 && DecodePairs(s).Some?
    ensures Encode(DecodePairs(s).value) == Lower(s)
  {
    if s == "" {
    } else {
      var tail := s[2..];
      var rest := DecodePairs(tail).value;
      EncodeOfDecodePairs(tail);
      DigitOfValue(s[0]);
      DigitOfValue(s[1]);
      var b := AsByte(DigitValue(s[0]).value * 16 + DigitValue(s[1]).value);
      assert b / 16 == DigitValue(s[0]).value && b % 16 == DigitValue(s[1]).value;
      assert DecodePairs(s).value == [b] + rest;
      EncodeCons(b, rest);
      assert s == [s[0], s[1]] + tail;
    }
  }

  lemma EncodeCons(b: Byte, rest: seq<Byte>)
    ensures Encode([b] + rest) == [Digit(b / 16), Digit(b % 16)] + Encode(rest)
  {
    assert ([b] + rest)[1..] == rest;
  }

  /** Whatever decodes is the rendering of its bytes up to letter case. */
  lemma EncodeOfDecode(s: string)
    requires Decode(s).Some?
    ensures Encode(Decode(s).value) == Lower(s)
  {
    EncodeOfDecodePairs(s);
  }

  /** Two serials with the same rendering are the same serial. */
  lemma EncodeInjective(a: seq<Byte>, b: seq<Byte>)
    requires Encode(a) == Encode(b)
    ensures a == b
  {
    DecodePairsOfEncode(a);
    DecodePairsOfEncode(b);
  }

  /** High digit first, lower case. */
  lemma TwoBytes()
    ensures Encode([0x0a, 0x2f]) == "0a2f" && Decode("0a2f") == Some([0x0a, 0x2f])
  {
    assert [0x0a, 0x2f][1..] == [0x2f] && [0x2f][1..] == [];
    assert Encode([0x2f]) == "2f";
    DecodeOfEncode([0x0a, 0x2f]);
  }
}
