/** The lower-case hexadecimal rendering of a digest that Python's
    `hexdigest()` returns: two characters per byte, high nibble first. */
module Hex {
  import opened Wrappers
  import opened Bytes

  /** The hexadecimal digit of a 4-bit value. */
  function Digit(v: int): char
    requires 0 <= v < 16
  {
    if v < 10 then ('0' as int + v) as char else ('a' as int + v - 10) as char
  }

  /** The 4-bit value of a lower-case hexadecimal digit. */
  function DigitValue(c: char): (r: Option<int>)
    ensures r.Some? ==> 0 <= r.value < 16 && Digit(r.value) == c
  {
    if '0' <= c <= '9' then Some(c as int - '0' as int)
    else if 'a' <= c <= 'f' then Some(c as int - 'a' as int + 10)
    else None
  }

  lemma DigitValueOfDigit(v: int)
    requires 0 <= v < 16
    ensures DigitValue(Digit(v)) == Some(v)
  {
  }

  function Encode(b: seq<Byte>): (s: string)
    ensures |s| == 2 * |b|
  {
    if |b| == 0 then "" else [Digit(b[0] / 16), Digit(b[0] % 16)] + Encode(b[1..])
  }

  /** The inverse of `Encode`: `None` on text of odd length or with a
      character that is not a lower-case hexadecimal digit. */
  function Decode(s: string): Option<seq<Byte>>
    decreases |s|
  {
    if |s| == 0 then Some([])
    else if |s| == 1 then None
    else match (DigitValue(s[0]), DigitValue(s[1]), Decode(s[2..]))
      case (Some(hi), Some(lo), Some(rest)) => Some([hi * 16 + lo] + rest)
      case _ => None
  }

  /** Reading the digits back gives the digest. */
  lemma {:induction false} DecodeEncode(b: seq<Byte>)
    ensures Decode(Encode(b)) == Some(b)
  {
    if |b| > 0 {
      DecodeEncode(b[1..]);
      DigitValueOfDigit(b[0] / 16);
      DigitValueOfDigit(b[0] % 16);
      var s := Encode(b);
      assert s[2..] == Encode(b[1..]);
      assert b == [b[0]] + b[1..];
    }
  }

  /** Every text the decoder accepts is the rendering of what it decodes
      to: the decoder accepts one text per digest. */
  lemma {:induction false} EncodeDecode(s: string)
    ensures Decode(s).Some? ==> Encode(Decode(s).value) == s
    decreases |s|
  {
    if |s| >= 2 && Decode(s).Some? {
      var hi, lo := DigitValue(s[0]).value, DigitValue(s[1]).value;
      var rest := Decode(s[2..]).value;
      var b := Decode(s).value;
      EncodeDecode(s[2..]);
      assert b == [hi * 16 + lo] + rest;
      assert b[0] / 16 == hi && b[0] % 16 == lo;
      assert b[1..] == rest;
      assert Encode(b) == [Digit(hi), Digit(lo)] + Encode(rest);
      assert s == [s[0], s[1]] + s[2..];
    }
  }

  /** Vectors from section 10 of RFC 4648 in lower case, as `hexdigest`
      writes them, and bytes whose nibbles differ, so the high one is seen
      to come first. */
  lemma StandardVectors()
    ensures Encode([]) == ""
    ensures Encode([102]) == "66"
    ensures Encode([15, 160]) == "0fa0"
  {
    assert [15, 160][1..] == [160];
  }

  /** Different digests have different renderings. */
  lemma EncodeInjective(a: seq<Byte>, b: seq<Byte>)
    requires Encode(a) == Encode(b)
    ensures a == b
  {
    DecodeEncode(a);
    DecodeEncode(b);
  }
}
