/** Base 64 encoding as in section 4 of RFC 4648 (the alphabet `A`–`Z`,
    `a`–`z`, `0`–`9`, `+`, `/`, padded with `=`), which Python's
    `b64encode` produces, together with a decoder for its output. */
module Base64 {
  import opened Wrappers
  import opened Bytes

  /** The character for a 6-bit value. */
  function Char(v: int): (c: char)
    requires 0 <= v < 64
  {
    if v < 26 then ('A' as int + v) as char
    else if v < 52 then ('a' as int + v - 26) as char
    else if v < 62 then ('0' as int + v - 52) as char
    else if v == 62 then '+'
    else '/'
  }

  /** The 6-bit value of an alphabet character; `None` for any other character. */
  function Value(c: char): (r: Option<int>)
    ensures r.Some? ==> 0 <= r.value < 64 && Char(r.value) == c
  {
    if 'A' <= c <= 'Z' then Some(c as int - 'A' as int)
    else if 'a' <= c <= 'z' then Some(c as int - 'a' as int + 26)
    else if '0' <= c <= '9' then Some(c as int - '0' as int + 52)
    else if c == '+' then Some(62)
    else if c == '/' then Some(63)
    else None
  }

  /** Every 6-bit value is read back from its character; the padding
      character is not in the alphabet. */
  lemma ValueOfChar(v: int)
    requires 0 <= v < 64
    ensures Value(Char(v)) == Some(v)
    ensures Char(v) != '='
  {
  }

  /** The characters of one group of three bytes. */
  function Quad(b0: Byte, b1: Byte, b2: Byte): string
  {
    [Char(b0 / 4), Char(b0 % 4 * 16 + b1 / 16), Char(b1 % 16 * 4 + b2 / 64), Char(b2 % 64)]
  }

  /** The encoding: four characters per three bytes, the last group padded
      with `=` when one or two bytes remain. */
  function Encode(b: seq<Byte>): (s: string)
    ensures |s| == 4 * ((|b| + 2) / 3)
    decreases |b|
  {
    if |b| == 0 then ""
    else if |b| == 1 then [Char(b[0] / 4), Char(b[0] % 4 * 16), '=', '=']
    else if |b| == 2 then [Char(b[0] / 4), Char(b[0] % 4 * 16 + b[1] / 16), Char(b[1] % 16 * 4), '=']
    else Quad(b[0], b[1], b[2]) + Encode(b[3..])
  }

  /** The first byte of a group: six bits of the first value, two of the second. */
  function First(v0: int, v1: int): Byte
    requires 0 <= v0 < 64 && 0 <= v1 < 64
  {
    v0 * 4 + v1 / 16
  }

  /** The second byte of a group: four bits of the second value, four of the third. */
  function Second(v1: int, v2: int): Byte
    requires 0 <= v1 < 64 && 0 <= v2 < 64
  {
    v1 % 16 * 16 + v2 / 4
  }

  /** The third byte of a group: two bits of the third value, six of the fourth. */
  function Third(v2: int, v3: int): Byte
    requires 0 <= v2 < 64 && 0 <= v3 < 64
  {
    v2 % 4 * 64 + v3
  }

  /** A group of four alphabet characters: its three bytes. */
  function Full(c0: char, c1: char, c2: char, c3: char): (r: Option<seq<Byte>>)
    ensures r.Some? ==> |r.value| == 3
  {
    var v0, v1, v2, v3 := Value(c0), Value(c1), Value(c2), Value(c3);
    if v0.None? || v1.None? || v2.None? || v3.None? then None
    else Some([First(v0.value, v1.value), Second(v1.value, v2.value), Third(v2.value, v3.value)])
  }

  /** The last group, which may end in one or two padding characters; the
      pad bits before the padding must be zero, a check section 3.5 of
      RFC 4648 allows a decoder to make. */
  function Final(c0: char, c1: char, c2: char, c3: char): (r: Option<seq<Byte>>)
    ensures r.Some? ==> 1 <= |r.value| <= 3
  {
    var v0, v1, v2 := Value(c0), Value(c1), Value(c2);
    if c2 == '=' && c3 == '=' then
      if v0.None? || v1.None? || v1.value % 16 != 0 then None
      else Some([First(v0.value, v1.value)])
    else if c3 == '=' then
      if v0.None? || v1.None? || v2.None? || v2.value % 4 != 0 then None
      else Some([First(v0.value, v1.value), Second(v1.value, v2.value)])
    else Full(c0, c1, c2, c3)
  }

  /** The decoder: the inverse of `Encode`, `None` on text that is not an
      encoding (wrong length, a character outside the alphabet, misplaced
      padding, or non-zero pad bits). */
  function Decode(s: string): (r: Option<seq<Byte>>)
    decreases |s|
  {
    if |s| == 0 then Some([])
    else if |s| < 4 then None
    else if |s| == 4 then Final(s[0], s[1], s[2], s[3])
    else match Full(s[0], s[1], s[2], s[3])
      case None => None
      case Some(group) =>
        match Decode(s[4..])
        case None => None
        case Some(rest) => Some(group + rest)
  }

  /** The three bytes of a group are recovered from its four 6-bit values. */
  lemma GroupRoundTrip(b0: Byte, b1: Byte, b2: Byte)
    ensures First(b0 / 4, b0 % 4 * 16 + b1 / 16) == b0
    ensures Second(b0 % 4 * 16 + b1 / 16, b1 % 16 * 4 + b2 / 64) == b1
    ensures Third(b1 % 16 * 4 + b2 / 64, b2 % 64) == b2
  {
  }

  /** One full group of alphabet characters in front of a decodable text
      decodes to the group's three bytes in front of the text's bytes. */
  lemma DecodeStep(v0: int, v1: int, v2: int, v3: int, tail: string, rest: seq<Byte>)
    requires 0 <= v0 < 64 && 0 <= v1 < 64 && 0 <= v2 < 64 && 0 <= v3 < 64
    requires Decode(tail) == Some(rest)
    ensures Decode([Char(v0), Char(v1), Char(v2), Char(v3)] + tail) == Some([First(v0, v1), Second(v1, v2), Third(v2, v3)] + rest)
  {
    var s := [Char(v0), Char(v1), Char(v2), Char(v3)] + tail;
    ValueOfChar(v0);
    ValueOfChar(v1);
    ValueOfChar(v2);
    ValueOfChar(v3);
    var group := [First(v0, v1), Second(v1, v2), Third(v2, v3)];
    assert Full(Char(v0), Char(v1), Char(v2), Char(v3)) == Some(group);
    assert s[0] == Char(v0) && s[1] == Char(v1) && s[2] == Char(v2) && s[3] == Char(v3);
    if |tail| == 0 {
      assert Final(Char(v0), Char(v1), Char(v2), Char(v3)) == Some(group);
      assert group + rest == group;
    } else {
      assert s[4..] == tail;
    }
  }

  /** Decoding an encoding gives back the bytes. */
  lemma {:induction false} DecodeEncode(b: seq<Byte>)
    ensures Decode(Encode(b)) == Some(b)
    decreases |b|, 2
  {
    if |b| < 3 {
      DecodeShort(b);
    } else {
      DecodeLong(b);
    }
  }

  /** A text of three or more bytes decodes back, group by group. */
  lemma {:induction false} DecodeLong(b: seq<Byte>)
    requires |b| >= 3
    ensures Decode(Encode(b)) == Some(b)
    decreases |b|, 1
  {
    SplitGroup(b);
    DecodeFull(b[0], b[1], b[2], b[3..]);
  }

  lemma SplitGroup(b: seq<Byte>)
    requires |b| >= 3
    ensures b == [b[0], b[1], b[2]] + b[3..]
  {
  }

  /** The last, padded group (or nothing) decodes back. */
  lemma DecodeShort(b: seq<Byte>)
    requires |b| < 3
    ensures Decode(Encode(b)) == Some(b)
  {
    if |b| == 1 {
      DecodeLastOne(b[0]);
      assert b == [b[0]];
    } else if |b| == 2 {
      DecodeLastTwo(b[0], b[1]);
      assert b == [b[0], b[1]];
    }
  }

  lemma DecodeLastOne(b0: Byte)
    ensures Decode(Encode([b0])) == Some([b0])
  {
    var v0, v1 := b0 / 4, b0 % 4 * 16;
    assert v1 % 16 == 0;
    ValueOfChar(v0);
    ValueOfChar(v1);
    GroupRoundTrip(b0, 0, 0);
    var s := [Char(v0), Char(v1), '=', '='];
    assert Encode([b0]) == s;
    assert Final(Char(v0), Char(v1), '=', '=') == Some([b0]);
  }

  lemma DecodeLastTwo(b0: Byte, b1: Byte)
    ensures Decode(Encode([b0, b1])) == Some([b0, b1])
  {
    var v0, v1, v2 := b0 / 4, b0 % 4 * 16 + b1 / 16, b1 % 16 * 4;
    assert v2 % 4 == 0;
    ValueOfChar(v0);
    ValueOfChar(v1);
    ValueOfChar(v2);
    GroupRoundTrip(b0, b1, 0);
    var s := [Char(v0), Char(v1), Char(v2), '='];
    assert Encode([b0, b1]) == s;
    assert Final(Char(v0), Char(v1), Char(v2), '=') == Some([b0, b1]);
  }

  /** The inductive step: a full leading group decodes in front of the rest. */
  lemma {:induction false} DecodeFull(b0: Byte, b1: Byte, b2: Byte, rest: seq<Byte>)
    ensures Decode(Encode([b0, b1, b2] + rest)) == Some([b0, b1, b2] + rest)
    decreases |rest| + 3, 0
  {
    DecodeEncode(rest);
    var b := [b0, b1, b2] + rest;
    assert b[3..] == rest;
    assert Encode(b) == Quad(b0, b1, b2) + Encode(rest);
    DecodeGroup(b0, b1, b2, Encode(rest), rest);
  }

  lemma DecodeGroup(b0: Byte, b1: Byte, b2: Byte, tail: string, rest: seq<Byte>)
    requires Decode(tail) == Some(rest)
    ensures Decode(Quad(b0, b1, b2) + tail) == Some([b0, b1, b2] + rest)
  {
    DecodeStep(b0 / 4, b0 % 4 * 16 + b1 / 16, b1 % 16 * 4 + b2 / 64, b2 % 64, tail, rest);
    GroupRoundTrip(b0, b1, b2);
  }

  /** The four 6-bit values are recovered from the bytes they decode to;
      the pad bits, when zero, are recovered too. */
  lemma GroupValues(v0: int, v1: int, v2: int, v3: int)
    requires 0 <= v0 < 64 && 0 <= v1 < 64 && 0 <= v2 < 64 && 0 <= v3 < 64
    ensures First(v0, v1) / 4 == v0
    ensures First(v0, v1) % 4 * 16 + Second(v1, v2) / 16 == v1
    ensures Second(v1, v2) % 16 * 4 + Third(v2, v3) / 64 == v2
    ensures Third(v2, v3) % 64 == v3
    ensures v1 % 16 == 0 ==> First(v0, v1) % 4 * 16 == v1
    ensures v2 % 4 == 0 ==> Second(v1, v2) % 16 * 4 == v2
  {
    assert First(v0, v1) / 4 == v0 && First(v0, v1) % 4 == v1 / 16;
    assert Second(v1, v2) / 16 == v1 % 16 && Second(v1, v2) % 16 == v2 / 4;
    assert Third(v2, v3) / 64 == v2 % 4 && Third(v2, v3) % 64 == v3;
  }

  /** Every text the decoder accepts is the encoding of what it decodes to:
      the decoder accepts one text per byte string, so a decoded entry pins
      the text down. */
  lemma {:induction false} EncodeDecode(s: string)
    ensures Decode(s).Some? ==> Encode(Decode(s).value) == s
    decreases |s|, 1
  {
    if |s| == 4 {
      EncodeFinal(s[0], s[1], s[2], s[3]);
      assert s == [s[0], s[1], s[2], s[3]];
    } else if |s| > 4 {
      EncodeDecodeLong(s);
    }
  }

  /** A text longer than one group: its first group is full, and the rest
      is accepted on its own. */
  lemma {:induction false} EncodeDecodeLong(s: string)
    requires |s| > 4
    ensures Decode(s).Some? ==> Encode(Decode(s).value) == s
    decreases |s|, 0
  {
    if Decode(s).Some? {
      var tail := s[4..];
      var group := Full(s[0], s[1], s[2], s[3]).value;
      var rest := Decode(tail).value;
      assert Decode(s).value == group + rest;
      EncodeDecode(tail);
      EncodeFull(s[0], s[1], s[2], s[3], rest);
      SplitQuad(s);
    }
  }

  lemma SplitQuad(s: string)
    requires |s| >= 4
    ensures s == [s[0], s[1], s[2], s[3]] + s[4..]
  {
  }

  /** A last group the decoder accepts is the encoding of its bytes. */
  lemma EncodeFinal(c0: char, c1: char, c2: char, c3: char)
    ensures Final(c0, c1, c2, c3).Some? ==> Encode(Final(c0, c1, c2, c3).value) == [c0, c1, c2, c3]
  {
    var v0, v1, v2 := Value(c0), Value(c1), Value(c2);
    if Final(c0, c1, c2, c3).Some? {
      if c2 == '=' && c3 == '=' {
        EncodePadTwo(v0.value, v1.value);
      } else if c3 == '=' {
        EncodePadOne(v0.value, v1.value, v2.value);
      } else {
        EncodeFull(c0, c1, c2, c3, []);
        assert Full(c0, c1, c2, c3).value + [] == Full(c0, c1, c2, c3).value;
      }
    }
  }

  /** A full group the decoder accepts, in front of some bytes, encodes to
      its characters in front of their encoding. */
  lemma EncodeFull(c0: char, c1: char, c2: char, c3: char, rest: seq<Byte>)
    ensures Full(c0, c1, c2, c3).Some? ==> Encode(Full(c0, c1, c2, c3).value + rest) == [c0, c1, c2, c3] + Encode(rest)
  {
    if Full(c0, c1, c2, c3).Some? {
      EncodeGroup(Value(c0).value, Value(c1).value, Value(c2).value, Value(c3).value, rest);
    }
  }

  /** A group with two padding characters and zero pad bits is the encoding of its byte. */
  lemma EncodePadTwo(v0: int, v1: int)
    requires 0 <= v0 < 64 && 0 <= v1 < 64 && v1 % 16 == 0
    ensures Encode([First(v0, v1)]) == [Char(v0), Char(v1), '=', '=']
  {
    GroupValues(v0, v1, 0, 0);
  }

  /** A group with one padding character and zero pad bits is the encoding of its two bytes. */
  lemma EncodePadOne(v0: int, v1: int, v2: int)
    requires 0 <= v0 < 64 && 0 <= v1 < 64 && 0 <= v2 < 64 && v2 % 4 == 0
    ensures Encode([First(v0, v1), Second(v1, v2)]) == [Char(v0), Char(v1), Char(v2), '=']
  {
    GroupValues(v0, v1, v2, 0);
  }

  /** A full group in front of the bytes of the rest encodes to the group's
      characters in front of the rest's encoding. */
  lemma EncodeGroup(v0: int, v1: int, v2: int, v3: int, rest: seq<Byte>)
    requires 0 <= v0 < 64 && 0 <= v1 < 64 && 0 <= v2 < 64 && 0 <= v3 < 64
    ensures Encode([First(v0, v1), Second(v1, v2), Third(v2, v3)] + rest) == [Char(v0), Char(v1), Char(v2), Char(v3)] + Encode(rest)
  {
    var b := [First(v0, v1), Second(v1, v2), Third(v2, v3)] + rest;
    GroupValues(v0, v1, v2, v3);
    assert b[3..] == rest;
    assert Encode(b) == Quad(b[0], b[1], b[2]) + Encode(rest);
  }

  /** The vectors of section 10 of RFC 4648, and a text with non-zero pad
      bits, which the decoder rejects. */
  lemma StandardVectors()
    ensures Encode([]) == ""
    ensures Encode([102]) == "Zg=="
    ensures Encode([102, 111]) == "Zm8="
    ensures Encode([102, 111, 111]) == "Zm9v"
    ensures Encode([102, 111, 111, 98]) == "Zm9vYg=="
    ensures Encode([102, 111, 111, 98, 97]) == "Zm9vYmE="
    ensures Encode([102, 111, 111, 98, 97, 114]) == "Zm9vYmFy"
    ensures Decode("Zh==") == None
  {
    assert [102, 111, 111, 98][3..] == [98];
    assert [102, 111, 111, 98, 97][3..] == [98, 97];
    assert [102, 111, 111, 98, 97, 114][3..] == [98, 97, 114];
  }

  /** Different byte strings have different encodings. */
  lemma EncodeInjective(a: seq<Byte>, b: seq<Byte>)
    requires Encode(a) == Encode(b)
    ensures a == b
  {
    DecodeEncode(a);
    DecodeEncode(b);
  }
}
