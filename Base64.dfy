/** The base64 encoding of RFC 4648, section 4 (standard alphabet, `=`
    padding, no line breaks), as Python's `base64.b64encode` produces it,
    and a strict decoder for it. The handler encodes the fetched object body
    with it before sending it to the conversion service. */
module Base64 {
  import opened Wrappers

  newtype byte = x: int | 0 <= x < 256

  /** An index into the 64-character alphabet. */
  type Sextet = x: int | 0 <= x < 64

  const Pad: char := '='

  /** The characters of the alphabet of RFC 4648, section 4, table 1. */
  predicate IsAlphabetChar(c: char) {
    'A' <= c <= 'Z' || 'a' <= c <= 'z' || '0' <= c <= '9' || c == '+' || c == '/'
  }

  /** Table 1 of RFC 4648, section 4: value to character. */
  function IndexToChar(i: Sextet): (c: char)
    ensures IsAlphabetChar(c)
  {
    if i < 26 then ('A' as int + i) as char
    else if i < 52 then ('a' as int + (i - 26)) as char
    else if i < 62 then ('0' as int + (i - 52)) as char
    else if i == 62 then '+'
    else '/'
  }

  /** Table 1 read backwards: character to value; None off the alphabet. */
  function CharToIndex(c: char): (r: Option<Sextet>)
    ensures r.Some? <==> IsAlphabetChar(c)
  {
    if 'A' <= c <= 'Z' then Some(c as int - 'A' as int)
    else if 'a' <= c <= 'z' then Some(c as int - 'a' as int + 26)
    else if '0' <= c <= '9' then Some(c as int - '0' as int + 52)
    else if c == '+' then Some(62)
    else if c == '/' then Some(63)
    else None
  }

  lemma CharToIndexOfIndexToChar(i: Sextet)
    ensures CharToIndex(IndexToChar(i)) == Some(i)
  {
  }

  // ---------------------------------------------------------------------
  // Encoding: each group of three bytes (24 bits) becomes four characters
  // of six bits each; a final group of one or two bytes is padded with
  // zero bits and completed with `=`.
  // ---------------------------------------------------------------------

  // The sextets of the bits of b0 b1 b2, most significant first.
  function Sextet0(b0: byte): Sextet { b0 as int / 4 }
  function Sextet1(b0: byte, b1: byte): Sextet { b0 as int % 4 * 16 + b1 as int / 16 }
  function Sextet2(b1: byte, b2: byte): Sextet { b1 as int % 16 * 4 + b2 as int / 64 }
  function Sextet3(b2: byte): Sextet { b2 as int % 64 }

  function EncodeTriple(b0: byte, b1: byte, b2: byte): string {
    [IndexToChar(Sextet0(b0)), IndexToChar(Sextet1(b0, b1)),
     IndexToChar(Sextet2(b1, b2)), IndexToChar(Sextet3(b2))]
  }

  function EncodeOne(b0: byte): string {
    [IndexToChar(Sextet0(b0)), IndexToChar(Sextet1(b0, 0)), Pad, Pad]
  }

  function EncodeTwo(b0: byte, b1: byte): string {
    [IndexToChar(Sextet0(b0)), IndexToChar(Sextet1(b0, b1)), IndexToChar(Sextet2(b1, 0)), Pad]
  }

  /** `base64.b64encode(body).decode('utf-8')`: 4 * ceil(n / 3) characters
      of the alphabet or `=`, where `=` appears only in the last two
      positions. */
  function Encode(s: seq<byte>): (r: string)
    ensures |r| == 4 * ((|s| + 2) / 3)
    ensures forall i :: 0 <= i < |r| ==> IsAlphabetChar(r[i]) || (r[i] == Pad && i >= |r| - 2)
    decreases |s|
  {
    if |s| == 0 then ""
    else if |s| == 1 then EncodeOne(s[0])
    else if |s| == 2 then EncodeTwo(s[0], s[1])
    else if |s| == 3 then EncodeTriple(s[0], s[1], s[2])
    else
      var group, rest := EncodeTriple(s[0], s[1], s[2]), Encode(s[3..]);
      assert (|s| + 2) / 3 == (|s[3..]| + 2) / 3 + 1;
      GroupThenPadded(group, rest);
      group + rest
  }

  /** A full group in front of a padded text keeps `=` to the last two
      positions. */
  lemma GroupThenPadded(group: string, rest: string)
    requires |group| == 4 && forall i :: 0 <= i < 4 ==> IsAlphabetChar(group[i])
    requires forall i :: 0 <= i < |rest| ==> IsAlphabetChar(rest[i]) || (rest[i] == Pad && i >= |rest| - 2)
    ensures forall i :: 0 <= i < |group + rest| ==>
      IsAlphabetChar((group + rest)[i]) || ((group + rest)[i] == Pad && i >= |group + rest| - 2)
  {
    forall i | 0 <= i < |group + rest|
      ensures IsAlphabetChar((group + rest)[i]) || ((group + rest)[i] == Pad && i >= |group + rest| - 2)
    {
      if i >= 4 {
        assert (group + rest)[i] == rest[i - 4];
      }
    }
  }

  // ---------------------------------------------------------------------
  // Decoding. Strict: the length must be a multiple of four, `=` may only
  // close the last group, every other character must be in the alphabet,
  // and the padding bits of a short last group must be zero (section 3.5
  // of RFC 4648 permits a decoder to insist on that).
  // ---------------------------------------------------------------------

  // The bytes carried by the sextets i0 i1 i2 i3 of one group.
  function FirstByte(i0: Sextet, i1: Sextet): byte { (i0 as int * 4 + i1 as int / 16) as byte }
  function SecondByte(i1: Sextet, i2: Sextet): byte { (i1 as int % 16 * 16 + i2 as int / 4) as byte }
  function ThirdByte(i2: Sextet, i3: Sextet): byte { (i2 as int % 4 * 64 + i3 as int) as byte }

  /** Four alphabet characters to three bytes. */
  function DecodeQuad(c0: char, c1: char, c2: char, c3: char): Option<seq<byte>> {
    var i0, i1, i2, i3 := CharToIndex(c0), CharToIndex(c1), CharToIndex(c2), CharToIndex(c3);
    if i0.Some? && i1.Some? && i2.Some? && i3.Some? then
      Some([FirstByte(i0.value, i1.value), SecondByte(i1.value, i2.value), ThirdByte(i2.value, i3.value)])
    else None
  }

  /** Two alphabet characters and "==" to one byte. */
  function DecodeOne(c0: char, c1: char): Option<seq<byte>> {
    var i0, i1 := CharToIndex(c0), CharToIndex(c1);
    if i0.Some? && i1.Some? && i1.value % 16 == 0 then
      Some([FirstByte(i0.value, i1.value)])
    else None
  }

  /** Three alphabet characters and "=" to two bytes. */
  function DecodeTwo(c0: char, c1: char, c2: char): Option<seq<byte>> {
    var i0, i1, i2 := CharToIndex(c0), CharToIndex(c1), CharToIndex(c2);
    if i0.Some? && i1.Some? && i2.Some? && i2.value % 4 == 0 then
      Some([FirstByte(i0.value, i1.value), SecondByte(i1.value, i2.value)])
    else None
  }

  /** The last group of four characters, with or without padding. */
  function DecodeLast(q: string): Option<seq<byte>>
    requires |q| == 4
  {
    if q[2] == Pad && q[3] == Pad then DecodeOne(q[0], q[1])
    else if q[3] == Pad then DecodeTwo(q[0], q[1], q[2])
    else DecodeQuad(q[0], q[1], q[2], q[3])
  }

  /** The strict decoder `Encode` is proved against: None for a text of
      the wrong length, with a character off the alphabet, with `=` other
      than at the end of the last group, or with nonzero padding bits. */
  function Decode(r: string): (s: Option<seq<byte>>)
    ensures s.Some? ==> |r| % 4 == 0
    decreases |r|
  {
    if |r| == 0 then Some([])
    else if |r| < 4 then None
    else if |r| == 4 then DecodeLast(r)
    else
      var head, tail := DecodeQuad(r[0], r[1], r[2], r[3]), Decode(r[4..]);
      assert tail.Some? ==> |r| % 4 == 0 by { assert |r| == |r[4..]| + 4; }
      if head.Some? && tail.Some? then Some(head.value + tail.value) else None
  }

  // ---------------------------------------------------------------------
  // Round trips
  // ---------------------------------------------------------------------

  // Regrouping the sextets of a group gives back its bytes.

  lemma FirstByteOfSextets(b0: byte, b1: byte)
    ensures FirstByte(Sextet0(b0), Sextet1(b0, b1)) == b0
  {
    var x0, x1 := b0 as int, b1 as int;
    assert (x0 % 4 * 16 + x1 / 16) / 16 == x0 % 4;
  }

  lemma SecondByteOfSextets(b0: byte, b1: byte, b2: byte)
    ensures SecondByte(Sextet1(b0, b1), Sextet2(b1, b2)) == b1
  {
    var x0, x1, x2 := b0 as int, b1 as int, b2 as int;
    assert (x0 % 4 * 16 + x1 / 16) % 16 == x1 / 16;
    assert (x1 % 16 * 4 + x2 / 64) / 4 == x1 % 16;
  }

  lemma ThirdByteOfSextets(b1: byte, b2: byte)
    ensures ThirdByte(Sextet2(b1, b2), Sextet3(b2)) == b2
  {
    var x1, x2 := b1 as int, b2 as int;
    assert (x1 % 16 * 4 + x2 / 64) % 4 == x2 / 64;
  }

  /** A text of one group is decoded as a last group. */
  lemma DecodeOfOneGroup(q: string)
    requires |q| == 4
    ensures Decode(q) == DecodeLast(q)
  {
  }

  lemma DecodeQuadOfTriple(b0: byte, b1: byte, b2: byte)
    ensures var q := EncodeTriple(b0, b1, b2); DecodeQuad(q[0], q[1], q[2], q[3]) == Some([b0, b1, b2])
  {
    CharToIndexOfIndexToChar(Sextet0(b0));
    CharToIndexOfIndexToChar(Sextet1(b0, b1));
    CharToIndexOfIndexToChar(Sextet2(b1, b2));
    CharToIndexOfIndexToChar(Sextet3(b2));
    FirstByteOfSextets(b0, b1);
    SecondByteOfSextets(b0, b1, b2);
    ThirdByteOfSextets(b1, b2);
  }

  lemma DecodeEncodeTriple(b0: byte, b1: byte, b2: byte)
    ensures Decode(EncodeTriple(b0, b1, b2)) == Some([b0, b1, b2])
  {
    var q := EncodeTriple(b0, b1, b2);
    DecodeQuadOfTriple(b0, b1, b2);
    DecodeOfOneGroup(q);
    assert q[3] != Pad;
  }

  lemma DecodeEncodeOne(b0: byte)
    ensures Decode(EncodeOne(b0)) == Some([b0])
  {
    CharToIndexOfIndexToChar(Sextet0(b0));
    CharToIndexOfIndexToChar(Sextet1(b0, 0));
    FirstByteOfSextets(b0, 0);
    DecodeOfOneGroup(EncodeOne(b0));
  }

  lemma DecodeEncodeTwo(b0: byte, b1: byte)
    ensures Decode(EncodeTwo(b0, b1)) == Some([b0, b1])
  {
    CharToIndexOfIndexToChar(Sextet0(b0));
    CharToIndexOfIndexToChar(Sextet1(b0, b1));
    CharToIndexOfIndexToChar(Sextet2(b1, 0));
    FirstByteOfSextets(b0, b1);
    SecondByteOfSextets(b0, b1, 0);
    DecodeOfOneGroup(EncodeTwo(b0, b1));
  }

  /** The test vectors of section 10 of RFC 4648, up to three bytes. */
  lemma EncodeShortTestVectors()
    ensures Encode([]) == ""
    ensures Encode([102]) == "Zg=="
    ensures Encode([102, 111]) == "Zm8="
    ensures Encode([102, 111, 111]) == "Zm9v"
  {
  }

  /** The test vectors of section 10 of RFC 4648, past three bytes: the
      group "foo", then the encoding of the rest. */
  lemma EncodeTestVectorFoob()
    ensures Encode([102, 111, 111, 98]) == "Zm9vYg=="
  {
    EncodeTail([102, 111, 111, 98], [98]);
    EncodeFooAndTails();
  }

  lemma EncodeTestVectorFooba()
    ensures Encode([102, 111, 111, 98, 97]) == "Zm9vYmE="
  {
    EncodeTail([102, 111, 111, 98, 97], [98, 97]);
    EncodeFooAndTails();
  }

  lemma EncodeTestVectorFoobar()
    ensures Encode([102, 111, 111, 98, 97, 114]) == "Zm9vYmFy"
  {
    EncodeTail([102, 111, 111, 98, 97, 114], [98, 97, 114]);
    EncodeFooAndTails();
  }

  /** The groups the long test vectors are made of. */
  lemma EncodeFooAndTails()
    ensures EncodeTriple(102, 111, 111) == "Zm9v"
    ensures Encode([98]) == "Yg=="
    ensures Encode([98, 97]) == "YmE="
    ensures Encode([98, 97, 114]) == "YmFy"
  {
  }

  /** The encoding of an input longer than three bytes: its first group,
      then the encoding of the rest. */
  lemma EncodeTail(s: seq<byte>, tail: seq<byte>)
    requires |s| > 3 && s[3..] == tail
    ensures Encode(s) == EncodeTriple(s[0], s[1], s[2]) + Encode(tail)
  {
  }

  /** How `Encode` splits its input: a short input is one padded group, a
      longer one a full group followed by the encoding of the rest. */
  lemma EncodeGroups(s: seq<byte>)
    ensures |s| == 1 ==> Encode(s) == EncodeOne(s[0])
    ensures |s| == 2 ==> Encode(s) == EncodeTwo(s[0], s[1])
    ensures |s| == 3 ==> Encode(s) == EncodeTriple(s[0], s[1], s[2])
    ensures |s| > 3 ==> Encode(s) == EncodeTriple(s[0], s[1], s[2]) + Encode(s[3..])
  {
  }

  /** Decoding the encoding gives back exactly the original bytes. */
  lemma {:induction false} DecodeEncode(s: seq<byte>)
    ensures Decode(Encode(s)) == Some(s)
    decreases |s|
  {
    if |s| == 1 {
      DecodeEncodeOfOne(s);
    } else if |s| == 2 {
      DecodeEncodeOfTwo(s);
    } else if |s| == 3 {
      DecodeEncodeOfThree(s);
    } else if |s| > 3 {
      DecodeEncode(s[3..]);
      DecodeEncodeOfMore(s);
    }
  }

  lemma DecodeEncodeOfOne(s: seq<byte>)
    requires |s| == 1
    ensures Decode(Encode(s)) == Some(s)
  {
    assert s == [s[0]];
    assert Encode(s) == EncodeOne(s[0]);
    DecodeEncodeOne(s[0]);
  }

  lemma DecodeEncodeOfTwo(s: seq<byte>)
    requires |s| == 2
    ensures Decode(Encode(s)) == Some(s)
  {
    assert s == [s[0], s[1]];
    assert Encode(s) == EncodeTwo(s[0], s[1]);
    DecodeEncodeTwo(s[0], s[1]);
  }

  lemma DecodeEncodeOfThree(s: seq<byte>)
    requires |s| == 3
    ensures Decode(Encode(s)) == Some(s)
  {
    ThreeBytes(s);
    assert Encode(s) == EncodeTriple(s[0], s[1], s[2]);
    DecodeEncodeTriple(s[0], s[1], s[2]);
  }

  lemma DecodeEncodeOfMore(s: seq<byte>)
    requires |s| > 3
    requires Decode(Encode(s[3..])) == Some(s[3..])
    ensures Decode(Encode(s)) == Some(s)
  {
    EncodeGroups(s);
    DecodeQuadOfTriple(s[0], s[1], s[2]);
    ThreeThenRest(s);
    DecodeGroupThen(Encode(s), EncodeTriple(s[0], s[1], s[2]), Encode(s[3..]), [s[0], s[1], s[2]], s[3..]);
  }

  lemma ThreeBytes(s: seq<byte>)
    requires |s| == 3
    ensures s == [s[0], s[1], s[2]]
  {
  }

  lemma ThreeThenRest(s: seq<byte>)
    requires |s| >= 3
    ensures s == [s[0], s[1], s[2]] + s[3..]
  {
  }

  /** A full group in front of a decodable non-empty text decodes to the
      group's bytes in front of the text's. */
  lemma DecodeGroupThen(r: string, q: string, tail: string, head: seq<byte>, rest: seq<byte>)
    requires r == q + tail && |q| == 4 && |tail| > 0
    requires DecodeQuad(q[0], q[1], q[2], q[3]) == Some(head)
    requires Decode(tail) == Some(rest)
    ensures Decode(r) == Some(head + rest)
  {
    assert r[4..] == tail;
    assert r[0] == q[0] && r[1] == q[1] && r[2] == q[2] && r[3] == q[3];
  }
}
