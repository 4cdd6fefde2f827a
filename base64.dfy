/**
 * Base64 with the standard alphabet and `=` padding, as `btoa` produces it
 * (section 4 of RFC 4648), on byte strings, with its decoder.
 */
module Base64 {
  import opened Wrappers

  type Byte = x: int | 0 <= x < 256

  /** A six-bit group: the index of one base64 character. */
  type Sextet = x: int | 0 <= x < 64

  /** The character of the standard alphabet for a six-bit group. */
  function Char(i: Sextet): (c: char)
    ensures c != '='
  {
    if i < 26 then ('A' as int + i) as char
    else if i < 52 then ('a' as int + i - 26) as char
    else if i < 62 then ('0' as int + i - 52) as char
    else if i == 62 then '+'
    else '/'
  }

  /** The six-bit group a character of the standard alphabet stands for. */
  function SextetOf(c: char): (r: Option<Sextet>)
    ensures r.Some? ==> Char(r.value) == c
  {
    if 'A' <= c <= 'Z' then Some(c as int - 'A' as int)
    else if 'a' <= c <= 'z' then Some(c as int - 'a' as int + 26)
    else if '0' <= c <= '9' then Some(c as int - '0' as int + 52)
    else if c == '+' then Some(62)
    else if c == '/' then Some(63)
    else None
  }

  /** The alphabet decodes back to the group it encodes. */
  lemma SextetOfChar(i: Sextet)
    ensures SextetOf(Char(i)) == Some(i)
  {
  }

  predicate InAlphabet(c: char) {
    SextetOf(c).Some?
  }

  /** The four characters for three bytes. */
  function Block(b0: Byte, b1: Byte, b2: Byte): string {
    [Char(b0 / 4), Char(b0 % 4 * 16 + b1 / 16), Char(b1 % 16 * 4 + b2 / 64), Char(b2 % 64)]
  }

  /** The characters before the padding: four for every three bytes, two or three for a short tail. */
  function Unpadded(b: seq<Byte>): string
    decreases |b|
  {
    if |b| == 0 then ""
    else if |b| == 1 then [Char(b[0] / 4), Char(b[0] % 4 * 16)]
    else if |b| == 2 then [Char(b[0] / 4), Char(b[0] % 4 * 16 + b[1] / 16), Char(b[1] % 16 * 4)]
    else Block(b[0], b[1], b[2]) + Unpadded(b[3..])
  }

  /** The `=` signs that round the output up to a multiple of four. */
  function Padding(n: nat): string {
    if n % 3 == 1 then "==" else if n % 3 == 2 then "=" else ""
  }

  /** `btoa` on a byte string. */
  function Encode(b: seq<Byte>): string {
    Unpadded(b) + Padding(|b|)
  }

  /** Every character before the padding is in the alphabet. */
  lemma {:induction false} UnpaddedInAlphabet(b: seq<Byte>)
    ensures forall k :: 0 <= k < |Unpadded(b)| ==> InAlphabet(Unpadded(b)[k])
    decreases |b|
  {
    if |b| >= 3 {
      UnpaddedInAlphabet(b[3..]);
      var blk := Block(b[0], b[1], b[2]);
      forall k | 0 <= k < 4 ensures InAlphabet(blk[k]) {
        SextetOfChar(b[0] / 4);
        SextetOfChar(b[0] % 4 * 16 + b[1] / 16);
        SextetOfChar(b[1] % 16 * 4 + b[2] / 64);
        SextetOfChar(b[2] % 64);
      }
    } else if |b| == 2 {
      SextetOfChar(b[0] / 4);
      SextetOfChar(b[0] % 4 * 16 + b[1] / 16);
      SextetOfChar(b[1] % 16 * 4);
    } else if |b| == 1 {
      SextetOfChar(b[0] / 4);
      SextetOfChar(b[0] % 4 * 16);
    }
  }

  /** Four characters per three bytes, rounded up: the length of section 5 of RFC 4648 without padding. */
  lemma {:induction false} UnpaddedLength(b: seq<Byte>)
    ensures |Unpadded(b)| == (4 * |b| + 2) / 3
    decreases |b|
  {
    if |b| >= 3 {
      UnpaddedLength(b[3..]);
    }
  }

  /** The unpadded length plus the padding is four characters per started group of three bytes. */
  lemma PaddedLength(n: nat)
    ensures (4 * n + 2) / 3 + |Padding(n)| == 4 * ((n + 2) / 3)
  {
    var q := n / 3;
    if n % 3 == 0 {
      assert 4 * n + 2 == 3 * (4 * q) + 2 && n + 2 == 3 * q + 2;
    } else if n % 3 == 1 {
      assert 4 * n + 2 == 3 * (4 * q + 2) && n + 2 == 3 * (q + 1);
    } else {
      assert 4 * n + 2 == 3 * (4 * q + 3) + 1 && n + 2 == 3 * (q + 1) + 1;
    }
  }

  /** With the padding the length is a multiple of four. */
  lemma EncodeLength(b: seq<Byte>)
    ensures |Encode(b)| == 4 * ((|b| + 2) / 3)
    ensures |Encode(b)| % 4 == 0
  {
    var n, m := |b|, |Encode(b)|;
    assert m == |Unpadded(b)| + |Padding(n)|;
    UnpaddedLength(b);
    PaddedLength(n);
    MultipleOfFour(m, (n + 2) / 3);
  }

  lemma MultipleOfFour(m: int, q: int)
    requires m == 4 * q
    ensures m % 4 == 0
  {
  }

  /** Three bytes from four characters. */
  function DecodeBlock(c0: Sextet, c1: Sextet, c2: Sextet, c3: Sextet): seq<Byte> {
    [c0 * 4 + c1 / 16, c1 % 16 * 16 + c2 / 4, c2 % 4 * 64 + c3]
  }

  /** Four alphabet characters: a full block. */
  function DecodeQuad(q: string): Option<seq<Byte>>
    requires |q| == 4
  {
    if InAlphabet(q[0]) && InAlphabet(q[1]) && InAlphabet(q[2]) && InAlphabet(q[3])
    then Some(DecodeBlock(SextetOf(q[0]).value, SextetOf(q[1]).value, SextetOf(q[2]).value, SextetOf(q[3]).value))
    else None
  }

  /** The last four characters, which may end in one or two `=`. */
  function DecodeLast(q: string): Option<seq<Byte>>
    requires |q| == 4
  {
    if InAlphabet(q[0]) && InAlphabet(q[1]) && q[2] == '=' && q[3] == '=' then
      var c0, c1 := SextetOf(q[0]).value, SextetOf(q[1]).value;
      Some([c0 * 4 + c1 / 16])
    else if InAlphabet(q[0]) && InAlphabet(q[1]) && InAlphabet(q[2]) && q[3] == '=' then
      var c0, c1, c2 := SextetOf(q[0]).value, SextetOf(q[1]).value, SextetOf(q[2]).value;
      Some([c0 * 4 + c1 / 16, c1 % 16 * 16 + c2 / 4])
    else DecodeQuad(q)
  }

  /** `atob`: padded base64 back to bytes; `None` for anything that is not well formed. */
  function Decode(s: string): Option<seq<Byte>>
    decreases |s|
  {
    if |s| == 0 then Some([])
    else if |s| < 4 then None
    else if |s| == 4 then DecodeLast(s)
    else Prepend(DecodeQuad(s[..4]), Decode(s[4..]))
  }

  /** The bytes of a block in front of the bytes of the rest, when both decode. */
  function Prepend(head: Option<seq<Byte>>, tail: Option<seq<Byte>>): Option<seq<Byte>> {
    if head.Some? && tail.Some? then Some(head.value + tail.value) else None
  }

  /** Three bytes survive the block arithmetic. */
  lemma BlockRoundTrip(b0: Byte, b1: Byte, b2: Byte)
    ensures DecodeBlock(b0 / 4, b0 % 4 * 16 + b1 / 16, b1 % 16 * 4 + b2 / 64, b2 % 64) == [b0, b1, b2]
  {
    var c1, c2 := b0 % 4 * 16 + b1 / 16, b1 % 16 * 4 + b2 / 64;
    assert c1 / 16 == b0 % 4 && c1 % 16 == b1 / 16;
    assert c2 / 4 == b1 % 16 && c2 % 4 == b2 / 64;
    assert b0 / 4 * 4 + b0 % 4 == b0;
    assert b1 / 16 * 16 + b1 % 16 == b1;
    assert b2 / 64 * 64 + b2 % 64 == b2;
  }

  /** One trailing byte: two characters and `==`. */
  lemma DecodeOneByte(b0: Byte)
    ensures Decode(Encode([b0])) == Some([b0])
  {
    var c0, c1 := b0 / 4, b0 % 4 * 16;
    SextetOfChar(c0);
    SextetOfChar(c1);
    var e := Encode([b0]);
    assert e == [Char(c0), Char(c1), '=', '='];
    assert c1 / 16 == b0 % 4;
    assert DecodeLast(e) == Some([c0 * 4 + c1 / 16]);
  }

  /** Two trailing bytes: three characters and `=`. */
  lemma DecodeTwoBytes(b0: Byte, b1: Byte)
    ensures Decode(Encode([b0, b1])) == Some([b0, b1])
  {
    var c0, c1, c2 := b0 / 4, b0 % 4 * 16 + b1 / 16, b1 % 16 * 4;
    SextetOfChar(c0);
    SextetOfChar(c1);
    SextetOfChar(c2);
    var e := Encode([b0, b1]);
    assert e == [Char(c0), Char(c1), Char(c2), '='];
    assert c1 / 16 == b0 % 4 && c1 % 16 == b1 / 16 && c2 / 4 == b1 % 16;
    assert DecodeLast(e) == Some([c0 * 4 + c1 / 16, c1 % 16 * 16 + c2 / 4]);
  }

  /** Three more bytes in front add one block in front of the characters. */
  lemma UnpaddedBlockPrefix(b0: Byte, b1: Byte, b2: Byte, rest: seq<Byte>)
    ensures Unpadded([b0, b1, b2] + rest) == Block(b0, b1, b2) + Unpadded(rest)
  {
    var b := [b0, b1, b2] + rest;
    assert b[3..] == rest;
  }

  /** Three more bytes keep the padding. */
  lemma PaddingShift(n: nat)
    ensures Padding(n + 3) == Padding(n)
  {
    assert (n + 3) % 3 == n % 3;
  }

  /** Three more bytes in front add one block in front, and the padding stays. */
  lemma EncodeBlockPrefix(b0: Byte, b1: Byte, b2: Byte, rest: seq<Byte>)
    ensures Encode([b0, b1, b2] + rest) == Block(b0, b1, b2) + Encode(rest)
  {
    UnpaddedBlockPrefix(b0, b1, b2, rest);
    PaddingShift(|rest|);
    var blk, u, p := Block(b0, b1, b2), Unpadded(rest), Padding(|rest|);
    assert (blk + u) + p == blk + (u + p);
  }

  /** A block decodes to the three bytes it was made from. */
  lemma DecodeQuadBlock(b0: Byte, b1: Byte, b2: Byte)
    ensures DecodeQuad(Block(b0, b1, b2)) == Some([b0, b1, b2])
  {
    var c0, c1, c2, c3 := b0 / 4, b0 % 4 * 16 + b1 / 16, b1 % 16 * 4 + b2 / 64, b2 % 64;
    SextetOfChar(c0);
    SextetOfChar(c1);
    SextetOfChar(c2);
    SextetOfChar(c3);
    BlockRoundTrip(b0, b1, b2);
  }

  /** Four characters in front of a non-empty padded text decode as one block in front of the rest. */
  lemma DecodePrepend(q: string, tail: string)
    requires |q| == 4 && |tail| > 0
    ensures Decode(q + tail) == Prepend(DecodeQuad(q), Decode(tail))
  {
    var s := q + tail;
    assert s[..4] == q && s[4..] == tail;
  }

  /** A block on its own is the last group, without padding. */
  lemma DecodeSingleBlock(b0: Byte, b1: Byte, b2: Byte)
    ensures Decode(Block(b0, b1, b2)) == Some([b0, b1, b2])
  {
    DecodeQuadBlock(b0, b1, b2);
    assert Block(b0, b1, b2)[3] != '=';
  }

  /** A full block in front of the rest decodes to its three bytes in front of the rest. */
  lemma DecodeBlockPrefix(b0: Byte, b1: Byte, b2: Byte, rest: seq<Byte>)
    requires Decode(Encode(rest)) == Some(rest)
    ensures Decode(Encode([b0, b1, b2] + rest)) == Some([b0, b1, b2] + rest)
  {
    EncodeBlockPrefix(b0, b1, b2, rest);
    var blk, tail := Block(b0, b1, b2), Encode(rest);
    if |rest| == 0 {
      assert tail == "" && blk + tail == blk;
      assert [b0, b1, b2] + rest == [b0, b1, b2];
      DecodeSingleBlock(b0, b1, b2);
    } else {
      EncodeLength(rest);
      DecodeQuadBlock(b0, b1, b2);
      DecodePrepend(blk, tail);
    }
  }

  /** Decoding what `Encode` produced gives the bytes back. */
  lemma {:induction false} DecodeEncode(b: seq<Byte>)
    ensures Decode(Encode(b)) == Some(b)
    decreases |b|
  {
    if |b| == 1 {
      DecodeOneByte(b[0]);
      assert b == [b[0]];
    } else if |b| == 2 {
      DecodeTwoBytes(b[0], b[1]);
      assert b == [b[0], b[1]];
    } else if |b| >= 3 {
      DecodeEncode(b[3..]);
      DecodeBlockPrefix(b[0], b[1], b[2], b[3..]);
      assert b == [b[0], b[1], b[2]] + b[3..];
    }
  }
}
