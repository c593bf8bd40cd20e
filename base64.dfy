/**
 * Base 64 as in section 4 of RFC 4648, decoded the way PHP's
 * `base64_decode($s)` does in its default, non-strict mode: every character
 * outside the 64-character alphabet, '=' included, is skipped, a final group
 * of two or three characters yields one or two bytes, and a single leftover
 * character yields nothing. In that mode, as PHP 7 and later implement it,
 * decoding never fails.
 */
module Base64 {
  import opened Wrappers

  type byte = x: int | 0 <= x < 256
  type sextet = x: int | 0 <= x < 64

  /** The value of an alphabet character, or -1 for any other character. */
  function SextetOf(c: char): (v: int)
    ensures -1 <= v < 64
  {
    if 'A' <= c <= 'Z' then (c as int) - ('A' as int)
    else if 'a' <= c <= 'z' then (c as int) - ('a' as int) + 26
    else if '0' <= c <= '9' then (c as int) - ('0' as int) + 52
    else if c == '+' then 62
    else if c == '/' then 63
    else -1
  }

  /** The alphabet character for a 6-bit value. */
  function CharOf(v: sextet): (c: char)
    ensures SextetOf(c) == v
  {
    if v < 26 then ((v + 'A' as int) as char)
    else if v < 52 then ((v - 26 + 'a' as int) as char)
    else if v < 62 then ((v - 52 + '0' as int) as char)
    else if v == 62 then '+'
    else '/'
  }

  /** The 6-bit values of the alphabet characters of `s`, in order; everything else is skipped. */
  function Sextets(s: string): (q: seq<sextet>)
    ensures |q| <= |s|
  {
    if s == [] then []
    else if SextetOf(s[0]) >= 0 then [SextetOf(s[0]) as sextet] + Sextets(s[1..])
    else Sextets(s[1..])
  }

  lemma {:induction false} SextetsAppend(a: string, b: string)
    ensures Sextets(a + b) == Sextets(a) + Sextets(b)
  {
    if a == [] {
      assert a + b == b;
    } else {
      assert (a + b)[1..] == a[1..] + b;
      SextetsAppend(a[1..], b);
    }
  }

  /** The three bytes that four 6-bit values carry. */
  function Byte0(s0: sextet, s1: sextet): byte { (s0 as int) * 4 + (s1 as int) / 16 }
  function Byte1(s1: sextet, s2: sextet): byte { ((s1 as int) % 16) * 16 + (s2 as int) / 4 }
  function Byte2(s2: sextet, s3: sextet): byte { ((s2 as int) % 4) * 64 + (s3 as int) }

  /** Packs 6-bit values into bytes, four values to three bytes. */
  function DecodeSextets(q: seq<sextet>): (r: seq<byte>)
  {
    if |q| < 2 then []
    else if |q| == 2 then [Byte0(q[0], q[1])]
    else if |q| == 3 then [Byte0(q[0], q[1]), Byte1(q[1], q[2])]
    else [Byte0(q[0], q[1]), Byte1(q[1], q[2]), Byte2(q[2], q[3])] + DecodeSextets(q[4..])
  }

  /** `base64_decode($s)` in non-strict mode; `None` would stand for PHP's `false`. */
  function Decode(s: string): Option<seq<byte>> {
    Some(DecodeSextets(Sextets(s)))
  }

  /** Non-strict decoding never reports failure. */
  lemma DecodeNeverFails(s: string)
    ensures Decode(s).Some?
  {
  }

  /** Characters outside the alphabet (line breaks, spaces, stray padding) do not change the result. */
  lemma DecodeSkipsNonAlphabet(a: string, c: char, b: string)
    requires SextetOf(c) < 0
    ensures Decode(a + [c] + b) == Decode(a + b)
  {
    SextetsAppend(a + [c], b);
    SextetsAppend(a, [c]);
    SextetsAppend(a, b);
    SextetsCons(c, []);
    assert [c] + [] == [c];
    assert Sextets([c]) == [];
    assert Sextets(a + [c]) == Sextets(a);
  }

  /** The padding character, which the decoder skips like any non-alphabet character. */
  const Pad: char := '='

  /** Padding contributes no values. */
  lemma PaddingSkipped()
    ensures Sextets([Pad]) == [] && Sextets([Pad, Pad]) == []
  {
  }

  /** The four 6-bit values that three bytes are split into. */
  function Sextet0(b0: byte): sextet { (b0 as int) / 4 }
  function Sextet1(b0: byte, b1: byte): sextet { ((b0 as int) % 4) * 16 + (b1 as int) / 16 }
  function Sextet2(b1: byte, b2: byte): sextet { ((b1 as int) % 16) * 4 + (b2 as int) / 64 }
  function Sextet3(b2: byte): sextet { (b2 as int) % 64 }

  /** `base64_encode($bytes)`: three bytes to four characters, '=' padding the last group. */
  function Encode(b: seq<byte>): (s: string)
  {
    if |b| == 0 then ""
    else if |b| == 1 then [CharOf(Sextet0(b[0])), CharOf(Sextet1(b[0], 0))] + [Pad, Pad]
    else if |b| == 2 then (
      [CharOf(Sextet0(b[0])), CharOf(Sextet1(b[0], b[1])), CharOf(Sextet2(b[1], 0))] + [Pad])
    else (
      [CharOf(Sextet0(b[0])), CharOf(Sextet1(b[0], b[1])), CharOf(Sextet2(b[1], b[2])), CharOf(Sextet3(b[2]))]
      + Encode(b[3..]))
  }

  /** One character in front: its value if it is in the alphabet, nothing otherwise. */
  lemma SextetsCons(c: char, t: string)
    ensures Sextets([c] + t) == (if SextetOf(c) >= 0 then [SextetOf(c) as sextet] else []) + Sextets(t)
  {
    assert ([c] + t)[1..] == t;
  }

  /** Four characters of the alphabet contribute their four values. */
  lemma SextetsOfGroup(c0: char, c1: char, c2: char, c3: char)
    requires SextetOf(c0) >= 0 && SextetOf(c1) >= 0 && SextetOf(c2) >= 0 && SextetOf(c3) >= 0
    ensures Sextets([c0, c1, c2, c3]) == [SextetOf(c0), SextetOf(c1), SextetOf(c2), SextetOf(c3)]
  {
    SextetsCons(c3, []);
    SextetsCons(c2, [c3]);
    SextetsCons(c1, [c2, c3]);
    SextetsCons(c0, [c1, c2, c3]);
    assert [c0] + [c1, c2, c3] == [c0, c1, c2, c3];
    assert [c1] + [c2, c3] == [c1, c2, c3];
    assert [c2] + [c3] == [c2, c3];
  }

  /** The values a full group of an encoding carries. */
  lemma SextetsOfEncodeGroup(b: seq<byte>)
    requires |b| >= 3
    ensures Sextets(Encode(b)) ==
      [Sextet0(b[0]), Sextet1(b[0], b[1]), Sextet2(b[1], b[2]), Sextet3(b[2])] + Sextets(Encode(b[3..]))
  {
    var g := [CharOf(Sextet0(b[0])), CharOf(Sextet1(b[0], b[1])), CharOf(Sextet2(b[1], b[2])), CharOf(Sextet3(b[2]))];
    assert Encode(b) == g + Encode(b[3..]);
    SextetsAppend(g, Encode(b[3..]));
    SextetsOfGroup(g[0], g[1], g[2], g[3]);
  }

  /** The values a final group of two bytes carries; the '=' is skipped. */
  lemma SextetsOfEncodeTwo(b: seq<byte>)
    requires |b| == 2
    ensures Sextets(Encode(b)) == [Sextet0(b[0]), Sextet1(b[0], b[1]), Sextet2(b[1], 0)]
  {
    var g := [CharOf(Sextet0(b[0])), CharOf(Sextet1(b[0], b[1])), CharOf(Sextet2(b[1], 0))];
    assert Encode(b) == g + [Pad];
    SextetsAppend(g, [Pad]);
    PaddingSkipped();
    SextetsCons(g[2], []);
    SextetsCons(g[1], [g[2]]);
    SextetsCons(g[0], [g[1], g[2]]);
    assert [g[2]] + [] == [g[2]];
    assert [g[0]] + [g[1], g[2]] == g;
    assert [g[1]] + [g[2]] == [g[1], g[2]];
    assert Sextets(g) == [Sextet0(b[0]), Sextet1(b[0], b[1]), Sextet2(b[1], 0)];
  }

  /** The values a final group of one byte carries; the padding is skipped. */
  lemma SextetsOfEncodeOne(b: seq<byte>)
    requires |b| == 1
    ensures Sextets(Encode(b)) == [Sextet0(b[0]), Sextet1(b[0], 0)]
  {
    var g := [CharOf(Sextet0(b[0])), CharOf(Sextet1(b[0], 0))];
    assert Encode(b) == g + [Pad, Pad];
    SextetsAppend(g, [Pad, Pad]);
    PaddingSkipped();
    SextetsCons(g[1], []);
    SextetsCons(g[0], [g[1]]);
    assert [g[1]] + [] == [g[1]];
    assert [g[0]] + [g[1]] == g;
    assert Sextets(g) == [Sextet0(b[0]), Sextet1(b[0], 0)];
  }

  /** The packing arithmetic undoes the splitting arithmetic, byte by byte. */
  lemma GroupArithmetic(b0: byte, b1: byte, b2: byte)
    ensures Byte0(Sextet0(b0), Sextet1(b0, b1)) == b0
    ensures Byte1(Sextet1(b0, b1), Sextet2(b1, b2)) == b1
    ensures Byte2(Sextet2(b1, b2), Sextet3(b2)) == b2
  {
  }

  /** A group of four values in front decodes to its three bytes. */
  lemma DecodeGroup(s0: sextet, s1: sextet, s2: sextet, s3: sextet, tail: seq<sextet>)
    ensures DecodeSextets([s0, s1, s2, s3] + tail) == [Byte0(s0, s1), Byte1(s1, s2), Byte2(s2, s3)] + DecodeSextets(tail)
  {
    var q := [s0, s1, s2, s3] + tail;
    assert q[0] == s0 && q[1] == s1 && q[2] == s2 && q[3] == s3;
    assert q[4..] == tail;
  }

  /** A final group of two bytes decodes back to them. */
  lemma DecodeEncodeTwo(b: seq<byte>)
    requires |b| == 2
    ensures DecodeSextets(Sextets(Encode(b))) == b
  {
    SextetsOfEncodeTwo(b);
    GroupArithmetic(b[0], b[1], 0);
    var q := [Sextet0(b[0]), Sextet1(b[0], b[1]), Sextet2(b[1], 0)];
    assert DecodeSextets(q) == [Byte0(q[0], q[1]), Byte1(q[1], q[2])];
  }

  /** A final group of one byte decodes back to it. */
  lemma DecodeEncodeOne(x: byte)
    ensures DecodeSextets(Sextets(Encode([x]))) == [x]
  {
    var q := [Sextet0(x), Sextet1(x, 0)];
    SextetsOfEncodeOne([x]);
    assert DecodeSextets(q) == [Byte0(q[0], q[1])];
    GroupArithmetic(x, 0, 0);
  }

  /** Decoding an encoding gives back the bytes. */
  lemma {:induction false} DecodeEncode(b: seq<byte>)
    ensures Decode(Encode(b)) == Some(b)
    decreases |b|
  {
    if |b| >= 3 {
      SextetsOfEncodeGroup(b);
      GroupArithmetic(b[0], b[1], b[2]);
      DecodeGroup(Sextet0(b[0]), Sextet1(b[0], b[1]), Sextet2(b[1], b[2]), Sextet3(b[2]), Sextets(Encode(b[3..])));
      DecodeEncode(b[3..]);
      assert b == [b[0], b[1], b[2]] + b[3..];
    } else if |b| == 2 {
      DecodeEncodeTwo(b);
    } else if |b| == 1 {
      assert b == [b[0]];
      DecodeEncodeOne(b[0]);
    } else {
      assert Encode(b) == [];
    }
  }
}
