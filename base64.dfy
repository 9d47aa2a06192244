/** The base 64 encoding of section 4 of RFC 4648: the 64-character alphabet of
    Table 1 and `=` padding, as `Buffer.prototype.toString('base64')` produces it.
    The decoder is the encoder's partner: it undoes it. */
module Base64 {
  import opened Wrappers
  import opened Bytes

  type Sextet = x: int | 0 <= x < 64

  const Pad: char := '='

  /** The character that encodes a 6-bit group: Table 1 of RFC 4648 (A-Z, a-z, 0-9, '+', '/'),
      read by its four ranges. */
  function SextetChar(v: Sextet): (c: char)
    ensures c != Pad
  {
    if v < 26 then ('A' as int + v) as char
    else if v < 52 then ('a' as int + (v - 26)) as char
    else if v < 62 then ('0' as int + (v - 52)) as char
    else if v == 62 then '+'
    else '/'
  }

  /** The 6-bit group a character encodes, or None for a character outside the alphabet. */
  function CharSextet(c: char): (r: Option<Sextet>)
    ensures r.Some? ==> SextetChar(r.value) == c
  {
    if 'A' <= c <= 'Z' then Some(c as int - 'A' as int)
    else if 'a' <= c <= 'z' then Some(c as int - 'a' as int + 26)
    else if '0' <= c <= '9' then Some(c as int - '0' as int + 52)
    else if c == '+' then Some(62)
    else if c == '/' then Some(63)
    else None
  }

  lemma SextetCharRoundTrip(v: Sextet)
    ensures CharSextet(SextetChar(v)) == Some(v)
  {
  }

  // The four 6-bit groups of a 24-bit group b0 b1 b2 (section 4 of RFC 4648, most significant
  // bit first).
  function Sextet0(b0: Byte): Sextet { b0 / 4 }
  function Sextet1(b0: Byte, b1: Byte): Sextet { (b0 % 4) * 16 + b1 / 16 }
  function Sextet2(b1: Byte, b2: Byte): Sextet { (b1 % 16) * 4 + b2 / 64 }
  function Sextet3(b2: Byte): Sextet { b2 % 64 }

  // And back from the four groups to the three octets.
  function Oct0(c0: Sextet, c1: Sextet): Byte { c0 * 4 + c1 / 16 }
  function Oct1(c1: Sextet, c2: Sextet): Byte { (c1 % 16) * 16 + c2 / 4 }
  function Oct2(c2: Sextet, c3: Sextet): Byte { (c2 % 4) * 64 + c3 }

  lemma GroupsRoundTrip(b0: Byte, b1: Byte, b2: Byte)
    ensures Oct0(Sextet0(b0), Sextet1(b0, b1)) == b0
    ensures Oct1(Sextet1(b0, b1), Sextet2(b1, b2)) == b1
    ensures Oct2(Sextet2(b1, b2), Sextet3(b2)) == b2
    ensures Sextet1(b0, 0) % 16 == 0 && Sextet2(b1, 0) % 4 == 0
  {
  }

  lemma SextetsRoundTrip(c0: Sextet, c1: Sextet, c2: Sextet, c3: Sextet)
    ensures Sextet0(Oct0(c0, c1)) == c0
    ensures Sextet1(Oct0(c0, c1), Oct1(c1, c2)) == c1
    ensures Sextet2(Oct1(c1, c2), Oct2(c2, c3)) == c2
    ensures Sextet3(Oct2(c2, c3)) == c3
    ensures c1 % 16 == 0 ==> Sextet1(Oct0(c0, c1), 0) == c1
    ensures c2 % 4 == 0 ==> Sextet2(Oct1(c1, c2), 0) == c2
  {
  }

  /** A full 24-bit group: four characters, no padding. */
  function EncodeGroup(b0: Byte, b1: Byte, b2: Byte): (q: string)
    ensures |q| == 4
  {
    [SextetChar(Sextet0(b0)), SextetChar(Sextet1(b0, b1)), SextetChar(Sextet2(b1, b2)), SextetChar(Sextet3(b2))]
  }

  /** A final quantum of 16 bits: three characters and one `=`. */
  function EncodeTwoOctets(b0: Byte, b1: Byte): (q: string)
    ensures |q| == 4 && q[3] == Pad
  {
    [SextetChar(Sextet0(b0)), SextetChar(Sextet1(b0, b1)), SextetChar(Sextet2(b1, 0)), Pad]
  }

  /** A final quantum of 8 bits: two characters and two `=`. */
  function EncodeOneOctet(b0: Byte): (q: string)
    ensures |q| == 4 && q[2] == Pad && q[3] == Pad
  {
    [SextetChar(Sextet0(b0)), SextetChar(Sextet1(b0, 0)), Pad, Pad]
  }

  /** Encodes whole 24-bit groups, then the final 8- or 16-bit quantum padded with `=`. */
  function Encode(b: seq<Byte>): (s: string)
    ensures |s| == 4 * ((|b| + 2) / 3)
    decreases |b|
  {
    if |b| == 0 then ""
    else if |b| == 1 then EncodeOneOctet(b[0])
    else if |b| == 2 then EncodeTwoOctets(b[0], b[1])
    else EncodeGroup(b[0], b[1], b[2]) + Encode(b[3..])
  }

  /** Decodes one 4-character group; `last` says whether `=` padding may end it. The bits of a
      padded group's last character that fall outside the octets must be zero (section 3.5 of
      RFC 4648), so that only the encoder's own output decodes. */
  function DecodeGroup(q0: char, q1: char, q2: char, q3: char, last: bool): (r: Option<seq<Byte>>)
    ensures r.Some? ==> 1 <= |r.value| <= 3
    ensures r.Some? && !last ==> |r.value| == 3
  {
    var c0, c1, c2, c3 := CharSextet(q0), CharSextet(q1), CharSextet(q2), CharSextet(q3);
    if c0.None? || c1.None? then None
    else if c2.Some? && c3.Some? then
      Some([Oct0(c0.value, c1.value), Oct1(c1.value, c2.value), Oct2(c2.value, c3.value)])
    else if last && c2.Some? && q3 == Pad && c2.value % 4 == 0 then
      Some([Oct0(c0.value, c1.value), Oct1(c1.value, c2.value)])
    else if last && q2 == Pad && q3 == Pad && c1.value % 16 == 0 then
      Some([Oct0(c0.value, c1.value)])
    else None
  }

  /** Decodes a padded base 64 string; None when it is not one. */
  function Decode(s: string): (r: Option<seq<Byte>>)
    decreases |s|
  {
    if |s| == 0 then Some([])
    else if |s| < 4 then None
    else
      var group := DecodeGroup(s[0], s[1], s[2], s[3], |s| == 4);
      var rest := Decode(s[4..]);
      if group.None? || rest.None? then None
      else Some(group.value + rest.value)
  }

  // Decoding a group whose characters' values are given: stated over arbitrary characters so
  // that the solver does not unfold the alphabet on the encoder's characters.
  lemma DecodeFullGroup(q0: char, q1: char, q2: char, q3: char, last: bool,
                        c0: Sextet, c1: Sextet, c2: Sextet, c3: Sextet)
    requires CharSextet(q0) == Some(c0) && CharSextet(q1) == Some(c1)
    requires CharSextet(q2) == Some(c2) && CharSextet(q3) == Some(c3)
    ensures DecodeGroup(q0, q1, q2, q3, last) == Some([Oct0(c0, c1), Oct1(c1, c2), Oct2(c2, c3)])
  {
  }

  lemma DecodeTwoOctetGroup(q0: char, q1: char, q2: char, c0: Sextet, c1: Sextet, c2: Sextet)
    requires CharSextet(q0) == Some(c0) && CharSextet(q1) == Some(c1) && CharSextet(q2) == Some(c2)
    requires c2 % 4 == 0
    ensures DecodeGroup(q0, q1, q2, Pad, true) == Some([Oct0(c0, c1), Oct1(c1, c2)])
  {
  }

  lemma DecodeOneOctetGroup(q0: char, q1: char, c0: Sextet, c1: Sextet)
    requires CharSextet(q0) == Some(c0) && CharSextet(q1) == Some(c1)
    requires c1 % 16 == 0
    ensures DecodeGroup(q0, q1, Pad, Pad, true) == Some([Oct0(c0, c1)])
  {
  }

  lemma FullGroupDecodes(b0: Byte, b1: Byte, b2: Byte, last: bool)
    ensures var q := EncodeGroup(b0, b1, b2); DecodeGroup(q[0], q[1], q[2], q[3], last) == Some([b0, b1, b2])
  {
    GroupsRoundTrip(b0, b1, b2);
    SextetCharRoundTrip(Sextet0(b0));
    SextetCharRoundTrip(Sextet1(b0, b1));
    SextetCharRoundTrip(Sextet2(b1, b2));
    SextetCharRoundTrip(Sextet3(b2));
    var q := EncodeGroup(b0, b1, b2);
    DecodeFullGroup(q[0], q[1], q[2], q[3], last, Sextet0(b0), Sextet1(b0, b1), Sextet2(b1, b2), Sextet3(b2));
  }

  lemma TwoOctetsDecode(b0: Byte, b1: Byte)
    ensures var q := EncodeTwoOctets(b0, b1); DecodeGroup(q[0], q[1], q[2], q[3], true) == Some([b0, b1])
  {
    GroupsRoundTrip(b0, b1, 0);
    SextetCharRoundTrip(Sextet0(b0));
    SextetCharRoundTrip(Sextet1(b0, b1));
    SextetCharRoundTrip(Sextet2(b1, 0));
    var q := EncodeTwoOctets(b0, b1);
    DecodeTwoOctetGroup(q[0], q[1], q[2], Sextet0(b0), Sextet1(b0, b1), Sextet2(b1, 0));
  }

  lemma OneOctetDecodes(b0: Byte)
    ensures DecodeGroup(SextetChar(Sextet0(b0)), SextetChar(Sextet1(b0, 0)), Pad, Pad, true) == Some([b0])
  {
    GroupsRoundTrip(b0, 0, 0);
    SextetCharRoundTrip(Sextet0(b0));
    SextetCharRoundTrip(Sextet1(b0, 0));
    DecodeOneOctetGroup(SextetChar(Sextet0(b0)), SextetChar(Sextet1(b0, 0)), Sextet0(b0), Sextet1(b0, 0));
  }

  /** One step of the decoder: a leading group that decodes is followed by the rest. */
  lemma DecodeStep(q: string, t: string, g: seq<Byte>, rest: seq<Byte>)
    requires |q| == 4 && DecodeGroup(q[0], q[1], q[2], q[3], t == []) == Some(g)
    requires Decode(t) == Some(rest)
    ensures Decode(q + t) == Some(g + rest)
  {
    var s := q + t;
    assert s[0] == q[0] && s[1] == q[1] && s[2] == q[2] && s[3] == q[3];
    assert s[4..] == t;
  }

  lemma DecodeEncodeFinalOne(b: seq<Byte>)
    requires |b| == 1
    ensures Decode(Encode(b)) == Some(b)
  {
    var q := EncodeOneOctet(b[0]);
    assert Encode(b) == q + [];
    OneOctetDecodes(b[0]);
    DecodeStep(q, [], [b[0]], []);
    assert [b[0]] + [] == b;
  }

  lemma DecodeEncodeFinalTwo(b: seq<Byte>)
    requires |b| == 2
    ensures Decode(Encode(b)) == Some(b)
  {
    var q := EncodeTwoOctets(b[0], b[1]);
    assert Encode(b) == q + [];
    TwoOctetsDecode(b[0], b[1]);
    DecodeStep(q, [], [b[0], b[1]], []);
    assert [b[0], b[1]] + [] == b;
  }

  // Kept apart from DecodeEncodeLeadingGroup: with the encoder's definition in view the
  // solver unfolds the alphabet on every character and runs out of resources.
  lemma DecodeLeadingGroupThen(b: seq<Byte>, q: string, t: string)
    requires |b| >= 3 && q == EncodeGroup(b[0], b[1], b[2]) && Decode(t) == Some(b[3..])
    ensures Decode(q + t) == Some(b)
  {
    FullGroupDecodes(b[0], b[1], b[2], t == []);
    DecodeStep(q, t, [b[0], b[1], b[2]], b[3..]);
    assert [b[0], b[1], b[2]] + b[3..] == b;
  }

  lemma DecodeEncodeLeadingGroup(b: seq<Byte>)
    requires |b| >= 3 && Decode(Encode(b[3..])) == Some(b[3..])
    ensures Decode(Encode(b)) == Some(b)
  {
    var q, t := EncodeGroup(b[0], b[1], b[2]), Encode(b[3..]);
    assert Encode(b) == q + t;
    DecodeLeadingGroupThen(b, q, t);
  }

  /** Decoding undoes encoding, so the encoding loses nothing. */
  lemma {:induction false} DecodeEncode(b: seq<Byte>)
    ensures Decode(Encode(b)) == Some(b)
    decreases |b|
  {
    if |b| == 1 {
      DecodeEncodeFinalOne(b);
    } else if |b| == 2 {
      DecodeEncodeFinalTwo(b);
    } else if |b| >= 3 {
      DecodeEncode(b[3..]);
      DecodeEncodeLeadingGroup(b);
    }
  }

  /** Octets rebuilt from sextets encode back to those sextets' characters; with zero pad bits
      the same holds for the padded final groups. */
  lemma EncodeSextets(c0: Sextet, c1: Sextet, c2: Sextet, c3: Sextet)
    ensures EncodeGroup(Oct0(c0, c1), Oct1(c1, c2), Oct2(c2, c3))
         == [SextetChar(c0), SextetChar(c1), SextetChar(c2), SextetChar(c3)]
    ensures c2 % 4 == 0 ==>
      EncodeTwoOctets(Oct0(c0, c1), Oct1(c1, c2)) == [SextetChar(c0), SextetChar(c1), SextetChar(c2), Pad]
    ensures c1 % 16 == 0 ==> EncodeOneOctet(Oct0(c0, c1)) == [SextetChar(c0), SextetChar(c1), Pad, Pad]
  {
    SextetsRoundTrip(c0, c1, c2, c3);
    SextetsRoundTrip(c0, c1, c2, 0);
    SextetsRoundTrip(c0, c1, 0, 0);
  }

  /** A group that decodes is what the encoder writes for the octets it decodes to. */
  lemma DecodedGroupEncodes(q0: char, q1: char, q2: char, q3: char, last: bool, g: seq<Byte>)
    requires DecodeGroup(q0, q1, q2, q3, last) == Some(g)
    ensures |g| == 3 ==> EncodeGroup(g[0], g[1], g[2]) == [q0, q1, q2, q3]
    ensures |g| == 2 ==> last && EncodeTwoOctets(g[0], g[1]) == [q0, q1, q2, q3]
    ensures |g| == 1 ==> last && EncodeOneOctet(g[0]) == [q0, q1, q2, q3]
  {
    var c0, c1 := CharSextet(q0).value, CharSextet(q1).value;
    if CharSextet(q2).Some? && CharSextet(q3).Some? {
      EncodeSextets(c0, c1, CharSextet(q2).value, CharSextet(q3).value);
    } else if |g| == 2 {
      EncodeSextets(c0, c1, CharSextet(q2).value, 0);
    } else {
      EncodeSextets(c0, c1, 0, 0);
    }
  }

  /** The decoder's first step, read backwards: a string that decodes has a leading group that
      decodes and a rest that decodes. */
  lemma DecodeUnfold(s: string)
    requires |s| > 0 && Decode(s).Some?
    ensures |s| >= 4
    ensures DecodeGroup(s[0], s[1], s[2], s[3], |s| == 4).Some? && Decode(s[4..]).Some?
    ensures Decode(s).value == DecodeGroup(s[0], s[1], s[2], s[3], |s| == 4).value + Decode(s[4..]).value
  {
  }

  // Kept apart from the decoder: re-encoding a decoded group followed by the re-encoded rest.
  lemma EncodeGroupThen(q: string, t: string, g: seq<Byte>, r: seq<Byte>)
    requires |q| == 4 && Encode(r) == t
    requires |g| == 3 ==> EncodeGroup(g[0], g[1], g[2]) == q
    requires |g| == 2 ==> t == [] && EncodeTwoOctets(g[0], g[1]) == q
    requires |g| == 1 ==> t == [] && EncodeOneOctet(g[0]) == q
    requires 1 <= |g| <= 3 && (t == [] ==> r == [])
    ensures Encode(g + r) == q + t
  {
    var b := g + r;
    if |g| == 3 {
      assert b[..3] == g && b[3..] == r;
      assert Encode(b) == EncodeGroup(b[0], b[1], b[2]) + Encode(b[3..]);
    } else {
      assert b == g && q + t == q;
    }
  }

  lemma EncodeDecodedGroupThen(s: string, g: seq<Byte>, r: seq<Byte>)
    requires |s| >= 4 && 1 <= |g| <= 3 && (|g| < 3 ==> |s| == 4)
    requires |g| == 3 ==> EncodeGroup(g[0], g[1], g[2]) == [s[0], s[1], s[2], s[3]]
    requires |g| == 2 ==> EncodeTwoOctets(g[0], g[1]) == [s[0], s[1], s[2], s[3]]
    requires |g| == 1 ==> EncodeOneOctet(g[0]) == [s[0], s[1], s[2], s[3]]
    requires Encode(r) == s[4..] && (|s| == 4 ==> r == [])
    ensures Encode(g + r) == s
  {
    var q, t := s[..4], s[4..];
    assert q == [s[0], s[1], s[2], s[3]];
    EncodeGroupThen(q, t, g, r);
    assert q + t == s;
  }

  /** Encoding undoes decoding: a string that decodes is the encoding of what it decodes to,
      so the decoder accepts exactly the encoder's output. */
  lemma {:induction false} EncodeDecode(s: string)
    requires Decode(s).Some?
    ensures Encode(Decode(s).value) == s
    decreases |s|
  {
    if |s| > 0 {
      DecodeUnfold(s);
      EncodeDecode(s[4..]);
      var g := DecodeGroup(s[0], s[1], s[2], s[3], |s| == 4).value;
      DecodedGroupEncodes(s[0], s[1], s[2], s[3], |s| == 4, g);
      EncodeDecodedGroupThen(s, g, Decode(s[4..]).value);
    }
  }

  /** The decoder and the encoder are inverse: a string decodes to `b` exactly when it is the
      encoding of `b`. */
  lemma DecodeIffEncode(s: string, b: seq<Byte>)
    ensures Decode(s) == Some(b) <==> s == Encode(b)
  {
    if Decode(s) == Some(b) {
      EncodeDecode(s);
    }
    if s == Encode(b) {
      DecodeEncode(b);
    }
  }

  /** Text with non-zero pad bits is refused: "QR==" would otherwise read as "A", whose encoding
      is "QQ==". */
  lemma NonZeroPadBitsRejected()
    ensures Decode("QR==") == None
    ensures Encode([0x41]) == "QQ=="
  {
    assert CharSextet('R') == Some(17);
  }

  /** Two byte strings with the same encoding are the same. */
  lemma EncodeInjective(a: seq<Byte>, b: seq<Byte>)
    requires Encode(a) == Encode(b)
    ensures a == b
  {
    DecodeEncode(a);
    DecodeEncode(b);
  }

  /** The two-byte start of a JPEG file, FF D8, encodes as `/9g=`. */
  lemma JpegMagicExample()
    ensures Encode([0xFF, 0xD8]) == "/9g="
  {
  }
}
