/** UTF-8 (RFC 3629), the encoding `Buffer.from(string)` applies when no other is named.
    Dafny characters are Unicode scalar values, so every character has an encoding. */
module Utf8 {
  import opened Bytes

  /** The one to four octets of one scalar value (section 3 of RFC 3629). */
  function EncodeChar(c: char): (r: seq<Byte>)
    ensures 1 <= |r| <= 4
    ensures |r| == 1 <==> c as int < 0x80
    ensures |r| == 2 <==> 0x80 <= c as int < 0x800
    ensures |r| == 3 <==> 0x800 <= c as int < 0x1_0000
  {
    var n := c as int;
    if n < 0x80 then [n]
    else if n < 0x800 then [0xC0 + n / 64, 0x80 + n % 64]
    else if n < 0x1_0000 then [0xE0 + n / 4096, 0x80 + (n / 64) % 64, 0x80 + n % 64]
    else [0xF0 + n / 262144, 0x80 + (n / 4096) % 64, 0x80 + (n / 64) % 64, 0x80 + n % 64]
  }

  /** The scalar value that one well-formed sequence of one to four octets stands for. */
  function CodePoint(r: seq<Byte>): int
    requires 1 <= |r| <= 4
  {
    var r: seq<int> := r;
    if |r| == 1 then r[0]
    else if |r| == 2 then (r[0] - 0xC0) * 64 + (r[1] - 0x80)
    else if |r| == 3 then (r[0] - 0xE0) * 4096 + (r[1] - 0x80) * 64 + (r[2] - 0x80)
    else (r[0] - 0xF0) * 262144 + (r[1] - 0x80) * 4096 + (r[2] - 0x80) * 64 + (r[3] - 0x80)
  }

  lemma DivDiv64(n: nat)
    ensures n / 64 / 64 == n / 4096
    ensures n / 4096 / 64 == n / 262144
  {
  }

  /** A scalar value is its 6-bit payload groups, most significant first. */
  lemma PayloadGroups(n: nat)
    ensures n == (n / 64) * 64 + n % 64
    ensures n == (n / 4096) * 4096 + ((n / 64) % 64) * 64 + n % 64
    ensures n == (n / 262144) * 262144 + ((n / 4096) % 64) * 4096 + ((n / 64) % 64) * 64 + n % 64
  {
    DivDiv64(n);
    var a, m := n % 64, n / 64;
    var b, k := m % 64, m / 64;
    var c, j := k % 64, k / 64;
    assert n == 64 * m + a;
    assert m == 64 * k + b;
    assert k == 64 * j + c;
  }

  /** The encoding of a character is well formed and stands for that character: every octet after
      the first is a continuation octet 10xxxxxx, and the payload bits give back the scalar value. */
  lemma EncodeCharDecodes(c: char)
    ensures var r := EncodeChar(c);
      && (forall i :: 1 <= i < |r| ==> 0x80 <= r[i] < 0xC0)
      && CodePoint(r) == c as int
  {
    PayloadGroups(c as int);
  }

  /** The octets of a string, character after character. */
  function Encode(s: string): (r: seq<Byte>)
    ensures |s| <= |r| <= 4 * |s|
    decreases |s|
  {
    if |s| == 0 then [] else EncodeChar(s[0]) + Encode(s[1..])
  }

  /** Encoding distributes over concatenation. */
  lemma {:induction false} EncodeConcat(a: string, b: string)
    ensures Encode(a + b) == Encode(a) + Encode(b)
    decreases |a|
  {
    if |a| == 0 {
      assert a + b == b;
    } else {
      assert (a + b)[0] == a[0];
      assert (a + b)[1..] == a[1..] + b;
      EncodeConcat(a[1..], b);
      calc {
        Encode(a + b);
        EncodeChar(a[0]) + Encode(a[1..] + b);
        EncodeChar(a[0]) + (Encode(a[1..]) + Encode(b));
        (EncodeChar(a[0]) + Encode(a[1..])) + Encode(b);
      }
    }
  }

  predicate IsAscii(s: string) {
    forall i :: 0 <= i < |s| ==> s[i] as int < 0x80
  }

  /** An ASCII string encodes as one octet per character, each its character's code. */
  lemma {:induction false} EncodeAscii(s: string)
    requires IsAscii(s)
    ensures |Encode(s)| == |s|
    ensures forall i :: 0 <= i < |s| ==> Encode(s)[i] == s[i] as int
    decreases |s|
  {
    if |s| > 0 {
      assert IsAscii(s[1..]) by {
        forall i | 0 <= i < |s| - 1 ensures s[1..][i] as int < 0x80 {
          assert s[1..][i] == s[i + 1];
        }
      }
      EncodeAscii(s[1..]);
    }
  }
}
