/** UTF-8, the byte encoding bcryptjs applies to a password before the
    key schedule reads it. */
module Utf8 {
  import opened Bytes

  /** The one to four bytes of one character (a Unicode scalar value). */
  function CharBytes(c: char): (b: seq<byte>)
    ensures 1 <= |b| <= 4
  {
    var n := c as int;
    if n < 0x80 then [n]
    else if n < 0x800 then [0xC0 + n / 64, 0x80 + n % 64]
    else if n < 0x10000 then [0xE0 + n / 4096, 0x80 + n / 64 % 64, 0x80 + n % 64]
    else [0xF0 + n / 0x40000, 0x80 + n / 4096 % 64, 0x80 + n / 64 % 64, 0x80 + n % 64]
  }

  /** How many bytes a sequence starting with this lead byte takes. */
  function Width(lead: byte): nat {
    if lead < 0x80 then 1 else if lead < 0xE0 then 2 else if lead < 0xF0 then 3 else 4
  }

  /** The code point a well-formed sequence of one character stands for. */
  function CodePoint(b: seq<byte>): int
    requires 1 <= |b| <= 4
  {
    var b0, b1, b2, b3 := b[0] as int, if |b| > 1 then b[1] as int else 0,
      if |b| > 2 then b[2] as int else 0, if |b| > 3 then b[3] as int else 0;
    if |b| == 1 then b0
    else if |b| == 2 then (b0 - 0xC0) * 64 + (b1 - 0x80)
    else if |b| == 3 then (b0 - 0xE0) * 4096 + (b1 - 0x80) * 64 + (b2 - 0x80)
    else (b0 - 0xF0) * 0x40000 + (b1 - 0x80) * 4096 + (b2 - 0x80) * 64 + (b3 - 0x80)
  }

  /** The lead byte gives the width, and the bytes give the character back. */
  lemma CharBytesDecode(c: char)
    ensures Width(CharBytes(c)[0]) == |CharBytes(c)|
    ensures CodePoint(CharBytes(c)) == c as int
  {
    var n := c as int;
    if n >= 0x10000 {
      assert n == n / 0x40000 * 0x40000 + n / 4096 % 64 * 4096 + n / 64 % 64 * 64 + n % 64;
    } else if n >= 0x800 {
      assert n == n / 4096 * 4096 + n / 64 % 64 * 64 + n % 64;
    }
  }

  function Encode(s: string): (b: seq<byte>)
    ensures |s| <= |b| <= 4 * |s|
  {
    if s == [] then [] else CharBytes(s[0]) + Encode(s[1..])
  }

  lemma {:induction false} EncodeAppend(s: string, t: string)
    ensures Encode(s + t) == Encode(s) + Encode(t)
  {
    if s == [] {
      assert s + t == t;
    } else {
      assert (s + t)[1..] == s[1..] + t;
      EncodeAppend(s[1..], t);
    }
  }

  /** Only U+0000 encodes to a zero byte: every other single byte is
      nonzero, and every byte of a longer sequence is at least 0x80. */
  lemma CharBytesNul(c: char)
    ensures (forall j :: 0 <= j < |CharBytes(c)| ==> CharBytes(c)[j] != 0) <==> c != '\0'
  {
    var n := c as int;
    if n >= 0x80 {
      assert forall j :: 0 <= j < |CharBytes(c)| ==> CharBytes(c)[j] >= 0x80;
    } else {
      assert CharBytes(c) == [n];
      if c != '\0' {
        assert n != 0 by { assert c == n as char; }
      } else {
        assert CharBytes(c)[0] == 0;
      }
    }
  }

  /** The only character whose encoding holds a zero byte is U+0000. */
  lemma {:induction false} EncodeNul(s: string)
    ensures (forall k :: 0 <= k < |s| ==> s[k] != '\0') <==> (forall j :: 0 <= j < |Encode(s)| ==> Encode(s)[j] != 0)
  {
    if s != [] {
      EncodeNul(s[1..]);
      var a := CharBytes(s[0]);
      assert Encode(s) == a + Encode(s[1..]);
      CharBytesNul(s[0]);
      if forall k :: 0 <= k < |s| ==> s[k] != '\0' {
        assert forall k :: 0 <= k < |s[1..]| ==> s[1..][k] != '\0' by {
          forall k | 0 <= k < |s[1..]| ensures s[1..][k] != '\0' { assert s[1..][k] == s[k + 1]; }
        }
      } else {
        var k :| 0 <= k < |s| && s[k] == '\0';
        if k == 0 {
          assert Encode(s)[0] == 0;
        } else {
          assert s[1..][k - 1] == '\0';
          var j :| 0 <= j < |Encode(s[1..])| && Encode(s[1..])[j] == 0;
          assert Encode(s)[|a| + j] == 0;
        }
      }
    }
  }

  /** UTF-8 is a prefix code: different strings have different encodings. */
  lemma {:induction false} EncodeInjective(s: string, t: string)
    requires Encode(s) == Encode(t)
    ensures s == t
  {
    if s != [] && t != [] {
      var a, b := CharBytes(s[0]), CharBytes(t[0]);
      CharBytesDecode(s[0]);
      CharBytesDecode(t[0]);
      assert a[0] == Encode(s)[0] && b[0] == Encode(t)[0];
      assert |a| == |b|;
      assert a == Encode(s)[..|a|] && b == Encode(t)[..|b|];
      assert s[0] == t[0];
      assert Encode(s[1..]) == Encode(s)[|a|..] == Encode(t)[|b|..] == Encode(t[1..]);
      EncodeInjective(s[1..], t[1..]);
      assert s == [s[0]] + s[1..] && t == [t[0]] + t[1..];
    }
  }
}
