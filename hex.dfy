/** Lower-case hexadecimal rendering of a byte string, as done by
    Node's `Buffer.prototype.toString('hex')`, with the strict decoder
    that inverts it. */
module Hex {
  import opened Wrappers
  import opened Bytes

  predicate IsHexChar(c: char) {
    '0' <= c <= '9' || 'a' <= c <= 'f'
  }

  /** The digit for a nibble: '0'..'9' then 'a'..'f'. */
  function Digit(n: int): (c: char)
    requires 0 <= n < 16
    ensures IsHexChar(c)
  {
    if n < 10 then (48 + n) as char else (87 + n) as char
  }

  /** The nibble a lower-case hex digit stands for; anything else is rejected. */
  function DigitValue(c: char): (r: Option<int>)
    ensures r.Some? <==> IsHexChar(c)
    ensures r.Some? ==> 0 <= r.value < 16 && Digit(r.value) == c
  {
    if '0' <= c <= '9' then Some(c as int - 48)
    else if 'a' <= c <= 'f' then Some(c as int - 87)
    else None
  }

  lemma DigitRoundTrip(n: int)
    requires 0 <= n < 16
    ensures DigitValue(Digit(n)) == Some(n)
  {
  }

  /** Two digits per byte, high nibble first. */
  function Encode(bytes: seq<byte>): (s: string)
    ensures |s| == 2 * |bytes|
    ensures forall i :: 0 <= i < |s| ==> IsHexChar(s[i])
  {
    if bytes == [] then ""
    else [Digit(bytes[0] / 16), Digit(bytes[0] % 16)] + Encode(bytes[1..])
  }

  /** Accepts exactly the strings Encode produces: an even number of
      lower-case hex digits. */
  function Decode(s: string): (r: Option<seq<byte>>)
    ensures r.Some? ==> 2 * |r.value| == |s|
    decreases |s|
  {
    if s == [] then Some([])
    else if |s| < 2 then None
    else
      match (DigitValue(s[0]), DigitValue(s[1]), Decode(s[2..]))
      case (Some(hi), Some(lo), Some(rest)) =>
        assert 0 <= hi * 16 + lo < 256;
        Some([hi * 16 + lo] + rest)
      case _ => None
  }

  lemma {:induction false} DecodeEncode(bytes: seq<byte>)
    ensures Decode(Encode(bytes)) == Some(bytes)
  {
    if bytes != [] {
      var b := bytes[0];
      var s := Encode(bytes);
      DigitRoundTrip(b / 16);
      DigitRoundTrip(b % 16);
      DecodeEncode(bytes[1..]);
      assert s[2..] == Encode(bytes[1..]);
      assert [b / 16 * 16 + b % 16] + bytes[1..] == bytes;
    }
  }

  lemma {:induction false} EncodeDecode(s: string, bytes: seq<byte>)
    requires Decode(s) == Some(bytes)
    ensures Encode(bytes) == s
    decreases |s|
  {
    if s != [] {
      var hi, lo := DigitValue(s[0]).value, DigitValue(s[1]).value;
      var rest := Decode(s[2..]).value;
      assert bytes == [hi * 16 + lo] + rest;
      EncodeDecode(s[2..], rest);
      assert (hi * 16 + lo) / 16 == hi && (hi * 16 + lo) % 16 == lo;
      assert s == [s[0], s[1]] + s[2..];
    }
  }

  /** Distinct byte strings render as distinct hex strings. */
  lemma EncodeInjective(a: seq<byte>, b: seq<byte>)
    requires Encode(a) == Encode(b)
    ensures a == b
  {
    DecodeEncode(a);
    DecodeEncode(b);
  }
}
