/** Hexadecimal decoding as done by Go's encoding/hex DecodeString, which turns
    a package's checksum string into the bytes a download request checks against. */
module Hex {
  import opened Wrappers

  newtype byte = b: int | 0 <= b < 256

  /** The value of one hexadecimal digit; both letter cases are accepted. */
  function DigitValue(c: char): (r: Option<int>)
    ensures r.Some? ==> 0 <= r.value < 16
  {
    if '0' <= c <= '9' then Some(c as int - '0' as int)
    else if 'a' <= c <= 'f' then Some(c as int - 'a' as int + 10)
    else if 'A' <= c <= 'F' then Some(c as int - 'A' as int + 10)
    else None
  }

  predicate IsHexDigit(c: char) {
    DigitValue(c).Some?
  }

  /** DecodeString fails on an odd-length input and on any character that is not a
      hexadecimal digit; otherwise every pair of digits gives one byte, high digit first. */
  function Decode(s: string): (r: Option<seq<byte>>)
    ensures r.Some? <==> |s| % 2 == 0 && forall i | 0 <= i < |s| :: IsHexDigit(s[i])
    ensures r.Some? ==> 2 * |r.value| == |s|
    decreases |s|
  {
    if |s| == 0 then Some([])
    else if |s| == 1 then None
    else
      var hi, lo := DigitValue(s[0]), DigitValue(s[1]);
      if hi.None? || lo.None? then None
      else
        var rest := Decode(s[2..]);
        assert forall i | 2 <= i < |s| :: s[i] == s[2..][i - 2];
        if rest.None? then None
        else Some([(hi.value * 16 + lo.value) as byte] + rest.value)
  }

  /** Byte k of a successful decoding is the value of digits 2k (high) and 2k+1 (low). */
  lemma {:induction false} DecodeValues(s: string)
    requires Decode(s).Some?
    ensures forall k | 0 <= k < |Decode(s).value| ::
      Decode(s).value[k] as int == DigitValue(s[2 * k]).value * 16 + DigitValue(s[2 * k + 1]).value
    decreases |s|
  {
    if |s| >= 2 {
      var t := s[2..];
      DecodeValues(t);
      var r, rest := Decode(s).value, Decode(t).value;
      assert r == [(DigitValue(s[0]).value * 16 + DigitValue(s[1]).value) as byte] + rest;
      forall k | 1 <= k < |r|
        ensures r[k] as int == DigitValue(s[2 * k]).value * 16 + DigitValue(s[2 * k + 1]).value
      {
        assert r[k] == rest[k - 1];
        assert s[2 * k] == t[2 * (k - 1)] && s[2 * k + 1] == t[2 * (k - 1) + 1];
      }
    }
  }

  /** The lower-case digit for a value below 16. */
  function Digit(v: int): (c: char)
    requires 0 <= v < 16
    ensures DigitValue(c) == Some(v)
  {
    if v < 10 then ('0' as int + v) as char else ('a' as int + v - 10) as char
  }

  /** hex.EncodeToString: two lower-case digits per byte. */
  function Encode(b: seq<byte>): (s: string)
    decreases |b|
  {
    if b == [] then []
    else [Digit(b[0] as int / 16), Digit(b[0] as int % 16)] + Encode(b[1..])
  }

  /** Decoding undoes encoding: every checksum that was written as hex reads back unchanged. */
  lemma {:induction false} DecodeEncode(b: seq<byte>)
    ensures Decode(Encode(b)) == Some(b)
    decreases |b|
  {
    if b != [] {
      var s := Encode(b);
      DecodeEncode(b[1..]);
      assert s[2..] == Encode(b[1..]);
      var v := b[0] as int;
      assert DigitValue(s[0]) == Some(v / 16);
      assert DigitValue(s[1]) == Some(v % 16);
      assert (v / 16 * 16 + v % 16) as byte == b[0];
      assert [b[0]] + b[1..] == b;
    }
  }
}
