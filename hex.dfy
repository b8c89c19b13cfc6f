/** Lowercase hexadecimal encoding of byte strings, as Go's
    `hex.EncodeToString` produces it (two digits per byte, high nibble first,
    alphabet "0123456789abcdef"), together with its inverse. */
module Hex {
  import opened Errors

  newtype byte = b: int | 0 <= b < 256

  predicate IsHexDigit(c: char) {
    '0' <= c <= '9' || 'a' <= c <= 'f'
  }

  /** A string every character of which is a lowercase hexadecimal digit. */
  predicate IsLowerHex(s: string) {
    forall i :: 0 <= i < |s| ==> IsHexDigit(s[i])
  }

  /** The digit for a nibble. */
  function DigitChar(n: int): (c: char)
    requires 0 <= n < 16
    ensures IsHexDigit(c)
  {
    if n < 10 then (48 + n) as char else (87 + n) as char
  }

  /** The nibble a digit stands for. */
  function DigitValue(c: char): (n: int)
    requires IsHexDigit(c)
    ensures 0 <= n < 16
  {
    if c <= '9' then c as int - 48 else c as int - 87
  }

  lemma DigitRoundTrip(n: int)
    requires 0 <= n < 16
    ensures DigitValue(DigitChar(n)) == n
  {
  }

  lemma ValueRoundTrip(c: char)
    requires IsHexDigit(c)
    ensures DigitChar(DigitValue(c)) == c
  {
  }

  /** hex.EncodeToString: each byte becomes its high and then its low nibble. */
  function Encode(b: seq<byte>): (s: string)
    ensures |s| == 2 * |b|
    ensures IsLowerHex(s)
  {
    if b == [] then ""
    else [DigitChar(b[0] as int / 16), DigitChar(b[0] as int % 16)] + Encode(b[1..])
  }

  /** The inverse of Encode: an even-length lowercase hex string back to its
      bytes, None for anything else. */
  function Decode(s: string): (r: Option<seq<byte>>)
    decreases |s|
  {
    if s == [] then Some([])
    else if |s| == 1 || !IsHexDigit(s[0]) || !IsHexDigit(s[1]) then None
    else match Decode(s[2..])
      case None => None
      case Some(rest) => Some([(DigitValue(s[0]) * 16 + DigitValue(s[1])) as byte] + rest)
  }

  lemma {:induction false} DecodeEncode(b: seq<byte>)
    ensures Decode(Encode(b)) == Some(b)
  {
    if b != [] {
      var hi, lo := b[0] as int / 16, b[0] as int % 16;
      var s := Encode(b);
      assert s[0] == DigitChar(hi) && s[1] == DigitChar(lo);
      assert s[2..] == Encode(b[1..]);
      DigitRoundTrip(hi);
      DigitRoundTrip(lo);
      DecodeEncode(b[1..]);
      assert [b[0]] + b[1..] == b;
    }
  }

  lemma {:induction false} EncodeDecode(s: string)
    requires Decode(s).Some?
    ensures Encode(Decode(s).value) == s
  {
    if s != [] {
      var rest := Decode(s[2..]).value;
      EncodeDecode(s[2..]);
      var v := DigitValue(s[0]) * 16 + DigitValue(s[1]);
      assert v / 16 == DigitValue(s[0]) && v % 16 == DigitValue(s[1]);
      ValueRoundTrip(s[0]);
      ValueRoundTrip(s[1]);
      var b := Decode(s).value;
      assert b[0] as int == v && b[1..] == rest;
      assert s == [s[0], s[1]] + s[2..];
    }
  }

  /** A string is an encoding of some byte string exactly when it is
      lowercase hex of even length. */
  lemma {:induction false} DecodeDefined(s: string)
    ensures Decode(s).Some? <==> |s| % 2 == 0 && IsLowerHex(s)
    decreases |s|
  {
    if |s| >= 2 {
      DecodeDefined(s[2..]);
      if IsHexDigit(s[0]) && IsHexDigit(s[1]) {
        assert IsLowerHex(s) <==> IsLowerHex(s[2..]) by {
          if IsLowerHex(s[2..]) {
            forall i | 0 <= i < |s| ensures IsHexDigit(s[i]) {
              if i >= 2 { assert s[i] == s[2..][i - 2]; }
            }
          }
        }
      }
    }
  }

  /** Encoding loses nothing: distinct byte strings have distinct encodings. */
  lemma EncodeInjective(a: seq<byte>, b: seq<byte>)
    ensures Encode(a) == Encode(b) <==> a == b
  {
    if Encode(a) == Encode(b) {
      DecodeEncode(a);
      DecodeEncode(b);
    }
  }
}
