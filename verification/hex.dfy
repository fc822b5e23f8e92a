/**
 * Base16 text encoding (section 8 of RFC 4648, which lists upper-case digits
 * and treats case as insignificant) as Go's `encoding/hex` package implements
 * it: `EncodeToString` chooses lower-case digits, `DecodeString`
 * accepts digits of either case and fails on an odd length or on any
 * character that is not a hex digit.
 */
module Hex {
  import opened Wrappers
  import opened Ints

  /** The digit for each nibble value 0–15, as the encoder emits it. */
  const Alphabet: string := "0123456789abcdef"

  /** A character the decoder accepts. */
  predicate IsHexChar(c: char) {
    '0' <= c <= '9' || 'a' <= c <= 'f' || 'A' <= c <= 'F'
  }

  /** A character the encoder can emit. */
  predicate IsLowerHexChar(c: char) {
    '0' <= c <= '9' || 'a' <= c <= 'f'
  }

  /** Well-formed hex text: an even number of hex digits. */
  predicate IsHex(s: string) {
    |s| % 2 == 0 && forall i {:trigger s[i]} :: 0 <= i < |s| ==> IsHexChar(s[i])
  }

  /** ASCII lower-casing of one character. */
  function ToLower(c: char): char {
    if 'A' <= c <= 'Z' then (c as int + 32) as char else c
  }

  /** ASCII lower-casing of every character of `s`. */
  function LowerAll(s: string): (t: string)
    ensures |t| == |s|
    ensures forall i :: 0 <= i < |t| ==> !('A' <= t[i] <= 'Z')
    ensures (forall i :: 0 <= i < |s| ==> !('A' <= s[i] <= 'Z')) ==> t == s
    ensures forall i :: 0 <= i < |s| && IsHexChar(s[i]) ==> IsHexChar(t[i]) && DigitValue(t[i]) == DigitValue(s[i])
  {
    seq(|s|, i requires 0 <= i < |s| => ToLower(s[i]))
  }

  /** The value of one hex digit, as the decoder reads it. */
  function DigitValue(c: char): (n: int)
    requires IsHexChar(c)
    ensures 0 <= n < 16
  {
    if '0' <= c <= '9' then c as int - '0' as int
    else if 'a' <= c <= 'f' then c as int - 'a' as int + 10
    else c as int - 'A' as int + 10
  }

  /** The digit the encoder emits for a nibble. */
  function Digit(n: int): (c: char)
    requires 0 <= n < 16
    ensures IsLowerHexChar(c)
    ensures DigitValue(c) == n
  {
    Alphabet[n]
  }

  /** The byte a pair of hex digits stands for, high nibble first. */
  function PairValue(hi: char, lo: char): byte
    requires IsHexChar(hi) && IsHexChar(lo)
  {
    DigitValue(hi) * 16 + DigitValue(lo)
  }

  /** `hi` and `lo` are hex digits that together spell the byte `b`. */
  predicate Spells(hi: char, lo: char, b: byte) {
    IsHexChar(hi) && IsHexChar(lo) && PairValue(hi, lo) == b
  }

  /** Go's `hex.EncodeToString`. */
  function Encode(bytes: seq<byte>): (s: string)
    ensures |s| == 2 * |bytes|
    ensures forall i {:trigger s[i]} :: 0 <= i < |s| ==> IsLowerHexChar(s[i])
    ensures forall i :: 0 <= i < |bytes| ==> Spells(s[2 * i], s[2 * i + 1], bytes[i])
  {
    if |bytes| == 0 then []
    else [Digit(bytes[0] / 16), Digit(bytes[0] % 16)] + Encode(bytes[1..])
  }

  /** Go's `hex.DecodeString`, with every error folded into `None`. */
  function Decode(s: string): (r: Option<seq<byte>>)
    ensures r.Some? <==> IsHex(s)
    ensures r.Some? ==> |r.value| == |s| / 2
    ensures r.Some? ==> forall i :: 0 <= i < |r.value| ==> Spells(s[2 * i], s[2 * i + 1], r.value[i])
    decreases |s|
  {
    if |s| == 0 then Some([])
    else if |s| == 1 || !IsHexChar(s[0]) || !IsHexChar(s[1]) then None
    else
      match Decode(s[2..])
      case None => None
      case Some(rest) => Some([PairValue(s[0], s[1])] + rest)
  }

  /** Re-encoding a decoded digit gives the digit in lower case. */
  lemma DigitOfValue(c: char)
    requires IsHexChar(c)
    ensures Digit(DigitValue(c)) == ToLower(c)
  {
  }

  /** A byte and its two digits determine each other. */
  lemma PairOfDigits(b: byte)
    ensures Spells(Digit(b / 16), Digit(b % 16), b)
  {
  }

  /** Decoding what `Encode` produced gives back the bytes. */
  lemma {:induction false} DecodeEncode(bytes: seq<byte>)
    ensures Decode(Encode(bytes)) == Some(bytes)
  {
    if |bytes| > 0 {
      var s := Encode(bytes);
      DecodeEncode(bytes[1..]);
      assert s[2..] == Encode(bytes[1..]);
      PairOfDigits(bytes[0]);
      assert bytes == [bytes[0]] + bytes[1..];
    }
  }

  /** Encoding what `Decode` produced gives back the text, in lower case. */
  lemma {:induction false} EncodeDecode(s: string)
    requires IsHex(s)
    ensures Decode(s).Some?
    ensures Encode(Decode(s).value) == LowerAll(s)
    decreases |s|
  {
    if |s| > 0 {
      var tail := s[2..];
      assert IsHex(tail) by {
        assert forall k :: 0 <= k < |tail| ==> tail[k] == s[k + 2];
      }
      EncodeDecode(tail);
      var b := PairValue(s[0], s[1]);
      assert Decode(s).value == [b] + Decode(tail).value;
      assert b / 16 == DigitValue(s[0]) && b % 16 == DigitValue(s[1]);
      DigitOfValue(s[0]);
      DigitOfValue(s[1]);
      assert ([b] + Decode(tail).value)[1..] == Decode(tail).value;
      LowerAllPair(s);
    }
  }

  /** Lower-casing a text lower-cases its first two characters and then the rest. */
  lemma LowerAllPair(s: string)
    requires |s| >= 2
    ensures LowerAll(s) == [ToLower(s[0]), ToLower(s[1])] + LowerAll(s[2..])
  {
    var t, u := LowerAll(s), [ToLower(s[0]), ToLower(s[1])] + LowerAll(s[2..]);
    assert |t| == |u|;
    forall i | 0 <= i < |t|
      ensures t[i] == u[i]
    {
      if i >= 2 {
        assert u[i] == LowerAll(s[2..])[i - 2];
      }
    }
  }
}
