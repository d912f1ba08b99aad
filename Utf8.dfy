/**
 Bytes and the UTF-8 decoding that `Buffer.prototype.toString('utf8', start, end)` applies
 to a byte range. Decoding follows the UTF-8 decoder of the WHATWG Encoding Standard:
 a byte that cannot start a sequence, and every maximal prefix of a multi-byte sequence
 that is cut short (by a byte outside the allowed range or by the end of the input),
 decodes to U+FFFD; a byte that interrupts a sequence is decoded afresh.
 Characters are Unicode scalar values.
 */
module Utf8 {

  newtype byte = x: int | 0 <= x < 0x100

  const ReplacementCharacter: char := '\U{FFFD}'

  /**
   How many bytes the sequence started by `lead` has: 1 for ASCII, 2 to 4 for a lead byte
   of a multi-byte sequence, 0 for a byte that cannot start a sequence
   (0x80..0xC1 and 0xF5..0xFF).
   */
  function SequenceLength(lead: byte): (n: nat)
    ensures n <= 4
  {
    if lead <= 0x7F then 1
    else if 0xC2 <= lead <= 0xDF then 2
    else if 0xE0 <= lead <= 0xEF then 3
    else if 0xF0 <= lead <= 0xF4 then 4
    else 0
  }

  /** Smallest byte allowed at position `k` (k >= 1) of a sequence led by `lead`. */
  function LowerBoundary(lead: byte, k: nat): byte {
    if k == 1 && lead == 0xE0 then 0xA0
    else if k == 1 && lead == 0xF0 then 0x90
    else 0x80
  }

  /** Largest byte allowed at position `k` (k >= 1) of a sequence led by `lead`. */
  function UpperBoundary(lead: byte, k: nat): byte {
    if k == 1 && lead == 0xED then 0x9F
    else if k == 1 && lead == 0xF4 then 0x8F
    else 0xBF
  }

  /** Byte `k` of `b` is an allowed continuation of the sequence led by `b[0]`. */
  predicate Continues(b: seq<byte>, k: nat)
    requires 0 < k < |b|
  {
    LowerBoundary(b[0], k) <= b[k] <= UpperBoundary(b[0], k)
  }

  /**
   How many bytes of a sequence of length `len` the decoder accepts, counting from
   position `k`: it stops at the first byte that is not an allowed continuation, at the
   end of the input, or when the sequence is complete.
   */
  function Accepted(b: seq<byte>, len: nat, k: nat): (m: nat)
    requires 1 <= k <= len && k <= |b|
    ensures k <= m <= len && m <= |b|
    ensures forall j :: k <= j < m ==> Continues(b, j)
    ensures m < len && m < |b| ==> !Continues(b, m)
    decreases len - k
  {
    if k == len || k == |b| || !Continues(b, k) then k else Accepted(b, len, k + 1)
  }

  /** The sequence of length `len` at the start of `b` is complete and well formed. */
  predicate WellFormed(b: seq<byte>, len: nat)
  {
    2 <= len <= 4 && len <= |b| && SequenceLength(b[0]) == len &&
    forall j :: 1 <= j < len ==> Continues(b, j)
  }

  /** The scalar value a well-formed multi-byte sequence encodes (the lead byte's payload bits, then 6 bits per continuation). */
  function CodePoint(b: seq<byte>, len: nat): int
    requires WellFormed(b, len)
  {
    if len == 2 then
      (b[0] as int - 0xC0) * 0x40 + (b[1] as int - 0x80)
    else if len == 3 then
      (b[0] as int - 0xE0) * 0x1000 + (b[1] as int - 0x80) * 0x40 + (b[2] as int - 0x80)
    else
      (b[0] as int - 0xF0) * 0x40000 + (b[1] as int - 0x80) * 0x1000
      + (b[2] as int - 0x80) * 0x40 + (b[3] as int - 0x80)
  }

  /**
   A well-formed multi-byte sequence encodes a non-ASCII scalar value: the boundaries
   exclude overlong forms, surrogates and values above U+10FFFF.
   */
  lemma CodePointRange(b: seq<byte>, len: nat)
    requires WellFormed(b, len)
    ensures 0x80 <= CodePoint(b, len)
    ensures CodePoint(b, len) < 0xD800 || 0xE000 <= CodePoint(b, len) < 0x11_0000
  {
    assert Continues(b, 1);
    if len >= 3 { assert Continues(b, 2); }
    if len == 4 { assert Continues(b, 3); }
  }

  /** Decodes the character at the start of `b`; returns it and how many bytes it took. */
  function DecodeOne(b: seq<byte>): (d: (char, nat))
    requires |b| > 0
    ensures 1 <= d.1 <= |b|
    ensures d.0 as int < 0x80 ==> b[0] < 0x80 && d.1 == 1 && d.0 as int == b[0] as int
  {
    var len := SequenceLength(b[0]);
    if len == 1 then (b[0] as int as char, 1)
    else if len == 0 then (ReplacementCharacter, 1)
    else
      var m := Accepted(b, len, 1);
      if m < len then (ReplacementCharacter, m)
      else
        CodePointRange(b, len);
        (CodePoint(b, len) as char, len)
  }

  /** Decodes a whole byte sequence. */
  function Decode(b: seq<byte>): (s: string)
    ensures |s| <= |b|
    decreases |b|
  {
    if b == [] then [] else var d := DecodeOne(b); [d.0] + Decode(b[d.1..])
  }

  predicate IsAscii(s: string) {
    forall i :: 0 <= i < |s| ==> s[i] as int < 0x80
  }

  /** The one-byte-per-character encoding of an ASCII string. */
  function AsciiBytes(s: string): (b: seq<byte>)
    requires IsAscii(s)
    ensures |b| == |s| && forall i :: 0 <= i < |s| ==> b[i] as int == s[i] as int
  {
    seq(|s|, i requires 0 <= i < |s| => s[i] as int as byte)
  }

  /**
   Bytes decode to an ASCII string exactly when they are that string's ASCII bytes:
   no multi-byte sequence and no replacement can produce an ASCII character.
   */
  lemma {:induction false} DecodeAscii(b: seq<byte>, s: string)
    requires IsAscii(s)
    ensures Decode(b) == s <==> b == AsciiBytes(s)
    decreases |b|
  {
    if b == [] {
      assert AsciiBytes(s) == [] <==> s == [];
    } else if s == [] {
      assert Decode(b) != [];
    } else {
      var d := DecodeOne(b);
      assert Decode(b) == [d.0] + Decode(b[d.1..]);
      assert IsAscii(s[1..]) by {
        forall i | 0 <= i < |s[1..]| ensures s[1..][i] as int < 0x80 { assert s[1..][i] == s[i + 1]; }
      }
      var tail := AsciiBytes(s[1..]);
      assert AsciiBytes(s) == [AsciiBytes(s)[0]] + tail;
      if Decode(b) == s {
        assert d.0 == s[0];
        DecodeAscii(b[1..], s[1..]);
        assert b == [b[0]] + b[1..];
      }
      if b == AsciiBytes(s) {
        assert b[0] as int == s[0] as int;
        assert b[1..] == tail;
        DecodeAscii(b[1..], s[1..]);
        assert d == (s[0], 1);
      }
    }
  }
}
