/**
 * Python's two lossy byte-to-text decodes used by the receive scripts:
 * `bytes.decode(errors="ignore")` (UTF-8, invalid bytes dropped) and
 * `bytes.decode('ascii', errors='ignore')` (every byte >= 0x80 dropped).
 *
 * The UTF-8 decoder drops, at each error, the longest prefix of a
 * well-formed sequence that is present (at least one byte), the way
 * CPython's decoder reports the extent of an invalid or truncated sequence.
 */
module Utf8 {
  import opened Bytes

  /** Length of the sequence a lead byte announces; 0 for a byte that cannot start one. */
  function SequenceLength(b0: byte): nat
  {
    if b0 < 0x80 then 1
    else if 0xC2 <= b0 <= 0xDF then 2
    else if 0xE0 <= b0 <= 0xEF then 3
    else if 0xF0 <= b0 <= 0xF4 then 4
    else 0
  }

  /** Allowed range of the second byte, which excludes overlong forms, surrogates and values above U+10FFFF. */
  function SecondLow(b0: byte): byte
  {
    if b0 == 0xE0 then 0xA0 else if b0 == 0xF0 then 0x90 else 0x80
  }

  function SecondHigh(b0: byte): byte
  {
    if b0 == 0xED then 0x9F else if b0 == 0xF4 then 0x8F else 0xBF
  }

  predicate IsContinuation(b: byte)
  {
    0x80 <= b <= 0xBF
  }

  /** The number of leading bytes of `s` that are a prefix of one well-formed sequence. */
  function ValidPrefix(s: seq<byte>): (k: nat)
    requires |s| > 0
    ensures k <= SequenceLength(s[0]) && k <= |s|
    ensures SequenceLength(s[0]) > 0 ==> k > 0
  {
    var n := SequenceLength(s[0]);
    if n <= 1 then n
    else if |s| < 2 || !(SecondLow(s[0]) <= s[1] <= SecondHigh(s[0])) then 1
    else if n == 2 then 2
    else if |s| < 3 || !IsContinuation(s[2]) then 2
    else if n == 3 then 3
    else if |s| < 4 || !IsContinuation(s[3]) then 3
    else 4
  }

  predicate IsScalar(cp: int)
  {
    0 <= cp < 0xD800 || 0xE000 <= cp < 0x11_0000
  }

  /** The code point of the complete well-formed sequence at the start of `s`. */
  function CodePoint(s: seq<byte>): (cp: int)
    requires |s| > 0 && SequenceLength(s[0]) > 0 && ValidPrefix(s) == SequenceLength(s[0])
    ensures IsScalar(cp)
  {
    var n := SequenceLength(s[0]);
    var b0 := s[0] as int;
    if n == 1 then b0
    else if n == 2 then (b0 - 0xC0) * 0x40 + (s[1] as int - 0x80)
    else if n == 3 then ((b0 - 0xE0) * 0x40 + (s[1] as int - 0x80)) * 0x40 + (s[2] as int - 0x80)
    else (((b0 - 0xF0) * 0x40 + (s[1] as int - 0x80)) * 0x40 + (s[2] as int - 0x80)) * 0x40 + (s[3] as int - 0x80)
  }

  /** `bytes.decode(errors="ignore")`. */
  function DecodeIgnore(s: seq<byte>): (r: string)
    ensures |r| <= |s|
    decreases |s|
  {
    if s == [] then []
    else
      var n := SequenceLength(s[0]);
      var k := ValidPrefix(s);
      if n > 0 && k == n then [CodePoint(s) as char] + DecodeIgnore(s[n..])
      else DecodeIgnore(s[if k == 0 then 1 else k..])
  }

  predicate AllAscii(s: seq<byte>)
  {
    forall i :: 0 <= i < |s| ==> s[i] < 0x80
  }

  /** Text whose characters are the bytes, one for one. */
  function AsChars(s: seq<byte>): (r: string)
    requires AllAscii(s)
    ensures |r| == |s| && forall i :: 0 <= i < |s| ==> r[i] as int == s[i]
  {
    seq(|s|, i requires 0 <= i < |s| => s[i] as char)
  }

  /** On ASCII bytes the lossy decode drops nothing and changes nothing. */
  lemma {:induction false} DecodeAscii(s: seq<byte>)
    requires AllAscii(s)
    ensures DecodeIgnore(s) == AsChars(s)
    decreases |s|
  {
    if s != [] {
      DecodeAscii(s[1..]);
      assert AsChars(s) == [s[0] as char] + AsChars(s[1..]);
    }
  }

  /** UTF-8 encoding of one character: six payload bits per continuation byte. */
  function EncodeChar(c: char): (b: seq<byte>)
    ensures 1 <= |b| <= 4
  {
    var cp := c as int;
    var q1 := cp / 0x40;
    var q2 := q1 / 0x40;
    var q3 := q2 / 0x40;
    if cp < 0x80 then [cp]
    else if cp < 0x800 then [0xC0 + q1, 0x80 + cp % 0x40]
    else if cp < 0x1_0000 then [0xE0 + q2, 0x80 + q1 % 0x40, 0x80 + cp % 0x40]
    else [0xF0 + q3, 0x80 + q2 % 0x40, 0x80 + q1 % 0x40, 0x80 + cp % 0x40]
  }

  /** `str.encode()`: the UTF-8 bytes of a text. */
  function Encode(s: string): seq<byte>
  {
    if s == [] then [] else EncodeChar(s[0]) + Encode(s[1..])
  }

  /** The bytes of one encoded character, whatever follows them, decode to that character. */
  lemma EncodeCharDecodes(c: char, rest: seq<byte>)
    ensures var b := EncodeChar(c) + rest;
            SequenceLength(b[0]) == |EncodeChar(c)| && ValidPrefix(b) == |EncodeChar(c)| &&
            CodePoint(b) == c as int
  {
    var cp := c as int;
    var q1 := cp / 0x40;
    var q2 := q1 / 0x40;
    var q3 := q2 / 0x40;
    var b := EncodeChar(c) + rest;
    if cp < 0x80 {
    } else if cp < 0x800 {
      assert b[0] == 0xC0 + q1 && b[1] == 0x80 + cp % 0x40;
      DecodesTwo(cp, b);
    } else if cp < 0x1_0000 {
      assert b[0] == 0xE0 + q2 && b[1] == 0x80 + q1 % 0x40 && b[2] == 0x80 + cp % 0x40;
      DecodesThree(cp, b);
    } else {
      assert b[0] == 0xF0 + q3 && b[1] == 0x80 + q2 % 0x40;
      assert b[2] == 0x80 + q1 % 0x40 && b[3] == 0x80 + cp % 0x40;
      DecodesFour(cp, b);
    }
  }

  lemma DecodesTwo(cp: int, b: seq<byte>)
    requires 0x80 <= cp < 0x800 && |b| >= 2
    requires b[0] == 0xC0 + cp / 0x40 && b[1] == 0x80 + cp % 0x40
    ensures SequenceLength(b[0]) == 2 && ValidPrefix(b) == 2 && CodePoint(b) == cp
  {
    assert cp == (cp / 0x40) * 0x40 + cp % 0x40;
  }

  lemma DecodesThree(cp: int, b: seq<byte>)
    requires 0x800 <= cp < 0x1_0000 && IsScalar(cp) && |b| >= 3
    requires b[0] == 0xE0 + cp / 0x40 / 0x40 && b[1] == 0x80 + cp / 0x40 % 0x40 && b[2] == 0x80 + cp % 0x40
    ensures SequenceLength(b[0]) == 3 && ValidPrefix(b) == 3 && CodePoint(b) == cp
  {
    var q1 := cp / 0x40;
    assert cp == q1 * 0x40 + cp % 0x40;
    assert q1 == (q1 / 0x40) * 0x40 + q1 % 0x40;
  }

  lemma DecodesFour(cp: int, b: seq<byte>)
    requires 0x1_0000 <= cp < 0x11_0000 && |b| >= 4
    requires b[0] == 0xF0 + cp / 0x40 / 0x40 / 0x40 && b[1] == 0x80 + cp / 0x40 / 0x40 % 0x40
    requires b[2] == 0x80 + cp / 0x40 % 0x40 && b[3] == 0x80 + cp % 0x40
    ensures SequenceLength(b[0]) == 4 && ValidPrefix(b) == 4 && CodePoint(b) == cp
  {
    var q1 := cp / 0x40;
    var q2 := q1 / 0x40;
    assert cp == q1 * 0x40 + cp % 0x40;
    assert q1 == q2 * 0x40 + q1 % 0x40;
    assert q2 == (q2 / 0x40) * 0x40 + q2 % 0x40;
  }

  /** Round trip: decoding the UTF-8 encoding of any text gives the text back. */
  lemma {:induction false} DecodeEncode(s: string)
    ensures DecodeIgnore(Encode(s)) == s
  {
    if s != [] {
      var e := EncodeChar(s[0]);
      var b := e + Encode(s[1..]);
      EncodeCharDecodes(s[0], Encode(s[1..]));
      assert b[|e|..] == Encode(s[1..]);
      DecodeEncode(s[1..]);
      assert s == [s[0]] + s[1..];
    }
  }

  /** `bytes.decode('ascii', errors='ignore')`: keeps the bytes below 0x80. */
  function AsciiIgnore(s: seq<byte>): (r: string)
    ensures |r| <= |s|
    ensures forall i :: 0 <= i < |r| ==> r[i] < 128 as char
  {
    if s == [] then []
    else (if s[0] < 0x80 then [s[0] as char] else []) + AsciiIgnore(s[1..])
  }

  lemma {:induction false} AsciiIgnoreAppend(a: seq<byte>, b: seq<byte>)
    ensures AsciiIgnore(a + b) == AsciiIgnore(a) + AsciiIgnore(b)
  {
    if a != [] {
      assert (a + b)[1..] == a[1..] + b;
      AsciiIgnoreAppend(a[1..], b);
    } else {
      assert a + b == b;
    }
  }

  /** A byte at or above 0x80, the receive-error byte among them, vanishes from the text. */
  lemma HighByteDropped(a: seq<byte>, x: byte, b: seq<byte>)
    requires x >= 0x80
    ensures AsciiIgnore(a + [x] + b) == AsciiIgnore(a) + AsciiIgnore(b)
  {
    AsciiIgnoreAppend(a + [x], b);
    AsciiIgnoreAppend(a, [x]);
  }

  /** On ASCII bytes the ASCII decode keeps every byte, as the same character. */
  lemma {:induction false} AsciiIgnoreKeeps(s: seq<byte>)
    requires AllAscii(s)
    ensures AsciiIgnore(s) == AsChars(s)
    ensures forall b: byte :: b < 0x80 ==> AsciiIgnore([b]) == [b as char]
  {
    if s != [] {
      AsciiIgnoreKeeps(s[1..]);
      assert AsChars(s) == [s[0] as char] + AsChars(s[1..]);
    }
  }
}
