/**
 * Hexadecimal text and big-endian integers: Python's `bytes.fromhex` and
 * `int.from_bytes(b, byteorder="big", signed=True)`, the two's-complement
 * reading of a 32-bit word, and the hexadecimal encoding they invert.
 */
module Hex {
  import opened Wrappers
  import opened Bytes
  import opened Seqs

  function Pow(b: nat, k: nat): (r: nat)
    ensures b > 0 ==> r > 0
  {
    if k == 0 then 1 else b * Pow(b, k - 1)
  }

  lemma {:induction false} PowSquare(k: nat)
    ensures Pow(16, 2 * k) == Pow(256, k)
  {
    if k > 0 {
      PowSquare(k - 1);
      assert Pow(16, 2 * k) == 16 * (16 * Pow(16, 2 * (k - 1)));
    }
  }

  lemma MulMonotone(a: nat, b: nat, p: nat)
    requires a <= b
    ensures a * p <= b * p
  {
    var d: nat := b - a;
    assert b * p == a * p + d * p;
  }

  /** A digit below `base` in front of a lower part below `p` stays below `base * p`. */
  lemma DigitBound(d: nat, base: nat, p: nat, low: nat)
    requires d < base && low < p
    ensures d * p + low < base * p
  {
    MulMonotone(d, base - 1, p);
    assert (base - 1) * p + p == base * p;
  }

  /** Splitting `u` into a leading digit and the rest, for a digit weight `p`. */
  lemma DivMod(u: nat, p: nat, base: nat)
    requires p > 0 && u < base * p
    ensures u == (u / p) * p + u % p && u / p < base && u % p < p
  {
    if u / p >= base {
      MulMonotone(base, u / p, p);
    }
  }

  const TWO_31: int := 0x8000_0000
  const TWO_32: int := 0x1_0000_0000

  /** The signed 32-bit integers. */
  predicate IsInt32(x: int)
  {
    -TWO_31 <= x < TWO_31
  }

  predicate IsHexDigit(c: char)
  {
    '0' <= c <= '9' || 'a' <= c <= 'f' || 'A' <= c <= 'F'
  }

  predicate AllHex(s: string)
  {
    forall i :: 0 <= i < |s| ==> IsHexDigit(s[i])
  }

  function DigitValue(c: char): (d: nat)
    requires IsHexDigit(c)
    ensures d < 16
  {
    if '0' <= c <= '9' then c as int - '0' as int
    else if 'a' <= c <= 'f' then c as int - 'a' as int + 10
    else c as int - 'A' as int + 10
  }

  /** The ASCII whitespace `bytes.fromhex` skips between byte pairs: space, \t, \n, \v, \f, \r. */
  predicate IsAsciiSpace(c: char)
  {
    c == ' ' || '\t' <= c <= '\r'
  }

  /**
   * `bytes.fromhex(s)`: pairs of hex digits, one byte each, with ASCII
   * whitespace allowed before any pair; anything else (a lone digit, a
   * space inside a pair, a non-hex or non-ASCII character) is an error.
   */
  function FromHex(s: string): (r: Option<seq<byte>>)
    ensures r.Some? ==> 2 * |r.value| <= |s|
    decreases |s|
  {
    if s == [] then Some([])
    else if IsAsciiSpace(s[0]) then FromHex(s[1..])
    else if |s| < 2 || !IsHexDigit(s[0]) || !IsHexDigit(s[1]) then None
    else match FromHex(s[2..])
         case None => None
         case Some(rest) => Some([DigitValue(s[0]) * 16 + DigitValue(s[1])] + rest)
  }

  /** The value of a hex numeral, most significant digit first. */
  function HexValue(s: string): (v: nat)
    requires AllHex(s)
    ensures v < Pow(16, |s|)
  {
    if s == [] then 0
    else
      var low := HexValue(s[1..]);
      var d := DigitValue(s[0]);
      DigitBound(d, 16, Pow(16, |s| - 1), low);
      d * Pow(16, |s| - 1) + low
  }

  /** The unsigned big-endian value of some bytes. */
  function BigEndian(b: seq<byte>): (v: nat)
    ensures v < Pow(256, |b|)
  {
    if b == [] then 0
    else
      var low := BigEndian(b[1..]);
      DigitBound(b[0], 256, Pow(256, |b| - 1), low);
      b[0] * Pow(256, |b| - 1) + low
  }

  /** `int.from_bytes(b, byteorder="big", signed=True)`: two's complement over 8 * |b| bits. */
  function FromBytesSigned(b: seq<byte>): (v: int)
    ensures b == [] ==> v == 0
    ensures b != [] ==> -(Pow(256, |b|) / 2) as int <= v < Pow(256, |b|) / 2
    ensures v < 0 <==> b != [] && b[0] >= 0x80
  {
    if b == [] then 0
    else
      var p := Pow(256, |b| - 1);
      assert Pow(256, |b|) == 256 * p;
      TopByteHalf(b[0], BigEndian(b[1..]), p);
      if b[0] >= 0x80 then BigEndian(b) - Pow(256, |b|) else BigEndian(b)
  }

  lemma TopByteHalf(b0: byte, low: nat, p: nat)
    requires low < p
    ensures b0 >= 0x80 ==> 128 * p <= b0 * p + low < 256 * p
    ensures b0 < 0x80 ==> b0 * p + low < 128 * p
  {
    if b0 >= 0x80 {
      MulMonotone(128, b0, p);
      DigitBound(b0, 256, p, low);
    } else {
      DigitBound(b0, 128, p, low);
    }
  }

  /** A 32-bit word read as two's complement: minus 2^32 when the top bit is set. */
  function ToInt32(u: nat): (x: int)
    requires u < TWO_32
    ensures IsInt32(x)
    ensures (x < 0) == (u >= TWO_31) && x % TWO_32 == u
  {
    if u >= TWO_31 then u - TWO_32 else u
  }

  /** Four bytes read signed are the two's-complement reading of their unsigned value. */
  lemma FourBytesSigned(b: seq<byte>)
    requires |b| == 4
    ensures IsInt32(FromBytesSigned(b))
    ensures FromBytesSigned(b) == ToInt32(BigEndian(b))
  {
    assert Pow(256, 4) == TWO_32 by {
      assert Pow(256, 1) == 256;
      assert Pow(256, 2) == 256 * 256;
      assert Pow(256, 3) == 256 * 256 * 256;
    }
    assert Pow(256, 3) == 0x100_0000 by {
      assert Pow(256, 1) == 256;
      assert Pow(256, 2) == 256 * 256;
    }
    assert BigEndian(b) >= TWO_31 <==> b[0] >= 0x80 by {
      TopByteHalf(b[0], BigEndian(b[1..]), Pow(256, 3));
    }
  }

  /** Decoding well-formed hex gives one byte per pair of digits, with the same value. */
  lemma {:induction false} FromHexDigits(s: string)
    requires AllHex(s) && |s| % 2 == 0
    ensures FromHex(s).Some?
    ensures |FromHex(s).value| == |s| / 2
    ensures BigEndian(FromHex(s).value) == HexValue(s)
    decreases |s|
  {
    if s != [] {
      var t := s[2..];
      HexValuePair(s);
      FromHexDigits(t);
      var bt := FromHex(t).value;
      var v0, v1 := DigitValue(s[0]), DigitValue(s[1]);
      var q := Pow(16, |t|);
      var b := [v0 * 16 + v1] + bt;
      PairFront(s, v0 * 16 + v1);
      assert |s| / 2 == |t| / 2 + 1;
      calc {
        BigEndian(b);
        { BigEndianCons(v0 * 16 + v1, bt); }
        (v0 * 16 + v1) * q + BigEndian(bt);
        { Distribute(v0, v1, q); }
        v0 * (16 * q) + (v1 * q + BigEndian(bt));
        HexValue(s);
      }
    }
  }

  /** The value of a numeral of at least two digits, by its first two digits and the rest. */
  lemma HexValuePair(s: string)
    requires AllHex(s) && |s| >= 2
    ensures AllHex(s[2..])
    ensures HexValue(s) == DigitValue(s[0]) * (16 * Pow(16, |s| - 2)) + (DigitValue(s[1]) * Pow(16, |s| - 2) + HexValue(s[2..]))
  {
    assert s[1..][1..] == s[2..];
    assert Pow(16, |s| - 1) == 16 * Pow(16, |s| - 2);
    assert AllHex(s[2..]) by {
      forall i | 0 <= i < |s| - 2 ensures IsHexDigit(s[2..][i]) { assert s[2..][i] == s[i + 2]; }
    }
  }

  /** One leading byte weighs two hex digits per byte after it. */
  lemma BigEndianCons(d: byte, bt: seq<byte>)
    ensures BigEndian([d] + bt) == d * Pow(16, 2 * |bt|) + BigEndian(bt)
  {
    var b := [d] + bt;
    assert b[0] == d && b[1..] == bt && |b| - 1 == |bt|;
    var p := Pow(256, |bt|);
    assert BigEndian(b) == d * p + BigEndian(bt);
    PowSquare(|bt|);
  }

  lemma Distribute(v0: nat, v1: nat, q: nat)
    ensures (v0 * 16 + v1) * q == v0 * (16 * q) + v1 * q
  {
  }

  /** Decoding well-formed hex, then more text, decodes the two parts one after the other. */
  lemma {:induction false} FromHexAppend(a: string, b: string)
    requires AllHex(a) && |a| % 2 == 0
    ensures FromHex(a).Some?
    ensures FromHex(b).None? ==> FromHex(a + b).None?
    ensures FromHex(b).Some? ==> FromHex(a + b) == Some(FromHex(a).value + FromHex(b).value)
    decreases |a|
  {
    if a == [] {
      assert a + b == b;
      assert FromHex(a).value == [];
      if FromHex(b).Some? {
        assert FromHex(a).value + FromHex(b).value == FromHex(b).value;
      }
    } else {
      var t := a[2..];
      assert AllHex(t) by {
        forall i | 0 <= i < |t| ensures IsHexDigit(t[i]) { assert t[i] == a[i + 2]; }
      }
      FromHexAppend(t, b);
      var d := DigitValue(a[0]) * 16 + DigitValue(a[1]);
      PairStep(a, t, b, d);
      if FromHex(b).Some? {
        AppendAssoc([d], FromHex(t).value, FromHex(b).value);
      }
    }
  }

  /** One pair of digits in front of `t`, and in front of `t + b`. */
  lemma PairStep(a: string, t: string, b: string, d: byte)
    requires |a| >= 2 && IsHexDigit(a[0]) && IsHexDigit(a[1]) && t == a[2..]
    requires d == DigitValue(a[0]) * 16 + DigitValue(a[1])
    ensures FromHex(a) == if FromHex(t).None? then None else Some([d] + FromHex(t).value)
    ensures FromHex(a + b) == if FromHex(t + b).None? then None else Some([d] + FromHex(t + b).value)
  {
    PairFront(a, d);
    PairAppend(a, b);
    PairFront(a + b, d);
  }

  lemma PairAppend(a: string, b: string)
    requires |a| >= 2
    ensures (a + b)[0] == a[0] && (a + b)[1] == a[1] && (a + b)[2..] == a[2..] + b
  {
  }

  /** `bytes.fromhex` on text that starts with two hex digits. */
  lemma PairFront(s: string, d: byte)
    requires |s| >= 2 && IsHexDigit(s[0]) && IsHexDigit(s[1])
    requires d == DigitValue(s[0]) * 16 + DigitValue(s[1])
    ensures FromHex(s) == if FromHex(s[2..]).None? then None else Some([d] + FromHex(s[2..]).value)
  {
  }

  /** Every character of a successful decode is a digit or skipped whitespace: two digits per byte. */
  lemma {:induction false} FromHexShape(s: string)
    requires FromHex(s).Some?
    ensures 2 * |FromHex(s).value| == |s| ==> AllHex(s)
    ensures forall i :: 0 <= i < |s| ==> IsHexDigit(s[i]) || IsAsciiSpace(s[i])
    decreases |s|
  {
    if s != [] {
      if IsAsciiSpace(s[0]) {
        FromHexShape(s[1..]);
        assert forall i :: 1 <= i < |s| ==> s[i] == s[1..][i - 1];
      } else {
        FromHexShape(s[2..]);
        assert forall i :: 2 <= i < |s| ==> s[i] == s[2..][i - 2];
      }
    }
  }

  /** A character that is neither a hex digit nor ASCII whitespace makes `bytes.fromhex` fail. */
  lemma FromHexRejects(s: string, i: nat)
    requires i < |s| && !IsHexDigit(s[i]) && !IsAsciiSpace(s[i])
    ensures FromHex(s).None?
  {
    if FromHex(s).Some? {
      FromHexShape(s);
    }
  }

  /** The hex digit of a value below 16, in upper case. */
  function HexChar(d: nat): (c: char)
    requires d < 16
    ensures IsHexDigit(c) && DigitValue(c) == d
  {
    if d < 10 then ('0' as int + d) as char else ('A' as int + d - 10) as char
  }

  /** `u` written with exactly `w` hex digits. */
  function ToHex(u: nat, w: nat): (s: string)
    requires u < Pow(16, w)
    ensures |s| == w && AllHex(s)
  {
    if w == 0 then []
    else
      var p := Pow(16, w - 1);
      DivMod(u, p, 16);
      var s := [HexChar(u / p)] + ToHex(u % p, w - 1);
      assert forall i :: 1 <= i < |s| ==> s[i] == ToHex(u % p, w - 1)[i - 1];
      s
  }

  /** Round trip: reading back the digits gives the value. */
  lemma {:induction false} HexValueToHex(u: nat, w: nat)
    requires u < Pow(16, w)
    ensures HexValue(ToHex(u, w)) == u
  {
    if w > 0 {
      var p := Pow(16, w - 1);
      DivMod(u, p, 16);
      HexValueToHex(u % p, w - 1);
      var s := ToHex(u, w);
      assert s[1..] == ToHex(u % p, w - 1);
      assert HexValue(s) == DigitValue(s[0]) * p + HexValue(s[1..]);
    }
  }

  /** A signed 32-bit integer as the 8 hex digits of its two's-complement word. */
  function Int32ToHex(x: int): (s: string)
    requires IsInt32(x)
    ensures |s| == 8 && AllHex(s)
  {
    assert Pow(16, 8) == TWO_32 by { PowSquare(4); FourPows(); }
    ToHex(x % TWO_32, 8)
  }

  lemma FourPows()
    ensures Pow(256, 4) == TWO_32
  {
    assert Pow(256, 2) == 256 * 256;
  }

  /** Reading the 8 digits back as a signed word gives the integer. */
  lemma Int32HexRoundTrip(x: int)
    requires IsInt32(x)
    ensures HexValue(Int32ToHex(x)) == x % TWO_32
    ensures ToInt32(HexValue(Int32ToHex(x))) == x
  {
    assert Pow(16, 8) == TWO_32 by { PowSquare(4); FourPows(); }
    HexValueToHex(x % TWO_32, 8);
  }
}
