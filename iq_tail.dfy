/**
 * The strict frame split shared by est2.py and decode.py: a received line is
 * a message followed by a 16-character I/Q tail, and the tail is
 * `np.frombuffer(bytes.fromhex(line[-16:]), dtype='>i4')` read as I then Q.
 */
module IqTail {
  import opened Wrappers
  import opened Bytes
  import opened Hex

  /** Characters of the I/Q tail: 8 hex digits for I, then 8 for Q. */
  const TAIL_LEN: nat := 16

  /** Lines of this many decoded characters or fewer are not decoded at all. */
  const MIN_LINE_LEN: nat := 14

  /** One complex baseband sample, in-phase and quadrature parts. */
  datatype IQ = IQ(i: int, q: int)

  /** Why the strict tail decode fails, one case per Python exception. */
  datatype TailError =
    | NotHex          // bytes.fromhex raises ValueError
    | NotWholeWords   // np.frombuffer: buffer size is not a multiple of 4
    | TooFewWords     // iq[0] or iq[1] raises IndexError

  /** `line[:-16]`: empty when the line is 16 characters or shorter. */
  function Message(line: string): string
  {
    if |line| <= TAIL_LEN then [] else line[..|line| - TAIL_LEN]
  }

  /** `line[-16:]`: the whole line when it is shorter than 16 characters. */
  function Tail(line: string): string
  {
    if |line| <= TAIL_LEN then line else line[|line| - TAIL_LEN..]
  }

  /** The split keeps every character, and the tail is as long as it can be up to 16. */
  lemma SplitLine(line: string)
    ensures Message(line) + Tail(line) == line
    ensures |Tail(line)| == if |line| < TAIL_LEN then |line| else TAIL_LEN
    ensures |line| > TAIL_LEN ==> |Message(line)| == |line| - TAIL_LEN
  {
  }

  /** `np.frombuffer(b, dtype='>i4')`: consecutive big-endian signed 32-bit words. */
  function Words(b: seq<byte>): (w: seq<int>)
    requires |b| % 4 == 0
    ensures |w| == |b| / 4
    ensures forall k :: 0 <= k < |w| ==> w[k] == FromBytesSigned(b[4 * k..4 * k + 4]) && IsInt32(w[k])
  {
    if b == [] then []
    else
      FourBytesSigned(b[..4]);
      var more := Words(b[4..]);
      var w := [FromBytesSigned(b[..4])] + more;
      assert forall k :: 1 <= k < |w| ==> b[4 * k..4 * k + 4] == b[4..][4 * (k - 1)..4 * (k - 1) + 4];
      w
  }

  /** The tail decode of est2.py:96 and decode.py:109, every failure made explicit. */
  function DecodeTail(line: string): Result<IQ, TailError>
  {
    match FromHex(Tail(line))
    case None => Err(NotHex)
    case Some(b) =>
      if |b| % 4 != 0 then Err(NotWholeWords)
      else
        var w := Words(b);
        if |w| < 2 then Err(TooFewWords) else Ok(IQ(w[0], w[1]))
  }

  /** Eight hex digits read as a signed 32-bit word. */
  function Word32(h: string): (x: int)
    requires |h| == 8 && AllHex(h)
    ensures IsInt32(x)
  {
    assert Pow(16, 8) == TWO_32 by { PowSquare(4); FourPows(); }
    ToInt32(HexValue(h))
  }

  /** The strict decode succeeds exactly when the line ends in 16 hex digits. */
  lemma DecodeTailOkIff(line: string)
    ensures DecodeTail(line).Ok? <==> |line| >= TAIL_LEN && AllHex(Tail(line))
  {
    var t := Tail(line);
    if |line| >= TAIL_LEN && AllHex(t) {
      FromHexDigits(t);
    }
    if DecodeTail(line).Ok? {
      var b := FromHex(t).value;
      assert |b| >= 8;
      FromHexShape(t);
    }
  }

  /** On a line ending in 16 hex digits, I comes from the first 8 of them and Q from the last 8. */
  lemma DecodeTailValue(line: string)
    requires |line| >= TAIL_LEN && AllHex(Tail(line))
    ensures var t := Tail(line);
            DecodeTail(line) == Ok(IQ(Word32(t[..8]), Word32(t[8..])))
  {
    var t := Tail(line);
    var h1, h2 := t[..8], t[8..];
    HalvesHex(t);
    FromHexDigits(h1);
    FromHexDigits(h2);
    FromHexAppend(h1, h2);
    var b1, b2 := FromHex(h1).value, FromHex(h2).value;
    assert FromHex(t) == Some(b1 + b2);
    TwoWords(b1, b2);
    FourBytesSigned(b1);
    FourBytesSigned(b2);
  }

  /** Both halves of a 16-digit tail are hex, and together they are the tail. */
  lemma HalvesHex(t: string)
    requires |t| == TAIL_LEN && AllHex(t)
    ensures AllHex(t[..8]) && AllHex(t[8..]) && t == t[..8] + t[8..]
  {
    var h1, h2 := t[..8], t[8..];
    forall k | 0 <= k < 8 ensures IsHexDigit(h1[k]) && IsHexDigit(h2[k]) {
      assert h1[k] == t[k] && h2[k] == t[k + 8];
    }
  }

  /** Eight bytes hold two words, the first four bytes then the last four. */
  lemma TwoWords(b1: seq<byte>, b2: seq<byte>)
    requires |b1| == 4 && |b2| == 4
    ensures |b1 + b2| % 4 == 0
    ensures Words(b1 + b2) == [FromBytesSigned(b1), FromBytesSigned(b2)]
  {
    var b := b1 + b2;
    assert b[..4] == b1 && b[4..8] == b2;
  }

  /** A line too short to carry a full tail never decodes. */
  lemma ShortLineFails(line: string)
    requires |line| < TAIL_LEN
    ensures DecodeTail(line).Err?
  {
    DecodeTailOkIff(line);
  }

  /**
   * Round trip: a message followed by the 8-digit words of I and Q splits back
   * into that message, and its tail decodes to (I, Q).
   */
  lemma DecodeEncodedTail(msg: string, i: int, q: int)
    requires IsInt32(i) && IsInt32(q)
    ensures Message(msg + Int32ToHex(i) + Int32ToHex(q)) == msg
    ensures DecodeTail(msg + Int32ToHex(i) + Int32ToHex(q)) == Ok(IQ(i, q))
  {
    var h1, h2 := Int32ToHex(i), Int32ToHex(q);
    var line := msg + h1 + h2;
    assert Tail(line) == h1 + h2;
    assert Message(line) == msg;
    assert (h1 + h2)[..8] == h1 && (h1 + h2)[8..] == h2;
    assert AllHex(h1 + h2) by {
      forall k | 0 <= k < 16 ensures IsHexDigit((h1 + h2)[k]) {
        if k < 8 { assert (h1 + h2)[k] == h1[k]; } else { assert (h1 + h2)[k] == h2[k - 8]; }
      }
    }
    DecodeTailValue(line);
    Int32HexRoundTrip(i);
    Int32HexRoundTrip(q);
  }

  /** The tail 00000001FFFFFFFF is I = 1 and Q = -1. */
  lemma DecodeExample()
    ensures DecodeTail("00000001FFFFFFFF") == Ok(IQ(1, -1))
  {
    ExampleLine();
    DecodeTailValue("00000001FFFFFFFF");
    Word32One();
    Word32AllOnes();
  }

  lemma ExampleLine()
    ensures Tail("00000001FFFFFFFF") == "00000001FFFFFFFF" && AllHex("00000001FFFFFFFF")
    ensures "00000001FFFFFFFF"[..8] == "00000001" && "00000001FFFFFFFF"[8..] == "FFFFFFFF"
  {
  }

  lemma Word32One()
    ensures Word32("00000001") == 1
  {
    HexValueOne();
  }

  lemma Word32AllOnes()
    ensures Word32("FFFFFFFF") == -1
  {
    HexValueAllOnes();
  }

  lemma HexValueOne()
    ensures HexValue("00000001") == 1
  {
    LeadingZero("00000001");
    LeadingZero("0000001");
    LeadingZero("000001");
    LeadingZero("00001");
    LeadingZero("0001");
    LeadingZero("001");
    LeadingZero("01");
    assert HexValue("1") == 1;
  }

  /** A leading zero digit adds nothing to the value. */
  lemma LeadingZero(s: string)
    requires AllHex(s) && |s| > 0 && s[0] == '0'
    ensures AllHex(s[1..]) && HexValue(s) == HexValue(s[1..])
  {
    assert AllHex(s[1..]) by {
      forall i | 0 <= i < |s| - 1 ensures IsHexDigit(s[1..][i]) { assert s[1..][i] == s[i + 1]; }
    }
  }

  lemma HexValueAllOnes()
    ensures HexValue("FFFFFFFF") == TWO_32 - 1
  {
    PowValues();
    LeadingF("FFFFFFFF");
    LeadingF("FFFFFFF");
    LeadingF("FFFFFF");
    LeadingF("FFFFF");
    LeadingF("FFFF");
    LeadingF("FFF");
    LeadingF("FF");
    assert HexValue("F") == 0xF;
  }

  /** A leading F digit adds 15 times the weight of its place. */
  lemma LeadingF(s: string)
    requires AllHex(s) && |s| > 0 && s[0] == 'F'
    ensures AllHex(s[1..]) && HexValue(s) == 15 * Pow(16, |s| - 1) + HexValue(s[1..])
  {
    assert AllHex(s[1..]) by {
      forall i | 0 <= i < |s| - 1 ensures IsHexDigit(s[1..][i]) { assert s[1..][i] == s[i + 1]; }
    }
  }

  lemma PowValues()
    ensures Pow(16, 0) == 1 && Pow(16, 1) == 0x10 && Pow(16, 2) == 0x100 && Pow(16, 3) == 0x1000
    ensures Pow(16, 4) == 0x1_0000 && Pow(16, 5) == 0x10_0000 && Pow(16, 6) == 0x100_0000
    ensures Pow(16, 7) == 0x1000_0000
  {
    assert Pow(16, 1) == 0x10;
    assert Pow(16, 2) == 0x100;
    assert Pow(16, 3) == 0x1000;
    assert Pow(16, 4) == 0x1_0000;
    assert Pow(16, 5) == 0x10_0000;
    assert Pow(16, 6) == 0x100_0000;
  }
}
