/**
 * Bytes as read from the serial link, and the two byte values the receive
 * scripts look at: the line delimiter and the receive-error marker.
 */
module Bytes {

  type byte = b: int | 0 <= b < 0x100

  /** The frame delimiter, b"\n". */
  const NEWLINE: byte := 0x0A

  /** The byte the radio front end sends when it failed to receive a bit. */
  const RX_ERROR: byte := 0xFF

  /** Number of occurrences of `x` in `s`. */
  function Count(s: seq<byte>, x: byte): (k: nat)
    ensures k <= |s|
  {
    if s == [] then 0 else Count(s[..|s| - 1], x) + (if s[|s| - 1] == x then 1 else 0)
  }

  lemma {:induction false} CountPositiveIff(s: seq<byte>, x: byte)
    ensures Count(s, x) > 0 <==> x in s
  {
    if s != [] {
      CountPositiveIff(s[..|s| - 1], x);
      assert s == s[..|s| - 1] + [s[|s| - 1]];
    }
  }

  lemma {:induction false} CountAppend(a: seq<byte>, b: seq<byte>, x: byte)
    ensures Count(a + b, x) == Count(a, x) + Count(b, x)
  {
    if b != [] {
      assert (a + b)[..|a + b| - 1] == a + b[..|b| - 1];
      CountAppend(a, b[..|b| - 1], x);
    } else {
      assert a + b == a;
    }
  }

  /**
   * The `for b in line: if b == 0xFF: print("RX error detected!")` scan:
   * returns how many error reports it prints.
   */
  method CountRxErrors(line: seq<byte>) returns (reports: nat)
    ensures reports == Count(line, RX_ERROR)
    ensures reports > 0 <==> RX_ERROR in line
  {
    reports := 0;
    for i := 0 to |line|
      invariant reports == Count(line[..i], RX_ERROR)
    {
      assert line[..i + 1][..i] == line[..i];
      if line[i] == RX_ERROR {
        reports := reports + 1;
      }
    }
    assert line[..|line|] == line;
    CountPositiveIff(line, RX_ERROR);
  }
}
