/**
 * The bounded-capture receive loop of est2.py: lines are framed out of the
 * serial reads, each line is written to the record file and counted, lines
 * of more than 14 decoded characters go to the frequency estimator, and every
 * 0xFF byte of a line is reported as a receive error.
 */
module Est2 {
  import opened Wrappers
  import opened Bytes
  import opened Framing
  import opened Utf8
  import opened Hex
  import opened IqTail
  import opened Seqs

  /** `N = 10_000`: the capture stops once this many lines have been counted. */
  const SAMPLE_CAP: nat := 10_000

  /**
   * `freq_est_decode`: the I/Q sample the estimate is computed from, or
   * nothing when the tail does not decode (every exception is swallowed).
   */
  function FreqEstDecode(line: string): (r: Option<IQ>)
    ensures r.Some? <==> |line| >= TAIL_LEN && AllHex(Tail(line))
    ensures r.Some? ==> r.value == IQ(Word32(Tail(line)[..8]), Word32(Tail(line)[8..]))
  {
    DecodeTailOkIff(line);
    if DecodeTail(line).Ok? then DecodeTailValue(line); Some(DecodeTail(line).value) else None
  }

  /** What the loop does with one line: whether it reaches the estimator, the sample, the error reports. */
  datatype LineReport = LineReport(forwarded: bool, sample: Option<IQ>, rxErrors: nat)

  function Report(line: seq<byte>): LineReport
  {
    var text := DecodeIgnore(line);
    var forwarded := |text| > MIN_LINE_LEN;
    LineReport(forwarded, if forwarded then FreqEstDecode(text) else None, Count(line, RX_ERROR))
  }

  function Reports(lines: seq<seq<byte>>): (r: seq<LineReport>)
    ensures |r| == |lines|
    ensures forall k :: 0 <= k < |lines| ==> r[k] == Report(lines[k])
  {
    if lines == [] then [] else Reports(lines[..|lines| - 1]) + [Report(lines[|lines| - 1])]
  }

  /** `f.write(line_str + "\n")` for each line. */
  function Rendered(lines: seq<seq<byte>>): (r: seq<string>)
    ensures |r| == |lines|
    ensures forall k :: 0 <= k < |lines| ==> r[k] == DecodeIgnore(lines[k]) + "\n"
  {
    if lines == [] then [] else Rendered(lines[..|lines| - 1]) + [DecodeIgnore(lines[|lines| - 1]) + "\n"]
  }

  /**
   * Only lines of more than 14 decoded characters reach the estimator, a
   * sample needs a full 16-digit tail, and a line reports receive errors
   * exactly when it holds a 0xFF byte.
   */
  lemma ReportSpec(line: seq<byte>)
    ensures Report(line).forwarded <==> |DecodeIgnore(line)| > MIN_LINE_LEN
    ensures Report(line).sample.Some? <==>
              |DecodeIgnore(line)| >= TAIL_LEN && AllHex(Tail(DecodeIgnore(line)))
    ensures Report(line).rxErrors > 0 <==> RX_ERROR in line
  {
    CountPositiveIff(line, RX_ERROR);
  }

  /** For an all-ASCII line the threshold is on the byte length itself. */
  lemma AsciiReport(line: seq<byte>)
    requires AllAscii(line)
    ensures Report(line).forwarded <==> |line| > MIN_LINE_LEN
  {
    DecodeAscii(line);
  }

  lemma {:induction false} RenderedAppend(a: seq<seq<byte>>, b: seq<seq<byte>>)
    ensures Rendered(a + b) == Rendered(a) + Rendered(b)
    ensures Reports(a + b) == Reports(a) + Reports(b)
  {
    if b == [] {
      AppendNil(a);
    } else {
      var init, last := b[..|b| - 1], b[|b| - 1];
      assert b == init + [last];
      AppendAssoc(a, init, [last]);
      RenderedAppend(a, init);
      RenderedSnoc(a + init, last);
      RenderedSnoc(init, last);
      AppendAssoc(Rendered(a), Rendered(init), [DecodeIgnore(last) + "\n"]);
      AppendAssoc(Reports(a), Reports(init), [Report(last)]);
    }
  }

  lemma RenderedSnoc(lines: seq<seq<byte>>, line: seq<byte>)
    ensures Rendered(lines + [line]) == Rendered(lines) + [DecodeIgnore(line) + "\n"]
    ensures Reports(lines + [line]) == Reports(lines) + [Report(line)]
  {
    TakeOneMore(lines + [line], |lines|);
    TakeAppend(lines, [line]);
  }

  /** Writing the lines of two reads in turn writes the lines of both. */
  lemma RecordStep(start: seq<string>, seen: seq<seq<byte>>, lines: seq<seq<byte>>, mid: seq<string>, after: seq<string>)
    requires mid == start + Rendered(seen)
    requires after == mid + Rendered(lines)
    ensures after == start + Rendered(seen + lines)
  {
    RenderedAppend(seen, lines);
    AppendAssoc(start, Rendered(seen), Rendered(lines));
  }

  /** The body of the framing loop for one line, apart from the record write and the count. */
  method HandleLine(line: seq<byte>) returns (text: string, report: LineReport)
    ensures text == DecodeIgnore(line) && report == Report(line)
  {
    text := DecodeIgnore(line);
    var forwarded := |text| > MIN_LINE_LEN;
    var sample: Option<IQ> := None;
    if forwarded {
      sample := FreqEstDecode(text);
    }
    var rx := CountRxErrors(line);
    report := LineReport(forwarded, sample, rx);
  }

  /** The state of one `read_tty` call in est2.py. */
  class Capture {
    var buffer: seq<byte>
    var n: nat
    var record: seq<string>

    /** Between reads the buffer never holds a whole line. */
    ghost predicate Valid()
      reads this
    {
      NEWLINE !in buffer
    }

    constructor ()
      ensures Valid() && buffer == [] && n == 0 && record == []
    {
      buffer := [];
      n := 0;
      record := [];
    }

    /** `buffer += data` and the `while b"\n" in buffer` loop after it. */
    method Append(data: seq<byte>) returns (lines: seq<seq<byte>>, reports: seq<LineReport>)
      requires Valid()
      modifies this
      ensures Valid()
      ensures SplitLines(old(buffer) + data) == Framed(lines, buffer)
      ensures Join(lines) + buffer == old(buffer) + data
      ensures forall k :: 0 <= k < |lines| ==> NEWLINE !in lines[k]
      ensures n == old(n) + |lines|
      ensures record == old(record) + Rendered(lines)
      ensures reports == Reports(lines)
      ensures data == [] ==> lines == [] && buffer == old(buffer) && n == old(n) && record == old(record)
    {
      var buf := buffer + data;
      var count, written := n, record;
      lines, reports := [], [];
      while NEWLINE in buf
        invariant Join(lines) + buf == old(buffer) + data
        invariant NewlineFree(lines)
        invariant count == old(n) + |lines|
        invariant written == old(record) + Rendered(lines)
        invariant reports == Reports(lines)
        decreases |buf|
      {
        var i := FirstIndex(buf, NEWLINE);
        var line := buf[..i];
        CutLine(lines, buf, i);
        buf := buf[i + 1..];
        var text, report := HandleLine(line);
        RenderedSnoc(lines, line);
        AppendAssoc(old(record), Rendered(lines), [text + "\n"]);
        NewlineFreeAppend(lines, [line]);
        written := written + [text + "\n"];
        count := count + 1;
        lines := lines + [line];
        reports := reports + [report];
      }
      LoopExit(old(buffer) + data, lines, buf);
      if data == [] {
        assert old(buffer) + data == old(buffer);
        NoNewlineNoLines(old(buffer));
      }
      buffer, n, record := buf, count, written;
    }

    /**
     * The outer `while n < N` loop over a sequence of reads: an empty read is
     * skipped, and the cap is tested only before each read.
     */
    method Listen(chunks: seq<seq<byte>>) returns (used: nat, reports: seq<LineReport>)
      requires Valid()
      modifies this
      ensures Valid()
      ensures used <= |chunks|
      ensures used < |chunks| ==> n >= SAMPLE_CAP
      ensures old(n) >= SAMPLE_CAP ==> used == 0
      ensures SplitLines(old(buffer) + Concat(chunks[..used])).rest == buffer
      ensures n == old(n) + |SplitLines(old(buffer) + Concat(chunks[..used])).lines|
      ensures record == old(record) + Rendered(SplitLines(old(buffer) + Concat(chunks[..used])).lines)
      ensures reports == Reports(SplitLines(old(buffer) + Concat(chunks[..used])).lines)
      ensures StartedBelowCap(old(buffer), old(n), chunks, used)
    {
      used, reports := 0, [];
      ghost var seen: seq<seq<byte>> := [];
      assert chunks[..0] == [];
      AppendNil(buffer);
      NoNewlineNoLines(buffer);
      while n < SAMPLE_CAP && used < |chunks|
        invariant Valid() && used <= |chunks|
        invariant SplitLines(old(buffer) + Concat(chunks[..used])) == Framed(seen, buffer)
        invariant n == old(n) + |seen|
        invariant record == old(record) + Rendered(seen)
        invariant reports == Reports(seen)
        invariant StartedBelowCap(old(buffer), old(n), chunks, used)
        invariant old(n) >= SAMPLE_CAP ==> used == 0
      {
        assert StartedBelowCap(old(buffer), old(n), chunks, used + 1);
        var data := chunks[used];
        if data != [] {
          ghost var before, written := buffer, record;
          var lines, rs := Append(data);
          FrameStep(old(buffer), chunks, used, seen, before, lines, buffer);
          RecordStep(old(record), seen, lines, written, record);
          RenderedAppend(seen, lines);
          reports := reports + rs;
          seen := seen + lines;
        } else {
          AppendNil(buffer);
          AppendNil(seen);
          NoNewlineNoLines(buffer);
          FrameStep(old(buffer), chunks, used, seen, buffer, [], buffer);
        }
        used := used + 1;
      }
    }
  }

  /** The `k`-th read was started while fewer than N lines had been counted. */
  ghost predicate BelowCapAt(start: seq<byte>, count: nat, chunks: seq<seq<byte>>, k: nat)
    requires k <= |chunks|
  {
    count + |SplitLines(start + Concat(chunks[..k])).lines| < SAMPLE_CAP
  }

  /** Each of the first `used` reads was started while fewer than N lines had been counted. */
  ghost predicate StartedBelowCap(start: seq<byte>, count: nat, chunks: seq<seq<byte>>, used: nat)
    requires used <= |chunks|
    decreases used
  {
    used == 0 || (StartedBelowCap(start, count, chunks, used - 1) && BelowCapAt(start, count, chunks, used - 1))
  }

  lemma {:induction false} StartedBelowCapSpec(start: seq<byte>, count: nat, chunks: seq<seq<byte>>, used: nat)
    requires used <= |chunks|
    ensures StartedBelowCap(start, count, chunks, used) <==>
              forall k :: 0 <= k < used ==> BelowCapAt(start, count, chunks, k)
  {
    if used > 0 {
      StartedBelowCapSpec(start, count, chunks, used - 1);
    }
  }

  /** One read holding two newlines adds two to the count: a capture at N - 1 lines ends at N + 1. */
  lemma CapOvershoot(buffer: seq<byte>)
    requires NEWLINE !in buffer
    ensures |Feed(buffer, [[NEWLINE, NEWLINE]]).lines| == 2
  {
    var s := buffer + [NEWLINE, NEWLINE];
    assert [[NEWLINE, NEWLINE]][..0] == [];
    var f := Framed([buffer, []], []);
    assert f.lines[1..] == [[]];
    assert Join([[]]) == [NEWLINE];
    assert Join(f.lines) == buffer + [NEWLINE] + [NEWLINE];
    assert Join(f.lines) + f.rest == s;
    SplitUnique(f, s);
  }

  /**
   * A capture started at any count below N, given one read that holds two
   * newlines, takes that read and counts both lines: started at N - 1 it
   * ends at N + 1.
   */
  method CaptureOvershoot(before: nat) returns (used: nat, count: nat)
    requires before < SAMPLE_CAP
    ensures used == 1 && count == before + 2
    ensures before == SAMPLE_CAP - 1 ==> count == SAMPLE_CAP + 1
  {
    var c := new Capture();
    c.n := before;
    var chunks := [[NEWLINE, NEWLINE]];
    TwoNewlinesFramed(chunks);
    var reports;
    used, reports := c.Listen(chunks);
    count := c.n;
  }

  lemma TwoNewlinesFramed(chunks: seq<seq<byte>>)
    requires chunks == [[NEWLINE, NEWLINE]]
    ensures |SplitLines([] + Concat(chunks[..0])).lines| == 0
    ensures |SplitLines([] + Concat(chunks[..1])).lines| == 2
  {
    assert chunks[..0] == [] && chunks[..1] == chunks;
    assert [] + Concat([]) == [];
    NoNewlineNoLines([]);
    CapOvershoot([]);
    FeedIsSplit([], chunks);
  }
}
