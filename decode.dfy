/**
 * The ADS-B monitor of decode.py: lines are framed out of the serial reads,
 * lines of more than 14 decoded characters are split into a Mode S message
 * and an I/Q tail, messages of downlink format 17 or 18 are routed by their
 * type code, and every 0xFF byte of a line is reported as a receive error.
 * An exception raised while decoding a line is not caught: it ends the loop.
 */
module Decode {
  import opened Wrappers
  import opened Bytes
  import opened Framing
  import opened Utf8
  import opened IqTail
  import opened Seqs

  /**
   * The pyModeS calls the routing depends on, as total functions of the
   * message text. `None` from `df` or `typecode` means the library raised;
   * `None` from `altitude` is the library's own `None` result.
   */
  datatype ModeS = ModeS(df: string -> Option<int>, typecode: string -> Option<int>, altitude: string -> Option<int>)

  /** Extended squitter (DF 17) and non-transponder extended squitter (DF 18). */
  predicate IsAdsb(df: int)
  {
    df == 17 || df == 18
  }

  /** Type codes carrying an altitude: airborne position, barometric (9..18) or GNSS (20..22). */
  predicate HasAltitude(tc: int)
  {
    9 <= tc <= 18 || 20 <= tc <= 22
  }

  datatype Unit = Feet | Metres

  datatype Altitude = Altitude(value: int, unit: Unit)

  /** The one further field of the `if`/`elif` chain that is decoded. */
  datatype Field = Callsign | Position | Velocity

  /** What `adsb_decode` shows for one line. */
  datatype Outcome =
    | NotAdsb
    | Shown(msg: string, df: int, tc: int, altitude: Option<Altitude>, field: Option<Field>, iq: IQ)

  /** The exception that leaves `adsb_decode`. */
  datatype Failure =
    | LibraryError
    | TailFailure(reason: TailError)

  /** `alt` is shown when the type code carries one and the library found one; feet on barometric codes. */
  function AltitudeShown(tc: int, alt: Option<int>): (r: Option<Altitude>)
    ensures r.Some? <==> HasAltitude(tc) && alt.Some?
    ensures r.Some? ==> r.value.value == alt.value
    ensures r.Some? ==> (r.value.unit == Feet <==> 9 <= tc <= 18)
  {
    if HasAltitude(tc) && alt.Some? then
      Some(Altitude(alt.value, if 9 <= tc <= 18 then Feet else Metres))
    else None
  }

  /** The `if`/`elif` chain on the type code: identification, airborne position, velocity. */
  function FieldFor(tc: int): (f: Option<Field>)
    ensures f == Some(Callsign) <==> 1 <= tc <= 4
    ensures f == Some(Position) <==> 9 <= tc <= 18
    ensures f == Some(Velocity) <==> tc == 19
    ensures f == None <==> !(1 <= tc <= 4 || 9 <= tc <= 19)
  {
    if 1 <= tc <= 4 then Some(Callsign)
    else if 9 <= tc <= 18 then Some(Position)
    else if tc == 19 then Some(Velocity)
    else None
  }

  /**
   * `adsb_decode`: the message is the line before its 16-character tail; a
   * message that is not DF 17/18 is dropped before the tail is looked at,
   * otherwise the type code is read and the tail is decoded strictly.
   */
  function AdsbDecode(line: string, m: ModeS): (r: Result<Outcome, Failure>)
    ensures r == Ok(NotAdsb) <==> m.df(Message(line)).Some? && !IsAdsb(m.df(Message(line)).value)
    ensures m.df(Message(line)).None? ==> r == Err(LibraryError)
    ensures m.df(Message(line)).Some? && IsAdsb(m.df(Message(line)).value) && m.typecode(Message(line)).None? ==>
              r == Err(LibraryError)
    ensures (m.df(Message(line)).Some? && IsAdsb(m.df(Message(line)).value) &&
             m.typecode(Message(line)).Some? && DecodeTail(line).Ok?) ==> r.Ok? && r.value.Shown?
    ensures r.Ok? && r.value.Shown? ==>
              r.value.msg == Message(line) && m.df(Message(line)) == Some(r.value.df) && IsAdsb(r.value.df) &&
              m.typecode(Message(line)) == Some(r.value.tc) && DecodeTail(line) == Ok(r.value.iq)
    ensures r.Ok? && r.value.Shown? ==>
              r.value.altitude == AltitudeShown(r.value.tc, m.altitude(Message(line))) &&
              r.value.field == FieldFor(r.value.tc)
    ensures r.Err? && r.error.TailFailure? ==> DecodeTail(line) == Err(r.error.reason)
  {
    var msg := Message(line);
    match m.df(msg)
    case None => Err(LibraryError)
    case Some(df) =>
      if !IsAdsb(df) then Ok(NotAdsb)
      else
        match m.typecode(msg)
        case None => Err(LibraryError)
        case Some(tc) =>
          match DecodeTail(line)
          case Err(e) => Err(TailFailure(e))
          case Ok(iq) => Ok(Shown(msg, df, tc, AltitudeShown(tc, m.altitude(msg)), FieldFor(tc), iq))
  }

  /**
   * Once the message is DF 17/18 with a type code, the line is shown exactly
   * when its tail decodes, and fails with the tail's own error otherwise.
   */
  lemma AdsbTail(line: string, m: ModeS)
    requires m.df(Message(line)).Some? && IsAdsb(m.df(Message(line)).value)
    requires m.typecode(Message(line)).Some?
    ensures AdsbDecode(line, m).Ok? <==> DecodeTail(line).Ok?
    ensures DecodeTail(line).Err? ==> AdsbDecode(line, m) == Err(TailFailure(DecodeTail(line).error))
  {
  }

  /** A line whose message is not DF 17/18 never fails, whatever its tail holds. */
  lemma NotAdsbNeverFails(line: string, tail: string, m: ModeS)
    requires |tail| == TAIL_LEN
    requires m.df(line).Some? && !IsAdsb(m.df(line).value)
    ensures Message(line + tail) == line
    ensures AdsbDecode(line + tail, m) == Ok(NotAdsb)
  {
    if |line| == 0 {
      assert line + tail == tail;
    } else {
      assert (line + tail)[..|line + tail| - TAIL_LEN] == line;
    }
  }

  /**
   * Position messages are the barometric altitude ones, shown in feet;
   * identification and velocity messages carry no altitude.
   */
  lemma FieldsAndAltitude(tc: int, alt: Option<int>)
    ensures FieldFor(tc) == Some(Position) ==> HasAltitude(tc) && (alt.Some? ==> AltitudeShown(tc, alt).value.unit == Feet)
    ensures FieldFor(tc) == Some(Callsign) || FieldFor(tc) == Some(Velocity) ==> AltitudeShown(tc, alt) == None
    ensures 20 <= tc <= 22 && alt.Some? ==> AltitudeShown(tc, alt) == Some(Altitude(alt.value, Metres)) && FieldFor(tc) == None
  {
  }

  /** What the loop does with one line, when nothing in it raises. */
  datatype Seen = Seen(outcome: Option<Outcome>, rxErrors: nat)

  /** The body of `while b"\n" in buffer` for one line: decode when long enough, then count 0xFF bytes. */
  function LineResult(line: seq<byte>, m: ModeS): Result<Seen, Failure>
  {
    var text := DecodeIgnore(line);
    if |text| > MIN_LINE_LEN then
      match AdsbDecode(text, m)
      case Err(e) => Err(e)
      case Ok(o) => Ok(Seen(Some(o), Count(line, RX_ERROR)))
    else Ok(Seen(None, Count(line, RX_ERROR)))
  }

  /** Short lines are never decoded and never fail; a line reports receive errors exactly when it holds 0xFF. */
  lemma LineResultSpec(line: seq<byte>, m: ModeS)
    ensures |DecodeIgnore(line)| <= MIN_LINE_LEN ==> LineResult(line, m) == Ok(Seen(None, Count(line, RX_ERROR)))
    ensures LineResult(line, m).Err? <==>
              |DecodeIgnore(line)| > MIN_LINE_LEN && AdsbDecode(DecodeIgnore(line), m).Err?
    ensures LineResult(line, m).Ok? ==> (LineResult(line, m).value.rxErrors > 0 <==> RX_ERROR in line)
  {
    CountPositiveIff(line, RX_ERROR);
  }

  /**
   * Lines handled in order until the first one that raises: the reports of
   * all of them, or the first exception.
   */
  function Run(lines: seq<seq<byte>>, m: ModeS): Result<seq<Seen>, Failure>
  {
    if lines == [] then Ok([])
    else
      match Run(lines[..|lines| - 1], m)
      case Err(e) => Err(e)
      case Ok(seen) =>
        match LineResult(lines[|lines| - 1], m)
        case Err(e) => Err(e)
        case Ok(s) => Ok(seen + [s])
  }

  /** A run succeeds exactly when every line does, and then reports every line in order. */
  lemma {:induction false} RunOk(lines: seq<seq<byte>>, m: ModeS)
    ensures Run(lines, m).Ok? <==> forall k :: 0 <= k < |lines| ==> LineResult(lines[k], m).Ok?
    ensures Run(lines, m).Ok? ==>
              |Run(lines, m).value| == |lines| &&
              forall k :: 0 <= k < |lines| ==> Run(lines, m).value[k] == LineResult(lines[k], m).value
  {
    if lines != [] {
      var init, last := lines[..|lines| - 1], lines[|lines| - 1];
      RunOk(init, m);
      if Run(lines, m).Ok? {
        var v := Run(init, m).value + [LineResult(last, m).value];
        assert Run(lines, m).value == v;
        forall k | 0 <= k < |lines|
          ensures LineResult(lines[k], m).Ok? && v[k] == LineResult(lines[k], m).value
        {
          if k < |init| {
            assert lines[k] == init[k];
          }
        }
      } else if Run(init, m).Ok? {
        assert LineResult(last, m).Err?;
      } else {
        var k :| 0 <= k < |init| && LineResult(init[k], m).Err?;
        assert lines[k] == init[k];
      }
    }
  }

  /** Once a line has raised, later lines change nothing; otherwise the reports of both parts are joined. */
  lemma {:induction false} RunAppend(a: seq<seq<byte>>, b: seq<seq<byte>>, m: ModeS)
    ensures Run(a, m).Err? ==> Run(a + b, m) == Run(a, m)
    ensures Run(a, m).Ok? && Run(b, m).Err? ==> Run(a + b, m) == Run(b, m)
    ensures Run(a, m).Ok? && Run(b, m).Ok? ==> Run(a + b, m) == Ok(Run(a, m).value + Run(b, m).value)
  {
    if b == [] {
      assert a + b == a;
      if Run(a, m).Ok? {
        assert Run(a, m).value + [] == Run(a, m).value;
      }
    } else {
      assert (a + b)[..|a + b| - 1] == a + b[..|b| - 1];
      assert (a + b)[|a + b| - 1] == b[|b| - 1];
      RunAppend(a, b[..|b| - 1], m);
      if Run(a, m).Ok? && Run(b[..|b| - 1], m).Ok? && Run(b, m).Ok? {
        assert Run(a, m).value + Run(b, m).value ==
               Run(a, m).value + Run(b[..|b| - 1], m).value + [Run(b, m).value[|Run(b, m).value| - 1]];
      }
    }
  }

  /** Handling one more line. */
  lemma RunSnoc(lines: seq<seq<byte>>, line: seq<byte>, m: ModeS)
    requires Run(lines, m).Ok?
    ensures LineResult(line, m).Err? ==> Run(lines + [line], m) == Err(LineResult(line, m).error)
    ensures LineResult(line, m).Ok? ==> Run(lines + [line], m) == Ok(Run(lines, m).value + [LineResult(line, m).value])
  {
    TakeAppend(lines, [line]);
  }

  /**
   * What the loop has printed by the time it stops: the reports of every
   * line before the first one that raises, or of all lines when none does.
   */
  function Printed(lines: seq<seq<byte>>, m: ModeS): seq<Seen>
  {
    if lines == [] then []
    else
      match Run(lines[..|lines| - 1], m)
      case Err(_) => Printed(lines[..|lines| - 1], m)
      case Ok(seen) =>
        match LineResult(lines[|lines| - 1], m)
        case Err(_) => seen
        case Ok(s) => seen + [s]
  }

  /** Without a failure, everything was printed. */
  lemma PrintedOk(lines: seq<seq<byte>>, m: ModeS)
    requires Run(lines, m).Ok?
    ensures Printed(lines, m) == Run(lines, m).value
  {
  }

  /** After a failure, what was printed is the run of the lines before the first line that raised, line `j`. */
  lemma {:induction false} PrintedErr(lines: seq<seq<byte>>, m: ModeS) returns (j: nat)
    requires Run(lines, m).Err?
    ensures j < |lines| && Run(lines[..j], m) == Ok(Printed(lines, m))
    ensures LineResult(lines[j], m) == Err(Run(lines, m).error)
  {
    var init := lines[..|lines| - 1];
    if Run(init, m).Err? {
      j := PrintedErr(init, m);
      TakeTake(lines, |lines| - 1, j);
      assert init[j] == lines[j];
    } else {
      j := |lines| - 1;
    }
  }

  /** Once a line has raised, later lines print nothing; otherwise the second part prints after the first. */
  lemma {:induction false} PrintedAppend(a: seq<seq<byte>>, b: seq<seq<byte>>, m: ModeS)
    ensures Run(a, m).Err? ==> Printed(a + b, m) == Printed(a, m)
    ensures Run(a, m).Ok? ==> Printed(a + b, m) == Run(a, m).value + Printed(b, m)
  {
    if b == [] {
      AppendNil(a);
      if Run(a, m).Ok? {
        AppendNil(Run(a, m).value);
      }
    } else {
      var init := b[..|b| - 1];
      assert (a + b)[..|a + b| - 1] == a + init;
      assert (a + b)[|a + b| - 1] == b[|b| - 1];
      PrintedAppend(a, init, m);
      RunAppend(a, init, m);
      if Run(a, m).Ok? && Run(init, m).Ok? && LineResult(b[|b| - 1], m).Ok? {
        AppendAssoc(Run(a, m).value, Run(init, m).value, [LineResult(b[|b| - 1], m).value]);
      }
    }
  }

  /** Handling, in order, every line framed out of the first `k` reads after `start`. */
  ghost function RunAfter(start: seq<byte>, chunks: seq<seq<byte>>, k: nat, m: ModeS): Result<seq<Seen>, Failure>
    requires k <= |chunks|
  {
    Run(SplitLines(start + Concat(chunks[..k])).lines, m)
  }

  /** What was printed for every line framed out of the first `k` reads after `start`. */
  ghost function PrintedAfter(start: seq<byte>, chunks: seq<seq<byte>>, k: nat, m: ModeS): seq<Seen>
    requires k <= |chunks|
  {
    Printed(SplitLines(start + Concat(chunks[..k])).lines, m)
  }

  /** One line of the framing loop; the 0xFF scan runs only after the decode returned. */
  method HandleLine(line: seq<byte>, m: ModeS) returns (r: Result<Seen, Failure>)
    ensures r == LineResult(line, m)
  {
    var text := DecodeIgnore(line);
    var outcome: Option<Outcome> := None;
    if |text| > MIN_LINE_LEN {
      var decoded := AdsbDecode(text, m);
      if decoded.Err? {
        return Err(decoded.error);
      }
      outcome := Some(decoded.value);
    }
    var rx := CountRxErrors(line);
    r := Ok(Seen(outcome, rx));
  }

  /** The state of `read_tty` in decode.py: the bytes read but not yet framed. */
  class Monitor {
    var buffer: seq<byte>

    /** Between reads the buffer never holds a whole line. */
    ghost predicate Valid()
      reads this
    {
      NEWLINE !in buffer
    }

    constructor ()
      ensures Valid() && buffer == []
    {
      buffer := [];
    }

    /**
     * `buffer += data` and the framing loop after it. A line is cut off the
     * buffer before it is decoded, so when it raises, the buffer holds what
     * follows it and the loop ends there.
     */
    method Append(data: seq<byte>, m: ModeS) returns (lines: seq<seq<byte>>, reports: seq<Seen>, failure: Option<Failure>)
      requires Valid()
      modifies this
      ensures Join(lines) + buffer == old(buffer) + data
      ensures NewlineFree(lines)
      ensures SplitLines(old(buffer) + data) == Framed(lines + SplitLines(buffer).lines, SplitLines(buffer).rest)
      ensures failure.None? ==> Valid() && Run(lines, m) == Ok(reports)
      ensures failure.Some? ==> lines != [] && Run(lines[..|lines| - 1], m) == Ok(reports) &&
                                LineResult(lines[|lines| - 1], m) == Err(failure.value)
      ensures failure.Some? ==> Run(lines, m) == Err(failure.value)
      ensures Printed(lines, m) == reports
    {
      var buf := buffer + data;
      lines, reports, failure := [], [], None;
      while NEWLINE in buf && failure.None?
        invariant Join(lines) + buf == old(buffer) + data
        invariant NewlineFree(lines)
        invariant failure.None? ==> Run(lines, m) == Ok(reports)
        invariant failure.Some? ==> lines != [] && Run(lines[..|lines| - 1], m) == Ok(reports) &&
                                    LineResult(lines[|lines| - 1], m) == Err(failure.value)
        invariant failure.Some? ==> Run(lines, m) == Err(failure.value)
        decreases |buf|
      {
        var i := FirstIndex(buf, NEWLINE);
        var line := buf[..i];
        CutLine(lines, buf, i);
        buf := buf[i + 1..];
        var r := HandleLine(line, m);
        RunSnoc(lines, line, m);
        lines := lines + [line];
        if r.Err? {
          failure := Some(r.error);
        } else {
          reports := reports + [r.value];
        }
      }
      buffer := buf;
      FrameExit(old(buffer) + data, lines, buf);
      if failure.None? {
        PrintedOk(lines, m);
      }
    }

    /** One pass of the outer loop: the read `chunks[used]`, skipped when it is empty. */
    method Read(ghost start: seq<byte>, chunks: seq<seq<byte>>, used: nat, m: ModeS, ghost seen: seq<seq<byte>>)
      returns (failure: Option<Failure>, reports: seq<Seen>, ghost lines: seq<seq<byte>>)
      requires used < |chunks| && Valid()
      requires SplitLines(start + Concat(chunks[..used])) == Framed(seen, buffer) && Run(seen, m).Ok?
      modifies this
      ensures failure.None? ==> Valid() && SplitLines(start + Concat(chunks[..used + 1])) == Framed(seen + lines, buffer)
      ensures failure.None? ==> Run(seen + lines, m) == Ok(Run(seen, m).value + reports)
      ensures failure.Some? ==> RunAfter(start, chunks, used + 1, m) == Err(failure.value)
      ensures PrintedAfter(start, chunks, used + 1, m) == Run(seen, m).value + reports
    {
      var data := chunks[used];
      if data == [] {
        AppendNil(buffer);
        AppendNil(seen);
        AppendNil(Run(seen, m).value);
        NoNewlineNoLines(buffer);
        FrameStep(start, chunks, used, seen, buffer, [], buffer);
        PrintedOk(seen, m);
        return None, [], [];
      }
      ghost var before := buffer;
      lines, reports, failure := Append(data, m);
      ghost var more := SplitLines(buffer);
      FrameStep(start, chunks, used, seen, before, lines + more.lines, more.rest);
      AppendAssoc(seen, lines, more.lines);
      RunAppend(seen, lines, m);
      PrintedAppend(seen, lines + more.lines, m);
      if failure.None? {
        NoNewlineNoLines(buffer);
        AppendNil(lines);
        PrintedOk(seen + lines, m);
      } else {
        RunAppend(seen + lines, more.lines, m);
        PrintedAppend(lines, more.lines, m);
      }
    }

    /**
     * The outer `while True` loop over a sequence of reads: an empty read is
     * skipped, and the first exception ends the loop. `reports` is what was
     * shown for every line handled before it.
     */
    method Listen(chunks: seq<seq<byte>>, m: ModeS) returns (used: nat, reports: seq<Seen>, failure: Option<Failure>)
      requires Valid()
      modifies this
      ensures used <= |chunks|
      ensures failure.None? ==> used == |chunks| && Valid()
      ensures failure.None? ==> SplitLines(old(buffer) + Concat(chunks)).rest == buffer
      ensures failure.None? ==> RunAfter(old(buffer), chunks, |chunks|, m) == Ok(reports)
      ensures failure.Some? ==> 0 < used && RunAfter(old(buffer), chunks, used, m) == Err(failure.value)
      ensures failure.Some? ==> RunAfter(old(buffer), chunks, used - 1, m).Ok?
      ensures reports == PrintedAfter(old(buffer), chunks, used, m)
    {
      used, reports, failure := 0, [], None;
      ghost var seen: seq<seq<byte>> := [];
      assert chunks[..0] == [];
      AppendNil(buffer);
      NoNewlineNoLines(buffer);
      while failure.None? && used < |chunks|
        invariant used <= |chunks|
        invariant failure.None? ==> Valid() && SplitLines(old(buffer) + Concat(chunks[..used])) == Framed(seen, buffer)
        invariant failure.None? ==> Run(seen, m) == Ok(reports)
        invariant failure.Some? ==> 0 < used && RunAfter(old(buffer), chunks, used, m) == Err(failure.value)
        invariant failure.Some? ==> RunAfter(old(buffer), chunks, used - 1, m).Ok?
        invariant reports == PrintedAfter(old(buffer), chunks, used, m)
      {
        assert RunAfter(old(buffer), chunks, used, m).Ok?;
        ghost var lines;
        var shown;
        failure, shown, lines := Read(old(buffer), chunks, used, m, seen);
        seen := seen + lines;
        reports := reports + shown;
        used := used + 1;
      }
      if failure.None? {
        TakeAll(chunks);
      }
    }
  }
}
