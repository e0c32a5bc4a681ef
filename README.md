# ADS-B receive scripts: byte and string front end

This project models the byte- and string-level logic of three receive
scripts in `dist/sdr/root`. Each script reads newline-framed text from the
serial device `/dev/ttyPS1`, which reports Mode S messages, each followed by
a 16-character hexadecimal I/Q sample.

- **`est2.py`.** `read_tty` frames lines out of the serial reads. Every line
  is written to a record file and counted, and the capture stops once
  10 000 lines have been counted; the cap is tested only before each read.
  Lines of more than 14 decoded characters go to `freq_est_decode`. That
  function decodes the I/Q tail strictly and swallows every failure. Every
  0xFF byte of a line is reported as a receive error.
- **`decode.py`.** `read_tty` frames lines the same way and sends long lines
  to `adsb_decode`. There, lines of downlink format 17/18 are routed by type
  code to the altitude, callsign, position and velocity requests, and their
  tail is decoded without any handler, so a malformed tail ends the loop.
- **`freq_est_listen.py`.** Each read is scanned on its own for runs of 16
  hex digits. Each token is normalised by `hex64_to_iq_freq` (strip, one
  `0x`, no `_` or spaces, `zfill(16)[:16]`). It is then split into two
  signed 32-bit words, in the order `order` selects.

The model is written in Dafny as follows.

- **Modules.** Shared modules hold the pieces the scripts share:
  - `Bytes`: the 0xFF count
  - `Framing`: the newline split, its conservation and uniqueness, and chunk independence
  - `Utf8`: `bytes.decode(errors="ignore")` and the ASCII decode
  - `Hex`: `bytes.fromhex`, big-endian and two's-complement integers
  - `IqTail`: the strict message/tail split and tail decode

  One module per script (`Est2`, `Decode`, `FreqEstListen`) models that
  script's loop.
- **State.** `read_tty` keeps its buffer, counter and record in a class
  (`Est2.Capture`, `Decode.Monitor`). Each read is passed to `Append` as a
  byte sequence. A finite sequence of reads is passed to `Listen`.
- **Printing.** What the scripts print is returned as values: a line's
  report, the decoded outcome, the I/Q sample, and the number of 0xFF bytes.
  Each script's `Listen` returns these for every line or token it handled,
  in order (`Est2.Capture.Listen`, `Decode.Monitor.Listen`,
  `FreqEstListen.Listen`).
- **pyModeS.** `ms.df`, `ms.adsb.typecode` and `ms.adsb.altitude` are
  parameters of type `Decode.ModeS`. They are total functions of the message
  text: `None` from `df` or `typecode` stands for an exception of the library.

## Model

| member | source | states |
|---|---|---|
| Bytes.CountPositiveIff | dist/sdr/root/est2.py:65-67 | a line has a receive-error report exactly when 0xFF occurs in it |
| Bytes.CountAppend | dist/sdr/root/freq_est_listen.py:86-88 | the 0xFF count of two reads together is the sum of their counts |
| Bytes.CountRxErrors | dist/sdr/root/est2.py:65-67 | the `for b in line` loop reports once per 0xFF byte, and reports something iff 0xFF occurs |
| Framing.SplitLines | dist/sdr/root/est2.py:60-61 | the definition of the framing loop: `split(b"\n", 1)` repeated while a newline is left, giving the lines and the buffer left over |
| Framing.Join | dist/sdr/root/est2.py:59-61 | the inverse view: lines, each followed by its newline, concatenated |
| Framing.Concat | dist/sdr/root/est2.py:59 | the bytes of a sequence of reads, in order, as `buffer += data` accumulates them |
| Framing.Feed | dist/sdr/root/est2.py:53-61 | the definition of the receive loop: each read appended to the buffer and framed, one read at a time |
| Framing.FirstIndex | dist/sdr/root/est2.py:61 | `split(b"\n", 1)` cuts at a newline with no newline before it |
| Framing.SplitConserves | dist/sdr/root/est2.py:59-61 | the lines, each followed by `\n`, then the rest, give back exactly the bytes framed |
| Framing.SplitDelimited | dist/sdr/root/est2.py:60-61 | no line holds 0x0A, and neither does the buffer left after the loop |
| Framing.SplitUnique | dist/sdr/root/est2.py:60-61 | any newline-free lines and rest that reassemble the bytes are exactly their split |
| Framing.SplitAppend | dist/sdr/root/est2.py:59-61 | splitting `a + b` gives the lines of `a`, then the lines of what `a` left followed by `b` |
| Framing.FrameStep | dist/sdr/root/est2.py:53-61 | one more read extends the framing of all earlier reads by the lines of that read |
| Framing.FrameExit | dist/sdr/root/decode.py:49-50 | a framing loop stopped early leaves lines that, followed by the split of the buffer, are the split of everything |
| Framing.FeedIsSplit | dist/sdr/root/est2.py:53-61 | framing the reads one after another is the same as splitting their concatenation once |
| Framing.ChunkIndependence | dist/sdr/root/est2.py:59-61 | the same bytes cut into different reads give the same lines and the same buffer |
| Framing.OneFrameAnyChunking | dist/sdr/root/est2.py:59-61 | one newline-terminated frame yields that one line, however the reads cut it |
| Framing.ConcatAppend | dist/sdr/root/est2.py:59 | the bytes of two runs of reads are the bytes of each run, in order |
| Utf8.DecodeIgnore | dist/sdr/root/est2.py:62 | the text has no more characters than the line has bytes |
| Utf8.DecodeAscii | dist/sdr/root/est2.py:62-63 | on an all-ASCII line the decode is the identity, so the length test is on the byte count |
| Utf8.DecodeEncode | dist/sdr/root/est2.py:62 | decoding the UTF-8 encoding of any text gives that text back |
| Utf8.AsciiIgnore | dist/sdr/root/freq_est_listen.py:53 | the ASCII decode keeps only characters below 128 and never lengthens the input |
| Utf8.AsciiIgnoreAppend | dist/sdr/root/freq_est_listen.py:53 | the ASCII decode of two parts is the decode of each, in order |
| Utf8.AsciiIgnoreKeeps | dist/sdr/root/freq_est_listen.py:53 | on bytes below 0x80 the ASCII decode keeps every byte as the same character, a single byte included |
| Utf8.HighByteDropped | dist/sdr/root/freq_est_listen.py:53 | a byte at or above 0x80, 0xFF included, vanishes from the decoded text |
| Hex.FromHex | dist/sdr/root/est2.py:96 | `bytes.fromhex` yields at most one byte per two characters |
| Hex.FromHexDigits | dist/sdr/root/est2.py:96 | an even run of hex digits decodes to half as many bytes whose big-endian value is the numeral's |
| Hex.FromHexAppend | dist/sdr/root/freq_est_listen.py:32 | well-formed hex followed by more text decodes as the two parts in turn, and fails when the second does |
| Hex.FromHexShape | dist/sdr/root/freq_est_listen.py:32 | a successful decode has only digits and ASCII whitespace, and only digits when nothing was skipped |
| Hex.FromHexRejects | dist/sdr/root/freq_est_listen.py:32 | any character that is neither a hex digit nor whitespace makes `bytes.fromhex` fail |
| Hex.HexValue | dist/sdr/root/freq_est_listen.py:32-33 | the value of a hex numeral, most significant digit first, is below 16 to the number of digits |
| Hex.BigEndian | dist/sdr/root/freq_est_listen.py:33 | `byteorder="big"`: the unsigned value of some bytes, first byte most significant, is below 256 to the number of bytes |
| Hex.FromBytesSigned | dist/sdr/root/freq_est_listen.py:33 | `int.from_bytes(signed=True)` lies in the two's-complement range of its width and is negative iff the top bit is set |
| Hex.ToInt32 | dist/sdr/root/freq_est_listen.py:33 | the signed reading of a 32-bit value is in range, congruent to it mod 2^32, and negative iff it is at least 2^31 |
| Hex.FourBytesSigned | dist/sdr/root/est2.py:96 | four bytes read big-endian and signed are the 32-bit value of their unsigned reading |
| Hex.HexValueToHex | dist/sdr/root/freq_est_listen.py:31-33 | the value of the hex numeral written for `u` is `u` |
| Hex.Int32HexRoundTrip | dist/sdr/root/freq_est_listen.py:31-33 | eight hex digits written for a 32-bit word read back signed as the same word |
| IqTail.Message | dist/sdr/root/decode.py:78 | `line[:-16]`, empty for a line of 16 characters or fewer |
| IqTail.Tail | dist/sdr/root/decode.py:109 | `line[-16:]`, the whole of a shorter line |
| IqTail.DecodeTail | dist/sdr/root/est2.py:96 | `np.frombuffer(bytes.fromhex(line[-16:]), '>i4')` followed by `iq[0]`, `iq[1]`, with one error per exception: not hex, not whole words, fewer than two words |
| IqTail.SplitLine | dist/sdr/root/decode.py:78 | message followed by tail is the line; the tail is its last 16 characters, or the whole of a shorter line |
| IqTail.Words | dist/sdr/root/decode.py:109 | `np.frombuffer('>i4')` gives one signed 32-bit word per four bytes, in order |
| IqTail.Word32 | dist/sdr/root/est2.py:96 | eight hex digits read as a signed word lie in [-2^31, 2^31) |
| IqTail.DecodeTailOkIff | dist/sdr/root/est2.py:96 | the strict tail decode succeeds exactly when the line has at least 16 characters and its tail is all hex |
| IqTail.DecodeTailValue | dist/sdr/root/est2.py:96 | on a hex tail, I is the first 8 digits and Q the last 8, each read as a signed word |
| IqTail.ShortLineFails | dist/sdr/root/decode.py:109 | a line shorter than 16 characters always fails the tail decode |
| IqTail.DecodeEncodedTail | dist/sdr/root/decode.py:78-109 | a message followed by the hex of two words splits back into that message and decodes to those words |
| IqTail.DecodeExample | dist/sdr/root/est2.py:96 | `00000001FFFFFFFF` decodes to (1, -1) |
| Est2.FreqEstDecode | dist/sdr/root/est2.py:90-103 | a sample is produced iff the line has a full 16-digit hex tail, and is (first word, second word); no other outcome |
| Est2.Report | dist/sdr/root/est2.py:62-67 | what the loop does with one line: forwarded iff its text exceeds 14 characters, the sample `freq_est_decode` computes for it, and its 0xFF count |
| Est2.Reports | dist/sdr/root/est2.py:62-67 | one report per line, in order |
| Est2.Rendered | dist/sdr/root/est2.py:69 | one record entry per line: its decoded text followed by `\n` |
| Est2.ReportSpec | dist/sdr/root/est2.py:62-67 | a line reaches the estimator iff its text exceeds 14 characters; it yields a sample iff its tail decodes; it reports errors iff it holds 0xFF |
| Est2.AsciiReport | dist/sdr/root/est2.py:62-63 | for an ASCII line the 14-character threshold is on its byte length |
| Est2.RenderedAppend | dist/sdr/root/est2.py:69-70 | the record and the reports of two runs of lines are those of each run, in order |
| Est2.HandleLine | dist/sdr/root/est2.py:62-67 | the body of the framing loop computes exactly the line's text and report |
| Est2.Capture.Append | dist/sdr/root/est2.py:59-70 | after `buffer += data` and the framing loop, the lines and the newline-free buffer are the split of old buffer plus data; `n` grows by the number of lines; the record grows by those lines with `\n`; an empty read changes nothing |
| Est2.Capture.Valid | dist/sdr/root/est2.py:59-61 | the state of `read_tty` (buffer, `n`, record); between reads the buffer holds no newline |
| Est2.Capture.constructor | dist/sdr/root/est2.py:45-48 | `buffer = b""` and `n = 0`, with an empty record |
| Est2.Capture.Listen | dist/sdr/root/est2.py:53-70 | the loop stops at the first read tested with `n >= N`; buffer, `n`, record and the returned reports (samples and 0xFF counts) are those of the split of everything read; every read taken was started below the cap |
| Est2.StartedBelowCapSpec | dist/sdr/root/est2.py:53 | "each read was started below the cap" holds iff the count before every one of those reads was under N |
| Est2.CapOvershoot | dist/sdr/root/est2.py:59-61 | feeding one read of two newlines frames two lines |
| Est2.CaptureOvershoot | dist/sdr/root/est2.py:53-70 | a capture started at any count below N takes one read of two newlines and counts both lines, so one started at N - 1 ends at N + 1 |
| Decode.AltitudeShown | dist/sdr/root/decode.py:93-97 | an altitude is shown iff tc is in 9..18 or 20..22 and the library found one; the unit is feet iff tc is in 9..18 |
| Decode.FieldFor | dist/sdr/root/decode.py:99-106 | callsign iff 1 <= tc <= 4, position iff 9 <= tc <= 18, velocity iff tc = 19, nothing otherwise |
| Decode.AdsbDecode | dist/sdr/root/decode.py:74-114 | a message that is not DF 17/18 is dropped before anything else; a `df` or `typecode` exception fails before the tail is read; otherwise type code, altitude, field and I/Q sample are shown exactly when the tail decodes, or the tail's exception escapes |
| Decode.AdsbTail | dist/sdr/root/decode.py:109 | for a DF 17/18 message with a type code, the line is shown iff its tail decodes, and fails with the tail's own error otherwise |
| Decode.NotAdsbNeverFails | dist/sdr/root/decode.py:80-84 | a message that is not DF 17/18 never fails, whatever its tail holds |
| Decode.FieldsAndAltitude | dist/sdr/root/decode.py:93-106 | position messages carry a barometric altitude in feet, callsign and velocity messages none, GNSS codes metres and no field |
| Decode.LineResult | dist/sdr/root/decode.py:51-57 | the body of the framing loop for one line: decode a line of more than 14 characters, then count its 0xFF bytes, or the exception |
| Decode.LineResultSpec | dist/sdr/root/decode.py:51-57 | a short line is never decoded and never fails; a line fails iff it is long and `adsb_decode` fails; errors are reported iff 0xFF occurs |
| Decode.Run | dist/sdr/root/decode.py:49-57 | lines handled in order until the first exception: every line's report, or that exception |
| Decode.RunOk | dist/sdr/root/decode.py:49-57 | handling lines in turn succeeds iff every line does, and then reports every line in order |
| Decode.RunAppend | dist/sdr/root/decode.py:42-57 | once a line has raised, later lines change nothing; otherwise the reports of both runs are joined |
| Decode.RunSnoc | dist/sdr/root/decode.py:49-57 | handling one more line appends its report or ends with its exception |
| Decode.Printed | dist/sdr/root/decode.py:49-57 | what has been printed when the loop stops: the reports of the lines before the first exception |
| Decode.PrintedOk | dist/sdr/root/decode.py:49-57 | without an exception every line's report was printed |
| Decode.PrintedErr | dist/sdr/root/decode.py:49-57 | after an exception at line `j`, exactly the reports of the lines before `j` were printed |
| Decode.PrintedAppend | dist/sdr/root/decode.py:42-57 | after an exception later lines print nothing; otherwise the second batch prints after the first |
| Decode.RunAfter | dist/sdr/root/decode.py:42-57 | the run of every line framed out of the first `k` reads |
| Decode.PrintedAfter | dist/sdr/root/decode.py:42-57 | what was printed for every line framed out of the first `k` reads |
| Decode.HandleLine | dist/sdr/root/decode.py:51-57 | the body of the framing loop computes exactly the line's result, and the 0xFF scan runs only after the decode returned |
| Decode.Monitor.Append | dist/sdr/root/decode.py:48-57 | lines and buffer conserve old buffer plus data; without an exception the buffer holds no newline and every line was handled; with one, the last line cut raised it and the buffer keeps what follows |
| Decode.Monitor.Valid | dist/sdr/root/decode.py:48-50 | the buffer of `read_tty`; between reads it holds no newline |
| Decode.Monitor.constructor | dist/sdr/root/decode.py:37 | `buffer = b""` |
| Decode.Monitor.Read | dist/sdr/root/decode.py:44-57 | one pass of `while True`: an empty read changes nothing; otherwise the framing of all reads is extended and the reports of the new lines are returned, or the exception is returned with the reports printed before it |
| Decode.Monitor.Listen | dist/sdr/root/decode.py:41-66 | the returned reports are exactly what was printed for the lines of the reads taken; without an exception every read is framed and every line shown; with one, it was raised by the last read taken, and every earlier read was handled |
| FreqEstListen.IsSpace | dist/sdr/root/freq_est_listen.py:24 | the characters for which `str.isspace` holds, the ones `strip()` removes |
| FreqEstListen.LStrip | dist/sdr/root/freq_est_listen.py:24 | the text after its leading whitespace, which does not start with whitespace |
| FreqEstListen.RStrip | dist/sdr/root/freq_est_listen.py:24 | the text before its trailing whitespace, which does not end with whitespace |
| FreqEstListen.Strip | dist/sdr/root/freq_est_listen.py:24 | `str.strip()` as both strips in turn |
| FreqEstListen.Cleaned | dist/sdr/root/freq_est_listen.py:24-27 | strip, one `0x`/`0X` dropped, then `_` and ` ` removed, in the source's order |
| FreqEstListen.LeadingSpacesSpec | dist/sdr/root/freq_est_listen.py:24 | the counted prefix is all whitespace and the next character is not |
| FreqEstListen.TrailingSpacesSpec | dist/sdr/root/freq_est_listen.py:24 | the counted suffix is all whitespace and the character before it is not |
| FreqEstListen.StripSpec | dist/sdr/root/freq_est_listen.py:24 | `strip()` is a slice of its input that removes only whitespace on both sides and neither starts nor ends with whitespace |
| FreqEstListen.StripPadded | dist/sdr/root/freq_est_listen.py:24 | whitespace around a text that neither starts nor ends with whitespace is removed exactly |
| FreqEstListen.StripIdempotent | dist/sdr/root/freq_est_listen.py:24 | stripping twice is stripping once |
| FreqEstListen.DropHexPrefix | dist/sdr/root/freq_est_listen.py:25-26 | one leading `0x` or `0X` is removed, and nothing else |
| FreqEstListen.Remove | dist/sdr/root/freq_est_listen.py:27 | `replace(c, '')` leaves no `c` and keeps every other character, with its count |
| FreqEstListen.RemoveAppend | dist/sdr/root/freq_est_listen.py:27 | removal works part by part and leaves text without `c` unchanged |
| FreqEstListen.Zfill | dist/sdr/root/freq_est_listen.py:28 | `zfill` pads to the width with zeros after any sign and leaves longer text unchanged |
| FreqEstListen.Pad16 | dist/sdr/root/freq_est_listen.py:28 | `zfill(16)[:16]` is exactly 16 characters: the first 16 of longer text, unsigned shorter text left-padded with `0` |
| FreqEstListen.ZerosValue | dist/sdr/root/freq_est_listen.py:28 | leading zeros do not change the value of a hex numeral |
| FreqEstListen.Normalise | dist/sdr/root/freq_est_listen.py:24-28 | the normalised text is always 16 characters long |
| FreqEstListen.NormaliseCanonical | dist/sdr/root/freq_est_listen.py:24-28 | whitespace, an optional `0x`/`0X` and up to 16 hex digits normalise to 16 hex digits of the same value, and a 16-digit token to itself |
| FreqEstListen.S32FromHex | dist/sdr/root/freq_est_listen.py:31-33 | `_s32_from_hex` fails iff `bytes.fromhex` does, and otherwise yields a 32-bit signed value |
| FreqEstListen.S32FromDigits | dist/sdr/root/freq_est_listen.py:31-33 | on eight hex digits it is the unsigned value, minus 2^32 when the top bit is set |
| FreqEstListen.OrderIsIQ | dist/sdr/root/freq_est_listen.py:36 | `order.upper() == 'IQ'`: two characters, the first upper-casing to `I` (dotless i included), the second to `Q` |
| FreqEstListen.Words2 | dist/sdr/root/freq_est_listen.py:30-38 | both halves are decoded, and the pair exists iff both halves are valid hex |
| FreqEstListen.HexToIQ | dist/sdr/root/freq_est_listen.py:17-41 | a decoded pair has both parts in the 32-bit signed range |
| FreqEstListen.OrderSwaps | dist/sdr/root/freq_est_listen.py:36-41 | an `order` other than IQ (any case) swaps the two words and fails exactly when IQ does |
| FreqEstListen.NonHexRejected | dist/sdr/root/freq_est_listen.py:32 | a character that is neither hex nor whitespace anywhere in the normalised text makes the call fail |
| FreqEstListen.AgreesWithTail | dist/sdr/root/freq_est_listen.py:17-41 | on a 16-hex-digit token the lenient decoder and the strict tail decode give the same sample |
| FreqEstListen.HexRoundTrip | dist/sdr/root/freq_est_listen.py:30-41 | the hex of two words decodes back to them, in the order `order` selects |
| FreqEstListen.Scan | dist/sdr/root/freq_est_listen.py:15 | every token is exactly 16 hex digits, and the tokens together are never longer than the text |
| FreqEstListen.ScanAllHex | dist/sdr/root/freq_est_listen.py:54 | a run of k hex digits yields floor(k/16) tokens |
| FreqEstListen.ScanSeparated | dist/sdr/root/freq_est_listen.py:54 | a non-hex character separates the matches on its two sides |
| FreqEstListen.ScanRun | dist/sdr/root/freq_est_listen.py:53-54 | a maximal run of k hex digits between two non-hex characters adds floor(k/16) tokens |
| FreqEstListen.FindTokens | dist/sdr/root/freq_est_listen.py:48-55 | the index loop yields the leftmost non-overlapping matches, each at its position in the text, left to right |
| FreqEstListen.ChunkTokens | dist/sdr/root/freq_est_listen.py:53-55 | the tokens of one read: ASCII decode, then the scan |
| FreqEstListen.HighByteInsideToken | dist/sdr/root/freq_est_listen.py:53 | a byte at or above 0x80 inside a run of digits is dropped and does not break the token |
| FreqEstListen.AllTokens | dist/sdr/root/freq_est_listen.py:81-90 | the tokens of each read in turn, nothing carried over between reads |
| FreqEstListen.SplitTokenLost | dist/sdr/root/freq_est_listen.py:83-90 | a token whose digits arrive in two reads is not found, while one read holding it all finds it |
| FreqEstListen.Decoded | dist/sdr/root/freq_est_listen.py:90-91 | each token paired with its sample, as both the lenient and the strict decode give it |
| FreqEstListen.DecodedAppend | dist/sdr/root/freq_est_listen.py:90-91 | samples of two runs of tokens join in order |
| FreqEstListen.TokenSample | dist/sdr/root/freq_est_listen.py:91 | a found token decodes, and its sample agrees with the strict tail decode |
| FreqEstListen.SampleAll | dist/sdr/root/freq_est_listen.py:90-91 | the token loop yields one sample per token, in order, each the token's decode |
| FreqEstListen.OnChunk | dist/sdr/root/freq_est_listen.py:84-91 | one read reports as many receive errors as it holds 0xFF bytes and yields a sample per token of that read alone |
| FreqEstListen.Listen | dist/sdr/root/freq_est_listen.py:81-91 | over all reads, the error count is the 0xFF count of everything read and the samples are those of each read's own tokens, in order |

## Left out

- Phase and frequency estimation (`np.angle`, `math.atan2`, `fs/2/np.pi*phi`, the `int()` truncation) is floating point. The model stops at the (I, Q) pair the estimate is computed from.
- Radio set-up (`setup_iio`, the `iio_attr` subprocess calls), the serial device (`os.open`, termios, `os.close`) and `os.read` are I/O. Each read is an input byte sequence, and `Listen` takes a finite sequence of them where the scripts loop for ever.
- A read that raises `BlockingIOError` is not modelled separately: it behaves as an empty read, which changes nothing. `KeyboardInterrupt` and the `finally` clean-up are not modelled.
- Printing is not modelled as output: the prints of errors, fields and samples are returned as counts and values instead, and each `Listen` returns them for the whole loop. The frequency printed is left out with the floating point.
- Decode.Printed: a DF 17/18 line whose tail then fails has already printed its message, DF, type code, altitude and field lines before the exception; the model reports only the exception for that line.
- `os.read(fd, 1024)` returns at most 1024 bytes. The reads are not bounded in the model: every property about reads holds for reads of any length, so it holds for reads of at most 1024 bytes too.
- The getopt command line (`usage`, option parsing) and the files under `research/` are not modelled.
- pyModeS is not part of this model. `df`, `typecode` and `altitude` are inputs. `callsign`, `position_with_ref` (with its fixed reference position) and `velocity` are represented only by which of them is requested. `ms.icao` (decode.py line 114) is not modelled.
- Decode.AdsbDecode: does not model exceptions raised inside `callsign`, `position_with_ref`, `velocity`, `altitude` or `icao`, because that code is not part of this model. Only `df`, `typecode` and the tail decode can fail.
- The unused `endian` parameter of `hex64_to_iq_freq` has no effect in the source and is not modelled.
- FreqEstListen.NormaliseCanonical: states its result only for unsigned input. `Zfill` models the sign rule, but the scanner never produces a signed token.
- The record file of est2.py is modelled as the sequence of strings written to it: each line's decoded text followed by `\n`, as `f.write(line_str + "\n")` writes it. The raw line bytes are not kept in it.
- `bytes.decode(errors="ignore")` is modelled as CPython's UTF-8 decoder, which drops the maximal invalid part at each error. Encodings other than UTF-8 and ASCII are not modelled.
