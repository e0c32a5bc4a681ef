/**
 * The line framer shared by the receive loops: bytes accumulate in a buffer
 * and every newline splits off the bytes before it as one line.
 *
 * `SplitLines` is the reference definition of what the loop
 * `while b"\n" in buffer: line, buffer = buffer.split(b"\n", 1)` produces
 * from a buffer: the lines it emits, in order, and the bytes it leaves.
 */
module Framing {
  import opened Bytes
  import opened Seqs

  datatype Framed = Framed(lines: seq<seq<byte>>, rest: seq<byte>)

  /** Position of the first `x` in `s` (what `split(x, 1)` cuts at). */
  function FirstIndex(s: seq<byte>, x: byte): (i: nat)
    requires x in s
    ensures i < |s| && s[i] == x && x !in s[..i]
  {
    if s[0] == x then 0
    else
      assert s == [s[0]] + s[1..];
      var j := FirstIndex(s[1..], x);
      assert s[..j + 1] == [s[0]] + s[1..][..j];
      j + 1
  }

  /** Splits off lines at each newline until none is left. */
  function SplitLines(s: seq<byte>): Framed
    decreases |s|
  {
    if NEWLINE in s then
      var i := FirstIndex(s, NEWLINE);
      var more := SplitLines(s[i + 1..]);
      Framed([s[..i]] + more.lines, more.rest)
    else
      Framed([], s)
  }

  /** The bytes of `lines`, each followed by its newline. */
  function Join(lines: seq<seq<byte>>): seq<byte>
  {
    if lines == [] then [] else lines[0] + [NEWLINE] + Join(lines[1..])
  }

  /** No line and no left-over byte holds a newline. */
  predicate Delimited(f: Framed)
  {
    (forall k :: 0 <= k < |f.lines| ==> NEWLINE !in f.lines[k]) && NEWLINE !in f.rest
  }

  lemma {:induction false} JoinAppend(a: seq<seq<byte>>, b: seq<seq<byte>>)
    ensures Join(a + b) == Join(a) + Join(b)
  {
    if a == [] {
      assert a + b == b;
    } else {
      assert (a + b)[1..] == a[1..] + b;
      JoinAppend(a[1..], b);
    }
  }

  /** Buffer conservation: the emitted lines with their newlines, then the rest, give back the input. */
  lemma {:induction false} SplitConserves(s: seq<byte>)
    ensures Join(SplitLines(s).lines) + SplitLines(s).rest == s
    decreases |s|
  {
    if NEWLINE in s {
      var i := FirstIndex(s, NEWLINE);
      SplitConserves(s[i + 1..]);
      var more := SplitLines(s[i + 1..]);
      JoinCons(s[..i], more.lines);
      Reassemble(s, i, Join(more.lines), more.rest);
    }
  }

  lemma JoinCons(line: seq<byte>, lines: seq<seq<byte>>)
    ensures Join([line] + lines) == line + [NEWLINE] + Join(lines)
  {
    assert ([line] + lines)[1..] == lines;
  }

  /** Putting a buffer back together around the newline it was cut at. */
  lemma Reassemble(s: seq<byte>, i: nat, joined: seq<byte>, rest: seq<byte>)
    requires i < |s| && s[i] == NEWLINE && joined + rest == s[i + 1..]
    ensures s[..i] + [NEWLINE] + joined + rest == s
  {
    assert s[..i] + [NEWLINE] + joined + rest == s[..i] + [NEWLINE] + (joined + rest);
    assert s == s[..i] + [NEWLINE] + s[i + 1..];
  }

  /** Neither an emitted line nor the left-over bytes contain a newline. */
  lemma {:induction false} SplitDelimited(s: seq<byte>)
    ensures Delimited(SplitLines(s))
    decreases |s|
  {
    if NEWLINE in s {
      var i := FirstIndex(s, NEWLINE);
      SplitDelimited(s[i + 1..]);
    }
  }

  /**
   * The two properties above determine the split: any way of writing `s` as
   * newline-free lines each followed by a newline, then newline-free bytes,
   * is the one `SplitLines` finds.
   */
  lemma {:induction false} SplitUnique(f: Framed, s: seq<byte>)
    requires Delimited(f) && Join(f.lines) + f.rest == s
    ensures SplitLines(s) == f
    decreases |f.lines|
  {
    if f.lines != [] {
      var l := f.lines[0];
      var g := Framed(f.lines[1..], f.rest);
      var tail := Join(g.lines) + g.rest;
      assert f.lines == [l] + g.lines;
      JoinCons(l, g.lines);
      Regroup(l, Join(g.lines), g.rest, s);
      CutAt(s, l, tail);
      assert Delimited(g) by {
        forall k | 0 <= k < |g.lines| ensures NEWLINE !in g.lines[k] {
          assert g.lines[k] == f.lines[k + 1];
        }
      }
      calc {
        SplitLines(s);
        Framed([l] + SplitLines(tail).lines, SplitLines(tail).rest);
        { SplitUnique(g, tail); }
        f;
      }
    }
  }

  lemma Regroup(l: seq<byte>, joined: seq<byte>, rest: seq<byte>, s: seq<byte>)
    requires l + [NEWLINE] + joined + rest == s
    ensures s == l + [NEWLINE] + (joined + rest)
  {
  }

  /** Where `split(b"\n", 1)` cuts a buffer made of a newline-free line, a newline and more bytes. */
  lemma CutAt(s: seq<byte>, l: seq<byte>, tail: seq<byte>)
    requires NEWLINE !in l && s == l + [NEWLINE] + tail
    ensures NEWLINE in s && FirstIndex(s, NEWLINE) == |l|
    ensures s[..|l|] == l && s[|l| + 1..] == tail
  {
    assert s[|l|] == NEWLINE;
    assert s[..|l|] == l;
    assert s[|l| + 1..] == tail;
  }

  /** One step of a framing loop: cutting the line before a newline out of the buffer. */
  lemma CutLine(done: seq<seq<byte>>, buf: seq<byte>, i: nat)
    requires i < |buf| && buf[i] == NEWLINE
    ensures Join(done + [buf[..i]]) + buf[i + 1..] == Join(done) + buf
  {
    JoinAppend(done, [buf[..i]]);
    assert Join([buf[..i]]) == buf[..i] + [NEWLINE] + Join([]);
    assert buf == buf[..i] + [NEWLINE] + buf[i + 1..];
  }

  /** Lines cut so far, none holding a newline. */
  predicate NewlineFree(lines: seq<seq<byte>>)
  {
    forall k :: 0 <= k < |lines| ==> NEWLINE !in lines[k]
  }

  /** Once no newline is left, the lines cut so far and the buffer are the split of the input. */
  lemma LoopExit(s: seq<byte>, lines: seq<seq<byte>>, buf: seq<byte>)
    requires NewlineFree(lines) && NEWLINE !in buf && Join(lines) + buf == s
    ensures SplitLines(s) == Framed(lines, buf)
  {
    SplitUnique(Framed(lines, buf), s);
  }

  /**
   * Lines already cut off the front come first in the split: a loop that
   * stops early leaves the rest of the split in its buffer.
   */
  lemma SplitJoin(lines: seq<seq<byte>>, rest: seq<byte>)
    requires NewlineFree(lines)
    ensures SplitLines(Join(lines) + rest) == Framed(lines + SplitLines(rest).lines, SplitLines(rest).rest)
  {
    var g := SplitLines(rest);
    var f := Framed(lines + g.lines, g.rest);
    assert Join(f.lines) + f.rest == Join(lines) + rest by {
      SplitConserves(rest);
      JoinAppend(lines, g.lines);
      assert Join(f.lines) + f.rest == Join(lines) + (Join(g.lines) + g.rest);
    }
    assert Delimited(f) by {
      SplitDelimited(rest);
      DelimitedAppend(Framed(lines, []), g);
    }
    SplitUnique(f, Join(lines) + rest);
  }

  lemma NewlineFreeAppend(a: seq<seq<byte>>, b: seq<seq<byte>>)
    requires NewlineFree(a) && NewlineFree(b)
    ensures NewlineFree(a + b)
  {
    forall k | 0 <= k < |a + b| ensures NEWLINE !in (a + b)[k] {
      if k < |a| { assert (a + b)[k] == a[k]; } else { assert (a + b)[k] == b[k - |a|]; }
    }
  }

  /** Where a framing loop that may stop early leaves off: its lines, then the split of what is left. */
  lemma FrameExit(s: seq<byte>, lines: seq<seq<byte>>, buf: seq<byte>)
    requires NewlineFree(lines) && Join(lines) + buf == s
    ensures SplitLines(s) == Framed(lines + SplitLines(buf).lines, SplitLines(buf).rest)
    ensures NEWLINE !in buf ==> SplitLines(s) == Framed(lines, buf)
  {
    SplitJoin(lines, buf);
    if NEWLINE !in buf {
      NoNewlineNoLines(buf);
      AppendNil(lines);
    }
  }

  /** A buffer without a newline splits into no lines. */
  lemma NoNewlineNoLines(s: seq<byte>)
    requires NEWLINE !in s
    ensures SplitLines(s) == Framed([], s)
  {
  }

  /**
   * Splitting `a + b` is splitting `a`, then splitting what `a` left over
   * followed by `b`: one step of the receive loop.
   */
  lemma {:induction false} SplitAppend(a: seq<byte>, b: seq<byte>)
    ensures var first := SplitLines(a);
            var second := SplitLines(first.rest + b);
            SplitLines(a + b) == Framed(first.lines + second.lines, second.rest)
  {
    var first := SplitLines(a);
    var second := SplitLines(first.rest + b);
    var f := Framed(first.lines + second.lines, second.rest);
    assert Delimited(f) by {
      SplitDelimited(a);
      SplitDelimited(first.rest + b);
      DelimitedAppend(first, second);
    }
    SplitConserves(a);
    SplitConserves(first.rest + b);
    ConservesAppend(a, b, first, second);
    SplitUnique(f, a + b);
  }

  lemma ConservesAppend(a: seq<byte>, b: seq<byte>, first: Framed, second: Framed)
    requires Join(first.lines) + first.rest == a
    requires Join(second.lines) + second.rest == first.rest + b
    ensures Join(first.lines + second.lines) + second.rest == a + b
  {
    JoinAppend(first.lines, second.lines);
    calc {
      Join(first.lines + second.lines) + second.rest;
      Join(first.lines) + Join(second.lines) + second.rest;
      Join(first.lines) + (Join(second.lines) + second.rest);
      Join(first.lines) + (first.rest + b);
      (Join(first.lines) + first.rest) + b;
    }
  }

  lemma DelimitedAppend(f: Framed, g: Framed)
    requires Delimited(f) && Delimited(g)
    ensures Delimited(Framed(f.lines + g.lines, g.rest))
  {
    var h := Framed(f.lines + g.lines, g.rest);
    forall k | 0 <= k < |h.lines| ensures NEWLINE !in h.lines[k] {
      if k < |f.lines| {
        assert h.lines[k] == f.lines[k];
      } else {
        assert h.lines[k] == g.lines[k - |f.lines|];
      }
    }
  }

  /** The bytes of a sequence of reads, in order. */
  function Concat(chunks: seq<seq<byte>>): seq<byte>
  {
    if chunks == [] then [] else chunks[0] + Concat(chunks[1..])
  }

  lemma {:induction false} ConcatAppend(a: seq<seq<byte>>, b: seq<seq<byte>>)
    ensures Concat(a + b) == Concat(a) + Concat(b)
  {
    if a == [] {
      AppendNil(b);
      AppendNil(Concat(b));
    } else {
      DropAppend(a, b);
      ConcatAppend(a[1..], b);
      AppendAssoc(a[0], Concat(a[1..]), Concat(b));
    }
  }

  /** The reads up to and including one more. */
  lemma ConcatStep(chunks: seq<seq<byte>>, used: nat)
    requires used < |chunks|
    ensures chunks[..used + 1][..used] == chunks[..used]
    ensures Concat(chunks[..used + 1]) == Concat(chunks[..used]) + chunks[used]
  {
    TakeOneMore(chunks, used);
    TakeAppend(chunks[..used], [chunks[used]]);
    ConcatAppend(chunks[..used], [chunks[used]]);
    AppendNil(chunks[used]);
  }

  /** The split of everything read so far, extended by the split of one more read. */
  lemma FrameStep(start: seq<byte>, chunks: seq<seq<byte>>, used: nat, seen: seq<seq<byte>>, before: seq<byte>,
                  lines: seq<seq<byte>>, after: seq<byte>)
    requires used < |chunks|
    requires SplitLines(start + Concat(chunks[..used])) == Framed(seen, before)
    requires SplitLines(before + chunks[used]) == Framed(lines, after)
    ensures SplitLines(start + Concat(chunks[..used + 1])) == Framed(seen + lines, after)
  {
    ConcatStep(chunks, used);
    AppendAssoc(start, Concat(chunks[..used]), chunks[used]);
    SplitAppend(start + Concat(chunks[..used]), chunks[used]);
  }

  /** Appending `chunks` one read at a time to a framer holding `buffer`. */
  function Feed(buffer: seq<byte>, chunks: seq<seq<byte>>): Framed
  {
    if chunks == [] then Framed([], buffer)
    else
      var before := Feed(buffer, chunks[..|chunks| - 1]);
      var step := SplitLines(before.rest + chunks[|chunks| - 1]);
      Framed(before.lines + step.lines, step.rest)
  }

  /** Feeding reads one at a time frames their concatenation as one read would. */
  lemma {:induction false} FeedIsSplit(buffer: seq<byte>, chunks: seq<seq<byte>>)
    requires NEWLINE !in buffer
    ensures Feed(buffer, chunks) == SplitLines(buffer + Concat(chunks))
  {
    if chunks == [] {
      assert buffer + Concat(chunks) == buffer;
    } else {
      var init := chunks[..|chunks| - 1];
      var last := chunks[|chunks| - 1];
      var a := buffer + Concat(init);
      calc {
        Feed(buffer, chunks);
        Framed(Feed(buffer, init).lines + SplitLines(Feed(buffer, init).rest + last).lines,
               SplitLines(Feed(buffer, init).rest + last).rest);
        { FeedIsSplit(buffer, init); }
        Framed(SplitLines(a).lines + SplitLines(SplitLines(a).rest + last).lines,
               SplitLines(SplitLines(a).rest + last).rest);
        { SplitAppend(a, last); }
        SplitLines(a + last);
        { ConcatStep(chunks, |chunks| - 1);
          TakeAll(chunks);
          AppendAssoc(buffer, Concat(init), last); }
        SplitLines(buffer + Concat(chunks));
      }
    }
  }

  /** Chunk-boundary independence: how the bytes were cut into reads does not matter. */
  lemma ChunkIndependence(buffer: seq<byte>, c1: seq<seq<byte>>, c2: seq<seq<byte>>)
    requires NEWLINE !in buffer
    requires Concat(c1) == Concat(c2)
    ensures Feed(buffer, c1) == Feed(buffer, c2)
  {
    FeedIsSplit(buffer, c1);
    FeedIsSplit(buffer, c2);
  }

  /**
   * A frame and its newline, delivered in any reads to an empty framer,
   * come out as exactly that one frame with nothing left over.
   */
  lemma OneFrameAnyChunking(frame: seq<byte>, chunks: seq<seq<byte>>)
    requires NEWLINE !in frame
    requires Concat(chunks) == frame + [NEWLINE]
    ensures Feed([], chunks) == Framed([frame], [])
  {
    FeedIsSplit([], chunks);
    var f := Framed([frame], []);
    assert Join(f.lines) == frame + [NEWLINE] + Join([]);
    assert [] + Concat(chunks) == Join(f.lines) + f.rest;
    SplitUnique(f, [] + Concat(chunks));
  }
}
