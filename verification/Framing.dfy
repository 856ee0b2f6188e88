/**
 How the live server cuts the bytes of a connection into request lines: a buffer,
 a loop over the reads, a loop over the newlines in the buffer, and two guards on
 size.  The reference is the whole stream split at its newlines at once.
 */
module Framing {

  import opened ByteStrings

  const NEWLINE: byte := 10
  const MAX_LINE_BYTES: nat := 1_048_576
  const READ_SIZE: nat := 65536

  /** What one connection gives rise to: a line for decoding, or a size error. */
  datatype Output = Frame(line: Bytes) | LineTooLarge | RequestTooLarge

  // ---------------------------------------------------------------- the stream at once

  /** The position of the first newline, or the length if there is none. */
  function FirstNewline(s: Bytes): (i: nat)
    ensures i <= |s| && (i < |s| ==> s[i] == NEWLINE)
    ensures forall k :: 0 <= k < i ==> s[k] != NEWLINE
  {
    if s == [] || s[0] == NEWLINE then 0 else FirstNewline(s[1..]) + 1
  }

  predicate HasNewline(s: Bytes) { FirstNewline(s) < |s| }

  /** The terminated lines of a stream, without their newlines. */
  function Lines(s: Bytes): seq<Bytes>
    decreases |s|
  {
    if !HasNewline(s) then []
    else var i := FirstNewline(s); [s[..i]] + Lines(s[i + 1..])
  }

  /** What follows the last newline. */
  function Tail(s: Bytes): (t: Bytes)
    ensures !HasNewline(t) && |t| <= |s|
    decreases |s|
  {
    if !HasNewline(s) then s else Tail(s[FirstNewline(s) + 1..])
  }

  function Unsplit(lines: seq<Bytes>, tail: Bytes): Bytes {
    if lines == [] then tail else lines[0] + [NEWLINE] + Unsplit(lines[1..], tail)
  }

  function Concat(chunks: seq<Bytes>): Bytes {
    if chunks == [] then [] else chunks[0] + Concat(chunks[1..])
  }

  function Frames(lines: seq<Bytes>): seq<Output> {
    seq(|lines|, i requires 0 <= i < |lines| => Frame(lines[i]))
  }

  predicate Short(line: Bytes) { |line| <= MAX_LINE_BYTES }

  predicate AllShort(lines: seq<Bytes>) {
    forall i :: 0 <= i < |lines| ==> Short(lines[i])
  }

  /** No line of the stream is too long, and neither is its unterminated end. */
  predicate WithinLimits(s: Bytes) { AllShort(Lines(s)) && Short(Tail(s)) }

  /** The lines before the first one that is too long. */
  function Leading(lines: seq<Bytes>): seq<Bytes> {
    if lines == [] || !Short(lines[0]) then [] else [lines[0]] + Leading(lines[1..])
  }

  // ---------------------------------------------------------------- the buffer, read by read

  datatype Drained = Drained(out: seq<Output>, rest: Bytes)

  /** The inner loop: every complete line of the buffer, until one is too long. */
  function Drain(buf: Bytes): Drained
    decreases |buf|
  {
    if !HasNewline(buf) then Drained([], buf)
    else
      var i := FirstNewline(buf);
      if !Short(buf[..i]) then Drained([LineTooLarge], [])
      else var d := Drain(buf[i + 1..]); Drained([Frame(buf[..i])] + d.out, d.rest)
  }

  /** `closed` says that the handler gave up the connection. */
  datatype Fed = Fed(out: seq<Output>, buf: Bytes, closed: bool)

  function Feed(buf: Bytes, chunk: Bytes): Fed {
    if chunk == [] then Fed([], buf, true)
    else if |buf + chunk| > MAX_LINE_BYTES && !HasNewline(buf + chunk) then Fed([RequestTooLarge], buf + chunk, true)
    else var d := Drain(buf + chunk); Fed(d.out, d.rest, false)
  }

  function FeedAll(buf: Bytes, chunks: seq<Bytes>): Fed
    decreases |chunks|
  {
    if chunks == [] then Fed([], buf, false)
    else
      var first := Feed(buf, chunks[0]);
      if first.closed then first
      else After(first.out, FeedAll(first.buf, chunks[1..]))
  }

  /**
   _handle_client.  A read that times out or fails, or a stop request, ends the
   sequence of reads; an empty read is the peer closing the connection.  What is
   done with a frame depends on the frame alone.
   */
  method HandleClient(received: seq<Bytes>) returns (out: seq<Output>, buf: Bytes, closed: bool)
    ensures Fed(out, buf, closed) == FeedAll([], received)
  {
    out, buf, closed := [], [], false;
    var i := 0;
    assert received[0..] == received;
    while i < |received|
      invariant i <= |received| && !closed
      invariant FeedAll([], received) == After(out, FeedAll(buf, received[i..]))
    {
      hide Drain, FirstNewline;
      var chunk := received[i];
      ghost var bufBefore := buf;
      assert received[i..][0] == chunk && received[i..][1..] == received[i + 1..];
      if chunk == [] {
        closed := true;
        return;
      }
      buf := buf + chunk;
      if |buf| > MAX_LINE_BYTES && !HasNewline(buf) {
        out := out + [RequestTooLarge];
        closed := true;
        return;
      }
      var got, rest := TakeLines(buf);
      i := i + 1;
      assert Feed(bufBefore, chunk) == Fed(got, rest, false);
      AfterTwice(out, got, FeedAll(rest, received[i..]));
      out, buf := out + got, rest;
    }
  }

  /** Its inner loop. */
  method TakeLines(whole: Bytes) returns (out: seq<Output>, buf: Bytes)
    ensures Drained(out, buf) == Drain(whole)
  {
    out, buf := [], whole;
    while HasNewline(buf)
      invariant Drain(whole) == Drained(out + Drain(buf).out, Drain(buf).rest)
      decreases |buf|
    {
      var at := FirstNewline(buf);
      var line := buf[..at];
      ghost var left := Drain(buf).out;
      buf := buf[at + 1..];
      if |line| > MAX_LINE_BYTES {
        out := out + [LineTooLarge];
        buf := [];
        break;
      }
      assert out + left == (out + [Frame(line)]) + Drain(buf).out;
      out := out + [Frame(line)];
    }
  }

  /** What was put out before comes first. */
  function After(out: seq<Output>, r: Fed): Fed { Fed(out + r.out, r.buf, r.closed) }

  lemma AfterTwice(a: seq<Output>, b: seq<Output>, r: Fed)
    ensures After(a, After(b, r)) == After(a + b, r)
  {
    assert a + (b + r.out) == (a + b) + r.out;
  }

  // ---------------------------------------------------------------- splitting

  lemma FirstNewlineIs(s: Bytes, i: nat)
    requires i < |s| && s[i] == NEWLINE && forall k :: 0 <= k < i ==> s[k] != NEWLINE
    ensures FirstNewline(s) == i
  {
  }

  /** Splitting loses nothing. */
  lemma {:induction false} UnsplitLines(s: Bytes)
    ensures Unsplit(Lines(s), Tail(s)) == s
    decreases |s|
  {
    if HasNewline(s) {
      var i := FirstNewline(s);
      var rest := s[i + 1..];
      UnsplitLines(rest);
      UnsplitCons(s[..i], Lines(rest), Tail(rest));
      assert s == s[..i] + [NEWLINE] + rest;
      hide Unsplit;
    }
  }

  lemma UnsplitCons(line: Bytes, lines: seq<Bytes>, tail: Bytes)
    ensures Unsplit([line] + lines, tail) == line + [NEWLINE] + Unsplit(lines, tail)
  {
    assert ([line] + lines)[1..] == lines;
  }

  /** And it invents nothing: newline-free lines and tail come back as they went in. */
  lemma {:induction false} LinesUnsplit(lines: seq<Bytes>, tail: Bytes)
    requires !HasNewline(tail) && forall i :: 0 <= i < |lines| ==> !HasNewline(lines[i])
    ensures Lines(Unsplit(lines, tail)) == lines && Tail(Unsplit(lines, tail)) == tail
  {
    if lines != [] {
      var rest := Unsplit(lines[1..], tail);
      var s := Unsplit(lines, tail);
      LinesUnsplit(lines[1..], tail);
      assert s[..|lines[0]|] == lines[0] && s[|lines[0]|] == NEWLINE;
      FirstNewlineIs(s, |lines[0]|);
      assert s[|lines[0]| + 1..] == rest;
    }
  }

  /** One step of the splitting, and of the inner loop. */
  lemma FirstLine(line: Bytes, rest: Bytes)
    requires !HasNewline(line)
    ensures var s := line + [NEWLINE] + rest;
      && HasNewline(s)
      && Lines(s) == [line] + Lines(rest)
      && Tail(s) == Tail(rest)
      && Drain(s) == if !Short(line) then Drained([LineTooLarge], [])
                     else Drained([Frame(line)] + Drain(rest).out, Drain(rest).rest)
  {
    var s := line + [NEWLINE] + rest;
    FirstNewlineIs(s, |line|);
    assert s[..|line|] == line && s[|line| + 1..] == rest;
  }

  /** A stream that goes on: what was complete stays, the tail is continued. */
  lemma {:induction false} LinesAppend(a: Bytes, b: Bytes)
    ensures Lines(a + b) == Lines(a) + Lines(Tail(a) + b)
    ensures Tail(a + b) == Tail(Tail(a) + b)
    decreases |a|
  {
    if HasNewline(a) {
      var i := FirstNewline(a);
      var line, rest := a[..i], a[i + 1..];
      hide Lines, Tail, Drain, FirstNewline;
      assert a == line + [NEWLINE] + rest;
      assert a + b == line + [NEWLINE] + (rest + b);
      FirstLine(line, rest);
      FirstLine(line, rest + b);
      LinesAppend(rest, b);
      Reassociate([line], Lines(rest), Lines(Tail(rest) + b));
    } else {
      assert Lines(a) == [] && Tail(a) == a;
    }
  }

  lemma Reassociate<T>(a: seq<T>, b: seq<T>, c: seq<T>)
    ensures a + (b + c) == (a + b) + c
  {
  }

  /** A newline-free start is part of the first line, or of the tail. */
  lemma LongStart(a: Bytes, b: Bytes)
    requires !HasNewline(a) && !Short(a)
    ensures !WithinLimits(a + b) && Leading(Lines(a + b)) == []
  {
    var s := a + b;
    if HasNewline(s) {
      var i := FirstNewline(s);
      assert forall k :: 0 <= k < |a| ==> s[k] == a[k];
      assert |a| <= i && Lines(s)[0] == s[..i];
    }
  }

  lemma {:induction false} LeadingAppend(a: seq<Bytes>, b: seq<Bytes>)
    ensures Leading(a + b) == if AllShort(a) then a + Leading(b) else Leading(a)
  {
    if a == [] {
      assert a + b == b;
      assert a + Leading(b) == Leading(b);
    } else {
      var first, rest := a[0], a[1..];
      hide Leading, AllShort, Short;
      assert a == [first] + rest;
      Reassociate([first], rest, b);
      Reassociate([first], rest, Leading(b));
      LeadingAppend(rest, b);
      LeadingCons(first, rest + b);
      LeadingCons(first, rest);
      ShortCons(first, rest);
    }
  }

  lemma FramesAppend(a: seq<Bytes>, b: seq<Bytes>)
    ensures Frames(a + b) == Frames(a) + Frames(b)
  {
  }

  /** The inner loop yields the lines of the buffer and its tail, or stops at the first long line. */
  lemma {:induction false} DrainMeaning(buf: Bytes)
    ensures var d := Drain(buf);
      if AllShort(Lines(buf)) then d == Drained(Frames(Lines(buf)), Tail(buf))
      else d == Drained(Frames(Leading(Lines(buf))) + [LineTooLarge], [])
    decreases |buf|
  {
    if HasNewline(buf) {
      var i := FirstNewline(buf);
      var line, rest := buf[..i], buf[i + 1..];
      hide Lines, Tail, Drain, FirstNewline, Frames, AllShort;
      assert buf == line + [NEWLINE] + rest;
      FirstLine(line, rest);
      DrainMeaning(rest);
      LeadingCons(line, Lines(rest));
      FramesCons(line, Lines(rest));
      FramesCons(line, Leading(Lines(rest)));
      ShortCons(line, Lines(rest));
      Reassociate([Frame(line)], Frames(Leading(Lines(rest))), [LineTooLarge]);
    } else {
      assert Frames(Lines(buf)) == [];
    }
  }

  lemma LeadingCons(line: Bytes, lines: seq<Bytes>)
    ensures Leading([line] + lines) == if Short(line) then [line] + Leading(lines) else []
  {
    assert ([line] + lines)[1..] == lines;
  }

  lemma FramesCons(line: Bytes, lines: seq<Bytes>)
    ensures Frames([line] + lines) == [Frame(line)] + Frames(lines) && Frames([]) == []
  {
  }

  lemma ShortCons(line: Bytes, lines: seq<Bytes>)
    ensures AllShort([line] + lines) <==> Short(line) && AllShort(lines)
  {
    var all := [line] + lines;
    assert all[0] == line;
    assert forall i :: 0 <= i < |lines| ==> lines[i] == all[i + 1];
  }

  // ---------------------------------------------------------------- chunks

  /** Non-empty reads of the size that the handler asks for. */
  predicate Chunks(chunks: seq<Bytes>) {
    forall i :: 0 <= i < |chunks| ==> 0 < |chunks[i]| <= READ_SIZE
  }

  /** The numbers: an LF ends a line, a read asks for 64 KiB, a line may have a MiB. */
  lemma LimitsExactly(s: Bytes, chunks: seq<Bytes>)
    ensures HasNewline(s) <==> 10 in s
    ensures Chunks(chunks) <==> forall chunk :: chunk in chunks ==> 1 <= |chunk| <= 65536
    ensures WithinLimits(s) <==> |Tail(s)| <= 1_048_576 && forall line :: line in Lines(s) ==> |line| <= 1_048_576
  {
    if HasNewline(s) {
      assert s[FirstNewline(s)] == 10;
    }
    assert forall line :: line in Lines(s) ==> exists i :: 0 <= i < |Lines(s)| && Lines(s)[i] == line;
  }

  /** The buffer that the handler keeps between two reads. */
  predicate BetweenReads(buf: Bytes) { !HasNewline(buf) && Short(buf) }

  /** The outputs start with the frames of `lines`, followed by an error. */
  predicate FailsAfter(out: seq<Output>, lines: seq<Bytes>) {
    && |lines| < |out|
    && out[..|lines|] == Frames(lines)
    && !out[|lines|].Frame?
  }

  /** What the handler makes of a stream, however it is cut. */
  predicate FramedAs(r: Fed, s: Bytes) {
    if WithinLimits(s) then r == Fed(Frames(Lines(s)), Tail(s), false)
    else FailsAfter(r.out, Leading(Lines(s)))
  }

  lemma AfterDrain(buf: Bytes, chunk: Bytes)
    requires BetweenReads(buf) && 0 < |chunk| <= READ_SIZE
    requires HasNewline(buf + chunk) || Short(buf + chunk)
    ensures BetweenReads(Drain(buf + chunk).rest)
  {
    var all := buf + chunk;
    DrainMeaning(all);
    if HasNewline(all) {
      var i := FirstNewline(all);
      assert forall k :: 0 <= k < |buf| ==> all[k] == buf[k];
      assert |buf| <= i;
      assert |Tail(all)| <= |all[i + 1..]| < |chunk|;
    }
  }

  /** Memory: between reads the buffer holds no newline and at most the limit, on every stream. */
  lemma {:induction false} BufferIsBounded(buf: Bytes, chunks: seq<Bytes>)
    requires BetweenReads(buf) && Chunks(chunks)
    ensures var r := FeedAll(buf, chunks);
      && (!r.closed ==> BetweenReads(r.buf))
      && |r.buf| <= MAX_LINE_BYTES + READ_SIZE
    decreases |chunks|
  {
    if chunks != [] {
      var first := Feed(buf, chunks[0]);
      if !first.closed {
        AfterDrain(buf, chunks[0]);
        BufferIsBounded(first.buf, chunks[1..]);
      }
    }
  }

  lemma FeedAllStep(buf: Bytes, chunks: seq<Bytes>)
    requires chunks != [] && chunks[0] != []
    requires HasNewline(buf + chunks[0]) || Short(buf + chunks[0])
    ensures var d := Drain(buf + chunks[0]);
      FeedAll(buf, chunks) == After(d.out, FeedAll(d.rest, chunks[1..]))
  {
  }

  lemma {:induction false} FramingFrom(buf: Bytes, chunks: seq<Bytes>)
    requires BetweenReads(buf) && Chunks(chunks)
    ensures FramedAs(FeedAll(buf, chunks), buf + Concat(chunks))
    decreases |chunks|
  {
    if chunks == [] {
      assert buf + Concat(chunks) == buf;
      assert Frames([]) == [];
    } else {
      var chunk, more := chunks[0], Concat(chunks[1..]);
      var all := buf + chunk;
      Reassociate(buf, chunk, more);
      if !HasNewline(all) && !Short(all) {
        assert FeedAll(buf, chunks).out == [RequestTooLarge];
        hide FeedAll, Drain, FirstNewline, Lines, Tail;
        LongStart(all, more);
      } else {
        hide FeedAll, Drain, FirstNewline, Lines, Tail, Leading, FramedAs, AllShort;
        FeedAllStep(buf, chunks);
        DrainMeaning(all);
        LinesAppend(all, more);
        LeadingAppend(Lines(all), Lines(Tail(all) + more));
        if AllShort(Lines(all)) {
          AfterDrain(buf, chunk);
          FramingFrom(Tail(all), chunks[1..]);
          Continue(Lines(all), FeedAll(Tail(all), chunks[1..]), Tail(all) + more, all + more);
        } else {
          LongLineStays(Lines(all), Lines(Tail(all) + more));
          LongLineFails(Lines(all), FeedAll([], chunks[1..]), all + more);
        }
      }
    }
  }

  /** A long line in the buffer: its leading lines go out, then the error. */
  lemma LongLineFails(lines: seq<Bytes>, rest: Fed, whole: Bytes)
    requires !AllShort(Lines(whole)) && Leading(Lines(whole)) == Leading(lines)
    ensures FramedAs(After(Frames(Leading(lines)) + [LineTooLarge], rest), whole)
  {
  }

  lemma LongLineStays(a: seq<Bytes>, b: seq<Bytes>)
    requires !AllShort(a)
    ensures !AllShort(a + b)
  {
    var i :| 0 <= i < |a| && !Short(a[i]);
    assert (a + b)[i] == a[i];
  }

  lemma Continue(lines: seq<Bytes>, rest: Fed, suffix: Bytes, whole: Bytes)
    requires AllShort(lines) && FramedAs(rest, suffix)
    requires Lines(whole) == lines + Lines(suffix) && Tail(whole) == Tail(suffix)
    requires Leading(Lines(whole)) == lines + Leading(Lines(suffix))
    ensures FramedAs(After(Frames(lines), rest), whole)
  {
    FramesAppend(lines, Lines(suffix));
    FramesAppend(lines, Leading(Lines(suffix)));
    assert WithinLimits(whole) <==> WithinLimits(suffix) by {
      assert forall i :: 0 <= i < |Lines(suffix)| ==> Lines(suffix)[i] == Lines(whole)[|lines| + i];
    }
    if !WithinLimits(whole) {
      var n := |Leading(Lines(suffix))|;
      assert (Frames(lines) + rest.out)[..|lines| + n] == Frames(lines) + rest.out[..n];
    }
  }

  /**
   A connection is framed without an error exactly when every line of its stream
   and its tail are within the limit; the lines dispatched are then those of the
   stream and the buffer is its tail.  Otherwise the lines before the first long
   one are dispatched and an error follows.  None of this depends on the chunks.
   */
  lemma FramingMeaning(chunks: seq<Bytes>)
    requires Chunks(chunks)
    ensures FramedAs(FeedAll([], chunks), Concat(chunks))
    ensures WithinLimits(Concat(chunks)) <==>
      forall i :: 0 <= i < |FeedAll([], chunks).out| ==> FeedAll([], chunks).out[i].Frame?
  {
    FramingFrom([], chunks);
    assert [] + Concat(chunks) == Concat(chunks);
    var r, s := FeedAll([], chunks), Concat(chunks);
    hide Lines, Tail, Leading, FeedAll;
    if WithinLimits(s) {
      assert r.out == Frames(Lines(s));
    } else {
      assert !r.out[|Leading(Lines(s))|].Frame?;
    }
  }

  lemma ChunkIndependent(chunks: seq<Bytes>, others: seq<Bytes>)
    requires Chunks(chunks) && Chunks(others) && Concat(chunks) == Concat(others)
    requires WithinLimits(Concat(chunks))
    ensures FeedAll([], chunks) == FeedAll([], others)
  {
    FramingMeaning(chunks);
    FramingMeaning(others);
  }

  // ---------------------------------------------------------------- the end of a connection

  lemma {:induction false} FeedAllAppend(buf: Bytes, chunks: seq<Bytes>, more: seq<Bytes>)
    requires !FeedAll(buf, chunks).closed
    ensures FeedAll(buf, chunks + more) ==
      var r := FeedAll(buf, chunks); After(r.out, FeedAll(r.buf, more))
    decreases |chunks|
  {
    if chunks == [] {
      assert chunks + more == more;
    } else {
      assert (chunks + more)[1..] == chunks[1..] + more;
      FeedAllAppend(Feed(buf, chunks[0]).buf, chunks[1..], more);
    }
  }

  lemma {:induction false} NothingAfterClose(buf: Bytes, chunks: seq<Bytes>, more: seq<Bytes>)
    requires FeedAll(buf, chunks).closed
    ensures FeedAll(buf, chunks + more) == FeedAll(buf, chunks)
    decreases |chunks|
  {
    assert (chunks + more)[1..] == chunks[1..] + more;
    var first := Feed(buf, chunks[0]);
    if !first.closed {
      NothingAfterClose(first.buf, chunks[1..], more);
    }
  }

  /**
   The peer closing the connection, an empty read, puts out nothing and ends the
   handling: what was dispatched is what the reads before it gave, and a half-sent
   line stays in the buffer.
   */
  lemma ClosingPutsOutNothing(chunks: seq<Bytes>, more: seq<Bytes>)
    ensures var r := FeedAll([], chunks + ([[]] + more));
      && r.closed
      && r.out == FeedAll([], chunks).out
      && r.buf == FeedAll([], chunks).buf
  {
    if FeedAll([], chunks).closed {
      NothingAfterClose([], chunks, [[]] + more);
    } else {
      FeedAllAppend([], chunks, [[]] + more);
      assert ([[]] + more)[0] == [];
    }
  }

  /** A closed connection within the limits has dispatched its complete lines, and never its tail. */
  lemma ClosedStreamDispatchesItsLines(chunks: seq<Bytes>, more: seq<Bytes>)
    requires Chunks(chunks) && WithinLimits(Concat(chunks))
    ensures FeedAll([], chunks + ([[]] + more)) == Fed(Frames(Lines(Concat(chunks))), Tail(Concat(chunks)), true)
  {
    ClosingPutsOutNothing(chunks, more);
    FramingMeaning(chunks);
  }

  /** A request that is too large ends the handling too. */
  lemma TooLargeCloses(buf: Bytes, chunk: Bytes, more: seq<Bytes>)
    requires !HasNewline(buf + chunk) && |buf + chunk| > MAX_LINE_BYTES && chunk != []
    ensures FeedAll(buf, [chunk] + more) == Fed([RequestTooLarge], buf + chunk, true)
  {
  }

  // ---------------------------------------------------------------- oversize streams

  /** The first line that is too long, if there is one, cannot end within the read that crosses the limit. */
  predicate Determined(s: Bytes) {
    var n := |Leading(Lines(s))|;
    n < |Lines(s)| ==> |Lines(s)[n]| >= MAX_LINE_BYTES + READ_SIZE
  }

  /** What is put out for such a stream, however it is cut. */
  function Outputs(s: Bytes): seq<Output> {
    Frames(Leading(Lines(s))) + if WithinLimits(s) then [] else [RequestTooLarge]
  }

  /** The leading lines are short, and stop only at a long line. */
  lemma {:induction false} LeadingMeaning(lines: seq<Bytes>)
    ensures Leading(lines) <= lines && AllShort(Leading(lines))
    ensures |Leading(lines)| < |lines| ==> !Short(lines[|Leading(lines)|])
    ensures AllShort(lines) <==> |Leading(lines)| == |lines|
  {
    if lines != [] {
      LeadingMeaning(lines[1..]);
      assert lines == [lines[0]] + lines[1..];
      ShortCons(lines[0], lines[1..]);
      if Short(lines[0]) {
        ShortCons(lines[0], Leading(lines[1..]));
      }
    }
  }

  /** A complete line is shorter than the stream that holds it. */
  lemma {:induction false} LinesAreShorter(s: Bytes, k: nat)
    requires k < |Lines(s)|
    ensures |Lines(s)[k]| < |s|
    decreases |s|
  {
    var i := FirstNewline(s);
    if k > 0 {
      LinesAreShorter(s[i + 1..], k - 1);
    }
  }

  /** In a determined stream no line completed by a read is too long. */
  lemma ReadCompletesShortLines(buf: Bytes, chunk: Bytes, more: Bytes)
    requires Short(buf) && |chunk| <= READ_SIZE && Determined(buf + chunk + more)
    ensures AllShort(Lines(buf + chunk))
  {
    var all := buf + chunk;
    hide Lines, Tail, Leading, AllShort;
    LinesAppend(all, more);
    var later := Lines(Tail(all) + more);
    LeadingMeaning(Lines(all));
    if !AllShort(Lines(all)) {
      LeadingAppend(Lines(all), later);
      LinesAreShorter(all, |Leading(Lines(all))|);
    }
  }

  /** Nor is what follows any less determined. */
  lemma DeterminedRest(lines: seq<Bytes>, whole: Bytes, rest: Bytes)
    requires Lines(whole) == lines + Lines(rest) && Tail(whole) == Tail(rest) && AllShort(lines)
    ensures Determined(whole) <==> Determined(rest)
    ensures Outputs(whole) == Frames(lines) + Outputs(rest)
  {
    hide Lines, Tail;
    LeadingAppend(lines, Lines(rest));
    FramesAppend(lines, Leading(Lines(rest)));
    assert AllShort(Lines(whole)) <==> AllShort(Lines(rest)) by {
      assert forall i :: 0 <= i < |Lines(rest)| ==> Lines(rest)[i] == Lines(whole)[|lines| + i];
    }
    Reassociate(Frames(lines), Frames(Leading(Lines(rest))), if WithinLimits(rest) then [] else [RequestTooLarge]);
  }

  lemma {:induction false} DeterminedOutputs(buf: Bytes, chunks: seq<Bytes>)
    requires BetweenReads(buf) && Chunks(chunks) && Determined(buf + Concat(chunks))
    ensures FeedAll(buf, chunks).out == Outputs(buf + Concat(chunks))
    decreases |chunks|
  {
    if chunks == [] {
      assert buf + Concat(chunks) == buf;
      assert Frames([]) == [] && Outputs(buf) == [];
    } else {
      var chunk, more := chunks[0], Concat(chunks[1..]);
      var all := buf + chunk;
      Reassociate(buf, chunk, more);
      if !HasNewline(all) && !Short(all) {
        LongStart(all, more);
        assert Frames([]) == [];
      } else {
        hide FeedAll, Drain, FirstNewline, Lines, Tail, Leading, AllShort, Determined, Outputs;
        FeedAllStep(buf, chunks);
        ReadCompletesShortLines(buf, chunk, more);
        DrainMeaning(all);
        LinesAppend(all, more);
        AfterDrain(buf, chunk);
        DeterminedRest(Lines(all), all + more, Tail(all) + more);
        DeterminedOutputs(Tail(all), chunks[1..]);
      }
    }
  }

  /** One byte a read. */
  function Bytewise(s: Bytes): (chunks: seq<Bytes>)
    ensures Chunks(chunks) && Concat(chunks) == s
  {
    if s == [] then [] else
      assert ([s[..1]] + Bytewise(s[1..]))[1..] == Bytewise(s[1..]);
      [s[..1]] + Bytewise(s[1..])
  }

  /** What lies before, in and after the first long line. */
  predicate SplitsAt(s: Bytes, before: Bytes, line: Bytes, after: Bytes) {
    && s == before + (line + [NEWLINE] + after)
    && Lines(before) == Leading(Lines(s)) && Tail(before) == []
    && !HasNewline(line) && !Short(line)
    && |Leading(Lines(s))| < |Lines(s)| && |line| == |Lines(s)[|Leading(Lines(s))|]|
  }

  lemma SplitsHere(line: Bytes, after: Bytes)
    requires !HasNewline(line) && !Short(line)
    ensures SplitsAt(line + [NEWLINE] + after, [], line, after)
  {
    var s := line + [NEWLINE] + after;
    FirstLine(line, after);
    LeadingCons(line, Lines(after));
    hide Drain, FirstNewline;
    assert Lines([]) == [] && Tail([]) == [];
    hide Lines, Tail, Leading;
    assert [] + s == s;
  }

  lemma SplitsLater(first: Bytes, rest: Bytes, before: Bytes, line: Bytes, after: Bytes)
    requires !HasNewline(first) && Short(first) && SplitsAt(rest, before, line, after)
    ensures SplitsAt(first + [NEWLINE] + rest, first + [NEWLINE] + before, line, after)
  {
    hide Lines, Tail, Leading, Drain, FirstNewline;
    FirstLine(first, rest);
    FirstLine(first, before);
    LeadingCons(first, Lines(rest));
    Reassociate(first + [NEWLINE], before, line + [NEWLINE] + after);
  }

  /** Where the first long line stands. */
  lemma {:induction false} BeforeFirstLong(s: Bytes) returns (before: Bytes, line: Bytes, after: Bytes)
    requires |Leading(Lines(s))| < |Lines(s)|
    ensures SplitsAt(s, before, line, after)
    decreases |s|
  {
    var i := FirstNewline(s);
    var first, rest := s[..i], s[i + 1..];
    hide Lines, Tail, FirstNewline, Drain, Leading, SplitsAt;
    assert s == first + [NEWLINE] + rest;
    if !Short(first) {
      SplitsHere(first, rest);
      return [], first, rest;
    }
    FirstLine(first, rest);
    LeadingCons(first, Lines(rest));
    before, line, after := BeforeFirstLong(rest);
    SplitsLater(first, rest, before, line, after);
    before := first + [NEWLINE] + before;
  }

  lemma {:induction false} ConcatAppend(chunks: seq<Bytes>, more: seq<Bytes>)
    ensures Concat(chunks + more) == Concat(chunks) + Concat(more)
  {
    if chunks == [] {
      assert chunks + more == more;
    } else {
      assert (chunks + more)[1..] == chunks[1..] + more;
      ConcatAppend(chunks[1..], more);
    }
  }

  /** The cutting that reads s byte by byte, then `chunk`, then the rest byte by byte. */
  function CutAt(s: Bytes, chunk: Bytes, rest: Bytes): seq<Bytes> {
    Bytewise(s) + ([chunk] + Bytewise(rest))
  }

  /** Up to the limit nothing goes wrong; what the next read brings decides. */
  lemma CutAtOutputs(before: Bytes, start: Bytes, chunk: Bytes, rest: Bytes)
    requires Tail(before) == [] && AllShort(Lines(before)) && !HasNewline(start) && Short(start)
    requires 0 < |chunk| <= READ_SIZE
    ensures Chunks(CutAt(before + start, chunk, rest))
    ensures Concat(CutAt(before + start, chunk, rest)) == (before + start) + (chunk + rest)
    ensures Feed(start, chunk).out != [] ==>
      var out := FeedAll([], CutAt(before + start, chunk, rest)).out;
      |Lines(before)| < |out| && out[|Lines(before)|] == Feed(start, chunk).out[0]
  {
    var s := before + start;
    var chunks, more := Bytewise(s), [chunk] + Bytewise(rest);
    LinesAppend(before, start);
    assert [] + start == start;
    assert Lines(start) == [] && Tail(start) == start;
    FramingMeaning(chunks);
    assert Lines(before) + [] == Lines(before);
    FeedAllAppend([], chunks, more);
    ConcatAppend(chunks, more);
    assert more[1..] == Bytewise(rest) && more[0] == chunk;
  }

  /** A cutting of s that puts this out right after the lines before the first long one. */
  predicate Reports(chunks: seq<Bytes>, s: Bytes, output: Output) {
    && Chunks(chunks) && Concat(chunks) == s
    && var n := |Leading(Lines(s))|;
    && n < |FeedAll([], chunks).out| && FeedAll([], chunks).out[n] == output
  }

  /** Where the cutting matters: one cutting reports the request, the other the line. */
  lemma OversizeDependsOnChunks(s: Bytes) returns (chunks: seq<Bytes>, others: seq<Bytes>)
    requires !Determined(s)
    ensures Reports(chunks, s, RequestTooLarge) && Reports(others, s, LineTooLarge)
  {
    LeadingMeaning(Lines(s));
    hide Lines, Tail, Leading, FeedAll, Feed, CutAt, AllShort, HasNewline, Concat, Chunks;
    var before, line, after := BeforeFirstLong(s);
    var start, end := line[..MAX_LINE_BYTES], line[MAX_LINE_BYTES..] + [NEWLINE];
    var one := line[MAX_LINE_BYTES..MAX_LINE_BYTES + 1];
    var rest := line[MAX_LINE_BYTES + 1..] + [NEWLINE] + after;
    LongLineReads(line);
    chunks, others := CutAt(before + start, one, rest), CutAt(before + start, end, after);
    CutAtOutputs(before, start, one, rest);
    CutAtOutputs(before, start, end, after);
    SameStream(before, line, after);
  }

  lemma SameStream(before: Bytes, line: Bytes, after: Bytes)
    requires !Short(line)
    ensures var start, whole := line[..MAX_LINE_BYTES], before + (line + [NEWLINE] + after);
      && (before + start) + ((line[MAX_LINE_BYTES..] + [NEWLINE]) + after) == whole
      && (before + start)
         + (line[MAX_LINE_BYTES..MAX_LINE_BYTES + 1] + (line[MAX_LINE_BYTES + 1..] + [NEWLINE] + after)) == whole
  {
  }

  /** A long line read up to the limit: one more byte, or all the rest of it at once. */
  lemma LongLineReads(line: Bytes)
    requires !HasNewline(line) && !Short(line)
    ensures var start := line[..MAX_LINE_BYTES];
      && !HasNewline(start)
      && Feed(start, line[MAX_LINE_BYTES..MAX_LINE_BYTES + 1]).out == [RequestTooLarge]
      && Feed(start, line[MAX_LINE_BYTES..] + [NEWLINE]).out == [LineTooLarge]
  {
    var start, end := line[..MAX_LINE_BYTES], line[MAX_LINE_BYTES..] + [NEWLINE];
    var one := line[MAX_LINE_BYTES..MAX_LINE_BYTES + 1];
    assert forall k :: 0 <= k < |line| ==> line[k] != NEWLINE;
    assert start + one == line[..MAX_LINE_BYTES + 1];
    assert start + end == line + [NEWLINE] + [];
    FirstLine(line, []);
  }

  /**
   Every cutting of a stream puts out the same exactly when the stream's first
   long line, if it has one, is at least MAX_LINE_BYTES + READ_SIZE bytes long:
   no long line at all, a long unterminated tail, or a line so long that no read
   can both cross the limit and end it.
   */
  lemma ChunkIndependentExactly(s: Bytes)
    ensures Determined(s) <==>
      forall chunks: seq<Bytes>, others: seq<Bytes> ::
        Chunks(chunks) && Chunks(others) && Concat(chunks) == s && Concat(others) == s ==>
          FeedAll([], chunks).out == FeedAll([], others).out
  {
    if Determined(s) {
      forall chunks: seq<Bytes> | Chunks(chunks) && Concat(chunks) == s
        ensures FeedAll([], chunks).out == Outputs(s)
      {
        assert [] + s == s;
        DeterminedOutputs([], chunks);
      }
    } else {
      var chunks, others := OversizeDependsOnChunks(s);
    }
  }
}
