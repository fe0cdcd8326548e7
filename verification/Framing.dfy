/**
 Newline-delimited frames. `ReadFrame` is the loop over whatever chunks the
 reader happens to deliver; `NextFrame` cuts the whole stream at its first
 newline, and is what every delivery amounts to.
 */
module Framing {
  import opened Utf8
  import opened Wrappers

  const NEWLINE: Byte := 10

  /** The longest frame, its newline included: 16 MiB. */
  const MAX_FRAME := 16 * 1024 * 1024

  datatype FrameResult =
    | Frame(content: Bytes)
    | EndOfInput
    | Oversized

  /** Where the first line of a stream ends. */
  function LineLength(stream: Bytes): (n: nat)
    ensures n <= |stream| && NEWLINE !in stream[..n]
    ensures n < |stream| ==> stream[n] == NEWLINE
  {
    if stream == [] || stream[0] == NEWLINE then 0
    else
      var n := LineLength(stream[1..]);
      assert stream[..n + 1] == [stream[0]] + stream[1..][..n];
      n + 1
  }

  /** The frame at the front of a whole stream, and the stream after it. */
  function NextFrame(stream: Bytes): (FrameResult, Bytes) {
    var n := LineLength(stream);
    if stream == [] then (EndOfInput, [])
    else if n >= MAX_FRAME then (Oversized, stream)
    else if n == |stream| then (Frame(stream), [])
    else (Frame(stream[..n]), stream[n + 1..])
  }

  /** A buffered reader: `schedule` fixes how much each fill delivers, in any way at all. */
  class Reader {
    var rest: Bytes
    var schedule: seq<nat>

    constructor (stream: Bytes, schedule: seq<nat>)
      ensures rest == stream && this.schedule == schedule
    {
      this.rest, this.schedule := stream, schedule;
    }

    /** Some nonempty front of what is left; empty only at the end of input. */
    method FillBuf() returns (available: Bytes)
      modifies this`schedule
      ensures available <= rest
      ensures available == [] <==> rest == []
    {
      var n := |rest|;
      if schedule != [] {
        n := if 0 < schedule[0] < |rest| then schedule[0] else |rest|;
        schedule := schedule[1..];
      }
      available := rest[..n];
    }

    method Consume(n: nat)
      requires n <= |rest|
      modifies this`rest
      ensures rest == old(rest)[n..]
    {
      rest := rest[n..];
    }
  }

  method Position(bytes: Bytes) returns (n: nat)
    ensures n == LineLength(bytes)
  {
    n := 0;
    while n < |bytes| && bytes[n] != NEWLINE
      invariant n <= |bytes|
      invariant LineLength(bytes) == n + LineLength(bytes[n..])
    {
      assert bytes[n..][1..] == bytes[n + 1..];
      n := n + 1;
    }
  }

  lemma {:induction false} LineLengthAfter(front: Bytes, tail: Bytes)
    requires NEWLINE !in front
    ensures LineLength(front + tail) == |front| + LineLength(tail)
  {
    if front == [] {
      assert front + tail == tail;
    } else {
      assert (front + tail)[1..] == front[1..] + tail;
      LineLengthAfter(front[1..], tail);
    }
  }

  lemma LineLengthIs(stream: Bytes, n: nat)
    requires n <= |stream| && forall k | 0 <= k < n :: stream[k] != NEWLINE
    ensures LineLength(stream) >= n
    ensures n < |stream| && stream[n] == NEWLINE ==> LineLength(stream) == n
  {
    var m := LineLength(stream);
    assert n < m ==> stream[n] == stream[..m][n];
  }

  /** One more chunk either completes the line begun in the buffer or only extends it. */
  lemma ChunkExtendsLine(stream: Bytes, start: nat, end: nat)
    requires start <= end <= |stream| && NEWLINE !in stream[..start]
    ensures
      var n := LineLength(stream[start..end]);
      if n < end - start then LineLength(stream) == start + n
      else NEWLINE !in stream[..end] && LineLength(stream) >= end
  {
    var chunk := stream[start..end];
    var n := LineLength(chunk);
    forall k | 0 <= k < start + n ensures stream[k] != NEWLINE {
      if k < start {
        assert stream[k] == stream[..start][k];
      } else {
        assert stream[k] == chunk[..n][k - start];
      }
    }
    LineLengthIs(stream, start + n);
  }

  /** A complete line is the frame. */
  lemma NextFrameAt(stream: Bytes, n: nat)
    requires LineLength(stream) == n < |stream|
    ensures NextFrame(stream) == if n >= MAX_FRAME then (Oversized, stream) else (Frame(stream[..n]), stream[n + 1..])
  {
  }

  /** At the end of input the buffer is the frame. */
  lemma EndEndsLine(buf: Bytes)
    requires NEWLINE !in buf && |buf| < MAX_FRAME
    ensures NextFrame(buf) == (if buf == [] then EndOfInput else Frame(buf), [])
  {
    LineLengthAfter(buf, []);
    assert buf + [] == buf;
  }

  /** However the reader cuts the input, one frame is what the whole stream says it is. */
  method ReadFrame(reader: Reader) returns (r: FrameResult)
    modifies reader
    ensures r == NextFrame(old(reader.rest)).0
    ensures !r.Oversized? ==> reader.rest == NextFrame(old(reader.rest)).1
  {
    hide LineLength;
    ghost var stream := reader.rest;
    var buf: Bytes := [];
    while true
      invariant |buf| <= |stream| && buf == stream[..|buf|] && reader.rest == stream[|buf|..]
      invariant NEWLINE !in buf && |buf| < MAX_FRAME
      decreases |reader.rest|
    {
      var available := reader.FillBuf();
      if available == [] {
        EndEndsLine(buf);
        return if buf == [] then EndOfInput else Frame(buf);
      }
      ghost var start, end := |buf|, |buf| + |available|;
      assert available == stream[start..end];
      ChunkExtendsLine(stream, start, end);
      var pos := Position(available);
      if pos < |available| {
        NextFrameAt(stream, start + pos);
        if |buf| + pos + 1 > MAX_FRAME {
          return Oversized;
        }
        buf := buf + available[..pos];
        reader.Consume(pos + 1);
        assert buf == stream[..start + pos];
        return Frame(buf);
      }
      if |buf| + |available| >= MAX_FRAME {
        return Oversized;
      }
      buf := buf + available;
      reader.Consume(|available|);
      assert buf == stream[..end];
    }
  }

  // --- whole streams ------------------------------------------------------------------

  /** Every frame of a stream up to its end or its first oversized line. */
  function Frames(stream: Bytes): (seq<Bytes>, bool)
    decreases |stream|
  {
    var (front, rest) := NextFrame(stream);
    if front.Frame? then
      var (more, clean) := Frames(rest);
      ([front.content] + more, clean)
    else ([], front.EndOfInput?)
  }

  /** The frame loop of the server: it reads until the end of input or a terminal error. */
  method ReadAll(reader: Reader) returns (frames: seq<Bytes>, clean: bool)
    modifies reader
    ensures (frames, clean) == Frames(old(reader.rest))
  {
    frames := [];
    ghost var stream := reader.rest;
    assert [] + Frames(stream).0 == Frames(stream).0;
    while true
      invariant Frames(stream) == (frames + Frames(reader.rest).0, Frames(reader.rest).1)
      decreases |reader.rest|
    {
      ghost var before := reader.rest;
      var r := ReadFrame(reader);
      match r
      case Frame(content) =>
        assert frames + ([content] + Frames(reader.rest).0) == (frames + [content]) + Frames(reader.rest).0;
        frames := frames + [content];
      case EndOfInput => assert frames + [] == frames; return frames, true;
      case Oversized => assert frames + [] == frames; return frames, false;
    }
  }

  /** The wire form of a frame. */
  function FrameBytes(content: Bytes): Bytes {
    content + [NEWLINE]
  }

  function Write(contents: seq<Bytes>): Bytes {
    if contents == [] then [] else FrameBytes(contents[0]) + Write(contents[1..])
  }

  /**
   The front of any stream: up to its first newline or its end, a line of at least
   16 MiB is refused, and any other is the frame, even an empty one before a newline.
   */
  lemma NextFrameExactly(content: Bytes, rest: Bytes)
    requires NEWLINE !in content && (rest == [] || rest[0] == 10)
    ensures
      NextFrame(content + rest) ==
      if content == [] && rest == [] then (EndOfInput, [])
      else if |content| >= 16777216 then (Oversized, content + rest)
      else (Frame(content), if rest == [] then [] else rest[1..])
  {
    LineLengthAfter(content, rest);
    LineLengthEnd(rest);
    hide LineLength;
    var stream := content + rest;
    assert stream[..|content|] == content;
    if rest == [] {
      assert stream == content;
    } else {
      assert stream[|content| + 1..] == rest[1..];
    }
  }

  lemma LineLengthEnd(rest: Bytes)
    requires rest == [] || rest[0] == NEWLINE
    ensures LineLength(rest) == 0
  {
  }

  lemma NextOfWritten(content: Bytes, rest: Bytes)
    requires NEWLINE !in content
    ensures NextFrame(FrameBytes(content) + rest) ==
            if |content| < MAX_FRAME then (Frame(content), rest) else (Oversized, FrameBytes(content) + rest)
  {
    var stream := FrameBytes(content) + rest;
    assert stream == content + ([NEWLINE] + rest);
    LineLengthAfter(content, [NEWLINE] + rest);
    assert stream[..|content|] == content && stream[|content| + 1..] == rest;
  }

  /**
   Newline-free payloads written as frames read back as the same list exactly
   when every one of them is below the limit; an oversized one stops the reader.
   */
  lemma {:induction false} FramesRoundTrip(contents: seq<Bytes>)
    requires forall content | content in contents :: NEWLINE !in content
    ensures Frames(Write(contents)) == (contents, true) <==>
            forall content | content in contents :: |content| < MAX_FRAME
  {
    if contents != [] {
      var first, rest := contents[0], contents[1..];
      assert contents == [first] + rest;
      NextOfWritten(first, Write(rest));
      FramesRoundTrip(rest);
      assert forall content :: content in contents <==> content == first || content in rest;
    }
  }

  lemma FrameThenRest(content: Bytes, rest: Bytes)
    requires NEWLINE !in content && |content| < MAX_FRAME
    ensures Frames(FrameBytes(content) + rest) == ([content] + Frames(rest).0, Frames(rest).1)
  {
    NextOfWritten(content, rest);
  }

  lemma LoneLine(last: Bytes)
    requires NEWLINE !in last && last != [] && |last| < MAX_FRAME
    ensures Frames(Write([]) + last) == ([last], true)
  {
    EndEndsLine(last);
    assert Write([]) + last == last;
    assert NextFrame([]) == (EndOfInput, []) && Frames([]) == ([], true);
    assert [last] + [] == [last];
    hide NextFrame;
  }

  lemma FirstWritten(contents: seq<Bytes>, last: Bytes)
    requires contents != []
    ensures Write(contents) + last == FrameBytes(contents[0]) + (Write(contents[1..]) + last)
  {
  }

  /** A last line without its newline is still a frame. */
  lemma {:induction false} PartialLastFrame(contents: seq<Bytes>, last: Bytes)
    requires forall content | content in contents :: NEWLINE !in content && |content| < MAX_FRAME
    requires NEWLINE !in last && last != [] && |last| < MAX_FRAME
    ensures Frames(Write(contents) + last) == (contents + [last], true)
  {
    hide FrameBytes, Frames, Write;
    if contents == [] {
      LoneLine(last);
      assert contents + [last] == [last];
    } else {
      var first, rest := contents[0], contents[1..];
      FirstWritten(contents, last);
      PartialLastFrame(rest, last);
      assert first in contents;
      FrameThenRest(first, Write(rest) + last);
      assert [first] + (rest + [last]) == contents + [last];
    }
  }
}
