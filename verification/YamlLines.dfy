/**
  Physical lines of a byte stream: `yamlLineFrames` of node/binding.js.

  A line ends in LF, CR or CRLF (section 5.4 of YAML 1.2.2). Chunks may end anywhere,
  also between the CR and the LF of one terminator, so a CR that ends a chunk is held
  until the next byte decides whether an LF belongs to it.
 */
module YamlLines {
  import opened Sequences

  /** One line with its terminator, without it, and its position in the stream. */
  datatype Frame = Frame(framed: Bytes, line: Bytes, start: nat)

  predicate IsBreak(b: Byte) { b == LF || b == CR }

  predicate BreakFree(s: Bytes) { forall b <- s :: !IsBreak(b) }

  // ----- The whole-input splitter -----

  /** The length of the first line, without its terminator. */
  function LineLength(s: Bytes): (n: nat)
    ensures n <= |s| && BreakFree(s[..n])
    ensures n < |s| ==> IsBreak(s[n])
  {
    if s == [] || IsBreak(s[0]) then 0
    else
      var n := 1 + LineLength(s[1..]);
      assert s[..n] == [s[0]] + s[1..][..n - 1];
      n
  }

  /** The length of the terminator of the first line: none, one break, or CRLF. */
  function TerminatorLength(s: Bytes): (t: nat)
    ensures LineLength(s) + t <= |s|
  {
    var n := LineLength(s);
    if n == |s| then 0
    else if s[n] == CR && n + 1 < |s| && s[n + 1] == LF then 2
    else 1
  }

  function FrameLength(s: Bytes): (n: nat)
    ensures n <= |s|
    ensures s != [] ==> 0 < n
  {
    LineLength(s) + TerminatorLength(s)
  }

  /** The lines of the bytes s, which stand at position offset of the stream. */
  function SplitLines(s: Bytes, offset: nat): seq<Frame> {
    if s == [] then []
    else [FirstFrame(s, offset)] + SplitLines(s[FrameLength(s)..], offset + FrameLength(s))
  }

  function FirstFrame(s: Bytes, offset: nat): Frame {
    Frame(s[..FrameLength(s)], s[..LineLength(s)], offset)
  }

  /** Whether a line can be cut off here: its terminator is complete, whatever follows. */
  predicate ClosedBefore(done: Bytes, rest: Bytes) {
    || done == []
    || done[|done| - 1] == LF
    || (done[|done| - 1] == CR && rest != [] && rest[0] != LF)
  }

  function Framed(frames: seq<Frame>): Bytes {
    if frames == [] then [] else frames[0].framed + Framed(frames[1..])
  }

  // ----- Properties of the splitter -----

  lemma SplitCons(s: Bytes, offset: nat)
    ensures SplitLines([], offset) == []
    ensures s != [] ==> SplitLines(s, offset)
                        == [FirstFrame(s, offset)] + SplitLines(s[FrameLength(s)..], offset + FrameLength(s))
  {
  }

  lemma FramedCons(frame: Frame, frames: seq<Frame>)
    ensures Framed([]) == [] && Framed([frame] + frames) == frame.framed + Framed(frames)
  {
    assert ([frame] + frames)[1..] == frames;
  }

  /** Framing loses nothing: the frames laid end to end are the input. */
  lemma {:induction false} LinesConserve(s: Bytes, offset: nat)
    ensures Framed(SplitLines(s, offset)) == s
  {
    hide LineLength, FrameLength, SplitLines, Framed;
    SplitCons(s, offset);
    FramedCons(FirstFrame(s, offset), SplitLines(s[FrameLength(s)..], offset + FrameLength(s)));
    if s != [] {
      LinesConserve(s[FrameLength(s)..], offset + FrameLength(s));
    }
  }

  /** The bytes of a frame are those at its position in the stream. */
  predicate Placed(f: Frame, s: Bytes, offset: nat) {
    && offset <= f.start && f.start + |f.framed| <= offset + |s|
    && f.framed == s[f.start - offset..f.start - offset + |f.framed|]
  }

  /** Each line stands exactly at the sum of the lengths of the earlier ones. */
  lemma {:induction false} LineStart(s: Bytes, offset: nat, i: nat)
    requires i < |SplitLines(s, offset)|
    ensures SplitLines(s, offset)[i].start == offset + |Framed(SplitLines(s, offset)[..i])|
  {
    hide LineLength, FrameLength, SplitLines, Framed;
    var n := FrameLength(s);
    SplitCons(s, offset);
    if 0 < i {
      var rest := SplitLines(s[n..], offset + n);
      LineStart(s[n..], offset + n, i - 1);
      assert SplitLines(s, offset)[..i] == [FirstFrame(s, offset)] + rest[..i - 1];
      FramedCons(FirstFrame(s, offset), rest[..i - 1]);
    } else {
      FramedCons(FirstFrame(s, offset), []);
      assert SplitLines(s, offset)[..0] == [];
    }
  }

  lemma {:induction false} LinePlaced(s: Bytes, offset: nat, i: nat)
    requires i < |SplitLines(s, offset)|
    ensures Placed(SplitLines(s, offset)[i], s, offset)
  {
    hide LineLength, FrameLength, SplitLines;
    var n := FrameLength(s);
    SplitCons(s, offset);
    if 0 < i {
      LinePlaced(s[n..], offset + n, i - 1);
      PlacedInTail(SplitLines(s[n..], offset + n)[i - 1], s, n, offset);
    }
  }

  lemma PlacedInTail(f: Frame, s: Bytes, n: nat, offset: nat)
    requires n <= |s| && Placed(f, s[n..], offset + n)
    ensures Placed(f, s, offset)
  {
    var start, end := f.start - offset, f.start - offset + |f.framed|;
    assert s[start..end] == s[n..][start - n..end - n];
  }

  /** A line's text holds no break, and its frame adds none or exactly one terminator. */
  predicate WellFramed(f: Frame) {
    && BreakFree(f.line)
    && (f.framed == f.line || Terminated(f))
  }

  predicate Terminated(f: Frame) {
    f.framed == f.line + [LF] || f.framed == f.line + [CR] || f.framed == f.line + [CR, LF]
  }

  lemma FirstLineWellFramed(s: Bytes, offset: nat)
    requires s != []
    ensures WellFramed(SplitLines(s, offset)[0])
    ensures FrameLength(s) < |s| ==> Terminated(SplitLines(s, offset)[0])
  {
    var d, n := LineLength(s), FrameLength(s);
    assert s[..n] == s[..d] + s[d..n];
    if d < |s| {
      assert s[d..n] == if n == d + 2 then [CR, LF] else [s[d]];
    }
  }

  /** Every line is well framed, and only the last may lack its terminator. */
  lemma {:induction false} LineWellFramed(s: Bytes, offset: nat, i: nat)
    requires i < |SplitLines(s, offset)|
    ensures WellFramed(SplitLines(s, offset)[i])
    ensures i + 1 < |SplitLines(s, offset)| ==> Terminated(SplitLines(s, offset)[i])
  {
    hide LineLength, FrameLength, WellFramed, Terminated;
    if i == 0 {
      FirstLineWellFramed(s, offset);
    } else {
      LineWellFramed(s[FrameLength(s)..], offset + FrameLength(s), i - 1);
    }
  }

  lemma {:induction false} LineLengthExtends(s: Bytes, more: Bytes)
    requires LineLength(s) < |s|
    ensures LineLength(s + more) == LineLength(s)
  {
    if !IsBreak(s[0]) {
      assert (s + more)[1..] == s[1..] + more;
      LineLengthExtends(s[1..], more);
    }
  }

  /** A line whose terminator is complete is not changed by what follows. */
  lemma FirstFrameExtends(s: Bytes, more: Bytes, offset: nat)
    requires ClosedBefore(s, more) && s != []
    ensures FrameLength(s + more) == FrameLength(s)
    ensures FirstFrame(s + more, offset) == FirstFrame(s, offset)
    ensures ClosedBefore(s[FrameLength(s)..], more)
  {
    LastBreak(s);
    LineLengthExtends(s, more);
    assert (s + more)[..FrameLength(s)] == s[..FrameLength(s)];
    assert (s + more)[..LineLength(s)] == s[..LineLength(s)];
  }

  /** Cutting the input behind a complete terminator splits the lines there. */
  lemma {:induction false} SplitAppend(done: Bytes, rest: Bytes, offset: nat)
    requires ClosedBefore(done, rest)
    ensures SplitLines(done + rest, offset) == SplitLines(done, offset) + SplitLines(rest, offset + |done|)
  {
    hide LineLength, FrameLength, FirstFrame, SplitLines;
    SplitCons(done, offset);
    SplitCons(done + rest, offset);
    if done == [] {
      assert done + rest == rest;
    } else {
      hide ClosedBefore;
      var n := FrameLength(done);
      FirstFrameExtends(done, rest, offset);
      assert (done + rest)[n..] == done[n..] + rest;
      SplitAppend(done[n..], rest, offset + n);
      Associative([FirstFrame(done, offset)], SplitLines(done[n..], offset + n), SplitLines(rest, offset + |done|));
    }
  }

  lemma {:induction false} LastBreak(s: Bytes)
    requires s != [] && IsBreak(s[|s| - 1])
    ensures LineLength(s) < |s|
  {
    if !IsBreak(s[0]) {
      LastBreak(s[1..]);
    }
  }

  /** A break-free text in front of a break is the first line. */
  lemma {:induction false} LineLengthIs(text: Bytes, tail: Bytes)
    requires BreakFree(text) && (tail != [] ==> IsBreak(tail[0]))
    ensures LineLength(text + tail) == |text|
  {
    if text == [] {
      assert text + tail == tail;
    } else {
      assert text[0] in text;
      assert (text + tail)[1..] == text[1..] + tail;
      LineLengthIs(text[1..], tail);
    }
  }

  /** One complete line. */
  lemma SplitOne(text: Bytes, terminator: Bytes, offset: nat)
    requires BreakFree(text)
    requires terminator in {[], [LF], [CR], [CR, LF]}
    requires text + terminator != []
    ensures SplitLines(text + terminator, offset) == [Frame(text + terminator, text, offset)]
  {
    var s := text + terminator;
    LineLengthIs(text, terminator);
    assert FrameLength(s) == |s|;
    assert s[..|s|] == s && s[..|text|] == text && s[|s|..] == [];
  }

  // ----- The incremental framer -----

  class LineFramer {
    var lineParts: seq<Bytes>
    var lineLength: nat
    var lineStart: nat
    var total: nat
    var pendingCarriageReturn: bool
    ghost var seen: Bytes
    ghost var frames: seq<Frame>

    /** The bytes of the line that is still open. */
    ghost function Open(): Bytes
      reads `lineParts
    {
      Flatten(lineParts)
    }

    /** The state at the end of a chunk, once everything received is taken in. */
    ghost predicate Held(all: Bytes)
      reads `lineParts, `lineLength, `lineStart, `frames, `pendingCarriageReturn
    {
      && lineStart <= |all|
      && lineLength == |Open()|
      && Open() == all[lineStart..]
      && ClosedBefore(all[..lineStart], Open())
      && frames == SplitLines(all[..lineStart], 0)
      && (if pendingCarriageReturn
          then Open() != [] && Open()[lineLength - 1] == CR && BreakFree(Open()[..lineLength - 1])
          else BreakFree(Open()))
    }

    ghost predicate Valid()
      reads this
    {
      total == |seen| && Held(seen)
    }

    constructor ()
      ensures Valid() && seen == [] && frames == []
    {
      lineParts := [];
      lineLength, lineStart, total := 0, 0, 0;
      pendingCarriageReturn := false;
      seen, frames := [], [];
    }

    /**
      The state while a chunk is read: all is everything received, of which the first
      position bytes are taken in.
     */
    ghost predicate Scanning(all: Bytes, position: nat)
      reads `lineParts, `lineLength, `lineStart, `frames, `pendingCarriageReturn
    {
      && lineStart <= position <= |all|
      && lineLength == |Open()|
      && Open() == all[lineStart..position]
      && BreakFree(Open())
      && ClosedBefore(all[..lineStart], all[lineStart..])
      && frames == SplitLines(all[..lineStart], 0)
    }

    /** The open line is complete: join its parts, yield it and start the next one at end. */
    method Yield(terminatorLength: nat, end: nat, ghost all: Bytes) returns (frame: Frame)
      requires lineStart <= end <= |all|
      requires lineLength == |Open()| && Open() == all[lineStart..end] != []
      requires LineComplete(Open(), terminatorLength)
      requires ClosedBefore(all[..lineStart], all[lineStart..])
      requires frames == SplitLines(all[..lineStart], 0)
      modifies this`lineParts, this`lineLength, this`lineStart, this`frames
      ensures lineStart == end && Open() == [] && lineLength == 0 && BreakFree(Open())
      ensures frames == old(frames) + [frame] == SplitLines(all[..end], 0)
    {
      hide SplitLines, ClosedBefore, Flatten, LineComplete;
      var framedLine := JoinParts(lineParts, lineLength);
      LineCompleteSize(framedLine, terminatorLength);
      frame := Frame(framedLine, framedLine[..|framedLine| - terminatorLength], lineStart);
      CloseLine(all, lineStart, end, terminatorLength);
      frames := frames + [frame];
      FlattenNone<Byte>();
      lineParts := [];
      lineLength := 0;
      lineStart := end;
    }

    method Push(part: Bytes)
      requires lineLength == |Open()|
      modifies this`lineParts, this`lineLength
      ensures Open() == old(Open()) + part && lineLength == |Open()|
    {
      FlattenSnoc(lineParts, part);
      lineParts := lineParts + [part];
      lineLength := lineLength + |part|;
    }

    /** The byte after a CR that ended a chunk decides the terminator of the held line. */
    method ResolveReturn(bytes: Bytes, chunkStart: nat, ghost all: Bytes) returns (frame: Frame, start: nat)
      requires chunkStart == |seen| && all == seen + bytes && bytes != []
      requires Held(seen) && pendingCarriageReturn
      modifies this`lineParts, this`lineLength, this`lineStart, this`frames, this`pendingCarriageReturn
      ensures start <= |bytes| && Scanning(all, |seen| + start)
      ensures !pendingCarriageReturn && frames == old(frames) + [frame]
    {
      hide SplitLines, LineComplete, Flatten, ClosedBefore;
      HeldReturn(seen, lineStart, bytes);
      var terminatorLength := 1;
      start := 0;
      if bytes[0] == LF {
        Push(bytes[..1]);
        terminatorLength := 2;
        start := 1;
      }
      frame := Yield(terminatorLength, chunkStart + start, all);
      assert all[|seen|] == bytes[0];
      ClosedAfter(all, |seen| + start);
      pendingCarriageReturn := false;
    }

    /** The chunk ends inside a line, or right after the CR of its terminator. */
    method HoldTail(bytes: Bytes, start: nat, ghost delimiter: nat, atReturn: bool, ghost all: Bytes)
      requires start <= delimiter <= |bytes| && all == seen + bytes
      requires Scanning(all, |seen| + start) && !pendingCarriageReturn
      requires BreakFree(all[lineStart..|seen| + delimiter])
      requires if atReturn then delimiter + 1 == |bytes| && bytes[delimiter] == CR else delimiter == |bytes|
      modifies this`lineParts, this`lineLength, this`pendingCarriageReturn
      ensures Held(all)
    {
      hide SplitLines, Flatten, ClosedBefore;
      assert all[lineStart..|seen| + start] + bytes[start..] == all[lineStart..];
      assert all[lineStart..|seen| + delimiter] == all[lineStart..][..|seen| + delimiter - lineStart];
      var tail := bytes[start..];
      if |tail| != 0 {
        Push(tail);
      }
      assert Open() == all[lineStart..];
      assert atReturn ==> all[|all| - 1] == CR;
      pendingCarriageReturn := atReturn;
    }

    /**
      One turn of the scan from start: a complete line is yielded, and otherwise the rest
      of the chunk joins the open line and the scan ends.
     */
    method TakeLine(bytes: Bytes, start: nat, chunkStart: nat, ghost all: Bytes)
      returns (frame: Option<Frame>, next: nat)
      requires start < |bytes| && chunkStart == |seen| && all == seen + bytes
      requires Scanning(all, |seen| + start) && !pendingCarriageReturn
      modifies this`lineParts, this`lineLength, this`lineStart, this`frames, this`pendingCarriageReturn
      ensures frame.None? ==> frames == old(frames) && Held(all)
      ensures frame.Some? ==> frames == old(frames) + [frame.value] && !pendingCarriageReturn
      ensures frame.Some? ==> start < next <= |bytes| && Scanning(all, |seen| + next)
    {
      hide SplitLines, LineComplete, Flatten, ClosedBefore, BreakFree;
      var delimiter := FindBreak(bytes, start);
      OpenText(seen, bytes, lineStart, start, delimiter);
      if delimiter == |bytes| {
        HoldTail(bytes, start, delimiter, false, all);
        return None, start;
      }
      var terminatorLength := 1;
      if bytes[delimiter] == CR {
        if delimiter + 1 == |bytes| {
          HoldTail(bytes, start, delimiter, true, all);
          return None, start;
        }
        if bytes[delimiter + 1] == LF {
          terminatorLength := 2;
        }
      }
      var end := delimiter + terminatorLength;
      var yielded := TakeTerminated(bytes, start, delimiter, end, chunkStart, all);
      return Some(yielded), end;
    }

    method TakeTerminated(bytes: Bytes, start: nat, delimiter: nat, end: nat, chunkStart: nat, ghost all: Bytes)
      returns (frame: Frame)
      requires start <= delimiter < |bytes| && chunkStart == |seen| && all == seen + bytes
      requires TerminatorEnds(bytes, delimiter, end)
      requires Scanning(all, |seen| + start)
      requires BreakFree(all[lineStart..|seen| + delimiter])
      modifies this`lineParts, this`lineLength, this`lineStart, this`frames
      ensures frames == old(frames) + [frame] && Scanning(all, |seen| + end)
    {
      hide SplitLines, LineComplete, Flatten, ClosedBefore, BreakFree, TerminatorEnds;
      TerminatorBounds(bytes, delimiter, end);
      LineTaken(seen, bytes, lineStart, delimiter, end);
      ClosedInChunk(seen, bytes, delimiter, end);
      Grow(seen, bytes, lineStart, start, end);
      Push(bytes[start..end]);
      frame := Yield(end - delimiter, chunkStart + end, all);
      assert all[|seen| + end..|seen| + end] == [];
    }

    lemma StartScan(bytes: Bytes)
      requires Held(seen) && !pendingCarriageReturn && bytes != []
      ensures Scanning(seen + bytes, |seen|)
    {
      ClosedExtends(seen, lineStart, bytes);
      assert (seen + bytes)[lineStart..|seen|] == seen[lineStart..];
      assert (seen + bytes)[..lineStart] == seen[..lineStart];
    }

    lemma EndScan(all: Bytes)
      requires Scanning(all, |all|) && !pendingCarriageReturn
      ensures Held(all)
    {
      assert all[lineStart..|all|] == all[lineStart..];
    }

    /** One chunk in; the lines it completes out. */
    method Feed(bytes: Bytes) returns (out: seq<Frame>)
      requires Valid()
      modifies this
      ensures Valid()
      ensures seen == old(seen) + bytes && frames == old(frames) + out
    {
      hide SplitLines, Flatten, Held, Scanning;
      out := [];
      if |bytes| == 0 {
        assert seen + bytes == seen;
        return;
      }
      var chunkStart := total;
      total := total + |bytes|;
      var start := 0;
      ghost var all := seen + bytes;
      if pendingCarriageReturn {
        var frame;
        frame, start := ResolveReturn(bytes, chunkStart, all);
        out := [frame];
      } else {
        StartScan(bytes);
      }
      var more := true;
      while more && start < |bytes|
        invariant start <= |bytes|
        invariant more ==> !pendingCarriageReturn && Scanning(all, |seen| + start)
        invariant !more ==> Held(all)
        invariant seen == old(seen) && total == |all| && frames == old(frames) + out
        decreases more, |bytes| - start
      {
        var frame, next := TakeLine(bytes, start, chunkStart, all);
        if frame.Some? {
          out := out + [frame.value];
          start := next;
        } else {
          more := false;
        }
      }
      if more {
        EndScan(all);
      }
      seen := all;
    }

    /** The end of the stream: whatever line is open is the last one. */
    method Finish() returns (out: seq<Frame>)
      requires Valid()
      modifies this
      ensures seen == old(seen) && frames == old(frames) + out
      ensures frames == SplitLines(seen, 0)
    {
      hide SplitLines, Flatten, LineComplete;
      out := [];
      assert seen[..|seen|] == seen && seen[lineStart..|seen|] == seen[lineStart..];
      if pendingCarriageReturn {
        assert Open() == Open()[..lineLength - 1] + [CR];
        LineCompleteIntro(Open()[..lineLength - 1], [CR]);
        var frame := Yield(1, total, seen);
        out := [frame];
      } else if lineLength != 0 {
        assert Open() == Open() + [];
        LineCompleteIntro(Open(), []);
        var frame := Yield(0, total, seen);
        out := [frame];
      } else {
        assert seen[..lineStart] == seen;
      }
    }
  }

  /** The first line break at or after start. */
  method FindBreak(bytes: Bytes, start: nat) returns (delimiter: nat)
    requires start <= |bytes|
    ensures start <= delimiter <= |bytes| && BreakFree(bytes[start..delimiter])
    ensures delimiter < |bytes| ==> IsBreak(bytes[delimiter])
  {
    delimiter := start;
    while delimiter < |bytes| && bytes[delimiter] != LF && bytes[delimiter] != CR
      invariant start <= delimiter <= |bytes|
      invariant forall k :: start <= k < delimiter ==> !IsBreak(bytes[k])
    {
      delimiter := delimiter + 1;
    }
  }

  /** The two outcomes for a line held at a CR, as slices of everything received. */
  lemma HeldReturn(seen: Bytes, lineStart: nat, bytes: Bytes)
    requires lineStart < |seen| && bytes != [] && seen[|seen| - 1] == CR
    requires BreakFree(seen[lineStart..|seen| - 1])
    requires ClosedBefore(seen[..lineStart], seen[lineStart..])
    ensures var all := seen + bytes;
            && all[..lineStart] == seen[..lineStart]
            && ClosedBefore(all[..lineStart], all[lineStart..])
            && all[lineStart..|seen|] == seen[lineStart..]
            && LineComplete(all[lineStart..|seen|], 1)
            && (bytes[0] == LF ==> && all[lineStart..|seen| + 1] == seen[lineStart..] + bytes[..1]
                                   && LineComplete(all[lineStart..|seen| + 1], 2))
  {
    hide LineComplete;
    var text, all := seen[lineStart..|seen| - 1], seen + bytes;
    ClosedExtends(seen, lineStart, bytes);
    assert all[lineStart..|seen|] == text + [CR];
    LineCompleteIntro(text, [CR]);
    if bytes[0] == LF {
      assert all[lineStart..|seen| + 1] == text + [CR, LF];
      LineCompleteIntro(text, [CR, LF]);
    }
  }

  /** The open line once a break-free stretch of the chunk has joined it. */
  lemma OpenText(seen: Bytes, bytes: Bytes, lineStart: nat, start: nat, delimiter: nat)
    requires lineStart <= |seen| + start && start <= delimiter <= |bytes|
    requires BreakFree((seen + bytes)[lineStart..|seen| + start]) && BreakFree(bytes[start..delimiter])
    ensures BreakFree((seen + bytes)[lineStart..|seen| + delimiter])
  {
    Grow(seen, bytes, lineStart, start, delimiter);
  }

  /** The end of a terminator inside a chunk, next byte included. */
  predicate TerminatorEnds(bytes: Bytes, delimiter: nat, end: nat)
    requires delimiter < |bytes|
  {
    && delimiter < end <= |bytes| && IsBreak(bytes[delimiter])
    && if end == delimiter + 2 then bytes[delimiter] == CR && bytes[delimiter + 1] == LF
       else end == delimiter + 1 && (bytes[delimiter] == CR ==> end < |bytes| && bytes[end] != LF)
  }

  lemma TerminatorBounds(bytes: Bytes, delimiter: nat, end: nat)
    requires delimiter < |bytes| && TerminatorEnds(bytes, delimiter, end)
    ensures delimiter < end <= |bytes|
  {
  }

  lemma LineTaken(seen: Bytes, bytes: Bytes, lineStart: nat, delimiter: nat, end: nat)
    requires lineStart <= |seen| + delimiter && delimiter < |bytes|
    requires TerminatorEnds(bytes, delimiter, end)
    requires BreakFree((seen + bytes)[lineStart..|seen| + delimiter])
    ensures LineComplete((seen + bytes)[lineStart..|seen| + end], end - delimiter)
  {
    hide LineComplete;
    Grow(seen, bytes, lineStart, delimiter, end);
    assert bytes[delimiter..end] == if end == delimiter + 2 then [CR, LF] else [bytes[delimiter]];
    LineCompleteIntro((seen + bytes)[lineStart..|seen| + delimiter], bytes[delimiter..end]);
  }

  lemma ClosedInChunk(seen: Bytes, bytes: Bytes, delimiter: nat, end: nat)
    requires delimiter < |bytes| && TerminatorEnds(bytes, delimiter, end)
    ensures ClosedBefore((seen + bytes)[..|seen| + end], (seen + bytes)[|seen| + end..])
  {
    var all := seen + bytes;
    assert all[|seen| + end - 1] == bytes[end - 1];
    assert end < |bytes| ==> all[|seen| + end] == bytes[end];
    ClosedAfter(all, |seen| + end);
  }

  lemma LineCompleteIntro(text: Bytes, terminator: Bytes)
    requires BreakFree(text) && text + terminator != []
    requires terminator in {[], [LF], [CR], [CR, LF]}
    ensures LineComplete(text + terminator, |terminator|)
  {
    var s := text + terminator;
    assert s[..|s| - |terminator|] == text && s[|s| - |terminator|..] == terminator;
  }

  /** A terminator read in the middle of a chunk is complete: the next byte was seen. */
  lemma ClosedAfter(all: Bytes, end: nat)
    requires 0 < end <= |all| && IsBreak(all[end - 1])
    requires all[end - 1] == CR ==> end < |all| && all[end] != LF
    ensures ClosedBefore(all[..end], all[end..])
  {
  }

  /** A line's text and a complete terminator of the given length. */
  predicate LineComplete(s: Bytes, terminatorLength: nat) {
    && terminatorLength <= |s| && s != []
    && BreakFree(s[..|s| - terminatorLength])
    && s[|s| - terminatorLength..] in {[], [LF], [CR], [CR, LF]}
  }

  lemma LineCompleteSize(s: Bytes, terminatorLength: nat)
    requires LineComplete(s, terminatorLength)
    ensures terminatorLength <= |s|
  {
  }

  lemma CloseLine(all: Bytes, start: nat, end: nat, terminatorLength: nat)
    requires start <= end <= |all|
    requires LineComplete(all[start..end], terminatorLength)
    requires ClosedBefore(all[..start], all[start..])
    ensures terminatorLength <= end - start
    ensures SplitLines(all[..end], 0)
         == SplitLines(all[..start], 0)
            + [Frame(all[start..end], all[start..end][..end - start - terminatorLength], start)]
  {
    hide SplitLines;
    var s := all[start..end];
    var text, terminator := s[..|s| - terminatorLength], s[|s| - terminatorLength..];
    assert s == text + terminator;
    assert all[..end] == all[..start] + s;
    SplitAppend(all[..start], s, 0);
    SplitOne(text, terminator, start);
  }

  lemma ClosedExtends(seen: Bytes, start: nat, bytes: Bytes)
    requires start <= |seen| && bytes != []
    requires ClosedBefore(seen[..start], seen[start..])
    ensures ClosedBefore((seen + bytes)[..start], (seen + bytes)[start..])
  {
    assert (seen + bytes)[..start] == seen[..start];
    assert (seen + bytes)[start..] == seen[start..] + bytes;
  }

  /**
    The state after any number of chunks is a function of the bytes received: where one
    chunk ended and the next began leaves no trace in it.
   */
  lemma StateFromBytes(a: LineFramer, b: LineFramer)
    requires a.Valid() && b.Valid() && a.seen == b.seen
    ensures a.lineStart == b.lineStart && a.frames == b.frames && a.Open() == b.Open()
    ensures a.pendingCarriageReturn == b.pendingCarriageReturn
  {
    hide SplitLines, Flatten, BreakFree;
    StartsAgree(a, b);
    StartsAgree(b, a);
    if a.Open() != [] && a.Open()[|a.Open()| - 1] == CR {
      BreakInside(a.Open(), |a.Open()| - 1);
    }
  }

  lemma BreakInside(s: Bytes, k: nat)
    requires k < |s| && IsBreak(s[k])
    ensures !BreakFree(s)
    ensures k < |s| - 1 ==> !BreakFree(s[..|s| - 1])
  {
    assert s[k] in s;
    assert k < |s| - 1 ==> s[..|s| - 1][k] in s[..|s| - 1];
  }

  lemma StartsAgree(a: LineFramer, b: LineFramer)
    requires a.Valid() && b.Valid() && a.seen == b.seen
    ensures a.lineStart >= b.lineStart
  {
    hide SplitLines, Flatten, BreakFree;
    if a.lineStart < b.lineStart {
      var k := b.lineStart - a.lineStart - 1;
      assert a.Open()[k] == a.seen[b.lineStart - 1];
      BreakInside(a.Open(), k);
    }
  }

  /**
    A whole stream of byte chunks. The lines are those of the concatenated chunks: the
    chunking leaves no trace in them.
   */
  method YamlLineFrames(chunks: seq<Bytes>) returns (out: seq<Frame>)
    ensures out == SplitLines(Flatten(chunks), 0)
  {
    hide SplitLines, Flatten;
    FlattenNone<Byte>();
    var framer := new LineFramer();
    out := [];
    for i := 0 to |chunks|
      invariant fresh(framer) && framer.Valid()
      invariant framer.seen == Flatten(chunks[..i]) && framer.frames == out
    {
      var more := framer.Feed(chunks[i]);
      out := out + more;
      assert chunks[..i + 1] == chunks[..i] + [chunks[i]];
      FlattenSnoc(chunks[..i], chunks[i]);
    }
    assert chunks[..|chunks|] == chunks;
    var more := framer.Finish();
    out := out + more;
  }
}
