/** The YAML document stream itself: `yamlDocumentStream` of node/binding.js. */
module YamlStream {
  import opened Sequences
  import opened ByteStream
  import opened YamlLines
  import opened Decoding
  import opened YamlDocuments

  /** The stream position behind the lines seen. */
  function Position(lines: seq<Frame>): nat {
    if lines == [] then 0 else lines[|lines| - 1].start + |lines[|lines| - 1].framed|
  }

  class DocumentFramer<V> {
    const decoder: Decoder<V>
    var documentParts: seq<Bytes>
    var documentLength: nat
    var documentHasContent: bool
    var documentHasDirective: bool
    var explicitStart: bool
    var documentOffset: nat
    ghost var lines: seq<Frame>

    /**
      The fields describe the open segment; documentOffset plus documentLength is the
      stream position behind it.
     */
    ghost predicate Describes(open: seq<Frame>, position: nat)
      reads `documentParts, `documentLength, `documentHasContent, `documentHasDirective, `explicitStart, `documentOffset
    {
      && Flatten(documentParts) == Framed(open)
      && documentLength == |Framed(open)|
      && (documentHasContent <==> HasContent(open))
      && (documentHasDirective <==> HasDirective(open))
      && (explicitStart <==> HasStart(open))
      && documentOffset + documentLength == position
      && (open != [] ==> documentOffset == open[0].start)
    }

    /** The decode calls made are those of the closed segments, and the fields describe the open one. */
    ghost predicate Holds(closed: seq<seq<Frame>>, open: seq<Frame>, position: nat)
      reads `documentParts, `documentLength, `documentHasContent, `documentHasDirective, `explicitStart, `documentOffset
      reads decoder
    {
      && decoder.Valid()
      && decoder.requests == ClosedRequests(closed)
      && (decoder.status.Running? ==> Describes(open, position))
    }

    ghost predicate Valid()
      reads this, decoder
    {
      Holds(SplitDocuments(lines).closed, SplitDocuments(lines).open, Position(lines))
    }

    constructor (loads: Loader<V>)
      ensures Valid() && fresh(decoder) && decoder.loads == loads
      ensures lines == [] && decoder.status.Running? && decoder.values == []
    {
      decoder := new Decoder(loads);
      documentParts, documentLength := [], 0;
      documentHasContent, documentHasDirective, explicitStart := false, false, false;
      documentOffset := 0;
      lines := [];
      new;
      NoneInNothing();
    }

    /** One line in; every document it completes is decoded. */
    method Feed(frame: Frame)
      requires Valid() && decoder.status.Running?
      requires frame.start == Position(lines)
      modifies this, decoder
      ensures Valid() && lines == old(lines) + [frame]
    {
      hide SplitDocuments, IsStart, IsEnd, HasStart, HasContent, Holds, EndsInEnd;
      ghost var closed, open := SplitDocuments(lines).closed, SplitDocuments(lines).open;
      SplitSnoc(lines, frame);
      OpenIsNotEnded(lines);
      MarkersDiffer(frame);
      FlagsMean(closed, open);
      lines := lines + [frame];
      var isStart := YamlMarker(frame.line, DASH);
      var isEnd := YamlMarker(frame.line, DOT);
      KindsMean(frame);
      if isStart && (explicitStart || documentHasContent) {
        CutBefore(frame, closed, open);
        closed, open := closed + [open], [frame];
        if !decoder.status.Running? {
          return;
        }
      } else {
        Join(frame, isStart, isEnd, closed, open);
        open := open + [frame];
      }
      if isEnd {
        LastEnds(open, frame);
        EndDocument(frame, closed, open);
      }
    }

    lemma FlagsMean(closed: seq<seq<Frame>>, open: seq<Frame>)
      requires Holds(closed, open, Position(lines)) && decoder.status.Running?
      ensures explicitStart <==> HasStart(open)
      ensures documentHasContent <==> HasContent(open)
    {
    }

    /**
      A following start marker ends the open document. The parser sees an explicit end
      marker in its place, so that a block scalar ends as it does in the whole stream.
     */
    method CutBefore(frame: Frame, ghost closed: seq<seq<Frame>>, ghost open: seq<Frame>)
      requires Holds(closed, open, frame.start) && decoder.status.Running?
      requires IsStart(frame) && !EndsInEnd(open) && (HasStart(open) || HasContent(open))
      modifies this, decoder
      ensures Holds(closed + [open], [frame], frame.start + |frame.framed|)
      ensures lines == old(lines)
    {
      hide ClosedRequests, IsStart, HasStart, HasContent, HasDirective, Framed, Flatten, EndsInEnd;
      var bytes :=
        BufferConcat(documentParts + [YAML_EXPLICIT_END], documentLength + |YAML_EXPLICIT_END|);
      FlattenSnoc(documentParts, YAML_EXPLICIT_END);
      ClosedRequestsSnoc(closed, open);
      NotNothing(open);
      decoder.Decode(bytes, documentOffset);
      if !decoder.status.Running? {
        return;
      }
      FlattenOne(frame.framed);
      FramedOne(frame);
      OneStart(frame);
      documentOffset := frame.start;
      documentParts := [frame.framed];
      documentLength := |frame.framed|;
      documentHasContent := false;
      documentHasDirective := false;
      explicitStart := true;
    }

    /** Any other line joins the open document. */
    method Join(frame: Frame, isStart: bool, isEnd: bool, ghost closed: seq<seq<Frame>>, ghost open: seq<Frame>)
      requires Holds(closed, open, frame.start) && decoder.status.Running?
      requires isStart == IsStart(frame) && isEnd == IsEnd(frame)
      modifies this
      ensures Holds(closed, open + [frame], frame.start + |frame.framed|)
      ensures lines == old(lines) && decoder.status.Running?
    {
      hide ClosedRequests, IsStart, IsEnd, HasStart, HasContent, HasDirective, Framed, Flatten, PreambleLine;
      FlattenSnoc(documentParts, frame.framed);
      FramedSnoc(open, frame);
      AnyAppend(open, frame);
      KindsMean(frame);
      documentParts := documentParts + [frame.framed];
      documentLength := documentLength + |frame.framed|;
      var preamble := YamlPreambleLine(frame.line);
      if isStart {
        explicitStart := true;
      } else if YamlDirectiveLine(frame.line) {
        documentHasDirective := true;
      } else if !isEnd && !preamble {
        documentHasContent := true;
      }
      FramedCons(frame, []);
      assert open != [] ==> (open + [frame])[0] == open[0];
      assert open == [] ==> (open + [frame])[0] == frame && documentOffset == frame.start;
    }

    /** An end marker ends the document it closes, which is decoded unless it holds nothing. */
    method EndDocument(frame: Frame, ghost closed: seq<seq<Frame>>, ghost open: seq<Frame>)
      requires Holds(closed, open, frame.start + |frame.framed|) && decoder.status.Running?
      requires open != [] && EndsInEnd(open)
      modifies this, decoder
      ensures Holds(closed + [open], [], frame.start + |frame.framed|)
      ensures lines == old(lines)
    {
      hide ClosedRequests, HasStart, HasContent, HasDirective, Framed, Flatten, EndsInEnd;
      ClosedRequestsSnoc(closed, open);
      if explicitStart || documentHasContent || documentHasDirective {
        var bytes := JoinParts(documentParts, documentLength);
        assert RequestFor(open, false) == Request(bytes, documentOffset);
        decoder.Decode(bytes, documentOffset);
        if !decoder.status.Running? {
          return;
        }
      }
      NoneInNothing();
      FlattenNone<Byte>();
      FramedCons(frame, []);
      documentOffset := frame.start + |frame.framed|;
      documentParts := [];
      documentLength := 0;
      documentHasContent := false;
      documentHasDirective := false;
      explicitStart := false;
    }

    /** The end of the stream ends the open document. */
    method Finish()
      requires Valid() && decoder.status.Running?
      modifies this, decoder
      ensures decoder.Valid() && lines == old(lines)
      ensures decoder.requests == Requests(lines)
    {
      hide SplitDocuments, ClosedRequests, HasStart, HasContent, HasDirective, Framed, Flatten;
      ghost var open := SplitDocuments(lines).open;
      NoneInNothing();
      if explicitStart || documentHasContent || documentHasDirective {
        var bytes := JoinParts(documentParts, documentLength);
        assert RequestFor(open, false) == Request(bytes, documentOffset);
        decoder.Decode(bytes, documentOffset);
      }
    }
  }

  /** The lines of an input follow one another without a gap. */
  lemma LinesFollow(input: Bytes, i: nat)
    requires i < |SplitLines(input, 0)|
    ensures SplitLines(input, 0)[i].start == Position(SplitLines(input, 0)[..i])
  {
    hide SplitLines, Framed;
    var lines := SplitLines(input, 0);
    LineStart(input, 0, i);
    if i == 0 {
      FramedCons(lines[0], []);
      assert lines[..0] == [];
    } else {
      LineStart(input, 0, i - 1);
      FramedSnoc(lines[..i - 1], lines[i - 1]);
      assert lines[..i] == lines[..i - 1] + [lines[i - 1]];
    }
  }

  /** What a stream of chunks decodes to, when it is not too long. */
  function StreamOutcome<V>(chunks: seq<Chunk>, loads: Loader<V>): Outcome<V> {
    Answer(Requests(SplitLines(StreamBytes(chunks), 0)), loads)
  }

  /** The lines that are over, whatever follows: all but a last one that does not end in LF. */
  function ClosedLines(bytes: Bytes): seq<Frame> {
    var lines := SplitLines(bytes, 0);
    if lines == [] then []
    else
      var n := |lines| - 1;
      var framed := lines[n].framed;
      if framed != [] && framed[|framed| - 1] == 0x0A then lines else lines[..n]
  }

  /**
    What a stream that is too long decodes to: the documents its lines complete that are
    over within the buffers there is room for, and then the limit.
   */
  function LimitedOutcome<V>(chunks: seq<Chunk>, loads: Loader<V>): Outcome<V> {
    var taken := Flatten(Fitting(Buffers(chunks), 67_108_864));
    var outcome := Answer(Made(ClosedLines(taken)), loads);
    if outcome.status.Running? then outcome.(status := InputLimit) else outcome
  }

  /** What a framer has yielded are lines that are over, in any continuation of its input. */
  lemma FramesAreClosed(framer: LineFramer, input: Bytes)
    requires framer.Valid() && framer.seen <= input
    ensures framer.frames <= ClosedLines(input)
    ensures framer.seen == input ==> framer.frames == ClosedLines(input)
  {
    hide SplitLines, Flatten, ClosedLines, BreakFree;
    var n := framer.lineStart;
    var rest := input[n..];
    assert framer.seen[..n] == input[..n] && input == input[..n] + rest;
    assert framer.Open() != [] ==> rest[0] == framer.Open()[0];
    ClosedFront(input[..n], rest);
    if framer.seen == input && rest != [] {
      ClosedOpen(input[..n], rest);
    }
  }

  lemma ClosedFront(done: Bytes, rest: Bytes)
    requires ClosedBefore(done, rest)
    ensures SplitLines(done, 0) <= ClosedLines(done + rest)
    ensures rest == [] ==> SplitLines(done, 0) == ClosedLines(done + rest)
  {
    hide SplitLines, LineLength, FrameLength;
    SplitAppend(done, rest, 0);
    SplitCons(rest, |done|);
    SplitCons([], 0);
    if rest == [] {
      assert done + rest == done;
      LastLineEnds(done, 0);
    }
  }

  lemma ClosedOpen(done: Bytes, rest: Bytes)
    requires ClosedBefore(done, rest) && rest != []
    requires BreakFree(rest) || (rest[|rest| - 1] == CR && BreakFree(rest[..|rest| - 1]))
    ensures SplitLines(done, 0) == ClosedLines(done + rest)
  {
    hide SplitLines;
    SplitAppend(done, rest, 0);
    OpenLine(rest, |done|);
    hide BreakFree, ClosedBefore;
  }

  lemma {:induction false} LastLineEnds(s: Bytes, offset: nat)
    requires s == [] || s[|s| - 1] == LF
    ensures var lines := SplitLines(s, offset);
      s != [] ==> lines != [] && lines[|lines| - 1].framed != []
                  && lines[|lines| - 1].framed[|lines[|lines| - 1].framed| - 1] == LF
    decreases |s|
  {
    hide SplitLines, LineLength;
    SplitCons(s, offset);
    if s != [] {
      var n := FrameLength(s);
      SplitCons(s[n..], offset + n);
      if s[n..] == [] {
        assert s[..n] == s;
      } else {
        LastLineEnds(s[n..], offset + n);
      }
    }
  }

  /** An open line is one line, and does not end in LF. */
  lemma OpenLine(s: Bytes, offset: nat)
    requires s != []
    requires BreakFree(s) || (s[|s| - 1] == CR && BreakFree(s[..|s| - 1]))
    ensures |SplitLines(s, offset)| == 1 && SplitLines(s, offset)[0].framed == s && s[|s| - 1] != LF
  {
    hide SplitLines;
    if BreakFree(s) {
      assert s[|s| - 1] in s;
      SplitOne(s, [], offset);
      assert s + [] == s;
    } else {
      SplitOne(s[..|s| - 1], [CR], offset);
      assert s[..|s| - 1] + [CR] == s;
    }
  }

  /** Whatever a stream yields on part of its lines agrees with what it yields on all of them. */
  lemma PartOfOutcome<V>(lines: seq<Frame>, all: seq<Frame>, loads: Loader<V>)
    requires lines <= all
    ensures Answer(Made(lines), loads).values <= Answer(Requests(all), loads).values
    ensures !Answer(Made(lines), loads).status.Running? ==> Answer(Made(lines), loads) == Answer(Requests(all), loads)
  {
    hide Made, Requests, Answer;
    assert all == lines + all[|lines|..];
    MadeExtends(lines, all[|lines|..]);
    var made, rest := Made(lines), Requests(all)[|Made(lines)|..];
    assert Requests(all) == made + rest;
    AnswerExtends(made, rest, loads);
  }

  /** The lines a framer has yielded are the first lines of any continuation of its input. */
  lemma FramesExtend(framer: LineFramer, input: Bytes)
    requires framer.Valid() && framer.seen <= input
    ensures framer.frames <= SplitLines(input, 0)
    ensures forall i :: 0 <= i < |framer.frames| ==> framer.frames[i].start == Position(framer.frames[..i])
  {
    hide SplitLines, Flatten, Position;
    var n := framer.lineStart;
    assert framer.seen[..n] == input[..n] && input == input[..n] + input[n..];
    assert framer.Open() != [] ==> input[n..][0] == framer.Open()[0];
    SplitAppend(input[..n], input[n..], 0);
    forall i | 0 <= i < |framer.frames|
      ensures framer.frames[i].start == Position(framer.frames[..i])
    {
      LinesFollow(input[..n], i);
    }
  }

  /** Feeds lines until they run out or a document stops the stream. */
  method FeedLines<V>(documents: DocumentFramer<V>, lines: seq<Frame>)
    requires documents.Valid() && documents.decoder.status.Running?
    requires forall i :: 0 <= i < |lines| ==> lines[i].start == Position(documents.lines + lines[..i])
    modifies documents, documents.decoder
    ensures documents.Valid()
    ensures old(documents.lines) <= documents.lines <= old(documents.lines) + lines
    ensures documents.decoder.status.Running? ==> documents.lines == old(documents.lines) + lines
  {
    hide DocumentFramer.Valid, Position;
    for i := 0 to |lines|
      invariant documents.Valid() && documents.decoder.status.Running?
      invariant documents.lines == old(documents.lines) + lines[..i]
    {
      documents.Feed(lines[i]);
      assert lines[..i + 1] == lines[..i] + [lines[i]];
      if !documents.decoder.status.Running? {
        return;
      }
    }
  }

  /** A framer and the documents it feeds, in step. */
  ghost predicate InStep<V>(framer: LineFramer, documents: DocumentFramer<V>)
    reads framer, documents, documents.decoder
  {
    && framer.Valid() && documents.Valid()
    && documents.lines == framer.frames && documents.decoder.status.Running?
  }

  /** What a stream may have yielded of an input: all that counts, or a fault that ends it early. */
  ghost predicate Agrees<V>(outcome: Outcome<V>, input: Bytes, loads: Loader<V>) {
    var whole := Answer(Requests(SplitLines(input, 0)), loads);
    && outcome.values <= whole.values
    && (!outcome.status.Running? ==> outcome == whole)
  }

  /** One buffer of the stream, through its lines to its documents. */
  method FeedBuffer<V>(framer: LineFramer, documents: DocumentFramer<V>, buffer: Bytes, ghost input: Bytes)
    requires InStep(framer, documents) && framer.seen + buffer <= input
    modifies framer, documents, documents.decoder
    ensures framer.Valid() && framer.seen == old(framer.seen) + buffer
    ensures documents.Valid() && (documents.decoder.status.Running? ==> InStep(framer, documents))
    ensures Agrees(documents.decoder.Result(), input, documents.decoder.loads)
    ensures documents.lines <= framer.frames
  {
    hide SplitLines, Requests, Made, Position, Answer, LineFramer.Valid, DocumentFramer.Holds;
    ghost var before := framer.frames;
    var lines := framer.Feed(buffer);
    FramesExtend(framer, input);
    FollowOn(before, lines);
    FeedLines(documents, lines);
    assert documents.lines <= framer.frames;
    PartOfOutcome(documents.lines, SplitLines(input, 0), documents.decoder.loads);
    MadeOutcome(documents);
  }

  /** A stream that stopped on some of its lines stays so whatever lines follow. */
  lemma StoppedInside<V>(framer: LineFramer, documents: DocumentFramer<V>, input: Bytes)
    requires framer.Valid() && framer.seen <= input && documents.Valid() && documents.lines <= framer.frames
    requires !documents.decoder.status.Running?
    ensures documents.decoder.Result() == Answer(Made(ClosedLines(input)), documents.decoder.loads)
  {
    hide Made, Answer, ClosedLines, LineFramer.Valid, DocumentFramer.Valid;
    FramesAreClosed(framer, input);
    MadeOutcome(documents);
    var lines, all := documents.lines, ClosedLines(input);
    assert all == lines + all[|lines|..];
    MadeExtends(lines, all[|lines|..]);
    var made := Made(lines);
    assert Made(all) == made + Made(all)[|made|..];
    AnswerExtends(made, Made(all)[|made|..], documents.decoder.loads);
  }

  lemma MadeOutcome<V>(documents: DocumentFramer<V>)
    requires documents.Valid()
    ensures documents.decoder.Result() == Answer(Made(documents.lines), documents.decoder.loads)
  {
  }

  /** The end of the input, through its last line to its last document. */
  method FinishBuffers<V>(framer: LineFramer, documents: DocumentFramer<V>, ghost input: Bytes)
    requires InStep(framer, documents) && framer.seen == input
    modifies framer, documents, documents.decoder
    ensures documents.decoder.Result() == Answer(Requests(SplitLines(input, 0)), documents.decoder.loads)
  {
    hide SplitLines, Requests, Made, Position, Answer, LineFramer.Valid, DocumentFramer.Holds;
    ghost var before := framer.frames;
    var lines: seq<Frame> := framer.Finish();
    forall i: nat | i < |before + lines|
      ensures (before + lines)[i].start == Position((before + lines)[..i])
    {
      LinesFollow(input, i);
    }
    FollowOn(before, lines);
    FeedLines(documents, lines);
    PartOfOutcome(documents.lines, SplitLines(input, 0), documents.decoder.loads);
    MadeOutcome(documents);
    if documents.decoder.status.Running? {
      documents.Finish();
    }
  }

  /**
    `yamlDocumentStream` over any chunks. Within the input limit the outcome is that of
    the bytes the stream stands for, whatever the chunks; beyond it the stream never ends
    well, and what it yields before it stops agrees with the whole.
   */
  method YamlDocumentStream<V>(chunks: seq<Chunk>, loads: Loader<V>) returns (outcome: Outcome<V>)
    ensures |StreamBytes(chunks)| <= 67_108_864 ==> outcome == StreamOutcome(chunks, loads)
    ensures |StreamBytes(chunks)| > 67_108_864 ==>
              !outcome.status.Running? && outcome.values <= StreamOutcome(chunks, loads).values
    ensures |StreamBytes(chunks)| > 67_108_864 ==> outcome == LimitedOutcome(chunks, loads)
  {
    hide SplitLines, StreamBytes, Requests, Made, Flatten, Answer, DocumentFramer.Valid, LineFramer.Valid;
    hide Fitting, Buffers, ClosedLines;
    var buffers, ok := StreamByteChunks(chunks);
    var framer := new LineFramer();
    var documents := new DocumentFramer(loads);
    FlattenNone<Byte>();
    NothingDecoded(StreamBytes(chunks), loads);
    for i := 0 to |buffers|
      invariant fresh(framer) && fresh(documents) && fresh(documents.decoder)
      invariant documents.decoder.loads == loads
      invariant InStep(framer, documents) && framer.seen == Flatten(buffers[..i])
      invariant Agrees(documents.decoder.Result(), StreamBytes(chunks), loads)
    {
      FlattenPrefix(buffers, i);
      FeedBuffer(framer, documents, buffers[i], StreamBytes(chunks));
      if !documents.decoder.status.Running? {
        FlattenSplit(buffers, i + 1);
        StoppedInside(framer, documents, Flatten(buffers));
        return documents.decoder.Result();
      }
    }
    assert buffers[..|buffers|] == buffers;
    if !ok {
      FramesAreClosed(framer, Flatten(buffers));
      MadeOutcome(documents);
      return Outcome(documents.decoder.values, InputLimit);
    }
    FinishBuffers(framer, documents, StreamBytes(chunks));
    return documents.decoder.Result();
  }

  lemma NothingDecoded<V>(input: Bytes, loads: Loader<V>)
    ensures Agrees(Outcome([], Running), input, loads)
  {
  }

  lemma FollowOn(before: seq<Frame>, lines: seq<Frame>)
    requires forall i :: 0 <= i < |before + lines| ==> (before + lines)[i].start == Position((before + lines)[..i])
    ensures forall i :: 0 <= i < |lines| ==> lines[i].start == Position(before + lines[..i])
  {
    hide Position;
    forall i | 0 <= i < |lines|
      ensures lines[i].start == Position(before + lines[..i])
    {
      assert (before + lines)[|before| + i] == lines[i];
      assert (before + lines)[..|before| + i] == before + lines[..i];
    }
  }

  // ----- Small facts about lines -----

  lemma MarkersDiffer(f: Frame)
    ensures !(IsStart(f) && IsEnd(f))
  {
  }

  lemma KindsMean(f: Frame)
    ensures YamlMarker(f.line, DASH) == IsStart(f) && YamlMarker(f.line, DOT) == IsEnd(f)
    ensures YamlDirectiveLine(f.line) == IsDirective(f)
    ensures IsContent(f) <==> !IsStart(f) && !IsEnd(f) && !IsDirective(f) && !PreambleLine(f.line)
    ensures IsStart(f) ==> !IsDirective(f)
  {
  }

  lemma OpenIsNotEnded(lines: seq<Frame>)
    ensures !EndsInEnd(SplitDocuments(lines).open)
  {
    SplitIsGood(lines);
  }

  lemma LastEnds(open: seq<Frame>, f: Frame)
    requires open != [] && open[|open| - 1] == f && IsEnd(f)
    ensures EndsInEnd(open)
  {
  }

  lemma NotNothing(open: seq<Frame>)
    requires HasStart(open) || HasContent(open)
    ensures open != [] && Decoded(open)
  {
  }

  lemma OneStart(f: Frame)
    requires IsStart(f)
    ensures HasStart([f]) && !HasContent([f]) && !HasDirective([f])
  {
    assert [f][0] == f;
  }

  lemma FramedOne(f: Frame)
    ensures Framed([f]) == f.framed
  {
    FramedCons(f, []);
    assert [f] + [] == [f];
  }

  lemma {:induction false} FramedSnoc(open: seq<Frame>, f: Frame)
    ensures Framed(open + [f]) == Framed(open) + f.framed
  {
    hide Framed;
    if open == [] {
      FramedOne(f);
      FramedCons(f, []);
      assert [] + [f] == [f];
    } else {
      FramedSnoc(open[1..], f);
      FramedCons(open[0], open[1..]);
      FramedCons(open[0], open[1..] + [f]);
      assert open + [f] == [open[0]] + (open[1..] + [f]) && open == [open[0]] + open[1..];
    }
  }
}
