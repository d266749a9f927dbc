/**
  Writing a stream of documents, `dumpAllStream` of node/binding.js, and reading it back.
  The native emitter is any function from a value to bytes or a failure.
 */
module DumpStream {
  import opened Sequences
  import opened ByteStream
  import opened YamlLines
  import opened Decoding
  import opened YamlDocuments
  import YamlStream
  import JsonLines

  datatype Format = JsonLinesFormat | YamlFormat

  type Emitter<!V> = V -> Option<Bytes>

  datatype DumpStatus = Done | DocumentLimitExceeded | EncodingFailed

  const YAML_START: Bytes := [DASH, DASH, DASH, LF]

  /** An encoding with the line feed it ends in, or is given. */
  function Terminated(encoding: Bytes): Bytes {
    if encoding == [] || encoding[|encoding| - 1] != LF then encoding + [LF] else encoding
  }

  /** What is written for one document. */
  function Piece(encoding: Bytes, format: Format, first: bool): Bytes {
    if format.YamlFormat? && !first then YAML_START + Terminated(encoding) else Terminated(encoding)
  }

  function Pieces(encodings: seq<Bytes>, format: Format, first: bool): seq<Bytes> {
    if encodings == [] then []
    else [Piece(encodings[0], format, first)] + Pieces(encodings[1..], format, false)
  }

  /** All that is written for these encodings. */
  function Dumped(encodings: seq<Bytes>, format: Format): Bytes {
    Flatten(Pieces(encodings, format, true))
  }

  /** The encodings of the first values, as far as the emitter succeeds. */
  predicate Encodes<V>(values: seq<V>, dumps: Emitter<V>, encodings: seq<Bytes>) {
    && |encodings| <= |values|
    && forall i :: 0 <= i < |encodings| ==> dumps(values[i]) == Some(encodings[i])
  }

  lemma {:induction false} PiecesSnoc(encodings: seq<Bytes>, last: Bytes, format: Format, first: bool)
    ensures Pieces(encodings + [last], format, first)
         == Pieces(encodings, format, first) + [Piece(last, format, first && encodings == [])]
  {
    hide Piece;
    if encodings == [] {
      assert [] + [last] == [last] && [last][1..] == [];
      assert Pieces([last], format, first) == [Piece(last, format, first)] + Pieces([last][1..], format, false);
    } else {
      assert (encodings + [last])[1..] == encodings[1..] + [last];
      PiecesSnoc(encodings[1..], last, format, false);
    }
  }

  /** Why no more values than these encodings are handled. */
  predicate StopsAfter<V>(values: seq<V>, dumps: Emitter<V>, handled: nat) {
    handled >= |values| || handled == MAX_STREAM_DOCUMENTS || dumps(values[handled]) == None
  }

  /** The encodings of the values that are handled: up to the limit or the first failure. */
  function Emitted<V>(values: seq<V>, dumps: Emitter<V>): (encodings: seq<Bytes>)
    ensures Encodes(values, dumps, encodings) && |encodings| <= MAX_STREAM_DOCUMENTS
    ensures StopsAfter(values, dumps, |encodings|)
  {
    if values == [] then []
    else
      var n := |values| - 1;
      var before := Emitted(values[..n], dumps);
      if |before| == n && n < MAX_STREAM_DOCUMENTS && dumps(values[n]).Some? then
        before + [dumps(values[n]).value]
      else before
  }

  lemma EmittedIs<V>(values: seq<V>, dumps: Emitter<V>, encodings: seq<Bytes>)
    requires Encodes(values, dumps, encodings) && |encodings| <= MAX_STREAM_DOCUMENTS
    requires StopsAfter(values, dumps, |encodings|)
    ensures encodings == Emitted(values, dumps)
  {
    var emitted := Emitted(values, dumps);
    assert |encodings| == |emitted|;
    forall i | 0 <= i < |encodings| ensures encodings[i] == emitted[i] {
      assert dumps(values[i]) == Some(encodings[i]);
    }
  }

  /**
    `dumpAllStream`: each write goes to the stream as it is made. What was written is
    always the whole pieces of the documents handled so far.
   */
  method DumpAllStream<V>(values: seq<V>, format: Format, dumps: Emitter<V>)
    returns (written: Bytes, status: DumpStatus)
    ensures written == Dumped(Emitted(values, dumps), format)
    ensures var handled := |Emitted(values, dumps)|;
      && (status.Done? <==> handled == |values|)
      && (status.DocumentLimitExceeded? <==> handled == 1024 < |values|)
      && (status.EncodingFailed? <==> handled < |values| && handled < 1024)
  {
    hide Pieces, Flatten, Emitted;
    written := [];
    ghost var encodings: seq<Bytes> := [];
    NothingDumped(format);
    for index := 0 to |values|
      invariant |encodings| == index <= MAX_STREAM_DOCUMENTS
      invariant Encodes(values, dumps, encodings) && written == Dumped(encodings, format)
    {
      if index >= MAX_STREAM_DOCUMENTS {
        EmittedIs(values, dumps, encodings);
        return written, DocumentLimitExceeded;
      }
      var encoded := dumps(values[index]);
      if encoded.None? {
        EmittedIs(values, dumps, encodings);
        return written, EncodingFailed;
      }
      var bytes := encoded.value;
      PiecesSnoc(encodings, bytes, format, true);
      FlattenSnoc(Pieces(encodings, format, true), Piece(bytes, format, encodings == []));
      ghost var before := written;
      encodings := encodings + [bytes];
      if format.YamlFormat? && index != 0 {
        written := written + YAML_START;
      }
      written := written + bytes;
      if |bytes| == 0 || bytes[|bytes| - 1] != LF {
        written := written + [LF];
      }
      assert written == before + Piece(bytes, format, index == 0);
    }
    EmittedIs(values, dumps, encodings);
    status := Done;
  }

  // ----- In plain bytes -----

  /** An encoding on lines of its own: with the one line feed that it may lack. */
  function Ended(encoding: Bytes): Bytes {
    if [0x0A] <= encoding[if encoding == [] then 0 else |encoding| - 1..] then encoding else encoding + [0x0A]
  }

  /** Encodings one after the other; YAML ones with a line of three dashes in between. */
  function Layout(encodings: seq<Bytes>, yaml: bool): Bytes {
    if encodings == [] then []
    else if |encodings| == 1 then Ended(encodings[0])
    else
      Ended(encodings[0]) + (if yaml then [0x2D, 0x2D, 0x2D, 0x0A] else []) + Layout(encodings[1..], yaml)
  }

  /** What is dumped is laid out like that. */
  lemma DumpedLayout(encodings: seq<Bytes>, format: Format)
    ensures Dumped(encodings, format) == Layout(encodings, format.YamlFormat?)
  {
    hide Layout, Pieces, Flatten;
    if encodings == [] {
      NoLayout(format);
    } else {
      LayoutFrom(encodings, format, true);
    }
  }

  lemma NoLayout(format: Format)
    ensures Flatten(Pieces([], format, true)) == [] && Layout([], format.YamlFormat?) == []
  {
  }

  lemma EndedIs(encoding: Bytes)
    ensures Ended(encoding) == Terminated(encoding)
  {
    if encoding != [] {
      assert encoding[|encoding| - 1..] == [encoding[|encoding| - 1]];
    }
  }

  function Between(format: Format, first: bool): Bytes {
    if format.YamlFormat? && !first then [0x2D, 0x2D, 0x2D, 0x0A] else []
  }

  lemma {:induction false} LayoutFrom(encodings: seq<Bytes>, format: Format, first: bool)
    requires encodings != []
    ensures Flatten(Pieces(encodings, format, first)) == Between(format, first) + Layout(encodings, format.YamlFormat?)
    decreases |encodings|
  {
    hide Pieces, Flatten, Layout, Between, Ended;
    var rest := encodings[1..];
    PiecesStep(encodings, format, first);
    LayoutStep(encodings, format);
    FlattenCons(Piece(encodings[0], format, first), Pieces(rest, format, false));
    PieceBytes(encodings[0], format, first);
    hide Piece;
    if rest == [] {
      FlattenNone<Byte>();
      assert Piece(encodings[0], format, first) + [] == Piece(encodings[0], format, first);
    } else {
      LayoutFrom(rest, format, false);
      var between, ended := Between(format, false), Ended(encodings[0]);
      Associative(Between(format, first), ended, between + Layout(rest, format.YamlFormat?));
      Associative(ended, between, Layout(rest, format.YamlFormat?));
    }
  }

  lemma PieceBytes(encoding: Bytes, format: Format, first: bool)
    ensures Piece(encoding, format, first) == Between(format, first) + Ended(encoding)
  {
    hide Terminated, Ended;
    EndedIs(encoding);
  }

  lemma PiecesStep(encodings: seq<Bytes>, format: Format, first: bool)
    requires encodings != []
    ensures Pieces(encodings, format, first)
         == [Piece(encodings[0], format, first)] + Pieces(encodings[1..], format, false)
    ensures encodings[1..] == [] ==> Pieces(encodings[1..], format, false) == []
  {
    hide Piece;
  }

  lemma LayoutStep(encodings: seq<Bytes>, format: Format)
    requires encodings != []
    ensures Layout(encodings, format.YamlFormat?)
         == if encodings[1..] == [] then Ended(encodings[0])
            else Ended(encodings[0]) + Between(format, false) + Layout(encodings[1..], format.YamlFormat?)
  {
    hide Ended;
  }

  lemma NothingDumped(format: Format)
    ensures Dumped([], format) == []
  {
  }

  // ----- JSON Lines: dump, then load -----

  /** The line of an encoding, as the loader sees it. */
  function JsonText(encoding: Bytes): Bytes {
    StripReturn(Terminated(encoding)[..|Terminated(encoding)| - 1])
  }

  /** An encoding that fits on one line and is not blank. */
  predicate OneJsonLine(encoding: Bytes) {
    && JsonLines.LineFeedFree(Terminated(encoding)[..|Terminated(encoding)| - 1])
    && !JsonLines.JsonWhitespace(JsonText(encoding))
  }

  lemma JsonHead(encoding: Bytes, rest: Bytes, offset: nat)
    requires OneJsonLine(encoding)
    ensures JsonLines.JsonRequests(Terminated(encoding) + rest, offset)
         == [Request(JsonText(encoding), offset)]
            + JsonLines.JsonRequests(rest, offset + |Terminated(encoding)|)
  {
    hide JsonLines.JsonRequests;
    var line := Terminated(encoding)[..|Terminated(encoding)| - 1];
    assert Terminated(encoding) == line + [LF];
    JsonLines.JsonAppend(line + [LF], rest, offset);
    JsonLines.JsonLine(line, offset);
  }

  lemma PiecesCons(encodings: seq<Bytes>, format: Format, first: bool)
    requires encodings != []
    ensures Flatten(Pieces(encodings, format, first))
         == Piece(encodings[0], format, first) + Flatten(Pieces(encodings[1..], format, false))
  {
    var pieces := Pieces(encodings, format, first);
    assert pieces[1..] == Pieces(encodings[1..], format, false);
  }

  /** Each encoding comes back as one decode call, in order. */
  lemma {:induction false} JsonRequestsDumped(encodings: seq<Bytes>, first: bool, offset: nat)
    requires forall i :: 0 <= i < |encodings| ==> OneJsonLine(encodings[i])
    ensures var requests := JsonLines.JsonRequests(Flatten(Pieces(encodings, JsonLinesFormat, first)), offset);
            && |requests| == |encodings|
            && forall i :: 0 <= i < |encodings| ==> requests[i].bytes == JsonText(encodings[i])
  {
    hide JsonLines.JsonRequests, JsonText, OneJsonLine, Terminated, Flatten;
    if encodings == [] {
      JsonLines.NoLines(offset);
      FlattenNone<Byte>();
    } else {
      PiecesCons(encodings, JsonLinesFormat, first);
      hide Pieces;
      JsonHead(encodings[0], Flatten(Pieces(encodings[1..], JsonLinesFormat, false)), offset);
      JsonRequestsDumped(encodings[1..], false, offset + |Terminated(encodings[0])|);
    }
  }

  /** The values behind a sequence of decode calls that all succeed. */
  lemma {:induction false} AllAnswered<V>(requests: seq<Request>, values: seq<V>, loads: Loader<V>)
    requires |requests| == |values| <= MAX_STREAM_DOCUMENTS
    requires forall i :: 0 <= i < |requests| ==> loads(requests[i].bytes) == Loaded(values[i])
    ensures Answer(requests, loads) == Outcome(values, Running)
  {
    if requests != [] {
      var n := |requests| - 1;
      AllAnswered(requests[..n], values[..n], loads);
      assert values == values[..n] + [values[n]];
    }
  }

  /**
    JSON Lines round trip: values dumped to a stream and loaded from it, however it is
    cut into chunks on the way, come back in order.
   */
  lemma JsonRoundTrip<V>(
    values: seq<V>, encodings: seq<Bytes>, dumps: Emitter<V>, loads: Loader<V>, chunks: seq<Chunk>)
    requires Encodes(values, dumps, encodings) && |encodings| == |values| <= MAX_STREAM_DOCUMENTS
    requires forall i :: 0 <= i < |values| ==>
               OneJsonLine(encodings[i]) && loads(JsonText(encodings[i])) == Loaded(values[i])
    requires StreamBytes(chunks) == Dumped(encodings, JsonLinesFormat)
    ensures JsonLines.StreamOutcome(chunks, loads) == Outcome(values, Running)
  {
    hide JsonLines.JsonRequests, JsonText, OneJsonLine, StreamBytes, Pieces, Flatten, Answer;
    JsonRequestsDumped(encodings, true, 0);
    AllAnswered(JsonLines.JsonRequests(StreamBytes(chunks), 0), values, loads);
  }

  // ----- YAML: dump, then load -----

  /** An encoding without document markers. */
  predicate MarkerFree(encoding: Bytes) {
    var lines := SplitLines(Terminated(encoding), 0);
    forall i :: 0 <= i < |lines| ==> !IsStart(lines[i]) && !IsEnd(lines[i])
  }

  /** Whether the first encoding starts a document by itself. */
  predicate Substantial(encoding: Bytes) {
    HasContent(SplitLines(Terminated(encoding), 0))
  }

  /** The bytes the loader sees for the i-th document. */
  function YamlText(encodings: seq<Bytes>, i: nat): Bytes
    requires i < |encodings|
  {
    PieceText(encodings, i, true)
  }

  function PieceText(encodings: seq<Bytes>, i: nat, first: bool): Bytes
    requires i < |encodings|
  {
    Piece(encodings[i], YamlFormat, first && i == 0) + if i + 1 < |encodings| then YAML_EXPLICIT_END else []
  }

  /** The segment each piece is when it stands at an offset. */
  function Segment(encoding: Bytes, first: bool, offset: nat): seq<Frame> {
    SplitLines(Piece(encoding, YamlFormat, first), offset)
  }

  function PieceSegments(encodings: seq<Bytes>, first: bool, offset: nat): seq<seq<Frame>> {
    if encodings == [] then []
    else
      [Segment(encodings[0], first, offset)]
      + PieceSegments(encodings[1..], false, offset + |Piece(encodings[0], YamlFormat, first)|)
  }

  lemma PieceEnds(encoding: Bytes, first: bool)
    ensures var piece := Piece(encoding, YamlFormat, first);
            piece != [] && piece[|piece| - 1] == LF
  {
  }

  /** The lines of the dumped stream are those of its pieces. */
  lemma {:induction false} LinesOfPieces(encodings: seq<Bytes>, first: bool, offset: nat)
    ensures SplitLines(Flatten(Pieces(encodings, YamlFormat, first)), offset)
         == Flatten(PieceSegments(encodings, first, offset))
  {
    hide SplitLines, Flatten, Piece;
    FlattenNone<Byte>();
    FlattenNone<Frame>();
    SplitCons([], offset);
    if encodings != [] {
      var piece := Piece(encodings[0], YamlFormat, first);
      var rest := Flatten(Pieces(encodings[1..], YamlFormat, false));
      PiecesCons(encodings, YamlFormat, first);
      PieceEnds(encodings[0], first);
      SplitAppend(piece, rest, offset);
      LinesOfPieces(encodings[1..], false, offset + |piece|);
      FlattenCons(Segment(encodings[0], first, offset), PieceSegments(encodings[1..], false, offset + |piece|));
    }
  }

  /** Offsets move with the input; nothing else about its lines does. */
  lemma {:induction false} LinesMove(s: Bytes, a: nat, b: nat, i: nat)
    requires i < |SplitLines(s, a)|
    ensures |SplitLines(s, a)| == |SplitLines(s, b)|
    ensures SplitLines(s, a)[i].line == SplitLines(s, b)[i].line
  {
    hide SplitLines, FrameLength, LineLength;
    SplitCons(s, a);
    SplitCons(s, b);
    if 0 < i {
      LinesMove(s[FrameLength(s)..], a + FrameLength(s), b + FrameLength(s), i - 1);
    } else if |SplitLines(s, a)| > 1 {
      LinesMove(s[FrameLength(s)..], a + FrameLength(s), b + FrameLength(s), 0);
    } else {
      SplitCons(s[FrameLength(s)..], a + FrameLength(s));
      SplitCons(s[FrameLength(s)..], b + FrameLength(s));
    }
  }

  /** A stretch of lines in which only the first may be a start marker and none an end marker. */
  predicate Plain(segment: seq<Frame>) {
    && segment != []
    && forall i :: 0 <= i < |segment| ==> !IsEnd(segment[i]) && (0 < i ==> !IsStart(segment[i]))
  }

  lemma PlainIsUncut(segment: seq<Frame>)
    requires Plain(segment)
    ensures Uncut(segment) && !EndsInEnd(segment)
  {
    hide IsStart, IsEnd, HasStart, HasContent;
    forall k | 0 < k < |segment|
      ensures !Cut(segment[..k], segment[k])
    {
      assert segment[..k][k - 1] == segment[k - 1];
    }
  }

  /** The lines of an encoding, moved to where they stand. */
  lemma EncodingLines(encoding: Bytes, offset: nat)
    requires MarkerFree(encoding)
    ensures var lines := SplitLines(Terminated(encoding), offset);
            && Plain(lines) && !IsStart(lines[0])
            && (HasContent(lines) <==> Substantial(encoding))
  {
    hide SplitLines, Terminated, YamlMarker, YamlDirectiveLine, PreambleLine;
    var s := Terminated(encoding);
    var here, home := SplitLines(s, offset), SplitLines(s, 0);
    TerminatedNotEmpty(encoding);
    SplitCons(s, offset);
    SplitCons(s, 0);
    forall i | 0 <= i < |here|
      ensures |here| == |home| && here[i].line == home[i].line
      ensures !IsStart(here[i]) && !IsEnd(here[i]) && (IsContent(here[i]) <==> IsContent(home[i]))
    {
      LinesMove(s, offset, 0, i);
    }
  }

  lemma TerminatedNotEmpty(encoding: Bytes)
    ensures Terminated(encoding) != []
  {
  }

  /** The line of a start marker that was written in front of an encoding. */
  lemma StartMarkerLine(rest: Bytes, offset: nat)
    ensures SplitLines(YAML_START + rest, offset)
         == [Frame(YAML_START, YAML_START[..3], offset)] + SplitLines(rest, offset + 4)
    ensures IsStart(Frame(YAML_START, YAML_START[..3], offset))
    ensures !IsEnd(Frame(YAML_START, YAML_START[..3], offset))
  {
    SplitAppend(YAML_START, rest, offset);
    assert YAML_START == YAML_START[..3] + [LF];
    SplitOne(YAML_START[..3], [LF], offset);
  }

  /** Every piece is one plain stretch of lines; a later one starts with its marker. */
  lemma SegmentShape(encoding: Bytes, first: bool, offset: nat)
    requires MarkerFree(encoding)
    ensures var segment := Segment(encoding, first, offset);
            && Plain(segment)
            && (IsStart(segment[0]) <==> !first)
            && (first ==> (HasContent(segment) <==> Substantial(encoding)))
            && (HasStart(segment) <==> !first)
  {
    hide SplitLines, Terminated, IsStart, IsEnd, IsContent, MarkerFree, Substantial;
    EncodingLines(encoding, if first then offset else offset + 4);
    if !first {
      StartMarkerLine(Terminated(encoding), offset);
    }
    var segment := Segment(encoding, first, offset);
    assert IsStart(segment[0]) ==> HasStart(segment);
  }

  /** When the first document starts by itself, or has a marker, every piece is a segment. */
  lemma {:induction false} PiecesAreSegments(encodings: seq<Bytes>, first: bool, offset: nat)
    requires forall i :: 0 <= i < |encodings| ==> MarkerFree(encodings[i])
    requires first && encodings != [] ==> Substantial(encodings[0])
    ensures var segments := PieceSegments(encodings, first, offset);
            IsSegmentation(segments, Flatten(segments))
  {
    hide Segment, MarkerFree, Substantial, Flatten, IsStart, IsEnd, IsContent, HasStart, HasContent, Plain, Uncut;
    if encodings != [] {
      var next := offset + |Piece(encodings[0], YamlFormat, first)|;
      var segment, rest := Segment(encodings[0], first, offset), PieceSegments(encodings[1..], false, next);
      SegmentShape(encodings[0], first, offset);
      PlainIsUncut(segment);
      PlainNotEmpty(segment);
      PiecesAreSegments(encodings[1..], false, next);
      if rest != [] {
        SegmentShape(encodings[1], false, next);
      }
      SegmentInFront(segment, rest);
    }
  }

  lemma PlainNotEmpty(segment: seq<Frame>)
    requires Plain(segment)
    ensures segment != []
  {
  }

  /** Then the decode calls are those pieces, each but the last closed by an end marker. */
  lemma {:induction false} PieceRequests(encodings: seq<Bytes>, first: bool, offset: nat)
    requires forall i :: 0 <= i < |encodings| ==> MarkerFree(encodings[i])
    requires first && encodings != [] ==> Substantial(encodings[0])
    ensures var requests := SegmentRequests(PieceSegments(encodings, first, offset));
            && |requests| == |encodings|
            && forall i :: 0 <= i < |encodings| ==> requests[i].bytes == PieceText(encodings, i, first)
  {
    hide Segment, MarkerFree, Substantial, IsStart, IsEnd, IsContent, HasStart, HasContent, Plain, Piece, Framed;
    if encodings != [] {
      var piece := Piece(encodings[0], YamlFormat, first);
      var next := offset + |piece|;
      var segment, rest := Segment(encodings[0], first, offset), PieceSegments(encodings[1..], false, next);
      SegmentShape(encodings[0], first, offset);
      PlainIsUncut(segment);
      SegmentBytes(encodings[0], first, offset);
      PieceRequests(encodings[1..], false, next);
      assert PieceSegments(encodings, first, offset)[1..] == rest;
    }
  }

  lemma SegmentBytes(encoding: Bytes, first: bool, offset: nat)
    ensures Framed(Segment(encoding, first, offset)) == Piece(encoding, YamlFormat, first)
  {
    LinesConserve(Piece(encoding, YamlFormat, first), offset);
  }

  /** Each encoding comes back as exactly one decode call, in order. */
  lemma YamlRequestsDumped(encodings: seq<Bytes>)
    requires forall i :: 0 <= i < |encodings| ==> MarkerFree(encodings[i])
    requires encodings != [] ==> Substantial(encodings[0])
    ensures var requests := Requests(SplitLines(Dumped(encodings, YamlFormat), 0));
            && |requests| == |encodings|
            && forall i :: 0 <= i < |encodings| ==> requests[i].bytes == YamlText(encodings, i)
  {
    hide SplitLines, Requests, IsSegmentation, PieceSegments, MarkerFree, Substantial;
    var segments := PieceSegments(encodings, true, 0);
    LinesOfPieces(encodings, true, 0);
    PiecesAreSegments(encodings, true, 0);
    RequestsOfSegmentation(Flatten(segments), segments);
    PieceRequests(encodings, true, 0);
  }

  /**
    YAML round trip: values dumped to a stream and loaded from it, however it is cut into
    chunks on the way, come back in order.
   */
  lemma YamlRoundTrip<V>(
    values: seq<V>, encodings: seq<Bytes>, dumps: Emitter<V>, loads: Loader<V>, chunks: seq<Chunk>)
    requires Encodes(values, dumps, encodings) && |encodings| == |values| <= MAX_STREAM_DOCUMENTS
    requires forall i :: 0 <= i < |values| ==>
               MarkerFree(encodings[i]) && loads(YamlText(encodings, i)) == Loaded(values[i])
    requires encodings != [] ==> Substantial(encodings[0])
    requires StreamBytes(chunks) == Dumped(encodings, YamlFormat)
    ensures YamlStream.StreamOutcome(chunks, loads) == Outcome(values, Running)
  {
    hide SplitLines, Requests, MarkerFree, Substantial, StreamBytes, Answer, YamlText, Dumped;
    YamlRequestsDumped(encodings);
    AllAnswered(Requests(SplitLines(StreamBytes(chunks), 0)), values, loads);
  }

  /** A stretch without marker or content runs on into the next one. */
  lemma PlainGlue(a: seq<Frame>, b: seq<Frame>)
    requires Plain(a) && Plain(b) && !HasStart(a) && !HasContent(a) && HasStart(b)
    ensures Uncut(a + b) && HasStart(a + b)
  {
    hide IsStart, IsEnd, IsContent;
    var all := a + b;
    var j :| 0 <= j < |b| && IsStart(b[j]);
    assert all[|a| + j] == b[j];
    forall k | 0 < k < |all|
      ensures !Cut(all[..k], all[k])
    {
      assert all[..k][k - 1] == all[k - 1];
      if k == |a| {
        assert all[..k] == a;
      }
    }
  }

  /**
    The first encoding has to start its document by itself, or the second marker does not
    end it: without that every dump of two or more documents loses a document, and a
    single one is loaded only for a directive.
   */
  lemma YamlDocumentCount(encodings: seq<Bytes>)
    requires encodings != []
    requires forall i :: 0 <= i < |encodings| ==> MarkerFree(encodings[i])
    ensures |Requests(SplitLines(Dumped(encodings, YamlFormat), 0))| == |encodings|
       <==> Substantial(encodings[0])
            || (|encodings| == 1 && HasDirective(SplitLines(Terminated(encodings[0]), 0)))
  {
    hide SplitLines, Requests, IsSegmentation, PieceSegments, MarkerFree, Substantial, SegmentRequests, Segment;
    if Substantial(encodings[0]) {
      YamlRequestsDumped(encodings);
    } else {
      LinesOfPieces(encodings, true, 0);
      MergedRequests(encodings);
    }
  }

  lemma MergedRequests(encodings: seq<Bytes>)
    requires encodings != [] && !Substantial(encodings[0])
    requires forall i :: 0 <= i < |encodings| ==> MarkerFree(encodings[i])
    ensures var requests := Requests(Flatten(PieceSegments(encodings, true, 0)));
            |requests| == if |encodings| > 1 then |encodings| - 1
                          else if HasDirective(SplitLines(Terminated(encodings[0]), 0)) then 1 else 0
  {
    hide SplitLines, Requests, MarkerFree, Substantial, Framed, Flatten, IsStart, IsEnd, IsContent, IsDirective;
    hide HasStart, HasContent, HasDirective, Plain, Uncut;
    var piece := Piece(encodings[0], YamlFormat, true);
    var segment := Segment(encodings[0], true, 0);
    var rest := PieceSegments(encodings[1..], false, |piece|);
    SegmentShape(encodings[0], true, 0);
    PlainIsUncut(segment);
    PlainNotEmpty(segment);
    FlattenCons(segment, rest);
    FlattenNone<Frame>();
    if |encodings| == 1 {
      SegmentInFront(segment, []);
      RequestsOfSegmentation(Flatten([segment]), [segment]);
      assert [segment] + [] == [segment];
    } else {
      MergedSegments(encodings[1..], segment, |piece|);
    }
  }

  lemma MergedSegments(encodings: seq<Bytes>, segment: seq<Frame>, offset: nat)
    requires encodings != []
    requires forall i :: 0 <= i < |encodings| ==> MarkerFree(encodings[i])
    requires Plain(segment) && !HasStart(segment) && !HasContent(segment)
    ensures |Requests(segment + Flatten(PieceSegments(encodings, false, offset)))| == |encodings|
  {
    hide SplitLines, Requests, MarkerFree, Substantial, Framed, Flatten, IsStart, IsEnd, IsContent, IsDirective;
    hide HasStart, HasContent, HasDirective, Plain, Uncut;
    var piece := Piece(encodings[0], YamlFormat, false);
    var second := Segment(encodings[0], false, offset);
    var rest := PieceSegments(encodings[1..], false, offset + |piece|);
    var merged := segment + second;
    SegmentShape(encodings[0], false, offset);
    PlainGlue(segment, second);
    PlainNotEmpty(segment);
    PiecesAreSegments(encodings[1..], false, offset + |piece|);
    PieceRequests(encodings[1..], false, offset + |piece|);
    if rest != [] {
      SegmentShape(encodings[1], false, offset + |piece|);
    }
    SegmentInFront(merged, rest);
    FlattenCons(second, rest);
    FlattenCons(merged, rest);
    Associative(segment, second, Flatten(rest));
    RequestsOfSegmentation(Flatten([merged] + rest), [merged] + rest);
    assert ([merged] + rest)[1..] == rest;
  }

  // ----- Dump, carry over, load -----

  /** A way of cutting a stream into chunks, strings and bytes. */
  type Rechunk = Bytes -> seq<Chunk>

  ghost predicate KeepsBytes(rechunk: Rechunk) {
    forall written :: StreamBytes(rechunk(written)) == written
  }

  /** What the emitter and the parser have to do for each value by itself. */
  ghost predicate JsonFaithful<V(!new)>(values: seq<V>, dumps: Emitter<V>, loads: Loader<V>) {
    forall i :: 0 <= i < |values| ==>
      var encoding := dumps(values[i]);
      encoding.Some? && OneJsonLine(encoding.value) && loads(JsonText(encoding.value)) == Loaded(values[i])
  }

  /** All values are handled when all of them encode. */
  lemma AllEmitted<V(!new)>(values: seq<V>, dumps: Emitter<V>)
    requires |values| <= MAX_STREAM_DOCUMENTS && forall i :: 0 <= i < |values| ==> dumps(values[i]).Some?
    ensures |Emitted(values, dumps)| == |values|
    ensures forall i :: 0 <= i < |values| ==> dumps(values[i]) == Some(Emitted(values, dumps)[i])
  {
    hide Emitted;
    var emitted := Emitted(values, dumps);
    assert StopsAfter(values, dumps, |emitted|);
  }

  /**
    JSON Lines: what `dumpAllStream` wrote, cut into any chunks, is what `jsonLinesStream`
    yields, in order; a stream beyond the input limit never ends well.
   */
  method DumpThenLoadJson<V(!new)>(values: seq<V>, dumps: Emitter<V>, loads: Loader<V>, rechunk: Rechunk)
    returns (outcome: Outcome<V>)
    requires KeepsBytes(rechunk)
    requires |values| <= MAX_STREAM_DOCUMENTS && JsonFaithful(values, dumps, loads)
    ensures |Dumped(Emitted(values, dumps), JsonLinesFormat)| <= 67_108_864 ==>
        outcome == Outcome(values, Running)
    ensures |Dumped(Emitted(values, dumps), JsonLinesFormat)| > 67_108_864 ==>
              !outcome.status.Running? && outcome.values <= values
  {
    hide JsonLines.JsonRequests, JsonText, OneJsonLine, StreamBytes, Dumped, Emitted, Answer;
    AllEmitted(values, dumps);
    var written, status := DumpAllStream(values, JsonLinesFormat, dumps);
    var chunks := rechunk(written);
    JsonRoundTrip(values, Emitted(values, dumps), dumps, loads, chunks);
    outcome := JsonLines.JsonLinesStream(chunks, loads);
  }

  ghost predicate YamlFaithful<V(!new)>(values: seq<V>, dumps: Emitter<V>, loads: Loader<V>)
    requires |Emitted(values, dumps)| == |values|
  {
    && (values != [] ==> Substantial(Emitted(values, dumps)[0]))
    && forall i :: 0 <= i < |values| ==>
         MarkerFree(Emitted(values, dumps)[i]) && loads(YamlText(Emitted(values, dumps), i)) == Loaded(values[i])
  }

  /** YAML: the same for `dumpAllStream` and `yamlDocumentStream`. */
  method DumpThenLoadYaml<V(!new)>(values: seq<V>, dumps: Emitter<V>, loads: Loader<V>, rechunk: Rechunk)
    returns (outcome: Outcome<V>)
    requires KeepsBytes(rechunk)
    requires |values| <= MAX_STREAM_DOCUMENTS && |Emitted(values, dumps)| == |values|
        && YamlFaithful(values, dumps, loads)
    ensures |Dumped(Emitted(values, dumps), YamlFormat)| <= 67_108_864 ==> outcome == Outcome(values, Running)
    ensures |Dumped(Emitted(values, dumps), YamlFormat)| > 67_108_864 ==>
              !outcome.status.Running? && outcome.values <= values
  {
    hide SplitLines, Requests, MarkerFree, Substantial, StreamBytes, YamlText, Dumped, Emitted, Answer;
    var written, status := DumpAllStream(values, YamlFormat, dumps);
    var chunks := rechunk(written);
    YamlRoundTrip(values, Emitted(values, dumps), dumps, loads, chunks);
    outcome := YamlStream.YamlDocumentStream(chunks, loads);
  }
}
