/**
  What a YAML stream looks like, byte by byte, and the decode calls it comes to: documents
  written down from literal bytes, against the splitter of `yamlDocumentStream`.

  A document may have lines in front of its `---` line, and ends in front of the next one
  or after its own `...` line. `---` and `...` are markers alone on their line or in front
  of a space or a tab (section 9.1.2 of YAML 1.2.2), and anything else behind them makes
  the line an ordinary one.
 */
module YamlGrammar {
  import opened Sequences
  import opened YamlLines
  import opened Decoding
  import opened YamlDocuments
  import opened YamlStream
  import opened ByteStream

  // ----- Lines, from literal bytes -----

  datatype Line = Line(text: Bytes, end: Bytes)

  predicate OneLine(text: Bytes) { forall b <- text :: b != 0x0A && b != 0x0D }

  predicate OneBreak(end: Bytes) { end == [0x0A] || end == [0x0D] || end == [0x0D, 0x0A] }

  predicate Proper(line: Line) { OneLine(line.text) && OneBreak(line.end) }

  /** What may follow the three characters of a marker: nothing, or a space or a tab first. */
  predicate Spaced(tail: Bytes) { tail == [] || tail[0] == 0x20 || tail[0] == 0x09 }

  predicate DashLine(text: Bytes) { [0x2D, 0x2D, 0x2D] <= text && Spaced(text[3..]) }

  predicate DotLine(text: Bytes) { [0x2E, 0x2E, 0x2E] <= text && Spaced(text[3..]) }

  predicate PercentLine(text: Bytes) { [0x25] <= text }

  /** Blanks only, or blanks and then a `#`. */
  predicate EmptyLine(text: Bytes) {
    exists n :: 0 <= n <= |text| && BlankTo(text, n) && (n == |text| || text[n] == 0x23)
  }

  predicate BlankTo(text: Bytes, n: nat)
    requires n <= |text|
  {
    forall i :: 0 <= i < n ==> text[i] == 0x20 || text[i] == 0x09
  }

  predicate OtherLine(text: Bytes) {
    !DashLine(text) && !DotLine(text) && !PercentLine(text) && !EmptyLine(text)
  }

  /** The splitter's kinds of lines are these. */
  lemma LineKinds(f: Frame)
    requires OneLine(f.line)
    ensures IsStart(f) <==> DashLine(f.line)
    ensures IsEnd(f) <==> DotLine(f.line)
    ensures IsDirective(f) <==> PercentLine(f.line)
    ensures IsContent(f) <==> OtherLine(f.line)
  {
    var s := f.line;
    assert s != [] ==> s[|s| - 1] in s;
    assert StripReturn(s) == s;
    assert |s| >= 3 ==> s[..3] == [s[0], s[1], s[2]];
    EmptyLines(s);
  }

  lemma EmptyLines(s: Bytes)
    ensures EmptyLine(s) <==> BlankLine(s) || CommentLine(s)
  {
    if BlankLine(s) {
      assert BlankTo(s, |s|);
    }
    if CommentLine(s) {
      var k :| 0 <= k < |s| && s[k] == HASH && BlankLine(s[..k]);
      assert forall i :: 0 <= i < k ==> s[i] == s[..k][i];
      assert BlankTo(s, k);
    }
    if EmptyLine(s) {
      var n :| 0 <= n <= |s| && BlankTo(s, n) && (n == |s| || s[n] == 0x23);
      assert forall i :: 0 <= i < n ==> s[..n][i] == s[i];
      assert n == |s| ==> s[..n] == s;
    }
  }

  // ----- Documents -----

  /** Lines in front of the start marker, the marker, the lines of the document, and its end marker. */
  datatype Document = Document(head: seq<Line>, start: Option<Line>, body: seq<Line>, end: Option<Line>)

  function Single(line: Option<Line>): seq<Line> {
    if line.None? then [] else [line.value]
  }

  function LinesOf(d: Document): seq<Line> {
    d.head + Single(d.start) + d.body + Single(d.end)
  }

  function AllLines(docs: seq<Document>): seq<Line> {
    if docs == [] then [] else LinesOf(docs[0]) + AllLines(docs[1..])
  }

  function LineBytes(lines: seq<Line>): Bytes {
    if lines == [] then [] else lines[0].text + lines[0].end + LineBytes(lines[1..])
  }

  predicate Shaped(d: Document) {
    && LinesOf(d) != []
    && (forall i :: 0 <= i < |d.head| ==> PercentLine(d.head[i].text) || EmptyLine(d.head[i].text))
    && (forall i :: 0 <= i < |d.head| ==> !DashLine(d.head[i].text) && !DotLine(d.head[i].text))
    && (forall i :: 0 <= i < |d.body| ==> !DashLine(d.body[i].text) && !DotLine(d.body[i].text))
    && (d.start.Some? ==> DashLine(d.start.value.text))
    && (d.end.Some? ==> DotLine(d.end.value.text))
    && (d.start.None? ==> d.head == [])
  }

  /** Whether a following `---` would begin another document. */
  predicate Opened(d: Document) {
    d.start.Some? || exists i :: 0 <= i < |d.body| && OtherLine(d.body[i].text)
  }

  /** Whether the document is worth a decode call. */
  predicate Worth(d: Document) {
    Opened(d) || exists i :: 0 <= i < |d.body| && PercentLine(d.body[i].text)
  }

  /** Each document is over before the next begins: by its own end marker, or by the next `---`. */
  predicate Parted(docs: seq<Document>) {
    forall i :: 0 <= i < |docs| - 1 ==>
      docs[i].end.Some? || (Opened(docs[i]) && docs[i + 1].start.Some? && docs[i + 1].head == [])
  }

  /** No CR that ends a line has the LF of an empty line right behind it. */
  predicate Unmixed(lines: seq<Line>) {
    forall i :: 0 <= i < |lines| - 1 && lines[i].end == [0x0D] ==>
      lines[i + 1].text != [] || lines[i + 1].end == [0x0D] || lines[i + 1].end == [0x0D, 0x0A]
  }

  predicate Stream(docs: seq<Document>) {
    && (forall i :: 0 <= i < |docs| ==> Shaped(docs[i]))
    && Parted(docs)
    && (forall line <- AllLines(docs) :: Proper(line))
    && Unmixed(AllLines(docs))
  }

  /**
    One decode call for each document worth one, with its bytes at its place. One that the
    next `---` ended is closed by the four bytes of an end marker line.
   */
  function Calls(docs: seq<Document>, offset: nat): seq<Request> {
    if docs == [] then []
    else
      var bytes := LineBytes(LinesOf(docs[0]));
      var closing: Bytes := if docs[0].end.None? && |docs| > 1 then [0x2E, 0x2E, 0x2E, 0x0A] else [];
      (if Worth(docs[0]) then [Request(bytes + closing, offset)] else [])
      + Calls(docs[1..], offset + |bytes|)
  }

  // ----- Their lines -----

  function Frames(lines: seq<Line>, offset: nat): (frames: seq<Frame>)
    ensures |frames| == |lines|
    ensures forall i :: 0 <= i < |lines| ==> frames[i].line == lines[i].text
  {
    if lines == [] then []
    else
      var framed := lines[0].text + lines[0].end;
      [Frame(framed, lines[0].text, offset)] + Frames(lines[1..], offset + |framed|)
  }

  lemma {:induction false} FramesSplit(lines: seq<Line>, offset: nat)
    requires (forall line <- lines :: Proper(line)) && Unmixed(lines)
    ensures SplitLines(LineBytes(lines), offset) == Frames(lines, offset)
  {
    hide SplitLines, Proper, Unmixed, ClosedBefore, BreakFree, LineBytes, Frames;
    LinesStep(lines, offset);
    SplitCons([], offset);
    if lines != [] {
      var first, rest := lines[0], lines[1..];
      var framed := first.text + first.end;
      assert Proper(first) && forall line <- rest :: line in lines;
      BreakFreeLine(first);
      SplitOne(first.text, first.end, offset);
      UnmixedTail(lines);
      FramesSplit(rest, offset + |framed|);
      if rest == [] {
        assert framed + [] == framed;
      } else {
        LineCloses(lines);
        SplitAppend(framed, LineBytes(rest), offset);
      }
    }
  }

  lemma LinesStep(lines: seq<Line>, offset: nat)
    ensures lines == [] ==> LineBytes(lines) == [] && Frames(lines, offset) == []
    ensures lines != [] ==>
      var framed := lines[0].text + lines[0].end;
      && LineBytes(lines) == framed + LineBytes(lines[1..])
      && Frames(lines, offset) == [Frame(framed, lines[0].text, offset)] + Frames(lines[1..], offset + |framed|)
    ensures lines != [] && lines[1..] == [] ==>
      LineBytes(lines[1..]) == [] && Frames(lines[1..], offset + |lines[0].text + lines[0].end|) == []
  {
  }

  lemma UnmixedTail(lines: seq<Line>)
    requires lines != [] && Unmixed(lines)
    ensures Unmixed(lines[1..])
  {
    assert forall i :: 0 <= i < |lines[1..]| ==> lines[1..][i] == lines[i + 1];
  }

  lemma LineCloses(lines: seq<Line>)
    requires |lines| > 1 && (forall line <- lines :: Proper(line)) && Unmixed(lines)
    ensures ClosedBefore(lines[0].text + lines[0].end, LineBytes(lines[1..]))
  {
    var framed, next := lines[0].text + lines[0].end, lines[1];
    assert Proper(lines[0]) && Proper(next) && lines[1..][0] == next;
    assert framed[|framed| - 1] == lines[0].end[|lines[0].end| - 1];
    var rest := LineBytes(lines[1..]);
    assert rest[0] == if next.text == [] then next.end[0] else next.text[0];
    assert next.text != [] ==> next.text[0] in next.text;
  }

  lemma BreakFreeLine(line: Line)
    requires Proper(line)
    ensures BreakFree(line.text) && line.end in {[], [LF], [CR], [CR, LF]} && line.end != []
  {
  }

  lemma {:induction false} LineBytesAppend(a: seq<Line>, b: seq<Line>)
    ensures LineBytes(a + b) == LineBytes(a) + LineBytes(b)
  {
    if a == [] {
      assert a + b == b;
    } else {
      assert (a + b)[1..] == a[1..] + b;
      LineBytesAppend(a[1..], b);
      Associative(a[0].text + a[0].end, LineBytes(a[1..]), LineBytes(b));
    }
  }

  lemma {:induction false} FramesAppend(a: seq<Line>, b: seq<Line>, offset: nat)
    ensures Frames(a + b, offset) == Frames(a, offset) + Frames(b, offset + |LineBytes(a)|)
  {
    if a == [] {
      assert a + b == b;
    } else {
      var framed := a[0].text + a[0].end;
      assert (a + b)[1..] == a[1..] + b;
      FramesAppend(a[1..], b, offset + |framed|);
      Associative([Frame(framed, a[0].text, offset)], Frames(a[1..], offset + |framed|),
                  Frames(b, offset + |LineBytes(a)|));
    }
  }

  lemma {:induction false} FramesConserve(lines: seq<Line>, offset: nat)
    ensures Framed(Frames(lines, offset)) == LineBytes(lines)
  {
    if lines != [] {
      var framed := lines[0].text + lines[0].end;
      FramesConserve(lines[1..], offset + |framed|);
      FramedCons(Frame(framed, lines[0].text, offset), Frames(lines[1..], offset + |framed|));
    }
  }

  // ----- A document is one segment -----

  /** What the splitter sees of a document. */
  lemma DocumentLines(d: Document, i: nat)
    requires i < |LinesOf(d)|
    ensures LinesOf(d)[i]
         == if i < |d.head| then d.head[i]
            else if i < |d.head| + |Single(d.start)| then d.start.value
            else if i < |d.head| + |Single(d.start)| + |d.body| then d.body[i - |d.head| - |Single(d.start)|]
            else d.end.value
  {
  }

  lemma DotIsNoOther(text: Bytes)
    ensures DotLine(text) ==> !DashLine(text) && !OtherLine(text) && !PercentLine(text)
    ensures DashLine(text) ==> !OtherLine(text) && !PercentLine(text)
  {
    assert DotLine(text) ==> text[0] == [0x2E, 0x2E, 0x2E][0];
    assert DashLine(text) ==> text[0] == [0x2D, 0x2D, 0x2D][0];
    assert PercentLine(text) ==> text[0] == [0x25][0];
  }

  /** Which lines of a document are what. */
  lemma DocumentKinds(d: Document, i: nat)
    requires Shaped(d) && i < |LinesOf(d)|
    ensures DashLine(LinesOf(d)[i].text) <==> d.start.Some? && i == |d.head|
    ensures DotLine(LinesOf(d)[i].text) <==> d.end.Some? && i == |LinesOf(d)| - 1
    ensures OtherLine(LinesOf(d)[i].text) ==> i >= |d.head|
  {
    DocumentLines(d, i);
    DotIsNoOther(LinesOf(d)[i].text);
  }

  lemma DocumentSegment(d: Document, offset: nat)
    requires Shaped(d) && forall line <- LinesOf(d) :: Proper(line)
    ensures var s := Frames(LinesOf(d), offset);
      && s != [] && Uncut(s) && (EndsInEnd(s) <==> d.end.Some?)
      && (IsStart(s[0]) <==> d.start.Some? && d.head == [])
  {
    hide LinesOf, Shaped, DashLine, DotLine, OtherLine, IsStart, IsEnd, IsContent;
    var lines := LinesOf(d);
    var s := Frames(lines, offset);
    SomeLine(d);
    forall i: nat | i < |s|
      ensures IsStart(s[i]) <==> d.start.Some? && i == |d.head|
      ensures IsEnd(s[i]) <==> d.end.Some? && i == |s| - 1
      ensures IsContent(s[i]) ==> i >= |d.head|
    {
      assert lines[i] in lines && Proper(lines[i]);
      DocumentKinds(d, i);
      LineKinds(s[i]);
    }
    forall k | 0 < k < |s| ensures !Cut(s[..k], s[k]) {
      assert s[..k][k - 1] == s[k - 1];
    }
  }

  lemma SomeLine(d: Document)
    requires Shaped(d)
    ensures LinesOf(d) != []
  {
  }

  lemma DocumentOpened(d: Document, offset: nat)
    requires Shaped(d) && forall line <- LinesOf(d) :: Proper(line)
    ensures var s := Frames(LinesOf(d), offset);
      && (HasStart(s) || HasContent(s) <==> Opened(d))
      && (Decoded(s) <==> Worth(d))
  {
    hide DashLine, DotLine, OtherLine, PercentLine, EmptyLine, IsStart, IsEnd, IsContent, IsDirective;
    var lines := LinesOf(d);
    var s := Frames(lines, offset);
    forall i: nat | i < |s|
      ensures IsStart(s[i]) <==> d.start.Some? && i == |d.head|
      ensures IsContent(s[i]) <==> OtherLine(lines[i].text)
      ensures IsDirective(s[i]) <==> PercentLine(lines[i].text)
      ensures OtherLine(lines[i].text) ==> i >= |d.head|
    {
      assert lines[i] in lines && Proper(lines[i]);
      DocumentKinds(d, i);
      LineKinds(s[i]);
    }
    if d.start.Some? {
      DocumentLines(d, |d.head|);
      assert IsStart(s[|d.head|]);
    } else {
      BareLines(d);
      forall i: nat | i < |d.body| ensures lines[i] == d.body[i] {
        DocumentLines(d, i);
      }
      if d.end.Some? {
        DocumentLines(d, |d.body|);
        assert !OtherLine(lines[|d.body|].text) && !PercentLine(lines[|d.body|].text) by {
          DotIsNoOther(d.end.value.text);
        }
      }
      BareOpened(d, lines, s);
    }
  }

  lemma BareLines(d: Document)
    requires Shaped(d) && d.start.None?
    ensures d.head == [] && |LinesOf(d)| == |d.body| + |Single(d.end)|
  {
  }

  /** A document without start marker, whose end marker is nothing but that. */
  lemma BareOpened(d: Document, lines: seq<Line>, s: seq<Frame>)
    requires d.start.None? && |lines| == |s| && |d.body| <= |lines| <= |d.body| + 1
    requires forall i :: 0 <= i < |d.body| ==> lines[i] == d.body[i]
    requires forall i :: 0 <= i < |s| ==>
      && !IsStart(s[i]) && (IsContent(s[i]) <==> OtherLine(lines[i].text))
      && (IsDirective(s[i]) <==> PercentLine(lines[i].text))
    requires |lines| > |d.body| ==> !OtherLine(lines[|d.body|].text) && !PercentLine(lines[|d.body|].text)
    ensures HasStart(s) || HasContent(s) <==> Opened(d)
    ensures Decoded(s) <==> Worth(d)
  {
    hide OtherLine, PercentLine, IsStart, IsContent, IsDirective;
    if exists i :: 0 <= i < |d.body| && OtherLine(d.body[i].text) {
      var i :| 0 <= i < |d.body| && OtherLine(d.body[i].text);
      assert IsContent(s[i]);
    }
    if exists i :: 0 <= i < |d.body| && PercentLine(d.body[i].text) {
      var i :| 0 <= i < |d.body| && PercentLine(d.body[i].text);
      assert IsDirective(s[i]);
    }
    if HasContent(s) {
      var i :| 0 <= i < |s| && IsContent(s[i]);
      assert OtherLine(d.body[i].text);
    }
    if HasDirective(s) {
      var i :| 0 <= i < |s| && IsDirective(s[i]);
      assert PercentLine(d.body[i].text);
    }
  }

  // ----- The decode calls of a stream -----

  function Segments(docs: seq<Document>, offset: nat): seq<seq<Frame>> {
    if docs == [] then []
    else
      [Frames(LinesOf(docs[0]), offset)] + Segments(docs[1..], offset + |LineBytes(LinesOf(docs[0]))|)
  }

  lemma {:induction false} SegmentsFlatten(docs: seq<Document>, offset: nat)
    ensures Flatten(Segments(docs, offset)) == Frames(AllLines(docs), offset)
  {
    hide LinesOf, Frames, LineBytes;
    if docs == [] {
      NoFrames(offset);
    } else {
      var lines := LinesOf(docs[0]);
      var next := offset + |LineBytes(lines)|;
      SegmentsFlatten(docs[1..], next);
      FramesAppend(lines, AllLines(docs[1..]), offset);
      FlattenCons(Frames(lines, offset), Segments(docs[1..], next));
    }
  }

  lemma NoFrames(offset: nat)
    ensures Frames([], offset) == []
  {
  }

  lemma DocumentProper(docs: seq<Document>)
    requires docs != [] && forall line <- AllLines(docs) :: Proper(line)
    ensures forall line <- LinesOf(docs[0]) :: Proper(line)
    ensures forall line <- AllLines(docs[1..]) :: Proper(line)
  {
  }

  lemma PartedTail(docs: seq<Document>)
    requires docs != [] && Parted(docs)
    ensures Parted(docs[1..])
  {
    hide Opened;
    var rest := docs[1..];
    forall i | 0 <= i < |rest| - 1
      ensures rest[i].end.Some? || (Opened(rest[i]) && rest[i + 1].start.Some? && rest[i + 1].head == [])
    {
      assert rest[i] == docs[i + 1] && rest[i + 1] == docs[i + 2];
    }
  }

  lemma {:induction false} DocumentsAreSegments(docs: seq<Document>, offset: nat)
    requires (forall i :: 0 <= i < |docs| ==> Shaped(docs[i])) && Parted(docs)
    requires forall line <- AllLines(docs) :: Proper(line)
    ensures var segments := Segments(docs, offset);
      && IsSegmentation(segments, Flatten(segments)) && SegmentRequests(segments) == Calls(docs, offset)
  {
    hide LinesOf, Frames, LineBytes, Shaped, Opened, Worth, Flatten, Uncut, Decoded, AllLines;
    hide IsStart, IsEnd, HasStart, HasContent, EndsInEnd, Framed, Proper;
    if docs == [] {
      FlattenNone<Frame>();
    } else {
      var d, rest := docs[0], docs[1..];
      var lines := LinesOf(d);
      var segment, next := Frames(lines, offset), offset + |LineBytes(lines)|;
      DocumentProper(docs);
      DocumentSegment(d, offset);
      DocumentOpened(d, offset);
      PartedTail(docs);
      DocumentsAreSegments(rest, next);
      if rest != [] {
        DocumentProper(rest);
        DocumentSegment(rest[0], next);
        assert Segments(rest, next)[0] == Frames(LinesOf(rest[0]), next);
        assert rest[0] == docs[1];
      }
      SegmentInFront(segment, Segments(rest, next));
      FramesConserve(lines, offset);
      FirstFrameAt(d, offset);
      assert Segments(docs, offset) == [segment] + Segments(rest, next);
      assert ([segment] + Segments(rest, next))[1..] == Segments(rest, next);
      SegmentCount(rest, next);
    }
  }

  lemma {:induction false} SegmentCount(docs: seq<Document>, offset: nat)
    ensures |Segments(docs, offset)| == |docs|
  {
    if docs != [] { SegmentCount(docs[1..], offset + |LineBytes(LinesOf(docs[0]))|); }
  }

  lemma FirstFrameAt(d: Document, offset: nat)
    requires LinesOf(d) != []
    ensures Frames(LinesOf(d), offset)[0].start == offset
  {
  }

  /** A stream of documents comes to exactly these decode calls. */
  lemma StreamCalls(docs: seq<Document>)
    requires Stream(docs)
    ensures Requests(SplitLines(LineBytes(AllLines(docs)), 0)) == Calls(docs, 0)
  {
    hide SplitLines, Requests, IsSegmentation, SegmentRequests, Calls, Segments, Shaped, Parted;
    FramesSplit(AllLines(docs), 0);
    SegmentsFlatten(docs, 0);
    DocumentsAreSegments(docs, 0);
    RequestsOfSegmentation(Flatten(Segments(docs, 0)), Segments(docs, 0));
  }

  /** And `yamlDocumentStream`, over any chunks of it, answers those. */
  lemma StreamAnswers<V>(docs: seq<Document>, chunks: seq<Chunk>, loads: Loader<V>)
    requires Stream(docs) && StreamBytes(chunks) == LineBytes(AllLines(docs))
    ensures YamlStream.StreamOutcome(chunks, loads) == Answer(Calls(docs, 0), loads)
  {
    hide SplitLines, Requests, StreamBytes, Answer, Calls, Stream;
    StreamCalls(docs);
  }

  // ----- In plain bytes -----

  /** A line of three dashes and what is behind them. */
  function Dashes(tail: Bytes, end: Bytes): Line { Line([0x2D, 0x2D, 0x2D] + tail, end) }

  function Dots(tail: Bytes, end: Bytes): Line { Line([0x2E, 0x2E, 0x2E] + tail, end) }

  /** A tail that leaves a marker a marker. */
  predicate MarkerTail(tail: Bytes, end: Bytes) { OneLine(tail) && OneBreak(end) && Spaced(tail) }

  lemma MarkerLines(tail: Bytes, end: Bytes)
    requires MarkerTail(tail, end)
    ensures Proper(Dashes(tail, end)) && DashLine(Dashes(tail, end).text)
    ensures Proper(Dots(tail, end)) && DotLine(Dots(tail, end).text)
  {
    assert ([0x2D, 0x2D, 0x2D] + tail)[3..] == tail && ([0x2E, 0x2E, 0x2E] + tail)[3..] == tail;
  }

  /** Lines with something on them. */
  predicate Filled(lines: seq<Line>) { forall line <- lines :: Proper(line) && line.text != [] }

  lemma FilledStream(a: Document, b: Document)
    requires Shaped(a) && Shaped(b) && Filled(LinesOf(a)) && Filled(LinesOf(b))
    requires a.end.Some? || (Opened(a) && b.start.Some? && b.head == [])
    ensures Stream([a, b]) && AllLines([a, b]) == LinesOf(a) + LinesOf(b)
  {
    hide Shaped, LinesOf, Opened, Proper;
    var docs := [a, b];
    assert docs[1..] == [b] && [b][1..] == [];
    assert AllLines([b]) == LinesOf(b) + AllLines([b][1..]);
    var lines := LinesOf(a) + LinesOf(b);
    forall line | line in lines ensures Proper(line) && line.text != [] {
      assert line in LinesOf(a) || line in LinesOf(b);
    }
    forall i | 0 <= i < |lines| - 1 && lines[i].end == [0x0D] ensures lines[i + 1].text != [] {
      assert lines[i + 1] in lines;
    }
  }

  /** Two documents are two decode calls. */
  lemma TwoDocuments<V>(a: Document, b: Document, first: Bytes, second: Bytes, chunks: seq<Chunk>, loads: Loader<V>)
    requires Shaped(a) && Shaped(b) && Filled(LinesOf(a)) && Filled(LinesOf(b)) && Worth(a) && Worth(b)
    requires a.end.Some? || (Opened(a) && b.start.Some? && b.head == [])
    requires first == LineBytes(LinesOf(a)) && second == LineBytes(LinesOf(b))
    requires StreamBytes(chunks) == first + second
    ensures var closed := if a.end.Some? then first else first + [0x2E, 0x2E, 0x2E, 0x0A];
      && Requests(SplitLines(StreamBytes(chunks), 0)) == [Request(closed, 0), Request(second, |first|)]
      && (loads(closed).Loaded? && loads(second).Loaded? ==>
            YamlStream.StreamOutcome(chunks, loads)
            == Outcome([loads(closed).value, loads(second).value], Running))
  {
    hide Shaped, LinesOf, Filled, Opened, Worth, StreamBytes, SplitLines, Requests, LineBytes, Stream, AllLines;
    var docs := [a, b];
    FilledStream(a, b);
    LineBytesAppend(LinesOf(a), LinesOf(b));
    StreamCalls(docs);
    StreamAnswers(docs, chunks, loads);
    var closed := if a.end.Some? then first else first + [0x2E, 0x2E, 0x2E, 0x0A];
    TwoCalls(a, b);
    assert first + [] == first && second + [] == second;
    assert Calls(docs, 0) == [Request(closed, 0), Request(second, |first|)];
    hide Answer;
    TwoAnswers(Request(closed, 0), Request(second, |first|), loads);
  }

  lemma TwoCalls(a: Document, b: Document)
    requires Worth(a) && Worth(b)
    ensures var first, second := LineBytes(LinesOf(a)), LineBytes(LinesOf(b));
      Calls([a, b], 0)
      == [Request(first + (if a.end.None? then [0x2E, 0x2E, 0x2E, 0x0A] else []), 0), Request(second + [], |first|)]
  {
    hide Worth, LineBytes, LinesOf;
    assert [a, b][1..] == [b] && [b][1..] == [];
    var n := |LineBytes(LinesOf(a))|;
    assert Calls([], n + |LineBytes(LinesOf(b))|) == [];
    assert Calls([b], n) == [Request(LineBytes(LinesOf(b)) + [], n)];
  }

  lemma TwoAnswers<V>(a: Request, b: Request, loads: Loader<V>)
    ensures loads(a.bytes).Loaded? && loads(b.bytes).Loaded? ==>
              Answer([a, b], loads) == Outcome([loads(a.bytes).value, loads(b.bytes).value], Running)
  {
    OneAnswer(a, loads);
    AnswerSnoc([a], b, loads);
    assert [a] + [b] == [a, b];
    hide Answer;
  }

  /** A line without text in front or behind it. */
  lemma LineAlone(a: Line)
    ensures LineBytes([a]) == a.text + a.end
  {
    assert [a][1..] == [];
  }

  /** Two `---` lines, whatever stands behind a blank on them, are two documents. */
  lemma TwoStarts<V>(a: Bytes, s: Bytes, b: Bytes, t: Bytes, chunks: seq<Chunk>, loads: Loader<V>)
    requires MarkerTail(a, s) && MarkerTail(b, t)
    requires StreamBytes(chunks) == ([0x2D, 0x2D, 0x2D] + a + s) + ([0x2D, 0x2D, 0x2D] + b + t)
    ensures var first, second := [0x2D, 0x2D, 0x2D] + a + s, [0x2D, 0x2D, 0x2D] + b + t;
      var closed := first + [0x2E, 0x2E, 0x2E, 0x0A];
      && Requests(SplitLines(StreamBytes(chunks), 0)) == [Request(closed, 0), Request(second, |first|)]
      && (loads(closed).Loaded? && loads(second).Loaded? ==>
            YamlStream.StreamOutcome(chunks, loads)
            == Outcome([loads(closed).value, loads(second).value], Running))
  {
    hide DashLine, DotLine, OneLine, StreamBytes, SplitLines, Requests, LineBytes, Answer;
    var x, y := Dashes(a, s), Dashes(b, t);
    MarkerLines(a, s);
    MarkerLines(b, t);
    LineAlone(x);
    LineAlone(y);
    var first, second := Document([], Some(x), [], None), Document([], Some(y), [], None);
    assert LinesOf(first) == [x] && LinesOf(second) == [y];
    TwoDocuments(first, second, x.text + x.end, y.text + y.end, chunks, loads);
  }

  /** A `...` line ends its document, and the `---` line behind it begins another: nothing is added. */
  lemma EndThenStart<V>(
    a: Bytes, s: Bytes, b: Bytes, t: Bytes, c: Bytes, u: Bytes, chunks: seq<Chunk>, loads: Loader<V>)
    requires MarkerTail(a, s) && MarkerTail(b, t) && MarkerTail(c, u)
    requires StreamBytes(chunks)
          == (([0x2D, 0x2D, 0x2D] + a + s) + ([0x2E, 0x2E, 0x2E] + b + t)) + ([0x2D, 0x2D, 0x2D] + c + u)
    ensures var first := ([0x2D, 0x2D, 0x2D] + a + s) + ([0x2E, 0x2E, 0x2E] + b + t);
      var second := [0x2D, 0x2D, 0x2D] + c + u;
      && Requests(SplitLines(StreamBytes(chunks), 0)) == [Request(first, 0), Request(second, |first|)]
      && (loads(first).Loaded? && loads(second).Loaded? ==>
            YamlStream.StreamOutcome(chunks, loads)
            == Outcome([loads(first).value, loads(second).value], Running))
  {
    hide DashLine, DotLine, OneLine, StreamBytes, SplitLines, Requests, LineBytes, Answer;
    var x, y, z := Dashes(a, s), Dots(b, t), Dashes(c, u);
    MarkerLines(a, s);
    MarkerLines(b, t);
    MarkerLines(c, u);
    LineAlone(x);
    LineAlone(y);
    LineAlone(z);
    LineBytesAppend([x], [y]);
    var first, second := Document([], Some(x), [], Some(y)), Document([], Some(z), [], None);
    assert LinesOf(first) == [x] + [y] && LinesOf(second) == [z];
    TwoDocuments(first, second, (x.text + x.end) + (y.text + y.end), z.text + z.end, chunks, loads);
  }

  /** Any other byte behind three dashes or dots makes an ordinary line. */
  lemma OrdinaryLine(mark: Byte, next: Byte, tail: Bytes)
    requires (mark == 0x2D || mark == 0x2E) && next != 0x20 && next != 0x09
    ensures var text := [mark, mark, mark, next] + tail;
      OtherLine(text) && !DashLine(text) && !DotLine(text)
  {
    var text := [mark, mark, mark, next] + tail;
    assert text[3..][0] == next && text[0] == mark;
    assert DashLine(text) ==> Spaced(text[3..]);
    assert DotLine(text) ==> Spaced(text[3..]);
  }

  /** Lines of which none is a marker never make a boundary: they are one document, one decode call. */
  lemma NoBoundary<V>(lines: seq<Line>, i: nat, chunks: seq<Chunk>, loads: Loader<V>)
    requires i < |lines| && OtherLine(lines[i].text)
    requires forall line <- lines :: Proper(line) && !DashLine(line.text) && !DotLine(line.text)
    requires Unmixed(lines) && StreamBytes(chunks) == LineBytes(lines)
    ensures Requests(SplitLines(StreamBytes(chunks), 0)) == [Request(StreamBytes(chunks), 0)]
    ensures loads(StreamBytes(chunks)).Loaded? ==>
              YamlStream.StreamOutcome(chunks, loads) == Outcome([loads(StreamBytes(chunks)).value], Running)
  {
    hide DashLine, DotLine, OtherLine, Proper, StreamBytes, SplitLines, Requests, LineBytes, Unmixed, Calls;
    var d := Document([], None, lines, None);
    assert LinesOf(d) == lines && AllLines([d]) == lines by {
      assert [d][1..] == [];
      assert AllLines([d]) == LinesOf(d) + AllLines([d][1..]);
    }
    StreamCalls([d]);
    StreamAnswers([d], chunks, loads);
    OneCall(d);
    OneAnswer(Request(StreamBytes(chunks), 0), loads);
    hide Answer;
  }

  lemma OneCall(d: Document)
    requires Worth(d)
    ensures Calls([d], 0) == [Request(LineBytes(LinesOf(d)), 0)]
  {
    hide Worth, LineBytes, LinesOf;
    var bytes := LineBytes(LinesOf(d));
    assert [d][1..] == [] && bytes + [] == bytes;
    assert Calls([], |bytes|) == [];
  }

  lemma OneAnswer<V>(a: Request, loads: Loader<V>)
    ensures loads(a.bytes).Loaded? ==> Answer([a], loads) == Outcome([loads(a.bytes).value], Running)
  {
    assert [a][..0] == [];
  }
}
