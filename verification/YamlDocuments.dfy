/**
  YAML documents of a byte stream: `yamlMarker`, `yamlPreambleLine`, `yamlDirectiveLine`
  and `yamlDocumentStream` of node/binding.js.

  A document ends in front of a `---` line once a marker or content was seen, and after
  every `...` line (markers as in section 9.1.2 of YAML 1.2.2).
 */
module YamlDocuments {
  import opened Sequences
  import opened YamlLines
  import opened Decoding

  const DASH: Byte := 0x2D
  const DOT: Byte := 0x2E
  const HASH: Byte := 0x23
  const PERCENT: Byte := 0x25
  const SPACE: Byte := 0x20
  const TAB: Byte := 0x09

  /** The explicit end marker line that is appended in front of a following `---`. */
  const YAML_EXPLICIT_END: Bytes := [DOT, DOT, DOT, LF]

  // ----- Kinds of lines -----

  predicate Blank(b: Byte) { b == SPACE || b == TAB }

  /** `yamlMarker(line, ...)` for the marker made of three of the given byte. */
  predicate YamlMarker(line: Bytes, marker: Byte) {
    && |line| >= 3
    && line[0] == marker && line[1] == marker && line[2] == marker
    && (|line| == 3 || Blank(line[3]))
  }

  predicate YamlDirectiveLine(line: Bytes) {
    line != [] && line[0] == PERCENT
  }

  predicate BlankLine(line: Bytes) { forall i :: 0 <= i < |line| ==> Blank(line[i]) }

  predicate CommentLine(line: Bytes) {
    exists k :: 0 <= k < |line| && line[k] == HASH && BlankLine(line[..k])
  }

  /** Lines that may stand in front of a document without starting it. */
  predicate PreambleLine(line: Bytes) {
    var s := StripReturn(line);
    BlankLine(s) || CommentLine(s) || YamlDirectiveLine(s)
  }

  /** `yamlPreambleLine`: one scan over the leading blanks. */
  method YamlPreambleLine(line: Bytes) returns (preamble: bool)
    ensures preamble == PreambleLine(line)
  {
    var end := |line|;
    if end != 0 && line[end - 1] == CR {
      end := end - 1;
    }
    var index := 0;
    while index < end && (line[index] == SPACE || line[index] == TAB)
      invariant index <= end
      invariant BlankLine(line[..index])
    {
      assert line[..index + 1] == line[..index] + [line[index]];
      index := index + 1;
    }
    ghost var s := line[..end];
    assert s == StripReturn(line) && s[..index] == line[..index];
    if index == end {
      return true;
    }
    FirstNonBlank(s, index);
    return line[index] == HASH || (index == 0 && line[index] == PERCENT);
  }

  /** The first byte that is not blank settles what kind of line this is. */
  lemma FirstNonBlank(s: Bytes, index: nat)
    requires index < |s| && BlankLine(s[..index]) && !Blank(s[index])
    ensures !BlankLine(s)
    ensures CommentLine(s) <==> s[index] == HASH
    ensures YamlDirectiveLine(s) <==> index == 0 && s[0] == PERCENT
  {
    assert forall k :: 0 <= k < index ==> s[k] == s[..index][k];
    assert s[index] == HASH ==> CommentLine(s);
    if 0 < index {
      assert s[..index][0] == s[0];
    }
    forall k | index < k <= |s| ensures !BlankLine(s[..k]) {
      assert s[..k][index] == s[index];
    }
  }

  predicate IsStart(f: Frame) { YamlMarker(f.line, DASH) }

  predicate IsEnd(f: Frame) { YamlMarker(f.line, DOT) }

  predicate IsDirective(f: Frame) { YamlDirectiveLine(f.line) }

  predicate IsContent(f: Frame) {
    !IsStart(f) && !IsEnd(f) && !IsDirective(f) && !PreambleLine(f.line)
  }

  // ----- The declarative splitter -----

  predicate HasStart(lines: seq<Frame>) { exists i :: 0 <= i < |lines| && IsStart(lines[i]) }

  predicate HasContent(lines: seq<Frame>) { exists i :: 0 <= i < |lines| && IsContent(lines[i]) }

  predicate HasDirective(lines: seq<Frame>) { exists i :: 0 <= i < |lines| && IsDirective(lines[i]) }

  predicate EndsInEnd(lines: seq<Frame>) { lines != [] && IsEnd(lines[|lines| - 1]) }

  /** Whether a boundary falls between the lines since the last boundary and the next line. */
  predicate Cut(since: seq<Frame>, next: Frame) {
    EndsInEnd(since) || (IsStart(next) && (HasStart(since) || HasContent(since)))
  }

  /** Segments are the stretches of lines between boundaries: a partition cut where Cut says, only there. */
  ghost predicate IsSegmentation(segments: seq<seq<Frame>>, lines: seq<Frame>) {
    && Flatten(segments) == lines
    && (forall i :: 0 <= i < |segments| ==> segments[i] != [])
    && (forall i :: 0 <= i < |segments| - 1 ==> Cut(segments[i], segments[i + 1][0]))
    && (forall i :: 0 <= i < |segments| ==> Uncut(segments[i]))
  }

  ghost predicate Uncut(segment: seq<Frame>) {
    forall k :: 0 < k < |segment| ==> !Cut(segment[..k], segment[k])
  }

  /** The segments that are over, and the one that may still grow. */
  datatype Split = Split(closed: seq<seq<Frame>>, open: seq<Frame>) {
    function Segments(): seq<seq<Frame>> {
      if open == [] then closed else closed + [open]
    }
  }

  /** The segmentation, line by line. */
  function SplitDocuments(lines: seq<Frame>): Split {
    if lines == [] then Split([], [])
    else AddLine(SplitDocuments(lines[..|lines| - 1]), lines[|lines| - 1])
  }

  function AddLine(split: Split, next: Frame): Split {
    var cut := IsStart(next) && (HasStart(split.open) || HasContent(split.open));
    var closed := if cut then split.closed + [split.open] else split.closed;
    var open := if cut then [next] else split.open + [next];
    if IsEnd(next) then Split(closed + [open], []) else Split(closed, open)
  }

  /** Whether a segment is handed to the parser at all. */
  predicate Decoded(segment: seq<Frame>) {
    HasStart(segment) || HasContent(segment) || HasDirective(segment)
  }

  /** Where a segment stands in the stream. */
  function Start(segment: seq<Frame>): nat {
    if segment == [] then 0 else segment[0].start
  }

  /** The decode call for a segment; one cut by a following `---` gets an explicit end marker. */
  function RequestFor(segment: seq<Frame>, cutByStart: bool): Request {
    Request(Framed(segment) + (if cutByStart then YAML_EXPLICIT_END else []), Start(segment))
  }

  /** The decode calls of segments that are known to be over. */
  function ClosedRequests(segments: seq<seq<Frame>>): seq<Request> {
    if segments == [] then []
    else
      var n := |segments| - 1;
      var last := segments[n];
      ClosedRequests(segments[..n]) + if Decoded(last) then [RequestFor(last, !EndsInEnd(last))] else []
  }

  /** The decode calls made once these lines were seen, and no others. */
  function Made(lines: seq<Frame>): seq<Request> {
    ClosedRequests(SplitDocuments(lines).closed)
  }

  /** All decode calls of a whole stream of lines. */
  function Requests(lines: seq<Frame>): seq<Request> {
    var open := SplitDocuments(lines).open;
    Made(lines) + if open != [] && Decoded(open) then [RequestFor(open, false)] else []
  }

  // ----- Properties of the splitter -----

  lemma SplitSnoc(lines: seq<Frame>, next: Frame)
    ensures SplitDocuments(lines + [next]) == AddLine(SplitDocuments(lines), next)
  {
    hide AddLine;
    assert (lines + [next])[..|lines|] == lines;
  }

  lemma AnyAppend(lines: seq<Frame>, next: Frame)
    ensures HasStart(lines + [next]) <==> HasStart(lines) || IsStart(next)
    ensures HasContent(lines + [next]) <==> HasContent(lines) || IsContent(next)
    ensures HasDirective(lines + [next]) <==> HasDirective(lines) || IsDirective(next)
  {
    hide IsStart, IsContent, IsDirective;
    var all := lines + [next];
    assert all[|lines|] == next;
    assert forall i :: 0 <= i < |lines| ==> all[i] == lines[i];
    assert HasStart(lines) ==> HasStart(all) by {
      if HasStart(lines) { var i :| 0 <= i < |lines| && IsStart(lines[i]); assert IsStart(all[i]); }
    }
    assert HasContent(lines) ==> HasContent(all) by {
      if HasContent(lines) { var i :| 0 <= i < |lines| && IsContent(lines[i]); assert IsContent(all[i]); }
    }
    assert HasDirective(lines) ==> HasDirective(all) by {
      if HasDirective(lines) { var i :| 0 <= i < |lines| && IsDirective(lines[i]); assert IsDirective(all[i]); }
    }
  }

  lemma {:induction false} ClosedRequestsSnoc(segments: seq<seq<Frame>>, last: seq<Frame>)
    ensures ClosedRequests(segments + [last])
         == ClosedRequests(segments) + if Decoded(last) then [RequestFor(last, !EndsInEnd(last))] else []
  {
    hide Decoded, RequestFor, EndsInEnd;
    assert (segments + [last])[..|segments|] == segments;
  }

  // ----- The splitter is the declarative segmentation -----

  /** Everything the segmentation needs to know about the segments so far. */
  ghost predicate GoodSplit(split: Split) {
    && IsSegmentation(split.Segments(), Flatten(split.Segments()))
    && (split.open == [] ==> split.closed == [] || EndsInEnd(split.closed[|split.closed| - 1]))
    && !EndsInEnd(split.open)
  }

  /** A partition stays a segmentation when a segment starting at a boundary is added. */
  lemma SegmentAdded(segments: seq<seq<Frame>>, next: Frame)
    requires IsSegmentation(segments, Flatten(segments))
    requires segments == [] || Cut(segments[|segments| - 1], next)
    ensures IsSegmentation(segments + [[next]], Flatten(segments + [[next]]))
  {
    hide Cut, Flatten;
  }

  /** And when its last segment grows by a line that is no boundary. */
  lemma SegmentGrown(closed: seq<seq<Frame>>, open: seq<Frame>, next: Frame)
    requires open != [] && IsSegmentation(closed + [open], Flatten(closed + [open])) && !Cut(open, next)
    ensures IsSegmentation(closed + [open + [next]], Flatten(closed + [open + [next]]))
  {
    hide Cut, Flatten;
    var before, after := closed + [open], closed + [open + [next]];
    UncutGrown(open, next);
    assert after[|closed|] == open + [next] && before[|closed|] == open;
    forall i | 0 <= i < |after|
      ensures after[i] != [] && Uncut(after[i])
      ensures i < |after| - 1 ==> after[i + 1] != [] && Cut(after[i], after[i + 1][0])
    {
      if i < |closed| {
        assert after[i] == before[i] && before[i + 1] != [];
        assert i + 1 < |closed| ==> after[i + 1] == before[i + 1];
        assert after[i + 1] != [] && after[i + 1][0] == before[i + 1][0];
      }
    }
  }

  lemma UncutGrown(open: seq<Frame>, next: Frame)
    requires Uncut(open) && (open != [] ==> !Cut(open, next))
    ensures Uncut(open + [next])
  {
    hide Cut;
    var grown := open + [next];
    forall k | 0 < k < |grown|
      ensures !Cut(grown[..k], grown[k])
    {
      if k < |open| {
        assert grown[..k] == open[..k];
      } else {
        assert grown[..k] == open;
      }
    }
  }

  lemma NoneInNothing()
    ensures !HasStart([]) && !HasContent([]) && !HasDirective([])
  {
  }

  lemma GoodStep(split: Split, next: Frame)
    requires GoodSplit(split)
    ensures GoodSplit(AddLine(split, next))
    ensures Flatten(AddLine(split, next).Segments()) == Flatten(split.Segments()) + [next]
  {
    var after := AddLine(split, next);
    var segments := split.Segments();
    NoneInNothing();
    hide Flatten, IsStart, IsContent, IsEnd, HasStart, HasContent, IsSegmentation;
    if split.open == [] || Cut(split.open, next) {
      SegmentAdded(segments, next);
      FlattenSnoc(segments, [next]);
      assert split.open == [] ==> split.open + [next] == [next];
      assert after.Segments() == segments + [[next]];
    } else {
      SegmentGrown(split.closed, split.open, next);
      FlattenSnoc(split.closed, split.open);
      FlattenSnoc(split.closed, split.open + [next]);
      Associative(Flatten(split.closed), split.open, [next]);
      assert after.Segments() == split.closed + [split.open + [next]];
    }
  }

  lemma NothingSplit()
    ensures SplitDocuments([]) == Split([], []) && GoodSplit(Split([], []))
    ensures Flatten(Split([], []).Segments()) == []
  {
  }

  lemma {:induction false} SplitIsGood(lines: seq<Frame>)
    ensures GoodSplit(SplitDocuments(lines))
    ensures Flatten(SplitDocuments(lines).Segments()) == lines
  {
    hide AddLine, GoodSplit, Flatten, SplitDocuments, Split.Segments;
    if lines == [] {
      NothingSplit();
    } else {
      var front, last := lines[..|lines| - 1], lines[|lines| - 1];
      SplitIsGood(front);
      GoodStep(SplitDocuments(front), last);
      SplitSnoc(front, last);
      assert front + [last] == lines;
    }
  }

  /** The line-by-line splitter computes the declarative segmentation. */
  lemma SplitIsSegmentation(lines: seq<Frame>)
    ensures IsSegmentation(SplitDocuments(lines).Segments(), lines)
  {
    hide SplitDocuments;
    SplitIsGood(lines);
  }

  /** There is only one segmentation. */
  lemma {:induction false} SegmentationUnique(a: seq<seq<Frame>>, b: seq<seq<Frame>>, lines: seq<Frame>)
    requires IsSegmentation(a, lines) && IsSegmentation(b, lines)
    ensures a == b
    decreases |a|
  {
    if a != [] && b != [] {
      FirstBoundary(a, lines);
      FirstBoundary(b, lines);
      SegmentationTail(a, lines);
      SegmentationTail(b, lines);
      SegmentationUnique(a[1..], b[1..], lines[|a[0]|..]);
      assert a == [a[0]] + a[1..] && b == [b[0]] + b[1..];
    }
  }

  lemma SegmentationTail(a: seq<seq<Frame>>, lines: seq<Frame>)
    requires a != [] && IsSegmentation(a, lines)
    ensures |a[0]| <= |lines| && a[0] == lines[..|a[0]|] && IsSegmentation(a[1..], lines[|a[0]|..])
  {
    hide Cut, Uncut;
    assert lines == a[0] + Flatten(a[1..]);
  }

  /** The first segment reaches exactly to the first boundary. */
  lemma FirstBoundary(a: seq<seq<Frame>>, lines: seq<Frame>)
    requires a != [] && IsSegmentation(a, lines)
    ensures var n := |a[0]|;
            && 0 < n <= |lines|
            && (n < |lines| ==> Cut(lines[..n], lines[n]))
            && forall k :: 0 < k < n ==> !Cut(lines[..k], lines[k])
  {
    hide Cut;
    var n := |a[0]|;
    SegmentationTail(a, lines);
    if n < |lines| {
      SegmentationTail(a[1..], lines[n..]);
      assert a[1][0] == lines[n];
    }
    forall k | 0 < k < n
      ensures !Cut(lines[..k], lines[k])
    {
      assert a[0][..k] == lines[..k];
    }
  }

  /** A stretch of lines in front of a segmentation is one more segment when it is uncut and cut behind. */
  lemma SegmentInFront(segment: seq<Frame>, rest: seq<seq<Frame>>)
    requires segment != [] && Uncut(segment) && IsSegmentation(rest, Flatten(rest))
    requires rest != [] ==> Cut(segment, rest[0][0])
    ensures IsSegmentation([segment] + rest, Flatten([segment] + rest))
  {
    hide Cut, Flatten, Uncut;
  }

  // ----- What is decoded, what is dropped, and where it stands -----

  /** The decode calls in terms of the segmentation alone. */
  function SegmentRequests(segments: seq<seq<Frame>>): seq<Request> {
    if segments == [] then []
    else
      var first := segments[0];
      (if Decoded(first) then [RequestFor(first, |segments| > 1 && !EndsInEnd(first))] else [])
      + SegmentRequests(segments[1..])
  }

  lemma {:induction false} ClosedAreSegmentRequests(closed: seq<seq<Frame>>, last: seq<Frame>)
    ensures SegmentRequests(closed + [last])
         == ClosedRequests(closed) + if Decoded(last) then [RequestFor(last, false)] else []
  {
    hide Decoded, RequestFor, EndsInEnd;
    var tail := if Decoded(last) then [RequestFor(last, false)] else [];
    if closed == [] {
      assert [] + [last] == [last] && [last][1..] == [];
      assert SegmentRequests([last]) == tail + SegmentRequests([last][1..]);
    } else {
      var all := closed + [last];
      assert all[1..] == closed[1..] + [last];
      ClosedAreSegmentRequests(closed[1..], last);
      ClosedRequestsCons(closed);
      var head := if Decoded(closed[0]) then [RequestFor(closed[0], !EndsInEnd(closed[0]))] else [];
      Associative(head, ClosedRequests(closed[1..]), tail);
    }
  }

  lemma {:induction false} ClosedRequestsCons(closed: seq<seq<Frame>>)
    requires closed != []
    ensures ClosedRequests(closed)
         == (if Decoded(closed[0]) then [RequestFor(closed[0], !EndsInEnd(closed[0]))] else [])
            + ClosedRequests(closed[1..])
  {
    hide Decoded, RequestFor, EndsInEnd;
    var n := |closed| - 1;
    if n == 0 {
      assert closed[..0] == [] && closed[1..] == [];
    } else {
      ClosedRequestsCons(closed[..n]);
      assert closed[..n][1..] == closed[1..][..n - 1];
      var head := if Decoded(closed[0]) then [RequestFor(closed[0], !EndsInEnd(closed[0]))] else [];
      var tail := if Decoded(closed[n]) then [RequestFor(closed[n], !EndsInEnd(closed[n]))] else [];
      Associative(head, ClosedRequests(closed[..n][1..]), tail);
    }
  }

  /** The stream's decode calls are those of the declarative segmentation. */
  lemma RequestsOfSegmentation(lines: seq<Frame>, segments: seq<seq<Frame>>)
    requires IsSegmentation(segments, lines)
    ensures Requests(lines) == SegmentRequests(segments)
  {
    hide IsSegmentation, SplitDocuments, Decoded, RequestFor, SegmentRequests, ClosedRequests;
    var split := SplitDocuments(lines);
    SplitIsSegmentation(lines);
    SegmentationUnique(segments, split.Segments(), lines);
    if split.open != [] {
      ClosedAreSegmentRequests(split.closed, split.open);
    } else {
      SplitIsGood(lines);
      AllClosed(split.closed);
    }
  }

  lemma AllClosed(closed: seq<seq<Frame>>)
    requires closed == [] || EndsInEnd(closed[|closed| - 1])
    ensures SegmentRequests(closed) == ClosedRequests(closed)
  {
    hide Decoded, RequestFor, EndsInEnd;
    if closed != [] {
      var n := |closed| - 1;
      assert closed == closed[..n] + [closed[n]];
      ClosedAreSegmentRequests(closed[..n], closed[n]);
    }
  }

  /** Only blank lines, comments and end markers are ever dropped. */
  lemma DroppedLines(segment: seq<Frame>, i: nat)
    requires i < |segment| && !Decoded(segment)
    ensures var s := StripReturn(segment[i].line);
            BlankLine(s) || CommentLine(s) || IsEnd(segment[i])
  {
    assert !IsStart(segment[i]) && !IsContent(segment[i]) && !IsDirective(segment[i]);
  }

  /** What was asked for stays asked for: more lines only add decode calls. */
  lemma {:induction false} MadeExtends(lines: seq<Frame>, more: seq<Frame>)
    ensures Made(lines) <= Made(lines + more) <= Requests(lines + more)
  {
    hide AddLine, ClosedRequests, SplitDocuments;
    if more == [] {
      assert lines + more == lines;
    } else {
      var n := |more| - 1;
      MadeExtends(lines, more[..n]);
      assert lines + more == lines + more[..n] + [more[n]];
      MadeStep(lines + more[..n], more[n]);
    }
  }

  lemma MadeStep(lines: seq<Frame>, next: Frame)
    ensures Made(lines) <= Made(lines + [next])
  {
    hide Decoded, RequestFor, ClosedRequests, SplitDocuments, IsStart, IsEnd, HasStart, HasContent;
    SplitSnoc(lines, next);
    var split := SplitDocuments(lines);
    ClosedRequestsSnoc(split.closed, split.open);
    ClosedRequestsSnoc(split.closed, split.open + [next]);
    ClosedRequestsSnoc(split.closed + [split.open], [next]);
  }

  // ----- Offsets stay anchored to the stream -----

  /**
    Every byte of a request is the byte of the input at its offset, up to the appended
    end marker; and where that marker begins, the input goes on with the next `---`.
   */
  predicate AnchoredAt(r: Request, input: Bytes, n: nat) {
    && n <= |r.bytes| && r.offset + n <= |input|
    && r.bytes[..n] == input[r.offset..r.offset + n]
    && (r.bytes[n..] == [] || (r.bytes[n..] == YAML_EXPLICIT_END && [DASH, DASH, DASH] <= input[r.offset + n..]))
  }

  /** Lines that lie one after the other in the input from a position on. */
  predicate Laid(lines: seq<Frame>, input: Bytes, offset: nat) {
    lines == [] || (LaidLine(lines[0], input, offset) && Laid(lines[1..], input, offset + |lines[0].framed|))
  }

  predicate LaidLine(f: Frame, input: Bytes, offset: nat) {
    && f.start == offset && offset + |f.framed| <= |input|
    && f.framed == input[offset..offset + |f.framed|]
    && f.line <= f.framed
  }

  lemma {:induction false} LinesLaid(s: Bytes, input: Bytes, offset: nat)
    requires offset <= |input| && s == input[offset..]
    ensures Laid(SplitLines(s, offset), input, offset)
    decreases |s|
  {
    hide SplitLines, FrameLength, LineLength;
    SplitCons(s, offset);
    if s != [] {
      var n := FrameLength(s);
      assert input[offset..offset + n] == s[..n];
      FirstLineIsPrefix(s);
      LinesLaid(s[n..], input, offset + n);
    }
  }

  lemma FirstLineIsPrefix(s: Bytes)
    ensures s[..LineLength(s)] <= s[..FrameLength(s)]
  {
  }

  lemma {:induction false} LaidAppend(a: seq<Frame>, b: seq<Frame>, input: Bytes, offset: nat)
    requires Laid(a + b, input, offset) && offset <= |input|
    ensures offset + |Framed(a)| <= |input| && Framed(a) == input[offset..offset + |Framed(a)|]
    ensures Laid(b, input, offset + |Framed(a)|)
  {
    hide Framed;
    if a == [] {
      assert a + b == b;
      FramedCons(Frame([], [], 0), []);
    } else {
      assert (a + b)[1..] == a[1..] + b && (a + b)[0] == a[0] && a == [a[0]] + a[1..];
      LaidAppend(a[1..], b, input, offset + |a[0].framed|);
      FramedCons(a[0], a[1..]);
      SliceJoin(input, offset, offset + |a[0].framed|, offset + |Framed(a)|);
    }
  }

  /** Every decode call of a stream is anchored to the bytes of the stream. */
  lemma RequestsAnchored(input: Bytes, r: Request)
    requires r in Requests(SplitLines(input, 0))
    ensures exists n: nat :: AnchoredAt(r, input, n)
  {
    hide SplitLines, SplitDocuments, Requests, AnchoredAt, IsSegmentation, SegmentRequests, Laid;
    var lines := SplitLines(input, 0);
    var segments := SplitDocuments(lines).Segments();
    SplitIsSegmentation(lines);
    RequestsOfSegmentation(lines, segments);
    assert input[0..] == input;
    LinesLaid(input, input, 0);
    SegmentsAnchored(segments, lines, input, 0, r);
  }

  lemma {:induction false} SegmentsAnchored(
    segments: seq<seq<Frame>>, lines: seq<Frame>, input: Bytes, offset: nat, r: Request)
    requires IsSegmentation(segments, lines) && Laid(lines, input, offset) && offset <= |input|
    requires r in SegmentRequests(segments)
    ensures exists n: nat :: AnchoredAt(r, input, n)
    decreases |segments|
  {
    hide Laid, Cut, Uncut, AnchoredAt, Decoded, RequestFor;
    var first, tail := segments[0], segments[1..];
    var rest := lines[|first|..];
    SegmentationTail(segments, lines);
    assert lines == first + rest;
    LaidAppend(first, rest, input, offset);
    if r in SegmentRequests(tail) {
      SegmentsAnchored(tail, rest, input, offset + |Framed(first)|, r);
    } else {
      var cut := |segments| > 1 && !EndsInEnd(first);
      assert r == RequestFor(first, cut);
      if cut {
        SegmentationTail(tail, rest);
        assert Cut(first, rest[0]);
      }
      FirstAnchored(first, rest, input, offset, cut);
    }
  }

  lemma FirstAnchored(first: seq<Frame>, rest: seq<Frame>, input: Bytes, offset: nat, cut: bool)
    requires Laid(first + rest, input, offset) && offset <= |input| && first != []
    requires cut ==> rest != [] && !EndsInEnd(first) && Cut(first, rest[0])
    ensures AnchoredAt(RequestFor(first, cut), input, |Framed(first)|)
  {
    hide EndsInEnd, HasStart, HasContent, Framed;
    LaidAppend(first, rest, input, offset);
    assert (first + rest)[0] == first[0];
    var n := |Framed(first)|;
    var r := RequestFor(first, cut);
    assert r.bytes[..n] == Framed(first);
    if cut {
      assert r.bytes[n..] == YAML_EXPLICIT_END;
      var f := rest[0];
      assert input[offset + n..][..3] == f.framed[..3] == f.line[..3] == [DASH, DASH, DASH];
    } else {
      assert r.bytes[n..] == [];
    }
  }
}
