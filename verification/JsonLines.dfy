/**
  JSON Lines over a byte stream: `isJsonWhitespace` and `jsonLinesStream` of
  node/binding.js.
 */
module JsonLines {
  import opened Sequences
  import opened ByteStream
  import opened Decoding

  predicate JsonSpace(b: Byte) { b == 0x09 || b == 0x0A || b == 0x0D || b == 0x20 }

  /** The insignificant whitespace of section 2 of RFC 8259. */
  predicate JsonWhitespace(bytes: Bytes) { forall i :: 0 <= i < |bytes| ==> JsonSpace(bytes[i]) }

  method IsJsonWhitespace(bytes: Bytes) returns (blank: bool)
    ensures blank == JsonWhitespace(bytes)
  {
    for i := 0 to |bytes|
      invariant JsonWhitespace(bytes[..i])
    {
      if bytes[i] != 0x09 && bytes[i] != 0x0A && bytes[i] != 0x0D && bytes[i] != 0x20 {
        return false;
      }
      assert bytes[..i + 1] == bytes[..i] + [bytes[i]];
    }
    assert bytes[..|bytes|] == bytes;
    return true;
  }

  // ----- The whole-input splitter -----

  predicate LineFeedFree(s: Bytes) { forall i :: 0 <= i < |s| ==> s[i] != LF }

  /** Where the first LF stands, or the length when there is none. */
  function ToLineFeed(s: Bytes): (n: nat)
    ensures n <= |s| && LineFeedFree(s[..n])
    ensures n < |s| ==> s[n] == LF
  {
    if s == [] || s[0] == LF then 0
    else
      var n := 1 + ToLineFeed(s[1..]);
      assert s[..n] == [s[0]] + s[1..][..n - 1];
      n
  }

  function LineRequest(line: Bytes, offset: nat): seq<Request> {
    if JsonWhitespace(line) then [] else [Request(line, offset)]
  }

  /**
    The decode calls of the bytes s at position offset: split on LF, one CR off every
    LF-terminated line, blank lines dropped, each line at its exact position.
   */
  function JsonRequests(s: Bytes, offset: nat): seq<Request>
    decreases |s|
  {
    var n := ToLineFeed(s);
    if n == |s| then LineRequest(s, offset)
    else LineRequest(StripReturn(s[..n]), offset) + JsonRequests(s[n + 1..], offset + n + 1)
  }

  /** Bytes that end between two lines. */
  predicate WholeLines(done: Bytes) {
    done == [] || done[|done| - 1] == LF
  }

  // ----- Properties of the splitter -----

  lemma {:induction false} ToLineFeedIs(text: Bytes, rest: Bytes)
    requires LineFeedFree(text) && (rest != [] ==> rest[0] == LF)
    ensures ToLineFeed(text + rest) == |text|
  {
    if text == [] {
      assert text + rest == rest;
    } else {
      assert (text + rest)[1..] == text[1..] + rest;
      ToLineFeedIs(text[1..], rest);
    }
  }

  lemma {:induction false} ToLineFeedExtends(s: Bytes, more: Bytes)
    requires ToLineFeed(s) < |s|
    ensures ToLineFeed(s + more) == ToLineFeed(s)
  {
    if s[0] != LF {
      assert (s + more)[1..] == s[1..] + more;
      ToLineFeedExtends(s[1..], more);
    }
  }

  lemma {:induction false} LastLineFeed(s: Bytes)
    requires s != [] && s[|s| - 1] == LF
    ensures ToLineFeed(s) < |s|
  {
    if s[0] != LF {
      LastLineFeed(s[1..]);
    }
  }

  lemma JsonCons(s: Bytes, offset: nat)
    requires ToLineFeed(s) < |s|
    ensures JsonRequests(s, offset)
         == LineRequest(StripReturn(s[..ToLineFeed(s)]), offset)
            + JsonRequests(s[ToLineFeed(s) + 1..], offset + ToLineFeed(s) + 1)
  {
  }

  lemma NoLines(offset: nat)
    ensures JsonRequests([], offset) == []
  {
  }

  /** Cutting the input between two lines splits its decode calls there. */
  lemma {:induction false} JsonAppend(done: Bytes, rest: Bytes, offset: nat)
    requires WholeLines(done)
    ensures JsonRequests(done + rest, offset) == JsonRequests(done, offset) + JsonRequests(rest, offset + |done|)
    decreases |done|
  {
    hide JsonRequests, ToLineFeed, LineRequest, StripReturn;
    if done == [] {
      NoLines(offset);
      assert done + rest == rest;
    } else {
      var n := ToLineFeed(done);
      LastLineFeed(done);
      ToLineFeedExtends(done, rest);
      JsonCons(done, offset);
      JsonCons(done + rest, offset);
      assert (done + rest)[..n] == done[..n];
      assert (done + rest)[n + 1..] == done[n + 1..] + rest;
      JsonAppend(done[n + 1..], rest, offset + n + 1);
      Associative(LineRequest(StripReturn(done[..n]), offset), JsonRequests(done[n + 1..], offset + n + 1),
                  JsonRequests(rest, offset + |done|));
    }
  }

  /** One terminated line. */
  lemma JsonLine(text: Bytes, offset: nat)
    requires LineFeedFree(text)
    ensures JsonRequests(text + [LF], offset) == LineRequest(StripReturn(text), offset)
  {
    hide LineRequest, StripReturn, JsonRequests;
    ToLineFeedIs(text, [LF]);
    JsonCons(text + [LF], offset);
    NoLines(offset + |text| + 1);
    assert (text + [LF])[..|text|] == text && (text + [LF])[|text| + 1..] == [];
  }

  /** One more line behind whole lines. */
  lemma JsonNext(done: Bytes, text: Bytes)
    requires WholeLines(done) && LineFeedFree(text)
    ensures JsonRequests(done + (text + [LF]), 0) == JsonRequests(done, 0) + LineRequest(StripReturn(text), |done|)
  {
    hide JsonRequests, LineRequest, StripReturn, LineFeedFree, WholeLines;
    JsonAppend(done, text + [LF], 0);
    JsonLine(text, |done|);
  }

  /** A last line without terminator. */
  lemma JsonLast(done: Bytes, text: Bytes)
    requires WholeLines(done) && LineFeedFree(text)
    ensures JsonRequests(done + text, 0) == JsonRequests(done, 0) + LineRequest(text, |done|)
  {
    hide JsonRequests, LineRequest, StripReturn, LineFeedFree, WholeLines, ToLineFeed;
    JsonAppend(done, text, 0);
    ToLineFeedIs(text, []);
    assert text + [] == text;
    LastLineOnly(text, |done|);
  }

  /** Every decode call stands exactly at its offset in the input and lies inside one line. */
  lemma {:induction false} JsonAnchored(s: Bytes, offset: nat, r: Request)
    requires r in JsonRequests(s, offset)
    ensures offset <= r.offset && r.offset - offset + |r.bytes| <= |s|
    ensures r.bytes == s[r.offset - offset..r.offset - offset + |r.bytes|]
    ensures LineFeedFree(r.bytes) && !JsonWhitespace(r.bytes)
    ensures r.offset == offset || s[r.offset - offset - 1] == LF
    decreases |s|
  {
    hide JsonWhitespace, JsonRequests, ToLineFeed, StripReturn, LineFeedFree;
    var n := ToLineFeed(s);
    if n < |s| {
      JsonCons(s, offset);
      if r in JsonRequests(s[n + 1..], offset + n + 1) {
        JsonAnchored(s[n + 1..], offset + n + 1, r);
        AnchoredInTail(s, n + 1, offset, r);
      } else {
        StrippedPrefix(s, n);
      }
    } else {
      assert s[..n] == s;
      assert JsonRequests(s, offset) == LineRequest(s, offset) by { LastLineOnly(s, offset); }
    }
  }

  lemma LastLineOnly(s: Bytes, offset: nat)
    requires ToLineFeed(s) == |s|
    ensures JsonRequests(s, offset) == LineRequest(s, offset)
  {
  }

  lemma StrippedPrefix(s: Bytes, n: nat)
    requires n <= |s| && LineFeedFree(s[..n])
    ensures |StripReturn(s[..n])| <= n && StripReturn(s[..n]) == s[..|StripReturn(s[..n])|]
    ensures LineFeedFree(StripReturn(s[..n]))
  {
  }

  lemma AnchoredInTail(s: Bytes, n: nat, offset: nat, r: Request)
    requires 0 < n <= |s| && s[n - 1] == LF && offset + n <= r.offset
    requires r.offset - offset + |r.bytes| <= |s|
    requires r.bytes == s[n..][r.offset - offset - n..r.offset - offset - n + |r.bytes|]
    requires r.offset == offset + n || s[n..][r.offset - offset - n - 1] == LF
    ensures r.bytes == s[r.offset - offset..r.offset - offset + |r.bytes|]
    ensures s[r.offset - offset - 1] == LF
  {
    var k := r.offset - offset;
    assert s[n..][k - n..k - n + |r.bytes|] == s[k..k + |r.bytes|];
  }

  // ----- The incremental framer -----

  class JsonLinesFramer<V> {
    const decoder: Decoder<V>
    var lineParts: seq<Bytes>
    var lineLength: nat
    var lineOffset: nat
    var total: nat
    ghost var seen: Bytes
    ghost var done: Bytes

    /** The line that is still open, as the fields hold it: position bytes of all are taken in. */
    ghost predicate Holds(all: Bytes, position: nat)
      reads `lineParts, `lineLength, `lineOffset, `done
    {
      && lineOffset <= position <= |all|
      && done == all[..lineOffset]
      && Flatten(lineParts) == all[lineOffset..position]
      && lineLength == position - lineOffset
      && LineFeedFree(all[lineOffset..position])
    }

    /** The lines that are over, at the front of all, were decoded. */
    ghost predicate Decoded(all: Bytes)
      reads `done, decoder
    {
      && decoder.Valid()
      && done <= all && WholeLines(done)
      && decoder.requests == JsonRequests(done, 0)
    }

    ghost predicate Valid()
      reads this, decoder
    {
      && Decoded(seen)
      && (decoder.status.Running? ==> Holds(seen, |seen|) && total == |seen|)
    }

    constructor (loads: Loader<V>)
      ensures Valid() && fresh(decoder) && decoder.loads == loads
      ensures seen == [] && decoder.status.Running? && decoder.values == []
    {
      decoder := new Decoder(loads);
      lineParts := [];
      lineLength, lineOffset, total := 0, 0, 0;
      seen, done := [], [];
      new;
      NoLines(0);
    }

    /** A line, read to its end, is decoded unless it is blank. */
    method DecodeLine(line: Bytes)
      requires decoder.Valid() && decoder.status.Running?
      modifies decoder
      ensures decoder.Valid() && decoder.requests == old(decoder.requests) + LineRequest(line, lineOffset)
    {
      hide JsonWhitespace;
      var blank := IsJsonWhitespace(line);
      if !blank {
        decoder.Decode(line, lineOffset);
      }
    }

    /** A stretch of a chunk without an LF joins the open line. */
    method Push(part: Bytes, ghost all: Bytes, ghost from: nat)
      requires Holds(all, from) && from + |part| <= |all| && part == all[from..from + |part|] && LineFeedFree(part)
      modifies `lineParts, `lineLength
      ensures Holds(all, from + |part|)
    {
      hide Flatten;
      FlattenSnoc(lineParts, part);
      SliceJoin(all, lineOffset, from, from + |part|);
      if |part| != 0 {
        lineParts := lineParts + [part];
      }
      lineLength := lineLength + |part|;
    }

    /** The open line is complete at an LF: it is decoded and the next one starts. */
    method EndLine(newline: nat, ghost all: Bytes)
      requires newline < |all| && all[newline] == LF && Holds(all, newline)
      requires Decoded(all) && decoder.status.Running?
      modifies `lineParts, `lineLength, `lineOffset, `done, decoder
      ensures Decoded(all)
      ensures decoder.status.Running? ==> Holds(all, newline + 1)
    {
      hide JsonRequests, LineRequest, Flatten, WholeLines, LineFeedFree, Decoder.Valid;
      var line := JoinParts(lineParts, lineLength);
      if |line| > 0 && line[|line| - 1] == CR {
        line := line[..|line| - 1];
      }
      JsonNext(done, all[lineOffset..newline]);
      DecodeLine(line);
      LineEnds(all, lineOffset, newline);
      done := all[..newline + 1];
      FlattenNone<Byte>();
      NothingFree(all, newline + 1);
      lineParts := [];
      lineLength := 0;
      lineOffset := newline + 1;
    }

    /** One buffer in; every line it completes is decoded. */
    method Feed(bytes: Bytes)
      requires Valid() && decoder.status.Running?
      requires |seen| + |bytes| <= MAX_STREAM_BYTES
      modifies this, decoder
      ensures Valid() && seen == old(seen) + bytes
    {
      hide JsonRequests, Flatten, Decoder.Valid, WholeLines, LineFeedFree, Holds, Decoded;
      ghost var all := seen + bytes;
      var chunkOffset := total;
      total := total + |bytes|;
      if total > MAX_STREAM_BYTES {
        assert false;
      }
      StartBuffer(bytes);
      seen := all;
      var start := 0;
      var newline := IndexOfLineFeed(bytes, start);
      while newline < |bytes|
        invariant start <= newline <= |bytes|
        invariant LineFeedFree(bytes[start..newline]) && (newline < |bytes| ==> bytes[newline] == LF)
        invariant Decoded(all) && decoder.status.Running? && Holds(all, chunkOffset + start)
        invariant seen == all && total == |all|
        decreases |bytes| - start
      {
        ChunkSlice(old(seen), bytes, start, newline);
        Push(bytes[start..newline], all, chunkOffset + start);
        EndLine(chunkOffset + newline, all);
        if !decoder.status.Running? {
          return;
        }
        start := newline + 1;
        newline := IndexOfLineFeed(bytes, start);
      }
      ChunkSlice(old(seen), bytes, start, newline);
      Push(bytes[start..newline], all, chunkOffset + start);
    }

    lemma StartBuffer(bytes: Bytes)
      requires Holds(seen, |seen|) && Decoded(seen)
      ensures Holds(seen + bytes, |seen|) && Decoded(seen + bytes)
    {
      hide JsonRequests, Decoder.Valid, WholeLines;
      assert (seen + bytes)[..lineOffset] == seen[..lineOffset];
      assert (seen + bytes)[lineOffset..|seen|] == seen[lineOffset..|seen|];
    }

    /** The end of the stream ends the open line, whose CR is then its own. */
    method Finish()
      requires Valid() && decoder.status.Running?
      modifies this, decoder
      ensures decoder.Valid() && decoder.requests == JsonRequests(seen, 0) && seen == old(seen)
    {
      hide JsonRequests, Flatten, LineRequest, Decoder.Valid;
      var pending := JoinParts(lineParts, lineLength);
      JsonLast(done, pending);
      assert seen == done + pending;
      DecodeLine(pending);
    }
  }

  method IndexOfLineFeed(bytes: Bytes, start: nat) returns (newline: nat)
    requires start <= |bytes|
    ensures start <= newline <= |bytes| && LineFeedFree(bytes[start..newline])
    ensures newline < |bytes| ==> bytes[newline] == LF
  {
    newline := start;
    while newline < |bytes| && bytes[newline] != LF
      invariant start <= newline <= |bytes|
      invariant forall k :: start <= k < newline ==> bytes[k] != LF
    {
      newline := newline + 1;
    }
  }

  lemma LineEnds(all: Bytes, from: nat, newline: nat)
    requires from <= newline < |all| && all[newline] == LF
    ensures all[..newline + 1] == all[..from] + (all[from..newline] + [LF])
    ensures WholeLines(all[..newline + 1])
  {
  }

  lemma NothingFree(all: Bytes, at: nat)
    requires at <= |all|
    ensures all[at..at] == [] && LineFeedFree([])
  {
  }

  lemma ChunkSlice(seen: Bytes, bytes: Bytes, from: nat, to: nat)
    requires from <= to <= |bytes|
    ensures (seen + bytes)[|seen| + from..|seen| + to] == bytes[from..to]
    ensures to < |bytes| ==> (seen + bytes)[|seen| + to] == bytes[to]
  {
  }

  // ----- The whole stream -----

  /** What a stream of chunks decodes to, when it is not too long. */
  function StreamOutcome<V>(chunks: seq<Chunk>, loads: Loader<V>): Outcome<V> {
    Answer(JsonRequests(StreamBytes(chunks), 0), loads)
  }

  /** The bytes up to the last line feed: the lines that are over, whatever follows. */
  function ClosedPart(bytes: Bytes): (closed: Bytes)
    ensures closed <= bytes && WholeLines(closed)
  {
    if bytes == [] || bytes[|bytes| - 1] == 0x0A then bytes else ClosedPart(bytes[..|bytes| - 1])
  }

  /**
    What a stream that is too long decodes to: the lines that are over within the buffers
    there is room for, and then the limit.
   */
  function LimitedOutcome<V>(chunks: seq<Chunk>, loads: Loader<V>): Outcome<V> {
    var taken := Flatten(Fitting(Buffers(chunks), 67_108_864));
    var outcome := Answer(JsonRequests(ClosedPart(taken), 0), loads);
    if outcome.status.Running? then outcome.(status := InputLimit) else outcome
  }

  lemma {:induction false} ClosedPartIs(done: Bytes, rest: Bytes)
    requires WholeLines(done)
    ensures done <= ClosedPart(done + rest)
    ensures LineFeedFree(rest) ==> ClosedPart(done + rest) == done
    decreases |rest|
  {
    if rest == [] {
      assert done + rest == done;
    } else {
      assert (done + rest)[|done + rest| - 1] == rest[|rest| - 1];
      assert (done + rest)[..|done + rest| - 1] == done + rest[..|rest| - 1];
      if rest[|rest| - 1] != LF { ClosedPartIs(done, rest[..|rest| - 1]); }
    }
  }

  /** A stream that stopped on some of its lines stays so whatever follows. */
  lemma StoppedInside<V>(framer: JsonLinesFramer<V>, input: Bytes)
    requires framer.Valid() && framer.seen <= input && !framer.decoder.status.Running?
    ensures framer.decoder.Result() == Answer(JsonRequests(ClosedPart(input), 0), framer.decoder.loads)
  {
    hide JsonRequests, Answer, ClosedPart;
    var rest := input[|framer.done|..];
    assert input == framer.done + rest;
    ClosedPartIs(framer.done, rest);
    var closed := ClosedPart(input);
    var more := closed[|framer.done|..];
    assert closed == framer.done + more;
    JsonAppend(framer.done, more, 0);
    AnswerExtends(framer.decoder.requests, JsonRequests(more, |framer.done|), framer.decoder.loads);
    MadeOutcome(framer.decoder);
  }

  /** A running framer has decoded the lines that are over. */
  lemma RunningOutcome<V>(framer: JsonLinesFramer<V>)
    requires framer.Valid() && framer.decoder.status.Running?
    ensures framer.decoder.Result() == Answer(JsonRequests(ClosedPart(framer.seen), 0), framer.decoder.loads)
  {
    hide JsonRequests, Answer, ClosedPart;
    var rest := framer.seen[framer.lineOffset..];
    assert framer.seen == framer.done + rest;
    assert rest == framer.seen[framer.lineOffset..|framer.seen|];
    ClosedPartIs(framer.done, rest);
    MadeOutcome(framer.decoder);
  }

  /** What a stream has yielded of part of its input agrees with what it yields of all of it. */
  lemma PartOfOutcome<V>(framer: JsonLinesFramer<V>, input: Bytes)
    requires framer.Valid() && framer.seen <= input
    ensures var whole := Answer(JsonRequests(input, 0), framer.decoder.loads);
            && framer.decoder.values <= whole.values
            && (!framer.decoder.status.Running? ==> framer.decoder.Result() == whole)
  {
    hide JsonRequests, Answer;
    var rest := input[|framer.done|..];
    assert input == framer.done + rest;
    JsonAppend(framer.done, rest, 0);
    AnswerExtends(framer.decoder.requests, JsonRequests(rest, |framer.done|), framer.decoder.loads);
  }

  /**
    `jsonLinesStream` over any chunks: within the input limit the outcome is that of the
    bytes the stream stands for, whatever the chunks; beyond it the stream never ends
    well, and what it yields before it stops agrees with the whole.
   */
  method JsonLinesStream<V>(chunks: seq<Chunk>, loads: Loader<V>) returns (outcome: Outcome<V>)
    ensures |StreamBytes(chunks)| <= 67_108_864 ==> outcome == StreamOutcome(chunks, loads)
    ensures |StreamBytes(chunks)| > 67_108_864 ==>
              !outcome.status.Running? && outcome.values <= StreamOutcome(chunks, loads).values
    ensures |StreamBytes(chunks)| > 67_108_864 ==> outcome == LimitedOutcome(chunks, loads)
  {
    hide JsonRequests, Flatten, Answer, StreamBytes, JsonLinesFramer.Valid, Fitting, Buffers, ClosedPart;
    var buffers, ok := StreamByteChunks(chunks);
    var framer := new JsonLinesFramer(loads);
    FlattenNone<Byte>();
    for i := 0 to |buffers|
      invariant fresh(framer) && fresh(framer.decoder) && framer.decoder.loads == loads
      invariant framer.Valid() && framer.decoder.status.Running?
      invariant framer.seen == Flatten(buffers[..i])
    {
      FlattenPrefix(buffers, i);
      framer.Feed(buffers[i]);
      if !framer.decoder.status.Running? {
        PartOfOutcome(framer, StreamBytes(chunks));
        FlattenSplit(buffers, i + 1);
        StoppedInside(framer, Flatten(buffers));
        return framer.decoder.Result();
      }
    }
    assert buffers[..|buffers|] == buffers;
    PartOfOutcome(framer, StreamBytes(chunks));
    if !ok {
      RunningOutcome(framer);
      return Outcome(framer.decoder.values, InputLimit);
    }
    framer.Finish();
    MadeOutcome(framer.decoder);
    return framer.decoder.Result();
  }

  lemma MadeOutcome<V>(decoder: Decoder<V>)
    requires decoder.Valid()
    ensures decoder.Result() == Answer(decoder.requests, decoder.loads)
  {
  }

  // ----- In plain bytes -----

  /** Space, tab, line feed and carriage return, and nothing else. */
  predicate JsonBlank(text: Bytes) {
    forall i :: 0 <= i < |text| ==> text[i] == 0x20 || text[i] == 0x09 || text[i] == 0x0A || text[i] == 0x0D
  }

  predicate OneLine(text: Bytes) { forall b <- text :: b != 0x0A }

  /** A line less the one carriage return it may end in. */
  function Uncarried(text: Bytes): Bytes {
    if text != [] && text[|text| - 1] == 0x0D then text[..|text| - 1] else text
  }

  function Lines(texts: seq<Bytes>): Bytes {
    if texts == [] then [] else texts[0] + [0x0A] + Lines(texts[1..])
  }

  /** One decode call for each line that is not blank, at its place. */
  function LineCalls(texts: seq<Bytes>, offset: nat): seq<Request> {
    if texts == [] then []
    else
      (if JsonBlank(texts[0]) then [] else [Request(Uncarried(texts[0]), offset)])
      + LineCalls(texts[1..], offset + |texts[0]| + 1)
  }

  lemma BlankIs(text: Bytes)
    ensures JsonWhitespace(text) <==> JsonBlank(text)
  {
    if JsonWhitespace(text) {
      assert forall i :: 0 <= i < |text| ==> JsonSpace(text[i]);
    }
  }

  /** A carriage return is blank itself. */
  lemma BlankUncarried(text: Bytes)
    ensures StripReturn(text) == Uncarried(text) && (JsonBlank(Uncarried(text)) <==> JsonBlank(text))
  {
    if text != [] && text[|text| - 1] == 0x0D {
      var front := text[..|text| - 1];
      if JsonBlank(front) {
        forall i | 0 <= i < |text|
          ensures text[i] == 0x20 || text[i] == 0x09 || text[i] == 0x0A || text[i] == 0x0D
        {
          if i < |front| { assert front[i] == text[i]; }
        }
      }
    }
  }

  lemma BlankRequest(text: Bytes, offset: nat)
    ensures LineRequest(text, offset) == if JsonBlank(text) then [] else [Request(text, offset)]
    ensures LineRequest(StripReturn(text), offset) == if JsonBlank(text) then [] else [Request(Uncarried(text), offset)]
  {
    hide JsonWhitespace, JsonBlank, StripReturn, Uncarried;
    BlankIs(text);
    BlankUncarried(text);
    BlankIs(Uncarried(text));
  }

  /**
    Lines that end in a line feed, and a last one that does not: each that is not blank is
    one decode call, and only a line behind which there is a line feed loses its carriage
    return.
   */
  lemma {:induction false} LinesAreCalls(texts: seq<Bytes>, last: Bytes, offset: nat)
    requires (forall text <- texts :: OneLine(text)) && OneLine(last)
    ensures JsonRequests(Lines(texts) + last, offset)
         == LineCalls(texts, offset)
            + if JsonBlank(last) then [] else [Request(last, offset + |Lines(texts)|)]
  {
    hide JsonRequests, LineRequest, JsonBlank, StripReturn, Uncarried, Lines, LineCalls;
    LinesStep(texts, offset);
    if texts == [] {
      LineFree(last);
      assert Lines(texts) + last == last;
      ToLineFeedIs(last, []);
      assert last + [] == last;
      LastLineOnly(last, offset);
      BlankRequest(last, offset);
    } else {
      var text, rest := texts[0], Lines(texts[1..]) + last;
      assert OneLine(text);
      LineFree(text);
      Associative(text + [0x0A], Lines(texts[1..]), last);
      JsonAppend(text + [0x0A], rest, offset);
      JsonLine(text, offset);
      BlankRequest(text, offset);
      LinesAreCalls(texts[1..], last, offset + |text| + 1);
      Associative(LineRequest(StripReturn(text), offset), LineCalls(texts[1..], offset + |text| + 1),
                  if JsonBlank(last) then [] else [Request(last, offset + |Lines(texts)|)]);
    }
  }

  lemma LinesStep(texts: seq<Bytes>, offset: nat)
    ensures texts == [] ==> Lines(texts) == [] && LineCalls(texts, offset) == []
    ensures texts != [] ==>
      && Lines(texts) == texts[0] + [0x0A] + Lines(texts[1..])
      && LineCalls(texts, offset)
         == (if JsonBlank(texts[0]) then [] else [Request(Uncarried(texts[0]), offset)])
            + LineCalls(texts[1..], offset + |texts[0]| + 1)
  {
    hide JsonBlank, Uncarried;
  }

  lemma LineFree(text: Bytes)
    requires OneLine(text)
    ensures LineFeedFree(text)
  {
    forall i | 0 <= i < |text| ensures text[i] != LF {
      assert text[i] in text;
    }
  }

  /** And `jsonLinesStream`, over any chunks of them, answers those calls. */
  lemma LinesAnswered<V>(texts: seq<Bytes>, last: Bytes, chunks: seq<Chunk>, loads: Loader<V>)
    requires (forall text <- texts :: OneLine(text)) && OneLine(last)
    requires StreamBytes(chunks) == Lines(texts) + last
    ensures StreamOutcome(chunks, loads)
         == Answer(LineCalls(texts, 0) + (if JsonBlank(last) then [] else [Request(last, |Lines(texts)|)]), loads)
  {
    hide JsonRequests, StreamBytes, Answer, LineCalls, JsonBlank;
    LinesAreCalls(texts, last, 0);
  }
}
