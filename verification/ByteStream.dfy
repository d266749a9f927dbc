/**
  Stream chunks as bytes: `streamByteChunks` and `readStream` of node/binding.js.

  A JavaScript string chunk is a sequence of UTF-16 code units and may end between the
  two halves of a surrogate pair, so the last high surrogate of a chunk is held back
  until the next chunk shows what follows it.
 */
module ByteStream {
  import opened Sequences
  import opened Utf8

  const MAX_STREAM_BYTES := 64 * 1024 * 1024
  const UTF8_REPLACEMENT_BYTE_LENGTH := 3

  /** A UTF-16 code unit. */
  type CodeUnit = u: int | 0 <= u < 0x10000

  type Text = seq<CodeUnit>

  datatype Chunk =
    | TextChunk(units: Text)
    | ByteChunk(bytes: Bytes)

  predicate High(u: CodeUnit) { 0xD800 <= u <= 0xDBFF }

  predicate Low(u: CodeUnit) { 0xDC00 <= u <= 0xDFFF }

  predicate StartsWithPair(text: Text) {
    |text| > 1 && High(text[0]) && Low(text[1])
  }

  /** The scalar a string starts with; a surrogate without its other half reads as U+FFFD. */
  function Head(text: Text): Scalar
    requires text != []
  {
    if StartsWithPair(text) then Pair(text[0], text[1])
    else if High(text[0]) || Low(text[0]) then 0xFFFD
    else text[0]
  }

  function Scalars(text: Text): seq<Scalar> {
    if text == [] then []
    else [Head(text)] + Scalars(text[if StartsWithPair(text) then 2 else 1..])
  }

  function Pair(high: CodeUnit, low: CodeUnit): Scalar
    requires High(high) && Low(low)
  {
    var top: int, bottom: int := high - 0xD800, low - 0xDC00;
    0x10000 + top * 0x400 + bottom
  }

  /** `Buffer.from(text)`. */
  function FromString(text: Text): Bytes {
    Encode(Scalars(text))
  }

  predicate EndsWithHighSurrogate(text: Text) {
    text != [] && High(text[|text| - 1])
  }

  /** Whether a boundary between two texts cuts a surrogate pair in two. */
  predicate CutsPair(left: Text, right: Text) {
    EndsWithHighSurrogate(left) && right != [] && Low(right[0])
  }

  // ----- The bytes a stream stands for -----

  /** The text of the unbroken run of string chunks a stream ends in. */
  function Run(chunks: seq<Chunk>): Text {
    if chunks == [] || chunks[|chunks| - 1].ByteChunk? then []
    else Run(chunks[..|chunks| - 1]) + chunks[|chunks| - 1].units
  }

  /** The bytes of everything in front of that run. */
  function BeforeRun(chunks: seq<Chunk>): Bytes
    decreases |chunks|, 0
  {
    if chunks == [] then []
    else
      var front, last := chunks[..|chunks| - 1], chunks[|chunks| - 1];
      if last.ByteChunk? then StreamBytes(front) + last.bytes else BeforeRun(front)
  }

  /** Every maximal run of strings encoded as one string, in order among the byte chunks. */
  function StreamBytes(chunks: seq<Chunk>): Bytes
    decreases |chunks|, 1
  {
    BeforeRun(chunks) + FromString(Run(chunks))
  }

  /** The high surrogate a text ends in, if any. */
  function Held(text: Text): Text {
    if EndsWithHighSurrogate(text) then text[|text| - 1..] else []
  }

  /** The text in front of a held surrogate. */
  function Ready(text: Text): Text {
    text[..|text| - |Held(text)|]
  }

  /** The bytes that no later chunk can change. */
  function Settled(chunks: seq<Chunk>): Bytes {
    BeforeRun(chunks) + FromString(Ready(Run(chunks)))
  }

  // ----- Lemmas -----

  lemma HeadAppend(left: Text, right: Text)
    requires left != [] && !CutsPair(left, right)
    ensures StartsWithPair(left + right) == StartsWithPair(left)
    ensures Head(left + right) == Head(left)
  {
  }

  /** Cutting a text anywhere but inside a pair does not change its scalars. */
  lemma {:induction false} ScalarsAppend(left: Text, right: Text)
    requires !CutsPair(left, right)
    ensures Scalars(left + right) == Scalars(left) + Scalars(right)
  {
    if left == [] {
      assert left + right == right;
    } else {
      hide Pair, Head;
      var n := if StartsWithPair(left) then 2 else 1;
      HeadAppend(left, right);
      assert (left + right)[n..] == left[n..] + right;
      ScalarsAppend(left[n..], right);
      assert [Head(left)] + (Scalars(left[n..]) + Scalars(right)) == Scalars(left) + Scalars(right);
    }
  }

  lemma FromStringAppend(left: Text, right: Text)
    requires !CutsPair(left, right)
    ensures FromString(left + right) == FromString(left) + FromString(right)
  {
    ScalarsAppend(left, right);
    EncodeAppend(Scalars(left), Scalars(right));
  }

  /** What comes out is the UTF-8 of the scalars that went in. */
  lemma FromStringDecodes(text: Text)
    ensures Validate(FromString(text)) == Whole
    ensures Decode(FromString(text)) == Scalars(text)
  {
    DecodeEncode(Scalars(text));
  }

  /** A held surrogate alone is worth one replacement character. */
  lemma HeldBytes(text: Text)
    ensures FromString(text) == FromString(Ready(text)) + FromString(Held(text))
    ensures Held(text) != [] ==> |FromString(Held(text))| == UTF8_REPLACEMENT_BYTE_LENGTH
    ensures Held(text) == [] ==> FromString(Held(text)) == []
  {
    assert text == Ready(text) + Held(text);
    FromStringAppend(Ready(text), Held(text));
    if Held(text) != [] {
      assert Held(text) == [text[|text| - 1]];
      assert Scalars(Held(text)) == [0xFFFD];
      assert Encode([0xFFFD]) == EncodeScalar(0xFFFD) + Encode([]);
    }
  }

  lemma ReadyAndHeld(text: Text)
    ensures text == Ready(text) + Held(text)
  {
  }

  lemma HeldIsLast(left: Text, right: Text)
    requires right != []
    ensures Held(left + right) == Held(right)
  {
    assert (left + right)[|left| + |right| - 1] == right[|right| - 1];
    assert (left + right)[|left| + |right| - 1..] == right[|right| - 1..];
  }

  lemma HeldAlone(text: Text)
    ensures Held(Held(text)) == Held(text) && Ready(Held(text)) == []
  {
  }

  lemma HeldStep(run: Text, units: Text)
    ensures Held(run + units) == Held(Held(run) + units)
    ensures Ready(run + units) == Ready(run) + Ready(Held(run) + units)
  {
    hide Held, Ready;
    var all, text := run + units, Held(run) + units;
    if units == [] {
      assert all == run && text == Held(run);
      HeldAlone(run);
    } else {
      HeldIsLast(run, units);
      HeldIsLast(Held(run), units);
      ReadyAndHeld(run);
      ReadyAndHeld(all);
      ReadyAndHeld(text);
      Associative(Ready(run), Held(run), units);
      Associative(Ready(run), Ready(text), Held(units));
      CancelRight(Ready(all), Ready(run) + Ready(text), Held(units));
    }
  }

  /** The step of a string chunk: the held unit and the chunk, less the newly held unit. */
  lemma ReadyStep(run: Text, units: Text)
    ensures Held(run + units) == Held(Held(run) + units)
    ensures FromString(Ready(run + units)) == FromString(Ready(run)) + FromString(Ready(Held(run) + units))
  {
    var text := Held(run) + units;
    HeldStep(run, units);
    assert !CutsPair(Ready(run), Ready(text)) by {
      if Held(run) != [] && Ready(text) != [] {
        assert Ready(text)[0] == Held(run)[0];
      }
    }
    FromStringAppend(Ready(run), Ready(text));
  }

  lemma Latest(chunks: seq<Chunk>, chunk: Chunk)
    ensures (chunks + [chunk])[..|chunks|] == chunks
    ensures BeforeRun(chunks + [chunk])
         == if chunk.ByteChunk? then StreamBytes(chunks) + chunk.bytes else BeforeRun(chunks)
    ensures Run(chunks + [chunk]) == if chunk.ByteChunk? then [] else Run(chunks) + chunk.units
  {
  }

  lemma SettledIsPrefix(chunks: seq<Chunk>)
    ensures Settled(chunks) + FromString(Held(Run(chunks))) == StreamBytes(chunks)
  {
    HeldBytes(Run(chunks));
  }

  /** What is settled stays. */
  lemma SettledStep(chunks: seq<Chunk>, chunk: Chunk)
    ensures chunk.ByteChunk? ==>
              Settled(chunks + [chunk]) == Settled(chunks) + FromString(Held(Run(chunks))) + chunk.bytes
    ensures chunk.TextChunk? ==>
              Settled(chunks + [chunk]) == Settled(chunks) + FromString(Ready(Held(Run(chunks)) + chunk.units))
  {
    hide FromString, Run, BeforeRun, StreamBytes, Held, Ready;
    Latest(chunks, chunk);
    if chunk.TextChunk? {
      ReadyStep(Run(chunks), chunk.units);
    } else {
      SettledIsPrefix(chunks);
      NothingReady();
    }
  }

  lemma NothingReady()
    ensures FromString(Ready([])) == [] && Held([]) == [] && FromString([]) == []
  {
  }

  /** What some chunks settle is a prefix of what more chunks settle, and of all the stream stands for. */
  lemma {:induction false} SettledGrows(chunks: seq<Chunk>, rest: seq<Chunk>)
    ensures Settled(chunks) <= Settled(chunks + rest) <= StreamBytes(chunks + rest)
    decreases |rest|
  {
    hide FromString, Run, BeforeRun, StreamBytes, Settled;
    if rest == [] {
      SettledIsPrefix(chunks);
      assert chunks + rest == chunks;
    } else {
      SettledStep(chunks, rest[0]);
      SettledGrows(chunks + [rest[0]], rest[1..]);
      assert chunks + rest == chunks + [rest[0]] + rest[1..];
    }
  }

  /** The strings of a stream, joined. */
  function JoinedText(chunks: seq<Chunk>): Text
    requires forall c <- chunks :: c.TextChunk?
  {
    if chunks == [] then [] else JoinedText(chunks[..|chunks| - 1]) + chunks[|chunks| - 1].units
  }

  /** Strings at the end of a stream join the run it ends in. */
  lemma {:induction false} RunGrows(left: seq<Chunk>, texts: seq<Chunk>)
    requires forall c <- texts :: c.TextChunk?
    ensures Run(left + texts) == Run(left) + JoinedText(texts) && BeforeRun(left + texts) == BeforeRun(left)
    decreases |texts|
  {
    hide StreamBytes;
    if texts == [] {
      assert left + texts == left;
    } else {
      var front, last := texts[..|texts| - 1], texts[|texts| - 1];
      assert last in texts;
      assert left + texts == left + front + [last];
      RunGrows(left, front);
      Latest(left + front, last);
      hide Run, BeforeRun;
      Associative(Run(left), JoinedText(front), last.units);
    }
  }

  /** A stream of strings means their concatenation, however it was cut up. */
  lemma TextStream(chunks: seq<Chunk>)
    requires forall c <- chunks :: c.TextChunk?
    ensures StreamBytes(chunks) == FromString(JoinedText(chunks))
  {
    hide FromString, JoinedText;
    RunGrows([], chunks);
    assert [] + chunks == chunks;
    assert Run([]) + JoinedText(chunks) == JoinedText(chunks);
    assert [] + FromString(JoinedText(chunks)) == FromString(JoinedText(chunks));
  }

  /** A byte chunk stands for itself and keeps what is before it apart from what is after it. */
  lemma {:induction false} BytesBetween(left: seq<Chunk>, bytes: Bytes, right: seq<Chunk>)
    ensures StreamBytes(left + [ByteChunk(bytes)] + right) == StreamBytes(left) + bytes + StreamBytes(right)
    ensures Run(left + [ByteChunk(bytes)] + right) == Run(right)
    ensures BeforeRun(left + [ByteChunk(bytes)] + right) == StreamBytes(left) + bytes + BeforeRun(right)
    decreases |right|
  {
    hide FromString;
    var head := left + [ByteChunk(bytes)];
    if right == [] {
      assert head + right == head;
      Latest(left, ByteChunk(bytes));
    } else {
      var front, last := right[..|right| - 1], right[|right| - 1];
      assert head + right == head + front + [last] && right == front + [last];
      BytesBetween(left, bytes, front);
      Latest(head + front, last);
      Latest(front, last);
      hide Run, BeforeRun;
      if last.ByteChunk? {
        Associative(StreamBytes(left) + bytes, StreamBytes(front), last.bytes);
      }
    }
    Associative(StreamBytes(left) + bytes, BeforeRun(right), FromString(Run(right)));
  }

  /** Any strings next to one another may be cut up differently, whatever chunks surround them. */
  lemma {:induction false} RunsMayBeRecut(left: seq<Chunk>, a: seq<Chunk>, b: seq<Chunk>, right: seq<Chunk>)
    requires (forall c <- a :: c.TextChunk?) && (forall c <- b :: c.TextChunk?)
    requires JoinedText(a) == JoinedText(b)
    ensures StreamBytes(left + a + right) == StreamBytes(left + b + right)
    ensures Run(left + a + right) == Run(left + b + right)
    ensures BeforeRun(left + a + right) == BeforeRun(left + b + right)
    decreases |right|
  {
    hide FromString, JoinedText;
    if right == [] {
      assert left + a + right == left + a && left + b + right == left + b;
      RunGrows(left, a);
      RunGrows(left, b);
    } else {
      var front, last := right[..|right| - 1], right[|right| - 1];
      assert left + a + right == left + a + front + [last] && left + b + right == left + b + front + [last];
      RunsMayBeRecut(left, a, b, front);
      Latest(left + a + front, last);
      Latest(left + b + front, last);
      hide Run, BeforeRun;
    }
  }

  // ----- The chunker -----

  /** The last high surrogate of a string is held back. */
  method HoldBack(text: Text) returns (ready: Text, held: Text)
    ensures ready == Ready(text) && held == Held(text)
  {
    ready, held := text, [];
    if EndsWithHighSurrogate(text) {
      held := text[|text| - 1..];
      ready := text[..|text| - 1];
    }
  }

  // ----- Buffers, and those that fit -----

  /** The buffers one chunk adds: a text up to its last unit if that may yet be half a pair, or bytes. */
  function StepBuffers(before: seq<Chunk>, chunk: Chunk): seq<Bytes> {
    var held := Held(Run(before));
    match chunk
    case TextChunk(units) => if Ready(held + units) == [] then [] else [FromString(Ready(held + units))]
    case ByteChunk(bytes) => (if held == [] then [] else [FromString(held)]) + [bytes]
  }

  function PartBuffers(chunks: seq<Chunk>): seq<Bytes> {
    if chunks == [] then []
    else
      var n := |chunks| - 1;
      PartBuffers(chunks[..n]) + StepBuffers(chunks[..n], chunks[n])
  }

  /** All buffers a stream would yield without a limit. */
  function Buffers(chunks: seq<Chunk>): seq<Bytes> {
    PartBuffers(chunks) + if Held(Run(chunks)) == [] then [] else [FromString(Held(Run(chunks)))]
  }

  /** As many buffers from the front as there is room for. */
  function Fitting(buffers: seq<Bytes>, room: nat): seq<Bytes> {
    if buffers == [] || |buffers[0]| > room then []
    else [buffers[0]] + Fitting(buffers[1..], room - |buffers[0]|)
  }

  lemma {:induction false} FittingAppend(a: seq<Bytes>, b: seq<Bytes>, room: nat)
    ensures |Flatten(a)| <= room ==> Fitting(a + b, room) == a + Fitting(b, room - |Flatten(a)|)
    ensures |Flatten(a)| > room ==> Fitting(a + b, room) == Fitting(a, room) != a
  {
    if a == [] {
      assert a + b == b;
    } else {
      assert (a + b)[1..] == a[1..] + b;
      if |a[0]| <= room { FittingAppend(a[1..], b, room - |a[0]|); }
    }
  }

  lemma FittingAll(a: seq<Bytes>, room: nat)
    ensures Fitting(a, room) == a <==> |Flatten(a)| <= room
  {
    FittingAppend(a, [], room);
    assert a + [] == a;
  }

  lemma FittingOne(a: Bytes, room: nat)
    ensures Fitting([], room) == []
    ensures Fitting([a], room) == if |a| <= room then [a] else []
  {
    assert [a][1..] == [];
  }

  lemma FittingTwo(a: Bytes, b: Bytes, room: nat)
    ensures Fitting([a, b], room) == if |a| > room then [] else if |a| + |b| > room then [a] else [a, b]
  {
    hide Fitting;
    FittingOne(a, room);
    FlattenOne(a);
    FittingAppend([a], [b], room);
    assert [a] + [b] == [a, b];
    if |a| <= room { FittingOne(b, room - |a|); }
  }

  /** What a byte chunk settles: the surrogate held, if any, and its bytes. */
  lemma BytesSettle(before: seq<Chunk>, bytes: Bytes)
    ensures var held, after := FromString(Held(Run(before))), before + [ByteChunk(bytes)];
      && Settled(after) == Settled(before) + held + bytes && Held(Run(after)) == []
      && |held| == (if Held(Run(before)) == [] then 0 else UTF8_REPLACEMENT_BYTE_LENGTH)
      && Flatten<Byte>([]) == [] && Flatten([bytes]) == bytes
      && Flatten([held]) == held && Flatten([held, bytes]) == held + bytes
  {
    hide FromString, Run, BeforeRun, StreamBytes, Held, Ready, Settled, Flatten;
    var held := FromString(Held(Run(before)));
    SettledStep(before, ByteChunk(bytes));
    Latest(before, ByteChunk(bytes));
    HeldBytes(Run(before));
    NothingReady();
    FlattenOne(held);
    FlattenOne(bytes);
    FlattenTwo(held, bytes);
    FlattenNone<Byte>();
  }

  /** The buffers of a byte chunk: a replacement for a surrogate held, and the bytes. */
  lemma BytesFit(before: seq<Chunk>, bytes: Bytes, room: nat)
    ensures var held, step := FromString(Held(Run(before))), StepBuffers(before, ByteChunk(bytes));
      if Held(Run(before)) == [] then
        step == [bytes] && Fitting(step, room) == if |bytes| <= room then [bytes] else []
      else
        && step == [held, bytes]
        && Fitting(step, room)
           == if |held| > room then [] else if |held| + |bytes| > room then [held] else [held, bytes]
  {
    hide FromString, Held, Run, Fitting;
    var held := FromString(Held(Run(before)));
    FittingOne(bytes, room);
    FittingTwo(held, bytes, room);
    assert [held] + [bytes] == [held, bytes] && [] + [bytes] == [bytes];
  }

  /** A step's buffers are the bytes it settles. */
  lemma StepBytes(before: seq<Chunk>, chunk: Chunk)
    ensures Settled(before) + Flatten(StepBuffers(before, chunk)) == Settled(before + [chunk])
  {
    hide FromString, Run, BeforeRun, StreamBytes, Held, Ready, Settled, Flatten;
    SettledStep(before, chunk);
    NothingReady();
    FlattenNone<Byte>();
    var held := Held(Run(before));
    match chunk
    case TextChunk(units) => FlattenOne(FromString(Ready(held + units)));
    case ByteChunk(bytes) =>
      FlattenOne(bytes);
      FlattenTwo(FromString(held), bytes);
      assert [FromString(held)] + [bytes] == [FromString(held), bytes] && [] + [bytes] == [bytes];
      Associative(Settled(before), FromString(held), bytes);
  }

  /** The buffers hold the bytes of the stream. */
  lemma {:induction false} BuffersConserve(chunks: seq<Chunk>)
    ensures Flatten(PartBuffers(chunks)) == Settled(chunks) && Flatten(Buffers(chunks)) == StreamBytes(chunks)
    decreases |chunks|
  {
    hide FromString, Run, BeforeRun, StreamBytes, Held, Settled, Flatten, StepBuffers;
    FlattenNone<Byte>();
    NothingReady();
    if chunks == [] {
      NothingSettled();
    } else {
      var n := |chunks| - 1;
      BuffersConserve(chunks[..n]);
      StepBytes(chunks[..n], chunks[n]);
      FlattenAppend(PartBuffers(chunks[..n]), StepBuffers(chunks[..n], chunks[n]));
      assert chunks[..n] + [chunks[n]] == chunks;
    }
    SettledIsPrefix(chunks);
    FlattenOne(FromString(Held(Run(chunks))));
    FlattenAppend(PartBuffers(chunks), if Held(Run(chunks)) == [] then [] else [FromString(Held(Run(chunks)))]);
  }

  lemma NoBuffers()
    ensures PartBuffers([]) == []
  {
  }

  /** The buffers of one more chunk, as far as there is room behind those before it. */
  lemma BuffersStep(chunks: seq<Chunk>, i: nat, more: seq<Bytes>)
    requires i < |chunks| && |Flatten(PartBuffers(chunks[..i]))| <= MAX_STREAM_BYTES
    requires var room := MAX_STREAM_BYTES - |Flatten(PartBuffers(chunks[..i]))|;
      more == Fitting(StepBuffers(chunks[..i], chunks[i]), room)
    ensures more == StepBuffers(chunks[..i], chunks[i]) ==>
      PartBuffers(chunks[..i]) + more == PartBuffers(chunks[..i + 1])
    ensures more != StepBuffers(chunks[..i], chunks[i]) ==>
      PartBuffers(chunks[..i]) + more == Fitting(Buffers(chunks), MAX_STREAM_BYTES)
  {
    hide Fitting, StepBuffers, Flatten, Held, FromString, Buffers, PartBuffers;
    var before, step := PartBuffers(chunks[..i]), StepBuffers(chunks[..i], chunks[i]);
    PartStep(chunks, i);
    if more != step {
      var rest := BuffersRest(chunks, i + 1);
      Associative(before, step, rest);
      FittingAppend(before, step + rest, MAX_STREAM_BYTES);
      FittingAll(step, MAX_STREAM_BYTES - |Flatten(before)|);
      FittingAppend(step, rest, MAX_STREAM_BYTES - |Flatten(before)|);
    }
  }

  lemma PartStep(chunks: seq<Chunk>, i: nat)
    requires i < |chunks|
    ensures PartBuffers(chunks[..i + 1]) == PartBuffers(chunks[..i]) + StepBuffers(chunks[..i], chunks[i])
  {
    hide StepBuffers;
    assert chunks[..i + 1][..i] == chunks[..i];
  }

  /** The buffers behind those of the first chunks. */
  lemma {:induction false} BuffersRest(chunks: seq<Chunk>, i: nat) returns (rest: seq<Bytes>)
    requires i <= |chunks|
    ensures Buffers(chunks) == PartBuffers(chunks[..i]) + rest
    decreases |chunks| - i
  {
    hide StepBuffers, PartBuffers, Held;
    if i == |chunks| {
      assert chunks[..i] == chunks;
      rest := if Held(Run(chunks)) == [] then [] else [FromString(Held(Run(chunks)))];
    } else {
      var later := BuffersRest(chunks, i + 1);
      PartStep(chunks, i);
      rest := StepBuffers(chunks[..i], chunks[i]) + later;
    }
  }

  lemma BuffersEnd(chunks: seq<Chunk>, more: seq<Bytes>)
    requires |Flatten(PartBuffers(chunks))| <= MAX_STREAM_BYTES
    requires var last := if Held(Run(chunks)) == [] then [] else [FromString(Held(Run(chunks)))];
      more == Fitting(last, MAX_STREAM_BYTES - |Flatten(PartBuffers(chunks))|)
    ensures PartBuffers(chunks) + more == Fitting(Buffers(chunks), MAX_STREAM_BYTES)
  {
    hide Fitting, PartBuffers, Flatten, Held, FromString;
    var last := if Held(Run(chunks)) == [] then [] else [FromString(Held(Run(chunks)))];
    FittingAppend(PartBuffers(chunks), last, MAX_STREAM_BYTES);
  }

  lemma NothingSettled()
    ensures Settled([]) == []
  {
  }

  class ByteChunker {
    var pendingHighSurrogate: Text
    var size: nat
    ghost var chunks: seq<Chunk>
    ghost var yielded: Bytes

    ghost predicate Valid()
      reads this
    {
      && pendingHighSurrogate == Held(Run(chunks))
      && yielded == Settled(chunks)
      && size == |yielded| <= MAX_STREAM_BYTES
    }

    constructor ()
      ensures Valid() && chunks == [] && yielded == []
    {
      pendingHighSurrogate := [];
      size := 0;
      chunks := [];
      yielded := [];
    }

    /** One chunk in; the buffers it yields out. A refused chunk ends the stream. */
    method Feed(chunk: Chunk) returns (out: seq<Bytes>, ok: bool)
      requires Valid()
      modifies this
      ensures chunks == old(chunks) + [chunk]
      ensures yielded == old(yielded) + Flatten(out) && |yielded| <= MAX_STREAM_BYTES
      ensures ok <==> |Settled(chunks)| <= MAX_STREAM_BYTES
      ensures ok ==> Valid()
      ensures !ok ==> yielded < Settled(chunks)
      ensures out == Fitting(StepBuffers(old(chunks), chunk), MAX_STREAM_BYTES - |old(yielded)|)
      ensures ok <==> out == StepBuffers(old(chunks), chunk)
    {
      match chunk
      case TextChunk(units) => out, ok := FeedText(units);
      case ByteChunk(bytes) => out, ok := FeedBytes(bytes);
    }

    method FeedText(units: Text) returns (out: seq<Bytes>, ok: bool)
      requires Valid()
      modifies this
      ensures chunks == old(chunks) + [TextChunk(units)]
      ensures yielded == old(yielded) + Flatten(out) && |yielded| <= MAX_STREAM_BYTES
      ensures ok <==> |Settled(chunks)| <= MAX_STREAM_BYTES
      ensures ok ==> Valid()
      ensures !ok ==> yielded < Settled(chunks)
      ensures out == Fitting(StepBuffers(old(chunks), TextChunk(units)), MAX_STREAM_BYTES - |old(yielded)|)
      ensures ok <==> out == StepBuffers(old(chunks), TextChunk(units))
    {
      hide FromString, Run, BeforeRun, Settled, Flatten, Held, Ready;
      SettledStep(chunks, TextChunk(units));
      Latest(chunks, TextChunk(units));
      HeldStep(Run(chunks), units);
      chunks := chunks + [TextChunk(units)];
      var text, held := HoldBack(pendingHighSurrogate + units);
      pendingHighSurrogate := held;
      out, ok := [], true;
      FlattenOne(FromString(text));
      FlattenNone<Byte>();
      NothingReady();
      if |text| != 0 {
        size := size + |FromString(text)|;
        if size > MAX_STREAM_BYTES {
          return [], false;
        }
        out := [FromString(text)];
        yielded := yielded + FromString(text);
      }
    }

    method FeedBytes(bytes: Bytes) returns (out: seq<Bytes>, ok: bool)
      requires Valid()
      modifies this
      ensures chunks == old(chunks) + [ByteChunk(bytes)]
      ensures yielded == old(yielded) + Flatten(out) && |yielded| <= MAX_STREAM_BYTES
      ensures ok <==> |Settled(chunks)| <= MAX_STREAM_BYTES
      ensures ok ==> Valid()
      ensures !ok ==> yielded < Settled(chunks)
      ensures out == Fitting(StepBuffers(old(chunks), ByteChunk(bytes)), MAX_STREAM_BYTES - |old(yielded)|)
      ensures ok <==> out == StepBuffers(old(chunks), ByteChunk(bytes))
    {
      hide FromString, Run, BeforeRun, Settled, Flatten, Held, Ready, StreamBytes, Fitting, StepBuffers;
      var held := FromString(pendingHighSurrogate);
      BytesSettle(chunks, bytes);
      BytesFit(chunks, bytes, MAX_STREAM_BYTES - |yielded|);
      chunks := chunks + [ByteChunk(bytes)];
      out, ok := [], true;
      if pendingHighSurrogate != [] {
        size := size + UTF8_REPLACEMENT_BYTE_LENGTH;
        if size > MAX_STREAM_BYTES {
          return [], false;
        }
        out := [held];
        yielded := yielded + held;
        pendingHighSurrogate := [];
      }
      size := size + |bytes|;
      if size > MAX_STREAM_BYTES {
        return out, false;
      }
      ghost var before := out;
      out := out + [bytes];
      assert out == if before == [] then [bytes] else [held, bytes];
      yielded := yielded + bytes;
    }

    /** The end of the stream: a surrogate still held is replaced. */
    method Finish() returns (out: seq<Bytes>, ok: bool)
      requires Valid()
      modifies this
      ensures chunks == old(chunks) && yielded == old(yielded) + Flatten(out) && |yielded| <= MAX_STREAM_BYTES
      ensures ok <==> |StreamBytes(chunks)| <= MAX_STREAM_BYTES
      ensures ok ==> yielded == StreamBytes(chunks)
      ensures !ok ==> yielded < StreamBytes(chunks)
      ensures var last := if Held(Run(chunks)) == [] then [] else [FromString(Held(Run(chunks)))];
        out == Fitting(last, MAX_STREAM_BYTES - |old(yielded)|)
    {
      FittingOne(FromString(pendingHighSurrogate), MAX_STREAM_BYTES - |yielded|);
      FlattenOne(FromString(pendingHighSurrogate));
      FlattenNone<Byte>();
      hide Fitting, FromString, Held, Run, StreamBytes, Settled, Flatten;
      out, ok := [], true;
      SettledIsPrefix(chunks);
      HeldBytes(Run(chunks));
      if pendingHighSurrogate != [] {
        if size > MAX_STREAM_BYTES - UTF8_REPLACEMENT_BYTE_LENGTH {
          return out, false;
        }
        out := [FromString(pendingHighSurrogate)];
        yielded := yielded + FromString(pendingHighSurrogate);
      }
    }
  }

  /**
    A whole stream of chunks. It is refused exactly when the bytes it stands for exceed
    the limit of 64 MiB, and otherwise yields exactly those bytes.
   */
  method StreamByteChunks(chunks: seq<Chunk>) returns (out: seq<Bytes>, ok: bool)
    ensures ok <==> |StreamBytes(chunks)| <= 67_108_864
    ensures ok <==> |StreamBytes(chunks)| <= MAX_STREAM_BYTES
    ensures ok ==> Flatten(out) == StreamBytes(chunks)
    ensures !ok ==> Flatten(out) < StreamBytes(chunks) && |Flatten(out)| <= MAX_STREAM_BYTES
    ensures out == Fitting(Buffers(chunks), 67_108_864)
  {
    hide FromString, Run, BeforeRun, StreamBytes, Settled, Flatten, Fitting, StepBuffers, PartBuffers, Buffers;
    NoBuffers();
    var chunker := new ByteChunker();
    out := [];
    FlattenNone<Byte>();
    for i := 0 to |chunks|
      invariant fresh(chunker) && chunker.Valid()
      invariant chunker.chunks == chunks[..i] && chunker.yielded == Flatten(out)
      invariant out == PartBuffers(chunks[..i]) && |Flatten(out)| <= MAX_STREAM_BYTES
    {
      var more;
      more, ok := chunker.Feed(chunks[i]);
      FlattenAppend(out, more);
      BuffersStep(chunks, i, more);
      out := out + more;
      assert chunks[..i + 1] == chunks[..i] + [chunks[i]];
      if !ok {
        SettledGrows(chunks[..i + 1], chunks[i + 1..]);
        assert chunks[..i + 1] + chunks[i + 1..] == chunks;
        return;
      }
    }
    assert chunks[..|chunks|] == chunks;
    var more;
    more, ok := chunker.Finish();
    FlattenAppend(out, more);
    BuffersEnd(chunks, more);
    out := out + more;
  }

  /**
    `readStream`: the chunks joined. The limit is tested a second time over the yielded
    buffers, and that test never decides anything.
   */
  method ReadStream(chunks: seq<Chunk>) returns (read: Option<Bytes>)
    ensures read == if |StreamBytes(chunks)| <= 67_108_864 then Some(StreamBytes(chunks)) else None
  {
    hide StreamBytes, Buffers, Fitting, Flatten;
    FlattenNone<Byte>();
    var buffers, ok := StreamByteChunks(chunks);
    var size := 0;
    for i := 0 to |buffers|
      invariant size == |Flatten(buffers[..i])|
    {
      FlattenSnoc(buffers[..i], buffers[i]);
      assert buffers[..i + 1] == buffers[..i] + [buffers[i]];
      size := size + |buffers[i]|;
      FlattenAppend(buffers[..i + 1], buffers[i + 1..]);
      assert buffers == buffers[..i + 1] + buffers[i + 1..];
      if size > MAX_STREAM_BYTES {
        assert false;
      }
    }
    assert buffers[..|buffers|] == buffers;
    if !ok {
      return None;
    }
    return Some(BufferConcat(buffers, size));
  }
}
