/**
  Reading bytes from a caller-owned Python stream: `PythonReader` of
  python/src/codec.rs.

  A Python text stream counts characters, so one bounded read can yield more UTF-8 bytes
  than were asked for; the excess waits in `pending` for the next read.
 */
module PythonReader {
  import opened Sequences
  import opened Utf8

  /** What `source.read(n)` may come back with. Byte strings, byte arrays and memory views read alike. */
  datatype Reply =
    | Binary(bytes: Bytes)
    | Text(text: seq<Scalar>)
    | LoneSurrogateText
    | NotData
    | Raised

  datatype ReadError = TooManyBytes | TooManyCharacters | UnencodableText | WrongType | SourceRaised

  datatype ReadResult = ReadOk(count: nat) | ReadFailed

  /** The bytes a reply stands for. */
  function Content(reply: Reply): Bytes {
    match reply
    case Binary(bytes) => bytes
    case Text(text) => Encode(text)
    case _ => []
  }

  /** What is wrong with a reply to a request for size units, if anything. */
  function Fault(reply: Reply, size: nat): (fault: Option<ReadError>)
    ensures fault == Some(TooManyBytes) <==> reply.Binary? && |reply.bytes| > size
    ensures fault == Some(TooManyCharacters) <==> reply.Text? && |reply.text| > size
    ensures fault == Some(UnencodableText) <==> reply.LoneSurrogateText?
    ensures fault == Some(WrongType) <==> reply.NotData?
    ensures fault == Some(SourceRaised) <==> reply.Raised?
  {
    match reply
    case Binary(bytes) => if |bytes| > size then Some(TooManyBytes) else None
    case Text(text) => if |text| > size then Some(TooManyCharacters) else None
    case LoneSurrogateText => Some(UnencodableText)
    case NotData => Some(WrongType)
    case Raised => Some(SourceRaised)
  }

  function Least(a: nat, b: nat): nat { if a < b then a else b }

  /** A Python stream: it gives these replies in turn and then is at its end. */
  class Source {
    var script: seq<Reply>
    var calls: nat

    constructor (script: seq<Reply>)
      ensures this.script == script && calls == 0
    {
      this.script := script;
      calls := 0;
    }

    function Next(): Reply
      reads this
    {
      if script == [] then Binary([]) else script[0]
    }

    method Read() returns (reply: Reply)
      modifies this
      ensures reply == old(Next()) && calls == old(calls) + 1
      ensures script == if old(script) == [] then [] else old(script)[1..]
    {
      reply := Next();
      calls := calls + 1;
      if script != [] {
        script := script[1..];
      }
    }
  }

  class Reader {
    const source: Source
    var pending: Bytes
    var pendingOffset: nat
    var error: Option<ReadError>
    ghost var received: Bytes
    ghost var delivered: Bytes

    /** The bytes received and not yet delivered. */
    ghost function Waiting(): Bytes
      requires pendingOffset <= |pending|
      reads this
    {
      pending[pendingOffset..]
    }

    /** Nothing received is lost, repeated or moved. */
    ghost predicate Valid()
      reads this
    {
      && pendingOffset <= |pending|
      && (pendingOffset == |pending| ==> pending == [])
      && delivered + Waiting() == received
    }

    constructor (source: Source)
      ensures Valid() && this.source == source && error == None && received == [] && delivered == []
    {
      this.source := source;
      pending, pendingOffset := [], 0;
      error := None;
      received, delivered := [], [];
    }

    /** Hands out what fits of a fresh chunk and keeps the rest. */
    method CopyChunk(chunk: Bytes, output: array<Byte>) returns (count: nat)
      requires Valid() && pending == []
      modifies this`pending, this`pendingOffset, this`received, this`delivered, output
      ensures Valid() && received == old(received) + chunk
      ensures count <= output.Length && delivered == old(delivered) + output[..count]
      ensures output[count..] == old(output[count..])
      ensures count == if |chunk| < output.Length then |chunk| else output.Length
      ensures |Waiting()| == |chunk| - count
    {
      count := if output.Length < |chunk| then output.Length else |chunk|;
      CopyInto(output, chunk[..count]);
      received := received + chunk;
      delivered := delivered + chunk[..count];
      if count < |chunk| {
        pending := chunk[count..];
        pendingOffset := 0;
      }
      assert chunk == chunk[..count] + chunk[count..];
    }

    method Read(output: array<Byte>) returns (result: ReadResult)
      requires Valid()
      modifies this, source, output
      ensures Valid()
      ensures result.ReadOk? ==>
                && result.count <= output.Length
                && delivered == old(delivered) + output[..result.count]
                && output[result.count..] == old(output[result.count..])
      ensures result.ReadFailed? ==>
                error.Some? && delivered == old(delivered) && received == old(received) && output[..] == old(output[..])
      // After an error the source is never called again.
      ensures old(error).Some? ==> result.ReadFailed? && error == old(error) && source.calls == old(source.calls)
      ensures old(error).None? && output.Length == 0 ==> result == ReadOk(0) && source.calls == old(source.calls)
      // Waiting bytes are handed out before anything else is read.
      ensures old(error).None? && output.Length > 0 && old(Waiting()) != [] ==>
                && source.calls == old(source.calls) && source.script == old(source.script)
                && received == old(received)
                && result.ReadOk? && result.count > 0 && |Waiting()| < |old(Waiting())|
                && result.count == Least(output.Length, |old(Waiting())|)
      // Otherwise the source is asked exactly once.
      ensures old(error).None? && output.Length > 0 && old(Waiting()) == [] ==>
                && source.calls == old(source.calls) + 1
                && source.script == (if old(source.script) == [] then [] else old(source.script)[1..])
                && error == Fault(old(source.Next()), output.Length)
                && (result.ReadOk? <==> error.None?)
                && (result.ReadOk? ==>
                      && received == old(received) + Content(old(source.Next()))
                      && |Waiting()| <= 3 * output.Length
                      && result.count == Least(output.Length, |Content(old(source.Next()))|)
                      && (result.count == 0 <==> Content(old(source.Next())) == []))
      ensures old(error).None? && result.ReadOk? ==> error.None?
    {
      if error.Some? {
        return ReadFailed;
      }
      if output.Length == 0 {
        return ReadOk(0);
      }
      if pendingOffset < |pending| {
        var available := pending[pendingOffset..];
        var count := if output.Length < |available| then output.Length else |available|;
        CopyInto(output, available[..count]);
        assert available == available[..count] + available[count..];
        delivered := delivered + available[..count];
        pendingOffset := pendingOffset + count;
        if pendingOffset == |pending| {
          pending := [];
          pendingOffset := 0;
        }
        return ReadOk(count);
      }
      var value := source.Read();
      match value
      case Binary(bytes) =>
        if |bytes| > output.Length {
          error := Some(TooManyBytes);
          return ReadFailed;
        }
        var count := CopyChunk(bytes, output);
        return ReadOk(count);
      case Text(text) =>
        if |text| > output.Length {
          error := Some(TooManyCharacters);
          return ReadFailed;
        }
        EncodeSize(text);
        var count := CopyChunk(Encode(text), output);
        return ReadOk(count);
      case LoneSurrogateText =>
        error := Some(UnencodableText);
        return ReadFailed;
      case NotData =>
        error := Some(WrongType);
        return ReadFailed;
      case Raised =>
        error := Some(SourceRaised);
        return ReadFailed;
    }
  }

  method CopyInto(output: array<Byte>, data: Bytes)
    requires |data| <= output.Length
    modifies output
    ensures output[..|data|] == data && output[|data|..] == old(output[|data|..])
  {
    for i := 0 to |data|
      invariant output[..i] == data[..i]
      invariant output[|data|..] == old(output[|data|..])
    {
      output[i] := data[i];
    }
  }

  /** A character takes one to four bytes. */
  lemma {:induction false} EncodeSize(text: seq<Scalar>)
    ensures |text| <= |Encode(text)| <= 4 * |text|
  {
    if text != [] {
      EncodeSize(text[1..]);
    }
  }

  // ----- A whole stream -----

  /** The content of a stream: its replies up to the first empty one. */
  function Contents(script: seq<Reply>): Bytes {
    if script == [] || Content(script[0]) == [] then [] else Content(script[0]) + Contents(script[1..])
  }

  /** Whether every reply up to the first empty one is acceptable for requests of this size. */
  predicate Acceptable(script: seq<Reply>, size: nat) {
    script == [] || (Fault(script[0], size).None? && (Content(script[0]) == [] || Acceptable(script[1..], size)))
  }

  // ----- In plain terms -----

  /** A reply with data: bytes, or characters. */
  predicate HasData(reply: Reply) {
    (reply.Binary? && reply.bytes != []) || (reply.Text? && reply.text != [])
  }

  /** Data within what was asked for: bytes of a binary stream, characters of a text stream. */
  predicate Within(reply: Reply, size: nat) {
    (reply.Binary? && |reply.bytes| <= size) || (reply.Text? && |reply.text| <= size)
  }

  /** The replies that are read: those with data, and the one behind them. */
  predicate Reached(script: seq<Reply>, i: nat) {
    i < |script| && forall k :: 0 <= k < i ==> HasData(script[k])
  }

  ghost predicate Served(script: seq<Reply>, size: nat) {
    forall i: nat :: Reached(script, i) ==> Within(script[i], size)
  }

  /** Data laid end to end, text as UTF-8. */
  function Joined(replies: seq<Reply>): Bytes {
    if replies == [] then []
    else
      (match replies[0]
       case Binary(bytes) => bytes
       case Text(text) => Encode(text)
       case _ => [])
      + Joined(replies[1..])
  }

  lemma JoinedStep(script: seq<Reply>, n: nat)
    requires n <= |script|
    ensures n == 0 ==> Joined(script[..n]) == []
    ensures n > 0 ==> Joined(script[..n]) == Content(script[0]) + Joined(script[1..][..n - 1])
  {
    hide Encode;
    if n > 0 { assert script[..n][1..] == script[1..][..n - 1]; }
  }

  lemma DataIsContent(reply: Reply, size: nat)
    ensures Content(reply) != [] <==> HasData(reply)
    ensures Fault(reply, size).None? <==> Within(reply, size)
  {
    if reply.Text? { EncodeSize(reply.text); }
  }

  lemma {:induction false} AcceptableServed(script: seq<Reply>, size: nat)
    ensures Acceptable(script, size) <==> Served(script, size)
  {
    if script != [] {
      var rest := script[1..];
      AcceptableServed(rest, size);
      DataIsContent(script[0], size);
      hide Content, Fault, HasData, Within;
      assert Reached(script, 0);
      if HasData(script[0]) {
        forall i: nat ensures Reached(script, i + 1) <==> Reached(rest, i) {
          assert i < |rest| ==> script[i + 1] == rest[i];
          assert forall k :: 0 <= k < i < |rest| ==> script[k + 1] == rest[k];
          if Reached(rest, i) {
            forall k | 0 <= k < i + 1 ensures HasData(script[k]) {
              if 0 < k { assert HasData(rest[k - 1]); }
            }
          }
          if Reached(script, i + 1) {
            forall k | 0 <= k < i ensures HasData(rest[k]) { assert HasData(script[k + 1]); }
          }
        }
        ServedTail(script, size);
      } else {
        assert forall i: nat :: Reached(script, i) ==> i == 0;
      }
    }
  }

  lemma ServedTail(script: seq<Reply>, size: nat)
    requires script != [] && HasData(script[0])
    requires forall i: nat :: Reached(script, i + 1) <==> Reached(script[1..], i)
    ensures Served(script, size) <==> Within(script[0], size) && Served(script[1..], size)
  {
    hide HasData, Within;
    var rest := script[1..];
    assert Reached(script, 0);
    if Served(script, size) {
      forall i: nat | Reached(rest, i) ensures Within(rest[i], size) {
        assert Reached(script, i + 1) && script[i + 1] == rest[i];
      }
    }
    if Within(script[0], size) && Served(rest, size) {
      forall i: nat | Reached(script, i) ensures Within(script[i], size) {
        if 0 < i { assert Reached(script, i - 1 + 1) && rest[i - 1] == script[i]; }
      }
    }
  }

  /** The content of a stream is the data of its replies up to the first without any. */
  lemma {:induction false} ContentsJoined(script: seq<Reply>, n: nat)
    requires n <= |script| && (forall i :: 0 <= i < n ==> HasData(script[i]))
    requires n < |script| ==> !HasData(script[n])
    ensures Contents(script) == Joined(script[..n])
  {
    hide HasData, Fault, Content, Joined, Contents;
    ContentsStep(script, 0);
    JoinedStep(script, n);
    if script != [] {
      DataIsContent(script[0], 0);
      if n > 0 {
        ContentsJoined(script[1..], n - 1);
      }
    }
  }

  /** The data of the replies up to the first that is at fault or has none. */
  function BeforeFault(script: seq<Reply>, size: nat): Bytes {
    if script == [] || Fault(script[0], size).Some? || Content(script[0]) == [] then []
    else Content(script[0]) + BeforeFault(script[1..], size)
  }

  lemma {:induction false} BeforeFaultJoined(script: seq<Reply>, size: nat, n: nat)
    requires n <= |script| && (forall i :: 0 <= i < n ==> HasData(script[i]) && Within(script[i], size))
    requires n < |script| ==> !HasData(script[n]) || !Within(script[n], size)
    ensures BeforeFault(script, size) == Joined(script[..n])
  {
    hide HasData, Within, Fault, Content, Joined, BeforeFault;
    BeforeFaultStep(script, size);
    JoinedStep(script, n);
    if script != [] {
      DataIsContent(script[0], size);
      if n > 0 {
        BeforeFaultJoined(script[1..], size, n - 1);
      }
    }
  }

  lemma BeforeFaultStep(script: seq<Reply>, size: nat)
    ensures script == [] || Fault(script[0], size).Some? || Content(script[0]) == [] ==> BeforeFault(script, size) == []
    ensures script != [] && Fault(script[0], size).None? && Content(script[0]) != [] ==>
      BeforeFault(script, size) == Content(script[0]) + BeforeFault(script[1..], size)
  {
  }

  lemma ContentsStep(script: seq<Reply>, size: nat)
    ensures script == [] ==> Contents(script) == [] && Acceptable(script, size)
    ensures script != [] && Content(script[0]) == [] ==> Contents(script) == []
    ensures script != [] && Content(script[0]) != [] ==> Contents(script) == Content(script[0]) + Contents(script[1..])
    ensures script != [] ==>
              (Acceptable(script, size)
               <==> Fault(script[0], size).None? && (Content(script[0]) == [] || Acceptable(script[1..], size)))
  {
  }

  /**
    Reading a stream to its end through a buffer of any size yields exactly its content,
    and fails exactly when a reply on the way is unacceptable.
   */
  method ReadToEnd(script: seq<Reply>, size: nat) returns (bytes: Bytes, ok: bool)
    requires size > 0
    ensures ok <==> Acceptable(script, size)
    ensures ok <==> Served(script, size)
    ensures ok ==> bytes == Contents(script)
    ensures !ok ==> bytes <= Contents(script)
    ensures bytes == BeforeFault(script, size)
  {
    hide Contents, Acceptable, Content, Fault, Served, BeforeFault;
    AcceptableServed(script, size);
    var source := new Source(script);
    var reader := new Reader(source);
    var output := new Byte[size](_ => 0);
    bytes := [];
    while true
      invariant fresh(reader) && fresh(source) && fresh(output) && reader.source == source && output.Length == size
      invariant reader.Valid() && reader.error.None?
      invariant bytes == reader.delivered
      invariant Contents(script) == reader.received + Contents(source.script)
      invariant BeforeFault(script, size) == reader.received + BeforeFault(source.script, size)
      invariant Acceptable(script, size) <==> Acceptable(source.script, size)
      decreases |source.script|, |reader.Waiting()|
    {
      ghost var left, received := source.script, reader.received;
      ContentsStep(left, size);
      BeforeFaultStep(left, size);
      NothingMore();
      var result := reader.Read(output);
      if result.ReadFailed? {
        return bytes, false;
      }
      bytes := bytes + output[..result.count];
      if result.count == 0 {
        return bytes, true;
      }
      if left != [] {
        Associative(received, Content(left[0]), Contents(left[1..]));
        Associative(received, Content(left[0]), BeforeFault(left[1..], size));
      }
    }
  }

  lemma NothingMore()
    ensures Content(Binary([])) == []
    ensures forall size: nat {:trigger Fault(Binary([]), size)} :: Fault(Binary([]), size) == None
  {
  }
}
