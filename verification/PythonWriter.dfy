/**
  Writing bytes to a caller-owned Python stream: `PythonWriter` and
  `write_python_text` of python/src/codec.rs.

  Bytes are offered first. A `TypeError` on the very first offer switches the writer to
  text, which it decodes incrementally: at most an incomplete code point waits between
  two writes.
 */
module PythonWriter {
  import opened Sequences
  import opened Utf8

  /** What one `destination.write(...)` may come back with. */
  datatype Reply =
    | NoneReturned
    | Count(n: nat)
    | Boolean
    | NotACount
    | TypeErrorRaised
    | OtherErrorRaised

  datatype WriteError =
    | CountOutOfRange
    | CountExpected
    | DestinationTypeError
    | DestinationError
    | InvalidUtf8
    | IncompleteUtf8

  /**
    `checked_written`: how many of the offered units a reply accepts, or what is wrong
    with it. A count from one to what was offered is taken at its word.
   */
  function Accepted(reply: Reply, offered: nat): (accepted: Result<nat, WriteError>)
    ensures accepted.Ok? <==> reply.NoneReturned? || (reply.Count? && 1 <= reply.n <= offered)
    ensures reply.Count? && accepted.Ok? ==> accepted == Ok(reply.n)
    ensures reply.NoneReturned? ==> accepted == Ok(offered)
    ensures reply.Count? && accepted.Err? ==> accepted == Err(CountOutOfRange)
    ensures reply.TypeErrorRaised? <==> accepted == Err(DestinationTypeError)
    ensures reply.OtherErrorRaised? <==> accepted == Err(DestinationError)
    ensures accepted.Ok? ==> accepted.value <= offered && (offered > 0 ==> accepted.value > 0)
    ensures accepted.Err? ==> accepted.error != InvalidUtf8 && accepted.error != IncompleteUtf8
  {
    match reply
    case NoneReturned => Ok(offered)
    case Count(n) => if n == 0 || n > offered then Err(CountOutOfRange) else Ok(n)
    case Boolean => Err(CountExpected)
    case NotACount => Err(CountExpected)
    case TypeErrorRaised => Err(DestinationTypeError)
    case OtherErrorRaised => Err(DestinationError)
  }

  /**
    What a stream that gives this reply has kept of what it was offered: as many units as
    it says, all of them when it says nothing, and none otherwise.
   */
  function Kept(reply: Reply, offered: nat): (kept: nat)
    ensures kept <= offered
  {
    if reply.NoneReturned? then offered
    else if reply.Count? && reply.n <= offered then reply.n
    else 0
  }

  /** One call of `write`: how many bytes or characters were offered, and what came back. */
  datatype Call = Call(offered: nat, reply: Reply)

  /** The units a stream has kept over all its calls, by its own account. */
  function Reported(calls: seq<Call>): nat {
    if calls == [] then 0
    else
      var n := |calls| - 1;
      Reported(calls[..n]) + Kept(calls[n].reply, calls[n].offered)
  }

  /** The calls got these replies in turn, and None when there were no more. */
  predicate Replied(calls: seq<Call>, replies: seq<Reply>) {
    forall i :: 0 <= i < |calls| ==> calls[i].reply == if i < |replies| then replies[i] else NoneReturned
  }

  /**
    A Python stream that gives these replies in turn and afterwards takes everything. It
    keeps the units it reports: bytes if it is binary, characters if it is text.
   */
  class Destination {
    var script: seq<Reply>
    var bytes: Bytes
    var text: seq<Scalar>
    var calls: seq<Call>
    ghost const replies: seq<Reply>

    constructor (script: seq<Reply>)
      ensures this.script == replies == script && bytes == [] && text == [] && calls == []
      ensures Honest()
    {
      this.script := script;
      replies := script;
      bytes, text, calls := [], [], [];
    }

    /** What arrived is what the calls report, and they got the replies in turn. */
    ghost predicate Honest()
      reads this
    {
      && |bytes| + |text| == Reported(calls) && Replied(calls, replies)
      && script == if |calls| <= |replies| then replies[|calls|..] else []
    }

    lemma Account()
      requires Honest()
      ensures |bytes| + |text| == Reported(calls) && Replied(calls, replies)
    {
    }

    function Next(): Reply
      reads `script
    {
      First(script)
    }

    method WriteBytes(data: Bytes) returns (reply: Reply)
      modifies this
      ensures reply == old(Next()) && script == Rest(old(script)) && text == old(text)
      ensures bytes == old(bytes) + data[..Kept(reply, |data|)]
      ensures calls == old(calls) + [Call(|data|, reply)]
      ensures old(Honest()) ==> Honest()
    {
      reply := Next();
      script := Rest(script);
      bytes := bytes + data[..Kept(reply, |data|)];
      calls := calls + [Call(|data|, reply)];
      assert calls[..|calls| - 1] == old(calls);
    }

    /** A Python string is offered; the stream counts its characters. */
    method WriteText(data: Bytes) returns (reply: Reply)
      modifies this
      ensures reply == old(Next()) && script == Rest(old(script)) && bytes == old(bytes)
      ensures text == old(text) + Decode(data)[..Kept(reply, |Decode(data)|)]
      ensures calls == old(calls) + [Call(|Decode(data)|, reply)]
      ensures old(Honest()) ==> Honest()
    {
      hide Decode;
      reply := Next();
      script := Rest(script);
      text := text + Decode(data)[..Kept(reply, |Decode(data)|)];
      calls := calls + [Call(|Decode(data)|, reply)];
      assert calls[..|calls| - 1] == old(calls);
    }
  }

  function Rest(script: seq<Reply>): seq<Reply> {
    if script == [] then [] else script[1..]
  }

  /** How offering some units, bytes or characters, again and again goes: how many are taken, and how it ends. */
  datatype OfferRun = OfferRun(taken: nat, error: Option<WriteError>, script: seq<Reply>)

  function Offer(script: seq<Reply>, units: nat): (run: OfferRun)
    ensures run.taken <= units && (run.error.None? <==> run.taken == units)
    decreases units
  {
    if units == 0 then OfferRun(0, None, script)
    else
      match Accepted(First(script), units)
      case Err(error) => OfferRun(0, Some(error), Rest(script))
      case Ok(n) =>
        var later := Offer(Rest(script), units - n);
        later.(taken := n + later.taken)
  }

  // ----- Characters and bytes of a string -----

  /** The byte where the n-th character starts, or the end of the string. */
  function CharacterOffset(input: Bytes, n: nat): (offset: nat)
    requires Validate(input) == Whole
    ensures offset <= |input|
    decreases n
  {
    if n == 0 || input == [] then 0
    else
      var width := ScanOne(input).width;
      width + CharacterOffset(input[width..], n - 1)
  }

  /** Cutting a string at a character's byte cuts its text at that character. */
  lemma {:induction false} CutAtCharacter(input: Bytes, n: nat)
    requires Validate(input) == Whole
    ensures Validate(input[CharacterOffset(input, n)..]) == Whole
    ensures n <= |Decode(input)| ==> Decode(input[CharacterOffset(input, n)..]) == Decode(input)[n..]
    ensures n < |Decode(input)| ==> CharacterOffset(input, n) < |input|
    decreases n
  {
    hide ScanOne, Validate, Decode;
    if n == 0 || input == [] {
      assert input[0..] == input;
      WholeText(input);
    } else {
      FirstCharacter(input);
      var width := ScanOne(input).width;
      CutAtCharacter(input[width..], n - 1);
      var offset := CharacterOffset(input[width..], n - 1);
      assert input[width..][offset..] == input[width + offset..];
      assert n <= |Decode(input)| ==> Decode(input)[n..] == Decode(input)[1..][n - 1..];
    }
  }

  lemma FirstCharacter(input: Bytes)
    requires Validate(input) == Whole && input != []
    ensures ScanOne(input).Complete?
    ensures var width := ScanOne(input).width;
            && width <= |input| && Validate(input[width..]) == Whole
            && |Decode(input)| == 1 + |Decode(input[width..])| && Decode(input)[1..] == Decode(input[width..])
  {
  }

  /**
    `write_python_text`: counts in characters, cuts in bytes, and offers what is left
    until the destination has taken the whole text.
   */
  method WritePythonText(destination: Destination, text: Bytes) returns (error: Option<WriteError>)
    requires Validate(text) == Whole
    modifies destination
    ensures var run := Offer(old(destination.script), |Decode(text)|);
            && error == run.error && destination.script == run.script
            && destination.text == old(destination.text) + Decode(text)[..run.taken]
    ensures destination.bytes == old(destination.bytes)
    ensures old(destination.Honest()) ==> destination.Honest()
  {
    hide Validate, Decode, CharacterOffset, Offer, Accepted, Destination.Honest;
    var input := text;
    var remainingCharacters := |Decode(text)|;
    ghost var taken := 0;
    ghost var whole, before := Decode(text), destination.text;
    WholeText(text);
    while input != []
      invariant taken <= |whole| && remainingCharacters == |whole| - taken
      invariant Validate(input) == Whole && Decode(input) == whole[taken..]
      invariant input == [] <==> remainingCharacters == 0
      invariant destination.text == before + whole[..taken] && destination.bytes == old(destination.bytes)
      invariant old(destination.Honest()) ==> destination.Honest()
      invariant var run, now := Offer(old(destination.script), |whole|), Offer(destination.script, remainingCharacters);
                run == Onward(taken, now)
      decreases remainingCharacters
    {
      OfferStep(destination.script, remainingCharacters);
      var reply := destination.WriteText(input);
      var written := 0;
      match Accepted(reply, remainingCharacters) {
        case Err(e) => return Some(e);
        case Ok(n) => written := n;
      }
      PrefixGrows(before, whole, taken, written);
      if written == remainingCharacters {
        return None;
      }
      CutAtCharacter(input, written);
      input := input[CharacterOffset(input, written)..];
      taken := taken + written;
      remainingCharacters := remainingCharacters - written;
      WholeText(input);
    }
    assert whole[..taken] == whole;
    OfferStep(destination.script, 0);
    return None;
  }

  /** What a stream with these replies answers next. */
  function First(script: seq<Reply>): Reply {
    if script == [] then NoneReturned else script[0]
  }

  function Onward(taken: nat, run: OfferRun): OfferRun {
    run.(taken := taken + run.taken)
  }

  lemma OfferStep(script: seq<Reply>, characters: nat)
    ensures Offer(script, 0) == OfferRun(0, None, script)
    ensures characters > 0 ==>
              var accepted := Accepted(First(script), characters);
              Offer(script, characters) ==
                match accepted
                case Err(e) => OfferRun(0, Some(e), Rest(script))
                case Ok(n) =>
                  var later := Offer(Rest(script), characters - n);
                  later.(taken := n + later.taken)
    ensures Offer(Rest(script), 0) == OfferRun(0, None, Rest(script))
  {
  }

  lemma NothingOffered(script: seq<Reply>)
    ensures Offer(script, 0) == OfferRun(0, None, script)
  {
  }

  lemma PrefixGrows<T>(before: seq<T>, input: seq<T>, taken: nat, more: nat)
    requires taken + more <= |input|
    ensures before + input[..taken] + input[taken..][..more] == before + input[..taken + more]
    ensures input[taken..][more..] == input[taken + more..]
  {
    assert input[..taken] + input[taken..][..more] == input[..taken + more];
  }

  lemma WholeText(input: Bytes)
    requires Validate(input) == Whole
    ensures input == [] <==> |Decode(input)| == 0
    ensures Decode(input)[0..] == Decode(input)
  {
  }

  // ----- The writer -----

  datatype Mode = Unknown | BinaryMode | TextMode

  datatype WriteResult = WriteOk(count: nat) | WriteFailed

  /** Whether the next bytes go out as text: after a type error on the very first offer, and from then on. */
  predicate AsText(mode: Mode, next: Reply) {
    mode == TextMode || (mode == Unknown && next.TypeErrorRaised?)
  }

  /** The replies left for the text, once the first offer of bytes was refused. */
  function TextScript(mode: Mode, script: seq<Reply>): seq<Reply> {
    if mode == TextMode then script else Rest(script)
  }

  /**
    What more input in text mode comes to: nothing is offered of malformed text, and
    otherwise what can newly be decoded is offered until it is taken.
   */
  function TextTurn(consumed: Bytes, input: Bytes, script: seq<Reply>): OfferRun {
    var all := consumed + input;
    if Validate(all).Invalid? then OfferRun(0, Some(InvalidUtf8), script)
    else Offer(script, if |Decode(consumed)| <= |Decode(all)| then |Decode(all)| - |Decode(consumed)| else 0)
  }

  /** More input never takes back text. */
  lemma DecodeGrows(consumed: Bytes, input: Bytes)
    ensures Decode(consumed) <= Decode(consumed + input)
  {
    hide Decode, Validate, ValidLength;
    Resume(consumed, input);
  }

  lemma TurnTakes(consumed: Bytes, input: Bytes, script: seq<Reply>)
    ensures |Decode(consumed)| + TextTurn(consumed, input, script).taken <= |Decode(consumed + input)|
  {
    hide Decode, Validate, Offer;
    DecodeGrows(consumed, input);
  }

  class Writer {
    const destination: Destination
    var mode: Mode
    var pendingUtf8: Bytes
    var error: Option<WriteError>
    ghost var consumed: Bytes

    /**
      What was consumed and what the destination holds, while no error happened: in text
      mode the text of the whole of it, less an incomplete code point that waits.
     */
    ghost predicate Valid()
      reads this, destination
    {
      error.None? ==>
        match mode
        case Unknown => consumed == pendingUtf8 == [] && destination.bytes == [] && destination.text == []
        case BinaryMode => destination.bytes == consumed && destination.text == [] && pendingUtf8 == []
        case TextMode =>
          && destination.bytes == [] && destination.text == Decode(consumed)
          && !Validate(consumed).Invalid?
          && pendingUtf8 == consumed[ValidLength(consumed)..]
    }

    constructor (destination: Destination)
      requires destination.bytes == [] && destination.text == []
      ensures Valid() && this.destination == destination && consumed == [] && mode == Unknown && error == None
    {
      this.destination := destination;
      mode := Unknown;
      pendingUtf8 := [];
      error := None;
      consumed := [];
    }

    /**
      `write_binary`: bytes, of which the destination accepts some. Only a type error on
      the first offer of all switches to text.
     */
    method WriteBinary(input: Bytes) returns (result: WriteResult)
      requires Valid() && error.None? && mode != TextMode && input != []
      modifies this, destination
      ensures Valid() && (old(destination.Honest()) ==> destination.Honest())
      ensures mode == TextMode <==> old(mode) == Unknown && old(destination.Next()).TypeErrorRaised?
      ensures old(mode) == BinaryMode ==> mode == BinaryMode
      ensures result.WriteOk? <==> error.None?
      ensures result.WriteOk? ==> 0 < result.count <= |input| && consumed == old(consumed) + input[..result.count]
      ensures mode == TextMode ==>
                && (error.None? ==> result == WriteOk(|input|) && consumed == old(consumed) + input)
                && TurnedText(old(consumed), input, Rest(old(destination.script)))
      ensures mode != TextMode ==>
                OfferedBytes(old(mode), old(consumed), input, old(destination.Next()), Rest(old(destination.script)),
                    result)
    {
      hide Validate, Decode, ValidLength, Offer, TextTurn, Destination.Honest;
      var reply := destination.WriteBytes(input);
      if reply.TypeErrorRaised? && mode == Unknown {
        mode := TextMode;
        NothingDecoded();
        var failed := WriteTextBytes(input);
        return if failed then WriteFailed else WriteOk(|input|);
      }
      if !reply.TypeErrorRaised? && !reply.OtherErrorRaised? {
        mode := BinaryMode;
      }
      match Accepted(reply, |input|)
      case Err(e) =>
        error := Some(e);
        return WriteFailed;
      case Ok(written) =>
        consumed := consumed + input[..written];
        return WriteOk(written);
    }

    /** The outcome of more input in text mode, when nothing failed before. */
    ghost predicate TurnedText(before: Bytes, input: Bytes, script: seq<Reply>)
      reads this, destination
    {
      var run := TextTurn(before, input, script);
      && error == run.error && destination.script == run.script && destination.bytes == []
      && |Decode(before)| + run.taken <= |Decode(before + input)|
      && destination.text == Decode(before + input)[..|Decode(before)| + run.taken]
    }

    /** The outcome of one offer of bytes, when nothing failed before. */
    ghost predicate OfferedBytes(was: Mode, before: Bytes, input: Bytes, reply: Reply, rest: seq<Reply>,
                                 result: WriteResult)
      reads this, destination
    {
      && destination.script == rest && destination.text == []
      && mode == (if reply.TypeErrorRaised? || reply.OtherErrorRaised? then was else BinaryMode)
      && match Accepted(reply, |input|)
         case Ok(n) =>
           result == WriteOk(n) && error == None && destination.bytes == consumed == before + input[..n]
         case Err(e) =>
           result == WriteFailed && error == Some(e) && destination.bytes == consumed == before
    }

    /** Decodes what can be decoded of the waiting bytes and the input, and keeps the rest. */
    method WriteTextBytes(input: Bytes) returns (failed: bool)
      requires mode == TextMode && error.None?
      requires destination.bytes == [] && destination.text == Decode(consumed) && !Validate(consumed).Invalid?
      requires pendingUtf8 == consumed[ValidLength(consumed)..]
      modifies this, destination
      ensures Valid() && mode == TextMode && (old(destination.Honest()) ==> destination.Honest())
      ensures failed <==> error.Some?
      ensures !failed ==> consumed == old(consumed) + input
      ensures TurnedText(old(consumed), input, old(destination.script))
    {
      hide Validate, Decode, ValidLength, Offer, Accepted, Destination.Honest;
      Resume(consumed, input);
      pendingUtf8 := pendingUtf8 + input;
      ghost var all := consumed + input;
      VerdictParts(pendingUtf8);
      VerdictParts(all);
      assert |consumed| >= ValidLength(consumed);
      var verdict := Validate(pendingUtf8);
      if verdict.Invalid? {
        error := Some(InvalidUtf8);
        return true;
      }
      var incomplete := verdict.Incomplete?;
      var validLength := if incomplete then verdict.validUpTo else |pendingUtf8|;
      assert all[ValidLength(all)..] == pendingUtf8[validLength..];
      OfferStep(destination.script, 0);
      if validLength != 0 {
        ValidPrefix(pendingUtf8);
        OfferErrors(destination.script, |Decode(pendingUtf8)|);
        var refused := WritePythonText(destination, pendingUtf8[..validLength]);
        if refused.Some? {
          error := refused;
          return true;
        }
        pendingUtf8 := pendingUtf8[validLength..];
      }
      if !incomplete && pendingUtf8 != [] {
        assert false;
      }
      consumed := all;
      return false;
    }

    /** `write`: an earlier error is final, and nothing is offered of nothing. */
    method Write(input: Bytes) returns (result: WriteResult)
      requires Valid()
      modifies this, destination
      ensures Valid() && (old(destination.Honest()) ==> destination.Honest())
      ensures old(error).Some? || input == [] ==>
                Untouched(old(mode), old(consumed), old(error), old(destination.bytes),
                          old(destination.text), old(destination.script))
      ensures old(error).Some? ==> result == WriteFailed
      ensures old(error).None? && input == [] ==> result == WriteOk(0)
      ensures old(mode) != Unknown ==> mode == old(mode)
      ensures result.WriteOk? ==> result.count <= |input| && consumed == old(consumed) + input[..result.count]
      ensures result.WriteOk? && input != [] ==> result.count > 0 && (mode == TextMode ==> result.count == |input|)
      ensures old(error).None? && input != [] ==> (result.WriteOk? <==> error.None?)
      ensures old(error).None? && input != [] ==> (mode == TextMode <==> AsText(old(mode), old(destination.Next())))
      ensures old(error).None? && input != [] && mode == TextMode ==>
                && (error.None? ==> result == WriteOk(|input|) && consumed == old(consumed) + input)
                && TurnedText(old(consumed), input, TextScript(old(mode), old(destination.script)))
      ensures old(error).None? && input != [] && mode != TextMode ==>
                OfferedBytes(old(mode), old(consumed), input, old(destination.Next()), Rest(old(destination.script)),
                    result)
    {
      hide Validate, Decode, ValidLength, Accepted, Valid, TurnedText, OfferedBytes, Destination.Honest;
      if error.Some? {
        return WriteFailed;
      }
      if |input| == 0 {
        return WriteOk(0);
      }
      match mode
      case TextMode =>
        TextValid();
        var failed := WriteTextBytes(input);
        return if failed then WriteFailed else WriteOk(|input|);
      case _ =>
        result := WriteBinary(input);
    }

    ghost predicate Untouched(was: Mode, before: Bytes, failure: Option<WriteError>, bytes: Bytes, text: seq<Scalar>,
                              script: seq<Reply>)
      reads this, destination
    {
      && mode == was && consumed == before && error == failure
      && destination.bytes == bytes && destination.text == text && destination.script == script
    }

    lemma NeverInvalid()
      requires Valid() && error.None?
      ensures mode != BinaryMode ==> !Validate(consumed).Invalid?
    {
    }

    /** What the destination holds while nothing failed. */
    lemma Holds()
      requires Valid() && error.None?
      ensures mode == TextMode ==> destination.bytes == [] && destination.text == Decode(consumed)
      ensures mode == BinaryMode ==> destination.bytes == consumed && destination.text == []
      ensures mode == Unknown ==> consumed == [] && destination.bytes == [] && destination.text == []
    {
    }

    lemma TextValid()
      requires Valid() && error.None? && mode == TextMode
      ensures destination.bytes == [] && destination.text == Decode(consumed) && !Validate(consumed).Invalid?
      ensures pendingUtf8 == consumed[ValidLength(consumed)..]
    {
    }

    /**
      The caller's loop around short writes. As text the input goes out at once; as bytes
      it is offered until it is taken, and what was taken is a prefix of it.
     */
    method WriteAll(input: Bytes) returns (ok: bool)
      requires Valid() && error.None?
      modifies this, destination
      ensures Valid() && (ok <==> error.None?) && (old(destination.Honest()) ==> destination.Honest())
      ensures ok ==> consumed == old(consumed) + input
      ensures old(mode) != Unknown ==> mode == old(mode)
      ensures input == [] ==> Untouched(old(mode), old(consumed), old(error), old(destination.bytes),
                                        old(destination.text), old(destination.script))
      ensures input != [] ==> (mode == TextMode <==> AsText(old(mode), old(destination.Next())))
      ensures input != [] && mode == TextMode ==>
                TurnedText(old(consumed), input, TextScript(old(mode), old(destination.script)))
      ensures input != [] && mode != TextMode ==>
                && WroteBytes(old(consumed), input, old(destination.script))
                && (ok ==> mode == BinaryMode)
    {
      hide Validate, Decode, ValidLength, Accepted, Valid, Offer, TurnedText, OfferedBytes, Destination.Honest;
      ghost var script, was := old(destination.script), old(mode);
      var rest := input;
      while rest != []
        invariant |rest| <= |input| && rest == input[|input| - |rest|..]
        invariant Valid() && error.None? && consumed == old(consumed) + input[..|input| - |rest|]
        invariant old(destination.Honest()) ==> destination.Honest()
        invariant rest == input ==>
            Untouched(was, old(consumed), None, old(destination.bytes), old(destination.text), script)
        invariant rest != input ==> (mode == TextMode <==> AsText(was, old(destination.Next())))
        invariant rest != input && mode == TextMode ==>
                    rest == [] && TurnedText(old(consumed), input, TextScript(was, script))
        invariant rest != input && mode != TextMode ==> mode == BinaryMode
        invariant mode != TextMode ==>
                    Offer(script, |input|) == Onward(|input| - |rest|, Offer(destination.script, |rest|))
        decreases |rest|
      {
        ghost var before, taken, left := consumed, |input| - |rest|, destination.script;
        ghost var turned := mode;
        var result := Write(rest);
        if mode != TextMode {
          BytesOffered(turned, before, rest, left, result);
          PrefixGrows(old(consumed), input, taken, if result.WriteOk? then result.count else 0);
        }
        if result.WriteFailed? {
          return false;
        }
        rest := rest[result.count..];
      }
      NothingOffered(destination.script);
      Holds();
      assert input[..|input|] == input;
      return true;
    }

    /** One offer of bytes as the first step of offering them until they are taken. */
    lemma BytesOffered(was: Mode, before: Bytes, input: Bytes, script: seq<Reply>, result: WriteResult)
      requires input != [] && OfferedBytes(was, before, input, First(script), Rest(script), result)
      ensures destination.text == [] && destination.bytes == consumed
      ensures result.WriteOk? ==>
                && 0 < result.count <= |input| && consumed == before + input[..result.count]
                && error == None && mode == BinaryMode
                && Offer(script, |input|) == Onward(result.count, Offer(destination.script, |input| - result.count))
      ensures result.WriteFailed? ==>
                && consumed == before && error.Some?
                && Offer(script, |input|) == OfferRun(0, error, destination.script)
    {
      OfferStep(script, |input|);
      hide Offer;
    }

    /** The outcome of offering bytes until they are taken, when nothing failed before. */
    ghost predicate WroteBytes(before: Bytes, input: Bytes, script: seq<Reply>)
      reads this, destination
    {
      var run := Offer(script, |input|);
      && error == run.error && destination.script == run.script && destination.text == []
      && destination.bytes == consumed == before + input[..run.taken]
    }

    /** The end of the document: an earlier error comes out, or text that stops inside a code point. */
    method Finish() returns (failure: Option<WriteError>)
      requires Valid()
      modifies this
      ensures old(error).Some? ==> failure == old(error)
      ensures old(error).None? ==>
                failure == if mode == TextMode && !Validate(consumed).Whole? then Some(IncompleteUtf8) else None
      ensures mode == old(mode) && consumed == old(consumed)
    {
      hide Validate, Decode, ValidLength;
      if error.Some? {
        failure := error;
        error := None;
        return;
      }
      VerdictParts(consumed);
      if mode == TextMode && pendingUtf8 != [] {
        return Some(IncompleteUtf8);
      }
      return None;
    }
  }

  lemma NothingDecoded()
    ensures Validate([]) == Whole && Decode([]) == [] && ValidLength([]) == 0
  {
  }

  lemma VerdictParts(s: Bytes)
    ensures Validate(s).Whole? ==> ValidLength(s) == |s|
    ensures !Validate(s).Whole? ==> ValidLength(s) == Validate(s).validUpTo
    ensures ValidLength(s) == 0 ==> Decode(s) == []
  {
    EncodeDecode(s);
    if Decode(s) != [] {
      EncodeGrows(Decode(s));
    }
  }

  lemma EncodeGrows(text: seq<Scalar>)
    requires text != []
    ensures Encode(text) != []
  {
  }

  /** A destination never reports a fault of the encoding. */
  lemma {:induction false} OfferErrors(script: seq<Reply>, characters: nat)
    ensures Offer(script, characters).error != Some(InvalidUtf8)
    ensures Offer(script, characters).error != Some(IncompleteUtf8)
    decreases characters
  {
    if characters != 0 {
      match Accepted(First(script), characters)
      case Err(_) =>
      case Ok(n) => OfferErrors(Rest(script), characters - n);
    }
  }

  // ----- A whole document -----

  /** What is malformed stays malformed, whatever follows. */
  lemma InvalidExtends(s: Bytes, more: Bytes)
    requires Validate(s).Invalid?
    ensures Validate(s + more).Invalid?
  {
    hide Validate, ValidLength, ScanOne;
    Resume(s, more);
    VerdictParts(s);
    MalformedAt(s);
    var rest := s[ValidLength(s)..];
    ScanExtends(rest, more);
    MalformedFirst(rest + more);
  }

  lemma {:induction false} MalformedAt(s: Bytes)
    requires Validate(s).Invalid?
    ensures ValidLength(s) < |s| && ScanOne(s[ValidLength(s)..]).Malformed?
  {
    hide ScanOne;
    if ScanOne(s).Complete? {
      var width := ScanOne(s).width;
      MalformedAt(s[width..]);
      assert s[width..][ValidLength(s[width..])..] == s[ValidLength(s)..];
    } else {
      assert s[0..] == s;
    }
  }

  lemma MalformedFirst(s: Bytes)
    requires s != [] && ScanOne(s).Malformed?
    ensures Validate(s).Invalid?
  {
  }

  datatype Outcome = Outcome(failure: Option<WriteError>, bytes: Bytes, text: seq<Scalar>)

  /** Whether a document goes out as text: the very first offer of its bytes is a type error. */
  predicate Textual(script: seq<Reply>, document: Bytes) {
    document != [] && First(script).TypeErrorRaised?
  }

  /** Pieces offered as bytes, one after the other until one is refused. */
  function BytePieces(script: seq<Reply>, pieces: seq<Bytes>): OfferRun
    decreases |pieces|
  {
    if pieces == [] then OfferRun(0, None, script)
    else
      var run := Offer(script, |pieces[0]|);
      if run.error.Some? then run else Onward(run.taken, BytePieces(run.script, pieces[1..]))
  }

  /** Pieces offered as text behind what was consumed; the end must not be inside a code point. */
  function TextPieces(consumed: Bytes, script: seq<Reply>, pieces: seq<Bytes>): OfferRun
    decreases |pieces|
  {
    if pieces == [] then OfferRun(0, if Validate(consumed).Whole? then None else Some(IncompleteUtf8), script)
    else
      var run := TextTurn(consumed, pieces[0], script);
      if run.error.Some? then run
      else Onward(run.taken, TextPieces(consumed + pieces[0], run.script, pieces[1..]))
  }

  lemma {:induction false} BytesTaken(script: seq<Reply>, pieces: seq<Bytes>)
    ensures BytePieces(script, pieces).taken <= |Flatten(pieces)|
    decreases |pieces|
  {
    if pieces != [] {
      var run := Offer(script, |pieces[0]|);
      BytesTaken(run.script, pieces[1..]);
    }
  }

  lemma {:induction false} TextTaken(consumed: Bytes, script: seq<Reply>, pieces: seq<Bytes>)
    ensures |Decode(consumed)| + TextPieces(consumed, script, pieces).taken <= |Decode(consumed + Flatten(pieces))|
    decreases |pieces|
  {
    hide Decode, Validate, TextTurn;
    if pieces == [] {
      assert consumed + Flatten(pieces) == consumed;
    } else {
      var run := TextTurn(consumed, pieces[0], script);
      TurnTakes(consumed, pieces[0], script);
      if run.error.None? { TurnAll(consumed, pieces[0], script); }
      Associative(consumed, pieces[0], Flatten(pieces[1..]));
      DecodeGrows(consumed + pieces[0], Flatten(pieces[1..]));
      TextTaken(consumed + pieces[0], run.script, pieces[1..]);
    }
  }

  /** A turn without error delivers all that can be decoded. */
  lemma TurnAll(consumed: Bytes, input: Bytes, script: seq<Reply>)
    requires TextTurn(consumed, input, script).error.None?
    ensures |Decode(consumed)| + TextTurn(consumed, input, script).taken == |Decode(consumed + input)|
    ensures !Validate(consumed + input).Invalid?
  {
    hide Decode, Validate, Offer;
    DecodeGrows(consumed, input);
  }

  lemma TurnErrors(consumed: Bytes, input: Bytes, script: seq<Reply>)
    ensures TextTurn(consumed, input, script).error == Some(InvalidUtf8) <==> Validate(consumed + input).Invalid?
    ensures TextTurn(consumed, input, script).error != Some(IncompleteUtf8)
  {
    hide Decode, Validate, Offer;
    var all := consumed + input;
    OfferErrors(script, if |Decode(consumed)| <= |Decode(all)| then |Decode(all)| - |Decode(consumed)| else 0);
  }

  /**
    What becomes of a document in pieces: the failure, if any, and what arrived, which is
    a prefix of the document's bytes or of its text.
   */
  function DocumentOutcome(script: seq<Reply>, pieces: seq<Bytes>): (outcome: Outcome)
    ensures outcome.bytes <= Flatten(pieces) && outcome.text <= Decode(Flatten(pieces))
  {
    var document := Flatten(pieces);
    if Textual(script, document) then
      var run := TextPieces([], Rest(script), pieces);
      TextTaken([], Rest(script), pieces);
      assert [] + document == document;
      Outcome(run.error, [], Decode(document)[..run.taken])
    else
      var run := BytePieces(script, pieces);
      BytesTaken(script, pieces);
      Outcome(run.error, document[..run.taken], [])
  }

  // ----- Exactly when a document arrives -----

  /** Offers of these sizes, one after the other, are all taken. */
  predicate AllTaken(script: seq<Reply>, sizes: seq<nat>)
    decreases |sizes|
  {
    sizes == [] || var run := Offer(script, sizes[0]); run.error.None? && AllTaken(run.script, sizes[1..])
  }

  function Lengths(pieces: seq<Bytes>): seq<nat> {
    if pieces == [] then [] else [|pieces[0]|] + Lengths(pieces[1..])
  }

  /** How many characters each piece completes. */
  function Completed(consumed: Bytes, pieces: seq<Bytes>): seq<nat>
    decreases |pieces|
  {
    if pieces == [] then []
    else
      DecodeGrows(consumed, pieces[0]);
      [|Decode(consumed + pieces[0])| - |Decode(consumed)|] + Completed(consumed + pieces[0], pieces[1..])
  }

  lemma {:induction false} BytesSucceed(script: seq<Reply>, pieces: seq<Bytes>)
    ensures BytePieces(script, pieces).error.None? <==> AllTaken(script, Lengths(pieces))
    ensures BytePieces(script, pieces).error.None? ==> BytePieces(script, pieces).taken == |Flatten(pieces)|
    decreases |pieces|
  {
    if pieces != [] {
      BytesSucceed(Offer(script, |pieces[0]|).script, pieces[1..]);
    }
  }

  lemma {:induction false} TextSucceeds(consumed: Bytes, script: seq<Reply>, pieces: seq<Bytes>)
    requires !Validate(consumed).Invalid?
    ensures var run, all := TextPieces(consumed, script, pieces), consumed + Flatten(pieces);
      && (run.error.None? <==> Validate(all).Whole? && AllTaken(script, Completed(consumed, pieces)))
      && (run.error.None? || run.error == Some(IncompleteUtf8) ==> |Decode(consumed)| + run.taken == |Decode(all)|)
      && (run.error == Some(IncompleteUtf8)
          <==> Validate(all).Incomplete? && AllTaken(script, Completed(consumed, pieces)))
      && (run.error == Some(InvalidUtf8) ==> Validate(all).Invalid?)
    decreases |pieces|
  {
    hide Decode, Validate, Flatten;
    if pieces == [] {
      FlattenNone<Byte>();
      assert consumed + [] == consumed;
    } else {
      var run, next, rest := TextTurn(consumed, pieces[0], script), consumed + pieces[0], pieces[1..];
      assert pieces == [pieces[0]] + rest;
      FlattenCons(pieces[0], rest);
      Associative(consumed, pieces[0], Flatten(rest));
      DecodeGrows(consumed, pieces[0]);
      TurnErrors(consumed, pieces[0], script);
      if Validate(next).Invalid? {
        InvalidExtends(next, Flatten(rest));
      } else {
        TextSucceeds(next, run.script, rest);
        if run.error.None? { TurnAll(consumed, pieces[0], script); }
      }
    }
  }

  /** A document arrives exactly when every offer of it is taken and, as text, it is complete. */
  lemma ArrivesIff(script: seq<Reply>, pieces: seq<Bytes>)
    ensures var document, outcome := Flatten(pieces), DocumentOutcome(script, pieces);
      && (outcome.failure.None? <==>
            if Textual(script, document) then Validate(document).Whole? && AllTaken(Rest(script), Completed([], pieces))
            else AllTaken(script, Lengths(pieces)))
      && (outcome.failure.None? ==>
            if Textual(script, document) then outcome.bytes == [] && outcome.text == Decode(document)
            else outcome.bytes == document && outcome.text == [])
  {
    hide Decode, Validate, Flatten, TextPieces, BytePieces, AllTaken, Completed, Lengths;
    NothingDecoded();
    assert [] + Flatten(pieces) == Flatten(pieces);
    TextSucceeds([], Rest(script), pieces);
    BytesSucceed(script, pieces);
  }

  /** A fault of the encoding is one of the whole document, not of how it was cut. */
  lemma FaultsAreWhole(script: seq<Reply>, pieces: seq<Bytes>)
    ensures var document, outcome := Flatten(pieces), DocumentOutcome(script, pieces);
      && (outcome.failure == Some(InvalidUtf8) ==> Textual(script, document) && Validate(document).Invalid?)
      && (outcome.failure == Some(IncompleteUtf8) ==>
            Textual(script, document) && Validate(document).Incomplete? && outcome.text == Decode(document))
  {
    hide Decode, Validate, Flatten, TextPieces, BytePieces, AllTaken, Completed;
    NothingDecoded();
    assert [] + Flatten(pieces) == Flatten(pieces);
    TextSucceeds([], Rest(script), pieces);
    BytesErrors(script, pieces);
  }

  lemma {:induction false} BytesErrors(script: seq<Reply>, pieces: seq<Bytes>)
    ensures BytePieces(script, pieces).error != Some(InvalidUtf8)
    ensures BytePieces(script, pieces).error != Some(IncompleteUtf8)
    decreases |pieces|
  {
    if pieces != [] {
      OfferErrors(script, |pieces[0]|);
      BytesErrors(Offer(script, |pieces[0]|).script, pieces[1..]);
    }
  }

  // ----- Short writes, count by count -----

  function Counts(counts: seq<nat>): seq<Reply> {
    seq(|counts|, i requires 0 <= i < |counts| => Count(counts[i]))
  }

  function Sum(counts: seq<nat>): nat {
    if counts == [] then 0 else counts[0] + Sum(counts[1..])
  }

  predicate Positive(counts: seq<nat>) { forall i :: 0 <= i < |counts| ==> counts[i] > 0 }

  /** Counts within what is offered are taken one after the other; what follows them decides about the rest. */
  lemma {:induction false} CountedOffer(counts: seq<nat>, tail: seq<Reply>, units: nat)
    requires Positive(counts) && Sum(counts) <= units
    ensures Offer(Counts(counts) + tail, units) == Onward(Sum(counts), Offer(tail, units - Sum(counts)))
    decreases |counts|
  {
    hide Offer, Accepted;
    var script := Counts(counts) + tail;
    if counts == [] {
      assert script == tail;
    } else {
      assert script[0] == Count(counts[0]);
      assert script[1..] == Counts(counts[1..]) + tail;
      OfferStep(script, units);
      CountedOffer(counts[1..], tail, units - counts[0]);
    }
  }

  /** Then the destination raises. */
  lemma CountedFault(counts: seq<nat>, units: nat)
    requires Positive(counts) && Sum(counts) < units
    ensures var run := Offer(Counts(counts) + [OtherErrorRaised], units);
      run.taken == Sum(counts) && run.error == Some(DestinationError)
  {
    hide Offer, Counts, Sum, Positive;
    CountedOffer(counts, [OtherErrorRaised], units);
    OfferStep([OtherErrorRaised], units - Sum(counts));
  }

  lemma BytesAlone(script: seq<Reply>, pieces: seq<Bytes>)
    requires |pieces| == 1
    ensures BytePieces(script, pieces) == Offer(script, |pieces[0]|) && Flatten(pieces) == pieces[0]
  {
    hide Offer;
    FlattenNone<Byte>();
    assert pieces[1..] == [] && pieces[0] + [] == pieces[0];
  }

  lemma TextAlone(script: seq<Reply>, pieces: seq<Bytes>, text: seq<Scalar>)
    requires pieces == [Encode(text)] && Offer(script, |text|).error.Some?
    ensures TextPieces([], script, pieces) == Offer(script, |text|) && Flatten(pieces) == Encode(text)
  {
    hide Offer, Decode, Validate, Encode;
    NothingDecoded();
    DecodeEncode(text);
    FlattenNone<Byte>();
    assert pieces[1..] == [] && pieces[0] + [] == pieces[0];
    assert [] + Encode(text) == Encode(text);
  }

  /** The outcome of a document in one piece. */
  lemma OnePiece(script: seq<Reply>, pieces: seq<Bytes>)
    requires |pieces| == 1 && pieces[0] != [] && !First(script).TypeErrorRaised?
    ensures var run := Offer(script, |pieces[0]|);
      DocumentOutcome(script, pieces) == Outcome(run.error, pieces[0][..run.taken], [])
  {
    hide Offer, TextPieces, BytePieces, Decode, Flatten, First;
    BytesAlone(script, pieces);
  }

  lemma OneTextPiece(script: seq<Reply>, pieces: seq<Bytes>, text: seq<Scalar>)
    requires pieces == [Encode(text)] && text != []
    requires First(script).TypeErrorRaised? && Offer(Rest(script), |text|).error.Some?
    ensures var run := Offer(Rest(script), |text|);
      DocumentOutcome(script, pieces) == Outcome(run.error, [], text[..run.taken])
  {
    hide Offer, BytePieces, TextPieces, Decode, Validate, Encode, Flatten, First, Rest;
    DecodeEncode(text);
    EncodeGrows(text);
    TextAlone(Rest(script), pieces, text);
  }

  /** The destination reports bytes, count by count, and then raises: exactly the bytes counted arrived. */
  lemma BytesThenFault(piece: Bytes, counts: seq<nat>)
    requires Positive(counts) && Sum(counts) < |piece|
    ensures DocumentOutcome(Counts(counts) + [OtherErrorRaised], [piece])
         == Outcome(Some(DestinationError), piece[..Sum(counts)], [])
  {
    hide Offer, DocumentOutcome;
    var script := Counts(counts) + [OtherErrorRaised];
    assert !First(script).TypeErrorRaised? by {
      if counts != [] { assert script[0] == Count(counts[0]); }
    }
    CountedFault(counts, |piece|);
    OnePiece(script, [piece]);
  }

  /** The same of a text stream, whose counts are of characters. */
  lemma TextThenFault(text: seq<Scalar>, counts: seq<nat>)
    requires Positive(counts) && Sum(counts) < |text|
    ensures DocumentOutcome([TypeErrorRaised] + (Counts(counts) + [OtherErrorRaised]), [Encode(text)])
         == Outcome(Some(DestinationError), [], text[..Sum(counts)])
  {
    hide Offer, DocumentOutcome, Encode, Counts, Sum;
    var rest := Counts(counts) + [OtherErrorRaised];
    var script := [TypeErrorRaised] + rest;
    assert script[0] == TypeErrorRaised && script[1..] == rest;
    CountedFault(counts, |text|);
    OneTextPiece(script, [Encode(text)], text);
  }

  // ----- The run of a document -----

  /** A writer in the middle of a document: what is still to come decides the outcome. */
  ghost predicate Underway(script: seq<Reply>, pieces: seq<Bytes>, i: nat, mode: Mode, consumed: Bytes,
                           left: seq<Reply>)
    requires i <= |pieces|
  {
    && consumed == Flatten(pieces[..i])
    && match mode
       case Unknown =>
         && consumed == [] && left == script
         && BytePieces(script, pieces) == BytePieces(script, pieces[i..])
         && TextPieces([], Rest(script), pieces) == TextPieces([], Rest(script), pieces[i..])
       case BinaryMode =>
         && consumed != [] && !First(script).TypeErrorRaised?
         && BytePieces(script, pieces) == Onward(|consumed|, BytePieces(left, pieces[i..]))
       case TextMode =>
         && consumed != [] && First(script).TypeErrorRaised?
         && TextPieces([], Rest(script), pieces) == Onward(|Decode(consumed)|, TextPieces(consumed, left, pieces[i..]))
  }

  lemma StartUnderway(script: seq<Reply>, pieces: seq<Bytes>)
    ensures Underway(script, pieces, 0, Unknown, [], script)
  {
    hide BytePieces, TextPieces;
    assert pieces[0..] == pieces && pieces[..0] == [];
    FlattenNone<Byte>();
  }

  lemma PieceNext(pieces: seq<Bytes>, i: nat)
    requires i < |pieces|
    ensures pieces[i..][0] == pieces[i] && pieces[i..][1..] == pieces[i + 1..]
    ensures Flatten(pieces[..i + 1]) == Flatten(pieces[..i]) + pieces[i]
  {
    FlattenPrefix(pieces, i);
  }

  lemma BytePiecesStep(script: seq<Reply>, pieces: seq<Bytes>, i: nat)
    requires i < |pieces|
    ensures var run := Offer(script, |pieces[i]|);
      BytePieces(script, pieces[i..])
      == if run.error.Some? then run else Onward(run.taken, BytePieces(run.script, pieces[i + 1..]))
  {
    PieceNext(pieces, i);
    hide Offer;
  }

  lemma TextPiecesStep(consumed: Bytes, script: seq<Reply>, pieces: seq<Bytes>, i: nat)
    requires i < |pieces|
    ensures var run := TextTurn(consumed, pieces[i], script);
      TextPieces(consumed, script, pieces[i..])
      == if run.error.Some? then run
         else Onward(run.taken, TextPieces(consumed + pieces[i], run.script, pieces[i + 1..]))
  {
    PieceNext(pieces, i);
    hide TextTurn;
  }

  /** An empty piece changes nothing. */
  lemma EmptyUnderway(script: seq<Reply>, pieces: seq<Bytes>, i: nat, mode: Mode, consumed: Bytes, left: seq<Reply>)
    requires i < |pieces| && pieces[i] == [] && Underway(script, pieces, i, mode, consumed, left)
    requires mode != BinaryMode ==> !Validate(consumed).Invalid?
    ensures Underway(script, pieces, i + 1, mode, consumed, left)
  {
    hide BytePieces, TextPieces, Decode, Validate, Offer;
    PieceNext(pieces, i);
    assert consumed + [] == consumed;
    NothingOffered(script);
    NothingOffered(Rest(script));
    NothingOffered(left);
    BytePiecesStep(script, pieces, i);
    BytePiecesStep(left, pieces, i);
    TextPiecesStep(consumed, Rest(script), pieces, i);
    TextPiecesStep(consumed, left, pieces, i);
  }

  lemma TextUnderway(script: seq<Reply>, pieces: seq<Bytes>, i: nat, mode: Mode, consumed: Bytes, left: seq<Reply>)
    requires i < |pieces| && pieces[i] != [] && Underway(script, pieces, i, mode, consumed, left)
    requires AsText(mode, First(left))
    ensures First(script).TypeErrorRaised?
    ensures var run := TextTurn(consumed, pieces[i], TextScript(mode, left));
      if run.error.None? then Underway(script, pieces, i + 1, TextMode, consumed + pieces[i], run.script)
      else TextPieces([], Rest(script), pieces) == Onward(|Decode(consumed)|, run)
  {
    hide BytePieces, TextPieces, Decode, Validate, Offer, TextTurn;
    PieceNext(pieces, i);
    NothingDecoded();
    var script' := TextScript(mode, left);
    TextPiecesStep(consumed, script', pieces, i);
    if TextTurn(consumed, pieces[i], script').error.None? {
      TurnAll(consumed, pieces[i], script');
    }
  }

  lemma BytesUnderway(script: seq<Reply>, pieces: seq<Bytes>, i: nat, mode: Mode, consumed: Bytes, left: seq<Reply>)
    requires i < |pieces| && pieces[i] != [] && Underway(script, pieces, i, mode, consumed, left)
    requires !AsText(mode, First(left))
    ensures !First(script).TypeErrorRaised?
    ensures var run := Offer(left, |pieces[i]|);
      if run.error.None? then Underway(script, pieces, i + 1, BinaryMode, consumed + pieces[i], run.script)
      else BytePieces(script, pieces) == Onward(|consumed|, run)
  {
    hide BytePieces, TextPieces, Decode, Validate, Offer;
    PieceNext(pieces, i);
    BytePiecesStep(left, pieces, i);
  }

  /** A piece that fails ends the document with what had arrived. */
  lemma TextFails(script: seq<Reply>, pieces: seq<Bytes>, i: nat, consumed: Bytes, run: OfferRun)
    requires i < |pieces| && pieces[i] != [] && consumed == Flatten(pieces[..i]) && First(script).TypeErrorRaised?
    requires TextPieces([], Rest(script), pieces) == Onward(|Decode(consumed)|, run)
    requires |Decode(consumed)| + run.taken <= |Decode(consumed + pieces[i])|
    ensures DocumentOutcome(script, pieces)
         == Outcome(run.error, [], Decode(consumed + pieces[i])[..|Decode(consumed)| + run.taken])
  {
    hide TextPieces, BytePieces, Decode;
    PieceNext(pieces, i);
    FlattenSplit(pieces, i + 1);
    DecodeGrows(consumed + pieces[i], Flatten(pieces[i + 1..]));
  }

  lemma BytesFail(script: seq<Reply>, pieces: seq<Bytes>, i: nat, consumed: Bytes, run: OfferRun)
    requires i < |pieces| && consumed == Flatten(pieces[..i]) && !First(script).TypeErrorRaised?
    requires BytePieces(script, pieces) == Onward(|consumed|, run) && run.taken <= |pieces[i]|
    ensures DocumentOutcome(script, pieces) == Outcome(run.error, consumed + pieces[i][..run.taken], [])
  {
    hide TextPieces, BytePieces, Decode;
    PieceNext(pieces, i);
    FlattenSplit(pieces, i + 1);
    assert (consumed + pieces[i])[..|consumed| + run.taken] == consumed + pieces[i][..run.taken];
  }

  /** With no piece left the document has arrived, or its text stops inside a code point. */
  lemma AllUnderway(script: seq<Reply>, pieces: seq<Bytes>, mode: Mode, consumed: Bytes, left: seq<Reply>)
    requires Underway(script, pieces, |pieces|, mode, consumed, left)
    ensures consumed == Flatten(pieces)
    ensures DocumentOutcome(script, pieces)
         == if mode == TextMode
            then Outcome(if Validate(consumed).Whole? then None else Some(IncompleteUtf8), [], Decode(consumed))
            else Outcome(None, consumed, [])
  {
    hide Decode, Validate;
    assert pieces[..|pieces|] == pieces && pieces[|pieces|..] == [];
  }

  /**
    A document written piece by piece to any destination: the failure and what arrived
    are exactly those of the document's outcome, and as much arrived as the destination
    said over all its calls.
   */
  method WriteDocument(script: seq<Reply>, pieces: seq<Bytes>)
    returns (failure: Option<WriteError>, bytes: Bytes, text: seq<Scalar>, calls: seq<Call>)
    ensures |bytes| + |text| == Reported(calls) && Replied(calls, script)
    ensures Outcome(failure, bytes, text) == DocumentOutcome(script, pieces)
    ensures failure.None? <==>
              var document := Flatten(pieces);
              if Textual(script, document) then
                Validate(document).Whole? && AllTaken(Rest(script), Completed([], pieces))
              else AllTaken(script, Lengths(pieces))
    ensures failure.None? ==>
              || (bytes == Flatten(pieces) && text == [])
              || (bytes == [] && text == Decode(Flatten(pieces)) && Validate(Flatten(pieces)).Whole?)
    ensures failure == Some(InvalidUtf8) ==> Validate(Flatten(pieces)).Invalid?
    ensures failure == Some(IncompleteUtf8) ==>
              Validate(Flatten(pieces)).Incomplete? && bytes == [] && text == Decode(Flatten(pieces))
    ensures bytes <= Flatten(pieces) && text <= Decode(Flatten(pieces))
  {
    hide Validate, Decode, ValidLength, Flatten, Underway, Offer, TextTurn, DocumentOutcome, BytePieces, TextPieces;
    hide AllTaken, Completed, Lengths, Writer.Valid, Reported, Replied, Destination.Honest;
    ArrivesIff(script, pieces);
    FaultsAreWhole(script, pieces);
    var destination := new Destination(script);
    var writer := new Writer(destination);
    StartUnderway(script, pieces);
    for i := 0 to |pieces|
      invariant fresh(writer) && fresh(destination) && writer.destination == destination
      invariant writer.Valid() && writer.error.None? && destination.Honest() && destination.replies == script
      invariant Underway(script, pieces, i, writer.mode, writer.consumed, destination.script)
    {
      ghost var mode, consumed, left := writer.mode, writer.consumed, destination.script;
      writer.NeverInvalid();
      ghost var asText := AsText(mode, First(left));
      if pieces[i] == [] {
        EmptyUnderway(script, pieces, i, mode, consumed, left);
      } else if asText {
        TextUnderway(script, pieces, i, mode, consumed, left);
      } else {
        BytesUnderway(script, pieces, i, mode, consumed, left);
      }
      UnderwayConsumed(script, pieces, i, mode, consumed, left);
      var ok := writer.WriteAll(pieces[i]);
      if !ok {
        if asText {
          TextFails(script, pieces, i, consumed, TextTurn(consumed, pieces[i], TextScript(mode, left)));
        } else {
          BytesFail(script, pieces, i, consumed, Offer(left, |pieces[i]|));
        }
        failure := writer.Finish();
        destination.Account();
        return failure, destination.bytes, destination.text, destination.calls;
      }
    }
    AllUnderway(script, pieces, writer.mode, writer.consumed, destination.script);
    writer.Holds();
    failure := writer.Finish();
    destination.Account();
    return failure, destination.bytes, destination.text, destination.calls;
  }

  lemma UnderwayConsumed(script: seq<Reply>, pieces: seq<Bytes>, i: nat, mode: Mode, consumed: Bytes, left: seq<Reply>)
    requires i <= |pieces| && Underway(script, pieces, i, mode, consumed, left)
    ensures consumed == Flatten(pieces[..i])
  {
    hide Flatten, BytePieces, TextPieces;
  }
}
