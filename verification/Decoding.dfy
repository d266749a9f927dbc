/**
  Decode calls of a document stream and what becomes of them.

  The native parser is not part of the model: it is any function from the bytes of one
  document to a value or to a fault at a byte of that document.
 */
module Decoding {
  import opened Sequences

  const MAX_STREAM_DOCUMENTS := 1024

  /** One call of the native parser: the bytes it is given and where they stand in the stream. */
  datatype Request = Request(bytes: Bytes, offset: nat)

  datatype Loaded<+V> =
    | Loaded(value: V)
    | Fault(frameByte: nat)

  type Loader<V> = Bytes -> Loaded<V>

  /** How a stream stands: still going (or ended well), or stopped by one of its errors. */
  datatype Status =
    | Running
    | InputLimit
    | DocumentLimit
    | SyntaxFault(cumulativeByte: nat, frameByte: nat)

  datatype Outcome<+V> = Outcome(values: seq<V>, status: Status)

  /** The requests answered in order: one value each until the first one that fails. */
  function Answer<V>(requests: seq<Request>, loads: Loader<V>): (outcome: Outcome<V>)
    ensures outcome.status.Running? ==> |outcome.values| == |requests| <= MAX_STREAM_DOCUMENTS
  {
    if requests == [] then Outcome([], Running)
    else
      var n := |requests| - 1;
      AnswerNext(Answer(requests[..n], loads), requests[n], loads)
  }

  function AnswerNext<V>(before: Outcome<V>, next: Request, loads: Loader<V>): Outcome<V> {
    if !before.status.Running? then before
    else if |before.values| + 1 > MAX_STREAM_DOCUMENTS then before.(status := DocumentLimit)
    else
      match loads(next.bytes)
      case Loaded(value) => before.(values := before.values + [value])
      case Fault(frameByte) => before.(status := SyntaxFault(next.offset + frameByte, frameByte))
  }

  lemma AnswerSnoc<V>(requests: seq<Request>, next: Request, loads: Loader<V>)
    ensures Answer(requests + [next], loads) == AnswerNext(Answer(requests, loads), next, loads)
  {
    hide AnswerNext;
    assert (requests + [next])[..|requests|] == requests;
  }

  /** A stopped stream stays as it stopped, and a running one only ever adds values. */
  lemma {:induction false} AnswerExtends<V>(requests: seq<Request>, more: seq<Request>, loads: Loader<V>)
    ensures Answer(requests, loads).values <= Answer(requests + more, loads).values
    ensures !Answer(requests, loads).status.Running? ==> Answer(requests + more, loads) == Answer(requests, loads)
  {
    if more == [] {
      assert requests + more == requests;
    } else {
      var n := |more| - 1;
      AnswerExtends(requests, more[..n], loads);
      assert (requests + more)[..|requests| + n] == requests + more[..n];
    }
  }

  /**
    What a stream answers, value by value: the i-th value is that of the i-th request as
    long as the stream runs, and it stops at the first fault or past the limit.
   */
  lemma {:induction false} AnswerValues<V>(requests: seq<Request>, loads: Loader<V>)
    ensures var o := Answer(requests, loads);
            && |o.values| <= |requests|
            && (forall i :: 0 <= i < |o.values| ==> loads(requests[i].bytes) == Loaded(o.values[i]))
            && (|o.values| < |requests| && |o.values| == 1024 ==> o.status == DocumentLimit)
            && (|o.values| < |requests| && |o.values| < 1024 ==>
                  var r := requests[|o.values|];
                  && loads(r.bytes).Fault?
                  && var b := loads(r.bytes).frameByte; o.status == SyntaxFault(r.offset + b, b))
            && (o.status.Running? <==> |o.values| == |requests|)
            && |o.values| <= 1024
  {
    if requests != [] {
      AnswerValues(requests[..|requests| - 1], loads);
    }
  }

  /** The decode closure of a stream: it counts its calls and turns a fault into a stream error. */
  class Decoder<V> {
    const loads: Loader<V>
    var documents: nat
    var values: seq<V>
    var status: Status
    ghost var requests: seq<Request>

    ghost predicate Valid()
      reads this
    {
      && Answer(requests, loads) == Result()
      && (status.Running? ==> documents == |requests|)
    }

    function Result(): Outcome<V>
      reads this
    {
      Outcome(values, status)
    }

    constructor (loads: Loader<V>)
      ensures Valid() && requests == [] && status.Running? && values == [] && this.loads == loads
    {
      this.loads := loads;
      documents := 0;
      values, status := [], Running;
      requests := [];
    }

    method Decode(bytes: Bytes, byteOffset: nat)
      requires Valid() && status.Running?
      modifies this
      ensures Valid() && requests == old(requests) + [Request(bytes, byteOffset)]
    {
      AnswerSnoc(requests, Request(bytes, byteOffset), loads);
      requests := requests + [Request(bytes, byteOffset)];
      documents := documents + 1;
      if documents > MAX_STREAM_DOCUMENTS {
        status := DocumentLimit;
        return;
      }
      match loads(bytes)
      case Loaded(value) => values := values + [value];
      case Fault(localOffset) => status := SyntaxFault(byteOffset + localOffset, localOffset);
    }
  }
}
