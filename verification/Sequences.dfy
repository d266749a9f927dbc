/** Sequence vocabulary shared by every model: bytes, flattening and results. */
module Sequences {

  type Byte = b: int | 0 <= b < 256

  type Bytes = seq<Byte>

  const LF: Byte := 0x0A
  const CR: Byte := 0x0D

  datatype Option<+T> = None | Some(value: T)

  datatype Result<+T, +E> = Ok(value: T) | Err(error: E)

  /** A line without the one CR that may stand in front of its LF. */
  function StripReturn(line: Bytes): Bytes {
    if line != [] && line[|line| - 1] == CR then line[..|line| - 1] else line
  }

  /** The parts laid end to end. */
  function Flatten<T>(parts: seq<seq<T>>): seq<T> {
    if parts == [] then [] else parts[0] + Flatten(parts[1..])
  }

  lemma {:induction false} FlattenAppend<T>(left: seq<seq<T>>, right: seq<seq<T>>)
    ensures Flatten(left + right) == Flatten(left) + Flatten(right)
  {
    if left == [] {
      assert left + right == right;
    } else {
      assert (left + right)[1..] == left[1..] + right;
      FlattenAppend(left[1..], right);
      assert left[0] + (Flatten(left[1..]) + Flatten(right)) == Flatten(left) + Flatten(right);
    }
  }

  lemma FlattenCons<T>(first: seq<T>, rest: seq<seq<T>>)
    ensures Flatten([first] + rest) == first + Flatten(rest)
  {
    assert ([first] + rest)[1..] == rest;
  }

  lemma FlattenSnoc<T>(parts: seq<seq<T>>, last: seq<T>)
    ensures Flatten(parts + [last]) == Flatten(parts) + last
  {
    FlattenAppend(parts, [last]);
    assert Flatten([last]) == last + Flatten([last][1..]);
  }

  lemma FlattenNone<T>()
    ensures Flatten<T>([]) == []
  {
  }

  lemma FlattenOne<T>(a: seq<T>)
    ensures Flatten([a]) == a
  {
    assert [a][1..] == [];
    assert a + [] == a;
  }

  lemma FlattenTwo<T>(a: seq<T>, b: seq<T>)
    ensures Flatten([a, b]) == a + b
  {
    assert [a, b][1..] == [b];
    FlattenOne(b);
  }

  /** The parts before the i-th and the i-th one make a prefix of the whole. */
  lemma FlattenPrefix<T>(parts: seq<seq<T>>, i: nat)
    requires i < |parts|
    ensures Flatten(parts[..i + 1]) == Flatten(parts[..i]) + parts[i] <= Flatten(parts)
  {
    hide Flatten;
    TakeNext(parts, i);
    FlattenSnoc(parts[..i], parts[i]);
    FlattenSplit(parts, i + 1);
  }

  lemma TakeNext<T>(parts: seq<T>, i: nat)
    requires i < |parts|
    ensures parts[..i + 1] == parts[..i] + [parts[i]]
  {
  }

  lemma FlattenSplit<T>(parts: seq<seq<T>>, i: nat)
    requires i <= |parts|
    ensures Flatten(parts[..i]) + Flatten(parts[i..]) == Flatten(parts)
  {
    hide Flatten;
    FlattenAppend(parts[..i], parts[i..]);
    assert parts == parts[..i] + parts[i..];
  }

  lemma Associative<T>(a: seq<T>, b: seq<T>, c: seq<T>)
    ensures a + b + c == a + (b + c)
  {
  }

  lemma SliceJoin<T>(s: seq<T>, from: nat, mid: nat, to: nat)
    requires from <= mid <= to <= |s|
    ensures s[from..mid] + s[mid..to] == s[from..to]
  {
  }

  /** A slice of everything received, grown by the next stretch of the chunk. */
  lemma Grow<T>(seen: seq<T>, chunk: seq<T>, from: nat, p: nat, q: nat)
    requires from <= |seen| + p && p <= q <= |chunk|
    ensures (seen + chunk)[from..|seen| + p] + chunk[p..q] == (seen + chunk)[from..|seen| + q]
  {
  }

  lemma CancelRight<T>(a: seq<T>, b: seq<T>, tail: seq<T>)
    requires a + tail == b + tail
    ensures a == b
  {
    assert |a| == |b|;
    assert a == (a + tail)[..|a|];
  }

  /** `Buffer.concat(parts, length)`: cut or zero-filled to the length it is told. */
  function BufferConcat(parts: seq<Bytes>, length: nat): (joined: Bytes)
    ensures |joined| == length
    ensures length == |Flatten(parts)| ==> joined == Flatten(parts)
  {
    var all := Flatten(parts);
    if length <= |all| then all[..length] else all + seq(length - |all|, _ => 0)
  }

  /** `joinParts`: the single part as it is, anything else through `Buffer.concat`. */
  function JoinParts(parts: seq<Bytes>, length: nat): (joined: Bytes)
    ensures length == |Flatten(parts)| ==> joined == Flatten(parts)
  {
    if |parts| == 0 then []
    else if |parts| == 1 then assert Flatten(parts) == parts[0] + Flatten(parts[1..]); parts[0]
    else BufferConcat(parts, length)
  }
}
