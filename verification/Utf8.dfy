/**
  UTF-8 as both bindings rely on it (section 4 of RFC 3629): encoding of scalar
  values, and the incremental validation that Rust's `std::str::from_utf8` makes,
  which tells a truncated sequence apart from a malformed one.
 */
module Utf8 {
  import opened Sequences

  /** A Unicode code point that is not a surrogate. */
  type Scalar = c: int | 0 <= c < 0xD800 || 0xE000 <= c <= 0x10FFFF

  function EncodeScalar(c: Scalar): (bytes: Bytes)
    ensures 1 <= |bytes| <= 4
  {
    if c < 0x80 then [c]
    else if c < 0x800 then [0xC0 + c / 0x40, 0x80 + c % 0x40]
    else if c < 0x10000 then [0xE0 + c / 0x1000, 0x80 + c / 0x40 % 0x40, 0x80 + c % 0x40]
    else [0xF0 + c / 0x40000, 0x80 + c / 0x1000 % 0x40, 0x80 + c / 0x40 % 0x40, 0x80 + c % 0x40]
  }

  function Encode(text: seq<Scalar>): Bytes {
    if text == [] then [] else EncodeScalar(text[0]) + Encode(text[1..])
  }

  /** What the bytes at one position hold. */
  datatype Scan =
    | Complete(width: nat, scalar: Scalar)
    | Truncated
    | Malformed

  predicate Continuation(b: Byte) { 0x80 <= b <= 0xBF }

  /** The bytes that may follow a given first byte; the rest of a sequence is any continuation. */
  predicate SecondByte(first: Byte, second: Byte) {
    if first == 0xE0 then 0xA0 <= second <= 0xBF
    else if first == 0xED then 0x80 <= second <= 0x9F
    else if first == 0xF0 then 0x90 <= second <= 0xBF
    else if first == 0xF4 then 0x80 <= second <= 0x8F
    else Continuation(second)
  }

  /** The length a first byte announces; 0 when it cannot start a sequence. */
  function Width(first: Byte): (width: nat)
    ensures width <= 4
  {
    if first < 0x80 then 1
    else if 0xC2 <= first <= 0xDF then 2
    else if 0xE0 <= first <= 0xEF then 3
    else if 0xF0 <= first <= 0xF4 then 4
    else 0
  }

  function Scalar2(b0: Byte, b1: Byte): (c: Scalar)
    requires Width(b0) == 2 && Continuation(b1)
    ensures EncodeScalar(c) == [b0, b1]
  {
    var hi: int, lo: int := b0 - 0xC0, b1 - 0x80;
    hi * 0x40 + lo
  }

  function Scalar3(b0: Byte, b1: Byte, b2: Byte): (c: Scalar)
    requires Width(b0) == 3 && SecondByte(b0, b1) && Continuation(b2)
    ensures EncodeScalar(c) == [b0, b1, b2]
  {
    var hi: int, mid: int, lo: int := b0 - 0xE0, b1 - 0x80, b2 - 0x80;
    Quotients(0, hi, mid, lo);
    hi * 0x1000 + mid * 0x40 + lo
  }

  function Scalar4(b0: Byte, b1: Byte, b2: Byte, b3: Byte): (c: Scalar)
    requires Width(b0) == 4 && SecondByte(b0, b1) && Continuation(b2) && Continuation(b3)
    ensures EncodeScalar(c) == [b0, b1, b2, b3]
  {
    var top: int, hi: int, mid: int, lo: int := b0 - 0xF0, b1 - 0x80, b2 - 0x80, b3 - 0x80;
    var c := top * 0x40000 + hi * 0x1000 + mid * 0x40 + lo;
    Quotients(top, hi, mid, lo);
    c
  }

  /** Reading the base-64 digits of a number back from its quotients. */
  lemma Quotients(top: int, hi: int, mid: int, lo: int)
    requires 0 <= hi < 0x40 && 0 <= mid < 0x40 && 0 <= lo < 0x40
    ensures var c := top * 0x40000 + hi * 0x1000 + mid * 0x40 + lo;
            c / 0x40000 == top && c / 0x1000 % 0x40 == hi && c / 0x40 % 0x40 == mid && c % 0x40 == lo
  {
    var c := top * 0x40000 + hi * 0x1000 + mid * 0x40 + lo;
    assert c / 0x40 == top * 0x1000 + hi * 0x40 + mid;
    assert c / 0x1000 == top * 0x40 + hi;
  }

  function ScanOne(s: Bytes): (scan: Scan)
    requires s != []
    ensures scan.Complete? ==> 1 <= scan.width <= |s| && EncodeScalar(scan.scalar) == s[..scan.width]
    ensures scan.Truncated? ==> |s| <= 3
  {
    var width := Width(s[0]);
    if width == 0 then Malformed
    else if width == 1 then Complete(1, s[0])
    else if |s| == 1 then Truncated
    else if !SecondByte(s[0], s[1]) then Malformed
    else if width == 2 then Complete(2, Scalar2(s[0], s[1]))
    else if |s| == 2 then Truncated
    else if !Continuation(s[2]) then Malformed
    else if width == 3 then Complete(3, Scalar3(s[0], s[1], s[2]))
    else if |s| == 3 then Truncated
    else if !Continuation(s[3]) then Malformed
    else Complete(4, Scalar4(s[0], s[1], s[2], s[3]))
  }

  /** The three answers of `from_utf8`, with the length of the valid prefix. */
  datatype Verdict =
    | Whole
    | Incomplete(validUpTo: nat)
    | Invalid(validUpTo: nat)
  {
    function Shifted(offset: nat): Verdict {
      match this
      case Whole => Whole
      case Incomplete(n) => Incomplete(offset + n)
      case Invalid(n) => Invalid(offset + n)
    }
  }

  function Validate(s: Bytes): (verdict: Verdict)
    ensures !verdict.Whole? ==> verdict.validUpTo < |s|
    ensures verdict.Incomplete? ==> |s| <= verdict.validUpTo + 3
  {
    if s == [] then Whole
    else
      var scan := ScanOne(s);
      match scan
      case Complete(width, _) => Validate(s[width..]).Shifted(width)
      case Truncated => Incomplete(0)
      case Malformed => Invalid(0)
  }

  /** The text of the longest valid prefix. */
  function Decode(s: Bytes): seq<Scalar> {
    if s == [] then []
    else
      var scan := ScanOne(s);
      if scan.Complete? then [scan.scalar] + Decode(s[scan.width..]) else []
  }

  /** How many leading bytes are valid text. */
  function ValidLength(s: Bytes): (n: nat)
    ensures n <= |s|
  {
    var verdict := Validate(s);
    if verdict.Whole? then |s| else verdict.validUpTo
  }

  // ----- One code point -----

  lemma ScalarFromDigits(c: int)
    requires 0 <= c
    ensures c == c / 0x40000 * 0x40000 + c / 0x1000 % 0x40 * 0x1000 + c / 0x40 % 0x40 * 0x40 + c % 0x40
    ensures c / 0x1000 == c / 0x40000 * 0x40 + c / 0x1000 % 0x40
    ensures c / 0x40 == c / 0x1000 * 0x40 + c / 0x40 % 0x40
  {
    assert c / 0x1000 / 0x40 == c / 0x40000;
    assert c / 0x40 / 0x40 == c / 0x1000;
  }

  /** No two scalars share an encoding. */
  lemma EncodeInjective(a: Scalar, b: Scalar)
    requires EncodeScalar(a) == EncodeScalar(b)
    ensures a == b
  {
    ScalarFromDigits(a);
    ScalarFromDigits(b);
    assert |EncodeScalar(a)| == |EncodeScalar(b)|;
    assert forall k :: 0 <= k < |EncodeScalar(a)| ==> EncodeScalar(a)[k] == EncodeScalar(b)[k];
  }

  /** The first byte announces the length and every later byte is one the scan allows. */
  lemma EncodedShape(c: Scalar)
    ensures var e := EncodeScalar(c);
            && Width(e[0]) == |e|
            && (1 < |e| ==> SecondByte(e[0], e[1]))
            && (2 < |e| ==> Continuation(e[2]))
            && (3 < |e| ==> Continuation(e[3]))
  {
    ScalarFromDigits(c);
  }

  /** A scan reads back the encoded scalar whatever follows it. */
  lemma ScanEncoded(c: Scalar, rest: Bytes)
    ensures ScanOne(EncodeScalar(c) + rest) == Complete(|EncodeScalar(c)|, c)
  {
    var s := EncodeScalar(c) + rest;
    EncodedShape(c);
    assert s[..|EncodeScalar(c)|] == EncodeScalar(c);
    EncodeInjective(ScanOne(s).scalar, c);
  }

  /** A complete scan is not changed by the bytes after it. */
  lemma ScanExtends(s: Bytes, rest: Bytes)
    requires s != [] && !ScanOne(s).Truncated?
    ensures ScanOne(s + rest) == ScanOne(s)
  {
  }

  /** A truncated sequence can always be completed: it is a proper prefix of one code point. */
  lemma TruncatedIsPrefix(s: Bytes) returns (c: Scalar)
    requires s != [] && ScanOne(s).Truncated?
    ensures |s| < |EncodeScalar(c)| && EncodeScalar(c)[..|s|] == s
  {
    var second := if |s| > 1 then s[1] else if s[0] == 0xE0 then 0xA0 else if s[0] == 0xF0 then 0x90 else 0x80;
    var third := if |s| > 2 then s[2] else 0x80;
    var full: Bytes := [s[0], second, third, 0x80][..Width(s[0])];
    c := ScanOne(full).scalar;
    assert full[..|s|] == s;
  }

  /** Conversely a proper, non-empty prefix of one code point scans as truncated. */
  lemma PrefixIsTruncated(c: Scalar, n: nat)
    requires 0 < n < |EncodeScalar(c)|
    ensures ScanOne(EncodeScalar(c)[..n]).Truncated?
  {
    var whole := EncodeScalar(c);
    var s := whole[..n];
    assert s + whole[n..] == whole;
    assert whole + [] == whole;
    ScanEncoded(c, []);
    if !ScanOne(s).Truncated? {
      ScanExtends(s, whole[n..]);
    }
  }

  // ----- Whole strings -----

  lemma Cons(c: Scalar, rest: Bytes)
    ensures Decode(EncodeScalar(c) + rest) == [c] + Decode(rest)
    ensures Validate(EncodeScalar(c) + rest) == Validate(rest).Shifted(|EncodeScalar(c)|)
    ensures ValidLength(EncodeScalar(c) + rest) == |EncodeScalar(c)| + ValidLength(rest)
  {
    ScanEncoded(c, rest);
    assert (EncodeScalar(c) + rest)[|EncodeScalar(c)|..] == rest;
  }

  /** Encoding then decoding is the identity, also in front of further bytes. */
  lemma {:induction false} DecodeEncode(text: seq<Scalar>)
    ensures Validate(Encode(text)) == Whole
    ensures Decode(Encode(text)) == text
  {
    hide EncodeScalar, ScanOne;
    if text != [] {
      Cons(text[0], Encode(text[1..]));
      DecodeEncode(text[1..]);
    }
  }

  /** Decoding then encoding gives back exactly the valid prefix. */
  lemma {:induction false} EncodeDecode(s: Bytes)
    ensures Encode(Decode(s)) == s[..ValidLength(s)]
  {
    hide EncodeScalar, ScanOne;
    if s != [] && ScanOne(s).Complete? {
      var width := ScanOne(s).width;
      EncodeDecode(s[width..]);
      assert s[..width] + s[width..][..ValidLength(s[width..])] == s[..ValidLength(s)];
    }
  }

  lemma {:induction false} EncodeAppend(a: seq<Scalar>, b: seq<Scalar>)
    ensures Encode(a + b) == Encode(a) + Encode(b)
  {
    if a == [] {
      assert a + b == b;
    } else {
      assert (a + b)[1..] == a[1..] + b;
      EncodeAppend(a[1..], b);
    }
  }

  /** Text in front of any bytes is decoded on its own, and the scan goes on after it. */
  lemma {:induction false} Append(text: seq<Scalar>, rest: Bytes)
    ensures Validate(Encode(text) + rest) == Validate(rest).Shifted(|Encode(text)|)
    ensures Decode(Encode(text) + rest) == text + Decode(rest)
  {
    hide EncodeScalar, ScanOne, Validate, Decode, ValidLength;
    if text == [] {
      assert [] + rest == rest;
    } else {
      Associative(EncodeScalar(text[0]), Encode(text[1..]), rest);
      Cons(text[0], Encode(text[1..]) + rest);
      Append(text[1..], rest);
    }
  }

  /**
    Decoding can stop after any piece and resume from the bytes it left over: the
    text so far plus the text of the left-over bytes with the next piece is the text
    of the whole, and so is the verdict.
   */
  lemma Resume(s: Bytes, more: Bytes)
    ensures Validate(s + more) == Validate(s[ValidLength(s)..] + more).Shifted(ValidLength(s))
    ensures Decode(s + more) == Decode(s) + Decode(s[ValidLength(s)..] + more)
  {
    hide Validate, Decode, ValidLength, Encode;
    var n := ValidLength(s);
    EncodeDecode(s);
    Append(Decode(s), s[n..] + more);
    assert s + more == s[..n] + (s[n..] + more);
  }

  /** The valid prefix is itself whole and holds all the decoded text. */
  lemma ValidPrefix(s: Bytes)
    ensures Validate(s[..ValidLength(s)]) == Whole
    ensures Decode(s[..ValidLength(s)]) == Decode(s)
  {
    EncodeDecode(s);
    DecodeEncode(Decode(s));
  }

  /** A string is whole exactly when it is the encoding of some text. */
  lemma WholeIffEncoding(s: Bytes)
    ensures Validate(s) == Whole <==> exists text: seq<Scalar> :: Encode(text) == s
  {
    if Validate(s) == Whole {
      EncodeDecode(s);
      assert s[..|s|] == s;
    }
    if text: seq<Scalar> :| Encode(text) == s {
      DecodeEncode(text);
    }
  }

  /** No prefix of valid UTF-8 is ever judged malformed. */
  lemma {:induction false} PrefixNeverInvalid(text: seq<Scalar>, n: nat)
    requires n <= |Encode(text)|
    ensures !Validate(Encode(text)[..n]).Invalid?
  {
    if 0 < n {
      var first, rest := EncodeScalar(text[0]), Encode(text[1..]);
      var s := Encode(text)[..n];
      if n < |first| {
        assert s == first[..n];
        PrefixIsTruncated(text[0], n);
      } else {
        var tail := rest[..n - |first|];
        assert s == first + tail;
        ScanEncoded(text[0], tail);
        assert s[|first|..] == tail;
        PrefixNeverInvalid(text[1..], n - |first|);
      }
    }
  }

  /** The bytes after the valid prefix of an incomplete string: a proper prefix of one code point. */
  lemma {:induction false} PendingIsPrefix(s: Bytes) returns (c: Scalar)
    requires Validate(s).Incomplete?
    ensures 0 < |s| - ValidLength(s) < |EncodeScalar(c)|
    ensures s[ValidLength(s)..] == EncodeScalar(c)[..|s| - ValidLength(s)]
  {
    if ScanOne(s).Truncated? {
      c := TruncatedIsPrefix(s);
    } else {
      var width := ScanOne(s).width;
      c := PendingIsPrefix(s[width..]);
      assert s[ValidLength(s)..] == s[width..][ValidLength(s[width..])..];
    }
  }
}
