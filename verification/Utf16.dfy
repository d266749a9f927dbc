/**
  JavaScript strings as UTF-16 (section 2 of RFC 2781): a stream of string chunks gives
  the UTF-8 of the text whose code units they are, and every surrogate on its own gives
  the three bytes of U+FFFD.
 */
module Utf16 {
  import opened Sequences
  import opened Utf8
  import opened ByteStream

  /** The code units of a scalar: one, or the two halves of what lies beyond the first plane. */
  function Units(c: Scalar): Text {
    if c < 0x10000 then [c]
    else
      var beyond: int := c - 0x10000;
      [0xD800 + beyond / 0x400, 0xDC00 + beyond % 0x400]
  }

  function Utf16(text: seq<Scalar>): Text {
    if text == [] then [] else Units(text[0]) + Utf16(text[1..])
  }

  /** A string is read as the text it was written from. */
  lemma {:induction false} ScalarsOfUtf16(text: seq<Scalar>)
    ensures Scalars(Utf16(text)) == text
  {
    if text != [] {
      var units, rest := Units(text[0]), Utf16(text[1..]);
      FirstScalar(text[0], rest);
      assert (units + rest)[|units|..] == rest;
      ScalarsOfUtf16(text[1..]);
    }
  }

  lemma FirstScalar(c: Scalar, rest: Text)
    ensures Head(Units(c) + rest) == c
    ensures StartsWithPair(Units(c) + rest) <==> |Units(c)| == 2
  {
  }

  /** String chunks, however the code units of a text are cut into them, give the UTF-8 of the text. */
  lemma StreamOfUtf16(chunks: seq<Chunk>, text: seq<Scalar>)
    requires (forall c <- chunks :: c.TextChunk?) && JoinedText(chunks) == Utf16(text)
    ensures StreamBytes(chunks) == Encode(text)
  {
    hide StreamBytes, Encode, Utf16, Scalars;
    TextStream(chunks);
    ScalarsOfUtf16(text);
  }

  /** A surrogate that is no half of a pair with its neighbour. */
  predicate Lone(before: Text, unit: CodeUnit, after: Text) {
    || (0xD800 <= unit < 0xDC00 && (after != [] ==> !(0xDC00 <= after[0] < 0xE000)))
    || (0xDC00 <= unit < 0xE000 && (before != [] ==> !(0xD800 <= before[|before| - 1] < 0xDC00)))
  }

  /** Wherever it stands, it gives the three bytes of U+FFFD and changes nothing around it. */
  lemma LoneSurrogate(before: Text, unit: CodeUnit, after: Text)
    requires Lone(before, unit, after)
    ensures FromString(before + [unit] + after) == FromString(before) + [0xEF, 0xBF, 0xBD] + FromString(after)
  {
    hide FromString;
    FromStringAppend(before + [unit], after);
    FromStringAppend(before, [unit]);
    Replaced(unit);
  }

  lemma Replaced(unit: CodeUnit)
    requires 0xD800 <= unit < 0xE000
    ensures FromString([unit]) == [0xEF, 0xBF, 0xBD]
  {
    assert [unit][1..] == [];
    assert Scalars([unit]) == [0xFFFD] + Scalars([unit][1..]);
    assert [0xFFFD][1..] == [];
    assert Encode([0xFFFD]) == EncodeScalar(0xFFFD) + Encode([0xFFFD][1..]);
  }

  /** The same in a stream, also when the surrogate was held back between two chunks. */
  lemma StreamOfLone(chunks: seq<Chunk>, before: Text, unit: CodeUnit, after: Text)
    requires (forall c <- chunks :: c.TextChunk?) && JoinedText(chunks) == before + [unit] + after
    requires Lone(before, unit, after)
    ensures StreamBytes(chunks) == FromString(before) + [0xEF, 0xBF, 0xBD] + FromString(after)
  {
    hide StreamBytes, FromString;
    TextStream(chunks);
    LoneSurrogate(before, unit, after);
  }

  /** A pair cut in two, with bytes in between: neither half finds the other. */
  lemma PairCutByBytes(high: CodeUnit, bytes: Bytes, low: CodeUnit)
    requires 0xD800 <= high < 0xDC00 && 0xDC00 <= low < 0xE000
    ensures StreamBytes([TextChunk([high]), ByteChunk(bytes), TextChunk([low])])
         == [0xEF, 0xBF, 0xBD] + bytes + [0xEF, 0xBF, 0xBD]
  {
    hide StreamBytes, FromString;
    BytesBetween([TextChunk([high])], bytes, [TextChunk([low])]);
    assert [TextChunk([high])] + [ByteChunk(bytes)] + [TextChunk([low])]
        == [TextChunk([high]), ByteChunk(bytes), TextChunk([low])];
    OneText([high]);
    OneText([low]);
    Replaced(high);
    Replaced(low);
  }

  lemma OneText(units: Text)
    ensures StreamBytes([TextChunk(units)]) == FromString(units)
  {
    var chunks := [TextChunk(units)];
    assert chunks[..0] == [] && JoinedText([]) == [];
    assert JoinedText(chunks) == JoinedText(chunks[..0]) + units == units;
    TextStream(chunks);
  }
}
