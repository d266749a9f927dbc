# Verified models of the yggdryl codec bindings

yggdryl moves one kind of native value between Rust, JavaScript and Python. This project
models the parts of its bindings where that is difficult, and proves what they promise.

* **Document streams** (`node/binding.js`). Streams of strings and byte chunks are turned
  into bytes, cut into lines, cut into YAML documents or JSON Lines, and decoded one
  document at a time; a stream can be dumped and loaded again. Each framer is a class with
  the fields of the original generator, fed one chunk at a time. The theorems say that
  chunking leaves no trace: what a framer has done is a function of the bytes received,
  and that function is a splitter of the whole input which is specified on its own.
* **The JavaScript value codec** (`node/src/codec.rs` and `node/binding.js`). Values are
  lowered to JSON with in-band markers and raised to JavaScript; JavaScript object graphs
  are encoded back. The theorems give the exact acceptance set of each direction, show that
  markers never collide with data, and say exactly when going out and back is the identity.
  `snapshotNativeJSON`, the bounded copy of a caller's JSON, sits beside it.
* **Python stream adapters** (`python/src/codec.rs`). Short reads, short writes, text
  counted in characters and sliced in bytes, and incremental UTF-8. The theorems are
  conservation laws and that incremental decoding is whole decoding.
* **Companions**: the default-value caches of `node/defaults.js`, the agreement between
  announced and projected categories in `node/src/record.rs`, and the section that
  `scripts/build_docs_notebooks.py` keeps at the end of a page.

Native parsers and emitters are parameters: any function from bytes to a value or a fault,
and from a value to bytes or a failure. What is assumed of them is a `requires` of the
round-trip results and of nothing else; for YAML it includes that the first encoding has a
content line, which the emitter of `rust/src/yaml/mod.rs` sees to (lines 216-431 and 510).
Python and JavaScript streams are objects that give any scripted replies. The native side of
the caches is a parameter as well, and is then given the hints of the record projections.

## Modules

| file | what it holds |
|---|---|
| `Sequences.dfy` | bytes, flattening, results |
| `Utf8.dfy` | UTF-8 as in section 4 of RFC 3629: encoding, the scan of one code point, whole and incremental validation |
| `ByteStream.dfy` | strings and byte chunks to bytes, surrogate pairs rejoined |
| `Utf16.dfy` | strings as UTF-16 (section 2 of RFC 2781): which text the code units of a stream are |
| `YamlLines.dfy` | line framing, line breaks as in section 5.4 of YAML 1.2.2 |
| `Decoding.dfy` | decode calls, their limit and their errors |
| `YamlDocuments.dfy`, `YamlStream.dfy` | the declarative document splitter, markers as in section 9.1.2 of YAML 1.2.2, and the framer that refines it |
| `YamlGrammar.dfy` | streams of documents written down in literal bytes, and the decode calls they come to |
| `JsonLines.dfy` | JSON Lines, whitespace as in section 2 of RFC 8259 |
| `DumpStream.dfy` | writing a stream of documents, the round trips, and dumping joined to loading |
| `PythonReader.dfy`, `PythonWriter.dfy` | the Python adapters |
| `Values.dfy` | native values, the core's equality, and values with string-keyed mappings as finite maps |
| `Transport.dfy` | native value to JSON to JavaScript |
| `RoundTrip.dfy` | JavaScript to native value, and the law of both directions |
| `Crossing.dfy` | both directions spelled out for every kind of value, with every bound, ratio and member name |
| `Equality.dfy` | the core's equality and equality as finite maps, told pair by pair |
| `JsGraph.dfy`, `JsEncoding.dfy`, `Acceptance.dfy` | object graphs, the encoder over them, and what it accepts |
| `Snapshot.dfy`, `SnapshotCopy.dfy`, `SnapshotMeaning.dfy` | what the bounded copy accepts, the copy it makes, and the JavaScript value both have |
| `DefaultsCache.dfy` | the caches against computing afresh |
| `RecordHints.dfy` | projections and their announced categories |
| `HintCaches.dfy` | the caches over those categories: no hint throws, so no cached hint goes stale |
| `Relink.dfy` | the generated section of a page |

`dafny verify dfyconfig.toml` checks all of it.

## What turned out not to hold

Three of the laws one would expect of the code are false as they stand. Each has a lemma with
an input that breaks it, and an exact condition for when it holds.

* `fromJs(asJs(v)) == v` fails for a Map with two object keys that differ only in the order
  of their properties, `new Map([[{ a: null, b: null }, null], [{ b: null, a: null }, null]])`:
  the core tells the keys apart by that order, JSON objects lose it, and on the way back the
  keys are duplicates. `RoundTrip.OrderOfKeysIsLost` is that input. The exact condition is
  `RoundTrip.RoundTripIff`: the value is shallow enough, keeps its numbers, and has no two keys
  that are equal as finite maps and have their reserved keys in the same own order.
* What `fromJs` accepts within a depth is not always within that depth: an undefined slot
  becomes null without a look at the depth. `RoundTrip.UndefinedIsDeeper` is the family of
  inputs. The exact condition is `RoundTrip.EncodedIsShallow`: no undefined slot lies exactly
  one level below the depth.
* `asJs` throws on a mapping with an integer key and an equal float key, or with both zeros.
  `Transport.NumberKeysThrow` is such a mapping, and `Transport.ViewedIffNoClash` the exact
  condition.

## Model

| member | source | states |
|---|---|---|
| Utf8.DecodeEncode | python/src/codec.rs:247-284 | the encoding of any text is complete and decodes to the text |
| Utf8.Append | python/src/codec.rs:247-284 | in front of any further bytes an encoded text is decoded on its own, and the scan goes on behind it |
| Utf8.EncodeDecode | python/src/codec.rs:247-284 | encoding what was decoded gives back exactly the valid prefix |
| Utf8.Resume | python/src/codec.rs:247-272 | decoding can stop after any piece and resume from the bytes it left over: text, valid length and verdict are those of the whole |
| Utf8.PendingIsPrefix | python/src/codec.rs:247-272 | the bytes left over by an incomplete string are a proper prefix of the encoding of one code point, at most three bytes |
| Utf8.PrefixNeverInvalid | python/src/codec.rs:247-272 | no prefix of valid UTF-8 is judged malformed |
| Utf8.WholeIffEncoding | python/src/codec.rs:247-284 | a byte string is complete exactly when it is the encoding of some text |
| ByteStream.ScalarsAppend | node/binding.js:548-607 | a text may be cut anywhere but inside a surrogate pair without changing its scalars |
| ByteStream.FromStringDecodes | node/binding.js:548-607 | the bytes of a string are the UTF-8 of its scalars, lone surrogates replaced |
| Utf16.ScalarsOfUtf16 | node/binding.js:577-577 | a string is read as exactly the text whose UTF-16 code units it consists of |
| Utf16.StreamOfUtf16 | node/binding.js:554-607 | string chunks, however the code units of a text are cut into them, give the UTF-8 of the text |
| Utf16.LoneSurrogate | node/binding.js:554-607 | a surrogate that is no half of a pair gives EF BF BD wherever it stands, and changes nothing around it |
| Utf16.StreamOfLone | node/binding.js:554-607 | the same in a stream, also when the surrogate ends a chunk |
| ByteStream.ByteChunker.Feed | node/binding.js:554-607 | after any chunk the bytes yielded are those the chunks so far have settled; the stream is refused exactly when they exceed the limit |
| ByteStream.ByteChunker.Finish | node/binding.js:599-606 | at the end the bytes yielded are all the stream stands for, a held surrogate as its replacement |
| ByteStream.SettledGrows | node/binding.js:554-607 | what is settled after some chunks is a prefix of what more chunks settle, and that of all the stream stands for |
| ByteStream.TextStream | node/binding.js:554-607 | a stream of strings, however cut, stands for the bytes of the one concatenated string |
| ByteStream.BytesBetween | node/binding.js:554-607 | a byte chunk stands for itself and keeps what is before it apart from what is after it, whatever the chunks around it |
| ByteStream.RunsMayBeRecut | node/binding.js:554-607 | strings next to one another may be cut up differently, whatever chunks surround them, without changing what the stream stands for |
| ByteStream.BuffersConserve | node/binding.js:554-607 | the buffers of a stream, laid end to end, are the bytes it stands for |
| ByteStream.StreamByteChunks | node/binding.js:554-607 | a whole stream is refused exactly when its bytes exceed 64 MiB; what it yields are its buffers, as many from the front as there is room for |
| ByteStream.ReadStream | node/binding.js:963-978 | the chunks joined; the second size test never decides anything |
| Sequences.JoinParts | node/binding.js:1048-1052 | joining the parts of a line by the length counted for them gives the parts laid end to end |
| YamlLines.LinesConserve | node/binding.js:1151-1239 | framed lines laid end to end are the input |
| YamlLines.LineStart | node/binding.js:1151-1239 | each line stands at the sum of the lengths of the earlier ones |
| YamlLines.LineWellFramed | node/binding.js:1151-1239 | each line is its frame less exactly one LF, CR or CRLF and holds neither byte; only the last may lack a terminator |
| YamlLines.SplitAppend | node/binding.js:1151-1239 | cutting the input behind a complete terminator splits its lines there |
| YamlLines.LineFramer.Feed | node/binding.js:1158-1226 | one chunk in: the lines yielded so far, with the parts held, are those of the bytes received |
| YamlLines.LineFramer.Finish | node/binding.js:1228-1238 | at the end the lines yielded are the lines of everything received |
| YamlLines.StateFromBytes | node/binding.js:1151-1239 | two framers that received the same bytes in any chunks have yielded the same lines and hold the same state |
| YamlLines.YamlLineFrames | node/binding.js:1151-1239 | the lines of a whole stream of chunks are those of the concatenated bytes |
| YamlDocuments.YamlPreambleLine | node/binding.js:1136-1145 | the scan holds exactly for blank lines, comments and directives, a trailing CR aside |
| YamlDocuments.SplitIsSegmentation | node/binding.js:1241-1309 | cutting line by line gives the declarative segmentation: a boundary before `---` once a start marker or content was seen, after every `...`, and nowhere else |
| YamlDocuments.SegmentationUnique | node/binding.js:1241-1309 | there is only one such segmentation |
| YamlDocuments.RequestsOfSegmentation | node/binding.js:1241-1309 | the decode calls of a stream are those of its segmentation |
| YamlDocuments.DroppedLines | node/binding.js:1241-1309 | a segment that is not decoded holds only blank lines, comments and end markers |
| YamlDocuments.MadeExtends | node/binding.js:1241-1309 | more lines only add decode calls |
| YamlDocuments.RequestsAnchored | node/binding.js:1250-1304 | every byte given to the parser is the byte of the stream at its offset, up to an appended end marker, which stands where the stream goes on with `---` |
| YamlGrammar.LineKinds | node/binding.js:1122-1149 | the kinds of lines from literal bytes: three dashes or dots alone or in front of a space or a tab, `%` first, blanks only or up to a `#`, and everything else |
| YamlGrammar.StreamCalls | node/binding.js:1241-1309 | a stream of documents in literal bytes, with lines before `---`, ended by `...` or by the next `---`, comes to one decode call for each document worth one, at its offset |
| YamlGrammar.StreamAnswers | node/binding.js:1241-1309 | and under any chunking the outcome of the stream is the answer to those calls |
| YamlGrammar.TwoStarts | node/binding.js:1262-1280 | `---` + a and `---` + b, with a and b empty or a blank first, are two decode calls, the first closed by a `...` line, and two values |
| YamlGrammar.EndThenStart | node/binding.js:1295-1304 | a `...` line, with or without a blank and more behind it, ends its document, and nothing is appended |
| YamlGrammar.OrdinaryLine | node/binding.js:1122-1134 | three dashes or dots with any other byte behind them are content and no marker |
| YamlGrammar.NoBoundary | node/binding.js:1241-1309 | lines none of which is a marker make no boundary: they are one decode call and one value |
| YamlStream.DocumentFramer.Feed | node/binding.js:1262-1305 | one line in: the decode calls made so far are those of the lines received |
| YamlStream.DocumentFramer.Finish | node/binding.js:1306-1308 | at the end the decode calls are all those of the stream |
| YamlStream.LinesFollow | node/binding.js:1151-1239 | the lines fed to the document framer follow one another without a gap |
| YamlStream.YamlDocumentStream | node/binding.js:1241-1309 | within the input limit the outcome depends only on the bytes the chunks stand for; beyond it exactly the documents are yielded that the lines complete which are over within the buffers that fit, and then the stream fails |
| Decoding.AnswerValues | node/binding.js:1250-1260 | the i-th value is that of the i-th decode call; the stream stops at the first fault, at the offset of its frame plus the parser's, or after 1024 documents |
| Decoding.AnswerExtends | node/binding.js:1250-1260 | a stopped stream stays as it stopped, a running one only adds values |
| Decoding.Decoder.Decode | node/binding.js:1250-1260 | one decode call: counted, limited and answered as the calls so far with this one |
| JsonLines.IsJsonWhitespace | node/binding.js:1054-1061 | the scan holds exactly for bytes that are all JSON whitespace |
| JsonLines.JsonAppend | node/binding.js:1063-1119 | cutting the input between two lines splits its decode calls there |
| JsonLines.JsonNext | node/binding.js:1079-1103 | one more line adds one decode call, unless it is blank |
| JsonLines.JsonLast | node/binding.js:1108-1118 | a last line without LF keeps its CR |
| JsonLines.JsonAnchored | node/binding.js:1063-1119 | every decode call stands exactly at its offset in the input and lies inside one line |
| JsonLines.LinesAreCalls | node/binding.js:1063-1119 | lines in literal bytes: each that has more than spaces, tabs and carriage returns is one decode call at its place, less one carriage return in front of a line feed |
| JsonLines.LinesAnswered | node/binding.js:1063-1119 | and under any chunking the outcome of the stream is the answer to those calls |
| JsonLines.JsonLinesFramer.Feed | node/binding.js:1069-1107 | one buffer in: the decode calls made so far, with the parts held, are those of the bytes received |
| JsonLines.JsonLinesFramer.Finish | node/binding.js:1108-1118 | at the end the decode calls are all those of the bytes received |
| JsonLines.JsonLinesStream | node/binding.js:1063-1119 | within the input limit the outcome depends only on the bytes the chunks stand for; beyond it exactly the lines are yielded that are over within the buffers that fit, and then the stream fails |
| DumpStream.Emitted | node/binding.js:1319-1327 | the documents handled are the first ones, up to 1024 of them or to the first that fails to encode, and no fewer |
| DumpStream.DumpAllStream | node/binding.js:1311-1338 | what was written is whole pieces of the documents handled, each ending in a line feed and a YAML one after the first behind `---`, and exactly why it stopped |
| DumpStream.DumpedLayout | node/binding.js:1311-1338 | what is written, byte by byte: each encoding with the line feed it may lack, YAML ones with a line of three dashes in between |
| DumpStream.JsonRequestsDumped | node/binding.js:1311-1338 | each dumped encoding comes back as one decode call, in order |
| DumpStream.JsonRoundTrip | node/binding.js:1063-1119 | the bytes of a JSON Lines dump, under any chunking, have the dumped values in order as their outcome, for encodings that fit on a line and are not blank |
| DumpStream.DumpThenLoadJson | node/binding.js:1063-1119 | `dumpAllStream` and then `jsonLinesStream` over any chunking of what was written give the values back in order, up to 64 MiB of text; beyond that loading never ends well and yields a prefix of them |
| DumpStream.LinesOfPieces | node/binding.js:1311-1338 | the lines of a dumped stream are those of its pieces |
| DumpStream.PiecesAreSegments | node/binding.js:1311-1338 | each piece is one segment of the stream |
| DumpStream.YamlRequestsDumped | node/binding.js:1311-1338 | each dumped encoding comes back as exactly one decode call, in order |
| DumpStream.YamlRoundTrip | node/binding.js:1241-1309 | the bytes of a YAML dump, under any chunking, have the dumped values in order as their outcome, for encodings without marker lines of which the first has a content line |
| DumpStream.DumpThenLoadYaml | node/binding.js:1241-1309 | `dumpAllStream` and then `yamlDocumentStream` over any chunking of what was written give the values back in order, up to 64 MiB of text; beyond that loading never ends well and yields a prefix of them |
| DumpStream.YamlDocumentCount | node/binding.js:1311-1338 | as many documents come back as were dumped exactly when the first encoding has a content line, or is alone and has a directive |
| PythonReader.Reader.CopyChunk | python/src/codec.rs:70-79 | what fits is handed out, the rest waits, nothing is lost or moved |
| PythonReader.Reader.Read | python/src/codec.rs:91-164 | bytes delivered and bytes waiting are the bytes received; a read asks the source at most once and only when nothing waits, hands out as much as fits, returns 0 only at the end, keeps at most three times the request waiting, and never calls the source again after an error |
| PythonReader.EncodeSize | python/src/codec.rs:91-164 | a text takes one to four bytes a character |
| PythonReader.ContentsJoined | python/src/codec.rs:91-164 | the content of a stream is the data of its replies up to the first without any, text as UTF-8 |
| PythonReader.AcceptableServed | python/src/codec.rs:91-164 | replies are acceptable exactly when each that is reached is data within the request: bytes of a binary, characters of a text stream |
| PythonReader.BeforeFaultJoined | python/src/codec.rs:91-164 | what can be read of a stream that fails is the data of its replies up to the one at fault |
| PythonReader.ReadToEnd | python/src/codec.rs:91-164 | reading to the end through a buffer of any size fails exactly on a reply that is no data or more than was asked for; it yields exactly the content, or all of it up to that reply |
| PythonWriter.Destination.WriteText | python/src/codec.rs:287-318 | a text stream keeps as many characters as it reports, whatever the adapter makes of the report |
| PythonWriter.Accepted | python/src/codec.rs:200-225 | a count from one to what was offered is taken at its word, None as all, and each other reply as its own error |
| PythonWriter.CutAtCharacter | python/src/codec.rs:305-316 | cutting a string at the byte of its n-th character cuts its text after n characters |
| PythonWriter.WritePythonText | python/src/codec.rs:287-318 | the characters taken are a prefix of the text, each once and in order, and all of it when no offer fails |
| PythonWriter.Writer.WriteBinary | python/src/codec.rs:227-245 | the writer turns to text exactly on a type error at the first offer of all, and then all of the input goes out as text; otherwise mode, count, bytes and error are those of the one reply |
| PythonWriter.Writer.WriteTextBytes | python/src/codec.rs:247-272 | the text delivered is the decoding of all bytes consumed, less an incomplete code point that waits; malformed input is reported exactly when the whole is malformed; the branch for malformed input without an error length is never reached |
| PythonWriter.Writer.Write | python/src/codec.rs:320-335 | an earlier error is final and nothing is offered of nothing; otherwise what arrived, the error and the replies used are exactly those of one offer of bytes or of all as text |
| PythonWriter.Writer.WriteAll | python/src/codec.rs:320-335 | a write-all loop ends; what arrived, the error and the replies used are those of offering the input until it is taken or an offer fails |
| PythonWriter.Writer.Finish | python/src/codec.rs:274-284 | finishing succeeds exactly when no error happened and the text consumed is complete |
| PythonWriter.InvalidExtends | python/src/codec.rs:247-272 | what is malformed stays malformed, whatever follows |
| PythonWriter.ArrivesIff | python/src/codec.rs:166-340 | a document arrives whole exactly when every offer of it is accepted and, as text, it is complete UTF-8 |
| PythonWriter.FaultsAreWhole | python/src/codec.rs:166-340 | malformed or incomplete input is reported only where the whole document is so, however it was cut |
| PythonWriter.BytesThenFault | python/src/codec.rs:200-245 | a destination that reports bytes count by count and then raises has received exactly as many bytes as it counted, and the write fails with its error |
| PythonWriter.TextThenFault | python/src/codec.rs:287-318 | the same of a text stream, in characters |
| PythonWriter.WriteDocument | python/src/codec.rs:166-340 | a document written in any pieces to any destination has exactly the outcome the replies and the pieces determine: it fails with their first fault, what arrived is a prefix of its bytes or of its text, and as much arrived as the destination reported over its calls |
| Values.CountAtFinds | rust/src/generic/temporal.rs:122-137 | a count is restated in another unit exactly when a count that fits names the same instant, and then as that count |
| Equality.SameDecimalIff | rust/src/generic/decimal.rs:89-129 | decimals have one name exactly when their coefficients agree at a common scale |
| Equality.CoreEqualIff | rust/src/generic/value.rs:293-362 | values have one name exactly when the core finds them equal: integers by number, decimals and temporals by what they name, mappings entry by entry in order |
| Equality.DistinctKeysIff | rust/src/generic/value.rs:490-519 | `from_mapping` refuses exactly the mappings with two equal keys |
| Equality.MapEqualIff | rust/src/generic/value.rs:293-362 | and one name as finite maps exactly when they are equal with string-keyed mappings compared name by name in any order |
| Transport.CrossesIffShallow | node/src/codec.rs:1293-1468 | lowering succeeds exactly when the height of the value is within the depth |
| Transport.NothingLost | node/src/codec.rs:1422-1459 | no object made for the crossing has a `__proto__` member, so JavaScript receives all of it |
| Transport.MarkerHasShape | node/binding.js:677-688 | a marker is recognised as one |
| Transport.OneKind | node/binding.js:677-688 | and as no other kind of marker |
| Transport.NoKind | node/binding.js:677-688 | an object without the reserved key is no marker |
| Transport.IntegerDelivers | node/src/codec.rs:1379-1399 | an integer arrives as a number within 2^53-1 and as a bigint beyond |
| Transport.FloatDelivers | node/src/codec.rs:1401-1420 | every double arrives as itself, -0, NaN and infinities too |
| Transport.TimestampDelivers | node/binding.js:693-720 | a timestamp arrives as a Date exactly when it is one, and as itself otherwise |
| Transport.ScalarDelivers | node/binding.js:722-784 | every value without children arrives as its direct view |
| Transport.Delivers | node/binding.js:722-784 | raising what was lowered is the direct view of the value, whatever keys its mappings have at any depth |
| Transport.DefinedIsRecord | node/binding.js:760-771 | defining the pairs of an escaped object one by one leaves each key its own item, in the order of the pairs |
| Transport.KeysMeetAsNumbers | node/binding.js:747-759 | two different keys become one Map key only when both are the same number |
| Transport.ViewedIffNoClash | node/binding.js:747-759 | raising throws exactly when some mapping has one number as two keys |
| Transport.NumberKeysThrow | node/binding.js:747-759 | a mapping with the keys 1 and 1.0 is a value without duplicate keys and cannot be raised at any depth |
| Transport.OrdersExist | node/binding.js:760-771 | there are orders of properties as the results about raising assume them |
| Transport.AsJsIsView | node/binding.js:800-806 | `asJs` is the direct view, and throws exactly on depth and on clashing keys |
| Crossing.TimestampInJs | node/src/codec.rs:1338-1367 | a timestamp arrives as a Date exactly when it is naive and 1000 times its seconds, its milliseconds, or a thousandth or millionth of its micro- or nanoseconds is a whole number within 8.64e15, and as itself otherwise |
| Crossing.OneInstant | rust/src/generic/temporal.rs:182-193 | one second is 1000, 1000000 and 1000000000 of the smaller units, and calendar counts name nothing else |
| Crossing.IntegerInJs | node/src/codec.rs:1379-1399 | an integer of any width arrives as a number within 9007199254740991 of zero and as a bigint beyond |
| Crossing.DataInJs | node/src/codec.rs:1299-1311 | null, booleans, floats, strings and bytes arrive as themselves |
| Crossing.NativeInJs | node/src/codec.rs:1320-1374 | decimals, dates, times and durations stay native values |
| Crossing.DataOnTheWire | node/src/codec.rs:1293-1400 | the markers of bytes, bigints, decimals and dates, member by member |
| Crossing.FloatsOnTheWire | node/src/codec.rs:1401-1420 | the spellings of NaN, the infinities and -0 |
| Crossing.TimesOnTheWire | node/src/codec.rs:1331-1374 | the markers of times and durations, with the spelling of each unit |
| Crossing.TimestampsOnTheWire | node/src/codec.rs:1338-1367 | the marker of a timestamp, with its date only where it is one |
| Crossing.MappingOnTheWire | node/src/codec.rs:1422-1459 | a mapping is a plain object unless a key is no string or is `__yggdryl_codec__` or `__proto__`, and pairs in order behind a marker then |
| RoundTrip.NarrowInteger | node/src/codec.rs:859-877 | the narrowest integer that holds a bigint holds it exactly |
| Crossing.NumberFromJs | node/src/codec.rs:839-852 | an integer within 9007199254740991 of zero is encoded as one, and every other number, -0 too, as a float |
| Crossing.BigIntFromJs | node/src/codec.rs:859-877 | a bigint takes the first of the four widths that holds it, and is refused exactly beyond 128 bits |
| Crossing.DateFromJs | node/src/codec.rs:940-953 | a Date is a naive timestamp in milliseconds, and an invalid one is refused |
| Crossing.DataFromJs | node/src/codec.rs:805-836 | undefined and null, booleans, strings, buffers and native values are encoded as themselves |
| Crossing.ScalarComesBack | node/binding.js:788-806 | of values without children exactly the floats that are safe integers come back different |
| RoundTrip.ScalarReturns | node/src/codec.rs:805-877 | encoding the view of a scalar gives the scalar as it comes back |
| RoundTrip.Returns | node/src/codec.rs:805-1207 | encoding the view of a value succeeds exactly when no two keys come back as one |
| RoundTrip.SameIffNumbersKept | node/src/codec.rs:839-877 | what comes back is the value, mappings as finite maps, exactly when it holds no safe integer as a float and no key -0 |
| RoundTrip.CoreTellsMap | rust/src/generic/value.rs:293-362 | what the core finds equal is equal as finite maps |
| RoundTrip.MapTellsReturned | node/src/codec.rs:1422-1459 | values equal as finite maps whose reserved keys are listed alike come back equal to the core |
| RoundTrip.ReturnAlikeIff | node/src/codec.rs:1422-1459 | two values come back equal to the core exactly when they are equal as finite maps and their reserved keys are listed alike |
| RoundTrip.StaysIffApart | rust/src/generic/value.rs:490-519 | no two keys come back as one exactly when no two keys are equal as finite maps with reserved keys in the same order |
| RoundTrip.ApartIffNamesDiffer | rust/src/generic/value.rs:490-519 | keys that differ as finite maps are apart; without reserved keys only those are |
| RoundTrip.StaysIffNamesDiffer | rust/src/generic/value.rs:490-519 | keys that differ as finite maps come back different; without reserved keys only those do |
| RoundTrip.KeptNeverClashes | node/binding.js:747-759 | a value that keeps its numbers has a JavaScript view |
| RoundTrip.ThroughIsReturned | node/binding.js:788-806 | out and back is the returned form of the value, or a throw for depth, a clash or a duplicate |
| RoundTrip.RoundTripIff | node/binding.js:788-806 | `fromJs(asJs(v)) == v` exactly when v is shallow, keeps its numbers, and no two of its keys are equal as finite maps with reserved keys in the same order |
| RoundTrip.RoundTripIffNamesDiffer | node/binding.js:788-806 | without reserved keys the condition is that keys differ as finite maps |
| RoundTrip.FromJsMakes | node/src/codec.rs:805-1207 | a value made by `fromJs` has no key twice and keeps its numbers |
| RoundTrip.EncodedIsShallow | node/src/codec.rs:1116-1191 | what `fromJs` accepts within a depth is within it exactly when no undefined slot lies one level below the depth |
| RoundTrip.MadeRoundTrips | node/binding.js:788-806 | what `fromJs` makes comes back unchanged or not at all: it does exactly when no undefined slot lies one level below the depth and its keys are apart |
| RoundTrip.UndefinedIsDeeper | node/src/codec.rs:1116-1128 | arrays nested to the depth with a hole innermost are accepted on the way in and refused on the way out |
| RoundTrip.EqualKeysAreLost | rust/src/generic/value.rs:490-519 | keys equal as finite maps are refused on the way back in |
| RoundTrip.OrderOfKeysIsLost | node/src/codec.rs:1429-1444 | a Map with two object keys that differ in the order of their properties does not come back |
| JsGraph.OneUnfolding | node/src/codec.rs:879-891 | an object graph unfolds to one tree at most |
| JsGraph.CycleNeverUnfolds | node/src/codec.rs:879-891 | what lies on a cycle unfolds to no tree |
| JsEncoding.TrailCloses | node/src/codec.rs:879-884 | meeting an active object again is meeting a real cycle |
| JsEncoding.JsEncoder.Encode | node/src/codec.rs:801-803 | a whole value is answered by the encoding of its unfolding, or refused where there is none; the active set is empty again either way |
| JsEncoding.JsEncoder.EncodeSlot | node/src/codec.rs:1116-1128 | a hole or undefined is null at any depth |
| JsEncoding.JsEncoder.EncodeAt | node/src/codec.rs:805-836 | the same for any item at any depth, with the active set unchanged |
| JsEncoding.JsEncoder.EncodeObject | node/src/codec.rs:879-891 | an object is refused while active, and what is active is restored on success and on refusal |
| JsEncoding.JsEncoder.EncodeItems | node/src/codec.rs:1116-1158 | a list on the heap is answered by the encoding of its unfolding, or refused where there is none, with the active set restored |
| JsEncoding.JsEncoder.EncodeProperties | node/src/codec.rs:1180-1191 | an object is encoded property by property, in order |
| JsEncoding.JsEncoder.EncodeMap | node/src/codec.rs:1134-1146 | a Map is answered by its pairs encoded in order, or refused where a key or value is or where two keys become one, with the active set restored |
| JsEncoding.EncodeValues | node/src/codec.rs:609-631 | values encoded with one encoder are encoded as if each by itself; more than 1024 or a missing one are refused |
| Acceptance.UnfoldsIffAcyclic | node/src/codec.rs:879-891 | an item unfolds to a tree exactly when it reaches no cycle; sharing is no obstacle |
| Acceptance.EncodesIffShallow | node/src/codec.rs:805-836 | a tree of arrays and plain objects is encoded exactly when its height is within the depth |
| Acceptance.AcceptsIffShallow | node/src/codec.rs:805-891 | of arrays and plain objects the encoder accepts exactly what unfolds to a tree within the depth, returns the encoding of that tree, and blames a cycle only where there is one |
| Snapshot.StartFeasible | node/binding.js:20-23 | the first stack can be finished exactly when the source is a tree of JSON data without shared objects, within 1000000 nodes and depth 256 |
| Snapshot.ScalarStep | node/binding.js:50-68 | a scalar can be taken exactly when it is JSON and not too deep, and the rest of the stack can be finished |
| Snapshot.ContainerStepIff | node/binding.js:69-148 | an object can be taken exactly when it is new, an array or plain object, not too deep and there is room, and its slots can be finished in its place; the early test of its length refuses nothing else |
| Snapshot.NoRoom | node/binding.js:36-42 | beyond the bound on nodes nothing can be finished |
| SnapshotCopy.ScalarAccounted | node/binding.js:25-32 | assigning a scalar settles its slot and no other |
| SnapshotCopy.CloneAccounted | node/binding.js:88-148 | a new clone takes the place of its source and its slots wait on the stack |
| SnapshotCopy.FinishedUnfolds | node/binding.js:151-151 | when the stack is empty the clones unfold to the tree of the source with every object replaced by its clone |
| SnapshotCopy.FinishedIsCopy | node/binding.js:151-151 | the copy has the same data in the same shape and no clone in two places |
| SnapshotMeaning.AcceptableMeans | node/binding.js:20-152 | acceptable are exactly the sources whose value is JSON data at most 256 deep with at most 1000000 parts, no object of which occurs twice |
| SnapshotMeaning.DenotesUnfolds | node/binding.js:69-148 | where the heap holds arrays and plain objects only, every source whose value is JSON data unfolds to a tree of that value |
| SnapshotMeaning.CopyHasValue | node/binding.js:20-152 | the JavaScript value the clones make up, read property by property, is the value of the source |
| SnapshotCopy.PushSlots | node/binding.js:90-109 | the slots of an object are pushed last to first |
| SnapshotCopy.SnapshotNativeJson | node/binding.js:20-152 | accepts exactly the acceptable sources and returns a copy; one node more each turn is the termination measure |
| DefaultsCache.DefaultsCache.DefaultJsValue | node/defaults.js:61-94 | the default is what a fresh computation on the Field as it is now gives |
| DefaultsCache.DefaultsCache.DefaultJsHint | node/defaults.js:167-182 | the very object handed out last while datatype and nullability are those it was made for, and otherwise one never handed out before; where no hint throws it carries the Field's kind and nullability and the constructor at its native code |
| DefaultsCache.StepFresh | node/defaults.js:61-182 | one mutation, default value or hint: the caches stay valid and the answer is the fresh one, if hints do not throw |
| DefaultsCache.UniformRunsFresh | node/defaults.js:61-182 | over every interleaving of mutations, default values and hints the answers are the fresh ones, if hints do not throw |
| DefaultsCache.TransparentIffUniform | node/defaults.js:61-182 | for a native side in general, every run is answered freshly exactly when all datatypes have a hint or none has |
| DefaultsCache.SameObject | node/defaults.js:167-182 | as long as datatype and nullability stay, every ask gives the same object, whatever else changes or is asked |
| DefaultsCache.NeverShared | node/defaults.js:61-182 | over every run no two Fields are ever given one object |
| HintCaches.CodeIsInTable | node/defaults.js:107-118 | every category's code is the place of its constructor in the table |
| HintCaches.HintsNeverThrow | node/defaults.js:118-130 | every datatype that can be built has a hint, with its kind, the nullability asked for and the constructor of its category |
| HintCaches.EveryRunTransparent | node/defaults.js:61-182 | over the hints of the record projections, every run of mutations, default values and hints is answered as if computed afresh |
| HintCaches.HintMatchesProjection | node/src/record.rs:53-108 | whatever value projects, the hint handed out for its datatype names the constructor of what comes out |
| RecordHints.HintTotal | node/src/record.rs:53-108 | a datatype whose intervals have calendar layouts, as every constructor and `validate` demand, has a hint through any wrappers |
| RecordHints.VariantIndex | node/src/record.rs:350-354 | the first variant of a type id, or none where there is none |
| RecordHints.HintKeepsItsWord | node/src/record.rs:53-108 | a value other than null that projects has the category announced for its datatype, through any wrappers |
| RecordHints.NoHintNoValue | node/src/record.rs:53-108 | a datatype without a hint projects nothing but null |
| RecordHints.IntegersExact | node/src/record.rs:138-233 | a projected integer is the integer that was stored |
| RecordHints.ListKeepsOrder | node/src/record.rs:263-283 | a list projects item by item, and exactly when all items do |
| RecordHints.StructKeepsOrder | node/src/record.rs:299-327 | a struct projects by position, each item by its own field, and only with as many items as fields |
| RecordHints.UnionKeepsVariant | node/src/record.rs:329-363 | a union projects to its type id beside the payload projected by the first variant of that id |
| RecordHints.MapKeepsOrder | node/src/record.rs:375-414 | a map projects entry by entry, in order |
| RecordHints.ProjectShows | node/src/record.rs:138-414 | type by type and through any encodings, exactly which JavaScript value shows which native value, told from the JavaScript value, and that the projection is that one and fails where there is none |
| RecordHints.ShownPayload | node/src/record.rs:138-233 | a boolean, string or buffer shown is the one stored, a number the stored float or integer, a bigint the stored integer or the reading of the stored text |
| RecordHints.DataTypeToJs | node/src/record.rs:138-233 | the result is exactly the JavaScript value that shows the native one, of the category announced for the datatype; a boolean, string or buffer is the one stored |
| RecordHints.IntervalToJs | node/src/record.rs:235-261 | months are a 32-bit number; other components stay in order as 32-bit numbers, the third of a month-day-nano one as a bigint |
| RecordHints.SequenceToJs | node/src/record.rs:263-283 | filling the array item by item is the projection of the list |
| RecordHints.StructToJs | node/src/record.rs:299-327 | filling the array by position is the projection of the struct |
| RecordHints.UnionToJs | node/src/record.rs:329-363 | a union projects exactly when it is a pair whose type id selects a variant that projects the payload, and then to that type id beside that payload |
| RecordHints.MapToJs | node/src/record.rs:375-414 | filling the Map with a test for each key is the projection of the map |
| Relink.AtIff | scripts/build_docs_notebooks.py:252-253 | a marker stands at a place exactly when the text is what is before it, the marker and the rest |
| Relink.Find | scripts/build_docs_notebooks.py:252-253 | the first occurrence from a position on |
| Relink.RelinkPage | scripts/build_docs_notebooks.py:248-258 | the loop ends, and takes out section after section as specified |
| Relink.OfferWords | scripts/build_docs_notebooks.py:229-234 | the offer of a notebook in each language, word for word |
| Relink.LinksWords | scripts/build_docs_notebooks.py:227-245 | the whole section, word for word, its offers one a line |
| Relink.OffersLack | scripts/build_docs_notebooks.py:229-234 | no offer of a notebook can be taken for a marker |
| Relink.StartOnce | scripts/build_docs_notebooks.py:227-245 | a page of a body and a section has the start marker once, behind the body |
| Relink.EndAfterStart | scripts/build_docs_notebooks.py:227-245 | and the end marker once behind that |
| Relink.RelinkedForm | scripts/build_docs_notebooks.py:248-258 | what comes out is a body without sections, followed by the section if there are notebooks |
| Relink.OneSection | scripts/build_docs_notebooks.py:248-258 | the result has exactly one section, at its end, if there are notebooks, and none otherwise |
| Relink.RelinkingForgets | scripts/build_docs_notebooks.py:248-258 | relinking a relinked page, for whatever notebooks, is relinking the page it was made from |
| Relink.Idempotent | scripts/build_docs_notebooks.py:248-258 | relinking twice is relinking once |
| Relink.KeepsBody | scripts/build_docs_notebooks.py:257-258 | a page without a section keeps all but the line breaks at its end |

## Left out

- Streams are consumed as whole sequences of chunks, buffer by buffer; that a generator pulls
  lazily, and what a consumer sees when it stops early, is not part of this model.
- The native parsers and emitters, and so which bytes are a document at all.
- File, descriptor, Arrow and C-stream input and output, and every binding that only forwards
  to the core.
- Prototype, subclass, cross-realm and Proxy checks, property descriptors, accessors and
  getters; an object's properties are its own enumerable data properties.
- Functions, symbols and external values, which the encoder refuses each in one branch, and
  URL, RegExp and wrappers other than Value, which it encodes as one string.
- The text of error messages. Which of several errors of one input is reported first is
  modelled for streams and adapters, and not stated for the codec.
- Transport.Delivers: payloads of markers are kept by what they spell, a number or bytes, not
  by their decimal or base64 spelling; of JSON that the core never makes, `fromTransport` may
  read more than is modelled. Values are those without duplicate keys, as the core's
  constructor makes them.
- Transport.AsJsIsView: the order in which JavaScript lists properties is any order that lists
  each once, a function of the names for objects made from JSON and of the order of definition
  for escaped ones.
- Strings of the codec are sequences of characters; lone surrogates in them are not modelled
  there. In streams they are.
- Doubles are an integer, another finite number by an index, NaN, an infinity or -0; rounding
  and arithmetic on them are left out.
- JsEncoding.JsEncoder.EncodeItems: Sets and wide typed arrays are lists of items like arrays;
  what a getter or a Proxy could do while it is being read is left out.
- SnapshotCopy.SnapshotNativeJson: sources are dense arrays and plain objects of data
  properties; a hole counts as the undefined it reads as, and both are refused. The order in
  which a clone's own properties are listed is not stated.
- DefaultsCache.DefaultsCache.DefaultJsValue: entries are held per Field and never collected;
  the `owner` record beside a schema, which nothing reads, is left out, and so are the caches of
  a datatype, which cannot change.
- RecordHints.DataTypeToJs: widths, precisions and the paths used in error messages do not take
  part; a union's layout mode and a map's order flag are not modelled.
- Relink.RelinkPage: a page is its text after line endings were read as LF; writing files and
  removing stale notebooks is left out, as is the build over all pages.
- PythonWriter.Writer.WriteBinary: replies other than a count, None, a boolean or a raised error
  are one kind of wrong type.
- Promises, event listeners, and settling of writable streams.
