# A verified model of the JSON engine and the traffic sensor of DCFabric

The controller carries a JSON engine (`DCFabric-Plus/inc/rapidjson`), and beside it a
traffic sensor (`DCFabric-measurement`). This project models both and proves what they
are for.

- **Reading** (`Lexer`, `Parsers`, `Reader`, `Overrun`). The specification is a set of functions over
  the text; the class `Reader` is the imperative reader over one buffer, with cursors, an
  untyped stack and a result, for both parsers and for in-situ decoding. `Agreement`
  relates the two parsers, `History` the stack of the second one to its events; `Overrun`
  says when validation leads behind the text.
- **The grammar** (`Grammar`, `Leaves`, `Numerals`, `Conformance`, `Soundness`, `Errors`).
  Concrete syntax trees of RFC 8259 and of the flags' extensions, spelled apart from the
  parsers; that the parsers accept exactly them, and what the errors of others tell.
- **Values** (`Dom`, `Document`, `Equality`, `Containers`). Type flags, `Accept`, the
  document as handler, deep copy, `operator==`, growing and shrinking storage.
- **Printing** (`PrettyWriter`, `Writing`, `RoundTrip`), what its assertions let through, and
  its way back through the parsers.
- **JSON Pointer** (`Pointer`, `PointerGrammar`, `PointerObject`, `PointerTree`). Both
  surface forms (RFC 6901) and their grammar, the object with its name buffer, and the laws
  of get, create, set and erase.
- **Encodings and streams** (`Encodings`, `AutoUtf`, `AutoUtfStreams`, `FileStreams`).
- **Allocation** (`Allocator`) and the **sensor** (`Sensor`, `SensorObject`).

Methods over arrays and fields follow the source's loops and are proved equal to
specification functions, about which the lemmas speak. A handler is a function of all the
events that it has been sent, so it may refuse at any point. In the specification
functions a text is followed by NULs; the reader object asks only for the one that ends
it. `dafny verify dfyconfig.toml` checks the whole project.

Where the code does not do what it or its documentation promises, the model follows the
code, one lemma names an input and another the exact condition:

- `operator==` on duplicate names (`Equality.DuplicatesAsymmetric`,
  `Equality.DuplicatesEqualSomething`, `Equality.SymmetricExactly`) and on integers 2^64
  apart (`Equality.MinusOneEqualsMax`, `Equality.IntegersEqual`);
- names for Infinity that are not documented (`Soundness.MisspeltInfinity`,
  `Numerals.SpecialNames`);
- a member without a value, which the writer's assertions overlook
  (`Writing.NameWithoutValue`, `Writing.CaughtExactly`);
- array indices that overflow (`Pointers.MissedOverflow`, `Pointers.IndexExactly`);
- validation and printing that go on behind a NUL (`Overrun.OverrunExample`,
  `Overrun.OverrunsExactly`; `Pointers.ReachExample`,
  `PointerObject.GenericPointer.Stringify`);
- detection of an encoding (`AutoUtf.MarkedNulMisread`, `AutoUtf.DetectWritten`), and
  through the smallest legal file buffer (`FileStreams.FileReadStream.Peek4`).

## Model

| member | source | states |
|---|---|---|
| Agreement.ParsersAgree | DCFabric-Plus/inc/rapidjson/reader.h:485-516 | For every text, flag set and handler, the table-driven parser and recursive descent agree on success, send the same events (also when they fail) and stop at the same place on success; when both fail the error has the same code and offset, but for stray punctuation in place of the root value and a refused bracket event, whose offset differs by one. |
| Agreement.SimulateValue | DCFabric-Plus/inc/rapidjson/reader.h:1392-1405 | From any mode that waits for a value, the machine runs on one value to exactly the state that `ParseValue` reaches, or fails alike. |
| Agreement.SimulateMembers | DCFabric-Plus/inc/rapidjson/reader.h:603-653 | The machine follows the loop of `ParseObject` from the `n`th member, with the count on its stack equal to the loop's counter. |
| Agreement.SimulateElements | DCFabric-Plus/inc/rapidjson/reader.h:671-701 | The machine follows the loop of `ParseArray` from the `n`th element, with the count on its stack equal to the loop's counter. |
| History.RunTracks | DCFabric-Plus/inc/rapidjson/reader.h:1649-1794 | In every machine of every run the stack is a list of frames with `Start` at the bottom and `Element` or `MemberValue` above, the mode names the kind of the innermost open container, and each count is the number of children closed by a comma so far, as the events sent say. |
| History.TransitTracks | DCFabric-Plus/inc/rapidjson/reader.h:1649-1794 | One `Transit` keeps the stack in step with the events sent, in every mode and for every token. |
| History.EventsBalanced | DCFabric-Plus/inc/rapidjson/reader.h:485-516 | What either parser has sent is always the beginning of a balanced sequence whose closing events carry the number of direct children; after success it is one whole value. |
| Soundness.AcceptedExactlyGrammar | DCFabric-Plus/inc/rapidjson/reader.h:485-516 | Under every set of flags but the stop flag (comments, trailing commas, NaN and Infinity, validation, numbers as strings), on a text without NUL and with an accepting handler, both parsers accept exactly the texts of the grammar: that of sections 2 to 7 of RFC 8259, spelled apart from the lexer byte by byte, with this reader's rules for surrogates, raw bytes, number range and comments. |
| Soundness.StoppedExactly | DCFabric-Plus/inc/rapidjson/reader.h:485-516 | With the stop flag, both parsers accept exactly the texts that begin, behind white space, with a value of the grammar which what follows does not prolong. |
| Soundness.StoppedParsed | DCFabric-Plus/inc/rapidjson/reader.h:485-516 | They then stop behind that value, having sent its events. |
| Soundness.MisspeltInfinity | DCFabric-Plus/inc/rapidjson/reader.h:1186-1204 | Where NaN and Infinity are allowed, `NaInf` is accepted, although the documentation of the flag has no such name. |
| Soundness.EventsOfTheTree | DCFabric-Plus/inc/rapidjson/reader.h:485-516 | The events are those of the text's derivation tree, each End event with the number of direct children, and every string and number with the value that the grammar gives it. |
| Soundness.DocumentUnique | DCFabric-Plus/inc/rapidjson/reader.h:485-516 | A text has at most one derivation: white space and tree are determined. |
| Soundness.DocumentRecovered | DCFabric-Plus/inc/rapidjson/reader.h:485-516 | A successful parse yields a derivation of the text that was consumed, under every flag but the stop flag. |
| Soundness.TreeRecovered | DCFabric-Plus/inc/rapidjson/reader.h:1392-1405 | A value that `ParseValue` accepts is a tree of the grammar, at that place, with those events, and nothing that follows would prolong it. |
| Soundness.TreeUnique | DCFabric-Plus/inc/rapidjson/reader.h:1392-1405 | Two trees whose texts stand at one place, and which what follows does not prolong, are equal. |
| Completeness.DocumentParsed | DCFabric-Plus/inc/rapidjson/reader.h:485-516 | Under every flag set, a text of the grammar is parsed to the events of its tree and to the end (or to the end of the value with the stop flag). |
| Completeness.TreeParsed | DCFabric-Plus/inc/rapidjson/reader.h:1392-1405 | `ParseValue` reads the text of any tree that what follows does not prolong to its end and sends its events. |
| Numerals.NumeralRead | DCFabric-Plus/inc/rapidjson/reader.h:1133-1390 | Any number of section 6 of RFC 8259 within range, and any of the names for NaN and Infinity where the flag allows them, is read whole unless what follows prolongs it; its event is decided by its value: the exact integer whenever 64 bits hold it, else a double. |
| Numerals.NumeralRecovered | DCFabric-Plus/inc/rapidjson/reader.h:1133-1390 | Whatever `ParseNumber` accepts is a number of the grammar that is not prolonged, with exactly that event. |
| Numerals.SpecialNames | DCFabric-Plus/inc/rapidjson/reader.h:1186-1204 | The names that are accepted are exactly NaN, Inf and Infinity as documented, and NInf, NInfinity, NaInf and NaInfinity besides. |
| Numerals.ValueIs | DCFabric-Plus/inc/rapidjson/reader.h:1146-1238 | The accumulated value of a literal is the sum of its digits times their powers of ten. |
| Leaves.SkipsBlank | DCFabric-Plus/inc/rapidjson/reader.h:560-586 | White space (the four bytes of section 2 of RFC 8259) and, where the flag allows them, comments are skipped whole. |
| Leaves.BlankSkipped | DCFabric-Plus/inc/rapidjson/reader.h:560-586 | Whatever is skipped is white space and comments of the grammar, at the end of the text a last line of comment too, and nothing of the kind follows. |
| Leaves.CommentRead | DCFabric-Plus/inc/rapidjson/reader.h:560-586 | A block comment ends at the first mark that closes it, a line comment behind the line feed. |
| Leaves.HexDigits | DCFabric-Plus/inc/rapidjson/reader.h:755-774 | A byte has the value of its place in the table 0 to 9, a to f, or in that with upper-case letters, both spelled as bytes, and any other byte has none. |
| Leaves.EscapeTable | DCFabric-Plus/inc/rapidjson/reader.h:840-865 | The escape table is that of section 7 of RFC 8259: eight letters and no others. |
| Leaves.ItemsRead | DCFabric-Plus/inc/rapidjson/reader.h:840-905 | The pieces of a string (raw bytes, escapes, code points, surrogate pairs) are decoded to the bytes they stand for. |
| Leaves.ItemsRecovered | DCFabric-Plus/inc/rapidjson/reader.h:840-905 | A string that is accepted is a sequence of pieces of the grammar, and its value is theirs. |
| Leaves.ItemsUnique | DCFabric-Plus/inc/rapidjson/reader.h:840-905 | A string is cut into pieces in one way only. |
| Errors.FailureTells | DCFabric-Plus/inc/rapidjson/reader.h:485-516 | Whenever a parse fails, the code and the offset say what of the text could not be read behind the events sent so far, in the terms of the grammar: for every error code, and with either parser. |
| Errors.BadPieceTells | DCFabric-Plus/inc/rapidjson/reader.h:840-905 | A string cannot go on at a place exactly if no piece of the grammar and no quotation mark stands there, and the code says what stands there instead. |
| Errors.StringFails | DCFabric-Plus/inc/rapidjson/reader.h:840-905 | The offset of an error in a string stands behind pieces of the grammar, at the first place where there is none. |
| Errors.NumberFails | DCFabric-Plus/inc/rapidjson/reader.h:1133-1390 | The code and the offset of an error in a number say which part of it is missing or too big. |
| Lexer.StringFrom | DCFabric-Plus/inc/rapidjson/reader.h:840-905 | Decoding a string ends behind its closing quotation mark, within the text, and takes at least as many bytes as it gives, whatever the mix of escapes, pairs and raw bytes. |
| Lexer.UnicodeEscape | DCFabric-Plus/inc/rapidjson/reader.h:867-882 | A `\u` escape takes 6 or 12 bytes and gives at least one byte, and fewer than it takes. |
| ReaderObject.Reader.SkipWhitespaceAndComments | DCFabric-Plus/inc/rapidjson/reader.h:560-586 | The nested loops stop where the specification of white space and comments says, or set its error. |
| ReaderObject.Reader.ParseHex4 | DCFabric-Plus/inc/rapidjson/reader.h:755-774 | Four hexadecimal digits accumulate to their value below 2^16, or the error is set at the escape. |
| ReaderObject.Reader.ParseUnicode | DCFabric-Plus/inc/rapidjson/reader.h:867-882 | A `\u` escape, with its second half when it opens a pair, decodes as specified, with the same error offsets. |
| ReaderObject.Reader.ValidateInto | DCFabric-Plus/inc/rapidjson/encodings.h:179-202 | `Validate` accepts exactly a UTF-8 sequence and copies it byte for byte, to the buffer or to the stack; it takes all the bytes that the lead byte announces, and so goes behind the NUL of the text exactly when those are more than there are. |
| ReaderObject.Reader.ParseStringToStream | DCFabric-Plus/inc/rapidjson/reader.h:840-905 | With reader and writer in one buffer that ends with the NUL of the text, or with the stack as target, the decoded string and its NUL are those of the specification, with the same error; the write cursor stays behind the read cursor and nothing in front of the string changes. Two more bytes are asked for only where the specification fails on a sequence that leads behind the NUL. |
| ReaderObject.Reader.ParseString | DCFabric-Plus/inc/rapidjson/reader.h:808-836 | The event and the error do not depend on in-situ decoding; in situ, every text sent so far still stands in the buffer (strings and names with their NUL, raw numbers without), and the stack is left as it was. |
| ReaderObject.Reader.Accumulate | DCFabric-Plus/inc/rapidjson/reader.h:1159-1229 | The accumulating loops keep the value of the digits read and stay within the limit of their integer width; they stop early exactly when the next digit would exceed it. |
| ReaderObject.Reader.ParseInteger | DCFabric-Plus/inc/rapidjson/reader.h:1146-1238 | An integer part of any length gives its exact value when 64 bits hold it (with its sign), the right choice between 32 and 64 bits, and the double path exactly otherwise. |
| ReaderObject.Reader.ParseNumber | DCFabric-Plus/inc/rapidjson/reader.h:1133-1390 | The event, the error and the position are those of the specification; in situ, a raw number is sent out of the buffer and stays there. |
| ReaderObject.Reader.ParseObject | DCFabric-Plus/inc/rapidjson/reader.h:589-654 | The method leaves the state of the specification, restores the stack, and never writes in front of the object. |
| ReaderObject.Reader.ParseArray | DCFabric-Plus/inc/rapidjson/reader.h:657-702 | The method leaves the state of the specification, restores the stack, and never writes in front of the array. |
| ReaderObject.Reader.ParseValue | DCFabric-Plus/inc/rapidjson/reader.h:1392-1405 | Dispatch on the first byte, with the state of the specification. |
| ReaderObject.Reader.Transit | DCFabric-Plus/inc/rapidjson/reader.h:1649-1794 | On the untyped stack of cells, one transition is that of the specification; its assertions hold and no pop finds another kind of cell. |
| ReaderObject.Reader.HandleError | DCFabric-Plus/inc/rapidjson/reader.h:1801-1819 | For every mode in which the machine can stop, the specified code at the current offset, and only if no error has been set before. |
| ReaderObject.Reader.IterativeParse | DCFabric-Plus/inc/rapidjson/reader.h:1822-1854 | The loop ends, with the state that the specification of the machine gives, and clears the stack. |
| ReaderObject.Reader.Parse | DCFabric-Plus/inc/rapidjson/reader.h:485-516 | Both parsers over one buffer that holds the text and its NUL refine their specifications, in situ or not; after an in-situ success the buffer holds every text that was sent. The source touches a byte behind the NUL if and only if `Overruns` holds of the text, and only then is a longer buffer asked for. |
| Overrun.OverrunsExactly | DCFabric-Plus/inc/rapidjson/encodings.h:179-202 | With either parser, some string that the parse comes to has a piece whose lead byte announces more bytes than the text and its NUL have, if and only if the parse fails on that piece. |
| Overrun.OverrunsAtEnd | DCFabric-Plus/inc/rapidjson/encodings.h:179-202 | Only a text whose last byte is a lead byte of three or four, or whose last but one is a lead byte of four, can lead `Validate` behind the NUL. |
| Overrun.Utf8Stays | DCFabric-Plus/inc/rapidjson/encodings.h:179-202 | No text in UTF-8 leads `Validate` behind the NUL, whether or not it is JSON. |
| Overrun.OverrunExample | DCFabric-Plus/inc/rapidjson/reader.h:897-903 | A quotation mark followed by `0xE0` at the end of the text does. |
| Utf8.AllValidIsUtf8Octets | DCFabric-Plus/inc/rapidjson/encodings.h:179-202 | Repeated `Validate` accepts exactly UTF8-octets of section 4 of RFC 3629, over streams of any length. |
| Utf8.ValidIsUtf8Char | DCFabric-Plus/inc/rapidjson/encodings.h:179-202 | One call accepts exactly one UTF8-char, of the length that its first byte says. |
| Utf8.DecodeEncodeAll | DCFabric-Plus/inc/rapidjson/encodings.h:102-177 | Decoding a concatenation of encodings of scalar values gives those values back. |
| Utf8.EncodeDecodeAll | DCFabric-Plus/inc/rapidjson/encodings.h:102-202 | `Decode` succeeds on exactly the streams that `Validate` accepts, and encoding what it gives restores the stream. |
| Utf8.DecodeEncode | DCFabric-Plus/inc/rapidjson/encodings.h:102-177 | The encoding of a scalar value decodes to it whatever follows. |
| Utf8.FieldsEncode | DCFabric-Plus/inc/rapidjson/encodings.h:102-121 | An encoding is a UTF8-char whose free bits, six for each byte behind the first, are those of the scalar value. |
| Utf8.PrefixFree | DCFabric-Plus/inc/rapidjson/encodings.h:102-121 | No encoding of a scalar value begins another one. |
| AutoUtf.DetectWritten | DCFabric-Plus/inc/rapidjson/encodedstream.h:171-217 | A text written with a mark is detected as written if and only if it is not UTF-16LE beginning with U+0000. |
| AutoUtf.WriteThenRead | DCFabric-Plus/inc/rapidjson/encodedstream.h:145-278 | For each of the five encodings, what was written with a mark is detected and read back as the same code points, outside that one case. |
| AutoUtf.MarkedNulMisread | DCFabric-Plus/inc/rapidjson/encodedstream.h:171-217 | The excluded text is taken for UTF-32LE. |
| AutoUtf.UnmarkedRead | DCFabric-Plus/inc/rapidjson/encodedstream.h:171-217 | Without a mark, and whatever the default: a text whose first four (UTF-8), two (UTF-16) or one (UTF-32) code points are ASCII but not NUL is detected in each of the five encodings, and read back. |
| AutoUtf.DefaultKept | DCFabric-Plus/inc/rapidjson/encodedstream.h:171-217 | The caller's default is kept if and only if there are fewer than four bytes, or no mark and another pattern of NULs among the first four than the five that tell. |
| AutoUtf.Utf16Units | DCFabric-Plus/inc/rapidjson/encodings.h:276-322 | A scalar value is one unit, or a high and a low surrogate with ten of its bits each. |
| AutoUtf.DecodeCharBytes | DCFabric-Plus/inc/rapidjson/encodings.h:276-322 | In every encoding the bytes of one scalar value are decoded to it, surrogate pairs included. |
| AutoUtf.DecodeExactly | DCFabric-Plus/inc/rapidjson/encodings.h:276-322 | In every encoding, one call gives a code point exactly if the bytes of that scalar value stand there, or those of a surrogate in UTF-32; whatever else stands there fails. |
| AutoUtfStreams.AutoUTFInputStream.constructor | DCFabric-Plus/inc/rapidjson/encodedstream.h:145-151 | Over a file stream the encoding is the one of the mark, or of the pattern of NULs, as specified if the buffer has at least five bytes; with the minimal buffer of four nothing is detected. |
| AutoUtfStreams.AutoUTFInputStream.Take | DCFabric-Plus/inc/rapidjson/encodedstream.h:156-158 | One code unit ahead, the stream gives the units of the file one by one, and zeros behind its end. |
| AutoUtfStreams.AutoUTFInputStream.Decode | DCFabric-Plus/inc/rapidjson/encodings.h:615-651 | One call takes the units of one code point and gives success and value as specified, for every encoding and for ill-formed input. |
| AutoUtfStreams.AutoUTFOutputStream.Encode | DCFabric-Plus/inc/rapidjson/encodings.h:615-651 | One call appends the bytes of one code point. |
| AutoUtfStreams.WriteAndRead | DCFabric-Plus/inc/rapidjson/encodedstream.h:145-278 | Writing a text with a mark through file streams and reading as many code points back detects the encoding and returns the text, for any but the smallest reading buffer; through that one nothing is detected, and with the right default the text comes back behind its mark. |
| FileStreams.FileReadStream.Take | DCFabric-Plus/inc/rapidjson/filereadstream.h:44-81 | The stream is the bytes of the file followed by endless zeros, and `Tell` is the true position, for any legal buffer. |
| FileStreams.FileReadStream.Peek4 | DCFabric-Plus/inc/rapidjson/filereadstream.h:61-63 | Four bytes are the next four of the file; at the beginning there are none exactly if the file is shorter or the buffer has the minimal size. |
| FileStreams.FileReadStream.TakeAll | DCFabric-Plus/inc/rapidjson/filereadstream.h:44-81 | Any number of calls gives the file and then zeros. |
| FileStreams.FileWriteStream.PutN | DCFabric-Plus/inc/rapidjson/filewritestream.h:47-64 | It ends for any non-empty buffer, and leaves file and buffer exactly as `n` calls of `Put`. |
| FileStreams.FileWriteStream.Put | DCFabric-Plus/inc/rapidjson/filewritestream.h:40-45 | One byte is appended, the buffer flushed first when it is full. |
| FileStreams.NothingLost | DCFabric-Plus/inc/rapidjson/filewritestream.h:40-72 | Flushed bytes and buffer together are everything that was put. |
| FileStreams.FillFlush | DCFabric-Plus/inc/rapidjson/filewritestream.h:47-64 | Filling the buffer, flushing it and going on equals single calls. |
| Values.ConstructorsAgree | DCFabric-Plus/inc/rapidjson/document.h:634-670 | The type flags and bits of an integer depend on its value only, not on which of the four constructors built it. |
| Values.CanonicalEvent | DCFabric-Plus/inc/rapidjson/document.h:1795-1804 | `Accept` sends an integer with its exact value, as the first of int, unsigned, int64 and uint64 that holds it. |
| Building.AcceptBuilds | DCFabric-Plus/inc/rapidjson/document.h:1768-1805 | Feeding a value's own events to a document pushes exactly that value, any-typed numbers having become the double zero. |
| Building.DeepCopyIdentical | DCFabric-Plus/inc/rapidjson/document.h:2408-2431 | A deep copy is identical if and only if no number inside a container carries `kNumberAnyFlag`. |
| Documents.StackStandsForEvents | DCFabric-Plus/inc/rapidjson/document.h:2333-2373 | At every moment of a well-formed event sequence no pop takes what is not there, and the stack of values stands for exactly the events so far. |
| Documents.BalancedBuildsOne | DCFabric-Plus/inc/rapidjson/document.h:2155-2165 | Any balanced sequence of one value ends with exactly one cell, whose value gives the sequence back. |
| Documents.AcceptBalanced | DCFabric-Plus/inc/rapidjson/document.h:1768-1805 | The events of a value are balanced and count its children right. |
| Documents.VisitDelivers | DCFabric-Plus/inc/rapidjson/document.h:1768-1805 | With a handler that may refuse, `Accept` sends the events in order up to the first refusal and no further. |
| Documents.GenericDocument.EndObject | DCFabric-Plus/inc/rapidjson/document.h:2361-2365 | Pops pairs of name and value into the object below them. |
| Documents.GenericDocument.Populate | DCFabric-Plus/inc/rapidjson/document.h:2135-2142 | Exactly one value is left on the stack when the generator succeeds, and it becomes the root; otherwise the root stays. |
| Documents.GenericDocument.ParseStream | DCFabric-Plus/inc/rapidjson/document.h:2155-2165 | With the reader in front, a successful parse leaves the value of the events sent, a failed one the old value; both parsers, in situ or not. |
| Equality.EqualIsMeaning | DCFabric-Plus/inc/rapidjson/document.h:852-891 | A value without duplicate names or doubles equals another without doubles if and only if that one has no duplicates either and denotes the same tree of unordered maps. |
| Equality.Pigeonhole | DCFabric-Plus/inc/rapidjson/document.h:858-866 | Lookup in one direction and the size check suffice: the names are the same, and distinct on the right too. |
| Equality.Equivalence | DCFabric-Plus/inc/rapidjson/document.h:852-891 | On such values equality is reflexive, symmetric and transitive. |
| Equality.OrderIgnored | DCFabric-Plus/inc/rapidjson/document.h:858-866 | Objects whose members are permuted are equal. |
| Equality.IntegersEqual | DCFabric-Plus/inc/rapidjson/document.h:886 | Integers are equal if and only if they are the same or 2^64 apart. |
| Equality.TransitiveExactly | DCFabric-Plus/inc/rapidjson/document.h:881-886 | Among numbers none of which is NaN, transitivity fails exactly when a double stands between two integers that it cannot tell apart, or two integers of one bit pattern have different values as doubles. |
| Equality.MinusOneEqualsMax | DCFabric-Plus/inc/rapidjson/document.h:886 | -1 equals 2^64 - 1. |
| Equality.DuplicatesAsymmetric | DCFabric-Plus/inc/rapidjson/document.h:858-866 | With duplicate names the operator is not symmetric, and it can be true although the documentation says never. |
| Equality.DuplicatesEqualSomething | DCFabric-Plus/inc/rapidjson/document.h:845-866 | An object whose member values have no duplicates inside and no doubles equals some value without doubles if and only if its members of one name always equal each other; the documented promise for duplicates fails exactly there. |
| Equality.SymmetricExactly | DCFabric-Plus/inc/rapidjson/document.h:852-866 | For such an object on the left the operator is symmetric, for every value without doubles on the right, if and only if its names are distinct or two members of one name are unequal. |
| Containers.FewMoves | DCFabric-Plus/inc/rapidjson/document.h:1541-1547 | n calls of `PushBack` on an empty array move fewer than 3n elements under the 16-then-1.5 growth rule. |
| Containers.PushBacks | DCFabric-Plus/inc/rapidjson/document.h:1522-1547 | Any run of `PushBack` keeps exactly the pushed elements, with fewer than 3n moves. |
| Containers.Vector.PushBack | DCFabric-Plus/inc/rapidjson/document.h:1541-1547 | One element is appended; the storage stays if there is room, and otherwise grows to 16 elements, or by half rounded up. |
| Containers.Vector.PopBack | DCFabric-Plus/inc/rapidjson/document.h:1596-1601 | Removes the last element and keeps the others. |
| Containers.Vector.Reserve | DCFabric-Plus/inc/rapidjson/document.h:1522-1529 | Grows to exactly the asked capacity, keeps the elements, never shrinks. |
| Containers.Vector.Erase | DCFabric-Plus/inc/rapidjson/document.h:1622-1635 | The overlapping move leaves the other elements in their order. |
| Containers.Vector.RemoveAt | DCFabric-Plus/inc/rapidjson/document.h:1380-1393 | The last member moves to the removed place. |
| Containers.FindMember | DCFabric-Plus/inc/rapidjson/document.h:1153-1161 | The first member with the name, or the end. |
| Containers.RemoveMember | DCFabric-Plus/inc/rapidjson/document.h:1362-1370 | By name: whether it existed, and the members that are left. |
| Containers.EraseMember | DCFabric-Plus/inc/rapidjson/document.h:1417-1456 | By name: whether it existed, and the others in their order. |
| Containers.SameRest | DCFabric-Plus/inc/rapidjson/document.h:1380-1393 | `RemoveMember` keeps the same members apart from the removed one. |
| Containers.RemovalsAgree | DCFabric-Plus/inc/rapidjson/document.h:1380-1431 | With distinct names both removals leave every other name its member. |
| Printing.PrettyWriter.PrettyPrefix | DCFabric-Plus/inc/rapidjson/prettywriter.h:184-226 | Comma, colon, line break and indentation for the place that the value takes, and the assertions hold where the specification allows the value. |
| Printing.PrettyWriter.Start | DCFabric-Plus/inc/rapidjson/prettywriter.h:111-141 | A prefix, a bracket and a new level. |
| Printing.PrettyWriter.End | DCFabric-Plus/inc/rapidjson/prettywriter.h:119-159 | A level popped, a line break unless it was empty or in a single line, and the bracket. |
| Printing.PrettyWriter.WriteString | DCFabric-Plus/inc/rapidjson/writer.h:351-423 | Every byte of a string escaped by the table, between quotation marks. |
| RoundTrip.StringWritten | DCFabric-Plus/inc/rapidjson/writer.h:351-423 | A written string is a string of the grammar that stands for the original bytes. |
| RoundTrip.ShortestWritten | DCFabric-Plus/inc/rapidjson/writer.h:351-423 | No piece of the grammar says a byte in fewer bytes than the writer's; it escapes what has to be escaped, by a letter if there is one. |
| RoundTrip.UpperDigit | DCFabric-Plus/inc/rapidjson/writer.h:352 | The writer's hexadecimal digits are the upper-case ones. |
| RoundTrip.RawNumberWritten | DCFabric-Plus/inc/rapidjson/prettywriter.h:93-97 | A raw number is written as the string that a document makes of it. |
| RoundTrip.PrintedIsSyntax | DCFabric-Plus/inc/rapidjson/prettywriter.h:111-231 | Printing runs into no assertion, closes every level, and puts the text of one syntax tree: brackets, commas, colons and indentation in any style. |
| RoundTrip.SyntaxEvents | DCFabric-Plus/inc/rapidjson/prettywriter.h:111-231 | That tree is one of the grammar, and its events are those of the value. |
| RoundTrip.PrintThenParse | DCFabric-Plus/inc/rapidjson/prettywriter.h:111-231 | In any style, both parsers read the printed text of a tree to events that build exactly that tree, doubles included where their literals are numbers of the grammar with a fraction, an exponent or a special name, in range for the reader. |
| RoundTrip.PrintAndParse | DCFabric-Plus/inc/rapidjson/document.h:1768-1805 | The whole way through writer, buffer, reader and document, in situ or not and with either parser, ends with the value that was printed. |
| RoundTrip.AcceptInjective | DCFabric-Plus/inc/rapidjson/document.h:1768-1805 | Values with the same events are the same. |
| Writing.WellFormedWritten | DCFabric-Plus/inc/rapidjson/prettywriter.h:111-231 | Every well-formed sequence of events, finished or not, is written without a failing assertion. |
| Writing.CaughtExactly | DCFabric-Plus/inc/rapidjson/prettywriter.h:111-231 | The first event that is out of place runs into an assertion exactly if it is not a string for a name, a name for a value, a wrong count, or the end of an object whose last name has no value. |
| Writing.NameWithoutValue | DCFabric-Plus/inc/rapidjson/prettywriter.h:119-133 | An object whose only member has a name but no value is written. |
| Pointers.StringifyParse | DCFabric-Plus/inc/rapidjson/pointer.h:802-972 | Parsing either printed form of a pointer gives its tokens back. |
| PointerGrammar.PointerExactly | DCFabric-Plus/inc/rapidjson/pointer.h:802-935 | The parser accepts exactly the texts of the two surface forms: the grammar of section 3 of RFC 6901, or a fragment of it with percent-encoded UTF-8 characters and this parser's set of bytes that need no encoding. |
| PointerGrammar.PointerParsed | DCFabric-Plus/inc/rapidjson/pointer.h:802-935 | The tokens are the names that the text spells, with their escapes and encodings undone. |
| PointerGrammar.IndexIs | DCFabric-Plus/inc/rapidjson/pointer.h:897-918 | For every name: it is an index if it is spelled as section 4 of RFC 6901 asks, digits without a leading zero, and then stands for its value modulo 2^32, unless the overflow check catches a digit; any other name has the invalid index. |
| PointerGrammar.PointerTells | DCFabric-Plus/inc/rapidjson/pointer.h:802-935 | When it refuses, the code and the offset say which name cannot be read, and what stands there. |
| PointerGrammar.PercentCharIs | DCFabric-Plus/inc/rapidjson/pointer.h:845-858 | Percent-decoding gives a character exactly if the triplets spell that character in UTF-8. |
| PointerGrammar.StringifyIs | DCFabric-Plus/inc/rapidjson/pointer.h:941-972 | What is printed: a solidus and the escaped name for every token, in a fragment with every byte percent-encoded but letters, digits and the marks that need no encoding. |
| Pointers.ParseStringifyParse | DCFabric-Plus/inc/rapidjson/pointer.h:802-972 | Printing any parsed pointer and parsing it again gives an equal pointer. |
| Pointers.Printable | DCFabric-Plus/inc/rapidjson/pointer.h:941-972 | The plain form prints every pointer, the URI fragment exactly those whose names are UTF-8. |
| Pointers.FragmentsPrint | DCFabric-Plus/inc/rapidjson/pointer.h:802-972 | Whatever was parsed from a fragment can be printed as a fragment. |
| Pointers.ReachBound | DCFabric-Plus/inc/rapidjson/pointer.h:941-972 | The printing of a fragment reads exactly to the end of the names when it succeeds, and at most two bytes further when it fails. |
| Pointers.ReachExample | DCFabric-Plus/inc/rapidjson/pointer.h:941-972 | The name `0xF0`, parsed from the plain form, makes it read those two bytes. |
| Pointers.IndexExactly | DCFabric-Plus/inc/rapidjson/pointer.h:897-918 | For every name of digits, of any length: the overflow check gives the invalid index if and only if some prefix is smaller modulo 2^32 than the prefix one digit shorter, and otherwise the value modulo 2^32 is taken for the index. |
| Pointers.IndexIsValue | DCFabric-Plus/inc/rapidjson/pointer.h:897-918 | The index of a name of digits is its decimal value if and only if that fits 32 bits. |
| Pointers.IndexOverflow | DCFabric-Plus/inc/rapidjson/pointer.h:904-918 | When the last digit is the first to overflow, the check catches it exactly if the wrapped value is smaller than the value without that digit. |
| Pointers.MissedOverflow | DCFabric-Plus/inc/rapidjson/pointer.h:904-918 | `10000000000` is taken for index 1410065408. |
| PointerObject.GenericPointer.Parse | DCFabric-Plus/inc/rapidjson/pointer.h:802-935 | The method fills exactly `tokenCount_` tokens, as many as separators, whose names stand NUL-terminated in a buffer as long as the source, or sets the specified error and offset. |
| PointerObject.DecodePercent | DCFabric-Plus/inc/rapidjson/pointer.h:845-858 | `Validate` over a stream of triplets accepts exactly a percent-encoded UTF-8 character and writes its bytes. |
| PointerObject.TokenCount | DCFabric-Plus/inc/rapidjson/pointer.h:812-816 | There are as many tokens as separators. |
| PointerObject.ToIndex | DCFabric-Plus/inc/rapidjson/pointer.h:897-918 | The conversion loop with its overflow check computes the specified index. |
| PointerObject.GenericPointer.CopyFromRaw | DCFabric-Plus/inc/rapidjson/pointer.h:755-785 | The copied tokens name the same bytes in the new buffer, and the free part begins behind them. |
| PointerObject.GenericPointer.Append | DCFabric-Plus/inc/rapidjson/pointer.h:211-220 | A copy with one more token. |
| PointerObject.GenericPointer.Stringify | DCFabric-Plus/inc/rapidjson/pointer.h:941-972 | From the name buffer, both forms are printed as specified or refused; the source reads behind the names if and only if the sequence at which a fragment fails leads there. |
| PointerObject.EncodePercent | DCFabric-Plus/inc/rapidjson/pointer.h:959-965 | `Validate` from the buffer to a percent-encoding stream accepts exactly a UTF-8 sequence of the name and writes its triplets, whatever stands behind the name. |
| PointerObject.GenericPointer.Equals | DCFabric-Plus/inc/rapidjson/pointer.h:334-348 | Equal exactly if both are valid and their tokens are the same. |
| PointerTree.CreateReportsGet | DCFabric-Plus/inc/rapidjson/pointer.h:401-447 | `Create` reports an existing value exactly when `Get` had resolved, to the same node, and then leaves the tree as it was. |
| PointerTree.GetExactly | DCFabric-Plus/inc/rapidjson/pointer.h:479-512 | `Get` gives exactly the path on which every token means the next child: the first member of its name, or the element of its index. |
| PointerTree.UnresolvedExactly | DCFabric-Plus/inc/rapidjson/pointer.h:479-512 | The reported token is the first one that does not resolve: the tokens in front of it do, and with it they do not. |
| PointerTree.CreatedAlong | DCFabric-Plus/inc/rapidjson/pointer.h:401-447 | At every node of the created path, whatever the tree: a value that is no container becomes an array of exactly index + 1 nulls for a valid index, and otherwise an object with one member of that name; an array keeps its elements and is filled with nulls up to the index, or by one for `-`; an object keeps its members and gets at most one more. |
| PointerTree.GetAfterCreate | DCFabric-Plus/inc/rapidjson/pointer.h:401-507 | After `Create`, `Get` reaches the created node if and only if no `-` met an array; otherwise it reaches nothing. |
| PointerTree.CreatedIsNull | DCFabric-Plus/inc/rapidjson/pointer.h:401-447 | A node that was not there before is created null. |
| PointerTree.GetAfterSet | DCFabric-Plus/inc/rapidjson/pointer.h:610-617 | After `Set` the node holds the value, and `Get` reaches it unless a `-` met an array. |
| PointerTree.CreateKeepsOthers | DCFabric-Plus/inc/rapidjson/pointer.h:401-447 | Any pointer that resolved still resolves to the same place, unless an array on its way was turned into an object: then it resolves no more; nodes apart from the created one keep their values. |
| PointerTree.SetKeepsOthers | DCFabric-Plus/inc/rapidjson/pointer.h:610-617 | `Set` keeps every value apart from the node that it sets. |
| PointerTree.EraseSucceeds | DCFabric-Plus/inc/rapidjson/pointer.h:711-749 | `Erase` succeeds exactly on pointers that resolve, the root excepted, and otherwise changes nothing. |
| PointerTree.EraseExactly | DCFabric-Plus/inc/rapidjson/pointer.h:711-749 | It takes exactly the node out of its parent that `Get` resolves to; the other children stay in their order, and nothing apart from the parent changes. |
| PointerTree.EraseUndoesCreate | DCFabric-Plus/inc/rapidjson/pointer.h:401-749 | Under an existing parent, erasing what was created restores the tree if and only if the parent was an object or an array that grew by one. |
| Allocation.MemoryPoolAllocator.Malloc | DCFabric-Plus/inc/rapidjson/allocators.h:176-187 | A new aligned block inside its chunk, disjoint from every live block, none of which changes: behind the others in the head chunk if there is room, else at the beginning of a new chunk of the usual capacity, or of its own size if that is more. |
| Allocation.MemoryPoolAllocator.Realloc | DCFabric-Plus/inc/rapidjson/allocators.h:190-219 | The old contents are kept in place or elsewhere, other live blocks do not change, blocks stay aligned and disjoint, and size 0 gives no pointer; a block that does not grow stays as it is, the last one grows in place if there is room, and any other is served anew. |
| Allocation.MemoryPoolAllocator.Size | DCFabric-Plus/inc/rapidjson/allocators.h:168-173 | The bytes in use, never more than the capacity. |
| Allocation.MemoryPoolAllocator.Capacity | DCFabric-Plus/inc/rapidjson/allocators.h:158-163 | The capacities of all chunks together. |
| Allocation.MemoryPoolAllocator.Clear | DCFabric-Plus/inc/rapidjson/allocators.h:145-153 | Frees every chunk but the user's buffer, which becomes empty. |
| Allocation.SizeWithinCapacity | DCFabric-Plus/inc/rapidjson/allocators.h:158-173 | Chunk by chunk, size stays within capacity. |
| Allocation.ServedSize | DCFabric-Plus/inc/rapidjson/allocators.h:176-187 | An allocation adds exactly its aligned size to the bytes in use. |
| Allocation.ResizedSize | DCFabric-Plus/inc/rapidjson/allocators.h:190-219 | A reallocation adds nothing, the difference, or the whole new size, as the block stays, grows in place or moves. |
| Sensor.WindowIsLatest | DCFabric-measurement/measurement.c:20-49 | In every run the window is the latest 100 admitted samples, newest first, and a sample is admitted exactly when no alert was on at the start of its iteration. |
| Sensor.CancelsMatchEpisodes | DCFabric-measurement/measurement.c:172-209 | Each ended alert sends exactly one cancel, with the drops between its two readings, and the copy register is on exactly during alerts. |
| Sensor.PredictionBetween | DCFabric-measurement/measurement.c:52-79 | The prediction lies between any bounds of the window, component by component. |
| Sensor.PredictionMoves | DCFabric-measurement/measurement.c:52-79 | When the i-th newest of n samples changes, the prediction changes by (n - i) parts of n(n + 1)/2 of the difference, component by component: the newest weighs most. |
| Sensor.TotalWeight | DCFabric-measurement/measurement.c:59-64 | The weights n down to 1 add up to n(n + 1)/2. |
| Sensor.VarianceNonNegative | DCFabric-measurement/sensor_struct.c:121-143 | The root is never taken of a negative number. |
| Sensor.MeanBetween | DCFabric-measurement/sensor_struct.c:97-118 | The mean lies between any bounds of the window, component by component. |
| Sensor.SteadyVariance | DCFabric-measurement/sensor_struct.c:121-143 | A window of equal samples has that sample as its mean and no variance. |
| Sensor.DeviationIsStandard | DCFabric-measurement/sensor_struct.c:121-143 | With an exact root, each component of the deviation is the standard deviation of that component of the window, stated without division. |
| Sensor.AttackExactly | DCFabric-measurement/measurement.c:82-105 | The test for an attack is the three-sigma rule: the byte rate or the packet rate exceeds its prediction by more than three of its standard deviations, stated without a root. |
| Sensor.AlertExactly | DCFabric-measurement/measurement.c:171-211 | In every run, the alert is on after an iteration exactly when its sample breaks that rule for the latest 100 samples admitted before it. |
| Sensor.DataVectorMeans | DCFabric-measurement/sensor_struct.c:52-65 | Rates are the whole part of a tenth of the count that 64 bits hold, and ratios times their divisors give back what they divide; without a divisor they are the incoming count. |
| Sensor.SteadyNeverAlerts | DCFabric-measurement/measurement.c:82-209 | A run of equal samples never raises an alert. |
| Sensor.MovedExact | DCFabric-measurement/sensor_struct.c:26-36 | A counter difference is exact if and only if the counter has not wrapped, and one short after a wrap. |
| Sensor.CountedExact | DCFabric-measurement/sensor_struct.c:26-42 | Of the other three counters each is counted exactly unless it has wrapped, and is then one short. |
| Sensor.DropPacketsExact | DCFabric-measurement/measurement.c:113-120 | The number in a cancel message is exact if and only if the drop counter has not wrapped and the number fits 32 bits. |
| Sensor.OutBytesExact | DCFabric-measurement/sensor_struct.c:44-48 | The outgoing bytes are exact if the packet counter has not wrapped, whatever the byte counter did, since that is what the branch tests; otherwise they are one short. |
| SensorObject.DataSequence.InSequence | DCFabric-measurement/sensor_struct.c:67-85 | The shifting loop puts the sample in front of the others; a full sequence stays. |
| SensorObject.DataSequence.OutSequence | DCFabric-measurement/sensor_struct.c:87-94 | Drops the oldest sample. |
| SensorObject.DataSequence.UpdateSequence | DCFabric-measurement/measurement.c:20-40 | Admits the sample if asked to, dropping the oldest from a full window. |
| SensorObject.DataSequence.PredictValue | DCFabric-measurement/measurement.c:52-79 | The loops compute the weighted mean of the specification. |
| SensorObject.DataSequence.CalculateDeviation | DCFabric-measurement/sensor_struct.c:121-143 | The loops compute the deviation of the specification. |
| SensorObject.Monitor.Iterate | DCFabric-measurement/measurement.c:172-209 | One iteration of the loop is one step of the specification. |
| SensorObject.Run | DCFabric-measurement/measurement.c:152-212 | Any number of iterations leaves the state of the specification, its window, its cancels and its copy register. |

## Left out

- Numerals.NumeralRead: whether a literal too big for 64 bits raises `NumberTooBig` is left to two predicates, one over its sign and digits and one over the whole literal; the value of a double is its literal (`strtod` and floating-point rounding).
- Numerals.NumeralRecovered: the same two predicates decide the range of big literals.
- ReaderObject.Reader.ParseNumber: the same two predicates; the values of fraction and exponent are not computed.
- Printing.PrettyWriter.Leaf: an integer is written in decimal without leading zeros; the digit-pair tables of `itoa.h` that produce it are not modelled.
- RoundTrip.PrintThenParse: a double is its literal, so that the digits which the writer computes for it (`dtoa.h`) are taken to be a number of the grammar; raw numbers read as strings are written back in quotation marks.
- Printing.PrettyWriter.WriteString: the default write flags, which do not validate what is written.
- PointerTree.GetAfterCreate: `Create`, `Set` and `Erase` are functions from tree to tree; sharing of nodes and references into the tree are not modelled.
- Documents.VisitDelivers: the handler is a function of the events; strings are passed by value, without the copy flag.
- Equality.DuplicatesEqualSomething: member values with duplicates inside are not covered, as equality of such values is itself not symmetric.
- Equality.EqualIsMeaning: how a double compares is a parameter, on which nothing depends for values without doubles.
- Containers.Vector.PushBack: the value is copied in; that the source nulls the moved value is not modelled.
- Allocation.MemoryPoolAllocator.Realloc: chunks are aligned, allocation does not fail, and sizes do not overflow `size_t`.
- FileStreams.FileReadStream.Take: `fread` gives fewer bytes than asked for only at the end of the file.
- AutoUtfStreams.WriteAndRead: a text of at least one code point; what a wrong default gives through the smallest buffer is whatever `Decode` makes of the bytes.
- SensorObject.DataSequence.PredictValue: the floating-point sums are over reals.
- SensorObject.DataSequence.CalculateDeviation: the floating-point sums are over reals, and of the square root only its sign is assumed.
- SensorObject.DataSequence.UpdateSequence: the four rates that are stored beside the window and never read.
- SensorObject.Monitor.Iterate: readings and drop counters are inputs, the cancel message and the copy register outputs; floats are reals, and of the square root only its sign is assumed, in `Sensor.AlertExactly` that it is exact.
- Counts of members, elements and tokens are unbounded, where the source has 32 bits.
- The SSE2 and SSE4.2 variants of skipping and scanning, and 48-bit pointer tagging.
- Other encodings for the reader than UTF-8, ASCII, and the fixed-encoding stream wrappers.
- `Writer` without formatting, `RawValue`, `Swap`, iterators, move semantics and the overloads for C strings.
- Pointers made from user-supplied tokens, and appending to them.
- Hardware registers, sleeping, sockets and signals of the sensor, and the rest of the controller, whose headers only declare it.
