# Verified models of c-roblib

c-roblib is a C23 library of containers, allocators, string utilities and a JSON parser with a pretty printer.
This project models its hardest parts in Dafny and proves what they promise. `dafny verify dfyconfig.toml` checks
everything.

The imperative code keeps its shape: structs that functions update are classes with the same fields, buffers are
arrays, linked nodes are heap objects, loops are loops. Every such method is proved against a function of its
inputs or of the old state, and the theorems are about these functions.

**The JSON parser and printer** (`Json*.dfy`, `Utf8.dfy`, `Utf8Bits.dfy`). `JsonInput` and `JsonParser` are the
cursor, the look-behind buffer, the depth counter and the recursive descent. `JsonParserSpec` says what each parsing
step does to the text ahead of the cursor; the methods are proved to compute exactly that, on success and on every
error. `JsonGrammar` is RFC 8259, sections 2 to 7, as derivation trees that know nothing of the parser;
`JsonCompleteness`, `JsonSoundness` and `JsonLanguage` prove that the parser accepts exactly the texts of the grammar
within its limits, up to the first byte 0xFF, and returns the value that the tree denotes. `JsonFlaws` is the
counterpart for all other texts: derivation trees of where a text stops following the grammar, each form with its
error. `JsonErrors` and `JsonErrorSoundness` prove that the parser reports an error exactly if the text has a flaw with
it, and that every C string is either accepted or flawed, in one way only. `JsonScratch` is the scratch arena in which
strings are built; it sets one of the limits. `JsonPrinter` prints into a `StringBuilder`, `JsonPrinterSpec` gives its
text, and `JsonRoundTrip`, `JsonKeys` and `JsonPrintParse` prove which values survive printing and parsing: exactly the
printable ones within the limits. `JsonLayout` reads the layout off the printed text alone: where its lines break and
how far they are indented. `JsonLiterals` fixes the bytes, digits and constants that parser, printer and grammar have
in common as the characters and numbers of the source.

**The hash map and the string pool** (`HashKeys.dfy`, `HashMap.dfy`, `StringPool.dfy`). Bucket chains of heap nodes
refine a finite map through puts, removals, clears and in-place rehashes; a map with a string pool keeps the pool's
counts equal to the number of keys of every string.

**The byte containers** (`CharRingBuffer.dfy`, `StringBuilder.dfy`, `Utf8Index.dfy`, `StringSlice.dfy`) and **the
allocators** (`Arena.dfy`, `GrowingArena.dfy` with the builder in it, `GrowingBuilder.dfy`, and `ObjectPool.dfy`, with
`Memory.dfy` for words in memory, and `Bits.dfy` and `Collections.dfy` for the arithmetic on powers of two).

What the code decides, and the model follows:

- A byte 0xFF after the JSON value compares equal to EOF as a signed char, so it and everything after it are
  ignored (src/json_parser/json_parser.c:1957). `ParserReadsUpToEof` says exactly which texts are accepted,
  `ParserIsRfc8259` when these are the JSON texts, and `JunkIsAccepted` gives an input.
- A string is built in a scratch arena that grows by blocks (src/json_parser/json_parser.c:1539-1541). A buffer at the
  top of the arena is taken to grow in place wherever the additional bytes are (src/string/string_builder.c:107-111),
  and an allocation that does not fit goes to another block (src/memory/allocator.c:313-353). So a string with more
  bytes than a page less 129 is written beyond the block: `GrowInPlace` says when a buffer stays whole,
  `LongStringsOverrun` gives the limit and `OneLetterTooMany` an input. The model stops there with the error
  MemoryOverrun, about which nothing is promised. Where the arena stands elsewhere, the room is from there.
- After an allocation has gone to another block, its padding is still the one for the old offset, so that the pointer
  may not be aligned (src/memory/allocator.c:307-308, 361-363); `PivotAlignment` says when it is.
- After invalid UTF-8 in a string, the scratch arena is not released (src/json_parser/json_parser.c:1584); on every
  other way out it is, as `ParseText` states.
- `\u0000` is accepted and contributes nothing, because `sb_append_char` ignores NUL
  (src/string/string_builder.c:131); `StringKeepsAllUnlessNul` says exactly when a string is complete.
- Keys are printed without escaping and cut at 127 bytes (src/json_parser/json_pretty_printer.c:163, 169), against
  the printer's purpose; `RoundTripIffPrintable` gives the exact condition and `QuoteInKeyIsLost` an input. For the same
  reason `LinesAreIndented` asks that every raw key stays inside its quotes, as the keys of printable values do;
  `QuoteInKeyBreaksLayout` is an input for which it fails.
- Integers beyond the range of a long become doubles, and beyond the range of a double the long 0
  (src/json_parser/json_parser.c:1693-1717). At most 1024 bytes of a number are kept
  (src/json_parser/json_parser.c:1600-1604); a number of 1024 bytes and more fills its buffer without a terminator, and
  reading it back is a MemoryOverrun too.
- The multi-line printer indexes a table of 256 spacers with the nesting level times the indent
  (src/json_parser/json_pretty_printer.c:48, 188), so their product must stay below 256.
- The loop of `map_ensure_capacity` changes nothing that its test depends on (src/map/hashmap.c:240-243): it either
  ends at its first test or never. `GrowthLoopEndsOrHangs` says when, and every put ends.
- The marker of an arena scope lies above the offset that the end of the scope restores
  (src/memory/allocator.c:455-474). So the flag that should make a second end harmless is cleared by the next
  allocations; `EndTwice` says exactly when.
- A new arena subtracts the size of its headers twice (src/memory/allocator.c:377-386): `RoomCoversRequest` says
  when the room is still enough.
- A pool accepts objects that are smaller than the links in their slots (src/memory/allocator.c:491-525). It is a pool
  exactly if slots have eight bytes or more, or there is at most one; `TwoSmallObjects` shows what becomes of another
  one.
- A delimiter at the very end of a slice is not recognised, unless it is the whole slice
  (src/string/string_slice.c:368-370).

## Model

| member | source | states |
|---|---|---|
| JsonInput.Input.constructor | src/json_parser/json_parser.c:2139-2147 | a new source stands at the start of its text with an empty look-behind buffer |
| JsonInput.Input.CurrentChar | src/json_parser/json_parser.c:341-346 | the byte at the cursor, or the terminating NUL when the text is used up |
| JsonInput.Input.PeekNextChar | src/json_parser/json_parser.c:348-354 | the byte after the cursor, or EOF |
| JsonInput.Input.StartsWith | src/json_parser/json_parser.c:1971-1982 | true iff the bytes are a prefix of the text ahead |
| JsonInput.Input.Advance | src/json_parser/json_parser.c:364-397 | the cursor moves on by n, and the look-behind buffer again holds exactly the last min(40, index) bytes of the consumed prefix, after one-byte and multi-byte advances |
| JsonParser.ToArray | src/json_parser/json_parser.c:893-901 | filling an array from the last index down undoes the reversal of the linked list: document order |
| JsonParser.CharBuffer.Add | src/json_parser/json_parser.c:1600-1604 | the buffer holds the first 1024 bytes of what was added, and zeros from there on |
| JsonParser.JsonContext.SkipWhitespace | src/json_parser/json_parser.c:477-489 | the cursor stands at the first byte that is not whitespace; depth and look-behind invariant are kept |
| JsonParser.JsonContext.ParseHex | src/json_parser/json_parser.c:1041-1067 | reads exactly the wanted number of hex digits, or stops at the first byte that is none with the error for it |
| JsonParser.JsonContext.EncodeUtf8 | src/json_parser/json_parser.c:969-1039 | appends the RFC 3629 encoding of a scalar value (nothing for U+0000), or leaves the block of the scratch arena if there is no room for it; surrogates and numbers above U+10FFFF append nothing and report their own error |
| JsonParser.JsonContext.ReadCodePoint | src/json_parser/json_parser.c:1377-1469 | a `\u` escape gives a scalar value; lone low surrogates are errors |
| JsonBytes.PairCombines | src/json_parser/json_parser.c:1459-1461 | the two halves of the UTF-16 form of a scalar value beyond U+FFFF combine to that value |
| JsonLiterals.EscapedScalarIsRead | src/json_parser/json_parser.c:1377-1469 | a string that spells a scalar value other than U+0000 by its escapes, with digits of either case, is read as the UTF-8 bytes of that value |
| JsonLiterals.EmojiIsRead | src/json_parser/json_parser.c:1418-1461 | the escapes d83d and de00 are read as F0 9F 98 80 |
| JsonParser.JsonContext.ReadLowSurrogate | src/json_parser/json_parser.c:1418-1462 | a high surrogate must be followed by an escaped low surrogate, and the pair is combined |
| JsonParser.JsonContext.ParseEscape | src/json_parser/json_parser.c:1474-1533 | every escape appends exactly the bytes it stands for, or fails with the cursor at the offending byte |
| JsonParser.JsonContext.SecondByte | src/json_parser/json_parser.c:1137-1340 | which second bytes are valid after which lead byte, and the five different errors for the others |
| JsonParser.JsonContext.ContinuationByte | src/json_parser/json_parser.c:1081-1095 | a byte outside the given range is an error and is not consumed |
| JsonParser.JsonContext.Tails | src/json_parser/json_parser.c:1271-1280 | the continuation bytes from the third on, each checked before it is consumed |
| JsonParser.JsonContext.ReadUtf8 | src/json_parser/json_parser.c:1097-1374 | the bytes of one UTF-8 character, or the first error in it |
| JsonParser.JsonContext.ValidateUtf8 | src/json_parser/json_parser.c:1097-1374 | one UTF-8 character is copied unchanged to the builder, or rejected with its error |
| JsonParser.JsonContext.ParseString | src/json_parser/json_parser.c:1537-1592 | with its builder in the scratch arena the loop computes the string parser function: it stops exactly after the closing quote, reports the first error, or overruns its block, exactly if the decoded string has more bytes than there is room for; the arena is released unless the error is invalid UTF-8 |
| JsonParser.JsonContext.ParseChars | src/json_parser/json_parser.c:1549-1592 | the same for the loop and what follows it, from any contents of the builder on |
| JsonScratch.GetScratch | src/json_parser/json_parser.c:1539-1541 | wherever the arena stands, inside open scopes too, if a string can be built there: the marker and the empty builder follow, and the buffer is confined to its block |
| JsonScratch.AppendChar | src/string/string_builder.c:130-138 | a byte is appended to a string in the making exactly if there is a place in the block for it and a terminator, whatever the growth did |
| JsonScratch.ReleaseScratch | src/memory/allocator.c:282-284 | the scratch arena is back at the block and offset where it stood |
| JsonScratch.PagesAreOutgrown | src/string/string_builder.c:92-128 | with the usual page sizes, a string can be built in a new arena: the first capacity that leaves the usable part of the block leaves the block; the room is a page less 129 bytes |
| JsonScratch.RoomAfterInvalidString | src/json_parser/json_parser.c:1584 | where a short string with invalid UTF-8 leaves the arena, the next string has room for 72 bytes less |
| JsonScratch.CapacityBetweenEnds | src/string/string_builder.c:92-128 | an offset at which a capacity does fall between the two ends of the block |
| JsonParser.JsonContext.ParseChar | src/json_parser/json_parser.c:1570-1585 | one turn of the loop: an escape, a control character or a UTF-8 character |
| JsonParser.JsonContext.ScanIntegerPart | src/json_parser/json_parser.c:1620-1684 | sign, leading-zero rule and digits, with what was passed collected in the buffer |
| JsonParser.JsonContext.TakeDigits | src/json_parser/json_parser.c:1680-1683 | exactly the digits are passed and collected |
| JsonParser.JsonContext.ScanFraction | src/json_parser/json_parser.c:1730-1752 | a decimal point must be followed by a digit |
| JsonParser.JsonContext.ScanExponent | src/json_parser/json_parser.c:1754-1782 | an exponent mark, an optional sign and at least one digit |
| JsonParser.JsonContext.ParseNumber | src/json_parser/json_parser.c:1606-1807 | number recognition and integer conversion compute the number parser function |
| JsonParser.JsonContext.ReadToken | src/json_parser/json_parser.c:1693-1785 | what strtol and strtod find in the buffer is the number exactly if it has less than 1024 bytes; else there is no terminator |
| JsonParser.JsonContext.ParseLiteral | src/json_parser/json_parser.c:1813-1845 | the keyword is matched byte by byte; a wrong byte and the end of the text are different errors |
| JsonParser.JsonContext.ParseValue | src/json_parser/json_parser.c:1877-1923 | dispatch on the first byte; the mutual recursion terminates because the text ahead gets shorter; depth_current is restored on every return |
| JsonParserSpec.ParseValue | src/json_parser/json_parser.c:1877-1923 | a value that is parsed has consumed at least one byte; no outcome lies before the start |
| JsonParser.JsonContext.ParseArray | src/json_parser/json_parser.c:800-905 | the depth check, and depth_current back at its entry value on success and on every error |
| JsonParser.JsonContext.ParseElement | src/json_parser/json_parser.c:823-832 | unexpected text where an element should be is reported as a missing element |
| JsonParser.JsonContext.ParseComma | src/json_parser/json_parser.c:839-868 | elements and entries need a comma, and a comma must not be the last thing before the closing bracket; which error is which is fixed by JsonErrors.CommaFlawIsReported |
| JsonParser.JsonContext.ParseNextElement | src/json_parser/json_parser.c:839-889 | one turn of the loop: a comma and an element, or the first error in them |
| JsonParser.JsonContext.ParseElements | src/json_parser/json_parser.c:838-905 | the loop over `, element` keeps all elements in document order |
| JsonParser.JsonContext.ParseEntry | src/json_parser/json_parser.c:621-682 | key, colon, value, with a separate error for each missing part |
| JsonParser.JsonContext.ParseKey | src/json_parser/json_parser.c:621-664 | the key and everything up to its value |
| JsonParser.JsonContext.ParseColon | src/json_parser/json_parser.c:644-664 | a missing colon and a missing value are different errors |
| JsonParser.JsonContext.ParseObject | src/json_parser/json_parser.c:684-780 | as ParseArray, for objects |
| JsonParser.JsonContext.ParseNextEntry | src/json_parser/json_parser.c:719-759 | one turn of the loop: a comma and an entry, or the first error in them |
| JsonParser.JsonContext.ParseMembers | src/json_parser/json_parser.c:718-780 | the loop over `, entry` keeps all entries in document order |
| JsonParser.JsonContext.MaxDepthExceeded | src/json_parser/json_parser.c:578-586 | an error exactly when depth_current is above depth_max |
| JsonParser.JsonContext.RejectedDueToBom | src/json_parser/json_parser.c:1984-2016 | UTF-16 marks are rejected, a UTF-8 mark is skipped |
| JsonParser.JsonContext.ParseBody | src/json_parser/json_parser.c:1941-1962 | an empty text, an error of the value and text after the value are told apart |
| JsonParser.JsonContext.ParseImpl | src/json_parser/json_parser.c:1925-1963 | one value between whitespace, and nothing after it but the end of the text |
| JsonParser.ParseText | src/json_parser/json_parser.c:2139-2155 | jsonp_parse_string returns the value or the error of the parser function with the limits of the code: depth_max, the block of the scratch arena behind the place where it stands less 49 bytes and alignment for a string, 1024 bytes for a number; without an overrun, the scratch arena stands there again iff the error is not invalid UTF-8 |
| JsonParser.InvalidByteLeavesScratch | src/json_parser/json_parser.c:1584 | a quote and a byte 0xFF end in such an error |
| Utf8.Encode | src/json_parser/json_parser.c:969-1039 | the bytes are one UTF8-char of RFC 3629, without NUL unless the code point is 0 |
| Utf8Bits.EncoderAgrees | src/json_parser/json_parser.c:999-1030 | the shifts, masks and ORs of the encoder compute exactly the bytes of Utf8.Encode, for every scalar value |
| Utf8Bits.DecoderAgrees | src/json_parser/json_parser.c:937-966 | the masks, left shifts and ORs of the decoder compute exactly Utf8.Decode, for any bytes |
| Utf8Bits.IndexAgrees | src/string/string_utils_utf8.c:24-53 | the masks, the shift and the OR of the indexing loop are the arithmetic of Utf8Index |
| Utf8Bits.ComparisonsAgree | src/string/string_utils_utf8.c:26-50 | the comparisons of that loop on signed chars find the announced lengths and the continuation bytes |
| Utf8.DecodeUndoesEncode | src/json_parser/json_parser.c:937-1039 | decoding undoes encoding on all Unicode scalar values |
| Utf8.EncodeUndoesDecode | src/json_parser/json_parser.c:937-1039 | encoding undoes decoding on every UTF8-char of RFC 3629 |
| Utf8.DecodeAllUndoesEncodeAll | src/json_parser/json_parser.c:937-1039 | the same for whole strings |
| Utf8.EncodeAllUndoesDecodeAll | src/json_parser/json_parser.c:937-1039 | the same for whole strings, the other way round |
| Utf8.WellFormedIffEncoding | src/json_parser/json_parser.c:1097-1374 | a byte string is well-formed iff it is the encoding of some scalar values |
| JsonStrings.AutomatonIsRfc3629 | src/json_parser/json_parser.c:1097-1374 | the byte automaton accepts iff the text starts with a UTF8-char of section 4 of RFC 3629, and then consumes and copies exactly that |
| JsonStrings.ParseStringOf | src/json_parser/json_parser.c:1537-1592 | every string of the grammar is parsed into the encoding of its scalar values, up to its closing quote, iff there is room for that; else the block is left |
| JsonStrings.StringIsGrammatical | src/json_parser/json_parser.c:1537-1592 | whatever the string parser accepts is a string of the grammar with that value, and there was room for it |
| JsonStrings.ParsedStringsAreWellFormed | src/json_parser/json_parser.c:1537-1592 | a parsed string is well-formed UTF-8 without NUL |
| JsonGrammar.StringKeepsAllUnlessNul | src/json_parser/json_parser.c:1002-1003 | a string keeps all its characters iff none of them is U+0000 |
| JsonNumbers.ParseNumberOf | src/json_parser/json_parser.c:1606-1807 | every number of section 6 of RFC 8259 is accepted with its value, and what follows is left, iff it is shorter than the buffer |
| JsonNumbers.OneDigitTooMany | src/json_parser/json_parser.c:1600-1604 | 1023 digits are read and 1024 fill the buffer |
| JsonNumbers.NumberIsGrammatical | src/json_parser/json_parser.c:1606-1807 | only such numbers are accepted, with their value |
| JsonCompleteness.ParseValueOf | src/json_parser/json_parser.c:1877-1923 | every value of the grammar that is within the limits of depth, string and number length is parsed into its meaning |
| JsonSoundness.ValueIsGrammatical | src/json_parser/json_parser.c:1877-1923 | whatever pvt_parse_value accepts derives from the grammar, is within the limits and is turned into what the grammar makes of it |
| JsonLanguage.AcceptedTextsAreParsed | src/json_parser/json_parser.c:1925-1963 | completeness for whole texts, with the value |
| JsonLanguage.ParsedTextsAreAccepted | src/json_parser/json_parser.c:1925-1963 | soundness for whole texts, with the value |
| JsonLanguage.ParserAcceptsExactlyTheGrammar | src/json_parser/json_parser.c:1925-1963 | accepted iff derivable within the limits, with the byte 0xFF as an end of input |
| JsonLanguage.ParserReadsUpToEof | src/json_parser/json_parser.c:1925-1963 | every C string is accepted iff what comes before the first 0xFF, without a byte order mark, is a JSON text of RFC 8259 within the limits |
| JsonLanguage.ParserIsRfc8259 | src/json_parser/json_parser.c:1925-1963 | without a byte order mark: accepted iff a JSON text of RFC 8259 within the limits, except exactly when a JSON text comes before a byte 0xFF |
| JsonLanguage.JunkIsAccepted | src/json_parser/json_parser.c:1957 | `null`, a byte 0xFF and a brace are accepted and are no JSON text |
| JsonLanguage.StringNeedsRoom | src/json_parser/json_parser.c:1537-1592 | a text that is one string is parsed iff there is room for its bytes; else the block of the scratch arena is left |
| JsonLanguage.MeaningIsUnique | src/json_parser/json_parser.c:1925-1963 | all derivations of a text denote the same value |
| JsonErrors.CharFlawIsReported | src/json_parser/json_parser.c:1041-1592 | in a string, each of the thirteen forms of a bad next character, from a missing quote over broken escapes and surrogates to broken UTF-8, is reported with its own error |
| JsonErrorSoundness.CharErrorIsFlaw | src/json_parser/json_parser.c:1097-1533 | and every error of an escape, a control character or UTF-8 is reported for its form |
| JsonErrors.StringFlawIsReported | src/json_parser/json_parser.c:1537-1592 | the same after any chars of the grammar, if there is room for their bytes |
| JsonErrors.NumberFlawIsReported | src/json_parser/json_parser.c:1606-1807 | a point without digits before or behind it, a sign, a mark or a leading zero in the wrong place is an invalid number format |
| JsonErrorSoundness.NumberErrorIsFlaw | src/json_parser/json_parser.c:1606-1807 | and nothing else is; and a number is too long iff it does not fit its buffer |
| JsonErrors.NameFlawIsReported | src/json_parser/json_parser.c:1813-1845 | a name that breaks off at the end of the text is an unexpected end, and elsewhere unexpected text |
| JsonErrors.TooDeepIsReported | src/json_parser/json_parser.c:578-586 | one bracket more than the limit |
| JsonErrors.CommaFlawIsReported | src/json_parser/json_parser.c:839-868 | after an element or a member: a byte that is neither whitespace, comma nor the closing bracket is a missing comma; a comma, whitespace and the bracket are a trailing comma |
| JsonErrors.AfterItemsIsReported | src/json_parser/json_parser.c:838-889 | the same, and the end of the text, after `[` and any elements of the grammar, at any depth |
| JsonErrors.AfterMembersIsReported | src/json_parser/json_parser.c:718-764 | the same after `{` and any members |
| JsonErrors.KeyFlawIsReported | src/json_parser/json_parser.c:621-643 | no quote where a key should be is a missing key; a flaw in a key is that of the string |
| JsonErrors.ColonFlawIsReported | src/json_parser/json_parser.c:644-664 | after a key, anything but a colon is a missing colon, and the end of the text after the colon a missing value |
| JsonErrors.FlawIsReported | src/json_parser/json_parser.c:621-1923 | every flaw of a value, however deep inside arrays and objects with any elements before it, is reported with its own error; unexpected text inside an array as a missing element |
| JsonErrors.TextAfterValueIsReported | src/json_parser/json_parser.c:1951-1962 | something behind a value is unexpected text |
| JsonErrors.TextFlawIsReported | src/json_parser/json_parser.c:1925-2016 | the same for whole texts, with empty texts and byte order marks |
| JsonErrorSoundness.ValueErrorHasFlaw | src/json_parser/json_parser.c:621-1923 | whatever error pvt_parse_value reports, the text has a flaw with it |
| JsonErrorSoundness.ErrorsAreFlaws | src/json_parser/json_parser.c:1925-2016 | the parser reports an error iff the text has a flaw with that error |
| JsonErrorSoundness.FlawedOrAccepted | src/json_parser/json_parser.c:1925-2016 | no text has flaws with two errors, and a C string has one iff it is no JSON text of RFC 8259 within the limits up to the first byte 0xFF |
| JsonErrors.ExtraComma | test/json_parser/error_reporting/error_reporting_tests.txt:31 | the array with an extra comma of the tests reports its error 26 |
| JsonErrors.NoComma | src/json_parser/json_parser.c:841-844 | with a space in place of the comma and something after it, it is a missing comma |
| JsonLiterals.StructuralCharacters | src/json_parser/json_parser.c:1877-1923 | the bytes of the structural characters, of the letters of escapes and of the names, as characters |
| JsonLiterals.ByteClasses | src/json_parser/json_parser.c:907-926 | which characters are whitespace, digits, hexadecimal digits and exponent marks |
| JsonLiterals.ShortEscapes | src/json_parser/json_parser.c:1486-1511 | the eight letters of the short escapes, and the bytes they stand for |
| JsonLiterals.DigitValues | src/json_parser/json_parser.c:907-926 | a digit of either case is worth its place among the digits |
| JsonLiterals.DecimalIsPositional | src/json_parser/json_parser.c:1693-1717 | in a run of digits every digit counts ten times as much as the next one |
| JsonLiterals.IntegerMeaningByMagnitude | src/json_parser/json_parser.c:1693-1717 | an integer is a long between -2^63 and 2^63 - 1; else a double if it is nearer to the largest finite double than to 2^1024; else the long 0 |
| JsonLiterals.ByteOrderMarks | src/json_parser/json_parser.c:1984-2016 | the marks are U+FEFF in UTF-8 and in both orders of UTF-16; the first is skipped once |
| JsonLiterals.MarkMakesNoDifference | src/json_parser/json_parser.c:2003-2016 | a text with a UTF-8 mark is parsed like the text without |
| JsonPrinter.Mprintf | src/json_parser/json_pretty_printer.c:87-108 | at most 1023 bytes of a formatted piece reach the builder |
| JsonPrinter.FprintString | src/json_parser/json_pretty_printer.c:110-148 | a string is appended with its escapes |
| JsonPrinter.FprintScalar | src/json_parser/json_pretty_printer.c:261-303 | null, booleans, longs in decimal, strings |
| JsonPrinter.PutKey | src/json_parser/json_pretty_printer.c:163-169 | a key is printed raw, cut at 127 bytes and at a NUL, with its separator |
| JsonPrinter.PutEntry | src/json_parser/json_pretty_printer.c:199-203 | a key and its value, with the comma and the indentation before them |
| JsonPrinter.InitSpacers | src/json_parser/json_pretty_printer.c:305-312 | the filling loop makes every row of the table a string of as many spaces as its index |
| JsonPrinter.Spacer | src/json_parser/json_pretty_printer.c:187-190 | the row of the table that is printed, up to its terminator, is a string of nesting level times indent spaces |
| JsonPrinter.PrintSingleLine | src/json_parser/json_pretty_printer.c:314-326 | the single-line layout of any value is appended |
| JsonPrinter.FprintObjectSingleLine | src/json_parser/json_pretty_printer.c:150-174 | the entries in order, with raw keys |
| JsonPrinter.FprintArraySingleLine | src/json_parser/json_pretty_printer.c:210-228 | the elements in order |
| JsonPrinter.PrintMultiLine | src/json_parser/json_pretty_printer.c:328-344 | the multi-line layout of any value is appended, and every index into the table of spacers is in range |
| JsonPrinter.FprintObjectMultiLine | src/json_parser/json_pretty_printer.c:176-208 | the entries in order, one to a line |
| JsonPrinter.FprintArrayMultiLine | src/json_parser/json_pretty_printer.c:231-258 | the elements in order, one to a line |
| JsonPrinter.Sprint | src/json_parser/json_pretty_printer.c:376-382 | jsonp_sprint appends the text of the chosen layout |
| JsonLayout.LinesAreIndented | src/json_parser/json_pretty_printer.c:176-258 | in the multi-line layout, read from left to right: there is a new line after every comma, after every bracket that is not closed at once and before every bracket that closes elements; none inside a string; and after every newline there are exactly indent spaces for every open bracket, without the one that is closed right there |
| JsonLayout.QuoteInKeyBreaksLayout | src/json_parser/json_pretty_printer.c:188-196 | a quote in a key lets the comma behind it out of the string |
| JsonLayout.PrintableKeysStayInside | src/json_parser/json_pretty_printer.c:163-169 | no key of a printable value does that |
| JsonLayout.SingleLineHasNoNewline | src/json_parser/json_pretty_printer.c:150-228 | the single-line layout has no newline iff no key brings one |
| JsonLayout.SingleLineIsSpaced | src/json_parser/json_pretty_printer.c:150-258 | it is the multi-line layout without indentation and with a space for every newline, iff there are no empty objects and no newlines in keys |
| JsonLayout.SampleOnOneLine | src/json_parser/json_pretty_printer.c:150-228 | an array of a number and an empty object, byte by byte |
| JsonLayout.SampleOnLines | src/json_parser/json_pretty_printer.c:176-258 | the same on several lines |
| JsonLiterals.KeyAsPrinted | src/json_parser/json_pretty_printer.c:163-169 | the first 127 bytes of a key, as they are, between quotes, and a colon between spaces |
| JsonLiterals.EscapesAsPrinted | src/json_parser/json_pretty_printer.c:126-143 | what is printed for every byte of a string |
| JsonRoundTrip.StringRoundTrip | src/json_parser/json_pretty_printer.c:110-148 | parsing a printed string returns it and stops after the closing quote iff it is well-formed UTF-8 without NUL and there is room for it |
| JsonRoundTrip.PrintedLongIsSpelled | src/json_parser/json_pretty_printer.c:273-275 | the decimal form of a long is a number of the grammar that means this long |
| JsonRoundTrip.TreeDenotes | src/json_parser/json_pretty_printer.c:314-344 | the derivation tree of a printed value means this value, is nested like it, and fits if its strings and keys do |
| JsonRoundTrip.PrintedIsSpelled | src/json_parser/json_pretty_printer.c:314-344 | in both layouts the printed text is what that tree spells |
| JsonKeys.KeyReadBack | src/json_parser/json_pretty_printer.c:163-169 | a key that is printed raw is read back as itself only if it was short, well-formed and free of quotes, backslashes and control bytes |
| JsonPrintParse.ReturnedValuesAreGood | src/json_parser/json_parser.c:1877-1923 | all strings and keys of a parsed value are well-formed UTF-8 without NUL, and they and its nesting are within the limits |
| JsonPrintParse.ValueRoundTrip | src/json_parser/json_pretty_printer.c:314-344 | a printable value within the limits is read back inside any text |
| JsonPrintParse.ReadBackIsPrintable | src/json_parser/json_pretty_printer.c:314-344 | only printable values within the limits are read back as themselves |
| JsonPrintParse.RoundTripIffPrintable | src/json_parser/json_pretty_printer.c:349-382 | parsing what was printed gives the value back, in either layout, iff the value is printable and its nesting, its strings and its keys are within the limits |
| JsonPrintParse.SprintThenParse | src/json_parser/json_pretty_printer.c:376-382 | the same for the printing and parsing code run one after the other, with the limits that the page size sets |
| JsonPrintParse.LevelsAreNesting | src/json_parser/json_pretty_printer.c:182-188 | the levels of indentation for which there must be spacers are those of nesting, but for empty arrays and objects |
| JsonPrintParse.LayoutsAgree | src/json_parser/json_pretty_printer.c:349-362 | the two layouts denote the same value |
| JsonPrintParse.LongStringsOverrun | src/json_parser/json_parser.c:1539-1541 | printed strings are JSON texts; the parser reads those of at most a page less 129 bytes and leaves its block on the longer ones |
| JsonPrintParse.OneLetterTooMany | src/json_parser/json_parser.c:1539-1541 | with pages of 4096 bytes, 3967 letters are read and 3968 leave the block |
| JsonPrintParse.QuoteInKeyIsLost | src/json_parser/json_pretty_printer.c:163 | a key with a quote in it is not read back |
| HashKeys.EqualDoubles | src/collections.c:86-98 | two doubles are equal iff neither is a NaN and they have the same bits, or both are zeros |
| HashKeys.NaNsByFields | src/collections.c:86-88 | a NaN has an exponent of all ones and a fraction that is not zero |
| HashKeys.EqualKeys | src/map/hashmap.c:357-380 | the only equalities between keys: a findable key equals itself, and the two zeros equal one another |
| HashKeys.EqualKeysAreCanonical | src/map/hashmap.c:357-381 | key equality is an equivalence on the keys other than NaN and COL_TYPE_NONE, and these equal nothing |
| HashKeys.MapHashString | src/map/hashmap.c:91-102 | the loop computes djb2 on 64-bit words |
| HashKeys.MapHashFunction | src/map/hashmap.c:285-326 | the hash of every kind of key |
| HashKeys.RawHashes | src/map/hashmap.c:286-324 | what is mixed: a long times the golden ratio, the bits of a double with one zero for both, the djb2 hash, an address |
| HashKeys.Djb2IsBase33 | src/map/hashmap.c:91-99 | the djb2 hash is 5381 followed by the bytes, as a number to the base 33, modulo 2^64 |
| HashKeys.MixSteps | src/map/hashmap.c:81-88 | the three shifts and the two products of the mixer on 64-bit words |
| HashKeys.EqualKeysHashAlike | src/map/hashmap.c:285-381 | equal keys have equal hashes, -0.0 and 0.0 included |
| HashKeys.MixIsUndone | src/map/hashmap.c:81-88 | the mixer has an inverse: it never merges two raw hashes |
| HashKeys.LongKeysNeverCollide | src/map/hashmap.c:288-295 | two integer keys have the same hash iff they are equal |
| HashMaps.BucketIndexIsRemainder | src/map/hashmap.c:186-188 | masking with num_buckets - 1 is the remainder, as num_buckets is a power of two |
| HashMaps.NodeIsInBucket | src/map/hashmap.c:383-396 | the node for a key can only be in the bucket its hash selects, and any node there with an equal key is that node |
| HashMaps.Walk | src/map/hashmap.c:387-394 | the loop stops at the first node with an equal key, or at the end of the chain |
| HashMaps.HashMap.Find | src/map/hashmap.c:383-396 | the walk finds the node of the finite map, with its predecessor in the chain |
| HashMaps.HashMap.constructor | src/map/hashmap.c:435-479 | an empty map with a power of two of buckets, and room for the requested number of entries, up to MAX_CAPACITY; above 16, half as many buckets would not be enough |
| HashMaps.HashMap.NodeFor | src/map/hashmap.c:383-396 | the node of the key in the finite map, or null |
| HashMaps.HashMap.Get | src/map/hashmap.c:585-598 | the value of the key in the finite map, or the null value |
| HashMaps.HashMap.TryGet | src/map/hashmap.c:608-616 | a stored null value counts as missing |
| HashMaps.HashMap.SetValue | src/map/hashmap.c:398-409 | only the value of this key changes |
| HashMaps.HashMap.EnsureCapacity | src/map/hashmap.c:230-283 | a request that is not met doubles num_buckets, up to MAX_NUM_BUCKETS, whatever was wanted; nothing else changes |
| HashMaps.GrowthLoopEndsForPut | src/map/hashmap.c:240-243 | on every reachable state the growth loop of a put ends at its first test |
| HashMaps.GrowthLoopEndsOrHangs | src/map/hashmap.c:240-243 | the test of the growth loop is false at once, or true after every number of turns, depending on buckets and request alone |
| HashMaps.GrowthLoopCanHang | src/map/hashmap.c:240-243 | with 16 buckets and a request for 100 entries the test stays true for ever |
| HashMaps.HashMap.Rehash | src/map/hashmap.c:262-282 | the same nodes, every one in the bucket that its hash now selects |
| HashMaps.MoveChain | src/map/hashmap.c:264-275 | every node of a chain is moved exactly once, and no other link changes |
| HashMaps.MoveAll | src/map/hashmap.c:262-276 | after the last bucket the new array holds all nodes, correctly distributed |
| HashMaps.MoveNode | src/map/hashmap.c:270-272 | a moved node becomes the head of its new bucket |
| HashMaps.BucketsCanDouble | src/map/hashmap.c:245-252 | the number of buckets stays a power of two and reaches the maximum exactly |
| HashMaps.HashMap.Insert | src/map/hashmap.c:643-655 | a new node at the head of its bucket adds one entry to the finite map |
| HashMaps.HashMap.Put | src/map/hashmap.c:623-655 | the finite map is updated at the key, and size is at most fill_capacity as long as num_buckets is below its maximum |
| HashMaps.HashMap.MakeRoom | src/map/hashmap.c:626-628 | a full map doubles its buckets before a put, below the maximum |
| HashMaps.HashMap.Remove | src/map/hashmap.c:657-681 | the key leaves the finite map; unlinking keeps the chain whole |
| HashMaps.HashMap.RemoveNode | src/map/hashmap.c:667-677 | the node that was found leaves chain and map |
| HashMaps.Unlink | src/map/hashmap.c:667-672 | the chain loses exactly this node, at the head or behind its predecessor |
| HashMaps.HashMap.Clear | src/map/hashmap.c:549-562 | the finite map is empty, the buckets stay |
| HashMaps.HashMap.Size | src/map/hashmap.c:683-685 | the number of entries of the finite map |
| HashMaps.PutReachesEqualKeys | src/map/hashmap.c:357-380 | a put under one key changes what another key finds iff the two are the same, or zeros of either sign |
| HashMaps.RemoveReachesEqualKeys | src/map/hashmap.c:357-380 | and so does a removal |
| HashMaps.HashMap.LoadFactor | include/roblib/hashmap.h:132-139 | a map has room for three entries in every four buckets, and between 16 and 2^28 buckets |
| HashMaps.Run | src/map/hashmap.c:623-681 | after any run of puts, removes and clears the chains represent the finite map that the same operations leave, and the first initial_capacity puts do not rehash |
| StringPools.StringCounter.Ref | src/map/string_counter.c:208-227 | the count of the string goes up by one, starting at 1, and the pooled string equals it |
| StringPools.StringCounter.Unref | src/map/string_counter.c:232-245 | the count goes down by one, and a count of 1 removes the string |
| StringPools.StringCounter.GetCount | src/map/string_counter.c:197-203 | the count, 0 for a string that is not there |
| StringPools.StringCounter.Put | src/map/string_counter.c:252-257 | the count is set |
| StringPools.StringCounter.Remove | src/map/string_counter.c:260-266 | the string is gone |
| StringPools.FreeConserves | src/map/string_counter.c:80-97 | taking a key out of the map and unreferencing its value keeps counts and users equal |
| StringPools.StoreConserves | src/map/string_counter.c:61-79 | storing a value for a new key and referencing it keeps counts and users equal |
| StringPools.OverwriteConserves | src/map/hashmap.c:634-641 | freeing the value of a key and storing another keeps them equal, and no count overflows in between |
| StringPools.PooledMap.FreeValue | src/map/string_counter.c:80-97 | a string value loses a reference, other values change nothing |
| StringPools.PooledMap.StoredValue | src/map/string_counter.c:61-79 | a string value gains a reference and is stored as the pooled string, which equals it |
| StringPools.PooledMap.constructor | src/map/hashmap.c:484-514 | an empty map with an empty pool that share nothing |
| StringPools.PooledMap.Put | src/map/hashmap.c:623-655 | the map is updated and the pool stays in balance, also when a value is overwritten |
| StringPools.PooledMap.Overwrite | src/map/hashmap.c:634-641 | freeing the old value before storing the new one keeps the balance, also when they are equal |
| StringPools.FreedStringSurvives | src/map/string_counter.c:80-97 | the pooled string of a value that is freed stays in the pool iff another key has it; else a pointer to it dangles |
| StringPools.OnlyStringIsGone | src/map/string_counter.c:80-97 | with one key it does not survive |
| StringPools.PooledMap.Add | src/map/hashmap.c:643-655 | a new key with its value keeps the balance |
| StringPools.PooledMap.Remove | src/map/hashmap.c:657-681 | the same for removal |
| StringPools.PooledMap.Clear | src/map/hashmap.c:549-562 | the walk over all chains empties the pool together with the map |
| StringPools.PooledMap.FreeChain | src/map/hashmap.c:552-557 | every node of a bucket is freed exactly once |
| StringPools.PooledMap.FreeNodes | src/map/hashmap.c:552-557 | the walk frees every node of a chain exactly once, with its successor read before |
| StringPools.Run | src/map/hashmap.c:484-514 | after any run of puts, removes and clears the pool's count of every string is the number of keys mapped to it, and it is in the pool iff there are any |
| CharRingBuffers.CharRingBuffer.AddChar | src/string/char_ring_buffer.c:92-104 | appends a byte; a full buffer forgets its oldest one |
| CharRingBuffers.CharRingBuffer.AddStr | src/string/char_ring_buffer.c:66-90 | the last `capacity` bytes of the old contents and the source |
| CharRingBuffers.CharRingBuffer.AddStrStrict | src/string/char_ring_buffer.c:112-124 | as much of the source as fits, or CRB_ERR_BUFFER_FULL |
| CharRingBuffers.CharRingBuffer.AddCharStrict | src/string/char_ring_buffer.c:126-134 | a byte if there is room, or CRB_ERR_BUFFER_FULL |
| CharRingBuffers.CharRingBuffer.GetNextChar | src/string/char_ring_buffer.c:137-146 | removes and returns the oldest byte, or EOF |
| CharRingBuffers.CharRingBuffer.PeekChar | src/string/char_ring_buffer.c:149-156 | the byte at an offset from the oldest, across the wrap-around |
| CharRingBuffers.CharRingBuffer.Sprint | src/string/char_ring_buffer.c:184-198 | all bytes in order and a terminator |
| CharRingBuffers.PushView | src/string/char_ring_buffer.c:92-104 | writing behind the last byte of a circular buffer appends to the sequence it represents |
| CharRingBuffers.AddStrIsAddChars | src/string/char_ring_buffer.c:66-104 | adding a string is adding its bytes one by one, though only the last ones are copied |
| CharRingBuffers.Run | src/string/char_ring_buffer.c:66-146 | any run of operations represents the byte sequence that the same operations leave |
| StringBuilders.StringBuilder.BufferIsCString | src/string/string_builder.c:33-180 | the buffer always reads as a C string that is exactly the contents |
| StringBuilders.StringBuilder.OnHeap | src/string/string_builder.c:33-52 | a heap builder with the given text and a zero tail |
| StringBuilders.FromCString | src/string/string_builder.c:64-86 | a builder in an arena, exactly if its struct and its buffer fit below the end; older arena contents are untouched |
| StringBuilders.StringBuilder.EnsureCapacity | src/string/string_builder.c:92-128 | growth by realloc, in place at the top of an arena, or by a copy keeps the text and clears the rest; it fails exactly if the additional bytes, or the new buffer, do not fit below the end of the arena |
| StringBuilders.StringBuilder.Reallocate | src/string/string_builder.c:120-126 | the heap block grows, keeps the text and is zero from there on |
| StringBuilders.StringBuilder.GrowInPlace | src/string/string_builder.c:103-111 | at the top of an arena only the additional bytes are allocated, exactly if they fit below its end |
| StringBuilders.StringBuilder.Move | src/string/string_builder.c:112-118 | elsewhere in an arena the text moves to a new, zeroed buffer, exactly if that fits below its end |
| StringBuilders.SpliceInserts | src/string/string_builder.c:171-180 | moving the end of the text up and filling the gap is an insertion, and leaves the tail zero |
| StringBuilders.StringBuilder.AppendChar | src/string/string_builder.c:130-138 | appends a byte exactly if there is room; NUL is ignored |
| StringBuilders.StringBuilder.AppendStr | src/string/string_builder.c:140-148 | appends a string exactly if there is room |
| StringBuilders.StringBuilder.InsertChar | src/string/string_builder.c:161-169 | inserts a byte exactly if there is room |
| StringBuilders.StringBuilder.InsertStr | src/string/string_builder.c:171-180 | inserts a string exactly if there is room, with the zero tail in place of a terminator |
| Utf8Index.Sutil8CharCount | src/string/string_utils_utf8.c:71-92 | counts the bytes that are not continuation bytes |
| Utf8Index.Sutil8CharAt | src/string/string_utils_utf8.c:15-69 | the loop computes the indexing function on every byte string, well-formed or not |
| Utf8Index.DecodeTails | src/string/string_utils_utf8.c:45-53 | the inner loop adds six bits for every continuation byte, and fails at a byte that is none |
| Utf8Index.CountIsNumberOfCodePoints | src/string/string_utils_utf8.c:71-92 | on encoded text the count is the number of code points |
| Utf8Index.CharAtIsCodePoint | src/string/string_utils_utf8.c:15-69 | on encoded text char_at(i) is the i-th code point, and UINT32_MAX past the end |
| Utf8Index.CharactersAreCodePoints | src/string/string_utils_utf8.c:15-92 | both agree on every well-formed C string |
| StringSlices.StartsWith | src/string/string_slice.c:397-403 | true iff the prefix is one |
| StringSlices.IndexOf | src/string/string_slice.c:188-199 | the first occurrence, or -1 iff there is none |
| StringSlices.RindexOf | src/string/string_slice.c:217-228 | the last occurrence, or -1 iff there is none |
| StringSlices.ChopByDelimiter | src/string/string_slice.c:357-381 | the piece before the first delimiter that is not at the very end, and what follows it |
| StringSlices.Split | src/string/string_slice.c:264-290 | terminates, with the pieces in order |
| StringSlices.JoinUndoesSplit | src/string/string_slice.c:264-290 | joining the pieces gives the text back, except for one final delimiter when the last piece is empty |
| StringSlices.JoinUndoesSplitUnlessDoubled | src/string/string_slice.c:264-290 | for a delimiter that cannot overlap itself, that delimiter is lost iff the text is the delimiter or ends in two |
| StringSlices.OverlapKeepsDelimiter | src/string/string_slice.c:357-381 | for one that can, a text that ends in two may be given back whole |
| StringSlices.PiecesAvoidDelimiter | src/string/string_slice.c:264-290 | only the last piece may contain the delimiter, and only at its end |
| StringSlices.SplitIsUnique | src/string/string_slice.c:264-290 | the pieces are determined by text and delimiter |
| Collections.NextPowerOfTwo | src/collections.c:101-126 | the least power of two that is at least the clamped request, exactly unless the request reaches a bound of 1 or 2 |
| Collections.Smear | src/collections.c:116-124 | six shifts and ORs fill all bits below the highest one |
| Collections.RoundUp | src/collections.c:116-125 | subtract, smear and add gives the power of two above the highest bit |
| Arenas.AlignUp | src/memory/allocator.c:208-210 | the least multiple of the alignment that is not below the value |
| Arenas.AlignUpByMask | src/memory/allocator.c:208-210 | the mask expression computes it |
| Arenas.RoundUpIsLeast | src/platform_specific.c:17-25 | the least power of two that is at least the request |
| Arenas.Arena.constructor | src/memory/allocator.c:375-416 | a zeroed block of whole pages, whose room is the capacity with the headers rounded up to pages, less the headers twice; the default alignment is the least power of two that is at least the given one, or 16 |
| Arenas.RoomCoversRequest | src/memory/allocator.c:377-386 | that room is at least the wanted capacity iff the rounding makes up for the second subtraction |
| Arenas.RoomIsSmallerThanRequest | src/memory/allocator.c:377-386 | an arena for 4016 bytes gives out 3936 with pages of 4096 |
| Arenas.Arena.Alloc | src/memory/allocator.c:299-372 | a zeroed region above all live ones, or a failure that changes nothing; the pointer is a multiple of every power of two up to the requested one rounded up, and up to that of the arena if none is requested |
| Arenas.Arena.BeginTemp | src/memory/allocator.c:235-239 | the bytes of a marker with the block and the present offset are put above that offset; older contents are untouched |
| Arenas.Arena.EndTemp | src/memory/allocator.c:467-474 | block and offset become what the bytes of the marker say unless its flag is set; for an untouched marker of the innermost scope, offset and live allocations are exactly those at its beginning |
| Arenas.EndTwice | src/memory/allocator.c:455-474 | after any scope and any later allocations, a second end changes nothing iff they have not reached the flag of the marker; else the arena is left without a block |
| Arenas.EndAfterAllocation | src/memory/allocator.c:455-474 | one allocation of 64 bytes between the two ends is enough |
| Arenas.Arena.LiveRegionsAreDisjoint | src/memory/allocator.c:299-372 | live allocations are inside the block and do not overlap |
| Arenas.Execute | src/memory/allocator.c:235-372 | any run of allocations and nested scopes leaves what was live live and untouched |
| Arenas.ExecuteScope | src/memory/allocator.c:235-243 | a scope restores the allocations and the offset at its start, whatever ran inside it |
| GrowingArenas.GrowingArena.constructor | src/memory/allocator.c:375-416 | one block of whole pages |
| GrowingArenas.GrowingArena.Alloc | src/memory/allocator.c:299-372 | cleared memory in the current block, or in the next one, reused or new; where it would leave that block, and when the pointer is aligned |
| GrowingArenas.PivotAlignment | src/memory/allocator.c:307-363 | after a change of block the pointer is aligned iff the old offset was as far from an aligned one as a block header is |
| GrowingArenas.PivotMisaligns | src/memory/allocator.c:307-363 | the first offset of an arena is aligned to 16 bytes, and after a pivot the pointer is not |
| GrowingArenas.GrowingArena.MadeToMeasure | src/memory/allocator.c:331-356 | a block that is made for one allocation and filled by it has no place for padding: the memory stays inside iff there is none |
| GrowingArenas.GrowingArena.ElementsLeaveBlock | src/json_parser/json_parser.c:894 | the elements of a JSON array of 511 can leave their block |
| GrowingArenas.GrowingArena.BeginTemp | src/memory/allocator.c:455-465 | the bytes of a marker with the block and the offset at the time |
| GrowingArenas.GrowingArena.EndTemp | src/memory/allocator.c:467-474 | back to the block and the offset in the marker, unless it is stale |
| GrowingBuilders.GrowingBuilder.GrowInPlace | src/string/string_builder.c:103-111 | the text is kept; the buffer is all its own iff the new capacity and the terminator fit into the usable part of the current block |
| GrowingBuilders.GrowingBuilder.Move | src/string/string_builder.c:112-118 | the text is copied to new memory that is all its own; this stays in its blocks iff the allocation and the old capacity do |
| GrowingBuilders.GrowingBuilder.EnsureCapacity | src/string/string_builder.c:92-128 | room for the wanted length with the text kept, exactly if the growth stays inside its blocks; a confined buffer never moves |
| GrowingBuilders.GrowingBuilder.AppendChar | src/string/string_builder.c:130-138 | appends a byte, exactly if the growth it needs stays inside its blocks and the byte and the terminator do; in a confined buffer exactly as long as there is room up to the end of the block |
| GrowingBuilders.NewBuilder | src/string/string_builder.c:64-90 | an empty builder whose buffer is the top of the arena |
| ObjectPools.ObjectPool.constructor | src/memory/allocator.c:491-528 | the links are written slot by slot; the result is a pool with all slots free iff slots have eight bytes or more, or there is at most one |
| ObjectPools.LinksLeadThroughAllSlots | src/memory/allocator.c:519-525 | the bytes that are written are a free list through all slots iff slots have eight bytes or more, or there is at most one |
| ObjectPools.TwoSmallObjects | src/memory/allocator.c:491-552 | a pool of two objects of four bytes gives out both and then holds half a pointer, shifted, instead of the null pointer |
| ObjectPools.ObjectPool.Alloc | src/memory/allocator.c:540-552 | the first word of the node becomes the free list, whatever it is; on a pool: never a live slot, and the null pointer iff every slot is live |
| ObjectPools.ObjectPool.Free | src/memory/allocator.c:530-534 | the slot is free and will be the next one given out; no byte of another slot changes |
| ObjectPools.ObjectPool.Write | src/memory/allocator.c:530-552 | whatever the owner of a live slot writes over it, the free list and the other slots stay intact |
| ObjectPools.CountSlots | src/memory/allocator.c:491-552 | free and live slots together are all the slots |
| ObjectPools.Linked | src/memory/allocator.c:530-534 | the link that is written puts a slot in front of the list and leaves the other links alone, if slots hold their links |
| ObjectPools.Run | src/memory/allocator.c:530-552 | over any legal run of a pool that holds its links, every pointer given out is the address of a slot that was free, and a request fails only when all are live |

## Left out

- File, stream and URL sources of the JSON parser, stdio and curl: input and output.
- Doubles: strtod and `%.17g` are foreign. A number with a fraction, an exponent or a magnitude between a long and a
  double is kept as the bytes handed to strtod, with a point as the decimal separator; the printer is modelled on
  values without doubles.
- Error messages, line and column, parse_start and parse_end, and the printer's character totals.
- Configuration flags other than the defaults: `\U` escapes, trailing commas, other whitespace, rejecting a byte order
  mark.
- jsonp_parse_string_ex and jsonp_parse_string_using_context.
- JsonInput.Input.Advance: only inside the text, as every call of the parser does; past the end the source clamps the
  cursor.
- Texts of 2^32 bytes and more, and the 32-bit widths of the cursor, of the depth and of a builder's capacity.
- StringBuilders.StringBuilder.EnsureCapacity: the growth factor is taken as 4/3 exactly; the source multiplies by a
  double and truncates.
- Failing allocations, except where a member states them; the arena of the caller, in which the parser puts its values,
  is taken to deliver, and not to be the scratch arena itself. It grows like the scratch arena:
  GrowingArenas.GrowingArena.StaysInside is what its allocations need, and ElementsLeaveBlock an array for which it
  fails.
- JsonParser.ParseText: the scratch arena must stand in a block of the default size where JsonScratch.CanBuild holds. At
  other places a capacity falls between the usable and the whole block, or the builder starts in another block, and the
  buffer then moves before it is full.
- JsonPrinter.Sprint: the builder is on the heap; in an arena the source goes on when an append fails, and the text has
  gaps.
- JsonLayout.LinesAreIndented: only where the raw keys stay inside their quotes. One key that does not can make up for
  another one, so that no condition on single keys would be exact.
- GrowingArenas.GrowingArena.Alloc: blocks are sequences of bytes that a field holds, without their headers, and are
  known by their place in the chain instead of an address.
- GrowingBuilders.GrowingBuilder.AppendChar: when it returns false the source has written outside a block, and nothing
  is said about what follows; appending strings and inserting are modelled in StringBuilders alone.
- StringPools.StringCounter.Ref: counts below the largest long, where the source would overflow; hence also the bound on
  the number of entries in StringPools.PooledMap.Put.
- Ownership: strings are values, so copying, sharing and freeing them is not modelled. A value that is put again
  through the pointer that the pool handed out is not visible in StringPools.PooledMap.Overwrite;
  StringPools.FreedStringSurvives says when that pointer has become invalid.
- HashMaps.HashMap.Put: keys must not be NaN or COL_TYPE_NONE; the source would add a node that no key ever finds.
- HashMaps.Run: the same for the keys that a run puts.
- JsonPrinter.FprintScalar: no doubles, as said above.
- HashMaps.HashMap.EnsureCapacity: only requests for which GrowthLoopEnds holds; otherwise the source does not return.
- HashMaps.HashMap.Clear: the nodes are dropped, not freed; in StringPools.PooledMap.Clear all values are freed before
  the buckets are emptied, where the source empties bucket by bucket.
- Reference objects and void pointers with their own hash as map values, map_contains_value, and the load field.
- Arenas.Arena.Alloc: offsets do not wrap around at the width of size_t.
- Arenas.Arena.BeginTemp: needs room for its marker, because the source does not survive that failure.
- Arenas.EndTwice: nothing else is written to the memory between the two ends.
- The alignment of pool slots, the second scratch arena, and mmap.
- ObjectPools.ObjectPool.constructor: the link of the last slot must be inside the block; with slots of less than eight
  bytes the source can write it beyond.
- ObjectPools.ObjectPool.Free: only live objects; freeing twice corrupts the list in the source.
- StringSlices.Split: slices are their bytes, so that pieces share memory with the text is not modelled.
- slice_ends_with, slice_split_to_out_buffer, case-insensitive variants, trimming.
- array_list, vector, array, carray, set, bitset, memory_pool, lookup_table, toml_parser, and the unit test frameworks.
