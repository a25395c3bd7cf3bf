# Verified model of the air-quality logger

This project models the parts of the logger firmware where correctness is hardest to see, and
proves properties of the model with Dafny. `dafny verify dfyconfig.toml` checks all of it.

**JSON.** `Bytes`, `Utf8`, `StringCodec`, `Numbers` and `Lexer` define characters, strings, integers
and tokens. `ReaderSpec` says what `Json::Reader` computes, as recursive functions over tokens;
`Reader` is the reader itself, a class with a cursor, a node stack and an error list, proved equal
to that specification for every text and every feature set. `FastWriter` and `StyledWriter` are the
compact and the pretty writer as classes that append to their output. `Rendering`, `FastTheorems`,
`StyledTheorems` and `RoundTrip` prove that what is written is read back. `Syntax` says what the
reader makes of any tree of tokens and `Grammar` what it makes of every text of RFC 8259. `Form` has
the trees of everything that is accepted, and `Strict` what the strict mode lets through. `Layout` gives
the pretty document as a list of indented lines. `Offsets` and
`Faithful` show that recorded offsets are faithful to the text, `Features` what two of the features
change, `Truncation` what is read from a text that was cut off.
`ValueOrder` treats `operator<`, `operator==` and `compare`, `ArrayValues` the index-keyed map behind
arrays, and `ArrayReads` how the reader fills it.

**Firebase.** `ReceiveBuffer` is the HTTP event handler and its fixed buffer. `Firebase` gives the
requests with retries, the token refresh and the database operations as functions of an arbitrary
server; `FirebaseApp` is the client object proved equal to them. A server is any function of the
attempt number, the database and the request. What is taken for granted is always a hypothesis:

- A server is `Sound` if a 2xx reply means that the request was carried out and any other reply that
  it was not, while after a transport error either may be the case, and if a 200 reply to the ordered
  listing is a non-empty text whose names are the smallest stored names; the order of the text is free.
- `Reconnects` says of the HTTP library that after a response that did not finish, the next attempt
  opens a new connection; the program itself does not reset the buffer between attempts.
- `OrdersLongListings` says that a listing that does not fit the receive buffer has its names in key
  order. It is needed only to know that the oldest entries are deleted, not that stored ones are.

`Protocol` says, about the log of requests and replies alone, what is sent and when. `FirebaseTheorems`,
`PatchBody`, `TrimOldest` and `TrimDays` hold the theorems, and `TrimExamples` shows
what goes wrong without the last two hypotheses.
`Timestamps`, `Batching`, `Retention` and `Counter` are the sampling loop: keys, averages and dates,
and the counter that stands in for the number of stored items.

**Sensor frames.** `Crc8` is the CRC of the SEN5x sensor and the frame decoder.

Properties that fail, each with a concrete input and, where it is not obvious, the exact condition
under which it holds:

- A name that contains a quote or a backslash is written unescaped into the deletion request, which
  then deletes something else (`OneNameDeletesTwo`); names without these are exactly the safe ones
  (`PatchNamesItsKeys`).
- A PUT may have taken effect although it is reported as failed: its replies were lost (`LostReplies`)
  or it was answered by a 2xx other than 200 (`NoContentIsFailure`). These are the only ways (`PutExactly`,
  `ReliableResult`).
- The result of the delete at the start is ignored. The item counter is right in every run exactly when
  that delete left nothing behind (`CounterIsRightIff`, `StartsEmptyIff`, `RefusedDeleteMisleads`).
- A response is read as it was sent exactly when it has its own connection, or no unfinished response
  precedes it on the connection and it is not empty or follows no text; an unfinished response without
  a NUL that fits the buffer with it is run together with it (`TextIsResponseIff`, `StaleText`).
- A trim can name an entry that is not stored (`UnfinishedMisleads`); it never does exactly when the
  HTTP library reconnects after every unfinished response (`ReconnectingIsExact`).
- A trim can delete an entry that is not among the oldest (`LongListingMisleads`); it deletes the
  oldest exactly when what the buffer cuts off is newer than what it keeps (`FoundAreOldestIff`).
- A string with a lone high surrogate is valid JSON and is refused (`LoneSurrogateIsRefused`); `ReadsGrammar`
  says exactly which valid texts are accepted.
- The strict mode of the reader, described as strictly compatible with JSON and without comments, accepts
  comments in objects (`StrictTakesComments`). What it reads is JSON exactly when it contains no comment,
  no comma with a closing brace after it, and only numbers and strings of RFC 8259 (`StrictIsJsonIff`).
  Text after the root is never looked at (`StrictIgnoresTheRest`).
- `resize` on an array with a hole fails its own assertion when the last index it keeps is missing
  (`Resize`, `ResizeCanFail`).

The theorem on offsets is for features without dropped nulls, as they are by default. With dropped
null placeholders switched on an offset can be -1 (`DroppedNullIsUnfaithful`), in exactly one case
(`StartsInTextIff`).

## Model

| member | source | states |
|---|---|---|
| `Utf8.DecodeEncode` | components/jsoncpp/json_writer.cpp:188-237 | On every well-formed character (RFC 3629, section 3) the lenient decoder is exact: re-encoding its answer gives the same bytes back |
| `Utf8.EncodedIsWellFormed` | components/jsoncpp/json_tool.h:39-65 | The encoding of every Unicode scalar value is one well-formed character |
| `Utf8.LenientAnswer` | components/jsoncpp/json_writer.cpp:188-237 | On any bytes: a byte that announces more than there is, or is no lead, counts alone and gives U+FFFD; otherwise the announced bytes give their payload bits, or U+FFFD for a surrogate or a too long form |
| `StringCodec.QuoteString` | components/jsoncpp/json_writer.cpp:275-350 | The quoting loop, with its fast path, writes the literal `Quote(s)` about which the theorems below speak; it always terminates |
| `StringCodec.FastPath` | components/jsoncpp/json_writer.cpp:180-186 | When no character needs escaping, the slow loop would have copied the text unchanged, so both paths agree |
| `StringCodec.DecodeString` | components/jsoncpp/json_reader.cpp:628-679 | The decoding loop over the document equals decoding of the characters between the quotes, for every token and every error |
| `StringCodec.ReadUnicode` | components/jsoncpp/json_reader.cpp:681-704 | One or two `\u` escapes, with every surrogate error, as a function of the following characters |
| `StringCodec.ReadFour` | components/jsoncpp/json_reader.cpp:706-730 | Four hexadecimal digits or the error for too few or for a bad one |
| `StringTheorems.QuoteDecodes` | components/jsoncpp/json_writer.cpp:275-350 | For every byte string the quoted form decodes without error, to the cleaned string |
| `StringTheorems.CleanIffValid` | components/jsoncpp/json_writer.cpp:188-237 | Cleaning always gives valid UTF-8 and changes a string exactly when it is not valid UTF-8 |
| `StringTheorems.QuoteShape` | components/jsoncpp/json_writer.cpp:275-350 | The quoted form is ASCII without control characters and at most 6n+2 bytes long |
| `StringTheorems.AsciiPieceIs` | components/jsoncpp/json_writer.cpp:290-335 | The table of what is written for each ASCII character: the seven two-character escapes, \u escapes for the other control characters, everything else as it is |
| `StringTheorems.PieceIs` | components/jsoncpp/json_writer.cpp:329-344 | Any other character is written as one escape in lower-case hexadecimal or as its surrogate pair |
| `StringTheorems.QuoteScans` | components/jsoncpp/json_reader.cpp:431-441 | In any document a quoted string is scanned as exactly one complete token |
| `StringTheorems.ScannedIsAligned` | components/jsoncpp/json_reader.cpp:628-679 | For every token the scanner accepts, the decoder meets no unescaped quote and no empty escape, and reads to the closing quote and not beyond |
| `StringTheorems.UnicodeIsInert` | components/jsoncpp/json_reader.cpp:681-730 | The scanner skips exactly the characters an accepted `\u` escape or pair consumes |
| `StringTheorems.EscapeIsEncodable` | components/jsoncpp/json_reader.cpp:681-704 | Every accepted escape or pair is at most 0x10FFFF and becomes one to four bytes |
| `Numbers.UIntToString` | components/jsoncpp/json_tool.h:67-87 | Writes exactly the decimal digits and a terminator, backwards, within 21 bytes of any buffer for every uint64 |
| `Numbers.UIntValueToString` | components/jsoncpp/json_writer.cpp:110-116 | The decimal text of every uint64, from a 25-byte buffer |
| `Numbers.IntValueToString` | components/jsoncpp/json_writer.cpp:94-108 | The decimal text of every int64, the smallest included, without overflow |
| `Numbers.DecodeNumber` | components/jsoncpp/json_reader.cpp:547-588 | The digit loop, in 64-bit arithmetic that never overflows, gives the exact integer if the value of the digits fits and otherwise hands over to the double conversion |
| `Numbers.DecodeNumberStrict` | components/jsoncpp/json_reader.cpp:1562-1640 | The same for the other reader's decoder with its own thresholds |
| `Numbers.OverflowTest` | components/jsoncpp/json_reader.cpp:564-581 | The threshold test rejects exactly the tokens whose value exceeds the maximum |
| `Numbers.IntegerRoundTrip` | components/jsoncpp/json_writer.cpp:94-116 | Both decoders invert the decimal text on all int64 and uint64 values |
| `Numbers.NoLeadingZero` | components/jsoncpp/json_tool.h:67-87 | Decimal texts have no leading zero |
| `Numbers.DecodersAgree` | components/jsoncpp/json_reader.cpp:1562-1640 | On every token the two decoders give the same integer or none, and differ only in the tag of 2^31 to 2^63-1 |
| `Numbers.LoneMinus` | components/jsoncpp/json_reader.cpp:562-582 | A lone minus sign is the integer zero |
| `LexerTheorems.TokensOfSuffix` | components/jsoncpp/json_reader.cpp:238-307 | Tokens do not depend on the text before them |
| `LexerTheorems.TokensOfSlice` | components/jsoncpp/json_reader.cpp:238-307 | The tokens of a slice that starts and ends at token borders are the tokens of the whole document there |
| `LexerTheorems.TokensOfCut` | components/jsoncpp/json_reader.cpp:238-307 | The tokens of a document cut at any byte are a prefix of its tokens, followed only by tokens with which no member can start |
| `LexerTheorems.BlockComment` | components/jsoncpp/json_reader.cpp:384-391 | A comment opened with a star is one token up to the first star with a slash after it, whatever follows |
| `LexerTheorems.UnclosedComment` | components/jsoncpp/json_reader.cpp:384-391 | At the end of the text a final slash alone closes it, and without one it is an error |
| `LexerTheorems.LineComment` | components/jsoncpp/json_reader.cpp:393-407 | A line comment is one token up to and including LF, CR LF or CR |
| `ReaderClass.Reader.SkipSpaces` | components/jsoncpp/json_reader.cpp:309-317 | The loop stops where the scanner function says, inside the document |
| `ReaderClass.Reader.Match` | components/jsoncpp/json_reader.cpp:319-328 | Advances over the literal or fails and leaves the cursor |
| `ReaderClass.Reader.ReadComment` | components/jsoncpp/json_reader.cpp:330-351 | Both comment forms, including the final slash that closes a comment at the end of the text |
| `ReaderClass.Reader.ReadCStyleComment` | components/jsoncpp/json_reader.cpp:384-391 | The search for the end of a comment, with its behaviour at the end of the text |
| `ReaderClass.Reader.ReadCppStyleComment` | components/jsoncpp/json_reader.cpp:393-407 | A line comment ends after LF, CR or CR LF |
| `ReaderClass.Reader.ReadNumber` | components/jsoncpp/json_reader.cpp:409-429 | The number scanner over digits, fraction and exponent |
| `ReaderClass.Reader.ReadString` | components/jsoncpp/json_reader.cpp:431-441 | The string scanner, a backslash protecting the next character |
| `ReaderClass.Reader.ReadToken` | components/jsoncpp/json_reader.cpp:238-307 | Each call removes the first token from the list of tokens left; the cursor stays inside the document |
| `ReaderClass.Reader.SkipCommentTokens` | components/jsoncpp/json_reader.cpp:228-236 | Leaves the cursor behind the first token that is not a comment when comments are allowed |
| `ReaderClass.Reader.RecoverFromError` | components/jsoncpp/json_reader.cpp:741-752 | Recovery adds no error, ends inside the document and stops after the wanted token or the end |
| `ReaderClass.Reader.ReadValue` | components/jsoncpp/json_reader.cpp:151-226 | For every text, feature set and node stack: terminates, leaves the cursor in range (the dropped-null un-read included), restores the stack height, and has the value, errors and remaining tokens of the recursive specification |
| `ReaderClass.Reader.ReadObject` | components/jsoncpp/json_reader.cpp:443-497 | The member loop equals the specification on every token list, with its comment and empty-key behaviour |
| `ReaderClass.Reader.ReadArray` | components/jsoncpp/json_reader.cpp:499-535 | The element loop equals the specification on every token list |
| `ReaderClass.Reader.Parse` | components/jsoncpp/json_reader.cpp:112-149 | The whole parse equals the specification and leaves exactly the root on the node stack |
| `ReaderSpec.ReadValue` | components/jsoncpp/json_reader.cpp:151-226 | Exactly one error when the read fails and none otherwise; never more tokens left than given |
| `ReaderSpec.ReadMembers` | components/jsoncpp/json_reader.cpp:443-497 | A failing member list reports exactly one error, at whatever depth it arose |
| `ReaderSpec.ReadElements` | components/jsoncpp/json_reader.cpp:499-535 | A failing element list reports exactly one error, at whatever depth it arose |
| `ReaderTheorems.ErrorsAgree` | components/jsoncpp/json_reader.cpp:130-149 | Parse succeeds exactly when the error list is empty; at most one error with strictRoot off; two exactly when strictRoot is on and a failed read left no array or object |
| `ReaderTheorems.TwoErrors` | components/jsoncpp/json_reader.cpp:137-147 | With strictRoot on two errors do occur |
| `ReaderTheorems.ErrorsAreJustified` | components/jsoncpp/json_reader.cpp:151-226 | On every run each error names a token that cannot stand there for the reason reported: a missing colon one that is no colon, a bad string one that does not decode with that cause, and so on for all eight kinds |
| `ReaderTheorems.ParsedIsSorted` | components/jsoncpp/json_value.cpp:1233-1247 | Every object anywhere in a parsed document has its member names in strictly ascending byte order |
| `FastWriters.FastWriter.Write` | components/jsoncpp/json_writer.cpp:373-379 | The document is the compact text of the value, whatever was in the writer before |
| `FastWriters.FastWriter.WriteValue` | components/jsoncpp/json_writer.cpp:381-432 | Appends the compact text of the value and nothing else |
| `FastTheorems.FastLexes` | components/jsoncpp/json_writer.cpp:373-432 | The tokens of the compact document are the spelling of the value, for every value without doubles and all options that keep null |
| `FastTheorems.DocumentIsTokens` | components/jsoncpp/json_writer.cpp:373-432 | For every value and all options: the text is the tokens of the value with nothing between them, but for the blank after a colon with yaml and the empty text of a dropped null, and then one line feed unless it is omitted |
| `RoundTrip.ReadsBack` | components/jsoncpp/json_reader.cpp:112-226 | Any document whose tokens spell a value is read back as its canonical form without error if the value is at most 1000 deep, and the reader aborts if it is deeper |
| `Forms.AcceptedIff` | components/jsoncpp/json_reader.cpp:112-226 | For every text and every feature set, comments and dropped nulls included: the reader accepts if and only if the tokens begin with a tree of the right form whose scalars and names can be decoded and which is at most 1000 deep |
| `Forms.ReadsWritten` | components/jsoncpp/json_reader.cpp:151-535 | A text that begins with such a tree is accepted under exactly these conditions, is read as the meaning of the tree, and makes the reader abort if it is readable but too deep |
| `Strictness.StrictIsJsonIff` | components/jsoncpp/json_features.h:32-38 | In strict mode what is read of a text is JSON as RFC 8259 defines it if and only if it contains no comment, no comma with a closing brace after it, and only numbers and strings of the RFC |
| `Strictness.StrictTakesComments` | components/jsoncpp/json_reader.cpp:443-454 | The strict mode accepts {} with a comment between the braces, although comments are forbidden |
| `Strictness.StrictIgnoresTheRest` | components/jsoncpp/json_reader.cpp:130-149 | The strict mode accepts {} with a closing bracket after it |
| `Syntaxes.ReadsSpelling` | components/jsoncpp/json_reader.cpp:112-226 | A document whose tokens spell a tree is accepted exactly when every scalar and name in the tree can be decoded and the tree is at most 1000 deep, and then it is read as the meaning of the tree |
| `Grammar.ReadsGrammar` | components/jsoncpp/json_reader.cpp:112-226 | On every text of RFC 8259, with any escapes, numbers and white space, the reader succeeds exactly when each number denotes something, each high surrogate escape is followed by another escape and the nesting is at most 1000, and then gives the value the text denotes by the tables of the RFC |
| `Grammar.StringDecodes` | components/jsoncpp/json_reader.cpp:628-730 | Decoding a string of the grammar succeeds exactly when surrogates are paired, and gives the bytes it denotes by the RFC's own table of escapes and hexadecimal digits |
| `Grammar.NumberMeans` | components/jsoncpp/json_reader.cpp:547-588 | A number of the grammar is decoded as its exact integer if it has no fraction or exponent and fits, and otherwise as the double that the library reads |
| `Grammar.LoneSurrogateIsRefused` | components/jsoncpp/json_reader.cpp:681-704 | A text the grammar allows and the reader refuses: a lone high surrogate |
| `RoundTrip.FastRoundTrip` | components/jsoncpp/json_writer.cpp:373-432 | Reading what FastWriter wrote gives the canonical form of the value: cleaned strings and re-tagged integers, for every value without doubles |
| `RoundTrip.SameIffValid` | components/jsoncpp/json_writer.cpp:373-432 | The canonical form is the value itself up to integer tags exactly when all its strings and names are valid UTF-8 |
| `RoundTrip.RewriteIsStable` | components/jsoncpp/json_writer.cpp:373-432 | For valid UTF-8 the value comes back with integers tagged signed up to 2^31-1 and unsigned above, and writing it again gives the same text |
| `RoundTrip.NumericName` | components/jsoncpp/json_reader.cpp:460-468 | With numeric keys an unquoted integer names the member with its own text |
| `StyledWriters.StyledWriter.Write` | components/jsoncpp/json_writer.cpp:926-940 | The pretty document, with the indentation restored to nothing at the end |
| `StyledWriters.StyledWriter.WriteValue` | components/jsoncpp/json_writer.cpp:941-1002 | Appends the pretty text of the value, restores `indentString_` and tracks `indented_` |
| `StyledWriters.StyledWriter.WriteArrayValue` | components/jsoncpp/json_writer.cpp:1004-1052 | Single-line or multi-line array text; the indentation is restored |
| `StyledWriters.StyledWriter.IsMultilineArray` | components/jsoncpp/json_writer.cpp:1054-1079 | Whenever an array is called single-line there is exactly one pushed child string per element, the text of that element |
| `StyledTheorems.WritersAgree` | components/jsoncpp/json_writer.cpp:941-1112 | Pretty and compact documents of a value have the same tokens, for any whitespace indentation |
| `StyledTheorems.PrettyRoundTrip` | components/jsoncpp/json_writer.cpp:941-1112 | So the reader reads the pretty document back as it reads the compact one |
| `Layouts.DocumentIsLines` | components/jsoncpp/json_writer.cpp:926-1052 | The pretty document consists of the lines of the value, each indented by its level, a comma at the end of every element but the last: the writer with its indentation string and flag prints exactly these |
| `Layouts.SingleLineIff` | components/jsoncpp/json_writer.cpp:1054-1079 | An array goes on one line exactly when no element has contents, three times its size is below 74 and the line is below 74 characters long, where no 32-bit sum overflows |
| `Offsets.ValueReplay` | components/jsoncpp/json_reader.cpp:151-226 | A successful read depends on the kinds and texts of its tokens only: other positions, other depth and other following text give the same value |
| `Faithfulness.ParsedIsFaithful` | components/jsoncpp/json_reader.cpp:151-226 | After any successful parse without dropped nulls every node has 0 <= start < limit <= length and no white space at either end of its part, children lie strictly inside their parents, siblings do not overlap, and parsing the node's part of the text alone, with any root allowed, succeeds with an equal value |
| `Faithfulness.RereadsStrictlyIff` | components/jsoncpp/json_reader.cpp:137-147 | With the strict root itself exactly the parts of arrays and objects can be parsed again |
| `FeatureTheorems.StrictRootOnlyJudges` | components/jsoncpp/json_reader.cpp:137-147 | The strict root changes nothing but the verdict on a root that is no array or object |
| `FeatureTheorems.StartsInTextIff` | components/jsoncpp/json_reader.cpp:203-215 | After a successful parse some node starts before the text if and only if nulls may be dropped and the document starts, at offset zero, with a comma or a closing bracket or brace |
| `Faithfulness.DroppedNullIsUnfaithful` | components/jsoncpp/json_reader.cpp:203-215 | With dropped null placeholders a node can start before the text |
| `Truncation.CutIsPrefix` | components/jsoncpp/json_reader.cpp:443-497 | The names read from the root object of a document cut at any byte are a prefix of the names of the whole document, for every document and every feature set |
| `Truncation.MemberNamesAreListed` | components/jsoncpp/json_value.cpp:1233-1247 | getMemberNames gives exactly the names read, each once, strictly ascending |
| `ValueOrder.EqualIsEquality` | components/jsoncpp/json_value.cpp:546-586 | On trees without doubles operator== is equality |
| `ValueOrder.Trichotomy` | components/jsoncpp/json_value.cpp:490-538 | Exactly one of <, == and > holds, through nested arrays and objects |
| `ValueOrder.Transitivity` | components/jsoncpp/json_value.cpp:490-538 | operator< is transitive, through nested arrays and objects |
| `ValueOrder.StrictTotalOrder` | components/jsoncpp/json_value.cpp:482-586 | operator< is a strict total order on trees without doubles and compare is 0 exactly on equal values |
| `ValueOrder.TypesAreOrdered` | components/jsoncpp/json_value.cpp:490-494 | Values of different types are ordered by type: null, int, unsigned, real, string, boolean, array, object |
| `ValueOrder.ScalarsAreOrdered` | components/jsoncpp/json_value.cpp:495-526 | Integers compare by value, false is before true, strings compare at their first differing byte or by prefix |
| `ValueOrder.ContainersAreOrdered` | components/jsoncpp/json_value.cpp:527-534 | Containers compare by size and then by the first entry that differs, names before values |
| `Values.KeyTrichotomy` | components/jsoncpp/json_value.cpp:295-310 | Exactly one of <, equality and > holds of two keys |
| `Values.KeyTransitive` | components/jsoncpp/json_value.cpp:295-310 | The key order is transitive |
| `Values.KeyEqualIsEquality` | components/jsoncpp/json_value.cpp:312-324 | operator== of keys is equality of their bytes |
| `ArrayValues.ArrayValue.Size` | components/jsoncpp/json_value.cpp:859-880 | The highest index plus one, with or without holes |
| `ArrayValues.ArrayValue.Touch` | components/jsoncpp/json_value.cpp:925-939 | Indexing adds an empty entry at most, and may leave a hole |
| `ArrayValues.ArrayValue.Append` | components/jsoncpp/json_value.cpp:1126-1135 | On any array, with holes or without: one entry is added, one past the highest index |
| `ArrayValues.ArrayValue.MoveTo` | components/jsoncpp/json_value.cpp:1145-1147 | Move-assignment between two entries swaps them, after inserting what is missing |
| `ArrayValues.ArrayValue.Insert` | components/jsoncpp/json_value.cpp:1137-1153 | On any array: the entries from the index on move up by one and their holes are filled; refuses exactly the indices past the end |
| `ArrayValues.ArrayValue.RemoveIndex` | components/jsoncpp/json_value.cpp:1198-1220 | On any array: the entry is returned, those above it move down by one and their holes are filled; refuses exactly the missing indices |
| `ArrayValues.ArrayValue.Resize` | components/jsoncpp/json_value.cpp:905-923 | On any array: which entries remain, what is filled in, and that the final assertion holds exactly when the last kept index is present |
| `ArrayValues.AppendIsSequenceAppend` | components/jsoncpp/json_value.cpp:1126-1135 | Without holes appending is appending to the stored sequence, and leaves no hole |
| `ArrayValues.InsertIsSequenceInsert` | components/jsoncpp/json_value.cpp:1137-1153 | Without holes insert is insertion into the stored sequence, and leaves no hole |
| `ArrayValues.RemoveIsSequenceRemove` | components/jsoncpp/json_value.cpp:1198-1220 | Without holes removeIndex is removal from the stored sequence, and leaves no hole |
| `ArrayValues.ResizeIsSequenceResize` | components/jsoncpp/json_value.cpp:905-923 | Without holes resize truncates or pads the sequence and the assertion always holds |
| `ArrayValues.ResizeCanFail` | components/jsoncpp/json_value.cpp:905-923 | Resizing an array with entries 0 and 5 to 3 fails its own assertion |
| `ArrayValues.ArrayValue.Fill` | components/jsoncpp/json_value.cpp:925-939 | Assigning through operator[] with indices counted up from zero stores the values in order, without holes |
| `ArrayReads.SlotsAreElements` | components/jsoncpp/json_reader.cpp:499-535 | The element loop that reads each element into the entry made by the next index goes exactly as the reader's element loop, and its map stores the same elements |
| `ArrayReads.ReadArraysAreDense` | components/jsoncpp/json_reader.cpp:499-535 | Every array the reader builds, from any tokens and at any depth, is without holes |
| `Crc8.Sen5xCrc8` | main/sensors.c:20-30 | The nested loops compute the register of the message, for any length |
| `Crc8.RegisterLinear` | main/sensors.c:20-30 | The register of a changed message differs by the register of the change |
| `Crc8.AcceptedIffZero` | main/sensors.c:96 | A word matches its CRC exactly when the register over both is zero |
| `Crc8.UnseenIff` | main/sensors.c:96 | A change to an accepted word goes unseen exactly when the register of the change is zero, whatever the word |
| `Crc8.OddErrorIsSeen` | main/sensors.c:20-30 | Changing an odd number of bits of an accepted word of any length is always seen |
| `Crc8.BurstIsSeen` | main/sensors.c:20-30 | Changing bits within eight consecutive ones of an accepted word of any length is always seen |
| `Crc8.FewChangesAreSeen` | main/sensors.c:91-97 | In a two-byte word with its CRC one, two or three changed bits are always seen |
| `Crc8.FourChangesCanBeUnseen` | main/sensors.c:20-30 | Four changed bits can go unseen in every accepted word |
| `Crc8.CheckValue` | main/sensors.c:20-30 | The register is initialised so that BE EF has the CRC 92 |
| `Crc8.Measurement.Decode` | main/sensors.c:91-108 | Succeeds exactly when all eight words match their CRCs, then holds the eight scaled words; otherwise nothing is written |
| `Crc8.ChangedFrameIsRejected` | main/sensors.c:91-108 | A good frame with a detectable change in any word is rejected, whatever happened to the other words |
| `Crc8.WordValueKeepsBytes` | main/sensors.c:97 | The 16-bit value determines both bytes |
| `ReceiveBuffers.ResponseBuffer.Handle` | components/esp_firebase/app.cpp:31-74 | What each HTTP event does to the buffer, without ever writing outside it |
| `ReceiveBuffers.ResponseBuffer.Copy` | components/esp_firebase/app.cpp:58-66 | The bounded copy and its terminator; every other byte stays |
| `ReceiveBuffers.ResponseBuffer.Clear` | components/esp_firebase/app.cpp:173-177 | The whole buffer is zero and the length is zero |
| `ReceiveBuffers.ResponseBuffer.Text` | components/esp_firebase/rtdb.cpp:278-279 | The C string in the buffer |
| `ReceiveBuffers.BufferHoldsSinceReset` | components/esp_firebase/app.cpp:30-74 | After every sequence of events the buffer starts with the first min(n, 16383) of the n bytes received since the last reset, and a terminator |
| `ReceiveBuffers.HoldsRun` | components/esp_firebase/app.cpp:56-67 | A response is appended to the bytes pending since the last reset, however it is split, up to the capacity |
| `ReceiveBuffers.ResponseText` | components/esp_firebase/app.cpp:38-67 | The text read after a response for every buffer and every split: on a new connection the C string of its first 16383 bytes, on the same connection that of the pending bytes and the response run together, and the old text if both are empty; finishing changes nothing |
| `ReceiveBuffers.TextIsResponseIff` | components/esp_firebase/app.cpp:38-67 | The text read is the response if and only if the connection was opened for it, or nothing is pending on the connection and the response is not empty or follows no text; after pending bytes that fit with it the text is both run together and never the response |
| `ReceiveBuffers.StaleText` | components/esp_firebase/app.cpp:52-55 | One response is read again as the next one, which was empty and came on the same connection |
| `PatchBodies.BuildPatchBody` | components/esp_firebase/rtdb.cpp:288-295 | The loop builds the body with one member per name, in order |
| `PatchBodies.PatchNamesItsKeys` | components/esp_firebase/rtdb.cpp:288-295 | A JSON reader finds exactly the intended names in the body if and only if none contains a quote or a backslash |
| `PatchBodies.PatchIsNullObject` | components/esp_firebase/rtdb.cpp:288-295 | For such names in ascending order the body is the object that maps each of them to null |
| `PatchBodies.OneNameDeletesTwo` | components/esp_firebase/rtdb.cpp:288-295 | A single name with quotes in it makes the body delete two other entries |
| `FirebaseClient.FirebaseApp.PerformRequest` | components/esp_firebase/app.cpp:105-170 | The retry loop equals the bounded recursion about which the theorems speak |
| `FirebaseClient.FirebaseApp.Deliver` | components/esp_firebase/app.cpp:146-147 | Receiving one response through the event handler, with no event that the library did not send |
| `FirebaseClient.FirebaseApp.Exchange` | components/esp_firebase/app.cpp:115-147 | One attempt: the request and its reply are recorded, the server carries it out or not, the response is received |
| `FirebaseClient.FirebaseApp.GetAuthToken` | components/esp_firebase/app.cpp:228-264 | The token changes exactly when the service answers 200 |
| `FirebaseClient.FirebaseApp.GetRefreshToken` | components/esp_firebase/app.cpp:188-227 | The refresh token changes exactly when the service answers 200 |
| `FirebaseClient.FirebaseApp.LoginUserAccount` | components/esp_firebase/app.cpp:309-333 | Both tokens in turn, stopping at the first failure |
| `FirebaseClient.FirebaseApp.ForceRefreshAuth` | components/esp_firebase/app.cpp:359-368 | Direct refresh, then a full login if that fails |
| `FirebaseClient.FirebaseApp.PutData` | components/esp_firebase/rtdb.cpp:77-99 | Equals the specification of a PUT, with its repetition after 401 |
| `FirebaseClient.FirebaseApp.DeleteData` | components/esp_firebase/rtdb.cpp:174-223 | Equals the specification of a DELETE, with its repetition after 401 |
| `FirebaseClient.FirebaseApp.TrimOldestBatch` | components/esp_firebase/rtdb.cpp:266-307 | Equals the specification of a trim, the response being parsed by the Reader object |
| `FirebaseClient.FirebaseApp.TrimDays` | components/esp_firebase/rtdb.cpp:225-263 | Equals the specification of trimming by day |
| `FirebaseTheorems.PerformSettles` | components/esp_firebase/app.cpp:105-170 | Any number of attempts, replies and losses carries a request out entirely or not at all, and success means that it was carried out |
| `FirebaseTheorems.RefreshIsAside` | components/esp_firebase/app.cpp:359-368 | A refresh sends at most fifteen requests, none to the database, and leaves the database alone |
| `FirebaseTheorems.PutIsAllOrNothing` | components/esp_firebase/rtdb.cpp:77-99 | For every sound server: the database is unchanged or has exactly path := json, OK only in the latter case, at most 25 requests, those after the refresh with the token then current |
| `FirebaseTheorems.PutExactly` | components/esp_firebase/rtdb.cpp:77-99 | For every server the value is written if and only if an attempt of the call was applied; if a sound server's call fails, every such attempt had its reply lost or was answered by a 2xx other than 200 |
| `FirebaseTheorems.ReliableResult` | components/esp_firebase/rtdb.cpp:77-99 | If every reply arrives and every 2xx is a 200, the result is OK exactly when the value was written |
| `FirebaseTheorems.DeleteIsAllOrNothing` | components/esp_firebase/rtdb.cpp:174-223 | Either nothing changes or exactly the path and what is below it disappears; success means the latter |
| `FirebaseTheorems.DeleteExactly` | components/esp_firebase/rtdb.cpp:174-223 | For every server the subtree disappears if and only if an attempt was applied; if the call fails, every such attempt had its reply lost |
| `FirebaseTheorems.PutAgainAfter401` | components/esp_firebase/rtdb.cpp:85-91 | After a 401 the token service is asked and the PUT is sent again with the token then current |
| `FirebaseTheorems.RefreshOutcome` | components/esp_firebase/app.cpp:359-368 | A failed refresh leaves the token as it was; after a successful one the last request went to the token service and was answered 200, and the token is the one read from that response, if it was not empty or had its own connection |
| `FirebaseTheorems.AuthOutcome` | components/esp_firebase/app.cpp:228-264 | The same for one token request: on success the token is read from the text in the buffer, which is the start of that response |
| `FirebaseTheorems.LostReplies` | components/esp_firebase/rtdb.cpp:77-99 | When every reply is lost the value is written and the result is a failure |
| `FirebaseTheorems.NoContentIsFailure` | components/esp_firebase/rtdb.cpp:93-98 | No reply need be lost: a server that answers 204 ends the retry loop as a success, and putData reports a failure |
| `Protocols.RequestIsTried` | components/esp_firebase/app.cpp:105-170 | For every server: every request is sent one to five times, every answer but the last is no 2xx, it ends at the first 2xx or after five attempts, and the result is that of the last answer |
| `Protocols.FiveAttemptsOrSuccess` | components/esp_firebase/app.cpp:150-170 | A request that does not succeed was sent exactly five times; it succeeds if and only if some recorded answer is a 2xx, which is then the last |
| `Protocols.NothingIsSent` | components/esp_firebase/app.cpp:105-114 | Without a client nothing is sent and the request fails |
| `Protocols.LoginFollows` | components/esp_firebase/app.cpp:309-333 | A login is a login request and, exactly if it was answered 200, a token request with the refresh token it brought |
| `Protocols.RefreshFollows` | components/esp_firebase/app.cpp:359-368 | A refresh is a token request with the current refresh token and, exactly if it was not answered 200, a full login |
| `Protocols.PutFollows` | components/esp_firebase/rtdb.cpp:77-99 | A PUT is sent with the current token and, exactly if the last answer was 401, again after a refresh with the token then current; OK exactly when the last answer was 200 |
| `Protocols.DeleteFollows` | components/esp_firebase/rtdb.cpp:174-223 | The same for a DELETE, which is OK exactly when the last answer was a 2xx |
| `Protocols.TrimFollows` | components/esp_firebase/rtdb.cpp:266-307 | A trim sends the listing and, exactly if that was answered 200 and names were found, one PATCH with all of them; the result is their number, or -2, 0 or -1 as the requests went |
| `Protocols.TrimSendsItsPatch` | components/esp_firebase/rtdb.cpp:284-306 | For every server a trim that finds names asks to delete all of them, and counts them exactly when the last answer is a 2xx |
| `Protocols.TrimDaysOtherwise` | components/esp_firebase/rtdb.cpp:225-248 | Trimming by day without a limit does nothing, and without a listing deletes nothing and fails |
| `TrimTheorems.CutNamesAreStored` | components/esp_firebase/rtdb.cpp:278-286 | Wherever the listing is cut and whatever its order, only stored names are found, in ascending order |
| `TrimTheorems.FoundAreOldestIff` | components/esp_firebase/rtdb.cpp:278-286 | The names found in a listing, cut anywhere, are the oldest stored ones if and only if every listed name that was cut off is newer than every name found |
| `TrimTheorems.CutNamesAreOldest` | components/esp_firebase/rtdb.cpp:278-286 | So the oldest names are found if the listing fits the buffer, in any order, or has its names in key order |
| `TrimTheorems.TrimDeletesOldest` | components/esp_firebase/rtdb.cpp:266-307 | For every sound server, every chunking and a library that reconnects after an unfinished response: the PATCH names only stored entries, and the oldest if long listings are in key order; with names free of quotes and backslashes a positive result is the exact number of entries gone, and 0 or -1 means that none is |
| `TrimExamples.UnfinishedMisleads` | components/esp_firebase/app.cpp:56-67 | Wherever the library does not reconnect after an unfinished response, some sound server makes the device name an entry that is not stored |
| `TrimExamples.ReconnectingIsExact` | components/esp_firebase/app.cpp:56-67 | Trims name stored entries only, with every sound server and from every state, if and only if the library reconnects after each unfinished response |
| `TrimExamples.LongListingMisleads` | components/esp_firebase/rtdb.cpp:278-286 | A sound listing that is too long and out of order: the newer of two entries is the one found |
| `TrimDaysTheorems.SortIsIdentity` | components/esp_firebase/rtdb.cpp:253 | Sorting names that are already ascending changes nothing |
| `TrimDaysTheorems.NamesAscend` | components/esp_firebase/rtdb.cpp:249-253 | The names of any response are strictly ascending, so the sort changes nothing |
| `TrimDaysTheorems.TrimDaysDeletesSmallest` | components/esp_firebase/rtdb.cpp:249-261 | The requests after the listing delete the size - max_days smallest names, every one of them and nothing else |
| `Timestamps.KeysAreChronological` | main/main.c:195-199 | Within a century two keys compare bytewise as the instants they stand for, and are equal only for equal times |
| `Timestamps.InstantOrder` | main/main.c:195-199 | Calendar order is order in seconds, over month lengths and leap years |
| `Timestamps.KeysArePlain` | main/main.c:195-199 | A key contains no quote or backslash |
| `Timestamps.KeyFields` | main/main.c:195-199 | A key reads YY-MM-DD_hh-mm-ss, each field in two decimal digits |
| `Batching.SensorTask.Round` | main/main.c:114-226 | One round of the loop: what is accumulated, what record is produced, what is reset |
| `Batching.BatchesPartitionTheSamples` | main/main.c:114-226 | Over every sequence of readings and failures the records are one per consecutive group of five successful readings, in order: five times each averaged field is the sum of that field over the group, CO2 is the floor of its mean without overflow, and there is a date exactly when it changed |
| `Batching.MeanBetween` | main/main.c:157 | The CO2 mean lies between the smallest and the largest reading of its group |
| `Batching.DatesAreReconstructed` | main/main.c:164-189 | Carrying the latest date forward gives the date of every record produced |
| `Batching.DateIsRightIffIntroduced` | main/main.c:164-202 | When records are lost on the way, the date told for a record is right exactly when the record that introduced its date was not lost, if dates do not come back |
| `Retention.RetentionLoop.Store` | main/main.c:202-221 | One batch: PUT, average, counter with 32-bit wrap, and the trim it may trigger |
| `Retention.StepIsSafe` | main/main.c:202-221 | One batch keeps the invariant: no more items than the counter, plain names, cleared buffer |
| `Retention.CounterIsRightIff` | main/main.c:99-221 | Over all runs of fewer than 2^32 batches, against every sound server and whatever becomes of each request, no more items are stored than the counter says, if and only if the history was empty after the delete at the start |
| `Retention.StartsEmptyIff` | main/main.c:99 | The history is empty after that delete exactly when it was empty before or an attempt was applied; a reported success suffices, and a reported failure was applied only if a reply was lost |
| `Retention.CounterIsNeverTooLow` | main/main.c:99-221 | So if the delete at the start reported success the counter is never below the number of stored items |
| `Retention.CounterIsBounded` | main/main.c:204-221 | If every text has length at least lo and every triggered trim deletes something, the counter never exceeds floor(10 MiB / lo) + 50 |
| `Retention.NoEarlyTrim` | main/main.c:204-215 | Texts that fit their buffer trigger no trim in the first 27427 batches: such a run only stores |
| `Retention.DeletedIsOlder` | components/esp_firebase/rtdb.cpp:266-307 | A stored batch among the oldest names is older in time than a stored batch that is not |
| `Retention.TrimsRemoveOldest` | main/main.c:195-221 | In every run from an empty history every stored item is a batch, and whatever a batch's trim removes is older in time than everything that remains, whatever the trim returned |
| `Retention.RefusedDeleteMisleads` | main/main.c:99 | The result of the first delete is not looked at: if it is refused and items are stored, the counter starts below their number |
| `Counters.StoreBatchIs` | main/main.c:202-221 | One batch: ten times the new average is nine times the old and the text's length; the counter goes up by one; exactly above the high-water mark a trim of 50 follows, and a positive result not above the counter is taken off it |
| `Counters.CounterIsBalance` | main/main.c:202-221 | Over every run the counter is what it was plus the number of batches less the sum of the positive trim results |
| `Counters.CounterIsExact` | main/main.c:99-221 | From an empty history, if every reply arrives, every PUT succeeds and no two batches have the same time, the counter is exactly the number of stored items |
| `Counters.FailedTrimChangesNothing` | components/esp_firebase/rtdb.cpp:284-306 | If every reply arrives, a trim that reports a failed PATCH deleted nothing |

## Left out

- Doubles: reading and printing them is a parameter (`parseDouble`, `doubleText`), comparing them is a parameter of the value order, and the round trips are for values without doubles; averages and sensor scaling are over real numbers instead of `float` and `double`.
- Comments as data (collecting and placing them), error message texts, and line and column reports.
- Arrays with holes inside a JSON tree: trees have plain lists of elements, and holes exist only in `ArrayValues`; array indices are unbounded instead of 32 bits wide.
- The node stack holds values that are put back into their parent, not references into it; aliasing between a parent and its open child is not modelled.
- The pretty writer with `emitUTF8`, with comments in the value, or with a null symbol other than `null`.
- `StyledWriter`, `StyledStreamWriter`, and the rest of `OurReader` apart from its number decoder: near-copies of what is modelled.
- `Path`, iterators, allocators and the storage of keys.
- `getData`, `postData`, `patchData`, account registration and `firebase_init`: they repeat the request pattern of the operations that are modelled.
- Reading the token fields out of a login response is a parameter (`Fields`); a response on which that would abort is not modelled, nor is the expiry time.
- A database is a map from paths to texts; a PUT over a node with children does not remove the children, which the device never does. A PATCH deletes what its body maps to null; what other values in it would write is not modelled. Headers, time-outs, TLS and delays are not modelled.
- A listing nested more than 1000 deep stops the device; `TrimOldestBatch` and `TrimDays` then send nothing.
- The date text is taken as given; `strftime` and the 20-byte copies of a 10-character date are not modelled, and neither is the text of the JSON record (its length is a parameter of the retention loop).
- The modem, the I2C transfers, the other sensor, and the timed token refresh of the sampling loop.
