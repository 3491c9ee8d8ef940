# What the JSON, checksum and packet code of the LiDAR SDK guarantees

This project models the two algorithmic libraries that the SDK carries with it, and the packet format that
uses one of them, and proves properties of the models.

* **JSON (`3rdparty/rapidjson`).** The reader has two parsers for one grammar. `Grammar.dfy` states the
  recursive-descent parser and `Automaton.dfy` the table-driven one as functions from a cursor to an outcome;
  `Equivalence.dfy` proves that they agree and `Discipline.dfy` that the automaton's stack, which never records
  which bracket opened a container, always mirrors the open containers. `Json.dfy` states the grammar of RFC 8259
  as derivation trees with literal code points, without any routine of the parsers; `JsonAccepted.dfy` proves that
  both parsers accept exactly the derived texts and tell their handler the derived value. Its two directions are in
  `JsonParsed.dfy` and `JsonDerived.dfy`, with white space and strings in `JsonScanned.dfy` and numbers in
  `JsonNumbers.dfy`; `JsonErrors.dfy` says what stands where each error is reported. `TokenLoop.dfy` is the loop
  over the token-by-token interface, which goes on behind a malformed comment. `Reader.dfy` holds the reader as it
  runs, with cursor, stack, handler and error field; every method is proved against those functions.
  `Insitu.dfy` is the decoding of strings inside the buffer they are read from, `InsituDocument.dfy` both parsers
  over such a buffer; `Locality.dfy` proves that no routine looks back. `Numbers.dfy` and `Strings.dfy` are the
  literals. `Utf8.dfy` and `Utf8Streams.dfy` are the codecs. `Values.dfy`, `Document.dfy`, `DocumentClass.dfy` and
  `ParsedDocument.dfy` are the DOM and the handler that builds it, `Rendering.dfy` and `Writer.dfy` the two
  writers; `RoundTrip.dfy` proves that printing and parsing are inverse, by deriving what is printed, and
  `Layout.dfy` the law of indentation of a finished text. `ValueEquality.dfy` is `operator==`.
* **JSON Pointer.** `PointerText.dfy` (text in both representations), `PointerGrammar.dfy` (the grammar of RFC 6901
  with literal code points, and that the parser accepts exactly its texts), `PointerClass.dfy` (the parser over its
  name buffer) and `PointerTree.dfy` (`Get`, `Create` and `Set` on trees).
* **The pool allocator.** `MemoryPool.dfy`.
* **Checksums (`3rdparty/FastCRC`).** `Division.dfy` is polynomial division one message bit at a time, with its
  error detection; `Slicing.dfy` and `Tables.dfy` prove that the tables compute it, an octet or a word at a
  time; `TableLiterals.dfy` holds the literal tables; `FastCRC.dfy` holds the classes with their three-phase loops,
  and `CheckValues.dfy` their published check values. `Words.dfy` keeps the bit operations behind a few laws.
* **Packets (`sdk_core/comm`).** `Packet.dfy`.

Streams are sequences of bytes followed by zeros past their end. A handler is a predicate on the events it has
received, so every theorem about the parsers holds for handlers that refuse at any point. A double is carried as
the text of its literal, which by itself must be read as that double; whether a literal overflows is a parameter. What the base allocator answers is a
parameter too. Words are loaded little-endian, and `size_t` has 64 bits.

The reader takes some liberties with RFC 8259, and they are part of the grammar: octets from 0x80 on are taken as
they are, an escaped lead surrogate needs an escaped trail surrogate behind it, a number may be too big, comments and
trailing commas are there if their flags are set, and a text ends at its first zero.

Where the code and its comments disagree the model follows the code: `mcrf4xx` starts from 0, not 0xffff; an
object with a duplicated member name may equal another, although the comment on `operator==` says it never does;
the overflow test for numeric pointer tokens misses some numbers from 2^32 on; the token-by-token interface does not
stop at a malformed comment. For each of the last three a theorem says exactly when the promise holds.

## Model

| member | source | states |
|---|---|---|
| `JsonAccepted.AcceptsJson` | Livox-SDK2/3rdparty/rapidjson/reader.h:615-646 | For every text and flag setting (but the one to stop when the root is done) and a handler that never refuses: both parsers accept exactly the texts that the grammar of RFC 8259 derives, white space being any run of 0x20, 0x09, 0x0A and 0x0D (and comments, with their flag), stop at their end, and tell the handler exactly the derived value |
| `JsonParsed.ValueAccepted` | Livox-SDK2/3rdparty/rapidjson/reader.h:1872-1896 | The text of any derivation, wherever it stands and with any liberty of white space inside, is read to its end with the events of the derived value |
| `JsonDerived.ValueDerived` | Livox-SDK2/3rdparty/rapidjson/reader.h:1872-1896 | Whatever is read as a value, under any flags and handler, is the text of a derivation, and what was sent are its events |
| `JsonAccepted.DocumentDerived` | Livox-SDK2/3rdparty/rapidjson/reader.h:615-646 | Whatever is accepted as a whole text, by any handler, is derived: a value with white space and comments around it, up to the end or the first zero |
| `JsonAccepted.Unambiguous` | Livox-SDK2/3rdparty/rapidjson/reader.h:615-646 | All derivations of what stands in a buffer have the same text and the same events |
| `JsonAccepted.LineEnds` | Livox-SDK2/3rdparty/rapidjson/reader.h:290-296 | A text with carriage returns in front of its line feeds is accepted, as any such white space is |
| `JsonScanned.GapsSkipped` | Livox-SDK2/3rdparty/rapidjson/reader.h:770-794 | Any run of spaces and comments of the grammar is skipped, up to a character that is neither |
| `JsonScanned.WsDerived` | Livox-SDK2/3rdparty/rapidjson/reader.h:770-794 | All that is skipped is spaces and comments of the grammar; the last may be a line comment that the text ends in |
| `JsonScanned.CharactersScanned` | Livox-SDK2/3rdparty/rapidjson/reader.h:1058-1129 | Every string of the grammar is decoded to the octets its characters stand for: plain, one of the eight short escapes, four hexadecimal digits in either case, or a pair of surrogates |
| `JsonScanned.CharactersDerived` | Livox-SDK2/3rdparty/rapidjson/reader.h:1058-1129 | Whatever is decoded is such a string, and its bytes are those octets |
| `JsonNumbers.NumberScanned` | Livox-SDK2/3rdparty/rapidjson/reader.h:1584-1869 | Every number of the grammar that is not too big is read, with either exponent mark and sign, as the integer it spells in the narrowest type or as the double of its text |
| `JsonNumbers.NumberDerived` | Livox-SDK2/3rdparty/rapidjson/reader.h:1584-1869 | Whatever is read as a number is one of the grammar that is not too big |
| `JsonErrors.ParseExplained` | Livox-SDK2/3rdparty/rapidjson/reader.h:615-646 | Every refusal says the truth: for each error code what stands, or does not stand, in the text at the reported offset, or that the handler refused the events sent |
| `Equivalence.ParsersAgree` | Livox-SDK2/3rdparty/rapidjson/reader.h:615-646 | For every input, flag setting and handler the two parsers accept the same texts, stop at the same place and send the same events, also on the way to an error; code and offset of an error are the same except for a stray delimiter at the root (DocumentEmpty instead of ValueInvalid) and the offset of a refusal by the handler, which may be one less |
| `Equivalence.ValueSim` | Livox-SDK2/3rdparty/rapidjson/reader.h:1872-1896 | In any state that waits for a value, the rest of the automaton's run is the recursive reading of that value followed by the rest of the run from the state it returns to; or both fail alike |
| `Equivalence.ArraySim` | Livox-SDK2/3rdparty/rapidjson/reader.h:869-913 | The same for an opened array, with the stack and the count of commas the automaton has at that point |
| `Equivalence.MembersSim` | Livox-SDK2/3rdparty/rapidjson/reader.h:798-866 | The same from the name of any member of an object on, trailing commas included |
| `Discipline.TurnDisciplined` | Livox-SDK2/3rdparty/rapidjson/reader.h:2192-2350 | One token keeps this: every frame on the stack mirrors one container that the events sent so far leave open, and the state belongs to the innermost of them, although the stack never records a bracket kind |
| `Discipline.ReachableStack` | Livox-SDK2/3rdparty/rapidjson/reader.h:2401-2433 | In every configuration the loop can reach: two numbers for each open container, return state Start at the bottom, Element above an array and MemberValue above an object; Finish only with an empty stack and every bracket closed by its own kind |
| `Automaton.PredictFrom` | Livox-SDK2/3rdparty/rapidjson/reader.h:2013-2186 | Which states each predicted state of the table can come from |
| `Automaton.Transit` | Livox-SDK2/3rdparty/rapidjson/reader.h:2192-2350 | From any stack of well-formed frames a transition never pops what is not there, leaves a stack of well-formed frames that goes with the new state, and moves the cursor forward |
| `ReaderClass.Reader.Parse` | Livox-SDK2/3rdparty/rapidjson/reader.h:615-646 | The recursive parser, run with its cursor, handler and error field, ends with exactly the outcome of the grammar functions, whose language and events JsonAccepted.AcceptsJson states |
| `ReaderClass.Reader.ParseValue` | Livox-SDK2/3rdparty/rapidjson/reader.h:1872-1896 | The dispatch on the first character ends as the reading of a value in the grammar does, whatever the handler refuses on the way |
| `ReaderClass.Reader.ParseObject` | Livox-SDK2/3rdparty/rapidjson/reader.h:798-866 | The loop over members sends the events, counts the members and fails as the recursive description of an object does |
| `ReaderClass.Reader.EndOfMember` | Livox-SDK2/3rdparty/rapidjson/reader.h:832-862 | After a member: comma, closing brace or trailing comma; otherwise the error of the description |
| `ReaderClass.Reader.ParseArray` | Livox-SDK2/3rdparty/rapidjson/reader.h:869-913 | The loop over elements, likewise |
| `ReaderClass.Reader.EndOfElement` | Livox-SDK2/3rdparty/rapidjson/reader.h:893-910 | After an element: comma, closing bracket or trailing comma; otherwise the error of the description |
| `ReaderClass.Reader.ParseLiteral` | Livox-SDK2/3rdparty/rapidjson/reader.h:916-952 | null, true and false: the event, or an error at the first character that differs |
| `ReaderClass.Reader.ParseString` | Livox-SDK2/3rdparty/rapidjson/reader.h:1021-1051 | A decoded string is sent as a name or as a value; an error of decoding or a refusal is reported where the description says |
| `ReaderClass.Reader.IterativeParse` | Livox-SDK2/3rdparty/rapidjson/reader.h:2401-2433 | The table-driven loop ends with the automaton's outcome, keeps the stack discipline at every turn, and succeeds and sends events as the recursive parser does |
| `ReaderClass.Reader.Next` | Livox-SDK2/3rdparty/rapidjson/reader.h:676-728 | One call of the token-by-token interface leaves exactly the rest of the loop to be done and answers as the loop does; with the comment flag too, where it goes on with the error set behind a malformed comment |
| `ReaderClass.Reader.ParseTokenByToken` | Livox-SDK2/3rdparty/rapidjson/reader.h:663-735 | Called until it is complete or fails, it leaves an error exactly when both parsers do; events and answer are theirs exactly when no malformed comment is met, or one that nothing comes of |
| `TokenLoop.TokensAgree` | Livox-SDK2/3rdparty/rapidjson/reader.h:676-728 | For every input, flag setting and handler: the loop agrees with both parsers in events and answer exactly when they report no malformed comment, or behind it stands nothing that the handler hears of (and not the end of the input, if the root value is complete); without one it also ends in the same place, with the same error but for a text of nothing but white space |
| `TokenLoop.DirtyHeard` | Livox-SDK2/3rdparty/rapidjson/reader.h:676-728 | Once an error is set and not looked at, the loop sends something more exactly when a bracket or a whole scalar that is no string stands at the cursor, or behind a comma or colon there |
| `TokenLoop.SlashGoesUnnoticed` | Livox-SDK2/3rdparty/rapidjson/reader.h:677-680 | With the comment flag the text `/[]` is refused by both parsers, while the loop sends an empty array, answers yes and is complete |
| `TokenLoop.SlashMayBeHarmless` | Livox-SDK2/3rdparty/rapidjson/reader.h:677-680 | A malformed comment alone decides nothing: on the text `/` the loop refuses as both parsers do |
| `ReaderClass.Reader.Transit` | Livox-SDK2/3rdparty/rapidjson/reader.h:2192-2350 | The method that pushes, pops and calls the handler does what one step of the automaton does |
| `ReaderClass.Reader.TransitOpen` | Livox-SDK2/3rdparty/rapidjson/reader.h:2203-2230 | Opening a container pushes the state to come back to and a zero count |
| `ReaderClass.Reader.TransitDelimiter` | Livox-SDK2/3rdparty/rapidjson/reader.h:2262-2267 | A comma adds one to the count on top of the stack and touches nothing below it |
| `ReaderClass.Reader.TransitFinish` | Livox-SDK2/3rdparty/rapidjson/reader.h:2269-2325 | Closing pops the count and the return state, counts a last item that no comma followed, sends that count, and goes to Finish instead of back to Start |
| `Equivalence.StuckTurn` | Livox-SDK2/3rdparty/rapidjson/reader.h:2353-2388 | A run that gets stuck, at a token its state has no place for or at the end of the input, ends there with the error of that state and sends nothing more |
| `ReaderClass.Reader.EndTurn` | Livox-SDK2/3rdparty/rapidjson/reader.h:677-694 | A call of the token-by-token interface at the end of the text fails like the whole parse, without moving or sending an event |
| `ReaderClass.Reader.SkipWhitespaceAndComments` | Livox-SDK2/3rdparty/rapidjson/reader.h:770-794 | The loops over white space, block and line comments stop where the recursive description says, with its error for an unclosed comment; what that skips is stated by JsonScanned.GapsSkipped and JsonScanned.WsDerived |
| `ReaderClass.Reader.ParseStringToStream` | Livox-SDK2/3rdparty/rapidjson/reader.h:1058-1129 | The decoding loop gives the bytes, the end and the error of the recursive description of a string literal |
| `ReaderClass.Reader.ParseEscape` | Livox-SDK2/3rdparty/rapidjson/reader.h:1079-1108 | One escape gives the bytes, the end or the error of its description, surrogate pairs included |
| `ReaderClass.Reader.ParseHex4` | Livox-SDK2/3rdparty/rapidjson/reader.h:967-987 | Four hexadecimal digits are read as the number they spell, or the error names the start of the escape |
| `ReaderClass.Reader.ParseNumber` | Livox-SDK2/3rdparty/rapidjson/reader.h:1584-1869 | Reads the literal that the description of number literals names, with its event, end, or error |
| `ReaderClass.Reader.ParseInteger` | Livox-SDK2/3rdparty/rapidjson/reader.h:1599-1709 | The four accumulation loops never leave 32 or 64 unsigned bits and choose the event that the value of all the digits calls for, however many there are |
| `ReaderClass.Reader.Accumulate` | Livox-SDK2/3rdparty/rapidjson/reader.h:1623-1661 | One such loop stops exactly before the digit that would exceed the largest value of the integer type |
| `ReaderClass.Reader.ParseFraction` | Livox-SDK2/3rdparty/rapidjson/reader.h:1712-1753 | How far the digits after the point move the decimal exponent; with less than 10^8 digits it stays in 32 bits |
| `ReaderClass.Reader.ParseNegativeExponent` | Livox-SDK2/3rdparty/rapidjson/reader.h:1770-1787 | With a scale above -10^8 the exponent and its sum with the scale stay in 32 bits, for any number of exponent digits |
| `ReaderClass.Reader.ParsePositiveExponent` | Livox-SDK2/3rdparty/rapidjson/reader.h:1788-1797 | Reports a number as too big exactly when the exponent, taken as an unbounded number, exceeds 308 plus the fraction digits; its accumulator stays in 32 bits |
| `ReaderClass.Reader.ParseExponent` | Livox-SDK2/3rdparty/rapidjson/reader.h:1755-1801 | Behind the exponent mark: missing digits are an error at their place, a positive exponent too large for a double is an error at the start of the number, every other exponent is read to its end |
| `ReaderClass.Reader.Report` | Livox-SDK2/3rdparty/rapidjson/reader.h:1834-1869 | The event follows the width and the sign of the value, with the bounds that the loops leave |
| `ReaderClass.Negated` | Livox-SDK2/3rdparty/rapidjson/reader.h:1851-1861 | Complement and one, on a word of 32 or 64 bits read as signed, is the negative of every value in range, 2^31 and 2^63 included |
| `Numbers.IntegerExact` | Livox-SDK2/3rdparty/rapidjson/reader.h:1834-1863 | A literal of digits makes an integer event exactly when its value is in [-2^63, 2^64-1], with that value and the tightest type; otherwise it is a double or too big |
| `Numbers.PastLimit` | Livox-SDK2/3rdparty/rapidjson/reader.h:1669-1702 | Once one more digit would exceed a limit, the number of all the digits does |
| `Insitu.InsituReader.ParseString` | Livox-SDK2/3rdparty/rapidjson/reader.h:1021-1037 | In place: on success the decoded bytes of the literal and a zero stand where its first character was; everything before the literal and behind its closing quote is unchanged; the result is the one of decoding into a separate buffer |
| `Insitu.InsituReader.ParseOne` | Livox-SDK2/3rdparty/rapidjson/stream.h:200-230 | Every turn of the decoding loop keeps the write cursor behind the read cursor and every unread character as it was |
| `Insitu.InsituReader.ParseEscape` | Livox-SDK2/3rdparty/rapidjson/reader.h:1079-1108 | So does every escape: simple, four digits, and surrogate pairs |
| `Insitu.InsituReader.ParseStringToStream` | Livox-SDK2/3rdparty/rapidjson/reader.h:1058-1129 | The whole loop on aliased cursors: what it leaves behind the start of the literal is the decoded text and a zero, and the write cursor never passes the read cursor |
| `Insitu.InsituReader.Put` | Livox-SDK2/3rdparty/rapidjson/stream.h:200-230 | Writes one character at the write cursor and changes nothing behind it |
| `Insitu.InsituReader.ParseUnicode` | Livox-SDK2/3rdparty/rapidjson/reader.h:1087-1106 | A four-digit escape with its second half reads only characters not yet overwritten |
| `InsituDocument.InsituParser.Parse` | Livox-SDK2/3rdparty/rapidjson/reader.h:1021-1051 | A whole document parsed in place by the recursive parser: outcome, events and error are those of the untouched text, and at the end, also after an error, every string and name given to the handler stands in the buffer with its zero |
| `InsituDocument.InsituParser.IterativeParse` | Livox-SDK2/3rdparty/rapidjson/reader.h:2401-2433 | The same for the table-driven parser |
| `InsituDocument.InsituParser.ParseString` | Livox-SDK2/3rdparty/rapidjson/reader.h:1025-1035 | One string in place: the handler gets its bytes where they stand, the strings given before are intact, the text ahead is untouched |
| `Locality.TurnAlike` | Livox-SDK2/3rdparty/rapidjson/reader.h:2192-2350 | A turn of the automaton depends only on the text from the cursor on |
| `Locality.ScalarAlike` | Livox-SDK2/3rdparty/rapidjson/reader.h:1872-1896 | So does the reading of a value that is no container |
| `Locality.WsAlike` | Livox-SDK2/3rdparty/rapidjson/reader.h:770-794 | So does the skipping of white space and comments |
| `Utf8.DecodeExact` | Livox-SDK2/3rdparty/rapidjson/encodings.h:148-211 | The decoder accepts exactly the characters of section 4 of RFC 3629, reads exactly their bytes and joins their payloads |
| `Utf8.EncodeDecoded` | Livox-SDK2/3rdparty/rapidjson/encodings.h:108-125 | What was decoded is a scalar value, and encoding it gives the bytes back |
| `Utf8.DecodeEncoded` | Livox-SDK2/3rdparty/rapidjson/encodings.h:108-125 | An encoded scalar value is decoded as itself, whatever surrounds it |
| `Utf8.MasksExact` | Livox-SDK2/3rdparty/rapidjson/encodings.h:271-298 | The byte classes and masks let through exactly the continuation bytes that RFC 3629 allows after each lead byte |
| `Utf8.ValidateAgrees` | Livox-SDK2/3rdparty/rapidjson/encodings.h:214-269 | Validation accepts what decoding accepts, takes as many bytes, and copies what it accepts unchanged |
| `Utf8.TranscodeRoundTrip` | Livox-SDK2/3rdparty/rapidjson/encodings.h:754-760 | A text is converted to UTF-16 exactly when it is UTF-8, and converting back gives the same bytes |
| `Utf8.Decode16Exact` | Livox-SDK2/3rdparty/rapidjson/encodings.h:388-402 | The UTF-16 decoder takes a unit outside the surrogates by itself, or a high surrogate with a low one behind it, and joins their payloads as section 2.2 of RFC 2781 says; nothing else |
| `Utf8.Decode16Encoded` | Livox-SDK2/3rdparty/rapidjson/encodings.h:355-402 | An encoded scalar value is decoded from its one or two UTF-16 units |
| `Utf8Streams.Decode` | Livox-SDK2/3rdparty/rapidjson/encodings.h:148-211 | The decoder on a stream moves the cursor and builds the code point as described |
| `Utf8Streams.Validate` | Livox-SDK2/3rdparty/rapidjson/encodings.h:214-269 | The validator on two streams, likewise |
| `Utf8Streams.Encode` | Livox-SDK2/3rdparty/rapidjson/encodings.h:108-125 | The encoder appends exactly the bytes of the described encoding |
| `RoundTrip.PrintParse` | Livox-SDK2/3rdparty/rapidjson/writer.h:560-579 | The text of any value, in any legal style, is a text of the grammar, accepted to its end by both parsers; its events build exactly that value: same member order, same bits and flags in every number, same literal for every double |
| `RoundTrip.StylesAgree` | Livox-SDK2/3rdparty/rapidjson/prettywriter.h:263-311 | For every value and indentation, line feeds and single-line arrays change nothing in what is read: indented text and compact text send the same events |
| `ParsedDocument.ParsePrintParse` | Livox-SDK2/3rdparty/rapidjson/reader.h:615-646 | Parse, print, parse: the value of any accepted text, printed in any legal style, is read with the very events of the text, but for the sign of -0 |
| `JsonNumbers.DoubleInPlace` | Livox-SDK2/3rdparty/rapidjson/reader.h:1584-1869 | A text that by itself is the literal of a double is read as that double wherever it stands, unless a number could go on behind it |
| `JsonNumbers.DoubleAlone` | Livox-SDK2/3rdparty/rapidjson/reader.h:1584-1869 | Whatever is read as a double anywhere is the literal of a double by itself |
| `RoundTrip.StringReads` | Livox-SDK2/3rdparty/rapidjson/writer.h:437-520 | What is written for a string is read back as the same bytes, zeros included; with a target without Unicode through escapes and surrogate pairs |
| `RoundTrip.IntegerReads` | Livox-SDK2/3rdparty/rapidjson/reader.h:1584-1709 | The decimal text of any integer in range is read back as that integer |
| `RoundTrip.PieceReads` | Livox-SDK2/3rdparty/rapidjson/reader.h:1079-1108 | One written character is read as one unit that gives its bytes back |
| `Rendering.EncodableIsText` | Livox-SDK2/3rdparty/rapidjson/writer.h:466-471 | With a target without Unicode support exactly the UTF-8 strings can be written |
| `Rendering.BodyFits` | Livox-SDK2/3rdparty/rapidjson/writer.h:458-461 | The text of a string stays within six characters for each byte, so within what is reserved |
| `Rendering.BytesWritten` | Livox-SDK2/3rdparty/rapidjson/writer.h:438-450 | The literal text of every byte of a string that is not written as a code point: the seven two-character escapes, the six-character escape of every other control character with upper-case digits, itself for all others |
| `Layout.TextLaidOut` | Livox-SDK2/3rdparty/rapidjson/prettywriter.h:180-303 | A law of the finished text, in both styles: outside string literals, the white space in front of every character is exactly the one that the open brackets and the last character before it call for; nothing in compact text; indented, a line feed and indentation by depth before each name, before each element without the single-line option, and before the close of a container that is not empty; one space behind colons and, on one line, behind commas |
| `Layout.LineFeeds` | Livox-SDK2/3rdparty/rapidjson/prettywriter.h:305-311 | Behind every line feed outside string literals stand as many indentation characters as the indentation count times the brackets open before the next character, less one if it closes; and each stands behind an opening bracket or a comma, or before the close of a container that is not empty |
| `WriterClass.Writer.Accept` | Livox-SDK2/3rdparty/rapidjson/document.h:2286-2331 | Visiting a value appends the prefix its place calls for and exactly the text of the value, and counts one value in the level; it fails exactly when some string cannot be written |
| `WriterClass.Writer.WriteString` | Livox-SDK2/3rdparty/rapidjson/writer.h:437-520 | Appends the quoted text, or fails at the first byte from which no code point can be made; never more than 2 + 6n characters |
| `WriterClass.Writer.Prefix` | Livox-SDK2/3rdparty/rapidjson/writer.h:560-579 | Comma or colon by the number of values in the level, which grows by one; only one root |
| `WriterClass.Writer.PrettyPrefix` | Livox-SDK2/3rdparty/rapidjson/prettywriter.h:263-303 | The same with line feeds, indentation by depth, and the single-line option for arrays |
| `WriterClass.Writer.End` | Livox-SDK2/3rdparty/rapidjson/prettywriter.h:180-234 | Pops the level; white space before the bracket unless the container is empty or the array is on one line; which white space that is in the finished text is stated by Layout.TextLaidOut |
| `WriterClass.Writer.Start` | Livox-SDK2/3rdparty/rapidjson/writer.h:255-288 | Opening a container counts it in its level and pushes an empty level of its own kind |
| `WriterClass.Writer.PutUnicode` | Livox-SDK2/3rdparty/rapidjson/writer.h:466-491 | A code point outside ASCII becomes one escape, or two for a surrogate pair |
| `WriterClass.CopyThroughText` | Livox-SDK2/3rdparty/rapidjson/document.h:858-899 | Printed by a writer and parsed by a document, through either parser, a value comes back as itself |
| `WriterClass.Stringify` | Livox-SDK2/3rdparty/rapidjson/document.h:2286-2331 | A fresh writer fed by a visitor holds exactly the text of the value, or fails when some string cannot be written |
| `Document.Built` | Livox-SDK2/3rdparty/rapidjson/document.h:2926-3000 | The events of any value, sent by a visitor or by the reader of its text, leave exactly that value on top of whatever was on the stack |
| `Document.CloseObject` | Livox-SDK2/3rdparty/rapidjson/document.h:2982-2988 | Closing an object takes exactly the names and values pushed since it was opened and makes them its members in order |
| `Document.CloseArray` | Livox-SDK2/3rdparty/rapidjson/document.h:2995-3000 | Closing an array takes exactly the elements pushed since it was opened |
| `Values.NumberEventExact` | Livox-SDK2/3rdparty/rapidjson/document.h:2319-2330 | The event sent for a number is that of the narrowest type that holds it, with its value |
| `Values.FromInt64` | Livox-SDK2/3rdparty/rapidjson/document.h:872-887 | The constructor from a signed 64-bit number: each of the four flags is set exactly if its type has room for the number, with literal bounds, and then its accessor gives the number back |
| `Values.FromUint` | Livox-SDK2/3rdparty/rapidjson/document.h:864-870 | The constructor from an unsigned 32-bit number, likewise |
| `Values.FromInt` | Livox-SDK2/3rdparty/rapidjson/document.h:858-862 | The constructor from a signed 32-bit number, likewise |
| `Values.FromUint64` | Livox-SDK2/3rdparty/rapidjson/document.h:889-899 | The constructor from an unsigned 64-bit number, likewise |
| `Document.IntegerKept` | Livox-SDK2/3rdparty/rapidjson/document.h:2319-2330 | From either sender, every integer in range arrives on the document stack with exactly the flags of the types that have room for it, and every accessor whose flag is set gives it back |
| `ParsedDocument.IntegerArrives` | Livox-SDK2/3rdparty/rapidjson/document.h:2934-2949 | An integer literal of a text becomes a number with those flags, whose accessors give the value that its digits spell |
| `ParsedDocument.AcceptedBuilds` | Livox-SDK2/3rdparty/rapidjson/document.h:2738-2750 | Any accepted text says one value, whose events are those sent, but for the sign of -0; a document makes that value of them exactly when no container in it has 2^32 items, as in every text under 4 GiB |
| `ParsedDocument.DerivedBuilds` | Livox-SDK2/3rdparty/rapidjson/document.h:2738-2750 | That value is the one that any derivation of the text stands for, member by member and element by element |
| `DocumentClass.GenericDocument.Parse` | Livox-SDK2/3rdparty/rapidjson/document.h:2738-2750 | Parsing into a document, by either parser: the root is the value that every derivation of the text stands for, or unchanged on an error, whose code and offset are those of the parser; the stack is empty afterwards and the assertion on its size never fails |
| `DocumentClass.GenericDocument.Populate` | Livox-SDK2/3rdparty/rapidjson/document.h:2716-2725 | A document populated by visiting a value becomes a copy of it |
| `DocumentClass.GenericDocument.Deliver` | Livox-SDK2/3rdparty/rapidjson/document.h:2286-2331 | Visiting a value with a document as handler pushes exactly that value |
| `DocumentClass.GenericDocument.EndArray` | Livox-SDK2/3rdparty/rapidjson/document.h:2995-3000 | Pops the elements and pushes one array, as the specification of the handler does |
| `DocumentClass.GenericDocument.EndObject` | Livox-SDK2/3rdparty/rapidjson/document.h:2982-2988 | The method that pops members and fills the object, as one step of the description |
| `ValueEquality.EqualIsSameMeaning` | Livox-SDK2/3rdparty/rapidjson/document.h:1110-1147 | Without doubles and with unique names the one-directional search decides whether two values mean the same when member order does not count |
| `ValueEquality.EqualIsEquivalence` | Livox-SDK2/3rdparty/rapidjson/document.h:1110-1147 | On such values the comparison is reflexive, symmetric and transitive |
| `ValueEquality.OrderDoesNotCount` | Livox-SDK2/3rdparty/rapidjson/document.h:1115-1125 | Objects with the same members in any order are equal |
| `ValueEquality.Compare` | Livox-SDK2/3rdparty/rapidjson/document.h:1110-1147 | The loops with early exits decide that equality |
| `ValueEquality.Find` | Livox-SDK2/3rdparty/rapidjson/document.h:1519-1527 | The search stops at the first member of the name, or at the end |
| `ValueEquality.EqualsNothing` | Livox-SDK2/3rdparty/rapidjson/document.h:1104-1106 | The comment promises that an object with a duplicated name equals nothing; that holds exactly when two members of one name have unequal values |
| `ValueEquality.EqualIsMutual` | Livox-SDK2/3rdparty/rapidjson/document.h:1110-1147 | When one object equals another, the converse comparison agrees exactly when the second has no name that the first lacks and its members of one name have equal values |
| `ValueEquality.EqualKeepsUnique` | Livox-SDK2/3rdparty/rapidjson/document.h:1110-1147 | A value equal to one with unique names has unique names, at every depth |
| `ValueEquality.DuplicatesMayBeEqual` | Livox-SDK2/3rdparty/rapidjson/document.h:1104-1106 | The promise fails: an object with two equal members of one name equals itself |
| `ValueEquality.DuplicatesBreakSymmetry` | Livox-SDK2/3rdparty/rapidjson/document.h:1115-1125 | With a duplicated name the comparison is not symmetric: such an object equals one with another name in place of the second, but not the other way round |
| `ValueEquality.NumbersEqual` | Livox-SDK2/3rdparty/rapidjson/document.h:1136-1142 | Two integers compare equal exactly when they are the same or differ by 2^64, because only the 64 bits are compared |
| `Division.BurstDetected` | Livox-SDK2/3rdparty/FastCRC/FastCRCsw.cpp:173-205 | From any register, two messages that differ only inside a burst of at most as many bits as the register has are divided to different registers, whatever stands before and after the burst |
| `Division.WindowDetected` | Livox-SDK2/3rdparty/FastCRC/FastCRCsw.cpp:445-486 | The same for octets: four consecutive ones for a 32-bit check, two for a 16-bit one |
| `Division.DivideInjective` | Livox-SDK2/3rdparty/FastCRC/FastCRCsw.cpp:173-205 | Different registers stay different whatever follows |
| `Division.CrcAppend` | Livox-SDK2/3rdparty/FastCRC/FastCRCsw.cpp:335-368 | A message can be divided in two pieces, the second from the register of the first |
| `Division.ShiftXor` | Livox-SDK2/3rdparty/FastCRC/FastCRCsw.cpp:161-165 | One step of the division is additive |
| `Slicing.SlicedIsTurns` | Livox-SDK2/3rdparty/FastCRC/FastCRCsw.cpp:421-425 | Four table entries, one per octet of the word, are four turns of the register through the first table |
| `Slicing.LoadedIsFed` | Livox-SDK2/3rdparty/FastCRC/FastCRCsw.cpp:161-165 | A word loaded from memory and mixed in goes through the tables like its four octets one at a time |
| `Slicing.OctetDivides` | Livox-SDK2/3rdparty/FastCRC/FastCRCsw.cpp:178 | One octet through the first table is its eight bits through the division; for the byte-swapped registers too |
| `Slicing.FedDivides` | Livox-SDK2/3rdparty/FastCRC/FastCRCsw.cpp:173-205 | Octets through the table are the bit-serial division of the message |
| `Tables.TableFromRow` | Livox-SDK2/3rdparty/FastCRC/FastCRC_tables.h:153-283 | Every entry of a first table is the sum of those at the powers of two in its index |
| `Tables.TableXor` | Livox-SDK2/3rdparty/FastCRC/FastCRC_tables.h:1006-1264 | In each of the four slices a sum of indices selects the sum of the entries |
| `TableLiterals.CcittLiteral` | Livox-SDK2/3rdparty/FastCRC/FastCRC_tables.h:153-185 | Each of the 256 literals in the first quarter of the table is what eight steps of the division make of its index |
| `TableLiterals.KermitLiteral` | Livox-SDK2/3rdparty/FastCRC/FastCRC_tables.h:546-578 | The same for the tables of the reflected 16-bit checks with polynomial 0x8408 |
| `TableLiterals.ModbusLiteral` | Livox-SDK2/3rdparty/FastCRC/FastCRC_tables.h:415-447 | The same for modbus |
| `TableLiterals.Crc32Literal` | Livox-SDK2/3rdparty/FastCRC/FastCRC_tables.h:939-1004 | The same for CRC-32, all 256 entries |
| `TableLiterals.CksumLiteral` | Livox-SDK2/3rdparty/FastCRC/FastCRC_tables.h:1265-1330 | The same for cksum, all 256 entries, which are byte-swapped |
| `FastCRC.Update` | Livox-SDK2/3rdparty/FastCRC/FastCRCsw.cpp:445-475 | The three phases, for any seed, buffer, length and alignment: the kept register, its octets put back in order, is the bit-serial division of the whole buffer |
| `FastCRC.CrcBlock` | Livox-SDK2/3rdparty/FastCRC/FastCRCsw.cpp:455-469 | Sixteen octets in four words, through any of the three kernels, are sixteen octets one at a time |
| `FastCRC.CrcN4` | Livox-SDK2/3rdparty/FastCRC/FastCRCsw.cpp:161-165 | The 16-bit kernel, which cuts the register before splitting it, makes four turns of the 32-bit word |
| `FastCRC.CrcN4d` | Livox-SDK2/3rdparty/FastCRC/FastCRCsw.cpp:421-425 | The 32-bit kernel makes four turns of the word |
| `FastCRC.CrcsmN4d` | Livox-SDK2/3rdparty/FastCRC/FastCRCsw.cpp:427-431 | So does the kernel with the small table |
| `FastCRC.FastCRC16.CcittUpd` | Livox-SDK2/3rdparty/FastCRC/FastCRCsw.cpp:173-199 | Register and result are the division from the old register with polynomial 0x1021, high bit first |
| `FastCRC.FastCRC16.XmodemUpd` | Livox-SDK2/3rdparty/FastCRC/FastCRCsw.cpp:335-361 | The same with the high bit first, continuing from any register |
| `FastCRC.FastCRC16.Mcrf4xxUpd` | Livox-SDK2/3rdparty/FastCRC/FastCRCsw.cpp:214-239 | The same with the low bit first, continuing from any register |
| `FastCRC.FastCRC16.ModbusUpd` | Livox-SDK2/3rdparty/FastCRC/FastCRCsw.cpp:254-279 | The same with polynomial 0xA001 |
| `FastCRC.FastCRC16.KermitUpd` | Livox-SDK2/3rdparty/FastCRC/FastCRCsw.cpp:294-319 | The same with polynomial 0x8408 |
| `FastCRC.FastCRC16.X25Upd` | Livox-SDK2/3rdparty/FastCRC/FastCRCsw.cpp:376-403 | The register is the same division; every bit of the 16-bit result is opposite to the register |
| `FastCRC.FastCRC32.Crc32Upd` | Livox-SDK2/3rdparty/FastCRC/FastCRCsw.cpp:445-479 | The register is the bit-serial reflected division continued over the buffer; every bit of the result is opposite to it |
| `FastCRC.FastCRC32.CksumUpd` | Livox-SDK2/3rdparty/FastCRC/FastCRCsw.cpp:499-532 | The byte-swapped register, put back in order, is the division with the high bit first; every bit of the result is opposite to it |
| `FastCRC.FastCRC16.Ccitt` | Livox-SDK2/3rdparty/FastCRC/FastCRCsw.cpp:200-205 | The same from the seed 0xffff |
| `FastCRC.FastCRC16.Xmodem` | Livox-SDK2/3rdparty/FastCRC/FastCRCsw.cpp:363-368 | From the seed 0 |
| `FastCRC.FastCRC16.Mcrf4xx` | Livox-SDK2/3rdparty/FastCRC/FastCRCsw.cpp:241-246 | Low bit first, from the seed 0 that the code sets (its comment says 0xffff) |
| `FastCRC.FastCRC16.Modbus` | Livox-SDK2/3rdparty/FastCRC/FastCRCsw.cpp:281-286 | Low bit first with polynomial 0xA001, from 0xffff |
| `FastCRC.FastCRC16.Kermit` | Livox-SDK2/3rdparty/FastCRC/FastCRCsw.cpp:321-327 | Low bit first with polynomial 0x8408, from 0 |
| `FastCRC.FastCRC16.X25` | Livox-SDK2/3rdparty/FastCRC/FastCRCsw.cpp:405-410 | The same from 0xffff; the register itself is kept uncomplemented |
| `FastCRC.FastCRC32.Crc32` | Livox-SDK2/3rdparty/FastCRC/FastCRCsw.cpp:481-486 | Reflected CRC-32 from 0xffffffff, every bit opposite to the register of the division, with either table size |
| `FastCRC.FastCRC32.Cksum` | Livox-SDK2/3rdparty/FastCRC/FastCRCsw.cpp:534-539 | High bit first with polynomial 0x04c11db7 from 0, bytes put back in order, every bit opposite to the register |
| `CheckValues.CcittOfDigits` | Livox-SDK2/3rdparty/FastCRC/FastCRCsw.cpp:200-205 | The register of ccitt for the nine digits is the published 0x29b1 |
| `CheckValues.XmodemOfDigits` | Livox-SDK2/3rdparty/FastCRC/FastCRCsw.cpp:363-368 | That of xmodem is the published 0x31c3 |
| `CheckValues.Mcrf4xxOfDigits` | Livox-SDK2/3rdparty/FastCRC/FastCRCsw.cpp:241-246 | That of mcrf4xx is 0x2189 from the seed 0 of the code; the published 0x6f91 belongs to the seed 0xffff of its comment |
| `CheckValues.KermitOfDigits` | Livox-SDK2/3rdparty/FastCRC/FastCRCsw.cpp:321-327 | That of kermit is the published 0x2189 |
| `CheckValues.X25OfDigits` | Livox-SDK2/3rdparty/FastCRC/FastCRCsw.cpp:405-410 | That of x25 is the complement of the published 0x906e |
| `CheckValues.ModbusOfDigits` | Livox-SDK2/3rdparty/FastCRC/FastCRCsw.cpp:281-286 | That of modbus is the published 0x4b37 |
| `CheckValues.Crc32OfDigits` | Livox-SDK2/3rdparty/FastCRC/FastCRCsw.cpp:481-486 | That of crc32 is the complement of the published 0xcbf43926 |
| `CheckValues.CksumOfDigits` | Livox-SDK2/3rdparty/FastCRC/FastCRCsw.cpp:534-539 | That of cksum is the complement of the published 0x765e7680 |
| `CheckValues.Published` | Livox-SDK2/3rdparty/FastCRC/README.md:30-56 | The eight methods give the published results, but for mcrf4xx with its seed 0 |
| `FastCRC.CcittOfPieces` | Livox-SDK2/3rdparty/FastCRC/FastCRCsw.cpp:173-205 | The first call and any number of continuing calls give the check of the joined message, however it is cut and wherever the pieces lie |
| `FastCRC.CksumOfPieces` | Livox-SDK2/3rdparty/FastCRC/FastCRCsw.cpp:499-539 | The same for cksum |
| `FastCRC.UpdateByPieces` | Livox-SDK2/3rdparty/FastCRC/FastCRCsw.cpp:335-539 | The same for every check and kernel, from any register: updates by the pieces of a message are the division of the joined message |
| `FastCRC.CcittNotices` | Livox-SDK2/samples/lidar_cmd_observer/main.cpp:65-67 | Damage inside two consecutive octets always changes the header check |
| `FastCRC.Crc32Notices` | Livox-SDK2/samples/lidar_cmd_observer/main.cpp:69-71 | Damage inside four consecutive octets always changes the data check |
| `Packet.PackParse` | Livox-SDK2/sdk_core/comm/sdk_protocol.cpp:42-94 | A packed packet is accepted exactly when its length fits the 16-bit length field, and is then parsed back as sent, with the version fixed and the sequence number cut to 16 bits |
| `Packet.WireOctets` | Livox-SDK2/sdk_core/comm/sdk_protocol.cpp:42-74 | Every octet of a packed packet by its literal value: 0xaa, 0, then length, sequence number (its upper half zero), command and both checksums with the low octet first |
| `Packet.LengthOctets` | Livox-SDK2/sdk_core/comm/sdk_protocol.cpp:104-107 | The length is read from the third octet and the fourth, the low one first |
| `Packet.Parsed` | Livox-SDK2/sdk_core/comm/sdk_protocol.cpp:76-94 | Sequence number and command are read from their octets, the low one first |
| `Packet.HeaderDamageNoticed` | Livox-SDK2/sdk_core/comm/sdk_protocol.cpp:109-130 | An accepted packet damaged inside two consecutive octets of its header is rejected before its length is used |
| `Packet.DataDamageNoticed` | Livox-SDK2/sdk_core/comm/sdk_protocol.cpp:133-143 | An accepted packet damaged inside four consecutive octets of its data is rejected |
| `Packet.SdkProtocol.Pack` | Livox-SDK2/sdk_core/comm/sdk_protocol.cpp:42-74 | The buffer holds the packet, with the old reserved octets in it, and behind it what was there; on failure nothing from the fifth octet on has changed |
| `Packet.SdkProtocol.CheckPreamble` | Livox-SDK2/sdk_core/comm/sdk_protocol.cpp:109-144 | Decides acceptance of a packet that lies in memory as far as its header says |
| `PointerText.StringifyParse` | Livox-SDK2/3rdparty/rapidjson/pointer.h:1151-1179 | A pointer is printable as a string always and as a URI fragment exactly when every name is UTF-8; the text is parsed back as the same pointer (RFC 6901, sections 3 and 6) |
| `PointerText.ParseStringifyParse` | Livox-SDK2/3rdparty/rapidjson/pointer.h:1013-1133 | Whatever was parsed, in either form, equals the parse of its print in either form |
| `PointerGrammar.AcceptsPointers` | Livox-SDK2/3rdparty/rapidjson/pointer.h:1013-1133 | The parser accepts exactly the texts of the grammar of RFC 6901, plain and as a URI fragment, with the unreserved characters of RFC 3986 listed one by one, and makes the tokens that their characters spell |
| `PointerGrammar.PointerRefused` | Livox-SDK2/3rdparty/rapidjson/pointer.h:1134-1141 | For each error code, what stands at the reported offset |
| `PointerGrammar.PrintedPiece` | Livox-SDK2/3rdparty/rapidjson/pointer.h:1151-1179 | How each character is printed: tilde and solidus as ~0 and ~1, in a fragment every character that is not unreserved as its octets in upper-case digits, all others as themselves |
| `PointerText.PercentReads` | Livox-SDK2/3rdparty/rapidjson/pointer.h:1187-1232 | The triplets of one UTF-8 character are read as that character |
| `PointerText.CharacterReads` | Livox-SDK2/3rdparty/rapidjson/pointer.h:1050-1104 | Every printed character of a name, escaped, percent-encoded or plain, is read as that character |
| `PointerClass.GenericPointer.Parse` | Livox-SDK2/3rdparty/rapidjson/pointer.h:1013-1142 | Parsing into a name buffer: tokens, zero-terminated names and error as described, with every write inside a buffer as long as the source |
| `PointerClass.GenericPointer.ValidatePercent` | Livox-SDK2/3rdparty/rapidjson/pointer.h:1054-1063 | Validating a percent-encoded character writes at most into the room its triplets leave, also when it fails |
| `PointerClass.GenericPointer.ParseToken` | Livox-SDK2/3rdparty/rapidjson/pointer.h:1050-1104 | A whole token goes into the name buffer behind the earlier names, which stay as they were, or the described error is set |
| `PointerClass.PercentDecodeStream.Take` | Livox-SDK2/3rdparty/rapidjson/pointer.h:1199-1222 | Three characters give one byte, and anything else turns the stream invalid for good |
| `PointerClass.GenericPointer.Index` | Livox-SDK2/3rdparty/rapidjson/pointer.h:1113-1126 | The 32-bit accumulation with its overflow test gives the index of the description |
| `PointerClass.Print` | Livox-SDK2/3rdparty/rapidjson/pointer.h:1151-1179 | The printing loops put the described text, or fail where it fails |
| `PointerClass.Resolve` | Livox-SDK2/3rdparty/rapidjson/pointer.h:622-649 | The loop of Get gives the value, or the first token that cannot be resolved |
| `PointerTree.Child` | Livox-SDK2/3rdparty/rapidjson/pointer.h:622-649 | A token names the first member of its name, or the element at its index; nothing in any other value |
| `PointerTree.CreateExisting` | Livox-SDK2/3rdparty/rapidjson/pointer.h:539-585 | Create reports that the value already exists exactly when Get resolves; then the tree is unchanged and the reference is to what Get returns |
| `PointerTree.GetAfterSet` | Livox-SDK2/3rdparty/rapidjson/pointer.h:781-784 | Get after Set returns what was set, exactly unless a dash appended an array element on the way |
| `PointerTree.SetElsewhere` | Livox-SDK2/3rdparty/rapidjson/pointer.h:539-585 | Creating or setting a path, whether it exists or not, leaves every other path that resolves as it was; it is cut off exactly if an array on it has to give way to an object |
| `PointerTree.Grown` | Livox-SDK2/3rdparty/rapidjson/pointer.h:558-577 | What is added for a token that does not resolve: one member of its name with a null value behind the others, or null elements up to its index, and nothing else |
| `PointerTree.Coerced` | Livox-SDK2/3rdparty/rapidjson/pointer.h:551-556 | A value is replaced only if the token cannot be a child of it: by an object for a name, by an array for an index |
| `PointerTree.IncomparableApart` | Livox-SDK2/3rdparty/rapidjson/pointer.h:1109-1126 | With every number below 2^32, that covers all pairs of pointers of which neither is a prefix of the other |
| `PointerTree.IndexExact` | Livox-SDK2/3rdparty/rapidjson/pointer.h:1112-1126 | The index of a numeric name is the number it spells exactly when that number is below 2^32 |
| `PointerTree.DifferentIndices` | Livox-SDK2/3rdparty/rapidjson/pointer.h:1114-1126 | Different names whose numbers are below 2^32 never share an index, but for the invalid one, which 4294967295 has too |
| `PointerTree.LongNumbersCollide` | Livox-SDK2/3rdparty/rapidjson/pointer.h:1114-1124 | Above that the overflow test can miss the wrap: 5000000000 and 705032704 get one index |
| `MemoryPool.BlocksDisjoint` | Livox-SDK2/3rdparty/rapidjson/allocators.h:209-220 | Two different blocks handed out never overlap, in one chunk or in two |
| `MemoryPool.BlockInside` | Livox-SDK2/3rdparty/rapidjson/allocators.h:209-220 | Every block is 8-aligned and lies inside the used part and the capacity of its chunk |
| `MemoryPool.MemoryPoolAllocator.Malloc` | Livox-SDK2/3rdparty/rapidjson/allocators.h:209-220 | The block is the next one of the newest chunk, behind its 24 octets of header; a new chunk is asked for exactly when there is no room, with the larger of the two capacities; chunks and blocks afterwards are stated exactly |
| `MemoryPool.MemoryPoolAllocator.Realloc` | Livox-SDK2/3rdparty/rapidjson/allocators.h:223-253 | The result is null exactly for a size of zero or when a new chunk is needed and the base allocator has none; it is the old block exactly when no growth is wanted or the last block of the newest chunk has room; it is long enough and has the old contents; all earlier blocks keep place and length; memory changes only inside the new block |
| `MemoryPool.MemoryPoolAllocator.Expand` | Livox-SDK2/3rdparty/rapidjson/allocators.h:236-245 | The block grows where it is exactly if it is the last of the newest chunk, named with its full length, and the chunk has room |
| `MemoryPool.MemoryPoolAllocator.Move` | Livox-SDK2/3rdparty/rapidjson/allocators.h:247-252 | Otherwise a new block gets the old contents, and the old one stays; null exactly when a new chunk is needed and there is none |
| `MemoryPool.MemoryPoolAllocator.LastBlock` | Livox-SDK2/3rdparty/rapidjson/allocators.h:236-239 | The address comparison holds exactly for the last block of the newest chunk, named with its full length |
| `MemoryPool.OthersKeepContents` | Livox-SDK2/3rdparty/rapidjson/allocators.h:247-250 | Writing into one block leaves the contents of every other block alone |
| `MemoryPool.UsedIsHandedOut` | Livox-SDK2/3rdparty/rapidjson/allocators.h:191-205 | What is in use is exactly the sum of all blocks handed out, and never more than the capacity |
| `MemoryPool.MemoryPoolAllocator.AddChunk` | Livox-SDK2/3rdparty/rapidjson/allocators.h:268-281 | A new chunk comes first in the list and lies apart from the others |
| `MemoryPool.MemoryPoolAllocator.Size` | Livox-SDK2/3rdparty/rapidjson/allocators.h:201-205 | The loop over the list gives that sum |
| `MemoryPool.MemoryPoolAllocator.Capacity` | Livox-SDK2/3rdparty/rapidjson/allocators.h:191-196 | The loop over the list gives the total capacity, which is no less |
| `MemoryPool.MemoryPoolAllocator.Clear` | Livox-SDK2/3rdparty/rapidjson/allocators.h:178-186 | Everything is given back but the caller's buffer, which is empty again |
| `MemoryPool.AlignExact` | Livox-SDK2/3rdparty/rapidjson/rapidjson.h:292-293 | In 64 bits the alignment mask rounds up to a multiple of eight for all sizes but the last seven, which wrap to zero |

## Left out

- ReaderClass.Reader.Next: sets an error over an earlier one, which the source forbids by an assertion that release builds drop; which of the two codes is left is not stated.
- PointerTree.Create: `Create` and `Set` are functions from a tree to a tree and the returned reference is a way from the root, so pointers into the tree and the memory of overwritten values are not modelled.
- PointerTree.SetElsewhere: says nothing about paths that did not resolve before.
- JsonAccepted.AcceptsJson: for the flag to stop when the root is done only says that derived texts are accepted; there the rest of the text is not looked at.
- JsonErrors.ParseExplained: speaks of the recursive parser; the table-driven one reports the same but for the differences that Equivalence.ParsersAgree names.
- ParsedDocument.DerivedBuilds: for that flag speaks of no derivation; ParsedDocument.AcceptedBuilds covers it.
- DocumentClass.GenericDocument.Parse: asks for texts in which no container has 2^32 items; with more the 32-bit counter wraps and the pops go wrong.
- RoundTrip.PrintParse: carries a double as a literal that is read as itself; converting doubles to and from decimal text (dtoa, strtod, full precision) is not modelled.
- ValueEquality.Equal: is defined for values without doubles, since comparing a double means converting it.
- MemoryPool.MemoryPoolAllocator.Malloc: is stated for sizes a single object can have, below 2^63; near 2^64 the sizes wrap as MemoryPool.AlignExact says.
- Packet.SdkProtocol.Pack: asks for a buffer with room for the data whenever the 16-bit length passes the capacity test, as the copy does.
- Tables.TableXor: speaks of the generated tables; only the first 256 literals of each are in the model, the three further slices are given by their generator.
- PointerClass.PercentDecodeStream.Take: reads a zero one past the end of the source, where the code reads whatever lies there if the source is given by its length alone.
- InsituDocument.InsituParser.ReadTurn: runs the routines that only read on a copy of the buffer as it is at that moment.
- Rendering.Decimal: stands for the integer-to-text routines of internal/itoa.h, whose digit-pair tables are not modelled.
- The parse flags for encoding validation, full precision, numbers as strings, NaN and Inf; raw numbers and raw values.
- The vectorised white space and string scanners, which skip what the plain loops skip.
- Strings are pushed byte by byte on the parser's own stack while they are decoded in the source; here they are collected in a local sequence.
- Encodings other than UTF-8 sources with UTF-8 or Unicode-free targets, and UTF-16 beyond its codec.
- Iterators, removal of members and elements, move semantics, ownership of string memory, 48-bit pointers.
- Less-than and hashing of pointers, Erase and Swap through a pointer, user-supplied tokens.
- The 7- and 8-bit checksums, which are one table lookup per byte, and the hardware version of the checksums.
- Schema validation, regular expressions, logging, sockets, threads, device detection, configuration and upgrades.
