# A verified model of muduo and its RapidJSON

muduo is a reactor library for network servers in C++: an event loop with timers, TCP connections with buffers, and
asynchronous logging. RapidJSON, which it carries along, parses, writes, validates and edits JSON. This project models
the parts of both whose correctness depends on whole runs or whole trees, and proves what they are for.

* **JSON text.** `Reader.dfy` is the grammar as the recursive parser follows it, `IterativeReader.dfy` the table-driven
  parser and the proof that both are the same, `Writer.dfy` the plain and the pretty writer, `Document.dfy` the number
  flags and the stack that builds trees, `Strings.dfy` and `RoundTrip.dfy` the way from a tree to text and back.
  `Grammar.dfy` generates texts and their meaning from RFC 8259, and proves that the parsers accept exactly these;
  `Lines.dfy` says line by line what the writers put. `ReaderLoops.dfy` and `WriterLoops.dfy` are the objects with their
  cursors, stacks and loops, proved against these. `Encodings.dfy` is UTF-8 against RFC 3629 and `AsciiWriter.dfy` the
  strings of a writer with ASCII as target encoding.
* **Schemas, equality and hashing.** `Schema.dfy` has the direct meaning of a schema and the streaming validator,
  `SchemaStreaming.dfy` the proof that they agree, `SchemaValidator.dfy` the validator object. `ValueEquality.dfy` and
  `Hashing.dfy` are operator== and the hash codes.
* **JSON Pointer.** `Pointer.dfy` parses and prints both forms of RFC 6901, `PointerParser.dfy` is the parser with its
  name buffer, `PointerGrammar.dfy` generates the texts that it accepts, `PointerTree.dfy` resolves pointers and sets values.
* **Reactor.** `Timers.dfy` and `TimerQueue.dfy`, `EventLoop.dfy`, `TcpConnection.dfy`: transition systems over every
  interleaving or run, with the objects whose methods are the steps.
* **Logging, buffers and framing.** `AsyncLogging.dfy`, `Buffer.dfy`, `Framing.dfy`.
* **Memory and calendar.** `Allocator.dfy`, `Calendar.dfy`.

`dafny verify dfyconfig.toml` checks everything.

What comes from outside the program is a parameter or a free choice: the answers of write, readv and the base
allocator, the clock, the addresses of new timers and chunks, the order in which threads run, the conversion of an
integer or a literal to a double, and whether a literal is too big for one. A text ends where its bytes end; reading
behind the end gives the terminating NUL.

Some behaviour a reader may not expect is kept as the code has it:

* operator== is documented to be false for every object with a repeated name. It is not, and the model follows the
  code (`RepeatedNamesBreakSymmetry`). With one operand free of repeated names, `SymmetryExactly` says when the order
  of the operands does not matter.
* operator== compares the 64 bits of two integers, so -1 and 2^64 - 1 are equal, but their hash codes differ
  (`ClashBreaksTheCode`). `PatternsMissTheSign` and `EqualThenSameCode` say when this cannot happen.
* An empty `items` array in a schema is the same as no `items`, because an empty array of schemas is a null pointer.
* A multiplexed packet without payload is delivered only once something follows it (`PacketsArrive`).
* A timer cancelled by an earlier callback of its own batch still runs once more (`CancelledStillCalled`);
  `CalledOnceMore` and `NeverCalledAgain` say exactly when a cancelled timer is called.
* The destructor of a callback that is deleted during a reset may cancel another timer of the same batch in vain
  (`CancelledInReset`), and one that adds or cancels while its own timer is being cancelled meets two indices of
  different size (`CancelIsHalfDone`).
* The functors of a batch are destroyed when the flag that they are being called is off again. What their destructors
  queue wakes nobody, and the loop can go to sleep on it (`DestructorQueuesUnseen`, `SleepsExactly`).
* While its backend is down the multiplexer drops full packets and leaves the header of the last one in front of the
  client's bytes (`SendBuffer`). A third small message finds no room for its header (`MessagesWhileDown`).
* Of more than 25 log buffers the thread drops all but two (`DroppedExactly`).

## Model

| member | source | states |
|---|---|---|
| `IterativeReader.IterativeIsRecursive` | muduo/rapidjson/reader.h:1801-2208 | for every text and every setting of the comment, trailing-comma and stop-when-done flags, the table-and-stack parser accepts exactly when the recursive parser does, stops at the same place on success, and emits the same events, also those before an error |
| `Grammar.AcceptsExactly` | muduo/rapidjson/reader.h:557-1749 | for every flag setting both parsers accept exactly the texts that the grammar of RFC 8259, with the comments and trailing commas of the flags, generates |
| `Grammar.AcceptsTheGrammar` | muduo/rapidjson/reader.h:557-1749 | a generated text is accepted up to its end with exactly the handler calls it means: exact integers of the narrowest kind, other numbers by their literal, decoded strings, counts of members and elements |
| `Grammar.AcceptsNothingElse` | muduo/rapidjson/reader.h:557-1749 | whatever is accepted was generated from some tree of syntax, which the proof builds |
| `Grammar.SkipsTail` | muduo/rapidjson/reader.h:708-734 | white space and comments of any kind and number are skipped, and at the end of the text also a line comment without a line feed |
| `Grammar.TailOf` | muduo/rapidjson/reader.h:708-734 | what is skipped is white space and whole comments |
| `Grammar.HexDigitsExactly` | muduo/rapidjson/reader.h:904-923 | a character is a hexadecimal digit exactly if it stands in the upper-case or the lower-case alphabet, with its place as value |
| `Grammar.ReadsBody` | muduo/rapidjson/reader.h:957-1054 | every spelling of a string is read as its meaning: raw bytes, the eight short escapes with their table, escapes with four digits in any mixture of cases, and surrogate pairs |
| `Grammar.BodyOf` | muduo/rapidjson/reader.h:957-1054 | every string that is read is spelled in such a way |
| `Grammar.ReadsNumeral` | muduo/rapidjson/reader.h:1454-1732 | every number of section 6 of RFC 8259 is read to its end, unless the next character continues it, and passed on exactly or by its literal |
| `Grammar.NumeralOf` | muduo/rapidjson/reader.h:1454-1732 | every number that is read is one of these |
| `Grammar.NamesOfCharacters` | muduo/rapidjson/reader.h:738-901 | the characters and words that the parser compares with are the structural characters, white space and literal names of RFC 8259 |
| `IterativeReader.StepKeepsInv` | muduo/rapidjson/reader.h:1995-2144 | every transition keeps the stack of saved states and counts consistent with the state, and consumes input or ends in the error state |
| `IterativeReader.ValueSimulation` | muduo/rapidjson/reader.h:1736-1749 | a run of the machine from a state that awaits a value does what ParseValue does and goes on behind it |
| `IterativeReader.ObjectSimulation` | muduo/rapidjson/reader.h:738-802 | the machine inside an object emits the events and reaches the place ParseObject does, for any continuation |
| `IterativeReader.ArraySimulation` | muduo/rapidjson/reader.h:806-851 | the machine inside an array emits the events and reaches the place ParseArray does, for any continuation |
| `ReaderLoops.ParseInteger` | muduo/rapidjson/reader.h:1470-1566 | for a literal of any length the 32-bit and 64-bit accumulators never wrap, and the call made carries the exact value and the kind its magnitude asks for |
| `ReaderLoops.Accumulate32` | muduo/rapidjson/reader.h:1475-1506 | the 32-bit loop holds the exact decimal value of the digits it took and leaves exactly when one more digit would exceed 2^31 or 2^32 - 1 |
| `ReaderLoops.Accumulate64` | muduo/rapidjson/reader.h:1534-1559 | the same for the 64-bit loop and 2^63 or 2^64 - 1 |
| `ReaderLoops.NegatedIsMinus` | muduo/rapidjson/reader.h:1715-1728 | complement plus one of the accumulated word, read as signed, is the negative number, up to and including the smallest one |
| `ReaderLoops.GenericReader.SkipWhitespaceAndComments` | muduo/rapidjson/reader.h:709-734 | the loop stops where the grammar of white space and comments ends and fails on an unterminated or malformed comment |
| `ReaderLoops.GenericReader.SkipWhitespace` | muduo/rapidjson/reader.h:264-271 | moves to the first character that is no white space |
| `ReaderLoops.GenericReader.ParseString` | muduo/rapidjson/reader.h:957-1054 | the loop with its escapes, surrogate pairs and control-character check yields the decoded bytes of the grammar, or fails where it fails |
| `ReaderLoops.GenericReader.ParseNumber` | muduo/rapidjson/reader.h:1454-1732 | sign, integer part, fraction and exponent are taken by their loops as the grammar says, and one call is made: with the exact integer if the number is one, else with the literal |
| `ReaderLoops.GenericReader.TakeFraction` | muduo/rapidjson/reader.h:1568-1613 | a point is followed by at least one digit, all of which are taken, or the number is refused |
| `ReaderLoops.GenericReader.TakeExponent` | muduo/rapidjson/reader.h:1616-1661 | a letter e, an optional sign and at least one digit, all of which are taken, or the number is refused |
| `ReaderLoops.GenericReader.Consume` | muduo/rapidjson/reader.h:854-901 | null, true and false are taken character by character, with the event only if all match |
| `ReaderLoops.GenericReader.ParseValue` | muduo/rapidjson/reader.h:1736-1749 | dispatch on the first character does what the grammar of values says |
| `ReaderLoops.GenericReader.ParseObject` | muduo/rapidjson/reader.h:738-802 | the member loop, with its count and the trailing-comma rule, does what the grammar of objects says |
| `ReaderLoops.GenericReader.ParseMember` | muduo/rapidjson/reader.h:755-771 | one name, colon and value of the member loop |
| `ReaderLoops.GenericReader.ParseArray` | muduo/rapidjson/reader.h:806-851 | the element loop does what the grammar of arrays says |
| `ReaderLoops.GenericReader.Parse` | muduo/rapidjson/reader.h:557-588 | a whole document, with or without stop-when-done |
| `ReaderLoops.GenericReader.Transit` | muduo/rapidjson/reader.h:1995-2144 | one transition of the table parser on the real stack |
| `ReaderLoops.GenericReader.IterativeParse` | muduo/rapidjson/reader.h:2176-2208 | the loop of the table parser computes the machine's run and, by the equivalence, the recursive parser's result |
| `Writer.WritesDocument` | muduo/rapidjson/writer.h:181-251 | feeding the events of any tree whose strings can be written to the level stack succeeds, leaves no level open and puts exactly the text of the tree, compact or indented, for UTF-8 or ASCII |
| `Writer.WritesExactly` | muduo/rapidjson/writer.h:376-448 | a tree is refused exactly when one of its strings or names cannot be written |
| `Lines.WritesLines` | muduo/rapidjson/prettywriter.h:123-255 | for every tree and format the text consists of the lines computed from the tree: where a line ends, how many indents it starts with, commas at the ends, and a single line for compact text and single-line arrays |
| `Grammar.WritesSpelling` | muduo/rapidjson/writer.h:376-448 | every byte is written in one way: a short escape where there is one, but for the solidus, four upper-case digits for other control characters, and else as it is |
| `Grammar.WritesUnicode` | muduo/rapidjson/writer.h:404-430 | for ASCII a code point is one escape or a surrogate pair, in upper case |
| `Writer.WritesObject` | muduo/rapidjson/prettywriter.h:123-155 | a whole object leaves the level stack below it as it was and puts its text |
| `Writer.WritesArray` | muduo/rapidjson/prettywriter.h:157-180 | a whole array leaves the level stack below it as it was and puts its text |
| `WriterLoops.GenericWriter.Prefix` | muduo/rapidjson/writer.h:473-491 | the separator and layout before a value, from the level's count; the parity check of names holds |
| `WriterLoops.GenericWriter.WriteIndent` | muduo/rapidjson/prettywriter.h:252-255 | one indent per open level |
| `WriterLoops.GenericWriter.WriteString` | muduo/rapidjson/writer.h:376-448 | the loop over the bytes puts the quoted and escaped string for either target, and fails exactly where it cannot be decoded |
| `WriterLoops.GenericWriter.Scalar` | muduo/rapidjson/writer.h:181-212 | one scalar or key with its prefix; false exactly if its string cannot be written |
| `WriterLoops.GenericWriter.Start` | muduo/rapidjson/writer.h:215-219 | opens an object or array and pushes a level |
| `WriterLoops.GenericWriter.End` | muduo/rapidjson/prettywriter.h:137-180 | closes an object or array, with a line break only if it had members, and pops the level |
| `WriterLoops.Accept` | muduo/rapidjson/document.h:1864-1901 | the recursive walk over a tree drives the writer through exactly the tree's events, and gives up exactly on trees with a string that cannot be written |
| `Document.FlagsAreOfTheNumber` | muduo/rapidjson/document.h:709-745 | all four integer constructors give flags that depend only on the mathematical value |
| `Document.BuildsValue` | muduo/rapidjson/document.h:2433-2473 | the events of any tree, fed to the builder, leave exactly that one tree on top of whatever was on the stack |
| `WriterLoops.DocumentBuilder.Push` | muduo/rapidjson/document.h:2433-2459 | one scalar, key or start call on the stack |
| `WriterLoops.DocumentBuilder.EndObject` | muduo/rapidjson/document.h:2461-2467 | the popped names and values become the members of an object, in order |
| `WriterLoops.DocumentBuilder.EndArray` | muduo/rapidjson/document.h:2469-2473 | the popped values become the elements of an array, in order |
| `RoundTrip.WriteThenReadIsIdentity` | muduo/rapidjson/writer.h:181-448 | for every double-free tree: writing it, compactly or with any white-space indent, succeeds always for UTF-8 and for ASCII exactly when all strings are well-formed; read by either parser under any flags and built again, the text is the same tree, alone on the stack, and text for ASCII is ASCII |
| `RoundTrip.PrintableExactly` | muduo/rapidjson/writer.h:402-447 | every tree can be written in UTF-8, whatever bytes its strings hold, and in ASCII exactly those whose strings and names are all well-formed UTF-8 |
| `RoundTrip.ParsesDocument` | muduo/rapidjson/reader.h:557-588 | the recursive parser accepts what the writer puts and emits the tree's events |
| `Strings.QuotedInverse` | muduo/rapidjson/reader.h:989-1054 | a string the writer quoted is read back byte for byte, wherever it stands, whatever bytes it holds |
| `RoundTrip.NumberInverse` | muduo/rapidjson/reader.h:1454-1732 | every integer from -2^63 to 2^64 - 1 is read back exactly from its decimal text |
| `Encodings.DecodeFollowsTheGrammar` | muduo/rapidjson/encodings.h:146-176 | Decode accepts exactly the well-formed sequences of section 4 of RFC 3629, moves behind them and gathers their bits |
| `Encodings.EncodeInvertsDecode` | muduo/rapidjson/encodings.h:102-121 | the code point of an accepted sequence is no surrogate, and encoding it gives the sequence back |
| `Encodings.DecodeInvertsEncode` | muduo/rapidjson/encodings.h:146-176 | every code point but the surrogates is decoded from its encoding, whatever follows |
| `Encodings.ValidateCopies` | muduo/rapidjson/encodings.h:179-202 | Validate accepts exactly what the grammar accepts and copies the bytes unchanged |
| `Encodings.MasksAreRanges` | muduo/rapidjson/encodings.h:204-220 | the byte classes and the masks tested against them are the continuation ranges of the grammar |
| `AsciiWriter.WriteString` | muduo/rapidjson/writer.h:376-448 | with ASCII as target the loop succeeds exactly on well-formed UTF-8, and then puts only ASCII, within the reserved 2 + 12 * length |
| `AsciiWriter.AsciiRoundTrip` | muduo/rapidjson/reader.h:989-1054 | every well-formed UTF-8 string written with \u escapes and surrogate pairs is read back byte for byte |
| `AsciiWriter.TextInverse` | muduo/rapidjson/reader.h:957-1054 | a string or name written for either target is read back byte for byte, wherever it stands |
| `AsciiWriter.UnicodeTextInverse` | muduo/rapidjson/reader.h:904-923 | one escape, or a surrogate pair of escapes, is read back as the code point it was written for |
| `SchemaStreaming.StreamingIsValidity` | muduo/rapidjson/schema.h:2074-2145 | for every schema and every double-free tree: streaming the tree's events through the nested parallel validators gives the verdict of the direct recursive definition, whichever callbacks carry the integers |
| `SchemaStreaming.PartBySchema` | muduo/rapidjson/schema.h:892-939 | the schema that a key or an index selects decides exactly what the definitions of properties, additional properties and items ask of a part |
| `SchemaStreaming.LengthIsMeant` | muduo/rapidjson/schema.h:842-869 | counting decoded sequences compares the number of code points of the text with the bounds, and text that is no UTF-8 passes |
| `SchemaStreaming.CountsCodePoints` | muduo/rapidjson/internal/strfunc.h:49-64 | the encoding of n code points counts n |
| `SchemaStreaming.TypelessAcceptsAll` | muduo/rapidjson/schema.h:409-445 | the empty schema accepts every value without a container of 2^32 parts or a string of 2^32 code points |
| `SchemaStreaming.StreamValue` | muduo/rapidjson/schema.h:2230-2298 | inside any run: a validator goes on behind a valid value with all its other contexts advanced by the same events, and rejects any other value |
| `SchemaStreaming.CombinedVerdict` | muduo/rapidjson/schema.h:745-783 | the verdicts of the validators that ran beside a value decide allOf, anyOf, oneOf and not as the definitions do |
| `SchemaStreaming.ScalarCheck` | muduo/rapidjson/schema.h:1232-1326 | the separate checks for signed and unsigned integers are one comparison of integers |
| `SchemaStreaming.ContainerCheck` | muduo/rapidjson/schema.h:871-1014 | type, size bounds and required properties, collected over the events of a container, are those of the tree |
| `SchemaStreaming.RequiredByName` | muduo/rapidjson/schema.h:941-950 | with distinct property names a required property is met exactly by a member of that name |
| `SchemaStreaming.Dead` | muduo/rapidjson/schema.h:2074-2079 | a verdict against the value is final |
| `SchemaValidator.FindPropertyIndex` | muduo/rapidjson/schema.h:1219-1231 | the loop finds the first property of a name or none |
| `SchemaValidator.CountStringCodePoint` | muduo/rapidjson/internal/strfunc.h:49-64 | the loop counts the code points of a well-formed string and refuses others |
| `SchemaValidator.EndValue` | muduo/rapidjson/schema.h:745-783 | the loops with their early exits compute the combined verdict |
| `SchemaValidator.CheckOne` | muduo/rapidjson/schema.h:761-775 | the oneOf loop holds for exactly one valid validator |
| `SchemaValidator.SchemaKey` | muduo/rapidjson/schema.h:892-939 | a key selects the property, additional or empty schema, notes the property, or is refused |
| `SchemaValidator.GenericSchemaValidator.Parallel` | muduo/rapidjson/schema.h:2081-2091 | every validator of every open context gets the event, and nothing else changes |
| `SchemaValidator.GenericSchemaValidator.Begin` | muduo/rapidjson/schema.h:2230-2259 | the first event of a value: schema found, context pushed, type checked, validators started and fed |
| `SchemaValidator.GenericSchemaValidator.Scalar` | muduo/rapidjson/schema.h:2096-2111 | one scalar: the object shows the next state of the streaming validator |
| `SchemaValidator.GenericSchemaValidator.Start` | muduo/rapidjson/schema.h:2113-2117 | the start of an object or array |
| `SchemaValidator.GenericSchemaValidator.Key` | muduo/rapidjson/schema.h:2119-2125 | one key |
| `SchemaValidator.GenericSchemaValidator.End` | muduo/rapidjson/schema.h:2127-2145 | the end of an object or array: validators fed first, then sizes and combinations checked, then the context popped |
| `ValueEquality.EqualIsMapEquality` | muduo/rapidjson/document.h:931-970 | on trees without repeated names or doubles, operator== is recursive equality of objects as finite maps, with integers compared modulo 2^64 |
| `ValueEquality.EqualIsEquivalence` | muduo/rapidjson/document.h:931-970 | hence it is reflexive, symmetric and transitive there |
| `ValueEquality.PatternsMissTheSign` | muduo/rapidjson/document.h:958-965 | it is equality of integers exactly when no negative number meets one from 2^63 on at the same place |
| `ValueEquality.RepeatedNamesBreakSymmetry` | muduo/rapidjson/document.h:936-944 | two objects, one with a repeated name, that are equal one way and unequal the other way |
| `ValueEquality.EqualDecidesRepeats` | muduo/rapidjson/document.h:931-970 | if the left operand has no repeated names, operator== holds exactly if the right one has none either and both are the same finite maps |
| `ValueEquality.SymmetryExactly` | muduo/rapidjson/document.h:931-970 | with such an operand, both orders of comparison agree exactly unless the other operand, on the left, is called equal in spite of its repeated names |
| `ValueEquality.FindMember` | muduo/rapidjson/document.h:1250-1258 | the loop finds the first member of a name or the end |
| `ValueEquality.EqualTo` | muduo/rapidjson/document.h:931-970 | the recursion with its loops decides that equality |
| `Hashing.EventsGiveTheCode` | muduo/rapidjson/schema.h:220-270 | the events of a tree leave one more code on the hasher's stack, the code of the tree |
| `Hashing.SameCode` | muduo/rapidjson/schema.h:252-269 | trees equal as maps of integers get one code, whatever the order of members at any depth |
| `Hashing.EqualThenSameCode` | muduo/rapidjson/schema.h:220-307 | values that operator== calls equal get equal codes if no negative number meets one from 2^63 on |
| `Hashing.ClashBreaksTheCode` | muduo/rapidjson/schema.h:228-231 | -1 and 2^64 - 1 are equal to operator== and get different codes |
| `Hashing.HashInjective` | muduo/rapidjson/schema.h:302-307 | from one state, different input words lead to different states |
| `Hashing.SwapExactly` | muduo/rapidjson/schema.h:262-269 | two elements of an array can change places without changing the code exactly if a stated equation between their rounds holds |
| `Hashing.ElementOrderShows` | muduo/rapidjson/schema.h:262-269 | an array of null and true and one of true and null get different codes |
| `Hashing.PatternsAreHashedApart` | muduo/rapidjson/schema.h:228-231 | the bytes hashed for two integers agree in their first eight exactly if the 64-bit patterns do |
| `Hashing.LittleEndianValue` | muduo/rapidjson/schema.h:228-231 | these bytes are the word, the least significant first |
| `Hashing.Hasher.WriteBuffer` | muduo/rapidjson/schema.h:292-300 | the loop pushes the code of a buffer |
| `Hashing.Hasher.EndObject` | muduo/rapidjson/schema.h:252-259 | the loop replaces the codes of the members by the code of the object |
| `Hashing.Hasher.EndArray` | muduo/rapidjson/schema.h:262-269 | the loop replaces the codes of the elements by the code of the array |
| `Pointer.ParsedPointerRoundTrip` | muduo/rapidjson/pointer.h:805-975 | every pointer parsed from any text is printed and parsed back to the same tokens, names and indices, and as a URI fragment too when the names are valid UTF-8 |
| `Pointer.StringifyThenParse` | muduo/rapidjson/pointer.h:944-975 | whatever Stringify prints for a list of names, in either form, parses back to that list |
| `Pointer.FragmentsPrintUtf8` | muduo/rapidjson/pointer.h:962-969 | the fragment form can be printed exactly when every name is well-formed UTF-8 |
| `Pointer.PlainAlwaysPrints` | muduo/rapidjson/pointer.h:944-975 | the string form can always be printed |
| `Pointer.PercentReadBack` | muduo/rapidjson/pointer.h:983-1040 | a percent-encoded sequence is decoded as a whole, wherever it stands |
| `PointerGrammar.ParsesTheGrammar` | muduo/rapidjson/pointer.h:805-935 | every text that RFC 6901 generates, as a string or as a fragment with percent-encoding in any case, is parsed to the names it means |
| `PointerGrammar.ParsesNothingElse` | muduo/rapidjson/pointer.h:805-935 | every text that is parsed was generated in such a way |
| `PointerGrammar.PrintsPiece` | muduo/rapidjson/pointer.h:944-975 | each character of a name is printed in one way: escaped, as it is, or as one percent-encoded UTF-8 sequence in upper case |
| `PointerParser.Parse` | muduo/rapidjson/pointer.h:805-935 | in a name buffer as long as the text no write is ever outside, also on texts that are rejected; the tokens hold the names, terminators and indices of the text |
| `PointerParser.ScanInto` | muduo/rapidjson/pointer.h:843-901 | one name: the write cursor stays behind the read cursor, by two in a fragment, so that even the bytes put for a broken percent sequence fit |
| `PointerParser.ToIndex` | muduo/rapidjson/pointer.h:892-920 | the index is a function of the name: decimal digits without a leading zero, converted in 32 bits |
| `PointerParser.SameTokens` | muduo/rapidjson/pointer.h:337-351 | the loop of operator== decides equality of the tokens |
| `PointerTree.GetAfterSet` | muduo/rapidjson/pointer.h:404-450 | for every tree and pointer, Get after Set returns the value set exactly when no "-" met an array on the way; otherwise it finds nothing |
| `PointerTree.SetIsLocal` | muduo/rapidjson/pointer.h:404-450 | for every tree and pointer: a pointer that turns off from it resolves after Set to what it resolved to before, except that an array is lost exactly if the token is neither an index nor "-", and that nulls appear exactly in front of an index behind the end |
| `PointerTree.AppendIsLast` | muduo/rapidjson/pointer.h:409-411 | with "-" at an array all elements keep their places and the value comes behind the last |
| `PointerTree.NewMemberIsLast` | muduo/rapidjson/pointer.h:434-437 | with a new name at an object all members keep their places and the new one comes behind them |
| `PointerTree.SetInside` | muduo/rapidjson/pointer.h:404-450 | below a place that is there Set does what it would do to the value of that place alone |
| `PointerTree.Get` | muduo/rapidjson/pointer.h:482-510 | the loop resolves the pointer or reports the first token that leads nowhere |
| `PointerTree.IndexTokens` | muduo/rapidjson/pointer.h:907-920 | the decimal text of every index below 2^32 - 1 is a token with that index |
| `Timers.RunsAreSafe` | muduo/net/TimerQueue.cc:132-259 | in every run of adds, cancels (also of stale ids), expiries and callbacks that add and cancel, also from their destructors during a reset: both sets hold the same live timers under their current expirations, every live timer has one owner, and no step touches or deletes a deleted timer |
| `Timers.StepKeepsInv` | muduo/net/TimerQueue.cc:132-259 | every step, including those of other threads between two deletions, keeps that invariant |
| `Timers.AlwaysArmed` | muduo/net/TimerQueue.cc:41-81 | in every run, when no batch is running, the descriptor is armed or already due for every scheduled timer no later than its expiration or 100 microseconds after a time at which a step read the clock for arming |
| `Timers.AddArmsExactly` | muduo/net/TimerQueue.cc:132-141 | adding a new earliest timer arms for exactly max(its expiration, clock + 100 microseconds), and other additions leave the alarm |
| `Timers.ResetArmsExactly` | muduo/net/TimerQueue.cc:224-233 | the end of a reset arms in the same way for the earliest timer |
| `Timers.FirstExpiry` | muduo/net/TimerQueue.cc:116-202 | in every run the first expiry that takes a timer does so under the time, repetition and interval asked for, and not before that time |
| `Timers.Periodic` | muduo/net/Timer.cc:10-20 | in every run: of two consecutive expiries that take a timer, the later takes it under exactly the time of the earlier plus its interval, and comes no sooner; only repeating timers are taken twice |
| `Timers.Rescheduled` | muduo/net/TimerQueue.cc:204-222 | in every run: once its batch is through with a timer, it is scheduled exactly at the time of the expiry plus its interval, or gone for good |
| `Timers.TakenWhenDue` | muduo/net/TimerQueue.cc:183-202 | an expiry takes exactly what is due, in order of expiration, and what stays is due later |
| `Timers.CalledOncePerExpiry` | muduo/net/TimerQueue.cc:163-181 | in every run each timer of a batch is called exactly once |
| `Timers.DoneWakes` | muduo/net/TimerQueue.cc:204-233 | after a batch the descriptor is armed no later than max(earliest expiration, arming time + 100 microseconds) |
| `Timers.AddKeepsGone` | muduo/net/TimerQueue.cc:132-141 | an insertion keeps that bound, whether or not it becomes the earliest |
| `Timers.CancelKeepsGone` | muduo/net/TimerQueue.cc:143-161 | a cancellation keeps that bound, also of the earliest timer |
| `Timers.AssertionsHold` | muduo/net/TimerQueue.cc:143-259 | the code's assertions: the sets have one size, what is erased was there, what is inserted was not |
| `Timers.CancelIsHalfDone` | muduo/net/TimerQueue.cc:149-155 | where a cancelled timer and its callback are deleted, one set is smaller than the other by one, so a destructor that adds or cancels there fails the assertion on their sizes |
| `Timers.CancelledInReset` | muduo/net/TimerQueue.cc:208-222 | a cancellation by a destructor during a reset changes nothing: the next timer of the batch is put back exactly if it repeats and was not cancelled before |
| `Timers.IdsAreNew` | muduo/net/TimerQueue.cc:116-124 | in every run two calls of addTimer hand out different ids, although they may get the same address |
| `Timers.StaleIdsAreHarmless` | muduo/net/TimerQueue.cc:143-161 | cancelling an id leaves every timer with another id as it was, also a younger one at the same address |
| `Timers.CancelSilences` | muduo/net/TimerQueue.cc:143-161 | cancelling puts a scheduled timer, or one of the running batch, among the cancelled; no call of it is to come exactly if it was scheduled |
| `Timers.CancelledForever` | muduo/net/TimerQueue.cc:204-222 | in every run: after a Cancel step that hits a scheduled timer, or one of the running batch, the timer is never scheduled again |
| `Timers.NeverCalledAgain` | muduo/net/TimerQueue.cc:143-181 | in every run: after such a Cancel step, once the running batch does not hold the timer or is over, its callback is never called again |
| `Timers.CalledOnceMore` | muduo/net/TimerQueue.cc:163-222 | in every run: a timer cancelled inside its own batch is called exactly once more if its turn had not come, and never if it had |
| `Timers.CancelledStillCalled` | muduo/net/TimerQueue.cc:156-177 | a run in which the first callback of a batch cancels the second timer, which is called nevertheless |
| `TimerQueue.TimerQueue.AddTimer` | muduo/net/TimerQueue.cc:116-124 | a new timer at a free address is the step of the transition system |
| `TimerQueue.TimerQueue.AddTimerInLoop` | muduo/net/TimerQueue.cc:132-141 | insertion and arming are the step of the transition system |
| `TimerQueue.TimerQueue.Insert` | muduo/net/TimerQueue.cc:235-259 | both sets get the timer, and the result says whether it is before all others |
| `TimerQueue.TimerQueue.CancelInLoop` | muduo/net/TimerQueue.cc:143-161 | the cancellation is the step of the transition system |
| `TimerQueue.TimerQueue.GetExpired` | muduo/net/TimerQueue.cc:183-202 | exactly what is due leaves both sets, in order of expiration |
| `TimerQueue.TimerQueue.BeginRead` | muduo/net/TimerQueue.cc:163-172 | the start of a batch is the step of the transition system |
| `TimerQueue.TimerQueue.RunCallback` | muduo/net/TimerQueue.cc:174-177 | the next callback belongs to a live timer |
| `TimerQueue.TimerQueue.ResetTimer` | muduo/net/TimerQueue.cc:208-222 | one round of the loop in reset, with Timer::restart |
| `TimerQueue.TimerQueue.EndReset` | muduo/net/TimerQueue.cc:224-233 | arming for the earliest timer is the step of the transition system |
| `TimerQueue.TimerQueue.Reset` | muduo/net/TimerQueue.cc:204-233 | a whole reset ends idle, with the descriptor armed if a timer is left |
| `EventLoop.NoLostWakeup` | muduo/net/EventLoop.cc:97-263 | in every interleaving: if the loop polls with a functor in its queue and any was asked for since the start, it can wake at once, or a thread is between its Push and its Wakeup step, or the queue holds just what destructors of the last batch queued |
| `EventLoop.SleepsExactly` | muduo/net/EventLoop.cc:154-263 | in every interleaving: a poll with no wakeup to come is one on a new functor exactly when a destructor of the last batch queued |
| `EventLoop.NoLostWakeupWithoutDestructors` | muduo/net/EventLoop.cc:97-263 | in a run in which no functor queues from its destructor, the loop never stays in poll with a new functor and no wakeup to come |
| `EventLoop.DestructorQueuesUnseen` | muduo/net/EventLoop.cc:248-263 | a run that ends in poll with a functor queued by a destructor and nothing to wake the loop |
| `EventLoop.QueueingOrder` | muduo/net/EventLoop.cc:154-263 | in every interleaving: the functors called, then the rest of the batch, then the queue, are the initial queue followed by the functors of all calls of queueInLoop, in the order of the calls |
| `EventLoop.StepKeepsInv` | muduo/net/EventLoop.cc:97-263 | every step of every thread keeps the invariant behind both |
| `EventLoop.OnePassExecutesAll` | muduo/net/EventLoop.cc:97-128 | in every interleaving: from one return of poll to the next poll, every functor that any thread had asked for when poll returned is called, in order |
| `EventLoop.EventLoop.Push` | muduo/net/EventLoop.cc:154-161 | the push under the lock is the step of the calling thread, and the result says whether that thread owes a wakeup |
| `EventLoop.EventLoop.Wakeup` | muduo/net/EventLoop.cc:161-236 | the wakeup is the thread's second step, whatever happened in between |
| `EventLoop.EventLoop.ReadWakeup` | muduo/net/EventLoop.cc:238-246 | reading the descriptor resets its counter |
| `EventLoop.EventLoop.QueueAll` | muduo/net/EventLoop.cc:154-165 | functors that the loop thread queues are appended in order, each with a wakeup while functors are being called and with none while they are destroyed |
| `EventLoop.EventLoop.SwapFunctors` | muduo/net/EventLoop.cc:248-256 | the swap takes all pending functors at once into the batch |
| `EventLoop.EventLoop.RunFunctors` | muduo/net/EventLoop.cc:258-262 | the batch runs in order, to the end, what its functors queue waits behind what is pending, and the flag goes off before the batch is destroyed |
| `EventLoop.EventLoop.DestroyFunctors` | muduo/net/EventLoop.cc:250-263 | what the destructors of the batch queue waits in the queue, in order, without a wakeup |
| `EventLoop.EventLoop.DoPendingFunctors` | muduo/net/EventLoop.cc:248-263 | one whole pass executes all that was pending and leaves in the queue what the calls queued, followed by what the destructors queued, with wakeups only for the former |
| `TcpConnection.Conservation` | muduo/net/TcpConnection.cc:121-167 | in every loop-thread run the bytes the kernel answered to have taken, followed by the output buffer, are the data of all sends that found the connection up, in order, exactly when no send met EPIPE or ECONNRESET with something to say |
| `TcpConnection.InterestIsOutput` | muduo/net/TcpConnection.cc:121-167 | until disconnection write interest is on exactly when the buffer is not empty |
| `TcpConnection.ShutdownOnce` | muduo/net/TcpConnection.cc:169-184 | the write side is shut down at most once, with nothing left to write, everything accepted taken if there was no fault, and no step that writes after it; and it is, as soon as the buffer is empty once shutdown was called |
| `TcpConnection.StatusAdvances` | muduo/net/TcpConnection.cc:169-360 | in every run the status only goes forward from connecting over connected and disconnecting to disconnected |
| `TcpConnection.DisconnectsExactly` | muduo/net/TcpConnection.cc:169-360 | which steps disconnect and which start to, from which status |
| `TcpConnection.ClosedIsQuiet` | muduo/net/TcpConnection.cc:121-167 | in every run: from disconnection on nothing is accepted, taken by the kernel or removed from the output buffer |
| `TcpConnection.StepKeepsInv` | muduo/net/TcpConnection.cc:82-360 | every step keeps the invariant behind these |
| `TcpConnection.TcpConnection.ConnectEstablished` | muduo/net/TcpConnection.cc:279-287 | connectEstablished is that step |
| `TcpConnection.TcpConnection.Send` | muduo/net/TcpConnection.cc:121-167 | send on the loop thread is that step |
| `TcpConnection.TcpConnection.Shutdown` | muduo/net/TcpConnection.cc:169-184 | shutdown is that step |
| `TcpConnection.TcpConnection.HandleWrite` | muduo/net/TcpConnection.cc:317-346 | handleWrite is that step |
| `TcpConnection.TcpConnection.ForceClose` | muduo/net/TcpConnection.cc:210-216 | forceClose is that step |
| `TcpConnection.TcpConnection.HandleClose` | muduo/net/TcpConnection.cc:348-360 | handleClose is that step |
| `TcpConnection.TcpConnection.ConnectDestroyed` | muduo/net/TcpConnection.cc:289-298 | connectDestroyed is that step |
| `AsyncLogging.NothingElseIsLost` | muduo/base/AsyncLogging.cc:30-131 | in every interleaving: pieces handled, batch, filled buffers and current buffer are, in order, the lines of all calls of append that are shorter than a large buffer; and the file holds the pieces that were kept |
| `AsyncLogging.DroppedExactly` | muduo/base/AsyncLogging.cc:71-103 | in every interleaving: the k-th buffer dealt with is the one at its place in the sequence of batches taken, and was dropped exactly if it stood behind the first two of a batch of more than 25 |
| `AsyncLogging.EverythingIsWritten` | muduo/base/AsyncLogging.cc:54-131 | in every interleaving, between two rounds: the file followed by the buffers is all lines of all calls of append exactly when no line was as long as a buffer and no batch taken had more than 25 buffers |
| `AsyncLogging.NothingIsMissing` | muduo/base/AsyncLogging.cc:54-131 | at any time, also inside a round: as long as no line and no batch was too big, the file, the batch and the buffers are all lines of all calls of append |
| `AsyncLogging.DroppedFromBigBatches` | muduo/base/AsyncLogging.cc:88-97 | the rule for one batch: its buffers are dropped only if there are more than 25, and then all but the first two |
| `AsyncLogging.RunsAreSafe` | muduo/base/AsyncLogging.cc:54-131 | a null next buffer implies a filled one, so that no step moves from a null buffer or pops an empty vector |
| `AsyncLogging.SparesAreBack` | muduo/base/AsyncLogging.cc:67-69 | before every round both spare buffers are there and empty |
| `AsyncLogging.FixedBuffer.Append` | muduo/base/LogStream.h:36-44 | a line is taken only if there is more room than it needs |
| `AsyncLogging.AsyncLogging.Append` | muduo/base/AsyncLogging.cc:30-51 | append is a step of the transition system |
| `AsyncLogging.AsyncLogging.TakeBuffers` | muduo/base/AsyncLogging.cc:71-86 | the critical section is a step, and the batch is not empty |
| `AsyncLogging.AsyncLogging.WriteBuffers` | muduo/base/AsyncLogging.cc:88-103 | dropping and writing deal with every buffer of the batch, in order |
| `AsyncLogging.AsyncLogging.RecycleBuffers` | muduo/base/AsyncLogging.cc:105-127 | both spares come back empty |
| `Buffer.Buffer.Append` | muduo/net/Buffer.h:174-193 | the byte sequence grows by the data, whether the storage grew, moved or had room |
| `Buffer.Buffer.MakeSpace` | muduo/net/Buffer.h:382-401 | the contents stay, there is room enough, and the assertion about the reader index holds |
| `Buffer.Buffer.Prepend` | muduo/net/Buffer.h:346-352 | a header goes in front of the contents |
| `Buffer.Buffer.Retrieve` | muduo/net/Buffer.h:105-116 | the contents lose their first bytes |
| `Buffer.Buffer.Shrink` | muduo/net/Buffer.h:354-361 | new storage, same contents, room for the reserve |
| `Buffer.Buffer.ReadFd` | muduo/net/Buffer.cc:18-50 | the contents grow by what was read, also when it overflowed into the second segment |
| `Framing.MessagesArrive` | examples/asio/chat/codec.h:19-54 | any list of messages of at most 65536 bytes is delivered intact and in order however the framed stream is cut into chunks |
| `Framing.MessageReceived` | examples/asio/chat/codec.h:23-41 | a framed message is delivered if it is not longer than that, and stops the decoder if it is |
| `Framing.NetworkOrder` | examples/asio/chat/codec.h:44-54 | the header is the length in four bytes, the most significant first |
| `Framing.OnMessage` | examples/asio/chat/codec.h:19-41 | the loop over a real buffer delivers and keeps what the decoder says |
| `Framing.SendMessage` | examples/asio/chat/codec.h:44-54 | the length goes into the room in front of the message |
| `Framing.ChunksDoNotMatter` | examples/asio/chat/codec.h:19-41 | for both formats: however a stream is cut, what is delivered and what is kept is the same as in one piece, also for malformed streams |
| `Framing.PacketsArrive` | examples/multiplexer/multiplexer_simple.cc:196-227 | any packets with a 16-bit id arrive intact and in order however the stream is cut, except an empty packet at the very end, which waits for more bytes |
| `Framing.PayloadArrives` | examples/multiplexer/multiplexer_simple.cc:127-157 | a client's bytes, cut into packets and sent through any chunks, come out whole under their id |
| `Framing.CutIsWhole` | examples/multiplexer/demux.cc:184-198 | the packets of a buffer are valid, not empty and hold all its bytes |
| `Framing.OnPackets` | examples/multiplexer/demux.cc:79-115 | the receiving loop over a real buffer delivers and keeps what the decoder says |
| `Framing.SendBuffer` | examples/multiplexer/multiplexer_simple.cc:127-140 | with the backend up the loop sends the packets of the whole buffer and empties it; with the backend down it sends nothing and leaves the last packet, header included, in the buffer; the assertion of prepend fails exactly on at most one packet with fewer than three bytes in front of it |
| `Framing.SendPacket` | examples/multiplexer/multiplexer_simple.cc:142-157 | the three-byte header goes in front of the payload, and both are sent or stay; the assertion of prepend fails exactly with fewer than three bytes in front |
| `Framing.MessagesWhileDown` | examples/multiplexer/multiplexer_simple.cc:113-157 | small messages of one client while the backend is down: all pass exactly if there are at most two |
| `Framing.Receive` | muduo/net/TcpConnection.cc:300-315 | chunks of 1 to 65536 bytes read one after the other into one real buffer, with the codec called after each: what is delivered and kept is what the decoder says of the chunks, and so of the stream in one piece |
| `Allocator.HistoriesAreGood` | muduo/rapidjson/allocators.h:158-262 | in every history of Malloc, correctly sized Realloc, Clear and writes, the live blocks are aligned with their chunk, inside its used part, and pairwise disjoint |
| `Allocator.BlocksAreKept` | muduo/rapidjson/allocators.h:158-262 | in every history a block keeps its place, its size and its contents until a write, a Realloc of it or a Clear |
| `Allocator.MallocKeeps` | muduo/rapidjson/allocators.h:189-201 | a new block is disjoint from every live block, and memory does not change |
| `Allocator.MallocExactly` | muduo/rapidjson/allocators.h:189-201 | a block is refused exactly if it is empty or neither the head chunk nor the base allocator has room; it comes behind the used part of the head chunk, or at the start of a new chunk of the larger of both capacities |
| `Allocator.ReallocExactly` | muduo/rapidjson/allocators.h:204-235 | a block keeps its place exactly if it does not grow, or is the last one with room behind it; else it moves to where Malloc puts it |
| `Allocator.ReallocKeeps` | muduo/rapidjson/allocators.h:204-235 | shrinking, growing in place and moving keep the invariant |
| `Allocator.ReallocKeepsContents` | muduo/rapidjson/allocators.h:204-235 | a resized block starts with the old contents, and no other block's contents or size change |
| `Allocator.LastIsInHead` | muduo/rapidjson/allocators.h:218-225 | the address test for the last allocation is met only by a block of the head chunk |
| `Allocator.UsedWithinCapacity` | muduo/rapidjson/allocators.h:158-262 | in every history the used size is within the capacity |
| `Allocator.ClearStartsOver` | muduo/rapidjson/allocators.h:158-166 | in every history Clear leads back to the pool at the start, a user's buffer included, but for what was written into memory |
| `Allocator.BlocksAreAligned` | muduo/rapidjson/allocators.h:189-201 | in chunks at aligned addresses the blocks are aligned |
| `Allocator.MemoryPoolAllocator.Allocate` | muduo/rapidjson/allocators.h:189-201 | Malloc, with a new chunk if needed |
| `Allocator.MemoryPoolAllocator.Reallocate` | muduo/rapidjson/allocators.h:204-235 | Realloc in its three ways |
| `Allocator.MemoryPoolAllocator.AddChunk` | muduo/rapidjson/allocators.h:250-262 | a new chunk becomes the head |
| `Allocator.MemoryPoolAllocator.Clear` | muduo/rapidjson/allocators.h:158-166 | the loop frees every chunk but a user's buffer, which is emptied |
| `Allocator.MemoryPoolAllocator.Size` | muduo/rapidjson/allocators.h:181-186 | the loop adds the used sizes |
| `Allocator.MemoryPoolAllocator.Capacity` | muduo/rapidjson/allocators.h:171-176 | the loop adds the capacities |
| `Calendar.DateOfJulianDay` | muduo/base/Date.cc:26-39 | getYearMonthDay inverts getJulianDayNumber on every valid Gregorian date from 1 March -4800 on |
| `Calendar.NextDayCounts` | muduo/base/Date.cc:17-24 | consecutive dates get consecutive day numbers |
| `Calendar.EveryDayHasADate` | muduo/base/Date.cc:26-39 | every day number from the first day on is that of a valid date, which getYearMonthDay finds |
| `Calendar.UtcRoundTrip` | muduo/base/TimeZone.cc:319-360 | fromUtcTime(toUtcTime(t)) == t for every second from the first day on, also before 1970, and the time in between is a valid one |
| `Calendar.TimeRoundTrip` | muduo/base/TimeZone.cc:319-360 | toUtcTime(fromUtcTime(u)) == u for every valid broken-down time |
| `Calendar.FloorDay` | muduo/base/TimeZone.cc:324-330 | the adjustment turns division towards zero into division towards minus infinity |
| `Calendar.ToUtcTime` | muduo/base/TimeZone.cc:319-346 | the conversion with its local adjustments is the function the laws are about |
| `Calendar.FillHMS` | muduo/base/TimeZone.cc:73-79 | the one way to write a number of seconds as hours, minutes and seconds below 60, with hours below 24 for a day |

## Left out

- Doubles: the value of fractions and exponents, number checks on doubles and their printing; a double is known by its literal.
- ReaderLoops.GenericReader.ParseNumber: the value of a fraction or an exponent is not computed; a double is passed on by its literal, and whether it is too big is a parameter.
- SIMD variants of scanning and skipping: the scalar code is modelled.
- Parser error codes and offsets, and handlers that stop a parse: the two parsers report different errors for some texts.
- In-situ parsing and encodings other than UTF-8 and ASCII.
- The construction of a compiled schema from its JSON text, `$ref`, patternProperties, enum, uniqueItems, dependencies, multipleOf, regular expressions and error reports.
- SchemaValidator.GenericSchemaValidator.Parallel: nested validators are no objects of their own; the validator object keeps them as values and feeds them with the same function; their allocation and destruction is not modelled.
- Hashing.EqualThenSameCode: one direction only; that codes differ after every clash would have to exclude collisions of the hash, so a concrete clash is given instead.
- Changing trees in place: Set returns the new tree; the references that Create hands out and their aliasing are not modelled.
- Index values of pointer tokens above 32 bits: the overflow test does not notice every wrap, and the model converts as the code does.
- Arithmetic of size_t, of seconds and of day numbers is unbounded: allocations near 2^64 and years beyond the range of int are not modelled.
- Sockets, epoll, eventfd and timerfd beyond what their readiness means; failing writes to the eventfd.
- Functors queued on the loop thread before loop() started, and functors left after quit.
- Timers.RunsAreSafe: the destructor of a callback whose timer is being cancelled does nothing in the runs; `CancelIsHalfDone` says what it would find.
- Sends from other threads that race with shutdown, reading, high-water-mark and write-complete callbacks.
- Log lines still buffered when stop lands in the middle of a round, the text of the notice about dropped buffers, and rolling of files.
- The tables of connections and ids of the multiplexer and its other end; only their framing is modelled.
- Time zones other than UTC, week days and days of the year.
- Connector, TcpClient, thread pools, latches, blocking queues, HTTP and the other examples: plumbing around the parts above.
