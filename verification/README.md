# Data collection: configuration, telemetry and scheduling

A Dafny model of the hard parts of the RTU application under
`data-collection-master/Project-App`, with proofs of what it promises.

- **Configuration** (`lib/configor`): UTF-8 and surrogates (`Encoding`), the JSON
  tokenizer and parser (`JsonScanner`, `JsonReader`, `JsonGrammar`, `JsonParser`) and what
  they make of any text (`JsonNumbers`, `JsonTokens`, `JsonEscapes`, `JsonSyntax`), the
  writer and serializer (`JsonLayout`, `JsonWriter`), and what reader and writer make of
  each other's output (`JsonShow`, `JsonStrings`, `JsonRoundTrip`, `JsonFidelity`,
  `JsonCompact`, `JsonPretty`). The reader, the writer, its indent and the input stream
  are classes; their methods are proved against functions on the unread code points and on
  the writes made so far.
- **Telemetry** (`data/DataClass.hpp`, `lib/lib.cpp`): the report form of a data element
  (`Telemetry`), the text log of a set of them (`TelemetryLog`), packed decimals and hex
  text (`Codecs`), check sums (`Crc`), `split` and `list_merge` (`Fields`).
- **Uplink** (`app/up/sendmode.cpp`): fragmentation, the M2/M4 stop-and-wait exchange and
  the M3 sending loop (`Uplink`, `UplinkRuns`).
- **Scheduler** (`app/dataprocess/Ibao.hpp`): `Check_Time` (`Schedule`) and the
  record/release cycle (`Reports`).
- **Field bus and rain** (`app/down`): the request machine (`Requests`) and the rainfall
  accumulators (`Rain`).

Run `dafny verify dfyconfig.toml` here to check everything.

Clocks, the replies of the link, the chunks of the serial port and the contents of
uninitialised buffers are parameters. Exceptions, a failed assertion, an integer overflow
and a loop that is never left are the four failures in `Outcomes`.

Where the code does not do what it is documented or expected to do, the code is modelled
and the exact condition is proved:

- A `\u` escape is padded to the size of the integer type instead of four digits, so
  control characters without a letter and, with escapes, code points from U+007F to U+0FFF
  take the digits that follow them, and an escaped lead surrogate wants a partner
  (`JsonStrings.PointsComeBackIff`, `JsonFidelity.RoundTripIff`). Trail surrogates survive.
- -2^63 is written but overflows when read (`JsonNumbers.DecimalScan`).
- A block comment is read in pairs from a star on: the first `/` that ends an odd run of
  stars closes it, an even run does not, and without an odd one it is never left
  (`JsonGrammar.BlockCommentExactly`, `JsonGrammar.StarsClose`).
- A sign in an exponent takes the next character for a digit, whatever it is, and digits
  are recognised by the low byte of a code point (`JsonTokens.ExponentSwallows`,
  `JsonTokens.WideDigit`).
- UTF-8 is accepted as the lead byte announces it: bytes that may only follow others stand
  for themselves, and sequences of any length are added up (`Encoding.DecodeBits`).
- The report of an empty number or text, read again, does not leave the item empty
  (`Telemetry.EmptyNumberRead`, `Telemetry.EmptyReportRead`).
- A log of more than fifteen items restores nothing (`TelemetryLog.LogCarriesOver`): the
  growing branch of the match buffer cannot be reached (`TelemetryLog.NeverGrows`).
- The sign of a number is not restored from a report (`Telemetry.NumberKeptIff`), and
  identifiers 0xFF to 0xFF00 lead elsewhere (`TelemetryLog.TargetIff`,
  `TelemetryLog.LogCarriesOver`).
- `crc_calculate` looks at the length modulo 256 only (`Crc.Crc16DetectsIff`,
  `Crc.Crc16Residue`, `Crc.UndetectedChange`).
- `Check_Time` truncates, so that polls that begin before `delays` miss the boundary at
  `delays` itself and see earlier ones a second late (`Schedule.RunFiresExactly`,
  `Schedule.FirstBoundaryMissed`); past the range of an int it always fires
  (`Schedule.FiresBeyond`).
- P1 and the five-minute slots part for good once a slot exceeds 254 (`Rain.HourBalances`);
  one call parts them exactly when its slot cannot take the 32-bit amount
  (`Rain.TipBalances`, `Rain.AmountOverflows`).

## Model

| member | source | states |
|---|---|---|
| Encoding.SurrogatesRoundTrip | data-collection-master/Project-App/src/lib/configor/configor_encoding.hpp:57-71 | supplementary code points and surrogate pairs are in bijection |
| Encoding.DecodeEncode | data-collection-master/Project-App/src/lib/configor/configor_encoding.hpp:111-208 | the bytes of a code point (1 to 4 by its range) decode to it whatever follows, and the lead byte alone says how many are read |
| Encoding.DecodeEncodeAll | data-collection-master/Project-App/src/lib/configor/configor_encoding.hpp:111-208 | encoding any code points and decoding one by one restores them exactly, in front of any bytes |
| Encoding.EncodeAllInjective | data-collection-master/Project-App/src/lib/configor/configor_encoding.hpp:111-148 | different code point sequences never have the same encoding |
| Encoding.DecodeBits | data-collection-master/Project-App/src/lib/configor/configor_encoding.hpp:150-208 | any lead byte with as many following bytes as it announces, one to six, decodes to the bits they carry, or to a bad stream above U+10FFFF |
| Encoding.Truncated | data-collection-master/Project-App/src/lib/configor/configor_encoding.hpp:180-201 | a lead byte with fewer bytes behind it than it announces is a bad stream |
| Encoding.ReadBytes | data-collection-master/Project-App/src/lib/configor/configor_encoding.hpp:180-201 | the fall-through switch adds up the bytes it announced, or leaves a bad stream when there are too few |
| Encoding.Decode | data-collection-master/Project-App/src/lib/configor/configor_encoding.hpp:150-208 | one call gives the next code point of the unread bytes, the end, or a bad stream, and moves past exactly the bytes it used |
| JsonReader.Reader.ReadNext | data-collection-master/Project-App/src/lib/configor/json.hpp:227-241 | the current code point becomes the next one, 0 at the end of the input, an exception on bytes that cannot be decoded |
| JsonReader.Reader.SkipSpaces | data-collection-master/Project-App/src/lib/configor/json.hpp:243-253 | white space and comments are skipped as the reference function says |
| JsonReader.Reader.SkipComments | data-collection-master/Project-App/src/lib/configor/json.hpp:255-298 | a `/` opens a line or a block comment or is an error |
| JsonReader.Reader.BlockComment | data-collection-master/Project-App/src/lib/configor/json.hpp:277-293 | a block comment ends at the first `*/` the pairwise loop sees; at the end of the input the loop is never left |
| JsonReader.Reader.ScanNumber | data-collection-master/Project-App/src/lib/configor/json.hpp:457-481 | sign, leading zero, integer or float; a sign without digit aborts |
| JsonReader.Reader.ScanInteger | data-collection-master/Project-App/src/lib/configor/json.hpp:483-500 | the digits are accumulated in 64 bits; overflow is an outcome of its own |
| JsonReader.Reader.ScanLiteral | data-collection-master/Project-App/src/lib/configor/json.hpp:300-317 | the literal is compared character by character, narrowed to a char |
| JsonReader.Reader.Scan | data-collection-master/Project-App/src/lib/configor/json.hpp:159-225 | the next token; a string is announced, not read, and no token is asked for while one is pending |
| JsonReader.Reader.ReadEscapedCodepoint | data-collection-master/Project-App/src/lib/configor/json.hpp:570-594 | four hex digits, as `JsonEscapes.FourDigits` reads them, or an exception |
| JsonReader.Reader.ReadUnicode | data-collection-master/Project-App/src/lib/configor/json.hpp:408-435 | a lead surrogate must be followed by an escaped trail surrogate; together they give the code point |
| JsonReader.Reader.GetString | data-collection-master/Project-App/src/lib/configor/json.hpp:319-455 | entered only on a quote with a string pending, and settles it: each announced string is read exactly once |
| JsonEscapes.HexDigits | data-collection-master/Project-App/src/lib/configor/json.hpp:575-592 | the hex digits of either case, each with the value of its position, and no other character |
| JsonEscapes.FourDigits | data-collection-master/Project-App/src/lib/configor/json.hpp:570-594 | four hex digits of either case give the number they form in base 16, and reading stops behind them |
| JsonEscapes.DigitsOf | data-collection-master/Project-App/src/lib/configor/json.hpp:570-594 | whatever is read as an escaped code point are four such digits |
| JsonEscapes.EscapeRead | data-collection-master/Project-App/src/lib/configor/json.hpp:408-435 | an escape that is no lead surrogate puts the encoding of its number into the string |
| JsonEscapes.PairRead | data-collection-master/Project-App/src/lib/configor/json.hpp:408-435 | two escapes that form a surrogate pair put in the one code point they stand for |
| JsonEscapes.LoneLead | data-collection-master/Project-App/src/lib/configor/json.hpp:408-435 | a lead surrogate without an escaped trail surrogate behind it is an error |
| JsonEscapes.LetterRead | data-collection-master/Project-App/src/lib/configor/json.hpp:381-406 | each of the eight one-letter escapes puts in the character it stands for |
| JsonEscapes.NoSuchEscape | data-collection-master/Project-App/src/lib/configor/json.hpp:437-440 | a backslash in front of any other character is an error |
| JsonEscapes.StringEnds | data-collection-master/Project-App/src/lib/configor/json.hpp:319-377 | a quote ends the string; a control character or the end of the input is an error |
| JsonEscapes.EscapeParsed | data-collection-master/Project-App/src/lib/configor/configor_parser.hpp:99-117 | a document that is one quoted escape: its value for a scalar, an exception for a lone lead surrogate |
| JsonEscapes.LowerCaseParsed | data-collection-master/Project-App/src/lib/configor/json.hpp:584-587 | the document `"\u00e9"` is the string U+00E9 |
| JsonTokens.WhiteSpaceSkipped | data-collection-master/Project-App/src/lib/configor/json.hpp:243-253 | blank, tab, line feed and carriage return are skipped |
| JsonTokens.MarkScanned | data-collection-master/Project-App/src/lib/configor/json.hpp:165-186 | the six marks |
| JsonTokens.WordsScanned | data-collection-master/Project-App/src/lib/configor/json.hpp:188-193 | the three words, letter by letter |
| JsonTokens.WordRefused | data-collection-master/Project-App/src/lib/configor/json.hpp:300-317 | a word is refused at the first letter whose low byte differs |
| JsonTokens.UnexpectedThrows | data-collection-master/Project-App/src/lib/configor/json.hpp:216-219 | any other character is an error |
| JsonTokens.LoneSlash | data-collection-master/Project-App/src/lib/configor/json.hpp:294-297 | so is a slash that opens no comment |
| JsonNumbers.IntegerScanned | data-collection-master/Project-App/src/lib/configor/json.hpp:457-500 | digits behind an optional sign give their number or overflow; a leading zero is a number of its own |
| JsonTokens.WholePartScanned | data-collection-master/Project-App/src/lib/configor/json.hpp:457-500 | digits in front of a point or an exponent: overflow counts there too, and a 0 takes a point only |
| JsonTokens.FloatScanned | data-collection-master/Project-App/src/lib/configor/json.hpp:502-531 | a point needs a digit behind it; an exponent may follow the fraction |
| JsonTokens.ExponentScanned | data-collection-master/Project-App/src/lib/configor/json.hpp:533-568 | an exponent takes digits of which the first is not 0, or a sign and any digits |
| JsonTokens.ExponentRefused | data-collection-master/Project-App/src/lib/configor/json.hpp:533-541 | anything else behind the letter is an error |
| JsonTokens.ExponentSwallows | data-collection-master/Project-App/src/lib/configor/json.hpp:543-559 | behind the sign of an exponent one character of any kind is taken for a digit |
| JsonTokens.WideDigit | data-collection-master/Project-App/src/lib/configor/json.hpp:596-599 | digits are recognised by the low byte of a code point, so that U+0131 counts as one |
| JsonScanner.Scan | data-collection-master/Project-App/src/lib/configor/json.hpp:159-225 | scanning ends unless a block comment opens, consumes input for every token but strings and the end, and announces strings only on a quote |
| JsonScanner.ScanString | data-collection-master/Project-App/src/lib/configor/json.hpp:319-455 | reading a string always ends and never opens a comment that was not there |
| JsonGrammar.Parse | data-collection-master/Project-App/src/lib/configor/configor_parser.hpp:119-227 | on every input in whose code points no `/` is directly followed by `*`, parsing ends by accepting or failing |
| JsonGrammar.BlockCommentExactly | data-collection-master/Project-App/src/lib/configor/json.hpp:277-293 | wherever a block comment opens: it is closed by the first `/` that ends an odd run of stars; without one it is never left, or fails on bytes that cannot be decoded |
| JsonGrammar.LeadingComment | data-collection-master/Project-App/src/lib/configor/json.hpp:255-298 | a document that starts with a block comment is never finished exactly when no `/` ends an odd run of stars in it, and otherwise is what follows the comment |
| JsonGrammar.CommentsSkipped | data-collection-master/Project-App/src/lib/configor/json.hpp:255-298 | line comments, up to a line feed, a carriage return or the end, and block comments that are closed, are skipped like white space, whatever stars they contain |
| JsonGrammar.StarsClose | data-collection-master/Project-App/src/lib/configor/json.hpp:280-291 | a comment of stars only is closed exactly when those behind its opening are odd in number |
| JsonGrammar.ParseWellTyped | data-collection-master/Project-App/src/lib/configor/configor_parser.hpp:158-221 | whatever is accepted has ascending keys, each once, and 64-bit integers |
| JsonParser.DoParse | data-collection-master/Project-App/src/lib/configor/configor_parser.hpp:119-156 | one value, with or without reading its first token; the reader ends right behind it with no string pending |
| JsonParser.DoParseArray | data-collection-master/Project-App/src/lib/configor/configor_parser.hpp:158-193 | the array loop, trailing comma accepted |
| JsonParser.DoParseObject | data-collection-master/Project-App/src/lib/configor/configor_parser.hpp:195-221 | the object loop: the first of equal keys stays; it may end right after a key or a comma |
| JsonParser.ParseJson | data-collection-master/Project-App/src/lib/configor/configor_parser.hpp:99-117 | one value and then the end of the input: the outcome is exactly that of the reference grammar |
| JsonSyntax.AcceptedIff | data-collection-master/Project-App/src/lib/configor/configor_parser.hpp:99-227 | a document is accepted with a value exactly when its lexemes are those of a concrete syntax tree that means this value: the grammar, with trailing commas and an object ending right after a key, stated without the parser |
| Json.EmplaceAscends | data-collection-master/Project-App/src/lib/configor/configor_parser.hpp:212 | emplacing a member keeps the keys ascending |
| Json.EmplaceAdds | data-collection-master/Project-App/src/lib/configor/configor_parser.hpp:212 | a key that is present changes nothing, any other adds one member |
| Json.PrecedesIff | data-collection-master/Project-App/src/lib/configor/configor_parser.hpp:212 | the order of keys is bytewise: decided at the first difference, a proper prefix first |
| JsonWriter.Indent.Reserve | data-collection-master/Project-App/src/lib/configor/configor_serializer.hpp:269-278 | the buffer of indent characters only grows, to the length asked for |
| JsonWriter.Indent.Increment | data-collection-master/Project-App/src/lib/configor/configor_serializer.hpp:237-241 | the depth grows by one and the buffer still holds depth times step characters |
| JsonWriter.Writer.Next | data-collection-master/Project-App/src/lib/configor/json.hpp:696-814 | white space and text of a token; the depth changes by one for brackets only |
| JsonWriter.Writer.PutString | data-collection-master/Project-App/src/lib/configor/json.hpp:826-913 | exactly the escapes of the code points, in quotes; an exception if the bytes cannot be decoded to their end |
| JsonWriter.DoDump | data-collection-master/Project-App/src/lib/configor/configor_serializer.hpp:114-214 | the layout of the tree after what was written before; depth and pending state are back where they were |
| JsonWriter.DumpArray | data-collection-master/Project-App/src/lib/configor/configor_serializer.hpp:149-172 | an array, its elements separated and indented |
| JsonWriter.DumpObject | data-collection-master/Project-App/src/lib/configor/configor_serializer.hpp:118-147 | an object, its members in key order |
| JsonWriter.DumpJson | data-collection-master/Project-App/src/lib/configor/configor_serializer.hpp:95-112 | dumping gives the layout of the tree if all strings and keys can be decoded, and an exception otherwise |
| JsonShow.DumpedDecodes | data-collection-master/Project-App/src/lib/configor/configor_serializer.hpp:114-214 | the bytes of a dump decode to the text of the tree and nothing else |
| JsonCompact.PrettyIsCompact | data-collection-master/Project-App/src/lib/configor/json.hpp:696-814 | a dump indented with white space, without the white space outside string literals, is the compact dump |
| JsonPretty.DumpIsPretty | data-collection-master/Project-App/src/lib/configor/configor_serializer.hpp:114-214 | every dump is the compact dump of the same tree with exactly the new lines, indentation and blanks that a printer looking at its brackets, commas and colons alone puts in |
| JsonCompact.EscapedIsAscii | data-collection-master/Project-App/src/lib/configor/json.hpp:878-903 | with `escape_unicode` every byte of a dump is ASCII |
| JsonNumbers.DecimalScan | data-collection-master/Project-App/src/lib/configor/json.hpp:457-500 | the text of an integer reads back as it, or overflows exactly when the magnitude exceeds 2^63-1 |
| JsonStrings.PlainWritten | data-collection-master/Project-App/src/lib/configor/json.hpp:826-913 | printable characters but the quote and the backslash are written as themselves |
| JsonStrings.LettersWritten | data-collection-master/Project-App/src/lib/configor/json.hpp:841-877 | the seven characters with a letter are written with it |
| JsonStrings.HexTextUpper | data-collection-master/Project-App/src/lib/configor/configor_stream.hpp:612-618 | the digits of an escape are in upper case |
| JsonStrings.EscapeFromText | data-collection-master/Project-App/src/lib/configor/configor_stream.hpp:612-618 | an escape written with too few digits takes the missing ones from the text behind it |
| JsonStrings.SupplementaryRead | data-collection-master/Project-App/src/lib/configor/json.hpp:896-901 | a supplementary code point comes back from its two escapes |
| JsonStrings.StringFromText | data-collection-master/Project-App/src/lib/configor/json.hpp:319-455 | reading the text of any string gives exactly what the code-point level reference says, errors included |
| JsonStrings.PointsComeBackIff | data-collection-master/Project-App/src/lib/configor/json.hpp:878-903 | the code points of a string come back exactly when each of them survives by itself |
| JsonRoundTrip.QuotedBack | data-collection-master/Project-App/src/lib/configor/json.hpp:826-913 | a quoted string or key is announced and read as one token |
| JsonRoundTrip.TokenBack | data-collection-master/Project-App/src/lib/configor/configor_parser.hpp:119-227 | the reader on the text of any tree, at any depth and in front of any delimiter |
| JsonRoundTrip.DumpParses | data-collection-master/Project-App/src/lib/configor/configor_parser.hpp:119-227 | parsing a dump gives exactly the tree described by `ReadBack`, or fails as it says, for every tree that can be dumped and every white-space indentation |
| JsonFidelity.SurvivesRanges | data-collection-master/Project-App/src/lib/configor/json.hpp:878-903 | the code points that survive: without escapes all but the control characters that have no letter; with them also not U+007F-U+0FFF and lead surrogates |
| JsonFidelity.TextComesBackIff | data-collection-master/Project-App/src/lib/configor/json.hpp:826-913 | a byte string comes back exactly when it is canonical UTF-8 and all its code points survive |
| JsonFidelity.PointsFaithfulIff | data-collection-master/Project-App/src/lib/configor/json.hpp:826-913 | the same for a string given by its code points |
| JsonFidelity.ObjectKept | data-collection-master/Project-App/src/lib/configor/configor_parser.hpp:195-221 | an object that comes back unchanged has only members that do: keys cannot trade places or collapse unnoticed |
| JsonFidelity.FaithfulIff | data-collection-master/Project-App/src/lib/configor/configor_parser.hpp:119-227 | a tree comes back exactly when its strings and keys do and it holds no -2^63 |
| JsonFidelity.RoundTripIff | data-collection-master/Project-App/src/lib/configor/configor_serializer.hpp:114-214 | parsing undoes dumping, for every white-space indentation and both escape modes, exactly on the faithful trees |
| JsonFidelity.AcceptedCanBeDumped | data-collection-master/Project-App/src/lib/configor/configor_parser.hpp:99-117 | every accepted document can be dumped again: its strings are canonical and decodable and it holds no -2^63 |
| Codecs.Hex2Bcd | data-collection-master/Project-App/src/lib/lib.cpp:65-79 | the digits of the number that at most eight bytes form, one to a nibble; `bcd2hex` gives that number back modulo 10^16 |
| Codecs.Bcd2Hex | data-collection-master/Project-App/src/lib/lib.cpp:82-93 | the number of little-endian packed decimals, in 64 bits |
| Codecs.BcdRoundTrip | data-collection-master/Project-App/src/lib/lib.cpp:65-93 | for every 64-bit number `bcd2hex` of `hex2bcd` is the number modulo 10^16 |
| Codecs.BigBcd2Hex | data-collection-master/Project-App/src/lib/lib.cpp:96-107 | the number of big-endian packed decimals, in 64 bits |
| Codecs.BigPairsRead | data-collection-master/Project-App/src/data/DataClass.hpp:73-89 | what `_to_report` writes reads back modulo the digits there is room for, and no nibble is above 9 |
| Codecs.LowPairsIsModulo | data-collection-master/Project-App/src/data/DataClass.hpp:73-89 | that modulus is a power of 100, and nothing is lost exactly below it |
| Codecs.BigBcdModulo | data-collection-master/Project-App/src/lib/lib.cpp:96-107 | bytes of any value and number: what their digits add up to, nibbles above 9 taken as they are, modulo 2^64 |
| Codecs.LittleIsBig | data-collection-master/Project-App/src/lib/lib.cpp:82-93 | `bcd2hex` reads the bytes of `bigbcd2hex` from the last one down |
| Codecs.HexArray2Str | data-collection-master/Project-App/src/lib/lib.cpp:232-243 | whole bytes as two upper-case digits, as many as fit, nothing else touched |
| Codecs.Str2HexArray | data-collection-master/Project-App/src/lib/lib.cpp:216-230 | two characters to a byte, as many as fit, nothing else touched |
| Codecs.HexRoundTrip | data-collection-master/Project-App/src/lib/lib.cpp:216-243 | hex text reads back as the bytes it was made from |
| Codecs.HexValues | data-collection-master/Project-App/src/lib/lib.cpp:216-230 | hex digits of either case have their value when text is read, and a dash counts as 13 |
| Codecs.HexUpper | data-collection-master/Project-App/src/lib/lib.cpp:232-243 | and are upper-case when it is written |
| Crc.Crc8 | data-collection-master/Project-App/src/lib/lib.cpp:313-336 | the reference check sum over the bytes |
| Crc.Crc8Detects | data-collection-master/Project-App/src/lib/lib.cpp:313-336 | changing exactly one byte of a message of any length changes its crc8 |
| Crc.Crc8Residue | data-collection-master/Project-App/src/lib/lib.cpp:313-336 | a message followed by one byte checks to 0 exactly when that byte is its crc8 |
| Crc.CrcCalculate | data-collection-master/Project-App/src/lib/lib.cpp:23-40 | the reference check sum over the first `len % 256` bytes: the counter is one byte wide |
| Crc.Crc16DetectsIff | data-collection-master/Project-App/src/lib/lib.cpp:23-40 | in messages of any length, a change confined to two neighbouring bytes shows exactly when it touches a byte before the length modulo 256 |
| Crc.UndetectedChange | data-collection-master/Project-App/src/lib/lib.cpp:25-27 | a change in a message of 256 bytes that is not seen |
| Crc.Crc16Residue | data-collection-master/Project-App/src/lib/lib.cpp:23-40 | up to 255 bytes in all, two appended bytes give 0 exactly when they are the low and then the high byte of the check sum; beyond, they do not matter and the sum is that of the bytes before the total modulo 256 |
| Crc.Polynomial8 | data-collection-master/Project-App/src/lib/lib.cpp:313-336 | the polynomial 0x07, high bit first |
| Crc.Polynomial16 | data-collection-master/Project-App/src/lib/lib.cpp:23-40 | the polynomial 0xA001, low bit first |
| Fields.Split | data-collection-master/Project-App/src/lib/lib.cpp:892-910 | the non-empty pieces in front of occurrences of the pattern, all of them, in order |
| Fields.FieldsSeparate | data-collection-master/Project-App/src/lib/lib.cpp:892-910 | there is exactly one such list |
| Fields.ListMerge | data-collection-master/Project-App/src/lib/lib.cpp:911-919 | each string followed by the pattern |
| Fields.SplitOfMerged | data-collection-master/Project-App/src/lib/lib.cpp:892-919 | splitting undoes merging exactly when in each string the pattern does not begin, not even running on into the one behind it |
| Fields.WholeOne | data-collection-master/Project-App/src/lib/lib.cpp:892-919 | for a pattern of one character: non-empty strings without it |
| Telemetry.Element.IsZero | data-collection-master/Project-App/src/data/DataClass.hpp:188-222 | whether the item is empty, as its format marks it |
| Telemetry.Element.PackedLength | data-collection-master/Project-App/src/data/DataClass.hpp:143-150 | size and decimals in one byte, one more for a negative number; the decimals can always be read back, the size exactly when it is below 32 |
| Telemetry.Element.PutBcd | data-collection-master/Project-App/src/data/DataClass.hpp:73-89 | the magnitude, two digits to a byte, from the last byte down |
| Telemetry.Element.ToReport | data-collection-master/Project-App/src/data/DataClass.hpp:296-357 | identifier, packed length and contents; 0xFF throughout when empty; one more 0xFF for a negative number; the written bytes tell identifier, decimals and size |
| Telemetry.Element.FromReport | data-collection-master/Project-App/src/data/DataClass.hpp:379-425 | value and buffers as a report leaves them, for each of the three formats |
| Telemetry.PackedBack | data-collection-master/Project-App/src/data/DataClass.hpp:143-150 | the size can be told from the packed length exactly when it is below 32 |
| Telemetry.DecimalsPacked | data-collection-master/Project-App/src/data/DataClass.hpp:143-150 | the decimals of every valid item can be told from its packed length |
| Telemetry.ReportShape | data-collection-master/Project-App/src/data/DataClass.hpp:296-357 | a report is the low byte of the identifier, after 0xFF if that is above 0xFF00, a byte with the size above the decimals, and as many bytes of contents |
| Telemetry.WaterLevelReport | data-collection-master/Project-App/src/data/DataClass.hpp:296-357 | the bytes of the water level 1.234: 39 23 00 00 12 34 |
| Telemetry.EmptyIff | data-collection-master/Project-App/src/data/DataClass.hpp:188-222 | empty means: the reserved number, bytes that are all 0xFF, a text that ends at once |
| Telemetry.EmptyReportRead | data-collection-master/Project-App/src/data/DataClass.hpp:379-425 | the report of an empty item, read again, leaves bytes empty but a text not |
| Telemetry.EmptyNumberRead | data-collection-master/Project-App/src/data/DataClass.hpp:389-401 | nor is a number of up to nine bytes empty then: each 0xFF counts 165 in base 100 |
| Telemetry.NumberElsewhere | data-collection-master/Project-App/src/data/DataClass.hpp:389-401 | a number read into one of another size: all of it, or its leading digits if there is less room |
| Telemetry.BytesElsewhere | data-collection-master/Project-App/src/data/DataClass.hpp:402-425 | bytes or a text read into an item of another size: as many as both have, the rest untouched, a text ended behind them |
| Telemetry.SignedIs | data-collection-master/Project-App/src/data/DataClass.hpp:389-401 | the 64-bit result is taken as signed |
| Telemetry.NumberKeptIff | data-collection-master/Project-App/src/data/DataClass.hpp:389-401 | the number that comes back is the one reported exactly when it is not negative and has no more digits than there is room for; the magnitude always fits below that |
| Telemetry.ReportRestores | data-collection-master/Project-App/src/data/DataClass.hpp:296-465 | the report of a non-empty item, read into any item of the same configuration, carries over its value whatever else is in the buffer |
| Telemetry.RestoredValid | data-collection-master/Project-App/src/data/DataClass.hpp:379-425 | any report at all leaves a proper item of the same configuration |
| Telemetry.SameReading | data-collection-master/Project-App/src/data/DataClass.hpp:379-425 | whatever item a report is read into, it leaves there nothing but what the report says |
| TelemetryLog.Search | data-collection-master/Project-App/src/lib/lib.cpp:461-589 | all maximal runs of hex digits and dashes, from left to right, or a failure when there are more than fifteen |
| TelemetryLog.MatchedBetween | data-collection-master/Project-App/src/lib/lib.cpp:461-589 | a run of report characters between any others is one match, followed by those of the rest |
| TelemetryLog.InReportIff | data-collection-master/Project-App/src/data/DataClass.hpp:662 | the characters of the pattern |
| TelemetryLog.MatchesOfJoined | data-collection-master/Project-App/src/data/DataClass.hpp:725-749 | the tokens of a log are the reports it was joined from |
| TelemetryLog.TargetIff | data-collection-master/Project-App/src/data/DataClass.hpp:680-690 | a report leads back to its item exactly when the identifier is below 0xFF or above 0xFF00 |
| TelemetryLog.LogLands | data-collection-master/Project-App/src/data/DataClass.hpp:654-724 | for any items: loading their log reads each report in turn into the item its leading bytes name, or the spare one; more than fifteen change nothing |
| TelemetryLog.LandShows | data-collection-master/Project-App/src/data/DataClass.hpp:684-691 | a report that comes through sets its item and no other |
| TelemetryLog.LandsAt | data-collection-master/Project-App/src/data/DataClass.hpp:680-690 | a report changes the item its leading bytes name, or the spare one, and nothing else |
| TelemetryLog.StrayReads | data-collection-master/Project-App/src/data/DataClass.hpp:684-691 | a report in another item leaves there nothing but what it says, unless its identifier ends in 0xFF |
| TelemetryLog.LogCarriesOver | data-collection-master/Project-App/src/data/DataClass.hpp:654-724 | a log of any items, loaded into another instance: every item that was not empty and can come through is set, and everything else is as it was, except for the items that reports lead to which cannot come through; with more than fifteen reports nothing changes |
| TelemetryLog.LogRestoresAll | data-collection-master/Project-App/src/data/DataClass.hpp:654-724 | if all items can come through and at most fifteen are not empty, each of these is set and nothing else changes |
| TelemetryLog.LogFits | data-collection-master/Project-App/src/data/DataClass.hpp:725-749 | the log of up to fifteen such items fits its buffer |
| TelemetryLog.DataClass.DataClassInit | data-collection-master/Project-App/src/data/DataClass.hpp:523-575 | one empty item per configuration, with buffers of its own; the index holds the last position of each identifier |
| TelemetryLog.DistinctIndexed | data-collection-master/Project-App/src/data/DataClass.hpp:571-573 | distinct identifiers lead to their items |
| TelemetryLog.DataClass.Find | data-collection-master/Project-App/src/data/DataClass.hpp:596-609 | the item of an identifier cut to 16 bits, or the spare one |
| TelemetryLog.DataClass.ToLog | data-collection-master/Project-App/src/data/DataClass.hpp:703-724 | the hex reports of the items that are not empty, each followed by a comma |
| TelemetryLog.DataClass.FromLog | data-collection-master/Project-App/src/data/DataClass.hpp:654-702 | every token is taken in turn into the item its identifier leads to, whatever the uninitialised buffer held |
| Uplink.SendMode.Init | data-collection-master/Project-App/src/app/up/sendmode.cpp:109-126 | the fields, the length cut to 1008 and the number of fragments |
| Uplink.SendMode.GetSnSize | data-collection-master/Project-App/src/app/up/sendmode.cpp:50-64 | the size of a fragment, within the message and the packet; the last one ends the message |
| Uplink.Job.FragmentsCover | data-collection-master/Project-App/src/app/up/sendmode.cpp:50-76 | the fragments make up the message; none is empty or longer than a packet; exactly the last is marked ETX, the others ETB |
| Uplink.Job.FrameMarks | data-collection-master/Project-App/src/app/up/sendmode.cpp:177-189 | by the length of the message alone: a single packet starts with STX, those of a longer message with SYN; the last ends with ETX, the others with ETB; command, address and bytes are those of the message |
| Uplink.SendMode.Poll | data-collection-master/Project-App/src/app/up/sendmode.cpp:189-203 | the first reply within the ticks of the 10 ms loop |
| Uplink.SendMode.SendFragment | data-collection-master/Project-App/src/app/up/sendmode.cpp:182-232 | at most three transmissions of one fragment, and what they led to |
| Uplink.SendMode.EncodeFragment | data-collection-master/Project-App/src/app/up/sendmode.cpp:178-189 | the arguments of the frame encoder for a fragment |
| Uplink.SendMode.M3Send | data-collection-master/Project-App/src/app/up/sendmode.cpp:66-94 | one numbered fragment goes out; 0 exactly when the device has sent it within the time allowed, rounded up to 10 ms |
| Uplink.SendMode.SendInRow | data-collection-master/Project-App/src/app/up/sendmode.cpp:247-258 | the numbered fragments go out in order, all of them unless one is not sent in time |
| Uplink.NumberedPayloads | data-collection-master/Project-App/src/app/up/sendmode.cpp:66-94 | the numbers run from 1 to the total, each with its own fragment |
| Uplink.SendMode.WaitAcknowledged | data-collection-master/Project-App/src/app/up/sendmode.cpp:164-243 | what goes out and the result are exactly those of the reference exchange with the link; nothing for an empty message |
| UplinkRuns.HeardFirst | data-collection-master/Project-App/src/app/up/sendmode.cpp:189-203 | what is heard is the first reply within the ticks, and silence takes all of them |
| UplinkRuns.SentInOrder | data-collection-master/Project-App/src/app/up/sendmode.cpp:164-243 | every transmission is a fragment of the message; the next one follows only after an accepted reply to this one, which is otherwise sent again |
| UplinkRuns.SentFrames | data-collection-master/Project-App/src/app/up/sendmode.cpp:164-243 | every transmission of an exchange carries these marks, its command and address, and the payload of its fragment |
| UplinkRuns.NumberedFrames | data-collection-master/Project-App/src/app/up/sendmode.cpp:66-94 | and so does every frame of mode M3, with its number and the total |
| UplinkRuns.ExchangeListens | data-collection-master/Project-App/src/app/up/sendmode.cpp:189-203 | each transmission hears what the link delivers in its own ticks, which follow those of the one before |
| UplinkRuns.TimeTaken | data-collection-master/Project-App/src/app/up/sendmode.cpp:189-203 | an exchange takes at most 10 ms more than the time allowed for each transmission, and one that hears nothing more than that time |
| UplinkRuns.SentThriceAtMost | data-collection-master/Project-App/src/app/up/sendmode.cpp:181-232 | no fragment is sent more than three times; success means none was refused three times |
| UplinkRuns.FailureExplained | data-collection-master/Project-App/src/app/up/sendmode.cpp:217-231 | -1 means that some fragment was sent three times without an accepted reply |
| UplinkRuns.LastDecides | data-collection-master/Project-App/src/app/up/sendmode.cpp:205-216 | 0 exactly when the last transmission was accepted, and then it was the last fragment or the reply ended the exchange |
| UplinkRuns.DeliveredInOrder | data-collection-master/Project-App/src/app/up/sendmode.cpp:164-243 | the payloads acknowledged are the first fragments of the message, each once |
| UplinkRuns.ExchangeSafety | data-collection-master/Project-App/src/app/up/sendmode.cpp:164-243 | for whole exchanges: at most three sends each, -1 exactly after three refusals of one fragment, and 0 without EOT or ESC only when the whole message was acknowledged |
| Schedule.CheckTime | data-collection-master/Project-App/src/app/dataprocess/Ibao.hpp:127-139 | fires exactly when a boundary is seen since `last`, also when the clock goes back, and moves `last` only then |
| Schedule.QuotientGrows | data-collection-master/Project-App/src/app/dataprocess/Ibao.hpp:122-126 | from the first boundary on, the quotient grows exactly when a boundary lies in between |
| Schedule.LastKeepsUp | data-collection-master/Project-App/src/app/dataprocess/Ibao.hpp:127-139 | in every run of polls, however long ago it fired, `last` is in the same cycle as the latest poll |
| Schedule.RunFiresExactly | data-collection-master/Project-App/src/app/dataprocess/Ibao.hpp:122-139 | over any nondecreasing polls, the next one fires exactly when a boundary after `delays` lies after the poll before and not after this one, or one before `delays` not before that poll and before this one |
| Schedule.FiresOncePerBoundary | data-collection-master/Project-App/src/app/dataprocess/Ibao.hpp:122-139 | for polls from `delays` on these are all boundaries, as documented: none is missed, none fires twice |
| Schedule.FirstBoundaryMissed | data-collection-master/Project-App/src/app/dataprocess/Ibao.hpp:122-139 | before `delays` the documented rule fails: the boundary at `delays` itself is missed |
| Schedule.FiresExactly | data-collection-master/Project-App/src/app/dataprocess/Ibao.hpp:127-139 | for all times, exactly which boundaries make a check fire |
| Schedule.NarrowedIs | data-collection-master/Project-App/src/app/dataprocess/Ibao.hpp:129-131 | the quotient kept in an int is the same modulo 2^32, and the same exactly in its range |
| Schedule.FiresBeyond | data-collection-master/Project-App/src/app/dataprocess/Ibao.hpp:129-138 | past that range every check fires |
| Schedule.NeverFires | data-collection-master/Project-App/src/app/dataprocess/Ibao.hpp:127-139 | with a negative cycle the check never fires while time goes on |
| Reports.BaoBase.RecordCheck | data-collection-master/Project-App/src/app/dataprocess/Ibao.hpp:165-176 | due when the interval is at least a minute, no record is pending and the check fires; for additional reports also only with flags, which become the code |
| Reports.BaoBase.Polled | data-collection-master/Project-App/src/app/dataprocess/Ibao.hpp:222-241 | check, record and release: new state and events are those of the reference step |
| Reports.RecordedIff | data-collection-master/Project-App/src/app/dataprocess/Ibao.hpp:165-188 | a poll makes a record exactly when the interval is at least a minute, none is pending, a boundary of the record delays is seen, and additional reports have flags |
| Reports.ReleasedIff | data-collection-master/Project-App/src/app/dataprocess/Ibao.hpp:228-239 | a pending record is released exactly when a boundary of the report delays is seen |
| Reports.PollDecides | data-collection-master/Project-App/src/app/dataprocess/Ibao.hpp:222-241 | both halves of a poll by the boundaries they see: what happens, and the whole of the flags and times after it |
| Reports.PendingUntilDue | data-collection-master/Project-App/src/app/dataprocess/Ibao.hpp:222-241 | interval 300, delays 3 and 10, polled at 303: recorded, and not yet released |
| Reports.BaoBase.Intervals | data-collection-master/Project-App/src/app/dataprocess/Ibao.hpp:244-250 | the three intervals are set and nothing else |
| Reports.BaoBase.CheckReport | data-collection-master/Project-App/src/app/dataprocess/Ibao.hpp:191-196 | the release flag, cleared on request |
| Reports.RecordedAtCycleStart | data-collection-master/Project-App/src/app/dataprocess/Ibao.hpp:178-188 | a record carries the start of the cycle it is saved in; before the epoch its end, since the remainder is truncated |
| Reports.CodeSplits | data-collection-master/Project-App/src/app/dataprocess/Ibao.hpp:288-292 | the flags of an additional report can be read back from its code |
| Reports.OfferedIsReleased | data-collection-master/Project-App/src/app/dataprocess/Ibao.hpp:191-241 | a record is offered for reporting exactly when one has been released since the flag was last cleared |
| Reports.PendingIsLast | data-collection-master/Project-App/src/app/dataprocess/Ibao.hpp:191-241 | the events since then are the last ones of the run |
| Reports.RunAlternates | data-collection-master/Project-App/src/app/dataprocess/Ibao.hpp:165-250 | in every run records and releases alternate, starting with a record: one is outstanding exactly when `record_enable` holds |
| Reports.RecordsWithinBoundaries | data-collection-master/Project-App/src/app/dataprocess/Ibao.hpp:165-241 | while the interval stays there are at most as many records as boundaries since the start |
| Requests.Dfsm.Init | data-collection-master/Project-App/src/app/down/dfsm.cpp:46-65 | the message if there is one, cut to 200 bytes; empty receive buffer; retries; ready to send |
| Requests.Dfsm.Process | data-collection-master/Project-App/src/app/down/dfsm.cpp:67-119 | one step of the machine, as the reference step |
| Requests.Dfsm.Receive | data-collection-master/Project-App/src/app/down/dfsm.cpp:9-31 | a chunk is appended as far as there is room; enough bytes announce a packet |
| Requests.RunKeeps | data-collection-master/Project-App/src/app/down/dfsm.cpp:9-119 | in every run sends, retries left and a pending send add up to the retries asked for and one; the buffer is the first 200 bytes received; until a callback a packet is announced exactly when as many bytes as wanted have come |
| Requests.RunBounded | data-collection-master/Project-App/src/app/down/dfsm.cpp:67-119 | at most max(retries, 0) + 1 sends, all of one message; at most one callback, once; a timeout only after all sends, a packet only with as many bytes as wanted |
| Requests.WaitsTwoSeconds | data-collection-master/Project-App/src/app/down/dfsm.cpp:67-85 | while the machine waits, its deadline is 2000 ms after the latest transmission |
| Requests.TickDecides | data-collection-master/Project-App/src/app/down/dfsm.cpp:67-119 | a tick while waiting delivers the packet exactly when as many bytes as wanted have come and the deadline has not passed; only after it the message is sent again or the request given up |
| Rain.Meter.Init5Min | data-collection-master/Project-App/src/app/down/rain.cpp:147-152 | P1 is 0 and all slots are empty |
| Rain.Meter.Increase | data-collection-master/Project-App/src/app/down/rain.cpp:155-165 | an empty item takes the amount, any other adds it |
| Rain.Meter.IncreaseDrp | data-collection-master/Project-App/src/app/down/rain.cpp:168-176 | the same for a slot of one byte, which wraps around |
| Rain.Meter.RainCalculation | data-collection-master/Project-App/src/app/down/rain.cpp:218-259 | all accumulators after a call, with the count entering twice, in 32-bit arithmetic |
| Rain.SlotShows | data-collection-master/Project-App/src/app/down/rain.cpp:168-176 | a slot never shows more than fell in it, and exactly that as long as it is at most 254 |
| Rain.SlotHolds | data-collection-master/Project-App/src/app/down/rain.cpp:147-176 | a slot is 0xFF from the start of the hour until rain is put in, and then holds what fell as long as that is at most 254 |
| Rain.AmountExact | data-collection-master/Project-App/src/app/down/rain.cpp:223-228 | the amount of a call is its count squared times the unit as long as that is below 2^31 |
| Rain.AmountModulo | data-collection-master/Project-App/src/app/down/rain.cpp:223-228 | overflows or not, it is the squared count times the unit modulo 2^32 |
| Rain.AmountOverflows | data-collection-master/Project-App/src/app/down/rain.cpp:223-228 | a count and a unit whose amount overflows into a negative number |
| Rain.TipBalances | data-collection-master/Project-App/src/app/down/rain.cpp:218-259 | one call keeps P1 equal to the sum of the slots exactly when its slot can take the amount, an overflowed one included |
| Rain.HourTotal | data-collection-master/Project-App/src/app/down/rain.cpp:218-259 | P1 is all the rain since the hour began |
| Rain.TotalsGrow | data-collection-master/Project-App/src/app/down/rain.cpp:236-249 | P1, PJ and PT each grow by all the rain that falls |
| Rain.HourBalances | data-collection-master/Project-App/src/app/down/rain.cpp:147-259 | from the start of an hour, over any tips whose amounts have not become negative, P1 equals the sum of the slots in use exactly when no slot received more than 254 |
| Rain.TotalsAfterTip | data-collection-master/Project-App/src/app/down/rain.cpp:249-257 | after a tip PT and the stored total agree exactly when they did before, or the stored one was empty, or it was 0 and PT empty |
| Rain.TotalsAgree | data-collection-master/Project-App/src/app/down/rain.cpp:249-257 | once they agree they agree for ever |

## Left out

- JSON floats: which characters belong to one is modelled, its value and its text are not; trees with floats are not dumped.
- UTF-16, UTF-32 and the conversion between source and target encodings; only UTF-8 on both sides.
- The texts of error messages, and the value left half built when parsing throws.
- The width of the nesting depth and of recursion: both are unbounded here.
- The state flags of the output stream, which never go bad on a string.
- configor's binders, iterators, allocators, stream adapters and error handlers; the copy under `src/daemon/configor` is the same code.
- Fields.Split: an empty pattern, on which the original never advances, is excluded.
- Telemetry.Element.ToReport: the smallest 64-bit number is excluded, since taking its magnitude is undefined in C++; decimals take three bits (`fl` below 8), as in all configuration tables.
- TelemetryLog.DataClass.ToLog: required to fit its buffers, as `TelemetryLog.LogFits` shows for up to fifteen items; what the original does beyond the end of a buffer is undefined.
- TelemetryLog.DataClass.FromLog: tokens are shorter than the 1000 characters of the local buffer they are copied to.
- TelemetryLog.Search: the POSIX engine is replaced by its meaning on this one pattern; allocation never fails.
- The formats HHmm, STRING, StringVector, HEXNum and JPG, where encoder and decoder are not inverse, and `DataClass::fromreport` on raw bytes.
- Uplink.SendMode.WaitAcknowledged: a reply arrives as one event with command and end character, at most one a tick, as if the callback that copies the end character (`app/up/thread_up.cpp:31-50`) were part of it; the callbacks, M1, and the reply loop of M3 are not modelled; `upacket_encodehex` is kept as the arguments it is given.
- Uplink.SendMode.Init: packet sizes are positive.
- Reports.BaoBase.Polled: saving to the database and the log text are one event; `RawBao` and `BuBaoBase`, which read the database, are not modelled; the end of an interval at INT_MAX is outside `Schedule.Fits`.
- Requests.Dfsm.Process: callbacks are logged, not run; the serial port is not modelled.
- Rain.Meter.RainCalculation: the 32-bit amount wraps around here where C++ leaves the overflow undefined; the accumulated values do not wrap around at 64 bits; the alarm check and the daily and current totals recomputed from the database are not modelled.
- Sockets, FTP, serial ports, processes, SQLite, logging and threads.
