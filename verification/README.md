# A verified model of tnef

tnef unpacks TNEF mail attachments.  This project models its decoders and proves what they are for: what is
written by the rules of a format is read back unchanged, each decoder agrees with a simple description of
that format, and the mutable state the program reuses never shows in its results.

The loops and the state are modelled as the C code has them: the ring dictionary of the RTF decoder, `argv`,
buffers and file positions are arrays and fields that methods overwrite.  Every such method is proved against
a function on values, and the theorems are about those functions.  What such a function computes is also said
without it, in codes and indices: which text a stream spells, which option a name selects, which bytes are
read for each type, which characters are escaped.

| file | what it models |
|---|---|
| `Lz`, `Ring`, `Decompress`, `Tokens`, `Preload` | the compressed-RTF decoder: unbounded-history description, ring dictionary, the loops themselves, token streams and what a text must be to be their meaning, the text it starts with |
| `Bits`, `Crc` | the bits of a byte; the table-driven checksum and bit-at-a-time division |
| `Rtf`, `Message` | the header around a compressed or stored text; the bodies in a message |
| `Options`, `Getopt`, `CommandLine` | the bundled `getopt_long`: meaning of a command line; the scanner that permutes `argv`; writing command lines, mistakes included |
| `Mapi`, `MapiWriter` | the MAPI property parser; a writer for the same format |
| `Utf8`, `Path` | UTF-16LE to UTF-8; file names |
| `Attributes`, `Files`, `Tnef`, `Assembly` | attributes, the reused `File`, the main loop; the loop as split-and-fold |
| `Latest`, `Saving` | last writes; what is on the disk after a run, when names clash and when they do not |
| `EndToEnd` | from attachments and bodies put into a file to what comes out |
| `Alloc` | overflow-checked allocation sizes |
| `Bytes`, `Wrappers` | little-endian integers; `Option` and `Result` |

`exit`, `abort` and failed assertions are results (`Failure`), and so is a read that no check keeps inside its
buffer (`OutOfBounds`).  Input files are byte sequences with a position, the disk is a map from paths to
contents, and the memory `malloc` finds a parameter.

## What the code does differently from what is written about it

- `doc/file-format.txt:55` gives the signature as 0x22e9f78; the code compares with 0x223e9f78
  (`src/tnef.h:34`), and the model follows it.
- `doc/file-format.txt:44` puts the attribute that starts a file at message level; the code looks at its name
  only (`src/tnef.c:282`), so the theorems allow either level.
- U+07FF is written in three bytes instead of two, and surrogates one by one (`src/util.c:94`).
  `Utf8.IsRfcEncoding` says exactly which texts come out as RFC 3629 wants them.
- Several values of a type other than INT, SYSTIME and the string, object and binary types all land in the
  first place (`src/mapi_attr.c:260-302`).  `MapiWriter.ValuesKept` says exactly which properties survive.
- A list of no properties is refused, as it is only four bytes long (`src/mapi_attr.c:176`), and so is the
  longest list the count has room for (178).  `MapiWriter.RoundTrip` has both.
- The comment in `src/path.c:113` hopes that five places suffice for the number of a backup.
  `Path.FindFreeNumber` says for which existing files they do, and `Path.NumberOverflows` when not.
- A compressed stream that announces no text is refused by an assertion (`src/rtf.c:190`), so of all texts
  just the empty one cannot be sent this way: `Rtf.TextRoundTrip`.
- A stored text is copied from byte 4 of its value instead of from behind the header (`src/rtf.c:327`).
  `Rtf.StoredComesBack` says which texts come back all the same.
- In a buffer whose length is no multiple of four the padding after a string can carry the cursor of the MAPI
  parser past the end, where nothing checks the start of a class id (`src/mapi_attr.c:219`, 300).
  `Mapi.SafeLengths` says exactly at which lengths this cannot happen.
- Only the first call of getopt drops a leading `-` or `+` from the option string; later calls look options up in
  the string as it was passed (`src/replace/getopt_long.c:488`).  The specification of a run says so too.
- After the last call of getopt `last_nonopt` may lie behind `optind`, so the order the other calls keep ends
  there: `Getopt.Scanner.GetoptLong` says for which command lines, and `Getopt.OrderLost` has the shortest.
- An ambiguous `-W name` uses up one more element, whatever it is (`src/replace/getopt_long.c:829`); if there
  is none, `optind` ends behind `argc`.  `Options.RunsPastExactly` says which option tables make this possible.

## Model

| member | source | states |
|---|---|---|
| Lz.DistanceOfOffset | src/rtf.c:238-243 | an offset is the end marker exactly when it is the write position, and any other stands for a distance from 1 to 4095 that determines it |
| Lz.CopyRepeats | src/rtf.c:257-265 | every byte of a copy is the byte so many places before it, also where the copy overlaps itself, and 0 before the beginning |
| Lz.StepStops | src/rtf.c:211-282 | a control byte, literal or reference that is cut off or finds no room adds nothing and ends the run with an overrun |
| Lz.PaddedAt | src/rtf.c:192 | the output buffer byte by byte: the text, then zeros |
| Lz.FinishStep | src/rtf.c:203-292 | one control byte, literal or reference does not change how a run ends |
| Lz.RunMonotone | src/rtf.c:203-292 | from any state, more input and more room only append to the text |
| Lz.TruncationMonotone | src/rtf.c:192-292 | cutting the input or the output buffer gives a prefix of the full text |
| Ring.SlotIsLastCongruent | src/rtf.c:182-186 | a slot of the dictionary holds the most recent byte whose index falls on it |
| Ring.SlotNeverWritten | src/rtf.c:182 | a slot no byte has fallen on holds 0 |
| Ring.SlotAtDistance | src/rtf.c:259-263 | reading a slot is looking back by its distance, around the end of the ring too |
| Ring.MirrorsAfterPush | src/rtf.c:285-288 | writing at the write position keeps the dictionary a mirror of the history |
| Ring.MirrorsInitially | src/rtf.c:180-186 | the zeroed dictionary with the preload mirrors the preload |
| Decompress.Emit | src/rtf.c:285-288 | dictionary and output agree with the history after each byte, and the write position is the history's length mod 4096 |
| Decompress.CopyReference | src/rtf.c:257-265 | overlapping and wrapping copies append bytes from one constant distance |
| Decompress.ReadToken | src/rtf.c:221-291 | one literal or reference does what the description over an unbounded history says, overruns and the end marker included |
| Decompress.ControlRun | src/rtf.c:217-291 | the eight tokens of a control byte, or those before the end, leave the rest of the run to finish as described |
| Decompress.DecompressAfter | src/rtf.c:180-299 | for every input, preload and size the output buffer is the description's text, then zeros, and the end flag is the description's; what that text is: `Tokens.DecodedSpells` |
| Tokens.RunIsMeaning | src/rtf.c:203-292 | from any state the decoder computes the meaning of the tokens it reads |
| Tokens.DecodedIsMeaning | src/rtf.c:203-299 | whatever the input, the text is the meaning of a valid list of tokens |
| Tokens.MeaningIsSpelled | src/rtf.c:238-290 | the meaning of a list of tokens is the one text that begins with the preload and in which each literal stands where it should and each reference repeats the text as many places back as its offset lies behind, with no other definition involved |
| Tokens.DecodedSpells | src/rtf.c:203-299 | so whatever the input, its text says what the tokens read from it say |
| Tokens.RunTokens | src/rtf.c:219-291 | the tokens of a group, written one after another, are read as what they mean |
| Tokens.RunGroups | src/rtf.c:203-292 | groups of eight tokens behind control bytes, then the end marker, are read as the whole list |
| Tokens.RoundTrip | src/rtf.c:205-299 | every list of valid tokens, written as a stream, decodes to its meaning and ends happily, whatever follows |
| Tokens.LiteralRoundTrip | src/rtf.c:267-290 | every byte string can be written as literals and comes back |
| Tokens.Normalised | src/rtf.c:205-299 | every stream, damaged or not, decodes to the text of a well-formed stream |
| Crc.GenerateCrc | src/rtf.c:135-150 | the table loop over a slice of a buffer computes the checksum of that slice |
| Crc.TableIsEightShifts | src/rtf.c:52-133 | each of the 256 entries is its index divided by the polynomial 0xEDB88320 for eight bits |
| Crc.FeedIsEightShifts | src/rtf.c:144-146 | one round of the loop is eight steps of reflected division |
| Crc.UpdateIsDivision | src/rtf.c:135-150 | for every byte string and start value the table loop is bit-at-a-time division |
| Crc.UpdateConcat | src/rtf.c:142-147 | a checksum can be computed in pieces |
| Crc.UpdateLinear | src/rtf.c:142-147 | the checksum of the XOR of two equally long strings is the XOR of the checksums |
| Crc.ChecksumIsDivision | src/rtf.c:135-150 | the checksum is bit-at-a-time division from the register 0 |
| Crc.ChecksumLinear | src/rtf.c:135-150 | the checksum of the XOR of two equally long strings is the XOR of their checksums |
| Crc.ChecksumBegins | src/rtf.c:138-147 | zeros in front change no checksum, and that of the byte 1 is 0x77073096 |
| Crc.UpdateInjective | src/rtf.c:142-147 | equal bytes never make two different registers equal |
| Crc.UpdateIsWord | src/rtf.c:142-147 | up to four bytes enter the register as one little-endian word |
| Crc.BurstDetected | src/rtf.c:135-150 | two strings that differ only inside a window of at most four bytes have different checksums |
| Crc.BitBurstDetected | src/rtf.c:135-150 | any difference inside 32 consecutive bits, wherever they begin, changes the checksum |
| Crc.WindowDetected | src/rtf.c:135-150 | the same for streams of bits and any start value |
| Crc.AppendedChecksum | src/rtf.c:135-150 | four appended bytes make the checksum 0 exactly when they are the checksum |
| Crc.AppendedBytes | src/rtf.c:135-150 | a string followed by its checksum, least significant byte first, has checksum 0 |
| Rtf.DecompressRtfData | src/rtf.c:170-300 | fails exactly when a length is 0, and otherwise gives the described text with the standard preload |
| Rtf.GetRtfDataFromBuf | src/rtf.c:302-342 | sizes, magic numbers and checksum decide, in this order, between failure, the stored text or a read past its end, unknown, bad checksum and the decoded text |
| Rtf.WrappedRoundTrip | src/rtf.c:302-342 | every token stream behind a header with its checksum is accepted and decoded to its meaning, then zeros; only an announced size of 0 fails |
| Rtf.SpelledBack | src/rtf.c:302-342 | for every list of tokens and every text that begins with the preload and says what they say, byte by byte: a wrapped stream comes back as that text and zeros up to the announced size |
| Rtf.HeaderChecked | src/rtf.c:312-342 | no content or a wrong length fails, and a magic number other than the two gives nothing |
| Rtf.TooShort | src/rtf.c:312 | so does a value of sixteen bytes or fewer |
| Preload.PreloadBytes | src/rtf.c:45 | the 207 bytes with which the dictionary starts |
| Rtf.TextRoundTrip | src/rtf.c:302-342 | every text but the empty one can be wrapped and comes back byte for byte |
| Rtf.WrongChecksum | src/rtf.c:331-340 | any other checksum than the stream's own is refused |
| Rtf.DamageDetected | src/rtf.c:331-340 | a stream changed inside 32 consecutive bits is refused under its old header |
| Rtf.StoredShifted | src/rtf.c:324-328 | of a stored text what is copied begins with the last twelve bytes of the header, whatever size is announced, and is read past its end if that is more than there is |
| Rtf.StoredComesBack | src/rtf.c:324-328 | a stored text comes back exactly if it repeats those twelve bytes |
| Rtf.StoredLost | src/rtf.c:324-328 | a text of one letter does not |
| Message.GetRtfData | src/rtf.c:344-363 | one body for each value longer than 12 bytes with a magic number, none for the others; the first that ends the program decides how |
| Message.ReadBodies | src/tnef.c:310-324 | the loop over the properties adds one after another to the bodies |
| Message.PropertiesLastWin | src/tnef.c:310-324 | properties are taken exactly if all formatted bodies can be read, and of each kind the last stays |
| Message.LastRtfStays | src/tnef.c:319-323 | the formatted bodies are those of the last property that has any, whatever stands before it |
| Message.MessageLastWins | src/tnef.c:298-332 | whether a message attribute is taken does not depend on the bodies found before, and what it does is what it writes |
| Message.FailedBody | src/rtf.c:351-361 | the first body that ends the program is found at whichever value it stands |
| Message.StopsAre | src/rtf.c:312-328 | a body that is refused aborts, and one that is not all there is a read past the end |
| Message.RtfRecognised | src/rtf.c:152-168 | a value holds formatted text exactly if it has more than twelve bytes and one of the two magic numbers, byte by byte |
| Message.BuffersAt | src/tnef.c:162-178 | the parts of an HTML body are the bytes of the values, each in its place |
| Message.LastHtmlStays | src/tnef.c:314-318 | the HTML body is that of the last property that has one |
| Options.FindLong | src/replace/getopt_long.c:611-634 | the search loop gives what `Options.MatchSelects` and `Options.MatchFails` say |
| Options.MatchSelects | src/replace/getopt_long.c:611-634 | an option is found exactly if it is the first with this very name, or if no name is the same and it is the only one that begins so |
| Options.MatchFails | src/replace/getopt_long.c:611-645 | none is found exactly if no name begins so, and the text is ambiguous exactly if it is no name and at least two begin so |
| Options.FormByText | src/replace/getopt_long.c:733-756 | what the text behind the first occurrence of a character in the option string makes of it: a flag, an option with an argument or an optional one, a `-W`, or unknown |
| Options.ModeByMark | src/replace/getopt_long.c:371-386 | a leading `-` or `+` or the environment variable decides what becomes of an operand |
| Options.MarkLater | src/replace/getopt_long.c:488 | the mark is unknown as an option in the first call and a flag in all later ones |
| Options.StablePartition | src/replace/getopt_long.c:96-143 | a run splits the elements in two halves, each in its original order, in all three modes |
| Options.ScanKeepsAll | src/replace/getopt_long.c:96-102 | the two halves together are a permutation of the elements |
| Options.RestNonOptions | src/replace/getopt_long.c:143-147 | when options may come anywhere, nothing that looks like one is left over unless a `--` ended the run |
| Options.Endings | src/replace/getopt_long.c:533-572 | a run ends at a non-option exactly if options must come first, something is left, and no `--` ended it |
| Options.OrderKept | src/replace/getopt_long.c:136-154 | in the two other modes no element changes its place |
| Options.OnlyDashesLeave | src/replace/getopt_long.c:156-158 | where non-options are handed out in place, whatever is left over was left by a `--` |
| Options.RunsPastExactly | src/replace/getopt_long.c:823-831 | some command line leads past its end exactly when the option string has `W;` and some name is ambiguous |
| Options.PastNeeds | src/replace/getopt_long.c:823-831 | from any point, a run that goes past the end needs both |
| Getopt.SwapBlocks | src/replace/getopt_long.c:320-344 | two equally long blocks that do not overlap change places |
| Getopt.SwapBottom | src/replace/getopt_long.c:312-329 | with the short bottom block in place, the rest is the same problem, smaller |
| Getopt.SwapTop | src/replace/getopt_long.c:331-347 | and so it is with the short top block |
| Getopt.Scanner.Exchange | src/replace/getopt_long.c:277-354 | the skipped non-options and the options after them change places, each in its order, nothing else moves, and the indices follow the non-options |
| Getopt.RotatedAt | src/replace/getopt_long.c:264-271 | where each element of the result of an exchange comes from |
| Getopt.ExchangeKeeps | src/replace/getopt_long.c:515-523 | exchanging the blocks does not change what the run will give |
| Getopt.Scanner.Initialize | src/replace/getopt_long.c:358-410 | the first call settles the mode and the option string for itself without changing the prospect |
| Getopt.Scanner.SkipNonOptions | src/replace/getopt_long.c:515-531 | regrouping and skipping leave the outlook as it was and stop at an option or the end |
| Getopt.Scanner.StopAtDashes | src/replace/getopt_long.c:538-561 | `--` ends the run with it among the options and everything after it among the others |
| Getopt.Scanner.StopAtEnd | src/replace/getopt_long.c:554-561 | at the end `optind` goes back to the first non-option |
| Getopt.Scanner.TakeLong | src/replace/getopt_long.c:596-728 | a long option consumes one element, or two if it takes the next as its argument; all error cases |
| Getopt.Scanner.TakeShort | src/replace/getopt_long.c:732-926 | a short option, its argument in the same or the next element, `-W` for a long one, and the codes for unknown options and missing arguments |
| Getopt.Scanner.TakeVendor | src/replace/getopt_long.c:755-878 | what `-W name` returns, stores and uses up in each case |
| Getopt.Scanner.TakeOption | src/replace/getopt_long.c:574-926 | the option read is the first event of the outlook, and the outlook goes on behind it |
| Getopt.Scanner.PassNonOption | src/replace/getopt_long.c:566-572 | where order is kept, a non-option is handed out with code 1 |
| Getopt.Scanner.GetoptLong | src/replace/getopt_long.c:478-927 | each call gives the next event of the run and keeps the order of the indices, or ends it with all options first; the indices stay in order then exactly if nothing is left over or a non-option that must not be followed by options ended the run |
| Getopt.OrderLost | src/replace/getopt_long.c:554-561 | one operand is enough to lose the order in the last call |
| Getopt.RunsPastTheEnd | src/replace/getopt_long.c:823-831 | a run that leaves `optind` behind `argc` |
| Getopt.ParseCommandLine | src/main.c:182-183 | the calls end, their events are those of the specification, and `argv` is the program name, all options with their arguments, and the rest, with `optind` at the border; except exactly when the run goes past the end |
| CommandLine.FlagsRead | src/replace/getopt_long.c:732-738 | the flags of a cluster are read one by one, without using up an element |
| CommandLine.ItemRead | src/replace/getopt_long.c:574-926 | in every mode, each way of writing an option, its argument or an operand, and each mistake, is understood where it stands |
| CommandLine.Understood | src/replace/getopt_long.c:478-927 | in every mode and with any option string, every mixture of clusters, long names, abbreviations, `-W`, arguments, operands and mistakes gives the events meant, in order, and leaves the operands that wait, and all that follows a `--`, in order |
| CommandLine.StopsAtOperand | src/replace/getopt_long.c:566-569 | where options must come first, the first operand ends them and is left over with all that follows |
| CommandLine.WrongLongItem | src/replace/getopt_long.c:647-727 | a name that selects nothing and an argument that is not wanted give a question mark and use up their element |
| CommandLine.WrongShortItem | src/replace/getopt_long.c:740-754 | and so does an unknown character at the end of a cluster |
| CommandLine.VendorGives | src/replace/getopt_long.c:755-878 | in each of the five cases of a `-W`, the event and the elements taken or lost behind its text |
| CommandLine.MissingShort | src/replace/getopt_long.c:903-917 | a missing argument of a short option gives a colon or a question mark, depending on the option string as the call sees it |
| CommandLine.MissingLong | src/replace/getopt_long.c:679-693 | the same for a long option |
| CommandLine.MissingText | src/replace/getopt_long.c:774-788 | the same for a `-W` without a text |
| CommandLine.MissingVendor | src/replace/getopt_long.c:852-865 | and for a `-W` whose option lacks its argument, where the name stays the argument |
| Bytes.Le16Inverse | src/util.c:38-42 | writing and reading 16-bit integers are inverse, in both directions |
| Bytes.Le32Inverse | src/util.c:31-36 | writing and reading 32-bit integers are inverse, in both directions |
| Bytes.LittleEnd | src/util.c:31-41 | the least significant byte comes first |
| Mapi.CopyGuidFromBuf | src/mapi_attr.c:41-56 | a GUID is read as a whole or refused, except past the end, where the length wraps around |
| Mapi.MapiAttrRead | src/mapi_attr.c:171-352 | the loops over properties, names and values compute what the reader on values says, failures included |
| Mapi.NamesFrom | src/mapi_attr.c:207-220 | the strings that name a property, converted to UTF-8 |
| Mapi.ValuesFrom | src/mapi_attr.c:254-347 | the values of a property in the places the code puts them |
| Mapi.PaddingFits | src/mapi_attr.c:34-39 | padding keeps the cursor aligned, and never leads past an aligned end |
| Mapi.NamesSafe | src/mapi_attr.c:207-220 | in a buffer of any length, after every name the cursor is at a multiple of four; in one of aligned length also inside it |
| Mapi.ValuesSafe | src/mapi_attr.c:256-347 | the same after every value, SHORT with its two unread bytes included |
| Mapi.PropertySafe | src/mapi_attr.c:184-348 | the same after every property |
| Mapi.CursorAligned | src/mapi_attr.c:171-352 | whatever is accepted, in a buffer of any length, the cursor ends at a multiple of four |
| Mapi.AlignedBufferIsSafe | src/mapi_attr.c:171-352 | no input whose length is a multiple of four makes the parser read outside the buffer, accepted or not |
| Mapi.OverlongIsUnsafe | src/mapi_attr.c:219-302 | for every other length above 32 there is an input that does |
| Mapi.SafeLengths | src/mapi_attr.c:171-352 | the lengths at which no input does are exactly the multiples of four and those up to 32 |
| MapiWriter.PropertyBack | src/mapi_attr.c:184-348 | a written property is read back wherever it stands, and the cursor ends behind it |
| MapiWriter.FilledInOrder | src/mapi_attr.c:256-347 | which place of the array each value ends up in |
| MapiWriter.ValuesKept | src/mapi_attr.c:258-328 | all values survive, in order, exactly when there is one or the code is one of 0x03, 0x40, 0x0d, 0x1e, 0x1f and 0x102 |
| MapiWriter.KnownIsRead | src/mapi_attr.c:258-302 | for each of the ten type codes of fixed size: what is read, how far the cursor moves, and how it fails if the bytes are not there |
| MapiWriter.CountedIsRead | src/mapi_attr.c:304-327 | for the four counted codes: the bytes that were announced, converted if they are UTF-16, or why they are refused |
| MapiWriter.UnknownStops | src/mapi_attr.c:329-343 | a value of any other code ends the program, or the reading if errors are to be skipped |
| MapiWriter.UnknownProperty | src/mapi_attr.c:184-343 | and so does the property it stands in |
| MapiWriter.NameRefused | src/mapi_attr.c:211-216 | an empty name, or one that is not all there, is refused |
| MapiWriter.NoValuesStop | src/mapi_attr.c:239-255 | a property that announces no values is refused |
| MapiWriter.RoundTrip | src/mapi_attr.c:171-352 | every list of well-formed properties comes back in order, without the multi-value flag, every byte is used and what follows is left alone; only the empty list with nothing behind it and the longest list are refused |
| Utf8.UnicodeToUtf8 | src/util.c:79-111 | the loop writes the encoding of the units, drops an odd byte, and stays inside its buffer with the terminator |
| Utf8.DecodeEncode | src/util.c:86-105 | a decoder of the three forms undoes the encoding of every sequence of units |
| Utf8.EncodeInjective | src/util.c:86-105 | different texts never become the same bytes |
| Utf8.DeviationsLengthen | src/util.c:86-105 | units written differently from RFC 3629 make the text longer |
| Utf8.IsRfcEncoding | src/util.c:86-105 | the result is the encoding of section 3 of RFC 3629 exactly when there is no surrogate and no 0x07FF |
| Path.SanitizeFilename | src/path.c:197-302 | the loop writes the escaped name into a zeroed buffer of three bytes for each of the name and four more |
| Path.SanitizeOne | src/path.c:127-137 | which characters, by their codes, become a percent sign and two upper-case digits, and that all others stay |
| Path.SanitizeConcat | src/path.c:220-299 | names are escaped character by character |
| Path.UnescapeSanitize | src/path.c:211-215 | unescaping gives back every name |
| Path.SanitizeInjective | src/path.c:211-215 | different names stay different |
| Path.SanitizeClean | src/path.c:220-299 | every `%` is followed by two upper-case hexadecimal digits and nothing else needs escaping |
| Path.CleanHarmless | src/path.c:127-137 | besides the percent sign no character of the list, by code, is left |
| Path.SanitizeHasNoSlash | src/path.c:127-131 | an escaped name is a single path component |
| Path.CouldBeAWindowsPath | src/path.c:139-188 | there is a backslash, not at the end, and no other forbidden and no control character |
| Path.WindowsPathExactly | src/path.c:139-188 | the same by character codes |
| Path.ConcatFname | src/path.c:49-97 | joining with one slash where there is none, and stripping all trailing ones |
| Path.MungeFname | src/path.c:313-405 | the buffers and pointers give what the description on values says |
| Path.MungePlain | src/path.c:368-390 | without paths, or for no Windows path, the result is the escaped name and has no slash |
| Path.DirectoryShape | src/path.c:328-366 | the directory part is the text up to the last backslash with slashes for backslashes, without leading ones unless absolute paths are welcome |
| Path.FlippedAt | src/path.c:328-366 | only backslashes change |
| Path.MungePath | src/path.c:324-390 | a Windows path becomes its directory part and the escaped rest, and starts with a slash exactly if that is allowed and the name started with a backslash |
| Path.FindFreeNumber | src/path.c:106-123 | the least number from 1 on whose name is free, at most one more than there are files; the buffer is large enough exactly if one of the first 99999 names is free |
| Path.FreeNumberUnique | src/path.c:106-107 | no other number is free with all smaller ones taken |
| Path.NumberedInjective | src/path.c:119 | different numbers give different names |
| Path.NumberedReads | src/path.c:119 | a numbered name is the name, a full stop and digits that read as the number, without a needless zero |
| Path.NumberFits | src/path.c:111-115 | a number fits exactly up to 99999 |
| Path.NumberOverflows | src/path.c:111-121 | with the first 99999 names taken the name found does not fit |
| Attributes.CheckChecksum | src/attr.c:205-239 | the running masked sum is the sum of all bytes modulo 65536 |
| Attributes.InFile.AttrRead | src/attr.c:241-286 | one attribute and the position behind it, or the failure of the first check that stops it, as `Attributes.ChecksumDecides` and `Attributes.Refused` have it |
| Attributes.InFile.DataLeft | src/tnef.c:180-242 | no data is left at end of file or before one to seven stray bytes |
| Attributes.InFile.ReadObject | src/tnef.c:60-73 | no object exactly at the end, otherwise the next attribute |
| Attributes.AttrBack | src/attr.c:241-286 | a written attribute is read back whatever stands around it |
| Attributes.ChecksumDecides | src/attr.c:267-281 | with any 16 bits in place of its checksum an attribute is read back, whatever stands around it, exactly if they are the sum of its bytes modulo 65536 or checksums are not looked at; otherwise the program exits |
| Attributes.Refused | src/attr.c:249-267 | any level but 1 and 2 aborts, and an attribute that is not all there exits |
| Attributes.StreamBack | src/tnef.c:275-279 | a list of attributes and up to seven bytes of anything is read as that list |
| Attributes.StreamThen | src/tnef.c:275-279 | a list of attributes is read as that list, and then whatever follows it |
| Attributes.StreamRagged | src/tnef.c:275-279 | eight to ten stray bytes are taken for an attribute and refused |
| Attributes.StreamDamaged | src/attr.c:267-281 | an attribute with a wrong checksum ends the reading behind the attributes before it |
| Attributes.ChangedByteNoticed | src/attr.c:205-239 | one changed byte always changes the checksum |
| Files.File.Free | src/file.c:250-262 | nothing is left in the struct |
| Files.File.AddMapiAttrs | src/file.c:162-208 | the properties act on the fields one after another, and a wrong type fails |
| Files.MapiLastWins | src/file.c:162-208 | properties are taken exactly if all types suit, and then each field holds what the last property for it wrote |
| Files.File.AddAttr | src/file.c:210-248 | what each attribute does to the fields |
| Files.AttrLastWins | src/file.c:210-248 | whether an attribute is taken does not depend on the file, and what it does to it is what it writes |
| Files.DateRead | src/date.c:54-66 | a date is seven 16-bit integers in this order; another type, or less, aborts |
| Files.CStringIs | src/file.c:178 | a name ends before its first terminator |
| Files.Nameless | src/file.c:68-72 | a file without a name is written as "tnef-tmp" |
| Files.OtherAttrs | src/file.c:245-246 | all other attributes leave a file as it is |
| Tnef.StartNext | src/tnef.c:281-293 | the file there is is written and cleared, or the first one made |
| Tnef.AddOne | src/tnef.c:295-341 | one attribute is added to the file there is, or to the bodies |
| Tnef.ParseFile | src/tnef.c:246-351 | the loop over a mutable `File`, a file position and a disk gives the outcome on values, and the disk holds what was written up to the end or the failure |
| Assembly.LastWriterWins | src/file.c:162-248 | for any file and attributes: they are taken exactly if each is acceptable on its own, and then every field, name, data and length included, holds the last write to it, be it by a title, data or a property |
| Assembly.LoopIsProcess | src/tnef.c:275-344 | reading one by one is reading first all attributes that can be read |
| Assembly.RoundKeepsState | src/tnef.c:275-344 | after each round the state is what the attributes so far write: the open file, the finished ones, the bodies; an attribute that is not taken stops it with the finished files written |
| Assembly.ProcessIsSplitAndFold | src/tnef.c:275-351 | the loop writes one file for each attribute that starts one, each with the last writes of its own attributes only; when an attribute stops it, the files finished before it |
| Assembly.WrittenCounted | src/tnef.c:281-293 | as many files as starts |
| Assembly.FilesConcat | src/tnef.c:281-293 | the files of two lists are those of both together if a file starts at the border |
| Assembly.FilesSized | src/file.c:181-243 | the length of every file is the size of its data |
| Assembly.WrittenSized | src/file.c:128 | however a run ends, this holds for all files it has written |
| Assembly.ParsedIsSplitAndFold | src/tnef.c:246-351 | the outcome for whatever a file contains is split-and-fold of the attributes that can be read from it |
| Assembly.ParsedAsWritten | src/tnef.c:246-351 | a file written from attributes is parsed into what they describe |
| Assembly.SignatureDecides | src/tnef.c:262-271 | the first four bytes decide whether a file is looked at, and with fewer than six the program exits |
| Assembly.DamageStops | src/attr.c:267-281 | a wrong checksum behind any well-written attributes ends what can be read, whatever follows; if those before it were taken, the program exits with the files finished before it written |
| Assembly.ChangedByteStops | src/attr.c:267-281 | so does one changed byte of the data of an attribute, under its old checksum |
| Assembly.FinishedIsAllButLast | src/tnef.c:284-288 | the finished files are all but the one still open |
| Saving.NothingLost | src/file.c:101-133 | with numbering every file gets a path of its own that was free, and holds its data there, and nothing that was there is touched |
| Saving.LastStays | src/file.c:101-133 | with overwriting the last file written to a path is there |
| Saving.FirstStays | src/file.c:101-111 | with neither, what was there stays, and otherwise the first file written |
| Saving.TargetIsFree | src/file.c:101-119 | with numbering a free path is taken, and for a taken one the least number from 1 on whose name is free |
| Saving.Overwritten | src/file.c:122-128 | an overwritten file holds the data, or nothing if there is none |
| EndToEnd.AttachmentsExtracted | src/tnef.c:246-351 | every list of attachments put into a file behind any messages comes out as exactly those files, in order, with names and contents, beside the bodies of the messages |
| EndToEnd.EveryAttachmentKept | src/file.c:101-133 | with numbering each of them has a path of its own on the disk, whatever their names |
| EndToEnd.PropertiesReachTheFile | src/file.c:162-248 | any well-formed properties of an attachment, whatever was in the file: if the types suit each field becomes what the last one for it says, otherwise the program stops |
| EndToEnd.UnknownSkipped | src/file.c:223-233 | an attribute whose first property has an unknown type changes neither a file nor the bodies if errors are to be skipped, and otherwise ends the program |
| EndToEnd.PlainPath | src/file.c:68-91 | without paths a file goes under its escaped name into the directory and into none below it |
| EndToEnd.PathIsJoined | src/file.c:74-91 | in every case a file goes under what its name becomes, or "tnef-tmp" if it has none, in the directory, with a slash in between unless there is one |
| EndToEnd.BodyFound | src/tnef.c:303-330 | text compressed as any list of tokens, as one of any properties of a message, is found and decoded if it is the last formatted body; the message is taken exactly if those before it can be read |
| EndToEnd.HtmlFound | src/tnef.c:303-318 | the values of an HTML body, as one of any properties of a message, are found as they stand if it is the last; the message is taken exactly if its formatted bodies can be read |
| EndToEnd.TextFound | src/tnef.c:299-302 | a plain body is the data of its attribute, and no other attribute but the properties changes the bodies |
| EndToEnd.MailExtracted | src/tnef.c:246-351 | the same in a whole file with other messages and attachments |
| Alloc.CheckMulOverflow | src/alloc.c:46-53 | overflow is reported exactly when the true product does not fit in 64 bits, and otherwise the product is exact |
| Alloc.DivideBack | src/alloc.c:49-50 | a wrapped product divided by one factor gives the other exactly when it did not wrap |
| Alloc.Allocator.Xmalloc | src/alloc.c:77-94 | abort or a request for exactly the product and the extra bytes |
| Alloc.Allocator.CheckedXmalloc | src/alloc.c:96-107 | and with a limit never more than the limit and the extra bytes; a sum that wraps aborts before the limit is looked at |
| Alloc.Allocator.Xcalloc | src/alloc.c:109-126 | the same request, but no memory gives a null pointer |
| Alloc.Allocator.CheckedXcalloc | src/alloc.c:128-138 | the limit comes before the sum |

## Left out

- Getopt.ParseCommandLine: calls after the one that returned -1 or behind the end, callers that move `optind` back, error messages, `optopt`, the index of a long option and the variables options store into.  A long option whose value is -1 would be taken for the end by the C caller.  Option codes are character codes, not signed `char` values.
- Path.FindFreeNumber: the counter is unbounded and the buffer as long as needed; the contract says when the C buffer is long enough.
- Path.ConcatFname: an empty first name without a second one is excluded, as the C code would copy a null pointer.
- Files.FileWrite: prompts, listing, and files that cannot be opened or written; a path is a name on the disk, so two spellings of one path are two files.
- Attributes.InFile.DataLeft: standard input, whose size is not known, and the messages about stray bytes.
- Utf8.UnicodeToUtf8: the contents of the buffer behind the terminator.
- Files.File.AddMapiAttrs: a MIME type or content id in UTF-16 is copied with some of those bytes; the model keeps what is written before them and the terminator.
- Mapi.SafeLengths: lengths from 2^32 on, as the length of an attribute has 32 bits.
- Tnef.ParseFile: the saving of the bodies it finds, debug dumps, and the printed date.
- The counter `eoff` of the decoder, which is written and never read.
- Allocation limits and lack of memory inside the parsers; `Alloc` models them on their own.
- `check_mul_overflow` when the compiler's own overflow test replaces it.
- Buffers of 2^31 bytes and more, for which the C counters of type `int` are too small.
- Bytes are unsigned: a `char` of 128 or more is no control character, as in the C locale.
- Generated tables of attribute, property and type names.
