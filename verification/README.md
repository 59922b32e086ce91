# OeyEnc in Dafny

A model of the parts of OeyEnc that compute: a yEnc decoder plug-in for a mail program, with the hook
library and the memory stream that it is built on. Every operation that changes state is a method over
arrays, sequences or objects, proved against a function; the lemmas are about these functions.

| part | files |
|---|---|
| the yEnc codec (`OeyEnc.Dll/yDecode.h`) | Bytes, TagSearch, Numbers, Bitwise, Crc32, CrcPolynomial, Attributes, EncodeInfo, Serialize, SerializeRoundTrip, Decoder, DecoderBounds, LoneLineFeed, Trailer, Encoder, Header, HeaderRoundTrip, HeaderFields, HeaderBounds, HeaderBehindText, WireFormat, Refusals, Integrity, Crc32Inverse |
| splitting and joining messages (`OeyEnc.Dll/MimeMessage.cpp`) | MessageSplit, ScanExact, Attachments, Conservation, LoadExact, MessageRoundTrip, PlainMessages, MessageChain, StatedSizes, OlderVersion, Mails, SampleMessage, Combine |
| the hook builder (`CoJack/Cojack.h`) | X86, X86Reference, Displacements, Relocation, Jumps, Hook, Processor, HookMeaning, HookCuts, SampleProcessor |
| the memory stream (`inc/StreamImpl.h`) | MemoryStream, StreamIsFile, StreamGrowth |
| linked lists (`inc/List.h`) | CircularList, SingleList |
| guard pages (`inc/VerifierMem.h`) | GuardPage |

`dafny verify dfyconfig.toml` checks everything.

## How the source is represented

* A pointer into a buffer that is only read is a position in a `seq<byte>`; buffers that are written are
  arrays, and the process memory of the hook builder is one array whose end faults. Pointers and counts of
  32 bits wrap around where the source lets them (`Wrap32`).
* Reads outside a buffer are outcomes, not preconditions: `Overrun` for the parser and the decoding loops,
  `Faulted` and `Crashed` for messages, `AccessViolation` for code, `Wild` for the stream. Where the source
  would go on with whatever it reads there, the model stops.
* The opcode tables are an arbitrary lookup, except that an opcode without a size is never relative. Case
  folding of names is an arbitrary function of bytes. Whether memory is granted is a parameter of the
  operations of the stream; granted memory is filled with zeros. Protection of pages can be changed wherever
  there is memory.
* The processor has a decoder of its own, which is an arbitrary function of bytes and knows nothing of the
  opcode tables; what an instruction does is an arbitrary function of its bytes, its address and the state.
  What is asked of it are named hypotheses: an instruction is as long wherever it stands and whatever follows
  it (`SelfDelimiting`), E9 is the jump (`KnowsJmp`), and the instructions that begin within the copied bytes fall
  through (`FallsThrough`) and do the same at every address (`IgnoresPlace`). That the relocator
  cuts the code where the processor does is not assumed: it is the condition that is proved. The state does
  not include the memory that holds code: instructions neither change it nor read it as data.
* The encoder and the printers of headers and trailers are not in the repository, which only decodes. They
  are those of the yEnc draft 1.3 and of the printf formats the serialiser uses. The cyclic redundancy check
  is that of section 8 of RFC 1952.

## Where the code does not do what its comments say

The code is followed in each case, and the lemma named says what it does.

* FindTag does not re-examine a mismatched byte, so it is strstr for tags that repeat one byte only
  (`LikeStrstrIff`; input: `NotASubstringSearch`); the line search is exact all the same (`LineSearchExact`).
* A part CRC that is serialised alone is read back as a CRC too (`CrcIsMistaken`).
* A line feed without a carriage return takes the byte behind it along, and as the last byte of a line of five
  or more it makes the decoding loop leave its buffer if there is room to spare (`LoneLineFeedOverruns`,
  `LoneLineFeedOverrunsIff`).
* The search for the size of the header is cut short, so that a short buffer is refused (`HeaderIsParsed`).
* A name whose end is not within 260 bytes is cut, but to 261 (`LongNameIsCut`).
* Names of one byte are lost, and so is, from every header, the version flag of the keyword (`HeaderIsParsed`).
* A header without a CRC takes that of the trailer, because the whole body is searched (`HeaderIsParsed`).
* Text before the keyword is not ignored: the parser then leaves its buffer unless the header has a part number
  (`AcceptedBehindText`, `PrintedBehindText`; inputs: `SampleBehindTextOverruns`).
* A part number that no CRC follows is not seen if its digits and what follows them in the buffer are fewer than
  six bytes, as with up to three digits and a line break (`TrailerIsRead`).
* `=ybegin2` lines are sought before `=ybegin` lines, so a body of the older version before one of the newer is
  passed over and lost (`FirstBodyIsFound`, `OlderBodyIsLost`; inputs: `OlderSampleIsLost`).
* A body without a trailer makes the loading fail, wherever it stands (`ScannedIffPaired`): its header is parsed up
  to a null pointer, which is to say through all of memory, and the scan would then go on at that pointer. The
  exception that this raises is caught, and returned as a failure.
* A damaged attachment whose CRC happens to be zero is not marked (`DamageIsMarked`), and such damage exists for
  all data of four bytes and more whose own CRC is not zero (`DamageGoesUnmarked`).
* A body with more data than the header states is cut to the stated size, if that is 64 KiB or more, without a mark
  (`WrongSizeIsMarked`).
* Seeking before the start of a stream reports that memory is exhausted, not an invalid function
  (`SeekFailsOutside`), and reading behind what is allocated overruns the buffer of the caller (`ReadableIsExact`)
  or reports a wrong count (`ReadBehindEndMiscounts`).
* An allocation that fails is taken for one that succeeded if the stream had storage before (`Refused`;
  input: `RefusalIsMistaken`).
* The size of a displacement behind a SIB byte of base 5 is counted twice in two modes (`AddressingSize`), and a
  repeat prefix counts as an instruction, so that hooking can cut an instruction in two; the callgate then does
  something else (`CutInsideInstruction`, `CutBehindPrefix`; on a processor: `SampleIsCutInside`,
  `SampleIsCutBehindPrefix`).
* Two opcodes behind 0F are taken for TEST, and far pointers in memory for immediates (`ReferenceAgrees`,
  `FarSizes`).
* A callgate of 6 to 14 bytes is accepted although its room is computed with 15 bytes for the jump, and may be
  overrun (`SmallCallgateIsOverrun`; inputs: `SampleIsOverrun`).
* Displacements of relative instructions are read from the wrong place and overwritten with the start of the
  record that describes them; of the 32-bit distances a single one is accepted
  (`RelativeIsRewritten`, `ShortRelativeIsMisled`, `NearRelativeIsRefused`; input: `SampleJumpIsMisled`).
* The short jump EB is followed with an unsigned displacement (`ShortJumpsLeadForward`).

## Model

| member | source | states |
|---|---|---|
| `TagSearch.FindTag` | OeyEnc.Dll/yDecode.h:294-375 | The search loop, which walks the buffer once with one counter of matched tag bytes and never looks at a mismatched byte again, computes Find; LineSearchExact and PlainSearchExact say what Find is without the counter |
| `TagSearch.ScanSound` | OeyEnc.Dll/yDecode.h:294-375 | Whatever the search reports is an occurrence of the tag, and at a line start when one was asked for |
| `TagSearch.LineSearchExact` | OeyEnc.Dll/yDecode.h:294-375 | For every tag without LF, the line search reports the first occurrence at the start of the buffer or behind a CRLF, and nothing exactly when there is none |
| `TagSearch.PlainSearchExact` | OeyEnc.Dll/yDecode.h:294-375 | Without the line requirement it reports the first occurrence at which a match begins, and nothing exactly when no match begins at an occurrence |
| `TagSearch.UnprefixedIsFound` | OeyEnc.Dll/yDecode.h:294-375 | An occurrence not directly preceded by a nonempty proper prefix of the tag guarantees a hit at or before it |
| `TagSearch.NotASubstringSearch` | OeyEnc.Dll/yDecode.h:294-375 | A concrete buffer (CR CR LF) in which the search misses an occurrence, so it is not a substring search |
| `TagSearch.FirstIsFoundIff` | OeyEnc.Dll/yDecode.h:294-375 | The first occurrence of a tag is what the search reports exactly when a match begins there |
| `TagSearch.LikeStrstrIff` | OeyEnc.Dll/yDecode.h:294-375 | The tags that are found on every buffer as strstr finds them are exactly those that repeat one byte; any other one is missed behind a stray copy of its first byte |
| `TagSearch.FindConcat` | OeyEnc.Dll/yDecode.h:294-375 | When no partial match crosses the seam, a concatenation is searched part by part |
| `TagSearch.FindTruncated` | OeyEnc.Dll/yDecode.h:294-375 | A search that is given fewer bytes finds what the full search finds if that ends in time, and nothing otherwise |
| `TagSearch.LinesStart` | OeyEnc.Dll/yDecode.h:294-375 | Lines start at the start of the buffer and behind every CR LF, and nowhere else |
| `WireFormat.TagsAreText` | OeyEnc.Dll/yDecode.h:50-89 | The keywords of lines, with and without their spaces, and the line breaks are these texts |
| `WireFormat.AttributesAreText` | OeyEnc.Dll/yDecode.h:54-85 | So are the names of attributes |
| `Numbers.StrToUint` | OeyEnc.Dll/yDecode.h:423-454 | The digit loop computes the 32-bit value of the leading digits, decimal or hexadecimal |
| `Numbers.DigitsAre` | OeyEnc.Dll/yDecode.h:423-454 | The digits of base 10 are 0 to 9, those of base 16 also A to F in either case, and nothing else is one |
| `Numbers.ParseWraps` | OeyEnc.Dll/yDecode.h:423-454 | A number of any size is read modulo 2^32 |
| `WireFormat.DigitsAreLimited` | OeyEnc.Dll/yDecode.h:423-454 | Nothing behind the tenth character is looked at |
| `Numbers.ReadDecPrinted` | OeyEnc.Dll/yDecode.h:423-454 | Reading a number printed with %u gives it back, whatever non-digit follows |
| `Numbers.ReadHexPrinted` | OeyEnc.Dll/yDecode.h:423-454 | Reading a CRC printed with eight hexadecimal digits gives it back, whatever follows |
| `Crc32.BuildCrc32Table` | OeyEnc.Dll/yDecode.h:233-258 | Every entry of the table is its index after eight division steps |
| `Crc32.CalculateChecksum` | OeyEnc.Dll/yDecode.h:265-273 | With that table, for every buffer and initial register, the byte loop computes Checksum: bit-by-bit division by the reversed polynomial, then complement |
| `CrcPolynomial.StepMultiplies` | OeyEnc.Dll/yDecode.h:233-258 | A step multiplies by x modulo x^32 + x^26 + x^23 + x^22 + x^16 + x^12 + x^11 + x^10 + x^8 + x^7 + x^5 + x^4 + x^2 + x + 1, the register holding the coefficients in reverse |
| `CrcPolynomial.FeedMultiplies` | OeyEnc.Dll/yDecode.h:233-273 | Feeding a bit adds it to the highest coefficient before that |
| `CrcPolynomial.PolyIsGenerator` | OeyEnc.Dll/yDecode.h:236 | The constant has exactly the bits of that polynomial |
| `CrcPolynomial.ChecksumComplements` | OeyEnc.Dll/yDecode.h:265-273 | The checksum is the complement of the remainder |
| `CrcPolynomial.CheckValues` | OeyEnc.Dll/yDecode.h:265-273 | Check values: nothing gives 0, FF FF FF FF gives FFFFFFFF, and with 80 behind it 12477CDF |
| `Crc32.ChecksumConcat` | OeyEnc.Dll/yDecode.h:265-273 | Checksumming a concatenation is continuing with the second part from the un-complemented result of the first |
| `Crc32.BurstDetected` | OeyEnc.Dll/yDecode.h:233-273 | Two buffers of equal length that differ, and differ only within 32 consecutive bits, always get different checksums |
| `Crc32.FourByteBurstDetected` | OeyEnc.Dll/yDecode.h:233-273 | The same for any window of four consecutive bytes |
| `Serialize.SerializeEncodeInfo` | OeyEnc.Dll/yDecode.h:960-1132 | The printing loop appends the selected numeric fields that are present, in the order of the source, or fails when the text does not fit |
| `SerializeRoundTrip.AllItemsAre` | OeyEnc.Dll/yDecode.h:960-1132 | The attributes that are written for a record that has them all, with their names and numbers, in this order |
| `Serialize.DeserializeEncodeInfo` | OeyEnc.Dll/yDecode.h:1173-1318 | The parsing sequence looks every selected name up in the text and stores the number behind it |
| `SerializeRoundTrip.NumericFieldsSurvive` | OeyEnc.Dll/yDecode.h:960-1318 | Deserialising the serialised text with the same flags returns the same numeric fields for every record and every set of flags, exactly unless both CRCs are asked for and the record has only the part CRC |
| `SerializeRoundTrip.CrcIsMistaken` | OeyEnc.Dll/yDecode.h:1294-1318 | The other half: with a part CRC alone in the text, the search for "crc32=" hits inside "pcrc32=" and a CRC appears that was never written |
| `SerializeRoundTrip.SuffixTable` | OeyEnc.Dll/yDecode.h:1178-1318 | Of all the attribute names, only "crc32=" ends another one |
| `Decoder.DecoderProcessBuffer` | OeyEnc.Dll/yDecode.h:1923-2092 | Status, record and output buffer after decoding are those of Processed, and bytes behind the output are untouched |
| `Decoder.DecodeLines` | OeyEnc.Dll/yDecode.h:1942-2024 | The outer loop stops at the trailer, at an invalid tag, or when a buffer is exhausted, having written exactly what Decode says |
| `Decoder.DecodeLine` | OeyEnc.Dll/yDecode.h:1961-2023 | The inner loop decodes up to and including one line break; an escape at the end or before a line break is an error |
| `Decoder.ReadTrailer` | OeyEnc.Dll/yDecode.h:2028-2091 | The trailer: the size is required; CRCs and the part number are sought in a window shortened by the name of the size |
| `DecoderBounds.OutputBounded` | OeyEnc.Dll/yDecode.h:1942-2024 | On every input, at most as many bytes are written as were read and as there is room for |
| `DecoderBounds.SmallerBufferGetsPrefix` | OeyEnc.Dll/yDecode.h:1942-2024 | A smaller output buffer receives a prefix of what a larger one receives |
| `DecoderBounds.StaysInside` | OeyEnc.Dll/yDecode.h:1961-2023 | The loops leave no buffer that does not end in a line feed without its carriage return |
| `DecoderBounds.LoneLineFeedOverruns` | OeyEnc.Dll/yDecode.h:1982-1989 | A concrete buffer ending in a lone line feed, on which the count of remaining bytes falls below zero |
| `LoneLineFeed.LoneLineFeedOverrunsIff` | OeyEnc.Dll/yDecode.h:1961-2023 | For every well-formed body that a lone line feed is put behind, whatever the parameters: the loops leave the buffer exactly when there is room to spare and the last line holds five or more encoded bytes |
| `DecoderBounds.DecodingIsBounded` | OeyEnc.Dll/MimeMessage.cpp:1637-1648 | Decoding stays in both buffers, and an honest part size always passes the check of the caller that half of it is at most the encoded size |
| `TrailerLine.TrailerIsRead` | OeyEnc.Dll/yDecode.h:2028-2091 | Reading any printed =yend line, behind any line breaks, recovers its CRCs and its part number, the latter exactly if a CRC follows it or its digits and whatever follows them in the buffer are six bytes or more |
| `Encoder.EncodingIsDecoded` | OeyEnc.Dll/yDecode.h:1923-2092 | Every well-formed sequence of plain bytes, escapes and line breaks, followed by a printed trailer, decodes to exactly the bytes it stands for, with no byte of room to spare, and SizeActual, CRCs and part number are recorded |
| `Encoder.RoundTrip` | OeyEnc.Dll/yDecode.h:1923-2092 | The decoder inverts the encoder of the yEnc draft 1.3 (section Encoding Principle), which uses the numbers of the record and 42, 61 and 64 for those that it does not state, for all data, all line lengths, all offsets and all trailers, exactly when the escape offset moves no critical byte onto CR, LF or y |
| `Encoder.DraftIsDecoded` | OeyEnc.Dll/yDecode.h:1923-2092 | For a record that states no numbers: data encoded with offset 42, escape character 61 and escape offset 64 is decoded |
| `Refusals.EscapesAreChecked` | OeyEnc.Dll/yDecode.h:1942-2023 | An escape character at the end of the buffer, before a line break, or before a y at the start of a line is an error |
| `Refusals.TrailerIsChecked` | OeyEnc.Dll/yDecode.h:2028-2091 | A trailer is accepted exactly if it has a size |
| `Header.DecoderInitialize` | OeyEnc.Dll/yDecode.h:1440-1897 | The parser, step by step over its position, end and separate count of remaining bytes, ends with the status and record of Initialized |
| `Header.ReadSignature` | OeyEnc.Dll/yDecode.h:1440-1501 | The keyword of either version must start a line and be followed by a space |
| `Header.ReadLineAndSize` | OeyEnc.Dll/yDecode.h:1503-1547 | line= and size= are required and must be in range; the size is sought in a buffer cut short by as much as precedes the line length |
| `Header.ReadPart` | OeyEnc.Dll/yDecode.h:1552-1571 | part= is sought with the count that may exceed the buffer, and must not be 0 |
| `Header.ReadTotal` | OeyEnc.Dll/yDecode.h:1573-1602 | total= without part= is an error |
| `Header.ReadCrc` | OeyEnc.Dll/yDecode.h:1604-1614 | crc32= anywhere in the buffer is recorded |
| `Header.ReadOffset` | OeyEnc.Dll/yDecode.h:1617-1642 | offset= may be a star, which stands for the default |
| `Header.ReadEscape` | OeyEnc.Dll/yDecode.h:1644-1663 | escape= is recorded in eight bits |
| `Header.ReadEscOff` | OeyEnc.Dll/yDecode.h:1665-1684 | escoff= must not be 0 |
| `Header.ReadCompression` | OeyEnc.Dll/yDecode.h:1686-1710 | comp= extends to the next space or line break, within MAX_PATH bytes |
| `Header.ScanName` | OeyEnc.Dll/yDecode.h:1733-1786 | The three loops over the name: skip spaces, find its end, step back over trailing spaces |
| `Header.ReadName` | OeyEnc.Dll/yDecode.h:1721-1796 | The name, quoted or not, and the flag for embedded NULs |
| `Header.ReadPartLine` | OeyEnc.Dll/yDecode.h:1817-1893 | A =ypart line needs a part number, must come next and needs a range; then the data starts |
| `HeaderRoundTrip.HeaderIsParsed` | OeyEnc.Dll/yDecode.h:1440-1897 | Parsing any printed header, with optional part, total, CRC, offset, escape, escoff, compression and range, returns its fields, its trimmed name and the start of the data, exactly when the buffer is long enough for the size to be found, and MissingTag otherwise; a header without a CRC takes the one found behind it, a compression that begins too far on is not seen, and a name of one byte is lost |
| `HeaderFields.HeaderSaysWhatWasPrinted` | OeyEnc.Dll/yDecode.h:1440-1897 | The same field by field: every number that was printed and no other, the place and the length of the name, which is Unicode exactly if it holds two or more NULs and has even length, the place and the length of the compression, and the data, which is what follows |
| `WireFormat.LineIsRanged` | OeyEnc.Dll/yDecode.h:1504-1547 | A line length is accepted exactly from 63 to 998, in 16 bits, and a size exactly if it is not zero |
| `WireFormat.PartIsRanged` | OeyEnc.Dll/yDecode.h:1552-1571 | A part number is accepted exactly if it is not zero in 16 bits |
| `WireFormat.TotalIsRanged` | OeyEnc.Dll/yDecode.h:1573-1602 | A total likewise, and only with a part number |
| `WireFormat.OffsetIsRanged` | OeyEnc.Dll/yDecode.h:1617-1642 | An offset is kept in 8 bits; a star stands for 42 |
| `WireFormat.EscapesAreRanged` | OeyEnc.Dll/yDecode.h:1644-1684 | Escape character and escape offset are kept in 8 bits, and the latter must not be zero |
| `WireFormat.RangeIsRanged` | OeyEnc.Dll/yDecode.h:1833-1872 | A range is accepted exactly if it begins at 1 or later but not at the largest number, and ends at 2 or later |
| `WireFormat.ShortKeywords` | OeyEnc.Dll/yDecode.h:1452-1501 | What a keyword at the start of a buffer needs behind it, for either version |
| `WireFormat.LongNameIsCut` | OeyEnc.Dll/yDecode.h:1733-1786 | A name whose end is not within 260 bytes is cut to 261 |
| `Refusals.AttributesAreNeeded` | OeyEnc.Dll/yDecode.h:1503-1731 | Without a line length, and without a name, the header is refused as lacking a tag |
| `Refusals.PartLineRules` | OeyEnc.Dll/yDecode.h:1817-1893 | A =ypart line without a part number or without begin= lacks a tag, one that is not next is invalid; with no data behind the header there is no more data |
| `HeaderRoundTrip.CompressionRead` | OeyEnc.Dll/yDecode.h:1685-1710 | The word of a compression is read, in any buffer, exactly if its name ends within the first 260 bytes of the attributes |
| `HeaderRoundTrip.LongBodySuffices` | OeyEnc.Dll/yDecode.h:1528-1534 | A body at least as long as the header makes the buffer long enough |
| `HeaderRoundTrip.LineAndSizeParsed` | OeyEnc.Dll/yDecode.h:1504-1547 | The shortened search for the size succeeds exactly when the two attributes lie near enough to the start |
| `HeaderBounds.ParsesInside` | OeyEnc.Dll/yDecode.h:1440-1897 | On every buffer that starts with the keyword and ends in a line break, the parser never reads outside it |
| `HeaderBehindText.AcceptedBehindText` | OeyEnc.Dll/yDecode.h:1440-1897 | Text before the keyword is not ignored: of every buffer that ends in a line break and whose header is accepted on its own, printed or not, the header behind text is accepted, with its places moved, exactly when it has a part number; otherwise the search for that number leaves the buffer |
| `HeaderBehindText.FieldsMoved` | OeyEnc.Dll/yDecode.h:1503-1897 | The same for headers that are not accepted: a missing line length makes the parser leave the buffer too; every other error is the same behind text; the end of the buffer may be taken for the start of data |
| `HeaderBehindText.PrintedBehindText` | OeyEnc.Dll/yDecode.h:1440-1897 | For printed headers behind any text: MissingTag if the size is out of reach, then the moved record with a part number, and reading outside the buffer without one |
| `HeaderBehindText.KeywordBehindText` | OeyEnc.Dll/yDecode.h:1452-1462 | Behind any lines without an equals sign the keyword is found where it stands |
| `SampleMessage.SampleBehindTextOverruns` | OeyEnc.Dll/yDecode.h:1552-1556 | Headers, of either version and with any size from 200 bytes on, that are accepted on their own and make the parser leave the buffer behind any such lines |
| `MessageSplit.DecoderFindEncodedBody` | OeyEnc.Dll/yDecode.h:549-599 | The next =ybegin2 line, or else the next =ybegin line, and the end of the =yend line behind it |
| `MessageSplit.ScanBodies` | OeyEnc.Dll/MimeMessage.cpp:1302-1363 | The scan loop collects exactly the bodies whose headers parse, and goes on behind each body either way |
| `MessageSplit.ScanIsOrdered` | OeyEnc.Dll/MimeMessage.cpp:1302-1363 | Accepted bodies are increasing, disjoint, inside the message, and parse to the record stored with them |
| `MessageSplit.PairedIsScanned` | OeyEnc.Dll/MimeMessage.cpp:1302-1363 | If every =ybegin line is followed by a =yend line and the message ends in a line break, the scan terminates, reads no null pointer and parses no header past the end of its body |
| `MessageSplit.UnpairedFaults` | OeyEnc.Dll/MimeMessage.cpp:1302-1363 | Without any =yend line the scan goes on at a null pointer exactly when there is a =ybegin line |
| `ScanExact.ScannedIffPaired` | OeyEnc.Dll/MimeMessage.cpp:1302-1363 | With carriage returns and line feeds in pairs and a line break at the end: the scan comes to its end exactly when every =ybegin line is followed by a =yend line, wherever the unpaired one stands; otherwise it goes on at a null pointer |
| `ScanExact.FirstBodyIsFound` | OeyEnc.Dll/yDecode.h:563-568 | The first =ybegin line of either version is the one reported exactly when there is no =ybegin2 line, no =ybegin line, or the first =ybegin2 line comes first |
| `OlderVersion.OlderBodyIsLost` | OeyEnc.Dll/yDecode.h:563-568 | A readable body of the older version before one of the newer is not attached: loading such a mail yields the data of the newer body alone |
| `SampleMessage.OlderSampleIsLost` | OeyEnc.Dll/yDecode.h:563-568 | Mails, with bodies of any sizes from 200 bytes on, of which this is so |
| `Attachments.DecodeBody` | OeyEnc.Dll/MimeMessage.cpp:1623-1880 | A body is attached decoded if the size check and the decoder accept it, and as it stands otherwise |
| `Attachments.AttachBodies` | OeyEnc.Dll/MimeMessage.cpp:1559-1978 | The attach loop emits every body, and every text between bodies and behind the last one |
| `Attachments.LoadEncodedStream` | OeyEnc.Dll/MimeMessage.cpp:1274-1978 | Headers, scan and attach loop in sequence, with their failures |
| `Refusals.OthersAreNotLoaded` | OeyEnc.Dll/MimeMessage.cpp:1274-1363 | Which messages are left alone: those without an empty line, with nothing behind it, and without an accepted body |
| `LoadExact.LoadingIsExact` | OeyEnc.Dll/MimeMessage.cpp:1274-1978 | Of every message with its carriage returns and line feeds in pairs and a line break at the end: loading crashes exactly when a =ybegin line has no =yend line behind it; otherwise the message is not encoded, or it is conserved: its attachments, put together in order, are the message from its first accepted body to its end, byte for byte, its bodies are the accepted ones in order, and every rejected body behind the first accepted one lies within one text. Nothing is assumed of the scan or of the headers |
| `LoadExact.ContentExists` | OeyEnc.Dll/MimeMessage.cpp:1623-1880 | Every accepted body of such a message is attached, decoded to no more bytes than it has or as it stands, with its data inside it |
| `Conservation.MessageIsConserved` | OeyEnc.Dll/MimeMessage.cpp:1302-1978 | The conservation itself, of any message that is scanned and attached |
| `Conservation.AttachedTiles` | OeyEnc.Dll/MimeMessage.cpp:1559-1978 | From the end of any body on, texts and bodies lie next to one another and fill the message |
| `Conservation.RejectedIsApart` | OeyEnc.Dll/MimeMessage.cpp:1336-1363 | A rejected body shares no byte with an accepted one |
| `MessageRoundTrip.EncodedMessageIsAttached` | OeyEnc.Dll/MimeMessage.cpp:1274-1978 | A message with one encoded body, as any encoder that keeps to the draft writes it, is loaded as one attachment that holds exactly the data and one text with what follows: header parser, scan, size check, decoding loops and attach loop together |
| `PlainMessages.PlainIsSilent` | OeyEnc.Dll/yDecode.h:1503-1710 | Sufficient for that: the name is a plain word, the trailer has a part number only if the header has one, and the encoded bytes hold none of the attribute names that the header lacks; then no search of the parser finds anything that the header does not say |
| `PlainMessages.PlainIsReadable` | OeyEnc.Dll/yDecode.h:1440-1897 | Such a message, with a body no shorter than its header, meets every condition of the round trip |
| `PlainMessages.PlainMessageIsLoaded` | OeyEnc.Dll/MimeMessage.cpp:1274-1978 | Such a message at the end of a mail, with an honest size, is loaded as a single attachment with exactly its data |
| `SampleMessage.SampleIsReadable` | OeyEnc.Dll/yDecode.h:1440-1897 | The conditions of the round trip are met by messages of either version and every size from 200 bytes to 2^31 |
| `MessageChain.EncodedMessagesAreAttached` | OeyEnc.Dll/MimeMessage.cpp:1274-1978 | A mail with any number of encoded bodies, and any text between and behind them, is loaded as attachments that hold exactly the data of the bodies in their order, and whose encoded forms and texts together are the mail from its first body to its end |
| `MessageChain.ChainIsScanned` | OeyEnc.Dll/MimeMessage.cpp:1302-1363 | Every body of such a mail is found, accepted and will be decoded to its data |
| `Mails.MailIsChained` | OeyEnc.Dll/MimeMessage.cpp:1302-1363 | When that is so: the mail is put together from plain honest bodies and, between them, whole lines without an equals sign, and no body of the newer version stands behind one of the older |
| `Mails.MailIsLoaded` | OeyEnc.Dll/MimeMessage.cpp:1274-1978 | Such a mail is loaded as the data of its bodies, in their order |
| `SampleMessage.SampleMailIsOrderly` | OeyEnc.Dll/MimeMessage.cpp:1302-1363 | Such mails, with any number of bodies of either version and of any sizes from 200 bytes on |
| `MessageRoundTrip.TrailerIsFirst` | OeyEnc.Dll/yDecode.h:549-599 | No line of a printed header or a well-formed body starts with =yend, so the trailer is what the line search finds |
| `MessageRoundTrip.DataIsDecoded` | OeyEnc.Dll/MimeMessage.cpp:1633-1688 | With an honest size the check passes, the buffer suffices and the data comes out |
| `StatedSizes.DataIsAttached` | OeyEnc.Dll/MimeMessage.cpp:1633-1688 | Whatever size the header states, from begin to end or of the whole: the body is attached as it stands if that is more than twice its encoded size and one, and otherwise all of the data is attached if it fits 64 KiB or the stated size |
| `StatedSizes.DataIsCut` | OeyEnc.Dll/MimeMessage.cpp:1673-1688 | The decoder writes as much of the data as 64 KiB or the stated size make room for |
| `StatedSizes.WrongSizeIsMarked` | OeyEnc.Dll/yDecode.h:874-952 | A wrong size is marked, exactly unless it is 64 KiB or more and less than that of the data, which is then cut to it |
| `Integrity.Judge` | OeyEnc.Dll/yDecode.h:892-952 | What the file name says of CRC, size and part; the CRC is calculated and compared only if one is stated and both data and table are given |
| `Integrity.VerdictsAre` | OeyEnc.Dll/yDecode.h:892-952 | Without data or without a table the verdict is the same but for the CRC |
| `Integrity.PartCrcGoesFirst` | OeyEnc.Dll/yDecode.h:902-929 | The CRC that is compared is that of the part, or else that of the whole |
| `Integrity.RightDataIsNotMarked` | OeyEnc.Dll/yDecode.h:902-929 | Data with the stated CRC, or of which none is stated, gets no mark |
| `Integrity.LaterPartsAreNamed` | OeyEnc.Dll/yDecode.h:936-940 | A part is named, by its own number, exactly if it is a later one of several |
| `Integrity.DamageIsMarked` | OeyEnc.Dll/yDecode.h:902-929 | Data damaged within 32 bits is marked as having a bad CRC exactly when its own CRC is not zero, since the mark is that CRC; undamaged data is not marked |
| `Integrity.DamageGoesUnmarked` | OeyEnc.Dll/yDecode.h:902-929 | Damage that is not marked exists for all data and any four consecutive bytes of it: one way of changing these bytes gives the CRC zero, unless the data has it already |
| `Crc32Inverse.AnyChecksumIsReached` | OeyEnc.Dll/yDecode.h:233-273 | For every buffer, any four consecutive bytes of it and any CRC, exactly one choice of these bytes gives the buffer that CRC |
| `Integrity.CertifiedMessageIsClean` | OeyEnc.Dll/yDecode.h:892-952 | A message with an honest size whose trailer states the CRC of the data, of the part or of the whole, gets no mark after it was decoded |
| `Combine.CombineRelatedAttachments` | OeyEnc.Dll/MimeMessage.cpp:2320-2478 | The grouping loop over the array, which it empties as it goes, computes Combined |
| `Combine.AddSizes` | OeyEnc.Dll/MimeMessage.cpp:2339-2379 | The first pass adds up sizes in 32 bits, and leaves out a summand that does not make the sum larger |
| `Combine.MoveData` | OeyEnc.Dll/MimeMessage.cpp:2403-2436 | The second pass appends the data of the members in order and empties exactly their slots |
| `Combine.CombiningPartitions` | OeyEnc.Dll/MimeMessage.cpp:2320-2478 | One output for each attachment whose name contains no earlier name; it joins, in array order, exactly the attachments for which this is the first name that theirs contain, in any case; nameless ones stay, all others leave the array |
| `Combine.ContainsTransitive` | OeyEnc.Dll/MimeMessage.cpp:2284-2318 | Containing in any case is transitive, which is why the leader of a leader is itself |
| `Combine.ContainedBetween` | OeyEnc.Dll/MimeMessage.cpp:2284-2318 | A name that contains another is made of something, the other in any case, and something |
| `Combine.ContainsBetween` | OeyEnc.Dll/MimeMessage.cpp:2284-2318 | And every name so made contains the other |
| `Combine.ReservedIsExact` | OeyEnc.Dll/MimeMessage.cpp:2347-2372 | The size set aside for a group is the length of its output exactly when that fits 32 bits |
| `Combine.OutputsReserveExactly` | OeyEnc.Dll/MimeMessage.cpp:2347-2372 | So for every output: what was set aside for it is its length exactly when that fits 32 bits |
| `Combine.BytesAreConserved` | OeyEnc.Dll/MimeMessage.cpp:2320-2478 | The outputs together are as long as all named attachments together |
| `MemoryStream.Stream.Write` | inc/StreamImpl.h:269-326 | Writing fails on 32-bit overflow of the position and when a stream without storage is not granted any; otherwise storage is ensured, the bytes are stored and position and size advance; the reported count is that of the request in every case. A block that is not granted for a stream that has one already is written to as if it were, past its end if it is too short |
| `MemoryStream.Stream.Seek` | inc/StreamImpl.h:330-403 | The target is computed in unsigned 64 bits; beyond the size the stream is extended first, which needs no block to be granted |
| `MemoryStream.Stream.Read` | inc/StreamImpl.h:706-745 | Stored bytes, then zeros up to the size, into the buffer of the caller, whose other bytes are untouched |
| `MemoryStream.Stream.EnsureBufferSize` | inc/StreamImpl.h:655-703 | Growth with slack in a release build and without in a debug build; no move down to a quarter; a refused block is noticed only when there was none before, and counted as granted otherwise |
| `MemoryStream.Stream.SetSize` | inc/StreamImpl.h:405-419 | A new size, and storage only for a smaller one, whether or not a block is granted |
| `MemoryStream.Stream.GetMemoryInfo` | inc/StreamImpl.h:599-639 | Storage for the whole stream, and as many of address and size as are asked for; asking for neither is an error; failure exactly when a stream that has a size but no storage is not granted any |
| `MemoryStream.MemReallocate` | inc/StreamImpl.h:119-160 | A zero-filled block with the bytes that fit, nothing for no bytes, and the old block if none is granted |
| `MemoryStream.Stream.Reallocate` | inc/StreamImpl.h:685-703 | The block is replaced; that none was granted is reported only by a stream that had none |
| `MemoryStream.Refused` | inc/StreamImpl.h:655-703 | A refused block is noticed exactly when the stream has no storage and needs some, and mistaken for a granted one exactly when it has some and needs more |
| `MemoryStream.ResizingNeedsNoBlock` | inc/StreamImpl.h:747-767 | Resizing gives the same status, size, position and storage whether or not a block is granted |
| `MemoryStream.SeekingNeedsNoBlock` | inc/StreamImpl.h:330-403 | So does seeking |
| `MemoryStream.RefusalIsMistaken` | inc/StreamImpl.h:655-703 | An input: a stream of one byte that takes a second one for allocated |
| `StreamIsFile.StreamRefinesFile` | inc/StreamImpl.h:269-403 | Over every run of Write, Seek, SetSize, Read and GetMemoryInfo on a new stream that is granted its storage, callers see what a plain file of bytes and a position shows them, if every read starts inside the stream and inside its storage; a byte exposed by extending is zero or what was written to its place last |
| `StreamIsFile.SeekFailsOutside` | inc/StreamImpl.h:330-403 | Seeking from a known origin fails exactly when the target lies before the start or at 2^32 or beyond, with OutOfMemory in both cases and nothing changed; otherwise it arrives there |
| `StreamIsFile.StepIsAllowed` | inc/StreamImpl.h:655-767 | Each operation, with all its growth, shrinking and late allocation, is one that the file allows |
| `StreamIsFile.ReadableIsExact` | inc/StreamImpl.h:706-745 | That condition on reads is exact: any other read overruns the buffer of the caller or reports a wrong count |
| `StreamIsFile.ReadBehindEndMiscounts` | inc/StreamImpl.h:706-745 | Reading from behind the end goes back to it and reports a count of almost 2^32, if there is storage up to the end |
| `StreamIsFile.ReadAfterSeekIsWild` | inc/StreamImpl.h:706-745 | Seeking ahead in a new stream and reading, even nothing, overruns the buffer |
| `StreamIsFile.CutBytesReappear` | inc/StreamImpl.h:747-767 | A stream cut short and extended again shows what was cut off |
| `StreamGrowth.AppendingIsLinear` | inc/StreamImpl.h:655-703 | For every run of appending writes of n bytes in all, n below 2^31, a release build copies at most four times its final storage and at most the larger of 8n and 16384 bytes when it moves storage |
| `StreamGrowth.GrowthIs` | inc/StreamImpl.h:655-703 | A release build doubles its storage up to 4/3 MiB, and adds a quarter and 1 MiB from there on; a debug build has no slack |
| `StreamGrowth.StorageMovesIff` | inc/StreamImpl.h:655-703 | Storage stays where it is for sizes that fit it and are more than a quarter of it, and moves for all others |
| `StreamGrowth.AppendsAreStored` | inc/StreamImpl.h:269-326 | After any run of appending writes the stream is their concatenation |
| `StreamGrowth.DebugBuildIsQuadratic` | inc/StreamImpl.h:662-667 | A debug build copies exactly n(n-1)/2 bytes for n one-byte writes |
| `StreamGrowth.ShrinkingFreesMost` | inc/StreamImpl.h:677-703 | Shortening a stream moves storage only if three quarters of it come free, and leaves less than about four times the size |
| `CircularList.InsertTailList` | inc/List.h:107-121 | The ring gains the entry at its end |
| `CircularList.InsertHeadList` | inc/List.h:123-137 | The ring gains the entry behind its head |
| `CircularList.RemoveEntryList` | inc/List.h:59-73 | The ring loses the entry; the result says whether at most one other is left |
| `CircularList.RemoveHeadList` | inc/List.h:75-89 | The first entry is returned and leaves the ring; an empty list returns its head |
| `CircularList.RemoveTailList` | inc/List.h:91-105 | The last entry is returned and leaves the ring |
| `CircularList.AppendTailList` | inc/List.h:139-153 | A whole headless ring is spliced in at the end |
| `CircularList.PrependHeadList` | inc/List.h:155-171 | A whole headless ring is spliced in at the front |
| `CircularList.FlushList` | inc/List.h:173-189 | The head becomes an empty list, and the entries a ring of their own |
| `CircularList.FlushAndRestore` | inc/List.h:139-189 | Flushing a nonempty list and splicing its entries back, at either end, restores it |
| `CircularList.IsListEmpty` | inc/List.h:50-57 | True exactly for a list without entries |
| `CircularList.RingRotates` | inc/List.h:41-189 | A ring has no beginning |
| `CircularList.RingIsDetermined` | inc/List.h:41-189 | The pointers determine the entries and their order |
| `SingleList.PopEntryList` | inc/List.h:209-222 | The first entry leaves the list, if there is one |
| `SingleList.PushEntryList` | inc/List.h:224-233 | The entry comes first |
| `SingleList.AppendEntryList` | inc/List.h:235-249 | The loop finds the end of the list, and the entry comes last |
| `GuardPage.GuardPageIsExact` | inc/VerifierMem.h:57-88 | For every word width, page size 2^k up to half of its range and request: overflow is reported exactly when the rounded size does not fit a word; otherwise the block lies inside the allocation, ends exactly at the guard page for overruns and starts right behind it for underruns |
| `GuardPage.MaskRoundsDown` | inc/VerifierMem.h:60 | Masking with the complement of the page size less one rounds down to whole pages |
| `GuardPage.TrueSizeHolds` | inc/VerifierMem.h:57-60 | The rounded size is the least multiple of the page that holds request and guard page |
| `X86.AddressingSize` | CoJack/Cojack.h:3244-3305 | ModRM and SIB sizes add up to the displacement size of the processor except with a SIB byte of base 5 in modes 1 and 2, where it is counted twice |
| `X86.DecodingMoves` | CoJack/Cojack.h:3489-3665 | How far an instruction extends depends on its own bytes only, not on its address |
| `X86.DocumentedSizes` | CoJack/Cojack.h:3307-3352 | The two 32-bit examples of the source, whatever their addresses and whatever follows |
| `X86Reference.RowMeasures` | CoJack/Cojack.h:66-88 | A record that keeps to the documented rules measures opcode and operands as a reference does that knows nothing of records: a byte takes 1, an operand 4 or 2 behind 66, an address 4 or 2 behind 67 |
| `X86Reference.ReferenceAgrees` | CoJack/Cojack.h:3489-3683 | On every code, with records that keep to the rules, the relocator finds the end of an instruction that the reference finds, exactly unless a displacement is counted twice, an opcode behind 0F is taken for TEST, or the far pointer of FF /3 and /5 for an immediate |
| `X86Reference.ReturnsAre` | CoJack/Cojack.h:3598-3604 | The five instructions at which copying stops |
| `X86Reference.UnknownIsOneByte` | CoJack/Cojack.h:3612-3617 | An opcode without a record is taken for one byte |
| `X86Reference.ImmediateSizes` | CoJack/Cojack.h:3307-3361 | mov eax,imm and push imm take five bytes, or four behind 66 |
| `X86Reference.TestSizes` | CoJack/Cojack.h:3631-3643 | TEST has one byte of immediate for F6 and an operand for F7; NOT has none |
| `X86Reference.FarSizes` | CoJack/Cojack.h:3644-3658 | FF /3 and /5 are taken for longer than they are by an operand, FF /4 for relative |
| `X86Reference.RelativeSizes` | CoJack/Cojack.h:3307-3361 | call and jcc, near and short, and the widths of their displacements |
| `Relocation.DecodeOpCode` | CoJack/Cojack.h:3539-3665 | Decoding behind the prefixes: opcodes of one byte and behind 0F, returns, ModRM, SIB, sizes |
| `Relocation.CopyInstruction` | CoJack/Cojack.h:3684-3734 | One instruction is copied if it fits the callgate; if it is relative, its displacement is extracted before and rewritten behind, or refused |
| `Relocation.RelativeIsRewritten` | CoJack/Cojack.h:3365-3463 | A relative instruction of any of the four widths is moved exactly when the distance computed from the bytes behind it is in reach of the width; its displacement is then overwritten with the width and the new address |
| `Relocation.OtherWidthsAreRefused` | CoJack/Cojack.h:3406-3463 | Relative instructions of any other width, such as an indirect jump, are refused |
| `Displacements.ImageIs` | CoJack/Cojack.h:3719-3731 | What is written in place of a displacement is the start of its record: its width and its own address |
| `Displacements.ReachesIff` | CoJack/Cojack.h:3406-3455 | Which distances are in reach of which width |
| `Displacements.ValuesAre` | CoJack/Cojack.h:3365-3393 | The value of a displacement is read lowest byte first |
| `Displacements.RecalculatedLeads` | CoJack/Cojack.h:3406-3463 | The value that is recalculated leads from the new place to the target |
| `Relocation.ShortRelativeIsMisled` | CoJack/Cojack.h:3365-3463 | An instruction with an 8-bit displacement is moved exactly when the distance computed from the byte three behind it fits; its displacement is then 1 in the callgate |
| `Relocation.NearRelativeIsRefused` | CoJack/Cojack.h:3365-3463 | One with a 32-bit displacement is refused for every computed distance but -2^31; for that one its displacement is lost too |
| `Relocation.SampleJumpIsMisled` | CoJack/Cojack.h:3365-3463 | An input: je +8 and three nops lead nine bytes further than they did, counted from the old code, with the callgate 16 bytes on |
| `Relocation.RelocateInstructionStream` | CoJack/Cojack.h:3489-3757 | The loop over prefixes and instructions terminates on every code stream and every opcode lookup, with the outcome and memory of Relocated |
| `Relocation.WholeInstructionsAreCopied` | CoJack/Cojack.h:3489-3757 | A successful copy of code without relative instructions takes whole instructions, up to the first boundary at or above the minimum; they fit the callgate, equal the source prefix, and nothing else in memory is written |
| `Relocation.BoundaryIsReached` | CoJack/Cojack.h:3489-3757 | And copying succeeds whenever the instructions up to that boundary are not relative and fit |
| `Refusals.CopyingIsRefused` | CoJack/Cojack.h:3489-3757 | How one instruction is refused: returns, too little room, the end of memory |
| `Jumps.InitializeJmpSequence` | CoJack/Cojack.h:3759-3791 | Opcode E9 and the displacement, lowest byte first, before INT3 bytes |
| `Jumps.FindFinalTarget` | CoJack/Cojack.h:3834-3866 | The loop over all four kinds of jump ends at the final target, if following jumps does not go round in a circle |
| `Jumps.ShortJumpsLeadForward` | CoJack/Cojack.h:3834-3866 | The jump EB is followed as the processor takes it exactly when its displacement is below 128 |
| `Jumps.ThunkIsFollowed` | CoJack/Cojack.h:3834-3866 | FF 25 is followed to what its pointer points to |
| `Jumps.NarrowJumpIsFollowed` | CoJack/Cojack.h:3834-3866 | 66 E9 is followed as far as its 16 bits say |
| `Jumps.FaultsAre` | CoJack/Cojack.h:3834-3866 | Following faults exactly if some byte of the jump or the pointer lies outside memory |
| `Jumps.OthersAreFinal` | CoJack/Cojack.h:3834-3866 | No other instruction is followed |
| `Jumps.ChainEndsIffAcyclic` | CoJack/Cojack.h:3834-3866 | Following jumps comes to an end exactly when it never comes back to an address |
| `Jumps.FinalTargetIs` | CoJack/Cojack.h:3834-3866 | The final target is the end of the chain and holds no jump; a chain that reads outside memory has none |
| `Jumps.JumpLeadsToTarget` | CoJack/Cojack.h:3809-3832 | In 32-bit arithmetic, a jump built for any source and target leads from the one to the other |
| `Jumps.FollowingUndoesBuilding` | CoJack/Cojack.h:3759-3866 | Once a jump to the target is written at the source, following from the source ends where following from the target always did, if the write misses that chain |
| `Hook.BuildCallgate` | CoJack/Cojack.h:3905-3952 | The relocated instructions and the jump back behind them |
| `Hook.InstallProcedureHook` | CoJack/Cojack.h:3868-4010 | Final targets, callgate, jump to the hook and INT3 filling, with every failure |
| `Hook.InstalledIs` | CoJack/Cojack.h:3868-4010 | After success, with no relative instruction among the first five bytes and the moved bytes and the jump back apart from the procedure: callgate, jump back, jump to the hook and INT3 lie where they should, the moved bytes reach to the first boundary that makes room, and no other byte has changed. For callgates of every size |
| `Hook.InstallingSucceeds` | CoJack/Cojack.h:3868-4010 | Installing succeeds whenever instructions up to the first sufficient boundary are not relative and fit the callgate, and the callgate lies in memory |
| `Refusals.InstallingIsRefused` | CoJack/Cojack.h:3878-3904 | A callgate of five bytes or less, and targets outside memory, are refused with nothing written |
| `Refusals.CallgateIsRefused` | CoJack/Cojack.h:3905-3960 | The callgate has to lie in memory, with 15 bytes for the jump |
| `Hook.SmallCallgateIsOverrun` | CoJack/Cojack.h:3882-3952 | A callgate of 6 to 14 bytes is accepted, because the room wraps around, and overrun exactly when the moved bytes leave less than the five of the jump back; the rest of the code then stands behind its end. One of 15 bytes is refused, a larger one never overrun |
| `Hook.SampleIsOverrun` | CoJack/Cojack.h:3882-3952 | Inputs: an instruction of five bytes, and a callgate of six to nine |
| `Processor.CopyKeepsStep` | CoJack/Cojack.h:3489-3757 | On a processor with a decoder of its own, whole instructions that fall through and do the same at every address take a copy of the code through the same states |
| `Processor.PassingCovers` | CoJack/Cojack.h:3489-3757 | The converse: straight code that executes its first instructions within the given bytes and then arrives right behind them has met whole instructions |
| `HookMeaning.HookingPreservesMeaning` | CoJack/Cojack.h:3868-4010 | If the bytes that moved are whole instructions of the processor, the callgate executes from every state as many instructions as the original, comes to its jump back, and is then where the original is, in the same state. If not, it is in step with the original up to the instruction that was cut; unless what it meets there leads back to the moved bytes, it never comes to its jump back, so that the condition is exact. In every case the procedure enters the hook with the state unchanged |
| `HookMeaning.CutNeverPasses` | CoJack/Cojack.h:3868-4010 | From no state, and after no number of steps, does a callgate with such a cut come to its jump back |
| `HookMeaning.FallingCutLeaves` | CoJack/Cojack.h:3868-4010 | What the callgate meets at the cut takes in at least a byte of the jump back, and so does not lead back to the moved bytes if it falls through |
| `HookMeaning.CutMakesAnother` | CoJack/Cojack.h:3868-4010 | Its bytes differ from those of the instruction that was cut exactly when the bytes that were left behind are not those that the jump back begins with; in particular if the first of these is not E9 |
| `HookMeaning.AgreementIffNoneMiscounted` | CoJack/Cojack.h:3489-3683 | If the processor reads instructions as the reference does, and the records looked up for them keep to the rules, relocator and processor agree on the copied instructions exactly when none of them is miscounted |
| `HookMeaning.RightTablesPreserveMeaning` | CoJack/Cojack.h:3868-4010 | Hooking then preserves meaning if none is |
| `HookCuts.CutInsideInstruction` | CoJack/Cojack.h:3868-4010 | Input 8B 44 35 08 8B C1, on every processor that reads these as a load and a move: the callgate holds 8B E9 in place of 8B C1, and executes mov ebp,ecx where the original executes mov eax,ecx, in the same state; it then goes on inside its jump back, and never comes to it |
| `HookCuts.CutBehindPrefix` | CoJack/Cojack.h:3868-4010 | Input 8B FF 8B F0 F3 A5: the callgate is cut behind the repeat prefix, which the tables take for an instruction. It arrives where the original does, having executed A5 in the state in which the original executes F3 A5 |
| `SampleProcessor.SampleIsCutInside` | CoJack/Cojack.h:3868-4010 | A processor, a memory and tables that meet all this: the states after two instructions differ unless ebp equals ecx |
| `SampleProcessor.SampleIsCutBehindPrefix` | CoJack/Cojack.h:3868-4010 | On the same processor one double word is moved instead of as many as ecx says |

## Left out

- COM, property setting, content types, streams of other components: calls into code outside the repository.
- StreamIsFile.StreamRefinesFile: assumes that storage is granted; MemoryStream.Refused says what a stream becomes when it is not, and writing on after that is not modelled.
- MemoryStream.Stream.Write: which bytes a stream holds after writing to a block that was refused, where the old block happens to be long enough, is not stated; the optional count is always returned.
- MemoryStream.Stream.Seek: the optional new position is not a result of its own, because it is the position of the stream.
- CopyTo, Stat and the unimplemented methods of the stream; locking.
- A read behind the storage, and a parse or decode that leaves its buffer, are outcomes; what happens after them is not modelled.
- Serialize.SerializeEncodeInfo: leaves out the comp and name fields, which are converted between code pages by the operating system.
- Serialize.DeserializeEncodeInfo: leaves out the comp and name lookups, for the same reason.
- DecoderMakeFileName: code pages and wide strings. Of DecoderGetFileName, only the decision about marks is modelled.
- DecoderGetSubjectParts, which may give the first body a part and a total from the subject before it is decoded; neither bears on the bytes that are attached.
- Text before the first accepted body is never attached by the source, and so is not conserved by the model either.
- MessageSplit.ScanBodies: the header of a body without a trailer is not parsed, since the source lets that parse run to a null pointer; the outcome is Faulted either way.
- A body whose data start is a null pointer, which takes a =ypart line without a line break behind its end= attribute: its loading counts as a crash, although the size check may turn it into a raw attachment.
- HeaderRoundTrip.HeaderIsParsed: assumes that no attribute other than a CRC which the header lacks shows up in the rest of the buffer, since the parser searches all of it; PlainMessages.PlainIsSilent says when none does.
- Header.DecoderInitialize: the debug assertions of the source are not part of the model.
- Hook.InstalledIs: assumes that no relative instruction begins within the first five bytes (`MovesFreely`); Relocation.RelativeIsRewritten, Relocation.ShortRelativeIsMisled and Relocation.NearRelativeIsRefused say what becomes of one. Processor.FallsThrough and Processor.IgnoresPlace exclude what moving must break: jumps, calls and code that reads its own address.
- Relocation.CopyMemory: a copy that would leave memory faults before it writes anything.
- Hook.InstallProcedureHook: following jumps in a circle, which never ends in the source, is excluded by a precondition; failing to restore page protection after a failure changes the error code only.
- The media opcode tables, the 64-bit build, FindFinalRemoteTarget, process injection and structured exceptions.
- Entries that are on two lists at once: lists that are spliced together are disjoint.
- The encoder breaks lines anywhere between two encoded bytes and does not enforce a line length.
