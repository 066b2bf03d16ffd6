# MJPG-streamer in Dafny

A model of the byte-level code of the vendored MJPG-streamer plugins, with proofs of what they promise.
The code of an object or a buffer that is changed in place is a class or a method over arrays with the
source's loops; each is proved against a function of its inputs, and the theorems are about these
functions. `dafny verify dfyconfig.toml` checks everything.

## The parts

**The entropy decoder of the autofocus plugin** (ITU-T T.81). `Bits` has bit strings and exact 32-bit
words. `CanonicalCode` assigns the codes of section C.2 and shows when they are prefix-free,
`HuffmanTables` fills the lookup arrays from a DHT segment, `Stuffing` is the refill loop with its two
raw bytes and its handling of FF 00, `EntropyDecoder` the bit reservoir, readXC, readTable and the MCU
loop. `EntropyEncoder` is an encoder written from sections F.1.2.1 to F.1.2.3; the round trip says that
the decoder undoes it. `ScanGrammar` says of arbitrary bits which ones are a scan, and that the decoder
accepts exactly these. `StandardTables` is the table segment of the UVC plugin, with the code words of
`AnnexK`; `InsertedScan` puts it through this decoder.

**The stream between two streamers.** `HttpStream` is what send_stream prints, `MjpgProxy` the
byte-by-byte extractor, `CrlfWords` its tests on machine words, `BoundaryMatch` its matcher, `Transport`
the round trip. `StreamClient` is a client that goes by the header fields instead.

**The shared frame buffer.** `FrameBuffer` is a state machine over the single steps of one producer and
any number of readers, down to the bytes of a copy; waking up may be spurious, realloc may fail or bring
any bytes, and a write may fail or be short. `NoTornFrames` has the invariant, `Progress` what a reader
can count on. `EndToEnd` joins them with the transport, `Relay` adds a second streamer behind the first. `Producing` says what any producer's
actions publish; `Raspicam` and `CamThread` are two producers, with everything they decide before they
publish.

**Buffers and loops.** `DhtInsertion`, `DestinationManager`, `Scanlines`, `Base64`, `PercentDecoding`,
`IoBuffer`, `RingBuffer`, `Autofocus`.

## Where the code is not what it seems

- The table search drops a match of the last entry. With the inserted standard tables a DC difference
  of category 11 can therefore not be decoded (`InsertedScan.ReadableCategories`), nor an AC value of
  category 10 behind 15 zeros (`InsertedScan.ReadableRunSizes`).
- Byte stuffing is undone if and only if behind an FF among the first two bytes, or an FF that follows
  an FF, there are only zeros (`Stuffing.UnstuffingIff`, in bits `EntropyEncoder.BitsSeenIff`, and
  `Stuffing.DoubleFFNotUndone` for a scan where it is not).
- The CR LF test asks for a subset of bits. The end of the status line passes it, so the response
  fields are delivered as a first picture (`Transport.LeadRead`).
- A write that sends only some of its bytes is taken for complete and tears the stream
  (`NoTornFrames.ShortTears`, `EndToEnd.CutHeaderTears`).
- The matcher starts over behind a mismatch, so it misses a boundary behind any partial match
  (`BoundaryMatch.FoundIff`), but never one behind CR LF.
- A boundary less than two bytes behind a header gives the callback a negative length
  (`Transport.BadLengthIff`).
- Where plain char is signed, one byte from 128 on can end a header (`Transport.NegativeCharEnds`).
- A DHT segment is inserted before the first start-of-frame marker even when the plugin will not
  recognise it afterwards; then a second pass changes the picture again (`DhtInsertion.SecondPassIff`).
- The shared buffer is as large as the camera's frame, so the 420 bytes of the table may not fit
  (`CamThread.OverrunIff`).
- Pictures received by the HTTP input are published with the old time stamp (`Relay.RelayPublishes`).
- A camera frame that ends without a byte releases a mutex that is not held
  (`Raspicam.UnlocksHeldIff`).
- With an odd number of pixels the scanline loops read behind their frame
  (`Scanlines.StaysInsideIff`).
- File names of one second sort by age as long as their counters have equally many digits; from 10^9 on
  a longer one can come first (`RingBuffer.CounterOrder`, `RingBuffer.BillionthSortsFirst`).
- The first focus search ignores readings up to 100, later ones do not (`Autofocus.FirstSearch`).

## Model

| member | source | states |
|---|---|---|
| CanonicalCode.FitsIffNoOverflow | conffiles/mjpg-streamer/mjpg-streamer-experimental/plugins/output_autofocus/processJPEG_onlyCenter.c:99-113 | The counts leave enough code space if and only if every code fits its own length. |
| CanonicalCode.CanonicalIsPrefixFree | conffiles/mjpg-streamer/mjpg-streamer-experimental/plugins/output_autofocus/processJPEG_onlyCenter.c:99-113 | Codes assigned in order of length, whenever they fit, are prefix-free: no 16-bit window starts with two of them. |
| CanonicalCode.TableIsPrefixFree | conffiles/mjpg-streamer/mjpg-streamer-experimental/plugins/output_autofocus/processJPEG_onlyCenter.c:99-114 | The same stated on the 16 counts of a table definition. |
| CanonicalCode.SearchMeaning | conffiles/mjpg-streamer/mjpg-streamer-experimental/plugins/output_autofocus/processJPEG_onlyCenter.c:151-163 | The linear search returns an entry other than the last whose code the window starts with, and nothing exactly if there is none. |
| CanonicalCode.SearchIff | conffiles/mjpg-streamer/mjpg-streamer-experimental/plugins/output_autofocus/processJPEG_onlyCenter.c:151-163 | In a prefix-free table the search finds the one matching entry, and fails if that is the last: the size check comes after the index was advanced. |
| HuffmanTables.Tables.FillLength | conffiles/mjpg-streamer/mjpg-streamer-experimental/plugins/output_autofocus/processJPEG_onlyCenter.c:103-111 | The inner loop stores the next `count` canonical codes of one length, left-aligned with masks, symbols and lengths, and leaves the other tables intact. |
| HuffmanTables.Tables.Fill | conffiles/mjpg-streamer/mjpg-streamer-experimental/plugins/output_autofocus/processJPEG_onlyCenter.c:98-114 | The loop over the 16 lengths fills the table with the code of section C.2 of T.81 for these counts and symbols. |
| HuffmanTables.Tables.ReadDefinition | conffiles/mjpg-streamer/mjpg-streamer-experimental/plugins/output_autofocus/processJPEG_onlyCenter.c:95-115 | One table description is parsed into the table its header names; the position behind it is returned. |
| HuffmanTables.Tables.ReadSegment | conffiles/mjpg-streamer/mjpg-streamer-experimental/plugins/output_autofocus/processJPEG_onlyCenter.c:88-116 | The do-while loop over a whole segment leaves the four tables that section B.2.4.2 of T.81 describes. |
| HuffmanTables.TableNumber | conffiles/mjpg-streamer/mjpg-streamer-experimental/plugins/output_autofocus/processJPEG_onlyCenter.c:96-97 | The class in the high nibble of a table header and the number in the low one select the table. |
| HuffmanTables.ExpectedIsCode | conffiles/mjpg-streamer/mjpg-streamer-experimental/plugins/output_autofocus/processJPEG_onlyCenter.c:101-112 | The running code value with its shifts is the recursive code assignment. |
| Bits.MaskedCompare | conffiles/mjpg-streamer/mjpg-streamer-experimental/plugins/output_autofocus/processJPEG_onlyCenter.c:153 | The masked 32-bit comparison looks at exactly the top bits of the code. |
| Bits.OrByte | conffiles/mjpg-streamer/mjpg-streamer-experimental/plugins/output_autofocus/processJPEG_onlyCenter.c:139-148 | Or-ing in a shifted byte appends its eight bits behind the valid ones. |
| Bits.TopBits | conffiles/mjpg-streamer/mjpg-streamer-experimental/plugins/output_autofocus/processJPEG_onlyCenter.c:189-207 | The arithmetic shift followed by the mask is the value of the top bits, also when the word is negative. |
| Bits.SarRoundsDown | conffiles/mjpg-streamer/mjpg-streamer-experimental/plugins/output_autofocus/processJPEG_onlyCenter.c:189-207 | The arithmetic shift of a signed int divides by a power of two and rounds down. |
| Stuffing.RawIsKept | conffiles/mjpg-streamer/mjpg-streamer-experimental/plugins/output_autofocus/processJPEG_onlyCenter.c:133-150 | Memory without a zero behind an FF is the stream itself: markers are data for this decoder. |
| Stuffing.UnstuffingIff | conffiles/mjpg-streamer/mjpg-streamer-experimental/plugins/output_autofocus/processJPEG_onlyCenter.c:133-150 | Whatever follows in memory, the stream the decoder draws on starts with the stuffed data (section B.1.1.5 of T.81) if and only if behind every FF among the first two bytes, and every FF that follows another FF, there are only zeros; then one zero too many comes behind the data if there is such an FF. |
| Stuffing.DoubleFFNotUndone | conffiles/mjpg-streamer/mjpg-streamer-experimental/plugins/output_autofocus/processJPEG_onlyCenter.c:142-149 | A concrete input: FF FF 03, stuffed, enters the bit stream as FF FF 00 03. |
| Stuffing.Lags | conffiles/mjpg-streamer/mjpg-streamer-experimental/plugins/output_autofocus/processJPEG_onlyCenter.c:138-150 | Once the loop has taken the second FF of a pair with the first it is one byte behind for good, which goes unnoticed only among zeros. |
| EntropyEncoder.BitsSeenIff | conffiles/mjpg-streamer/mjpg-streamer-experimental/plugins/output_autofocus/processJPEG_onlyCenter.c:133-150 | Of a padded and stuffed scan, with anything behind it, the decoder sees exactly the encoded bits if and only if no set bit comes behind an FF among the first two bytes or an FF that follows another FF. |
| EntropyDecoder.Scan.LoadNext | conffiles/mjpg-streamer/mjpg-streamer-experimental/plugins/output_autofocus/processJPEG_onlyCenter.c:139-149 | One refill iteration keeps the reservoir invariant: `data` is the next `bitlen` bits of the stream, left-aligned, zeros below. |
| EntropyDecoder.Scan.Refill | conffiles/mjpg-streamer/mjpg-streamer-experimental/plugins/output_autofocus/processJPEG_onlyCenter.c:138-150 | The refill loop consumes nothing and ends with 16 to 31 valid bits. |
| EntropyDecoder.Scan.TakeBits | conffiles/mjpg-streamer/mjpg-streamer-experimental/plugins/output_autofocus/processJPEG_onlyCenter.c:189-207 | Taking s bits returns the number the next s bits of the stream stand for and consumes exactly these. |
| EntropyDecoder.Scan.FindCode | conffiles/mjpg-streamer/mjpg-streamer-experimental/plugins/output_autofocus/processJPEG_onlyCenter.c:151-163 | The search loop over the filled arrays is the search in the abstract table. |
| EntropyDecoder.Scan.ReadXC | conffiles/mjpg-streamer/mjpg-streamer-experimental/plugins/output_autofocus/processJPEG_onlyCenter.c:137-179 | readXC returns the symbol of the code the stream goes on with and consumes exactly its bits, or -1. |
| EntropyDecoder.Scan.ReadAcs | conffiles/mjpg-streamer/mjpg-streamer-experimental/plugins/output_autofocus/processJPEG_onlyCenter.c:192-215 | The AC loop computes the functional decoding of the stream: runs, ZRL, EOB, sign extension, and the overrun error. |
| EntropyDecoder.Scan.ReadTable | conffiles/mjpg-streamer/mjpg-streamer-experimental/plugins/output_autofocus/processJPEG_onlyCenter.c:181-216 | readTable leaves the 64 coefficients of the functional block decoding, the new predictor and the position behind the block, or fails exactly if that does. |
| EntropyDecoder.Scan.ReadScan | conffiles/mjpg-streamer/mjpg-streamer-experimental/plugins/output_autofocus/processJPEG_onlyCenter.c:227-273 | The MCU loop with its three predictors decodes what the functional decoding of the scan says. |
| EntropyEncoder.ExtendOfExtra | conffiles/mjpg-streamer/mjpg-streamer-experimental/plugins/output_autofocus/processJPEG_onlyCenter.h:1 | HUFF_EXTEND recovers every value from its category and its extra bits (section F.1.2.1 of T.81). |
| EntropyEncoder.ExtraOfExtend | conffiles/mjpg-streamer/mjpg-streamer-experimental/plugins/output_autofocus/processJPEG_onlyCenter.h:1 | The converse: the two are bijections for each category. |
| EntropyEncoder.ExtendInOrder | conffiles/mjpg-streamer/mjpg-streamer-experimental/plugins/output_autofocus/processJPEG_onlyCenter.h:1 | The values of one category come in the order of their extra bits, which with that bijection leaves no other choice. |
| EntropyEncoder.SymbolRead | conffiles/mjpg-streamer/mjpg-streamer-experimental/plugins/output_autofocus/processJPEG_onlyCenter.c:137-179 | A symbol coded by any entry but the last is read back, with the length of its code. |
| EntropyEncoder.TokenApplied | conffiles/mjpg-streamer/mjpg-streamer-experimental/plugins/output_autofocus/processJPEG_onlyCenter.c:197-209 | A run/size symbol with its extra bits does what the token it encodes says. |
| EntropyEncoder.AcRead | conffiles/mjpg-streamer/mjpg-streamer-experimental/plugins/output_autofocus/processJPEG_onlyCenter.c:192-210 | The AC coefficients encoded by section F.1.2.2 of T.81 are read back from any position on. |
| EntropyEncoder.BlockRead | conffiles/mjpg-streamer/mjpg-streamer-experimental/plugins/output_autofocus/processJPEG_onlyCenter.c:181-216 | readTable gives back exactly the 64 coefficients of an encoded block and stops behind its last bit. |
| EntropyEncoder.McuRead | conffiles/mjpg-streamer/mjpg-streamer-experimental/plugins/output_autofocus/processJPEG_onlyCenter.c:232-267 | The four blocks of an MCU come back with the predictors of their components. |
| EntropyEncoder.McusRead | conffiles/mjpg-streamer/mjpg-streamer-experimental/plugins/output_autofocus/processJPEG_onlyCenter.c:232-273 | Any number of encoded MCUs come back. |
| EntropyEncoder.DecodeEncoded | conffiles/mjpg-streamer/mjpg-streamer-experimental/plugins/output_autofocus/processJPEG_onlyCenter.c:133-273 | The decoder object itself, put on memory with such a scan and any bytes behind, returns success and exactly the encoded MCUs. |
| EntropyEncoder.EntropyRoundTrip | conffiles/mjpg-streamer/mjpg-streamer-experimental/plugins/output_autofocus/processJPEG_onlyCenter.c:133-273 | A scan encoded, padded and stuffed, with any bytes behind it, is decoded to the same MCUs, ending at its last bit, whenever the decoder sees the encoded bits (the condition of BitsSeenIff). |
| ScanGrammar.BlockIff | conffiles/mjpg-streamer/mjpg-streamer-experimental/plugins/output_autofocus/processJPEG_onlyCenter.c:181-216 | readTable accepts a block exactly if its bits are code words in use with their extra bits, whose runs stay below 64 and end at coefficient 63 or with a symbol r/0, r < 15; the coefficients are those the items stand for. |
| ScanGrammar.DecodesIff | conffiles/mjpg-streamer/mjpg-streamer-experimental/plugins/output_autofocus/processJPEG_onlyCenter.c:227-273 | The MCU loop returns these MCUs and stops at this bit if and only if the bits up to there are a scan of that grammar that stands for them: the converse of the round trip, for any bits. |
| ScanGrammar.FailsIff | conffiles/mjpg-streamer/mjpg-streamer-experimental/plugins/output_autofocus/processJPEG_onlyCenter.c:227-273 | It fails if and only if no scan of that many MCUs lies there. |
| ScanGrammar.UnmatchedFails | conffiles/mjpg-streamer/mjpg-streamer-experimental/plugins/output_autofocus/processJPEG_onlyCenter.c:186-188 | In particular it fails where no code word in use comes first. |
| ScanGrammar.LastCodeFails | conffiles/mjpg-streamer/mjpg-streamer-experimental/plugins/output_autofocus/processJPEG_onlyCenter.c:158-163 | And where the code word of the last entry comes first. |
| ScanGrammar.Decode | conffiles/mjpg-streamer/mjpg-streamer-experimental/plugins/output_autofocus/processJPEG_onlyCenter.c:133-273 | The same of the decoder object, on any memory: success exactly if the stream starts with such a scan, and then the MCUs it stands for. |
| StandardTables.SegmentReadBack | conffiles/mjpg-streamer/mjpg-streamer-experimental/plugins/output_autofocus/processJPEG_onlyCenter.c:93-116 | A segment written from any sound table definitions is parsed back to these tables. |
| StandardTables.InsertedTablesParse | conffiles/mjpg-streamer/mjpg-streamer-experimental/plugins/input_uvc/huffman.h:26-62 | The 420-byte table passes that parser, fills all four tables, and each of them is prefix-free. |
| InsertedScan.InsertedTablesDecode | conffiles/mjpg-streamer/mjpg-streamer-experimental/plugins/output_autofocus/processJPEG_onlyCenter.c:88-273 | With the tables read from the inserted segment every scan coded with them round-trips under the same condition. |
| InsertedScan.ReadableCategories | conffiles/mjpg-streamer/mjpg-streamer-experimental/plugins/output_autofocus/processJPEG_onlyCenter.c:158-163 | With the inserted DC tables exactly the categories up to 10 can be coded for this decoder. |
| InsertedScan.ReadableRunSizes | conffiles/mjpg-streamer/mjpg-streamer-experimental/plugins/output_autofocus/processJPEG_onlyCenter.c:158-163 | With the inserted AC tables exactly their symbols other than FA (15 zeros, then a value of category 10) can be coded for this decoder, and no bits make it return FA. |
| InsertedScan.CategoryElevenFails | conffiles/mjpg-streamer/mjpg-streamer-experimental/plugins/output_autofocus/processJPEG_onlyCenter.c:158-188 | A concrete failure: with the tables of the inserted segment no scan that starts with 111111110 is decoded. |
| InsertedScan.LastCategoryNeverRead | conffiles/mjpg-streamer/mjpg-streamer-experimental/plugins/output_autofocus/processJPEG_onlyCenter.c:158-163 | Whatever the bits, the decoder never returns the last symbol of such a table. |
| AnnexK.Dc0Words | conffiles/mjpg-streamer/mjpg-streamer-experimental/plugins/input_uvc/huffman.h:26-62 | The first DC table has the code words of table K.3 of T.81. |
| AnnexK.Dc1Words | conffiles/mjpg-streamer/mjpg-streamer-experimental/plugins/input_uvc/huffman.h:26-62 | The second one has those of table K.4. |
| AnnexK.Ac0Words | conffiles/mjpg-streamer/mjpg-streamer-experimental/plugins/input_uvc/huffman.h:26-62 | The first AC table: every symbol has a code word of the length that table K.5 gives for its run and size, words of one length go up with the symbols, from the first word of that length. |
| AnnexK.Ac1Words | conffiles/mjpg-streamer/mjpg-streamer-experimental/plugins/input_uvc/huffman.h:26-62 | The second AC table: the same with table K.6. |
| CrlfWords.CrlfIsMasked | conffiles/mjpg-streamer/mjpg-streamer-experimental/plugins/input_http/misc.c:23-26 | The test on the four bytes is the masked comparison of the 32-bit int. |
| CrlfWords.CrlfCrlfIsMasked | conffiles/mjpg-streamer/mjpg-streamer-experimental/plugins/input_http/misc.c:28-32 | The same for an empty line, with the arithmetic shift by 16. |
| CrlfWords.PushIsShiftIn | conffiles/mjpg-streamer/mjpg-streamer-experimental/plugins/input_http/misc.c:33-35 | push_byte on the bytes is the shift and or of the int, with sign extension where plain char is signed. |
| MjpgProxy.LengthFieldUnused | conffiles/mjpg-streamer/mjpg-streamer-experimental/plugins/input_http/mjpg-proxy.c:82-88 | The search for a Content-Length field has no influence on callbacks or on anything else. |
| MjpgProxy.RunConcat | conffiles/mjpg-streamer/mjpg-streamer-experimental/plugins/input_http/mjpg-proxy.c:73-111 | Feeding two pieces one after the other is feeding them joined. |
| MjpgProxy.Extractor.Feed | conffiles/mjpg-streamer/mjpg-streamer-experimental/plugins/input_http/mjpg-proxy.c:76-107 | One pass of the loop: new state and callbacks are those of the step function. |
| MjpgProxy.Extractor.ExtractData | conffiles/mjpg-streamer/mjpg-streamer-experimental/plugins/input_http/mjpg-proxy.c:73-111 | The loop over a received chunk, stopped early or not, is the run of the step function over its bytes. |
| MjpgProxy.Extractor.Reset | conffiles/mjpg-streamer/mjpg-streamer-experimental/plugins/input_http/mjpg-proxy.c:51-59 | init_extractor_state leads back to the initial state. |
| BoundaryMatch.MatchIsSuffix | conffiles/mjpg-streamer/mjpg-streamer-experimental/plugins/input_http/misc.c:45-62 | The matched count is always the length of a boundary prefix the content ends with, and complete only if the boundary was there. |
| BoundaryMatch.CleanUnlessContained | conffiles/mjpg-streamer/mjpg-streamer-experimental/plugins/input_http/misc.c:45-62 | Without the boundary in the content there is no callback. |
| BoundaryMatch.FoundBehindCrlf | conffiles/mjpg-streamer/mjpg-streamer-experimental/plugins/input_http/misc.c:49-58 | A boundary behind CR LF is always found, whatever had matched before. |
| BoundaryMatch.FoundIffUnmatched | conffiles/mjpg-streamer/mjpg-streamer-experimental/plugins/input_http/misc.c:45-62 | The matcher finds a boundary if and only if nothing is matched when it begins. |
| BoundaryMatch.FoundIff | conffiles/mjpg-streamer/mjpg-streamer-experimental/plugins/input_http/misc.c:45-62 | Behind content in which nothing was found a boundary is found if and only if the content does not end in a partial match, and then at its last byte. |
| BoundaryMatch.MissedBehindDash | conffiles/mjpg-streamer/mjpg-streamer-experimental/plugins/input_http/misc.c:49-58 | A concrete miss: a boundary behind a dash. |
| Transport.HeaderGoesOn | conffiles/mjpg-streamer/mjpg-streamer-experimental/plugins/input_http/mjpg-proxy.c:77-90 | A header of any bytes in which the masked test never passes produces no callback and no change of part, with plain char signed or not. |
| Transport.HeaderEnds | conffiles/mjpg-streamer/mjpg-streamer-experimental/plugins/input_http/misc.c:23-35 | The byte at which the masked test passes for the first time starts the content, for any bytes. |
| Transport.RegisterIsLastFour | conffiles/mjpg-streamer/mjpg-streamer-experimental/plugins/input_http/misc.c:23-35 | Where no byte is negative as a char the test is a test of the last four bytes. |
| Transport.NegativeCharEnds | conffiles/mjpg-streamer/mjpg-streamer-experimental/plugins/input_http/misc.c:23-35 | A negative char ends a header alone if and only if it has the bits of LF: it sets all bits above it. |
| Transport.ContentGoesOn | conffiles/mjpg-streamer/mjpg-streamer-experimental/plugins/input_http/mjpg-proxy.c:92-98 | Content that fits and does not make the matcher fire is stored unchanged. |
| Transport.FullIsStuck | conffiles/mjpg-streamer/mjpg-streamer-experimental/plugins/input_http/mjpg-proxy.c:93-96 | Once length has reached BUFFER_SIZE - 1 no later byte changes the state. |
| Transport.ContentDelivered | conffiles/mjpg-streamer/mjpg-streamer-experimental/plugins/input_http/mjpg-proxy.c:92-105 | Content followed by CR LF and the boundary reaches the callback whole. |
| Transport.ContentNotDelivered | conffiles/mjpg-streamer/mjpg-streamer-experimental/plugins/input_http/mjpg-proxy.c:92-105 | Content that is too long or makes the matcher fire inside does not. |
| Transport.PartHeaderEndsOnce | conffiles/mjpg-streamer/mjpg-streamer-experimental/plugins/output_http/httpd.c:521-526 | Every part header, for all sizes and time stamps, passes the masked empty-line test at its last byte and nowhere before. |
| Transport.FieldsDeliverable | conffiles/mjpg-streamer/mjpg-streamer-experimental/plugins/output_http/httpd.c:466-471 | The response fields fit and do not make the matcher fire. |
| Transport.LeadRead | conffiles/mjpg-streamer/mjpg-streamer-experimental/plugins/output_http/httpd.c:466-471 | The masked test takes the end of the status line for an empty line, so the response head comes out as an extra first callback with the response fields. |
| Transport.BadLengthIff | conffiles/mjpg-streamer/mjpg-streamer-experimental/plugins/input_http/mjpg-proxy.c:99-103 | Behind content without a hit a boundary makes the length handed to the callback negative if and only if it begins less than two bytes behind the header, and then it is what is missing. |
| Transport.BoundaryAgrees | conffiles/mjpg-streamer/mjpg-streamer-experimental/plugins/output_http/httpd.c:532-533 | The writer and the reader of the stream mean the same boundary. |
| Transport.FrameComesThroughIff | conffiles/mjpg-streamer/mjpg-streamer-experimental/plugins/input_http/mjpg-proxy.c:73-111 | One part comes through as exactly its frame if and only if the frame is at most BUFFER_SIZE - 23 bytes long and the matcher does not fire inside it. |
| Transport.TransportRoundTrip | conffiles/mjpg-streamer/mjpg-streamer-experimental/plugins/output_http/httpd.c:466-533 | What send_stream writes comes out as one callback with the response fields and then the frames, in order, byte for byte, if and only if every frame meets that condition. |
| Transport.RefusalUnheard | conffiles/mjpg-streamer/mjpg-streamer-experimental/plugins/output_http/httpd.c:493-499 | The error response that comes in the middle of the stream after a failing realloc produces no callback. |
| Transport.ChunksDoNotMatter | conffiles/mjpg-streamer/mjpg-streamer-experimental/plugins/input_http/mjpg-proxy.c:115-129 | The receive loop gives the same callbacks however the bytes are cut into chunks. |
| Transport.ReceivedSoFar | conffiles/mjpg-streamer/mjpg-streamer-experimental/plugins/input_http/mjpg-proxy.c:115-129 | For every part of the stream, and of an error response behind it, received so far the callbacks are a prefix of that list. |
| Ascii.DecimalReadBack | conffiles/mjpg-streamer/mjpg-streamer-experimental/plugins/output_http/httpd.c:521-524 | What %d prints reads back as the number and has no leading zeros. |
| Ascii.Decimal06ReadBack | conffiles/mjpg-streamer/mjpg-streamer-experimental/plugins/output_http/httpd.c:521-524 | What %06d prints reads back as the number. |
| Ascii.Decimal06Length | conffiles/mjpg-streamer/mjpg-streamer-experimental/plugins/output_http/httpd.c:521-524 | It has as many characters as %d prints, but at least six. |
| StreamClient.PartRead | conffiles/mjpg-streamer/mjpg-streamer-experimental/plugins/output_http/httpd.c:521-533 | A client that looks up Content-Length and X-Timestamp in a part header gets the frame, its seconds and its microseconds, and continues exactly behind the boundary. |
| StreamClient.ClientGetsAll | conffiles/mjpg-streamer/mjpg-streamer-experimental/plugins/output_http/httpd.c:466-533 | Such a client gets all frames of a stream with their time stamps, one for one, whatever the frames contain. |
| NoTornFrames.StartInv | conffiles/mjpg-streamer/mjpg-streamer-experimental/plugins/output_http/httpd.c:458-478 | The invariant of the shared buffer holds at the start, for any number of readers. |
| NoTornFrames.ActionKeeps | conffiles/mjpg-streamer/mjpg-streamer-experimental/plugins/output_http/httpd.c:480-534 | Every step of the producer and of any reader keeps it. |
| NoTornFrames.CopiesArePublished | conffiles/mjpg-streamer/mjpg-streamer-experimental/plugins/output_http/httpd.c:483-510 | In every run each copied bytes, size and time stamp were published together; the copies never go back, and are strictly newer where a broadcast woke the reader. |
| NoTornFrames.NoFault | conffiles/mjpg-streamer/mjpg-streamer-experimental/plugins/output_http/httpd.c:487-507 | Nobody accesses a buffer out of bounds; while copying, the private buffer has room for the frame. |
| NoTornFrames.MutualExclusion | conffiles/mjpg-streamer/mjpg-streamer-experimental/plugins/output_http/httpd.c:483-510 | While a reader is between lock and unlock neither the producer nor another reader is. |
| NoTornFrames.SentIsStream | conffiles/mjpg-streamer/mjpg-streamer-experimental/plugins/output_http/httpd.c:516-533 | As long as no write was short, what a reader has written is a prefix of the stream for the frames it copied, or, once it has stopped, of that stream and the error response behind a failing realloc. |
| NoTornFrames.WholeUnlessShort | conffiles/mjpg-streamer/mjpg-streamer-experimental/plugins/output_http/httpd.c:526-533 | A run without a short write to a client leaves its stream whole. |
| NoTornFrames.ShortTears | conffiles/mjpg-streamer/mjpg-streamer-experimental/plugins/output_http/httpd.c:526-533 | The code goes on behind a short write as if it had sent everything: if a part header is lost and a JPEG frame follows, the bytes are no part of a stream of any frames. |
| Progress.NewEachTime | conffiles/mjpg-streamer/mjpg-streamer-experimental/plugins/output_http/httpd.c:483-510 | A reader that never wakes up unasked copies a strictly newer frame every time. |
| Progress.FallsAsleep | conffiles/mjpg-streamer/mjpg-streamer-experimental/plugins/output_http/httpd.c:483-484 | A reader at the top of its loop takes the mutex and gives it back asleep. |
| Progress.BroadcastWakes | conffiles/mjpg-streamer/mjpg-streamer-experimental/plugins/output_http/httpd.c:484 | After a broadcast and the unlock behind it every sleeping reader can go on. |
| Progress.GetsThrough | conffiles/mjpg-streamer/mjpg-streamer-experimental/plugins/output_http/httpd.c:483-533 | A woken reader gets through on its own: it copies the frame published last, and its client gets exactly that as one more part. |
| EndToEnd.CutHeaderTears | conffiles/mjpg-streamer/mjpg-streamer-experimental/plugins/output_http/httpd.c:521-533 | Wherever a short write cuts a part header off: with a JPEG frame behind it the bytes are no part of the stream the reader means to send. |
| EndToEnd.ClientGetsCopies | conffiles/mjpg-streamer/mjpg-streamer-experimental/plugins/output_http/httpd.c:483-533 | In every run, between two parts and as long as no write was short, a client that goes by the header fields has got exactly the frames its reader copied, each of them a published one. |
| EndToEnd.DeliveredFramesArePublished | conffiles/mjpg-streamer/mjpg-streamer-experimental/plugins/input_http/mjpg-proxy.c:100-104 | Under any interleaving and any chunking, as long as no write to that client was short, callback number k + 1 carries exactly one frame published upstream, and their numbers never go back. |
| Relay.ReceivedFits | conffiles/mjpg-streamer/mjpg-streamer-experimental/plugins/input_http/mjpg-proxy.c:93-103 | Whatever arrives, no picture handed to the callback is longer than the shared buffer. |
| Relay.RelayPublishes | conffiles/mjpg-streamer/mjpg-streamer-experimental/plugins/input_http/input_http.c:130-141 | on_image_received publishes each received picture whole, with the time stamp that was there: it sets none. |
| Relay.RelayedFramesArePublished | conffiles/mjpg-streamer/mjpg-streamer-experimental/plugins/input_http/input_http.c:130-141 | As long as no write of the first streamer was short, a client of a second one copies only the empty frame, the header fields, or whole frames the first streamer published. |
| Relay.RelayedInOrder | conffiles/mjpg-streamer/mjpg-streamer-experimental/plugins/input_http/input_http.c:130-141 | Of two frames such a client has copied the later one was never published before the earlier one by the first streamer. |
| Producing.AppliedEnd | conffiles/mjpg-streamer/mjpg-streamer-experimental/plugins/input_uvc/input_uvc.c:783-804 | Size, time stamp, broadcast and unlock publish the buffer up to that size. |
| Producing.CopiesArePublishedBy | conffiles/mjpg-streamer/mjpg-streamer-experimental/plugins/output_http/httpd.c:483-510 | For any producer: whatever a reader copies is one of the frames the producer's own actions publish. |
| Raspicam.Encoder.Callback | conffiles/mjpg-streamer/mjpg-streamer-experimental/plugins/input_raspicam/input_raspicam.c:373-458 | One callback leads to the next assembly state, keeps the mutex exactly while a frame is begun, and keeps the number of pool and port buffers while the port is open and sends succeed. |
| Raspicam.Encoder.CopyIn | conffiles/mjpg-streamer/mjpg-streamer-experimental/plugins/input_raspicam/input_raspicam.c:393-394 | The chunk is copied behind what is there, nothing else changes. |
| Raspicam.RunAssembles | conffiles/mjpg-streamer/mjpg-streamer-experimental/plugins/input_raspicam/input_raspicam.c:382-418 | After any callbacks the announced frames are the chunks joined up to each end flag, the begun frame lies at the front of the buffer, and the mutex is held exactly then. |
| Raspicam.FramesAreStamped | conffiles/mjpg-streamer/mjpg-streamer-experimental/plugins/input_raspicam/input_raspicam.c:400-412 | Each announced frame bears the time of the callback that ended it; without the option the time stamp stays. |
| Raspicam.UnlocksHeldIff | conffiles/mjpg-streamer/mjpg-streamer-experimental/plugins/input_raspicam/input_raspicam.c:382-418 | The mutex is only released while held if and only if no frame ends without a byte. |
| Raspicam.CallbackFollowsProtocol | conffiles/mjpg-streamer/mjpg-streamer-experimental/plugins/input_raspicam/input_raspicam.c:382-418 | Where the mutex is free or its own, a callback that does not end an empty frame can take all its steps in the locking protocol. |
| Raspicam.RunIsActions | conffiles/mjpg-streamer/mjpg-streamer-experimental/plugins/input_raspicam/input_raspicam.c:382-418 | The callbacks do to the shared fields what their protocol actions do. |
| Raspicam.EmptyFrameBlocked | conffiles/mjpg-streamer/mjpg-streamer-experimental/plugins/input_raspicam/input_raspicam.c:400-418 | The actions of a callback that ends a frame without a byte break the protocol: no run can take them. |
| Raspicam.ReadersGetAssembledFrames | conffiles/mjpg-streamer/mjpg-streamer-experimental/plugins/input_raspicam/input_raspicam.c:382-418 | With the readers anywhere in between and the run cut off anywhere, each copied frame is the empty one or the joined chunks of one frame. |
| DhtInsertion.IsHuffman | conffiles/mjpg-streamer/mjpg-streamer-experimental/plugins/input_uvc/v4l2uvc.c:565-579 | True exactly if a DHT marker lies among the first 2049 positions with no SOS marker before it; no byte is read behind a marker that ends the loop, or behind the first 2051. |
| DhtInsertion.MemcpyPicture | conffiles/mjpg-streamer/mjpg-streamer-experimental/plugins/input_uvc/v4l2uvc.c:585-606 | The output is the input, or empty, or the input with the table spliced in before the first start-of-frame marker; nothing behind it changes. It asks for no more room and no more readable memory than the code uses. |
| DhtInsertion.RoomIff | conffiles/mjpg-streamer/mjpg-streamer-experimental/plugins/input_uvc/v4l2uvc.c:590-604 | The copies stay inside the output buffer if and only if the picture has its own table and fits, or there is no start-of-frame marker, or 420 more bytes fit. |
| DhtInsertion.FrameHeaderIsFirst | conffiles/mjpg-streamer/mjpg-streamer-experimental/plugins/input_uvc/v4l2uvc.c:593-594 | The search finds the first start-of-frame marker inside the picture. |
| DhtInsertion.EmptyIff | conffiles/mjpg-streamer/mjpg-streamer-experimental/plugins/input_uvc/v4l2uvc.c:595-596 | Nothing comes out exactly if nothing went in or there is neither a table nor a start-of-frame marker. |
| DhtInsertion.OutputHasTableIff | conffiles/mjpg-streamer/mjpg-streamer-experimental/plugins/input_uvc/v4l2uvc.c:591-602 | The output passes is_huffman if and only if the table went in at one of the first 2049 positions and before any SOS marker. |
| DhtInsertion.SecondPassIff | conffiles/mjpg-streamer/mjpg-streamer-experimental/plugins/input_uvc/v4l2uvc.c:585-606 | A second pass changes nothing under exactly the same condition. |
| DhtInsertion.OwnTableKept | conffiles/mjpg-streamer/mjpg-streamer-experimental/plugins/input_uvc/v4l2uvc.c:603-604 | A picture with its own table inside is never touched, whatever lies behind it in memory. |
| DhtInsertion.CuttingRestores | conffiles/mjpg-streamer/mjpg-streamer-experimental/plugins/input_uvc/v4l2uvc.c:598-602 | Under that condition, cutting out the first table restores the input. |
| StandardTables.Dht | conffiles/mjpg-streamer/mjpg-streamer-experimental/plugins/input_uvc/huffman.h:26-62 | The table has 420 bytes and starts with a DHT marker. |
| CamThread.Camera.OneFrame | conffiles/mjpg-streamer/mjpg-streamer-experimental/plugins/input_uvc/input_uvc.c:714-804 | One pass of the loop: the every-nth counter, the size filter, the time stamp, the soft frame drop and the publish step, in the order of the code. |
| CamThread.Camera.UvcGrab | conffiles/mjpg-streamer/mjpg-streamer-experimental/plugins/input_uvc/v4l2uvc.c:627-647 | An empty buffer leaves the last frame in place; otherwise the bytes are copied over the old ones. |
| CamThread.PassPublishes | conffiles/mjpg-streamer/mjpg-streamer-experimental/plugins/input_uvc/input_uvc.c:714-804 | While no buffer is overrun, a pass publishes a frame if and only if its number is a multiple of n, what was grabbed last is not too small, and the last frame is long enough ago; the frame is the picture made of exactly those bytes, with the time of that grab or of the clock. |
| CamThread.FrameShows | conffiles/mjpg-streamer/mjpg-streamer-experimental/plugins/input_uvc/input_uvc.c:714-804 | So for every published frame of a run there is a pass that selected it and the grab it shows. |
| CamThread.OwnTableDelivered | conffiles/mjpg-streamer/mjpg-streamer-experimental/plugins/input_uvc/v4l2uvc.c:585-645 | If these bytes have a table of their own early enough, they are published exactly as delivered. |
| CamThread.TableAdded | conffiles/mjpg-streamer/mjpg-streamer-experimental/plugins/input_uvc/v4l2uvc.c:585-645 | If they have none before their SOS marker, they are published with the table before the first start-of-frame marker. |
| CamThread.ReadersGetDelivered | conffiles/mjpg-streamer/mjpg-streamer-experimental/plugins/input_uvc/input_uvc.c:714-804 | With the readers anywhere in between, every frame a reader copies after the start shows one the camera delivered. |
| CamThread.OverrunIff | conffiles/mjpg-streamer/mjpg-streamer-experimental/plugins/input_uvc/input_uvc.c:722-787 | Exactly when a pass writes past one of the two equally large buffers: a grabbed frame is longer than these, or a frame that gets published needs the table and leaves less than 420 bytes. |
| CamThread.SmallFramesStay | conffiles/mjpg-streamer/mjpg-streamer-experimental/plugins/input_uvc/input_uvc.c:714-804 | Frames that leave 420 bytes free never do. |
| CamThread.EveryNth | conffiles/mjpg-streamer/mjpg-streamer-experimental/plugins/input_uvc/input_uvc.c:722-728 | Of n grabbed frames at most n / every are published, and, unless a buffer is overrun, exactly that many without the later filters, with the counter at n modulo every. |
| CamThread.MillisIsFloor | conffiles/mjpg-streamer/mjpg-streamer-experimental/plugins/input_uvc/input_uvc.c:754-757 | Times are compared in full milliseconds. |
| CamThread.DroppedIff | conffiles/mjpg-streamer/mjpg-streamer-experimental/plugins/input_uvc/input_uvc.c:753-763 | The unsigned comparison drops a frame exactly if its time is not before the last one's and less than the period behind it. |
| CamThread.RunSpaced | conffiles/mjpg-streamer/mjpg-streamer-experimental/plugins/input_uvc/input_uvc.c:753-763 | With soft frame dropping, and while the grab times do not go back, any two frames j and k of a run are at least k - j periods apart. |
| CamThread.NoSmallFrames | conffiles/mjpg-streamer/mjpg-streamer-experimental/plugins/input_uvc/input_uvc.c:739-742 | Every published frame is empty or not smaller than the minimum size. |
| CamThread.PublishFollowsProtocol | conffiles/mjpg-streamer/mjpg-streamer-experimental/plugins/input_uvc/input_uvc.c:767-804 | Where the mutex is free the publish step can take all its steps in the locking protocol and publishes its frame. |
| CamThread.ReadersGetCameraFrames | conffiles/mjpg-streamer/mjpg-streamer-experimental/plugins/input_uvc/input_uvc.c:767-804 | With the readers anywhere in between, each copied frame is whole and one the loop let through. |
| DestinationManager.Destination.InitDestination | conffiles/mjpg-streamer/mjpg-streamer-experimental/plugins/input_uvc/jpeg_utils.c:56-67 | The count of the last picture is dropped and the staging buffer is empty. |
| DestinationManager.Destination.EmptyOutputBuffer | conffiles/mjpg-streamer/mjpg-streamer-experimental/plugins/input_uvc/jpeg_utils.c:74-87 | The full staging buffer moves behind what is written; all emitted bytes are kept in order. |
| DestinationManager.Destination.Emit | conffiles/mjpg-streamer/mjpg-streamer-experimental/plugins/input_uvc/jpeg_utils.c:74-87 | One emitted byte, with a flush when nothing is free, is appended to the emitted bytes. |
| DestinationManager.Destination.TermDestination | conffiles/mjpg-streamer/mjpg-streamer-experimental/plugins/input_uvc/jpeg_utils.c:94-103 | In the end the caller's memory holds exactly the emitted bytes and `written` is their number. |
| DestinationManager.Destination.Write | conffiles/mjpg-streamer/mjpg-streamer-experimental/plugins/input_uvc/jpeg_utils.c:51-127 | For any emitted bytes that fit: the memory holds exactly these, and what lies behind them is as before. |
| Scanlines.Converter.Convert | conffiles/mjpg-streamer/mjpg-streamer-experimental/plugins/input_uvc/jpeg_utils.c:176-197 | One pixel: the three clamped components of the macropixel the pointer and the flag z select. |
| Scanlines.Converter.ConvertRow | conffiles/mjpg-streamer/mjpg-streamer-experimental/plugins/input_uvc/jpeg_utils.c:171-198 | One row from any pixel number on. |
| Scanlines.Converter.ConvertPicture | conffiles/mjpg-streamer/mjpg-streamer-experimental/plugins/input_uvc/jpeg_utils.c:168-202 | The rows handed to the compressor are those of the functional conversion, on any memory that reaches as far as the loops read (which may be one byte behind the frame). |
| Scanlines.PictureAt | conffiles/mjpg-streamer/mjpg-streamer-experimental/plugins/input_uvc/jpeg_utils.c:168-259 | Pixel x of row r comes from macropixel (r * width + x) / 2, for odd widths and heights too, whatever lies behind the frame. |
| Scanlines.ReachIsExact | conffiles/mjpg-streamer/mjpg-streamer-experimental/plugins/input_uvc/jpeg_utils.c:176-197 | The bound on what the loops read is exact: every pixel lies below it, and the last one reads the byte right before it. |
| Scanlines.StaysInsideIff | conffiles/mjpg-streamer/mjpg-streamer-experimental/plugins/input_uvc/v4l2uvc.c:232-247 | On a frame of width * height * 2 bytes the loops read only inside it if and only if width * height is even. |
| Scanlines.OnlyLastRedBehind | conffiles/mjpg-streamer/mjpg-streamer-experimental/plugins/input_uvc/jpeg_utils.c:182-195 | Otherwise they read one byte within two bytes behind it, and only for the last pixel, whose third component does not depend on it. |
| Scanlines.ClampIsFloor | conffiles/mjpg-streamer/mjpg-streamer-experimental/plugins/input_uvc/jpeg_utils.c:186-192 | Each component is the fixed-point value rounded down, or the nearest bound. |
| Scanlines.ColoursAre | conffiles/mjpg-streamer/mjpg-streamer-experimental/plugins/input_uvc/jpeg_utils.c:168-259 | Every pixel of the picture has, up to rounding, the JFIF colour of its luma and of the chroma it shares with its neighbour, or the nearest bound: at most 1.2 below and 0.2 above, for both formats and any size. |
| Scanlines.FormatsAgree | conffiles/mjpg-streamer/mjpg-streamer-experimental/plugins/input_uvc/jpeg_utils.c:169-259 | The YUYV and the UYVY loop give equal pictures on frames that differ by exchanged bytes; for an odd number of pixels if the bytes read behind them agree. |
| Base64.DecodeBase64 | conffiles/mjpg-streamer/mjpg-streamer-experimental/plugins/output_http/httpd.c:207-242 | The text is decoded in place: memory holds the decoded bytes, a terminator, and the old bytes behind it. |
| Base64.Filled | conffiles/mjpg-streamer/mjpg-streamer-experimental/plugins/output_http/httpd.c:232-239 | The three bytes of a group are stored at or before the place just read. |
| Base64.StoresGroup | conffiles/mjpg-streamer/mjpg-streamer-experimental/plugins/output_http/httpd.c:232-237 | Older bits in the accumulator that is never cleared do not reach the stored bytes. |
| Base64.Value64Iff | conffiles/mjpg-streamer/mjpg-streamer-experimental/plugins/output_http/httpd.c:213-227 | A character counts as its place in the alphabet of RFC 4648, padding as zero, and every other one is skipped. |
| Base64.JunkIgnored | conffiles/mjpg-streamer/mjpg-streamer-experimental/plugins/output_http/httpd.c:229-230 | Characters outside the alphabet have no effect, wherever they stand. |
| Base64.DecodedEncode | conffiles/mjpg-streamer/mjpg-streamer-experimental/plugins/output_http/httpd.c:207-242 | Decoding the encoding of section 4 of RFC 4648 gives back the bytes, with zeros for the padding. |
| Base64.RoundTrip | conffiles/mjpg-streamer/mjpg-streamer-experimental/plugins/output_http/httpd.c:207-242 | Memory with an encoded NUL-free string in it, and anything behind, holds the string itself afterwards. |
| PercentDecoding.Unescape | conffiles/mjpg-streamer/mjpg-streamer-experimental/plugins/output_http/httpd.c:268-306 | On success memory holds the decoded bytes and a terminator; otherwise -1 and what was written so far; all else is unchanged. |
| PercentDecoding.HexValueIff | conffiles/mjpg-streamer/mjpg-streamer-experimental/plugins/output_http/httpd.c:250-261 | A byte has value v exactly if it is the hex digit for v in either case, and -1 if it is none. |
| PercentDecoding.StopsBehind | conffiles/mjpg-streamer/mjpg-streamer-experimental/plugins/output_http/httpd.c:283-299 | At the first bad escape the memory holds what was decoded before it, and sixteen times the first digit if that is there. |
| PercentDecoding.FailsIff | conffiles/mjpg-streamer/mjpg-streamer-experimental/plugins/output_http/httpd.c:283-296 | It fails exactly if some percent sign lacks two hex digits. |
| PercentDecoding.StopsFirst | conffiles/mjpg-streamer/mjpg-streamer-experimental/plugins/output_http/httpd.c:287-293 | An escape without a first digit, be it that the text ends there, stops the run with what was written so far: the terminator is no hex digit. |
| PercentDecoding.DecodesEncoding | conffiles/mjpg-streamer/mjpg-streamer-experimental/plugins/output_http/httpd.c:268-306 | Every percent-encoding of a string (section 2.1 of RFC 3986) is decoded to it. |
| PercentDecoding.DecodedIsEncoded | conffiles/mjpg-streamer/mjpg-streamer-experimental/plugins/output_http/httpd.c:268-306 | And what decodes to a string is one of its encodings. |
| PercentDecoding.RoundTrip | conffiles/mjpg-streamer/mjpg-streamer-experimental/plugins/output_http/httpd.c:268-306 | Memory with an encoded NUL-free string in it, with digits of either case, and anything behind, holds the string itself afterwards. |
| IoBuffer.Connection.AlignRight | conffiles/mjpg-streamer/mjpg-streamer-experimental/plugins/output_http/httpd.c:158 | The overlapping move to the right end of the buffer keeps the bytes. |
| IoBuffer.Connection.Refill | conffiles/mjpg-streamer/mjpg-streamer-experimental/plugins/output_http/httpd.c:144-158 | The bytes of one read become the buffered ones. |
| IoBuffer.Connection.Read | conffiles/mjpg-streamer/mjpg-streamer-experimental/plugins/output_http/httpd.c:114-162 | _read: result, caller's buffer and what stays buffered are those of the functional read. |
| IoBuffer.Connection.ReadLine | conffiles/mjpg-streamer/mjpg-streamer-experimental/plugins/output_http/httpd.c:181-197 | _readline likewise; unless the socket fails the connection stays usable, with what is not consumed still ahead, after a timeout too. |
| IoBuffer.FetchConserves | conffiles/mjpg-streamer/mjpg-streamer-experimental/plugins/output_http/httpd.c:114-162 | No byte is lost or repeated: what a read returns and what is ahead afterwards make up what was ahead before, across timeouts too. |
| IoBuffer.FetchDoneIff | conffiles/mjpg-streamer/mjpg-streamer-experimental/plugins/output_http/httpd.c:122-142 | A read gets all it asked for if and only if that many bytes come without a timeout or an error. |
| IoBuffer.FetchShort | conffiles/mjpg-streamer/mjpg-streamer-experimental/plugins/output_http/httpd.c:122-142 | Otherwise it returns all that came before the pause, and fails exactly if that was an error or the end. |
| IoBuffer.LineShort | conffiles/mjpg-streamer/mjpg-streamer-experimental/plugins/output_http/httpd.c:181-197 | So does a line that does not come whole. |
| IoBuffer.FetchLineIff | conffiles/mjpg-streamer/mjpg-streamer-experimental/plugins/output_http/httpd.c:181-197 | _readline succeeds if and only if the line comes without a timeout, and returns exactly the first line of the stream; after a timeout the bytes taken and the bytes ahead still make up the stream. |
| IoBuffer.LineEnds | conffiles/mjpg-streamer/mjpg-streamer-experimental/plugins/output_http/httpd.c:188-194 | A line has its newline, if any, at its end only. |
| IoBuffer.SessionIsPortionFree | conffiles/mjpg-streamer/mjpg-streamer-experimental/plugins/output_http/httpd.c:114-197 | However the socket splits its bytes, a session of reads and lines gets what the same requests cut from the plain stream. |
| IoBuffer.SameStreamSameReplies | conffiles/mjpg-streamer/mjpg-streamer-experimental/plugins/output_http/httpd.c:114-197 | Two sockets that bring the same bytes give the same replies and leave the same bytes ahead. |
| RingBuffer.Recorder.MaintainRingbuffer | conffiles/mjpg-streamer/mjpg-streamer-experimental/plugins/output_file/output_file.c:153-196 | The oldest entries of the listing beyond `size` are deleted, but for those that cannot be, which are skipped; every directory entry is freed exactly once. |
| RingBuffer.Recorder.Save | conffiles/mjpg-streamer/mjpg-streamer-experimental/plugins/output_file/output_file.c:245-325 | One pass writes the picture, counts it and cleans up when its number is due, whichever deletes fail. |
| RingBuffer.FailuresLeaveMore | conffiles/mjpg-streamer/mjpg-streamer-experimental/plugins/output_file/output_file.c:173-188 | Failing deletes only leave more: the newest pictures stay, and every other one left is one that could not be deleted. |
| RingBuffer.AllDeleted | conffiles/mjpg-streamer/mjpg-streamer-experimental/plugins/output_file/output_file.c:173-188 | If none fails just the newest pictures are left. |
| RingBuffer.NameOrder | conffiles/mjpg-streamer/mjpg-streamer-experimental/plugins/output_file/output_file.c:259-266 | For four-digit years and counters below 10^9 the alphabetic order of the names is the order of time and counter, and names are unique. |
| RingBuffer.NameReadBack | conffiles/mjpg-streamer/mjpg-streamer-experimental/plugins/output_file/output_file.c:259-266 | Date, time and number of a picture can be read off its name. |
| RingBuffer.InsertLists | conffiles/mjpg-streamer/mjpg-streamer-experimental/plugins/output_file/output_file.c:270-290 | Writing a picture keeps the listing in order and adds just that picture, unless one of its name was there. |
| RingBuffer.CounterOrder | conffiles/mjpg-streamer/mjpg-streamer-experimental/plugins/output_file/output_file.c:259-266 | For all counters within one second: those of the same width sort by value, a wider one is compared without its extra digits. |
| RingBuffer.BillionthSortsFirst | conffiles/mjpg-streamer/mjpg-streamer-experimental/plugins/output_file/output_file.c:259-266 | A concrete pair: picture 999999999 is older than picture 1000000000 of the same second and sorts behind it. |
| RingBuffer.RunBound | conffiles/mjpg-streamer/mjpg-streamer-experimental/plugins/output_file/output_file.c:319-325 | Whatever the folder held and the clock says, while deletes succeed, at most size + exceed pictures are left behind every pass, one more before its clean-up. |
| RingBuffer.ForwardIsAged | conffiles/mjpg-streamer/mjpg-streamer-experimental/plugins/output_file/output_file.c:250-268 | While local time does not go back, every picture is older than the later ones. |
| RingBuffer.RunKeepsNewest | conffiles/mjpg-streamer/mjpg-streamer-experimental/plugins/output_file/output_file.c:153-325 | The folder holds the newest of all pictures there ever were: everything deleted is older than everything kept. |
| RingBuffer.RunCount | conffiles/mjpg-streamer/mjpg-streamer-experimental/plugins/output_file/output_file.c:153-325 | And it holds exactly as many as it should: all of them, up to size and those saved since the last clean-up. |
| RingBuffer.RunFailingKeepsNewest | conffiles/mjpg-streamer/mjpg-streamer-experimental/plugins/output_file/output_file.c:173-188 | Whichever deletes fail over a whole run, the folder ends with just these pictures, and each one it holds besides could not be deleted at some time. |
| Autofocus.Worker.Process | conffiles/mjpg-streamer/mjpg-streamer-experimental/plugins/output_autofocus/output_autofocus.c:128-154 | One frame: the new state is that of the step function. |
| Autofocus.BestIsFirstMaximum | conffiles/mjpg-streamer/mjpg-streamer-experimental/plugins/output_autofocus/output_autofocus.c:146-152 | The remembered focus is the first position with the maximum reading, provided that beats the known value. |
| Autofocus.FirstSearch | conffiles/mjpg-streamer/mjpg-streamer-experimental/plugins/output_autofocus/output_autofocus.c:102-154 | The search at the start takes 27 frames and counts only readings above 100. |
| Autofocus.Rescan | conffiles/mjpg-streamer/mjpg-streamer-experimental/plugins/output_autofocus/output_autofocus.c:128-154 | A rescan takes exactly 27 frames with the one that triggers it and settles on the first of 26 positions with the maximum reading above -1, or on 255. |
| Autofocus.SettledStays | conffiles/mjpg-streamer/mjpg-streamer-experimental/plugins/output_autofocus/output_autofocus.c:128 | A settled focus stays until a reading is more than 500 away. |
| Autofocus.FocusInRange | conffiles/mjpg-streamer/mjpg-streamer-experimental/plugins/output_autofocus/output_autofocus.c:154 | In every run focus and the position to settle on stay within 0..255. |
| Autofocus.SearchesEnd | conffiles/mjpg-streamer/mjpg-streamer-experimental/plugins/output_autofocus/output_autofocus.c:140-154 | From any state a search ends: every frame lowers the focus by ten until it is 0. |

## Left out

- Sockets, files, ioctls, threads and firmware: their bytes, results and time stamps are inputs, steps or parameters.
- The weights and sums of getFrameSharpnessValue: floating point; the decoded blocks are what the model returns.
- JPEG header parsing up to the scan and the assertions on the scan header: only the DHT segment and the scan are modelled; the table numbers of the scan header are an input, and as in the code the DC number is used as a table index directly.
- Coefficients and DC predictors are unbounded integers: the code's 32-bit sums cannot wrap for data of the sizes T.81 allows.
- HUFF_EXTEND and the shifts for size 0 are undefined in C; the model takes the value 0, as the mask table gives.
- Memory behind the scan is read ahead by the refill loop: the model reads zeros behind the memory it is given, and the round trip holds for any bytes placed behind the scan.
- Raspicam.ReadersGetAssembledFrames: says nothing behind a frame that ends without a byte, which no run of the protocol contains (Raspicam.EmptyFrameBlocked).
- Failing malloc ends the thread; realloc is modelled as memory with any contents, although it keeps the old ones.
- The copy loops of the file and autofocus workers: the same lock, wait and copy steps as send_stream, with buffers that do not grow in the autofocus case.
- sscanf's matching of directory entries: the folder is the list of picture names in alphabetic order of the C locale.
- RingBuffer.RunBound: bounds the folder while deletes succeed; with deletes that fail every undeletable picture adds to it (RingBuffer.RunFailingKeepsNewest).
- The RGB565 loop and libjpeg itself; the destination manager is driven one emitted byte at a time.
- Raspicam.Encoder.Callback: takes for granted that the frame fits the buffer, which the code does not check.
- CamThread.Camera.OneFrame: does not go on behind a write past a buffer, which CamThread.OverrunIff describes; memory behind the private copy is taken to be readable. It covers cameras that deliver JPEG; raw formats go through the scanline loops instead.
- NaN readings in the focus search: sharpness is a real number.
- After a read error `level` may be negative; the callers close the connection, so the model allows no further call.
- Request parsing, JSON, CGI, file serving, control plugins, UDP and RTSP output, PHP and shell scripts: long formatting or wrappers with only easy members.
