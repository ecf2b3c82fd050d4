# Verification of the speech server's codecs, streams, cutters and queues

The repository is a real-time speech server: it cuts incoming audio into segments by voice activity, encodes every
segment and posts it over HTTP. This project models the parts of it whose correctness is not visible from any one
function, and proves what they promise.

| Files | What they model |
|---|---|
| `CodecVariants`, `CodecBits`, `StreamCodec` | cppcodec: eight alphabets, three bit layouts, the block encoder, and the decoder that fills an index array |
| `CodecTheorems`, `CodecAcceptance`, `CodecCanonical`, `CodecTable` | round trip, which texts decode, sizes, canonical form, leniency, agreement with the bit string of RFC 4648, and encoding and decoding by the printed tables alone |
| `AccumulatorBase64` | httplib's second base64 encoder, a 32-bit accumulator that is never cleared |
| `TextSearch`, `MultipartHeaders`, `Multipart`, `MultipartItems`, `MultipartRoundTrip`, `MultipartExact`, `MultipartConditions`, `MultipartVerdict` | httplib's incremental multipart parser with the regular expression for its headers, the builder of multipart bodies, exactly which items come through, and when a transfer fails |
| `ChunkedStreams`, `Chunked`, `ChunkedRoundTrip`, `ChunkedTruncation`, `ChunkedGrammar`, `ChunkedFailure`, `HexNumbers`, `ChunkedRfc` | the line reader with its two buffers, number formats, the chunked transfer coding in both directions and over connections that give out, exactly which streams its reader accepts, and how that compares with RFC 7230 |
| `ThreadPool` | httplib's worker pool, as a machine over all interleavings |
| `FileCut`, `FileCutRuns`, `FileCutLabels`, `FileCutIdeal` | `file_cut.c`, the online cutter with minimum, maximum and silence rules, what its labels mean, and an ideal cutter that it equals |
| `SpeechSegments` | `segment.cc`, the online segmenter with 15-frame windows |
| `CircularQueue`, `Mpmc` | spdlog's circular buffer, and the blocking queue on top of it with two condition variables |

Code that changes state keeps that form here: a class with the source's fields, loops with invariants, an array where
the source overwrites one. Every such method is proved equal to a function on values, and the lemmas are about that
function, or about all runs built from it. Concurrent code is a transition system whose steps are the critical sections
and the notifications; its run lemmas quantify over every number of threads and every interleaving.

## What the proofs show about the code

Where a promise does not hold as it is usually put, the exact condition under which it holds is proved instead.

- **Multipart.** The builder accepts every item under a legal boundary, but not every item comes through. After a
  CR LF `--` that turns out not to be a delimiter, the parser hands over as many characters as the delimiter has; if that
  runs past the end of the content, the real delimiter can be swallowed, and the content is called unsafe. The headers
  are read by a regular expression with lazy groups, so a quote in a name ends the name early exactly when what follows
  it looks like a file name (`MultipartItems.HeadersReadIff`). For every legal boundary and every list of items, all ways
  of cutting the body deliver the name, file name, content type and content of every item if and only if there is an
  item, no name or file name holds CR or LF, no name ends early, no content type begins or ends with a blank or holds
  CR LF, no content holds the delimiter, and no content is unsafe (`MultipartConditions.RoundTripIffDeliverable`).
  Contents without CR LF `--` meet the last two conditions, and `MultipartExact.LegalButUnsafe` is a five-character
  content that fails only the last one. `MultipartItems.SameHeaderLines` gives two items with the same header lines.
- **Multipart transfers as a whole.** Whatever is sent and whatever the callbacks say, the parser is valid exactly when it
  has succeeded so far and is in its final state, a refused callback is the last one made, and besides that it fails only
  in its first and in its final state (`MultipartVerdict.FeedVerdict`). After the closing line of a body of deliverable
  items nothing may follow, not even an empty line, in the same chunk or later: the transfer then fails although every
  part has been delivered (`MultipartVerdict.NothingMayFollow`). A wrong closing line leaves the parser waiting
  (`MultipartVerdict.DeliverableThen`).
- **Chunked writing.** The loop looks at `data_available` only between calls of the content provider, where the last
  operation of the call decides. Done is reached if some call says done, and every call before it goes on and does not
  end in an empty write. Over a connection that carries everything, the receiver succeeds if and only if done is reached
  (`ChunkedRoundTrip.TransferSucceedsIffDoneIsReached`), and has everything with nothing left over if and only if besides
  that nothing but empty writes follows the first done (`ChunkedRoundTrip.WholeTransferIff`); data after done is sent,
  but stays in the stream.
- **Chunked writing over connections that give out.** In general the receiver succeeds if and only if done is reached and
  gets through, or the bytes stop right between the CR and the LF that end the chunk of a write before done, and the
  stream then looks closed rather than broken (`ChunkedTruncation.TransferOverConnection`). In the second case the
  receiver takes the data so far for the whole, and `ChunkedTruncation.CutGoesUnnoticed` is such a transfer: the writer
  reports a failure, the receiver a success, and a piece is missing.
- **Chunked reading.** The reader succeeds if and only if the stream is a whole body by the reader's own grammar, or one
  cut short: chunks, the last of which is followed by a line that is not CR LF
  (`ChunkedGrammar.SuccessIffCompleteOrCutShort`). No stream is both, so a success means that the whole body was read
  exactly when the line after the data of every chunk read is CR LF (`ChunkedGrammar.WholeBodyIffLinesBlank`). What has
  been handed over by the time it fails is as exactly known (`ChunkedFailure.FailureIff`). Of the
  bodies of section 4.1 of RFC 7230, with sizes that strtoul can tell from overflow, it accepts exactly those without a
  trailer (`ChunkedRfc.RfcBodyIsReadIffNoTrailer`); a trailer makes it fail after all data has been delivered. Its own
  grammar is laxer than the RFC in the size lines, which may end in a bare LF
  (`ChunkedRfc.BareLineFeedIsAccepted`), and whose sizes are exactly what strtoul reads: leading spaces, a sign and "0x"
  are allowed, a size may be followed by anything, and a negative one wraps around (`HexNumbers.StrtoulIff`,
  `ChunkedRfc.StatesSizeIff`).
- **File cutter.** A cut at the maximum length leaves the run counter stale. Yet over every run the program writes exactly
  the segments, with borders, labels and samples, of an ideal cutter that is a function of the calls alone and goes by
  exact run lengths, if and only if no call is the one cut it misses (`FileCutIdeal.ProgramIsIdealIff`). That call needs
  a minimum length of one frame, a run that starts with `is_last` set on every call up to some frame, and from that frame
  on silence for one frame more than is handed over to voice. With the lengths of `vad/src/common.h` it cannot occur
  (`FileCutIdeal.ProgramIsIdealInCommonH`). A segment labelled "A" always holds an active frame. One labelled "I" holds
  voice if and only if voice runs at its start, the cut there was forced, and voice does not set in again before its end
  (`FileCutLabels.VoiceUnderSilentLabel`); the usual case is voice running on across a cut at the maximum length.
- **Speech segmenter.** A call with `last` set that completes a silent window while no segment is open adds an end
  without a start. The starts and ends pair up if and only if no such call was made, and after one no segment is ever
  opened again (`SpeechSegments.PairedIffNoStray`, `SpeechSegments.StrayEndIsFatal`). The server reads the start for
  every end (`websocket/websocket_server.cc:154-158`) but never passes `last`.
- **Accumulator.** Of the accumulator, which has overflowed after four bytes, only the low twelve bits are ever read, so
  it agrees with the block encoder on inputs of every length.

## Model

| member | source | states |
|---|---|---|
| CodecVariants.SymbolsAreTheAlphabet | cppcodec/base32_crockford.hpp:34-53 | every variant's symbols are the printed alphabet of RFC 4648 or Crockford, position by position (the model computes them by ranges) |
| CodecVariants.IndexClasses | cppcodec/detail/stream_codec.hpp:236-315 | the lookup table separates its four classes: a data symbol is below the radix and carries no stop bit, NUL is the only end mark, '=' is padding exactly where the variant allows it, all else is invalid |
| CodecVariants.SearchFindsTheFirst | cppcodec/detail/stream_codec.hpp:194-210 | the template search gives the first position of a symbol in the alphabet, or the invalid index exactly when it is not there |
| CodecVariants.LookupInvertsSymbol | cppcodec/detail/stream_codec.hpp:271-298 | looking up the symbol at position i of any of the eight alphabets gives i: no duplicates, no symbol lost to normalisation |
| CodecBits.DecodeBlockInvertsBlockDigits | cppcodec/detail/base64.hpp:98-107 | decoding the digits of a full block gives the block back, for base64, base32 and hex |
| CodecBits.BlockDigitsInvertDecodeBlock | cppcodec/detail/base32.hpp:61-76 | and the other way round: blocks and digit strings below the radix are in bijection |
| CodecBits.DecodeTailInvertsTailDigits | cppcodec/detail/base32.hpp:126-161 | the digits of a tail of any legal length are of an accepted number and decode to that tail |
| CodecBits.TailDigitsInvertDecodeTail | cppcodec/detail/base64.hpp:109-127 | re-encoding a decoded tail clears exactly the unused low bits of its last digit |
| CodecBits.BlockDigitIsBits | cppcodec/detail/base64.hpp:57-68 | digit k of a block holds bits k*w to k*w+w-1 of the bytes read as one bit string |
| CodecBits.TailDigitIsBits | cppcodec/detail/base32.hpp:81-90 | the same for tails, the bits past the last byte reading as zero |
| StreamCodec.EncBlock | cppcodec/detail/stream_codec.hpp:74-83 | the recursive template puts the first n symbols of the block, in order |
| StreamCodec.EncTail | cppcodec/detail/stream_codec.hpp:85-100 | the recursive template puts the symbols of a tail from its position on, and ends with the abbreviated one without reading past the tail |
| StreamCodec.Pad | cppcodec/detail/stream_codec.hpp:60-70 | appends exactly n padding symbols |
| StreamCodec.EncodeTail | cppcodec/detail/stream_codec.hpp:135-149 | the tail and its padding are what the specification says for fewer bytes than a block |
| StreamCodec.EncodeStream | cppcodec/detail/stream_codec.hpp:118-150 | the block loop, the tail and the padding compute the specification Encode, reading only inside the source |
| StreamCodec.DecodeStream | cppcodec/detail/stream_codec.hpp:322-353 | the loop over the index array computes the specification Decode, exception and bytes put out before it included, with every index inside the array and no read past the source |
| StreamCodec.CountPadding | cppcodec/detail/stream_codec.hpp:366-387 | the padding loop succeeds exactly on '=' up to the end or a NUL that fit in the block, and counts them |
| StreamCodec.DecodeEnd | cppcodec/detail/stream_codec.hpp:355-404 | stop character, padding check and tail decide between the three exceptions and success as the specification does |
| CodecTheorems.RoundTrip | cppcodec/detail/stream_codec.hpp:322-404 | decode(encode(b)) == b without exception, for every byte string and all eight variants |
| CodecTheorems.EncodeShape | cppcodec/detail/stream_codec.hpp:118-150 | an encoding is the symbols of the input's digits followed by the '=' that complete the last block, if the variant pads |
| CodecTheorems.EncodeDigitsInvertValue | cppcodec/detail/stream_codec.hpp:389-403 | encoding a decoded digit string gives it back with the unused bits of its tail cleared |
| CodecAcceptance.ExactAcceptance | cppcodec/detail/stream_codec.hpp:337-403 | for the variants that require padding, decode succeeds if and only if the text before the first NUL is whole blocks of alphabet symbols of which the last may end in a legal number of '=' (at most two for base64) |
| CodecAcceptance.AcceptedSize | cppcodec/detail/stream_codec.hpp:389-403 | and then the output has as many bytes as the symbols have room for (3n/4 minus the number of '=' for base64) |
| CodecAcceptance.AcceptanceOfEveryVariant | cppcodec/detail/stream_codec.hpp:337-403 | for all eight variants, decode succeeds if and only if the visible text is symbols that fill blocks and a legal tail, with the '=' the variant demands or allows; odd hex and base32 tails of 1, 3 or 6 symbols are refused |
| CodecAcceptance.ErrorsTellTheFault | cppcodec/detail/stream_codec.hpp:355-403 | exactly when each exception is thrown, on the visible text: a symbol error if and only if the first character outside the alphabet is no padding, naming it; a length error if and only if all that is wrong is a number of symbols left over that no tail encodes to; a padding error if and only if the text is not accepted and neither of these is the fault |
| CodecAcceptance.PaddingCures | cppcodec/detail/stream_codec.hpp:361-403 | after a length error no number of "=" would have helped; a padding error never occurs where padding is not allowed, and some other number of "=" would have cured it unless the number of symbols is impossible too |
| CodecAcceptance.CurableIffLegal | cppcodec/detail/stream_codec.hpp:389-403 | symbols decode with some number of "=" after them if and only if they leave no tail or one that decode_tail takes |
| CodecAcceptance.EncodedSizeIsExact | cppcodec/detail/stream_codec.hpp:406-422 | encoded_size is exactly the length of what encode produces |
| CodecAcceptance.DecodedSizeBound | cppcodec/detail/stream_codec.hpp:424-434 | decoded_max_size bounds what decode appends, even when it ends in an exception |
| CodecTable.SizeBoundIsReached | cppcodec/detail/stream_codec.hpp:424-434 | and is sharp: for every variant and length there is a text of that length that fills it |
| CodecCanonical.CanonicalForm | cppcodec/detail/base64.hpp:109-127 | section 3.5 of RFC 4648 for every variant that requires padding: re-encoding an accepted text gives its normalised form back except perhaps in the last data symbol, and exactly when that symbol's unused bits are zero or there is no tail |
| CodecCanonical.Base64CanonicalForm | cppcodec/detail/base64.hpp:109-127 | the same for base64, where symbols need no normalising and NUL-free texts are compared as they stand |
| CodecCanonical.FailureLeavesWholeBlocks | cppcodec/detail/stream_codec.hpp:349-405 | the bytes put out before an exception are exactly those whose encoding is the whole blocks of symbols read so far: nothing of a refused tail |
| CodecTable.TableIsPrinted | cppcodec/base32_crockford.hpp:54-71 | for every variant and character, the lookup gives i if and only if the character is the printed symbol at i, the same letter in the other case where the variant folds it (base32 and hex), or for Crockford O or o as 0 and I, i, L or l as 1 |
| CodecTable.OutcomeByTheTables | cppcodec/detail/stream_codec.hpp:322-404 | for every variant and text, success and each exception with its argument if and only if the text before the first NUL, without hyphens for Crockford, has the fault named: by the printed symbols, the block sizes, the impossible tails and the variants that demand or take '=', with nothing of the decoder in the statement |
| CodecTable.DecodesByTheTables | cppcodec/detail/stream_codec.hpp:337-403 | the value of an accepted text: as many bytes as its symbols hold, each bit that of the number its character stands for in the printed tables |
| CodecTable.EncodesByTheTables | cppcodec/detail/stream_codec.hpp:118-150 | what encode writes: slice after slice of the input's bits as characters of the printed alphabet, then for base64 and base64_url, base32 and base32hex by name the '=' that n bytes need, and none for the other four |
| CodecTable.AlikeDecodeAlike | cppcodec/base32_crockford.hpp:54-71 | texts that differ only in Crockford's hyphens and in characters that stand for the same symbol of the printed tables have the same success and value |
| CodecCanonical.EncodedDigitIsBits | cppcodec/detail/stream_codec.hpp:129-149 | digit k of a whole encoding holds bits k*w to k*w+w-1 of the input's bit string, zeros past its end |
| AccumulatorBase64.Base64Encode | http/httplib.h:1533-1559 | the accumulator loop returns the string the block encoder returns, for every byte string, although the 32-bit accumulator overflows |
| AccumulatorBase64.Drain | http/httplib.h:1546-1549 | the inner loop pushes the symbols for which six bits are available and leaves valb two, four or no bits up |
| AccumulatorBase64.CloseWithPadding | http/httplib.h:1554-1556 | the last loop adds the '=' that complete the block |
| TextSearch.FindString | http/httplib.h:3476-3493 | find_string stops at the first complete occurrence, or earlier where the pattern's first character stands too near the end for the pattern to fit |
| TextSearch.FindPartialInPrefix | http/httplib.h:3476-3493 | on a buffered prefix of a text it never passes the first occurrence in the whole text, and stops at it once it is complete |
| Multipart.MultipartFormDataParser.constructor | http/httplib.h:3495-3500 | a fresh parser is in state 0, invalid, with an empty buffer |
| Multipart.MultipartFormDataParser.Parse | http/httplib.h:3317-3449 | one call runs the machine of the specification to the end of the buffered input, callbacks, refusals and the consumed count included |
| Multipart.MultipartFormDataParser.ReadHeaders | http/httplib.h:3346-3379 | the header state reads lines until the empty one, or waits for more input |
| Multipart.MultipartFormDataParser.TakeLine | http/httplib.h:3361-3375 | one header line: a content type is trimmed, names are taken from the regular expression's groups, anything else is ignored |
| MultipartHeaders.DispositionIff | http/httplib.h:3320-3323 | the groups found are those of the match of the expression, read declaratively, with the shortest name and then the shortest file name, and there are none if and only if nothing matches |
| MultipartHeaders.TrimmedIs | http/httplib.h:1716-1730 | trimming removes the blanks at both ends and nothing else |
| MultipartHeaders.TrimCopy | http/httplib.h:1716-1730 | the two loops trim, of blanks alone down to nothing |
| MultipartHeaders.StartWithCaseIgnore | http/httplib.h:3458-3465 | compares prefixes letter by letter |
| MultipartHeaders.SameLetterIff | http/httplib.h:3458-3465 | which characters count as the same: equal ones, and those at the same place of the two printed alphabets |
| MultipartItems.HeadersReadIff | http/httplib.h:3358-3376 | the name, file name and content type of an item are read back from the lines built for it if and only if the names hold no CR or LF, no quote in the name is followed by what looks like a file name, and the content type has no blank at an end |
| MultipartItems.SameHeaderLines | http/httplib.h:6170-6179 | a concrete pair of items with the same header lines |
| Multipart.MultipartFormDataParser.ReadBodyText | http/httplib.h:3381-3394 | the first half of the body state hands over everything that cannot begin CR LF "--" |
| Multipart.MultipartFormDataParser.ReadBodyDelimiter | http/httplib.h:3395-3418 | the second half finds the delimiter, waits, or hands over as many characters as the delimiter has |
| Multipart.BuildBody | http/httplib.h:6158-6187 | a body is built if and only if all boundary characters are legal, and is the entries in order and the closing line |
| MultipartItems.BoundaryCharacterIff | http/httplib.h:6161-6166 | what a boundary may be made of: the printed letters and digits, hyphens and underscores |
| Multipart.BuildEntry | http/httplib.h:6170-6182 | one entry: boundary line, header lines, empty line, content |
| MultipartItems.EntryText | http/httplib.h:6168-6182 | the text of an entry, byte by byte: name in quotes, filename= if and only if there is a file name, a Content-Type line if and only if there is a content type, then the content |
| MultipartRoundTrip.SafeContentsRoundTrip | http/httplib.h:3317-3449 | for items with readable headers, whose contents hold no delimiter and are safe, feeding the built body in any split into chunks is accepted, ends valid in state 5, and delivers name, file name, content type and content of every item in order |
| MultipartRoundTrip.ClosingDecides | http/httplib.h:3420-3444 | with any text but CR LF in place of the closing, all parts are delivered; the transfer is valid if and only if that text is "--" CR LF, and fails if and only if more follows it |
| MultipartRoundTrip.BodyShape | http/httplib.h:6168-6184 | the body read as the parser reads it: each content is followed by CR LF "--" boundary |
| MultipartConditions.RoundTripIffDeliverable | http/httplib.h:3317-3449 | for every legal boundary and item list: every split of the body delivers the fields and contents of all items if and only if there is an item, the fields of each are readable, no content holds the delimiter, and every content is safe: conditions on the items alone |
| MultipartConditions.SomeSplitFails | http/httplib.h:3346-3420 | whichever of these conditions fails, some split of the body fails |
| MultipartConditions.RoundTripNeedsCleanFields | http/httplib.h:3346-3376 | a round trip under any split means that no name holds a CR or LF, and no content type CR LF |
| MultipartConditions.RoundTripNeedsReadableItems | http/httplib.h:3358-3376 | and, the contents being safe, that the fields of every item are readable |
| MultipartConditions.RoundTripNeedsNoDelimiter | http/httplib.h:3395-3418 | a round trip in one chunk means that no content holds the delimiter |
| MultipartExact.RoundTripIffSafe | http/httplib.h:3380-3420 | the part about safety: for items with readable headers whose contents hold no delimiter, every split round trips if and only if every content is safe |
| MultipartExact.UnsafeContentFails | http/httplib.h:3409-3417 | where no header line holds CR LF and no content the delimiter, an unsafe content makes one particular split fail, and that split is given |
| MultipartExact.NoDashesRoundTrip | http/httplib.h:3317-3449 | in particular contents without CR LF "--" round trip under every split, when headers are readable |
| MultipartExact.LegalButUnsafe | http/httplib.h:3409-3417 | a concrete content without the delimiter that a split loses |
| MultipartExact.NoItemsAreRefused | http/httplib.h:3331-3340 | the body built from an empty item list is refused, however it is cut |
| MultipartVerdict.FeedVerdict | http/httplib.h:3317-3449 | for any input in any chunks and any callbacks: valid exactly when successful so far and in the final state; a refused callback is the last one, and the transfer fails; no other failure than in the first or the final state; while it succeeds, the bytes consumed and the bytes buffered add up to the input |
| MultipartVerdict.OpeningDecides | http/httplib.h:3331-3340 | any input that does not begin with the boundary line fails with nothing delivered, and one shorter than that line waits |
| MultipartVerdict.NothingMayFollow | http/httplib.h:3441-3444 | a complete body followed by anything, in the same chunk or later, fails and is not valid, though all parts have been delivered |
| MultipartVerdict.DeliverableThen | http/httplib.h:3420-3444 | the same for any text but CR LF in place of the closing: valid exactly after "--" CR LF, failed exactly when more follows |
| MultipartVerdict.BrokenOffBodyWaits | http/httplib.h:3317-3449 | a body that breaks off anywhere, in any chunks, has not failed and is not valid |
| ChunkedStreams.StreamLineReader.Append | http/httplib.h:1807-1818 | the text grows by one character, in the fixed buffer until it is full and in the growable one after, and stays NUL-terminated |
| ChunkedStreams.StreamLineReader.GetLine | http/httplib.h:1780-1804 | for every fixed buffer of at least two characters, the text is the stream up to and including the first LF or to its end, wherever it is held; false exactly at the end or when the stream breaks before the line ends |
| ChunkedStreams.FromIToHex | http/httplib.h:1489-1497 | the loop yields the hexadecimal numeral of the number |
| ChunkedStreams.HexIsDigits | http/httplib.h:1489-1497 | that numeral is hexadecimal digits whose value is the number |
| ChunkedStreams.StrtoulReadsHex | http/httplib.h:2898-2901 | strtoul in base 16 reads the numeral back, up to its end, when a CR follows |
| HexNumbers.HexIsTheNumeral | http/httplib.h:1489-1497 | the numeral written is the number in lower-case digits by their places, without leading zeros |
| HexNumbers.StrtoulIff | http/httplib.h:2898-2901 | strtoul in base 16 on every text: spaces, a sign, "0x" and as many digits as there are, each by its place in the printed digits of either case, saturating above 64 bits and negated within them by a minus sign; 0 and nothing read if and only if the text has no such form |
| HexNumbers.CStringIs | http/httplib.h:2898-2911 | what strtoul and strcmp see of a line ends at its first NUL |
| Chunked.ReadWithLength | http/httplib.h:2832-2852 | reads exactly len bytes however short the reads are, and fails exactly when the stream holds fewer |
| Chunked.ReadContentChunked | http/httplib.h:2884-2922 | success, delivered data and remaining stream, on success and on failure, depend only on the bytes, as the specification ReadContent says, for every pattern of short reads |
| Chunked.WriteData | http/httplib.h:3022-3030 | sends what fits of the data, in order, however short the writes are; true exactly when all of it fits |
| Chunked.ChunkedSink.Write | http/httplib.h:3115-3138 | a write sends what fits of one chunk, or nothing when it is empty or an earlier one failed, and updates offset, data_available and ok |
| Chunked.ChunkedSink.Done | http/httplib.h:3140-3167 | done sends what fits of the last-chunk and says that no data is available, unless an earlier operation failed |
| Chunked.Perform | http/httplib.h:3115-3167 | one call of a provider, with any number of writes and dones in any order, sends what fits of their texts one after the other, and leaves data_available as its last operation says |
| Chunked.WriteContentChunked | http/httplib.h:3106-3184 | with any provider, given by its calls and their results, and any connection: the bytes sent are what fits of the calls up to the first that gives up or leaves no data available, the error reported is that of the first call to go wrong, and the result is true exactly when the data ended by itself and everything fits |
| Chunked.OutcomeIsPerformed | http/httplib.h:3171-3183 | success is reported if and only if the data ended by itself and the connection had room for all that was sent |
| Chunked.OutcomeIff | http/httplib.h:3171-3183 | each report if and only if some call ends the loop with it: cancelled when the provider returns false or is used up, a write error when it goes on and the text so far does not fit, success when it fits and the call leaves no data available; every call before goes on, leaves data available and fits |
| ChunkedRoundTrip.SizeLine | http/httplib.h:2894-2901 | the size line of a chunk is read whole by the line reader and back to its number |
| ChunkedRoundTrip.OpsReadBack | http/httplib.h:2884-2922 | whatever operations were performed and whatever follows them, the reader stops at the first done with the data written before it and leaves everything after it in the stream; without a done it fails |
| ChunkedRoundTrip.PerformedDone | http/httplib.h:3171-3180 | a done is performed if and only if some call says done and every call before it goes on and does not end in an empty write |
| ChunkedRoundTrip.TransferSucceedsIffDoneIsReached | http/httplib.h:3106-3184 | over a connection that carries everything, however writes are grouped into calls, the receiver succeeds if and only if done is reached, and then has exactly the data written before the first done |
| ChunkedRoundTrip.WholeTransferIff | http/httplib.h:3106-3184 | over such a connection, all that was written arrives with nothing left over if and only if done is reached and nothing but empty writes is performed after it |
| ChunkedRoundTrip.NonEmptyWritesArrive | http/httplib.h:3115-3167 | section 4.1 of RFC 7230: non-empty writes and a final done round trip under every grouping into calls |
| ChunkedRoundTrip.OneCallArrives | http/httplib.h:3115-3167 | made within one call, writes followed by done round trip even if some are empty |
| ChunkedRoundTrip.OneWritePerCallIffNoneEmpty | http/httplib.h:3116-3118 | with one write a call and done in a call of its own, the transfer succeeds if and only if no write is empty, and then delivers exactly what was written |
| ChunkedRoundTrip.MissingLineEndIsAccepted | http/httplib.h:2908-2911 | at any chunk of a body, data not followed by CR LF ends the transfer as a success |
| ChunkedTruncation.OpsReadTruncated | http/httplib.h:2884-2922 | of the first m bytes of what any operations send, for every m, the receiver makes a success if and only if the first done is among them or they stop cleanly between the CR and LF that end the chunk of a write before it; delivered data and remaining stream are given |
| ChunkedTruncation.TransferOverConnection | http/httplib.h:3106-3184 | for every provider and every connection, the receiver succeeds if and only if done is reached and gets through, or the connection gives out within such a line end and looks closed; delivered data are given |
| ChunkedTruncation.AllDataArrivesIff | http/httplib.h:3106-3184 | all data written arrives if and only if none follows the done, or the line end, that makes the receiver succeed |
| ChunkedTruncation.WriterSuccess | http/httplib.h:3171-3183 | a transfer that the writer reports as a success is one for the receiver exactly when done was reached |
| ChunkedTruncation.CutGoesUnnoticed | http/httplib.h:2908-2911 | a concrete family: two pieces and done, one byte short in the end of the first chunk; the writer fails, the receiver succeeds without the second piece |
| ChunkedGrammar.SuccessIffCompleteOrCutShort | http/httplib.h:2884-2922 | for every stream, the reader succeeds if and only if the stream is a whole body by the grammar or a body cut short by a line that is not blank, and no stream is both |
| ChunkedGrammar.WellFormedIsRead | http/httplib.h:2894-2911 | from either kind of stream it delivers exactly the data of its chunks and leaves what follows in the stream |
| ChunkedGrammar.SuccessIsWellFormed | http/httplib.h:2884-2922 | every success gives a reading of the stream by the grammar: size lines, data, lines after the data, closing |
| ChunkedGrammar.ReadingIsUnique | http/httplib.h:2884-2922 | and there is only one such reading |
| ChunkedGrammar.WholeBodyIffLinesBlank | http/httplib.h:2908-2919 | a success means that the whole body was read if and only if the line after the data of every chunk read is CR LF |
| ChunkedFailure.FailureIff | http/httplib.h:2884-2922 | for every stream, the reader fails, having handed over these data and left these bytes, if and only if the stream is whole chunks followed by something it is stuck at: no line, a line without a size, too few bytes, no line after them, or no blank line after the last-chunk |
| ChunkedRfc.RfcBodyIsReadIffNoTrailer | http/httplib.h:2894-2919 | of the chunked bodies of section 4.1 of RFC 7230, with any extensions, sizes below the overflow value and anything after them, exactly those without a trailer are accepted; they are read whole, and what follows stays in the stream |
| ChunkedRfc.TrailersAreRefused | http/httplib.h:2915-2919 | a body with a trailer is refused |
| ChunkedRfc.BareLineFeedIsAccepted | http/httplib.h:2891-2919 | a concrete body outside the RFC that is accepted as whole |
| ChunkedRfc.StatesSizeIff | http/httplib.h:2898-2901 | a line states a size if and only if what precedes its first NUL has the form strtoul reads, and the value is not the largest |
| ChunkedRfc.BlankIff | http/httplib.h:2911-2918 | a line counts as blank if and only if it is CR LF, with or without a NUL and anything after it |
| ThreadPool.JobList.Enqueue | http/httplib.h:522-526 | enqueue appends to the list |
| ThreadPool.JobList.SetShutdown | http/httplib.h:530-533 | sets the flag and touches nothing else |
| ThreadPool.JobList.Next | http/httplib.h:550-560 | one turn of a worker leaves, sleeps or takes the oldest job, by the list and the flag |
| ThreadPool.JobsInOrder | http/httplib.h:522-565 | in every reachable state the jobs taken are a prefix of those enqueued, the list is the rest, and each taken job is running or finished exactly once |
| ThreadPool.ShutdownDrains | http/httplib.h:528-556 | when all workers have left, every job that had been enqueued in any earlier state without the flag has been taken and has finished |
| ThreadPool.WorkersStay | http/httplib.h:546-554 | no worker leaves before the flag is set |
| ThreadPool.SleepersAreCovered | http/httplib.h:522-558 | before shutdown, a worker sleeps only while at least as many workers as there are jobs are about to look |
| ThreadPool.WorkerStepsUseUpWork | http/httplib.h:535-540 | after notify_all every step of a worker strictly uses up work |
| ThreadPool.WorkersCanStep | http/httplib.h:535-540 | and while a worker has not left some worker can step, so the joins return |
| ThreadPool.WorkersDrain | http/httplib.h:535-540 | from notify_all on, steps of the workers alone lead to where all have left |
| ThreadPool.CompleteRun | http/httplib.h:510-565 | for any number of workers and any list of jobs there is a run that enqueues them all, finishes each once, and shuts down |
| FileCut.CutInfo.constructor | vad/src/file_cut.c:99-103 | a created cutter has all fields zero |
| FileCut.CutInfo.WriteFile | vad/src/file_cut.c:10-34 | reads the next samples, fewer at the end of the input, moves the read position by as many, and returns 1 exactly when there are none |
| FileCut.CutInfo.TryCut | vad/src/file_cut.c:36-60 | cuts when forced or long enough, resetting both activity flags, and changes nothing otherwise |
| FileCut.CutInfo.AddContinuedFrame | vad/src/file_cut.c:62-77 | cuts after enough silence behind voice, or else counts on |
| FileCut.CutInfo.AddChangedFrame | vad/src/file_cut.c:80-97 | cuts ahead of voice after enough silence, and starts the count anew |
| FileCut.CutInfo.Add | vad/src/file_cut.c:106-123 | one call of the cutter, on every field, as the specification AddVadActivity says |
| FileCutRuns.InvHolds | vad/src/file_cut.c:62-123 | on every run the counter is exact once a rise was noticed in the segment, and in silence it is exact or the segment is silent so far; a segment never outgrows the maximum |
| FileCutIdeal.ProgramIsIdealIff | vad/src/file_cut.c:10-123 | over every run the program writes exactly the segments, borders, labels and samples, of a cutter defined by recursion on the calls, if and only if no call is the missed cut, a condition on the calls alone |
| FileCutIdeal.ProgramIsIdealInCommonH | vad/src/common.h:23-35 | with the lengths of common.h it always does |
| FileCutIdeal.MissesCutIsOneShort | vad/src/file_cut.c:62-97 | the missed cut seen from the calls is the one seen from the counter |
| FileCutIdeal.CounterHolds | vad/src/file_cut.c:62-123 | in a segment silent so far the counter is behind by at most one, and then every call up to the start of the segment was forced |
| FileCutRuns.CutsAreIdealUnlessOneShort | vad/src/file_cut.c:62-123 | call by call, on the program's own segment and noticed rises: it cuts exactly where exact run lengths would, and reports it, if and only if it is not the one-frame corner |
| FileCutRuns.CutsAreIdeal | vad/src/file_cut.c:62-123 | so it always does for a minimum length above one frame, as in common.h |
| FileCutRuns.CutsAreIdealInCommonH | vad/src/common.h:23-35 | with the lengths of common.h in particular |
| FileCutRuns.MissedCut | vad/src/file_cut.c:84-93 | a concrete run in the corner where the cut is missed |
| FileCutRuns.CutsFallInSilence | vad/src/file_cut.c:62-97 | an unforced cut at a silent frame follows silenceAfter silent frames; one at an active frame hands exactly silenceBefore frames, all silent, to the next segment |
| FileCutRuns.RunsAreOk | vad/src/file_cut.c:10-123 | over every run segments tile the frames from 0, lie between minimum and maximum except where a last call cuts, are labelled "A" exactly when they hold a noticed rise, and hold the audio of their frames |
| FileCutRuns.LabelledSegmentsAreActive | vad/src/file_cut.c:43-49 | a segment labelled "A" contains an active frame |
| FileCutLabels.LabelByFlags | vad/src/file_cut.c:106-118 | in terms of the flags: the label is "A" if and only if voice sets in after silence within the segment, or runs at its first frame and the cut there was not forced, which the flag of the last call and the length of the segment before decide |
| FileCutLabels.VoiceUnderSilentLabel | vad/src/file_cut.c:106-118 | a segment holds voice and is labelled "I" if and only if it is not empty, voice runs at its start, the cut there was forced, and voice does not set in again before its end |
| FileCutLabels.VoiceAcrossCut | vad/src/file_cut.c:108-111 | a concrete run: four active frames cut at a maximum of two leave a segment of voice labelled "I" |
| FileCutRuns.AudioIsConserved | vad/src/file_cut.c:10-60 | a final call once the audio is used up leaves the whole input written, once and in order |
| FileCutRuns.ResultTellsTheCut | vad/src/file_cut.c:106-123 | the result is 0 with cut_begin_frame unchanged, or negative with cut_begin_frame its negation |
| SpeechSegments.Acts.CheckWindow | segment/segment.cc:20-41 | the counting loop classifies a window as speech, silence or neither |
| SpeechSegments.StatusIs | segment/segment.cc:20-41 | that is, by the number of occurrences of 1 among the flags of the window: speech from five on, silence at none |
| SpeechSegments.RunKeepsWindows | segment/segment.cc:59-92 | over all runs, there is a status for every full window, that of its own 15 flags, and the last end is remembered |
| SpeechSegments.Acts.AddAct | segment/segment.cc:59-92 | one frame, on every field, as the specification WithAct says |
| SpeechSegments.Acts.ActPercent | segment/segment.cc:119-126 | the sum of the flags divided by the length of the range, above one half exactly when twice the sum exceeds the length; no value for the empty range |
| SpeechSegments.SumIsAdditive | segment/segment.cc:119-126 | the sum is additive over concatenation and that of one flag is the flag, which determines it |
| SpeechSegments.Acts.End | segment/segment.cc:43-57 | closes the open segment when long enough and mostly active |
| SpeechSegments.Acts.Reset | segment/segment.cc:111-117 | back to the freshly created state |
| SpeechSegments.RunFindsTheSegmentation | segment/segment.cc:59-92 | without last calls, the two lists are the one and only segmentation of the flags, by occurrences of 1 in windows of 15: each start the first window with five or more after the previous end, each end the first with none more than 200 frames after its start, none missing |
| SpeechSegments.SegmentsInterleave | segment/segment.cc:69-88 | sts[0] < ends[0] < sts[1] < ends[1] and so on with at most one open start, spans over 200 frames, speech windows at starts and silent ones at ends |
| SpeechSegments.EndClosesTheOpenSegment | segment/segment.cc:43-57 | end() adds one end, at least 100 frames after the open start, if and only if the segment is long enough and mostly active, and keeps the order |
| SpeechSegments.EndOfFlags | segment/segment.cc:43-57 | for flags of 0 and 1: exactly when the segment has more than 100 frames and more than half of those before the last are 1 |
| SpeechSegments.PairedIffNoStray | segment/segment.cc:75-88 | over all runs with last calls, the lists interleave if and only if no last call completed a silent window with no segment open |
| SpeechSegments.StrayEndIsFatal | segment/segment.cc:43-92 | after such a call no segment is ever opened again and end() does nothing |
| SpeechSegments.SilenceEndsUnstarted | segment/segment.cc:75-88 | flags without voice whose last call ends a window leave one end and no start |
| CircularQueue.RingAppends | thirdparty/spdlog/details/circular_q.h:49-62 | moving the tail on appends while it does not meet the head |
| CircularQueue.RingOverruns | thirdparty/spdlog/details/circular_q.h:56-60 | when it does, moving the head as well drops exactly the oldest element |
| CircularQueue.CircularQ.Disabled | thirdparty/spdlog/details/circular_q.h:24-25 | the default queue holds nothing and has no storage |
| CircularQueue.CircularQ.constructor | thirdparty/spdlog/details/circular_q.h:27-30 | a queue of any capacity, 0 included, starts empty with one slot reserved |
| CircularQueue.CircularQ.Size | thirdparty/spdlog/details/circular_q.h:77-87 | the size never exceeds the capacity; it is the length of the contents |
| CircularQueue.CircularQ.PushItem | thirdparty/spdlog/details/circular_q.h:49-62 | the contents gain the item and lose the oldest beyond the capacity, and overrun_counter counts the losses |
| CircularQueue.CircularQ.PopFront | thirdparty/spdlog/details/circular_q.h:99-102 | the contents lose their first element and nothing else |
| CircularQueue.CircularQ.Front | thirdparty/spdlog/details/circular_q.h:66-74 | the first element of the contents |
| CircularQueue.CircularQ.At | thirdparty/spdlog/details/circular_q.h:91-95 | element i of the contents, through the wrapped index |
| CircularQueue.CircularQ.Empty | thirdparty/spdlog/details/circular_q.h:104-107 | true exactly when the contents are empty |
| CircularQueue.CircularQ.Full | thirdparty/spdlog/details/circular_q.h:109-117 | true exactly when the contents reach the capacity; never for the disabled queue |
| CircularQueue.CircularQ.MoveFrom | thirdparty/spdlog/details/circular_q.h:37-46 | the target takes over contents, capacity and counter, the source becomes a disabled queue; moved onto itself a queue becomes disabled |
| Mpmc.MpmcBlockingQueue.EnqueueSection | thirdparty/spdlog/details/mpmc_blocking_q.h:34-38 | the critical section of enqueue on the ring is the machine's push, or a wait exactly when full |
| Mpmc.MpmcBlockingQueue.EnqueueNowaitSection | thirdparty/spdlog/details/mpmc_blocking_q.h:45-48 | the critical section of enqueue_nowait pushes and overruns as the machine does |
| Mpmc.MpmcBlockingQueue.DequeueSection | thirdparty/spdlog/details/mpmc_blocking_q.h:56-64 | the critical section of dequeue_for pops the oldest item, or finds nothing exactly when empty |
| Mpmc.RunKeeps | thirdparty/spdlog/details/mpmc_blocking_q.h:32-67 | every state of every run keeps the invariant behind the promises below |
| Mpmc.NoLostWakeup | thirdparty/spdlog/details/mpmc_blocking_q.h:32-67 | in every interleaving, if a consumer sleeps the items number at most the woken consumers and undelivered notifications; symmetrically for producers and free slots |
| Mpmc.QuietSleepersAreRight | thirdparty/spdlog/details/mpmc_blocking_q.h:32-67 | with nothing on its way, sleeping consumers mean an empty queue, sleeping producers a full one, and never both unless the capacity is 0 |
| Mpmc.OrderWithoutOverrun | thirdparty/spdlog/details/mpmc_blocking_q.h:32-67 | without enqueue_nowait nothing is overrun and what went in is what came out followed by what is queued |
| Mpmc.ConservationWithOverrun | thirdparty/spdlog/details/mpmc_blocking_q.h:43-67 | with it, the popped items are a subsequence of the pushed ones and pushes = pops + overruns + size |
| Mpmc.HistoryIsResults | thirdparty/spdlog/details/mpmc_blocking_q.h:32-67 | over every run, what the history calls popped is what the consumers have been handed, and what it calls pushed is what the producers asked to store, read off the threads alone |
| Mpmc.ConsumersGetWhatProducersStored | thirdparty/spdlog/details/mpmc_blocking_q.h:32-67 | so without enqueue_nowait consumers are handed what producers stored, in that order, up to what is queued; with it a subsequence |
| Mpmc.TimedOutConsumersLeave | thirdparty/spdlog/details/mpmc_blocking_q.h:56-64 | dequeue_for gives up exactly when its time is over and there is nothing, sleeps exactly when there is nothing and time is left, and else has an item |
| Mpmc.NoticesAreNoTimeouts | thirdparty/spdlog/details/mpmc_blocking_q.h:58 | only the passing of time makes a waiting consumer give up, never a notification |
| Mpmc.EveryThreadCanStep | thirdparty/spdlog/details/mpmc_blocking_q.h:32-67 | in no state is a thread kept from its next step, and any call can be made with any item |

## Left out

- Sockets, select and poll, SSL, timeouts, and the HTTP client and server around the streams: a stream is a byte sequence with arbitrary short reads or writes that may break at its end.
- Limits of the regular expression library, which matches by recursion: it is modelled as the ECMAScript grammar reads, in the C locale.
- FileCut.CutInfo.WriteFile: has no failing file operations, so of the return codes only 0 and 1 occur.
- Compressors other than the identity, which holds nothing back: gzip and brotli.
- Receivers and progress callbacks that refuse data while a body is read, and is_shutting_down in the chunked writer, which lets it stop between two calls.
- Content providers that choose their operations by the result of an earlier write: a provider is the list of its calls, and gives up when they are used up.
- Signed overflow of httplib's accumulator, which the C++ standard leaves undefined: it wraps around at 32 bits here.
- Widths of size_t and int elsewhere: mathematical integers, except that strtoul saturates and negates at 64 bits; chunk sizes are below its overflow value.
- Characters are not limited to one byte: texts may hold any character, of which those outside the alphabets are invalid symbols.
- Result containers of cppcodec's access layer: the result is a sequence that only grows.
- File names and printing in file_cut.c: the input is a sequence of samples, and every cut writes what it reads.
- Two of cut_frame's effects when the segment is empty: no file appears for it, where the model records a segment without samples.
- WebRTC voice detection: the activity flag is an arbitrary input.
- Rounding in act_percent: the share is an exact quotient, which agrees with single precision below 2^24 frames.
- lookback_sil, get_segs and get_seg_size of Acts: the server does not call them, and nothing fills the list of segments the last two read.
- The MINGW form of the blocking queue, which notifies before it releases the lock, and the read-only overrun_counter and size.
- Fairness: that a woken thread eventually runs is the scheduler's part; the queue's promises are about every reachable state, the pool's shutdown about every step.
- The websocket server, JSON, spdlog's formatting and registry, and cpptoml: input, output and wrappers.
