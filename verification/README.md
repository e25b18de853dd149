# Byte, bit, wire and frame-buffer code of the camera streamer

This project models the low-level loops of a Raspberry Pi camera streamer (an OV5642 sensor behind a
bit-banged I2C bus, and the mjpg-streamer plugins that grab, compress, publish, send and receive its
pictures) and proves what they keep, what they undo and when they fail. `dafny verify dfyconfig.toml`
checks all of it.

The pieces, bottom up:

- `Words.dfy` - 32-bit words, shifts, masks and bit strings, by doubling and halving. `Memory.dfy` - memcpy, memmove
  and memset. `Wrappers.dfy` - small things shared.
- `HuffmanTable.dfy`, `SymbolCode.dfy`, `BlockCode.dfy`, `Unstuffing.dfy`, `ScanReader.dfy` - the partial JPEG
  decoder of the autofocus plugin. Three of these files speak about bit strings: canonical tables as
  consecutive intervals of 32-bit windows, the prefix code, and the coding of blocks and scans, each with its
  encoder from ITU-T T.81. `Unstuffing` is the byte layer. `ScanReader.Reader` is the program: the left-aligned
  window, its refill loops, the mask-and-compare search and the nested loops over coefficients, blocks and
  units. It refines the bit-string decoder, so that the round trip holds of the program from bytes to
  coefficients. `StandardTables.dfy` and `StandardBlocks.dfy` apply it to the typical tables of T.81.
- `Misc.dfy`, `Proxy.dfy`, `PartReader.dfy`, `Stream.dfy`, `Response.dfy` - the multipart stream: the byte-at-a-time
  extractor with its mask test for blank lines and its matcher without fallback, the printer, the exact condition
  under which one undoes the other, and a whole response, cut off anywhere and arriving in any pieces. The
  extractor ignores the numbers in a header; `PartReader` is a reader that goes by them, and reads every stream.
- `FrameExchange.dfy` - the exchange of frames between one producer and any number of consumers as a state
  machine whose steps go down to the single bytes of the two copies. `EncoderCallback.dfy`,
  `RaspicamExchange.dfy` - the producer that holds the mutex across several callbacks, and its place in the
  exchange.
- `Gpio.dfy`, `I2c.dfy`, `CameraBus.dfy` - registers, wires, and register transactions. The wires leave a trace;
  START, STOP and bits are read off the trace, a slave is fed with them, and a device with registers and a
  register pointer obeys what the slave hears and answers reads.
- `BufferedRead.dfy`, `Base64.dfy`, `Unescape.dfy` - text and byte handling of the HTTP server, in place and
  buffered.
- `HuffmanInsertion.dfy`, `Destination.dfy`, `Pixels.dfy` - the JPEG byte transformations of
  the UVC plugin.
- `RingBuffer.dfy`, `PictureScan.dfy`, `PanTilt.dfy` - two controllers over whole runs, and the scan that finds the
  ring buffer's own files.

## Where the code does less than it says

- The search in `readXC` counts up before it tests the end, so a table's last entry is never found. The round
  trips hold exactly for data that avoids it (`BlockRoundTrip`, `ScanRoundTrip`). With the tables of dht_data that
  is a DC difference from 1024 to 2047 in absolute value, or an AC value from 512 to 1023 in absolute value at the
  end of certain runs of zeros (`StandardBlock`, `BrightBlockIsRefused`).
- After FF, or FF 00, the next byte is taken without looking whether it is FF itself, and the first two bytes of
  a scan are not unstuffed at all. `UnstuffInverseIff` and `ScanInverseIff` give the exact condition.
- The blank-line test accepts every pair of bytes that has the bits of CR and LF. No part header trips over it
  (`PartHeadHits`), but the status line does (`ResponseDelivers`), so the round trip starts behind the opening
  boundary.
- The matcher does not fall back into a partial match. A boundary behind something already matched is missed
  (`BoundaryFoundIff`); behind the line end that the printer writes it never is.
- A consumer waits without a loop around the wait, so a wait that ends by itself hands out the same frame again
  (`SpuriousWakeRepeats`).
- A frame of no bytes makes the encoder callback unlock a mutex it does not hold, once for each such frame
  (`Port.Callback`).
- Inserting the Huffman table is not idempotent when the first SOF0 marker lies beyond offset 2048 or behind an
  SOS marker (`SecondPass`).
- The pan/tilt plugin never looks at the result of a move, so its account is right exactly as long as the failed
  moves cancel out (`DeadReckoning`), and -1 is both an error and a position (`MinusOneMeans`).
- Names in the ring buffer do not always sort by creation: `NamesSortIff` gives the exact condition, and
  `NinthDigitOverflows` the first pair within one second that does not.

## Meanings fixed where C leaves them open

- Words are 32 bits. `char` is unsigned, as on ARM; texts are ASCII. Right shifts of negative numbers round
  down.
- A shift by 32, which size 0 leads to, gives 0, so that HUFF_EXTEND of no bits is 0.
- Reading past a buffer is a precondition, not a behaviour: the JPEG decoder needs at least 31 bits behind the
  last code, which its second refill loop may look at; `is_huffman` and the SOF0 search need the slack they read
  ahead into.
- Array sizes are those of the program: 162 rows a table, a coefficient table longer than 78, 17 masks (so DC
  symbols are at most 16), a 262144-byte image buffer, a 4096-byte staging buffer.

## Model

| member | source | states |
|---|---|---|
| `HuffmanTable.StartIsCode` | src/mjpg-streamer/mjpg-streamer-experimental/plugins/output_autofocus/processJPEG_onlyCenter.c:101-113 | the code the loop assigns to entry i (T.81 Annex C.2), moved to the top of a 32-bit window, is where the interval of entry i starts: the intervals of consecutive codes follow each other without gaps |
| `HuffmanTable.CodeFits` | src/mjpg-streamer/mjpg-streamer-experimental/plugins/output_autofocus/processJPEG_onlyCenter.c:101-113 | in a table whose Kraft sum is at most 1, every code fits its own length, so shifting it to the top of a 32-bit word loses nothing |
| `HuffmanTable.RowMatches` | src/mjpg-streamer/mjpg-streamer-experimental/plugins/output_autofocus/processJPEG_onlyCenter.c:106-107 | a stored pair (bits, mask) matches a 32-bit window exactly when the window lies in the interval of its entry |
| `HuffmanTable.RowsDisjoint` | src/mjpg-streamer/mjpg-streamer-experimental/plugins/output_autofocus/processJPEG_onlyCenter.c:106-107 | no window matches two entries of a table |
| `HuffmanTable.RowsCover` | src/mjpg-streamer/mjpg-streamer-experimental/plugins/output_autofocus/processJPEG_onlyCenter.c:101-113 | the entries tile an initial segment of the windows: every window below the end of the last interval matches one of them |
| `HuffmanTable.FitsIffKraft` | src/mjpg-streamer/mjpg-streamer-experimental/plugins/output_autofocus/processJPEG_onlyCenter.c:101-113 | there is room for all codes exactly when the 16 counts have Kraft sum at most 1 |
| `HuffmanTable.Lookup.Fill` | src/mjpg-streamer/mjpg-streamer-experimental/plugins/output_autofocus/processJPEG_onlyCenter.c:98-115 | for any 16 counts with room, the loop over lengths and codes stores exactly the rows of the listed table, its size, and returns the position behind the listing |
| `HuffmanTable.ReadSegment` | src/mjpg-streamer/mjpg-streamer-experimental/plugins/output_autofocus/processJPEG_onlyCenter.c:92-116 | after a whole DHT segment the four slots hold the tables it lists, a later one replacing an earlier one, and tables not listed are as before |
| `SymbolCode.CodesExclusive` | src/mjpg-streamer/mjpg-streamer-experimental/plugins/output_autofocus/processJPEG_onlyCenter.c:151-163 | the codes of a table are prefix-free: a bit string begins with at most one of them |
| `SymbolCode.ReadCode` | src/mjpg-streamer/mjpg-streamer-experimental/plugins/output_autofocus/processJPEG_onlyCenter.c:151-164 | reading a bit string that begins with the code of entry i gives that symbol and what follows the code if i is not the last entry; the last entry is never found |
| `BlockCode.ExtendAmplitude` | src/mjpg-streamer/mjpg-streamer-experimental/plugins/output_autofocus/processJPEG_onlyCenter.h:1 | HUFF_EXTEND of the amplitude bits of any value, at its category, is the value: it inverts the coding of F.1.2.1 |
| `BlockCode.AcStep` | src/mjpg-streamer/mjpg-streamer-experimental/plugins/output_autofocus/processJPEG_onlyCenter.c:193-210 | one turn of the AC loop on a stream that begins with a token does what the token says: end of block, sixteen zeros, or a run and a coefficient |
| `BlockCode.AcRoundTrip` | src/mjpg-streamer/mjpg-streamer-experimental/plugins/output_autofocus/processJPEG_onlyCenter.c:192-215 | the AC loop on the tokens of any coefficients fills exactly those coefficients and consumes exactly their bits if and only if no token uses the last entry of the table |
| `BlockCode.BlockRoundTrip` | src/mjpg-streamer/mjpg-streamer-experimental/plugins/output_autofocus/processJPEG_onlyCenter.c:181-216 | decoding the standard encoding of any block of 64 coefficients returns the block, its DC value as the new predictor and the bits behind it if and only if no symbol is the last entry of its table |
| `BlockCode.UnitStep` | src/mjpg-streamer/mjpg-streamer-experimental/plugins/output_autofocus/processJPEG_onlyCenter.c:235-267 | decoding one unit leaves as predictors the DC values of its second Y block, its Cr block and its Cb block, and fails if and only if a code in it is a last entry |
| `BlockCode.ScanRoundTrip` | src/mjpg-streamer/mjpg-streamer-experimental/plugins/output_autofocus/processJPEG_onlyCenter.c:227-273 | decoding a scan encoded unit by unit (two Y blocks, Cr, Cb; each DC value as the difference to the last one of its component, with three predictors kept apart) returns all its blocks, the last DC value of each component and the bits behind it if and only if no code in it is the last entry of its table |
| `StandardBlocks.StandardCoders` | src/mjpg-streamer/mjpg-streamer-experimental/plugins/input_uvc/huffman.h:26-62 | the tables of dht_data meet what the decoder theorems ask of a picture: room for all codes, DC symbols up to 16; their last entries are 0x0b (DC) and 0xfa (AC), and these symbols stand nowhere else |
| `StandardBlocks.AvoidsLastIff` | src/mjpg-streamer/mjpg-streamer-experimental/plugins/output_autofocus/processJPEG_onlyCenter.c:181-216 | with such tables a block uses a last entry if and only if its DC difference is between 1024 and 2047 in absolute value, or an AC value between 512 and 1023 follows 15 zeros, or 15 more than a multiple of 16 |
| `StandardBlocks.StandardBlock` | src/mjpg-streamer/mjpg-streamer-experimental/plugins/output_autofocus/processJPEG_onlyCenter.c:181-216 | so with these tables a coded block is read back exactly when it has neither, and is refused otherwise |
| `StandardBlocks.TypicalScan` | src/mjpg-streamer/mjpg-streamer-experimental/plugins/output_autofocus/processJPEG_onlyCenter.c:227-273 | and a coded scan is read back, unit for unit, exactly when no block has either against the last DC value of its own component |
| `StandardBlocks.BrightBlockIsRefused` | src/mjpg-streamer/mjpg-streamer-experimental/plugins/output_autofocus/processJPEG_onlyCenter.c:181-216 | the failure is real: the block of one DC value 1024, coded as the standard says with the tables of dht_data, is refused |
| `Unstuffing.UnstuffInverseIff` | src/mjpg-streamer/mjpg-streamer-experimental/plugins/output_autofocus/processJPEG_onlyCenter.c:165-177 | the refill loops undo the byte stuffing of F.1.2.3 exactly when no FF follows an FF in the data |
| `Unstuffing.ScanInverseIff` | src/mjpg-streamer/mjpg-streamer-experimental/plugins/output_autofocus/processJPEG_onlyCenter.c:133-150 | a whole scan is read as sent exactly when besides neither of its first two bytes, which are not unstuffed, is FF |
| `Unstuffing.ScanOfStuffed` | src/mjpg-streamer/mjpg-streamer-experimental/plugins/output_autofocus/processJPEG_onlyCenter.c:133-150 | under that condition the data is read as sent whatever bytes follow it |
| `ScanReader.PushByte` | src/mjpg-streamer/mjpg-streamer-experimental/plugins/output_autofocus/processJPEG_onlyCenter.c:138-141 | or-ing a byte in below the valid bits of a clean window appends its eight bits |
| `ScanReader.DropBits` | src/mjpg-streamer/mjpg-streamer-experimental/plugins/output_autofocus/processJPEG_onlyCenter.c:164 | shifting a clean window left drops its first bits and leaves it clean |
| `ScanReader.FirstBits` | src/mjpg-streamer/mjpg-streamer-experimental/plugins/output_autofocus/processJPEG_onlyCenter.c:207 | shift and mask give the number the first n bits of the window stand for |
| `ScanReader.RowMatchesWindow` | src/mjpg-streamer/mjpg-streamer-experimental/plugins/output_autofocus/processJPEG_onlyCenter.c:153 | mask and compare on a window of at least 16 bits finds an entry exactly when the bit stream begins with its code |
| `ScanReader.Reader.constructor` | src/mjpg-streamer/mjpg-streamer-experimental/plugins/output_autofocus/processJPEG_onlyCenter.c:133-134 | initialising the window establishes its invariant, and window and unread bytes together are the whole scan, its first two bytes as they are |
| `ScanReader.Reader.Refill` | src/mjpg-streamer/mjpg-streamer-experimental/plugins/output_autofocus/processJPEG_onlyCenter.c:138-150 | refilling leaves the bit stream as it is and at least 16 bits in the window; bits below the valid ones stay zero, at most 31 are valid |
| `ScanReader.Reader.Match` | src/mjpg-streamer/mjpg-streamer-experimental/plugins/output_autofocus/processJPEG_onlyCenter.c:151-163 | the search loop returns what looking up the bit stream in the table gives; the counter is increased before it is tested, so the last entry is never returned |
| `ScanReader.Reader.ReadXC` | src/mjpg-streamer/mjpg-streamer-experimental/plugins/output_autofocus/processJPEG_onlyCenter.c:137-179 | readXC refines looking up a symbol in the bit stream: same symbol, exactly its code dropped; -1 and nothing dropped where there is none; the window invariant is kept, so no shift count is negative or above 32 |
| `ScanReader.Reader.ReadAc` | src/mjpg-streamer/mjpg-streamer-experimental/plugins/output_autofocus/processJPEG_onlyCenter.c:192-215 | the AC loop refines the decoder on bit streams: same coefficients in the table, same rest of the stream, same success; no index above 78 is written |
| `ScanReader.Reader.ReadTable` | src/mjpg-streamer/mjpg-streamer-experimental/plugins/output_autofocus/processJPEG_onlyCenter.c:181-216 | readTable refines the block decoder on bit streams: result, predictor, coefficients and rest of the stream |
| `ScanReader.Reader.Scan` | src/mjpg-streamer/mjpg-streamer-experimental/plugins/output_autofocus/processJPEG_onlyCenter.c:227-273 | the loop over the minimum coded units refines the scan decoder on bit streams, whose blocks and predictors `BlockCode.ScanRoundTrip` fixes |
| `ScanReader.PictureRoundTrip` | src/mjpg-streamer/mjpg-streamer-experimental/plugins/output_autofocus/processJPEG_onlyCenter.c:133-273 | for units coded as T.81 says, stuffed, and put into a scan, what the decoder on bytes sees as its bit stream decodes to the blocks of those units |
| `ScanReader.DecodePicture` | src/mjpg-streamer/mjpg-streamer-experimental/plugins/output_autofocus/processJPEG_onlyCenter.c:133-273 | the whole imperative decoder, started on such a scan, returns exactly the blocks of the units sent, in order |
| `Misc.CrlfMask` | src/mjpg-streamer/mjpg-streamer-experimental/plugins/input_http/misc.c:23-26 | the mask test holds exactly when the last byte has all the bits of LF and the byte before it all the bits of CR: a superset of CR LF |
| `Misc.LastFourIs` | src/mjpg-streamer/mjpg-streamer-experimental/plugins/input_http/misc.c:33-35 | after any bytes the word holds the last four of them, zeros before the first |
| `Misc.CrlfCrlfIsHit` | src/mjpg-streamer/mjpg-streamer-experimental/plugins/input_http/misc.c:28-32 | the double test holds exactly when the last four bytes look like CR LF CR LF under the masks |
| `Misc.HitIsOccurrence` | src/mjpg-streamer/mjpg-streamer-experimental/plugins/input_http/misc.c:49-62 | when the matcher completes, the bytes received last are the pattern |
| `Misc.OccurrenceFound` | src/mjpg-streamer/mjpg-streamer-experimental/plugins/input_http/misc.c:49-58 | an occurrence of the pattern with nothing matched in front of it is found, at its last byte and not before |
| `Misc.ForeignByteResets` | src/mjpg-streamer/mjpg-streamer-experimental/plugins/input_http/misc.c:45-58 | a byte that is not in the pattern leaves nothing matched, so an occurrence behind it is found |
| `Proxy.RunConcat` | src/mjpg-streamer/mjpg-streamer-experimental/plugins/input_http/mjpg-proxy.c:73-111 | feeding two pieces one after the other is feeding them joined: same state, same callbacks |
| `Proxy.ChunksDoNotMatter` | src/mjpg-streamer/mjpg-streamer-experimental/plugins/input_http/mjpg-proxy.c:73-111 | cutting the input into any chunks changes neither the callbacks nor the final state |
| `Proxy.HeaderEnds` | src/mjpg-streamer/mjpg-streamer-experimental/plugins/input_http/mjpg-proxy.c:77-90 | a header is left exactly at the first position where the mask test sees a blank line |
| `Proxy.Stuck` | src/mjpg-streamer/mjpg-streamer-experimental/plugins/input_http/mjpg-proxy.c:93-96 | once the buffer is full the extractor delivers nothing more, whatever comes |
| `Proxy.State.Init` | src/mjpg-streamer/mjpg-streamer-experimental/plugins/input_http/mjpg-proxy.c:51-59 | init_extractor_state brings the state struct to the initial parser state |
| `Proxy.State.Turn` | src/mjpg-streamer/mjpg-streamer-experimental/plugins/input_http/mjpg-proxy.c:76-107 | one turn of the loop over the state struct does to its parser state what one step of the specification does, and calls back with the image of that step |
| `Proxy.State.ExtractData` | src/mjpg-streamer/mjpg-streamer-experimental/plugins/input_http/mjpg-proxy.c:73-111 | extract_data leaves the state and makes the callbacks of running the specification over the bytes it has seen when should_stop is raised |
| `Stream.DecimalIsRead` | src/mjpg-streamer/mjpg-streamer-experimental/plugins/output_http/httpd.c:521-524 | %d of any int prints text that reads as that number, without superfluous zeros |
| `Stream.Decimal06IsRead` | src/mjpg-streamer/mjpg-streamer-experimental/plugins/output_http/httpd.c:521-524 | %06d prints text that reads as that number, six characters long, or the text of %d where that is longer |
| `Stream.HeadIsRead` | src/mjpg-streamer/mjpg-streamer-experimental/plugins/output_http/httpd.c:521-524 | whatever follows it, the printed header reads as a content type, the length of the frame behind Content-Length, and seconds and microseconds behind X-Timestamp |
| `Stream.PartIsRead` | src/mjpg-streamer/mjpg-streamer-experimental/plugins/output_http/httpd.c:521-533 | a frame of any bytes, boundaries inside included, is read back by its announced length, and reading goes on behind its boundary |
| `Stream.StreamIsRead` | src/mjpg-streamer/mjpg-streamer-experimental/plugins/output_http/httpd.c:480-534 | the stream, cut behind any write, is read back: every complete frame with its own length, times and data, none missing and none added |
| `Stream.PartHeadHits` | src/mjpg-streamer/mjpg-streamer-experimental/plugins/output_http/httpd.c:521-524 | whatever numbers are printed, negative ones included, a part header passes the mask test at its final blank line and nowhere before |
| `Stream.BoundaryFoundIff` | src/mjpg-streamer/mjpg-streamer-experimental/plugins/input_http/mjpg-proxy.c:98-99 | the matcher, which has no fallback, finds a boundary exactly when nothing is matched in front of it |
| `Stream.ContentOutcome` | src/mjpg-streamer/mjpg-streamer-experimental/plugins/input_http/mjpg-proxy.c:92-106 | from the start of a content, the extractor delivers what precedes the first completed boundary less 22 bytes, or runs full and falls silent |
| `Stream.PartOutcome` | src/mjpg-streamer/mjpg-streamer-experimental/plugins/output_http/httpd.c:521-533 | one printed part is delivered as sent and leaves the extractor in its initial state; else a shorter image comes first or the extractor falls silent for good |
| `Stream.StreamRoundTripIff` | src/mjpg-streamer/mjpg-streamer-experimental/plugins/output_http/httpd.c:480-534 | from just behind an opening boundary the extractor delivers exactly the frames printed, in order, if and only if in no frame the matcher completes the boundary and each frame plus 22 bytes fits the buffer |
| `Stream.SendStream` | src/mjpg-streamer/mjpg-streamer-experimental/plugins/output_http/httpd.c:480-534 | the loop stops at the first write that fails, and what it has sent is the writes that succeeded; a reader that goes by the format alone (`PartReader`) finds in it exactly the frames whose three writes succeeded, each with its own data, seconds and microseconds, and of the next one a head that announces its length and times, and its data if that was sent |
| `Stream.WritesAreParts` | src/mjpg-streamer/mjpg-streamer-experimental/plugins/output_http/httpd.c:521-533 | an opening boundary and the writes of all frames are the opening boundary and the parts, each up to its closing boundary |
| `Response.ResponseDelivers` | src/mjpg-streamer/mjpg-streamer-experimental/plugins/output_http/httpd.c:466-471 | from the first byte of the response as it is printed, followed by any number of the writes of the stream: the OK of the status line passes for a blank line, so the 294 bytes of head lines are delivered as a first image, and behind it exactly the frames completely written |
| `Response.HeadLinesText` | src/mjpg-streamer/mjpg-streamer-experimental/plugins/output_http/httpd.c:466-471 | the head lines behind the status line hold no boundary for the matcher and are 296 bytes long |
| `Response.WrittenIsDelivered` | src/mjpg-streamer/mjpg-streamer-experimental/plugins/output_http/httpd.c:480-534 | behind an opening boundary, after any number of writes the extractor has delivered exactly the frames completely written, each third write completing one |
| `Response.Receive` | src/mjpg-streamer/mjpg-streamer-experimental/plugins/input_http/mjpg-proxy.c:115-130 | passing the pieces recv returns to extract_data one by one makes the callbacks of one run over all the bytes |
| `Response.Relay` | src/mjpg-streamer/mjpg-streamer-experimental/plugins/output_http/httpd.c:480-534 | from send_stream to the callbacks: however many writes succeed and however the bytes are cut up on their way, the receiver is given exactly the frames completely written |
| `FrameExchange.StepInv` | src/mjpg-streamer/mjpg-streamer-experimental/plugins/input_uvc/input_uvc.c:767-804 | every step of the producer and of each consumer keeps the invariant: mutual exclusion, what the shared variables hold at each point of the publish section, and what each consumer knows |
| `FrameExchange.ExecInv` | src/mjpg-streamer/mjpg-streamer-experimental/plugins/output_http/httpd.c:480-510 | every interleaving of any length keeps the invariant |
| `FrameExchange.ExchangeIsSafe` | src/mjpg-streamer/mjpg-streamer-experimental/plugins/output_http/httpd.c:480-510 | in every interleaving each copy a consumer makes is one whole publication, bytes, size and timestamp together; publications seen never go back, and strictly advance whenever the wait was ended by a broadcast |
| `FrameExchange.SignalledIsBroadcast` | src/mjpg-streamer/mjpg-streamer-experimental/plugins/output_http/httpd.c:480-510 | a copy counts as signalled if and only if a broadcast lies between the wait in front of it and the end of that wait |
| `FrameExchange.SpuriousWakeRepeats` | src/mjpg-streamer/mjpg-streamer-experimental/plugins/output_http/httpd.c:480-510 | in every reachable state in which nobody holds the mutex, a wait that ends without a broadcast makes the consumer copy the newest publication once more, whatever it is, and leads to such a state again: the broadcast is what strict progress rests on |
| `FrameExchange.AdvanceIsBroadcasts` | src/mjpg-streamer/mjpg-streamer-experimental/plugins/output_http/httpd.c:480-510 | two copies a consumer makes one after the other differ by exactly as many publications as there were broadcasts between them, so they differ if and only if there was one |
| `EncoderCallback.FramesConserveData` | src/mjpg-streamer/mjpg-streamer-experimental/plugins/input_raspicam/input_raspicam.c:382-418 | cutting the fragments into frames loses no byte and moves none to another frame; each ending call ends one frame |
| `EncoderCallback.NoEmptyFrames` | src/mjpg-streamer/mjpg-streamer-experimental/plugins/input_raspicam/input_raspicam.c:382-418 | the count of empty frames is zero exactly when every frame has bytes |
| `EncoderCallback.Port.Callback` | src/mjpg-streamer/mjpg-streamer-experimental/plugins/input_raspicam/input_raspicam.c:373-458 | over every sequence of calls: the mutex is held between calls exactly when a fragment is waiting, each broadcast publishes the joined fragments of one frame with their total length, and the mutex is unlocked without being held exactly once for each frame of no bytes |
| `RaspicamExchange.FragmentsRun` | src/mjpg-streamer/mjpg-streamer-experimental/plugins/input_raspicam/input_raspicam.c:382-397 | the callbacks of a frame under way are steps of the exchange: between them the producer is inside its publish section, mutex held, exactly when a fragment is waiting, with exactly the waiting bytes copied |
| `RaspicamExchange.FrameIsPublished` | src/mjpg-streamer/mjpg-streamer-experimental/plugins/input_raspicam/input_raspicam.c:382-418 | the callbacks of one frame with any bytes are a run of the producer of the exchange that publishes the joined fragments, with the clock of the last call or the old time stamp |
| `Gpio.SelectIs` | src/GPIO/RPi4GPIO.cpp:57-60 | writing a pin mode sets the three bits of that pin and leaves those of every other pin in the register |
| `Gpio.SelectBits` | src/GPIO/RPi4GPIO.cpp:55-61 | a mode is written to bits 3k to 3k + 2 of the register, k the last digit of the pin, and to no others |
| `Gpio.WrittenIs` | src/GPIO/RPi4GPIO.cpp:65-71 | setting or clearing a pin changes the level of that pin and of no other |
| `Gpio.WrittenBits` | src/GPIO/RPi4GPIO.cpp:63-72 | a level is written to bit pin mod 32 of the latch and to no other |
| `Gpio.Registers.PinMode` | src/GPIO/RPi4GPIO.cpp:55-61 | register pin / 10 gets the mode in the bits of the pin: the pin has the three low bits of the mode asked for, all other pins the modes they had, and levels are as before |
| `Gpio.Registers.DigitalWrite` | src/GPIO/RPi4GPIO.cpp:63-72 | latch pin / 32 gets the level in the bit of the pin: the pin has the level asked for and all other pins the levels they had |
| `I2c.ShiftedBit` | src/I2C/RPi4I2C.cpp:94-99 | the test (data << i) & 0x80 looks at bit 7 - i of the byte |
| `I2c.Driver.SendStart` | src/I2C/RPi4I2C.cpp:42-52 | from an idle bus the wires show one START and nothing else |
| `I2c.Driver.SendStop` | src/I2C/RPi4I2C.cpp:54-62 | from a busy bus the wires show the rising clock, which looks like one more low bit, and then one STOP; the bus is idle again |
| `I2c.Driver.SendNack` | src/I2C/RPi4I2C.cpp:64-74 | the wires show one high bit |
| `I2c.Driver.Write` | src/I2C/RPi4I2C.cpp:90-119 | the wires show the eight bits of the byte, most significant first, and the bit the slave answers; SDA never changes while SCL is high; the result is 1 exactly for a low answer |
| `I2c.Driver.Read` | src/I2C/RPi4I2C.cpp:121-140 | the wires show eight bits driven by the slave, and the result is the byte they stand for |
| `CameraBus.HearOctet` | src/I2C/RPi4I2C.cpp:90-119 | a slave that hears nine bits after a START takes the first eight for an octet and the ninth for its acknowledgement |
| `CameraBus.Camera.WrSensorReg16_8` | src/camera/Camera.cpp:554-591 | for every pattern of answers the slave hears one transaction, from START to STOP, with the address, the two register bytes and the value, cut behind the first octet it does not acknowledge; the result is 1 exactly when all four were acknowledged; the bus is idle again |
| `CameraBus.Camera.RdSensorReg16_8` | src/camera/Camera.cpp:615-661 | the slave hears a write of the register address and, if that was acknowledged, a second transaction with the read address, one octet it drives and a NACK; each START is closed by a STOP. For every device whose register pointer is set by the two octets behind address 78 (hex), high byte first: if it acknowledges what is sent to it the call returns 1, and if the octet it drives is the register under its pointer, a call that returns 1 returns register reg mod 65536 |
| `CameraBus.WrSensorRegs16_8` | src/camera/Camera.cpp:593-613 | the slave hears the transactions of the entries in order up to and including the first sentinel, whatever it answers; the result is 1 exactly when everything was acknowledged |
| `CameraBus.WriteObeyed` | src/camera/Camera.cpp:554-591 | a device that hears an acknowledged register write has that register changed, to val mod 256, and no other |
| `CameraBus.ReadIsRegister` | src/camera/Camera.cpp:615-661 | what such a device puts on the wire at an acknowledged read is the register named |
| `CameraBus.ReadIsAcked` | src/camera/Camera.cpp:615-661 | a device that acknowledges its addresses and what follows them acknowledges a read |
| `CameraBus.ReadAfterWrite` | src/camera/Camera.cpp:554-661 | reading a register behind an acknowledged write of val to it gives val mod 256 |
| `CameraBus.ListObeyed` | src/camera/Camera.cpp:593-613 | with everything acknowledged the registers of the device are those of writing the list, sentinel included, entry after entry, the last writer of a register winning |
| `CameraBus.WriteSensor` | src/camera/Camera.cpp:593-613 | when the call returns 1, the device fed with what the slave heard during it holds the list up to its sentinel, the last writer of a register winning |
| `BufferedRead.Connection.Read` | src/mjpg-streamer/mjpg-streamer-experimental/plugins/output_http/httpd.c:114-162 | over any arrivals: bytes handed out followed by the bytes still in the buffer are always the bytes the socket has delivered; what is handed out stands at the front of the destination, zeros behind it; no arrival is fetched without need; a call ends with everything asked for, or with the buffer empty at a timeout, at an error (-1) or at the end of the arrivals |
| `BufferedRead.DataOfConcat` | src/mjpg-streamer/mjpg-streamer-experimental/plugins/output_http/httpd.c:144-158 | what arrives in two stretches is what arrives in both, so the bytes of a run are those of its arrivals |
| `BufferedRead.Connection.Fetch` | src/mjpg-streamer/mjpg-streamer-experimental/plugins/output_http/httpd.c:136-158 | one wait and one read: a timeout and a closed or failed connection leave nothing in the buffer; data is moved to its end and is then what is still to be handed out |
| `BufferedRead.Connection.ReadLine` | src/mjpg-streamer/mjpg-streamer-experimental/plugins/output_http/httpd.c:181-197 | a successful call returns the bytes still buffered and those of the arrivals it fetched, up to and including the first LF, or `len` bytes when there is none among them; on failure the bytes taken, fewer than `len` and without LF, stand in the destination and count as handed out |
| `BufferedRead.LineIs` | src/mjpg-streamer/mjpg-streamer-experimental/plugins/output_http/httpd.c:188-194 | a prefix of a stream that is ended by LF, or has the full length, without an LF before, is the line of that stream |
| `Base64.CountsIs` | src/mjpg-streamer/mjpg-streamer-experimental/plugins/output_http/httpd.c:217-230 | the characters not passed over are those of the alphabet of RFC 4648, section 4, and padding |
| `Base64.CodeIs` | src/mjpg-streamer/mjpg-streamer-experimental/plugins/output_http/httpd.c:217-230 | the value of a character is its place in that alphabet, 0 for padding, and -1 exactly for all others |
| `Base64.DecodeEncode` | src/mjpg-streamer/mjpg-streamer-experimental/plugins/output_http/httpd.c:207-242 | decoding the encoding of RFC 4648, section 4, of any bytes gives the bytes and one zero byte for each padding character |
| `Base64.DecodeInvertsEncode` | src/mjpg-streamer/mjpg-streamer-experimental/plugins/output_http/httpd.c:207-242 | ... also with any characters interspersed that are neither in the alphabet nor padding |
| `Base64.ShiftInSix` | src/mjpg-streamer/mjpg-streamer-experimental/plugins/output_http/httpd.c:229 | `(ch << 6) | t` appends six bits to the ones that count, whatever stale bits stand above them in the 32-bit word |
| `Base64.LowBytes` | src/mjpg-streamer/mjpg-streamer-experimental/plugins/output_http/httpd.c:232-234 | the three casts to char pick the three bytes of the low 24 bits |
| `Base64.DecodeBase64` | src/mjpg-streamer/mjpg-streamer-experimental/plugins/output_http/httpd.c:207-242 | in place: the buffer then holds the decoding, a zero byte and, behind it, what it held before; the write position never passes the read position |
| `Unescape.HexIs` | src/mjpg-streamer/mjpg-streamer-experimental/plugins/output_http/httpd.c:249-260 | the digits 0-9, a-f and A-F have their values, and no other byte has one |
| `Unescape.DecodedIffWellFormed` | src/mjpg-streamer/mjpg-streamer-experimental/plugins/output_http/httpd.c:268-306 | decoding succeeds exactly when every percent sign, wherever it stands, is followed by two hexadecimal digits |
| `Unescape.MalformedAt` | src/mjpg-streamer/mjpg-streamer-experimental/plugins/output_http/httpd.c:283-291 | a failure is reported at the first bad percent sign, everything before it decoded |
| `Unescape.DecodesExactlyEncodings` | src/mjpg-streamer/mjpg-streamer-experimental/plugins/output_http/httpd.c:268-306 | the result is b exactly on the percent-encodings of b (RFC 3986, section 2.1), with digits of either case and any byte but the percent sign left plain |
| `Unescape.DecodeInvertsEncode` | src/mjpg-streamer/mjpg-streamer-experimental/plugins/output_http/httpd.c:268-306 | in particular decoding inverts every encoder, whatever set of plain bytes it uses |
| `Unescape.UnescapeInPlace` | src/mjpg-streamer/mjpg-streamer-experimental/plugins/output_http/httpd.c:268-306 | in place: returns 0 exactly for well-formed strings and then leaves the decoding, a zero byte and the old bytes behind it; on failure the decoded part stands in front and everything behind the bad percent sign is untouched; nothing behind the terminating zero byte is read |
| `StandardTables.DecoderReadsStandardTables` | src/mjpg-streamer/mjpg-streamer-experimental/plugins/input_uvc/huffman.h:26-62 | the segment to be inserted is accepted by the autofocus decoder's DHT loop, fills all four of its slots, and every one of its tables has room for all its codes |
| `HuffmanInsertion.ThreeOutcomes` | src/mjpg-streamer/mjpg-streamer-experimental/plugins/input_uvc/v4l2uvc.c:585-606 | what comes out is the picture unchanged, or nothing, or the picture with the table immediately before its first SOF0 marker, each exactly in its case |
| `HuffmanInsertion.SecondPass` | src/mjpg-streamer/mjpg-streamer-experimental/plugins/input_uvc/v4l2uvc.c:585-606 | after an insertion a second pass over the output changes nothing if and only if the first SOF0 starts at offset 2048 or before and no SOS marker starts before it |
| `HuffmanInsertion.SecondPassUnchanged` | src/mjpg-streamer/mjpg-streamer-experimental/plugins/input_uvc/v4l2uvc.c:585-606 | a picture left alone because of a table inside it is left alone again |
| `HuffmanInsertion.Sof0FromIsFirst` | src/mjpg-streamer/mjpg-streamer-experimental/plugins/input_uvc/v4l2uvc.c:593-596 | the search stops at the first SOF0 marker that starts inside the picture, or at its end |
| `HuffmanInsertion.IsHuffman` | src/mjpg-streamer/mjpg-streamer-experimental/plugins/input_uvc/v4l2uvc.c:565-578 | true exactly when a DHT marker starts in the first 2049 bytes with no SOS marker before it |
| `HuffmanInsertion.MemCpyPicture` | src/mjpg-streamer/mjpg-streamer-experimental/plugins/input_uvc/v4l2uvc.c:585-606 | the output buffer then starts with that outcome, whose length is returned, and is unchanged behind it |
| `Destination.Manager.EmptyOutputBuffer` | src/mjpg-streamer/mjpg-streamer-experimental/plugins/input_uvc/jpeg_utils.c:74-86 | flushing keeps the bytes flushed followed by the bytes staged equal to the bytes emitted, and touches nothing behind the bytes written |
| `Destination.Manager.Emit` | src/mjpg-streamer/mjpg-streamer-experimental/plugins/input_uvc/jpeg_utils.c:74-86 | every byte the compressor emits is appended to what was emitted, through any number of flushes |
| `Destination.Manager.TermDestination` | src/mjpg-streamer/mjpg-streamer-experimental/plugins/input_uvc/jpeg_utils.c:94-103 | afterwards the first `written` bytes of the output buffer are everything emitted |
| `Destination.CompressInto` | src/mjpg-streamer/mjpg-streamer-experimental/plugins/input_uvc/jpeg_utils.c:56-103 | whatever sequence a compressor emits stands at the start of the output buffer, which needs room for no more than it and is unchanged behind it |
| `Pixels.PictureConcat` | src/mjpg-streamer/mjpg-streamer-experimental/plugins/input_uvc/jpeg_utils.c:168-202 | converting lines one after the other is converting the pixels of the frame in one run, also when a line ends inside a macropixel |
| `Pixels.SwappedFormats` | src/mjpg-streamer/mjpg-streamer-experimental/plugins/input_uvc/jpeg_utils.c:226-258 | the UYVY loop on the byte-swapped frame gives what the YUYV loop gives on the frame |
| `Pixels.UnpackPacked` | src/mjpg-streamer/mjpg-streamer-experimental/plugins/input_uvc/jpeg_utils.c:217-219 | the RGB565 loop keeps exactly the 5, 6 and 5 bits that packing kept |
| `Pixels.Masks` | src/mjpg-streamer/mjpg-streamer-experimental/plugins/input_uvc/jpeg_utils.c:217-219 | the three masks of the RGB565 loop select five, five and six bits |
| `Pixels.CloseToJfif` | src/mjpg-streamer/mjpg-streamer-experimental/plugins/input_uvc/jpeg_utils.c:186-188 | the fixed-point conversion differs from that of JFIF by at most 1.2 before clamping |
| `Pixels.PixelMeans` | src/mjpg-streamer/mjpg-streamer-experimental/plugins/input_uvc/jpeg_utils.c:175-253 | pixel k of a YUYV frame is the three bytes nearest to values within 1.2 of JFIF's R, G and B, in this order, of Y = f[2k], Cb = f[4(k/2) + 1] and Cr = f[4(k/2) + 3]; for UYVY of Y = f[2k + 1], Cb = f[4(k/2)] and Cr = f[4(k/2) + 2]; for RGB565 the fields of five, six and five bits of the word f[2k] + 256 f[2k + 1] |
| `Pixels.PictureMeans` | src/mjpg-streamer/mjpg-streamer-experimental/plugins/input_uvc/jpeg_utils.c:168-259 | in a run of pixels, components 3k, 3k + 1 and 3k + 2 are those of pixel k |
| `Pixels.ConvertLine` | src/mjpg-streamer/mjpg-streamer-experimental/plugins/input_uvc/jpeg_utils.c:175-198 | one line is the conversion of the next `width` pixels, pixel k from the bytes and to the components that `PixelMeans` names; `z` and the position carry over to the next line |
| `Pixels.ConvertFrame` | src/mjpg-streamer/mjpg-streamer-experimental/plugins/input_uvc/jpeg_utils.c:168-259 | the lines handed to the compressor, joined, hold in components 3k, 3k + 1 and 3k + 2 the red, green and blue of pixel k of the frame, near JFIF's as `PixelMeans` says, for every width and height, odd ones included; reads stay below the extent of the frame, 2 * width * height bytes when that many pixels are even |
| `RingBuffer.NamesSortIff` | src/mjpg-streamer/mjpg-streamer-experimental/plugins/output_file/output_file.c:259-268 | two pictures of a run, the clock not going back between them, sort in creation order if and only if the second has a later time stamp, or the first number is at most the second cut down to as many digits |
| `RingBuffer.WithoutIsDivision` | src/mjpg-streamer/mjpg-streamer-experimental/plugins/output_file/output_file.c:259-266 | cutting k digits off a number is dividing it by 10^k |
| `RingBuffer.NamesSortByCreation` | src/mjpg-streamer/mjpg-streamer-experimental/plugins/output_file/output_file.c:259-268 | so with fewer than 10^9 pictures the names of a run sort in the order of their creation |
| `RingBuffer.NinthDigitOverflows` | src/mjpg-streamer/mjpg-streamer-experimental/plugins/output_file/output_file.c:259-268 | within one second the picture number 10^9 sorts before the one number 10^9 - 1 |
| `PictureScan.NamesPass` | src/mjpg-streamer/mjpg-streamer-experimental/plugins/output_file/output_file.c:112-145 | check_for_filename accepts every name the worker makes, and scans out of it year, month, day, hour, minute and second of its time stamp and the counter, or the first nine digits of one that has more |
| `RingBuffer.CleanOne` | src/mjpg-streamer/mjpg-streamer-experimental/plugins/output_file/output_file.c:174-189 | deleting the next name of the listing leaves the names that could not be deleted, followed by the rest of the listing |
| `RingBuffer.CutKeepsNewest` | src/mjpg-streamer/mjpg-streamer-experimental/plugins/output_file/output_file.c:174-189 | deleting the first names of the sorted directory keeps it true that what is left of the run's own pictures are the newest |
| `RingBuffer.SinceCleanUp` | src/mjpg-streamer/mjpg-streamer-experimental/plugins/output_file/output_file.c:319-325 | a picture taken since the last multiple of ringbuffer_exceed + 1 is still there |
| `RingBuffer.Worker.MaintainRingbuffer` | src/mjpg-streamer/mjpg-streamer-experimental/plugins/output_file/output_file.c:153-196 | deletes the first n - size names in alphabetical order, except those that cannot be deleted, and keeps the rest; each entry of the listing is freed exactly once; nothing happens for a negative size |
| `RingBuffer.Worker.TakePicture` | src/mjpg-streamer/mjpg-streamer-experimental/plugins/output_file/output_file.c:245-325 | one turn of the worker: the new state of the directory in every case, with a clean-up at the first picture, at every multiple of exceed + 1, or each time when exceed is not positive; at most size plus the pictures since the last clean-up remain |
| `RingBuffer.Record` | src/mjpg-streamer/mjpg-streamer-experimental/plugins/output_file/output_file.c:211-347 | over every run: the exact directory, which is each picture inserted by name and the first names cut off down to size when a clean-up is due; after each picture at most size + max(exceed, 0) remain, none taken since the last clean-up is missing, and of the pictures the run wrote those left are the newest |
| `PanTilt.RequestMeans` | src/mjpg-streamer/mjpg-streamer-experimental/plugins/input_control/dynctrl.c:192-219 | the two control structs of a move, ids and values, move the motor by the pan and the negated tilt asked for, wherever it stands; the single struct of a reset brings it to its origin |
| `PanTilt.StepsMove` | src/mjpg-streamer/mjpg-streamer-experimental/plugins/input_control/input_uvc.c:288-391 | with a valid account and a move that succeeds, each of the four commands moves the motor by exactly min_res on its own axis and in its own direction (tilt negated) when that stays within 70 or 30 degrees; otherwise it sends nothing, and the other axis stays where it is |
| `PanTilt.FirstResets` | src/mjpg-streamer/mjpg-streamer-experimental/plugins/input_control/input_uvc.c:263-268 | without a valid account every moving command first brings motor and account to the origin, and then does what it does from there |
| `PanTilt.ReportsDegrees` | src/mjpg-streamer/mjpg-streamer-experimental/plugins/input_control/input_uvc.c:276-391 | the result of every moving command that gets its reset is the position of its axis in whole degrees of 64 units, rounded toward zero |
| `PanTilt.StepInv` | src/mjpg-streamer/mjpg-streamer-experimental/plugins/input_control/input_uvc.c:232-401 | every command keeps the account right: stored pan and negated stored tilt are where the motor stands plus the moves that failed unnoticed since the last reset, both within 70 and 30 degrees, valid exactly once a reset has succeeded |
| `PanTilt.Controller.InputCmd` | src/mjpg-streamer/mjpg-streamer-experimental/plugins/input_control/input_uvc.c:232-401 | account, device calls and result are exactly those of one step of the specification, and the mutex is left as it was found |
| `PanTilt.Serve` | src/mjpg-streamer/mjpg-streamer-experimental/plugins/input_control/input_uvc.c:232-401 | over every sequence of commands on a fresh plugin, account, device calls and all results are exactly those of folding that step over the commands |
| `PanTilt.DeadReckoning` | src/mjpg-streamer/mjpg-streamer-experimental/plugins/input_control/input_uvc.c:232-401 | over every run the motor stands where the plugin thinks (tilt negated) if and only if the moves that failed unnoticed cancel out; in particular whenever moves succeed |
| `PanTilt.NothingMissed` | src/mjpg-streamer/mjpg-streamer-experimental/plugins/input_control/input_uvc.c:280-283 | if no move failed since the last reset, the moves that failed add up to nothing |
| `PanTilt.MinusOneMeans` | src/mjpg-streamer/mjpg-streamer-experimental/plugins/input_control/input_uvc.c:240-401 | a command returns -1 if and only if it is unknown, or needs a reset that is refused, or leaves its axis between one and two degrees below zero |
| `PanTilt.MinusOneDegree` | src/mjpg-streamer/mjpg-streamer-experimental/plugins/input_control/input_uvc.c:259-286 | the last case is reachable: setting pan to -1 on a fresh plugin succeeds and returns -1 |
| `PanTilt.SetReachesNearest` | src/mjpg-streamer/mjpg-streamer-experimental/plugins/input_control/input_uvc.c:259-286 | setting pan or tilt reaches the point of its range nearest to what is asked for, leaves the other axis alone, and setting it again sends nothing more |

## Left out

- BufferedRead.Connection.Read: ends the process when `select` fails in the source; here an arrival is a timeout, a close, a failed read or data.
- BufferedRead.Connection.ReadByte: after `read` has failed the level of the buffer is -1 and it must not be read again; this is a precondition.
- ScanReader.Reader.ReadTable: keeps the predictor as an unbounded integer; an overflow of the running sum, which C leaves undefined, is not modelled.
- ScanReader.Reader.Scan: keeps the blocks it decodes in a list instead of adding them to floating-point sums; the count of units, which comes from floating-point arithmetic, is a parameter.
- HuffmanInsertion.MemCpyPicture: takes the table as an argument; `StandardTables.DhtData` is the one of huffman.h (`HuffmanInsertion.DhtDataIsDht`).
- RingBuffer.Worker.TakePicture: takes time stamp and outcome of opening, writing and deleting as arguments; link files, the command hook and recording to one file are not modelled, and neither is the wrap of the 64-bit counter.
- RingBuffer.NamesSortByCreation: compares local times; a change to winter time counts as a clock that goes back.
- PanTilt.Controller.InputCmd: multiplies degrees without overflow.
- Destination.CompressInto: models libjpeg as a producer of bytes that calls the three callbacks as its documentation says.
- CameraBus.Camera.RdSensorReg16_8: the slave answers when it is clocked and never stretches the clock; a second master is not modelled.
- PictureScan.CheckForFilename: sscanf on names without blanks and signs, which it would skip or take; its `0` flag, which C does not define for reading, is ignored; numbers do not overflow.
- The parsing of markers other than DHT, the frame header and quantisation tables, and the sharpness weights of getFrameSharpnessValue.
- Growing a frame buffer with realloc, and every other failure of allocation.
- Sockets, select, files, ioctl, mmap, signals, threads' start-up and delays; they are arguments or absent.
- send_snapshot and send_stream_wxp: the same exchange and simpler printing.
- sendACK, the 8-bit register variants and the register tables of the sensor, which add only easier members.
- HTTP request dispatch, CGI, JSON, command lines and help texts: long but shallow branching.
- MMAL, gphoto2, OpenCV, SDL, ZeroMQ and protobuf internals.
