# Verified models of the no-OS support components

no-OS is a collection of bare-metal drivers and of the support code they share. This project
models the parts of that support code with the most intricate logic and proves what they
promise:

* **The byte ring** (`util/circular_buffer.c`): one writer and one reader, an index and a lap
  counter modulo 2^32 for each, two-phase transactions for DMA, resynchronisation after an
  overrun. It refines an unbounded byte stream: `CircularBuffer` holds the descriptor as a
  value with one function per API call, `CircularBufferObject` the descriptor updated in
  place, `CircularBufferSharing` every interleaving of the two sides, `CircularBufferTearing`
  the end of a write interrupted between its stores, `CircularBufferMissed` what is read after
  an overrun that went unreported.
* **The ESP8266 AT parser** (`network/wifi/at_parser.c`): `MessageMatcher` is the streaming
  matcher, `AtParser` the interrupt-driven state machine that takes one UART byte per step,
  `AtReceiver` the descriptor it updates, `AtDemultiplexer` the theorem that response text
  and `+IPD` payload come apart exactly, `AtResponses` the prompt, a full buffer
  and literals, and `CommandText` the command encoder with a reader that inverts it.
* **Its users**: the socket and connection tables of `network/wifi/wifi.c`
  (`ConnectionTable`, `ConnectionEffects`, `ConnectionOwnership`, `ConnectionFailures`,
  `ConnectionExamples`, `WifiDescriptor`), the way of the payload into the sockets
  (`WifiDelivery`), and the round-robin client scheduler of `iio/iio.c` (`SocketScheduler`, `IioSockets`), whose queue lives in a byte ring.
* **The doubly linked list** (`util/list.c`): `LinkedList` has the heap nodes, `ListIterator`
  the cursors, `ListAdapters` stack, queue and priority list with their runs.
* **The SD block layer** (`drivers/sd-card/sd.c`): `SdCard` is the block arithmetic and the
  meaning of a write, `SdDriver` the driver over an abstract card whose transfers may fail on
  any schedule.
* **The CRC family** (`util/crc8.c`, `util/crc16.c`, `util/crc24.c`,
  `legacy/ad5758-sdz/ad5758.c`): `Gf2` is polynomial division and the shift register,
  `CrcMessage` what a CRC is and detects, `Crc` the table-driven and bit-serial code. Machine
  words are bit strings there, most significant bit first.
* **The MMCM clock generator** (`legacy/adum7701_fmc/clkgen_core.c`): `ClockGenerator` is the
  parameter search, `ClockLimits` the search against the limits of the hardware alone,
  `ClockRegisters` the packed registers, `ClockTables` the
  lock and filter settings.

`dafny verify dfyconfig.toml` checks everything.

## Where the code departs from its comments

The models follow the code. What follows from that is proved:

* `cb_size` misses an overrun when the writer is two or more laps ahead and its index is not
  above the reader's (`OverrunMissedIff`, `MissedOverrunExample`); for buffers above 2^31
  bytes the 32-bit sum wraps and misses more. Every report is genuine all the same
  (`OverrunGenuine`).
* `cb_read` then repeats bytes with success (`DoubleDelivery`); `ReadAllNewest` and `RunHolds`
  say which bytes are delivered in every case.
* "Thread safe for one write and one reader" holds with each API call atomic. The end of a
  write stores the lap counter before the index, and a read that comes in between is misled
  exactly under the condition of `TornReadIff`: bytes are dropped (`FalseOverrun`) or
  delivered again (`StaleBytes`). Finer runs without such a read deliver the stream
  (`FineRunDelivers`). A `cb_size` interrupted between its own loads is wrong exactly under
  the condition of `SplitLoadIff`.
* The frame header accepts the connection id 4, for which there is no table entry
  (`FrameInTableIff`, `IdFourLeavesTable`).
* Several results are stored in a `uint32_t` before `IS_ERR_VALUE`, which then never holds:
  a busy ring in `start_conn_read`, a full connection table and failed AT commands in
  `wifi_socket_connect` and `wifi_socket_disconnect` go unnoticed. The models have no error
  path there, except that a busy ring leads to `outside` (`BusyRingIff`, `BusyRingMet`).
* `wifi_socket_connect` accepts a socket that waits to be accepted, `wifi_socket_bind` one that
  is in use, and `wifi_socket_listen` a server that was closed. These are the improper calls:
  `StepInvIff` says that they are exactly the ones that break the invariant of the model, and
  `ProperIff` that, where every connected socket owns its connection, they are exactly the ones
  after which calls in order can find a connection with a wrong socket or not return.
  `ConnectedTwice`, `BoundWhileConnected` and `ListenedAfterClose` are such runs.
* A connect with all connections taken succeeds all the same and keeps an old connection id;
  undoing it takes the connection away from another socket (`ConnectionLost`). Without such
  a connect the two tables are inverse to each other in every run (`RunInverse`).
* `iterator_get` leaves no current element after removing the last one; the comment promises
  the previous one (`ListIterator.Iterator.Get`, `CursorLost`).
* The distance of a candidate frequency is unsigned, so candidates below the wanted rate never
  win (`WinsExactly`). `NearestIff` says exactly when the nearest one is chosen all the same,
  `NearestPassedOver` and `NothingThoughVisited` are inputs where it is not.
* The product of two rounded-up bounds leaves legal pairs out of the search. `ScannedIff` says
  which, `BestOfLegalIff` when that matters, and `LegalPassedOver` is an input where it does.
* The second output is set to four times the divider, which fits its counter only up to 31
  (`FourfoldIff`, `ReadsBackWrong`).
* Output dividers 127 and 128 read back as 63 and 1 (`DecodeHighLow`, `ReadBackExact`), so that
  4.77 MHz can read back as 610 MHz (`WrongRateRead`, `ReadsBackWrong`).
* `sd_write` ignores the result of its prefetch reads; it succeeds whenever nothing fails from
  the write command on, whatever failed before (`SdDesc.SdWrite`). `BuffersIrrelevantIff` says exactly for
  which ranges that cannot matter, `FailedPrefetchUnnoticed` is a run where it does.
* The command buffer of 120 bytes was sized without the backslashes of escaped characters;
  `AccessPointFitsIff` says exactly which strings fit, `CommasOverflow` shows two that do not.
* The client queue holds four pointers and nothing stops a fifth: a pop
  is right exactly with at most four queued (`PopRightIff`, `FiveClients`).
* The comment of `crc24_populate_msb` maps x^24 to the most significant bit; the code maps
  x^23 there and implies x^24. Burst detection needs an odd polynomial, and only that
  (`DetectsBurstsIff`).

## Model

| member | source | states |
|---|---|---|
| `CircularBuffer.InitRep` | util/circular_buffer.c:105-126 | a new ring stands for the empty stream, for every size from 1 to 2^32 - 1 |
| `CircularBuffer.NbSpinsIsGap` | util/circular_buffer.c:163-168 | the computed lap difference is the true lap difference modulo 2^32, whether or not a counter has wrapped |
| `CircularBuffer.UnreadByGap` | util/circular_buffer.c:170-173 | unread bytes = laps apart * size + write index - read index, and what each lap difference implies about the indices |
| `CircularBuffer.SizeExact` | util/circular_buffer.c:156-181 | while unread data fits the buffer, cb_size succeeds with the exact unread count |
| `CircularBuffer.OverrunReportedIff` | util/circular_buffer.c:163-178 | -EOVERRUN is returned if and only if a condition on lap difference, indices and size holds (uint32_t wrap-around included) |
| `CircularBuffer.OverrunGenuine` | util/circular_buffer.c:175-178 | every report is genuine: more than size bytes are unread and the writer is at least a lap ahead |
| `CircularBuffer.OverrunMissedIff` | util/circular_buffer.c:163-178 | exactly which overruns go unreported, while fewer than 2^32 laps separate the sides |
| `CircularBuffer.OverrunDetected` | util/circular_buffer.c:163-178 | with at most one lap between the sides and size <= 2^31, reported if and only if more than size bytes are unread |
| `CircularBuffer.PrepareWriteRep` | util/circular_buffer.c:187-233 | preparing a write keeps the stream and hands out a region inside the memory |
| `CircularBuffer.StoreRep` | util/circular_buffer.c:301 | filling any part of the region in flight disturbs no byte still promised to the reader |
| `CircularBuffer.EndWriteRep` | util/circular_buffer.c:239-267 | ending a write appends exactly the bytes found in the region to the stream |
| `CircularBuffer.PrepareReadRep` | util/circular_buffer.c:187-233 | preparing a read keeps the stream; on a report the reader moves to the oldest surviving byte; -EAGAIN exactly when nothing can be read |
| `CircularBuffer.AvailableAtMostUnread` | util/circular_buffer.c:156-181 | cb_size never promises more than is unread, reported or missed overruns included |
| `CircularBuffer.EndReadRep` | util/circular_buffer.c:239-267 | ending a read advances the reader by the region it held |
| `CircularBuffer.RegionsDisjoint` | util/circular_buffer.c:93-97 | while unread plus in-flight bytes fit, the two raw regions share no index and the read region holds completed bytes in stream order |
| `CircularBuffer.WriteAllRep` | util/circular_buffer.c:273-312 | cb_write appends all its bytes to the stream, also past the buffer size |
| `CircularBuffer.ReadChunk` | util/circular_buffer.c:288-306 | one turn of the read loop delivers the next bytes of the stream and keeps the representation |
| `CircularBuffer.ReadAllInOrder` | util/circular_buffer.c:273-312 | cb_read within the unread data returns it byte for byte in order |
| `CircularBuffer.ReadAllAfterOverrun` | util/circular_buffer.c:208-312 | after a report, cb_read returns the most recent size bytes, oldest first, with -EOVERRUN |
| `CircularBuffer.ReadPastEnd` | util/circular_buffer.c:289-294 | a cb_read of more than is unread would wait |
| `CircularBuffer.PrepareWriteExact` | util/circular_buffer.c:187-233 | a write gets all it asks for up to the end of the memory; while one is open the next is refused with -EBUSY and changes nothing |
| `CircularBuffer.PrepareReadExact` | util/circular_buffer.c:187-233 | a read gets all it asks for up to what is available and to the end of the memory; -EBUSY and -EAGAIN exactly |
| `CircularBuffer.EndExact` | util/circular_buffer.c:239-267 | ending a transaction that is not open fails and changes nothing |
| `CircularBufferMissed.MissedOverrunExample` | util/circular_buffer.c:170-178 | two bytes written to a one-byte buffer: an overrun that cb_size does not see |
| `CircularBufferMissed.NewestIndex` | util/circular_buffer.c:257-262 | the newest position sharing an index with a position: congruent to it, and itself while less than a lap old |
| `CircularBufferMissed.RegionIndex` | util/circular_buffer.c:222-230 | only bytes in the region of a write in progress can have been overwritten by it |
| `CircularBufferMissed.RegionNewest` | util/circular_buffer.c:187-233 | the region of a read in progress holds at each position the newest committed byte of that index, or what a write in progress has put there |
| `CircularBufferMissed.ChunkNewest` | util/circular_buffer.c:288-306 | one turn of the read loop delivers exactly that, reported or missed overruns alike |
| `CircularBufferMissed.ReadAllNewest` | util/circular_buffer.c:273-312 | so does a whole cb_read, also when it resynchronises in the middle |
| `CircularBufferMissed.RunRep` | util/circular_buffer.c:187-312 | every run of both sides, within capacity or not, keeps the ring standing for the committed stream |
| `CircularBufferMissed.RunHolds` | util/circular_buffer.c:187-312 | in every run from an empty ring, however much it is overrun, a reader copies the newest committed byte of each place, or the write in progress |
| `CircularBufferMissed.DoubleDelivery` | util/circular_buffer.c:170-178 | two bytes written to a one-byte ring: two reads succeed and both return the second byte |
| `CircularBufferTearing.HalvesAreEnd` | util/circular_buffer.c:256-264 | the stores of cb_end_async_write, split after the lap counter, compose to the whole call |
| `CircularBufferTearing.TornSize` | util/circular_buffer.c:163-178 | what cb_size returns between the two stores, in every case |
| `CircularBufferTearing.TornSizeIff` | util/circular_buffer.c:257-262 | between the two stores cb_size is right if and only if the write does not reach the end of the buffer or the reader is on an earlier lap |
| `CircularBufferTearing.TornReadIff` | util/circular_buffer.c:208-232 | a read prepared there is right for every requested size under the same condition |
| `CircularBufferTearing.SplitLoadIff` | util/circular_buffer.c:163-173 | a cb_size interrupted between its loads by the end of a write returns the count of before or after if and only if the write does not reach the end of the buffer or fills it whole |
| `CircularBufferTearing.WrapsOnSameLap` | util/circular_buffer.c:257-262 | within capacity a write reaches the end of the buffer only with the reader on the same lap |
| `CircularBufferTearing.MisleadingIff` | util/circular_buffer.c:257-262 | within capacity the stored counters mislead exactly while the end of such a write is unfinished |
| `CircularBufferTearing.StepSimulated` | util/circular_buffer.c:187-267 | every step of the split operations that starts no misled read is the atomic step, or none |
| `CircularBufferTearing.FineRunDelivers` | util/circular_buffer.c:93-97 | every interleaving of the split operations within capacity that starts no read while misleading delivers the committed stream in order |
| `CircularBufferTearing.FalseOverrun` | util/circular_buffer.c:208-214 | from an empty ring of two: a read between the stores reports an overrun and the first byte is never delivered |
| `CircularBufferTearing.StaleBytes` | util/circular_buffer.c:170-178 | from an empty ring of two: with everything read, two bytes are offered and one old byte is delivered again |
| `CircularBufferTearing.SplitLoadOverrun` | util/circular_buffer.c:163-178 | from an empty ring of two: an empty ring reports an overrun |
| `CircularBufferSharing.StepSound` | util/circular_buffer.c:187-312 | each atomic cb_write, cb_read, prepare, copy or end step of either side keeps: stream represented, capacity kept, delivered bytes a prefix of the committed ones |
| `CircularBufferSharing.RunSound` | util/circular_buffer.c:187-312 | the same for every interleaving of steps |
| `CircularBufferSharing.RunDelivers` | util/circular_buffer.c:93-97 | in every interleaving of blocking and asynchronous calls, each atomic, from an empty ring that stays within capacity, of any length: in-order delivery, exact cb_size, disjoint regions, only completed bytes copied |
| `CircularBufferObject.Buffer.constructor` | util/circular_buffer.c:105-126 | the descriptor starts as an empty ring with an empty stream |
| `CircularBufferObject.Buffer.Create` | util/circular_buffer.c:105-126 | cb_init refuses size 0 and else creates an empty ring |
| `CircularBufferObject.Buffer.Size` | util/circular_buffer.c:156-181 | computes cb_size; exact while unread data fits |
| `CircularBufferObject.Buffer.PrepareAsyncWrite` | util/circular_buffer.c:187-233 | the new descriptor and the region handed out; -EBUSY changes nothing |
| `CircularBufferObject.Buffer.PrepareAsyncRead` | util/circular_buffer.c:187-233 | the same for reads, with the resynchronised reader position after an overrun |
| `CircularBufferObject.Buffer.EndAsyncWrite` | util/circular_buffer.c:239-267 | the region joins the stream; FAILURE without a transaction |
| `CircularBufferObject.Buffer.EndAsyncRead` | util/circular_buffer.c:239-267 | the reader advances by its region; FAILURE without a transaction |
| `CircularBufferObject.Buffer.Ended` | util/circular_buffer.c:256-264 | index and lap counter after a transaction |
| `CircularBufferObject.Buffer.Fill` | util/circular_buffer.c:299-301 | a raw copy into the region in flight; nothing else in memory changes |
| `CircularBufferObject.Buffer.WriteChunk` | util/circular_buffer.c:288-306 | one turn of the write loop |
| `CircularBufferObject.Buffer.Write` | util/circular_buffer.c:394-397 | cb_write: the stream grows by exactly the data; -EINVAL for no data |
| `CircularBufferObject.Buffer.ReadChunk` | util/circular_buffer.c:288-306 | one turn of the read loop |
| `CircularBufferObject.Buffer.ReadLoop` | util/circular_buffer.c:286-311 | the read loop with its sticky overrun equals the recursive specification |
| `CircularBufferObject.Buffer.Read` | util/circular_buffer.c:409-412 | cb_read: unread data in order, also beside a write in progress; after a reported overrun the latest size bytes; in every case the newest byte of each index, or the write in progress there; -EINVAL for no data |
| `CircularBufferObject.ReadContent` | util/circular_buffer.c:273-312 | what a read that does not wait returns, in terms of the stream |
| `MessageMatcher.MatcherExact` | network/wifi/at_parser.c:199-215 | for a message whose one-character fallback is exact the index is the longest prefix of the message that ends the input, so it fires exactly on the message |
| `MessageMatcher.InexactFallback` | network/wifi/at_parser.c:208-212 | otherwise a concrete input makes the index fall short |
| `MessageMatcher.MatcherExactIff` | network/wifi/at_parser.c:199-215 | the index is right on every input if and only if the fallback is exact |
| `MessageMatcher.SimpleShapeExact` | network/wifi/at_parser.c:199-215 | a message whose first byte recurs at most second to last, before its second byte, has an exact fallback |
| `MessageMatcher.LiteralsExact` | network/wifi/at_parser.c:222-487 | every literal of the file has an exact fallback |
| `MessageMatcher.HeaderText` | network/wifi/at_parser.c:222 | the header literal, as text |
| `MessageMatcher.AsyncTexts` | network/wifi/at_parser.c:324-328 | two of the asynchronous literals, as text |
| `MessageMatcher.DisconnectText` | network/wifi/at_parser.c:326 | the third one |
| `MessageMatcher.ResponseTexts` | network/wifi/at_parser.c:422-486 | literals of the reset and the responses, as text |
| `MessageMatcher.LongResponseTexts` | network/wifi/at_parser.c:482-487 | the other two responses |
| `AtParser.FeedAppend` | network/wifi/at_parser.c:420-477 | how the byte stream is cut into stretches does not matter |
| `AtDemultiplexer.PlainChar` | network/wifi/at_parser.c:441-451 | a character outside headers, literals and prompts is appended to the response and advances the three async matchers |
| `AtDemultiplexer.TextRun` | network/wifi/at_parser.c:434-451 | header-free and literal-free text is appended whole to the response |
| `AtDemultiplexer.HeaderRun` | network/wifi/at_parser.c:228-266 | a frame header is recognised digit by digit with its id and length, while it shows up in the response |
| `AtDemultiplexer.ColonRun` | network/wifi/at_parser.c:254-275 | the colon removes exactly the header from the response and announces the payload |
| `AtDemultiplexer.FrameInTableIff` | network/wifi/at_parser.c:241-258 | an announced frame stays inside the connection table if and only if its id is below 4; the header also accepts 4 |
| `AtDemultiplexer.IdFourLeavesTable` | network/wifi/at_parser.c:241-258 | the first frame of a session, announced for id 4, leaves the table |
| `AtDemultiplexer.BusyRingIff` | network/wifi/at_parser.c:397-410 | a payload read leaves the model if and only if the ring is busy, which the unsigned test at line 404 never sees |
| `AtDemultiplexer.BusyRingMet` | network/wifi/at_parser.c:401-410 | the first frame of a session, on a busy ring, leaves the model |
| `AtDemultiplexer.MalformedKept` | network/wifi/at_parser.c:240-277 | a malformed header stays in the response as text and recognition starts afresh |
| `AtDemultiplexer.StepBounded` | network/wifi/at_parser.c:441-451 | no byte ever makes the response longer than its buffer |
| `AtDemultiplexer.TextKeptIff` | network/wifi/at_parser.c:444-451 | text is kept whole if and only if the response buffer has room for it |
| `AtDemultiplexer.ChunkRun` | network/wifi/at_parser.c:401-410 | bytes arriving for a requested region land in it in order and the last one ends the request |
| `AtDemultiplexer.DiscardRun` | network/wifi/at_parser.c:397-417 | the payload of a frame with no ring is consumed to the exact byte |
| `AtDemultiplexer.RingRun` | network/wifi/at_parser.c:359-410 | the payload of a frame, however the ring splits it, has the effect of one cb_write |
| `AtDemultiplexer.FrameRun` | network/wifi/at_parser.c:369-464 | a whole frame, including asking the application for a ring on an inactive connection |
| `AtDemultiplexer.SegRun` | network/wifi/at_parser.c:420-477 | a stretch of text and one frame |
| `AtDemultiplexer.Demultiplex` | network/wifi/at_parser.c:220-477 | on every stream of text and well-formed frames the parser ends as if each payload had been written whole to its ring, and the response has gained the stream with all frames deleted |
| `AtDemultiplexer.DeliverAllStream` | network/wifi/at_parser.c:369-410 | each ring receives exactly its connection's payload bytes in order |
| `AtDemultiplexer.ReceivedStream` | network/wifi/at_parser.c:369-410 | the same for a ring handed out in the middle of the stream: it gains the payload from that frame on |
| `AtDemultiplexer.DemultiplexStreams` | network/wifi/at_parser.c:220-477 | from UART bytes to the stream of each ring, present from the start or handed out on the way |
| `AtDemultiplexer.UartToReader` | network/wifi/at_parser.c:359-477 | cb_read on such a ring then returns what was unread followed by exactly the payload received |
| `AtResponses.PromptStep` | network/wifi/at_parser.c:441-443 | while a send waits, the prompt ends the wait and is stored nowhere |
| `AtResponses.PromptRun` | network/wifi/at_parser.c:432-443 | text up to the prompt is kept, and the wait ends with the prompt |
| `AtResponses.DemultiplexAfterPrompt` | network/wifi/at_parser.c:420-477 | everything after the prompt is demultiplexed as ever |
| `AtResponses.OverflowStep` | network/wifi/at_parser.c:444-447 | a character that finds the buffer full empties it, is lost, and records the overflow |
| `AtResponses.FiresExactly` | network/wifi/at_parser.c:199-215 | a literal not seen before is completed exactly by the character with which it occurs |
| `AtResponses.LiteralLeavesIff` | network/wifi/at_parser.c:332-350 | text reaches the handling of asynchronous messages if and only if a literal occurs in it |
| `AtResponses.LengthRun` | network/wifi/at_parser.c:264-265 | the length of a frame is the number read modulo 2^32, and every digit counts towards what the colon takes back |
| `AtResponses.CounterWraps` | network/wifi/at_parser.c:265 | the 256th header character starts the counter over in the middle of the length |
| `AtReceiver.AtDesc.MatchMessage` | network/wifi/at_parser.c:199-215 | match_message computes the specified index and completion |
| `AtReceiver.AtDesc.IsPayloadMessage` | network/wifi/at_parser.c:220-278 | is_payload_message: new state and result of the header recogniser |
| `AtReceiver.AtDesc.LengthCharacter` | network/wifi/at_parser.c:254-265 | its length branch: digit, colon, or reset |
| `AtReceiver.AtDesc.AskForRing` | network/wifi/at_parser.c:378-388 | the ring of the callback, if any, is attached |
| `AtReceiver.AtDesc.StartRead` | network/wifi/at_parser.c:369-417 | start_conn_read: ring requested, region prepared, pending count reduced |
| `AtReceiver.AtDesc.Request` | network/wifi/at_parser.c:397-416 | the request for bytes: a region of the ring, or one byte to drop |
| `AtReceiver.AtDesc.ReadDone` | network/wifi/at_parser.c:453-464 | end of a requested read: transaction ended, next one started or back to text |
| `AtReceiver.AtDesc.CharReceived` | network/wifi/at_parser.c:432-452 | at_callback on a response character |
| `AtReceiver.AtDesc.Receive` | network/wifi/at_parser.c:420-477 | one UART byte takes the descriptor through one specified step |
| `AtReceiver.AtDesc.ReceiveAll` | network/wifi/at_parser.c:420-477 | any stretch of the UART stream takes the descriptor through the specified steps |
| `AtReceiver.AtDesc.ReceiveStream` | network/wifi/at_parser.c:420-477 | on text and well-formed frames the descriptor ends with the text in its response and each payload written whole to its ring |
| `Gf2.RemainderUnique` | util/crc16.c:90-102 | polynomial division over GF(2) has one quotient and one remainder |
| `Gf2.RegisterDivides` | util/crc16.c:59-102 | the shift register holds the remainder of init and message divided by the polynomial, its feedback bits are the quotient |
| `Gf2.ProcessCascade` | util/crc16.c:82-84 | the register can be handed on over any split of the data |
| `Gf2.ProcessFold` | util/crc16.c:95-97 | up to a register's width of data has the effect of being added to the register first |
| `Gf2.ProcessLinear` | util/crc16.c:95-97 | addition commutes with clocking |
| `Gf2.ProcessOwnBits` | util/crc16.c:90-102 | feeding a register its own bits clears it |
| `Gf2.BurstDetected` | util/crc16.c:90-102 | with an odd polynomial, messages differing only inside a burst of the register's width have different remainders |
| `Gf2.EvenPolynomialMisses` | util/crc16.c:90-102 | an even polynomial misses a burst, for every starting value |
| `CrcMessage.RegisterIsRemainder` | util/crc16.c:90-102 | being the remainder of a message is the same as being the register after it |
| `CrcMessage.RemainderIsUnique` | util/crc8.c:88-100 | a message has one CRC however it is computed |
| `CrcMessage.RemainderCascade` | util/crc24.c:85-87 | a CRC can be continued from a previous result over any split of the message |
| `CrcMessage.RemainderResidue` | util/crc16.c:90-102 | appending the CRC most significant byte first leaves residue zero |
| `CrcMessage.OddDetects` | util/crc24.c:91-103 | with an odd polynomial, changing bytes only within w consecutive positions changes the CRC (w = 1, 2, 3 for the three widths) |
| `CrcMessage.EvenMisses` | util/crc8.c:88-100 | with an even polynomial some such change goes undetected |
| `CrcMessage.DetectsBurstsIff` | util/crc16.c:90-102 | detection of all such bursts if and only if the polynomial is odd |
| `Crc.OctetValue` | util/crc16.c:96 | the table index is the byte read most significant bit first |
| `Crc.Ad5758Poly` | legacy/ad5758-sdz/ad5758.c:65 | the polynomial constant is 0x07 |
| `Crc.TableStep` | util/crc16.c:96-97 | a table lookup and a byte shift equal eight steps of the shift register, for every width of at least a byte |
| `Crc.CrcNext` | util/crc16.c:95-99 | one turn of the CRC loop |
| `Crc.Crc8Entry` | util/crc8.c:63-71 | a table entry is the byte clocked through the register |
| `Crc.Crc8PopulateMsb` | util/crc8.c:57-74 | the table of the polynomial |
| `Crc.Crc8` | util/crc8.c:88-100 | crc8 returns the remainder, for every polynomial, initial value and message |
| `Crc.Crc16Entry` | util/crc16.c:65-73 | a table entry is the byte clocked through the register |
| `Crc.Crc16PopulateMsb` | util/crc16.c:59-76 | the table of the polynomial |
| `Crc.Crc16` | util/crc16.c:90-102 | crc16 returns the remainder, for every polynomial, initial value and message |
| `Crc.Crc24Entry` | util/crc24.c:65-74 | the low 24 bits of a 32-bit table entry are the byte clocked through a 24-bit register |
| `Crc.Crc24PopulateMsb` | util/crc24.c:59-77 | the table, for any 32-bit polynomial argument |
| `Crc.Crc24` | util/crc24.c:91-103 | crc24 returns the remainder in its low 24 bits and zero above, for any 32-bit arguments |
| `Crc.BothCrc8` | legacy/ad5758-sdz/ad5758.c:55-75 | crc8 with the table of 0x07, from zero, and the bit-serial CRC return the same value |
| `Crc.Ad5758ComputeCrc8` | legacy/ad5758-sdz/ad5758.c:55-75 | the bit-serial CRC is the same remainder, for polynomial 0x07 and initial value 0 |
| `LinkedList.UpdateLinks` | util/list.c:130-141 | makes the arguments neighbours, skipping a missing middle element, and touches no other field |
| `LinkedList.List.UpdateDesc` | util/list.c:149-162 | the new first and last of the descriptor in all of its cases |
| `LinkedList.ToInt32Exact` | util/list.c:345-360 | an index is passed on as the signed number of the same 32 bits |
| `LinkedList.List.constructor` | util/list.c:208-235 | a new list is a valid empty chain |
| `LinkedList.List.LinkIn` | util/list.c:304-308 | a new element linked in at a position: chain and contents grow there and nowhere else |
| `LinkedList.List.Unlink` | util/list.c:552-556 | an element taken out: chain and contents lose exactly that position |
| `LinkedList.List.AddFirst` | util/list.c:290-315 | contents gain the datum in front |
| `LinkedList.List.AddLast` | util/list.c:318-342 | contents gain the datum at the end |
| `LinkedList.List.AddIdx` | util/list.c:345-364 | inserts at the index, when it succeeds, and exactly when it does |
| `LinkedList.List.AddFind` | util/list.c:367-392 | inserts after all elements that are not greater, before the first greater one |
| `LinkedList.List.EditFirst` | util/list.c:395-406 | replaces the first datum only |
| `LinkedList.List.EditLast` | util/list.c:409-420 | replaces the last datum only |
| `LinkedList.List.EditIdx` | util/list.c:423-436 | replaces the datum at the index, or fails and changes nothing |
| `LinkedList.List.EditFind` | util/list.c:439-453 | replaces the first matching datum, or fails and changes nothing |
| `LinkedList.List.ReadFirst` | util/list.c:456-471 | the first datum, or failure when empty |
| `LinkedList.List.ReadLast` | util/list.c:474-489 | the last datum, or failure when empty |
| `LinkedList.List.ReadIdx` | util/list.c:492-512 | the datum at the index, or failure |
| `LinkedList.List.ReadFind` | util/list.c:515-534 | the first matching datum, or failure |
| `LinkedList.List.GetFirst` | util/list.c:537-564 | removes and returns the first datum |
| `LinkedList.List.GetLast` | util/list.c:567-594 | removes and returns the last datum |
| `LinkedList.List.GetIdx` | util/list.c:597-611 | removes and returns the datum at the index, or fails and changes nothing |
| `LinkedList.List.GetFind` | util/list.c:617-631 | removes and returns the first matching datum, or fails and changes nothing |
| `LinkedList.List.GetSize` | util/list.c:276-287 | the number of elements |
| `LinkedList.List.Move` | util/list.c:694-715 | the node that many positions away, or none outside the list |
| `LinkedList.List.Find` | util/list.c:725-743 | the first matching node |
| `LinkedList.List.EditAt` | util/list.c:748-758 | replaces the datum of one node |
| `LinkedList.List.InsertBetween` | util/list.c:830-839 | insertion between two elements |
| `LinkedList.List.InsertAt` | util/list.c:815-842 | inserts before or after the node, at either end through the list operations |
| `LinkedList.List.GetAt` | util/list.c:766-791 | removes the node; the new current one is its successor, so after the last element it is none, unlike the comment at line 763 |
| `ListIterator.Iterator.constructor` | util/list.c:643-660 | the cursor starts on the first or on the last element |
| `ListIterator.Iterator.Move` | util/list.c:694-715 | moves by a signed distance, or fails and keeps its position |
| `ListIterator.Iterator.Find` | util/list.c:725-743 | goes to the first match, or fails and keeps its position |
| `ListIterator.Iterator.Edit` | util/list.c:748-758 | replaces the current datum |
| `ListIterator.Iterator.Read` | util/list.c:796-806 | the current datum, or failure |
| `ListIterator.Iterator.Get` | util/list.c:766-791 | removes the current datum and keeps the position number, which is where the comment puts the cursor if and only if the datum is not the last of several |
| `ListIterator.Iterator.Insert` | util/list.c:815-842 | inserts around the cursor, which stays on its element |
| `ListIterator.CursorLost` | util/list.c:778-786 | removing the second of two elements leaves a cursor that reads nothing |
| `ListAdapters.ListDesc.constructor` | util/list.c:208-235 | an empty list behind an adapter |
| `ListAdapters.ListDesc.Push` | util/list.c:169-196 | push of each adapter |
| `ListAdapters.ListDesc.Pop` | util/list.c:169-196 | pop of each adapter |
| `ListAdapters.ListDesc.TopNext` | util/list.c:169-196 | top_next is what pop would return |
| `ListAdapters.ListDesc.Back` | util/list.c:169-196 | back is the element that pops last |
| `ListAdapters.ListDesc.Swap` | util/list.c:169-196 | swap replaces what pop would return and nothing else |
| `ListAdapters.StackFrame` | util/list.c:186-193 | a run on a stack does not touch what lies below the elements it works on |
| `ListAdapters.LastInFirstOut` | util/list.c:186-193 | after a push and any balanced run the next pop returns the pushed element and leaves the stack as it was |
| `ListAdapters.StackContent` | util/list.c:186-193 | such a run is the one of the list itself |
| `ListAdapters.QueueInOrder` | util/list.c:179-185 | in every run popped followed by queued is exactly pushed, in order |
| `ListAdapters.PushOrdered` | util/list.c:367-392 | a push keeps the list sorted with equal elements in insertion order, for any total preorder |
| `ListAdapters.PriorityStep` | util/list.c:172-178 | one push or pop keeps order and multiset |
| `ListAdapters.PriorityRun` | util/list.c:172-178 | in every run: sorted, nothing lost or invented, pop returns a minimum and the oldest of equals |
| `ListAdapters.StampsAreLabels` | util/list.c:367-392 | the insertion stamps of the run are labels only: without them it is the list itself |
| `SdCard.NbBlocksExact` | drivers/sd-card/sd.c:155-159 | how many blocks a transfer touches, in uint64_t and uint32_t arithmetic, also for length zero |
| `SdCard.Chunks` | drivers/sd-card/sd.c:336-359 | each chunk has 1 to 512 bytes, lies in its block, and the chunks add up to the length |
| `SdCard.ReadAfterWrite` | drivers/sd-card/sd.c:417-520 | the replaced range reads back as written, every disjoint range as before |
| `SdCard.PrefetchExact` | drivers/sd-card/sd.c:480-491 | the two prefetch conditions hold exactly when the first, or another last, block is written in part |
| `SdCard.TargetAt` | drivers/sd-card/sd.c:343-357 | byte by byte, what the card holds after the block writes |
| `SdCard.TargetBlock` | drivers/sd-card/sd.c:336-360 | each block of that card is what the loop assembles |
| `SdCard.TargetElsewhere` | drivers/sd-card/sd.c:336-360 | blocks outside the transfer keep their contents |
| `SdCard.TargetExact` | drivers/sd-card/sd.c:480-507 | with both buffers prefetched only the addressed bytes change |
| `SdCard.BuffersIrrelevantIff` | drivers/sd-card/sd.c:482-491 | the prefetched contents are irrelevant if and only if no block is written in part |
| `SdCard.StaleBlockWritten` | drivers/sd-card/sd.c:349-350 | one byte written to a one-block card takes the rest of the block buffer along |
| `SdCard.TargetExactIff` | drivers/sd-card/sd.c:343-357 | only the addressed bytes change if and only if the written block buffers agree with the card elsewhere |
| `SdDriver.MemCpy` | drivers/sd-card/sd.c:349 | memcpy replaces exactly the destination range |
| `SdDriver.Card.ReadBlock` | drivers/sd-card/sd.c:266-309 | the abstract card delivers the block it is positioned on and advances |
| `SdDriver.Card.WriteBlock` | drivers/sd-card/sd.c:225-258 | the abstract card replaces exactly that block, with the start token for one or for several blocks |
| `SdDriver.SdDesc.ReadTurn` | drivers/sd-card/sd.c:383-403 | one turn of the read loop |
| `SdDriver.SdDesc.ReadMultipleBlocks` | drivers/sd-card/sd.c:374-406 | the buffer receives exactly the addressed slice |
| `SdDriver.SdDesc.AssembleBlock` | drivers/sd-card/sd.c:336-357 | the block sent in one turn of the write loop |
| `SdDriver.SdDesc.WriteMultipleBlocks` | drivers/sd-card/sd.c:324-363 | the card after all blocks, from data and both block buffers |
| `SdDriver.SdDesc.SdRead` | drivers/sd-card/sd.c:417-457 | sd_read returns exactly the slice and leaves the card alone; command, transfers and stop as specified; range errors refused |
| `SdDriver.SdDesc.FetchBlock` | drivers/sd-card/sd.c:485 | a prefetch read, whose failure is not looked at: a failed command leaves the buffer as it is |
| `SdDriver.SdDesc.Prefetch` | drivers/sd-card/sd.c:480-491 | without faults both buffers hold the card's own blocks wherever they are needed; a failed command leaves them as they were |
| `SdDriver.SdDesc.SendBlocks` | drivers/sd-card/sd.c:493-519 | the write command, the blocks, and the stop token exactly when there is not one block |
| `SdDriver.SdDesc.SdWrite` | drivers/sd-card/sd.c:468-520 | success whenever nothing fails from the write command on, whatever failed before it; on success exactly [address, address + len) is replaced if and only if the block buffers were right, which they are without faults or without partial blocks |
| `SdDriver.FailedPrefetchUnnoticed` | drivers/sd-card/sd.c:482-507 | a card whose only fault is the first command: writing one byte succeeds and puts the rest of the block buffer on the card |
| `SdDriver.LogShape` | drivers/sd-card/sd.c:428-454 | one start command, one transfer per block, and a stop if and only if the number of blocks is not one |
| `SdDriver.SdDesc.WriteThenRead` | drivers/sd-card/sd.c:417-520 | without faults sd_read after sd_write returns the written bytes |
| `ClockGenerator.ScannedLegal` | legacy/adum7701_fmc/clkgen_core.c:256-266 | every visited pair respects 10..300 MHz at the phase detector and 600..1200 MHz at the oscillator, m <= 64, d <= 80 |
| `ClockGenerator.FreqBound` | legacy/adum7701_fmc/clkgen_core.c:267-270 | so no candidate exceeds the oscillator limit |
| `ClockGenerator.WinsExactly` | legacy/adum7701_fmc/clkgen_core.c:271 | the unsigned distance test is won exactly by frequencies from fout up to the best so far |
| `ClockGenerator.CalcParams` | legacy/adum7701_fmc/clkgen_core.c:225-281 | the earliest pair with the least frequency not below fout; zeros exactly when no pair reaches fout |
| `ClockGenerator.BestLegal` | legacy/adum7701_fmc/clkgen_core.c:225-281 | every nonzero result is legal |
| `ClockGenerator.NearestIff` | legacy/adum7701_fmc/clkgen_core.c:271-275 | the chosen pair is nearest to fout among all visited ones if and only if every visited frequency below fout has one at most as far above |
| `ClockGenerator.NothingIff` | legacy/adum7701_fmc/clkgen_core.c:252-281 | zeros are returned if and only if every visited frequency is below fout |
| `ClockGenerator.NothingThoughVisited` | legacy/adum7701_fmc/clkgen_core.c:271 | 10 MHz in, 700 MHz out: zeros, although 640 MHz is visited |
| `ClockGenerator.PassesOver` | legacy/adum7701_fmc/clkgen_core.c:225-281 | the search itself chooses 640 MHz there |
| `ClockGenerator.LargestDivider` | legacy/adum7701_fmc/clkgen_core.c:268-275 | 10 MHz in, 4.7 MHz out: the output divider is 128 |
| `ClockGenerator.NearestPassedOver` | legacy/adum7701_fmc/clkgen_core.c:271 | 10 MHz in, 631 MHz out: 630 MHz is available and 640 MHz is chosen |
| `ClockLimits.ScannedIff` | legacy/adum7701_fmc/clkgen_core.c:256-266 | a pair is visited if and only if it is legal for detector and oscillator and not below a product of a sufficient multiplier and a sufficient divider |
| `ClockLimits.LegalSkipped` | legacy/adum7701_fmc/clkgen_core.c:259 | 450 MHz in: the legal pair (3, 2) is not visited |
| `ClockLimits.BestOfLegalIff` | legacy/adum7701_fmc/clkgen_core.c:256-281 | the result is the best of all legal pairs if and only if every legal frequency from fout up is matched by a visited one |
| `ClockLimits.LegalPassedOver` | legacy/adum7701_fmc/clkgen_core.c:259 | 4 GHz in, 1106.382 MHz out: a legal pair gives it exactly and the result is another frequency or none |
| `ClockLimits.FvcoExact` | legacy/adum7701_fmc/clkgen_core.c:267 | the oscillator frequency is fin * m / d rounded down |
| `ClockLimits.FreqExact` | legacy/adum7701_fmc/clkgen_core.c:270 | the output frequency is the oscillator frequency over the output divider rounded down |
| `ClockLimits.DoutNearest` | legacy/adum7701_fmc/clkgen_core.c:268-269 | the output divider brings the oscillator nearest to fout among 1..128, the larger of two equally near |
| `ClockRegisters.WrittenExact` | legacy/adum7701_fmc/clkgen_core.c:188-197 | a masked write sets the bits of the mask and keeps the others |
| `ClockRegisters.CountsWritten` | legacy/adum7701_fmc/clkgen_core.c:346 | the counter of a divider up to 126: high and low time add up to it and differ by its oddness |
| `ClockRegisters.FlagsWritten` | legacy/adum7701_fmc/clkgen_core.c:347 | bit 7 marks an odd divider and bit 6 the divider one |
| `ClockRegisters.InWritten` | legacy/adum7701_fmc/clkgen_core.c:355 | counter and flags of the input divider in one register |
| `ClockRegisters.FourfoldIff` | legacy/adum7701_fmc/clkgen_core.c:349-351 | the second output, at four times the divider, fits its counter if and only if the divider is at most 31 |
| `ClockRegisters.RateExact` | legacy/adum7701_fmc/clkgen_core.c:389-398 | the rate is floor(floor(parent / d) * m / dout), 0 for a zero divider, capped |
| `ClockRegisters.DecodeHighLow` | legacy/adum7701_fmc/clkgen_core.c:346 | high/low packing reads back as the divider up to 126; 127 gives 63 and 128 gives 1 |
| `ClockRegisters.DecodeClkDiv` | legacy/adum7701_fmc/clkgen_core.c:355 | the input divider reads back for 1..80 beside its edge and nocount bits |
| `ClockRegisters.ReadBackExact` | legacy/adum7701_fmc/clkgen_core.c:346 | a divider written to its register decodes to itself if and only if it is at most 126 |
| `ClockRegisters.Clkgen.MmcmWrite` | legacy/adum7701_fmc/clkgen_core.c:172-198 | a masked write changes one register, under its mask |
| `ClockRegisters.Clkgen.SetRate` | legacy/adum7701_fmc/clkgen_core.c:318-370 | the best parameters; counters and flags of the divider registers, lock and filter settings of the multiplier; no other register changes, and none when there are no parameters |
| `ClockRegisters.Clkgen.WriteDividers` | legacy/adum7701_fmc/clkgen_core.c:345-359 | the seven divider registers |
| `ClockRegisters.Clkgen.WriteLockAndFilter` | legacy/adum7701_fmc/clkgen_core.c:361-365 | the five lock and filter registers |
| `ClockRegisters.Clkgen.WriteLock` | legacy/adum7701_fmc/clkgen_core.c:361-363 | lock count and both delays |
| `ClockRegisters.Clkgen.WriteFilter` | legacy/adum7701_fmc/clkgen_core.c:364-365 | the filter bits of both halves |
| `ClockTables.BeyondTables` | legacy/adum7701_fmc/clkgen_core.c:203-220 | the tables are used up to their ends, and the fixed settings beyond |
| `ClockTables.TableSizes` | legacy/adum7701_fmc/clkgen_core.c:84-98 | the tables have 47 and 36 entries |
| `ClockRegisters.Clkgen.WriteOutput` | legacy/adum7701_fmc/clkgen_core.c:345-347 | the two registers of the first output |
| `ClockRegisters.Clkgen.WriteSecond` | legacy/adum7701_fmc/clkgen_core.c:349-352 | the two registers of the second output |
| `ClockRegisters.Clkgen.WriteInput` | legacy/adum7701_fmc/clkgen_core.c:354-355 | the register of the input divider |
| `ClockRegisters.Clkgen.WriteFeedback` | legacy/adum7701_fmc/clkgen_core.c:357-359 | the two registers of the multiplier |
| `ClockRegisters.Clkgen.GetRate` | legacy/adum7701_fmc/clkgen_core.c:375-399 | the rate from the dividers, capped, 0 for a zero divider |
| `ClockRegisters.Clkgen.SetThenGet` | legacy/adum7701_fmc/clkgen_core.c:318-399 | the rate read back is floor(floor(parent/d) * m / dout), capped, if and only if dout <= 126, and what it is beyond |
| `ClockRegisters.WrongRateRead` | legacy/adum7701_fmc/clkgen_core.c:346-383 | 10 MHz in, 4.7 MHz out: about 4.77 MHz is set and 610 MHz is read back |
| `ClockRegisters.ReadsBackWrong` | legacy/adum7701_fmc/clkgen_core.c:318-399 | setting and reading the registers gives that rate, and the counter of the second output does not hold its divider |
| `ClockRegisters.RateDiffers` | legacy/adum7701_fmc/clkgen_core.c:392-398 | within the oscillator limits the dividers 127 and 128 always read back as a higher rate |
| `SocketScheduler.AdmitAppends` | iio/iio.c:203-221 | the accept loop queues exactly the accepted sockets, and ends ready only with a client |
| `SocketScheduler.StepConserves` | iio/iio.c:1056-1072 | a step loses and duplicates no client |
| `SocketScheduler.RunConserves` | iio/iio.c:1056-1072 | in every run live clients plus removed ones are those accepted |
| `SocketScheduler.HeldOnce` | iio/iio.c:1056-1072 | a socket accepted once and not removed is held exactly once |
| `SocketScheduler.StepAdvances` | iio/iio.c:223-229 | a serving step moves every queued socket one place forward |
| `SocketScheduler.StepHolds` | iio/iio.c:214-216 | a failing step leaves every queued socket in place |
| `SocketScheduler.ServedInTurn` | iio/iio.c:195-230 | the socket at position k is served by serving step k + 1, whatever arrives or leaves |
| `SocketScheduler.AdmitExact` | iio/iio.c:203-221 | the accept loop ends at the first answer that ends it: ready when nothing more is to be accepted with a client at hand, failed on an error; the sockets before it are queued in order |
| `SocketScheduler.AdmitWaits` | iio/iio.c:203-221 | without such an answer it goes on waiting |
| `SocketScheduler.ServesIff` | iio/iio.c:195-230 | a step serves a client if and only if its accept loop ends without an error |
| `SocketScheduler.CleanServes` | iio/iio.c:205-229 | with a client at hand and no error a step serves one |
| `SocketScheduler.CleanServedInTurn` | iio/iio.c:195-230 | so the socket at position k is served by step k + 1 whenever no accept fails |
| `IioSockets.PointerRoundTrip` | iio/iio.c:172-182 | a pointer survives its four bytes in the ring |
| `IioSockets.IioDesc.constructor` | iio/iio.c:1423-1424 | an empty queue in a ring of sixteen bytes |
| `IioSockets.IioDesc.PushSock` | iio/iio.c:178-182 | the queue gains the socket at the end |
| `IioSockets.IioDesc.PopSock` | iio/iio.c:172-176 | the queue loses its first socket, which is returned |
| `IioSockets.IioDesc.NbActiveSockets` | iio/iio.c:184-191 | the length of the queue, if and only if it is at most four |
| `IioSockets.IioDesc.GetNextSocket` | iio/iio.c:195-230 | accepts, queues and pops as specified |
| `IioSockets.IioDesc.IioStep` | iio/iio.c:1056-1072 | one step of the scheduler |
| `IioSockets.PopRightIff` | iio/iio.c:172-176 | with distinct clients a pop returns the one in front if and only if at most four are queued |
| `IioSockets.FiveClients` | iio/iio.c:172-182 | five pushes into a new queue, and the pop that follows |
| `IioSockets.FifthClientLost` | iio/iio.c:178-182 | with five clients queued the next pop fails, the first client is overwritten and the second is taken out |
| `ConnectionTable.FirstIn` | network/wifi/wifi.c:147-153 | the first socket in a state, or none |
| `ConnectionTable.FreeConn` | network/wifi/wifi.c:171-179 | the first free connection, or none |
| `ConnectionTable.IdleClient` | network/wifi/wifi.c:246-255 | a prepared client that is idle, or none when none is |
| `ConnectionTable.RemoveBackLogInv` | network/wifi/wifi.c:582-592 | closing the prepared clients keeps the tables consistent and the server socket alone |
| `ConnectionTable.OpenInv` | network/wifi/wifi.c:470-495 | open keeps the invariant |
| `ConnectionTable.DisconnectInv` | network/wifi/wifi.c:595-634 | disconnect keeps the invariant and leaves the socket without a connection |
| `ConnectionTable.CloseInv` | network/wifi/wifi.c:509-541 | close keeps the invariant |
| `ConnectionTable.ConnectSafeIff` | network/wifi/wifi.c:555-577 | connect keeps the invariant if and only if the socket is not a waiting target while a connection is free |
| `ConnectionTable.BindSafeIff` | network/wifi/wifi.c:730-747 | bind keeps the invariant if and only if the socket is not connected, waiting or prepared for clients |
| `ConnectionTable.PreparedExactly` | network/wifi/wifi.c:775-794 | the preparation of clients takes exactly the first unused sockets |
| `ConnectionTable.ListenSafeIff` | network/wifi/wifi.c:750-813 | listen, failures and their clean-up included, keeps the invariant if and only if it does not take the closed server for a client |
| `ConnectionTable.AcceptInv` | network/wifi/wifi.c:816-837 | accept keeps the invariant |
| `ConnectionTable.NewConnectionInv` | network/wifi/wifi.c:269-285 | the callback for a new connection keeps the invariant |
| `ConnectionTable.ClosedConnectionInv` | network/wifi/wifi.c:286-291 | the callback for a closed connection keeps the invariant |
| `ConnectionTable.StepInvIff` | network/wifi/wifi.c:509-837 | an API call or callback keeps the invariant Inv if and only if it is proper, a condition on the tables before it |
| `ConnectionTable.RunInv` | network/wifi/wifi.c:509-837 | every run of proper steps keeps it |
| `ConnectionTable.RunConsistent` | network/wifi/wifi.c:142-292 | in every run of proper steps from initialisation each connection leads to a socket that carries exactly it and is connected or waiting, and no socket carries two |
| `ConnectionOwnership.DisconnectOwned` | network/wifi/wifi.c:595-634 | disconnect takes no connection from another socket, where every connected socket owns its own |
| `ConnectionOwnership.CloseOwned` | network/wifi/wifi.c:509-541 | nor does close |
| `ConnectionOwnership.ConnectOwnedIff` | network/wifi/wifi.c:555-577 | connect leaves every connected socket with its own connection if and only if a connection is free for the socket it takes up |
| `ConnectionOwnership.ListenOwned` | network/wifi/wifi.c:750-813 | listen, with its clean-up, takes no connection from a socket |
| `ConnectionOwnership.ClosedConnectionOwned` | network/wifi/wifi.c:286-291 | a closed connection is taken from its own socket only |
| `ConnectionOwnership.StepOwnedIff` | network/wifi/wifi.c:509-837 | a call or callback keeps ownership if and only if it is not a connect with no connection free |
| `ConnectionOwnership.RunSound` | network/wifi/wifi.c:509-837 | so does every run whose connects find a free connection |
| `ConnectionOwnership.RunInverse` | network/wifi/wifi.c:142-292 | in every such run the two tables are inverse to each other |
| `ConnectionEffects.OpenEffect` | network/wifi/wifi.c:142-157 | open takes the lowest unused socket, and changes nothing else |
| `ConnectionEffects.ConnectEffect` | network/wifi/wifi.c:544-580 | connect links the socket with the lowest free connection, or only changes its state when none is free; refused calls change nothing |
| `ConnectionEffects.BindEffect` | network/wifi/wifi.c:730-747 | bind makes an open socket the server when there is none |
| `ConnectionEffects.AcceptEffect` | network/wifi/wifi.c:816-837 | accept connects the lowest waiting socket, on a listening server only |
| `ConnectionEffects.NewConnectionEffect` | network/wifi/wifi.c:241-285 | a new connection goes to the first idle client, which then waits to be accepted |
| `ConnectionEffects.ClosedConnectionEffect` | network/wifi/wifi.c:286-291 | a closed connection is parted from its socket, which is then disconnected |
| `ConnectionEffects.DisconnectEffect` | network/wifi/wifi.c:595-634 | disconnect of a client frees its connection and changes nothing else |
| `ConnectionEffects.CloseEffect` | network/wifi/wifi.c:509-541 | close of a client does the same and leaves it unused |
| `ConnectionEffects.OwnClientEffect` | network/wifi/wifi.c:531-538 | close of an idle server among its own clients marks all of them unused |
| `ConnectionEffects.RemoveBackLogEffect` | network/wifi/wifi.c:582-592 | exactly the prepared clients are closed |
| `ConnectionEffects.ServerEffect` | network/wifi/wifi.c:612-631 | disconnect and close of a server in use: its clients are closed and it serves no more |
| `ConnectionEffects.PrepareEffect` | network/wifi/wifi.c:775-794 | the preparation takes the first n unused sockets in order, and fails if there are fewer |
| `ConnectionEffects.ListenEffect` | network/wifi/wifi.c:750-813 | listen prepares up to four sockets and listens, or leaves all sockets as they were |
| `ConnectionFailures.NeverReturns` | network/wifi/wifi.c:509-634 | disconnect and close of a server that is in use and one of its own clients return at no depth of nested calls |
| `ConnectionFailures.DisconnectReturns` | network/wifi/wifi.c:595-634 | every other disconnect returns, with the result of the model |
| `ConnectionFailures.ReturnsIff` | network/wifi/wifi.c:509-634 | disconnect and close return if and only if the socket is not such a server |
| `ConnectionFailures.ProperRunHolds` | network/wifi/wifi.c:509-837 | a run of proper steps never finds inconsistent tables or a call that does not return |
| `ConnectionFailures.ConnectFails` | network/wifi/wifi.c:555-577 | an improper connect leaves inconsistent tables |
| `ConnectionFailures.BusyBindFails` | network/wifi/wifi.c:736-743 | an improper bind has a continuation by proper calls that leaves inconsistent tables or does not return |
| `ConnectionFailures.ListenFails` | network/wifi/wifi.c:750-813 | an improper listen has a continuation by proper calls that does not return |
| `ConnectionFailures.ProperIff` | network/wifi/wifi.c:509-837 | where every connected socket owns its connection, a call is proper if and only if no proper run after it finds inconsistent tables or a call that does not return |
| `ConnectionExamples.ConnectionLost` | network/wifi/wifi.c:562-577 | five connects and one disconnect leave a connected socket without its connection |
| `ConnectionExamples.ConnectedTwice` | network/wifi/wifi.c:555-577 | connect on a socket that waits to be accepted leaves two connections leading to it |
| `ConnectionExamples.BoundWhileConnected` | network/wifi/wifi.c:595-747 | bind on a connected socket and its disconnect leave the connection with a disconnected socket |
| `ConnectionExamples.ListenedAfterClose` | network/wifi/wifi.c:582-794 | listen after the bound socket was closed takes the server for its own client, and its disconnect and close do not return |
| `WifiDelivery.KeptForever` | network/wifi/wifi.c:269-285 | a connection that leads to a socket keeps doing so over the callbacks of a stream |
| `WifiDelivery.RefusedForever` | network/wifi/wifi.c:241-256 | with no idle client left a refused connection stays refused |
| `WifiDelivery.CallbacksInv` | network/wifi/wifi.c:260-292 | the callbacks of a stream keep the invariant |
| `WifiDelivery.ReceivesAll` | network/wifi/wifi.c:269-285 | the ring a connection fills is that of the socket it leads to, with all of its payload |
| `WifiDelivery.UartToSocket` | network/wifi/wifi.c:260-292 | from UART bytes to sockets: the payload of a new connection ends up, whole and in order, in the ring of the socket the tables lead it to |
| `WifiDescriptor.WifiDesc.constructor` | network/wifi/wifi.c:312-318 | initialisation satisfies the invariant |
| `WifiDescriptor.WifiDesc.ReleaseSocket` | network/wifi/wifi.c:526-538 | the end of close, with the release of all clients of a server that is one of them |
| `WifiDescriptor.WifiDesc.FindSocket` | network/wifi/wifi.c:147-153 | the scan for a state |
| `WifiDescriptor.WifiDesc.WifiReleaseConn` | network/wifi/wifi.c:183-197 | both table entries of a connection are freed |
| `WifiDescriptor.WifiDesc.SocketOpen` | network/wifi/wifi.c:470-495 | open, and the socket it returns |
| `WifiDescriptor.WifiDesc.CloseBackLogClient` | network/wifi/wifi.c:509-541 | close of a prepared client |
| `WifiDescriptor.WifiDesc.RemoveServerBackLog` | network/wifi/wifi.c:582-592 | closes all prepared clients |
| `WifiDescriptor.WifiDesc.SocketDisconnect` | network/wifi/wifi.c:595-634 | disconnect, of a client or of the server |
| `WifiDescriptor.WifiDesc.SocketClose` | network/wifi/wifi.c:509-541 | close |
| `WifiDescriptor.WifiDesc.SocketConnect` | network/wifi/wifi.c:544-580 | connect, with the connection search; keeps the invariant if and only if proper |
| `WifiDescriptor.WifiDesc.SocketBind` | network/wifi/wifi.c:730-747 | bind; keeps the invariant if and only if proper |
| `WifiDescriptor.WifiDesc.SocketListen` | network/wifi/wifi.c:750-813 | listen, with clean-up on failure; keeps the invariant if and only if proper |
| `WifiDescriptor.WifiDesc.PrepareBackLog` | network/wifi/wifi.c:775-794 | the allocation of prepared clients |
| `WifiDescriptor.WifiDesc.SocketAccept` | network/wifi/wifi.c:816-837 | accept, and the waiting socket it returns |
| `WifiDescriptor.WifiDesc.GetInitializedClient` | network/wifi/wifi.c:241-256 | the idle prepared client |
| `WifiDescriptor.WifiDesc.ConnectionCallback` | network/wifi/wifi.c:260-292 | both callbacks, and that the ring handed out belongs to the socket the connection then leads to |
| `CommandText.ReadEscaped` | network/wifi/at_parser.c:601-612 | a quoted and escaped string is read back, whatever bytes it holds |
| `CommandText.ReadParamText` | network/wifi/at_parser.c:593-615 | each parameter is read back up to its separator |
| `CommandText.ParamsRoundTrip` | network/wifi/at_parser.c:583-622 | every parameter list is recovered from its text |
| `CommandText.ParamsLength` | network/wifi/at_parser.c:583-622 | at most 2length(s) + 2 bytes per string, 11 per integer, one per separator |
| `CommandText.ParamsSize` | network/wifi/at_parser.c:583-622 | the exact length of the text: characters, backslashes, quotes, signs, digits and separators |
| `CommandText.SetFitsIff` | network/wifi/at_parser.c:750-775 | a set command fits the 120 bytes of its buffer if and only if name and parameters have at most 115 |
| `CommandText.AccessPointFitsIff` | network/wifi/at_parser.c:645-649 | the access point command, for which the buffer was sized, fits if and only if both strings with their backslashes and both numbers have at most 102 bytes |
| `CommandText.CommasOverflow` | network/wifi/at_parser.c:66-67 | a name of 32 and a password of 64 commas need 212 bytes |
| `CommandText.EscapedAt` | network/wifi/at_parser.c:605-610 | a quote, a comma or a backslash gets a backslash in front; every other byte is sent as it is |
| `CommandText.PlainUnescaped` | network/wifi/at_parser.c:605-610 | a string with none of the three is sent unchanged |
| `CommandText.EscapesCount` | network/wifi/at_parser.c:607-608 | the backslashes are as many as the quotes, commas and backslashes of the string |
| `CommandText.QuotedText` | network/wifi/at_parser.c:603-611 | a string stands in quotes |
| `CommandText.SeparatedText` | network/wifi/at_parser.c:616-618 | commas separate the parameters |
| `CommandText.NumberText` | network/wifi/at_parser.c:594-600 | a number is its digits after a minus sign if it is negative |
| `CommandText.SetParams` | network/wifi/at_parser.c:583-622 | the text of the parameters is appended |
| `CommandText.AppendParam` | network/wifi/at_parser.c:593-615 | one turn of the format loop |
| `CommandText.AppendEscaped` | network/wifi/at_parser.c:604-610 | the escaping loop |
| `CommandText.BuildCmd` | network/wifi/at_parser.c:750-775 | the command for each operation, and when a set command fits its buffer |
| `CommandText.CommandDetermines` | network/wifi/at_parser.c:750-775 | two set commands of one name with the same text have the same parameters |
| `DecimalText.ReadDecimal` | network/wifi/at_parser.c:264 | reading the digits of a number as the parser does gives the number |
| `DecimalText.DecimalLength` | network/wifi/at_parser.c:586 | a number has at most k digits if and only if it is below 10^k |

## Left out

- Atomicity below an API call: beyond the order of the writer's stores and one interruption between the loads of `cb_size`, each call is one step.
- Blocking: `cb_read` is modelled where it returns without waiting for a writer, `cb_write` where no asynchronous write is open, `_get_next_socket` and `_pop_sock` where a client arrives.
- CircularBufferObject.Buffer.Write: excludes an open write of its own side, on which the C code spins.
- AtReceiver.AtDesc.Receive: the rings of the connections are held as values, so a ring shared between two descriptors is not captured; completed asynchronous literals, a busy ring and accesses outside the tables end in the state `outside`, whose continuation is not modelled.
- AT parser modes: resetting the module and deep sleep (`handle_special`), single-connection mode, stripping of asynchronous messages (`check_conn_id`), UART errors, waiting for responses.
- AtDemultiplexer.Demultiplex: the text must be free of the header and of the asynchronous literals, also across seams, and the response buffer must have room; otherwise characters are dropped (`TextKeptIff`) or the parser is `outside`.
- AtDemultiplexer.UartToReader: no read falls between the bytes of the stream; reads beside a write in progress are covered on the ring itself by `CircularBufferSharing.RunDelivers`.
- SocketScheduler.StepConserves: a step is the first network read of its command; further reads of a command that found no socket are not modelled.
- IioSockets.IioDesc.IioStep: at most four live clients, and 32-bit pointers, as the code assumes; `PopRightIff` shows that more are not served right.
- WifiDescriptor.WifiDesc.SocketConnect: return codes of the socket calls and the sending of AT commands are not modelled, only the tables; the socket buffers, `wifi_socket_send` and `wifi_socket_recv` are left out.
- WifiDescriptor.WifiDesc.CloseBackLogClient: a listening server among its own clients, on which the C functions call each other for ever, is excluded.
- WifiDescriptor.WifiDesc.SocketAccept: the id 0xffffffff with no server bound, which reads outside the table, counts as refused.
- LinkedList.List.AddIdx: the index 0x80000000, whose absolute value overflows, is excluded, here and in the other index operations; `nb_elements` is unbounded.
- List housekeeping: allocation failure, NULL arguments, `list_remove`, `iterator_remove` and the iterator count, and the default comparator, which is no order.
- SD card: `sd_init`, response polling and the wire-level CRC; a failed transfer changes nothing on the abstract card; cards of more than 2^40 bytes, which the 21 bits kept of C_SIZE cannot describe.
- SdDriver.SdDesc.WriteMultipleBlocks: the data is an immutable sequence, while `write_block` hands full blocks of the caller's buffer to `spi_write_and_read`, which reads back into them; what that leaves in the caller's buffer is not modelled.
- SdDriver.SdDesc.SdWrite: what a block transfer that fails in the middle leaves in a block buffer is open; only a failed command is said to leave it as it is.
- ConnectionTable.StepInvIff: the iff is about the invariant of the model; what an improper call leads to is `ConnectionFailures.ProperIff`, for states in which every connected socket owns its connection.
- ClockGenerator.CalcParams: rates below 1 kHz, by which the code divides by zero, are excluded; the double division rounds exactly.
- ClockRegisters.Clkgen.SetRate: the reset register that disables and enables the core, which is outside this bank, and timeouts of the register port.
- CommandText.SetParams: the buffer has no end in the model; `SetFitsIff` says when the text fits the one of the C code. Format characters other than `d` and `s`, which no caller uses, and the choice of format for each command in `concat_cmd_param`.
- CRC tables for word sizes other than those of the three files, NULL tables, and the 8-bit length of `ad5758_compute_crc8`.
- All device drivers, `util/fifo.c`, `util/util.c`, TLS, MQTT, XML generation and attribute handling of iio: they would only add easy members.
