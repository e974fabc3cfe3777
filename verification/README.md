# Telegraph: a model of the two-MCU display and its proofs

Telegraph is firmware and a set of small programs ("wapps") for a display with two
microcontrollers. One of them, the board, drives two matrix panels; the other runs the wapps.
They talk over a UART. This project models the parts in which state, branching or arithmetic
decide what happens, and proves what those parts promise.

| part | modules | what is proved |
|---|---|---|
| framing of the link | `Bytes`, `Crc`, `Frames`, `Scan`, `Parser`, `Streams` | the table CRC is the bitwise one and detects every change of two adjacent bytes; the encoder and the checks of the parser are inverse; the in-place parser computes one recursive scan of the whole stream, however the bytes are cut; no byte is unaccounted for; damage between frames costs its own bytes alone; the parser holds nothing but a candidate that can still become a frame |
| link broker | `BrokerCore`, `Broker`, `BrokerRuns` | over every run on a link that loses, repeats and delays frames: one answer for each frame, with the opcode and payload of the reply, no reply to the wrong request within 65534 later ones, at most three attempts with equal bytes, no request while a peer holds raw mode, the line on its protocol settings outside it |
| USB channel | `WriteOnce`, `UsbBoard`, `Ring`, `DirPages`, `Listing` | the device stream is the ACKed writes in order, each once, exactly as long as asks and subscriptions are safe; the lock-free ring is a FIFO under every interleaving of its loads and stores, and each call moves all that it can; following the pages of a directory gives every entry once, and through the JSON of tg-usb exactly when every page fits its body |
| settings store | `Store` | one atomic value under failed operations and losses of power at every step |
| panels | `Panel`, `Isolation`, `Bitmap`, `Sprite`, `SpriteFile` | a bitmap reaches the two shift registers, both filled in one pass, pixel by pixel; changes appear whole; a sprite file shows its frames in turn |
| text | `Font`, `FontBank`, `Wrap`, `Render` | decoding and lookup of characters, the two font banks, greedy wrapping, and the place of each column of each character in the bitmap |
| MQTT client | `Mqtt`, `MqttRuns` | polling a stream cut anywhere delivers the messages of a whole-stream decoder; a published message arrives exactly when its topic and its packet fit the reader |

`Wrappers` and `Arith` hold an option type and facts about quotients.

**Form.** What the sources change in place is a class or an array here, and its methods are
proved against functions: the parser, the broker, the settings store, the board's side of a
channel, the panels, the animation, the font banks, the MQTT client, the bitmaps, the reply
buffer and the JSON body. What is decided by an interleaving of several programs
(`BrokerRuns`, `WriteOnce`, `Ring`, `Isolation`, the runs of `Store`) is a machine of single
steps, and its invariants hold over every sequence of steps. `BrokerRuns` steps by the same functions that
the methods of `Broker` are proved against, and the same holds of `Store`, `FontBank` and
`Mqtt`; `UsbBoard` is tied to `WriteOnce` by a lemma. A class of a protocol participant has no
thread of its own.

**Where the code and what it promises differ.** Each of these is proved, with the exact
condition.

- `resyncs` of the parser depends on how the bytes were cut; nothing else does
  (`Streams.SameBytesSameOutcome`). For pieces that fit the buffer together a cut costs one resync
  more exactly when the drain of the first piece ends in a resync that finds no SOF and the second
  does not start with one (`Streams.CuttingCostsExactlyWhen`); `Streams.ResyncsOfTwoPushes` gives
  the difference for pieces of any size.
- A reply on the link is taken for the request in flight exactly when that request is a multiple
  of 65535 requests younger than its own (`BrokerRuns.ReplyTakenExactlyWhen`).
- A RAW whose baud rate the line driver takes and whose format it refuses leaves the protocol on a
  line with another baud rate, exactly then (`BrokerCore.LineLeftWrongExactlyWhen`). In runs
  without one the line has the settings of the protocol whenever no peer holds it
  (`BrokerRuns.ProtocolHasItsLine`).
- tg-usb takes any answer for the answer to its last request (wapps/tg-usb/usb.c:170-177). Thus in
  every reachable state, every continuation of an ask of a write that is not empty keeps the
  device stream equal to the ACKed writes and at most the current one, exactly when the board has
  the write already, or no ACK of another request can still arrive and the board does not remember
  the sequence of the write (`WriteOnce.AskIsSafeExactlyWhen`). An ACK of another request can still
  arrive when a request other than the current write waits in the pipe, when such an ACK waits in
  the response pipe, or when the request in flight is such a one and has an attempt left, or a copy
  or an ACK of it is on the link (`WriteOnce.LateAck`). The rule can be broken at every write of
  every caller: by a repeat still open when the next write is asked for
  (`WriteOnce.AskingTooSoonBreaksIt`), and by the late answer of another request of tg-usb
  (`WriteOnce.OtherAnswersBreakIt`).
- A subscription resets the sequence of tg-usb but not that of the board. In every reachable state,
  every continuation of a subscription keeps the same promise, exactly when no write was asked for
  that is not ACKed, or the sequence of tg-usb is 0 already, or the board does not have the current
  write and no copy of it can come any more (`WriteOnce.SubscribeIsSafeExactlyWhen`). Else the board
  takes the write twice. A caller that did not subscribe before can thus be broken at every write
  whose number is not 0 modulo 256 (`WriteOnce.SubscribingMidWriteRepeatsIt`). After the first
  subscription of any run the next write is safe exactly when the last one had not the number 0
  modulo 256 (`WriteOnce.WriteAfterSubscription`); such runs exist at every write
  (`WriteOnce.ResubscribedAt`). The comment at wapps/tg-usb/usb.c:448 says otherwise.
- What a caller can see: nothing is open exactly when it read as many answers as it made asks, and
  then no other ACK can arrive (`WriteOnce.QuietExactlyWhen`); the first ask of a write is then safe
  exactly when the last ACKed write had another sequence (`WriteOnce.FirstAskIsSafeExactlyWhen`). A
  caller that counts before each ask of a write, asks for none under the sequence of the last ACKed
  one, and subscribes between a write and its repeat at sequence 0 alone is safe in every run
  (`WriteOnce.CarefulCallerIsSafe`). One that subscribes before its first ACK alone, or never, need
  not look at its sequences (`WriteOnce.EarlySubscriberIsFresh`), and one that never stops waiting
  before its answer need not count (`WriteOnce.PatientCallerCounts`). tg-usb stops waiting after 3 s
  and asks again, and counts nothing.
- docs/usb-http.md:70-72 lets a client follow `next` to the end of a directory. Through the 768 bytes
  of a response of tg-usb it reads every entry exactly when the text of every page is shorter;
  else it reads fewer (`Listing.EveryEntryShownExactlyWhen`). It never reads all of a directory with
  22 entries or more whose names have 17 bytes at most (`Listing.ManyShortNamesAreLost`). A name
  arrives as it is exactly when it is below 64 bytes without a quote, a backslash or a control code
  (`Listing.NameIsKeptExactlyWhen`).
- A save takes effect exactly below the largest sequence number
  (`Store.SaveTakesEffectExactlyWhen`). A failed erase or write keeps what a load gives exactly
  when it left no record, or one with the stored settings, or one that goes behind the record in
  use (`Store.FailureKeepsExactlyWhen`); a failed write that left its whole record thus comes back,
  and saving the old values does not undo it (`Store.FailedWriteMayResurface`).
- A writer of a panel never disturbs what the scan shows exactly when no swap is pending as it
  begins (`Isolation.BeginIsSafeExactlyWhen`). boards/hazk03-stm32f105rb/src/stm32_display.c:915-923
  begins twice in a row.
- An animation moves after its period, rounded up to ticks of 20 ms, exactly for periods up to
  65520 ms (`Sprite.DueExactlyWhen`), and at all exactly for periods up to 65532 ms
  (`Sprite.MovesExactlyWhen`).
- The cell of a rendered line starts half the ascent above its rows (`Render.CellTop`), thus the
  first line of a wrapped text loses those rows.
- An MQTT client publishes bodies of up to 3072 bytes and has 3072 bytes to read a packet. However
  the stream between is cut, a reader gets the message of another exactly when its topic is below
  160 bytes and its body at most 3069; a longer one ends the session of the reader, and what follows
  is lost (`MqttRuns.PublishArrivesExactlyWhen`). On any stream, a session with an open socket ends
  exactly when its buffer is full and starts with a packet larger than the buffer or a length
  without end (`MqttRuns.SessionEndsExactlyWhen`, `MqttRuns.OverOnlyFor`).
- A publish runs over the end of its body buffer exactly when the topic is above 3070 bytes
  (`MqttRuns.BuildPublish`).

## Model

| member | source | states |
|---|---|---|
| Crc.Crc16 | ipc/src/ipc_crc16.c:30-52 | the loop over two nibbles a byte gives the value of the bitwise division by 0x1021 from 0xffff, for every byte string; a null buffer gives 0xffff |
| Crc.TableIsFourShifts | ipc/src/ipc_crc16.c:13-15 | each entry of the table is its nibble at the top of the register, divided for four bits |
| Crc.TableStepIsShift4 | ipc/src/ipc_crc16.c:41-44 | one table step equals four bitwise steps with the nibble joined at the top, for every register |
| Crc.TwoStepsAreShift8 | wapps/tests/stm32stub.py:9-12 | the two table steps of a byte equal the eight bitwise steps of the reference |
| Crc.CrcFromInjective | ipc/src/ipc_crc16.c:38-49 | two registers that differ still differ after any further bytes |
| Crc.ValueInjective | ipc/src/ipc_crc16.c:51 | different registers are different 16-bit numbers |
| Crc.TwoAdjacentBytesDetected | ipc/src/ipc_crc16.c:30-52 | any change inside two adjacent bytes changes the check value |
| Crc.CheckOfNineDigits | ipc/tests/test_ipc.c:63-68 | the check value of "123456789" is 0x29b1 |
| Bytes.PutU16 | ipc/include/telegraph/ipc.h:495-508 | a 16-bit field reads back as it was written |
| Bytes.PutU32 | ipc/include/telegraph/ipc.h:499-516 | a 32-bit field reads back as it was written |
| Frames.Encode | ipc/src/ipc_encode.c:11-48 | each error for its own cause, in order, with the destination untouched; otherwise exactly the frame at the front and nothing behind it changed |
| Frames.EncodeCodes | ipc/src/ipc_encode.c:14-27 | each code of a call exactly when, and which comes first |
| Frames.WriteFrame | ipc/src/ipc_encode.c:29-47 | header, payload and check value in place, the rest of the buffer as it was |
| Frames.JudgeIsStable | ipc/src/ipc_parser.c:59-115 | bytes that arrive later never change the verdict on the front of the stream |
| Frames.EncodedIsGood | ipc/src/ipc_parser.c:88-112 | what the encoder writes is accepted as that frame, whatever follows |
| Frames.VerdictExactlyWhen | ipc/src/ipc_parser.c:59-105 | each verdict from the bytes, in both directions: a candidate waits only while its header, or the length of at most 1024 that it names, is not there; it is taken exactly when it starts with the encoding of some frame |
| Frames.FrameLayout | ipc/src/ipc_encode.c:29-47 | the place and byte order of every field of a frame, and the bytes that the check value covers |
| Frames.GoodIsEncoded | ipc/src/ipc_parser.c:63-105 | whatever is accepted is byte for byte what the encoder writes for the delivered frame |
| Frames.ChangedFrameIsRejected | ipc/src/ipc_parser.c:88-98 | a frame changed in one byte, or in two adjacent ones, of opcode, ID or payload fails its CRC at its own SOF, whatever follows |
| Scan.ScanSplits | ipc/src/ipc_parser.c:158-190 | scanning two pieces one after the other, with what waits in between, equals scanning both at once: frames, rest and counts |
| Scan.RestIsSettled | ipc/src/ipc_parser.c:158-190 | what a scan leaves is an unfinished candidate, always shorter than a frame can be |
| Scan.JumpTakes | ipc/src/ipc_parser.c:29-44 | the jump of a resync to the next SOF loses exactly what dropping one byte at a time loses |
| Scan.FlushFinishesScan | ipc/src/ipc_parser.c:124-146 | the flush of an idle line equals a scan and then the flush of what the scan left |
| Scan.FlushEmpties | ipc/src/ipc_parser.c:132-143 | an idle line leaves no byte |
| Scan.ResyncsOfFlush | ipc/src/ipc_parser.c:137-143 | the resyncs of an idle line are those of its drain and of the candidates behind it |
| Parser.Parser.constructor | ipc/src/ipc_parser.c:152-156 | an empty buffer, all counters at zero |
| Parser.Parser.Init | ipc/src/ipc_parser.c:152-156 | back to the empty state from any state |
| Parser.Parser.Discard | ipc/src/ipc_parser.c:13-21 | moving the bytes down in place removes exactly the first n |
| Parser.Parser.NextSof | ipc/src/ipc_parser.c:34-40 | the first SOF behind the first byte, or the end |
| Parser.Parser.Resynchronise | ipc/src/ipc_parser.c:29-44 | the buffer starts at that SOF; one resync and the skipped bytes are counted, modulo 32 bits |
| Parser.Parser.Examine | ipc/src/ipc_parser.c:63-98 | the checks on the buffer in place give the verdict on the held bytes |
| Parser.Parser.CheckFrame | ipc/src/ipc_parser.c:88-105 | the CRC check and the fields of a complete candidate |
| Parser.Parser.Act | ipc/src/ipc_parser.c:63-114 | the frame or the loss, the bytes taken and every counter, for each verdict |
| Parser.CountersOf | ipc/src/ipc_parser.c:63-114 | each counter is the number of its own events modulo 2^32 |
| Parser.Parser.Drain | ipc/src/ipc_parser.c:48-118 | the loop ends and delivers the frames of the whole-buffer scan, leaves its rest and adds its counts |
| Parser.Parser.Fill | ipc/src/ipc_parser.c:180-186 | the appended bytes are drained together with the held ones |
| Parser.Parser.Push | ipc/src/ipc_parser.c:158-165 | a null pointer changes nothing; otherwise the frames are those of one scan of the held and the new bytes, and buffer and counters remain those of the whole history |
| Parser.Parser.PushBytes | ipc/src/ipc_parser.c:167-187 | the same through the bounded buffer; the branch for a full buffer is never taken |
| Parser.Parser.Timeout | ipc/src/ipc_parser.c:124-146 | delivers the frames of a scan that treats an unfinished candidate as one bad byte, and empties the buffer |
| Streams.ChunkIndependence | ipc/src/ipc_parser.c:158-190 | after any history, any split of any bytes into pushes delivers and counts what one scan of all of them does |
| Streams.SameBytesSameOutcome | ipc/src/ipc_parser.c:158-190 | two splits of the same bytes give equal frames, buffer and counts of CRC errors, bad lengths and dropped bytes |
| Scan.ResyncsOfACut | ipc/src/ipc_parser.c:29-44 | for all two pieces: the resyncs of draining them apart are those of draining them together, and one more exactly when the first ends in a resync to its end and the second does not start with a SOF |
| Scan.ResyncsOfAPush | ipc/src/ipc_parser.c:167-187 | a push of any size costs the resyncs of one drain and those of its cuts at the end of the buffer |
| Streams.ResyncsOfTwoPushes | ipc/src/ipc_parser.c:158-190 | after any history, the exact difference in resyncs between two pushes and one push of the same bytes |
| Streams.CuttingCostsExactlyWhen | ipc/src/ipc_parser.c:29-44 | after any history, cutting bytes that fit the buffer costs one resync more exactly under that condition, and nothing otherwise |
| Streams.ResyncsDependOnTheSplit | ipc/src/ipc_parser.c:29-44 | the smallest instance of the row above: two bad bytes cost one resync together and two apart |
| Streams.EveryByteIsAccountedFor | ipc/src/ipc_parser.c:29-146 | in every reachable state the received bytes are, in order, the lost ones, the encodings of the delivered frames and the held ones |
| Streams.Conservation | ipc/src/ipc_parser.c:29-146 | bytes received = bytes dropped + bytes of accepted frames + bytes held |
| Streams.ScanUndoesEncode | ipc/src/ipc_encode.c:11-48 | a stream of encoded frames scans to those frames with nothing lost |
| Streams.Recovery | ipc/src/ipc_parser.c:124-190 | from every reachable state, an idle line and then any split of encoded frames delivers exactly those frames and loses nothing more |
| Streams.HeldIsACandidate | ipc/src/ipc_parser.c:48-118 | after any history the held bytes are empty, or start with a SOF whose header is not whole or names a length that fits and is not there yet: a parser never stalls on anything else |
| Streams.DamageCostsItself | ipc/src/ipc_parser.c:48-118 | without an idle line and for every cut: between any noise, headers above the maximum and frames that fail their check, all sound frames arrive in order, and each bad part costs its own bytes and one error of its kind |
| Streams.BadPartCostsOneResync | ipc/src/ipc_parser.c:29-44 | each such part in front of frames costs one resync |
| Streams.IdleFreesWhatWaits | ipc/src/ipc_parser.c:124-146 | frames that came inside the length of a frame that was cut short wait with it, and an idle line delivers them all at the cost of the cut frame alone |
| BrokerCore.PushReachesItsFollowers | wapps/tg-broker/broker.c:261-276 | a push reaches each peer exactly as often as its list names the opcode, and no one else |
| BrokerCore.CopiesCarryThePush | wapps/tg-broker/broker.c:261-276 | every copy has the opcode and payload of the push and the ID 0, and goes to a peer that lists the opcode |
| BrokerCore.PeerFrameExactlyWhen | wapps/tg-broker/broker.c:338-397 | each outcome of a peer frame exactly when: BUSY, an accepted RAW, refused settings, a payload too large, raw bytes on the line, or the encoded request under the next ID |
| BrokerCore.PeerFrameLeaves | wapps/tg-broker/broker.c:338-397 | what each outcome leaves of the broker, and that the link parser restarts exactly with an accepted RAW |
| BrokerCore.RawSetsTheLine | wapps/tg-broker/broker.c:309-365 | a RAW with any settings puts the line on exactly those, an empty one on 460800 8N1 |
| BrokerCore.LinkFramesInOrder | wapps/tg-broker/broker.c:465-483 | the frames of a read act one after the other in the order in which they came |
| BrokerCore.PassActsInOrder | wapps/tg-broker/broker.c:491-519 | a pass over the pipes acts on the frames of all of them as on one sequence |
| BrokerCore.LineLeftWrongExactlyWhen | wapps/tg-broker/broker.c:309-354 | from the protocol on its own line settings, a peer frame leaves the protocol on others exactly when it is a RAW of which the line driver took the baud rate, another one, and refused the format |
| Broker.Broker.SetLine | wapps/tg-broker/broker.c:309-334 | the settings on the line after each answer of the two nodes, the baud rate first |
| Broker.Broker.constructor | wapps/tg-broker/broker.c:107-120 | nothing in flight, no raw holder, the first ID is 1, an empty parser for the link and one of its own for each peer |
| Broker.Broker.SendInflight | wapps/tg-broker/broker.c:225-232 | the stored bytes go on the line and one attempt is counted |
| Broker.Broker.StartRequest | wapps/tg-broker/broker.c:236-257 | the next ID, never 0; the refusal of a payload too large; otherwise the request in flight and its first attempt |
| Broker.Broker.DemuxPush | wapps/tg-broker/broker.c:261-276 | the nested loops hand out one copy for each listed opcode, in order |
| Broker.Broker.OnLinkFrame | wapps/tg-broker/broker.c:285-301 | a push, an unknown ID, or the reply to the request in flight under the ID of its peer |
| Broker.Broker.OnRaw | wapps/tg-broker/broker.c:338-365 | every refusal and its order, the settings on the line, the new holder, and the restart of the link parser exactly on success |
| Broker.Broker.OnPeerFrame | wapps/tg-broker/broker.c:373-397 | raw mode, raw bytes, BUSY or a new request, and the whole new state |
| Broker.Broker.PumpLink | wapps/tg-broker/broker.c:465-483 | raw bytes go to the holder as they came, otherwise the frames of the scan are handled in order |
| Broker.Broker.PumpPeer | wapps/tg-broker/broker.c:508-515 | one read goes through the parser of that peer, and the frames of its scan are handled in order |
| Broker.Broker.PumpPeers | wapps/tg-broker/broker.c:491-519 | nothing is read while a request is in flight on entry; otherwise each peer in order, each parser given exactly its own bytes, and every frame of the pass handled |
| Broker.Broker.CheckTimeout | wapps/tg-broker/broker.c:526-540 | one more attempt, or FAILED after the third |
| Broker.Broker.CheckIdle | wapps/tg-broker/broker.c:546-554 | outside raw mode the frames of the flushed parser are handled |
| BrokerRuns.Reachable | wapps/tg-broker/broker.c:225-554 | the invariant of the broker and of its log holds after every sequence of peer frames, replies lost, repeated or delayed, pushes and timers |
| BrokerRuns.EachFrameAnsweredOnce | wapps/tg-broker/broker.c:285-301 | each peer frame has exactly one answer, to that peer and with its own ID; the raw bytes of the holder have none, the request in flight has none yet |
| BrokerRuns.RepliesAnswerTheirRequest | wapps/tg-broker/broker.c:236-257 | a reply answers the request it was made for, or one at least 65535 requests younger |
| BrokerRuns.ReplyTakenExactlyWhen | wapps/tg-broker/broker.c:293-300 | in every reachable state a reply is taken exactly when its age is a multiple of 65535 requests |
| BrokerRuns.ReplyReachesItsPeer | wapps/tg-broker/broker.c:293-300 | in every reachable state with a request in flight, a reply is handed whole, with its opcode and payload, to the peer of that request under its own ID, or changes nothing, by the same condition |
| BrokerRuns.AnswersCarryTheirReplies | wapps/tg-broker/broker.c:285-301 | over every run an answer to a request carries the opcode and payload of a reply that the link gave for it, or is FAILED; the broker answers by itself with an empty ACK or one of three codes alone |
| BrokerRuns.ArrivalsAreSteps | wapps/tg-broker/broker.c:491-519 | a run of peer frames one after the other is what the contracts of the broker make of them, in state and answers |
| BrokerRuns.RetriesAreBounded | wapps/tg-broker/broker.c:526-540 | at most three attempts of a request, all with the bytes of its peer's frame under its link ID; FAILED only after three |
| BrokerRuns.RawModeIsExclusive | wapps/tg-broker/broker.c:338-396 | never a request in flight and a raw holder; the line carries the raw payloads in order, unchanged, and no others |
| BrokerRuns.ProtocolHasItsLine | wapps/tg-broker/broker.c:338-365 | in every run without a half-taken RAW the line has the settings of the protocol whenever no peer holds it |
| BrokerRuns.ThreeTimersSettle | wapps/tg-broker/broker.c:526-540 | from every reachable state three overdue timers leave nothing in flight |
| BrokerRuns.ParsedFramesFit | ipc/src/ipc_parser.c:76-80 | no parser ever delivers a payload above the maximum |
| BrokerRuns.ParsedRequestsStart | wapps/tg-broker/broker.c:244-249 | thus the branch for a failed encode is never taken for a frame that a parser delivered |
| WriteOnce.Reachable | boards/hazk03-stm32f105rb/src/stm32_ipc.c:1137-1187 | the invariant of caller, pipes, broker, lossy link and board holds over every run in which each ask of a write and each subscription is safe by the two exact rules below |
| WriteOnce.StreamIsTheAckedWrites | boards/hazk03-stm32f105rb/src/stm32_ipc.c:1155-1186 | over every such run, with failed writes repeated, other requests of tg-usb and of its peers, retries of the broker, lost frames, subscriptions also in the middle of a write, and the wrap at 256, the device stream is the ACKed writes in order and at most the current one, each once |
| WriteOnce.RepeatIsKnown | boards/hazk03-stm32f105rb/src/stm32_ipc.c:1159-1173 | a copy carries the sequence of the board exactly when the board took its write |
| WriteOnce.AskIsSafeExactlyWhen | wapps/tg-usb/usb.c:198-224 | in every reachable state every continuation of an ask of a write that is not empty keeps that promise, exactly when the board has the write, or no ACK of another request can still arrive and the board does not remember its sequence |
| WriteOnce.SubscribeIsSafeExactlyWhen | wapps/tg-usb/usb.c:436-457 | in every reachable state every continuation of a subscription keeps that promise, exactly when no write is open, or the sequence is 0, or the board has not the write and no copy of it can come any more |
| WriteOnce.AsksAreAnsweredOnce | wapps/tg-usb/usb.c:198-224 | in every run the asks made are the answers read and the asks still open |
| WriteOnce.QuietExactlyWhen | wapps/tg-usb/usb.c:198-224 | in every run nothing is open exactly when as many answers were read as asks were made, and then no late ACK can come |
| WriteOnce.FirstAskIsSafeExactlyWhen | wapps/tg-usb/usb.c:379-403 | with every answer read, the first ask of a write is safe exactly when the last ACKed write had another sequence |
| WriteOnce.CarefulCallerIsSafe | wapps/tg-usb/usb.c:379-403 | a caller that writes only when it read an answer to every ask and under another sequence than the last ACKed write, and subscribes in the middle of a write at sequence 0 alone, keeps the promise in every run, whatever it stops waiting for |
| WriteOnce.EarlySubscriberIsFresh | wapps/tg-usb/usb.c:436-457 | a caller that subscribes before its first ACK alone, or never, meets the conditions on the sequences without looking |
| WriteOnce.PatientCallerCounts | wapps/tg-usb/usb.c:212-221 | a caller that never stops waiting before its answer meets the condition on the answers without counting |
| WriteOnce.AskingTooSoonBreaksIt | wapps/tg-usb/usb.c:145-178 | at every write of every caller, a run by the rules after which asking for the next write is not safe, because a repeat is still open |
| WriteOnce.OtherAnswersBreakIt | wapps/tg-usb/usb.c:198-224 | at every write of every caller, the same because the answer of another request is late |
| WriteOnce.WriteAfterSubscription | wapps/tg-usb/usb.c:436-457 | in every run, after its first subscription was answered and no late ACK can come, the next write is safe exactly when the last one was not number 0 modulo 256 |
| WriteOnce.ResubscribedAt | wapps/tg-usb/usb.c:436-457 | such a run exists at every write of every caller |
| WriteOnce.SubscribingMidWriteRepeatsIt | wapps/tg-usb/usb.c:443-454 | at every write of a caller that did not subscribe before, a run in which the board took the write without its ACK being read: a subscription then is safe exactly when the number is 0 modulo 256, and else the repeat makes the board take it twice |
| UsbBoard.Board.UsbOpen | boards/hazk03-stm32f105rb/src/stm32_ipc.c:1021-1072 | every failure and what it leaves; another device forgets the sequence |
| UsbBoard.Board.UsbWrite | boards/hazk03-stm32f105rb/src/stm32_ipc.c:1137-1187 | the answer, the stream of each device and the sequence for every payload |
| UsbBoard.OpensExactlyWhen | boards/hazk03-stm32f105rb/src/stm32_ipc.c:1021-1072 | when a channel opens, and that a failed open leaves the channel in use, its sequence and the streams |
| UsbBoard.WriteAnswers | boards/hazk03-stm32f105rb/src/stm32_ipc.c:1137-1187 | each answer exactly when, for every payload, and that only a sequence other than the last one of the channel adds data |
| UsbBoard.WriteFollowsTheProtocol | boards/hazk03-stm32f105rb/src/stm32_ipc.c:1155-1186 | on the device in use the board does what the write-once protocol asks and touches no other device |
| UsbBoard.AnotherDeviceStartsAfresh | boards/hazk03-stm32f105rb/src/stm32_ipc.c:1060-1069 | the first write to another device is never taken for a repeat |
| Ring.Reachable | boards/hazk03-stm32f105rb/src/stm32_ipc.c:939-971 | the slots from tail to head hold the stored bytes under every interleaving of the single loads and stores of both sides |
| Ring.TakenIsAPrefix | boards/hazk03-stm32f105rb/src/stm32_ipc.c:962-971 | what is taken is a prefix of what was stored, in order |
| Ring.GivesUpExactlyWhen | boards/hazk03-stm32f105rb/src/stm32_ipc.c:942-968 | in every reachable state a take gives up at its load of the head exactly when all stored bytes are taken, a put at its load of the tail exactly when 2047 slots are in use |
| Ring.TakeGivesWhatIsThere | boards/hazk03-stm32f105rb/src/stm32_ipc.c:962-971 | from every reachable state and under every interleaving with puts, a take ends within 4 max + 1 of its own steps and gives all that was stored at its call as far as max goes, and exactly that if no put stores more |
| Ring.PutKeepsWhatFits | boards/hazk03-stm32f105rb/src/stm32_ipc.c:942-960 | under every interleaving with takes, a put ends within 4 len + 1 of its own steps and stores all of its bytes, or as many as there was room for at its call at least, and exactly that if nothing is taken |
| Ring.OccupancyIsBounded | boards/hazk03-stm32f105rb/src/stm32_ipc.c:948-960 | at most 2047 slots are in use |
| Ring.NoUnreadSlotIsOverwritten | boards/hazk03-stm32f105rb/src/stm32_ipc.c:957 | a store of the producer leaves every unread byte in its slot |
| Ring.NothingLostExactlyWhen | boards/hazk03-stm32f105rb/src/stm32_ipc.c:952-955 | the finished puts kept every byte exactly when none was cut short, and the overflow counter is the number of those modulo its 32 bits |
| Ring.CounterTellsTheLoss | boards/hazk03-stm32f105rb/src/stm32_ipc.c:942-955 | while fewer than 2^32 puts were cut, the overflow counter is 0 exactly when every finished put kept every byte |
| DirPages.PutRecord | boards/hazk03-stm32f105rb/src/stm32_ipc.c:706-715 | one record in place, everything before it unchanged |
| DirPages.RecordLayout | boards/hazk03-stm32f105rb/src/stm32_ipc.c:706-715 | the place and byte order of every field of a record |
| DirPages.FsList | boards/hazk03-stm32f105rb/src/stm32_ipc.c:678-722 | for a directory of any size: the next index and as many whole records as fit of the entries whose 16-bit ordinal the request names, never above the reply size |
| DirPages.ListedIsPage | boards/hazk03-stm32f105rb/src/stm32_ipc.c:689-698 | up to 65536 entries the ordinals do not wrap: the reply is the page that starts at the entry named |
| DirPages.RecordParses | wapps/tg-usb/usb.c:504-524 | the fields of a record and its name read back as they were written, whatever follows; what tg-usb makes of the name is `Listing.NameIsKeptExactlyWhen` |
| DirPages.PageHolds | boards/hazk03-stm32f105rb/src/stm32_ipc.c:684-698 | a page decodes to the entries from its index up to the next one, or to the end |
| DirPages.PageMoves | boards/hazk03-stm32f105rb/src/stm32_ipc.c:689-698 | a page moves the index on or is the last |
| DirPages.PageIsFull | boards/hazk03-stm32f105rb/src/stm32_ipc.c:700-705 | a page ends before the end of the directory only where the next record would pass 516 bytes |
| DirPages.EveryEntryOnce | boards/hazk03-stm32f105rb/src/stm32_ipc.c:678-722 | for up to 65535 entries, following the index of the replies of the board from 0 ends, and their records together are every entry once, in order, with its name, its kind and the size of a file |
| Listing.Append | wapps/tg-usb/usb.c:288-303 | the text behind what is there when a byte stays free, else what is there |
| Listing.CopyName | wapps/tg-usb/usb.c:307-319 | the plain characters of the name in order, as many as there is room for |
| Listing.NameIsKeptExactlyWhen | wapps/tg-usb/usb.c:305-319 | the copied name is the name exactly when it is below 64 bytes and plain |
| Listing.PutItem | wapps/tg-usb/usb.c:504-524 | one record of the reply joins the body as JSON, or the list is what fits |
| Listing.RouteList | wapps/tg-usb/usb.c:482-533 | for every reply of the board: the body is the JSON of the largest number of whole entries that fit, or an error when its end does not |
| Listing.ShownExactlyWhen | wapps/tg-usb/usb.c:512-520 | all entries are put exactly when the text of all of them fits |
| Listing.ShownIsLargest | wapps/tg-usb/usb.c:512-520 | the entries put are the most whose text fits |
| Listing.ListReads | wapps/tg-usb/usb.c:305-307 | a JSON reader gets the index and the entries back from the body, for all entries with plain names |
| Listing.TextOfFile | wapps/tg-usb/usb.c:513-518 | the JSON of a file of any name, character by character |
| Listing.TextOfDir | wapps/tg-usb/usb.c:513-518 | the JSON of a directory of any name |
| Listing.TextOfTwo | wapps/tg-usb/usb.c:494-531 | the JSON around two entries |
| Listing.KeptIsPlain | wapps/tg-usb/usb.c:307-319 | every copied name is plain, thus no name ends its string early |
| Listing.KeptTakes | wapps/tg-usb/usb.c:307-319 | byte by byte: quotes, backslashes and control codes are dropped, every other byte stays |
| Listing.ResponseIsWholeExactlyWhen | wapps/tg-usb/usb.c:494-533 | the response holds all entries of a reply exactly when their whole text is below 768 bytes; else fewer, or it is an error |
| Listing.EveryEntryShownExactlyWhen | docs/usb-http.md:70-72 | a client that follows the index of the responses reads every entry once, in order, exactly when the text of every page fits; else it reads fewer |
| Listing.ShownEntriesAreThose | docs/usb-http.md:70-72 | then each item has the kind of its entry, the size of a file, and the name byte for byte when it is plain and below 64 bytes |
| Listing.ManyShortNamesAreLost | docs/usb-http.md:70-72 | of every directory of 22 entries or more with names of 17 bytes at most it does not read them all |
| Store.AnyVersionReadsBack | boards/hazk03-stm32f105rb/src/stm32_flash.c:112-159 | a record of any length reads back: what both layouts know from the record, the rest from the defaults |
| Store.ReadsExactlyWhen | boards/hazk03-stm32f105rb/src/stm32_flash.c:112-159 | a block reads as a record exactly when it starts with the bytes of one, of any version and length |
| Store.RecordLayout | boards/hazk03-stm32f105rb/src/stm32_flash.c:281-290 | the place and byte order of every field of a record, what the check value covers, and the erased rest |
| Store.OverlayAt | boards/hazk03-stm32f105rb/src/stm32_flash.c:140-159 | byte by byte: the setting from the record as far as that goes, else the default |
| Store.ConfigStore.Load | boards/hazk03-stm32f105rb/src/stm32_flash.c:218-251 | the newer readable record goes to the caller and the cache; without one nothing changes |
| Store.ConfigStore.Save | boards/hazk03-stm32f105rb/src/stm32_flash.c:257-310 | the skipped write, each failure and loss of power, and the whole new state |
| Store.StepIsAtomic | boards/hazk03-stm32f105rb/src/stm32_flash.c:275-309 | a completed save sets the durable value, a failed one keeps it, one cut short does either; the cache holds what a load gives |
| Store.LoadGivesTheLastSave | boards/hazk03-stm32f105rb/src/stm32_flash.c:218-310 | over every run a load gives the last completed save or one cut short since, and the cached value is what a load gives |
| Store.SaveTakesEffectExactlyWhen | boards/hazk03-stm32f105rb/src/stm32_flash.c:284 | a completed save of new values takes effect exactly below the largest sequence number |
| Store.FailureKeepsExactlyWhen | boards/hazk03-stm32f105rb/src/stm32_flash.c:292-302 | a failed erase or write keeps what a load gives exactly when the block holds no record, or the stored settings, or a record that goes behind the one in use |
| Store.FailedWriteMayResurface | boards/hazk03-stm32f105rb/src/stm32_flash.c:298-302 | its instance for a failed write that left its whole record: the next load gives it, even after the old values were saved again |
| Store.LostBetweenEraseAndWrite | boards/hazk03-stm32f105rb/src/stm32_flash.c:292-298 | a loss of power between the erase and the write leaves no record and keeps the stored value |
| Panel.MapXIsInvolution | boards/hazk03-stm32f105rb/src/sm1626d.c:65-70 | the block-reversed map of the columns is its own inverse and stays on the panel |
| Panel.MapTurnsChips | boards/hazk03-stm32f105rb/src/sm1626d.c:65-70 | in each chip of 16 columns, column r changes places with 15 - r, and rows start at 2 |
| Panel.RegisterLayout | boards/hazk03-stm32f105rb/src/sm1626d.c:215-253 | the word of a row: 16 bits of which the row is set, then 80 or 32 columns |
| Panel.Device.Begin | boards/hazk03-stm32f105rb/src/sm1626d.c:134-144 | the first change after a swap starts from what the scan shows |
| Panel.Device.SwapNow | boards/hazk03-stm32f105rb/src/sm1626d.c:148-154 | the changed image is shown exactly when a writer gave one |
| Panel.Device.DrawPixel | boards/hazk03-stm32f105rb/src/sm1626d.c:176-196 | one pixel of the back image at its mapped place, clipped ones lost, the shown image untouched |
| Panel.Device.DrawBitmap | boards/hazk03-stm32f105rb/src/sm1626d.c:160-174 | the rectangle of the bitmap on the back image |
| Panel.Device.DisplayPixels | boards/hazk03-stm32f105rb/src/stm32_display.c:954-958 | a whole change waits for the swap, the shown image untouched |
| Panel.RectShows | boards/hazk03-stm32f105rb/src/sm1626d.c:160-196 | for every position and size: each pixel of the bitmap on the panel is at its mapped column and row, all others are as before |
| Panel.ShiftCombined | boards/hazk03-stm32f105rb/src/sm1626d.c:215-253 | whatever the registers held, one pass leaves each with its own panel's row above a one-hot row select |
| Panel.ShiftBits | boards/hazk03-stm32f105rb/src/sm1626d.c:259-290 | a part of a row clocks exactly those bits, cut at the end of the row |
| Panel.LastBitsStay | boards/hazk03-stm32f105rb/src/sm1626d.c:223-225 | bits sent before the row leave the shorter register again |
| Panel.PartsMakeTheRow | boards/hazk03-stm32f105rb/src/sm1626d.c:259-290 | a row sent in two parts, cut anywhere, gives the register of the one pass |
| Panel.BitmapReachesTheRegister | boards/hazk03-stm32f105rb/src/sm1626d.c:160-253 | each bit of a drawn bitmap, counted from the high end of its byte, is in the register at the place of its column in its turned chip, under exactly one selected row |
| Isolation.Reachable | boards/hazk03-stm32f105rb/src/sm1626d.c:134-154 | the invariant of the two images holds under every interleaving of a locked writer and the swap |
| Isolation.ChangesAppearWhole | boards/hazk03-stm32f105rb/src/stm32_display.c:777-787 | with no swap pending as writers begin: the flags agree outside a writer, a change is not seen before its swap and whole after it, and none is lost |
| Isolation.OnlyASwapChangesThePanel | boards/hazk03-stm32f105rb/src/sm1626d.c:148-154 | no other step changes what the scan shows |
| Isolation.BeginIsSafeExactlyWhen | boards/hazk03-stm32f105rb/src/stm32_display.c:915-923 | a writer that begins now leaves the shown image alone in every continuation exactly when no swap is pending |
| Bitmap.SetPixel | tools/mksprite.py:89-90 | one pixel of a bitmap is lit, every other one stays |
| Sprite.Pack | tools/mksprite.py:78-93 | the bitmap holds each pixel of each frame at its place, the padding dark |
| Sprite.Animation.AnimDraw | boards/hazk03-stm32f105rb/src/stm32_display.c:409-440 | the window at its offset, wrapped, on its rectangle of the back image |
| Sprite.Animation.AnimTick | boards/hazk03-stm32f105rb/src/stm32_display.c:455-474 | the 16-bit counters of a tick, and the window drawn exactly when a step is due |
| Sprite.DueExactlyWhen | boards/hazk03-stm32f105rb/src/stm32_display.c:455-461 | the first step comes after the period in whole ticks exactly for periods up to 65520 |
| Sprite.MovesExactlyWhen | boards/hazk03-stm32f105rb/src/stm32_display.c:455-459 | a step comes at some tick exactly for periods up to 65532 |
| Sprite.MovesOn | boards/hazk03-stm32f105rb/src/stm32_display.c:461-468 | for any source and step, across or down, the offset after n due steps is n steps modulo the side |
| Sprite.AfterSteps | boards/hazk03-stm32f105rb/src/stm32_display.c:461-468 | for a packed sprite it is the start of frame n modulo their count |
| Sprite.WindowShowsTheFrame | boards/hazk03-stm32f105rb/src/stm32_display.c:416-433 | after n due steps the window is exactly frame n modulo their count, and the offset stays below the width |
| Sprite.WindowShowsTheSource | boards/hazk03-stm32f105rb/src/stm32_display.c:416-433 | for any source, across or down: each pixel of the window is the pixel of the source n steps further around its end, and dark beyond its other side |
| SpriteFile.HeaderFields | tools/mksprite.py:92 | the header reads back field by field |
| SpriteFile.Animate | boards/hazk03-stm32f105rb/src/stm32_display.c:979-1106 | for a file and for given pixels: every error code in order, the new animation, and its first window drawn only on success |
| SpriteFile.Prepare | boards/hazk03-stm32f105rb/src/stm32_display.c:979-1100 | for a file and for given pixels: the checks, the source buffer taken over in place and the narrow fields |
| SpriteFile.AnimateText | boards/hazk03-stm32f105rb/src/stm32_display.c:1055-1105 | for a text: the error codes, the source exactly the drawn text and its gap, and the first window drawn only on success |
| SpriteFile.ScrollShowsTheText | boards/hazk03-stm32f105rb/src/stm32_display.c:1055-1083 | after n due steps across, each pixel of the window is the pixel of the text n steps further, around the end, and the gap is dark |
| SpriteFile.FailureKeepsTheAnimation | boards/hazk03-stm32f105rb/src/stm32_display.c:1045-1054 | a failed call starts nothing; only a file that ends early changes the source bytes of the running animation |
| SpriteFile.CodesExactlyWhen | boards/hazk03-stm32f105rb/src/stm32_display.c:979-1054 | each code of a call exactly when, for a file and for given pixels |
| SpriteFile.StartedAsAsked | boards/hazk03-stm32f105rb/src/stm32_display.c:1084-1100 | an animation starts at the place and with the period of the request, and with the size, step and direction of the header or of the request |
| SpriteFile.TextCodesExactlyWhen | boards/hazk03-stm32f105rb/src/stm32_display.c:1055-1083 | each code of a text exactly when, and the width of its source: the text and a gap of three characters, or the window |
| SpriteFile.PackedSpritePlays | boards/hazk03-stm32f105rb/src/stm32_display.c:1019-1041 | the file of a packed sprite is taken exactly when its bitmap fits the buffer of the panel, and then plays its frames in turn for ever |
| SpriteFile.FrameReachesThePanel | boards/hazk03-stm32f105rb/src/stm32_display.c:409-440 | each pixel of frame n modulo their count is on the panel at the column of its chip, where the request puts it |
| Font.DecodeUndoesEncode | boards/hazk03-stm32f105rb/src/fontlookup.c:20-44 | the UTF-8 form of every 16-bit code point decodes to it and to its own length, whatever follows |
| Font.Find | boards/hazk03-stm32f105rb/src/fontlookup.c:50-73 | the binary search finds a code point if and only if it is present |
| Font.Next | boards/hazk03-stm32f105rb/src/fontlookup.c:75-103 | the length and the columns of the character: its own, else the ASCII ones, else none |
| Font.StoredCharacterDraws | boards/hazk03-stm32f105rb/src/fontlookup.c:75-92 | the UTF-8 text of each stored code point gives its own columns and length |
| Font.AsciiDraws | boards/hazk03-stm32f105rb/src/fontlookup.c:94-100 | without an own entry, byte 0x20 + k takes one byte and has the columns of entry k of the built-in table |
| Font.OtherIsBlank | boards/hazk03-stm32f105rb/src/fontlookup.c:82-103 | every other character without an own entry has five blank columns |
| Font.EntryColumns | boards/hazk03-stm32f105rb/src/fontlookup.c:84-92 | an own entry gives its columns as far as the width of the font, then blanks |
| Font.MalformedIsASpace | boards/hazk03-stm32f105rb/src/fontlookup.c:20-44 | a space of one byte comes exactly from a space or from a byte that starts no whole character |
| FontBank.Bank.Fill | boards/hazk03-stm32f105rb/src/fontext.c:124-149 | a file is taken exactly when it holds all entries in ascending order; the other bank is untouched |
| FontBank.Bank.Load | boards/hazk03-stm32f105rb/src/fontext.c:99-164 | the published table is the file's on success and the old one otherwise, and the one published before stays whole |
| FontBank.LoadAll | boards/hazk03-stm32f105rb/src/fontext.c:99-164 | the same over any sequence of loads |
| FontBank.LastGoodFileIsPublished | boards/hazk03-stm32f105rb/src/fontext.c:151-155 | after any sequence of good and bad loads the published table is that of the last good file and strictly ascending |
| FontBank.AcceptedFontDraws | boards/hazk03-stm32f105rb/src/fontext.c:143-148 | the UTF-8 text of each character of an accepted file draws the columns that the file gives |
| FontBank.BuiltFontIsTaken | tools/mkfont.py:125-132 | what the font builder writes is taken exactly when width, rows, ascent and count are in range and the characters go up, and the table then has its characters, columns and cell |
| FontBank.BuiltGlyphDraws | boards/hazk03-stm32f105rb/src/fontext.c:99-164 | the UTF-8 text of each built glyph draws the columns that were built for it |
| FontBank.TakenFontIsBuilt | boards/hazk03-stm32f105rb/src/fontext.c:99-149 | nothing else is taken: an accepted file starts with what the builder writes for some such font |
| Wrap.MeasureText | boards/hazk03-stm32f105rb/src/sm1626d_text.c:16-35 | the width is the columns of all characters and a gap behind each but the last |
| Wrap.WidthOfText | boards/hazk03-stm32f105rb/src/sm1626d_text.c:16-35 | that width from the number of characters and the columns of one |
| Wrap.FitLine | boards/hazk03-stm32f105rb/src/stm32_display.c:494-509 | the scan stops at the last character that fits, and knows the last space before it |
| Wrap.WrapText | boards/hazk03-stm32f105rb/src/stm32_display.c:483-532 | the two arrays hold the greedy lines of the text |
| Wrap.AdvanceIsLargest | boards/hazk03-stm32f105rb/src/stm32_display.c:494-509 | no longer piece of the text that ends between characters fits |
| Wrap.SpaceIsACharacter | boards/hazk03-stm32f105rb/src/stm32_display.c:503-506 | a space byte is never inside a longer character, thus a break there is between characters |
| Wrap.LinesPromise | boards/hazk03-stm32f105rb/src/stm32_display.c:478-532 | from every place between two characters on, the lines fit, are cut between characters and tile the text with at most one skipped space behind each, all of it when a line is left |
| Wrap.LinesAreGreedy | boards/hazk03-stm32f105rb/src/stm32_display.c:483-532 | each line is the rest of the text if that fits, else ends at the last space that fits, which is skipped, else at the last character that fits |
| Wrap.WrappedBitmapFits | boards/hazk03-stm32f105rb/src/stm32_display.c:607-611 | the bitmap of a wrapped text and its gap fits the 512 bytes of scratch |
| Render.RenderTextAt | boards/hazk03-stm32f105rb/src/sm1626d_text.c:76-118 | exactly the pixels of the text join the bitmap, clipped at its edges |
| Render.RenderText | boards/hazk03-stm32f105rb/src/sm1626d_text.c:120-126 | exactly the pixels of the text, on a dark bitmap |
| Render.RenderTextLines | boards/hazk03-stm32f105rb/src/sm1626d_text.c:128-142 | exactly the pixels of the lines, on a dark bitmap |
| Render.InkedAt | boards/hazk03-stm32f105rb/src/sm1626d_text.c:82-117 | a pixel is lit exactly when the column given by the remainder, of the character given by the quotient by the advance, has a dot there |
| Render.InkStaysInside | boards/hazk03-stm32f105rb/src/sm1626d_text.c:16-35 | no text inks beyond its measured width or its cell |
| Render.CellTop | boards/hazk03-stm32f105rb/src/sm1626d_text.c:100-103 | the cell of line k starts half the ascent above row k times the line height |
| Render.LettersAreCentred | boards/hazk03-stm32f105rb/src/sm1626d_text.c:100-103 | in a cell of any height as many rows are above the letters as below them, or one fewer |
| Render.EachRowHasOneLine | boards/hazk03-stm32f105rb/src/sm1626d_text.c:138-141 | no two lines touch |
| Render.TextColumn | boards/hazk03-stm32f105rb/src/stm32_display.c:336-355 | a line that fits still fits from its start column, for every alignment |
| Render.AlignedLine | boards/hazk03-stm32f105rb/src/stm32_display.c:336-355 | a line that fits starts at the left edge, ends at the right one, or has as much room on both sides, or one column less on its left |
| Render.WrappedTextIsDrawn | boards/hazk03-stm32f105rb/src/stm32_display.c:578-621 | every column of every character of every line of a wrapped text is at its place and complete |
| Render.DotIsABit | boards/hazk03-stm32f105rb/src/sm1626d_text.c:82-117 | a character has a dot where bit `row` of the word of its column is set |
| Render.AsciiTextIsDrawn | boards/hazk03-stm32f105rb/src/stm32_display.c:578-621 | a wrapped text of ASCII shows, for each of its bytes, the dots of its entry in the built-in table, at its place |
| Mqtt.VarintRoundTrip | wapps/tg-hass/mqtt.c:56-71 | a length below 128 to the power of its bytes reads back, whatever follows |
| Mqtt.VarintPrefixIsIncomplete | wapps/tg-hass/mqtt.c:141-157 | no proper prefix of a length is a length |
| Mqtt.PutVarint | wapps/tg-hass/mqtt.c:56-71 | every length up to 268435455 in at most four bytes, nothing else written |
| Mqtt.GetVarint | wapps/tg-hass/mqtt.c:141-157 | the value and its bytes, or none while it is incomplete |
| Mqtt.StreamSplits | wapps/tg-hass/mqtt.c:298-355 | decoding two pieces one after the other equals decoding both at once |
| Mqtt.NextIsFirst | wapps/tg-hass/mqtt.c:312-352 | a poll takes the first message of the whole-stream decoder, or finds that none is whole |
| Mqtt.MessageExactlyWhen | wapps/tg-hass/mqtt.c:325-350 | a packet gives a message exactly when it is a PUBLISH whose body is a topic below 160 bytes behind its length, an identifier above QoS 0, and the payload |
| Mqtt.Client.Consume | wapps/tg-hass/mqtt.c:161-169 | exactly the first n bytes are removed in place |
| Mqtt.Client.Fill | wapps/tg-hass/mqtt.c:118-135 | the read joins the buffer; a full buffer or a closed socket ends the session and changes nothing |
| Mqtt.Client.Header | wapps/tg-hass/mqtt.c:313-323 | whether a packet is whole, its size and its body |
| Mqtt.Client.Message | wapps/tg-hass/mqtt.c:325-349 | whether a packet is a message, and where topic and payload are |
| Mqtt.Client.First | wapps/tg-hass/mqtt.c:312-354 | packets without a message are consumed up to the first with one, which stays in place |
| Mqtt.Client.Poll | wapps/tg-hass/mqtt.c:298-355 | the last packet is dropped only now; then the next message, nothing yet, or the end of the session exactly for a full buffer or a closed socket |
| MqttRuns.NothingIsLost | wapps/tg-hass/mqtt.c:298-355 | after any polls, the delivered messages and those in the buffer are the messages of all bytes received |
| MqttRuns.StreamDecodes | wapps/tg-hass/mqtt.c:91-110 | the decoder gives exactly the PUBLISH messages of a stream of packets |
| MqttRuns.NeverStuck | wapps/tg-hass/mqtt.c:119-121 | on such a stream with packets up to the buffer size the buffer never stays full between polls |
| MqttRuns.PollsDeliverTheStream | wapps/tg-hass/mqtt.c:298-355 | for every cut of such a stream the polls deliver its messages in order, and all of them once the socket is quiet |
| MqttRuns.FullEndsOnlyFor | wapps/tg-hass/mqtt.c:119-121 | a full buffer holds no whole packet exactly for a packet above its size or a length without end |
| MqttRuns.SessionEndsExactlyWhen | wapps/tg-hass/mqtt.c:118-121 | after any polls of any stream, the next poll of an open socket ends the session exactly when the buffer is full and starts with such a packet |
| MqttRuns.OverOnlyFor | wapps/tg-hass/mqtt.c:298-310 | whatever the stream, a session that is over while its socket was open has such a packet in front of a full buffer |
| MqttRuns.OversizedEndsTheSession | wapps/tg-hass/mqtt.c:118-121 | for every cut of a stream with a packet larger than the buffer behind packets that fit, the session ends and delivered the messages before, no more and no fewer |
| MqttRuns.BuildPublish | wapps/tg-hass/mqtt.c:262-277 | for every topic and payload: the body of a publish in place, a refusal, or a topic that runs over the buffer, each exactly when |
| MqttRuns.PublishLayout | wapps/tg-hass/mqtt.c:93-107 | the bytes of a publish: its type and flags, the length in one or two bytes, and the body |
| MqttRuns.PublishReadsBack | wapps/tg-hass/mqtt.c:91-110 | a decoder that has the whole packet of a publish gives its message exactly when the topic fits the record, whatever follows |
| MqttRuns.PublishArrivesExactlyWhen | wapps/tg-hass/mqtt.c:262-279 | between any packets that fit and for every cut, the session of a reader delivers a published message exactly when its topic is below 160 bytes and its body at most 3069; else its packet is passed over, or ends the session |

## Left out

- Hardware and system calls: GPIO, timers, SPI, clocks, USB enumeration, mounting and formatting enter as events or not at all.
- HTTP routes, JSON, Home Assistant discovery, logging, over-the-air updates, the time policy, payload checks of the opcodes and the decimal parser: short branches or fixed text.
- Callbacks of the parser are returned as the sequence of frames, in order; a null parser pointer is not modelled.
- Time: an overdue reply, an idle line and the deadline of a caller are events that may come at any moment, thus no proof depends on the 200 ms, 20 ms or 3 s of the sources.
- CRC detection of changes that cross from the payload into the check value or into the length field is not claimed; such a change can escape.
- Broker.Broker.PumpPeers: what each read of a pipe gives is an argument, empty for a pipe that is closed or holds nothing.
- Broker.Broker.OnRaw: what the two nodes of the line driver answer is an argument; the text form of the settings is not modelled, and the line is taken to start with the settings of the protocol.
- BrokerRuns.EachFrameAnsweredOnce: counts the answers that the broker attempts; a response pipe that is full or closed loses them, and that loss is not modelled.
- BrokerRuns.RepliesAnswerTheirRequest: a frame of the link is a reply to an earlier request or a push; damaged frames that pass the CRC are not modelled.
- No fairness among the peers and no claim that their requests wait in the pipes: a pass tests for a request in flight on entry alone, and later peers of the pass get BUSY.
- WriteOnce.StreamIsTheAckedWrites: each ask of a write and each subscription is safe in the sense of WriteOnce.AskIsSafeExactlyWhen and WriteOnce.SubscribeIsSafeExactlyWhen, because the code loses or repeats writes otherwise; an unsafe one at an empty write is excluded as well; the link delivers in order and drops a reply before 65535 later requests; the device takes all bytes of a write or none.
- WriteOnce.AskIsSafeExactlyWhen: a read of tg-usb takes what waits in the response pipe, up to 256 bytes, and the last answer in it counts. The model lets it end behind any answer, because pushes of the channel share that pipe and can fill a read anywhere. For answers that already wait with no push between them it ends behind the last one, thus a state with an ACK of another request behind which a NACK waits is called unsafe although it may not be.
- WriteOnce.Reachable: one channel, thus the board never forgets its sequence; the cut of a write at 1022 bytes comes before the model.
- UsbBoard.Board.UsbWrite: the repeat note that goes to the log is left out.
- Ring.Reachable: the ring is a machine over values, because the interleaving is the point; memory is sequentially consistent, and a read of a shared index is one step.
- DirPages.FsList: the path checks and the failure to open the directory are left out; names are at most 255 bytes.
- DirPages.EveryEntryOnce: for directories above 65535 entries the ordinals wrap and 65535 means the end, and nothing is claimed; the directory does not change between pages; what tg-usb shows of them is in Listing.
- Listing.RouteList: the request line, the check of the path and the HTTP head are left out; a failed or short answer of the board gives an error before; characters are the bytes of the body.
- Store.ConfigStore.Load: a flash read that fails reads as a block without a record; the null device is left out.
- Store.LoadGivesTheLastSave: an operation that fails or loses its power leaves a block that keeps the stored value, in the exact sense of Store.FailureKeepsExactlyWhen, or the new settings if a write lost its power; the sequence is below its maximum, in the sense of Store.SaveTakesEffectExactlyWhen.
- Store.AnyVersionReadsBack: settings are the ten bytes of the structure, not its fields.
- Panel.ShiftCombined: the lines of the port are two bits for each clock; brightness, on-time and the latch are left out, as is the clear of an image.
- Isolation.ChangesAppearWhole: an image is a row of pixels; the copy of an image and the swap are one step each, and the lock admits one writer.
- Sprite.WindowShowsTheFrame: for frames side by side; other sources and the vertical direction have Sprite.MovesOn and the drawn window.
- SpriteFile.Animate: a sprite file is given as the results of its two reads, and a text has SpriteFile.AnimateText; the animation of the other panel and the stop of one are separate objects.
- Font.Next: the built-in ASCII glyphs are an argument, already moved down by the ascent.
- Render.RenderTextAt: drawing a text straight onto a panel is not modelled.
- Wrap.LinesPromise: for fonts no wider than the panel; a wider one gives lines without bytes, which the loop still ends on.
- Mqtt.Client.Poll: the wait for CONNACK and SUBACK, which consumes packets on its own, the keepalive and errors of the socket other than its end are left out.
- MqttRuns.BuildPublish: what a topic that runs over the buffer leaves in memory is not modelled.
- MqttRuns.PublishArrivesExactlyWhen: the broker between passes the packet on as it is; its own limits are left out.
