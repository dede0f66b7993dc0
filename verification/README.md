# udptoserial: a verified model of its link, framing and message layers

udptoserial carries packets between two computers over a serial line. This project models the
layers of it that have to agree at both ends of the line, and proves what they promise to each
other:

- **the half-duplex link** (`halfduplex/Half_duplex.cpp`), an ISO 1745 master/slave protocol
  between a controller "alpha" and a peer "bravo": `LinkMessage` (printer and parser),
  `LinkStream` (the drain loop on a chunked byte stream), `LinkStation` (one station: handlers as
  functions on a station value, and the class `HalfDuplex` whose methods carry them out in place),
  `LinkSystem` (two stations, two FIFO links, and the invariant of every step), `LinkTheorems`
  (what holds of every run) and `LinkRefinement` (the same system with bytes on the lines);
- **SLIP framing** (`libhorizr/slip.cpp`) in `Slip`, and the serial path of one TCP handler
  (`udptoserial/Tcp_server_handler.cpp`, the receive part of `udptoserial/main.cpp`) in `SerialPath`;
- **packed text messages** (`udptoserial/parser.c`, `base64.c`, `queue.c`): `Crc16`, `Base64`,
  `PackedMessage`, `PackedTheorems` and `PacketQueue`.

A run of a system is any list of steps; a step that is not enabled changes nothing, so every
theorem about `Run`, `ByteRun` or `Play` speaks of all interleavings. Exceptions and `abort()` are
an explicit `fault` of a station. What goes over a wire is also stated in numbers (`WireForm`,
`WritesExactly`, `EscapeIsWire`, `PackedLayout`, `CrcFromOnes`, `EncodeDigits`), apart from the
definitions that encoder and decoder share. `dafny verify dfyconfig.toml` checks everything.

## Environment assumptions

- The links of the half-duplex system are lossless FIFOs. Noise may turn any INFO message in
  flight into one that the parser rejects, as often as it likes.
- The link is timely: the no-response timer may fire only when nothing is in flight in either
  direction. That it then never does fire is a theorem (`HalfDuplexSafety`).
- In the byte-level system the enqueued headers and bodies satisfy `InfoOk` (no STX or ETX in a
  header, no ETX in a body, at most `MAX_MESSAGE_LEN` bytes); `InfoRoundTrip` shows that this is
  exactly the condition under which a message survives printing and parsing.
- The wire of the serial path is a lossless byte FIFO.

## What the code does that its comments do not say

- Polling with its own queue empty, the controller waits for bravo's selection and then ignores it.
  Over every interleaving, the pair is lost if and only if bravo has something to send when such a
  poll's ENQ reaches it (`DoomedStep` for one step, `DoomedExactly` and `WedgeExactly` for runs;
  `PollOutcome` is the case of an undisturbed poll, `WedgeReachable` an input); each station then
  waits for the other for ever (`WedgeIsForever`), and no message ever moves from bravo to alpha
  (`BravoNeverSends`).
- Giving a message up leaves the NAK counter at its limit, so every following message has a single
  try until one gets through (`TriesAndLosses`).
- `unpack_message` may report one byte more than the buffer holds (`CountWithinBuffer`,
  `CountBeyondBuffer`), and it calls a message valid whose payload has no base64 decoding and whose
  data pointer is therefore null, on exactly the payloads without symbols, with an incomplete last
  block, or with more than two pads in the first padded block (`NullDataExactly`,
  `Base64.NullExactly`; `NullDataExample` is an input).
- A payload of more than 49149 bytes is packed into a message that no receiver accepts
  (`ValidExactly`, `OversizeExample`); one of 52483 bytes or more, and no other, fails the assertion
  in `pack_message` (`AssertionExactly`, `SendsExactly`); and an empty packet in the send queue makes
  the previous message go out a second time (`EmptyPacketRepeats`, `WireIsQueue`). The one caller at
  present reads at most 1500 bytes and queues only what has at least one (udptoserial/socket.c:115,
  138 and 162-168): for such packets the loop never fails the assertion and the far end unpacks
  exactly the packets sent (`MainLoop`).
- The serial reader takes one frame per read, and an introduced packet behind another one costs two
  frames, so packets can stay in the receive buffer with nothing left to read
  (`PacketStaysBehind` is an input). All valid packets come out if and only if, after every read,
  the frames complete by then and the reads still to come make up the frames needed, `2n - 1` for
  `n` valid packets (`ReadsExactly`, and `PathReadsExactly` for every run of the whole path).
- The block check of an INFO message is printed but never compared: any byte in its place is
  accepted (`BlockCheckIgnored`).
- A received clear request ends the process: the parser reaches `abort()` if and only if the first
  start character is a DLE with only graphic characters before it (`AbortExactly`), and the printed
  clear request is such a buffer (`ClearRequestAborts`).

## Model

| member | source | states |
|---|---|---|
| LinkMessage.ToString | halfduplex/Half_duplex.cpp:90-138 | the printer aborts on NONE and MALFORMED and otherwise writes the bytes of the message, given in numbers, with the block check over exactly the bytes behind the first SOH or STX through the ETX |
| LinkMessage.WireForm | halfduplex/Half_duplex.cpp:92-134 | the same of the printed form that all other theorems speak of |
| LinkMessage.BlockCheckLaws | halfduplex/Half_duplex.cpp:129-133 | the check of nothing is 1, and every further byte is added to it modulo 256 |
| LinkMessage.SumCheck | halfduplex/Half_duplex.cpp:129-133 | the wrapping 32-bit sum folded to 8 bits is one more than the sum of the covered bytes, modulo 256 |
| LinkMessage.ParseInput | halfduplex/Half_duplex.cpp:522-665 | every message found strictly shortens the buffer, NONE leaves it unchanged, what is left is a tail of the buffer, and DLE_EOT never comes out |
| LinkMessage.SupervisoryExactly | halfduplex/Half_duplex.cpp:532-583 | a supervisory message comes out of exactly the buffers that open with a prefix of characters from '!' to '~' and its control character, and exactly the bytes behind it are left |
| LinkMessage.InfoExactly | halfduplex/Half_duplex.cpp:598-664 | an INFO message comes out of exactly the buffers that open with STX and body, or SOH, header, STX and body, then the first ETX at place 1550 at the latest, and any check byte; and what is left |
| LinkMessage.MalformedExactly | halfduplex/Half_duplex.cpp:532-638 | exactly when MALFORMED comes out of a buffer, by its first start character, the bytes before it, the places of STX and ETX and the lengths; then nothing is left of the buffer |
| LinkMessage.WaitsExactly | halfduplex/Half_duplex.cpp:528-542 | exactly the unfinished buffers make the parser wait, with the buffer unchanged |
| LinkMessage.SimpleRoundTrip | halfduplex/Half_duplex.cpp:92-102 | a supervisory message comes back from the parser, whatever follows, if and only if its prefix is graphic |
| LinkMessage.InfoRoundTrip | halfduplex/Half_duplex.cpp:108-134 | an INFO message comes back, whatever follows, if and only if the header has no STX or ETX, the body no ETX, and the block is within MAX_MESSAGE_LEN |
| LinkMessage.EtxCutsBody | halfduplex/Half_duplex.cpp:603-646 | no body with an ETX in it ever comes back, whatever the header and whatever follows |
| LinkMessage.BlockCheckIgnored | halfduplex/Half_duplex.cpp:640-664 | a well-formed INFO block is accepted with any byte in the place of the block check |
| LinkMessage.AbortExactly | halfduplex/Half_duplex.cpp:532-587 | the parser aborts if and only if the first start character is a DLE and everything before it is graphic |
| LinkMessage.ClearRequestAborts | halfduplex/Half_duplex.cpp:103-107 | a printed clear request makes the parser abort, whatever follows |
| LinkStream.ChunkIndependence | halfduplex/Half_duplex.cpp:206-255 | any front of the printed form of well-formed messages, cut into reads in any way, yields exactly the complete messages and keeps exactly the unfinished tail |
| LinkStream.StreamRoundTrip | halfduplex/Half_duplex.cpp:209-248 | a whole stream, however cut, gives back the whole list of messages and an empty buffer |
| LinkStream.ParseUnfinished | halfduplex/Half_duplex.cpp:528-542 | a proper front of a well-formed message is never misread |
| LinkStream.BufferBound | halfduplex/Half_duplex.cpp:603-638 | on any traffic, in reads of at most 8192 bytes, the parse loop keeps at most 9742 bytes between reads, unless a DLE makes it abort |
| LinkStream.BufferBoundTight | halfduplex/Half_duplex.cpp:626-630 | that bound is reached |
| LinkStation.HalfDuplex.EnqueueMessage | halfduplex/Half_duplex.cpp:169-182 | the message goes to the end of the output queue and nothing else changes |
| LinkStation.HalfDuplex.GetNextMessage | halfduplex/Half_duplex.cpp:185-203 | the oldest received message is taken, or none |
| LinkStation.HandleConserves | halfduplex/Half_duplex.cpp:272-506 | what every transition keeps, in every state and on every message: the input queue grows by exactly an accepted INFO, the output queue loses at most its front, which is remembered and written, an old message is written again only on a NAK below the limit, and a clear request empties both queues |
| LinkStation.ThrowsExactly | halfduplex/Half_duplex.cpp:297-506 | exactly the pairs of state and message type on which a handler throws |
| LinkStation.AbortsExactly | halfduplex/Half_duplex.cpp:228-247 | `abort()` is reached exactly in a state that expects no message, or with an unprintable message due |
| LinkStation.WritesExactly | halfduplex/Half_duplex.cpp:258-506 | the bytes written on every event, in numbers: the next message, the last one again below 20 NAKs, or a fixed reply |
| LinkStation.StateExactly | halfduplex/Half_duplex.cpp:297-506 | the state after every event |
| LinkStation.CountersExactly | halfduplex/Half_duplex.cpp:374-471 | both NAK counters and the timer after every event |
| LinkStation.PollExactly | halfduplex/Half_duplex.cpp:680-743 | the bytes of a poll and what it changes; only an idle controller polls |
| LinkStation.TimeoutExactly | halfduplex/Half_duplex.cpp:774-782 | the no-response timer writes an EOT and goes back to NEUTRAL |
| LinkStation.DrainHandles | halfduplex/Half_duplex.cpp:218-248 | a read handles exactly the messages that the parse loop finds, in order, up to a fault |
| LinkStation.HalfDuplex.HandleMessage | halfduplex/Half_duplex.cpp:228-247 | a message is handled by the state it meets, any other state aborts, and only a clear request that is understood drops the unparsed input |
| LinkStation.DrainParses | halfduplex/Half_duplex.cpp:209-248 | whatever the handlers do short of a fault, the station keeps the bytes that the parse loop alone would keep |
| LinkStation.ReadKept | halfduplex/Half_duplex.cpp:206-255 | so the bound of 9742 bytes holds of the unparsed input of a station in any state |
| LinkStation.HalfDuplex.ReadHandler | halfduplex/Half_duplex.cpp:206-255 | the loop parses and handles until no complete message is left, writes the replies in order, and keeps `input_unprocessed_` within the bound unless a handler throws or aborts |
| LinkStation.HalfDuplex.PollTimer | halfduplex/Half_duplex.cpp:680-743 | only the controller, and only in NEUTRAL, opens an exchange |
| LinkSystem.Keep | halfduplex/Half_duplex.cpp:228-247 | every step, noise included, keeps the invariant on states, links, queues and history |
| LinkTheorems.HalfDuplexSafety | halfduplex/Half_duplex.cpp:297-506 | in every run no handler throws or aborts, the stations are never both master, nothing is in flight in both directions at once, and the no-response timer never finds the line silent |
| LinkTheorems.QuiescentConfigurations | halfduplex/Half_duplex.cpp:297-372 | with both links empty, either both stations are NEUTRAL or they are wedged |
| LinkTheorems.BravoNeverSends | halfduplex/Half_duplex.cpp:337-356 | in every run bravo's output queue holds all it was ever given and alpha has received nothing |
| LinkTheorems.WedgeIsForever | halfduplex/Half_duplex.cpp:687-691 | no run leads out of the wedge, and nothing more is transferred in it |
| LinkTheorems.DoomedStep | halfduplex/Half_duplex.cpp:303-356 | in every state of the invariant, the one step that makes the controller wait for a selection it will ignore is the delivery of its invitation to a bravo with something to send |
| LinkTheorems.DoomedExactly | halfduplex/Half_duplex.cpp:297-372 | from any state of the invariant, a run ends in that trap if and only if such a delivery happens on the way |
| LinkTheorems.WedgeExactly | halfduplex/Half_duplex.cpp:297-372 | the same for every run from the idle pair; a trapped pair is wedged as soon as bravo's selection is delivered, and already is if the line is silent |
| LinkTheorems.PollOutcome | halfduplex/Half_duplex.cpp:725-742 | the case of a poll with nothing to send and nothing enqueued until its ENQ arrives: the pair wedges if bravo has something to send, and is idle again if not |
| LinkTheorems.WedgeReachable | halfduplex/Half_duplex.cpp:303-312 | one message enqueued at bravo before the first poll wedges the pair |
| LinkTheorems.InOrderWithoutDuplicates | halfduplex/Half_duplex.cpp:477-489 | with any noise, what bravo accepts is picked in order and without repetition from what was enqueued |
| LinkTheorems.TriesAndLosses | halfduplex/Half_duplex.cpp:448-461 | each message is sent 1 to 20 times and accepted at most once; one given up was refused on every try with the counter at the limit, after 20 tries if the message before it got through and after a single one otherwise |
| LinkTheorems.ExactlyOnce | halfduplex/Half_duplex.cpp:272-295 | without noise, everything enqueued is what bravo accepted, then the INFO in flight, then the output queue |
| LinkTheorems.SessionTermination | halfduplex/Half_duplex.cpp:280-295 | from any state of a session, noise included, every run of `Rank` effective link steps brings the controller back to NEUTRAL |
| LinkTheorems.SessionProgress | halfduplex/Half_duplex.cpp:374-471 | in a session some link can always deliver |
| LinkTheorems.PollRank | halfduplex/Half_duplex.cpp:699-724 | a session opened by a poll takes at most 60 link steps for each queued message, and 5 more |
| LinkTheorems.SessionComplete | halfduplex/Half_duplex.cpp:441-447 | a noise-free session ends with an empty queue and everything ever enqueued accepted by bravo |
| LinkRefinement.Refinement | halfduplex/Half_duplex.cpp:206-255 | every run with printed bytes on the lines and reads of any size follows a noise-free run over messages |
| LinkRefinement.ByteLevelGuarantees | halfduplex/Half_duplex.cpp:258-278 | so over bytes too nothing faults, never both are master, the lines are never busy both ways, and nothing is lost, repeated or reordered |
| LinkRefinement.ByteBuffersBounded | halfduplex/Half_duplex.cpp:206-255 | in every byte-level run, whatever is enqueued, at most 9742 unparsed bytes wait at either station until one faults |
| LinkRefinement.ByteSessionProgress | halfduplex/Half_duplex.cpp:206-255 | in a session some line always has bytes to read |
| LinkRefinement.ByteSessionCompletes | halfduplex/Half_duplex.cpp:206-255 | in every byte-level run, however the following non-empty reads cut the lines, a session ends in NEUTRAL with an empty queue and everything ever enqueued accepted by bravo |
| LinkRefinement.ByteLevelDelivery | halfduplex/Half_duplex.cpp:477-489 | with no bytes left for bravo, only alpha's output queue is missing from what bravo received |
| Slip.SlipEncode | libhorizr/slip.cpp:127-158 | the encoder appends, in numbers, 192 where asked, 219 220 for every 192, 219 221 for every 219, every other byte as itself, and a closing 192; it returns the length of the source |
| Slip.EscapeIsWire | libhorizr/slip.cpp:138-155 | those bytes are the escaped packet that all other theorems speak of, and hold no 192 |
| Slip.SlipDecode | libhorizr/slip.cpp:26-122 | both passes stop at the same END; the packet and the count before that END are returned, zero when none is complete, and an exception exactly on a violation in strict mode |
| Slip.DecodePieces | libhorizr/slip.cpp:74-121 | on any complete frame, in numbers: 219 220 is read as 192, 219 221 as 219, 219 and any other byte as that byte or, in strict mode, as the exception; the count stops before the closing 192 |
| Slip.IncompleteExactly | libhorizr/slip.cpp:37-72 | every buffer that does not open with a complete frame is left alone, and no other |
| Slip.DecodeFrame | libhorizr/slip.cpp:37-121 | a packet, possibly opened by an END, is decoded whatever follows, and its closing END is left behind |
| Slip.DecodeStable | libhorizr/slip.cpp:37-72 | later bytes never change a decode that did not wait for them |
| Slip.DrainAppend | udptoserial/main.cpp:85-88 | draining early, then draining what was left with the later bytes, is draining everything at once |
| Slip.StreamInverse | libhorizr/slip.cpp:124-158 | for any packets, each with or without introducer, the exact list of packets and empty frames that comes back, no violation in strict mode, and at most one END left |
| Slip.StreamRoundTrip | libhorizr/slip.cpp:26-158 | the non-empty packets come back in order |
| SerialPath.TcpServerHandler.Enqueue | udptoserial/Tcp_server_handler.cpp:134-141 | a message is queued, and a write is started only if none was in progress |
| SerialPath.TcpServerHandler.SendPacket | udptoserial/Tcp_server_handler.cpp:90-98 | the packet is queued in its SLIP encoding with introducer |
| SerialPath.TcpServerHandler.PacketSendDone | udptoserial/Tcp_server_handler.cpp:111-118 | success removes the front and starts the next write; an error starts nothing |
| SerialPath.SerialReader.SerialReadHandler | udptoserial/main.cpp:79-91 | each read takes at most one frame off the buffer and passes it on if and only if it has at least 20 bytes |
| SerialPath.IncrementalReceive | udptoserial/main.cpp:79-88 | for every chunking, the frames taken so far and a drain of the buffer are a drain of all bytes received |
| SerialPath.ChunkedRoundTrip | udptoserial/main.cpp:79-88 | packets encoded in any way and cut in any way come out in order |
| SerialPath.OneWriteOutstanding | udptoserial/Tcp_server_handler.cpp:111-141 | in every run, until an error, one write is outstanding if and only if the queue is non-empty; afterwards none ever is |
| SerialPath.SilentAfterError | udptoserial/Tcp_server_handler.cpp:111-118 | after an error nothing more is written, whatever is queued |
| SerialPath.EndToEnd | udptoserial/main.cpp:79-91 | in every run the packets that pass validation at the far end are a front of the valid packets queued |
| SerialPath.AllArrived | udptoserial/Tcp_server_handler.cpp:90-98 | with nothing left to write or in flight, all valid packets have arrived or are in the receive buffer |
| SerialPath.EmptyReads | udptoserial/main.cpp:79-88 | `n` further reads that bring no bytes take exactly the next `n` frames off the buffer, as far as there are any |
| SerialPath.ReadsNeeded | udptoserial/main.cpp:79-88 | when the bytes of `n` valid packets have been read, the frames taken and those left in the buffer are `2n - 1`, and the packets are all out if and only if the frames taken, with any reads that bring no bytes, reach that number |
| SerialPath.FramesTaken | udptoserial/main.cpp:79-88 | for any bytes and any reads, at least `n` frames have been taken if and only if after every read the frames complete by then and the reads still to come make `n` |
| SerialPath.ReadsExactly | udptoserial/main.cpp:79-91 | for any packets and any reads of their bytes, exactly which reads bring out all valid packets, in terms of the reads alone; `2n - 1` frames for `n` valid packets |
| SerialPath.PathReadsExactly | udptoserial/main.cpp:79-91 | the same for every run of the whole path with nothing left to write or in flight |
| SerialPath.PacketStaysBehind | udptoserial/main.cpp:79-91 | two packets that arrive in one read: everything is written and read, and only the first has come out |
| Crc16.ComputeCrc | udptoserial/parser.c:23-34 | the loop computes the bit-by-bit CRC with polynomial 0x1021 that starts at 0xFFFF |
| Crc16.CrcFromOnes | udptoserial/parser.c:26-27 | the same of the CRC that all other theorems speak of; the CRC of nothing is 0xFFFF |
| Crc16.CheckValue | udptoserial/parser.c:23-34 | the CRC of the digits 1 to 9 is 0x29B1 |
| Crc16.CrcIsBitwise | udptoserial/parser.c:23-34 | on every byte string that CRC is the bit-by-bit one with polynomial x^16+x^12+x^5+1 |
| Crc16.ChangeDetected | udptoserial/parser.c:23-34 | changing one byte or two adjacent bytes anywhere in a text changes its CRC |
| Base64.Base64Encode | udptoserial/base64.c:29-87 | the pointer-advancing encoder stays inside its buffer and gives the encoding, 4*ceil(n/3) characters long |
| Base64.AlphabetIs | udptoserial/base64.c:14-15 | the alphabet is that of RFC 4648 |
| Base64.KnownExactly | udptoserial/base64.c:107-110 | the decoder knows that alphabet and '=', which counts as 0, and nothing else |
| Base64.EncodeDigits | udptoserial/base64.c:50-77 | every group of three bytes, missing ones counted as zero, is the same number as its four symbols to the base 64, with one '=' for each missing byte |
| Base64.DecodeDigits | udptoserial/base64.c:126-157 | every block before the first one with padding yields the three bytes of the same number; that block yields the first of them, one less for each '=', and ends the decoding |
| Base64.BuildTable | udptoserial/base64.c:107-110 | the table filled in place gives the value of every character |
| Base64.Base64Decode | udptoserial/base64.c:100-158 | the decoder stays inside its buffer and gives the decoding, or null |
| Base64.DecodeEncode | udptoserial/base64.c:29-158 | every non-empty input comes back |
| Base64.InsertionIgnored | udptoserial/base64.c:112-130 | characters outside the alphabet, inserted at any place, leave the decoding unchanged |
| Base64.NullExactly | udptoserial/base64.c:112-154 | null comes back on exactly the inputs without symbols, with a symbol count not divisible by four, or whose first padded block has more than two pads |
| PackedMessage.HexRoundTrip | udptoserial/parser.c:36-49 | four printed hexadecimal digits are read back as the same number |
| PackedMessage.HexPrints | udptoserial/parser.c:211-225 | a number is printed in at least four lower-case digits that stand for it, without a further zero in front |
| PackedMessage.HexWordExactly | udptoserial/parser.c:10-49 | four characters are read as a number exactly when all are hexadecimal digits, in either case, and it is the number they stand for |
| PackedMessage.UnpackMessage | udptoserial/parser.c:55-182 | the scans and checks, with the fields filled in on the way and the number of bytes processed |
| PackedMessage.CheckExactly | udptoserial/parser.c:101-181 | exactly which frames are accepted, and which fields are filled in on the way to a refusal |
| PackedMessage.CountExactly | udptoserial/parser.c:65-99 | the number of bytes processed in every case: all without a '[', through the first ']' behind the first '[', only what is in front of an unfinished '[', and one too many after 65555 bytes without a ']' |
| PackedMessage.JunkSkipped | udptoserial/parser.c:65-99 | junk without a '[' changes the count and nothing else |
| PackedMessage.UnfinishedResumes | udptoserial/parser.c:87-99 | an unfinished frame is kept, and is found again when the rest of it has come |
| PackedMessage.CountWithinBuffer | udptoserial/parser.c:87-99 | the number of bytes processed exceeds the buffer if and only if there is no ']' behind the first '[' in at least the maximum length |
| PackedMessage.CountBeyondBuffer | udptoserial/parser.c:90-94 | and there is such a buffer |
| PackedMessage.PackMessage | udptoserial/parser.c:188-236 | the packed form overwrites the front of the buffer and nothing else; the cases in which nothing is written or the assertion fails |
| PackedTheorems.PackedLayout | udptoserial/parser.c:205-228 | the packed form, part by part, in ASCII numbers |
| PackedTheorems.PackedExample | udptoserial/parser.c:205-228 | the letter A from port 4000 to port 42420 goes out as "[U0fa0a5b4", a bar, "0004QQ==bd5d]", CR and LF |
| PackedTheorems.UnpackPacked | udptoserial/parser.c:65-182 | behind any junk without '[' and before anything, a packed message comes back with its protocol, ports and payload, and the bytes through its ']' are consumed |
| PackedTheorems.ValidExactly | udptoserial/parser.c:211-219 | a packed message is accepted if and only if its protocol is known and its base64 length fits four digits |
| PackedTheorems.OversizeExample | udptoserial/parser.c:211-219 | 49150 bytes do not come back |
| PackedTheorems.ErrorDetection | udptoserial/parser.c:62-175 | changing any one byte or two adjacent bytes before the CRC digits makes the message invalid |
| PackedTheorems.NullDataExactly | udptoserial/parser.c:164-181 | on every buffer, a message found valid has a null data pointer if and only if its payload has no base64 decoding |
| PackedTheorems.NullDataUnpacked | udptoserial/parser.c:164-181 | any text of 4 to 65535 payload characters under a correct CRC, behind any junk without '[' and before anything, is valid, and without data if and only if its payload has no decoding |
| PackedTheorems.NullDataExample | udptoserial/parser.c:179-180 | a payload of four asterisks is one |
| PackedTheorems.UnpackAllWire | udptoserial/parser.c:51-182 | repeated calls recover all messages of a wire in order, with any junk without '[' between them |
| PacketQueue.Append | udptoserial/queue.c:49-78 | a packet goes to the end of the FIFO, with consistent links both ways |
| PacketQueue.Last | udptoserial/queue.c:80-89 | the last node, or null |
| PacketQueue.RemoveFirst | udptoserial/queue.c:140-156 | the first packet is gone and the links stay consistent |
| PacketQueue.SerialSender.PktQueueSend | udptoserial/queue.c:175-202 | the first packet is packed into the shared buffer, whatever string that then holds is sent, and the packet is removed |
| PacketQueue.SendOneWrites | udptoserial/queue.c:191-200 | the text that a send puts at the front of the buffer: protocol U, the packet's source port, its destination port, its payload and the CRC, with the rest of the buffer as it was |
| PacketQueue.QueueToWire | udptoserial/queue.c:173-202 | for every queue that does not trip the assertion, exactly what the far end unpacks: each packet with its own ports and bytes, stale tails skipped, an empty packet repeating the previous send, an oversize one giving nothing |
| PacketQueue.WireIsQueue | udptoserial/queue.c:173-202 | every queue is sent whole and its non-empty packets are unpacked in order, each with its own source port, destination port and bytes, and nothing else, if and only if no packet is above 49149 bytes and no empty packet is queued behind a non-empty one |
| PacketQueue.AssertionExactly | udptoserial/parser.c:229-230 | the assertion fails on exactly the packets of 52483 bytes or more, whatever was sent before |
| PacketQueue.SendsExactly | udptoserial/queue.c:173-202 | a queue is sent whole if and only if it holds no such packet |
| PacketQueue.PacketLine.Put | udptoserial/socket.c:162-172 | an arriving packet keeps the balance: the packets sent, then the linked list, are all packets appended, and the port holds the sends of those sent |
| PacketQueue.PacketLine.SendFirst | udptoserial/main.c:89-92 | a turn keeps that balance and, unless delayed or failing the assertion, moves exactly the first packet to the port |
| PacketQueue.MainLoop | udptoserial/main.c:51-92 | for every mix of arrivals and turns on the linked list, the packets sent are a front of those that arrived, one for each undelayed turn on a non-empty queue, the port is their sends, what the far end unpacks from it is known, and the loop stops early only on a packet of 52483 bytes or more at the front; with arrivals of 1 to 1500 bytes it never stops, and the far end unpacks exactly the packets sent, each with its own ports and bytes |
| PacketQueue.EmptyPacketRepeats | udptoserial/queue.c:199-200 | one empty packet behind another packet makes the far end see that packet twice |

## Left out

- LinkRefinement.Refinement: noise on the byte lines is not modelled, because a rejected message clears the whole input buffer and what that drops depends on the chunking; noise is modelled on messages.
- Message loss, and a no-response timer that fires while a reply is in flight: outside the timely, lossless link assumed.
- Wrap-around of the NAK counters (`size_t`): modelled as unbounded numbers.
- Timer durations, mutexes, logging and the asynchronous I/O library: only the order of events is modelled.
- `compute_cksum` and the compiled-out block check of the half-duplex parser.
- PackedTheorems.UnpackAllWire: the program itself never loops over `unpack_message`; the loop is the obvious caller.
- Base64.Base64Encode: allocation failure and overflow of the size computation, which return null, are not modelled.
- PacketQueue.SerialSender.PktQueueSend: the throttling test is a free choice, and freeing of nodes is not modelled.
- IP and TCP header building and checksums; of `ip_bytevector_validate` only the size test, since its header test always succeeds.
- Sockets, serial port drivers, configuration files and the camera demo: foreign calls with little logic of their own.
- `pkt_queue_prepend`, `pkt_queue_length`, `pkt_queue_size`: unused, and nothing hard to state.
