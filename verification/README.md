# EMSSHD in Dafny

EMSSHD is an embedded SSH and SFTP server; `emtask` is the daemon built on it that keeps a
child process behind an SSH terminal. This project models the protocol machinery of the server
and the in-memory structures of `emtask`, and proves what they promise over every input, every
run and every interleaving.

Where the C code works in place, so does the model: packet buffers, the block counter, the
replay ring, the screen cells, the SFTP receive and pending buffers, the restart history and
the error-correction registers are arrays and class fields, and each method is proved equal to
a function on values. The theorems are about those functions and about the machines built from
them.

| part | modules |
|---|---|
| wire format and exchange hash (RFC 4251, section 5; RFC 5656, section 4) | `WireBuffer`, `ExchangeHash` |
| binary packet protocol (RFC 4253, sections 6, 6.3, 6.4) | `PacketCounter`, `PacketProtection`, `PacketStream`, `PacketBuffer`, `PacketIo` |
| key exchanges and sequence numbers (RFC 4253, sections 6.4, 7.2, 7.3) | `KeySwitch`, `Transport`, `SessionWire`, `TransportSession` |
| channels and flow control (RFC 4254, section 5.2) | `ChannelFrames`, `SftpChannel`, `SftpFlow`, `SftpBuffer`, `TerminalChannel`, `TerminalFlow` |
| user and address patterns | `Wildcard` |
| `emtask` terminal: replay ring, attach hand-over, restart limiter, screen | `ReplayRing`, `Handover`, `RestartLimiter`, `RestartOutcomes`, `ScreenGrid`, `ScreenRows`, `ScreenControl`, `ScreenBuffer` |
| `emtask` threads: task table | `TaskTable`, `TaskOperations` |
| `emtask` codecs: base32 (RFC 4648, section 6), Reed-Solomon (ISO/IEC 18004:2015, section 7.5.2) | `Base32`, `GaloisField`, `ReedSolomon`, `CodeDistance` |
| shared arithmetic | `Bytes`, `Positional` |

## What the model takes as given

- The cipher adds a keystream that depends on the key, the counter block and the offset in the
  block. It may fail, depending on key and counter, and then leaves the data as they were. The
  message authentication code, the hash and the key derivation are arbitrary functions that may
  fail. Random padding is absent, failing or arbitrary bytes.
- What a channel puts on the connection (data, window adjustments, replies, EOF and CLOSE) is
  taken by the transport: a send that fails there has no outcome in the channel models.
- The SFTP request handler is an arbitrary function of the requests so far that answers or
  fails. What a terminal offers at each read, whether a child has ended, whether a spawn or an
  allocation works and what the clock says are parameters.
- The bytes of one protected packet arrive together: a timeout between the two reads of one
  packet, after the first block has been taken, is not modelled.
- A step that ends a connection with an error ends the run it belongs to.

## Properties the code has only under a condition

Each is stated with its exact condition and a concrete case in which it fails.

- A wildcard matcher decides the pattern language for every pattern exactly for values without a
  `*` byte, because the star test comes after the literal test (`Wildcard.GlobExactIff`; pattern
  `*?` on value `*` in `Wildcard.StarValueFails`).
- A plain packet decodes to its payload for every payload exactly when the block size is at most
  252; above that a padding of 256 bytes or more is lost in its one-byte field
  (`PacketProtection.PlainRoundTripsIff`; 245 bytes in blocks of 253 in
  `PacketProtection.PlainFailsAt253`).
- A window adjustment gets a waiting SFTP answer going exactly when the receive buffer is not
  empty (`SftpChannel.AdjustResumesIff`, `SftpChannel.StallHappens`).
- Once the peer sends no more data the SFTP channel sends none either exactly when no answer is
  pending or the receive buffer is empty (`SftpChannel.SilentIff`); otherwise data can follow the
  server's own EOF and CLOSE (`SftpChannel.DataAfterClose`).
- The tab loop of the screen ends exactly when the next stop lies inside the row
  (`ScreenGrid.TabEndsIff`, `ScreenGrid.TabHangsAtColumn72`).
- The restart rate of a task with a command is bounded in every run exactly when the limit fits
  the 64 entries of the history (`RestartLimiter.RateHoldsIff`, `RestartLimiter.CrashLoop`).

## Model

| member | source | states |
|---|---|---|
| WireBuffer.Buffer.PutU8 | src/core/ssh_buffer.c:79-91 | appends one byte, or reports overflow and appends nothing |
| WireBuffer.Buffer.PutU32 | src/core/ssh_buffer.c:98-113 | appends the four bytes most significant first, or reports overflow |
| WireBuffer.Buffer.PutBytes | src/core/ssh_buffer.c:136-152 | appends the bytes, or reports overflow and appends nothing |
| WireBuffer.Buffer.PutString | src/core/ssh_buffer.c:154-168 | appends length and bytes exactly when both fit; on overflow nothing, or the length alone |
| WireBuffer.Buffer.PutMpintPositive | src/core/ssh_buffer.c:179-214 | appends the mpint of a byte string read as a number, with the error cases by length and room; on overflow only a beginning of it is written |
| WireBuffer.Buffer.GetU32 | src/core/ssh_buffer.c:252-271 | reads a word exactly when four bytes are left and leaves the rest unread |
| WireBuffer.Buffer.GetStringView | src/core/ssh_buffer.c:316-338 | agrees with the reference parser of one string off the front; an underflow leaves the position in front of or behind the length |
| WireBuffer.U32RoundTrip | src/core/ssh_buffer.c:98-113 | reading back a written word gives the word |
| WireBuffer.U32Digits | src/core/ssh_buffer.c:98-113 | the four bytes are the digits of the word in base 256, most significant first |
| WireBuffer.ParseOfString | src/core/ssh_buffer.c:154-168 | an encoded string in front of any bytes parses to the string and those bytes |
| WireBuffer.MpintBodyIsMinimal | src/core/ssh_buffer.c:179-214 | the encoding keeps the value, has a clear sign bit and no superfluous leading zero |
| WireBuffer.MpintUnique | src/core/ssh_buffer.c:179-214 | two byte strings have the same mpint exactly when they denote the same number |
| ExchangeHash.BuildExchangeHashInput | src/core/ssh_transport.c:947-1000 | succeeds exactly when the eight parts fit, and then writes exactly the hash input |
| ExchangeHash.ParseOfEncode | src/core/ssh_transport.c:947-1000 | the list of parts is recovered from its concatenated encoding |
| ExchangeHash.HashInputUnique | src/core/ssh_transport.c:947-1000 | two exchanges have the same hash input exactly when all seven strings and the number K agree |
| ExchangeHash.HashInputFields | src/core/ssh_transport.c:947-1000 | the hash input parses into the eight fields of section 4 of RFC 5656 in their order, the secret as the shortest string with a clear sign bit that denotes it |
| ExchangeHash.HashableExactly | src/core/ssh_transport.c:1046-1108 | a transcript is hashed if and only if its input fits 4096 bytes |
| PacketCounter.IncrementInPlace | src/core/ssh_packet.c:165-181 | one pass of the carry loop is the increment with carry |
| PacketCounter.IncrementValue | src/core/ssh_packet.c:165-181 | the increment with carry adds one modulo 256^n |
| PacketCounter.AdvanceCounter | src/core/ssh_packet.c:165-181 | the nested loops are big-endian addition modulo 256^n |
| PacketCounter.AdvanceAdvance | src/core/ssh_packet.c:183-195 | advancing packet by packet is advancing by the total |
| PacketCounter.CounterAtSum | src/core/ssh_packet.c:183-195 | the counter in front of packet k is the first one advanced by the blocks of all earlier packets |
| PacketCounter.BlocksDisjoint | src/core/ssh_packet.c:183-195 | no two blocks of the stream share a counter while the packets use no more than 256^n blocks |
| PacketCounter.DistinctIff | src/core/ssh_packet.c:183-195 | all blocks of a list of packets have distinct counters if and only if together they are at most 256^n |
| PacketProtection.ComputePaddingLen | src/core/ssh_packet.c:14-31 | the least padding of at least four bytes that fills up the last block |
| PacketProtection.PaddingUnique | src/core/ssh_packet.c:14-31 | that padding is unique |
| PacketProtection.EncodedLayout | src/core/ssh_packet.c:38-100 | for block sizes up to 252 an encoded packet has the layout of section 6 of RFC 4253: length, padding length, payload, and the least padding of four bytes or more that fills blocks of at least eight |
| PacketProtection.EncodedPadding | src/core/ssh_packet.c:38-100 | its padding is what the random source gives, or zeros without one |
| PacketProtection.EncodesExactly | src/core/ssh_packet.c:38-100 | which of its four statuses encoding has, by payload, room and random source |
| PacketProtection.DecodesExactly | src/core/ssh_packet.c:102-150 | decoding gives a payload if and only if the packet has at most 35004 bytes, a right length field and four bytes or more of padding behind that payload |
| PacketProtection.FrameRoundTrip | src/core/ssh_packet.c:38-150 | a framed payload decodes to itself while the padding fits one byte |
| PacketProtection.FrameTruncates | src/core/ssh_packet.c:38-150 | with a padding of 256 bytes or more it never does |
| PacketProtection.PlainRoundTripsIff | src/core/ssh_packet.c:38-150 | every encoded packet decodes to its payload if and only if the block size is at most 252 |
| PacketProtection.PlainFailsAt253 | src/core/ssh_packet.c:38-150 | a payload of 245 bytes in blocks of 253 takes a padding of 256 and does not decode to itself |
| PacketProtection.CryptTwice | src/core/ssh_packet.c:302-317 | decryption undoes encryption |
| PacketProtection.XorBitwise | src/core/ssh_packet.c:302-317 | the cipher adds bit by bit |
| PacketProtection.StreamContinues | src/core/ssh_packet.c:183-195 | after whole blocks the next packet goes on exactly where the keystream stopped |
| PacketProtection.AcceptsExactly | src/core/ssh_packet.c:326-462 | a packet is accepted if and only if it is the sealing, under the current counter and sequence number, of a well-formed plain packet |
| PacketProtection.DecodesAs | src/core/ssh_packet.c:326-462 | what a packet of admissible length is turned down for, if and only if: a broken cipher or code, then a code that is not that of its plain packet under this key and sequence number, then its framing; a packet turned down leaves the state alone |
| PacketProtection.RoundTrip | src/core/ssh_packet.c:255-462 | for block sizes up to 252, what one side seals the other opens to the same payload, and both end in the same counter and sequence number |
| PacketStream.PeekAgrees | src/core/ssh_transport.c:1344-1396 | the length read from the first block is the length field of the whole decryption, so the decoder's own length check cannot fail |
| PacketStream.ReceiveSealed | src/core/ssh_transport.c:1322-1407 | a sealed packet in front of any bytes is received whole and alone, for the block sizes up to 32 the transport reads |
| PacketStream.WaitsForWholePacket | src/core/ssh_transport.c:1322-1407 | nothing is delivered or rejected before the packet is complete |
| PacketStream.ReceivedAs | src/core/ssh_transport.c:1344-1407 | whatever becomes of a packet with a plausible length, exactly its bytes leave the stream; one turned down leaves the state, one too large for the caller moves it on |
| PacketStream.SendsExactly | src/core/ssh_packet.c:255-324 | for block sizes up to 252 a send fails only for a payload above 32768 bytes, a failing random source, a failing code or a failing cipher |
| PacketStream.Lockstep | src/core/ssh_packet.c:255-462 | for block sizes up to 252 and every list of payloads of at most 32768 bytes, a receiver decoding packet by packet has exactly the payloads sent and the sender's counter and sequence number after every packet |
| PacketStream.StreamLockstep | src/core/ssh_transport.c:1322-1407 | the same off a byte stream that the receiver cuts itself, for the block sizes up to 32 the transport reads, leaving what follows the packets |
| PacketStream.PacketPosition | src/core/ssh_packet.c:319-322 | for block sizes up to 252, packet k carries sequence number start + k modulo 2^32 and the counter its predecessors left |
| PacketStream.PacketOnWire | src/core/ssh_packet.c:255-324 | packet k on the wire is its laid-out plain packet, encrypted from the counter its predecessors left, followed by the code of the plain packet under sequence number start + k modulo 2^32 |
| PacketStream.CryptAt | src/core/ssh_packet.c:302-317 | byte r of block j is added to byte r of the keystream of the counter advanced by j |
| PacketStream.OneEncryption | src/core/ssh_packet.c:302-319 | for block sizes up to 252 that are multiples of the counter's length, the packets together are one counter-mode encryption of the whole plain stream |
| PacketBuffer.WritePlain | src/core/ssh_packet.c:38-100 | in place: status and bytes of the plain encoding, error cases included |
| PacketBuffer.ReadPlain | src/core/ssh_packet.c:102-150 | accepts exactly the well-formed packets and returns the payload's place |
| PacketBuffer.MacMatches | src/core/ssh_packet.c:152-163 | the accumulated difference is zero exactly when the codes are equal |
| PacketBuffer.ProtectionSet | src/core/ssh_packet.c:207-253 | keys are accepted exactly within their size limits and start at sequence number zero |
| PacketBuffer.PacketState.AdvanceStreamPosition | src/core/ssh_packet.c:183-195 | the counter moves on by the blocks of the packet, rounded up |
| PacketBuffer.PacketState.EncodeProtected | src/core/ssh_packet.c:255-324 | in place: status, wire bytes and next state of the sealing, a failing code or cipher included; counter and sequence number stay on failure |
| PacketBuffer.PacketState.DecodeProtected | src/core/ssh_packet.c:326-462 | in place: status, payload and next state; every failure, one of the cipher included, restores counter, sequence number and all packet bytes |
| PacketIo.SendPacket | src/core/ssh_transport.c:1284-1309 | sealing in the transport's own packet buffer gives the specified packet and next state |
| PacketIo.ReceivePacket | src/core/ssh_transport.c:1322-1402 | peeking at a copy of the first block, then decoding in place, is the specified receive, with every error, one of the cipher included |
| PacketIo.SendPlainPacket | src/core/ssh_transport.c:453-482 | the plain encoding in blocks of eight |
| PacketIo.ReceivePlainPacket | src/core/ssh_transport.c:404-451 | reading one plain packet off the stream, with every error |
| KeySwitch.SendReceive | src/core/ssh_transport.c:404-516 | what one end of a direction sends, plain or protected, the other receives, and both ends agree again, rekey counters included |
| KeySwitch.PacketUnder | src/core/ssh_transport.c:571-661 | packet k travels under sequence number k modulo 2^32 and the keys of the latest NEWKEYS strictly before it: cipher key, code key, and the initial counter advanced by the blocks since; packet and byte counters are the saturated sums since then |
| KeySwitch.BothEndsAgree | src/core/ssh_transport.c:1164-1235 | across any number of key changes a listener hears exactly what was sent, stands where the sender stood and has consumed exactly those bytes |
| Transport.StepKeeps | src/core/ssh_transport.c:1433-1470 | every step of the session keeps the invariant tying both directions, the exchanges and the session identifier together |
| Transport.RunInv | src/core/ssh_transport.c:1433-1470 | that invariant holds after every run |
| Transport.SequenceIsPacketCount | src/core/ssh_transport.c:1284-1407 | each direction's sequence number is its packet count modulo 2^32, never reset by a key exchange |
| Transport.KeysApplyAfterNewKeys | src/core/ssh_transport.c:1164-1195 | sent packet k travels under the keys of exchange n, where n counts the NEWKEYS steps before it (packets after which keys are set, not data payloads that look alike), with that exchange's initial counter advanced by the blocks sent since |
| Transport.NextReceivedUnder | src/core/ssh_transport.c:1197-1235 | the next packet to be received is read under the keys of exchange n, where n counts the NEWKEYS steps taken (packets after which keys are set), with that exchange's initial counter advanced by the blocks received since |
| SessionWire.OutboundKeys | src/core/ssh_transport.c:532-661 | in every run, packet k goes out under the backend's keys for letters D and F and the counter for letter B, derived from the secret and hash of the latest exchange announced before it and the hash of the first, at sequence number k |
| SessionWire.InboundKeys | src/core/ssh_transport.c:532-661 | the same for the next packet to be received, with letters C, E and A |
| SessionWire.CountersExact | src/core/ssh_transport.c:325-380 | in every run the rekey counters are the packets and bytes since the keys were set, up to the largest 64-bit number |
| SessionWire.ExchangesAreHashed | src/core/ssh_transport.c:1106-1140 | exchange i of a run is the hash of an input with the fields of transcript i, and that transcript's secret |
| SessionWire.SentOnWire | src/core/ssh_transport.c:1284-1320 | every packet of every run as it goes out: in blocks of eight before the first NEWKEYS; behind one in blocks of sixteen, encrypted under the derived key and the counters since, and followed by the code under the derived code key and the packet's number in the session |
| SessionWire.ReceivedInOrder | src/core/ssh_transport.c:1002-1235 | in every run a key exchange comes in as KEXINIT, KEX_ECDH_INIT and the single byte 21 in a row, keys are set at no other packet, and nothing is taken behind a DISCONNECT |
| SessionWire.SentInOrder | src/core/ssh_transport.c:1040-1195 | the packets sent are those of the sending steps in order, an exchange goes out as KEXINIT, reply and NEWKEYS with nothing in between, and keys are set exactly behind the single byte 21 |
| Transport.SessionIdIsFirstHash | src/core/ssh_transport.c:1137-1140 | from the first exchange on, in every later state, the session identifier is the first exchange hash |
| Transport.IdentifierIsTranscript | src/core/ssh_transport.c:1106-1140 | under a collision-free hash two sessions, of any length and with any number of rekeys, have the same identifier if and only if their first exchanges agree in all seven strings and the number K |
| Transport.BothProtected | src/core/ssh_transport.c:1445-1447 | when a peer's KEXINIT is handled both directions are protected, so the guard never fails for missing protection |
| Transport.OutboundDelivered | src/core/ssh_transport.c:1284-1320 | a peer that switches keys after each NEWKEYS hears every payload of the server in order, across all rekeys |
| Transport.InboundFaithful | src/core/ssh_transport.c:1322-1407 | a peer that sends by the same rules, keeps the order KEXINIT, KEX_ECDH_INIT, NEWKEYS and derives its keys from the same exchanges is understood: the server has received exactly its first packets, with new keys at the same places, and stands where it stood |
| Transport.NextAccepted | src/core/ssh_transport.c:1322-1407 | and its next packet is accepted whenever it is the server's turn: as the step the exchange has come to, or between exchanges as a new KEXINIT or as data, a DISCONNECT excepted; new keys also need a derivation that works |
| TransportSession.ServerSession.UpdateRekeyNeeded | src/core/ssh_transport.c:334-347 | the flag says whether either direction has reached a limit |
| TransportSession.ServerSession.RecordRekeyPacket | src/core/ssh_transport.c:349-366 | adds one packet and its bytes, saturating, to one direction only |
| TransportSession.ServerSession.ActivatePacketProtection | src/core/ssh_transport.c:571-661 | sets the derived keys of one direction at its running sequence number and clears its counters, or fails as the derivation does |
| TransportSession.ServerSession.SendProtectedPayload | src/core/ssh_transport.c:1284-1320 | a protected send: next direction, bytes on the wire, nothing on failure |
| TransportSession.ServerSession.SendPlainPayload | src/core/ssh_transport.c:453-491 | a plain send: sequence number, bytes on the wire, nothing on failure |
| TransportSession.ServerSession.SendPayload | src/core/ssh_transport.c:453-491 | plain or protected as the direction stands |
| TransportSession.ServerSession.ReceiveProtectedPayload | src/core/ssh_transport.c:1322-1407 | a protected receive: payload, next direction, rest of the stream; on failure the bytes taken are gone, and with too little room for the payload the direction has moved on |
| TransportSession.ServerSession.ReceivePlainPayload | src/core/ssh_transport.c:404-451 | a plain receive: payload, sequence number, rest of the stream; on failure the bytes taken are gone |
| TransportSession.ServerSession.ReceivePayload | src/core/ssh_transport.c:493-516 | plain or protected as the direction stands, with the whole session state after a failure |
| TransportSession.ServerSession.SendKexinit | src/core/ssh_transport.c:837-878 | the step of that name in the session machine |
| TransportSession.ServerSession.ReceiveKexEcdhInit | src/core/ssh_transport.c:1002-1038 | the step of that name in the session machine |
| TransportSession.ServerSession.SendKexEcdhReply | src/core/ssh_transport.c:1040-1162 | hashes the transcript, records the exchange, fixes the session identifier if there is none, then sends |
| TransportSession.ServerSession.HashTranscript | src/core/ssh_transport.c:1106-1122 | the exchange hash of the transcript's hash input, failing exactly when that does not fit the 4096-byte buffer or the hash fails |
| TransportSession.ServerSession.SendNewKeys | src/core/ssh_transport.c:1164-1195 | the announcement goes out under the old keys, then the outbound keys switch |
| TransportSession.ServerSession.ReceiveNewKeys | src/core/ssh_transport.c:1197-1235 | the announcement is read under the old keys, then the inbound keys switch |
| TransportSession.ServerSession.HandlePeerRekey | src/core/ssh_transport.c:1433-1470 | the five steps in order, succeeding exactly when the guard and every step do, and the invariant holds again |
| ChannelFrames.ChunkedSound | src/core/ssh_transport.c:2342-2397 | the frames of one data call put together are the data, each within the transport's and the peer's limit |
| ChannelFrames.FramesSound | src/core/ssh_server.c:1675-1697 | the same for a whole answer cut to the peer's packet size |
| SftpFlow.FramesFull | src/core/ssh_server.c:1675-1697 | all frames of an answer but the last are as long as the peer's packet size, up to 32759, allows |
| SftpFlow.FlushIsFrames | src/core/ssh_server.c:502-546 | flushing sends exactly the part of the pending answer that fits the window, cut like any answer |
| SftpChannel.SplitUnique | src/core/ssh_server.c:1538-1570 | requests already cut off begin the reference cut of the stream, and the cut of what is left is the rest of it |
| SftpChannel.ProcessSound | src/core/ssh_server.c:1388-1701 | one call, whatever the message, keeps reassembly, order of answers, accounting of answer bytes, both windows and frame sizes, and leaves no whole request waiting unless an answer is pending |
| SftpChannel.RunInv | src/core/ssh_server.c:1388-1701 | the same over every run |
| SftpChannel.RequestsReassembled | src/core/ssh_server.c:1524-1570 | the requests handled begin the reference cut of the bytes received, and with nothing pending they are all of it |
| SftpChannel.FragmentationIndependent | src/core/ssh_server.c:1388-1701 | of two runs that received the same bytes, however cut and interleaved and whatever is pending, one's requests, answers and sent bytes begin the other's |
| SftpChannel.SettledRunsAgree | src/core/ssh_server.c:1388-1701 | with nothing pending in either, they are equal and the incomplete request is the same |
| SftpChannel.FlowControl | src/core/ssh_server.c:464-546 | window = maximum + grants - data received and stays in (max/2, max]; data sent never exceeds the peer's initial window plus adjustments; no frame exceeds a set packet size; answers = sent ++ pending |
| SftpFlow.PeerWindowExact | src/core/ssh_server.c:1456-1460 | while the peer's grants stay within 32 bits, data sent plus open window equal the initial window plus all adjustments |
| SftpFlow.WindowStep | src/core/ssh_server.c:464-500 | data is charged to the receive window, which is topped up to its maximum exactly when no more than half would be left; nothing else moves it |
| SftpFlow.FrontExactly | src/core/ssh_server.c:1538-1570 | a request is a length of one to 131068 and so many bytes; what is partial, malformed and whole |
| SftpFlow.DataOutcome | src/core/ssh_server.c:1513-1701 | data is turned down if and only if it exceeds the window, there is no window, or the buffer of 131072 bytes is full; all other data is worked on until an answer waits for an empty window, a request is malformed, the handler fails, or no whole request is left |
| SftpFlow.ResumedOutcome | src/core/ssh_server.c:1388-1535 | so are a timeout and an adjustment with anything in the buffer |
| SftpFlow.QuietOutcome | src/core/ssh_server.c:1451-1528 | the outcome of every other message, none of which touches data, answers or windows |
| SftpFlow.ClosedExactly | src/core/ssh_server.c:1475-1512 | the server has sent EOF and CLOSE if and only if the peer's EOF has come; the peer's CLOSE is answered and ends the channel |
| SftpChannel.AdjustResumesIff | src/core/ssh_server.c:1456-1460 | an adjustment gets a waiting answer going if and only if the receive buffer is not empty |
| SftpChannel.StallsOnlyWhenEmpty | src/core/ssh_server.c:1456-1460 | a run stalls only with an empty receive buffer |
| SftpChannel.StallHappens | src/core/ssh_server.c:1456-1460 | a concrete run that stalls |
| SftpChannel.SilentIff | src/core/ssh_server.c:1456-1510 | after a call, no further data goes out whatever follows but data if and only if no answer is pending or the receive buffer is empty |
| SftpChannel.DataAfterClose | src/core/ssh_server.c:1475-1500 | a concrete run in which data follows the server's own EOF and CLOSE |
| SftpBuffer.Channel.SendChannelData | src/core/ssh_transport.c:2342-2397 | the do-while loop emits the frames of the specification |
| SftpBuffer.Channel.FlushPending | src/core/ssh_server.c:502-546 | sends what the window allows and shifts the rest down in place |
| SftpBuffer.Channel.MaybeReplenish | src/core/ssh_server.c:464-500 | tops the window up once half of it is used |
| SftpBuffer.Channel.ReceiveData | src/core/ssh_server.c:1513-1528 | window check, replenishing, room check and append, with each error |
| SftpBuffer.Channel.SendResponse | src/core/ssh_server.c:1675-1697 | an answer that fits goes out cut to the peer's packet size and is charged to the window |
| SftpBuffer.Channel.RemoveRequest | src/core/ssh_server.c:1658-1663 | a handled request leaves the buffer, the rest moves to the front |
| SftpBuffer.Channel.DrainRequests | src/core/ssh_server.c:1538-1701 | answers whole requests in order until none is left, one is malformed or an answer has to wait |
| SftpBuffer.Channel.ProcessMessage | src/core/ssh_server.c:1388-1701 | outcome and new state of one call, for every message, with the errors of windows, buffers, framing and the handler |
| TerminalChannel.PumpInv | src/core/ssh_server.c:2225-2287 | pumping keeps order, both windows and frame sizes |
| TerminalChannel.RunInv | src/core/ssh_server.c:2289-2506 | so does every run |
| TerminalChannel.TerminalFlowControl | src/core/ssh_server.c:2225-2506 | output = sent ++ waiting, in order; the flow-control laws of the SFTP channel for the terminal channel |
| TerminalChannel.PumpExhausts | src/core/ssh_server.c:2245-2284 | a pump whose reads all yield something stops only when output or window is used up |
| TerminalFlow.PumpLenGreatest | src/core/ssh_server.c:2245-2284 | a read hands over the most that the offer, the output, the peer's window and packet size and the 2048-byte buffer admit |
| TerminalFlow.PumpOneFrame | src/core/ssh_server.c:2245-2284 | and that goes out as one frame |
| TerminalFlow.PeerWindowExact | src/core/ssh_server.c:2225-2506 | while the peer's grants stay within 32 bits, data sent plus open window equal the initial window plus all adjustments |
| TerminalFlow.RespondInput | src/core/ssh_server.c:2470-2489 | input is charged to the receive window, topped up exactly at half, and what the terminal takes of it is written |
| TerminalFlow.WrittenExactly | src/core/ssh_server.c:2470-2489 | over every run the terminal has been given exactly what it took, in order |
| TerminalFlow.CallOutcome | src/core/ssh_server.c:2289-2506 | the outcome of a call whose reads do not fail, for every message and the child's end before or behind it |
| TerminalChannel.TerminalSession.PumpOutput | src/core/ssh_server.c:2225-2287 | the pump loop is the specified one, a failing read included |
| TerminalChannel.TerminalSession.MaybeReplenish | src/core/ssh_server.c:426-462 | tops the window up once half of it is used |
| TerminalChannel.TerminalSession.ReceiveInput | src/core/ssh_server.c:2470-2489 | window check, replenishing and the write to the terminal, with each error: beyond the window, not running, failing write, more written than given |
| TerminalChannel.TerminalSession.ProcessCall | src/core/ssh_server.c:2289-2506 | outcome and new state of one call, for every message, with the errors of pumping and writing |
| Wildcard.UsernamePatternMatches | src/core/ssh_userauth.c:61-104 | ends on all inputs with the verdict of the shared backtracking scan |
| Wildcard.FromPatternMatchesOne | examples/minimal_server.c:900-941 | ends on all inputs with the verdict of the same scan, so the two matchers agree |
| Wildcard.GlobSound | src/core/ssh_userauth.c:61-104 | acceptance implies the recursive meaning of `*` and `?` |
| Wildcard.GlobExact | src/core/ssh_userauth.c:61-104 | for values without a `*` the verdict is that meaning |
| Wildcard.GlobExactIff | src/core/ssh_userauth.c:61-104 | the matchers agree with it on every pattern if and only if the value has no `*` |
| Wildcard.StarValueFails | src/core/ssh_userauth.c:61-104 | pattern `*?` matches value `*`, and the matchers reject it |
| Wildcard.UsernameAllowedByAllowUsers | src/core/ssh_userauth.c:106-159 | the pointer scan admits a user exactly when some token's user part does |
| Wildcard.AllowedJoin | src/core/ssh_userauth.c:106-159 | joining two lists with any separator admits exactly the union |
| Wildcard.AllowedEntry | src/core/ssh_userauth.c:106-159 | one entry admits the users its part in front of an `@` matches, and nobody when that part is empty |
| Wildcard.AllowedByDefault | src/core/ssh_userauth.c:106-112 | an empty list admits everybody |
| Wildcard.FromPatternsMatch | examples/minimal_server.c:943-977 | admits a peer exactly when some field matches and no negated field does |
| Wildcard.NegationVetoes | examples/minimal_server.c:943-977 | a negated match vetoes wherever it stands |
| Wildcard.FromPair | examples/minimal_server.c:943-977 | one pattern, one negated pattern, and a pattern with a negated one behind it: exactly whom each admits |
| ReplayRing.Ring.Append | APP/emtask/emtask.c:6865-6897 | the wrapped ring then holds the last bytes of its contents followed by the data |
| ReplayRing.Ring.CopyOut | APP/emtask/emtask.c:6899-6926 | a read at an offset returns that slice of the contents, as long as asked for unless it meets the end of the buffer |
| ReplayRing.RingHoldsTail | APP/emtask/emtask.c:6865-6897 | after any appends the ring is the last min(capacity, total) bytes of the whole stream |
| Handover.RingIsTail | APP/emtask/emtask.c:6257-6281 | in every run the ring is the tail of everything captured |
| Handover.ReplayBounds | APP/emtask/emtask.c:7078-7122 | a replay in progress always ends at the end of the ring, so the reset guard is never taken |
| Handover.NoGapNoOverlap | APP/emtask/emtask.c:6928-6998 | between attach and close, delivered ++ still to be replayed = kept at attach ++ captured since |
| Handover.MonitorLength | APP/emtask/emtask.c:7225-7238 | a monitor pass captures up to and including the first read that yields nothing, and at most 64 times |
| Handover.Terminal.AttachCommon | APP/emtask/emtask.c:6928-6998 | the attach step of the machine, with its refusals |
| Handover.Terminal.CaptureOutput | APP/emtask/emtask.c:6257-6281 | what is read from the child is appended to the ring; the status is that of the read, and an empty read notices a child that is gone |
| Handover.Terminal.Read | APP/emtask/emtask.c:7078-7122 | exactly one replay step while a replay is left, as long as asked for unless the replay or the buffer ends, then exactly one live step with what the child gave and the status of the read; nothing when the child is not running |
| Handover.Terminal.MonitorStep | APP/emtask/emtask.c:7212-7246 | captures only while nobody is attached, up to the first empty read or 64; the result is the stop flag, and the watchdog is called unless all 64 were full |
| Handover.Terminal.Detach | APP/emtask/emtask.c:7290-7307 | the close step of the machine |
| RestartLimiter.RestartRate | APP/emtask/emtask.c:6008-6058 | every window of the configured width holds at most the limit of counted restarts since the last manual rerun |
| RestartLimiter.RateHoldsIff | APP/emtask/emtask.c:6027-6058 | for a task with a command that holds in every run if and only if the limit is at most 64 |
| RestartLimiter.CrashLoop | APP/emtask/emtask.c:6027-6058 | with a larger limit any number of restarts is granted within one window |
| RestartLimiter.FaultLatches | APP/emtask/emtask.c:6060-6097 | after a refusal or failed start at any event of any run nothing starts the command until a manual rerun |
| RestartOutcomes.StartsExactly | APP/emtask/emtask.c:6060-6247 | in every run with a forward clock each kind of event starts the command if and only if the child has ended where it has to, there is a command, no fault, a spawn that works, and room in the window; a manual rerun needs only the command and the spawn |
| RestartOutcomes.HistoryCounts | APP/emtask/emtask.c:6008-6058 | what pruning leaves of the history is the number of counted restarts in the window that ends now |
| RestartOutcomes.StartIsRecorded | APP/emtask/emtask.c:6060-6213 | a start is running, and counted unless it is the first or a manual rerun, which forgets the count |
| RestartOutcomes.FaultsExactly | APP/emtask/emtask.c:6027-6247 | what leaves a fault, and that only a manual rerun clears one |
| RestartOutcomes.EndIsNoted | APP/emtask/emtask.c:6099-6144 | without a start a child that has ended is noted and nothing else of it changes |
| RestartOutcomes.ManualForgets | APP/emtask/emtask.c:6192-6213 | a manual rerun stops the child and forgets history and count, whatever becomes of it |
| RestartLimiter.RecentIsSuffix | APP/emtask/emtask.c:6008-6025 | with a forward clock pruning keeps exactly a suffix of the history |
| RestartLimiter.Limiter.Prune | APP/emtask/emtask.c:6008-6025 | the compaction in place is the filter of recent entries |
| RestartLimiter.Limiter.NoteRestart | APP/emtask/emtask.c:6027-6058 | grants or refuses and records as specified |
| RestartLimiter.Limiter.SpawnCommand | APP/emtask/emtask.c:6060-6097 | the spawn step, with its refusals when faulted, without a command or over the limit |
| RestartLimiter.Limiter.EnsureCommandRunning | APP/emtask/emtask.c:6156-6176 | the step of that name |
| RestartLimiter.Limiter.RestartManual | APP/emtask/emtask.c:6192-6213 | the manual rerun: clears fault and history, starts uncounted |
| RestartLimiter.Limiter.WatchdogStep | APP/emtask/emtask.c:6215-6247 | the step of that name |
| RestartLimiter.Limiter.SignalCommand | APP/emtask/emtask.c:7160-7210 | a restart requested by signal |
| RestartLimiter.Limiter.WaitForExit | APP/emtask/emtask.c:7248-7288 | the step of that name |
| ScreenGrid.Life | APP/emtask/emtask.c:6283-6803 | over every byte sequence and any resizes, up to a tab that never ends: cursors inside the grid, top <= bottom < rows, cell count rows times columns |
| ScreenGrid.FeedByteValid | APP/emtask/emtask.c:6732-6803 | every byte that does not hang keeps the grid valid |
| ScreenGrid.Feed | APP/emtask/emtask.c:6732-6803 | feeding stops early only in front of a tab that never ends |
| ScreenGrid.TabEndsIff | APP/emtask/emtask.c:6794-6798 | the tab loop ends if and only if the next stop lies inside the row |
| ScreenGrid.TabHangsAtColumn72 | APP/emtask/emtask.c:6794-6798 | on the default screen it does not at column 72 |
| ScreenGrid.ScrollUpIsDeleteLines | APP/emtask/emtask.c:6337-6363 | n single scrolls leave the cells of one deletion of n lines at the top of the region |
| ScreenGrid.ScrollDownIsInsertLines | APP/emtask/emtask.c:6365-6391 | n single reverse scrolls leave the cells of one insertion of n lines there |
| ScreenGrid.DeleteLinesRows | APP/emtask/emtask.c:6535-6559 | row by row: what moved up, what is blank, and that rows outside are untouched |
| ScreenGrid.InsertLinesRows | APP/emtask/emtask.c:6509-6533 | row by row: what moved down, what is blank, and that rows outside are untouched |
| ScreenRows.PutCell | APP/emtask/emtask.c:6421-6442 | a character goes to the cursor's cell, 127 and control characters as a blank, and the cursor moves on or the wrap is delayed |
| ScreenRows.PutRows | APP/emtask/emtask.c:6421-6442 | the same row by row |
| ScreenRows.WrappedRows | APP/emtask/emtask.c:6421-6442 | behind a delayed wrap it goes to the first column of the next row, or of the same row once the region has scrolled |
| ScreenRows.ScrollUpRows | APP/emtask/emtask.c:6337-6363 | row by row: the region moves up by one and its last row is blank |
| ScreenRows.ScrollDownRows | APP/emtask/emtask.c:6365-6391 | row by row: the region moves down by one and its first row is blank |
| ScreenRows.NewlineRows | APP/emtask/emtask.c:6393-6406 | when a new line scrolls, and where it leaves the cursor |
| ScreenRows.ReverseRows | APP/emtask/emtask.c:6408-6419 | the same for a reverse line feed |
| ScreenRows.OutsideRegion | APP/emtask/emtask.c:6509-6559 | outside the region lines are neither inserted nor deleted |
| ScreenRows.TextIsShown | APP/emtask/emtask.c:6732-6803 | text that fits the rest of the row is shown there byte for byte, and nothing else changes |
| ScreenRows.LinesAreShown | APP/emtask/emtask.c:6732-6803 | any number of lines printed on a fresh screen of any size leaves the last of them on it, each in its own row from the left, blanks elsewhere |
| ScreenRows.EraseLineRows | APP/emtask/emtask.c:6472-6484 | which cells of the row each mode of erasing in the line blanks |
| ScreenRows.EraseCharsRows | APP/emtask/emtask.c:6611-6630 | which cells an erasing of n characters blanks |
| ScreenRows.DeleteCharsRows | APP/emtask/emtask.c:6586-6609 | what a deletion of n characters moves, and the blanks that come in |
| ScreenRows.InsertCharsRows | APP/emtask/emtask.c:6561-6584 | what an insertion of n blanks moves, and what is lost |
| ScreenRows.ClearDisplayRows | APP/emtask/emtask.c:6486-6507 | row by row, which cells each mode of erasing in the display blanks |
| ScreenControl.SequenceApplies | APP/emtask/emtask.c:6738-6779 | a control sequence takes effect with its final byte, with the parameters collected before it, and leaves nothing behind |
| ScreenControl.CursorToPlace | APP/emtask/emtask.c:6632-6662 | the bytes of CSI n ; m H put the cursor on row n and column m, counted from one and kept inside |
| ScreenControl.CursorMoves | APP/emtask/emtask.c:6632-6654 | where the bytes of CSI n A, B, C and D put it |
| ScreenControl.CursorJumps | APP/emtask/emtask.c:6655-6665 | where the bytes of CSI n G and d put it |
| ScreenControl.CursorDefaults | APP/emtask/emtask.c:6632-6725 | home, single steps, saving and restoring without parameters |
| ScreenControl.RegionIsSet | APP/emtask/emtask.c:6704-6717 | the region CSI n ; m r sets, and when it is ignored |
| ScreenControl.ErasingLetters | APP/emtask/emtask.c:6666-6693 | the bytes of CSI n J, K and X erase as ClearDisplayRows, EraseLineRows and EraseCharsRows say |
| ScreenControl.ErasingDefaults | APP/emtask/emtask.c:6666-6678 | without a mode they erase from the cursor on |
| ScreenControl.MovingLetters | APP/emtask/emtask.c:6679-6690 | the bytes of CSI n @, P, L and M insert and delete characters and lines |
| ScreenControl.ScrollingLetters | APP/emtask/emtask.c:6694-6703 | the bytes of CSI n S and T scroll the region by n lines |
| ScreenControl.OtherLetters | APP/emtask/emtask.c:6726-6730 | every other final byte only ends a delayed wrap |
| ScreenControl.OnlyDigitsCount | APP/emtask/emtask.c:6444-6470 | bytes of a parameter other than digits do not count |
| ScreenControl.FullBodyStays | APP/emtask/emtask.c:6774-6778 | bytes beyond the 63 that are collected are dropped |
| ScreenControl.CursorEscapes | APP/emtask/emtask.c:6739-6753 | ESC 7, 8 and c save and restore the cursor and start over |
| ScreenControl.LineEscapes | APP/emtask/emtask.c:6754-6767 | ESC D, M and E are the new line, the reverse line feed and the start of the next line |
| ScreenControl.ControlCharacters | APP/emtask/emtask.c:6780-6803 | carriage return, line feed and backspace; other control characters do nothing |
| ScreenControl.TabWritesBlanks | APP/emtask/emtask.c:6794-6798 | a tab whose stop lies inside the row writes blanks up to the next multiple of eight |
| ScreenControl.ResizeExactly | APP/emtask/emtask.c:6303-6335 | when a resize starts over, and with which size |
| ScreenControl.FreshIsBlank | APP/emtask/emtask.c:6283-6301 | a fresh screen is blank with the cursor home |
| ScreenBuffer.Screen.ResetScreen | APP/emtask/emtask.c:6283-6301 | in place: the blank screen |
| ScreenBuffer.Screen.ResizeTo | APP/emtask/emtask.c:6303-6335 | a fresh screen of the new size, or no change when refused |
| ScreenBuffer.Screen.ScrollRegionUp | APP/emtask/emtask.c:6337-6363 | in place: the region moves up one row |
| ScreenBuffer.Screen.ScrollRegionDown | APP/emtask/emtask.c:6365-6391 | in place: the region moves down one row |
| ScreenBuffer.Screen.LineFeed | APP/emtask/emtask.c:6393-6406 | next row, scrolling at the bottom of the region |
| ScreenBuffer.Screen.ReverseLineFeed | APP/emtask/emtask.c:6408-6419 | previous row, scrolling at the top |
| ScreenBuffer.Screen.PutChar | APP/emtask/emtask.c:6421-6442 | the write with its delayed wrap |
| ScreenBuffer.Screen.CsiParam | APP/emtask/emtask.c:6444-6470 | the scan returns the number of the indexed field or the default |
| ScreenBuffer.Screen.EraseInDisplay | APP/emtask/emtask.c:6486-6507 | the cells each mode blanks |
| ScreenBuffer.Screen.InsertBlankLines | APP/emtask/emtask.c:6509-6533 | in place: the insertion of lines |
| ScreenBuffer.Screen.RemoveLines | APP/emtask/emtask.c:6535-6559 | in place: the deletion of lines |
| ScreenBuffer.Screen.InsertBlanks | APP/emtask/emtask.c:6561-6584 | in place: the insertion of blanks in a row |
| ScreenBuffer.Screen.RemoveChars | APP/emtask/emtask.c:6586-6609 | in place: the deletion of characters in a row |
| ScreenBuffer.Screen.BlankChars | APP/emtask/emtask.c:6611-6630 | in place: the erasing of characters |
| ScreenBuffer.Screen.ApplyControl | APP/emtask/emtask.c:6632-6730 | each control sequence does what the specification says |
| ScreenBuffer.Screen.FeedBytes | APP/emtask/emtask.c:6732-6803 | feeding in place is feeding on values, with every access in bounds |
| TaskTable.StepKeeps | APP/emtask/emtask.c:7720-7922 | every step of a listener, worker or panel keeps the invariant of table, threads and pool |
| TaskTable.EveryInterleaving | APP/emtask/emtask.c:4738-4795 | in every interleaving: worker_count is the number of live workers, a task with workers is initialized and not deleted, one listener per slot, live tasks differ in name and port, and the pool bound holds |
| TaskTable.WipeIsSafe | APP/emtask/emtask.c:4871-4963 | a slot is taken for a new task only when no listener and no counted worker refers to it |
| TaskTable.NoThreadOutlivesItsTask | APP/emtask/emtask.c:7636-7658 | a thread's slot keeps the generation it was started with until the thread has ended |
| TaskTable.ManageListeners | APP/emtask/emtask.c:5087-5139 | a panel step, deletion included, never frees a slot under its listener |
| TaskOperations.CreateCompletes | APP/emtask/emtask.c:4871-4963 | once a creation is accepted every further step of the panel is possible, and the table ends with exactly the new task live in its slot, published and with its listener |
| TaskOperations.UpdateCompletes | APP/emtask/emtask.c:4965-5068 | the same for an update: the old task is removed, the new configuration settles in the free slot, and nothing else changes |
| TaskOperations.DeleteCompletes | APP/emtask/emtask.c:5087-5139 | a deletion removes exactly its task |
| TaskOperations.PlacingFails | APP/emtask/emtask.c:4933-4948 | a task that cannot be initialised or started leaves its slot free again and everything else as it was |
| TaskOperations.NamesAlike | APP/emtask/emtask.c:148-151 | two names are taken for the same if and only if they differ in case at most |
| TaskOperations.CreatableIff | APP/emtask/emtask.c:4738-4771 | in every reachable state with an idle panel a creation is accepted if and only if the slot is vacant and no live task of the whole table has the name or the port |
| TaskOperations.UpdatableIff | APP/emtask/emtask.c:4773-4795 | an update is accepted if and only if the task is live without a worker, another slot is vacant, and no other live task has the name or the port |
| TaskOperations.DeletableIff | APP/emtask/emtask.c:5087-5120 | a deletion is accepted if and only if the task is live without a worker |
| TaskOperations.StartupTasks | APP/emtask/emtask.c:8075-8118 | at startup every configured task is live in its slot with its listener, and all other slots are vacant |
| TaskOperations.ConnectionServed | APP/emtask/emtask.c:7798-7846 | a listener of a live task with room in the pool takes a connection in: the exact table then |
| TaskOperations.ConnectionEnds | APP/emtask/emtask.c:7636-7658 | and when it ends the table is exactly as before |
| TaskOperations.LaunchFails | APP/emtask/emtask.c:7830-7860 | so is it after a worker thread that cannot be created |
| TaskOperations.AcceptFails | APP/emtask/emtask.c:7798-7816 | and after an accept that fails |
| TaskOperations.AdmittedIff | APP/emtask/emtask.c:7829-7840 | an accepted connection is admitted if and only if its task is not stopping, and refused otherwise |
| TaskOperations.RefusalEnds | APP/emtask/emtask.c:7829-7861 | a refused connection gives its place in the pool back and ends the listener |
| TaskOperations.ListenerGivesUp | APP/emtask/emtask.c:7747-7757 | a listener that gives up ends, and nothing but its slot's mark changes |
| TaskOperations.RemovedTaskVacates | APP/emtask/emtask.c:7720-7862 | whatever the listener of a removed task is doing, it can go straight to its end without the lock, and then the slot is vacant |
| TaskOperations.InterleavingIrrelevant | APP/emtask/emtask.c:4871-5139 | however listeners and workers interleave, the same steps of the panel lead to the same tasks |
| TaskOperations.UpdateAmongThreads | APP/emtask/emtask.c:4965-5068 | an update among any steps of listeners and workers ends with the new configuration live and the old task removed |
| Base32.Encode | APP/emtask/emtask.c:1737-1771 | the 32-bit accumulator loop emits exactly the five-bit cut of the input's bits, although it drops high bits |
| Base32.DecodeSecret | APP/emtask/emtask.c:3869-3903 | the reverse loop emits exactly the eight-bit cut, skips separators and reports bad symbols and overflow |
| Base32.TakeByte | APP/emtask/emtask.c:1737-1771 | shifting a byte into the truncated accumulator keeps all pending bits |
| Base32.TakeSymbol | APP/emtask/emtask.c:3869-3903 | the same for a symbol |
| Base32.SymbolsRoundTrip | APP/emtask/emtask.c:1737-1771 | decoding the symbols of any bytes returns the bytes |
| Base32.RoundTrip | APP/emtask/emtask.c:3869-3903 | for every nonempty byte string and enough room the text decodes to the bytes |
| Base32.RoundTripRespelled | APP/emtask/emtask.c:3855-3903 | so does any respelling of it in the other case or with separators |
| Base32.Alphabet | APP/emtask/emtask.c:1737-1771 | the alphabet is the letters and then the digits two to seven |
| Base32.ReadCharacter | APP/emtask/emtask.c:3855-3903 | what each character reads as: a symbol in either case, nothing for the five separators, foreign otherwise |
| Base32.ReadJoin | APP/emtask/emtask.c:3869-3903 | a text reads as its parts do, up to the first foreign character |
| Base32.DecodeFails | APP/emtask/emtask.c:3869-3903 | what decoding fails on, and with which status |
| GaloisField.GfInit | APP/emtask/emtask.c:2425-2443 | the tables hold the powers of the generator and, for every nonzero element, its logarithm |
| GaloisField.DoubleReduces | APP/emtask/emtask.c:2425-2443 | the step of the table is the shift, reduced when the top bit leaves |
| GaloisField.ShiftDoubles | APP/emtask/emtask.c:2425-2443 | the shift is doubling as a number |
| GaloisField.ReductionIs | APP/emtask/emtask.c:2425-2443 | and the reduction is by 0x11d |
| GaloisField.GfMul | APP/emtask/emtask.c:2445-2451 | the table product is polynomial multiplication modulo 0x11d |
| GaloisField.Order | APP/emtask/emtask.c:2425-2443 | the generator has order exactly 255 |
| GaloisField.LogExists | APP/emtask/emtask.c:2425-2443 | every nonzero element is a power of the generator |
| GaloisField.MulIsPolyMul | APP/emtask/emtask.c:2445-2451 | multiplication through logarithms is polynomial multiplication |
| ReedSolomon.ComputeGenerator | APP/emtask/emtask.c:2453-2473 | the in-place products give the monic polynomial with roots 1, a, ..., a^17 |
| ReedSolomon.EccStepKeeps | APP/emtask/emtask.c:2475-2496 | absorbing a symbol keeps data ++ register a codeword |
| ReedSolomon.ComputeEcc | APP/emtask/emtask.c:2475-2496 | for data of any length, data ++ ecc evaluates to zero at all 18 roots |
| ReedSolomon.ManyRoots | APP/emtask/emtask.c:2475-2496 | a polynomial with as many different nonzero roots as coefficients is zero |
| ReedSolomon.EccUnique | APP/emtask/emtask.c:2475-2496 | no other 18 symbols complete the data to a codeword |
| CodeDistance.Vandermonde | APP/emtask/emtask.c:2475-2496 | n terms at different powers that sum to zero at the first n powers of the generator are all zero |
| CodeDistance.MinimumDistance | APP/emtask/emtask.c:2475-2496 | two different codewords of equal length up to 255 differ in at least 19 symbols |
| CodeDistance.CorrectsNine | APP/emtask/emtask.c:2475-2496 | up to nine wrong symbols leave the codeword determined |

## Left out

- Sockets, accept loops, timeouts and partial reads: only byte streams and complete packets.
- Cryptographic backends, host keys, random numbers: abstract functions.
- KEXINIT parsing and algorithm choice: the transcript of an exchange is an input of the session machine; only aes128-ctr and hmac-sha2-256 sizes occur.
- Identification lines and messages before the first KEXINIT: the session model starts after them.
- The ignorable-message loop around the protected receive: a received payload is any payload other than KEXINIT and DISCONNECT.
- Null-pointer argument checks: references are never null in the model.
- The SFTP handler and its codecs, and request replies on a channel: they would add only a contract.
- Terminal start-up requests (pty, shell, exec, env), exit status messages: channel acceptance is the starting state.
- SftpBuffer.Channel.ProcessMessage: a send that fails on the connection has no outcome.
- TerminalChannel.TerminalSession.ProcessCall: a send that fails on the connection has no outcome.
- Transport.InboundFaithful: that both ends compute the same exchange hash and secret is taken as given, since the client is not part of the repository.
- Terminal input beyond what one write accepts: dropped by the code as by the model, and no property is claimed for it.
- SftpBuffer.Channel.constructor: the peer's initial window is a 32-bit value by precondition.
- ScreenGrid.Life: numbers in control sequences are unbounded, where the code accumulates them in a C int; the dirty flag is not modelled.
- Screen snapshots and their copying into a client buffer, and attaching with snapshots on.
- TaskTable.EveryInterleaving: a task configuration is reduced to its name and port, the panel may pick any free slot, thread creation at start-up succeeds, and the panel's own address check is not modelled.
- Handover.NoGapNoOverlap: covers attachments without screen snapshots; the exclusivity of an attachment across failed replies is not claimed.
- QR code placement, masking and output; SQLite, HTTP, configuration files, logging; file-system adapters.
