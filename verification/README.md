# XVC servers, modelled and proved in Dafny

The repository holds servers for the Xilinx Virtual Cable protocol: XVC 1.1 servers for debug memory
(`mem/versal`) and for the debug packet controller (`dpc`), XVC 1.0 servers that drive a JTAG debug
bridge (`jtag`), and the kernel driver behind one of them. This project models them from the bytes on
the wire down to registers, descriptors and memory, and proves what they promise. `dafny verify
dfyconfig.toml` checks all of it.

## How it is built

**Packet engine of XVC 1.1** (`bytes`, `uleb128`, `framing`, `configure`, `session`, `laws`, `wire`,
`settings`, `answers`, `replybuf`, `batches`, `exactness`, `server`, `witness`, `replies`).
`Session` says what a stream means: `Run` executes one packet after the other on a client state and an
abstract device, the handlers being any function from device and packet to a new device and an answer.
`Server.XvcClient` is the code: a receive buffer, a reply buffer, cursors, flags and the pending error,
all changed in place, with a socket that delivers the input in pieces of any size. `ReadPacket` is
proved to do what `Run` says for every conforming stream and every way of cutting it. `ReplyBuffer` says
what a packet stores in the reply buffer and what it leaves out, `Batches` which packets are answered
together and what is then sent, and `Exactness` on which streams that is what `Run` answers. Both 1.1
servers are this one class; `Framing.Features` says which server is built and which optional handlers
exist. `Wire` says how a client writes each packet and that the server reads it as itself, `Settings`
what the characters of a configuration text do, and `Answers` what the bytes of each reply are; none of
the three speaks through the functions of `Session` that it describes. `Laws` proves the consequences for
whole streams on `Run`: sticky errors, the lock discipline, replies that never outgrow requests. `Framing`
holds the central argument about prefixes: decoding a cut-off packet never overestimates its size.
`Replies` takes the replies apart again on the client's side.

**JTAG** (`jtag`, `bridge`, `shiftloops`, `commandloop`). `Jtag.Reference` shifts bit by bit on any
device, bit 0 of byte 0 first. `Bridge.DebugBridge` is the register block in front of such a device: it
stays busy for arbitrarily many reads and leaves arbitrary bits above the shifted ones in TDO. The
driver's ioctl loop, which counts bits, and the two user-space loops, which count bytes, are methods on
it, proved against `Reference`. `CommandLoop` serves a whole XVC 1.0 connection, from exact-length reads
of a byte stream to the clocks the device sees.

**DMA rings** (`ring`, `ingress`, `egress`, `regions`, `dpc`). The CPU and the DMA engine share descriptors. The
CPU's code is a method of a class; between any two of its accesses `Interference` lets the engine take
any number of steps, each with any status and any packet. `Ingress.Invariant` and `Egress.Invariant`
are preserved by every step of either party. `Regions` shows that the slots the rings index do not
overlap and that both parties see them at the same place. `Dpc` puts the `edpc:` handler on the egress
ring: from the DMA engine's packets, over the packet engine, to the replies a client takes apart.

**Debug memory** (`memory`, `accesses`). The word-by-word copy loops of `mrd:` and `mwr:`, the law that a
read returns what was written last, and the same law for a whole connection through the buffered engine,
with refused requests, `error:`, `configure:`, `settck:`, `getinfo:` and `capabilities:` packets in between.

## What came out

- The packets of a stream are recognised the same however the stream is cut if and only if it conforms
  (`Session.ConformingIsExact`), and the condition on a single packet is exact too
  (`Framing.PrefixesFillIffAdmissible`). It is not the same for all packets: the assertion at
  `mem/versal/src/xvcserver.c:330` is strict where all others are not, so a `configure:` packet that fills
  the receive buffer exactly is accepted when it arrives whole and trips the assertion when its last byte
  arrives late (`Framing.FullConfigure`). And sizes are computed with wrap-around: an `irshift:` packet of
  2^64 - 1 bits counts as having no data and is accepted whole, although a prefix of it trips the assertion
  (`Framing.WrappedSize`), as does a prefix of every packet whose size wraps (`Framing.WrapTrips`).
- Handler calls, client state, device and the number of bytes sent do not depend on how a conforming stream
  is cut, unless a reply would be put past the end of the reply buffer, 16384 bytes; the connection gets
  there exactly if the stream, the cutting and the replies say so (`Server.XvcClient.ReadPacket`).
- The bytes sent can depend on it, and on what the reply buffer held before: `reply_status` and
  `reply_uleb128` store nothing at or beyond `max_packet_len`, 10000, while the connection goes on. They are
  those of the packet-at-a-time run for every cutting and every content of the reply buffer if and only if
  no length or status byte of packets that can be in the receive buffer together falls there, except a zero
  right behind the text of `getinfo:`, whose terminator is stored, and nothing passes the end of the reply
  buffer (`Exactness.BytesExact`). Two reads of 6000 bytes are answered rightly one at a time; received
  together, the second status byte sent is the stale one (`Witness.StaleStatus`). The texts of 477
  `getinfo:` packets pass `max_packet_len` as well, and are right (`Witness.TextsStayRight`). Streams of
  lean packets never get there (`Exactness.LeanFits`).
- The byte-driven shift loops issue more clocks than requested exactly for lengths that are 25 to 31
  modulo 32 (`ShiftLoops.ExactClocks`): three bytes and a bit are four bytes, which are shifted as a full
  word. `README.md:165-166` promises one clock for each bit; the driver keeps that promise for all lengths.
  The returned TDO bits are right in all designs. A connection as a whole keeps the promise, for every
  device, exactly when no shift has such a length (`CommandLoop.ExactConnections`).
- A word that times out in the driver has been shifted all the same; its TDO is lost and nothing is copied
  to the caller (`Bridge.XvcIoctl`).
- A polled egress buffer is handed back to the engine before the caller reads it. It stands until the
  engine has completed count - 1 packets more than were polled. Each copy made by then is its packet
  (`Egress.EgressRing.PollMany`); if all are, and they are when the engine completes no more than count
  packets after those polled at the start, the caller gets exactly the error-free nonempty packets in order
  (`Egress.AllInTime`). The bound is tight, as the next completed packet can be what a later copy returns
  (`Egress.EgressRing.LateRead`).
- A length of -1 to -14 is no error for the XVC 1.0 loop: the division truncates to no bytes, and the shift is
  answered with nothing (`CommandLoop.NegativeLengths`).
- The word loops copy up to three bytes more than asked for. They equal a plain copy on all memories exactly
  for multiples of four (`Memory.CopiesAgree`).
- The last character of a configuration field longer than one is cut off whatever it is, so a field
  `statusX` is reported as lacking its switch, while plain `status` is reported as the unexpected
  `statu`; a field with an equals sign is never accepted (`Settings.FieldApplied`).
- `dpc/README.md:87` shows the answer to `capabilities:` without a length; the code at
  `dpc/src/xvcserver.c:275` sends one, and the model follows the code.
- An unknown command ends the connection without sending the replies to earlier packets of the same batch
  (`mem/versal/src/xvcserver.c:560-561`). After a protocol error what was sent is therefore a prefix of
  what the packet-at-a-time run answers; when the peer closes the connection it is all of it.

## Model

| member | source | states |
|---|---|---|
| Server.XvcClient.ReadPacket | mem/versal/src/xvcserver.c:256-601 | for every conforming stream, every cutting and every content of the reply buffer: calls, client state, device, lock points and the number of bytes sent are those of the packet-at-a-time run, which ends early if and only if a batch of replies passes the 16384 bytes of the reply buffer; the bytes sent are exactly those that stream, cutting and old contents give; the loop ends, and asks the socket for bytes only with room left |
| Server.Serve | mem/versal/src/xvcserver.c:256-601 | the same for a connection from its first byte on; on a stream whose replies are never missed what is sent is a prefix of what the packet-at-a-time run answers |
| Wire.WireFormReads | mem/versal/src/xvcserver.c:276-556 | every command as a client writes it, its name, its integers in the order of the protocol and data as long as they say, is recognised as itself whatever follows, integers too large for their C types kept modulo 2^32 or 2^64; a shift: vector has k bytes for 8k - 7 to 8k bits, TDI of a register shift likewise |
| Wire.PacketNamed | mem/versal/src/xvcserver.c:276-556 | nothing else is a packet: what is recognised starts with the name of its command, and the server has that command |
| Wire.MalformedExactly | mem/versal/src/xvcserver.c:280-292 | a protocol error is a stream of thirty bytes without a colon, or one whose bytes up to the first colon are no name of the server, and nothing else |
| Wire.CommandsOfForms | mem/versal/src/xvcserver.c:265-571 | any list of commands so written is read back command by command, and conforms if and only if every packet has at most 10000 bytes, configure: 9999 |
| Wire.RunOfForms | mem/versal/src/xvcserver.c:265-571 | running what a client writes is executing its commands, nothing being left over |
| Server.ServePackets | mem/versal/src/xvcserver.c:256-601 | a client that writes such packets, however they are cut: the connection ends in the state, with the calls and with the number of bytes that executing them gives |
| Answers.DataAnswer | mem/versal/src/xvcserver.c:426-556 | shift:, irshift:, drshift:, state:, mrd:, mwr: and idpc: call their handler once, with what was written, unless an error is pending; the reply is what it returned, or zeros if there is an error, and the status, where due: k bytes for 8k - 7 to 8k bits, and for register shifts only if the third flag is set |
| Answers.TckAnswer | mem/versal/src/xvcserver.c:460-480 | settck: is answered with the period of the handler, or the one asked for if there is an error, in four bytes, and the status if configured |
| Answers.WordsAnswer | dpc/src/xvcserver.c:345-366 | edpc: is answered with the word count, four bytes for each word, or zeros if the handler failed, and the status; with no words if an error was pending |
| Answers.LockAnswer | mem/versal/src/xvcserver.c:387-407 | lock: without a pending error: 0 if and only if the handler was called and left no error, and the lock is then held; 1 otherwise, with the error `locking is disabled`, `already locked` or the handler's pending |
| Answers.UnlockAnswer | mem/versal/src/xvcserver.c:409-424 | the same for unlock:, with `already unlocked` |
| Answers.RefusalRead | mem/versal/src/xvcserver.c:376-385 | error: hands such a refusal over with its length |
| Answers.InfoAnswer | mem/versal/src/xvcserver.c:294-299 | getinfo: is answered with xvcServer_v1.1:10000 and a newline |
| Answers.CapabilitiesAnswer | mem/versal/src/xvcserver.c:302-321 | capabilities: is answered with the list for the handlers there are, preceded by its length |
| Answers.ConfigureAnswer | mem/versal/src/xvcserver.c:323-374 | a text of key+ and key- fields over status and, with both handlers, locking is answered 0 and leaves each flag as its last field says |
| Answers.ConfigureRefused | mem/versal/src/xvcserver.c:336-369 | with a field the server complains about it is answered 1, the fields before it hold, and that complaint is pending |
| Server.SegmentationIndependence | mem/versal/src/xvcserver.c:265-596 | two runs over one conforming stream cut differently, over different garbage in their reply buffers: if the replies of packets that can be buffered together fit the reply buffer, both end alike, make the same calls with the same arguments, end in the same state and had sent the same number of bytes before each lock call; if moreover no length or status byte is left out, they sent the same bytes |
| Batches.CuttingsFit | mem/versal/src/xvcserver.c:193-211 | for either criterion, a limit on the replies of a batch or no missed byte: no way of cutting a conforming stream breaks it if and only if the packets that can be in the buffer together, up to a lock: that waits, keep it together |
| Batches.WorstCutting | mem/versal/src/xvcserver.c:573-596 | a stream that is not fitting has a cutting that breaks the criterion |
| Batches.FittingHolds | mem/versal/src/xvcserver.c:265-596 | on a fitting stream no state of buffer, unread bytes and cutting breaks it |
| Exactness.BytesExact | mem/versal/src/xvcserver.c:192-212 | for all contents of the reply buffer and all cuttings of a conforming stream the connection stays inside the reply buffer and sends a prefix of what the packet-at-a-time run answers, if and only if no length or status byte of packets that can be buffered together is missed and nothing passes the reply buffer |
| Exactness.TransmitRight | mem/versal/src/xvcserver.c:265-596 | on such a stream everything sent is right from every state of buffers and cutting on |
| Exactness.WrongCutting | mem/versal/src/xvcserver.c:573-596 | on any other there is a cutting, and a byte such that whatever else the reply buffer held, something wrong is sent or the buffer overrun |
| Exactness.FittingWeaker | mem/versal/src/xvcserver.c:192-212 | replies within max_packet_len are right, and right ones are inside the reply buffer |
| Exactness.AnsweredIsRun | mem/versal/src/xvcserver.c:265-571 | the replies compared with are those of the packet-at-a-time run |
| ReplyBuffer.StoredRight | mem/versal/src/xvcserver.c:192-212 | a reply none of whose bytes is missed is stored whole behind the replies before it, which stay |
| ReplyBuffer.StoredWrong | mem/versal/src/xvcserver.c:192-212 | a missed byte stays what the reply buffer held, so it is wrong unless it was right by chance |
| ReplyBuffer.AloneShort | mem/versal/src/xvcserver.c:192-212 | a packet answered alone, with no byte missed, stores nothing at or beyond max_packet_len, because every longer reply ends with a status |
| ReplyBuffer.ErrorStaysShort | mem/versal/src/xvcserver.c:214-220 | no packet leaves an error longer than its buffer |
| Exactness.LeanFits | mem/versal/src/xvcserver.c:426-571 | streams of lean packets keep the replies of every batch within max_packet_len |
| Witness.TwoReads | mem/versal/src/xvcserver.c:522-539 | two mrd: packets of 6000 bytes: together a status byte is missed, one at a time none is, and the reply buffer is not overrun either way |
| Witness.StaleStatus | mem/versal/src/xvcserver.c:192-196 | a whole connection that receives the two packets together and is then closed sends as many bytes as the run answers, and its last byte is the one the reply buffer held, whatever that was, where the run answers the status |
| Witness.TextsStayRight | mem/versal/src/xvcserver.c:294-298 | the texts of 477 to 780 getinfo: packets pass max_packet_len together and are right for every cutting, so the exact condition is not the limit |
| Witness.MrdReads | mem/versal/src/xvcserver.c:522-526 | an mrd: packet is recognised as itself, whatever follows |
| Server.XvcClient.ParseBatch | mem/versal/src/xvcserver.c:265-571 | a batch keeps the outcome of the run over what is buffered and unread, stops where, why and with as many reply bytes as the definition on values says, and leaves exactly that reply buffer |
| Server.XvcClient.Turn | mem/versal/src/xvcserver.c:265-596 | one turn of the outer loop keeps the run, everything that is still to be sent and whether the reply buffer will be overrun, ends with that verdict exactly when it is, and makes progress: fewer unread bytes, or as many and fewer buffered ones |
| Server.XvcClient.ReplyBufSize | mem/versal/src/xvcserver.c:94-100 | doubles until the size is enough, less than twice what was asked for |
| Server.XvcClient.ParseOne | dpc/src/xvcserver.c:239-397 | one pass is exactly one step of the run and of the batch and consumes exactly the packet, or changes nothing observable; nothing is sent |
| Server.XvcClient.Perform | mem/versal/src/xvcserver.c:294-570 | executing a packet advances the run by that packet, leaves the reply buffer, byte for byte, as the reply with its left-out bytes makes it, and the bytes behind the packet as they were |
| Server.XvcClient.NextPacket | mem/versal/src/xvcserver.c:276-292 | the cursor-driven recogniser finds the frame, the command and the end that the definition on values gives |
| Server.XvcClient.ShiftPacket | mem/versal/src/xvcserver.c:430-444 | a shift: packet is recognised with both vectors, or more bytes are asked for, and the size assertion holds; what the packet is in bytes says Wire.WireFormReads |
| Server.XvcClient.FieldPacket | mem/versal/src/xvcserver.c:486-495 | fields kept modulo 2^64 and 2^32 frame and decode the packet as the unbounded ones do; which field is which says Wire.WireFormReads |
| Server.XvcClient.GetUleb128 | mem/versal/src/xvcserver.c:178-190 | the accumulating loop returns the low 64 bits of the encoded integer and stops behind it, also when the field is cut off |
| Server.XvcClient.GetUintLe | mem/versal/src/xvcserver.c:158-166 | value of a little-endian integer in the buffer |
| Server.XvcClient.SetUintLe | mem/versal/src/xvcserver.c:168-175 | appends the little-endian bytes, earlier replies untouched |
| Server.XvcClient.ReplyUleb128 | mem/versal/src/xvcserver.c:198-212 | the cursor moves by the length of the encoding; its bytes are stored where they are below max_packet_len, and every other byte of the reply buffer is as before |
| Server.XvcClient.ReplyStatus | mem/versal/src/xvcserver.c:192-196 | the cursor moves by one; 1 is stored exactly if an error is pending, below max_packet_len, and every other byte of the reply buffer is as before |
| Server.XvcClient.GetField | mem/versal/src/xvcserver.c:102-111 | finds the first comma or the end, terminates the field there and changes no other byte |
| Server.XvcClient.StripField | mem/versal/src/xvcserver.c:339-353 | the destructive cut yields the key and switch of the field and writes inside the field only; what they are in characters says Settings.FieldApplied |
| Server.XvcClient.ParseConfig | mem/versal/src/xvcserver.c:323-374 | the in-place loop has the effect of a left fold over the comma-separated fields that stops at the first invalid one; every byte outside the text, the saved one behind it included, is as before; a zero byte ends the text |
| Server.XvcClient.LockCommand | mem/versal/src/xvcserver.c:387-407 | the handler is called only with no unsent reply, locking enabled, no pending error and the lock free; locked is set only if it left no error; when lock: fails says Answers.LockAnswer |
| Server.XvcClient.EdpcCommand | dpc/src/xvcserver.c:345-366 | word count, data or zeros, and status, as the definition on values gives them, length and status bytes being stored below max_packet_len only |
| Server.XvcClient.ErrorCommand | mem/versal/src/xvcserver.c:376-385 | sends the pending error with its length and clears it, touching nothing else |
| Server.XvcClient.ConsumePacket | mem/versal/src/xvcserver.c:228-232 | the unparsed bytes move to the front unchanged |
| Server.XvcClient.Recv | mem/versal/src/xvcserver.c:589-596 | bytes move from the socket to the end of the buffer, at least one unless the stream is over; needs, and gets, room |
| Session.NeverOversized | mem/versal/src/xvcserver.c:440 | whatever part of a conforming stream is in the buffer, no size assertion fails |
| Session.ConformingIsExact | mem/versal/src/xvcserver.c:329-549 | the conforming streams are exactly those no part of which, from any packet on and no longer than the receive buffer, trips a size assertion |
| Server.AdvanceStep | mem/versal/src/xvcserver.c:394 | because lock: waits for an empty reply buffer, unsent replies never precede a lock call |
| Server.RunExtends | mem/versal/src/xvcserver.c:573-586 | a run only adds to the replies and calls made before |
| Session.CommandExtend | mem/versal/src/xvcserver.c:276-560 | a complete packet is recognised and decoded the same way whatever follows it |
| Laws.RunComposes | mem/versal/src/xvcserver.c:265-596 | running a stream is running a part, then the rest behind what the part left over; a protocol error ends it for good |
| Laws.StickyRun | mem/versal/src/xvcserver.c:376-556 | with an error pending and no error: packet in the stream, no handler is called, neither client nor device changes, and every reply is the failed one: zero data, status 1, settck: echoing its request |
| Laws.StickyStep | mem/versal/src/xvcserver.c:337-556 | the same for one packet of any kind, configure: included |
| Laws.ErrorReport | mem/versal/src/xvcserver.c:376-385 | the reply to error: decodes to the length and the whole text of the pending error, which is cleared |
| Laws.LockDiscipline | mem/versal/src/xvcserver.c:387-422 | over every stream lock is called only while free, unlock only while held, locked says which succeeded last, and locking is enabled only if both handlers exist |
| Laws.LockCount | mem/versal/src/xvcserver.c:398-418 | alternation as conservation: successful locks exceed successful unlocks by one exactly while the lock is held |
| Laws.LockStep | mem/versal/src/xvcserver.c:323-422 | no other packet touches the lock, and an unsuccessful call leaves it as it was |
| Laws.LeanReply | mem/versal/src/xvcserver.c:426-571 | shift, settck, lock, unlock, state, mwr, configure, idpc and register shifts with data are answered with at most as many bytes as they have, status on or off |
| Framing.FramePrefix | mem/versal/src/xvcserver.c:276-596 | on every prefix of an accepted stream the parser asserts nothing wrong and asks for more exactly until the packet is complete |
| Framing.FrameExtend | mem/versal/src/xvcserver.c:276-292 | a complete packet ends where it ends and an unknown command is unknown, whatever follows |
| Framing.PacketEndCut | mem/versal/src/xvcserver.c:486-495 | the size estimated from a prefix never exceeds the true size |
| Framing.PayloadCut | mem/versal/src/xvcserver.c:489-491 | smaller or missing field values never give a larger data size |
| Framing.FourBytesAWord | dpc/src/xvcserver.c:370-371 | a word count that wraps still gives four times its low 62 bits, so idpc: needs no condition |
| Framing.PacketEndKnown | mem/versal/src/xvcserver.c:491-494 | with one byte missing the estimate is already exact |
| Framing.PrefixesFillIffAdmissible | mem/versal/src/xvcserver.c:329-333 | all proper prefixes of a complete packet are waited for if and only if its size does not wrap and respects the asserted size |
| Framing.WrapTrips | mem/versal/src/xvcserver.c:486-494 | every packet whose bit count wraps, complete or not, has a prefix that trips the assertion |
| Framing.WrapAfterName | mem/versal/src/xvcserver.c:489-492 | its bit count takes more than nine bytes, and the first nine already say that it is too large |
| Framing.LateByteTrips | mem/versal/src/xvcserver.c:439-443 | a larger packet trips the assertion when its last byte is late |
| Framing.FullBufferTrips | mem/versal/src/xvcserver.c:439-443 | a prefix longer than the receive buffer that trips the assertion has tripped it when the buffer was full |
| Framing.FullConfigure | mem/versal/src/xvcserver.c:330 | the strict assertion makes a buffer-filling configure: packet depend on how it arrives |
| Framing.WrappedSize | mem/versal/src/xvcserver.c:489-494 | a bit count of 2^64 - 1 wraps to no data: complete, yet a prefix of it is refused as too large |
| Framing.FillLeavesRoom | mem/versal/src/xvcserver.c:590 | whenever more bytes are asked for, the buffer has room |
| Uleb128.RoundTrip | mem/versal/src/xvcserver.c:178-212 | an encoded value anywhere in a stream decodes to itself and the decoder stops right behind it |
| Uleb128.PutLength | mem/versal/src/xvcserver.c:198-212 | k bytes are enough for an encoding if and only if the value has at most 7k bits |
| Uleb128.GetCut | mem/versal/src/xvcserver.c:184 | a cut-off field ends one past the end, holds the low part of the value, and the rest starts at the cut |
| Uleb128.GetCutBelow | mem/versal/src/xvcserver.c:178-190 | a truncated decode overestimates neither the value, in 64 or in 32 bits, nor the end |
| Uleb128.FieldsCut | mem/versal/src/xvcserver.c:486-488 | the same for chained fields: values before the cut are exact, those after it zero |
| Uleb128.FieldsExtend | mem/versal/src/xvcserver.c:523-526 | fields that end inside the buffer do not depend on what follows |
| Configure.SplitJoin | mem/versal/src/xvcserver.c:102-111 | the split into fields is unique: no field holds a comma and joining them gives the text back |
| Configure.ConfigKeeps | mem/versal/src/xvcserver.c:354-366 | no configuration touches the lock or enables locking without both handlers |
| Configure.InvalidStops | mem/versal/src/xvcserver.c:354-369 | a field leaves no error exactly if it is a known key with a switch |
| Settings.Configured | mem/versal/src/xvcserver.c:336-369 | with no error pending a list of key+ and key- fields leaves each flag as its last field says, + on and - off, other flags as they were, and no error; a comma at the end, and what follows a zero byte, do not matter |
| Settings.Misconfigured | mem/versal/src/xvcserver.c:336-369 | a field that is none of these ends the configuration: the fields before it hold, the error names it, nothing behind it is looked at |
| Settings.FieldApplied | mem/versal/src/xvcserver.c:337-369 | what each form of field does: key and last character, assignment, single character, empty |
| Settings.ClipKeeps | mem/versal/src/xvcserver.c:214-220 | an error text is kept up to its first zero byte, and at most 1023 bytes of it |
| Replies.OneRoundTrip | dpc/src/xvcserver.c:356-366 | one edpc: or error: reply is parsed back and nothing behind it is consumed |
| Replies.RepliesParseBack | dpc/src/xvcserver.c:163-177 | concatenated replies parse back into their counts, data and messages, whatever follows |
| Replies.RepliesUnique | dpc/src/xvcserver.c:163-177 | two runs of replies with the same bytes are the same replies |
| Replies.AnswersEncode | dpc/src/xvcserver.c:345-366 | what the server sends for any run of edpc: and error: packets is such an encoding |
| Replies.ServerRepliesParse | dpc/src/xvcserver.c:334-366 | the bytes a client receives for any run of edpc: and error: packets, whatever the handlers do, parse into the answers given |
| Jtag.PlanRefinesSerial | jtag/zynqMP/src/driver/xvc_driver.c:143-174 | full words and a short tail refine the bit-serial shift: same device state, same TDO bits, every device, length and vector |
| Jtag.WordBits | README.md:165-175 | a little-endian word shifts its bytes in order, bit 0 of byte 0 first |
| Jtag.StoredBits | jtag/zynqMP/src/driver/xvc_driver.c:171 | bytes stored from a word hold its low bits in order |
| Jtag.VectorBitAt | README.md:165-175 | bit j of byte i is bit 8i + j of a vector |
| Jtag.PlanFits | jtag/zynqMP/src/driver/xvc_driver.c:143-166 | every transaction fits the 32-bit registers, and all but the last shift 32 bits |
| Jtag.BytesForExactly | jtag/zynqMP/src/driver/xvc_driver.c:102 | a vector has as many bytes as hold its bits, and no more |
| Bridge.XvcShiftBits | jtag/zynqMP/src/driver/xvc_driver.c:38-76 | one word is shifted with the length and bypass bit set before; fails exactly if the bridge is busy for 100 polls, the word being shifted all the same |
| Bridge.FirstTimeOut | jtag/zynqMP/src/driver/xvc_driver.c:58-70 | the word that times out is the first whose shift reads as busy a hundred times |
| Bridge.ShiftChunk | jtag/zynqMP/src/driver/xvc_driver.c:144-174 | one pass shifts the next 32 bits or the rest, LENGTH being right although it is not rewritten for full words |
| Bridge.ShiftVector | jtag/zynqMP/src/driver/xvc_driver.c:138-174 | transactions, device and TDO are those of the bit-serial shift up to and including the first word that times out |
| Bridge.XvcIoctl | jtag/zynqMP/src/driver/xvc_driver.c:78-186 | for every length and device: without time-out the result is the bit-serial shift with the bypass bit in every transaction; with one, exactly the words up to it were shifted and TDO is not copied out; unknown operations do nothing |
| ShiftLoops.ShiftByBytes | jtag/zynq7000/XAPP1251/src/xvcServer.c:125-193 | the byte-driven loop performs the bit-serial shift of the rounded-up number of clocks, its transactions being those of the plan |
| ShiftLoops.ShiftMapped | jtag/zynqMP/src/user/xvcServer.c:179-222 | the same for the loop that counts transaction bytes, whose count ends at exactly zero |
| ShiftLoops.Clocks | jtag/zynq7000/XAPP1251/src/xvcServer.c:134-170 | the number of clocks is the length exactly unless it is 25 to 31 modulo 32, and never needs another byte |
| ShiftLoops.ExactClocks | jtag/zynq7000/XAPP1251/src/xvcServer.c:134-170 | the byte-driven loops leave every device where the bit-serial shift leaves it if and only if the length is not one of those; for those a device that counts its clocks differs |
| ShiftLoops.LoopsAgree | jtag/zynqMP/src/user/xvcServer.c:186-222 | driver and byte-driven loops issue the same transactions if and only if the length is not one of those |
| ShiftLoops.FirstBitsAgree | jtag/zynqMP/src/user/xvcServer.c:209-210 | the TDO bits returned are right for every length |
| CommandLoop.Socket.SRead | jtag/zynqMP/src/user/xvcServer.c:49-59 | reads exactly the bytes asked for, in order, however they arrive, if and only if the stream has them |
| CommandLoop.ShiftCommand | jtag/zynqMP/src/user/xvcServer.c:154-222 | a shift is answered with the TDO of the bit-serial shift, or the connection fails with the device untouched |
| CommandLoop.Round | jtag/zynqMP/src/user/xvcServer.c:110-250 | one round consumes and answers exactly the next command, or fails exactly if there is none |
| CommandLoop.HandleData | jtag/zynqMP/src/user/xvcServer.c:100-255 | shifts are served until one getinfo: or settck:, or the end; each is answered in order and the device has seen all of them |
| CommandLoop.Serve | jtag/zynqMP/src/user/xvcServer.c:414-420 | a whole connection, however its bytes arrive, is answered command by command, and the device ends where those commands lead |
| CommandLoop.WireReads | README.md:153-175 | a command as a client writes it is read as itself, whatever follows |
| CommandLoop.RefusedTurns | jtag/zynqMP/src/user/xvcServer.c:110-170 | other letters and vectors that do not fit 2048 bytes together end the connection |
| CommandLoop.NegativeLengths | jtag/zynqMP/src/user/xvcServer.c:154-166 | negative lengths down to -14 shift nothing and are answered with nothing; below, the connection ends |
| CommandLoop.TurnsOfWire | README.md:153-175 | a conversation as a client writes it is read back command by command |
| CommandLoop.OneLongShift | jtag/zynqMP/src/user/xvcServer.c:179-222 | spread over any shifts of exact length, the bits reach the device as one bit-serial run |
| CommandLoop.ExactConnections | jtag/zynqMP/src/user/xvcServer.c:193-214 | that holds for every device if and only if no length is 25 to 31 modulo 32 |
| Ingress.IngressRing.constructor | dpc/src/hsdp.c:414-429 | the set-up ring satisfies the invariant with nothing in flight |
| Ingress.EngineReads | dpc/src/hsdp.c:327-332 | under the invariant the engine always finds, through its descriptor, the oldest accepted packet not sent, complete, and never the one being written |
| Ingress.EngineKeeps | dpc/src/hsdp.c:285-345 | every step of the engine, with any status, keeps the invariant: in-flight descriptors form one circular segment ending just before the next to use and hold, in order, the accepted packets not sent |
| Ingress.IngressRing.WaitForFree | dpc/src/hsdp.c:301-318 | polling gives up only after a thousand polls, and only if every descriptor was in flight |
| Ingress.IngressRing.Fill | dpc/src/hsdp.c:327-342 | slot, descriptor and tail writes, with the engine running between them, hand over exactly this packet behind all others |
| Ingress.IngressRing.SendPacket | dpc/src/hsdp.c:285-345 | under all interleavings: success accepts the packet and moves the cursor by one; -1 changes no slot, cursor or descriptor, apart from the engine retiring its own |
| Ingress.IngressRing.SendAll | dpc/src/hsdp.c:285-345 | over every run the packets accepted are exactly those whose send returned 0, in order; a send returns -1 only if the packets accepted by then and not sent at the start fill the ring, so as many sends as descriptors are free succeed; what the engine took is a prefix of them, intact, and without errors all of it was transmitted |
| Ingress.ErrorFree | dpc/src/hsdp.c:305-310 | without error status transmitted and retired packets are the same |
| Ring.StatusBits | dpc/src/hsdp.c:176-189 | a status word says done in bit 31, an error in any of bits 28 to 30, and a size in bits 0 to 25, whatever the other bits are |
| Ring.ControlBits | dpc/src/hsdp.c:331 | the control word is the size with bits 26 and 27 set |
| Egress.EgressRing.constructor | dpc/src/hsdp.c:431-452 | the set-up ring satisfies the invariant with every descriptor armed |
| Egress.GoodFrames | dpc/src/hsdp.c:172-190 | the DMA engine may complete any packet of up to 260 words: without an error with a status that counts its bytes, with an error whatever it stored |
| Egress.EngineKeeps | dpc/src/hsdp.c:161-232 | every completion, empty or failed ones included, keeps the invariant: armed and unread descriptors make up the ring, each names its own slot, unread ones hold the received packets in order |
| Egress.SomethingUnread | dpc/src/hsdp.c:172-187 | the polled descriptor is retired exactly if a packet waits, and it is the oldest; armed and waiting number the ring |
| Egress.LookKeeps | dpc/src/hsdp.c:176-206 | looking at it delivers it unless it failed or is empty |
| Egress.HandBackKeeps | dpc/src/hsdp.c:214-226 | moving the tail re-arms exactly that descriptor, behind all armed ones |
| Egress.StableStep | dpc/src/hsdp.c:199-224 | a returned buffer comes one place closer to the engine with each completed packet and is not written before its turn |
| Egress.EgressRing.PollFastPacket | dpc/src/hsdp.c:161-232 | under all interleavings: a waiting packet is never passed over, errors and empty packets are re-armed and not delivered, and the returned buffer stands until count - 1 packets more than polled are completed |
| Egress.EgressRing.RearmFailed | dpc/src/hsdp.c:176-183 | writing BUFF after the tail, when the engine may already own the descriptor, changes nothing |
| Egress.EgressRing.ReceiveFastPacket | dpc/src/hsdp.c:235-255 | one poll in the shipped build; its result is the packet delivered next |
| Egress.EgressRing.PollAndRead | dpc/src/xvc_dpc.c:121-141 | a poll, the engine, then the copy, which is recorded with the number of packets completed by then: it has the length of the packet delivered, and is that packet if no more than count - 1 packets beyond those polled are completed |
| Egress.EgressRing.PollMany | dpc/src/hsdp.c:235-255 | over every run: one copy for each error-free nonempty packet polled, in order, none lost or repeated, each made before the next poll and recorded with the packets completed by then; every copy recorded in time is its packet, every other one has its length; at most count packets wait |
| Egress.AllInTime | dpc/src/hsdp.c:199-224 | if all copies are in time they are the packets delivered; they are if the engine completes no more than count packets after those polled at the start |
| Egress.EgressRing.LateRead | dpc/src/hsdp.c:214-226 | the bound is tight: with one more completed packet, any packet of that size can be what the copy returns |
| Egress.BufferStands | dpc/src/hsdp.c:199-224 | a safe buffer holds its packet, and is the engine's next one exactly when nothing more may be completed |
| Dpc.ServeEdpc | dpc/src/xvcserver.c:345-366 | what is sent for a run of edpc: packets on the ring is what the packet engine sends when its handler returns what the polls do; the words a client reads out of it, low byte first, are the polls' results, one copy for each error-free nonempty packet in order, each equal to its packet if recorded in time |
| Dpc.ScriptedRun | dpc/src/xvcserver.c:345-366 | executing edpc: packets on a handler that deals out packets answers with those packets, counts and status, one after the other |
| Dpc.WordAt | dpc/src/xvcserver.c:358-361 | the bytes of a packet are its words in order, four bytes each, low byte first |
| Dpc.PacketsBack | dpc/src/xvcserver.c:345-366 | a client reads the words of every packet back |
| Regions.Hsdp.Setup | dpc/src/hsdp_lib.c:108-134 | the assignments, each from the one before, give the layout of four consecutive regions |
| Regions.SlotsAgree | dpc/src/hsdp.h:53-57 | for every count each slot lies inside the buffer and has the same offset for CPU and bus |
| Regions.SlotSizes | dpc/src/hsdp.h:46-49 | descriptors take 0x40 bytes, packet slots 0x410 |
| Regions.SlotsDisjoint | dpc/src/hsdp_lib.c:113-134 | no two slots of the same or of different regions overlap, for the CPU or on the bus |
| Regions.NextIsRingSuccessor | dpc/src/hsdp.h:60 | the address test of HSDP_NEXT computes the successor modulo the count from -1 on |
| Regions.ShippedLayoutFits | dpc/src/hsdp_lib.c:108-134 | the layout fits the memory set aside exactly up to 118 descriptors, so the shipped one does |
| Memory.Hub.CopyWords | mem/versal/src/xvc_mem.c:168-172 | the word loop replaces whole words by those of the source and nothing else |
| Memory.Hub.Mrd | mem/versal/src/xvc_mem.c:141-182 | in range: the bytes asked for reach the reply, memory is not touched; out of range: an error and no byte |
| Memory.Hub.Mwr | mem/versal/src/xvc_mem.c:184-224 | in range: exactly the addressed words change; out of range: an error and no change |
| Memory.WordCarriesBytes | mem/versal/src/xvc_mem.c:213 | a word carries its four bytes unchanged |
| Memory.InHubExactly | mem/versal/src/xvc_mem.c:156 | a request is accepted if and only if all its addresses are those of the hub, or, if it is empty, it starts in or right behind it |
| Memory.WordCopyIsMemcpy | mem/versal/src/xvc_mem.c:209-217 | the two builds agree exactly when the bytes beyond the request are unchanged, and for all multiples of four |
| Memory.CopiesAgree | mem/versal/src/xvc_mem.c:209-217 | they agree on all memories and buffers if and only if the size is a multiple of four |
| Memory.AfterAt | mem/versal/src/xvc_mem.c:184-224 | after any writes each address holds the byte written there last |
| Memory.ReadAfterWrite | mem/versal/src/xvc_mem.c:141-224 | a read returns at every address the byte written last |
| Accesses.Handle | mem/versal/src/xvc_mem.c:141-224 | the handlers with their word loops on the hub have the effect, the data and the error of the handler function used in the laws below |
| Accesses.ServedStep | mem/versal/src/xvcserver.c:376-556 | one packet is answered as a client that remembers the accepted writes, the configuration and the pending error expects |
| Accesses.PacketsAnswered | mem/versal/src/xvc_mem.c:141-262 | over any sequence of mrd:, mwr:, settck:, configure:, getinfo:, capabilities: and error: packets, refused ones included, every accepted read returns the bytes written last, and a refusal shows in every answer until error: |
| Laws.RunIsFold | mem/versal/src/xvcserver.c:275-571 | running a stream is executing its packets in order |
| Accesses.ServeMemory | mem/versal/src/xvc_mem.c:250-262 | the same for a byte stream through the buffered engine, however it is cut and whatever the reply buffer held: it ends as the run of the stream does, with a protocol error only if the stream has one, and a stream of which no byte is missed is answered with the expected bytes, all of them if the peer closes the connection |
| Accesses.WrittenServed | mem/versal/src/xvcserver.c:522-556 | mrd:, mwr:, settck:, configure:, getinfo:, capabilities: and error: packets as a client writes them, no longer than the receive buffer, meet what ServeMemory asks for |
| Accesses.ServeClient | mem/versal/src/xvc_mem.c:250-262 | a client that writes such packets is sent exactly what it expects, whatever way they are cut, if no byte of the replies is missed |

## Left out

- Sockets, accept and select loops, URL and command-line parsing, logging, hex dumps, timing.
- The flush handler and failing sends: every send is complete.
- Server.XvcClient.ReadPacket: handles conforming streams only, the exact domain of the size assertions. A reply beyond the 16384 bytes of the reply buffer would be written outside it, which is undefined; the run ends there with its own outcome.
- Server.XvcClient.GetUleb128: encodings longer than ten bytes are given their value modulo 2^64; the C code shifts by 64 or more there, which is undefined.
- Server.XvcClient.Recv: a receive that fails ends the connection like a close by the peer and adds a message; the two are not told apart.
- Server.XvcClient.DataCommand: data a handler returns is cut or padded with zeros to the length of the reply; handlers that leave a part of their reply unwritten, or fill it in later, are not modelled.
- Server.XvcClient.ParseConfig: the byte saved and restored behind a text that ends at the end of the receive buffer is one byte of the model's array; the C buffer may not own it.
- The two 1.1 servers are one class, so optional status bytes exist in the model for commands the dpc server does not have; the label at `dpc/src/xvcserver.c:390` is unreachable there.
- The shortening of error texts longer than the receive buffer at `mem/versal/src/xvcserver.c:378-379`, which no text of at most 1023 bytes reaches.
- Pointer arithmetic that leaves the address space, such as adding a 64-bit size to a cursor.
- The text a memory handler reports for a refused request; it is a parameter.
- The TAP state machine behind `irshift:`, `drshift:` and `state:`, whose handlers are not in the repository.
- Ingress.IngressRing.SendPacket: the packet fits a slot; larger ones are outside its domain, as are `idpc:` packets of more words than a slot holds. BUFF holds the index of a slot instead of its address, which `Regions` justifies. An errored descriptor is retired and the engine moves on; a halted engine is not modelled.
- Egress.EgressRing.PollFastPacket: memory is sequentially consistent, so barriers have no effect; the caller's optional out-parameters are always given.
- `hsdp_send_fast_packet`, `hsdp_setup_packets`, `hsdp_receive_packet`, resets, dumps and checks of the DMA engine.
- Bridge.XvcShiftBits: the bridge is idle when a word is started. What it does when it is still busy with a word that timed out is not known from the driver.
- Bridge.XvcIoctl: likewise starts with an idle bridge; allocation and user-space copies succeed; vectors have less than 2^31 bits.
- Bridge.ShiftVector: likewise starts with an idle bridge.
- CommandLoop.Serve: writes succeed; the build that shifts through the driver is modelled by `Bridge.XvcIoctl` alone; a length above 2^31 - 8 overflows in C and is refused here.
- ShiftLoops.ShiftByBytes: both vectors and the result fit their buffers. The command loop around it differs from the one of `CommandLoop` in its buffer size only and is not repeated.
- `memset` of the result before a shift loop, which the loops overwrite.
- Memory.Hub.Mrd: for sizes that are no multiple of four the rounded-up words must lie in the buffers; what the loop does beyond them is undefined in C. Address sums do not wrap.
- Memory.Hub.Mwr: the same.
- Accesses.PacketsAnswered: accepted accesses are of whole words, and their address sums do not wrap. The build that copies with one `memcpy` is covered by `Memory.CopiesAgree` only.
- The bench program of the driver, and property read-out through the driver.
