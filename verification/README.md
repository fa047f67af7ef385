# A model of the meter simulator's protocol stack

This project models, in Dafny, the DLMS/COSEM meter simulator under `simulator_meter`: how it
parses requests, frames and checks bytes, moves them through sessions and threads, and the
discrete-log schemes whose bodies are in its `include/cryptopp` headers. `dafny verify
dfyconfig.toml` checks all of it.

| module | what it is about |
|---|---|
| `Bytes`, `Wrappers` | bytes, big-endian numbers, 16-bit fields, an option type |
| `AsnGrammar`, `AsnSpec`, `AsnParser` | the grammar table; what every parser does to any bytes; the parser objects, proved against that |
| `CosemData`, `FlatList` | COSEM Data values, their encoding, and the flat list of items that parsing appends |
| `CosemRequest`, `GetRequests` | the readers over that list, and what they make of GET requests |
| `OtherPdus`, `Malformed` | the other PDUs of the grammar; what the parser makes of encodings that are not well formed |
| `Crc16`, `CrcErrors`, `CrcOrder`, `HdlcPacket` | FCS-16 as a linear register, the errors it sees, the order of its step, HDLC frames in place in a buffer |
| `MessageBlock`, `FrameSplitter` | byte blocks; splitting one read into wrapper frames |
| `ChannelState`, `WriteQueue`, `TaskQueue`, `Registry` | the states of a handler, the asynchronous write queue, the thread pool's queue, the session registry |
| `Idis`, `Bcd` | lists of data units; binary-coded decimals |
| `ModArith`, `Group` | inverses modulo n; cyclic groups of prime order, and the integers modulo a prime as one |
| `Signatures`, `Mqv`, `ElGamal` | GDSA and NR signatures, MQV agreement, ElGamal encryption |

Objects that the program updates in place are classes whose methods are proved against
specification functions; what the program promises is proved about those functions. What runs on
several threads is a state machine with one step for each section that runs under a lock or on a
strand, and the results hold over every run.

Where a read or write leaves its buffer, which the program leaves undefined, the model has an
outcome of its own (`OutOfBounds`, `Outside`, `Overrun`, or a result `inside` that is false); the
fixed storage of a parsed item is the exception listed at the end.

## What turned out not to hold

- Going online does not start a write. What `put` to everyone queues on a session before its first
  read stays there, online, until another put (`WriteQueue.PutWhileIdleWaits`); something queued
  is being written exactly if some block was put while online (`QueuedIsSentExactly`).
- After a write error and before `stop` runs, `put` can still start one write
  (`WriteQueue.PutAfterFailure` says exactly when, `WindowIsReachable` shows a run). No write
  starts once `stop` has run.
- `get_task` tests for an empty queue once. One wake-up that is not a notification makes it take
  the front of an empty queue (`TaskQueue.FaultExactly`, `SpuriousWakeFaults`).
- A session that has stopped is still registered exactly when it was registered and idle as its
  stop began (`Registry.StopLeavesExactly`). So one stopped before its first read stays for ever
  (`IdleStopLeaks`, `LeakIsReachable`), and the sessions that get its id later, each time after
  100000 accepts, are refused (`RefusedExactly`, `RefusalIsReachable`).
- HDLC frames with more than 1011 data bytes are formatted but not parsed back: the parser keeps
  ten length bits (`HdlcPacket.FormatThenParse`). The last three lengths that fit the data area
  do not fit the packet buffer once framed (`Packet.FormatPacket`).
- A GET-with-list request whose ranges can be stepped over comes back whole exactly when it has at
  most 255 entries, the list item keeping one byte of the count, and no range has an octet string
  as its from time and a date-time as its to time (`GetRequests.GetListRoundTrip`). On such mixed
  times `get_list_data` fails, with the entries before them (`FailsAtMixedTimes`), although the
  readers of normal requests take them (`TimesReadBack`).
- A range comes back with every entry without a range that may follow it exactly when its times
  are taken and its selected values are one item (`GetRequests.FollowedExactly`); after other
  selected values the next entry may happen to be read right, but not every one is.
  `ListsThatFail` has inputs for both failures.
- Malformed lists are accepted: a rejected element only moves the position back by one
  (`Malformed.FailedElementAccepted`), elements missing at the end of the buffer are not missed
  (`MissingElementsAccepted`), and a selective-access flag above 1 is listed but not stepped over
  (`OtherFlagIsNotSkipped`).
- A last frame without payload stays in the buffer (`FrameSplitter.DispatchesExactly`).
- The third number format reads multiples of a thousand as a thousandth of themselves, and loses
  numbers of eight digits or more (`Bcd.Sg3RoundTripExactly`).
- `Block.Copy` tests for room that reading has freed, but does not move the unread bytes to use
  it, and can write past its buffer (`MessageBlock.Block.SpaceIsExact`, `OverrunIsReachable`).
- Diffie-Hellman agreement with a compatible cofactor needs a cofactor that is no multiple of the
  subgroup order, unless the shared exponent is one too (`ElGamal.AgreementExactly`,
  `CompatibleCanFail`).
- For moduli of one or two bytes ElGamal's length limit wraps and admits texts for which there is
  no room (`ElGamal.RoomExactly`, `NoRoomIsReachable`).

## Model

Paths are relative to the repository's root.

| member | source | states |
|---|---|---|
| AsnGrammar.RuleOf | simulator_meter/common/ptcl_codec/asn_parser.cpp:5-250 | in the whole table, association request included, a parser that hands its own input on unconsumed hands it to one of lower rank, which is why parsing terminates |
| AsnParser.Parser.ParseLengthInfo | simulator_meter/common/ptcl_codec/asn_parser.h:134-150 | reads the definite length of X.690 section 8.1.3, refuses more than four octets |
| AsnParser.Parser.Parse | simulator_meter/common/ptcl_codec/asn_parser.cpp:5-250 | on any bytes, return value and appended items are those of the specification |
| AsnParser.Parser.ParseSequence | simulator_meter/common/ptcl_codec/asn_parser.h:47-68 | the loop over parts and optional flags refines the recursive specification |
| AsnParser.Parser.ParseChoice | simulator_meter/common/ptcl_codec/asn_parser.h:83-102 | tag, item and alternative, with the error cases |
| AsnParser.Parser.ParseSequenceOfData | simulator_meter/common/ptcl_codec/asn_parser.h:114-133 | the element loop, including a -1 that is added to the position unseen |
| AsnParser.Parser.ParseSequenceOfWithList | simulator_meter/common/ptcl_codec/asn_parser.h:162-208 | the descriptor loop |
| AsnParser.Parser.ParseOneDescriptor | simulator_meter/common/ptcl_codec/asn_parser.h:176-195 | one round of that loop: descriptor, flag item, and the flag byte read again as a Data tag |
| AsnParser.Parser.ParseBerSequence | simulator_meter/common/ptcl_codec/asn_parser.h:240-260 | tagged parts behind a one-byte length, as in the association request |
| AsnParser.Parser.ParseFixed | simulator_meter/common/ptcl_codec/asn_parser.h:301-310 | a fixed number of bytes or -1 |
| AsnParser.Parser.ParseUnfixed | simulator_meter/common/ptcl_codec/asn_parser.h:322-337 | a length, that many bytes, and the 32-bit sum in the test |
| CosemData.DataTable | simulator_meter/common/ptcl_codec/asn_parser.cpp:89-210 | tag by tag, the grammar's rule for a Data type is the encoder's: its length, type id and description |
| CosemData.LengthRoundTrip | simulator_meter/common/ptcl_codec/asn_parser.h:338-354 | every definite length, in every form, is read back |
| CosemData.ParseEncoding | simulator_meter/common/ptcl_codec/asn_parser.h:83-102 | for every Data value of any depth and any bytes after it, parsing consumes exactly the encoding and appends the pre-order list of its nodes |
| CosemData.ParseAll | simulator_meter/common/ptcl_codec/asn_parser.h:125-132 | the element loop reads any list of values from anywhere in a buffer |
| FlatList.RebuildFlatten | simulator_meter/common/ptcl_codec/asn_parser.h:116-132 | the tree can be rebuilt from its flat list, whatever items follow |
| FlatList.ListDeterminesValue | simulator_meter/common/ptcl_codec/asn_parser.h:116-132 | two values have the same list exactly when they are the same up to null tag and length form |
| FlatList.UniqueDecoding | simulator_meter/common/ptcl_codec/asn_parser.h:83-102 | if two encodings start the same bytes, they are equally long and their values agree |
| CosemRequest.Request.ParseBlock | simulator_meter/common/ptcl_codec/ptcl_cosem_dlms.cpp:13-18 | appends what the parser of the root type says of the buffer |
| CosemRequest.Request.ParseBlockLoop | simulator_meter/common/ptcl_codec/ptcl_cosem_dlms.cpp:20-31 | parses blocks until one fails or the buffer ends |
| CosemRequest.Request.ParseRequest | simulator_meter/common/ptcl_codec/ptcl_cosem_dlms.cpp:89-95 | succeeds exactly when one PDU uses up the buffer; the list starts empty |
| CosemRequest.Request.Find | simulator_meter/common/ptcl_codec/ptcl_cosem_dlms.cpp:69-78 | the first item whose description contains the text |
| CosemRequest.Request.ExtractResults | simulator_meter/common/ptcl_codec/ptcl_cosem_dlms.cpp:33-44 | all items of a type, in order |
| CosemRequest.Request.IsAccessSelector | simulator_meter/common/ptcl_codec/ptcl_cosem_dlms.cpp:178-189 | computes the selector that the request lemmas are about |
| CosemRequest.Request.GetTime | simulator_meter/common/ptcl_codec/ptcl_cosem_dlms.cpp:191-219 | computes the time so many items after the selector |
| CosemRequest.Request.GetListData | simulator_meter/common/ptcl_codec/ptcl_cosem_dlms.cpp:221-261 | the reader loop refines the recursive specification, reads outside the list included |
| CosemRequest.Request.ReadTimes | simulator_meter/common/ptcl_codec/ptcl_cosem_dlms.cpp:240-252 | the two times, in either representation |
| GetRequests.ParseGetNormal | simulator_meter/common/ptcl_codec/asn_parser.h:47-68 | a normal GET request, with or without selective access, is consumed exactly and listed in order |
| GetRequests.SelectorReadBack | simulator_meter/common/ptcl_codec/ptcl_cosem_dlms.cpp:178-189 | 0 without access, otherwise the selector sent, whatever its parameters are |
| GetRequests.TimesReadBack | simulator_meter/common/ptcl_codec/ptcl_cosem_dlms.cpp:191-219 | the from and to times of a range descriptor sit 7 and 8 items after the selector |
| GetRequests.DescriptorReadBack | simulator_meter/common/ptcl_codec/ptcl_cosem_dlms.cpp:153-176 | class, OBIS code and attribute come back |
| GetRequests.ParseGetList | simulator_meter/common/ptcl_codec/asn_parser.h:162-208 | a GET-with-list request is consumed exactly, however long |
| GetRequests.TimesExactly | simulator_meter/common/ptcl_codec/ptcl_cosem_dlms.cpp:240-252 | the list reader takes the two times of any range descriptor exactly unless an octet string comes before a date-time |
| GetRequests.ReadOne | simulator_meter/common/ptcl_codec/ptcl_cosem_dlms.cpp:230-259 | one round reads one entry, whatever its times and selected values, and continues at what it did not step over, or fails |
| GetRequests.ResumesAtNextEntry | simulator_meter/common/ptcl_codec/ptcl_cosem_dlms.cpp:237-253 | the reader is at the next entry exactly when the selected values are one item |
| GetRequests.ListReadBack | simulator_meter/common/ptcl_codec/ptcl_cosem_dlms.cpp:221-261 | the first count mod 256 entries are read in order, up to the first whose times are not taken, if the selected values of all but the last are one item |
| GetRequests.ResultExactly | simulator_meter/common/ptcl_codec/ptcl_cosem_dlms.cpp:249-250 | the result is every entry exactly when all times are taken |
| GetRequests.FailsAtMixedTimes | simulator_meter/common/ptcl_codec/ptcl_cosem_dlms.cpp:249-250 | otherwise it is failure with exactly the entries before the first times that are not |
| GetRequests.ListComesBackWhole | simulator_meter/common/ptcl_codec/asn_parser.h:168-172 | all entries come back exactly when there are fewer than 256 and all times are taken; the last may have any selected values |
| GetRequests.FollowedExactly | simulator_meter/common/ptcl_codec/ptcl_cosem_dlms.cpp:230-259 | a range comes back together with every entry without a range that can follow it exactly when its times are taken and its selected values are one item |
| GetRequests.ListsThatFail | simulator_meter/common/ptcl_codec/ptcl_cosem_dlms.cpp:237-253 | a list for each of the two failures |
| GetRequests.GetListRoundTrip | simulator_meter/common/ptcl_codec/ptcl_cosem_dlms.cpp:221-261 | when a list comes back whole, from the bytes of the request, parsed and then read |
| GetRequests.GetNormalRoundTrip | simulator_meter/common/ptcl_codec/ptcl_cosem_dlms.cpp:178-219 | selector and times from the bytes of a normal request, parsed and then read |
| CosemRequest.WithoutSelector | simulator_meter/common/ptcl_codec/ptcl_cosem_dlms.cpp:178-219 | selector and times are 0 where no item mentions a selector, and the selector also where that item is of another type |
| CosemRequest.TimeExactly | simulator_meter/common/ptcl_codec/ptcl_cosem_dlms.cpp:197-203 | which item gives a time, which 0, and when the list is left |
| CosemRequest.WithoutList | simulator_meter/common/ptcl_codec/ptcl_cosem_dlms.cpp:223-225 | no list item, no list |
| OtherPdus.ReadsActionNormal | simulator_meter/common/ptcl_codec/asn_parser.cpp:199-219 | a normal ACTION request, with or without parameters, octet by octet, is consumed exactly and listed in order |
| OtherPdus.ReadsSetNormal | simulator_meter/common/ptcl_codec/asn_parser.cpp:173-192 | the same for a normal SET request, with or without selective access |
| OtherPdus.ReadsGetNext | simulator_meter/common/ptcl_codec/asn_parser.cpp:28-34 | the same for a GET request for the next block |
| OtherPdus.ReadsSetResponse | simulator_meter/common/ptcl_codec/asn_parser.cpp:180-198 | the same for a normal SET response |
| OtherPdus.ReadsGetResponse | simulator_meter/common/ptcl_codec/asn_parser.cpp:62-88 | the same for a normal GET response, with a value or a refusal |
| OtherPdus.ReadsBlockResponse | simulator_meter/common/ptcl_codec/asn_parser.cpp:232-243 | the same for a GET response with a data block, whose items have a prefix |
| OtherPdus.ParseAssociation | simulator_meter/common/ptcl_codec/asn_parser.cpp:226-231 | the association request takes its two tagged parts in either order |
| OtherPdus.ParseManyBlocks | simulator_meter/common/ptcl_codec/ptcl_cosem_dlms.cpp:20-31 | several PDUs in one buffer are read one after the other, up to the first bytes that are rejected |
| Malformed.LengthExactly | simulator_meter/common/ptcl_codec/asn_parser.h:338-354 | exactly which length octets are refused and which are read outside the buffer |
| Malformed.CutOffLeaf | simulator_meter/common/ptcl_codec/asn_parser.h:301-337 | a simple value cut off in its contents is rejected without an item |
| Malformed.FailedElementAccepted | simulator_meter/common/ptcl_codec/asn_parser.h:126-131 | an array with a rejected element is accepted, one byte short |
| Malformed.MissingElementsAccepted | simulator_meter/common/ptcl_codec/asn_parser.h:126-131 | a list that announces more elements than there are is accepted with those there |
| Malformed.OtherFlagIsNotSkipped | simulator_meter/common/ptcl_codec/asn_parser.h:180-195 | a flag other than 0 and 1 is listed and not stepped over |
| Malformed.UnknownGet | simulator_meter/common/ptcl_codec/asn_parser.h:85-87 | a GET request of an unknown kind is rejected |
| Malformed.MissingFlag | simulator_meter/common/ptcl_codec/asn_parser.h:53-56 | a request that ends before its optional flag is read past its end |
| Malformed.DecimalWrites | simulator_meter/common/ptcl_codec/asn_parser.h:331-332 | the number in a description is the length |
| Crc16.TableIsBitwise | simulator_meter/common/ptcl_codec/ptcl_packet_hdlc.cpp:4-35 | each of the 256 table entries is eight steps of the 0x8408 register |
| Crc16.StepLinear | simulator_meter/common/ptcl_codec/ptcl_packet_hdlc.cpp:276-279 | the register is linear over exclusive or |
| Crc16.Window | simulator_meter/common/ptcl_codec/ptcl_packet_hdlc.cpp:276-279 | up to 16 bits shifted in are the register with those bits added, stepped |
| Crc16.RegisterIsBitwise | simulator_meter/common/ptcl_codec/ptcl_packet_hdlc.cpp:273-284 | byte by byte the register is the bit-at-a-time one of Appendix C.2 of RFC 1662, on every byte string |
| CrcErrors.UndetectedErrors | simulator_meter/common/ptcl_codec/ptcl_packet_hdlc.cpp:273-284 | two strings leave the same register exactly when their difference leaves zero |
| CrcErrors.BurstLeavesTrace | simulator_meter/common/ptcl_codec/ptcl_packet_hdlc.cpp:273-284 | a non-empty error within 16 consecutive bits never leaves zero |
| CrcErrors.BurstDetected | simulator_meter/common/ptcl_codec/ptcl_packet_hdlc.cpp:273-284 | strings that differ within 16 consecutive bits leave different registers |
| CrcErrors.ResidueIffFcs | simulator_meter/common/ptcl_codec/ptcl_packet_hdlc.cpp:273-284 | two more bytes drive the register to 0xf0b8 exactly when they are the FCS, low byte first |
| CrcErrors.ErrorBreaksFcsExactly | simulator_meter/common/ptcl_codec/ptcl_packet_hdlc.cpp:105-112 | an error across data and FCS makes the check fail exactly when the register sees it |
| CrcErrors.StepKeepsParity | simulator_meter/common/ptcl_codec/ptcl_packet_hdlc.cpp:276-279 | a register step keeps the parity of its ones |
| CrcErrors.OddErrorDetected | simulator_meter/common/ptcl_codec/ptcl_packet_hdlc.cpp:273-284 | strings that differ in an odd number of bits leave different registers |
| CrcErrors.OddErrorBreaksFcs | simulator_meter/common/ptcl_codec/ptcl_packet_hdlc.cpp:105-112 | an odd number of changed bits across data and FCS makes the check fail |
| CrcErrors.BurstBreaksFcs | simulator_meter/common/ptcl_codec/ptcl_packet_hdlc.cpp:105-112 | a burst across data and FCS makes the check fail |
| CrcOrder.MulIsStepN | simulator_meter/common/ptcl_codec/ptcl_packet_hdlc.cpp:276-279 | steps of the register are products of polynomials |
| CrcOrder.OrderExactly | simulator_meter/common/ptcl_codec/ptcl_packet_hdlc.cpp:276-279 | a number of steps leads back exactly when it is a multiple of 32767 |
| CrcOrder.TwoBitsUnseenExactly | simulator_meter/common/ptcl_codec/ptcl_packet_hdlc.cpp:273-284 | two changed bits leave the same register exactly when they are a multiple of 32767 apart |
| HdlcPacket.FormatThenParse | simulator_meter/common/ptcl_codec/ptcl_packet_hdlc.cpp:59-145 | for every header and payload the parser accepts the formatted frame with its lengths exactly up to 1011 data bytes |
| HdlcPacket.FrameOctets | simulator_meter/common/ptcl_codec/ptcl_packet_hdlc.cpp:59-97 | the octets of a formatted frame: flags 0x7e, format bits 1010, length, both check sequences |
| HdlcPacket.AcceptedExactly | simulator_meter/common/ptcl_codec/ptcl_packet_hdlc.cpp:99-145 | the octets of an accepted frame, for every buffer |
| HdlcPacket.ErrorAcceptedExactly | simulator_meter/common/ptcl_codec/ptcl_packet_hdlc.cpp:99-118 | a frame with changed data and FCS is still accepted exactly when the register does not see the change |
| HdlcPacket.OddErrorRejected | simulator_meter/common/ptcl_codec/ptcl_packet_hdlc.cpp:99-118 | an odd number of changed bits in data and FCS is rejected |
| HdlcPacket.TwoBitsRejected | simulator_meter/common/ptcl_codec/ptcl_packet_hdlc.cpp:99-118 | any two changed bits in data and FCS are rejected |
| HdlcPacket.BurstAnywhereRejected | simulator_meter/common/ptcl_codec/ptcl_packet_hdlc.cpp:99-145 | a burst of up to 16 bits anywhere between the flags, in the header, the data or across both, is rejected |
| HdlcPacket.ShortRejected | simulator_meter/common/ptcl_codec/ptcl_packet_hdlc.cpp:81-96 | a frame formatted with the data length -1 is never accepted |
| HdlcPacket.BurstRejected | simulator_meter/common/ptcl_codec/ptcl_packet_hdlc.cpp:99-118 | a burst of up to 16 bits in data and FCS of an accepted frame is rejected, for every payload length |
| HdlcPacket.Packet.GetCrc | simulator_meter/common/ptcl_codec/ptcl_packet_hdlc.cpp:273-284 | the table loop computes the FCS |
| HdlcPacket.Packet.SetDataArea | simulator_meter/common/ptcl_codec/ptcl_packet.cpp:25-32 | copies data after the header, or does nothing when there is no room |
| HdlcPacket.Packet.FormatPacket | simulator_meter/common/ptcl_codec/ptcl_packet_hdlc.cpp:59-97 | the in-place edits leave the frame the lemmas are about, or leave the buffer exactly beyond 1522 bytes of data |
| HdlcPacket.Packet.ParseHeader | simulator_meter/common/ptcl_codec/ptcl_packet_hdlc.cpp:120-145 | accepts exactly the specified headers and sets both lengths |
| HdlcPacket.Packet.ParsePacket | simulator_meter/common/ptcl_codec/ptcl_packet_hdlc.cpp:99-118 | accepts exactly the specified frames and returns the packet length |
| MessageBlock.Block.Copy | simulator_meter/common/channel/message_block.cpp:25-37 | appends all or nothing, or runs past the buffer, and exactly when |
| MessageBlock.Block.AdvanceRead | simulator_meter/common/channel/message_block.cpp:84-87 | drops bytes from the front |
| MessageBlock.Block.Reset | simulator_meter/common/channel/message_block.cpp:94-98 | empties the block |
| MessageBlock.Block.FromBytes | simulator_meter/common/channel/message_block.cpp:10-19 | a source of 1536 bytes or more leaves the block empty |
| MessageBlock.Block.SpaceIsExact | simulator_meter/common/channel/message_block.cpp:54-57 | every length the test admits stays inside the buffer exactly when nothing was read since the last reset |
| MessageBlock.OverrunIsReachable | simulator_meter/common/channel/message_block.cpp:25-37 | a block of 1535 bytes, one of them read, to which copying two more overruns |
| FrameSplitter.ReverseTwice | simulator_meter/common/ptcl_codec/ptcl_packet_dlms47.cpp:207-213 | reversing the bytes twice changes nothing |
| FrameSplitter.FormattedIsFrame | simulator_meter/common/ptcl_codec/ptcl_packet_dlms47.cpp:96-101 | what is formatted is one whole frame of the announced length and carries the payload |
| FrameSplitter.SplitConserves | simulator_meter/fee/meter_simulator/ptcl_handler_serv.cpp:17-29 | frames, lost stretches and the rest are, in order, the buffer |
| FrameSplitter.SplitFrames | simulator_meter/fee/meter_simulator/ptcl_handler_serv.cpp:17-43 | any frames followed by an incomplete tail leave one by one, and the tail stays |
| FrameSplitter.FrameLengthExactly | simulator_meter/common/ptcl_codec/ptcl_packet_dlms47.cpp:112-120 | the length is big-endian in octets 6 and 7, without the header |
| FrameSplitter.PieceExactly | simulator_meter/common/channel/message_block.cpp:25-37 | a frame of more than 1536 bytes is lost |
| FrameSplitter.SplitFramesThenGarbage | simulator_meter/fee/meter_simulator/ptcl_handler_serv.cpp:17-29 | frames before bytes that are no header leave, those bytes are lost, nothing stays |
| FrameSplitter.SplitLeavesEmptyFrame | simulator_meter/fee/meter_simulator/ptcl_handler_serv.cpp:19 | a last frame without payload stays |
| FrameSplitter.DispatchesExactly | simulator_meter/fee/meter_simulator/ptcl_handler_serv.cpp:17-59 | frames of at most 1536 bytes are dispatched in order and the tail is left, exactly when the last has a payload or something follows it |
| FrameSplitter.FrameBuffer.GetBlock | simulator_meter/fee/meter_simulator/frame_buffer.cpp:58-66 | copies a stretch of the buffer, or fails |
| FrameSplitter.FrameBuffer.ExtractBlock | simulator_meter/fee/meter_simulator/frame_buffer.cpp:68-77 | copies and removes it |
| FrameSplitter.FrameBuffer.Remove | simulator_meter/fee/meter_simulator/frame_buffer.cpp:46-50 | erases a stretch |
| FrameSplitter.FrameBuffer.Add | simulator_meter/fee/meter_simulator/frame_buffer.cpp:11-15 | appends |
| FrameSplitter.Splitter.HandleResponse | simulator_meter/fee/meter_simulator/ptcl_handler_serv.cpp:45-59 | queues a block that parses, if the session has a meter |
| FrameSplitter.Splitter.ParseResponseFrame | simulator_meter/fee/meter_simulator/ptcl_handler_serv.cpp:31-43 | takes one frame, removing at least eight bytes, or changes nothing |
| FrameSplitter.Splitter.ProcessPacket | simulator_meter/fee/meter_simulator/ptcl_handler_serv.cpp:17-29 | terminates on every buffer; what is queued and what stays is the specified split |
| WriteQueue.StepKeepsInv | simulator_meter/fee/meter_simulator/server_channel.hpp:88-227 | every step keeps: one write in flight, carrying the unsent front; acknowledged plus queued is put |
| WriteQueue.EveryRun | simulator_meter/fee/meter_simulator/server_channel.hpp:88-227 | the same over every run |
| WriteQueue.TransferredThenQueued | simulator_meter/fee/meter_simulator/server_channel.hpp:195-221 | over every run the bytes put are the transferred parts of the successful writes, in order, then the bytes queued |
| WriteQueue.StateExactly | simulator_meter/fee/meter_simulator/server_channel.hpp:152-171 | over every run: idle until the first successful read, then online, offline once removed |
| WriteQueue.PartialRun | simulator_meter/fee/meter_simulator/server_channel.hpp:195-221 | a block that goes out in two parts |
| WriteQueue.EventsHappen | simulator_meter/fee/meter_simulator/server_channel.hpp:88-266 | any size, any error, any order: what is assumed of the events |
| WriteQueue.QueuedIsSentExactly | simulator_meter/fee/meter_simulator/server_channel.hpp:88-99 | online with something queued, a write is in flight exactly when some block was put while online |
| WriteQueue.PutWhileIdleWaits | simulator_meter/fee/meter_simulator/server_channel.hpp:245-262 | a put before the first read is left waiting when the session goes online |
| WriteQueue.AfterFailure | simulator_meter/fee/meter_simulator/server_channel.hpp:195-227 | after the first error the acknowledged bytes stay a fixed prefix of what is put |
| WriteQueue.StartsAfterFailure | simulator_meter/fee/meter_simulator/server_channel.hpp:152-191 | no write starts after stop, at most one between error and stop |
| WriteQueue.PutAfterFailure | simulator_meter/fee/meter_simulator/server_channel.hpp:88-99 | exactly when a put after an error starts a write |
| WriteQueue.WindowIsReachable | simulator_meter/fee/meter_simulator/server_channel.hpp:223-227 | a run in which that happens |
| WriteQueue.SessionHandler.StartAsyncWrite | simulator_meter/fee/meter_simulator/server_channel.hpp:176-191 | hands the front of the queue to the socket |
| WriteQueue.SessionHandler.PutBlock | simulator_meter/fee/meter_simulator/server_channel.hpp:88-99 | does the put step and keeps the invariant |
| WriteQueue.SessionHandler.HandleWrite | simulator_meter/fee/meter_simulator/server_channel.hpp:195-227 | does the completion step for any partial size or error |
| WriteQueue.SessionHandler.HandleRead | simulator_meter/fee/meter_simulator/server_channel.hpp:240-266 | goes online or stops |
| WriteQueue.SessionHandler.StopSession | simulator_meter/fee/meter_simulator/server_channel.hpp:152-173 | the session's own part of stop, once |
| TaskQueue.StepKeepsInv | simulator_meter/fee/meter_simulator/thread_pool.hpp:36-53 | each thread's position says what it must about both mutexes, the queue and the waits |
| TaskQueue.EveryRun | simulator_meter/fee/meter_simulator/thread_pool.hpp:36-53 | with any number of threads and waits that end on notifications: no take from an empty queue, no lost wake-up; the tasks submitted, told from the steps alone, are those taken and then those queued, in the order of their pushes |
| TaskQueue.RunSubmits | simulator_meter/fee/meter_simulator/thread_pool.hpp:36-41 | what a thread pushes is what it was handed last |
| TaskQueue.StepsHappen | simulator_meter/fee/meter_simulator/thread_pool.hpp:36-53 | only the mutexes and the notification make a thread wait |
| TaskQueue.NotifyWakes | simulator_meter/fee/meter_simulator/thread_pool.hpp:40 | a notification wakes any waiting thread, and has to wake one |
| TaskQueue.PushIsReachable | simulator_meter/fee/meter_simulator/thread_pool.hpp:36-41 | a thread pushes, from outside to outside |
| TaskQueue.StartAlone | simulator_meter/fee/meter_simulator/thread_pool.hpp:59-62 | the state that these two start from |
| TaskQueue.TakeIsReachable | simulator_meter/fee/meter_simulator/thread_pool.hpp:42-53 | a thread takes, from outside to outside |
| TaskQueue.FaultExactly | simulator_meter/fee/meter_simulator/thread_pool.hpp:46-51 | with spurious wake-ups, exactly when a taker faults |
| TaskQueue.SpuriousWakeFaults | simulator_meter/fee/meter_simulator/thread_pool.hpp:46-51 | one spurious wake-up of a waiting taker is enough |
| TaskQueue.WaitIsReachable | simulator_meter/fee/meter_simulator/thread_pool.hpp:42-49 | a single taker gets to wait |
| Registry.IdSteps | simulator_meter/fee/meter_simulator/server_channel.hpp:319-326 | the counter gives the n-th session the id 2 + n mod 100000 |
| Registry.SameIdExactly | simulator_meter/fee/meter_simulator/server_channel.hpp:319-326 | two sessions share an id exactly when they are a multiple of 100000 accepts apart |
| Registry.StepKeepsInv | simulator_meter/fee/meter_simulator/server_channel.hpp:152-173 | every step keeps the registry invariant, with stop split at its two locks |
| Registry.EveryRun | simulator_meter/include/channel/event_channel.hpp:86-132 | in every reachable state keys are their sessions' ids, in 2..100001; a stopped session that was online holds none |
| Registry.OthersUntouched | simulator_meter/fee/meter_simulator/server_channel.hpp:152-173 | an entry leaves only by its own session's removal, wraps and refused inserts included |
| Registry.OwnRemoval | simulator_meter/include/channel/event_channel.hpp:110-132 | that removal takes out exactly the session's one entry |
| Registry.StopLeavesExactly | simulator_meter/fee/meter_simulator/server_channel.hpp:152-173 | over every run in which a stop ends, the session is still registered exactly when it was registered and idle as the stop began |
| Registry.IdleStopLeaks | simulator_meter/fee/meter_simulator/server_channel.hpp:159-171 | a session stopped while idle keeps its entry over every further run |
| Registry.LeakIsReachable | simulator_meter/fee/meter_simulator/server_channel.hpp:62-75 | three steps lead there |
| Registry.StateExactly | simulator_meter/fee/meter_simulator/server_channel.hpp:245-262 | over every run a session is idle until its first read, then online, and offline once it stops after one |
| Registry.StepsHappen | simulator_meter/fee/meter_simulator/server_channel.hpp:152-173 | nothing blocks a session on its way |
| Registry.WholeLife | simulator_meter/fee/meter_simulator/server_channel.hpp:62-75 | accepted, registered, read from, stopped and gone |
| Registry.RefusedExactly | simulator_meter/include/channel/event_channel.hpp:86-97 | an insert is refused exactly when a session a multiple of 100000 accepts earlier is registered |
| Registry.RefusalIsReachable | simulator_meter/include/channel/event_channel.hpp:91-96 | a run that leads to a refused insert, 100000 accepts after the first session |
| Registry.ReceiversExactly | simulator_meter/include/channel/event_channel.hpp:31-62 | who gets a message: everyone registered for id 0, else the session registered with the id if its state is online or above, a stopping one included |
| Registry.Handler.Start | simulator_meter/fee/meter_simulator/server_channel.hpp:62-75 | takes the id and registers, unless it is taken |
| Registry.Handler.Stop | simulator_meter/fee/meter_simulator/server_channel.hpp:152-173 | removes the entry only if it is this handler's and the session was not idle |
| Registry.Channel.GetNextMeterId | simulator_meter/fee/meter_simulator/server_channel.hpp:319-326 | the next id, wrapping after 100001 |
| Registry.Channel.InsertHandler | simulator_meter/include/channel/event_channel.hpp:86-107 | refuses a taken key, keeps keys and ids together |
| Registry.Channel.RemoveHandler | simulator_meter/include/channel/event_channel.hpp:110-132 | removes the key if it is there |
| Registry.Channel.FindHandler | simulator_meter/include/channel/event_channel.hpp:134-145 | the handler of a key, if any |
| Registry.Channel.Put | simulator_meter/include/channel/event_channel.hpp:31-62 | every handler concerned gets the message once, no other one anything; 0 exactly when someone got it |
| Idis.FormatsExactly | simulator_meter/common/ptcl_codec/ptcl_module_idis.cpp:84-127 | which lists are formatted: not empty, lengths within the buffers, at most 1400 bytes |
| Idis.OverrunsExactly | simulator_meter/common/ptcl_codec/ptcl_module_idis.cpp:84-122 | which lists make the program leave a buffer |
| Idis.UnitLayout | simulator_meter/common/ptcl_codec/ptcl_module_idis.cpp:23-38 | where the fields of a unit are |
| Idis.ParsesExactly | simulator_meter/common/ptcl_codec/ptcl_module_idis.cpp:40-55 | where a unit can be parsed |
| Idis.Sentinel | simulator_meter/common/ptcl_codec/ptcl_module_idis.cpp:131-135 | the count 0xff reads as an empty list |
| Idis.FormatThenParse | simulator_meter/common/ptcl_codec/ptcl_module_idis.cpp:84-142 | what was formatted is parsed back, whatever follows it; at most 51 units, so the count byte is exact and no sentinel |
| Idis.ParseOneUnit | simulator_meter/common/ptcl_codec/ptcl_module_idis.cpp:23-55 | one unit is parsed back |
| Idis.LongListsRefused | simulator_meter/common/ptcl_codec/ptcl_module_idis.cpp:118-122 | no longer list is formatted |
| Idis.FormatUnit | simulator_meter/common/ptcl_codec/ptcl_module_idis.cpp:23-38 | appends the unit's bytes at the offset |
| Idis.FillBuffer | simulator_meter/common/ptcl_codec/ptcl_module_idis.cpp:109-116 | the loop leaves the count and all units, one after the other |
| Idis.FormatPacketWithParam | simulator_meter/common/ptcl_codec/ptcl_module_idis.cpp:84-127 | 0 and the area filled, 1 and the area untouched, or a buffer left, and exactly when |
| Idis.ParseDataUnit | simulator_meter/common/ptcl_codec/ptcl_module_idis.cpp:40-55 | one unit from an offset, or a buffer left |
| Idis.ParsePacketWithParam | simulator_meter/common/ptcl_codec/ptcl_module_idis.cpp:129-142 | appends the parsed list, or leaves a buffer |
| Bcd.ByteRoundTrips | simulator_meter/common/ptcl_codec/ptcl_module.cpp:55-74 | each direction undoes the other exactly on two decimal digits |
| Bcd.SumHundreds | simulator_meter/common/ptcl_codec/ptcl_module.cpp:84-92 | the 32-bit loop computes the number written in base 100, modulo 2^32 |
| Bcd.NoWrap | simulator_meter/common/ptcl_codec/ptcl_module.cpp:111-130 | no wrap for four bytes |
| Bcd.FiveBytesWrap | simulator_meter/common/ptcl_codec/ptcl_module.cpp:76-92 | five bytes, which the decimal form admits, can wrap |
| Bcd.BcdToInt | simulator_meter/common/ptcl_codec/ptcl_module.cpp:111-130 | the number written, -10 for an invalid field, 0 for more than four bytes |
| Bcd.BcdToDecimal | simulator_meter/common/ptcl_codec/ptcl_module.cpp:76-109 | the same with a decimal point |
| Bcd.FindInvalid | simulator_meter/common/ptcl_codec/ptcl_module.cpp:456-464 | some byte is the given one or 0xee |
| Bcd.TestBcd | simulator_meter/common/ptcl_codec/ptcl_module.cpp:972-995 | every byte, the last one shifted, is two digits or 0xee |
| Bcd.DigitsBack | simulator_meter/common/ptcl_codec/ptcl_module.cpp:569-576 | the digits written, padded with zeros, write the number |
| Bcd.Sg3RoundTripExactly | simulator_meter/common/ptcl_codec/ptcl_module.cpp:552-607 | for every 32-bit number but the least, it is read back exactly when it has at most seven digits and is 0 or no multiple of a thousand |
| Bcd.ThousandsReadDivided | simulator_meter/common/ptcl_codec/ptcl_module.cpp:563-567 | the other multiples of a thousand read as v / 1000 |
| Bcd.FourthByte | simulator_meter/common/ptcl_codec/ptcl_module.cpp:578-579 | top digit, sign in bit 4, multiplier in bit 6 |
| Bcd.ReadingExactly | simulator_meter/common/ptcl_codec/ptcl_module.cpp:584-607 | four bytes of digits read as the seven digits they write, with the sign |
| Bcd.OtherReadings | simulator_meter/common/ptcl_codec/ptcl_module.cpp:584-596 | -10 for a byte of 0xee, nothing for other bytes that are no digits |
| Bcd.ShiftsExactly | simulator_meter/common/ptcl_codec/ptcl_module.cpp:977-984 | what a shift of the last byte leaves to be tested |
| Bcd.ParseBound | simulator_meter/common/ptcl_codec/ptcl_module.cpp:584-607 | nothing of eight digits is ever read |
| Bcd.FormatSg3 | simulator_meter/common/ptcl_codec/ptcl_module.cpp:552-582 | digits, then sign and multiplier bits, at the offset, bytes before it unchanged; or a write past the buffer, or the overflow of the least number |
| Bcd.ParseSg3Into | simulator_meter/common/ptcl_codec/ptcl_module.cpp:584-607 | the reading, and which buffers are rejected |
| ModArith.InverseWorks | simulator_meter/include/cryptopp/integer.h:351-352 | the result is an inverse exactly when it is not 0 |
| ModArith.InverseComplete | simulator_meter/include/cryptopp/integer.h:351-352 | it is not 0 whenever an inverse exists |
| ModArith.PrimeInverse | simulator_meter/include/cryptopp/integer.h:351-352 | modulo a prime exactly the multiples of it have none |
| Group.PowMul | simulator_meter/include/cryptopp/pubkey.h:580-585 | powers of powers multiply exponents |
| Group.OrderExactly | simulator_meter/include/cryptopp/pubkey.h:590 | the generator has order exactly q |
| Group.Cascade | simulator_meter/include/cryptopp/pubkey.h:663-667 | a cascade of two powers of the generator is one power |
| Group.BitCountExact | simulator_meter/include/cryptopp/integer.h:182-183 | the least number of bits that hold a number |
| Group.ByteCountExact | simulator_meter/include/cryptopp/integer.h:184-185 | and of bytes |
| Group.EncodeBack | simulator_meter/include/cryptopp/integer.h:129-134 | a number below q survives encoding in as many bytes as q has |
| Group.GfpIsValid | simulator_meter/include/cryptopp/gfpcrypt.h:119-138 | the integers modulo a prime satisfy the assumptions on groups |
| Group.SmallGroup | simulator_meter/include/cryptopp/gfpcrypt.h:119-138 | and such parameters exist |
| Signatures.SignedVerifies | simulator_meter/include/cryptopp/gfpcrypt.h:157-205 | for every key, nonce and representative, Verify accepts what RawSign gives exactly when r (and, for GDSA, s) is not 0 |
| Signatures.VerifiesExactly | simulator_meter/include/cryptopp/gfpcrypt.h:166-205 | for all r and s in range, Verify accepts exactly if r is what the element of the nonce that r and s stand for gives |
| Signatures.PairRejected | simulator_meter/include/cryptopp/gfpcrypt.h:166-177 | a pair in range that is no signature |
| Signatures.OutOfRange | simulator_meter/include/cryptopp/gfpcrypt.h:169-201 | nothing out of range is accepted |
| Signatures.SignatureLayout | simulator_meter/include/cryptopp/pubkey.h:1054-1056 | r first, then s, most significant byte first |
| Signatures.ZeroSExactly | simulator_meter/include/cryptopp/gfpcrypt.h:157-164 | a GDSA s is 0 exactly when the nonce or x r + e is a multiple of q |
| Signatures.GdsaExponents | simulator_meter/include/cryptopp/gfpcrypt.h:172-176 | the verification exponents add up to the nonce modulo q |
| Signatures.NrBindsRepresentative | simulator_meter/include/cryptopp/gfpcrypt.h:197-205 | an NR signature fits one representative modulo q |
| Signatures.BytesVerify | simulator_meter/include/cryptopp/pubkey.h:1054-1056 | the same through the byte form of r and s |
| Signatures.Sign | simulator_meter/include/cryptopp/gfpcrypt.h:157-195 | the r and s assigned solve the scheme's signing equation for the private key, and Verify accepts them if the r passed in came from the nonce, unless a zero came out |
| Signatures.RawSign | simulator_meter/include/cryptopp/pubkey.h:998-1006 | what is signed verifies, unless a zero came out |
| Mqv.HalfTagExactly | simulator_meter/include/cryptopp/mqv.h:96-98 | the tag is the low half of the element's number with the bit above it set, a half being the least power of two whose square exceeds q |
| Mqv.AgreedByDefinition | simulator_meter/include/cryptopp/mqv.h:95-120 | the agreed element, by the definition of the exponents and without the program's own functions |
| Mqv.AgreementModuloEleven | simulator_meter/include/cryptopp/mqv.h:95-110 | an instance, computed |
| Mqv.AgreedIsChecked | simulator_meter/include/cryptopp/mqv.h:107-118 | the checks on what is agreed |
| Mqv.AgreedExactly | simulator_meter/include/cryptopp/mqv.h:91-121 | each party's result is the generator to the product of both implicit exponents (and the cofactor terms) |
| Mqv.BothAgree | simulator_meter/include/cryptopp/mqv.h:100-120 | both parties get the same element or neither gets one, in all three cofactor options |
| Mqv.FailsExactly | simulator_meter/include/cryptopp/mqv.h:107-118 | neither gets one exactly when an implicit exponent is 0 or a cofactor in use is a multiple of q |
| Mqv.PartiesAgree | simulator_meter/include/cryptopp/mqv.h:80-127 | the same for parties that exchange bytes, with decoders that may refuse |
| Mqv.EphemeralParts | simulator_meter/include/cryptopp/mqv.h:66-78 | an ephemeral private key holds its exponent and its public key |
| Mqv.GenerateStaticPrivateKey | simulator_meter/include/cryptopp/mqv.h:49-53 | the buffer decodes to the exponent drawn |
| Mqv.GenerateStaticPublicKey | simulator_meter/include/cryptopp/mqv.h:55-61 | the encoded power |
| Mqv.GenerateEphemeralPrivateKey | simulator_meter/include/cryptopp/mqv.h:66-73 | exponent and encoded power, side by side |
| Mqv.GenerateEphemeralPublicKey | simulator_meter/include/cryptopp/mqv.h:75-78 | the second part of the private key |
| Mqv.ComputeAgreed | simulator_meter/include/cryptopp/mqv.h:80-127 | writes the agreed value exactly when there is one |
| ElGamal.AgreementExactly | simulator_meter/include/cryptopp/pubkey.h:1442-1481 | exactly when both sides of a Diffie-Hellman agreement get the same element, for each cofactor option |
| ElGamal.EphemeralExactly | simulator_meter/include/cryptopp/pubkey.h:1442-1446 | the generator to both exponents, and the cofactor |
| ElGamal.StaticExactly | simulator_meter/include/cryptopp/pubkey.h:1459-1479 | which elements are refused, and the power of the others |
| ElGamal.MaxPlaintextExactly | simulator_meter/include/cryptopp/elgamal.h:33-40 | the limit for every modulus of three bytes or more |
| ElGamal.CiphertextExactly | simulator_meter/include/cryptopp/elgamal.h:47-52 | the ciphertext is the key times padding, text and length |
| ElGamal.DecryptsExactly | simulator_meter/include/cryptopp/elgamal.h:55-72 | what is made of any encrypted number, and of ciphertexts of other lengths |
| ElGamal.EncryptedLayout | simulator_meter/include/cryptopp/pubkey.h:1228-1239 | the ephemeral element first, then the text under the agreed element |
| ElGamal.CompatibleCanFail | simulator_meter/include/cryptopp/pubkey.h:1450-1455 | valid parameters with which the compatible option disagrees |
| ElGamal.CiphertextLengthExactly | simulator_meter/include/cryptopp/elgamal.h:24-40 | the announced length is the ciphertext's exactly for texts within the limit |
| ElGamal.RoomExactly | simulator_meter/include/cryptopp/elgamal.h:33-50 | exactly for which moduli the limit admits only texts that fit |
| ElGamal.NoRoomIsReachable | simulator_meter/include/cryptopp/elgamal.h:33-50 | a modulus for which even the empty text has no room |
| ElGamal.UnpadBlock | simulator_meter/include/cryptopp/elgamal.h:47-50 | length byte and right-aligned text come back from one number |
| ElGamal.BlockBelowModulus | simulator_meter/include/cryptopp/elgamal.h:47-52 | the padded block is below the modulus |
| ElGamal.SymmetricRoundTrip | simulator_meter/include/cryptopp/elgamal.h:42-72 | decryption undoes encryption, for every padding, exactly when the key is invertible or the text empty |
| ElGamal.EncryptThenDecrypt | simulator_meter/include/cryptopp/pubkey.h:1184-1240 | the whole scheme: every message comes back exactly when the ephemeral element passes the element checks |
| ElGamal.SymmetricEncrypt | simulator_meter/include/cryptopp/elgamal.h:42-53 | fills block and ciphertext, which decrypts with an invertible key, or has no room |
| ElGamal.SymmetricDecrypt | simulator_meter/include/cryptopp/elgamal.h:55-72 | fills the text, its first byte even when it fails |

## Left out

- Sockets, strands, timers, threads, logging, configuration and files: completions, arrivals and
  notifications are steps or parameters.
- The latency timer and `handle_latency_timer`, which nothing starts.
- How bytes of a cleared receive buffer would be put together across reads: the program clears it
  after each read, so the splitter is about one read.
- TaskQueue.EveryRun: liveness, fairness and the end of the worker loop are not stated; a wait
  cannot be a method of one thread, so the queue is a state machine and not a class.
- Registry.Handler.Stop: run to its end by one thread; its interleavings are in the state machine.
- WriteQueue.SessionHandler.StopSession: the registry's part of stop is in `Registry`.
- AsnParser.Parser.ParseUnfixed: result items are sequences, so the fixed storage for a description
  and for bytes, and the 16-bit item length, are not modelled.
- CosemRequest.Request.GetTime: `to_time` is an uninterpreted function of the bytes; OBIS codes
  are kept as bytes, not as text.
- CosemData.ParseEncoding: encodings and what follows are together shorter than 2^31, as the
  program's `int` lengths are.
- The BER choice parser, which the factory never builds; bodies of the other PDU readers.
- MessageBlock.Block.Copy: what memory holds after an overrun, here and elsewhere.
- FrameSplitter.FormattedIsFrame: ports are any four bytes; the field order is that of
  `include/ptcl_codec/ptcl_packet_dlms47.h:56-62`, and the gateway forms are not modelled.
- Idis.ParsePacketWithParam: bytes of a parsed unit's buffer past its length, which the program
  leaves uninitialised, are not part of an item; control fields, frame sequence and checksum of
  the outer packet are not modelled.
- Bcd.BcdToDecimal: decimals are reals, so the rounding of doubles is not modelled.
- Bcd.FormatSg3: what an overflowing negation does with the least 32-bit number.
- The bodies of exponentiation and of the element codecs, which are not in the headers:
  powers are repeated multiplication, and a decoder gives back a member it encoded or refuses it.
- Signatures.BytesVerify: hashing and message encoding are left out; the representative is a
  parameter, as are the nonce and all random bytes elsewhere.
- The other cryptopp headers, `encry_context.h`, `access_security.h` and `object_transfer.h`.
- The other date and number formats of `ptcl_module.cpp`: easy members only.
