# Verified model of the service's protocol and runtime core

This project models, in Dafny, the parts of the repository whose correctness rests on agreement between pieces of code
written apart from each other, and proves that they agree.

* **libmodbus.** Client calls build requests; a serial (RTU) or TCP backend frames them; the server frames the incoming
  stream, acts on four tables and replies; the client frames and checks the confirmation. `bytes.dfy`, `crc.dfy`,
  `packing.dfy`, `backend.dfy`, `framing.dfy`, `server.dfy`, `responder.dfy`, `client.dfy` and `session.dfy` model
  this; `memory.dfy` is an abstract memory of four address spaces, and `endtoend.dfy` shows that every sequence of
  calls behaves like it. `bus.dfy` is the RTU slave on a shared bus, `transactions.dfy` the transaction ids of TCP and
  the one-shot buffer of the Windows serial port. Names and limits follow the MODBUS Application Protocol V1.1b
  (section 4.1 for sizes, sections 6.1 to 6.6, 6.11, 6.12, 6.16 and 6.17 for functions, section 7 for exceptions);
  `standard.dfy` ties the model to its examples byte by byte.
* **easywsclient.** `wsframes.dfy` prints and parses frames (RFC 6455, sections 5.2 to 5.5), `wssocket.dfy` is the
  connection as a state machine, `wsclient.dfy` the class with its three buffers.
* **Redis runtime.** `bio.dfy` is the background-job protocol as interleaved threads, `adlist.dfy` the doubly linked
  list, `timers.dfy`, `timerruns.dfy` and `eventloop.dfy` the timer half of the event loop; `sequences.dfy` is shared by both.

Code that updates memory is modelled by classes and methods with loops, and each is proved against functions on values;
the theorems about whole messages, passes and runs are lemmas about those functions.

Bytes from the network arrive through `Framing.Stream`, whose receive operation may return any non-empty part of what
was asked for. Clock readings, the actions of timer callbacks and finalizers (any creations and deletions) and their
results are arbitrary parameters; so are what the network does during a WebSocket poll, the reactions of the WebSocket
callback and the schedule of the threads. Timer callbacks do not run the event loop themselves.

Where the code differs from what it is meant to do, the model follows the code:

* The address check of function 0x17 repeats the test of the read address where the write address is meant
  (modbus.c lines 952-955). `EndToEnd.WritesBelow` is the exact condition under which this matters; the model stores
  what falls into the table, answers as the code does, and hands back the words that fall in front of it.
* A reply to a function code from 0x80 on has a function code that wrapped (modbus.c lines 983-987), and the client may
  wait for bytes that never come. `EndToEnd.RepliesEndIff` gives the exact condition.
* The protocol id of a TCP response is rejected only if both of its bytes are non-zero (modbus-tcp.c line 199).
  `EndToEnd.DecodeCarried` gives the exact condition.
* The cast to `long` before the division in the poll timeout has 32 bits on Windows (ae.c line 419).
  `Timers.WaitExact` gives the exact condition.
* A negative delay can leave negative milliseconds in a due time (ae.c lines 221-226). `TimerRuns.CreateNormalIff`
  gives the exact condition.

## Model

| member | source | states |
|---|---|---|
| `EndToEnd.SessionRefines` | ModBusLibrary/ModBusLibrary/ModBus/modbus.c:697-992 | For both backends, any non-broadcast slave and any sequence of client calls, negative read quantities included: outcomes and final tables of the whole chain (builder, server framing, reply, client framing, confirmation) are those of an abstract four-table memory if and only if no call writes below the register table |
| `EndToEnd.ExchangeRefines` | ModBusLibrary/ModBusLibrary/ModBus/modbus.c:1030-1506 | One call, in limit or not, whatever the previous contents of the server buffer: what is returned and stored is what Observed says, and agrees with the abstract memory if and only if the call does not write below the register table; coils stay 0 or 1 and input tables do not change |
| `EndToEnd.ServeRefines` | ModBusLibrary/ModBusLibrary/ModBus/modbus.c:697-992 | The server on any request a client call can build: tables and answer are those of the abstract memory, or of the accepted write below the table; words are stored in front of the table exactly for WritesBelow |
| `EndToEnd.WritesBelowDiffers` | ModBusLibrary/ModBusLibrary/ModBus/modbus.c:952-955 | Where the write address is below the table: the first values go in front of it, the others into it, the answer is the success that then reads the table; the abstract memory refuses with illegal address |
| `EndToEnd.ObservedIff` | ModBusLibrary/ModBusLibrary/ModBus/modbus.c:937-981 | What is observed is what the abstract memory says, in outcome and in contents, if and only if the call does not write below the table |
| `EndToEnd.ReferenceRefuses` | ModBusLibrary/ModBusLibrary/ModBus/modbus.c:952-955 | The abstract memory refuses every such call with illegal address and changes nothing |
| `EndToEnd.WritesBelowExample` | ModBusLibrary/ModBusLibrary/ModBus/modbus.c:952-955 | Registers 10 to 14, write 9 and 10, read 10: the whole exchange returns success with the value 2 and register 10 holds it, where the abstract memory refuses |
| `EndToEnd.NothingBelowZero` | ModBusLibrary/ModBusLibrary/ModBus/modbus.c:952-955 | A mapping that starts at register 0 (or lower) never meets that case |
| `Client.ReplyLength` | ModBusLibrary/ModBusLibrary/ModBus/modbus.c:129-163 | Every reply to every request the reader delivers has the exception length or exactly the length computed from the request; only the report of the slave id leaves it open |
| `EndToEnd.RepliesEndIff` | ModBusLibrary/ModBusLibrary/ModBus/modbus.c:983-987 | For every request the reader delivers, well-shaped or not: confirmation framing of the reply stops at its last byte if and only if the function code is below 0x80, or the code 0x80 below it is none of those that claim more bytes |
| `EndToEnd.HighFunctionExample` | ModBusLibrary/ModBusLibrary/ModBus/modbus.c:983-987 | Function 0x83 is delivered and answered by two bytes on which the client waits for a third |
| `EndToEnd.ReportSlaveId` | ModBusLibrary/ModBusLibrary/ModBus/modbus.c:1510-1551 | The report of the slave id end to end: framed exactly, confirmed with its byte count, the data in place |
| `EndToEnd.ConfirmCarried` | ModBusLibrary/ModBusLibrary/ModBus/modbus.c:503-632 | The confirmation check on any response header: refused with the error of the transport exactly if the header does not pass, else the count of a carried success or the errno of a carried exception |
| `EndToEnd.DecodeCarried` | ModBusLibrary/ModBusLibrary/ModBus/modbus.c:1030-1176 | Decoding the frame that carries an outcome gives that outcome if and only if the response header passes the transport check: the slave, or the transaction id and a protocol id with a zero byte |
| `EndToEnd.DecodeSound` | ModBusLibrary/ModBusLibrary/ModBus/modbus.c:503-632 | The converse, for any whole response that passes the transport check: a call succeeds only with a PDU that carries just this success; an exception of the function asked for gives its errno, any other the bad-exception error, and all else bad data |
| `EndToEnd.CorruptResponseRefused` | ModBusLibrary/ModBusLibrary/ModBus/modbus-rtu.c:359-394 | A response with a wrong checksum ends in the bad-CRC error |
| `EndToEnd.BadRequestDropped` | ModBusLibrary/ModBusLibrary/ModBus/modbus-rtu.c:359-394 | A server neither acts on nor answers a request that is corrupt or meant for another slave |
| `EndToEnd.WritesEchoed` | ModBusLibrary/ModBusLibrary/ModBus/modbus.c:789-936 | The answer to a write that was carried out repeats the beginning of the request |
| `EndToEnd.OtherProtocolAccepted` | ModBusLibrary/ModBusLibrary/ModBus/modbus-tcp.c:198-206 | A response with protocol id 0x0100 is accepted; one with 0x0101 is refused |
| `EndToEnd.PreCheckIff` | ModBusLibrary/ModBusLibrary/ModBus/modbus-tcp.c:185-209 | The transport check confirms exactly the headers that pass, and which error it gives otherwise |
| `EndToEnd.ForeignResponseRefused` | ModBusLibrary/ModBusLibrary/ModBus/modbus-rtu.c:338-354 | On the serial line a response from another slave is refused with the bad-slave error |
| `Client.IgnoredRefused` | ModBusLibrary/ModBusLibrary/ModBus/modbus.c:503-523 | A frame the reader ignored reaches the check with length 0 and is refused there |
| `EndToEnd.FieldsOfRequest` | ModBusLibrary/ModBusLibrary/ModBus/modbus.c:697-992 | The server reads from a built request the function code, address, quantity and masks the caller gave, modulo 2^16 |
| `EndToEnd.PayloadOfRequest` | ModBusLibrary/ModBusLibrary/ModBus/modbus.c:1282-1390 | The server unpacks from a built request the very bits and registers the caller gave |
| `EndToEnd.ReadBitsCarries` | ModBusLibrary/ModBusLibrary/ModBus/modbus.c:724-754 | Reading coils or inputs answers the stored bits, or illegal value for a bad quantity, or illegal address |
| `EndToEnd.ReadRegistersCarries` | ModBusLibrary/ModBusLibrary/ModBus/modbus.c:755-788 | Reading registers answers the stored words, or the matching exception |
| `EndToEnd.WriteCoilCarries` | ModBusLibrary/ModBusLibrary/ModBus/modbus.c:789-813 | Writing one coil stores exactly that cell and echoes |
| `EndToEnd.WriteRegisterCarries` | ModBusLibrary/ModBusLibrary/ModBus/modbus.c:814-831 | Writing one register stores exactly that cell and echoes |
| `EndToEnd.WriteCoilsCarries` | ModBusLibrary/ModBusLibrary/ModBus/modbus.c:832-862 | Writing coils stores the truth values of the bits, or answers the matching exception |
| `EndToEnd.WriteRegistersCarries` | ModBusLibrary/ModBusLibrary/ModBus/modbus.c:863-892 | Writing registers stores the words, or answers the matching exception |
| `EndToEnd.MaskWriteCarries` | ModBusLibrary/ModBusLibrary/ModBus/modbus.c:917-936 | Mask write stores the merge of the old word with the two masks and echoes |
| `EndToEnd.WriteAndReadCarries` | ModBusLibrary/ModBusLibrary/ModBus/modbus.c:937-981 | Write-and-read writes first and answers what is then stored, with the exact effect and answer also where the write begins below the table |
| `EndToEnd.ServerSideRefines` | ModBusLibrary/ModBusLibrary/ModBus/modbus.c:340-472 | From the bytes of a request on the line to the bytes of the response on the line, the server side does what Observed says |
| `EndToEnd.ClientSideDecodes` | ModBusLibrary/ModBusLibrary/ModBus/modbus.c:493-632 | From the bytes of the response on the line the client side gets back the outcome the server carried |
| `ReferenceMemory.FetchAfterStore` | ModBusLibrary/ModBusLibrary/ModBus/modbus.c:697-992 | The reference memory: a read sees the last write and nothing else |
| `ReferenceMemory.HasIffInside` | ModBusLibrary/ModBusLibrary/ModBus/modbus.c:697-992 | The address checks of the server are membership in the address space |
| `LiveSession.Perform` | ModBusLibrary/ModBusLibrary/ModBus/modbus.c:1030-1506 | The same end-to-end statement for the imperative program: request buffer, two byte streams with arbitrary chunking, tables updated in place, the next transaction id taken, nothing left on the line; over a failing link the caller may get the link error, and the call was carried out once or not at all |
| `LiveSession.ServeOnce` | ModBusLibrary/ModBusLibrary/ModBus/modbus.c:340-472 | One turn of the imperative server does what the server side on values does, or nothing if the link failed |
| `LiveSession.ReceiveOutcome` | ModBusLibrary/ModBusLibrary/ModBus/modbus.c:493-632 | Receiving and checking a confirmation by the loops equals decoding on values, foreign and refused frames included, or reports the failed link |
| `LiveSession.DecodeConfirmation` | ModBusLibrary/ModBusLibrary/ModBus/modbus.c:1030-1176 | The unpack loops write what Decode says |
| `LiveSession.ModbusClient.BuildRequest` | ModBusLibrary/ModBusLibrary/ModBus/modbus.c:1030-1506 | Every builder leaves the canonical header and exactly the request PDU of the call, and takes the next transaction id |
| `LiveSession.ModbusClient.BuildWriteBits` | ModBusLibrary/ModBusLibrary/ModBus/modbus.c:1282-1343 | The bit-packing builder |
| `LiveSession.ModbusClient.BuildMaskWrite` | ModBusLibrary/ModBusLibrary/ModBus/modbus.c:1393-1428 | The mask-write builder |
| `LiveSession.ModbusClient.BuildWriteAndRead` | ModBusLibrary/ModBusLibrary/ModBus/modbus.c:1431-1506 | The write-and-read builder |
| `Standard.ReadRequests` | ModBusLibrary/ModBusLibrary/ModBus/modbus.c:1030-1225 | The request examples of sections 6.1 to 6.4 of the standard, byte by byte |
| `Standard.SingleRequests` | ModBusLibrary/ModBusLibrary/ModBus/modbus.c:1230-1428 | Those of sections 6.5, 6.6 and 6.16 |
| `Standard.MultipleRequests` | ModBusLibrary/ModBusLibrary/ModBus/modbus.c:1282-1506 | Those of sections 6.11, 6.12 and 6.17 |
| `Standard.ReadCoils` | ModBusLibrary/ModBusLibrary/ModBus/modbus.c:724-754 | The answer of the example of section 6.1 |
| `Standard.ReadHolding` | ModBusLibrary/ModBusLibrary/ModBus/modbus.c:755-788 | The answer of the example of section 6.3 |
| `Standard.HighByteFirst` | ModBusLibrary/ModBusLibrary/ModBus/modbus.c:755-788 | Every register goes on the wire with its high byte first |
| `Standard.PackByte` | ModBusLibrary/ModBusLibrary/ModBus/modbus.c:634-658 | The first coil of a byte is its least significant bit |
| `Client.RequestPduShape` | ModBusLibrary/ModBusLibrary/ModBus/modbus.c:1230-1506 | Every in-limit call has a request PDU of the shape framing expects, within the PDU size |
| `Client.ConfirmedRoom` | ModBusLibrary/ModBusLibrary/ModBus/modbus.c:503-632 | A confirmed response has exactly room for the data the caller asked for |
| `Client.Limits` | ModBusLibrary/ModBusLibrary/ModBus/modbus.c:1075-1506 | The quantities the client accepts are exactly those of the standard, written out |
| `Server.ServeFrame` | ModBusLibrary/ModBusLibrary/ModBus/modbus.c:697-992 | An exception or no answer leaves all tables unchanged and stores nothing elsewhere; input tables, table sizes and start addresses never change |
| `Server.FrontIff` | ModBusLibrary/ModBusLibrary/ModBus/modbus.c:937-981 | Words are stored in front of the register table exactly for function 0x17 requests that pass the guards with a write address below it |
| `Server.CoilsStayBits` | ModBusLibrary/ModBusLibrary/ModBus/modbus.c:697-992 | Coils stay 0 or 1 through every request |
| `Server.ServeTouches` | ModBusLibrary/ModBusLibrary/ModBus/modbus.c:697-992 | A request that stores nothing in front of the register table changes only the cells it addresses |
| `Server.ServeAllKeeps` | ModBusLibrary/ModBusLibrary/ModBus/modbus.c:697-992 | Over every run of such requests: cells no request addresses keep their value, input tables never change, coils stay 0 or 1 |
| `Server.RefusedIff` | ModBusLibrary/ModBusLibrary/ModBus/modbus.c:697-992 | Every request, however malformed: which exception code it gets, or that it is carried out, that a refusal changes nothing, and exactly when pending input is discarded |
| `Server.AnswerShape` | ModBusLibrary/ModBusLibrary/ModBus/modbus.c:697-992 | Every answer to a delivered request with a function code below 0x80 has the shape confirmation framing expects |
| `Server.AnswerToHigh` | ModBusLibrary/ModBusLibrary/ModBus/modbus.c:661-689 | From 0x80 on adding 0x80 to the function code wraps |
| `Server.AnswerEndsIff` | ModBusLibrary/ModBusLibrary/ModBus/modbus.c:697-992 | The framing condition for the answer to any delivered request |
| `Framing.ShortResponseIff` | ModBusLibrary/ModBusLibrary/ModBus/modbus.c:252-324 | A two-byte response ends at its last byte exactly if its function code claims no more |
| `Framing.CompleteIsReceived` | ModBusLibrary/ModBusLibrary/ModBus/modbus.c:340-472 | What the reader guarantees about the length of any request it delivers |
| `Server.OutgoingFits` | ModBusLibrary/ModBusLibrary/ModBus/modbus.c:697-992 | Every reply, checksum included, fits the ADU limit of its backend, even for malformed requests; to a broadcast nothing is sent |
| `Responder.Mapping.constructor` | ModBusLibrary/ModBusLibrary/ModBus/modbus.c:1719-1801 | A fresh mapping holds zeros of the sizes asked for |
| `Responder.ModbusReply` | ModBusLibrary/ModBusLibrary/ModBus/modbus.c:697-992 | The imperative reply updates the tables in place, sends exactly what Serve says, flushes the input exactly when the code does, and hands back the words it stored in front of the register table |
| `Responder.BuildReply` | ModBusLibrary/ModBusLibrary/ModBus/modbus.c:697-992 | Dispatch over all function codes: tables, response buffer and words stored in front match Serve |
| `Responder.ResponseException` | ModBusLibrary/ModBusLibrary/ModBus/modbus.c:661-689 | The exception response, with the request to flush |
| `Responder.ReplyReadBits` | ModBusLibrary/ModBusLibrary/ModBus/modbus.c:724-754 | Coil and input reads build the specified response |
| `Responder.ReplyReadRegisters` | ModBusLibrary/ModBusLibrary/ModBus/modbus.c:755-788 | Register reads build the specified response |
| `Responder.ReplyWriteSingleCoil` | ModBusLibrary/ModBusLibrary/ModBus/modbus.c:789-813 | One coil is written in place and the request echoed |
| `Responder.ReplyWriteSingleRegister` | ModBusLibrary/ModBusLibrary/ModBus/modbus.c:814-831 | One register is written in place and the request echoed |
| `Responder.ReplyWriteMultipleCoils` | ModBusLibrary/ModBusLibrary/ModBus/modbus.c:832-862 | Coils are unpacked into the table in place |
| `Responder.ReplyWriteMultipleRegisters` | ModBusLibrary/ModBusLibrary/ModBus/modbus.c:863-892 | Registers are stored in place |
| `Responder.ReplyMaskWriteRegister` | ModBusLibrary/ModBusLibrary/ModBus/modbus.c:917-936 | The masked word is stored in place and the request echoed |
| `Responder.ReplyWriteAndRead` | ModBusLibrary/ModBusLibrary/ModBus/modbus.c:937-981 | Registers are stored before the answer is read from the same table, also when the first index lies in front of it |
| `Responder.ReplyReportSlaveId` | ModBusLibrary/ModBusLibrary/ModBus/modbus.c:893-909 | The identification text behind its byte count |
| `Framing.ReceiveMsg` | ModBusLibrary/ModBusLibrary/ModBus/modbus.c:340-472 | However the stream is split into recv results: the bytes consumed, the buffer and the result are functions of the stream alone; never more than the ADU limit is stored; the loop terminates |
| `Framing.RequestFrameExact` | ModBusLibrary/ModBusLibrary/ModBus/modbus.c:252-324 | Indication framing of any well-shaped request followed by anything stops at its last byte |
| `Framing.ResponseFrameExact` | ModBusLibrary/ModBusLibrary/ModBus/modbus.c:252-324 | Confirmation framing of any well-shaped response followed by anything stops at its last byte |
| `Framing.FrameStable` | ModBusLibrary/ModBusLibrary/ModBus/modbus.c:378-466 | Once a frame is decided, later bytes do not change it |
| `Framing.FrameOfAnnounced` | ModBusLibrary/ModBusLibrary/ModBus/modbus.c:252-324 | What the reader makes of any stream, by the PDU length announced: it waits until the message is whole and refuses it as soon as the length is known exactly if that exceeds 253 bytes |
| `Framing.OversizedRefused` | ModBusLibrary/ModBusLibrary/ModBus/modbus.c:430-453 | Such a message is refused as bad data |
| `Framing.ConfirmationLength` | ModBusLibrary/ModBusLibrary/ModBus/modbus.c:252-324 | Every complete confirmation has the two bytes the confirmation check reads |
| `Framing.Advance` | ModBusLibrary/ModBusLibrary/ModBus/modbus.c:430-453 | One transition of the three-step machine keeps the reading invariant and lowers the step rank |
| `Win32Serial.SerialPort.SelectRead` | ModBusLibrary/ModBusLibrary/ModBus/modbus-rtu.c:184-251 | After a select and a recv the one-shot buffer is empty, and exactly what had arrived, up to the limit, was handed over: the next bytes of the device, none lost, none repeated |
| `Win32Serial.SerialPort.Select` | ModBusLibrary/ModBusLibrary/ModBus/modbus-rtu.c:184-233 | Left-over bytes are enough; otherwise what has arrived is read, up to the limit, and the result says whether any was; nothing is lost or reordered |
| `Win32Serial.SerialPort.Read` | ModBusLibrary/ModBusLibrary/ModBus/modbus-rtu.c:235-251 | Reading takes the front of the buffer |
| `Backends.AdjacentCorruptionNeverAccepted` | ModBusLibrary/ModBusLibrary/ModBus/modbus-rtu.c:359-394 | Changing one byte or two adjacent bytes of an accepted RTU frame of any length, checksum included, is never accepted; behind the first byte it is refused with the bad-CRC error |
| `Backends.AcceptedIffResidueZero` | ModBusLibrary/ModBusLibrary/ModBus/modbus-rtu.c:359-394 | An RTU frame is accepted exactly if it is for this slave or broadcast and its CRC residue is zero |
| `Backends.NotAccepted` | ModBusLibrary/ModBusLibrary/ModBus/modbus-rtu.c:359-394 | Otherwise it is ignored exactly if it is for another slave, and refused with the bad-CRC error exactly if it is for this one or for everyone and its residue is not zero |
| `Backends.MbapLength` | ModBusLibrary/ModBusLibrary/ModBus/modbus-tcp.c:152-161 | The length field of every TCP frame counts the bytes behind it |
| `Backends.FrameExamples` | ModBusLibrary/ModBusLibrary/ModBus/modbus-rtu.c:155-162 | A frame of each transport byte by byte |
| `Backends.AduIntact` | ModBusLibrary/ModBusLibrary/ModBus/modbus-rtu.c:155-162 | Every frame built for this slave or for broadcast passes the integrity check |
| `Backends.AduParts` | ModBusLibrary/ModBusLibrary/ModBus/modbus-tcp.c:152-161 | The header and PDU are found again in a built frame, whatever follows |
| `Backends.SendMsgPre` | ModBusLibrary/ModBusLibrary/ModBus/modbus-rtu.c:155-162 | The buffer becomes the full frame: CRC appended, or the MBAP length, which counts the bytes behind it, filled in |
| `Backends.BuildRequestBasis` | ModBusLibrary/ModBusLibrary/ModBus/modbus-tcp.c:92-121 | Header, function code, address and quantity are laid out |
| `Backends.BuildResponseBasis` | ModBusLibrary/ModBusLibrary/ModBus/modbus-tcp.c:124-144 | Header and function code are laid out, with the transaction id given |
| `Crc.Crc16` | ModBusLibrary/ModBusLibrary/ModBus/modbus-rtu.c:132-146 | The table-driven loop computes the byte-swapped bit-serial CRC (polynomial 0xA001, initial value 0xFFFF) of every message |
| `Crc.CalcCrcFast` | EarRollingBaslerCamera/EarRollingBaslerCamera/Modbus/crc16.cpp:3-18 | The second implementation computes the same CRC |
| `Crc.CheckValue` | ModBusLibrary/ModBusLibrary/ModBus/modbus-rtu.c:132-146 | The check value 0x4B37 of the digits 1 to 9, by which CRC-16/MODBUS is known |
| `Crc.CrcExample` | ModBusLibrary/ModBusLibrary/ModBus/modbus-rtu.c:132-146 | The two bytes of a request in transmission order |
| `Crc.TableStep` | ModBusLibrary/ModBusLibrary/ModBus/modbus-rtu.c:138-143 | One table step equals eight steps of the shift register |
| `Crc.TableHiIsFeed` | ModBusLibrary/ModBusLibrary/ModBus/modbus-rtu.c:31-58 | Every entry of the first table |
| `Crc.TableLoIsFeed` | ModBusLibrary/ModBusLibrary/ModBus/modbus-rtu.c:61-88 | Every entry of the second table |
| `Crc.ResidueZero` | ModBusLibrary/ModBusLibrary/ModBus/modbus-rtu.c:132-162 | A message followed by two bytes has residue zero exactly if they are its CRC |
| `Crc.AdjacentChangeDetected` | ModBusLibrary/ModBusLibrary/ModBus/modbus-rtu.c:132-146 | Messages that differ in one byte or two adjacent ones have different CRCs |
| `Crc.FeedTwoInjective` | ModBusLibrary/ModBusLibrary/ModBus/modbus-rtu.c:132-146 | From any state, different pairs of bytes lead to different states |
| `Crc.FeedInjective` | ModBusLibrary/ModBusLibrary/ModBus/modbus-rtu.c:132-146 | Feeding a byte is injective on the state |
| `Packing.UnpackPack` | ModBusLibrary/ModBusLibrary/ModBus/modbus.c:634-658 | Packing cells and unpacking is the identity exactly on sequences of 0 and 1, for every quantity |
| `Packing.PackedBit` | ModBusLibrary/ModBusLibrary/ModBus/modbus.c:634-658 | Which bit of which byte holds which cell; padding bits are zero |
| `Packing.ResponseIoStatus` | ModBusLibrary/ModBusLibrary/ModBus/modbus.c:634-658 | The server packing loop |
| `Packing.UnpackReply` | ModBusLibrary/ModBusLibrary/ModBus/modbus.c:1056-1067 | The client unpack loop, leaving the rest of the destination alone |
| `Packing.AppendPackedBits` | ModBusLibrary/ModBusLibrary/ModBus/modbus.c:1309-1327 | The client packing loop packs truth values and leaves what was there before |
| `Packing.SetBitsFromBytes` | ModBusLibrary/ModBusLibrary/ModBus/modbus-data.c:82-94 | The server unpack loop stores the bits in place and nothing else |
| `Bits.MaskMergeBit` | ModBusLibrary/ModBusLibrary/ModBus/modbus.c:917-936 | Every bit of a mask write comes from the old word where the and-mask is set and from the or-mask where it is clear |
| `SharedBus.StaysAligned` | ModBusLibrary/ModBusLibrary/ModBus/modbus-rtu.c:304-325 | On every bus trace of own, broadcast and corrupted requests and foreign conversations (one well-formed response to each foreign request), repeated receives return exactly the own and broadcast requests, in order, an error for each corrupted one and 0 for each foreign frame; whatever follows is read from a frame boundary |
| `SharedBus.OwnStep` | ModBusLibrary/ModBusLibrary/ModBus/modbus-rtu.c:304-325 | An own or broadcast request is returned whole |
| `SharedBus.CorruptedStep` | ModBusLibrary/ModBusLibrary/ModBus/modbus-rtu.c:304-325 | An own or broadcast request with any other checksum is an error, is read to its end and leaves the flag down |
| `SharedBus.ForeignRequestStep` | ModBusLibrary/ModBusLibrary/ModBus/modbus-rtu.c:359-394 | A foreign request yields 0 and arms the flag, whatever its checksum |
| `SharedBus.ForeignResponseStep` | ModBusLibrary/ModBusLibrary/ModBus/modbus-rtu.c:304-325 | The response to it is skipped as a confirmation and clears the flag |
| `SharedBus.Listener.Receive` | ModBusLibrary/ModBusLibrary/ModBus/modbus-rtu.c:304-325 | The imperative receive is the step on values, corrupted requests and the flag included |
| `SharedBus.Drain` | ModBusLibrary/ModBusLibrary/ModBus/modbus-rtu.c:304-325 | Receiving until the line is empty yields what Listen says, and terminates |
| `Transactions.LateResponseRefused` | ModBusLibrary/ModBusLibrary/ModBus/modbus-tcp.c:185-209 | A delayed response to any of the previous 65535 requests is refused as bad data, whichever slaves the two requests went to |
| `Transactions.DelayedResponse` | ModBusLibrary/ModBusLibrary/ModBus/modbus-tcp.c:98-150 | The transaction check passes a response to an earlier request exactly if the distance is a multiple of 65536 |
| `Transactions.SameTidIff` | ModBusLibrary/ModBusLibrary/ModBus/modbus-tcp.c:98-104 | Two requests share an id exactly at multiples of 65536 |
| `Transactions.TidOfWraps` | ModBusLibrary/ModBusLibrary/ModBus/modbus-tcp.c:98-104 | The counter wraps from 65535 to 0 |
| `Transactions.ResponseEchoesTid` | ModBusLibrary/ModBusLibrary/ModBus/modbus-tcp.c:124-150 | The server echoes the id of the request |
| `WsSocket.RoundTrip` | EarRollingHalcon/EarRollingHalcon/easywsclient.cpp:385-444 | Any sequence of text and binary messages below 2^63 bytes, masked or not, sent by one socket and dispatched by another in any chunks, is delivered exactly, in order, with nothing left over |
| `WsSocket.DispatchInTwo` | EarRollingHalcon/EarRollingHalcon/easywsclient.cpp:271-366 | Dispatching after a and then after b gives the same socket (callbacks, residue, fragments, replies, error flag) as once after both |
| `WsSocket.DispatchChunksIsDispatch` | EarRollingHalcon/EarRollingHalcon/easywsclient.cpp:271-366 | The same for any number of chunks |
| `WsSocket.DispatchEncoded` | EarRollingHalcon/EarRollingHalcon/easywsclient.cpp:271-366 | Dispatching any encoded frames handles those frames |
| `WsSocket.HandleAllDelivers` | EarRollingHalcon/EarRollingHalcon/easywsclient.cpp:340-363 | Fragments are joined until FIN even with control frames in between |
| `WsSocket.PingEchoed` | EarRollingHalcon/EarRollingHalcon/easywsclient.cpp:355-359 | A ping on an open socket enqueues one pong with the same payload and does nothing else |
| `WsSocket.PongsArePings` | EarRollingHalcon/EarRollingHalcon/easywsclient.cpp:355-359 | Over any frames and with any callback, as long as the socket stays open its pongs are exactly the payloads of the pings received, in order |
| `WsSocket.StreamAnswered` | EarRollingHalcon/EarRollingHalcon/easywsclient.cpp:271-366 | The same for a stream cut into any pieces |
| `WsSocket.PongIgnored` | EarRollingHalcon/EarRollingHalcon/easywsclient.cpp:360-360 | A pong does nothing |
| `WsSocket.CloseAnswered` | EarRollingHalcon/EarRollingHalcon/easywsclient.cpp:361-362 | A close frame or an unknown opcode enqueues one close frame and leaves the socket closing |
| `WsSocket.MessageDelivered` | EarRollingHalcon/EarRollingHalcon/easywsclient.cpp:342-354 | A final data frame delivers the joined message; then exactly the frames of the callback actions are enqueued, up to its close |
| `WsSocket.BadLengthCloses` | EarRollingHalcon/EarRollingHalcon/easywsclient.cpp:271-338 | A length that cannot be closes the socket, delivers nothing and stops every later dispatch |
| `WsSocket.CallsEnqueue` | EarRollingHalcon/EarRollingHalcon/easywsclient.cpp:368-383 | Which frame each call of an open socket enqueues |
| `WsSocket.OutBytesParse` | EarRollingHalcon/EarRollingHalcon/easywsclient.cpp:385-444 | Every frame put in the buffer is read back as a final frame, masked with the fixed key exactly if the socket masks |
| `WsSocket.CloseFrameIs` | EarRollingHalcon/EarRollingHalcon/easywsclient.cpp:446-452 | The close frame is a whole, final, empty frame |
| `WsSocket.RunKeeps` | EarRollingHalcon/EarRollingHalcon/easywsclient.cpp:229-248 | On every run: bytes sent and waiting are the enqueued frames, whole; a close frame is last; the state only moves forward; nothing is enqueued once closing |
| `WsSocket.NextKeeps` | EarRollingHalcon/EarRollingHalcon/easywsclient.cpp:229-248 | Every event keeps that |
| `WsSocket.FreshInv` | EarRollingHalcon/EarRollingHalcon/easywsclient.cpp:446-452 | A new socket satisfies it |
| `WsSocket.DrainedCompletely` | EarRollingHalcon/EarRollingHalcon/easywsclient.cpp:245-248 | Closing by drain happens only after everything enqueued, the close frame last, was sent |
| `WsFrames.ParseEncode` | EarRollingHalcon/EarRollingHalcon/easywsclient.cpp:271-338 | The parser recovers every frame the encoder prints, across the 126 and 65536 boundaries, whatever follows |
| `WsFrames.ParseStable` | EarRollingHalcon/EarRollingHalcon/easywsclient.cpp:271-338 | A decided parse does not change when more bytes arrive |
| `WsFrames.BadLengthIff` | EarRollingHalcon/EarRollingHalcon/easywsclient.cpp:271-338 | A length is refused exactly if it has the eight-byte form with its top bit set |
| `WsFrames.MaskedTwice` | EarRollingHalcon/EarRollingHalcon/easywsclient.cpp:347-356 | Masking twice with a key is the identity |
| `WsFrames.BigEndianRoundTrip` | EarRollingHalcon/EarRollingHalcon/easywsclient.cpp:395-434 | Big-endian lengths are read back |
| `WsFrames.BigEndianDigit` | EarRollingHalcon/EarRollingHalcon/easywsclient.cpp:395-434 | Which byte of a length is where |
| `WsFrames.TextExamples` | EarRollingHalcon/EarRollingHalcon/easywsclient.cpp:385-444 | The text examples of section 5.7 of RFC 6455, byte by byte |
| `WsFrames.FragmentExamples` | EarRollingHalcon/EarRollingHalcon/easywsclient.cpp:271-338 | Its fragmented message |
| `WsFrames.ControlExamples` | EarRollingHalcon/EarRollingHalcon/easywsclient.cpp:385-444 | Its ping and pong |
| `WsFrames.LengthExamples` | EarRollingHalcon/EarRollingHalcon/easywsclient.cpp:385-444 | Its messages of 256 bytes and 64 KiB |
| `WsClient.RealWebSocket.SendData` | EarRollingHalcon/EarRollingHalcon/easywsclient.cpp:385-444 | The imperative printer appends the encoded frame to txbuf, unless closing or closed |
| `WsClient.RealWebSocket.CloseSocket` | EarRollingHalcon/EarRollingHalcon/easywsclient.cpp:446-452 | The close frame is enqueued once |
| `WsClient.RealWebSocket.DispatchBinary` | EarRollingHalcon/EarRollingHalcon/easywsclient.cpp:271-366 | The imperative parse loop equals Dispatch, whose answers to pings, close frames and messages are stated above |
| `WsClient.RealWebSocket.ReadHeader` | EarRollingHalcon/EarRollingHalcon/easywsclient.cpp:275-338 | The header code agrees with Parse |
| `WsClient.RealWebSocket.UnmaskInPlace` | EarRollingHalcon/EarRollingHalcon/easywsclient.cpp:347-356 | The in-place XOR loop |
| `WsClient.RealWebSocket.Poll` | EarRollingHalcon/EarRollingHalcon/easywsclient.cpp:189-249 | For any behaviour of the network: all that arrived is in the receive buffer, all that was accepted has left the transmit buffer in order, and the state changes exactly when the connection is lost or a closing socket has drained |
| `BackgroundJobs.Safety` | win_redis/redis-5.0.10/src/bio.c:140-234 | Under every interleaving: jobs are carried out in FIFO order, each once; with the lock free the counter is the queue length and submitted minus completed; a worker asleep with the lock free has nothing to do |
| `BackgroundJobs.ZeroMeansAllDone` | win_redis/redis-5.0.10/src/bio.c:237-265 | A client told 0 knows that all jobs submitted before the counter was read have been carried out |
| `BackgroundJobs.ToldTheTruth` | win_redis/redis-5.0.10/src/bio.c:237-265 | On every interleaving a client is told exactly the number of jobs submitted and not completed when it reads the counter; waiting for a step returns at once exactly if that is 0 |
| `BackgroundJobs.CreateSubmits` | win_redis/redis-5.0.10/src/bio.c:140-152 | An undisturbed submission appends the job, counts it, wakes a sleeping worker and leaves the lock free |
| `BackgroundJobs.AskAnswers` | win_redis/redis-5.0.10/src/bio.c:237-243 | An undisturbed question is answered with that number and changes nothing |
| `BackgroundJobs.StepWaits` | win_redis/redis-5.0.10/src/bio.c:255-265 | An undisturbed wait returns 0 or leads into the wait |
| `BackgroundJobs.WokenReturns` | win_redis/redis-5.0.10/src/bio.c:255-265 | A woken client returns what is left then |
| `BackgroundJobs.WorkerFinishes` | win_redis/redis-5.0.10/src/bio.c:154-234 | From every reachable state with no client inside a critical section the worker alone carries out every submitted job, counts down to 0 and wakes every waiting client, in a number of moves given in advance |
| `BackgroundJobs.SomebodyMoves` | win_redis/redis-5.0.10/src/bio.c:154-265 | No deadlock: the lock holder can move, and with the lock free and work or waiting clients left the worker can |
| `BackgroundJobs.NextKeeps` | win_redis/redis-5.0.10/src/bio.c:140-265 | Every step of every thread keeps the invariant |
| `BackgroundJobs.RunKeeps` | win_redis/redis-5.0.10/src/bio.c:140-265 | So does every run |
| `LinkedLists.List.AddNodeHead` | win_redis/redis-5.0.10/src/adlist.c:91-108 | Prepends; links, ends and length stay consistent |
| `LinkedLists.List.AddNodeTail` | win_redis/redis-5.0.10/src/adlist.c:117-135 | Appends |
| `LinkedLists.List.InsertNode` | win_redis/redis-5.0.10/src/adlist.c:137-164 | Inserts behind or in front of a node |
| `LinkedLists.List.DelNode` | win_redis/redis-5.0.10/src/adlist.c:170-183 | Removes exactly that node |
| `LinkedLists.List.RotateTailToHead` | win_redis/redis-5.0.10/src/adlist.c:333-345 | Rotates the sequence to the right |
| `LinkedLists.List.RotateHeadToTail` | win_redis/redis-5.0.10/src/adlist.c:348-360 | Rotates the sequence to the left |
| `LinkedLists.RotationsInverse` | win_redis/redis-5.0.10/src/adlist.c:333-360 | The rotations undo each other |
| `LinkedLists.InsertThenRemove` | win_redis/redis-5.0.10/src/adlist.c:137-183 | Deleting what was inserted gives the sequence back |
| `LinkedLists.List.Join` | win_redis/redis-5.0.10/src/adlist.c:364-379 | Concatenates and leaves the other list empty and valid |
| `LinkedLists.List.Index` | win_redis/redis-5.0.10/src/adlist.c:318-330 | Signed index from either end, null outside |
| `LinkedLists.List.SearchKey` | win_redis/redis-5.0.10/src/adlist.c:293-311 | The first node that the match function accepts, or it accepts none |
| `LinkedLists.List.Empty` | win_redis/redis-5.0.10/src/adlist.c:59-74 | Every node is released once, from head to tail, and the list becomes empty |
| `LinkedLists.ListIter.Next` | win_redis/redis-5.0.10/src/adlist.c:232-243 | Hands out a node after moving past it |
| `LinkedLists.Sweep` | win_redis/redis-5.0.10/src/adlist.c:185-243 | Iteration in either direction visits every node exactly once, in order, even if any choice of the nodes handed out is deleted; the other nodes and their values remain, in order |
| `LinkedLists.ChosenFront` | win_redis/redis-5.0.10/src/adlist.c:217-243 | What remains is what was not deleted, in order |
| `LinkedLists.SweptStep` | win_redis/redis-5.0.10/src/adlist.c:217-243 | One round of such an iteration on sequences: where the next node is, and what deleting it leaves |
| `LinkedLists.Dup` | win_redis/redis-5.0.10/src/adlist.c:253-282 | A fresh copy of all values, or nothing if one copy fails; the original is not modified |
| `LinkedLists.CopyAllIs` | win_redis/redis-5.0.10/src/adlist.c:265-279 | The copy fails exactly if one value cannot be copied; otherwise every value is copied to its own place |
| `TimerRuns.PassVisits` | win_redis/redis-5.0.10/src/ae.c:293-365 | With arbitrary callbacks and finalizers: every timer in the list at the start of a pass is visited once, in order, and no other; it is called exactly if live, not deleted earlier in the pass and its own due time is reached at its turn, or, exactly if the clock was set back, second 0 with its milliseconds; it is finalised exactly if deleted by then |
| `TimerRuns.SetBackCallsAll` | win_redis/redis-5.0.10/src/ae.c:307-313 | After the clock was set back every timer not deleted by its turn is called, wherever the clock reads a second after 0 |
| `TimerRuns.PassReschedules` | win_redis/redis-5.0.10/src/ae.c:347-361 | A called timer is due exactly the returned milliseconds after the clock reading, or deleted; a waiting one keeps its due time |
| `TimerRuns.PassCreates` | win_redis/redis-5.0.10/src/ae.c:231-251 | Every timer created during a pass is in the list after it with the exact due time, live unless deleted later in the pass, and was not visited |
| `TimerRuns.PassOutcome` | win_redis/redis-5.0.10/src/ae.c:293-365 | The exact state of every old timer after a pass: unlinked, rescheduled, marked or unchanged, from its own due time or second 0 after a setback |
| `TimerRuns.PassOrder` | win_redis/redis-5.0.10/src/ae.c:231-365 | After a pass: new timers in front, then the old ones in order without the finalised; keys stay unique |
| `TimerRuns.RunConserves` | win_redis/redis-5.0.10/src/ae.c:231-365 | Over every run every timer ever created is in the list or was finalised, counted with multiplicity |
| `TimerRuns.FinalisedOnce` | win_redis/redis-5.0.10/src/ae.c:318-336 | From a new loop: no timer is finalised twice, no finalised timer is in the list, and the counts add up to the next id |
| `TimerRuns.RunDead` | win_redis/redis-5.0.10/src/ae.c:253-264 | A deleted timer is never called again by any pass of any run |
| `TimerRuns.DeleteKills` | win_redis/redis-5.0.10/src/ae.c:253-264 | After deleting an id no live timer has it |
| `TimerRuns.PassDead` | win_redis/redis-5.0.10/src/ae.c:318-336 | The next pass unlinks a deleted timer without calling it |
| `TimerRuns.RunNormal` | win_redis/redis-5.0.10/src/ae.c:217-313 | Milliseconds stay in [0, 1000) through creation, rescheduling and the reset after clock skew, as long as no delay needs a borrow |
| `TimerRuns.CreateNormalIff` | win_redis/redis-5.0.10/src/ae.c:217-251 | Creation keeps all due times normal if and only if adding the delay needs no borrow |
| `TimerRuns.DelayNoBorrow` | win_redis/redis-5.0.10/src/ae.c:217-229 | A non-negative delay never needs one |
| `Timers.BorrowExample` | win_redis/redis-5.0.10/src/ae.c:217-229 | With a negative delay the earlier of two timers can come out later in the lexicographic order |
| `Timers.AddMillisecondsExact` | win_redis/redis-5.0.10/src/ae.c:217-229 | The due time is exactly that many milliseconds away for every delay, and normal if and only if the truncated remainder needs no borrow |
| `Timers.ReachedIsOrder` | win_redis/redis-5.0.10/src/ae.c:347-349 | The lexicographic comparison is the order of time |
| `Timers.WaitExact` | win_redis/redis-5.0.10/src/ae.c:414-424 | The poll timeval never exceeds the time left, and equals max(0, due - now) if and only if that is below 2^31 milliseconds, because of the cast to a 32-bit long |
| `Timers.WaitExample` | win_redis/redis-5.0.10/src/ae.c:414-420 | A delay of 2^31 ms gives a negative number of seconds |
| `Timers.WalkVisits` | win_redis/redis-5.0.10/src/ae.c:316-363 | The walk at any point: the state in which each remaining timer will be found |
| `Timers.ActAllFollows` | win_redis/redis-5.0.10/src/ae.c:231-264 | Any sequence of creations and deletions puts new timers in front and marks exactly the deleted ones |
| `EventLoops.EventLoop.CreateTimeEvent` | win_redis/redis-5.0.10/src/ae.c:231-251 | Prepends a linked node with the next id |
| `EventLoops.EventLoop.DeleteTimeEvent` | win_redis/redis-5.0.10/src/ae.c:253-264 | Marks the first node with the id and says whether there was one |
| `EventLoops.EventLoop.ProcessTimeEvents` | win_redis/redis-5.0.10/src/ae.c:293-365 | The walk over linked nodes, changed by callbacks under its feet, keeps them well linked, terminates and equals Pass; the result is the number of calls |
| `EventLoops.EventLoop.ProcessOne` | win_redis/redis-5.0.10/src/ae.c:318-363 | One turn of the walk equals Step and finds the right next node |
| `EventLoops.EventLoop.Finalise` | win_redis/redis-5.0.10/src/ae.c:322-336 | A deleted node is unlinked before its finalizer acts |
| `EventLoops.EventLoop.Call` | win_redis/redis-5.0.10/src/ae.c:347-362 | The callback acts, then its result reschedules or marks the node |
| `EventLoops.EventLoop.ResetAfterSkew` | win_redis/redis-5.0.10/src/ae.c:307-314 | Every second is kept if the clock did not go back, and set to 0 if it did |
| `EventLoops.EventLoop.SearchNearestTimer` | win_redis/redis-5.0.10/src/ae.c:277-290 | The first of the lexicographically least nodes |
| `EventLoops.NearestIsEarliest` | win_redis/redis-5.0.10/src/ae.c:277-290 | On normal due times that is the true minimum |
| `EventLoops.EventLoop.PollTimeout` | win_redis/redis-5.0.10/src/ae.c:400-436 | No wait, an endless wait, or the encoded time to the nearest timer, in exactly the cases of the code |
| `EventLoops.EventLoop.PollReached` | win_redis/redis-5.0.10/src/ae.c:400-436 | No oversleep in every loop reached from a new one by any such events: the wait is the encoded time to the earliest timer |

## Left out

- Responder.ModbusReply: hands back the words stored in front of the register table; whose memory that is in the C program is not modelled.
- Server.ServeTouches: excludes a request that stores words there, for the same reason.
- Server.ServeAllKeeps: excludes runs with such a request, for the same reason.
- EndToEnd.SessionRefines: requires 0/1 contents of the bit tables, which every run from a new mapping keeps; the quantity of a write is the length of its source, so negative write quantities are not modelled.
- LiveSession.Perform: the number of a link error is one constant, because the system chooses it.
- BackgroundJobs.Safety: models one job type with its mutex and conditions; what a job does is a value, and bioInit and bioKillThreads are not modelled.
- WsSocket.RoundTrip: payloads are below 2^63 bytes; the narrower size_t of 32-bit builds is not modelled.
- LinkedLists.Dup: the dup callback is a function that may fail; free callbacks and failing allocations are not modelled.
- EventLoops.EventLoop.CreateTimeEvent: failing allocation and the 64-bit limits of ids and seconds are not modelled.
- Raw requests, modbus_reply_exception and function 0x07, which the server does not implement.
- modbus_set_bits_from_byte, modbus_get_byte_from_bits and the float helpers: fixed shuffles that would add only easy members.
- Connecting, listening, serial port settings, time-out values, sleeping, link recovery, debug output and error texts of libmodbus.
- WebSocket URL parsing, the HTTP upgrade, reconnecting, and a callback that dispatches again from inside itself.
- File events, the multiplexing back ends and aeWait of the event loop.
- Halcon, Pylon, JUCE, WinForms, the Windows service and the other programs of the repository.
