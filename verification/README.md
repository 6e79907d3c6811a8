# Verification of the J1939 tool

A Dafny model of the protocol and data-handling code of the tool, and proofs of what that code is for. The widgets
are not part of it. `dafny verify dfyconfig.toml` checks the whole project.

## What is modelled

**Firmware update of a group of nodes** (`boot_update/`). One master sends a command, the file information, the file
in chunks of 256 bytes and a CRC request to a list of nodes over a bus that may lose, repeat, delay or forge responses.
It waits for every listed node at each step, sends again on timeout, and after a number of resends drops the silent
nodes and goes on with the others. `BootProtocol` is the master as a state and one function per event; `BootMaster` is
the same master as an object over arrays and a heap-allocated linked list (`UpdateNodes`), each method proved to do
what the function of its event says; `BootRuns`, `BootTheorems` and `BootProgress` prove what holds in every run, for any
list of events in any order, `BootTiming` when a poll acts, and `BootVerdicts` what becomes of the nodes' CRC results. A
run's log records the messages sent for the first time, the repetitions, and the responses that were accepted.

**The second group master** (`group_update/file_transfer_master.c`), in the same way: `FileTransferProtocol`,
`FileTransferMaster`, `FileTransferRuns` (every requested address is accounted for), `FileTransferReports` (who is never
reported), `FileTransferOffsets` (the offset that is written into the record of the step being left),
`FileTransferRecords` (what the node records say about the responses), `FileTransferDelivery` (the file arrives whole, and
runs end), `FileTransferProgress` (who is waited for), `FileTransferTiming` (when a poll acts), `FileTransferNotices` (what
the upper layer is told) and `FileTransferPasses` (runs built event by event, which show that the conditions are exact).
`TransferSteps`, `SessionPlan` and `NodeAnswers` hold what the two masters share: steps, timeouts, chunks, the order of the
messages, and which nodes have answered.

**Bit-level serialization** (`bytes/canard_dsdl.c`, section 3.7 of the UAVCAN Specification v1.0) and the messages built
on it (`msg_signals/msgdata.cpp`): `Bits`, `CanardDsdl`, `MsgData`.

**CRCs** (`bytes/crc32.cpp`, `bytes/modbus_crc.cpp`): `Crc32` and `ModbusCrc` define the CRC as division of the message bits by
the polynomial, one bit at a time, and prove that the table loops compute it, for all 256 entries of each table. The
32-bit parameters are those of Annex A of ISO/IEC 13818-1, the 16-bit ones those of section 6.2.2 of the MODBUS over
Serial Line Specification and Implementation Guide V1.02. `FileImage` is the loader that relies on the 32-bit CRC.

**Register access over J1939** (`comm/j1939_modbus_master.cpp`, `msg_signals/dataobj.cpp`): `Registers` and `ModbusMaster`;
the polling timer of `page/pagewidgetscollect.cpp`: `PollingWindows`; and both together: `PollingRead`.

**The bounded queue between threads** (`bytes/mthreadqueue.h`): `MThreadQueue`, as atomic steps of any number of producers
and consumers in any interleaving.

## Where the code does not do what it seems to promise

- The comment at `boot_update/boot_port.cpp:145` says that a file is padded with zeros. Only the length is rounded up;
  nothing is written. The padding is zero exactly when the buffer already was (`FileImage.PaddingZeroIff`), which after
  several loads into the zeroed buffer means that in each place of the padding the last file long enough to reach it had a
  zero, or none did (`FileImage.PaddingZeroOverLoads`); `FileImage.StalePadding` is an input that shows the other case.
- Responses can complete a step, and a session, only when the requested addresses are distinct: the node behind another
  one with its address is never marked (`BootProgress.CommandAnsweredIffDistinct`, `BootProgress.AnsweredThroughIffDistinct`).
- The jump is sent only with survivors exactly when the session was started with at least one address
  (`BootTheorems.JumpMeansSurvivorsIff`): without addresses every step counts as answered at the first response from
  anywhere, through the whole of any file. Only the master's own interface admits that input; both pages that start a
  session check that an address is chosen (`boot_update/frmbootloader.cpp:101`, `group_update/frmgroupupdate.cpp:103`).
- The firmware master ignores the result byte of a CRC response (`boot_update/boot_master.cpp:299-313`; the test is
  commented out). No such byte changes anything it does (`BootVerdicts.VerdictsIgnored`), and a session with any address,
  of any file, can end in the jump after nothing but bad results (`BootVerdicts.BadCrcJumps`). So in every run the jump
  means that the nodes left have reported a good CRC only when there was no address (`BootVerdicts.JumpJustifiedIff`).
- A start of the second master leaves the offset in the DATA record alone. If that is not 0, a timeout of the new first
  chunk drops every node, also those that acknowledged it, and aborts (`FileTransferOffsets.StaleStartAborts`). In all runs
  of a transfer the timeouts keep exactly those who answered if and only if the record was 0 at its start, or it has at
  most one address, or the file is empty (`FileTransferPasses.KeepsAnsweredIff`). The record is not 0 exactly when a data
  phase has got past its first chunk and no event has ended a data phase since (`FileTransferOffsets.RecordOpenIff`,
  `FileTransferPasses.HistoryKeepsAnsweredIff`): the next start may interrupt that phase
  (`FileTransferPasses.InterruptionDropsAnswered`), interrupt the command of a transfer that did
  (`SecondInterruptionDropsAnswered`), or begin from idle after such a transfer has given up (`IdleStartDropsAnswered`).
  Stop and start on the page (`group_update/frmgroupupdate.cpp:100-116` and `223-227`) are such a history, once or twice.
- In the second master every requested address ends up listed or reported except exactly when a listed node's bad CRC
  reply is not followed by a timeout that ends the step (`FileTransferReports.EveryoneReportedIff`); if that node was the
  last one the transfer ends as if it had succeeded (`FileTransferReports.BadReplyUnreported`). All runs of a transfer are
  free of this exactly when it has no address or no file (`FileTransferPasses.EveryoneKnownIff`).
- The message length is the sum of the signal lengths, rounded up to bytes. With disjoint signals, a signal comes back for
  every value exactly when it ends within that length (`MsgData.ComesBackIff`); a gap can push a signal past it
  (`MsgData.GapLosesSignal`), no gap never does (`MsgData.TilesFit`).
- The receiver of register responses runs the CRC over at most 256 bytes, one too few for 126 registers
  (`ModbusMaster.LargestResponse`); a registered object behind a two-register one that overlaps it is never served
  (`ModbusMaster.AllServedIff`).
- A full read queue drops requests, so a read of more than 12800 registers at once loses its tail
  (`ModbusMaster.EnqueuedPieces`).
- A two-register object 63 past the base of a polling window is read by half (`PollingWindows.PassCovers`).
- The fullness check of the queue is made outside the lock, so its length can exceed the maximum, by at most the number
  of producers less one, and that is reached (`MThreadQueue.QueueSafe`, `MThreadQueue.BoundReached`).

## Model

| member | source | states |
|---|---|---|
| `CanardDsdl.CopyBits` | bytes/canard_dsdl.c:87-157 | For any length and offsets that fit, on both paths: bit dst_off+i of the destination becomes bit src_off+i of the source for all i below the length, and every other bit is unchanged; the loop ends. |
| `CanardDsdl.CopyAligned` | bytes/canard_dsdl.c:94-114 | The byte-aligned branch (memcpy and a masked last byte) is the same bit copy. |
| `CanardDsdl.CopyStep` | bytes/canard_dsdl.c:125-154 | One turn of the unaligned loop copies at least one bit and no more than are left, and touches no other bit. |
| `CanardDsdl.ChunkBit` | bytes/canard_dsdl.c:131-150 | The shifted and masked byte of the unaligned loop holds the chosen source bits at their new places and the old bits elsewhere. |
| `CanardDsdl.GetBitCopySize` | bytes/canard_dsdl.c:75-83 | The copied length is the longest that the request, the value type and the rest of the buffer all allow. |
| `CanardDsdl.SetUxx` | bytes/canard_dsdl.c:170-189 | The low min(len, 64) bits of the value are stored at the offset; every other bit of the buffer stays. |
| `CanardDsdl.SetIxx` | bytes/canard_dsdl.c:191-197 | The same for the two's complement of a signed 64-bit value. |
| `CanardDsdl.GetUxx` | bytes/canard_dsdl.c:204-270 | The getters of width 8, 16, 32 and 64 return the min(len, width) bits at the offset, bits past the end of the buffer being zero. |
| `CanardDsdl.GetIxx` | bytes/canard_dsdl.c:272-306 | The signed getters return the two's complement reading of those bits; the sign extension neither loses nor adds anything. |
| `CanardDsdl.WriteFieldBit` | bytes/canard_dsdl.c:170-189 | Bit by bit, what the buffer holds after a set: the value's bits inside the field, the old bits outside. |
| `CanardDsdl.FieldRoundTrip` | bytes/canard_dsdl.c:170-270 | Reading the first m bits of a field of n written bits gives the value modulo two to the m. |
| `CanardDsdl.SignedRoundTrip` | bytes/canard_dsdl.c:191-306 | A signed value comes back unchanged from an n-bit field if and only if it fits n bits. |
| `CanardDsdl.FieldsIndependent` | bytes/canard_dsdl.c:170-270 | Writing a field leaves every disjoint field as it reads. |
| `CanardDsdl.ReadPastEnd` | bytes/canard_dsdl.c:71-83 | Reading past the end equals reading the buffer extended with zero bytes. |
| `CanardDsdl.ReadTruncated` | bytes/canard_dsdl.c:71-83 | Reading from a buffer that was cut keeps exactly the bits before the cut. |
| `MsgData.MsgData.EncodeSend` | msg_signals/msgdata.cpp:8-35 | All signals are written into the shared buffer in list order, and the payload is its first msg_len bytes. |
| `MsgData.MsgData.Decode` | msg_signals/msgdata.cpp:43-72 | Every signal's unsigned, signed and raw 32-bit value is the field of the payload at its start bit; typed values are not touched. |
| `MsgData.EncodeKeepsField` | msg_signals/msgdata.cpp:8-35 | With disjoint signals, each one survives all the writes after it, whatever the buffer held before. |
| `MsgData.ClippedRoundTrip` | msg_signals/msgdata.cpp:8-71 | For disjoint signals, gaps or not: a payload of any size gives back each signal modulo two to the number of its bits that were sent. |
| `MsgData.MessageRoundTrip` | msg_signals/msgdata.cpp:8-71 | With disjoint signals, one that ends within the payload comes back modulo two to its length, in any list order and over any old buffer contents. |
| `MsgData.ComesBackIff` | msg_signals/msgdata.cpp:8-71 | A signal comes back for every value if and only if it has no bits or ends within the payload, for disjoint signals and a payload of any size. |
| `MsgData.TilesFit` | msg_signals/msg_signals.cpp:85-99 | When signals leave no gap, every one of them ends within a payload of their lengths together, rounded up to bytes. |
| `MsgData.MsgBytesFit` | msg_signals/msg_signals.cpp:85-99 | The message length is the fewest bytes that hold the number of bits kept in 16 bits. |
| `MsgData.MsgData.constructor` | msg_signals/msg_signals.cpp:71-99 | The message length is the sum of the declared signal lengths, kept in 16 bits and rounded up to bytes. |
| `MsgData.LoadedTilesFit` | msg_signals/msg_signals.cpp:85-99 | In a loaded message of signals of 1 to 32 bits (32 for floats) that tile it, every signal ends within the payload. |
| `MsgData.Transfer` | msg_signals/msgdata.cpp:8-72 | From one message object to another with the same layout, message length as loaded: every signal of 1 to 32 bits that ends within the payload arrives, unsigned modulo two to its length, signed if and only if it fits, a float bit for bit. |
| `MsgData.SignedMessageRoundTrip` | msg_signals/msgdata.cpp:20-24 | Such a signal, signed, comes back if and only if its value fits its length. |
| `MsgData.GapLosesSignal` | msg_signals/msg_signals.cpp:85-99 | The input that shows the loss: the signal behind the gap ends past the message and decodes as zero. |
| `Crc32.TableEntry` | bytes/crc32.cpp:3-52 | Every entry of the 256-entry table is eight steps of division by 0x04C11DB7. |
| `Crc32.TableStepIsDivision` | bytes/crc32.cpp:73-74 | One table step equals feeding the eight bits of the byte, most significant first, to the division. |
| `Crc32.Direct8TableCrc` | bytes/crc32.cpp:68-76 | The byte-wise table loop equals bit-by-bit division of the whole message from 0xFFFFFFFF, for every length. |
| `Crc32.WordStep` | bytes/crc32.cpp:84-92 | One word of the word-wise loop equals feeding its four bytes in reverse order. |
| `Crc32.Direct32TableCrc` | bytes/crc32.cpp:78-95 | The word-wise loop equals the division, from 0xFFFFFFFF, of the bytes reversed within each word. |
| `Crc32.Crc32Cal` | bytes/crc32.cpp:97-100 | The entry point computes, from 0xFFFFFFFF, that division of the given part of the buffer. |
| `Crc32.EmptyWordCrc` | bytes/crc32.cpp:78-95 | Over no words the result is the start value 0xFFFFFFFF. |
| `Crc32.CheckValue` | bytes/crc32.cpp:68-76 | The byte-wise CRC of the digits 1 to 9 is the published check value 0x0376E6E7. |
| `Crc32.ZeroWord` | bytes/crc32.cpp:78-95 | The CRC of one word of zeros is 0xC704DD7B. |
| `Crc32.WordsReversedTwice` | bytes/crc32.cpp:84-88 | Reversing the bytes within each word is its own inverse, so no information is lost. |
| `Crc32.ShiftStepInjective` | bytes/crc32.cpp:73-74 | A division step never merges two register states. |
| `Crc32.DivisionInjective` | bytes/crc32.cpp:78-95 | Different register states stay different over any further message. |
| `Crc32.BurstBits` | bytes/crc32.cpp:78-95 | Two different windows of at most 32 bits in the same surroundings never lead to the same register. |
| `Crc32.BurstDetected` | bytes/crc32.cpp:78-95 | Two word sequences of equal length that differ only within 32 consecutive fed bits never have the same CRC. |
| `Crc32.AppendedCrc` | boot_update/boot_port.cpp:151-152 | One more word makes the result 0 if and only if it is the CRC of the words before it. |
| `ModbusCrc.TableEntry` | bytes/modbus_crc.cpp:33-61 | Every entry of the two 256-byte tables is a byte of eight steps of the reflected division by 0xA001. |
| `ModbusCrc.TableStepIsDivision` | bytes/modbus_crc.cpp:69-74 | One table step equals feeding the eight bits of the byte, least significant first. |
| `ModbusCrc.ModbusCrc16` | bytes/modbus_crc.cpp:63-76 | The table loop equals the bitwise reflected CRC from 0xFFFF, for every length. |
| `ModbusCrc.CheckValue` | bytes/modbus_crc.cpp:63-76 | The CRC of the digits 1 to 9 is the published check value 0x4B37. |
| `ModbusCrc.DivisionInjective` | bytes/modbus_crc.cpp:69-74 | Different register states stay different over any further message. |
| `ModbusCrc.AppendedCrc` | comm/j1939_modbus_master.cpp:110-112 | Two more bytes make the CRC of a frame 0 if and only if they are the CRC of what precedes them, low byte first. |
| `ModbusCrc.BurstDetected` | comm/j1939_modbus_master.cpp:164-168 | Two frames of equal length that differ only within 16 consecutive fed bits never have the same CRC. |
| `FileImage.ChunkLen` | boot_update/boot_port.cpp:194-205 | What is served never runs past the file, is empty only at or past its end, and is shorter than asked only when it reaches the end. |
| `FileImage.FileDataInfo.GetFileData` | boot_update/boot_port.cpp:189-208 | The served bytes of the file are copied to the front of the caller's buffer; the rest of that buffer stays. |
| `FileImage.FileDataInfo.LoadFile` | boot_update/boot_port.cpp:142-150 | After loading, the buffer starts with the file, keeps its old bytes behind it, and the length is the next multiple of four. |
| `FileImage.FileDataInfo.SetFile` | boot_update/boot_port.cpp:121-159 | Files below 516 bytes and unreadable ones change nothing and raise no warning; any other file stands at the front of the buffer, its length rounded up to words, and is warned about if and only if the CRC behind the header is not 0. |
| `FileImage.PaddingZeroIff` | boot_update/boot_port.cpp:145-150 | The loaded image is the file padded with zeros if and only if the buffer already held zeros there. |
| `FileImage.PaddingZeroOverLoads` | boot_update/boot_port.cpp:142-150 | After any sequence of loads into the zeroed buffer, the padding is zero if and only if in each of its places the last file that reached there had a zero, or none did. |
| `FileImage.StalePadding` | boot_update/boot_port.cpp:142-150 | The input that shows it: a file loaded after a longer one is padded with bytes of its predecessor. |
| `FileImage.AcceptedIffCrcMatches` | boot_update/boot_port.cpp:151-156 | No warning if and only if the last word is the CRC of the words between the header and it. |
| `FileImage.DamagedImageWarned` | boot_update/boot_port.cpp:151-156 | An accepted image damaged only within 32 consecutive fed bits is warned about. |
| `UpdateNodes.NodeList.Tail` | boot_update/rt_list_slist/rt_slist.h:43-49 | The walk along the next pointers ends at the last node. |
| `UpdateNodes.NodeList.Append` | boot_update/rt_list_slist/rt_slist.h:41-54 | The node is linked behind the last one; nothing else changes. |
| `UpdateNodes.NodeList.Predecessor` | boot_update/rt_list_slist/rt_slist.h:86-91 | The walk from the head stops at the node before the given one. |
| `UpdateNodes.NodeList.Remove` | boot_update/rt_list_slist/rt_slist.h:84-100 | Exactly the given node is unlinked; order and fields of the others stay. |
| `UpdateNodes.NodeList.IsEmpty` | boot_update/rt_list_slist/rt_slist.h:134-137 | True if and only if the list holds no node. |
| `UpdateNodes.NodeList.Clear` | boot_update/boot_update_node.cpp:8-22 | The list is empty afterwards. |
| `UpdateNodes.NodeList.AddNode` | boot_update/boot_update_node.cpp:24-38 | A new node with the address, step 0 and offset 0 stands at the end. |
| `UpdateNodes.NodeList.ListAll` | boot_update/boot_master.cpp:185-189 | The list becomes one fresh node per address, in order, whatever it held before. |
| `UpdateNodes.NodeList.SetNodeProcess` | boot_update/boot_update_node.cpp:40-54 | The first node with the address gets the step and offset; the list is otherwise as before. |
| `UpdateNodes.SetProcessAt` | boot_update/boot_update_node.cpp:45-53 | Node by node: only the first one with the address changes. |
| `UpdateNodes.NodeList.IsSame` | boot_update/boot_update_node.cpp:56-69 | True if and only if every listed node has the step and offset, which an empty list meets. |
| `UpdateNodes.NodeList.RemoveDiff` | boot_update/boot_update_node.cpp:71-93 | On a list of any length, exactly the nodes with the step and offset stay, in order and unchanged, although nodes are unlinked while the list is walked. |
| `UpdateNodes.NodeList.Visit` | boot_update/boot_update_node.cpp:77-91 | One turn of that loop: the part behind the current node is still linked as it was, the part before it is filtered. |
| `UpdateNodes.KeepAtIsFilter` | boot_update/boot_update_node.cpp:71-93 | A node value survives as often as it occurs if it matches, and never otherwise. |
| `UpdateNodes.KeepAtAll` | boot_update/boot_update_node.cpp:71-93 | Nothing is removed if and only if every node matches. |
| `UpdateNodes.NodeList.Exists` | boot_update/boot_update_node.cpp:95-107 | True if and only if some listed node has the address. |
| `UpdateNodes.NodeList.RemoveNode` | boot_update/boot_update_node.cpp:109-130 | The first node with the address is removed, if there is one. |
| `BootMaster.Master.SwitchStateMachine` | boot_update/boot_master.cpp:111-126 | Entering a step sets its offset, and restarts its clock and resend count unless it is the idle step. |
| `BootMaster.Master.MasterPoll` | boot_update/boot_master.cpp:100-109 | A poll has exactly the effect of the protocol's poll: nothing before the timeout, a repetition within the budget, otherwise the silent nodes go and the step is finished or the update fails. |
| `BootMaster.Master.GiveUpStep` | boot_update/boot_master.cpp:156-168 | When the resends are used up: exactly the nodes at the step and offset stay; with none left the update fails, otherwise the step's finish handler runs. |
| `BootMaster.Master.CmdRespondFinish` | boot_update/boot_master.cpp:204-208 | The whole new state and the message sent after the command step. |
| `BootMaster.Master.InfoRespondFinish` | boot_update/boot_master.cpp:210-226 | The same for the information step: first chunk, or the CRC request for an empty file. |
| `BootMaster.Master.FileDataRespondFinish` | boot_update/boot_master.cpp:228-244 | The same for the data step: next chunk, or the CRC request at the end of the file; the offset wraps at 32 bits. |
| `BootMaster.Master.CrcCheckRespondFinish` | boot_update/boot_master.cpp:246-252 | The same for the CRC step: idle, and the jump is sent. |
| `BootMaster.Master.RecvUpdateCmdRespond` | boot_update/boot_master.cpp:254-267 | A command response has exactly the effect of the protocol's event. |
| `BootMaster.Master.RecvFileInfoRespond` | boot_update/boot_master.cpp:269-282 | The same for an information response. |
| `BootMaster.Master.RecvFileDataRespond` | boot_update/boot_master.cpp:284-297 | The same for a data response; one with another offset marks nobody. |
| `BootMaster.Master.RecvCrcCheckRespond` | boot_update/boot_master.cpp:299-313 | The same for a CRC response, whose result byte is ignored. |
| `BootMaster.Master.UpdateStart` | boot_update/boot_master.cpp:183-202 | A start, from any state, has exactly the effect of the protocol's start. |
| `BootMaster.Master.Handle` | boot_update/boot_master.cpp:100-313 | Any event has exactly the effect of the protocol event on the object. |
| `BootMaster.Master.HandleAll` | boot_update/boot_master.cpp:100-313 | Any sequence of events leaves the object in the state the protocol run ends in. |
| `BootMaster.Master.Session` | boot_update/boot_master.cpp:196-313 | After a start of the object with an address and any events, its log repeats only outstanding messages, and once the CRC request is in it, its first-sent chunks are the loaded file. |
| `BootRuns.StartWaits` | boot_update/boot_master.cpp:196-202 | A start with at least one address establishes the session invariant on the command step. |
| `BootRuns.RespondKeeps` | boot_update/boot_master.cpp:254-313 | A response keeps the session invariant, drops nobody, and leaves the master where it is, moves it on by one message, or ends the session. |
| `BootRuns.PollKeeps` | boot_update/boot_master.cpp:142-181 | A poll keeps the session invariant, and its four possible outcomes are told apart by clock, budget and list. |
| `BootRuns.ApplyKeeps` | boot_update/boot_master.cpp:142-313 | Every event keeps the session invariant; an idle master ignores all of them. |
| `BootRuns.RunKeeps` | boot_update/boot_master.cpp:142-313 | So does every sequence of events. |
| `BootRuns.FinishChunk` | boot_update/boot_master.cpp:210-244 | Finishing a step of the data phase makes the next message of the plan outstanding: the chunk at the next offset, or the CRC request after the last one. |
| `BootTheorems.PayloadOfPlan` | boot_update/boot_master.cpp:210-244 | After any number of planned messages the chunks sent carry exactly the file up to the next offset. |
| `BootTheorems.Lockstep` | boot_update/boot_master.cpp:111-313 | In every waiting state of every run the list is non-empty, every listed node is at the current message or the one before, some node still owes the current one, and the step record agrees with the chunk being sent. |
| `BootTheorems.FileDelivered` | boot_update/boot_master.cpp:134-252 | Once the CRC request has been sent, the first-sent chunks concatenate to the whole file without gap or overlap; every repetition repeats the outstanding message. |
| `BootTheorems.SurvivorsAnswered` | boot_update/boot_master.cpp:254-313 | Every node still listed had an accepted response to each earlier message, with that message's step and offset, after the message was first sent and before the next one was. |
| `BootTheorems.EndsOneOfTwoWays` | boot_update/boot_master.cpp:156-168 | An ended run either sent the jump with survivors and no failure, or reported one failure with nobody left and no jump; a run that has not ended did neither. |
| `BootTheorems.EmptyListAdvances` | boot_update/boot_master.cpp:254-313 | With nobody listed, any response to the current step makes the next message outstanding, or the jump after the last one, for any file and step. |
| `BootTheorems.EmptyStartRunsThrough` | boot_update/boot_master.cpp:254-313 | A start without addresses, of any file, can be led to the jump by responses from one stranger, with no failure reported. |
| `BootTheorems.JumpMeansSurvivorsIff` | boot_update/boot_master.cpp:142-313 | In every run the jump is sent only with survivors, if and only if the session was started with at least one address. |
| `BootVerdicts.VerdictsIgnored` | boot_update/boot_master.cpp:299-313 | Two event sequences that differ only in the result bytes of CRC responses lead to the same state and log. |
| `BootVerdicts.BadCrcJumps` | boot_update/boot_master.cpp:299-313 | Every session with an address, repeated ones included, and any file can end in the jump with nobody having reported a good CRC. |
| `BootVerdicts.JumpJustifiedIff` | boot_update/boot_master.cpp:299-313 | In all runs the jump is sent only when every node left has reported a good CRC in the CRC step, if and only if the session was started without addresses. |
| `BootProgress.EventCosts` | boot_update/boot_master.cpp:12-24 | Each event pays for the timeout it is from two measures of what the session has left, which nothing increases. |
| `BootProgress.RunCosts` | boot_update/boot_master.cpp:142-181 | Over any sequence of events the timeouts are paid for by those measures. |
| `BootProgress.RunsEnd` | boot_update/boot_master.cpp:142-313 | A run contains at most 109 + 4c timeouts and at most 106 + 3c + n, for c chunks and n addresses; with that many it is idle. |
| `BootProgress.ResponseSettles` | boot_update/boot_master.cpp:254-313 | With distinct addresses a response settles its sender only, and moves the master on if and only if nobody else owes an answer. |
| `BootProgress.StaysWhileOwed` | boot_update/boot_master.cpp:254-313 | While an answer is owed and the budget lasts, any mixture of events leaves the master at its message with every node, and settles exactly those who answered. |
| `BootProgress.AdvancesWhenAllAnswered` | boot_update/boot_master.cpp:254-313 | The response that completes the set moves the master on, exactly once, with nobody dropped. |
| `BootProgress.TimeoutDropsOwing` | boot_update/boot_master.cpp:154-168 | The timeout after the last resend drops exactly the nodes that still owe their answer. |
| `BootTiming.PollsOnTime` | boot_update/boot_master.cpp:142-175 | On the 64-bit clock, backwards readings included, a poll does nothing if and only if less than 30 ms (command), 3 s (information) or 1 s (chunks, CRC check) have passed since the step's clock was set. |
| `BootTiming.EventClocked` | boot_update/boot_master.cpp:144-175 | Every event keeps the step's clock at the time a message was last put on the bus, and its count at the repetitions since the message was first sent. |
| `BootTiming.PollsInRun` | boot_update/boot_master.cpp:142-175 | In every run a poll does nothing until that long after a message was last put on the bus; then it repeats the message, 100 times for the command and three times for the others, and after that drops exactly the nodes not recorded with the step and sends the next message or reports the failure. |
| `BootProgress.RepeatedAddressBlocks` | boot_update/boot_update_node.cpp:45-53 | A node behind another one with the same address is never settled, so responses alone never end the step. |
| `BootProgress.CommandAnsweredIffDistinct` | boot_update/boot_master.cpp:254-267 | Responses alone can get a session past its command if and only if the addresses are distinct. |
| `BootProgress.AnsweredThroughIffDistinct` | boot_update/boot_master.cpp:254-313 | Responses alone can bring a session to the jump with every node still listed if and only if the addresses are distinct. |
| `BootProgress.RunKeepsDistinct` | boot_update/boot_update_node.cpp:40-93 | No sequence of events, timeouts included, gives two listed nodes the same address. |
| `FileTransferMaster.Master.SwitchStep` | group_update/file_transfer_master.c:50-55 | The offset goes into the record of the step being left; the clock and count of the entered step restart. |
| `FileTransferMaster.Master.Check` | group_update/file_transfer_master.c:57-74 | Every requested address that is no longer listed is reported once, in order, and struck out of the table; the others stay. |
| `FileTransferMaster.Master.CheckOne` | group_update/file_transfer_master.c:62-72 | The same for one entry; the invalid address is never looked up. |
| `FileTransferMaster.Master.Task` | group_update/file_transfer_master.c:82-127 | A poll has exactly the effect of the protocol's poll. |
| `FileTransferMaster.Master.GiveUpStep` | group_update/file_transfer_master.c:96-111 | When the resends are used up: filter, check, then abort with an empty list or finish the step. |
| `FileTransferMaster.Master.CmdRespondFinish` | group_update/file_transfer_master.c:129-137 | The whole new state and the message sent after the command step. |
| `FileTransferMaster.Master.InfoRespondFinish` | group_update/file_transfer_master.c:138-160 | The same for the information step; an empty file ends the transfer right after the CRC request. |
| `FileTransferMaster.Master.DataRespondFinish` | group_update/file_transfer_master.c:161-181 | The same for the data step; later chunks are sent without the unused part of the buffer. |
| `FileTransferMaster.Master.CrcCheckRespondFinish` | group_update/file_transfer_master.c:182-188 | The same for the CRC step. |
| `FileTransferMaster.Master.RecvUpdateCmdRespond` | group_update/file_transfer_master.c:190-208 | A start response has exactly the effect of the protocol's event, notification included. |
| `FileTransferMaster.Master.RecvFileInfoRespond` | group_update/file_transfer_master.c:210-226 | The same for an information response. |
| `FileTransferMaster.Master.RecvFileDataRespond` | group_update/file_transfer_master.c:228-245 | The same for a data response. |
| `FileTransferMaster.Master.RecvCrcCheckRespond` | group_update/file_transfer_master.c:247-274 | The same for a CRC response; a bad one removes its sender from the list and is notified as -3, a good one as 3. |
| `FileTransferMaster.Master.UpdateStart` | group_update/file_transfer_master.c:348-360 | A start, from any state, has exactly the effect of the protocol's start. |
| `FileTransferMaster.Master.Handle` | group_update/file_transfer_master.c:307-338 | Any event has exactly the effect of the protocol event on the object. |
| `FileTransferMaster.Master.HandleAll` | group_update/file_transfer_master.c:307-338 | Any sequence of events leaves the object in the state the protocol run ends in. |
| `FileTransferMaster.Master.Session` | group_update/file_transfer_master.c:307-360 | After a start of the object with distinct valid addresses and any events, every address is listed, reported or removed for a bad CRC, and none is reported twice. |
| `FileTransferRuns.StartConserves` | group_update/file_transfer_master.c:348-360 | After a start with distinct valid addresses every address is listed and unreported. |
| `FileTransferRuns.DropAndCheckKeeps` | group_update/file_transfer_master.c:96-100 | Dropping silent nodes and checking right away keeps the account and settles every address. |
| `FileTransferRuns.RunConserves` | group_update/file_transfer_master.c:82-274 | The account of every requested address holds after any sequence of events. |
| `FileTransferRuns.AddressesConserved` | group_update/file_transfer_master.c:57-127 | In every run the requested addresses are the disjoint union of the listed, the reported, and those removed for a bad CRC and not yet reported; no address is reported twice, and none that was not requested. |
| `FileTransferRuns.TimeoutSettles` | group_update/file_transfer_master.c:96-100 | After a timeout that ends a step every requested address is listed or has been reported exactly once. |
| `FileTransferRuns.AbortReportsEveryone` | group_update/file_transfer_master.c:101-105 | A transfer that is aborted has an empty list, and every requested address has been reported exactly once. |
| `FileTransferRuns.ReportsInOrder` | group_update/file_transfer_master.c:57-74 | A check reports in the order of the request table, and an entry exactly when it is not 0xFF and no longer listed. |
| `FileTransferOffsets.StartMirrorsIff` | group_update/file_transfer_master.c:348-360 | After a start the DATA record is in step with the transfer if and only if it was 0 before; otherwise it is stale by what it held. |
| `FileTransferOffsets.OffsetMirrored` | group_update/file_transfer_master.c:50-55 | In every history whose transfers are started only from idle, the DATA record holds the outstanding chunk's offset in the data step and 0 elsewhere. |
| `FileTransferOffsets.MirroredThroughoutIff` | group_update/file_transfer_master.c:50-55 | The record is in step before and after every action of a history if and only if no start in it interrupts a data phase past its first chunk. |
| `FileTransferOffsets.DataTimeoutKeepsAcked` | group_update/file_transfer_master.c:96-100 | With the record in step, the timeout of a chunk keeps exactly the nodes recorded with that chunk. |
| `FileTransferOffsets.StaleTimeoutDropsAll` | group_update/file_transfer_master.c:96-105 | With a stale record the same timeout drops everybody and aborts. |
| `FileTransferOffsets.StaleStartAborts` | group_update/file_transfer_master.c:348-360 | After a start with a record other than 0, whatever happens in between, a timeout of the new first chunk drops every node and aborts. |
| `FileTransferOffsets.RecordStep` | group_update/file_transfer_master.c:50-55 | The DATA record is written exactly when the data phase moves to a later chunk, with that offset, or ends, with 0; no start writes it. |
| `FileTransferOffsets.RecordOpenIff` | group_update/file_transfer_master.c:50-55 | After any history of starts and events from a record of 0, the record is not 0 if and only if some data phase got past its first chunk and no event has ended a data phase since. |
| `FileTransferRecords.MarkRecorded` | boot_update/boot_update_node.cpp:40-54 | An accepted response keeps node records and log in agreement. |
| `FileTransferRecords.RunRecorded` | group_update/file_transfer_master.c:82-274 | In every run, whatever offset the DATA record held at its start, a listed node is recorded with the outstanding message if and only if a response of it with that step and offset was accepted since the message was sent, and a master that waits has a node that has not answered. |
| `FileTransferRecords.TimeoutKeepsAnswered` | group_update/file_transfer_master.c:96-111 | In every run of a transfer that begins with the DATA record at 0, the timeout that ends a step keeps exactly the listed addresses whose response to the outstanding message was accepted since it was sent. |
| `FileTransferRecords.FewKeepAnswered` | group_update/file_transfer_master.c:96-111 | The same whatever the record held, for at most one address or an empty file. |
| `FileTransferPasses.ToCrc` | group_update/file_transfer_master.c:190-274 | From any start with addresses and a file, a list of events in which all nodes answer brings the transfer to its CRC step with every node. |
| `FileTransferPasses.StaleStartDrops` | group_update/file_transfer_master.c:348-360 | From any state with a record other than 0: a run of the next transfer, to any two addresses or more, in which a node has answered the first chunk and the timeout drops it with all the others. |
| `FileTransferPasses.KeepsAnsweredIff` | group_update/file_transfer_master.c:82-127 | In all runs of a transfer the timeouts that end a step keep exactly those who answered, if and only if the DATA record was 0 at its start, or there is at most one address, or the file is empty. |
| `FileTransferPasses.HistoryKeepsAnsweredIff` | group_update/file_transfer_master.c:50-55 | The same condition over the history before the transfer: no data phase that got past its first chunk is left without one ended by an event since. |
| `FileTransferPasses.InterruptionDropsAnswered` | group_update/file_transfer_master.c:348-360 | An input: a transfer is interrupted at its second chunk, and the new one drops a node that has answered. |
| `FileTransferPasses.SecondInterruptionDropsAnswered` | group_update/file_transfer_master.c:348-360 | An input: the interrupting transfer is replaced at its command, and the third one, which interrupts no data phase, drops a node that has answered. |
| `FileTransferPasses.IdleStartDropsAnswered` | group_update/file_transfer_master.c:348-360 | An input: the interrupting transfer gives up at its command, and one started from idle drops a node that has answered. |
| `FileTransferPasses.EveryoneKnownIff` | group_update/file_transfer_master.c:247-265 | In all runs of a transfer every requested address is listed or reported once, if and only if there is no address or no file. |
| `FileTransferDelivery.FileDelivered` | group_update/file_transfer_master.c:129-188 | In every run of every transfer, whatever it interrupts, the first-sent messages follow the plan, every repetition repeats the outstanding one, and once the CRC request has been sent the chunks concatenate to the whole file. |
| `FileTransferDelivery.Lockstep` | group_update/file_transfer_master.c:82-274 | While the master waits, every listed node is at the current message or the one before; with an address requested, the list is non-empty and some node owes an answer. |
| `FileTransferDelivery.RunsEnd` | group_update/file_transfer_master.c:82-127 | A run contains at most 109 + 4 * chunks timeouts, and at most 106 + 3 * chunks + nodes; when it contains as many it is over. |
| `FileTransferDelivery.EventDelivers` | group_update/file_transfer_master.c:82-274 | Every event keeps plan, lockstep and the owed answer, and a timeout is paid from both measures. |
| `FileTransferDelivery.PayloadOfPlan` | group_update/file_transfer_master.c:138-181 | After any number of planned messages the chunks sent carry exactly the file up to the next offset, though the first one is sent with the whole buffer. |
| `FileTransferTiming.PollsOnTime` | group_update/file_transfer_master.c:82-92 | On the 64-bit clock, backwards readings included, a poll does nothing if and only if less than 30 ms, 3 s or 1 s have passed since the step's clock was set. |
| `FileTransferTiming.EventClocked` | group_update/file_transfer_master.c:82-127 | Every event keeps the step's clock at the time a message was last put on the bus, and its count at the repetitions since the message was first sent. |
| `FileTransferTiming.PollsInRun` | group_update/file_transfer_master.c:82-127 | In every run a poll does nothing until that long after a message was last put on the bus; then it repeats the message, 100 times or three times, and after that drops exactly the nodes not recorded with the step, reports, and goes on or ends. |
| `FileTransferProgress.ResponseSettles` | group_update/file_transfer_master.c:190-274 | A response settles its sender exactly when it answers the outstanding message, a bad CRC reply takes its sender off the list, and the transfer goes on exactly when nobody owes an answer any more. |
| `FileTransferProgress.StaysWhileOwed` | group_update/file_transfer_master.c:190-274 | As long as an answer is owed and resends are left, the transfer keeps its message and every node that has not reported a bad CRC, whatever responses and timeouts come in whatever order. |
| `FileTransferProgress.AdvancesWhenAllSettled` | group_update/file_transfer_master.c:190-274 | The response that completes the set moves the transfer on by one message, or ends it, with nobody else dropped. |
| `FileTransferProgress.StartOwed` | group_update/file_transfer_master.c:348-360 | After a start to distinct addresses everybody is listed and owes an answer to the command. |
| `FileTransferNotices.ResponsesTold` | group_update/file_transfer_master.c:190-274 | In every run the upper layer is told of exactly the responses, in order: phases 0, 1 and 2 with the chunk's offset, and for the CRC 3 if and only if the response says 1, otherwise -3. |
| `FileTransferReports.PendingStep` | group_update/file_transfer_master.c:96-100 | One event leaves an address removed and unreported if and only if it is a bad CRC reply of a listed node, or there was one before and the event is not a timeout that ends a step. |
| `FileTransferReports.EveryoneReportedIff` | group_update/file_transfer_master.c:57-127 | In every run every requested address is listed or reported once, if and only if no bad CRC reply of a listed node is left without a later timeout that ends a step. |
| `FileTransferReports.EndSettlesIff` | group_update/file_transfer_master.c:247-265 | A response in the CRC step leaves nobody unreported if and only if nobody was and it is not a bad reply of a listed node. |
| `FileTransferReports.IdleReportsNobody` | group_update/file_transfer_master.c:57-61 | An idle master reports nobody, whatever events follow. |
| `FileTransferReports.BadReplyUnreported` | group_update/file_transfer_master.c:247-265 | The input that shows it: the last node's bad CRC reply ends the transfer like a success, and no later events report the node. |
| `Registers.DataObj.constructor` | msg_signals/dataobj.cpp:4-24 | The object occupies two registers if its type name contains 32, otherwise one, and both values start at the default. |
| `Registers.DataObj.RequestWriteReg` | msg_signals/dataobj.cpp:31-64 | The value is cut to the C type and remembered; the one or two registers sent are its low 16 bits, or its low and then its high 16 bits. |
| `Registers.DataObj.ReadFinish` | msg_signals/dataobj.cpp:70-91 | The delivered number is cut to the C type and remembered. |
| `Registers.ConvertedIff` | msg_signals/dataobj.cpp:31-62 | The conversion always lands in the range of the type, and leaves a value alone if and only if it was in that range. |
| `Registers.ConvertedCongruent` | msg_signals/dataobj.cpp:31-62 | The conversion never changes the low 32 bits of a 32-bit type, or the low 16 bits of any other. |
| `Registers.ValueRoundTrip` | msg_signals/dataobj.cpp:31-91 | What is written to the registers of an object and read back is the written value after the conversion, for all four types. |
| `Registers.ReadWord` | bytes/canard_dsdl.c:214-247 | A 16-bit field at a byte boundary is its two bytes, the first one low. |
| `Registers.PiecesCover` | comm/j1939_modbus_master.cpp:118-128 | The pieces of a request name every register once, in order, at most 64 at a time, addresses wrapping at 16 bits, in the fewest pieces possible. |
| `ModbusMaster.CommJ1939Db.Register` | comm/j1939_modbus_master.cpp:53-68 | The first registration of an address stays; a new address is added. |
| `ModbusMaster.CommJ1939Db.RequestReadReg` | comm/j1939_modbus_master.cpp:118-128 | The pieces are offered to the read queue one after the other. |
| `ModbusMaster.EnqueuedPieces` | bytes/mthreadqueue.h:25-34 | Of the pieces offered, exactly as many are queued, in order, as there is room for among 200. |
| `ModbusMaster.ReadRequestCovers` | comm/j1939_modbus_master.cpp:118-128 | On an empty queue a request of up to 12800 registers is queued whole, without gap or overlap. |
| `ModbusMaster.CommJ1939Db.RequestDstWriteReg` | comm/j1939_modbus_master.cpp:85-94 | The frame is address and value, both low byte first. |
| `ModbusMaster.CommJ1939Db.FillWriteBuff` | comm/j1939_modbus_master.cpp:98-108 | The static buffer holds address, count and big-endian data. |
| `ModbusMaster.CommJ1939Db.RequestDstWriteMulReg` | comm/j1939_modbus_master.cpp:96-116 | The frame sent is that body and its CRC, whatever the static buffer held before. |
| `ModbusMaster.CommJ1939Db.RequestWriteReg` | comm/j1939_modbus_master.cpp:129-153 | One register goes out as one frame of function 0x0600 with four bytes; any other number n in (n + 63) / 64 frames of function 0x1000, whose address, count and data are given byte by byte. |
| `ModbusMaster.WrittenOnWire` | comm/j1939_modbus_master.cpp:85-153 | The same of the frames of any write request: functions, bytes, number of frames, and a closing CRC. |
| `ModbusMaster.MulFrameChecks` | comm/j1939_modbus_master.cpp:109-112 | Every frame that writes several registers has CRC 0 over its whole length. |
| `ModbusMaster.MulFrameRegisters` | comm/j1939_modbus_master.cpp:96-112 | Reading such a frame by its header gives exactly the registers it was built from, at their addresses. |
| `ModbusMaster.WrittenPlacesAll` | comm/j1939_modbus_master.cpp:129-153 | A device that obeys all the frames of a write request ends up with exactly the given registers, in order, for any number of them. |
| `ModbusMaster.WrittenFramesCheck` | comm/j1939_modbus_master.cpp:137-151 | Every piece of a split write passes the CRC check and stays within the buffer. |
| `ModbusMaster.CommJ1939Db.RecvReadRegHandle` | comm/j1939_modbus_master.cpp:155-205 | A response that fails the check delivers nothing; any other delivers what the decode loop stops at, in order. |
| `ModbusMaster.CommJ1939Db.DeliverOne` | comm/j1939_modbus_master.cpp:171-194 | One turn of the decode loop: the value handed out, and whether one extra index is skipped. |
| `ModbusMaster.DeliveredIndices` | comm/j1939_modbus_master.cpp:169-195 | What is handed out is one value for each registered index that is not directly behind a served two-register object, in ascending order. |
| `ModbusMaster.DeliveryOnWire` | comm/j1939_modbus_master.cpp:169-195 | The address and value of a delivery in terms of the bytes received: registers high byte first, two of them low word first, bytes past the data as 0. |
| `ModbusMaster.AllServedIff` | comm/j1939_modbus_master.cpp:181-191 | Every registered object in a response is served if and only if no two-register object overlaps the next one. |
| `ModbusMaster.EachServedOnce` | comm/j1939_modbus_master.cpp:169-195 | Without overlap every registered index is served exactly once. |
| `ModbusMaster.CarriedRegister` | comm/j1939_modbus_master.cpp:176-187 | A data register of the response reads as the register that was put on the wire; past the data it reads as 0. |
| `ModbusMaster.RegisterRoundTrip` | comm/j1939_modbus_master.cpp:155-195 | An object wholly inside a response whose data are the written registers is served exactly once, with the value written after the C conversion. |
| `ModbusMaster.HalfInside` | comm/j1939_modbus_master.cpp:181-191 | A two-register object on the last register of the data gets its upper half as zero. |
| `ModbusMaster.AcceptedIffClosed` | comm/j1939_modbus_master.cpp:162-168 | Up to 125 registers, a response is accepted if and only if its CRC stands directly behind its data. |
| `ModbusMaster.LargestResponse` | comm/j1939_modbus_master.cpp:162-168 | With 126 registers a correctly closed response is accepted if and only if its last CRC byte is 0. |
| `ModbusMaster.DamagedResponseRejected` | comm/j1939_modbus_master.cpp:162-168 | Damage to the checked part of an accepted response, confined to 16 consecutive bits and sparing the length byte, is always rejected. |
| `PollingWindows.PageWidgetsCollect.AutoReadTimeout` | page/pagewidgetscollect.cpp:52-93 | When the timer does nothing, stops, or emits the windows of one pass, from which entry, and where the index is left. |
| `PollingWindows.PageWidgetsCollect.RequestOne` | page/pagewidgetscollect.cpp:71-92 | The inner loop takes the entries up to the first one 64 or more registers away and requests up to the end of the last one taken. |
| `PollingWindows.GroupOfAscending` | page/pagewidgetscollect.cpp:78-90 | On an ascending list the window contains every entry taken, and all later entries begin 64 or more past its base. |
| `PollingWindows.PassSeparate` | page/pagewidgetscollect.cpp:71-92 | The windows of a pass are disjoint, 1 to 64 registers long, and each begins at an entry. |
| `PollingWindows.PassCovers` | page/pagewidgetscollect.cpp:71-92 | Every entry begins in exactly one window, and is read whole if and only if it is not a two-register entry 63 past the window's base. |
| `PollingWindows.PassTight` | page/pagewidgetscollect.cpp:71-92 | No window asks for more than its entries: it ends with the last entry that begins in it, or after 64 registers. |
| `PollingWindows.PassFewest` | page/pagewidgetscollect.cpp:71-92 | No set of windows of at most 64 registers that covers all start addresses is smaller than the pass. |
| `PollingRead.WindowServes` | comm/j1939_modbus_master.cpp:155-195 | The answered window that contains an object's address gives it its registers once, the second one only if the window reaches that far. |
| `PollingRead.PassServes` | page/pagewidgetscollect.cpp:71-92 | When every window of a pass is answered, each entry is served exactly once, whole unless it is a two-register entry 63 past its window's base. |
| `PollingRead.PassRoundTrip` | page/pagewidgetscollect.cpp:71-92 | So an object that was written, and is whole in its window, reads the written value after the C conversion. |
| `PollingRead.PassDelivers` | page/pagewidgetscollect.cpp:71-92 | All the deliveries of an answered pass, put together, contain each entry exactly once, whole unless it is a two-register entry 63 past its window's base. |
| `PollingRead.ReadPass` | page/pagewidgetscollect.cpp:52-93 | The objects together: a turn of the timer queues one read request for each window, as far as there is room, and with an answer to each window every entry is delivered exactly once. |
| `MThreadQueue.ProducerStepKeeps` | bytes/mthreadqueue.h:25-34 | Every atomic step of a producer keeps the queue invariant. |
| `MThreadQueue.ConsumerStepKeeps` | bytes/mthreadqueue.h:37-47 | Every atomic step of a consumer keeps it, and none ever takes from an empty queue. |
| `MThreadQueue.QueueSafe` | bytes/mthreadqueue.h:25-58 | After any interleaving of P producers and any consumers: tokens, consumers on their way and the owed release add up to the length, the length is at most max_size + P - 1, and values leave in the order they came, none lost. |
| `MThreadQueue.TokenMeansValue` | bytes/mthreadqueue.h:39-44 | A consumer that holds a token finds a value. |
| `MThreadQueue.SomebodyMoves` | bytes/mthreadqueue.h:25-47 | Unless every thread is outside its call, some thread inside can take a step: there is no deadlock. |
| `MThreadQueue.OutsideTheLock` | bytes/mthreadqueue.h:25-47 | Whoever holds the lock, a producer passes the length check and a consumer takes a token; going on from there is possible exactly when the lock is free. |
| `MThreadQueue.BoundReached` | bytes/mthreadqueue.h:27-32 | Some interleaving makes the queue exactly max_size + P - 1 long. |
| `MThreadQueue.EnqueueAlone` | bytes/mthreadqueue.h:25-34 | An undisturbed call of enqueue appends the value and releases one token, or does nothing when the queue is full. |
| `MThreadQueue.DequeueAlone` | bytes/mthreadqueue.h:37-47 | An undisturbed call of dequeue takes the oldest value and one token, or does nothing when the queue is empty. |
| `MThreadQueue.ThreadSafeQueue.Enqueue` | bytes/mthreadqueue.h:25-34 | The object's method when no other thread is inside: the value goes to the end unless the queue is full. |
| `MThreadQueue.ThreadSafeQueue.Dequeue` | bytes/mthreadqueue.h:37-47 | The object's method when no other thread is inside: the oldest value is taken, or none. |

## Left out

- Widgets, dialogs, pages other than the polling timer, configuration files and the main window: user interface and file formats.
- CAN drivers, sockets and the J1939 transport: sending is appending to a log, receiving is an event. The transport library is not part of this model.
- `boot_port_reset`, `enter_boot`, `enter_app`, `app_info_request`: during a run the first rebuilds the node list without switching the step; the others only send.
- The step `BOOT_MASTER_WAIT_JUMP_APP` and the heartbeat handlers: no transition reaches the one, the others are empty.
- The clock: each event carries one reading for the timeout check and one for everything after it; the code reads it again at each step entry.
- `update_process`, and 16-bit floats: hardware floating point. A 32-bit float signal is its bit pattern.
- `file_master_check_crc_request` and `file_master_send_update_cmd` outside a start (`group_update/file_transfer_master.c:339-346`, `364-368`): the page's reset and handshake buttons, which stay enabled, can call them during a transfer; they replace the outstanding message, so the next timeout repeats another one than the step waits for.
- PollingRead.ReadPass: takes an answer to every window, also to those a full queue drops; responses that are lost deliver nothing, as `ModbusMaster.CommJ1939Db.RecvReadRegHandle` states.
- Failing memory allocation and freeing: nodes are allocated without fail and unlinked nodes are forgotten.
- Intrusive list nodes: the node a list links and the record around it are one object.
- Padding of structs in memory: byte layouts are those of packed little-endian structs, which the code assumes.
- `canardDSDLSetBit`, `canardDSDLGetBit`: one-bit cases of the functions that are modelled.
- Widths of sizes and offsets: bit offsets and lengths are unbounded, `size_t` overflow is not modelled.
- Conversions of text and `QVariant` to a number: a typed value is a number.
- An empty list of registers to write: the code takes the address of its first element, which is never read.
- Several source addresses: the register map's key is narrowed to 16 bits, so one address is modelled.
- The thread that sends queued read requests one at a time, and the signals for other listeners.
- Data races on the unlocked length check of the queue: the read is taken to be atomic.
- Changes of the queue's maximum while threads are running, and the timeout of a waiting consumer, which takes no step.
- FileImage.FileDataInfo.SetFile: takes files that fit the buffer; the code reads any length into its 1 MiB buffer without a bound, and what a longer file overwrites is not modelled.
- FileImage.FileDataInfo.LoadFile: takes files that fit the buffer, for the same reason.
- FileTransferMaster.Master.UpdateStart: takes at most 32 addresses, as many as the command struct and the request table hold; the code does not check the count in it.
- FileTransferMaster.Master.Session: takes at most 32 addresses, for the same reason.
- Registers.DataObj.RequestWriteReg: leaves out type names that contain 32 and are neither 32-bit type; their write copies memory behind a 16-bit variable.
- ModbusMaster.CommJ1939Db.FillWriteBuff: takes at most 123 registers; beyond that data or CRC would run past the static buffer. The splitting caller never passes more than 64.
- ModbusMaster.CommJ1939Db.RequestDstWriteMulReg: takes at most 123 registers, for the same reason.
- MThreadQueue.ThreadSafeQueue.Enqueue: one call with no other thread inside; what interleaved calls do is stated by `MThreadQueue.QueueSafe`.
- MThreadQueue.ThreadSafeQueue.Dequeue: the same.
- FileImage.StalePadding: shows one pair of file lengths; the exact conditions are `FileImage.PaddingZeroIff` and `FileImage.PaddingZeroOverLoads`.
- MsgData.GapLosesSignal: shows one message; the exact condition is `MsgData.ComesBackIff`.
