# The serial link of libconbee

libconbee talks to a ConBee II Zigbee stick over a serial line.  Client threads build request
frames and enqueue them; one worker thread serialises queued frames onto the line with SLIP
framing and a checksum, and parses what the stick sends into frames that waiting clients pick
up by sequence number and command.  This project models that link and proves what it
guarantees: from the byte loops and the heap queue up to all interleavings of any number of
clients with the worker and the stick.

| file | content |
|---|---|
| `Bytes.dfy` | fixed-width integers and their little-endian images |
| `Checksum.dfy` | the frame checksum and exactly which changes it notices |
| `Slip.dfy` | the SLIP codec as functions: encoder, receiver, token reading, byte fold; round trips and resynchronisation |
| `SerialPort.dfy` | the transmit and receive loops over the serial port |
| `Frames.dfy` | frames as values: what the writer stores, what the reader makes of a packet |
| `FrameIo.dfy` | frame objects, the frame writer and the frame reader |
| `Parameters.dfy` | request builders and typed parameter values |
| `Queue.dfy` | the doubly linked queue on heap nodes, as written and repaired |
| `WaitScan.dfy` | the search a waiting client makes in the receive queue, as written and repaired |
| `Protocol.dfy` | clients, worker, stick and shared memory as a transition system |
| `Transmission.dfy` | all runs, sending: wake-up tokens, order, the wire |
| `Numbering.dfy` | all runs: sequence numbers, their owners, and which clients one frame could satisfy |
| `Reception.dfy` | all runs, receiving: conservation, order, payloads, valid checksums |
| `Calls.dfy` | undisturbed library calls and turns of the worker as runs; the worker receives whatever comes |
| `Origins.dfy` | all runs: whose frames are on the line, and for which call a frame is handed out |
| `Gate.dfy` | all runs: which clients can be handed the frame of a rejected packet |
| `Correlation.dfy` | all runs: whose answer can reach whom, with corrupted packets and unasked frames on the line |
| `Waiting.dfy` | all runs: exactly when a client sleeps although its frame is queued |
| `Device.dfy` | the device structure; its methods carry out the memory steps of the transition system |
| `Counting.dfy`, `Wrappers.dfy` | occurrences in sequences; the option type |

The three layers meet in two places.  The methods of `Devices.Device` work on the heap queues
and the serial port.  Each contract of an atomic section equates the new shared memory with
the corresponding step function of `Protocol`; what the composed calls make of the memory when
nothing interferes (enqueueing, one search, sending, receiving, blocking on the line) is what
the runs in `Calls` make of it.  And the histories the transition system keeps are tied to bytes
by the codec: what has been written decodes to the frames pushed, and what the stick has sent
decodes to the frames queued or delivered.

Where the code does not do what it is meant to, the project keeps the code as it is and says
exactly when it works:

- `conbee_queue_delete` updates neither the successor's `previous` nor the tail, and
  `conbee_queue_pop` leaves the new head's `previous` stale.  `Queue.Delete` and `Queue.Pop`
  are the code as written, with the exact condition under which the list survives;
  `DeleteRepaired` and `PopRepaired` add the missing updates.
- The inner loop of `conbee_wait_for_frame` never advances.  `ScanAsWrittenFinishesIff` gives
  the exact condition under which it ends; `TakeFirstMatch` and the transition system use the
  loop with the missing `item = item->next` and the repaired deletion.
- A client can sleep on while its frame is queued: between unlocking and sleeping it can miss
  the signal, and the one signal given can wake a client that waits for another frame.
  `Waiting.NeverStrandedIff` says exactly which runs are free of this, and
  `SignalCanBeMissed` and `WrongClientCanBeWoken` are runs of the two kinds.
- The worker ignores the result of `conbee_read_frame` and pushes the all-zero frame of a
  rejected packet.  `Gate.RejectedDeliveredIff` says exactly which clients can be handed it:
  those that wait for number 0 with command 0 or any.
- Numbers have eight bits, so an answer can reach a client that waits for another request.
  `Correlation.CanReachIff` says exactly whose answer can reach whom, and `Correlation.SafeIff`
  exactly what callers have to keep to get no answer but their own.
- `slip_receive_packet` keeps the result of `read_byte` in an unsigned variable and so never
  sees an error: on a disconnected port it does not return (`SerialPorts.ReceivePacket`).
- `conbee_read_frame` uses bytes outside the packet for packets of one byte, and for packets
  of two to four or six bytes that pass the checksum.  `Frames.ReadPacket` calls these outcomes
  undetermined; `Frames.Loaded` says which parts of the frame are still the packet's, and in
  the transition system the rest may be anything.
- The device-state, join and leave builders set a length field that cuts off their payload.

The documentation and the code disagree in two places, where the model follows the code:
`slip_transmit_packet` returns the result of the last byte written, not the number of bytes
sent, and `conbee_enqueue_frame` returns the sequence number, not 0 as include/conbee.h says.

## Model

| member | source | states |
|---|---|---|
| `Checksum.Crc16` | src/crc16.c:23-43 | the 16-bit accumulating loop and the bytewise recombination yield the negated byte sum modulo 65536 |
| `Checksum.AcceptedIff` | src/conbee.c:328-337 | a packet passes the check exactly when body sum plus little-endian trailer is 0 modulo 65536 |
| `Checksum.SealedIff` | src/conbee.c:292-294 | a body followed by two bytes passes exactly when these are its checksum |
| `Checksum.SingleByteChangeIsRejected` | src/conbee.c:328-337 | no change of one byte, in the body or the trailer, goes unnoticed |
| `Checksum.BodyChangeAcceptedIff` | src/crc16.c:29-40 | up to 257 changed body bytes pass exactly when the byte sum is unchanged |
| `Checksum.TwoHundredFiftyEightChangesCanPass` | src/crc16.c:29-40 | the bound is exact: 258 changes that alter the sum and pass |
| `Bytes.LeRoundTrip` | src/conbee.c:652-757 | copying an unsigned integer of any width to bytes and back gives the integer |
| `Bytes.ByteWeights` | src/conbee.c:652-757 | each further byte in memory weighs 256 times the one before it |
| `Bytes.LowByteFirst` | src/conbee.c:280-294 | the 16-bit form is that at width 2, with the lower byte first |
| `Slip.WireBytes` | src/slip.h:26-29 | the bytes of RFC 1055: what END, ESC and any other byte are sent as, and what any byte after ESC is received as |
| `Slip.ReceiveIffFirstPacket` | src/slip.c:115-180 | on any byte stream the receiver returns a packet exactly when the stream, read as END marks, escape pairs and plain bytes, starts with some ENDs, that data and an END; it consumes exactly these bytes |
| `Slip.ReceiveIsFeed` | src/slip.c:115-180 | one call of the receiver is the byte-by-byte fold up to its END, and a blocked call has completed nothing |
| `Slip.DecodeAllIsFeed` | src/slip.c:100-184 | repeated calls return what the fold over the whole stream completes |
| `Slip.FeedEncode` | src/slip.c:47-81 | one transmitted packet, met outside an escape pair, closes what was collected and is itself received |
| `Slip.StreamRoundTrip` | src/slip.c:37-184 | for any packets that fit the buffer, repeated reception of the transmitted stream gives the non-empty ones in order |
| `Slip.PacketRoundTrip` | src/slip.c:37-184 | one non-empty packet alone on the line is received in one call that leaves nothing behind |
| `Slip.EndOnlyAtEnds` | src/slip.c:47-81 | END is the first and the last byte of an encoding and occurs nowhere else |
| `Slip.EncodedLength` | src/slip.c:47-81 | the encoded length is n + 2 + the number of escaped bytes, at most 2n + 2 |
| `Slip.EncodingIsPrefixFree` | src/slip.c:47-81 | the encoding of a non-empty packet begins another's only if the packets are equal |
| `Slip.Resynchronises` | src/slip.c:47-47 | after any noise that does not stop inside an escape pair, a packet is received intact as the last one |
| `Slip.AtMostOneJunkPacket` | src/slip.c:127-138 | noise without END costs at most one junk packet |
| `Slip.ResynchronisesIff` | src/slip.c:144-177 | with room in the buffer the packet survives the noise if and only if the noise does not stop inside an escape pair |
| `SerialPorts.SerialPort.WriteByte` | src/conbee.c:202-220 | a byte reaches the stick, or -2 and nothing happens when disconnected |
| `SerialPorts.SerialPort.ReadByte` | src/conbee.c:233-251 | takes the next byte of the stick, in order, or reports that it blocks; -2, with the caller's byte untouched, when disconnected |
| `SerialPorts.TransmitPacket` | src/slip.c:37-84 | the loop puts exactly the encoding of the buffer on the line; disconnected, it sends nothing and returns the -2 of its last byte |
| `SerialPorts.ReceivePacket` | src/slip.c:100-184 | the loop returns exactly when the port is connected and the specification returns; it returns the size of the packet or of the buffer, whichever is smaller, and has stored that many bytes of the packet, left the rest of the line unread and the rest of the buffer untouched; disconnected, it fills the buffer with zeros and never returns |
| `Frames.RoundTripIff` | src/conbee.c:264-357 | for every frame the writer can serialise, reading back gives the same command, number, length, status 0 and the payload behind its length, if and only if the length field counts the bytes stored |
| `Frames.WireLayout` | src/conbee.c:272-294 | byte by byte what the writer stores of a frame, for which sizes it can be written, and that the packet adds up to 0 modulo 65536 |
| `Frames.ReadPacketIff` | src/conbee.c:323-352 | a packet of 2 to 1500 bytes is rejected exactly when it does not add up to 0 modulo 65536; of five, or at least seven, bytes it is read field by field |
| `Frames.StickRoundTrip` | src/conbee.c:312-357 | a frame of the stick with any status and up to 1493 bytes of payload is read as it is |
| `Frames.ReadBack` | src/conbee.c:339-352 | a packet with a whole header reads as that header and the part of the payload the length field covers |
| `Frames.LineRoundTrip` | src/conbee.c:264-357 | the same through SLIP and the reader's 1500-byte buffer |
| `FrameIo.ConbeeFrame.constructor` | src/conbee.c:551-563 | an initialised frame is all zero and has no payload |
| `FrameIo.StoreBody` | src/conbee.c:276-289 | the fields are laid out in the buffer byte by byte, little-endian, with status 0 |
| `FrameIo.Seal` | src/conbee.c:292-294 | the checksum of the first `length` bytes is stored behind them |
| `FrameIo.WriteFrame` | src/conbee.c:264-300 | the line gets the encoding of the serialised frame, or, if the length field covers bytes never stored, of a packet of that length that starts with the frame's body and passes the check; the frame's status becomes 0; -2 and no effect when disconnected |
| `FrameIo.LoadFrame` | src/conbee.c:339-352 | command, number, status and length come from the first five bytes of the buffer, the payload from the sixth byte of the packet up to its trailer; up to five bytes leave the payload alone, and six bytes make one of 65535 |
| `FrameIo.ReadFrame` | src/conbee.c:312-357 | on any line: it blocks exactly while the receiver does, and changes nothing; else one packet is taken, and result and frame are as `HasRead` says; -2 and no effect when disconnected |
| `FrameIo.ReadByBytes` | src/conbee.c:323-352 | what `HasRead` means: from two bytes on, -2 and the frame untouched exactly if body sum and trailer do not add up to 0 modulo 65536, else the size, and the packet's own command, number, status, length and payload as far as its bytes go |
| `Parameters.BuildFirmwareRequest` | src/conbee.c:596-606 | the version request |
| `Parameters.BuildReadParameterRequest` | src/conbee.c:615-628 | the fields set one by one, and the one allocated payload byte, make up the request for that parameter |
| `Parameters.BuildWriteParameterRequest` | src/conbee.c:746-761 | the fields set one by one and the filled payload make up the request for that parameter and value |
| `Parameters.RequestBytes` | src/conbee.c:596-962 | byte by byte, what each builder's request has stored in it: command, number, status 0, both length fields, parameter id or flags or state, and the value |
| `Parameters.BuildersWellFormedIff` | src/conbee.c:596-962 | every builder's frame can be written under every number, and its length field is right except for device state, join and leave |
| `Parameters.ShortLengthsLosePayload` | src/conbee.c:832-891 | what arrives of those three frames: the payload's length bytes and nothing of the payload |
| `Parameters.WriteParameterSizes` | src/conbee.c:746-761 | for every value size the length is 7 plus the payload, the packet takes 7 to 265 bytes and reads back |
| `Parameters.ReadParameterResponse` | src/conbee.c:638-733 | for every frame, 0 exactly if the payload is three bytes longer than the width, and then the number whose little-endian bytes are the payload from the fourth byte on; else -1 |
| `Parameters.TypedValueRoundTrip` | src/conbee.c:638-822 | a value of any width written as a parameter, serialised and read back: the frame has the write command, the number and status 0, and carries the value at its width for that parameter |
| `Parameters.ResponseRoundTrip` | src/conbee.c:638-733 | a response of the stick that carries a value, under any command, number, status and length field, is read back unchanged and carries the value |
| `Queues.Queue.constructor` | src/conbee-queue.c:27-29 | an initialised queue is empty |
| `Queues.Queue.Push` | src/conbee-queue.c:37-49 | appends one node and keeps the links, whichever of them were right |
| `Queues.Queue.Append` | src/conbee-queue.c:43-48 | the pointer updates of a push, in any state of the queue |
| `Queues.Queue.Unlink` | src/conbee-queue.c:83-90 | the pointer updates of a deletion, in any state of the queue |
| `Queues.Queue.Pop` | src/conbee-queue.c:58-71 | removes and returns the first element; the back links survive if and only if at most one element was queued |
| `Queues.Queue.Delete` | src/conbee-queue.c:81-92 | the forward chain skips exactly the given node; the whole list survives if and only if it was the only node |
| `Queues.Queue.PopRepaired` | src/conbee-queue.c:58-71 | with the missing update, the doubly linked list is kept |
| `Queues.Queue.DeleteRepaired` | src/conbee-queue.c:81-92 | with the two missing updates, exactly the given node goes, the order of the rest and the whole list are kept |
| `Queues.Replay` | src/conbee-queue.c:27-92 | any sequence of init, push, pop and delete on the repaired queue does what it does on a plain sequence |
| `Queues.ReplayAsWritten` | src/conbee-queue.c:27-71 | any sequence of init, push and pop as written is first-in first-out |
| `Queues.PushAfterDeletingTheLast` | src/conbee-queue.c:46-91 | counterexample: after deleting the last node as written, a pushed value is lost |
| `Queues.DeleteTwice` | src/conbee-queue.c:83-90 | counterexample: deleting two nodes from the front as written leaves the second queued |
| `WaitScan.FirstMatch` | src/conbee.c:1031-1051 | the first queued frame with the wanted number and command, or none exactly if there is none |
| `WaitScan.TakeFirstMatch` | src/conbee.c:1029-1051 | the repaired search, iteration by iteration the repaired loop, takes out exactly the first match and keeps the order of the rest |
| `WaitScan.RepairedScanFinishes` | src/conbee.c:1031-1051 | the repaired loop ends, with the first match |
| `WaitScan.ScanAsWrittenFinishesIff` | src/conbee.c:1031-1051 | the loop as written ends if and only if the queue is empty or its head matches |
| `Queues.Walk` | src/conbee.c:1029-1031 | following `next` from the head meets the contents in order |
| `Transmission.SendingHolds` | src/conbee-send-receive.c:48-114 | in every reachable state of any number of clients, every queued frame has its wake-up token, and what was pushed is what was written, what the worker holds and what is queued, in order |
| `Transmission.PopAfterTokenFindsAFrame` | src/conbee-send-receive.c:99-105 | the pop after a token never yields NULL |
| `Transmission.NoFrameStranded` | src/conbee.c:989-997 | with frames queued, no client between push and signal and an idle worker, the pipe is readable |
| `Transmission.WireDecodesToPushedFrames` | src/conbee-send-receive.c:94-111 | at every moment, also within a packet, the line decodes to the packets of the first pushed frames, in push order |
| `Transmission.WireReadsAsPushedFrames` | src/conbee.c:264-357 | and the i-th decoded packet reads as the i-th pushed frame if and only if that is well-formed |
| `Transmission.WorkerTurn` | src/conbee-send-receive.c:94-111 | from any reachable state with an idle worker, a quiet line and a readable pipe, one turn brings the first queued frame onto the line |
| `Transmission.WorkerDrains` | src/conbee-send-receive.c:48-114 | from any reachable state with an idle worker, a quiet line and no client between push and signal, the worker alone can bring every pushed frame onto the line, whole and in order |
| `Numbering.NumberingHolds` | src/conbee.c:977-1001 | in every reachable state: each number taken is in one client's hand or pushed once, requests and waiting clients carry their index modulo 256, each client pushes in order, and waits for no request but its own |
| `Numbering.PushesAreOrdered` | src/conbee.c:977-1001 | no request is pushed twice, a client's requests are pushed in order, and the n-th number taken is n modulo 256 |
| `Numbering.EveryNumberIsPushed` | src/conbee.c:977-1001 | once no client is between number and push, every number taken has been pushed |
| `Numbering.ConfusableIff` | src/conbee.c:1035-1046 | two clients wait for different requests, and one frame could satisfy both if and only if the requests are a multiple of 256 apart and the commands compatible |
| `Numbering.AtMostOneClientMatches` | src/conbee.c:1035-1046 | while the requests waited for lie within 256 consecutive numbers, no frame satisfies two clients waiting for their own requests |
| `Reception.ReceivingHolds` | src/conbee-send-receive.c:81-92 | in every reachable state: no byte of the stick is skipped, the bytes read decode to the packets whose frames were pushed, each arrival is queued or handed out once, and each client got the earliest arrival it asked for |
| `Reception.ArrivalsAreHandedOutOnce` | src/conbee.c:1025-1061 | the receive queue is in arrival order; every arrival is queued or handed to one client, never both or twice |
| `Reception.ArrivalsAreThePacketsSent` | src/conbee-send-receive.c:81-92 | the frames the worker pushed are those of the first packets in the stick's bytes, none skipped |
| `Reception.OnlyValidFramesAreDelivered` | src/conbee.c:328-352 | unless the client asked for number 0 with command 0 or any, a delivered packet of two or more bytes has a valid checksum and carries the number and command asked for; with five or at least seven bytes the whole frame is the packet's |
| `Reception.SentPacketsArrive` | src/conbee.c:312-357 | whatever packets the stick sends, the arrivals are these in order; one of 2 to 1500 bytes becomes a zero frame exactly by its checksum, and from seven bytes on else the frame with exactly its command, number, status, length and payload |
| `Reception.StickFramesArrive` | src/conbee.c:312-357 | frames of the stick with any status and up to 1493 bytes of payload arrive as they were sent |
| `Reception.SentFramesArrive` | src/conbee-send-receive.c:81-92 | if the stick sends the packets of the writer's frames, each well-formed one arrives with number, command, length and payload, and all of them once the line is empty |
| `Reception.ResponsesInArrivalOrder` | src/conbee.c:1029-1051 | frames wanted under the same number and command are handed out in arrival order |
| `Devices.Device.constructor` | src/conbee.c:123-152 | the shared state after connecting |
| `Devices.Device.TakeNumber` | src/conbee.c:981-984 | returns the counter and moves it on modulo 256 |
| `Devices.Device.PushToSend` | src/conbee.c:989-991 | the heap queue does the push step of the transition system |
| `Devices.Device.PushReceived` | src/conbee-send-receive.c:88-91 | the heap queue does the push step of the receive queue |
| `Devices.Device.PopToSend` | src/conbee-send-receive.c:102-104 | the heap queue does the pop step of the transition system |
| `Devices.Device.SearchReceived` | src/conbee.c:1029-1051 | the heap search does the search step of the transition system |
| `Devices.Device.EnqueueFrame` | src/conbee.c:977-1001 | undisturbed: the counter moves on modulo 256, the frame goes behind the queued ones under the old count, which is returned, and the pipe gets two bytes |
| `Devices.Device.SendTurn` | src/conbee-send-receive.c:94-111 | undisturbed: token, pop and the whole packet on the line |
| `Devices.Device.ReceiveTurn` | src/conbee-send-receive.c:81-92 | undisturbed, on any line: one packet read and its frame pushed, or still blocked and nothing changed |
| `Devices.Device.Turn` | src/conbee-send-receive.c:74-112 | a line with a whole packet loses that packet, and the frame read from it goes behind the received ones; on a quiet line with a readable pipe, two bytes of the pipe and the first queued frame go, and the line gets that frame's encoded packet; else nothing changes |
| `Calls.TurnIsARun` | src/conbee-send-receive.c:74-112 | whatever memory a turn of the device ends in is that of a run of the worker's own steps, in which one frame more has arrived, or one frame more is written, or neither |
| `Calls.ReceiveTurnIsARun` | src/conbee-send-receive.c:81-92 | a receiving turn is three steps of the worker; its packet becomes the last arrival and goes to the end of the queue |
| `Calls.BlockedTurnIsARun` | src/slip.c:115-124 | on a line with bytes but no whole packet the idle worker can only begin to read, which changes nothing, and then do nothing |
| `Calls.EnqueueIsARun` | src/conbee.c:977-1001 | the memory after the undisturbed call is that of three steps of one client |
| `Calls.WaitIsARun` | src/conbee.c:1018-1061 | the undisturbed call, for the number given or the client's own, and the command given, is a run of its client: the first match taken out and recorded, or asleep with nothing changed |
| `Calls.WorkerReceives` | src/conbee-send-receive.c:81-92 | from any reachable state with an idle worker, the worker alone can take every whole packet from the line, in order, with a frame pushed for each |
| `Calls.WhateverIsSentIsReceived` | src/slip.c:100-184 | any bytes can come at any time, and every whole packet they complete is then received |
| `Origins.WireCarriesGivenFrames` | src/conbee.c:977-1001 | the i-th packet on the line is that of a frame some client gave to its call, the one that took the n-th number, unchanged but for the number n modulo 256 |
| `Origins.DeliveredAsAsked` | src/conbee.c:1018-1061 | every frame handed out has the number and the command, unless 0xFF, that some call of that client's in the run has asked for |
| `Origins.WaitsForWhatItAsked` | src/conbee.c:1018-1061 | in every state of a run a waiting client waits for the number and command of its latest call |
| `Gate.RejectedDeliveredIff` | src/conbee.c:334-338 | some run hands a client that waits for this number and command the frame of a rejected packet, if and only if the number is 0 and the command 0 or any |
| `Correlation.ResponseReachesItsRequest` | src/conbee.c:1035-1046 | a frame handed to a client for its own request that carries the number of a pushed request less than 256 away answers that client's own request |
| `Correlation.SearchFindsIffQueued` | src/conbee.c:1029-1051 | with queued answers less than 256 numbers from the requests waited for, a client's search finds a frame if and only if its own answer with the wanted command, or a matching frame that answers no request, is queued, and it finds the first of these |
| `Correlation.EveryWaitGetsItsAnswer` | src/conbee.c:977-1061 | over whole runs, with corrupted packets and unasked frames on the line: if the stick answers only transmitted requests, none twice, and at most 256 numbers are taken from an awaited or uncollected request on, every client handed a frame for its own request is handed the answer to it or a frame that answers none; no two waits are handed the answer to the same request; no rejected packet's frame is handed out except for number 0 with command 0 or any |
| `Correlation.NamedCommandGetsItsAnswer` | src/conbee.c:1035-1046 | and if the client names a command other than 0 and any which no valid unasked frame has, it is handed its answer |
| `Correlation.SafeIff` | src/conbee.c:981-984 | with an honest stick no client is ever handed the answer to another request, whatever the run, if and only if the bound on numbers taken is at most 256 |
| `Correlation.CanReachIff` | src/conbee.c:1035-1046 | in some run with an honest stick a client waiting for its own request n is handed the answer to request m, if and only if m - n is a multiple of 256 |
| `Waiting.StrandsIffMisses` | src/conbee.c:1052-1061 | from a state where no client sleeps on a queued frame, a step leads to one where some client does if and only if it is a sleep with a match queued, or a push whose signal leaves another sleeping client it would satisfy |
| `Waiting.NeverStrandedIff` | src/conbee.c:1025-1061 | throughout a run no client sleeps on a queued frame if and only if no step of the run is such a miss |
| `Waiting.SignalWakesOne` | src/conbee-send-receive.c:88-91 | the signal moves exactly one sleeping client on to search again, if there is one |
| `Waiting.WakingRescues` | src/conbee.c:1025-1061 | a stranded client that is woken takes the first queued frame it waits for |
| `Waiting.SignalCanBeMissed` | src/conbee.c:1052-1061 | counterexample: pushed between a client's search and its sleep, a frame stays queued and the client asleep |
| `Waiting.WrongClientCanBeWoken` | src/conbee-send-receive.c:88-91 | counterexample: the signal wakes a client waiting for another number, and the right one sleeps on |

## Left out

- Opening and configuring the tty, and errors of `open`, `read`, `write` and `select` (src/conbee.c:45-158): the model starts connected, with an error-free line; `select` reports what is readable and its timeouts are not steps.
- `conbee_close` and the stop flag of the worker: frames still queued then are dropped.
- Liveness of waiting: the missed signal rules it out; spurious wake-ups are possible at any time.
- Frames in queues are values, not heap objects: a caller gives a frame away when it enqueues it, so a caller that keeps changing an enqueued frame is not modelled.
- Clients enqueue frames that fit the writer's buffer and whose length field covers only stored bytes, as all builders' frames do.
- Memory management: nodes and payloads are never freed, and the allocation size in `conbee_queue_push` is not modelled.
- FrameIo.WriteFrame: requires the frame and the checksum to fit the 1000-byte buffer, behind which the code would write; bytes sent beyond those stored are whatever the buffer held.
- Memory behind a packet or the reader's buffer: what `conbee_read_frame` reads there is any byte, and reading there does not fail.
- src/conbee-functions.c: request and response wrappers that add no protocol of their own.
- Status predicates, `conbee_get_version` and `conbee_device_state_response`: facts about single bytes.
- src/conbeectrl and libs/yaap: the command-line tool and its argument parser.
