# HUB host stack: a verified model

The HUB host stack talks to an FPGA device (a GARD) that recognises faces. It has five parts, and this project
models the code of each of them and proves what it does:

1. **The byte protocol between HUB and GARD** (`UartBus`, `Hub`, `RequestStateMachine`, `GardPoller`, `GardTraffic`,
   `Discovery`). The chunked UART read loop; the fall-through state machine that carries out one request; the polled
   receiver with its sync handshake, 24-bit length and peek; runs of requests and polls on one line; the grouping of the
   responding busses into GARDs and the choice of a bus for each.
2. **The circulation of metadata buffers** (`BufferFifo`, `BufferRing`, `BufferCirculation`). KtLib's FIFO is a linked
   list inside the buffers themselves, the application's queue is a ring, and every report swaps one buffer each way.
3. **The metadata** (`MetadataLayout`, `MetadataHandling`, `MetadataStream`). The packed binary layout and the handler's
   address arithmetic; the split into identified and unidentified users; and the whole way from frames on the wire to
   reports made.
4. **The command mailbox, the profile database and the wire to the client** (`Mailbox`, `FaceDatabase`, `ProfileWire`).
   Two threads share one request cell; a table of profiles prints itself and reads itself back; a C server and a Python
   client must agree byte for byte.
5. **The viewer** (`FaceStream`, `FrameSnapshot`, `PaletteAllocator`) and the fixed-point conversion (`FixedPoint`).

Code that changes things step by step is modelled by classes, arrays and loops; each method is proved against a
function of its inputs or of the old state, and the main results are lemmas about these functions. The bus is an input
line, an output line and a sequence of *grants* that decides how many bytes each transfer moves; theorems hold for all
grants unless they say otherwise. Threads are state machines whose atomic steps are the critical sections, and theorems
hold for all interleavings.

## What the code does differently from what it promises

The code is modelled as it is. Where a promise does not hold, there is a lemma with an input that shows it and, as far as it
goes, the exact condition under which it holds.

- **A foreign answer is accepted.** The design (`src/hub/hub_req_resp_sm.c:33-40`) lets the bytes received decide; line 128
  compares the request instead. The code follows the design on every bus exactly for the requests that have nothing to
  validate. `RoutedByTheAnswerIff`, `ForeignAnswerIsAccepted`.
- **A request can leave the GARD deaf.** `command_execution` is cleared in COMPLETE only. On a line that limits nothing this
  is missed exactly if the line holds too short an answer or one that asks for the data, or if the request is not its own
  validation; from then on no poll delivers anything until a later request is answered. Over any run of requests and polls
  the last request's line decides. `GardStaysBusyIff`, `GardIsDeafIff`, `LastRequestDecides`, `SilentUntilAnswered`,
  `AnsweredRequestIsHeard`, `SentDataLeavesTheGardBusy`.
- **A short frame swallows its followers.** A frame of one to three bytes makes the remaining count wrap around to almost
  2^32, and the line behind it is read away (`src/hub/hub_gard_cmds.c:250-258`). The followers of a frame are left on the
  line exactly if it is empty or has four bytes or more; of one that cannot be delivered, everything behind the peek is
  left in front of them, and is overcome poll by poll if it holds no sync. `FollowersSurviveIff`, `FrameLeavesBehind`,
  `ShortFrameSwallowsItsFollowers`, `JunkIsSkipped`, `UndeliverableFrameIsOvercome`.
- **The verdict on a QR image is inverted** (`src/KtLib/Kt_Dispatcher.c:187-190`): a handler's result reaches the HUB as it is
  exactly if the payload is metadata. `VerdictIsPassedOnIff`.
- **Bus lists are written out of bounds.** `src/hub/hub_gard_cmds.c:372` indexes a GARD's bus list by the device number
  `k`, although `cnt` counts the matches. All writes are in bounds if and only if the responding busses come first and all
  lead to one GARD. The same loop indexed by the count is proved beside it: it groups right for all answers, and bring-up
  succeeds exactly if every GARD has a UART. `IndicesFitIffSingleLeadingGroup`, `TwoGardsDoNotFit`, `RecordBusses`,
  `BringUp`.
- **Unidentified users can carry foreign ids.** `src/KtLib/Kt_MetadataHandling.c:233` zeroes the slot numbered by the
  identified count, so the other slots keep the ids that the buffer held before, all but the first, which unlinking the
  buffer zeroed. The ids of a frame are right in every buffer from the FIFO exactly if each of its unidentified users is in
  one of these two slots or is the ideal one. `IdsAreRightInEveryBufferIff`, `UnidentifiedIdsAreZeroIff`,
  `UnknownReportedUnderAnotherId`.
- **Faces that do not fit are not dropped.** `src/interface/Kt_Lib.h:172-175` and `191-195` promise it; the loops do not look
  at the size of the buffer. Every write is inside exactly if the identified users fit and, when there are unidentified
  ones, these fit and a slot is free behind the identified. `FillIdentified`, `FillUnidentified`, `CapacityOfABuffer`.
- **Buffers start out in two places.** `src/apps/kt_app/kt_common/kt_app_main.c:187` hands all ten buffers to KtLib while
  the ring still offers nine of them. The first frame with users repairs this, because linking a buffer a second time cuts
  the list off behind it: the FIFO is then left with one buffer, and none is lost. Over any run the buffers are in
  circulation exactly if they were at first or some frame had users. `DoubledIsNotCirculating`, `ReportKeepsTheBuffers`,
  `ServeFrames`.
- **A missing callback loses buffers.** `HandleReceivedMetadata` keeps the pool if and only if the callback for the last
  group of the frame is set.
- **A full table refuses a known profile.** `src/apps/kt_app/kt_common/kt_app_face_db.c:103` promises to overwrite it;
  line 117 rejects it first. `FullTableRefusesAKnownProfile`, `AddedKeepsIdsUnique`.
- **Some names do not survive the file.** The table is read back as it was if and only if no name is empty or holds a line
  break; an empty name loses every profile behind it. `ReloadedIffClean`, `EmptyNameLosesTheRest`.
- **A request behind a generation is lost**, since GENERATE is not waited for. Over any run, every request is executed
  exactly once and in order if and only if each of them finds the pending flag clear when it is sent.
  `RequestBehindGenerationIsLost`, `OnceInOrderIff`, `AsManyLostAsLate`.
- **Two unknown faces in one cell flicker.** `src/apps/kt_viz/app.py:452` says that they may share a colour; the code keeps
  them apart and forgets the key's index, so they swap colours with every frame. `TableIsKeptIff`, `TwoInOneCellFlicker`.
- **The viewer shows only the unidentified of a mixed camera frame.** The two callbacks send two reports, and the viewer
  takes each for a frame. `LastReportIsCompleteIff`.
- **A fresh report can be wiped**, since the clearer looks at the time before it takes the lock, and the listener notes the
  time only after it has released it. A report stays until its own time-out exactly if no verdict is pending when it is put
  up and none is taken against the old time before the new one is noted. `ReportStaysIff`, `FreshReportIsWiped`.
- **Time-outs of select are not counted** (`src/apps/os/dal_uart_ops.c:215`), so a read waits for as long as only those come:
  it ends exactly if an error or three empty reads in a row end it, or enough bytes are offered. `TimeoutsAreInvisible`,
  `ReadEndsIff`.

## Model

| member | source | states |
|---|---|---|
| Bytes.DecodeEncoded | src/interface/hmi_metadata_iface.h:219-257 | the little-endian layout of a number that fits is read back as that number |
| Bytes.EncodeDecoded | src/hub/hub_gard_cmds.c:194-200 | every byte string denotes a number that fits, and is the encoding of that number |
| Bytes.LowByteFirst | src/hub/hub_gard_cmds.c:194-200 | a string of three or four bytes denotes their sum with the lowest byte first |
| UartBus.UartRead | src/apps/os/dal_uart_ops.c:166-245 | the chunked loop ends as the fold over the events of select and read says, with exactly the bytes counted in the buffer and nothing else touched |
| UartBus.TimeoutsAreInvisible | src/apps/os/dal_uart_ops.c:206-242 | removing every time-out from any run of events changes nothing: time-outs bound neither the bytes nor the retries |
| UartBus.ReadEndsIff | src/apps/os/dal_uart_ops.c:195-245 | the read comes back if and only if an error or three empty reads in a row end it or enough bytes are offered |
| UartBus.BenignIff | src/apps/os/dal_uart_ops.c:206-242 | time-outs apart, a run of events lets the read go on if and only if each announces data and no three in a row bring none |
| UartBus.OneChunk | src/apps/os/dal_uart_ops.c:195-205 | however much is announced, one read takes no more than 64 bytes |
| UartBus.BenignReadIsNeverShort | src/apps/os/dal_uart_ops.c:195-245 | without errors, and without three empty reads in a row, the read returns all bytes as soon as they are offered and is still waiting before |
| UartBus.UartReadIsABusTransfer | src/apps/os/dal_device_ops.c:110-142 | a finished UART read is one transfer of the bus that the protocol sees, granted the number of bytes that arrived |
| UartBus.Bus.Read | src/apps/os/dal_device_ops.c:110-142 | a read takes the granted front of the input into its place in the buffer and keeps the rest |
| UartBus.Bus.Write | src/apps/os/dal_device_ops.c:155-187 | a write appends the granted prefix of the data to the output |
| RequestStateMachine.Execute | src/hub/hub_req_resp_sm.c:22-242 | one request, in every behaviour of the bus: verdict, final state, bus and busy flag are those of the exchange described transfer by transfer, and in bytes: what is taken off the line fills the response and behind it the App response, the rest of both stays; a success with an answer took all of it, wrote request and App request and behind them the data if and only if the answer asks for it, and is COMPLETE with an idle GARD if and only if it does not; after a failure the GARD is busy if the request went out; from any state the loop takes at most as many passes as the state's rank, four from START |
| RequestStateMachine.ExchangeInBytes | src/hub/hub_req_resp_sm.c:67-241 | whatever is granted, the output is a prefix of request, App request and data, the whole requests on success, and the bytes received are the front of the input, no more than response and App response |
| RequestStateMachine.AnsweredInBytes | src/hub/hub_req_resp_sm.c:146-229 | a success with validation passed has read response and App response in full, and has sent the data if and only if there is some and the second byte of the answer, where it is looked at, is SEND_DATA |
| RequestStateMachine.Run | src/hub/hub_req_resp_sm.c:62-241 | the loop, entered in START, is the exchange, and leaves the bytes received where they belong |
| RequestStateMachine.Pass | src/hub/hub_req_resp_sm.c:67-239 | one pass of the fall-through switch carries the exchange on, and if the loop goes on the rank has fallen |
| RequestStateMachine.PassOn | src/hub/hub_req_resp_sm.c:146-238 | the same for the cases behind the validation, of which each ends a pass |
| RequestStateMachine.TransmitRequests | src/hub/hub_req_resp_sm.c:72-108 | request and App request go out in this order, and the GARD counts as busy from the request on |
| RequestStateMachine.ReceivePeek | src/hub/hub_req_resp_sm.c:110-144 | the part to be validated is received, and the way on depends on the request alone |
| RequestStateMachine.ReceiveRest | src/hub/hub_req_resp_sm.c:146-179 | the rest of the response lands behind the peek, and data, App response or completion comes next |
| RequestStateMachine.ReceiveAppResponse | src/hub/hub_req_resp_sm.c:181-194 | the App response is received behind the response, into the App buffer (Execute states the bytes), and completes the exchange |
| RequestStateMachine.TransmitData | src/hub/hub_req_resp_sm.c:196-229 | data goes out unless the response refuses it; a refusal completes, and sending ends in the unfinished ACK state |
| RequestStateMachine.Request.StartSignalReceived | src/hub/hub_gard_cmds.c:110-127 | the response asks for the data if and only if its second byte is the SEND_DATA command, and then counts two bytes |
| RequestStateMachine.PerformConcat | src/hub/hub_req_resp_sm.c:67-239 | the performance of transfers in sequence splits at any point, which is what falling through relies on |
| RequestStateMachine.PerformMovesBytes | src/hub/hub_req_resp_sm.c:67-239 | whatever is granted, what is written is a prefix of what was to be written, what is read is the front of the input, and completion moves exactly the planned bytes |
| RequestStateMachine.PerformSucceedsIffInputSuffices | src/hub/hub_req_resp_sm.c:74-159 | on a line that limits nothing, a series of transfers succeeds if and only if the input is long enough |
| RequestStateMachine.ExchangeWritesAPrefix | src/hub/hub_req_resp_sm.c:67-241 | in every exchange the output is a prefix of request, App request and data, and nothing read is lost or made up |
| RequestStateMachine.CompletedExchange | src/hub/hub_req_resp_sm.c:161-194 | an exchange that reaches COMPLETE has written exactly request and App request and read exactly response and, if it sends no data, App response |
| RequestStateMachine.RequestCompletesIffAnswered | src/hub/hub_req_resp_sm.c:110-194 | on a line that limits nothing, a request without data completes if and only if the whole answer is there |
| RequestStateMachine.RouteOfTheCode | src/hub/hub_req_resp_sm.c:127-142 | when the peek has been received, the machine turns to the GARD's request if and only if the request itself does not start with the validation data |
| RequestStateMachine.RoutedByTheAnswerIff | src/hub/hub_req_resp_sm.c:36-40 | the received bytes decide on every bus, as the design asks, if and only if the request has no validation data |
| RequestStateMachine.ForeignAnswerIsAccepted | src/hub/hub_req_resp_sm.c:127-142 | a PAUSE answered by the GARD's sync completes with success |
| RequestStateMachine.SentDataLeavesTheGardBusy | src/hub/hub_req_resp_sm.c:210-229 | a request that sends data writes all of it or fails, and in both cases leaves the GARD busy |
| RequestStateMachine.GardStaysBusyIff | src/hub/hub_req_resp_sm.c:82-234 | on a line that limits nothing, the GARD stays busy if and only if the line holds too short an answer or one that asks for the data, or the request is not its own validation |
| GardPoller.HandleAppLayerSendData | src/hub/hub_gard_cmds.c:137-264 | length, peek, choice of buffer, rest and hand-over are one frame reception, for every bus, every result of KtLib's handlers, and with or without App Layer |
| GardPoller.ReadBehindPeek | src/hub/hub_gard_cmds.c:244-258 | the chosen buffer holds peek and rest if and only if the rest came in full; the count is that of 32-bit arithmetic |
| GardPoller.AcceptSync | src/hub/hub_gard_cmds.c:930-990 | the two sync bytes are taken one after the other, and answered by the two-byte reply if and only if they are right |
| GardPoller.CheckAndExecuteGardCommand | src/hub/hub_gard_cmds.c:899-1003 | one poll does nothing to a busy GARD, and else handshakes, replies, receives a frame and leaves the GARD idle: either nothing is handed over, or one payload, whose whole frame was the front of the line and was acknowledged by 0x0C 0xCD; its handler's result is the status, inverted unless it is metadata |
| GardPoller.FrameInBytes | src/hub/hub_gard_cmds.c:173-215 | a frame is 0x0C, 0xCD, 0x07, three bytes of size with the lowest first, and the payload |
| GardPoller.DeliverableIff | src/KtLib/Kt_Dispatcher.c:110-153 | a payload can be delivered if and only if it has four bytes or more and is metadata of at most 2048 bytes or an image of at most 1920 times 1080 |
| GardPoller.AppLayer.GetBufferForGardSendData | src/KtLib/Kt_Dispatcher.c:110-153 | the first byte of the peek selects the metadata buffer, the image buffer or none |
| GardPoller.AppLayer.HandleGardSendData | src/KtLib/Kt_Dispatcher.c:167-194 | the payload is handed over once, and the status is the handler's result, or its inverse for an image |
| GardPoller.VerdictIsPassedOnIff | src/KtLib/Kt_Dispatcher.c:178-193 | the handler's result is what the HUB learns, whatever it is, if and only if the payload is metadata |
| GardPoller.DispatchOnce | src/KtLib/Kt_Dispatcher.c:40-67 | one pass of the dispatcher is one poll: it adds what that poll delivers and leaves the bus as that poll does |
| GardPoller.RunDispatcher | src/KtLib/Kt_Dispatcher.c:32-68 | the dispatcher polls once, or until the idle callback asks for a stop, and hands over what these polls deliver |
| GardPoller.PassesEndAtTheStop | src/KtLib/Kt_Dispatcher.c:38-67 | the number of passes is one, or that up to and including the first in which the idle callback asks for a stop |
| GardPoller.DeliveredPayloadIsAFrame | src/hub/hub_gard_cmds.c:137-264 | on every bus, a payload that is handed over is that of a whole frame, which was the front of the input, and exactly the two-byte reply was written |
| GardPoller.FrameIsDeliveredIffDeliverable | src/hub/hub_gard_cmds.c:137-264 | on a free line, a frame in front of the input is delivered if and only if its length is at least the peek's and fits the buffer that its first byte selects |
| GardPoller.FrameLeavesBehind | src/hub/hub_gard_cmds.c:173-264 | what one poll leaves of any frame and the line behind it: nothing of a delivered one, everything behind the peek of one that cannot be delivered |
| GardPoller.FollowersSurviveIff | src/hub/hub_gard_cmds.c:244-258 | the line behind a frame is left for the next polls if and only if the frame is empty or at least as long as the peek |
| GardPoller.ShortFrameSwallowsItsFollowers | src/hub/hub_gard_cmds.c:244-258 | a frame shorter than the peek, for which there is a buffer, takes the whole rest of the line along |
| GardPoller.JunkIsSkipped | src/hub/hub_gard_cmds.c:930-945 | bytes without a sync in front of a frame cost one poll each; the next poll delivers the frame, and exactly these bytes and the frame are gone |
| GardPoller.UndeliverableFrameIsOvercome | src/hub/hub_gard_cmds.c:228-242 | behind a frame that cannot be delivered, and has no sync behind its first four bytes, the next frame is delivered after as many polls as bytes are left of it |
| GardPoller.EveryFrameIsDelivered | src/hub/hub_gard_cmds.c:899-1003 | any sequence of k well-formed frames is delivered by k polls: exactly these payloads, in order, these frames consumed and nothing else, k sync replies written |
| GardPoller.RunDeliversOnlyFrames | src/hub/hub_gard_cmds.c:899-1003 | over any run on any bus, the payloads delivered are those of whole frames that stand on the consumed part of the line one behind the other and in this order |
| GardPoller.BusyGardIsNeverServed | src/hub/hub_gard_cmds.c:918-922 | while the GARD counts as busy, no number of polls moves a byte |
| Discovery.MembersAreTheMatches | src/hub/hub_gard_cmds.c:351-378 | a GARD's members are the busses that answered with its id, all of them and in order |
| Discovery.FirstIdsAreDistinct | src/hub/hub_gard_cmds.c:301-348 | the ids of first appearance are distinct, each is answered by a bus, each answer is among them, and they are in the order in which they were first answered |
| Discovery.GroupsPartitionTheRespondingBusses | src/hub/hub_gard_cmds.c:301-388 | the groups are disjoint, none is empty, and together they are the responding busses |
| Discovery.DiscoverDevices | src/hub/hub_gard_cmds.c:301-333 | the table of devices has each answer in its place, unique at its first appearance, and the GARDs counted are the distinct ids |
| Discovery.DiscoverGards | src/hub/hub_gard_cmds.c:278-388 | as many GARDs as distinct ids, in the order of first appearance; no write is out of bounds if and only if there is a single leading group or the lists are indexed by the count, and then every list is its group |
| Discovery.RecordBusses | src/hub/hub_gard_cmds.c:367-378 | indexed by the count kept for it, the list of a GARD is its group, in order, for all answers; indexed by the device number as the code does, each bus is in the slot of its number if there is one |
| Discovery.RecordGard | src/hub/hub_gard_cmds.c:343-381 | a GARD's record has its id and its number of busses, and its complete list if no write goes astray |
| Discovery.GroupAt | src/hub/hub_gard_cmds.c:367-378 | each entry of a complete list is a bus that answered with the id |
| Discovery.IndicesFitIffSingleLeadingGroup | src/hub/hub_gard_cmds.c:368-376 | indexing the lists by the device number stays in bounds if and only if the responding busses come first and answer with one id |
| Discovery.TwoGardsDoNotFit | src/hub/hub_gard_cmds.c:368-376 | two GARDs on two busses: the second one's bus is written behind its list |
| Discovery.ChooseActiveBus | src/hub/hub_init.c:44-60 | the active bus is the first UART of the list, and stays as it was if there is none |
| Discovery.InitHub | src/hub/hub_init.c:23-75 | initialisation succeeds if and only if discovery was done and every GARD has a UART, and then each has its first UART |
| Discovery.BringUp | src/hub/hub_init.c:23-75 | discovery and initialisation together, for all answers with lists indexed by the count, and for a single leading group as the code stands: they succeed if and only if every GARD has a UART among its busses, and then the active bus of each is the first of these |
| Discovery.FirstUartIsLeast | src/hub/hub_init.c:44-60 | a bus is the first UART of a GARD if and only if it is one of the GARD's UARTs and no bus of a lower number is |
| BufferFifo.BufFifo.Add | src/KtLib/Kt_FifoMgmt.c:89-111 | adding links the buffer behind the list, and the list stays a list unless the buffer was its last, which then points to itself |
| BufferFifo.BufFifo.Get | src/KtLib/Kt_FifoMgmt.c:57-77 | getting removes the oldest buffer, unlinks it, and keeps the others in order; of its faces only the first loses its id |
| BufferFifo.BufFifo.Release | src/KtLib/Kt_FifoMgmt.c:169-180 | release ends, with every buffer freed in FIFO order |
| BufferFifo.ReleasedOnce | src/KtLib/Kt_FifoMgmt.c:169-180 | no buffer is freed twice |
| BufferFifo.LinkingLosesNothingIff | src/KtLib/Kt_FifoMgmt.c:99-108 | a buffer is appended if and only if it is not in the list, and no buffer is lost if and only if it is not, or was the last; otherwise the list ends with it from then on |
| BufferFifo.LinkingTheHeadAgain | src/KtLib/Kt_FifoMgmt.c:99-108 | linking the oldest buffer again loses all the others |
| BufferRing.Ring.Add | src/apps/kt_app/kt_common/kt_app_buffers.c:64-83 | the ring appends, unless it holds one buffer less than its size |
| BufferRing.Ring.Get | src/apps/kt_app/kt_common/kt_app_buffers.c:94-116 | the ring removes its oldest buffer, unless it is empty |
| BufferRing.Ring.constructor | src/apps/kt_app/kt_common/kt_app_buffers.c:19-37 | a fresh ring offers all its buffers but the first |
| BufferRing.UnrolledAppend | src/apps/kt_app/kt_common/kt_app_buffers.c:73-81 | writing the tail slot and moving the tail appends to the contents around the end of the array |
| BufferRing.UnrolledTail | src/apps/kt_app/kt_common/kt_app_buffers.c:103-114 | moving the head removes the oldest entry and no other |
| MetadataLayout.ParseEncoded | src/KtLib/Kt_MetadataHandling.c:82-148 | the handler's address arithmetic reads back what the documented layout says: every user in order with its box and bits 16 to 19 of its id, and the ideal record from the byte count alone |
| MetadataLayout.WireOffsets | src/interface/hmi_metadata_iface.h:219-304 | the frame by absolute offsets: size, tags, version and number of users; user i from byte 35 + 76 i on, with id, left, top, right and bottom at 4, 16, 20, 24 and 28; and the ideal index behind the last user |
| MetadataLayout.Int32InBytes | src/KtLib/Kt_MetadataHandling.c:82-148 | a field of four bytes is read with the lowest first and in two's complement |
| MetadataLayout.MasksAreBits | src/KtLib/Kt_MetadataHandling.c:144-160 | the signed shift and the masks give bits 16 to 19 of an id and bits 0 to 7 of an index, negative ones included |
| MetadataLayout.PackedFaceIdIsRecovered | src/interface/hmi_metadata_iface.h:164-185 | shift and mask recover the face nibble of every packed id, sign bit and neighbouring fields notwithstanding |
| MetadataLayout.PackedSlotIsRecovered | src/interface/hmi_metadata_iface.h:187-199 | the mask recovers the slot of the ideal user, whatever the other fields hold |
| MetadataLayout.EncodedUser | src/interface/hmi_metadata_iface.h:219-304 | the i-th record is found at its computed offset and means what was sent |
| MetadataLayout.EncodedIdeal | src/KtLib/Kt_MetadataHandling.c:111-133 | behind the last user stands the ideal record, if one was sent |
| MetadataHandling.FillIdentified | src/KtLib/Kt_MetadataHandling.c:141-192 | the first loop counts both groups, and every write is inside the buffer if and only if the identified fit; then exactly their faces are at the front, each with its user's id, box and ideal flag, and the slots behind are as before |
| MetadataHandling.FillUnidentified | src/KtLib/Kt_MetadataHandling.c:218-267 | every write of the second loop is inside if and only if there are no unidentified, or they fit and a slot is free behind the identified; then their faces are written, with ids left over as described by WithStaleIds |
| MetadataHandling.CapacityOfABuffer | src/interface/Kt_Lib.h:172-196 | as many users as a buffer holds always fit; more, if all are identified, do not |
| MetadataHandling.EveryUserIsReportedOnce | src/KtLib/Kt_MetadataHandling.c:144-265 | the two groups together have as many faces as there are users, and show each box as often as users stand in it |
| MetadataHandling.FacesAreInOrder | src/KtLib/Kt_MetadataHandling.c:144-265 | the i-th face of a group has the face id and the box of its i-th user, is flagged if and only if that is the ideal user, and has the equipment flags off; users are in ascending order, and ids non-zero if and only if it is the identified group |
| MetadataHandling.PositionsAreComplete | src/KtLib/Kt_MetadataHandling.c:144-265 | a user is in the identified group if and only if its face id is not zero, and else in the other |
| MetadataHandling.OneIdealFace | src/KtLib/Kt_MetadataHandling.c:171-179 | exactly one entry of both groups is flagged ideal if an ideal slot below the number of users is given, else none |
| MetadataHandling.UnidentifiedIdsAreZeroIff | src/KtLib/Kt_MetadataHandling.c:232-254 | all ids of the unidentified are zero if and only if the buffer held zeros in the slots that the loop does not reach |
| MetadataHandling.IdsAreRightInEveryBufferIff | src/KtLib/Kt_MetadataHandling.c:232-254 | whatever the buffer held before it was taken from the FIFO, the ids of the unidentified are zero if and only if each of them is in the slot that the loop zeroes or in the first, or is ideal |
| MetadataHandling.UnknownReportedUnderAnotherId | src/KtLib/Kt_MetadataHandling.c:232-254 | an unknown user is reported under the id of somebody else |
| BufferCirculation.ReportKeepsTheBuffers | src/apps/kt_app/kt_common/kt_app_faceid_cb.c:131-150 | the swap at the end of a callback keeps the set of buffers, links none behind itself, ends in a circulation from start-up as well, and from a circulation keeps both lengths |
| BufferCirculation.DoubledIsNotCirculating | src/apps/kt_app/kt_common/kt_app_main.c:186-191 | at start-up buffers are in two places |
| BufferCirculation.App.constructor | src/apps/kt_app/kt_common/kt_app_main.c:186-191 | start-up leaves all ten buffers in KtLib and nine of them in the ring |
| BufferCirculation.App.Exchange | src/apps/kt_app/kt_common/kt_app_faceid_cb.c:131-150 | with a buffer in the ring, one goes each way; with none, nothing moves |
| BufferCirculation.App.FaceCallback | src/apps/kt_app/kt_common/kt_app_faceid_cb.c:160-211 | a callback reports the faces of the buffer and makes the exchange |
| BufferCirculation.App.ReportIdentified | src/KtLib/Kt_MetadataHandling.c:101-202 | the oldest buffer is filled with the identified users and reported if there are any and the callback is set; else it is kept for the second half |
| BufferCirculation.App.ReportUnidentified | src/KtLib/Kt_MetadataHandling.c:204-278 | the unidentified users are reported in the kept buffer or a fresh one, and without a callback the buffer is lost |
| BufferCirculation.App.HandleReceivedMetadata | src/KtLib/Kt_MetadataHandling.c:96-281 | a frame without users changes nothing; any other keeps the set of buffers if and only if the callback of its last group is set, and then a buffer is always there for the next one |
| BufferCirculation.App.HandlePayload | src/KtLib/Kt_MetadataHandling.c:42-281 | the bytes of a frame are parsed and reported group by group, exactly as meant if no unidentified user keeps an id, and with the buffers kept; they are in circulation afterwards if and only if they were before or the frame had users |
| BufferCirculation.ReportsShowTheUsers | src/KtLib/Kt_MetadataHandling.c:144-281 | what the reports on a frame show: one report for each group that has users, identified first; the i-th face has box and ideal flag of the i-th user of the group, and for the identified the user's face id |
| BufferCirculation.UnknownsAreMeantWithoutIds | src/KtLib/Kt_MetadataHandling.c:225-254 | in the report on the unidentified, as it is meant, every face id is zero |
| BufferCirculation.TakenIsMissing | src/KtLib/Kt_MetadataHandling.c:273-278 | a buffer that was taken and not reported is in neither queue, and only that one |
| MetadataStream.SentFrameArrives | src/hub/hub_gard_cmds.c:137-264 | a frame in the documented layout can be delivered and reads as what was meant |
| MetadataStream.ServeFrames | src/KtLib/Kt_MetadataHandling.c:42-281 | over any number of frames, start-up included, every user is reported in order, exactly as meant if no unidentified user keeps an id, and no buffer is lost or missing; the buffers are in circulation if and only if they were at first or some frame had users |
| MetadataStream.ReceiveAll | src/KtLib/Kt_Dispatcher.c:32-68 | a dispatcher run of k passes hands over exactly the k payloads on the line and reads it to its end |
| MetadataStream.PassAll | src/KtLib/Kt_Dispatcher.c:32-68 | the dispatcher run once for each of k frames on the line: each run receives one, and it is handled before the next |
| MetadataStream.ReceiveAndReport | src/KtLib/Kt_Dispatcher.c:32-68 | from k frames on the wire to the reports: all received, each handled before the next, all users reported in order, all buffers kept, the line read to its end |
| GardTraffic.FramesBehindAnAnswer | src/hub/hub_req_resp_sm.c:67-241 | a request whose answer is followed by k frames completes, and the next k polls deliver these frames |
| GardTraffic.GardIsDeafIff | src/hub/hub_gard_cmds.c:918-922 | after a request on a line that limits nothing, no number of polls delivers anything if and only if the line left the GARD busy; else the next poll delivers any frame there is |
| GardTraffic.LastRequestDecides | src/hub/hub_req_resp_sm.c:82-234 | over any run of requests and polls, with bytes arriving in between, the GARD is deaf to polls if and only if the last request was not answered, or it was busy at first and there was none |
| GardTraffic.SilentUntilAnswered | src/hub/hub_gard_cmds.c:918-922 | a busy GARD delivers nothing over any run in which no request is answered |
| GardTraffic.AnsweredRequestIsHeard | src/hub/hub_req_resp_sm.c:231-234 | after a request that is answered, whatever run was before, the next poll delivers a frame that comes on the line read so far to its end |
| FaceDatabase.FaceDb.UpdateFaceProfile | src/apps/kt_app/kt_common/kt_app_face_db.c:84-99 | an update succeeds if and only if the id is known, and renames this profile only |
| FaceDatabase.FaceDb.AddFaceProfile | src/apps/kt_app/kt_common/kt_app_face_db.c:111-142 | an addition succeeds if and only if the table is not full, and renames a known id or appends a new one |
| FaceDatabase.RenamedEntries | src/apps/kt_app/kt_common/kt_app_face_db.c:91-97 | renaming changes at most the first entry of the id and keeps all ids and their order |
| FaceDatabase.AddedEntries | src/apps/kt_app/kt_common/kt_app_face_db.c:101-142 | an addition changes nothing in a table of a hundred, else renames the entry of an id that is there, and else appends one entry |
| FaceDatabase.AddedKeepsIdsUnique | src/apps/kt_app/kt_common/kt_app_face_db.c:101-142 | ids stay unique and other profiles stay; the id carries the new name afterwards unless the table was full |
| FaceDatabase.FullTableRefusesAKnownProfile | src/apps/kt_app/kt_common/kt_app_face_db.c:101-121 | in a full table a profile that is there is not overwritten |
| FaceDatabase.FaceDb.FlushToDisk | src/apps/kt_app/kt_common/kt_app_face_db.c:151-176 | printing over the old file and cutting it off leaves exactly the printed table, however long the old file was |
| FaceDatabase.LineOfAProfile | src/apps/kt_app/kt_common/kt_app_face_db.c:151-176 | profile 42, named "Al", is printed as the line 42:Al |
| FaceDatabase.FaceDb.Init | src/apps/kt_app/kt_common/kt_app_face_db.c:41-55 | the table is rebuilt from what the scan finds, up to its capacity |
| FaceDatabase.NumberIsRead | src/apps/kt_app/kt_common/kt_app_face_db.c:46-47 | every 32-bit id printed in decimal is scanned back, up to the colon |
| FaceDatabase.LineIsRead | src/apps/kt_app/kt_common/kt_app_face_db.c:46-50 | a printed line is scanned back as its profile if and only if the name is not empty and has no line break |
| FaceDatabase.ReloadedIffClean | src/apps/kt_app/kt_common/kt_app_face_db.c:41-55 | a table is read back as it was printed, in order, if and only if no name is empty or holds a byte 13 or 10 |
| FaceDatabase.EmptyNameLosesTheRest | src/apps/kt_app/kt_common/kt_app_face_db.c:46-49 | an empty name ends the scan, and all profiles behind it are lost |
| FaceDatabase.ReloadedTwiceIff | src/apps/kt_app/kt_common/kt_app_face_db.c:41-55 | what was read from any file survives the next flush and start if and only if no name came out empty |
| FaceDatabase.FlushAndRestart | src/apps/kt_app/kt_common/kt_app_face_db.c:20-56 | flush and restart bring the database back if and only if no name is empty or holds a byte 13 or 10 |
| Mailbox.AsManyLostAsLate | src/apps/kt_app/kt_common/kt_app_req_resp.c:21-31 | over any run of both threads, exactly as many requests are lost as find the pending flag raised when they are sent |
| Mailbox.OnceInOrderIff | src/apps/kt_app/kt_common/kt_app_req_resp.c:21-31 | in every interleaving, generations included, every request is executed exactly once and in order if and only if each of them finds the flag clear when it is sent |
| Mailbox.RunKeepsInvariant | src/apps/kt_app/kt_ipc/ipc_thr_func.c:75-87 | every step of every interleaving without a late request keeps the last request where it belongs on both sides |
| Mailbox.MailboxIsSequential | src/apps/kt_app/kt_common/kt_app_idle_cb.c:26-114 | if none is late, every execution sees the table that the earlier ones leave, generated profiles included, and every answer is that of its request, in order: command, verdict and, for a list, that table |
| Mailbox.EffectOnTheTable | src/apps/kt_app/kt_common/kt_app_faceid_cb.c:76-84 | what an execution does to a table with unique ids: a generation with status 0 puts the new id under the name "Default" into a table with room and spares the others, and changes nothing otherwise; an update renames its id only; other commands change nothing |
| Mailbox.GeneratedIsListed | src/apps/kt_app/kt_common/kt_app_idle_cb.c:42-93 | in every run without late requests, the profile of a successful generation is in the answer to every later list, by its default name, until its id is renamed or generated again |
| Mailbox.SendFindsTheMailboxFree | src/apps/kt_app/kt_ipc/ipc_thr_func.c:201-226 | as long as every request is waited for, none is late: the flag is clear and the main thread idle whenever one can be sent |
| Mailbox.WaitingRequestIsAnswered | src/apps/kt_app/kt_ipc/ipc_thr_func.c:75-87 | under every schedule, five stretches in each of which each thread tries each of its steps bring a waiting request its answer |
| Mailbox.RequestBehindGenerationIsLost | src/apps/kt_app/kt_ipc/ipc_thr_func.c:201-226 | a request sent while a generation runs is late, is never executed, and is answered with the generation's response |
| Mailbox.ExecuteCmd | src/apps/kt_app/kt_common/kt_app_idle_cb.c:26-114 | the main thread's code, undisturbed, is the steps Take, Execute and Finish, on shared memory and database: without a pending request nothing changes; with one the flag is cleared and the response names the command, with 0 for a list, 0 or -1 for an update of a known or unknown id, and else the given verdict; a list carries the table, a generation adds "Default" if and only if it succeeded and there is room, an update renames its id only, and a successful one is on disk |
| Mailbox.ExecuteTaken | src/apps/kt_app/kt_common/kt_app_idle_cb.c:40-98 | the switch over the command, between the look at the flag and its clearing |
| Mailbox.HandleReqRespCommand | src/apps/kt_app/kt_ipc/ipc_thr_func.c:201-220 | the IPC thread's code, with the main thread acting between any two looks at the flag, is the steps Send, Poll and Fetch of a run: it ends with the response that the run records as the answer, or still waits |
| ProfileWire.RecvAll | src/apps/kt_app/kt_ipc/ipc_thr_func.c:24-41 | however the stream is cut and interrupted, the server gets exactly the bytes asked for or reports that it broke off |
| ProfileWire.SendAll | src/apps/kt_app/kt_ipc/ipc_thr_func.c:52-66 | however short the writes, what is sent is a prefix, and all of it on success |
| ProfileWire.RecvExact | src/apps/kt_viz/ipc_client.py:203-215 | the client gets exactly the bytes asked for if the stream has them, else nothing |
| ProfileWire.ListAgrees | src/apps/kt_app/kt_ipc/ipc_thr_func.c:97-134 | the table that the client decodes is the server's, whatever lies behind the names' terminators and behind the reply |
| ProfileWire.SendListProfilesPayload | src/apps/kt_app/kt_ipc/ipc_thr_func.c:117-134 | whatever send does, a front of count and records is on the wire, and all of it if and only if the transfers are complete |
| ProfileWire.SendListReply | src/apps/kt_app/kt_ipc/ipc_thr_func.c:222-240 | the same for header and payload together |
| ProfileWire.ReceiveList | src/apps/kt_viz/ipc_client.py:265-340 | the client's reads, in whatever pieces the bytes come, decode the reply on the line or end with nothing |
| ProfileWire.ListOverTheWire | src/apps/kt_viz/ipc_client.py:453-477 | from end to end and for every cut, the client has exactly the server's table if the server got its reply out, and nothing if not |
| ProfileWire.ProfilesDecode | src/apps/kt_viz/ipc_client.py:315-340 | the records are decoded one by one as they were laid out |
| ProfileWire.ListHeaderBytes | src/apps/kt_app/kt_ipc/ipc_thr_func.c:97-121 | the reply is twelve bytes, command 5, verdict 0 and the count, and 260 for each profile |
| ProfileWire.ListRecordBytes | src/apps/kt_app/kt_ipc/ipc_thr_func.c:122-132 | record i starts at byte 12 + 260 i: the id with its lowest byte first, and the name array |
| ProfileWire.UpdateAgrees | src/apps/kt_app/kt_ipc/ipc_thr_func.c:144-165 | the server reads the client's id, and of the name as much as stands before a NUL and fits into 254 bytes: all of it if it has at most 254 bytes and no NUL |
| ProfileWire.UpdateMessageBytes | src/apps/kt_viz/ipc_client.py:438-445 | the request is 263 bytes: command 4, the id with its lowest byte first, at most 254 bytes of the name, and zeros |
| ProfileWire.ReadUpdateProfilePayload | src/apps/kt_app/kt_ipc/ipc_thr_func.c:144-165 | for every cut, the payload is read as it stands on the line, or not at all |
| ProfileWire.ReceiveUpdate | src/apps/kt_app/kt_ipc/ipc_thr_func.c:174-199 | the server gets the request on the line, or none and has broken off or waits; with harmless events and the whole message it never breaks off |
| ProfileWire.UpdateOverTheWire | src/apps/kt_viz/ipc_client.py:434-450 | from end to end and for every cut, the server gets the id and as much of the name as stands before a NUL and fits into 254 bytes, all of it if it does, or it gets nothing |
| ProfileWire.UpdateThenList | src/apps/kt_viz/ipc_client.py:434-479 | an update followed by a list, in whatever pieces, shows the client the table with this one name replaced, or nothing; a name of at most 254 bytes without NUL is shown as it was given |
| FaceStream.FacesAreRecovered | src/apps/kt_app/kt_common/kt_app_cmds.h:116-144 | the records are decoded as the faces they were laid out from, whatever the padding holds |
| FaceStream.FaceOffsets | src/apps/kt_app/kt_common/kt_app_cmds.h:116-132 | a record has the id at 0, the ideal flag at 4, the four edges from 8 on, and hat, glasses and gloves at 24, 25 and 26 |
| FaceStream.ReportIsReceivedIffComplete | src/apps/kt_viz/ipc_client.py:547-579 | a report is received if and only if its last byte has arrived, and then as it was sent |
| FaceStream.OnlyWholeReportsArrive | src/apps/kt_viz/ipc_client.py:547-579 | wherever the connection breaks, exactly the reports whose last byte has arrived are received, whole and in order |
| FaceStream.AllReportsFit | src/apps/kt_viz/ipc_client.py:547-579 | if the stream is complete, so are all the reports |
| FaceStream.LastReportIsCompleteIff | src/apps/kt_app/kt_common/kt_app_faceid_cb.c:122-128 | the last report of a camera frame shows all its users if and only if they are all identified or all not |
| FrameSnapshot.SharedListIsASnapshot | src/apps/kt_viz/app.py:310-320 | in every interleaving the shared list is the report last put up, whole and in order, or empty if it was cleared since |
| FrameSnapshot.ShowsIff | src/apps/kt_viz/app.py:269-308 | entries show faces if and only if they are as many and have, one by one, the same id, ideal flag and edges, and the icons in the order glasses, gloves, hat |
| FrameSnapshot.ReadersSeeSnapshots | src/apps/kt_viz/app.py:629-630 | every reader sees one whole report or nothing, and never an older report after a newer one |
| FrameSnapshot.ListenerCollects | src/apps/kt_viz/app.py:310-316 | what is being collected is always a front of the current report, even after a report was dropped halfway |
| FrameSnapshot.ReportStaysIff | src/apps/kt_viz/app.py:317-336 | under all steps of all threads, a report stays until its own time-out if and only if no verdict is pending when it is put up and none is taken against the old time before the new one is noted |
| FrameSnapshot.FreshReportIsWiped | src/apps/kt_viz/app.py:317-336 | both ways to lose a fresh report happen |
| FrameSnapshot.Overlay.IpcEvent | src/apps/kt_viz/app.py:241-321 | a callback collects its face, with id, name, edges and icons spelt out, starting afresh with the first, and with the last one puts up a copy |
| FrameSnapshot.Overlay.EmptyFrame | src/apps/kt_viz/app.py:257-263 | an empty frame clears both lists |
| FrameSnapshot.Overlay.ClearStale | src/apps/kt_viz/app.py:333-336 | clearing in place leaves the list being collected alone |
| FrameSnapshot.Overlay.Deliver | src/apps/kt_viz/ipc_client.py:568-579 | the callbacks for a report put it up, whatever had been collected before |
| FrameSnapshot.Overlay.Listen | src/apps/kt_viz/ipc_client.py:547-579 | the listener puts up the complete reports of a connection, whatever pieces the bytes come in, and the last one stays |
| FrameSnapshot.ShowCameraFrame | src/apps/kt_app/kt_common/kt_app_faceid_cb.c:93-211 | the reports on one camera frame, sent and received in any pieces, leave its last report on the overlay: all its users if and only if they are all of one kind |
| PaletteAllocator.FirstFreeIsLeast | src/apps/kt_viz/app.py:438-443 | the index chosen is the least free one, or the fallback's if and only if none is free |
| PaletteAllocator.AsManyIndicesAsPossible | src/apps/kt_viz/app.py:460-477 | from any table, and whatever keys a frame repeats, the number of different indices is that of the boxes, or the palette's size if this is smaller |
| PaletteAllocator.ToldApartIff | src/apps/kt_viz/app.py:446-456 | the boxes of a frame all get different indices if and only if the palette is large enough |
| PaletteAllocator.FrameOnlyExtends | src/apps/kt_viz/app.py:463-476 | while the palette has room, a frame without repeated keys changes no known index, keeps indices different, and uses each key's own |
| PaletteAllocator.RunOnlyExtends | src/apps/kt_viz/app.py:446-477 | over whole runs with at most as many keys as colours, the table is only ever extended and no two keys share an index |
| PaletteAllocator.RunRegistersItsKeys | src/apps/kt_viz/app.py:468-470 | the table knows exactly the keys seen so far |
| PaletteAllocator.IndicesSharedIff | src/apps/kt_viz/app.py:446-456 | starting from nothing, no two keys ever share an index if and only if the palette has one for each key seen |
| PaletteAllocator.OneKeyIff | src/apps/kt_viz/app.py:424-435 | two boxes count as one identity if and only if their face ids agree and, if these are zero, their upper left corners lie in one cell of 48 by 48 |
| PaletteAllocator.SameIndexIff | src/apps/kt_viz/app.py:446-477 | over a run whose identities all fit into the palette, with none twice in a frame: two boxes, in whichever frames, have the same index if and only if they show one enrolled face, wherever it moved, or unknown ones in one cell |
| PaletteAllocator.TableIsKeptIff | src/apps/kt_viz/app.py:470-475 | a frame of known keys leaves the table as it is if and only if no key is repeated |
| PaletteAllocator.TwoInOneCellFlicker | src/apps/kt_viz/app.py:451-453 | two unknown faces in one cell swap indices with every frame |
| PaletteAllocator.Palette.FirstFreePaletteIndex | src/apps/kt_viz/app.py:438-443 | the loop finds that index |
| PaletteAllocator.Palette.AssignColors | src/apps/kt_viz/app.py:460-477 | the loop over the boxes that are not ideal gives out the indices and updates the table |
| PaletteAllocator.Palette.ColorsForFrame | src/apps/kt_viz/app.py:446-485 | one colour per box and in order: the ideal colour, or the palette's at the index given out |
| FixedPoint.ConversionRoundsTiesToEven | src/KtLib/Kt_Utils.c:22-41 | the conversion is the one integer that roundTiesToEven allows (IEEE 754-2019, section 4.3.1): none is nearer, and a tie goes to the even one |
| FixedPoint.ConversionIsWithinHalfAUnit | src/KtLib/Kt_Utils.c:22-41 | the result differs from the value by at most half a unit, and is even if it differs by exactly that |
| FixedPoint.HalvesAndQuarters | src/KtLib/Kt_Utils.c:22-41 | with two fractional bits 2.5 becomes 2, 2.75 becomes 3 and 3.5 becomes 4 |
| FixedPoint.ConversionIsMonotone | src/KtLib/Kt_Utils.c:22-41 | larger values never convert to smaller integers, and whole values are kept |
| FixedPoint.ResultFitsIff | src/KtLib/Kt_Utils.c:25-39 | the signed result fits for every input but the largest with one fractional bit |

## Left out

- Bus: grants are arbitrary numbers given beforehand; a write that fails is one that accepts nothing; a line whose input has ended is one on which every further read returns nothing.
- UartRead: the events of select and read are given; the loop may outlive them. A count of zero is excluded, since dal_read returns for it without reading. The serial port's set-up is not modelled.
- Execute: on START only the outcome is stated transfer by transfer; entered in another state, only termination and the shape of the request are. Data is refused only by the one callback the code has, with a two-byte response. Transfer counts are not cut to 31 bits.
- GardStaysBusyIff: it is stated for a line that limits nothing; where transfers can be cut short, Execute says what the flag is, transfer by transfer.
- TransmitData: the optional ACK behind the data and the service of a GARD's request inside a HUB's are unfinished in the code, and nothing is claimed about them.
- FrameLeavesBehind: the bytes written behind the buffer by a wrapped count are not modelled, only what is taken off the line.
- RunDispatcher: the idle callback is a given sequence of answers.
- DiscoverGards: profile ids are non-zero, since zero marks an unused entry, and a bus answers the discovery with its id or not at all; writes out of bounds are counted as such and not carried out; failed allocations are left out.
- BufFifo: the header and the first face share bytes; of this only the loss of the first face's id is modelled, as it is with 64-bit pointers.
- HandleReceivedMetadata: asserts that loop for ever are preconditions, and so is that the users fit the buffers (FitsIn); what a write outside a buffer destroys is not modelled.
- ServeFrames: which ids unidentified users carry over from earlier frames is stated frame by frame (UnidentifiedIdsAreZeroIff) and not over runs; for runs the ids are stated when no user keeps one.
- ReceiveAndReport: the dispatcher is run once for each frame, while the application lets it run on (ReceiveAll, RunDispatcher); the handler is called behind the poll and not from within it, where it touches nothing that the poll still reads.
- ParseEncoded: metadata cut off in the middle of a record and a negative number of users are left out.
- RequestBehindGenerationIsLost: the client's view of a generation, in which header and reply race on the socket, is left out.
- MailboxIsSequential: EXIT, which ends both threads, is left out; so are DELETE and the STOP commands, which no thread executes; the verdicts of the hardware, the generated ids and their status are arbitrary.
- ListAgrees: PATH_MAX is 256 on both sides, as the project's own headers define it where the system does not.
- UpdateAgrees: the client's text is its bytes; encoding and decoding of UTF-8 are left out.
- Listen: connection failures other than an early end, and the reconnection, are a new call; the names come from a file that may change at any time, so they are arbitrary.
- ShowCameraFrame: the reports are the ones a frame calls for; ids that the unidentified carry over (UnidentifiedIdsAreZeroIff) are not repeated here.
- ReportStaysIff: the clock is any number given at each step.
- ColorsForFrame: Python's hash is an arbitrary function of the key; the lock makes a call one step, so calls of several drawing threads are a run of calls.
- ConversionRoundsTiesToEven: shift and mask are written as division and remainder by a power of two; zero fractional bits and more than thirty shift by an undefined amount in C.
- Real devices, sockets, files, logging and thread start-up; the simulator and the interactive client.
- QR images: the handler is a stub; its result is arbitrary.
- Camera streaming, drawing, the web pages and the reading of C headers by regular expressions.
- The wrappers for single commands (pause, resume, register access), which fill in a descriptor and carry out one request.
