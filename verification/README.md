# A verified model of the serial file-transfer stack

The program sends a file from one computer to another over a serial line. Its layers are

- byte stuffing and framing: `FLAG A C BCC1 stuffed(data ++ BCC2) FLAG`, composed in and parsed from one
  16384-byte buffer (`src/data_link_io.c`);
- reception from a byte stream that delimits frames on FLAG and resynchronises after noise
  (`f_receive_frame` in `src/data_link_io.c`, `serial_port_read` in `src/serial_port.c`);
- a stop-and-wait protocol with one parity bit on the wire and two nested retry loops that share a counter
  (`src/data_link.c`, `f_send_acknowledged_frame` in `src/data_link_io.c`);
- application packets: cutting a file into numbered packets, control packets with its size and name,
  reassembly, and two attempt-bounded session machines (`src/packets.c`);
- an independent stuffing utility (`working/filipe/utils/byte_stuffing.c`).

Every loop and every operation that updates state, as far as it is modelled (see "Left out"), is a method over
arrays, buffers and fields, proved against a specification function; the properties are proved about those functions for all inputs, all streams, all
scripts of events and all runs. The constants are the program's own.

| file | contents |
|---|---|
| `Bits.dfy`, `Codes.dfy` | bytes, exclusive or, byte codes and limits, the XOR check byte |
| `Stuffing.dfy` | stuffing and destuffing of byte strings, escapes and check bytes |
| `ByteStuffing.dfy` | the two-pass and in-place stuffing utility |
| `Framing.dfy` | composed frames, the parse loop, what a delimited frame means, bounds and round trip |
| `ErrorDetection.dfy`, `StaleBytes.dfy` | what corrupted frames are taken for; when old buffer contents decide |
| `Stream.dfy` | delimiting in a byte stream and resynchronisation |
| `DamagedLine.dfy` | error detection and resynchronisation together |
| `DataLinkIO.dfy` | the buffer, the moving pointers and the receive loops |
| `Control.dfy`, `Retry.dfy` | control bytes; the retry loops as one exchange; connecting and disconnecting |
| `StopAndWait.dfy` | both ends of the protocol over two lossy FIFO lines, as a step system |
| `ProtocolSteps.dfy` | the steps of the protocol are those of the code, and of FIFO lines that lose and corrupt |
| `Receiver.dfy`, `ReceiverRuns.dfy` | `receiver_read`, from the bytes on the line to the caller's buffer; what whole calls answer and how they end |
| `Packets.dfy`, `ControlPacket.dfy` | data packets and segmentation; start and end packets |
| `Reassembly.dfy`, `FailedReads.dfy` | the receiving application and its counters; reception when reads fail |
| `Sessions.dfy`, `SessionOutcomes.dfy` | `send_file` and `receive_file`; exactly when they succeed and give up |
| `EndToEnd.dfy` | the sending application, and a file through all the layers, on a clean line and on a lossy one |
| `Reception.dfy` | the receiving application on a clean line |

Conventions. A byte is an integer from 0 to 255, and `BitXor` is C's `^` on bytes. `stale` is the control byte
that a frame record held before a call: several paths of the parser leave it there and callers look at it. The
size of a received data frame counts its check byte, so a receiver needs one cell more than the maximum it
declares. Scripts of events, streams of bytes and lists of outcomes stand for what the hardware will do. An
alarm is modelled as the line falling silent.

## What the code does not do

Some properties one would expect hold only under a condition, and these are proved with it:

- *Safety of the protocol*: every state of a run is safe if and only if the transmitter is never mistaken in it,
  that is, never takes a reply for the RR of a frame that the receiver has not accepted
  (`StopAndWait.SafetyIff`). There are two ways to be mistaken, and both happen. A bad frame passes for the RR
  when it leaves the right control byte behind on the last attempt, as a garbled REJ can
  (`ErrorDetection.RejectReadAsAck`): `f_send_acknowledged_frame` returns 0 there
  and `transmitter_write` compares that byte before the next round would fail (`MisreadRun`). And the genuine
  RR of frame n passes for that of frame n + 2 when earlier misreads of accepted frames, harmless in themselves,
  left it on the line (`StaleAckRun`, with the program's three attempts). Without a misread neither happens
  (`NoMisreadSuffices`).
- *A lost RR is never repaired*: a copy of an accepted frame is answered with REJ, never with a second RR. Such a
  state is reachable (`AckGetsLost`); from it the write completes in exactly the runs with a misread
  (`LostAckIsFatal`), and a write whose frame was accepted can complete without one if and only if a reply that
  reads as its RR is still on the line (`RecoverableIff`).
- *At most one RR in flight*, for the current frame, holds throughout a safe run if and only if no misread leaves
  an RR behind (`StopAndWait.OneAckIff`); `StaleAckRun` ends with two, those of frames 0 and 1.
- *Error detection*: one changed byte of the body, as long as it makes neither a FLAG nor an unpaired ESC in
  front of the closing FLAG, passes unnoticed exactly when it changes the parity of the number of escapes,
  differs from the original by 0x5d and leaves the sizes within their limits (`ErrorDetection.ByteChangeDetected`);
  `ByteChangeUndetected` is such a change. Under the same proviso a single flipped bit never passes.
- *A byte turned into a FLAG* cuts the frame short: the verdict is that on what is left before it, and the rest is
  not looked at (`ErrorDetection.CutShort`). In particular one flipped bit turns a data frame whose first byte is
  7f into an accepted frame without data (`EmptiedByFlip`).
- *Independence of stale bytes*: what earlier frames left behind the closing FLAG can change the verdict on a frame
  if and only if its header is valid, its body ends in an unpaired ESC, and the loop gets that far within both
  size limits and can still accept: either the bytes before the ESC fold to 5e, which is what the ESC and the
  FLAG decode to, or there is room for one more byte (`StaleBytes.StaleBytesMatterIff`).
- *Room for a frame*: the cell behind the declared maximum is written exactly for frames with at least that much
  data (`Framing.ExtraCellWrittenIff`). With the program's packet size these are the full packets, and `llread`
  allocates no such cell.
- *Counting lost packets*: over an increasing run the counting is right at every delivery exactly when no gap
  crosses a multiple of 255 (`Reassembly.CountedRightIff`), and the final counters are right, with nothing
  counted as duplicated, under the same condition (`TotalsRightIff`). A packet counted as duplicated can hide a
  crossing in the sum of delivered and lost packets (`HiddenCrossing`); from the second round on it also throws
  whole rounds out of the counter (`DuplicateFallsBack`, `LostRounds`).
- *The catch-up loop* of `parse_data_packet` ends exactly for the numbers below 255 (`CatchUpEndsIff`).
- *File names* come back whole exactly when they have at most 255 bytes (`ControlPacket.RoundTrip`).
- *Termination of `send_file`* within a bounded number of steps holds exactly for zero or one attempt
  (`Sessions.SendEndsIff`), because a failed close goes back to sending the end packet.

Where a comment and the code disagree, the model follows the code: the comment on bad frames in
`f_send_acknowledged_frame` speaks of resetting the number of attempts, and the code lowers it
(`src/data_link_io.c:368-373`); the comment before `disconnect` (`src/data_link.c:138-140`) describes connecting.

## Model

| member | source | states |
|---|---|---|
| Stuffing.StuffTransparent | src/data_link_io.c:173-197 | stuffed bytes contain no FLAG, do not end in ESC and are at most twice as long |
| Stuffing.DestuffStuff | working/filipe/utils/byte_stuffing.c:14-21 | destuffing undoes stuffing on every byte string, and stuffing never leaves an unpaired ESC |
| Stuffing.StuffInjective | working/filipe/utils/byte_stuffing.c:14-21 | different strings never stuff to the same bytes |
| Stuffing.XorDestuff | src/data_link_io.c:141-165 | the check byte of the decoded bytes is that of the raw bytes, corrected by 0x5d iff the number of escapes is odd |
| Stuffing.ByteChangeFolds | src/data_link_io.c:141-165 | a body that folds to zero does so after a one-byte change iff the escape parity turns and the change is 0x5d |
| ByteStuffing.CountEscapes | working/filipe/utils/byte_stuffing.c:23-33 | the first pass predicts exactly the length of the stuffed data |
| ByteStuffing.InsertEscapes | working/filipe/utils/byte_stuffing.c:35-47 | the second pass fills exactly sz + count cells with the stuffed data |
| ByteStuffing.StuffBytes | working/filipe/utils/byte_stuffing.c:51-73 | no array for an empty input, otherwise a new array that holds the stuffed data and nothing more |
| ByteStuffing.DestuffBytes | working/filipe/utils/byte_stuffing.c:76-90 | -1 and no change iff the last byte is ESC; else the decoded bytes in place, later cells untouched, no read past sz |
| ByteStuffing.StuffThenDestuff | working/filipe/utils/byte_stuffing.c:105-121 | stuffing and then destuffing in place restores every non-empty input |
| Framing.ParseBodyBound | src/data_link_io.c:127-144 | the parse loop stores at most max_data_size + 1 bytes |
| Framing.ParseBodyMeaning | src/data_link_io.c:117-170 | from any offset, when the loop accepts, what it has decoded then, and how many bytes it stores in any case |
| Framing.ParseWindow | src/data_link_io.c:117-170 | no byte beyond index 8195 influences the parser |
| Framing.ParseMeaning | src/data_link_io.c:66-171 | on every buffer that starts with a delimited frame without dangling escape, the index-juggling loop computes the token-by-token meaning of the inside |
| StaleBytes.StaleBytesIgnored | src/data_link_io.c:73-170 | two buffers that agree up to the closing FLAG parse alike when the bytes before it do not end in an unpaired ESC |
| StaleBytes.UnambiguousWithoutEsc | src/data_link_io.c:134-143 | so they do when the byte before the closing FLAG is no ESC |
| StaleBytes.StaleBytesMatterAfterEscape | src/data_link_io.c:141-150 | two buffers that agree up to a closing FLAG behind an ESC, one accepted and one rejected |
| StaleBytes.TornVerdict | src/data_link_io.c:117-170 | the verdict on a frame whose body ends in an unpaired ESC, in terms of what follows the closing FLAG |
| StaleBytes.StaleBytesMatterIff | src/data_link_io.c:73-170 | exactly when two buffers with the same frame at the head can parse differently |
| Framing.ComposeBounds | src/data_link_io.c:205-250 | a composed frame has no FLAG inside, a body of at most 8190 bytes and at most 8195 bytes in all |
| Framing.RoundTrip | src/data_link_io.c:66-250 | parsing a composed frame gives its address, control and data followed by the check byte, whatever lies behind it |
| Framing.TooLargeRejected | src/data_link_io.c:127-132 | a receiver with too little room always rejects the frame |
| Framing.ExtraCellWrittenIff | src/data_link_io.c:127-144 | the cell behind the declared maximum is written iff the frame has at least that much data |
| ErrorDetection.HeaderChangeDetected | src/data_link_io.c:80-99 | any change of any one header byte gives a bad frame |
| ErrorDetection.ByteChangeDetected | src/data_link_io.c:118-170 | exactly which one-byte changes of a body go undetected, among those that make no FLAG and no unpaired ESC before the closing FLAG |
| ErrorDetection.ByteChangeUndetected | src/data_link_io.c:141-165 | a frame and a one-byte change that is accepted as different data |
| ErrorDetection.BitFlipDetected | src/data_link_io.c:118-170 | any flipped bit of a body gives a bad frame, even when it creates or destroys an escape, provided it makes no FLAG and no unpaired ESC before the closing FLAG |
| ErrorDetection.CutShort | src/data_link_io.c:149-163 | a body byte turned into a FLAG: the verdict is that on the part before it, accepted exactly under the stated condition |
| ErrorDetection.EmptiedByFlip | src/data_link_io.c:101-107 | a data frame that one flipped bit turns into an accepted frame without data |
| ErrorDetection.ControlByteLeftBehind | src/data_link_io.c:90-98 | a changed control byte other than FLAG gives a bad frame and is what remains in the record |
| ErrorDetection.RejectReadAsAck | src/data_link_io.c:90-98 | a REJ can be garbled into a bad frame that leaves the byte of any RR behind |
| Stream.ChunkShape | src/data_link_io.c:275-323 | what is handed to the parser is FLAG, FLAG-free bytes, FLAG, and lies contiguously in the stream before what remains |
| Stream.FindFrame | src/data_link_io.c:275-323 | a frame behind idle FLAGs, and behind noise when the last byte read is no FLAG, is found intact |
| Stream.FramesDelivered | src/data_link_io.c:264-334 | successive calls return exactly the list of frames on the line, whatever the buffer holds |
| Stream.FramesAvailable | src/data_link_io.c:264-334 | none of these calls waits for more input |
| Stream.NoiseThenFrame | src/data_link_io.c:275-333 | noise behind a frame costs at most one call and the next frame is found intact |
| Stream.LongNoise | src/data_link_io.c:303-323 | a run without FLAG that fills the buffer is dropped together with the FLAG that ends it |
| Stream.FramesSurviveNoise | src/data_link_io.c:264-334 | with noise before any frames, the calls not spent on noise return exactly the list of frames |
| DamagedLine.DamageDetected | src/data_link_io.c:264-334 | on a line where some frames have a flipped bit or a changed header byte, successive calls return the intact frames in their places and a bad frame for each of the others |
| DataLinkIO.FrameRecord.Append | src/data_link_io.c:144 | stores one more byte and touches no cell outside the record's room |
| DataLinkIO.ParseFrame | src/data_link_io.c:66-171 | the parser computes Parse of the buffer and writes no cell outside the max_data_size + 1 of the record |
| DataLinkIO.CheckHeader | src/data_link_io.c:73-115 | verdict and record after the header, including the control byte left on each path |
| DataLinkIO.ParseData | src/data_link_io.c:117-170 | the data loop decodes into the record as specified, accepted or not, writes exactly the cells of the decoded bytes, and terminates |
| DataLinkIO.DecodeOne | src/data_link_io.c:134-168 | one round of the loop, with its comparison of the check byte |
| DataLinkIO.SerialLink.CopyAndStuff | src/data_link_io.c:173-197 | appends the stuffing of the data and its check byte, within the buffer |
| DataLinkIO.SerialLink.SendFrame | src/data_link_io.c:205-250 | refuses data above 4094 bytes, else writes exactly the composed frame |
| DataLinkIO.SerialLink.Read | src/serial_port.c:135-178 | without ticks and errors: reads up to and including the delimiter or maxc bytes; the two last-byte variables; interruption reports nothing |
| DataLinkIO.SerialLink.HuntForFlag | src/data_link_io.c:276-292 | the first loop reads up to a FLAG without changing which frame comes next |
| DataLinkIO.SerialLink.SkipIdle | src/data_link_io.c:296-315 | the second loop leaves the next chunk in the buffer |
| DataLinkIO.SerialLink.ReceiveFrame | src/data_link_io.c:264-334 | parses the next chunk of the stream, or times out on a silent line |
| Control.RepliesAreDistinct | src/data_link.c:15-23 | the control bytes tell exactly parity and verdict and never collide with each other, UA, DISC or a timeout's zero |
| Control.ControlBytesOnTheWire | src/data_link.c:15-23 | the reply and control bytes for every frame number: 81, 87 and 00 for even ones, 01, 07 and 40 for odd ones |
| Control.RejectBytes | src/data_link_io.c:374-376 | the bytes that count as REJ are those with the three lowest bits set, SET included |
| Control.FramesOnTheWire | src/data_link_codes.h:1-12 | the bytes of SET, DISC, UA, RR and REJ frames and of data headers |
| Control.ControlBytesSendable | src/data_link_codes.h:5-12 | every control byte in use gives a header without FLAG |
| Retry.ExchangeSucceedsIff | src/data_link_io.c:337-383 | success iff the expected reply comes before the last failure allowed, or that failure leaves its control byte behind |
| Retry.SendsBounded | src/data_link_io.c:337-383 | at most N frames plus one per unexpected reply are sent |
| Retry.ExchangeEnds | src/data_link_io.c:337-383 | where an exchange ends (first confirmation, first fatal event, last failure allowed, or a silent line) and exactly how many copies it has sent |
| Retry.Conversions | src/data_link_io.c:338-341 | the conversions between int and unsigned keep the value modulo 2^32 |
| Retry.AttemptsOf | src/data_link_io.c:338-343 | a positive setting allows just so many attempts, all used on a silent line |
| Retry.LoopsAreOneExchange | src/data_link.c:111-131 | inner loop plus whatever the outer one goes on with is one exchange |
| Retry.SuccessSends | src/data_link_io.c:337-383 | an exchange that succeeds has sent its frame at least once |
| Retry.Station.SendAcknowledgedFrame | src/data_link_io.c:337-383 | counter, control byte, frames sent and events consumed by the inner loop |
| Retry.Station.TransmitterWrite | src/data_link.c:94-136 | the nested loops, with the counter passing 0 and -1 through unsigned, are one exchange; only success advances the frame number |
| Retry.Station.Negotiate | src/data_link.c:69-84 | the retry loop for supervision frames is one exchange |
| Retry.Station.TransmitterConnect | src/data_link.c:56-92 | active iff the port opens and UA arrives in time; only SETs are sent |
| Retry.Station.Disconnect | src/data_link.c:141-178 | success iff DISC arrives in time and UA and closing work; inactive in every case |
| Retry.Station.HandleDisconnect | src/data_link.c:25-47 | success iff UA arrives in time and closing works; inactive in every case |
| StopAndWait.WriteIsExchange | src/data_link.c:94-136 | the transmitter steps of the protocol are the exchange of the retry loops for every script: verdict, copies sent and frame number |
| ProtocolSteps.RunIsExchange | src/data_link.c:94-136 | over any run of transmitter steps: verdict, frame number, completed payloads, attempts left, copies sent and replies taken are those of the retry loops |
| ProtocolSteps.WholeWrite | src/data_link.c:94-136 | a whole write from the call on, with its first copy, is the exchange; without attempts nothing is sent |
| ProtocolSteps.RejectCosts | src/data_link_io.c:374-376 | each REJ taken costs one attempt and puts one more copy on the line unless it was the last |
| ProtocolSteps.ReceiverStepsAgree | src/data_link.c:214-283 | the receiver steps of the protocol take the next frame and are those of receiver_read: verdict, reply, frame number and content |
| ProtocolSteps.LinesDegradeIff | src/data_link_io.c:264-334 | line steps lead from one state to another iff both lines keep their order and elements only get lost or garbled |
| StopAndWait.StepKeepsInv | src/data_link.c:94-136 | every step keeps the protocol invariant unless the transmitter is mistaken |
| StopAndWait.ParityDecides | src/data_link.c:233-279 | with parity alone the receiver accepts exactly the frame it waits for and answers older copies with REJ |
| StopAndWait.SafetyIff | src/data_link.c:94-283 | in a run, accepted payloads are always the completed ones in order plus at most the one being written, iff the transmitter is never mistaken |
| StopAndWait.UnsafeIff | src/data_link.c:111-131 | from an invariant state a step breaks safety iff the transmitter takes a reply for the RR of a frame not yet accepted |
| StopAndWait.MisreadRun | src/data_link_io.c:368-373 | a run of three attempts, safe so far, in which a bad frame is taken for the RR of a frame that was never accepted |
| StopAndWait.StaleAckRun | src/data_link.c:111-131 | a run, safe so far, with the RRs of frames 0 and 1 in flight, in which that of frame 0 is taken for that of frame 2, which is lost |
| StopAndWait.NoMisreadSuffices | src/data_link.c:94-283 | without a misread every state is safe and has at most one RR in flight |
| StopAndWait.OneAckIff | src/data_link.c:251-279 | at most one RR is ever in flight, and for the current frame, iff no misread leaves an RR behind |
| StopAndWait.EachAckOnce | src/data_link.c:251-279 | over every run the RRs sent are those of 0, 1, .., rx - 1, each once and in order |
| StopAndWait.AckGetsLost | src/data_link.c:267-279 | a run without a misread after which the current frame is accepted and its RR is gone |
| StopAndWait.LostAckIsFatal | src/data_link.c:251-264 | from there the write completes in exactly the runs with a misread, and until then nothing more is accepted |
| StopAndWait.RecoverableIff | src/data_link.c:111-131 | a write whose frame was accepted can complete without a misread iff a reply that reads as its RR is on the line |
| Receiver.TallyAccounts | src/data_link.c:214-283 | content is that of the accepted frames in order; the frame number grows by exactly these while replies are written |
| Receiver.Connection.ReceiverRead | src/data_link.c:214-283 | on any byte stream: result, buffer, frame number, replies on the line and activity are those of the account of the frames received, at most max_num_frames of them |
| Receiver.Report | src/data_link.c:214-283 | the rounds of the loop, one after the other, amount to successive receptions of the stream and their account, each asked for with the room then left |
| Receiver.Connection.ServeOne | src/data_link.c:229-281 | one frame's effect on buffer, frame number and line |
| Receiver.Connection.Answer | src/data_link.c:233-280 | what each return code and control byte leads to |
| ReceiverRuns.EachAnswered | src/data_link.c:214-283 | over every call: each frame is answered, with RR exactly for the expected one; a disconnect or a failed reply ends the call; the number grows by the RRs written |
| ReceiverRuns.ReplyInTurn | src/data_link.c:233-279 | reply i is the one to reception i |
| ReceiverRuns.DisconnectedIff | src/data_link.c:248-250 | a call is disconnected iff it received a good frame with control byte 0b, which then was its last |
| ReceiverRuns.ReadDisconnect | src/data_link.c:248-250 | on a stream that starts with a DISC: nothing stored or answered, the connection inactive, the rest unread |
| Packets.ChunksConcat | src/packets.c:181-216 | cutting a file loses, repeats and reorders nothing |
| Packets.ChunksShape | src/packets.c:181-190 | ceil(size / max) chunks, the remainder first, every later one full |
| Packets.BytesAccount | src/packets.c:168-228 | bytes offered are bytes acknowledged plus bytes of packets given up |
| Packets.OffersAccount | src/packets.c:168-228 | over any retries: number of packets, numbers mod 255, true length fields, and file size = acknowledged + given up |
| Packets.WritePacket | src/data_link.c:94-136 | only copies of the packet's frame go out, at least one on success, and exactly one when confirmed promptly |
| Packets.FileSender.SendDataPackets | src/packets.c:168-228 | offers the remaining chunks in order until a write fails, each exactly once over all calls, ceil(size / limit) of them and all but the first of the user's limit or else of a full packet; the frames sent are theirs, one of each under prompt replies |
| Packets.FileSender.SendNext | src/packets.c:178-226 | one round offers the next chunk under the next number and sends its frame only |
| Packets.FileSender.NextPacket | src/packets.c:180-217 | cuts off the next chunk and builds its packet |
| Packets.FileSender.BuildPacket | src/packets.c:200-217 | header and payload of a data packet |
| ControlPacket.RoundTrip | src/packets.c:380-438 | size and name come back from the packet built at 133-156, whatever the unwritten byte, iff the name has at most 255 bytes |
| ControlPacket.ParseIff | src/packets.c:380-438 | the parser accepts exactly the buffers that start with a control packet of some file, and returns its size and name |
| ControlPacket.Layout | src/packets.c:133-156 | every byte of a control packet |
| ControlPacket.SendControlPacket | src/packets.c:105-166 | nothing is sent above the packet size, else copies of the packet's frame and the verdict of the write |
| ControlPacket.FillControlPacket | src/packets.c:133-156 | the packet is filled field by field, index 11 is left alone |
| Reassembly.Statistics.ParseDataPacket | src/packets.c:440-488 | payload by its length bytes; the catch-up loop ends for every number below 255 and counts exactly the difference |
| Reassembly.DeliveryCountsIff | src/packets.c:461-485 | one delivery counts right iff no multiple of 255 lies in its gap |
| Reassembly.CountedRightIff | src/packets.c:461-485 | an increasing run counts right throughout iff no gap crosses a multiple of 255 |
| Reassembly.DeliveredPlusLost | src/packets.c:335-366 | over such a run delivered + lost packets add up to the numbers passed |
| Reassembly.TotalsRightIff | src/packets.c:335-366 | over any increasing run the final counters are right, with no duplicate counted, iff no gap crosses a multiple of 255 |
| Reassembly.HiddenCrossing | src/packets.c:461-485 | a run with a crossing whose sum of delivered and lost packets is right all the same |
| Reassembly.DuplicateFallsBack | src/packets.c:478-481 | a duplicate throws all whole rounds of 255 out of the counter |
| Reassembly.LostRounds | src/packets.c:461-485 | a run with a crossing after which the counter is wrong for good |
| Reassembly.CatchUpEndsIff | src/packets.c:472-477 | the catch-up loop ends iff the number received is below 255 |
| Reassembly.ReadBack | src/packets.c:440-455 | a sender's packet is read back whatever follows it in the buffer |
| Reassembly.FileReceiver.ReceiveDataPackets | src/packets.c:322-378 | return code, bytes written and statistics for every sequence of packets and failed reads |
| Reassembly.FileReceiver.ReceiveDataPacket | src/packets.c:519-559 | data, end and foreign packets |
| Reassembly.CollectInOrder | src/packets.c:322-378 | numbered packets and an end packet give exactly their payloads, nothing counted as lost |
| Reassembly.CollectSoFar | src/packets.c:335-366 | before the end packet, exactly the payloads so far have been written |
| FailedReads.CollectStops | src/packets.c:322-378 | for any arrivals: where the reception stops, with which result, exactly what it has written, and the counters |
| FailedReads.CollectIff | src/packets.c:335-378 | 0 iff an ending packet comes before the attempts are used up, -1 iff they are used up before one |
| FailedReads.InOrderDespiteFailures | src/packets.c:339-346 | packets in order with failing arrivals anywhere between them, fewer than the attempts: exactly the payloads, nothing lost |
| FailedReads.CompleteDespiteFailures | src/packets.c:322-378 | and with an end packet behind them the result is 0 and the payloads |
| FailedReads.NoAttempts | src/packets.c:335-375 | without attempts the result is -1 and nothing is written |
| Sessions.SendOrder | src/packets.c:20-103 | a run that returns 0 did open, start packet, data, one or more end packets, close, in this order |
| Sessions.SendFile | src/packets.c:20-103 | the machine for every script of outcomes, with the failed close that goes to state 3 |
| SessionOutcomes.SendIff | src/packets.c:20-103 | it returns 0 after k steps iff open, start packet and data each succeed within their attempts and then end packet and close do, one attempt fewer after each failed close |
| Sessions.SendEndsIff | src/packets.c:82-95 | the number of steps is bounded iff zero or one attempt is allowed |
| Sessions.ReceiveBounded | src/packets.c:230-295 | steps still possible from every state, and that they suffice |
| Sessions.ReceiveFile | src/packets.c:230-295 | at most 3N + 1 outer steps for N >= 1 attempts, and it returns within them; -1 at once for none |
| SessionOutcomes.ReceiveIff | src/packets.c:230-295 | it returns 0 after k steps iff open, start packet and close succeed within their attempts and the data step at once; -1 iff some attempts run out or the data step fails |
| Sessions.BoundReached | src/packets.c:230-295 | the bound 3N + 1 is reached |
| EndToEnd.BoundChain | src/packets.c:181-192 | every packet of a transfer passes the size check of src/data_link_io.c:222-230, fits all buffers, and a receiver with room for one packet takes it |
| EndToEnd.PacketsGiveFile | src/packets.c:322-378 | the packets of a transfer, each followed by anything in its buffer, give back file, size and name |
| EndToEnd.SendData | src/packets.c:168-228 | all of a file's data packets are offered and their frames sent, or the write of the last one offered failed |
| EndToEnd.SendTransfer | src/packets.c:43-81 | start packet, data packets and end packet on one connection: on success only copies of the transfer's frames, in order; with prompt replies exactly these frames |
| EndToEnd.CleanTransfer | src/packets.c:168-228 | when the frames that SendTransfer puts on the line arrive without errors, each read accepts its packet at once and the file comes out unchanged |
| Reception.AcksArePrompt | src/data_link.c:267-279 | the replies of the receiving application are the prompt ones that SendTransfer asks for |
| Reception.OneReception | src/data_link.c:214-283 | a call for one frame on a stream that starts with the expected frame makes one reception and accepts it |
| Reception.ReadPacket | src/packets.c:490-517 | llread on such a stream: the packet and its check byte at the head of a fresh buffer, and its RR on the line |
| Reception.ReadAll | src/packets.c:335-366 | reads exactly the packets of a transfer, one call each, up to its end packet |
| Reception.ReceiveTransfer | src/packets.c:297-378 | from the bytes of a transfer on the line to the same file, size and name, with exactly the RRs of its packets as replies |
| EndToEnd.LossyTransfer | src/packets.c:440-488 | over every lossy run in which the transmitter is never mistaken and all packets were reported as written, the receiver gets exactly the file |
| EndToEnd.PrefixAtEveryMoment | src/packets.c:322-378 | at every moment of every run in which the transmitter is never mistaken, a prefix of the file has been written |

## Left out

- Serial port set-up, opening and closing, `sleep`, baud rates, memory allocation failures, debug output and the
  printed statistics: plumbing. `src/netlink.c` and `src/file.c` are not part of this model.
- DataLinkIO.SerialLink.Read: no micro-timeout tick, which returns what has arrived so far, and no error of the
  system call; an interrupting alarm is a line that falls silent.
- DataLinkIO.SerialLink.ReceiveFrame: the alarm only goes off on a silent line, and read errors and ticks are
  left out, as in all stream theorems.
- `receiver_listen` and `wait_for_disconnect`: they act on a control byte that a bad frame leaves behind.
- Replies that carry data: the data pointer of the reply record is uninitialised, so replies are supervision
  frames or bad frames.
- Delivery after a failed `transmitter_write`: the next write reuses the frame number for another payload, so
  the protocol theorems stop at the first failure.
- Integer widths: frame numbers, sizes and counters are unbounded. A wrapping `unsigned long` keeps its parity;
  `int` indices that overflow for huge sizes are not modelled. The conversions between `int` and `unsigned` of
  the retry counter are.
- StopAndWait.SafetyIff: payloads have no check byte there; ProtocolSteps.ReceiverStepsAgree adds it. Reply writes do
  not fail at that level, as they may in Receiver.Connection.ReceiverRead.
- Receiver.Connection.ReceiverRead: needs one cell more than max_data_size, without which a full frame is written
  outside the buffer (Framing.ExtraCellWrittenIff); `llread` does not allocate it. On DISC it only clears the
  activity and stops; the exchange that answers is Retry.Station.HandleDisconnect.
- Receiver.Connection.ServeOne: needs the same extra cell.
- Retry.Station.Negotiate: one loop for connect, disconnect and handle_disconnect, which repeat it in the source.
- Reassembly.Statistics.ParseDataPacket: only packets with a number below 255, since for 255 the catch-up loop is
  endless (Reassembly.CatchUpEndsIff), and with a length inside the buffer, since the source reads beyond it.
- Reassembly.FileReceiver.ReceiveDataPackets: the same condition on data packets.
- Reassembly.FileReceiver.ReceiveDataPacket: the same condition on data packets.
- Sessions.SendFile: opening, packets and closing are outcomes in a script; the operations themselves are in
  Packets, ControlPacket, Retry and EndToEnd. The same holds for Sessions.ReceiveFile.
- ByteStuffing.DestuffBytes: needs a non-empty input, since the source looks at the byte before the end.
- EndToEnd.SendTransfer: stops at the first step that fails; the retries of send_file are in Sessions.
- Reception.ReadPacket: `llread` and `receive_start_control_packet` appear only on an active connection with the
  expected frame at the head of the stream, and with the extra cell; their error returns are outcomes in
  Reassembly and Sessions.
- Reception.ReadAll: reads all packets before they are put together; the source does both in turn.
- EndToEnd.CleanTransfer: replies reach the transmitter intact; each needs one copy of its packet.
- The rest of `working/`, `example_code/` and the tests, which need hardware.
