# Selective Repeat file transfer over UDP: a verified model

`server` sends a file to `rcopy` over UDP with a Selective Repeat protocol: both
ends keep a ring of panes indexed by `seq % window_size`, the receiver answers
with RR, SREJ and an EOF acknowledgement, and a library between the program and
the socket drops packets or complements one of their bytes. This project models
both ends, the ring, the packets, the checksum and the error injector, and
proves what the transfer keeps under loss, duplication, reordering and
corruption, exactly when it reproduces the file, and how soon it ends.

## How the model is laid out

| file | part of the program |
|---|---|
| `Bytes.dfy`, `Checksum.dfy`, `Pdu.dfy` | bytes, `in_cksum`, packet layout and error detection |
| `PacketManager.dfy` | the message events and the sending side of the error injector |
| `FilenameRequest.dfy` | the request that tells the server name, window and buffer size |
| `WindowBuffer.dfy` | the ring of panes |
| `Protocol.dfy` | both ends as functions over values, and the system they form with the network |
| `Sender.dfy`, `Receiver.dfy`, `Loops.dfy` | the same ends as classes with loops and fields, proved equal to those functions |
| `Chunks.dfy`, `Invariant.dfy`, `Safety.dfy` | the cut of the file into packets, the inductive invariant, what it gives for runs |
| `Messages.dfy` | exactly which messages each operation of the server sends |
| `Progress.dfy` | rounds without loss and the bound on their number |
| `Refinement.dfy` | the receiver's ring against a receiver that never recycles a pane |
| `LoopRuns.dfy` | the two main loops against runs of the system, in both directions, and what each turn answers |
| `Exactness.dfy`, `PeriodicFiles.dfy` | where the promise of a faithful copy fails, with exact conditions |
| `Wire.dfy` | messages as packets: why the channel is the network of `Protocol.dfy` |

The network is the set of all messages ever sent; any of them may be delivered
at any time, any number of times or never. A separate step hands an end a
packet that fails `in_cksum`. A state is *reachable* when some run leads to it
in which every SREJ the server acts on names a packet it has already sent (a
*clean* run). The code does not check that, so runs without the condition are
modelled too (`ReachableAnyhow`).

## Where the code differs from what is said about it

* The repository's README promises reliable transfer. The copy equals the file
  in every completed clean run if and only if the file is a whole number of
  buffers long (`Exactness.AlwaysReproducesFileIff`). A short last chunk read in
  the initial fill is written as a full buffer, so no completed run gives the
  file; one read later rides in the first EOF only, and is lost when a resent
  EOF is the one accepted (`Exactness.CanReproduceFileIff`).
* `server.c` answers an SREJ without comparing it with `nextSeq`. After a
  corrupted packet it can send an old pane under a new number. Wrong bytes can
  be written exactly when the file does not repeat itself with the period of one
  window (`PeriodicFiles.AlwaysAgreesIff`), and the receiver can be driven past
  the end exactly when the file does not go out whole in the initial fill
  (`Exactness.NeverOvershootsIff`).
* The comment in `checksum.c` says that odd lengths read a byte beyond the data;
  the code reads the last byte alone. The model follows the code.
* The comment in `windowBuffer.h` says the window moves by a size in bytes; the
  code moves both edges by the number of packets. The model follows the code.

## Model

| member | source | states |
|---|---|---|
| Checksum.InCksum | libcpe464/checksum.c:58-86 | the loop with deferred carries and two folds returns the RFC 1071 checksum, for even and odd lengths on hosts of either byte order, without overflowing the 32-bit accumulator |
| Checksum.DeferredCarries | libcpe464/checksum.c:70-83 | folding the plain word sum once at the end equals adding word by word with end-around carry (RFC 1071 sections 1 and 2) |
| Checksum.TwoFolds | libcpe464/checksum.c:81-84 | two folds reduce every accumulator value below 2^31 to its ones' complement sum |
| Checksum.AccumulatorBound | libcpe464/checksum.c:60-73 | up to 65536 bytes of any content keep the signed accumulator in range |
| Checksum.VerifiesIff | rcopy.c:317-320 | a buffer passes the receive test if and only if its word sum is a positive multiple of 0xFFFF |
| Checksum.OddByteIsZeroPadded | libcpe464/checksum.c:75-79 | an odd last byte counts as if a zero byte followed it |
| Checksum.ByteOrderIndependence | libcpe464/checksum.c:58-86 | summing on a host of the other byte order gives the byte-swapped sum (RFC 1071 section 2 (B)) |
| Checksum.VerifiesOnEitherOrder | libcpe464/checksum.c:58-86 | hosts of either byte order accept exactly the same packets |
| Checksum.Rfc1071Example | libcpe464/checksum.c:58-86 | the worked example of RFC 1071 section 3 comes out, in both byte orders |
| Bytes.NetworkOrder | helperFunctions.h:9-13 | numbers travel most significant byte first |
| Pdu.SendPdu | helperFunctions.c:22-56 | copying header and payload, computing the checksum and overwriting its field gives the sealed packet; oversized payloads and a missing destination send nothing |
| Pdu.SealedVerifiesIff | helperFunctions.c:41-50 | the packet built passes in_cksum if and only if the header came in with a ones' complement zero in its checksum field |
| Pdu.SealedRoundTrip | helperFunctions.c:22-50 | with a zero checksum field the packet verifies on either byte order and parses back to its sequence number, flag and payload |
| Pdu.ByteChangeDetected | libcpe464/MsgEvents/errorFlipBits.cpp:21-24 | changing any one byte of a packet that verifies makes it fail |
| Pdu.WordChangeUndetectedIff | libcpe464/checksum.c:70-85 | changing one aligned word goes unnoticed exactly when it swaps 0x0000 and 0xFFFF and does not leave an all-zero packet |
| PacketManager.ErrorDrop.constructor | libcpe464/MsgEvents/errorDrop.cpp:9-12 | a new drop event drops everything |
| PacketManager.ErrorDrop.SetDropAll | libcpe464/MsgEvents/errorDrop.cpp:14-19 | sets the flag and keeps the list |
| PacketManager.ErrorDrop.SetDropSpecific | libcpe464/MsgEvents/errorDrop.cpp:21-27 | installs the list and switches drop-all off |
| PacketManager.ErrorDrop.Run | libcpe464/MsgEvents/errorDrop.cpp:29-63 | the scan answers drop exactly for drop-all or a listed message number, and an error for a null buffer |
| PacketManager.FlipBits | libcpe464/MsgEvents/errorFlipBits.cpp:9-27 | complements the drawn byte in place and nothing else |
| PacketManager.PacketManager.AddMsgEventStandard | libcpe464/PacketManager.cpp:76-86 | appends an event to the standard events only; a null one is refused |
| PacketManager.PacketManager.AddMsgEventRandom | libcpe464/PacketManager.cpp:88-98 | appends an event to the random events only; a null one is refused |
| PacketManager.PacketManager.RunMsgEvents | libcpe464/PacketManager.cpp:100-130 | the loop over live event objects gives the code and buffer of running their configurations in order up to the first drop |
| PacketManager.PacketManager.ProcessEvents | libcpe464/PacketManager.cpp:132-189 | standard events, then at most one random event, which runs even after a drop; a drop by either wins |
| PacketManager.PacketManager.SendtoErr | libcpe464/PacketManager.cpp:346-405 | counts the message modulo 2^32, works on a copy, reports the full length even for a dropped packet and puts the processed copy on the wire |
| PacketManager.StandardEventsKeepTheBytes | libcpe464/PacketManager.cpp:100-130 | without a flip among them the standard events never alter the buffer, and drop exactly when one of them was set for this message |
| PacketManager.LostIff | libcpe464/PacketManager.cpp:132-189 | a send is lost if and only if a drop event that ran was set for it |
| PacketManager.ChannelAltersAtMostOneByte | libcpe464/PacketManager.cpp:346-405 | what goes on the wire is the packet or the packet with one byte complemented |
| PacketManager.AcceptedMeansUnaltered | libcpe464/PacketManager.cpp:346-405 | a packet that passes the receive test after the channel is the packet that was sent |
| PacketManager.WireExactly | libcpe464/PacketManager.cpp:346-405 | what is not lost goes out with exactly the drawn byte complemented if a flip ran, and unaltered otherwise |
| PacketManager.FlipIsRejected | libcpe464/MsgEvents/errorFlipBits.cpp:21-24 | a flip that ran is always noticed by the receive test |
| FilenameRequest.SendFilename | rcopy.c:253-286 | the buffer filled at a moving offset holds window size, buffer size, name length and name, and leaves as a sealed packet with flag 8 |
| FilenameRequest.ChildContext.ProcessClient | server.c:361-392 | a well-formed request fills the context and is answered Ok or Not Ok; any other leaves it untouched and fails |
| FilenameRequest.RequestRoundTripIff | rcopy.c:253-279 | the server decodes the three values rcopy was given if and only if the sizes are 32-bit values and the name length fits a byte; the length check never rejects them |
| FilenameRequest.BothEndsAgree | server.c:361-380 | a request accepted after the channel gives the server rcopy's own window size, buffer size and name |
| FilenameRequest.RequestLayout | rcopy.c:258-279 | window size, then buffer size, then one length byte, then the name, behind a header with number 0 and flag 8 |
| FilenameRequest.HandshakeAgrees | rcopy.c:213-230 | rcopy's comparison of the answer with Ok succeeds if and only if the server found the file readable |
| WindowBuffer.WindowBuffer.constructor | windowBuffer.c:2-18 | init_window sets sizes and edges, marks every pane unused and leaves malloc's bytes in them |
| WindowBuffer.WindowBuffer.SlideWindow | windowBuffer.c:20-24 | both edges move by the given number of packets |
| WindowBuffer.SlotsDiffer | server.c:326-334 | sequence numbers less than a window apart never share a pane |
| Sender.Transfer.constructor | server.c:242-244 | the sender starts with an unused ring and all counters zero |
| Sender.Transfer.ReadIntoPane | server.c:332-334 | fread overwrites the front of the pane in place, moves the file position and sets feof exactly on a short read |
| Sender.Transfer.SendDataPacket | server.c:316-328 | sends the first bytes of whatever the pane of this number holds |
| Sender.Transfer.SendInitialPacket | server.c:248-260 | one turn of the initial loop: data if bytes were read, EOF and stop at the end of the file |
| Sender.Transfer.SendInitialWindow | server.c:246-262 | the initial loop reaches the state and sends the messages of the initial fill, in order |
| Sender.Transfer.SendNext | server.c:330-344 | a short read makes the packet the EOF, carrying the bytes read |
| Sender.Transfer.RetransmitPackets | server.c:346-360 | one resend for each number from base to nextSeq, in order, EOF without bytes |
| Sender.Transfer.HandlePacket | server.c:268-296 | the state and messages of the protocol's server step for RR, SREJ and the EOF acknowledgement |
| Sender.Transfer.FillWindow | server.c:282-285 | the fill loop stops when the window is full or EOF was sent |
| Sender.Transfer.TransferData | server.c:264-301 | the whole main loop gives the state, messages and number of turns of the server loop function |
| Receiver.FileReceiver.constructor | rcopy.c:296-298 | the receiver starts with an unused ring, expecting packet 0 |
| Receiver.FileReceiver.WriteContiguous | rcopy.c:345-349 | the flush loop writes the expected pane and all that follow it in the ring, in order |
| Receiver.FileReceiver.HandlePacket | rcopy.c:309-360 | the state and answer of the protocol's receiver step, for EOF, expected, early, late and out-of-window packets |
| Receiver.FileReceiver.StateFileReceive | rcopy.c:288-363 | the whole loop gives the state, answers and number of turns of the receiver loop function |
| Loops.ServerLoopEnds | server.c:265-297 | if K packets arrive in all, the server's loop ends within 10 * (K + 1) turns, with EOF acknowledged or timeouts used up |
| Loops.ClientLoopEnds | rcopy.c:300-309 | the same for the receiver's loop |
| LoopRuns.ServerTurnCounts | server.c:268-297 | a timeout adds one to the count, any packet, corrupted or not, clears it |
| LoopRuns.ServerIgnoresCorrupt | server.c:269-272 | a corrupted packet makes the server send nothing and clears the count alone |
| LoopRuns.ClientTurnAnswers | rcopy.c:303-360 | RR answers a timeout and data not ahead of what is expected, EOF's acknowledgement the expected EOF alone, SREJ everything else, always numbered with the new expectedSeq; only the expected data packet moves the receiver |
| LoopRuns.ClientLoopAnswers | rcopy.c:300-361 | the loop's answer i is that answer, given by the receiver after i turns to arrival i, or to a timeout past the last |
| LoopRuns.ServerGivesUp | server.c:265-297 | with nothing arriving the loop sends its window once for each timeout left of ten and stops, its window unchanged |
| LoopRuns.ClientGivesUp | rcopy.c:300-308 | with nothing arriving the loop repeats its RR for each timeout left of ten and stops |
| LoopRuns.ServerLoopIsRun | server.c:264-301 | the loop on deliverable arrivals is a run of the system: one step a turn, ending in the loop's state, the messages ever sent grown by exactly the loop's |
| LoopRuns.ClientLoopIsRun | rcopy.c:300-361 | the same for the receiver's loop and its answers |
| LoopRuns.RunIsServerLoop | server.c:264-301 | in every run of the system, however interleaved, the server's states and messages are those of its loop on the run's arrivals |
| LoopRuns.RunIsClientLoop | rcopy.c:300-361 | the same for the receiver's loop, its output and its answers |
| LoopRuns.LoopsStayReachable | server.c:264-301 | from a clean reachable state each loop, given packets sent and clean SREJs, ends in a clean reachable state, where every safety result holds |
| Refinement.FlushWithinWindow | rcopy.c:345-349 | the flush loop writes at most one window of panes, whatever the ring holds |
| Refinement.StoreSimulates | rcopy.c:337-340 | storing a pane disturbs no packet that is still needed: the ring keeps the newest accepted packet of each slot |
| Refinement.FlushSimulates | rcopy.c:343-350 | the flush loop stops at the least sequence number never accepted |
| Refinement.RingRefinesUnbounded | rcopy.c:337-360 | for every sequence of data packets the ring gives the same answers and output as a receiver with a pane of its own for every number |
| Chunks.EofSeqBounds | server.c:248-262 | a file shorter than a window of buffers has EOF at number w or below, any other at w or above, numbered by its full buffers |
| Invariant.ReadPaneHolds | server.c:332-334 | reading the next chunk fills its own pane and leaves every unacknowledged pane alone |
| Invariant.InitialFillInv | server.c:246-262 | after the initial fill the invariant holds, and EOF was sent if and only if the file is shorter than a window of buffers |
| Messages.InitialWindowExactly | server.c:246-262 | the initial fill sends exactly Data(i, Chunk(i)) for i below the smaller of w and EOF's number, in order, then an empty EOF if and only if the file is shorter than a window of buffers |
| Messages.SendNextExactly | server.c:330-344 | the next packet carries the next chunk, and is the EOF exactly when it has EOF's number, left-over bytes included |
| Messages.MainFillExactly | server.c:282-285 | the fill loop sends each packet that came into the window once, in order, up to the window's edge or EOF |
| Messages.MovedWindowExactly | server.c:277-285 | in every clean reachable state an RR beyond the base makes the server send exactly those packets, and none once EOF was sent |
| Messages.SrejAnsweredExactly | server.c:289-292 | an SREJ is answered by exactly one message of its number: an empty EOF if and only if it is EOF's, a full buffer otherwise, starting with its chunk while unacknowledged |
| Messages.TimeoutAnsweredExactly | server.c:297 | a timeout sends one such message for each number from base to nextSeq - 1, in order, in any state |
| Messages.OtherwiseSilent | server.c:286-295 | an old RR and the EOF acknowledgement make the server send nothing and leave its window alone |
| Invariant.ServerReceiveInv | server.c:277-295 | every reaction of the server to a clean packet keeps its invariant, sends only well-labelled messages and moves the base to the RR alone |
| Invariant.ClientReceiveInv | rcopy.c:327-360 | every reaction of the receiver keeps its invariant, never moves it back and acknowledges EOF only on accepting it |
| Invariant.NextInv | server.c:265-297 | the invariant over both ends and all messages ever sent is inductive for every clean step, corruption included |
| Safety.OutputAgreesWithFile | rcopy.c:300-361 | until EOF is accepted the output has expectedSeq buffers, and it never disagrees with the file |
| Safety.CompletedOutput | rcopy.c:327-347 | the output after EOF by case: exact, padded to a full buffer, or exact or cut before the left-over bytes |
| Safety.AcceptedEofDecides | rcopy.c:327-332 | the step that accepts EOF makes the output the file if and only if nothing was left over or this EOF copy carried the left-over bytes |
| Safety.OnlyFirstEofCarriesBytes | server.c:336-342 | an EOF with bytes is sent only in the step that first sends EOF |
| Safety.StaleLabelsAreOld | server.c:289-292 | a data message whose payload does not start with its chunk is below what the receiver expects |
| Safety.NeverOutsideWindow | rcopy.c:358-360 | the receiver's out-of-window branch is never taken |
| Safety.WindowOrdering | server.c:248-285 | base, expectedSeq and nextSeq stay ordered within a window, the edges follow the base, and no 32-bit expression wraps |
| Safety.TimeoutResendsTheWindow | server.c:346-360 | a timeout sends exactly one message per unacknowledged number, in order, each data packet starting with its own chunk |
| Safety.EndAgreement | server.c:293-295 | the server sees EOF acknowledged only when the receiver accepted it, with every data packet written once and in order |
| Safety.IntactRunsAreClean | rcopy.c:333-359 | if no packet reaches the receiver corrupted, every SREJ ever sent names a packet already sent, and never EOF |
| Progress.RoundAdvances | server.c:277-297 | a round without loss raises the base to the old nextSeq, or ends both sides if EOF was out |
| Progress.TransferFinishes | server.c:265-297 | from any clean reachable state with timeouts left, the packets still open divided by the window, rounded up, bound the rounds to the end |
| Progress.FreshTransferFinishes | server.c:234-301 | ceil((N + 1) / w) rounds finish a transfer of N data packets |
| Exactness.AlwaysReproducesFileIff | rcopy.c:327-347 | every completed clean run reproduces the file if and only if its length is a multiple of the buffer size |
| Exactness.LeftOverLost | server.c:352-354 | for every file with left-over bytes there is a clean run to the end of both sides whose output is not the file |
| Exactness.LeftOverExamples | rcopy.c:345-347 | a one-byte file padded to two bytes, a three-byte file cut to two |
| Exactness.LeftOverInTime | server.c:336-342 | for every file of at least a window of buffers there is a completed clean run that reproduces it, left-over bytes included |
| Exactness.CanReproduceFileIff | rcopy.c:327-347 | some completed clean run reproduces the file if and only if nothing is left over after whole buffers or the file is at least a window of buffers long |
| Exactness.NeverOvershootsIff | server.c:289-292 | with SREJs for unsent packets allowed, the receiver stays within the packets before EOF in every run if and only if the file is shorter than a window of buffers |
| Exactness.StalePaneServed | server.c:289-292 | a corrupted packet at a full window makes the server send the pane of a window earlier under the next number, and the receiver write it |
| PeriodicFiles.AlwaysAgreesIff | server.c:289-292 | with SREJs for unsent packets allowed, no run writes a wrong byte if and only if the file repeats with the period of one window |
| PeriodicFiles.StaleByteExample | server.c:326-327 | two different bytes, one per packet, a window of one: a wrong byte is written |
| Wire.SendRR | rcopy.c:365-371 | leaves as a sealed packet with flag 5 and the number |
| Wire.SendSREJ | rcopy.c:373-379 | leaves as a sealed packet with flag 6 and the number |
| Wire.SendEOF | rcopy.c:381-389 | leaves as a sealed packet with flag 10 and number 0 |
| Wire.FlagsOnTheWire | rcopy.c:365-389 | RR travels with flag 5, SREJ with 6, EOF and its acknowledgement with 10, data with 16, each with its number, the acknowledgement with 0 |
| Wire.TakeAtClient | rcopy.c:311-337 | a received packet is corrupted, EOF, or else data, by in_cksum and the flag |
| Wire.TakeAtServer | server.c:269-295 | a received packet is ignored, or one of the three answers, by in_cksum and the flag |
| Wire.ClientGetsMessageOrCorruption | rcopy.c:315-327 | whatever arrives of a message is taken as that message or as corrupted |
| Wire.ServerGetsAckOrCorruption | server.c:270-295 | the same for the receiver's answers |
| Wire.MessagesFitPackets | helperFunctions.c:27-30 | every message of a clean reachable state fits a packet and a 32-bit number |

## Left out

* Sockets, poll, fork, bind and name lookup: replaced by free delivery and timeout steps.
* The handshake's retries and the check of sender addresses: both ends start with equal sizes, and only this transfer's packets arrive.
* Argument parsing, printing, hex dumps and the `printType` output.
* The environment settings, `drand48` and the error rate: every random draw is a free choice.
* The send and receive variants `send_Err`, `recv_Mod` and `recvfrom_Mod`, and the statistics of `infoSeqNo`.
* Received packets shorter than a header: no sender of the program makes one, and the channel keeps lengths.
* Wrap-around of sequence numbers and of the unused-pane mark: excluded by the bound on the file length in `ValidConfig`, within which no expression wraps in a clean run.
* Window size 0, buffers above 1400 bytes, allocation failure and file I/O errors.
* PacketManager.PacketManager.SendtoErr: a short or failed `sendto` is not modelled, and a null or empty buffer, which ends the program, is a precondition.
* FilenameRequest.ChildContext.ProcessClient: names longer than the context's buffer are a precondition, since `checkArgs` limits them to 99 bytes.
* WindowBuffer.WindowBuffer.constructor: panes are values in one array, so pointers into a pane are not modelled; each write replaces the whole pane.
